/** The threshold policy stored in a variance report, and its reader. */
module ThresholdPolicy {
  import opened Numerals
  import opened Decimals
  import opened DecimalText
  import opened MoneyText
  import opened Wrappers
  import opened JsonText
  import opened FinancialInput

  const AMOUNT_COMPARISON := "disabled-at-zero-otherwise-absolute-unrounded-gte"
  const PERCENT_COMPARISON := "absolute-unrounded-gte"
  const DISPLAY_ROUNDING := "ROUND_HALF_EVEN_2DP"

  datatype Error =
    | BadThresholds | UnsupportedVersion | BadPolicy | UnsupportedMetadata
    | UnsupportedFinancialPolicy | BadValue | NotCanonical | DigestMismatch

  datatype Policy = Policy(amount: Dec, percent: Dec, artifactVersion: int, policyVersion: int, financial: string)

  /** Amount parsing, by JSON value and financial input policy. */
  type Parser = (Json, string) -> Option<Dec>

  function PolicyFields(p: Policy): map<string, Json> {
    var fields := map[
      "schema_version" := Int(p.policyVersion),
      "value_encoding" := Str("canonical-decimal-string"),
      "amount_threshold" := Str(CanonicalText(p.amount)),
      "percent_threshold" := Str(CanonicalText(p.percent)),
      "amount_comparison" := Str(AMOUNT_COMPARISON),
      "percent_comparison" := Str(PERCENT_COMPARISON),
      "display_rounding" := Str(DISPLAY_ROUNDING)];
    if p.policyVersion >= 2 then fields["financial_input_policy" := Str(p.financial)] else fields
  }

  function PolicyDigest(sha256: string -> string, p: Policy): string {
    Digest(sha256, true, Obj(PolicyFields(p)))
  }

  function ToCanonical(sha256: string -> string, p: Policy): map<string, Json> {
    PolicyFields(p)["digest_algorithm" := Str("sha256")]["policy_digest" := Str(PolicyDigest(sha256, p))]
  }

  // ----- the reader

  function Resolve(
    parse: Parser, amount: Json, percent: Json,
    artifactVersion: int, policyVersion: int, financial: string): Result<Policy, Error>
  {
    var a := parse(amount, financial);
    var b := parse(percent, financial);
    if a.None? || a.value.coef < 0 || b.None? || b.value.coef < 0 then Err(BadValue)
    else Ok(Policy(a.value, b.value, artifactVersion, policyVersion, financial))
  }

  predicate MetadataSupported(raw: map<string, Json>) {
    && Get(raw, "value_encoding") == Str("canonical-decimal-string")
    && Get(raw, "amount_comparison") == Str(AMOUNT_COMPARISON)
    && Get(raw, "percent_comparison") == Str(PERCENT_COMPARISON)
    && Get(raw, "display_rounding") == Str(DISPLAY_ROUNDING)
    && Get(raw, "digest_algorithm") == Str("sha256")
  }

  function ReadLegacy(parse: Parser, thresholds: Json): Result<Policy, Error> {
    if !thresholds.Obj? || "amount_threshold" !in thresholds.fields || "percent_threshold" !in thresholds.fields
    then Err(BadThresholds)
    else Resolve(parse, thresholds.fields["amount_threshold"], thresholds.fields["percent_threshold"], 1, 1, LEGACY)
  }

  function PolicyVersionOf(artifactVersion: int): int { if artifactVersion == 2 then 1 else 2 }

  /** The financial policy a stored policy names, None when it is not supported. */
  function FinancialOf(artifactVersion: int, raw: map<string, Json>): Option<string> {
    var named := Get(raw, "financial_input_policy");
    if artifactVersion == 2 then (if "financial_input_policy" in raw then None else Some(LEGACY))
    else if named.Str? && Supported(named.s) then Some(named.s) else None
  }

  function ReadPolicy(sha256: string -> string, parse: Parser, version: int, raw: map<string, Json>): Result<Policy, Error> {
    if Get(raw, "schema_version") != Int(PolicyVersionOf(version)) then Err(UnsupportedVersion)
    else if !MetadataSupported(raw) then Err(UnsupportedMetadata)
    else
      var financial := FinancialOf(version, raw);
      if financial.None? then Err(UnsupportedFinancialPolicy)
      else
        var amount, percent := Get(raw, "amount_threshold"), Get(raw, "percent_threshold");
        if !amount.Str? || !percent.Str? then Err(BadValue)
        else
          var r := Resolve(parse, amount, percent, version, PolicyVersionOf(version), financial.value);
          if r.Err? then r
          else if amount.s != CanonicalText(r.value.amount) || percent.s != CanonicalText(r.value.percent) then Err(NotCanonical)
          else if Get(raw, "policy_digest") != Str(PolicyDigest(sha256, r.value)) then Err(DigestMismatch)
          else r
  }

  function ReadThresholds(sha256: string -> string, parse: Parser, payload: map<string, Json>): Result<Policy, Error> {
    var version := Get(payload, "schema_version");
    if version == Null || version == Int(1) then ReadLegacy(parse, Get(payload, "thresholds"))
    else if version != Int(2) && version != Int(3) then Err(UnsupportedVersion)
    else
      var raw := Get(payload, "threshold_policy");
      if !raw.Obj? then Err(BadPolicy) else ReadPolicy(sha256, parse, version.n, raw.fields)
  }

  // ----- canonical form

  predicate WellFormed(p: Policy) {
    && p.amount.coef >= 0 && p.percent.coef >= 0
    && p.artifactVersion in {2, 3}
    && p.policyVersion == PolicyVersionOf(p.artifactVersion)
    && Supported(p.financial)
    && (p.artifactVersion == 2 ==> p.financial == LEGACY)
  }

  /** Parsing inverts canonical decimal text. */
  ghost predicate ParsesCanonical(parse: Parser) {
    forall d: Dec, financial: string :: d.coef >= 0 && Supported(financial) ==>
      var r := parse(Str(CanonicalText(d)), financial);
      r.Some? && SameValue(r.value, d)
  }

  /** Raw has every field that the writer writes for p, and none that its version forbids. */
  ghost predicate Stores(sha256: string -> string, raw: map<string, Json>, p: Policy) {
    && (forall k :: k in ToCanonical(sha256, p) ==> k in raw && raw[k] == ToCanonical(sha256, p)[k])
    && (p.artifactVersion == 2 ==> "financial_input_policy" !in raw)
  }

  /** Stores, field by field. */
  ghost predicate FieldsMatch(sha256: string -> string, raw: map<string, Json>, p: Policy) {
    && Get(raw, "schema_version") == Int(p.policyVersion)
    && MetadataSupported(raw)
    && Get(raw, "amount_threshold") == Str(CanonicalText(p.amount))
    && Get(raw, "percent_threshold") == Str(CanonicalText(p.percent))
    && Get(raw, "policy_digest") == Str(PolicyDigest(sha256, p))
    && (if p.artifactVersion == 2 then "financial_input_policy" !in raw
        else Get(raw, "financial_input_policy") == Str(p.financial))
  }

  lemma CanonicalKeys(sha256: string -> string, p: Policy)
    requires WellFormed(p)
    ensures ToCanonical(sha256, p).Keys
         == {"schema_version", "value_encoding", "amount_threshold", "percent_threshold", "amount_comparison",
             "percent_comparison", "display_rounding", "digest_algorithm", "policy_digest"}
          + (if p.artifactVersion == 2 then {} else {"financial_input_policy"})
    ensures FieldsMatch(sha256, ToCanonical(sha256, p), p)
  {
    hide CanonicalText, PolicyDigest, Supported, FieldsMatch;
    CanonicalFields(sha256, p);
  }

  lemma CanonicalFields(sha256: string -> string, p: Policy)
    requires WellFormed(p)
    ensures FieldsMatch(sha256, ToCanonical(sha256, p), p)
  {
    hide CanonicalText, PolicyDigest, Supported, PolicyFields;
    FieldValues(p);
    FieldMetadata(p);
  }

  lemma FieldMetadata(p: Policy)
    ensures var f := PolicyFields(p);
      && Get(f, "value_encoding") == Str("canonical-decimal-string")
      && Get(f, "amount_comparison") == Str(AMOUNT_COMPARISON)
      && Get(f, "percent_comparison") == Str(PERCENT_COMPARISON)
      && Get(f, "display_rounding") == Str(DISPLAY_ROUNDING)
      && ("financial_input_policy" in f <==> p.policyVersion >= 2)
  {
    hide CanonicalText;
  }

  lemma StoresIffFieldsMatch(sha256: string -> string, raw: map<string, Json>, p: Policy)
    requires WellFormed(p)
    ensures Stores(sha256, raw, p) <==> FieldsMatch(sha256, raw, p)
  {
    hide FieldsMatch, Stores, ToCanonical;
    if FieldsMatch(sha256, raw, p) { MatchingStores(sha256, raw, p); }
    if Stores(sha256, raw, p) { StoresMatch(sha256, raw, p); }
  }

  lemma MatchingStores(sha256: string -> string, raw: map<string, Json>, p: Policy)
    requires WellFormed(p) && FieldsMatch(sha256, raw, p)
    ensures Stores(sha256, raw, p)
  {
    hide CanonicalText, ToCanonical, PolicyDigest, Supported;
    CanonicalKeys(sha256, p);
    var c := ToCanonical(sha256, p);
    forall k | k in c ensures k in raw && raw[k] == c[k] { assert Get(raw, k) == Get(c, k); }
  }

  lemma StoresMatch(sha256: string -> string, raw: map<string, Json>, p: Policy)
    requires WellFormed(p) && Stores(sha256, raw, p)
    ensures FieldsMatch(sha256, raw, p)
  {
    hide CanonicalText, ToCanonical, PolicyDigest, Supported;
    CanonicalKeys(sha256, p);
  }

  lemma DigestOfSame(sha256: string -> string, p: Policy, q: Policy)
    requires SameValue(p.amount, q.amount) && SameValue(p.percent, q.percent)
    requires p.policyVersion == q.policyVersion && p.financial == q.financial
    ensures CanonicalText(p.amount) == CanonicalText(q.amount) && CanonicalText(p.percent) == CanonicalText(q.percent)
    ensures PolicyDigest(sha256, p) == PolicyDigest(sha256, q)
  {
    hide CanonicalText, SameValue;
    CanonicalIffSameValue(p.amount, q.amount);
    CanonicalIffSameValue(p.percent, q.percent);
  }

  predicate SamePolicy(p: Policy, q: Policy) {
    && SameValue(p.amount, q.amount) && SameValue(p.percent, q.percent)
    && p.artifactVersion == q.artifactVersion && p.policyVersion == q.policyVersion && p.financial == q.financial
  }

  /** An accepted policy object is, field for field, what the writer writes for the policy read from it. */
  lemma AcceptedIsCanonical(sha256: string -> string, parse: Parser, version: int, raw: map<string, Json>)
    requires version in {2, 3} && ReadPolicy(sha256, parse, version, raw).Ok?
    ensures var p := ReadPolicy(sha256, parse, version, raw).value;
      WellFormed(p) && p.artifactVersion == version && Stores(sha256, raw, p)
  {
    hide CanonicalText, PolicyDigest, MetadataSupported, Stores;
    var p := ReadPolicy(sha256, parse, version, raw).value;
    StoresIffFieldsMatch(sha256, raw, p);
  }

  /** Reading what the writer wrote gives the same policy back, with the same digest. */
  lemma WrittenReadsBack(sha256: string -> string, parse: Parser, raw: map<string, Json>, p: Policy)
    requires ParsesCanonical(parse) && WellFormed(p) && Stores(sha256, raw, p)
    ensures var r := ReadPolicy(sha256, parse, p.artifactVersion, raw);
      r.Ok? && SamePolicy(p, r.value) && PolicyDigest(sha256, r.value) == PolicyDigest(sha256, p)
  {
    hide CanonicalText, PolicyDigest, MetadataSupported, Stores, SameValue;
    StoresIffFieldsMatch(sha256, raw, p);
    var a := parse(Str(CanonicalText(p.amount)), p.financial).value;
    var b := parse(Str(CanonicalText(p.percent)), p.financial).value;
    SameSign(a, p.amount);
    SameSign(b, p.percent);
    var q := Policy(a, b, p.artifactVersion, p.policyVersion, p.financial);
    SwapValue(a, p.amount);
    SwapValue(b, p.percent);
    DigestOfSame(sha256, p, q);
  }

  lemma SwapValue(a: Dec, b: Dec)
    requires SameValue(a, b)
    ensures SameValue(b, a)
  {
  }

  lemma SameSign(a: Dec, b: Dec)
    requires SameValue(a, b) && b.coef >= 0
    ensures a.coef >= 0
  {
    var m := Min(a.exp, b.exp);
    MulMono(0, b.coef, Pow10(b.exp - m));
    if a.coef < 0 { MulStrict(a.coef, 0, Pow10(a.exp - m)); }
  }

  /** A stored policy is accepted exactly when it is the canonical form of some policy of its version. */
  lemma AcceptedIffCanonical(sha256: string -> string, parse: Parser, version: int, raw: map<string, Json>)
    requires ParsesCanonical(parse) && version in {2, 3}
    ensures ReadPolicy(sha256, parse, version, raw).Ok?
       <==> exists p :: WellFormed(p) && p.artifactVersion == version && Stores(sha256, raw, p)
  {
    hide Stores, ReadPolicy, WellFormed, ParsesCanonical;
    if ReadPolicy(sha256, parse, version, raw).Ok? {
      AcceptedIsCanonical(sha256, parse, version, raw);
    }
    if p :| WellFormed(p) && p.artifactVersion == version && Stores(sha256, raw, p) {
      WrittenReadsBack(sha256, parse, raw, p);
    }
  }

  /** A policy survives being written into a current report and read back. */
  lemma ReportRoundTrip(sha256: string -> string, parse: Parser, payload: map<string, Json>, p: Policy)
    requires ParsesCanonical(parse) && WellFormed(p)
    requires Get(payload, "schema_version") == Int(p.artifactVersion)
    requires Get(payload, "threshold_policy") == Obj(ToCanonical(sha256, p))
    ensures var r := ReadThresholds(sha256, parse, payload);
      r.Ok? && SamePolicy(p, r.value) && PolicyDigest(sha256, r.value) == PolicyDigest(sha256, p)
  {
    hide ReadPolicy, ToCanonical, PolicyDigest, SamePolicy, ParsesCanonical;
    CanonicalKeys(sha256, p);
    assert Stores(sha256, ToCanonical(sha256, p), p);
    WrittenReadsBack(sha256, parse, ToCanonical(sha256, p), p);
  }

  /** One digest, one decision: equal digests mean equal limits, version and input policy, or a collision. */
  lemma DigestFixesPolicy(sha256: string -> string, p: Policy, q: Policy)
    requires PolicyDigest(sha256, p) == PolicyDigest(sha256, q)
    ensures
      || Collision(sha256, Encode(true, Obj(PolicyFields(p))), Encode(true, Obj(PolicyFields(q))))
      || (&& SameValue(p.amount, q.amount) && SameValue(p.percent, q.percent)
          && p.policyVersion == q.policyVersion
          && (p.policyVersion >= 2 ==> p.financial == q.financial))
  {
    hide Encode, Collision, CanonicalText, SameValue;
    DigestFixesValue(sha256, true, Obj(PolicyFields(p)), Obj(PolicyFields(q)));
    if PolicyFields(p) == PolicyFields(q) {
      FieldValues(p);
      FieldValues(q);
      CanonicalIffSameValue(p.amount, q.amount);
      CanonicalIffSameValue(p.percent, q.percent);
    }
  }

  lemma FieldValues(p: Policy)
    ensures var f := PolicyFields(p);
      && Get(f, "schema_version") == Int(p.policyVersion)
      && Get(f, "amount_threshold") == Str(CanonicalText(p.amount))
      && Get(f, "percent_threshold") == Str(CanonicalText(p.percent))
      && (p.policyVersion >= 2 ==> Get(f, "financial_input_policy") == Str(p.financial))
  {
    hide CanonicalText;
  }

  // ----- what the reader accepts, key by key

  /** Raw is a stored policy of the given artifact version, and p is what it says. */
  ghost predicate SaysPolicy(sha256: string -> string, parse: Parser, version: int, raw: map<string, Json>, p: Policy) {
    var current := version == 3;
    && p.artifactVersion == version && p.policyVersion == (if current then 2 else 1)
    && p.amount.coef >= 0 && p.percent.coef >= 0
    && p.financial in (if current then {"legacy-financial-input-v1", "strict-financial-input-v2"} else {"legacy-financial-input-v1"})
    && {"schema_version", "value_encoding", "amount_comparison", "percent_comparison", "display_rounding",
        "digest_algorithm", "amount_threshold", "percent_threshold", "policy_digest"} <= raw.Keys
    && raw["schema_version"] == Int(if current then 2 else 1)
    && raw["value_encoding"] == Str("canonical-decimal-string")
    && raw["amount_comparison"] == Str("disabled-at-zero-otherwise-absolute-unrounded-gte")
    && raw["percent_comparison"] == Str("absolute-unrounded-gte")
    && raw["display_rounding"] == Str("ROUND_HALF_EVEN_2DP")
    && raw["digest_algorithm"] == Str("sha256")
    && (if current then "financial_input_policy" in raw && raw["financial_input_policy"] == Str(p.financial)
        else "financial_input_policy" !in raw)
    && raw["amount_threshold"] == Str(CanonicalText(p.amount)) && parse(raw["amount_threshold"], p.financial) == Some(p.amount)
    && raw["percent_threshold"] == Str(CanonicalText(p.percent)) && parse(raw["percent_threshold"], p.financial) == Some(p.percent)
    && var digested := {"schema_version", "value_encoding", "amount_threshold", "percent_threshold", "amount_comparison",
                        "percent_comparison", "display_rounding"} + (if current then {"financial_input_policy"} else {});
      raw["policy_digest"] == Str(sha256(Encode(true, Obj(map k | k in digested :: raw[k]))))
  }

  lemma DigestedFields(sha256: string -> string, raw: map<string, Json>, p: Policy)
    requires p.artifactVersion in {2, 3} && p.policyVersion == PolicyVersionOf(p.artifactVersion)
    requires FieldsMatch(sha256, raw, p)
    ensures var digested := {"schema_version", "value_encoding", "amount_threshold", "percent_threshold", "amount_comparison",
                             "percent_comparison", "display_rounding"}
                            + (if p.artifactVersion == 3 then {"financial_input_policy"} else {});
      && digested <= raw.Keys
      && (map k | k in digested :: raw[k]) == PolicyFields(p)
  {
    hide CanonicalText, PolicyDigest;
    var digested := {"schema_version", "value_encoding", "amount_threshold", "percent_threshold", "amount_comparison",
                     "percent_comparison", "display_rounding"}
                    + (if p.artifactVersion == 3 then {"financial_input_policy"} else {});
    assert digested == PolicyFields(p).Keys;
    forall k | k in digested ensures k in raw && raw[k] == PolicyFields(p)[k] { assert Get(raw, k) == Get(PolicyFields(p), k); }
  }

  lemma SaidFields(sha256: string -> string, parse: Parser, version: int, raw: map<string, Json>, p: Policy)
    requires version in {2, 3} && SaysPolicy(sha256, parse, version, raw, p)
    ensures FieldsMatch(sha256, raw, p)
  {
    hide CanonicalText, Encode, PolicyDigest;
    var digested := {"schema_version", "value_encoding", "amount_threshold", "percent_threshold", "amount_comparison",
                     "percent_comparison", "display_rounding"} + (if version == 3 then {"financial_input_policy"} else {});
    assert (map k | k in digested :: raw[k]) == PolicyFields(p);
    DigestText(sha256, p);
  }

  lemma DigestText(sha256: string -> string, p: Policy)
    ensures PolicyDigest(sha256, p) == sha256(Encode(true, Obj(PolicyFields(p))))
  {
  }

  /** The reader of a stored policy, both ways. */
  lemma ReadPolicyMeans(sha256: string -> string, parse: Parser, version: int, raw: map<string, Json>, p: Policy)
    requires version in {2, 3}
    ensures ReadPolicy(sha256, parse, version, raw) == Ok(p) <==> SaysPolicy(sha256, parse, version, raw, p)
  {
    hide CanonicalText, Encode, PolicyDigest, PolicyFields, MetadataSupported, SaysPolicy;
    if ReadPolicy(sha256, parse, version, raw) == Ok(p) {
      ReadSays(sha256, parse, version, raw, p);
    }
    if SaysPolicy(sha256, parse, version, raw, p) {
      SaidReads(sha256, parse, version, raw, p);
    }
  }

  lemma ReadSays(sha256: string -> string, parse: Parser, version: int, raw: map<string, Json>, p: Policy)
    requires version in {2, 3} && ReadPolicy(sha256, parse, version, raw) == Ok(p)
    ensures SaysPolicy(sha256, parse, version, raw, p)
  {
    hide CanonicalText, Encode, PolicyDigest, PolicyFields;
    assert FieldsMatch(sha256, raw, p);
    DigestedFields(sha256, raw, p);
    DigestText(sha256, p);
  }

  lemma SaidReads(sha256: string -> string, parse: Parser, version: int, raw: map<string, Json>, p: Policy)
    requires version in {2, 3} && SaysPolicy(sha256, parse, version, raw, p)
    ensures ReadPolicy(sha256, parse, version, raw) == Ok(p)
  {
    hide CanonicalText, Encode, PolicyDigest, PolicyFields;
    SaidFields(sha256, parse, version, raw, p);
  }

  /** The reader of a whole report: unversioned and v1 reports hold bare legacy limits, v2 and v3 a stored policy. */
  lemma ReadThresholdsMeans(sha256: string -> string, parse: Parser, payload: map<string, Json>, p: Policy)
    ensures ReadThresholds(sha256, parse, payload) == Ok(p) <==>
      || ((Get(payload, "schema_version") == Null || Get(payload, "schema_version") == Int(1))
          && "thresholds" in payload && SaysLimits(parse, payload["thresholds"], p))
      || (Get(payload, "schema_version") == Int(p.artifactVersion) && p.artifactVersion in {2, 3}
          && "threshold_policy" in payload && payload["threshold_policy"].Obj?
          && SaysPolicy(sha256, parse, p.artifactVersion, payload["threshold_policy"].fields, p))
  {
    hide ReadPolicy, SaysPolicy;
    var version := Get(payload, "schema_version");
    if version == Int(2) || version == Int(3) {
      var raw := Get(payload, "threshold_policy");
      if raw.Obj? {
        ReadPolicyMeans(sha256, parse, version.n, raw.fields, p);
        if ReadPolicy(sha256, parse, version.n, raw.fields) == Ok(p) { VersionRead(sha256, parse, version.n, raw.fields, p); }
      }
    }
  }

  lemma VersionRead(sha256: string -> string, parse: Parser, version: int, raw: map<string, Json>, p: Policy)
    requires version in {2, 3} && ReadPolicy(sha256, parse, version, raw) == Ok(p)
    ensures p.artifactVersion == version
  {
    hide CanonicalText, PolicyDigest, MetadataSupported;
  }

  /** The bare limits of a legacy report. */
  ghost predicate SaysLimits(parse: Parser, thresholds: Json, p: Policy) {
    && thresholds.Obj? && "amount_threshold" in thresholds.fields && "percent_threshold" in thresholds.fields
    && parse(thresholds.fields["amount_threshold"], "legacy-financial-input-v1") == Some(p.amount) && p.amount.coef >= 0
    && parse(thresholds.fields["percent_threshold"], "legacy-financial-input-v1") == Some(p.percent) && p.percent.coef >= 0
    && p.artifactVersion == 1 && p.policyVersion == 1 && p.financial == "legacy-financial-input-v1"
  }

  // ----- the amount parser obeys the law

  lemma AmountParserInverts(ambient: Context)
    ensures ParsesCanonical((v, financial) => ParseAmount(ambient, v, financial))
  {
    hide CanonicalText, ParseAmount, SameValue;
    forall d: Dec, financial: string | d.coef >= 0 && Supported(financial)
      ensures var r := ParseAmount(ambient, Str(CanonicalText(d)), financial); r.Some? && SameValue(r.value, d)
    {
      AmountReadsBack(ambient, d, financial);
    }
  }
}
