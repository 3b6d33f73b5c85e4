/** Finalizing and verifying a period-comparison payload. */
module PeriodVerifier {
  import opened Wrappers
  import opened Texts
  import opened JsonText
  import opened FinancialInput
  import opened PeriodArtifact

  predicate ValidFinancial(v: Json) { v.Str? && Supported(v.s) }

  function ComparisonPolicy(financial: Json): (v: Json)
    ensures v.Obj?
  {
    Obj(map[
      "algorithm_version" := Str("period-exception-fingerprint-v2"),
      "amount_rounding_policy" := Str("ROUND_HALF_UP"),
      "amount_fractional_digits" := Int(2),
      "invalid_amount_policy" :=
        Str(if financial == Str(LEGACY) then "legacy-zero-v1" else "explicit-invalid-or-missing-v2")])
  }

  /** Python equality with the expected policy: its whole number may be written as 2 or 2.0. */
  predicate PolicyMatches(v: Json, financial: Json) {
    var expected := ComparisonPolicy(financial);
    && v.Obj?
    && EqualsInt(Get(v.fields, "amount_fractional_digits"), 2)
    && v.fields["amount_fractional_digits" := Int(2)] == expected.fields
  }

  lemma PolicyMatchesItself(financial: Json)
    ensures PolicyMatches(ComparisonPolicy(financial), financial)
  {
    var m := ComparisonPolicy(financial).fields;
    assert m["amount_fractional_digits" := Int(2)] == m;
  }

  // ----- verification

  predicate FixedFieldsOk(p: map<string, Json>) {
    && EqualsInt(Get(p, "schema_version"), SCHEMA_VERSION)
    && Get(p, "artifact_type") == Str(ARTIFACT_TYPE)
    && ValidFinancial(Get(p, "financial_input_policy"))
    && PolicyMatches(Get(p, "comparison_policy"), Get(p, "financial_input_policy"))
    && Get(p, "integrity_boundary") == Str(INTEGRITY_BOUNDARY)
  }

  ghost predicate HeaderOk(p: map<string, Json>) {
    FixedFieldsOk(p) && ValidInputPeriods(Get(p, "input_periods"))
  }

  /** Both digests can be taken, which fails on a NaN or an infinity, and are the stored ones. */
  predicate DigestsOk(sha256: string -> string, p: map<string, Json>)
    requires Decidable(p)
  {
    && AllFinite(DecisionPayload(p))
    && Get(p, "decision_digest") == Str(DecisionDigest(sha256, p))
    && AllFinite(Body(p, "artifact_digest"))
    && Get(p, "artifact_digest") == Str(Digest(sha256, false, Body(p, "artifact_digest")))
  }

  ghost predicate Verified(sha256: string -> string, p: map<string, Json>) {
    HeaderOk(p) && Decidable(p) && DigestsOk(sha256, p)
  }

  method VerifyPayload(sha256: string -> string, p: map<string, Json>, folders: Option<seq<Folder>>) returns (ok: bool)
    ensures ok <==> Verified(sha256, p) && (folders.Some? ==> Get(p, "input_periods") == Arr(InputManifest(folders.value)))
  {
    hide FixedFieldsOk, ValidInputPeriods, Decidable, DigestsOk, InputManifest;
    if !FixedFieldsOk(p) { return false; }
    var inputsOk := ValidateInputPeriods(Get(p, "input_periods"));
    if !inputsOk || !Decidable(p) || !DigestsOk(sha256, p) { return false; }
    if folders.Some? {
      var manifests := PeriodInputManifest(folders.value);
      if Get(p, "input_periods") != Arr(manifests) { return false; }
    }
    return true;
  }

  // ----- finalization

  function WithDecision(sha256: string -> string, p: map<string, Json>): map<string, Json>
    requires Decidable(p)
  {
    p["decision_digest" := Str(DecisionDigest(sha256, p))]
  }

  function Finalized(sha256: string -> string, p: map<string, Json>): map<string, Json>
    requires Decidable(p)
  {
    var decided := WithDecision(sha256, p);
    decided["artifact_digest" := Str(Digest(sha256, false, Obj(decided)))]
  }

  /** The decision exists, and nothing but the old decision digest may be a NaN or an infinity. */
  predicate Digestible(p: map<string, Json>) { Decidable(p) && AllFinite(Body(p, "decision_digest")) }

  class PeriodPayload {
    var fields: map<string, Json>

    constructor (fields: map<string, Json>)
      ensures this.fields == fields
    {
      this.fields := fields;
    }

    /** Writes both digests into the payload. A payload without a finite decision is left as it was;
        one with a finite decision and a NaN or an infinity elsewhere keeps the decision digest it was given. */
    method Finalize(sha256: string -> string) returns (ok: bool)
      modifies this
      ensures ok <==> Digestible(old(fields))
      ensures fields ==
        if ok then Finalized(sha256, old(fields))
        else if Decidable(old(fields)) && AllFinite(DecisionPayload(old(fields))) then WithDecision(sha256, old(fields))
        else old(fields)
    {
      hide Decidable, DecisionPayload, DecisionDigest, AllFinite, Digest;
      if Decidable(fields) { DigestibleStepwise(sha256, fields); }
      if !Decidable(fields) || !AllFinite(DecisionPayload(fields)) { return false; }
      fields := fields["decision_digest" := Str(DecisionDigest(sha256, fields))];
      if !AllFinite(Obj(fields)) { return false; }
      fields := fields["artifact_digest" := Str(Digest(sha256, false, Obj(fields)))];
      return true;
    }
  }

  /** The two digests taken one after the other succeed exactly on digestible payloads. */
  lemma DigestibleStepwise(sha256: string -> string, p: map<string, Json>)
    requires Decidable(p)
    ensures AllFinite(Obj(WithDecision(sha256, p))) <==> Digestible(p)
    ensures Digestible(p) ==> AllFinite(DecisionPayload(p))
  {
    hide Decidable, DecisionPayload, DecisionDigest, AllFinite;
    var k := "decision_digest";
    StoredFinite(p, k, DecisionDigest(sha256, p));
    if Digestible(p) {
      FiniteFields(p - {k});
      assert forall k' :: k' in p && k' != k ==> k' in p - {k} && p[k'] == (p - {k})[k'];
      DecisionFinite(p);
    }
  }

  lemma StoredFinite(p: map<string, Json>, key: string, s: string)
    ensures AllFinite(Obj(p[key := Str(s)])) <==> AllFinite(Body(p, key))
  {
    hide AllFinite;
    var stored, body := p[key := Str(s)], p - {key};
    FiniteFields(stored);
    FiniteFields(body);
    assert AllFinite(stored[key]) by { FiniteString(s); }
    assert forall k :: k in body ==> k in stored && stored[k] == body[k];
    assert forall k :: k in stored && k != key ==> k in body && stored[k] == body[k];
  }

  lemma DroppedFinite(p: map<string, Json>, key: string)
    requires AllFinite(Obj(p))
    ensures AllFinite(Body(p, key))
  {
    hide AllFinite;
    FiniteFields(p);
    FiniteFields(p - {key});
  }

  lemma FiniteString(s: string)
    ensures AllFinite(Str(s))
  {
  }

  /** Neither the header nor the decision reads the two digest fields. */
  lemma DigestsUnread(p: map<string, Json>, key: string, v: Json)
    requires key in {"decision_digest", "artifact_digest"}
    ensures HeaderOk(p[key := v]) <==> HeaderOk(p)
    ensures Decidable(p[key := v]) <==> Decidable(p)
    ensures Decidable(p) ==> DecisionPayload(p[key := v]) == DecisionPayload(p)
  {
    hide Records, WithoutPeriodPath, ComparisonKeys, ValidInputPeriods, PolicyMatches, ValidFinancial, DecisionPayload;
    OthersKept(p, key, v);
    if Decidable(p) { DecisionUnread(p, key, v); }
  }

  lemma OthersKept(p: map<string, Json>, key: string, v: Json)
    requires key in {"decision_digest", "artifact_digest"}
    ensures var q := p[key := v];
      && (forall k :: k != key ==> Get(q, k) == Get(p, k) && (k in q <==> k in p))
      && TrendOf(q) == TrendOf(p) && ListOf(q, "period_counts") == ListOf(p, "period_counts")
      && forall i :: 0 <= i < |LISTS| ==> ListOf(q, LISTS[i]) == ListOf(p, LISTS[i])
  {
  }

  lemma DecisionUnread(p: map<string, Json>, key: string, v: Json)
    requires key in {"decision_digest", "artifact_digest"} && Decidable(p) && Decidable(p[key := v])
    ensures DecisionPayload(p[key := v]) == DecisionPayload(p)
  {
    hide Records, WithoutPeriodPath, ComparisonKeys, TrendOf, ListOf;
    OthersKept(p, key, v);
  }

  lemma FinalizedDigests(sha256: string -> string, p: map<string, Json>)
    requires HeaderOk(p) && Digestible(p)
    ensures var decided := WithDecision(sha256, p);
      var q := Finalized(sha256, p);
      && HeaderOk(q) && Digestible(q)
      && AllFinite(DecisionPayload(q)) && AllFinite(Body(q, "artifact_digest"))
      && Get(q, "decision_digest") == Str(DecisionDigest(sha256, q))
      && Body(q, "artifact_digest") == Body(decided, "artifact_digest")
  {
    hide HeaderOk, Decidable, DecisionPayload, AllFinite, Digest;
    var decided := WithDecision(sha256, p);
    var digest := Digest(sha256, false, Obj(decided));
    DigestsUnread(p, "decision_digest", Str(DecisionDigest(sha256, p)));
    DigestsUnread(decided, "artifact_digest", Str(digest));
    FinalizedFinite(sha256, p);
    DigestibleStepwise(sha256, Finalized(sha256, p));
    assert decided["artifact_digest" := Str(digest)] - {"artifact_digest"} == decided - {"artifact_digest"};
  }

  lemma FinalizedFinite(sha256: string -> string, p: map<string, Json>)
    requires Digestible(p)
    ensures var q := Finalized(sha256, p);
      && AllFinite(Body(q, "decision_digest")) && AllFinite(Body(q, "artifact_digest"))
  {
    hide Decidable, DecisionPayload, DecisionDigest, AllFinite, Digest;
    var decided, k, k' := WithDecision(sha256, p), "decision_digest", "artifact_digest";
    var digest := Digest(sha256, false, Obj(decided));
    DigestibleStepwise(sha256, p);
    DroppedFinite(decided, k');
    DroppedFinite(p - {k}, k');
    StoredFinite(p - {k}, k', digest);
    assert Finalized(sha256, p) - {k} == (p - {k})[k' := Str(digest)];
    assert Finalized(sha256, p) - {k'} == decided - {k'};
  }

  /** Finalizing yields a verifiable artifact exactly when the payload carried no artifact digest yet:
      a stale one is digested along and then left out by the verifier. */
  lemma FinalizedVerifiesIff(sha256: string -> string, p: map<string, Json>)
    requires HeaderOk(p) && Digestible(p)
    ensures var decided := WithDecision(sha256, p);
      Verified(sha256, Finalized(sha256, p)) <==>
        || "artifact_digest" !in p
        || Collision(sha256, Encode(false, Obj(decided)), Encode(false, Body(decided, "artifact_digest")))
  {
    hide HeaderOk, Decidable, DecisionDigest, DecisionPayload, AllFinite, Encode, Collision;
    FinalizedDigests(sha256, p);
    var decided := WithDecision(sha256, p);
    if "artifact_digest" !in p {
      assert decided - {"artifact_digest"} == decided;
    } else {
      assert Obj(decided) != Body(decided, "artifact_digest");
      StaleDigest(sha256, Obj(decided), Body(decided, "artifact_digest"));
    }
  }

  /** Finalizing an artifact a second time spoils it, short of a collision. */
  lemma RefinalizedRejected(sha256: string -> string, p: map<string, Json>)
    requires HeaderOk(p) && Digestible(p)
    ensures var q := Finalized(sha256, p);
      && Digestible(q)
      && var decided := WithDecision(sha256, q);
        || !Verified(sha256, Finalized(sha256, q))
        || Collision(sha256, Encode(false, Obj(decided)), Encode(false, Body(decided, "artifact_digest")))
  {
    hide HeaderOk, Decidable, DecisionDigest, Encode, Collision, Verified;
    FinalizedDigests(sha256, p);
    FinalizedVerifiesIff(sha256, Finalized(sha256, p));
  }

  lemma StaleDigest(sha256: string -> string, x: Json, y: Json)
    requires x != y
    ensures Digest(sha256, false, x) == Digest(sha256, false, y)
       <==> Collision(sha256, Encode(false, x), Encode(false, y))
  {
    hide Encode;
    if Encode(false, x) == Encode(false, y) { EncodeInjective(false, x, y); }
  }

  /** Verified artifacts with one artifact digest agree on every field, or their bodies collide. */
  lemma ArtifactDigestFixesAll(sha256: string -> string, p: map<string, Json>, q: map<string, Json>)
    requires Verified(sha256, p) && Verified(sha256, q)
    requires Get(p, "artifact_digest") == Get(q, "artifact_digest")
    ensures p == q
      || Collision(sha256, Encode(false, Body(p, "artifact_digest")), Encode(false, Body(q, "artifact_digest")))
  {
    hide HeaderOk, Decidable, DecisionDigest, Encode, Collision;
    var k := "artifact_digest";
    DigestFixesValue(sha256, false, Body(p, k), Body(q, k));
    if p - {k} == q - {k} {
      assert p == (p - {k})[k := p[k]] && q == (q - {k})[k := q[k]];
    }
  }

  // ----- what a verified artifact says

  /** The number 2, which Python also recognizes in 2.0. */
  predicate IsTwo(v: Json) { v == Int(2) || (v.Float? && v.text == "2.0") }

  /** The four entries of the comparison policy. */
  predicate PolicyRight(v: Json, financial: Json) {
    && v.Obj?
    && v.fields.Keys == {"algorithm_version", "amount_rounding_policy", "amount_fractional_digits", "invalid_amount_policy"}
    && v.fields["algorithm_version"] == Str("period-exception-fingerprint-v2")
    && v.fields["amount_rounding_policy"] == Str("ROUND_HALF_UP")
    && IsTwo(v.fields["amount_fractional_digits"])
    && v.fields["invalid_amount_policy"]
      == Str(if financial == Str("legacy-financial-input-v1") then "legacy-zero-v1" else "explicit-invalid-or-missing-v2")
  }

  /** Every header field as the verifier asks for it. */
  ghost predicate HeaderRight(p: map<string, Json>) {
    && {"schema_version", "artifact_type", "financial_input_policy", "comparison_policy", "integrity_boundary", "input_periods"}
       <= p.Keys
    && IsTwo(p["schema_version"])
    && p["artifact_type"] == Str("reconforge-period-comparison")
    && p["financial_input_policy"] in {Str("legacy-financial-input-v1"), Str("strict-financial-input-v2")}
    && PolicyRight(p["comparison_policy"], p["financial_input_policy"])
    && p["integrity_boundary"] == Str(INTEGRITY_BOUNDARY)
    && p["input_periods"].Arr?
    && forall i :: 0 <= i < |p["input_periods"].items| ==> PeriodRecorded(i, p["input_periods"].items[i])
  }

  lemma TwoIff(v: Json)
    ensures EqualsInt(v, 2) <==> IsTwo(v)
  {
    assert IntText(2) + ".0" == "2.0";
  }

  lemma PolicyIff(v: Json, financial: Json)
    ensures PolicyMatches(v, financial) <==> PolicyRight(v, financial)
  {
    hide EqualsInt, IsFloatText, ComparisonPolicy;
    if v.Obj? {
      TwoIff(Get(v.fields, "amount_fractional_digits"));
      ExpectedPolicy(financial);
      if "amount_fractional_digits" in v.fields {
        ReplacedEntry(v.fields, "amount_fractional_digits", Int(2), ComparisonPolicy(financial).fields);
      }
    }
  }

  lemma ExpectedPolicy(financial: Json)
    ensures var e := ComparisonPolicy(financial).fields;
      && e.Keys == {"algorithm_version", "amount_rounding_policy", "amount_fractional_digits", "invalid_amount_policy"}
      && e["amount_fractional_digits"] == Int(2)
      && e["algorithm_version"] == Str("period-exception-fingerprint-v2")
      && e["amount_rounding_policy"] == Str("ROUND_HALF_UP")
      && e["invalid_amount_policy"]
        == Str(if financial == Str("legacy-financial-input-v1") then "legacy-zero-v1" else "explicit-invalid-or-missing-v2")
  {
  }

  lemma ReplacedEntry(c: map<string, Json>, key: string, x: Json, e: map<string, Json>)
    requires key in c && key in e && e[key] == x
    ensures c[key := x] == e <==> c.Keys == e.Keys && forall k :: k in e && k != key ==> k in c && c[k] == e[k]
  {
    assert c[key := x].Keys == c.Keys;
    if c[key := x] == e { assert forall k :: k in e && k != key ==> c[k] == c[key := x][k]; }
  }

  lemma HeaderIff(p: map<string, Json>)
    ensures HeaderOk(p) <==> HeaderRight(p)
  {
    hide PolicyMatches, ValidInputPeriods, EqualsInt, PeriodRecorded, IsFloatText;
    TwoIff(Get(p, "schema_version"));
    PolicyIff(Get(p, "comparison_policy"), Get(p, "financial_input_policy"));
    InputPeriodsMean(Get(p, "input_periods"));
  }

  /** The verifier accepts exactly these payloads. */
  lemma VerifiedMeans(sha256: string -> string, p: map<string, Json>)
    ensures Verified(sha256, p) <==>
      && HeaderRight(p) && Decidable(p)
      && AllFinite(DecisionPayload(p)) && AllFinite(Obj(p - {"artifact_digest"}))
      && "decision_digest" in p && p["decision_digest"] == Str(sha256(Encode(false, DecisionPayload(p))))
      && "artifact_digest" in p && p["artifact_digest"] == Str(sha256(Encode(false, Obj(p - {"artifact_digest"}))))
  {
    hide HeaderOk, HeaderRight, Decidable, DecisionPayload, AllFinite, Encode;
    HeaderIff(p);
  }

  // ----- forged artifacts

  /** Another decision digest is refused, whatever artifact digest is stored over it. */
  lemma ForgedDecisionRejected(sha256: string -> string, p: map<string, Json>, v: Json, w: Json)
    requires Verified(sha256, p) && v != Get(p, "decision_digest")
    ensures !Verified(sha256, p["decision_digest" := v]["artifact_digest" := w])
  {
    hide HeaderOk, Decidable, DecisionPayload, AllFinite, Encode;
    DigestsUnread(p, "decision_digest", v);
    DigestsUnread(p["decision_digest" := v], "artifact_digest", w);
  }

  /** A changed header field is refused, whatever digests are stored over it. */
  lemma ForgedHeaderRejected(sha256: string -> string, p: map<string, Json>, key: string, v: Json, d: Json, w: Json)
    requires Verified(sha256, p)
    requires
      || (key in {"artifact_type", "financial_input_policy", "integrity_boundary"} && v != Get(p, key))
      || (key == "schema_version" && !IsTwo(v))
      || (key == "comparison_policy" && !SamePolicy(v, Get(p, key)))
    ensures !Verified(sha256, p[key := v]["decision_digest" := d]["artifact_digest" := w])
  {
    hide HeaderOk, HeaderRight, Decidable, DecisionPayload, AllFinite, Encode, IsFloatText, SamePolicy;
    var q := p[key := v]["decision_digest" := d]["artifact_digest" := w];
    HeaderIff(p);
    HeaderIff(q);
    assert Get(q, key) == v && forall k :: k !in {key, "decision_digest", "artifact_digest"} ==> Get(q, k) == Get(p, k);
    if HeaderRight(q) {
      HeaderFixed(p, q);
    }
  }

  /** Right headers differ at most in how a 2 is written, and in their policies and input periods. */
  lemma HeaderFixed(p: map<string, Json>, q: map<string, Json>)
    requires HeaderRight(p) && HeaderRight(q)
    ensures Get(p, "artifact_type") == Get(q, "artifact_type") && Get(p, "integrity_boundary") == Get(q, "integrity_boundary")
    ensures IsTwo(Get(q, "schema_version"))
    ensures var x, y := Get(p, "financial_input_policy"), Get(q, "financial_input_policy");
      var a, b := Get(p, "comparison_policy"), Get(q, "comparison_policy");
      && (x == y ==> SamePolicy(b, a))
      && (a == b ==> x == y)
  {
    hide PeriodRecorded, IsFloatText;
    PoliciesDiffer();
  }

  lemma PoliciesDiffer()
    ensures "legacy-zero-v1" != "explicit-invalid-or-missing-v2"
    ensures "legacy-financial-input-v1" != "strict-financial-input-v2"
  {
  }

  /** One policy, its number of digits written as 2 or as 2.0. */
  ghost predicate SamePolicy(a: Json, b: Json) {
    && a.Obj? && b.Obj? && a.fields.Keys == b.fields.Keys
    && forall k :: k in a.fields ==>
         a.fields[k] == b.fields[k] || (IsTwo(a.fields[k]) && IsTwo(b.fields[k]))
  }

  /** Verified artifacts with one decision digest hold one decision, or their decisions collide. */
  lemma DecisionDigestFixesDecision(sha256: string -> string, p: map<string, Json>, q: map<string, Json>)
    requires Verified(sha256, p) && Verified(sha256, q) && Get(p, "decision_digest") == Get(q, "decision_digest")
    ensures SameDecision(p, q) || Collision(sha256, Encode(false, DecisionPayload(p)), Encode(false, DecisionPayload(q)))
  {
    hide HeaderOk, Decidable, DecisionPayload, AllFinite, Encode, SameDecision, Collision;
    DigestOfDecision(sha256, p, q);
  }
}
