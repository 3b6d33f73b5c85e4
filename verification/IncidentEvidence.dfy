/** Incidents, their events and their manifests, field by field. */
module IncidentEvidence {
  import opened Wrappers
  import opened Sorting
  import opened Texts
  import opened JsonText
  import opened Timestamps
  import opened IncidentResponse

  // ----- identifiers and fingerprints

  predicate LetterOrDigit(c: char) { 'A' <= c <= 'Z' || 'a' <= c <= 'z' || '0' <= c <= '9' }

  /** [A-Za-z0-9][A-Za-z0-9._:-]{2,127} */
  predicate Identifier(s: string) {
    && 3 <= |s| && |s| <= 128 && LetterOrDigit(s[0])
    && forall i :: 0 < i < |s| ==> LetterOrDigit(s[i]) || s[i] == '.' || s[i] == '_' || s[i] == ':' || s[i] == '-'
  }

  /** [0-9a-f]{64} */
  predicate Fingerprint(s: string) { |s| == 64 && forall i :: 0 <= i < |s| ==> '0' <= s[i] <= '9' || 'a' <= s[i] <= 'f' }

  lemma SafeIdIffIdentifier(s: string)
    ensures IsSafeId(s) <==> Identifier(s)
  {
    assert forall c: char :: Alphanumeric(c) <==> LetterOrDigit(c);
    assert forall c: char :: c in "._:-" <==> c == '.' || c == '_' || c == ':' || c == '-';
  }

  lemma Sha256IffFingerprint(s: string)
    ensures IsSha256(s) <==> Fingerprint(s)
  {
    assert forall c: char :: IsHex(c) <==> '0' <= c <= '9' || 'a' <= c <= 'f';
  }

  // ----- one event

  /** The name under which a state is recorded. */
  lemma StateNames()
    ensures StateText(Detected) == "detected" && StateText(Acknowledged) == "acknowledged"
    ensures StateText(Mitigating) == "mitigating" && StateText(Recovered) == "recovered" && StateText(Closed) == "closed"
    ensures AlertText(Normal) == "normal" && AlertText(Warning) == "warning"
    ensures AlertText(Critical) == "critical" && AlertText(NoData) == "no_data"
  {
  }

  /** What is digested of an event at the end of a history. */
  function EventBody(events: seq<Event>, state: string, time: string, operator: string, action: string, evidence: string): Json {
    Obj(map[
      "sequence" := Int(|events| + 1),
      "state" := Str(state),
      "occurred_at" := Str(time),
      "operator_ref" := Str(operator),
      "action_code" := Str(action),
      "evidence_sha256" := Str(evidence),
      "previous_event_sha256" := if |events| == 0 then Null else Str(events[|events| - 1].digest)])
  }

  /** Every check of an append in the order it is made, and everything an accepted one records. */
  lemma AppendMeans(
    sha256: string -> string, events: seq<Event>,
    state: State, at: Moment, operator: string, action: string, evidence: string)
    ensures var r := NewEvent(sha256, events, state, at, operator, action, evidence);
      if !at.aware then r == Err(NaiveTimestamp)
      else if |events| > 0 && TextLe(Text(at), events[|events| - 1].occurredAt) then r == Err(TimestampNotIncreasing)
      else if !Identifier(operator) || !Identifier(action) then r == Err(UnsafeId)
      else if !Fingerprint(evidence) then r == Err(BadEvidence)
      else
        && r.Ok?
        && r.value.sequence == |events| + 1
        && r.value.state == state && r.value.occurredAt == Text(at)
        && r.value.operatorRef == operator && r.value.actionCode == action && r.value.evidence == evidence
        && r.value.previous == (if |events| == 0 then None else Some(events[|events| - 1].digest))
        && r.value.digest == sha256(Encode(true, EventBody(events, StateText(state), Text(at), operator, action, evidence)))
  {
    hide IsSafeId, IsSha256, Identifier, Fingerprint, Text, Encode, StateText, TextLe;
    SafeIdIffIdentifier(operator);
    SafeIdIffIdentifier(action);
    Sha256IffFingerprint(evidence);
  }

  /** The lifecycle step by step. */
  predicate Follows(a: State, b: State) {
    (a == Detected && b == Acknowledged) || (a == Acknowledged && b == Mitigating)
    || (a == Mitigating && b == Recovered) || (a == Recovered && b == Closed)
  }

  /** An evaluation with at least one alert, and no alert but normal ones. */
  predicate ShownNormal(alerts: Option<seq<Alert>>) {
    alerts.Some? && |alerts.value| > 0 && forall i :: 0 <= i < |alerts.value| ==> alerts.value[i].state == Normal
  }

  /** A transition is refused for its state first, then for its recovery evaluation; otherwise it is the append. */
  lemma TransitionMeans(sha256: string -> string, events: seq<Event>, r: Request)
    requires |events| > 0
    ensures var outcome := Transition(sha256, events, r);
      if !Follows(events[|events| - 1].state, r.state) then outcome == Err(NotAllowed)
      else if r.state == Recovered && !ShownNormal(r.recovery) then outcome == Err(RecoveryIncomplete)
      else outcome == NewEvent(sha256, events, r.state, r.occurredAt, r.operatorRef, r.actionCode, r.evidence)
  {
    hide NewEvent;
    if r.recovery.Some? { assert forall a :: a in r.recovery.value <==> exists i :: 0 <= i < |r.recovery.value| && r.recovery.value[i] == a; }
  }

  /** A request that suits otherwise recovers a mitigating incident exactly when it shows an all-normal evaluation. */
  lemma RecoveryIffShownNormal(sha256: string -> string, events: seq<Event>, r: Request)
    requires |events| > 0 && events[|events| - 1].state == Mitigating && r.state == Recovered
    requires r.occurredAt.aware && !TextLe(Text(r.occurredAt), events[|events| - 1].occurredAt)
    requires Identifier(r.operatorRef) && Identifier(r.actionCode) && Fingerprint(r.evidence)
    ensures Transition(sha256, events, r).Ok? <==>
      r.recovery.Some? && |r.recovery.value| > 0 && forall i :: 0 <= i < |r.recovery.value| ==> r.recovery.value[i].state == Normal
  {
    hide Transition, NewEvent, Identifier, Fingerprint, TextLe, Text, Encode;
    TransitionMeans(sha256, events, r);
    AppendMeans(sha256, events, r.state, r.occurredAt, r.operatorRef, r.actionCode, r.evidence);
  }

  /** A run, request by request: an accepted one appends its event, a refused one leaves the history alone. */
  lemma {:induction false} RunMeans(sha256: string -> string, events: seq<Event>, requests: seq<Request>, r: Request)
    requires |events| > 0
    ensures Run(sha256, events, []) == events
    ensures var before := Run(sha256, events, requests);
      var outcome := Transition(sha256, before, r);
      Run(sha256, events, requests + [r]) == if outcome.Ok? then before + [outcome.value] else before
    decreases |requests|
  {
    hide Transition;
    if requests == [] {
      assert ([] + [r])[1..] == [];
      assert Run(sha256, events, [r]) == Run(sha256, After(events, Transition(sha256, events, r)), []);
    } else {
      assert (requests + [r])[1..] == requests[1..] + [r] && (requests + [r])[0] == requests[0];
      RunMeans(sha256, After(events, Transition(sha256, events, requests[0])), requests[1..], r);
    }
  }

  /** The states of any history, in order. */
  lemma HistoryStates(sha256: string -> string, events: seq<Event>)
    requires History(sha256, events)
    ensures 1 <= |events| <= 5
    ensures forall i :: 0 <= i < |events| ==>
      && events[i].sequence == i + 1
      && events[i].state == (if i == 0 then Detected else if i == 1 then Acknowledged else if i == 2 then Mitigating
                             else if i == 3 then Recovered else Closed)
      && events[i].previous == if i == 0 then None else Some(events[i - 1].digest)
  {
    hide IsTimestamp, IsSafeId, IsSha256, Increases, Digest;
    forall i | 0 <= i < |events|
      ensures events[i].sequence == i + 1 && events[i].state == LIFECYCLE[i]
      ensures events[i].previous == if i == 0 then None else Some(events[i - 1].digest)
    {
      assert WellLinked(sha256, events, i);
    }
  }

  // ----- the manifest

  /** A recorded event as the manifest lists it. */
  ghost predicate Lists(item: Json, e: Event) {
    && item.Obj?
    && item.fields.Keys == {"sequence", "state", "occurred_at", "operator_ref", "action_code", "evidence_sha256",
                            "previous_event_sha256", "event_sha256"}
    && item.fields["sequence"] == Int(e.sequence)
    && item.fields["state"] == Str(StateText(e.state))
    && item.fields["occurred_at"] == Str(e.occurredAt)
    && item.fields["operator_ref"] == Str(e.operatorRef)
    && item.fields["action_code"] == Str(e.actionCode)
    && item.fields["evidence_sha256"] == Str(e.evidence)
    && item.fields["previous_event_sha256"] == (if e.previous.Some? then Str(e.previous.value) else Null)
    && item.fields["event_sha256"] == Str(e.digest)
  }

  lemma ListedEvent(e: Event)
    ensures Lists(EventRecord(e), e)
  {
    hide StateText;
  }

  lemma BodyMeans(incidentId: string, correlationId: string, alert: Alert, events: seq<Event>)
    requires |events| > 0
    ensures var b := ManifestBody(incidentId, correlationId, alert, events);
      && b.Keys == {"schema_version", "incident_id", "policy_id", "policy_version", "runbook", "correlation_id",
                    "initial_alert_state", "initial_observed", "final_state", "events"}
      && Get(b, "schema_version") == Int(1)
      && Get(b, "incident_id") == Str(incidentId) && Get(b, "correlation_id") == Str(correlationId)
      && Get(b, "policy_id") == Str(alert.policyId) && Get(b, "policy_version") == Str(alert.policyVersion)
      && Get(b, "runbook") == Str(alert.runbook)
      && Get(b, "initial_alert_state") == Str(AlertText(alert.state))
      && Get(b, "initial_observed") == (if alert.observed.Some? then Int(alert.observed.value) else Null)
      && Get(b, "final_state") == Str(StateText(events[|events| - 1].state))
      && Get(b, "events") == Arr(EventRecords(events))
  {
    hide StateText, AlertText, EventRecords, IsFloatText;
  }

  /** Every field of a manifest. */
  lemma ManifestMeans(sha256: string -> string, incidentId: string, correlationId: string, alert: Alert, events: seq<Event>)
    requires |events| > 0
    ensures var m := ManifestOf(sha256, incidentId, correlationId, alert, events);
      && m.Keys == {"schema_version", "incident_id", "policy_id", "policy_version", "runbook", "correlation_id",
                    "initial_alert_state", "initial_observed", "final_state", "events", "manifest_sha256"}
      && Get(m, "schema_version") == Int(1)
      && Get(m, "incident_id") == Str(incidentId) && Get(m, "correlation_id") == Str(correlationId)
      && Get(m, "policy_id") == Str(alert.policyId) && Get(m, "policy_version") == Str(alert.policyVersion)
      && Get(m, "runbook") == Str(alert.runbook)
      && Get(m, "initial_alert_state") == Str(AlertText(alert.state))
      && Get(m, "initial_observed") == (if alert.observed.Some? then Int(alert.observed.value) else Null)
      && Get(m, "final_state") == Str(StateText(events[|events| - 1].state))
      && Get(m, "events").Arr? && ListsAll(Get(m, "events").items, events)
      && Get(m, "manifest_sha256") == Str(sha256(Encode(true, Obj(m - {"manifest_sha256"}))))
  {
    hide StateText, AlertText, Encode, ManifestBody, EventRecords, IsFloatText;
    var body := ManifestBody(incidentId, correlationId, alert, events);
    BodyMeans(incidentId, correlationId, alert, events);
    Sealed(body, "manifest_sha256", Str(sha256(Encode(true, Obj(body)))));
    ListedEvents(events);
  }

  ghost predicate ListsAll(items: seq<Json>, events: seq<Event>) {
    |items| == |events| && forall i :: 0 <= i < |items| ==> Lists(items[i], events[i])
  }

  lemma ListedEvents(events: seq<Event>)
    ensures ListsAll(EventRecords(events), events)
  {
    hide Lists, EventRecord;
    forall i | 0 <= i < |events| ensures Lists(EventRecords(events)[i], events[i]) { ListedEvent(events[i]); }
  }

  /** The value under a key is the number n as Python compares it. */
  predicate Counts(fields: map<string, Json>, key: string, n: nat) {
    && key in fields
    && (fields[key] == Int(n) || (fields[key].Float? && fields[key].text == IntText(n) + ".0") || (n == 1 && fields[key] == Bool(true)))
  }

  /** What the verifier asks of entry i. */
  ghost predicate EntryRight(sha256: string -> string, items: seq<Json>, i: nat)
    requires i < |items|
  {
    && items[i].Obj?
    && var f := items[i].fields;
      && Counts(f, "sequence", i + 1)
      && "state" in f
      && f["state"] == Str(if i == 0 then "detected" else if i == 1 then "acknowledged" else if i == 2 then "mitigating"
                           else if i == 3 then "recovered" else "closed")
      && "event_sha256" in f && f["event_sha256"] == Str(sha256(Encode(true, Obj(f - {"event_sha256"}))))
      && (if i == 0 then "previous_event_sha256" in f ==> f["previous_event_sha256"] == Null
          else
            && "previous_event_sha256" in f
            && items[i - 1].Obj? && "event_sha256" in items[i - 1].fields
            && f["previous_event_sha256"] == items[i - 1].fields["event_sha256"])
  }

  /** The model of the verifier on entry i. */
  ghost predicate EntryVerified(sha256: string -> string, items: seq<Json>, i: nat)
    requires i < |items| == 5
  {
    && items[i].Obj? && Linked(sha256, items, i)
    && Get(items[i].fields, "state") == Str(StateText(LIFECYCLE[i]))
  }

  lemma EntryIff(sha256: string -> string, items: seq<Json>, i: nat)
    requires i < |items| == 5 && (i > 0 ==> items[i - 1].Obj? && OwnDigest(items[i - 1]).Str?)
    ensures EntryVerified(sha256, items, i) <==> EntryRight(sha256, items, i)
    ensures EntryVerified(sha256, items, i) ==> items[i].Obj? && OwnDigest(items[i]).Str?
  {
    hide Encode, IsFloatText;
  }

  lemma {:induction false} EntriesIff(sha256: string -> string, items: seq<Json>, n: nat)
    requires n <= |items| == 5
    ensures (forall i :: 0 <= i < n ==> EntryVerified(sha256, items, i))
       <==> (forall i :: 0 <= i < n ==> EntryRight(sha256, items, i))
  {
    hide EntryVerified, EntryRight, OwnDigest;
    if n > 0 {
      EntriesIff(sha256, items, n - 1);
      if forall i :: 0 <= i < n - 1 ==> EntryRight(sha256, items, i) {
        if n > 1 { DigestListed(sha256, items, n - 2); }
        EntryIff(sha256, items, n - 1);
      }
    }
  }

  lemma DigestListed(sha256: string -> string, items: seq<Json>, i: nat)
    requires i < |items| && EntryRight(sha256, items, i)
    ensures items[i].Obj? && OwnDigest(items[i]).Str?
  {
    hide Encode, Counts, IsFloatText;
  }

  /** The verifier accepts exactly these manifests. */
  lemma AcceptsMeans(sha256: string -> string, m: map<string, Json>)
    ensures Accepts(sha256, m) <==>
      && {"manifest_sha256", "events", "final_state"} <= m.Keys
      && m["manifest_sha256"] == Str(sha256(Encode(true, Obj(m - {"manifest_sha256"}))))
      && m["final_state"] == Str("closed")
      && m["events"].Arr? && |m["events"].items| == 5
      && forall i :: 0 <= i < 5 ==> EntryRight(sha256, m["events"].items, i)
  {
    hide Encode, EntryRight, Linked, StateText;
    StateNames();
    if "events" in m && m["events"].Arr? && |m["events"].items| == 5 {
      EntriesIff(sha256, m["events"].items, 5);
      EntriesVerified(sha256, m["events"].items);
    }
  }

  lemma EntriesVerified(sha256: string -> string, items: seq<Json>)
    requires |items| == 5
    ensures InLifecycle(items) && Chained(sha256, items) <==> forall i :: 0 <= i < 5 ==> EntryVerified(sha256, items, i)
  {
    hide Linked, StateText;
    if forall i :: 0 <= i < 5 ==> EntryVerified(sha256, items, i) {
      forall i | 0 <= i < 5
        ensures items[i].Obj? && Linked(sha256, items, i) && Get(items[i].fields, "state") == Str(StateText(LIFECYCLE[i]))
      {
        assert EntryVerified(sha256, items, i);
      }
    }
  }
}
