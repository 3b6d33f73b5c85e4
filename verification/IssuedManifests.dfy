/** Which accepted manifests some incident has issued. */
module IssuedManifests {
  import opened Wrappers
  import opened Texts
  import opened JsonText
  import opened Timestamps
  import opened IncidentResponse
  import opened IncidentEvidence

  // ----- a manifest that no incident issued

  function BareBody(i: nat, previous: Json): map<string, Json>
    requires i < |LIFECYCLE|
  {
    if i == 0 then map["sequence" := Bool(true), "state" := Str(StateText(LIFECYCLE[0]))]
    else map["sequence" := Int(i + 1), "state" := Str(StateText(LIFECYCLE[i])), "previous_event_sha256" := previous]
  }

  /** Position, state, link and digest only. */
  function BareEvent(sha256: string -> string, i: nat): Json
    requires i < |LIFECYCLE|
  {
    var body := BareBody(i, if i == 0 then Null else OwnDigest(BareEvent(sha256, i - 1)));
    Obj(body["event_sha256" := Str(Digest(sha256, true, Obj(body)))])
  }

  function BareEvents(sha256: string -> string): (items: seq<Json>)
    ensures |items| == |LIFECYCLE|
  {
    seq(|LIFECYCLE|, i requires 0 <= i < |LIFECYCLE| => BareEvent(sha256, i))
  }

  function BareManifest(sha256: string -> string): map<string, Json> {
    var body := map["events" := Arr(BareEvents(sha256)), "final_state" := Str(StateText(Closed))];
    body["manifest_sha256" := Str(Digest(sha256, true, Obj(body)))]
  }

  lemma BareBodyFields(i: nat, previous: Json)
    requires i < |LIFECYCLE|
    ensures var b := BareBody(i, previous);
      && "event_sha256" !in b
      && EqualsInt(Get(b, "sequence"), i + 1) && Get(b, "state") == Str(StateText(LIFECYCLE[i]))
      && Get(b, "previous_event_sha256") == if i == 0 then Null else previous
  {
    hide StateText;
  }

  lemma BareLinked(sha256: string -> string, i: nat)
    requires i < |LIFECYCLE|
    ensures var items := BareEvents(sha256);
      && Linked(sha256, items, i)
      && Get(items[i].fields, "state") == Str(StateText(LIFECYCLE[i]))
  {
    hide BareBody, StateText, EqualsInt, Encode, Linked;
    var previous := if i == 0 then Null else OwnDigest(BareEvent(sha256, i - 1));
    var body := BareBody(i, previous);
    BareBodyFields(i, previous);
    Sealed(body, "event_sha256", Str(Digest(sha256, true, Obj(body))));
    LinkedEntry(sha256, BareEvents(sha256), i, previous);
  }

  /** Under every digest function the verifier accepts a manifest whose first sequence is true and which
      holds no timestamp, identifier or evidence. */
  lemma BareManifestAccepted(sha256: string -> string)
    ensures var m := BareManifest(sha256);
      && Accepts(sha256, m)
      && m.Keys == {"events", "final_state", "manifest_sha256"}
      && m["events"].Arr? && |m["events"].items| == 5 && m["events"].items[0].Obj?
      && m["events"].items[0].fields.Keys == {"sequence", "state", "event_sha256"}
      && m["events"].items[0].fields["sequence"] == Bool(true)
  {
    hide StateText, Linked, Encode;
    var body := map["events" := Arr(BareEvents(sha256)), "final_state" := Str(StateText(Closed))];
    Sealed(body, "manifest_sha256", Str(Digest(sha256, true, Obj(body))));
    forall i | 0 <= i < |LIFECYCLE|
      ensures BareEvents(sha256)[i].Obj? && Linked(sha256, BareEvents(sha256), i)
      ensures Get(BareEvents(sha256)[i].fields, "state") == Str(StateText(LIFECYCLE[i]))
    {
      BareLinked(sha256, i);
    }
  }

  // ----- issued manifests

  /** What a caller supplied to an incident over its whole life. */
  datatype Case = Case(
    incidentId: string, correlationId: string, alert: Alert,
    detectedAt: Moment, detectorRef: string, evidence: string, requests: seq<Request>)

  ghost predicate IssuedBy(sha256: string -> string, m: map<string, Json>, c: Case) {
    var first := NewEvent(sha256, [], Detected, c.detectedAt, c.detectorRef, "alert-detected", c.evidence);
    && c.alert.state in {Warning, Critical}
    && IsSafeId(c.incidentId) && IsSafeId(c.correlationId)
    && IsSafeId(c.alert.policyId) && IsSafeId(c.alert.policyVersion) && IsSafeId(c.alert.runbook)
    && first.Ok?
    && var events := Run(sha256, [first.value], c.requests);
      && events[|events| - 1].state == Closed
      && m == ManifestOf(sha256, c.incidentId, c.correlationId, c.alert, events)
  }

  /** Some incident was opened, run to its end and asked for this manifest. */
  ghost predicate Issued(sha256: string -> string, m: map<string, Json>) { exists c: Case :: IssuedBy(sha256, m, c) }

  // ----- the format a caller can check

  predicate SafeText(v: Json) { v.Str? && IsSafeId(v.s) }

  predicate EventFormatted(item: Json) {
    && item.Obj?
    && item.fields.Keys == {"sequence", "state", "occurred_at", "operator_ref", "action_code", "evidence_sha256",
                            "previous_event_sha256", "event_sha256"}
    && item.fields["sequence"].Int?
    && item.fields["occurred_at"].Str? && IsTimestamp(item.fields["occurred_at"].s)
    && SafeText(item.fields["operator_ref"]) && SafeText(item.fields["action_code"])
    && item.fields["evidence_sha256"].Str? && IsSha256(item.fields["evidence_sha256"].s)
  }

  function TimeText(item: Json): string {
    if item.Obj? && Get(item.fields, "occurred_at").Str? then item.fields["occurred_at"].s else ""
  }

  predicate EventsFormatted(items: seq<Json>) {
    && (forall i :: 0 <= i < |items| ==> EventFormatted(items[i]))
    && (forall i :: 0 < i < |items| ==> Increases(TimeText(items[i - 1]), TimeText(items[i])))
    && (items != [] ==> Get(items[0].fields, "action_code") == Str("alert-detected"))
  }

  predicate HeadFormatted(m: map<string, Json>) {
    && m.Keys == {"schema_version", "incident_id", "policy_id", "policy_version", "runbook", "correlation_id",
                  "initial_alert_state", "initial_observed", "final_state", "events", "manifest_sha256"}
    && m["schema_version"] == Int(1)
    && SafeText(m["incident_id"]) && SafeText(m["correlation_id"])
    && SafeText(m["policy_id"]) && SafeText(m["policy_version"]) && SafeText(m["runbook"])
    && (m["initial_alert_state"] == Str(AlertText(Warning)) || m["initial_alert_state"] == Str(AlertText(Critical)))
    && (m["initial_observed"].Int? || m["initial_observed"].Null?)
  }

  predicate Formatted(m: map<string, Json>) {
    HeadFormatted(m) && m["events"].Arr? && EventsFormatted(m["events"].items)
  }

  // ----- issued manifests are accepted and formatted

  lemma RecordFormatted(e: Event)
    requires IsTimestamp(e.occurredAt) && IsSafeId(e.operatorRef) && IsSafeId(e.actionCode) && IsSha256(e.evidence)
    ensures EventFormatted(EventRecord(e))
    ensures TimeText(EventRecord(e)) == e.occurredAt
    ensures Get(EventRecord(e).fields, "action_code") == Str(e.actionCode)
  {
    hide IsTimestamp, IsSafeId, IsSha256, StateText;
  }

  lemma HistoryFormatted(sha256: string -> string, events: seq<Event>)
    requires History(sha256, events) && events[0].actionCode == "alert-detected"
    ensures EventsFormatted(EventRecords(events))
  {
    hide IsTimestamp, IsSafeId, IsSha256, Increases, EventFormatted, EventRecord, TimeText;
    forall i | 0 <= i < |events|
      ensures EventFormatted(EventRecord(events[i])) && TimeText(EventRecord(events[i])) == events[i].occurredAt
      ensures Get(EventRecord(events[i]).fields, "action_code") == Str(events[i].actionCode)
    {
      assert WellLinked(sha256, events, i);
      RecordFormatted(events[i]);
    }
    forall i | 0 < i < |events| ensures Increases(events[i - 1].occurredAt, events[i].occurredAt) {
      assert WellLinked(sha256, events, i);
    }
  }

  lemma IssuedIsFormatted(sha256: string -> string, m: map<string, Json>, c: Case)
    requires IssuedBy(sha256, m, c)
    ensures Accepts(sha256, m) && Formatted(m)
  {
    hide NewEvent, Run, IsSafeId, ManifestBody, Accepts, EventsFormatted, History, AlertText, StateText;
    var opening := NewEvent(sha256, [], Detected, c.detectedAt, c.detectorRef, "alert-detected", c.evidence);
    NewEventFields(sha256, [], Detected, c.detectedAt, c.detectorRef, "alert-detected", c.evidence);
    OpeningIsHistory(sha256, c.detectedAt, c.detectorRef, "alert-detected", c.evidence);
    var events := Run(sha256, [opening.value], c.requests);
    RunKeepsHistory(sha256, [opening.value], c.requests);
    assert events[0] == opening.value;
    HistoryFormatted(sha256, events);
    ClosedManifestAccepted(sha256, c.incidentId, c.correlationId, c.alert, events);
    HeadIsFormatted(sha256, c.incidentId, c.correlationId, c.alert, events);
  }

  lemma HeadIsFormatted(sha256: string -> string, incidentId: string, correlationId: string, alert: Alert, events: seq<Event>)
    requires events != [] && alert.state in {Warning, Critical} && IsSafeId(incidentId) && IsSafeId(correlationId)
    requires IsSafeId(alert.policyId) && IsSafeId(alert.policyVersion) && IsSafeId(alert.runbook)
    ensures var m := ManifestOf(sha256, incidentId, correlationId, alert, events);
      HeadFormatted(m) && m["events"] == Arr(EventRecords(events))
  {
    hide ManifestBody, IsSafeId, AlertText, StateText, EventRecords, Digest;
    var body := ManifestBody(incidentId, correlationId, alert, events);
    BodyMeans(incidentId, correlationId, alert, events);
    Sealed(body, "manifest_sha256", Str(Digest(sha256, true, Obj(body))));
    var m := ManifestOf(sha256, incidentId, correlationId, alert, events);
    assert m.Keys == body.Keys + {"manifest_sha256"};
    assert forall k :: k in m ==> m[k] == Get(m, k);
  }

  // ----- accepted and formatted manifests were issued

  /** The event that entry i records. */
  function EventOf(i: nat, item: Json): Event
    requires i < |LIFECYCLE| && EventFormatted(item)
  {
    var f := item.fields;
    Event(i + 1, LIFECYCLE[i], f["occurred_at"].s, f["operator_ref"].s, f["action_code"].s, f["evidence_sha256"].s,
      if f["previous_event_sha256"].Str? then Some(f["previous_event_sha256"].s) else None,
      if f["event_sha256"].Str? then f["event_sha256"].s else "")
  }

  lemma SameMap(a: map<string, Json>, b: map<string, Json>)
    requires a.Keys == b.Keys && forall k :: k in a ==> Get(a, k) == Get(b, k)
    ensures a == b
  {
    forall k | k in a ensures a[k] == b[k] { assert Get(a, k) == Get(b, k); }
  }

  lemma SameBody(m: map<string, Json>, key: string, body: map<string, Json>)
    requires m.Keys == body.Keys + {key} && key !in body && forall k :: k in body ==> Get(m, k) == Get(body, k)
    ensures m - {key} == body
  {
    assert (m - {key}).Keys == body.Keys;
    forall k | k in body ensures (m - {key})[k] == body[k] { assert Get(m, k) == Get(body, k); }
  }

  lemma RecordOfEventOf(i: nat, item: Json)
    requires i < |LIFECYCLE| && EventFormatted(item)
    requires Get(item.fields, "sequence") == Int(i + 1) && Get(item.fields, "state") == Str(StateText(LIFECYCLE[i]))
    requires Get(item.fields, "event_sha256").Str?
    requires Get(item.fields, "previous_event_sha256").Str? || Get(item.fields, "previous_event_sha256").Null?
    ensures EventRecord(EventOf(i, item)) == item
  {
    hide StateText, IsTimestamp, IsSafeId, IsSha256, EventRecord, IsFloatText;
    var e := EventOf(i, item);
    ListedEvent(e);
    SameMap(EventRecord(e).fields, item.fields);
  }

  function EventsOf(items: seq<Json>): (events: seq<Event>)
    requires |items| == |LIFECYCLE| && forall i :: 0 <= i < |items| ==> EventFormatted(items[i])
    ensures |events| == |items|
  {
    seq(|items|, i requires 0 <= i < |items| => EventOf(i, items[i]))
  }

  lemma EntryTypes(sha256: string -> string, items: seq<Json>, i: nat)
    requires i < |items| && EventFormatted(items[i]) && Linked(sha256, items, i)
    requires i > 0 ==> Linked(sha256, items, i - 1)
    ensures items[i].Obj?
    ensures var f := items[i].fields;
      && Get(f, "sequence") == Int(i + 1) && Get(f, "event_sha256").Str?
      && (Get(f, "previous_event_sha256").Str? || Get(f, "previous_event_sha256").Null?)
  {
    hide IsTimestamp, IsSafeId, IsSha256, PayloadText;
  }

  lemma EntryIsRecord(sha256: string -> string, items: seq<Json>, i: nat)
    requires i < |items| == |LIFECYCLE| && EventFormatted(items[i]) && Linked(sha256, items, i)
    requires i > 0 ==> Linked(sha256, items, i - 1)
    requires Get(items[i].fields, "state") == Str(StateText(LIFECYCLE[i]))
    ensures EventRecord(EventOf(i, items[i])) == items[i]
  {
    hide StateText, EventFormatted, EventOf, EventRecord, Linked;
    EntryTypes(sha256, items, i);
    RecordOfEventOf(i, items[i]);
  }

  /** The entries of an accepted, formatted manifest are the records of a history. */
  lemma EntriesAreRecords(sha256: string -> string, items: seq<Json>)
    requires InLifecycle(items) && Chained(sha256, items) && EventsFormatted(items)
    ensures EventRecords(EventsOf(items)) == items
  {
    hide EventFormatted, EventOf, EventRecord, Linked, StateText, Increases;
    forall i | 0 <= i < |items| ensures EventRecord(EventsOf(items)[i]) == items[i] { EntryIsRecord(sha256, items, i); }
  }

  lemma ChainIsHistory(sha256: string -> string, items: seq<Json>)
    requires |items| == |LIFECYCLE| && EventsFormatted(items)
    requires forall i :: 0 <= i < |items| ==> ChainedEvent(sha256, EventsOf(items), i)
    ensures History(sha256, EventsOf(items))
  {
    hide IsTimestamp, IsSafeId, IsSha256, Increases, Digest;
    var events := EventsOf(items);
    forall i | 0 <= i < |events| ensures WellLinked(sha256, events, i) {
      assert ChainedEvent(sha256, events, i) && EventFormatted(items[i]);
      if i > 0 { assert EventFormatted(items[i - 1]) && Increases(TimeText(items[i - 1]), TimeText(items[i])); }
    }
  }

  const ALL_CLEAR := [Alert("", "", "", Normal, None)]

  /** A request that has event e appended. */
  function RequestOf(e: Event): Request
    requires IsTimestamp(e.occurredAt)
  {
    Request(e.state, MomentOf(e.occurredAt).value, e.operatorRef, e.actionCode, e.evidence, Some(ALL_CLEAR))
  }

  /** Appending what an event records yields that event. */
  lemma NewEventOf(sha256: string -> string, events: seq<Event>, k: nat)
    requires History(sha256, events) && k < |events|
    ensures WellLinked(sha256, events, k)
    ensures var e := events[k];
      NewEvent(sha256, events[..k], e.state, MomentOf(e.occurredAt).value, e.operatorRef, e.actionCode, e.evidence) == Ok(e)
  {
    hide MomentOf, IsSafeId, IsSha256, Increases, Digest, Text;
    assert WellLinked(sha256, events, k);
    var e := events[k];
    assert e.Payload() == e.(digest := "").Payload();
  }

  /** The request that has event k appended to the events before it. */
  lemma ReplayStep(sha256: string -> string, events: seq<Event>, k: nat) returns (r: Request)
    requires History(sha256, events) && 1 <= k < |events|
    ensures Transition(sha256, events[..k], r) == Ok(events[k])
  {
    hide NewEvent, IsTimestamp, MomentOf, Digest, IsSafeId, IsSha256, Increases;
    NewEventOf(sha256, events, k);
    assert WellLinked(sha256, events, k - 1);
    r := RequestOf(events[k]);
    assert AllNormal(r.recovery);
    assert events[..k][|events[..k]| - 1] == events[k - 1];
  }

  lemma RunStep(sha256: string -> string, events: seq<Event>, r: Request, rest: seq<Request>)
    requires events != []
    ensures Run(sha256, events, [r] + rest) == Run(sha256, After(events, Transition(sha256, events, r)), rest)
  {
    hide Transition;
    assert ([r] + rest)[1..] == rest;
  }

  lemma {:induction false} Replay(sha256: string -> string, events: seq<Event>, k: nat) returns (requests: seq<Request>)
    requires History(sha256, events) && 1 <= k <= |events|
    ensures Run(sha256, events[..k], requests) == events
    decreases |events| - k
  {
    hide Transition, WellLinked;
    if k == |events| {
      requests := [];
      assert events[..k] == events;
    } else {
      hide Run;
      var r := ReplayStep(sha256, events, k);
      assert events[..k] + [events[k]] == events[..k + 1];
      var rest := Replay(sha256, events, k + 1);
      RunStep(sha256, events[..k], r, rest);
      requests := [r] + rest;
    }
  }

  function AlertOf(m: map<string, Json>): Alert
    requires HeadFormatted(m)
  {
    Alert(m["policy_id"].s, m["policy_version"].s, m["runbook"].s,
      if m["initial_alert_state"] == Str(AlertText(Warning)) then Warning else Critical,
      if m["initial_observed"].Int? then Some(m["initial_observed"].n) else None)
  }

  lemma AlertRead(m: map<string, Json>)
    requires HeadFormatted(m)
    ensures var a := AlertOf(m);
      && a.policyId == m["policy_id"].s && a.policyVersion == m["policy_version"].s && a.runbook == m["runbook"].s
      && m["initial_alert_state"] == Str(AlertText(a.state))
      && m["initial_observed"] == (if a.observed.Some? then Int(a.observed.value) else Null)
  {
    hide IsSafeId, AlertText;
  }

  lemma BodyRebuilt(m: map<string, Json>, events: seq<Event>)
    requires HeadFormatted(m) && events != []
    requires m["events"] == Arr(EventRecords(events))
    requires m["final_state"] == Str(StateText(events[|events| - 1].state))
    ensures m - {"manifest_sha256"} == ManifestBody(m["incident_id"].s, m["correlation_id"].s, AlertOf(m), events)
  {
    hide ManifestBody, IsSafeId, AlertText, StateText, EventRecords, AlertOf, IsFloatText;
    AlertRead(m);
    var body := ManifestBody(m["incident_id"].s, m["correlation_id"].s, AlertOf(m), events);
    BodyMeans(m["incident_id"].s, m["correlation_id"].s, AlertOf(m), events);
    SameBody(m, "manifest_sha256", body);
  }

  lemma ManifestRebuilt(sha256: string -> string, m: map<string, Json>, events: seq<Event>)
    requires HeadFormatted(m) && DigestMatches(sha256, m) && events != []
    requires m["events"] == Arr(EventRecords(events))
    requires m["final_state"] == Str(StateText(events[|events| - 1].state))
    ensures m == ManifestOf(sha256, m["incident_id"].s, m["correlation_id"].s, AlertOf(m), events)
  {
    hide ManifestBody, IsSafeId, AlertText, StateText, EventRecords, Digest, AlertOf;
    BodyRebuilt(m, events);
    var key := "manifest_sha256";
    assert m == (m - {key})[key := m[key]];
  }

  lemma AcceptedWasIssued(sha256: string -> string, m: map<string, Json>)
    requires Accepts(sha256, m) && Formatted(m)
    ensures Issued(sha256, m)
  {
    hide NewEvent, Run, IsSafeId, HeadFormatted, EventsFormatted, InLifecycle, Chained, DigestMatches, History, StateText;
    var items := m["events"].items;
    LifecycleEntries(sha256, items);
    EntriesAreRecords(sha256, items);
    var events := EventsOf(items);
    AcceptedIffChained(sha256, m, events);
    ChainIsHistory(sha256, items);
    HistoryIsIssued(sha256, m, events);
  }

  lemma LifecycleEntries(sha256: string -> string, items: seq<Json>)
    requires InLifecycle(items) && EventsFormatted(items)
    ensures |items| == |LIFECYCLE| && forall i :: 0 <= i < |items| ==> EventFormatted(items[i])
    ensures EventsOf(items)[0].actionCode == "alert-detected"
    ensures EventsOf(items)[4].state == Closed
  {
    hide EventFormatted;
  }

  lemma HistoryIsIssued(sha256: string -> string, m: map<string, Json>, events: seq<Event>)
    requires HeadFormatted(m) && DigestMatches(sha256, m) && Get(m, "final_state") == Str(StateText(Closed))
    requires m["events"] == Arr(EventRecords(events))
    requires History(sha256, events) && |events| == |LIFECYCLE|
    requires events[0].actionCode == "alert-detected" && events[4].state == Closed
    ensures Issued(sha256, m)
  {
    hide NewEvent, Run, IsSafeId, DigestMatches, StateText, MomentOf, ManifestOf;
    NewEventOf(sha256, events, 0);
    assert events[..0] == [] && events[..1] == [events[0]];
    var requests := Replay(sha256, events, 1);
    ManifestRebuilt(sha256, m, events);
    var first := events[0];
    var c := Case(m["incident_id"].s, m["correlation_id"].s, AlertOf(m),
      MomentOf(first.occurredAt).value, first.operatorRef, first.evidence, requests);
    assert IssuedBy(sha256, m, c);
  }

  /** The exact condition: an accepted manifest was issued by some incident exactly when it has the issued format. */
  lemma AcceptedIffIssued(sha256: string -> string, m: map<string, Json>)
    ensures Accepts(sha256, m) && Formatted(m) <==> Issued(sha256, m)
  {
    hide Accepts, Formatted, IssuedBy;
    if Accepts(sha256, m) && Formatted(m) { AcceptedWasIssued(sha256, m); }
    if c: Case :| IssuedBy(sha256, m, c) { IssuedIsFormatted(sha256, m, c); }
  }

  /** The bare manifest is accepted though no incident ever issued it. */
  lemma AcceptedNotIssued(sha256: string -> string)
    ensures Accepts(sha256, BareManifest(sha256)) && !Issued(sha256, BareManifest(sha256))
  {
    hide Accepts, Issued;
    BareManifestAccepted(sha256);
    AcceptedIffIssued(sha256, BareManifest(sha256));
  }
}
