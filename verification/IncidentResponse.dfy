/** Append-only incident evidence: a linear lifecycle whose events are chained by digest. */
module IncidentResponse {
  import opened Wrappers
  import opened Texts
  import opened JsonText
  import opened Timestamps

  datatype State = Detected | Acknowledged | Mitigating | Recovered | Closed

  datatype AlertState = Normal | Warning | Critical | NoData

  datatype Alert = Alert(policyId: string, policyVersion: string, runbook: string, state: AlertState, observed: Option<int>)

  datatype Error =
    NotAlertable | UnsafeId | NotAllowed | RecoveryIncomplete | NaiveTimestamp | TimestampNotIncreasing | BadEvidence | NotClosed

  const LIFECYCLE := [Detected, Acknowledged, Mitigating, Recovered, Closed]

  function Next(s: State): Option<State> {
    match s
    case Detected => Some(Acknowledged)
    case Acknowledged => Some(Mitigating)
    case Mitigating => Some(Recovered)
    case Recovered => Some(Closed)
    case Closed => None
  }

  function StateText(s: State): string {
    match s
    case Detected => "detected"
    case Acknowledged => "acknowledged"
    case Mitigating => "mitigating"
    case Recovered => "recovered"
    case Closed => "closed"
  }

  function AlertText(s: AlertState): string {
    match s
    case Normal => "normal"
    case Warning => "warning"
    case Critical => "critical"
    case NoData => "no_data"
  }

  predicate Alphanumeric(c: char) { IsDigit(c) || 'a' <= c <= 'z' || 'A' <= c <= 'Z' }

  /** Three to 128 characters: letters, digits, and after the first also . _ : - */
  predicate IsSafeId(s: string) {
    && 3 <= |s| <= 128
    && Alphanumeric(s[0])
    && forall i :: 1 <= i < |s| ==> Alphanumeric(s[i]) || s[i] in "._:-"
  }

  datatype Event = Event(
    sequence: nat,
    state: State,
    occurredAt: string,
    operatorRef: string,
    actionCode: string,
    evidence: string,
    previous: Option<string>,
    digest: string)
  {
    function Payload(): Json {
      Obj(map[
        "sequence" := Int(sequence),
        "state" := Str(StateText(state)),
        "occurred_at" := Str(occurredAt),
        "operator_ref" := Str(operatorRef),
        "action_code" := Str(actionCode),
        "evidence_sha256" := Str(evidence),
        "previous_event_sha256" := if previous.Some? then Str(previous.value) else Null])
    }
  }

  datatype Request = Request(
    state: State,
    occurredAt: Moment,
    operatorRef: string,
    actionCode: string,
    evidence: string,
    recovery: Option<seq<Alert>>)

  // ----- one step

  /** The event that appending to a history yields, or the first check that refuses it. */
  function NewEvent(
    sha256: string -> string, events: seq<Event>,
    state: State, occurredAt: Moment, operatorRef: string, actionCode: string, evidence: string
  ): Result<Event, Error>
  {
    var timestamp := Utc(occurredAt);
    if timestamp.None? then Err(NaiveTimestamp)
    else if events != [] && !Increases(events[|events| - 1].occurredAt, timestamp.value) then Err(TimestampNotIncreasing)
    else if !IsSafeId(operatorRef) || !IsSafeId(actionCode) then Err(UnsafeId)
    else if !IsSha256(evidence) then Err(BadEvidence)
    else
      var previous := if events != [] then Some(events[|events| - 1].digest) else None;
      var draft := Event(|events| + 1, state, timestamp.value, operatorRef, actionCode, evidence, previous, "");
      Ok(draft.(digest := Digest(sha256, true, draft.Payload())))
  }

  predicate AllNormal(alerts: Option<seq<Alert>>) {
    alerts.Some? && alerts.value != [] && forall a :: a in alerts.value ==> a.state == Normal
  }

  function Transition(sha256: string -> string, events: seq<Event>, r: Request): Result<Event, Error>
    requires events != []
  {
    if Next(events[|events| - 1].state) != Some(r.state) then Err(NotAllowed)
    else if r.state == Recovered && !AllNormal(r.recovery) then Err(RecoveryIncomplete)
    else NewEvent(sha256, events, r.state, r.occurredAt, r.operatorRef, r.actionCode, r.evidence)
  }

  function After(events: seq<Event>, outcome: Result<Event, Error>): seq<Event> {
    if outcome.Ok? then events + [outcome.value] else events
  }

  /** The history after a run of requests, accepted or refused. */
  function Run(sha256: string -> string, events: seq<Event>, requests: seq<Request>): (r: seq<Event>)
    requires events != []
    ensures events <= r
    decreases |requests|
  {
    if requests == [] then events
    else Run(sha256, After(events, Transition(sha256, events, requests[0])), requests[1..])
  }

  // ----- what every reachable history keeps

  ghost predicate WellLinked(sha256: string -> string, events: seq<Event>, i: nat)
    requires i < |events| <= |LIFECYCLE|
  {
    var e := events[i];
    && e.sequence == i + 1
    && e.state == LIFECYCLE[i]
    && IsTimestamp(e.occurredAt) && IsSafeId(e.operatorRef) && IsSafeId(e.actionCode) && IsSha256(e.evidence)
    && e.previous == (if i == 0 then None else Some(events[i - 1].digest))
    && e.digest == Digest(sha256, true, e.Payload())
    && (i > 0 ==> Increases(events[i - 1].occurredAt, e.occurredAt))
  }

  ghost predicate History(sha256: string -> string, events: seq<Event>) {
    && 1 <= |events| <= |LIFECYCLE|
    && forall i :: 0 <= i < |events| ==> WellLinked(sha256, events, i)
  }

  /** What an accepted append has checked and recorded. */
  lemma NewEventFields(
    sha256: string -> string, events: seq<Event>,
    state: State, at: Moment, operatorRef: string, actionCode: string, evidence: string)
    requires NewEvent(sha256, events, state, at, operatorRef, actionCode, evidence).Ok?
    ensures var e := NewEvent(sha256, events, state, at, operatorRef, actionCode, evidence).value;
      && e.sequence == |events| + 1 && e.state == state && at.aware && e.occurredAt == Text(at) && IsTimestamp(e.occurredAt)
      && e.operatorRef == operatorRef && e.actionCode == actionCode && e.evidence == evidence
      && IsSafeId(e.operatorRef) && IsSafeId(e.actionCode) && IsSha256(e.evidence)
      && e.previous == (if events == [] then None else Some(events[|events| - 1].digest))
      && e.digest == Digest(sha256, true, e.Payload())
      && (events != [] ==> Increases(events[|events| - 1].occurredAt, e.occurredAt))
  {
    hide IsSafeId, IsSha256, Increases, Text, Digest, MomentOf;
    TextReadsBack(at);
    var e := NewEvent(sha256, events, state, at, operatorRef, actionCode, evidence).value;
    assert e.Payload() == e.(digest := "").Payload();
  }

  lemma OpeningIsHistory(sha256: string -> string, at: Moment, operatorRef: string, actionCode: string, evidence: string)
    requires NewEvent(sha256, [], Detected, at, operatorRef, actionCode, evidence).Ok?
    ensures History(sha256, [NewEvent(sha256, [], Detected, at, operatorRef, actionCode, evidence).value])
  {
    hide NewEvent, IsSafeId, IsSha256, Increases, Digest, IsTimestamp;
    NewEventFields(sha256, [], Detected, at, operatorRef, actionCode, evidence);
    var e := NewEvent(sha256, [], Detected, at, operatorRef, actionCode, evidence).value;
    assert WellLinked(sha256, [e], 0);
  }

  lemma TransitionKeepsHistory(sha256: string -> string, events: seq<Event>, r: Request)
    requires History(sha256, events)
    ensures History(sha256, After(events, Transition(sha256, events, r)))
  {
    hide NewEvent, IsSafeId, IsSha256, Increases, Digest, IsTimestamp, AllNormal, Event.Payload;
    var n := |events|;
    assert WellLinked(sha256, events, n - 1);
    var outcome := Transition(sha256, events, r);
    if outcome.Ok? {
      NewEventFields(sha256, events, r.state, r.occurredAt, r.operatorRef, r.actionCode, r.evidence);
      var grown := events + [outcome.value];
      forall i | 0 <= i < |grown| ensures WellLinked(sha256, grown, i) {
        if i < n { assert WellLinked(sha256, events, i); }
      }
    }
  }

  /** Over every run: states, sequence numbers, links, digests and timestamps stay in order,
      and at most four transitions ever succeed. */
  lemma {:induction false} RunKeepsHistory(sha256: string -> string, events: seq<Event>, requests: seq<Request>)
    requires History(sha256, events)
    ensures History(sha256, Run(sha256, events, requests))
    decreases |requests|
  {
    if requests != [] {
      TransitionKeepsHistory(sha256, events, requests[0]);
      RunKeepsHistory(sha256, After(events, Transition(sha256, events, requests[0])), requests[1..]);
    }
  }

  /** An incident that recovered during a run was shown a non-empty, all-normal evaluation. */
  lemma {:induction false} RecoveryWasNormal(sha256: string -> string, events: seq<Event>, requests: seq<Request>)
    requires events != [] && forall e :: e in events ==> e.state != Recovered
    requires exists e :: e in Run(sha256, events, requests) && e.state == Recovered
    ensures exists r: Request ::
      && r in requests && r.state == Recovered && r.recovery.Some? && |r.recovery.value| > 0
      && forall i :: 0 <= i < |r.recovery.value| ==> r.recovery.value[i].state == Normal
    decreases |requests|
  {
    if requests != [] {
      var r := requests[0];
      var outcome := Transition(sha256, events, r);
      if outcome.Ok? && r.state == Recovered {
        assert r in requests;
      } else {
        RecoveryWasNormal(sha256, After(events, outcome), requests[1..]);
      }
    }
  }

  /** A request that carries on a lifecycle after an event recorded at time last. */
  ghost predicate Suitable(last: string, r: Request, state: State) {
    && r.state == state && (state == Recovered ==> AllNormal(r.recovery))
    && r.occurredAt.aware && Increases(last, Text(r.occurredAt))
    && IsSafeId(r.operatorRef) && IsSafeId(r.actionCode) && IsSha256(r.evidence)
  }

  ghost predicate SuitableAt(events: seq<Event>, requests: seq<Request>, i: nat)
    requires events != [] && i < |requests| && |events| + |requests| == |LIFECYCLE|
  {
    Suitable(if i == 0 then events[|events| - 1].occurredAt else Text(requests[i - 1].occurredAt),
             requests[i], LIFECYCLE[|events| + i])
  }

  /** Suitable requests are never refused: they take any open incident to the end of its lifecycle. */
  lemma {:induction false} LifecycleCompletes(sha256: string -> string, events: seq<Event>, requests: seq<Request>)
    requires History(sha256, events) && |events| + |requests| == |LIFECYCLE|
    requires forall i :: 0 <= i < |requests| ==> SuitableAt(events, requests, i)
    ensures var r := Run(sha256, events, requests);
      |r| == |LIFECYCLE| && r[|r| - 1].state == Closed
    decreases |requests|
  {
    hide IsSafeId, IsSha256, IsTimestamp, Increases, Text, AllNormal, Digest;
    var n := |events|;
    assert WellLinked(sha256, events, n - 1);
    if requests != [] {
      assert SuitableAt(events, requests, 0);
      SuitableAccepted(sha256, events, requests[0]);
      var grown := After(events, Transition(sha256, events, requests[0]));
      TransitionKeepsHistory(sha256, events, requests[0]);
      forall i | 0 <= i < |requests| - 1 ensures SuitableAt(grown, requests[1..], i) {
        assert SuitableAt(events, requests, i + 1);
      }
      LifecycleCompletes(sha256, grown, requests[1..]);
    }
  }

  lemma SuitableAccepted(sha256: string -> string, events: seq<Event>, r: Request)
    requires History(sha256, events) && |events| < |LIFECYCLE|
    requires Suitable(events[|events| - 1].occurredAt, r, LIFECYCLE[|events|])
    ensures var outcome := Transition(sha256, events, r);
      outcome.Ok? && outcome.value.occurredAt == Text(r.occurredAt)
  {
    hide IsSafeId, IsSha256, IsTimestamp, Increases, Text, AllNormal, Digest;
    assert WellLinked(sha256, events, |events| - 1);
  }

  // ----- times

  predicate Records(events: seq<Event>, moments: seq<Moment>) {
    && |events| == |moments|
    && forall i :: 0 <= i < |events| ==> events[i].occurredAt == Text(moments[i])
  }

  /** The recorded instants increase exactly when no two neighbours mix whole-second
      and microsecond texts within one second. */
  lemma TimesIncreaseIff(sha256: string -> string, events: seq<Event>, moments: seq<Moment>)
    requires History(sha256, events) && Records(events, moments)
    ensures (forall i, j :: 0 <= i < j < |moments| ==> Before(moments[i], moments[j]))
       <==> (forall i :: 0 < i < |moments| ==> !MixedForms(moments[i - 1], moments[i]))
  {
    forall i | 0 < i < |moments|
      ensures Before(moments[i - 1], moments[i]) <==> !MixedForms(moments[i - 1], moments[i])
    {
      assert WellLinked(sha256, events, i);
      TextOrderIffTimeOrder(moments[i - 1], moments[i]);
    }
    if forall i :: 0 < i < |moments| ==> !MixedForms(moments[i - 1], moments[i]) {
      forall i, j | 0 <= i < j < |moments| ensures Before(moments[i], moments[j]) { BeforeChain(moments, i, j); }
    }
  }

  lemma {:induction false} BeforeChain(moments: seq<Moment>, i: nat, j: nat)
    requires i < j < |moments|
    requires forall k :: 0 < k < |moments| ==> Before(moments[k - 1], moments[k])
    ensures Before(moments[i], moments[j])
    decreases j
  {
    if i + 1 < j { BeforeChain(moments, i, j - 1); }
  }

  /** The recorded moments after a run: those of the accepted requests follow the earlier ones. */
  function RunMoments(sha256: string -> string, events: seq<Event>, moments: seq<Moment>, requests: seq<Request>): seq<Moment>
    requires events != []
    decreases |requests|
  {
    if requests == [] then moments
    else
      var outcome := Transition(sha256, events, requests[0]);
      RunMoments(sha256, After(events, outcome), if outcome.Ok? then moments + [requests[0].occurredAt] else moments, requests[1..])
  }

  lemma {:induction false} RunRecords(sha256: string -> string, events: seq<Event>, moments: seq<Moment>, requests: seq<Request>)
    requires events != [] && Records(events, moments)
    ensures Records(Run(sha256, events, requests), RunMoments(sha256, events, moments, requests))
    decreases |requests|
  {
    hide IsSafeId, IsSha256, Increases, Text, AllNormal, Digest;
    if requests != [] {
      var r := requests[0];
      var outcome := Transition(sha256, events, r);
      RunRecords(sha256, After(events, outcome), if outcome.Ok? then moments + [r.occurredAt] else moments, requests[1..]);
    }
  }

  /** Over every run from an opening: the accepted moments strictly increase
      exactly when no two neighbours mix forms within one second. */
  lemma RunTimesIncreaseIff(
    sha256: string -> string, detectedAt: Moment, detectorRef: string, actionCode: string, evidence: string,
    requests: seq<Request>)
    requires NewEvent(sha256, [], Detected, detectedAt, detectorRef, actionCode, evidence).Ok?
    ensures var first := NewEvent(sha256, [], Detected, detectedAt, detectorRef, actionCode, evidence).value;
      var moments := RunMoments(sha256, [first], [detectedAt], requests);
      && Records(Run(sha256, [first], requests), moments)
      && ((forall i, j :: 0 <= i < j < |moments| ==> Before(moments[i], moments[j]))
          <==> (forall i :: 0 < i < |moments| ==> !MixedForms(moments[i - 1], moments[i])))
  {
    hide NewEvent, Run, RunMoments, Before, MixedForms;
    var first := NewEvent(sha256, [], Detected, detectedAt, detectorRef, actionCode, evidence).value;
    NewEventFields(sha256, [], Detected, detectedAt, detectorRef, actionCode, evidence);
    OpeningIsHistory(sha256, detectedAt, detectorRef, actionCode, evidence);
    RunKeepsHistory(sha256, [first], requests);
    RunRecords(sha256, [first], [detectedAt], requests);
    TimesIncreaseIff(sha256, Run(sha256, [first], requests), RunMoments(sha256, [first], [detectedAt], requests));
  }

  const HALF_PAST: Moment := DateTime(true, 2026, 7, 30, 13, 0, 0, 500000)
  const ON_THE_SECOND: Moment := DateTime(true, 2026, 7, 30, 13, 0, 0, 0)

  /** A transition half a second earlier than the detection is accepted. */
  lemma EarlierTransitionAccepted(sha256: string -> string, operatorRef: string, actionCode: string, evidence: string)
    requires IsSafeId(operatorRef) && IsSafeId(actionCode) && IsSha256(evidence)
    ensures var start := NewEvent(sha256, [], Detected, HALF_PAST, operatorRef, actionCode, evidence);
      && start.Ok?
      && Transition(sha256, [start.value], Request(Acknowledged, ON_THE_SECOND, operatorRef, actionCode, evidence, None)).Ok?
      && Before(ON_THE_SECOND, HALF_PAST)
  {
    TextOrderIffTimeOrder(HALF_PAST, ON_THE_SECOND);
  }

  // ----- the manifest and its verifier

  function EventRecord(e: Event): (r: Json)
    ensures r.Obj?
  {
    Obj(e.Payload().fields["event_sha256" := Str(e.digest)])
  }

  function EventRecords(events: seq<Event>): (items: seq<Json>)
    ensures |items| == |events|
  {
    seq(|events|, i requires 0 <= i < |events| => EventRecord(events[i]))
  }

  /** What the digest of a listed event is taken of. */
  function PayloadText(item: Json): string {
    if item.Obj? then Encode(true, Body(item.fields, "event_sha256")) else ""
  }

  /** The digest an entry carries. */
  function OwnDigest(item: Json): Json { if item.Obj? then Get(item.fields, "event_sha256") else Null }

  /** Entry i carries its position, its predecessor's digest and its own digest. */
  predicate Linked(sha256: string -> string, items: seq<Json>, i: nat)
    requires i < |items|
  {
    && items[i].Obj?
    && EqualsInt(Get(items[i].fields, "sequence"), i + 1)
    && (i == 0 ==> Get(items[i].fields, "previous_event_sha256") == Null)
    && (i > 0 ==> Get(items[i].fields, "previous_event_sha256") == OwnDigest(items[i - 1]))
    && OwnDigest(items[i]) == Str(sha256(PayloadText(items[i])))
  }

  ghost predicate Chained(sha256: string -> string, items: seq<Json>) {
    forall i :: 0 <= i < |items| ==> Linked(sha256, items, i)
  }

  ghost predicate InLifecycle(items: seq<Json>) {
    && |items| == |LIFECYCLE|
    && forall i :: 0 <= i < |items| ==> items[i].Obj? && Get(items[i].fields, "state") == Str(StateText(LIFECYCLE[i]))
  }

  predicate DigestMatches(sha256: string -> string, m: map<string, Json>) {
    Get(m, "manifest_sha256") == Str(Digest(sha256, true, Body(m, "manifest_sha256")))
  }

  ghost predicate Accepts(sha256: string -> string, m: map<string, Json>) {
    && DigestMatches(sha256, m)
    && Get(m, "events").Arr?
    && InLifecycle(m["events"].items)
    && Chained(sha256, m["events"].items)
    && Get(m, "final_state") == Str(StateText(Closed))
  }

  /** What the verifier compares in one entry. */
  lemma LinkedEntry(sha256: string -> string, items: seq<Json>, i: nat, previous: Json)
    requires i < |items| && previous == if i == 0 then Null else OwnDigest(items[i - 1])
    ensures Linked(sha256, items, i) <==>
      && items[i].Obj?
      && EqualsInt(Get(items[i].fields, "sequence"), i + 1)
      && Get(items[i].fields, "previous_event_sha256") == previous
      && Get(items[i].fields, "event_sha256") == Str(sha256(PayloadText(items[i])))
  {
    hide PayloadText, EqualsInt;
  }

  method VerifyIncidentManifest(sha256: string -> string, manifest: map<string, Json>) returns (ok: bool)
    ensures ok <==> Accepts(sha256, manifest)
  {
    hide PayloadText, Digest, Encode, StateText, Body, EqualsInt, Linked, DigestMatches;
    if !DigestMatches(sha256, manifest) { return false; }
    var events := Get(manifest, "events");
    if !events.Arr? || |events.items| != |LIFECYCLE| { return false; }
    var previous := Null;
    for index := 0 to |events.items|
      invariant forall i :: 0 <= i < index ==> Linked(sha256, events.items, i)
      invariant forall i :: 0 <= i < index ==>
        events.items[i].Obj? && Get(events.items[i].fields, "state") == Str(StateText(LIFECYCLE[i]))
      invariant previous == if index == 0 then Null else OwnDigest(events.items[index - 1])
    {
      var raw := events.items[index];
      LinkedEntry(sha256, events.items, index, previous);
      var good := raw.Obj?
        && EqualsInt(Get(raw.fields, "sequence"), index + 1)
        && Get(raw.fields, "state") == Str(StateText(LIFECYCLE[index]))
        && Get(raw.fields, "previous_event_sha256") == previous
        && Get(raw.fields, "event_sha256") == Str(sha256(PayloadText(raw)));
      if !good { return false; }
      previous := raw.fields["event_sha256"];
    }
    ok := Get(manifest, "final_state") == Str(StateText(Closed));
  }

  // ----- the incident object

  class ReliabilityIncident {
    const sha256: string -> string
    const incidentId: string
    const correlationId: string
    const alert: Alert
    var events: seq<Event>

    ghost predicate Valid()
      reads this
    {
      && IsSafeId(incidentId) && IsSafeId(correlationId)
      && IsSafeId(alert.policyId) && IsSafeId(alert.policyVersion) && IsSafeId(alert.runbook)
      && History(sha256, events)
    }

    constructor (sha256: string -> string, incidentId: string, correlationId: string, alert: Alert)
      ensures this.sha256 == sha256 && this.incidentId == incidentId && this.correlationId == correlationId
      ensures this.alert == alert && events == []
    {
      this.sha256, this.incidentId, this.correlationId, this.alert := sha256, incidentId, correlationId, alert;
      events := [];
    }

    static method Open(
      sha256: string -> string, incidentId: string, alert: Alert, detectedAt: Moment,
      correlationId: string, detectorRef: string, evidence: string
    ) returns (r: Result<ReliabilityIncident, Error>)
      ensures r.Ok? <==>
        && alert.state in {Warning, Critical}
        && IsSafeId(incidentId) && IsSafeId(alert.policyId) && IsSafeId(alert.policyVersion)
        && IsSafeId(alert.runbook) && IsSafeId(correlationId)
        && NewEvent(sha256, [], Detected, detectedAt, detectorRef, "alert-detected", evidence).Ok?
      ensures r.Ok? ==> fresh(r.value) && r.value.Valid()
      ensures r.Ok? ==> r.value.sha256 == sha256 && r.value.alert == alert
      ensures r.Ok? ==> r.value.incidentId == incidentId && r.value.correlationId == correlationId
      ensures r.Ok? ==> r.value.events == [NewEvent(sha256, [], Detected, detectedAt, detectorRef, "alert-detected", evidence).value]
    {
      hide NewEvent, IsSafeId, History;
      if alert.state !in {Warning, Critical} { return Err(NotAlertable); }
      if !IsSafeId(incidentId) || !IsSafeId(alert.policyId) || !IsSafeId(alert.policyVersion)
        || !IsSafeId(alert.runbook) || !IsSafeId(correlationId) { return Err(UnsafeId); }
      var incident := new ReliabilityIncident(sha256, incidentId, correlationId, alert);
      var first := incident.Append(Detected, detectedAt, detectorRef, "alert-detected", evidence);
      if first.Err? { return Err(first.error); }
      OpeningIsHistory(sha256, detectedAt, detectorRef, "alert-detected", evidence);
      assert incident.events == [first.value];
      return Ok(incident);
    }

    method Append(state: State, occurredAt: Moment, operatorRef: string, actionCode: string, evidence: string)
      returns (r: Result<Event, Error>)
      modifies this`events
      ensures r == NewEvent(sha256, old(events), state, occurredAt, operatorRef, actionCode, evidence)
      ensures events == if r.Ok? then old(events) + [r.value] else old(events)
    {
      var timestamp := Utc(occurredAt);
      if timestamp.None? { return Err(NaiveTimestamp); }
      if events != [] && !Increases(events[|events| - 1].occurredAt, timestamp.value) { return Err(TimestampNotIncreasing); }
      if !IsSafeId(operatorRef) || !IsSafeId(actionCode) { return Err(UnsafeId); }
      if !IsSha256(evidence) { return Err(BadEvidence); }
      var previous := if events != [] then Some(events[|events| - 1].digest) else None;
      var event := Event(|events| + 1, state, timestamp.value, operatorRef, actionCode, evidence, previous, "");
      event := event.(digest := Digest(sha256, true, event.Payload()));
      events := events + [event];
      r := Ok(event);
    }

    /** A refused transition changes nothing; an accepted one appends exactly one linked event. */
    method TransitionTo(request: Request) returns (r: Result<Event, Error>)
      requires Valid()
      modifies this`events
      ensures Valid()
      ensures r == Transition(sha256, old(events), request)
      ensures events == if r.Ok? then old(events) + [r.value] else old(events)
    {
      assert events != [];
      hide NewEvent, History, IsSafeId, AllNormal;
      TransitionKeepsHistory(sha256, events, request);
      if Next(events[|events| - 1].state) != Some(request.state) { return Err(NotAllowed); }
      if request.state == Recovered && !AllNormal(request.recovery) { return Err(RecoveryIncomplete); }
      r := Append(request.state, request.occurredAt, request.operatorRef, request.actionCode, request.evidence);
    }

    /** Only a closed incident has a manifest, and the verifier accepts it. */
    method Manifest() returns (r: Result<map<string, Json>, Error>)
      requires Valid()
      ensures r.Ok? <==> events[|events| - 1].state == Closed
      ensures r.Ok? ==> r.value == ManifestOf(sha256, incidentId, correlationId, alert, events)
      ensures r.Ok? ==> Accepts(sha256, r.value)
    {
      if events[|events| - 1].state != Closed { return Err(NotClosed); }
      r := Ok(ManifestOf(sha256, incidentId, correlationId, alert, events));
      ClosedManifestAccepted(sha256, incidentId, correlationId, alert, events);
    }
  }

  function ManifestBody(incidentId: string, correlationId: string, alert: Alert, events: seq<Event>): map<string, Json>
    requires events != []
  {
    map[
      "schema_version" := Int(1),
      "incident_id" := Str(incidentId),
      "policy_id" := Str(alert.policyId),
      "policy_version" := Str(alert.policyVersion),
      "runbook" := Str(alert.runbook),
      "correlation_id" := Str(correlationId),
      "initial_alert_state" := Str(AlertText(alert.state)),
      "initial_observed" := if alert.observed.Some? then Int(alert.observed.value) else Null,
      "final_state" := Str(StateText(events[|events| - 1].state)),
      "events" := Arr(EventRecords(events))]
  }

  function ManifestOf(sha256: string -> string, incidentId: string, correlationId: string, alert: Alert, events: seq<Event>): map<string, Json>
    requires events != []
  {
    var body := ManifestBody(incidentId, correlationId, alert, events);
    body["manifest_sha256" := Str(Digest(sha256, true, Obj(body)))]
  }

  lemma BodyFields(incidentId: string, correlationId: string, alert: Alert, events: seq<Event>)
    requires events != []
    ensures var body := ManifestBody(incidentId, correlationId, alert, events);
      && "manifest_sha256" !in body
      && Get(body, "events") == Arr(EventRecords(events))
      && Get(body, "final_state") == Str(StateText(events[|events| - 1].state))
  {
    hide StateText, AlertText;
  }

  lemma ClosedManifestAccepted(sha256: string -> string, incidentId: string, correlationId: string, alert: Alert, events: seq<Event>)
    requires History(sha256, events) && events[|events| - 1].state == Closed
    ensures Accepts(sha256, ManifestOf(sha256, incidentId, correlationId, alert, events))
  {
    hide ManifestBody, Digest, EventRecords, Linked, StateText, Body, IsTimestamp, IsSafeId, IsSha256, Increases;
    assert WellLinked(sha256, events, |events| - 1);
    var body := ManifestBody(incidentId, correlationId, alert, events);
    BodyFields(incidentId, correlationId, alert, events);
    Sealed(body, "manifest_sha256", Str(Digest(sha256, true, Obj(body))));
    var m := ManifestOf(sha256, incidentId, correlationId, alert, events);
    RecordsChained(sha256, events);
    assert Get(m, "events") == m["events"] == Arr(EventRecords(events));
  }

  lemma RecordsChained(sha256: string -> string, events: seq<Event>)
    requires History(sha256, events)
    ensures |EventRecords(events)| == |events| && Chained(sha256, EventRecords(events))
    ensures |events| == |LIFECYCLE| ==> InLifecycle(EventRecords(events))
  {
    forall i | 0 <= i < |events|
      ensures Linked(sha256, EventRecords(events), i)
      ensures Get(EventRecords(events)[i].fields, "state") == Str(StateText(LIFECYCLE[i]))
    {
      RecordLinked(sha256, events, i);
    }
  }

  lemma RecordFields(e: Event)
    ensures EventRecord(e).Obj?
    ensures var f := EventRecord(e).fields;
      && Get(f, "sequence") == Int(e.sequence) && Get(f, "state") == Str(StateText(e.state))
      && Get(f, "previous_event_sha256") == (if e.previous.Some? then Str(e.previous.value) else Null)
      && OwnDigest(EventRecord(e)) == Str(e.digest)
      && PayloadText(EventRecord(e)) == Encode(true, e.Payload())
  {
    hide StateText, Encode;
    assert EventRecord(e).fields - {"event_sha256"} == e.Payload().fields;
  }

  lemma RecordLinked(sha256: string -> string, events: seq<Event>, i: nat)
    requires History(sha256, events) && i < |events|
    ensures var items := EventRecords(events);
      Linked(sha256, items, i) && Get(items[i].fields, "state") == Str(StateText(LIFECYCLE[i]))
  {
    hide StateText, EventRecord, OwnDigest, PayloadText, Encode, IsTimestamp;
    assert WellLinked(sha256, events, i);
    RecordFields(events[i]);
    if i > 0 { RecordFields(events[i - 1]); }
  }

  /** The chain conditions on a recorded event, field by field. */
  ghost predicate ChainedEvent(sha256: string -> string, events: seq<Event>, i: nat)
    requires i < |events| == |LIFECYCLE|
  {
    && events[i].sequence == i + 1
    && events[i].state == LIFECYCLE[i]
    && events[i].previous == (if i == 0 then None else Some(events[i - 1].digest))
    && events[i].digest == Digest(sha256, true, events[i].Payload())
  }

  lemma StateTextInjective(a: State, b: State)
    ensures StateText(a) == StateText(b) <==> a == b
  {
    assert |StateText(Detected)| == 8 && |StateText(Acknowledged)| == 12 && |StateText(Mitigating)| == 10;
    assert |StateText(Recovered)| == 9 && |StateText(Closed)| == 6;
  }

  /** For a sealed manifest of recorded events the verifier decides exactly the chain conditions. */
  lemma AcceptedIffChained(sha256: string -> string, m: map<string, Json>, events: seq<Event>)
    requires DigestMatches(sha256, m) && Get(m, "final_state") == Str(StateText(Closed))
    requires Get(m, "events") == Arr(EventRecords(events))
    ensures Accepts(sha256, m) <==>
      |events| == |LIFECYCLE| && forall i :: 0 <= i < |events| ==> ChainedEvent(sha256, events, i)
  {
    hide DigestMatches, EventRecords, Linked, ChainedEvent, StateText;
    var items := EventRecords(events);
    assert m["events"] == Arr(items) && |items| == |events|;
    if |events| == |LIFECYCLE| {
      forall i | 0 <= i < |events|
        ensures items[i].Obj?
        ensures Linked(sha256, items, i) && Get(items[i].fields, "state") == Str(StateText(LIFECYCLE[i]))
           <==> ChainedEvent(sha256, events, i)
      {
        RecordIffChained(sha256, events, i);
      }
    }
  }

  lemma RecordIffChained(sha256: string -> string, events: seq<Event>, i: nat)
    requires i < |events| == |LIFECYCLE|
    ensures |EventRecords(events)| == |events| && EventRecords(events)[i].Obj?
    ensures var items := EventRecords(events);
      var linked := Linked(sha256, items, i) && Get(items[i].fields, "state") == Str(StateText(LIFECYCLE[i]));
      linked <==> ChainedEvent(sha256, events, i)
  {
    hide StateText, EventRecord, OwnDigest, PayloadText, Encode, IsTimestamp;
    RecordFields(events[i]);
    if i > 0 { RecordFields(events[i - 1]); }
    StateTextInjective(events[i].state, LIFECYCLE[i]);
  }

  // ----- the head of the chain fixes the history

  /** Two different listed events whose digests coincide. */
  predicate Forged(sha256: string -> string, x: Json, y: Json) {
    Collision(sha256, PayloadText(x), PayloadText(y))
  }

  lemma SameRecord(sha256: string -> string, xs: seq<Json>, ys: seq<Json>, i: nat, j: nat)
    requires i < |xs| && j < |ys| && Linked(sha256, xs, i) && Linked(sha256, ys, j)
    requires OwnDigest(xs[i]) == OwnDigest(ys[j])
    requires !Forged(sha256, xs[i], ys[j])
    ensures i == j && xs[i] == ys[j]
    ensures i > 0 ==> OwnDigest(xs[i - 1]) == OwnDigest(ys[j - 1])
  {
    hide Encode, EqualsInt;
    SamePayload(xs[i].fields, ys[j].fields, "event_sha256");
    EqualsIntUnique(Get(xs[i].fields, "sequence"), i + 1, j + 1);
  }

  /** Backward induction: two chains that end in the same digest are equal event by event,
      unless two of their own events collide. */
  lemma {:induction false} HeadFixesHistory(sha256: string -> string, xs: seq<Json>, ys: seq<Json>)
    requires Chained(sha256, xs) && Chained(sha256, ys) && xs != [] && ys != []
    requires OwnDigest(xs[|xs| - 1]) == OwnDigest(ys[|ys| - 1])
    ensures xs == ys || exists i, j :: 0 <= i < |xs| && 0 <= j < |ys| && Forged(sha256, xs[i], ys[j])
  {
    hide Forged, OwnDigest, Linked, IsFloatText;
    var n, m := |xs| - 1, |ys| - 1;
    assert Linked(sha256, xs, n) && Linked(sha256, ys, m);
    if !Forged(sha256, xs[n], ys[m]) {
      SameRecord(sha256, xs, ys, n, m);
      if n > 0 {
        PrefixChained(sha256, xs, n);
        PrefixChained(sha256, ys, n);
        HeadFixesHistory(sha256, xs[..n], ys[..n]);
        if xs[..n] != ys[..n] {
          var i, j :| 0 <= i < n && 0 <= j < n && Forged(sha256, xs[..n][i], ys[..n][j]);
          assert Forged(sha256, xs[i], ys[j]);
        }
      }
      assert xs == xs[..n] + [xs[n]] && ys == ys[..n] + [ys[n]];
    }
  }

  lemma PrefixChained(sha256: string -> string, xs: seq<Json>, n: nat)
    requires Chained(sha256, xs) && n < |xs|
    ensures Chained(sha256, xs[..n])
  {
    forall i | 0 <= i < n ensures Linked(sha256, xs[..n], i) { assert Linked(sha256, xs, i); }
  }

  /** No edit, drop, insertion or reordering of the events of an accepted manifest passes under the same head. */
  lemma TamperedEventsRejected(sha256: string -> string, m: map<string, Json>, m': map<string, Json>)
    requires Accepts(sha256, m) && Get(m', "events").Arr? && m'["events"] != m["events"] && m'["events"].items != []
    requires OwnDigest(m["events"].items[4]) == OwnDigest(m'["events"].items[|m'["events"].items| - 1])
    requires forall x, y :: x in m["events"].items && y in m'["events"].items ==> !Forged(sha256, x, y)
    ensures !Accepts(sha256, m')
  {
    hide Linked, Forged, DigestMatches, StateText, OwnDigest;
    if Accepts(sha256, m') {
      HeadFixesHistory(sha256, m["events"].items, m'["events"].items);
    }
  }

  /** Two accepted manifests with one digest are the same manifest, or their bodies collide. */
  lemma ManifestDigestFixesAll(sha256: string -> string, m: map<string, Json>, m': map<string, Json>)
    requires Accepts(sha256, m) && Accepts(sha256, m')
    requires Get(m, "manifest_sha256") == Get(m', "manifest_sha256")
    ensures m == m'
      || Collision(sha256, Encode(true, Body(m, "manifest_sha256")), Encode(true, Body(m', "manifest_sha256")))
  {
    hide InLifecycle, Chained, StateText, Encode;
    var k := "manifest_sha256";
    DigestFixesValue(sha256, true, Body(m, k), Body(m', k));
    if m - {k} == m' - {k} {
      assert m == (m - {k})[k := m[k]] && m' == (m' - {k})[k := m'[k]];
    }
  }
}
