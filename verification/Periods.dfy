/** Exception keys compared over any number of periods. */
module Periods {
  import opened Sorting
  import opened Texts
  import opened JsonText

  /** One exception row; status and severity as lower-cased text. */
  datatype Row = Row(key: string, status: string, severity: string, columns: map<string, Json>)

  datatype Frame = Frame(period: string, path: string, rows: seq<Row>)

  function Keys(rows: seq<Row>): set<string> { set r | r in rows :: r.key }

  function CountIf(rows: seq<Row>, p: Row -> bool): nat {
    if rows == [] then 0 else CountIf(rows[..|rows| - 1], p) + if p(rows[|rows| - 1]) then 1 else 0
  }

  // ----- trend

  /** The rounded percentage of part in whole, a double. */
  type Percent = (nat, nat) -> FiniteText

  datatype TrendRow = TrendRow(
    period: string, path: string, exceptions: nat, unique: nat,
    added: nat, recurring: nat, resolved: nat,
    highOrCritical: nat, reviewed: nat, completion: Json, acceptedRisk: nat, escalated: nat)

  /** A status beyond New. */
  predicate IsReviewed(status: string) { Stripped(status) != "" && Stripped(status) != "new" }

  predicate Severe(r: Row) { r.severity == "high" || r.severity == "critical" }

  predicate Reviewed(r: Row) { IsReviewed(r.status) }

  predicate AcceptedRisk(r: Row) { r.status == "accepted risk" }

  predicate Escalated(r: Row) { r.status == "escalated" }

  function TrendRowOf(percent: Percent, frame: Frame, previous: set<string>): TrendRow {
    var current := Keys(frame.rows);
    var empty := frame.rows == [];
    var reviewed := CountIf(frame.rows, Reviewed);
    TrendRow(
      if empty then "" else frame.period,
      if empty then "" else frame.path,
      |frame.rows|, |current|,
      |current - previous|, |current * previous|, |previous - current|,
      CountIf(frame.rows, Severe),
      reviewed,
      if empty then Int(0) else Float(percent(reviewed, |frame.rows|)),
      CountIf(frame.rows, AcceptedRisk),
      CountIf(frame.rows, Escalated))
  }

  function LastKeys(frames: seq<Frame>): set<string> {
    if frames == [] then {} else Keys(frames[|frames| - 1].rows)
  }

  /** Every period against the one before it. */
  function Trend(percent: Percent, frames: seq<Frame>): (rows: seq<TrendRow>)
    ensures |rows| == |frames|
  {
    if frames == [] then []
    else
      var front := frames[..|frames| - 1];
      Trend(percent, front) + [TrendRowOf(percent, frames[|frames| - 1], LastKeys(front))]
  }

  method TrendFrame(percent: Percent, frames: seq<Frame>) returns (rows: seq<TrendRow>)
    ensures rows == Trend(percent, frames)
  {
    hide TrendRowOf;
    rows := [];
    var previous: set<string> := {};
    for i := 0 to |frames|
      invariant rows == Trend(percent, frames[..i])
      invariant previous == LastKeys(frames[..i])
    {
      assert frames[..i + 1][..i] == frames[..i];
      rows := rows + [TrendRowOf(percent, frames[i], previous)];
      previous := Keys(frames[i].rows);
    }
    assert frames[..|frames|] == frames;
  }

  lemma SplitSize<T>(a: set<T>, b: set<T>)
    ensures |a| == |a - b| + |a * b|
    ensures |a| + |b - a| == |b| + |a - b|
  {
    assert a == (a - b) + (a * b) && (a - b) * (a * b) == {};
    assert b == (b - a) + (a * b) && (b - a) * (a * b) == {};
  }

  lemma {:induction false} TrendAt(percent: Percent, frames: seq<Frame>, i: nat)
    requires i < |frames|
    ensures Trend(percent, frames)[i] == TrendRowOf(percent, frames[i], if i == 0 then {} else Keys(frames[i - 1].rows))
  {
    hide TrendRowOf;
    if i + 1 < |frames| { TrendAt(percent, frames[..|frames| - 1], i); }
  }

  lemma RowBalances(percent: Percent, frame: Frame, previous: set<string>)
    ensures var row := TrendRowOf(percent, frame, previous);
      && row.unique == |Keys(frame.rows)| == row.added + row.recurring
      && row.unique + row.resolved == |previous| + row.added
  {
    SplitSize(Keys(frame.rows), previous);
  }

  /** In each period unique = new + recurring, and unique + resolved = previous unique + new. */
  lemma TrendBalances(percent: Percent, frames: seq<Frame>, i: nat)
    requires i < |frames|
    ensures var rows := Trend(percent, frames);
      && rows[i].unique == rows[i].added + rows[i].recurring
      && rows[i].unique + rows[i].resolved == (if i == 0 then 0 else rows[i - 1].unique) + rows[i].added
  {
    hide TrendRowOf, Trend, Keys;
    TrendAt(percent, frames, i);
    RowBalances(percent, frames[i], if i == 0 then {} else Keys(frames[i - 1].rows));
    if i > 0 {
      TrendAt(percent, frames, i - 1);
      RowBalances(percent, frames[i - 1], if i == 1 then {} else Keys(frames[i - 2].rows));
    }
  }

  function TotalAdded(rows: seq<TrendRow>): nat {
    if rows == [] then 0 else TotalAdded(rows[..|rows| - 1]) + rows[|rows| - 1].added
  }

  function TotalResolved(rows: seq<TrendRow>): nat {
    if rows == [] then 0 else TotalResolved(rows[..|rows| - 1]) + rows[|rows| - 1].resolved
  }

  /** Over any number of periods, what is left is what was added less what was resolved. */
  lemma {:induction false} TrendConserves(percent: Percent, frames: seq<Frame>)
    requires frames != []
    ensures var rows := Trend(percent, frames);
      rows[|rows| - 1].unique == TotalAdded(rows) - TotalResolved(rows)
  {
    hide TrendRowOf;
    var n := |frames| - 1;
    var rows := Trend(percent, frames);
    assert rows[..n] == Trend(percent, frames[..n]);
    TrendBalances(percent, frames, n);
    if n > 0 {
      TrendConserves(percent, frames[..n]);
      assert rows[n - 1] == rows[..n][n - 1];
    }
  }

  lemma {:induction false} CountsDisjoint(rows: seq<Row>, p: Row -> bool, q: Row -> bool, r: Row -> bool)
    requires forall x :: p(x) || q(x) ==> r(x)
    requires forall x :: !(p(x) && q(x))
    ensures CountIf(rows, p) + CountIf(rows, q) <= CountIf(rows, r) <= |rows|
  {
    if rows != [] { CountsDisjoint(rows[..|rows| - 1], p, q, r); }
  }

  lemma ListedAreReviewed()
    ensures IsReviewed("accepted risk") && IsReviewed("escalated")
  {
  }

  // The rows, by position, that the trend counts.

  function SevereRows(rows: seq<Row>): set<nat> {
    set i | 0 <= i < |rows| && (rows[i].severity == "high" || rows[i].severity == "critical")
  }

  function ReviewedRows(rows: seq<Row>): set<nat> {
    set i | 0 <= i < |rows| && Stripped(rows[i].status) != "" && Stripped(rows[i].status) != "new"
  }

  function RowsInStatus(rows: seq<Row>, status: string): set<nat> { set i | 0 <= i < |rows| && rows[i].status == status }

  lemma {:induction false} SevereCounted(rows: seq<Row>)
    ensures CountIf(rows, Severe) == |SevereRows(rows)|
  {
    if rows != [] {
      var n := |rows| - 1;
      SevereCounted(rows[..n]);
      assert SevereRows(rows) == SevereRows(rows[..n]) + (if Severe(rows[n]) then {n} else {});
    }
  }

  lemma {:induction false} ReviewedCounted(rows: seq<Row>)
    ensures CountIf(rows, Reviewed) == |ReviewedRows(rows)|
  {
    hide Stripped;
    if rows != [] {
      var n := |rows| - 1;
      ReviewedCounted(rows[..n]);
      assert ReviewedRows(rows) == ReviewedRows(rows[..n]) + (if Reviewed(rows[n]) then {n} else {});
    }
  }

  lemma LastInStatus(rows: seq<Row>, status: string)
    requires rows != []
    ensures var n := |rows| - 1;
      |RowsInStatus(rows, status)| == |RowsInStatus(rows[..n], status)| + if rows[n].status == status then 1 else 0
  {
    var n := |rows| - 1;
    assert RowsInStatus(rows, status) == RowsInStatus(rows[..n], status) + (if rows[n].status == status then {n} else {});
  }

  lemma {:induction false} StatusCounted(rows: seq<Row>)
    ensures CountIf(rows, AcceptedRisk) == |RowsInStatus(rows, "accepted risk")|
    ensures CountIf(rows, Escalated) == |RowsInStatus(rows, "escalated")|
  {
    hide RowsInStatus;
    if rows != [] {
      StatusCounted(rows[..|rows| - 1]);
      LastInStatus(rows, "accepted risk");
      LastInStatus(rows, "escalated");
    } else {
      NoneInStatus("accepted risk");
      NoneInStatus("escalated");
    }
  }

  lemma NoneInStatus(status: string)
    ensures RowsInStatus([], status) == {}
  {
  }

  lemma KeysMean(rows: seq<Row>, k: string)
    ensures k in Keys(rows) <==> exists j :: 0 <= j < |rows| && rows[j].key == k
  {
  }

  /** Row i of the trend: what is counted in period i, and which keys it shares with the period before it. */
  lemma TrendRowMeans(percent: Percent, frames: seq<Frame>, i: nat)
    requires i < |frames|
    ensures |Trend(percent, frames)| == |frames|
    ensures var row, rows := Trend(percent, frames)[i], frames[i].rows;
      var keys, before := Keys(rows), if i == 0 then {} else Keys(frames[i - 1].rows);
      && row.period == (if |rows| == 0 then "" else frames[i].period)
      && row.path == (if |rows| == 0 then "" else frames[i].path)
      && row.exceptions == |rows| && row.unique == |keys|
      && row.added == |keys - before| && row.recurring == |keys * before| && row.resolved == |before - keys|
      && row.highOrCritical == |SevereRows(rows)| && row.reviewed == |ReviewedRows(rows)|
      && row.acceptedRisk == |RowsInStatus(rows, "accepted risk")| && row.escalated == |RowsInStatus(rows, "escalated")|
      && row.completion == if |rows| == 0 then Int(0) else Float(percent(row.reviewed, |rows|))
  {
    hide CountIf, Trend, Keys, SevereRows, ReviewedRows, RowsInStatus;
    TrendAt(percent, frames, i);
    SevereCounted(frames[i].rows);
    ReviewedCounted(frames[i].rows);
    StatusCounted(frames[i].rows);
  }

  /** Accepted and escalated rows are reviewed ones, and no row is counted twice. */
  lemma ReviewedBounds(percent: Percent, frames: seq<Frame>, i: nat)
    requires i < |frames|
    ensures var row := Trend(percent, frames)[i];
      row.acceptedRisk + row.escalated <= row.reviewed <= row.exceptions == |frames[i].rows|
  {
    hide IsReviewed, Trend, Keys, CountIf;
    TrendAt(percent, frames, i);
    ListedAreReviewed();
    CountsDisjoint(frames[i].rows, AcceptedRisk, Escalated, Reviewed);
  }

  // ----- the comparison of the current period with all earlier ones

  function Concatenated(frames: seq<Frame>): seq<Row> {
    if frames == [] then [] else Concatenated(frames[..|frames| - 1]) + frames[|frames| - 1].rows
  }

  function Current(frames: seq<Frame>): seq<Row>
    requires frames != []
  {
    frames[|frames| - 1].rows
  }

  function Prior(frames: seq<Frame>): seq<Row>
    requires frames != []
  {
    Concatenated(frames[..|frames| - 1])
  }

  datatype Comparison = Comparison(
    added: set<string>, recurring: set<string>, resolved: set<string>,
    escalated: set<string>, acceptedRisk: set<string>)

  function WithStatus(rows: seq<Row>, status: string): set<string> { set r | r in rows && r.status == status :: r.key }

  function Compare(frames: seq<Frame>): Comparison
    requires |frames| >= 2
  {
    var current, prior := Keys(Current(frames)), Keys(Prior(frames));
    Comparison(current - prior, current * prior, prior - current,
      WithStatus(Current(frames), "escalated"), WithStatus(Current(frames), "accepted risk"))
  }

  lemma {:induction false} ConcatenatedKeys(frames: seq<Frame>, k: string)
    ensures k in Keys(Concatenated(frames)) <==> exists i :: 0 <= i < |frames| && k in Keys(frames[i].rows)
  {
    if frames != [] {
      var n := |frames| - 1;
      ConcatenatedKeys(frames[..n], k);
      assert k in Keys(Concatenated(frames)) <==> k in Keys(Concatenated(frames[..n])) || k in Keys(frames[n].rows);
      if i :| 0 <= i < |frames| && k in Keys(frames[i].rows) {
        if i < n { assert k in Keys(frames[..n][i].rows); }
      }
      if i :| 0 <= i < n && k in Keys(frames[..n][i].rows) { assert k in Keys(frames[i].rows); }
    }
  }

  /** New, recurring and resolved keys partition every key ever seen. */
  lemma ComparisonPartitions(frames: seq<Frame>, k: string)
    requires |frames| >= 2
    ensures var c := Compare(frames);
      && (k in c.added + c.recurring + c.resolved <==> exists i :: 0 <= i < |frames| && k in Keys(frames[i].rows))
      && c.added !! c.recurring && c.added !! c.resolved && c.recurring !! c.resolved
      && c.added + c.recurring == Keys(Current(frames))
      && c.escalated <= c.added + c.recurring && c.acceptedRisk <= c.added + c.recurring
  {
    var n := |frames| - 1;
    ConcatenatedKeys(frames[..n], k);
    if i :| 0 <= i < |frames| && k in Keys(frames[i].rows) {
      if i < n { assert k in Keys(frames[..n][i].rows); }
    }
    if i :| 0 <= i < n && k in Keys(frames[..n][i].rows) { assert k in Keys(frames[i].rows); }
  }

  /** The rows of the current period, and those of all earlier ones from the first to the last. */
  lemma {:induction false} PriorRows(frames: seq<Frame>, i: nat, j: nat)
    requires |frames| >= 2 && i < |frames| - 1 && j < |frames[i].rows|
    ensures Current(frames) == frames[|frames| - 1].rows
    ensures |Concatenated(frames[..i])| + j < |Prior(frames)|
    ensures Prior(frames)[|Concatenated(frames[..i])| + j] == frames[i].rows[j]
    ensures Concatenated([]) == []
    ensures |Concatenated(frames[..i + 1])| == |Concatenated(frames[..i])| + |frames[i].rows|
    ensures |Prior(frames)| == |Concatenated(frames[..|frames| - 1])|
    decreases |frames|
  {
    hide Concatenated;
    ConcatenatedStep(frames, i);
    if i == |frames| - 2 {
    } else {
      var front := frames[..|frames| - 1];
      ConcatenatedStep(frames, |frames| - 2);
      assert front[..i] == frames[..i] && front[..|front| - 1] == frames[..|frames| - 2];
      PriorRows(front, i, j);
    }
  }

  lemma ConcatenatedStep(frames: seq<Frame>, i: nat)
    requires i < |frames|
    ensures Concatenated([]) == []
    ensures Concatenated(frames[..i + 1]) == Concatenated(frames[..i]) + frames[i].rows
  {
    assert frames[..i + 1][..i] == frames[..i];
  }

  /** The five key sets of a comparison. */
  lemma CompareMeans(frames: seq<Frame>, k: string)
    requires |frames| >= 2
    ensures var c, current := Compare(frames), frames[|frames| - 1].rows;
      var now := exists r :: r in current && r.key == k;
      var earlier := exists i :: 0 <= i < |frames| - 1 && SeenIn(frames[i], k);
      && (k in c.added <==> now && !earlier)
      && (k in c.recurring <==> now && earlier)
      && (k in c.resolved <==> !now && earlier)
      && (k in c.escalated <==> exists r :: r in current && r.status == "escalated" && r.key == k)
      && (k in c.acceptedRisk <==> exists r :: r in current && r.status == "accepted risk" && r.key == k)
  {
    var n := |frames| - 1;
    ConcatenatedKeys(frames[..n], k);
    assert forall i :: 0 <= i < n ==> (k in Keys(frames[..n][i].rows) <==> SeenIn(frames[i], k));
  }

  predicate SeenIn(frame: Frame, k: string) { exists r :: r in frame.rows && r.key == k }

  lemma Larger<T>(a: set<T>, b: set<T>)
    requires a <= b
    ensures |a| <= |b|
  {
    assert b == a + (b - a);
  }

  /** The summary counts against the last trend row: fewer new, more recurring and resolved, equal for two periods. */
  lemma SummaryAgainstTrend(percent: Percent, frames: seq<Frame>)
    requires |frames| >= 2
    ensures var c, last := Compare(frames), Trend(percent, frames)[|frames| - 1];
      && |c.added| <= last.added && |c.recurring| >= last.recurring && |c.resolved| >= last.resolved
      && |c.added| + |c.recurring| == last.unique
      && (|frames| == 2 ==> |c.added| == last.added && |c.recurring| == last.recurring && |c.resolved| == last.resolved)
  {
    var n := |frames| - 1;
    TrendAt(percent, frames, n);
    var current, all, previous := Keys(Current(frames)), Keys(Prior(frames)), Keys(frames[n - 1].rows);
    forall k | k in previous ensures k in all {
      ConcatenatedKeys(frames[..n], k);
      assert k in Keys(frames[..n][n - 1].rows);
    }
    Larger(current - all, current - previous);
    Larger(current * previous, current * all);
    Larger(previous - current, all - current);
    SplitSize(current, all);
    if |frames| == 2 {
      assert Prior(frames) == frames[0].rows by {
        assert frames[..1][..0] == [];
        assert Concatenated(frames[..1]) == Concatenated([]) + frames[0].rows;
      }
    }
  }

  /** Listed keys with a status never outnumber the rows with that status. */
  lemma {:induction false} StatusKeysWithinCount(rows: seq<Row>, status: string)
    ensures |WithStatus(rows, status)| <= |RowsInStatus(rows, status)|
  {
    hide RowsInStatus;
    if rows != [] {
      var front, last := rows[..|rows| - 1], rows[|rows| - 1];
      StatusKeysWithinCount(front, status);
      LastInStatus(rows, status);
      assert rows == front + [last];
      assert WithStatus(rows, status) == WithStatus(front, status) + (if last.status == status then {last.key} else {});
    } else {
      assert WithStatus(rows, status) == {};
    }
  }

  // ----- representative rows

  /** The first row of each of the given keys, in row order. */
  function Representatives(rows: seq<Row>, keys: set<string>): seq<Row> {
    if rows == [] then []
    else if rows[0].key in keys then [rows[0]] + Representatives(rows[1..], keys - {rows[0].key})
    else Representatives(rows[1..], keys)
  }

  function FirstIndex(rows: seq<Row>, k: string): (i: nat)
    requires k in Keys(rows)
    ensures i < |rows| && rows[i].key == k && forall j :: 0 <= j < i ==> rows[j].key != k
  {
    if rows[0].key == k then 0
    else
      assert k in Keys(rows[1..]) by {
        var r :| r in rows && r.key == k;
        assert r in rows[1..];
      }
      1 + FirstIndex(rows[1..], k)
  }

  function KeyList(rows: seq<Row>): seq<string> { seq(|rows|, i requires 0 <= i < |rows| => rows[i].key) }

  /** Every listed row is the first one of its key, and first positions increase. */
  ghost predicate InFirstOrder(rows: seq<Row>, reps: seq<Row>) {
    && (forall i :: 0 <= i < |reps| ==> reps[i].key in Keys(rows) && reps[i] == rows[FirstIndex(rows, reps[i].key)])
    && (forall i, j :: 0 <= i < j < |reps| ==> FirstIndex(rows, reps[i].key) < FirstIndex(rows, reps[j].key))
  }

  /** Each key that occurs is represented exactly once, by its first row, and row order is kept. */
  lemma {:induction false} RepresentativesFirst(rows: seq<Row>, keys: set<string>)
    ensures var reps := Representatives(rows, keys);
      && Keys(reps) == keys * Keys(rows)
      && Distinct(KeyList(reps))
      && InFirstOrder(rows, reps)
  {
    hide InFirstOrder;
    if rows == [] {
      assert InFirstOrder(rows, []) by { NoRows(); }
    } else {
      var head, tail := rows[0], rows[1..];
      var rest := keys - {head.key};
      if head.key !in keys { assert rest == keys; }
      RepresentativesFirst(tail, rest);
      var t := Representatives(tail, rest);
      assert rows == [head] + tail;
      assert Keys(rows) == {head.key} + Keys(tail);
      ShiftOrder(rows, t);
      if head.key in keys {
        PrependRow(head, t);
        PrependOrder(rows, t);
      }
    }
  }

  lemma NoRows()
    ensures InFirstOrder([], [])
  {
  }

  lemma FirstIndexTail(rows: seq<Row>, k: string)
    requires rows != [] && k in Keys(rows[1..]) && rows[0].key != k
    ensures k in Keys(rows) && FirstIndex(rows, k) == 1 + FirstIndex(rows[1..], k)
  {
    assert rows == [rows[0]] + rows[1..];
  }

  lemma ShiftOrder(rows: seq<Row>, t: seq<Row>)
    requires rows != [] && InFirstOrder(rows[1..], t) && rows[0].key !in Keys(t)
    ensures InFirstOrder(rows, t)
  {
    hide FirstIndex;
    forall i | 0 <= i < |t|
      ensures t[i].key in Keys(rows) && t[i].key in Keys(rows[1..])
      ensures FirstIndex(rows, t[i].key) == 1 + FirstIndex(rows[1..], t[i].key)
    {
      assert t[i].key in Keys(t);
      FirstIndexTail(rows, t[i].key);
    }
  }

  lemma PrependOrder(rows: seq<Row>, t: seq<Row>)
    requires rows != [] && InFirstOrder(rows, t) && rows[0].key !in Keys(t)
    ensures InFirstOrder(rows, [rows[0]] + t)
  {
    hide FirstIndex;
    var reps := [rows[0]] + t;
    assert rows[0].key in Keys(rows) && FirstIndex(rows, rows[0].key) == 0;
    forall i | 0 <= i < |t| ensures FirstIndex(rows, t[i].key) > 0 { assert t[i].key in Keys(t); }
  }

  lemma PrependRow(head: Row, t: seq<Row>)
    requires head.key !in Keys(t) && Distinct(KeyList(t))
    ensures Keys([head] + t) == {head.key} + Keys(t)
    ensures Distinct(KeyList([head] + t))
  {
    var list := KeyList([head] + t);
    assert list == [head.key] + KeyList(t);
    forall j | 0 < j < |list| ensures list[j] != head.key { assert t[j - 1].key in Keys(t); }
  }
}
