/** A bounded window over the latest HTTP requests, with exact integer statistics. */
module ReliabilityWindow {
  import opened Wrappers
  import opened Sorting
  import opened Numerals

  datatype Sample = Sample(status: int, duration: int)

  datatype Measurements = Measurements(errorBps: nat, p95: int)

  const MAX_CAPACITY := 1_000_000
  const MAX_DURATION := 86_400_000

  predicate ValidCapacity(capacity: int) { 1 <= capacity <= MAX_CAPACITY }

  predicate ValidSample(s: Sample) { 100 <= s.status <= 599 && 0 <= s.duration <= MAX_DURATION }

  function LastOf<T>(s: seq<T>, n: nat): seq<T> { if |s| <= n then s else s[|s| - n..] }

  /** The accepted samples of a run of record calls, in order. */
  function AcceptedOf(calls: seq<Sample>): seq<Sample> {
    if calls == [] then []
    else
      var front, last := AcceptedOf(calls[..|calls| - 1]), calls[|calls| - 1];
      if ValidSample(last) then front + [last] else front
  }

  predicate IntLe(a: int, b: int) { a <= b }

  lemma IntOrder()
    ensures TotalOrder(IntLe)
  {
  }

  function Durations(samples: seq<Sample>): seq<int> { seq(|samples|, i requires 0 <= i < |samples| => samples[i].duration) }

  function Errors(samples: seq<Sample>): nat {
    if samples == [] then 0
    else Errors(samples[..|samples| - 1]) + if samples[|samples| - 1].status >= 500 then 1 else 0
  }

  /** How many entries are at most v. */
  function CountLe(s: seq<int>, v: int): nat {
    if s == [] then 0 else CountLe(s[..|s| - 1], v) + if s[|s| - 1] <= v then 1 else 0
  }

  function PercentileIndex(n: nat): (k: nat)
    requires n > 0
    ensures k < n
    ensures 100 * k < 95 * n <= 100 * (k + 1)
  {
    (95 * n + 99) / 100 - 1
  }

  function Percentile(durations: seq<int>): int
    requires durations != []
  {
    SortedLength(durations);
    Sorted(IntLe, durations)[PercentileIndex(|durations|)]
  }

  lemma SortedLength(s: seq<int>)
    ensures |Sorted(IntLe, s)| == |s|
  {
    IntOrder();
    SortedSorts(IntLe, s);
  }

  // ----- counting

  lemma LastFound(s: seq<int>, t: seq<int>) returns (i: nat)
    requires s != [] && multiset(s) == multiset(t)
    ensures i < |t| && t[i] == s[|s| - 1]
    ensures multiset(s[..|s| - 1]) == multiset(t[..i] + t[i + 1..])
  {
    var n := |s| - 1;
    assert s[n] in multiset(t);
    i :| 0 <= i < |t| && t[i] == s[n];
    assert s == s[..n] + [s[n]];
    assert multiset(s) == multiset(s[..n]) + multiset{s[n]};
    assert t == t[..i] + [t[i]] + t[i + 1..];
    assert multiset(t) == multiset(t[..i]) + multiset{t[i]} + multiset(t[i + 1..]);
    assert multiset(s[..n]) == multiset(s) - multiset{s[n]};
    assert multiset(t[..i] + t[i + 1..]) == multiset(t[..i]) + multiset(t[i + 1..]) == multiset(t) - multiset{t[i]};
  }

  lemma {:induction false} CountMultiset(s: seq<int>, t: seq<int>, v: int)
    requires multiset(s) == multiset(t)
    ensures CountLe(s, v) == CountLe(t, v)
  {
    if s == [] {
      assert t == [] by { assert |multiset(t)| == |t|; }
    } else {
      var i := LastFound(s, t);
      CountMultiset(s[..|s| - 1], t[..i] + t[i + 1..], v);
      CountRemove(t, i, v);
    }
  }

  lemma {:induction false} CountRemove(t: seq<int>, i: nat, v: int)
    requires i < |t|
    ensures CountLe(t, v) == CountLe(t[..i] + t[i + 1..], v) + if t[i] <= v then 1 else 0
  {
    var n := |t| - 1;
    var t' := t[..i] + t[i + 1..];
    if i == n {
      assert t' == t[..n];
    } else {
      assert t'[..|t'| - 1] == t[..n][..i] + t[..n][i + 1..];
      CountRemove(t[..n], i, v);
    }
  }

  /** In an ordered sequence the entries up to position k, and only equal ones after, are at most s[k]. */
  lemma {:induction false} CountOrdered(s: seq<int>, k: nat, v: int)
    requires Ordered(IntLe, s) && k < |s|
    ensures s[k] <= v ==> CountLe(s, v) >= k + 1
    ensures v < s[k] ==> CountLe(s, v) <= k
  {
    var n := |s| - 1;
    assert IntLe(s[k], s[n]) || k == n;
    if k < n {
      CountOrdered(s[..n], k, v);
    } else if n > 0 {
      assert IntLe(s[n - 1], s[n]);
      CountOrdered(s[..n], n - 1, v);
      CountBound(s[..n], v);
    }
  }

  lemma {:induction false} CountBound(s: seq<int>, v: int)
    ensures CountLe(s, v) <= |s|
  {
    if s != [] { CountBound(s[..|s| - 1], v); }
  }

  lemma CountSorted(s: seq<int>, k: nat, v: int)
    requires k < |s|
    ensures |Sorted(IntLe, s)| == |s|
    ensures Sorted(IntLe, s)[k] <= v <==> CountLe(s, v) >= k + 1
  {
    IntOrder();
    SortedSorts(IntLe, s);
    CountMultiset(s, Sorted(IntLe, s), v);
    CountOrdered(Sorted(IntLe, s), k, v);
  }

  // ----- the window over a run

  /** The window after one more sample. */
  function Slide(samples: seq<Sample>, capacity: nat, s: Sample): seq<Sample> { LastOf(samples + [s], capacity) }

  /** The window after a run of record calls, refused calls included. */
  function WindowAfter(capacity: nat, calls: seq<Sample>): seq<Sample> {
    if calls == [] then []
    else
      var front, last := WindowAfter(capacity, calls[..|calls| - 1]), calls[|calls| - 1];
      if ValidSample(last) then Slide(front, capacity, last) else front
  }

  /** After any run the window is the latest accepted samples, as many as fit. */
  lemma {:induction false} WindowIsLatestAccepted(capacity: nat, calls: seq<Sample>)
    requires ValidCapacity(capacity)
    ensures WindowAfter(capacity, calls) == LastOf(AcceptedOf(calls), capacity)
  {
    hide ValidSample;
    if calls != [] {
      var front, last := calls[..|calls| - 1], calls[|calls| - 1];
      WindowIsLatestAccepted(capacity, front);
      if ValidSample(last) { LastOfLast(AcceptedOf(front), capacity, last); }
    }
  }

  /** What one more call adds to the accepted samples. */
  lemma AcceptedStep(calls: seq<Sample>, s: Sample)
    ensures AcceptedOf([]) == []
    ensures AcceptedOf(calls + [s]) == AcceptedOf(calls)
      + if 100 <= s.status <= 599 && 0 <= s.duration <= 86_400_000 then [s] else []
  {
    assert (calls + [s])[..|calls|] == calls;
  }

  /** After any run, entry by entry: the window holds as many accepted samples as fit, and they are the latest. */
  lemma WindowEntries(capacity: nat, calls: seq<Sample>)
    requires 1 <= capacity <= 1_000_000
    ensures var all, w := AcceptedOf(calls), WindowAfter(capacity, calls);
      && |w| == (if |all| < capacity then |all| else capacity)
      && forall i :: 0 <= i < |w| ==> w[i] == all[|all| - |w| + i]
  {
    hide WindowAfter, AcceptedOf, LastOf;
    WindowIsLatestAccepted(capacity, calls);
    LastEntries(AcceptedOf(calls), capacity);
  }

  lemma LastEntries<T>(s: seq<T>, n: nat)
    ensures var w := LastOf(s, n);
      && |w| == (if |s| < n then |s| else n)
      && forall i :: 0 <= i < |w| ==> w[i] == s[|s| - |w| + i]
  {
  }

  lemma LastOfLast<T>(all: seq<T>, n: nat, x: T)
    requires n >= 1
    ensures LastOf(LastOf(all, n) + [x], n) == LastOf(all + [x], n)
  {
    if |all| >= n {
      var d := |all| - n;
      assert (all[d..] + [x])[1..] == (all + [x])[d + 1..];
    }
  }

  // ----- the percentile

  /** The samples, by position, that last no longer than v. */
  function NoLonger(samples: seq<Sample>, v: int): set<nat> { set i | 0 <= i < |samples| && samples[i].duration <= v }

  /** The samples, by position, with a server error. */
  function Failed(samples: seq<Sample>): set<nat> { set i | 0 <= i < |samples| && samples[i].status >= 500 }

  function AtMost(s: seq<int>, v: int): set<nat> { set i | 0 <= i < |s| && s[i] <= v }

  lemma {:induction false} CountLeMeans(s: seq<int>, v: int)
    ensures CountLe(s, v) == |AtMost(s, v)|
  {
    if s != [] {
      var n := |s| - 1;
      CountLeMeans(s[..n], v);
      assert AtMost(s, v) == AtMost(s[..n], v) + (if s[n] <= v then {n} else {});
    }
  }

  lemma {:induction false} ErrorsMean(samples: seq<Sample>)
    ensures Errors(samples) == |Failed(samples)|
  {
    if samples != [] {
      var n := |samples| - 1;
      ErrorsMean(samples[..n]);
      var front, all := Failed(samples[..n]), Failed(samples);
      assert forall i :: 0 <= i < n ==> samples[..n][i] == samples[i];
      assert all == front + (if samples[n].status >= 500 then {n} else {});
    }
  }

  /** v is the least duration that at least 95 percent of the durations do not exceed. */
  ghost predicate IsP95(durations: seq<int>, v: int) {
    && v in durations
    && 100 * CountLe(durations, v) >= 95 * |durations|
    && forall w: int :: w < v ==> 100 * CountLe(durations, w) < 95 * |durations|
  }

  lemma PercentileIsP95(durations: seq<int>)
    requires durations != []
    ensures IsP95(durations, Percentile(durations))
  {
    var k := PercentileIndex(|durations|);
    var v := Percentile(durations);
    CountSorted(durations, k, v);
    assert v in durations by {
      IntOrder();
      SortedSorts(IntLe, durations);
      assert v in multiset(Sorted(IntLe, durations));
    }
    forall w: int | w < v ensures 100 * CountLe(durations, w) < 95 * |durations| {
      CountSorted(durations, k, w);
    }
  }

  lemma P95Unique(s: seq<int>, t: seq<int>, v: int, w: int)
    requires multiset(s) == multiset(t) && IsP95(s, v) && IsP95(t, w)
    ensures v == w
  {
    assert |s| == |multiset(s)| == |multiset(t)| == |t|;
    CountMultiset(s, t, v);
    CountMultiset(s, t, w);
  }

  // ----- one more sample in a full window

  lemma {:induction false} DurationCount(samples: seq<Sample>, s: Sample, v: int)
    requires samples != []
    ensures CountLe(Durations(samples[1..] + [s]), v)
         == CountLe(Durations(samples), v) - (if samples[0].duration <= v then 1 else 0) + (if s.duration <= v then 1 else 0)
  {
    var d, e := Durations(samples), Durations(samples[1..] + [s]);
    assert e[..|e| - 1] == d[..0] + d[1..];
    CountRemove(d, 0, v);
  }

  /** When a sample enters a full window, every order statistic moves by at most one rank. */
  lemma RankStability(samples: seq<Sample>, s: Sample, k: nat)
    requires k < |samples|
    ensures var d, e := Durations(samples), Durations(Slide(samples, |samples|, s));
      && |Sorted(IntLe, d)| == |Sorted(IntLe, e)| == |samples|
      && (k > 0 ==> Sorted(IntLe, d)[k - 1] <= Sorted(IntLe, e)[k])
      && (k + 1 < |samples| ==> Sorted(IntLe, e)[k] <= Sorted(IntLe, d)[k + 1])
  {
    assert Slide(samples, |samples|, s) == samples[1..] + [s];
    var d, e := Durations(samples), Durations(samples[1..] + [s]);
    SortedLength(d);
    SortedLength(e);
    if k > 0 {
      var v := Sorted(IntLe, e)[k];
      DurationCount(samples, s, v);
      CountSorted(e, k, v);
      CountSorted(d, k - 1, v);
    }
    if k + 1 < |samples| {
      var v := Sorted(IntLe, d)[k + 1];
      DurationCount(samples, s, v);
      CountSorted(d, k + 1, v);
      CountSorted(e, k, v);
    }
  }

  /** In particular the 95th percentile stays between the old samples one rank below and one rank above it. */
  lemma PercentileStability(samples: seq<Sample>, s: Sample)
    requires samples != []
    ensures var d, e := Durations(samples), Durations(Slide(samples, |samples|, s));
      var k := PercentileIndex(|samples|);
      && |Sorted(IntLe, d)| == |e| == |samples|
      && (k > 0 ==> Sorted(IntLe, d)[k - 1] <= Percentile(e))
      && (k + 1 < |samples| ==> Percentile(e) <= Sorted(IntLe, d)[k + 1])
  {
    RankStability(samples, s, PercentileIndex(|samples|));
    SortedLength(Durations(Slide(samples, |samples|, s)));
  }

  lemma {:induction false} ErrorsDropFirst(samples: seq<Sample>)
    requires samples != []
    ensures Errors(samples) == Errors(samples[1..]) + if samples[0].status >= 500 then 1 else 0
  {
    var n := |samples| - 1;
    if n > 0 {
      ErrorsDropFirst(samples[..n]);
      assert samples[..n][1..] == samples[1..][..n - 1];
    }
  }

  function ErrorBps(samples: seq<Sample>): nat
    requires samples != []
  {
    BasisPoints(Errors(samples), |samples|)
  }

  function BasisPoints(part: nat, whole: nat): nat
    requires whole > 0
  {
    part * 10_000 / whole
  }

  /** The share of one sample among n, rounded up to a whole basis point. */
  function OneErrorBps(n: nat): nat
    requires n > 0
  {
    (10_000 + n - 1) / n
  }

  lemma QuotientStep(e: nat, n: nat)
    requires n > 0
    ensures 0 <= (e + 1) * 10_000 / n - e * 10_000 / n <= OneErrorBps(n)
  {
    var a, b, c := e * 10_000 / n, (e + 1) * 10_000 / n, OneErrorBps(n);
    FloorBounds(e * 10_000, n);
    FloorBounds((e + 1) * 10_000, n);
    FloorBounds(10_000 + n - 1, n);
    if b < a { Above(n, a, b); }
    assert (a + c) * n == a * n + c * n;
    if b > a + c { Above(n, b, a + c); }
  }

  lemma FloorBounds(x: nat, n: nat)
    requires n > 0
    ensures x / n * n <= x < x / n * n + n
  {
  }

  lemma Above(n: nat, x: int, y: int)
    requires x > y
    ensures x * n >= (y + 1) * n == y * n + n
  {
    MulDistribute(y, 1, n);
    MulMono(y + 1, x, n);
  }

  /** The error rate is the share of samples with a status from 500 on, in whole basis points rounded down. */
  lemma ErrorRateMeans(samples: seq<Sample>)
    requires samples != []
    ensures var e := |Failed(samples)|;
      ErrorBps(samples) * |samples| <= 10_000 * e < (ErrorBps(samples) + 1) * |samples|
  {
    ErrorsMean(samples);
    FloorBounds(Errors(samples) * 10_000, |samples|);
    MulDistribute(ErrorBps(samples), 1, |samples|);
  }

  /** The measured percentile: at least 95 percent of the samples last no longer, and some sample lasts that long;
      any smaller duration covers fewer. */
  lemma PercentileMeans(samples: seq<Sample>, v: int)
    requires IsP95(Durations(samples), v)
    ensures exists i :: 0 <= i < |samples| && samples[i].duration == v
    ensures 100 * |NoLonger(samples, v)| >= 95 * |samples|
    ensures forall w: int :: w < v ==> 100 * |NoLonger(samples, w)| < 95 * |samples|
  {
    hide CountLe;
    var d := Durations(samples);
    assert v in d;
    var j :| 0 <= j < |d| && d[j] == v;
    assert samples[j].duration == v;
    forall w: int ensures CountLe(d, w) == |NoLonger(samples, w)| {
      CountLeMeans(d, w);
      assert AtMost(d, w) == NoLonger(samples, w);
    }
  }

  /** When a sample enters a full window, the error rate moves by at most 10000/capacity basis points, rounded up. */
  lemma ErrorRateStability(samples: seq<Sample>, s: Sample)
    requires samples != []
    ensures Slide(samples, |samples|, s) != []
    ensures var before, after := ErrorBps(samples), ErrorBps(Slide(samples, |samples|, s));
      && after <= before + OneErrorBps(|samples|)
      && before <= after + OneErrorBps(|samples|)
  {
    var next := samples[1..] + [s];
    assert Slide(samples, |samples|, s) == next;
    ErrorsDropFirst(samples);
    assert next[..|next| - 1] == samples[1..];
    var e, n := Errors(samples[1..]), |samples|;
    QuotientStep(e, n);
  }

  // ----- the window object

  class HttpReliabilityWindow {
    const capacity: nat
    var samples: seq<Sample>
    ghost var accepted: seq<Sample>

    ghost predicate Valid()
      reads this
    {
      && ValidCapacity(capacity)
      && samples == LastOf(accepted, capacity)
      && forall s :: s in samples ==> ValidSample(s)
    }

    constructor (capacity: nat)
      requires ValidCapacity(capacity)
      ensures Valid() && this.capacity == capacity && samples == [] && accepted == []
    {
      this.capacity := capacity;
      samples, accepted := [], [];
    }

    static method Create(capacity: int) returns (r: Option<HttpReliabilityWindow>)
      ensures r.Some? <==> 1 <= capacity <= 1_000_000
      ensures r.Some? ==> fresh(r.value) && r.value.Valid() && r.value.capacity == capacity && r.value.accepted == []
    {
      if capacity < 1 || capacity > MAX_CAPACITY { return None; }
      var window := new HttpReliabilityWindow(capacity);
      return Some(window);
    }

    /** A bad sample is refused and changes nothing; a full window forgets its oldest sample. */
    method Record(s: Sample) returns (ok: bool)
      requires Valid()
      modifies this`samples, this`accepted
      ensures Valid()
      ensures ok <==> 100 <= s.status <= 599 && 0 <= s.duration <= 86_400_000
      ensures samples ==
        if !ok then old(samples)
        else if |old(samples)| < capacity then old(samples) + [s]
        else old(samples)[1..] + [s]
      ensures accepted == if ok then old(accepted) + [s] else old(accepted)
    {
      if s.status < 100 || s.status > 599 || s.duration < 0 || s.duration > MAX_DURATION { return false; }
      if |samples| == capacity { samples := samples[1..]; }
      samples := samples + [s];
      accepted := accepted + [s];
      return true;
    }

    method Measure() returns (r: Option<Measurements>)
      requires Valid()
      ensures r.None? <==> samples == []
      ensures r.Some? ==> r.value.errorBps == ErrorBps(samples)
      ensures r.Some? ==> IsP95(Durations(samples), r.value.p95)
      ensures r.Some? ==>
        var e := |Failed(samples)|;
        r.value.errorBps * |samples| <= 10_000 * e < (r.value.errorBps + 1) * |samples|
      ensures r.Some? ==>
        var v := r.value.p95;
        && (exists i :: 0 <= i < |samples| && samples[i].duration == v)
        && 100 * |NoLonger(samples, v)| >= 95 * |samples|
        && forall w: int :: w < v ==> 100 * |NoLonger(samples, w)| < 95 * |samples|
    {
      hide IsP95, Percentile, ValidSample, BasisPoints;
      if samples == [] { return None; }
      var errors := 0;
      for i := 0 to |samples|
        invariant errors == Errors(samples[..i])
      {
        assert samples[..i + 1][..i] == samples[..i];
        if samples[i].status >= 500 { errors := errors + 1; }
      }
      assert samples[..|samples|] == samples;
      PercentileIsP95(Durations(samples));
      PercentileMeans(samples, Percentile(Durations(samples)));
      ErrorRateMeans(samples);
      return Some(Measurements(BasisPoints(errors, |samples|), Percentile(Durations(samples))));
    }
  }
}
