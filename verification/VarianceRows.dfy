/** The rows of the variance table in whole numbers. */
module VarianceRows {
  import opened Numerals
  import opened Rounding
  import opened Decimals
  import opened Wrappers
  import opened VarianceArithmetic
  import opened VarianceReport
  import opened Sorting
  import opened VarianceFrame

  /** 10^m divides every value and limit in play, and a hundredth. */
  predicate CommonUnit(current: map<string, Dec>, previous: map<string, Dec>, th: Thresholds, m: int) {
    && m <= -2 && m <= th.amount.exp && m <= th.percent.exp
    && (forall k :: k in current ==> m <= current[k].exp)
    && (forall k :: k in previous ==> m <= previous[k].exp)
  }

  /** The number of units of 10^m in the value of k, zero when there is none. */
  function Units(values: map<string, Dec>, k: string, m: int): int
    requires k in values ==> m <= values[k].exp
  {
    if k in values then values[k].coef * Pow10(values[k].exp - m) else 0
  }

  /** Row k in whole units of 10^m: its values; its displayed difference; its displayed percentage, over a base
      that is not zero; and its flag. */
  ghost predicate RowIsRight(
    ambient: Context, row: Row, k: string, current: map<string, Dec>, previous: map<string, Dec>, th: Thresholds, m: int)
    requires CommonUnit(current, previous, th, m)
  {
    var base := Units(previous, k, m);
    var change := Units(current, k, m) - base;
    && row.metric == k
    && row.current == (if k in current then Some(current[k]) else None)
    && row.previous == (if k in previous then Some(previous[k]) else None)
    && row.amountVariance.exp == -2 && Nearest(row.amountVariance.coef, change, Pow10(-2 - m))
    && (base == 0 ==> row.percentage == if k in current then Some(Dec(0, 0)) else None)
    && (base != 0 && Lossless(ambient, previous[k]) ==>
          && row.percentage.Some? && row.percentage.value.exp == -2
          && Nearest(row.percentage.value.coef, 10000 * change, Abs(base)))
    && (ChangeKept(ambient, k, current, previous) && (base != 0 && change != 0 ==> Lossless(ambient, previous[k])) ==>
          (row.flag <==>
            || (th.amount.coef > 0 && th.amount.coef * Pow10(th.amount.exp - m) <= Abs(change))
            || (if base != 0 then th.percent.coef * Pow10(th.percent.exp - m) * Abs(base) <= 100 * Abs(change) * Pow10(-m)
                else k in current && th.percent.coef == 0)))
  }

  /** abs() keeps the exact difference. */
  predicate ChangeKept(ambient: Context, k: string, current: map<string, Dec>, previous: map<string, Dec>) {
    var c := if k in current then current[k] else Dec(0, 0);
    var p := if k in previous then previous[k] else Dec(0, 0);
    Lossless(ambient, Difference(c, p))
  }

  lemma BaseUnits(values: map<string, Dec>, k: string, m: int)
    requires m <= 0 && (k in values ==> m <= values[k].exp)
    ensures Units(values, k, m) == At(OrZero(Lookup(values, k)), m)
    ensures Units(values, k, m) != 0 <==> k in values && values[k].coef != 0
    ensures HasBase(Lookup(values, k)) <==> k in values && values[k].coef != 0
  {
    if k in values && values[k].coef != 0 { NonZeroAt(values[k], m); }
  }

  lemma DifferenceAt(l: Dec, r: Dec, m: int)
    requires m <= l.exp && m <= r.exp
    ensures At(Difference(l, r), m) == At(l, m) - At(r, m)
  {
    var u := Min(l.exp, r.exp);
    AtFiner(l, u, u - m);
    AtFiner(r, u, u - m);
    MulDistribute(At(l, u), At(r, u), Pow10(u - m));
  }

  lemma RoundedOnceAt(v: Dec, p: Dec, m: int)
    requires p.coef != 0 && m <= v.exp && m <= p.exp
    ensures At(p, m) != 0
    ensures Nearest(RoundedOnce(v, p).coef, 10000 * At(v, m), Abs(At(p, m)))
  {
    var u := Min(v.exp, p.exp);
    var k := u - m;
    NonZeroAt(p, m);
    NonZeroAt(p, u);
    AtFiner(v, u, k);
    AtFiner(p, u, k);
    AbsMul(At(p, u), Pow10(k));
    MulSwap(10000, At(v, u), Pow10(k));
    MulSwap(10000 * At(v, u), Abs(At(p, u)), Pow10(k));
    MulSwap(10000 * At(v, u), Pow10(k), Abs(At(p, u)));
    HalfEvenSameRatio(10000 * At(v, u), Abs(At(p, u)), 10000 * At(v, m), Abs(At(p, m)));
  }

  lemma ReachesInUnits(x: nat, y: nat, limit: Dec, m: int)
    requires m <= 0 && m <= limit.exp
    ensures Reaches(x, y, limit) <==> limit.coef * Pow10(limit.exp - m) * y <= 100 * x * Pow10(-m)
  {
    var up, down := Max(limit.exp, 0), Max(-limit.exp, 0);
    var k := -m - down;
    Pow10Add(up, k);
    Pow10Add(down, k);
    var l, r := limit.coef * y * Pow10(up), 100 * x * Pow10(down);
    MulSwap(limit.coef, Pow10(limit.exp - m), y);
    MulSwap(limit.coef * y, Pow10(up), Pow10(k));
    MulSwap(100 * x, Pow10(down), Pow10(k));
    if l <= r { MulMono(l, r, Pow10(k)); } else { MulStrict(r, l, Pow10(k)); }
  }

  lemma FlagInUnits(v: Dec, p: Dec, limit: Dec, m: int)
    requires p.coef != 0 && m <= v.exp && m <= p.exp && m <= limit.exp && m <= 0
    ensures PercentReached(v, p, limit)
       <==> limit.coef * Pow10(limit.exp - m) * Abs(At(p, m)) <= 100 * Abs(At(v, m)) * Pow10(-m)
  {
    hide Reaches, At, Pow10;
    MagnitudeAt(v, m);
    MagnitudeAt(p, m);
    ReachesAt(Magnitude(v), Magnitude(p), limit, m);
    ReachesInUnits(Abs(At(v, m)), Abs(At(p, m)), limit, m);
  }

  /** Row by row, without the specification functions of the table. */
  lemma RowMeans(ambient: Context, k: string, current: map<string, Dec>, previous: map<string, Dec>, th: Thresholds, m: int)
    requires th.percent.coef >= 0 && CommonUnit(current, previous, th, m)
    ensures RowIsRight(ambient, RowOf(ambient, k, Lookup(current, k), Lookup(previous, k), th), k, current, previous, th, m)
  {
    hide Lossless, RowOf, Flagged, ShouldFlag, At, Hundredths, RoundedOnce, Nearest, PercentReached, LessEq, Difference;
    var c, p := Lookup(current, k), Lookup(previous, k);
    var row := RowOf(ambient, k, c, p, th);
    var change := Difference(OrZero(c), OrZero(p));
    BaseUnits(current, k, m);
    BaseUnits(previous, k, m);
    ChangeUnits(OrZero(c), OrZero(p), m);
    RowDifference(ambient, k, c, p, th, m);
    if HasBase(p) {
      RoundedOnceAt(change, p.value, m);
      FlagInUnits(change, p.value, th.percent, m);
    }
    if HasBase(p) ==> Lossless(ambient, p.value) { RowShows(ambient, k, c, p, th); }
    if OperandsKept(ambient, c, p) { KeptFlag(ambient, k, c, p, th, m); }
  }

  lemma ChangeUnits(c: Dec, p: Dec, m: int)
    requires m <= c.exp && m <= p.exp
    ensures Difference(c, p).exp >= m
    ensures At(Difference(c, p), m) == At(c, m) - At(p, m)
    ensures Difference(c, p).coef == 0 <==> At(Difference(c, p), m) == 0
  {
    DifferenceAt(c, p, m);
    if Difference(c, p).coef != 0 { NonZeroAt(Difference(c, p), m); }
  }

  lemma RowDifference(ambient: Context, k: string, c: Option<Dec>, p: Option<Dec>, th: Thresholds, m: int)
    requires m <= -2 && m <= OrZero(c).exp && m <= OrZero(p).exp
    ensures var row := RowOf(ambient, k, c, p, th);
      var change := Difference(OrZero(c), OrZero(p));
      && row.metric == k && row.current == c && row.previous == p
      && change.exp >= m
      && row.amountVariance.exp == -2 && Nearest(row.amountVariance.coef, At(change, m), Pow10(-2 - m))
  {
    hide Flagged, PercentageOf, Lossless;
    HundredthsAt(Difference(OrZero(c), OrZero(p)), m);
  }

  lemma KeptFlag(ambient: Context, k: string, c: Option<Dec>, p: Option<Dec>, th: Thresholds, m: int)
    requires th.percent.coef >= 0 && OperandsKept(ambient, c, p)
    requires m <= OrZero(c).exp && m <= OrZero(p).exp && m <= th.amount.exp
    ensures var change := Difference(OrZero(c), OrZero(p));
      && change.exp >= m
      && (RowOf(ambient, k, c, p, th).flag <==>
           || (th.amount.coef > 0 && th.amount.coef * Pow10(th.amount.exp - m) <= Abs(At(change, m)))
           || (if HasBase(p) then PercentReached(change, p.value, th.percent) else c.Some? && th.percent.coef == 0))
  {
    hide Flagged, PercentReached, OperandsKept, LessEq, At, Pow10, Difference;
    var change := Difference(OrZero(c), OrZero(p));
    ChangeUnits(OrZero(c), OrZero(p), m);
    FlagExactWhenKept(ambient, c, p, th);
    AmountInUnits(th.amount, change, m);
  }

  lemma AmountInUnits(limit: Dec, v: Dec, m: int)
    requires m <= limit.exp && m <= v.exp
    ensures LessEq(limit, Magnitude(v)) <==> limit.coef * Pow10(limit.exp - m) <= Abs(At(v, m))
  {
    MagnitudeAt(v, m);
    CompareAt(limit, Magnitude(v), m);
  }

  lemma RowAt(
    ambient: Context, keys: seq<string>, current: map<string, Dec>, previous: map<string, Dec>, th: Thresholds, m: int, i: nat)
    requires th.percent.coef >= 0 && CommonUnit(current, previous, th, m) && i < |keys|
    ensures var rows := TableOf(ambient, keys, current, previous, th);
      && |rows| == |keys| && rows[i].metric == keys[i]
      && RowIsRight(ambient, rows[i], keys[i], current, previous, th, m)
  {
    hide RowIsRight, TableOf, Lookup, CommonUnit, Flagged, PercentageOf, QuantizeForReport, VarianceOf;
    TableRows(ambient, keys, current, previous, th);
    RowMeans(ambient, keys[i], current, previous, th, m);
  }

  /** The whole table: one row per metric of either side, in strictly ascending order, each of them right. */
  lemma TableMeans(ambient: Context, current: map<string, Dec>, previous: map<string, Dec>, th: Thresholds, m: int)
    requires th.percent.coef >= 0 && CommonUnit(current, previous, th, m)
    ensures var rows := TableOf(ambient, SortedKeys(current.Keys + previous.Keys), current, previous, th);
      && (set i | 0 <= i < |rows| :: rows[i].metric) == current.Keys + previous.Keys
      && (forall i, j :: 0 <= i < j < |rows| ==> TextLe(rows[i].metric, rows[j].metric) && rows[i].metric != rows[j].metric)
      && (forall i :: 0 <= i < |rows| ==> RowIsRight(ambient, rows[i], rows[i].metric, current, previous, th, m))
  {
    hide RowIsRight, TableOf, CommonUnit, TextLe, RowOf;
    var keys := SortedKeys(current.Keys + previous.Keys);
    var rows := TableOf(ambient, keys, current, previous, th);
    TableRows(ambient, keys, current, previous, th);
    forall i | 0 <= i < |rows|
      ensures rows[i].metric == keys[i] && RowIsRight(ambient, rows[i], keys[i], current, previous, th, m)
    {
      RowAt(ambient, keys, current, previous, th, m, i);
    }
    SameMembers(rows, keys, current.Keys + previous.Keys);
  }

  lemma SameMembers(rows: seq<Row>, keys: seq<string>, s: set<string>)
    requires |rows| == |keys| && forall i :: 0 <= i < |rows| ==> rows[i].metric == keys[i]
    requires forall k :: k in keys <==> k in s
    ensures (set i | 0 <= i < |rows| :: rows[i].metric) == s
  {
    forall k | k in s ensures k in (set i | 0 <= i < |rows| :: rows[i].metric) {
      var i :| 0 <= i < |keys| && keys[i] == k;
      assert rows[i].metric == k;
    }
    forall i | 0 <= i < |rows| ensures rows[i].metric in s { assert keys[i] in keys; }
  }
}
