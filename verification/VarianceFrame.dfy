/** The variance table: one row per metric, and the exact meaning of its threshold flag. */
module VarianceFrame {
  import opened Numerals
  import opened Rounding
  import opened Decimals
  import opened Wrappers
  import opened VarianceArithmetic
  import opened VarianceReport
  import opened Sorting

  datatype Thresholds = Thresholds(amount: Dec, percent: Dec)

  datatype Row = Row(
    metric: string,
    previous: Option<Dec>,
    current: Option<Dec>,
    amountVariance: Dec,
    percentage: Option<Dec>,
    flag: bool)

  const ZERO := Dec(0, 0)

  function Lookup(metrics: map<string, Dec>, key: string): Option<Dec> {
    if key in metrics then Some(metrics[key]) else None
  }

  function OrZero(v: Option<Dec>): Dec { if v.Some? then v.value else ZERO }

  predicate HasBase(previous: Option<Dec>) { previous.Some? && previous.value.coef != 0 }

  function VarianceOf(ambient: Context, current: Option<Dec>, previous: Option<Dec>): Dec {
    ExactSubtract(ambient, OrZero(current), OrZero(previous))
  }

  function PercentageOf(ambient: Context, current: Option<Dec>, previous: Option<Dec>): Option<Dec> {
    if !HasBase(previous) then (if current.None? then None else Some(ZERO))
    else PercentageForReport(ambient, VarianceOf(ambient, current, previous), previous.value)
  }

  predicate Flagged(ambient: Context, current: Option<Dec>, previous: Option<Dec>, th: Thresholds) {
    var variance := VarianceOf(ambient, current, previous);
    var percentMet :=
      if !HasBase(previous) then current.Some? && LessEq(th.percent, AbsIn(ambient, ZERO))
      else PercentThresholdMet(ambient, variance, previous.value, th.percent);
    (th.amount.coef > 0 && LessEq(th.amount, AbsIn(ambient, variance))) || percentMet
  }

  function RowOf(ambient: Context, metric: string, current: Option<Dec>, previous: Option<Dec>, th: Thresholds): Row {
    Row(metric, previous, current,
        QuantizeForReport(VarianceOf(ambient, current, previous)).value,
        PercentageOf(ambient, current, previous),
        Flagged(ambient, current, previous, th))
  }

  /** The rows for a list of metrics. */
  function TableOf(
    ambient: Context, metrics: seq<string>, current: map<string, Dec>, previous: map<string, Dec>, th: Thresholds): seq<Row>
  {
    if metrics == [] then []
    else
      var n := |metrics| - 1;
      TableOf(ambient, metrics[..n], current, previous, th)
        + [RowOf(ambient, metrics[n], Lookup(current, metrics[n]), Lookup(previous, metrics[n]), th)]
  }

  method BuildFrame(ambient: Context, current: map<string, Dec>, previous: map<string, Dec>, th: Thresholds)
    returns (rows: seq<Row>)
    ensures rows == TableOf(ambient, SortedKeys(current.Keys + previous.Keys), current, previous, th)
  {
    hide RowOf, SortedKeys, Lookup;
    var metrics := SortedKeys(current.Keys + previous.Keys);
    rows := [];
    for n := 0 to |metrics|
      invariant rows == TableOf(ambient, metrics[..n], current, previous, th)
    {
      var metric := metrics[n];
      rows := rows + [RowOf(ambient, metric, Lookup(current, metric), Lookup(previous, metric), th)];
      assert metrics[..n + 1][..n] == metrics[..n];
    }
    assert metrics[..|metrics|] == metrics;
  }

  lemma {:induction false} TableRows(
    ambient: Context, metrics: seq<string>, current: map<string, Dec>, previous: map<string, Dec>, th: Thresholds)
    ensures var rows := TableOf(ambient, metrics, current, previous, th);
      && |rows| == |metrics|
      && forall i :: 0 <= i < |rows| ==>
        rows[i] == RowOf(ambient, metrics[i], Lookup(current, metrics[i]), Lookup(previous, metrics[i]), th)
  {
    hide RowOf;
    if metrics != [] {
      TableRows(ambient, metrics[..|metrics| - 1], current, previous, th);
    }
  }

  /** The table has exactly one row per metric of either side, in metric order;
      with kept operands its flags are the exact decisions. */
  lemma TableIsExact(ambient: Context, current: map<string, Dec>, previous: map<string, Dec>, th: Thresholds)
    requires th.percent.coef >= 0
    requires forall k :: k in current || k in previous ==> OperandsKept(ambient, Lookup(current, k), Lookup(previous, k))
    ensures var keys := SortedKeys(current.Keys + previous.Keys);
      var rows := TableOf(ambient, keys, current, previous, th);
      && |rows| == |keys|
      && forall i :: 0 <= i < |rows| ==>
        && rows[i].metric == keys[i]
        && rows[i].flag == ShouldFlag(Lookup(current, keys[i]), Lookup(previous, keys[i]), th)
  {
    var keys := SortedKeys(current.Keys + previous.Keys);
    TableRows(ambient, keys, current, previous, th);
    var rows := TableOf(ambient, keys, current, previous, th);
    forall i | 0 <= i < |rows|
      ensures rows[i].metric == keys[i]
      ensures rows[i].flag == ShouldFlag(Lookup(current, keys[i]), Lookup(previous, keys[i]), th)
    {
      assert keys[i] in keys;
      FlagExactWhenKept(ambient, Lookup(current, keys[i]), Lookup(previous, keys[i]), th);
    }
  }

  // ----- what the flag means

  /** The reference decision, in exact arithmetic. */
  predicate ShouldFlag(current: Option<Dec>, previous: Option<Dec>, th: Thresholds) {
    var variance := Difference(OrZero(current), OrZero(previous));
    || (th.amount.coef > 0 && LessEq(th.amount, Magnitude(variance)))
    || (if HasBase(previous) then PercentReached(variance, previous.value, th.percent)
        else current.Some? && th.percent.coef <= 0)
  }

  /** The ambient context leaves every abs() the row takes unchanged. */
  predicate OperandsKept(ambient: Context, current: Option<Dec>, previous: Option<Dec>) {
    var variance := Difference(OrZero(current), OrZero(previous));
    && Lossless(ambient, variance)
    && (HasBase(previous) ==> variance.coef == 0 || Lossless(ambient, previous.value))
  }

  lemma ZeroBase(ambient: Context, limit: Dec)
    ensures LessEq(limit, AbsIn(ambient, ZERO)) <==> limit.coef <= 0
  {
    AbsInValue(ambient, ZERO);
    var m := Min(limit.exp, AbsIn(ambient, ZERO).exp);
    CompareAt(limit, AbsIn(ambient, ZERO), m);
    if limit.coef > 0 {
      MulStrict(0, limit.coef, Pow10(limit.exp - m));
    } else {
      MulMono(limit.coef, 0, Pow10(limit.exp - m));
    }
  }

  lemma SameValueSameOrder(limit: Dec, a: Dec, b: Dec)
    requires SameValue(a, b)
    ensures LessEq(limit, a) <==> LessEq(limit, b)
  {
    var m := Min(limit.exp, Min(a.exp, b.exp));
    CompareAt(a, b, m);
    CompareAt(limit, a, m);
    CompareAt(limit, b, m);
  }

  lemma FlagExactWhenKept(ambient: Context, current: Option<Dec>, previous: Option<Dec>, th: Thresholds)
    requires th.percent.coef >= 0 && OperandsKept(ambient, current, previous)
    ensures Flagged(ambient, current, previous, th) == ShouldFlag(current, previous, th)
  {
    var variance := VarianceOf(ambient, current, previous);
    assert variance == Difference(OrZero(current), OrZero(previous));
    AbsInValue(ambient, variance);
    SameValueSameOrder(th.amount, AbsIn(ambient, variance), Magnitude(variance));
    ZeroBase(ambient, th.percent);
    if HasBase(previous) { PercentKept(ambient, variance, previous.value, th.percent); }
  }

  /** A percent limit out of reach both in exact arithmetic and after abs(). */
  lemma LimitOutOfReach(ambient: Context, v: Dec, previous: Dec) returns (limit: Dec)
    requires previous.coef != 0
    ensures limit.coef > 0
    ensures !PercentThresholdMet(ambient, v, previous, limit) && !PercentReached(v, previous, limit)
  {
    var m := Min(v.exp, previous.exp);
    LosslessAt(ambient, v, m);
    AbsInValue(ambient, previous);
    NonZeroAt(previous, m);
    NonZeroAt(AbsIn(ambient, previous), m);
    var x, x' := Abs(At(v, m)), Abs(At(AbsIn(ambient, v), m));
    limit := Dec(100 * (x + x') + 1, 0);
    ThresholdAt(ambient, v, previous, limit, m);
    BeyondReach(x, Abs(At(previous, m)), limit);
    BeyondReach(x', At(AbsIn(ambient, previous), m), limit);
  }

  lemma BeyondReach(x: nat, y: nat, limit: Dec)
    requires y > 0 && limit.exp == 0 && limit.coef > 100 * x
    ensures !Reaches(x, y, limit)
  {
    MulAtLeast(limit.coef, y);
  }

  /** Amounts that abs() changes can be told apart by an amount threshold alone. */
  lemma AmountMisjudged(ambient: Context, current: Option<Dec>, previous: Option<Dec>) returns (th: Thresholds)
    requires !Lossless(ambient, Difference(OrZero(current), OrZero(previous)))
    ensures th.amount.coef >= 0 && th.percent.coef >= 0
    ensures Flagged(ambient, current, previous, th) != ShouldFlag(current, previous, th)
  {
    var variance := VarianceOf(ambient, current, previous);
    var kept, exact := AbsIn(ambient, variance), Magnitude(variance);
    AbsInValue(ambient, variance);
    var limit := Dec(1, 0);
    if HasBase(previous) { limit := LimitOutOfReach(ambient, variance, previous.value); }
    ZeroBase(ambient, limit);
    th := Thresholds(if LessEq(kept, exact) then exact else kept, limit);
  }

  /** A base that abs() changes can be told apart by a percent limit alone. */
  lemma PercentMisjudged(ambient: Context, current: Option<Dec>, previous: Option<Dec>) returns (th: Thresholds)
    requires HasBase(previous) && !Lossless(ambient, previous.value)
    requires var variance := Difference(OrZero(current), OrZero(previous));
      variance.coef != 0 && Lossless(ambient, variance)
    ensures th.amount.coef >= 0 && th.percent.coef >= 0
    ensures Flagged(ambient, current, previous, th) != ShouldFlag(current, previous, th)
  {
    hide PercentThresholdMet, PercentReached, Lossless, AbsIn, LessEq, RatioKept;
    var variance := VarianceOf(ambient, current, previous);
    PercentTestExactIff(ambient, variance, previous.value);
    RatioOfKeptVariance(ambient, variance, previous.value);
    var limit: Dec :| limit.coef >= 0
      && PercentThresholdMet(ambient, variance, previous.value, limit) != PercentReached(variance, previous.value, limit);
    th := Thresholds(ZERO, limit);
  }

  /** For every row: the flag is the exact decision under all thresholds
      exactly when the ambient context keeps the operands of abs(). */
  lemma FlagExactIff(ambient: Context, current: Option<Dec>, previous: Option<Dec>)
    ensures (forall th: Thresholds | th.amount.coef >= 0 && th.percent.coef >= 0 ::
              Flagged(ambient, current, previous, th) == ShouldFlag(current, previous, th))
       <==> OperandsKept(ambient, current, previous)
  {
    hide Flagged, ShouldFlag, Lossless;
    if OperandsKept(ambient, current, previous) {
      forall th: Thresholds | th.amount.coef >= 0 && th.percent.coef >= 0
        ensures Flagged(ambient, current, previous, th) == ShouldFlag(current, previous, th)
      {
        FlagExactWhenKept(ambient, current, previous, th);
      }
    } else if !Lossless(ambient, Difference(OrZero(current), OrZero(previous))) {
      var th := AmountMisjudged(ambient, current, previous);
    } else {
      var th := PercentMisjudged(ambient, current, previous);
    }
  }

  /** The ambient context leaves the percentage of a row with a base what it is. */
  predicate RowRatioKept(ambient: Context, current: Option<Dec>, previous: Option<Dec>) {
    HasBase(previous) ==> RatioKept(ambient, Difference(OrZero(current), OrZero(previous)), previous.value)
  }

  lemma PercentOnly(ambient: Context, current: Option<Dec>, previous: Option<Dec>, th: Thresholds)
    requires th.amount.coef == 0 && th.percent.coef >= 0
    ensures !HasBase(previous) ==> Flagged(ambient, current, previous, th) == ShouldFlag(current, previous, th)
    ensures HasBase(previous) ==>
      var v := Difference(OrZero(current), OrZero(previous));
      && Flagged(ambient, current, previous, th) == PercentThresholdMet(ambient, v, previous.value, th.percent)
      && ShouldFlag(current, previous, th) == PercentReached(v, previous.value, th.percent)
  {
    hide PercentThresholdMet, PercentReached, LessEq;
    ZeroBase(ambient, th.percent);
  }

  /** With the amount test off, as it is by default: a row's flag is the exact decision under all percent limits
      exactly when abs() keeps the ratio of its variance to its base. */
  lemma PercentFlagExactIff(ambient: Context, current: Option<Dec>, previous: Option<Dec>)
    ensures (forall th: Thresholds | th.amount.coef == 0 && th.percent.coef >= 0 ::
              Flagged(ambient, current, previous, th) == ShouldFlag(current, previous, th))
       <==> RowRatioKept(ambient, current, previous)
  {
    hide Flagged, ShouldFlag, PercentThresholdMet, PercentReached, RatioKept;
    if HasBase(previous) {
      var v := Difference(OrZero(current), OrZero(previous));
      PercentTestExactIff(ambient, v, previous.value);
      if !RatioKept(ambient, v, previous.value) {
        var limit: Dec :| limit.coef >= 0
          && PercentThresholdMet(ambient, v, previous.value, limit) != PercentReached(v, previous.value, limit);
        PercentOnly(ambient, current, previous, Thresholds(ZERO, limit));
      }
    }
    if RowRatioKept(ambient, current, previous) {
      forall th: Thresholds | th.amount.coef == 0 && th.percent.coef >= 0
        ensures Flagged(ambient, current, previous, th) == ShouldFlag(current, previous, th)
      {
        PercentOnly(ambient, current, previous, th);
      }
    }
  }

  /** What a row shows: its two values, the nearest hundredth of their difference, and for a kept
      previous value the true percentage rounded once. */
  lemma RowShows(ambient: Context, metric: string, current: Option<Dec>, previous: Option<Dec>, th: Thresholds)
    requires HasBase(previous) ==> Lossless(ambient, previous.value)
    ensures var row := RowOf(ambient, metric, current, previous, th);
      var variance := Difference(OrZero(current), OrZero(previous));
      && row.metric == metric && row.current == current && row.previous == previous
      && row.amountVariance == Dec(Hundredths(variance), -2)
      && row.percentage ==
        if HasBase(previous) then Some(RoundedOnce(variance, previous.value))
        else if current.Some? then Some(ZERO) else None
  {
    hide Flagged, Hundredths, RoundedOnce, Lossless, QuantizeForReport, PercentageForReport;
    if HasBase(previous) {
      PercentageRoundsOnce(ambient, VarianceOf(ambient, current, previous), previous.value);
    }
  }

  // ----- amounts beyond the ambient precision

  /** 10^prec + 1 has one digit too many: abs() drops its last digit. */
  function TooWide(prec: Precision): Dec { Dec(Pow10(prec) + 1, 0) }

  lemma TooWideRounded(prec: Precision)
    ensures var kept := AbsIn(Context(prec, HalfEven), TooWide(prec));
      kept.exp >= 0 && At(kept, 0) == Pow10(prec)
  {
    hide RoundRatio, RoundTo, Pow10, Digits;
    TooWideDigits(prec);
    TenTimes(prec);
    RoundToLong(Context(prec, HalfEven), TooWide(prec));
    DropOne(Pow10(prec - 1));
  }

  lemma TenTimes(k: Precision)
    ensures Pow10(1) == 10 && Pow10(k) == Pow10(k - 1) * Pow10(1)
  {
  }

  lemma TooWideDigits(prec: Precision)
    ensures Digits(TooWide(prec)) == prec + 1
  {
    var c := Pow10(prec) + 1;
    DigitCountAtLeast(c, prec);
    assert Pow10(prec + 1) == 10 * Pow10(prec);
    DigitCountAtMost(c, prec + 1);
  }

  lemma DropOne(p: nat)
    ensures RoundRatio(HalfEven, false, 10 * p + 1, 10) == p
  {
  }

  /** In every ambient precision there is a variance equal to its amount threshold that goes unflagged. */
  lemma WideAmountMissed(prec: Precision)
    ensures var th := Thresholds(TooWide(prec), Dec(1, 0));
      && ShouldFlag(Some(TooWide(prec)), None, th)
      && !Flagged(Context(prec, HalfEven), Some(TooWide(prec)), None, th)
  {
    hide AbsIn, Lossless;
    var d, ambient := TooWide(prec), Context(prec, HalfEven);
    TooWideRounded(prec);
    ZeroBase(ambient, Dec(1, 0));
    assert Pow10(0) == 1;
    assert Difference(d, ZERO) == d;
    assert VarianceOf(ambient, Some(d), None) == d;
    CompareAt(d, AbsIn(ambient, d), 0);
  }

  const ONE := Dec(1, 0)

  /** One more than too wide, so that the variance over the base 1 is too wide. */
  function AboveOne(prec: Precision): Dec { Dec(Pow10(prec) + 2, 0) }

  lemma AboveOneVariance(prec: Precision)
    ensures Difference(AboveOne(prec), ONE) == TooWide(prec)
  {
    assert Pow10(0) == 1;
  }

  /** With the amount test off there is, in every ambient precision, a variance over the base 1
      that reaches its percent limit and goes unflagged. */
  lemma WidePercentMissed(prec: Precision)
    ensures var th := Thresholds(ZERO, Dec(100 * (Pow10(prec) + 1), 0));
      && ShouldFlag(Some(AboveOne(prec)), Some(ONE), th)
      && !Flagged(Context(prec, HalfEven), Some(AboveOne(prec)), Some(ONE), th)
  {
    hide AbsIn, PercentThresholdMet, PercentReached, Reaches, Flagged, ShouldFlag, Pow10;
    var ambient, v, limit := Context(prec, HalfEven), TooWide(prec), Dec(100 * (Pow10(prec) + 1), 0);
    AboveOneVariance(prec);
    PercentOnly(ambient, Some(AboveOne(prec)), Some(ONE), Thresholds(ZERO, limit));
    ThresholdAt(ambient, v, ONE, limit, 0);
    TooWideRounded(prec);
    OneKept(ambient);
    WholeAt(v);
    WholeAt(ONE);
    WholeLimit(Pow10(prec), limit.coef);
    WholeLimit(Pow10(prec) + 1, limit.coef);
  }

  lemma WholeAt(d: Dec)
    requires d.exp == 0
    ensures At(d, 0) == d.coef
  {
    assert Pow10(0) == 1;
  }

  lemma WholeLimit(x: nat, l: nat)
    ensures Reaches(x, 1, Dec(l, 0)) <==> l <= 100 * x
  {
    assert Pow10(0) == 1;
  }

  lemma OneKept(ambient: Context)
    ensures Lossless(ambient, ONE) && AbsIn(ambient, ONE) == ONE
  {
  }

  /** In every ambient context, whatever its rounding mode, some percent limit misjudges that variance. */
  lemma WidePercentMisjudged(ambient: Context) returns (th: Thresholds)
    ensures th.amount.coef == 0 && th.percent.coef >= 0
    ensures var current, previous := Some(AboveOne(ambient.prec)), Some(ONE);
      Flagged(ambient, current, previous, th) != ShouldFlag(current, previous, th)
  {
    hide Flagged, ShouldFlag, RatioKept, Lossless;
    var v := TooWide(ambient.prec);
    AboveOneVariance(ambient.prec);
    OneKept(ambient);
    TooWideLossy(ambient);
    RatioOverKeptBase(ambient, v, ONE);
    PercentFlagExactIff(ambient, Some(AboveOne(ambient.prec)), Some(ONE));
    th :| th.amount.coef == 0 && th.percent.coef >= 0
      && Flagged(ambient, Some(AboveOne(ambient.prec)), Some(ONE), th) != ShouldFlag(Some(AboveOne(ambient.prec)), Some(ONE), th);
  }

  lemma TooWideLossy(ambient: Context)
    ensures !Lossless(ambient, TooWide(ambient.prec))
  {
    TooWideDigits(ambient.prec);
    assert Pow10(1) == 10 && Pow10(ambient.prec) == 10 * Pow10(ambient.prec - 1);
  }

  /** A value that doubles is judged right under every percent limit, however wide it is. */
  lemma DoublingJudgedRight(ambient: Context, w: Dec, th: Thresholds)
    requires th.amount.coef == 0 && th.percent.coef >= 0
    ensures var current, previous := Some(Dec(2 * w.coef, w.exp)), Some(w);
      Flagged(ambient, current, previous, th) == ShouldFlag(current, previous, th)
  {
    hide Flagged, ShouldFlag;
    var current, previous := Some(Dec(2 * w.coef, w.exp)), Some(w);
    assert Pow10(0) == 1;
    assert Difference(current.value, w) == w;
    PercentFlagExactIff(ambient, current, previous);
  }

  /** In every ambient precision there is a previous value whose displayed percentage is wrong. */
  lemma WidePercentageMisreported(prec: Precision)
    ensures var v := Dec((Pow10(prec) + 1) * Pow10(prec), 0);
      PercentageForReport(Context(prec, HalfEven), v, TooWide(prec)) != Some(RoundedOnce(v, TooWide(prec)))
  {
    hide PercentageForReport, AbsIn, Lossless;
    var ambient, p := Context(prec, HalfEven), TooWide(prec);
    var x, y := Pow10(prec) + 1, Pow10(prec);
    var v := Dec(x * y, 0);
    TooWideRounded(prec);
    PercentageValue(ambient, v, p);
    assert Pow10(0) == 1;
    WholeRatio(x, y);
    WholeRatio(y, x);
    assert y * x == x * y;
    assert RoundedOnce(v, p).coef == 10000 * y && RoundedOnce(v, AbsIn(ambient, p)).coef == 10000 * x;
  }

  /** Lowering the percent limit, or the amount limit of a switched-on amount test, never drops a flag;
      a switched-off amount test may be set to anything. */
  lemma FlagAntitone(ambient: Context, current: Option<Dec>, previous: Option<Dec>, th: Thresholds, lower: Thresholds)
    requires th.amount.coef <= 0 || (lower.amount.coef > 0 && LessEq(lower.amount, th.amount))
    requires LessEq(lower.percent, th.percent)
    requires Flagged(ambient, current, previous, th)
    ensures Flagged(ambient, current, previous, lower)
  {
    var variance := VarianceOf(ambient, current, previous);
    LessEqTransitive(lower.amount, th.amount, AbsIn(ambient, variance));
    LessEqTransitive(lower.percent, th.percent, AbsIn(ambient, ZERO));
    if HasBase(previous) {
      var base := AbsIn(ambient, previous.value);
      AbsInValue(ambient, previous.value);
      ProductMono(lower.percent, th.percent, base);
      LessEqTransitive(Product(lower.percent, base), Product(th.percent, base),
                       Product(AbsIn(ambient, variance), ONE_HUNDRED));
    }
  }

  /** The code's percentage test does not depend on the unit the two values are stated in. */
  lemma PercentTestScales(ambient: Context, k: Dec, current: Dec, previous: Dec, limit: Dec)
    requires k.coef != 0 && previous.coef != 0 && limit.coef >= 0
    requires Lossless(ambient, previous) && Lossless(ambient, Difference(current, previous))
    requires var kp := Product(k, previous);
      Lossless(ambient, kp) && Lossless(ambient, Difference(Product(k, current), kp))
    ensures var kp := Product(k, previous);
      PercentThresholdMet(ambient, Difference(Product(k, current), kp), kp, limit)
        == PercentThresholdMet(ambient, Difference(current, previous), previous, limit)
  {
    hide PercentThresholdMet, PercentReached, Lossless, Difference;
    var kp := Product(k, previous);
    assert kp.coef != 0 by { AbsProduct(k.coef, previous.coef); MulStrict(0, Abs(k.coef), Abs(previous.coef)); }
    PercentKept(ambient, Difference(current, previous), previous, limit);
    PercentKept(ambient, Difference(Product(k, current), kp), kp, limit);
    ReferenceScales(k, current, previous, limit);
  }

  lemma ReferenceScales(k: Dec, current: Dec, previous: Dec, limit: Dec)
    requires k.coef != 0
    ensures PercentReached(Difference(Product(k, current), Product(k, previous)), Product(k, previous), limit)
       <==> PercentReached(Difference(current, previous), previous, limit)
  {
    var v := Difference(current, previous);
    var m := v.exp;
    var kv := Difference(Product(k, current), Product(k, previous));
    ScaledAt(k, current, m);
    ScaledAt(k, previous, m);
    assert kv.coef == k.coef * v.coef by {
      assert At(Product(k, current), m + k.exp) - At(Product(k, previous), m + k.exp)
        == k.coef * At(current, m) - k.coef * At(previous, m);
      MulDistribute(At(current, m), At(previous, m), k.coef);
    }
    ScaledMagnitudes(k, v, previous, m, limit);
    AbsMul(v.coef, Pow10(0));
    AbsMul(previous.coef, Pow10(previous.exp - m));
    ReachesAt(Magnitude(v), Magnitude(previous), limit, m);
  }

  lemma ScaledAt(k: Dec, d: Dec, m: int)
    requires m <= d.exp
    ensures At(Product(k, d), m + k.exp) == k.coef * At(d, m)
  {
    MulSwap(k.coef, d.coef, Pow10(d.exp - m));
  }

  lemma ScaledMagnitudes(k: Dec, v: Dec, p: Dec, m: int, limit: Dec)
    requires k.coef != 0 && m == v.exp <= p.exp
    ensures PercentReached(Product(k, v), Product(k, p), limit) <==> Reaches(Abs(At(v, m)), Abs(At(p, m)), limit)
  {
    var c := Abs(k.coef);
    var kv, kp := Product(k, v), Product(k, p);
    ScaledAt(k, v, m);
    ScaledAt(k, p, m);
    AbsProduct(k.coef, At(v, m));
    AbsProduct(k.coef, At(p, m));
    AbsMul(kv.coef, Pow10(kv.exp - (m + k.exp)));
    AbsMul(kp.coef, Pow10(kp.exp - (m + k.exp)));
    ReachesAt(Magnitude(kv), Magnitude(kp), limit, m + k.exp);
    ReachesScale(c, Abs(At(v, m)), Abs(At(p, m)), limit);
  }
}
