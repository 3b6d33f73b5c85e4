/** Displayed hundredths, displayed percentages and the threshold test. */
module VarianceReport {
  import opened Numerals
  import opened Rounding
  import opened Decimals
  import opened Wrappers
  import opened VarianceArithmetic

  // ----- displayed amounts

  lemma DisplayIsOdd(v: Dec)
    ensures Hundredths(Dec(-v.coef, v.exp)) == -Hundredths(v)
  {
    var m := Min(v.exp, -2);
    MulNegate(v.coef, Pow10(v.exp - m));
    HalfEvenOdd(At(v, m), Pow10(-2 - m));
  }

  lemma DisplayIsMonotone(v: Dec, w: Dec)
    requires LessEq(v, w)
    ensures Hundredths(v) <= Hundredths(w)
  {
    var m := Min(Min(v.exp, w.exp), -2);
    HundredthsAt(v, m);
    HundredthsAt(w, m);
    CompareAt(v, w, m);
    MulMono(At(v, m), At(w, m), Pow10(-2 - m));
    HalfEvenMono(At(v, m), Pow10(-2 - m), At(w, m), Pow10(-2 - m));
  }

  lemma DisplayIsIdempotent(v: Dec)
    ensures QuantizeForReport(QuantizeForReport(v).value) == QuantizeForReport(v)
  {
    var c := QuantizeForReport(v).value.coef;
    NearestUnique(Hundredths(Dec(c, -2)), c, c, 1);
  }

  predicate AllAtLeast(vs: seq<Dec>, m: int) { forall v :: v in vs ==> m <= v.exp }

  /** The exact total in units of 10^m. */
  function SumAt(vs: seq<Dec>, m: int): int
    requires AllAtLeast(vs, m)
  {
    if vs == [] then 0 else At(vs[0], m) + SumAt(vs[1..], m)
  }

  /** The total of the displayed hundredths. */
  ghost function DisplayedTotal(vs: seq<Dec>): int {
    if vs == [] then 0 else Hundredths(vs[0]) + DisplayedTotal(vs[1..])
  }

  /** n displayed amounts are off their exact total by at most n * 0.005. */
  lemma {:induction false} DisplayedTotalError(vs: seq<Dec>, m: int)
    requires m <= -2 && AllAtLeast(vs, m)
    ensures 2 * Abs(SumAt(vs, m) - DisplayedTotal(vs) * Pow10(-2 - m)) <= |vs| * Pow10(-2 - m)
  {
    if vs != [] {
      DisplayedTotalError(vs[1..], m);
      HundredthsAt(vs[0], m);
      AddError(At(vs[0], m), Hundredths(vs[0]), SumAt(vs[1..], m), DisplayedTotal(vs[1..]), |vs| - 1, Pow10(-2 - m));
    }
  }

  lemma AddError(a: int, q: int, sum: int, shown: int, n: nat, u: nat)
    requires u > 0 && Nearest(q, a, u) && 2 * Abs(sum - shown * u) <= n * u
    ensures 2 * Abs(a + sum - (q + shown) * u) <= (n + 1) * u
  {
    MulDistribute(q, shown, u);
    MulDistribute(n, 1, u);
  }

  // ----- displayed percentage

  function PercentagePrecision(numerator: Dec, denominator: Dec): (p: Precision)
    ensures p >= Digits(numerator) + Digits(denominator) + 8
    ensures numerator.coef != 0 ==> p >= Adjusted(numerator) - Adjusted(denominator) + 10
  {
    var integerDigits :=
      if numerator.coef != 0 then Max(1, Adjusted(numerator) - Adjusted(denominator) + 2) else 1;
    Max(34, Max(integerDigits + 8, Digits(numerator) + Digits(denominator) + 8))
  }

  function PercentageForReport(ambient: Context, amountVariance: Dec, previous: Dec): (r: Option<Dec>)
    requires previous.coef != 0
    ensures r.Some? && r.value.exp == -2
  {
    AbsInValue(ambient, previous);
    var numerator := ExactMultiply(ambient, amountVariance, ONE_HUNDRED);
    var denominator := AbsIn(ambient, previous);
    var context := Context(PercentagePrecision(numerator, denominator), HalfEven);
    QuantizeForReport(Divide(context, numerator, denominator))
  }

  /** The reference: 100 * variance / |previous| rounded once, half-even, to hundredths. */
  ghost function RoundedOnce(amountVariance: Dec, previous: Dec): (r: Dec)
    requires previous.coef != 0
    ensures r.exp == -2
  {
    var m := Min(amountVariance.exp, previous.exp);
    NonZeroAt(previous, m);
    Dec(HalfEvenOf(10000 * At(amountVariance, m), Abs(At(previous, m))), -2)
  }

  lemma NonZeroAt(d: Dec, m: int)
    requires m <= d.exp && d.coef != 0
    ensures At(d, m) != 0
    ensures At(Magnitude(d), m) == Abs(At(d, m)) > 0
  {
    AbsMul(d.coef, Pow10(d.exp - m));
    MulStrict(0, Abs(d.coef), Pow10(d.exp - m));
  }

  /** The variance is not so much coarser than its base that the quotient runs out of digits. */
  predicate NotTooCoarse(v: Dec, previous: Dec) {
    Digits(previous) <= 7 || v.exp - previous.exp <= Digits(previous) + 5
  }

  /** What the two roundings compute for any ambient context: the divisor is |previous| as abs() left it. */
  lemma PercentageValue(ambient: Context, amountVariance: Dec, previous: Dec)
    requires previous.coef != 0 && NotTooCoarse(amountVariance, AbsIn(ambient, previous))
    ensures AbsIn(ambient, previous).coef > 0
    ensures PercentageForReport(ambient, amountVariance, previous)
         == Some(RoundedOnce(amountVariance, AbsIn(ambient, previous)))
  {
    hide RoundedOnce, PercentagePrecision, Hundredths;
    AbsInValue(ambient, previous);
    QuotientRoundsOnce(amountVariance, AbsIn(ambient, previous));
  }

  lemma QuotientRoundsOnce(v: Dec, d: Dec)
    requires d.coef > 0 && NotTooCoarse(v, d)
    ensures var n := Dec(v.coef * 100, v.exp);
      Hundredths(Divide(Context(PercentagePrecision(n, d), HalfEven), n, d)) == RoundedOnce(v, d).coef
  {
    hide Hundredths, Divide, Digits, PercentagePrecision;
    var n, m := Dec(v.coef * 100, v.exp), Min(v.exp, d.exp);
    DivideThenQuantize(PercentagePrecision(n, d), n, d);
    NonZeroAt(d, m);
    MulSwap(v.coef, 100, Pow10(v.exp - m));
    assert 100 * At(n, m) == 10000 * At(v, m);
  }

  lemma SameValueScaled(a: Dec, b: Dec)
    requires SameValue(a, b) && a.exp <= b.exp
    ensures a.coef == b.coef * Pow10(b.exp - a.exp)
  {
    assert Pow10(0) == 1;
  }

  lemma SameValueAdjusted(a: Dec, b: Dec)
    requires SameValue(a, b) && a.coef > 0 && b.coef > 0 && a.exp <= b.exp
    ensures Adjusted(a) == Adjusted(b)
  {
    hide Pow10, DigitCount, SameValue;
    var n, k := Digits(b), b.exp - a.exp;
    SameValueScaled(a, b);
    Pow10Add(n, k);
    Pow10Add(n - 1, k);
    MulMono(Pow10(n - 1), b.coef, Pow10(k));
    MulStrict(b.coef, Pow10(n), Pow10(k));
    DigitCountAtMost(a.coef, n + k);
    DigitCountAtLeast(a.coef, n + k - 1);
  }

  /** abs() of a kept value shows no more digits, and moves its last digit up by as many as it drops. */
  lemma KeptDigits(ambient: Context, v: Dec, previous: Dec)
    requires previous.coef != 0 && Lossless(ambient, previous)
    ensures NotTooCoarse(v, previous) ==> NotTooCoarse(v, AbsIn(ambient, previous))
  {
    hide AbsIn, Lossless, DigitCount, SameValue;
    AbsInValue(ambient, previous);
    var d, a := AbsIn(ambient, previous), Magnitude(previous);
    SameValueSymmetric(d, a);
    SameValueAdjusted(a, d);
  }

  lemma SameValueSymmetric(a: Dec, b: Dec)
    requires SameValue(a, b)
    ensures SameValue(b, a)
  {
  }

  /** Dividing and quantizing is one correct rounding of the true percentage. */
  lemma PercentageRoundsOnce(ambient: Context, amountVariance: Dec, previous: Dec)
    requires previous.coef != 0 && NotTooCoarse(amountVariance, previous)
    requires Lossless(ambient, previous)
    ensures PercentageForReport(ambient, amountVariance, previous) == Some(RoundedOnce(amountVariance, previous))
  {
    hide NotTooCoarse, PercentageForReport, Lossless, AbsIn, Pow10;
    KeptDigits(ambient, amountVariance, previous);
    PercentageValue(ambient, amountVariance, previous);
    AbsInValue(ambient, previous);
    SameBase(amountVariance, previous, AbsIn(ambient, previous));
  }

  lemma SameBase(v: Dec, previous: Dec, d: Dec)
    requires previous.coef != 0 && d.coef > 0 && d.exp >= previous.exp && SameValue(d, Magnitude(previous))
    ensures RoundedOnce(v, d) == RoundedOnce(v, previous)
  {
    var m, m' := Min(v.exp, previous.exp), Min(v.exp, d.exp);
    var k := m' - m;
    CompareAt(d, Magnitude(previous), m);
    NonZeroAt(previous, m);
    NonZeroAt(d, m);
    NonZeroAt(d, m');
    AtFiner(v, m', k);
    AtFiner(d, m', k);
    MulSwap(10000, At(v, m'), Pow10(k));
    MulSwap(10000 * At(v, m'), At(d, m'), Pow10(k));
    MulSwap(10000 * At(v, m'), Pow10(k), At(d, m'));
    HalfEvenSameRatio(10000 * At(v, m'), At(d, m'), 10000 * At(v, m), At(d, m));
  }

  /** For one previous value, every displayed percentage is right exactly when abs() keeps that value. */
  lemma PercentageExactIff(ambient: Context, previous: Dec)
    requires previous.coef != 0
    ensures (forall v: Dec | NotTooCoarse(v, previous) ::
              PercentageForReport(ambient, v, previous) == Some(RoundedOnce(v, previous)))
       <==> Lossless(ambient, previous)
  {
    if Lossless(ambient, previous) {
      forall v: Dec | NotTooCoarse(v, previous)
        ensures PercentageForReport(ambient, v, previous) == Some(RoundedOnce(v, previous))
      {
        PercentageRoundsOnce(ambient, v, previous);
      }
    } else {
      AbsInValue(ambient, previous);
      var m := previous.exp;
      var d := AbsIn(ambient, previous);
      var x, y := Abs(previous.coef), At(d, m);
      NonZeroAt(d, m);
      CompareAt(d, Magnitude(previous), m);
      assert At(Magnitude(previous), m) == x && At(previous, m) == previous.coef;
      var v := Dec(x * y, m);
      assert At(v, m) == x * y;
      PercentageValue(ambient, v, previous);
      WholeRatio(x, y);
      WholeRatio(y, x);
      assert y * x == x * y;
      assert PercentageForReport(ambient, v, previous) != Some(RoundedOnce(v, previous));
    }
  }

  lemma WholeRatio(x: nat, y: nat)
    requires x > 0
    ensures HalfEvenOf(10000 * (x * y), x) == 10000 * y
  {
    MulSwap(10000, x, y);
    NearestUnique(HalfEvenOf(10000 * (x * y), x), 10000 * y, 10000 * (x * y), x);
  }

  // ----- percentage threshold

  predicate PercentThresholdMet(ambient: Context, amountVariance: Dec, previous: Dec, limit: Dec) {
    var left := ExactMultiply(ambient, AbsIn(ambient, amountVariance), ONE_HUNDRED);
    var right := ExactMultiply(ambient, limit, AbsIn(ambient, previous));
    LessEq(right, left)
  }

  /** The reference: 100 * |variance| >= limit * |previous|. */
  predicate PercentReached(amountVariance: Dec, previous: Dec, limit: Dec) {
    LessEq(Product(limit, Magnitude(previous)), Product(Magnitude(amountVariance), ONE_HUNDRED))
  }

  /** 100 * x >= limit * y for whole numbers x and y. */
  predicate Reaches(x: nat, y: nat, limit: Dec) {
    limit.coef * y * Pow10(Max(limit.exp, 0)) <= 100 * x * Pow10(Max(-limit.exp, 0))
  }

  lemma ReachesAt(x: Dec, y: Dec, limit: Dec, m: int)
    requires m <= x.exp && m <= y.exp && At(x, m) >= 0 && At(y, m) >= 0
    ensures LessEq(Product(limit, y), Product(x, ONE_HUNDRED)) <==> Reaches(At(x, m), At(y, m), limit)
  {
    var u := m + Min(limit.exp, 0);
    var up, down := Max(limit.exp, 0), Max(-limit.exp, 0);
    Pow10Add(y.exp - m, up);
    Pow10Add(x.exp - m, down);
    CompareAt(Product(limit, y), Product(x, ONE_HUNDRED), u);
    MulSwap(limit.coef, y.coef, Pow10(y.exp - m));
    MulSwap(limit.coef * y.coef, Pow10(y.exp - m), Pow10(up));
    MulSwap(x.coef, 100, Pow10(x.exp - m));
    MulSwap(x.coef * 100, Pow10(x.exp - m), Pow10(down));
    assert x.coef * 100 * Pow10(x.exp - m) == 100 * At(x, m);
  }

  /** The test and its reference, both in a common unit. */
  lemma ThresholdAt(ambient: Context, v: Dec, previous: Dec, limit: Dec, m: int)
    requires m <= v.exp && m <= previous.exp
    ensures m <= AbsIn(ambient, v).exp && m <= AbsIn(ambient, previous).exp
    ensures At(AbsIn(ambient, v), m) >= 0 && At(AbsIn(ambient, previous), m) >= 0
    ensures PercentThresholdMet(ambient, v, previous, limit)
       <==> Reaches(At(AbsIn(ambient, v), m), At(AbsIn(ambient, previous), m), limit)
    ensures PercentReached(v, previous, limit) <==> Reaches(Abs(At(v, m)), Abs(At(previous, m)), limit)
  {
    hide AbsIn, Reaches, At;
    AbsInValue(ambient, v);
    AbsInValue(ambient, previous);
    AtNonNegative(AbsIn(ambient, v), m);
    AtNonNegative(AbsIn(ambient, previous), m);
    MagnitudeAt(v, m);
    MagnitudeAt(previous, m);
    ReachesAt(AbsIn(ambient, v), AbsIn(ambient, previous), limit, m);
    ReachesAt(Magnitude(v), Magnitude(previous), limit, m);
  }

  lemma MagnitudeAt(d: Dec, m: int)
    requires m <= d.exp
    ensures At(Magnitude(d), m) == Abs(At(d, m))
  {
    AbsMul(d.coef, Pow10(d.exp - m));
  }

  lemma AtNonNegative(d: Dec, m: int)
    requires m <= d.exp && d.coef >= 0
    ensures At(d, m) >= 0
  {
    MulMono(0, d.coef, Pow10(d.exp - m));
  }

  lemma LosslessAt(ambient: Context, d: Dec, m: int)
    requires m <= d.exp
    ensures m <= AbsIn(ambient, d).exp
    ensures Lossless(ambient, d) <==> At(AbsIn(ambient, d), m) == Abs(At(d, m))
  {
    AbsInValue(ambient, d);
    AbsMul(d.coef, Pow10(d.exp - m));
    CompareAt(AbsIn(ambient, d), Magnitude(d), m);
  }

  /** The test is exact on a variance of zero, and whenever abs() keeps both operands. */
  lemma PercentKept(ambient: Context, v: Dec, previous: Dec, limit: Dec)
    requires previous.coef != 0 && limit.coef >= 0 && Lossless(ambient, v)
    requires v.coef == 0 || Lossless(ambient, previous)
    ensures PercentThresholdMet(ambient, v, previous, limit) == PercentReached(v, previous, limit)
  {
    hide Reaches, PercentThresholdMet, PercentReached, AbsIn, Lossless;
    var m := Min(v.exp, previous.exp);
    ThresholdAt(ambient, v, previous, limit, m);
    LosslessAt(ambient, v, m);
    LosslessAt(ambient, previous, m);
    if v.coef == 0 { ZeroVariance(ambient, previous, limit, m); }
  }

  lemma ZeroVariance(ambient: Context, previous: Dec, limit: Dec, m: int)
    requires previous.coef != 0 && limit.coef >= 0 && m <= previous.exp
    ensures m <= AbsIn(ambient, previous).exp && At(AbsIn(ambient, previous), m) > 0
    ensures Reaches(0, At(AbsIn(ambient, previous), m), limit) <==> Reaches(0, Abs(At(previous, m)), limit)
  {
    AbsInValue(ambient, previous);
    NonZeroAt(previous, m);
    NonZeroAt(AbsIn(ambient, previous), m);
    ReachesZero(Abs(At(previous, m)), limit);
    ReachesZero(At(AbsIn(ambient, previous), m), limit);
  }

  /** abs() keeps the ratio of the variance to the previous value. */
  predicate RatioKept(ambient: Context, v: Dec, previous: Dec) {
    SameValue(Product(AbsIn(ambient, v), Magnitude(previous)), Product(Magnitude(v), AbsIn(ambient, previous)))
  }

  lemma RatioAt(ambient: Context, v: Dec, previous: Dec, m: int)
    requires m <= v.exp && m <= previous.exp
    ensures m <= AbsIn(ambient, v).exp && m <= AbsIn(ambient, previous).exp
    ensures RatioKept(ambient, v, previous)
       <==> At(AbsIn(ambient, v), m) * Abs(At(previous, m)) == Abs(At(v, m)) * At(AbsIn(ambient, previous), m)
  {
    AbsInValue(ambient, v);
    AbsInValue(ambient, previous);
    MagnitudeAt(v, m);
    MagnitudeAt(previous, m);
    ProductAt(AbsIn(ambient, v), Magnitude(previous), m);
    ProductAt(Magnitude(v), AbsIn(ambient, previous), m);
    CompareAt(Product(AbsIn(ambient, v), Magnitude(previous)), Product(Magnitude(v), AbsIn(ambient, previous)), m + m);
  }

  lemma ProductAt(a: Dec, b: Dec, m: int)
    requires m <= a.exp && m <= b.exp
    ensures At(Product(a, b), m + m) == At(a, m) * At(b, m)
  {
    Pow10Add(a.exp - m, b.exp - m);
    Regroup(a.coef, Pow10(a.exp - m), b.coef, Pow10(b.exp - m));
  }

  /** The test is right for every limit exactly when abs() keeps the ratio of its operands. */
  lemma PercentTestExactIff(ambient: Context, v: Dec, previous: Dec)
    requires previous.coef != 0
    ensures (forall limit: Dec | limit.coef >= 0 ::
              PercentThresholdMet(ambient, v, previous, limit) == PercentReached(v, previous, limit))
       <==> RatioKept(ambient, v, previous)
  {
    hide AbsIn, Lossless, RatioKept, Reaches, PercentThresholdMet, PercentReached, At;
    var m := Min(v.exp, previous.exp);
    RatioAt(ambient, v, previous, m);
    OperandsAt(ambient, v, previous, m);
    var x, y := Abs(At(v, m)), Abs(At(previous, m));
    var x', y' := At(AbsIn(ambient, v), m), At(AbsIn(ambient, previous), m);
    if x' * y == x * y' {
      forall limit: Dec | limit.coef >= 0
        ensures PercentThresholdMet(ambient, v, previous, limit) == PercentReached(v, previous, limit)
      {
        ThresholdAt(ambient, v, previous, limit, m);
        SameRatioReaches(x, y, x', y', limit);
      }
    } else {
      var limit := RatiosSeparated(x, y, x', y');
      ThresholdAt(ambient, v, previous, limit, m);
    }
  }

  lemma OperandsAt(ambient: Context, v: Dec, previous: Dec, m: int)
    requires previous.coef != 0 && m <= v.exp && m <= previous.exp
    ensures m <= AbsIn(ambient, v).exp && m <= AbsIn(ambient, previous).exp
    ensures Abs(At(previous, m)) > 0 && At(AbsIn(ambient, previous), m) > 0
    ensures At(AbsIn(ambient, v), m) >= 0
    ensures At(AbsIn(ambient, v), m) == 0 <==> Abs(At(v, m)) == 0
  {
    AbsInValue(ambient, v);
    AbsInValue(ambient, previous);
    NonZeroAt(previous, m);
    NonZeroAt(AbsIn(ambient, previous), m);
    if v.coef != 0 {
      NonZeroAt(v, m);
      NonZeroAt(AbsIn(ambient, v), m);
    }
  }

  lemma SameRatioReaches(x: nat, y: nat, x': nat, y': nat, limit: Dec)
    requires y > 0 && y' > 0 && x' * y == x * y'
    ensures Reaches(x', y', limit) <==> Reaches(x, y, limit)
  {
    hide Reaches;
    ReachesScale(y, x', y', limit);
    ReachesScale(y', x, y, limit);
    assert y * x' == y' * x && y * y' == y' * y;
  }

  /** A limit that one of two different ratios reaches and the other misses. */
  lemma RatiosSeparated(x: nat, y: nat, x': nat, y': nat) returns (limit: Dec)
    requires y > 0 && y' > 0 && x' * y != x * y' && (x' == 0 <==> x == 0)
    ensures limit.coef >= 0 && Reaches(x', y', limit) != Reaches(x, y, limit)
  {
    hide Reaches;
    assert x > 0 && x' > 0;
    MulStrict(0, x, x');
    MulStrict(0, y, x');
    MulStrict(0, y', x);
    var top, low, high := x * x', x' * y, x * y';
    limit := if low < high then Separating(top, low, high) else Separating(top, high, low);
    ReachesScale(x', x, y, limit);
    ReachesScale(x, x', y', limit);
    assert x' * x == top;
  }

  /** Over a base that abs() keeps, the ratio is kept exactly when the variance is. */
  lemma RatioOverKeptBase(ambient: Context, v: Dec, previous: Dec)
    requires previous.coef != 0 && Lossless(ambient, previous)
    ensures RatioKept(ambient, v, previous) <==> Lossless(ambient, v)
  {
    hide AbsIn, Lossless, RatioKept;
    var m := Min(v.exp, previous.exp);
    RatioAt(ambient, v, previous, m);
    LosslessAt(ambient, v, m);
    LosslessAt(ambient, previous, m);
    OperandsAt(ambient, v, previous, m);
    if RatioKept(ambient, v, previous) { MulCancel(At(AbsIn(ambient, v), m), Abs(At(v, m)), Abs(At(previous, m))); }
  }

  /** With a variance that abs() keeps, the ratio is kept exactly when the variance is zero
      or abs() keeps the previous value too. */
  lemma RatioOfKeptVariance(ambient: Context, v: Dec, previous: Dec)
    requires previous.coef != 0 && Lossless(ambient, v)
    ensures RatioKept(ambient, v, previous) <==> v.coef == 0 || Lossless(ambient, previous)
  {
    hide AbsIn, Lossless, RatioKept;
    var m := Min(v.exp, previous.exp);
    RatioAt(ambient, v, previous, m);
    LosslessAt(ambient, v, m);
    LosslessAt(ambient, previous, m);
    OperandsAt(ambient, v, previous, m);
    if v.coef != 0 {
      NonZeroAt(v, m);
      if RatioKept(ambient, v, previous) { MulCancel(Abs(At(previous, m)), At(AbsIn(ambient, previous), m), Abs(At(v, m))); }
    }
  }

  lemma ReachesScale(c: nat, x: nat, y: nat, limit: Dec)
    requires c > 0
    ensures Reaches(c * x, c * y, limit) <==> Reaches(x, y, limit)
  {
    var up, down := Pow10(Max(limit.exp, 0)), Pow10(Max(-limit.exp, 0));
    var l, r := limit.coef * y * up, 100 * x * down;
    PullOut(limit.coef, c, y, up);
    PullOut(100, c, x, down);
    if l <= r { MulMono(l, r, c); } else { MulStrict(r, l, c); }
  }

  lemma PullOut(l: int, c: int, y: int, up: int)
    ensures l * (c * y) * up == l * y * up * c
  {
    MulSwap(l, c, y);
    MulSwap(l * y, c, up);
  }

  lemma ReachesZero(y: nat, limit: Dec)
    requires y > 0 && limit.coef >= 0
    ensures Reaches(0, y, limit) <==> limit.coef == 0
  {
    if limit.coef > 0 {
      MulStrict(0, limit.coef, y);
      MulStrict(0, limit.coef * y, Pow10(Max(limit.exp, 0)));
    }
  }

  /** A limit that 100 * x reaches over y and misses over the larger y'. */
  function Separating(x: nat, y: nat, y': nat): (limit: Dec)
    requires x > 0 && 0 < y < y'
    ensures limit.coef >= 0 && limit.exp <= 0
    ensures Reaches(x, y, limit) && !Reaches(x, y', limit)
  {
    var k := DigitCount(y * y);
    MulAtLeast(Pow10(k), 100 * x);
    Separates(100 * x * Pow10(k), y, y');
    Dec((100 * x * Pow10(k)) / y, 0 - k)
  }

  lemma Separates(top: nat, y: nat, y': nat)
    requires 0 < y < y' && top >= y * y
    ensures (top / y) * y <= top < (top / y) * y'
  {
    SeparatesAt(top / y, top, y, y');
  }

  lemma SeparatesAt(l: nat, top: nat, y: nat, y': nat)
    requires 0 < y < y' && top >= y * y && l * y <= top < l * y + y
    ensures top < l * y'
  {
    MulDistribute(l, 1, y);
    if l < y { MulMono(l + 1, y, y); }
    MulMono(y + 1, y', l);
    MulDistribute(y, 1, l);
  }

  lemma LessEqTransitive(a: Dec, b: Dec, c: Dec)
    ensures LessEq(a, b) && LessEq(b, c) ==> LessEq(a, c)
  {
    var m := Min(a.exp, Min(b.exp, c.exp));
    CompareAt(a, b, m);
    CompareAt(b, c, m);
    CompareAt(a, c, m);
  }

  lemma ProductMono(a: Dec, b: Dec, c: Dec)
    requires LessEq(a, b) && c.coef >= 0
    ensures LessEq(Product(a, c), Product(b, c))
  {
    var m := Min(a.exp, b.exp);
    MulMono(At(a, m), At(b, m), c.coef);
    MulSwap(a.coef, Pow10(a.exp - m), c.coef);
    MulSwap(b.coef, Pow10(b.exp - m), c.coef);
    assert At(Product(a, c), m + c.exp) == At(a, m) * c.coef;
    assert At(Product(b, c), m + c.exp) == At(b, m) * c.coef;
  }

  /** Limits with a value of at most two decimals, however they are written. */
  ghost predicate TwoDecimals(limit: Dec) { exists c: int :: SameValue(limit, Dec(c, -2)) }

  /** A met percentage threshold is visible in the displayed percentage, up to its rounding. */
  lemma FlagAgreesWithDisplay(ambient: Context, v: Dec, previous: Dec, limit: Dec)
    requires previous.coef != 0 && NotTooCoarse(v, previous) && limit.coef >= 0
    requires Lossless(ambient, v) && Lossless(ambient, previous)
    requires PercentThresholdMet(ambient, v, previous, limit)
    ensures var shown := Magnitude(PercentageForReport(ambient, v, previous).value);
      && (TwoDecimals(limit) ==> LessEq(limit, shown))
      && LessEq(limit, Dec(10 * shown.coef + 5, -3))
  {
    hide PercentageForReport, PercentThresholdMet, PercentReached, RoundedOnce, LessEq, Lossless;
    PercentageRoundsOnce(ambient, v, previous);
    PercentKept(ambient, v, previous, limit);
    ReachedIsDisplayed(v, previous, limit);
  }

  lemma ReachedIsDisplayed(v: Dec, previous: Dec, limit: Dec)
    requires previous.coef != 0 && PercentReached(v, previous, limit)
    ensures var shown := Magnitude(RoundedOnce(v, previous));
      && (TwoDecimals(limit) ==> LessEq(limit, shown))
      && LessEq(limit, Dec(10 * shown.coef + 5, -3))
  {
    var m := Min(v.exp, previous.exp);
    NonZeroAt(previous, m);
    AbsMul(v.coef, Pow10(v.exp - m));
    ReachesAt(Magnitude(v), Magnitude(previous), limit, m);
    ShownMagnitude(At(v, m), Abs(At(previous, m)));
    var x, y := Abs(At(v, m)), Abs(At(previous, m));
    ReachedIsShown(x, y, limit);
    if TwoDecimals(limit) {
      var c: int :| SameValue(limit, Dec(c, -2));
      var plain, shown := Dec(c, -2), Magnitude(RoundedOnce(v, previous));
      SameValueBothWays(limit, plain);
      PlainReached(v, previous, limit, plain);
      ReachesAt(Magnitude(v), Magnitude(previous), plain, m);
      ReachedIsShown(x, y, plain);
      LessEqTransitive(limit, plain, shown);
    }
  }

  lemma SameValueBothWays(a: Dec, b: Dec)
    requires SameValue(a, b)
    ensures LessEq(a, b) && LessEq(b, a)
  {
    CompareAt(a, b, Min(a.exp, b.exp));
  }

  lemma PlainReached(v: Dec, previous: Dec, limit: Dec, plain: Dec)
    requires LessEq(plain, limit) && PercentReached(v, previous, limit)
    ensures PercentReached(v, previous, plain)
  {
    var base := Magnitude(previous);
    ProductMono(plain, limit, base);
    LessEqTransitive(Product(plain, base), Product(limit, base), Product(Magnitude(v), ONE_HUNDRED));
  }

  lemma ShownMagnitude(a: int, y: nat)
    requires y > 0
    ensures Abs(HalfEvenOf(10000 * a, y)) == HalfEvenOf(10000 * Abs(a), y)
  {
    HalfEvenOdd(10000 * a, y);
    ZeroRounds(y);
    HalfEvenMono(0, y, 10000 * Abs(a), y);
  }

  lemma ReachedIsShown(x: nat, y: nat, limit: Dec)
    requires y > 0 && Reaches(x, y, limit)
    ensures var q := HalfEvenOf(10000 * x, y);
      && (limit.exp >= -2 ==> LessEq(limit, Dec(q, -2)))
      && LessEq(limit, Dec(10 * q + 5, -3))
  {
    var q := HalfEvenOf(10000 * x, y);
    if limit.exp >= -2 {
      WholeHundredths(x, y, limit, q);
      AtFiner(limit, -2, 1);
      CompareAt(limit, Dec(q, -2), -2);
      CompareAt(limit, Dec(10 * q + 5, -3), -3);
    } else {
      HalfHundredthShort(x, y, limit, q);
    }
  }

  lemma WholeHundredths(x: nat, y: nat, limit: Dec, q: int)
    requires y > 0 && limit.exp >= -2 && Reaches(x, y, limit) && q == HalfEvenOf(10000 * x, y)
    ensures At(limit, -2) <= q
  {
    var up, down := Max(limit.exp, 0), Max(-limit.exp, 0);
    var c := 2 - down;
    Pow10Add(up, c);
    Pow10Add(down, c);
    assert Pow10(2) == 100;
    MulMono(limit.coef * y * Pow10(up), 100 * x * Pow10(down), Pow10(c));
    MulSwap(limit.coef, y, Pow10(up));
    MulSwap(limit.coef * Pow10(up), y, Pow10(c));
    MulSwap(limit.coef, Pow10(up), Pow10(c));
    MulSwap(100 * x, Pow10(down), Pow10(c));
    assert At(limit, -2) * y <= 10000 * x;
    HalfEvenMono(At(limit, -2), 1, 10000 * x, y);
    NearestUnique(HalfEvenOf(At(limit, -2), 1), At(limit, -2), At(limit, -2), 1);
  }

  lemma HalfHundredthShort(x: nat, y: nat, limit: Dec, q: int)
    requires y > 0 && limit.exp < -2 && Reaches(x, y, limit) && q == HalfEvenOf(10000 * x, y)
    ensures LessEq(limit, Dec(10 * q + 5, -3))
  {
    var k := -limit.exp;
    var p := Pow10(k - 3);
    Pow10Add(3, k - 3);
    assert Pow10(3) == 1000;
    MulSwap(2, q, y);
    MulDistribute(2 * q, 1, y);
    MulSwap(100, x, 1000 * p);
    ShortBy(limit.coef, x * p, x, y, 2 * q + 1, p);
    MulSwap(2 * q + 1, 5, p);
    CompareAt(limit, Dec(10 * q + 5, -3), -k);
  }

  lemma ShortBy(l: int, xp: int, x: nat, y: nat, w: int, p: nat)
    requires y > 0 && xp == x * p
    requires l * y <= 100000 * xp && 20000 * x <= w * y
    ensures l <= w * (5 * p)
  {
    MulMono(20000 * x, w * y, 5 * p);
    MulSwap(20000, x, 5 * p);
    MulSwap(x, 5, p);
    MulSwap(w, y, 5 * p);
    if l > w * (5 * p) { MulStrict(w * (5 * p), l, y); }
  }
}
