/** The exact and report arithmetic of the variance analysis. */
module VarianceArithmetic {
  import opened Numerals
  import opened Rounding
  import opened Decimals
  import opened Wrappers

  const DEFAULT_PRECISION: Precision := 28
  const ONE_HUNDRED := Dec(100, 0)

  // ----- working precision by formula

  function SubtractPrecision(l: Dec, r: Dec): Precision {
    var top := if l.coef != 0 && r.coef != 0 then Max(Adjusted(l), Adjusted(r))
               else if l.coef != 0 then Adjusted(l)
               else if r.coef != 0 then Adjusted(r) else 0;
    Max(DEFAULT_PRECISION, top - Min(l.exp, r.exp) + 3)
  }

  /** Subtraction under the chosen precision never rounds, whatever the ambient rounding mode. */
  function ExactSubtract(ambient: Context, left: Dec, right: Dec): (r: Dec)
    ensures r.exp == Min(left.exp, right.exp)
    ensures r.coef == At(left, r.exp) - At(right, r.exp)
  {
    SubtractionFits(left, right);
    Subtract(Context(SubtractPrecision(left, right), ambient.mode), left, right)
  }

  lemma SubtractionFits(l: Dec, r: Dec)
    ensures Digits(Difference(l, r)) <= SubtractPrecision(l, r)
  {
    hide Digits, Pow10, At;
    var m := Min(l.exp, r.exp);
    TermFits(l, m, SubtractPrecision(l, r));
    TermFits(r, m, SubtractPrecision(l, r));
    SumFits(At(l, m), At(r, m), SubtractPrecision(l, r));
    DigitsOf(Difference(l, r));
  }

  lemma DigitsOf(d: Dec)
    ensures Digits(d) == DigitCount(Abs(d.coef))
  {
  }

  lemma TermFits(d: Dec, m: int, p: Precision)
    requires m <= d.exp && (d.coef != 0 ==> Adjusted(d) - m + 3 <= p)
    ensures p >= 2 ==> Abs(At(d, m)) < Pow10(p - 1)
  {
    AtBound(d, m);
    if d.coef != 0 { Pow10Mono(Adjusted(d) + 1 - m, p - 1); }
  }

  lemma SumFits(a: int, b: int, p: Precision)
    requires p >= 2 && Abs(a) < Pow10(p - 1) && Abs(b) < Pow10(p - 1)
    ensures DigitCount(Abs(a - b)) <= p
  {
    DigitCountAtMost(Abs(a - b), p);
  }

  /** Multiplication under the chosen precision never rounds. */
  function ExactMultiply(ambient: Context, left: Dec, right: Dec): (r: Dec)
    ensures r.exp == left.exp + right.exp
    ensures r.coef == left.coef * right.coef
  {
    MultiplicationFits(left, right);
    Multiply(Context(Max(DEFAULT_PRECISION, Digits(left) + Digits(right) + 2), ambient.mode), left, right)
  }

  lemma MultiplicationFits(l: Dec, r: Dec)
    ensures Digits(Product(l, r)) <= Digits(l) + Digits(r)
  {
    AbsProduct(l.coef, r.coef);
    MulBelow(Abs(l.coef), Abs(r.coef), Pow10(Digits(l)), Pow10(Digits(r)));
    Pow10Add(Digits(l), Digits(r));
    DigitCountAtMost(Abs(l.coef * r.coef), Digits(l) + Digits(r));
  }

  lemma AbsProduct(x: int, y: int)
    ensures Abs(x * y) == Abs(x) * Abs(y)
  {
    AbsMul(x, Abs(y));
    if y < 0 { assert x * y == -(x * Abs(y)); }
  }

  // ----- two-place report values

  /** v in hundredths, rounded half-even to a whole number. */
  ghost function Hundredths(v: Dec): int {
    var m := Min(v.exp, -2);
    HalfEvenOf(At(v, m), Pow10(-2 - m))
  }

  /** Quantizing for the report never signals, and yields the nearest hundredth, ties to even. */
  function QuantizeForReport(value: Dec): (r: Option<Dec>)
    ensures r.Some? && r.value.exp == -2
    ensures r.value.coef == Hundredths(value)
  {
    var integerDigits := if value.coef != 0 then Max(1, Adjusted(value) + 1) else 1;
    var prec := Max(28, Max(Digits(value) + 2, integerDigits + 4));
    QuantizeFits(value, prec);
    Quantize(Context(prec, HalfEven), value, -2)
  }

  lemma QuantizeFits(v: Dec, prec: Precision)
    requires prec >= Digits(v) + 2
    requires v.coef != 0 ==> prec >= Adjusted(v) + 5
    ensures Quantize(Context(prec, HalfEven), v, -2) == Some(Dec(Hundredths(v), -2))
  {
    if v.coef == 0 {
      assert Hundredths(v) == 0 by { ZeroRounds(Pow10(-2 - Min(v.exp, -2))); }
    } else if v.exp >= -2 {
      assert Hundredths(v) == At(v, -2) by { NearestUnique(Hundredths(v), At(v, -2), At(v, -2), 1); }
      AtBound(v, -2);
      DigitCountAtMost(Abs(At(v, -2)), Adjusted(v) + 3);
    } else {
      QuantizeFitsBelow(v, prec);
    }
  }

  lemma ZeroRounds(den: nat)
    requires den > 0
    ensures HalfEvenOf(0, den) == 0
  {
    NearestUnique(HalfEvenOf(0, den), 0, 0, den);
  }

  lemma QuantizeFitsBelow(v: Dec, prec: Precision)
    requires v.coef != 0 && v.exp < -2 && prec >= Digits(v) + 2
    ensures Hundredths(v) == RoundSigned(HalfEven, v.coef, Pow10(-2 - v.exp))
    ensures DigitCount(Abs(Hundredths(v))) <= prec
  {
    var den := Pow10(-2 - v.exp);
    assert At(v, v.exp) == v.coef;
    HalfEvenComputes(v.coef, den);
    RoundRatioNeighbours(HalfEven, v.coef < 0, Abs(v.coef), den);
    QuotientSmaller(Abs(v.coef), den);
    Pow10Mono(Digits(v), prec - 1);
    DigitCountAtMost(Abs(Hundredths(v)), prec);
  }

  lemma QuotientSmaller(n: nat, d: nat)
    requires d > 0
    ensures n / d <= n
  {
    var q := n / d;
    assert n == q * d + n % d;
    MulAtLeast(q, d);
  }

  /** Hundredths may be computed in any unit fine enough for both v and 0.01. */
  lemma HundredthsAt(v: Dec, m: int)
    requires m <= v.exp && m <= -2
    ensures Hundredths(v) == HalfEvenOf(At(v, m), Pow10(-2 - m))
  {
    var m0 := Min(v.exp, -2);
    var k := m0 - m;
    AtFiner(v, m0, k);
    Pow10Add(-2 - m0, k);
    MulSwap(At(v, m0), Pow10(-2 - m0), Pow10(k));
    MulSwap(At(v, m0), Pow10(k), Pow10(-2 - m0));
    HalfEvenSameRatio(At(v, m0), Pow10(-2 - m0), At(v, m), Pow10(-2 - m));
  }

  // ----- division followed by quantization

  /** a/d rounded to q on a grid that carries every tie of the coarser rounding by 2h. */
  lemma UpperSide(a: int, d: nat, q: int, t: int, g: nat)
    requires d > 0 && 2 * g > d && a % g == 0 && t % g == 0
    requires Nearest(q, a, d) && q <= t
    ensures a <= t * d
    ensures a == t * d ==> q == t
  {
    MulMono(q, t, d);
    MulDistribute(t, 1, d);
    MulDistribute(q, 1, d);
    if a > t * d {
      MultiplesApart(a, t, d, g);
    } else if a == t * d && q < t {
      MulMono(q + 1, t, d);
    }
  }

  lemma MultiplesApart(a: int, t: int, d: nat, g: nat)
    requires g > 0 && a % g == 0 && t % g == 0 && a > t * d
    ensures a >= t * d + g
  {
    var x, y := a / g, t / g;
    MulSwap(y, g, d);
    assert t * d == (y * d) * g;
    assert a == x * g;
    if x <= y * d { MulMono(x, y * d, g); }
    MulMono(y * d + 1, x, g);
    assert (y * d + 1) * g == y * d * g + g;
  }

  lemma LowerSide(a: int, d: nat, q: int, t: int, g: nat)
    requires d > 0 && 2 * g > d && a % g == 0 && t % g == 0
    requires Nearest(q, a, d) && q >= t
    ensures a >= t * d
    ensures a == t * d ==> q == t
  {
    assert (-q) * d == -(q * d) && (-t) * d == -(t * d);
    NegMod(a, g);
    NegMod(t, g);
    UpperSide(-a, d, -q, -t, g);
  }

  lemma NegMod(a: int, g: nat)
    requires g > 0 && a % g == 0
    ensures (-a) % g == 0
  {
    assert a == (a / g) * g;
    assert -a == (-(a / g)) * g;
    ModOfMultiple(-(a / g), g);
  }

  lemma ModOfMultiple(x: int, g: nat)
    requires g > 0
    ensures (x * g) % g == 0
  {
    var r := (x * g) % g;
    var q := (x * g) / g;
    assert x * g == q * g + r;
    assert r == (x - q) * g;
    if x - q >= 1 { MulMono(1, x - q, g); } else if x - q <= -1 { MulMono(x - q, -1, g); }
  }

  /** Rounding twice equals rounding once when the first grid is fine enough. */
  lemma DoubleRounding(a: int, d: nat, h: nat, g: nat)
    requires d > 0 && h > 0 && 2 * g > d && a % g == 0 && h % g == 0
    ensures HalfEvenOf(HalfEvenOf(a, d), 2 * h) == HalfEvenOf(a, d * (2 * h))
  {
    var q := HalfEvenOf(a, d);
    var t := HalfEvenOf(q, 2 * h);
    var x := t * (2 * h);
    TiesOnGrid(t, h, g);
    UpperSide(a, d, q, x + h, g);
    LowerSide(a, d, q, x - h, g);
    MulDistribute(x, h, d);
    MulSwap(t, 2 * h, d);
    MulSwap(2, h, d);
    assert d * (2 * h) == (2 * h) * d;
    NearestUnique(t, HalfEvenOf(a, d * (2 * h)), a, d * (2 * h));
  }

  /** The ties of a rounding by 2h are odd multiples of h. */
  lemma TiesOnGrid(t: int, h: nat, g: nat)
    requires g > 0 && h % g == 0
    ensures (t * (2 * h) + h) % g == 0 && (t * (2 * h) - h) % g == 0
  {
    var y := h / g;
    assert h == y * g;
    assert t * (2 * h) + h == (2 * t + 1) * h && t * (2 * h) - h == (2 * t - 1) * h;
    MulSwap(2 * t + 1, y, g);
    MulSwap(2 * t - 1, y, g);
    ModOfMultiple((2 * t + 1) * y, g);
    ModOfMultiple((2 * t - 1) * y, g);
  }

  /** Digits that keep the first rounding of n / d off the ties of the second. */
  predicate EnoughDigits(prec: Precision, n: Dec, d: Dec) {
    && prec >= Digits(n) + Digits(d) + 8
    && (n.coef != 0 && n.exp > d.exp ==> prec >= Digits(n) + (n.exp - d.exp) + 3)
  }

  /** The true quotient in hundredths, rounded once. */
  ghost function QuotientHundredths(n: Dec, d: Dec): int
    requires d.coef > 0
  {
    var m := Min(n.exp, d.exp);
    MulStrict(0, d.coef, Pow10(d.exp - m));
    HalfEvenOf(100 * At(n, m), At(d, m))
  }

  /** A quotient at enough digits, then rounded to hundredths, is rounded only once in effect. */
  lemma DivideThenQuantize(prec: Precision, n: Dec, d: Dec)
    requires d.coef > 0 && EnoughDigits(prec, n, d)
    ensures Hundredths(Divide(Context(prec, HalfEven), n, d)) == QuotientHundredths(n, d)
  {
    var r := Divide(Context(prec, HalfEven), n, d);
    if n.coef == 0 {
      MulStrict(0, d.coef, Pow10(d.exp - Min(n.exp, d.exp)));
      ZeroRounds(At(d, Min(n.exp, d.exp)));
      HundredthsAt(r, Min(r.exp, -2));
      ZeroRounds(Pow10(-2 - Min(r.exp, -2)));
    } else {
      hide Divide, Hundredths, Digits, QuotientShift, Pow10;
      var gap, shift := n.exp - d.exp, QuotientShift(prec, Abs(n.coef), d.coef);
      DivideValue(prec, n, d);
      HundredthsAt(r, gap - shift);
      WholePower();
      if gap <= 0 {
        TwoRoundings(n.coef, d, -gap, shift);
      } else {
        CoarseRoundings(n.coef, d, gap, shift);
      }
    }
  }

  lemma WholePower()
    ensures Pow10(0) == 1
  {
  }

  lemma TwoRoundings(n: int, d: Dec, k: nat, shift: nat)
    requires d.coef > 0 && shift >= Digits(d) + 3
    ensures d.coef * Pow10(k) > 0
    ensures HalfEvenOf(HalfEvenOf(n * Pow10(shift), d.coef), Pow10(k + shift - 2)) == HalfEvenOf(100 * n, d.coef * Pow10(k))
  {
    hide Digits, Pow10, Nearest;
    var h := 5 * Pow10(k + shift - 3);
    GridOf(n, d, k, shift);
    DoubleRounding(n * Pow10(shift), d.coef, h, Pow10(Min(shift, k + shift - 3)));
    NextPower(k + shift - 3);
    SameQuotient(n, d.coef, k, shift);
    MulStrict(0, d.coef, Pow10(k));
    HalfEvenSameRatio(n * Pow10(shift), d.coef * (2 * h), 100 * n, d.coef * Pow10(k));
  }

  /** A numerator coarser than the divisor: the ties themselves are the grid. */
  lemma CoarseRoundings(n: int, d: Dec, gap: nat, shift: nat)
    requires d.coef > 0 && gap > 0 && shift >= Digits(d) + gap + 2
    ensures HalfEvenOf(HalfEvenOf(n * Pow10(shift), d.coef), Pow10(shift - gap - 2))
         == HalfEvenOf(100 * (n * Pow10(gap)), d.coef)
  {
    hide Digits, Pow10, Nearest;
    var z := shift - gap - 3;
    var h := 5 * Pow10(z);
    NextPower(z);
    BelowPower(d, z + 1);
    CoarseGrid(n, gap, shift);
    DoubleRounding(n * Pow10(shift), d.coef, h, h);
    SelfMultiple(h);
    CoarseSame(n, d.coef, gap, shift);
    HalfEvenSameRatio(n * Pow10(shift), d.coef * (2 * h), 100 * (n * Pow10(gap)), d.coef);
  }

  lemma BelowPower(d: Dec, k: nat)
    requires d.coef > 0 && k >= Digits(d)
    ensures d.coef < Pow10(k)
  {
    Pow10Mono(Digits(d), k);
  }

  lemma SelfMultiple(h: nat)
    requires h > 0
    ensures h % h == 0
  {
  }

  lemma CoarseGrid(n: int, gap: nat, shift: nat)
    requires gap > 0 && shift >= gap + 3
    ensures (n * Pow10(shift)) % (5 * Pow10(shift - gap - 3)) == 0
  {
    var z := shift - gap - 3;
    Pow10Add(gap + 3, z);
    var c := Pow10(gap + 2);
    assert Pow10(gap + 3) == 2 * c * 5;
    MulSwap(2 * c, 5, Pow10(z));
    MulSwap(n, 2 * c, 5 * Pow10(z));
    ModOfMultiple(n * (2 * c), 5 * Pow10(z));
  }

  lemma CoarseSame(n: int, d: nat, gap: nat, shift: nat)
    requires shift >= gap + 3
    ensures (n * Pow10(shift)) * d == 100 * (n * Pow10(gap)) * (d * (2 * (5 * Pow10(shift - gap - 3))))
  {
    var p := Pow10(shift - gap - 2);
    NextPower(shift - gap - 3);
    Pow10Add(gap + 2, shift - gap - 2);
    Pow10Add(gap, 2);
    assert Pow10(2) == 100;
    assert Pow10(shift) == 100 * Pow10(gap) * p;
    FourFactors(n, Pow10(gap), d, p);
  }

  lemma FourFactors(n: int, g: int, d: int, p: int)
    ensures n * (100 * g * p) * d == 100 * (n * g) * (d * p)
  {
    Regroup(n * g, p, 100, d);
    assert n * (100 * g * p) == 100 * (n * g * p) by { MulSwap(n, 100 * g, p); MulSwap(n, 100, g); }
    MulSwap(100, n * g * p, d);
    MulSwap(n * g, p, d);
    assert (n * g * p) * d == (n * g) * (d * p);
  }

  lemma NextPower(k: nat)
    ensures 2 * (5 * Pow10(k)) == Pow10(k + 1)
  {
  }

  lemma GridOf(n: int, d: Dec, k: nat, shift: nat)
    requires d.coef > 0 && shift >= Digits(d) + 3
    ensures var g := Pow10(Min(shift, k + shift - 3));
      && g > d.coef
      && (n * Pow10(shift)) % g == 0
      && (5 * Pow10(k + shift - 3)) % g == 0
  {
    var low := Min(shift, k + shift - 3);
    BelowPower(d, low);
    MultipleOfPower(n, shift, low);
    MultipleOfPower(5, k + shift - 3, low);
  }

  lemma MultipleOfPower(x: int, hi: nat, lo: nat)
    requires lo <= hi
    ensures (x * Pow10(hi)) % Pow10(lo) == 0
  {
    Pow10Add(hi - lo, lo);
    MulSwap(x, Pow10(hi - lo), Pow10(lo));
    ModOfMultiple(x * Pow10(hi - lo), Pow10(lo));
  }

  lemma SameQuotient(n: int, d: nat, k: nat, shift: nat)
    requires shift >= 2
    ensures (n * Pow10(shift)) * (d * Pow10(k)) == (100 * n) * (d * Pow10(k + shift - 2))
  {
    Pow10Add(shift, k);
    var p := Pow10(k + shift - 2);
    assert Pow10(shift) * Pow10(k) == 100 * p;
    Regroup(n, Pow10(shift), d, Pow10(k));
    Regroup(n, 100, d, p);
  }

  lemma Regroup(a: int, b: int, c: int, d: int)
    ensures (a * b) * (c * d) == (a * c) * (b * d)
  {
    MulSwap(a, b, c * d);
    MulSwap(b, c, d);
    MulSwap(a, c, b * d);
    assert b * (c * d) == c * (b * d);
    assert a * (c * (b * d)) == (a * c) * (b * d);
  }

  /** In its own finest unit the quotient is n * 10^shift / d rounded half-even. */
  lemma DivideValue(prec: Precision, n: Dec, d: Dec)
    requires d.coef > 0 && n.coef != 0 && prec >= Digits(n) + Digits(d) + 8
    ensures var shift := QuotientShift(prec, Abs(n.coef), d.coef);
      var r := Divide(Context(prec, HalfEven), n, d);
      && shift >= Digits(d) - Digits(n) + prec - 1 >= Digits(d) + 3
      && r.exp >= n.exp - d.exp - shift
      && At(r, n.exp - d.exp - shift) == HalfEvenOf(n.coef * Pow10(shift), d.coef)
  {
    var shift := QuotientShift(prec, Abs(n.coef), d.coef);
    assert shift >= Digits(d) + 3;
    var num, den, neg := Abs(n.coef) * Pow10(shift), d.coef, n.coef < 0;
    AbsMul(n.coef, Pow10(shift));
    MulStrict(if neg then n.coef else 0, if neg then 0 else n.coef, Pow10(shift));
    var q := RoundRatio(HalfEven, neg, num, den);
    HalfEvenComputes(n.coef * Pow10(shift), den);
    var e := n.exp - d.exp - shift;
    var r := Divide(Context(prec, HalfEven), n, d);
    if num % den == 0 {
      var (c, e') := Strip(q, e, n.exp - d.exp);
      assert (0 - c) * Pow10(e' - e) == -(c * Pow10(e' - e));
    } else if q == Pow10(prec) {
      assert At(r, e) == Signed(neg, Pow10(prec - 1)) * 10;
    }
  }
}
