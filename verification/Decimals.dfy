/** Decimal numbers and the context operations of the General Decimal Arithmetic Specification. */
module Decimals {
  import opened Numerals
  import opened Rounding
  import opened Wrappers

  /** The number coef * 10^exp; the coefficient carries the sign. */
  datatype Dec = Dec(coef: int, exp: int)

  type Precision = n: nat | n >= 1 witness 1

  datatype Context = Context(prec: Precision, mode: Mode)

  function Min(a: int, b: int): int { if a <= b then a else b }

  function Max(a: int, b: int): int { if a >= b then a else b }

  function Digits(d: Dec): (n: nat)
    ensures n >= 1
  {
    DigitCount(Abs(d.coef))
  }

  /** Exponent of the leading digit. */
  function Adjusted(d: Dec): int { d.exp + Digits(d) - 1 }

  /** The value of d counted in units of 10^m. */
  function At(d: Dec, m: int): int
    requires m <= d.exp
  {
    d.coef * Pow10(d.exp - m)
  }

  predicate SameValue(a: Dec, b: Dec) {
    var m := Min(a.exp, b.exp);
    At(a, m) == At(b, m)
  }

  /** Numeric order; comparisons are exact, whatever the context. */
  predicate LessEq(a: Dec, b: Dec) {
    var m := Min(a.exp, b.exp);
    At(a, m) <= At(b, m)
  }

  function Magnitude(d: Dec): Dec { Dec(Abs(d.coef), d.exp) }

  /** Round a result to the precision of the context. */
  function RoundTo(ctx: Context, d: Dec): (r: Dec)
    ensures Digits(d) <= ctx.prec ==> r == d
  {
    var n := Digits(d);
    if n <= ctx.prec then d
    else
      var k := n - ctx.prec;
      var q := RoundRatio(ctx.mode, d.coef < 0, Abs(d.coef), Pow10(k));
      if q == Pow10(ctx.prec) then Dec(Signed(d.coef < 0, Pow10(ctx.prec - 1)), d.exp + k + 1)
      else Dec(Signed(d.coef < 0, q), d.exp + k)
  }

  function Difference(l: Dec, r: Dec): Dec {
    var m := Min(l.exp, r.exp);
    Dec(At(l, m) - At(r, m), m)
  }

  function Product(l: Dec, r: Dec): Dec { Dec(l.coef * r.coef, l.exp + r.exp) }

  function Subtract(ctx: Context, l: Dec, r: Dec): Dec { RoundTo(ctx, Difference(l, r)) }

  function Multiply(ctx: Context, l: Dec, r: Dec): Dec { RoundTo(ctx, Product(l, r)) }

  function AbsIn(ctx: Context, d: Dec): Dec { RoundTo(ctx, Magnitude(d)) }

  /** Scaling that leaves exactly prec integer digits in the quotient num * 10^shift / den. */
  function QuotientShift(prec: Precision, num: nat, den: nat): int
    requires num > 0 && den > 0
  {
    var shift := DigitCount(den) - DigitCount(num) + prec;
    var (n, d) := Scaled(num, den, shift);
    if n >= Pow10(prec) * d then shift - 1 else shift
  }

  function Scaled(num: nat, den: nat, shift: int): (r: (nat, nat))
    requires den > 0
    ensures r.1 > 0
  {
    if shift >= 0 then (num * Pow10(shift), den) else (num, den * Pow10(-shift))
  }

  /** Drop trailing zeros while the exponent is below the ideal one. */
  function Strip(q: nat, e: int, ideal: int): (r: (nat, int))
    ensures r.1 >= e
    ensures q == r.0 * Pow10(r.1 - e)
    decreases ideal - e
  {
    if e < ideal && q % 10 == 0 then
      var r := Strip(q / 10, e + 1, ideal);
      assert q == r.0 * Pow10(r.1 - e) by {
        assert Pow10(r.1 - e) == 10 * Pow10(r.1 - e - 1);
        assert r.0 * Pow10(r.1 - e) == 10 * (r.0 * Pow10(r.1 - e - 1));
      }
      r
    else (q, e)
  }

  function Divide(ctx: Context, n: Dec, d: Dec): Dec
    requires d.coef != 0
  {
    var ideal := n.exp - d.exp;
    if n.coef == 0 then Dec(0, ideal)
    else
      var shift := QuotientShift(ctx.prec, Abs(n.coef), Abs(d.coef));
      var (num, den) := Scaled(Abs(n.coef), Abs(d.coef), shift);
      var neg := (n.coef < 0) != (d.coef < 0);
      var q := RoundRatio(ctx.mode, neg, num, den);
      if num % den == 0 then
        var (c, e) := Strip(q, ideal - shift, ideal);
        Dec(Signed(neg, c), e)
      else if q == Pow10(ctx.prec) then Dec(Signed(neg, Pow10(ctx.prec - 1)), ideal - shift + 1)
      else Dec(Signed(neg, q), ideal - shift)
  }

  /** Rescale to a fixed exponent; None is the InvalidOperation signal. */
  function Quantize(ctx: Context, v: Dec, exp: int): Option<Dec> {
    if v.coef == 0 then Some(Dec(0, exp))
    else if Adjusted(v) - exp + 1 > ctx.prec then None
    else
      var c := if v.exp >= exp then At(v, exp) else RoundSigned(ctx.mode, v.coef, Pow10(exp - v.exp));
      if DigitCount(Abs(c)) > ctx.prec then None else Some(Dec(c, exp))
  }

  // ----- values

  lemma AtFiner(d: Dec, m: int, k: nat)
    requires m <= d.exp
    ensures At(d, m - k) == At(d, m) * Pow10(k)
  {
    Pow10Add(d.exp - m, k);
    MulSwap(d.coef, Pow10(d.exp - m), Pow10(k));
  }

  /** Two decimals compare alike in any unit fine enough for both. */
  lemma CompareAt(a: Dec, b: Dec, m: int)
    requires m <= a.exp && m <= b.exp
    ensures SameValue(a, b) <==> At(a, m) == At(b, m)
    ensures LessEq(a, b) <==> At(a, m) <= At(b, m)
  {
    var c := Min(a.exp, b.exp);
    var k := c - m;
    AtFiner(a, c, k);
    AtFiner(b, c, k);
    if At(a, c) < At(b, c) { MulStrict(At(a, c), At(b, c), Pow10(k)); }
    if At(b, c) < At(a, c) { MulStrict(At(b, c), At(a, c), Pow10(k)); }
  }

  lemma AbsMul(x: int, y: nat)
    ensures Abs(x * y) == Abs(x) * y
  {
    if x >= 0 { MulMono(0, x, y); } else { MulMono(x, 0, y); }
  }

  /** The magnitude in units of 10^m has no more than Adjusted(d) + 1 - m digits. */
  lemma AtBound(d: Dec, m: int)
    requires m <= d.exp
    ensures Adjusted(d) + 1 - m >= 1
    ensures Abs(At(d, m)) < Pow10(Adjusted(d) + 1 - m)
  {
    var n, k := Digits(d), d.exp - m;
    Pow10Add(n, k);
    MulStrict(Abs(d.coef), Pow10(n), Pow10(k));
    AbsMul(d.coef, Pow10(k));
  }

  // ----- rounding to the context

  /** The coefficient survives rounding to the context unchanged. */
  predicate Lossless(ctx: Context, d: Dec) {
    Digits(d) <= ctx.prec || Abs(d.coef) % Pow10(Digits(d) - ctx.prec) == 0
  }

  /** Rounding a long coefficient: the result in the operand's own unit. */
  lemma RoundToLong(ctx: Context, d: Dec)
    requires Digits(d) > ctx.prec && d.coef >= 0
    ensures var k := Digits(d) - ctx.prec;
      var q := RoundRatio(ctx.mode, false, d.coef, Pow10(k));
      && RoundTo(ctx, d).exp >= d.exp
      && RoundTo(ctx, d).coef > 0
      && At(RoundTo(ctx, d), d.exp) == q * Pow10(k)
  {
    var k := Digits(d) - ctx.prec;
    var q := RoundRatio(ctx.mode, false, d.coef, Pow10(k));
    RoundRatioNeighbours(ctx.mode, false, d.coef, Pow10(k));
    if q == Pow10(ctx.prec) {
      Pow10Add(ctx.prec - 1, k + 1);
      Pow10Add(ctx.prec, k);
    } else if d.coef / Pow10(k) == 0 {
      Pow10Mono(k, Digits(d) - 1);
    }
  }

  /** A context operation that rounds: the result fits the precision and is the operand rounded, by the mode
      of the context, to a whole number of its last kept place. */
  lemma RoundToMeans(ctx: Context, d: Dec)
    requires Digits(d) > ctx.prec
    ensures var k := Digits(d) - ctx.prec;
      && Digits(RoundTo(ctx, d)) <= ctx.prec
      && RoundTo(ctx, d).exp >= d.exp
      && At(RoundTo(ctx, d), d.exp) == RoundSigned(ctx.mode, d.coef, Pow10(k)) * Pow10(k)
  {
    hide RoundRatio, Pow10, DigitCount;
    var k := Digits(d) - ctx.prec;
    var q := RoundRatio(ctx.mode, d.coef < 0, Abs(d.coef), Pow10(k));
    KeptDigitsFit(ctx.mode, d.coef < 0, Abs(d.coef), ctx.prec, k);
    MulNegate(q, Pow10(k));
    MulNegate(Pow10(ctx.prec - 1), Pow10(k + 1));
    assert Digits(Dec(Signed(d.coef < 0, q), d.exp + k)) == DigitCount(q);
    assert Digits(Dec(Signed(d.coef < 0, Pow10(ctx.prec - 1)), d.exp + k + 1)) == DigitCount(Pow10(ctx.prec - 1));
  }

  lemma KeptDigitsFit(mode: Mode, neg: bool, c: nat, prec: Precision, k: nat)
    requires DigitCount(c) == prec + k
    ensures var q := RoundRatio(mode, neg, c, Pow10(k));
      && (q != Pow10(prec) ==> DigitCount(q) <= prec)
      && (q == Pow10(prec) ==> q * Pow10(k) == Pow10(prec - 1) * Pow10(k + 1))
      && DigitCount(Pow10(prec - 1)) <= prec
  {
    hide RoundRatio, Away;
    var den := Pow10(k);
    var q := RoundRatio(mode, neg, c, den);
    RoundRatioNeighbours(mode, neg, c, den);
    Pow10Add(prec, k);
    QuotientBelow(c, den, Pow10(prec));
    Pow10Add(prec - 1, k + 1);
    if q != Pow10(prec) { DigitCountAtMost(q, prec); }
    assert Pow10(prec) == 10 * Pow10(prec - 1);
    DigitCountAtMost(Pow10(prec - 1), prec);
  }

  lemma QuotientBelow(c: nat, den: nat, bound: nat)
    requires den > 0 && c < bound * den
    ensures c / den < bound
  {
    assert c == (c / den) * den + c % den;
    if c / den >= bound { MulMono(bound, c / den, den); }
  }

  /** abs() in a context keeps the value exactly when the operand is lossless there. */
  lemma AbsInValue(ctx: Context, d: Dec)
    ensures AbsIn(ctx, d).exp >= d.exp && AbsIn(ctx, d).coef >= 0
    ensures AbsIn(ctx, d).coef == 0 <==> d.coef == 0
    ensures Lossless(ctx, d) <==> SameValue(AbsIn(ctx, d), Magnitude(d))
  {
    var v := Magnitude(d);
    if Digits(v) > ctx.prec {
      RoundToLong(ctx, v);
      RoundRatioNeighbours(ctx.mode, false, v.coef, Pow10(Digits(v) - ctx.prec));
    }
    CompareAt(AbsIn(ctx, d), v, d.exp);
  }
}
