/** How much coarser than its base a variance may be before its displayed percentage goes wrong. */
module CoarseVariances {
  import opened Numerals
  import opened Rounding
  import opened Decimals
  import opened Wrappers
  import opened VarianceArithmetic
  import opened VarianceReport

  // ----- a variance whose percentage lies just above a tie

  /** The base 99...9. */
  function LongBase(digits: nat): Dec { Dec(Pow10(digits) - 1, 0) }

  /** The place of the variance's low digit, five places short of a multiple of digits once its gap is added. */
  function LowPlace(digits: nat, gap: nat): nat
    requires digits > 0
  {
    (gap + 5) * (digits - 1)
  }

  function CoarseVariance(digits: nat, gap: nat): (v: Dec)
    requires digits > 0
    ensures v.coef > 0 && v.exp == gap
  {
    var low := LowPlace(digits, gap);
    MulMono(0, Pow10(digits) - 1, Pow10(low + 34));
    Dec((Pow10(digits) - 1) * Pow10(low + 34) + 5 * Pow10(low), gap)
  }

  /** 1 + 10^digits + ... + 10^(digits * (count - 1)) */
  function Repunit(digits: nat, count: nat): nat {
    if count == 0 then 0 else 1 + Pow10(digits) * Repunit(digits, count - 1)
  }

  lemma {:induction false} RepunitTimes(digits: nat, count: nat)
    ensures Repunit(digits, count) * (Pow10(digits) - 1) == Pow10(count * digits) - 1
  {
    if count > 0 {
      RepunitTimes(digits, count - 1);
      Pow10Add((count - 1) * digits, digits);
      assert (count - 1) * digits + digits == count * digits;
      NextRepunit(Pow10(digits), Repunit(digits, count - 1), Pow10((count - 1) * digits));
    }
  }

  lemma NextRepunit(p: int, r: int, q: int)
    requires r * (p - 1) == q - 1
    ensures (1 + p * r) * (p - 1) == q * p - 1
  {
    MulDistribute(1, p * r, p - 1);
    MulSwap(p, r, p - 1);
    MulDistribute(q, 1, p);
  }

  lemma RepunitMod(digits: nat, count: nat)
    requires digits >= 2 && count >= 1
    ensures Repunit(digits, count) % 4 == 1
  {
    var p, r := Pow10(digits - 2), Repunit(digits, count - 1);
    assert Pow10(digits) == 100 * p;
    MulSwap(100, p, r);
    assert Repunit(digits, count) == 1 + 4 * (25 * (p * r));
  }

  lemma EvenPower(k: nat)
    requires k > 0
    ensures Pow10(k) % 2 == 0
  {
    hide Pow10;
    NextPower(k - 1);
    ModOfMultiple(5 * Pow10(k - 1), 2);
  }

  /** The even number of hundredths that the true percentage exceeds by a half and a little. */
  function Tie(digits: nat, gap: nat): nat
    requires digits > 0
  {
    Pow10(LowPlace(digits, gap) + gap + 38) + Repunit(digits, gap + 5) / 2
  }

  lemma TieFacts(digits: nat, gap: nat)
    requires digits >= 2
    ensures Tie(digits, gap) % 2 == 0
    ensures 2 * Tie(digits, gap) + 1 == 2 * Pow10(LowPlace(digits, gap) + gap + 38) + Repunit(digits, gap + 5)
  {
    hide Pow10, Repunit, LowPlace;
    RepunitMod(digits, gap + 5);
    EvenPower(LowPlace(digits, gap) + gap + 38);
    HalfOfOdd(Pow10(LowPlace(digits, gap) + gap + 38), Repunit(digits, gap + 5));
  }

  lemma HalfOfOdd(h: nat, r: nat)
    requires h % 2 == 0 && r % 4 == 1
    ensures (h + r / 2) % 2 == 0 && 2 * (h + r / 2) + 1 == 2 * h + r
  {
  }

  /** The percentage in hundredths is the tie and 1 / (2 * base) more. */
  lemma JustAboveTie(digits: nat, gap: nat)
    requires digits >= 2
    ensures 2 * (CoarseVariance(digits, gap).coef * Pow10(gap + 4))
         == (2 * Tie(digits, gap) + 1) * LongBase(digits).coef + 1
  {
    hide Pow10, Tie, Repunit, LowPlace;
    var low, d, r := LowPlace(digits, gap), LongBase(digits).coef, Repunit(digits, gap + 5);
    var high := Pow10(low + gap + 38);
    TieFacts(digits, gap);
    RepunitTimes(digits, gap + 5);
    LowPlaceSum(digits, gap);
    Pow10Add(low + 34, gap + 4);
    Pow10Add(low, gap + 4);
    NextPower(low + gap + 4);
    MulDistribute(d * Pow10(low + 34), 5 * Pow10(low), Pow10(gap + 4));
    MulSwap(d, Pow10(low + 34), Pow10(gap + 4));
    MulSwap(5, Pow10(low), Pow10(gap + 4));
    MulDistribute(2 * high, r, d);
    MulSwap(2, d, high);
    assert 2 * high * d == 2 * (d * high);
  }

  lemma LowPlaceSum(digits: nat, gap: nat)
    requires digits > 0
    ensures LowPlace(digits, gap) + gap + 5 == (gap + 5) * digits
  {
    MulDistribute(digits, 1, gap + 5);
  }

  // ----- the working precision and the quotient

  lemma LongBaseDigits(digits: nat)
    requires digits > 0
    ensures LongBase(digits).coef > 0 && Digits(LongBase(digits)) == digits
  {
    assert Pow10(digits) == 10 * Pow10(digits - 1);
    DigitCountAtLeast(Pow10(digits) - 1, digits - 1);
    DigitCountAtMost(Pow10(digits) - 1, digits);
  }

  /** d * 10^s plus something below 10^s, times 100. */
  lemma CoarseDigits(digits: nat, d: nat, s: nat, rest: nat)
    requires digits > 0 && d == Pow10(digits) - 1 && rest < Pow10(s)
    ensures DigitCount((d * Pow10(s) + rest) * 100) == digits + s + 2
    ensures (d * Pow10(s) + rest) * 100 >= d * Pow10(s + 2)
  {
    hide Pow10, DigitCount;
    var c := d * Pow10(s) + rest;
    TenTimesLower(digits);
    MulMono(Pow10(digits - 1), d, Pow10(s));
    MulDistribute(d, 1, Pow10(s));
    Pow10Add(digits - 1, s);
    Pow10Add(digits, s);
    Hundredfold(s);
    Hundredfold(digits + s);
    Hundredfold(digits - 1 + s);
    MulSwap(d, Pow10(s), 100);
    DigitCountAtLeast(c * 100, digits + s + 1);
    DigitCountAtMost(c * 100, digits + s + 2);
  }

  lemma TenTimesLower(digits: nat)
    requires digits > 0
    ensures Pow10(digits) == 10 * Pow10(digits - 1)
  {
  }

  lemma Hundredfold(k: nat)
    ensures Pow10(k + 2) == Pow10(k) * 100
  {
  }

  lemma LowDigit(low: nat)
    ensures 5 * Pow10(low) < Pow10(low + 34)
  {
    Pow10Mono(low + 1, low + 34);
    assert Pow10(low + 1) == 10 * Pow10(low);
  }

  /** Digits of the quotient below the hundredths. */
  function Below(digits: nat, gap: nat): nat { if 7 >= 2 * digits + 5 - gap then 7 else 2 * digits + 5 - gap }

  lemma CoarsePrecision(digits: nat, gap: nat)
    requires digits > 0
    ensures var n, d := Dec(CoarseVariance(digits, gap).coef * 100, gap), LongBase(digits);
      var prec := PercentagePrecision(n, d);
      && n.coef > 0 && d.coef > 0
      && prec == LowPlace(digits, gap) + 39 + gap + Below(digits, gap)
      && QuotientShift(prec, n.coef, d.coef) == gap + 2 + Below(digits, gap)
  {
    hide Pow10, DigitCount, LowPlace;
    var low, d := LowPlace(digits, gap), LongBase(digits);
    var n := Dec(CoarseVariance(digits, gap).coef * 100, gap);
    LongBaseDigits(digits);
    LowDigit(low);
    CoarseDigits(digits, d.coef, low + 34, 5 * Pow10(low));
    var prec := PercentagePrecision(n, d);
    assert prec == low + 39 + gap + Below(digits, gap);
    FullQuotient(n.coef, d.coef, prec, low + 36);
  }

  lemma FullQuotient(n: nat, d: nat, prec: Precision, s: nat)
    requires d > 0 && prec >= s && n >= d * Pow10(s) && DigitCount(n) == DigitCount(d) + s
    ensures n > 0
    ensures QuotientShift(prec, n, d) == prec - s - 1
  {
    hide Pow10, DigitCount;
    MulStrict(0, d, Pow10(s));
    Pow10Add(s, prec - s);
    MulMono(d * Pow10(s), n, Pow10(prec - s));
    MulSwap(d, Pow10(s), Pow10(prec - s));
    assert n * Pow10(prec - s) >= Pow10(prec) * d;
  }

  /** The quotient rounds onto the tie, and the tie to its even neighbour. */
  lemma RoundsOntoTie(x: nat, d: nat, e: nat, z: nat)
    requires 2 * x == (2 * e + 1) * d + 1 && e % 2 == 0 && z >= 1 && Pow10(z) < d
    ensures HalfEvenOf(HalfEvenOf(x * Pow10(z), d), Pow10(z)) == e
    ensures HalfEvenOf(x, d) == e + 1
  {
    hide Pow10;
    NextPower(z - 1);
    var w := 5 * Pow10(z - 1);
    var q := (2 * e + 1) * w;
    TieArithmetic(x, d, e, w);
    NearestUnique(HalfEvenOf(x * Pow10(z), d), q, x * Pow10(z), d);
    NearestUnique(HalfEvenOf(q, Pow10(z)), e, q, Pow10(z));
    NearestUnique(HalfEvenOf(x, d), e + 1, x, d);
  }

  lemma TieArithmetic(x: nat, d: nat, e: nat, w: nat)
    requires 2 * x == (2 * e + 1) * d + 1
    ensures x * (2 * w) == (2 * e + 1) * w * d + w
    ensures (2 * e + 1) * w == e * (2 * w) + w
    ensures 2 * ((e + 1) * d) == 2 * x + d - 1
  {
    MulSwap(x, 2, w);
    assert x * (2 * w) == (2 * x) * w;
    MulDistribute((2 * e + 1) * d, 1, w);
    MulSwap(2 * e + 1, d, w);
    MulDistribute(2 * e, 1, w);
    MulSwap(e, 2, w);
    assert e * (2 * w) == (2 * e) * w;
    MulDistribute(2 * e + 1, 1, d);
    MulSwap(2, e + 1, d);
  }

  lemma SmallGrid(digits: nat, gap: nat)
    requires digits >= 8 && gap >= digits + 6
    ensures Pow10(Below(digits, gap)) < LongBase(digits).coef
  {
    Pow10Mono(Below(digits, gap), digits - 1);
    assert Pow10(digits) == 10 * Pow10(digits - 1);
    assert Pow10(digits - 1) == 10 * Pow10(digits - 2);
  }

  // ----- the exact condition

  /** A base of at least eight digits and a variance at least six places coarser than all of them:
      the percentage is displayed a hundredth too low, although abs() keeps the base. */
  lemma CoarseVarianceMisrounded(ambient: Context, digits: nat, gap: nat)
    requires 8 <= digits <= ambient.prec && gap >= digits + 6
    ensures Digits(LongBase(digits)) == digits && Lossless(ambient, LongBase(digits))
    ensures LongBase(digits).coef > 0
    ensures PercentageForReport(ambient, CoarseVariance(digits, gap), LongBase(digits)) == Some(Dec(Tie(digits, gap), -2))
    ensures RoundedOnce(CoarseVariance(digits, gap), LongBase(digits)) == Dec(Tie(digits, gap) + 1, -2)
  {
    hide Pow10, DigitCount, Tie, CoarseVariance, Hundredths, Divide, PercentagePrecision, Below,
      PercentageForReport, RoundedOnce, LongBase;
    var d, v, e, z := LongBase(digits), CoarseVariance(digits, gap), Tie(digits, gap), Below(digits, gap);
    LongBaseDigits(digits);
    assert d.exp == 0 by { BaseIsWhole(digits); }
    ReportOfKept(ambient, v, d);
    CoarseQuotient(digits, gap);
    var x := v.coef * Pow10(gap + 4);
    JustAboveTie(digits, gap);
    TieFacts(digits, gap);
    SmallGrid(digits, gap);
    BelowPositive(digits, gap);
    RoundsOntoTie(x, d.coef, e, z);
    CoarseReference(v, d, gap);
  }

  lemma BaseIsWhole(digits: nat)
    ensures LongBase(digits).exp == 0
  {
  }

  lemma ReportOfKept(ambient: Context, v: Dec, d: Dec)
    requires d.coef > 0 && Digits(d) <= ambient.prec
    ensures Lossless(ambient, d)
    ensures var n := Dec(v.coef * 100, v.exp);
      PercentageForReport(ambient, v, d)
        == Some(Dec(Hundredths(Divide(Context(PercentagePrecision(n, d), HalfEven), n, d)), -2))
  {
    hide PercentagePrecision, Divide, Hundredths, DigitCount;
    assert Magnitude(d) == d && AbsIn(ambient, d) == d;
  }

  lemma BelowPositive(digits: nat, gap: nat)
    ensures Below(digits, gap) >= 1
  {
  }

  lemma CoarseReference(v: Dec, d: Dec, gap: nat)
    requires v.exp == gap && d.exp == 0 && d.coef > 0
    ensures RoundedOnce(v, d) == Dec(HalfEvenOf(v.coef * Pow10(gap + 4), d.coef), -2)
  {
    assert Pow10(0) == 1 && Pow10(4) == 10000;
    Pow10Add(gap, 4);
    MulSwap(v.coef, Pow10(gap), 10000);
  }

  lemma CoarseQuotient(digits: nat, gap: nat)
    requires digits > 0
    ensures LongBase(digits).coef > 0
    ensures var v, d, z := CoarseVariance(digits, gap), LongBase(digits), Below(digits, gap);
      var n := Dec(v.coef * 100, gap);
      Hundredths(Divide(Context(PercentagePrecision(n, d), HalfEven), n, d))
        == HalfEvenOf(HalfEvenOf(v.coef * Pow10(gap + 4) * Pow10(z), d.coef), Pow10(z))
  {
    hide Pow10, DigitCount, CoarseVariance, Hundredths, Divide, PercentagePrecision, QuotientShift, Below;
    var v, d, z := CoarseVariance(digits, gap), LongBase(digits), Below(digits, gap);
    var n := Dec(v.coef * 100, gap);
    CoarsePrecision(digits, gap);
    DivideValue(PercentagePrecision(n, d), n, d);
    var unit := 0 - (z + 2) as int;
    HundredthsAt(Divide(Context(PercentagePrecision(n, d), HalfEven), n, d), unit);
    Pow10Add(gap + 4, z);
    Pow10Add(2, gap + 2 + z);
    Hundred();
    MulSwap(v.coef, 100, Pow10(gap + 2 + z));
    MulSwap(v.coef, Pow10(gap + 4), Pow10(z));
  }

  lemma Hundred()
    ensures Pow10(2) == 100
  {
  }

  /** For bases of a given number of digits, all within the ambient precision, and variances of a given gap
      in exponent: every displayed percentage is the true one rounded once
      exactly when the base has at most seven digits or the gap exceeds its digits by at most five. */
  lemma CoarseExactIff(ambient: Context, digits: nat, gap: int)
    requires 1 <= digits <= ambient.prec
    ensures (forall v: Dec, previous: Dec
              | previous.coef != 0 && Digits(previous) == digits && v.exp - previous.exp == gap ::
              PercentageForReport(ambient, v, previous) == Some(RoundedOnce(v, previous)))
       <==> (digits <= 7 || gap <= digits + 5)
  {
    hide PercentageForReport, RoundedOnce, Digits;
    if digits <= 7 || gap <= digits + 5 {
      forall v: Dec, previous: Dec | previous.coef != 0 && Digits(previous) == digits && v.exp - previous.exp == gap
        ensures PercentageForReport(ambient, v, previous) == Some(RoundedOnce(v, previous))
      {
        PercentageRoundsOnce(ambient, v, previous);
      }
    } else {
      CoarseVarianceMisrounded(ambient, digits, gap);
      var v, previous := CoarseVariance(digits, gap), LongBase(digits);
      assert v.exp - previous.exp == gap;
      assert PercentageForReport(ambient, v, previous) != Some(RoundedOnce(v, previous));
    }
  }
}
