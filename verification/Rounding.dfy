/** Rounding of integer ratios: the rounding step of every decimal context operation. */
module Rounding {
  import opened Numerals

  /** The eight rounding modes of the General Decimal Arithmetic Specification. */
  datatype Mode = Down | Up | HalfUp | HalfDown | HalfEven | Ceiling | Floor | ZeroFiveUp

  /** Whether a magnitude q + r/den, with 0 <= r < den, is rounded away from zero. */
  predicate Away(mode: Mode, neg: bool, q: nat, r: nat, den: nat) {
    match mode
    case Down => false
    case Up => r > 0
    case HalfUp => 2 * r >= den
    case HalfDown => 2 * r > den
    case HalfEven => 2 * r > den || (2 * r == den && q % 2 == 1)
    case Ceiling => r > 0 && !neg
    case Floor => r > 0 && neg
    case ZeroFiveUp => r > 0 && q % 5 == 0
  }

  /** The magnitude num/den rounded to an integer. */
  function RoundRatio(mode: Mode, neg: bool, num: nat, den: nat): nat
    requires den > 0
  {
    var q, r := num / den, num % den;
    q + if Away(mode, neg, q, r, den) then 1 else 0
  }

  function Abs(x: int): nat { if x < 0 then -x else x }

  function Signed(neg: bool, mag: nat): int { if neg then 0 - mag else mag }

  /** The signed ratio num/den rounded to an integer, magnitude first, sign restored. */
  function RoundSigned(mode: Mode, num: int, den: nat): int
    requires den > 0
  {
    Signed(num < 0, RoundRatio(mode, num < 0, Abs(num), den))
  }

  /** Independent reading of "nearest integer to num/den, ties to even". */
  predicate Nearest(q: int, num: int, den: nat)
    requires den > 0
  {
    && 2 * Abs(num - q * den) <= den
    && (2 * Abs(num - q * den) == den ==> q % 2 == 0)
  }

  /** The integer nearest to num/den, ties to even. */
  ghost function HalfEvenOf(num: int, den: nat): (q: int)
    requires den > 0
    ensures Nearest(q, num, den)
  {
    HalfEvenIsNearest(num, den);
    var q :| Nearest(q, num, den);
    q
  }

  lemma HalfEvenIsNearest(num: int, den: nat)
    requires den > 0
    ensures Nearest(RoundSigned(HalfEven, num, den), num, den)
  {
    var mag := Abs(num);
    var q, r := mag / den, mag % den;
    assert mag == q * den + r;
    assert (q + 1) * den == q * den + den;
    assert (-q) * den == -(q * den) && (-(q + 1)) * den == -(q * den) - den;
  }

  lemma NearestUnique(q: int, p: int, num: int, den: nat)
    requires den > 0 && Nearest(q, num, den) && Nearest(p, num, den)
    ensures q == p
  {
    if q < p {
      NearestOrdered(q, p, num, den);
    } else if p < q {
      NearestOrdered(p, q, num, den);
    }
  }

  lemma NearestOrdered(q: int, p: int, num: int, den: nat)
    requires den > 0 && Nearest(q, num, den) && Nearest(p, num, den)
    ensures !(q < p)
  {
    if q < p {
      assert p * den - q * den == (p - q) * den;
      MulMono(1, p - q, den);
      if p - q >= 2 { MulMono(2, p - q, den); }
    }
  }

  /** Two ratios on the wrong sides of w that are still ordered both equal w. */
  lemma Squeeze(w: int, num: int, den: nat, num': int, den': nat)
    requires den > 0 && den' > 0
    requires w * den <= num && num' <= w * den' && num * den' <= num' * den
    ensures num == w * den && num' == w * den'
  {
    MulMono(w * den, num, den');
    MulMono(num', w * den', den);
    MulSwap(w, den, den');
    MulCancel(num, w * den, den');
    MulCancel(num', w * den', den);
  }

  /** What rounds above p lies at or above the middle of p and p + 1; on the middle it rounds to the even p + 1. */
  lemma AboveMiddle(q: int, num: int, den: nat, p: int)
    requires den > 0 && Nearest(q, num, den) && p < q
    ensures (2 * p + 1) * den <= 2 * num
    ensures (2 * p + 1) * den == 2 * num ==> p % 2 == 1
  {
    MulDistribute(2 * p, 1, den);
    MulSwap(2, p, den);
    MulDistribute(p, 1, den);
    MulDistribute(p, 2, den);
    MulMono(p + 1, q, den);
    if q >= p + 2 { MulMono(p + 2, q, den); }
  }

  lemma BelowMiddle(p: int, num: int, den: nat)
    requires den > 0 && Nearest(p, num, den)
    ensures 2 * num <= (2 * p + 1) * den
    ensures 2 * num == (2 * p + 1) * den ==> p % 2 == 0
  {
    MulDistribute(2 * p, 1, den);
    MulSwap(2, p, den);
  }

  /** Nearest integers follow the order of the ratios. */
  lemma NearestMono(q: int, num: int, den: nat, p: int, num': int, den': nat)
    requires den > 0 && den' > 0 && Nearest(q, num, den) && Nearest(p, num', den')
    requires num * den' <= num' * den
    ensures q <= p
  {
    if p < q {
      MulSwap(2, num, den');
      MulSwap(2, num', den);
      AboveMiddle(q, num, den, p);
      BelowMiddle(p, num', den');
      Squeeze(2 * p + 1, 2 * num, den, 2 * num', den');
    }
  }

  /** What each mode does, in the words of the specification; over is how far the magnitude was moved up. */
  lemma ModesMean(mode: Mode, num: int, den: nat)
    requires den > 0
    ensures var q := RoundSigned(mode, num, den);
      var over := Abs(q) * den - Abs(num);
      && (q > 0 ==> num > 0) && (q < 0 ==> num < 0)
      && Abs(over) < den
      && (mode == Down ==> over <= 0)
      && (mode == Up ==> over >= 0)
      && (mode == Floor ==> if num < 0 then over >= 0 else over <= 0)
      && (mode == Ceiling ==> if num < 0 then over <= 0 else over >= 0)
      && (mode in {HalfUp, HalfDown, HalfEven} ==> 2 * Abs(over) <= den)
      && (mode == HalfUp && 2 * Abs(over) == den ==> over > 0)
      && (mode == HalfDown && 2 * Abs(over) == den ==> over < 0)
      && (mode == HalfEven && 2 * Abs(over) == den ==> q % 2 == 0)
      && (mode == ZeroFiveUp ==> if (Abs(num) / den) % 5 == 0 then over >= 0 else over <= 0)
  {
    hide RoundRatio, Away;
    RatioMoved(mode, num < 0, Abs(num), den);
    var f, r := Abs(num) / den, Abs(num) % den;
    assert Abs(RoundSigned(mode, num, den)) == RoundRatio(mode, num < 0, Abs(num), den);
    DirectedModes(mode, num < 0, f, r, den);
    if mode in {HalfUp, HalfDown, HalfEven} { NearestModes(mode, num < 0, f, r, den); }
  }

  lemma DirectedModes(mode: Mode, neg: bool, f: nat, r: nat, den: nat)
    requires r < den
    ensures mode == Down ==> !Away(mode, neg, f, r, den)
    ensures mode == Up ==> (Away(mode, neg, f, r, den) <==> r > 0)
    ensures mode == Floor ==> (Away(mode, neg, f, r, den) <==> neg && r > 0)
    ensures mode == Ceiling ==> (Away(mode, neg, f, r, den) <==> !neg && r > 0)
    ensures mode == ZeroFiveUp ==> (Away(mode, neg, f, r, den) <==> f % 5 == 0 && r > 0)
    ensures Away(mode, neg, f, r, den) ==> r > 0
  {
  }

  lemma NearestModes(mode: Mode, neg: bool, f: nat, r: nat, den: nat)
    requires r < den && mode in {HalfUp, HalfDown, HalfEven}
    ensures 2 * r > den ==> Away(mode, neg, f, r, den)
    ensures 2 * r < den ==> !Away(mode, neg, f, r, den)
    ensures 2 * r == den ==> (Away(mode, neg, f, r, den) <==> mode == HalfUp || (mode == HalfEven && f % 2 == 1))
  {
  }

  lemma RatioMoved(mode: Mode, neg: bool, num: nat, den: nat)
    requires den > 0
    ensures var f, r := num / den, num % den;
      var away := Away(mode, neg, f, r, den);
      && 0 <= r < den
      && RoundRatio(mode, neg, num, den) == (if away then f + 1 else f)
      && RoundRatio(mode, neg, num, den) * den - num == (if away then den - r else -r)
      && (num == 0 ==> f == 0 && r == 0)
  {
    var f, r := num / den, num % den;
    assert num == f * den + r;
    MulDistribute(f, 1, den);
  }

  /** Rounding in half-even mode computes that integer. */
  lemma HalfEvenComputes(num: int, den: nat)
    requires den > 0
    ensures RoundSigned(HalfEven, num, den) == HalfEvenOf(num, den)
  {
    HalfEvenIsNearest(num, den);
    NearestUnique(RoundSigned(HalfEven, num, den), HalfEvenOf(num, den), num, den);
  }

  /** The rounded integer depends on the ratio only, not on how it is written. */
  lemma HalfEvenSameRatio(num: int, den: nat, num': int, den': nat)
    requires den > 0 && den' > 0 && num * den' == num' * den
    ensures HalfEvenOf(num, den) == HalfEvenOf(num', den')
  {
    NearestMono(HalfEvenOf(num, den), num, den, HalfEvenOf(num', den'), num', den');
    NearestMono(HalfEvenOf(num', den'), num', den', HalfEvenOf(num, den), num, den);
  }

  lemma HalfEvenMono(num: int, den: nat, num': int, den': nat)
    requires den > 0 && den' > 0 && num * den' <= num' * den
    ensures HalfEvenOf(num, den) <= HalfEvenOf(num', den')
  {
    NearestMono(HalfEvenOf(num, den), num, den, HalfEvenOf(num', den'), num', den');
  }

  lemma HalfEvenOdd(num: int, den: nat)
    requires den > 0
    ensures HalfEvenOf(-num, den) == -HalfEvenOf(num, den)
  {
    var q := HalfEvenOf(num, den);
    assert (-q) * den == -(q * den);
    assert Nearest(-q, -num, den);
    NearestUnique(-q, HalfEvenOf(-num, den), -num, den);
  }

  /** Rounding picks one of the two neighbours, and is exact only on whole ratios. */
  lemma RoundRatioNeighbours(mode: Mode, neg: bool, num: nat, den: nat)
    requires den > 0
    ensures var q := RoundRatio(mode, neg, num, den);
      && (q == num / den || q == num / den + 1)
      && (q * den == num <==> num % den == 0)
  {
    var q := RoundRatio(mode, neg, num, den);
    var f := num / den;
    assert num == f * den + num % den;
    assert (f + 1) * den == f * den + den;
  }
}
