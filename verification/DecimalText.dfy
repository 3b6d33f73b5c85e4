/** Canonical plain text of decimals, and a reader of plain decimal text. */
module DecimalText {
  import opened Numerals
  import opened Rounding
  import opened Decimals
  import opened Wrappers
  import opened Texts

  /** Trailing zeros of the coefficient moved into the exponent. */
  function Normal(d: Dec): (r: Dec)
    ensures r.coef == 0 || r.coef % 10 != 0
    ensures r.exp >= d.exp || d.coef == 0
    ensures r.coef == 0 <==> d.coef == 0
    ensures r.coef < 0 <==> d.coef < 0
    decreases Abs(d.coef)
  {
    if d.coef == 0 then Dec(0, 0)
    else if d.coef % 10 == 0 then Normal(Dec(d.coef / 10, d.exp + 1))
    else d
  }

  function Zeros(n: nat): (s: string)
    ensures |s| == n && AllDigits(s)
    ensures forall i :: 0 <= i < n ==> s[i] == '0'
  {
    seq(n, _ => '0')
  }

  /** Plain text of digits with the decimal point placed for the exponent. */
  function Placed(digits: string, exp: int): string
  {
    if exp >= 0 then digits + Zeros(exp)
    else
      var point := |digits| + exp;
      if point > 0 then digits[..point] + ("." + digits[point..])
      else "0." + (Zeros(-point) + digits)
  }

  /** One plain text per value: no exponent, no trailing fraction zeros, no sign on zero. */
  function CanonicalText(d: Dec): string {
    var n := Normal(d);
    if n.coef == 0 then "0"
    else (if n.coef < 0 then "-" else "") + Placed(DigitText(Abs(n.coef)), n.exp)
  }

  // ----- reading

  /** Digits with at most one point, at least one digit. */
  function ReadUnsigned(s: string): Option<Dec> {
    var p := Find(s, '.');
    if p >= |s| then (if s != [] && AllDigits(s) then Some(Dec(ReadDigits(s), 0)) else None)
    else
      var whole, part := s[..p], s[p + 1..];
      if AllDigits(whole) && AllDigits(part) && |whole| + |part| > 0
      then Some(Dec(ReadDigits(whole + part), -|part|)) else None
  }

  function ReadPlain(s: string): Option<Dec> {
    if s != [] && s[0] == '-' then
      var r := ReadUnsigned(s[1..]);
      if r.Some? then Some(Dec(-r.value.coef, r.value.exp)) else None
    else ReadUnsigned(s)
  }

  // ----- values of digit texts

  lemma {:induction false} ReadConcat(a: string, b: string)
    requires AllDigits(a) && AllDigits(b)
    ensures AllDigits(a + b)
    ensures ReadDigits(a + b) == ReadDigits(a) * Pow10(|b|) + ReadDigits(b)
  {
    if b == [] {
      assert a + b == a;
    } else {
      var n := |b| - 1;
      assert (a + b)[..|a + b| - 1] == a + b[..n];
      ReadConcat(a, b[..n]);
      MulSwap(ReadDigits(a), 10, Pow10(n));
      assert Pow10(|b|) == 10 * Pow10(n);
    }
  }

  lemma {:induction false} ReadZeros(n: nat)
    ensures ReadDigits(Zeros(n)) == 0
  {
    if n > 0 {
      assert Zeros(n)[..n - 1] == Zeros(n - 1);
      ReadZeros(n - 1);
    }
  }

  lemma PointAfterDigits(a: string, rest: string)
    requires AllDigits(a) && (rest == [] || rest[0] == '.')
    ensures Find(a + rest, '.') == |a|
  {
    var s := a + rest;
    assert forall i :: 0 <= i < |a| ==> s[i] == a[i];
    assert rest != [] ==> s[|a|] == '.';
  }

  lemma ReadPointed(whole: string, part: string)
    requires AllDigits(whole) && AllDigits(part) && |whole| + |part| > 0
    ensures ReadUnsigned(whole + ("." + part)) == Some(Dec(ReadDigits(whole + part), -|part|))
  {
    hide ReadDigits, Find, AllDigits;
    var s := whole + ("." + part);
    PointAfterDigits(whole, "." + part);
    assert |s| == |whole| + 1 + |part|;
    assert s[..|whole|] == whole && s[|whole| + 1..] == part;
  }

  /** Nothing but digits with at most one point is read as an unsigned number. */
  lemma ReadUnsignedOnly(s: string)
    requires ReadUnsigned(s).Some?
    ensures exists whole, part ::
      && AllDigits(whole) && AllDigits(part) && |whole| + |part| > 0
      && ((s == whole && part == []) || s == whole + ("." + part))
  {
    var p := Find(s, '.');
    var whole, part := s[..p], if p < |s| then s[p + 1..] else [];
    assert s == if p < |s| then whole + ("." + part) else whole;
  }

  lemma LeadingZeros(a: string, b: string)
    requires AllDigits(a) && AllDigits(b) && ReadDigits(a) == 0
    ensures AllDigits(a + b) && ReadDigits(a + b) == ReadDigits(b)
  {
    ReadConcat(a, b);
  }

  lemma ReadWhole(digits: string, n: nat)
    requires digits != [] && AllDigits(digits)
    ensures ReadUnsigned(digits + Zeros(n)) == Some(Dec(ReadDigits(digits) * Pow10(n), 0))
  {
    hide ReadUnsigned, ReadDigits;
    ReadZeros(n);
    ReadConcat(digits, Zeros(n));
    ReadNoPoint(digits + Zeros(n));
  }

  lemma ReadNoPoint(s: string)
    requires s != [] && AllDigits(s)
    ensures ReadUnsigned(s) == Some(Dec(ReadDigits(s), 0))
  {
    PointAfterDigits(s, []);
    assert s + [] == s;
  }

  /** Reading placed digits gives the number they stand for. */
  lemma ReadPlaced(digits: string, exp: int)
    requires digits != [] && AllDigits(digits)
    ensures ReadUnsigned(Placed(digits, exp))
         == Some(if exp >= 0 then Dec(ReadDigits(digits) * Pow10(exp), 0) else Dec(ReadDigits(digits), exp))
  {
    hide ReadUnsigned, ReadDigits, Zeros;
    if exp >= 0 {
      ReadWhole(digits, exp);
    } else {
      var point := |digits| + exp;
      if point > 0 {
        ReadPointed(digits[..point], digits[point..]);
        assert digits[..point] + digits[point..] == digits;
      } else {
        ReadSmall(digits, -point);
      }
    }
  }

  lemma ReadSmall(digits: string, n: nat)
    requires digits != [] && AllDigits(digits)
    ensures ReadUnsigned("0." + (Zeros(n) + digits)) == Some(Dec(ReadDigits(digits), -(n + |digits|)))
  {
    hide ReadUnsigned, Zeros, ReadDigits;
    assert "0." == "0" + ".";
    Assoc("0", ".", Zeros(n) + digits);
    ReadZeros(n);
    LeadingZeros(Zeros(n), digits);
    ReadPointed("0", Zeros(n) + digits);
    ReadZero();
    LeadingZeros("0", Zeros(n) + digits);
  }

  lemma ReadZero()
    ensures AllDigits("0") && ReadDigits("0") == 0
  {
  }

  lemma {:induction false} NormalValue(d: Dec)
    ensures SameValue(Normal(d), d)
    decreases Abs(d.coef)
  {
    if d.coef != 0 && d.coef % 10 == 0 {
      var t := Dec(d.coef / 10, d.exp + 1);
      NormalValue(t);
      assert At(t, d.exp) == d.coef;
      CompareAt(Normal(d), t, d.exp);
      CompareAt(Normal(d), d, d.exp);
    } else if d.coef == 0 {
      CompareAt(Dec(0, 0), d, Min(0, d.exp));
    }
  }

  lemma SameValueTransitive(a: Dec, b: Dec, c: Dec)
    requires SameValue(a, b) && SameValue(b, c)
    ensures SameValue(a, c) && SameValue(b, a)
  {
    var m := Min(a.exp, Min(b.exp, c.exp));
    CompareAt(a, b, m);
    CompareAt(b, c, m);
    CompareAt(a, c, m);
  }

  lemma NegatedValue(a: Dec, b: Dec)
    requires SameValue(a, b)
    ensures SameValue(Dec(-a.coef, a.exp), Dec(-b.coef, b.exp))
  {
    var m := Min(a.exp, b.exp);
    MulNegate(a.coef, Pow10(a.exp - m));
    MulNegate(b.coef, Pow10(b.exp - m));
  }

  lemma PlacedStart(digits: string, exp: int)
    requires digits != [] && AllDigits(digits)
    ensures Placed(digits, exp) != [] && IsDigit(Placed(digits, exp)[0])
  {
  }

  lemma PlacedValue(n: Dec)
    ensures var r := ReadUnsigned(Placed(DigitText(Abs(n.coef)), n.exp));
      r.Some? && SameValue(r.value, Magnitude(n))
  {
    hide ReadUnsigned, Placed, DigitText, ReadDigits;
    ReadPlaced(DigitText(Abs(n.coef)), n.exp);
    if n.exp >= 0 { CompareAt(Dec(Abs(n.coef) * Pow10(n.exp), 0), Magnitude(n), 0); }
  }

  /** Round trip: the canonical text of a decimal reads back as the same number. */
  lemma CanonicalReadsBack(d: Dec)
    ensures var r := ReadPlain(CanonicalText(d));
      r.Some? && SameValue(r.value, d)
  {
    hide ReadUnsigned, Placed, DigitText, SameValue, Normal;
    var n := Normal(d);
    NormalValue(d);
    if n.coef == 0 {
      ReadZero();
      ReadNoPoint("0");
      CompareAt(n, d, Min(n.exp, d.exp));
      CompareAt(Dec(0, 0), d, Min(n.exp, Min(0, d.exp)));
      CompareAt(n, d, Min(n.exp, Min(0, d.exp)));
    } else {
      var text := Placed(DigitText(Abs(n.coef)), n.exp);
      PlacedValue(n);
      PlacedStart(DigitText(Abs(n.coef)), n.exp);
      var r := ReadUnsigned(text).value;
      if n.coef < 0 {
        assert ("-" + text)[1..] == text;
        NegatedValue(r, Magnitude(n));
        SameValueTransitive(Dec(-r.coef, r.exp), n, d);
      } else {
        assert "" + text == text;
        SameValueTransitive(r, n, d);
      }
    }
  }

  /** Two normal decimals of one value are the same decimal. */
  lemma NormalUnique(a: Dec, b: Dec)
    requires a.coef % 10 != 0 && b.coef % 10 != 0 && SameValue(a, b) && a.exp <= b.exp
    ensures a == b
  {
    assert At(a, a.exp) == a.coef;
    if a.exp < b.exp { EndsInZero(b.coef, b.exp - a.exp); }
  }

  lemma EndsInZero(c: int, k: nat)
    requires k >= 1
    ensures (c * Pow10(k)) % 10 == 0
  {
    var q := c * Pow10(k - 1);
    assert c * Pow10(k) == 10 * q;
  }

  /** The text is canonical: two decimals share it exactly when they are the same number. */
  lemma CanonicalIffSameValue(a: Dec, b: Dec)
    ensures CanonicalText(a) == CanonicalText(b) <==> SameValue(a, b)
  {
    var x, y := Normal(a), Normal(b);
    if CanonicalText(a) == CanonicalText(b) {
      CanonicalReadsBack(a);
      CanonicalReadsBack(b);
      var r := ReadPlain(CanonicalText(a)).value;
      SameValueTransitive(r, a, a);
      SameValueTransitive(a, r, b);
    }
    if SameValue(a, b) {
      NormalValue(a);
      NormalValue(b);
      SameValueTransitive(x, a, b);
      SameValueTransitive(y, b, b);
      SameValueTransitive(x, b, y);
      if x.coef == 0 || y.coef == 0 {
        ZeroBoth(x, y);
      } else if x.exp <= y.exp {
        NormalUnique(x, y);
      } else {
        SameValueTransitive(x, y, y);
        NormalUnique(y, x);
      }
    }
  }

  lemma ZeroBoth(x: Dec, y: Dec)
    requires SameValue(x, y)
    ensures x.coef == 0 <==> y.coef == 0
  {
    var m := Min(x.exp, y.exp);
    if x.coef != 0 { AbsMul(x.coef, Pow10(x.exp - m)); MulStrict(0, Abs(x.coef), Pow10(x.exp - m)); }
    if y.coef != 0 { AbsMul(y.coef, Pow10(y.exp - m)); MulStrict(0, Abs(y.coef), Pow10(y.exp - m)); }
  }

  // ----- the shape of canonical texts

  /** A whole part without a leading zero, and a fraction, if any, that does not end in zero. */
  predicate IsCanonicalUnsigned(s: string) {
    var p := Find(s, '.');
    && IsWhole(s[..p])
    && (p < |s| ==> p + 1 < |s| && AllDigits(s[p + 1..]) && s[|s| - 1] != '0')
  }

  /** No exponent, no sign on zero. */
  predicate IsCanonical(s: string) {
    if s != [] && s[0] == '-' then IsCanonicalUnsigned(s[1..]) && s != "-0" else IsCanonicalUnsigned(s)
  }

  lemma {:induction false} DigitTextOfWhole(w: string)
    requires IsWhole(w)
    ensures DigitText(ReadDigits(w)) == w
    ensures ReadDigits(w) == 0 <==> w == "0"
  {
    var n := |w| - 1;
    var front, d := w[..n], DigitValue(w[n]);
    assert DigitChar(d) == w[n];
    assert w == front + [w[n]];
    if n > 0 {
      DigitTextOfWhole(front);
      assert ReadDigits(w) == 10 * ReadDigits(front) + d;
    } else {
      assert front == [] && ReadDigits(front) == 0;
    }
  }

  lemma LastDigit(n: nat)
    ensures DigitText(n)[|DigitText(n)| - 1] == DigitChar(n % 10)
  {
  }

  lemma {:induction false} NormalOfZeros(c: int, n: nat, exp: int)
    requires c % 10 != 0
    ensures Normal(Dec(c * Pow10(n), exp)) == Dec(c, exp + n)
  {
    if n > 0 {
      EndsInZero(c, n);
      assert c * Pow10(n) == 10 * (c * Pow10(n - 1));
      MulNonZero(c, Pow10(n - 1));
      NormalOfZeros(c, n - 1, exp + 1);
    }
  }

  lemma MulNonZero(c: int, p: nat)
    requires c != 0 && p > 0
    ensures c * p != 0
  {
    AbsMul(c, p);
    MulStrict(0, Abs(c), p);
  }

  lemma WholeShape(s: string)
    requires IsWhole(s)
    ensures IsCanonicalUnsigned(s)
  {
    PointAfterDigits(s, []);
    assert s + [] == s && s[..|s|] == s;
  }

  lemma PointedShape(whole: string, part: string)
    requires IsWhole(whole) && part != [] && AllDigits(part) && part[|part| - 1] != '0'
    ensures IsCanonicalUnsigned(whole + ("." + part))
  {
    hide Find;
    var s := whole + ("." + part);
    PointAfterDigits(whole, "." + part);
    assert s[..|whole|] == whole && s[|whole| + 1..] == part;
  }

  lemma PlacedShape(digits: string, exp: int)
    requires IsWhole(digits) && digits != "0" && digits[|digits| - 1] != '0'
    ensures IsCanonicalUnsigned(Placed(digits, exp)) && Placed(digits, exp) != "0"
  {
    hide IsCanonicalUnsigned;
    var point := |digits| + exp;
    if exp >= 0 {
      WholeShape(digits + Zeros(exp));
    } else if point > 0 {
      PointedShape(digits[..point], digits[point..]);
    } else {
      PointedShape("0", Zeros(-point) + digits);
      assert "0." + (Zeros(-point) + digits) == "0" + ("." + (Zeros(-point) + digits));
    }
  }

  lemma CanonicalShape(d: Dec)
    ensures IsCanonical(CanonicalText(d))
  {
    hide Placed, Normal, DigitText, IsCanonicalUnsigned;
    var n := Normal(d);
    if n.coef == 0 {
      ZeroShape();
    } else {
      var digits := DigitText(Abs(n.coef));
      NoLeadingZero(Abs(n.coef));
      LastDigit(Abs(n.coef));
      AbsModTen(n.coef);
      PlacedShape(digits, n.exp);
      PlacedStart(digits, n.exp);
      var text := Placed(digits, n.exp);
      assert "" + text == text && ("-" + text)[1..] == text;
    }
  }

  lemma ZeroShape()
    ensures IsCanonicalUnsigned("0")
  {
    assert Find("0", '.') == 1;
  }

  lemma AbsModTen(c: int)
    requires c % 10 != 0
    ensures Abs(c) % 10 != 0
  {
  }

  /** A whole number other than zero: its trailing zeros stand for its exponent. */
  lemma {:induction false} WholeWritten(w: string)
    requires IsWhole(w) && w != "0"
    ensures var c := ReadDigits(w);
      && c != 0
      && Placed(DigitText(Abs(Normal(Dec(c, 0)).coef)), Normal(Dec(c, 0)).exp) == w
  {
    hide DigitText, ReadDigits, Normal, Zeros;
    DigitTextOfWhole(w);
    var core, n := TrimZeros(w);
    var c := ReadDigits(core);
    DigitTextOfWhole(core);
    ReadConcat(core, Zeros(n));
    ReadZeros(n);
    LastRead(core);
    NormalOfZeros(c, n, 0);
  }

  lemma LastRead(s: string)
    requires s != [] && AllDigits(s) && s[|s| - 1] != '0'
    ensures ReadDigits(s) % 10 != 0
  {
  }

  lemma {:induction false} TrimZeros(w: string) returns (core: string, n: nat)
    requires IsWhole(w) && w != "0"
    ensures IsWhole(core) && core[|core| - 1] != '0' && w == core + Zeros(n)
  {
    var last := |w| - 1;
    if w[last] != '0' {
      core, n := w, 0;
      assert w == w + Zeros(0);
    } else {
      var front := w[..last];
      assert front[0] == w[0];
      core, n := TrimZeros(front);
      n := n + 1;
      assert w == front + ['0'] && Zeros(n) == Zeros(n - 1) + ['0'];
    }
  }

  lemma WholeAndPart(whole: string, part: string)
    requires IsWhole(whole) && whole != "0" && part != [] && AllDigits(part)
    ensures AllDigits(whole + part)
    ensures Placed(DigitText(ReadDigits(whole + part)), -|part|) == whole + ("." + part)
  {
    hide DigitText, ReadDigits;
    var all := whole + part;
    assert all[0] == whole[0];
    DigitTextOfWhole(all);
    assert all[..|whole|] == whole && all[|whole|..] == part;
  }

  lemma OnlyPart(part: string)
    requires part != [] && AllDigits(part) && part[|part| - 1] != '0'
    ensures AllDigits("0" + part)
    ensures Placed(DigitText(ReadDigits("0" + part)), -|part|) == "0" + ("." + part)
  {
    hide Placed, DigitText, ReadDigits;
    ReadZero();
    LeadingZeros("0", part);
    SmallWritten(part);
    assert "0." + part == "0" + ("." + part);
  }

  /** Digits after a point that end in a non-zero digit: the leading zeros stand for the place of the point. */
  lemma PointedWritten(whole: string, part: string)
    requires IsWhole(whole) && part != [] && AllDigits(part) && part[|part| - 1] != '0'
    ensures AllDigits(whole + part)
    ensures var c := ReadDigits(whole + part);
      && c % 10 != 0
      && Placed(DigitText(c), -|part|) == whole + ("." + part)
  {
    hide DigitText, ReadDigits, Placed;
    LastRead(whole + part);
    if whole != "0" { WholeAndPart(whole, part); } else { OnlyPart(part); }
  }

  lemma {:induction false} SmallWritten(part: string)
    requires part != [] && AllDigits(part) && part[|part| - 1] != '0'
    ensures Placed(DigitText(ReadDigits(part)), -|part|) == "0." + part
  {
    var core, n := DropZeros(part);
    ReadZeros(n);
    LeadingZeros(Zeros(n), core);
    DigitTextOfWhole(core);
  }

  lemma {:induction false} DropZeros(part: string) returns (core: string, n: nat)
    requires part != [] && AllDigits(part) && part[|part| - 1] != '0'
    ensures IsWhole(core) && core != "0" && part == Zeros(n) + core
  {
    if part[0] != '0' {
      core, n := part, 0;
      assert part == Zeros(0) + part;
    } else {
      core, n := DropZeros(part[1..]);
      n := n + 1;
      assert part == ['0'] + part[1..] && Zeros(n) == ['0'] + Zeros(n - 1);
    }
  }

  /** A canonical unsigned text other than zero is what is written for the number it stands for. */
  lemma UnsignedWritten(s: string)
    requires IsCanonicalUnsigned(s) && s != "0"
    ensures var r := ReadUnsigned(s);
      && r.Some? && r.value.coef > 0
      && Placed(DigitText(Abs(Normal(r.value).coef)), Normal(r.value).exp) == s
  {
    hide Placed, DigitText, ReadDigits;
    var p := Find(s, '.');
    if p == |s| {
      assert s[..p] == s;
      WholeWritten(s);
    } else {
      var whole, part := s[..p], s[p + 1..];
      assert s == whole + ("." + part);
      PointedWritten(whole, part);
    }
  }

  lemma CanonicalWritten(s: string)
    requires IsCanonical(s)
    ensures ReadPlain(s).Some? && CanonicalText(ReadPlain(s).value) == s
  {
    hide Placed, Normal, DigitText, IsCanonicalUnsigned, ReadUnsigned;
    if s == "0" {
      ReadZero();
      ReadNoPoint("0");
    } else {
      var t := if s != [] && s[0] == '-' then s[1..] else s;
      ShapeStart(t);
      assert s != t ==> s == "-" + t;
      UnsignedWritten(t);
      var r := ReadUnsigned(t).value;
      if s != t {
        NormalNegated(r);
        assert s == "-" + t;
      } else {
        assert "" + t == t;
      }
    }
  }

  lemma ShapeStart(t: string)
    requires IsCanonicalUnsigned(t)
    ensures t != [] && t[0] != '-'
  {
    var p := Find(t, '.');
    assert t[..p][0] == t[0];
  }

  lemma {:induction false} NormalNegated(d: Dec)
    ensures Normal(Dec(-d.coef, d.exp)) == Dec(-Normal(d).coef, Normal(d).exp)
    decreases Abs(d.coef)
  {
    if d.coef != 0 && d.coef % 10 == 0 {
      assert (-d.coef) / 10 == -(d.coef / 10) && (-d.coef) % 10 == 0;
      NormalNegated(Dec(d.coef / 10, d.exp + 1));
    } else {
      NegatedModTen(d.coef);
    }
  }

  lemma NegatedModTen(c: int)
    ensures c % 10 != 0 ==> (-c) % 10 != 0
  {
  }

  /** The canonical text of a number is the one text of canonical shape that reads as it. */
  lemma CanonicalTextIff(s: string, d: Dec)
    ensures s == CanonicalText(d) <==>
      IsCanonical(s) && ReadPlain(s).Some? && SameValue(ReadPlain(s).value, d)
  {
    hide CanonicalText, ReadPlain, IsCanonical, SameValue;
    CanonicalShape(d);
    CanonicalReadsBack(d);
    if IsCanonical(s) && ReadPlain(s).Some? && SameValue(ReadPlain(s).value, d) {
      CanonicalWritten(s);
      CanonicalIffSameValue(ReadPlain(s).value, d);
    }
  }
}
