/** Decimal and hexadecimal texts of numbers. */
module Texts {

  predicate IsDigit(c: char) { '0' <= c <= '9' }

  predicate AllDigits(s: string) { forall i :: 0 <= i < |s| ==> IsDigit(s[i]) }

  function DigitChar(d: nat): (c: char)
    requires d < 10
    ensures IsDigit(c) && DigitValue(c) == d
  {
    ('0' as int + d) as char
  }

  function DigitValue(c: char): nat
    requires IsDigit(c)
  {
    c as int - '0' as int
  }

  /** The decimal text of n, without leading zeros. */
  function DigitText(n: nat): (s: string)
    ensures s != [] && AllDigits(s)
    ensures s[0] == '0' <==> n == 0
    ensures ReadDigits(s) == n
  {
    if n < 10 then [DigitChar(n)]
    else
      var front := DigitText(n / 10);
      assert (front + [DigitChar(n % 10)])[..|front|] == front;
      front + [DigitChar(n % 10)]
  }

  function ReadDigits(s: string): nat
    requires AllDigits(s)
  {
    if s == [] then 0 else 10 * ReadDigits(s[..|s| - 1]) + DigitValue(s[|s| - 1])
  }

  function IntText(n: int): (s: string)
    ensures s != [] && (s[0] == '-' || IsDigit(s[0]))
  {
    if n < 0 then "-" + DigitText(-n) else DigitText(n)
  }

  lemma IntTextInjective(m: int, n: int)
    requires IntText(m) == IntText(n)
    ensures m == n
  {
    if m < 0 { Rest("-", DigitText(-m), "-", DigitText(-n)); }
  }

  // ----- floating-point texts

  predicate NumberChar(c: char) { IsDigit(c) || c == '-' || c == '+' || c == '.' || c == 'e' }

  /** Digits without a leading zero. */
  predicate IsWhole(s: string) { s != [] && AllDigits(s) && (s[0] == '0' ==> |s| == 1) }

  /** The position of the first c, or the length of s. */
  function Find(s: string, c: char): (i: nat)
    ensures i <= |s| && (i < |s| ==> s[i] == c)
    ensures forall k :: 0 <= k < i ==> s[k] != c
  {
    if s == [] || s[0] == c then 0 else 1 + Find(s[1..], c)
  }

  predicate IsExponent(s: string) {
    var digits := if s != [] && (s[0] == '+' || s[0] == '-') then s[1..] else s;
    digits != [] && AllDigits(digits)
  }

  /** Whole part, fraction and exponent, with a fraction or an exponent. */
  predicate IsUnsignedFloat(s: string) {
    var e := Find(s, 'e');
    var p := Find(s[..e], '.');
    && IsWhole(s[..p])
    && (p < e ==> p + 1 < e && AllDigits(s[p + 1..e]))
    && (e < |s| ==> IsExponent(s[e + 1..]))
    && (p < e || e < |s|)
  }

  /** A finite double as Python writes it: a JSON number with a fraction or an exponent. */
  predicate IsFiniteFloat(s: string) { IsUnsignedFloat(if s != [] && s[0] == '-' then s[1..] else s) }

  const NON_FINITE := ["NaN", "Infinity", "-Infinity"]

  predicate IsFloatText(s: string) { IsFiniteFloat(s) || s in NON_FINITE }

  type FloatText = s: string | IsFloatText(s) witness "0.0"

  type FiniteText = s: string | IsFiniteFloat(s) witness "0.0"

  const ZERO_TEXT: FiniteText := "0.0"

  lemma ExponentChars(s: string)
    requires IsExponent(s)
    ensures forall c :: c in s ==> NumberChar(c)
  {
    forall i | 0 <= i < |s| ensures NumberChar(s[i]) {
      if i > 0 { assert s[i] == s[1..][i - 1]; }
    }
  }

  lemma DigitsAreNumberChars(s: string)
    requires AllDigits(s)
    ensures forall c :: c in s ==> IsDigit(c) && NumberChar(c)
  {
  }

  lemma AllOf(s: string)
    requires forall c :: c in s ==> NumberChar(c)
    ensures forall i :: 0 <= i < |s| ==> NumberChar(s[i])
  {
  }

  lemma UnsignedFloatChars(s: string)
    requires IsUnsignedFloat(s)
    ensures s != [] && IsDigit(s[0]) && (forall i :: 0 <= i < |s| ==> NumberChar(s[i])) && !AllDigits(s)
  {
    hide NumberChar, IsExponent, Find;
    var e := Find(s, 'e');
    var p := Find(s[..e], '.');
    assert s[..p][0] == s[0];
    DigitsAreNumberChars(s[..p]);
    if p < e { DigitsAreNumberChars(s[p + 1..e]); }
    if e < |s| { ExponentChars(s[e + 1..]); }
    Marks();
    forall c | c in s ensures NumberChar(c) {
      var i :| 0 <= i < |s| && s[i] == c;
      if i < p { assert s[i] in s[..p]; } else if p < i < e { assert s[i] in s[p + 1..e]; } else if i > e { assert s[i] in s[e + 1..]; }
    }
    AllOf(s);
    if p < e { assert s[p] == '.'; } else { assert s[e] == 'e'; }
  }

  lemma Marks()
    ensures NumberChar('.') && NumberChar('e')
  {
  }

  /** A finite double starts like a number, has only the characters of numbers, and is no integer. */
  lemma FloatChars(s: string)
    requires IsFiniteFloat(s)
    ensures s != [] && (s[0] == '-' || IsDigit(s[0])) && (forall i :: 0 <= i < |s| ==> NumberChar(s[i]))
    ensures !AllDigits(s) && (s[0] == '-' ==> !AllDigits(s[1..]))
  {
    hide IsUnsignedFloat;
    UnsignedFloatChars(if s != [] && s[0] == '-' then s[1..] else s);
  }

  lemma IntTextWhole(n: int)
    ensures forall i :: 0 <= i < |IntText(n)| ==> NumberChar(IntText(n)[i])
    ensures n >= 0 ==> IsWhole(IntText(n)) && ReadDigits(IntText(n)) == n
    ensures n < 0 ==> IntText(n)[0] == '-' && IsWhole(IntText(n)[1..]) && ReadDigits(IntText(n)[1..]) == -n
    ensures n < 0 ==> !IsWhole(IntText(n))
  {
    NoLeadingZero(if n < 0 then -n else n);
  }

  lemma {:induction false} NoLeadingZero(n: nat)
    ensures IsWhole(DigitText(n))
  {
    if n >= 10 { NoLeadingZero(n / 10); }
  }

  lemma IntTextIsNoFloat(n: int)
    ensures !IsFloatText(IntText(n))
  {
    hide IsFiniteFloat, DigitText;
    var s := IntText(n);
    IntTextWhole(n);
    if IsFiniteFloat(s) { FloatChars(s); }
    assert "NaN"[0] == 'N' && "Infinity"[0] == 'I' && "-Infinity"[1] == 'I';
  }

  // ----- where a token ends

  predicate Delimiter(c: char) { c == ',' || c == ']' || c == '}' }

  /** The text that follows a value inside a longer text. */
  predicate Boundary(s: string) { s == [] || Delimiter(s[0]) }

  // ----- concatenation

  lemma Assoc<T>(a: seq<T>, b: seq<T>, c: seq<T>)
    ensures a + b + c == a + (b + c)
  {
  }

  lemma Head<T>(a: seq<T>, s: seq<T>)
    requires a != []
    ensures (a + s)[0] == a[0]
  {
  }

  lemma Rest<T>(a: seq<T>, s: seq<T>, b: seq<T>, t: seq<T>)
    requires |a| == |b| && a + s == b + t
    ensures a == b && s == t
  {
    assert a == (a + s)[..|a|] && b == (b + t)[..|b|];
    assert s == (a + s)[|a|..] && t == (b + t)[|b|..];
  }

  // ----- white space

  predicate IsSpace(c: char) { c == ' ' || 9 <= c as int <= 13 || 28 <= c as int <= 31 }

  /** Text without leading and trailing white space. */
  function Stripped(s: string): string {
    if s != [] && IsSpace(s[0]) then Stripped(s[1..])
    else if s != [] && IsSpace(s[|s| - 1]) then Stripped(s[..|s| - 1])
    else s
  }

  /** Space, tab and line characters, and the four ASCII separators. */
  predicate BlankChar(c: char) { c as int in {9, 10, 11, 12, 13, 28, 29, 30, 31, 32} }

  predicate Blank(s: string) { forall i :: 0 <= i < |s| ==> BlankChar(s[i]) }

  lemma SpaceIffBlank(c: char)
    ensures IsSpace(c) <==> BlankChar(c)
  {
  }

  /** Only blanks are taken away, and all of them that stand at either end. */
  lemma {:induction false} StrippedMeans(s: string) returns (before: string, after: string)
    ensures Blank(before) && Blank(after) && s == before + (Stripped(s) + after)
    ensures Stripped(s) != [] ==> !BlankChar(Stripped(s)[0]) && !BlankChar(Stripped(s)[|Stripped(s)| - 1])
  {
    hide IsSpace, BlankChar;
    if s != [] {
      SpaceIffBlank(s[0]);
      SpaceIffBlank(s[|s| - 1]);
    }
    if s != [] && IsSpace(s[0]) {
      before, after := StrippedMeans(s[1..]);
      assert s == [s[0]] + s[1..];
      Assoc([s[0]], before, Stripped(s) + after);
      before := [s[0]] + before;
    } else if s != [] && IsSpace(s[|s| - 1]) {
      var c, front := s[|s| - 1], s[..|s| - 1];
      before, after := StrippedMeans(front);
      assert s == front + [c];
      Assoc(before, Stripped(front) + after, [c]);
      Assoc(Stripped(front), after, [c]);
      after := after + [c];
    } else {
      before, after := [], [];
      assert s == [] + (s + []);
    }
  }

  // ----- fixed-width texts

  function Padded(n: nat, width: nat): (s: string)
    ensures |s| == width && AllDigits(s)
  {
    if width == 0 then [] else Padded(n / 10, width - 1) + [DigitChar(n % 10)]
  }

  predicate IsHex(c: char) { IsDigit(c) || 'a' <= c <= 'f' }

  function HexChar(d: nat): (c: char)
    requires d < 16
    ensures IsHex(c) && HexValue(c) == d
  {
    if d < 10 then ('0' as int + d) as char else ('a' as int + d - 10) as char
  }

  function HexValue(c: char): nat
    requires IsHex(c)
  {
    if IsDigit(c) then c as int - '0' as int else c as int - 'a' as int + 10
  }

  function Hex2(n: nat): (s: string)
    requires n < 0x100
    ensures |s| == 2 && IsHex(s[0]) && IsHex(s[1])
    ensures n == 16 * HexValue(s[0]) + HexValue(s[1])
  {
    [HexChar(n / 16), HexChar(n % 16)]
  }

  /** Four lower-case hexadecimal digits. */
  function Hex4(n: nat): (s: string)
    requires n < 0x10000
    ensures |s| == 4
  {
    Hex2(n / 0x100) + Hex2(n % 0x100)
  }

  predicate IsSha256(s: string) { |s| == 64 && forall i :: 0 <= i < 64 ==> IsHex(s[i]) }
}
