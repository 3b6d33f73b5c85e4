/** Reading financial amounts from JSON values. */
module MoneyText {
  import opened Rounding
  import opened Decimals
  import opened DecimalText
  import opened Wrappers
  import opened Texts
  import opened JsonText
  import opened FinancialInput

  function Without(s: string, c: char): string {
    if s == [] then [] else (if s[0] == c then [] else [s[0]]) + Without(s[1..], c)
  }

  /** The decimal constructor on text without an exponent: white space, underscores and a sign are allowed. */
  function ReadDecimal(s: string): Option<Dec> {
    var t := Without(Stripped(s), '_');
    if t != [] && t[0] == '+' then ReadUnsigned(t[1..]) else ReadPlain(t)
  }

  /** Negation runs in the ambient context, so it rounds. */
  function Negated(ambient: Context, r: Option<Dec>): Option<Dec> {
    if r.Some? then Some(RoundTo(ambient, Dec(-r.value.coef, r.value.exp))) else None
  }

  /** Amount text: accounting parentheses negate, commas group, scientific notation is refused.
      Words such as nan or null are no decimals, so they are refused as well. */
  function ParseText(ambient: Context, s: string): Option<Dec> {
    var text := Stripped(s);
    if text == [] || 'e' in text || 'E' in text then None
    else if text[0] == '(' && text[|text| - 1] == ')' then Negated(ambient, ReadDecimal(Without(Stripped(text[1..|text| - 1]), ',')))
    else ReadDecimal(Without(text, ','))
  }

  /** A binary float is an amount only under the legacy policy. */
  function ParseAmount(ambient: Context, v: Json, policy: string): Option<Dec> {
    if !Supported(policy) then None
    else
      match v
      case Str(s) => ParseText(ambient, s)
      case Int(n) => ParseText(ambient, IntText(n))
      case Float(text) => if policy == STRICT then None else ParseText(ambient, text)
      case _ => None
  }

  // ----- canonical text passes through unchanged

  predicate PlainChar(c: char) { IsDigit(c) || c == '.' || c == '-' }

  predicate PlainText(s: string) { forall i :: 0 <= i < |s| ==> PlainChar(s[i]) }

  lemma {:induction false} WithoutOther(s: string, c: char)
    requires PlainText(s) && !PlainChar(c)
    ensures Without(s, c) == s
  {
    if s != [] {
      WithoutOther(s[1..], c);
      assert s == [s[0]] + s[1..];
    }
  }

  lemma PlacedIsPlain(digits: string, exp: int)
    requires digits != [] && AllDigits(digits)
    ensures PlainText(Placed(digits, exp)) && Placed(digits, exp) != []
  {
    hide PlainText;
    if exp >= 0 {
      assert PlainText(digits + Zeros(exp)) by { Plain2(digits, Zeros(exp)); }
    } else {
      var point := |digits| + exp;
      if point > 0 {
        Plain2(".", digits[point..]);
        Plain2(digits[..point], "." + digits[point..]);
      } else {
        Plain2(Zeros(-point), digits);
        Plain2("0.", Zeros(-point) + digits);
      }
    }
  }

  lemma Plain2(a: string, b: string)
    requires (forall i :: 0 <= i < |a| ==> PlainChar(a[i])) && (forall i :: 0 <= i < |b| ==> PlainChar(b[i]))
    ensures PlainText(a + b) && forall i :: 0 <= i < |a + b| ==> PlainChar((a + b)[i])
  {
  }

  lemma CanonicalIsPlain(d: Dec)
    ensures PlainText(CanonicalText(d)) && CanonicalText(d) != []
  {
    hide Placed, Normal, DigitText;
    var n := Normal(d);
    if n.coef != 0 {
      var digits := DigitText(Abs(n.coef));
      PlacedIsPlain(digits, n.exp);
      Plain2(if n.coef < 0 then "-" else "", Placed(digits, n.exp));
    }
  }

  /** On plain text the amount reader is the plain decimal reader. */
  lemma ParsePlainText(ambient: Context, s: string)
    requires PlainText(s) && s != []
    ensures ParseText(ambient, s) == ReadPlain(s)
  {
    hide ReadPlain, ReadUnsigned;
    assert PlainChar(s[0]) && PlainChar(s[|s| - 1]);
    assert Stripped(s) == s;
    WithoutOther(s, ',');
    WithoutOther(s, '_');
  }

  /** Round trip: an amount written canonically is parsed back as the same number, under either policy. */
  lemma AmountReadsBack(ambient: Context, d: Dec, policy: string)
    requires Supported(policy)
    ensures var r := ParseAmount(ambient, Str(CanonicalText(d)), policy);
      r.Some? && SameValue(r.value, d)
  {
    hide CanonicalText, ParseText, ReadPlain, SameValue;
    CanonicalIsPlain(d);
    ParsePlainText(ambient, CanonicalText(d));
    CanonicalReadsBack(d);
  }

  // ----- other ways to write an amount, and what is refused

  lemma {:induction false} StrippedBefore(w: string, s: string)
    requires Blank(w)
    ensures Stripped(w + s) == Stripped(s)
  {
    if w == [] {
      assert w + s == s;
    } else {
      assert (w + s)[1..] == w[1..] + s && (w + s)[0] == w[0];
      StrippedBefore(w[1..], s);
    }
  }

  lemma {:induction false} StrippedAfterOne(s: string, c: char)
    requires IsSpace(c)
    ensures Stripped(s + [c]) == Stripped(s)
    decreases |s|
  {
    var t := s + [c];
    if s != [] && IsSpace(s[0]) {
      assert t[1..] == s[1..] + [c];
      StrippedAfterOne(s[1..], c);
    } else if s == [] {
      assert t[1..] == [];
    } else {
      assert t[0] == s[0] && t[..|t| - 1] == s;
    }
  }

  lemma {:induction false} StrippedAfter(s: string, w: string)
    requires Blank(w)
    ensures Stripped(s + w) == Stripped(s)
    decreases |w|
  {
    if w == [] {
      assert s + w == s;
    } else {
      var n := |w| - 1;
      assert s + w == (s + w[..n]) + [w[n]];
      StrippedAfterOne(s + w[..n], w[n]);
      StrippedAfter(s, w[..n]);
    }
  }

  /** Surrounding white space does not matter. */
  lemma SpacesIgnored(ambient: Context, before: string, s: string, after: string, policy: string)
    requires Blank(before) && Blank(after)
    ensures ParseAmount(ambient, Str(before + (s + after)), policy) == ParseAmount(ambient, Str(s), policy)
  {
    StrippedBefore(before, s + after);
    StrippedAfter(s, after);
  }

  /** Dropping a character works piece by piece. */
  lemma {:induction false} WithoutParts(a: string, b: string, c: char)
    ensures Without(a + b, c) == Without(a, c) + Without(b, c)
  {
    if a == [] {
      assert a + b == b;
    } else {
      assert (a + b)[1..] == a[1..] + b && (a + b)[0] == a[0];
      WithoutParts(a[1..], b, c);
      Assoc(if a[0] == c then [] else [a[0]], Without(a[1..], c), Without(b, c));
    }
  }

  lemma WithoutOne(x: char, c: char)
    ensures Without([x], c) == if x == c then [] else [x]
  {
    assert [x][1..] == [];
  }

  lemma {:induction false} GroupedChars(s: string, c: char)
    ensures forall i :: 0 <= i < |s| ==> s[i] == c || s[i] in Without(s, c)
    ensures Without(s, c) != [] ==> s != []
  {
    if s != [] { GroupedChars(s[1..], c); }
  }

  /** Text that is a number once commas and underscores are dropped is read as that number. */
  lemma SeparatorsIgnored(ambient: Context, s: string, policy: string)
    requires Supported(policy)
    requires var t := Without(Without(s, ','), '_');
      t != [] && (PlainText(t) || (t[0] == '+' && PlainText(t[1..])))
    ensures var t := Without(Without(s, ','), '_');
      ParseAmount(ambient, Str(s), policy) == if t[0] == '+' then ReadUnsigned(t[1..]) else ReadPlain(t)
  {
    hide ReadPlain, ReadUnsigned, Without;
    var u := Without(s, ',');
    var t := Without(u, '_');
    GroupedChars(u, '_');
    GroupedChars(s, ',');
    assert forall x :: x in t ==> NumeralChar(x) by { NumeralChars(t); }
    assert forall i :: 0 <= i < |u| ==> NumeralChar(u[i]);
    assert forall i :: 0 <= i < |s| ==> NumeralChar(s[i]);
    NumeralText(s);
    NumeralText(u);
  }

  /** The characters of amounts with a sign and separators. */
  predicate NumeralChar(c: char) { PlainChar(c) || c == '+' || c == ',' || c == '_' }

  lemma NumeralChars(t: string)
    requires t != [] && (PlainText(t) || (t[0] == '+' && PlainText(t[1..])))
    ensures forall x :: x in t ==> NumeralChar(x)
  {
    forall i | 0 <= i < |t| ensures NumeralChar(t[i]) {
      if i > 0 { assert t[i] == t[1..][i - 1]; }
    }
  }

  lemma NumeralText(s: string)
    requires s != [] && forall i :: 0 <= i < |s| ==> NumeralChar(s[i])
    ensures Stripped(s) == s && 'e' !in s && 'E' !in s && s[0] != '('
  {
    assert NumeralChar(s[0]) && NumeralChar(s[|s| - 1]);
  }

  /** Commas group digits: they do not change the amount. */
  lemma CommasIgnored(ambient: Context, s: string, d: Dec, policy: string)
    requires Supported(policy) && Without(s, ',') == CanonicalText(d)
    ensures var r := ParseAmount(ambient, Str(s), policy);
      r.Some? && SameValue(r.value, d)
  {
    hide CanonicalText, ReadPlain, ReadUnsigned, SameValue, Without, ParseAmount;
    var t := CanonicalText(d);
    CanonicalIsPlain(d);
    CanonicalReadsBack(d);
    WithoutOther(t, '_');
    assert PlainChar(t[0]);
    SeparatorsIgnored(ambient, s, policy);
  }

  /** A plain number may carry a sign. */
  lemma SignedNumber(ambient: Context, t: string, policy: string)
    requires Supported(policy) && PlainText(t) && t != [] && t[0] != '+' && t[0] != '-'
    ensures var r := ReadUnsigned(t);
      && ParseAmount(ambient, Str(t), policy) == r
      && ParseAmount(ambient, Str("+" + t), policy) == r
      && ParseAmount(ambient, Str("-" + t), policy) == if r.Some? then Some(Dec(-r.value.coef, r.value.exp)) else None
  {
    hide ReadUnsigned, ParseAmount, PlainText;
    SignedRead(ambient, t, policy);
    assert ("+" + t)[0] == '+' && ("+" + t)[1..] == t;
    SignedRead(ambient, "+" + t, policy);
    assert ("-" + t)[0] == '-' && ("-" + t)[1..] == t;
    assert PlainText("-" + t) by { MinusPlain(t); }
    SignedRead(ambient, "-" + t, policy);
  }

  lemma MinusPlain(t: string)
    requires PlainText(t)
    ensures PlainText("-" + t)
  {
    Plain2("-", t);
  }

  lemma SignedRead(ambient: Context, s: string, policy: string)
    requires Supported(policy) && s != [] && (PlainText(s) || (s[0] == '+' && PlainText(s[1..])))
    ensures ParseAmount(ambient, Str(s), policy) == if s[0] == '+' then ReadUnsigned(s[1..]) else ReadPlain(s)
  {
    hide ReadUnsigned, ReadPlain, ParseAmount, Without, PlainText;
    WithoutSigned(s, ',');
    WithoutSigned(s, '_');
    SeparatorsIgnored(ambient, s, policy);
  }

  lemma WithoutSigned(s: string, c: char)
    requires s != [] && (PlainText(s) || (s[0] == '+' && PlainText(s[1..]))) && !PlainChar(c) && c != '+'
    ensures Without(s, c) == s
  {
    if PlainText(s) {
      WithoutOther(s, c);
    } else {
      WithoutOther(s[1..], c);
      assert s == [s[0]] + s[1..];
    }
  }

  lemma PlainStripped(t: string)
    requires PlainText(t)
    ensures Stripped(t) == t
  {
    if t != [] { assert PlainChar(t[0]) && PlainChar(t[|t| - 1]); }
  }

  /** Accounting parentheses negate, and the negation rounds to the ambient precision. */
  lemma ParenthesesNegate(ambient: Context, d: Dec, policy: string)
    requires Supported(policy)
    ensures var r := ParseAmount(ambient, Str("(" + (CanonicalText(d) + ")")), policy);
      var read := ReadPlain(CanonicalText(d));
      && read.Some? && SameValue(read.value, d)
      && r == Some(RoundTo(ambient, Dec(-read.value.coef, read.value.exp)))
  {
    hide CanonicalText, ReadPlain, ReadUnsigned, SameValue, Without, RoundTo;
    var t := CanonicalText(d);
    var s := "(" + (t + ")");
    CanonicalIsPlain(d);
    CanonicalReadsBack(d);
    assert s[0] == '(' && s[|s| - 1] == ')' && s[1..|s| - 1] == t;
    assert Stripped(s) == s;
    PlainStripped(t);
    WithoutOther(t, ',');
    WithoutOther(t, '_');
    assert 'e' !in s && 'E' !in s by {
      assert forall c :: c in t ==> PlainChar(c);
      assert forall c :: c in s ==> c in t || c == '(' || c == ')';
    }
  }

  /** A whole number is read as itself; a double is read as its text, but never under the strict policy. */
  lemma NumbersRead(ambient: Context, n: int, text: FloatText)
    ensures ParseAmount(ambient, Int(n), "strict-financial-input-v2") == Some(Dec(n, 0))
    ensures ParseAmount(ambient, Int(n), "legacy-financial-input-v1") == Some(Dec(n, 0))
    ensures ParseAmount(ambient, Float(text), "strict-financial-input-v2").None?
    ensures ParseAmount(ambient, Float(text), "legacy-financial-input-v1")
         == ParseAmount(ambient, Str(text), "legacy-financial-input-v1")
  {
    hide ParseText;
    IntReads(ambient, n);
  }

  lemma IntReads(ambient: Context, n: int)
    ensures ParseText(ambient, IntText(n)) == Some(Dec(n, 0))
  {
    hide ReadUnsigned, ReadDigits, DigitText, ParseText;
    IntTextWhole(n);
    var s := IntText(n);
    var digits := if n < 0 then s[1..] else s;
    ReadNoPoint(digits);
    ParsePlainText(ambient, s);
  }

  /** What is no amount: unsupported policies, other kinds of value, blank text, an exponent. */
  lemma AmountRefused(ambient: Context, v: Json, policy: string)
    requires
      || (policy != "legacy-financial-input-v1" && policy != "strict-financial-input-v2")
      || v.Null? || v.Bool? || v.Arr? || v.Obj?
      || (v.Str? && Blank(v.s))
      || (v.Str? && ('e' in Stripped(v.s) || 'E' in Stripped(v.s)))
    ensures ParseAmount(ambient, v, policy).None?
  {
    if v.Str? && Blank(v.s) {
      StrippedBefore(v.s, "");
      assert v.s + "" == v.s;
    }
  }
}
