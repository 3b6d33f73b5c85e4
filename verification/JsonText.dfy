/** JSON values, and the canonical compact text that digests are taken of. */
module JsonText {
  import opened Texts
  import opened Sorting
  import opened Wrappers

  datatype Json =
    | Null
    | Bool(b: bool)
    | Int(n: int)
    | Float(text: FloatText)
    | Str(s: string)
    | Arr(items: seq<Json>)
    | Obj(fields: map<string, Json>)

  // ----- strings

  function UnicodeEscape(unit: nat): (s: string)
    requires unit < 0x10000
    ensures |s| == 6
  {
    ['\\', 'u'] + Hex4(unit)
  }

  function HighSurrogate(c: char): nat
    requires c as int >= 0x10000
  {
    0xD800 + (c as int - 0x10000) / 1024
  }

  function LowSurrogate(c: char): nat
    requires c as int >= 0x10000
  {
    0xDC00 + (c as int - 0x10000) % 1024
  }

  /** The letter of a two-character escape, if there is one for c. */
  function ShortEscape(c: char): seq<char> {
    if c == '"' then ['"']
    else if c == '\\' then ['\\']
    else if c == '\n' then ['n']
    else if c == '\r' then ['r']
    else if c == '\t' then ['t']
    else if c as int == 8 then ['b']
    else if c as int == 12 then ['f']
    else []
  }

  /** One character inside a string literal; ascii escapes everything outside ' '..'~'. */
  function Escape(ascii: bool, c: char): (s: string)
    ensures s != [] && s[0] != '"'
  {
    if ShortEscape(c) != [] then ['\\'] + ShortEscape(c)
    else if c as int < 0x20 || (ascii && 0x7E < c as int < 0x10000) then UnicodeEscape(c as int)
    else if ascii && c as int >= 0x10000 then UnicodeEscape(HighSurrogate(c)) + UnicodeEscape(LowSurrogate(c))
    else [c]
  }

  function Closed(ascii: bool, s: string): string {
    if s == [] then "\"" else Escape(ascii, s[0]) + Closed(ascii, s[1..])
  }

  function Quote(ascii: bool, s: string): string { "\"" + Closed(ascii, s) }

  // ----- values

  function Encode(ascii: bool, j: Json): string
    decreases j, 1, 0
  {
    match j
    case Null => "null"
    case Bool(b) => if b then "true" else "false"
    case Int(n) => IntText(n)
    case Float(text) => text
    case Str(s) => Quote(ascii, s)
    case Arr(items) => "[" + ItemsText(ascii, true, items)
    case Obj(fields) => "{" + FieldsText(ascii, true, SortedKeys(fields.Keys), j)
  }

  function ItemsText(ascii: bool, first: bool, items: seq<Json>): string
    decreases items, 0, 0
  {
    if items == [] then "]"
    else (if first then "" else ",") + (Encode(ascii, items[0]) + ItemsText(ascii, false, items[1..]))
  }

  function FieldsText(ascii: bool, first: bool, keys: seq<string>, j: Json): string
    requires j.Obj? && forall k :: k in keys ==> k in j.fields
    decreases j, 0, |keys|
  {
    if keys == [] then "}" else
      (if first then "" else ",")
      + (Quote(ascii, keys[0]) + (":" + (Encode(ascii, j.fields[keys[0]]) + FieldsText(ascii, false, keys[1..], j))))
  }

  // ----- a reader

  predicate Starts(s: string, p: string) { |p| <= |s| && forall i :: 0 <= i < |p| ==> s[i] == p[i] }

  predicate AnyHex(c: char) { IsDigit(c) || 'a' <= c <= 'f' || 'A' <= c <= 'F' }

  function AnyHexValue(c: char): (d: nat)
    requires AnyHex(c)
    ensures d < 16
  {
    if IsDigit(c) then c as int - '0' as int
    else if 'a' <= c <= 'f' then c as int - 'a' as int + 10
    else c as int - 'A' as int + 10
  }

  /** The code unit of \uXXXX at the front of s. */
  function ReadUnit(s: string): (r: Option<nat>)
    ensures r.Some? ==> r.value < 0x10000
  {
    if |s| >= 6 && s[0] == '\\' && s[1] == 'u' && AnyHex(s[2]) && AnyHex(s[3]) && AnyHex(s[4]) && AnyHex(s[5])
    then Some(0x1000 * AnyHexValue(s[2]) + 0x100 * AnyHexValue(s[3]) + 0x10 * AnyHexValue(s[4]) + AnyHexValue(s[5]))
    else None
  }

  /** A character given by one code unit or by a surrogate pair; a lone surrogate is none. */
  function ReadUnicode(s: string): (r: Option<(char, string)>)
    ensures r.Some? ==> |r.value.1| < |s|
  {
    var u := ReadUnit(s);
    if u.None? then None
    else if u.value < 0xD800 || u.value >= 0xE000 then Some((u.value as char, s[6..]))
    else
      var v := ReadUnit(s[6..]);
      if u.value < 0xDC00 && v.Some? && 0xDC00 <= v.value < 0xE000
      then Some(((0x10000 + (u.value - 0xD800) * 0x400 + (v.value - 0xDC00)) as char, s[12..]))
      else None
  }

  /** One character of a string literal; a control character must not stand for itself. */
  function ReadChar(s: string): (r: Option<(char, string)>)
    requires s != []
    ensures r.Some? ==> |r.value.1| < |s|
  {
    if s[0] != '\\' then (if s[0] as int < 0x20 then None else Some((s[0], s[1..])))
    else if |s| == 1 then None
    else
      match s[1]
      case '"' => Some(('"', s[2..]))
      case '\\' => Some(('\\', s[2..]))
      case '/' => Some(('/', s[2..]))
      case 'b' => Some((8 as char, s[2..]))
      case 'f' => Some((12 as char, s[2..]))
      case 'n' => Some((10 as char, s[2..]))
      case 'r' => Some((13 as char, s[2..]))
      case 't' => Some((9 as char, s[2..]))
      case _ => ReadUnicode(s)
  }

  /** The rest of a string literal after its opening quote. */
  function ReadString(s: string): (r: Option<(string, string)>)
    ensures r.Some? ==> |r.value.1| < |s|
    decreases |s|
  {
    if s == [] then None
    else if s[0] == '"' then Some(([], s[1..]))
    else
      var c := ReadChar(s);
      if c.None? then None
      else
        var rest := ReadString(c.value.1);
        if rest.None? then None else Some(([c.value.0] + rest.value.0, rest.value.1))
  }

  function NumberRun(s: string): (n: nat)
    ensures n <= |s|
  {
    if s == [] || !NumberChar(s[0]) then 0 else 1 + NumberRun(s[1..])
  }

  function ReadNumber(s: string): (r: Option<(Json, string)>)
    ensures r.Some? ==> |r.value.1| < |s|
  {
    if Starts(s, "NaN") then Some((Float("NaN"), s[3..]))
    else if Starts(s, "Infinity") then Some((Float("Infinity"), s[8..]))
    else if Starts(s, "-Infinity") then Some((Float("-Infinity"), s[9..]))
    else
      var n := NumberRun(s);
      var token, rest := s[..n], s[n..];
      if IsWhole(token) then Some((Int(ReadDigits(token)), rest))
      else if n > 0 && token[0] == '-' && IsWhole(token[1..]) then Some((Int(0 - ReadDigits(token[1..])), rest))
      else if IsFiniteFloat(token) then Some((Float(token), rest))
      else None
  }

  /** JSON as RFC 8259 defines it, with Python's NaN and infinities. Canonical texts only:
      no white space between tokens, and the keys of an object in ascending order. */
  function ReadValue(s: string): (r: Option<(Json, string)>)
    ensures r.Some? ==> |r.value.1| < |s|
    decreases |s|, 0
  {
    if s == [] then None
    else if Starts(s, "null") then Some((Null, s[4..]))
    else if Starts(s, "true") then Some((Bool(true), s[4..]))
    else if Starts(s, "false") then Some((Bool(false), s[5..]))
    else if s[0] == '"' then
      var r := ReadString(s[1..]);
      if r.None? then None else Some((Str(r.value.0), r.value.1))
    else if s[0] == '[' then
      var r := ReadItems(true, s[1..]);
      if r.None? then None else Some((Arr(r.value.0), r.value.1))
    else if s[0] == '{' then
      var r := ReadFields(None, s[1..]);
      if r.None? then None else Some((Obj(r.value.0), r.value.1))
    else ReadNumber(s)
  }

  /** The rest of an array after its opening bracket, or after an item. */
  function ReadItems(first: bool, s: string): (r: Option<(seq<Json>, string)>)
    ensures r.Some? ==> |r.value.1| < |s|
    decreases |s|, 1
  {
    if s == [] then None
    else if s[0] == ']' then Some(([], s[1..]))
    else if !first && s[0] != ',' then None
    else
      var x := ReadValue(if first then s else s[1..]);
      if x.None? then None
      else
        var rest := ReadItems(false, x.value.1);
        if rest.None? then None else Some(([x.value.0] + rest.value.0, rest.value.1))
  }

  /** A key and its colon. */
  function ReadKey(s: string): (r: Option<(string, string)>)
    ensures r.Some? ==> |r.value.1| < |s|
  {
    if s == [] || s[0] != '"' then None
    else
      var k := ReadString(s[1..]);
      if k.None? || k.value.1 == [] || k.value.1[0] != ':' then None else Some((k.value.0, k.value.1[1..]))
  }

  /** The rest of an object after its opening brace, or after the entry of key last. */
  function ReadFields(last: Option<string>, s: string): (r: Option<(map<string, Json>, string)>)
    ensures r.Some? ==> |r.value.1| < |s|
    decreases |s|, 1
  {
    if s == [] then None
    else if s[0] == '}' then Some((map[], s[1..]))
    else if last.Some? && s[0] != ',' then None
    else
      var k := ReadKey(if last.None? then s else s[1..]);
      if k.None? || (last.Some? && TextLe(k.value.0, last.value)) then None
      else
        var x := ReadValue(k.value.1);
        if x.None? then None
        else
          var rest := ReadFields(Some(k.value.0), x.value.1);
          if rest.None? then None else Some((map[k.value.0 := x.value.0] + rest.value.0, rest.value.1))
  }

  /** The value a whole text stands for. */
  function Parse(s: string): Option<Json> {
    var r := ReadValue(s);
    if r.Some? && r.value.1 == [] then Some(r.value.0) else None
  }

  // ----- what is written is read back

  lemma UnitReads(u: nat, s: string)
    requires u < 0x10000
    ensures ReadUnit(UnicodeEscape(u) + s) == Some(u) && (UnicodeEscape(u) + s)[6..] == s
  {
    var t := UnicodeEscape(u) + s;
    var hi, lo := Hex2(u / 0x100), Hex2(u % 0x100);
    assert t[2] == hi[0] && t[3] == hi[1] && t[4] == lo[0] && t[5] == lo[1];
    assert forall c :: IsHex(c) ==> AnyHex(c) && AnyHexValue(c) == HexValue(c);
  }

  lemma LongEscapeReads(ascii: bool, c: char, s: string)
    requires ShortEscape(c) == [] && Escape(ascii, c) != [c]
    ensures ReadUnicode(Escape(ascii, c) + s) == Some((c, s))
    ensures |Escape(ascii, c)| >= 2 && Escape(ascii, c)[0] == '\\' && Escape(ascii, c)[1] == 'u'
  {
    hide UnicodeEscape, ReadUnit;
    if c as int < 0x10000 {
      UnitReads(c as int, s);
      UnitStart(c as int);
    } else {
      var u, v := HighSurrogate(c), LowSurrogate(c);
      Assoc(UnicodeEscape(u), UnicodeEscape(v), s);
      UnitReads(u, UnicodeEscape(v) + s);
      UnitReads(v, s);
      UnitStart(u);
      assert (Escape(ascii, c) + s)[12..] == (UnicodeEscape(v) + s)[6..];
    }
  }

  lemma UnitStart(u: nat)
    requires u < 0x10000
    ensures UnicodeEscape(u)[0] == '\\' && UnicodeEscape(u)[1] == 'u'
  {
  }

  lemma CharReads(ascii: bool, c: char, s: string)
    ensures ReadChar(Escape(ascii, c) + s) == Some((c, s))
  {
    hide ReadUnicode;
    if ShortEscape(c) != [] {
      assert (Escape(ascii, c) + s)[2..] == s;
    } else if Escape(ascii, c) == [c] {
      assert ([c] + s)[1..] == s;
    } else {
      LongEscapeReads(ascii, c, s);
      var t := Escape(ascii, c) + s;
      assert t[0] == '\\' && t[1] == 'u';
    }
  }

  lemma {:induction false} StringReads(ascii: bool, a: string, s: string)
    ensures ReadString(Closed(ascii, a) + s) == Some((a, s))
  {
    hide Escape, ReadChar;
    if a == [] {
      assert ("\"" + s)[1..] == s;
    } else {
      var e, rest := Escape(ascii, a[0]), Closed(ascii, a[1..]);
      Assoc(e, rest, s);
      Head(e, rest + s);
      CharReads(ascii, a[0], rest + s);
      StringReads(ascii, a[1..], s);
      assert a == [a[0]] + a[1..];
    }
  }

  lemma QuoteReads(ascii: bool, a: string, s: string)
    ensures Quote(ascii, a) + s != []
    ensures (Quote(ascii, a) + s)[0] == '"' && ReadString((Quote(ascii, a) + s)[1..]) == Some((a, s))
  {
    hide Closed, ReadString;
    Assoc("\"", Closed(ascii, a), s);
    assert (Quote(ascii, a) + s)[1..] == Closed(ascii, a) + s;
    StringReads(ascii, a, s);
  }

  lemma {:induction false} RunEnds(a: string, s: string)
    requires (forall i :: 0 <= i < |a| ==> NumberChar(a[i])) && Boundary(s)
    ensures NumberRun(a + s) == |a| && (a + s)[..|a|] == a && (a + s)[|a|..] == s
  {
    Parted(a, s);
    if a == [] {
      assert a + s == s;
    } else {
      assert (a + s)[0] == a[0] && (a + s)[1..] == a[1..] + s;
      RunEnds(a[1..], s);
    }
  }

  lemma Parted(a: string, s: string)
    ensures (a + s)[..|a|] == a && (a + s)[|a|..] == s
  {
  }

  predicate IsNumber(j: Json) { j.Int? || j.Float? }

  lemma NotAWord(token: string, s: string)
    requires token != [] && (forall i :: 0 <= i < |token| ==> NumberChar(token[i])) && Boundary(s)
    ensures var t := token + s;
      !Starts(t, "NaN") && !Starts(t, "Infinity") && !Starts(t, "-Infinity")
  {
    var t := token + s;
    assert t[0] == token[0];
    assert |t| > 1 ==> t[1] == if |token| > 1 then token[1] else s[0];
    assert "NaN"[0] == 'N' && "Infinity"[0] == 'I' && "-Infinity"[1] == 'I';
  }

  lemma NumberReads(j: Json, s: string)
    requires IsNumber(j) && Boundary(s)
    ensures ReadNumber(Encode(false, j) + s) == Some((j, s))
  {
    hide IntText, ReadDigits, IsFiniteFloat;
    if j.Float? && !IsFiniteFloat(j.text) {
      WordReads(j.text, s);
    } else {
      var token := Encode(false, j);
      if j.Int? { IntTextWhole(j.n); } else { FloatChars(j.text); }
      NotAWord(token, s);
      RunEnds(token, s);
    }
  }

  lemma WordReads(text: FloatText, s: string)
    requires !IsFiniteFloat(text)
    ensures ReadNumber(text + s) == Some((Float(text), s))
  {
    hide IsFiniteFloat, NumberRun, IsWhole;
    assert text == "NaN" || text == "Infinity" || text == "-Infinity";
    var t := text + s;
    assert t[..|text|] == text && t[|text|..] == s && t[0] == text[0];
    assert "NaN"[0] == 'N' && "Infinity"[0] == 'I' && "-Infinity"[0] == '-';
  }

  /** The first character tells the kinds of value apart. */
  lemma EncodeHead(ascii: bool, j: Json)
    ensures Encode(ascii, j) != []
    ensures var c := Encode(ascii, j)[0];
      && (c == 'n' <==> j.Null?)
      && (c == 't' <==> j == Bool(true)) && (c == 'f' <==> j == Bool(false))
      && (c == '-' || c == 'N' || c == 'I' || IsDigit(c) <==> IsNumber(j))
      && (c == '"' <==> j.Str?)
      && (c == '[' <==> j.Arr?)
      && (c == '{' <==> j.Obj?)
      && c != ']' && c != '}' && c != ','
  {
    hide IsFiniteFloat;
    if j.Float? && IsFiniteFloat(j.text) { FloatChars(j.text); }
  }

  lemma NotALiteral(t: string)
    requires t != [] && t[0] !in "ntf"
    ensures !Starts(t, "null") && !Starts(t, "true") && !Starts(t, "false")
  {
    assert "null"[0] == 'n' && "true"[0] == 't' && "false"[0] == 'f';
  }

  lemma LiteralReads(ascii: bool, j: Json, s: string)
    requires j.Null? || j.Bool?
    ensures ReadValue(Encode(ascii, j) + s) == Some((j, s))
  {
    hide ReadString, ReadItems, ReadFields, ReadNumber;
    var w := Encode(ascii, j);
    var t := w + s;
    assert t[..|w|] == w && t[|w|..] == s && t[0] == w[0];
    assert "null"[0] == 'n' && "true"[0] == 't' && "false"[0] == 'f';
  }

  /** A value is read off the front of any text that goes on after it. */
  lemma {:induction false} ValueReads(ascii: bool, j: Json, s: string)
    requires Boundary(s)
    ensures ReadValue(Encode(ascii, j) + s) == Some((j, s))
    decreases j, 1, 0
  {
    hide Encode, ReadValue;
    match j
    case Null => LiteralReads(ascii, j, s);
    case Bool(b) => LiteralReads(ascii, j, s);
    case Int(n) =>
      NumberReads(j, s);
      NumberValue(ascii, j, s);
    case Float(text) =>
      NumberReads(j, s);
      NumberValue(ascii, j, s);
    case Str(a) => StringValue(ascii, a, s);
    case Arr(items) =>
      ItemsRead(ascii, true, items, s);
      ArrayValue(ascii, items, s);
    case Obj(fields) =>
      FieldsRead(ascii, None, SortedKeys(fields.Keys), j, s);
      ObjectValue(ascii, j, s);
  }

  lemma StringValue(ascii: bool, a: string, s: string)
    ensures ReadValue(Encode(ascii, Str(a)) + s) == Some((Str(a), s))
  {
    hide ReadString, Quote, ReadItems, ReadFields, ReadNumber;
    QuoteReads(ascii, a, s);
    NotALiteral(Quote(ascii, a) + s);
  }

  lemma ArrayValue(ascii: bool, items: seq<Json>, s: string)
    requires ReadItems(true, ItemsText(ascii, true, items) + s) == Some((items, s))
    ensures ReadValue(Encode(ascii, Arr(items)) + s) == Some((Arr(items), s))
  {
    hide ReadString, ReadItems, ReadFields, ReadNumber, ItemsText;
    var t := Encode(ascii, Arr(items)) + s;
    OpeningDropped('[', ItemsText(ascii, true, items), s);
    NotALiteral(t);
  }

  lemma ObjectValue(ascii: bool, j: Json, s: string)
    requires j.Obj?
    requires var keys := SortedKeys(j.fields.Keys);
      ReadFields(None, FieldsText(ascii, true, keys, j) + s) == Some((map k | k in keys :: j.fields[k], s))
    ensures ReadValue(Encode(ascii, j) + s) == Some((j, s))
  {
    hide ReadString, ReadItems, ReadFields, ReadNumber, FieldsText, SortedKeys;
    var keys := SortedKeys(j.fields.Keys);
    OpeningDropped('{', FieldsText(ascii, true, keys, j), s);
    NotALiteral(Encode(ascii, j) + s);
    AllFields(j.fields, keys);
  }

  lemma AllFields(m: map<string, Json>, keys: seq<string>)
    requires forall k :: k in keys <==> k in m.Keys
    ensures (map k | k in keys :: m[k]) == m
  {
  }

  lemma NumberValue(ascii: bool, j: Json, s: string)
    requires IsNumber(j) && ReadNumber(Encode(false, j) + s) == Some((j, s))
    ensures ReadValue(Encode(ascii, j) + s) == Some((j, s))
  {
    hide ReadString, ReadItems, ReadFields, ReadNumber, IntText;
    var t := Encode(ascii, j) + s;
    EncodeHead(ascii, j);
    Head(Encode(ascii, j), s);
    NotALiteral(t);
  }

  lemma OpeningDropped(c: char, body: string, s: string)
    ensures ([c] + body + s)[1..] == body + s
  {
  }

  lemma ItemsHead(ascii: bool, first: bool, items: seq<Json>, s: string)
    ensures var text := ItemsText(ascii, first, items) + s;
      && text != []
      && (text[0] == ']' <==> items == [])
      && (!first ==> Boundary(text))
  {
    if items != [] { EncodeHead(ascii, items[0]); }
  }

  lemma {:induction false} ItemsRead(ascii: bool, first: bool, items: seq<Json>, s: string)
    ensures ReadItems(first, ItemsText(ascii, first, items) + s) == Some((items, s))
    decreases items, 0, 0
  {
    hide Encode, ReadValue;
    var t := ItemsText(ascii, first, items) + s;
    ItemsHead(ascii, first, items, s);
    if items == [] {
      assert t[1..] == s;
    } else {
      var rest := ItemsText(ascii, false, items[1..]) + s;
      ItemsStep(ascii, first, items, s);
      ItemsHead(ascii, false, items[1..], s);
      ValueReads(ascii, items[0], rest);
      ItemsRead(ascii, false, items[1..], s);
      assert items == [items[0]] + items[1..];
    }
  }

  lemma AfterComma(first: bool, body: string, s: string)
    requires body != []
    ensures var t := (if first then "" else ",") + body + s;
      && t != [] && (!first ==> t[0] == ',')
      && (if first then t else t[1..]) == body + s
  {
    if first { assert "" + body == body; }
  }

  lemma ItemsStep(ascii: bool, first: bool, xs: seq<Json>, s: string)
    requires xs != []
    ensures var t := ItemsText(ascii, first, xs) + s;
      && t != [] && (!first ==> t[0] == ',')
      && (if first then t else t[1..]) == Encode(ascii, xs[0]) + (ItemsText(ascii, false, xs[1..]) + s)
  {
    hide Encode;
    var e, rest := Encode(ascii, xs[0]), ItemsText(ascii, false, xs[1..]);
    EncodeHead(ascii, xs[0]);
    Assoc(e, rest, s);
    AfterComma(first, e + rest, s);
  }

  lemma FieldsHead(ascii: bool, first: bool, keys: seq<string>, j: Json, s: string)
    requires j.Obj? && forall k :: k in keys ==> k in j.fields
    ensures var text := FieldsText(ascii, first, keys, j) + s;
      && text != []
      && (text[0] == '}' <==> keys == [])
      && (!first ==> Boundary(text))
  {
  }

  lemma {:induction false} FieldsRead(ascii: bool, last: Option<string>, keys: seq<string>, j: Json, s: string)
    requires j.Obj? && forall k :: k in keys ==> k in j.fields
    requires Ordered(TextLe, keys) && Distinct(keys)
    requires last.Some? && keys != [] ==> !TextLe(keys[0], last.value)
    ensures ReadFields(last, FieldsText(ascii, last.None?, keys, j) + s) == Some((map k | k in keys :: j.fields[k], s))
    decreases j, 0, |keys|
  {
    hide Encode, ReadValue, ReadKey, TextLe, Quote;
    var t := FieldsText(ascii, last.None?, keys, j) + s;
    FieldsHead(ascii, last.None?, keys, j, s);
    if keys == [] {
      assert t[1..] == s;
      assert (map k | k in keys :: j.fields[k]) == map[];
    } else {
      var k, tail := keys[0], keys[1..];
      var rest := FieldsText(ascii, false, tail, j) + s;
      FieldsStep(ascii, last.None?, keys, j, s);
      KeyReads(ascii, k, Encode(ascii, j.fields[k]) + rest);
      FieldsHead(ascii, false, tail, j, s);
      ValueReads(ascii, j.fields[k], rest);
      if tail != [] { Ascending(k, tail[0]); }
      FieldsRead(ascii, Some(k), tail, j, s);
      FieldRead(last, t, k, j.fields[k], Encode(ascii, j.fields[k]) + rest, rest, map x | x in tail :: j.fields[x], s);
      SplitFields(j.fields, keys);
    }
  }

  lemma FieldRead(
    last: Option<string>, t: string, k: string, x: Json, after: string, rest: string, m: map<string, Json>, s: string)
    requires t != [] && t[0] != '}' && (last.Some? ==> t[0] == ',' && !TextLe(k, last.value))
    requires ReadKey(if last.None? then t else t[1..]) == Some((k, after))
    requires ReadValue(after) == Some((x, rest)) && ReadFields(Some(k), rest) == Some((m, s))
    ensures ReadFields(last, t) == Some((map[k := x] + m, s))
  {
    hide ReadKey, ReadValue, TextLe;
  }

  lemma SplitFields(m: map<string, Json>, keys: seq<string>)
    requires keys != [] && forall k :: k in keys ==> k in m
    ensures (map k | k in keys :: m[k]) == map[keys[0] := m[keys[0]]] + (map k | k in keys[1..] :: m[k])
  {
    assert keys == [keys[0]] + keys[1..];
  }

  lemma Ascending(a: string, b: string)
    requires TextLe(a, b) && a != b
    ensures !TextLe(b, a)
  {
    if TextLe(b, a) { TextAntisymmetric(a, b); }
  }

  lemma KeyReads(ascii: bool, k: string, rest: string)
    ensures ReadKey(Quote(ascii, k) + (":" + rest)) == Some((k, rest))
  {
    hide Quote;
    QuoteReads(ascii, k, ":" + rest);
    assert (":" + rest)[1..] == rest;
  }

  lemma FieldsStep(ascii: bool, first: bool, ks: seq<string>, x: Json, s: string)
    requires x.Obj? && ks != [] && forall k :: k in ks ==> k in x.fields
    ensures var t := FieldsText(ascii, first, ks, x) + s;
      && t != [] && (!first ==> t[0] == ',')
      && (if first then t else t[1..])
        == Quote(ascii, ks[0]) + (":" + (Encode(ascii, x.fields[ks[0]]) + (FieldsText(ascii, false, ks[1..], x) + s)))
  {
    hide Encode, Quote;
    var q, e := Quote(ascii, ks[0]), Encode(ascii, x.fields[ks[0]]);
    var rest := FieldsText(ascii, false, ks[1..], x);
    Assoc(q, ":" + (e + rest), s);
    Assoc(":", e + rest, s);
    Assoc(e, rest, s);
    AfterComma(first, q + (":" + (e + rest)), s);
  }

  /** Round trip: the canonical text of a value stands for that value. */
  lemma ParseInvertsEncode(ascii: bool, j: Json)
    ensures Parse(Encode(ascii, j)) == Some(j)
  {
    hide ReadValue;
    assert Encode(ascii, j) + [] == Encode(ascii, j);
    ValueReads(ascii, j, []);
  }

  /** Two values with the same canonical text are the same value. */
  lemma EncodeInjective(ascii: bool, x: Json, y: Json)
    requires Encode(ascii, x) == Encode(ascii, y)
    ensures x == y
  {
    hide Encode, Parse;
    ParseInvertsEncode(ascii, x);
    ParseInvertsEncode(ascii, y);
  }

  // ----- the characters of canonical texts

  /** How each character is written inside a string literal. */
  lemma EscapeTable(ascii: bool, c: char)
    ensures c == '"' ==> Escape(ascii, c) == ['\\', '"']
    ensures c == '\\' ==> Escape(ascii, c) == ['\\', '\\']
    ensures c as int == 8 ==> Escape(ascii, c) == ['\\', 'b']
    ensures c as int == 9 ==> Escape(ascii, c) == ['\\', 't']
    ensures c as int == 10 ==> Escape(ascii, c) == ['\\', 'n']
    ensures c as int == 12 ==> Escape(ascii, c) == ['\\', 'f']
    ensures c as int == 13 ==> Escape(ascii, c) == ['\\', 'r']
    ensures c as int >= 0x20 && c != '"' && c != '\\' && (c <= '~' || !ascii) ==> Escape(ascii, c) == [c]
    ensures (c as int < 0x20 && c as int !in {8, 9, 10, 12, 13}) || (ascii && c > '~') ==>
      var e := Escape(ascii, c);
      if c as int < 0x10000 then LowerUnit(e) else |e| == 12 && LowerUnit(e[..6]) && LowerUnit(e[6..])
  {
    hide UnicodeEscape;
    if c as int >= 0x10000 {
      UnitLower(HighSurrogate(c));
      UnitLower(LowSurrogate(c));
      if ascii { PairLower(UnicodeEscape(HighSurrogate(c)), UnicodeEscape(LowSurrogate(c))); }
    } else {
      UnitLower(c as int);
    }
  }

  /** A code unit with four lower-case hexadecimal digits. */
  predicate LowerUnit(e: string) {
    |e| == 6 && e[0] == '\\' && e[1] == 'u' && forall i :: 2 <= i < 6 ==> IsDigit(e[i]) || 'a' <= e[i] <= 'f'
  }

  lemma UnitLower(u: nat)
    requires u < 0x10000
    ensures LowerUnit(UnicodeEscape(u))
  {
    var hi, lo := Hex2(u / 0x100), Hex2(u % 0x100);
    assert UnicodeEscape(u) == ['\\', 'u', hi[0], hi[1], lo[0], lo[1]];
  }

  lemma PairLower(a: string, b: string)
    requires LowerUnit(a) && LowerUnit(b)
    ensures (a + b)[..6] == a && (a + b)[6..] == b && Printable(a + b)
  {
  }

  predicate Printable(s: string) { forall i :: 0 <= i < |s| ==> ' ' <= s[i] <= '~' }

  lemma {:induction false} ClosedPrintable(a: string)
    ensures Printable(Closed(true, a))
  {
    hide Escape;
    if a != [] {
      ClosedPrintable(a[1..]);
      EscapePrintable(a[0]);
    }
  }

  lemma EscapePrintable(c: char)
    ensures Printable(Escape(true, c))
  {
    hide Escape;
    EscapeTable(true, c);
    if c as int >= 0x10000 { PairLower(Escape(true, c)[..6], Escape(true, c)[6..]); }
  }

  /** With the ascii flag the whole text is printable ASCII. */
  lemma {:induction false} AsciiText(j: Json)
    ensures Printable(Encode(true, j))
    decreases j, 1, 0
  {
    hide IntText, Closed, IsFiniteFloat, IsFloatText, ItemsText, FieldsText, SortedKeys;
    match j
    case Null =>
    case Bool(b) =>
    case Int(n) => IntTextWhole(n);
    case Float(text) => FloatPrintable(text);
    case Str(a) => ClosedPrintable(a);
    case Arr(items) => AsciiItems(true, items);
    case Obj(fields) => AsciiFields(true, SortedKeys(fields.Keys), j);
  }

  lemma FloatPrintable(text: FloatText)
    ensures Printable(text)
  {
    hide IsFiniteFloat;
    if IsFiniteFloat(text) { FloatChars(text); }
  }

  lemma {:induction false} AsciiItems(first: bool, items: seq<Json>)
    ensures Printable(ItemsText(true, first, items))
    decreases items, 0, 0
  {
    hide Encode;
    if items != [] {
      AsciiText(items[0]);
      AsciiItems(false, items[1..]);
    }
  }

  lemma {:induction false} AsciiFields(first: bool, keys: seq<string>, j: Json)
    requires j.Obj? && forall k :: k in keys ==> k in j.fields
    ensures Printable(FieldsText(true, first, keys, j))
    decreases j, 0, |keys|
  {
    hide Encode, Closed;
    if keys != [] {
      ClosedPrintable(keys[0]);
      AsciiText(j.fields[keys[0]]);
      AsciiFields(false, keys[1..], j);
    }
  }

  // ----- insertion order

  /** A value as a program holds it: every dictionary lists its entries in the order they were added. */
  datatype Written = Leaf(value: Json) | Items(items: seq<Written>) | Entries(keys: seq<string>, values: seq<Written>)

  predicate Proper(w: Written) {
    match w
    case Leaf(v) => !v.Arr? && !v.Obj?
    case Items(items) => forall x :: x in items ==> Proper(x)
    case Entries(keys, values) => Distinct(keys) && |keys| == |values| && forall x :: x in values ==> Proper(x)
  }

  function IndexOf(keys: seq<string>, k: string): (i: nat)
    requires k in keys
    ensures i < |keys| && keys[i] == k
  {
    if keys[0] == k then 0 else 1 + IndexOf(keys[1..], k)
  }

  function Entry(w: Written, k: string): (v: Written)
    requires w.Entries? && |w.keys| == |w.values| && k in w.keys
    ensures v in w.values && v < w
  {
    w.values[IndexOf(w.keys, k)]
  }

  /** The value, its dictionaries without order. */
  function ValueOf(w: Written): Json
    requires Proper(w)
  {
    match w
    case Leaf(v) => v
    case Items(items) => Arr(seq(|items|, i requires 0 <= i < |items| => ValueOf(items[i])))
    case Entries(keys, values) => Obj(map k | k in keys :: ValueOf(Entry(w, k)))
  }

  /** The text as the writer makes it: each dictionary's own key list is sorted on the way. */
  function Write(ascii: bool, w: Written): string
    requires Proper(w)
    decreases w, 1, 0
  {
    match w
    case Leaf(v) => Encode(ascii, v)
    case Items(items) => "[" + WriteItems(ascii, true, items)
    case Entries(keys, values) =>
      SortedMembers(keys);
      "{" + WriteFields(ascii, true, Sorted(TextLe, keys), w)
  }

  function WriteItems(ascii: bool, first: bool, items: seq<Written>): string
    requires forall x :: x in items ==> Proper(x)
    decreases items, 0, 0
  {
    if items == [] then "]"
    else (if first then "" else ",") + (Write(ascii, items[0]) + WriteItems(ascii, false, items[1..]))
  }

  function WriteFields(ascii: bool, first: bool, keys: seq<string>, w: Written): string
    requires w.Entries? && Proper(w) && forall k :: k in keys ==> k in w.keys
    decreases w, 0, |keys|
  {
    if keys == [] then "}" else
      (if first then "" else ",")
      + (Quote(ascii, keys[0]) + (":" + (Write(ascii, Entry(w, keys[0])) + WriteFields(ascii, false, keys[1..], w))))
  }

  lemma SortedMembers(keys: seq<string>)
    ensures forall k :: k in Sorted(TextLe, keys) <==> k in keys
  {
    TextOrder();
    SortedSorts(TextLe, keys);
    assert forall k :: k in Sorted(TextLe, keys) <==> k in multiset(Sorted(TextLe, keys));
    assert forall k :: k in keys <==> k in multiset(keys);
  }

  /** What is written is the canonical text of the value. */
  lemma {:induction false} WriteIsEncode(ascii: bool, w: Written)
    requires Proper(w)
    ensures Write(ascii, w) == Encode(ascii, ValueOf(w))
    decreases w, 1, 0
  {
    match w
    case Leaf(v) =>
    case Items(items) =>
      WriteItemsIsText(ascii, true, items);
    case Entries(keys, values) =>
      SortedMembers(keys);
      WriteFieldsIsText(ascii, true, Sorted(TextLe, keys), w);
      EntriesText(ascii, w);
  }

  lemma EntriesText(ascii: bool, w: Written)
    requires Proper(w) && w.Entries?
    requires forall k :: k in Sorted(TextLe, w.keys) ==> k in w.keys
    requires WriteFields(ascii, true, Sorted(TextLe, w.keys), w)
          == FieldsText(ascii, true, Sorted(TextLe, w.keys), ValueOf(w))
    ensures Write(ascii, w) == Encode(ascii, ValueOf(w))
  {
    hide WriteFields, FieldsText, Sorted, SortedKeys;
    SortedKeysOfAnyOrder(w.keys, ValueOf(w).fields.Keys);
  }

  lemma {:induction false} WriteItemsIsText(ascii: bool, first: bool, items: seq<Written>)
    requires forall x :: x in items ==> Proper(x)
    ensures WriteItems(ascii, first, items)
         == ItemsText(ascii, first, seq(|items|, i requires 0 <= i < |items| => ValueOf(items[i])))
    decreases items, 0, 0
  {
    if items != [] {
      WriteIsEncode(ascii, items[0]);
      WriteItemsIsText(ascii, false, items[1..]);
      var all := seq(|items|, i requires 0 <= i < |items| => ValueOf(items[i]));
      var tail := items[1..];
      assert all[1..] == seq(|tail|, i requires 0 <= i < |tail| => ValueOf(tail[i]));
    }
  }

  lemma {:induction false} WriteFieldsIsText(ascii: bool, first: bool, keys: seq<string>, w: Written)
    requires w.Entries? && Proper(w) && forall k :: k in keys ==> k in w.keys
    ensures WriteFields(ascii, first, keys, w) == FieldsText(ascii, first, keys, ValueOf(w))
    decreases w, 0, |keys|
  {
    if keys != [] {
      WriteIsEncode(ascii, Entry(w, keys[0]));
      WriteFieldsIsText(ascii, false, keys[1..], w);
    }
  }

  /** At every depth, the order in which dictionaries were filled leaves no trace in the text:
      two values are written alike exactly when they are equal. */
  lemma InsertionOrderIrrelevant(ascii: bool, v: Written, w: Written)
    requires Proper(v) && Proper(w)
    ensures Write(ascii, v) == Write(ascii, w) <==> ValueOf(v) == ValueOf(w)
  {
    WriteIsEncode(ascii, v);
    WriteIsEncode(ascii, w);
    if Write(ascii, v) == Write(ascii, w) { EncodeInjective(ascii, ValueOf(v), ValueOf(w)); }
  }

  // ----- digests

  /** Two different texts with one digest. */
  predicate Collision(sha256: string -> string, a: string, b: string) { a != b && sha256(a) == sha256(b) }

  function Digest(sha256: string -> string, ascii: bool, j: Json): string { sha256(Encode(ascii, j)) }

  /** Equal digests mean equal values, or a collision between their two texts. */
  lemma DigestFixesValue(sha256: string -> string, ascii: bool, x: Json, y: Json)
    requires Digest(sha256, ascii, x) == Digest(sha256, ascii, y)
    ensures x == y || Collision(sha256, Encode(ascii, x), Encode(ascii, y))
  {
    if Encode(ascii, x) == Encode(ascii, y) { EncodeInjective(ascii, x, y); }
  }

  /** No NaN or infinity anywhere. */
  predicate AllFinite(j: Json) {
    match j
    case Float(text) => IsFiniteFloat(text)
    case Arr(items) => forall x :: x in items ==> AllFinite(x)
    case Obj(fields) => forall k :: k in fields ==> AllFinite(j.fields[k])
    case _ => true
  }

  /** Which values are finite, case by case. */
  lemma AllFiniteMeans(j: Json)
    ensures AllFinite(j) <==>
      match j
      case Float(text) => text != "NaN" && text != "Infinity" && text != "-Infinity"
      case Arr(items) => forall i :: 0 <= i < |items| ==> AllFinite(items[i])
      case Obj(fields) => forall k :: k in fields ==> AllFinite(fields[k])
      case _ => true
  {
    hide IsFiniteFloat, IsFloatText;
    if j.Float? { FiniteIff(j.text); }
  }

  lemma FiniteIff(text: FloatText)
    ensures IsFiniteFloat(text) <==> text != "NaN" && text != "Infinity" && text != "-Infinity"
  {
    hide IsFiniteFloat;
    assert "NaN"[0] == 'N' && "Infinity"[0] == 'I' && "-Infinity"[1] == 'I';
    if IsFiniteFloat(text) { FloatChars(text); }
  }

  /** Python equality of a looked-up value with a small natural number: 1, True and 1.0 are equal. */
  predicate EqualsInt(v: Json, n: nat) {
    v == Int(n) || (v.Float? && v.text == IntText(n) + ".0") || (n == 1 && v == Bool(true))
  }

  lemma EqualsIntUnique(v: Json, m: nat, n: nat)
    requires EqualsInt(v, m) && EqualsInt(v, n)
    ensures m == n
  {
    if v.Float? {
      assert IntText(m) == v.text[..|v.text| - 2] == IntText(n);
      IntTextInjective(m, n);
    }
  }

  /** Dictionary lookup with None for a missing key. */
  function Get(m: map<string, Json>, key: string): Json { if key in m then m[key] else Null }

  /** What a digest stored under digestKey is taken of. */
  function Body(m: map<string, Json>, digestKey: string): Json { Obj(m - {digestKey}) }

  /** Storing the digest of a body beside the body. */
  lemma Sealed(body: map<string, Json>, key: string, digest: Json)
    requires key !in body
    ensures var m := body[key := digest];
      && Body(m, key) == Obj(body) && Get(m, key) == digest
      && forall k :: k != key ==> Get(m, k) == Get(body, k)
  {
    assert body[key := digest] - {key} == body;
  }

  lemma SamePayload(x: map<string, Json>, y: map<string, Json>, key: string)
    requires Encode(true, Body(x, key)) == Encode(true, Body(y, key)) && key in x && key in y && x[key] == y[key]
    ensures x == y
  {
    hide Encode;
    EncodeInjective(true, Body(x, key), Body(y, key));
    assert x == (x - {key})[key := x[key]] && y == (y - {key})[key := y[key]];
  }
}
