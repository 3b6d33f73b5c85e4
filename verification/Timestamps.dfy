/** UTC timestamps in ISO 8601 text and the order of those texts. */
module Timestamps {
  import opened Numerals
  import opened Sorting
  import opened Texts
  import opened Wrappers

  /** Calendar fields in UTC; aware tells whether the datetime carries a time zone. */
  datatype DateTime = DateTime(
    aware: bool,
    year: nat, month: nat, day: nat,
    hour: nat, minute: nat, second: nat, micro: nat)

  predicate LeapYear(year: nat) { year % 4 == 0 && (year % 100 != 0 || year % 400 == 0) }

  function DaysIn(year: nat, month: nat): nat {
    if month == 2 then (if LeapYear(year) then 29 else 28)
    else if month in {4, 6, 9, 11} then 30 else 31
  }

  predicate InCalendar(m: DateTime) {
    && 1 <= m.year <= 9999 && 1 <= m.month <= 12 && 1 <= m.day <= DaysIn(m.year, m.month)
    && m.hour < 24 && m.minute < 60 && m.second < 60 && m.micro < 1000000
  }

  type Moment = m: DateTime | InCalendar(m) witness DateTime(true, 2000, 1, 1, 0, 0, 0, 0)

  /** Three fields with a mark between them, the first one w digits wide. */
  function Triple(x: nat, w: nat, y: nat, z: nat, mark: string): string {
    Padded(x, w) + (mark + (Padded(y, 2) + (mark + Padded(z, 2))))
  }

  /** Date and time down to the second. */
  function Stamp(m: Moment): string {
    Triple(m.year, 4, m.month, m.day, "-") + ("T" + Triple(m.hour, 2, m.minute, m.second, ":"))
  }

  /** Microseconds are written only when there are any. */
  function Fraction(m: Moment): string { if m.micro == 0 then "Z" else "." + (Padded(m.micro, 6) + "Z") }

  function Text(m: Moment): string { Stamp(m) + Fraction(m) }

  function Utc(m: Moment): Option<string> { if m.aware then Some(Text(m)) else None }

  /** Whole seconds in calendar order. */
  function SecondOf(m: Moment): nat {
    ((((m.year * 13 + m.month) * 32 + m.day) * 24 + m.hour) * 60 + m.minute) * 60 + m.second
  }

  predicate Before(a: Moment, b: Moment) {
    SecondOf(a) < SecondOf(b) || (SecondOf(a) == SecondOf(b) && a.micro < b.micro)
  }

  /** The check made before an event is appended: the new text is greater than the last one. */
  predicate Increases(last: string, next: string) { !TextLe(next, last) }

  // ----- texts compared part by part

  lemma {:induction false} ComparePrefix(p: string, q: string, s: string, t: string)
    requires |p| == |q|
    ensures TextLe(p + s, q + t) <==> if p == q then TextLe(s, t) else TextLe(p, q)
  {
    if p == [] {
      assert p + s == s && q + t == t;
    } else {
      assert (p + s)[0] == p[0] && (q + t)[0] == q[0];
      assert (p + s)[1..] == p[1..] + s && (q + t)[1..] == q[1..] + t;
      assert p == [p[0]] + p[1..] && q == [q[0]] + q[1..];
      ComparePrefix(p[1..], q[1..], s, t);
    }
  }

  lemma {:induction false} ComparePadded(a: nat, b: nat, width: nat)
    requires a < Pow10(width) && b < Pow10(width)
    ensures TextLe(Padded(a, width), Padded(b, width)) <==> a <= b
    ensures Padded(a, width) == Padded(b, width) <==> a == b
  {
    if width > 0 {
      ComparePadded(a / 10, b / 10, width - 1);
      var s, t := [DigitChar(a % 10)], [DigitChar(b % 10)];
      ComparePrefix(Padded(a / 10, width - 1), Padded(b / 10, width - 1), s, t);
      if Padded(a, width) == Padded(b, width) {
        Rest(Padded(a / 10, width - 1), s, Padded(b / 10, width - 1), t);
        assert s[0] == t[0];
      }
    }
  }

  lemma CompareField(a: nat, b: nat, width: nat, s: string, t: string)
    requires a < Pow10(width) && b < Pow10(width) && |s| == |t|
    ensures TextLe(Padded(a, width) + s, Padded(b, width) + t) <==> a < b || (a == b && TextLe(s, t))
    ensures Padded(a, width) + s == Padded(b, width) + t <==> a == b && s == t
  {
    ComparePadded(a, b, width);
    ComparePrefix(Padded(a, width), Padded(b, width), s, t);
    if Padded(a, width) + s == Padded(b, width) + t { Rest(Padded(a, width), s, Padded(b, width), t); }
  }

  lemma CompareMark(mark: string, s: string, t: string)
    ensures TextLe(mark + s, mark + t) <==> TextLe(s, t)
    ensures mark + s == mark + t <==> s == t
  {
    ComparePrefix(mark, mark, s, t);
    if mark + s == mark + t { Rest(mark, s, mark, t); }
  }

  lemma CompareTriples(x: nat, x': nat, w: nat, y: nat, y': nat, z: nat, z': nat, mark: string)
    requires x < Pow10(w) && x' < Pow10(w) && y < 100 && y' < 100 && z < 100 && z' < 100
    ensures var t, t' := Triple(x, w, y, z, mark), Triple(x', w, y', z', mark);
      && |t| == |t'|
      && (TextLe(t, t') <==> x < x' || (x == x' && (y < y' || (y == y' && z <= z'))))
      && (t == t' <==> x == x' && y == y' && z == z')
  {
    hide Padded, TextLe;
    assert Pow10(2) == 100;
    var s, s' := Padded(z, 2), Padded(z', 2);
    ComparePadded(z, z', 2);
    CompareMark(mark, s, s');
    CompareField(y, y', 2, mark + s, mark + s');
    CompareMark(mark, Padded(y, 2) + (mark + s), Padded(y', 2) + (mark + s'));
    CompareField(x, x', w, mark + (Padded(y, 2) + (mark + s)), mark + (Padded(y', 2) + (mark + s')));
  }

  lemma DayBound(m: Moment)
    ensures m.day <= 31
  {
  }

  /** Stamps compare in calendar order. */
  lemma CompareStamps(a: Moment, b: Moment)
    ensures |Stamp(a)| == |Stamp(b)|
    ensures TextLe(Stamp(a), Stamp(b)) <==> SecondOf(a) <= SecondOf(b)
    ensures Stamp(a) == Stamp(b) <==> SecondOf(a) == SecondOf(b)
  {
    hide Triple, TextLe, DaysIn;
    DayBound(a);
    DayBound(b);
    assert Pow10(2) == 100 && Pow10(4) == 10000;
    var date, date' := Triple(a.year, 4, a.month, a.day, "-"), Triple(b.year, 4, b.month, b.day, "-");
    var time, time' := Triple(a.hour, 2, a.minute, a.second, ":"), Triple(b.hour, 2, b.minute, b.second, ":");
    CompareTriples(a.year, b.year, 4, a.month, b.month, a.day, b.day, "-");
    CompareTriples(a.hour, b.hour, 2, a.minute, b.minute, a.second, b.second, ":");
    CompareMark("T", time, time');
    ComparePrefix(date, date', "T" + time, "T" + time');
    if Stamp(a) == Stamp(b) { Rest(date, "T" + time, date', "T" + time'); }
  }

  lemma CompareFractions(a: Moment, b: Moment)
    ensures TextLe(Fraction(a), Fraction(b)) <==>
      if (a.micro == 0) == (b.micro == 0) then a.micro <= b.micro else b.micro == 0
  {
    assert Pow10(6) == 1000000;
    if a.micro > 0 && b.micro > 0 {
      CompareMark(".", Padded(a.micro, 6) + "Z", Padded(b.micro, 6) + "Z");
      CompareField(a.micro, b.micro, 6, "Z", "Z");
    }
  }

  /** One moment shows microseconds and the other does not, within the same second. */
  predicate MixedForms(a: Moment, b: Moment) {
    SecondOf(a) == SecondOf(b) && (a.micro == 0) != (b.micro == 0)
  }

  /** The text comparison decides time order exactly when the two forms are not mixed within a second. */
  lemma TextOrderIffTimeOrder(last: Moment, next: Moment)
    ensures (Increases(Text(last), Text(next)) <==> Before(last, next)) <==> !MixedForms(last, next)
  {
    CompareStamps(next, last);
    CompareFractions(next, last);
    ComparePrefix(Stamp(next), Stamp(last), Fraction(next), Fraction(last));
  }

  // ----- reading timestamps

  lemma ReadLast(front: string, d: nat)
    requires AllDigits(front) && d < 10
    ensures AllDigits(front + [DigitChar(d)])
    ensures ReadDigits(front + [DigitChar(d)]) == 10 * ReadDigits(front) + d
  {
    assert (front + [DigitChar(d)])[..|front|] == front;
  }

  lemma {:induction false} ReadPadded(n: nat, width: nat)
    requires n < Pow10(width)
    ensures ReadDigits(Padded(n, width)) == n
  {
    if width > 0 {
      ReadPadded(n / 10, width - 1);
      ReadLast(Padded(n / 10, width - 1), n % 10);
    }
  }

  predicate DigitsAt(s: string, from: nat, to: nat) { from <= to <= |s| && AllDigits(s[from..to]) }

  /** The moment a text stands for, None when it is no timestamp. */
  function MomentOf(s: string): (r: Option<Moment>)
    ensures r.Some? ==> r.value.aware && Text(r.value) == s
  {
    if !(|s| == 20 || |s| == 27) then None
    else if !(DigitsAt(s, 0, 4) && DigitsAt(s, 5, 7) && DigitsAt(s, 8, 10)) then None
    else if !(DigitsAt(s, 11, 13) && DigitsAt(s, 14, 16) && DigitsAt(s, 17, 19)) then None
    else if |s| == 27 && !DigitsAt(s, 20, 26) then None
    else
      var m := DateTime(true,
        ReadDigits(s[0..4]), ReadDigits(s[5..7]), ReadDigits(s[8..10]),
        ReadDigits(s[11..13]), ReadDigits(s[14..16]), ReadDigits(s[17..19]),
        if |s| == 27 then ReadDigits(s[20..26]) else 0);
      if InCalendar(m) && Text(m) == s then Some(m) else None
  }

  predicate IsTimestamp(s: string) { MomentOf(s).Some? }

  lemma TripleSlices(x: nat, w: nat, y: nat, z: nat, mark: string)
    requires |mark| == 1
    ensures var t := Triple(x, w, y, z, mark);
      && |t| == w + 6 && t[..w] == Padded(x, w) && t[w + 1..w + 3] == Padded(y, 2) && t[w + 4..w + 6] == Padded(z, 2)
  {
    hide Padded;
    var a, b, c := Padded(x, w), Padded(y, 2), Padded(z, 2);
    var t := Triple(x, w, y, z, mark);
    assert t == a + mark + b + mark + c;
  }

  lemma StampSlices(m: Moment)
    ensures var s := Text(m);
      && |s| == (if m.micro == 0 then 20 else 27)
      && s[0..4] == Padded(m.year, 4) && s[5..7] == Padded(m.month, 2) && s[8..10] == Padded(m.day, 2)
      && s[11..13] == Padded(m.hour, 2) && s[14..16] == Padded(m.minute, 2) && s[17..19] == Padded(m.second, 2)
      && (m.micro != 0 ==> s[20..26] == Padded(m.micro, 6))
  {
    hide Padded, Triple;
    var date, time := Triple(m.year, 4, m.month, m.day, "-"), Triple(m.hour, 2, m.minute, m.second, ":");
    TripleSlices(m.year, 4, m.month, m.day, "-");
    TripleSlices(m.hour, 2, m.minute, m.second, ":");
    var s := Text(m);
    assert s == date + "T" + time + Fraction(m);
    assert s[0..10] == date && s[11..19] == time;
    assert s[0..4] == date[..4] && s[5..7] == date[5..7] && s[8..10] == date[8..10];
    assert s[11..13] == time[..2] && s[14..16] == time[3..5] && s[17..19] == time[6..8];
    assert s[19..] == Fraction(m);
    if m.micro != 0 { assert s[20..26] == Fraction(m)[1..7] == Padded(m.micro, 6); }
  }

  /** The Gregorian calendar. */
  lemma CalendarMeans(year: nat)
    ensures DaysIn(year, 2) == (if year % 400 == 0 || (year % 4 == 0 && year % 100 != 0) then 29 else 28)
    ensures forall m :: m in {1, 3, 5, 7, 8, 10, 12} ==> DaysIn(year, m) == 31
    ensures forall m :: m in {4, 6, 9, 11} ==> DaysIn(year, m) == 30
  {
  }

  /** The text, character by character: the date, a T, the time, and microseconds only when there are any. */
  lemma TextMeans(m: Moment)
    ensures var s := Text(m);
      && |s| == (if m.micro == 0 then 20 else 27)
      && s[4] == '-' && s[7] == '-' && s[10] == 'T' && s[13] == ':' && s[16] == ':'
      && (if m.micro == 0 then s[19] == 'Z' else s[19] == '.' && s[26] == 'Z')
      && AllDigits(s[0..4] + s[5..7] + s[8..10] + s[11..13] + s[14..16] + s[17..19])
      && ReadDigits(s[0..4]) == m.year && ReadDigits(s[5..7]) == m.month && ReadDigits(s[8..10]) == m.day
      && ReadDigits(s[11..13]) == m.hour && ReadDigits(s[14..16]) == m.minute && ReadDigits(s[17..19]) == m.second
      && (m.micro != 0 ==> AllDigits(s[20..26]) && ReadDigits(s[20..26]) == m.micro)
  {
    hide Padded, ReadDigits;
    assert Pow10(2) == 100 && Pow10(4) == 10000 && Pow10(6) == 1000000;
    StampSlices(m);
    TextMarks(m);
    ReadPadded(m.year, 4);
    ReadPadded(m.month, 2);
    ReadPadded(m.day, 2);
    ReadPadded(m.hour, 2);
    ReadPadded(m.minute, 2);
    ReadPadded(m.second, 2);
    ReadPadded(m.micro, 6);
  }

  lemma TextMarks(m: Moment)
    ensures var s := Text(m);
      && |s| == (if m.micro == 0 then 20 else 27)
      && s[4] == '-' && s[7] == '-' && s[10] == 'T' && s[13] == ':' && s[16] == ':'
      && (if m.micro == 0 then s[19] == 'Z' else s[19] == '.' && s[26] == 'Z')
  {
    hide Padded;
  }

  /** Round trip: every text written for a moment is read as that moment. */
  lemma TextReadsBack(m: Moment)
    ensures MomentOf(Text(m)) == Some(m.(aware := true))
  {
    hide Text, Padded, ReadDigits;
    assert Pow10(2) == 100 && Pow10(4) == 10000 && Pow10(6) == 1000000;
    StampSlices(m);
    ReadPadded(m.year, 4);
    ReadPadded(m.month, 2);
    ReadPadded(m.day, 2);
    ReadPadded(m.hour, 2);
    ReadPadded(m.minute, 2);
    ReadPadded(m.second, 2);
    ReadPadded(m.micro, 6);
    TextIgnoresZone(m);
  }

  lemma TextIgnoresZone(m: Moment)
    ensures Text(m.(aware := true)) == Text(m)
  {
  }
}
