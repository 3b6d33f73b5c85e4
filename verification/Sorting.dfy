/** Sorting, and the code-point order of texts. */
module Sorting {

  ghost predicate TotalOrder<T(!new)>(le: (T, T) -> bool) {
    && (forall x, y :: le(x, y) || le(y, x))
    && (forall x, y :: le(x, y) && le(y, x) ==> x == y)
    && (forall x, y, z :: le(x, y) && le(y, z) ==> le(x, z))
  }

  predicate Ordered<T>(le: (T, T) -> bool, s: seq<T>) {
    forall i, j :: 0 <= i < j < |s| ==> le(s[i], s[j])
  }

  predicate Distinct<T(==)>(s: seq<T>) {
    forall i, j :: 0 <= i < j < |s| ==> s[i] != s[j]
  }

  function Insert<T>(le: (T, T) -> bool, x: T, s: seq<T>): seq<T> {
    if s == [] || le(x, s[0]) then [x] + s else [s[0]] + Insert(le, x, s[1..])
  }

  function Sorted<T>(le: (T, T) -> bool, s: seq<T>): seq<T> {
    if s == [] then [] else Insert(le, s[0], Sorted(le, s[1..]))
  }

  lemma {:induction false} InsertKeeps<T(!new)>(le: (T, T) -> bool, x: T, s: seq<T>)
    requires TotalOrder(le) && Ordered(le, s)
    ensures Ordered(le, Insert(le, x, s))
    ensures multiset(Insert(le, x, s)) == multiset{x} + multiset(s)
  {
    if s == [] {
    } else if le(x, s[0]) {
      forall j | 0 <= j < |s| ensures le(x, s[j]) {}
    } else {
      InsertKeeps(le, x, s[1..]);
      var t := Insert(le, x, s[1..]);
      assert s == [s[0]] + s[1..];
      assert multiset(s) == multiset{s[0]} + multiset(s[1..]);
      forall y | y in t ensures le(s[0], y) {
        assert y in multiset(t);
        if y != x { assert y in s[1..]; }
      }
    }
  }

  /** Sorting yields the elements of s, in order. */
  lemma {:induction false} SortedSorts<T(!new)>(le: (T, T) -> bool, s: seq<T>)
    requires TotalOrder(le)
    ensures Ordered(le, Sorted(le, s))
    ensures multiset(Sorted(le, s)) == multiset(s)
    ensures |Sorted(le, s)| == |s|
  {
    if s != [] {
      SortedSorts(le, s[1..]);
      InsertKeeps(le, s[0], Sorted(le, s[1..]));
      assert s == [s[0]] + s[1..];
      assert |multiset(Sorted(le, s))| == |multiset(s)|;
    }
  }

  lemma SameHead<T(!new)>(le: (T, T) -> bool, s: seq<T>, t: seq<T>)
    requires TotalOrder(le) && Ordered(le, s) && Ordered(le, t) && multiset(s) == multiset(t) && s != [] && t != []
    ensures s[0] == t[0]
  {
    assert s[0] in multiset(t) && t[0] in multiset(s);
    var i :| 0 <= i < |t| && t[i] == s[0];
    var j :| 0 <= j < |s| && s[j] == t[0];
    assert i == 0 || le(t[0], t[i]);
    assert j == 0 || le(s[0], s[j]);
  }

  lemma SameTail<T>(s: seq<T>, t: seq<T>)
    requires multiset(s) == multiset(t) && s != [] && t != [] && s[0] == t[0]
    ensures multiset(s[1..]) == multiset(t[1..])
  {
    assert s == [s[0]] + s[1..] && t == [t[0]] + t[1..];
    assert multiset(s[1..]) == multiset(s) - multiset{s[0]};
    assert multiset(t[1..]) == multiset(t) - multiset{t[0]};
  }

  /** There is only one way to put given elements in order. */
  lemma {:induction false} OrderedUnique<T(!new)>(le: (T, T) -> bool, s: seq<T>, t: seq<T>)
    requires TotalOrder(le) && Ordered(le, s) && Ordered(le, t) && multiset(s) == multiset(t)
    ensures s == t
  {
    assert |s| == |multiset(s)| == |multiset(t)| == |t|;
    if s != [] {
      SameHead(le, s, t);
      SameTail(s, t);
      OrderedUnique(le, s[1..], t[1..]);
      assert s == [s[0]] + s[1..] && t == [t[0]] + t[1..];
    }
  }

  /** Sorting forgets the order its input came in. */
  lemma SortedOfPermutation<T(!new)>(le: (T, T) -> bool, s: seq<T>, t: seq<T>)
    requires TotalOrder(le) && multiset(s) == multiset(t)
    ensures Sorted(le, s) == Sorted(le, t)
  {
    SortedSorts(le, s);
    SortedSorts(le, t);
    OrderedUnique(le, Sorted(le, s), Sorted(le, t));
  }

  // ----- texts

  /** Comparison of texts by code point. */
  predicate TextLe(a: string, b: string) {
    a == [] || (b != [] && (a[0] < b[0] || (a[0] == b[0] && TextLe(a[1..], b[1..]))))
  }

  lemma {:induction false} TextTotal(a: string, b: string)
    ensures TextLe(a, b) || TextLe(b, a)
  {
    if a != [] && b != [] { TextTotal(a[1..], b[1..]); }
  }

  lemma {:induction false} TextAntisymmetric(a: string, b: string)
    requires TextLe(a, b) && TextLe(b, a)
    ensures a == b
  {
    if a != [] {
      TextAntisymmetric(a[1..], b[1..]);
      assert a == [a[0]] + a[1..] && b == [b[0]] + b[1..];
    }
  }

  lemma {:induction false} TextTransitive(a: string, b: string, c: string)
    requires TextLe(a, b) && TextLe(b, c)
    ensures TextLe(a, c)
  {
    if a != [] && a[0] == b[0] == c[0] { TextTransitive(a[1..], b[1..], c[1..]); }
  }

  lemma TextOrder()
    ensures TotalOrder(TextLe)
  {
    forall x, y ensures TextLe(x, y) || TextLe(y, x) { TextTotal(x, y); }
    forall x, y | TextLe(x, y) && TextLe(y, x) ensures x == y { TextAntisymmetric(x, y); }
    forall x, y, z | TextLe(x, y) && TextLe(y, z) ensures TextLe(x, z) { TextTransitive(x, y, z); }
  }

  /** a and b first differ at i, where a has the smaller character. */
  predicate SmallerAt(a: string, b: string, i: nat) {
    i < |a| && i < |b| && a[i] < b[i] && forall k :: 0 <= k < i ==> a[k] == b[k]
  }

  /** The order of texts: a beginning comes first, otherwise the first difference decides. */
  lemma {:induction false} TextLeMeans(a: string, b: string)
    ensures TextLe(a, b) <==> a <= b || exists i: nat :: SmallerAt(a, b, i)
  {
    if a != [] && b != [] && a[0] == b[0] {
      TextLeMeans(a[1..], b[1..]);
      assert a == [a[0]] + a[1..] && b == [b[0]] + b[1..];
      if i: nat :| SmallerAt(a, b, i) { assert SmallerAt(a[1..], b[1..], i - 1); }
      if i: nat :| SmallerAt(a[1..], b[1..], i) { assert SmallerAt(a, b, i + 1); }
    } else if a != [] && b != [] {
      if a[0] < b[0] { assert SmallerAt(a, b, 0); }
    }
  }

  predicate Least(k: string, s: set<string>) { k in s && forall j :: j in s ==> TextLe(k, j) }

  lemma LeastText(s: set<string>)
    requires s != {}
    ensures exists k :: Least(k, s)
    ensures forall j, k :: Least(j, s) && Least(k, s) ==> j == k
    decreases |s|
  {
    TextOrder();
    var x :| x in s;
    if s == {x} {
      assert Least(x, s);
    } else {
      LeastText(s - {x});
      var k :| Least(k, s - {x});
      assert Least(if TextLe(k, x) then k else x, s);
    }
  }

  /** A set of texts listed in order. */
  function SortedKeys(s: set<string>): (r: seq<string>)
    ensures Ordered(TextLe, r) && Distinct(r)
    ensures forall k :: k in r <==> k in s
    decreases |s|
  {
    if s == {} then []
    else
      LeastText(s);
      var k :| Least(k, s);
      var rest := SortedKeys(s - {k});
      PrependLeast(k, s, rest);
      [k] + rest
  }

  lemma PrependLeast(k: string, s: set<string>, rest: seq<string>)
    requires Least(k, s) && Ordered(TextLe, rest) && Distinct(rest)
    requires forall j :: j in rest <==> j in s - {k}
    ensures Ordered(TextLe, [k] + rest) && Distinct([k] + rest)
    ensures forall j :: j in [k] + rest <==> j in s
  {
    var r := [k] + rest;
    forall i, j | 0 <= i < j < |r| ensures TextLe(r[i], r[j]) && r[i] != r[j] {
      assert r[j] in rest;
    }
  }

  /** There is only one strictly ordered listing of a set. */
  lemma SortedKeysUnique(keys: seq<string>, s: set<string>)
    requires Ordered(TextLe, keys) && Distinct(keys) && forall k :: k in keys <==> k in s
    ensures keys == SortedKeys(s)
  {
    TextOrder();
    var t := SortedKeys(s);
    forall k ensures multiset(t)[k] == multiset(keys)[k] {
      DistinctCount(t, k);
      DistinctCount(keys, k);
    }
    OrderedUnique(TextLe, keys, t);
  }

  /** Listing keys in any order and then sorting gives that listing. */
  lemma SortedKeysOfAnyOrder(keys: seq<string>, s: set<string>)
    requires Distinct(keys) && forall k :: k in keys <==> k in s
    ensures Sorted(TextLe, keys) == SortedKeys(s)
  {
    TextOrder();
    SortedSorts(TextLe, keys);
    var t := Sorted(TextLe, keys);
    assert forall k :: (k in t <==> k in multiset(t)) && (k in keys <==> k in multiset(keys));
    forall i, j | 0 <= i < j < |t| ensures t[i] != t[j] {
      if t[i] == t[j] { CountTwice(t, i, j); DistinctCount(keys, t[i]); }
    }
    SortedKeysUnique(t, s);
  }

  lemma CountTwice<T>(t: seq<T>, i: nat, j: nat)
    requires i < j < |t| && t[i] == t[j]
    ensures multiset(t)[t[i]] >= 2
  {
    assert t == t[..j] + t[j..];
    assert t[i] in t[..j] && t[i] in t[j..];
    assert multiset(t) == multiset(t[..j]) + multiset(t[j..]);
  }

  lemma {:induction false} DistinctCount<T>(s: seq<T>, k: T)
    requires Distinct(s)
    ensures multiset(s)[k] == if k in s then 1 else 0
  {
    if s != [] {
      DistinctCount(s[1..], k);
      assert s == [s[0]] + s[1..];
      assert s[0] !in s[1..];
    }
  }
}
