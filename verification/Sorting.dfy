/** Sorting by a key, under any total preorder of the keys. */
module Sorting {

  /** Any two keys compare, and comparison is transitive. */
  ghost predicate Comparable<K(!new)>(atMost: (K, K) -> bool) {
    && (forall a, b :: atMost(a, b) || atMost(b, a))
    && (forall a, b, c :: atMost(a, b) && atMost(b, c) ==> atMost(a, c))
  }

  ghost predicate Ordered<T(!new), K>(s: seq<T>, key: T -> K, atMost: (K, K) -> bool) {
    forall i, j :: 0 <= i < j < |s| ==> atMost(key(s[i]), key(s[j]))
  }

  function Insert<T(!new), K(!new)>(x: T, s: seq<T>, key: T -> K, atMost: (K, K) -> bool): (r: seq<T>)
    requires Comparable(atMost) && Ordered(s, key, atMost)
    ensures multiset(r) == multiset(s) + multiset{x}
    ensures Ordered(r, key, atMost)
  {
    if s == [] then [x]
    else if atMost(key(x), key(s[0])) then
      assert forall j :: 0 < j < |s| ==> atMost(key(s[0]), key(s[j]));
      [x] + s
    else
      assert s == [s[0]] + s[1..];
      var rest := Insert(x, s[1..], key, atMost);
      FirstStaysFirst(x, s, rest, key, atMost);
      [s[0]] + rest
  }

  lemma FirstStaysFirst<T(!new), K(!new)>(x: T, s: seq<T>, rest: seq<T>, key: T -> K, atMost: (K, K) -> bool)
    requires Comparable(atMost) && s != [] && Ordered(s, key, atMost) && !atMost(key(x), key(s[0]))
    requires multiset(rest) == multiset(s[1..]) + multiset{x}
    ensures forall j :: 0 <= j < |rest| ==> atMost(key(s[0]), key(rest[j]))
  {
    forall j | 0 <= j < |rest| ensures atMost(key(s[0]), key(rest[j])) {
      assert rest[j] in multiset(rest);
      if rest[j] != x { assert rest[j] in s[1..]; }
    }
  }

  function SortBy<T(!new), K(!new)>(s: seq<T>, key: T -> K, atMost: (K, K) -> bool): (r: seq<T>)
    requires Comparable(atMost)
    ensures multiset(r) == multiset(s)
    ensures Ordered(r, key, atMost)
  {
    if s == [] then [] else assert s == [s[0]] + s[1..]; Insert(s[0], SortBy(s[1..], key, atMost), key, atMost)
  }

  // ----- the byte order of strings -------------------------------------------------------------------

  predicate AtMost(a: string, b: string) {
    a == "" || (b != "" && (a[0] < b[0] || (a[0] == b[0] && AtMost(a[1..], b[1..]))))
  }

  lemma {:induction false} AtMostTotal(a: string, b: string)
    ensures AtMost(a, b) || AtMost(b, a)
  {
    if a != "" && b != "" && a[0] == b[0] { AtMostTotal(a[1..], b[1..]); }
  }

  lemma {:induction false} AtMostTransitive(a: string, b: string, c: string)
    requires AtMost(a, b) && AtMost(b, c)
    ensures AtMost(a, c)
  {
    if a != "" && a[0] == b[0] == c[0] { AtMostTransitive(a[1..], b[1..], c[1..]); }
  }

  lemma StringsCompare()
    ensures Comparable(AtMost)
  {
    forall a: string, b: string ensures AtMost(a, b) || AtMost(b, a) { AtMostTotal(a, b); }
    forall a: string, b: string, c: string | AtMost(a, b) && AtMost(b, c) ensures AtMost(a, c) { AtMostTransitive(a, b, c); }
  }
}
