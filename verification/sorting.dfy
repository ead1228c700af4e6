/** Python's sort with a key function, as decorate-sort-undecorate: every
    element is paired with its key, the pairs are ordered by key, and elements
    with equal keys keep their input order (Python's sort is stable). */
module Sorting {

  datatype Keyed<T> = Keyed(key: int, item: T)

  predicate SortedByKey<T>(xs: seq<Keyed<T>>)
  {
    forall i, j :: 0 <= i < j < |xs| ==> xs[i].key <= xs[j].key
  }

  /** The elements of xs whose key is k, in their order in xs. */
  function WithKey<T>(xs: seq<Keyed<T>>, k: int): seq<Keyed<T>>
  {
    if xs == [] then [] else (if xs[0].key == k then [xs[0]] else []) + WithKey(xs[1..], k)
  }

  function Items<T>(xs: seq<Keyed<T>>): (r: seq<T>)
    ensures |r| == |xs|
    ensures forall i :: 0 <= i < |xs| ==> r[i] == xs[i].item
  {
    if xs == [] then [] else [xs[0].item] + Items(xs[1..])
  }

  /** Puts x in front of the first element of s whose key is not smaller. */
  function InsertByKey<T(==)>(x: Keyed<T>, s: seq<Keyed<T>>): (r: seq<Keyed<T>>)
    ensures multiset(r) == multiset(s) + multiset{x}
  {
    if s == [] then [x]
    else if x.key <= s[0].key then [x] + s
    else
      assert s == [s[0]] + s[1..];
      [s[0]] + InsertByKey(x, s[1..])
  }

  lemma PrependSorted<T>(y: Keyed<T>, s: seq<Keyed<T>>)
    requires SortedByKey(s)
    requires forall z :: z in s ==> y.key <= z.key
    ensures SortedByKey([y] + s)
  {
    var r := [y] + s;
    forall i, j | 0 <= i < j < |r| ensures r[i].key <= r[j].key {
      assert r[j] == s[j - 1];
      if i > 0 {
        assert r[i] == s[i - 1];
      }
    }
  }

  lemma TailSorted<T>(s: seq<Keyed<T>>)
    requires SortedByKey(s) && s != []
    ensures SortedByKey(s[1..])
    ensures forall z :: z in s[1..] ==> s[0].key <= z.key
  {
    var tail := s[1..];
    forall i, j | 0 <= i < j < |tail| ensures tail[i].key <= tail[j].key {
      assert tail[i] == s[i + 1] && tail[j] == s[j + 1];
    }
    forall z | z in tail ensures s[0].key <= z.key {
      var m :| 0 <= m < |tail| && tail[m] == z;
      assert z == s[m + 1];
    }
  }

  lemma {:induction false} InsertByKeySorted<T>(x: Keyed<T>, s: seq<Keyed<T>>)
    requires SortedByKey(s)
    ensures SortedByKey(InsertByKey(x, s))
  {
    if s == [] {
    } else if x.key <= s[0].key {
      TailSorted(s);
      assert s == [s[0]] + s[1..];
      PrependSorted(x, s);
    } else {
      var rest := InsertByKey(x, s[1..]);
      TailSorted(s);
      InsertByKeySorted(x, s[1..]);
      forall y | y in rest ensures s[0].key <= y.key {
        assert y in multiset(rest);
        assert y == x || y in multiset(s[1..]);
      }
      PrependSorted(s[0], rest);
    }
  }

  /** Stable insertion sort by key. */
  function SortByKey<T(==)>(xs: seq<Keyed<T>>): (r: seq<Keyed<T>>)
    ensures SortedByKey(r)
    ensures multiset(r) == multiset(xs)
    ensures |r| == |xs|
  {
    if xs == [] then []
    else
      assert xs == [xs[0]] + xs[1..];
      var r := InsertByKey(xs[0], SortByKey(xs[1..]));
      InsertByKeySorted(xs[0], SortByKey(xs[1..]));
      assert |r| == |multiset(r)|;
      r
  }

  /** Inserting x adds x, and only x, to the elements carrying its key, in
      front of them; the other keys' elements are untouched. */
  lemma {:induction false} InsertByKeyWithKey<T>(x: Keyed<T>, s: seq<Keyed<T>>, k: int)
    ensures WithKey(InsertByKey(x, s), k) == (if x.key == k then [x] else []) + WithKey(s, k)
  {
    if s == [] {
      assert WithKey([x], k) == (if x.key == k then [x] else []) + WithKey([x][1..], k);
    } else if x.key <= s[0].key {
      assert ([x] + s)[1..] == s;
    } else {
      var rest := InsertByKey(x, s[1..]);
      InsertByKeyWithKey(x, s[1..], k);
      assert ([s[0]] + rest)[1..] == rest;
      assert WithKey([s[0]] + rest, k) == (if s[0].key == k then [s[0]] else []) + WithKey(rest, k);
    }
  }

  /** Stability: for every key, the elements with that key appear in the
      sorted sequence in exactly their input order. */
  lemma {:induction false} SortByKeyStable<T>(xs: seq<Keyed<T>>, k: int)
    ensures WithKey(SortByKey(xs), k) == WithKey(xs, k)
  {
    if xs != [] {
      SortByKeyStable(xs[1..], k);
      InsertByKeyWithKey(xs[0], SortByKey(xs[1..]), k);
    }
  }
}
