/**
  sort.Slice taken at its word: a function that returns a sorted permutation.
 */
module Sorting {

  ghost predicate Sorted<T(!new)>(xs: seq<T>, before: (T, T) -> bool) {
    forall a, b :: 0 <= a < b < |xs| ==> !before(xs[b], xs[a])
  }

  /** What sort.Slice asks of its less function. */
  ghost predicate Ordering<T(!new)>(before: (T, T) -> bool) {
    (forall x, y :: before(x, y) ==> !before(y, x)) &&
    (forall x, y, z :: !before(y, x) && !before(z, y) ==> !before(z, x))
  }

  function Insert<T>(x: T, xs: seq<T>, before: (T, T) -> bool): (r: seq<T>)
    ensures multiset(r) == multiset{x} + multiset(xs)
    ensures |r| == |xs| + 1
  {
    if xs == [] || before(x, xs[0]) then [x] + xs
    else
      assert xs == [xs[0]] + xs[1..];
      [xs[0]] + Insert(x, xs[1..], before)
  }

  function Sort<T>(xs: seq<T>, before: (T, T) -> bool): (r: seq<T>)
    ensures multiset(r) == multiset(xs)
    ensures |r| == |xs|
  {
    if xs == [] then []
    else
      assert xs == [xs[0]] + xs[1..];
      Insert(xs[0], Sort(xs[1..], before), before)
  }

  lemma SameMembers<T>(a: seq<T>, b: seq<T>, x: T)
    requires multiset(a) == multiset(b)
    ensures x in a <==> x in b
  {
    assert x in a <==> x in multiset(a);
    assert x in b <==> x in multiset(b);
  }

  lemma {:induction false} InsertSorted<T(!new)>(x: T, xs: seq<T>, before: (T, T) -> bool)
    requires Ordering(before) && Sorted(xs, before)
    ensures Sorted(Insert(x, xs, before), before)
    decreases xs
  {
    if xs == [] || before(x, xs[0]) {
    } else {
      InsertSorted(x, xs[1..], before);
      var r := Insert(x, xs[1..], before);
      forall b | 0 <= b < |r|
        ensures !before(r[b], xs[0])
      {
        assert r[b] in multiset(r);
        assert r[b] == x || r[b] in xs[1..];
      }
    }
  }

  lemma {:induction false} SortSorted<T(!new)>(xs: seq<T>, before: (T, T) -> bool)
    requires Ordering(before)
    ensures Sorted(Sort(xs, before), before)
    decreases xs
  {
    if xs != [] {
      SortSorted(xs[1..], before);
      InsertSorted(xs[0], Sort(xs[1..], before), before);
    }
  }

  /** No two elements have the same key. */
  ghost predicate DistinctBy<T(!new)>(xs: seq<T>, key: T -> nat) {
    forall a, b :: 0 <= a < b < |xs| ==> key(xs[a]) != key(xs[b])
  }

  lemma {:induction false} InsertDistinct<T(!new)>(x: T, xs: seq<T>, before: (T, T) -> bool, key: T -> nat)
    requires DistinctBy(xs, key) && forall m :: 0 <= m < |xs| ==> key(xs[m]) != key(x)
    ensures DistinctBy(Insert(x, xs, before), key)
    decreases xs
  {
    if xs == [] || before(x, xs[0]) {
    } else {
      InsertDistinct(x, xs[1..], before, key);
      var r := Insert(x, xs[1..], before);
      forall b | 0 <= b < |r|
        ensures key(r[b]) != key(xs[0])
      {
        assert r[b] in multiset(r);
        assert r[b] == x || r[b] in xs[1..];
      }
    }
  }

  lemma {:induction false} SortDistinct<T(!new)>(xs: seq<T>, before: (T, T) -> bool, key: T -> nat)
    requires DistinctBy(xs, key)
    ensures DistinctBy(Sort(xs, before), key)
    decreases xs
  {
    if xs != [] {
      var rest := Sort(xs[1..], before);
      SortDistinct(xs[1..], before, key);
      forall m | 0 <= m < |rest|
        ensures key(rest[m]) != key(xs[0])
      {
        SameMembers(rest, xs[1..], rest[m]);
      }
      InsertDistinct(xs[0], rest, before, key);
    }
  }

  /** sort.Search: where the elements between lo and hi, in order of position, reach mid. */
  method Search<T>(xs: seq<T>, lo: nat, hi: nat, position: T -> nat, mid: nat) returns (split: nat)
    requires lo <= hi <= |xs|
    requires forall a, b :: lo <= a < b < hi ==> position(xs[a]) <= position(xs[b])
    ensures lo <= split <= hi
    ensures forall m :: lo <= m < split ==> position(xs[m]) < mid
    ensures forall m :: split <= m < hi ==> position(xs[m]) >= mid
  {
    var a, b := lo, hi;
    while a < b
      invariant lo <= a <= b <= hi
      invariant forall m :: lo <= m < a ==> position(xs[m]) < mid
      invariant forall m :: b <= m < hi ==> position(xs[m]) >= mid
    {
      var c := (a + b) / 2;
      if position(xs[c]) >= mid {
        b := c;
      } else {
        a := c + 1;
      }
    }
    split := a;
  }
}
