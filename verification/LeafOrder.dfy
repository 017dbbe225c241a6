/**
  The order in which updateLeaves visits leaves (merkle/accumulator.go:282-297):
  by tree, then by position.
 */
module LeafOrder {
  import opened Types
  import opened Forest
  import opened Sorting

  predicate Before(a: ElementLeaf, b: ElementLeaf) {
    if |a.state.merkleProof| != |b.state.merkleProof| then |a.state.merkleProof| < |b.state.merkleProof|
    else a.state.leafIndex < b.state.leafIndex
  }

  function Position(l: ElementLeaf): nat {
    l.state.leafIndex
  }

  /** No two leaves are at the same position. */
  ghost predicate Distinct(ls: seq<ElementLeaf>) {
    DistinctBy(ls, Position)
  }

  lemma SortLeaves(ls: seq<ElementLeaf>)
    requires Distinct(ls)
    ensures Sorted(Sort(ls, Before), Before) && Distinct(Sort(ls, Before))
  {
    assert Ordering(Before);
    SortSorted(ls, Before);
    SortDistinct(ls, Before, Position);
  }

  /** Where each height's leaves are, in a list sorted by height. */
  datatype Slice = Slice(lo: nat, hi: nat)

  ghost predicate Groups(ls: seq<ElementLeaf>, slices: seq<Slice>) {
    |slices| == MAX_TREES &&
    forall h :: 0 <= h < MAX_TREES ==> IsGroup(ls, slices[h], h)
  }

  /** The slice holds exactly the leaves whose proofs have length h. */
  ghost predicate IsGroup(ls: seq<ElementLeaf>, s: Slice, h: nat) {
    s.lo <= s.hi <= |ls| &&
    forall m :: 0 <= m < |ls| ==> (s.lo <= m < s.hi <==> |ls[m].state.merkleProof| == h)
  }

  /** Groups sorted leaves by tree. */
  method GroupByTree(ls: seq<ElementLeaf>) returns (slices: array<Slice>)
    requires Sorted(ls, Before)
    requires forall m :: 0 <= m < |ls| ==> |ls[m].state.merkleProof| < MAX_TREES
    ensures fresh(slices) && Groups(ls, slices[..])
  {
    slices := new Slice[MAX_TREES](_ => Slice(0, 0));
    var lo := 0;
    while lo < |ls|
      invariant 0 <= lo <= |ls| && slices.Length == MAX_TREES
      invariant forall a, b :: 0 <= a < lo <= b < |ls| ==> |ls[a].state.merkleProof| < |ls[b].state.merkleProof|
      invariant forall h :: 0 <= h < MAX_TREES ==> slices[h].lo <= slices[h].hi <= lo
      invariant forall h, m :: 0 <= h < MAX_TREES && 0 <= m < lo ==>
        (slices[h].lo <= m < slices[h].hi <==> |ls[m].state.merkleProof| == h)
    {
      var height := |ls[lo].state.merkleProof|;
      var i := lo;
      while i < |ls| && |ls[i].state.merkleProof| == height
        invariant lo <= i <= |ls|
        invariant forall m :: lo <= m < i ==> |ls[m].state.merkleProof| == height
      {
        i := i + 1;
      }
      assert i > lo;
      forall b | i <= b < |ls|
        ensures |ls[b].state.merkleProof| > height
      {
        assert !Before(ls[b], ls[i]) && !Before(ls[i], ls[lo]);
      }
      slices[height] := Slice(lo, i);
      lo := i;
    }
  }
}
