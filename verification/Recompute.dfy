/**
  Recomputing one tree after some of its leaves were overwritten: the
  recursive core of updateLeaves (merkle/accumulator.go:254-280), which edits
  the proofs of all overwritten leaves in place.
 */
module Recompute {
  import opened Bits
  import opened Types
  import opened Merkle
  import opened Forest
  import opened Sorting

  /** leaves[lo..hi] are in strictly increasing order of position. */
  ghost predicate Ascending(leaves: seq<ElementLeaf>, lo: nat, hi: nat) {
    lo <= hi <= |leaves| &&
    forall a, b :: lo <= a < b < hi ==> leaves[a].state.leafIndex < leaves[b].state.leafIndex
  }

  /** The leaf lies in the block of height h at i, and its proof up to h is its path over xs. */
  ghost predicate ProvedBelow(l: ElementLeaf, i: nat, h: nat, xs: seq<Hash>) {
    i <= l.state.leafIndex < i + Pow2(h) && h <= |l.state.merkleProof| &&
    BlockFits(|xs|, l.state.leafIndex, h) && l.state.merkleProof[..h] == Path(xs, l.state.leafIndex, h)
  }

  ghost predicate AllProvedBelow(leaves: seq<ElementLeaf>, lo: nat, hi: nat, i: nat, h: nat, xs: seq<Hash>) {
    lo <= hi <= |leaves| && forall m :: lo <= m < hi ==> ProvedBelow(leaves[m], i, h, xs)
  }

  /** On positions i..j, ys is xs with leaves[lo..hi] written over it. */
  ghost predicate Overwritten(leaves: seq<ElementLeaf>, lo: nat, hi: nat, i: nat, j: nat, xs: seq<Hash>,
          ys: seq<Hash>) {
    lo <= hi <= |leaves| && i <= j <= |xs| == |ys| &&
    (forall m :: lo <= m < hi ==>
      leaves[m].state.leafIndex < |ys| && ys[leaves[m].state.leafIndex] == leaves[m].Hash()) &&
    (forall p :: i <= p < j && (forall m :: lo <= m < hi ==> leaves[m].state.leafIndex != p) ==> ys[p] == xs[p])
  }

  /** b is a with a different proof of the same length, the same from height h on. */
  ghost predicate Reproved(a: ElementLeaf, b: ElementLeaf, h: nat) {
    b == a.(state := a.state.(merkleProof := b.state.merkleProof)) &&
    |b.state.merkleProof| == |a.state.merkleProof| && h <= |a.state.merkleProof| &&
    b.state.merkleProof[h..] == a.state.merkleProof[h..]
  }

  function WithSibling(l: ElementLeaf, k: nat, root: Hash): ElementLeaf
    requires k < |l.state.merkleProof|
  {
    l.(state := l.state.(merkleProof := l.state.merkleProof[k := root]))
  }

  /** after is before with entry k of the proofs of leaves[lo..hi] set to root. */
  ghost predicate SiblingsSet(before: seq<ElementLeaf>, after: seq<ElementLeaf>, lo: nat, hi: nat, k: nat, root: Hash) {
    lo <= hi <= |before| == |after| &&
    (forall m :: lo <= m < hi ==> k < |before[m].state.merkleProof| && after[m] == WithSibling(before[m], k, root)) &&
    (forall m :: 0 <= m < |before| && !(lo <= m < hi) ==> after[m] == before[m])
  }

  /** Writes entry k of the proofs of leaves[lo..hi]. */
  method SetSiblings(leaves: array<ElementLeaf>, lo: nat, hi: nat, k: nat, root: Hash)
    requires lo <= hi <= leaves.Length
    requires forall m :: lo <= m < hi ==> k < |leaves[m].state.merkleProof|
    modifies leaves
    ensures SiblingsSet(old(leaves[..]), leaves[..], lo, hi, k, root)
  {
    for m := lo to hi
      invariant SiblingsSet(old(leaves[..]), leaves[..], lo, m, k, root)
      invariant forall n :: m <= n < hi ==> leaves[n] == old(leaves[n])
    {
      leaves[m] := WithSibling(leaves[m], k, root);
    }
  }

  // ---------------------------------------------------------------- one level of the recursion

  /** Start of the half of the block at i that does not hold p. */
  function OtherHalf(i: nat, h: nat, p: nat): nat
    requires h > 0
  {
    if p < i + Pow2(h - 1) then i + Pow2(h - 1) else i
  }

  lemma HalfSibling(i: nat, h: nat, p: nat, n: nat)
    requires h > 0 && Aligned(i, h) && i <= p < i + Pow2(h) <= n
    ensures Aligned(i, h - 1) && Aligned(i + Pow2(h - 1), h - 1)
    ensures ClearBits(p, h) == i && SiblingStart(p, h - 1) == OtherHalf(i, h, p)
    ensures BlockFits(n, p, h) && BlockFits(n, p, h - 1)
  {
    AlignedStep(i, h - 1);
    ClearInBlock(i, h, p);
    BitIsSide(i, h - 1, p);
    ClearStep(p, h - 1);
  }

  /** A proof up to h is a proof up to h - 1 and the root of the other half. */
  lemma ProvedSplit(l: ElementLeaf, i: nat, h: nat, xs: seq<Hash>)
    requires h > 0 && Aligned(i, h) && i + Pow2(h) <= |xs|
    requires i <= l.state.leafIndex < i + Pow2(h) && h <= |l.state.merkleProof|
    ensures ProvedBelow(l, i, h, xs) <==>
      ProvedBelow(l, if l.state.leafIndex < i + Pow2(h - 1) then i else i + Pow2(h - 1), h - 1, xs) &&
      l.state.merkleProof[h - 1] == Root(xs, OtherHalf(i, h, l.state.leafIndex), h - 1)
  {
    var p, proof := l.state.leafIndex, l.state.merkleProof;
    HalfSibling(i, h, p, |xs|);
    assert proof[..h] == proof[..h - 1] + [proof[h - 1]];
  }

  /** A block in which no leaf was overwritten keeps its root. */
  lemma Untouched(leaves: seq<ElementLeaf>, lo: nat, hi: nat, i: nat, j: nat, xs: seq<Hash>, ys: seq<Hash>, at: nat,
          h: nat)
    requires Overwritten(leaves, lo, hi, i, j, xs, ys) && i <= at && at + Pow2(h) <= j
    requires forall m :: lo <= m < hi ==> !(at <= leaves[m].state.leafIndex < at + Pow2(h))
    ensures Root(ys, at, h) == Root(xs, at, h)
  {
    RootLocal(xs, ys, at, h);
  }

  /** leaves[lo..hi] are split at mid, and each has its proof up to h - 1 and the root of its other half. */
  ghost predicate Halved(leaves: seq<ElementLeaf>, lo: nat, split: nat, hi: nat, i: nat, h: nat, xs: seq<Hash>) {
    h > 0 && i + Pow2(h) <= |xs| && lo <= split <= hi <= |leaves| &&
    (forall m :: lo <= m < hi ==> h <= |leaves[m].state.merkleProof|) &&
    AllProvedBelow(leaves, lo, split, i, h - 1, xs) && AllProvedBelow(leaves, split, hi, i + Pow2(h - 1), h - 1, xs) &&
    (forall m :: lo <= m < split ==> leaves[m].state.merkleProof[h - 1] == Root(xs, i + Pow2(h - 1), h - 1)) &&
    (forall m :: split <= m < hi ==> leaves[m].state.merkleProof[h - 1] == Root(xs, i, h - 1))
  }

  lemma HalveLeaf(l: ElementLeaf, i: nat, h: nat, xs: seq<Hash>)
    requires h > 0 && Aligned(i, h) && i + Pow2(h) <= |xs| && ProvedBelow(l, i, h, xs)
    ensures h <= |l.state.merkleProof|
    ensures ProvedBelow(l, if l.state.leafIndex < i + Pow2(h - 1) then i else i + Pow2(h - 1), h - 1, xs)
    ensures l.state.merkleProof[h - 1] == Root(xs, OtherHalf(i, h, l.state.leafIndex), h - 1)
  {
    ProvedSplit(l, i, h, xs);
  }

  lemma SplitProofs(leaves: seq<ElementLeaf>, lo: nat, split: nat, hi: nat, i: nat, h: nat, xs: seq<Hash>)
    requires h > 0 && Aligned(i, h) && i + Pow2(h) <= |xs|
    requires AllProvedBelow(leaves, lo, hi, i, h, xs) && lo <= split <= hi
    requires forall m :: lo <= m < split ==> leaves[m].state.leafIndex < i + Pow2(h - 1)
    requires forall m :: split <= m < hi ==> leaves[m].state.leafIndex >= i + Pow2(h - 1)
    ensures Halved(leaves, lo, split, hi, i, h, xs)
  {
    hide ProvedBelow, Path, Root;
    forall m | lo <= m < split
      ensures h <= |leaves[m].state.merkleProof| && ProvedBelow(leaves[m], i, h - 1, xs)
      ensures leaves[m].state.merkleProof[h - 1] == Root(xs, i + Pow2(h - 1), h - 1)
    {
      HalveLeaf(leaves[m], i, h, xs);
    }
    forall m | split <= m < hi
      ensures h <= |leaves[m].state.merkleProof| && ProvedBelow(leaves[m], i + Pow2(h - 1), h - 1, xs)
      ensures leaves[m].state.merkleProof[h - 1] == Root(xs, i, h - 1)
    {
      HalveLeaf(leaves[m], i, h, xs);
    }
  }

  /** after is before with the proofs of leaves[lo..hi] changed below height h only. */
  ghost predicate ReprovedBelow(before: seq<ElementLeaf>, after: seq<ElementLeaf>, lo: nat, hi: nat, h: nat) {
    lo <= hi <= |before| == |after| &&
    (forall m :: lo <= m < hi ==> Reproved(before[m], after[m], h)) &&
    (forall m :: 0 <= m < |before| && !(lo <= m < hi) ==> after[m] == before[m])
  }

  /** after is before with leaves[lo..hi] changed below h and entry h of the proofs of leaves[from..to] set to root. */
  ghost predicate HalfDone(before: seq<ElementLeaf>, after: seq<ElementLeaf>, lo: nat, hi: nat, from: nat, to: nat,
          h: nat, root: Hash) {
    lo <= hi <= |before| == |after| && from <= to <= |before| &&
    (forall m :: lo <= m < hi ==> Reproved(before[m], after[m], h)) &&
    (forall m :: from <= m < to ==> h < |before[m].state.merkleProof| && after[m] == WithSibling(before[m], h, root)) &&
    (forall m :: 0 <= m < |before| && !(lo <= m < hi) && !(from <= m < to) ==> after[m] == before[m])
  }

  /** The two edits of a leaf of the left half: below h - 1 by the recursion, then its sibling entry. */
  lemma LeftLeaf(a: ElementLeaf, b: ElementLeaf, c: ElementLeaf, i: nat, h: nat, ys: seq<Hash>)
    requires h > 0 && Aligned(i, h) && i + Pow2(h) <= |ys|
    requires Reproved(a, b, h - 1) && ProvedBelow(b, i, h - 1, ys)
    requires h <= |b.state.merkleProof| && c == WithSibling(b, h - 1, Root(ys, i + Pow2(h - 1), h - 1))
    ensures Reproved(a, c, h) && ProvedBelow(c, i, h, ys)
  {
    hide Path, Root, Aligned;
    assert c.state.merkleProof[..h - 1] == b.state.merkleProof[..h - 1];
    assert c.state.merkleProof[h..] == b.state.merkleProof[h - 1..][1..] == a.state.merkleProof[h - 1..][1..] ==
      a.state.merkleProof[h..];
    assert ProvedBelow(c, i, h - 1, ys);
    ProvedSplit(c, i, h, ys);
  }

  /** The two edits of a leaf of the right half, in the other order. */
  lemma RightLeaf(a: ElementLeaf, b: ElementLeaf, c: ElementLeaf, i: nat, h: nat, ys: seq<Hash>)
    requires h > 0 && Aligned(i, h) && i + Pow2(h) <= |ys|
    requires h <= |a.state.merkleProof| && b == WithSibling(a, h - 1, Root(ys, i, h - 1))
    requires Reproved(b, c, h - 1) && ProvedBelow(c, i + Pow2(h - 1), h - 1, ys)
    ensures Reproved(a, c, h) && ProvedBelow(c, i, h, ys)
  {
    assert c.state.merkleProof[h - 1] == c.state.merkleProof[h - 1..][0] == b.state.merkleProof[h - 1];
    assert c.state.merkleProof[h..] == c.state.merkleProof[h - 1..][1..] == b.state.merkleProof[h - 1..][1..] ==
      a.state.merkleProof[h..];
    ProvedSplit(c, i, h, ys);
  }

  /** After the left half, the right half is still as it was below h - 1. */
  lemma AfterLeft(l0: seq<ElementLeaf>, l1: seq<ElementLeaf>, lo: nat, split: nat, hi: nat, i: nat, j: nat, h: nat,
                  leftRoot: Hash, xs: seq<Hash>, ys: seq<Hash>)
    requires Ascending(l0, lo, hi) && Overwritten(l0, lo, hi, i, j, xs, ys)
    requires Halved(l0, lo, split, hi, i, h, xs)
    requires HalfDone(l0, l1, lo, split, split, hi, h - 1, leftRoot)
    ensures Ascending(l1, lo, hi) && Overwritten(l1, lo, hi, i, j, xs, ys)
    ensures RightReady(l1, lo, split, hi, i, h, xs)
  {
    hide Root, Path, Aligned, Overwritten;
    StillOverwritten(l0, l1, lo, hi, i, j, xs, ys);
    forall m | split <= m < hi
      ensures ProvedBelow(l1[m], i + Pow2(h - 1), h - 1, xs)
    {
      assert l1[m].state.merkleProof[..h - 1] == l0[m].state.merkleProof[..h - 1];
    }
    forall m | lo <= m < split
      ensures l1[m].state.merkleProof[h - 1] == Root(xs, i + Pow2(h - 1), h - 1)
    {
      assert Reproved(l0[m], l1[m], h - 1);
      assert l1[m].state.merkleProof[h - 1] == l1[m].state.merkleProof[h - 1..][0] ==
        l0[m].state.merkleProof[h - 1..][0];
    }
  }

  lemma OverwrittenBounds(leaves: seq<ElementLeaf>, lo: nat, hi: nat, i: nat, j: nat, xs: seq<Hash>, ys: seq<Hash>)
    requires Overwritten(leaves, lo, hi, i, j, xs, ys)
    ensures i <= j <= |xs| == |ys|
  {
  }

  lemma StillOverwritten(l0: seq<ElementLeaf>, l1: seq<ElementLeaf>, lo: nat, hi: nat, i: nat, j: nat,
                         xs: seq<Hash>, ys: seq<Hash>)
    requires Overwritten(l0, lo, hi, i, j, xs, ys) && lo <= hi <= |l0| == |l1|
    requires forall m :: lo <= m < hi ==> l1[m] == l0[m].(state := l0[m].state.(merkleProof := l1[m].state.merkleProof))
    ensures Overwritten(l1, lo, hi, i, j, xs, ys) && |xs| == |ys|
  {
  }

  /** What the right half needs: its own old proofs, and its old root in the proofs on the left. */
  ghost predicate RightReady(leaves: seq<ElementLeaf>, lo: nat, split: nat, hi: nat, i: nat, h: nat, xs: seq<Hash>) {
    h > 0 && i + Pow2(h) <= |xs| && lo <= split <= hi <= |leaves| &&
    AllProvedBelow(leaves, split, hi, i + Pow2(h - 1), h - 1, xs) &&
    (forall m :: lo <= m < hi ==> h <= |leaves[m].state.merkleProof|) &&
    (forall m :: lo <= m < split ==> leaves[m].state.leafIndex < i + Pow2(h - 1)) &&
    (forall m :: lo <= m < split ==> leaves[m].state.merkleProof[h - 1] == Root(xs, i + Pow2(h - 1), h - 1))
  }

  lemma AfterBoth(l0: seq<ElementLeaf>, l1: seq<ElementLeaf>, l2: seq<ElementLeaf>, lo: nat, split: nat, hi: nat,
                  i: nat, h: nat, ys: seq<Hash>)
    requires h > 0 && Aligned(i, h) && i + Pow2(h) <= |ys|
    requires AllProvedBelow(l1, lo, split, i, h - 1, ys) &&
      HalfDone(l0, l1, lo, split, split, hi, h - 1, Root(ys, i, h - 1))
    requires AllProvedBelow(l2, split, hi, i + Pow2(h - 1), h - 1, ys)
    requires HalfDone(l1, l2, split, hi, lo, split, h - 1, Root(ys, i + Pow2(h - 1), h - 1))
    ensures AllProvedBelow(l2, lo, hi, i, h, ys) && ReprovedBelow(l0, l2, lo, hi, h)
  {
    hide Root, Path, Aligned;
    forall m | lo <= m < hi
      ensures Reproved(l0[m], l2[m], h) && ProvedBelow(l2[m], i, h, ys)
    {
      if m < split {
        assert Reproved(l0[m], l1[m], h - 1) && ProvedBelow(l1[m], i, h - 1, ys);
        LeftLeaf(l0[m], l1[m], l2[m], i, h, ys);
      } else {
        assert Reproved(l1[m], l2[m], h - 1) && ProvedBelow(l2[m], i + Pow2(h - 1), h - 1, ys);
        RightLeaf(l0[m], l1[m], l2[m], i, h, ys);
      }
    }
  }

  // ---------------------------------------------------------------- the recursion

  /** What the left half offers: either a subproblem, or its root in the proofs on the right. */
  lemma LeftPart(leaves: seq<ElementLeaf>, lo: nat, split: nat, hi: nat, i: nat, h: nat, xs: seq<Hash>, ys: seq<Hash>)
    requires lo < hi && Ascending(leaves, lo, hi) && Halved(leaves, lo, split, hi, i, h, xs)
    requires Overwritten(leaves, lo, hi, i, i + Pow2(h), xs, ys)
    ensures lo <= split <= hi <= |leaves| && i + Pow2(h - 1) <= |ys|
    ensures forall m :: split <= m < hi ==> h - 1 < |leaves[m].state.merkleProof|
    ensures split == lo ==> forall m :: split <= m < hi ==> leaves[m].state.merkleProof[h - 1] == Root(ys, i, h - 1)
    ensures split > lo ==> Ascending(leaves, lo, split) && AllProvedBelow(leaves, lo, split, i, h - 1, xs)
    ensures split > lo ==> Overwritten(leaves, lo, split, i, i + Pow2(h - 1), xs, ys)
  {
    if split == lo {
      Untouched(leaves, lo, hi, i, i + Pow2(h), xs, ys, i, h - 1);
    }
  }

  lemma RightPart(leaves: seq<ElementLeaf>, lo: nat, split: nat, hi: nat, i: nat, h: nat, xs: seq<Hash>, ys: seq<Hash>)
    requires lo < hi && Ascending(leaves, lo, hi) && RightReady(leaves, lo, split, hi, i, h, xs)
    requires Overwritten(leaves, lo, hi, i, i + Pow2(h), xs, ys)
    ensures lo <= split <= hi <= |leaves| && i + Pow2(h - 1) + Pow2(h - 1) <= |ys|
    ensures forall m :: lo <= m < split ==> h - 1 < |leaves[m].state.merkleProof|
    ensures split == hi ==>
      forall m :: lo <= m < split ==> leaves[m].state.merkleProof[h - 1] == Root(ys, i + Pow2(h - 1), h - 1)
    ensures split < hi ==> Ascending(leaves, split, hi) && AllProvedBelow(leaves, split, hi, i + Pow2(h - 1), h - 1, xs)
    ensures split < hi ==> Overwritten(leaves, split, hi, i + Pow2(h - 1), i + Pow2(h), xs, ys)
  {
    if split == hi {
      Untouched(leaves, lo, hi, i, i + Pow2(h), xs, ys, i + Pow2(h - 1), h - 1);
    }
  }

  /** Recursion into one half, then the entries of the other. */
  lemma Recursed(l0: seq<ElementLeaf>, l1: seq<ElementLeaf>, l2: seq<ElementLeaf>, lo: nat, hi: nat, from: nat, to: nat,
                 i: nat, h: nat, root: Hash, ys: seq<Hash>)
    requires hi <= from || to <= lo
    requires ReprovedBelow(l0, l1, lo, hi, h) && SiblingsSet(l1, l2, from, to, h, root)
    requires AllProvedBelow(l1, lo, hi, i, h, ys)
    ensures HalfDone(l0, l2, lo, hi, from, to, h, root) && AllProvedBelow(l2, lo, hi, i, h, ys)
  {
  }

  /** No recursion: the entries of the other half already hold the root. */
  lemma NotRecursed(ls: seq<ElementLeaf>, lo: nat, from: nat, to: nat, i: nat, h: nat, root: Hash, ys: seq<Hash>)
    requires lo <= |ls| && from <= to <= |ls|
    requires forall m :: from <= m < to ==> h < |ls[m].state.merkleProof| && ls[m].state.merkleProof[h] == root
    ensures HalfDone(ls, ls, lo, lo, from, to, h, root) && AllProvedBelow(ls, lo, lo, i, h, ys)
  {
  }

  /** The left half: recurse into it, or read its root off a proof on the right. */
  method RecomputeLeft(i: nat, mid: nat, leaves: array<ElementLeaf>, lo: nat, split: nat, hi: nat, height: nat,
                       ghost xs: seq<Hash>, ghost ys: seq<Hash>)
    returns (leftRoot: Hash)
    requires height > 0 && Aligned(i, height - 1) && mid == i + Pow2(height - 1) && lo < hi
    requires Ascending(leaves[..], lo, hi) && Halved(leaves[..], lo, split, hi, i, height, xs)
    requires Overwritten(leaves[..], lo, hi, i, i + Pow2(height), xs, ys)
    modifies leaves
    decreases height, 0
    ensures leftRoot == Root(ys, i, height - 1)
    ensures AllProvedBelow(leaves[..], lo, split, i, height - 1, ys)
    ensures HalfDone(old(leaves[..]), leaves[..], lo, split, split, hi, height - 1, leftRoot)
  {
    hide Overwritten, Halved, HalfDone, AllProvedBelow, Ascending, SiblingsSet, Aligned;
    ghost var l0 := leaves[..];
    LeftPart(l0, lo, split, hi, i, height, xs, ys);
    if split == lo {
      leftRoot := leaves[split].state.merkleProof[height - 1];
      NotRecursed(l0, lo, split, hi, i, height - 1, leftRoot, ys);
    } else {
      leftRoot := RecomputeRoot(i, mid, leaves, lo, split, height - 1, xs, ys);
      ghost var l1 := leaves[..];
      SetSiblings(leaves, split, hi, height - 1, leftRoot);
      Recursed(l0, l1, leaves[..], lo, split, split, hi, i, height - 1, leftRoot, ys);
    }
  }

  /** The right half, which the edits of the left half have not touched below height - 1. */
  method RecomputeRight(i: nat, mid: nat, j: nat, leaves: array<ElementLeaf>, lo: nat, split: nat, hi: nat, height: nat,
                        ghost xs: seq<Hash>, ghost ys: seq<Hash>)
    returns (rightRoot: Hash)
    requires height > 0 && Aligned(mid, height - 1) && mid == i + Pow2(height - 1) && j == i + Pow2(height) && lo < hi
    requires Ascending(leaves[..], lo, hi) && RightReady(leaves[..], lo, split, hi, i, height, xs)
    requires Overwritten(leaves[..], lo, hi, i, j, xs, ys)
    modifies leaves
    decreases height, 0
    ensures rightRoot == Root(ys, mid, height - 1)
    ensures AllProvedBelow(leaves[..], split, hi, mid, height - 1, ys)
    ensures HalfDone(old(leaves[..]), leaves[..], split, hi, lo, split, height - 1, rightRoot)
  {
    hide Overwritten, RightReady, HalfDone, AllProvedBelow, Ascending, SiblingsSet, Aligned;
    ghost var l0 := leaves[..];
    RightPart(l0, lo, split, hi, i, height, xs, ys);
    if split == hi {
      rightRoot := leaves[lo].state.merkleProof[height - 1];
      NotRecursed(l0, hi, lo, split, mid, height - 1, rightRoot, ys);
    } else {
      rightRoot := RecomputeRoot(mid, j, leaves, split, hi, height - 1, xs, ys);
      ghost var l1 := leaves[..];
      SetSiblings(leaves, lo, split, height - 1, rightRoot);
      Recursed(l0, l1, leaves[..], split, hi, lo, split, mid, height - 1, rightRoot, ys);
    }
  }

  method RecomputeHalves(i: nat, mid: nat, j: nat, leaves: array<ElementLeaf>, lo: nat, split: nat, hi: nat,
          height: nat,
                         ghost xs: seq<Hash>, ghost ys: seq<Hash>)
    returns (root: Hash)
    requires height > 0 && Aligned(i, height) && mid == i + Pow2(height - 1) && j == i + Pow2(height) && lo < hi
    requires Ascending(leaves[..], lo, hi) && Halved(leaves[..], lo, split, hi, i, height, xs)
    requires Overwritten(leaves[..], lo, hi, i, j, xs, ys)
    modifies leaves
    decreases height, 1
    ensures root == Root(ys, i, height)
    ensures AllProvedBelow(leaves[..], lo, hi, i, height, ys)
    ensures ReprovedBelow(old(leaves[..]), leaves[..], lo, hi, height)
  {
    hide Overwritten, Halved, HalfDone, ReprovedBelow, AllProvedBelow, Ascending, RightReady;
    AlignedStep(i, height - 1);
    ghost var l0 := leaves[..];
    var leftRoot := RecomputeLeft(i, mid, leaves, lo, split, hi, height, xs, ys);
    ghost var l1 := leaves[..];
    AfterLeft(l0, l1, lo, split, hi, i, j, height, leftRoot, xs, ys);
    OverwrittenBounds(l0, lo, hi, i, j, xs, ys);
    var rightRoot := RecomputeRight(i, mid, j, leaves, lo, split, hi, height, xs, ys);
    AfterBoth(l0, l1, leaves[..], lo, split, hi, i, height, ys);
    root := NodeHash(leftRoot, rightRoot);
  }

  /**
    Recomputes the root of the block i..j after leaves[lo..hi] were overwritten.
    Their proofs are brought up to date below the block's height and keep
    their entries from that height on.
   */
  method RecomputeRoot(i: nat, j: nat, leaves: array<ElementLeaf>, lo: nat, hi: nat,
                       ghost h: nat, ghost xs: seq<Hash>, ghost ys: seq<Hash>)
    returns (root: Hash)
    requires Aligned(i, h) && j == i + Pow2(h) && lo < hi
    requires Ascending(leaves[..], lo, hi) && AllProvedBelow(leaves[..], lo, hi, i, h, xs)
    requires Overwritten(leaves[..], lo, hi, i, j, xs, ys)
    modifies leaves
    decreases h, 2
    ensures root == Root(ys, i, h)
    ensures AllProvedBelow(leaves[..], lo, hi, i, h, ys)
    ensures ReprovedBelow(old(leaves[..]), leaves[..], lo, hi, h)
  {
    TrailingZerosOfPow2(h);
    var height := TrailingZeros64(j - i);
    if hi - lo == 1 && height == 0 {
      return leaves[lo].Hash();
    }
    hide Halved, ReprovedBelow;
    assert lo == hi - 1 || leaves[lo].state.leafIndex < leaves[hi - 1].state.leafIndex;
    var mid := (i + j) / 2;
    var split := Search(leaves[..], lo, hi, (l: ElementLeaf) => l.state.leafIndex, mid);
    SplitProofs(leaves[..], lo, split, hi, i, h, xs);
    root := RecomputeHalves(i, mid, j, leaves, lo, split, hi, height, xs, ys);
  }
}
