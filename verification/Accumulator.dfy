/**
  The element accumulator of merkle/accumulator.go.
 */
module Accumulator {
  import opened Bits
  import opened Types
  import opened Merkle
  import opened Forest
  import opened Recompute
  import opened LeafOrder
  import opened Sorting

  // ---------------------------------------------------------------- appending one leaf

  /**
    While leaf n is merged upwards and its tree has reached height k, the
    height of the tree that holds leaf p.
   */
  function Reached(n: nat, k: nat, p: nat): nat
    requires p <= n && (p == n ==> ClearBits(n, k) <= p)
  {
    if p >= ClearBits(n, k) then k else TreeHeight(n, p)
  }

  /** Trees 0..k of a forest of n leaves have been merged with leaf n. */
  ghost predicate Merging(n: nat, k: nat) {
    ClearBits(n, k) + Pow2(k) == n + 1
  }

  lemma ReachedFits(n: nat, k: nat, p: nat)
    requires Merging(n, k) && p <= n
    ensures ClearBits(n, k) <= n
    ensures BlockFits(n + 1, p, Reached(n, k, p))
  {
    ClearBounds(n, k);
    if p >= ClearBits(n, k) {
      ClearInBlock(ClearBits(n, k), k, p);
    } else {
      TreeOf(n, p);
      TreeFits(n, TreeHeight(n, p));
    }
  }

  /** The proof of leaf p so far. */
  function PathSoFar(xs: seq<Hash>, n: nat, k: nat, p: nat): (path: seq<Hash>)
    requires |xs| == n + 1 && Merging(n, k) && p <= n
    ensures ClearBits(n, k) <= n && |path| == Reached(n, k, p)
  {
    ReachedFits(n, k, p);
    Path(xs, p, Reached(n, k, p))
  }

  /** What one merge adds to the proof of leaf p. */
  function Gained(n: nat, k: nat, p: nat, oldRoot: Hash, newRoot: Hash): seq<Hash> {
    if p >= ClearBits(n, k) then [oldRoot]
    else if p >= ClearBits(n, k + 1) then [newRoot]
    else []
  }

  lemma MergeOne(xs: seq<Hash>, n: nat, k: nat, p: nat, oldRoot: Hash, newRoot: Hash)
    requires |xs| == n + 1 && Merging(n, k) && Bit(n, k) && p <= n
    requires ClearBits(n, k + 1) + Pow2(k) <= n && oldRoot == Root(xs, ClearBits(n, k + 1), k)
    requires ClearBits(n, k) + Pow2(k) <= n + 1 && newRoot == Root(xs, ClearBits(n, k), k)
    ensures Merging(n, k + 1)
    ensures PathSoFar(xs, n, k + 1, p) == PathSoFar(xs, n, k, p) + Gained(n, k, p, oldRoot, newRoot)
  {
    assert Pow2(k + 1) == 2 * Pow2(k);
    hide Pow2, Xor, Len64, Aligned;
    ClearBounds(n, k);
    ClearStep(n, k);
    ClearBounds(n, k + 1);
    ReachedFits(n, k, p);
    ReachedFits(n, k + 1, p);
    if p >= ClearBits(n, k + 1) {
      ClearInBlock(ClearBits(n, k + 1), k + 1, p);
      BitIsSide(ClearBits(n, k + 1), k, p);
      ClearStep(p, k);
      if p < ClearBits(n, k) {
        InTree(n, k, p);
      }
    }
  }

  /** Trees to the left of the merged ones keep their height. */
  lemma TreesLeft(n: nat, k: nat, p: nat)
    requires Merging(n, k) && !Bit(n, k) && p < ClearBits(n, k) && p < n
    ensures TreeHeight(n + 1, p) == TreeHeight(n, p)
  {
    var h := TreeHeight(n, p);
    TreeOf(n, p);
    if h < k {
      ClearNests(n, h + 1, k);
    }
    Increment(n, k, h);
    Increment(n, k, h + 1);
    hide Pow2, Xor, Len64, Bit, ClearBits;
    InTree(n + 1, h, p);
  }

  /** Merging stops at the first free height; every proof then is that of a forest of n + 1 leaves. */
  lemma MergeDone(n: nat, k: nat, p: nat)
    requires Merging(n, k) && !Bit(n, k) && p <= n
    ensures ClearBits(n, k) <= n && Reached(n, k, p) == TreeHeight(n + 1, p)
  {
    hide Xor, Len64, Aligned, Bit, ClearBits, Pow2;
    ClearBounds(n, k);
    Increment(n, k, k);
    if p >= ClearBits(n, k) {
      InTree(n + 1, k, p);
    } else {
      TreesLeft(n, k, p);
    }
  }

  lemma {:induction false} ClearNests(x: nat, j: nat, k: nat)
    requires j <= k
    ensures ClearBits(x, k) <= ClearBits(x, j)
    decreases k - j
  {
    if j < k {
      ClearStep(x, j);
      ClearNests(x, j + 1, k);
    }
  }

  /** A longer list does not change the trees already there. */
  lemma TreeRootLocal(xs: seq<Hash>, ys: seq<Hash>, h: nat)
    requires Bit(|xs|, h) && xs <= ys
    ensures TreeStart(|xs|, h) + Pow2(h) <= |xs|
    ensures TreeRoot(xs, h) == Root(ys, TreeStart(|xs|, h), h)
  {
    TreeFits(|xs|, h);
    RootLocal(xs, ys, TreeStart(|xs|, h), h);
  }

  lemma LeafPathLocal(xs: seq<Hash>, ys: seq<Hash>, p: nat)
    requires p < |xs| && xs <= ys
    ensures BlockFits(|ys|, p, TreeHeight(|xs|, p))
    ensures LeafPath(xs, p) == Path(ys, p, TreeHeight(|xs|, p))
  {
    var path := LeafPath(xs, p);
    PathLocal(xs, ys, p, TreeHeight(|xs|, p));
  }

  lemma OtherTrees(xs: seq<Hash>, ys: seq<Hash>, k: nat, h: nat)
    requires |ys| == |xs| + 1 && xs <= ys
    requires Merging(|xs|, k) && !Bit(|xs|, k) && h != k && Bit(|ys|, h)
    ensures Bit(|xs|, h) && TreeRoot(ys, h) == TreeRoot(xs, h)
  {
    Increment(|xs|, k, h);
    Increment(|xs|, k, h + 1);
    TreeRootLocal(xs, ys, h);
  }

  lemma MergedTree(xs: seq<Hash>, ys: seq<Hash>, k: nat)
    requires |ys| == |xs| + 1 && Merging(|xs|, k) && !Bit(|xs|, k)
    ensures Bit(|ys|, k) && ClearBits(|xs|, k) + Pow2(k) <= |ys|
    ensures TreeRoot(ys, k) == Root(ys, ClearBits(|xs|, k), k)
  {
    Increment(|xs|, k, k);
  }

  /** Writing the merged tree's root at the first free height keeps the live roots right. */
  lemma InsertRoot(trees: seq<Hash>, xs: seq<Hash>, ys: seq<Hash>, k: nat, root: Hash)
    requires Represents(trees, |xs|, xs) && |ys| == |xs| + 1 && xs <= ys && InRange(|ys|)
    requires k < MAX_TREES && Merging(|xs|, k) && !Bit(|xs|, k)
    requires ClearBits(|xs|, k) + Pow2(k) <= |ys| && root == Root(ys, ClearBits(|xs|, k), k)
    ensures Represents(trees[k := root], |ys|, ys)
  {
    hide Root, ClearBits, Bit, TreeRoot, Pow2;
    MergedTree(xs, ys, k);
    var after := trees[k := root];
    forall h | 0 <= h < MAX_TREES && Bit(|ys|, h)
      ensures after[h] == TreeRoot(ys, h)
    {
      if h != k {
        OtherTrees(xs, ys, k, h);
      }
    }
  }

  lemma FreeHeight(n: nat, k: nat)
    requires Merging(n, k) && !Bit(n, k) && InRange(n + 1)
    ensures k < MAX_TREES
  {
    Increment(n, k, k);
    HeightInRange(n + 1, k);
  }

  // ---------------------------------------------------------------- the state of a batch

  /** leaves[0..i] have their proofs as far as merge height k, in a forest that started with n0 leaves. */
  ghost predicate ProofsAt(leaves: seq<ElementLeaf>, i: nat, n0: nat, xs: seq<Hash>, k: nat)
  {
    i < |leaves| && |xs| == n0 + i + 1 && Merging(n0 + i, k) &&
    forall j :: 0 <= j <= i ==> leaves[j].state.merkleProof == PathSoFar(xs, n0 + i, k, n0 + j)
  }

  /** What the trees of the original n0 leaves have gained at merge height k. */
  ghost predicate GrowthAt(growth: seq<seq<Hash>>, n0: nat, xs: seq<Hash>, n: nat, k: nat)
  {
    |growth| == MAX_TREES && n0 <= n && |xs| == n + 1 && Merging(n, k) &&
    forall b :: 0 <= b < MAX_TREES ==> GrowthOf(growth[b], b, n0, xs, n, k)
  }

  ghost predicate GrowthOf(grown: seq<Hash>, b: nat, n0: nat, xs: seq<Hash>, n: nat, k: nat)
    requires n0 <= n && |xs| == n + 1 && Merging(n, k)
  {
    if Bit(n0, b) then
      TreeFits(n0, b);
      var path := PathSoFar(xs, n, k, TreeStart(n0, b));
      b <= |path| && grown == path[b..]
    else
      grown == []
  }

  /** The leaf hashes of a batch placed from position n on. */
  function Placed(leaves: seq<ElementLeaf>, n: nat): (hashes: seq<Hash>)
    ensures |hashes| == |leaves|
    ensures forall i :: 0 <= i < |leaves| ==> hashes[i] == LeafHash(leaves[i].elementHash, n + i, leaves[i].spent)
  {
    seq(|leaves|, i requires 0 <= i < |leaves| => LeafHash(leaves[i].elementHash, n + i, leaves[i].spent))
  }

  function Append(l: ElementLeaf, suffix: seq<Hash>): ElementLeaf {
    l.(state := l.state.(merkleProof := l.state.merkleProof + suffix))
  }

  /** leaves[..m] are the leaves of xs from n0 on, each with its proof. */
  ghost predicate Proved(leaves: seq<ElementLeaf>, m: nat, n0: nat, xs: seq<Hash>) {
    m <= |leaves| && n0 + m <= |xs| &&
    forall j :: 0 <= j < m ==> leaves[j].state.merkleProof == LeafPath(xs, n0 + j)
  }

  /** growth[b] is the suffix that every leaf of the old tree of height b must append. */
  ghost predicate Growth(growth: seq<seq<Hash>>, n0: nat, xs: seq<Hash>) {
    |growth| == MAX_TREES && n0 <= |xs| &&
    forall b :: 0 <= b < MAX_TREES ==> TreeGrowth(growth[b], b, n0, xs)
  }

  ghost predicate TreeGrowth(grown: seq<Hash>, b: nat, n0: nat, xs: seq<Hash>)
    requires n0 <= |xs|
  {
    if Bit(n0, b) then
      TreeFits(n0, b);
      var path := LeafPath(xs, TreeStart(n0, b));
      b <= |path| && grown == path[b..]
    else
      grown == []
  }

  lemma NoGrowthYet(b: nat, xs: seq<Hash>)
    ensures TreeGrowth([], b, |xs|, xs)
  {
    if Bit(|xs|, b) {
      TreeFits(|xs|, b);
      InTree(|xs|, b, TreeStart(|xs|, b));
    }
  }

  lemma PathAtStart(xs: seq<Hash>, ys: seq<Hash>, p: nat)
    requires |ys| == |xs| + 1 && xs <= ys && p <= |xs|
    ensures Merging(|xs|, 0)
    ensures PathSoFar(ys, |xs|, 0, p) == if p < |xs| then LeafPath(xs, p) else []
  {
    if p < |xs| {
      LeafPathLocal(xs, ys, p);
    }
  }

  lemma PathAtEnd(ys: seq<Hash>, n: nat, k: nat, p: nat)
    requires |ys| == n + 1 && Merging(n, k) && !Bit(n, k) && p <= n
    ensures PathSoFar(ys, n, k, p) == LeafPath(ys, p)
  {
    MergeDone(n, k, p);
  }

  lemma BatchStart(leaves: seq<ElementLeaf>, growth: seq<seq<Hash>>, i: nat, n0: nat, xs: seq<Hash>, ys: seq<Hash>)
    requires Proved(leaves, i, n0, xs) && Growth(growth, n0, xs)
    requires |xs| == n0 + i && |ys| == |xs| + 1 && xs <= ys
    requires i < |leaves| && leaves[i].state.merkleProof == []
    ensures ProofsAt(leaves, i, n0, ys, 0) && GrowthAt(growth, n0, ys, |xs|, 0)
  {
    forall j | 0 <= j <= i
      ensures Merging(n0 + i, 0) && leaves[j].state.merkleProof == PathSoFar(ys, n0 + i, 0, n0 + j)
    {
      PathAtStart(xs, ys, n0 + j);
    }
    forall b | 0 <= b < MAX_TREES
      ensures Merging(|xs|, 0) && GrowthOf(growth[b], b, n0, ys, |xs|, 0)
    {
      assert TreeGrowth(growth[b], b, n0, xs);
      if Bit(n0, b) {
        TreeFits(n0, b);
        PathAtStart(xs, ys, TreeStart(n0, b));
      }
    }
  }

  lemma BatchEnd(leaves: seq<ElementLeaf>, growth: seq<seq<Hash>>, i: nat, n0: nat, ys: seq<Hash>, k: nat)
    requires ProofsAt(leaves, i, n0, ys, k) && GrowthAt(growth, n0, ys, n0 + i, k) && !Bit(n0 + i, k)
    ensures Proved(leaves, i + 1, n0, ys) && Growth(growth, n0, ys)
  {
    forall j | 0 <= j < i + 1
      ensures leaves[j].state.merkleProof == LeafPath(ys, n0 + j)
    {
      PathAtEnd(ys, n0 + i, k, n0 + j);
    }
    forall b | 0 <= b < MAX_TREES
      ensures TreeGrowth(growth[b], b, n0, ys)
    {
      assert GrowthOf(growth[b], b, n0, ys, n0 + i, k);
      if Bit(n0, b) {
        TreeFits(n0, b);
        PathAtEnd(ys, n0 + i, k, TreeStart(n0, b));
      }
    }
  }

  ghost predicate IsMerge(ys: seq<Hash>, n: nat, k: nat, oldRoot: Hash, newRoot: Hash) {
    |ys| == n + 1 && Merging(n, k) && Bit(n, k) &&
    ClearBits(n, k + 1) + Pow2(k) <= n && oldRoot == Root(ys, ClearBits(n, k + 1), k) &&
    ClearBits(n, k) + Pow2(k) <= |ys| && newRoot == Root(ys, ClearBits(n, k), k)
  }

  lemma ProofsStep(before: seq<ElementLeaf>, after: seq<ElementLeaf>, i: nat, n0: nat, ys: seq<Hash>, k: nat,
                   oldRoot: Hash, newRoot: Hash)
    requires ProofsAt(before, i, n0, ys, k) && |after| == |before|
    requires IsMerge(ys, n0 + i, k, oldRoot, newRoot)
    requires forall j :: 0 <= j <= i ==> after[j] == Append(before[j], Gained(n0 + i, k, n0 + j, oldRoot, newRoot))
    ensures ProofsAt(after, i, n0, ys, k + 1)
  {
    hide ClearBits, Bit, Root, Pow2;
    var n := n0 + i;
    MergeOne(ys, n, k, n, oldRoot, newRoot);
    forall j | 0 <= j <= i
      ensures after[j].state.merkleProof == PathSoFar(ys, n, k + 1, n0 + j)
    {
      assert before[j].state.merkleProof == PathSoFar(ys, n, k, n0 + j);
      MergeOne(ys, n, k, n0 + j, oldRoot, newRoot);
    }
  }

  /** What one merge adds to the growth of the old tree of height b. */
  function TreeGained(n0: nat, n: nat, k: nat, b: nat, oldRoot: Hash, newRoot: Hash): seq<Hash> {
    if Bit(n0, b) then Gained(n, k, TreeStart(n0, b), oldRoot, newRoot) else []
  }

  lemma GrowthStep(before: seq<seq<Hash>>, after: seq<seq<Hash>>, n: nat, n0: nat, ys: seq<Hash>, k: nat,
                   oldRoot: Hash, newRoot: Hash)
    requires GrowthAt(before, n0, ys, n, k) && |after| == |before|
    requires IsMerge(ys, n, k, oldRoot, newRoot)
    requires forall b :: 0 <= b < MAX_TREES ==> after[b] == before[b] + TreeGained(n0, n, k, b, oldRoot, newRoot)
    ensures GrowthAt(after, n0, ys, n, k + 1)
  {
    hide ClearBits, Root, Pow2, Aligned;
    MergeOne(ys, n, k, n, oldRoot, newRoot);
    forall b | 0 <= b < MAX_TREES
      ensures GrowthOf(after[b], b, n0, ys, n, k + 1)
    {
      assert GrowthOf(before[b], b, n0, ys, n, k);
      if Bit(n0, b) {
        TreeFits(n0, b);
        MergeOne(ys, n, k, TreeStart(n0, b), oldRoot, newRoot);
      }
    }
  }

  /** The root above a merge is the node over the two merged roots. */
  lemma MergedRoot(ys: seq<Hash>, n: nat, k: nat)
    requires |ys| == n + 1 && Merging(n, k) && Bit(n, k)
    ensures ClearBits(n, k + 1) + Pow2(k) == ClearBits(n, k) <= n
    ensures Root(ys, ClearBits(n, k + 1), k + 1) ==
      NodeHash(Root(ys, ClearBits(n, k + 1), k), Root(ys, ClearBits(n, k), k))
  {
    ClearStep(n, k);
    ClearBounds(n, k);
  }

  // ---------------------------------------------------------------- overwriting leaves

  /** Every leaf has its proof in the forest over xs. */
  ghost predicate Current(leaves: seq<ElementLeaf>, xs: seq<Hash>) {
    forall m :: 0 <= m < |leaves| ==>
      leaves[m].state.leafIndex < |xs| && leaves[m].state.merkleProof == LeafPath(xs, leaves[m].state.leafIndex)
  }

  /** ys is xs with the leaves written over it. */
  ghost predicate Overwrites(leaves: seq<ElementLeaf>, xs: seq<Hash>, ys: seq<Hash>) {
    Overwritten(leaves, 0, |leaves|, 0, |xs|, xs, ys)
  }

  /** One tree's updated leaves: in that tree, holding the new contents, with their new proofs. */
  ghost predicate UpdatedLeaf(l: ElementLeaf, h: nat, ys: seq<Hash>) {
    l.state.leafIndex < |ys| && TreeHeight(|ys|, l.state.leafIndex) == h &&
    ys[l.state.leafIndex] == l.Hash() && l.state.merkleProof == LeafPath(ys, l.state.leafIndex)
  }

  /** The groups hold, tree by tree, every leaf in which ys differs from xs. */
  ghost predicate Updates(groups: seq<seq<ElementLeaf>>, xs: seq<Hash>, ys: seq<Hash>) {
    |groups| == MAX_TREES && |xs| == |ys| && InRange(|xs|) &&
    (forall h, m :: 0 <= h < MAX_TREES && 0 <= m < |groups[h]| ==> UpdatedLeaf(groups[h][m], h, ys)) &&
    (forall p :: 0 <= p < |xs| && !Updated(groups, TreeHeight(|xs|, p), p) ==> xs[p] == ys[p])
  }

  ghost predicate Updated(groups: seq<seq<ElementLeaf>>, h: nat, p: nat) {
    h < |groups| && exists m :: 0 <= m < |groups[h]| && groups[h][m].state.leafIndex == p
  }

  lemma SortedOverwrites(leaves: seq<ElementLeaf>, xs: seq<Hash>, ys: seq<Hash>)
    requires Current(leaves, xs) && Distinct(leaves) && Overwrites(leaves, xs, ys)
    ensures Current(Sort(leaves, Before), xs) && Distinct(Sort(leaves, Before)) &&
      Overwrites(Sort(leaves, Before), xs, ys) && Sorted(Sort(leaves, Before), Before)
  {
    hide LeafPath, Sort;
    var sorted := Sort(leaves, Before);
    SortLeaves(leaves);
    forall m | 0 <= m < |sorted|
      ensures sorted[m] in leaves
    {
      SameMembers(sorted, leaves, sorted[m]);
    }
    forall p | 0 <= p < |xs| && forall m :: 0 <= m < |sorted| ==> sorted[m].state.leafIndex != p
      ensures ys[p] == xs[p]
    {
      forall m | 0 <= m < |leaves|
        ensures leaves[m].state.leafIndex != p
      {
        SameMembers(sorted, leaves, leaves[m]);
        assert leaves[m] in sorted;
      }
    }
  }

  lemma GroupProved(ls: seq<ElementLeaf>, s: Slice, h: nat, xs: seq<Hash>)
    requires Current(ls, xs) && IsGroup(ls, s, h) && s.lo < s.hi
    ensures Bit(|xs|, h) && TreeStart(|xs|, h) + Pow2(h) <= |xs| && Aligned(TreeStart(|xs|, h), h)
    ensures AllProvedBelow(ls, s.lo, s.hi, TreeStart(|xs|, h), h, xs)
  {
    forall m | s.lo <= m < s.hi
      ensures Bit(|xs|, h) && ProvedBelow(ls[m], TreeStart(|xs|, h), h, xs)
    {
      TreeOf(|xs|, ls[m].state.leafIndex);
      var path := LeafPath(xs, ls[m].state.leafIndex);
      assert path[..h] == path;
    }
    assert ProvedBelow(ls[s.lo], TreeStart(|xs|, h), h, xs);
    TreeFits(|xs|, h);
  }

  lemma GroupAscending(ls: seq<ElementLeaf>, s: Slice, h: nat)
    requires Distinct(ls) && Sorted(ls, Before) && IsGroup(ls, s, h)
    ensures Ascending(ls, s.lo, s.hi)
  {
    forall a, b | s.lo <= a < b < s.hi
      ensures ls[a].state.leafIndex < ls[b].state.leafIndex
    {
      assert !Before(ls[b], ls[a]);
    }
  }

  /** All overwritten leaves of a tree are in its group. */
  lemma GroupOverwritten(ls: seq<ElementLeaf>, s: Slice, h: nat, xs: seq<Hash>, ys: seq<Hash>)
    requires Current(ls, xs) && Overwrites(ls, xs, ys) && IsGroup(ls, s, h)
    requires Bit(|xs|, h) && TreeStart(|xs|, h) + Pow2(h) <= |xs|
    ensures Overwritten(ls, s.lo, s.hi, TreeStart(|xs|, h), TreeStart(|xs|, h) + Pow2(h), xs, ys)
  {
    forall p | TreeStart(|xs|, h) <= p < TreeStart(|xs|, h) + Pow2(h) &&
        forall m :: s.lo <= m < s.hi ==> ls[m].state.leafIndex != p
      ensures ys[p] == xs[p]
    {
      InTree(|xs|, h, p);
      forall m | 0 <= m < |ls|
        ensures ls[m].state.leafIndex != p
      {
        assert ls[m].state.merkleProof == LeafPath(xs, ls[m].state.leafIndex);
      }
    }
  }

  /** A tree without updated leaves keeps its root. */
  lemma TreeUntouched(ls: seq<ElementLeaf>, s: Slice, h: nat, xs: seq<Hash>, ys: seq<Hash>)
    requires Current(ls, xs) && Overwrites(ls, xs, ys) && IsGroup(ls, s, h) && s.lo == s.hi && Bit(|xs|, h)
    ensures TreeRoot(ys, h) == TreeRoot(xs, h)
  {
    TreeFits(|xs|, h);
    forall m | 0 <= m < |ls|
      ensures !(TreeStart(|xs|, h) <= ls[m].state.leafIndex < TreeStart(|xs|, h) + Pow2(h))
    {
      if TreeStart(|xs|, h) <= ls[m].state.leafIndex < TreeStart(|xs|, h) + Pow2(h) {
        InTree(|xs|, h, ls[m].state.leafIndex);
      }
    }
    Untouched(ls, 0, |ls|, 0, |xs|, xs, ys, TreeStart(|xs|, h), h);
  }

  lemma HeightsInRange(ls: seq<ElementLeaf>, xs: seq<Hash>)
    requires Current(ls, xs) && InRange(|xs|)
    ensures forall m :: 0 <= m < |ls| ==> |ls[m].state.merkleProof| < MAX_TREES
  {
    forall m | 0 <= m < |ls|
      ensures |ls[m].state.merkleProof| < MAX_TREES
    {
      TreeOf(|xs|, ls[m].state.leafIndex);
      HeightInRange(|xs|, TreeHeight(|xs|, ls[m].state.leafIndex));
    }
  }

  /** Trees below height h are those over ys, the others still those over xs. */
  ghost predicate Halfway(trees: seq<Hash>, h: nat, xs: seq<Hash>, ys: seq<Hash>) {
    |trees| == MAX_TREES && |xs| == |ys| &&
    forall t :: 0 <= t < MAX_TREES && Bit(|xs|, t) ==> trees[t] == TreeRoot(if t < h then ys else xs, t)
  }

  /** Leaves with proofs shorter than h have them over ys; the others are as they were. */
  ghost predicate ProofsHalfway(before: seq<ElementLeaf>, after: seq<ElementLeaf>, h: nat, ys: seq<Hash>) {
    |before| == |after| &&
    forall m :: 0 <= m < |before| ==>
      before[m].state.leafIndex < |ys| &&
      after[m] == if |before[m].state.merkleProof| < h then Reproof(before[m], ys) else before[m]
  }

  function Reproof(l: ElementLeaf, ys: seq<Hash>): ElementLeaf
    requires l.state.leafIndex < |ys|
  {
    l.(state := l.state.(merkleProof := LeafPath(ys, l.state.leafIndex)))
  }

  lemma GroupRecomputed(before: seq<ElementLeaf>, l0: seq<ElementLeaf>, l1: seq<ElementLeaf>, s: Slice, h: nat,
          xs: seq<Hash>, ys: seq<Hash>)
    requires Current(before, xs) && |xs| == |ys| && IsGroup(before, s, h) && ProofsHalfway(before, l0, h, ys)
    requires Bit(|xs|, h) && ReprovedBelow(l0, l1, s.lo, s.hi, h) &&
      AllProvedBelow(l1, s.lo, s.hi, TreeStart(|xs|, h), h, ys)
    ensures ProofsHalfway(before, l1, h + 1, ys)
  {
    forall m | 0 <= m < |before|
      ensures l1[m] == if |before[m].state.merkleProof| < h + 1 then Reproof(before[m], ys) else before[m]
    {
      if s.lo <= m < s.hi {
        assert Reproved(l0[m], l1[m], h) && ProvedBelow(l1[m], TreeStart(|xs|, h), h, ys);
        assert l1[m].state.merkleProof[..h] == l1[m].state.merkleProof;
      }
    }
  }

  lemma GroupsAreUpdates(before: seq<ElementLeaf>, after: seq<ElementLeaf>, slices: seq<Slice>,
          groups: seq<seq<ElementLeaf>>,
                         xs: seq<Hash>, ys: seq<Hash>)
    requires Current(before, xs) && Overwrites(before, xs, ys) && Groups(before, slices) && InRange(|xs|)
    requires ProofsHalfway(before, after, MAX_TREES, ys) && |groups| == MAX_TREES
    requires forall h :: 0 <= h < MAX_TREES ==>
      IsGroup(before, slices[h], h) && groups[h] == after[slices[h].lo..slices[h].hi]
    ensures Updates(groups, xs, ys)
  {
    forall h, m | 0 <= h < MAX_TREES && 0 <= m < |groups[h]|
      ensures UpdatedLeaf(groups[h][m], h, ys)
    {
      assert groups[h][m] == after[slices[h].lo + m];
    }
    forall p | 0 <= p < |xs|
      ensures Updated(groups, TreeHeight(|xs|, p), p) || xs[p] == ys[p]
    {
      var h := TreeHeight(|xs|, p);
      TreeOf(|xs|, p);
      HeightInRange(|xs|, h);
      if m :| 0 <= m < |before| && before[m].state.leafIndex == p {
        assert IsGroup(before, slices[h], h) && |before[m].state.merkleProof| == h;
        assert groups[h][m - slices[h].lo] == after[m];
      }
    }
  }

  class ElementAccumulator {
    const Trees: array<Hash>
    var NumLeaves: nat

    /** The accumulator is in agreement with the full list of leaf hashes xs. */
    ghost predicate Holds(xs: seq<Hash>)
      reads this, Trees
    {
      Represents(Trees[..], NumLeaves, xs)
    }

    constructor (acc: AccumulatorState)
      requires |acc.trees| == MAX_TREES
      ensures NumLeaves == acc.numLeaves && Trees[..] == acc.trees && fresh(Trees)
    {
      NumLeaves := acc.numLeaves;
      Trees := new Hash[MAX_TREES](i requires 0 <= i < |acc.trees| => acc.trees[i]);
    }

    /** The live roots, which is all that is ever written out. */
    method Value(ghost xs: seq<Hash>) returns (acc: AccumulatorState)
      requires Holds(xs)
      ensures acc == Accumulate(xs)
    {
      acc := AccumulatorState(NumLeaves, seq(MAX_TREES, h requires 0 <= h < Trees.Length reads this, Trees =>
        if Bit(NumLeaves, h) then Trees[h] else ZeroHash));
      assert acc.trees == Accumulate(xs).trees;
    }

    /** The two backwards scans over the batch when trees of height k merge. */
    method ExtendProofs(leaves: array<ElementLeaf>, i: nat, k: nat, oldRoot: Hash, newRoot: Hash, ghost n0: nat)
      requires i < leaves.Length && Merging(n0 + i, k) && Bit(n0 + i, k)
      modifies leaves
      ensures forall j :: 0 <= j < leaves.Length ==> (leaves[j] ==
        if j <= i then Append(old(leaves[j]), Gained(n0 + i, k, n0 + j, oldRoot, newRoot))
        else old(leaves[j]))
    {
      ClearStep(n0 + i, k);
      var startOfNewTree: int := i - Pow2(k);
      var startOfOldTree: int := i - Pow2(k + 1);
      var j: int := i;
      while j > startOfNewTree && j >= 0
        invariant -1 <= j <= i && j >= startOfNewTree
        invariant forall m :: 0 <= m < leaves.Length ==> (leaves[m] ==
          if j < m <= i then Append(old(leaves[m]), [oldRoot]) else old(leaves[m]))
      {
        leaves[j] := Append(leaves[j], [oldRoot]);
        j := j - 1;
      }
      ghost var mid := j;
      while j > startOfOldTree && j >= 0
        invariant -1 <= j <= mid && (j >= startOfOldTree || j == mid)
        invariant forall m :: 0 <= m < leaves.Length ==> (leaves[m] ==
          if mid < m <= i then Append(old(leaves[m]), [oldRoot])
          else if j < m <= mid then Append(old(leaves[m]), [newRoot])
          else old(leaves[m]))
      {
        leaves[j] := Append(leaves[j], [newRoot]);
        j := j - 1;
      }
    }

    /** The scan over the original trees when trees of height k merge. */
    method GrowTrees(treeGrowth: array<seq<Hash>>, initialLeaves: nat, k: nat, oldRoot: Hash, newRoot: Hash)
      requires treeGrowth.Length == MAX_TREES && Merging(NumLeaves, k) && Bit(NumLeaves, k)
      modifies treeGrowth
      ensures forall b :: 0 <= b < MAX_TREES ==>
        treeGrowth[b] == old(treeGrowth[b]) + TreeGained(initialLeaves, NumLeaves, k, b, oldRoot, newRoot)
    {
      ClearStep(NumLeaves, k);
      var curTreeIndex := (NumLeaves + 1) - Pow2(k);
      var prevTreeIndex: int := (NumLeaves + 1) - Pow2(k + 1);
      for bit := 0 to MAX_TREES
        invariant forall b :: 0 <= b < bit ==>
          treeGrowth[b] == old(treeGrowth[b]) + TreeGained(initialLeaves, NumLeaves, k, b, oldRoot, newRoot)
        invariant forall b :: bit <= b < MAX_TREES ==> treeGrowth[b] == old(treeGrowth[b])
      {
        if !Bit(initialLeaves, bit) {
          continue;
        }
        var treeStartIndex := ClearBits(initialLeaves, bit + 1);
        if treeStartIndex >= curTreeIndex {
          treeGrowth[bit] := treeGrowth[bit] + [oldRoot];
        } else if treeStartIndex >= prevTreeIndex {
          treeGrowth[bit] := treeGrowth[bit] + [newRoot];
        }
      }
    }

    /** Merges the tree of height k with the tree under the new leaf i. */
    method MergeTree(leaves: array<ElementLeaf>, treeGrowth: array<seq<Hash>>, i: nat, initialLeaves: nat, k: nat,
            h: Hash,
                     ghost xs: seq<Hash>, ghost ys: seq<Hash>)
      returns (merged: Hash)
      requires treeGrowth as object != Trees && treeGrowth as object != leaves && leaves as object != Trees
      requires Holds(xs) && |xs| == initialLeaves + i && |ys| == |xs| + 1 && xs <= ys
      requires ProofsAt(leaves[..], i, initialLeaves, ys, k) && GrowthAt(treeGrowth[..], initialLeaves, ys, |xs|, k)
      requires Bit(NumLeaves, k) && ClearBits(|xs|, k) + Pow2(k) <= |ys| && h == Root(ys, ClearBits(|xs|, k), k)
      modifies leaves, treeGrowth
      ensures ProofsAt(leaves[..], i, initialLeaves, ys, k + 1) &&
        GrowthAt(treeGrowth[..], initialLeaves, ys, |xs|, k + 1)
      ensures ClearBits(|xs|, k + 1) + Pow2(k + 1) <= |ys| && merged == Root(ys, ClearBits(|xs|, k + 1), k + 1)
      ensures forall j :: 0 <= j < leaves.Length ==>
        leaves[j] == old(leaves[j]).(state := old(leaves[j].state).(merkleProof := leaves[j].state.merkleProof))
      ensures forall j :: i < j < leaves.Length ==> leaves[j] == old(leaves[j])
    {
      HeightInRange(NumLeaves, k);
      var oldRoot := Trees[k];
      MergedRoot(ys, |xs|, k);
      TreeRootLocal(xs, ys, k);
      ExtendProofs(leaves, i, k, oldRoot, h, initialLeaves);
      ProofsStep(old(leaves[..]), leaves[..], i, initialLeaves, ys, k, oldRoot, h);
      GrowTrees(treeGrowth, initialLeaves, k, oldRoot, h);
      GrowthStep(old(treeGrowth[..]), treeGrowth[..], |xs|, initialLeaves, ys, k, oldRoot, h);
      merged := NodeHash(oldRoot, h);
    }

    /** Walks up from leaf i, merging trees, to the first free height. */
    method MergeUp(leaves: array<ElementLeaf>, treeGrowth: array<seq<Hash>>, i: nat, initialLeaves: nat, leaf: Hash,
                   ghost xs: seq<Hash>, ghost ys: seq<Hash>)
      returns (height: nat, h: Hash)
      requires treeGrowth as object != Trees && treeGrowth as object != leaves && leaves as object != Trees
      requires Holds(xs) && |xs| == initialLeaves + i && ys == xs + [leaf]
      requires ProofsAt(leaves[..], i, initialLeaves, ys, 0) && GrowthAt(treeGrowth[..], initialLeaves, ys, |xs|, 0)
      modifies leaves, treeGrowth
      ensures !Bit(NumLeaves, height) && Merging(NumLeaves, height)
      ensures ProofsAt(leaves[..], i, initialLeaves, ys, height) &&
        GrowthAt(treeGrowth[..], initialLeaves, ys, |xs|, height)
      ensures ClearBits(|xs|, height) + Pow2(height) <= |ys| && h == Root(ys, ClearBits(|xs|, height), height)
      ensures forall j :: 0 <= j < leaves.Length ==>
        leaves[j] == old(leaves[j]).(state := old(leaves[j].state).(merkleProof := leaves[j].state.merkleProof))
      ensures forall j :: i < j < leaves.Length ==> leaves[j] == old(leaves[j])
    {
      hide Xor, Len64, Pow2, Bit, TreeRoot, GrowthAt;
      height, h := 0, leaf;
      while Bit(NumLeaves, height)
        invariant ProofsAt(leaves[..], i, initialLeaves, ys, height)
        invariant GrowthAt(treeGrowth[..], initialLeaves, ys, |xs|, height)
        invariant ClearBits(|xs|, height) + Pow2(height) <= |ys| && h == Root(ys, ClearBits(|xs|, height), height)
        invariant forall j :: 0 <= j < leaves.Length ==>
          leaves[j] == old(leaves[j]).(state := old(leaves[j].state).(merkleProof := leaves[j].state.merkleProof))
        invariant forall j :: i < j < leaves.Length ==> leaves[j] == old(leaves[j])
        decreases 62 - height
      {
        HeightInRange(NumLeaves, height);
        h := MergeTree(leaves, treeGrowth, i, initialLeaves, height, h, xs, ys);
        height := height + 1;
      }
    }

    /** One round of the outer loop: leaf i is appended and merged upwards. */
    method AddLeaf(leaves: array<ElementLeaf>, treeGrowth: array<seq<Hash>>, i: nat, initialLeaves: nat,
                   ghost xs: seq<Hash>, ghost ys: seq<Hash>)
      requires treeGrowth as object != Trees && treeGrowth as object != leaves && leaves as object != Trees
      requires i < leaves.Length && Holds(xs) && |xs| == initialLeaves + i && InRange(|xs| + 1)
      requires ys == xs + [LeafHash(leaves[i].elementHash, |xs|, leaves[i].spent)]
      requires Proved(leaves[..], i, initialLeaves, xs) && Growth(treeGrowth[..], initialLeaves, xs)
      modifies this, Trees, leaves, treeGrowth
      ensures Holds(ys) && Proved(leaves[..], i + 1, initialLeaves, ys) && Growth(treeGrowth[..], initialLeaves, ys)
      ensures forall j :: 0 <= j < leaves.Length ==> leaves[j] == old(leaves[j]).(state := leaves[j].state)
      ensures forall j :: 0 <= j < leaves.Length ==> leaves[j].state.id == old(leaves[j].state.id)
      ensures forall j :: 0 <= j < leaves.Length ==>
        leaves[j].state.leafIndex == if j == i then |xs| else old(leaves[j].state.leafIndex)
      ensures forall j :: i < j < leaves.Length ==> leaves[j] == old(leaves[j])
    {
      hide ProofsAt, GrowthAt, Growth, ClearBits, Bit, Root;
      leaves[i] := leaves[i].(state := leaves[i].state.(leafIndex := NumLeaves, merkleProof := []));
      BatchStart(leaves[..], treeGrowth[..], i, initialLeaves, xs, ys);
      var height, h := MergeUp(leaves, treeGrowth, i, initialLeaves, leaves[i].Hash(), xs, ys);
      BatchEnd(leaves[..], treeGrowth[..], i, initialLeaves, ys, height);
      FreeHeight(|xs|, height);
      InsertRoot(Trees[..], xs, ys, height, h);
      InsertAt(h, height, ys);
    }

    method InsertAt(h: Hash, height: nat, ghost ys: seq<Hash>)
      requires height < MAX_TREES && Trees.Length == MAX_TREES && Represents(Trees[..][height := h], NumLeaves + 1, ys)
      modifies this, Trees
      ensures Holds(ys)
    {
      Trees[height] := h;
      NumLeaves := NumLeaves + 1;
    }

    /**
      Appends a batch.  The accumulator then stands for the extended list, each
      added leaf has its position and its proof in that list, and the result
      says what every leaf of each earlier tree must append to its proof.
     */
    method AddLeaves(leaves: array<ElementLeaf>, ghost xs: seq<Hash>) returns (treeGrowth: array<seq<Hash>>)
      requires leaves as object != Trees
      requires Holds(xs) && InRange(|xs| + leaves.Length)
      modifies this, Trees, leaves
      ensures fresh(treeGrowth)
      ensures Holds(xs + Placed(old(leaves[..]), |xs|))
      ensures forall j :: 0 <= j < leaves.Length ==>
        leaves[j] == old(leaves[j]).(state := StateElement(old(leaves[j].state.id), |xs| + j,
                                              LeafPath(xs + Placed(old(leaves[..]), |xs|), |xs| + j)))
      ensures Growth(treeGrowth[..], |xs|, xs + Placed(old(leaves[..]), |xs|))
    {
      hide TreeGrowth, TreeRoot, Bit, LeafPath, Pow2;
      var initialLeaves := NumLeaves;
      treeGrowth := new seq<Hash>[MAX_TREES](_ => []);
      ghost var placed := Placed(leaves[..], |xs|);
      assert xs + placed[..0] == xs;
      forall b | 0 <= b < MAX_TREES
        ensures TreeGrowth(treeGrowth[b], b, |xs|, xs)
      {
        NoGrowthYet(b, xs);
      }
      for i := 0 to leaves.Length
        invariant Holds(xs + placed[..i])
        invariant Proved(leaves[..], i, |xs|, xs + placed[..i])
        invariant Growth(treeGrowth[..], |xs|, xs + placed[..i])
        invariant forall j :: 0 <= j < leaves.Length ==> leaves[j] == old(leaves[j]).(state := leaves[j].state)
        invariant forall j :: 0 <= j < i ==>
          leaves[j].state.id == old(leaves[j].state.id) && leaves[j].state.leafIndex == |xs| + j
        invariant forall j :: i <= j < leaves.Length ==> leaves[j] == old(leaves[j])
      {
        assert xs + placed[..i + 1] == xs + placed[..i] + [placed[i]];
        assert InRange(|xs| + i + 1);
        AddLeaf(leaves, treeGrowth, i, initialLeaves, xs + placed[..i], xs + placed[..i + 1]);
      }
      assert placed[..leaves.Length] == placed;
    }

    /** Recomputes the root of one tree with updated leaves. */
    method UpdateTree(leaves: array<ElementLeaf>, s: Slice, height: nat,
                      ghost before: seq<ElementLeaf>, ghost xs: seq<Hash>, ghost ys: seq<Hash>)
      requires leaves as object != Trees && Trees.Length == MAX_TREES && NumLeaves == |xs| && height < MAX_TREES
      requires Current(before, xs) && Distinct(before) && Sorted(before, Before) && Overwrites(before, xs, ys)
      requires IsGroup(before, s, height) && s.lo < s.hi
      requires ProofsHalfway(before, leaves[..], height, ys) && Halfway(Trees[..], height, xs, ys)
      modifies Trees, leaves
      ensures ProofsHalfway(before, leaves[..], height + 1, ys) && Halfway(Trees[..], height + 1, xs, ys)
    {
      GroupProved(before, s, height, xs);
      GroupAscending(before, s, height);
      GroupOverwritten(before, s, height, xs, ys);
      var start := ClearBits(NumLeaves, height + 1);
      var end := start + Pow2(height);
      ghost var l0 := leaves[..];
      assert forall m :: s.lo <= m < s.hi ==> l0[m] == before[m];
      var root := RecomputeRoot(start, end, leaves, s.lo, s.hi, height, xs, ys);
      Trees[height] := root;
      GroupRecomputed(before, l0, leaves[..], s, height, xs, ys);
    }

    /** The loop over the trees. */
    method UpdateTrees(leaves: array<ElementLeaf>, slices: array<Slice>, ghost xs: seq<Hash>, ghost ys: seq<Hash>)
      requires leaves as object != Trees && slices as object != Trees && slices as object != leaves
      requires Holds(xs) && Groups(leaves[..], slices[..])
      requires Current(leaves[..], xs) && Distinct(leaves[..]) && Sorted(leaves[..], Before) &&
        Overwrites(leaves[..], xs, ys)
      modifies Trees, leaves
      ensures Holds(ys) && ProofsHalfway(old(leaves[..]), leaves[..], MAX_TREES, ys)
    {
      ghost var before := leaves[..];
      assert ProofsHalfway(before, leaves[..], 0, ys) && Halfway(Trees[..], 0, xs, ys);
      hide Bit, TreeRoot, Current, Overwritten;
      for height := 0 to MAX_TREES
        invariant Groups(before, slices[..])
        invariant ProofsHalfway(before, leaves[..], height, ys) && Halfway(Trees[..], height, xs, ys)
      {
        var s := slices[height];
        assert IsGroup(before, s, height);
        if s.lo == s.hi {
          if Bit(|xs|, height) {
            TreeUntouched(before, s, height, xs, ys);
          }
          continue;
        }
        UpdateTree(leaves, s, height, before, xs, ys);
      }
    }

    /**
      Overwrites leaves.  The accumulator then stands for the list with those
      leaves replaced, and the result holds them, tree by tree, with their
      new proofs.
     */
    method UpdateLeaves(leaves: array<ElementLeaf>, ghost xs: seq<Hash>, ghost ys: seq<Hash>)
      returns (trees: seq<seq<ElementLeaf>>)
      requires leaves as object != Trees
      requires Holds(xs) && Current(leaves[..], xs) && Distinct(leaves[..]) && Overwrites(leaves[..], xs, ys)
      modifies Trees, leaves
      ensures Holds(ys) && NumLeaves == old(NumLeaves)
      ensures Updates(trees, xs, ys)
    {
      hide LeafPath, Sort, Bit;
      SortedOverwrites(leaves[..], xs, ys);
      var sorted := Sort(leaves[..], Before);
      forall m | 0 <= m < leaves.Length {
        leaves[m] := sorted[m];
      }
      assert leaves[..] == sorted;
      HeightsInRange(sorted, xs);
      var slices := GroupByTree(sorted);
      UpdateTrees(leaves, slices, xs, ys);
      assert forall h :: 0 <= h < MAX_TREES ==> IsGroup(sorted, slices[h], h);
      trees := seq(MAX_TREES,
        h requires 0 <= h < MAX_TREES && slices[h].lo <= slices[h].hi <= leaves.Length reads slices, leaves =>
        leaves[slices[h].lo..slices[h].hi]);
      GroupsAreUpdates(sorted, leaves[..], slices[..], trees, xs, ys);
    }
  }
}
