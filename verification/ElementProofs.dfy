/**
  Keeping proofs alive outside the accumulator: updateProof and both
  UpdateElementProof methods (merkle/accumulator.go:316-397).
 */
module ElementProofs {
  import opened Bits
  import opened Types
  import opened Merkle
  import opened Forest
  import opened Accumulator

  /** A StateElement that someone holds a reference to. */
  class ElementRef {
    var element: StateElement

    constructor (element: StateElement)
      ensures this.element == element
    {
      this.element := element;
    }

    /** The element's proof is that of its position in the forest over xs. */
    ghost predicate ProvedIn(xs: seq<Hash>)
      reads this
    {
      element.leafIndex < |xs| && element.merkleProof == LeafPath(xs, element.leafIndex)
    }
  }

  // ---------------------------------------------------------------- the closest updated leaf

  /** The sibling on p's path just below the height at which p and q merge is q's block. */
  lemma SiblingAtMerge(p: nat, q: nat)
    requires MergeHeight(p, q) > 0
    ensures SiblingStart(p, MergeHeight(p, q) - 1) == ClearBits(q, MergeHeight(p, q) - 1)
    ensures ClearBits(p, MergeHeight(p, q)) == ClearBits(q, MergeHeight(p, q))
  {
    var k := MergeHeight(p, q) - 1;
    MergeMeaning(p, q, k);
    MergeMeaning(p, q, k + 1);
    ClearStep(p, k);
    ClearStep(q, k);
  }

  /** A leaf under the sibling of p at height k merges with p at or below height k + 1. */
  lemma UnderSibling(p: nat, k: nat, q: nat)
    requires SiblingStart(p, k) <= q < SiblingStart(p, k) + Pow2(k)
    ensures MergeHeight(p, q) <= k + 1
  {
    SiblingFits(p, k);
    ClearBounds(p, k + 1);
    ClearInBlock(ClearBits(p, k + 1), k + 1, q);
    MergeMeaning(p, q, k + 1);
  }

  /** No leaf of the group merges with p below height m. */
  ghost predicate Closest(group: seq<ElementLeaf>, p: nat, m: nat) {
    forall n :: 0 <= n < |group| ==> m <= MergeHeight(p, group[n].state.leafIndex)
  }

  /** Below the closest updated leaf, siblings have not changed. */
  lemma SiblingUnchanged(groups: seq<seq<ElementLeaf>>, xs: seq<Hash>, ys: seq<Hash>, p: nat, m: nat, k: nat)
    requires Updates(groups, xs, ys) && p < |xs|
    requires TreeHeight(|xs|, p) < MAX_TREES && Closest(groups[TreeHeight(|xs|, p)], p, m)
    requires k < TreeHeight(|xs|, p) && k + 1 < m
    ensures LeafPath(xs, p)[k] == LeafPath(ys, p)[k]
  {
    var h := TreeHeight(|xs|, p);
    var at := SiblingStart(p, k);
    TreeOf(|xs|, p);
    var path, path' := LeafPath(xs, p), LeafPath(ys, p);
    PathAt(xs, p, h, k);
    PathAt(ys, p, h, k);
    forall q | at <= q < at + Pow2(k)
      ensures xs[q] == ys[q]
    {
      UnderSibling(p, k, q);
      SiblingInTree(|xs|, p, k, q);
      assert !Updated(groups, h, q);
    }
    RootLocal(xs, ys, at, k);
  }

  lemma SiblingInTree(n: nat, p: nat, k: nat, q: nat)
    requires p < n && k < TreeHeight(n, p)
    requires SiblingStart(p, k) <= q < SiblingStart(p, k) + Pow2(k)
    ensures q < n && TreeHeight(n, q) == TreeHeight(n, p)
  {
    var h := TreeHeight(n, p);
    TreeOf(n, p);
    UnderSibling(p, k, q);
    MergeMeaning(p, q, h);
    ClearBounds(q, h);
    InTree(n, h, q);
  }

  /** What updateProof leaves in e.MerkleProof when the closest updated leaf is another one. */
  function Patched(proof: seq<Hash>, best: ElementLeaf, m: nat): seq<Hash>
    requires 0 < m <= |proof| && |best.state.merkleProof| == |proof|
  {
    proof[..m - 1] + [ProofRoot(best.Hash(), best.state.leafIndex, best.state.merkleProof[..m - 1])] +
      best.state.merkleProof[m..]
  }

  /** From the merge point on, the closest leaf's proof supplies the entries. */
  lemma AboveMerge(ys: seq<Hash>, p: nat, best: ElementLeaf, m: nat, h: nat)
    requires p < |ys| && h == TreeHeight(|ys|, p)
    requires UpdatedLeaf(best, h, ys) && m == MergeHeight(p, best.state.leafIndex) > 0
    ensures m <= h
    ensures LeafPath(ys, p)[m..] == best.state.merkleProof[m..]
    ensures LeafPath(ys, p)[m - 1] == ProofRoot(best.Hash(), best.state.leafIndex, best.state.merkleProof[..m - 1])
  {
    var q := best.state.leafIndex;
    TreeOf(|ys|, p);
    TreeOf(|ys|, q);
    MergeMeaning(p, q, h);
    SiblingAtMerge(p, q);
    PathAt(ys, p, h, m - 1);
    PathPrefix(ys, q, m - 1, h);
    PathIsProof(ys, q, m - 1);
    PathsMerge(ys, p, q, m, h);
  }

  lemma PatchedIsPath(groups: seq<seq<ElementLeaf>>, xs: seq<Hash>, ys: seq<Hash>, p: nat, best: ElementLeaf, m: nat)
    requires Updates(groups, xs, ys) && p < |xs|
    requires TreeHeight(|xs|, p) < MAX_TREES && Closest(groups[TreeHeight(|xs|, p)], p, m)
    requires UpdatedLeaf(best, TreeHeight(|xs|, p), ys) && m == MergeHeight(p, best.state.leafIndex) > 0
    ensures m <= TreeHeight(|xs|, p)
    ensures Patched(LeafPath(xs, p), best, m) == LeafPath(ys, p)
  {
    AboveMerge(ys, p, best, m, TreeHeight(|xs|, p));
    var before, after := LeafPath(xs, p), LeafPath(ys, p);
    forall k | 0 <= k < m - 1
      ensures before[k] == after[k]
    {
      SiblingUnchanged(groups, xs, ys, p, m, k);
    }
    assert after == after[..m - 1] + [after[m - 1]] + after[m..];
  }

  /** Without updated leaves in its tree, a proof stays as it is. */
  lemma ProofUnchanged(groups: seq<seq<ElementLeaf>>, xs: seq<Hash>, ys: seq<Hash>, p: nat)
    requires Updates(groups, xs, ys) && p < |xs| && TreeHeight(|xs|, p) < MAX_TREES
    requires groups[TreeHeight(|xs|, p)] == []
    ensures LeafPath(xs, p) == LeafPath(ys, p)
  {
    var before, after := LeafPath(xs, p), LeafPath(ys, p);
    forall k | 0 <= k < |before|
      ensures before[k] == after[k]
    {
      SiblingUnchanged(groups, xs, ys, p, k + 2, k);
    }
  }

  /**
    updateProof: whatever leaves were updated, a proof over the old list
    becomes the proof over the new one.
   */
  method UpdateProof(e: ElementRef, updated: seq<seq<ElementLeaf>>, ghost xs: seq<Hash>, ghost ys: seq<Hash>)
    requires e.ProvedIn(xs) && Updates(updated, xs, ys)
    modifies e
    ensures e.element == old(e.element).(merkleProof := e.element.merkleProof) && e.ProvedIn(ys)
  {
    hide Xor, Len64, Bit, ClearBits, Pow2, Root, Path, ProofRoot;
    ghost var p, h := e.element.leafIndex, TreeHeight(|xs|, e.element.leafIndex);
    TreeOf(|xs|, p);
    HeightInRange(|xs|, h);
    var updatedInTree := updated[|e.element.merkleProof|];
    if |updatedInTree| == 0 {
      ProofUnchanged(updated, xs, ys, p);
      return;
    }
    var best := updatedInTree[0];
    for n := 1 to |updatedInTree|
      invariant best in updatedInTree && UpdatedLeaf(best, h, ys)
      invariant Closest(updatedInTree[..n], p, MergeHeight(p, best.state.leafIndex))
    {
      assert UpdatedLeaf(updated[h][n], h, ys);
      if MergeHeight(e.element.leafIndex, updatedInTree[n].state.leafIndex) <
        MergeHeight(e.element.leafIndex, best.state.leafIndex) {
        best := updatedInTree[n];
      }
    }
    assert updatedInTree[..|updatedInTree|] == updatedInTree;
    MergeStep(p, best.state.leafIndex);
    if best.state.leafIndex == e.element.leafIndex {
      e.element := e.element.(merkleProof := best.state.merkleProof);
    } else {
      var mh := MergeHeight(e.element.leafIndex, best.state.leafIndex);
      PatchedIsPath(updated, xs, ys, p, best, mh);
      e.element := e.element.(merkleProof := Patched(e.element.merkleProof, best, mh));
    }
  }

  // ---------------------------------------------------------------- applying

  datatype ElementApplyUpdate = ElementApplyUpdate(updated: seq<seq<ElementLeaf>>, treeGrowth: seq<seq<Hash>>) {

    /** The update leads from the list xs, by way of ys with its leaves overwritten, to the longer zs. */
    ghost predicate Leads(xs: seq<Hash>, ys: seq<Hash>, zs: seq<Hash>) {
      Updates(updated, xs, ys) && ys <= zs && Growth(treeGrowth, |ys|, zs)
    }

    /** The element's proof is carried from before the block to after it. */
    method UpdateElementProof(e: ElementRef, ghost xs: seq<Hash>, ghost ys: seq<Hash>, ghost zs: seq<Hash>)
      requires e.ProvedIn(xs) && Leads(xs, ys, zs)
      modifies e
      ensures e.element == old(e.element).(merkleProof := e.element.merkleProof) && e.ProvedIn(zs)
    {
      UpdateProof(e, updated, xs, ys);
      GrownIsPath(treeGrowth, ys, zs, e.element.leafIndex);
      e.element := e.element.(merkleProof := e.element.merkleProof + treeGrowth[|e.element.merkleProof|]);
    }
  }

  /** Leaves of one old tree stay together as it grows. */
  lemma GrownTogether(n: nat, big: nat, p: nat, q: nat)
    requires p < n <= big && q < n && TreeHeight(n, p) == TreeHeight(n, q) <= TreeHeight(big, q)
    ensures TreeHeight(big, p) == TreeHeight(big, q)
  {
    var h, big_h := TreeHeight(n, p), TreeHeight(big, q);
    TreeOf(n, p);
    TreeOf(n, q);
    TreeOf(big, q);
    AgreeAbove(p, q, h, big_h);
    ClearBounds(p, big_h);
    InTree(big, big_h, p);
  }

  lemma GrownIsPath(growth: seq<seq<Hash>>, ys: seq<Hash>, zs: seq<Hash>, p: nat)
    requires ys <= zs && Growth(growth, |ys|, zs) && p < |ys| && InRange(|ys|)
    ensures TreeHeight(|ys|, p) < MAX_TREES
    ensures LeafPath(ys, p) + growth[TreeHeight(|ys|, p)] == LeafPath(zs, p)
  {
    hide Bit, ClearBits, Pow2, MergeHeight, Root, Path;
    var h := TreeHeight(|ys|, p);
    TreeOf(|ys|, p);
    HeightInRange(|ys|, h);
    TreeFits(|ys|, h);
    var q := TreeStart(|ys|, h);
    assert TreeGrowth(growth[h], h, |ys|, zs);
    InTree(|ys|, h, q);
    TreeOf(|ys|, q);
    GrownTogether(|ys|, |zs|, p, q);
    var before, after := LeafPath(ys, p), LeafPath(zs, p);
    LeafPathLocal(ys, zs, p);
    PathPrefix(zs, p, h, |after|);
    PathsMerge(zs, p, q, h, |after|);
    assert after == after[..h] + after[h..];
  }

  /** Applies a block's leaves to the accumulator. */
  method ApplyBlock(acc: ElementAccumulator, updated: array<ElementLeaf>, added: array<ElementLeaf>,
                    ghost xs: seq<Hash>, ghost ys: seq<Hash>)
    returns (eau: ElementApplyUpdate)
    requires updated as object != acc.Trees && added as object != acc.Trees && updated != added
    requires acc.Holds(xs) && InRange(|xs| + added.Length)
    requires Current(updated[..], xs) && LeafOrder.Distinct(updated[..]) && Overwrites(updated[..], xs, ys)
    modifies acc, acc.Trees, updated, added
    ensures acc.Holds(ys + Placed(old(added[..]), |ys|))
    ensures eau.Leads(xs, ys, ys + Placed(old(added[..]), |ys|))
    ensures forall j :: 0 <= j < added.Length ==>
      added[j] == old(added[j]).(state := StateElement(old(added[j].state.id), |ys| + j,
                                            LeafPath(ys + Placed(old(added[..]), |ys|), |ys| + j)))
  {
    var groups := acc.UpdateLeaves(updated, xs, ys);
    var treeGrowth := acc.AddLeaves(added, ys);
    eau := ElementApplyUpdate(groups, treeGrowth[..]);
  }

  // ---------------------------------------------------------------- reverting

  /** The tree of a leaf never shrinks. */
  lemma TreesOnlyGrow(n: nat, big: nat, p: nat)
    requires p < n <= big
    ensures TreeHeight(n, p) <= TreeHeight(big, p)
  {
    var h := TreeHeight(n, p);
    TreeOf(n, p);
    TreeFits(n, h);
    ClearBounds(big, h);
    MergeMeaning(big, p, h);
  }

  datatype ElementRevertUpdate = ElementRevertUpdate(updated: seq<seq<ElementLeaf>>, numLeaves: nat) {

    /** The update leads back from lists that extend ys to the list xs. */
    ghost predicate Leads(ys: seq<Hash>, xs: seq<Hash>) {
      Updates(updated, ys, xs) && numLeaves == |xs|
    }

    /** The element's proof is carried from after the block to before it. */
    method UpdateElementProof(e: ElementRef, ghost xs: seq<Hash>, ghost ys: seq<Hash>, ghost zs: seq<Hash>)
      requires e.ProvedIn(zs) && Leads(ys, xs) && ys <= zs
      requires e.element.leafIndex < numLeaves
      modifies e
      ensures e.element == old(e.element).(merkleProof := e.element.merkleProof) && e.ProvedIn(xs)
    {
      ghost var p := e.element.leafIndex;
      TreesOnlyGrow(|ys|, |zs|, p);
      var mh := MergeHeight(numLeaves, e.element.leafIndex);
      LeafPathLocal(ys, zs, p);
      PathPrefix(zs, p, TreeHeight(|ys|, p), TreeHeight(|zs|, p));
      MergeStep(numLeaves, p);
      if mh <= |e.element.merkleProof| {
        e.element := e.element.(merkleProof := e.element.merkleProof[..mh - 1]);
      }
      UpdateProof(e, updated, ys, xs);
    }
  }

  /** Collects the old contents of a block's leaves; the accumulator stays as it is. */
  method RevertBlock(acc: ElementAccumulator, updated: seq<ElementLeaf>, ghost xs: seq<Hash>, ghost ys: seq<Hash>)
    returns (eru: ElementRevertUpdate)
    requires acc.Holds(xs) && Current(updated, xs) && |ys| == |xs| && Overwrites(updated, ys, xs)
    ensures eru.Leads(ys, xs)
  {
    HeightsInRange(updated, xs);
    var groups := seq(MAX_TREES, _ => []);
    for i := 0 to |updated|
      invariant |groups| == MAX_TREES
      invariant forall h, m :: 0 <= h < MAX_TREES && 0 <= m < |groups[h]| ==> UpdatedLeaf(groups[h][m], h, xs)
      invariant forall j :: 0 <= j < i ==>
        Updated(groups, TreeHeight(|xs|, updated[j].state.leafIndex), updated[j].state.leafIndex)
    {
      var l := updated[i];
      var h := |l.state.merkleProof|;
      ghost var before := groups;
      groups := groups[h := groups[h] + [l]];
      assert groups[h][|before[h]|] == l;
      forall j | 0 <= j < i
        ensures Updated(groups, TreeHeight(|xs|, updated[j].state.leafIndex), updated[j].state.leafIndex)
      {
        StillUpdated(before, groups, TreeHeight(|xs|, updated[j].state.leafIndex), updated[j].state.leafIndex);
      }
    }
    eru := ElementRevertUpdate(groups, acc.NumLeaves);
  }

  lemma StillUpdated(before: seq<seq<ElementLeaf>>, after: seq<seq<ElementLeaf>>, h: nat, p: nat)
    requires Updated(before, h, p) && |after| == |before| && before[h] <= after[h]
    ensures Updated(after, h, p)
  {
    var m :| 0 <= m < |before[h]| && before[h][m].state.leafIndex == p;
    assert after[h][m] == before[h][m];
  }

  /**
    Reverting a block undoes applying it: the proof of every element that was
    there before the block comes back exactly (consensus/update_test.go:251-263).
   */
  method ApplyThenRevert(e: ElementRef, eau: ElementApplyUpdate, eru: ElementRevertUpdate,
                         ghost xs: seq<Hash>, ghost ys: seq<Hash>, ghost zs: seq<Hash>)
    requires e.ProvedIn(xs) && eau.Leads(xs, ys, zs) && eru.Leads(ys, xs)
    modifies e
    ensures e.element == old(e.element)
  {
    eau.UpdateElementProof(e, xs, ys, zs);
    eru.UpdateElementProof(e, xs, ys, zs);
  }

  // ---------------------------------------------------------------- membership

  /** containsLeaf, on the roots. */
  predicate Contains(trees: seq<Hash>, numLeaves: nat, l: ElementLeaf)
    requires |trees| == MAX_TREES
  {
    |l.state.merkleProof| < MAX_TREES && Bit(numLeaves, |l.state.merkleProof|) &&
    trees[|l.state.merkleProof|] == ProofRoot(l.Hash(), l.state.leafIndex, l.state.merkleProof)
  }

  /**
    Membership is exact: the accumulator contains a leaf just when the list
    has that element, with that spent flag, at the position the leaf names,
    and the proof is that position's path.
   */
  lemma MembershipIsExact(trees: seq<Hash>, xs: seq<Hash>, l: ElementLeaf)
    requires Represents(trees, |xs|, xs) && Indexed(xs)
    ensures Contains(trees, |xs|, l) <==>
      l.state.leafIndex < |xs| && xs[l.state.leafIndex] == l.Hash() &&
      l.state.merkleProof == LeafPath(xs, l.state.leafIndex)
  {
    var p, h := l.state.leafIndex, |l.state.merkleProof|;
    if Contains(trees, |xs|, l) {
      TreeFits(|xs|, h);
      ProofIsPath(xs, TreeStart(|xs|, h), l.Hash(), p, l.state.merkleProof);
      InTree(|xs|, h, Landing(TreeStart(|xs|, h), p, h));
    }
    if p < |xs| && xs[p] == l.Hash() && l.state.merkleProof == LeafPath(xs, p) {
      TreeOf(|xs|, p);
      HeightInRange(|xs|, h);
      PathIsProof(xs, p, h);
    }
  }
}
