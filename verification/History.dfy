/**
  The history accumulator (merkle/accumulator.go:399-478): a forest over the
  chain indices of all blocks, in which a block's height is its position.
 */
module History {
  import opened Bits
  import opened Types
  import opened Merkle
  import opened Forest
  import opened Accumulator
  import opened ElementProofs

  /** The leaf hashes of a chain of indices. */
  function Leaves(chain: seq<ChainIndex>): (hs: seq<Hash>)
    ensures |hs| == |chain|
    ensures forall i :: 0 <= i < |chain| ==> hs[i] == HistoryLeafHash(chain[i])
  {
    seq(|chain|, i requires 0 <= i < |chain| => HistoryLeafHash(chain[i]))
  }

  /** The block at position i has height i. */
  ghost predicate Numbered(chain: seq<ChainIndex>) {
    forall i :: 0 <= i < |chain| ==> chain[i].height == i
  }

  /** Contains, on the roots. */
  predicate ContainsIndex(trees: seq<Hash>, numLeaves: nat, index: ChainIndex, proof: seq<Hash>)
    requires |trees| == MAX_TREES
  {
    |proof| < MAX_TREES && Bit(numLeaves, |proof|) &&
    trees[|proof|] == ProofRoot(HistoryLeafHash(index), index.height, proof)
  }

  /** The history contains an index just when it is on the chain and the proof is its path. */
  lemma HistoryIsExact(trees: seq<Hash>, chain: seq<ChainIndex>, index: ChainIndex, proof: seq<Hash>)
    requires Represents(trees, |chain|, Leaves(chain)) && Numbered(chain)
    ensures ContainsIndex(trees, |chain|, index, proof) <==>
      index in chain && proof == LeafPath(Leaves(chain), index.height)
  {
    var hs, h := Leaves(chain), |proof|;
    if ContainsIndex(trees, |chain|, index, proof) {
      TreeFits(|chain|, h);
      ProofIsPath(hs, TreeStart(|chain|, h), HistoryLeafHash(index), index.height, proof);
      var q := Landing(TreeStart(|chain|, h), index.height, h);
      InTree(|chain|, h, q);
      assert chain[q] == index;
    }
    if index in chain && proof == LeafPath(hs, index.height) {
      TreeOf(|chain|, index.height);
      HeightInRange(|chain|, h);
      PathIsProof(hs, index.height, h);
    }
  }

  datatype HistoryApplyUpdate = HistoryApplyUpdate(proof: seq<Hash>, growth: seq<Hash>) {

    /** The update leads from the leaves xs to ys, which has one leaf more. */
    ghost predicate Leads(xs: seq<Hash>, ys: seq<Hash>) {
      |ys| == |xs| + 1 && xs <= ys && proof == LeafPath(ys, |xs|) &&
      Merging(|xs|, |growth|) && !Bit(|xs|, |growth|) &&
      forall t :: 0 <= t < |growth| ==> RightRoot(ys, |xs|, t, growth[t])
    }

    /** UpdateProof carries the proof of an earlier block over the new one. */
    method UpdateProof(proof: seq<Hash>, ghost xs: seq<Hash>, ghost ys: seq<Hash>,
            ghost p: nat) returns (updated: seq<Hash>)
      requires p < |xs| && proof == LeafPath(xs, p) && Leads(xs, ys)
      ensures updated == LeafPath(ys, p)
    {
      HistoryGrowth(this, xs, ys, p);
      updated := proof;
      if |growth| > |updated| {
        updated := updated + [growth[|updated|]];
        updated := updated + this.proof[|updated|..];
      }
    }
  }

  /** r is the root of the block of height t that ends with leaf n. */
  ghost predicate RightRoot(ys: seq<Hash>, n: nat, t: nat, r: Hash) {
    ClearBits(n, t) + Pow2(t) <= |ys| && r == Root(ys, ClearBits(n, t), t)
  }

  lemma HistoryGrowth(hau: HistoryApplyUpdate, xs: seq<Hash>, ys: seq<Hash>, p: nat)
    requires p < |xs| && hau.Leads(xs, ys)
    ensures |LeafPath(ys, |xs|)| == |hau.growth|
    ensures LeafPath(ys, p) ==
      if TreeHeight(|xs|, p) < |hau.growth| then
        LeafPath(xs, p) + [hau.growth[TreeHeight(|xs|, p)]] + LeafPath(ys, |xs|)[TreeHeight(|xs|, p) + 1..]
      else LeafPath(xs, p)
  {
    hide Pow2, Xor, Len64, Aligned;
    var n, k, t := |xs|, |hau.growth|, TreeHeight(|xs|, p);
    MergeDone(n, k, p);
    MergeDone(n, k, n);
    LeafPathLocal(xs, ys, p);
    var path := LeafPath(ys, p);
    MergeMeaning(n, p, k);
    ClearBounds(p, k);
    if t < k {
      ClearBounds(n, k);
      MergeSymmetric(n, p);
      SiblingAtMerge(p, n);
      MergeStep(n, p);
      PathPrefix(ys, p, t, k);
      PathAt(ys, p, k, t);
      PathsMerge(ys, p, n, t + 1, k);
      assert RightRoot(ys, n, t, hau.growth[t]);
      assert path == path[..t] + [path[t]] + path[t + 1..];
    } else {
      ClearInBlockConverse(n, k, p);
    }
  }

  /** Leaf n's block of height k holds every p from its start on. */
  lemma ClearInBlockConverse(n: nat, k: nat, p: nat)
    requires p < n && ClearBits(n, k) != ClearBits(p, k)
    ensures p < ClearBits(n, k)
  {
    ClearBounds(n, k);
    if p >= ClearBits(n, k) {
      ClearInBlock(ClearBits(n, k), k, p);
    }
  }

  lemma StartMerge(ys: seq<Hash>, n: nat, leaf: Hash)
    requires |ys| == n + 1 && ys[n] == leaf
    ensures Merging(n, 0) && RightRoot(ys, n, 0, leaf) && PathSoFar(ys, n, 0, n) == []
  {
  }

  /** One merge on the way up from the new leaf. */
  lemma MergeLast(trees: seq<Hash>, xs: seq<Hash>, ys: seq<Hash>, i: nat, h: Hash)
    requires Represents(trees, |xs|, xs) && |ys| == |xs| + 1 && xs <= ys && i < MAX_TREES
    requires Merging(|xs|, i) && Bit(|xs|, i) && RightRoot(ys, |xs|, i, h)
    ensures Merging(|xs|, i + 1) && RightRoot(ys, |xs|, i + 1, NodeHash(trees[i], h))
    ensures PathSoFar(ys, |xs|, i + 1, |xs|) == PathSoFar(ys, |xs|, i, |xs|) + [trees[i]]
  {
    hide Xor, Len64, Aligned, Path, TreeRoot, Bit;
    TreeRootLocal(xs, ys, i);
    MergedRoot(ys, |xs|, i);
    MergeOne(ys, |xs|, i, |xs|, trees[i], h);
  }

  class HistoryAccumulator {
    const Trees: array<Hash>
    var NumLeaves: nat

    ghost predicate Holds(xs: seq<Hash>)
      reads this, Trees
    {
      Represents(Trees[..], NumLeaves, xs)
    }

    constructor (acc: AccumulatorState)
      requires |acc.trees| == MAX_TREES
      ensures NumLeaves == acc.numLeaves && Trees[..] == acc.trees && fresh(Trees)
    {
      NumLeaves := acc.numLeaves;
      Trees := new Hash[MAX_TREES](i requires 0 <= i < |acc.trees| => acc.trees[i]);
    }

    /** The live roots, which is all that is ever written out. */
    method Value(ghost xs: seq<Hash>) returns (acc: AccumulatorState)
      requires Holds(xs)
      ensures acc == Accumulate(xs)
    {
      acc := AccumulatorState(NumLeaves, seq(MAX_TREES, h requires 0 <= h < Trees.Length reads this, Trees =>
        if Bit(NumLeaves, h) then Trees[h] else ZeroHash));
      assert acc.trees == Accumulate(xs).trees;
    }

    /** Walks up from the new leaf to the first free height. */
    method MergeUp(leaf: Hash, ghost xs: seq<Hash>, ghost ys: seq<Hash>)
      returns (h: Hash, i: nat, proof: seq<Hash>, growth: seq<Hash>)
      requires Holds(xs) && InRange(|xs| + 1) && ys == xs + [leaf]
      ensures Merging(|xs|, i) && !Bit(|xs|, i) && i < MAX_TREES
      ensures proof == PathSoFar(ys, |xs|, i, |xs|) && |growth| == i && RightRoot(ys, |xs|, i, h)
      ensures forall t :: 0 <= t < i ==> RightRoot(ys, |xs|, t, growth[t])
    {
      hide Xor, Len64, Aligned, Path, TreeRoot, Bit, RightRoot, PathSoFar;
      StartMerge(ys, |xs|, leaf);
      h, i, proof, growth := leaf, 0, [], [];
      while Bit(NumLeaves, i)
        invariant Merging(|xs|, i) && |growth| == i && proof == PathSoFar(ys, |xs|, i, |xs|)
        invariant RightRoot(ys, |xs|, i, h)
        invariant forall t :: 0 <= t < i ==> RightRoot(ys, |xs|, t, growth[t])
        decreases 62 - i
      {
        HeightInRange(NumLeaves, i);
        MergeLast(Trees[..], xs, ys, i, h);
        proof := proof + [Trees[i]];
        growth := growth + [h];
        h := NodeHash(Trees[i], h);
        i := i + 1;
      }
      FreeHeight(|xs|, i);
    }

    /** Appends a block's index; the update carries earlier proofs over it. */
    method ApplyBlock(index: ChainIndex, ghost xs: seq<Hash>) returns (hau: HistoryApplyUpdate)
      requires Holds(xs) && InRange(|xs| + 1)
      modifies this, Trees
      ensures Holds(xs + [HistoryLeafHash(index)])
      ensures hau.Leads(xs, xs + [HistoryLeafHash(index)])
    {
      ghost var ys := xs + [HistoryLeafHash(index)];
      var h, i, proof, growth := MergeUp(HistoryLeafHash(index), xs, ys);
      MergeDone(|xs|, i, |xs|);
      InsertRoot(Trees[..], xs, ys, i, h);
      Insert(h, i, ys);
      hau := HistoryApplyUpdate(proof, growth);
    }

    method Insert(h: Hash, i: nat, ghost ys: seq<Hash>)
      requires i < MAX_TREES == Trees.Length && Represents(Trees[..][i := h], NumLeaves + 1, ys)
      modifies this, Trees
      ensures Holds(ys)
    {
      Trees[i] := h;
      NumLeaves := NumLeaves + 1;
    }
  }

  /** HistoryRevertUpdate.UpdateProof cuts a proof back to what it was before the block of the given index. */
  method RevertProof(index: ChainIndex, height: nat, proof: seq<Hash>, ghost xs: seq<Hash>, ghost ys: seq<Hash>)
    returns (updated: seq<Hash>)
    requires height < |xs| == index.height && xs <= ys && proof == LeafPath(ys, height)
    ensures updated == LeafPath(xs, height)
  {
    TreesOnlyGrow(|xs|, |ys|, height);
    LeafPathLocal(xs, ys, height);
    PathPrefix(ys, height, TreeHeight(|xs|, height), TreeHeight(|ys|, height));
    MergeStep(index.height, height);
    updated := proof;
    var mh := MergeHeight(index.height, height);
    if mh <= |updated| {
      updated := updated[..mh - 1];
    }
  }
}
