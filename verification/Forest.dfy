/**
  What an accumulator stands for: the full list of leaf hashes, spent or
  unspent, of which it keeps only the tree roots.
 */
module Forest {
  import opened Bits
  import opened Types
  import opened Merkle

  /** len(Accumulator.Trees) */
  const MAX_TREES: nat := 64

  /** Below this many leaves no shift or sum in the accumulator wraps a machine word. */
  ghost predicate InRange(n: nat) {
    n < Pow2(62)
  }

  /** A leaf together with the data its hash is made of. */
  datatype ElementLeaf = ElementLeaf(state: StateElement, elementHash: Hash, spent: bool) {
    function Hash(): Hash {
      LeafHash(elementHash, state.leafIndex, spent)
    }
  }

  function OutputLeaf(e: OutputElement, spent: bool): ElementLeaf {
    ElementLeaf(e.state, OutputHash(e.state.id, e.output, e.maturityHeight), spent)
  }

  /** Root of the tree of height h in the forest over xs. */
  function TreeRoot(xs: seq<Hash>, h: nat): Hash
    requires Bit(|xs|, h)
  {
    TreeFits(|xs|, h);
    Root(xs, TreeStart(|xs|, h), h)
  }

  /** The proof of leaf p in the forest over xs. */
  function LeafPath(xs: seq<Hash>, p: nat): (path: seq<Hash>)
    requires p < |xs|
    ensures |path| == TreeHeight(|xs|, p)
    ensures BlockFits(|xs|, p, TreeHeight(|xs|, p)) && path == Path(xs, p, TreeHeight(|xs|, p))
  {
    TreeOf(|xs|, p);
    TreeFits(|xs|, TreeHeight(|xs|, p));
    Path(xs, p, TreeHeight(|xs|, p))
  }

  /** The live roots, those whose height is a set bit of numLeaves, are the roots over xs. */
  ghost predicate Represents(trees: seq<Hash>, numLeaves: nat, xs: seq<Hash>) {
    |trees| == MAX_TREES && numLeaves == |xs| && InRange(numLeaves) &&
    forall h :: 0 <= h < MAX_TREES && Bit(numLeaves, h) ==> trees[h] == TreeRoot(xs, h)
  }

  /** The accumulator over a list of leaf hashes. */
  function Accumulate(xs: seq<Hash>): (acc: AccumulatorState)
    ensures acc.numLeaves == |xs|
    ensures InRange(|xs|) ==> Represents(acc.trees, |xs|, xs)
  {
    AccumulatorState(|xs|, seq(MAX_TREES, h requires h >= 0 => if Bit(|xs|, h) then TreeRoot(xs, h) else ZeroHash))
  }

  /** Each leaf hash commits to the position it is at. */
  ghost predicate Indexed(xs: seq<Hash>) {
    forall i :: 0 <= i < |xs| ==> xs[i].LeafHash? && xs[i].index == i
  }

  lemma HeightInRange(n: nat, h: nat)
    requires InRange(n) && Bit(n, h)
    ensures h < 62
  {
    BitBound(n, h, 62);
  }
}
