/**
  The three traversals of a multiproof (merkle/multiproof.go:12-133), below
  one tree: one counts the hashes that a subtree takes, one writes them, and
  one reads them again.

  In the source the leaves of the traversals share the memory of the inputs'
  proofs.  Here that memory is a table of proofs with one slot for each input,
  and the traversals pass slot numbers around.
 */
module Traversal {
  import opened Bits
  import opened Types
  import opened Merkle
  import opened Forest
  import opened Recompute
  import opened Sorting
  import Words

  /**
    A leaf of a traversal: an input's parent as an unspent leaf.  Its proof is
    in the table of proofs, at the leaf's slot.
   */
  datatype Leaf = Leaf(slot: nat, leafIndex: nat, hash: Hash)

  /** The proofs in the order of the slots. */
  type Proofs = seq<seq<Hash>>

  // ---------------------------------------------------------------- what a multiproof must hold

  /** Some position of S lies in the block of height h at lo. */
  ghost predicate Hit(S: set<nat>, lo: nat, h: nat) {
    exists s :: s in S && lo <= s < lo + Pow2(h)
  }

  /** The roots of the maximal blocks without a position of S, from left to right. */
  ghost function Needed(xs: seq<Hash>, lo: nat, h: nat, S: set<nat>): seq<Hash>
    requires lo + Pow2(h) <= |xs|
    decreases h
  {
    if !Hit(S, lo, h) then [Root(xs, lo, h)]
    else if h == 0 then []
    else Needed(xs, lo, h - 1, S) + Needed(xs, lo + Pow2(h - 1), h - 1, S)
  }

  /** The two halves of a block that holds a position of S. */
  lemma NeededHalves(xs: seq<Hash>, lo: nat, h: nat, S: set<nat>)
    requires h > 0 && lo + Pow2(h) <= |xs| && Hit(S, lo, h)
    ensures Needed(xs, lo, h, S) == Needed(xs, lo, h - 1, S) + Needed(xs, lo + Pow2(h - 1), h - 1, S)
    ensures !Hit(S, lo, h - 1) ==> Needed(xs, lo, h - 1, S) == [Root(xs, lo, h - 1)]
    ensures !Hit(S, lo + Pow2(h - 1), h - 1) ==>
      Needed(xs, lo + Pow2(h - 1), h - 1, S) == [Root(xs, lo + Pow2(h - 1), h - 1)]
  {
  }

  /** The whole multiproof for positions S: the trees they are in, smallest first, from height h on. */
  ghost function MultiproofFrom(xs: seq<Hash>, S: set<nat>, h: nat): seq<Hash>
    decreases MAX_TREES - h
  {
    if h >= MAX_TREES then []
    else TreeNeeded(xs, S, h) + MultiproofFrom(xs, S, h + 1)
  }

  lemma NextTree(xs: seq<Hash>, S: set<nat>, h: nat)
    ensures MultiproofFrom(xs, S, h) == if h >= MAX_TREES then []
      else TreeNeeded(xs, S, h) + MultiproofFrom(xs, S, h + 1)
  {
  }

  ghost function TreeNeeded(xs: seq<Hash>, S: set<nat>, h: nat): seq<Hash> {
    if Bit(|xs|, h) && Hit(S, TreeStart(|xs|, h), h) then
      TreeFits(|xs|, h);
      Needed(xs, TreeStart(|xs|, h), h, S)
    else []
  }

  // ---------------------------------------------------------------- lists of leaves

  /** The leaf's position is one of S, in the block of height h at i. */
  ghost predicate LeafIn(l: Leaf, S: set<nat>, i: nat, h: nat) {
    l.leafIndex in S && i <= l.leafIndex < i + Pow2(h)
  }

  /** The leaves are those of S in the block of height h at i, in order of position. */
  ghost predicate AtNode(ls: seq<Leaf>, S: set<nat>, i: nat, h: nat) {
    (forall m :: 0 <= m < |ls| ==> LeafIn(ls[m], S, i, h)) &&
    (forall s :: s in S && i <= s < i + Pow2(h) ==> HasPosition(ls, s)) &&
    Ordered(ls)
  }

  ghost predicate HasPosition(ls: seq<Leaf>, s: nat) {
    exists m :: 0 <= m < |ls| && ls[m].leafIndex == s
  }

  ghost predicate Ordered(ls: seq<Leaf>) {
    forall a, b :: 0 <= a < b < |ls| ==> ls[a].leafIndex <= ls[b].leafIndex
  }

  lemma EmptyIsMiss(ls: seq<Leaf>, S: set<nat>, i: nat, h: nat)
    requires AtNode(ls, S, i, h)
    ensures |ls| == 0 <==> !Hit(S, i, h)
  {
    if |ls| > 0 {
      assert LeafIn(ls[0], S, i, h);
    }
  }

  function Position(l: Leaf): nat {
    l.leafIndex
  }

  ghost predicate IsSplit(ls: seq<Leaf>, split: nat, mid: nat) {
    split <= |ls| &&
    (forall m :: 0 <= m < split ==> ls[m].leafIndex < mid) &&
    (forall m :: split <= m < |ls| ==> ls[m].leafIndex >= mid)
  }

  lemma LeftAtNode(ls: seq<Leaf>, split: nat, S: set<nat>, i: nat, h: nat, half: nat)
    requires AtNode(ls, S, i, h) && IsSplit(ls, split, i + Pow2(half)) && Pow2(half) <= Pow2(h)
    ensures AtNode(ls[..split], S, i, half)
  {
    hide Pow2;
    var left := ls[..split];
    forall m | 0 <= m < |left|
      ensures LeafIn(left[m], S, i, half)
    {
      assert LeafIn(ls[m], S, i, h);
    }
    forall s | s in S && i <= s < i + Pow2(half)
      ensures HasPosition(left, s)
    {
      assert HasPosition(ls, s);
      var m :| 0 <= m < |ls| && ls[m].leafIndex == s;
      assert left[m] == ls[m];
    }
  }

  lemma RightAtNode(ls: seq<Leaf>, split: nat, S: set<nat>, i: nat, h: nat, mid: nat, half: nat)
    requires AtNode(ls, S, i, h) && IsSplit(ls, split, mid) && i <= mid && mid + Pow2(half) == i + Pow2(h)
    ensures AtNode(ls[split..], S, mid, half)
  {
    hide Pow2;
    var right := ls[split..];
    forall m | 0 <= m < |right|
      ensures LeafIn(right[m], S, mid, half)
    {
      assert LeafIn(ls[split + m], S, i, h);
    }
    forall s | s in S && mid <= s < mid + Pow2(half)
      ensures HasPosition(right, s)
    {
      assert HasPosition(ls, s);
      var m :| 0 <= m < |ls| && ls[m].leafIndex == s;
      assert right[m - split] == ls[m];
    }
  }

  lemma HalvesAtNode(ls: seq<Leaf>, split: nat, S: set<nat>, i: nat, h: nat)
    requires h > 0 && AtNode(ls, S, i, h) && IsSplit(ls, split, i + Pow2(h - 1))
    ensures AtNode(ls[..split], S, i, h - 1) && AtNode(ls[split..], S, i + Pow2(h - 1), h - 1)
  {
    hide AtNode, IsSplit;
    LeftAtNode(ls, split, S, i, h, h - 1);
    RightAtNode(ls, split, S, i, h, i + Pow2(h - 1), h - 1);
  }

  // ---------------------------------------------------------------- nodes of a traversal

  /** Bit h is the lowest one that is set, also of a negative number. */
  ghost predicate LowestBit(d: int, h: nat)
    decreases h
  {
    if h == 0 then d % 2 == 1 else d % 2 == 0 && LowestBit(d / 2, h - 1)
  }

  lemma {:induction false} LowestIsTrailing(d: nat, h: nat)
    requires LowestBit(d, h)
    ensures d > 0 && TrailingZeros64(d) == h
    decreases h
  {
    if h > 0 {
      LowestIsTrailing(d / 2, h - 1);
    }
  }

  lemma {:induction false} LowestOfPow2(h: nat)
    ensures LowestBit(Pow2(h), h)
  {
    if h > 0 {
      LowestOfPow2(h - 1);
    }
  }

  /** A higher bit does not matter. */
  lemma {:induction false} LowestAside(d: int, h: nat, w: nat)
    requires h < w
    ensures LowestBit(d + Pow2(w), h) <==> LowestBit(d, h)
    decreases h
  {
    if h > 0 {
      assert d % 2 == 0 ==> (d + Pow2(w)) / 2 == d / 2 + Pow2(w - 1);
      LowestAside(d / 2, h - 1, w - 1);
    }
  }

  /** j - i, on 64-bit words. */
  function Width(i: nat, j: nat): nat
    requires i < Words.WORD && j < Words.WORD
  {
    Words.Sub64(j, i, 0).0
  }

  /** (i + j) / 2, on 64-bit words. */
  function Middle(i: nat, j: nat): (mid: nat)
    requires i < Words.WORD && j < Words.WORD
    ensures mid < Words.WORD
  {
    Words.Add64(i, j, 0).0 / 2
  }

  /** A node that a traversal can reach: what its height is read off is 2^h, but for higher bits. */
  ghost predicate Node(i: nat, j: nat, h: nat) {
    i < Words.WORD && j < Words.WORD && h < 64 && LowestBit(j - i, h)
  }

  lemma NodeHeight(i: nat, j: nat, h: nat)
    requires Node(i, j, h)
    ensures Width(i, j) > 0 && TrailingZeros64(Width(i, j)) == h
  {
    Words.Pow2Of63();
    LowestAside(j - i, h, 64);
    LowestIsTrailing(Width(i, j), h);
  }

  /** The halves of a node are nodes, whether or not the sum of its ends wraps around. */
  lemma HalfNodes(i: nat, j: nat, h: nat)
    requires Node(i, j, h) && h > 0
    ensures Node(i, Middle(i, j), h - 1) && Node(Middle(i, j), j, h - 1)
  {
    Words.Pow2Of63();
    var half := (j - i) / 2;
    assert i + j == 2 * (i + half);
    if i + j < Words.WORD {
      assert Middle(i, j) == i + half;
    } else {
      assert Middle(i, j) == i + half - Pow2(63);
      LowestAside(half - Pow2(63), h - 1, 63);
      LowestAside(half, h - 1, 63);
    }
  }

  /** The place where an ordered list reaches a position. */
  function Before(ls: seq<Leaf>, mid: nat): (split: nat)
    ensures split <= |ls|
  {
    if ls == [] || ls[0].leafIndex >= mid then 0 else 1 + Before(ls[1..], mid)
  }

  lemma {:induction false} SplitIsBefore(ls: seq<Leaf>, split: nat, mid: nat)
    requires IsSplit(ls, split, mid)
    ensures split == Before(ls, mid)
    decreases |ls|
  {
    if split > 0 {
      SplitIsBefore(ls[1..], split - 1, mid);
    }
  }

  /** The two halves of a node's leaves. */
  lemma {:induction false} BeforeSplits(ls: seq<Leaf>, mid: nat)
    requires Ordered(ls)
    ensures IsSplit(ls, Before(ls, mid), mid)
    ensures Ordered(ls[..Before(ls, mid)]) && Ordered(ls[Before(ls, mid)..])
    decreases |ls|
  {
    if ls != [] && ls[0].leafIndex < mid {
      BeforeSplits(ls[1..], mid);
      assert forall m :: 1 <= m < |ls| ==> ls[m] == ls[1..][m - 1];
    }
  }

  // ---------------------------------------------------------------- measuring

  /** The number of hashes that a node of height h takes, for any ordered list of leaves. */
  function NodeSize(i: nat, j: nat, ls: seq<Leaf>, h: nat): nat
    requires i < Words.WORD && j < Words.WORD
    decreases h
  {
    if |ls| == 0 then 1
    else if h == 0 then 0
    else
      var mid := Middle(i, j);
      var split := Before(ls, mid);
      NodeSize(i, mid, ls[..split], h - 1) + NodeSize(mid, j, ls[split..], h - 1)
  }

  lemma SizeOfHalves(i: nat, j: nat, ls: seq<Leaf>, h: nat)
    requires i < Words.WORD && j < Words.WORD && |ls| > 0 && h > 0
    ensures var mid := Middle(i, j);
      var split := Before(ls, mid);
      NodeSize(i, j, ls, h) == NodeSize(i, mid, ls[..split], h - 1) + NodeSize(mid, j, ls[split..], h - 1)
  {
  }

  lemma SizeAtEnd(i: nat, j: nat, ls: seq<Leaf>, h: nat)
    requires i < Words.WORD && j < Words.WORD && (|ls| == 0 || h == 0)
    ensures NodeSize(i, j, ls, h) == if |ls| == 0 then 1 else 0
  {
  }

  /** proofSize */
  method ProofSize(i: nat, j: nat, ls: seq<Leaf>, ghost h: nat) returns (size: nat)
    requires Node(i, j, h) && Ordered(ls)
    ensures size == NodeSize(i, j, ls, h)
    decreases h
  {
    NodeHeight(i, j, h);
    var height := TrailingZeros64(Width(i, j));
    if |ls| == 0 {
      return 1;
    } else if height == 0 {
      return 0;
    }
    hide LowestBit;
    HalfNodes(i, j, h);
    var mid := Middle(i, j);
    var split := Search(ls, 0, |ls|, Position, mid);
    SplitIsBefore(ls, split, mid);
    var left := ProofSize(i, mid, ls[..split], h - 1);
    var right := ProofSize(mid, j, ls[split..], h - 1);
    size := left + right;
  }

  /** A node takes at most h hashes for each of its leaves. */
  lemma {:induction false} SizeBound(i: nat, j: nat, ls: seq<Leaf>, h: nat)
    requires i < Words.WORD && j < Words.WORD && |ls| > 0
    ensures NodeSize(i, j, ls, h) <= h * |ls|
    decreases h
  {
    if h > 0 {
      var mid := Middle(i, j);
      var split := Before(ls, mid);
      if split > 0 {
        SizeBound(i, mid, ls[..split], h - 1);
      }
      if split < |ls| {
        SizeBound(mid, j, ls[split..], h - 1);
      }
      HalfSizes(NodeSize(i, mid, ls[..split], h - 1), NodeSize(mid, j, ls[split..], h - 1), split, |ls| - split, h);
    }
  }

  lemma HalfSizes(l: nat, r: nat, a: nat, b: nat, h: nat)
    requires h > 0 && a + b > 0
    requires if a > 0 then l <= (h - 1) * a else l == 1
    requires if b > 0 then r <= (h - 1) * b else r == 1
    ensures l + r <= h * (a + b)
  {
    assert (h - 1) * a + a == h * a && (h - 1) * b + b == h * b && h * a + h * b == h * (a + b);
  }

  /** The block of height h at i, as a node: it and its middle are where they seem to be. */
  lemma BlockNode(i: nat, h: nat, n: nat)
    requires i + Pow2(h) <= n && InRange(n)
    ensures i + Pow2(h) < Words.WORD && h < 64 && Node(i, i + Pow2(h), h)
    ensures h > 0 ==> Middle(i, i + Pow2(h)) == i + Pow2(h - 1)
  {
    Words.Pow2Of63();
    Words.Pow2Value();
    LowestOfPow2(h);
    if h >= 64 {
      Pow2Monotone(64, h);
    }
  }

  /** In a forest, the leaves of a block's halves. */
  lemma BlockHalves(ls: seq<Leaf>, S: set<nat>, i: nat, h: nat, n: nat)
    requires h > 0 && AtNode(ls, S, i, h) && i + Pow2(h) <= n && InRange(n)
    ensures i + Pow2(h) < Words.WORD && Middle(i, i + Pow2(h)) == i + Pow2(h - 1)
    ensures i + Pow2(h) == i + Pow2(h - 1) + Pow2(h - 1)
    ensures var split := Before(ls, i + Pow2(h - 1));
      IsSplit(ls, split, i + Pow2(h - 1)) && AtNode(ls[..split], S, i, h - 1) &&
      AtNode(ls[split..], S, i + Pow2(h - 1), h - 1)
  {
    BlockNode(i, h, n);
    assert Pow2(h) == 2 * Pow2(h - 1);
    hide Pow2;
    BeforeSplits(ls, i + Pow2(h - 1));
    HalvesAtNode(ls, Before(ls, i + Pow2(h - 1)), S, i, h);
  }

  /** In a forest, a node takes what its block needs. */
  lemma {:induction false} SizeIsNeeded(i: nat, ls: seq<Leaf>, h: nat, xs: seq<Hash>, S: set<nat>)
    requires i + Pow2(h) <= |xs| && InRange(|xs|) && AtNode(ls, S, i, h)
    ensures i + Pow2(h) < Words.WORD && NodeSize(i, i + Pow2(h), ls, h) == |Needed(xs, i, h, S)|
    decreases h
  {
    hide AtNode, Hit, Root, Needed, IsSplit, Middle, Before, Node, NodeSize, Pow2, InRange;
    BlockNode(i, h, |xs|);
    EmptyIsMiss(ls, S, i, h);
    if |ls| == 0 || h == 0 {
      NeededEnds(xs, i, h, S);
      SizeAtEnd(i, i + Pow2(h), ls, h);
    } else {
      BlockHalves(ls, S, i, h, |xs|);
      NeededHalves(xs, i, h, S);
      SizeOfHalves(i, i + Pow2(h), ls, h);
      var mid := i + Pow2(h - 1);
      SizeIsNeeded(i, ls[..Before(ls, mid)], h - 1, xs, S);
      SizeIsNeeded(mid, ls[Before(ls, mid)..], h - 1, xs, S);
    }
  }

  lemma NeededEnds(xs: seq<Hash>, i: nat, h: nat, S: set<nat>)
    requires i + Pow2(h) <= |xs|
    ensures !Hit(S, i, h) ==> Needed(xs, i, h, S) == [Root(xs, i, h)]
    ensures Hit(S, i, h) && h == 0 ==> Needed(xs, i, h, S) == []
  {
  }

  // ---------------------------------------------------------------- computing

  /** The leaf's proof is its path up to height h. */
  ghost predicate LeafProved(l: Leaf, proofs: Proofs, h: nat, xs: seq<Hash>) {
    l.slot < |proofs| && h <= |proofs[l.slot]| && BlockFits(|xs|, l.leafIndex, h) &&
    proofs[l.slot][..h] == Path(xs, l.leafIndex, h)
  }

  ghost predicate ProvedTo(ls: seq<Leaf>, proofs: Proofs, h: nat, xs: seq<Hash>) {
    forall m :: 0 <= m < |ls| ==> LeafProved(ls[m], proofs, h, xs)
  }

  lemma PathOfHalf(xs: seq<Hash>, i: nat, h: nat, p: nat)
    requires h > 0 && Aligned(i, h) && i <= p < i + Pow2(h) <= |xs|
    ensures BlockFits(|xs|, p, h) && BlockFits(|xs|, p, h - 1)
    ensures OtherHalf(i, h, p) + Pow2(h - 1) <= |xs|
    ensures Path(xs, p, h) == Path(xs, p, h - 1) + [Root(xs, OtherHalf(i, h, p), h - 1)]
  {
    HalfSibling(i, h, p, |xs|);
  }

  /** A path up to h is one up to h - 1 and the root of the other half. */
  lemma SiblingInProof(l: Leaf, proofs: Proofs, i: nat, h: nat, xs: seq<Hash>)
    requires h > 0 && Aligned(i, h) && i + Pow2(h) <= |xs|
    requires i <= l.leafIndex < i + Pow2(h) && l.slot < |proofs| && h <= |proofs[l.slot]|
    ensures OtherHalf(i, h, l.leafIndex) + Pow2(h - 1) <= |xs|
    ensures LeafProved(l, proofs, h, xs) <==>
      LeafProved(l, proofs, h - 1, xs) && proofs[l.slot][h - 1] == Root(xs, OtherHalf(i, h, l.leafIndex), h - 1)
  {
    hide Root, Aligned, Bit, ClearBits, Path, Pow2, BlockFits, OtherHalf;
    var proof := proofs[l.slot];
    PathOfHalf(xs, i, h, l.leafIndex);
    assert proof[..h] == proof[..h - 1] + [proof[h - 1]];
  }

  /** What the two halves of a block offer. */
  lemma HalvesProved(ls: seq<Leaf>, split: nat, S: set<nat>, proofs: Proofs, i: nat, h: nat, xs: seq<Hash>)
    requires h > 0 && Aligned(i, h) && i + Pow2(h) <= |xs| && |ls| > 0
    requires AtNode(ls, S, i, h) && ProvedTo(ls, proofs, h, xs) && IsSplit(ls, split, i + Pow2(h - 1))
    ensures ProvedTo(ls[..split], proofs, h - 1, xs) && ProvedTo(ls[split..], proofs, h - 1, xs)
    ensures ls[0].slot < |proofs| && h <= |proofs[ls[0].slot]|
    ensures proofs[ls[0].slot][h - 1] == Root(xs, if split > 0 then i + Pow2(h - 1) else i, h - 1)
  {
    hide Root, Path, Aligned;
    forall m | 0 <= m < |ls|
      ensures LeafProved(ls[m], proofs, h - 1, xs)
    {
      assert LeafIn(ls[m], S, i, h) && LeafProved(ls[m], proofs, h, xs);
      SiblingInProof(ls[m], proofs, i, h, xs);
    }
    assert LeafIn(ls[0], S, i, h) && LeafProved(ls[0], proofs, h, xs);
    SiblingInProof(ls[0], proofs, i, h, xs);
  }

  /** The leaves' proofs have at least h entries. */
  ghost predicate Fitted(ls: seq<Leaf>, proofs: Proofs, h: nat) {
    forall m :: 0 <= m < |ls| ==> ls[m].slot < |proofs| && h <= |proofs[ls[m].slot]|
  }

  /** The hashes that a node hands over, for any ordered list of leaves. */
  ghost function NodeHashes(i: nat, j: nat, ls: seq<Leaf>, proofs: Proofs, h: nat): seq<Hash>
    requires i < Words.WORD && j < Words.WORD && |ls| > 0 && Fitted(ls, proofs, h)
    decreases h
  {
    if h == 0 then []
    else
      var mid := Middle(i, j);
      var split := Before(ls, mid);
      var sibling := [proofs[ls[0].slot][h - 1]];
      (if split == 0 then sibling else NodeHashes(i, mid, ls[..split], proofs, h - 1)) +
      (if split == |ls| then sibling else NodeHashes(mid, j, ls[split..], proofs, h - 1))
  }

  /** visit */
  method Visit(i: nat, j: nat, ls: seq<Leaf>, proofs: Proofs, proof: seq<Hash>, ghost h: nat)
    returns (extended: seq<Hash>)
    requires Node(i, j, h) && Ordered(ls) && |ls| > 0 && Fitted(ls, proofs, h)
    ensures extended == proof + NodeHashes(i, j, ls, proofs, h)
    decreases h, 1
  {
    NodeHeight(i, j, h);
    var height := TrailingZeros64(Width(i, j));
    if height == 0 {
      return proof; // nothing left to split
    }
    extended := VisitHalves(i, j, ls, proofs, proof, height);
  }

  method VisitHalves(i: nat, j: nat, ls: seq<Leaf>, proofs: Proofs, proof: seq<Hash>, height: nat)
    returns (extended: seq<Hash>)
    requires Node(i, j, height) && Ordered(ls) && |ls| > 0 && Fitted(ls, proofs, height) && height > 0
    ensures extended == proof + NodeHashes(i, j, ls, proofs, height)
    decreases height, 0
  {
    hide LowestBit, Middle, Before, NodeHashes;
    HalfNodes(i, j, height);
    HashesOfHalves(i, j, ls, proofs, height);
    var mid := Middle(i, j);
    var split := Search(ls, 0, |ls|, Position, mid);
    SplitIsBefore(ls, split, mid);
    if split == 0 {
      extended := proof + [proofs[ls[0].slot][height - 1]];
    } else {
      extended := Visit(i, mid, ls[..split], proofs, proof, height - 1);
    }
    ghost var left := extended;
    if split == |ls| {
      extended := extended + [proofs[ls[0].slot][height - 1]];
    } else {
      extended := Visit(mid, j, ls[split..], proofs, extended, height - 1);
    }
    Regroup(proof, left[|proof|..], extended[|left|..]);
  }

  /** At the bottom nothing is handed over. */
  lemma LastHashes(i: nat, j: nat, ls: seq<Leaf>, proofs: Proofs)
    requires i < Words.WORD && j < Words.WORD && |ls| > 0 && Fitted(ls, proofs, 0)
    ensures NodeHashes(i, j, ls, proofs, 0) == [] && NodeSize(i, j, ls, 0) == 0
  {
  }

  /** A node without leaves takes one hash. */
  lemma OneHash(i: nat, j: nat, h: nat)
    requires i < Words.WORD && j < Words.WORD
    ensures NodeSize(i, Middle(i, j), [], h) == 1 == NodeSize(Middle(i, j), j, [], h)
  {
  }

  lemma HashesOfHalves(i: nat, j: nat, ls: seq<Leaf>, proofs: Proofs, h: nat)
    requires i < Words.WORD && j < Words.WORD && |ls| > 0 && Fitted(ls, proofs, h) && h > 0
    ensures var mid := Middle(i, j);
      var split := Before(ls, mid);
      var sibling := [proofs[ls[0].slot][h - 1]];
      NodeHashes(i, j, ls, proofs, h) ==
      (if split == 0 then sibling else NodeHashes(i, mid, ls[..split], proofs, h - 1)) +
      (if split == |ls| then sibling else NodeHashes(mid, j, ls[split..], proofs, h - 1))
  {
    hide Middle, Before;
  }

  lemma Regroup(a: seq<Hash>, b: seq<Hash>, c: seq<Hash>)
    ensures a + (b + c) == (a + b) + c
  {
  }

  /** A node hands over as many hashes as it takes. */
  lemma {:induction false} HashesFillSize(i: nat, j: nat, ls: seq<Leaf>, proofs: Proofs, h: nat)
    requires i < Words.WORD && j < Words.WORD && |ls| > 0 && Fitted(ls, proofs, h)
    ensures |NodeHashes(i, j, ls, proofs, h)| == NodeSize(i, j, ls, h)
    decreases h
  {
    hide Middle, Before, NodeHashes, NodeSize;
    if h == 0 {
      LastHashes(i, j, ls, proofs);
    } else {
      HashesOfHalves(i, j, ls, proofs, h);
      SizeOfHalves(i, j, ls, h);
      OneHash(i, j, h - 1);
      var mid := Middle(i, j);
      var split := Before(ls, mid);
      assert split == 0 ==> ls[..split] == [];
      assert split == |ls| ==> ls[split..] == [];
      if split > 0 {
        HashesFillSize(i, mid, ls[..split], proofs, h - 1);
      }
      if split < |ls| {
        HashesFillSize(mid, j, ls[split..], proofs, h - 1);
      }
    }
  }

  /** What a block needs, in terms of which halves hold leaves. */
  lemma NeededOfHalves(i: nat, ls: seq<Leaf>, proofs: Proofs, h: nat, xs: seq<Hash>, S: set<nat>)
    requires h > 0 && Aligned(i, h) && i + Pow2(h) <= |xs| && InRange(|xs|) && |ls| > 0
    requires AtNode(ls, S, i, h) && ProvedTo(ls, proofs, h, xs)
    ensures var split := Before(ls, i + Pow2(h - 1));
      IsSplit(ls, split, i + Pow2(h - 1)) && AtNode(ls[..split], S, i, h - 1) &&
      AtNode(ls[split..], S, i + Pow2(h - 1), h - 1) &&
      ProvedTo(ls[..split], proofs, h - 1, xs) && ProvedTo(ls[split..], proofs, h - 1, xs)
    ensures Aligned(i, h - 1) && Aligned(i + Pow2(h - 1), h - 1) && Fitted(ls, proofs, h)
    ensures var split := Before(ls, i + Pow2(h - 1));
      var sibling := [proofs[ls[0].slot][h - 1]];
      Needed(xs, i, h, S) ==
      (if split == 0 then sibling else Needed(xs, i, h - 1, S)) +
      (if split == |ls| then sibling else Needed(xs, i + Pow2(h - 1), h - 1, S))
  {
    hide AtNode, Hit, Root, Needed, IsSplit, Aligned, LeafProved, ProvedTo, Before;
    ProvedFits(ls, proofs, h, xs);
    BlockHalves(ls, S, i, h, |xs|);
    EmptyIsMiss(ls, S, i, h);
    NeededHalves(xs, i, h, S);
    var mid := i + Pow2(h - 1);
    var split := Before(ls, mid);
    AlignedStep(i, h - 1);
    HalvesProved(ls, split, S, proofs, i, h, xs);
    EmptyIsMiss(ls[..split], S, i, h - 1);
    EmptyIsMiss(ls[split..], S, mid, h - 1);
  }

  /** In a forest, a node hands over what its block needs. */
  lemma {:induction false} HashesAreNeeded(i: nat, ls: seq<Leaf>, proofs: Proofs, h: nat, xs: seq<Hash>, S: set<nat>)
    requires Aligned(i, h) && i + Pow2(h) <= |xs| && InRange(|xs|) && |ls| > 0
    requires AtNode(ls, S, i, h) && ProvedTo(ls, proofs, h, xs)
    ensures i + Pow2(h) < Words.WORD && Fitted(ls, proofs, h)
    ensures NodeHashes(i, i + Pow2(h), ls, proofs, h) == Needed(xs, i, h, S)
    decreases h
  {
    hide AtNode, Hit, Root, Needed, IsSplit, Aligned, ProvedTo, Before, Middle, NodeHashes, Fitted, Node;
    BlockNode(i, h, |xs|);
    ProvedFits(ls, proofs, h, xs);
    if h == 0 {
      LastHashes(i, i + Pow2(h), ls, proofs);
      EmptyIsMiss(ls, S, i, h);
      NeededEnds(xs, i, h, S);
    } else {
      NeededOfHalves(i, ls, proofs, h, xs, S);
      HashesOfHalves(i, i + Pow2(h), ls, proofs, h);
      var mid := i + Pow2(h - 1);
      var split := Before(ls, mid);
      if split > 0 {
        HashesAreNeeded(i, ls[..split], proofs, h - 1, xs, S);
      }
      if split < |ls| {
        HashesAreNeeded(mid, ls[split..], proofs, h - 1, xs, S);
      }
    }
  }

  lemma ProvedFits(ls: seq<Leaf>, proofs: Proofs, h: nat, xs: seq<Hash>)
    requires ProvedTo(ls, proofs, h, xs)
    ensures Fitted(ls, proofs, h)
  {
    forall m | 0 <= m < |ls|
      ensures ls[m].slot < |proofs| && h <= |proofs[ls[m].slot]|
    {
      assert LeafProved(ls[m], proofs, h, xs);
    }
  }

  // ---------------------------------------------------------------- expanding

  ghost predicate DistinctSlots(ls: seq<Leaf>) {
    forall a, b :: 0 <= a < b < |ls| ==> ls[a].slot != ls[b].slot
  }

  /** The leaves are those of the list, and their proofs have room for h entries. */
  ghost predicate Expandable(ls: seq<Leaf>, proofs: Proofs, h: nat, xs: seq<Hash>) {
    DistinctSlots(ls) &&
    forall m :: 0 <= m < |ls| ==> LeafExpandable(ls[m], proofs, h, xs)
  }

  ghost predicate LeafExpandable(l: Leaf, proofs: Proofs, h: nat, xs: seq<Hash>) {
    l.slot < |proofs| && h <= |proofs[l.slot]| && l.leafIndex < |xs| && xs[l.leafIndex] == l.hash
  }

  /** No leaf uses slot k. */
  ghost predicate Free(ls: seq<Leaf>, k: nat) {
    forall m :: 0 <= m < |ls| ==> ls[m].slot != k
  }

  ghost predicate SameElsewhere(before: Proofs, after: Proofs, ls: seq<Leaf>) {
    |after| == |before| && forall k :: 0 <= k < |before| && Free(ls, k) ==> after[k] == before[k]
  }

  /** One proof has been restored up to h and not touched from there on. */
  ghost predicate LeafRestored(before: Proofs, after: Proofs, l: Leaf, h: nat, xs: seq<Hash>) {
    l.slot < |before| == |after| && |after[l.slot]| == |before[l.slot]| && LeafProved(l, after, h, xs) &&
    after[l.slot][h..] == before[l.slot][h..]
  }

  ghost predicate Restored(before: Proofs, after: Proofs, ls: seq<Leaf>, h: nat, xs: seq<Hash>) {
    SameElsewhere(before, after, ls) &&
    forall m :: 0 <= m < |ls| ==> LeafRestored(before, after, ls[m], h, xs)
  }

  /** Entry k of the proofs of the leaves has been set. */
  ghost predicate EntriesSet(before: Proofs, after: Proofs, ls: seq<Leaf>, k: nat, root: Hash) {
    SameElsewhere(before, after, ls) &&
    forall m :: 0 <= m < |ls| ==> EntrySet(before, after, ls[m].slot, k, root)
  }

  ghost predicate EntrySet(before: Proofs, after: Proofs, slot: nat, k: nat, root: Hash) {
    slot < |before| == |after| && k < |before[slot]| && after[slot] == before[slot][k := root]
  }

  method SetEntries(ls: seq<Leaf>, proofs: array<seq<Hash>>, k: nat, root: Hash)
    requires DistinctSlots(ls)
    requires Room(ls, proofs[..], k)
    modifies proofs
    ensures EntriesSet(old(proofs[..]), proofs[..], ls, k, root)
  {
    for m := 0 to |ls|
      invariant SameElsewhere(old(proofs[..]), proofs[..], ls)
      invariant forall n :: m <= n < |ls| ==> proofs[ls[n].slot] == old(proofs[ls[n].slot])
      invariant forall n :: 0 <= n < m ==> EntrySet(old(proofs[..]), proofs[..], ls[n].slot, k, root)
    {
      var slot := ls[m].slot;
      proofs[slot] := proofs[slot][k := root];
    }
  }

  /** The halves, with what each needs, from the block. */
  lemma ExpandableHalves(ls: seq<Leaf>, split: nat, proofs: Proofs, h: nat, xs: seq<Hash>)
    requires h > 0 && split <= |ls| && Expandable(ls, proofs, h, xs)
    ensures Expandable(ls[..split], proofs, h - 1, xs) && Expandable(ls[split..], proofs, h - 1, xs)
    ensures forall a, b :: 0 <= a < split <= b < |ls| ==> ls[a].slot != ls[b].slot
  {
    forall m | 0 <= m < |ls|
      ensures LeafExpandable(ls[m], proofs, h - 1, xs)
    {
      assert LeafExpandable(ls[m], proofs, h, xs);
    }
  }

  /** Restoring one half leaves the other half expandable. */
  lemma OtherHalfExpandable(before: Proofs, after: Proofs, ls: seq<Leaf>, split: nat, h: nat, xs: seq<Hash>)
    requires split <= |ls| && Expandable(ls, before, h, xs) && h > 0
    requires Restored(before, after, ls[..split], h - 1, xs)
    ensures Expandable(ls[split..], after, h - 1, xs)
  {
    forall m | split <= m < |ls|
      ensures LeafExpandable(ls[m], after, h - 1, xs)
    {
      assert LeafExpandable(ls[m], before, h, xs);
      assert Free(ls[..split], ls[m].slot);
    }
  }

  /** One leaf of the left half through all four edits of its block. */
  lemma LeftRestored(p0: Proofs, p1: Proofs, p2: Proofs, p3: Proofs, p4: Proofs, l: Leaf, left: seq<Leaf>,
          right: seq<Leaf>,
                     i: nat, h: nat, xs: seq<Hash>)
    requires h > 0 && Aligned(i, h) && i + Pow2(h) <= |xs| && i <= l.leafIndex < i + Pow2(h - 1)
    requires l.slot < |p0| && h <= |p0[l.slot]| && Free(right, l.slot)
    requires LeafRestored(p0, p1, l, h - 1, xs)
    requires SameElsewhere(p1, p2, right) && SameElsewhere(p2, p3, right)
    requires EntrySet(p3, p4, l.slot, h - 1, Root(xs, i + Pow2(h - 1), h - 1))
    ensures LeafRestored(p0, p4, l, h, xs)
  {
    hide Root, Path, Aligned;
    var before, mid, after := p0[l.slot], p1[l.slot], p4[l.slot];
    assert p3[l.slot] == mid;
    assert after[..h - 1] == mid[..h - 1];
    assert after[h..] == mid[h - 1..][1..] == before[h - 1..][1..] == before[h..];
    SiblingInProof(l, p4, i, h, xs);
  }

  /** One leaf of the right half. */
  lemma RightRestored(p0: Proofs, p1: Proofs, p2: Proofs, p3: Proofs, p4: Proofs, l: Leaf, left: seq<Leaf>,
          right: seq<Leaf>,
                      i: nat, h: nat, xs: seq<Hash>)
    requires h > 0 && Aligned(i, h) && i + Pow2(h) <= |xs| && i + Pow2(h - 1) <= l.leafIndex < i + Pow2(h)
    requires l.slot < |p0| && h <= |p0[l.slot]| && Free(left, l.slot)
    requires SameElsewhere(p0, p1, left)
    requires LeafRestored(p1, p2, l, h - 1, xs)
    requires EntrySet(p2, p3, l.slot, h - 1, Root(xs, i, h - 1))
    requires SameElsewhere(p3, p4, left)
    ensures LeafRestored(p0, p4, l, h, xs)
  {
    hide Root, Path, Aligned;
    var before, mid, after := p0[l.slot], p2[l.slot], p4[l.slot];
    assert p1[l.slot] == before;
    assert after == mid[h - 1 := Root(xs, i, h - 1)];
    assert after[..h - 1] == mid[..h - 1];
    assert after[h..] == mid[h - 1..][1..] == before[h - 1..][1..] == before[h..];
    SiblingInProof(l, p4, i, h, xs);
  }

  lemma HalvesRestored(p0: Proofs, p1: Proofs, p2: Proofs, p3: Proofs, p4: Proofs, ls: seq<Leaf>, split: nat,
                       S: set<nat>, i: nat, h: nat, xs: seq<Hash>)
    requires h > 0 && Aligned(i, h) && i + Pow2(h) <= |xs|
    requires AtNode(ls, S, i, h) && IsSplit(ls, split, i + Pow2(h - 1)) && Expandable(ls, p0, h, xs)
    requires Restored(p0, p1, ls[..split], h - 1, xs) && Restored(p1, p2, ls[split..], h - 1, xs)
    requires EntriesSet(p2, p3, ls[split..], h - 1, Root(xs, i, h - 1))
    requires EntriesSet(p3, p4, ls[..split], h - 1, Root(xs, i + Pow2(h - 1), h - 1))
    ensures Restored(p0, p4, ls, h, xs)
  {
    hide Root, Path, Aligned, LeafProved;
    var left, right := ls[..split], ls[split..];
    forall m | 0 <= m < |ls|
      ensures LeafRestored(p0, p4, ls[m], h, xs)
    {
      assert LeafIn(ls[m], S, i, h) && LeafExpandable(ls[m], p0, h, xs);
      if m < split {
        assert left[m] == ls[m] && Free(right, ls[m].slot);
        LeftRestored(p0, p1, p2, p3, p4, left[m], left, right, i, h, xs);
      } else {
        assert right[m - split] == ls[m] && Free(left, ls[m].slot);
        RightRestored(p0, p1, p2, p3, p4, right[m - split], left, right, i, h, xs);
      }
    }
    forall k | 0 <= k < |p0| && Free(ls, k)
      ensures p4[k] == p0[k]
    {
      assert Free(left, k) && Free(right, k);
    }
  }

  /** The proofs of other leaves, and the lengths of all, are what they were. */
  ghost predicate SameShape(before: Proofs, after: Proofs, ls: seq<Leaf>) {
    SameElsewhere(before, after, ls) && forall k :: 0 <= k < |before| ==> |after[k]| == |before[k]|
  }

  /** The node is a block of the forest over xs, and the list begins with what it needs. */
  ghost predicate Grounded(i: nat, j: nat, ls: seq<Leaf>, proofs: Proofs, proof: seq<Hash>, h: nat,
                           xs: seq<Hash>, S: set<nat>)
  {
    Aligned(i, h) && j == i + Pow2(h) <= |xs| && InRange(|xs|) && AtNode(ls, S, i, h) &&
    Expandable(ls, proofs, h, xs) && Needed(xs, i, h, S) <= proof
  }

  /** The block's root was found, and its leaves' proofs restored. */
  ghost predicate Regained(root: Hash, i: nat, ls: seq<Leaf>, before: Proofs, after: Proofs, h: nat, xs: seq<Hash>) {
    i + Pow2(h) <= |xs| && root == Root(xs, i, h) && Restored(before, after, ls, h, xs)
  }

  /**
    expand: whatever the leaves, it takes as many hashes as proofSize said; in
    a block of a forest it restores the proofs and returns the root.
   */
  method Expand(i: nat, j: nat, ls: seq<Leaf>, proofs: array<seq<Hash>>, proof: seq<Hash>,
                ghost h: nat, ghost xs: seq<Hash>, ghost S: set<nat>)
    returns (root: Hash, rest: seq<Hash>)
    requires Node(i, j, h) && Ordered(ls) && DistinctSlots(ls) && Fitted(ls, proofs[..], h)
    requires NodeSize(i, j, ls, h) <= |proof|
    modifies proofs
    ensures rest == proof[NodeSize(i, j, ls, h)..] && SameShape(old(proofs[..]), proofs[..], ls)
    ensures Grounded(i, j, ls, old(proofs[..]), proof, h, xs, S) ==>
      Regained(root, i, ls, old(proofs[..]), proofs[..], h, xs)
    decreases h, 1
  {
    NodeHeight(i, j, h);
    var height := TrailingZeros64(Width(i, j));
    hide LowestBit, Grounded, Regained;
    if |ls| == 0 {
      NoLeaves(i, j, ls, proofs[..], proof, h, xs, S);
      return proof[0], proof[1..];
    } else if height == 0 {
      OneLeaf(i, j, ls, proofs[..], proof, xs, S);
      return ls[0].hash, proof;
    }
    root, rest := ExpandHalves(i, j, ls, proofs, proof, height, xs, S);
  }

  lemma NoLeaves(i: nat, j: nat, ls: seq<Leaf>, proofs: Proofs, proof: seq<Hash>, h: nat, xs: seq<Hash>, S: set<nat>)
    requires |ls| == 0 && |proof| > 0
    ensures Grounded(i, j, ls, proofs, proof, h, xs, S) ==> Regained(proof[0], i, ls, proofs, proofs, h, xs)
  {
    hide Root, Aligned;
    if Grounded(i, j, ls, proofs, proof, h, xs, S) {
      EmptyIsMiss(ls, S, i, h);
    }
  }

  lemma OneLeaf(i: nat, j: nat, ls: seq<Leaf>, proofs: Proofs, proof: seq<Hash>, xs: seq<Hash>, S: set<nat>)
    requires |ls| > 0
    ensures Grounded(i, j, ls, proofs, proof, 0, xs, S) ==> Regained(ls[0].hash, i, ls, proofs, proofs, 0, xs)
  {
    if Grounded(i, j, ls, proofs, proof, 0, xs, S) {
      LeavesRestored(ls, S, i, proofs, xs);
    }
  }

  lemma LeavesRestored(ls: seq<Leaf>, S: set<nat>, i: nat, proofs: Proofs, xs: seq<Hash>)
    requires AtNode(ls, S, i, 0) && Expandable(ls, proofs, 0, xs) && |ls| > 0 && i < |xs|
    ensures ls[0].hash == xs[i] && Restored(proofs, proofs, ls, 0, xs)
  {
    assert LeafIn(ls[0], S, i, 0) && LeafExpandable(ls[0], proofs, 0, xs);
    forall m | 0 <= m < |ls|
      ensures LeafRestored(proofs, proofs, ls[m], 0, xs)
    {
      assert LeafExpandable(ls[m], proofs, 0, xs);
    }
  }

  lemma ProofHalves(proof: seq<Hash>, a: seq<Hash>, b: seq<Hash>)
    requires a + b <= proof
    ensures a <= proof && b <= proof[|a|..] && proof[|a|..][|b|..] == proof[|a + b|..]
  {
    assert proof[..|a + b|] == a + b;
    assert proof[|a|..][..|b|] == (a + b)[|a|..];
  }

  method ExpandHalves(i: nat, j: nat, ls: seq<Leaf>, proofs: array<seq<Hash>>, proof: seq<Hash>,
                      height: nat, ghost xs: seq<Hash>, ghost S: set<nat>)
    returns (root: Hash, rest: seq<Hash>)
    requires height > 0 && |ls| > 0 && Node(i, j, height)
    requires Ordered(ls) && DistinctSlots(ls) && Fitted(ls, proofs[..], height)
    requires NodeSize(i, j, ls, height) <= |proof|
    modifies proofs
    ensures rest == proof[NodeSize(i, j, ls, height)..] && SameShape(old(proofs[..]), proofs[..], ls)
    ensures Grounded(i, j, ls, old(proofs[..]), proof, height, xs, S) ==>
      Regained(root, i, ls, old(proofs[..]), proofs[..], height, xs)
    decreases height, 0
  {
    hide LowestBit, Grounded, Regained, EntriesSet, Fitted, SameShape, DistinctSlots, Ordered, Room, NodeSize, Middle,
      Before, Node;
    HalfNodes(i, j, height);
    NodeWords(i, j, height);
    SizeOfHalves(i, j, ls, height);
    var mid := Middle(i, j);
    OrderedByPosition(ls);
    var split := Search(ls, 0, |ls|, Position, mid);
    SplitIsBefore(ls, split, mid);
    BeforeSplits(ls, mid);
    ghost var p0, left, right := proofs[..], ls[..split], ls[split..];
    SplitFitted(ls, split, p0, height);
    GroundedLeft(i, j, ls, p0, proof, height, xs, S);
    var leftRoot, afterLeft := Expand(i, mid, ls[..split], proofs, proof, height - 1, xs, S);
    ghost var p1 := proofs[..];
    StillFitted(p0, p1, left, right, height);
    GroundedRight(i, j, ls, p0, p1, proof, leftRoot, height, xs, S);
    var rightRoot, afterRight := Expand(mid, j, ls[split..], proofs, afterLeft, height - 1, xs, S);
    ghost var p2 := proofs[..];
    StillFitted(p0, p1, left, left, height);
    StillFitted(p1, p2, right, right, height);
    StillFitted(p1, p2, right, left, height);
    SetEntries(ls[split..], proofs, height - 1, leftRoot);
    ghost var p3 := proofs[..];
    EntriesShape(p2, p3, right, height - 1, leftRoot);
    StillFitted(p2, p3, right, left, height);
    SetEntries(ls[..split], proofs, height - 1, rightRoot);
    EntriesShape(p3, proofs[..], left, height - 1, rightRoot);
    ShapeOfBoth(p0, p1, p2, p3, proofs[..], ls, split);
    RegainedBoth(i, j, ls, p0, p1, p2, p3, proofs[..], proof, leftRoot, rightRoot, height, xs, S);
    DropTwice(proof, NodeSize(i, mid, left, height - 1), NodeSize(mid, j, right, height - 1));
    root, rest := NodeHash(leftRoot, rightRoot), afterRight;
  }

  lemma DropTwice(s: seq<Hash>, a: nat, b: nat)
    requires a + b <= |s|
    ensures s[a..][b..] == s[a + b..]
  {
  }

  lemma NodeWords(i: nat, j: nat, h: nat)
    requires Node(i, j, h)
    ensures i < Words.WORD && j < Words.WORD
  {
  }

  lemma OrderedByPosition(ls: seq<Leaf>)
    requires Ordered(ls)
    ensures forall a, b :: 0 <= a < b < |ls| ==> Position(ls[a]) <= Position(ls[b])
  {
  }

  /** Both halves have what the whole has, and room for one more entry. */
  lemma SplitFitted(ls: seq<Leaf>, split: nat, proofs: Proofs, h: nat)
    requires h > 0 && split <= |ls| && DistinctSlots(ls) && Fitted(ls, proofs, h)
    ensures DistinctSlots(ls[..split]) && DistinctSlots(ls[split..])
    ensures Fitted(ls[..split], proofs, h) && Fitted(ls[split..], proofs, h)
    ensures Fitted(ls[..split], proofs, h - 1) && Fitted(ls[split..], proofs, h - 1)
  {
  }

  lemma StillFitted(before: Proofs, after: Proofs, touched: seq<Leaf>, ls: seq<Leaf>, h: nat)
    requires h > 0 && SameShape(before, after, touched) && Fitted(ls, before, h)
    ensures Fitted(ls, after, h) && Fitted(ls, after, h - 1) && Room(ls, after, h - 1)
  {
  }

  lemma EntriesShape(before: Proofs, after: Proofs, ls: seq<Leaf>, k: nat, root: Hash)
    requires EntriesSet(before, after, ls, k, root)
    ensures SameShape(before, after, ls)
  {
    forall n | 0 <= n < |before|
      ensures |after[n]| == |before[n]|
    {
      if !Free(ls, n) {
        var m :| 0 <= m < |ls| && ls[m].slot == n;
        assert EntrySet(before, after, ls[m].slot, k, root);
      }
    }
  }

  lemma ShapeOfBoth(p0: Proofs, p1: Proofs, p2: Proofs, p3: Proofs, p4: Proofs, ls: seq<Leaf>, split: nat)
    requires split <= |ls|
    requires SameShape(p0, p1, ls[..split]) && SameShape(p1, p2, ls[split..])
    requires SameShape(p2, p3, ls[split..]) && SameShape(p3, p4, ls[..split])
    ensures SameShape(p0, p4, ls)
  {
    forall k | 0 <= k < |p0| && Free(ls, k)
      ensures p4[k] == p0[k]
    {
      assert Free(ls[..split], k) && Free(ls[split..], k);
    }
  }

  /** Where a grounded node is, and where its middle is. */
  lemma GroundedRange(i: nat, j: nat, ls: seq<Leaf>, proofs: Proofs, proof: seq<Hash>, h: nat, xs: seq<Hash>,
    S: set<nat>)
    requires Grounded(i, j, ls, proofs, proof, h, xs, S)
    ensures InRange(|xs|) && j == i + Pow2(h) <= |xs| && j < Words.WORD
    ensures h > 0 ==>
      Middle(i, j) == i + Pow2(h - 1) <= j && Aligned(i, h - 1) && Aligned(i + Pow2(h - 1), h - 1) &&
      Expandable(ls, proofs, h, xs)
  {
    hide AtNode, Expandable, Aligned, Needed, Middle;
    BlockNode(i, h, |xs|);
    if h > 0 {
      AlignedStep(i, h - 1);
    }
  }

  /** A grounded node's halves, by themselves. */
  lemma GroundedHalves(i: nat, j: nat, ls: seq<Leaf>, proofs: Proofs, proof: seq<Hash>, h: nat, xs: seq<Hash>,
    S: set<nat>)
    requires h > 0 && |ls| > 0 && i + Pow2(h) <= |xs| && Grounded(i, j, ls, proofs, proof, h, xs, S)
    ensures var split := Before(ls, i + Pow2(h - 1));
      IsSplit(ls, split, i + Pow2(h - 1)) && AtNode(ls[..split], S, i, h - 1) &&
      AtNode(ls[split..], S, i + Pow2(h - 1), h - 1)
    ensures var first := Needed(xs, i, h - 1, S);
      first <= proof && Needed(xs, i + Pow2(h - 1), h - 1, S) <= proof[|first|..]
  {
    hide AtNode, Expandable, Root, IsSplit, Aligned, Middle, Before, Needed, Hit;
    BlockHalves(ls, S, i, h, |xs|);
    EmptyIsMiss(ls, S, i, h);
    NeededHalves(xs, i, h, S);
    ProofHalves(proof, Needed(xs, i, h - 1, S), Needed(xs, i + Pow2(h - 1), h - 1, S));
  }

  lemma LeftSize(i: nat, j: nat, ls: seq<Leaf>, proofs: Proofs, proof: seq<Hash>, h: nat, xs: seq<Hash>, S: set<nat>)
    requires h > 0 && |ls| > 0 && i < Words.WORD && j < Words.WORD && Grounded(i, j, ls, proofs, proof, h, xs, S)
    ensures i + Pow2(h - 1) <= |xs|
    ensures NodeSize(i, Middle(i, j), ls[..Before(ls, Middle(i, j))], h - 1) == |Needed(xs, i, h - 1, S)|
  {
    hide AtNode, Expandable, Root, IsSplit, Aligned, Middle, Before, Needed, NodeSize, Grounded;
    GroundedRange(i, j, ls, proofs, proof, h, xs, S);
    GroundedHalves(i, j, ls, proofs, proof, h, xs, S);
    SizeIsNeeded(i, ls[..Before(ls, i + Pow2(h - 1))], h - 1, xs, S);
  }

  lemma GroundedLeft(i: nat, j: nat, ls: seq<Leaf>, proofs: Proofs, proof: seq<Hash>, h: nat, xs: seq<Hash>,
    S: set<nat>)
    requires h > 0 && |ls| > 0 && i < Words.WORD && j < Words.WORD
    ensures Grounded(i, j, ls, proofs, proof, h, xs, S) ==>
      Grounded(i, Middle(i, j), ls[..Before(ls, Middle(i, j))], proofs, proof, h - 1, xs, S)
  {
    hide AtNode, Expandable, Needed, Aligned, IsSplit, Middle, Before, NodeSize;
    if Grounded(i, j, ls, proofs, proof, h, xs, S) {
      GroundedRange(i, j, ls, proofs, proof, h, xs, S);
      GroundedHalves(i, j, ls, proofs, proof, h, xs, S);
      ExpandableHalves(ls, Before(ls, Middle(i, j)), proofs, h, xs);
    }
  }

  lemma GroundedRight(i: nat, j: nat, ls: seq<Leaf>, p0: Proofs, p1: Proofs, proof: seq<Hash>, leftRoot: Hash, h: nat,
                      xs: seq<Hash>, S: set<nat>)
    requires h > 0 && |ls| > 0 && i < Words.WORD && j < Words.WORD
    requires var mid := Middle(i, j);
      NodeSize(i, mid, ls[..Before(ls, mid)], h - 1) <= |proof| &&
      (Grounded(i, mid, ls[..Before(ls, mid)], p0, proof, h - 1, xs, S) ==>
       Regained(leftRoot, i, ls[..Before(ls, mid)], p0, p1, h - 1, xs))
    ensures var mid := Middle(i, j);
      Grounded(i, j, ls, p0, proof, h, xs, S) ==>
      Grounded(mid, j, ls[Before(ls, mid)..], p1, proof[NodeSize(i, mid, ls[..Before(ls, mid)], h - 1)..], h - 1, xs, S)
  {
    hide AtNode, Expandable, Needed, Aligned, IsSplit, Middle, Before, NodeSize, Restored;
    if Grounded(i, j, ls, p0, proof, h, xs, S) {
      GroundedRange(i, j, ls, p0, proof, h, xs, S);
      GroundedHalves(i, j, ls, p0, proof, h, xs, S);
      LeftSize(i, j, ls, p0, proof, h, xs, S);
      GroundedLeft(i, j, ls, p0, proof, h, xs, S);
      OtherHalfExpandable(p0, p1, ls, Before(ls, Middle(i, j)), h, xs);
    }
  }

  lemma RegainedBoth(i: nat, j: nat, ls: seq<Leaf>, p0: Proofs, p1: Proofs, p2: Proofs, p3: Proofs, p4: Proofs,
                     proof: seq<Hash>, leftRoot: Hash, rightRoot: Hash, h: nat, xs: seq<Hash>, S: set<nat>)
    requires h > 0 && |ls| > 0 && i < Words.WORD && j < Words.WORD
    requires var mid := Middle(i, j);
      NodeSize(i, mid, ls[..Before(ls, mid)], h - 1) <= |proof| &&
      (Grounded(i, mid, ls[..Before(ls, mid)], p0, proof, h - 1, xs, S) ==>
       Regained(leftRoot, i, ls[..Before(ls, mid)], p0, p1, h - 1, xs))
    requires var mid := Middle(i, j);
      var afterLeft := proof[NodeSize(i, mid, ls[..Before(ls, mid)], h - 1)..];
      Grounded(mid, j, ls[Before(ls, mid)..], p1, afterLeft, h - 1, xs, S) ==>
      Regained(rightRoot, mid, ls[Before(ls, mid)..], p1, p2, h - 1, xs)
    requires EntriesSet(p2, p3, ls[Before(ls, Middle(i, j))..], h - 1, leftRoot)
    requires EntriesSet(p3, p4, ls[..Before(ls, Middle(i, j))], h - 1, rightRoot)
    ensures Grounded(i, j, ls, p0, proof, h, xs, S) ==>
      Regained(NodeHash(leftRoot, rightRoot), i, ls, p0, p4, h, xs)
  {
    hide AtNode, Expandable, Needed, IsSplit, Middle, Before, NodeSize, Restored, EntriesSet, Aligned;
    if Grounded(i, j, ls, p0, proof, h, xs, S) {
      GroundedRange(i, j, ls, p0, proof, h, xs, S);
      GroundedHalves(i, j, ls, p0, proof, h, xs, S);
      LeftSize(i, j, ls, p0, proof, h, xs, S);
      GroundedLeft(i, j, ls, p0, proof, h, xs, S);
      GroundedRight(i, j, ls, p0, p1, proof, leftRoot, h, xs, S);
      HalvesRestored(p0, p1, p2, p3, p4, ls, Before(ls, Middle(i, j)), S, i, h, xs);
    }
  }

  ghost predicate Room(ls: seq<Leaf>, proofs: Proofs, k: nat) {
    forall m :: 0 <= m < |ls| ==> ls[m].slot < |proofs| && k < |proofs[ls[m].slot]|
  }
}
