/**
  Multiproofs (merkle/multiproof.go:12-133): the proofs of all inputs of a
  block merged into one list without any length prefix, and expanded again by
  a second traversal.
 */
module Multiproof {
  import opened Bits
  import opened Types
  import opened Merkle
  import opened Forest
  import opened Sorting
  import opened Traversal
  import Words

  // ---------------------------------------------------------------- all trees of a block

  function InputLeaf(k: nat, input: Input): Leaf {
    Leaf(k, input.parent.state.leafIndex, OutputLeaf(input.parent, false).Hash())
  }

  predicate Earlier(a: Leaf, b: Leaf) {
    a.leafIndex < b.leafIndex
  }

  function Slot(l: Leaf): nat {
    l.slot
  }

  /** The leaf is that of an input whose parent is in the accumulator, with a proof of length h. */
  ghost predicate TreeLeaf(l: Leaf, inputs: seq<Input>, proofs: Proofs, h: nat) {
    l.slot < |inputs| == |proofs| && l == InputLeaf(l.slot, inputs[l.slot]) &&
    !inputs[l.slot].parent.Ephemeral() && |proofs[l.slot]| == h
  }

  /** The leaves are exactly those of the inputs in the tree of height h. */
  ghost predicate TreeLeaves(ls: seq<Leaf>, inputs: seq<Input>, proofs: Proofs, h: nat) {
    |inputs| == |proofs| && DistinctBy(ls, Slot) &&
    (forall m :: 0 <= m < |ls| ==> TreeLeaf(ls[m], inputs, proofs, h)) &&
    (forall k :: 0 <= k < |inputs| && !inputs[k].parent.Ephemeral() && |proofs[k]| == h ==> !Free(ls, k))
  }

  /** The sum of the lengths of all proofs. */
  function TotalLength(inputs: seq<Input>, proofs: Proofs): nat
    requires |inputs| == |proofs|
  {
    if inputs == [] then 0
    else
      var k := |inputs| - 1;
      TotalLength(inputs[..k], proofs[..k]) + if inputs[k].parent.Ephemeral() then 0 else |proofs[k]|
  }

  /** The sum of the proof lengths of the first h trees. */
  ghost function Weight(trees: seq<seq<Leaf>>, h: nat): nat
    requires h <= |trees|
  {
    if h == 0 then 0 else Weight(trees, h - 1) + (h - 1) * |trees[h - 1]|
  }

  lemma {:induction false} WeightSame(a: seq<seq<Leaf>>, b: seq<seq<Leaf>>, h: nat)
    requires h <= |a| == |b| && forall t :: 0 <= t < h ==> |a[t]| == |b[t]|
    ensures Weight(a, h) == Weight(b, h)
  {
    if h > 0 {
      WeightSame(a, b, h - 1);
    }
  }

  lemma {:induction false} WeightAdd(trees: seq<seq<Leaf>>, t: nat, l: Leaf, h: nat)
    requires t < |trees| && h <= |trees|
    ensures Weight(trees[t := trees[t] + [l]], h) == Weight(trees, h) + if t < h then t else 0
  {
    if h > 0 {
      WeightAdd(trees, t, l, h - 1);
      if t == h - 1 {
        assert (h - 1) * (|trees[t]| + 1) == (h - 1) * |trees[t]| + t;
      }
    }
  }

  lemma SortTree(ls: seq<Leaf>, inputs: seq<Input>, proofs: Proofs, h: nat)
    requires TreeLeaves(ls, inputs, proofs, h)
    ensures TreeLeaves(Sort(ls, Earlier), inputs, proofs, h) && Ordered(Sort(ls, Earlier))
  {
    var sorted := Sort(ls, Earlier);
    assert Ordering(Earlier);
    SortSorted(ls, Earlier);
    SortDistinct(ls, Earlier, Slot);
    forall m | 0 <= m < |sorted|
      ensures TreeLeaf(sorted[m], inputs, proofs, h)
    {
      SameMembers(sorted, ls, sorted[m]);
    }
    forall k | 0 <= k < |inputs| && !Free(ls, k)
      ensures !Free(sorted, k)
    {
      var m :| 0 <= m < |ls| && ls[m].slot == k;
      SameMembers(sorted, ls, ls[m]);
    }
    forall a, b | 0 <= a < b < |sorted|
      ensures sorted[a].leafIndex <= sorted[b].leafIndex
    {
      assert !Earlier(sorted[b], sorted[a]);
    }
  }

  lemma NextInput(ls: seq<Leaf>, inputs: seq<Input>, proofs: Proofs, k: nat, h: nat)
    requires k < |inputs| == |proofs| && TreeLeaves(ls, inputs[..k], proofs[..k], h)
    ensures TreeLeaves(if inputs[k].parent.Ephemeral() || |proofs[k]| != h then ls else ls + [InputLeaf(k, inputs[k])],
                       inputs[..k + 1], proofs[..k + 1], h)
  {
    var next := if inputs[k].parent.Ephemeral() || |proofs[k]| != h then ls else ls + [InputLeaf(k, inputs[k])];
    forall m | 0 <= m < |ls|
      ensures TreeLeaf(ls[m], inputs[..k + 1], proofs[..k + 1], h)
    {
      assert TreeLeaf(ls[m], inputs[..k], proofs[..k], h);
    }
    forall j | 0 <= j < k + 1 && !inputs[..k + 1][j].parent.Ephemeral() && |proofs[..k + 1][j]| == h
      ensures !Free(next, j)
    {
      if j < k {
        assert !Free(ls, j) by {
          assert inputs[..k][j] == inputs[j] && proofs[..k][j] == proofs[j];
        }
        var m :| 0 <= m < |ls| && ls[m].slot == j;
        assert next[m].slot == j;
      } else {
        assert next[|ls|].slot == j;
      }
    }
  }

  /** What the source's types and its array of trees allow: words as positions, and proofs shorter than 64. */
  ghost predicate Readable(inputs: seq<Input>, proofs: Proofs) {
    |proofs| == |inputs| &&
    forall k :: 0 <= k < |inputs| && !inputs[k].parent.Ephemeral() ==>
      |proofs[k]| < MAX_TREES && inputs[k].parent.state.leafIndex < Words.WORD
  }

  /** The inputs with proofs of length h, in order. */
  function Group(inputs: seq<Input>, proofs: Proofs, h: nat): seq<Leaf>
    requires |inputs| == |proofs|
  {
    if inputs == [] then []
    else
      var k := |inputs| - 1;
      var before := Group(inputs[..k], proofs[..k], h);
      if inputs[k].parent.Ephemeral() || |proofs[k]| != h then before else before + [InputLeaf(k, inputs[k])]
  }

  function Tree(inputs: seq<Input>, proofs: Proofs, h: nat): seq<Leaf>
    requires |inputs| == |proofs|
  {
    Sort(Group(inputs, proofs, h), Earlier)
  }

  lemma {:induction false} GroupLeaves(inputs: seq<Input>, proofs: Proofs, h: nat)
    requires |inputs| == |proofs|
    ensures TreeLeaves(Group(inputs, proofs, h), inputs, proofs, h)
    decreases |inputs|
  {
    if inputs != [] {
      var k := |inputs| - 1;
      GroupLeaves(inputs[..k], proofs[..k], h);
      NextInput(Group(inputs[..k], proofs[..k], h), inputs, proofs, k, h);
      assert inputs[..k + 1] == inputs && proofs[..k + 1] == proofs;
    }
  }

  lemma TreeIsOrdered(inputs: seq<Input>, proofs: Proofs, h: nat)
    requires |inputs| == |proofs|
    ensures TreeLeaves(Tree(inputs, proofs, h), inputs, proofs, h) && Ordered(Tree(inputs, proofs, h))
  {
    GroupLeaves(inputs, proofs, h);
    SortTree(Group(inputs, proofs, h), inputs, proofs, h);
  }

  /** Only the lengths of the proofs matter. */
  lemma {:induction false} SameGroup(inputs: seq<Input>, a: Proofs, b: Proofs, h: nat)
    requires |inputs| == |a| == |b| && forall k :: 0 <= k < |a| ==> |a[k]| == |b[k]|
    ensures Group(inputs, a, h) == Group(inputs, b, h) && Tree(inputs, a, h) == Tree(inputs, b, h)
    decreases |inputs|
  {
    if inputs != [] {
      SameGroup(inputs[..|inputs| - 1], a[..|inputs| - 1], b[..|inputs| - 1], h);
    }
  }

  /** leavesByTree: groups the inputs by the lengths of their proofs, each group in order of position. */
  method LeavesByTree(inputs: seq<Input>, proofs: Proofs) returns (trees: seq<seq<Leaf>>)
    requires Readable(inputs, proofs)
    ensures |trees| == MAX_TREES
    ensures forall h :: 0 <= h < MAX_TREES ==> trees[h] == Tree(inputs, proofs, h)
    ensures forall h :: 0 <= h < MAX_TREES ==> TreeLeaves(trees[h], inputs, proofs, h) && Ordered(trees[h])
    ensures Weight(trees, MAX_TREES) == TotalLength(inputs, proofs)
  {
    hide TreeLeaves, Sort, Ordered;
    var groups: seq<seq<Leaf>> := seq(MAX_TREES, _ => []);
    EmptyWeight(groups, MAX_TREES);
    for k := 0 to |inputs|
      invariant |groups| == MAX_TREES && Weight(groups, MAX_TREES) == TotalLength(inputs[..k], proofs[..k])
      invariant forall h :: 0 <= h < MAX_TREES ==> groups[h] == Group(inputs[..k], proofs[..k], h)
    {
      assert inputs[..k + 1][..k] == inputs[..k] && proofs[..k + 1][..k] == proofs[..k];
      if !inputs[k].parent.Ephemeral() {
        var t := |proofs[k]|;
        WeightAdd(groups, t, InputLeaf(k, inputs[k]), MAX_TREES);
        groups := groups[t := groups[t] + [InputLeaf(k, inputs[k])]];
      }
    }
    assert inputs[..|inputs|] == inputs && proofs[..|inputs|] == proofs;
    trees := seq(MAX_TREES, h requires 0 <= h < |groups| => Sort(groups[h], Earlier));
    forall h | 0 <= h < MAX_TREES
      ensures trees[h] == Tree(inputs, proofs, h) && TreeLeaves(trees[h], inputs, proofs, h) && Ordered(trees[h])
    {
      TreeIsOrdered(inputs, proofs, h);
    }
    WeightSame(groups, trees, MAX_TREES);
  }

  lemma {:induction false} EmptyWeight(groups: seq<seq<Leaf>>, h: nat)
    requires h <= |groups| && forall t :: 0 <= t < h ==> groups[t] == []
    ensures Weight(groups, h) == 0
  {
    if h > 0 {
      EmptyWeight(groups, h - 1);
    }
  }

  // ---------------------------------------------------------------- the three traversals of a block

  lemma {:induction false} AlignedBelow(x: nat, k: nat, w: nat)
    requires Aligned(x, k) && x < Pow2(w) && k <= w
    ensures x + Pow2(k) <= Pow2(w)
    decreases k
  {
    if k > 0 {
      AlignedBelow(x / 2, k - 1, w - 1);
    }
  }

  /** Where the traversals of a tree start: at a node that its leaves fit. */
  lemma TreeReady(inputs: seq<Input>, proofs: Proofs, h: nat)
    requires Readable(inputs, proofs) && h < MAX_TREES && |Tree(inputs, proofs, h)| > 0
    ensures var start := ClearBits(Tree(inputs, proofs, h)[0].leafIndex, h + 1);
      start + Pow2(h) < Words.WORD && Node(start, start + Pow2(h), h)
    ensures Ordered(Tree(inputs, proofs, h)) && DistinctSlots(Tree(inputs, proofs, h))
    ensures Fitted(Tree(inputs, proofs, h), proofs, h)
  {
    hide Tree, Ordered, TreeLeaves, LowestBit, Words.WORD;
    var ls := Tree(inputs, proofs, h);
    TreeIsOrdered(inputs, proofs, h);
    LeavesFit(ls, inputs, proofs, h);
    StartsAtNode(ls[0].leafIndex, h);
  }

  lemma LeavesFit(ls: seq<Leaf>, inputs: seq<Input>, proofs: Proofs, h: nat)
    requires Readable(inputs, proofs) && TreeLeaves(ls, inputs, proofs, h)
    ensures Fitted(ls, proofs, h) && DistinctSlots(ls)
    ensures forall m :: 0 <= m < |ls| ==> ls[m].leafIndex < Words.WORD
  {
    forall m | 0 <= m < |ls|
      ensures ls[m].slot < |proofs| && h <= |proofs[ls[m].slot]| && ls[m].leafIndex < Words.WORD
    {
      assert TreeLeaf(ls[m], inputs, proofs, h);
    }
    forall a, b | 0 <= a < b < |ls|
      ensures ls[a].slot != ls[b].slot
    {
      assert Slot(ls[a]) != Slot(ls[b]);
    }
  }

  /** No position and height of a tree make the end of its block wrap around. */
  lemma StartsAtNode(p: nat, h: nat)
    requires p < Words.WORD && h < 64
    ensures ClearBits(p, h + 1) + Pow2(h) < Words.WORD
    ensures Node(ClearBits(p, h + 1), ClearBits(p, h + 1) + Pow2(h), h)
  {
    Words.Pow2Of63();
    ClearBounds(p, h + 1);
    AlignedBelow(ClearBits(p, h + 1), h + 1, 64);
    LowestOfPow2(h);
  }

  /** The number of hashes a tree takes. */
  ghost function TreeSize(inputs: seq<Input>, proofs: Proofs, h: nat): nat
    requires Readable(inputs, proofs) && h < MAX_TREES
  {
    var ls := Tree(inputs, proofs, h);
    if |ls| == 0 then 0
    else
      TreeReady(inputs, proofs, h);
      var start := ClearBits(ls[0].leafIndex, h + 1);
      NodeSize(start, start + Pow2(h), ls, h)
  }

  ghost function SizeFrom(inputs: seq<Input>, proofs: Proofs, h: nat): nat
    requires Readable(inputs, proofs)
    decreases MAX_TREES - h
  {
    if h >= MAX_TREES then 0 else TreeSize(inputs, proofs, h) + SizeFrom(inputs, proofs, h + 1)
  }

  /** The number of hashes in the multiproof of any inputs. */
  ghost function SizeOf(inputs: seq<Input>, proofs: Proofs): nat
    requires Readable(inputs, proofs)
  {
    SizeFrom(inputs, proofs, 0)
  }

  /** The hashes a tree hands over. */
  ghost function TreeHashes(inputs: seq<Input>, proofs: Proofs, h: nat): (r: seq<Hash>)
    requires Readable(inputs, proofs) && h < MAX_TREES
    ensures |r| == TreeSize(inputs, proofs, h)
  {
    hide Tree, Node, NodeSize, NodeHashes, Readable;
    var ls := Tree(inputs, proofs, h);
    if |ls| == 0 then []
    else
      TreeReady(inputs, proofs, h);
      var start := ClearBits(ls[0].leafIndex, h + 1);
      HashesFillSize(start, start + Pow2(h), ls, proofs, h);
      NodeHashes(start, start + Pow2(h), ls, proofs, h)
  }

  ghost function HashesFrom(inputs: seq<Input>, proofs: Proofs, h: nat): (r: seq<Hash>)
    requires Readable(inputs, proofs)
    ensures |r| == SizeFrom(inputs, proofs, h)
    decreases MAX_TREES - h
  {
    if h >= MAX_TREES then [] else TreeHashes(inputs, proofs, h) + HashesFrom(inputs, proofs, h + 1)
  }

  /** The multiproof of any inputs. */
  ghost function HashesOf(inputs: seq<Input>, proofs: Proofs): (r: seq<Hash>)
    requires Readable(inputs, proofs)
    ensures |r| == SizeOf(inputs, proofs)
  {
    HashesFrom(inputs, proofs, 0)
  }

  /** The size depends on the lengths of the proofs alone. */
  lemma {:induction false} SameSize(inputs: seq<Input>, a: Proofs, b: Proofs, h: nat)
    requires Readable(inputs, a) && |a| == |b| && forall k :: 0 <= k < |a| ==> |a[k]| == |b[k]|
    ensures Readable(inputs, b) && SizeFrom(inputs, a, h) == SizeFrom(inputs, b, h)
    decreases MAX_TREES - h
  {
    hide Tree, NodeSize;
    if h < MAX_TREES {
      SameGroup(inputs, a, b, h);
      SameSize(inputs, a, b, h + 1);
    }
  }

  /** MultiproofSize: for any inputs, never more than their proofs together. */
  method MultiproofSize(inputs: seq<Input>, proofs: Proofs) returns (size: nat)
    requires Readable(inputs, proofs)
    ensures size == SizeOf(inputs, proofs) <= TotalLength(inputs, proofs)
  {
    hide TreeLeaves, Ordered, Tree, TreeSize, TotalLength, Readable;
    var trees := LeavesByTree(inputs, proofs);
    size := 0;
    for height := 0 to MAX_TREES
      invariant size + SizeFrom(inputs, proofs, height) == SizeFrom(inputs, proofs, 0)
      invariant size <= Weight(trees, height)
    {
      var treeSize := MeasureTree(trees[height], inputs, proofs, height);
      size := size + treeSize;
    }
  }

  /** One tree of MultiproofSize. */
  method MeasureTree(leaves: seq<Leaf>, inputs: seq<Input>, proofs: Proofs, height: nat) returns (size: nat)
    requires Readable(inputs, proofs) && height < MAX_TREES && leaves == Tree(inputs, proofs, height)
    ensures size == TreeSize(inputs, proofs, height) <= height * |leaves|
  {
    hide Tree, NodeSize, Node, Readable;
    if |leaves| == 0 {
      return 0;
    }
    TreeReady(inputs, proofs, height);
    var start := ClearBits(leaves[0].leafIndex, height + 1);
    var end := start + Pow2(height);
    SizeBound(start, end, leaves, height);
    size := ProofSize(start, end, leaves, height);
  }

  /** ComputeMultiproof: one list for the proofs of all inputs, of the length that MultiproofSize gives. */
  method ComputeMultiproof(inputs: seq<Input>, proofs: Proofs) returns (proof: seq<Hash>)
    requires Readable(inputs, proofs)
    ensures proof == HashesOf(inputs, proofs) && |proof| == SizeOf(inputs, proofs)
  {
    hide TreeLeaves, Ordered, Tree, Readable, Weight, TreeHashes, TreeSize;
    var trees := LeavesByTree(inputs, proofs);
    proof := [];
    for height := 0 to MAX_TREES
      invariant proof + HashesFrom(inputs, proofs, height) == HashesFrom(inputs, proofs, 0)
    {
      Regroup(proof, TreeHashes(inputs, proofs, height), HashesFrom(inputs, proofs, height + 1));
      proof := ComputeTree(trees[height], inputs, proofs, proof, height);
    }
  }

  /** One tree of ComputeMultiproof. */
  method ComputeTree(leaves: seq<Leaf>, inputs: seq<Input>, proofs: Proofs, proof: seq<Hash>, height: nat)
    returns (extended: seq<Hash>)
    requires Readable(inputs, proofs) && height < MAX_TREES && leaves == Tree(inputs, proofs, height)
    ensures extended == proof + TreeHashes(inputs, proofs, height)
  {
    hide Tree, NodeHashes, Node, Readable;
    if |leaves| == 0 {
      return proof;
    }
    TreeReady(inputs, proofs, height);
    var start := ClearBits(leaves[0].leafIndex, height + 1);
    extended := Visit(start, start + Pow2(height), leaves, proofs, proof, height);
  }

  // ---------------------------------------------------------------- multiproofs of a forest

  /** The positions that the inputs spend. */
  function Positions(inputs: seq<Input>): set<nat> {
    set k | 0 <= k < |inputs| && !inputs[k].parent.Ephemeral() :: inputs[k].parent.state.leafIndex
  }

  /** Each input that is not ephemeral spends an unspent leaf of xs, and its proof has the length its tree demands. */
  ghost predicate Sized(inputs: seq<Input>, proofs: Proofs, xs: seq<Hash>) {
    |proofs| == |inputs| && InRange(|xs|) &&
    forall k :: 0 <= k < |inputs| && !inputs[k].parent.Ephemeral() ==> InputSized(inputs[k], proofs[k], xs)
  }

  ghost predicate InputSized(input: Input, proof: seq<Hash>, xs: seq<Hash>) {
    input.parent.state.leafIndex < |xs| && xs[input.parent.state.leafIndex] == OutputLeaf(input.parent, false).Hash() &&
    |proof| == TreeHeight(|xs|, input.parent.state.leafIndex)
  }

  /** Each proof is its input's path in the forest over xs. */
  ghost predicate Consistent(inputs: seq<Input>, proofs: Proofs, xs: seq<Hash>) {
    Sized(inputs, proofs, xs) &&
    forall k :: 0 <= k < |inputs| && !inputs[k].parent.Ephemeral() ==>
      proofs[k] == LeafPath(xs, inputs[k].parent.state.leafIndex)
  }

  /** The multiproof of the inputs. */
  ghost function MultiproofOf(inputs: seq<Input>, xs: seq<Hash>): seq<Hash> {
    MultiproofFrom(xs, Positions(inputs), 0)
  }

  lemma SizedInRange(inputs: seq<Input>, proofs: Proofs, xs: seq<Hash>)
    requires Sized(inputs, proofs, xs)
    ensures |proofs| == |inputs|
    ensures Readable(inputs, proofs)
    ensures forall k :: 0 <= k < |inputs| && !inputs[k].parent.Ephemeral() ==> |proofs[k]| < MAX_TREES
  {
    Words.Pow2Of63();
    Words.Pow2Value();
    forall k | 0 <= k < |inputs| && !inputs[k].parent.Ephemeral()
      ensures |proofs[k]| < MAX_TREES && inputs[k].parent.state.leafIndex < Words.WORD
    {
      assert InputSized(inputs[k], proofs[k], xs);
      TreeOf(|xs|, inputs[k].parent.state.leafIndex);
      HeightInRange(|xs|, |proofs[k]|);
    }
  }

  lemma LeafPlace(ls: seq<Leaf>, inputs: seq<Input>, proofs: Proofs, xs: seq<Hash>, h: nat, m: nat)
    requires Sized(inputs, proofs, xs) && TreeLeaves(ls, inputs, proofs, h) && m < |ls|
    ensures Bit(|xs|, h) && Aligned(TreeStart(|xs|, h), h) && TreeStart(|xs|, h) + Pow2(h) <= |xs|
    ensures ClearBits(ls[m].leafIndex, h + 1) == TreeStart(|xs|, h)
    ensures LeafIn(ls[m], Positions(inputs), TreeStart(|xs|, h), h)
    ensures LeafExpandable(ls[m], proofs, h, xs) && TreeHeight(|xs|, ls[m].leafIndex) == h
  {
    var p := ls[m].leafIndex;
    assert TreeLeaf(ls[m], inputs, proofs, h);
    assert InputSized(inputs[ls[m].slot], proofs[ls[m].slot], xs);
    TreeOf(|xs|, p);
    TreeFits(|xs|, h);
    ClearInBlock(TreeStart(|xs|, h), h + 1, p);
  }

  /** A tree with inputs: where its traversal starts, and what it finds there. */
  lemma TreeAtNode(ls: seq<Leaf>, inputs: seq<Input>, proofs: Proofs, xs: seq<Hash>, h: nat)
    requires Sized(inputs, proofs, xs) && TreeLeaves(ls, inputs, proofs, h) && Ordered(ls) && |ls| > 0
    ensures Bit(|xs|, h) && Aligned(TreeStart(|xs|, h), h) && TreeStart(|xs|, h) + Pow2(h) <= |xs|
    ensures ClearBits(ls[0].leafIndex, h + 1) == TreeStart(|xs|, h)
    ensures AtNode(ls, Positions(inputs), TreeStart(|xs|, h), h) && Expandable(ls, proofs, h, xs)
    ensures TreeNeeded(xs, Positions(inputs), h) == Needed(xs, TreeStart(|xs|, h), h, Positions(inputs))
  {
    LeafPlace(ls, inputs, proofs, xs, h, 0);
    var S, start := Positions(inputs), TreeStart(|xs|, h);
    forall m | 0 <= m < |ls|
      ensures LeafIn(ls[m], S, start, h) && LeafExpandable(ls[m], proofs, h, xs)
    {
      LeafPlace(ls, inputs, proofs, xs, h, m);
    }
    forall s | s in S && start <= s < start + Pow2(h)
      ensures HasPosition(ls, s)
    {
      PositionInTree(ls, inputs, proofs, xs, h, s);
    }
    forall a, b | 0 <= a < b < |ls|
      ensures ls[a].slot != ls[b].slot
    {
      assert Slot(ls[a]) != Slot(ls[b]);
    }
    EmptyIsMiss(ls, S, start, h);
  }

  /** An input in the tree is among the tree's leaves. */
  lemma PositionInTree(ls: seq<Leaf>, inputs: seq<Input>, proofs: Proofs, xs: seq<Hash>, h: nat, s: nat)
    requires Sized(inputs, proofs, xs) && TreeLeaves(ls, inputs, proofs, h)
    requires s in Positions(inputs) && Bit(|xs|, h) && TreeStart(|xs|, h) <= s < TreeStart(|xs|, h) + Pow2(h)
    ensures HasPosition(ls, s)
  {
    InTree(|xs|, h, s);
    var k :| 0 <= k < |inputs| && !inputs[k].parent.Ephemeral() && inputs[k].parent.state.leafIndex == s;
    assert InputSized(inputs[k], proofs[k], xs);
    assert !Free(ls, k);
    var m :| 0 <= m < |ls| && ls[m].slot == k;
    assert TreeLeaf(ls[m], inputs, proofs, h);
  }

  lemma NoLeavesNothingNeeded(ls: seq<Leaf>, inputs: seq<Input>, proofs: Proofs, xs: seq<Hash>, h: nat)
    requires Sized(inputs, proofs, xs) && TreeLeaves(ls, inputs, proofs, h) && |ls| == 0
    ensures TreeNeeded(xs, Positions(inputs), h) == []
  {
    var S := Positions(inputs);
    if Bit(|xs|, h) && Hit(S, TreeStart(|xs|, h), h) {
      var s :| s in S && TreeStart(|xs|, h) <= s < TreeStart(|xs|, h) + Pow2(h);
      PositionInTree(ls, inputs, proofs, xs, h, s);
    }
  }

  /** In a forest, a tree takes what its blocks need, and hands it over if the proofs are paths. */
  lemma TreeInForest(inputs: seq<Input>, proofs: Proofs, xs: seq<Hash>, h: nat)
    requires Sized(inputs, proofs, xs) && h < MAX_TREES
    ensures Readable(inputs, proofs) && TreeSize(inputs, proofs, h) == |TreeNeeded(xs, Positions(inputs), h)|
    ensures Consistent(inputs, proofs, xs) ==> TreeHashes(inputs, proofs, h) == TreeNeeded(xs, Positions(inputs), h)
  {
    hide AtNode, Expandable, Needed, TreeLeaves, Ordered, Positions, TreeNeeded, NodeHashes, NodeSize, ProvedTo, Tree;
    SizedInRange(inputs, proofs, xs);
    var ls := Tree(inputs, proofs, h);
    TreeIsOrdered(inputs, proofs, h);
    if |ls| == 0 {
      NoLeavesNothingNeeded(ls, inputs, proofs, xs, h);
    } else {
      TreeReady(inputs, proofs, h);
      TreeAtNode(ls, inputs, proofs, xs, h);
      SizeIsNeeded(TreeStart(|xs|, h), ls, h, xs, Positions(inputs));
      if Consistent(inputs, proofs, xs) {
        TreeProved(ls, inputs, proofs, xs, h);
        HashesAreNeeded(TreeStart(|xs|, h), ls, proofs, h, xs, Positions(inputs));
      }
    }
  }

  lemma {:induction false} TreesInForest(inputs: seq<Input>, proofs: Proofs, xs: seq<Hash>, h: nat)
    requires Sized(inputs, proofs, xs)
    ensures Readable(inputs, proofs)
    ensures SizeFrom(inputs, proofs, h) == |MultiproofFrom(xs, Positions(inputs), h)|
    ensures Consistent(inputs, proofs, xs) ==>
      HashesFrom(inputs, proofs, h) == MultiproofFrom(xs, Positions(inputs), h)
    decreases MAX_TREES - h
  {
    hide Positions, TreeNeeded, TreeHashes, TreeSize, Sized;
    SizedInRange(inputs, proofs, xs);
    NextTree(xs, Positions(inputs), h);
    if h < MAX_TREES {
      TreeInForest(inputs, proofs, xs, h);
      TreesInForest(inputs, proofs, xs, h + 1);
    }
  }

  /**
    In a forest, the size is that of the multiproof that the forest and the
    positions determine, and with paths as proofs the hashes are that multiproof.
   */
  lemma InForest(inputs: seq<Input>, proofs: Proofs, xs: seq<Hash>)
    requires Sized(inputs, proofs, xs)
    ensures Readable(inputs, proofs) && SizeOf(inputs, proofs) == |MultiproofOf(inputs, xs)|
    ensures Consistent(inputs, proofs, xs) ==> HashesOf(inputs, proofs) == MultiproofOf(inputs, xs)
  {
    hide Positions, Sized, SizeFrom, HashesFrom, MultiproofFrom;
    TreesInForest(inputs, proofs, xs, 0);
  }

  lemma TreeProved(ls: seq<Leaf>, inputs: seq<Input>, proofs: Proofs, xs: seq<Hash>, h: nat)
    requires Consistent(inputs, proofs, xs) && TreeLeaves(ls, inputs, proofs, h)
    ensures ProvedTo(ls, proofs, h, xs)
  {
    forall m | 0 <= m < |ls|
      ensures LeafProved(ls[m], proofs, h, xs)
    {
      LeafPlace(ls, inputs, proofs, xs, h, m);
      assert TreeLeaf(ls[m], inputs, proofs, h);
      var path := LeafPath(xs, ls[m].leafIndex);
      assert path[..h] == path;
    }
  }

  /** Proofs shorter than h are restored, the others and those of ephemeral inputs as they were. */
  ghost predicate ExpandedTo(before: Proofs, after: Proofs, inputs: seq<Input>, xs: seq<Hash>, h: nat) {
    |before| == |after| == |inputs| &&
    forall k :: 0 <= k < |inputs| ==> InputExpanded(before[k], after[k], inputs[k], xs, h)
  }

  ghost predicate InputExpanded(before: seq<Hash>, after: seq<Hash>, input: Input, xs: seq<Hash>, h: nat) {
    if input.parent.Ephemeral() || |before| >= h then after == before
    else input.parent.state.leafIndex < |xs| && after == LeafPath(xs, input.parent.state.leafIndex)
  }

  lemma TreeExpanded(p0: Proofs, p1: Proofs, p2: Proofs, ls: seq<Leaf>, inputs: seq<Input>, xs: seq<Hash>, h: nat)
    requires Sized(inputs, p0, xs) && TreeLeaves(ls, inputs, p0, h) && ExpandedTo(p0, p1, inputs, xs, h)
    requires if |ls| == 0 then p2 == p1 else Restored(p1, p2, ls, h, xs)
    ensures ExpandedTo(p0, p2, inputs, xs, h + 1)
  {
    forall k | 0 <= k < |inputs|
      ensures InputExpanded(p0[k], p2[k], inputs[k], xs, h + 1)
    {
      assert InputExpanded(p0[k], p1[k], inputs[k], xs, h);
      if !Free(ls, k) {
        var m :| 0 <= m < |ls| && ls[m].slot == k;
        LeafPlace(ls, inputs, p0, xs, h, m);
        assert TreeLeaf(ls[m], inputs, p0, h) && LeafRestored(p1, p2, ls[m], h, xs);
        assert p2[k][..h] == p2[k];
      }
    }
  }

  lemma StillExpandable(p0: Proofs, p1: Proofs, ls: seq<Leaf>, inputs: seq<Input>, xs: seq<Hash>, h: nat)
    requires TreeLeaves(ls, inputs, p0, h) && ExpandedTo(p0, p1, inputs, xs, h) && Expandable(ls, p0, h, xs)
    ensures Expandable(ls, p1, h, xs)
  {
    forall m | 0 <= m < |ls|
      ensures LeafExpandable(ls[m], p1, h, xs)
    {
      assert TreeLeaf(ls[m], inputs, p0, h) && LeafExpandable(ls[m], p0, h, xs);
      assert InputExpanded(p0[ls[m].slot], p1[ls[m].slot], inputs[ls[m].slot], xs, h);
    }
  }

  ghost predicate SameLengths(before: Proofs, after: Proofs) {
    |before| == |after| && forall k :: 0 <= k < |before| ==> |after[k]| == |before[k]|
  }

  /** The proofs of ephemeral inputs are what they were. */
  ghost predicate EphemeralKept(before: Proofs, after: Proofs, inputs: seq<Input>) {
    |before| == |after| == |inputs| &&
    forall k :: 0 <= k < |inputs| && inputs[k].parent.Ephemeral() ==> after[k] == before[k]
  }

  /** The smaller trees are expanded, and the list begins with what the next one needs. */
  ghost predicate Underway(p0: Proofs, p1: Proofs, inputs: seq<Input>, proof: seq<Hash>, h: nat, xs: seq<Hash>) {
    ExpandedTo(p0, p1, inputs, xs, h) && TreeNeeded(xs, Positions(inputs), h) <= proof
  }

  /** One tree of ExpandMultiproof. */
  method ExpandTree(leaves: seq<Leaf>, inputs: seq<Input>, proofs: array<seq<Hash>>, proof: seq<Hash>, height: nat,
                    ghost p0: Proofs, ghost xs: seq<Hash>)
    returns (rest: seq<Hash>)
    requires Readable(inputs, p0) && height < MAX_TREES && leaves == Tree(inputs, p0, height)
    requires SameLengths(p0, proofs[..]) && TreeSize(inputs, p0, height) <= |proof|
    modifies proofs
    ensures rest == proof[TreeSize(inputs, p0, height)..]
    ensures SameLengths(p0, proofs[..]) && EphemeralKept(old(proofs[..]), proofs[..], inputs)
    ensures Sized(inputs, p0, xs) && Underway(p0, old(proofs[..]), inputs, proof, height, xs) ==>
      ExpandedTo(p0, proofs[..], inputs, xs, height + 1)
  {
    hide AtNode, Expandable, Needed, TreeLeaves, Ordered, Positions, TreeNeeded, Restored, ExpandedTo, Sized, Tree,
      NodeSize, Node, Fitted, DistinctSlots, Regained, Grounded, Aligned;
    ghost var p1 := proofs[..];
    ghost var S := Positions(inputs);
    TreeIsOrdered(inputs, p0, height);
    if |leaves| == 0 {
      TreeForest(leaves, inputs, p0, p1, p1, proof, ZeroHash, height, xs);
      assert proof[0..] == proof;
      return proof;
    }
    TreeReady(inputs, p0, height);
    FittedByLength(leaves, p0, p1, height);
    var start := ClearBits(leaves[0].leafIndex, height + 1);
    var root;
    root, rest := Expand(start, start + Pow2(height), leaves, proofs, proof, height, xs, S);
    KeptByTree(leaves, inputs, p0, p1, proofs[..], height);
    TreeForest(leaves, inputs, p0, p1, proofs[..], proof, root, height, xs);
  }

  lemma FittedByLength(ls: seq<Leaf>, a: Proofs, b: Proofs, h: nat)
    requires SameLengths(a, b) && Fitted(ls, a, h)
    ensures Fitted(ls, b, h)
  {
  }

  /** A tree holds no ephemeral inputs. */
  lemma KeptByTree(ls: seq<Leaf>, inputs: seq<Input>, p0: Proofs, p1: Proofs, p2: Proofs, h: nat)
    requires TreeLeaves(ls, inputs, p0, h) && SameLengths(p0, p1) && SameShape(p1, p2, ls)
    ensures SameLengths(p0, p2) && EphemeralKept(p1, p2, inputs)
  {
    forall k | 0 <= k < |inputs| && inputs[k].parent.Ephemeral()
      ensures p2[k] == p1[k]
    {
      assert Free(ls, k) by {
        forall m | 0 <= m < |ls|
          ensures ls[m].slot != k
        {
          assert TreeLeaf(ls[m], inputs, p0, h);
        }
      }
    }
  }

  /** What one tree's expansion means in a forest. */
  lemma TreeForest(ls: seq<Leaf>, inputs: seq<Input>, p0: Proofs, p1: Proofs, p2: Proofs, proof: seq<Hash>, root: Hash,
                   h: nat, xs: seq<Hash>)
    requires TreeLeaves(ls, inputs, p0, h) && Ordered(ls)
    requires |ls| == 0 ==> p2 == p1
    requires |ls| > 0 ==>
      var start := ClearBits(ls[0].leafIndex, h + 1);
      Grounded(start, start + Pow2(h), ls, p1, proof, h, xs, Positions(inputs)) ==>
      Regained(root, start, ls, p1, p2, h, xs)
    ensures Sized(inputs, p0, xs) && Underway(p0, p1, inputs, proof, h, xs) ==>
      ExpandedTo(p0, p2, inputs, xs, h + 1)
  {
    hide AtNode, Expandable, Needed, TreeLeaves, Ordered, Positions, TreeNeeded, Restored, ExpandedTo;
    if Sized(inputs, p0, xs) && Underway(p0, p1, inputs, proof, h, xs) {
      if |ls| == 0 {
        NoLeavesNothingNeeded(ls, inputs, p0, xs, h);
      } else {
        TreeAtNode(ls, inputs, p0, xs, h);
        StillExpandable(p0, p1, ls, inputs, xs, h);
      }
      TreeExpanded(p0, p1, p2, ls, inputs, xs, h);
    }
  }

  /**
    ExpandMultiproof: whatever the inputs, it uses up exactly as many hashes
    as MultiproofSize said, and stays within the proofs.  In a forest, as long
    as the proofs have the right lengths, every one of them is restored.
   */
  method ExpandMultiproof(inputs: seq<Input>, proofs: array<seq<Hash>>, proof: seq<Hash>, ghost xs: seq<Hash>)
    returns (rest: seq<Hash>)
    requires Readable(inputs, proofs[..]) && SizeOf(inputs, proofs[..]) <= |proof|
    modifies proofs
    ensures rest == proof[old(SizeOf(inputs, proofs[..]))..]
    ensures SameLengths(old(proofs[..]), proofs[..]) && EphemeralKept(old(proofs[..]), proofs[..], inputs)
    ensures Sized(inputs, old(proofs[..]), xs) && MultiproofOf(inputs, xs) <= proof ==>
      Consistent(inputs, proofs[..], xs)
  {
    hide TreeLeaves, Ordered, Positions, TreeNeeded, MultiproofFrom, ExpandedTo, Sized, Tree, TreeSize, Readable,
      Consistent;
    ghost var S, p0 := Positions(inputs), proofs[..];
    ghost var whole := Sized(inputs, p0, xs) && MultiproofOf(inputs, xs) <= proof;
    var trees := LeavesByTree(inputs, proofs[..]);
    rest := proof;
    assert |p0| == |inputs| by {
      OneEach(inputs, p0);
    }
    NothingExpanded(p0, inputs, xs);
    for height := 0 to MAX_TREES
      invariant SameLengths(p0, proofs[..]) && EphemeralKept(p0, proofs[..], inputs)
      invariant SizeFrom(inputs, p0, height) <= |rest|
      invariant rest[SizeFrom(inputs, p0, height)..] == proof[SizeOf(inputs, p0)..]
      invariant whole ==> ExpandedTo(p0, proofs[..], inputs, xs, height) && MultiproofFrom(xs, S, height) <= rest
    {
      NextTree(xs, S, height);
      ghost var before := rest;
      if whole {
        TreeInForest(inputs, p0, xs, height);
        ProofHalves(rest, TreeNeeded(xs, S, height), MultiproofFrom(xs, S, height + 1));
      }
      rest := ExpandTree(trees[height], inputs, proofs, rest, height, p0, xs);
      DropTwice(before, TreeSize(inputs, p0, height), SizeFrom(inputs, p0, height + 1));
    }
    if whole {
      AllExpanded(p0, proofs[..], inputs, xs);
    }
  }

  lemma OneEach(inputs: seq<Input>, proofs: Proofs)
    requires Readable(inputs, proofs)
    ensures |proofs| == |inputs|
  {
  }

  lemma NothingExpanded(p0: Proofs, inputs: seq<Input>, xs: seq<Hash>)
    requires |p0| == |inputs|
    ensures ExpandedTo(p0, p0, inputs, xs, 0)
  {
  }

  lemma AllExpanded(p0: Proofs, p1: Proofs, inputs: seq<Input>, xs: seq<Hash>)
    requires Sized(inputs, p0, xs) && ExpandedTo(p0, p1, inputs, xs, MAX_TREES)
    ensures Consistent(inputs, p1, xs)
    ensures forall k :: 0 <= k < |inputs| && inputs[k].parent.Ephemeral() ==> p1[k] == p0[k]
  {
    SizedInRange(inputs, p0, xs);
    forall k | 0 <= k < |inputs|
      ensures InputExpanded(p0[k], p1[k], inputs[k], xs, MAX_TREES)
      ensures !inputs[k].parent.Ephemeral() ==>
        InputSized(inputs[k], p1[k], xs) && p1[k] == LeafPath(xs, inputs[k].parent.state.leafIndex)
    {
      assert InputExpanded(p0[k], p1[k], inputs[k], xs, MAX_TREES);
      assert !inputs[k].parent.Ephemeral() ==> InputSized(inputs[k], p0[k], xs);
    }
  }

  lemma OnlyLengthsMatter(inputs: seq<Input>, before: Proofs, after: Proofs, xs: seq<Hash>)
    requires Sized(inputs, before, xs) && |after| == |before|
    requires forall k :: 0 <= k < |before| ==> |after[k]| == |before[k]|
    ensures Sized(inputs, after, xs)
  {
    forall k | 0 <= k < |inputs| && !inputs[k].parent.Ephemeral()
      ensures InputSized(inputs[k], after[k], xs)
    {
      assert InputSized(inputs[k], before[k], xs);
    }
  }

  /**
    The round trip: proofs that were merged, reduced to their lengths, and
    expanded again come back as they were.
   */
  method CompressThenExpand(inputs: seq<Input>, proofs: array<seq<Hash>>, ghost xs: seq<Hash>)
    requires Consistent(inputs, proofs[..], xs)
    modifies proofs
    ensures forall k :: 0 <= k < |inputs| && !inputs[k].parent.Ephemeral() ==> proofs[k] == old(proofs[k])
    ensures Consistent(inputs, proofs[..], xs)
  {
    hide Sized, MultiproofOf, SizeOf, HashesOf, Readable, LeafPath;
    ghost var p0 := proofs[..];
    InForest(inputs, p0, xs);
    var proof := ComputeMultiproof(inputs, proofs[..]);
    forall k | 0 <= k < proofs.Length {
      proofs[k] := seq(|proofs[k]|, _ => ZeroHash);
    }
    OnlyLengthsMatter(inputs, p0, proofs[..], xs);
    InForest(inputs, proofs[..], xs);
    var size := MultiproofSize(inputs, proofs[..]);
    var rest := ExpandMultiproof(inputs, proofs, proof, xs);
    assert rest == [] && size == |proof|;
  }
}
