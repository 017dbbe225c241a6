/**
  Roots and multiproofs as the terms they are: read from left to right, they
  give back the leaves they stand for.
 */
module Reading {
  import opened Bits
  import opened Types
  import opened Merkle
  import opened Forest
  import opened Traversal

  /** The leaves of a tree of hashes, from left to right. */
  function Frontier(h: Hash): (leaves: seq<Hash>)
    ensures leaves != []
  {
    match h
    case NodeHash(left, right) => Frontier(left) + Frontier(right)
    case _ => [h]
  }

  /** All leaves of the tree are k levels below its root. */
  predicate Perfect(h: Hash, k: nat) {
    if k == 0 then !h.NodeHash? else h.NodeHash? && Perfect(h.left, k - 1) && Perfect(h.right, k - 1)
  }

  /** The root over a block of leaves is a perfect tree with exactly these leaves. */
  lemma {:induction false} RootReads(xs: seq<Hash>, lo: nat, h: nat)
    requires lo + Pow2(h) <= |xs| && Indexed(xs)
    ensures Perfect(Root(xs, lo, h), h) && Frontier(Root(xs, lo, h)) == xs[lo..lo + Pow2(h)]
    decreases h
  {
    if h > 0 {
      RootReads(xs, lo, h - 1);
      RootReads(xs, lo + Pow2(h - 1), h - 1);
    }
  }

  /** The leaves of the live roots below height k, from the highest down. */
  function ReadTrees(trees: seq<Hash>, n: nat, k: nat): seq<Hash>
    requires k <= |trees|
  {
    if k == 0 then [] else (if Bit(n, k - 1) then Frontier(trees[k - 1]) else []) + ReadTrees(trees, n, k - 1)
  }

  /** An accumulator's live roots, read from the highest down, are the list of all leaves. */
  lemma ForestReads(trees: seq<Hash>, xs: seq<Hash>)
    requires Represents(trees, |xs|, xs) && Indexed(xs)
    ensures ReadTrees(trees, |xs|, MAX_TREES) == xs
  {
    TreesRead(trees, xs, MAX_TREES);
    Pow2Monotone(62, MAX_TREES);
    ClearInBlock(0, MAX_TREES, |xs|) by {
      ZeroAligned(MAX_TREES);
    }
  }

  lemma {:induction false} ZeroAligned(k: nat)
    ensures Aligned(0, k)
    decreases k
  {
    if k > 0 {
      ZeroAligned(k - 1);
    }
  }

  lemma {:induction false} TreesRead(trees: seq<Hash>, xs: seq<Hash>, k: nat)
    requires Represents(trees, |xs|, xs) && Indexed(xs) && k <= MAX_TREES
    ensures ClearBits(|xs|, k) <= |xs| && ReadTrees(trees, |xs|, k) == xs[ClearBits(|xs|, k)..]
    decreases k
  {
    hide Root, Frontier, Bit, Pow2, ClearBits, Indexed;
    ClearBounds(|xs|, k);
    if k == 0 {
      NothingCleared(|xs|);
    } else {
      TreesRead(trees, xs, k - 1);
      ClearStep(|xs|, k - 1);
      if Bit(|xs|, k - 1) {
        TreeFits(|xs|, k - 1);
        RootReads(xs, TreeStart(|xs|, k - 1), k - 1);
        var start, next := ClearBits(|xs|, k), ClearBits(|xs|, k - 1);
        assert xs[start..] == xs[start..next] + xs[next..];
      }
    }
  }

  lemma NothingCleared(n: nat)
    ensures ClearBits(n, 0) == n
  {
  }

  // ---------------------------------------------------------------- multiproofs

  /** The position of the first leaf below a hash. */
  function First(h: Hash): nat {
    var leaf := Frontier(h)[0];
    if leaf.LeafHash? then leaf.index else 0
  }

  lemma FirstOfRoot(xs: seq<Hash>, lo: nat, h: nat)
    requires lo + Pow2(h) <= |xs| && Indexed(xs)
    ensures First(Root(xs, lo, h)) == lo
  {
    RootReads(xs, lo, h);
    hide Root, Frontier;
    PowIsPositive(h);
    assert xs[lo..lo + Pow2(h)][0] == xs[lo];
  }

  lemma PowIsPositive(h: nat)
    ensures Pow2(h) >= 1
  {
  }

  /** What a hash of a multiproof stands for: a block without a position of S, as large as there is in the tree. */
  ghost predicate Spared(xs: seq<Hash>, lo: nat, h: nat, S: set<nat>, hash: Hash, g: nat) {
    var p := First(hash);
    g <= h && lo <= p && p + Pow2(g) <= lo + Pow2(h) && p + Pow2(g) <= |xs| && hash == Root(xs, p, g) &&
    !Hit(S, p, g) && (g < h ==> Hit(S, ClearBits(p, g + 1), g + 1))
  }

  lemma {:induction false} NeededIsSpared(xs: seq<Hash>, lo: nat, h: nat, S: set<nat>, k: nat) returns (g: nat)
    requires lo + Pow2(h) <= |xs| && Indexed(xs) && Aligned(lo, h) && k < |Needed(xs, lo, h, S)|
    ensures Spared(xs, lo, h, S, Needed(xs, lo, h, S)[k], g)
    decreases h
  {
    hide Root, First, Hit, ClearBits;
    if !Hit(S, lo, h) {
      FirstOfRoot(xs, lo, h);
      g := h;
    } else {
      NeededHalves(xs, lo, h, S);
      AlignedStep(lo, h - 1);
      var left := Needed(xs, lo, h - 1, S);
      var half := if k < |left| then lo else lo + Pow2(h - 1);
      var rest := if k < |left| then k else k - |left|;
      g := NeededIsSpared(xs, half, h - 1, S, rest);
      if g == h - 1 {
        WholeHalf(xs, lo, h, S, half, Needed(xs, lo, h, S)[k]);
      }
    }
  }

  /** A spared half of a block that is hit. */
  lemma WholeHalf(xs: seq<Hash>, lo: nat, h: nat, S: set<nat>, half: nat, hash: Hash)
    requires h > 0 && lo + Pow2(h) <= |xs| && Aligned(lo, h) && Hit(S, lo, h) && half in {lo, lo + Pow2(h - 1)}
    requires Spared(xs, half, h - 1, S, hash, h - 1)
    ensures Spared(xs, lo, h, S, hash, h - 1)
  {
    hide Root, First, Hit;
    var p := First(hash);
    assert p == half;
    PowIsPositive(h - 1);
    ClearInBlock(lo, h, p);
  }

  /** They come from left to right. */
  lemma {:induction false} NeededAscends(xs: seq<Hash>, lo: nat, h: nat, S: set<nat>, k: nat, l: nat)
    requires lo + Pow2(h) <= |xs| && Indexed(xs) && Aligned(lo, h) && k < l < |Needed(xs, lo, h, S)|
    ensures First(Needed(xs, lo, h, S)[k]) < First(Needed(xs, lo, h, S)[l])
    decreases h
  {
    hide Root, First, Hit;
    NeededHalves(xs, lo, h, S);
    AlignedStep(lo, h - 1);
    var left := Needed(xs, lo, h - 1, S);
    if l < |left| {
      NeededAscends(xs, lo, h - 1, S, k, l);
    } else if k >= |left| {
      NeededAscends(xs, lo + Pow2(h - 1), h - 1, S, k - |left|, l - |left|);
    } else {
      var g := NeededIsSpared(xs, lo, h - 1, S, k);
      var f := NeededIsSpared(xs, lo + Pow2(h - 1), h - 1, S, l - |left|);
      PowIsPositive(g);
    }
  }

  /** And none is missing: every leaf of the block outside S is below one of them. */
  lemma {:induction false} NeededCovers(xs: seq<Hash>, lo: nat, h: nat, S: set<nat>, i: nat) returns (k: nat)
    requires lo + Pow2(h) <= |xs| && Indexed(xs) && lo <= i < lo + Pow2(h) && i !in S
    ensures k < |Needed(xs, lo, h, S)| && xs[i] in Frontier(Needed(xs, lo, h, S)[k])
    decreases h
  {
    hide Root, Frontier;
    if !Hit(S, lo, h) {
      RootReads(xs, lo, h);
      assert xs[lo..lo + Pow2(h)][i - lo] == xs[i];
      k := 0;
    } else {
      assert h > 0;
      NeededHalves(xs, lo, h, S);
      if i < lo + Pow2(h - 1) {
        k := NeededCovers(xs, lo, h - 1, S, i);
      } else {
        k := NeededCovers(xs, lo + Pow2(h - 1), h - 1, S, i);
        k := k + |Needed(xs, lo, h - 1, S)|;
      }
    }
  }

  /** The trees follow each other, the smallest first. */
  lemma {:induction false} MultiproofIsSpared(xs: seq<Hash>, S: set<nat>, from: nat, k: nat) returns (t: nat, g: nat)
    requires Indexed(xs) && k < |MultiproofFrom(xs, S, from)|
    ensures from <= t && Bit(|xs|, t) && Hit(S, TreeStart(|xs|, t), t)
    ensures var hash := MultiproofFrom(xs, S, from)[k];
      Spared(xs, TreeStart(|xs|, t), t, S, hash, g) && First(hash) < |xs| && TreeHeight(|xs|, First(hash)) == t
    decreases MAX_TREES - from
  {
    hide Needed, First, Hit, Root, TreeStart, TreeHeight;
    var here := TreeNeeded(xs, S, from);
    if k < |here| {
      TreeFits(|xs|, from);
      t := from;
      g := NeededIsSpared(xs, TreeStart(|xs|, t), t, S, k);
      PowIsPositive(g);
      InTree(|xs|, t, First(here[k]));
    } else {
      t, g := MultiproofIsSpared(xs, S, from + 1, k - |here|);
    }
  }

  /** The hashes of a multiproof come by tree, the smallest first, and from left to right in each. */
  lemma {:induction false} MultiproofAscends(xs: seq<Hash>, S: set<nat>, from: nat, k: nat, l: nat)
    requires Indexed(xs) && k < l < |MultiproofFrom(xs, S, from)|
    ensures var p, q := First(MultiproofFrom(xs, S, from)[k]), First(MultiproofFrom(xs, S, from)[l]);
      p < |xs| && q < |xs| &&
      (TreeHeight(|xs|, p) < TreeHeight(|xs|, q) || (TreeHeight(|xs|, p) == TreeHeight(|xs|, q) && p < q))
    decreases MAX_TREES - from
  {
    hide Needed, First, Hit, Root, TreeStart, TreeHeight;
    var here := TreeNeeded(xs, S, from);
    var t, g := MultiproofIsSpared(xs, S, from, k);
    var u, f := MultiproofIsSpared(xs, S, from, l);
    if l < |here| {
      TreeFits(|xs|, from);
      NeededAscends(xs, TreeStart(|xs|, from), from, S, k, l);
      InHere(xs, S, from, k);
      InHere(xs, S, from, l);
    } else if k >= |here| {
      MultiproofAscends(xs, S, from + 1, k - |here|, l - |here|);
    } else {
      InHere(xs, S, from, k);
      var v, e := MultiproofIsSpared(xs, S, from + 1, l - |here|);
    }
  }

  lemma InHere(xs: seq<Hash>, S: set<nat>, t: nat, k: nat)
    requires Indexed(xs) && k < |TreeNeeded(xs, S, t)|
    ensures First(TreeNeeded(xs, S, t)[k]) < |xs| && TreeHeight(|xs|, First(TreeNeeded(xs, S, t)[k])) == t
  {
    hide Needed, First, Hit, Root, TreeStart, TreeHeight;
    TreeFits(|xs|, t);
    var g := NeededIsSpared(xs, TreeStart(|xs|, t), t, S, k);
    PowIsPositive(g);
    InTree(|xs|, t, First(TreeNeeded(xs, S, t)[k]));
  }

  /** Every leaf of a tree that S hits, save those of S, is below one of the hashes. */
  lemma {:induction false} MultiproofCovers(xs: seq<Hash>, S: set<nat>, from: nat, i: nat) returns (k: nat)
    requires Indexed(xs) && i < |xs| && i !in S && from <= TreeHeight(|xs|, i) < MAX_TREES
    requires Hit(S, TreeStart(|xs|, TreeHeight(|xs|, i)), TreeHeight(|xs|, i))
    ensures k < |MultiproofFrom(xs, S, from)| && xs[i] in Frontier(MultiproofFrom(xs, S, from)[k])
    decreases MAX_TREES - from
  {
    hide Needed, Frontier, Hit, Root, TreeStart, TreeHeight;
    var t := TreeHeight(|xs|, i);
    TreeOf(|xs|, i);
    if from == t {
      TreeFits(|xs|, t);
      k := NeededCovers(xs, TreeStart(|xs|, t), t, S, i);
    } else {
      k := MultiproofCovers(xs, S, from + 1, i);
      k := k + |TreeNeeded(xs, S, from)|;
    }
  }
}
