/**
  The meaning of roots and proofs: Merkle trees over an explicit list of
  leaf hashes, and how they relate to ProofRoot (merkle/accumulator.go:33-54).
 */
module Merkle {
  import opened Bits
  import opened Types

  /** Root of the tree over the 2^h leaves of xs that start at lo. */
  function Root(xs: seq<Hash>, lo: nat, h: nat): Hash
    requires lo + Pow2(h) <= |xs|
    decreases h
  {
    if h == 0 then xs[lo]
    else NodeHash(Root(xs, lo, h - 1), Root(xs, lo + Pow2(h - 1), h - 1))
  }

  /** Start of the block of 2^k leaves next to the one that holds p. */
  function SiblingStart(p: nat, k: nat): nat {
    if Bit(p, k) then ClearBits(p, k + 1) else ClearBits(p, k) + Pow2(k)
  }

  /** The whole block of height h around p lies within n leaves. */
  ghost predicate BlockFits(n: nat, p: nat, h: nat) {
    ClearBits(p, h) + Pow2(h) <= n
  }

  lemma SiblingFits(p: nat, k: nat)
    ensures ClearBits(p, k + 1) <= ClearBits(p, k)
    ensures ClearBits(p, k) + Pow2(k) <= ClearBits(p, k + 1) + Pow2(k + 1)
    ensures ClearBits(p, k + 1) <= SiblingStart(p, k)
    ensures SiblingStart(p, k) + Pow2(k) <= ClearBits(p, k + 1) + Pow2(k + 1)
  {
    ClearStep(p, k);
  }

  /** The siblings met on the way from leaf p up to height h. */
  function Path(xs: seq<Hash>, p: nat, h: nat): (path: seq<Hash>)
    requires BlockFits(|xs|, p, h)
    ensures |path| == h
    decreases h
  {
    if h == 0 then []
    else
      SiblingFits(p, h - 1);
      Path(xs, p, h - 1) + [Root(xs, SiblingStart(p, h - 1), h - 1)]
  }

  /** The root derived from a leaf hash, its index, and a proof. */
  function ProofRoot(leaf: Hash, index: nat, proof: seq<Hash>): Hash {
    if proof == [] then leaf
    else
      var k := |proof| - 1;
      var below := ProofRoot(leaf, index, proof[..k]);
      if Bit(index, k) then NodeHash(proof[k], below) else NodeHash(below, proof[k])
  }

  /** The source's loop computes ProofRoot. */
  method ComputeProofRoot(leaf: Hash, index: nat, proof: seq<Hash>) returns (root: Hash)
    ensures root == ProofRoot(leaf, index, proof)
  {
    root := leaf;
    for i := 0 to |proof|
      invariant root == ProofRoot(leaf, index, proof[..i])
    {
      assert proof[..i + 1][..i] == proof[..i];
      if !Bit(index, i) {
        root := NodeHash(root, proof[i]);
      } else {
        root := NodeHash(proof[i], root);
      }
    }
    assert proof[..|proof|] == proof;
  }

  // ---------------------------------------------------------------- paths

  lemma {:induction false} BlocksNest(n: nat, p: nat, k: nat, h: nat)
    requires k <= h && BlockFits(n, p, h)
    ensures BlockFits(n, p, k)
    decreases h
  {
    if k < h {
      SiblingFits(p, h - 1);
      BlocksNest(n, p, k, h - 1);
    }
  }

  /** Entry k of a path is the root of the sibling block at height k. */
  lemma {:induction false} PathAt(xs: seq<Hash>, p: nat, h: nat, k: nat)
    requires k < h && BlockFits(|xs|, p, h)
    ensures SiblingStart(p, k) + Pow2(k) <= |xs|
    ensures Path(xs, p, h)[k] == Root(xs, SiblingStart(p, k), k)
    decreases h
  {
    SiblingFits(p, h - 1);
    if k < h - 1 {
      PathAt(xs, p, h - 1, k);
    }
  }

  lemma {:induction false} PathPrefix(xs: seq<Hash>, p: nat, k: nat, h: nat)
    requires k <= h && BlockFits(|xs|, p, h)
    ensures BlockFits(|xs|, p, k)
    ensures Path(xs, p, h)[..k] == Path(xs, p, k)
    decreases h
  {
    if k < h {
      SiblingFits(p, h - 1);
      PathPrefix(xs, p, k, h - 1);
    }
  }

  /** Completeness: a leaf and its path yield the root of the block above it. */
  lemma {:induction false} PathIsProof(xs: seq<Hash>, p: nat, h: nat)
    requires BlockFits(|xs|, p, h)
    ensures p < |xs|
    ensures ProofRoot(xs[p], p, Path(xs, p, h)) == Root(xs, ClearBits(p, h), h)
    decreases h
  {
    ClearBounds(p, h);
    if h > 0 {
      SiblingFits(p, h - 1);
      ClearStep(p, h - 1);
      PathIsProof(xs, p, h - 1);
      assert Path(xs, p, h)[..h - 1] == Path(xs, p, h - 1);
    }
  }

  /** The leaf of the block at lo that the low bits of an index point to. */
  function Landing(lo: nat, index: nat, h: nat): (q: nat)
    ensures lo <= q < lo + Pow2(h)
  {
    ClearBounds(index, h);
    lo + (index - ClearBits(index, h))
  }

  lemma {:induction false} LandingBits(lo: nat, index: nat, h: nat)
    requires Aligned(lo, h)
    ensures ClearBits(Landing(lo, index, h), h) == lo
    ensures forall k: nat :: k < h ==> (Bit(Landing(lo, index, h), k) <==> Bit(index, k))
    decreases h
  {
    ClearInBlock(lo, h, Landing(lo, index, h));
    if h > 0 {
      var q := Landing(lo, index, h);
      assert q / 2 == Landing(lo / 2, index / 2, h - 1) && q % 2 == index % 2;
      LandingBits(lo / 2, index / 2, h - 1);
      forall k: nat | k < h
        ensures Bit(q, k) <==> Bit(index, k)
      {
        if k > 0 {
          assert Bit(q / 2, k - 1) <==> Bit(index / 2, k - 1);
        }
      }
    }
  }

  lemma LandingHalf(lo: nat, index: nat, h: nat) returns (half: nat)
    requires h > 0 && Aligned(lo, h)
    ensures half == if Bit(index, h - 1) then lo + Pow2(h - 1) else lo
    ensures Aligned(half, h - 1) && Landing(half, index, h - 1) == Landing(lo, index, h)
    ensures SiblingStart(Landing(lo, index, h), h - 1) == if Bit(index, h - 1) then lo else lo + Pow2(h - 1)
    ensures ClearBits(Landing(lo, index, h), h - 1) == half
  {
    half := if Bit(index, h - 1) then lo + Pow2(h - 1) else lo;
    AlignedStep(lo, h - 1);
    ClearStep(index, h - 1);
    LandingBits(lo, index, h);
    var q := Landing(lo, index, h);
    assert Bit(q, h - 1) <==> Bit(index, h - 1);
    ClearStep(q, h - 1);
  }

  /**
    Soundness: with collision-free hashing, whatever reaches the root of a
    block is the leaf its index bits point to, and the proof is that leaf's path.
   */
  lemma {:induction false} ProofIsPath(xs: seq<Hash>, lo: nat, leaf: Hash, index: nat, proof: seq<Hash>)
    requires Aligned(lo, |proof|) && lo + Pow2(|proof|) <= |xs|
    requires ProofRoot(leaf, index, proof) == Root(xs, lo, |proof|)
    ensures leaf == xs[Landing(lo, index, |proof|)]
    ensures ClearBits(Landing(lo, index, |proof|), |proof|) == lo
    ensures proof == Path(xs, Landing(lo, index, |proof|), |proof|)
    decreases |proof|
  {
    var h := |proof|;
    LandingBits(lo, index, h);
    if h > 0 {
      var half := LandingHalf(lo, index, h);
      ProofIsPath(xs, half, leaf, index, proof[..h - 1]);
      hide Landing, Aligned, Bit, ClearBits;
      assert proof == proof[..h - 1] + [proof[h - 1]];
    }
  }

  // ---------------------------------------------------------------- locality

  /** xs and ys agree on the 2^h leaves from lo. */
  ghost predicate SameBlock(xs: seq<Hash>, ys: seq<Hash>, lo: nat, h: nat) {
    lo + Pow2(h) <= |xs| && lo + Pow2(h) <= |ys| &&
    forall i :: lo <= i < lo + Pow2(h) ==> xs[i] == ys[i]
  }

  lemma {:induction false} RootLocal(xs: seq<Hash>, ys: seq<Hash>, lo: nat, h: nat)
    requires SameBlock(xs, ys, lo, h)
    ensures Root(xs, lo, h) == Root(ys, lo, h)
    decreases h
  {
    if h > 0 {
      RootLocal(xs, ys, lo, h - 1);
      RootLocal(xs, ys, lo + Pow2(h - 1), h - 1);
    }
  }

  /** A path depends only on the block around its leaf. */
  lemma {:induction false} PathLocal(xs: seq<Hash>, ys: seq<Hash>, p: nat, h: nat)
    requires SameBlock(xs, ys, ClearBits(p, h), h)
    ensures Path(xs, p, h) == Path(ys, p, h)
    decreases h
  {
    if h > 0 {
      SiblingFits(p, h - 1);
      PathLocal(xs, ys, p, h - 1);
      RootLocal(xs, ys, SiblingStart(p, h - 1), h - 1);
    }
  }

  /** Paths of two leaves are the same above the height at which they merge. */
  lemma {:induction false} PathsMerge(xs: seq<Hash>, p: nat, q: nat, m: nat, h: nat)
    requires m <= h && BlockFits(|xs|, p, h) && ClearBits(p, m) == ClearBits(q, m)
    ensures BlockFits(|xs|, q, h)
    ensures Path(xs, p, h)[m..] == Path(xs, q, h)[m..]
    decreases h
  {
    AgreeAbove(p, q, m, h);
    if m < h {
      AgreeAbove(p, q, m, h - 1);
      SiblingFits(p, h - 1);
      PathsMerge(xs, p, q, m, h - 1);
      assert SiblingStart(p, h - 1) == SiblingStart(q, h - 1);
    }
  }
}
