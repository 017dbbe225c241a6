/**
  Bit arithmetic on leaf positions (merkle/accumulator.go:24-31).

  A machine word is a natural number, and every operation is defined by
  halving, so that reasoning about positions stays linear.
 */
module Bits {

  /** 1 << n */
  function Pow2(n: nat): (p: nat)
    ensures p >= 1
  {
    if n == 0 then 1 else 2 * Pow2(n - 1)
  }

  /** x >> n */
  function Shr(x: nat, n: nat): nat
    decreases n
  {
    if n == 0 then x else Shr(x / 2, n - 1)
  }

  /** x & (1 << k) != 0 */
  predicate Bit(x: nat, k: nat)
    decreases k
  {
    if k == 0 then x % 2 == 1 else Bit(x / 2, k - 1)
  }

  /** x ^ y */
  function Xor(x: nat, y: nat): nat
    decreases x + y
  {
    if x == 0 && y == 0 then 0
    else 2 * Xor(x / 2, y / 2) + (x % 2 + y % 2) % 2
  }

  /** bits.Len64(x) */
  function Len64(x: nat): nat {
    if x == 0 then 0 else 1 + Len64(x / 2)
  }

  /** Where the paths of positions x and y come together. */
  function MergeHeight(x: nat, y: nat): nat {
    Len64(Xor(x, y))
  }

  /** bits.TrailingZeros64(x) */
  function TrailingZeros64(x: nat): nat
    requires x > 0
  {
    if x % 2 == 1 then 0 else 1 + TrailingZeros64(x / 2)
  }

  lemma {:induction false} TrailingZerosOfPow2(k: nat)
    ensures TrailingZeros64(Pow2(k)) == k
  {
    if k > 0 {
      TrailingZerosOfPow2(k - 1);
    }
  }

  /** x with its k least significant bits cleared. */
  function ClearBits(x: nat, k: nat): nat
    decreases k
  {
    if k == 0 then x else 2 * ClearBits(x / 2, k - 1)
  }

  /** x is a multiple of 2^k. */
  ghost predicate Aligned(x: nat, k: nat)
    decreases k
  {
    k == 0 || (x % 2 == 0 && Aligned(x / 2, k - 1))
  }

  // ---------------------------------------------------------------- clearing

  lemma {:induction false} ClearBounds(x: nat, k: nat)
    ensures Aligned(ClearBits(x, k), k)
    ensures ClearBits(x, k) <= x < ClearBits(x, k) + Pow2(k)
    decreases k
  {
    if k > 0 {
      ClearBounds(x / 2, k - 1);
    }
  }

  lemma {:induction false} ClearStep(x: nat, k: nat)
    ensures ClearBits(x, k) == ClearBits(x, k + 1) + (if Bit(x, k) then Pow2(k) else 0)
    decreases k
  {
    if k > 0 {
      ClearStep(x / 2, k - 1);
    }
  }

  lemma {:induction false} AlignedStep(x: nat, k: nat)
    requires Aligned(x, k + 1)
    ensures Aligned(x, k) && Aligned(x + Pow2(k), k)
    decreases k
  {
    if k > 0 {
      AlignedStep(x / 2, k - 1);
      assert (x + Pow2(k)) / 2 == x / 2 + Pow2(k - 1);
    }
  }

  lemma {:induction false} AlignedDown(x: nat, j: nat, k: nat)
    requires j <= k && Aligned(x, k)
    ensures Aligned(x, j)
    decreases j
  {
    if j > 0 {
      AlignedDown(x / 2, j - 1, k - 1);
    }
  }

  /** Positions of one aligned block share the block's start. */
  lemma {:induction false} ClearInBlock(lo: nat, k: nat, x: nat)
    requires Aligned(lo, k) && lo <= x < lo + Pow2(k)
    ensures ClearBits(x, k) == lo
    decreases k
  {
    if k > 0 {
      ClearInBlock(lo / 2, k - 1, x / 2);
    }
  }

  /** The bit below the block height says which half a position is in. */
  lemma {:induction false} BitIsSide(lo: nat, k: nat, x: nat)
    requires Aligned(lo, k + 1) && lo <= x < lo + Pow2(k + 1)
    ensures Bit(x, k) <==> x >= lo + Pow2(k)
    decreases k
  {
    if k > 0 {
      BitIsSide(lo / 2, k - 1, x / 2);
    }
  }

  lemma {:induction false} ClearMonotone(x: nat, y: nat, k: nat)
    requires x <= y
    ensures ClearBits(x, k) <= ClearBits(y, k)
    decreases k
  {
    if k > 0 {
      ClearMonotone(x / 2, y / 2, k - 1);
    }
  }

  /** Positions that agree above bit m agree above every higher bit. */
  lemma {:induction false} AgreeAbove(x: nat, y: nat, m: nat, k: nat)
    requires m <= k && ClearBits(x, m) == ClearBits(y, m)
    ensures ClearBits(x, k) == ClearBits(y, k) && (Bit(x, k) <==> Bit(y, k))
    decreases k
  {
    if k > 0 {
      if m == 0 {
      } else {
        AgreeAbove(x / 2, y / 2, m - 1, k - 1);
      }
    }
  }

  // ---------------------------------------------------------------- merging

  lemma {:induction false} MergeStep(x: nat, y: nat)
    ensures MergeHeight(x, y) == if x == y then 0 else 1 + MergeHeight(x / 2, y / 2)
    decreases x + y
  {
    if x != 0 || y != 0 {
      MergeStep(x / 2, y / 2);
      assert x == 2 * (x / 2) + x % 2 && y == 2 * (y / 2) + y % 2;
      assert Xor(x, y) / 2 == Xor(x / 2, y / 2);
    }
  }

  /** MergeHeight(x, y) is the least height at which x and y share an aligned block. */
  lemma {:induction false} MergeMeaning(x: nat, y: nat, k: nat)
    ensures MergeHeight(x, y) <= k <==> ClearBits(x, k) == ClearBits(y, k)
    decreases k
  {
    MergeStep(x, y);
    if k > 0 {
      MergeMeaning(x / 2, y / 2, k - 1);
    }
  }

  lemma {:induction false} MergeSymmetric(x: nat, y: nat)
    ensures MergeHeight(x, y) == MergeHeight(y, x)
    decreases x + y
  {
    MergeStep(x, y);
    MergeStep(y, x);
    if x != y {
      MergeSymmetric(x / 2, y / 2);
    }
  }

  // ---------------------------------------------------------------- forests

  /** First leaf of the tree of height h in a forest of n leaves. */
  function TreeStart(n: nat, h: nat): nat {
    ClearBits(n, h + 1)
  }

  /** Height of the tree that holds leaf p in a forest of n leaves. */
  function TreeHeight(n: nat, p: nat): nat
    requires p < n
  {
    MergeStep(n, p);
    MergeHeight(n, p) - 1
  }

  lemma {:induction false} TreeFits(n: nat, h: nat)
    requires Bit(n, h)
    ensures TreeStart(n, h) + Pow2(h) <= n < TreeStart(n, h) + Pow2(h + 1)
    ensures Aligned(TreeStart(n, h), h + 1) && Aligned(TreeStart(n, h), h)
  {
    ClearBounds(n, h);
    ClearBounds(n, h + 1);
    ClearStep(n, h);
    AlignedStep(TreeStart(n, h), h);
  }

  /** Every leaf lies in exactly one tree, the one TreeHeight names. */
  lemma {:induction false} TreeOf(n: nat, p: nat)
    requires p < n
    ensures Bit(n, TreeHeight(n, p))
    ensures TreeStart(n, TreeHeight(n, p)) <= p < TreeStart(n, TreeHeight(n, p)) + Pow2(TreeHeight(n, p))
    ensures ClearBits(p, TreeHeight(n, p)) == TreeStart(n, TreeHeight(n, p))
    decreases n
  {
    MergeStep(n, p);
    if n / 2 == p / 2 {
      MergeStep(n / 2, p / 2);
    } else {
      MergeStep(n / 2, p / 2);
      TreeOf(n / 2, p / 2);
    }
    TreeFits(n, TreeHeight(n, p));
    ClearInBlock(TreeStart(n, TreeHeight(n, p)), TreeHeight(n, p), p);
  }

  lemma {:induction false} InTree(n: nat, h: nat, p: nat)
    requires Bit(n, h) && TreeStart(n, h) <= p < TreeStart(n, h) + Pow2(h)
    ensures p < n && TreeHeight(n, p) == h
    decreases h
  {
    TreeFits(n, h);
    MergeStep(n, p);
    if h == 0 {
      MergeStep(n / 2, p / 2);
    } else {
      InTree(n / 2, h - 1, p / 2);
    }
  }

  lemma {:induction false} Pow2Monotone(a: nat, b: nat)
    requires a <= b
    ensures Pow2(a) <= Pow2(b)
    decreases b
  {
    if a < b {
      Pow2Monotone(a, b - 1);
    }
  }

  lemma {:induction false} BitBound(n: nat, h: nat, w: nat)
    requires Bit(n, h) && n < Pow2(w)
    ensures h < w
  {
    TreeFits(n, h);
    if w <= h {
      Pow2Monotone(w, h);
    }
  }

  lemma {:induction false} IncrementBit(n: nat, k: nat, j: nat)
    requires ClearBits(n, k) + Pow2(k) == n + 1 && !Bit(n, k)
    ensures Bit(n + 1, j) <==> j == k || (j > k && Bit(n, j))
    decreases k
  {
    if k == 0 {
      assert (n + 1) / 2 == n / 2;
    } else {
      assert n % 2 == 1 && (n + 1) / 2 == n / 2 + 1;
      if j > 0 {
        IncrementBit(n / 2, k - 1, j - 1);
      }
    }
  }

  lemma {:induction false} IncrementClear(n: nat, k: nat, j: nat)
    requires ClearBits(n, k) + Pow2(k) == n + 1 && !Bit(n, k) && j > k
    ensures ClearBits(n + 1, j) == ClearBits(n, j)
    decreases k
  {
    if k == 0 {
      assert (n + 1) / 2 == n / 2;
    } else {
      assert n % 2 == 1 && (n + 1) / 2 == n / 2 + 1;
      IncrementClear(n / 2, k - 1, j - 1);
    }
  }

  /** Adding one to n when its k lowest bits are set and bit k is clear. */
  lemma Increment(n: nat, k: nat, j: nat)
    requires ClearBits(n, k) + Pow2(k) == n + 1 && !Bit(n, k)
    ensures Bit(n + 1, j) <==> j == k || (j > k && Bit(n, j))
    ensures j > k ==> ClearBits(n + 1, j) == ClearBits(n, j)
    ensures TreeStart(n + 1, k) == ClearBits(n, k)
  {
    IncrementBit(n, k, j);
    if j > k {
      IncrementClear(n, k, j);
    }
    IncrementClear(n, k, k + 1);
    ClearStep(n, k);
  }
}
