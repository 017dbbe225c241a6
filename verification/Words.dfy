/**
  64-bit words, with the operations of Go's math/bits that the wide
  arithmetic is built from.
 */
module Words {
  import opened Bits

  const WORD: nat := 0x1_0000_0000_0000_0000

  type Word = x: nat | x < WORD

  /** bits.Add64 */
  function Add64(x: Word, y: Word, carry: Word): (r: (Word, Word))
    requires carry <= 1
    ensures r.0 + r.1 * WORD == x + y + carry && r.1 <= 1
  {
    ((x + y + carry) % WORD, (x + y + carry) / WORD)
  }

  /** bits.Sub64 */
  function Sub64(x: Word, y: Word, borrow: Word): (r: (Word, Word))
    requires borrow <= 1
    ensures r.0 + y + borrow == x + r.1 * WORD && r.1 <= 1
  {
    if x >= y + borrow then (x - y - borrow, 0) else (x + WORD - y - borrow, 1)
  }

  /** bits.Mul64: (hi, lo) */
  function Mul64(x: Word, y: Word): (r: (Word, Word))
    ensures r.0 * WORD + r.1 == x * y
  {
    ProductFits(x, y);
    (x * y / WORD, x * y % WORD)
  }

  lemma ProductFits(x: Word, y: Word)
    ensures x * y / WORD < WORD
    ensures x * y <= (WORD - 1) * (WORD - 1)
  {
    Times(x, WORD - 1, y);
    Times(y, WORD - 1, WORD - 1);
  }

  lemma Times(a: nat, b: nat, c: nat)
    requires a <= b
    ensures a * c <= b * c && c * a <= c * b
  {
  }

  lemma Dist(x: int, y: int, z: int)
    ensures (x + y) * z == x * z + y * z && z * (x + y) == z * x + z * y
  {
  }

  lemma Assoc(x: int, y: int, z: int)
    ensures x * y * z == x * (y * z) && x * y * z == x * z * y
  {
  }

  /** bits.Div64: (quotient, remainder); it panics if y == 0 or y <= hi. */
  function Div64(hi: Word, lo: Word, y: Word): (r: (Word, Word))
    requires hi < y
    ensures r.0 * y + r.1 == hi * WORD + lo && r.1 < y
  {
    var n := hi * WORD + lo;
    QuotientFits(n, y, WORD);
    (n / y, n % y)
  }

  lemma QuotientFits(n: nat, y: nat, limit: nat)
    requires y > 0 && n < y * limit
    ensures n / y < limit && n / y * y + n % y == n
  {
    if n / y >= limit {
      Times(limit, n / y, y);
    }
  }

  /** bits.LeadingZeros64, for a word that is not zero */
  function LeadingZeros64(x: Word): (n: nat)
    requires x > 0
    ensures n <= 63 && WORD / 2 <= x * Pow2(n) < WORD
  {
    LeadingZerosMeaning(x, 0);
    LeadingZeros(x, 0)
  }

  function LeadingZeros(x: Word, k: nat): nat
    decreases 63 - k
  {
    if k >= 63 || x * Pow2(k) >= WORD / 2 then k else LeadingZeros(x, k + 1)
  }

  lemma {:induction false} LeadingZerosMeaning(x: Word, k: nat)
    requires 0 < x && k <= 63 && x * Pow2(k) < WORD
    ensures LeadingZeros(x, k) <= 63 && WORD / 2 <= x * Pow2(LeadingZeros(x, k)) < WORD
    decreases 63 - k
  {
    hide Pow2;
    Pow2Of63();
    if k == 63 {
      Times(1, x, Pow2(63));
    } else {
      Pow2Next(k);
      DoubleProduct(x, Pow2(k));
      if x * Pow2(k) < WORD / 2 {
        LeadingZerosMeaning(x, k + 1);
      }
    }
  }

  lemma Pow2Next(k: nat)
    ensures Pow2(k + 1) == 2 * Pow2(k)
  {
  }

  lemma DoubleProduct(x: nat, p: nat)
    ensures x * (2 * p) == 2 * (x * p)
  {
  }

  lemma Pow2Of63()
    ensures Pow2(63) == WORD / 2 && Pow2(64) == WORD
  {
    hide Pow2;
    Pow2Value();
    Pow2Sum(62, 1);
    Pow2Sum(63, 1);
    Pow2Small();
  }

  lemma {:induction false} Pow2Sum(a: nat, b: nat)
    ensures Pow2(a + b) == Pow2(a) * Pow2(b)
    decreases b
  {
    if b > 0 {
      Pow2Sum(a, b - 1);
    }
  }

  lemma Pow2Small()
    ensures Pow2(1) == 2 && Pow2(2) == 4 && Pow2(4) == 16
  {
  }

  lemma Pow2Value()
    ensures Pow2(62) == 0x4000_0000_0000_0000
  {
    hide Pow2;
    Pow2Small();
    Pow2Sum(4, 4);
    Pow2Sum(8, 8);
    Pow2Sum(16, 16);
    Pow2Sum(32, 16);
    Pow2Sum(48, 8);
    Pow2Sum(56, 4);
    Pow2Sum(60, 2);
  }

  /** x << n: the bits shifted out are lost. */
  function Left(x: Word, n: nat): Word {
    x * Pow2(n) % WORD
  }

  /** x >> n */
  function Right(x: Word, n: nat): (r: Word)
    ensures r == x / Pow2(n)
  {
    Smaller(x, Pow2(n));
    x / Pow2(n)
  }

  lemma Smaller(x: nat, d: nat)
    requires d > 0
    ensures x / d <= x
  {
    var q := x / d;
    assert q * d + x % d == x;
    Times(1, d, q);
  }

  /** x | y */
  function Or(x: nat, y: nat): nat
    decreases x + y
  {
    if x == 0 && y == 0 then 0
    else 2 * Or(x / 2, y / 2) + if x % 2 == 1 || y % 2 == 1 then 1 else 0
  }

  /** x | y, for words */
  function OrWord(x: Word, y: Word): (r: Word)
    ensures r == Or(x, y)
  {
    Pow2Of63();
    OrFits(x, y, 64);
    Or(x, y)
  }

  lemma {:induction false} OrFits(x: nat, y: nat, n: nat)
    requires x < Pow2(n) && y < Pow2(n)
    ensures Or(x, y) < Pow2(n)
    decreases n
  {
    if n > 0 {
      OrFits(x / 2, y / 2, n - 1);
    }
  }

  /** With no bits in common, or is a sum. */
  lemma {:induction false} OrIsSum(a: nat, y: nat, n: nat)
    requires y < Pow2(n)
    ensures Or(a * Pow2(n), y) == a * Pow2(n) + y
    decreases n
  {
    var x := a * Pow2(n);
    if n == 0 {
      OrZero(x);
    } else {
      assert x == 2 * (a * Pow2(n - 1));
      OrIsSum(a, y / 2, n - 1);
    }
  }

  lemma {:induction false} OrZero(x: nat)
    ensures Or(x, 0) == x
  {
    if x > 0 {
      OrZero(x / 2);
    }
  }
}
