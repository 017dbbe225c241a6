/**
  128-bit currency values (currency.go:25-201).
 */
module Currency {
  import opened Bits
  import opened Words
  import Validation
  import Ledger

  const LIMIT: nat := WORD * WORD

  datatype Currency = Currency(lo: Word, hi: Word) {
    function Value(): (v: nat)
      ensures v < LIMIT
    {
      hi * WORD + lo
    }
  }

  /** An operation that panics has no result. */
  datatype Option<T> = Some(value: T) | None

  function Cmp(c: Currency, v: Currency): (r: int)
    ensures r == 0 <==> c.Value() == v.Value()
    ensures r < 0 <==> c.Value() < v.Value()
  {
    if c == v then 0
    else if c.hi < v.hi || (c.hi == v.hi && c.lo < v.lo) then -1
    else 1
  }

  /** AddWithOverflow wraps, and says so; validation sums values with it. */
  function AddWithOverflow(c: Currency, v: Currency): (r: (Currency, bool))
    ensures r.0.Value() == Validation.AddWithOverflow(c.Value(), v.Value()).0
    ensures r.1 == Validation.AddWithOverflow(c.Value(), v.Value()).1
  {
    var lo := Add64(c.lo, v.lo, 0);
    var hi := Add64(c.hi, v.hi, lo.1);
    (Currency(lo.0, hi.0), hi.1 != 0)
  }

  function Add(c: Currency, v: Currency): (r: Option<Currency>)
    ensures r.Some? <==> c.Value() + v.Value() < LIMIT
    ensures r.Some? ==> r.value.Value() == c.Value() + v.Value()
  {
    var s := AddWithOverflow(c, v);
    if s.1 then None else Some(s.0)
  }

  function SubWithUnderflow(c: Currency, v: Currency): (r: (Currency, bool))
    ensures r.1 <==> c.Value() < v.Value()
    ensures r.0.Value() == if r.1 then c.Value() + LIMIT - v.Value() else c.Value() - v.Value()
  {
    var lo := Sub64(c.lo, v.lo, 0);
    var hi := Sub64(c.hi, v.hi, lo.1);
    (Currency(lo.0, hi.0), hi.1 != 0)
  }

  function Sub(c: Currency, v: Currency): (r: Option<Currency>)
    ensures r.Some? <==> v.Value() <= c.Value()
    ensures r.Some? ==> r.value.Value() == c.Value() - v.Value()
  {
    var s := SubWithUnderflow(c, v);
    if s.1 then None else Some(s.0)
  }

  /** Mul64 panics exactly when the product does not fit. */
  method Mul64(c: Currency, v: Word) returns (r: Option<Currency>)
    ensures r.Some? <==> c.Value() * v < LIMIT
    ensures r.Some? ==> r.value.Value() == c.Value() * v
  {
    var p0 := Words.Mul64(c.lo, v);
    var p1 := Words.Mul64(c.hi, v);
    var s := Add64(p0.0, p1.1, 0);
    Distribute(c.hi, c.lo, v);
    if p1.0 != 0 || s.1 != 0 {
      return None;
    }
    return Some(Currency(p0.1, s.0));
  }

  lemma Distribute(hi: nat, lo: nat, v: nat)
    ensures (hi * WORD + lo) * v == (hi * v) * WORD + lo * v
  {
  }

  /** quoRem64; it panics if v == 0. */
  method QuoRem64(c: Currency, v: Word) returns (q: Currency, r: Word)
    requires v != 0
    ensures c.Value() == q.Value() * v + r && r < v
  {
    if c.hi < v {
      var d := Div64(c.hi, c.lo, v);
      q, r := Currency(d.0, 0), d.1;
    } else {
      var d1 := Div64(0, c.hi, v);
      var d0 := Div64(d1.1, c.lo, v);
      q, r := Currency(d0.0, d1.0), d0.1;
      Distribute(d1.0, d0.0, v);
    }
  }

  // ---------------------------------------------------------------- the trial quotient

  /** v << n, for n leading zeros, loses nothing. */
  lemma Normalised(v: Currency, n: nat)
    requires v.hi > 0 && n == LeadingZeros64(v.hi)
    ensures var v1 := Currency(Left(v.lo, n), OrWord(Left(v.hi, n), Right(v.lo, 64 - n)));
      v1.Value() == v.Value() * Pow2(n) && v1.hi >= WORD / 2
  {
    hide Pow2, Or, LeadingZeros64;
    var p, s := Pow2(n), Pow2(64 - n);
    Pow2Sum(n, 64 - n);
    Pow2Of63();
    SplitShift(v.lo, p, s);
    assert Left(v.hi, n) == v.hi * p;
    OrIsSum(v.hi, Right(v.lo, 64 - n), n);
    Distribute(v.hi, v.lo, p);
  }

  /** What a left shift pushes out of the low word is what a right shift brings into the high one. */
  lemma SplitShift(x: Word, p: nat, s: nat)
    requires p * s == WORD && p > 0 && s > 0
    ensures x * p == x / s * WORD + x * p % WORD && x / s < p
  {
    var q, r := x / s, x % s;
    Dist(q * s, r, p);
    Assoc(q, s, p);
    Times(r, s - 1, p);
    Dist(s, -1, p);
    if q >= p {
      Times(p, q, s);
    }
    UniqueRemainder(x * p, q, r * p);
  }

  lemma UniqueRemainder(n: nat, q: nat, r: nat)
    requires n == q * WORD + r && r < WORD
    ensures n % WORD == r
  {
  }

  lemma Halved(c: Currency)
    ensures Currency(OrWord(Right(c.lo, 1), Left(c.hi, 63)), Right(c.hi, 1)).Value() == c.Value() / 2
  {
    hide Pow2, Or;
    Pow2Small();
    Pow2Of63();
    var a := c.hi % 2;
    assert Left(c.hi, 63) == a * Pow2(63);
    OrCommutes(Right(c.lo, 1), a * Pow2(63));
    OrIsSum(a, Right(c.lo, 1), 63);
  }

  lemma {:induction false} OrCommutes(x: nat, y: nat)
    ensures Or(x, y) == Or(y, x)
    decreases x + y
  {
    if x != 0 || y != 0 {
      OrCommutes(x / 2, y / 2);
    }
  }

  /** Dividing half of c by half of w is dividing c by w. */
  lemma HalfDivision(c: nat, h: nat, d: nat, e: nat)
    requires h > 0 && e > 0 && d == h * e
    ensures d > 0 && (c / 2 / h) / e == Quo(c, 2 * d)
  {
    Times(1, h, e);
    DivTwice(c / 2, h, e);
    DivTwice(c, 2, d);
  }

  lemma DivTwice(c: nat, a: nat, b: nat)
    requires a > 0 && b > 0
    ensures a * b > 0 && c / a / b == c / (a * b)
  {
    var x := c / a;
    Compose(c, a, b, x, c % a, x / b, x % b);
    UniqueQuotient(c, a * b, x / b, x % b * a + c % a);
  }

  lemma Compose(c: nat, a: nat, b: nat, x: nat, y: nat, q: nat, r: nat)
    requires c == x * a + y && y < a && x == q * b + r && r < b
    ensures c == q * (a * b) + (r * a + y) && r * a + y < a * b && a * b > 0
  {
    Dist(q * b, r, a);
    Assoc(q, b, a);
    Times(r, b - 1, a);
    Dist(b, -1, a);
    Times(1, b, a);
  }

  lemma UniqueQuotient(c: nat, d: nat, q: nat, r: nat)
    requires c == q * d + r && r < d
    ensures c / d == q
  {
    var q' := c / d;
    assert c == q' * d + c % d;
    if q' < q {
      Times(q' + 1, q, d);
    } else if q < q' {
      Times(q + 1, q', d);
    }
  }

  /** w is v with its low bits cut off, where v shifted by the zeros in front of it fills two words. */
  ghost predicate Close(c: nat, v: nat, w: nat, p: nat, s: nat) {
    p * s == WORD && s >= 2 && (s == 2 || s >= 4) && 0 < w <= v < w + s && WORD / 2 * s <= w && c < LIMIT
  }

  /** The divisor v with its low bits cut off, w, is close enough: c / w is c / v or one more. */
  lemma TrialBound(c: nat, v: nat, w: nat, p: nat, s: nat, q: nat, t: nat)
    requires Close(c, v, w, p, s)
    requires q * v <= c < (q + 1) * v && t * w <= c < (t + 1) * w
    ensures q <= t <= q + 1
  {
    Small(c, v, w, p, s, q);
    NoTwoMore(c, v, w, q, t);
    NotLess(c, v, w, q, t);
  }

  lemma NotLess(c: nat, v: nat, w: nat, q: nat, t: nat)
    requires w <= v && q * v <= c < (t + 1) * w
    ensures q <= t
  {
    if q > t {
      Times(t + 1, q, w);
      Times(w, v, q);
    }
  }

  lemma NoTwoMore(c: nat, v: nat, w: nat, q: nat, t: nat)
    requires w <= v && c < (q + 1) * v && t * w <= c && (q + 1) * (v - w) <= w
    ensures t <= q + 1
  {
    Dist(w, v - w, q + 1);
    Dist(q + 1, 1, w);
    if t >= q + 2 {
      Times(q + 2, t, w);
    }
  }

  /** c / d */
  function Quo(c: nat, d: nat): (q: nat)
    requires d > 0
    ensures q * d <= c < (q + 1) * d
  {
    c / d
  }

  lemma Small(c: nat, v: nat, w: nat, p: nat, s: nat, q: nat)
    requires p * s == WORD && s >= 2 && (s == 2 || s >= 4)
    requires w <= v < w + s && WORD / 2 * s <= w && c < LIMIT && q * v <= c
    ensures (q + 1) * (v - w) <= w
  {
    SmallQuotient(c, v, p, s, q);
    Times(q + 1, 2 * p, v - w);
    Times(v - w, s - 1, 2 * p);
    Gap(p, s);
  }

  lemma SmallQuotient(c: nat, v: nat, p: nat, s: nat, q: nat)
    requires p * s == WORD && WORD / 2 * s <= v && q * v <= c < LIMIT
    ensures q < 2 * p
  {
    var b := WORD / 2 * s;
    Times(b, v, q);
    Rearrange(p, WORD / 2, s);
    if q >= 2 * p {
      Times(2 * p, q, b);
    }
  }

  lemma Rearrange(p: nat, h: nat, s: nat)
    ensures 2 * p * (h * s) == 2 * h * (p * s)
  {
    assert p * (h * s) == h * (p * s);
  }

  lemma Gap(p: nat, s: nat)
    requires p * s == WORD && s >= 2 && (s == 2 || s >= 4)
    ensures 2 * p * (s - 1) <= WORD / 2 * s
  {
    assert 2 * p * (s - 1) == 2 * (p * s) - 2 * p;
  }

  /** The trial quotient before it is lowered. */
  lemma Trial(c: Currency, v: Currency, n: nat, v1: Currency, u1: Currency, tq: Word)
    requires v.hi > 0 && n <= 63 && v1.Value() == v.Value() * Pow2(n) && v1.hi >= WORD / 2
    requires u1.Value() == c.Value() / 2 && u1.hi < v1.hi && tq == Div64(u1.hi, u1.lo, v1.hi).0
    ensures Right(tq, 63 - n) == Quo(c.Value(), v.Value()) || Right(tq, 63 - n) == Quo(c.Value(), v.Value()) + 1
  {
    hide Pow2, Currency.Value;
    Pow2Sum(n, 64 - n);
    Pow2Of63();
    Pow2Next(63 - n);
    Powers(63 - n);
    ValueParts(v1);
    TrialNumbers(c.Value(), v.Value(), v1.hi, v1.lo, Pow2(n), Pow2(63 - n));
    HalfQuotient(c.Value() / 2, u1, v1.hi);
  }

  lemma ValueParts(c: Currency)
    ensures c.Value() == c.hi * WORD + c.lo
  {
  }

  lemma HalfQuotient(half: nat, u1: Currency, d: Word)
    requires u1.Value() == half && u1.hi < d
    ensures Div64(u1.hi, u1.lo, d).0 == half / d
  {
    UniqueQuotient(half, d, Div64(u1.hi, u1.lo, d).0, Div64(u1.hi, u1.lo, d).1);
  }

  lemma TrialNumbers(c: nat, v: nat, hi: nat, lo: Word, p: nat, e: nat)
    requires p > 0 && e > 0 && p * (2 * e) == WORD && (2 * e == 2 || 2 * e >= 4)
    requires v > 0 && c < LIMIT && v * p == hi * WORD + lo && hi >= WORD / 2
    ensures c / 2 / hi / e == Quo(c, v) || c / 2 / hi / e == Quo(c, v) + 1
  {
    hide Quo;
    var s := 2 * e;
    CutOff(v, hi, lo, p, s);
    Times(1, hi, s);
    Times(WORD / 2, hi, s);
    DoubleProduct(hi, e);
    HalfDivision(c, hi, hi * e, e);
    Bounded(c, v, hi * s, p, s);
  }

  lemma Bounded(c: nat, v: nat, w: nat, p: nat, s: nat)
    requires Close(c, v, w, p, s) && 0 < w <= v
    ensures Quo(c, v) <= Quo(c, w) <= Quo(c, v) + 1
  {
    hide Close, Quo;
    TrialBound(c, v, w, p, s, Quo(c, v), Quo(c, w));
  }

  lemma Powers(k: nat)
    ensures 2 * Pow2(k) == 2 || 2 * Pow2(k) >= 4
  {
  }

  lemma CutOff(v: nat, hi: nat, lo: Word, p: nat, s: nat)
    requires p * s == WORD && p > 0 && v * p == hi * WORD + lo
    ensures hi * s <= v < hi * s + s
  {
    assert hi * WORD == hi * s * p;
    assert (hi * s + s) * p == hi * s * p + s * p;
    if v < hi * s {
      Times(v + 1, hi * s, p);
    }
    if v >= hi * s + s {
      Times(hi * s + s, v, p);
    }
  }

  /**
    quoRem is exact for all 128-bit inputs: the division and the product and
    difference of the trial quotient never panic, and one correction is
    enough.
   */
  method QuoRem(c: Currency, v: Currency) returns (q: Currency, r: Currency)
    requires v.Value() != 0
    ensures c.Value() == q.Value() * v.Value() + r.Value() && r.Value() < v.Value()
  {
    hide Pow2, Or, LeadingZeros64, Left;
    if v.hi == 0 {
      var r64;
      q, r64 := QuoRem64(c, v.lo);
      r := Currency(r64, 0);
    } else {
      // first a guess that misses by one at most
      var n := LeadingZeros64(v.hi);
      var v1 := Currency(Left(v.lo, n), OrWord(Left(v.hi, n), Right(v.lo, 64 - n)));
      var u1 := Currency(OrWord(Right(c.lo, 1), Left(c.hi, 63)), Right(c.hi, 1));
      Normalised(v, n);
      Halved(c);
      HalfFits(c, u1);
      var tq := Div64(u1.hi, u1.lo, v1.hi).0;
      Trial(c, v, n, v1, u1, tq);
      tq := Right(tq, 63 - n);
      if tq != 0 {
        tq := tq - 1;
      }
      q, r := Adjust(c, v, tq);
    }
  }

  /** The remainder for the trial quotient, then both adjusted if it is greater than the divisor. */
  method Adjust(c: Currency, v: Currency, tq: Word) returns (q: Currency, r: Currency)
    requires v.Value() > 0 && (tq == Quo(c.Value(), v.Value()) || tq + 1 == Quo(c.Value(), v.Value()))
    ensures c.Value() == q.Value() * v.Value() + r.Value() && r.Value() < v.Value()
  {
    hide Currency.Value;
    q := Currency(tq, 0);
    LoweredFits(c.Value(), v.Value(), tq);
    var product := Mul64(v, tq);
    r := Sub(c, product.value).value;
    Incremented(q);
    if Cmp(r, v) >= 0 {
      q := if q.lo + 1 == WORD then Currency(0, q.hi + 1) else Currency(q.lo + 1, q.hi);
      r := Sub(r, v).value;
    }
  }

  lemma Incremented(q: Currency)
    requires q.hi == 0
    ensures q.Value() == q.lo
    ensures (if q.lo + 1 == WORD then Currency(0, q.hi + 1) else Currency(q.lo + 1, q.hi)).Value() == q.lo + 1
  {
  }

  lemma HalfFits(c: Currency, u1: Currency)
    requires u1.Value() == c.Value() / 2
    ensures u1.hi < WORD / 2
  {
  }

  /** The lowered trial quotient leaves less than twice the divisor. */
  lemma LoweredFits(c: nat, v: nat, tq: nat)
    requires v > 0 && (tq == Quo(c, v) || tq + 1 == Quo(c, v))
    ensures v * tq <= c < v * tq + 2 * v && (tq + 1) * v == v * tq + v
  {
    hide Quo;
    var q := Quo(c, v);
    Dist(q, 1, v);
    Dist(tq, 1, v);
  }

  // ---------------------------------------------------------------- decimal digits

  function Pow10(n: nat): (p: nat)
    ensures p >= 1
  {
    if n == 0 then 1 else 10 * Pow10(n - 1)
  }

  function Digit(d: nat): char
    requires d < 10
  {
    '0' + d as char
  }

  /** The decimal representation of n. */
  function Decimal(n: nat): (s: string)
    ensures s != ""
  {
    if n < 10 then [Digit(n)] else Decimal(n / 10) + [Digit(n % 10)]
  }

  /** What a string of digits stands for. */
  function Parse(s: string): nat {
    if s == "" then 0 else 10 * Parse(s[..|s| - 1]) + if s[|s| - 1] >= '0' then s[|s| - 1] as int - '0' as int else 0
  }

  /** It reads back as n, in digits only, and does not begin with a zero unless it is that. */
  lemma {:induction false} DecimalMeaning(n: nat)
    ensures Parse(Decimal(n)) == n
    ensures forall i :: 0 <= i < |Decimal(n)| ==> '0' <= Decimal(n)[i] <= '9'
    ensures n > 0 ==> Decimal(n)[0] != '0'
  {
    if n < 10 {
      assert [Digit(n)][..0] == "";
    } else {
      DecimalMeaning(n / 10);
      var s := Decimal(n / 10);
      assert (s + [Digit(n % 10)])[..|s|] == s;
    }
  }

  /** The last m digits of n, with zeros in front. */
  function Padded(n: nat, m: nat): (s: string)
    ensures |s| == m
  {
    if m == 0 then "" else Padded(n / 10, m - 1) + [Digit(n % 10)]
  }

  lemma {:induction false} SplitDecimal(q: nat, r: nat, m: nat)
    requires q > 0 && r < Pow10(m)
    ensures Decimal(q * Pow10(m) + r) == Decimal(q) + Padded(r, m)
    decreases m
  {
    if m == 0 {
      assert Decimal(q) + "" == Decimal(q);
    } else {
      var n := q * Pow10(m) + r;
      assert q * Pow10(m) == 10 * (q * Pow10(m - 1));
      Times(1, q, Pow10(m - 1));
      assert n >= 10 && n / 10 == q * Pow10(m - 1) + r / 10 && n % 10 == r % 10;
      SplitDecimal(q, r / 10, m - 1);
    }
  }

  lemma {:induction false} PaddedZeros(m: nat)
    ensures forall i :: 0 <= i < m ==> Padded(0, m)[i] == '0'
  {
    if m > 0 {
      PaddedZeros(m - 1);
    }
  }

  lemma PaddedStep(r: nat, m: nat)
    requires m > 0
    ensures Padded(r, m) == Padded(r / 10, m - 1) + [Digit(r % 10)]
  {
  }

  /** Moving one digit from the number to the text. */
  lemma DigitMoves(r: nat, m: nat, text: string)
    requires r > 0 && r < Pow10(m)
    ensures m > 0 && r / 10 < Pow10(m - 1)
    ensures Decimal(r) + text ==
      if r / 10 > 0 then Decimal(r / 10) + ([Digit(r % 10)] + text) else [Digit(r % 10)] + text
    ensures forall k: nat :: k >= m ==> Padded(r, k) + text == Padded(r / 10, k - 1) + ([Digit(r % 10)] + text)
  {
    forall k: nat | k >= m
      ensures Padded(r, k) + text == Padded(r / 10, k - 1) + ([Digit(r % 10)] + text)
    {
      PaddedStep(r, k);
    }
  }

  /**
    The inner loop: the digits of r are written before position i of a buffer
    of zeros; n says how many there are.
   */
  method WriteDigits(buf: array<char>, i: nat, r0: nat, ghost m: nat) returns (n: nat)
    requires m <= i <= buf.Length && m <= 19 && r0 < Pow10(m)
    requires forall k :: 0 <= k < i ==> buf[k] == '0'
    modifies buf
    ensures n <= m && (r0 > 0 ==> buf[i - n..i] == Decimal(r0))
    ensures i >= 19 ==> buf[i - 19..i] == Padded(r0, 19)
    ensures forall k :: 0 <= k < i - n ==> buf[k] == '0'
    ensures buf[i..] == old(buf[i..])
  {
    hide Decimal, Padded, Pow10;
    var r: nat := r0;
    n := 0;
    assert buf[i..i] == "";
    while r != 0
      invariant 0 <= n <= m && 0 <= r < Pow10(m - n)
      invariant forall k :: 0 <= k < i - n ==> buf[k] == '0'
      invariant buf[i..] == old(buf[i..])
      invariant r > 0 ==> Decimal(r0) == Decimal(r) + buf[i - n..i]
      invariant r == 0 && r0 > 0 ==> Decimal(r0) == buf[i - n..i]
      invariant Padded(r0, 19) == Padded(r, 19 - n) + buf[i - n..i]
      decreases r
    {
      ghost var text := buf[i - n..i];
      DigitMoves(r, m - n, text);
      n := n + 1;
      buf[i - n] := buf[i - n] + (r % 10) as char;
      assert buf[i - n..i] == [Digit(r % 10)] + text;
      r := r / 10;
    }
    PaddedZeros(19 - n);
    assert i >= 19 ==> buf[i - 19..i] == buf[i - 19..i - n] + buf[i - n..i];
    assert i >= 19 ==> buf[i - 19..i - n] == Padded(0, 19 - n);
  }

  const CHUNK: nat := 10_000_000_000_000_000_000

  lemma ChunkIsPower()
    ensures Pow10(19) == CHUNK && Pow10(1) == 10
  {
    assert Pow10(4) == 10000;
    assert Pow10(8) == 1_0000_0000;
    assert Pow10(12) == 1_0000_0000_0000;
    assert Pow10(16) == 1_0000_0000_0000_0000;
  }

  /** ExactString is the decimal representation, for every value. */
  method ExactString(c0: Currency) returns (s: string)
    ensures s == Decimal(c0.Value())
  {
    hide Decimal, Padded, Pow10;
    if c0 == Currency(0, 0) {
      ZeroDecimal();
      return "0";
    }
    var buf := new char[40](_ => '0'); // enough for 2^128
    var i, c := 40, c0;
    assert buf[40..] == "";
    ChunkIsPower();
    while true
      invariant AtChunk(i, c.Value(), c0.Value())
      invariant 0 < c.Value() && Decimal(c0.Value()) == Decimal(c.Value()) + buf[i..]
      invariant forall k :: 0 <= k < i ==> buf[k] == '0'
      decreases i
    {
      var q, r := QuoRem64(c, CHUNK);
      NextChunk(i, c.Value(), c0.Value(), q.Value(), r);
      var n := WriteDigits(buf, i, r, if i == 2 then 1 else 19);
      if q == Currency(0, 0) {
        assert buf[i - n..] == buf[i - n..i] + buf[i..];
        return buf[i - n..];
      }
      SplitDecimal(q.Value(), r, 19);
      assert buf[i - 19..] == buf[i - 19..i] + buf[i..];
      c := q;
      i := i - 19;
    }
  }

  /** What is left when the digits from position i on have been written. */
  ghost predicate AtChunk(i: int, c: nat, c0: nat) {
    c0 < LIMIT && c <= c0 && (i == 40 || (i == 21 && c * CHUNK <= c0) || (i == 2 && c * (CHUNK * CHUNK) <= c0))
  }

  lemma NextChunk(i: int, c: nat, c0: nat, q: nat, r: nat)
    requires AtChunk(i, c, c0) && c == q * CHUNK + r && r < CHUNK
    ensures q > 0 ==> AtChunk(i - 19, q, c0)
    ensures i == 2 ==> r < 10
  {
  }

  lemma ZeroDecimal()
    ensures Decimal(0) == "0"
  {
  }
}
