/**
  256-bit work values in big-endian bytes, and the correspondence between
  work and block IDs (sunyata.go:40-47 and 250-376).
 */
module Work {
  import opened Words
  import opened Types
  import Headers

  type Byte = b: nat | b < 256

  /** The number that big-endian bytes stand for. */
  function Value(b: seq<Byte>): nat {
    if b == [] then 0 else 256 * Value(b[..|b| - 1]) + b[|b| - 1]
  }

  function Pow256(n: nat): (p: nat)
    ensures p >= 1
  {
    if n == 0 then 1 else 256 * Pow256(n - 1)
  }

  lemma {:induction false} ValueBound(b: seq<Byte>)
    ensures Value(b) < Pow256(|b|)
    decreases |b|
  {
    if b != [] {
      ValueBound(b[..|b| - 1]);
    }
  }

  lemma {:induction false} ValueConcat(a: seq<Byte>, b: seq<Byte>)
    ensures Value(a + b) == Value(a) * Pow256(|b|) + Value(b)
    decreases |b|
  {
    if b == [] {
      assert a + b == a;
    } else {
      var n := |b| - 1;
      assert (a + b)[..|a + b| - 1] == a + b[..n];
      ValueConcat(a, b[..n]);
      TimesPow(Value(a), n);
    }
  }

  lemma TimesPow(x: nat, n: nat)
    ensures x * Pow256(n + 1) == 256 * (x * Pow256(n))
  {
  }

  /** FillBytes: n bytes for a number. */
  function Bytes(x: nat, n: nat): (b: seq<Byte>)
    ensures |b| == n
  {
    if n == 0 then [] else Bytes(x / 256, n - 1) + [x % 256]
  }

  lemma {:induction false} BytesValue(x: nat, n: nat)
    requires x < Pow256(n)
    ensures Value(Bytes(x, n)) == x
    decreases n
  {
    if n > 0 {
      BytesValue(x / 256, n - 1);
      assert Bytes(x, n)[..n - 1] == Bytes(x / 256, n - 1);
    }
  }

  lemma {:induction false} ValueBytes(b: seq<Byte>)
    ensures Bytes(Value(b), |b|) == b
    decreases |b|
  {
    if b != [] {
      ValueBytes(b[..|b| - 1]);
    }
  }

  /** bytes.Compare: the first byte that differs decides. */
  function Compare(a: seq<Byte>, b: seq<Byte>): int {
    if a == [] || b == [] then |a| - |b|
    else if a[0] != b[0] then a[0] - b[0]
    else Compare(a[1..], b[1..])
  }

  /** Comparing big-endian bytes compares the numbers. */
  lemma {:induction false} CompareIsNumeric(a: seq<Byte>, b: seq<Byte>)
    requires |a| == |b|
    ensures Compare(a, b) < 0 <==> Value(a) < Value(b)
    ensures Compare(a, b) == 0 <==> Value(a) == Value(b)
    decreases |a|
  {
    if a != [] {
      FirstByte(a);
      FirstByte(b);
      ValueBound(a[1..]);
      ValueBound(b[1..]);
      CompareIsNumeric(a[1..], b[1..]);
      Leading(a[0], b[0], Value(a[1..]), Value(b[1..]), Pow256(|a| - 1));
    }
  }

  lemma FirstByte(a: seq<Byte>)
    requires a != []
    ensures Value(a) == a[0] * Pow256(|a| - 1) + Value(a[1..])
  {
    hide Value, Pow256;
    assert a == [a[0]] + a[1..];
    ValueConcat([a[0]], a[1..]);
    OneByte(a[0]);
  }

  lemma OneByte(x: Byte)
    ensures Value([x]) == x
  {
    assert [x][..0] == [];
  }

  lemma Leading(x: nat, y: nat, r: nat, s: nat, p: nat)
    requires r < p && s < p
    ensures x < y ==> x * p + r < y * p + s
    ensures y < x ==> y * p + s < x * p + r
  {
    if x < y {
      Times(x + 1, y, p);
    }
    if y < x {
      Times(y + 1, x, p);
    }
  }

  // ---------------------------------------------------------------- limbs

  /** binary.BigEndian.Uint64 */
  function Uint64(b: seq<Byte>): Word
    requires |b| == 8
  {
    ValueBound(b);
    Pow256Values();
    Value(b)
  }

  /** binary.BigEndian.PutUint64 */
  function PutUint64(x: Word): (b: seq<Byte>)
    ensures |b| == 8 && Value(b) == x
  {
    Pow256Values();
    BytesValue(x, 8);
    Bytes(x, 8)
  }

  lemma Pow256Values()
    ensures Pow256(8) == WORD && Pow256(0) == 1
  {
    assert Pow256(4) == 0x1_0000_0000;
  }

  lemma {:induction false} PowSum(a: nat, b: nat)
    ensures Pow256(a + b) == Pow256(a) * Pow256(b)
    decreases b
  {
    if b > 0 {
      PowSum(a, b - 1);
      TimesPow(Pow256(a), b - 1);
    }
  }

  lemma Pow256Of32()
    ensures Pow256(32) == Headers.WORK_LIMIT
  {
    hide Pow256;
    Pow256Values();
    PowSum(8, 8);
    PowSum(16, 16);
  }

  /** Writes a limb at an offset. */
  function Write(r: seq<Byte>, i: nat, x: Word): (w: seq<Byte>)
    requires |r| == 32 && i <= 24
    ensures |w| == 32 && w[..i] == r[..i] && Value(w[i..i + 8]) == x && w[i + 8..] == r[i + 8..]
  {
    var w := r[..i] + PutUint64(x) + r[i + 8..];
    assert w[i..i + 8] == PutUint64(x);
    w
  }

  /** A tail that starts one limb earlier. */
  lemma TailValue(b: seq<Byte>, i: nat)
    requires |b| == 32 && i <= 24
    ensures Value(b[i..]) == Value(b[i..i + 8]) * Pow256(24 - i) + Value(b[i + 8..])
  {
    assert b[i..] == b[i..i + 8] + b[i + 8..];
    ValueConcat(b[i..i + 8], b[i + 8..]);
  }

  /** A head that ends one limb later. */
  lemma HeadValue(b: seq<Byte>, i: nat)
    requires |b| == 32 && i <= 24
    ensures Value(b[..i + 8]) == Value(b[..i]) * WORD + Value(b[i..i + 8])
  {
    Pow256Values();
    assert b[..i + 8] == b[..i] + b[i..i + 8];
    ValueConcat(b[..i], b[i..i + 8]);
  }

  lemma NextPower(i: nat)
    requires i <= 24
    ensures Pow256(32 - i) == WORD * Pow256(24 - i)
  {
    hide Pow256;
    Pow256Values();
    PowSum(8, 24 - i);
  }

  lemma EmptyTails(r: seq<Byte>, w: seq<Byte>)
    requires |r| == |w| == 32
    ensures r[32..] == w[32..] == [] && r[..0] == w[..0] == [] && Value([]) == 0 && Pow256(0) == 1
  {
  }

  /** Add wraps around. */
  method Add(w: seq<Byte>, v: seq<Byte>) returns (r: seq<Byte>)
    requires |w| == |v| == 32
    ensures |r| == 32 && Value(r) == (Value(w) + Value(v)) % Headers.WORK_LIMIT
  {
    hide Value, Pow256, Headers.WorkMul;
    r := seq(32, _ => 0);
    EmptyTails(r, w);
    EmptyTails(r, v);
    var c: Word := 0;
    var i := 32;
    while i > 0
      invariant 0 <= i <= 32 && i % 8 == 0 && |r| == 32 && c <= 1
      invariant Value(r[i..]) + c * Pow256(32 - i) == Value(w[i..]) + Value(v[i..])
    {
      i := i - 8;
      var s := Add64(Uint64(w[i..i + 8]), Uint64(v[i..i + 8]), c);
      AddLimb(w, v, r, i, c, s.0, s.1);
      r, c := Write(r, i, s.0), s.1;
    }
    ValueBound(r);
    Wraps(Value(r), c, Value(w) + Value(v));
    assert r[0..] == r && w[0..] == w && v[0..] == v;
  }

  lemma AddLimb(w: seq<Byte>, v: seq<Byte>, r: seq<Byte>, i: nat, c: nat, s: Word, c': nat)
    requires |w| == |v| == |r| == 32 && i <= 24
    requires s + c' * WORD == Value(w[i..i + 8]) + Value(v[i..i + 8]) + c
    requires Value(r[i + 8..]) + c * Pow256(24 - i) == Value(w[i + 8..]) + Value(v[i + 8..])
    ensures Value(Write(r, i, s)[i..]) + c' * Pow256(32 - i) == Value(w[i..]) + Value(v[i..])
  {
    hide Value, Pow256, Write;
    TailValue(w, i);
    TailValue(v, i);
    TailValue(Write(r, i, s), i);
    NextPower(i);
    AddCarry(s, c', Value(w[i..i + 8]), Value(v[i..i + 8]), c, Pow256(24 - i));
  }

  lemma AddCarry(s: int, c': int, a: int, b: int, c: int, p: int)
    requires s + c' * WORD == a + b + c
    ensures s * p + c' * (WORD * p) == a * p + b * p + c * p
  {
    Dist(s, c' * WORD, p);
    Assoc(c', WORD, p);
    Dist(a + b, c, p);
    Dist(a, b, p);
  }

  lemma Wraps(r: nat, c: nat, total: nat)
    requires r + c * Pow256(32) == total && r < Pow256(32)
    ensures r == total % Headers.WORK_LIMIT
  {
    hide Pow256;
    Pow256Of32();
  }

  /** Sub wraps around. */
  method Sub(w: seq<Byte>, v: seq<Byte>) returns (r: seq<Byte>)
    requires |w| == |v| == 32
    ensures |r| == 32 && Value(r) == (Value(w) - Value(v)) % Headers.WORK_LIMIT
  {
    hide Value, Pow256, Headers.WorkMul;
    r := seq(32, _ => 0);
    EmptyTails(r, w);
    EmptyTails(r, v);
    var c: Word := 0;
    var i := 32;
    while i > 0
      invariant 0 <= i <= 32 && i % 8 == 0 && |r| == 32 && c <= 1
      invariant Value(r[i..]) + Value(v[i..]) == Value(w[i..]) + c * Pow256(32 - i)
    {
      i := i - 8;
      var s := Sub64(Uint64(w[i..i + 8]), Uint64(v[i..i + 8]), c);
      SubLimb(w, v, r, i, c, s.0, s.1);
      r, c := Write(r, i, s.0), s.1;
    }
    ValueBound(r);
    WrapsBelow(Value(r), c, Value(w) - Value(v));
    assert r[0..] == r && w[0..] == w && v[0..] == v;
  }

  lemma SubLimb(w: seq<Byte>, v: seq<Byte>, r: seq<Byte>, i: nat, c: nat, s: Word, c': nat)
    requires |w| == |v| == |r| == 32 && i <= 24
    requires s + Value(v[i..i + 8]) + c == Value(w[i..i + 8]) + c' * WORD
    requires Value(r[i + 8..]) + Value(v[i + 8..]) == Value(w[i + 8..]) + c * Pow256(24 - i)
    ensures Value(Write(r, i, s)[i..]) + Value(v[i..]) == Value(w[i..]) + c' * Pow256(32 - i)
  {
    hide Value, Pow256, Write;
    TailValue(w, i);
    TailValue(v, i);
    TailValue(Write(r, i, s), i);
    NextPower(i);
    SubCarry(s, c', Value(w[i..i + 8]), Value(v[i..i + 8]), c, Pow256(24 - i));
  }

  lemma SubCarry(s: int, c': int, a: int, b: int, c: int, p: int)
    requires s + b + c == a + c' * WORD
    ensures s * p + b * p + c * p == a * p + c' * (WORD * p)
  {
    Dist(a, c' * WORD, p);
    Assoc(c', WORD, p);
    Dist(s + b, c, p);
    Dist(s, b, p);
  }

  lemma WrapsBelow(r: nat, c: nat, total: int)
    requires r - c * Pow256(32) == total && r < Pow256(32)
    ensures r == total % Headers.WORK_LIMIT
  {
    hide Pow256;
    Pow256Of32();
  }

  /** Mul64 wraps around. */
  method Mul64(w: seq<Byte>, v: Word) returns (r: seq<Byte>)
    requires |w| == 32
    ensures |r| == 32 && Value(r) == Headers.WorkMul(Value(w), v)
  {
    hide Value, Pow256, Headers.WorkMul;
    r := seq(32, _ => 0);
    EmptyTails(r, w);
    var c: Word := 0;
    var i := 32;
    while i > 0
      invariant 0 <= i <= 32 && i % 8 == 0 && |r| == 32
      invariant Value(r[i..]) + c * Pow256(32 - i) == Value(w[i..]) * v
    {
      i := i - 8;
      var wi := Uint64(w[i..i + 8]);
      var p := Words.Mul64(wi, v);
      var s := Add64(p.1, c, 0);
      CarryFits(wi, v, p.0, p.1, s.1);
      MulLimb(w, v, r, i, c, s.0, p.0 + s.1);
      r, c := Write(r, i, s.0), p.0 + s.1;
    }
    ValueBound(r);
    Wraps(Value(r), c, Value(w) * v);
    Multiplied(Value(w), v);
    assert r[0..] == r && w[0..] == w;
  }

  lemma Multiplied(w: nat, v: nat)
    ensures Headers.WorkMul(w, v) == w * v % Headers.WORK_LIMIT
  {
  }

  /** hi + cc does not overflow. */
  lemma CarryFits(x: Word, y: Word, hi: Word, lo: Word, cc: nat)
    requires hi * WORD + lo == x * y && cc <= 1
    ensures hi + cc < WORD
  {
    ProductFits(x, y);
  }

  lemma MulLimb(w: seq<Byte>, v: Word, r: seq<Byte>, i: nat, c: nat, s: Word, c': nat)
    requires |w| == |r| == 32 && i <= 24
    requires s + c' * WORD == Value(w[i..i + 8]) * v + c
    requires Value(r[i + 8..]) + c * Pow256(24 - i) == Value(w[i + 8..]) * v
    ensures Value(Write(r, i, s)[i..]) + c' * Pow256(32 - i) == Value(w[i..]) * v
  {
    hide Value, Pow256, Write;
    TailValue(w, i);
    TailValue(Write(r, i, s), i);
    NextPower(i);
    var a, p := Value(w[i..i + 8]), Pow256(24 - i);
    AddCarry(s, c', a * v, 0, c, p);
    Dist(a * p, Value(w[i + 8..]), v);
    Assoc(a, v, p);
    Assoc(a, p, v);
  }

  /** Div64; it panics if v == 0. */
  method Div64(w: seq<Byte>, v: Word) returns (r: seq<Byte>)
    requires |w| == 32 && v != 0
    ensures |r| == 32 && Value(r) == Value(w) / v
  {
    hide Value, Pow256;
    r := seq(32, _ => 0);
    EmptyTails(r, w);
    var rem: Word := 0;
    var i := 0;
    while i < 32
      invariant 0 <= i <= 32 && i % 8 == 0 && |r| == 32 && rem < v
      invariant Value(w[..i]) == Value(r[..i]) * v + rem
    {
      r, rem := DivOne(w, v, r, i, rem);
      i := i + 8;
    }
    assert r[..32] == r && w[..32] == w;
    Quotient(Value(w), v, Value(r), rem);
  }

  method DivOne(w: seq<Byte>, v: Word, r: seq<Byte>, i: nat, rem: Word) returns (r': seq<Byte>, rem': Word)
    requires |w| == |r| == 32 && i <= 24 && rem < v && Value(w[..i]) == Value(r[..i]) * v + rem
    ensures |r'| == 32 && rem' < v && Value(w[..i + 8]) == Value(r'[..i + 8]) * v + rem'
  {
    hide Value, Pow256, Write;
    var d := Words.Div64(rem, Uint64(w[i..i + 8]), v);
    DivLimb(w, v, r, i, rem, d.0, d.1);
    return Write(r, i, d.0), d.1;
  }

  lemma DivLimb(w: seq<Byte>, v: Word, r: seq<Byte>, i: nat, rem: nat, q: Word, rem': nat)
    requires |w| == |r| == 32 && i <= 24
    requires q * v + rem' == rem * WORD + Value(w[i..i + 8])
    requires Value(w[..i]) == Value(r[..i]) * v + rem
    ensures Value(w[..i + 8]) == Value(Write(r, i, q)[..i + 8]) * v + rem'
  {
    hide Value, Pow256, Write;
    HeadValue(w, i);
    HeadValue(Write(r, i, q), i);
    var x := Value(r[..i]);
    Dist(x * v, rem, WORD);
    Dist(x * WORD, q, v);
    Assoc(x, v, WORD);
  }

  lemma Quotient(w: nat, v: nat, q: nat, r: nat)
    requires w == q * v + r && r < v
    ensures q == w / v
  {
    var q' := w / v;
    assert w == q' * v + w % v;
    if q' < q {
      Times(q' + 1, q, v);
    } else if q < q' {
      Times(q + 1, q', v);
    }
  }

  // ---------------------------------------------------------------- work and targets

  const MAX_BYTES: seq<Byte> := seq(32, _ => 255)

  /** WorkRequiredForHash, for an ID that is not zero. */
  method WorkRequiredForHash(id: seq<Byte>) returns (w: seq<Byte>)
    requires |id| == 32 && Value(id) != 0
    ensures |w| == 32 && Value(w) == RequiredWork(Value(id))
  {
    hide Value, Pow256, Bytes;
    OneIsUnique(id);
    if id == Bytes(1, 32) {
      MaxValue();
      return MAX_BYTES;
    }
    w := Bytes(Headers.WORK_LIMIT / Value(id), 32);
    QuotientBytes(Value(id));
  }

  lemma QuotientBytes(x: nat)
    requires x > 1
    ensures Value(Bytes(Headers.WORK_LIMIT / x, 32)) == Headers.WORK_LIMIT / x
  {
    hide Value, Pow256, Bytes;
    Pow256Of32();
    QuotientShrinks(Headers.WORK_LIMIT, x);
    BytesValue(Headers.WORK_LIMIT / x, 32);
  }

  /** HashRequiringWork, for work that is not zero: the same quotient, with the same special case. */
  method HashRequiringWork(w: seq<Byte>) returns (id: seq<Byte>)
    requires |w| == 32 && Value(w) != 0
    ensures |id| == 32 && Value(id) == RequiredWork(Value(w))
  {
    id := WorkRequiredForHash(w);
  }

  /** The expected number of hashes for an ID, and as well the ID that a number of hashes is expected to produce. */
  function RequiredWork(x: nat): nat
    requires x > 0
  {
    if x == 1 then Headers.WORK_LIMIT - 1 else Headers.WORK_LIMIT / x
  }

  /** Work times ID is 2^256, as nearly as whole numbers allow; only for the ID 1 is it one less. */
  lemma WorkTimesID(x: nat)
    requires x > 0
    ensures x == 1 ==> RequiredWork(x) == Headers.WORK_LIMIT - 1
    ensures x > 1 ==> RequiredWork(x) * x <= Headers.WORK_LIMIT < (RequiredWork(x) + 1) * x
  {
    var q := Headers.WORK_LIMIT / x;
    assert Headers.WORK_LIMIT == q * x + Headers.WORK_LIMIT % x;
  }

  lemma MaxValue()
    ensures Value(MAX_BYTES) == Headers.WORK_LIMIT - 1
  {
    Pow256Of32();
    AllOnes(32);
    assert MAX_BYTES == seq(32, _ => 255);
  }

  lemma {:induction false} AllOnes(n: nat)
    ensures Value(seq(n, _ => 255)) == Pow256(n) - 1
    decreases n
  {
    if n > 0 {
      AllOnes(n - 1);
      var b: seq<Byte> := seq(n, _ => 255);
      assert b[..n - 1] == seq(n - 1, _ => 255);
    }
  }

  lemma ValueOfOne()
    ensures Value(Bytes(1, 32)) == 1
  {
    hide Pow256;
    Pow256Of32();
    BytesValue(1, 32);
  }

  lemma OneIsUnique(id: seq<Byte>)
    requires |id| == 32
    ensures Value(id) == 1 <==> id == Bytes(1, 32)
  {
    ValueBytes(id);
    ValueOfOne();
  }

  lemma QuotientShrinks(n: nat, d: nat)
    requires d > 0
    ensures d > 1 && n > 0 ==> n / d < n
  {
    var q := n / d;
    assert q * d + n % d == n;
    if d > 1 {
      Times(2, d, q);
    }
  }

  /** MeetsTarget */
  predicate MeetsTarget(id: seq<Byte>, target: seq<Byte>) {
    Compare(id, target) <= 0
  }

  /**
    Miner and validator agree: an ID meets the target for a difficulty just
    when it required at least that much work.
   */
  lemma TargetIsWork(id: seq<Byte>, target: seq<Byte>, difficulty: nat)
    requires |id| == |target| == 32 && Value(id) > 0 && 0 < difficulty < Headers.WORK_LIMIT
    requires Value(target) == RequiredWork(difficulty)
    ensures MeetsTarget(id, target) <==> RequiredWork(Value(id)) >= difficulty
  {
    CompareIsNumeric(id, target);
    ValueBound(id);
    Pow256Of32();
    hide Compare, Value, Pow256;
    TargetNumbers(Value(id), difficulty, Headers.WORK_LIMIT);
  }

  /** The 32 bytes of every ID; none of them are all zero, for which no work is defined. */
  ghost predicate Encodes(enc: Hash -> seq<Byte>) {
    forall h :: |enc(h)| == 32 && Value(enc(h)) > 0
  }

  /** The work that header validation ascribes to an ID, by its bytes. */
  ghost function HashWork(enc: Hash -> seq<Byte>): (work: Hash -> nat)
    requires Encodes(enc)
    ensures forall h :: work(h) == RequiredWork(Value(enc(h)))
  {
    h => RequiredWork(Value(enc(h)))
  }

  /**
    What a miner looks for is what header validation demands: a header that
    attaches is refused for its work exactly if its ID misses the target for
    the difficulty.
   */
  lemma TargetIsDemanded(s: State, h: BlockHeader, enc: Hash -> seq<Byte>, target: seq<Byte>)
    requires |s.prevTimestamps| == Headers.WINDOW && Encodes(enc) && 0 < s.difficulty < Headers.WORK_LIMIT
    requires |target| == 32 && Value(target) == RequiredWork(s.difficulty)
    requires h.height == s.index.height + 1 && h.parentID == s.index.id
    ensures Headers.ValidateHeader(s, h, HashWork(enc)) == Headers.Err(Headers.InsufficientWork) <==>
      !MeetsTarget(enc(h.ID()), target)
  {
    hide Value, RequiredWork, MeetsTarget;
    TargetIsWork(enc(h.ID()), target, s.difficulty);
  }

  lemma TargetNumbers(x: nat, d: nat, m: nat)
    requires 0 < x < m && 0 < d < m
    ensures x <= (if d == 1 then m - 1 else m / d) <==> (if x == 1 then m - 1 else m / x) >= d
  {
    QuotientAtLeast(m, d, x);
    QuotientAtLeast(m, x, d);
    assert x * d == d * x;
    if d == 1 {
      QuotientAtLeast(m, x, 1);
    }
    if x == 1 {
      QuotientAtLeast(m, d, 1);
    }
  }

  /** x is at most the quotient just when it goes in that often. */
  lemma QuotientAtLeast(m: nat, d: nat, x: nat)
    requires d > 0
    ensures x <= m / d <==> x * d <= m
  {
    var q := m / d;
    assert q * d + m % d == m;
    if x <= q {
      Times(x, q, d);
    } else {
      Times(q + 1, x, d);
    }
  }

  /** The target is the greatest ID that requires at least that much work. */
  lemma TargetIsGreatest(difficulty: nat, x: nat)
    requires 0 < difficulty < Headers.WORK_LIMIT && 0 < x < Headers.WORK_LIMIT
    ensures RequiredWork(difficulty) > 0 && RequiredWork(RequiredWork(difficulty)) >= difficulty
    ensures RequiredWork(x) >= difficulty ==> x <= RequiredWork(difficulty)
  {
    var m := Headers.WORK_LIMIT;
    TargetNumbers(x, difficulty, m);
    QuotientAtLeast(m, difficulty, 1);
    QuotientShrinks(m, difficulty);
    TargetNumbers(RequiredWork(difficulty), difficulty, m);
  }

  /** Greater IDs never required more work. */
  lemma WorkFalls(x: nat, y: nat)
    requires 0 < x <= y < Headers.WORK_LIMIT
    ensures RequiredWork(y) <= RequiredWork(x)
  {
    var m := Headers.WORK_LIMIT;
    QuotientAtLeast(m, y, 1);
    TargetNumbers(x, RequiredWork(y), m);
    TargetNumbers(y, RequiredWork(y), m);
    QuotientShrinks(m, y);
  }

  /** No lower ID requires as much work, which is how HashRequiringWork is documented. */
  ghost predicate IsLowest(target: nat) {
    target > 0 && forall x :: 0 < x < target ==> RequiredWork(x) != RequiredWork(target)
  }

  /**
    The target is the lowest of the IDs with its amount of work
    exactly when one more hash for each ID below it would still be within
    2^256: small targets are, large ones share their work with lower IDs.
   */
  lemma TargetIsLowest(difficulty: nat)
    requires 0 < difficulty < Headers.WORK_LIMIT
    ensures var t := RequiredWork(difficulty);
      t > 0 && (IsLowest(t) <==> t == 1 || (RequiredWork(t) + 1) * (t - 1) <= Headers.WORK_LIMIT)
  {
    var m, t := Headers.WORK_LIMIT, RequiredWork(difficulty);
    QuotientAtLeast(m, difficulty, 1);
    QuotientShrinks(m, difficulty);
    if t > 1 {
      QuotientAtLeast(m, t - 1, RequiredWork(t) + 1);
      WorkFalls(t - 1, t);
      if RequiredWork(t - 1) != RequiredWork(t) {
        forall x | 0 < x < t
          ensures RequiredWork(x) != RequiredWork(t)
        {
          WorkFalls(x, t - 1);
        }
      }
    }
  }

  /** All IDs above 2^255 require one hash; the target for one hash is the greatest of them, not the lowest. */
  lemma LowerTarget()
    ensures RequiredWork(Headers.WORK_LIMIT / 2 + 1) == 1 == RequiredWork(RequiredWork(1))
    ensures Headers.WORK_LIMIT / 2 + 1 < RequiredWork(1) && !IsLowest(RequiredWork(1))
  {
  }
}
