/**
  Where the bytes of a value stand on the wire (encoding.go:264-378, merkle/multiproof.go:139-240): every
  field by its offset, every number by its bytes.
 */
module Layout {
  import opened Types
  import opened Words
  import opened Work
  import opened Ledger
  import opened Codec

  // ---------------------------------------------------------------- parts of a stream

  /** A part of the bytes, from a position on. */
  ghost predicate Here(bytes: seq<Byte>, at: nat, part: seq<Byte>) {
    at + |part| <= |bytes| && bytes[at..at + |part|] == part
  }

  lemma Split(bytes: seq<Byte>, at: nat, a: seq<Byte>, b: seq<Byte>)
    requires Here(bytes, at, a + b)
    ensures Here(bytes, at, a) && Here(bytes, at + |a|, b)
  {
    assert bytes[at..at + |a|] == bytes[at..at + |a + b|][..|a|];
    assert bytes[at + |a|..at + |a + b|] == bytes[at..at + |a + b|][|a|..];
  }

  lemma Fits(bytes: seq<Byte>, at: nat, part: seq<Byte>)
    requires Here(bytes, at, part)
    ensures at + |part| <= |bytes|
  {
  }

  lemma VersionHere(bytes: seq<Byte>, at: nat)
    requires Here(bytes, at, [VERSION])
    ensures at < |bytes| && bytes[at] == 1
  {
    assert bytes[at..at + 1][0] == bytes[at];
  }

  /** Eight bytes of a number, the lowest first. */
  ghost predicate WordAt(bytes: seq<Byte>, at: nat, x: nat) {
    at + 8 <= |bytes| && forall i :: 0 <= i < 8 ==> bytes[at + i] == x / Pow256(i) % 256
  }

  lemma WordHere(bytes: seq<Byte>, at: nat, x: nat)
    requires Here(bytes, at, Uint64Bytes(x))
    ensures WordAt(bytes, at, x)
  {
    forall i | 0 <= i < 8
      ensures bytes[at + i] == x / Pow256(i) % 256
    {
      assert bytes[at..at + 8][i] == Uint64Bytes(x)[i];
    }
  }

  /** Sixteen bytes of an amount: the lower word first. */
  ghost predicate AmountAt(bytes: seq<Byte>, at: nat, v: nat) {
    WordAt(bytes, at, v % WORD) && WordAt(bytes, at + 8, v / WORD)
  }

  lemma AmountHere(bytes: seq<Byte>, at: nat, v: nat)
    requires Here(bytes, at, CurrencyBytes(v))
    ensures AmountAt(bytes, at, v)
  {
    hide Uint64Bytes;
    Split(bytes, at, Uint64Bytes(v % WORD), Uint64Bytes(v / WORD));
    WordHere(bytes, at, v % WORD);
    WordHere(bytes, at + 8, v / WORD);
  }

  /** Thirty-two bytes of a hash. */
  ghost predicate HashAt(bytes: seq<Byte>, at: nat, dg: Digests, h: Hash) {
    at + 32 <= |bytes| && bytes[at..at + 32] == dg.hashBytes(h)
  }

  // ---------------------------------------------------------------- headers

  /** 120 bytes: height, parent, nonce, whole seconds, miner, commitment. */
  ghost predicate HeaderStands(bytes: seq<Byte>, at: nat, dg: Digests, h: BlockHeader) {
    at + 120 <= |bytes| &&
    WordAt(bytes, at, h.height) && HashAt(bytes, at + 8, dg, h.parentID) && WordAt(bytes, at + 40, h.nonce) &&
    WordAt(bytes, at + 48, Unix(h.timestamp) % WORD) && HashAt(bytes, at + 56, dg, h.minerAddress) &&
    HashAt(bytes, at + 88, dg, h.commitment)
  }

  lemma HeaderHere(bytes: seq<Byte>, at: nat, dg: Digests, h: BlockHeader)
    requires Here(bytes, at, HeaderBytes(dg, h))
    ensures HeaderStands(bytes, at, dg, h)
  {
    hide Uint64Bytes;
    var height, nonce, time := Uint64Bytes(h.height), Uint64Bytes(h.nonce), Uint64Bytes(TimeWord(h.timestamp));
    var parentID, address, commitment :=
      dg.hashBytes(h.parentID), dg.hashBytes(h.minerAddress), dg.hashBytes(h.commitment);
    Split(bytes, at, height, parentID + (nonce + (time + (address + commitment))));
    Split(bytes, at + 8, parentID, nonce + (time + (address + commitment)));
    Split(bytes, at + 40, nonce, time + (address + commitment));
    Split(bytes, at + 48, time, address + commitment);
    Split(bytes, at + 56, address, commitment);
    WordHere(bytes, at, h.height);
    WordHere(bytes, at + 40, h.nonce);
    WordHere(bytes, at + 48, TimeWord(h.timestamp));
  }

  // ---------------------------------------------------------------- transactions

  /** 48 bytes: value, address. */
  ghost predicate OutputStands(bytes: seq<Byte>, at: nat, dg: Digests, out: Output) {
    AmountAt(bytes, at, out.value) && HashAt(bytes, at + 16, dg, out.address)
  }

  lemma OutputHere(bytes: seq<Byte>, at: nat, dg: Digests, out: Output)
    requires Here(bytes, at, OutputBytes(dg, out))
    ensures OutputStands(bytes, at, dg, out)
  {
    hide CurrencyBytes;
    Split(bytes, at, CurrencyBytes(out.value), dg.hashBytes(out.address));
    AmountHere(bytes, at, out.value);
  }

  /**
    208 bytes: what names the parent, its position, the length of its proof but
    not the proof, its output and maturity, and then the key and the signature.
   */
  ghost predicate InputStands(bytes: seq<Byte>, at: nat, dg: Digests, input: Input) {
    at + 208 <= |bytes| &&
    HashAt(bytes, at, dg, input.parent.state.id.source) && WordAt(bytes, at + 32, input.parent.state.id.index) &&
    WordAt(bytes, at + 40, input.parent.state.leafIndex) &&
    WordAt(bytes, at + 48, |input.parent.state.merkleProof|) &&
    OutputStands(bytes, at + 56, dg, input.parent.output) && WordAt(bytes, at + 104, input.parent.maturityHeight) &&
    Value(bytes[at + 112..at + 144]) == input.publicKey % Pow256(32) &&
    bytes[at + 144..at + 208] == dg.sigBytes(input.signature)
  }

  lemma InputHere(bytes: seq<Byte>, at: nat, dg: Digests, input: Input)
    requires Here(bytes, at, InputBytes(dg, input))
    ensures InputStands(bytes, at, dg, input)
  {
    hide Uint64Bytes, StateElementBytes, OutputElementBytes, OutputBytes, KeyBytes, Value, Pow256, WordAt, OutputStands;
    var parent, key, sig := OutputElementBytes(dg, input.parent), KeyBytes(input.publicKey),
      dg.sigBytes(input.signature);
    Split(bytes, at, parent, key + sig);
    Split(bytes, at + 112, key, sig);
    ParentHere(bytes, at, dg, input.parent);
    KeyValue(input.publicKey);
  }

  lemma KeyValue(key: nat)
    ensures Value(KeyBytes(key)) == key % Pow256(32)
  {
    BytesModulo(key, 32);
  }

  lemma {:induction false} BytesModulo(x: nat, n: nat)
    ensures Value(Bytes(x, n)) == x % Pow256(n)
    decreases n
  {
    if n > 0 {
      BytesModulo(x / 256, n - 1);
      assert Bytes(x, n)[..n - 1] == Bytes(x / 256, n - 1);
      RemainderTwice(x, x / 256, x % 256, Pow256(n - 1));
    }
  }

  lemma RemainderTwice(x: nat, high: nat, low: nat, p: nat)
    requires x == 256 * high + low && low < 256 && p > 0
    ensures x % (256 * p) == 256 * (high % p) + low
  {
    var q, e := high / p, high % p;
    Regroup(x, high, low, p, q, e);
    QuotientIs(x, 256 * p, q, 256 * e + low);
  }

  lemma Regroup(x: nat, high: nat, low: nat, p: nat, q: nat, e: nat)
    requires x == 256 * high + low && high == q * p + e
    ensures x == q * (256 * p) + (256 * e + low)
  {
  }

  lemma ParentHere(bytes: seq<Byte>, at: nat, dg: Digests, oe: OutputElement)
    requires Here(bytes, at, OutputElementBytes(dg, oe))
    ensures HashAt(bytes, at, dg, oe.state.id.source) && WordAt(bytes, at + 32, oe.state.id.index)
    ensures WordAt(bytes, at + 40, oe.state.leafIndex) && WordAt(bytes, at + 48, |oe.state.merkleProof|)
    ensures OutputStands(bytes, at + 56, dg, oe.output) && WordAt(bytes, at + 104, oe.maturityHeight)
  {
    hide Uint64Bytes, OutputBytes, WordAt, OutputStands;
    var source, index, leaf, length, output, height := dg.hashBytes(oe.state.id.source),
      Uint64Bytes(oe.state.id.index), Uint64Bytes(oe.state.leafIndex), Uint64Bytes(|oe.state.merkleProof|),
      OutputBytes(dg, oe.output), Uint64Bytes(oe.maturityHeight);
    Split(bytes, at, StateElementBytes(dg, oe.state), output + height);
    Split(bytes, at + 56, output, height);
    Split(bytes, at, source + index, leaf + length);
    Split(bytes, at, source, index);
    Split(bytes, at + 40, leaf, length);
    WordHere(bytes, at + 32, oe.state.id.index);
    WordHere(bytes, at + 40, oe.state.leafIndex);
    WordHere(bytes, at + 48, |oe.state.merkleProof|);
    OutputHere(bytes, at + 56, dg, oe.output);
    WordHere(bytes, at + 104, oe.maturityHeight);
  }

  lemma {:induction false} InputsHere(bytes: seq<Byte>, at: nat, dg: Digests, inputs: seq<Input>)
    requires Here(bytes, at, InputsBytes(dg, inputs))
    ensures |InputsBytes(dg, inputs)| == 208 * |inputs|
    ensures forall k :: 0 <= k < |inputs| ==> InputStands(bytes, at + 208 * k, dg, inputs[k])
    decreases |inputs|
  {
    hide InputBytes, InputStands;
    if inputs != [] {
      Split(bytes, at, InputBytes(dg, inputs[0]), InputsBytes(dg, inputs[1..]));
      InputHere(bytes, at, dg, inputs[0]);
      InputsHere(bytes, at + 208, dg, inputs[1..]);
      forall k | 0 <= k < |inputs|
        ensures InputStands(bytes, at + 208 * k, dg, inputs[k])
      {
        if k > 0 {
          assert InputStands(bytes, at + 208 + 208 * (k - 1), dg, inputs[1..][k - 1]);
        }
      }
    }
  }

  lemma {:induction false} OutputsHere(bytes: seq<Byte>, at: nat, dg: Digests, outputs: seq<Output>)
    requires Here(bytes, at, OutputsBytes(dg, outputs))
    ensures |OutputsBytes(dg, outputs)| == 48 * |outputs|
    ensures forall k :: 0 <= k < |outputs| ==> OutputStands(bytes, at + 48 * k, dg, outputs[k])
    decreases |outputs|
  {
    hide OutputBytes, OutputStands;
    if outputs != [] {
      Split(bytes, at, OutputBytes(dg, outputs[0]), OutputsBytes(dg, outputs[1..]));
      OutputHere(bytes, at, dg, outputs[0]);
      OutputsHere(bytes, at + 48, dg, outputs[1..]);
      forall k | 0 <= k < |outputs|
        ensures OutputStands(bytes, at + 48 * k, dg, outputs[k])
      {
        if k > 0 {
          assert OutputStands(bytes, at + 48 + 48 * (k - 1), dg, outputs[1..][k - 1]);
        }
      }
    }
  }

  function TransactionSize(txn: Transaction): nat {
    33 + 208 * |txn.inputs| + 48 * |txn.outputs|
  }

  /** The version, the inputs behind their number, the outputs behind theirs, and the fee. */
  ghost predicate TransactionStands(bytes: seq<Byte>, at: nat, dg: Digests, txn: Transaction) {
    var outputs := at + 17 + 208 * |txn.inputs|;
    at + TransactionSize(txn) <= |bytes| && bytes[at] == 1 &&
    WordAt(bytes, at + 1, |txn.inputs|) &&
    (forall k :: 0 <= k < |txn.inputs| ==> InputStands(bytes, at + 9 + 208 * k, dg, txn.inputs[k])) &&
    WordAt(bytes, outputs - 8, |txn.outputs|) &&
    (forall k :: 0 <= k < |txn.outputs| ==> OutputStands(bytes, outputs + 48 * k, dg, txn.outputs[k])) &&
    AmountAt(bytes, outputs + 48 * |txn.outputs|, txn.minerFee)
  }

  lemma TransactionHere(bytes: seq<Byte>, at: nat, dg: Digests, txn: Transaction)
    requires Here(bytes, at, TransactionBytes(dg, txn))
    ensures |TransactionBytes(dg, txn)| == TransactionSize(txn) && TransactionStands(bytes, at, dg, txn)
  {
    hide Uint64Bytes, InputsBytes, OutputsBytes, CurrencyBytes, InputStands, OutputStands, WordAt, AmountAt, Here;
    var version: seq<Byte> := [VERSION];
    var n, inputs, m, outputs, fee := Uint64Bytes(|txn.inputs|), InputsBytes(dg, txn.inputs),
      Uint64Bytes(|txn.outputs|), OutputsBytes(dg, txn.outputs), CurrencyBytes(txn.minerFee);
    Split(bytes, at, version, n + (inputs + (m + (outputs + fee))));
    VersionHere(bytes, at);
    Split(bytes, at + 1, n, inputs + (m + (outputs + fee)));
    WordHere(bytes, at + 1, |txn.inputs|);
    Split(bytes, at + 9, inputs, m + (outputs + fee));
    InputsHere(bytes, at + 9, dg, txn.inputs);
    var next := at + 9 + 208 * |txn.inputs|;
    Split(bytes, next, m, outputs + fee);
    WordHere(bytes, next, |txn.outputs|);
    Split(bytes, next + 8, outputs, fee);
    OutputsHere(bytes, next + 8, dg, txn.outputs);
    AmountHere(bytes, next + 8 + 48 * |txn.outputs|, txn.minerFee);
    Fits(bytes, next + 8 + 48 * |txn.outputs|, fee);
  }

  // ---------------------------------------------------------------- blocks

  /** How many bytes the first i transactions take. */
  function SizeBefore(txns: seq<Transaction>, i: nat): nat
    requires i <= |txns|
  {
    if i == 0 then 0 else SizeBefore(txns, i - 1) + TransactionSize(txns[i - 1])
  }

  lemma {:induction false} SizeShift(txns: seq<Transaction>, i: nat)
    requires 0 < i <= |txns|
    ensures SizeBefore(txns, i) == TransactionSize(txns[0]) + SizeBefore(txns[1..], i - 1)
  {
    hide TransactionSize;
    if i > 1 {
      SizeShift(txns, i - 1);
    }
  }

  lemma {:induction false} TransactionsHere(bytes: seq<Byte>, at: nat, dg: Digests, txns: seq<Transaction>)
    requires Here(bytes, at, TransactionsBytes(dg, txns))
    ensures |TransactionsBytes(dg, txns)| == SizeBefore(txns, |txns|)
    ensures forall i :: 0 <= i < |txns| ==> TransactionStands(bytes, at + SizeBefore(txns, i), dg, txns[i])
    decreases |txns|
  {
    hide TransactionBytes, TransactionStands, TransactionSize;
    if txns != [] {
      Split(bytes, at, TransactionBytes(dg, txns[0]), TransactionsBytes(dg, txns[1..]));
      TransactionHere(bytes, at, dg, txns[0]);
      TransactionsHere(bytes, at + TransactionSize(txns[0]), dg, txns[1..]);
      SizeShift(txns, |txns|);
      forall i | 0 <= i < |txns|
        ensures TransactionStands(bytes, at + SizeBefore(txns, i), dg, txns[i])
      {
        if i > 0 {
          SizeShift(txns, i);
          var rest := txns[1..];
          assert TransactionStands(bytes, at + TransactionSize(txns[0]) + SizeBefore(rest, i - 1), dg, rest[i - 1]);
        }
      }
    }
  }

  lemma {:induction false} HashesHere(bytes: seq<Byte>, at: nat, dg: Digests, hs: seq<Hash>)
    requires Here(bytes, at, HashesBytes(dg, hs))
    ensures |HashesBytes(dg, hs)| == 32 * |hs|
    ensures forall k :: 0 <= k < |hs| ==> HashAt(bytes, at + 32 * k, dg, hs[k])
    decreases |hs|
  {
    if hs != [] {
      Split(bytes, at, dg.hashBytes(hs[0]), HashesBytes(dg, hs[1..]));
      HashesHere(bytes, at + 32, dg, hs[1..]);
      forall k | 0 <= k < |hs|
        ensures HashAt(bytes, at + 32 * k, dg, hs[k])
      {
        if k > 0 {
          assert HashAt(bytes, at + 32 + 32 * (k - 1), dg, hs[1..][k - 1]);
        }
      }
    }
  }

  /** The version, the header, the transactions behind their number, and the hashes of the multiproof. */
  ghost predicate BlockStands(bytes: seq<Byte>, at: nat, dg: Digests, b: Block, proof: seq<Hash>) {
    var hashes := at + 129 + SizeBefore(b.transactions, |b.transactions|);
    |bytes| == hashes + 32 * |proof| && bytes[at] == 1 &&
    HeaderStands(bytes, at + 1, dg, b.header) && WordAt(bytes, at + 121, |b.transactions|) &&
    (forall i :: 0 <= i < |b.transactions| ==>
      TransactionStands(bytes, at + 129 + SizeBefore(b.transactions, i), dg, b.transactions[i])) &&
    forall k :: 0 <= k < |proof| ==> HashAt(bytes, hashes + 32 * k, dg, proof[k])
  }
}
