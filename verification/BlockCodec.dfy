/**
  Encoding and decoding the core types, and blocks in compressed form
  (encoding.go:265-463, merkle/multiproof.go:138-257).
 */
module BlockCodec {
  import opened Types
  import opened Forest
  import opened Words
  import opened Work
  import opened Ledger
  import opened LedgerInvariant
  import opened Codec
  import opened Streams
  import opened Traversal
  import opened Multiproof
  import Update
  import opened Layout

  // ---------------------------------------------------------------- encoding

  /** Writing has appended the bytes, or failed, which takes more bytes than there is room for. */
  ghost predicate Wrote(err0: bool, before: seq<Byte>, err: bool, after: seq<Byte>, bytes: seq<Byte>, room: nat) {
    (err0 ==> err) && (!err ==> after == before + bytes) && (err && !err0 ==> |before| + |bytes| > room)
  }

  lemma WroteThen(err0: bool, w0: seq<Byte>, err1: bool, w1: seq<Byte>, err2: bool, w2: seq<Byte>, a: seq<Byte>,
          b: seq<Byte>, room: nat)
    requires Wrote(err0, w0, err1, w1, a, room) && Wrote(err1, w1, err2, w2, b, room)
    ensures Wrote(err0, w0, err2, w2, a + b, room)
  {
    assert w0 + a + b == w0 + (a + b);
  }

  method EncodeBytes(e: Encoder, p: seq<Byte>)
    requires e.Valid()
    modifies e, e.buf
    ensures e.Valid() && Wrote(old(e.err), old(e.Written()), e.err, e.Written(), p, e.room)
  {
    e.Write(p);
  }

  /** Several values one after the other. */
  method EncodeCurrency(e: Encoder, v: nat)
    requires e.Valid()
    modifies e, e.buf
    ensures e.Valid() && Wrote(old(e.err), old(e.Written()), e.err, e.Written(), CurrencyBytes(v), e.room)
  {
    hide Uint64Bytes;
    EncodeBytes(e, Uint64Bytes(v % WORD));
    ghost var err1, w1 := e.err, e.Written();
    EncodeBytes(e, Uint64Bytes(v / WORD));
    WroteThen(old(e.err), old(e.Written()), err1, w1, e.err, e.Written(), Uint64Bytes(v % WORD),
      Uint64Bytes(v / WORD), e.room);
  }

  method EncodeOutput(e: Encoder, dg: Digests, out: Output)
    requires e.Valid()
    modifies e, e.buf
    ensures e.Valid() && Wrote(old(e.err), old(e.Written()), e.err, e.Written(), OutputBytes(dg, out), e.room)
  {
    hide CurrencyBytes, Wrote;
    EncodeCurrency(e, out.value);
    ghost var err1, w1 := e.err, e.Written();
    EncodeBytes(e, dg.hashBytes(out.address));
    WroteThen(old(e.err), old(e.Written()), err1, w1, e.err, e.Written(), CurrencyBytes(out.value),
      dg.hashBytes(out.address), e.room);
  }

  method EncodeElementID(e: Encoder, dg: Digests, id: ElementID)
    requires e.Valid()
    modifies e, e.buf
    ensures e.Valid() && Wrote(old(e.err), old(e.Written()), e.err, e.Written(), ElementIDBytes(dg, id), e.room)
  {
    hide Uint64Bytes, Wrote;
    EncodeBytes(e, dg.hashBytes(id.source));
    ghost var err1, w1 := e.err, e.Written();
    EncodeBytes(e, Uint64Bytes(id.index));
    WroteThen(old(e.err), old(e.Written()), err1, w1, e.err, e.Written(), dg.hashBytes(id.source),
      Uint64Bytes(id.index), e.room);
  }

  method EncodeStateElement(e: Encoder, dg: Digests, se: StateElement)
    requires e.Valid()
    modifies e, e.buf
    ensures e.Valid() && Wrote(old(e.err), old(e.Written()), e.err, e.Written(), StateElementBytes(dg, se), e.room)
  {
    hide Uint64Bytes, ElementIDBytes, Wrote;
    var index, length := Uint64Bytes(se.leafIndex), Uint64Bytes(|se.merkleProof|);
    EncodeElementID(e, dg, se.id);
    ghost var err1, w1 := e.err, e.Written();
    EncodeBytes(e, index);
    ghost var err2, w2 := e.err, e.Written();
    EncodeBytes(e, length); // the hashes themselves are not written
    WroteThen(err1, w1, err2, w2, e.err, e.Written(), index, length, e.room);
    WroteThen(old(e.err), old(e.Written()), err1, w1, e.err, e.Written(), ElementIDBytes(dg, se.id), index + length,
      e.room);
  }

  method EncodeOutputElement(e: Encoder, dg: Digests, oe: OutputElement)
    requires e.Valid()
    modifies e, e.buf
    ensures e.Valid() && Wrote(old(e.err), old(e.Written()), e.err, e.Written(), OutputElementBytes(dg, oe), e.room)
  {
    hide Uint64Bytes, StateElementBytes, OutputBytes, Wrote;
    EncodeStateElement(e, dg, oe.state);
    ghost var err1, w1 := e.err, e.Written();
    EncodeOutput(e, dg, oe.output);
    ghost var err2, w2 := e.err, e.Written();
    EncodeBytes(e, Uint64Bytes(oe.maturityHeight));
    WroteThen(err1, w1, err2, w2, e.err, e.Written(), OutputBytes(dg, oe.output), Uint64Bytes(oe.maturityHeight),
      e.room);
    WroteThen(old(e.err), old(e.Written()), err1, w1, e.err, e.Written(), StateElementBytes(dg, oe.state),
              OutputBytes(dg, oe.output) + Uint64Bytes(oe.maturityHeight), e.room);
  }

  method EncodeInput(e: Encoder, dg: Digests, input: Input)
    requires e.Valid()
    modifies e, e.buf
    ensures e.Valid() && Wrote(old(e.err), old(e.Written()), e.err, e.Written(), InputBytes(dg, input), e.room)
  {
    hide OutputElementBytes, KeyBytes, Wrote;
    EncodeOutputElement(e, dg, input.parent);
    ghost var err1, w1 := e.err, e.Written();
    EncodeBytes(e, KeyBytes(input.publicKey));
    ghost var err2, w2 := e.err, e.Written();
    EncodeBytes(e, dg.sigBytes(input.signature));
    WroteThen(err1, w1, err2, w2, e.err, e.Written(), KeyBytes(input.publicKey), dg.sigBytes(input.signature), e.room);
    WroteThen(old(e.err), old(e.Written()), err1, w1, e.err, e.Written(), OutputElementBytes(dg, input.parent),
              KeyBytes(input.publicKey) + dg.sigBytes(input.signature), e.room);
  }

  lemma WroteNothing(err: bool, w: seq<Byte>, room: nat)
    ensures Wrote(err, w, err, w, [], room)
  {
    assert w + [] == w;
  }

  /** The loop over a list: what is done, and the bytes of what is left, make up the bytes of the whole. */
  method EncodeInputs(e: Encoder, dg: Digests, inputs: seq<Input>)
    requires e.Valid()
    modifies e, e.buf
    ensures e.Valid() && Wrote(old(e.err), old(e.Written()), e.err, e.Written(), InputsBytes(dg, inputs), e.room)
  {
    hide InputBytes, Wrote;
    WroteNothing(e.err, e.Written(), e.room);
    ghost var done: seq<Byte> := [];
    for i := 0 to |inputs|
      invariant e.Valid() && Wrote(old(e.err), old(e.Written()), e.err, e.Written(), done, e.room)
      invariant done + InputsBytes(dg, inputs[i..]) == InputsBytes(dg, inputs)
    {
      ghost var err1, w1 := e.err, e.Written();
      EncodeInput(e, dg, inputs[i]);
      WroteThen(old(e.err), old(e.Written()), err1, w1, e.err, e.Written(), done, InputBytes(dg, inputs[i]), e.room);
      done := done + InputBytes(dg, inputs[i]);
    }
    assert done == InputsBytes(dg, inputs);
  }

  method EncodeOutputs(e: Encoder, dg: Digests, outputs: seq<Output>)
    requires e.Valid()
    modifies e, e.buf
    ensures e.Valid() && Wrote(old(e.err), old(e.Written()), e.err, e.Written(), OutputsBytes(dg, outputs), e.room)
  {
    hide OutputBytes, Wrote;
    WroteNothing(e.err, e.Written(), e.room);
    ghost var done: seq<Byte> := [];
    for i := 0 to |outputs|
      invariant e.Valid() && Wrote(old(e.err), old(e.Written()), e.err, e.Written(), done, e.room)
      invariant done + OutputsBytes(dg, outputs[i..]) == OutputsBytes(dg, outputs)
    {
      ghost var err1, w1 := e.err, e.Written();
      EncodeOutput(e, dg, outputs[i]);
      WroteThen(old(e.err), old(e.Written()), err1, w1, e.err, e.Written(), done, OutputBytes(dg, outputs[i]), e.room);
      done := done + OutputBytes(dg, outputs[i]);
    }
    assert done == OutputsBytes(dg, outputs);
  }

  method EncodeHashes(e: Encoder, dg: Digests, hs: seq<Hash>)
    requires e.Valid()
    modifies e, e.buf
    ensures e.Valid() && Wrote(old(e.err), old(e.Written()), e.err, e.Written(), HashesBytes(dg, hs), e.room)
  {
    hide Wrote;
    WroteNothing(e.err, e.Written(), e.room);
    ghost var done: seq<Byte> := [];
    for i := 0 to |hs|
      invariant e.Valid() && Wrote(old(e.err), old(e.Written()), e.err, e.Written(), done, e.room)
      invariant done + HashesBytes(dg, hs[i..]) == HashesBytes(dg, hs)
    {
      ghost var err1, w1 := e.err, e.Written();
      EncodeBytes(e, dg.hashBytes(hs[i]));
      WroteThen(old(e.err), old(e.Written()), err1, w1, e.err, e.Written(), done, dg.hashBytes(hs[i]), e.room);
      done := done + dg.hashBytes(hs[i]);
    }
    assert done == HashesBytes(dg, hs);
  }

  method EncodeTransaction(e: Encoder, dg: Digests, txn: Transaction)
    requires e.Valid()
    modifies e, e.buf
    ensures e.Valid() && Wrote(old(e.err), old(e.Written()), e.err, e.Written(), TransactionBytes(dg, txn), e.room)
    ensures !e.err ==> |e.Written()| == |old(e.Written())| + TransactionSize(txn)
    ensures !e.err ==> TransactionStands(e.Written(), |old(e.Written())|, dg, txn)
  {
    hide Wrote, Uint64Bytes, InputsBytes, OutputsBytes, CurrencyBytes;
    var version: seq<Byte>, n, m := [VERSION], Uint64Bytes(|txn.inputs|), Uint64Bytes(|txn.outputs|);
    ghost var inputs, outputs, fee :=
      InputsBytes(dg, txn.inputs), OutputsBytes(dg, txn.outputs), CurrencyBytes(txn.minerFee);
    EncodeBytes(e, version);
    ghost var err1, w1 := e.err, e.Written();
    EncodeBytes(e, n);
    ghost var err2, w2 := e.err, e.Written();
    EncodeInputs(e, dg, txn.inputs);
    ghost var err3, w3 := e.err, e.Written();
    EncodeBytes(e, m);
    ghost var err4, w4 := e.err, e.Written();
    EncodeOutputs(e, dg, txn.outputs);
    ghost var err5, w5 := e.err, e.Written();
    EncodeCurrency(e, txn.minerFee);
    WroteThen(err4, w4, err5, w5, e.err, e.Written(), outputs, fee, e.room);
    WroteThen(err3, w3, err4, w4, e.err, e.Written(), m, outputs + fee, e.room);
    WroteThen(err2, w2, err3, w3, e.err, e.Written(), inputs, m + (outputs + fee), e.room);
    WroteThen(err1, w1, err2, w2, e.err, e.Written(), n, inputs + (m + (outputs + fee)), e.room);
    WroteThen(old(e.err), old(e.Written()), err1, w1, e.err, e.Written(), version,
      n + (inputs + (m + (outputs + fee))), e.room);
    if !e.err {
      WroteHere(old(e.err), old(e.Written()), e.Written(), TransactionBytes(dg, txn), e.room);
      TransactionHere(e.Written(), |old(e.Written())|, dg, txn);
    }
  }

  /** What was written stands where the stream ended before. */
  lemma WroteHere(err0: bool, before: seq<Byte>, after: seq<Byte>, bytes: seq<Byte>, room: nat)
    requires Wrote(err0, before, false, after, bytes, room)
    ensures Here(after, |before|, bytes) && |after| == |before| + |bytes| && after[..|before|] == before
  {
  }

  method EncodeTransactions(e: Encoder, dg: Digests, txns: seq<Transaction>)
    requires e.Valid()
    modifies e, e.buf
    ensures e.Valid() && Wrote(old(e.err), old(e.Written()), e.err, e.Written(), TransactionsBytes(dg, txns), e.room)
  {
    hide TransactionBytes, Wrote;
    WroteNothing(e.err, e.Written(), e.room);
    ghost var done: seq<Byte> := [];
    for i := 0 to |txns|
      invariant e.Valid() && Wrote(old(e.err), old(e.Written()), e.err, e.Written(), done, e.room)
      invariant done + TransactionsBytes(dg, txns[i..]) == TransactionsBytes(dg, txns)
    {
      ghost var err1, w1 := e.err, e.Written();
      EncodeTransaction(e, dg, txns[i]);
      WroteThen(old(e.err), old(e.Written()), err1, w1, e.err, e.Written(), done, TransactionBytes(dg, txns[i]),
        e.room);
      done := done + TransactionBytes(dg, txns[i]);
    }
    assert done == TransactionsBytes(dg, txns);
  }

  method EncodeHeader(e: Encoder, dg: Digests, h: BlockHeader)
    requires e.Valid()
    modifies e, e.buf
    ensures e.Valid() && Wrote(old(e.err), old(e.Written()), e.err, e.Written(), HeaderBytes(dg, h), e.room)
    ensures !e.err ==>
      |e.Written()| == |old(e.Written())| + 120 && HeaderStands(e.Written(), |old(e.Written())|, dg, h)
  {
    hide Wrote, Uint64Bytes, TimeWord;
    var height, nonce, time := Uint64Bytes(h.height), Uint64Bytes(h.nonce), Uint64Bytes(TimeWord(h.timestamp));
    var parentID, address, commitment :=
      dg.hashBytes(h.parentID), dg.hashBytes(h.minerAddress), dg.hashBytes(h.commitment);
    EncodeBytes(e, height);
    ghost var err1, w1 := e.err, e.Written();
    EncodeBytes(e, parentID);
    ghost var err2, w2 := e.err, e.Written();
    EncodeBytes(e, nonce);
    ghost var err3, w3 := e.err, e.Written();
    EncodeBytes(e, time);
    ghost var err4, w4 := e.err, e.Written();
    EncodeBytes(e, address);
    ghost var err5, w5 := e.err, e.Written();
    EncodeBytes(e, commitment);
    WroteThen(err4, w4, err5, w5, e.err, e.Written(), address, commitment, e.room);
    WroteThen(err3, w3, err4, w4, e.err, e.Written(), time, address + commitment, e.room);
    WroteThen(err2, w2, err3, w3, e.err, e.Written(), nonce, time + (address + commitment), e.room);
    WroteThen(err1, w1, err2, w2, e.err, e.Written(), parentID, nonce + (time + (address + commitment)), e.room);
    WroteThen(old(e.err), old(e.Written()), err1, w1, e.err, e.Written(), height,
      parentID + (nonce + (time + (address + commitment))), e.room);
    if !e.err {
      WroteHere(old(e.err), old(e.Written()), e.Written(), HeaderBytes(dg, h), e.room);
      HeaderHere(e.Written(), |old(e.Written())|, dg, h);
    }
  }

  // ---------------------------------------------------------------- compressed blocks

  /** The proofs that the inputs carry. */
  function Proofs(inputs: seq<Input>): (proofs: seq<seq<Hash>>)
    ensures |proofs| == |inputs|
    ensures forall k :: 0 <= k < |inputs| ==> proofs[k] == inputs[k].parent.state.merkleProof
  {
    seq(|inputs|, k requires 0 <= k < |inputs| => inputs[k].parent.state.merkleProof)
  }

  /** The positions of a block's inputs are words, and their proofs shorter than 64. */
  ghost predicate ReadableBlock(b: Block) {
    Readable(AllInputs(b.transactions), Proofs(AllInputs(b.transactions)))
  }

  /** The hashes that the block's proofs are merged into. */
  ghost function MergedHashes(b: Block): (r: seq<Hash>)
    requires ReadableBlock(b)
    ensures |r| == SizeIn(b)
  {
    HashesOf(AllInputs(b.transactions), Proofs(AllInputs(b.transactions)))
  }

  /** How many they are. */
  ghost function SizeIn(b: Block): nat
    requires ReadableBlock(b)
  {
    SizeOf(AllInputs(b.transactions), Proofs(AllInputs(b.transactions)))
  }

  /** A compressed block: its proofs are merged, and follow without a length. */
  function BlockBytes(dg: Digests, b: Block, proof: seq<Hash>): seq<Byte> {
    [VERSION] + (HeaderBytes(dg, b.header) +
    (Uint64Bytes(|b.transactions|) + (TransactionsBytes(dg, b.transactions) + HashesBytes(dg, proof))))
  }

  /** The inputs of a block, by the nested loops that collect them. */
  method CollectInputs(txns: seq<Transaction>) returns (inputs: seq<Input>)
    ensures inputs == AllInputs(txns)
  {
    inputs := [];
    for i := 0 to |txns|
      invariant inputs == AllInputs(txns[..i])
    {
      Update.NextInputs(txns, i);
      inputs := inputs + txns[i].inputs;
    }
    assert txns[..|txns|] == txns;
  }

  method EncodeBlock(e: Encoder, dg: Digests, b: Block)
    requires e.Valid() && ReadableBlock(b)
    modifies e, e.buf
    ensures e.Valid()
    ensures Wrote(old(e.err), old(e.Written()), e.err, e.Written(), BlockBytes(dg, b, MergedHashes(b)), e.room)
    ensures !e.err ==> BlockStands(e.Written(), |old(e.Written())|, dg, b, MergedHashes(b))
  {
    hide Wrote, Uint64Bytes, HeaderBytes, TransactionsBytes, HashesBytes, AllInputs, HashesOf, SizeOf, Readable;
    var version: seq<Byte>, n := [VERSION], Uint64Bytes(|b.transactions|);
    ghost var header, txns := HeaderBytes(dg, b.header), TransactionsBytes(dg, b.transactions);
    EncodeBytes(e, version);
    ghost var err1, w1 := e.err, e.Written();
    EncodeHeader(e, dg, b.header);
    ghost var err2, w2 := e.err, e.Written();
    EncodeBytes(e, n);
    ghost var err3, w3 := e.err, e.Written();
    EncodeTransactions(e, dg, b.transactions);
    ghost var err4, w4 := e.err, e.Written();
    var inputs := CollectInputs(b.transactions);
    var proof := ComputeMultiproof(inputs, Proofs(inputs));
    EncodeHashes(e, dg, proof);
    ghost var hs := HashesBytes(dg, proof);
    WroteThen(err3, w3, err4, w4, e.err, e.Written(), txns, hs, e.room);
    WroteThen(err2, w2, err3, w3, e.err, e.Written(), n, txns + hs, e.room);
    WroteThen(err1, w1, err2, w2, e.err, e.Written(), header, n + (txns + hs), e.room);
    WroteThen(old(e.err), old(e.Written()), err1, w1, e.err, e.Written(), version, header + (n + (txns + hs)), e.room);
    if !e.err {
      WroteHere(old(e.err), old(e.Written()), e.Written(), BlockBytes(dg, b, MergedHashes(b)), e.room);
      BlockHere(e.Written(), |old(e.Written())|, dg, b, MergedHashes(b));
    }
  }

  lemma BlockHere(bytes: seq<Byte>, at: nat, dg: Digests, b: Block, proof: seq<Hash>)
    requires Here(bytes, at, BlockBytes(dg, b, proof)) && |bytes| == at + |BlockBytes(dg, b, proof)|
    ensures BlockStands(bytes, at, dg, b, proof)
  {
    hide Here, Uint64Bytes, HeaderBytes, TransactionsBytes, HashesBytes, HeaderStands, TransactionStands, WordAt,
      HashAt, SizeBefore, TransactionSize;
    var version: seq<Byte>, n := [VERSION], Uint64Bytes(|b.transactions|);
    var header, txns, hs := HeaderBytes(dg, b.header), TransactionsBytes(dg, b.transactions), HashesBytes(dg, proof);
    Split(bytes, at, version, header + (n + (txns + hs)));
    VersionHere(bytes, at);
    Split(bytes, at + 1, header, n + (txns + hs));
    HeaderHere(bytes, at + 1, dg, b.header);
    Split(bytes, at + 121, n, txns + hs);
    WordHere(bytes, at + 121, |b.transactions|);
    Split(bytes, at + 129, txns, hs);
    TransactionsHere(bytes, at + 129, dg, b.transactions);
    var hashes := at + 129 + SizeBefore(b.transactions, |b.transactions|);
    HashesHere(bytes, hashes, dg, proof);
    assert |bytes| == hashes + 32 * |proof|;
  }

  // ---------------------------------------------------------------- decoding

  /** A decoder has made of its stream what the format says; after a failure its values mean nothing. */
  ghost predicate Got<T>(err0: bool, err: bool, v: T, rest: Source, p: Parsed<T>) {
    (err0 ==> err) && (!err0 ==> (err <==> p.Failed?)) && (!err ==> p == Parsed(v, rest))
  }

  method DecodeUint64(d: Decoder) returns (x: nat)
    requires d.Valid()
    modifies d, d.buf
    ensures d.Valid() && Got(old(d.err), d.err, x, d.src, ParseUint64(old(d.src)))
  {
    hide ParseUint64;
    x := d.ReadUint64();
  }

  method DecodePrefix(d: Decoder) returns (n: nat)
    requires d.Valid()
    modifies d, d.buf
    ensures d.Valid() && Got(old(d.err), d.err, n, d.src, ParsePrefix(old(d.src)))
  {
    hide ParsePrefix;
    n := d.ReadPrefix();
  }

  method DecodeHash(d: Decoder, dg: Digests) returns (h: Hash)
    requires d.Valid()
    modifies d, d.buf
    ensures d.Valid() && Got(old(d.err), d.err, h, d.src, ParseHash(dg, old(d.src)))
  {
    var p := d.Read(32);
    h := dg.hashOf(p);
  }

  method DecodeKey(d: Decoder) returns (key: nat)
    requires d.Valid()
    modifies d, d.buf
    ensures d.Valid() && Got(old(d.err), d.err, key, d.src, ParseKey(old(d.src)))
  {
    hide Value;
    var p := d.Read(32);
    key := Value(p);
  }

  method DecodeSignature(d: Decoder, dg: Digests) returns (sig: Signature)
    requires d.Valid()
    modifies d, d.buf
    ensures d.Valid() && Got(old(d.err), d.err, sig, d.src, ParseSignature(dg, old(d.src)))
  {
    var p := d.Read(64);
    sig := dg.sigOf(p);
  }

  method DecodeCurrency(d: Decoder) returns (v: nat)
    requires d.Valid()
    modifies d, d.buf
    ensures d.Valid() && Got(old(d.err), d.err, v, d.src, ParseCurrency(old(d.src)))
  {
    hide ParseUint64;
    var lo := DecodeUint64(d);
    var hi := DecodeUint64(d);
    v := hi * WORD + lo;
  }

  method DecodeOutput(d: Decoder, dg: Digests) returns (out: Output)
    requires d.Valid()
    modifies d, d.buf
    ensures d.Valid() && Got(old(d.err), d.err, out, d.src, ParseOutput(dg, old(d.src)))
  {
    hide ParseCurrency, ParseHash;
    var value := DecodeCurrency(d);
    var address := DecodeHash(d, dg);
    out := Output(value, address);
  }

  method DecodeElementID(d: Decoder, dg: Digests) returns (id: ElementID)
    requires d.Valid()
    modifies d, d.buf
    ensures d.Valid() && Got(old(d.err), d.err, id, d.src, ParseElementID(dg, old(d.src)))
  {
    hide ParseUint64, ParseHash;
    var source := DecodeHash(d, dg);
    var index := DecodeUint64(d);
    id := ElementID(source, index);
  }

  method DecodeStateElement(d: Decoder, dg: Digests) returns (se: StateElement)
    requires d.Valid()
    modifies d, d.buf
    ensures d.Valid() && Got(old(d.err), d.err, se, d.src, ParseStateElement(dg, old(d.src)))
  {
    hide ParseUint64, ParsePrefix, ParseElementID;
    var id := DecodeElementID(d, dg);
    var leafIndex := DecodeUint64(d);
    var length := DecodePrefix(d);
    se := StateElement(id, leafIndex, Zeros(length)); // the hashes come later
    if |se.merkleProof| >= 64 {
      d.SetErr();
    }
  }

  method DecodeOutputElement(d: Decoder, dg: Digests) returns (oe: OutputElement)
    requires d.Valid()
    modifies d, d.buf
    ensures d.Valid() && Got(old(d.err), d.err, oe, d.src, ParseOutputElement(dg, old(d.src)))
  {
    hide ParseUint64, ParseStateElement, ParseOutput;
    var state := DecodeStateElement(d, dg);
    var output := DecodeOutput(d, dg);
    var maturityHeight := DecodeUint64(d);
    oe := OutputElement(state, output, maturityHeight);
  }

  method DecodeInput(d: Decoder, dg: Digests) returns (input: Input)
    requires d.Valid()
    modifies d, d.buf
    ensures d.Valid() && Got(old(d.err), d.err, input, d.src, ParseInput(dg, old(d.src)))
  {
    hide ParseOutputElement, ParseKey, ParseSignature;
    var parent := DecodeOutputElement(d, dg);
    var key := DecodeKey(d);
    var sig := DecodeSignature(d, dg);
    input := Input(parent, key, sig);
  }

  /** Parsing n items is parsing i of them, and then the rest. */
  ghost function Front<T>(done: seq<T>, more: Parsed<seq<T>>): Parsed<seq<T>> {
    if more.Failed? then Failed else Parsed(done + more.value, more.rest)
  }

  lemma FrontEmpty<T>(more: Parsed<seq<T>>)
    ensures Front([], more) == more
  {
    if more.Parsed? {
      assert [] + more.value == more.value;
    }
  }

  lemma FrontStep<T>(done: seq<T>, x: T, more: Parsed<seq<T>>)
    ensures Front(done + [x], more) == Front(done, if more.Failed? then Failed else Parsed([x] + more.value, more.rest))
  {
    if more.Parsed? {
      assert done + [x] + more.value == done + ([x] + more.value);
    }
  }

  lemma FrontAll<T>(done: seq<T>, s: Source)
    ensures Front(done, Parsed([], s)) == Parsed(done, s)
  {
    assert done + [] == done;
  }

  method DecodeInputs(d: Decoder, dg: Digests, n: nat) returns (inputs: seq<Input>)
    requires d.Valid()
    modifies d, d.buf
    ensures d.Valid() && Got(old(d.err), d.err, inputs, d.src, ParseInputs(dg, old(d.src), n))
  {
    hide ParseInput;
    inputs := [];
    FrontEmpty(ParseInputs(dg, d.src, n));
    for i := 0 to n
      invariant d.Valid() && |inputs| == i && (old(d.err) ==> d.err)
      invariant !old(d.err) && d.err ==> ParseInputs(dg, old(d.src), n).Failed?
      invariant !d.err ==> ParseInputs(dg, old(d.src), n) == Front(inputs, ParseInputs(dg, d.src, n - i))
    {
      var input := DecodeInput(d, dg);
      FrontStep(inputs, input, ParseInputs(dg, d.src, n - i - 1));
      inputs := inputs + [input];
    }
    FrontAll(inputs, d.src);
  }

  method DecodeOutputs(d: Decoder, dg: Digests, n: nat) returns (outputs: seq<Output>)
    requires d.Valid()
    modifies d, d.buf
    ensures d.Valid() && Got(old(d.err), d.err, outputs, d.src, ParseOutputs(dg, old(d.src), n))
  {
    hide ParseOutput;
    outputs := [];
    FrontEmpty(ParseOutputs(dg, d.src, n));
    for i := 0 to n
      invariant d.Valid() && |outputs| == i && (old(d.err) ==> d.err)
      invariant !old(d.err) && d.err ==> ParseOutputs(dg, old(d.src), n).Failed?
      invariant !d.err ==> ParseOutputs(dg, old(d.src), n) == Front(outputs, ParseOutputs(dg, d.src, n - i))
    {
      var output := DecodeOutput(d, dg);
      FrontStep(outputs, output, ParseOutputs(dg, d.src, n - i - 1));
      outputs := outputs + [output];
    }
    FrontAll(outputs, d.src);
  }

  method DecodeHashes(d: Decoder, dg: Digests, n: nat) returns (hs: seq<Hash>)
    requires d.Valid()
    modifies d, d.buf
    ensures d.Valid() && |hs| == n && Got(old(d.err), d.err, hs, d.src, ParseHashes(dg, old(d.src), n))
  {
    hide ParseHash;
    hs := [];
    FrontEmpty(ParseHashes(dg, d.src, n));
    for i := 0 to n
      invariant d.Valid() && |hs| == i && (old(d.err) ==> d.err)
      invariant !old(d.err) && d.err ==> ParseHashes(dg, old(d.src), n).Failed?
      invariant !d.err ==> ParseHashes(dg, old(d.src), n) == Front(hs, ParseHashes(dg, d.src, n - i))
    {
      var h := DecodeHash(d, dg);
      FrontStep(hs, h, ParseHashes(dg, d.src, n - i - 1));
      hs := hs + [h];
    }
    FrontAll(hs, d.src);
  }

  method DecodeTransaction(d: Decoder, dg: Digests) returns (txn: Transaction)
    requires d.Valid()
    modifies d, d.buf
    ensures d.Valid() && Got(old(d.err), d.err, txn, d.src, ParseTransaction(dg, old(d.src)))
  {
    hide ParsePrefix, ParseInputs, ParseOutputsAndFee;
    var version := d.ReadUint8();
    if version != VERSION {
      d.SetErr();
      return Transaction([], [], 0);
    }
    var n := DecodePrefix(d);
    var inputs := DecodeInputs(d, dg, n);
    txn := DecodeOutputsAndFee(d, dg, inputs);
  }

  method DecodeOutputsAndFee(d: Decoder, dg: Digests, inputs: seq<Input>) returns (txn: Transaction)
    requires d.Valid()
    modifies d, d.buf
    ensures d.Valid() && Got(old(d.err), d.err, txn, d.src, ParseOutputsAndFee(dg, old(d.src), inputs))
  {
    hide ParsePrefix, ParseOutputs, ParseCurrency;
    var m := DecodePrefix(d);
    var outputs := DecodeOutputs(d, dg, m);
    var fee := DecodeCurrency(d);
    txn := Transaction(inputs, outputs, fee);
  }

  method DecodeTransactions(d: Decoder, dg: Digests, n: nat) returns (txns: seq<Transaction>)
    requires d.Valid()
    modifies d, d.buf
    ensures d.Valid() && Got(old(d.err), d.err, txns, d.src, ParseTransactions(dg, old(d.src), n))
  {
    hide ParseTransaction;
    txns := [];
    FrontEmpty(ParseTransactions(dg, d.src, n));
    for i := 0 to n
      invariant d.Valid() && |txns| == i && (old(d.err) ==> d.err)
      invariant !old(d.err) && d.err ==> ParseTransactions(dg, old(d.src), n).Failed?
      invariant !d.err ==> ParseTransactions(dg, old(d.src), n) == Front(txns, ParseTransactions(dg, d.src, n - i))
    {
      var txn := DecodeTransaction(d, dg);
      FrontStep(txns, txn, ParseTransactions(dg, d.src, n - i - 1));
      txns := txns + [txn];
    }
    FrontAll(txns, d.src);
  }

  method DecodeHeader(d: Decoder, dg: Digests) returns (h: BlockHeader)
    requires d.Valid()
    modifies d, d.buf
    ensures d.Valid() && Got(old(d.err), d.err, h, d.src, ParseHeader(dg, old(d.src)))
  {
    hide ParseUint64, ParseHash, WordTime;
    var height := DecodeUint64(d);
    var parentID := DecodeHash(d, dg);
    var nonce := DecodeUint64(d);
    var time := DecodeUint64(d);
    var address := DecodeHash(d, dg);
    var commitment := DecodeHash(d, dg);
    h := BlockHeader(height, parentID, nonce, WordTime(time), address, commitment);
  }

  // ---------------------------------------------------------------- the round trip

  /** Everything in the block fits its format, and its merged proofs are hashes that can be written. */
  ghost predicate EncodableBlock(dg: Digests, b: Block) {
    EncodableHeader(dg, b.header) && |b.transactions| < WORD && ReadableBlock(b) &&
    (forall i :: 0 <= i < |b.transactions| ==> EncodableTransaction(dg, b.transactions[i])) &&
    forall i :: 0 <= i < |MergedHashes(b)| ==> Faithful(dg, MergedHashes(b)[i])
  }

  /** Only the length of an ephemeral input's proof is encoded. */
  function RoundedInput(input: Input): Input {
    if input.parent.Ephemeral() then StrippedInput(input) else input
  }

  function RoundedTransaction(txn: Transaction): Transaction {
    txn.(inputs := seq(|txn.inputs|, m requires 0 <= m < |txn.inputs| => RoundedInput(txn.inputs[m])))
  }

  /** The block as it comes back: whole seconds, and ephemeral proofs that are all zero. */
  function Rounded(b: Block): Block {
    Block(WholeSeconds(b.header),
      seq(|b.transactions|, i requires 0 <= i < |b.transactions| => RoundedTransaction(b.transactions[i])))
  }

  /** It is the same block exactly when nothing was there to be lost. */
  lemma RoundedIsSame(b: Block)
    ensures Rounded(b) == b <==>
      b.header.timestamp % SECOND == 0 &&
      forall i, m ::
        0 <= i < |b.transactions| && 0 <= m < |b.transactions[i].inputs| &&
        b.transactions[i].inputs[m].parent.Ephemeral() ==>
        var proof := b.transactions[i].inputs[m].parent.state.merkleProof; proof == Zeros(|proof|)
  {
    SameID(b.header);
    if Rounded(b) == b {
      forall i, m | 0 <= i < |b.transactions| && 0 <= m < |b.transactions[i].inputs|
        ensures RoundedInput(b.transactions[i].inputs[m]) == b.transactions[i].inputs[m]
      {
        assert Rounded(b).transactions[i] == RoundedTransaction(b.transactions[i]);
        assert RoundedTransaction(b.transactions[i]).inputs[m] == RoundedInput(b.transactions[i].inputs[m]);
      }
    }
    if forall i, m :: 0 <= i < |b.transactions| && 0 <= m < |b.transactions[i].inputs| ==>
        RoundedInput(b.transactions[i].inputs[m]) == b.transactions[i].inputs[m] {
      forall i | 0 <= i < |b.transactions|
        ensures RoundedTransaction(b.transactions[i]) == b.transactions[i]
      {
        assert RoundedTransaction(b.transactions[i]).inputs == b.transactions[i].inputs;
      }
      assert Rounded(b).transactions == b.transactions;
    }
  }

  lemma {:induction false} StrippedAll(txns: seq<Transaction>)
    ensures AllInputs(StrippedTransactions(txns)) == StrippedInputs(AllInputs(txns))
    decreases |txns|
  {
    if txns != [] {
      var n := |txns| - 1;
      StrippedAll(txns[..n]);
      assert StrippedTransactions(txns)[..n] == StrippedTransactions(txns[..n]);
      assert StrippedInputs(AllInputs(txns[..n]) + txns[n].inputs) ==
        StrippedInputs(AllInputs(txns[..n])) + StrippedInputs(txns[n].inputs);
    }
  }

  /** Without their data the proofs still have their lengths, so they take as many hashes. */
  lemma StrippedSize(inputs: seq<Input>)
    requires Readable(inputs, Proofs(inputs))
    ensures Readable(StrippedInputs(inputs), Proofs(StrippedInputs(inputs)))
    ensures SizeOf(StrippedInputs(inputs), Proofs(StrippedInputs(inputs))) == SizeOf(inputs, Proofs(inputs))
  {
    var stripped := StrippedInputs(inputs);
    assert Readable(stripped, Proofs(stripped));
    StrippedSizeFrom(inputs, stripped, Proofs(inputs), Proofs(stripped), 0);
  }

  lemma {:induction false} StrippedSizeFrom(a: seq<Input>, b: seq<Input>, pa: seq<seq<Hash>>, pb: seq<seq<Hash>>,
    h: nat)
    requires Readable(a, pa) && Readable(b, pb) && b == StrippedInputs(a)
    requires |pa| == |pb| && forall k :: 0 <= k < |pa| ==> |pa[k]| == |pb[k]|
    ensures SizeFrom(a, pa, h) == SizeFrom(b, pb, h)
    decreases MAX_TREES - h
  {
    hide TreeSize, Readable, StrippedInputs, Multiproof.Tree;
    if h < MAX_TREES {
      StrippedTree(a, b, pa, pb, h);
      StrippedSizeFrom(a, b, pa, pb, h + 1);
    }
  }

  lemma StrippedTree(a: seq<Input>, b: seq<Input>, pa: seq<seq<Hash>>, pb: seq<seq<Hash>>, h: nat)
    requires Readable(a, pa) && Readable(b, pb) && b == StrippedInputs(a)
    requires |pa| == |pb| && forall k :: 0 <= k < |pa| ==> |pa[k]| == |pb[k]|
    ensures h < MAX_TREES ==> TreeSize(a, pa, h) == TreeSize(b, pb, h)
  {
    hide NodeSize, Node;
    StrippedGroup(a, b, pa, pb, h);
  }

  lemma {:induction false} StrippedGroup(a: seq<Input>, b: seq<Input>, pa: seq<seq<Hash>>, pb: seq<seq<Hash>>, h: nat)
    requires |a| == |b| == |pa| == |pb| && forall k :: 0 <= k < |a| ==>
      b[k] == StrippedInput(a[k]) && |pa[k]| == |pb[k]|
    ensures Group(a, pa, h) == Group(b, pb, h)
    decreases |a|
  {
    if a != [] {
      var k := |a| - 1;
      StrippedGroup(a[..k], b[..k], pa[..k], pb[..k], h);
    }
  }

  /** Without their data the proofs still have the right lengths, and the inputs the same multiproof. */
  lemma StrippedSized(inputs: seq<Input>, xs: seq<Hash>)
    requires Consistent(inputs, Proofs(inputs), xs)
    ensures Sized(StrippedInputs(inputs), Proofs(StrippedInputs(inputs)), xs)
    ensures MultiproofOf(StrippedInputs(inputs), xs) == MultiproofOf(inputs, xs)
  {
    hide MultiproofFrom;
    var stripped := StrippedInputs(inputs);
    forall k | 0 <= k < |inputs| && !stripped[k].parent.Ephemeral()
      ensures InputSized(stripped[k], Proofs(stripped)[k], xs)
    {
      assert InputSized(inputs[k], Proofs(inputs)[k], xs);
    }
    assert Positions(stripped) == Positions(inputs) by {
      forall p
        ensures p in Positions(stripped) <==> p in Positions(inputs)
      {
        assert forall k :: 0 <= k < |inputs| ==> stripped[k].parent.state.leafIndex == inputs[k].parent.state.leafIndex;
      }
    }
  }

  /** The proofs written back into the transactions they came from. */
  ghost predicate WrittenBack(txns: seq<Transaction>, proofs: seq<seq<Hash>>, r: seq<Transaction>) {
    |r| == |txns| && |proofs| == |AllInputs(txns)| &&
    forall i :: 0 <= i < |txns| ==> InputsWritten(txns[i], proofs, Offset(txns, i), r[i])
  }

  ghost predicate InputsWritten(txn: Transaction, proofs: seq<seq<Hash>>, offset: nat, r: Transaction) {
    r == txn.(inputs := r.inputs) && |r.inputs| == |txn.inputs| && offset + |txn.inputs| <= |proofs| &&
    forall m :: 0 <= m < |txn.inputs| ==> r.inputs[m] == Update.Reproved(txn.inputs[m], proofs[offset + m])
  }

  method WriteBack(txns: seq<Transaction>, proofs: seq<seq<Hash>>) returns (r: seq<Transaction>)
    requires |proofs| == |AllInputs(txns)|
    ensures WrittenBack(txns, proofs, r)
  {
    hide AllInputs;
    r := [];
    var slot := 0;
    OffsetBounds(txns, 0);
    for i := 0 to |txns|
      invariant |r| == i && slot == Offset(txns, i)
      invariant forall j :: 0 <= j < i ==> InputsWritten(txns[j], proofs, Offset(txns, j), r[j])
    {
      OffsetBounds(txns, i);
      var inputs := [];
      for m := 0 to |txns[i].inputs|
        invariant |inputs| == m && slot == Offset(txns, i) + m
        invariant forall k :: 0 <= k < m ==>
          inputs[k] == Update.Reproved(txns[i].inputs[k], proofs[Offset(txns, i) + k])
      {
        inputs := inputs + [Update.Reproved(txns[i].inputs[m], proofs[slot])];
        slot := slot + 1;
      }
      r := r + [txns[i].(inputs := inputs)];
    }
  }

  lemma OffsetBounds(txns: seq<Transaction>, i: nat)
    requires i <= |txns|
    ensures Offset(txns, 0) == 0
    ensures i < |txns| ==> Offset(txns, i + 1) == Offset(txns, i) + |txns[i].inputs| <= |AllInputs(txns)|
  {
    if i < |txns| {
      Update.NextInputs(txns, i);
      OffsetsGrow(txns, i, |txns|);
      assert txns[..|txns|] == txns;
    }
  }

  /** What is written back is the block's transactions, but for what was not encoded. */
  lemma BackIsRounded(txns: seq<Transaction>, proofs: seq<seq<Hash>>, r: seq<Transaction>, xs: seq<Hash>)
    requires Consistent(AllInputs(txns), Proofs(AllInputs(txns)), xs)
    requires WrittenBack(StrippedTransactions(txns), proofs, r)
    requires Consistent(StrippedInputs(AllInputs(txns)), proofs, xs)
    requires forall k :: 0 <= k < |proofs| && AllInputs(txns)[k].parent.Ephemeral() ==>
      proofs[k] == Zeros(|AllInputs(txns)[k].parent.state.merkleProof|)
    ensures |r| == |txns| && forall i :: 0 <= i < |txns| ==> r[i] == RoundedTransaction(txns[i])
  {
    hide AllInputs, LeafPath, Sized;
    var stripped := StrippedTransactions(txns);
    StrippedAll(txns);
    forall i | 0 <= i < |txns|
      ensures r[i] == RoundedTransaction(txns[i])
    {
      SameOffset(txns, i);
      assert InputsWritten(stripped[i], proofs, Offset(stripped, i), r[i]);
      forall m | 0 <= m < |txns[i].inputs|
        ensures r[i].inputs[m] == RoundedInput(txns[i].inputs[m])
      {
        var k := Offset(txns, i) + m;
        InputAt(txns, i, m);
        assert StrippedInputs(AllInputs(txns))[k] == StrippedInput(AllInputs(txns)[k]);
        assert stripped[i].inputs[m] == StrippedInput(txns[i].inputs[m]);
      }
      assert r[i].inputs == RoundedTransaction(txns[i]).inputs;
    }
  }

  lemma SameOffset(txns: seq<Transaction>, i: nat)
    requires i <= |txns|
    ensures Offset(StrippedTransactions(txns), i) == Offset(txns, i)
  {
    StrippedAll(txns[..i]);
    assert StrippedTransactions(txns)[..i] == StrippedTransactions(txns[..i]);
  }

  /** What each stage of decoding finds on the stream. */
  lemma StagesBack(dg: Digests, b: Block, hs: seq<Hash>, tail: Source)
    requires EncodableHeader(dg, b.header) && |b.transactions| < WORD
    requires forall i :: 0 <= i < |b.transactions| ==> EncodableTransaction(dg, b.transactions[i])
    requires forall i :: 0 <= i < |hs| ==> Faithful(dg, hs[i])
    ensures var s1 := ParseBytes(Over(BlockBytes(dg, b, hs), tail), 1);
      s1.Parsed? && s1.value == [VERSION] &&
      var s2 := ParseHeader(dg, s1.rest);
      s2.Parsed? && s2.value == WholeSeconds(b.header) &&
      var s3 := ParsePrefix(s2.rest);
      s3.Parsed? && s3.value == |b.transactions| &&
      var s4 := ParseTransactions(dg, s3.rest, |b.transactions|);
      s4.Parsed? && s4.value == StrippedTransactions(b.transactions) &&
      ParseHashes(dg, s4.rest, |hs|) == Parsed(hs, tail)
  {
    hide ParseHeader, ParsePrefix, ParseTransactions, ParseHashes, HeaderBytes, Uint64Bytes, TransactionsBytes,
      HashesBytes,
      EncodableHeader, EncodableTransaction, Faithful, WholeSeconds;
    var version: seq<Byte>, header, n := [VERSION], HeaderBytes(dg, b.header), Uint64Bytes(|b.transactions|);
    var txns, hashes := TransactionsBytes(dg, b.transactions), HashesBytes(dg, hs);
    OverConcat(version, header + (n + (txns + hashes)), tail);
    OverConcat(header, n + (txns + hashes), tail);
    OverConcat(n, txns + hashes, tail);
    OverConcat(txns, hashes, tail);
    BytesBack(version, Over(header, Over(n, Over(txns, Over(hashes, tail)))));
    HeaderBack(dg, b.header, Over(n, Over(txns, Over(hashes, tail))));
    TransactionsBack(dg, b.transactions, Over(hashes, tail));
    PrefixBack(|b.transactions|, Over(txns, Over(hashes, tail)));
    HashesBack(dg, hs, tail);
  }

  lemma RoundedParts(r: Block, b: Block)
    requires r.header == WholeSeconds(b.header)
    requires |r.transactions| == |b.transactions| && forall i :: 0 <= i < |b.transactions| ==>
      r.transactions[i] == RoundedTransaction(b.transactions[i])
    ensures r == Rounded(b)
  {
    hide WholeSeconds, RoundedTransaction;
    assert r.transactions == Rounded(b).transactions;
  }

  /** A compressed block up to its multiproof. */
  function ParseBody(dg: Digests, s: Source): Parsed<Block> {
    var version := ParseBytes(s, 1);
    if version.Failed? || version.value[0] != VERSION then Failed
    else
      var header := ParseHeader(dg, version.rest);
      if header.Failed? then Failed
      else
        var n := ParsePrefix(header.rest);
        if n.Failed? then Failed
        else
          var txns := ParseTransactions(dg, n.rest, n.value);
          if txns.Failed? then Failed else Parsed(Block(header.value, txns.value), txns.rest)
  }

  lemma OneBlockVersion(dg: Digests, s: Source)
    ensures ParseBody(dg, s).Parsed? ==> s.data != [] && s.data[0] == 1
  {
    hide ParseHeader, ParsePrefix, ParseTransactions;
  }

  method DecodeBody(d: Decoder, dg: Digests) returns (b: Block)
    requires d.Valid()
    modifies d, d.buf
    ensures d.Valid() && Got(old(d.err), d.err, b, d.src, ParseBody(dg, old(d.src)))
  {
    hide ParseHeader, ParsePrefix, ParseTransactions;
    var version := d.ReadUint8();
    if version != VERSION {
      d.SetErr();
      return Block(BlockHeader(0, ZeroHash, 0, 0, ZeroHash, ZeroHash), []);
    }
    var header := DecodeHeader(d, dg);
    var n := DecodePrefix(d);
    var txns := DecodeTransactions(d, dg, n);
    b := Block(header, txns);
  }

  /** What the format allows as a position or a proof's length, all inputs of a parsed block have. */
  lemma ParsedIsReadable(dg: Digests, s: Source)
    requires ParseBody(dg, s).Parsed?
    ensures ReadableBlock(ParseBody(dg, s).value)
  {
    hide ParseHeader, ParsePrefix, ParseTransactions, AllInputs;
    var header := ParseHeader(dg, ParseBytes(s, 1).rest);
    var n := ParsePrefix(header.rest);
    var txns := ParseTransactions(dg, n.rest, n.value);
    ParsedTransactions(dg, n.rest, n.value);
    var inputs := AllInputs(txns.value);
    forall k | 0 <= k < |inputs|
      ensures Small(inputs[k])
    {
      var i, m := InputFrom(txns.value, k);
    }
    AllSmall(inputs);
  }

  ghost predicate Small(input: Input) {
    |input.parent.state.merkleProof| < MAX_TREES && input.parent.state.leafIndex < WORD
  }

  lemma AllSmall(inputs: seq<Input>)
    requires forall k :: 0 <= k < |inputs| ==> Small(inputs[k])
    ensures Readable(inputs, Proofs(inputs))
  {
    forall k | 0 <= k < |inputs|
      ensures |Proofs(inputs)[k]| < MAX_TREES && inputs[k].parent.state.leafIndex < WORD
    {
      assert Small(inputs[k]);
    }
  }

  lemma {:induction false} ParsedTransactions(dg: Digests, s: Source, n: nat)
    requires ParseTransactions(dg, s, n).Parsed?
    ensures var txns := ParseTransactions(dg, s, n).value;
      forall i, m :: 0 <= i < |txns| && 0 <= m < |txns[i].inputs| ==> Small(txns[i].inputs[m])
    decreases n
  {
    hide ParseTransaction, Small;
    if n > 0 {
      ParsedTransaction(dg, s);
      ParsedTransactions(dg, ParseTransaction(dg, s).rest, n - 1);
    }
  }

  lemma ParsedTransaction(dg: Digests, s: Source)
    requires ParseTransaction(dg, s).Parsed?
    ensures var txn := ParseTransaction(dg, s).value;
      forall m :: 0 <= m < |txn.inputs| ==> Small(txn.inputs[m])
  {
    hide ParsePrefix, ParseInputs, Small, ParseOutputs, ParseCurrency;
    var n := ParsePrefix(ParseBytes(s, 1).rest);
    ParsedInputs(dg, n.rest, n.value);
  }

  lemma {:induction false} ParsedInputs(dg: Digests, s: Source, n: nat)
    requires ParseInputs(dg, s, n).Parsed?
    ensures forall m :: 0 <= m < |ParseInputs(dg, s, n).value| ==> Small(ParseInputs(dg, s, n).value[m])
    decreases n
  {
    hide ParseInput, Small;
    if n > 0 {
      ParsedInput(dg, s);
      ParsedInputs(dg, ParseInput(dg, s).rest, n - 1);
    }
  }

  lemma ParsedInput(dg: Digests, s: Source)
    requires ParseInput(dg, s).Parsed?
    ensures Small(ParseInput(dg, s).value)
  {
    hide ParseElementID, ParsePrefix, ParseUint64, ParseOutput, ParseKey, ParseSignature;
    ParsedWord(ParseElementID(dg, s).rest);
  }

  lemma {:induction false} LittleBound(b: seq<Byte>)
    ensures FromLittle(b) < Pow256(|b|)
    decreases |b|
  {
    if b != [] {
      LittleBound(b[1..]);
    }
  }

  lemma ParsedWord(s: Source)
    requires ParseUint64(s).Parsed?
    ensures ParseUint64(s).value < WORD
  {
    hide FromLittle;
    Pow256Values();
    LittleBound(ParseBytes(s, 8).value);
  }

  /** The hashes that make up the multiproof of a block's inputs in a forest. */
  ghost function MultiproofIn(b: Block, xs: seq<Hash>): seq<Hash> {
    MultiproofOf(AllInputs(b.transactions), xs)
  }

  /** The stream holds a compressed block whose inputs and whose multiproof are those of the forest over xs. */
  ghost predicate FromForest(dg: Digests, s: Source, xs: seq<Hash>) {
    var body := ParseBody(dg, s);
    body.Parsed? &&
    (var inputs := AllInputs(body.value.transactions);
     Sized(inputs, Proofs(inputs), xs) &&
     var hs := ParseHashes(dg, body.rest, |MultiproofIn(body.value, xs)|);
     hs.Parsed? && hs.value == MultiproofIn(body.value, xs))
  }

  /** The block with other proofs of the same lengths; those of ephemeral inputs are what they were. */
  ghost predicate Refilled(body: Block, r: Block, proofs: seq<seq<Hash>>) {
    var inputs := AllInputs(body.transactions);
    r.header == body.header && WrittenBack(body.transactions, proofs, r.transactions) &&
    SameLengths(Proofs(inputs), proofs) && EphemeralKept(Proofs(inputs), proofs, inputs)
  }

  /** The stream holds no whole block. */
  ghost predicate Truncated(dg: Digests, s: Source) {
    var body := ParseBody(dg, s);
    body.Failed? ||
    (ParsedIsReadable(dg, s);
     ParseHashes(dg, body.rest, SizeIn(body.value)).Failed?)
  }

  /** The stream holds block r, but for its proofs, with as many hashes behind it as they take, and then the rest. */
  ghost predicate Holds(dg: Digests, s: Source, rest: Source, r: Block, proofs: seq<seq<Hash>>) {
    var body := ParseBody(dg, s);
    body.Parsed? &&
    (ParsedIsReadable(dg, s);
     var hs := ParseHashes(dg, body.rest, SizeIn(body.value));
     hs.Parsed? && hs.rest == rest && Refilled(body.value, r, proofs))
  }

  /** The block's proofs are paths in the forest over xs. */
  ghost predicate RestoredIn(dg: Digests, s: Source, proofs: seq<seq<Hash>>, xs: seq<Hash>) {
    var body := ParseBody(dg, s);
    body.Parsed? && Consistent(AllInputs(body.value.transactions), proofs, xs)
  }

  /**
    CompressedBlock.DecodeFrom, on any stream: it fails just when the stream
    does not hold a whole block, and reads exactly as many hashes as the
    block's proofs take.  With inputs and hashes from a forest, the proofs come
    out as paths in it.
   */
  method DecodeBlock(d: Decoder, dg: Digests, ghost xs: seq<Hash>) returns (r: Block, ghost proofs: seq<seq<Hash>>)
    requires d.Valid() && !d.err
    modifies d, d.buf
    ensures d.Valid() && (d.err <==> Truncated(dg, old(d.src)))
    ensures !d.err ==> Holds(dg, old(d.src), d.src, r, proofs)
    ensures !d.err && FromForest(dg, old(d.src), xs) ==> RestoredIn(dg, old(d.src), proofs, xs)
  {
    hide AllInputs, Consistent, Sized, MultiproofOf, ParseBody, ParseHashes, Proofs, WrittenBack, Readable, SizeOf;
    ghost var s := d.src;
    r := DecodeBody(d, dg);
    proofs := [];
    // what did not decode has no size
    if d.err {
      return;
    }
    ParsedIsReadable(dg, s);
    var inputs := CollectInputs(r.transactions);
    if Sized(inputs, Proofs(inputs), xs) {
      InForest(inputs, Proofs(inputs), xs);
    }
    var size := MultiproofSize(inputs, Proofs(inputs));
    var proof := DecodeHashes(d, dg, size);
    var txns;
    txns, proofs := Expanded(r.transactions, inputs, proof, xs);
    r := Block(r.header, txns);
  }

  /** The inputs' proofs are expanded, and put back where they belong. */
  method Expanded(txns: seq<Transaction>, inputs: seq<Input>, proof: seq<Hash>, ghost xs: seq<Hash>)
    returns (r: seq<Transaction>, ghost proofs: seq<seq<Hash>>)
    requires inputs == AllInputs(txns) && Readable(inputs, Proofs(inputs)) && |proof| == SizeOf(inputs, Proofs(inputs))
    ensures WrittenBack(txns, proofs, r)
    ensures SameLengths(Proofs(inputs), proofs) && EphemeralKept(Proofs(inputs), proofs, inputs)
    ensures Sized(inputs, Proofs(inputs), xs) && proof == MultiproofOf(inputs, xs) ==> Consistent(inputs, proofs, xs)
  {
    hide AllInputs, Sized, MultiproofOf, Readable, SizeOf, Consistent;
    var expanded := new seq<Hash>[|inputs|](k requires 0 <= k < |inputs| => inputs[k].parent.state.merkleProof);
    assert expanded[..] == Proofs(inputs);
    var rest := ExpandMultiproof(inputs, expanded, proof, xs);
    proofs := expanded[..];
    r := WriteBack(txns, expanded[..]);
  }

  /** What an encoded block, with anything behind it, parses to. */
  lemma EncodedParses(dg: Digests, b: Block, tail: Source)
    requires EncodableBlock(dg, b)
    ensures var s := Over(BlockBytes(dg, b, MergedHashes(b)), tail);
      var body := ParseBody(dg, s);
      body.Parsed? && body.value == Block(WholeSeconds(b.header), StrippedTransactions(b.transactions)) &&
      ReadableBlock(body.value) && SizeIn(body.value) == SizeIn(b) &&
      ParseHashes(dg, body.rest, SizeIn(b)) == Parsed(MergedHashes(b), tail)
  {
    hide AllInputs, HashesOf, SizeOf, Readable, ParseHeader, ParsePrefix, ParseTransactions, ParseHashes,
      EncodableHeader, EncodableTransaction, Faithful, Proofs, WholeSeconds, BlockBytes;
    StagesBack(dg, b, MergedHashes(b), tail);
    StrippedAll(b.transactions);
    StrippedSize(AllInputs(b.transactions));
  }

  /** With proofs from a forest, it comes from that forest. */
  lemma EncodedFromForest(dg: Digests, b: Block, xs: seq<Hash>, tail: Source)
    requires EncodableBlock(dg, b) && Consistent(AllInputs(b.transactions), Proofs(AllInputs(b.transactions)), xs)
    ensures FromForest(dg, Over(BlockBytes(dg, b, MergedHashes(b)), tail), xs)
  {
    hide AllInputs, Sized, MultiproofOf, HashesOf, SizeOf, Readable, ParseBody, ParseHashes, EncodableBlock, Proofs,
      WholeSeconds, BlockBytes, LeafPath;
    EncodedParses(dg, b, tail);
    StrippedAll(b.transactions);
    StrippedSized(AllInputs(b.transactions), xs);
    InForest(AllInputs(b.transactions), Proofs(AllInputs(b.transactions)), xs);
  }

  /**
    Decoding an encoded block, whatever its proofs hold and whatever follows it
    on the stream, gives the block back but for the contents of its proofs, and
    leaves exactly what follows.  If the proofs come from a forest, they come
    back too.
   */
  method DecodeEncoded(d: Decoder, dg: Digests, ghost b: Block, ghost xs: seq<Hash>, ghost tail: Source)
    returns (r: Block)
    requires d.Valid() && !d.err && EncodableBlock(dg, b)
    requires d.src == Over(BlockBytes(dg, b, MergedHashes(b)), tail)
    modifies d, d.buf
    ensures !d.err && d.src == tail
    ensures r.header == WholeSeconds(b.header) &&
      StrippedTransactions(r.transactions) == StrippedTransactions(b.transactions)
    ensures Consistent(AllInputs(b.transactions), Proofs(AllInputs(b.transactions)), xs) ==> r == Rounded(b)
  {
    hide AllInputs, Consistent, ParseBody, ParseHashes, EncodableBlock, Proofs, WholeSeconds, BlockBytes, Rounded,
      FromForest, WrittenBack, StrippedTransactions, MergedHashes, SizeIn;
    EncodedParses(dg, b, tail);
    if Consistent(AllInputs(b.transactions), Proofs(AllInputs(b.transactions)), xs) {
      EncodedFromForest(dg, b, xs, tail);
    }
    ghost var proofs;
    r, proofs := DecodeBlock(d, dg, xs);
    RefilledIsSame(b, r, proofs);
    if Consistent(AllInputs(b.transactions), Proofs(AllInputs(b.transactions)), xs) {
      RestoredIsRounded(b, r, proofs, xs);
    }
  }

  /** Other proofs of the same lengths make no difference without the data of the proofs. */
  lemma RefilledIsSame(b: Block, r: Block, proofs: seq<seq<Hash>>)
    requires Refilled(Block(WholeSeconds(b.header), StrippedTransactions(b.transactions)), r, proofs)
    ensures r.header == WholeSeconds(b.header)
    ensures StrippedTransactions(r.transactions) == StrippedTransactions(b.transactions)
  {
    hide AllInputs, WholeSeconds;
    var txns := StrippedTransactions(b.transactions);
    forall i | 0 <= i < |txns|
      ensures StrippedTransactions(r.transactions)[i] == txns[i]
    {
      assert InputsWritten(txns[i], proofs, Offset(txns, i), r.transactions[i]);
      forall m | 0 <= m < |txns[i].inputs|
        ensures StrippedInput(r.transactions[i].inputs[m]) == txns[i].inputs[m]
      {
        InputAt(txns, i, m);
        assert txns[i].inputs[m] == StrippedInput(b.transactions[i].inputs[m]);
      }
      assert StrippedInputs(r.transactions[i].inputs) == txns[i].inputs;
    }
  }

  lemma RestoredIsRounded(b: Block, r: Block, proofs: seq<seq<Hash>>, xs: seq<Hash>)
    requires Consistent(AllInputs(b.transactions), Proofs(AllInputs(b.transactions)), xs)
    requires Refilled(Block(WholeSeconds(b.header), StrippedTransactions(b.transactions)), r, proofs)
    requires Consistent(AllInputs(StrippedTransactions(b.transactions)), proofs, xs)
    ensures r == Rounded(b)
  {
    hide AllInputs, Consistent, WholeSeconds, Rounded, WrittenBack;
    StrippedAll(b.transactions);
    BackIsRounded(b.transactions, proofs, r.transactions, xs);
    RoundedParts(r, b);
  }

  /**
    The whole way: a block written through the flush buffer to a stream with
    room for it, and read back through the read buffer with other bytes
    behind it.
   */
  method SendBlock(b: Block, dg: Digests, tail: seq<Byte>, room: nat, ghost xs: seq<Hash>)
    returns (r: Block, rest: Source)
    requires EncodableBlock(dg, b) && |BlockBytes(dg, b, MergedHashes(b))| <= room
    ensures rest == Source(tail, |tail|)
    ensures r.header == WholeSeconds(b.header) &&
      StrippedTransactions(r.transactions) == StrippedTransactions(b.transactions)
    ensures Consistent(AllInputs(b.transactions), Proofs(AllInputs(b.transactions)), xs) ==> r == Rounded(b)
  {
    hide AllInputs, Consistent, HashesOf, SizeOf, Readable, EncodableHeader, EncodableTransaction, Faithful, BlockBytes,
      Rounded, WholeSeconds, StrippedTransactions;
    ghost var bytes := BlockBytes(dg, b, MergedHashes(b));
    var e := new Encoder(room);
    EncodeBlock(e, dg, b);
    e.Flush();
    assert [] + bytes == bytes;
    var d := new Decoder(Source(e.stream + tail, |e.stream + tail|));
    r := DecodeEncoded(d, dg, b, xs, Source(tail, |tail|));
    rest := d.src;
  }
}
