/**
  The wire format (encoding.go): what each value is written as, and what a
  decoder makes of a stream.
 */
module Codec {
  import opened Types
  import opened Words
  import opened Work
  import opened Ledger
  import Headers

  // ---------------------------------------------------------------- digests

  datatype DigestCodec = DigestCodec(hashBytes: Hash -> seq<Byte>, hashOf: seq<Byte> -> Hash,
                                     sigBytes: Signature -> seq<Byte>, sigOf: seq<Byte> -> Signature)

  ghost predicate RightLengths(dg: DigestCodec) {
    (forall h :: |dg.hashBytes(h)| == 32) && (forall s :: |dg.sigBytes(s)| == 64)
  }

  /** How hashes take 32 bytes, and signatures 64. */
  type Digests = dg: DigestCodec | RightLengths(dg)
    witness DigestCodec(_ => seq(32, _ => 0), _ => ZeroHash, _ => seq(64, _ => 0), _ => Forged(0))

  /** The digest of h is not that of another hash at hand. */
  ghost predicate Faithful(dg: Digests, h: Hash) {
    dg.hashOf(dg.hashBytes(h)) == h
  }

  // ---------------------------------------------------------------- streams

  /** What is left of a stream, and of the limit on what may be read from it. */
  datatype Source = Source(data: seq<Byte>, limit: nat)

  datatype Parsed<T> = Parsed(value: T, rest: Source) | Failed

  /** The stream with some bytes in front. */
  function Over(bytes: seq<Byte>, s: Source): Source {
    Source(bytes + s.data, |bytes| + s.limit)
  }

  lemma OverConcat(a: seq<Byte>, b: seq<Byte>, s: Source)
    ensures Over(a + b, s) == Over(a, Over(b, s))
  {
    assert a + b + s.data == a + (b + s.data);
  }

  function ParseBytes(s: Source, n: nat): Parsed<seq<Byte>> {
    if n <= |s.data| && n <= s.limit then Parsed(s.data[..n], Source(s.data[n..], s.limit - n)) else Failed
  }

  lemma BytesBack(b: seq<Byte>, s: Source)
    ensures ParseBytes(Over(b, s), |b|) == Parsed(b, s)
  {
    assert (b + s.data)[..|b|] == b && (b + s.data)[|b|..] == s.data;
  }

  // ---------------------------------------------------------------- numbers

  /** n little-endian bytes of x. */
  function Little(x: nat, n: nat): (b: seq<Byte>)
    ensures |b| == n
  {
    if n == 0 then [] else [x % 256] + Little(x / 256, n - 1)
  }

  function FromLittle(b: seq<Byte>): nat {
    if b == [] then 0 else b[0] + 256 * FromLittle(b[1..])
  }

  lemma {:induction false} LittleBack(x: nat, n: nat)
    requires x < Pow256(n)
    ensures FromLittle(Little(x, n)) == x
    decreases n
  {
    if n > 0 {
      LittleBack(x / 256, n - 1);
      assert Little(x, n)[1..] == Little(x / 256, n - 1);
    }
  }

  /** Byte i of n is the digit of 256^i. */
  lemma {:induction false} LittleDigits(x: nat, n: nat)
    ensures forall i :: 0 <= i < n ==> Little(x, n)[i] == x / Pow256(i) % 256
    decreases n
  {
    if n > 0 {
      LittleDigits(x / 256, n - 1);
      forall i | 0 < i < n
        ensures Little(x, n)[i] == x / Pow256(i) % 256
      {
        assert Little(x, n)[i] == Little(x / 256, n - 1)[i - 1];
        DivideTwice(x, Pow256(i - 1));
      }
    }
  }

  lemma DivideTwice(x: nat, p: nat)
    requires p > 0
    ensures x / 256 / p == x / (256 * p)
  {
    var q, r := x / 256, x % 256;
    var d, e := q / p, q % p;
    assert x == 256 * (d * p + e) + r == d * (256 * p) + (256 * e + r);
    QuotientIs(x, 256 * p, d, 256 * e + r);
  }

  lemma QuotientIs(x: nat, m: nat, q: nat, r: nat)
    requires m > 0 && x == q * m + r && r < m
    ensures x / m == q && x % m == r
  {
    var y, s := x / m, x % m;
    SameQuotient(m, q, r, y, s);
  }

  lemma SameQuotient(m: nat, q: nat, r: nat, y: nat, s: nat)
    requires q * m + r == y * m + s && r < m && s < m
    ensures y == q && s == r
  {
    if y > q {
      Headers.MulMonotone(m, q + 1, y);
    } else if y < q {
      Headers.MulMonotone(m, y + 1, q);
    }
  }

  /** EncodeTo for a uint64: the lowest byte comes first. */
  function Uint64Bytes(x: nat): (b: seq<Byte>)
    ensures |b| == 8
    ensures forall i :: 0 <= i < 8 ==> b[i] == x / Pow256(i) % 256
  {
    LittleDigits(x, 8);
    Little(x, 8)
  }

  function ParseUint64(s: Source): Parsed<nat> {
    var p := ParseBytes(s, 8);
    if p.Failed? then Failed else Parsed(FromLittle(p.value), p.rest)
  }

  lemma Uint64Back(x: nat, s: Source)
    requires x < WORD
    ensures ParseUint64(Over(Uint64Bytes(x), s)) == Parsed(x, s)
  {
    Pow256Values();
    BytesBack(Uint64Bytes(x), s);
    LittleBack(x, 8);
    hide Little, FromLittle;
  }

  /** A length is refused if it exceeds what the limit leaves. */
  function ParsePrefix(s: Source): Parsed<nat> {
    var p := ParseUint64(s);
    if p.Failed? || p.value > p.rest.limit then Failed else p
  }

  lemma PrefixBack(n: nat, s: Source)
    requires n < WORD && n <= s.limit
    ensures ParsePrefix(Over(Uint64Bytes(n), s)) == Parsed(n, s)
  {
    Uint64Back(n, s);
  }

  /** uint64(t.Unix()): two's complement. */
  function TimeWord(t: int): (x: nat)
    ensures x < WORD
  {
    Unix(t) % WORD
  }

  /** time.Unix(int64(x), 0) */
  function WordTime(x: nat): int {
    (if x >= WORD / 2 then x - WORD else x) * SECOND
  }

  ghost predicate TimeInRange(t: int) {
    -(WORD / 2) <= Unix(t) < WORD / 2
  }

  /** Times come back cut to whole seconds. */
  lemma TimeBack(t: int)
    requires TimeInRange(t)
    ensures WordTime(TimeWord(t)) == Unix(t) * SECOND
    ensures WordTime(TimeWord(t)) == t <==> t % SECOND == 0
  {
  }

  function CurrencyBytes(v: nat): (b: seq<Byte>)
    ensures |b| == 16
  {
    Uint64Bytes(v % WORD) + Uint64Bytes(v / WORD)
  }

  function ParseCurrency(s: Source): Parsed<nat> {
    var lo := ParseUint64(s);
    if lo.Failed? then Failed
    else
      var hi := ParseUint64(lo.rest);
      if hi.Failed? then Failed else Parsed(hi.value * WORD + lo.value, hi.rest)
  }

  lemma CurrencyBack(v: nat, s: Source)
    requires v <= MAX_UINT128
    ensures ParseCurrency(Over(CurrencyBytes(v), s)) == Parsed(v, s)
  {
    hide Uint64Bytes, ParseUint64;
    var lo, hi := Uint64Bytes(v % WORD), Uint64Bytes(v / WORD);
    OverConcat(lo, hi, s);
    Uint64Back(v % WORD, Over(hi, s));
    Uint64Back(v / WORD, s);
  }

  // ---------------------------------------------------------------- hashes, keys and signatures

  function ParseHash(dg: Digests, s: Source): Parsed<Hash> {
    var p := ParseBytes(s, 32);
    if p.Failed? then Failed else Parsed(dg.hashOf(p.value), p.rest)
  }

  lemma HashBack(dg: Digests, h: Hash, s: Source)
    requires Faithful(dg, h)
    ensures ParseHash(dg, Over(dg.hashBytes(h), s)) == Parsed(h, s)
  {
    BytesBack(dg.hashBytes(h), s);
  }

  /** A public key is its 32 bytes, read as a number. */
  function KeyBytes(key: nat): (b: seq<Byte>)
    ensures |b| == 32
  {
    Bytes(key, 32)
  }

  function ParseKey(s: Source): Parsed<nat> {
    var p := ParseBytes(s, 32);
    if p.Failed? then Failed else Parsed(Value(p.value), p.rest)
  }

  lemma KeyBack(key: nat, s: Source)
    requires key < Pow256(32)
    ensures ParseKey(Over(KeyBytes(key), s)) == Parsed(key, s)
  {
    BytesValue(key, 32);
    BytesBack(KeyBytes(key), s);
    hide Bytes, Value, Pow256;
  }

  function ParseSignature(dg: Digests, s: Source): Parsed<Signature> {
    var p := ParseBytes(s, 64);
    if p.Failed? then Failed else Parsed(dg.sigOf(p.value), p.rest)
  }

  lemma SignatureBack(dg: Digests, sig: Signature, s: Source)
    requires dg.sigOf(dg.sigBytes(sig)) == sig
    ensures ParseSignature(dg, Over(dg.sigBytes(sig), s)) == Parsed(sig, s)
  {
    BytesBack(dg.sigBytes(sig), s);
  }

  // ---------------------------------------------------------------- outputs and elements

  function OutputBytes(dg: Digests, out: Output): (b: seq<Byte>)
    ensures |b| == 48
  {
    CurrencyBytes(out.value) + dg.hashBytes(out.address)
  }

  function ParseOutput(dg: Digests, s: Source): Parsed<Output> {
    var value := ParseCurrency(s);
    if value.Failed? then Failed
    else
      var address := ParseHash(dg, value.rest);
      if address.Failed? then Failed else Parsed(Output(value.value, address.value), address.rest)
  }

  ghost predicate EncodableOutput(dg: Digests, out: Output) {
    out.value <= MAX_UINT128 && Faithful(dg, out.address)
  }

  lemma OutputBack(dg: Digests, out: Output, s: Source)
    requires EncodableOutput(dg, out)
    ensures ParseOutput(dg, Over(OutputBytes(dg, out), s)) == Parsed(out, s)
  {
    hide CurrencyBytes, ParseCurrency, ParseHash;
    OverConcat(CurrencyBytes(out.value), dg.hashBytes(out.address), s);
    CurrencyBack(out.value, Over(dg.hashBytes(out.address), s));
    HashBack(dg, out.address, s);
  }

  function ElementIDBytes(dg: Digests, id: ElementID): (b: seq<Byte>)
    ensures |b| == 40
  {
    dg.hashBytes(id.source) + Uint64Bytes(id.index)
  }

  function ParseElementID(dg: Digests, s: Source): Parsed<ElementID> {
    var source := ParseHash(dg, s);
    if source.Failed? then Failed
    else
      var index := ParseUint64(source.rest);
      if index.Failed? then Failed else Parsed(ElementID(source.value, index.value), index.rest)
  }

  ghost predicate EncodableID(dg: Digests, id: ElementID) {
    id.index < WORD && Faithful(dg, id.source)
  }

  lemma ElementIDBack(dg: Digests, id: ElementID, s: Source)
    requires EncodableID(dg, id)
    ensures ParseElementID(dg, Over(ElementIDBytes(dg, id), s)) == Parsed(id, s)
  {
    hide Uint64Bytes, ParseUint64, ParseHash;
    OverConcat(dg.hashBytes(id.source), Uint64Bytes(id.index), s);
    HashBack(dg, id.source, Over(Uint64Bytes(id.index), s));
    Uint64Back(id.index, s);
  }

  /** A compressed element: its proof is left out, but for its length. */
  function StateElementBytes(dg: Digests, se: StateElement): (b: seq<Byte>)
    ensures |b| == 56
  {
    ElementIDBytes(dg, se.id) + (Uint64Bytes(se.leafIndex) + Uint64Bytes(|se.merkleProof|))
  }

  function Zeros(n: nat): (hs: seq<Hash>)
    ensures |hs| == n
  {
    seq(n, _ => ZeroHash)
  }

  /** A proof of 64 hashes or more is refused. */
  function ParseStateElement(dg: Digests, s: Source): Parsed<StateElement> {
    var id := ParseElementID(dg, s);
    if id.Failed? then Failed
    else
      var leafIndex := ParseUint64(id.rest);
      if leafIndex.Failed? then Failed
      else
        var length := ParsePrefix(leafIndex.rest);
        if length.Failed? || length.value >= 64 then Failed
        else Parsed(StateElement(id.value, leafIndex.value, Zeros(length.value)), length.rest)
  }

  ghost predicate EncodableElement(dg: Digests, se: StateElement) {
    EncodableID(dg, se.id) && se.leafIndex < WORD && |se.merkleProof| < 64
  }

  lemma StateElementBack(dg: Digests, se: StateElement, s: Source)
    requires EncodableElement(dg, se) && |se.merkleProof| <= s.limit
    ensures ParseStateElement(dg, Over(StateElementBytes(dg, se), s)) ==
      Parsed(se.(merkleProof := Zeros(|se.merkleProof|)), s)
  {
    hide Uint64Bytes, ParseUint64, ParsePrefix, ParseElementID, ElementIDBytes;
    var id, index, length := ElementIDBytes(dg, se.id), Uint64Bytes(se.leafIndex), Uint64Bytes(|se.merkleProof|);
    OverConcat(id, index + length, s);
    OverConcat(index, length, s);
    ElementIDBack(dg, se.id, Over(index, Over(length, s)));
    Uint64Back(se.leafIndex, Over(length, s));
    PrefixBack(|se.merkleProof|, s);
  }

  function OutputElementBytes(dg: Digests, oe: OutputElement): (b: seq<Byte>)
    ensures |b| == 112
  {
    StateElementBytes(dg, oe.state) + (OutputBytes(dg, oe.output) + Uint64Bytes(oe.maturityHeight))
  }

  function ParseOutputElement(dg: Digests, s: Source): Parsed<OutputElement> {
    var state := ParseStateElement(dg, s);
    if state.Failed? then Failed
    else
      var output := ParseOutput(dg, state.rest);
      if output.Failed? then Failed
      else
        var height := ParseUint64(output.rest);
        if height.Failed? then Failed else Parsed(OutputElement(state.value, output.value, height.value), height.rest)
  }

  ghost predicate EncodableOutputElement(dg: Digests, oe: OutputElement) {
    EncodableElement(dg, oe.state) && EncodableOutput(dg, oe.output) && oe.maturityHeight < WORD
  }

  /** An element without its proof's data. */
  function Stripped(oe: OutputElement): OutputElement {
    oe.(state := oe.state.(merkleProof := Zeros(|oe.state.merkleProof|)))
  }

  lemma OutputElementBack(dg: Digests, oe: OutputElement, s: Source)
    requires EncodableOutputElement(dg, oe) && |oe.state.merkleProof| <= 56 + s.limit
    ensures ParseOutputElement(dg, Over(OutputElementBytes(dg, oe), s)) == Parsed(Stripped(oe), s)
  {
    hide Uint64Bytes, ParseUint64, ParseOutput, OutputBytes, ParseStateElement, StateElementBytes;
    var state, output, height :=
      StateElementBytes(dg, oe.state), OutputBytes(dg, oe.output), Uint64Bytes(oe.maturityHeight);
    OverConcat(state, output + height, s);
    OverConcat(output, height, s);
    StateElementBack(dg, oe.state, Over(output, Over(height, s)));
    OutputBack(dg, oe.output, Over(height, s));
    Uint64Back(oe.maturityHeight, s);
  }

  // ---------------------------------------------------------------- transactions

  function InputBytes(dg: Digests, input: Input): (b: seq<Byte>)
    ensures |b| == 208
  {
    OutputElementBytes(dg, input.parent) + (KeyBytes(input.publicKey) + dg.sigBytes(input.signature))
  }

  function ParseInput(dg: Digests, s: Source): Parsed<Input> {
    var parent := ParseOutputElement(dg, s);
    if parent.Failed? then Failed
    else
      var key := ParseKey(parent.rest);
      if key.Failed? then Failed
      else
        var sig := ParseSignature(dg, key.rest);
        if sig.Failed? then Failed else Parsed(Input(parent.value, key.value, sig.value), sig.rest)
  }

  ghost predicate EncodableInput(dg: Digests, input: Input) {
    EncodableOutputElement(dg, input.parent) && input.publicKey < Pow256(32) &&
      dg.sigOf(dg.sigBytes(input.signature)) == input.signature
  }

  function StrippedInput(input: Input): Input {
    input.(parent := Stripped(input.parent))
  }

  lemma InputBack(dg: Digests, input: Input, s: Source)
    requires EncodableInput(dg, input)
    ensures ParseInput(dg, Over(InputBytes(dg, input), s)) == Parsed(StrippedInput(input), s)
  {
    hide ParseKey, KeyBytes, ParseSignature, ParseOutputElement, OutputElementBytes, Pow256;
    var parent, key, sig :=
      OutputElementBytes(dg, input.parent), KeyBytes(input.publicKey), dg.sigBytes(input.signature);
    OverConcat(parent, key + sig, s);
    OverConcat(key, sig, s);
    OutputElementBack(dg, input.parent, Over(key, Over(sig, s)));
    KeyBack(input.publicKey, Over(sig, s));
    SignatureBack(dg, input.signature, s);
  }

  function InputsBytes(dg: Digests, inputs: seq<Input>): seq<Byte> {
    if inputs == [] then [] else InputBytes(dg, inputs[0]) + InputsBytes(dg, inputs[1..])
  }

  function ParseInputs(dg: Digests, s: Source, n: nat): Parsed<seq<Input>>
    decreases n
  {
    if n == 0 then Parsed([], s)
    else
      var first := ParseInput(dg, s);
      if first.Failed? then Failed
      else
        var more := ParseInputs(dg, first.rest, n - 1);
        if more.Failed? then Failed else Parsed([first.value] + more.value, more.rest)
  }

  function StrippedInputs(inputs: seq<Input>): (r: seq<Input>)
    ensures |r| == |inputs|
    ensures forall i :: 0 <= i < |inputs| ==> r[i] == StrippedInput(inputs[i])
  {
    seq(|inputs|, i requires 0 <= i < |inputs| => StrippedInput(inputs[i]))
  }

  lemma {:induction false} InputsBack(dg: Digests, inputs: seq<Input>, s: Source)
    requires forall i :: 0 <= i < |inputs| ==> EncodableInput(dg, inputs[i])
    ensures ParseInputs(dg, Over(InputsBytes(dg, inputs), s), |inputs|) == Parsed(StrippedInputs(inputs), s)
    ensures |InputsBytes(dg, inputs)| >= |inputs|
    decreases |inputs|
  {
    hide InputBytes, ParseInput, EncodableInput, StrippedInput;
    if inputs == [] {
      assert Over([], s) == s;
    } else {
      OverConcat(InputBytes(dg, inputs[0]), InputsBytes(dg, inputs[1..]), s);
      InputBack(dg, inputs[0], Over(InputsBytes(dg, inputs[1..]), s));
      InputsBack(dg, inputs[1..], s);
      assert StrippedInputs(inputs) == [StrippedInput(inputs[0])] + StrippedInputs(inputs[1..]);
    }
  }

  function OutputsBytes(dg: Digests, outputs: seq<Output>): seq<Byte> {
    if outputs == [] then [] else OutputBytes(dg, outputs[0]) + OutputsBytes(dg, outputs[1..])
  }

  function ParseOutputs(dg: Digests, s: Source, n: nat): Parsed<seq<Output>>
    decreases n
  {
    if n == 0 then Parsed([], s)
    else
      var first := ParseOutput(dg, s);
      if first.Failed? then Failed
      else
        var more := ParseOutputs(dg, first.rest, n - 1);
        if more.Failed? then Failed else Parsed([first.value] + more.value, more.rest)
  }

  lemma {:induction false} OutputsBack(dg: Digests, outputs: seq<Output>, s: Source)
    requires forall i :: 0 <= i < |outputs| ==> EncodableOutput(dg, outputs[i])
    ensures ParseOutputs(dg, Over(OutputsBytes(dg, outputs), s), |outputs|) == Parsed(outputs, s)
    ensures |OutputsBytes(dg, outputs)| >= |outputs|
    decreases |outputs|
  {
    hide OutputBytes, ParseOutput, EncodableOutput;
    if outputs == [] {
      assert Over([], s) == s;
    } else {
      OverConcat(OutputBytes(dg, outputs[0]), OutputsBytes(dg, outputs[1..]), s);
      OutputBack(dg, outputs[0], Over(OutputsBytes(dg, outputs[1..]), s));
      OutputsBack(dg, outputs[1..], s);
      assert outputs == [outputs[0]] + outputs[1..];
    }
  }

  const VERSION: nat := 1

  function TransactionBytes(dg: Digests, txn: Transaction): seq<Byte> {
    [VERSION] +
    (Uint64Bytes(|txn.inputs|) + (InputsBytes(dg, txn.inputs) +
    (Uint64Bytes(|txn.outputs|) + (OutputsBytes(dg, txn.outputs) + CurrencyBytes(txn.minerFee)))))
  }

  function ParseTransaction(dg: Digests, s: Source): Parsed<Transaction> {
    var version := ParseBytes(s, 1);
    if version.Failed? || version.value[0] != VERSION then Failed
    else
      var n := ParsePrefix(version.rest);
      if n.Failed? then Failed
      else
        var inputs := ParseInputs(dg, n.rest, n.value);
        if inputs.Failed? then Failed else ParseOutputsAndFee(dg, inputs.rest, inputs.value)
  }

  /** Nothing but version 1 is read. */
  lemma OneVersion(dg: Digests, s: Source)
    ensures ParseTransaction(dg, s).Parsed? ==> s.data != [] && s.data[0] == 1
  {
    hide ParseInputs, ParsePrefix, ParseOutputsAndFee;
  }

  function ParseOutputsAndFee(dg: Digests, s: Source, inputs: seq<Input>): Parsed<Transaction> {
    var m := ParsePrefix(s);
    if m.Failed? then Failed
    else
      var outputs := ParseOutputs(dg, m.rest, m.value);
      if outputs.Failed? then Failed
      else
        var fee := ParseCurrency(outputs.rest);
        if fee.Failed? then Failed else Parsed(Transaction(inputs, outputs.value, fee.value), fee.rest)
  }

  ghost predicate EncodableTransaction(dg: Digests, txn: Transaction) {
    |txn.inputs| < WORD && |txn.outputs| < WORD && txn.minerFee <= MAX_UINT128 &&
    (forall i :: 0 <= i < |txn.inputs| ==> EncodableInput(dg, txn.inputs[i])) &&
    (forall i :: 0 <= i < |txn.outputs| ==> EncodableOutput(dg, txn.outputs[i]))
  }

  function StrippedTransaction(txn: Transaction): Transaction {
    txn.(inputs := StrippedInputs(txn.inputs))
  }

  lemma OutputsAndFeeBack(dg: Digests, txn: Transaction, inputs: seq<Input>, s: Source)
    requires EncodableTransaction(dg, txn)
    ensures ParseOutputsAndFee(dg,
      Over(Uint64Bytes(|txn.outputs|) + (OutputsBytes(dg, txn.outputs) + CurrencyBytes(txn.minerFee)), s), inputs) ==
      Parsed(txn.(inputs := inputs), s)
  {
    hide Uint64Bytes, ParsePrefix, ParseOutputs, OutputsBytes, ParseCurrency, CurrencyBytes, EncodableOutput,
      EncodableInput;
    var m, outputs, fee := Uint64Bytes(|txn.outputs|), OutputsBytes(dg, txn.outputs), CurrencyBytes(txn.minerFee);
    OverConcat(m, outputs + fee, s);
    OverConcat(outputs, fee, s);
    OutputsBack(dg, txn.outputs, Over(fee, s));
    PrefixBack(|txn.outputs|, Over(outputs, Over(fee, s)));
    CurrencyBack(txn.minerFee, s);
  }

  lemma TransactionBack(dg: Digests, txn: Transaction, s: Source)
    requires EncodableTransaction(dg, txn)
    ensures ParseTransaction(dg, Over(TransactionBytes(dg, txn), s)) == Parsed(StrippedTransaction(txn), s)
  {
    hide Uint64Bytes, ParsePrefix, ParseInputs, InputsBytes, OutputsBytes, CurrencyBytes, EncodableOutput,
      EncodableInput, ParseOutputsAndFee;
    var version: seq<Byte> := [VERSION];
    var n, inputs := Uint64Bytes(|txn.inputs|), InputsBytes(dg, txn.inputs);
    var more := Uint64Bytes(|txn.outputs|) + (OutputsBytes(dg, txn.outputs) + CurrencyBytes(txn.minerFee));
    OverConcat(version, n + (inputs + more), s);
    OverConcat(n, inputs + more, s);
    OverConcat(inputs, more, s);
    BytesBack(version, Over(n, Over(inputs, Over(more, s))));
    InputsBack(dg, txn.inputs, Over(more, s));
    PrefixBack(|txn.inputs|, Over(inputs, Over(more, s)));
    OutputsAndFeeBack(dg, txn, StrippedInputs(txn.inputs), s);
  }

  function TransactionsBytes(dg: Digests, txns: seq<Transaction>): seq<Byte> {
    if txns == [] then [] else TransactionBytes(dg, txns[0]) + TransactionsBytes(dg, txns[1..])
  }

  function ParseTransactions(dg: Digests, s: Source, n: nat): Parsed<seq<Transaction>>
    decreases n
  {
    if n == 0 then Parsed([], s)
    else
      var first := ParseTransaction(dg, s);
      if first.Failed? then Failed
      else
        var more := ParseTransactions(dg, first.rest, n - 1);
        if more.Failed? then Failed else Parsed([first.value] + more.value, more.rest)
  }

  function StrippedTransactions(txns: seq<Transaction>): (r: seq<Transaction>)
    ensures |r| == |txns|
    ensures forall i :: 0 <= i < |txns| ==> r[i] == StrippedTransaction(txns[i])
  {
    seq(|txns|, i requires 0 <= i < |txns| => StrippedTransaction(txns[i]))
  }

  lemma {:induction false} TransactionsBack(dg: Digests, txns: seq<Transaction>, s: Source)
    requires forall i :: 0 <= i < |txns| ==> EncodableTransaction(dg, txns[i])
    ensures ParseTransactions(dg, Over(TransactionsBytes(dg, txns), s), |txns|) == Parsed(StrippedTransactions(txns), s)
    ensures |TransactionsBytes(dg, txns)| >= |txns|
    decreases |txns|
  {
    hide ParseTransaction, EncodableTransaction, StrippedTransaction;
    if txns == [] {
      assert Over([], s) == s;
    } else {
      OverConcat(TransactionBytes(dg, txns[0]), TransactionsBytes(dg, txns[1..]), s);
      TransactionBack(dg, txns[0], Over(TransactionsBytes(dg, txns[1..]), s));
      TransactionsBack(dg, txns[1..], s);
      assert StrippedTransactions(txns) == [StrippedTransaction(txns[0])] + StrippedTransactions(txns[1..]);
    }
  }

  // ---------------------------------------------------------------- headers

  function HeaderBytes(dg: Digests, h: BlockHeader): (b: seq<Byte>)
    ensures |b| == 120
  {
    Uint64Bytes(h.height) + (dg.hashBytes(h.parentID) + (Uint64Bytes(h.nonce) + (Uint64Bytes(TimeWord(h.timestamp)) +
    (dg.hashBytes(h.minerAddress) + dg.hashBytes(h.commitment)))))
  }

  function ParseHeader(dg: Digests, s: Source): Parsed<BlockHeader> {
    var height := ParseUint64(s);
    if height.Failed? then Failed
    else
      var parentID := ParseHash(dg, height.rest);
      if parentID.Failed? then Failed
      else
        var nonce := ParseUint64(parentID.rest);
        if nonce.Failed? then Failed
        else
          var time := ParseUint64(nonce.rest);
          if time.Failed? then Failed
          else
            var address := ParseHash(dg, time.rest);
            if address.Failed? then Failed
            else
              var commitment := ParseHash(dg, address.rest);
              if commitment.Failed? then Failed
              else Parsed(BlockHeader(height.value, parentID.value, nonce.value, WordTime(time.value), address.value,
                commitment.value), commitment.rest)
  }

  ghost predicate EncodableHeader(dg: Digests, h: BlockHeader) {
    h.height < WORD && h.nonce < WORD && TimeInRange(h.timestamp) &&
    Faithful(dg, h.parentID) && Faithful(dg, h.minerAddress) && Faithful(dg, h.commitment)
  }

  /** A header with its timestamp cut to whole seconds; its ID is the same. */
  function WholeSeconds(h: BlockHeader): BlockHeader {
    h.(timestamp := Unix(h.timestamp) * SECOND)
  }

  lemma SameID(h: BlockHeader)
    ensures WholeSeconds(h).ID() == h.ID()
    ensures WholeSeconds(h) == h <==> h.timestamp % SECOND == 0
  {
  }

  lemma HeaderBack(dg: Digests, h: BlockHeader, s: Source)
    requires EncodableHeader(dg, h)
    ensures ParseHeader(dg, Over(HeaderBytes(dg, h), s)) == Parsed(WholeSeconds(h), s)
  {
    hide Uint64Bytes, ParseUint64, ParseHash, TimeWord, WordTime;
    var height, nonce, time := Uint64Bytes(h.height), Uint64Bytes(h.nonce), Uint64Bytes(TimeWord(h.timestamp));
    var parentID, address, commitment :=
      dg.hashBytes(h.parentID), dg.hashBytes(h.minerAddress), dg.hashBytes(h.commitment);
    OverConcat(height, parentID + (nonce + (time + (address + commitment))), s);
    OverConcat(parentID, nonce + (time + (address + commitment)), s);
    OverConcat(nonce, time + (address + commitment), s);
    OverConcat(time, address + commitment, s);
    OverConcat(address, commitment, s);
    HashBack(dg, h.commitment, s);
    HashBack(dg, h.minerAddress, Over(commitment, s));
    Uint64Back(TimeWord(h.timestamp), Over(address, Over(commitment, s)));
    Uint64Back(h.nonce, Over(time, Over(address, Over(commitment, s))));
    HashBack(dg, h.parentID, Over(nonce, Over(time, Over(address, Over(commitment, s)))));
    Uint64Back(h.height, Over(parentID, Over(nonce, Over(time, Over(address, Over(commitment, s))))));
    TimeBack(h.timestamp);
  }

  // ---------------------------------------------------------------- lists of hashes

  function HashesBytes(dg: Digests, hs: seq<Hash>): seq<Byte> {
    if hs == [] then [] else dg.hashBytes(hs[0]) + HashesBytes(dg, hs[1..])
  }

  function ParseHashes(dg: Digests, s: Source, n: nat): Parsed<seq<Hash>>
    decreases n
  {
    if n == 0 then Parsed([], s)
    else
      var first := ParseHash(dg, s);
      if first.Failed? then Failed
      else
        var more := ParseHashes(dg, first.rest, n - 1);
        if more.Failed? then Failed else Parsed([first.value] + more.value, more.rest)
  }

  lemma {:induction false} HashesBack(dg: Digests, hs: seq<Hash>, s: Source)
    requires forall i :: 0 <= i < |hs| ==> Faithful(dg, hs[i])
    ensures ParseHashes(dg, Over(HashesBytes(dg, hs), s), |hs|) == Parsed(hs, s)
    decreases |hs|
  {
    hide ParseHash, Faithful;
    if hs == [] {
      assert Over([], s) == s;
    } else {
      OverConcat(dg.hashBytes(hs[0]), HashesBytes(dg, hs[1..]), s);
      HashBack(dg, hs[0], Over(HashesBytes(dg, hs[1..]), s));
      HashesBack(dg, hs[1..], s);
      assert hs == [hs[0]] + hs[1..];
    }
  }
}
