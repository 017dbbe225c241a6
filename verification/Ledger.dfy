/**
  The ledger that the compact consensus state stands for: every element ever
  created, spent or unspent, and every block of the chain.  A block is valid,
  and takes effect, in terms of these full lists.
 */
module Ledger {
  import opened Bits
  import opened Types
  import opened Merkle
  import opened Forest
  import opened Accumulator
  import opened Headers
  import History

  datatype Element = Element(id: ElementID, output: Output, maturityHeight: nat, spent: bool)

  datatype FullState = FullState(elements: seq<Element>, chain: seq<ChainIndex>, timestamps: seq<int>,
                                 totalWork: nat, difficulty: nat, lastAdjust: int) {

    function Index(): ChainIndex {
      if chain == [] then ChainIndex(0, ZeroHash) else chain[|chain| - 1]
    }

    function Leaves(): seq<Hash> {
      LeafHashes(elements)
    }
  }

  /** The leaf hashes of elements, in order. */
  function LeafHashes(elements: seq<Element>): (xs: seq<Hash>)
    ensures |xs| == |elements|
    ensures forall i :: 0 <= i < |elements| ==> xs[i] == ElementLeafHash(elements[i], i)
    ensures Indexed(xs)
  {
    seq(|elements|, i requires 0 <= i < |elements| => ElementLeafHash(elements[i], i))
  }

  function ElementLeafHash(e: Element, i: nat): Hash {
    LeafHash(OutputHash(e.id, e.output, e.maturityHeight), i, e.spent)
  }

  // ---------------------------------------------------------------- the compact form

  /** The state that a node keeps. */
  function Compact(fs: FullState): State {
    State(fs.Index(), Accumulate(fs.Leaves()), Accumulate(History.Leaves(fs.chain)),
          fs.totalWork, fs.difficulty, fs.lastAdjust, Window(fs.timestamps))
  }

  // ---------------------------------------------------------------- rewards

  const MAX_UINT128: nat := 0xFFFF_FFFF_FFFF_FFFF_FFFF_FFFF_FFFF_FFFF

  const BASE_UNITS_PER_COIN: nat := 1_000_000_000

  /** State.BlockReward for the child of a block of the given height: 50 coins, halved every 210000 blocks. */
  function BlockReward(height: nat): nat {
    Shr(50 * BASE_UNITS_PER_COIN, (height + 1) / 210000)
  }

  /** State.MaturityHeight */
  function MaturityHeight(height: nat): nat {
    height + 1 + 144
  }

  /** State.MaxBlockWeight */
  const MAX_BLOCK_WEIGHT: nat := 1_000_000

  function TransactionWeight(txn: Transaction): nat {
    4 * |txn.inputs| + |txn.outputs|
  }

  function BlockWeight(txns: seq<Transaction>): nat {
    if txns == [] then 0 else BlockWeight(txns[..|txns| - 1]) + TransactionWeight(txns[|txns| - 1])
  }

  // ---------------------------------------------------------------- transactions

  function InputIDs(inputs: seq<Input>): (ids: seq<ElementID>)
    ensures |ids| == |inputs|
    ensures forall i :: 0 <= i < |inputs| ==> ids[i] == inputs[i].parent.state.id
  {
    seq(|inputs|, i requires 0 <= i < |inputs| => inputs[i].parent.state.id)
  }

  function TransactionID(txn: Transaction): Hash {
    TransactionHash(InputIDs(txn.inputs), txn.outputs, txn.minerFee)
  }

  function TransactionIDs(txns: seq<Transaction>): (ids: seq<Hash>)
    ensures |ids| == |txns|
    ensures forall i :: 0 <= i < |txns| ==> ids[i] == TransactionID(txns[i])
  {
    seq(|txns|, i requires 0 <= i < |txns| => TransactionID(txns[i]))
  }

  function InputSigHash(txn: Transaction): Hash {
    SigningHash(InputIDs(txn.inputs), txn.outputs, txn.minerFee)
  }

  function InputValue(inputs: seq<Input>): nat {
    if inputs == [] then 0 else InputValue(inputs[..|inputs| - 1]) + inputs[|inputs| - 1].parent.output.value
  }

  function OutputValue(outputs: seq<Output>): nat {
    if outputs == [] then 0 else OutputValue(outputs[..|outputs| - 1]) + outputs[|outputs| - 1].value
  }

  /** All inputs of a block, in order. */
  function AllInputs(txns: seq<Transaction>): seq<Input> {
    if txns == [] then [] else AllInputs(txns[..|txns| - 1]) + txns[|txns| - 1].inputs
  }

  function Fees(txns: seq<Transaction>): nat {
    if txns == [] then 0 else Fees(txns[..|txns| - 1]) + txns[|txns| - 1].minerFee
  }

  // ---------------------------------------------------------------- validity

  /** The input's parent is an unspent element of the ledger, and its proof is the element's path. */
  ghost predicate SpendsElement(fs: FullState, oe: OutputElement) {
    oe.state.leafIndex < |fs.elements| &&
    fs.elements[oe.state.leafIndex] == Element(oe.state.id, oe.output, oe.maturityHeight, false) &&
    oe.state.merkleProof == LeafPath(fs.Leaves(), oe.state.leafIndex)
  }

  predicate PolicySatisfied(input: Input, hash: Hash) {
    AddressHash(input.publicKey) == input.parent.output.address && input.signature == Signed(input.publicKey, hash)
  }

  ghost predicate ValidTransaction(fs: FullState, txn: Transaction) {
    (forall i :: 0 <= i < |txn.inputs| ==>
      txn.inputs[i].parent.Ephemeral() || SpendsElement(fs, txn.inputs[i].parent)) &&
    (forall i :: 0 <= i < |txn.outputs| ==> txn.outputs[i].value > 0) &&
    InputValue(txn.inputs) + OutputValue(txn.outputs) + txn.minerFee <= MAX_UINT128 &&
    (forall i :: 0 <= i < |txn.inputs| ==> txn.inputs[i].parent.maturityHeight <= fs.Index().height + 1) &&
    InputValue(txn.inputs) == OutputValue(txn.outputs) + txn.minerFee &&
    (forall i :: 0 <= i < |txn.inputs| ==> PolicySatisfied(txn.inputs[i], InputSigHash(txn)))
  }

  /** The ephemeral input spends output k of the earlier transaction j of the block. */
  ghost predicate SpendsOutput(txns: seq<Transaction>, oe: OutputElement, j: nat, k: nat) {
    j < |txns| && k < |txns[j].outputs| &&
    oe.state.id == ElementID(TransactionID(txns[j]), k) && oe.output == txns[j].outputs[k]
  }

  /** Ephemeral inputs spend outputs of earlier transactions of the block. */
  ghost predicate EphemeralsAvailable(txns: seq<Transaction>) {
    forall i, m :: 0 <= i < |txns| && 0 <= m < |txns[i].inputs| && txns[i].inputs[m].parent.Ephemeral() ==>
      EphemeralAvailable(txns[..i], txns[i].inputs[m].parent)
  }

  ghost predicate EphemeralAvailable(earlier: seq<Transaction>, oe: OutputElement) {
    exists j: nat, k: nat :: SpendsOutput(earlier, oe, j, k)
  }

  /** No two inputs name the same element. */
  ghost predicate NoDoubleSpends(txns: seq<Transaction>) {
    forall a, b :: 0 <= a < b < |AllInputs(txns)| ==>
      AllInputs(txns)[a].parent.state.id != AllInputs(txns)[b].parent.state.id
  }

  ghost predicate ValidTransactionSet(fs: FullState, txns: seq<Transaction>) {
    BlockWeight(txns) <= MAX_BLOCK_WEIGHT && EphemeralsAvailable(txns) && NoDoubleSpends(txns) &&
    forall i :: 0 <= i < |txns| ==> ValidTransaction(fs, txns[i])
  }

  function Commitment(s: State, miner: Hash, txns: seq<Transaction>): Hash {
    CommitmentHash(s.Image(), miner, TransactionIDs(txns))
  }

  ghost predicate ValidBlock(fs: FullState, b: Block, work: Hash -> nat) {
    ValidateHeader(Compact(fs), b.header, work) == Ok &&
    Commitment(Compact(fs), b.header.minerAddress, b.transactions) == b.header.commitment &&
    ValidTransactionSet(fs, b.transactions)
  }

  // ---------------------------------------------------------------- effect

  /** The elements whose positions the inputs name become spent. */
  function SpendAt(elements: seq<Element>, inputs: seq<Input>): (r: seq<Element>)
    ensures |r| == |elements|
  {
    if inputs == [] then elements
    else
      var before := SpendAt(elements, inputs[..|inputs| - 1]);
      var p := inputs[|inputs| - 1].parent.state.leafIndex;
      if p < |before| then before[p := before[p].(spent := true)] else before
  }

  /** The IDs that ephemeral inputs spend. */
  function EphemeralIDs(inputs: seq<Input>): set<ElementID> {
    set i | 0 <= i < |inputs| && inputs[i].parent.Ephemeral() :: inputs[i].parent.state.id
  }

  /** The elements that a transaction's outputs become. */
  function OutputElements(txn: Transaction, spent: set<ElementID>): (r: seq<Element>)
    ensures |r| == |txn.outputs|
    ensures forall k :: 0 <= k < |r| ==>
      var id := ElementID(TransactionID(txn), k);
      r[k] == Element(id, txn.outputs[k], 0, id in spent)
  {
    seq(|txn.outputs|, k requires 0 <= k < |txn.outputs| =>
      var id := ElementID(TransactionID(txn), k);
      Element(id, txn.outputs[k], 0, id in spent))
  }

  function AllOutputElements(txns: seq<Transaction>, spent: set<ElementID>): seq<Element> {
    if txns == [] then [] else AllOutputElements(txns[..|txns| - 1], spent) + OutputElements(txns[|txns| - 1], spent)
  }

  function MinerElement(height: nat, b: Block, spent: set<ElementID>): Element {
    var id := ElementID(b.header.ID(), 0);
    Element(id, Output(BlockReward(height), b.header.minerAddress), MaturityHeight(height), id in spent)
  }

  /** The elements that a block creates: the miner's first. */
  function Created(height: nat, b: Block, spent: set<ElementID>): seq<Element> {
    [MinerElement(height, b, spent)] + AllOutputElements(b.transactions, spent)
  }

  function NextElements(fs: FullState, b: Block): seq<Element> {
    var inputs := AllInputs(b.transactions);
    SpendAt(fs.elements, inputs) + Created(fs.Index().height, b, EphemeralIDs(inputs))
  }

  /** The ledger after a block. */
  function NextFull(fs: FullState, b: Block): FullState {
    var header := ApplyHeader(Compact(fs), b.header);
    FullState(NextElements(fs, b), fs.chain + [b.Index()], fs.timestamps + [b.header.timestamp],
              header.totalWork, header.difficulty, header.lastAdjust)
  }

  /** GenesisUpdate starts from the empty ledger. */
  function EmptyLedger(difficulty: nat, lastAdjust: int): FullState {
    FullState([], [], [], 0, difficulty, lastAdjust)
  }

  /** A genesis block spends nothing, creates distinct elements, and commits to no earlier state. */
  ghost predicate Genesis(b: Block) {
    b.header.height == 0 && AllInputs(b.transactions) == [] && !b.header.commitment.CommitmentHash? &&
    forall i, j :: 0 <= i < j < |b.transactions| ==>
      TransactionID(b.transactions[i]) != TransactionID(b.transactions[j])
  }

  /** The next block of a ledger: a genesis block on the empty one, a valid block otherwise. */
  ghost predicate Extends(fs: FullState, b: Block, work: Hash -> nat) {
    if fs.chain == [] then Genesis(b) else ValidBlock(fs, b, work)
  }
}
