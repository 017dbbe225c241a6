/**
  What every chain of valid blocks keeps: all element IDs are distinct, and a
  new block can neither recreate an element nor spend one that is spent.
 */
module LedgerInvariant {
  import opened Types
  import opened Headers
  import opened Ledger
  import History

  // ---------------------------------------------------------------- the invariant

  ghost predicate DistinctIDs(es: seq<Element>) {
    forall i, j :: 0 <= i < j < |es| ==> es[i].id != es[j].id
  }

  ghost predicate HasID(es: seq<Element>, id: ElementID) {
    exists p :: 0 <= p < |es| && es[p].id == id
  }

  ghost predicate SpentIn(es: seq<Element>, id: ElementID) {
    exists p :: 0 <= p < |es| && es[p].id == id && es[p].spent
  }

  /** An element comes from a block of the chain, or from a transaction whose inputs are spent. */
  ghost predicate SourceKnown(fs: FullState, source: Hash) {
    match source
    case TransactionHash(inputs, _, _) => forall m :: 0 <= m < |inputs| ==> SpentIn(fs.elements, inputs[m])
    case BlockHash(_, _, _) => OnChain(fs.chain, source)
    case _ => false
  }

  ghost predicate OnChain(chain: seq<ChainIndex>, id: Hash) {
    exists i :: 0 <= i < |chain| && chain[i].id == id
  }

  /** Block i's ID commits to a state that ends with block i - 1. */
  ghost predicate Linked(chain: seq<ChainIndex>, i: nat)
    requires i < |chain|
  {
    chain[i].height == i && chain[i].id.BlockHash? &&
    if i == 0 then !chain[0].id.commitment.CommitmentHash?
    else chain[i].id.commitment.CommitmentHash? && chain[i].id.commitment.state.index == chain[i - 1]
  }

  ghost predicate WellFormed(fs: FullState) {
    DistinctIDs(fs.elements) && |fs.timestamps| == |fs.chain| && (fs.chain == [] ==> fs.elements == []) &&
    (forall p :: 0 <= p < |fs.elements| ==> SourceKnown(fs, fs.elements[p].id.source)) &&
    (forall i :: 0 <= i < |fs.chain| ==> Linked(fs.chain, i))
  }

  // ---------------------------------------------------------------- positions of inputs and outputs

  /** Input m of transaction i among all inputs. */
  function Offset(txns: seq<Transaction>, i: nat): nat
    requires i <= |txns|
  {
    |AllInputs(txns[..i])|
  }

  lemma {:induction false} InputAt(txns: seq<Transaction>, i: nat, m: nat)
    requires i < |txns| && m < |txns[i].inputs|
    ensures Offset(txns, i) + m < |AllInputs(txns)|
    ensures AllInputs(txns)[Offset(txns, i) + m] == txns[i].inputs[m]
    decreases |txns|
  {
    var n := |txns| - 1;
    if i < n {
      assert txns[..n][..i] == txns[..i];
      InputAt(txns[..n], i, m);
    }
  }

  lemma {:induction false} InputFrom(txns: seq<Transaction>, p: nat) returns (i: nat, m: nat)
    requires p < |AllInputs(txns)|
    ensures i < |txns| && m < |txns[i].inputs| && p == Offset(txns, i) + m && AllInputs(txns)[p] == txns[i].inputs[m]
    decreases |txns|
  {
    var n := |txns| - 1;
    if p < |AllInputs(txns[..n])| {
      i, m := InputFrom(txns[..n], p);
      assert txns[..n][..i] == txns[..i];
    } else {
      i, m := n, p - |AllInputs(txns[..n])|;
    }
  }

  lemma {:induction false} OffsetsGrow(txns: seq<Transaction>, i: nat, j: nat)
    requires i < j <= |txns|
    ensures Offset(txns, i) + |txns[i].inputs| <= Offset(txns, j)
    decreases j
  {
    assert txns[..j][..j - 1] == txns[..j - 1];
    if i < j - 1 {
      OffsetsGrow(txns, i, j - 1);
    }
  }

  lemma {:induction false} OutputFrom(txns: seq<Transaction>, spent: set<ElementID>, p: nat) returns (i: nat, k: nat)
    requires p < |AllOutputElements(txns, spent)|
    ensures i < |txns| && k < |txns[i].outputs|
    ensures p == |AllOutputElements(txns[..i], spent)| + k
    ensures AllOutputElements(txns, spent)[p] == OutputElements(txns[i], spent)[k]
    decreases |txns|
  {
    var n := |txns| - 1;
    if p < |AllOutputElements(txns[..n], spent)| {
      i, k := OutputFrom(txns[..n], spent, p);
      assert txns[..n][..i] == txns[..i];
    } else {
      i, k := n, p - |AllOutputElements(txns[..n], spent)|;
    }
  }

  lemma {:induction false} OutputAt(txns: seq<Transaction>, spent: set<ElementID>, i: nat, k: nat)
    requires i < |txns| && k < |txns[i].outputs|
    ensures |AllOutputElements(txns[..i], spent)| + k < |AllOutputElements(txns, spent)|
    ensures AllOutputElements(txns, spent)[|AllOutputElements(txns[..i], spent)| + k] ==
      OutputElements(txns[i], spent)[k]
    decreases |txns|
  {
    var n := |txns| - 1;
    if i < n {
      assert txns[..n][..i] == txns[..i];
      OutputAt(txns[..n], spent, i, k);
    }
  }

  /** How many outputs the first i transactions have. */
  function OutputsBefore(txns: seq<Transaction>, i: nat): nat
    requires i <= |txns|
  {
    if i == 0 then 0 else OutputsBefore(txns, i - 1) + |txns[i - 1].outputs|
  }

  lemma {:induction false} CountOutputs(txns: seq<Transaction>, spent: set<ElementID>, i: nat)
    requires i <= |txns|
    ensures |AllOutputElements(txns[..i], spent)| == OutputsBefore(txns, i)
  {
    if i > 0 {
      CountOutputs(txns, spent, i - 1);
      assert txns[..i][..i - 1] == txns[..i - 1];
    }
  }

  /** Where output k of transaction i stands among what its block creates, behind the miner's reward. */
  function OutputPlace(txns: seq<Transaction>, i: nat, k: nat): (p: nat)
    requires i < |txns| && k < |txns[i].outputs|
  {
    1 + OutputsBefore(txns, i) + k
  }

  /**
    What a block creates: first the miner's reward, which matures after 144
    blocks, then the outputs of its transactions in order, each named by its
    transaction and its place there.
   */
  lemma CreatedExactly(height: nat, b: Block, spent: set<ElementID>)
    ensures var es := Created(height, b, spent);
      |es| == 1 + OutputsBefore(b.transactions, |b.transactions|) &&
      es[0].id == ElementID(b.header.ID(), 0) && es[0].maturityHeight == height + 145 &&
      es[0].output == Output(BlockReward(height), b.header.minerAddress)
    ensures forall i, k :: 0 <= i < |b.transactions| && 0 <= k < |b.transactions[i].outputs| ==>
      var es, txn, p := Created(height, b, spent), b.transactions[i], OutputPlace(b.transactions, i, k);
      p < |es| && es[p].id == ElementID(TransactionHash(InputIDs(txn.inputs), txn.outputs, txn.minerFee), k) &&
      es[p].output == txn.outputs[k] && es[p].maturityHeight == 0
  {
    hide BlockReward, AllOutputElements;
    var es, txns := Created(height, b, spent), b.transactions;
    assert txns[..|txns|] == txns;
    CountOutputs(txns, spent, |txns|);
    forall i, k | 0 <= i < |b.transactions| && 0 <= k < |b.transactions[i].outputs|
      ensures OutputPlace(b.transactions, i, k) < |es| &&
        es[OutputPlace(b.transactions, i, k)] == OutputElements(b.transactions[i], spent)[k]
    {
      CountOutputs(txns, spent, i);
      OutputAt(txns, spent, i, k);
    }
  }

  // ---------------------------------------------------------------- new IDs are new

  /** A transaction with outputs has inputs: values are positive and balance. */
  lemma OutputsNeedInputs(fs: FullState, txn: Transaction)
    requires ValidTransaction(fs, txn) && txn.outputs != []
    ensures txn.inputs != []
  {
    var n := |txn.outputs| - 1;
    assert OutputValue(txn.outputs) >= txn.outputs[n].value > 0;
  }

  /** An input that is not ephemeral names an unspent element of the ledger; its ID belongs to no spent one. */
  lemma UnspentInput(fs: FullState, oe: OutputElement)
    requires DistinctIDs(fs.elements) && SpendsElement(fs, oe)
    ensures HasID(fs.elements, oe.state.id) && !SpentIn(fs.elements, oe.state.id)
  {
  }

  /** No element of the ledger comes from a new transaction that has outputs. */
  lemma {:induction false} NewSource(fs: FullState, txns: seq<Transaction>, i: nat)
    requires WellFormed(fs) && ValidTransactionSet(fs, txns) && i < |txns| && txns[i].outputs != []
    ensures forall p :: 0 <= p < |fs.elements| ==> fs.elements[p].id.source != TransactionID(txns[i])
    decreases i
  {
    OutputsNeedInputs(fs, txns[i]);
    NewInput(fs, txns, i, 0);
    forall p | 0 <= p < |fs.elements|
      ensures fs.elements[p].id.source != TransactionID(txns[i])
    {
      assert SourceKnown(fs, fs.elements[p].id.source);
      assert !SpentIn(fs.elements, InputIDs(txns[i].inputs)[0]);
    }
  }

  /** No input names a spent element; an ephemeral one names no element of the ledger at all. */
  lemma {:induction false} NewInput(fs: FullState, txns: seq<Transaction>, i: nat, m: nat)
    requires WellFormed(fs) && ValidTransactionSet(fs, txns) && i < |txns| && m < |txns[i].inputs|
    ensures !SpentIn(fs.elements, txns[i].inputs[m].parent.state.id)
    ensures txns[i].inputs[m].parent.Ephemeral() <==> !HasID(fs.elements, txns[i].inputs[m].parent.state.id)
    decreases i, 0
  {
    var oe := txns[i].inputs[m].parent;
    assert ValidTransaction(fs, txns[i]);
    if oe.Ephemeral() {
      assert EphemeralAvailable(txns[..i], oe);
      var j: nat, k: nat :| SpendsOutput(txns[..i], oe, j, k);
      NewSource(fs, txns, j);
    } else {
      UnspentInput(fs, oe);
    }
  }

  /** Two transactions of a block that both have outputs have different IDs. */
  lemma DistinctTransactions(fs: FullState, txns: seq<Transaction>, i: nat, j: nat)
    requires ValidTransactionSet(fs, txns) && i < j < |txns| && txns[i].outputs != []
    ensures TransactionID(txns[i]) != TransactionID(txns[j])
  {
    assert ValidTransaction(fs, txns[i]);
    OutputsNeedInputs(fs, txns[i]);
    if TransactionID(txns[i]) == TransactionID(txns[j]) {
      assert InputIDs(txns[i].inputs)[0] == InputIDs(txns[j].inputs)[0];
      assert |InputIDs(txns[j].inputs)| > 0;
      InputAt(txns, i, 0);
      InputAt(txns, j, 0);
      OffsetsGrow(txns, i, j);
    }
  }

  // ---------------------------------------------------------------- the effect of a block, by IDs

  /** The elements with the given IDs become spent. */
  function Mark(es: seq<Element>, ids: set<ElementID>): (r: seq<Element>)
    ensures |r| == |es|
    ensures forall p :: 0 <= p < |es| ==> r[p] == es[p].(spent := es[p].spent || es[p].id in ids)
  {
    seq(|es|, p requires 0 <= p < |es| => es[p].(spent := es[p].spent || es[p].id in ids))
  }

  function IDs(inputs: seq<Input>): set<ElementID> {
    set i | 0 <= i < |inputs| :: inputs[i].parent.state.id
  }

  /** The elements a block creates, before its own ephemeral inputs spend any. */
  function Fresh(fs: FullState, b: Block): seq<Element> {
    Created(fs.Index().height, b, {})
  }

  lemma {:induction false} CreatedFlags(txns: seq<Transaction>, spent: set<ElementID>)
    ensures AllOutputElements(txns, spent) == Mark(AllOutputElements(txns, {}), spent)
    decreases |txns|
  {
    if txns != [] {
      CreatedFlags(txns[..|txns| - 1], spent);
    }
  }

  lemma {:induction false} SpendAtMeaning(es: seq<Element>, inputs: seq<Input>, p: nat)
    requires p < |es|
    ensures SpendAt(es, inputs)[p] ==
      es[p].(spent := es[p].spent || exists m :: 0 <= m < |inputs| && inputs[m].parent.state.leafIndex == p)
    decreases |inputs|
  {
    if inputs != [] {
      var n := |inputs| - 1;
      SpendAtMeaning(es, inputs[..n], p);
      if m :| 0 <= m < |inputs| && inputs[m].parent.state.leafIndex == p {
        assert m < n ==> inputs[..n][m] == inputs[m];
      }
    }
  }

  /** What a valid set of transactions says of each of its inputs. */
  lemma InputFacts(fs: FullState, txns: seq<Transaction>, m: nat)
    requires WellFormed(fs) && ValidTransactionSet(fs, txns) && m < |AllInputs(txns)|
    ensures var oe := AllInputs(txns)[m].parent;
      !SpentIn(fs.elements, oe.state.id) &&
      (oe.Ephemeral() <==> !HasID(fs.elements, oe.state.id)) &&
      (!oe.Ephemeral() ==> SpendsElement(fs, oe)) &&
      (oe.Ephemeral() ==> EphemeralAvailable(txns, oe))
  {
    var i, n := InputFrom(txns, m);
    NewInput(fs, txns, i, n);
    var oe := AllInputs(txns)[m].parent;
    assert ValidTransaction(fs, txns[i]);
    if oe.Ephemeral() {
      assert EphemeralAvailable(txns[..i], oe);
      var j: nat, k: nat :| SpendsOutput(txns[..i], oe, j, k);
      assert SpendsOutput(txns, oe, j, k);
    }
  }

  /** A valid block's ID is not yet on the chain. */
  lemma NewBlockID(fs: FullState, b: Block)
    requires WellFormed(fs) && fs.chain != []
    requires b.header.commitment.CommitmentHash? && b.header.commitment.state.index == fs.Index()
    ensures !OnChain(fs.chain, b.header.ID())
  {
    forall i | 0 <= i < |fs.chain|
      ensures fs.chain[i].id != b.header.ID()
    {
      assert Linked(fs.chain, i) && Linked(fs.chain, |fs.chain| - 1);
      assert i > 0 ==> Linked(fs.chain, i - 1);
    }
  }

  /** What the rest of the argument needs of a valid block. */
  ghost predicate Sound(fs: FullState, b: Block) {
    WellFormed(fs) && fs.chain != [] && ValidTransactionSet(fs, b.transactions) && !OnChain(fs.chain, b.header.ID())
  }

  lemma ValidIsSound(fs: FullState, b: Block, work: Hash -> nat)
    requires WellFormed(fs) && fs.chain != [] && ValidBlock(fs, b, work)
    ensures Sound(fs, b)
    ensures b.header.height == fs.Index().height + 1 && b.header.parentID == fs.Index().id
    ensures b.header.commitment.CommitmentHash? && b.header.commitment.state.index == fs.Index()
  {
    hide WellFormed, ValidTransactionSet;
    NewBlockID(fs, b);
  }

  /** IDs created by a block are not in the ledger. */
  lemma CreatedIsNew(fs: FullState, b: Block, spent: set<ElementID>, p: nat)
    requires Sound(fs, b) && p < |Created(fs.Index().height, b, spent)|
    ensures !HasID(fs.elements, Created(fs.Index().height, b, spent)[p].id)
  {
    hide BlockReward, MaturityHeight, AllOutputElements, AllInputs, BlockWeight;
    var txns := b.transactions;
    if p == 0 {
      forall q | 0 <= q < |fs.elements|
        ensures fs.elements[q].id.source != b.header.ID()
      {
        assert SourceKnown(fs, fs.elements[q].id.source);
      }
    } else {
      var j, k := OutputFrom(txns, spent, p - 1);
      NewSource(fs, txns, j);
    }
  }

  /** A block's effect in terms of IDs: its inputs, ephemeral or not, become spent in the ledger and its creations. */
  lemma EffectByIDs(fs: FullState, b: Block)
    requires Sound(fs, b) && |fs.elements| <= EPHEMERAL_LEAF_INDEX
    ensures NextElements(fs, b) == Mark(fs.elements + Fresh(fs, b), IDs(AllInputs(b.transactions)))
  {
    hide BlockReward, MaturityHeight, AllOutputElements, AllInputs, BlockWeight;
    var inputs := AllInputs(b.transactions);
    var ids, ephemeral := IDs(inputs), EphemeralIDs(inputs);
    var height := fs.Index().height;
    forall p | 0 <= p < |fs.elements|
      ensures SpendAt(fs.elements, inputs)[p] ==
        fs.elements[p].(spent := fs.elements[p].spent || fs.elements[p].id in ids)
    {
      OldEffect(fs, b.transactions, p);
    }
    var created := Created(height, b, ephemeral);
    CreatedFlags(b.transactions, ephemeral);
    forall p | 0 <= p < |created|
      ensures created[p] == Fresh(fs, b)[p].(spent := Fresh(fs, b)[p].id in ids)
    {
      FreshUnspent(fs, b, p);
      CreatedIsNew(fs, b, ephemeral, p);
      NewEffect(fs, b.transactions, created[p].id);
    }
  }

  lemma FreshUnspent(fs: FullState, b: Block, p: nat)
    requires p < |Fresh(fs, b)|
    ensures !Fresh(fs, b)[p].spent
  {
    hide BlockReward, MaturityHeight, AllOutputElements;
    if p > 0 {
      var j, k := OutputFrom(b.transactions, {}, p - 1);
    }
  }

  lemma OldEffect(fs: FullState, txns: seq<Transaction>, p: nat)
    requires WellFormed(fs) && ValidTransactionSet(fs, txns) && p < |fs.elements| <= EPHEMERAL_LEAF_INDEX
    ensures SpendAt(fs.elements, AllInputs(txns))[p] ==
      fs.elements[p].(spent := fs.elements[p].spent || fs.elements[p].id in IDs(AllInputs(txns)))
  {
    var inputs := AllInputs(txns);
    SpendAtMeaning(fs.elements, inputs, p);
    forall m | 0 <= m < |inputs|
      ensures inputs[m].parent.state.leafIndex == p <==> inputs[m].parent.state.id == fs.elements[p].id
    {
      InputFacts(fs, txns, m);
    }
  }

  lemma NewEffect(fs: FullState, txns: seq<Transaction>, id: ElementID)
    requires WellFormed(fs) && ValidTransactionSet(fs, txns) && !HasID(fs.elements, id)
    ensures id in EphemeralIDs(AllInputs(txns)) <==> id in IDs(AllInputs(txns))
  {
    var inputs := AllInputs(txns);
    if id in IDs(inputs) {
      var m :| 0 <= m < |inputs| && inputs[m].parent.state.id == id;
      InputFacts(fs, txns, m);
    }
  }

  // ---------------------------------------------------------------- the invariant is kept

  lemma {:induction false} OutputsDistinct(fs: FullState, txns: seq<Transaction>)
    requires ValidTransactionSet(fs, txns)
    ensures DistinctIDs(AllOutputElements(txns, {}))
  {
    var es := AllOutputElements(txns, {});
    forall p, q | 0 <= p < q < |es|
      ensures es[p].id != es[q].id
    {
      var i, k := OutputFrom(txns, {}, p);
      var j, l := OutputFrom(txns, {}, q);
      if i < j {
        DistinctTransactions(fs, txns, i, j);
      } else if j < i {
        DistinctTransactions(fs, txns, j, i);
      }
    }
  }

  lemma FreshDistinct(fs: FullState, b: Block)
    requires Sound(fs, b)
    ensures DistinctIDs(fs.elements + Fresh(fs, b))
  {
    hide BlockReward, MaturityHeight, AllOutputElements, AllInputs, BlockWeight;
    var added := Fresh(fs, b);
    OutputsDistinct(fs, b.transactions);
    forall p | 0 < p < |added|
      ensures added[p].id != added[0].id
    {
      var j, k := OutputFrom(b.transactions, {}, p - 1);
    }
    forall p | 0 <= p < |added|
      ensures !HasID(fs.elements, added[p].id)
    {
      CreatedIsNew(fs, b, {}, p);
    }
    var outputs := AllOutputElements(b.transactions, {});
    assert added == [added[0]] + outputs;
    assert forall q :: 0 <= q < |outputs| ==> outputs[q] == added[q + 1];
    DistinctAppend([added[0]], outputs);
    DistinctAppend(fs.elements, added);
  }

  lemma DistinctAppend(a: seq<Element>, b: seq<Element>)
    requires DistinctIDs(a) && DistinctIDs(b) && forall q :: 0 <= q < |b| ==> !HasID(a, b[q].id)
    ensures DistinctIDs(a + b)
  {
  }

  /** Every ID a block spends is spent afterwards. */
  lemma InputsSpent(fs: FullState, b: Block, m: nat)
    requires Sound(fs, b) && |fs.elements| <= EPHEMERAL_LEAF_INDEX
    requires m < |AllInputs(b.transactions)|
    ensures SpentIn(NextElements(fs, b), AllInputs(b.transactions)[m].parent.state.id)
  {
    EffectByIDs(fs, b);
    var p := InputNamed(fs, b, m);
    var id := AllInputs(b.transactions)[m].parent.state.id;
    assert NextElements(fs, b)[p].id == id && NextElements(fs, b)[p].spent;
  }

  /** Every input names an unspent element, of the ledger or of the block, with the value it claims. */
  lemma InputNamed(fs: FullState, b: Block, m: nat) returns (p: nat)
    requires Sound(fs, b) && m < |AllInputs(b.transactions)|
    ensures var es, oe := fs.elements + Fresh(fs, b), AllInputs(b.transactions)[m].parent;
      p < |es| && es[p].id == oe.state.id && es[p].output == oe.output && !es[p].spent
  {
    hide BlockReward, MaturityHeight, AllOutputElements, AllInputs, BlockWeight, Fresh, Created;
    var oe := AllInputs(b.transactions)[m].parent;
    InputFacts(fs, b.transactions, m);
    if oe.Ephemeral() {
      var q := OutputNamed(fs, b, oe);
      p := |fs.elements| + q;
    } else {
      p := oe.state.leafIndex;
    }
  }

  lemma OutputNamed(fs: FullState, b: Block, oe: OutputElement) returns (q: nat)
    requires EphemeralAvailable(b.transactions, oe)
    ensures q < |Fresh(fs, b)| && Fresh(fs, b)[q].id == oe.state.id && Fresh(fs, b)[q].output == oe.output &&
      !Fresh(fs, b)[q].spent
  {
    hide BlockReward, MaturityHeight, AllOutputElements;
    var j: nat, k: nat :| SpendsOutput(b.transactions, oe, j, k);
    OutputAt(b.transactions, {}, j, k);
    q := 1 + |AllOutputElements(b.transactions[..j], {})| + k;
  }

  /** Spent elements stay spent, and nothing leaves the ledger. */
  lemma SpentStaysSpent(fs: FullState, b: Block, id: ElementID)
    requires Sound(fs, b) && |fs.elements| <= EPHEMERAL_LEAF_INDEX
    ensures HasID(fs.elements, id) ==> HasID(NextElements(fs, b), id)
    ensures SpentIn(fs.elements, id) ==> SpentIn(NextElements(fs, b), id)
  {
    hide Sound, IDs, Fresh;
    EffectByIDs(fs, b);
    var es, next := fs.elements + Fresh(fs, b), NextElements(fs, b);
    if p :| 0 <= p < |fs.elements| && fs.elements[p].id == id && (SpentIn(fs.elements, id) ==> fs.elements[p].spent) {
      assert next[p].id == id && es[p] == fs.elements[p];
    }
  }

  lemma {:induction false} NoInputsAtAll(txns: seq<Transaction>, i: nat)
    requires AllInputs(txns) == [] && i < |txns|
    ensures txns[i].inputs == []
    decreases |txns|
  {
    var n := |txns| - 1;
    assert AllInputs(txns) == AllInputs(txns[..n]) + txns[n].inputs;
    if i < n {
      NoInputsAtAll(txns[..n], i);
    }
  }

  /** A created element's source is the new block, or one of its transactions. */
  lemma CreatedSource(height: nat, b: Block, spent: set<ElementID>, p: nat)
    requires p < |Created(height, b, spent)|
    ensures var source := Created(height, b, spent)[p].id.source;
      source == b.header.ID() || exists j :: 0 <= j < |b.transactions| && source == TransactionID(b.transactions[j])
  {
    hide BlockReward, MaturityHeight, AllOutputElements;
    if p > 0 {
      var j, k := OutputFrom(b.transactions, spent, p - 1);
    }
  }

  /** The new elements' sources are known after a valid block. */
  lemma NewSourceKnown(fs: FullState, b: Block, source: Hash)
    requires Sound(fs, b) && |fs.elements| <= EPHEMERAL_LEAF_INDEX
    requires source == b.header.ID() ||
      (exists j :: 0 <= j < |b.transactions| && source == TransactionID(b.transactions[j]))
    ensures SourceKnown(NextFull(fs, b), source)
  {
    hide Sound, NextElements, NextFull, SpentIn;
    NextParts(fs, b);
    var next := NextFull(fs, b);
    if source == b.header.ID() {
      assert next.chain[|fs.chain|].id == source;
    } else {
      var j :| 0 <= j < |b.transactions| && source == TransactionID(b.transactions[j]);
      var inputs := b.transactions[j].inputs;
      forall m | 0 <= m < |inputs|
        ensures SpentIn(next.elements, InputIDs(inputs)[m])
      {
        InputAt(b.transactions, j, m);
        InputsSpent(fs, b, Offset(b.transactions, j) + m);
      }
    }
  }

  lemma OldSourceKnown(fs: FullState, b: Block, source: Hash)
    requires Sound(fs, b) && |fs.elements| <= EPHEMERAL_LEAF_INDEX && SourceKnown(fs, source)
    ensures SourceKnown(NextFull(fs, b), source)
  {
    hide Sound, NextElements, NextFull, SpentIn;
    NextParts(fs, b);
    var next := NextFull(fs, b);
    if source.BlockHash? {
      var i :| 0 <= i < |fs.chain| && fs.chain[i].id == source;
      assert next.chain[i].id == source;
    } else {
      forall m | 0 <= m < |source.inputs|
        ensures SpentIn(next.elements, source.inputs[m])
      {
        SpentStaysSpent(fs, b, source.inputs[m]);
      }
    }
  }

  lemma NextLinked(chain: seq<ChainIndex>, b: Block)
    requires forall i :: 0 <= i < |chain| ==> Linked(chain, i)
    requires if chain == [] then b.header.height == 0 && !b.header.commitment.CommitmentHash?
             else b.header.height == chain[|chain| - 1].height + 1 && b.header.commitment.CommitmentHash? &&
                  b.header.commitment.state.index == chain[|chain| - 1]
    ensures forall i :: 0 <= i < |chain| + 1 ==> Linked(chain + [b.Index()], i)
  {
    forall i | 0 <= i < |chain| + 1
      ensures Linked(chain + [b.Index()], i)
    {
      if i < |chain| {
        assert Linked(chain, i);
      } else if i > 0 {
        assert Linked(chain, i - 1);
      }
    }
  }

  lemma NextDistinct(fs: FullState, b: Block)
    requires Sound(fs, b) && |fs.elements| <= EPHEMERAL_LEAF_INDEX
    ensures DistinctIDs(NextElements(fs, b))
  {
    hide Sound, Fresh, IDs, NextElements;
    EffectByIDs(fs, b);
    FreshDistinct(fs, b);
  }

  lemma NextSources(fs: FullState, b: Block, p: nat)
    requires Sound(fs, b) && |fs.elements| <= EPHEMERAL_LEAF_INDEX && p < |NextElements(fs, b)|
    ensures SourceKnown(NextFull(fs, b), NextElements(fs, b)[p].id.source)
  {
    var next, inputs := NextElements(fs, b), AllInputs(b.transactions);
    if p < |fs.elements| {
      SpendAtMeaning(fs.elements, inputs, p);
      hide SourceKnown, NextFull;
      OldSourceKnown(fs, b, fs.elements[p].id.source);
    } else {
      hide SourceKnown, NextFull, Created, AllInputs;
      CreatedSource(fs.Index().height, b, EphemeralIDs(inputs), p - |fs.elements|);
      NewSourceKnown(fs, b, next[p].id.source);
    }
  }

  lemma NextParts(fs: FullState, b: Block)
    ensures var next := NextFull(fs, b);
      next.elements == NextElements(fs, b) && next.chain == fs.chain + [b.Index()] &&
      next.timestamps == fs.timestamps + [b.header.timestamp]
  {
    hide NextElements, ApplyHeader, Compact;
  }

  /** The invariant holds over every chain: a valid block keeps it. */
  lemma NextIsWellFormed(fs: FullState, b: Block, work: Hash -> nat)
    requires WellFormed(fs) && fs.chain != [] && ValidBlock(fs, b, work) && |fs.elements| <= EPHEMERAL_LEAF_INDEX
    ensures WellFormed(NextFull(fs, b))
  {
    hide ValidBlock, SourceKnown, Sound, NextElements, NextFull;
    ValidIsSound(fs, b, work);
    NextParts(fs, b);
    NextDistinct(fs, b);
    assert Linked(fs.chain, |fs.chain| - 1);
    NextLinked(fs.chain, b);
    forall p | 0 <= p < |NextElements(fs, b)|
      ensures SourceKnown(NextFull(fs, b), NextElements(fs, b)[p].id.source)
    {
      NextSources(fs, b, p);
    }
  }

  lemma GenesisCreated(b: Block)
    requires Genesis(b)
    ensures SpendAt([], AllInputs(b.transactions)) + Created(0, b, EphemeralIDs(AllInputs(b.transactions))) ==
      Created(0, b, {})
  {
    hide Created;
    assert EphemeralIDs(AllInputs(b.transactions)) == {};
  }

  lemma GenesisDistinct(b: Block)
    requires Genesis(b)
    ensures DistinctIDs(Created(0, b, {}))
  {
    hide BlockReward, MaturityHeight, AllOutputElements, AllInputs;
    var es := Created(0, b, {});
    forall p, q | 0 <= p < q < |es|
      ensures es[p].id != es[q].id
    {
      var j, l := OutputFrom(b.transactions, {}, q - 1);
      if p > 0 {
        var i, k := OutputFrom(b.transactions, {}, p - 1);
      }
    }
  }

  lemma GenesisSources(b: Block, next: FullState, p: nat)
    requires Genesis(b) && next.chain == [b.Index()] && p < |Created(0, b, {})|
    ensures SourceKnown(next, Created(0, b, {})[p].id.source)
  {
    hide BlockReward, MaturityHeight, AllOutputElements, AllInputs;
    assert next.chain[0].id == b.header.ID();
    if p > 0 {
      var j, k := OutputFrom(b.transactions, {}, p - 1);
      NoInputsAtAll(b.transactions, j);
    }
  }

  /** The invariant holds from the genesis block on. */
  lemma GenesisIsWellFormed(b: Block, difficulty: nat)
    requires Genesis(b)
    ensures WellFormed(NextFull(EmptyLedger(difficulty, b.header.timestamp), b))
  {
    hide NextFull, Created, SourceKnown;
    var fs := EmptyLedger(difficulty, b.header.timestamp);
    NextParts(fs, b);
    GenesisCreated(b);
    GenesisDistinct(b);
    NextLinked([], b);
    forall p | 0 <= p < |Created(0, b, {})|
      ensures SourceKnown(NextFull(fs, b), Created(0, b, {})[p].id.source)
    {
      GenesisSources(b, NextFull(fs, b), p);
    }
  }
}
