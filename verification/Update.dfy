/**
  Applying and reverting blocks on the compact state (consensus/update.go:42-211).
 */
module Update {
  import opened Types
  import opened Forest
  import opened Accumulator
  import opened Bits
  import Words
  import opened LeafOrder
  import opened Headers
  import opened Ledger
  import opened LedgerInvariant
  import opened Validation
  import opened ElementProofs
  import History

  // ---------------------------------------------------------------- the leaves a block updates

  /** The parents of the inputs that are not ephemeral. */
  function SpentOutputs(inputs: seq<Input>): seq<OutputElement> {
    if inputs == [] then []
    else
      var n := |inputs| - 1;
      SpentOutputs(inputs[..n]) + if inputs[n].parent.Ephemeral() then [] else [inputs[n].parent]
  }

  function OutputLeaves(oes: seq<OutputElement>, spent: bool): (leaves: seq<ElementLeaf>)
    ensures |leaves| == |oes|
    ensures forall k :: 0 <= k < |oes| ==> leaves[k] == OutputLeaf(oes[k], spent)
  {
    seq(|oes|, k requires 0 <= k < |oes| => OutputLeaf(oes[k], spent))
  }

  /** Which input a spent output belongs to. */
  lemma {:induction false} SpentFrom(inputs: seq<Input>, k: nat) returns (m: nat)
    requires k < |SpentOutputs(inputs)|
    ensures m < |inputs| && !inputs[m].parent.Ephemeral() && inputs[m].parent == SpentOutputs(inputs)[k]
    ensures k == |SpentOutputs(inputs[..m])|
    decreases |inputs|
  {
    var n := |inputs| - 1;
    if k < |SpentOutputs(inputs[..n])| {
      m := SpentFrom(inputs[..n], k);
      assert inputs[..n][..m] == inputs[..m];
    } else {
      m := n;
    }
  }

  lemma {:induction false} SpentAt(inputs: seq<Input>, m: nat)
    requires m < |inputs| && !inputs[m].parent.Ephemeral()
    ensures |SpentOutputs(inputs[..m])| < |SpentOutputs(inputs)|
    ensures SpentOutputs(inputs)[|SpentOutputs(inputs[..m])|] == inputs[m].parent
    decreases |inputs|
  {
    var n := |inputs| - 1;
    if m < n {
      assert inputs[..n][..m] == inputs[..m];
      SpentAt(inputs[..n], m);
    }
  }

  method UpdatedInBlock(b: Block, apply: bool) returns (oes: seq<OutputElement>, leaves: seq<ElementLeaf>)
    ensures oes == SpentOutputs(AllInputs(b.transactions))
    ensures leaves == OutputLeaves(oes, apply)
  {
    hide AllInputs, SpentOutputs;
    var txns := b.transactions;
    oes, leaves := [], [];
    NothingSpent();
    for i := 0 to |txns|
      invariant oes == SpentOutputs(AllInputs(txns[..i])) && leaves == OutputLeaves(oes, apply)
    {
      var inputs := txns[i].inputs;
      ghost var before := AllInputs(txns[..i]);
      assert before + inputs[..0] == before;
      for m := 0 to |inputs|
        invariant oes == SpentOutputs(before + inputs[..m]) && leaves == OutputLeaves(oes, apply)
      {
        NextSpent(before, inputs, m);
        if !inputs[m].parent.Ephemeral() {
          oes := oes + [inputs[m].parent];
          leaves := leaves + [OutputLeaf(inputs[m].parent, apply)];
        }
      }
      NextInputs(txns, i);
      assert inputs[..|inputs|] == inputs;
    }
    assert txns[..|txns|] == txns;
  }

  lemma NothingSpent()
    ensures AllInputs([]) == [] && SpentOutputs([]) == []
  {
  }

  lemma NextInputs(txns: seq<Transaction>, i: nat)
    requires i < |txns|
    ensures AllInputs(txns[..i + 1]) == AllInputs(txns[..i]) + txns[i].inputs
  {
    assert txns[..i + 1][..i] == txns[..i];
  }

  lemma NextSpent(before: seq<Input>, inputs: seq<Input>, m: nat)
    requires m < |inputs|
    ensures SpentOutputs(before + inputs[..m + 1]) ==
      SpentOutputs(before + inputs[..m]) + if inputs[m].parent.Ephemeral() then [] else [inputs[m].parent]
  {
    var all := before + inputs[..m + 1];
    assert all[..|all| - 1] == before + inputs[..m];
  }

  // ---------------------------------------------------------------- validation justifies the update

  /** What a valid block says of its leaves: right proofs, distinct positions. */
  lemma LeavesAreCurrent(fs: FullState, txns: seq<Transaction>, spent: bool)
    requires WellFormed(fs) && ValidTransactionSet(fs, txns)
    ensures Current(OutputLeaves(SpentOutputs(AllInputs(txns)), spent), fs.Leaves())
    ensures Distinct(OutputLeaves(SpentOutputs(AllInputs(txns)), spent))
  {
    hide AllInputs, SpentOutputs, LeafHashes, WellFormed;
    var inputs := AllInputs(txns);
    var oes := SpentOutputs(inputs);
    var leaves := OutputLeaves(oes, spent);
    forall k | 0 <= k < |oes|
      ensures SpendsElement(fs, oes[k])
    {
      var m := SpentFrom(inputs, k);
      InputFacts(fs, txns, m);
    }
    forall a, b | 0 <= a < b < |leaves|
      ensures leaves[a].state.leafIndex != leaves[b].state.leafIndex
    {
      var m := SpentFrom(inputs, a);
      var n := SpentFrom(inputs, b);
      assert m != n;
      assert SpendsElement(fs, oes[a]) && SpendsElement(fs, oes[b]);
    }
  }

  /** A list of elements with one block's inputs spent. */
  function SpentElements(fs: FullState, txns: seq<Transaction>): (es: seq<Element>)
    ensures |es| == |fs.elements|
  {
    SpendAt(fs.elements, AllInputs(txns))
  }

  lemma LeafContents(fs: FullState, txns: seq<Transaction>, k: nat)
    requires WellFormed(fs) && ValidTransactionSet(fs, txns) && k < |SpentOutputs(AllInputs(txns))|
    ensures var oe := SpentOutputs(AllInputs(txns))[k];
      oe.state.leafIndex < |fs.elements| &&
      LeafHashes(fs.elements)[oe.state.leafIndex] == OutputLeaf(oe, false).Hash() &&
      LeafHashes(SpentElements(fs, txns))[oe.state.leafIndex] == OutputLeaf(oe, true).Hash()
  {
    hide AllInputs, SpentOutputs, WellFormed, SpendAt;
    var inputs := AllInputs(txns);
    var m := SpentFrom(inputs, k);
    InputFacts(fs, txns, m);
    SpendAtMeaning(fs.elements, inputs, SpentOutputs(inputs)[k].state.leafIndex);
  }

  lemma UntouchedElements(fs: FullState, txns: seq<Transaction>, p: nat)
    requires WellFormed(fs) && ValidTransactionSet(fs, txns) && p < |fs.elements| <= EPHEMERAL_LEAF_INDEX
    requires forall k :: 0 <= k < |SpentOutputs(AllInputs(txns))| ==>
      SpentOutputs(AllInputs(txns))[k].state.leafIndex != p
    ensures SpentElements(fs, txns)[p] == fs.elements[p]
  {
    hide AllInputs, SpentOutputs, WellFormed, SpendAt, ValidTransactionSet;
    var inputs := AllInputs(txns);
    SpendAtMeaning(fs.elements, inputs, p);
    forall m | 0 <= m < |inputs|
      ensures inputs[m].parent.state.leafIndex != p
    {
      if !inputs[m].parent.Ephemeral() {
        SpentAt(inputs, m);
      }
    }
  }

  /** The leaves carry the old list to the new one, and back. */
  lemma LeavesOverwrite(fs: FullState, txns: seq<Transaction>)
    requires WellFormed(fs) && ValidTransactionSet(fs, txns) && |fs.elements| <= EPHEMERAL_LEAF_INDEX
    ensures Overwrites(OutputLeaves(SpentOutputs(AllInputs(txns)), true), LeafHashes(fs.elements),
      LeafHashes(SpentElements(fs, txns)))
    ensures Overwrites(OutputLeaves(SpentOutputs(AllInputs(txns)), false), LeafHashes(SpentElements(fs, txns)),
      LeafHashes(fs.elements))
  {
    hide AllInputs, SpentOutputs, WellFormed, ValidTransactionSet, SpentElements;
    var oes := SpentOutputs(AllInputs(txns));
    var xs, ys := LeafHashes(fs.elements), LeafHashes(SpentElements(fs, txns));
    forall k | 0 <= k < |oes|
      ensures oes[k].state.leafIndex < |xs| && xs[oes[k].state.leafIndex] == OutputLeaf(oes[k], false).Hash()
      ensures ys[oes[k].state.leafIndex] == OutputLeaf(oes[k], true).Hash()
    {
      LeafContents(fs, txns, k);
    }
    forall p | 0 <= p < |xs| && forall k :: 0 <= k < |oes| ==> oes[k].state.leafIndex != p
      ensures ys[p] == xs[p]
    {
      UntouchedElements(fs, txns, p);
    }
    OverwriteBoth(oes, xs, ys);
  }

  lemma OverwriteBoth(oes: seq<OutputElement>, xs: seq<Hash>, ys: seq<Hash>)
    requires |xs| == |ys|
    requires forall k :: 0 <= k < |oes| ==> oes[k].state.leafIndex < |xs|
    requires forall k :: 0 <= k < |oes| ==> xs[oes[k].state.leafIndex] == OutputLeaf(oes[k], false).Hash()
    requires forall k :: 0 <= k < |oes| ==> ys[oes[k].state.leafIndex] == OutputLeaf(oes[k], true).Hash()
    requires forall p :: 0 <= p < |xs| ==>
      (forall k :: 0 <= k < |oes| ==> oes[k].state.leafIndex != p) ==> ys[p] == xs[p]
    ensures Overwrites(OutputLeaves(oes, true), xs, ys) && Overwrites(OutputLeaves(oes, false), ys, xs)
  {
    forall spent: bool, p | 0 <= p < |xs| && forall k :: 0 <= k < |oes| ==>
      OutputLeaves(oes, spent)[k].state.leafIndex != p
      ensures ys[p] == xs[p]
    {
      forall k | 0 <= k < |oes|
        ensures oes[k].state.leafIndex != p
      {
        assert OutputLeaves(oes, spent)[k].state.leafIndex != p;
      }
    }
  }

  /** The leaves of the next block's inputs are right, and lead to the list with its inputs spent, and back. */
  lemma BlockLeaves(fs: FullState, b: Block, work: Hash -> nat)
    requires WellFormed(fs) && InLimits(fs) && Extends(fs, b, work)
    ensures forall spent :: Current(OutputLeaves(SpentOutputs(AllInputs(b.transactions)), spent), fs.Leaves())
    ensures forall spent :: Distinct(OutputLeaves(SpentOutputs(AllInputs(b.transactions)), spent))
    ensures Overwrites(OutputLeaves(SpentOutputs(AllInputs(b.transactions)), true), fs.Leaves(),
      LeafHashes(SpentElements(fs, b.transactions)))
    ensures Overwrites(OutputLeaves(SpentOutputs(AllInputs(b.transactions)), false),
      LeafHashes(SpentElements(fs, b.transactions)), fs.Leaves())
  {
    hide WellFormed, ValidTransactionSet, InLimits, LeafHashes, ValidateHeader, Commitment, Compact, Overwrites,
      Current, Distinct, OutputLeaves, AllInputs;
    if fs.chain == [] {
      GenesisLeaves(fs, b);
    } else {
      LimitsFit(fs);
      LeavesAreCurrent(fs, b.transactions, true);
      LeavesAreCurrent(fs, b.transactions, false);
      LeavesOverwrite(fs, b.transactions);
    }
  }

  lemma GenesisLeaves(fs: FullState, b: Block)
    requires WellFormed(fs) && fs.chain == [] && Genesis(b)
    ensures SpentOutputs(AllInputs(b.transactions)) == [] && SpentElements(fs, b.transactions) == fs.elements == []
    ensures forall spent :: OutputLeaves([], spent) == [] && Current(OutputLeaves([], spent), fs.Leaves())
    ensures forall spent :: Distinct(OutputLeaves([], spent))
    ensures forall spent :: Overwrites(OutputLeaves([], spent), LeafHashes([]), LeafHashes([]))
  {
    assert Current([], fs.Leaves()) && Distinct([]) && Overwrites([], LeafHashes([]), LeafHashes([]));
  }

  lemma LimitsFit(fs: FullState)
    requires InLimits(fs)
    ensures |fs.elements| < EPHEMERAL_LEAF_INDEX && |fs.chain| < MAX_UINT64 && InRange(|fs.elements|)
  {
    Words.Pow2Value();
  }

  // ---------------------------------------------------------------- the elements a block creates

  /** A new element, before it has a position. */
  function Unplaced(e: Element): OutputElement {
    OutputElement(StateElement(e.id, 0, []), e.output, e.maturityHeight)
  }

  function AllUnplaced(es: seq<Element>): (oes: seq<OutputElement>)
    ensures |oes| == |es|
    ensures forall i :: 0 <= i < |es| ==> oes[i] == Unplaced(es[i])
  {
    seq(|es|, i requires 0 <= i < |es| => Unplaced(es[i]))
  }

  method CreatedInBlock(s: State, b: Block) returns (oes: seq<OutputElement>)
    ensures oes == AllUnplaced(Created(s.index.height, b, {}))
    ensures |oes| == 1 + OutputsBefore(b.transactions, |b.transactions|)
    ensures oes[0].state == StateElement(ElementID(b.header.ID(), 0), 0, []) &&
      oes[0].output == Output(BlockReward(s.index.height), b.header.minerAddress) &&
      oes[0].maturityHeight == s.index.height + 145
    ensures forall i, k :: 0 <= i < |b.transactions| && 0 <= k < |b.transactions[i].outputs| ==>
      var txn, p := b.transactions[i], OutputPlace(b.transactions, i, k);
      p < |oes| && oes[p].state.leafIndex == 0 && oes[p].state.merkleProof == [] &&
      oes[p].state.id == ElementID(TransactionHash(InputIDs(txn.inputs), txn.outputs, txn.minerFee), k) &&
      oes[p].output == txn.outputs[k] && oes[p].maturityHeight == 0
  {
    hide BlockReward, AllOutputElements;
    var txns := b.transactions;
    var miner := OutputElement(StateElement(ElementID(b.header.ID(), 0), 0, []),
                               Output(BlockReward(s.index.height), b.header.minerAddress),
                               MaturityHeight(s.index.height));
    oes := [miner];
    assert AllOutputElements(txns[..0], {}) == [] by {
      NothingCreated(txns);
    }
    for i := 0 to |txns|
      invariant oes == [miner] + AllUnplaced(AllOutputElements(txns[..i], {}))
    {
      var txid := TransactionID(txns[i]);
      var index := 0;
      ghost var before := oes;
      for k := 0 to |txns[i].outputs|
        invariant index == k
        invariant oes == before + AllUnplaced(OutputElements(txns[i], {})[..k])
      {
        oes := oes + [OutputElement(StateElement(ElementID(txid, index), 0, []), txns[i].outputs[k], 0)];
        index := index + 1;
      }
      NextOutputs(txns, i, {});
    }
    assert txns[..|txns|] == txns;
    UnplacedExactly(s.index.height, b);
  }

  lemma UnplacedExactly(height: nat, b: Block)
    ensures |AllUnplaced(Created(height, b, {}))| == 1 + OutputsBefore(b.transactions, |b.transactions|)
    ensures var oe := AllUnplaced(Created(height, b, {}))[0];
      oe.state == StateElement(ElementID(b.header.ID(), 0), 0, []) &&
      oe.output == Output(BlockReward(height), b.header.minerAddress) && oe.maturityHeight == height + 145
    ensures forall i, k :: 0 <= i < |b.transactions| && 0 <= k < |b.transactions[i].outputs| ==>
      var oes, txn := AllUnplaced(Created(height, b, {})), b.transactions[i];
      var p := OutputPlace(b.transactions, i, k);
      p < |oes| && oes[p].state.leafIndex == 0 && oes[p].state.merkleProof == [] &&
      oes[p].state.id == ElementID(TransactionHash(InputIDs(txn.inputs), txn.outputs, txn.minerFee), k) &&
      oes[p].output == txn.outputs[k] && oes[p].maturityHeight == 0
  {
    hide BlockReward, OutputsBefore, Created, TransactionID, OutputPlace;
    CreatedExactly(height, b, {});
  }

  lemma NothingCreated(txns: seq<Transaction>)
    ensures AllOutputElements(txns[..0], {}) == []
  {
  }

  lemma NextOutputs(txns: seq<Transaction>, i: nat, spent: set<ElementID>)
    requires i < |txns|
    ensures AllOutputElements(txns[..i + 1], spent) ==
      AllOutputElements(txns[..i], spent) + OutputElements(txns[i], spent)
  {
    assert txns[..i + 1][..i] == txns[..i];
  }

  /** The IDs of the outputs that are spent in the block that creates them. */
  method EphemeralSpends(txns: seq<Transaction>) returns (spent: set<ElementID>)
    ensures spent == EphemeralIDs(AllInputs(txns))
  {
    hide AllInputs, EphemeralIDs;
    spent := {};
    assert EphemeralIDs(AllInputs(txns[..0])) == {} by {
      NothingEphemeral(txns);
    }
    for i := 0 to |txns|
      invariant spent == EphemeralIDs(AllInputs(txns[..i]))
    {
      var inputs := txns[i].inputs;
      ghost var before := AllInputs(txns[..i]);
      assert before + inputs[..0] == before;
      for m := 0 to |inputs|
        invariant spent == EphemeralIDs(before + inputs[..m])
      {
        NextEphemeral(before + inputs[..m], inputs[m]);
        assert before + inputs[..m] + [inputs[m]] == before + inputs[..m + 1];
        if inputs[m].parent.Ephemeral() {
          spent := spent + {inputs[m].parent.state.id};
        }
      }
      assert inputs[..|inputs|] == inputs;
      NextInputs(txns, i);
    }
    assert txns[..|txns|] == txns;
  }

  lemma NothingEphemeral(txns: seq<Transaction>)
    ensures EphemeralIDs(AllInputs(txns[..0])) == {}
  {
  }

  lemma NextEphemeral(before: seq<Input>, input: Input)
    ensures EphemeralIDs(before + [input]) ==
      EphemeralIDs(before) + if input.parent.Ephemeral() then {input.parent.state.id} else {}
  {
    var inputs := before + [input];
    assert forall i :: 0 <= i < |before| ==> inputs[i] == before[i];
    assert inputs[|before|] == input;
  }

  // ---------------------------------------------------------------- applying a block

  /** Element p of the ledger, with its position and its proof. */
  function ElementOf(fs: FullState, p: nat): OutputElement
    requires p < |fs.elements|
  {
    OutputElement(StateElement(fs.elements[p].id, p, LeafPath(fs.Leaves(), p)), fs.elements[p].output,
      fs.elements[p].maturityHeight)
  }

  datatype ApplyUpdate = ApplyUpdate(elements: ElementApplyUpdate, history: History.HistoryApplyUpdate, state: State,
                                     spentOutputs: seq<OutputElement>, newOutputElements: seq<OutputElement>) {

    /** The update leads from a ledger to the one after block b. */
    ghost predicate Leads(fs: FullState, b: Block) {
      var next := NextFull(fs, b);
      state == Compact(next) &&
      elements.Leads(fs.Leaves(), LeafHashes(SpentElements(fs, b.transactions)), next.Leaves()) &&
      history.Leads(History.Leaves(fs.chain), History.Leaves(next.chain)) &&
      spentOutputs == SpentOutputs(AllInputs(b.transactions)) &&
      AreNew(newOutputElements, fs, next)
    }

    predicate OutputElementWasSpent(oe: OutputElement) {
      exists i :: 0 <= i < |spentOutputs| && spentOutputs[i].state.leafIndex == oe.state.leafIndex
    }
  }

  /** New elements as leaves, spent at once if an ephemeral input names them. */
  function CreatedLeaves(oes: seq<OutputElement>, spent: set<ElementID>): (leaves: seq<ElementLeaf>)
    ensures |leaves| == |oes|
    ensures forall i :: 0 <= i < |oes| ==> leaves[i] == OutputLeaf(oes[i], oes[i].state.id in spent)
  {
    seq(|oes|, i requires 0 <= i < |oes| => OutputLeaf(oes[i], oes[i].state.id in spent))
  }

  /** The created leaves complete the ledger's list. */
  lemma CreatedComplete(fs: FullState, b: Block)
    ensures var height, spent := fs.Index().height, EphemeralIDs(AllInputs(b.transactions));
      var leaves := CreatedLeaves(AllUnplaced(Created(height, b, {})), spent);
      LeafHashes(NextElements(fs, b)) ==
      LeafHashes(SpentElements(fs, b.transactions)) + Placed(leaves, |fs.elements|) &&
      |NextElements(fs, b)| == |fs.elements| + |leaves| &&
      forall j :: 0 <= j < |leaves| ==>
        Created(height, b, {})[j] == NextElements(fs, b)[|fs.elements| + j].(spent := Created(height, b, {})[j].spent)
  {
    hide BlockReward, MaturityHeight, AllOutputElements, AllInputs, SpendAt, EphemeralIDs;
    var inputs := AllInputs(b.transactions);
    CreatedFlags(b.transactions, EphemeralIDs(inputs));
    var plain, created := Created(fs.Index().height, b, {}), Created(fs.Index().height, b, EphemeralIDs(inputs));
    forall j | 0 <= j < |plain|
      ensures created[j] == plain[j].(spent := plain[j].id in EphemeralIDs(inputs))
    {
      FreshUnspent(fs, b, j);
    }
  }

  lemma WindowEffect(fs: FullState, b: Block)
    requires WellFormed(fs) && (if fs.chain == [] then b.header.height == 0 else b.header.height > 0)
    ensures |Compact(fs).prevTimestamps| == WINDOW
    ensures ApplyHeader(Compact(fs), b.header).prevTimestamps == Window(fs.timestamps + [b.header.timestamp])
  {
    hide Accumulate, AdjustDifficulty, SourceKnown, LeafHashes;
    CompactWindow(fs);
    if fs.chain != [] {
      assert Linked(fs.chain, |fs.chain| - 1);
    }
    WindowSlides(Compact(fs), b.header, fs.timestamps);
  }

  /** The header's effect does not depend on the accumulators. */
  lemma HeaderAside(s: State, h: BlockHeader, elements: AccumulatorState, history: AccumulatorState)
    requires |s.prevTimestamps| == WINDOW
    ensures ApplyHeader(s.(elements := elements, history := history), h) ==
      ApplyHeader(s, h).(elements := elements, history := history)
    ensures ApplyHeader(s, h).index == h.Index()
  {
    hide AdjustDifficulty;
  }

  lemma NextWork(fs: FullState, b: Block)
    requires |Compact(fs).prevTimestamps| == WINDOW
    ensures var header, next := ApplyHeader(Compact(fs), b.header), NextFull(fs, b);
      next.totalWork == header.totalWork && next.difficulty == header.difficulty && next.lastAdjust == header.lastAdjust
  {
    hide ApplyHeader, NextElements, Compact;
  }

  /** The parts of the state that the header settles. */
  lemma HeaderEffect(fs: FullState, b: Block, elements: AccumulatorState, history: AccumulatorState)
    requires WellFormed(fs) && (if fs.chain == [] then b.header.height == 0 else b.header.height > 0)
    requires elements == Accumulate(NextFull(fs, b).Leaves()) &&
      history == Accumulate(History.Leaves(NextFull(fs, b).chain))
    ensures |Compact(fs).prevTimestamps| == WINDOW
    ensures ApplyHeader(Compact(fs).(elements := elements, history := history), b.header) == Compact(NextFull(fs, b))
  {
    hide Accumulate, NextElements, ApplyHeader, WellFormed, LeafHashes, Window, NextFull;
    CompactWindow(fs);
    NextParts(fs, b);
    NextWork(fs, b);
    WindowEffect(fs, b);
    HeaderAside(Compact(fs), b.header, elements, history);
  }

  lemma CompactParts(fs: FullState)
    ensures Compact(fs).elements == Accumulate(fs.Leaves()) &&
      Compact(fs).history == Accumulate(History.Leaves(fs.chain))
    ensures Compact(fs).index == fs.Index() && |Compact(fs).prevTimestamps| == WINDOW
  {
    hide Accumulate, LeafHashes;
  }

  /** The new elements of an update are those of the ledger after the block. */
  ghost predicate AreNew(oes: seq<OutputElement>, fs: FullState, next: FullState) {
    |next.elements| == |fs.elements| + |oes| &&
    forall j :: 0 <= j < |oes| ==> oes[j] == ElementOf(next, |fs.elements| + j)
  }

  /** The leaves of a batch have taken their positions in zs, from n on. */
  ghost predicate AtTheirPlaces(placed: seq<ElementLeaf>, leaves: seq<ElementLeaf>, zs: seq<Hash>, n: nat) {
    |placed| == |leaves| && |zs| == n + |leaves| &&
    forall j :: 0 <= j < |leaves| ==> placed[j].state == StateElement(leaves[j].state.id, n + j, LeafPath(zs, n + j))
  }

  /** Each element has the state of its leaf. */
  ghost predicate Moved(oes: seq<OutputElement>, before: seq<OutputElement>, leaves: seq<ElementLeaf>) {
    |oes| == |before| == |leaves| && forall j :: 0 <= j < |before| ==> oes[j] == before[j].(state := leaves[j].state)
  }

  lemma PlacedAreNew(oes: seq<OutputElement>, leaves: seq<ElementLeaf>, fs: FullState, b: Block,
                     before: seq<OutputElement>, spent: set<ElementID>, zs: seq<Hash>)
    requires spent == EphemeralIDs(AllInputs(b.transactions)) &&
      before == AllUnplaced(Created(fs.Index().height, b, {}))
    requires zs == LeafHashes(SpentElements(fs, b.transactions)) + Placed(CreatedLeaves(before, spent), |fs.elements|)
    requires AtTheirPlaces(leaves, CreatedLeaves(before, spent), zs, |fs.elements|) && Moved(oes, before, leaves)
    ensures NextFull(fs, b).Leaves() == zs && AreNew(oes, fs, NextFull(fs, b))
  {
    hide NextFull, NextElements, AllInputs, SpentElements, Created, LeafPath, LeafHashes, EphemeralIDs, Placed,
      FullState.Index;
    NextParts(fs, b);
    CreatedComplete(fs, b);
    var next, created := NextFull(fs, b), Created(fs.Index().height, b, {});
    forall j | 0 <= j < |oes|
      ensures oes[j] == ElementOf(next, |fs.elements| + j)
    {
      assert created[j] == next.elements[|fs.elements| + j].(spent := created[j].spent);
    }
  }

  /** The element accumulator after the block, and what the update says of elements. */
  method ApplyToElements(s: State, b: Block, ghost fs: FullState, ghost work: Hash -> nat)
    returns (elements: ElementApplyUpdate, acc: AccumulatorState, spentOutputs: seq<OutputElement>,
      newOutputElements: seq<OutputElement>)
    requires s == Compact(fs) && WellFormed(fs) && Extends(fs, b, work)
    requires InLimits(fs) && InLimits(NextFull(fs, b))
    ensures acc == Accumulate(NextFull(fs, b).Leaves())
    ensures elements.Leads(fs.Leaves(), LeafHashes(SpentElements(fs, b.transactions)), NextFull(fs, b).Leaves())
    ensures spentOutputs == SpentOutputs(AllInputs(b.transactions)) && AreNew(newOutputElements, fs, NextFull(fs, b))
  {
    hide WellFormed, Extends, InLimits, NextFull, NextElements, AllInputs, SpentOutputs, SpentElements, Created,
      Placed, AreNew,
      Compact, LeafHashes, LeafPath, Overwrites, Distinct, Current, ElementApplyUpdate.Leads, Accumulate,
      AtTheirPlaces, Moved;
    ghost var xs, ys := fs.Leaves(), LeafHashes(SpentElements(fs, b.transactions));
    CompactParts(fs);
    var updated;
    spentOutputs, updated := UpdatedInBlock(b, true);
    BlockLeaves(fs, b, work);
    var unplaced := CreatedInBlock(s, b);
    var spent := EphemeralSpends(b.transactions);
    var created := CreatedLeaves(unplaced, spent);
    CreatedComplete(fs, b);
    NextLimits(fs, b);
    var leaves;
    elements, acc, leaves := ApplyElements(s.elements, updated, created, xs, ys);
    newOutputElements := Place(unplaced, leaves);
    PlacedAreNew(newOutputElements, leaves, fs, b, unplaced, spent, ys + Placed(created, |xs|));
  }

  /** consensus.ApplyBlock: the new state is the compact form of the ledger after the block. */
  method ApplyBlock(s: State, b: Block, ghost fs: FullState, ghost work: Hash -> nat) returns (au: ApplyUpdate)
    requires s == Compact(fs) && WellFormed(fs) && Extends(fs, b, work)
    requires InLimits(fs) && InLimits(NextFull(fs, b))
    ensures au.Leads(fs, b)
    ensures |au.newOutputElements| == 1 + OutputsBefore(b.transactions, |b.transactions|)
    ensures var oe := au.newOutputElements[0];
      oe.state.id == ElementID(b.header.ID(), 0) && oe.state.leafIndex == |fs.elements| &&
      oe.output == Output(BlockReward(s.index.height), b.header.minerAddress) &&
      oe.maturityHeight == s.index.height + 145
    ensures forall i, k :: 0 <= i < |b.transactions| && 0 <= k < |b.transactions[i].outputs| ==>
      var txn, p := b.transactions[i], OutputPlace(b.transactions, i, k);
      p < |au.newOutputElements| &&
      var oe := au.newOutputElements[p];
      oe.state.id == ElementID(TransactionHash(InputIDs(txn.inputs), txn.outputs, txn.minerFee), k) &&
      oe.state.leafIndex == |fs.elements| + p && oe.output == txn.outputs[k] && oe.maturityHeight == 0
  {
    hide WellFormed, Extends, InLimits, NextFull, NextElements, AllInputs, SpentOutputs, SpentElements, AreNew,
      Compact, BlockReward, OutputsBefore, OutputPlace, LeafHashes, ApplyHeader, Accumulate, ElementApplyUpdate.Leads,
      History.HistoryApplyUpdate.Leads, ApplyUpdate.Leads;
    CompactParts(fs);
    ParentMatches(fs, b, work);
    assert s.index.height > 0 ==> s.index == b.header.ParentIndex();
    var elements, acc, spentOutputs, newOutputElements := ApplyToElements(s, b, fs, work);
    NextLimits(fs, b);
    NextParts(fs, b);
    var history, chain := ApplyHistory(s.history, b.Index(), fs.chain);
    HeaderEffect(fs, b, acc, chain);
    au := ApplyUpdate(elements, history, ApplyHeader(s.(elements := acc, history := chain), b.header), spentOutputs,
      newOutputElements);
    assert au.Leads(fs, b) by {
      PartsLead(au, fs, b);
    }
    NewExactly(newOutputElements, fs, b);
  }

  /** The new elements of a block, with their positions. */
  lemma NewExactly(oes: seq<OutputElement>, fs: FullState, b: Block)
    requires AreNew(oes, fs, NextFull(fs, b))
    ensures |oes| == 1 + OutputsBefore(b.transactions, |b.transactions|)
    ensures oes[0].state.id == ElementID(b.header.ID(), 0) && oes[0].state.leafIndex == |fs.elements| &&
      oes[0].output == Output(BlockReward(fs.Index().height), b.header.minerAddress) &&
      oes[0].maturityHeight == fs.Index().height + 145
    ensures forall i, k :: 0 <= i < |b.transactions| && 0 <= k < |b.transactions[i].outputs| ==>
      var txn, p := b.transactions[i], OutputPlace(b.transactions, i, k);
      p < |oes| &&
      oes[p].state.id == ElementID(TransactionHash(InputIDs(txn.inputs), txn.outputs, txn.minerFee), k) &&
      oes[p].state.leafIndex == |fs.elements| + p && oes[p].output == txn.outputs[k] && oes[p].maturityHeight == 0
  {
    hide NextFull, BlockReward, OutputsBefore, OutputPlace, Created, SpendAt, LeafPath, LeafHashes, FullState.Index,
      TransactionID;
    NextParts(fs, b);
    var spent := EphemeralIDs(AllInputs(b.transactions));
    CreatedExactly(fs.Index().height, b, spent);
    forall j | 0 <= j < |oes|
      ensures NextFull(fs, b).elements[|fs.elements| + j] == Created(fs.Index().height, b, spent)[j]
    {
    }
  }

  lemma PartsLead(au: ApplyUpdate, fs: FullState, b: Block)
    requires au.state == Compact(NextFull(fs, b)) && au.spentOutputs == SpentOutputs(AllInputs(b.transactions))
    requires au.elements.Leads(fs.Leaves(), LeafHashes(SpentElements(fs, b.transactions)), NextFull(fs, b).Leaves())
    requires au.history.Leads(History.Leaves(fs.chain), History.Leaves(NextFull(fs, b).chain))
    requires AreNew(au.newOutputElements, fs, NextFull(fs, b))
    ensures au.Leads(fs, b)
  {
    hide NextFull, Compact, AllInputs, SpentOutputs, SpentElements, LeafHashes, ElementApplyUpdate.Leads,
      History.HistoryApplyUpdate.Leads;
  }

  method ApplyElements(acc: AccumulatorState, updated: seq<ElementLeaf>, created: seq<ElementLeaf>,
          ghost xs: seq<Hash>, ghost ys: seq<Hash>)
    returns (update: ElementApplyUpdate, after: AccumulatorState, placed: seq<ElementLeaf>)
    requires acc == Accumulate(xs) && InRange(|xs| + |created|) && |ys| == |xs|
    requires Current(updated, xs) && Distinct(updated) && Overwrites(updated, xs, ys)
    ensures after == Accumulate(ys + Placed(created, |xs|))
    ensures update.Leads(xs, ys, ys + Placed(created, |xs|))
    ensures |placed| == |created| && AtTheirPlaces(placed, created, ys + Placed(created, |xs|), |xs|)
  {
    hide Accumulate, Current, Distinct, Overwrites, Placed, LeafPath, Represents, InRange, Updates, Growth;
    SmallerInRange(|xs|, |created|);
    Represented(xs);
    var u := new ElementLeaf[|updated|](i requires 0 <= i < |updated| => updated[i]);
    var c := new ElementLeaf[|created|](i requires 0 <= i < |created| => created[i]);
    assert u[..] == updated && c[..] == created;
    var a := new ElementAccumulator(acc);
    update := ElementProofs.ApplyBlock(a, u, c, xs, ys);
    after := a.Value(ys + Placed(created, |xs|));
    placed := c[..];
  }

  lemma SmallerInRange(n: nat, m: nat)
    requires InRange(n + m)
    ensures InRange(n)
  {
  }

  lemma Represented(xs: seq<Hash>)
    requires InRange(|xs|)
    ensures Represents(Accumulate(xs).trees, Accumulate(xs).numLeaves, xs) && |Accumulate(xs).trees| == MAX_TREES
  {
  }

  /** The new elements take the positions and proofs of their leaves. */
  method Place(oes: seq<OutputElement>, leaves: seq<ElementLeaf>) returns (placed: seq<OutputElement>)
    requires |oes| == |leaves|
    ensures Moved(placed, oes, leaves)
  {
    placed := [];
    for j := 0 to |oes|
      invariant |placed| == j
      invariant forall i :: 0 <= i < j ==> placed[i] == oes[i].(state := leaves[i].state)
    {
      placed := placed + [oes[j].(state := leaves[j].state)];
    }
  }

  method ApplyHistory(acc: AccumulatorState, index: ChainIndex, ghost chain: seq<ChainIndex>)
    returns (update: History.HistoryApplyUpdate, after: AccumulatorState)
    requires acc == Accumulate(History.Leaves(chain)) && InRange(|chain| + 1)
    ensures after == Accumulate(History.Leaves(chain + [index]))
    ensures update.Leads(History.Leaves(chain), History.Leaves(chain + [index]))
  {
    hide Accumulate;
    ghost var xs := History.Leaves(chain);
    SmallerInRange(|xs|, 1);
    Represented(xs);
    assert History.Leaves(chain + [index]) == xs + [HistoryLeafHash(index)];
    var a := new History.HistoryAccumulator(acc);
    update := a.ApplyBlock(index, xs);
    after := a.Value(xs + [HistoryLeafHash(index)]);
  }

  lemma NextLimits(fs: FullState, b: Block)
    requires InLimits(NextFull(fs, b))
    ensures InRange(|NextElements(fs, b)|) && InRange(|fs.chain| + 1)
  {
    hide NextElements, ApplyHeader, Compact;
  }

  lemma ParentMatches(fs: FullState, b: Block, work: Hash -> nat)
    requires WellFormed(fs) && Extends(fs, b, work)
    ensures fs.chain == [] ==> b.header.height == 0
    ensures fs.chain != [] ==> b.header.height == fs.Index().height + 1 && b.header.ParentIndex() == fs.Index()
    ensures Compact(fs).index == fs.Index() && (fs.chain == [] ==> fs.Index().height == 0)
  {
    hide Accumulate, ValidTransactionSet, SourceKnown;
    if fs.chain != [] {
      ValidIsSound(fs, b, work);
    }
  }

  /** GenesisUpdate starts from the zero state, which stands for the empty ledger. */
  method GenesisUpdate(b: Block, initialDifficulty: nat) returns (au: ApplyUpdate)
    requires Genesis(b) && InLimits(NextFull(EmptyLedger(initialDifficulty, b.header.timestamp), b))
    ensures au.Leads(EmptyLedger(initialDifficulty, b.header.timestamp), b)
  {
    hide NextFull, Genesis, ApplyUpdate.Leads;
    var none := AccumulatorState(0, seq(MAX_TREES, _ => ZeroHash));
    var s := State(ChainIndex(0, ZeroHash), none, none, 0, initialDifficulty, b.header.timestamp,
      seq(WINDOW, _ => ZERO_TIME));
    ghost var empty := EmptyLedger(initialDifficulty, b.header.timestamp);
    EmptyState(empty);
    au := ApplyBlock(s, b, empty, _ => 0);
  }

  lemma EmptyState(fs: FullState)
    requires fs.elements == [] && fs.chain == [] && fs.timestamps == [] && fs.totalWork == 0
    ensures WellFormed(fs) && InLimits(fs)
    ensures var none := AccumulatorState(0, seq(MAX_TREES, _ => ZeroHash));
      Compact(fs) ==
      State(ChainIndex(0, ZeroHash), none, none, 0, fs.difficulty, fs.lastAdjust, seq(WINDOW, _ => ZERO_TIME))
  {
    hide Pow2, Represents;
    Words.Pow2Value();
    NoTrees();
    assert Accumulate([]).trees == seq(MAX_TREES, _ => ZeroHash);
    assert fs.Leaves() == [] && History.Leaves(fs.chain) == [];
    assert Window([]) == seq(WINDOW, _ => ZERO_TIME);
  }

  lemma NoTrees()
    ensures forall h :: 0 <= h < MAX_TREES ==> !Bit(0, h)
  {
    forall h | 0 <= h < MAX_TREES
      ensures !Bit(0, h)
    {
      NoBits(h);
    }
  }

  lemma {:induction false} NoBits(h: nat)
    ensures !Bit(0, h)
    decreases h
  {
    if h > 0 {
      NoBits(h - 1);
    }
  }

  /** An update knows exactly which elements of the ledger the block spent. */
  lemma WasSpentIsExact(au: ApplyUpdate, fs: FullState, b: Block, p: nat)
    requires WellFormed(fs) && fs.chain != [] && ValidTransactionSet(fs, b.transactions) && InLimits(fs)
    requires au.Leads(fs, b) && p < |fs.elements|
    ensures au.OutputElementWasSpent(ElementOf(fs, p)) <==> !fs.elements[p].spent && NextFull(fs, b).elements[p].spent
  {
    hide WellFormed, ValidTransactionSet, InLimits, NextFull, AllInputs, SpentOutputs, SpendAt, LeafPath, LeafHashes;
    LimitsFit(fs);
    NextParts(fs, b);
    var oes := SpentOutputs(AllInputs(b.transactions));
    assert NextFull(fs, b).elements[p] == SpentElements(fs, b.transactions)[p];
    if au.OutputElementWasSpent(ElementOf(fs, p)) {
      var k :| 0 <= k < |oes| && oes[k].state.leafIndex == p;
      LeafContents(fs, b.transactions, k);
    } else {
      UntouchedElements(fs, b.transactions, p);
    }
  }

  // ---------------------------------------------------------------- reverting a block

  datatype RevertUpdate = RevertUpdate(elements: ElementRevertUpdate, historyIndex: ChainIndex, state: State,
                                       spentOutputs: seq<OutputElement>, newOutputElements: seq<OutputElement>) {

    /** The update leads back from the ledger after block b to the one before it. */
    ghost predicate Leads(fs: FullState, b: Block) {
      state == Compact(fs) && historyIndex == b.Index() &&
      elements.Leads(LeafHashes(SpentElements(fs, b.transactions)), fs.Leaves()) &&
      spentOutputs == SpentOutputs(AllInputs(b.transactions)) &&
      newOutputElements == AllUnplaced(Created(fs.Index().height, b, {}))
    }

    predicate OutputElementWasRemoved(oe: OutputElement) {
      !oe.Ephemeral() && oe.state.leafIndex >= state.elements.numLeaves
    }
  }

  /** consensus.RevertBlock: the state stays that of the parent; the update carries proofs back to it. */
  method RevertBlock(s: State, b: Block, ghost fs: FullState, ghost work: Hash -> nat) returns (ru: RevertUpdate)
    requires s == Compact(fs) && WellFormed(fs) && fs.chain != [] && ValidBlock(fs, b, work) && InLimits(fs)
    ensures ru.Leads(fs, b)
  {
    hide WellFormed, ValidBlock, InLimits, AllInputs, SpentOutputs, SpentElements, Created,
      Compact, LeafHashes, Accumulate, ElementRevertUpdate.Leads, Current, Overwrites;
    CompactParts(fs);
    ParentMatches(fs, b, work);
    assert b.header.height != 0 && s.index == b.header.ParentIndex();
    var spentOutputs, updated := UpdatedInBlock(b, false);
    BlockLeaves(fs, b, work);
    LimitsFit(fs);
    var newOutputElements := CreatedInBlock(s, b);
    var elements := RevertElements(s.elements, updated, fs.Leaves(), LeafHashes(SpentElements(fs, b.transactions)));
    ru := RevertUpdate(elements, b.Index(), s, spentOutputs, newOutputElements);
  }

  /** An update knows exactly which elements of the reverted ledger the parent does not have. */
  lemma WasRemovedIsExact(ru: RevertUpdate, fs: FullState, b: Block, p: nat)
    requires ru.Leads(fs, b) && InLimits(NextFull(fs, b)) && p < |NextFull(fs, b).elements|
    ensures ru.OutputElementWasRemoved(ElementOf(NextFull(fs, b), p)) <==> p >= |fs.elements|
  {
    hide Accumulate, NextFull, LeafPath, InLimits;
    CompactParts(fs);
    LimitsFit(NextFull(fs, b));
  }

  method RevertElements(acc: AccumulatorState, updated: seq<ElementLeaf>, ghost xs: seq<Hash>, ghost ys: seq<Hash>)
    returns (eru: ElementRevertUpdate)
    requires acc == Accumulate(xs) && InRange(|xs|)
    requires Current(updated, xs) && |ys| == |xs| && Overwrites(updated, ys, xs)
    ensures eru.Leads(ys, xs)
  {
    hide Accumulate, Current, Overwrites;
    Represented(xs);
    var a := new ElementAccumulator(acc);
    eru := ElementProofs.RevertBlock(a, updated, xs, ys);
  }

  // ---------------------------------------------------------------- carrying proofs over blocks

  /** An element that someone keeps stays proved when a block is applied. */
  method CarryForward(e: ElementRef, au: ApplyUpdate, ghost fs: FullState, ghost b: Block)
    requires e.ProvedIn(fs.Leaves()) && au.Leads(fs, b)
    modifies e
    ensures e.element == old(e.element).(merkleProof := e.element.merkleProof) && e.ProvedIn(NextFull(fs, b).Leaves())
  {
    hide NextFull, LeafHashes, SpentElements, AllInputs, SpentOutputs, Compact, ElementApplyUpdate.Leads,
      History.HistoryApplyUpdate.Leads;
    au.elements.UpdateElementProof(e, fs.Leaves(), LeafHashes(SpentElements(fs, b.transactions)),
      NextFull(fs, b).Leaves());
  }

  /** And when one is reverted, if it was there before the block. */
  method CarryBack(e: ElementRef, ru: RevertUpdate, ghost fs: FullState, ghost b: Block)
    requires e.ProvedIn(NextFull(fs, b).Leaves()) && ru.Leads(fs, b) && e.element.leafIndex < |fs.elements|
    modifies e
    ensures e.element == old(e.element).(merkleProof := e.element.merkleProof) && e.ProvedIn(fs.Leaves())
  {
    hide NextFull, LeafPath, Placed, Created, SpentElements, AllInputs, SpentOutputs, Compact, Updates;
    NextParts(fs, b);
    CreatedComplete(fs, b);
    ru.elements.UpdateElementProof(e, fs.Leaves(), LeafHashes(SpentElements(fs, b.transactions)),
      NextFull(fs, b).Leaves());
  }

  /** Every input of a transaction is ephemeral, or has its position's proof. */
  ghost predicate Provable(inputs: seq<Input>, xs: seq<Hash>) {
    forall i :: 0 <= i < |inputs| && !inputs[i].parent.Ephemeral() ==>
      inputs[i].parent.state.leafIndex < |xs| &&
      inputs[i].parent.state.merkleProof == LeafPath(xs, inputs[i].parent.state.leafIndex)
  }

  /** The same input with another proof. */
  function Reproved(input: Input, proof: seq<Hash>): Input {
    input.(parent := input.parent.(state := input.parent.state.(merkleProof := proof)))
  }

  /** ApplyUpdate.UpdateTransactionProofs: the inputs of a transaction in waiting stay provable. */
  method UpdateAppliedProofs(inputs: array<Input>, au: ApplyUpdate, ghost fs: FullState, ghost b: Block)
    requires Provable(inputs[..], fs.Leaves()) && au.Leads(fs, b)
    modifies inputs
    ensures Provable(inputs[..], NextFull(fs, b).Leaves())
    ensures forall i :: 0 <= i < inputs.Length ==>
      inputs[i] == Reproved(old(inputs[i]), inputs[i].parent.state.merkleProof)
    ensures forall i :: 0 <= i < inputs.Length && inputs[i].parent.Ephemeral() ==> inputs[i] == old(inputs[i])
  {
    hide NextFull, LeafHashes, ApplyUpdate.Leads, LeafPath;
    ghost var zs := NextFull(fs, b).Leaves();
    for i := 0 to inputs.Length
      invariant Provable(inputs[..i], zs)
      invariant forall j :: 0 <= j < i ==> inputs[j] == Reproved(old(inputs[j]), inputs[j].parent.state.merkleProof)
      invariant forall j :: 0 <= j < i && inputs[j].parent.Ephemeral() ==> inputs[j] == old(inputs[j])
      invariant forall j :: i <= j < inputs.Length ==> inputs[j] == old(inputs[j])
    {
      if !inputs[i].parent.Ephemeral() {
        assert old(inputs[..])[i] == inputs[i];
        var e := new ElementRef(inputs[i].parent.state);
        CarryForward(e, au, fs, b);
        inputs[i] := inputs[i].(parent := inputs[i].parent.(state := e.element));
      }
    }
    assert inputs[..inputs.Length] == inputs[..];
  }

  /** RevertUpdate.UpdateTransactionProofs, for inputs that were there before the block. */
  method UpdateRevertedProofs(inputs: array<Input>, ru: RevertUpdate, ghost fs: FullState, ghost b: Block)
    requires Provable(inputs[..], NextFull(fs, b).Leaves()) && ru.Leads(fs, b)
    requires forall i :: 0 <= i < inputs.Length && !inputs[i].parent.Ephemeral() ==>
      inputs[i].parent.state.leafIndex < |fs.elements|
    modifies inputs
    ensures Provable(inputs[..], fs.Leaves())
    ensures forall i :: 0 <= i < inputs.Length ==>
      inputs[i] == Reproved(old(inputs[i]), inputs[i].parent.state.merkleProof)
    ensures forall i :: 0 <= i < inputs.Length && inputs[i].parent.Ephemeral() ==> inputs[i] == old(inputs[i])
  {
    hide NextFull, LeafHashes, RevertUpdate.Leads, LeafPath;
    ghost var xs := fs.Leaves();
    for i := 0 to inputs.Length
      invariant Provable(inputs[..i], xs)
      invariant forall j :: 0 <= j < i ==> inputs[j] == Reproved(old(inputs[j]), inputs[j].parent.state.merkleProof)
      invariant forall j :: 0 <= j < i && inputs[j].parent.Ephemeral() ==> inputs[j] == old(inputs[j])
      invariant forall j :: i <= j < inputs.Length ==> inputs[j] == old(inputs[j])
    {
      if !inputs[i].parent.Ephemeral() {
        assert old(inputs[..])[i] == inputs[i];
        var e := new ElementRef(inputs[i].parent.state);
        CarryBack(e, ru, fs, b);
        inputs[i] := inputs[i].(parent := inputs[i].parent.(state := e.element));
      }
    }
    assert inputs[..inputs.Length] == inputs[..];
  }
}
