/**
  What holds over whole chains of valid blocks: value is conserved and the
  supply bounded, nothing is spent twice or unspent again, and a block's ID
  settles its effect.
 */
module LedgerTheorems {
  import opened Bits
  import opened Types
  import opened Headers
  import opened Ledger
  import opened LedgerInvariant
  import opened Forest
  import opened Sorting

  // ---------------------------------------------------------------- chains

  /** The ledger after a sequence of blocks. */
  function Replay(fs: FullState, blocks: seq<Block>): FullState {
    if blocks == [] then fs else NextFull(Replay(fs, blocks[..|blocks| - 1]), blocks[|blocks| - 1])
  }

  /** Each block extends the ledger that the blocks before it lead to, which stays within the range of positions. */
  ghost predicate ValidChain(fs: FullState, blocks: seq<Block>, work: Hash -> nat) {
    blocks == [] ||
    (ValidChain(fs, blocks[..|blocks| - 1], work) &&
     var before := Replay(fs, blocks[..|blocks| - 1]);
     before.chain != [] && ValidBlock(before, blocks[|blocks| - 1], work) && |before.elements| <= EPHEMERAL_LEAF_INDEX)
  }

  lemma {:induction false} ChainIsWellFormed(fs: FullState, blocks: seq<Block>, work: Hash -> nat)
    requires WellFormed(fs) && ValidChain(fs, blocks, work)
    ensures WellFormed(Replay(fs, blocks))
    ensures |Replay(fs, blocks).chain| == |fs.chain| + |blocks|
    decreases |blocks|
  {
    hide WellFormed, ValidBlock, NextFull;
    if blocks != [] {
      var n := |blocks| - 1;
      ChainIsWellFormed(fs, blocks[..n], work);
      NextIsWellFormed(Replay(fs, blocks[..n]), blocks[n], work);
      NextParts(Replay(fs, blocks[..n]), blocks[n]);
    }
  }

  // ---------------------------------------------------------------- no double spends

  /** What is spent stays spent over any valid chain. */
  lemma {:induction false} SpentForever(fs: FullState, blocks: seq<Block>, work: Hash -> nat, id: ElementID)
    requires WellFormed(fs) && ValidChain(fs, blocks, work) && SpentIn(fs.elements, id)
    ensures SpentIn(Replay(fs, blocks).elements, id)
    decreases |blocks|
  {
    hide WellFormed, ValidBlock, NextFull, SpentIn;
    if blocks != [] {
      var n := |blocks| - 1;
      SpentForever(fs, blocks[..n], work, id);
      ChainIsWellFormed(fs, blocks[..n], work);
      var before := Replay(fs, blocks[..n]);
      ValidIsSound(before, blocks[n], work);
      SpentStaysSpent(before, blocks[n], id);
      NextParts(before, blocks[n]);
    }
  }

  /** Over any valid chain no element is spent twice: no ID an earlier block spends is named by a later one. */
  lemma SpentOnce(fs: FullState, first: Block, between: seq<Block>, last: Block, work: Hash -> nat, m: nat, n: nat)
    requires WellFormed(fs) && ValidChain(fs, [first], work)
    requires ValidChain(Replay(fs, [first]), between, work)
    requires ValidChain(Replay(Replay(fs, [first]), between), [last], work)
    requires m < |AllInputs(first.transactions)| && n < |AllInputs(last.transactions)|
    ensures AllInputs(first.transactions)[m].parent.state.id != AllInputs(last.transactions)[n].parent.state.id
  {
    hide WellFormed, ValidBlock, NextFull, SpentIn, HasID, AllInputs;
    var id := AllInputs(first.transactions)[m].parent.state.id;
    OneBlock(fs, first, work);
    ValidIsSound(fs, first, work);
    InputsSpent(fs, first, m);
    NextParts(fs, first);
    NextIsWellFormed(fs, first, work);
    var middle := Replay(fs, [first]);
    SpentForever(middle, between, work, id);
    ChainIsWellFormed(middle, between, work);
    var before := Replay(middle, between);
    OneBlock(before, last, work);
    ValidIsSound(before, last, work);
    InputFacts(before, last.transactions, n);
  }

  lemma OneBlock(fs: FullState, b: Block, work: Hash -> nat)
    requires ValidChain(fs, [b], work)
    ensures fs.chain != [] && ValidBlock(fs, b, work) && |fs.elements| <= EPHEMERAL_LEAF_INDEX
    ensures Replay(fs, [b]) == NextFull(fs, b)
  {
    hide ValidBlock, NextFull;
    assert [b][..0] == [];
  }

  // ---------------------------------------------------------------- who may spend

  /** In a valid block every input is signed, with the key behind its parent's address, over its own transaction. */
  lemma SpendsAreSigned(fs: FullState, b: Block, work: Hash -> nat, i: nat, m: nat)
    requires ValidBlock(fs, b, work) && i < |b.transactions| && m < |b.transactions[i].inputs|
    ensures var txn := b.transactions[i];
      var input := txn.inputs[m];
      input.parent.output.address == AddressHash(input.publicKey) &&
      input.signature == Signed(input.publicKey, SigningHash(InputIDs(txn.inputs), txn.outputs, txn.minerFee))
  {
    hide ValidateHeader, Commitment, SpendsElement, EphemeralsAvailable, NoDoubleSpends;
    var txn := b.transactions[i];
    assert ValidTransaction(fs, txn);
    assert PolicySatisfied(txn.inputs[m], InputSigHash(txn));
  }

  /** What a block spends, of the ledger or of its own creations, its owner has signed for in that block. */
  lemma OwnersSign(fs: FullState, b: Block, work: Hash -> nat, p: nat) returns (i: nat, m: nat)
    requires WellFormed(fs) && fs.chain != [] && ValidBlock(fs, b, work) && |fs.elements| <= EPHEMERAL_LEAF_INDEX
    requires p < |NextFull(fs, b).elements| && NextFull(fs, b).elements[p].spent
    requires p < |fs.elements| ==> !fs.elements[p].spent
    ensures i < |b.transactions| && m < |b.transactions[i].inputs|
    ensures var txn, e := b.transactions[i], NextFull(fs, b).elements[p];
      var input := txn.inputs[m];
      input.parent.state.id == e.id && e.output.address == AddressHash(input.publicKey) &&
      input.signature == Signed(input.publicKey, SigningHash(InputIDs(txn.inputs), txn.outputs, txn.minerFee))
  {
    hide ValidBlock, NextFull, NextElements, WellFormed, AllInputs;
    ValidIsSound(fs, b, work);
    NextParts(fs, b);
    var q := SpentByInput(fs, b, p);
    i, m := InputFrom(b.transactions, q);
    SpendsAreSigned(fs, b, work, i, m);
  }

  /** An element that a block spends is named, with its output, by one of the block's inputs. */
  lemma SpentByInput(fs: FullState, b: Block, p: nat) returns (q: nat)
    requires Sound(fs, b) && |fs.elements| <= EPHEMERAL_LEAF_INDEX
    requires p < |NextElements(fs, b)| && NextElements(fs, b)[p].spent && (p < |fs.elements| ==> !fs.elements[p].spent)
    ensures q < |AllInputs(b.transactions)|
    ensures var oe, e := AllInputs(b.transactions)[q].parent, NextElements(fs, b)[p];
      oe.state.id == e.id && oe.output == e.output
  {
    hide Sound, NextElements, Fresh, AllInputs;
    EffectByIDs(fs, b);
    FreshDistinct(fs, b);
    var inputs, es := AllInputs(b.transactions), fs.elements + Fresh(fs, b);
    if p >= |fs.elements| {
      FreshUnspent(fs, b, p - |fs.elements|);
    }
    q :| 0 <= q < |inputs| && inputs[q].parent.state.id == es[p].id;
    var named := InputNamed(fs, b, q);
    assert named == p;
  }

  /** Over any valid chain: if an element is spent, its owner has signed for that in one of the blocks. */
  lemma {:induction false} OwnersSigned(fs: FullState, blocks: seq<Block>, work: Hash -> nat, p: nat)
    returns (n: nat, i: nat, m: nat)
    requires WellFormed(fs) && ValidChain(fs, blocks, work) && p < |fs.elements| && !fs.elements[p].spent
    requires p < |Replay(fs, blocks).elements| && Replay(fs, blocks).elements[p].spent
    ensures n < |blocks| && i < |blocks[n].transactions| && m < |blocks[n].transactions[i].inputs|
    ensures var txn := blocks[n].transactions[i];
      var input := txn.inputs[m];
      input.parent.state.id == fs.elements[p].id && fs.elements[p].output.address == AddressHash(input.publicKey) &&
      input.signature == Signed(input.publicKey, SigningHash(InputIDs(txn.inputs), txn.outputs, txn.minerFee))
    decreases |blocks|
  {
    hide ValidBlock, NextFull, WellFormed, AllInputs;
    var last := |blocks| - 1;
    var before := Replay(fs, blocks[..last]);
    ElementsPersist(fs, blocks[..last], work, p);
    if before.elements[p].spent {
      n, i, m := OwnersSigned(fs, blocks[..last], work, p);
    } else {
      ElementsPersist(fs, blocks, work, p);
      ChainIsWellFormed(fs, blocks[..last], work);
      n := last;
      i, m := OwnersSign(before, blocks[last], work, p);
    }
  }

  /** A signature never authorises two different transactions, not even on different chains. */
  lemma OneSignature(fs: FullState, a: Transaction, other: FullState, b: Transaction, i: nat, j: nat)
    requires ValidTransaction(fs, a) && ValidTransaction(other, b) && i < |a.inputs| && j < |b.inputs|
    requires a.inputs[i].signature == b.inputs[j].signature
    ensures InputIDs(a.inputs) == InputIDs(b.inputs) && a.outputs == b.outputs && a.minerFee == b.minerFee
    ensures TransactionID(a) == TransactionID(b)
  {
    hide SpendsElement;
    assert PolicySatisfied(a.inputs[i], InputSigHash(a)) && PolicySatisfied(b.inputs[j], InputSigHash(b));
  }

  /** On one chain no signature is good for two blocks. */
  lemma SignatureOnce(fs: FullState, first: Block, between: seq<Block>, last: Block, work: Hash -> nat, m: nat, n: nat)
    requires WellFormed(fs) && ValidChain(fs, [first], work)
    requires ValidChain(Replay(fs, [first]), between, work)
    requires ValidChain(Replay(Replay(fs, [first]), between), [last], work)
    requires m < |AllInputs(first.transactions)| && n < |AllInputs(last.transactions)|
    ensures AllInputs(first.transactions)[m].signature != AllInputs(last.transactions)[n].signature
  {
    hide WellFormed, NextFull, AllInputs, ValidTransaction, TransactionID, ValidateHeader, Commitment, Replay,
      ValidChain, EphemeralsAvailable, NoDoubleSpends;
    if AllInputs(first.transactions)[m].signature == AllInputs(last.transactions)[n].signature {
      OneBlock(fs, first, work);
      OneBlock(Replay(Replay(fs, [first]), between), last, work);
      var i, k := InputFrom(first.transactions, m);
      var j, l := InputFrom(last.transactions, n);
      OneSignature(fs, first.transactions[i], Replay(Replay(fs, [first]), between), last.transactions[j], k, l);
      InputAt(last.transactions, j, k);
      SpentOnce(fs, first, between, last, work, m, Offset(last.transactions, j) + k);
    }
  }

  // ---------------------------------------------------------------- value

  /** What the unspent elements are worth, whatever worth is given to an output. */
  function Held(es: seq<Element>, worth: Output -> nat): nat {
    if es == [] then 0
    else Held(es[..|es| - 1], worth) + if es[|es| - 1].spent then 0 else worth(es[|es| - 1].output)
  }

  lemma {:induction false} HeldAppend(a: seq<Element>, b: seq<Element>, worth: Output -> nat)
    ensures Held(a + b, worth) == Held(a, worth) + Held(b, worth)
    decreases |b|
  {
    if b == [] {
      assert a + b == a;
    } else {
      assert (a + b)[..|a + b| - 1] == a + b[..|b| - 1];
      HeldAppend(a, b[..|b| - 1], worth);
    }
  }

  /** Marking one more ID takes away exactly the worth of the element it names. */
  lemma {:induction false} MarkOne(es: seq<Element>, ids: set<ElementID>, p: nat, worth: Output -> nat)
    requires DistinctIDs(es) && p < |es| && !es[p].spent && es[p].id !in ids
    ensures Held(Mark(es, ids + {es[p].id}), worth) + worth(es[p].output) == Held(Mark(es, ids), worth)
    decreases |es|
  {
    hide Mark, Held;
    var n, more := |es| - 1, ids + {es[p].id};
    MarkLast(es, ids, worth);
    MarkLast(es, more, worth);
    if p < n {
      MarkOne(es[..n], ids, p, worth);
    } else {
      assert Mark(es[..n], more) == Mark(es[..n], ids);
    }
  }

  lemma MarkLast(es: seq<Element>, ids: set<ElementID>, worth: Output -> nat)
    requires es != []
    ensures var n := |es| - 1;
      Held(Mark(es, ids), worth) == Held(Mark(es[..n], ids), worth) +
        if es[n].spent || es[n].id in ids then 0 else worth(es[n].output)
  {
    var n := |es| - 1;
    assert Mark(es, ids)[..n] == Mark(es[..n], ids);
  }

  /** The ids of distinct inputs that name unspent elements of the values they claim. */
  ghost predicate Named(es: seq<Element>, input: Input) {
    exists p :: 0 <= p < |es| && es[p].id == input.parent.state.id && es[p].output == input.parent.output &&
      !es[p].spent
  }

  /** What inputs take, and outputs give. */
  function Taken(inputs: seq<Input>, worth: Output -> nat): nat {
    if inputs == [] then 0 else Taken(inputs[..|inputs| - 1], worth) + worth(inputs[|inputs| - 1].parent.output)
  }

  function Given(outputs: seq<Output>, worth: Output -> nat): nat {
    if outputs == [] then 0 else Given(outputs[..|outputs| - 1], worth) + worth(outputs[|outputs| - 1])
  }

  function AllGiven(txns: seq<Transaction>, worth: Output -> nat): nat {
    if txns == [] then 0 else AllGiven(txns[..|txns| - 1], worth) + Given(txns[|txns| - 1].outputs, worth)
  }

  lemma {:induction false} MarkAll(es: seq<Element>, inputs: seq<Input>, worth: Output -> nat)
    requires DistinctIDs(es)
    requires forall m :: 0 <= m < |inputs| ==> Named(es, inputs[m])
    requires forall a, b :: 0 <= a < b < |inputs| ==> inputs[a].parent.state.id != inputs[b].parent.state.id
    ensures Held(Mark(es, IDs(inputs)), worth) + Taken(inputs, worth) == Held(es, worth)
    decreases |inputs|
  {
    if inputs == [] {
      assert Mark(es, IDs(inputs)) == es;
    } else {
      var n := |inputs| - 1;
      assert Named(es, inputs[n]);
      var p :| 0 <= p < |es| && es[p].id == inputs[n].parent.state.id && es[p].output == inputs[n].parent.output &&
        !es[p].spent;
      MarkAll(es, inputs[..n], worth);
      assert IDs(inputs) == IDs(inputs[..n]) + {es[p].id};
      MarkOne(es, IDs(inputs[..n]), p, worth);
    }
  }

  lemma {:induction false} OutputElementsWorth(txn: Transaction, k: nat, worth: Output -> nat)
    requires k <= |txn.outputs|
    ensures Held(OutputElements(txn, {})[..k], worth) == Given(txn.outputs[..k], worth)
    decreases k
  {
    if k > 0 {
      OutputElementsWorth(txn, k - 1, worth);
      assert OutputElements(txn, {})[..k][..k - 1] == OutputElements(txn, {})[..k - 1];
      assert txn.outputs[..k][..k - 1] == txn.outputs[..k - 1];
    }
  }

  lemma {:induction false} CreatedWorth(txns: seq<Transaction>, worth: Output -> nat)
    ensures Held(AllOutputElements(txns, {}), worth) == AllGiven(txns, worth)
    decreases |txns|
  {
    if txns != [] {
      var n := |txns| - 1;
      CreatedWorth(txns[..n], worth);
      var es := OutputElements(txns[n], {});
      OutputElementsWorth(txns[n], |txns[n].outputs|, worth);
      assert es[..|txns[n].outputs|] == es && txns[n].outputs[..|txns[n].outputs|] == txns[n].outputs;
      HeldAppend(AllOutputElements(txns[..n], {}), es, worth);
    }
  }

  lemma FreshWorth(height: nat, b: Block, worth: Output -> nat)
    ensures Held(Created(height, b, {}), worth) ==
      worth(Output(BlockReward(height), b.header.minerAddress)) + AllGiven(b.transactions, worth)
  {
    hide BlockReward, AllOutputElements;
    CreatedWorth(b.transactions, worth);
    var miner := [MinerElement(height, b, {})];
    HeldAppend(miner, AllOutputElements(b.transactions, {}), worth);
    assert miner[..0] == [];
  }

  /**
    Whatever worth is given to outputs: a valid block adds that of its miner's
    reward and of its transactions' outputs, and takes away that of its inputs.
   */
  lemma WorthMoves(fs: FullState, b: Block, work: Hash -> nat, worth: Output -> nat)
    requires WellFormed(fs) && fs.chain != [] && ValidBlock(fs, b, work) && |fs.elements| <= EPHEMERAL_LEAF_INDEX
    ensures Held(NextFull(fs, b).elements, worth) + Taken(AllInputs(b.transactions), worth) ==
      Held(fs.elements, worth) + worth(Output(BlockReward(fs.Index().height), b.header.minerAddress)) +
      AllGiven(b.transactions, worth)
  {
    hide ValidBlock, NextFull, BlockReward, NextElements, Created, WellFormed;
    ValidIsSound(fs, b, work);
    NextParts(fs, b);
    EffectByIDs(fs, b);
    FreshDistinct(fs, b);
    var es, inputs := fs.elements + Fresh(fs, b), AllInputs(b.transactions);
    forall m | 0 <= m < |inputs|
      ensures Named(es, inputs[m])
    {
      var p := InputNamed(fs, b, m);
    }
    MarkAll(es, inputs, worth);
    HeldAppend(fs.elements, Fresh(fs, b), worth);
    FreshWorth(fs.Index().height, b, worth);
  }

  /** What an output is worth to the owner of an address. */
  function PaidTo(address: Hash): (worth: Output -> nat)
    ensures forall out: Output :: worth(out) == if out.address == address then out.value else 0
  {
    (out: Output) => if out.address == address then out.value else 0
  }

  /**
    A valid block changes what an address holds by what its transactions' outputs
    pay there, less what they spend from there; the miner's gets the reward, too.
   */
  lemma BalanceMoves(fs: FullState, b: Block, work: Hash -> nat, address: Hash)
    requires WellFormed(fs) && fs.chain != [] && ValidBlock(fs, b, work) && |fs.elements| <= EPHEMERAL_LEAF_INDEX
    ensures Held(NextFull(fs, b).elements, PaidTo(address)) + Taken(AllInputs(b.transactions), PaidTo(address)) ==
      Held(fs.elements, PaidTo(address)) + AllGiven(b.transactions, PaidTo(address)) +
      if b.header.minerAddress == address then BlockReward(fs.Index().height) else 0
  {
    hide ValidBlock, NextFull, BlockReward, WellFormed, PaidTo, Held, Taken, AllGiven;
    WorthMoves(fs, b, work, PaidTo(address));
  }

  /** The total value of the unspent elements. */
  function Unspent(es: seq<Element>): nat {
    Held(es, FaceValue)
  }

  function FaceValue(out: Output): nat {
    out.value
  }

  lemma {:induction false} InputValueAppend(a: seq<Input>, b: seq<Input>)
    ensures InputValue(a + b) == InputValue(a) + InputValue(b)
    decreases |b|
  {
    if b == [] {
      assert a + b == a;
    } else {
      assert (a + b)[..|a + b| - 1] == a + b[..|b| - 1];
      InputValueAppend(a, b[..|b| - 1]);
    }
  }

  lemma {:induction false} TakenIsValue(inputs: seq<Input>)
    ensures Taken(inputs, FaceValue) == InputValue(inputs)
    decreases |inputs|
  {
    if inputs != [] {
      TakenIsValue(inputs[..|inputs| - 1]);
    }
  }

  lemma {:induction false} GivenIsValue(outputs: seq<Output>)
    ensures Given(outputs, FaceValue) == OutputValue(outputs)
    decreases |outputs|
  {
    if outputs != [] {
      GivenIsValue(outputs[..|outputs| - 1]);
    }
  }

  function AllOutputValue(txns: seq<Transaction>): nat {
    if txns == [] then 0 else AllOutputValue(txns[..|txns| - 1]) + OutputValue(txns[|txns| - 1].outputs)
  }

  lemma {:induction false} AllGivenIsValue(txns: seq<Transaction>)
    ensures AllGiven(txns, FaceValue) == AllOutputValue(txns)
    decreases |txns|
  {
    if txns != [] {
      AllGivenIsValue(txns[..|txns| - 1]);
      GivenIsValue(txns[|txns| - 1].outputs);
    }
  }

  /** Inputs balance outputs and fees, transaction by transaction. */
  lemma {:induction false} BlockBalances(fs: FullState, txns: seq<Transaction>)
    requires forall i :: 0 <= i < |txns| ==> ValidTransaction(fs, txns[i])
    ensures InputValue(AllInputs(txns)) == AllOutputValue(txns) + Fees(txns)
    decreases |txns|
  {
    if txns != [] {
      var n := |txns| - 1;
      assert ValidTransaction(fs, txns[n]);
      BlockBalances(fs, txns[..n]);
      InputValueAppend(AllInputs(txns[..n]), txns[n].inputs);
    }
  }

  lemma FreshValue(height: nat, b: Block)
    ensures Unspent(Created(height, b, {})) == BlockReward(height) + AllOutputValue(b.transactions)
  {
    hide BlockReward, Held, AllGiven;
    FreshWorth(height, b, FaceValue);
    AllGivenIsValue(b.transactions);
  }

  /**
    Conservation: a valid block changes the unspent total by its reward less
    its fees, whatever it spends within itself.
   */
  lemma ValueIsConserved(fs: FullState, b: Block, work: Hash -> nat)
    requires WellFormed(fs) && fs.chain != [] && ValidBlock(fs, b, work) && |fs.elements| <= EPHEMERAL_LEAF_INDEX
    ensures Unspent(NextFull(fs, b).elements) + Fees(b.transactions) ==
      Unspent(fs.elements) + BlockReward(fs.Index().height)
  {
    hide ValidBlock, NextFull, BlockReward, WellFormed, Held, Taken, AllGiven;
    WorthMoves(fs, b, work, FaceValue);
    TakenIsValue(AllInputs(b.transactions));
    AllGivenIsValue(b.transactions);
    ValidIsSound(fs, b, work);
    BlockBalances(fs, b.transactions);
  }

  // ---------------------------------------------------------------- supply

  const HALVING: nat := 210000

  const FIRST_REWARD: nat := 50 * BASE_UNITS_PER_COIN

  /** The rewards of the blocks of height 0 to n - 1; the genesis block is paid like block 1. */
  function Rewards(n: nat): nat {
    if n == 0 then 0 else Rewards(n - 1) + Shr(FIRST_REWARD, (n - 1) / HALVING)
  }

  lemma {:induction false} ShrStep(x: nat, n: nat)
    ensures 2 * Shr(x, n + 1) <= Shr(x, n)
    decreases n
  {
    if n > 0 {
      ShrStep(x / 2, n - 1);
    }
  }

  lemma EpochOf(q: nat, r: nat)
    requires r < HALVING
    ensures (HALVING * q + r) / HALVING == q
  {
  }

  lemma NextInEpoch(left: nat, pay: nat)
    ensures (left + 1) * pay == left * pay + pay
  {
  }

  lemma NextEpoch(epoch: nat, pay: nat, next: nat)
    requires 2 * next <= pay
    ensures pay + 2 * epoch * next <= (epoch + 1) * pay
  {
    assert epoch * (2 * next) <= epoch * pay;
  }

  /** What has been paid and what the current epoch could still pay never exceed two epochs at the first reward. */
  lemma {:induction false} RewardsBounded(q: nat, r: nat)
    requires r < HALVING
    ensures Rewards(HALVING * q + r) + (2 * HALVING - r) * Shr(FIRST_REWARD, q) <= 2 * HALVING * FIRST_REWARD
    decreases q, r
  {
    hide Shr;
    var pay := Shr(FIRST_REWARD, q);
    if r > 0 {
      RewardsBounded(q, r - 1);
      EpochOf(q, r - 1);
      NextInEpoch(2 * HALVING - r, pay);
    } else if q > 0 {
      var last := Shr(FIRST_REWARD, q - 1);
      RewardsBounded(q - 1, HALVING - 1);
      EpochOf(q - 1, HALVING - 1);
      ShrStep(FIRST_REWARD, q - 1);
      NextEpoch(HALVING, last, pay);
    } else {
      assert pay == FIRST_REWARD by {
        ShrZero(FIRST_REWARD);
      }
    }
  }

  lemma ShrZero(x: nat)
    ensures Shr(x, 0) == x
  {
  }

  lemma RewardsLimit(n: nat)
    ensures Rewards(n) <= 2 * HALVING * FIRST_REWARD
  {
    hide Shr, Rewards;
    var q, r := n / HALVING, n % HALVING;
    assert n == HALVING * q + r;
    RewardsBounded(q, r);
  }

  /** The reward is 50 coins below height 210000, and halves every 210000 blocks. */
  lemma RewardHalves(height: nat)
    ensures height + 1 < 210000 ==> BlockReward(height) == 50_000_000_000
    ensures BlockReward(height + 210000) == BlockReward(height) / 2
  {
    var epoch := (height + 1) / 210000;
    assert (height + 210000 + 1) / 210000 == epoch + 1;
    ShrHalves(50_000_000_000, epoch);
  }

  lemma {:induction false} ShrHalves(x: nat, n: nat)
    ensures Shr(x, n + 1) == Shr(x, n) / 2
    decreases n
  {
    if n > 0 {
      ShrHalves(x / 2, n - 1);
    }
  }

  function ChainFees(blocks: seq<Block>): nat {
    if blocks == [] then 0 else ChainFees(blocks[..|blocks| - 1]) + Fees(blocks[|blocks| - 1].transactions)
  }

  /** Over any valid chain the unspent total and all fees come to exactly the genesis outputs and the rewards. */
  lemma {:induction false} ChainValue(genesis: Block, difficulty: nat, blocks: seq<Block>, work: Hash -> nat)
    requires Genesis(genesis)
    requires ValidChain(NextFull(EmptyLedger(difficulty, genesis.header.timestamp), genesis), blocks, work)
    ensures
      Unspent(Replay(NextFull(EmptyLedger(difficulty, genesis.header.timestamp), genesis), blocks).elements) +
      ChainFees(blocks) ==
      AllOutputValue(genesis.transactions) + Rewards(|blocks| + 1)
    decreases |blocks|
  {
    hide ValidBlock, NextFull, BlockReward, NextElements, Created, WellFormed, Genesis, EmptyLedger;
    var start := NextFull(EmptyLedger(difficulty, genesis.header.timestamp), genesis);
    GenesisIsWellFormed(genesis, difficulty);
    if blocks == [] {
      GenesisValue(genesis, difficulty);
    } else {
      var n := |blocks| - 1;
      ChainValue(genesis, difficulty, blocks[..n], work);
      ChainIsWellFormed(start, blocks[..n], work);
      ValueIsConserved(Replay(start, blocks[..n]), blocks[n], work);
      NextParts(EmptyLedger(difficulty, genesis.header.timestamp), genesis);
      HeightOf(Replay(start, blocks[..n]));
      RewardAt(n);
      EmptyChain(difficulty, genesis.header.timestamp);
    }
  }

  lemma EmptyChain(difficulty: nat, lastAdjust: int)
    ensures EmptyLedger(difficulty, lastAdjust).chain == []
  {
  }

  lemma HeightOf(fs: FullState)
    requires WellFormed(fs) && fs.chain != []
    ensures fs.Index().height == |fs.chain| - 1
  {
    assert Linked(fs.chain, |fs.chain| - 1);
  }

  lemma RewardAt(n: nat)
    ensures BlockReward(n) == Shr(FIRST_REWARD, (n + 1) / HALVING)
  {
  }

  lemma GenesisValue(genesis: Block, difficulty: nat)
    requires Genesis(genesis)
    ensures Unspent(NextFull(EmptyLedger(difficulty, genesis.header.timestamp), genesis).elements) ==
      AllOutputValue(genesis.transactions) + Rewards(1)
  {
    hide NextFull, Created;
    NextParts(EmptyLedger(difficulty, genesis.header.timestamp), genesis);
    GenesisCreated(genesis);
    FreshValue(0, genesis);
    RewardAt(0);
    assert Rewards(1) == Rewards(0) + Shr(FIRST_REWARD, 0);
    assert (0 + 1) / HALVING == 0;
  }

  /** The supply never exceeds the genesis outputs and 210000 * 10^11 base units. */
  lemma SupplyIsBounded(genesis: Block, difficulty: nat, blocks: seq<Block>, work: Hash -> nat)
    requires Genesis(genesis)
    requires ValidChain(NextFull(EmptyLedger(difficulty, genesis.header.timestamp), genesis), blocks, work)
    ensures Unspent(Replay(NextFull(EmptyLedger(difficulty, genesis.header.timestamp), genesis), blocks).elements) <=
      AllOutputValue(genesis.transactions) + 210000 * 100_000_000_000
  {
    hide ValidBlock, NextFull, Genesis, ValidChain, Replay;
    ChainValue(genesis, difficulty, blocks, work);
    RewardsLimit(|blocks| + 1);
  }

  // ---------------------------------------------------------------- work and time

  /** The work that the IDs of a sequence of blocks required. */
  function WorkDone(blocks: seq<Block>, work: Hash -> nat): nat {
    if blocks == [] then 0 else WorkDone(blocks[..|blocks| - 1], work) + work(blocks[|blocks| - 1].header.ID())
  }

  /** The total work a chain claims never exceeds the work that was done for it. */
  lemma {:induction false} WorkIsDone(fs: FullState, blocks: seq<Block>, work: Hash -> nat)
    requires WellFormed(fs) && ValidChain(fs, blocks, work)
    ensures Replay(fs, blocks).totalWork <= fs.totalWork + WorkDone(blocks, work)
    decreases |blocks|
  {
    hide WellFormed, ValidBlock, NextFull;
    if blocks != [] {
      var n := |blocks| - 1;
      WorkIsDone(fs, blocks[..n], work);
      ChainIsWellFormed(fs, blocks[..n], work);
      BlockWork(Replay(fs, blocks[..n]), blocks[n], work);
    }
  }

  lemma BlockWork(fs: FullState, b: Block, work: Hash -> nat)
    requires WellFormed(fs) && fs.chain != [] && ValidBlock(fs, b, work)
    ensures NextFull(fs, b).totalWork <= fs.totalWork + work(b.header.ID())
    ensures |Compact(fs).prevTimestamps| == WINDOW
  {
    hide WellFormed, ValidTransactionSet, NextElements, Accumulate, MedianTimestamp, AdjustDifficulty, Commitment,
      LeafHashes;
  }

  /** At least half of the recent blocks, and more than half of an odd number, are no later than a valid next block. */
  lemma TimeMovesOn(fs: FullState, b: Block, work: Hash -> nat)
    requires ValidBlock(fs, b, work) && |Compact(fs).prevTimestamps| == WINDOW
    ensures var recent := Compact(fs).prevTimestamps[..NumTimestamps(Compact(fs))];
      |recent| > 0 && |Sort(recent, Before)| == |recent| && multiset(Sort(recent, Before)) == multiset(recent) &&
      forall i :: 0 <= i <= (|recent| - 1) / 2 ==> Sort(recent, Before)[i] <= b.header.timestamp
  {
    hide Compact, Commitment, ValidTransactionSet, Sort, Median;
    MedianSplits(Compact(fs).prevTimestamps[..NumTimestamps(Compact(fs))]);
  }

  // ---------------------------------------------------------------- maturity

  /** An element keeps its ID, output and maturity over any valid chain. */
  lemma {:induction false} ElementsPersist(fs: FullState, blocks: seq<Block>, work: Hash -> nat, p: nat)
    requires WellFormed(fs) && ValidChain(fs, blocks, work) && p < |fs.elements|
    ensures p < |Replay(fs, blocks).elements|
    ensures var e := Replay(fs, blocks).elements[p]; e == fs.elements[p].(spent := e.spent)
    decreases |blocks|
  {
    hide WellFormed, ValidBlock, NextFull;
    if blocks != [] {
      var n := |blocks| - 1;
      ElementsPersist(fs, blocks[..n], work, p);
      var before := Replay(fs, blocks[..n]);
      NextParts(before, blocks[n]);
      SpendAtMeaning(before.elements, AllInputs(blocks[n].transactions), p);
    }
  }

  /** A miner's reward cannot be spent before 144 more blocks have been found. */
  lemma RewardsMature(fs: FullState, b: Block, between: seq<Block>, last: Block, work: Hash -> nat, m: nat)
    requires WellFormed(fs) && ValidChain(fs, [b], work) && ValidChain(NextFull(fs, b), between, work)
    requires ValidChain(Replay(NextFull(fs, b), between), [last], work)
    requires m < |AllInputs(last.transactions)| &&
      AllInputs(last.transactions)[m].parent.state.leafIndex == |fs.elements| < EPHEMERAL_LEAF_INDEX
    ensures last.header.height >= b.header.height + 144
  {
    hide WellFormed, ValidBlock, NextFull, AllInputs, Commitment;
    OneBlock(fs, b, work);
    ValidIsSound(fs, b, work);
    NextIsWellFormed(fs, b, work);
    NextParts(fs, b);
    var middle := NextFull(fs, b);
    ElementsPersist(middle, between, work, |fs.elements|);
    ChainIsWellFormed(middle, between, work);
    var before := Replay(middle, between);
    OneBlock(before, last, work);
    ValidIsSound(before, last, work);
    SpentIsMature(before, last.transactions, m);
  }

  lemma SpentIsMature(fs: FullState, txns: seq<Transaction>, m: nat)
    requires WellFormed(fs) && ValidTransactionSet(fs, txns) && m < |AllInputs(txns)|
    requires !AllInputs(txns)[m].parent.Ephemeral()
    ensures var p := AllInputs(txns)[m].parent.state.leafIndex;
      p < |fs.elements| && fs.elements[p].maturityHeight <= fs.Index().height + 1
  {
    hide AllInputs, WellFormed;
    var i, n := InputFrom(txns, m);
    assert ValidTransaction(fs, txns[i]) && txns[i].inputs[n] == AllInputs(txns)[m];
  }

  // ---------------------------------------------------------------- what a block's ID settles

  /** A block's ID settles its nonce, the second of its timestamp, and its commitment, and no more. */
  lemma IDCovers(a: BlockHeader, b: BlockHeader)
    ensures a.ID() == b.ID() <==>
      a.nonce == b.nonce && a.timestamp / 1_000_000_000 == b.timestamp / 1_000_000_000 && a.commitment == b.commitment
  {
  }

  /** And the commitment, everything in the parent's state, times cut to seconds, the miner and the transactions. */
  lemma CommitmentCovers(s: State, t: State, minerS: Hash, minerT: Hash, txnsS: seq<Transaction>,
                         txnsT: seq<Transaction>)
    ensures Commitment(s, minerS, txnsS) == Commitment(t, minerT, txnsT) <==>
      minerS == minerT && TransactionIDs(txnsS) == TransactionIDs(txnsT) &&
      s.index == t.index && s.elements == t.elements && s.history == t.history && s.totalWork == t.totalWork &&
      s.difficulty == t.difficulty && Unix(s.lastAdjust) == Unix(t.lastAdjust) &&
      |s.prevTimestamps| == |t.prevTimestamps| &&
      forall k :: 0 <= k < |s.prevTimestamps| ==> Unix(s.prevTimestamps[k]) == Unix(t.prevTimestamps[k])
  {
    var a, b := s.Image(), t.Image();
    if a.prevTimestamps == b.prevTimestamps {
      forall k | 0 <= k < |s.prevTimestamps|
        ensures Unix(s.prevTimestamps[k]) == Unix(t.prevTimestamps[k])
      {
        assert a.prevTimestamps[k] == b.prevTimestamps[k];
      }
    }
  }

  /** Transaction IDs settle the IDs that are spent, and the elements that are created. */
  lemma {:induction false} SameTransactions(a: seq<Transaction>, b: seq<Transaction>, spent: set<ElementID>)
    requires TransactionIDs(a) == TransactionIDs(b)
    ensures |AllInputs(a)| == |AllInputs(b)|
    ensures forall m :: 0 <= m < |AllInputs(a)| ==> AllInputs(a)[m].parent.state.id == AllInputs(b)[m].parent.state.id
    ensures AllOutputElements(a, spent) == AllOutputElements(b, spent)
    decreases |a|
  {
    assert |a| == |TransactionIDs(a)| == |TransactionIDs(b)| == |b|;
    if a != [] {
      var n := |a| - 1;
      forall i | 0 <= i <= n
        ensures TransactionID(a[i]) == TransactionID(b[i])
      {
        assert TransactionIDs(a)[i] == TransactionIDs(b)[i];
      }
      assert TransactionIDs(a[..n]) == TransactionIDs(b[..n]);
      SameTransactions(a[..n], b[..n], spent);
      SameInputIDs(a[n].inputs, b[n].inputs);
      assert OutputElements(a[n], spent) == OutputElements(b[n], spent);
    }
  }

  lemma SameInputIDs(a: seq<Input>, b: seq<Input>)
    requires InputIDs(a) == InputIDs(b)
    ensures |a| == |b| && forall m :: 0 <= m < |a| ==> a[m].parent.state.id == b[m].parent.state.id
  {
    assert |a| == |InputIDs(a)| == |InputIDs(b)| == |b|;
    forall m | 0 <= m < |a|
      ensures a[m].parent.state.id == b[m].parent.state.id
    {
      assert InputIDs(a)[m] == InputIDs(b)[m];
    }
  }

  /** In one ledger, the IDs that are spent settle which of them are ephemeral, and what becomes spent. */
  lemma SameSpending(fs: FullState, a: seq<Transaction>, b: seq<Transaction>)
    requires WellFormed(fs) && |fs.elements| <= EPHEMERAL_LEAF_INDEX
    requires ValidTransactionSet(fs, a) && ValidTransactionSet(fs, b) && TransactionIDs(a) == TransactionIDs(b)
    ensures EphemeralIDs(AllInputs(a)) == EphemeralIDs(AllInputs(b))
    ensures SpendAt(fs.elements, AllInputs(a)) == SpendAt(fs.elements, AllInputs(b))
  {
    hide WellFormed, ValidTransactionSet, AllInputs, SpendAt;
    SameTransactions(a, b, {});
    var x, y := AllInputs(a), AllInputs(b);
    forall m | 0 <= m < |x|
      ensures x[m].parent.Ephemeral() <==> y[m].parent.Ephemeral()
    {
      InputFacts(fs, a, m);
      InputFacts(fs, b, m);
    }
    forall p | 0 <= p < |fs.elements|
      ensures SpendAt(fs.elements, x)[p] == SpendAt(fs.elements, y)[p]
    {
      OldEffect(fs, a, p);
      OldEffect(fs, b, p);
      SameIDs(x, y);
    }
    SameEphemeral(x, y);
  }

  lemma SameIDs(x: seq<Input>, y: seq<Input>)
    requires |x| == |y| && forall m :: 0 <= m < |x| ==> x[m].parent.state.id == y[m].parent.state.id
    ensures IDs(x) == IDs(y)
  {
  }

  lemma SameEphemeral(x: seq<Input>, y: seq<Input>)
    requires |x| == |y| && forall m :: 0 <= m < |x| ==> x[m].parent.state.id == y[m].parent.state.id
    requires forall m :: 0 <= m < |x| ==> (x[m].parent.Ephemeral() <==> y[m].parent.Ephemeral())
    ensures EphemeralIDs(x) == EphemeralIDs(y)
  {
  }

  lemma SameElements(fs: FullState, a: Block, b: Block)
    requires EphemeralIDs(AllInputs(a.transactions)) == EphemeralIDs(AllInputs(b.transactions))
    requires SpendAt(fs.elements, AllInputs(a.transactions)) == SpendAt(fs.elements, AllInputs(b.transactions))
    requires a.header.ID() == b.header.ID() && a.header.minerAddress == b.header.minerAddress
    requires forall spent :: AllOutputElements(a.transactions, spent) == AllOutputElements(b.transactions, spent)
    ensures NextElements(fs, a) == NextElements(fs, b)
  {
    hide BlockReward, AllOutputElements, AllInputs, SpendAt, EphemeralIDs;
  }

  /**
    A block's ID settles its effect on the ledger, whatever proofs, signatures
    and positions the block carries, except for the part of its timestamp
    below one second: two valid children with one ID lead to the same ledger
    exactly when their timestamps agree.
   */
  lemma IDSettlesEffect(fs: FullState, a: Block, b: Block, work: Hash -> nat)
    requires WellFormed(fs) && fs.chain != [] && |fs.elements| <= EPHEMERAL_LEAF_INDEX
    requires ValidBlock(fs, a, work) && ValidBlock(fs, b, work) && a.header.ID() == b.header.ID()
    ensures NextFull(fs, a) == NextFull(fs, b) <==> a.header.timestamp == b.header.timestamp
  {
    ValidIsSound(fs, a, work);
    ValidIsSound(fs, b, work);
    assert TransactionIDs(a.transactions) == TransactionIDs(b.transactions) &&
      a.header.minerAddress == b.header.minerAddress;
    hide ValidBlock, NextElements, WellFormed, Compact, ApplyHeader;
    SameSpending(fs, a.transactions, b.transactions);
    forall spent
      ensures AllOutputElements(a.transactions, spent) == AllOutputElements(b.transactions, spent)
    {
      SameTransactions(a.transactions, b.transactions, spent);
    }
    SameElements(fs, a, b);
    NextParts(fs, a);
    NextParts(fs, b);
    assert NextFull(fs, a).timestamps[|fs.timestamps|] == a.header.timestamp;
    assert NextFull(fs, b).timestamps[|fs.timestamps|] == b.header.timestamp;
    if a.header.timestamp == b.header.timestamp {
      SameHeader(Compact(fs), a.header, b.header);
    }
  }

  /** The same block, one nanosecond later. */
  function Later(b: Block): Block {
    b.(header := b.header.(timestamp := b.header.timestamp + 1))
  }

  /**
    There are such children wherever there is a valid one: the same block one
    nanosecond later, within the same second, is valid, has the same ID, and
    leads to another ledger.
   */
  lemma TwoForms(fs: FullState, b: Block, work: Hash -> nat)
    requires WellFormed(fs) && fs.chain != [] && |fs.elements| <= EPHEMERAL_LEAF_INDEX && ValidBlock(fs, b, work)
    requires b.header.timestamp % SECOND < SECOND - 1
    ensures ValidBlock(fs, Later(b), work) && Later(b).Index() == b.Index()
    ensures NextFull(fs, Later(b)) != NextFull(fs, b)
  {
    hide WellFormed, Compact, Commitment, MedianTimestamp, NextFull, ValidTransactionSet;
    assert Later(b).header.ID() == b.header.ID();
    assert ValidBlock(fs, Later(b), work);
    hide ValidBlock;
    IDSettlesEffect(fs, b, Later(b), work);
  }

  lemma SameHeader(s: State, a: BlockHeader, b: BlockHeader)
    requires |s.prevTimestamps| == WINDOW
    requires a.height == b.height && a.ID() == b.ID() && a.timestamp == b.timestamp
    ensures ApplyHeader(s, a) == ApplyHeader(s, b)
  {
  }
}
