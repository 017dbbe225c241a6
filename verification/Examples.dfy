/**
  Chains of blocks without transactions: inputs at which properties fail that
  do not hold of every chain, and runs of a node that receives them.
 */
module Examples {
  import opened Types
  import opened Sorting
  import opened Headers
  import opened Forest
  import opened Accumulator
  import opened Ledger
  import opened LedgerInvariant
  import opened LedgerTheorems
  import opened ChainTree
  import opened Scratch
  import opened Rounds
  import opened Manager
  import Work

  // ---------------------------------------------------------------- blocks at time zero

  /** A child of the last block that only pays its miner. */
  function EmptyBlock(fs: FullState, nonce: nat): Block {
    var commitment := Commitment(Compact(fs), ZeroHash, []);
    Block(BlockHeader(fs.Index().height + 1, fs.Index().id, nonce, 0, ZeroHash, commitment), [])
  }

  /** Such a block is valid wherever its ID required enough work, and no block before it was later. */
  lemma EmptyBlockIsValid(fs: FullState, nonce: nat, work: Hash -> nat)
    requires work(EmptyBlock(fs, nonce).header.ID()) >= fs.difficulty && MedianTimestamp(Compact(fs)) <= 0
    ensures ValidBlock(fs, EmptyBlock(fs, nonce), work)
  {
    hide MedianTimestamp, Accumulate, LeafHashes, Commitment;
    assert NoDoubleSpends([]) && AllInputs([]) == [];
  }

  lemma MedianAtMost(times: seq<int>, t: int)
    requires |times| > 0 && forall i :: 0 <= i < |times| ==> times[i] <= t
    ensures Median(times) <= t
  {
    hide Sort, Median;
    var ts := Sort(times, Before);
    Ascending(times);
    MedianBetween(times, ts);
    assert ts[|times| / 2] in multiset(times);
  }

  /** A ledger whose blocks were all found at time zero. */
  ghost predicate AtZero(fs: FullState) {
    WellFormed(fs) && fs.chain != [] && Roomy(fs) && WorkFits(fs) &&
    forall k :: 0 <= k < |fs.timestamps| ==> fs.timestamps[k] == 0
  }

  lemma NotTooEarly(fs: FullState)
    requires AtZero(fs)
    ensures MedianTimestamp(Compact(fs)) <= 0
  {
    hide Median, Accumulate, LeafHashes, SourceKnown, DistinctIDs, Roomy;
    assert Linked(fs.chain, |fs.chain| - 1);
    MedianAtMost(Compact(fs).prevTimestamps[..NumTimestamps(Compact(fs))], 0);
  }

  /** The ledger after one more such block. */
  function Longer(fs: FullState, nonce: nat): FullState {
    NextFull(fs, EmptyBlock(fs, nonce))
  }

  lemma LongerIsValid(fs: FullState, nonce: nat, work: Hash -> nat)
    requires AtZero(fs) && |fs.chain| < HEIGHT_LIMIT && work(EmptyBlock(fs, nonce).header.ID()) >= fs.difficulty
    ensures ValidBlock(fs, EmptyBlock(fs, nonce), work) && AtZero(Longer(fs, nonce))
    ensures Longer(fs, nonce).chain == fs.chain + [EmptyBlock(fs, nonce).Index()]
    ensures EmptyBlock(fs, nonce).Index().height == |fs.chain|
  {
    hide WellFormed, Roomy, WorkFits, ValidBlock, NextFull, MedianTimestamp, Compact, Commitment;
    NotTooEarly(fs);
    EmptyBlockIsValid(fs, nonce, work);
    var b := EmptyBlock(fs, nonce);
    NextParts(fs, b);
    RoomyInLimits(fs);
    NextIsWellFormed(fs, b, work);
    NextIsRoomy(fs, b, work);
    NextWorkFits(fs, b);
    ValidIsSound(fs, b, work);
    LastHeight(fs);
  }

  lemma LastHeight(fs: FullState)
    requires WellFormed(fs) && fs.chain != []
    ensures fs.Index().height + 1 == |fs.chain|
  {
    assert Linked(fs.chain, |fs.chain| - 1);
  }

  /** Below the first adjustment, each block adds the difficulty. */
  lemma WorkAdded(fs: FullState, nonce: nat)
    requires AtZero(fs) && |fs.chain| < DIFFICULTY_ADJUSTMENT_INTERVAL
    ensures Longer(fs, nonce).totalWork == (fs.totalWork + fs.difficulty) % WORK_LIMIT
    ensures Longer(fs, nonce).difficulty == fs.difficulty
  {
    hide WellFormed, Roomy, NextElements, Accumulate, LeafHashes, Commitment, AdjustDifficulty;
    LastHeight(fs);
  }

  /** A genesis block at time zero. */
  const ORIGIN: Block := Block(BlockHeader(0, ZeroHash, 0, 0, ZeroHash, ZeroHash), [])

  function Start(difficulty: nat): FullState {
    NextFull(EmptyLedger(difficulty, 0), ORIGIN)
  }

  lemma StartsAtZero(difficulty: nat)
    requires difficulty < WORK_LIMIT
    ensures Genesis(ORIGIN) && AtZero(Start(difficulty)) && Start(difficulty).chain == [ORIGIN.Index()]
    ensures Start(difficulty).totalWork == 0 && Start(difficulty).difficulty == difficulty
  {
    assert AllInputs([]) == [] && AllOutputElements([], {}) == [];
    assert Genesis(ORIGIN);
    GenesisIsWellFormed(ORIGIN, difficulty);
    GenesisCreated(ORIGIN);
    hide WellFormed, Accumulate, LeafHashes;
  }

  // ---------------------------------------------------------------- where the work wraps

  /** Half of what a Work can hold: the difficulty that the IDs 1 and 2, and no others, meet. */
  const HALF: nat := WORK_LIMIT / 2

  /**
    Started with that difficulty, a chain's second block above genesis makes
    it lighter: the work of a node whose first two blocks have the IDs 1 and 2
    is 2^255 after the first and 0 after the second.
   */
  lemma WorkFallsBack(enc: Hash -> seq<Work.Byte>)
    requires Work.Encodes(enc)
    requires Work.Value(enc(EmptyBlock(Start(HALF), 0).header.ID())) == 1
    requires Work.Value(enc(EmptyBlock(Longer(Start(HALF), 0), 0).header.ID())) == 2
    ensures var one := Longer(Start(HALF), 0);
      ValidBlock(Start(HALF), EmptyBlock(Start(HALF), 0), Work.HashWork(enc)) &&
      ValidBlock(one, EmptyBlock(one, 0), Work.HashWork(enc)) &&
      one.totalWork == HALF && Longer(one, 0).totalWork == 0
  {
    hide ValidBlock, AtZero, Longer, Start, EmptyBlock, Work.Value, Work.Encodes;
    var start, work := Start(HALF), Work.HashWork(enc);
    StartsAtZero(HALF);
    LongerIsValid(start, 0, work);
    WorkAdded(start, 0);
    var one := Longer(start, 0);
    LongerIsValid(one, 0, work);
    WorkAdded(one, 0);
  }

  // ---------------------------------------------------------------- trees of such blocks

  /** Every ID has done some work; so has every real one. */
  ghost predicate Enough(work: Hash -> nat) {
    forall h :: work(h) >= 1
  }

  /** The ledger after blocks with the given nonces, above genesis. */
  function After(nonces: seq<nat>): FullState {
    if nonces == [] then Start(1) else Longer(After(nonces[..|nonces| - 1]), nonces[|nonces| - 1])
  }

  /** The last of those blocks. */
  function Last(nonces: seq<nat>): Block
    requires nonces != []
  {
    EmptyBlock(After(nonces[..|nonces| - 1]), nonces[|nonces| - 1])
  }

  lemma {:induction false} AfterFacts(nonces: seq<nat>, work: Hash -> nat)
    requires Enough(work) && |nonces| < 100
    ensures var fs := After(nonces);
      AtZero(fs) && fs.totalWork == |nonces| && fs.difficulty == 1 && |fs.chain| == |nonces| + 1
    ensures nonces == [] ==> After(nonces).chain == [ORIGIN.Index()]
    ensures nonces != [] ==>
      ValidBlock(After(nonces[..|nonces| - 1]), Last(nonces), work) &&
      After(nonces) == NextFull(After(nonces[..|nonces| - 1]), Last(nonces)) &&
      After(nonces).chain == After(nonces[..|nonces| - 1]).chain + [Last(nonces).Index()]
  {
    hide ValidBlock, AtZero, Start, EmptyBlock, NextFull;
    if nonces == [] {
      StartsAtZero(1);
    } else {
      var before, nonce := nonces[..|nonces| - 1], nonces[|nonces| - 1];
      AfterFacts(before, work);
      LongerIsValid(After(before), nonce, work);
      WorkAdded(After(before), nonce);
    }
  }

  /** What the last block's header says. */
  lemma LastHeader(nonces: seq<nat>, work: Hash -> nat)
    requires Enough(work) && 0 < |nonces| < 100
    ensures var h := Last(nonces).header;
      h.height == |nonces| && h.timestamp == 0 && h.nonce == nonces[|nonces| - 1] &&
      h.ParentIndex() == After(nonces[..|nonces| - 1]).Index() && After(nonces).Index() == h.Index()
  {
    hide AtZero, Start, NextFull, WellFormed, Compact, Commitment;
    AfterFacts(nonces, work);
    AfterFacts(nonces[..|nonces| - 1], work);
    AtZeroParts(After(nonces[..|nonces| - 1]));
    LastHeight(After(nonces[..|nonces| - 1]));
  }

  lemma AtZeroParts(fs: FullState)
    requires AtZero(fs)
    ensures WellFormed(fs) && fs.chain != [] && Roomy(fs) && WorkFits(fs)
  {
    hide WellFormed, Roomy, WorkFits;
  }

  /** A tree of blocks at time zero whose nonces are below a limit. */
  ghost predicate Plain(t: Tree, limit: nat) {
    t.Valid() && Enough(t.work) &&
    forall j :: j in t.entries ==> t.entries[j].block.header.timestamp == 0 && t.entries[j].block.header.nonce < limit
  }

  /** The tree holds the last of the blocks with the given nonces. */
  ghost predicate Holds(t: Tree, nonces: seq<nat>) {
    var i := After(nonces).Index();
    i in t.entries && i in t.ledgers && t.ledgers[i] == After(nonces)
  }

  /** One more block in the tree. */
  lemma GrowOne(t: Tree, limit: nat, nonces: seq<nat>)
    requires Plain(t, limit) && 0 < |nonces| < 100 && nonces[|nonces| - 1] < limit
    requires Holds(t, nonces[..|nonces| - 1])
    ensures var g := Grown(t, After(nonces[..|nonces| - 1]).Index(), Last(nonces));
      Plain(g, limit) && Holds(g, nonces) && (forall others :: Holds(t, others) ==> Holds(g, others))
    ensures t.Agrees(Last(nonces)) && Last(nonces).header.height < HEIGHT_LIMIT
  {
    hide ValidBlock, AtZero, NextFull, After, Last, Compact, Tree.Recorded, Tree.Attached;
    var p := After(nonces[..|nonces| - 1]).Index();
    AfterFacts(nonces, t.work);
    LastHeader(nonces, t.work);
    Grow(t, p, Last(nonces));
  }

  /** A header with a nonce that no stored block has is not that of a stored block. */
  lemma NotStored(t: Tree, limit: nat, h: BlockHeader)
    requires Plain(t, limit) && h.nonce >= limit
    ensures h.Index() !in t.entries
  {
    hide Compact, WellFormed, Roomy, WorkFits, Tree.Attached;
    assert h.Index() in t.entries ==> t.Recorded(h.Index());
  }

  lemma OnlyOrigin(work: Hash -> nat)
    requires Enough(work)
    ensures Plain(Only(ORIGIN, Start(1), work), 1) && Holds(Only(ORIGIN, Start(1), work), [])
    ensures Roomy(Start(1)) && After([]).Index() == ORIGIN.Index()
  {
    hide AtZero, Compact, Start, Roomy, WellFormed, WorkFits;
    StartsAtZero(1);
    AtZeroParts(Start(1));
    hide Tree.Valid;
    GenesisTree(Checkpoint(ORIGIN, Compact(Start(1))), Start(1), work);
  }

  // ---------------------------------------------------------------- headers at time zero

  /** A state after blocks at time zero, below the first adjustment, at difficulty 1. */
  ghost predicate Early(s: State) {
    |s.prevTimestamps| == WINDOW && s.difficulty <= 1 && s.index.height < 100 &&
    forall k :: 0 <= k < NumTimestamps(s) ==> s.prevTimestamps[k] == 0
  }

  lemma EarlyHeader(s: State, h: BlockHeader, work: Hash -> nat)
    requires Early(s) && Enough(work) && h.height == s.index.height + 1 && h.parentID == s.index.id && h.timestamp == 0
    ensures ValidateHeader(s, h, work) == Ok && ApplyHeader(s, h).index == h.Index()
    ensures ApplyHeader(s, h).totalWork == (s.totalWork + s.difficulty) % WORK_LIMIT
    ensures h.height < 100 ==> Early(ApplyHeader(s, h))
  {
    hide Median, AdjustDifficulty;
    MedianAtMost(s.prevTimestamps[..NumTimestamps(s)], 0);
  }

  /** Header k is the child of the one before it. */
  ghost predicate Follower(i: ChainIndex, headers: seq<BlockHeader>, k: nat)
    requires k < |headers|
  {
    headers[k].timestamp == 0 && headers[k].height == i.height + k + 1 &&
    headers[k].parentID == if k == 0 then i.id else headers[k - 1].ID()
  }

  ghost predicate Successive(i: ChainIndex, headers: seq<BlockHeader>) {
    forall k :: 0 <= k < |headers| ==> Follower(i, headers, k)
  }

  lemma {:induction false} EarlyHeaders(s: State, headers: seq<BlockHeader>, work: Hash -> nat)
    requires Early(s) && Enough(work) && Successive(s.index, headers) && s.index.height + |headers| < 100
    ensures ValidHeaders(s, headers, work) && Early(AfterHeaders(s, headers))
    ensures AfterHeaders(s, headers).index == if headers == [] then s.index else headers[|headers| - 1].Index()
    decreases |headers|
  {
    hide ValidateHeader, ApplyHeader, Early;
    assert |s.prevTimestamps| == WINDOW by { EarlyWindow(s); }
    if headers != [] {
      var n := |headers| - 1;
      assert Follower(s.index, headers, n) && (n > 0 ==> Follower(s.index, headers, n - 1));
      forall k | 0 <= k < n
        ensures Follower(s.index, headers[..n], k)
      {
        assert Follower(s.index, headers, k);
      }
      EarlyHeaders(s, headers[..n], work);
      EarlyHeader(AfterHeaders(s, headers[..n]), headers[n], work);
      Appended(s, headers[..n], headers[n], work);
      assert headers == headers[..n] + [headers[n]];
    }
  }

  lemma EarlyWindow(s: State)
    requires Early(s)
    ensures |s.prevTimestamps| == WINDOW
  {
  }

  lemma StartIsEarly()
    ensures Early(Compact(Start(1))) && Compact(Start(1)).index == ORIGIN.Index()
  {
    hide AtZero, WellFormed, Accumulate, LeafHashes;
    StartsAtZero(1);
  }

  // ---------------------------------------------------------------- where a reorganisation cannot arrive

  /** The headers of a chain that promises a first block, and then other blocks than the ones that come. */
  predicate Promise(h1: BlockHeader, h2: BlockHeader) {
    h1.timestamp == h2.timestamp == 0 && h1.height == 2 && h2.height == 3 &&
    h1.parentID == Last([1]).header.ID() && h2.parentID == h1.ID() && h1.nonce != 1 && h2.nonce == 2
  }

  /** Three blocks that are added to such a chain, on a node whose tip is two blocks above the same base. */
  ghost function ThreeRounds(t: Tree, h1: BlockHeader, h2: BlockHeader): Run {
    Run(t, ORIGIN.Index(), [Last([1]).header, h1, h2], ORIGIN.Index(), Last([0, 0]).Index(),
        [Last([1]), Last([1, 1]), Last([1, 1, 1])])
  }

  /** A tree with the genesis block and two more. */
  ghost predicate TwoAbove(t: Tree, limit: nat) {
    Plain(t, limit) && Holds(t, []) && Holds(t, [0]) && Holds(t, [0, 0])
  }

  /** After each of the rounds. */
  lemma AfterRounds(t: Tree, h1: BlockHeader, h2: BlockHeader)
    requires TwoAbove(t, 1) && t.base == ORIGIN.Index()
    ensures var run := ThreeRounds(t, h1, h2);
      run.Valid() && run.ts in t.ledgers && run.TreeAt(3).base == t.base && run.LedgerAt(0) == After([]) &&
      run.LedgerAt(1) == After([1]) && run.LedgerAt(2) == After([1, 1]) && run.LedgerAt(3) == After([1, 1, 1]) &&
      TwoAbove(run.TreeAt(3), 2) && Holds(run.TreeAt(3), [1])
  {
    hide Last, After, Run.LedgerAt, Run.TreeAt, Run.Valid, TwoAbove, Holds, Plain;
    var run := ThreeRounds(t, h1, h2);
    RoundsStart(t, h1, h2);
    assert [] + [1] == [1] && [1] + [1] == [1, 1] && [1, 1] + [1] == [1, 1, 1];
    NextRound(run, 0, []);
    NextRound(run, 1, [1]);
    NextRound(run, 2, [1, 1]);
    run.TreeHolds(3);
  }

  lemma RoundsStart(t: Tree, h1: BlockHeader, h2: BlockHeader)
    requires TwoAbove(t, 1) && t.base == ORIGIN.Index()
    ensures var run := ThreeRounds(t, h1, h2);
      run.Valid() && run.ts in t.ledgers && run.LedgerAt(0) == After([]) && run.At(0) == After([]).Index() &&
      TwoAbove(run.TreeAt(0), 2) && Holds(run.TreeAt(0), [])
  {
    hide NextFull, Compact, Last, After, Tree.Recorded, Tree.Attached;
    OnlyOrigin(t.work);
    LastHeader([0, 0], t.work);
    assert ThreeRounds(t, h1, h2).blocks[..0] == [];
  }

  lemma NextRound(run: Run, j: nat, nonces: seq<nat>)
    requires run.ts in run.t.ledgers && j < |run.blocks| && |nonces| < 99 && run.blocks[j] == Last(nonces + [1])
    requires run.LedgerAt(j) == After(nonces) && run.At(j) == After(nonces).Index()
    requires TwoAbove(run.TreeAt(j), 2) && Holds(run.TreeAt(j), nonces)
    ensures run.LedgerAt(j + 1) == After(nonces + [1]) && run.At(j + 1) == After(nonces + [1]).Index()
    ensures TwoAbove(run.TreeAt(j + 1), 2) && Holds(run.TreeAt(j + 1), nonces + [1])
    ensures forall others :: Holds(run.TreeAt(j), others) ==> Holds(run.TreeAt(j + 1), others)
  {
    hide NextFull, Compact, Last, After, Tree.Recorded, Tree.Attached, Run.LedgerAt, Run.TreeAt, ValidBlock, AtZero;
    var more := nonces + [1];
    assert more[..|nonces|] == nonces;
    run.NextTree(j);
    AfterFacts(more, run.TreeAt(j).work);
    LastHeader(more, run.TreeAt(j).work);
    GrowOne(run.TreeAt(j), 2, more);
  }

  /**
    The chain has as much work as the tip after its second block, and more
    after its third.  But the second is not the one whose header it has, nor
    the tip.
   */
  lemma RoundsBreak(t: Tree, h1: BlockHeader, h2: BlockHeader)
    requires TwoAbove(t, 1) && t.base == ORIGIN.Index() && Promise(h1, h2)
    ensures var run := ThreeRounds(t, h1, h2);
      run.Valid() && run.Breaks() && (run.BreaksMissing() <==> LeavesOff(run.TreeAt(3), run.base, run.headers))
  {
    hide NextFull, Compact, Last, After, Tree.Recorded, Tree.Attached, ValidBlock, AtZero, Run.LedgerAt, Run.TreeAt,
      LeavesOff, Run.Strands, Run.Reaches, Holds;
    var run := ThreeRounds(t, h1, h2);
    AfterRounds(t, h1, h2);
    LastHeader([1, 1], t.work);
    LastHeader([0, 0], t.work);
    RoundsRise(run, t);
    assert run.headers[1].Index() != run.blocks[1].Index();
    assert run.FirstHeavier(2) && run.TipAt(0) != run.At(2) && !run.OnHeadersAt(3);
    run.FirstOvertake();
    run.FirstStrands(2);
    run.EndsOnce(2);
  }

  lemma RoundsRise(run: Run, t: Tree)
    requires Enough(t.work) && run.Valid() && run.t == t && |run.blocks| == 3 && run.ts.height == run.base.height
    requires |run.headers| == 3 && run.tip == After([0, 0]).Index() && Holds(t, [0, 0])
    requires run.blocks == [Last([1]), Last([1, 1]), Last([1, 1, 1])]
    requires run.LedgerAt(0) == After([]) && run.LedgerAt(1) == After([1]) && run.LedgerAt(2) == After([1, 1])
    requires run.LedgerAt(3) == After([1, 1, 1])
    ensures run.Rises() && run.FirstHeavier(2) && run.Applies(3)
  {
    hide NextFull, Compact, Last, After, Tree.Valid, ValidBlock, AtZero, Run.LedgerAt;
    AfterFacts([], t.work);
    AfterFacts([1], t.work);
    AfterFacts([1, 1], t.work);
    AfterFacts([1, 1, 1], t.work);
    AfterFacts([0, 0], t.work);
    assert [1][..0] == [] && [1, 1][..1] == [1] && [1, 1, 1][..2] == [1, 1];
  }

  /** If the second header is that of the tip, the chain of headers goes on to another branch. */
  lemma GoesElsewhere(t: Tree, h1: BlockHeader, h2: BlockHeader)
    requires TwoAbove(t, 2) && Holds(t, [1]) && t.base == ORIGIN.Index() && Promise(h1, h2)
    requires h1.Index() == Last([0, 0]).Index()
    ensures !LeavesOff(t, ORIGIN.Index(), [Last([1]).header, h1, h2])
  {
    hide NextFull, Compact, Last, After, Tree.Recorded, Tree.Attached, AtZero;
    OnlyOrigin(t.work);
    AfterFacts([0], t.work);
    AfterFacts([0, 0], t.work);
    LastHeader([0], t.work);
    LastHeader([1], t.work);
    LastHeader([0, 0], t.work);
    AfterFacts([], t.work);
    assert [0][..0] == [] && [0, 0][..1] == [0];
    var headers := [Last([1]).header, h1, h2];
    assert t.Chain(h1.Index())[1] == Last([0]).Index();
    assert (t.Chain(ORIGIN.Index()) + Indices(headers[..2]))[1] == headers[0].Index();
  }

  /** If it is that of no stored block, the headers leave off there. */
  lemma GoesNowhere(t: Tree, h1: BlockHeader, h2: BlockHeader)
    requires TwoAbove(t, 2) && Holds(t, [1]) && t.base == ORIGIN.Index() && Promise(h1, h2) && h1.nonce >= 2
    ensures LeavesOff(t, ORIGIN.Index(), [Last([1]).header, h1, h2])
  {
    hide Last, Holds, Tree.Valid, Follows;
    var headers := [Last([1]).header, h1, h2];
    EnoughWork(t, 2);
    NotStored(t, 2, h1);
    OneFollows(t, headers);
    assert headers[1] == h1;
  }

  lemma OneFollows(t: Tree, headers: seq<BlockHeader>)
    requires Holds(t, []) && Holds(t, [1]) && Enough(t.work) && headers != [] && headers[0] == Last([1]).header
    ensures Follows(t, ORIGIN.Index(), headers, 1)
  {
    hide NextFull, Compact, Last, After, AtZero, ValidBlock;
    AfterFacts([1], t.work);
    AfterFacts([], t.work);
    AfterHeight([], t.work);
    LastHeader([1], t.work);
    assert [1][..0] == [];
    assert headers[..1] == [Last([1]).header];
    assert Indices(headers[..1]) == [Last([1]).Index()];
  }

  /** A new node, at difficulty 1. */
  method NodeAtOrigin(work: Hash -> nat) returns (m: Manager)
    requires Enough(work)
    ensures fresh(m) && fresh(m.store) && m.Valid() && m.Heaviest() && m.chains == [] && m.subscribers == []
    ensures m.base == ORIGIN.Index() == m.cs.index == After([]).Index() && m.work == work
    ensures Plain(m.T(), 1) && Holds(m.T(), [])
  {
    hide NextFull, Compact, After, Tree.Valid, AtZero, Genesis, Roomy, EmptyLedger, Plain, Holds, Manager.OnBest,
      Manager.ChainsHeld, Manager.Following, NoneHeavier;
    StartsAtZero(1);
    OnlyOrigin(work);
    m := NewNode(ORIGIN, 1, work);
  }

  /** A new node that has added two blocks to its tip. */
  method NodeWithTwo(work: Hash -> nat) returns (m: Manager)
    requires Enough(work)
    ensures fresh(m) && fresh(m.store) && m.Valid() && m.Heaviest() && m.chains == [] && m.subscribers == []
    ensures m.base == ORIGIN.Index() && m.work == work && TwoAbove(m.T(), 1) && m.cs.index == Last([0, 0]).Index()
  {
    hide Last, After, Tree.Valid, Plain, Holds, Manager.OnBest, Manager.ChainsHeld, Manager.Following, NoneHeavier;
    assert [] + [0] == [0] && [0] + [0] == [0, 0];
    LastHeader([0], work);
    assert [0][..0] == [];
    m := NodeAtOrigin(work);
    AddOne(m, [], 0, 1);
    AddOne(m, [0], 0, 1);
  }

  /** One more block on a node's tip. */
  method AddOne(m: Manager, nonces: seq<nat>, nonce: nat, ghost limit: nat)
    requires m.Valid() && m.Heaviest() && m.subscribers == [] && |nonces| < 90 && nonce < limit
    requires Plain(m.T(), limit) && Holds(m.T(), nonces) && m.cs.index == After(nonces).Index()
    modifies m`cs, m`ledgers, m.store
    ensures m.Valid() && m.Heaviest() && m.cs.index == Last(nonces + [nonce]).Index()
    ensures Plain(m.T(), limit) && Holds(m.T(), nonces + [nonce])
    ensures forall others :: Holds(old(m.T()), others) ==> Holds(m.T(), others)
  {
    hide NextFull, Compact, Last, After, Tree.Valid, AtZero, ValidBlock, Plain, Holds, Grown, Manager.OnBest,
      Manager.ChainsHeld, Manager.Following, NoneHeavier;
    TipFacts(m, nonces);
    EnoughWork(m.T(), limit);
    var more := nonces + [nonce];
    assert more[..|nonces|] == nonces;
    AfterFacts(more, m.work);
    AfterFacts(nonces, m.work);
    LastHeader(more, m.work);
    GrowOne(m.T(), limit, more);
    var r := m.AddTipBlock(Last(more), 0);
  }

  lemma TipFacts(m: Manager, nonces: seq<nat>)
    requires m.OnBest() && Holds(m.T(), nonces) && m.cs.index == After(nonces).Index()
    ensures m.cs.totalWork == After(nonces).totalWork && m.cs.difficulty == After(nonces).difficulty
    ensures m.cs.index in m.ledgers && m.ledgers[m.cs.index] == After(nonces)
  {
    hide NextFull, Compact, After, Tree.Valid;
    m.TipState();
    CompactWork(After(nonces));
  }

  lemma EnoughWork(t: Tree, limit: nat)
    requires Plain(t, limit)
    ensures Enough(t.work) && t.Valid()
  {
    hide Tree.Valid;
  }

  /** A node accepts the three headers. */
  lemma PromiseIsAcceptable(work: Hash -> nat, h1: BlockHeader, h2: BlockHeader)
    requires Enough(work) && Promise(h1, h2)
    ensures Acceptable(Compact(Start(1)), [Last([1]).header, h1, h2], work, 0)
  {
    hide NextFull, Compact, Last, After, Start, AtZero, Early, ValidHeaders, AfterHeaders;
    LastHeader([1], work);
    assert [1][..0] == [];
    OnlyOrigin(work);
    StartIsEarly();
    var s, headers := Compact(Start(1)), [Last([1]).header, h1, h2];
    assert Follower(s.index, headers, 0) && Follower(s.index, headers, 1) && Follower(s.index, headers, 2);
    EarlyWindow(s);
    EarlyHeaders(s, headers, work);
  }

  /** A node without scratch chains receives headers that begin one. */
  method Announce(m: Manager, headers: seq<BlockHeader>) returns (r: HeadersResult)
    requires m.Valid() && m.chains == [] && m.Begins(headers, 0)
    modifies m`chains
    ensures m.Valid() && |m.chains| == 1 && fresh(m.chains[0]) && m.Begun(headers, r)
  {
    hide Manager.OnBest, Manager.ChainsHeld, Manager.Following, Manager.Begins, Manager.Begun, Manager.News,
      Manager.NoneTakes, Manager.Orphans, Manager.Opened, Manager.FirstUnknown, Manager.Lengthened,
      Manager.AlreadyKnown, Manager.OthersStay, Acceptable;
    m.BeginsAnew(headers, 0);
    ghost var before := m.chains;
    r := m.AddHeaders(headers, 0);
    assert m.FirstUnknown(headers, 0);
    m.AllBegun(before, headers, 0, r);
  }

  /** A chain of three headers begins on the genesis block. */
  lemma ChainBegins(m: Manager, h1: BlockHeader, h2: BlockHeader)
    requires m.OnBest() && TwoAbove(m.T(), 1) && m.chains == [] && m.base == ORIGIN.Index() && Promise(h1, h2)
    ensures m.Begins([Last([1]).header, h1, h2], 0)
  {
    hide NextFull, Compact, Last, Start, Tree.Recorded, Tree.Attached, AtZero, Acceptable;
    EnoughWork(m.T(), 1);
    LastHeader([1], m.work);
    assert [1][..0] == [];
    OnlyOrigin(m.work);
    NotStored(m.T(), 1, Last([1]).header);
    NotStored(m.T(), 1, h2);
    PromiseIsAcceptable(m.work, h1, h2);
    EntryState(m.T(), ORIGIN.Index());
  }

  /** The chain that was begun lacks the three blocks. */
  lemma ChainServes(m: Manager, h1: BlockHeader, h2: BlockHeader, blocks: seq<Block>, r: HeadersResult)
    requires m.ChainsHeld() && |m.chains| == 1 && m.Begun([Last([1]).header, h1, h2], r) && Enough(m.work)
    requires Promise(h1, h2) && m.cs.index == Last([0, 0]).Index()
    requires blocks == [Last([1]), Last([1, 1]), Last([1, 1, 1])]
    ensures m.Serves(0, blocks) && m.RunAhead(m.chains[0], blocks) == ThreeRounds(m.T(), h1, h2)
  {
    hide NextFull, Compact, Last, After, Start, Tree.Valid, AtZero, ScratchChain.Valid, ScratchChain.Held,
      Manager.ChainsHeld, ScratchChain.In;
    var sc, headers := m.chains[0], [Last([1]).header, h1, h2];
    LastHeader([1], m.work);
    assert [1][..0] == [];
    OnlyOrigin(m.work);
    m.ChainIn(sc);
    m.HeightOfTip(sc);
    assert Indices(headers)[0] == blocks[0].Index();
    assert blocks[0..] == blocks;
  }

  /**
    A node whose tip has height 2 is sent three headers, and then three blocks
    of which only the first is theirs.  The blocks are valid one after the
    other and make a heavier chain, but the node cannot move its tip there.
   */
  method BreaksOff(work: Hash -> nat, h1: BlockHeader, h2: BlockHeader) returns (m: Manager, r: BlocksResult)
    requires Enough(work) && Promise(h1, h2) && (h1.Index() == Last([0, 0]).Index() || h1.nonce == 2)
    ensures m.Valid() && !m.Heaviest()
    ensures r == Failed(Broken(if h1.nonce == 2 then Missing else Panic))
  {
    hide NextFull, Compact, Last, After, Start, Tree.Valid, AtZero, ValidBlock, Manager.OnBest, Manager.ChainsHeld,
      Manager.Following, NoneHeavier, Manager.Begins, Manager.Begun, TwoAbove, ThreeRounds, Run.Valid, Run.Breaks,
      Run.BreaksMissing, LeavesOff, Manager.Serves, Manager.WillFail, Manager.RunAhead, Promise;
    m := NodeWithTwo(work);
    var headers := [Last([1]).header, h1, h2];
    ChainBegins(m, h1, h2);
    var r0 := Announce(m, headers);
    var blocks := [Last([1]), Last([1, 1]), Last([1, 1, 1])];
    ChainServes(m, h1, h2, blocks, r0);
    WillNotArrive(m, h1, h2, blocks);
    AllTaken(m, blocks);
    r := m.AddBlocks(blocks);
  }

  lemma WillNotArrive(m: Manager, h1: BlockHeader, h2: BlockHeader, blocks: seq<Block>)
    requires TwoAbove(m.T(), 1) && m.base == ORIGIN.Index() && Promise(h1, h2) && blocks != []
    requires h1.Index() == Last([0, 0]).Index() || h1.nonce == 2
    requires m.Serves(0, blocks) && m.RunAhead(m.chains[0], blocks) == ThreeRounds(m.T(), h1, h2)
    ensures m.WillBreak(blocks) && m.WillFail(blocks, Broken(if h1.nonce == 2 then Missing else Panic))
  {
    hide NextFull, Compact, Last, After, Start, Tree.Valid, AtZero, Manager.Serves, Manager.RunAhead, Run.Valid,
      Run.Breaks, Run.BreaksMissing, LeavesOff, TwoAbove, Plain;
    RoundsBreak(m.T(), h1, h2);
    AfterRounds(m.T(), h1, h2);
    var t3 := ThreeRounds(m.T(), h1, h2).TreeAt(3);
    if h1.nonce == 2 {
      GoesNowhere(t3, h1, h2);
    } else {
      GoesElsewhere(t3, h1, h2);
    }
    m.ServedOnce(0, blocks);
  }

  lemma AllTaken(m: Manager, blocks: seq<Block>)
    requires TwoAbove(m.T(), 1) && blocks == [Last([1]), Last([1, 1]), Last([1, 1, 1])]
    ensures m.AllStorable(blocks)
  {
    hide Last, After, Start, Tree.Valid, AtZero;
    LastHeader([1], m.work);
    LastHeader([1, 1], m.work);
    LastHeader([1, 1, 1], m.work);
  }

  /** The second header is that of the tip, with another parent, which leaves its ID as it is. */
  method ReorgPanics(work: Hash -> nat) returns (m: Manager, r: BlocksResult)
    requires Enough(work)
    ensures m.Valid() && !m.Heaviest() && r == Failed(Broken(Panic))
  {
    hide Last, Manager.Valid, Manager.Heaviest;
    LastHeader([0, 0], work);
    var h1 := Last([0, 0]).header.(parentID := Last([1]).header.ID());
    m, r := BreaksOff(work, h1, BlockHeader(3, h1.ID(), 2, 0, ZeroHash, ZeroHash));
  }

  /** The second header is that of a valid block that does not come. */
  method ReorgFails(work: Hash -> nat) returns (m: Manager, r: BlocksResult)
    requires Enough(work)
    ensures m.Valid() && !m.Heaviest() && r == Failed(Broken(Missing))
  {
    hide Last, After, Manager.Valid, Manager.Heaviest;
    LastHeader([1], work);
    LastHeader([1, 2], work);
    assert [1, 2][..1] == [1];
    var h1 := Last([1, 2]).header;
    m, r := BreaksOff(work, h1, BlockHeader(3, h1.ID(), 2, 0, ZeroHash, ZeroHash));
  }

  // ---------------------------------------------------------------- where a reorganisation takes a detour

  /** One more block of a node's scratch chain. */
  method StoreOne(m: Manager, chain: ScratchChain, nonces: seq<nat>, nonce: nat, ghost limit: nat)
    requires m.Valid() && chain in m.chains && chain.Valid() && |nonces| < 90 && nonce < limit
    requires chain.ts.index == After(nonces).Index() && |nonces| < chain.hs.index.height
    requires Plain(m.T(), limit) && Holds(m.T(), nonces)
    modifies m`ledgers, m.store`entries, chain`ts
    ensures m.Valid() && chain.Valid() && chain.ts.index == Last(nonces + [nonce]).Index()
    ensures Plain(m.T(), limit) && Holds(m.T(), nonces + [nonce])
    ensures forall others :: Holds(old(m.T()), others) ==> Holds(m.T(), others)
  {
    hide NextFull, Compact, Last, After, Tree.Valid, AtZero, ValidBlock, Plain, Grown, Manager.OnBest,
      Manager.ChainsHeld, Manager.Following, ScratchChain.Valid, ScratchChain.Along, Manager.Continues;
    EnoughWork(m.T(), limit);
    var more := nonces + [nonce];
    assert more[..|nonces|] == nonces;
    AfterFacts(more, m.work);
    LastHeader(more, m.work);
    AfterHeight(nonces, m.work);
    GrowOne(m.T(), limit, more);
    var r := m.StoreBlock(chain, Last(more));
  }

  lemma AfterHeight(nonces: seq<nat>, work: Hash -> nat)
    requires Enough(work) && |nonces| < 100
    ensures After(nonces).Index().height == |nonces|
    ensures nonces == [] ==> After(nonces).Index() == ORIGIN.Index()
  {
    hide After, Start, AtZero;
    AfterFacts(nonces, work);
    if nonces != [] {
      LastHeader(nonces, work);
    }
  }

  /** The headers of a chain that parts from the best chain above its own first block. */
  function ForkHeaders(): (headers: seq<BlockHeader>)
    ensures |headers| == 3
  {
    [Last([1]).header, Last([1, 2]).header, Last([1, 2, 2]).header]
  }

  lemma ForkIsAcceptable(work: Hash -> nat)
    requires Enough(work)
    ensures Acceptable(Compact(Start(1)), ForkHeaders(), work, 0)
    ensures ForkHeaders()[0].ParentIndex() == ORIGIN.Index()
    ensures forall k :: 0 <= k < 3 ==> ForkHeaders()[k].nonce >= 1
  {
    hide NextFull, Compact, Last, After, Start, AtZero, Early, ValidHeaders, AfterHeaders;
    LastHeader([1], work);
    LastHeader([1, 2], work);
    LastHeader([1, 2, 2], work);
    assert [1][..0] == [] && [1, 2][..1] == [1] && [1, 2, 2][..2] == [1, 2];
    AfterHeight([], work);
    StartIsEarly();
    var s, headers := Compact(Start(1)), ForkHeaders();
    assert Follower(s.index, headers, 0) && Follower(s.index, headers, 1) && Follower(s.index, headers, 2);
    EarlyWindow(s);
    EarlyHeaders(s, headers, work);
  }

  lemma ForkBegins(m: Manager)
    requires m.OnBest() && Plain(m.T(), 1) && Holds(m.T(), []) && m.chains == []
    ensures m.Begins(ForkHeaders(), 0)
  {
    hide NextFull, Compact, Last, Start, Tree.Recorded, Tree.Attached, AtZero, Acceptable, ForkHeaders;
    EnoughWork(m.T(), 1);
    ForkIsAcceptable(m.work);
    AfterHeight([], m.work);
    NotStored(m.T(), 1, ForkHeaders()[0]);
    NotStored(m.T(), 1, ForkHeaders()[2]);
    EntryState(m.T(), ORIGIN.Index());
  }

  /** From tip to top it is three steps, but over the base, where the chain began, it is five. */
  lemma ForkLengths(work: Hash -> nat)
    requires Enough(work)
    ensures var base, tip, top := After([]).chain, After([1, 1]).chain, After([1, 2, 2]).chain;
      top == base + Indices(ForkHeaders()) && Distance(tip, top) == 3 && Detour(tip, base, top) == 5
  {
    hide After, Last, Start, AtZero, NextFull, Distance, Detour, ValidBlock;
    var base, first, other, top := After([]).chain, Last([1]).Index(), Last([1, 2]).Index(), Last([1, 2, 2]).Index();
    var tip := Last([1, 1]).Index();
    AfterFacts([], work);
    AfterFacts([1], work);
    AfterFacts([1, 1], work);
    AfterFacts([1, 2], work);
    AfterFacts([1, 2, 2], work);
    LastHeader([1, 1], work);
    LastHeader([1, 2], work);
    assert [1][..0] == [] && [1, 1][..1] == [1] == [1, 2][..1] && [1, 2, 2][..2] == [1, 2];
    assert Indices(ForkHeaders()) == [first] + [other] + [top];
    LongWayLengths(ORIGIN.Index(), first, tip, other, top);
    assert base + Indices(ForkHeaders()) == base + [first] + [other] + [top];
  }

  lemma LongWayLengths(base: ChainIndex, first: ChainIndex, tip: ChainIndex, other: ChainIndex, top: ChainIndex)
    requires tip != other
    ensures var a, b := [base] + [first] + [tip], [base] + [first] + [other] + [top];
      Distance(a, b) == 3 && Detour(a, [base], b) == 5
  {
    var a, b := [base] + [first] + [tip], [base] + [first] + [other] + [top];
    assert a[..2] == b[..2] == [base, first] && a[..1] == [base][..1];
    CommonIs(a, b, 2);
    CommonIs(a, [base], 1);
  }

  lemma ForkIndices(work: Hash -> nat)
    requires Enough(work)
    ensures [] + [1] == [1] && [1] + [1] == [1, 1] && [1] + [2] == [1, 2] && [1, 2] + [2] == [1, 2, 2]
    ensures After([1]).Index() == Last([1]).Index() && After([1, 2]).Index() == Last([1, 2]).Index()
    ensures After([1, 1]).Index() == Last([1, 1]).Index() && After([1, 2, 2]).Index() == Last([1, 2, 2]).Index()
    ensures After([]).Index() == ORIGIN.Index()
  {
    hide After, Last, Start, AtZero;
    AfterHeight([], work);
    LastHeader([1], work);
    LastHeader([1, 1], work);
    LastHeader([1, 2], work);
    LastHeader([1, 2, 2], work);
  }

  lemma Wider(t: Tree, limit: nat, more: nat)
    requires Plain(t, limit) && limit <= more
    ensures Plain(t, more)
  {
    hide Tree.Valid;
  }

  /** A new node that has received the three headers. */
  method NodeWithFork(work: Hash -> nat) returns (m: Manager, chain: ScratchChain)
    requires Enough(work)
    ensures fresh(m) && fresh(m.store) && fresh(chain) && m.Valid() && m.Heaviest() && m.subscribers == []
    ensures m.chains == [chain] && chain.Valid() && chain.hs.index.height == 3
    ensures chain.base == chain.ts.index == m.base == ORIGIN.Index() == m.cs.index && chain.headers == ForkHeaders()
    ensures m.work == work && Plain(m.T(), 3) && Holds(m.T(), [])
  {
    hide Last, After, Tree.Valid, Plain, Holds, Manager.OnBest, Manager.ChainsHeld, Manager.Following, NoneHeavier,
      Manager.Begins, ScratchChain.Valid, ScratchChain.Held, ScratchChain.In, ForkHeaders, Acceptable;
    m := NodeAtOrigin(work);
    ForkBegins(m);
    ForkIsAcceptable(work);
    var r := Announce(m, ForkHeaders());
    chain := m.chains[0];
    m.ChainIn(chain);
    m.HeightOfTip(chain);
    Wider(m.T(), 1, 3);
  }

  /** Once its blocks are stored, the chain is that of its headers, and the way to it is a long one. */
  lemma ForkIsLong(m: Manager, chain: ScratchChain)
    requires Enough(m.work) && m.T().Valid() && Holds(m.T(), []) && Holds(m.T(), [1, 1]) && Holds(m.T(), [1, 2, 2])
    requires chain.Valid() && chain.base == ORIGIN.Index() && chain.headers == ForkHeaders()
    requires chain.ts.index == Last([1, 2, 2]).Index() && m.cs.index == Last([1, 1]).Index()
    ensures chain.Along(m.T())
    ensures Detour(m.T().Chain(m.cs.index), m.T().Chain(chain.base), m.T().Chain(chain.ts.index)) == 5
  {
    hide After, Last, Tree.Valid, Distance, Detour, ForkHeaders, ScratchChain.Valid, Indices;
    ForkLengths(m.work);
    ForkIndices(m.work);
    LastHeader([1, 2, 2], m.work);
    assert ForkHeaders()[..3] == ForkHeaders();
  }

  /**
    A node receives three headers, finds a child of the first one's block by
    itself, and then receives the other blocks.  Its tip goes back to where the
    headers began, and over a block that it has just reverted: five steps,
    where three would do.
   */
  method LongWayRound(work: Hash -> nat) returns (m: Manager, move: Move, ghost steps: nat)
    requires Enough(work)
    ensures m.OnBest() && move == Moved && m.cs.index == Last([1, 2, 2]).Index()
    ensures steps == 5 && Distance(After([1, 1]).chain, After([1, 2, 2]).chain) == 3
  {
    hide NextFull, Compact, Last, After, Tree.Valid, AtZero, ValidBlock, Plain, Holds, Manager.OnBest,
      Manager.ChainsHeld, Manager.Following, NoneHeavier, ScratchChain.Valid, ForkHeaders, Distance, Detour,
      ScratchChain.Along, ScratchChain.Held, ScratchChain.In;
    var chain;
    m, chain := NodeWithFork(work);
    ForkIndices(work);
    AddOne(m, [], 1, 3);
    AddOne(m, [1], 1, 3);
    StoreOne(m, chain, [], 1, 3);
    StoreOne(m, chain, [1], 2, 3);
    StoreOne(m, chain, [1, 2], 2, 3);
    ForkLengths(work);
    m.ChainIn(chain);
    m.TipState();
    ForkIsLong(m, chain);
    move, steps := m.ReorgTo(chain);
  }

  // ---------------------------------------------------------------- headers that arrive in parts

  /** A header above another one. */
  function Above(h: BlockHeader, timestamp: int): BlockHeader {
    BlockHeader(h.height + 1, h.ID(), 3, timestamp, ZeroHash, ZeroHash)
  }

  /** One header at time zero is accepted. */
  lemma OneEarly(s: State, h: BlockHeader, work: Hash -> nat)
    requires Early(s) && Enough(work)
    requires h.ParentIndex() == s.index && 0 < h.height < 100 && h.timestamp == 0
    ensures Acceptable(s, [h], work, 0) && AfterHeaders(s, [h]) == ApplyHeader(s, h) && Early(ApplyHeader(s, h))
    ensures ApplyHeader(s, h).index == h.Index() && ApplyHeader(s, h).difficulty == s.difficulty
    ensures ApplyHeader(s, h).totalWork == (s.totalWork + s.difficulty) % WORK_LIMIT
  {
    EarlyHeader(s, h, work);
    hide ValidateHeader, MedianTimestamp, AdjustDifficulty;
    assert [h][..0] == [];
    assert AfterHeaders(s, []) == s;
  }

  /** The state after the first header, and after the second. */
  lemma InParts(work: Hash -> nat)
    requires Enough(work)
    ensures var s, h1, h2 := Compact(Start(1)), Last([1]).header, Last([1, 2]).header;
      |s.prevTimestamps| == WINDOW && Acceptable(s, [h1], work, 0) && h1.ParentIndex() == s.index == ORIGIN.Index() &&
      var s1 := AfterHeaders(s, [h1]);
      s1.totalWork == 1 && s1.index == h1.Index() && Acceptable(s1, [h2], work, 0) && h2.ParentIndex() == h1.Index() &&
      h1.height == 1 && h2.height == 2 && h1.nonce == 1 && h2.nonce == 2 &&
      var s2 := AfterHeaders(s, [h1, h2]);
      Early(s2) && s2.index == h2.Index() && s2.totalWork == 2
  {
    hide NextFull, Last, After, AtZero, ApplyHeader, AfterHeaders, Acceptable, Early, Start, Compact;
    LastHeader([1], work);
    LastHeader([1, 2], work);
    assert [1][..0] == [] && [1, 2][..1] == [1];
    AfterHeight([], work);
    StartIsEarly();
    StartsAtZero(1);
    CompactWork(Start(1));
    var s, h1, h2 := Compact(Start(1)), Last([1]).header, Last([1, 2]).header;
    EarlyWindow(s);
    OneEarly(s, h1, work);
    OneEarly(ApplyHeader(s, h1), h2, work);
    assert [h1, h2][..1] == [h1] && [h1, h2][..2] == [h1, h2];
    NextHeader(s, [h1, h2], 1);
  }

  lemma FirstBegins(m: Manager)
    requires m.OnBest() && Plain(m.T(), 1) && Holds(m.T(), []) && m.chains == []
    ensures m.Begins([Last([1]).header], 0)
  {
    hide NextFull, Compact, Last, Start, Tree.Recorded, Tree.Attached, AtZero, Acceptable, AfterHeaders;
    EnoughWork(m.T(), 1);
    InParts(m.work);
    AfterHeight([], m.work);
    NotStored(m.T(), 1, Last([1]).header);
    EntryState(m.T(), ORIGIN.Index());
  }

  /** A node that has received the first header. */
  method FirstPart(work: Hash -> nat) returns (m: Manager, chain: ScratchChain, r: HeadersResult)
    requires Enough(work)
    ensures fresh(m) && fresh(m.store) && fresh(chain) && m.Valid() && m.chains == [chain] && m.work == work
    ensures Plain(m.T(), 1) && m.cs.totalWork == 0 && chain.Valid() && chain.start == Compact(Start(1))
    ensures r == Heavier(chain) && chain.headers == [Last([1]).header]
  {
    hide Last, After, Tree.Valid, Plain, Holds, Manager.OnBest, Manager.ChainsHeld, Manager.Following, NoneHeavier,
      Manager.Begins, ScratchChain.Valid, ScratchChain.In, Acceptable, Compact, Start, AfterHeaders, Manager.Started,
      Manager.Lengthened, Manager.AlreadyKnown, Manager.OthersStay, Manager.News;
    m := NodeAtOrigin(work);
    TipFacts(m, []);
    AfterFacts([], work);
    FirstBegins(m);
    r := Announce(m, [Last([1]).header]);
    chain := m.chains[0];
    m.ChainIn(chain);
    InParts(work);
    StartsHere(m, chain);
  }

  /** A chain on the genesis block starts from its state. */
  lemma StartsHere(m: Manager, chain: ScratchChain)
    requires chain.Valid() && chain.Held(m.T()) && Holds(m.T(), []) && chain.base == ORIGIN.Index() && Enough(m.work)
    ensures chain.start == Compact(Start(1)) && chain.hs == AfterHeaders(Compact(Start(1)), chain.headers)
  {
    hide Tree.Valid, Start, Compact, AfterHeaders, ValidHeaders;
    AfterHeight([], m.work);
  }

  /** The only chain takes a header above its tip. */
  lemma TipTakes(m: Manager, chain: ScratchChain, h: BlockHeader)
    requires m.OnBest() && m.ChainsHeld() && m.chains == [chain] && Plain(m.T(), 1) && h.nonce >= 1
    requires h.ParentIndex() == chain.Tip() && h.height == chain.Tip().height + 1
    ensures m.News([h]) && m.FirstToTake(0, [h]) && m.Above(chain, [h]) == [h] && !m.NoneTakes([h])
  {
    hide Tree.Valid, Plain, ScratchChain.Valid, ScratchChain.Held, ScratchChain.In, Manager.ChainsHeld;
    NotStored(m.T(), 1, h);
    m.ChainIn(chain);
    m.HeightOfTip(chain);
    chain.HeaderHeights();
    assert [h][0..] == [h];
    assert m.Attaches(chain, [h]);
  }

  /** What the node makes of one more header above the tip of its only chain. */
  method OneMorePart(m: Manager, chain: ScratchChain, h: BlockHeader) returns (r: HeadersResult)
    requires m.Valid() && m.chains == [chain] && Plain(m.T(), 1) && h.nonce >= 1 && chain.Valid()
    requires h.ParentIndex() == chain.Tip() && h.height == chain.Tip().height + 1
    modifies m`chains, m.chains
    ensures m.Valid() && m.chains == [chain] && chain.Valid()
    ensures m.Continued(chain, old(chain.headers), old(chain.hs), [h], 0, r)
  {
    hide Tree.Valid, Plain, ScratchChain.Valid, ScratchChain.Held, ScratchChain.In, Manager.ChainsHeld, Manager.OnBest,
      Manager.Following, Manager.News, Manager.FirstToTake, Manager.Above, Manager.Continued, Manager.AlreadyKnown,
      Manager.Started, Manager.Begins, Manager.Begun, Manager.NoneTakes;
    TipTakes(m, chain, h);
    r := m.AddHeaders([h], 0);
    m.ChainIn(chain);
  }

  /**
    A node receives a header, and then another one above it: both times the
    answer is the chain that has them.  Above these, one that is more than two
    hours ahead is refused, and so is one that is earlier than the median.
   */
  method HeadersInParts(work: Hash -> nat) returns (m: Manager, chain: ScratchChain, answers: seq<HeadersResult>)
    requires Enough(work)
    ensures m.Valid() && chain.headers == [Last([1]).header, Last([1, 2]).header]
    ensures answers == [Heavier(chain), Heavier(chain), FutureHeader, BadHeader(TimestampTooEarly)]
  {
    hide Last, After, Tree.Valid, Plain, Manager.Valid, ScratchChain.Valid, Acceptable, Compact, Start, AfterHeaders,
      Manager.Continued, Early;
    var r;
    m, chain, r := FirstPart(work);
    answers := [r];
    InParts(work);
    var h1, h2 := Last([1]).header, Last([1, 2]).header;
    TipOf(chain);
    r := OneMorePart(m, chain, h2);
    m.AllExtended(chain, [h1], AfterHeaders(Compact(Start(1)), [h1]), [h2], 0, r);
    assert [h1] + [h2] == [h1, h2];
    TipOf(chain);
    answers := answers + [r];
    var h3, h4 := Above(h2, 2 * 3600 * SECOND + 1), Above(h2, -1);
    TooLateOrEarly(chain.hs, h2, work);
    r := OneMorePart(m, chain, h3);
    m.NoneExtended(chain, [h1, h2], AfterHeaders(Compact(Start(1)), [h1, h2]), h3, 0, r);
    answers := answers + [r];
    TipOf(chain);
    r := OneMorePart(m, chain, h4);
    m.NoneExtended(chain, [h1, h2], AfterHeaders(Compact(Start(1)), [h1, h2]), h4, 0, r);
    answers := answers + [r];
  }

  lemma TipOf(chain: ScratchChain)
    requires chain.Valid()
    ensures chain.hs == AfterHeaders(chain.start, chain.headers) && chain.Tip() == chain.hs.index
    ensures chain.TotalWork() == chain.hs.totalWork
  {
    hide AfterHeaders, ValidHeaders;
  }

  lemma TooLateOrEarly(s: State, h: BlockHeader, work: Hash -> nat)
    requires Early(s) && s.index == h.Index() && Enough(work)
    ensures !Acceptable(s, [Above(h, 2 * 3600 * SECOND + 1)], work, 0) && !Acceptable(s, [Above(h, -1)], work, 0)
    ensures ValidateHeader(s, Above(h, -1), work) == Err(TimestampTooEarly)
  {
    hide Median;
    var times := s.prevTimestamps[..NumTimestamps(s)];
    MedianAtLeast(times, 0);
    var late, early := [Above(h, 2 * 3600 * SECOND + 1)], [Above(h, -1)];
    assert late[0].timestamp > 2 * 3600 * SECOND;
    assert early[..0] == [] && AfterHeaders(s, []) == s && early[0] == Above(h, -1);
  }

  lemma MedianAtLeast(times: seq<int>, t: int)
    requires |times| > 0 && forall i :: 0 <= i < |times| ==> times[i] >= t
    ensures Median(times) >= t
  {
    hide Sort, Median;
    var ts := Sort(times, Before);
    Ascending(times);
    MedianBetween(times, ts);
    assert ts[(|times| - 1) / 2] in multiset(times);
  }
}
