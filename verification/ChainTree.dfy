/**
  The tree of ledgers behind a store of checkpoints: every entry is its
  parent's ledger with the entry's block applied, up to the base entry.
 */
module ChainTree {
  import opened Bits
  import Words
  import opened Types
  import opened Forest
  import opened Headers
  import opened Ledger
  import opened LedgerInvariant
  import opened LedgerTheorems
  import opened Validation
  import opened Update

  datatype Checkpoint = Checkpoint(block: Block, state: State)

  // ---------------------------------------------------------------- room

  /** Below this height no chain can outgrow the accumulators. */
  const HEIGHT_LIMIT: nat := 0x100_0000_0000

  /** The elements leave room for the blocks up to the height limit. */
  ghost predicate Roomy(fs: FullState) {
    |fs.chain| <= HEIGHT_LIMIT && |fs.elements| <= 0x2000_0000_0000_0000 + (MAX_BLOCK_WEIGHT + 1) * |fs.chain|
  }

  lemma RoomyInLimits(fs: FullState)
    requires Roomy(fs)
    ensures InLimits(fs) && |fs.elements| <= EPHEMERAL_LEAF_INDEX
  {
    hide Pow2;
    Words.Pow2Value();
  }

  /** Every output weighs something. */
  lemma {:induction false} OutputsWithinWeight(txns: seq<Transaction>, spent: set<ElementID>)
    ensures |AllOutputElements(txns, spent)| <= BlockWeight(txns)
    decreases |txns|
  {
    if txns != [] {
      OutputsWithinWeight(txns[..|txns| - 1], spent);
    }
  }

  lemma NextIsRoomy(fs: FullState, b: Block, work: Hash -> nat)
    requires Roomy(fs) && ValidBlock(fs, b, work) && |fs.chain| < HEIGHT_LIMIT
    ensures Roomy(NextFull(fs, b))
  {
    hide BlockWeight, AllOutputElements, BlockReward, Compact, ValidateHeader, Commitment, ValidTransaction,
      NoDoubleSpends, EphemeralsAvailable, SpendAt, AllInputs, NextFull;
    NextParts(fs, b);
    OutputsWithinWeight(b.transactions, EphemeralIDs(AllInputs(b.transactions)));
  }

  /** Work values have 32 bytes. */
  ghost predicate WorkFits(fs: FullState) {
    fs.totalWork < WORK_LIMIT && fs.difficulty < WORK_LIMIT
  }

  lemma NextWorkFits(fs: FullState, b: Block)
    requires WorkFits(fs)
    ensures WorkFits(NextFull(fs, b))
  {
    hide NextElements, AdjustDifficulty, LeafHashes;
    DifficultyFits(fs.difficulty, fs.lastAdjust, b.header.timestamp);
  }

  lemma EmptyWorkFits(difficulty: nat, lastAdjust: int)
    requires difficulty < WORK_LIMIT
    ensures WorkFits(EmptyLedger(difficulty, lastAdjust))
  {
  }

  // ---------------------------------------------------------------- the tree

  datatype Tree = Tree(entries: map<ChainIndex, Checkpoint>, ledgers: map<ChainIndex, FullState>, base: ChainIndex,
                       work: Hash -> nat) {

    /** The entry at index i holds the compact form of i's ledger. */
    ghost predicate Recorded(i: ChainIndex)
      requires i in entries && i in ledgers
    {
      entries[i].block.Index() == i && entries[i].state == Compact(ledgers[i]) &&
      ledgers[i].Index() == i && ledgers[i].chain != [] && WellFormed(ledgers[i]) && Roomy(ledgers[i]) &&
      WorkFits(ledgers[i])
    }

    /** The entry's ledger is its parent's with the entry's valid block applied. */
    ghost predicate Attached(i: ChainIndex)
      requires i in entries && i in ledgers && base in ledgers
    {
      i == base ||
      (var b := entries[i].block;
       var p := b.header.ParentIndex();
       p in entries && p in ledgers && ValidBlock(ledgers[p], b, work) && ledgers[i] == NextFull(ledgers[p], b) &&
       ledgers[base].chain <= ledgers[p].chain)
    }

    ghost predicate Valid() {
      base in entries && ledgers.Keys == entries.Keys &&
      forall i :: i in entries ==> Recorded(i) && Attached(i)
    }

    /** Where another form of the block is stored, it has the block's timestamp to the nanosecond. */
    predicate Agrees(b: Block) {
      b.Index() in entries ==> entries[b.Index()].block.header.timestamp == b.header.timestamp
    }

    /** Position of the base in every chain. */
    ghost function Root(): nat {
      if Chain(base) == [] then 0 else |Chain(base)| - 1
    }

    /** The chain from genesis to index i. */
    ghost function Chain(i: ChainIndex): seq<ChainIndex> {
      if i in ledgers then ledgers[i].chain else []
    }
  }

  /** A tree with the base alone. */
  lemma GenesisTree(c: Checkpoint, fs: FullState, work: Hash -> nat)
    requires c.block.Index() == fs.Index() && c.state == Compact(fs) && fs.chain != [] && WellFormed(fs) &&
      Roomy(fs) && WorkFits(fs)
    ensures Tree(map[fs.Index() := c], map[fs.Index() := fs], fs.Index(), work).Valid()
  {
    hide Compact, WellFormed, Roomy, WorkFits, FullState.Index;
    var t := Tree(map[fs.Index() := c], map[fs.Index() := fs], fs.Index(), work);
    assert t.Recorded(fs.Index());
  }

  lemma ParentChain(t: Tree, i: ChainIndex)
    requires t.Valid() && i in t.entries
    ensures t.Chain(i) != [] && t.Chain(i)[|t.Chain(i)| - 1] == i && t.Chain(t.base) <= t.Chain(i)
    ensures i.height == |t.Chain(i)| - 1 >= t.Root()
    ensures i == t.base <==> i.height == t.Root()
    ensures i != t.base ==>
      var p := t.entries[i].block.header.ParentIndex();
      p in t.entries && t.Chain(i) == t.Chain(p) + [i] && p.height + 1 == i.height
  {
    hide ValidBlock, NextFull, Compact, SourceKnown, Roomy, WorkFits, DistinctIDs;
    assert t.Recorded(i) && t.Attached(i) && t.Recorded(t.base);
    assert Linked(t.Chain(i), |t.Chain(i)| - 1);
    if i != t.base {
      var p := t.entries[i].block.header.ParentIndex();
      assert t.Recorded(p);
      assert Linked(t.Chain(p), |t.Chain(p)| - 1);
      NextParts(t.ledgers[p], t.entries[i].block);
    }
  }

  /** The chain to an entry consists, from the base on, of entries, each with its own part of the chain. */
  lemma {:induction false} Ancestor(t: Tree, i: ChainIndex, j: nat)
    requires t.Valid() && i in t.entries && t.Root() <= j < |t.Chain(i)|
    ensures t.Chain(i)[j] in t.entries && t.Chain(t.Chain(i)[j]) == t.Chain(i)[..j + 1] && t.Chain(i)[j].height == j
    ensures j > t.Root() ==> t.entries[t.Chain(i)[j]].block.header.ParentIndex() == t.Chain(i)[j - 1]
    decreases |t.Chain(i)|
  {
    hide Tree.Recorded, Tree.Attached;
    ParentChain(t, i);
    var chain := t.Chain(i);
    if j == |chain| - 1 {
      assert chain[..j + 1] == chain;
      if i != t.base {
        var p := t.entries[i].block.header.ParentIndex();
        ParentChain(t, p);
      }
    } else {
      var p := t.entries[i].block.header.ParentIndex();
      assert chain[..j + 1] == t.Chain(p)[..j + 1];
      Ancestor(t, p, j);
    }
  }

  /** A valid child names its parent twice: by ID, and in what its own ID commits to. */
  lemma NamesParent(t: Tree, p: ChainIndex, b: Block)
    requires t.Valid() && p in t.entries && ValidBlock(t.ledgers[p], b, t.work)
    ensures b.header.ParentIndex() == p && b.Index().height == |t.Chain(p)|
    ensures b.header.commitment.CommitmentHash? && b.header.commitment.state.index == p
  {
    hide Compact, WellFormed, Roomy, WorkFits, ValidBlock, NextFull, Tree.Attached;
    assert t.Recorded(p);
    ParentChain(t, p);
    ValidIsSound(t.ledgers[p], b, t.work);
  }

  /** A block's ID settles its parent, so all entries with one ID have one parent. */
  lemma ParentOfID(t: Tree, p: ChainIndex, b: Block)
    requires t.Valid() && p in t.entries && ValidBlock(t.ledgers[p], b, t.work)
    ensures b.header.ParentIndex() == p && b.Index().height == |t.Chain(p)|
    ensures b.Index() in t.entries ==> b.Index() != t.base && t.entries[b.Index()].block.header.ParentIndex() == p
  {
    hide Compact, WellFormed, Roomy, WorkFits, ValidBlock, NextFull;
    NamesParent(t, p, b);
    ParentChain(t, p);
    var i := b.Index();
    if i in t.entries {
      ParentChain(t, i);
      assert t.Recorded(i) && t.Attached(i);
      NamesParent(t, t.entries[i].block.header.ParentIndex(), t.entries[i].block);
    }
  }

  lemma SameLedger(t: Tree, p: ChainIndex, b: Block)
    requires t.Valid() && p in t.entries && ValidBlock(t.ledgers[p], b, t.work) && t.Agrees(b)
    requires b.Index() in t.entries
    ensures t.ledgers[b.Index()] == NextFull(t.ledgers[p], b)
  {
    hide Compact, SourceKnown, ValidBlock, NextFull, WellFormed;
    ParentOfID(t, p, b);
    assert t.Recorded(p) && t.Recorded(b.Index()) && t.Attached(b.Index());
    RoomyInLimits(t.ledgers[p]);
    IDSettlesEffect(t.ledgers[p], t.entries[b.Index()].block, b, t.work);
  }

  /** The tree with one more block, or with another form of a block it has. */
  ghost function Grown(t: Tree, p: ChainIndex, b: Block): Tree
    requires p in t.ledgers
  {
    t.(entries := t.entries[b.Index() := Checkpoint(b, Compact(NextFull(t.ledgers[p], b)))],
       ledgers := t.ledgers[b.Index() := NextFull(t.ledgers[p], b)])
  }

  /** A valid block can be stored, also over another form of itself with its timestamp; what is there stays. */
  lemma Grow(t: Tree, p: ChainIndex, b: Block)
    requires t.Valid() && p in t.entries && ValidBlock(t.ledgers[p], b, t.work)
    requires t.Agrees(b) && b.header.height < HEIGHT_LIMIT
    ensures Grown(t, p, b).Valid()
    ensures forall i :: i in t.ledgers ==> i in Grown(t, p, b).ledgers && Grown(t, p, b).ledgers[i] == t.ledgers[i]
    ensures Grown(t, p, b).Chain(b.Index()) == t.Chain(p) + [b.Index()] && b.Index() != t.base
  {
    hide Compact, SourceKnown, ValidBlock, NextFull, WellFormed, Roomy, Tree.Recorded, Tree.Attached;
    ParentOfID(t, p, b);
    ParentChain(t, p);
    NextParts(t.ledgers[p], b);
    if b.Index() in t.entries {
      SameLedger(t, p, b);
      assert t.Chain(b.Index()) != [] by {
        ParentChain(t, b.Index());
      }
    }
    NewBlockFits(t, p, b);
    var g := Grown(t, p, b);
    forall i | i in g.entries
      ensures g.Recorded(i) && g.Attached(i)
    {
      StillAttached(t, p, b, i);
    }
  }

  lemma NewBlockFits(t: Tree, p: ChainIndex, b: Block)
    requires t.Valid() && p in t.entries && ValidBlock(t.ledgers[p], b, t.work)
    requires b.header.height < HEIGHT_LIMIT
    ensures b.Index() != t.base
    ensures var next := NextFull(t.ledgers[p], b);
      next.Index() == b.Index() && next.chain != [] && WellFormed(next) && Roomy(next) && WorkFits(next)
  {
    hide Compact, SourceKnown, ValidBlock, NextFull, Roomy, WellFormed, WorkFits;
    ParentOfID(t, p, b);
    assert t.Recorded(p);
    ParentChain(t, p);
    RoomyInLimits(t.ledgers[p]);
    NextIsWellFormed(t.ledgers[p], b, t.work);
    NextIsRoomy(t.ledgers[p], b, t.work);
    NextWorkFits(t.ledgers[p], b);
    NextParts(t.ledgers[p], b);
  }

  lemma StillAttached(t: Tree, p: ChainIndex, b: Block, i: ChainIndex)
    requires t.Valid() && p in t.entries && ValidBlock(t.ledgers[p], b, t.work)
    requires b.Index() != t.base && i in Grown(t, p, b).entries
    requires b.Index() in t.entries ==> t.ledgers[b.Index()] == NextFull(t.ledgers[p], b)
    requires var next := NextFull(t.ledgers[p], b);
      next.Index() == b.Index() && next.chain != [] && WellFormed(next) && Roomy(next) && WorkFits(next)
    ensures Grown(t, p, b).Recorded(i) && Grown(t, p, b).Attached(i)
  {
    hide Compact, SourceKnown, ValidBlock, NextFull, WellFormed, Roomy, WorkFits;
    ParentOfID(t, p, b);
    ParentChain(t, p);
    assert t.Recorded(p);
    if i in t.entries {
      assert t.Recorded(i) && t.Attached(i);
    }
  }

  ghost predicate HasChild(t: Tree, i: ChainIndex) {
    exists c :: c in t.entries && c != t.base && t.entries[c].block.header.ParentIndex() == i
  }

  /**
    When a valid block may be stored: the tree stays right exactly if another
    form of the block that it replaces has the same timestamp, or no children.
   */
  lemma StoringIsSafe(t: Tree, p: ChainIndex, b: Block)
    requires t.Valid() && p in t.entries && ValidBlock(t.ledgers[p], b, t.work) && b.header.height < HEIGHT_LIMIT
    ensures Grown(t, p, b).Valid() <==> t.Agrees(b) || !HasChild(t, b.Index())
  {
    hide Compact, ValidBlock, NextFull, Tree.Recorded, Tree.Attached;
    if t.Agrees(b) {
      Grow(t, p, b);
    } else if HasChild(t, b.Index()) {
      var c :| c in t.entries && c != t.base && t.entries[c].block.header.ParentIndex() == b.Index();
      ChildLost(t, p, b, c);
    } else {
      NewBlockFits(t, p, b);
      forall i | i in Grown(t, p, b).entries
        ensures Grown(t, p, b).Recorded(i) && Grown(t, p, b).Attached(i)
      {
        Unaffected(t, p, b, i);
      }
    }
  }

  /** Two forms with whole seconds always agree. */
  lemma WholeSecondsAgree(t: Tree, b: Block)
    requires t.Valid() && b.header.timestamp % SECOND == 0
    requires b.Index() in t.entries ==> t.entries[b.Index()].block.header.timestamp % SECOND == 0
    ensures t.Agrees(b)
  {
    hide Compact, Tree.Attached, WellFormed, Roomy, WorkFits;
    if b.Index() in t.entries {
      assert t.Recorded(b.Index());
    }
  }

  /** There is such a form of every block that has a child and is not at the very end of its second. */
  lemma UnsafeForm(t: Tree, i: ChainIndex)
    requires t.Valid() && i in t.entries && i != t.base && i.height < HEIGHT_LIMIT && HasChild(t, i)
    requires t.entries[i].block.header.timestamp % SECOND < SECOND - 1
    ensures var b, p := t.entries[i].block, t.entries[i].block.header.ParentIndex();
      p in t.ledgers && ValidBlock(t.ledgers[p], Later(b), t.work) && Later(b).Index() == i &&
      !Grown(t, p, Later(b)).Valid()
  {
    hide Compact, ValidBlock, NextFull, WellFormed, Roomy, WorkFits;
    assert t.Recorded(i) && t.Attached(i);
    var b, p := t.entries[i].block, t.entries[i].block.header.ParentIndex();
    assert t.Recorded(p);
    RoomyInLimits(t.ledgers[p]);
    TwoForms(t.ledgers[p], b, t.work);
    StoringIsSafe(t, p, Later(b));
  }

  /** A child's ledger has the timestamp of the form that was there before. */
  lemma ChildLost(t: Tree, p: ChainIndex, b: Block, c: ChainIndex)
    requires t.Valid() && p in t.entries && ValidBlock(t.ledgers[p], b, t.work) && !t.Agrees(b)
    requires c in t.entries && c != t.base && t.entries[c].block.header.ParentIndex() == b.Index()
    ensures !Grown(t, p, b).Valid()
  {
    hide Compact, ValidBlock, NextFull, WellFormed, Roomy, WorkFits;
    var i, g := b.Index(), Grown(t, p, b);
    ParentOfID(t, p, b);
    ParentChain(t, c);
    ParentChain(t, i);
    assert t.Attached(c) && t.Attached(i);
    var n := |t.ledgers[p].timestamps|;
    NextParts(t.ledgers[p], b);
    NextParts(t.ledgers[p], t.entries[i].block);
    NextParts(t.ledgers[i], t.entries[c].block);
    NextParts(g.ledgers[i], t.entries[c].block);
    assert NextFull(g.ledgers[i], t.entries[c].block).timestamps[n] == b.header.timestamp;
    assert t.ledgers[c].timestamps[n] == t.entries[i].block.header.timestamp;
    assert g.ledgers[c] == t.ledgers[c] && !g.Attached(c);
  }

  /** Without children, a block can be replaced by another form of it. */
  lemma Unaffected(t: Tree, p: ChainIndex, b: Block, i: ChainIndex)
    requires t.Valid() && p in t.entries && ValidBlock(t.ledgers[p], b, t.work) && !HasChild(t, b.Index())
    requires b.Index() != t.base && i in Grown(t, p, b).entries
    requires var next := NextFull(t.ledgers[p], b);
      next.Index() == b.Index() && next.chain != [] && WellFormed(next) && Roomy(next) && WorkFits(next)
    ensures Grown(t, p, b).Recorded(i) && Grown(t, p, b).Attached(i)
  {
    hide Compact, SourceKnown, ValidBlock, NextFull, WellFormed, Roomy, WorkFits;
    ParentOfID(t, p, b);
    ParentChain(t, p);
    assert t.Recorded(p);
    if i in t.entries {
      assert t.Recorded(i) && t.Attached(i);
    }
  }

  // ---------------------------------------------------------------- paths

  /** The length of the longest common prefix of two chains. */
  function Common(a: seq<ChainIndex>, b: seq<ChainIndex>): (k: nat)
    ensures k <= |a| && k <= |b| && a[..k] == b[..k]
    ensures k < |a| && k < |b| ==> a[k] != b[k]
  {
    if a == [] || b == [] || a[0] != b[0] then 0
    else
      var k := Common(a[1..], b[1..]);
      assert a[..k + 1] == [a[0]] + a[1..][..k] && b[..k + 1] == [b[0]] + b[1..][..k];
      k + 1
  }

  /** The common prefix is the only place where agreement can end. */
  lemma CommonIs(a: seq<ChainIndex>, b: seq<ChainIndex>, k: nat)
    requires k <= |a| && k <= |b| && a[..k] == b[..k]
    requires k < |a| && k < |b| ==> a[k] != b[k]
    ensures Common(a, b) == k
  {
  }

  /** The last common block of two entries. */
  ghost function LastCommon(t: Tree, a: ChainIndex, b: ChainIndex): ChainIndex {
    var k := Common(t.Chain(a), t.Chain(b));
    if k == 0 then t.base else t.Chain(a)[k - 1]
  }

  lemma Agreement(a: seq<ChainIndex>, b: seq<ChainIndex>)
    ensures forall i :: 0 <= i < Common(a, b) ==> a[i] == b[i]
  {
    hide Common;
    var k := Common(a, b);
    assert forall i :: 0 <= i < k ==> a[i] == a[..k][i] && b[i] == b[..k][i];
  }

  /** How far apart two ends of chains are: down to the last common block, and up again. */
  function Distance(a: seq<ChainIndex>, b: seq<ChainIndex>): nat {
    |a| - Common(a, b) + |b| - Common(a, b)
  }

  /** How far apart they are over the last block that a third chain shares with the first. */
  function Detour(a: seq<ChainIndex>, base: seq<ChainIndex>, b: seq<ChainIndex>): int {
    |a| - Common(a, base) + |b| - Common(a, base)
  }

  /** Over a base of b it is never shorter, and as short unless a shares more than the base with b. */
  lemma DetourLength(a: seq<ChainIndex>, base: seq<ChainIndex>, b: seq<ChainIndex>)
    requires base <= b
    ensures Detour(a, base, b) >= Distance(a, b)
    ensures Detour(a, base, b) == Distance(a, b) <==>
      !(|base| < |b| && |base| < |a| && a[..|base| + 1] == b[..|base| + 1])
  {
    hide Common;
    var n, k := |base|, Common(a, base);
    if n < |b| && n < |a| && a[..n + 1] == b[..n + 1] {
      assert a[..n] == a[..n + 1][..n] == b[..n + 1][..n] == base;
      CommonIs(a, base, n);
      Agreement(a, b);
      AgreesAbove(a, b, n);
    } else {
      assert b[..k] == base[..k];
      OneMoreAgrees(a, b, k);
      CommonIs(a, b, k);
    }
  }

  lemma OneMoreAgrees(a: seq<ChainIndex>, b: seq<ChainIndex>, k: nat)
    requires k <= |a| && k <= |b| && a[..k] == b[..k]
    ensures k < |a| && k < |b| && a[k] == b[k] ==> a[..k + 1] == b[..k + 1]
  {
    if k < |a| && k < |b| && a[k] == b[k] {
      assert a[..k + 1] == a[..k] + [a[k]] == b[..k] + [b[k]] == b[..k + 1];
    }
  }

  lemma AgreesAbove(a: seq<ChainIndex>, b: seq<ChainIndex>, n: nat)
    requires n < |a| && n < |b| && a[..n + 1] == b[..n + 1]
    ensures Common(a, b) > n
  {
    hide Common;
    var m := Common(a, b);
    assert forall i :: 0 <= i <= n ==> a[i] == a[..n + 1][i] == b[..n + 1][i] == b[i];
  }

  /** The block above one entry on the chain to another is on a third chain just if that chain agrees so far. */
  lemma AboveBase(t: Tree, tip: ChainIndex, base: ChainIndex, to: ChainIndex)
    requires t.Valid() && tip in t.entries && base in t.entries && to in t.entries && t.Chain(base) < t.Chain(to)
    requires t.Root() <= |t.Chain(tip)|
    ensures var n := |t.Chain(base)|;
      t.Chain(to)[n] in t.Chain(tip)[t.Root()..] <==>
        n < |t.Chain(tip)| && t.Chain(tip)[..n + 1] == t.Chain(to)[..n + 1]
  {
    hide Tree.Recorded, Tree.Attached, Tree.Chain, Tree.Root;
    var n, r, best, chain := |t.Chain(base)|, t.Root(), t.Chain(tip), t.Chain(to);
    ParentChain(t, base);
    Ancestor(t, to, n);
    if chain[n] in best[r..] {
      var j :| 0 <= j < |best[r..]| && best[r..][j] == chain[n];
      Ancestor(t, tip, r + j);
      assert best[r + j] == chain[n] && r + j == n;
    }
    if n < |best| && best[..n + 1] == chain[..n + 1] {
      assert best[n] == best[..n + 1][n] == chain[..n + 1][n] == chain[n];
      assert best[r..][n - r] == chain[n];
    }
  }

  /** One step moves between a block and its parent. */
  ghost predicate Step(t: Tree, i: ChainIndex, j: ChainIndex) {
    i in t.entries && j in t.entries &&
    (t.entries[i].block.header.ParentIndex() == j || t.entries[j].block.header.ParentIndex() == i)
  }

  ghost predicate Walk(t: Tree, walk: seq<ChainIndex>) {
    walk != [] && (forall k :: 0 <= k < |walk| ==> walk[k] in t.entries) &&
    forall k :: 0 <= k < |walk| - 1 ==> Step(t, walk[k], walk[k + 1])
  }

  /** Extending one chain by a block changes the distance by one. */
  lemma DistanceStep(a: seq<ChainIndex>, b: seq<ChainIndex>, i: ChainIndex)
    ensures Distance(a + [i], b) <= Distance(a, b) + 1 && Distance(a, b) <= Distance(a + [i], b) + 1
  {
    var k := Common(a, b);
    var more := a + [i];
    if k == |a| && k < |b| && b[k] == i {
      assert more[..k + 1] == a[..k] + [i] && b[..k + 1] == b[..k] + [b[k]];
      CommonIs(more, b, k + 1);
    } else {
      assert more[..k] == a[..k];
      CommonIs(more, b, k);
    }
  }

  lemma StepDistance(t: Tree, i: ChainIndex, j: ChainIndex, b: seq<ChainIndex>)
    requires t.Valid() && Step(t, i, j)
    ensures Distance(t.Chain(i), b) <= Distance(t.Chain(j), b) + 1
  {
    hide Tree.Recorded, Tree.Attached, Distance;
    ParentChain(t, i);
    ParentChain(t, j);
    BaseHasNoParent(t);
    if t.entries[i].block.header.ParentIndex() == j {
      DistanceStep(t.Chain(j), b, i);
    } else {
      DistanceStep(t.Chain(i), b, j);
    }
  }

  /** The base's parent is not an entry. */
  lemma BaseHasNoParent(t: Tree)
    requires t.Valid()
    ensures t.entries[t.base].block.header.ParentIndex() !in t.entries
  {
    hide NextFull, Compact, WellFormed, Tree.Attached, Tree.Root;
    assert t.Recorded(t.base);
    ParentChain(t, t.base);
    var p := t.entries[t.base].block.header.ParentIndex();
    assert p in t.entries ==> t.Recorded(p);
    if p in t.entries {
      ParentChain(t, p);
    }
  }

  /** No walk from one entry to another is shorter than their distance. */
  lemma {:induction false} WalkLength(t: Tree, walk: seq<ChainIndex>)
    requires t.Valid() && Walk(t, walk)
    ensures |walk| - 1 >= Distance(t.Chain(walk[0]), t.Chain(walk[|walk| - 1]))
    decreases |walk|
  {
    hide Tree.Recorded, Tree.Attached, Distance;
    if |walk| == 1 {
      NoDistance(t.Chain(walk[0]));
    } else {
      assert Step(t, walk[0], walk[1]);
      assert Walk(t, walk[1..]) by {
        forall k | 0 <= k < |walk[1..]| - 1
          ensures Step(t, walk[1..][k], walk[1..][k + 1])
        {
          assert Step(t, walk[k + 1], walk[k + 2]);
        }
      }
      WalkLength(t, walk[1..]);
      StepDistance(t, walk[0], walk[1], t.Chain(walk[|walk| - 1]));
    }
  }

  lemma NoDistance(a: seq<ChainIndex>)
    ensures Distance(a, a) == 0
  {
    CommonIs(a, a, |a|);
  }

  // ---------------------------------------------------------------- lists of indices

  function Reversed(s: seq<ChainIndex>): (r: seq<ChainIndex>)
    ensures |r| == |s|
    ensures forall k :: 0 <= k < |s| ==> r[k] == s[|s| - 1 - k]
  {
    if s == [] then [] else Reversed(s[1..]) + [s[0]]
  }

  lemma ReversedStep(s: seq<ChainIndex>, j: nat)
    requires j < |s|
    ensures Reversed(s[j..]) == Reversed(s[j + 1..]) + [s[j]]
  {
    assert s[j..][1..] == s[j + 1..];
  }

  /** A later tree has everything of an earlier one. */
  ghost predicate Keeps(later: Tree, earlier: Tree) {
    later.base == earlier.base && later.work == earlier.work &&
    forall i :: i in earlier.ledgers ==> i in later.ledgers && later.ledgers[i] == earlier.ledgers[i]
  }

  /** What Grow says, as one fact. */
  lemma GrownKeeps(t: Tree, p: ChainIndex, b: Block)
    requires t.Valid() && p in t.entries && ValidBlock(t.ledgers[p], b, t.work)
    requires t.Agrees(b) && b.header.height < HEIGHT_LIMIT
    ensures Grown(t, p, b).Valid() && Keeps(Grown(t, p, b), t)
    ensures b.Index() in Grown(t, p, b).entries && b.header.ParentIndex() == p && b.Index() != t.base
  {
    hide Compact, ValidBlock, NextFull, Tree.Recorded, Tree.Attached;
    Grow(t, p, b);
    ParentOfID(t, p, b);
  }

  /** Block j of the chain to i. */
  ghost function BlockAt(t: Tree, i: ChainIndex, j: int): ChainIndex {
    if 0 <= j < |t.Chain(i)| then t.Chain(i)[j] else t.base
  }

  /** The blocks of a chain from position k on, highest first: what has to be reverted. */
  ghost predicate IsDown(t: Tree, from: ChainIndex, k: nat, path: seq<ChainIndex>) {
    from in t.entries && t.Root() <= k <= |t.Chain(from)| && path == Reversed(t.Chain(from)[k..])
  }

  /** The blocks of a chain from position k on, lowest first: what has to be applied. */
  ghost predicate IsUp(t: Tree, to: ChainIndex, k: nat, path: seq<ChainIndex>) {
    to in t.entries && t.Root() < k <= |t.Chain(to)| && path == t.Chain(to)[k..]
  }
}
