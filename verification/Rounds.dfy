/**
  The rounds of AddBlocks (chain/manager.go:294-316), told from the state
  before them: which blocks are applied, where the tip goes, and in which
  round a reorganisation cannot arrive.
 */
module Rounds {
  import opened Types
  import opened Headers
  import opened Ledger
  import opened LedgerInvariant
  import opened LedgerTheorems
  import opened ChainTree
  import opened Scratch

  /** What came of a step: it was made, its block is not stored, or the program stops. */
  datatype Move = Moved | Missing | Panic

  /** What came of one block: the tip could not follow it, or the block was accepted or not. */
  datatype Round = Accepted | Declined | Stuck(move: Move)

  /** How a reorganisation stops that does not arrive. */
  ghost function Stop(t: Tree, base: ChainIndex, headers: seq<BlockHeader>): Move {
    if LeavesOff(t, base, headers) then Missing else Panic
  }

  /**
    A scratch chain with its base, its headers and its valid tip ts, the tip
    of the best chain, and blocks that are added to the scratch chain.
   */
  datatype Run = Run(t: Tree, base: ChainIndex, headers: seq<BlockHeader>, ts: ChainIndex, tip: ChainIndex,
                     blocks: seq<Block>) {

    ghost predicate Valid() {
      t.Valid() && ts in t.entries && tip in t.entries && base in t.entries && base.height <= ts.height
    }

    /** The ledger, and the scratch chain's valid tip, after i blocks. */
    ghost function LedgerAt(i: nat): FullState
      requires ts in t.ledgers && i <= |blocks|
    {
      Replay(t.ledgers[ts], blocks[..i])
    }

    ghost function At(i: nat): ChainIndex
      requires i <= |blocks|
    {
      if i == 0 then ts else blocks[i - 1].Index()
    }

    /** The tree with i of the blocks. */
    ghost function TreeAt(i: nat): Tree
      requires ts in t.ledgers && i <= |blocks|
    {
      if i == 0 then t
      else
        var before, b := TreeAt(i - 1), blocks[i - 1];
        before.(entries := before.entries[b.Index() := Checkpoint(b, Compact(LedgerAt(i)))],
                ledgers := before.ledgers[b.Index() := LedgerAt(i)])
    }

    /** There are headers for the first i blocks, and each is valid after the ones before it. */
    ghost predicate Applies(i: nat)
      requires ts in t.ledgers
    {
      i <= |blocks| && ts.height + i <= base.height + |headers| &&
      forall j :: 0 <= j < i ==> ValidBlock(LedgerAt(j), blocks[j], t.work)
    }

    ghost function Work(i: nat): nat
      requires ts in t.ledgers && i <= |blocks|
    {
      LedgerAt(i).totalWork
    }

    /** The most work that the tip, or the chain after one of i blocks, has had. */
    ghost function Peak(i: nat): nat
      requires ts in t.ledgers && tip in t.ledgers && i <= |blocks|
    {
      if i == 0 then t.ledgers[tip].totalWork
      else if Work(i) > Peak(i - 1) then Work(i)
      else Peak(i - 1)
    }

    /** Where the tip is, if it could follow whenever the chain overtook it. */
    ghost function TipAt(i: nat): ChainIndex
      requires ts in t.ledgers && tip in t.ledgers && i <= |blocks|
    {
      if i == 0 then tip
      else if Work(i) > Peak(i - 1) then At(i)
      else TipAt(i - 1)
    }

    /** The chain's valid tip after i blocks is still that of its headers. */
    ghost predicate OnHeadersAt(i: nat)
      requires base.height <= ts.height && i <= |blocks|
    {
      OnHeaders(t, base, headers, ts) &&
      forall j :: 0 <= j < i ==>
        ts.height - base.height + j < |headers| && headers[ts.height - base.height + j].Index() == blocks[j].Index()
    }

    /** In round j the chain overtakes the tip, but its block is neither a child of the tip nor one of the headers'. */
    ghost predicate Strands(j: nat)
      requires Valid()
    {
      j < |blocks| && Applies(j + 1) && Work(j + 1) > Peak(j) && TipAt(j) != At(j) && !OnHeadersAt(j + 1)
    }

    /** The first j rounds are made. */
    ghost predicate Reaches(j: nat)
      requires Valid()
    {
      Applies(j) && forall i :: 0 <= i < j ==> !Strands(i)
    }

    /** Some round is reached in which the reorganisation does not arrive. */
    ghost predicate Breaks()
      requires Valid()
    {
      exists j :: 0 <= j < |blocks| && Reaches(j) && Strands(j)
    }

    /** And there it ends with an error. */
    ghost predicate BreaksMissing()
      requires Valid()
    {
      exists j :: 0 <= j < |blocks| && Reaches(j) && Strands(j) && LeavesOff(TreeAt(j + 1), base, headers)
    }

    /** The rounds end with a block that cannot be applied. */
    ghost predicate Declines()
      requires Valid()
    {
      exists j :: 0 <= j < |blocks| && Reaches(j) && !Applies(j + 1)
    }

    /** How the rounds end: all made, or short of block j. */
    ghost predicate Ends(j: nat, r: Round) {
      Valid() && j <= |blocks| && Reaches(j) &&
      match r
      case Accepted => j == |blocks|
      case Declined => j < |blocks| && !Applies(j + 1)
      case Stuck(move) => j < |blocks| && Strands(j) && move == Stop(TreeAt(j + 1), base, headers)
    }

    lemma EndsThere(j: nat, r: Round)
      requires Ends(j, r)
      ensures Valid() && (r.Stuck? <==> Breaks())
      ensures r == Stuck(Missing) <==> BreaksMissing()
      ensures r.Stuck? ==> r.move == Missing || r.move == Panic
      ensures r == Declined <==> Declines()
      ensures r == Declined ==> forall i :: 0 <= i < |blocks| && Reaches(i) && !Applies(i + 1) ==> i == j
    {
      hide Applies, TreeAt, Peak, TipAt, OnHeadersAt, Work, Tree.Recorded, Tree.Attached, LeavesOff;
      EndsOnce(j);
      forall i | 0 <= i < |blocks| && Reaches(i) && !Applies(i + 1)
        ensures i == j
      {
        if i < j {
          FewerApply(i + 1, j);
        } else if i > j {
          FewerApply(j + 1, i);
        }
      }
    }

    /** There is one round where the rounds end. */
    lemma EndsOnce(j: nat)
      requires Valid() && Reaches(j) && (j == |blocks| || !Applies(j + 1) || Strands(j))
      ensures Breaks() <==> j < |blocks| && Strands(j)
      ensures BreaksMissing() <==> j < |blocks| && Strands(j) && LeavesOff(TreeAt(j + 1), base, headers)
    {
      hide Applies, TreeAt, Peak, TipAt, OnHeadersAt, Work, Tree.Recorded, Tree.Attached, LeavesOff;
      forall i | 0 <= i < |blocks| && Reaches(i) && Strands(i)
        ensures i == j
      {
        if i > j {
          FewerApply(j + 1, i);
        }
      }
    }

    lemma FewerApply(i: nat, j: nat)
      requires ts in t.ledgers && i <= j && Applies(j)
      ensures Applies(i)
    {
      hide LedgerAt, ValidBlock;
    }

    /** The ledger of the valid tip after i blocks. */
    lemma {:induction false} TreeHolds(i: nat)
      requires ts in t.ledgers && i <= |blocks|
      ensures At(i) in TreeAt(i).ledgers && TreeAt(i).ledgers[At(i)] == LedgerAt(i)
      ensures TreeAt(i).base == t.base && TreeAt(i).work == t.work
      decreases i
    {
      hide NextFull, Compact;
      if i == 0 {
        assert blocks[..0] == [];
      } else {
        TreeHolds(i - 1);
      }
    }

    /** One more block in the tree is the tree after one more round. */
    lemma NextTree(i: nat)
      requires ts in t.ledgers && i < |blocks| && At(i) in TreeAt(i).ledgers && TreeAt(i).ledgers[At(i)] == LedgerAt(i)
      ensures Grown(TreeAt(i), At(i), blocks[i]) == TreeAt(i + 1)
      ensures NextFull(LedgerAt(i), blocks[i]) == LedgerAt(i + 1)
    {
      hide NextFull, Compact;
      assert blocks[..i + 1][..i] == blocks[..i];
    }

    /** With every block that is applied, the chain gains work. */
    ghost predicate Rises()
      requires ts in t.ledgers
    {
      forall i :: 0 <= i < |blocks| && Applies(i + 1) ==> Work(i) < Work(i + 1)
    }

    /** It does so exactly if no difficulty is zero and no sum wraps around. */
    lemma RisesExactly()
      requires Valid()
      ensures Rises() <==>
        forall i :: 0 <= i < |blocks| && Applies(i + 1) ==> Adds(LedgerAt(i))
    {
      hide NextFull, Compact, ValidBlock, LedgerAt, Adds, WorkFits, Tree.Attached;
      assert t.Recorded(ts);
      forall i | 0 <= i < |blocks| && Applies(i + 1)
        ensures Work(i) < Work(i + 1) <==> Adds(LedgerAt(i))
      {
        StillFits(i);
        NextWork(i);
      }
    }

    lemma {:induction false} StillFits(i: nat)
      requires ts in t.ledgers && WorkFits(t.ledgers[ts]) && i <= |blocks|
      ensures WorkFits(LedgerAt(i))
      decreases i
    {
      hide NextFull, Compact, WorkFits;
      if i == 0 {
        assert blocks[..0] == [];
      } else {
        StillFits(i - 1);
        assert blocks[..i][..i - 1] == blocks[..i - 1];
        NextWorkFits(LedgerAt(i - 1), blocks[i - 1]);
      }
    }

    lemma NextWork(i: nat)
      requires ts in t.ledgers && i < |blocks| && ValidBlock(LedgerAt(i), blocks[i], t.work) && WorkFits(LedgerAt(i))
      ensures Work(i) < Work(i + 1) <==> Adds(LedgerAt(i))
    {
      hide NextFull, ValidBlock;
      assert blocks[..i + 1][..i] == blocks[..i];
      ChildWork(LedgerAt(i), blocks[i], t.work);
      SumWraps(LedgerAt(i).totalWork, LedgerAt(i).difficulty);
    }

    /** In round k, and no earlier, the chain has more work than the tip had. */
    ghost predicate FirstHeavier(k: nat)
      requires Valid()
    {
      k < |blocks| && Applies(k + 1) && Work(k + 1) > Peak(0) && forall i :: 0 < i <= k ==> Work(i) <= Peak(0)
    }

    /**
      If every block adds work, only the first round that makes the chain the
      heaviest matters: it breaks off exactly if the chain was not the best
      one before, and is not the headers' after it.
     */
    lemma FirstOvertake()
      requires Valid() && Rises()
      ensures Breaks() <==> exists k: nat :: FirstHeavier(k) && TipAt(0) != At(k) && !OnHeadersAt(k + 1)
    {
      hide Applies, Work, Peak, TipAt, At, OnHeadersAt, Tree.Recorded, Tree.Attached;
      forall j | 0 <= j < |blocks| && Strands(j)
        ensures FirstHeavier(j) && TipAt(0) != At(j) && !OnHeadersAt(j + 1)
      {
        OnlyFirst(j);
      }
      if k: nat :| FirstHeavier(k) && TipAt(0) != At(k) && !OnHeadersAt(k + 1) {
        FirstStrands(k);
      }
    }

    lemma FirstStrands(k: nat)
      requires Valid() && FirstHeavier(k) && TipAt(0) != At(k) && !OnHeadersAt(k + 1)
      ensures Reaches(k) && Strands(k)
    {
      hide Applies, Work, Peak, TipAt, At, OnHeadersAt, Tree.Recorded, Tree.Attached;
      FewerApply(k, k + 1);
      NotYet(k);
      forall i | 0 <= i < k
        ensures !Strands(i)
      {
        NotYet(i);
        assert Work(i + 1) <= Peak(0);
      }
    }

    lemma OnlyFirst(j: nat)
      requires Valid() && Rises() && Strands(j)
      ensures FirstHeavier(j) && TipAt(0) != At(j)
    {
      hide Applies, Work, OnHeadersAt, Tree.Recorded, Tree.Attached;
      PeakGrows(j);
      FirstRound(j);
      var k :| 0 <= k <= j && FirstHeavier(k);
      if k < j {
        FewerApply(j, j + 1);
        NowHeaviest(k, j);
      } else {
        NotYet(k);
      }
    }

    lemma {:induction false} FirstRound(j: nat)
      requires Valid() && j < |blocks| && Applies(j + 1) && Work(j + 1) > Peak(0)
      ensures exists k :: 0 <= k <= j && FirstHeavier(k)
    {
      hide Applies, Work, Peak, Tree.Recorded, Tree.Attached;
      if i :| 0 < i <= j && Work(i) > Peak(0) {
        FewerApply(i, j + 1);
        FirstRound(i - 1);
      } else {
        assert FirstHeavier(j);
      }
    }

    lemma {:induction false} PeakGrows(i: nat)
      requires Valid() && i <= |blocks|
      ensures Peak(i) >= Peak(0)
    {
      hide Work, Tree.Recorded, Tree.Attached;
      if i > 0 {
        PeakGrows(i - 1);
      }
    }

    /** Before the chain is the heaviest, the tip stays. */
    lemma {:induction false} NotYet(i: nat)
      requires Valid() && i <= |blocks| && forall j :: 0 < j <= i ==> Work(j) <= Peak(0)
      ensures Peak(i) == Peak(0) && TipAt(i) == TipAt(0)
    {
      hide Work, Tree.Recorded, Tree.Attached;
      if i > 0 {
        NotYet(i - 1);
      }
    }

    /** Afterwards, the tip goes with it. */
    lemma {:induction false} NowHeaviest(k: nat, i: nat)
      requires Valid() && Rises() && FirstHeavier(k) && k < i <= |blocks| && Applies(i)
      ensures Peak(i) == Work(i) && TipAt(i) == At(i)
    {
      hide Applies, Work, Tree.Recorded, Tree.Attached;
      if i == k + 1 {
        NotYet(k);
      } else {
        FewerApply(i - 1, i);
        NowHeaviest(k, i - 1);
        assert Applies(i - 1 + 1);
      }
    }
  }

  lemma ChildWork(fs: FullState, b: Block, work: Hash -> nat)
    requires ValidBlock(fs, b, work)
    ensures NextFull(fs, b).totalWork == (fs.totalWork + fs.difficulty) % WORK_LIMIT
  {
    hide LeafHashes, AdjustDifficulty, ValidTransactionSet, Commitment, MedianTimestamp, NextElements;
  }

  lemma SumWraps(a: nat, b: nat)
    requires a < WORK_LIMIT && b < WORK_LIMIT
    ensures a < (a + b) % WORK_LIMIT <==> 0 < b && a + b < WORK_LIMIT
  {
  }

  /** A child of the ledger's last block adds work. */
  predicate Adds(fs: FullState) {
    0 < fs.difficulty && fs.totalWork + fs.difficulty < WORK_LIMIT
  }
}
