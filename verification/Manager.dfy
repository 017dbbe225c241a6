/**
  The chain manager of chain/manager.go as a state machine over the in-memory
  store.  The ghost field ledgers holds, for every stored checkpoint, the
  full ledger it stands for.
 */
module Manager {
  import opened Bits
  import opened Types
  import opened Forest
  import opened Headers
  import opened Ledger
  import opened LedgerInvariant
  import opened LedgerTheorems
  import opened Validation
  import opened Update
  import opened ElementProofs
  import opened ChainTree
  import opened Store
  import opened Scratch
  import opened Rounds
  import opened ReorgPath

  /**
    A subscriber.  Its preconditions are what the manager owes it: an apply
    update for a child of the block it stands at, leading on from the ledger
    it has, and a revert update for that block itself, leading back.
   */
  class Subscriber {
    var tip: ChainIndex
    ghost var ledger: FullState

    method ProcessChainApplyUpdate(au: ApplyUpdate, b: Block)
      requires b.header.ParentIndex() == tip && au.Leads(ledger, b)
      modifies this
      ensures tip == b.Index() && ledger == NextFull(old(ledger), b)
    {
      tip := b.Index();
      ledger := NextFull(ledger, b);
    }

    method ProcessChainRevertUpdate(ru: RevertUpdate, b: Block, ghost parent: FullState)
      requires b.Index() == tip && ledger == NextFull(parent, b) && ru.Leads(parent, b)
      modifies this
      ensures tip == b.header.ParentIndex() && ledger == parent
    {
      tip := b.header.ParentIndex();
      ledger := parent;
    }
  }

  /** All subscribers stand at the same ledger. */
  ghost predicate At(subscribers: seq<Subscriber>, fs: FullState)
    reads subscribers
  {
    (forall i, j :: 0 <= i < j < |subscribers| ==> subscribers[i] != subscribers[j]) &&
    forall i :: 0 <= i < |subscribers| ==> subscribers[i].ledger == fs && subscribers[i].tip == fs.Index()
  }

  method NotifyApply(subscribers: seq<Subscriber>, au: ApplyUpdate, b: Block, ghost fs: FullState)
    requires At(subscribers, fs) && b.header.ParentIndex() == fs.Index() && au.Leads(fs, b)
    requires NextFull(fs, b).Index() == b.Index()
    modifies subscribers
    ensures At(subscribers, NextFull(fs, b))
  {
    hide NextFull, ApplyUpdate.Leads, FullState.Index;
    for i := 0 to |subscribers|
      invariant forall j :: 0 <= j < i ==> subscribers[j].ledger == NextFull(fs, b) && subscribers[j].tip == b.Index()
      invariant forall j :: i <= j < |subscribers| ==> subscribers[j].ledger == fs && subscribers[j].tip == fs.Index()
    {
      subscribers[i].ProcessChainApplyUpdate(au, b);
    }
  }

  method NotifyRevert(subscribers: seq<Subscriber>, ru: RevertUpdate, b: Block, ghost parent: FullState)
    requires At(subscribers, NextFull(parent, b)) && NextFull(parent, b).Index() == b.Index()
    requires b.header.ParentIndex() == parent.Index() && ru.Leads(parent, b)
    modifies subscribers
    ensures At(subscribers, parent)
  {
    hide NextFull, RevertUpdate.Leads, FullState.Index;
    for i := 0 to |subscribers|
      invariant forall j :: 0 <= j < i ==> subscribers[j].ledger == parent && subscribers[j].tip == parent.Index()
      invariant forall j :: i <= j < |subscribers| ==>
        subscribers[j].ledger == NextFull(parent, b) && subscribers[j].tip == b.Index()
    {
      subscribers[i].ProcessChainRevertUpdate(ru, b, parent);
    }
  }

  /** What an entry above the base says of its parent. */
  lemma EntryStep(t: Tree, i: ChainIndex)
    requires t.Valid() && i in t.entries && i != t.base
    ensures var b, p := t.entries[i].block, t.entries[i].block.header.ParentIndex();
      b.Index() == i && p in t.entries && t.entries[p].state == Compact(t.ledgers[p]) &&
      t.entries[i].state == Compact(t.ledgers[i]) &&
      t.ledgers[p].Index() == p && t.ledgers[i].Index() == i && t.ledgers[i] == NextFull(t.ledgers[p], b) &&
      ValidBlock(t.ledgers[p], b, t.work) && WellFormed(t.ledgers[p]) && t.ledgers[p].chain != [] &&
      InLimits(t.ledgers[p]) && InLimits(t.ledgers[i]) && t.Chain(i) == t.Chain(p) + [i]
  {
    hide Compact, NextFull, ValidBlock, WellFormed, InLimits, Roomy, FullState.Index;
    assert t.Recorded(i) && t.Attached(i);
    assert t.Recorded(t.entries[i].block.header.ParentIndex());
    ParentChain(t, i);
    LedgerFits(t, i);
    LedgerFits(t, t.entries[i].block.header.ParentIndex());
  }

  lemma EntryIndex(t: Tree, i: ChainIndex)
    requires t.Valid() && i in t.entries
    ensures t.entries[i].block.header.Index() == i && i.id.BlockHash?
  {
    hide Compact, WellFormed, Tree.Attached;
    assert t.Recorded(i);
  }

  /** Above the branch point there is a parent to go back to. */
  lemma RebaseStep(t: Tree, from: ChainIndex, tip: ChainIndex, j: nat)
    requires t.Valid() && from in t.entries && tip in t.entries && t.Root() <= j < |t.Chain(from)|
    requires j < |t.Chain(tip)| ==> t.Chain(tip)[j] != t.Chain(from)[j]
    ensures j > t.Root() && t.Chain(from)[j] in t.entries && t.Chain(from)[j - 1] in t.entries
    ensures t.entries[t.Chain(from)[j]].block.header.ParentIndex() == t.Chain(from)[j - 1]
    ensures t.entries[t.Chain(from)[j - 1]].block.header.Index() == t.Chain(from)[j - 1] &&
      t.Chain(from)[j - 1].height == j - 1
    ensures t.Chain(from)[j - 1].id.BlockHash?
  {
    hide Compact, Tree.Recorded, Tree.Attached;
    ParentChain(t, from);
    ParentChain(t, tip);
    ParentChain(t, t.base);
    Ancestor(t, from, j);
    Ancestor(t, from, j - 1);
    EntryIndex(t, t.Chain(from)[j - 1]);
  }

  lemma BestSlice(chain: seq<ChainIndex>, i: ChainIndex, r: nat)
    requires r <= |chain|
    ensures (chain + [i])[r..] == chain[r..] + [i] && (chain[r..] + [i])[..|chain[r..]|] == chain[r..]
  {
  }

  ghost predicate NoneHeavier(entries: map<ChainIndex, Checkpoint>, s: State) {
    forall i :: i in entries ==> entries[i].state.totalWork <= s.totalWork
  }

  /** The steps of a way from one block to another over a third, and whether it could have been shorter. */
  ghost predicate Way(t: Tree, from: ChainIndex, over: ChainIndex, to: ChainIndex, steps: nat, shorter: bool) {
    steps == Detour(t.Chain(from), t.Chain(over), t.Chain(to)) >= Distance(t.Chain(from), t.Chain(to)) &&
    (steps == Distance(t.Chain(from), t.Chain(to)) <==> !shorter)
  }

  /** With a new heaviest candidate, the old tip decides. */
  lemma NewHeaviest(entries: map<ChainIndex, Checkpoint>, p: ChainIndex, c: Checkpoint, i: ChainIndex)
    requires p in entries && p != i && NoneHeavier(entries, entries[p].state)
    ensures NoneHeavier(entries[i := c], c.state) <==> entries[p].state.totalWork <= c.state.totalWork
  {
    assert entries[i := c][p] == entries[p];
  }

  class Manager {
    const work: Hash -> nat
    const store: EphemeralStore
    var cs: State
    var chains: seq<ScratchChain>
    var subscribers: seq<Subscriber>

    ghost const base: ChainIndex
    ghost var ledgers: map<ChainIndex, FullState>

    /** NewManager, over a store whose best list ends at the given state. */
    constructor (store: EphemeralStore, cs: State, work: Hash -> nat, ghost base: ChainIndex,
      ghost ledgers: map<ChainIndex, FullState>)
      requires Tree(store.entries, ledgers, base, work).Valid()
      requires cs.index in ledgers && cs == Compact(ledgers[cs.index])
      requires base in ledgers && 0 < |ledgers[base].chain| <= |ledgers[cs.index].chain|
      requires store.best == ledgers[cs.index].chain[|ledgers[base].chain| - 1..]
      ensures Valid() && this.store == store && this.cs == cs && this.work == work && this.base == base &&
        this.ledgers == ledgers
      ensures chains == [] && subscribers == []
    {
      hide Compact, Tree.Recorded, Tree.Attached;
      this.store, this.cs, this.work, this.base, this.ledgers := store, cs, work, base, ledgers;
      chains, subscribers := [], [];
      new;
      ParentChain(T(), cs.index);
    }

    ghost function T(): Tree
      reads this`ledgers, store`entries
    {
      Tree(store.entries, ledgers, base, work)
    }

    /** The tip is an entry, and the best list is its chain from the base on. */
    ghost predicate OnBest()
      reads this`cs, this`ledgers, store
    {
      T().Valid() && cs.index in ledgers && Settled()
    }

    ghost predicate Settled()
      requires T().Valid() && cs.index in ledgers
      reads this`cs, this`ledgers, store
    {
      cs == Compact(ledgers[cs.index]) && T().Root() <= |T().Chain(cs.index)| &&
      store.best == T().Chain(cs.index)[T().Root()..]
    }

    /** Every scratch chain stands on stored blocks. */
    ghost predicate ChainsHeld()
      reads this`chains, this`ledgers, store`entries, chains
    {
      (forall i, j :: 0 <= i < j < |chains| ==> chains[i] != chains[j]) &&
      forall i :: 0 <= i < |chains| ==> chains[i].Valid() && chains[i].Held(T())
    }

    /** Every scratch chain has made good on its headers so far. */
    ghost predicate ChainsIn()
      reads this`chains, this`ledgers, store`entries, chains
    {
      forall i :: 0 <= i < |chains| ==> chains[i].Valid() && chains[i].In(T())
    }

    ghost predicate Following()
      requires cs.index in ledgers
      reads this`subscribers, this`cs, this`ledgers, subscribers
    {
      At(subscribers, ledgers[cs.index])
    }

    ghost predicate Valid()
      reads this, store, chains, subscribers
    {
      OnBest() && ChainsHeld() && Following()
    }

    /** No stored checkpoint has more work than the tip. */
    ghost predicate Heaviest()
      reads this`cs, store`entries
    {
      NoneHeavier(store.entries, cs)
    }

    // -------------------------------------------------------------- single steps

    method RevertTip()
      requires OnBest() && Following() && cs.index != base
      modifies this`cs, store`best, subscribers
      ensures OnBest() && Following() && cs.index == store.entries[old(cs.index)].block.header.ParentIndex()
    {
      hide Compact, NextFull, ValidBlock, WellFormed, InLimits, Tree.Recorded, Tree.Attached, Tree.Chain, Tree.Root,
        At, RevertUpdate.Leads, FullState.Index;
      EntryStep(T(), cs.index);
      ParentChain(T(), store.entries[cs.index].block.header.ParentIndex());
      var b := store.GetCheckpoint(cs.index).value.block;
      var parent := store.GetCheckpoint(b.header.ParentIndex()).value.state;
      ghost var fs := ledgers[b.header.ParentIndex()];
      CompactParts(fs);
      var ru := Update.RevertBlock(parent, b, fs, work);
      NotifyRevert(subscribers, ru, b, fs);
      BestSlice(T().Chain(b.header.ParentIndex()), cs.index, T().Root());
      store.RewindBest();
      cs := parent;
    }

    /** applyTip: the tip moves to a stored child of it; for any other block nothing happens. */
    method ApplyTip(index: ChainIndex) returns (r: Move)
      requires OnBest() && Following()
      modifies this`cs, store`best, subscribers
      ensures OnBest() && Following()
      ensures r == Missing <==> index !in store.entries
      ensures r == Moved <==>
        index in store.entries && store.entries[index].block.header.ParentIndex() == old(cs.index)
      ensures r == Moved ==> cs.index == index && index != base
      ensures r != Moved ==> cs == old(cs) && store.best == old(store.best)
    {
      hide Compact, NextFull, ValidBlock, WellFormed, InLimits, Tree.Recorded, Tree.Attached, Tree.Chain, Tree.Root,
        At, ApplyUpdate.Leads, FullState.Index;
      var c := store.GetCheckpoint(index);
      if c.UnknownIndex? {
        return Missing;
      }
      var b := c.value.block;
      if b.header.ParentIndex() != cs.index {
        return Panic;
      }
      BaseHasNoParent(T());
      EntryStep(T(), index);
      ParentChain(T(), cs.index);
      ghost var fs := ledgers[cs.index];
      CompactParts(ledgers[index]);
      store.ExtendBest(index);
      BestSlice(T().Chain(cs.index), index, T().Root());
      var au := Update.ApplyBlock(cs, b, fs, work);
      UpdateState(au, fs, b);
      NotifyApply(subscribers, au, b, fs);
      cs := au.state;
      r := Moved;
    }

    // -------------------------------------------------------------- reorganisations

    /** Where the best list stands at a height. */
    lemma BestAt(height: nat)
      requires OnBest()
      ensures store.best != [] && store.best[|store.best| - 1].height == store.best[0].height + |store.best| - 1
      ensures store.BestIndex(height) ==
        if T().Root() <= height < |T().Chain(cs.index)| then Found(T().Chain(cs.index)[height]) else UnknownIndex
      ensures store.best[|store.best| - 1] == cs.index && |T().Chain(cs.index)| == cs.index.height + 1
    {
      hide Compact, Tree.Recorded, Tree.Attached;
      ParentChain(T(), cs.index);
      Ancestor(T(), cs.index, T().Root());
      Ancestor(T(), cs.index, cs.index.height);
    }

    /** From a chain's base back to the best chain: to the last block that the two have in common. */
    method Rebase(sc: ScratchChain) returns (rebase: seq<ChainIndex>, branch: ChainIndex)
      requires OnBest() && sc.base in store.entries
      ensures T().Root() <= branch.height < |T().Chain(sc.base)| && branch.height < |T().Chain(cs.index)|
      ensures branch == T().Chain(sc.base)[branch.height] == T().Chain(cs.index)[branch.height]
      ensures branch.height + 1 == Common(T().Chain(cs.index), T().Chain(sc.base))
      ensures rebase == Reversed(T().Chain(sc.base)[branch.height + 1..])
    {
      hide Compact, Tree.Recorded, Tree.Attached, Settled, EphemeralStore.BestIndex, Reversed, Tree.Chain, Tree.Root,
        Common;
      ghost var target, best := T().Chain(sc.base), T().Chain(cs.index);
      ghost var j := |target| - 1;
      rebase := [];
      ParentChain(T(), sc.base);
      ParentChain(T(), cs.index);
      EntryIndex(T(), sc.base);
      var header := store.GetHeader(sc.base).value;
      while true
        invariant T().Root() <= j < |target| && target[j] in store.entries
        invariant header == store.entries[target[j]].block.header && header.Index() == target[j]
        invariant target[j].height == j && target[j].id.BlockHash?
        invariant rebase == Reversed(target[j + 1..])
        invariant j + 1 < |target| && j + 1 < |best| ==> best[j + 1] != target[j + 1]
        decreases j
      {
        BestAt(header.height);
        var found := store.BestIndex(header.height);
        var index := if found.Found? then found.value else ChainIndex(0, ZeroHash);
        if index == header.Index() {
          break;
        }
        RebaseStep(T(), sc.base, cs.index, j);
        ReversedStep(target, j);
        rebase := rebase + [header.Index()];
        header := store.GetHeader(header.ParentIndex()).value;
        j := j - 1;
      }
      branch := header.Index();
      MeetBelow(T(), cs.index, sc.base, j);
      NotBeyond(best, target, j + 1);
    }

    /**
      reorgTo: the tip moves to the last validated block of the chain, exactly
      if that block and those below it are the headers'.  Otherwise it follows
      the headers for as long as they are stored as one chain, and ends with an
      error exactly if the next one is not stored; if it is stored elsewhere,
      or there is none, the program stops.

      It goes back to the last block that the chain's base shares with the best
      chain, which is the shortest way exactly when the chain's own first block
      is not on the best chain.
     */
    method ReorgTo(sc: ScratchChain) returns (r: Move, ghost steps: nat)
      requires OnBest() && Following() && sc.Valid() && sc.Held(T())
      modifies this`cs, store`best, subscribers
      ensures OnBest() && Following() && (r == Moved <==> cs.index == sc.ts.index)
      ensures r == Moved <==> sc.Along(T())
      ensures r == Missing <==> !sc.Along(T()) && LeavesOff(T(), sc.base, sc.headers)
      ensures r == Moved ==> Way(T(), old(cs.index), sc.base, sc.ts.index, steps, OnList(sc, old(store.best)))
    {
      hide Compact, Tree.Recorded, Tree.Attached, Settled, At, ScratchChain.Valid, ScratchChain.Along, Tree.Chain,
        Tree.Root, Common, Distance, OnList;
      var rebase, branch := Rebase(sc);
      ghost var t, best, base, to := T(), T().Chain(cs.index), T().Chain(sc.base), T().Chain(sc.ts.index);
      if sc.Along(t) {
        DetourOf(sc);
      }
      Ancestor(t, sc.base, branch.height);
      Ancestor(t, cs.index, branch.height);
      ParentChain(t, sc.base);
      // go back to where the two chains part
      ghost var down := RevertTo(branch);
      // and up again, first to the scratch chain's base, then along its headers
      ghost var up;
      assert base[..branch.height + 1] <= base;
      r, up := ApplyTo(sc, rebase);
      steps := down + up;
    }

    /** The chain's first block is validated, and is on a list. */
    ghost predicate OnList(sc: ScratchChain, best: seq<ChainIndex>)
      reads sc
    {
      sc.ts.index != sc.base && sc.headers != [] && sc.headers[0].Index() in best
    }

    /** How long the way over the base of a scratch chain is. */
    lemma DetourOf(sc: ScratchChain)
      requires OnBest() && sc.Valid() && sc.Held(T()) && sc.Along(T())
      ensures var best, base, to := T().Chain(cs.index), T().Chain(sc.base), T().Chain(sc.ts.index);
        base <= to && Detour(best, base, to) >= Distance(best, to) &&
        (Detour(best, base, to) == Distance(best, to) <==> !OnList(sc, store.best))
    {
      hide Compact, Tree.Recorded, Tree.Attached, ValidHeaders, AfterHeaders, SameHeaders, Distance, Common, Tree.Chain,
        Tree.Root, Detour;
      BaseBelow(sc);
      DetourLength(T().Chain(cs.index), T().Chain(sc.base), T().Chain(sc.ts.index));
      ParentChain(T(), sc.base);
      ParentChain(T(), sc.ts.index);
      if T().Chain(sc.base) != T().Chain(sc.ts.index) {
        FirstHeader(sc);
        AboveBase(T(), cs.index, sc.base, sc.ts.index);
      }
    }

    /** The first block of a scratch chain, if it is validated, is the one above the base. */
    lemma FirstHeader(sc: ScratchChain)
      requires sc.Valid() && sc.Held(T()) && sc.Along(T()) && T().Chain(sc.base) != T().Chain(sc.ts.index)
      ensures var base, to := T().Chain(sc.base), T().Chain(sc.ts.index);
        base <= to && |base| < |to| && sc.headers != [] && to[|base|] == sc.headers[0].Index()
    {
      hide Compact, Tree.Recorded, Tree.Attached, ValidHeaders, AfterHeaders, SameHeaders;
      var done := Indices(sc.headers[..sc.Done()]);
      assert T().Chain(sc.ts.index) == T().Chain(sc.base) + done;
      assert done != [] && done[0] == sc.headers[0].Index();
    }

    method RevertTo(branch: ChainIndex) returns (ghost steps: nat)
      requires OnBest() && Following()
      requires T().Root() <= branch.height < |T().Chain(cs.index)| && branch == T().Chain(cs.index)[branch.height]
      modifies this`cs, store`best, subscribers
      ensures OnBest() && Following() && cs.index == branch
      ensures steps + branch.height + 1 == |T().Chain(old(cs.index))|
    {
      hide Compact, Tree.Recorded, Tree.Attached, Settled, At;
      ParentChain(T(), cs.index);
      steps := 0;
      while cs.index != branch
        invariant OnBest() && Following()
        invariant branch.height < |T().Chain(cs.index)| && branch == T().Chain(cs.index)[branch.height]
        invariant steps + |T().Chain(cs.index)| == |T().Chain(old(cs.index))|
        decreases cs.index.height
      {
        ParentChain(T(), cs.index);
        RevertTip();
        steps := steps + 1;
      }
      ParentChain(T(), cs.index);
    }

    /** At block i, the rest of the way up to a chain's base is still to go, highest block first. */
    ghost predicate Rebasing(sc: ScratchChain, i: ChainIndex, rebase: seq<ChainIndex>)
      reads this`ledgers, store`entries
    {
      var from := T().Chain(sc.base);
      if i.height < |from| then T().Chain(i) <= from && rebase == Reversed(from[i.height + 1..]) else rebase == []
    }

    /** The block after the tip: on the way up to the chain's base, or by its headers, as long as there are any. */
    method NextBlock(sc: ScratchChain, rebase: seq<ChainIndex>)
      returns (ok: bool, next: ChainIndex, rest: seq<ChainIndex>)
      requires OnBest() && sc.Valid() && sc.Held(T()) && Rebasing(sc, cs.index, rebase)
      ensures ok ==> next.height == cs.index.height + 1 <= sc.base.height + |sc.headers| && Rebasing(sc, next, rest)
      ensures ok && next.height > sc.base.height ==> next == sc.headers[next.height - sc.base.height - 1].Index()
      ensures ok && next.height <= sc.base.height ==>
        next in store.entries && store.entries[next].block.header.ParentIndex() == cs.index
      ensures !ok ==> cs.index.height >= sc.base.height + |sc.headers|
      ensures sc.Along(T()) && T().Chain(cs.index) <= T().Chain(sc.ts.index) && cs.index != sc.ts.index ==>
        ok && next in store.entries && store.entries[next].block.header.ParentIndex() == cs.index &&
        T().Chain(next) <= T().Chain(sc.ts.index)
    {
      hide Compact, Tree.Recorded, Tree.Attached, Settled, ScratchChain.Valid, ScratchChain.Along, Rebasing, Tree.Chain,
        Tree.Root;
      HeightOfTip(sc);
      if |rebase| > 0 {
        NextRebase(sc, rebase);
        if sc.Along(T()) {
          BaseBelow(sc);
        }
        return true, rebase[|rebase| - 1], rebase[..|rebase| - 1];
      }
      if cs.index.height + 1 > sc.Tip().height {
        PastTip(sc);
        return false, cs.index, [];
      }
      PastBase(sc);
      next := sc.Index(cs.index.height + 1);
      NextHeader(sc);
      return true, next, [];
    }

    lemma HeightOfTip(sc: ScratchChain)
      requires sc.Valid()
      ensures sc.Tip().height == sc.base.height + |sc.headers|
    {
      hide ValidHeaders, AfterHeaders;
      sc.TipHeight();
    }

    /** On the way up to the base. */
    lemma NextRebase(sc: ScratchChain, rebase: seq<ChainIndex>)
      requires OnBest() && sc.base in store.entries && rebase != [] && Rebasing(sc, cs.index, rebase)
      ensures var next := rebase[|rebase| - 1];
        next.height == cs.index.height + 1 <= sc.base.height && Rebasing(sc, next, rebase[..|rebase| - 1]) &&
        next in store.entries && store.entries[next].block.header.ParentIndex() == cs.index
      ensures T().Chain(rebase[|rebase| - 1]) <= T().Chain(sc.base)
    {
      hide Compact, Tree.Recorded, Tree.Attached, Settled, ValidHeaders, AfterHeaders, SameHeaders, Indices, Reversed,
        Tree.Chain, Tree.Root;
      ParentChain(T(), cs.index);
      ParentChain(T(), sc.base);
      NextOnPath(T(), cs.index, sc.base);
      ReversedStep(T().Chain(sc.base), cs.index.height + 1);
    }

    lemma PastBase(sc: ScratchChain)
      requires OnBest() && sc.base in store.entries && Rebasing(sc, cs.index, [])
      ensures cs.index.height >= sc.base.height
    {
      hide Compact, Tree.Recorded, Tree.Attached, Settled;
      ParentChain(T(), cs.index);
      ParentChain(T(), sc.base);
    }

    /** While blocks of a chain that is in order are missing, there are headers left. */
    lemma PastTip(sc: ScratchChain)
      requires OnBest() && sc.Valid() && sc.Held(T()) && cs.index.height + 1 > sc.base.height + |sc.headers|
      ensures !(sc.Along(T()) && T().Chain(cs.index) <= T().Chain(sc.ts.index) && cs.index != sc.ts.index)
    {
      hide Compact, Tree.Recorded, Tree.Attached, Settled, ValidHeaders, AfterHeaders, SameHeaders, Indices,
        Tree.Root, Tree.Chain;
      ParentChain(T(), cs.index);
      ParentChain(T(), sc.base);
      if sc.Along(T()) && T().Chain(cs.index) <= T().Chain(sc.ts.index) && cs.index != sc.ts.index {
        NextOnPath(T(), cs.index, sc.ts.index);
        BaseBelow(sc);
      }
    }

    /** Along the headers. */
    lemma NextHeader(sc: ScratchChain)
      requires OnBest() && sc.Valid() && sc.Held(T()) &&
        sc.base.height <= cs.index.height < sc.base.height + |sc.headers|
      ensures var next := sc.headers[cs.index.height - sc.base.height].Index();
        next.height == cs.index.height + 1 && Rebasing(sc, next, []) &&
        (sc.Along(T()) && T().Chain(cs.index) <= T().Chain(sc.ts.index) && cs.index != sc.ts.index ==>
         next in store.entries && store.entries[next].block.header.ParentIndex() == cs.index &&
         T().Chain(next) <= T().Chain(sc.ts.index))
    {
      hide Compact, Tree.Recorded, Tree.Attached, Settled, ValidHeaders, AfterHeaders, SameHeaders, Indices, Tree.Root,
        Tree.Chain, Validated;
      HeaderHeight(sc, cs.index.height + 1);
      ParentChain(T(), sc.base);
      if sc.Along(T()) && T().Chain(cs.index) <= T().Chain(sc.ts.index) && cs.index != sc.ts.index {
        NextOnPath(T(), cs.index, sc.ts.index);
        HeaderOnPath(sc, cs.index.height + 1);
      }
    }

    /** Block i is on the way up to the chain's base, or on the chain of its headers. */
    ghost predicate OnTrack(sc: ScratchChain, i: ChainIndex)
      reads this`ledgers, store`entries, sc
    {
      var from := T().Chain(sc.base);
      if i.height <= sc.base.height then T().Chain(i) <= from
      else if i.height > sc.base.height + |sc.headers| then false
      else T().Chain(i) == from + Indices(sc.headers[..i.height - sc.base.height])
    }

    lemma TrackStart(sc: ScratchChain, rebase: seq<ChainIndex>)
      requires OnBest() && sc.Held(T()) && Rebasing(sc, cs.index, rebase) && cs.index.height <= sc.base.height
      ensures OnTrack(sc, cs.index)
    {
      hide Compact, Tree.Recorded, Tree.Attached, Settled, Indices;
      ParentChain(T(), sc.base);
    }

    lemma TrackStep(sc: ScratchChain, i: ChainIndex, next: ChainIndex, rebase: seq<ChainIndex>)
      requires T().Valid() && sc.Held(T()) && i in store.entries && OnTrack(sc, i) && Rebasing(sc, next, rebase)
      requires next in store.entries && next != base && store.entries[next].block.header.ParentIndex() == i
      requires next.height == i.height + 1 <= sc.base.height + |sc.headers|
      requires next.height > sc.base.height ==> next == sc.headers[next.height - sc.base.height - 1].Index()
      ensures OnTrack(sc, next)
    {
      hide Compact, Tree.Recorded, Tree.Attached, Reversed;
      ParentChain(T(), next);
      ParentChain(T(), i);
      ParentChain(T(), sc.base);
      if next.height > sc.base.height {
        var k := next.height - sc.base.height;
        assert sc.headers[..k] == sc.headers[..k - 1] + [sc.headers[k - 1]];
        assert Indices(sc.headers[..k]) == Indices(sc.headers[..k - 1]) + [next];
      }
    }

    /** On the track, the chain's valid tip can only be reached if it is the headers'. */
    lemma TrackEnd(sc: ScratchChain)
      requires T().Valid() && sc.Valid() && sc.Held(T()) && OnTrack(sc, sc.ts.index)
      ensures sc.Along(T())
    {
      hide Compact, Tree.Recorded, Tree.Attached, AfterHeaders, ValidHeaders, Indices;
      ParentChain(T(), sc.ts.index);
      ParentChain(T(), sc.base);
      if sc.ts.index.height == sc.base.height {
        assert T().Chain(sc.ts.index) == T().Chain(sc.base);
        assert Indices(sc.headers[..0]) == [];
      }
    }

    /**
      Follows the path that Rebase found, then the scratch chain, as far as its
      blocks are stored and fit.
     */
    method ApplyTo(sc: ScratchChain, path: seq<ChainIndex>) returns (r: Move, ghost steps: nat)
      requires OnBest() && Following() && sc.Valid() && sc.Held(T()) && Rebasing(sc, cs.index, path)
      requires cs.index.height <= sc.base.height
      modifies this`cs, store`best, subscribers
      ensures OnBest() && Following() && (r == Moved <==> cs.index == sc.ts.index)
      ensures r == Moved <==> sc.Along(T())
      ensures r == Missing <==> !sc.Along(T()) && LeavesOff(T(), sc.base, sc.headers)
      ensures r == Moved ==> steps + |old(T().Chain(cs.index))| == |T().Chain(sc.ts.index)|
    {
      hide Compact, Tree.Recorded, Tree.Attached, Settled, At, ScratchChain.Valid, ScratchChain.Held,
        ScratchChain.Along, Rebasing, Tree.Chain, Tree.Root, OnTrack;
      var rebase := path;
      ghost var t, start, to := T(), T().Chain(cs.index), T().Chain(sc.ts.index);
      ParentChain(t, cs.index);
      TrackStart(sc, path);
      if sc.Along(t) {
        StartsBelow(sc, path);
      }
      steps := 0;
      while cs.index != sc.ValidTip()
        invariant T() == t && OnBest() && Following() && Rebasing(sc, cs.index, rebase) && OnTrack(sc, cs.index)
        invariant |t.Chain(cs.index)| == cs.index.height + 1 == |start| + steps
        invariant cs.index.height <= sc.base.height + |sc.headers|
        invariant sc.Along(t) ==> t.Chain(cs.index) <= to
        decreases sc.base.height + |sc.headers| - cs.index.height
      {
        var ok, next;
        ghost var i := cs.index;
        ok, next, rebase := NextBlock(sc, rebase);
        if !ok {
          NothingFollows(sc);
          return Panic, steps;
        }
        r := ApplyTip(next);
        if r != Moved {
          NextFollows(sc);
          return;
        }
        TrackStep(sc, i, next, rebase);
        ParentChain(t, cs.index);
        steps := steps + 1;
      }
      TrackEnd(sc);
      r := Moved;
    }

    /** On the track, above the chain's base: the headers up to here are stored as one chain. */
    lemma TrackFollows(sc: ScratchChain, k: nat)
      requires OnBest() && sc.Valid() && sc.Held(T()) && OnTrack(sc, cs.index)
      requires sc.base.height <= cs.index.height && k <= cs.index.height - sc.base.height
      ensures k <= |sc.headers| && (k > 0 ==> sc.headers[k - 1].Index() in store.entries)
      ensures Follows(T(), sc.base, sc.headers, k)
      ensures k == cs.index.height - sc.base.height > 0 ==> cs.index == sc.headers[k - 1].Index()
      ensures cs.index.height == sc.base.height ==> cs.index == sc.base
    {
      hide Compact, Tree.Recorded, Tree.Attached, Settled, AfterHeaders, ValidHeaders, Tree.Root;
      ParentChain(T(), sc.base);
      ParentChain(T(), cs.index);
      var n := cs.index.height - sc.base.height;
      var from, here := T().Chain(sc.base), T().Chain(cs.index);
      if k > 0 {
        Ancestor(T(), cs.index, sc.base.height + k);
        assert here[..sc.base.height + k + 1] == from + Indices(sc.headers[..k]);
        assert here[sc.base.height + k] == sc.headers[k - 1].Index();
      }
    }

    /** Past the last header. */
    lemma NothingFollows(sc: ScratchChain)
      requires OnBest() && sc.Valid() && sc.Held(T()) && OnTrack(sc, cs.index)
      requires cs.index.height == sc.base.height + |sc.headers|
      ensures !LeavesOff(T(), sc.base, sc.headers)
    {
      hide OnBest, ScratchChain.Valid, ScratchChain.Held, OnTrack, Follows;
      forall k | 0 <= k < |sc.headers|
        ensures sc.headers[k].Index() in store.entries
      {
        TrackFollows(sc, k + 1);
      }
    }

    /** Where the next header is not a child of the tip. */
    lemma NextFollows(sc: ScratchChain)
      requires OnBest() && sc.Valid() && sc.Held(T()) && OnTrack(sc, cs.index)
      requires sc.base.height <= cs.index.height < sc.base.height + |sc.headers|
      ensures var next := sc.headers[cs.index.height - sc.base.height].Index();
        (next !in store.entries ==> LeavesOff(T(), sc.base, sc.headers)) &&
        (next in store.entries && store.entries[next].block.header.ParentIndex() != cs.index ==>
         !LeavesOff(T(), sc.base, sc.headers))
    {
      hide OnBest, ScratchChain.Valid, ScratchChain.Held, OnTrack, Follows;
      var n := cs.index.height - sc.base.height;
      var next := sc.headers[n].Index();
      TrackFollows(sc, n);
      if next in store.entries && store.entries[next].block.header.ParentIndex() != cs.index {
        forall k | 0 <= k < |sc.headers| && sc.headers[k].Index() !in store.entries
          ensures !Follows(T(), sc.base, sc.headers, k)
        {
          if k < n {
            TrackFollows(sc, k + 1);
          } else if Follows(T(), sc.base, sc.headers, k) {
            NextIsChild(sc, k);
            assert false;
          }
        }
      }
    }

    /** If the headers are stored as one chain beyond the tip, the next one is its child. */
    lemma NextIsChild(sc: ScratchChain, k: nat)
      requires OnBest() && sc.Valid() && sc.Held(T()) && OnTrack(sc, cs.index)
      requires sc.base.height <= cs.index.height && cs.index.height - sc.base.height < k <= |sc.headers|
      requires Follows(T(), sc.base, sc.headers, k)
      ensures var next := sc.headers[cs.index.height - sc.base.height].Index();
        next in store.entries && store.entries[next].block.header.ParentIndex() == cs.index
    {
      hide Compact, Tree.Recorded, Tree.Attached, Settled, AfterHeaders, ValidHeaders, OnTrack, Tree.Root, Tree.Chain;
      var n := cs.index.height - sc.base.height;
      TrackFollows(sc, n);
      ParentChain(T(), sc.base);
      var chain, h := T().Chain(sc.headers[k - 1].Index()), sc.base.height + n;
      Ancestor(T(), sc.headers[k - 1].Index(), h + 1);
      assert chain[h + 1] == sc.headers[n].Index();
      assert chain[h] == cs.index;
    }

    lemma StartsBelow(sc: ScratchChain, path: seq<ChainIndex>)
      requires OnBest() && sc.Valid() && sc.Held(T()) && sc.Along(T()) && Rebasing(sc, cs.index, path)
      requires cs.index.height <= sc.base.height
      ensures T().Chain(cs.index) <= T().Chain(sc.ts.index)
    {
      hide Compact, Tree.Recorded, Tree.Attached, Settled, AfterHeaders, ValidHeaders, Indices, Reversed;
      ParentChain(T(), sc.base);
    }

    lemma BaseBelow(sc: ScratchChain)
      requires sc.Valid() && sc.Along(T())
      ensures T().Chain(sc.base) <= T().Chain(sc.ts.index)
      ensures |T().Chain(sc.ts.index)| <= |T().Chain(sc.base)| + |sc.headers|
    {
      hide Compact, Tree.Valid, AfterHeaders, SameHeaders, ValidHeaders;
    }

    lemma HeaderHeight(sc: ScratchChain, h: nat)
      requires sc.Valid() && sc.base.height < h <= sc.base.height + |sc.headers|
      ensures sc.headers[h - sc.base.height - 1].Index().height == h
    {
      hide AfterHeaders, ValidHeaders;
      sc.HeaderHeights();
      assert Indices(sc.headers)[h - sc.base.height - 1].height == h;
    }

    lemma HeaderOnPath(sc: ScratchChain, h: nat)
      requires sc.Valid() && sc.Held(T()) && sc.Along(T()) && |T().Chain(sc.base)| <= h < |T().Chain(sc.ts.index)|
      ensures sc.base.height + 1 == |T().Chain(sc.base)|
      ensures h - sc.base.height - 1 < |sc.headers| &&
        T().Chain(sc.ts.index)[h] == sc.headers[h - sc.base.height - 1].Index()
    {
      hide Compact, Tree.Recorded, Tree.Attached, AfterHeaders, ValidHeaders, SameHeaders;
      ParentChain(T(), sc.base);
    }

    // -------------------------------------------------------------- one subscriber, one element

    ghost predicate Stands(s: Subscriber, i: ChainIndex)
      reads this`ledgers, s
    {
      i in ledgers && s.tip == i && s.ledger == ledgers[i]
    }

    /** One revert of AddSubscriber; it fails only at the base, whose parent is not stored. */
    method RevertFor(s: Subscriber, index: ChainIndex) returns (ok: bool)
      requires T().Valid() && Stands(s, index)
      modifies s
      ensures ok <==> index != base
      ensures ok ==> Stands(s, store.entries[index].block.header.ParentIndex())
      ensures !ok ==> Stands(s, index)
    {
      hide Compact, NextFull, ValidBlock, WellFormed, InLimits, Tree.Recorded, Tree.Attached, RevertUpdate.Leads,
        FullState.Index;
      BaseHasNoParent(T());
      var b := store.GetCheckpoint(index).value.block;
      var c := store.GetCheckpoint(b.header.ParentIndex());
      if c.UnknownIndex? {
        ParentChain(T(), index);
        return false;
      }
      EntryStep(T(), index);
      ghost var fs := ledgers[b.header.ParentIndex()];
      var ru := Update.RevertBlock(c.value.state, b, fs, work);
      s.ProcessChainRevertUpdate(ru, b, fs);
      return true;
    }

    /** One apply of AddSubscriber; it fails only at the base. */
    method ApplyFor(s: Subscriber, index: ChainIndex) returns (ok: bool)
      requires T().Valid() && index in store.entries
      requires index != base ==> Stands(s, store.entries[index].block.header.ParentIndex())
      modifies s
      ensures ok <==> index != base
      ensures ok ==> Stands(s, index)
      ensures !ok ==> s.tip == old(s.tip) && s.ledger == old(s.ledger)
    {
      hide Compact, NextFull, ValidBlock, WellFormed, InLimits, Tree.Recorded, Tree.Attached, ApplyUpdate.Leads,
        FullState.Index;
      BaseHasNoParent(T());
      var b := store.GetCheckpoint(index).value.block;
      var c := store.GetCheckpoint(b.header.ParentIndex());
      if c.UnknownIndex? {
        ParentChain(T(), index);
        return false;
      }
      EntryStep(T(), index);
      ghost var fs := ledgers[b.header.ParentIndex()];
      var au := Update.ApplyBlock(c.value.state, b, fs, work);
      s.ProcessChainApplyUpdate(au, b);
      return true;
    }

    /**
      AddSubscriber brings a subscriber from any stored index to the tip, and
      fails, without touching it, for an index that is not stored.  Everything
      stays right exactly unless it had been subscribed already: then it would
      be notified twice of every block.
     */
    method AddSubscriber(s: Subscriber, tip: ChainIndex) returns (ok: bool)
      requires Valid() && (tip in store.entries ==> Stands(s, tip))
      modifies this`subscribers, s
      ensures OnBest() && ChainsHeld() && (ok <==> tip in store.entries)
      ensures Valid() <==> !(ok && s in old(subscribers))
      ensures subscribers == if ok then old(subscribers) + [s] else old(subscribers)
      ensures !ok ==> s.tip == old(s.tip) && s.ledger == old(s.ledger)
    {
      hide Compact, Tree.Recorded, Tree.Attached, Reversed, Common, Settled, ScratchChain.Valid, ScratchChain.In,
        FullState.Index, Shortcut, Outside, Tree.Chain, Tree.Root, At;
      var path := FindPath(store, tip, cs.index, T());
      if path.NoPath? {
        return false;
      }
      ghost var k := Common(T().Chain(tip), T().Chain(cs.index));
      PathShape(T(), tip, cs.index, path);
      ok := RevertAll(s, path.revert, tip, k);
      ok := ApplyAll(s, path.apply, cs.index, k);
      StillFollowing(s);
      if !ok {
        return;
      }
      Join(s);
    }

    /** Bringing one subscriber to the tip leaves the others there. */
    twostate lemma StillFollowing(s: Subscriber)
      requires old(OnBest()) && old(Following()) && OnBest() && cs == old(cs) && ledgers == old(ledgers)
      requires subscribers == old(subscribers)
      requires forall i :: 0 <= i < |subscribers| && subscribers[i] != s ==> unchanged(subscribers[i])
      requires Stands(s, cs.index) || (s.tip == old(s.tip) && s.ledger == old(s.ledger))
      ensures Following()
    {
      hide Compact, Tree.Recorded, Tree.Attached, Settled, FullState.Index;
      LedgerIndex(cs.index);
    }

    method Join(s: Subscriber)
      requires OnBest() && Following() && Stands(s, cs.index)
      modifies this`subscribers
      ensures subscribers == old(subscribers) + [s] && (Following() <==> s !in old(subscribers))
    {
      hide Compact, Tree.Recorded, Tree.Attached, Settled, FullState.Index;
      LedgerIndex(cs.index);
      subscribers := subscribers + [s];
      if s in old(subscribers) {
        var i :| 0 <= i < |old(subscribers)| && old(subscribers)[i] == s;
        assert subscribers[i] == subscribers[|subscribers| - 1];
      }
    }

    lemma LedgerIndex(i: ChainIndex)
      requires T().Valid() && i in ledgers
      ensures ledgers[i].Index() == i
    {
      hide Compact, WellFormed, Roomy, Tree.Attached;
      assert T().Recorded(i);
    }

    method RevertAll(s: Subscriber, path: seq<ChainIndex>, ghost from: ChainIndex, ghost k: nat) returns (ok: bool)
      requires T().Valid()
      requires from !in store.entries ==> path == []
      requires from in store.entries ==>
        Stands(s, from) && T().Root() < k && IsDown(T(), from, k, path)
      modifies s
      ensures ok
      ensures from !in store.entries ==> s.tip == old(s.tip) && s.ledger == old(s.ledger)
      ensures from in store.entries ==> Stands(s, BlockAt(T(), from, k - 1))
    {
      hide Compact, Tree.Recorded, Tree.Attached, Reversed, Stands;
      ghost var chain := T().Chain(from);
      if from in store.entries {
        ParentChain(T(), from);
      }
      for i := 0 to |path|
        invariant from !in store.entries ==> s.tip == old(s.tip) && s.ledger == old(s.ledger)
        invariant from in store.entries ==> Stands(s, chain[|chain| - 1 - i])
      {
        RevertOnPath(T(), from, k, path, i);
        ok := RevertFor(s, path[i]);
        if !ok {
          return;
        }
      }
      ok := true;
    }

    method ApplyAll(s: Subscriber, path: seq<ChainIndex>, ghost to: ChainIndex, ghost k: nat) returns (ok: bool)
      requires T().Valid() && to in store.entries
      requires (path != [] && path[0] == base) ||
               (IsUp(T(), to, k, path) && Stands(s, BlockAt(T(), to, k - 1)))
      modifies s
      ensures ok <==> !(path != [] && path[0] == base)
      ensures ok ==> Stands(s, to)
      ensures !ok ==> s.tip == old(s.tip) && s.ledger == old(s.ledger)
    {
      hide Compact, Tree.Recorded, Tree.Attached, Stands;
      ghost var chain := T().Chain(to);
      ParentChain(T(), to);
      NotBaseAbove(T(), to, k);
      for i := 0 to |path|
        invariant path != [] && path[0] == base ==> i == 0 && s.tip == old(s.tip) && s.ledger == old(s.ledger)
        invariant !(path != [] && path[0] == base) ==> Stands(s, chain[k - 1 + i])
      {
        if path[0] != base {
          Ancestor(T(), to, k + i);
        }
        ok := ApplyFor(s, path[i]);
        if !ok {
          return;
        }
      }
      ok := true;
    }

    /** The element's proof is its path in the ledger of index i. */
    ghost predicate ProvedAt(e: ElementRef, i: ChainIndex)
      reads this`ledgers, e
    {
      i in ledgers && e.ProvedIn(ledgers[i].Leaves())
    }

    /** The ledger of index i has an element at the position. */
    ghost predicate Exists(leafIndex: nat, i: ChainIndex)
      reads this`ledgers
    {
      i in ledgers && leafIndex < |ledgers[i].elements|
    }

    method RevertElement(e: ElementRef, index: ChainIndex) returns (ok: bool)
      requires T().Valid() && ProvedAt(e, index)
      modifies e
      ensures var p := store.entries[index].block.header.ParentIndex();
        (ok <==> Exists(e.element.leafIndex, p)) && (ok ==> ProvedAt(e, p))
      ensures e.element == old(e.element).(merkleProof := e.element.merkleProof)
    {
      hide Compact, NextFull, ValidBlock, WellFormed, InLimits, Tree.Recorded, Tree.Attached, FullState.Index,
        ElementRef.ProvedIn;
      BaseHasNoParent(T());
      var b := store.GetCheckpoint(index).value.block;
      var c := store.GetCheckpoint(b.header.ParentIndex());
      if c.UnknownIndex? {
        return false;
      }
      EntryStep(T(), index);
      ghost var fs := ledgers[b.header.ParentIndex()];
      var ru := Update.RevertBlock(c.value.state, b, fs, work);
      RevertLeaves(ru, fs, b);
      if e.element.leafIndex >= ru.state.elements.numLeaves {
        return false;
      }
      CarryBack(e, ru, fs, b);
      return true;
    }

    method ApplyElement(e: ElementRef, index: ChainIndex) returns (ok: bool)
      requires T().Valid() && index in store.entries
      requires index != base ==> ProvedAt(e, store.entries[index].block.header.ParentIndex())
      modifies e
      ensures (ok <==> index != base) && (ok ==> ProvedAt(e, index))
      ensures e.element == old(e.element).(merkleProof := e.element.merkleProof)
    {
      hide Compact, NextFull, ValidBlock, WellFormed, InLimits, Tree.Recorded, Tree.Attached, FullState.Index,
        ElementRef.ProvedIn;
      BaseHasNoParent(T());
      var b := store.GetCheckpoint(index).value.block;
      var c := store.GetCheckpoint(b.header.ParentIndex());
      if c.UnknownIndex? {
        ParentChain(T(), index);
        return false;
      }
      EntryStep(T(), index);
      ghost var fs := ledgers[b.header.ParentIndex()];
      var au := Update.ApplyBlock(c.value.state, b, fs, work);
      CarryForward(e, au, fs, b);
      return true;
    }

    method RevertElements(e: ElementRef, path: seq<ChainIndex>, ghost from: ChainIndex, ghost k: nat) returns (ok: bool)
      requires T().Valid()
      requires path == [] || (ProvedAt(e, from) && IsDown(T(), from, k, path))
      modifies e
      ensures e.element == old(e.element).(merkleProof := e.element.merkleProof)
      ensures path == [] ==> ok && e.element == old(e.element) && (old(ProvedAt(e, from)) ==> ProvedAt(e, from))
      ensures path != [] ==>
        (ok <==> k > T().Root() && Exists(e.element.leafIndex, BlockAt(T(), from, k - 1)))
      ensures ok && path != [] ==> ProvedAt(e, BlockAt(T(), from, k - 1))
    {
      hide Compact, Tree.Recorded, Tree.Attached, Reversed, ProvedAt;
      ghost var chain := T().Chain(from);
      if path != [] {
        ProvedIsStored(e, from);
        ParentChain(T(), from);
      }
      for i := 0 to |path|
        invariant e.element == old(e.element).(merkleProof := e.element.merkleProof)
        invariant path == [] ==> e.element == old(e.element) && (old(ProvedAt(e, from)) ==> ProvedAt(e, from))
        invariant path != [] ==> |chain| - 1 - i >= T().Root() && ProvedAt(e, chain[|chain| - 1 - i])
      {
        RevertOnPath(T(), from, k, path, i);
        ok := RevertElement(e, path[i]);
        if !ok {
          NotBelow(from, k, path, i, e.element.leafIndex);
          return;
        }
        ParentIsStored(path[i]);
      }
      if path != [] {
        ProvedIsStored(e, chain[k - 1]);
      }
      ok := true;
    }

    lemma ProvedIsStored(e: ElementRef, i: ChainIndex)
      requires T().Valid() && ProvedAt(e, i)
      ensures i in store.entries && e.element.leafIndex < |ledgers[i].elements|
    {
      hide Compact, Tree.Recorded, Tree.Attached, LeafPath;
    }

    lemma ParentIsStored(i: ChainIndex)
      requires T().Valid() && i in store.entries && store.entries[i].block.header.ParentIndex() in ledgers
      ensures i != base
    {
      hide Compact, Tree.Recorded, Tree.Attached;
      BaseHasNoParent(T());
    }

    /** Where reverting fails, the element is missing at the end of the path too. */
    lemma NotBelow(from: ChainIndex, k: nat, path: seq<ChainIndex>, i: nat, leafIndex: nat)
      requires T().Valid() && IsDown(T(), from, k, path) && i < |path| && path[i] in store.entries
      requires !Exists(leafIndex, store.entries[path[i]].block.header.ParentIndex())
      ensures k > T().Root() ==> !Exists(leafIndex, BlockAt(T(), from, k - 1))
    {
      hide Compact, Tree.Recorded, Tree.Attached, Reversed, Tree.Chain;
      RevertOnPath(T(), from, k, path, i);
      var chain := T().Chain(from);
      if k > T().Root() {
        Ancestor(T(), from, k - 1);
        Ancestor(T(), from, |chain| - 2 - i);
        ElementsOnlyGrow(T(), from, k - 1, |chain| - 2 - i);
      }
    }

    method ApplyElements(e: ElementRef, path: seq<ChainIndex>, ghost to: ChainIndex, ghost k: nat) returns (ok: bool)
      requires T().Valid()
      requires path == [] || path[0] == base ||
        (IsUp(T(), to, k, path) && ProvedAt(e, BlockAt(T(), to, k - 1)))
      modifies e
      ensures e.element == old(e.element).(merkleProof := e.element.merkleProof)
      ensures path == [] ==> ok && e.element == old(e.element) && (old(ProvedAt(e, to)) ==> ProvedAt(e, to))
      ensures path != [] ==> (ok <==> path[0] != base) && (ok ==> ProvedAt(e, to))
    {
      hide Compact, Tree.Recorded, Tree.Attached, ProvedAt;
      ghost var chain := T().Chain(to);
      if path != [] && path[0] != base {
        ParentChain(T(), to);
      }
      for i := 0 to |path|
        invariant e.element == old(e.element).(merkleProof := e.element.merkleProof)
        invariant path == [] ==> e.element == old(e.element) && (old(ProvedAt(e, to)) ==> ProvedAt(e, to))
        invariant path != [] && path[0] == base ==> i == 0
        invariant path != [] && path[0] != base ==> ProvedAt(e, chain[k - 1 + i])
      {
        if path[0] != base {
          Ancestor(T(), to, k + i);
          AboveRoot(T(), path[i]);
        }
        ok := ApplyElement(e, path[i]);
        if !ok {
          return;
        }
      }
      ok := true;
    }

    /**
      UpdateElementProof moves a proof along any path between stored blocks.
      It succeeds just when the element exists at their last common block, and
      then the proof is right where the path ends.
     */
    method UpdateElementProof(e: ElementRef, a: ChainIndex, b: ChainIndex) returns (ok: bool)
      requires T().Valid() && (a in store.entries ==> ProvedAt(e, a))
      modifies e
      ensures e.element == old(e.element).(merkleProof := e.element.merkleProof)
      ensures Stored(T(), a, b) ==>
        (ok <==> Exists(e.element.leafIndex, LastCommon(T(), a, b))) && (ok ==> ProvedAt(e, b))
      ensures !Stored(T(), a, b) ==> (ok <==> a == b) && (ok ==> e.element == old(e.element))
    {
      hide Tree.Recorded, Tree.Attached, Reversed, Common, Shortcut, Outside, ProvedAt, Tree.Chain;
      var path := FindPath(store, a, b, T());
      if path.NoPath? {
        return false;
      }
      ghost var k := if Stored(T(), a, b) then Common(T().Chain(a), T().Chain(b)) else T().Root();
      if Stored(T(), a, b) {
        MeetingPoint(a, b, path);
        ProvedIsStored(e, a);
      } else {
        NoMeetingPoint(a, b, path);
      }
      ok := RevertElements(e, path.revert, a, k);
      if !ok {
        return;
      }
      ok := ApplyElements(e, path.apply, b, k);
    }

    /** The path goes down to position k - 1 of both chains, and up again. */
    ghost predicate Meets(a: ChainIndex, b: ChainIndex, r: PathResult, k: nat)
      requires r.Path?
      reads this`ledgers, store`entries
    {
      T().Root() < k && IsDown(T(), a, k, r.revert) && IsUp(T(), b, k, r.apply) &&
      BlockAt(T(), a, k - 1) == BlockAt(T(), b, k - 1) == LastCommon(T(), a, b) &&
      !(r.apply != [] && r.apply[0] == base) &&
      (r.revert == [] ==> BlockAt(T(), a, k - 1) == a) && (r.apply == [] ==> BlockAt(T(), b, k - 1) == b)
    }

    lemma MeetingPoint(a: ChainIndex, b: ChainIndex, r: PathResult)
      requires T().Valid() && Stored(T(), a, b) && r.Path? && Shortcut(T(), a, b, r)
      ensures Meets(a, b, r, Common(T().Chain(a), T().Chain(b)))
    {
      hide Compact, Tree.Recorded, Tree.Attached, Tree.Chain, Reversed, Common;
      PathShape(T(), a, b, r);
      ParentChain(T(), a);
      ParentChain(T(), b);
    }

    /** The path has nothing to move, or leads below the base. */
    ghost predicate Misses(a: ChainIndex, b: ChainIndex, r: PathResult)
      requires r.Path?
      reads this`ledgers, store`entries
    {
      (a == b && r.revert == r.apply == []) ||
      (a != b && IsDown(T(), a, T().Root(), r.revert) && r.revert != []) ||
      (a != b && r.revert == [] && r.apply != [] && r.apply[0] == base)
    }

    lemma NoMeetingPoint(a: ChainIndex, b: ChainIndex, r: PathResult)
      requires T().Valid() && !Stored(T(), a, b) && r.Path? && Outside(T(), a, b, r)
      ensures Misses(a, b, r)
    {
      hide Compact, Tree.Recorded, Tree.Attached, Tree.Chain;
    }

    // -------------------------------------------------------------- adding blocks

    /** The checkpoint of a valid child of a stored block is stored; the ledgers that were there stay. */
    method Record(c: Checkpoint, ghost p: ChainIndex)
      requires OnBest() && p in store.entries && ValidBlock(ledgers[p], c.block, work) && Storable(c.block)
      requires c.state == Compact(NextFull(ledgers[p], c.block))
      requires forall i, j :: 0 <= i < j < |chains| ==> chains[i] != chains[j]
      requires forall i :: 0 <= i < |chains| ==>
        chains[i].Valid() && (chains[i].Held(T()) || chains[i].Held(Grown(T(), p, c.block)))
      modifies this`ledgers, store`entries
      ensures T() == Grown(old(T()), p, c.block) && Keeps(T(), old(T())) && OnBest() && ChainsHeld()
      ensures old(ChainsIn()) ==> ChainsIn()
      ensures forall i :: 0 <= i < |chains| && chains[i].In(old(T())) ==> chains[i].In(T())
      ensures c.block.Index() in store.entries && c.block.Index() != base && c.block.header.ParentIndex() == p
      ensures store.entries[c.block.Index()] == c && ledgers[c.block.Index()] == NextFull(old(ledgers)[p], c.block)
    {
      hide Compact, NextFull, ValidBlock, Tree.Recorded, Tree.Attached, FullState.Index, ScratchChain.Valid,
        ScratchChain.Held, ScratchChain.In, Grown, EphemeralStore.BestIndex;
      ghost var t, later := T(), Grown(T(), p, c.block);
      GrownKeeps(t, p, c.block);
      NewBlockFits(t, p, c.block);
      CompactParts(NextFull(ledgers[p], c.block));
      GrownParts(t, p, c.block);
      forall i | 0 <= i < |chains|
        ensures chains[i].Held(later) && (chains[i].In(t) ==> chains[i].In(later))
      {
        StillThere(chains[i], t, later);
      }
      store.AddCheckpoint(c);
      ledgers := ledgers[c.block.Index() := NextFull(ledgers[p], c.block)];
      assert T() == later;
      BestStays(t, later, cs.index);
    }

    /** A block that the manager can store: no other form of it with another timestamp is there. */
    ghost predicate Storable(b: Block)
      reads this`ledgers, store`entries
    {
      T().Agrees(b) && b.header.height < HEIGHT_LIMIT
    }

    /**
      AddTipBlock accepts exactly the valid children of the tip.  The tip
      stays the heaviest block exactly if adding its work does not wrap around.
     */
    method AddTipBlock(b: Block, now: int) returns (r: TipResult)
      requires Valid() && Storable(b)
      modifies this`cs, this`ledgers, store, subscribers
      ensures Valid() && (old(ChainsIn()) ==> ChainsIn())
      ensures r == Added <==>
        b.header.parentID == old(cs.index.id) && b.header.timestamp <= now + 2 * 3600 * SECOND &&
        ValidBlock(old(ledgers[cs.index]), b, work)
      ensures r == FutureBlock <==>
        b.header.parentID == old(cs.index.id) && b.header.timestamp > now + 2 * 3600 * SECOND
      ensures r.Invalid? <==>
        b.header.parentID == old(cs.index.id) && b.header.timestamp <= now + 2 * 3600 * SECOND &&
        !ValidBlock(old(ledgers[cs.index]), b, work)
      ensures r == Added ==> T() == Grown(old(T()), old(cs.index), b) && cs.index == b.Index()
      ensures r == Added && old(Heaviest()) ==>
        (Heaviest() <==> old(cs.totalWork) + old(cs.difficulty) < WORK_LIMIT)
      ensures r != Added ==> T() == old(T()) && cs == old(cs)
      ensures r == KnownBlock <==> b.header.parentID != old(cs.index.id) && old(IsKnown(b.Index()))
      ensures r == UnknownBlock <==> b.header.parentID != old(cs.index.id) && !old(IsKnown(b.Index()))
      ensures r == KnownBlock && old(ChainsIn()) ==> b.Index() in store.entries
    {
      hide OnBest, ChainsHeld, Following, ValidBlock, NoneHeavier, IsKnown, ChainsIn;
      // only a child of the tip can be added
      if b.header.parentID != cs.index.id {
        r := CheckKnown(b);
        return;
      }
      if b.header.timestamp > MaxFutureTimestamp(now) {
        return FutureBlock;
      }
      r := AddChild(b);
    }

    /** Validates and stores a block above the tip. */
    method AddChild(b: Block) returns (r: TipResult)
      requires Valid() && Storable(b)
      modifies this`cs, this`ledgers, store, subscribers
      ensures Valid() && (old(ChainsIn()) ==> ChainsIn())
      ensures r == Added <==> ValidBlock(old(ledgers[cs.index]), b, work)
      ensures r == Added || r.Invalid?
      ensures r == Added ==> T() == Grown(old(T()), old(cs.index), b) && cs.index == b.Index()
      ensures r == Added && old(Heaviest()) ==>
        (Heaviest() <==> old(cs.totalWork) + old(cs.difficulty) < WORK_LIMIT)
      ensures r != Added ==> T() == old(T()) && cs == old(cs)
    {
      hide Compact, NextFull, ValidBlock, Tree.Recorded, Tree.Attached, FullState.Index, ScratchChain.Valid,
        ScratchChain.Held, ScratchChain.In, At, InLimits,
        WellFormed, Extends, Tree.Chain, Tree.Root, ApplyUpdate.Leads, NoneHeavier, OutputPlace, OutputsBefore,
        InputIDs, ChainsIn;
      ghost var p, fs := cs.index, ledgers[cs.index];
      LedgerFits(T(), p);
      LedgerIndex(p);
      var v := ValidateBlock(cs, b, work, fs);
      if v != Ok {
        return Invalid(v.error);
      }
      TipChild(T(), p, b);
      var au := Update.ApplyBlock(cs, b, fs, work);
      StoreTip(b, au, fs);
      r := Added;
    }

    /** A valid block is stored, and becomes the tip. */
    method StoreTip(b: Block, au: ApplyUpdate, ghost fs: FullState)
      requires Valid() && Storable(b) && fs == ledgers[cs.index] && ValidBlock(fs, b, work) && au.Leads(fs, b)
      modifies this`cs, this`ledgers, store, subscribers
      ensures Valid() && (old(ChainsIn()) ==> ChainsIn())
      ensures T() == Grown(old(T()), old(cs.index), b) && cs.index == b.Index()
      ensures old(Heaviest()) ==> (Heaviest() <==> old(cs.totalWork) + old(cs.difficulty) < WORK_LIMIT)
    {
      hide Compact, NextFull, ValidBlock, Tree.Recorded, Tree.Attached, FullState.Index, ScratchChain.Valid,
        ScratchChain.Held, ScratchChain.In, At, Extends, Tree.Chain, Tree.Root, ApplyUpdate.Leads, NoneHeavier,
        ChainsIn;
      ghost var p := cs.index;
      TipChild(T(), p, b);
      UpdateState(au, fs, b);
      if Heaviest() {
        NewHeaviest(store.entries, p, Checkpoint(b, au.state), b.Index());
      }
      Record(Checkpoint(b, au.state), p);
      ExtendTip(b, au, fs);
    }

    method ExtendTip(b: Block, au: ApplyUpdate, ghost fs: FullState)
      requires OnBest() && Following() && fs == ledgers[cs.index] && au.Leads(fs, b)
      requires b.Index() in store.entries && b.Index() != base && b.header.ParentIndex() == cs.index
      requires store.entries[b.Index()].block == b && ledgers[b.Index()] == NextFull(fs, b)
      modifies this`cs, store`best, subscribers
      ensures OnBest() && Following() && cs == au.state && cs.index == b.Index()
    {
      hide Compact, NextFull, ValidBlock, WellFormed, InLimits, Tree.Recorded, Tree.Attached, Tree.Chain, Tree.Root,
        At, ApplyUpdate.Leads, FullState.Index;
      EntryStep(T(), b.Index());
      ParentChain(T(), cs.index);
      CompactParts(NextFull(fs, b));
      UpdateState(au, fs, b);
      store.ExtendBest(b.Index());
      BestSlice(T().Chain(cs.index), b.Index(), T().Root());
      cs := au.state;
      // and every subscriber hears of it
      NotifyApply(subscribers, au, b, fs);
    }

    /** The block is stored, or among a chain's headers and no higher than its valid tip. */
    ghost predicate IsKnown(index: ChainIndex)
      reads this`chains, store`entries, chains
    {
      index in store.entries ||
      exists i :: 0 <= i < |chains| && index in Indices(chains[i].headers) && index.height <= chains[i].ts.index.height
    }

    /** Whether a block that does not attach to the tip is known. */
    method CheckKnown(b: Block) returns (r: TipResult)
      requires OnBest() && ChainsHeld()
      ensures r == if IsKnown(b.Index()) then KnownBlock else UnknownBlock
      ensures ChainsIn() && r == KnownBlock ==> b.Index() in store.entries
    {
      hide Compact, Tree.Recorded, Tree.Attached, ScratchChain.Valid, ScratchChain.Held, ScratchChain.In;
      if cs.index == b.Index() {
        return KnownBlock;
      }
      for i := 0 to |chains|
        invariant forall j :: 0 <= j < i ==>
          !(b.Index() in Indices(chains[j].headers) && b.Index().height <= chains[j].ts.index.height)
      {
        var contains := chains[i].Contains(b.Index());
        if contains && chains[i].ValidTip().height >= b.header.height {
          if ChainsIn() {
            ValidatedIsStored(chains[i], b.Index());
          }
          return KnownBlock;
        }
      }
      return if store.GetHeader(b.Index()).Found? then KnownBlock else UnknownBlock;
    }

    /** The blocks of a scratch chain up to its valid tip are stored. */
    lemma ValidatedIsStored(sc: ScratchChain, index: ChainIndex)
      requires sc.Valid() && sc.In(T()) && index in Indices(sc.headers) && index.height <= sc.ts.index.height
      ensures index in store.entries && index.height <= sc.ts.index.height && T().Root() < index.height
      ensures BlockAt(T(), sc.ts.index, index.height) == index
    {
      hide Compact, Tree.Recorded, Tree.Attached, AfterHeaders, ValidHeaders, SameHeaders, Tree.Chain, Tree.Root,
        Validated;
      sc.HeaderHeights();
      var k :| 0 <= k < |sc.headers| && Indices(sc.headers)[k] == index;
      ValidatedBlock(T(), sc.base, sc.start, sc.headers, sc.ts, sc.Done(), k);
    }

    /** A block is stored just when it is a valid child of the chain's valid tip, and there are headers left. */
    method StoreBlock(chain: ScratchChain, b: Block) returns (r: Applied)
      requires Valid() && chain in chains && chain.Valid() && Storable(b)
      modifies this`ledgers, store`entries, chain`ts
      ensures Valid() && old(chain.ts.index) in old(ledgers)
      ensures r.Applied? <==>
        old(chain.ts.index.height) < chain.hs.index.height && ValidBlock(old(ledgers)[old(chain.ts.index)], b, work)
      ensures r.Applied? ==> T() == Grown(old(T()), old(chain.ts.index), b) && Keeps(T(), old(T()))
      ensures r.Applied? ==>
        store.entries == old(store.entries)[b.Index() := r.checkpoint] && r.checkpoint == Checkpoint(b, chain.ts)
      ensures r.Applied? ==> StoredAbove(b, old(chain.ts.index), old(ledgers))
      ensures r.Applied? ==> chain.Valid() && chain.ts == r.checkpoint.state && chain.ts.index == b.Index()
      ensures r.Applied? ==> (chain.Along(T()) <==> old(Continues(chain, b)))
      ensures r.Rejected? ==> T() == old(T()) && chain.ts == old(chain.ts)
      ensures old(ChainsIn()) && (r.Rejected? || old(chain.Has(b))) ==> ChainsIn()
    {
      hide Compact, NextFull, ValidBlock, Tree.Recorded, Tree.Attached, FullState.Index, At, Tree.Chain, Tree.Root,
        AfterHeaders, ValidHeaders, SameHeaders, Settled, Indices, Grown, Validated, ScratchChain.Has, ScratchChain.In;
      ghost var p := chain.ts.index;
      chain.TipIsStored(T());
      r := chain.ApplyBlock(b, T());
      if r.Applied? {
        GrownParts(T(), p, b);
        StoredFacts(T(), p, b);
        AlongStep(T(), chain.base, chain.headers, p, b);
        Record(r.checkpoint, p);
        GrownKeeps(old(T()), p, b);
        if old(ChainsIn()) && old(chain.Has(b)) {
          forall i | 0 <= i < |chains|
            ensures chains[i].In(T())
          {
            if chains[i] != chain {
              StillThere(chains[i], old(T()), T());
            }
          }
        }
      }
    }

    /** The block is stored, a child of block p, with the work that leads to. */
    ghost predicate StoredAbove(b: Block, p: ChainIndex, before: map<ChainIndex, FullState>)
      reads store`entries
    {
      p in before && b.Index() in store.entries && store.entries[b.Index()].block == b && b.Index() != base &&
      b.header.ParentIndex() == p && b.Index().height == p.height + 1 &&
      store.entries[b.Index()].state.totalWork == NextFull(before[p], b).totalWork
    }

    /** Once a chain with a newly stored block is the heaviest, the tip moves to it. */
    method FollowHeaviest(chain: ScratchChain, c: Checkpoint) returns (r: Move)
      requires Valid() && chain in chains && chain.ts == c.state
      requires c.state.index in store.entries && store.entries[c.state.index] == c && c.state.index != base
      modifies this`cs, store`best, subscribers
      ensures Valid() && (old(ChainsIn()) ==> ChainsIn())
      ensures r == Moved <==>
        c.state.totalWork <= old(cs.totalWork) || old(cs.index) == c.block.header.ParentIndex() || chain.Along(T())
      ensures r == Missing <==> r != Moved && LeavesOff(T(), chain.base, chain.headers)
      ensures r == Moved ==> cs == if c.state.totalWork <= old(cs.totalWork) then old(cs) else c.state
      ensures r != Moved ==> cs.index != c.state.index
    {
      hide Compact, NextFull, ValidBlock, Tree.Recorded, Tree.Attached, FullState.Index, At, Tree.Chain, Tree.Root,
        Settled, ScratchChain.Valid, ScratchChain.Held, ScratchChain.In, ScratchChain.Along, LeavesOff;
      // not the heaviest yet; further blocks may make it so
      if c.state.totalWork <= cs.totalWork {
        return Moved;
      }
      EntryState(T(), c.state.index);
      if cs.index != c.block.header.ParentIndex() {
        // the best chain is another one
        ghost var steps;
        r, steps := ReorgTo(chain);
      } else {
        r := ApplyTip(c.state.index);
      }
      TipState();
    }

    /** There is a header left for the block, and it is valid at the chain's valid tip. */
    ghost predicate Applies(chain: ScratchChain, b: Block)
      reads this`ledgers, chain
    {
      chain.ts.index in ledgers &&
      chain.ts.index.height < chain.hs.index.height && ValidBlock(ledgers[chain.ts.index], b, work)
    }

    /** With the block, the chain would have more work than the tip. */
    ghost predicate Overtakes(chain: ScratchChain, b: Block)
      reads this`ledgers, this`cs, chain
    {
      chain.ts.index in ledgers && NextFull(ledgers[chain.ts.index], b).totalWork > cs.totalWork
    }

    /** With the block, the chain's valid tip would still be that of its headers. */
    ghost predicate Continues(chain: ScratchChain, b: Block)
      requires chain.Valid()
      reads this`ledgers, store`entries, chain
    {
      chain.Along(T()) && chain.Done() < |chain.headers| && chain.headers[chain.Done()].Index() == b.Index()
    }

    /** The tip would have to follow, but the block is neither its child nor the headers'. */
    ghost predicate Strands(chain: ScratchChain, b: Block)
      requires chain.Valid()
      reads this`ledgers, this`cs, store`entries, chain
    {
      Applies(chain, b) && Overtakes(chain, b) && chain.ts.index != cs.index && !Continues(chain, b)
    }

    /** One round of AddBlocks, for any block. */
    method AddBlock(chain: ScratchChain, b: Block) returns (r: Round)
      requires Valid() && chain in chains && chain.Valid() && Storable(b)
      modifies this`cs, this`ledgers, store, subscribers, chain`ts
      ensures Valid() && old(chain.ts.index) in old(ledgers)
      ensures r == Declined <==> !old(Applies(chain, b))
      ensures r.Stuck? <==> old(Strands(chain, b))
      ensures r.Stuck? ==> r.move == Stop(Grown(old(T()), old(chain.ts.index), b), chain.base, chain.headers)
      ensures r == Declined ==> T() == old(T()) && cs == old(cs) && chain.ts == old(chain.ts) && FailedAt(chain, b)
      ensures r != Declined ==> T() == Grown(old(T()), old(chain.ts.index), b) && Keeps(T(), old(T()))
      ensures r != Declined ==> b.Index() in store.entries && chain.ts.index == b.Index()
      ensures r != Declined ==> chain.Valid() && (chain.Along(T()) <==> old(Continues(chain, b)))
      ensures r != Declined ==> b.Index().height == old(chain.ts.index.height) + 1
      ensures r == Accepted && old(Overtakes(chain, b)) ==> Followed(b, old(ledgers)[old(chain.ts.index)])
      ensures r == Accepted && !old(Overtakes(chain, b)) ==> cs == old(cs)
      ensures old(ChainsIn()) && (r == Declined || old(chain.Has(b))) ==> ChainsIn() && !r.Stuck?
      ensures old(Heaviest()) ==> (Heaviest() <==> !old(Strands(chain, b)))
    {
      hide ValidBlock, OnBest, ChainsHeld, Following, NoneHeavier, Indices, ScratchChain.Valid, ScratchChain.Held,
        ScratchChain.In, ScratchChain.Has, ScratchChain.Along, NextFull, Grown, LeavesOff, Tree.Chain;
      var applied := StoreBlock(chain, b);
      if applied.Rejected? {
        Refusal(chain, b);
        return Declined;
      }
      if old(Heaviest()) {
        OneMore(old(store.entries), cs, b.Index(), applied.checkpoint);
      }
      var move := FollowHeaviest(chain, applied.checkpoint);
      if old(Heaviest()) && move != Moved {
        LeftBehind(old(store.entries), old(cs), b.Index(), applied.checkpoint);
        TipEntry();
      }
      InOrder(chain);
      return if move == Moved then Accepted else Stuck(move);
    }

    lemma InOrder(sc: ScratchChain)
      requires ChainsHeld() && sc in chains
      ensures sc.Valid() && (ChainsIn() ==> sc.Along(T()))
    {
      hide ScratchChain.Valid, ScratchChain.Held, ScratchChain.In, ScratchChain.Along, Tree.Valid;
      ChainIn(sc);
      if ChainsIn() {
        sc.InIsAlong(T());
      }
    }

    /** The tip has moved to the block, and has the work of its ledger. */
    ghost predicate Followed(b: Block, parent: FullState)
      reads this`cs
    {
      cs.index == b.Index() && cs.totalWork == NextFull(parent, b).totalWork
    }

    lemma TipState()
      requires OnBest()
      ensures cs == Compact(ledgers[cs.index]) && cs.index in store.entries && T().Valid()
    {
      hide Compact, Tree.Recorded, Tree.Attached;
    }

    lemma TipEntry()
      requires OnBest()
      ensures cs.index in store.entries && store.entries[cs.index].state == cs
    {
      hide Compact, Tree.Recorded, Tree.Attached;
      EntryState(T(), cs.index);
    }

    /** A chain that AddBlocks would add blocks to. */
    ghost predicate Wants(sc: ScratchChain, index: ChainIndex)
      reads sc
    {
      !sc.FullyValidated() && sc.ts.index.height + 1 >= index.height && index in Indices(sc.headers)
    }

    /** Consecutive blocks of the chain. */
    ghost predicate Listed(sc: ScratchChain, blocks: seq<Block>)
      reads sc`headers
    {
      forall k :: 0 <= k < |blocks| ==>
        sc.Has(blocks[k]) && blocks[k].header.height == blocks[0].header.height + k
    }

    /** They do not end before the ones the chain has, either. */
    ghost predicate Fits(sc: ScratchChain, blocks: seq<Block>)
      requires blocks != []
      reads sc
    {
      Listed(sc, blocks) && sc.ts.index.height + 1 <= blocks[0].header.height + |blocks|
    }

    /** Every block can be stored, whichever of the others are stored before it. */
    ghost predicate AllStorable(blocks: seq<Block>)
      reads this`ledgers, store`entries
    {
      Takes(T(), blocks)
    }

    /** The first chain that wants a block. */
    method ChainFor(b: Block) returns (i: nat)
      requires ChainsHeld()
      ensures i <= |chains| && (i < |chains| ==> Wants(chains[i], b.Index()))
      ensures forall k :: 0 <= k < i ==> !Wants(chains[k], b.Index())
    {
      hide Compact, Tree.Valid, ScratchChain.Valid, ScratchChain.Held;
      for k := 0 to |chains|
        invariant forall j :: 0 <= j < k ==> !Wants(chains[j], b.Index())
      {
        var sc := chains[k];
        var contains := sc.Contains(b.Index());
        IndexHeight(sc, b.Index());
        if !sc.FullyValidated() && sc.ValidTip().height >= b.header.ParentIndex().height && contains {
          return k;
        }
      }
      return |chains|;
    }

    lemma IndexHeight(sc: ScratchChain, index: ChainIndex)
      requires sc.Valid()
      ensures index in Indices(sc.headers) ==> index.height > sc.base.height
    {
      hide AfterHeaders, ValidHeaders;
      sc.HeaderHeights();
    }

    method DiscardChain(sc: ScratchChain)
      requires ChainsHeld() && sc in chains
      modifies this`chains
      ensures ChainsHeld() && sc !in chains && multiset(chains) == multiset(old(chains)) - multiset{sc}
      ensures old(ChainsIn()) ==> ChainsIn()
    {
      hide Tree.Valid, ScratchChain.Valid, ScratchChain.Held, ScratchChain.In;
      for i := 0 to |chains|
        invariant chains == old(chains) && sc !in chains[..i]
      {
        if chains[i] == sc {
          Without(chains, i);
          chains := chains[..i] + chains[i + 1..];
          return;
        }
      }
    }

    /** Once it is fully validated, a chain is forgotten, and no other is. */
    ghost predicate Forgotten(before: seq<ScratchChain>, after: seq<ScratchChain>, sc: ScratchChain)
      reads sc
    {
      multiset(after) == multiset(before) - if sc.FullyValidated() then multiset{sc} else multiset{}
    }

    method Forget(sc: ScratchChain)
      requires ChainsHeld() && sc in chains
      modifies this`chains
      ensures ChainsHeld() && Forgotten(old(chains), chains, sc) && (old(ChainsIn()) ==> ChainsIn())
    {
      hide ChainsHeld, ChainsIn;
      if sc.FullyValidated() {
        DiscardChain(sc);
      }
    }

    /** Block k would be the next one of the chain. */
    predicate Next(sc: ScratchChain, blocks: seq<Block>, k: nat)
      reads sc
    {
      blocks != [] && sc.ts.index.height + 1 == blocks[0].header.height + k
    }

    /** The rounds of AddBlocks, as they stand. */
    ghost function RunOf(sc: ScratchChain, blocks: seq<Block>): (run: Run)
      reads this`cs, this`ledgers, store`entries, sc
    {
      Run(T(), sc.base, sc.headers, sc.ts.index, cs.index, blocks)
    }

    /** The rounds from one of the blocks on. */
    ghost function RunFrom(sc: ScratchChain, blocks: seq<Block>, from: nat): (run: Run)
      reads this`cs, this`ledgers, store`entries, sc
    {
      RunOf(sc, if from <= |blocks| then blocks[from..] else [])
    }

    /** Where the manager and the chain are after j rounds. */
    ghost predicate AtRound(run: Run, sc: ScratchChain, j: nat)
      reads this`cs, this`ledgers, store`entries, sc
    {
      run.Valid() && j <= |run.blocks| && run.Reaches(j) &&
      sc.Valid() && sc.base == run.base && sc.headers == run.headers &&
      T() == run.TreeAt(j) && sc.ts.index == run.At(j) && sc.ts.index.height == run.ts.height + j &&
      cs.index == run.TipAt(j) && cs.totalWork == run.Peak(j) &&
      (sc.Along(T()) <==> run.OnHeadersAt(j))
    }

    /** After the last one. */
    ghost predicate AfterAll(run: Run, sc: ScratchChain)
      reads this`cs, this`ledgers, store`entries, sc
    {
      AtRound(run, sc, |run.blocks|)
    }

    /** Before the first round. */
    lemma RunStarts(sc: ScratchChain, blocks: seq<Block>)
      requires OnBest() && ChainsHeld() && sc in chains
      ensures AtRound(RunOf(sc, blocks), sc, 0)
    {
      hide Compact, Tree.Recorded, Tree.Attached, ValidHeaders, AfterHeaders, ScratchChain.In, Tree.Chain;
      ChainIn(sc);
      CompactWork(ledgers[cs.index]);
    }

    lemma RestStarts(sc: ScratchChain, blocks: seq<Block>, from: nat)
      requires OnBest() && ChainsHeld() && sc in chains && from <= |blocks|
      ensures RunFrom(sc, blocks, from).blocks == blocks[from..] && AtRound(RunFrom(sc, blocks, from), sc, 0)
    {
      hide OnBest, ChainsHeld, AtRound;
      RunStarts(sc, blocks[from..]);
    }

    /** What the next round looks at, before it. */
    lemma RoundAhead(run: Run, sc: ScratchChain, j: nat)
      requires AtRound(run, sc, j) && j < |run.blocks| && sc.ts.index in ledgers
      ensures var b := run.blocks[j];
        (Applies(sc, b) <==> run.Applies(j + 1)) && (Overtakes(sc, b) <==> run.Work(j + 1) > run.Peak(j)) &&
        (Continues(sc, b) <==> run.OnHeadersAt(j + 1)) && (Strands(sc, b) <==> run.Strands(j)) &&
        Grown(T(), sc.ts.index, b) == run.TreeAt(j + 1) &&
        NextFull(ledgers[sc.ts.index], b).totalWork == run.Work(j + 1)
    {
      hide Tree.Recorded, Tree.Attached, ScratchChain.Valid, NextFull, ValidBlock, Run.Peak, Run.TipAt, Grown,
        Tree.Chain, Compact, Applies, Continues, Run.Applies, Run.OnHeadersAt, Run.TreeAt, ScratchChain.Along;
      run.TreeHolds(j);
      run.NextTree(j);
      AppliesNext(run, sc, j);
      ContinuesNext(run, sc, j);
    }

    lemma AppliesNext(run: Run, sc: ScratchChain, j: nat)
      requires AtRound(run, sc, j) && j < |run.blocks| && sc.ts.index in ledgers
      ensures Applies(sc, run.blocks[j]) <==> run.Applies(j + 1)
    {
      hide Tree.Recorded, Tree.Attached, ScratchChain.Valid, ValidBlock, Run.Peak, Run.TipAt, Run.LedgerAt, Compact,
        Run.OnHeadersAt, ScratchChain.Along, NextFull;
      HeightOfTip(sc);
      run.TreeHolds(j);
    }

    lemma ContinuesNext(run: Run, sc: ScratchChain, j: nat)
      requires AtRound(run, sc, j) && j < |run.blocks|
      ensures Continues(sc, run.blocks[j]) <==> run.OnHeadersAt(j + 1)
    {
      hide Tree.Valid, ScratchChain.Valid, Run.Applies, Run.Strands, Run.Peak, Run.TipAt, Run.TreeAt, Run.At, OnHeaders;
      RoundHeight(sc);
    }

    lemma RoundHeight(sc: ScratchChain)
      requires sc.Valid()
      ensures sc.Done() <= |sc.headers|
    {
      hide ValidHeaders, AfterHeaders;
    }

    lemma AllMade(run: Run, sc: ScratchChain)
      requires AtRound(run, sc, |run.blocks|)
      ensures run.Ends(|run.blocks|, Accepted) && AfterAll(run, sc)
    {
      hide Tree.Valid, ScratchChain.Valid;
    }

    /** After a round that is made, everything stands where the next one begins. */
    lemma RoundBehind(run: Run, sc: ScratchChain, j: nat)
      requires run.Valid() && j < |run.blocks| && run.Reaches(j) && run.Applies(j + 1) && !run.Strands(j)
      requires sc.Valid() && sc.base == run.base && sc.headers == run.headers && T() == run.TreeAt(j + 1)
      requires sc.ts.index == run.blocks[j].Index() && sc.ts.index.height == run.ts.height + j + 1
      requires cs.index == (if run.Work(j + 1) > run.Peak(j) then run.At(j + 1) else run.TipAt(j))
      requires cs.totalWork == if run.Work(j + 1) > run.Peak(j) then run.Work(j + 1) else run.Peak(j)
      requires sc.Along(T()) <==> run.OnHeadersAt(j + 1)
      ensures AtRound(run, sc, j + 1)
    {
      hide Tree.Valid, ScratchChain.Valid, ScratchChain.Along, Run.OnHeadersAt, Run.Applies, Run.Strands, Run.Work,
        Run.TreeAt;
    }

    /** One round, as one of a run. */
    method AddNext(chain: ScratchChain, blocks: seq<Block>, k: nat, ghost run: Run, ghost j: nat) returns (r: Round)
      requires Valid() && chain in chains && k < |blocks| && AllStorable(blocks)
      requires j < |run.blocks| && run.blocks[j] == blocks[k] && AtRound(run, chain, j)
      modifies this`cs, this`ledgers, store, subscribers, chain`ts
      ensures Valid() && Keeps(T(), old(T())) && AllStorable(blocks) && chain.Valid()
      ensures if r == Accepted then AtRound(run, chain, j + 1) else run.Ends(j, r)
      ensures r == Declined ==> Refuses(chain, blocks, k)
      ensures old(ChainsIn()) && Listed(chain, blocks) ==> ChainsIn() && !r.Stuck?
      ensures !r.Stuck? ==> cs.totalWork >= old(cs.totalWork)
      ensures old(Heaviest()) ==> (Heaviest() <==> !r.Stuck?)
      ensures old(Next(chain, blocks, k)) && !r.Stuck? ==> Next(chain, blocks, if r == Accepted then k + 1 else k)
    {
      hide ValidBlock, NoneHeavier, Grown, Tree.Valid, At, Settled, AfterHeaders, ValidHeaders, ScratchChain.Held,
        ScratchChain.In, ScratchChain.Has, FailedAt, Takes, OnBest, ChainsHeld, Following, ChainsIn, Applies,
        Overtakes, Continues, Strands, Run.Strands, Run.Applies, ScratchChain.Valid, ScratchChain.Along, Run.Work,
        Run.Peak, Run.TipAt, Run.OnHeadersAt, Run.TreeAt, NextFull;
      ghost var p, t := chain.ts.index, T();
      TakesOne(t, blocks, k);
      ChainIn(chain);
      chain.TipIsStored(t);
      RoundAhead(run, chain, j);
      r := AddBlock(chain, blocks[k]);
      if r != Declined {
        StillTakes(t, p, blocks, k);
      }
      if r == Accepted {
        RoundBehind(run, chain, j);
      }
    }

    /** The blocks from one of them on, one after the other. */
    method AddRest(chain: ScratchChain, blocks: seq<Block>, from: nat) returns (r: Round, added: nat)
      requires Valid() && chain in chains && from <= |blocks| && AllStorable(blocks)
      modifies this`cs, this`ledgers, store, subscribers, chain`ts
      ensures from <= added <= |blocks| && (r == Accepted <==> added == |blocks|)
      ensures r == Declined ==> Refuses(chain, blocks, added)
      ensures old(ChainsIn()) && Listed(chain, blocks) ==> ChainsIn() && !r.Stuck?
      ensures old(ChainsIn()) && Listed(chain, blocks) && old(Next(chain, blocks, from)) ==> Next(chain, blocks, added)
      ensures !r.Stuck? ==> cs.totalWork >= old(cs.totalWork)
      ensures old(Heaviest()) ==> (Heaviest() <==> !r.Stuck?)
      ensures Valid() && Keeps(T(), old(T()))
      ensures old(RunFrom(chain, blocks, from)).Ends(added - from, r)
      ensures r == Accepted ==> AfterAll(old(RunFrom(chain, blocks, from)), chain)
    {
      hide ValidBlock, NoneHeavier, Grown, Tree.Valid, At, Settled, AfterHeaders, ValidHeaders, ScratchChain.Held,
        ScratchChain.In, ScratchChain.Has, FailedAt, Takes, OnBest, ChainsHeld, Following, ChainsIn, AtRound, Applies,
        Overtakes, Continues, Strands, Refuses, RunOf, RunFrom, AfterAll, Run.Ends, Run.Valid, ScratchChain.Valid,
        Listed, Next;
      ghost var run := RunFrom(chain, blocks, from);
      RestStarts(chain, blocks, from);
      ChainIn(chain);
      added := from;
      while added < |blocks|
        invariant Valid() && Keeps(T(), old(T())) && AllStorable(blocks)
        invariant from <= added <= |blocks| && AtRound(run, chain, added - from) && chain.Valid()
        invariant old(ChainsIn()) && Listed(chain, blocks) ==> ChainsIn()
        invariant cs.totalWork >= old(cs.totalWork) && (old(Heaviest()) ==> Heaviest())
        invariant old(ChainsIn()) && Listed(chain, blocks) && old(Next(chain, blocks, from)) ==>
          Next(chain, blocks, added)
        decreases |blocks| - added
      {
        r := AddNext(chain, blocks, added, run, added - from);
        if r != Accepted {
          return;
        }
        added := added + 1;
      }
      AllMade(run, chain);
      r := Accepted;
    }

    lemma ChainIn(sc: ScratchChain)
      requires ChainsHeld() && sc in chains
      ensures sc.Valid() && sc.Held(T()) && (ChainsIn() ==> sc.In(T()))
    {
      hide ScratchChain.Valid, ScratchChain.Held, ScratchChain.In, Tree.Valid;
      var i :| 0 <= i < |chains| && chains[i] == sc;
    }

    lemma Refusal(sc: ScratchChain, b: Block)
      requires sc.ts.index in ledgers
      requires !(sc.ts.index.height < sc.hs.index.height && ValidBlock(ledgers[sc.ts.index], b, work))
      ensures FailedAt(sc, b)
    {
      hide ValidBlock;
    }

    /** Block k cannot be applied. */
    ghost predicate Refuses(sc: ScratchChain, blocks: seq<Block>, k: nat)
      reads this`ledgers, sc
    {
      k < |blocks| && FailedAt(sc, blocks[k])
    }

    lemma NotPastHeaders(sc: ScratchChain, b: Block)
      requires sc.Valid() && sc.Has(b)
      ensures b.header.height <= sc.hs.index.height
    {
      hide AfterHeaders, ValidHeaders;
      sc.HeaderHeights();
      sc.TipHeight();
    }

    /** What AddBlocks takes for granted: the chains are in order, and the blocks are those that one of them lacks. */
    ghost predicate Orderly(blocks: seq<Block>)
      reads this`chains, this`ledgers, store`entries, chains
    {
      ChainsIn() &&
      (blocks != [] ==>
         forall i :: 0 <= i < |chains| && Wants(chains[i], blocks[0].Index()) ==> Fits(chains[i], blocks))
    }

    /** What is reported as added is stored up to the last block; what is bad is invalid where it stands. */
    ghost predicate Exact(blocks: seq<Block>, r: BlocksResult)
      reads this`chains, this`ledgers, store`entries, chains, if r.AddedTo? then {r.chain} else {}
    {
      (r.AddedTo? ==>
         blocks != [] && r.chain.ts.index == blocks[|blocks| - 1].Index() && r.chain.ts.index in store.entries) &&
      (r.Stops() ==>
         r.failure.at < |blocks| && exists i :: 0 <= i < |chains| && InvalidAt(chains[i], blocks[r.failure.at]))
    }

    /** The chain that AddBlocks adds to: the first that wants the first of the blocks. */
    ghost predicate Serves(i: nat, blocks: seq<Block>)
      reads this`chains, chains
    {
      i < |chains| && blocks != [] && Wants(chains[i], blocks[0].Index()) &&
      forall k :: 0 <= k < i ==> !Wants(chains[k], blocks[0].Index())
    }

    ghost predicate ServedBy(blocks: seq<Block>, sc: ScratchChain)
      reads this`chains, chains
    {
      exists i: nat :: Serves(i, blocks) && chains[i] == sc
    }

    /** That chain fails to add them. */
    ghost predicate WillFail(blocks: seq<Block>, f: Failure)
      reads this`chains, this`cs, this`ledgers, store`entries, chains
    {
      exists i: nat :: Serves(i, blocks) && Fails(chains[i], blocks, f)
    }

    /** In some round, the tip has to follow that chain and cannot. */
    ghost predicate WillBreak(blocks: seq<Block>)
      reads this`chains, this`cs, this`ledgers, store`entries, chains
    {
      exists i: nat :: Serves(i, blocks) && Breaks(chains[i], blocks)
    }

    /** There is only one such chain. */
    lemma ServedOnce(i: nat, blocks: seq<Block>)
      requires Serves(i, blocks)
      ensures forall f :: WillFail(blocks, f) <==> Fails(chains[i], blocks, f)
      ensures WillBreak(blocks) <==> Breaks(chains[i], blocks)
      ensures ServedBy(blocks, chains[i])
    {
      hide Wants, Breaks, Fails;
      forall k: nat | Serves(k, blocks)
        ensures k == i
      {
      }
    }

    lemma Unserved(blocks: seq<Block>)
      ensures (forall i: nat :: !Serves(i, blocks)) ==> !WillBreak(blocks) && forall f :: !WillFail(blocks, f)
    {
      hide Serves, Breaks, Fails;
    }

    /**
      AddBlocks, for any blocks: whatever they are, the best list, the ledgers
      and the subscribers stay right, and a heaviest tip stays heaviest exactly
      unless a reorganisation breaks off, which the state before it settles.
      That does not happen for blocks that belong to the chain that takes them:
      then every block it reports as added is stored, and it stops only at a
      block that is invalid.
     */
    method AddBlocks(blocks: seq<Block>) returns (r: BlocksResult)
      requires Valid() && AllStorable(blocks)
      modifies this`cs, this`ledgers, this`chains, store, subscribers, chains
      ensures Valid() && Keeps(T(), old(T()))
      ensures r == NoBlocks <==> blocks == []
      ensures r == UnknownChain <==>
        blocks != [] && forall i :: 0 <= i < |old(chains)| ==> !old(Wants(chains[i], blocks[0].Index()))
      ensures r.NoBlocks? || r.UnknownChain? ==> T() == old(T()) && cs == old(cs) && old(ChainsIn()) == ChainsIn()
      ensures r.AddedTo? ==> r.chain in old(chains) && old(ServedBy(blocks, r.chain))
      ensures forall f :: r == Failed(f) <==> old(WillFail(blocks, f))
      ensures r.AddedTo? ==> Forgotten(old(chains), chains, r.chain)
      ensures !r.AddedTo? ==> chains == old(chains)
      ensures r.Stops() ==> exists i :: 0 <= i < |chains| && StopsAt(chains[i], blocks, r)
      ensures !r.BreaksOff() ==> cs.totalWork >= old(cs.totalWork)
      ensures old(Heaviest()) ==> (Heaviest() <==> !old(WillBreak(blocks)))
      ensures r == Failed(TooFew) ==> T() == old(T()) && cs == old(cs)
      ensures old(Orderly(blocks)) ==> ChainsIn() && (r.Failed? ==> r.Stops()) && Exact(blocks, r)
      ensures r.AddedTo? && blocks != [] ==> AfterAll(old(RunAhead(r.chain, blocks)), r.chain)
    {
      hide ValidBlock, NoneHeavier, OnBest, Following, ChainsHeld, ChainsIn, Fits, Wants, FailedAt, InvalidAt,
        AllStorable, StopsAt, Forgotten, Orderly, Exact, WillBreak, WillFail, Fails, Breaks, AtRound, AfterAll,
        RunAhead, Lacking, Run.Valid, ServedBy;
      Unserved(blocks);
      if |blocks| == 0 {
        NothingToDo(blocks);
        return NoBlocks;
      }
      var i := ChainFor(blocks[0]);
      if i == |chains| {
        NothingToDo(blocks);
        return UnknownChain;
      }
      ghost var before := chains;
      OrderlyFits(blocks, i);
      ServedOnce(i, blocks);
      r := AddTo(chains[i], blocks);
      assert r.Failed? ==> before[i] in chains;
      if old(Orderly(blocks)) {
        Served(before[i], blocks, r);
      }
    }

    lemma NothingToDo(blocks: seq<Block>)
      ensures Orderly(blocks) ==> ChainsIn()
      ensures Exact(blocks, NoBlocks) && Exact(blocks, UnknownChain)
    {
      hide ChainsIn, Wants, Fits;
    }

    lemma OrderlyFits(blocks: seq<Block>, i: nat)
      requires blocks != [] && i < |chains| && Wants(chains[i], blocks[0].Index())
      ensures Orderly(blocks) ==> ChainsIn() && Fits(chains[i], blocks)
    {
      hide ChainsIn, Wants, Fits;
    }

    lemma Served(sc: ScratchChain, blocks: seq<Block>, r: BlocksResult)
      requires blocks != [] && (r == AddedTo(sc) || r.Failed?)
      requires AsReported(sc, blocks, r) && (r.Failed? ==> sc in chains)
      ensures Exact(blocks, r)
    {
      hide InvalidAt;
    }

    /** The blocks that a chain does not have yet, going by heights. */
    ghost function Lacking(sc: ScratchChain, blocks: seq<Block>): (rest: seq<Block>)
      requires blocks != []
      reads sc`ts
    {
      var have := sc.ts.index.height + 1 - blocks[0].header.height;
      if 0 <= have <= |blocks| then blocks[have..] else []
    }

    /** The rounds that add them. */
    ghost function RunAhead(sc: ScratchChain, blocks: seq<Block>): (run: Run)
      requires blocks != []
      reads this`cs, this`ledgers, store`entries, sc
    {
      RunOf(sc, Lacking(sc, blocks))
    }

    /** Adding blocks to a chain breaks off. */
    ghost predicate Breaks(sc: ScratchChain, blocks: seq<Block>)
      requires blocks != []
      reads this`cs, this`ledgers, store`entries, sc
    {
      var run := RunAhead(sc, blocks);
      run.Valid() && run.Breaks()
    }

    /** It breaks off where a header is not stored. */
    ghost predicate BreaksMissing(sc: ScratchChain, blocks: seq<Block>)
      requires blocks != []
      reads this`cs, this`ledgers, store`entries, sc
    {
      var run := RunAhead(sc, blocks);
      run.Valid() && run.BreaksMissing()
    }

    /** Block k is reached, and cannot be applied. */
    ghost predicate DeclinesAt(sc: ScratchChain, blocks: seq<Block>, k: nat)
      requires blocks != []
      reads this`cs, this`ledgers, store`entries, sc
    {
      var run := RunAhead(sc, blocks);
      var j := k - (|blocks| - |run.blocks|);
      run.Valid() && 0 <= j < |run.blocks| && run.Reaches(j) && !run.Applies(j + 1)
    }

    /** Adding blocks to a chain fails in the given way. */
    ghost predicate Fails(sc: ScratchChain, blocks: seq<Block>, f: Failure)
      requires blocks != []
      reads this`cs, this`ledgers, store`entries, sc
    {
      match f
      case TooFew => sc.ts.index.height + 1 > blocks[0].header.height + |blocks|
      case BadBlock(k) => DeclinesAt(sc, blocks, k)
      case Broken(move) => Breaks(sc, blocks) && move == if BreaksMissing(sc, blocks) then Missing else Panic
    }

    /** A block that is reported as bad cannot be applied. */
    ghost predicate StopsAt(sc: ScratchChain, blocks: seq<Block>, r: BlocksResult)
      reads this`ledgers, sc
    {
      r.Stops() ==> Refuses(sc, blocks, r.failure.at)
    }

    /** The last block is the chain's valid tip, or the bad one is invalid there. */
    ghost predicate AsReported(sc: ScratchChain, blocks: seq<Block>, r: BlocksResult)
      requires blocks != []
      reads this`ledgers, store`entries, sc
    {
      (r.AddedTo? ==> sc.ts.index == blocks[|blocks| - 1].Index() && sc.ts.index in store.entries) &&
      (r.Stops() ==> r.failure.at < |blocks| && InvalidAt(sc, blocks[r.failure.at]))
    }

    /** AddBlocks, once the chain is found. */
    method AddTo(chain: ScratchChain, blocks: seq<Block>) returns (r: BlocksResult)
      requires blocks != [] && Wants(chain, blocks[0].Index())
      requires Valid() && chain in chains && AllStorable(blocks)
      modifies this`cs, this`ledgers, this`chains, store, subscribers, chain`ts
      ensures r == AddedTo(chain) || r.Failed?
      ensures StopsAt(chain, blocks, r)
      ensures !r.AddedTo? ==> chains == old(chains)
      ensures r.AddedTo? ==> Forgotten(old(chains), chains, chain)
      ensures old(ChainsIn() && Fits(chain, blocks)) ==> ChainsIn() && (r.Failed? ==> r.Stops())
      ensures old(ChainsIn() && Fits(chain, blocks)) ==> AsReported(chain, blocks, r)
      ensures !r.BreaksOff() ==> cs.totalWork >= old(cs.totalWork)
      ensures r == Failed(TooFew) ==> T() == old(T()) && cs == old(cs)
      ensures Valid() && Keeps(T(), old(T()))
      ensures r.AddedTo? ==> AfterAll(old(RunAhead(chain, blocks)), chain)
      ensures forall f :: r == Failed(f) <==> old(Fails(chain, blocks, f))
      ensures old(Heaviest()) ==> (Heaviest() <==> !old(Breaks(chain, blocks)))
    {
      hide ValidBlock, NoneHeavier, OnBest, Following, ScratchChain.Valid, ScratchChain.Held, ScratchChain.In,
        ScratchChain.Has, Wants, Indices, FailedAt, InvalidAt, AllStorable, Listed, AfterAll, RunOf, RunFrom, RunAhead,
        Forgotten, Refuses, Breaks, Fails, ChainsIn, Lacking, Run.Valid, Run.Ends, Fits, AsReported;
      ghost var orderly := ChainsIn() && Fits(chain, blocks);
      ChainIn(chain);
      WantedHeight(chain, blocks[0].Index());
      // the blocks that are there already are passed over
      var have := chain.ValidTip().height - (blocks[0].header.height - 1);
      WhatIsLacking(chain, blocks);
      FitsIsNext(chain, blocks);
      if have > |blocks| {
        NothingLacking(chain, blocks);
        return Failed(TooFew);
      }
      HowItEnds(chain, blocks);
      var round, added := AddRest(chain, blocks, have);
      ChainIn(chain);
      if round.Stuck? {
        return Failed(Broken(round.move));
      } else if round == Declined {
        if orderly {
          StoppedAt(chain, blocks, added);
        }
        return Failed(BadBlock(added));
      }
      if orderly {
        LastAdded(chain, blocks);
      }
      Forget(chain);
      return AddedTo(chain);
    }

    lemma WhatIsLacking(sc: ScratchChain, blocks: seq<Block>)
      requires blocks != [] && blocks[0].header.height <= sc.ts.index.height + 1
      ensures var have := sc.ts.index.height + 1 - blocks[0].header.height;
        Lacking(sc, blocks) == (if have <= |blocks| then blocks[have..] else []) &&
        RunAhead(sc, blocks) == RunFrom(sc, blocks, have)
    {
    }

    lemma NothingLacking(sc: ScratchChain, blocks: seq<Block>)
      requires blocks != [] && sc.ts.index.height + 1 > blocks[0].header.height + |blocks|
      ensures !Breaks(sc, blocks) && forall f :: Fails(sc, blocks, f) <==> f == TooFew
    {
      hide Tree.Valid, Run.Reaches, Run.Applies, Run.Strands;
    }

    lemma FitsIsNext(sc: ScratchChain, blocks: seq<Block>)
      requires blocks != [] && blocks[0].header.height <= sc.ts.index.height + 1
      ensures var have := sc.ts.index.height + 1 - blocks[0].header.height;
        Fits(sc, blocks) ==> have <= |blocks| && Listed(sc, blocks) && Next(sc, blocks, have)
    {
      hide Listed;
    }

    /** However the rounds end, short of block k, that is what the state before them says. */
    ghost predicate Foretold(sc: ScratchChain, blocks: seq<Block>, k: int, r: Round)
      requires blocks != []
      reads this`cs, this`ledgers, store`entries, sc
    {
      (r.Stuck? <==> Breaks(sc, blocks)) && forall f :: Fails(sc, blocks, f) <==> Reported(f, k, r)
    }

    lemma HowItEnds(sc: ScratchChain, blocks: seq<Block>)
      requires blocks != [] && sc.ts.index.height + 1 <= blocks[0].header.height + |blocks|
      ensures forall j: nat, r ::
        RunAhead(sc, blocks).Ends(j, r) ==> Foretold(sc, blocks, j + |blocks| - |Lacking(sc, blocks)|, r)
    {
      hide Tree.Valid, Run.Reaches, Run.Applies, Run.Strands, Run.Ends, Lacking, Run.BreaksMissing, Run.Breaks;
      var run := RunAhead(sc, blocks);
      forall j: nat, r | run.Ends(j, r)
        ensures Foretold(sc, blocks, j + |blocks| - |run.blocks|, r)
      {
        run.EndsThere(j, r);
        Declining(run, j, r);
      }
    }

    lemma Declining(run: Run, j: nat, r: Round)
      requires run.Ends(j, r)
      ensures r == Declined ==> j < |run.blocks| && run.Reaches(j) && !run.Applies(j + 1)
      ensures r != Declined ==> forall i :: 0 <= i < |run.blocks| ==> !run.Reaches(i) || run.Applies(i + 1)
    {
      hide Tree.Valid, Run.Reaches, Run.Applies, Run.Strands;
      run.EndsThere(j, r);
    }

    /** After the last of the blocks, it is the chain's valid tip. */
    lemma LastAdded(sc: ScratchChain, blocks: seq<Block>)
      requires sc.Valid() && sc.In(T()) && Listed(sc, blocks) && Next(sc, blocks, |blocks|)
      ensures AsReported(sc, blocks, AddedTo(sc))
    {
      hide AfterHeaders, ValidHeaders, Validated, Tree.Valid, ScratchChain.Held;
      sc.TipIsStored(T());
      LastListed(sc, blocks);
      TipOfChain(T(), sc, blocks[|blocks| - 1].Index());
    }

    lemma WantedHeight(sc: ScratchChain, index: ChainIndex)
      requires sc.Valid() && Wants(sc, index)
      ensures 0 < index.height <= sc.ts.index.height + 1
    {
      hide AfterHeaders, ValidHeaders;
      IndexHeight(sc, index);
    }

    lemma LastListed(sc: ScratchChain, blocks: seq<Block>)
      requires blocks != [] && Listed(sc, blocks)
      ensures blocks[|blocks| - 1].header.height == blocks[0].header.height + |blocks| - 1
      ensures blocks[|blocks| - 1].Index() in Indices(sc.headers)
    {
      assert sc.Has(blocks[|blocks| - 1]);
    }

    /** There is no header left for the block, or it is not valid at the chain's valid tip. */
    ghost predicate FailedAt(sc: ScratchChain, b: Block)
      reads this`ledgers, sc
    {
      sc.ts.index in ledgers && !Applies(sc, b)
    }

    /** The chain stands just below the block, which is not valid there. */
    ghost predicate InvalidAt(sc: ScratchChain, b: Block)
      reads this`ledgers, sc
    {
      sc.ts.index in ledgers && sc.ts.index.height + 1 == b.header.height && !ValidBlock(ledgers[sc.ts.index], b, work)
    }

    lemma StoppedAt(sc: ScratchChain, blocks: seq<Block>, k: nat)
      requires sc.Valid() && Listed(sc, blocks) && Refuses(sc, blocks, k)
      requires Next(sc, blocks, k)
      ensures AsReported(sc, blocks, Failed(BadBlock(k)))
    {
      hide AfterHeaders, ValidHeaders, ValidBlock, ScratchChain.Has;
      NotPastHeaders(sc, blocks[k]);
    }

    // -------------------------------------------------------------- adding headers

    /** The headers from the first on that is not stored. */
    method SkipKnown(headers: seq<BlockHeader>) returns (rest: seq<BlockHeader>)
      requires headers != []
      ensures |rest| <= |headers| && rest == headers[|headers| - |rest|..]
      ensures forall k :: 0 <= k < |headers| - |rest| ==> headers[k].Index() in store.entries
      ensures rest != [] ==> rest[0].Index() !in store.entries
    {
      rest := headers;
      while rest != []
        invariant |rest| <= |headers| && rest == headers[|headers| - |rest|..]
        invariant forall k :: 0 <= k < |headers| - |rest| ==> headers[k].Index() in store.entries
        decreases |rest|
      {
        if store.GetHeader(rest[0].Index()).UnknownIndex? {
          return;
        }
        rest := rest[1..];
      }
    }

    /** The header after the chain's tip, going by height, is one of the headers, and a child of that tip. */
    predicate Attaches(sc: ScratchChain, headers: seq<BlockHeader>)
      requires headers != []
      reads sc
    {
      var above := headers[|headers| - 1].height - sc.Tip().height;
      0 < above <= |headers| && headers[|headers| - above].ParentIndex() == sc.Tip()
    }

    /** The first chain whose tip the headers continue, and those of the headers that do. */
    method AttachPoint(headers: seq<BlockHeader>) returns (i: nat, rest: seq<BlockHeader>)
      requires ChainsHeld() && headers != []
      ensures i <= |chains| && forall k :: 0 <= k < i ==> !Attaches(chains[k], headers)
      ensures i < |chains| ==>
        Attaches(chains[i], headers) && 0 < |rest| <= |headers| && rest == headers[|headers| - |rest|..] &&
        |rest| == headers[|headers| - 1].height - chains[i].Tip().height
    {
      hide Tree.Valid, ScratchChain.Valid, ScratchChain.Held;
      var tip := headers[|headers| - 1];
      for k := 0 to |chains|
        invariant forall j :: 0 <= j < k ==> !Attaches(chains[j], headers)
      {
        var sc := chains[k];
        if tip.height <= sc.Tip().height || tip.height > sc.Tip().height + |headers| {
          continue;
        }
        var attachHeight := |headers| - (tip.height - sc.Tip().height);
        if sc.Tip() == headers[attachHeight].ParentIndex() {
          return k, headers[attachHeight..];
        }
      }
      return |chains|, [];
    }

    method AppendOne(chain: ScratchChain, h: BlockHeader) returns (r: Check<HeaderError>)
      requires ChainsHeld() && chain in chains
      modifies chain`headers, chain`hs
      ensures ChainsHeld() && (old(ChainsIn()) ==> ChainsIn()) && r == ValidateHeader(old(chain.hs), h, work)
      ensures chain.headers == if r == Ok then old(chain.headers) + [h] else old(chain.headers)
      ensures chain.hs == if r == Ok then ApplyHeader(old(chain.hs), h) else old(chain.hs)
      ensures r != Ok ==> Refused(chain.hs, h, work, r.error)
    {
      hide Tree.Valid, ScratchChain.Valid, ScratchChain.Held, ScratchChain.In, ValidateHeader, ApplyHeader;
      ChainIn(chain);
      SameWork(chain);
      chain.HeaderWindow();
      r := chain.AppendHeader(h);
      chain.StillIn(T());
    }

    lemma HeaderRoom(sc: ScratchChain)
      requires ChainsHeld() && sc in chains
      ensures |sc.hs.prevTimestamps| == WINDOW
    {
      hide Tree.Valid, ScratchChain.Valid, ScratchChain.Held, ScratchChain.In;
      ChainIn(sc);
      sc.HeaderWindow();
    }

    lemma SameWork(sc: ScratchChain)
      requires sc.Held(T())
      ensures sc.work == work
    {
      hide Tree.Valid;
    }

    /**
      The chain has got the first k of the headers, which are accepted one after
      the other from state s on.  If there are more, the next one is refused,
      for being more than two hours ahead of time or for being invalid.
     */
    ghost predicate Extended(sc: ScratchChain, before: seq<BlockHeader>, s: State, headers: seq<BlockHeader>, now: int,
                             k: nat, r: HeadersResult)
      reads this`cs, sc
    {
      k <= |headers| && Acceptable(s, headers[..k], work, now) && sc.headers == before + headers[..k] &&
      if k == |headers| then r == if sc.TotalWork() > cs.totalWork then Heavier(sc) else NothingNew
      else if headers[k].timestamp > now + 2 * 3600 * SECOND then r == FutureHeader
      else r.BadHeader? && Refused(AfterHeaders(s, headers[..k]), headers[k], work, r.error)
    }

    /** Validates headers one by one; the ones before the first bad one stay. */
    method AppendAll(chain: ScratchChain, headers: seq<BlockHeader>, now: int) returns (r: HeadersResult)
      requires ChainsHeld() && chain in chains
      modifies chain`headers, chain`hs
      ensures ChainsHeld() && (old(ChainsIn()) ==> ChainsIn()) && old(chain.headers) <= chain.headers
      ensures r == Heavier(chain) || r == NothingNew || r == FutureHeader || r.BadHeader?
      ensures r == Heavier(chain) || r == NothingNew <==> Acceptable(old(chain.hs), headers, work, now)
      ensures r == Heavier(chain) || r == NothingNew ==> chain.headers == old(chain.headers) + headers
      ensures r == Heavier(chain) ==> chain.TotalWork() > cs.totalWork
      ensures r == NothingNew ==> chain.TotalWork() <= cs.totalWork
      ensures Continued(chain, old(chain.headers), old(chain.hs), headers, now, r)
    {
      hide Tree.Valid, ScratchChain.Valid, ScratchChain.Held, ScratchChain.In, ValidateHeader, ApplyHeader,
        AfterHeaders, ChainsIn, ChainsHeld, Acceptable;
      ghost var s := chain.hs;
      HeaderRoom(chain);
      NoHeaders(s);
      for k := 0 to |headers|
        invariant ChainsHeld() && (old(ChainsIn()) ==> ChainsIn()) && chain.headers == old(chain.headers) + headers[..k]
        invariant chain.hs == AfterHeaders(s, headers[..k]) && Acceptable(s, headers[..k], work, now)
      {
        OneHeader(s, headers, work, now, k);
        if headers[k].timestamp > MaxFutureTimestamp(now) {
          assert Extended(chain, old(chain.headers), s, headers, now, k, FutureHeader);
          return FutureHeader;
        }
        var v := AppendOne(chain, headers[k]);
        if v != Ok {
          assert Extended(chain, old(chain.headers), s, headers, now, k, BadHeader(v.error));
          return BadHeader(v.error);
        }
        assert headers[..k + 1] == headers[..k] + [headers[k]];
      }
      assert headers[..|headers|] == headers;
      assert Extended(chain, old(chain.headers), s, headers, now, |headers|,
                      if chain.TotalWork() > cs.totalWork then Heavier(chain) else NothingNew);
      return if chain.TotalWork() > cs.totalWork then Heavier(chain) else NothingNew;
    }

    /** A new scratch chain on a stored block. */
    method NewChain(index: ChainIndex) returns (chain: ScratchChain)
      requires T().Valid() && ChainsHeld() && index in store.entries
      modifies this`chains
      ensures ChainsHeld() && (old(ChainsIn()) ==> ChainsIn()) && fresh(chain) && chains == old(chains) + [chain]
      ensures chain.base == index && chain.headers == [] && chain.Tip() == index
      ensures chain.hs == chain.ts == store.entries[index].state
    {
      hide Compact, Tree.Recorded, Tree.Attached, ScratchChain.Valid, Validated;
      EntryState(T(), index);
      CompactParts(ledgers[index]);
      LedgerIndex(index);
      chain := new ScratchChain(store.GetCheckpoint(index).value.state, work);
      NothingDone(T(), index, chain.start);
      assert chain.headers[..0] == [] && chain.Valid() && chain.In(T());
      chains := chains + [chain];
    }

    /** The header is known: in the store, or in a scratch chain no heavier than the tip. */
    ghost predicate Seen(index: ChainIndex)
      reads this`chains, this`cs, store`entries, chains
    {
      index in store.entries ||
      exists i :: 0 <= i < |chains| && index in Indices(chains[i].headers) && chains[i].TotalWork() <= cs.totalWork
    }

    /** The header is in no chain, and its block is not stored. */
    ghost predicate Unseen(index: ChainIndex)
      reads this`chains, store`entries, chains
    {
      index !in store.entries && forall i :: 0 <= i < |chains| ==> index !in Indices(chains[i].headers)
    }

    /** The last of the headers is not known yet. */
    ghost predicate News(headers: seq<BlockHeader>)
      reads this`chains, store`entries, chains
    {
      headers != [] && Unseen(headers[|headers| - 1].Index())
    }

    /** No chain changes, except for the headers of the one that takes the new ones. */
    twostate predicate OthersStay(headers: seq<BlockHeader>)
      reads this`chains, chains
    {
      old(chains) <= chains &&
      (forall i :: 0 <= i < |old(chains)| ==> old(chains)[i].ts == old(chains[i].ts)) &&
      forall i: nat :: i < |old(chains)| && !old(FirstToTake(i, headers)) ==>
        old(chains)[i].headers == old(chains[i].headers) && old(chains)[i].hs == old(chains[i].hs)
    }

    /** The first chain that has the last header is the answer, if it promises more work than the tip. */
    ghost predicate AlreadyKnown(headers: seq<BlockHeader>, r: HeadersResult)
      reads this`chains, this`cs, store`entries, chains
    {
      (headers == [] || headers[|headers| - 1].Index() in store.entries ==> r == NothingNew) &&
      (headers != [] && headers[|headers| - 1].Index() !in store.entries ==>
         forall i: nat :: FirstWith(i, headers[|headers| - 1].Index()) ==>
           r == if chains[i].TotalWork() > cs.totalWork then Heavier(chains[i]) else NothingNew)
    }

    /** The first chain that the headers attach to has got what is accepted of those above its tip. */
    twostate predicate Lengthened(headers: seq<BlockHeader>, now: int, new r: HeadersResult)
      reads this`chains, this`cs, chains
    {
      forall i: nat :: old(FirstToTake(i, headers)) ==>
        chains == old(chains) &&
        Continued(chains[i], old(chains[i].headers), old(chains[i].hs), old(Above(chains[i], headers)), now, r)
    }

    /** A new chain has got what is accepted of the headers from the first on that is not stored. */
    twostate predicate Started(headers: seq<BlockHeader>, now: int, new r: HeadersResult)
      reads this`chains, this`cs, store`entries, chains
    {
      forall d: nat :: FirstUnknown(headers, d) ==> Opened(old(chains), headers, d, now, r)
    }

    /** Chain i is the first that has the header. */
    ghost predicate FirstWith(i: nat, index: ChainIndex)
      reads this`chains, chains
    {
      i < |chains| && index in Indices(chains[i].headers) &&
      forall j :: 0 <= j < i ==> index !in Indices(chains[j].headers)
    }

    /**
      AddHeaders.  Where the last header is known already, nothing changes, and
      the answer is the chain that has it, if that promises more work than the
      tip.  Otherwise the first chain that the headers attach to, or else a new
      one on the parent of the first that is not stored, gets what is accepted
      of them, and the answer is that chain, if all are and it promises more
      work than the tip, or what the first refused header is refused for.
      Headers without a stored block to stand on change nothing.
     */
    method AddHeaders(headers: seq<BlockHeader>, now: int) returns (r: HeadersResult)
      requires Valid()
      modifies this`chains, chains
      ensures Valid() && (old(ChainsIn()) ==> ChainsIn()) && old(chains) <= chains && |chains| <= |old(chains)| + 1
      ensures OthersStay(headers) && forall i :: |old(chains)| <= i < |chains| ==> fresh(chains[i])
      ensures r.Heavier? ==> r.chain in chains && headers != [] && r.chain.TotalWork() > cs.totalWork
      ensures r.Heavier? ==> headers[|headers| - 1].Index() in Indices(r.chain.headers)
      ensures r == NothingNew ==> headers == [] || Seen(headers[|headers| - 1].Index())
      ensures !old(News(headers)) ==>
        AlreadyKnown(headers, r) && chains == old(chains) &&
        forall i :: 0 <= i < |chains| ==> chains[i].headers == old(chains[i].headers)
      ensures r == Orphaned <==> old(News(headers) && NoneTakes(headers)) && Orphans(headers)
      ensures r == Orphaned ==> chains == old(chains)
      ensures old(News(headers)) ==> Lengthened(headers, now, r)
      ensures old(News(headers) && NoneTakes(headers)) && !Orphans(headers) ==> Started(headers, now, r)
    {
      hide OnBest, Following, ChainsIn, ChainsHeld, Tree.Valid, Compact, Indices, Seen, Orphans, Acceptable, Attaches,
        Continued, Opened, Above, FirstUnknown, FirstWith, NoneTakes, News, AlreadyKnown, ScratchChain.TotalWork;
      var known;
      known, r := FindHeaders(headers);
      if known {
        return;
      }
      TipState();
      r := AddNewHeaders(headers, now);
    }

    /** Nothing is to be done where the last header is known. */
    method FindHeaders(headers: seq<BlockHeader>) returns (known: bool, r: HeadersResult)
      requires OnBest() && ChainsHeld()
      ensures known <==> !News(headers)
      ensures known ==> AlreadyKnown(headers, r) && (r == NothingNew || r.Heavier?)
      ensures known && r.Heavier? ==>
        r.chain in chains && headers != [] && r.chain.TotalWork() > cs.totalWork &&
        headers[|headers| - 1].Index() in Indices(r.chain.headers)
      ensures known && r == NothingNew ==> headers == [] || Seen(headers[|headers| - 1].Index())
      ensures !known ==> headers != [] && headers[|headers| - 1].Index() !in store.entries
    {
      hide OnBest, ChainsHeld, Indices, Seen, FirstWith, ScratchChain.TotalWork;
      if |headers| == 0 {
        return true, NothingNew;
      }
      var headerTip := headers[|headers| - 1];
      TipState();
      SeenHere(headerTip.Index());
      if cs.index == headerTip.Index() || store.GetHeader(headerTip.Index()).Found? {
        return true, NothingNew;
      }
      known, r := FindKnown(headerTip.Index());
    }

    /** Headers that a new chain begins with: above a stored block, valid, and apart from all other chains. */
    ghost predicate Begins(headers: seq<BlockHeader>, now: int)
      reads this`chains, store`entries, chains
    {
      headers != [] && headers[0].ParentIndex() in store.entries && headers[0].Index() !in store.entries &&
      Acceptable(store.entries[headers[0].ParentIndex()].state, headers, work, now) &&
      headers[|headers| - 1].Index() !in store.entries &&
      forall i :: 0 <= i < |chains| ==>
        !Attaches(chains[i], headers) && headers[|headers| - 1].Index() !in Indices(chains[i].headers)
    }

    /** There is one chain more, on the parent of header d, with what is accepted of the headers from there on. */
    ghost predicate Opened(before: seq<ScratchChain>, headers: seq<BlockHeader>, d: nat, now: int, r: HeadersResult)
      reads this`chains, this`cs, store`entries, chains
    {
      |chains| == |before| + 1 && before <= chains && d < |headers| &&
      var c, p := chains[|before|], headers[d].ParentIndex();
      c.base == c.ts.index == p && p in store.entries && c.ts == store.entries[p].state &&
      Continued(c, [], store.entries[p].state, headers[d..], now, r)
    }

    /** The last chain is a new one with these headers, none of whose blocks are validated. */
    ghost predicate Begun(headers: seq<BlockHeader>, r: HeadersResult)
      reads this`chains, this`cs, chains
    {
      headers != [] && chains != [] &&
      var c := chains[|chains| - 1];
      c.base == c.ts.index == headers[0].ParentIndex() && c.headers == headers &&
      r == if c.TotalWork() > cs.totalWork then Heavier(c) else NothingNew
    }

    /** If the first header is refused, the chain gets none, and the answer is why. */
    lemma NoneExtended(sc: ScratchChain, before: seq<BlockHeader>, s: State, h: BlockHeader, now: int, r: HeadersResult)
      requires Continued(sc, before, s, [h], now, r) && !Acceptable(s, [h], work, now)
      ensures sc.headers == before
      ensures if h.timestamp > now + 2 * 3600 * SECOND then r == FutureHeader
              else r.BadHeader? && Refused(s, h, work, r.error)
    {
      hide ValidHeaders, ValidateHeader;
      var k: nat :| Extended(sc, before, s, [h], now, k, r);
      assert [h][..0] == [] && [h][..1] == [h];
      assert k == 0;
      assert AfterHeaders(s, []) == s;
    }

    lemma BeginsAnew(headers: seq<BlockHeader>, now: int)
      requires Begins(headers, now)
      ensures headers != [] && News(headers) && NoneTakes(headers) && !Orphans(headers) && FirstUnknown(headers, 0)
      ensures headers[0].ParentIndex() in store.entries
      ensures Acceptable(store.entries[headers[0].ParentIndex()].state, headers, work, now)
    {
      hide Acceptable, Attaches;
      forall d: nat | FirstUnknown(headers, d)
        ensures d == 0
      {
        OneUnknown(headers, 0, d);
      }
    }

    /** With headers that a new chain begins with, it gets all of them. */
    lemma AllBegun(before: seq<ScratchChain>, headers: seq<BlockHeader>, now: int, r: HeadersResult)
      requires headers != [] && headers[0].ParentIndex() in store.entries && Opened(before, headers, 0, now, r)
      requires Acceptable(store.entries[headers[0].ParentIndex()].state, headers, work, now)
      ensures Begun(headers, r) && |chains| == |before| + 1
    {
      hide Acceptable, Continued;
      assert headers[0..] == headers;
      AllExtended(chains[|before|], [], store.entries[headers[0].ParentIndex()].state, headers, now, r);
    }

    /** If all headers are acceptable, the chain gets all of them. */
    lemma AllExtended(sc: ScratchChain, before: seq<BlockHeader>, s: State, headers: seq<BlockHeader>, now: int,
                      r: HeadersResult)
      requires Continued(sc, before, s, headers, now, r) && Acceptable(s, headers, work, now)
      ensures sc.headers == before + headers && r == if sc.TotalWork() > cs.totalWork then Heavier(sc) else NothingNew
    {
      hide ValidHeaders, AfterHeaders, ValidateHeader;
      var k: nat :| Extended(sc, before, s, headers, now, k, r);
      if k < |headers| {
        OneHeader(s, headers, work, now, k);
      }
      assert headers[..|headers|] == headers;
    }

    ghost predicate AllStored(headers: seq<BlockHeader>, n: nat)
      reads store`entries
    {
      n <= |headers| && forall k :: 0 <= k < n ==> headers[k].Index() in store.entries
    }

    /** The rest of AddHeaders, for headers whose last one is not known yet. */
    method AddNewHeaders(headers: seq<BlockHeader>, now: int) returns (r: HeadersResult)
      requires T().Valid() && ChainsHeld() && headers != [] && headers[|headers| - 1].Index() !in store.entries
      modifies this`chains, chains
      ensures ChainsHeld() && (old(ChainsIn()) ==> ChainsIn()) && old(chains) <= chains && |chains| <= |old(chains)| + 1
      ensures OthersStay(headers) && forall i :: |old(chains)| <= i < |chains| ==> fresh(chains[i])
      ensures r.Heavier? ==> r.chain in chains && r.chain.TotalWork() > cs.totalWork
      ensures r.Heavier? ==> headers[|headers| - 1].Index() in Indices(r.chain.headers)
      ensures r == NothingNew ==> Seen(headers[|headers| - 1].Index())
      ensures r == Orphaned <==> old(NoneTakes(headers)) && Orphans(headers)
      ensures r == Orphaned ==> chains == old(chains)
      ensures Lengthened(headers, now, r)
      ensures old(NoneTakes(headers)) && !Orphans(headers) ==> Started(headers, now, r)
    {
      hide Tree.Valid, ScratchChain.Valid, ScratchChain.Held, ScratchChain.In, At, Settled, Indices, Seen, Orphans,
        Attaches, Acceptable, ChainsHeld, ChainsIn, Extended, Continued, FirstUnknown, Above, Opened,
        NoneTakes;
      ChainsDiffer();
      var headerTip := headers[|headers| - 1];
      var chain, rest;
      chain, rest, r := ChooseChain(headers);
      SeenHere(headerTip.Index());
      if chain == null {
        return;
      }
      // as far as they are valid
      r := AppendAll(chain, rest, now);
      if r == Heavier(chain) || r == NothingNew {
        LastHeader(chain, headers, rest);
        SeenHere(headerTip.Index());
      }
      if chain !in old(chains) {
        NewlyOpened(old(chains), headers, |headers| - |rest|, now, r);
      }
    }

    lemma ChainsDiffer()
      requires ChainsHeld()
      ensures forall i, j :: 0 <= i < j < |chains| ==> chains[i] != chains[j]
    {
    }

    lemma NewlyOpened(before: seq<ScratchChain>, headers: seq<BlockHeader>, d: nat, now: int, r: HeadersResult)
      requires |chains| == |before| + 1 && before <= chains && FirstUnknown(headers, d)
      requires var c := chains[|before|];
        c.base == c.ts.index == headers[d].ParentIndex() && c.base in store.entries &&
        c.ts == store.entries[c.base].state && Continued(c, [], c.ts, headers[d..], now, r)
      ensures forall e: nat :: FirstUnknown(headers, e) ==> Opened(before, headers, e, now, r)
    {
      hide Continued;
      forall e: nat | FirstUnknown(headers, e)
        ensures e == d
      {
        OneUnknown(headers, d, e);
      }
    }

    lemma SeenHere(index: ChainIndex)
      ensures index in store.entries ==> Seen(index)
      ensures forall i ::
        0 <= i < |chains| && index in Indices(chains[i].headers) && chains[i].TotalWork() <= cs.totalWork ==>
        Seen(index)
    {
    }

    /** Header d is the first that is not stored. */
    ghost predicate FirstUnknown(headers: seq<BlockHeader>, d: nat)
      reads store`entries
    {
      d < |headers| && AllStored(headers, d) && headers[d].Index() !in store.entries
    }

    /** The first header, or the first that is not stored, has a parent that is not stored. */
    ghost predicate Orphans(headers: seq<BlockHeader>)
      reads store`entries
    {
      headers != [] &&
      (headers[0].ParentIndex() !in store.entries ||
       exists d: nat :: FirstUnknown(headers, d) && headers[d].ParentIndex() !in store.entries)
    }

    lemma OneUnknown(headers: seq<BlockHeader>, d: nat, e: nat)
      requires FirstUnknown(headers, d) && FirstUnknown(headers, e)
      ensures d == e
    {
    }

    /** The headers attach to chain i, and to none before it. */
    ghost predicate FirstToTake(i: nat, headers: seq<BlockHeader>)
      reads this`chains, chains
    {
      headers != [] && i < |chains| && Attaches(chains[i], headers) &&
      forall j :: 0 <= j < i ==> !Attaches(chains[j], headers)
    }

    ghost predicate NoneTakes(headers: seq<BlockHeader>)
      reads this`chains, chains
    {
      headers != [] && forall i :: 0 <= i < |chains| ==> !Attaches(chains[i], headers)
    }

    /** The headers that are higher than the chain's tip. */
    ghost function Above(sc: ScratchChain, headers: seq<BlockHeader>): (rest: seq<BlockHeader>)
      reads sc
    {
      if headers != [] && 0 <= headers[|headers| - 1].height - sc.Tip().height <= |headers|
      then headers[|headers| - (headers[|headers| - 1].height - sc.Tip().height)..]
      else []
    }

    /**
      For headers of consecutive heights: they attach to a chain just when one
      of them is a child of its tip, and from that one on they are above it.
     */
    lemma AttachesAtChild(sc: ScratchChain, headers: seq<BlockHeader>)
      requires headers != [] && headers[0].height > 0
      requires forall k :: 0 <= k < |headers| ==> headers[k].height == headers[0].height + k
      ensures Attaches(sc, headers) <==> exists k :: 0 <= k < |headers| && headers[k].ParentIndex() == sc.Tip()
      ensures forall k :: 0 <= k < |headers| && headers[k].ParentIndex() == sc.Tip() ==>
        Above(sc, headers) == headers[k..]
    {
    }

    /** Headers that are each other's children are orphans just when the first one's parent is not stored. */
    lemma OrphansByParent(headers: seq<BlockHeader>)
      requires headers != [] && forall k :: 0 < k < |headers| ==> headers[k].ParentIndex() == headers[k - 1].Index()
      ensures Orphans(headers) <==> headers[0].ParentIndex() !in store.entries
    {
      forall d: nat | FirstUnknown(headers, d) && d > 0
        ensures headers[d].ParentIndex() in store.entries
      {
        assert headers[d - 1].Index() in store.entries;
      }
      assert headers[0].ParentIndex() !in store.entries || !Orphans(headers);
    }

    /** A chain has got what is accepted of some headers, and the rest is why r is the answer. */
    ghost predicate Continued(sc: ScratchChain, before: seq<BlockHeader>, s: State, headers: seq<BlockHeader>, now: int,
                              r: HeadersResult)
      reads this`cs, sc
    {
      exists k: nat :: Extended(sc, before, s, headers, now, k, r)
    }

    /**
      The first chain that the headers attach to, with those of them above its
      tip, or else a new chain on a stored block, with the headers from the
      first on that is not stored.
     */
    method ChooseChain(headers: seq<BlockHeader>)
      returns (chain: ScratchChain?, rest: seq<BlockHeader>, r: HeadersResult)
      requires T().Valid() && ChainsHeld() && headers != []
      modifies this`chains
      ensures ChainsHeld() && (old(ChainsIn()) ==> ChainsIn()) && old(chains) <= chains && |chains| <= |old(chains)| + 1
      ensures forall i :: |old(chains)| <= i < |chains| ==> fresh(chains[i])
      ensures chain != null ==> chain in chains && 0 < |rest| <= |headers| && rest == headers[|headers| - |rest|..]
      ensures chain != null ==> rest[0].ParentIndex() == chain.Tip()
      ensures chain != null && chain in old(chains) ==>
        chains == old(chains) && Attaches(chain, headers) &&
        |rest| == headers[|headers| - 1].height - chain.Tip().height
      ensures old(NoneTakes(headers)) <==> chain == null || chain !in old(chains)
      ensures forall i: nat :: old(FirstToTake(i, headers)) ==>
        chain == old(chains)[i] && rest == old(Above(chains[i], headers))
      ensures chain != null && chain in old(chains) ==>
        exists i: nat :: old(FirstToTake(i, headers)) && chain == old(chains)[i]
      ensures chain != null && chain !in old(chains) ==>
        chains == old(chains) + [chain] && chain.base in store.entries &&
        chain.hs == chain.ts == store.entries[chain.base].state && chain.ts.index == chain.base
      ensures chain != null && chain !in old(chains) ==>
        chain.base == rest[0].ParentIndex() && chain.headers == [] && FirstUnknown(headers, |headers| - |rest|) &&
        !Orphans(headers)
      ensures chain == null ==> chains == old(chains)
      ensures chain == null ==>
        (r == Orphaned && Orphans(headers)) || (r == NothingNew && AllStored(headers, |headers|))
    {
      hide Tree.Valid, ScratchChain.Valid, ScratchChain.Held, ScratchChain.In, ChainsHeld, ChainsIn;
      r := NothingNew;
      var i;
      i, rest := AttachPoint(headers);
      if i < |chains| {
        return chains[i], rest, r;
      }
      // without one, the headers must start from a stored block
      if store.GetHeader(headers[0].ParentIndex()).UnknownIndex? {
        return null, [], Orphaned;
      }
      rest := SkipKnown(headers);
      if rest == [] {
        return null, [], NothingNew;
      }
      var base := store.GetHeader(rest[0].ParentIndex());
      if base.UnknownIndex? {
        assert headers[|headers| - |rest|].ParentIndex() !in store.entries;
        return null, [], Orphaned;
      }
      EntryIndex(T(), rest[0].ParentIndex());
      chain := NewChain(base.value.Index());
    }

    /** The first chain that has a header already, if any. */
    method FindKnown(index: ChainIndex) returns (known: bool, r: HeadersResult)
      requires ChainsHeld()
      ensures known <==> exists i :: 0 <= i < |chains| && index in Indices(chains[i].headers)
      ensures known ==>
        if r.Heavier? then r.chain in chains && index in Indices(r.chain.headers) && r.chain.TotalWork() > cs.totalWork
        else r == NothingNew && Seen(index)
      ensures forall i: nat :: known && FirstWith(i, index) ==>
        r == if chains[i].TotalWork() > cs.totalWork then Heavier(chains[i]) else NothingNew
    {
      hide Tree.Valid, ScratchChain.Valid, ScratchChain.Held, Indices, ChainsHeld, FirstWith, ScratchChain.TotalWork;
      for i := 0 to |chains|
        invariant forall j :: 0 <= j < i ==> index !in Indices(chains[j].headers)
      {
        ChainIn(chains[i]);
        var contains := chains[i].Contains(index);
        if contains {
          FirstHere(i, index);
          return true, if chains[i].TotalWork() > cs.totalWork then Heavier(chains[i]) else NothingNew;
        }
      }
      return false, NothingNew;
    }

    lemma FirstHere(i: nat, index: ChainIndex)
      requires i < |chains| && index in Indices(chains[i].headers)
      requires forall j :: 0 <= j < i ==> index !in Indices(chains[j].headers)
      ensures forall k: nat :: FirstWith(k, index) ==> k == i
    {
      hide Indices;
    }

    lemma LastHeader(sc: ScratchChain, headers: seq<BlockHeader>, rest: seq<BlockHeader>)
      requires rest != [] && |rest| <= |headers| && rest == headers[|headers| - |rest|..]
      requires |sc.headers| >= |rest| && sc.headers[|sc.headers| - |rest|..] == rest
      ensures headers[|headers| - 1].Index() in Indices(sc.headers)
    {
      var n := |sc.headers|;
      assert sc.headers[n - |rest|..][|rest| - 1] == sc.headers[n - 1];
      assert Indices(sc.headers)[n - 1] == headers[|headers| - 1].Index();
    }

    // -------------------------------------------------------------- what the best list means

    /** The best list is gap-free: each block is the child of the one before it. */
    lemma BestIsLinked(k: nat)
      requires OnBest() && k < |store.best|
      ensures store.best[0] == base && store.best[|store.best| - 1] == cs.index
      ensures store.best[k] in store.entries && store.best[k].height == base.height + k
      ensures k > 0 ==> store.entries[store.best[k]].block.header.ParentIndex() == store.best[k - 1]
    {
      hide Compact, Tree.Recorded, Tree.Attached, Tree.Chain;
      ParentChain(T(), base);
      ParentChain(T(), cs.index);
      Ancestor(T(), cs.index, T().Root());
      Ancestor(T(), cs.index, T().Root() + k);
      AboveRoot(T(), T().Chain(cs.index)[T().Root()]);
    }

    /** The blocks of the chain to index i, above the base. */
    ghost function BlocksTo(i: ChainIndex): seq<Block>
      requires T().Valid() && i in store.entries
      reads this`ledgers, store`entries
      decreases |T().Chain(i)|
    {
      if i == base then []
      else
        ParentChain(T(), i);
        BlocksTo(store.entries[i].block.header.ParentIndex()) + [store.entries[i].block]
    }

    /** Every stored ledger is what the blocks up to it make of the base's. */
    lemma {:induction false} LedgerIsReplay(i: ChainIndex)
      requires T().Valid() && i in store.entries
      ensures ledgers[i] == Replay(ledgers[base], BlocksTo(i)) && ValidChain(ledgers[base], BlocksTo(i), work)
      ensures store.entries[i].state == Compact(Replay(ledgers[base], BlocksTo(i)))
      decreases |T().Chain(i)|
    {
      hide Compact, NextFull, ValidBlock, Tree.Recorded, Tree.Attached, WellFormed, InLimits;
      EntryState(T(), i);
      if i != base {
        var b := store.entries[i].block;
        var p := b.header.ParentIndex();
        ParentChain(T(), i);
        EntryStep(T(), i);
        LedgerIsReplay(p);
        FewElements(T(), p);
        assert (BlocksTo(p) + [b])[..|BlocksTo(p)|] == BlocksTo(p);
      }
    }

    /** On a node that started from a genesis block, no stored ledger holds more than the supply allows. */
    lemma SupplyAt(genesis: Block, difficulty: nat, i: ChainIndex)
      requires T().Valid() && i in store.entries && Genesis(genesis)
      requires ledgers[base] == NextFull(EmptyLedger(difficulty, genesis.header.timestamp), genesis)
      ensures Unspent(ledgers[i].elements) <= AllOutputValue(genesis.transactions) + 210000 * 100_000_000_000
    {
      hide NextFull, Genesis, Tree.Valid, ValidChain, Replay, Unspent;
      LedgerIsReplay(i);
      SupplyIsBounded(genesis, difficulty, BlocksTo(i), work);
    }

    // -------------------------------------------------------------- history

    /** sort.Search over the heights below the tip: the lowest height that is on the best list. */
    method BaseHeight() returns (height: nat)
      requires OnBest()
      ensures height == T().Root()
    {
      hide Settled, Tree.Valid, EphemeralStore.BestIndex, Tree.Chain, Tree.Root;
      var i: nat, j: nat := 0, cs.index.height;
      RootBelow();
      while i < j
        invariant i <= T().Root() <= j <= cs.index.height
      {
        var h: nat := (i + j) / 2;
        BestAt(h);
        if store.BestIndex(h).UnknownIndex? {
          i := h + 1;
        } else {
          j := h;
        }
      }
      return i;
    }

    lemma RootBelow()
      requires OnBest()
      ensures T().Root() <= cs.index.height && |T().Chain(cs.index)| == cs.index.height + 1
    {
      hide Tree.Recorded, Tree.Attached, Compact;
      ParentChain(T(), cs.index);
    }

    /**
      History: indices of the best chain, from the tip down to the base, at
      offsets that are consecutive at first and then double.
     */
    method History() returns (history: seq<ChainIndex>)
      requires OnBest()
      ensures history != [] && history[0] == cs.index && history[|history| - 1] == base
      ensures forall i :: 0 <= i < |history| ==> Spaced(T(), cs.index, history[i], i)
      ensures forall i :: 0 <= i < |history| - 1 ==> HistoryOffset(i) < cs.index.height - T().Root()
    {
      hide Settled, Tree.Valid, EphemeralStore.BestIndex, Tree.Chain, Tree.Root, HistoryOffset, Spaced;
      var baseHeight := BaseHeight();
      RootBelow();
      history := [];
      ghost var span := cs.index.height - baseHeight;
      while true
        invariant forall i :: 0 <= i < |history| ==> Spaced(T(), cs.index, history[i], i) && HistoryOffset(i) < span
        invariant history != [] ==> history[0] == cs.index
        decreases span + 1 - |history|
      {
        var offset := HistoryOffset(|history|);
        if offset > cs.index.height - baseHeight {
          offset := cs.index.height - baseHeight;
        }
        HistoryEntry(|history|, offset);
        if |history| > 0 {
          OffsetsSpread(|history| - 1);
        }
        var index := store.BestIndex(cs.index.height - offset).value;
        history := history + [index];
        if index.height == baseHeight {
          break;
        }
      }
    }

    lemma HistoryEntry(i: nat, offset: nat)
      requires OnBest() && T().Root() <= cs.index.height
      requires offset == Least(HistoryOffset(i), cs.index.height - T().Root())
      ensures store.best != [] && store.best[|store.best| - 1].height == store.best[0].height + |store.best| - 1
      ensures store.BestIndex(cs.index.height - offset).Found?
      ensures var index := store.BestIndex(cs.index.height - offset).value;
        Spaced(T(), cs.index, index, i) && (i == 0 ==> index == cs.index) &&
        (index.height == T().Root() <==> offset == cs.index.height - T().Root()) &&
        (index.height == T().Root() ==> index == base)
    {
      hide Settled, Tree.Recorded, Tree.Attached, EphemeralStore.BestIndex, Tree.Root;
      BestAt(cs.index.height - offset);
      Ancestor(T(), cs.index, cs.index.height - offset);
      ParentChain(T(), cs.index);
      AboveRoot(T(), T().Chain(cs.index)[cs.index.height - offset]);
    }

    /**
      HeadersForHistory: the headers of the best chain that follow the first
      index of the history that is on it, as many as asked for or as there are.
     */
    method HeadersForHistory(max: nat, history: seq<ChainIndex>) returns (headers: seq<BlockHeader>)
      requires OnBest()
      ensures var from := AttachHeight(T(), cs.index, history) + 1;
        |headers| == (if T().Root() <= from <= cs.index.height then Least(max, cs.index.height + 1 - from) else 0) &&
        forall k :: 0 <= k < |headers| ==> headers[k].Index() == BlockAt(T(), cs.index, from + k)
    {
      hide Settled, Tree.Valid, EphemeralStore.BestIndex, Tree.Chain, Tree.Root;
      var attachHeight := 0;
      RootBelow();
      ghost var attach := AttachHeight(T(), cs.index, history);
      assert history[0..] == history;
      for i := 0 to |history|
        invariant attachHeight == 0 && attach == AttachHeight(T(), cs.index, history[i..])
      {
        BestEntry(history[i].height);
        assert history[i..][1..] == history[i + 1..];
        var index := store.BestIndex(history[i].height);
        if (if index.Found? then index.value else ChainIndex(0, ZeroHash)) == history[i] {
          attachHeight := history[i].height;
          break;
        }
      }
      assert history[|history|..] == [];
      headers := [];
      for k := 0 to max
        invariant |headers| == k && (k > 0 ==> T().Root() <= attach + 1 && attach + k <= cs.index.height)
        invariant forall i :: 0 <= i < k ==> headers[i].Index() == BlockAt(T(), cs.index, attach + 1 + i)
      {
        BestEntry(attachHeight + k + 1);
        var index := store.BestIndex(attachHeight + k + 1);
        if index.UnknownIndex? {
          return;
        }
        headers := headers + [store.GetHeader(index.value).value];
      }
    }

    lemma BestEntry(height: nat)
      requires OnBest()
      ensures store.best != [] && store.best[|store.best| - 1].height == store.best[0].height + |store.best| - 1
      ensures store.BestIndex(height).Found? <==> T().Root() <= height <= cs.index.height
      ensures store.BestIndex(height).Found? ==>
        var i := store.BestIndex(height).value;
        i == BlockAt(T(), cs.index, height) && i in store.entries && store.entries[i].block.header.Index() == i &&
        i.height == height
      ensures store.BestIndex(height).Found? ==> store.BestIndex(height).value.id.BlockHash?
    {
      hide Settled, Tree.Recorded, Tree.Attached, EphemeralStore.BestIndex, Tree.Root;
      RootBelow();
      BestAt(height);
      if T().Root() <= height <= cs.index.height {
        Ancestor(T(), cs.index, height);
        EntryIndex(T(), T().Chain(cs.index)[height]);
      }
    }
  }

  /**
    The height of the first index of a history that is on the chain to the
    tip, or else 0.  A zero index ends the search when the store has no
    block of height 0.
   */
  ghost function AttachHeight(t: Tree, tip: ChainIndex, history: seq<ChainIndex>): nat {
    if history == [] || (history[0] == ChainIndex(0, ZeroHash) && t.Root() > 0) then 0
    else if t.Root() <= history[0].height <= tip.height && BlockAt(t, tip, history[0].height) == history[0] then
      history[0].height
    else AttachHeight(t, tip, history[1..])
  }

  /** The best chain has the index. */
  ghost predicate OnChainOf(t: Tree, tip: ChainIndex, index: ChainIndex) {
    t.Root() <= index.height <= tip.height && index.height < |t.Chain(tip)| && t.Chain(tip)[index.height] == index
  }

  /** It is the height of entry k, if that is the first on the best chain; if there is none, 0. */
  lemma {:induction false} AttachesAtFirst(t: Tree, tip: ChainIndex, history: seq<ChainIndex>, k: nat)
    requires |t.Chain(tip)| == tip.height + 1 && k <= |history|
    requires forall j :: 0 <= j < k ==> !OnChainOf(t, tip, history[j]) && history[j] != ChainIndex(0, ZeroHash)
    ensures k == |history| ==> AttachHeight(t, tip, history) == 0
    ensures k < |history| && OnChainOf(t, tip, history[k]) ==> AttachHeight(t, tip, history) == history[k].height
    decreases k
  {
    if k > 0 {
      AttachesAtFirst(t, tip, history[1..], k - 1);
    }
  }

  /** Entry i of a history: the block of the best chain at its offset below the tip, or at the base. */
  ghost predicate Spaced(t: Tree, tip: ChainIndex, index: ChainIndex, i: nat) {
    t.Root() <= tip.height && index.height == tip.height - Least(HistoryOffset(i), tip.height - t.Root()) &&
      index == BlockAt(t, tip, index.height)
  }

  /** How far below the tip entry i of a history is, as long as the chain is that long. */
  function HistoryOffset(i: nat): nat {
    if i >= 10 then 7 + Pow2(i - 8) else i
  }

  function Least(a: nat, b: nat): nat {
    if a > b then b else a
  }

  /** The first ten entries follow each other; from the eleventh on, each gap is twice the one before. */
  lemma OffsetsDouble(i: nat)
    ensures i < 10 ==> HistoryOffset(i) == i
    ensures HistoryOffset(10) == 11 && HistoryOffset(11) == 15
    ensures i >= 10 ==>
      HistoryOffset(i + 2) - HistoryOffset(i + 1) == 2 * (HistoryOffset(i + 1) - HistoryOffset(i))
  {
    if i >= 10 {
      Doubling(i - 8);
      Doubling(i - 7);
    }
  }

  /** Offsets grow strictly, so no block appears twice. */
  lemma OffsetsSpread(i: nat)
    ensures i <= HistoryOffset(i) < HistoryOffset(i + 1)
  {
    if i >= 9 {
      Doubling(i - 8);
    }
  }

  lemma {:induction false} OffsetsRise(i: nat, j: nat)
    requires i < j
    ensures HistoryOffset(i) < HistoryOffset(j)
    decreases j
  {
    hide HistoryOffset;
    OffsetsSpread(j - 1);
    if i < j - 1 {
      OffsetsRise(i, j - 1);
    }
  }

  /** A history runs strictly downwards. */
  lemma HistoryDescends(t: Tree, tip: ChainIndex, history: seq<ChainIndex>, i: nat, j: nat)
    requires i < j < |history|
    requires forall k :: 0 <= k < |history| ==> Spaced(t, tip, history[k], k)
    requires forall k :: 0 <= k < |history| - 1 ==> HistoryOffset(k) < tip.height - t.Root()
    ensures history[i].height > history[j].height
  {
    hide HistoryOffset;
    OffsetsRise(i, j);
    assert Spaced(t, tip, history[i], i) && Spaced(t, tip, history[j], j);
  }

  lemma {:induction false} Doubling(n: nat)
    requires n >= 1
    ensures Pow2(n) > n && Pow2(n) >= 2 && Pow2(n + 1) == 2 * Pow2(n)
    decreases n
  {
    if n > 1 {
      Doubling(n - 1);
    }
  }

  /** A history is logarithmic: past its first ten entries, its length counts the doublings up to the chain's. */
  lemma HistoryLength(history: seq<ChainIndex>, span: nat)
    requires |history| >= 12 && forall i :: 0 <= i < |history| - 1 ==> HistoryOffset(i) < span
    ensures Pow2(|history| - 10) < span
  {
    assert HistoryOffset(|history| - 2) < span;
  }

  lemma FewElements(t: Tree, i: ChainIndex)
    requires t.Valid() && i in t.entries
    ensures |t.ledgers[i].elements| <= EPHEMERAL_LEAF_INDEX
  {
    hide Compact, WellFormed, Tree.Attached;
    assert t.Recorded(i);
    RoomyInLimits(t.ledgers[i]);
  }

  /** The headers are valid one after the other, and none is too far in the future. */
  ghost predicate Acceptable(s: State, headers: seq<BlockHeader>, work: Hash -> nat, now: int) {
    |s.prevTimestamps| == WINDOW && ValidHeaders(s, headers, work) &&
    forall k :: 0 <= k < |headers| ==> headers[k].timestamp <= MaxFutureTimestamp(now)
  }

  lemma NoHeaders(s: State)
    requires |s.prevTimestamps| == WINDOW
    ensures AfterHeaders(s, []) == s && forall work, now :: Acceptable(s, [], work, now)
  {
  }

  /** One more header is accepted if it is valid after those before it, and not too far in the future. */
  lemma OneHeader(s: State, headers: seq<BlockHeader>, work: Hash -> nat, now: int, k: nat)
    requires |s.prevTimestamps| == WINDOW && k < |headers| && Acceptable(s, headers[..k], work, now)
    ensures var h, after := headers[k], AfterHeaders(s, headers[..k]);
      (Acceptable(s, headers[..k + 1], work, now) <==>
       ValidateHeader(after, h, work) == Ok && h.timestamp <= MaxFutureTimestamp(now)) &&
      (Acceptable(s, headers, work, now) ==> Acceptable(s, headers[..k + 1], work, now)) &&
      AfterHeaders(s, headers[..k + 1]) == ApplyHeader(after, h)
  {
    hide ValidateHeader, ApplyHeader, AfterHeaders;
    var more := headers[..k + 1];
    assert more[..k] == headers[..k] && more == headers[..k] + [headers[k]];
    NextHeader(s, headers, k);
    if ValidHeaders(s, headers, work) {
      ValidPrefix(s, headers, work, k + 1);
    }
    if ValidateHeader(AfterHeaders(s, headers[..k]), headers[k], work) == Ok {
      Appended(s, headers[..k], headers[k], work);
    }
  }

  predicate Refused(s: State, h: BlockHeader, work: Hash -> nat, e: HeaderError) {
    |s.prevTimestamps| == WINDOW && ValidateHeader(s, h, work) == Err(e)
  }

  datatype HeadersResult =
    NothingNew | Heavier(chain: ScratchChain) | Orphaned | FutureHeader | BadHeader(error: HeaderError)

  lemma NothingDone(t: Tree, base: ChainIndex, start: State)
    requires t.Valid() && base in t.entries && start == Compact(t.ledgers[base]) && start.index == base &&
      |start.prevTimestamps| == WINDOW
    ensures Validated(t, base, start, [], start, 0)
  {
    hide Compact, Tree.Recorded, Tree.Attached;
    assert t.Chain(base) + Indices([]) == t.Chain(base);
  }

  /** What a stored block says. */
  lemma StoredFacts(t: Tree, p: ChainIndex, b: Block)
    requires t.Valid() && p in t.entries && ValidBlock(t.ledgers[p], b, t.work) && t.Agrees(b)
    requires b.header.height < HEIGHT_LIMIT
    ensures Grown(t, p, b).Valid() && b.Index() in Grown(t, p, b).entries
    ensures Grown(t, p, b).entries[b.Index()] == Checkpoint(b, Compact(NextFull(t.ledgers[p], b)))
    ensures Compact(NextFull(t.ledgers[p], b)).totalWork == NextFull(t.ledgers[p], b).totalWork
    ensures Compact(NextFull(t.ledgers[p], b)).index == b.Index()
    ensures b.header.ParentIndex() == p && b.Index().height == p.height + 1 && b.Index() != t.base
  {
    hide Compact, NextFull, ValidBlock, Tree.Recorded, Tree.Attached;
    Grow(t, p, b);
    NextHeld(t, p, p, b);
    ParentOfID(t, p, b);
    ParentChain(t, p);
    CompactWork(NextFull(t.ledgers[p], b));
  }

  /** A block above one on a chain of headers is the headers' just if it is the next one. */
  lemma AlongStep(t: Tree, base: ChainIndex, headers: seq<BlockHeader>, p: ChainIndex, b: Block)
    requires t.Valid() && p in t.entries && base in t.entries && ValidBlock(t.ledgers[p], b, t.work) && t.Agrees(b)
    requires b.header.height < HEIGHT_LIMIT && base.height <= p.height < base.height + |headers|
    ensures OnHeaders(Grown(t, p, b), base, headers, b.Index()) <==>
      OnHeaders(t, base, headers, p) && headers[p.height - base.height].Index() == b.Index()
  {
    hide Compact, NextFull, ValidBlock, Tree.Recorded, Tree.Attached, Indices;
    Grow(t, p, b);
    NextHeld(t, p, base, b);
    ParentChain(t, p);
    ParentChain(t, base);
    var n := p.height - base.height;
    var g := Grown(t, p, b);
    assert g.Chain(base) == t.Chain(base);
    assert Indices(headers[..n + 1]) == Indices(headers[..n]) + [headers[n].Index()];
    var from, done, next := t.Chain(base), Indices(headers[..n]), headers[n].Index();
    assert from + (done + [next]) == (from + done) + [next];
    SameEnds(t.Chain(p), b.Index(), from + done, next);
  }

  lemma SameEnds(a: seq<ChainIndex>, x: ChainIndex, b: seq<ChainIndex>, y: ChainIndex)
    ensures a + [x] == b + [y] <==> a == b && x == y
  {
    if a + [x] == b + [y] {
      assert (a + [x])[..|a|] == a && (b + [y])[..|b|] == b;
      assert (a + [x])[|a|] == x && (b + [y])[|b|] == y;
    }
  }

  /** How adding blocks to a chain fails: it has more already, block k is bad, or the tip cannot follow. */
  datatype Failure = TooFew | BadBlock(at: nat) | Broken(move: Move)

  /** The failure that AddBlocks reports when the rounds end short of block k. */
  ghost predicate Reported(f: Failure, k: int, r: Round) {
    match f
    case TooFew => false
    case BadBlock(at) => r == Declined && at == k
    case Broken(move) => r == Stuck(move)
  }

  datatype BlocksResult = NoBlocks | UnknownChain | Failed(failure: Failure) | AddedTo(chain: ScratchChain) {
    predicate BreaksOff() {
      Failed? && failure.Broken?
    }

    predicate Stops() {
      Failed? && failure.BadBlock?
    }
  }

  /** No block appears in two forms with different timestamps, in the list or in the tree. */
  ghost predicate Takes(t: Tree, blocks: seq<Block>) {
    (forall k :: 0 <= k < |blocks| ==> t.Agrees(blocks[k]) && blocks[k].header.height < HEIGHT_LIMIT) &&
    forall j, k :: 0 <= j < |blocks| && 0 <= k < |blocks| && blocks[j].Index() == blocks[k].Index() ==>
      blocks[j].header.timestamp == blocks[k].header.timestamp
  }

  lemma TakesOne(t: Tree, blocks: seq<Block>, k: nat)
    requires Takes(t, blocks) && k < |blocks|
    ensures t.Agrees(blocks[k]) && blocks[k].header.height < HEIGHT_LIMIT
  {
  }

  /** After one of the blocks is stored, the others can still be. */
  lemma StillTakes(t: Tree, p: ChainIndex, blocks: seq<Block>, k: nat)
    requires p in t.ledgers && k < |blocks| && Takes(t, blocks)
    ensures Takes(Grown(t, p, blocks[k]), blocks)
  {
    hide Compact, NextFull;
  }

  /** As the tree grows, scratch chains stay where they are. */
  lemma StillThere(sc: ScratchChain, t: Tree, later: Tree)
    requires sc.Valid() && t.Valid() && later.Valid() && Keeps(later, t) && later.base == t.base
    ensures sc.Held(t) ==> sc.Held(later)
    ensures sc.In(t) ==> sc.In(later)
  {
    hide AfterHeaders, ValidHeaders, Compact, Tree.Recorded, Tree.Attached, Validated;
    if sc.In(t) {
      StillValidated(t, later, sc.base, sc.start, sc.headers, sc.ts, sc.Done());
    }
  }

  /** The total work of a valid child, and whether it wrapped around. */
  lemma NextTotal(t: Tree, p: ChainIndex, b: Block)
    requires t.Valid() && p in t.entries && ValidBlock(t.ledgers[p], b, t.work)
    ensures var s, next := Compact(t.ledgers[p]), Compact(NextFull(t.ledgers[p], b));
      s.totalWork <= next.totalWork <==> s.totalWork + s.difficulty < WORK_LIMIT
  {
    hide ValidBlock, NextFull, Compact, ApplyHeader, WellFormed, Roomy, Tree.Attached, InLimits, FullState.Index;
    var fs := t.ledgers[p];
    assert t.Recorded(p);
    LedgerFits(t, p);
    ValidIsSound(fs, b, t.work);
    CompactParts(fs);
    CompactWork(fs);
    CompactWork(NextFull(fs, b));
    NextWork(fs, b);
    TotalWraps(Compact(fs), b.header);
  }

  /** A valid child of a stored block. */
  lemma TipChild(t: Tree, p: ChainIndex, b: Block)
    requires t.Valid() && p in t.entries && ValidBlock(t.ledgers[p], b, t.work) && b.header.height < HEIGHT_LIMIT
    ensures InLimits(NextFull(t.ledgers[p], b)) && Extends(t.ledgers[p], b, t.work)
    ensures b.Index() != t.base && b.Index() != p && b.header.ParentIndex() == p
    ensures t.entries[p].state == Compact(t.ledgers[p])
    ensures var s, next := Compact(t.ledgers[p]), Compact(NextFull(t.ledgers[p], b));
      s.totalWork <= next.totalWork <==> s.totalWork + s.difficulty < WORK_LIMIT
  {
    hide Compact, NextFull, ValidBlock, Tree.Recorded, Tree.Attached, InLimits, Extends;
    NextFits(t, p, b);
    NewBlockFits(t, p, b);
    ParentOfID(t, p, b);
    ParentChain(t, p);
    EntryState(t, p);
    NextTotal(t, p, b);
  }

  lemma CompactWork(fs: FullState)
    ensures Compact(fs).totalWork == fs.totalWork && Compact(fs).difficulty == fs.difficulty
  {
    hide LeafHashes, Window;
  }

  /** A chain's valid tip is the header at its height. */
  lemma TipOfChain(t: Tree, sc: ScratchChain, index: ChainIndex)
    requires sc.Valid() && sc.In(t) && index in Indices(sc.headers) && index.height == sc.ts.index.height
    ensures sc.ts.index == index
  {
    hide AfterHeaders, ValidHeaders, SameHeaders, Compact, Tree.Recorded, Tree.Attached, Tree.Root, Validated;
    sc.HeaderHeights();
    var k :| 0 <= k < |sc.headers| && Indices(sc.headers)[k] == index;
    sc.TipIsStored(t);
    ValidatedBlock(t, sc.base, sc.start, sc.headers, sc.ts, sc.Done(), k);
    ParentChain(t, sc.ts.index);
  }

  /** One more entry that is no heavier than the tip changes nothing; a heavier one becomes the heaviest. */
  lemma OneMore(entries: map<ChainIndex, Checkpoint>, s: State, i: ChainIndex, c: Checkpoint)
    requires NoneHeavier(entries, s)
    ensures c.state.totalWork <= s.totalWork ==> NoneHeavier(entries[i := c], s)
    ensures c.state.totalWork >= s.totalWork ==> NoneHeavier(entries[i := c], c.state)
  {
  }

  /** A list without one of its chains. */
  lemma Without(chains: seq<ScratchChain>, i: nat)
    requires i < |chains| && forall j, k :: 0 <= j < k < |chains| ==> chains[j] != chains[k]
    ensures var r := chains[..i] + chains[i + 1..];
      chains[i] !in r && multiset(r) == multiset(chains) - multiset{chains[i]} &&
      forall k :: 0 <= k < |r| ==> r[k] == chains[if k < i then k else k + 1]
  {
    var a, b := chains[..i], chains[i + 1..];
    assert chains == a + ([chains[i]] + b);
    Parts(a, chains[i], b);
    assert forall k :: 0 <= k < |a + b| ==> (a + b)[k] == chains[if k < i then k else k + 1];
  }

  lemma Parts(a: seq<ScratchChain>, x: ScratchChain, b: seq<ScratchChain>)
    ensures multiset(a + b) == multiset(a + ([x] + b)) - multiset{x}
  {
    assert multiset(a + ([x] + b)) == multiset(a) + (multiset{x} + multiset(b));
  }

  /** With a heavier entry than any before, no other entry is the heaviest. */
  lemma LeftBehind(entries: map<ChainIndex, Checkpoint>, s: State, i: ChainIndex, c: Checkpoint)
    requires NoneHeavier(entries, s) && c.state.totalWork > s.totalWork
    ensures forall j :: j in entries && j != i ==> !NoneHeavier(entries[i := c], entries[j].state)
  {
    forall j | j in entries && j != i
      ensures !NoneHeavier(entries[i := c], entries[j].state)
    {
      assert entries[i := c][i] == c;
    }
  }

  lemma GrownParts(t: Tree, p: ChainIndex, b: Block)
    requires p in t.ledgers
    ensures Grown(t, p, b).entries == t.entries[b.Index() := Checkpoint(b, Compact(NextFull(t.ledgers[p], b)))]
    ensures Grown(t, p, b).ledgers == t.ledgers[b.Index() := NextFull(t.ledgers[p], b)]
    ensures Grown(t, p, b).base == t.base && Grown(t, p, b).work == t.work
  {
    hide Compact, NextFull;
  }

  datatype TipResult = Added | KnownBlock | UnknownBlock | FutureBlock | Invalid(error: ValidationError)

  /** MaxFutureTimestamp: two hours from now. */
  function MaxFutureTimestamp(now: int): int {
    now + 7200 * SECOND
  }

  /** Block k of the validated part of a scratch chain. */
  lemma ValidatedBlock(t: Tree, base: ChainIndex, start: State, headers: seq<BlockHeader>, ts: State, n: nat, k: nat)
    requires t.Valid() && |start.prevTimestamps| == WINDOW && k < n <= |headers| &&
      Validated(t, base, start, headers, ts, n)
    requires headers[k].height == base.height + k + 1
    ensures var i := headers[k].Index();
      i in t.entries && t.Root() < i.height < |t.Chain(ts.index)| && BlockAt(t, ts.index, i.height) == i
  {
    hide Compact, Tree.Recorded, Tree.Attached, AfterHeaders, SameHeaders, Tree.Chain, Tree.Root;
    ParentChain(t, base);
    Ancestor(t, ts.index, base.height + k + 1);
    assert Indices(headers[..n])[k] == headers[k].Index();
  }

  lemma EntryState(t: Tree, i: ChainIndex)
    requires t.Valid() && i in t.entries
    ensures t.entries[i].state == Compact(t.ledgers[i])
  {
    hide Compact, Tree.Attached, WellFormed;
    assert t.Recorded(i);
  }

  /** A later tree has the best list of an earlier one. */
  lemma BestStays(t: Tree, later: Tree, i: ChainIndex)
    requires t.Valid() && later.Valid() && Keeps(later, t) && i in t.ledgers
    ensures later.Chain(i) == t.Chain(i) && later.Root() == t.Root()
  {
    hide Tree.Recorded, Tree.Attached;
  }

  /** Nothing is removed from the list of elements along a chain. */
  lemma {:induction false} ElementsOnlyGrow(t: Tree, i: ChainIndex, j: nat, k: nat)
    requires t.Valid() && i in t.entries && t.Root() <= j <= k < |t.Chain(i)|
    ensures t.Chain(i)[j] in t.ledgers && t.Chain(i)[k] in t.ledgers
    ensures |t.ledgers[t.Chain(i)[j]].elements| <= |t.ledgers[t.Chain(i)[k]].elements|
    decreases k - j
  {
    hide Tree.Recorded, Tree.Attached, Tree.Chain;
    Ancestor(t, i, j);
    Ancestor(t, i, k);
    if j < k {
      ElementsOnlyGrow(t, i, j, k - 1);
      Ancestor(t, i, k - 1);
      AboveRoot(t, t.Chain(i)[k]);
      ParentHasFewer(t, t.Chain(i)[k]);
    }
  }

  lemma ParentHasFewer(t: Tree, i: ChainIndex)
    requires t.Valid() && i in t.entries && i != t.base
    ensures var p := t.entries[i].block.header.ParentIndex();
      p in t.ledgers && |t.ledgers[p].elements| <= |t.ledgers[i].elements|
  {
    hide Tree.Recorded, Tree.Attached, NextFull, ValidBlock, WellFormed, Compact, InLimits, Created;
    EntryStep(t, i);
    NextParts(t.ledgers[t.entries[i].block.header.ParentIndex()], t.entries[i].block);
  }

  /** Only the base stands at the base's height. */
  lemma AboveRoot(t: Tree, i: ChainIndex)
    requires t.Valid() && i in t.entries
    ensures i == t.base <==> i.height == t.Root()
  {
    hide Tree.Recorded, Tree.Attached;
    ParentChain(t, i);
  }

  lemma RevertLeaves(ru: RevertUpdate, fs: FullState, b: Block)
    requires ru.Leads(fs, b)
    ensures ru.state.elements.numLeaves == |fs.elements|
  {
    hide Accumulate;
    CompactParts(fs);
  }

  /** Index i of a revert path, and its parent. */
  lemma RevertOnPath(t: Tree, from: ChainIndex, k: nat, path: seq<ChainIndex>, i: nat)
    requires t.Valid() && IsDown(t, from, k, path) && i < |path|
    ensures i < |t.Chain(from)| - k && path[i] == t.Chain(from)[|t.Chain(from)| - 1 - i] && path[i] in t.entries
    ensures path[i] == t.base <==> |t.Chain(from)| - 1 - i == t.Root()
    ensures path[i] != t.base ==>
      i + 2 <= |t.Chain(from)| &&
      t.entries[path[i]].block.header.ParentIndex() == t.Chain(from)[|t.Chain(from)| - 2 - i]
  {
    hide Tree.Recorded, Tree.Attached, Tree.Chain;
    var chain := t.Chain(from);
    Ancestor(t, from, |chain| - 1 - i);
    ParentChain(t, path[i]);
  }

  lemma NotBaseAbove(t: Tree, to: ChainIndex, k: nat)
    requires t.Valid() && to in t.entries
    ensures t.Root() < k < |t.Chain(to)| ==> t.Chain(to)[k] != t.base && t.Chain(to)[k] in t.entries
  {
    hide Tree.Recorded, Tree.Attached, Tree.Chain;
    if t.Root() < k < |t.Chain(to)| {
      Ancestor(t, to, k);
      ParentChain(t, t.Chain(to)[k]);
    }
  }

  /** A path to a stored index, in the form its followers need. */
  lemma PathShape(t: Tree, a: ChainIndex, b: ChainIndex, r: PathResult)
    requires t.Valid() && b in t.entries && r.Path?
    requires if Stored(t, a, b) then Shortcut(t, a, b, r) else Outside(t, a, b, r)
    ensures var k := Common(t.Chain(a), t.Chain(b));
      if a in t.entries then
        t.Root() < k && t.Chain(a)[k - 1] == t.Chain(b)[k - 1] &&
        r.revert == Reversed(t.Chain(a)[k..]) && r.apply == t.Chain(b)[k..] && !(r.apply != [] && r.apply[0] == t.base)
      else r.revert == [] && r.apply != [] && r.apply[0] == t.base
  {
    hide Tree.Recorded, Tree.Attached, Tree.Chain, Common, Reversed;
    var k := Common(t.Chain(a), t.Chain(b));
    NotBaseAbove(t, b, k);
    Agreement(t.Chain(a), t.Chain(b));
  }

  /** The next block on the way from an entry to one above it. */
  lemma NextOnPath(t: Tree, i: ChainIndex, to: ChainIndex)
    requires t.Valid() && i in t.entries && to in t.entries && t.Chain(i) <= t.Chain(to) && i != to
    ensures i.height + 1 < |t.Chain(to)| && i.height + 1 == |t.Chain(i)|
    ensures var next := t.Chain(to)[i.height + 1];
      next in t.entries && next != t.base && t.entries[next].block.header.ParentIndex() == i &&
      next.height == i.height + 1 && t.Chain(next) == t.Chain(to)[..i.height + 2]
  {
    hide Compact, Tree.Recorded, Tree.Attached;
    ParentChain(t, i);
    ParentChain(t, to);
    ParentChain(t, t.base);
    Ancestor(t, to, i.height + 1);
  }

  /** The tree that holds one block. */
  ghost function Only(b: Block, fs: FullState, work: Hash -> nat): Tree {
    Tree(map[b.Index() := Checkpoint(b, Compact(fs))], map[b.Index() := fs], b.Index(), work)
  }

  /** A new node: a store that holds the genesis checkpoint, and a manager over it. */
  method NewNode(genesis: Block, initialDifficulty: nat, work: Hash -> nat) returns (m: Manager)
    requires initialDifficulty < WORK_LIMIT && Genesis(genesis) &&
      Roomy(NextFull(EmptyLedger(initialDifficulty, genesis.header.timestamp), genesis))
    ensures m.Valid() && m.ChainsIn() && m.Heaviest() && m.cs.index == genesis.Index() == m.base
    ensures m.ledgers[m.base] == NextFull(EmptyLedger(initialDifficulty, genesis.header.timestamp), genesis)
    ensures fresh(m) && fresh(m.store) && m.chains == [] && m.subscribers == [] && m.work == work
    ensures m.T() == Only(genesis, NextFull(EmptyLedger(initialDifficulty, genesis.header.timestamp), genesis), work)
  {
    hide Compact, NextFull, Genesis, ApplyUpdate.Leads, WellFormed, Roomy, WorkFits, InLimits, Tree.Valid, EmptyLedger;
    ghost var empty := EmptyLedger(initialDifficulty, genesis.header.timestamp);
    ghost var fs := NextFull(empty, genesis);
    NextParts(empty, genesis);
    GenesisIsWellFormed(genesis, initialDifficulty);
    RoomyInLimits(fs);
    EmptyWorkFits(initialDifficulty, genesis.header.timestamp);
    NextWorkFits(empty, genesis);
    var au := GenesisUpdate(genesis, initialDifficulty);
    UpdateState(au, empty, genesis);
    CompactParts(fs);
    var c := Checkpoint(genesis, au.state);
    var store := new EphemeralStore(c);
    GenesisTree(c, fs, work);
    m := new Manager(store, au.state, work, genesis.Index(), map[genesis.Index() := fs]);
  }
}
