/**
  The scratch chain of consensus/scratch.go: headers that are validated
  first, and the part of them whose blocks have been validated.
 */
module Scratch {
  import opened Types
  import opened Headers
  import opened Ledger
  import opened LedgerInvariant
  import opened LedgerTheorems
  import opened Validation
  import opened Update
  import opened ChainTree

  /** The state after a sequence of headers. */
  function AfterHeaders(s: State, headers: seq<BlockHeader>): (r: State)
    requires |s.prevTimestamps| == WINDOW
    ensures |r.prevTimestamps| == WINDOW
  {
    if headers == [] then s else ApplyHeader(AfterHeaders(s, headers[..|headers| - 1]), headers[|headers| - 1])
  }

  /** Two states that differ at most in their accumulators. */
  predicate SameHeaders(a: State, b: State) {
    a.(elements := b.elements, history := b.history) == b
  }

  function Indices(headers: seq<BlockHeader>): (r: seq<ChainIndex>)
    ensures |r| == |headers|
    ensures forall k :: 0 <= k < |headers| ==> r[k] == headers[k].Index()
  {
    seq(|headers|, k requires 0 <= k < |headers| => headers[k].Index())
  }

  /** Each header is the child of the one before it, the first that of the base, and valid after them. */
  ghost predicate ValidHeaders(start: State, headers: seq<BlockHeader>, work: Hash -> nat)
    requires |start.prevTimestamps| == WINDOW
  {
    forall k :: 0 <= k < |headers| ==> ValidateHeader(AfterHeaders(start, headers[..k]), headers[k], work) == Ok
  }

  lemma {:induction false} HeaderIndex(start: State, headers: seq<BlockHeader>, work: Hash -> nat)
    requires |start.prevTimestamps| == WINDOW && ValidHeaders(start, headers, work)
    ensures AfterHeaders(start, headers).index == if headers == [] then start.index else headers[|headers| - 1].Index()
    ensures AfterHeaders(start, headers).index.height == start.index.height + |headers|
    decreases |headers|
  {
    hide ValidateHeader, ApplyHeader;
    if headers != [] {
      var n := |headers| - 1;
      assert ValidHeaders(start, headers[..n], work) by {
        forall k | 0 <= k < n
          ensures ValidateHeader(AfterHeaders(start, headers[..n][..k]), headers[..n][k], work) == Ok
        {
          assert headers[..n][..k] == headers[..k];
        }
      }
      HeaderIndex(start, headers[..n], work);
      HeaderStep(AfterHeaders(start, headers[..n]), headers[n], work);
    }
  }

  lemma HeaderStep(s: State, h: BlockHeader, work: Hash -> nat)
    requires |s.prevTimestamps| == WINDOW && ValidateHeader(s, h, work) == Ok
    ensures h.height == s.index.height + 1 && h.ParentIndex() == s.index && ApplyHeader(s, h).index == h.Index()
  {
    hide MedianTimestamp, AdjustDifficulty;
  }

  lemma ValidPrefix(start: State, headers: seq<BlockHeader>, work: Hash -> nat, k: nat)
    requires |start.prevTimestamps| == WINDOW && ValidHeaders(start, headers, work) && k <= |headers|
    ensures ValidHeaders(start, headers[..k], work)
  {
    hide ValidateHeader, AfterHeaders;
    forall j | 0 <= j < k
      ensures ValidateHeader(AfterHeaders(start, headers[..k][..j]), headers[..k][j], work) == Ok
    {
      assert headers[..k][..j] == headers[..j];
    }
  }

  /** Header k is the child of the index before it. */
  lemma HeaderParent(start: State, headers: seq<BlockHeader>, work: Hash -> nat, k: nat)
    requires |start.prevTimestamps| == WINDOW && ValidHeaders(start, headers, work) && k < |headers|
    ensures headers[k].height == start.index.height + k + 1
    ensures headers[k].ParentIndex() == if k == 0 then start.index else headers[k - 1].Index()
  {
    hide ValidateHeader, ApplyHeader, AfterHeaders;
    ValidPrefix(start, headers, work, k);
    HeaderIndex(start, headers[..k], work);
    HeaderStep(AfterHeaders(start, headers[..k]), headers[k], work);
  }

  /** The first n blocks are in the tree, above the base, and have made good on what their headers promised. */
  ghost predicate Validated(t: Tree, base: ChainIndex, start: State, headers: seq<BlockHeader>, ts: State, n: nat)
    requires t.Valid() && |start.prevTimestamps| == WINDOW && n <= |headers|
  {
    base in t.entries && start == Compact(t.ledgers[base]) &&
    ts.index in t.entries && ts == Compact(t.ledgers[ts.index]) &&
    t.Chain(ts.index) == t.Chain(base) + Indices(headers[..n]) &&
    SameHeaders(AfterHeaders(start, headers[..n]), ts)
  }

  /** As the tree grows, what is validated stays so. */
  lemma StillValidated(t: Tree, later: Tree, base: ChainIndex, start: State, headers: seq<BlockHeader>, ts: State,
          n: nat)
    requires t.Valid() && later.Valid() && Keeps(later, t) && |start.prevTimestamps| == WINDOW && n <= |headers|
    requires Validated(t, base, start, headers, ts, n)
    ensures Validated(later, base, start, headers, ts, n)
  {
    hide AfterHeaders, SameHeaders, Compact, Tree.Recorded, Tree.Attached;
  }

  /** Further headers make no difference to what is validated. */
  lemma MoreHeaders(t: Tree, base: ChainIndex, start: State, headers: seq<BlockHeader>, more: seq<BlockHeader>,
          ts: State, n: nat)
    requires t.Valid() && |start.prevTimestamps| == WINDOW && n <= |headers| && headers <= more
    requires Validated(t, base, start, headers, ts, n)
    ensures Validated(t, base, start, more, ts, n)
  {
    hide AfterHeaders, SameHeaders, Compact, Tree.Recorded, Tree.Attached, Indices;
    assert more[..n] == headers[..n];
  }

  /** Block i and those below it, down to the base, are the headers'. */
  ghost predicate OnHeaders(t: Tree, base: ChainIndex, headers: seq<BlockHeader>, i: ChainIndex) {
    base.height <= i.height <= base.height + |headers| &&
    t.Chain(i) == t.Chain(base) + Indices(headers[..i.height - base.height])
  }

  /** The first k headers are stored as one chain above the base. */
  ghost predicate Follows(t: Tree, base: ChainIndex, headers: seq<BlockHeader>, k: nat) {
    k == 0 || (k <= |headers| && headers[k - 1].Index() in t.entries &&
               t.Chain(headers[k - 1].Index()) == t.Chain(base) + Indices(headers[..k]))
  }

  /** The headers are stored as one chain up to one that is not stored. */
  ghost predicate LeavesOff(t: Tree, base: ChainIndex, headers: seq<BlockHeader>) {
    exists k :: 0 <= k < |headers| && Follows(t, base, headers, k) && headers[k].Index() !in t.entries
  }

  datatype BlockError = MoreBlocksThanHeaders | InvalidBlock(error: ValidationError)

  datatype Applied = Applied(checkpoint: Checkpoint) | Rejected(error: BlockError)

  class ScratchChain {
    const base: ChainIndex
    const work: Hash -> nat
    var headers: seq<BlockHeader>
    var hs: State // after all headers
    var ts: State // after the blocks validated so far

    /** The state at the base. */
    ghost const start: State

    constructor (s: State, work: Hash -> nat)
      requires |s.prevTimestamps| == WINDOW
      ensures base == s.index && start == s && this.work == work && headers == [] && hs == s && ts == s
      ensures Valid()
    {
      base, headers, hs, ts := s.index, [], s, s;
      this.work := work;
      start := s;
    }

    ghost predicate Valid()
      reads this
    {
      |start.prevTimestamps| == WINDOW && start.index == base &&
      ValidHeaders(start, headers, work) && hs == AfterHeaders(start, headers) &&
      base.height <= ts.index.height <= base.height + |headers|
    }

    /** The number of headers whose blocks have been validated. */
    ghost function Done(): nat
      requires base.height <= ts.index.height
      reads this
    {
      ts.index.height - base.height
    }

    /** The base and the valid tip are in the tree, with the states they have here. */
    ghost predicate Held(t: Tree)
      reads this
    {
      t.Valid() && t.work == work && base in t.entries && start == Compact(t.ledgers[base]) &&
      ts.index in t.entries && ts == Compact(t.ledgers[ts.index])
    }

    /** The validated blocks are in the tree, above the base, and have made good on what their headers promised. */
    ghost predicate In(t: Tree)
      requires Valid()
      reads this
    {
      Held(t) && Validated(t, base, start, headers, ts, Done())
    }

    /** The validated blocks are those of the first headers. */
    ghost predicate Along(t: Tree)
      requires Valid()
      reads this
    {
      OnHeaders(t, base, headers, ts.index)
    }

    lemma InIsAlong(t: Tree)
      requires Valid() && In(t)
      ensures Along(t)
    {
      hide AfterHeaders, ValidHeaders, SameHeaders, Compact, Tree.Valid;
    }

    /** The block's header is one of the chain's, to the nanosecond. */
    ghost predicate Has(b: Block)
      reads this`headers
    {
      exists k :: 0 <= k < |headers| && Indices(headers)[k] == b.Index() && headers[k].timestamp == b.header.timestamp
    }

    function Tip(): ChainIndex
      reads this
    {
      hs.index
    }

    function ValidTip(): ChainIndex
      reads this
    {
      ts.index
    }

    predicate FullyValidated()
      reads this
    {
      ts.index == hs.index
    }

    function TotalWork(): nat
      reads this
    {
      hs.totalWork
    }

    lemma TipHeight()
      requires Valid()
      ensures Tip().height == base.height + |headers|
      ensures Tip() == if headers == [] then base else headers[|headers| - 1].Index()
    {
      HeaderIndex(start, headers, work);
    }

    /** Index, for a height from the base to the tip. */
    method Index(height: nat) returns (index: ChainIndex)
      requires Valid() && base.height <= height <= base.height + |headers|
      ensures index == if height == base.height then base else headers[height - base.height - 1].Index()
    {
      hide AfterHeaders, ValidHeaders;
      TipHeight();
      if height == Tip().height {
        return Tip();
      }
      HeaderParent(start, headers, work, height - base.height);
      return headers[height - base.height].ParentIndex();
    }

    method Contains(index: ChainIndex) returns (yes: bool)
      requires Valid()
      ensures yes <==> index in Indices(headers)
    {
      hide AfterHeaders, ValidHeaders;
      TipHeight();
      HeaderHeights();
      if !(base.height < index.height <= Tip().height) {
        return false;
      }
      var at := Index(index.height);
      assert Indices(headers)[index.height - base.height - 1] == at;
      return at == index;
    }

    lemma HeaderHeights()
      requires Valid()
      ensures forall k :: 0 <= k < |headers| ==> Indices(headers)[k].height == base.height + k + 1
    {
      hide AfterHeaders, ValidHeaders;
      forall k | 0 <= k < |headers|
        ensures Indices(headers)[k].height == base.height + k + 1
      {
        HeaderParent(start, headers, work, k);
      }
    }

    /** The indices whose blocks are still to be validated, lowest first. */
    method Unvalidated() returns (indices: seq<ChainIndex>)
      requires Valid()
      ensures indices == Indices(headers[Done()..])
    {
      hide AfterHeaders, ValidHeaders;
      var from := ts.index.height - base.height;
      indices := [];
      for i := from to |headers|
        invariant indices == Indices(headers[from..i])
      {
        HeaderParent(start, headers, work, i);
        var index := Index(headers[i].height);
        assert headers[from..i + 1] == headers[from..i] + [headers[i]];
        indices := indices + [index];
      }
    }

    /** AppendHeader: a header is added just when it is valid after the ones before it. */
    method AppendHeader(h: BlockHeader) returns (r: Check<HeaderError>)
      requires Valid()
      modifies this`headers, this`hs
      ensures Valid() && r == ValidateHeader(old(hs), h, work)
      ensures headers == if r == Ok then old(headers) + [h] else old(headers)
      ensures hs == if r == Ok then ApplyHeader(old(hs), h) else old(hs)
    {
      hide ValidateHeader, ApplyHeader;
      r := ValidateHeader(hs, h, work);
      if r != Ok {
        return;
      }
      Appended(start, headers, h, work);
      hs := ApplyHeader(hs, h);
      headers := headers + [h];
    }

    /** Appending headers leaves the validated part in the tree. */
    twostate lemma StillIn(t: Tree)
      requires old(Valid()) && old(Held(t)) && Valid() && old(headers) <= headers && ts == old(ts)
      ensures Held(t) && (old(In(t)) ==> In(t))
    {
      hide AfterHeaders, ValidHeaders, Compact, Validated, Tree.Valid;
      if old(In(t)) {
        MoreHeaders(t, base, start, old(headers), headers, ts, Done());
      }
    }

    lemma HeaderWindow()
      requires Valid()
      ensures |hs.prevTimestamps| == WINDOW
    {
    }

    lemma TipIsStored(t: Tree)
      requires Held(t)
      ensures ts.index in t.entries && ts.index in t.ledgers && ts == Compact(t.ledgers[ts.index])
    {
      hide AfterHeaders, ValidHeaders, SameHeaders, Compact;
    }

    /** Once all blocks are there, the headers' state is theirs: the same work, difficulty and timestamps. */
    lemma PromiseKept(t: Tree)
      requires Valid() && In(t) && FullyValidated()
      ensures SameHeaders(hs, ts) && TotalWork() == ts.totalWork
    {
      hide AfterHeaders, ValidHeaders, Compact, Tree.Valid;
      TipHeight();
      assert headers[..Done()] == headers;
    }

    /**
      ApplyBlock: any valid child of the valid tip is applied, as long as there
      are headers left.  If its header is one of the chain's, the chain keeps
      what its headers promised.
     */
    method ApplyBlock(b: Block, ghost t: Tree) returns (r: Applied)
      requires Valid() && Held(t) && t.Agrees(b) && b.header.height < HEIGHT_LIMIT
      modifies this`ts
      ensures Valid()
      ensures r.Applied? <==> old(ts.index.height) < hs.index.height && ValidBlock(t.ledgers[old(ts.index)], b, work)
      ensures r.Rejected? ==> ts == old(ts)
      ensures r.Applied? ==>
        r.checkpoint == Checkpoint(b, ts) && ts == Compact(NextFull(t.ledgers[old(ts.index)], b)) &&
        ts.index == b.Index() &&
        old(ts.index) in t.ledgers && Held(Grown(t, old(ts.index), b))
      ensures r.Applied? && old(In(t)) && old(Has(b)) ==> In(Grown(t, old(ts.index), b))
    {
      hide AfterHeaders, ValidHeaders, Compact, NextFull, ValidBlock, Tree.Recorded, Tree.Attached, WellFormed,
        InLimits, Grown, SameHeaders, Tree.Chain, Update.ApplyUpdate.Leads, Extends, Validated, Has;
      ghost var p, fs := ts.index, t.ledgers[ts.index];
      TipHeight();
      LedgerFits(t, p);
      if ts.index.height + 1 > hs.index.height {
        return Rejected(MoreBlocksThanHeaders);
      }
      var v := ValidateBlock(ts, b, work, fs);
      if v != Ok {
        return Rejected(InvalidBlock(v.error));
      }
      NextFits(t, p, b);
      var au := Update.ApplyBlock(ts, b, fs, work);
      UpdateState(au, fs, b);
      NextHeld(t, p, base, b);
      if In(t) && Has(b) {
        HeaderKept(t, b);
        Advance(t, base, start, headers, ts, Done(), b);
      }
      ts := au.state;
      r := Applied(Checkpoint(b, ts));
    }

    /** The block's header is the next one of the chain, and promised the state that the block leads to. */
    lemma HeaderKept(t: Tree, b: Block)
      requires Valid() && In(t) && Has(b) && ValidBlock(t.ledgers[ts.index], b, work)
      ensures Done() < |headers| && headers[Done()].Index() == b.Index()
      ensures SameHeaders(AfterHeaders(start, headers[..Done() + 1]), Compact(NextFull(t.ledgers[ts.index], b)))
    {
      hide AfterHeaders, ValidHeaders, Compact, NextFull, ValidBlock, Tree.Attached, WellFormed, Roomy;
      HeaderHeights();
      ParentOfID(t, ts.index, b);
      ParentChain(t, ts.index);
      assert t.Recorded(ts.index);
      var n := Done();
      var m :| 0 <= m < |headers| && Indices(headers)[m] == b.Index() && headers[m].timestamp == b.header.timestamp;
      assert m == n;
      assert headers[..n + 1][..n] == headers[..n];
      HeaderPromise(t.ledgers[ts.index], b, AfterHeaders(start, headers[..n]), headers[n], work);
      NextHeader(start, headers, n);
    }
  }

  lemma UpdateState(au: ApplyUpdate, fs: FullState, b: Block)
    requires au.Leads(fs, b)
    ensures au.state == Compact(NextFull(fs, b))
  {
    hide Compact, NextFull;
  }

  lemma LedgerFits(t: Tree, p: ChainIndex)
    requires t.Valid() && p in t.entries
    ensures WellFormed(t.ledgers[p]) && t.ledgers[p].chain != [] && InLimits(t.ledgers[p])
  {
    hide Compact, WellFormed, InLimits, Tree.Attached;
    assert t.Recorded(p);
    RoomyInLimits(t.ledgers[p]);
  }

  lemma NextFits(t: Tree, p: ChainIndex, b: Block)
    requires t.Valid() && p in t.entries && ValidBlock(t.ledgers[p], b, t.work) && b.header.height < HEIGHT_LIMIT
    ensures InLimits(NextFull(t.ledgers[p], b)) && Extends(t.ledgers[p], b, t.work)
  {
    hide Compact, NextFull, ValidBlock, WellFormed, Roomy, InLimits, Tree.Recorded, Tree.Attached;
    LedgerFits(t, p);
    NewBlockFits(t, p, b);
    RoomyInLimits(NextFull(t.ledgers[p], b));
  }

  /** What the tree held, and the new block with it. */
  lemma NextHeld(t: Tree, p: ChainIndex, i: ChainIndex, b: Block)
    requires t.Valid() && p in t.entries && i in t.entries && ValidBlock(t.ledgers[p], b, t.work) && t.Agrees(b) &&
      b.header.height < HEIGHT_LIMIT
    ensures Grown(t, p, b).Valid() && Grown(t, p, b).work == t.work && b.Index().height == p.height + 1
    ensures i in Grown(t, p, b).entries && Grown(t, p, b).ledgers[i] == t.ledgers[i]
    ensures b.Index() in Grown(t, p, b).entries && Grown(t, p, b).ledgers[b.Index()] == NextFull(t.ledgers[p], b)
    ensures Compact(NextFull(t.ledgers[p], b)).index == b.Index()
  {
    hide Compact, NextFull, ValidBlock, Tree.Recorded, Tree.Attached;
    Grow(t, p, b);
    NewBlockFits(t, p, b);
    ParentOfID(t, p, b);
    ParentChain(t, p);
    CompactParts(NextFull(t.ledgers[p], b));
  }

  /** One more block of the chain is in the tree. */
  lemma Advance(t: Tree, base: ChainIndex, start: State, headers: seq<BlockHeader>, ts: State, n: nat, b: Block)
    requires t.Valid() && |start.prevTimestamps| == WINDOW && n < |headers| && Validated(t, base, start, headers, ts, n)
    requires ValidBlock(t.ledgers[ts.index], b, t.work) && t.Agrees(b) && b.header.height < HEIGHT_LIMIT
    requires headers[n].Index() == b.Index()
    requires SameHeaders(AfterHeaders(start, headers[..n + 1]), Compact(NextFull(t.ledgers[ts.index], b)))
    ensures Grown(t, ts.index, b).Valid() && Grown(t, ts.index, b).work == t.work &&
      b.Index().height == ts.index.height + 1
    ensures Compact(NextFull(t.ledgers[ts.index], b)).index == b.Index()
    ensures Validated(Grown(t, ts.index, b), base, start, headers, Compact(NextFull(t.ledgers[ts.index], b)), n + 1)
  {
    hide AfterHeaders, Compact, NextFull, ValidBlock, Tree.Recorded, Tree.Attached, SameHeaders;
    var p := ts.index;
    Grow(t, p, b);
    NextHeld(t, p, p, b);
    assert headers[..n + 1] == headers[..n] + [headers[n]];
    assert Indices(headers[..n + 1]) == Indices(headers[..n]) + [b.Index()];
  }

  lemma NextHeader(start: State, headers: seq<BlockHeader>, n: nat)
    requires |start.prevTimestamps| == WINDOW && n < |headers|
    ensures AfterHeaders(start, headers[..n + 1]) == ApplyHeader(AfterHeaders(start, headers[..n]), headers[n])
  {
    hide ApplyHeader;
    assert headers[..n + 1][..n] == headers[..n];
  }

  /** What a header does to the state is what its block does, accumulators aside, if their timestamps agree. */
  lemma HeaderPromise(fs: FullState, b: Block, s: State, h: BlockHeader, work: Hash -> nat)
    requires WellFormed(fs) && fs.chain != [] && ValidBlock(fs, b, work)
    requires |s.prevTimestamps| == WINDOW && SameHeaders(s, Compact(fs))
    requires h.Index() == b.Index() && h.timestamp == b.header.timestamp
    ensures SameHeaders(ApplyHeader(s, h), Compact(NextFull(fs, b)))
  {
    hide Compact, NextFull, WellFormed, ApplyHeader, ValidBlock;
    var next := Compact(NextFull(fs, b));
    ValidIsSound(fs, b, work);
    CompactParts(NextFull(fs, b));
    HeaderEffect(fs, b, next.elements, next.history);
    SameHeader(s, h, b.header);
    HeaderAside(s, h, Compact(fs).elements, Compact(fs).history);
    HeaderAside(s, b.header, next.elements, next.history);
    HeaderAside(Compact(fs), b.header, next.elements, next.history);
  }

  lemma Appended(start: State, headers: seq<BlockHeader>, h: BlockHeader, work: Hash -> nat)
    requires |start.prevTimestamps| == WINDOW && ValidHeaders(start, headers, work)
    requires ValidateHeader(AfterHeaders(start, headers), h, work) == Ok
    ensures ValidHeaders(start, headers + [h], work)
    ensures AfterHeaders(start, headers + [h]) == ApplyHeader(AfterHeaders(start, headers), h)
  {
    hide ValidateHeader, ApplyHeader;
    var more := headers + [h];
    assert more[..|headers|] == headers;
    forall k | 0 <= k < |more|
      ensures ValidateHeader(AfterHeaders(start, more[..k]), more[k], work) == Ok
    {
      assert k < |headers| ==> more[..k] == headers[..k];
    }
  }
}
