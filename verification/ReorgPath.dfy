/**
  reorgPath (chain/manager.go:500-546): from one index to another by way of
  their last common ancestor.
 */
module ReorgPath {
  import opened Types
  import opened Ledger
  import opened ChainTree
  import opened Store

  datatype PathResult = Path(revert: seq<ChainIndex>, apply: seq<ChainIndex>) | NoPath

  lemma ChainReaches(t: Tree, i: ChainIndex)
    requires t.Valid() && i in t.entries
    ensures t.Root() < |t.Chain(i)| && t.Chain(i)[|t.Chain(i)| - 1] == i && t.base in t.entries
  {
    hide Tree.Recorded, Tree.Attached;
    ParentChain(t, i);
  }

  /** Everything that parent-chasing from i can reach, from the first index that is not stored up to i. */
  ghost function Up(t: Tree, i: ChainIndex): (up: seq<ChainIndex>)
    requires t.base in t.entries
    ensures up != []
  {
    if i in t.entries && t.Root() < |t.Chain(i)| then
      [t.entries[t.base].block.header.ParentIndex()] + t.Chain(i)[t.Root()..]
    else [i]
  }

  lemma UpStep(t: Tree, i: ChainIndex, j: nat)
    requires t.Valid() && j < |Up(t, i)|
    ensures Up(t, i)[j] in t.entries <==> j > 0
    ensures j > 0 ==> t.entries[Up(t, i)[j]].block.header.ParentIndex() == Up(t, i)[j - 1]
    ensures j > 0 ==> i in t.entries && t.Root() + j - 1 < |t.Chain(i)| && Up(t, i)[j] == t.Chain(i)[t.Root() + j - 1]
    ensures j > 0 ==> Up(t, i)[j].height == t.Root() + j - 1
    ensures j == 1 ==> Up(t, i)[j] == t.base
  {
    hide Tree.Recorded, Tree.Attached;
    BaseHasNoParent(t);
    if i in t.entries {
      ParentChain(t, i);
      ParentChain(t, t.base);
      if j > 0 {
        Ancestor(t, i, t.Root() + j - 1);
      }
    }
  }

  /** The header of an index, replaced by its parent. */
  method Rewind(store: EphemeralStore, index: ChainIndex) returns (ok: bool, parent: ChainIndex)
    ensures ok <==> index in store.entries
    ensures ok ==> parent == store.entries[index].block.header.ParentIndex()
  {
    var h := store.GetHeader(index);
    if h.UnknownIndex? {
      return false, index;
    }
    return true, h.value.ParentIndex();
  }

  /** What the search has found so far: the positions it stands at, and the indices it passed. */
  ghost predicate Between(t: Tree, a0: ChainIndex, b0: ChainIndex, a: ChainIndex, b: ChainIndex,
                          revert: seq<ChainIndex>, apply: seq<ChainIndex>, i: nat, j: nat)
    requires t.base in t.entries
  {
    i < |Up(t, a0)| && j < |Up(t, b0)| && a == Up(t, a0)[i] && b == Up(t, b0)[j] &&
    revert == Reversed(Up(t, a0)[i + 1..]) && apply == Reversed(Up(t, b0)[j + 1..])
  }

  ghost predicate Stored(t: Tree, a: ChainIndex, b: ChainIndex) {
    a in t.entries && b in t.entries
  }

  lemma DownFirst(t: Tree, a0: ChainIndex, b0: ChainIndex, a: ChainIndex, b: ChainIndex,
                  revert: seq<ChainIndex>, apply: seq<ChainIndex>, i: nat, j: nat)
    requires t.Valid() && Between(t, a0, b0, a, b, revert, apply, i, j)
    ensures a in t.entries <==> i > 0
    ensures i > 0 ==> Between(t, a0, b0, t.entries[a].block.header.ParentIndex(), b, revert + [a], apply, i - 1, j)
  {
    hide Up, Reversed, Tree.Recorded, Tree.Attached, Tree.Chain, Tree.Root;
    UpStep(t, a0, i);
    if i > 0 {
      ReversedStep(Up(t, a0), i);
    }
  }

  lemma DownSecond(t: Tree, a0: ChainIndex, b0: ChainIndex, a: ChainIndex, b: ChainIndex,
                   revert: seq<ChainIndex>, apply: seq<ChainIndex>, i: nat, j: nat)
    requires t.Valid() && Between(t, a0, b0, a, b, revert, apply, i, j)
    ensures b in t.entries <==> j > 0
    ensures j > 0 ==> Between(t, a0, b0, a, t.entries[b].block.header.ParentIndex(), revert, apply + [b], i, j - 1)
  {
    hide Up, Reversed, Tree.Recorded, Tree.Attached, Tree.Chain, Tree.Root;
    UpStep(t, b0, j);
    if j > 0 {
      ReversedStep(Up(t, b0), j);
    }
  }

  /** Positions above the base go with heights. */
  lemma Heights(t: Tree, a0: ChainIndex, b0: ChainIndex, a: ChainIndex, b: ChainIndex,
                revert: seq<ChainIndex>, apply: seq<ChainIndex>, i: nat, j: nat)
    requires t.Valid() && Between(t, a0, b0, a, b, revert, apply, i, j) && i > 0 && j > 0
    ensures a.height - b.height == i - j
    ensures i == j == 1 ==> a == b
  {
    hide Up, Reversed, Tree.Recorded, Tree.Attached, Tree.Chain, Tree.Root;
    UpStep(t, a0, i);
    UpStep(t, b0, j);
  }

  /** When both are stored: neither has passed the base, and no common block has been passed. */
  ghost predicate Apart(t: Tree, a0: ChainIndex, b0: ChainIndex, i: nat)
    requires t.base in t.entries
  {
    i > 0 && (i + 1 < |Up(t, a0)| && i + 1 < |Up(t, b0)| ==> Up(t, a0)[i + 1] != Up(t, b0)[i + 1])
  }

  method FindAncestor(store: EphemeralStore, a0: ChainIndex, b0: ChainIndex, ghost t: Tree)
    returns (r: PathResult, ghost i: nat, ghost j: nat)
    requires t.Valid() && t.entries == store.entries
    ensures Stored(t, a0, b0) ==> r.Path? && i == j > 0 && Apart(t, a0, b0, i)
    ensures a0 == b0 ==> r.Path?
    ensures r.Path? ==> i < |Up(t, a0)| && Between(t, a0, b0, Up(t, a0)[i], Up(t, a0)[i], r.revert, r.apply, i, j)
  {
    hide Up, Reversed, Tree.Recorded, Tree.Attached, Tree.Chain, Tree.Root, Between;
    var a, b := a0, b0;
    var revert: seq<ChainIndex>, apply: seq<ChainIndex> := [], [];
    ghost var last, last' := |Up(t, a0)| - 1, |Up(t, b0)| - 1;
    i, j := last, last';
    Nothing(t, a0, b0);
    // first the higher of the two goes down to the height of the other
    while a.height > b.height
      invariant a0 == b0 ==> a == b
      invariant Between(t, a0, b0, a, b, revert, apply, i, j) && j == last'
      invariant Stored(t, a0, b0) ==> i > 0 && j > 0 && (i == last || i >= j)
      decreases i
    {
      DownFirst(t, a0, b0, a, b, revert, apply, i, j);
      if Stored(t, a0, b0) {
        Heights(t, a0, b0, a, b, revert, apply, i, j);
      }
      revert := revert + [a];
      var ok;
      ok, a := Rewind(store, a);
      if !ok {
        return NoPath, i, j;
      }
      i := i - 1;
    }
    if Stored(t, a0, b0) {
      Heights(t, a0, b0, a, b, revert, apply, i, j);
    }
    while b.height > a.height
      invariant a0 == b0 ==> a == b
      invariant Between(t, a0, b0, a, b, revert, apply, i, j)
      invariant Stored(t, a0, b0) ==> 0 < i <= j && (i == last || (j == last' && i == j))
      decreases j
    {
      DownSecond(t, a0, b0, a, b, revert, apply, i, j);
      if Stored(t, a0, b0) {
        Heights(t, a0, b0, a, b, revert, apply, i, j);
      }
      apply := apply + [b];
      var ok;
      ok, b := Rewind(store, b);
      if !ok {
        return NoPath, i, j;
      }
      j := j - 1;
    }
    if Stored(t, a0, b0) {
      Heights(t, a0, b0, a, b, revert, apply, i, j);
    }
    // then both go down in step
    while a != b
      invariant a0 == b0 ==> a == b
      invariant Between(t, a0, b0, a, b, revert, apply, i, j)
      invariant Stored(t, a0, b0) ==> i == j && Apart(t, a0, b0, i)
      decreases i
    {
      Differ(t, a0, b0, a, b, revert, apply, i, j);
      DownFirst(t, a0, b0, a, b, revert, apply, i, j);
      revert := revert + [a];
      apply := apply + [b];
      var ok;
      ok, a := Rewind(store, a);
      if !ok {
        return NoPath, i, j;
      }
      DownSecond(t, a0, b0, a, b, revert, apply[..|apply| - 1], i - 1, j);
      ok, b := Rewind(store, b);
      if !ok {
        return NoPath, i, j;
      }
      i, j := i - 1, j - 1;
    }
    Found(t, a0, b0, a, revert, apply, i, j);
    r := Path(revert, apply);
  }

  lemma Differ(t: Tree, a0: ChainIndex, b0: ChainIndex, a: ChainIndex, b: ChainIndex,
               revert: seq<ChainIndex>, apply: seq<ChainIndex>, i: nat, j: nat)
    requires t.Valid() && Between(t, a0, b0, a, b, revert, apply, i, j) && a != b
    ensures Stored(t, a0, b0) && i == j > 0 ==> i > 1 && Apart(t, a0, b0, i - 1)
  {
    hide Up, Reversed, Tree.Recorded, Tree.Attached, Tree.Chain, Tree.Root;
    if Stored(t, a0, b0) && i == j > 0 {
      Heights(t, a0, b0, a, b, revert, apply, i, j);
    }
  }

  lemma Found(t: Tree, a0: ChainIndex, b0: ChainIndex, a: ChainIndex,
              revert: seq<ChainIndex>, apply: seq<ChainIndex>, i: nat, j: nat)
    requires t.Valid() && Between(t, a0, b0, a, a, revert, apply, i, j)
    ensures i < |Up(t, a0)| && Up(t, a0)[i] == a
  {
    hide Up, Reversed, Tree.Recorded, Tree.Attached;
  }

  lemma Nothing(t: Tree, a: ChainIndex, b: ChainIndex)
    requires t.Valid()
    ensures Between(t, a, b, a, b, [], [], |Up(t, a)| - 1, |Up(t, b)| - 1)
    ensures a in t.entries ==> |Up(t, a)| > 1
    ensures b in t.entries ==> |Up(t, b)| > 1
  {
    hide Tree.Recorded, Tree.Attached;
    if a in t.entries {
      ChainReaches(t, a);
    }
    if b in t.entries {
      ChainReaches(t, b);
    }
  }

  /** Reversing a list in place. */
  method ReverseList(list: seq<ChainIndex>) returns (r: seq<ChainIndex>)
    ensures r == Reversed(list)
  {
    r := list;
    for i := 0 to |list| / 2
      invariant |r| == |list|
      invariant forall k :: 0 <= k < |list| && (k < i || k >= |list| - i) ==> r[k] == list[|list| - 1 - k]
      invariant forall k :: i <= k < |list| - i ==> r[k] == list[k]
    {
      var j := |list| - i - 1;
      r := r[i := r[j]][j := r[i]];
    }
  }

  lemma ReversedTwice(s: seq<ChainIndex>)
    ensures Reversed(Reversed(s)) == s
  {
  }

  /** The path from a down to the last common block, and up again to b. */
  ghost predicate Shortcut(t: Tree, a: ChainIndex, b: ChainIndex, r: PathResult) {
    var k := Common(t.Chain(a), t.Chain(b));
    t.Root() < k && r.Path? && r.revert == Reversed(t.Chain(a)[k..]) && r.apply == t.Chain(b)[k..]
  }

  /** Nothing to move, or a path that would pass below the base. */
  ghost predicate Outside(t: Tree, a: ChainIndex, b: ChainIndex, r: PathResult)
    requires r.Path?
  {
    (a == b && r.revert == r.apply == []) ||
    (a in t.entries && t.Root() < |t.Chain(a)| && r.apply == [] && r.revert == Reversed(t.Chain(a)[t.Root()..])) ||
    (b in t.entries && r.revert == [] && r.apply != [] && r.apply[0] == t.base)
  }

  /**
    Between stored indices the path leads down to the last common block and up
    again.  With an index that is not stored there is no path, unless nothing
    needs to move or the path would have to pass below the base.
   */
  method FindPath(store: EphemeralStore, a: ChainIndex, b: ChainIndex, ghost t: Tree) returns (r: PathResult)
    requires t.Valid() && t.entries == store.entries
    ensures Stored(t, a, b) ==> r.Path? && Shortcut(t, a, b, r)
    ensures r.Path? && !Stored(t, a, b) ==> Outside(t, a, b, r)
    ensures a == b ==> r.Path?
  {
    hide Reversed, Up, Tree.Recorded, Tree.Attached, Tree.Chain, Tree.Root, Common, Apart, Outside, Between;
    var found;
    ghost var i, j;
    found, i, j := FindAncestor(store, a, b, t);
    if found.NoPath? {
      return NoPath;
    }
    var apply := ReverseList(found.apply);
    r := Path(found.revert, apply);
    if Stored(t, a, b) {
      InsidePath(t, a, b, found, i);
    } else {
      OutsidePath(t, a, b, found, i, j);
    }
  }

  lemma InsidePath(t: Tree, a: ChainIndex, b: ChainIndex, found: PathResult, i: nat)
    requires t.Valid() && Stored(t, a, b) && i < |Up(t, a)| && found.Path?
    requires Between(t, a, b, Up(t, a)[i], Up(t, a)[i], found.revert, found.apply, i, i) && i > 0 && Apart(t, a, b, i)
    ensures Shortcut(t, a, b, Path(found.revert, Reversed(found.apply)))
  {
    hide Reversed, Up, Tree.Recorded, Tree.Attached, Tree.Chain, Tree.Root, Common, Apart;
    AncestorIsLast(t, a, b, i);
    ReversedTwice(Up(t, b)[i + 1..]);
    var k := Common(t.Chain(a), t.Chain(b));
    assert k == t.Root() + i;
    assert found.revert == Reversed(t.Chain(a)[k..]);
    assert Reversed(found.apply) == t.Chain(b)[k..];
  }

  lemma OutsidePath(t: Tree, a: ChainIndex, b: ChainIndex, found: PathResult, i: nat, j: nat)
    requires t.Valid() && !Stored(t, a, b) && i < |Up(t, a)| && found.Path?
    requires Between(t, a, b, Up(t, a)[i], Up(t, a)[i], found.revert, found.apply, i, j)
    ensures Outside(t, a, b, Path(found.revert, Reversed(found.apply)))
  {
    hide Reversed, Up, Tree.Recorded, Tree.Attached, Tree.Chain, Tree.Root;
    PathOutside(t, a, b, i, j);
    ReversedTwice(Up(t, b)[j + 1..]);
    if a in t.entries {
      UpOf(t, a);
    }
  }

  lemma UpOf(t: Tree, a: ChainIndex)
    requires t.Valid() && a in t.entries
    ensures t.Root() < |t.Chain(a)| && |Up(t, a)| == |t.Chain(a)| - t.Root() + 1
    ensures forall i :: 0 < i <= |Up(t, a)| ==> Up(t, a)[i..] == t.Chain(a)[t.Root() + i - 1..]
  {
    hide Tree.Recorded, Tree.Attached;
    ParentChain(t, a);
  }

  lemma AncestorIsLast(t: Tree, a: ChainIndex, b: ChainIndex, i: nat)
    requires t.Valid() && Stored(t, a, b) && 0 < i < |Up(t, a)| && i < |Up(t, b)| && Up(t, a)[i] == Up(t, b)[i]
    requires Apart(t, a, b, i)
    ensures Common(t.Chain(a), t.Chain(b)) == t.Root() + i
    ensures Up(t, a)[i + 1..] == t.Chain(a)[t.Root() + i..] && Up(t, b)[i + 1..] == t.Chain(b)[t.Root() + i..]
  {
    hide Tree.Recorded, Tree.Attached, Up, Tree.Chain, Common;
    var a', b', p := t.Chain(a), t.Chain(b), t.Root() + i - 1;
    UpOf(t, a);
    UpOf(t, b);
    UpStep(t, a, i);
    UpStep(t, b, i);
    MeetBelow(t, a, b, p);
    if i + 1 < |Up(t, a)| && i + 1 < |Up(t, b)| {
      UpStep(t, a, i + 1);
      UpStep(t, b, i + 1);
    }
    NotBeyond(a', b', p + 1);
  }

  lemma NotBeyond(a: seq<ChainIndex>, b: seq<ChainIndex>, k: nat)
    requires k <= |a| && k <= |b| && (k < |a| && k < |b| ==> a[k] != b[k])
    ensures Common(a, b) <= k
  {
    hide Common;
    Agreement(a, b);
  }

  lemma PathOutside(t: Tree, a: ChainIndex, b: ChainIndex, i: nat, j: nat)
    requires t.Valid() && !Stored(t, a, b) && i < |Up(t, a)| && j < |Up(t, b)| && Up(t, a)[i] == Up(t, b)[j]
    ensures i == j == 0
    ensures a !in t.entries && b !in t.entries ==> a == b
    ensures a !in t.entries ==> Up(t, a)[1..] == []
    ensures b !in t.entries ==> Up(t, b)[1..] == []
    ensures a in t.entries ==> Up(t, a)[1..] == t.Chain(a)[t.Root()..] != []
    ensures b in t.entries ==> Up(t, b)[1..] != [] && Up(t, b)[1] == t.base
  {
    hide Tree.Recorded, Tree.Attached, Tree.Chain;
    UpStep(t, a, i);
    UpStep(t, b, j);
    if a in t.entries {
      UpOf(t, a);
    }
    if b in t.entries {
      UpOf(t, b);
      UpStep(t, b, 1);
    }
  }

  // ---------------------------------------------------------------- what the path is good for

  /** Chains that meet at a height agree below it. */
  lemma MeetBelow(t: Tree, a: ChainIndex, b: ChainIndex, p: nat)
    requires t.Valid() && Stored(t, a, b) && t.Root() <= p < |t.Chain(a)| && p < |t.Chain(b)|
    requires t.Chain(a)[p] == t.Chain(b)[p]
    ensures p < Common(t.Chain(a), t.Chain(b))
  {
    hide Tree.Recorded, Tree.Attached, Common, Tree.Chain;
    Ancestor(t, a, p);
    Ancestor(t, b, p);
    var k, a', b' := Common(t.Chain(a), t.Chain(b)), t.Chain(a), t.Chain(b);
    assert forall i :: 0 <= i <= p ==> a'[i] == a'[..p + 1][i] == b'[..p + 1][i] == b'[i];
  }

  /** No block is both reverted and applied. */
  lemma Disjoint(t: Tree, a: ChainIndex, b: ChainIndex, i: nat, j: nat)
    requires t.Valid() && Stored(t, a, b)
    requires Common(t.Chain(a), t.Chain(b)) <= i < |t.Chain(a)| && Common(t.Chain(a), t.Chain(b)) <= j < |t.Chain(b)|
    ensures t.Chain(a)[i] != t.Chain(b)[j]
  {
    hide Tree.Recorded, Tree.Attached, Common, Tree.Chain;
    SharedBase(t, a, b);
    Ancestor(t, a, i);
    Ancestor(t, b, j);
    if t.Chain(a)[i] == t.Chain(b)[j] {
      MeetBelow(t, a, b, i);
    }
  }

  /** Any two chains share the base. */
  lemma SharedBase(t: Tree, a: ChainIndex, b: ChainIndex)
    requires t.Valid() && Stored(t, a, b)
    ensures Common(t.Chain(a), t.Chain(b)) > t.Root()
  {
    hide Tree.Recorded, Tree.Attached;
    ParentChain(t, a);
    ParentChain(t, b);
    ParentChain(t, t.base);
    var k, r := Common(t.Chain(a), t.Chain(b)), t.Root();
    assert forall i :: 0 <= i <= r ==> t.Chain(a)[i] == t.Chain(t.base)[i] == t.Chain(b)[i];
  }

  /** There is no shorter way. */
  lemma Shortest(t: Tree, a: ChainIndex, b: ChainIndex, walk: seq<ChainIndex>)
    requires t.Valid() && Walk(t, walk) && walk[0] == a && walk[|walk| - 1] == b
    ensures var k := Common(t.Chain(a), t.Chain(b));
      |Reversed(t.Chain(a)[k..])| + |t.Chain(b)[k..]| <= |walk| - 1
  {
    hide Tree.Recorded, Tree.Attached;
    WalkLength(t, walk);
  }
}
