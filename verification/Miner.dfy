/**
  Choosing and ordering the transactions of a block (miner/miner.go:42-89).
 */
module Miner {
  import opened Types
  import opened Ledger

  /** The transaction pool, by transaction ID. */
  type Pool = map<Hash, Transaction>

  ghost predicate Keyed(pool: Pool) {
    forall id :: id in pool ==> TransactionID(pool[id]) == id
  }

  // ---------------------------------------------------------------- dependencies

  /** How deep transactions are nested in a hash. */
  ghost function Depth(h: Hash): nat {
    match h
    case TransactionHash(ids, _, _) => 1 + Greatest(seq(|ids|, m requires 0 <= m < |ids| => Depth(ids[m].source)))
    case _ => 0
  }

  function Greatest(ns: seq<nat>): (g: nat)
    ensures forall m :: 0 <= m < |ns| ==> ns[m] <= g
  {
    if ns == [] then 0
    else
      var first, more := ns[0], Greatest(ns[1..]);
      assert forall m :: 1 <= m < |ns| ==> ns[m] == ns[1..][m - 1];
      if first > more then first else more
  }

  /** A transaction's ID contains those of its parents, so dependencies cannot be circular. */
  lemma ParentsAreShallower(txn: Transaction, m: nat)
    requires m < |txn.inputs|
    ensures Depth(txn.inputs[m].parent.state.id.source) < Depth(TransactionID(txn))
  {
    var ids := InputIDs(txn.inputs);
    var depths: seq<nat> := seq(|ids|, k requires 0 <= k < |ids| => Depth(ids[k].source));
    assert depths[m] <= Greatest(depths);
  }

  /** A parent of the transaction, or a parent's parent, and so on, as far as they are in the pool. */
  ghost predicate Needs(pool: Pool, txn: Transaction, id: Hash)
    requires Keyed(pool)
    decreases Depth(TransactionID(txn))
  {
    exists m :: 0 <= m < |txn.inputs| && NeedsFor(pool, txn, m, id)
  }

  /** For input m. */
  ghost predicate NeedsFor(pool: Pool, txn: Transaction, m: nat, id: Hash)
    requires Keyed(pool) && m < |txn.inputs|
    decreases Depth(TransactionID(txn)), 0
  {
    var parentID := txn.inputs[m].parent.state.id.source;
    ParentsAreShallower(txn, m);
    parentID in pool && (parentID == id || Needs(pool, pool[parentID], id))
  }

  ghost predicate Listed(txns: seq<Transaction>, id: Hash) {
    exists k :: 0 <= k < |txns| && TransactionID(txns[k]) == id
  }

  /** Every parent of the transaction that is in the pool is listed. */
  ghost predicate Supplied(pool: Pool, txn: Transaction, txns: seq<Transaction>) {
    forall m :: 0 <= m < |txn.inputs| && txn.inputs[m].parent.state.id.source in pool ==>
      Listed(txns, txn.inputs[m].parent.state.id.source)
  }

  /** Pool transactions, none of them twice, each after its parents in the pool. */
  ghost predicate Scheduled(pool: Pool, txns: seq<Transaction>) {
    (forall k :: 0 <= k < |txns| ==> TransactionID(txns[k]) in pool && pool[TransactionID(txns[k])] == txns[k]) &&
    (forall j, k :: 0 <= j < k < |txns| ==> TransactionID(txns[j]) != TransactionID(txns[k])) &&
    (forall k :: 0 <= k < |txns| ==> Supplied(pool, txns[k], txns[..k]))
  }

  /** Transactions that have been started but not listed yet: they lie above the current one. */
  ghost predicate OpenAbove(added: set<Hash>, deps: seq<Transaction>, depth: nat) {
    forall id :: id in added && !Listed(deps, id) ==> Depth(id) > depth
  }

  /** What was started and not listed before is not listed now. */
  ghost predicate StillOpen(added: set<Hash>, before: seq<Transaction>, after: seq<Transaction>) {
    forall id :: id in added && !Listed(before, id) ==> !Listed(after, id)
  }

  ghost predicate AllAdded(added: set<Hash>, deps: seq<Transaction>) {
    forall k :: 0 <= k < |deps| ==> TransactionID(deps[k]) in added
  }

  lemma ListedLonger(txns: seq<Transaction>, more: seq<Transaction>, id: Hash)
    requires txns <= more && Listed(txns, id)
    ensures Listed(more, id)
  {
    var k :| 0 <= k < |txns| && TransactionID(txns[k]) == id;
    assert more[k] == txns[k];
  }

  lemma AppendScheduled(pool: Pool, txns: seq<Transaction>, txn: Transaction)
    requires Scheduled(pool, txns) && TransactionID(txn) in pool && pool[TransactionID(txn)] == txn
    requires !Listed(txns, TransactionID(txn)) && Supplied(pool, txn, txns)
    ensures Scheduled(pool, txns + [txn])
    ensures forall id :: Listed(txns + [txn], id) <==> Listed(txns, id) || id == TransactionID(txn)
  {
    hide TransactionID;
    var more := txns + [txn];
    forall k | 0 <= k < |more|
      ensures Supplied(pool, more[k], more[..k])
    {
      assert k < |txns| ==> more[..k] == txns[..k];
      assert k == |txns| ==> more[..k] == txns;
    }
    assert more[|txns|] == txn;
    forall id
      ensures Listed(more, id) <==> Listed(txns, id) || id == TransactionID(txn)
    {
      if Listed(txns, id) {
        ListedLonger(txns, more, id);
      }
    }
  }

  /**
    addDeps: lists the dependencies of a transaction that are not there yet,
    parents first.  It ends because each call starts another transaction.
   */
  method AddDeps(pool: Pool, txn: Transaction, added0: set<Hash>, deps0: seq<Transaction>)
    returns (added: set<Hash>, deps: seq<Transaction>)
    requires Keyed(pool) && Scheduled(pool, deps0) && AllAdded(added0, deps0) && TransactionID(txn) !in added0
    requires OpenAbove(added0, deps0, Depth(TransactionID(txn)))
    ensures Scheduled(pool, deps) && AllAdded(added, deps) && deps0 <= deps && Supplied(pool, txn, deps)
    ensures added0 + {TransactionID(txn)} <= added
    ensures forall id :: id in added && !Listed(deps, id) ==>
      id == TransactionID(txn) || (id in added0 && !Listed(deps0, id))
    ensures !Listed(deps, TransactionID(txn)) && StillOpen(added0, deps0, deps)
    ensures forall x :: Listed(deps, x) ==> Listed(deps0, x) || Needs(pool, txn, x)
    decreases pool.Keys - added0, TransactionID(txn) !in pool
  {
    hide TransactionID, Scheduled, Depth;
    var id := TransactionID(txn);
    added, deps := added0 + {id}, deps0;
    assert !Listed(deps, id);
    for m := 0 to |txn.inputs|
      invariant Scheduled(pool, deps) && AllAdded(added, deps) && deps0 <= deps && added0 + {id} <= added
      invariant Supplied(pool, txn.(inputs := txn.inputs[..m]), deps) && !Listed(deps, id)
      invariant StillOpen(added0, deps0, deps)
      invariant forall x :: x in added && !Listed(deps, x) ==> x == id || (x in added0 && !Listed(deps0, x))
      invariant forall x :: Listed(deps, x) ==> Listed(deps0, x) || Needs(pool, txn, x)
    {
      var parentID := txn.inputs[m].parent.state.id.source;
      ParentsAreShallower(txn, m);
      if parentID in pool && parentID !in added {
        var parent := pool[parentID];
        ghost var added1, deps1 := added, deps;
        // grandparents come before parents
        added, deps := AddDeps(pool, parent, added, deps);
        ghost var deps2 := deps;
        AppendScheduled(pool, deps, parent);
        deps := deps + [parent];
        NeedsThrough(pool, txn, m);
      }
    }
    assert txn.inputs[..|txn.inputs|] == txn.inputs;
  }

  lemma NeedsThrough(pool: Pool, txn: Transaction, m: nat)
    requires Keyed(pool) && m < |txn.inputs| && txn.inputs[m].parent.state.id.source in pool
    ensures Needs(pool, txn, txn.inputs[m].parent.state.id.source)
    ensures forall x :: Needs(pool, pool[txn.inputs[m].parent.state.id.source], x) ==> Needs(pool, txn, x)
  {
    hide TransactionID, Depth;
    var parentID := txn.inputs[m].parent.state.id.source;
    assert NeedsFor(pool, txn, m, parentID);
    forall x | Needs(pool, pool[parentID], x)
      ensures Needs(pool, txn, x)
    {
      assert NeedsFor(pool, txn, m, x);
    }
  }

  /** Whatever a transaction needs is in every schedule that supplies it. */
  lemma {:induction false} NeedsAreListed(pool: Pool, txn: Transaction, txns: seq<Transaction>, id: Hash)
    requires Keyed(pool) && Scheduled(pool, txns) && Supplied(pool, txn, txns) && Needs(pool, txn, id)
    ensures Listed(txns, id)
    decreases Depth(TransactionID(txn))
  {
    hide TransactionID, Depth;
    var m :| 0 <= m < |txn.inputs| && NeedsFor(pool, txn, m, id);
    var parentID := txn.inputs[m].parent.state.id.source;
    ParentsAreShallower(txn, m);
    var k :| 0 <= k < |txns| && TransactionID(txns[k]) == parentID;
    if parentID != id {
      forall j | 0 <= j < |txns[k].inputs| && txns[k].inputs[j].parent.state.id.source in pool
        ensures Listed(txns, txns[k].inputs[j].parent.state.id.source)
      {
        ListedLonger(txns[..k], txns, txns[k].inputs[j].parent.state.id.source);
      }
      NeedsAreListed(pool, pool[parentID], txns, id);
    }
  }

  /** calcDeps: a transaction's unmet dependencies. */
  method CalcDeps(pool: Pool, txn: Transaction) returns (deps: seq<Transaction>)
    requires Keyed(pool)
    ensures Scheduled(pool, deps) && Supplied(pool, txn, deps) && !Listed(deps, TransactionID(txn))
    ensures forall id :: Listed(deps, id) <==> Needs(pool, txn, id)
  {
    hide TransactionID, Depth, Needs;
    var added;
    added, deps := AddDeps(pool, txn, {}, []);
    forall id | Needs(pool, txn, id)
      ensures Listed(deps, id)
    {
      NeedsAreListed(pool, txn, deps, id);
    }
  }

  // ---------------------------------------------------------------- weight

  lemma {:induction false} WeightOfBoth(a: seq<Transaction>, b: seq<Transaction>)
    ensures BlockWeight(a + b) == BlockWeight(a) + BlockWeight(b)
    decreases |b|
  {
    if b == [] {
      assert a + b == a;
    } else {
      var n := |b| - 1;
      assert (a + b)[..|a + b| - 1] == a + b[..n];
      WeightOfBoth(a, b[..n]);
    }
  }

  /** Every transaction of the list is among the others, and none is there twice. */
  ghost predicate Among(some: seq<Transaction>, all: seq<Transaction>) {
    (forall k :: 0 <= k < |some| ==> some[k] in all) && (forall j, k :: 0 <= j < k < |some| ==> some[j] != some[k])
  }

  /** Part of a list weighs no more than the whole. */
  lemma {:induction false} PartWeighsLess(some: seq<Transaction>, all: seq<Transaction>)
    requires Among(some, all)
    ensures BlockWeight(some) <= BlockWeight(all)
    decreases |some|
  {
    if some != [] {
      var n := |some| - 1;
      var i :| 0 <= i < |all| && all[i] == some[n];
      var x, y := all[..i], all[i + 1..];
      assert all == x + [all[i]] + y;
      WeightOfBoth(x, [all[i]]);
      WeightOfBoth(x + [all[i]], y);
      WeightOfBoth(x, y);
      assert [all[i]][..0] == [];
      forall k | 0 <= k < n
        ensures some[..n][k] in x + y
      {
        var j :| 0 <= j < |all| && all[j] == some[k];
        assert j != i;
        assert j < i ==> (x + y)[j] == some[k];
        assert j > i ==> (x + y)[j - 1] == some[k];
      }
      PartWeighsLess(some[..n], x + y);
    }
  }

  /** The list has every transaction of the pool, and fits into a block. */
  ghost predicate FitsAll(pool: Pool, all: seq<Transaction>) {
    (forall id :: id in pool ==> pool[id] in all) && BlockWeight(all) <= MAX_BLOCK_WEIGHT
  }

  /** If the whole pool fits, every group does. */
  lemma GroupFits(pool: Pool, txns: seq<Transaction>, group: seq<Transaction>, all: seq<Transaction>)
    requires Scheduled(pool, txns + group) && FitsAll(pool, all)
    ensures BlockWeight(txns) + BlockWeight(group) <= MAX_BLOCK_WEIGHT
  {
    hide TransactionID, BlockWeight;
    var both := txns + group;
    forall k | 0 <= k < |both|
      ensures both[k] in all
    {
      assert pool[TransactionID(both[k])] == both[k];
    }
    PartWeighsLess(both, all);
    WeightOfBoth(txns, group);
  }

  // ---------------------------------------------------------------- choosing

  /** What is left of the pool: the transactions that are not in the block. */
  ghost predicate Remaining(pool: Pool, left: Pool, txns: seq<Transaction>) {
    (forall id :: id in left ==> id in pool && left[id] == pool[id] && !Listed(txns, id)) &&
    (forall id :: id in pool && id !in left ==> Listed(txns, id))
  }

  lemma GroupScheduled(pool: Pool, left: Pool, txns: seq<Transaction>, group: seq<Transaction>)
    requires Scheduled(pool, txns) && Remaining(pool, left, txns) && Scheduled(left, group)
    ensures Scheduled(pool, txns + group)
    ensures forall id :: Listed(txns + group, id) <==> Listed(txns, id) || Listed(group, id)
  {
    hide TransactionID;
    var all := txns + group;
    forall id
      ensures Listed(all, id) <==> Listed(txns, id) || Listed(group, id)
    {
      if Listed(txns, id) {
        ListedLonger(txns, all, id);
      }
      if Listed(group, id) {
        var k :| 0 <= k < |group| && TransactionID(group[k]) == id;
        assert all[|txns| + k] == group[k];
      }
    }
    forall j, k | 0 <= j < k < |all|
      ensures TransactionID(all[j]) != TransactionID(all[k])
    {
      assert k >= |txns| ==> TransactionID(group[k - |txns|]) in left;
      assert j < |txns| ==> Listed(txns, TransactionID(txns[j]));
    }
    forall k | 0 <= k < |all|
      ensures Supplied(pool, all[k], all[..k])
    {
      if k < |txns| {
        assert all[..k] == txns[..k];
      } else {
        LaterSupplied(pool, left, txns, group, k - |txns|);
      }
    }
  }

  /** A parent that is no longer in the pool is in the block already. */
  lemma LaterSupplied(pool: Pool, left: Pool, txns: seq<Transaction>, group: seq<Transaction>, k: nat)
    requires Remaining(pool, left, txns) && Scheduled(left, group) && k < |group|
    ensures Supplied(pool, group[k], (txns + group)[..|txns| + k])
  {
    hide TransactionID;
    var before := (txns + group)[..|txns| + k];
    assert before == txns + group[..k];
    forall m | 0 <= m < |group[k].inputs| && group[k].inputs[m].parent.state.id.source in pool
      ensures Listed(before, group[k].inputs[m].parent.state.id.source)
    {
      var source := group[k].inputs[m].parent.state.id.source;
      if source in left {
        var j :| 0 <= j < |group[..k]| && TransactionID(group[..k][j]) == source;
        assert before[|txns| + j] == group[..k][j];
      } else {
        ListedLonger(txns, before, source);
      }
    }
  }

  /** The transactions of a group leave the pool. */
  method DeleteGroup(pool: Pool, group: seq<Transaction>) returns (left: Pool)
    ensures left.Keys <= pool.Keys && forall id :: id in left ==> left[id] == pool[id]
    ensures forall id :: id in pool ==> (id in left <==> !Listed(group, id))
  {
    hide TransactionID;
    left := pool;
    for k := 0 to |group|
      invariant left.Keys <= pool.Keys && forall id :: id in left ==> left[id] == pool[id]
      invariant forall id :: id in pool ==> (id in left <==> !Listed(group[..k], id))
    {
      left := left - {TransactionID(group[k])};
      assert group[..k + 1][k] == group[k];
      forall id
        ensures Listed(group[..k + 1], id) <==> Listed(group[..k], id) || id == TransactionID(group[k])
      {
        if Listed(group[..k], id) {
          ListedLonger(group[..k], group[..k + 1], id);
        }
      }
    }
    assert group[..|group|] == group;
  }

  /** No schedule that goes on from these transactions, and has the given one, fits into a block. */
  ghost predicate NoRoom(pool: Pool, txns: seq<Transaction>, id: Hash) {
    forall more :: Scheduled(pool, txns + more) && Listed(more, id) ==>
      BlockWeight(txns) + BlockWeight(more) > MAX_BLOCK_WEIGHT
  }

  /** A larger pool has whatever is needed in a part of it. */
  lemma {:induction false} NeedsInLarger(left: Pool, pool: Pool, txn: Transaction, id: Hash)
    requires Keyed(pool) && Keyed(left) && forall x :: x in left ==> x in pool && left[x] == pool[x]
    requires Needs(left, txn, id)
    ensures id in left && Needs(pool, txn, id)
    decreases Depth(TransactionID(txn))
  {
    hide TransactionID, Depth;
    var m :| 0 <= m < |txn.inputs| && NeedsFor(left, txn, m, id);
    var parentID := txn.inputs[m].parent.state.id.source;
    ParentsAreShallower(txn, m);
    NeedsThrough(pool, txn, m);
    if parentID != id {
      NeedsInLarger(left, pool, left[parentID], id);
    }
  }

  /** A group that is skipped is part of every schedule that goes on and has its transaction. */
  lemma SkippedHasNoRoom(pool: Pool, left: Pool, txns: seq<Transaction>, deps: seq<Transaction>, id: Hash)
    requires Keyed(pool) && Keyed(left) && Remaining(pool, left, txns) && id in left
    requires Scheduled(left, deps + [left[id]]) && forall x :: Listed(deps, x) ==> Needs(left, left[id], x)
    requires BlockWeight(txns) + BlockWeight(deps + [left[id]]) > MAX_BLOCK_WEIGHT
    ensures NoRoom(pool, txns, id)
  {
    hide TransactionID, BlockWeight;
    var group := deps + [left[id]];
    forall more | Scheduled(pool, txns + more) && Listed(more, id)
      ensures BlockWeight(txns) + BlockWeight(more) > MAX_BLOCK_WEIGHT
    {
      GroupWithin(pool, left, txns, deps, id, more);
      PartWeighsLess(group, more);
    }
  }

  lemma GroupWithin(pool: Pool, left: Pool, txns: seq<Transaction>, deps: seq<Transaction>, id: Hash,
                    more: seq<Transaction>)
    requires Keyed(pool) && Keyed(left) && Remaining(pool, left, txns) && id in left
    requires Scheduled(left, deps + [left[id]]) && forall x :: Listed(deps, x) ==> Needs(left, left[id], x)
    requires Scheduled(pool, txns + more) && Listed(more, id)
    ensures Among(deps + [left[id]], more)
  {
    hide TransactionID, Needs;
    var all, group := txns + more, deps + [left[id]];
    var k :| 0 <= k < |more| && TransactionID(more[k]) == id;
    assert all[|txns| + k] == more[k] == pool[id];
    assert Supplied(pool, pool[id], all) by {
      SuppliedLater(pool, all, |txns| + k);
    }
    forall j | 0 <= j < |group|
      ensures group[j] in more
    {
      if j < |deps| {
        var x := TransactionID(deps[j]);
        assert Listed(deps, x) && group[j] == deps[j];
        NeedsInLarger(left, pool, left[id], x);
        NeedsAreListed(pool, pool[id], all, x);
        var n :| 0 <= n < |all| && TransactionID(all[n]) == x;
        assert n < |txns| ==> Listed(txns, x);
        assert all[n] == more[n - |txns|];
      }
    }
  }

  lemma SuppliedLater(pool: Pool, txns: seq<Transaction>, k: nat)
    requires Scheduled(pool, txns) && k < |txns|
    ensures Supplied(pool, txns[k], txns)
  {
    hide TransactionID;
    forall m | 0 <= m < |txns[k].inputs| && txns[k].inputs[m].parent.state.id.source in pool
      ensures Listed(txns, txns[k].inputs[m].parent.state.id.source)
    {
      ListedLonger(txns[..k], txns, txns[k].inputs[m].parent.state.id.source);
    }
  }

  /** What has no room has none after a group is added. */
  lemma StillNoRoom(pool: Pool, txns: seq<Transaction>, group: seq<Transaction>, id: Hash)
    requires NoRoom(pool, txns, id)
    ensures NoRoom(pool, txns + group, id)
  {
    hide TransactionID, BlockWeight, Scheduled;
    forall more | Scheduled(pool, (txns + group) + more) && Listed(more, id)
      ensures BlockWeight(txns + group) + BlockWeight(more) > MAX_BLOCK_WEIGHT
    {
      assert (txns + group) + more == txns + (group + more);
      var k :| 0 <= k < |more| && TransactionID(more[k]) == id;
      assert (group + more)[|group| + k] == more[k];
      WeightOfBoth(txns, group);
      WeightOfBoth(group, more);
    }
  }

  /**
    txnsForBlock: whatever order the pool is visited in, the block lists pool
    transactions, none twice, parents first, within the weight limit; nothing
    can be added to it; and if the whole pool fits, it is all there.
   */
  method TxnsForBlock(pool: Pool) returns (blockTxns: seq<Transaction>)
    requires Keyed(pool)
    ensures Scheduled(pool, blockTxns) && BlockWeight(blockTxns) <= 1_000_000
    ensures forall more :: more != [] && Scheduled(pool, blockTxns + more) ==> BlockWeight(blockTxns + more) > 1_000_000
    ensures (exists all :: FitsAll(pool, all)) ==> forall id :: id in pool ==> Listed(blockTxns, id)
  {
    hide TransactionID, BlockWeight, Scheduled, Remaining, Supplied, FitsAll, Needs, NoRoom, Listed;
    var poolTxns := pool;
    blockTxns := [];
    var capacity := MAX_BLOCK_WEIGHT;
    NothingYet(pool);
    var todo := pool.Keys;
    while todo != {}
      invariant Keyed(poolTxns) && Remaining(pool, poolTxns, blockTxns) && Scheduled(pool, blockTxns)
      invariant BlockWeight(blockTxns) + capacity == MAX_BLOCK_WEIGHT && todo <= pool.Keys
      invariant (exists all :: FitsAll(pool, all)) ==> forall id :: id in pool && id !in todo ==> Listed(blockTxns, id)
      invariant forall id :: id in pool && id !in todo ==> Listed(blockTxns, id) || NoRoom(pool, blockTxns, id)
      decreases |todo|
    {
      var id :| id in todo;
      todo := todo - {id};
      // an entry that was deleted while iterating is not visited
      if id !in poolTxns {
        AlreadyListed(pool, poolTxns, blockTxns, id);
        continue;
      }
      var txn := poolTxns[id];
      var deps := CalcDeps(poolTxns, txn);
      AppendScheduled(poolTxns, deps, txn);
      var group := deps + [txn];
      GroupScheduled(pool, poolTxns, blockTxns, group);
      if all :| FitsAll(pool, all) {
        GroupFits(pool, blockTxns, group, all);
      }
      // too heavy for what is left of the block
      var groupWeight := BlockWeight(group);
      if groupWeight > capacity {
        SkippedHasNoRoom(pool, poolTxns, blockTxns, deps, id);
        continue;
      }
      // it fits
      WeightOfBoth(blockTxns, group);
      forall x | NoRoom(pool, blockTxns, x)
        ensures NoRoom(pool, blockTxns + group, x)
      {
        StillNoRoom(pool, blockTxns, group, x);
      }
      var left := DeleteGroup(poolTxns, group);
      StillRemaining(pool, poolTxns, left, blockTxns, group);
      blockTxns := blockTxns + group;
      capacity := capacity - groupWeight;
      poolTxns := left;
    }
    NothingFits(pool, blockTxns);
  }

  lemma NothingFits(pool: Pool, txns: seq<Transaction>)
    requires forall id :: id in pool ==> Listed(txns, id) || NoRoom(pool, txns, id)
    ensures forall more :: more != [] && Scheduled(pool, txns + more) ==> BlockWeight(txns + more) > MAX_BLOCK_WEIGHT
  {
    hide TransactionID, BlockWeight, Supplied;
    forall more | more != [] && Scheduled(pool, txns + more)
      ensures BlockWeight(txns + more) > MAX_BLOCK_WEIGHT
    {
      var id, all := TransactionID(more[0]), txns + more;
      assert all[|txns|] == more[0] && id in pool && Listed(more, id);
      forall k | 0 <= k < |txns|
        ensures TransactionID(txns[k]) != id
      {
        assert all[k] == txns[k];
      }
      WeightOfBoth(txns, more);
    }
  }

  /**
    If nothing can be added to a block, then no transaction that it leaves out
    fits together with what it needs: the two would be too heavy.
   */
  lemma {:induction false} LeftOutIsTooHeavy(pool: Pool, txns: seq<Transaction>, id: Hash, group: seq<Transaction>)
    requires Keyed(pool) && Scheduled(pool, txns)
    requires forall more :: more != [] && Scheduled(pool, txns + more) ==> BlockWeight(txns + more) > MAX_BLOCK_WEIGHT
    requires id in pool && !Listed(txns, id) && pool[id] in group
    requires forall x :: Needs(pool, pool[id], x) && !Listed(txns, x) ==> x in pool && pool[x] in group
    ensures BlockWeight(txns) + BlockWeight(group) > MAX_BLOCK_WEIGHT
    decreases Depth(id)
  {
    hide TransactionID, BlockWeight, Depth, Needs, Scheduled;
    var txn := pool[id];
    if m :| 0 <= m < |txn.inputs| && txn.inputs[m].parent.state.id.source in pool &&
            !Listed(txns, txn.inputs[m].parent.state.id.source) {
      ParentsAreShallower(txn, m);
      NeedsThrough(pool, txn, m);
      LeftOutIsTooHeavy(pool, txns, txn.inputs[m].parent.state.id.source, group);
    } else {
      AppendScheduled(pool, txns, txn);
      PartWeighsLess([txn], group);
      WeightOfBoth(txns, [txn]);
    }
  }

  lemma AlreadyListed(pool: Pool, left: Pool, txns: seq<Transaction>, id: Hash)
    requires Remaining(pool, left, txns) && id in pool && id !in left
    ensures Listed(txns, id)
  {
  }

  lemma NothingYet(pool: Pool)
    ensures Remaining(pool, pool, []) && Scheduled(pool, []) && BlockWeight([]) == 0
  {
  }

  lemma StillRemaining(pool: Pool, before: Pool, left: Pool, txns: seq<Transaction>, group: seq<Transaction>)
    requires Remaining(pool, before, txns) && Keyed(before)
    requires left.Keys <= before.Keys && forall id :: id in left ==> left[id] == before[id]
    requires forall id :: id in before ==> (id in left <==> !Listed(group, id))
    requires forall id :: Listed(txns + group, id) <==> Listed(txns, id) || Listed(group, id)
    ensures Remaining(pool, left, txns + group) && Keyed(left)
  {
    hide TransactionID, Listed;
  }

  // ---------------------------------------------------------------- and the validator agrees

  /** Every ephemeral input in the pool spends an output of a pool transaction. */
  ghost predicate Closed(pool: Pool) {
    forall id, m :: id in pool && 0 <= m < |pool[id].inputs| && pool[id].inputs[m].parent.Ephemeral() ==>
      var oe := pool[id].inputs[m].parent;
      oe.state.id.source in pool && oe.state.id.index < |pool[oe.state.id.source].outputs| &&
      pool[oe.state.id.source].outputs[oe.state.id.index] == oe.output
  }

  /** A scheduled block's ephemeral inputs spend outputs of earlier transactions, as validation demands. */
  lemma ScheduleIsAvailable(pool: Pool, txns: seq<Transaction>)
    requires Closed(pool) && Scheduled(pool, txns)
    ensures EphemeralsAvailable(txns)
  {
    hide TransactionID;
    forall i, m | 0 <= i < |txns| && 0 <= m < |txns[i].inputs| && txns[i].inputs[m].parent.Ephemeral()
      ensures EphemeralAvailable(txns[..i], txns[i].inputs[m].parent)
    {
      var oe := txns[i].inputs[m].parent;
      var id := TransactionID(txns[i]);
      assert pool[id] == txns[i] && oe.state.id.source in pool;
      assert Supplied(pool, txns[i], txns[..i]);
      var j: nat :| j < i && TransactionID(txns[..i][j]) == oe.state.id.source;
      assert pool[TransactionID(txns[j])] == txns[j];
      assert SpendsOutput(txns[..i], oe, j, oe.state.id.index);
    }
  }
}
