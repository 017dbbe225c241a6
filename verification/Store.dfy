/**
  The in-memory store of internal/chainutil/store.go.
 */
module Store {
  import opened Types
  import opened ChainTree

  /** Lookups fail only with ErrUnknownIndex. */
  datatype Lookup<T> = Found(value: T) | UnknownIndex

  class EphemeralStore {
    var entries: map<ChainIndex, Checkpoint>
    var best: seq<ChainIndex>

    constructor (c: Checkpoint)
      ensures entries == map[c.state.index := c] && best == [c.state.index]
    {
      entries := map[c.state.index := c];
      best := [c.state.index];
    }

    method AddCheckpoint(c: Checkpoint)
      modifies this`entries
      ensures entries == old(entries)[c.state.index := c]
    {
      entries := entries[c.state.index := c];
    }

    function GetCheckpoint(index: ChainIndex): (r: Lookup<Checkpoint>)
      reads this`entries
      ensures r.Found? <==> index in entries
    {
      if index in entries then Found(entries[index]) else UnknownIndex
    }

    function GetHeader(index: ChainIndex): (r: Lookup<BlockHeader>)
      reads this`entries
      ensures r.Found? <==> index in entries
    {
      if index in entries then Found(entries[index].block.header) else UnknownIndex
    }

    method ExtendBest(index: ChainIndex)
      requires index in entries
      modifies this`best
      ensures best == old(best) + [index]
    {
      best := best + [index];
    }

    method RewindBest()
      requires best != []
      modifies this`best
      ensures best == old(best)[..|old(best)| - 1]
    {
      best := best[..|best| - 1];
    }

    function BestIndex(height: nat): Lookup<ChainIndex>
      requires best != [] && best[|best| - 1].height == best[0].height + |best| - 1
      reads this`best
    {
      if !(best[0].height <= height <= best[|best| - 1].height) then UnknownIndex
      else Found(best[height - best[0].height])
    }
  }
}
