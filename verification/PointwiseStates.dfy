/** The abstract states recorded before each location and on each edge. */
module PointwiseStates {
  import opened Wrappers
  import opened AbstractStates

  class PointwiseState<S(==)> {
    var stateBefore: map<Location, S>
    var stateAfterBlock: EdgeMap<S>

    constructor ()
      ensures stateBefore == map[] && stateAfterBlock == map[]
    {
      stateBefore, stateAfterBlock := map[], map[];
    }

    function LookupAfterBlock(block: nat): Option<map<nat, S>>
      reads this
    {
      if block in stateAfterBlock then Some(stateAfterBlock[block]) else None
    }

    method SetBefore(location: Location, state: S)
      modifies this`stateBefore
      ensures stateBefore == old(stateBefore)[location := state]
    {
      stateBefore := stateBefore[location := state];
    }

    /** Make sure that the block has a map of edge states. */
    method LookupMutAfterBlock(block: nat)
      modifies this`stateAfterBlock
      ensures stateAfterBlock == old(stateAfterBlock)[block := EdgesOf(old(stateAfterBlock), block)]
    {
      if block !in stateAfterBlock {
        stateAfterBlock := stateAfterBlock[block := map[]];
      }
    }

    /** Store the state of one edge and return the state that it replaces. */
    method InsertAfterBlock(block: nat, next: nat, state: S) returns (previous: Option<S>)
      requires block in stateAfterBlock
      modifies this`stateAfterBlock
      ensures stateAfterBlock == old(stateAfterBlock)[block := WithEdge(old(stateAfterBlock)[block], next, state)]
      ensures previous == if next in old(stateAfterBlock)[block] then Some(old(stateAfterBlock)[block][next]) else None
    {
      var edges := stateAfterBlock[block];
      previous := if next in edges then Some(edges[next]) else None;
      stateAfterBlock := stateAfterBlock[block := WithEdge(edges, next, state)];
    }
  }

  function WithEdge<S>(edges: map<nat, S>, next: nat, state: S): map<nat, S> {
    edges[next := state]
  }

  function EdgesOf<S>(after: EdgeMap<S>, block: nat): map<nat, S> {
    if block in after then after[block] else map[]
  }
}
