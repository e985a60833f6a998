/**
 When the blocks of a procedure can be ordered with only the back edges left out: exactly if every
 cycle of real edges is entered through one of its own blocks.
 */
module Reducibility {
  import opened Graphs
  import opened NaturalLoops

  ghost predicate IsCycle(g: Graph, path: seq<nat>) {
    IsPath(g, path) && |path| > 1 && path[0] == End(path)
  }

  ghost predicate DominatesAll(p: Procedure, v: nat, path: seq<nat>) {
    forall i :: 0 <= i < |path| ==> Dominates(p, v, path[i])
  }

  /** A cycle of real edges without a block that dominates all its blocks. */
  ghost predicate IrreducibleCycle(p: Procedure, path: seq<nat>) {
    IsCycle(p.realEdges, path) && forall i :: 0 <= i < |path| ==> !DominatesAll(p, path[i], path)
  }

  ghost predicate Irreducible(p: Procedure) {
    exists path :: IrreducibleCycle(p, path)
  }

  lemma ForwardCycleIsReal(p: Procedure, g: Graph, path: seq<nat>)
    requires WellFormed(p) && IsForwardGraph(p, g) && IsCycle(g, path)
    ensures IsCycle(p.realEdges, path)
    ensures forall i :: 0 < i < |path| ==> !Dominates(p, path[i], path[i - 1])
  {
    forall i | 0 < i < |path|
      ensures Edge(p.realEdges, path[i - 1], path[i]) && !Dominates(p, path[i], path[i - 1])
    {
      assert Edge(g, path[i - 1], path[i]);
      assert ForwardEdge(p, path[i - 1], path[i]);
    }
  }

  /** If some block dominated a forward cycle, the edge of the cycle into it would be a back edge. */
  lemma ForwardCycleIrreducible(p: Procedure, g: Graph, path: seq<nat>)
    requires WellFormed(p) && IsForwardGraph(p, g) && IsCycle(g, path)
    ensures IrreducibleCycle(p, path)
  {
    ForwardCycleIsReal(p, g, path);
    forall i | 0 <= i < |path|
      ensures !DominatesAll(p, path[i], path)
    {
      var before := if i > 0 then i - 1 else |path| - 2;
      assert !Dominates(p, path[before + 1], path[before]);
    }
  }

  // ----- a cycle that no forward edge of its blocks enters at some block is dominated by it -----

  /** No block of the cycle leads to `v` along a forward edge. */
  ghost predicate OnlyBackEdgesInto(p: Procedure, v: nat, path: seq<nat>) {
    forall i :: 0 <= i < |path| ==> !ForwardEdge(p, path[i], v)
  }

  lemma DominatedBefore(p: Procedure, v: nat, a: nat, b: nat)
    requires WellFormed(p) && Edge(p.realEdges, a, b) && !ForwardEdge(p, a, v) && Dominates(p, v, b)
    ensures Dominates(p, v, a)
  {
    if b != v {
      forall path | PathFromTo(p.edges, path, START, a)
        ensures v in path
      {
        AppendEdge(p.edges, path, b);
        assert v in path + [b];
      }
    }
  }

  lemma {:induction false} DominatedDownTo(p: Procedure, v: nat, path: seq<nat>, top: nat, j: nat)
    requires WellFormed(p) && IsPath(p.realEdges, path) && OnlyBackEdgesInto(p, v, path)
    requires j <= top < |path| && Dominates(p, v, path[top])
    ensures Dominates(p, v, path[j])
    decreases top
  {
    if j < top {
      DominatedBefore(p, v, path[top - 1], path[top]);
      DominatedDownTo(p, v, path, top - 1, j);
    }
  }

  lemma EntryDominates(p: Procedure, path: seq<nat>, k: nat)
    requires WellFormed(p) && IsCycle(p.realEdges, path) && k < |path| && OnlyBackEdgesInto(p, path[k], path)
    ensures DominatesAll(p, path[k], path)
  {
    var v, last := path[k], |path| - 1;
    assert Dominates(p, v, v);
    DominatedDownTo(p, v, path, k, 0);
    forall i | 0 <= i < |path|
      ensures Dominates(p, v, path[i])
    {
      DominatedDownTo(p, v, path, last, i);
    }
  }

  // ----- without forward cycles there is such a block -----

  /** In a graph without cycles a path gets longer at its front without repeating a node. */
  lemma PrependAcyclic(g: Graph, a: nat, chain: seq<nat>)
    requires IsGraph(g) && !HasCycle(g) && IsPath(g, chain) && Distinct(chain) && Edge(g, a, chain[0])
    ensures IsPath(g, [a] + chain) && Distinct([a] + chain) && |chain| < |g|
  {
    AppendEdge(g, [a], chain[0]);
    JoinPaths(g, [a, chain[0]], chain);
    var longer := [a] + chain;
    assert [a, chain[0]] + chain[1..] == longer;
    forall i | 0 <= i < |chain|
      ensures chain[i] != a
    {
      SlicePath(g, longer, 0, i + 2);
      assert longer[..i + 2][0] == a && End(longer[..i + 2]) == chain[i];
    }
    DistinctBounded(longer, |g|);
  }

  /** Walk backwards along forward edges within the cycle; without a forward cycle, the walk never meets itself. */
  lemma {:induction false} FirstOfCycle(p: Procedure, g: Graph, path: seq<nat>, chain: seq<nat>) returns (k: nat)
    requires IsForwardGraph(p, g) && !HasCycle(g) && path != []
    requires IsPath(g, chain) && Distinct(chain) && chain[0] in path
    ensures k < |path| && OnlyBackEdgesInto(p, path[k], path)
    decreases |g| - |chain|
  {
    if i :| 0 <= i < |path| && ForwardEdge(p, path[i], chain[0]) {
      PrependAcyclic(g, path[i], chain);
      k := FirstOfCycle(p, g, path, [path[i]] + chain);
    } else {
      k :| 0 <= k < |path| && path[k] == chain[0];
    }
  }

  /** The forward edges have a cycle exactly if the procedure is irreducible. */
  lemma ForwardCycleIffIrreducible(p: Procedure)
    requires WellFormed(p)
    ensures HasCycle(ForwardGraph(p)) <==> Irreducible(p)
  {
    if HasCycle(ForwardGraph(p)) {
      var path :| IsPath(ForwardGraph(p), path) && |path| > 1 && path[0] == End(path);
      ForwardCycleIrreducible(p, ForwardGraph(p), path);
    } else {
      forall path | IsCycle(p.realEdges, path)
        ensures !IrreducibleCycle(p, path)
      {
        var k := FirstOfCycle(p, ForwardGraph(p), path, [path[0]]);
        EntryDominates(p, path, k);
      }
    }
  }

  /** The smallest irreducible procedure: a branch into both blocks of a cycle. */
  function BranchIntoCycle(): Procedure {
    Procedure([[1, 2], [2], [1]], [[1, 2], [2], [1]])
  }

  lemma BranchPaths()
    ensures WellFormed(BranchIntoCycle())
    ensures !Dominates(BranchIntoCycle(), 1, 2) && !Dominates(BranchIntoCycle(), 2, 1)
  {
    var g := BranchIntoCycle().edges;
    assert PathFromTo(g, [0], 0, 0);
    assert PathFromTo(g, [0, 1], 0, 1);
    assert PathFromTo(g, [0, 2], 0, 2);
  }

  lemma CycleOfTwo(p: Procedure, a: nat, b: nat)
    requires a < |p.realEdges| && b < |p.realEdges| && Edge(p.realEdges, a, b) && Edge(p.realEdges, b, a)
    requires !Dominates(p, a, b) && !Dominates(p, b, a)
    ensures Irreducible(p)
  {
    var cycle := [a, b, a];
    assert IsCycle(p.realEdges, cycle);
    forall i | 0 <= i < |cycle|
      ensures !DominatesAll(p, cycle[i], cycle)
    {
      assert !Dominates(p, cycle[i], cycle[if i == 1 then 0 else 1]);
    }
    assert IrreducibleCycle(p, cycle);
  }

  lemma BranchIntoCycleIrreducible()
    ensures WellFormed(BranchIntoCycle()) && Irreducible(BranchIntoCycle())
  {
    BranchPaths();
    CycleOfTwo(BranchIntoCycle(), 1, 2);
  }
}
