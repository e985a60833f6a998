/**
 Depth-first topological sorting with permanent and temporary marks, as it is used for
 the blocks of a procedure and for the loans of a reborrowing graph.
 */
module TopologicalSort {
  import opened Wrappers
  import opened Graphs

  /** Every node once, and the source of every edge before its target. */
  ghost predicate IsTopological(g: Graph, order: seq<nat>) {
    && Distinct(order)
    && (forall v: nat :: v in order <==> v < |g|)
    && forall i, j :: 0 <= i < |order| && 0 <= j < |order| && Edge(g, order[i], order[j]) ==> i < j
  }

  /** The targets of the node at `i` come earlier: the order in which nodes are finished. */
  ghost predicate TargetsBefore(g: Graph, sorted: seq<nat>, i: nat)
    requires i < |sorted|
  {
    forall b :: Edge(g, sorted[i], b) ==> b in sorted[..i]
  }

  ghost predicate IsFinished(g: Graph, sorted: seq<nat>) {
    Distinct(sorted) && forall i :: 0 <= i < |sorted| ==> sorted[i] < |g| && TargetsBefore(g, sorted, i)
  }

  lemma FinishNode(g: Graph, sorted: seq<nat>, v: nat)
    requires IsFinished(g, sorted) && v < |g| && v !in sorted
    requires forall b :: Edge(g, v, b) ==> b in sorted
    ensures IsFinished(g, sorted + [v])
  {
    var more := sorted + [v];
    forall i | 0 <= i < |more|
      ensures more[i] < |g| && TargetsBefore(g, more, i)
    {
      if i < |sorted| {
        assert TargetsBefore(g, sorted, i);
        assert more[..i] == sorted[..i];
      } else {
        assert more[..i] == sorted;
      }
    }
  }

  /** The nodes being visited form a path; meeting one of them again closes a cycle. */
  lemma ClosesCycle(g: Graph, stack: seq<nat>, v: nat)
    requires IsPath(g, stack) && v in stack && Edge(g, End(stack), v)
    ensures HasCycle(g)
  {
    var i :| 0 <= i < |stack| && stack[i] == v;
    SlicePath(g, stack, i, |stack|);
    AppendEdge(g, stack[i..], v);
  }

  class DepthFirstSort {
    const graph: Graph
    var sorted: seq<nat>
    var permanentMark: array<bool>
    var temporaryMark: array<bool>

    ghost predicate Valid()
      reads this, permanentMark, temporaryMark
    {
      && permanentMark != temporaryMark
      && permanentMark.Length == temporaryMark.Length == |graph|
      && IsGraph(graph)
      && IsFinished(graph, sorted)
      && forall v: nat :: v < |graph| ==> (permanentMark[v] <==> v in sorted)
    }

    /** `stack` lists the nodes whose visit has begun but not ended. */
    ghost predicate Visiting(stack: seq<nat>)
      reads this, permanentMark, temporaryMark
      requires Valid()
    {
      && (stack != [] ==> IsPath(graph, stack))
      && (forall v :: v in stack ==> v !in sorted)
      && forall v: nat :: v < |graph| ==> (temporaryMark[v] <==> v in sorted || v in stack)
    }

    ghost function Unmarked(): set<nat>
      reads this, temporaryMark
      requires temporaryMark.Length == |graph|
    {
      set v: nat | v in Upto(|graph|) && v < |graph| && !temporaryMark[v]
    }

    constructor (graph: Graph)
      requires IsGraph(graph)
      ensures this.graph == graph && Valid() && Visiting([]) && sorted == []
      ensures fresh(permanentMark) && fresh(temporaryMark)
    {
      this.graph := graph;
      sorted := [];
      permanentMark := new bool[|graph|](_ => false);
      temporaryMark := new bool[|graph|](_ => false);
    }

    /** Visit `current` after everything it leads to. The result is false if there is a cycle. */
    method Visit(current: nat, ghost stack: seq<nat>) returns (ok: bool)
      requires Valid() && Visiting(stack)
      requires current < |graph|
      requires stack != [] ==> Edge(graph, End(stack), current)
      modifies this`sorted, permanentMark, temporaryMark
      ensures ok ==> Valid() && Visiting(stack) && current in sorted && old(sorted) <= sorted
      ensures !ok ==> HasCycle(graph)
      decreases Unmarked()
    {
      if permanentMark[current] {
        return true;
      }
      if temporaryMark[current] {
        ClosesCycle(graph, stack, current);
        return false;
      }
      UptoSize(|graph|);
      assert current in Unmarked();
      temporaryMark[current] := true;
      ghost var path := stack + [current];
      if stack != [] {
        AppendEdge(graph, stack, current);
      }
      for k := 0 to |graph[current]|
        invariant Valid() && Visiting(path) && old(sorted) <= sorted
        invariant Unmarked() < old(Unmarked())
        invariant forall i :: 0 <= i < k ==> graph[current][i] in sorted
      {
        var successor := graph[current][k];
        assert successor in graph[current];
        ok := Visit(successor, path);
        if !ok {
          return false;
        }
      }
      FinishNode(graph, sorted, current);
      permanentMark[current] := true;
      sorted := sorted + [current];
      return true;
    }

    /** The first node that is not yet permanently marked. */
    method Position() returns (index: Option<nat>)
      requires Valid()
      ensures index.Some? ==> index.value < |graph| && index.value !in sorted
      ensures index.Some? ==> forall u: nat :: u < index.value ==> u in sorted
      ensures index.None? ==> forall v: nat :: v < |graph| ==> v in sorted
    {
      for v := 0 to permanentMark.Length
        invariant forall u: nat :: u < v ==> u in sorted
      {
        if !permanentMark[v] {
          return Some(v);
        }
      }
      return None;
    }

    /** Visit every node. */
    method Run() returns (ok: bool)
      requires Valid() && Visiting([])
      modifies this`sorted, permanentMark, temporaryMark
      ensures ok ==> IsFinished(graph, sorted) && forall v: nat :: v < |graph| ==> v in sorted
      ensures !ok ==> HasCycle(graph)
    {
      DistinctBounded(sorted, |graph|);
      while true
        invariant Valid() && Visiting([]) && |sorted| <= |graph|
        decreases |graph| - |sorted|
      {
        var index := Position();
        if index.None? {
          return true;
        }
        ok := Visit(index.value, []);
        if !ok {
          return false;
        }
        DistinctBounded(sorted, |graph|);
      }
    }
  }

  function Reversed<T>(s: seq<T>): (r: seq<T>)
    ensures |r| == |s| && forall i :: 0 <= i < |s| ==> r[i] == s[|s| - 1 - i]
  {
    if s == [] then [] else Reversed(s[1..]) + [s[0]]
  }

  lemma ReversedIsTopological(g: Graph, sorted: seq<nat>)
    requires IsGraph(g) && IsFinished(g, sorted) && forall v: nat :: v < |g| ==> v in sorted
    ensures IsTopological(g, Reversed(sorted))
  {
    var order := Reversed(sorted);
    forall v: nat
      ensures v in order <==> v < |g|
    {
      if v < |g| {
        assert v in sorted;
        var i :| 0 <= i < |sorted| && sorted[i] == v;
        assert order[|sorted| - 1 - i] == v;
      }
    }
    forall i, j | 0 <= i < |order| && 0 <= j < |order| && Edge(g, order[i], order[j])
      ensures i < j
    {
      var k := |sorted| - 1 - i;
      assert TargetsBefore(g, sorted, k);
      assert Edge(g, sorted[k], order[j]);
      var m :| 0 <= m < k && sorted[m] == order[j];
      assert sorted[m] == sorted[|sorted| - 1 - j];
    }
  }

  lemma {:induction false} OrderAlongPath(g: Graph, order: seq<nat>, path: seq<nat>, i: nat, j: nat)
    requires IsTopological(g, order) && IsPath(g, path)
    requires i < |order| && j < |order| && order[i] == path[0] && order[j] == End(path)
    ensures i <= j && (|path| > 1 ==> i < j)
    decreases |path|
  {
    if |path| > 1 {
      var prior := path[..|path| - 1];
      SlicePath(g, path, 0, |path| - 1);
      assert End(prior) in order;
      var k :| 0 <= k < |order| && order[k] == End(prior);
      OrderAlongPath(g, order, prior, i, k);
      assert Edge(g, path[|path| - 2], path[|path| - 1]);
    }
  }

  /** A graph with a topological order has no cycle. */
  lemma TopologicalAcyclic(g: Graph, order: seq<nat>)
    requires IsTopological(g, order)
    ensures !HasCycle(g)
  {
    if HasCycle(g) {
      var path :| IsPath(g, path) && |path| > 1 && path[0] == End(path);
      assert path[0] in order;
      var i :| 0 <= i < |order| && order[i] == path[0];
      OrderAlongPath(g, order, path, i, i);
      assert false;
    }
  }

  /** The nodes in topological order; there is none exactly if the sort runs into a cycle. */
  method TopologicalOrder(graph: Graph) returns (r: Option<seq<nat>>)
    requires IsGraph(graph)
    ensures r.Some? ==> IsTopological(graph, r.value)
    ensures r.None? <==> HasCycle(graph)
  {
    var sort := new DepthFirstSort(graph);
    var ok := sort.Run();
    if !ok {
      return None;
    }
    ReversedIsTopological(graph, sort.sorted);
    r := Some(Reversed(sort.sorted));
    TopologicalAcyclic(graph, r.value);
  }
}
