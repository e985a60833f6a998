/**
 The reborrowing graph that the encoder works with: how it is built and checked, and the
 guard under which a borrow expires.
 */
module BorrowGuards {
  import opened Wrappers
  import opened Graphs
  import opened Reborrows
  import D = ReborrowingDag

  /** The part of the expression language in which guards are written. */
  datatype Expr = Literal(value: bool) | Executed(block: nat) | And(left: Expr, right: Expr)

  predicate Holds(e: Expr, executed: set<nat>) {
    match e
    case Literal(b) => b
    case Executed(block) => block in executed
    case And(left, right) => Holds(left, executed) && Holds(right, executed)
  }

  datatype Node = Node(guard: Expr, borrow: nat, reborrowing: seq<nat>, reborrowed: seq<nat>)

  datatype Dag = Dag(nodes: seq<Node>, borrowIndices: map<nat, nat>)

  /** Every borrow has one node, and the index finds it. */
  ghost predicate Indexed(dag: Dag) {
    && (forall b :: b in dag.borrowIndices ==>
          dag.borrowIndices[b] < |dag.nodes| && dag.nodes[dag.borrowIndices[b]].borrow == b)
    && forall i :: 0 <= i < |dag.nodes| ==>
         dag.nodes[i].borrow in dag.borrowIndices && dag.borrowIndices[dag.nodes[i].borrow] == i
  }

  function BorrowsOf(nodes: seq<Node>): (s: seq<nat>)
    ensures |s| == |nodes| && forall i :: 0 <= i < |nodes| ==> s[i] == nodes[i].borrow
  {
    seq(|nodes|, i requires 0 <= i < |nodes| => nodes[i].borrow)
  }

  ghost predicate LinksResolve(nodes: seq<Node>, i: nat)
    requires i < |nodes|
  {
    && (forall b :: b in nodes[i].reborrowing ==> b in BorrowsOf(nodes))
    && (forall b :: b in nodes[i].reborrowed ==> b in BorrowsOf(nodes))
  }

  /** Links lead to nodes, nothing links to the first node and the last links to nothing. */
  ghost predicate Integrity(nodes: seq<Node>) {
    && (nodes != [] ==> nodes[0].reborrowing == [] && nodes[|nodes| - 1].reborrowed == [])
    && forall i :: 0 <= i < |nodes| ==> LinksResolve(nodes, i)
  }

  /** What the checks accept, node by node. */
  lemma IntegrityExactly(nodes: seq<Node>)
    ensures Distinct(BorrowsOf(nodes)) && Integrity(nodes) <==>
            && (forall i, j :: 0 <= i < j < |nodes| ==> nodes[i].borrow != nodes[j].borrow)
            && (forall i, b :: 0 <= i < |nodes| && (b in nodes[i].reborrowing || b in nodes[i].reborrowed) ==>
                  exists j :: 0 <= j < |nodes| && nodes[j].borrow == b)
            && (nodes == [] || (nodes[0].reborrowing == [] && nodes[|nodes| - 1].reborrowed == []))
  {
    var borrows := BorrowsOf(nodes);
    forall b: nat
      ensures b in borrows <==> exists j :: 0 <= j < |nodes| && nodes[j].borrow == b
    {
      if b in borrows {
        var j :| 0 <= j < |borrows| && borrows[j] == b;
        assert nodes[j].borrow == b;
      }
      if j: nat :| j < |nodes| && nodes[j].borrow == b {
        assert borrows[j] == b;
      }
    }
    forall i | 0 <= i < |nodes|
      ensures LinksResolve(nodes, i) <==>
        forall b :: b in nodes[i].reborrowing || b in nodes[i].reborrowed ==>
          exists j :: 0 <= j < |nodes| && nodes[j].borrow == b
    {
    }
    if forall i, j :: 0 <= i < j < |nodes| ==> nodes[i].borrow != nodes[j].borrow {
      assert Distinct(borrows);
    } else {
      var i, j :| 0 <= i < j < |nodes| && nodes[i].borrow == nodes[j].borrow;
      assert borrows[i] == borrows[j];
    }
  }

  lemma IndexedBorrows(dag: Dag)
    requires Indexed(dag)
    ensures Distinct(BorrowsOf(dag.nodes))
    ensures forall b :: b in BorrowsOf(dag.nodes) <==> b in dag.borrowIndices
    ensures |dag.borrowIndices| == |dag.nodes|
  {
    var borrows := BorrowsOf(dag.nodes);
    forall i, j | 0 <= i < j < |borrows|
      ensures borrows[i] != borrows[j]
    {
      assert dag.borrowIndices[dag.nodes[i].borrow] == i;
    }
    forall b
      ensures b in borrows <==> b in dag.borrowIndices
    {
      if b in dag.borrowIndices {
        assert borrows[dag.borrowIndices[b]] == b;
      }
    }
    DistinctSize(borrows);
    assert Elements(borrows) == dag.borrowIndices.Keys;
  }

  class DagBuilder {
    var dag: Dag

    constructor ()
      ensures dag == Dag([], map[]) && Indexed(dag)
    {
      dag := Dag([], map[]);
    }

    /** Add a node for a new borrow. The result is false if there is a node for it already. */
    method AddNode(node: Node) returns (ok: bool)
      requires Indexed(dag)
      modifies this
      ensures Indexed(dag)
      ensures ok <==> node.borrow !in old(BorrowsOf(dag.nodes))
      ensures dag.nodes == if ok then old(dag.nodes) + [node] else old(dag.nodes)
    {
      IndexedBorrows(dag);
      ok := node.borrow !in dag.borrowIndices;
      if ok {
        dag := Dag(dag.nodes + [node], dag.borrowIndices[node.borrow := |dag.nodes|]);
      }
    }

    /** Check the whole graph. The result is false if one of the checks fails. */
    method CheckIntegrity() returns (ok: bool)
      requires Indexed(dag)
      ensures ok <==> Integrity(dag.nodes)
    {
      IndexedBorrows(dag);
      var nodes := dag.nodes;
      if nodes != [] {
        if nodes[0].reborrowing != [] || nodes[|nodes| - 1].reborrowed != [] {
          return false;
        }
      }
      if |nodes| != |dag.borrowIndices| {
        return false;
      }
      for i := 0 to |nodes|
        invariant forall k :: 0 <= k < i ==> LinksResolve(nodes, k)
      {
        if dag.borrowIndices[nodes[i].borrow] != i {
          return false;
        }
        for j := 0 to |nodes[i].reborrowing|
          invariant forall k :: 0 <= k < j ==> nodes[i].reborrowing[k] in dag.borrowIndices
        {
          if nodes[i].reborrowing[j] !in dag.borrowIndices {
            assert nodes[i].reborrowing[j] in nodes[i].reborrowing;
            assert !LinksResolve(nodes, i);
            return false;
          }
        }
        for j := 0 to |nodes[i].reborrowed|
          invariant forall k :: 0 <= k < j ==> nodes[i].reborrowed[k] in dag.borrowIndices
        {
          if nodes[i].reborrowed[j] !in dag.borrowIndices {
            assert nodes[i].reborrowed[j] in nodes[i].reborrowed;
            assert !LinksResolve(nodes, i);
            return false;
          }
        }
      }
      return true;
    }
  }

  /** Add the nodes one by one and check the result. There is none if an assertion of the builder fails. */
  method Build(nodes: seq<Node>) returns (r: Option<Dag>)
    ensures r.Some? <==> Distinct(BorrowsOf(nodes)) && Integrity(nodes)
    ensures r.Some? ==> r.value.nodes == nodes && Indexed(r.value)
  {
    var builder := new DagBuilder();
    for i := 0 to |nodes|
      invariant Indexed(builder.dag) && builder.dag.nodes == nodes[..i]
    {
      var ok := builder.AddNode(nodes[i]);
      if !ok {
        assert nodes[i].borrow in BorrowsOf(nodes[..i]);
        var k :| 0 <= k < i && BorrowsOf(nodes[..i])[k] == nodes[i].borrow;
        assert BorrowsOf(nodes)[k] == BorrowsOf(nodes)[i];
        return None;
      }
      assert nodes[..i + 1] == nodes[..i] + [nodes[i]];
    }
    assert nodes[..|nodes|] == nodes;
    IndexedBorrows(builder.dag);
    var ok := builder.CheckIntegrity();
    return if ok then Some(builder.dag) else None;
  }

  // ----- guards -----

  ghost predicate Resolved(dag: Dag) {
    forall i, b :: 0 <= i < |dag.nodes| && b in dag.nodes[i].reborrowing ==> b in dag.borrowIndices
  }

  ghost function Indices(dag: Dag, borrows: seq<nat>): (r: seq<nat>)
    requires Indexed(dag) && forall b :: b in borrows ==> b in dag.borrowIndices
    ensures |r| == |borrows| && forall k :: 0 <= k < |r| ==> r[k] == dag.borrowIndices[borrows[k]]
  {
    seq(|borrows|, k requires 0 <= k < |borrows| => dag.borrowIndices[borrows[k]])
  }

  /** From every node to the nodes of the borrows that reborrow it. */
  ghost function ReborrowingGraph(dag: Dag): (g: Graph)
    requires Indexed(dag) && Resolved(dag)
    ensures |g| == |dag.nodes| && IsGraph(g)
    ensures forall i: nat, j: nat :: Edge(g, i, j) <==>
      i < |dag.nodes| && j < |dag.nodes| && dag.nodes[j].borrow in dag.nodes[i].reborrowing
  {
    var g := seq(|dag.nodes|, i requires 0 <= i < |dag.nodes| => Indices(dag, dag.nodes[i].reborrowing));
    assert forall i: nat, j: nat :: Edge(g, i, j) <==>
        i < |dag.nodes| && j < |dag.nodes| && dag.nodes[j].borrow in dag.nodes[i].reborrowing by {
      forall i: nat, j: nat
        ensures Edge(g, i, j) <==>
          i < |dag.nodes| && j < |dag.nodes| && dag.nodes[j].borrow in dag.nodes[i].reborrowing
      {
        IndicesContain(dag, i, j);
      }
    }
    g
  }

  lemma IndicesContain(dag: Dag, i: nat, j: nat)
    requires Indexed(dag) && Resolved(dag)
    ensures i < |dag.nodes| ==>
      (j in Indices(dag, dag.nodes[i].reborrowing) <==>
       j < |dag.nodes| && dag.nodes[j].borrow in dag.nodes[i].reborrowing)
  {
    if i < |dag.nodes| {
      var borrows := dag.nodes[i].reborrowing;
      if j in Indices(dag, borrows) {
        var k :| 0 <= k < |borrows| && Indices(dag, borrows)[k] == j;
        assert borrows[k] in borrows;
      }
      if j < |dag.nodes| && dag.nodes[j].borrow in borrows {
        var k :| 0 <= k < |borrows| && borrows[k] == dag.nodes[j].borrow;
        assert Indices(dag, borrows)[k] == j;
      }
    }
  }

  lemma ReachedByEdge(g: Graph, a: nat, b: nat, c: nat)
    requires Reaches(g, a, b) && Edge(g, b, c) && c < |g|
    ensures Reaches(g, a, c)
  {
    var path :| PathFromTo(g, path, a, b);
    AppendEdge(g, path, c);
  }

  lemma {:induction false} ClosedHoldsReached(g: Graph, indices: seq<nat>, path: seq<nat>)
    requires IsPath(g, path) && path[0] in indices
    requires forall i, j :: i in indices && Edge(g, i, j) ==> j in indices
    ensures End(path) in indices
    decreases |path|
  {
    if |path| > 1 {
      var k := |path| - 1;
      SlicePath(g, path, 0, k);
      ClosedHoldsReached(g, indices, path[..k]);
      assert Edge(g, path[k - 1], path[k]);
    }
  }

  /** The targets of the first `done` indices are listed too. */
  ghost predicate ListedUpTo(g: Graph, indices: seq<nat>, done: nat)
    requires done <= |indices|
  {
    forall k, j :: 0 <= k < done && Edge(g, indices[k], j) ==> j in indices
  }

  /** The nodes found by the search: distinct, within the graph, and reached from the first. */
  ghost predicate Found(g: Graph, index: nat, indices: seq<nat>) {
    && Distinct(indices) && indices != [] && indices[0] == index
    && forall i :: i in indices ==> i < |g| && Reaches(g, index, i)
  }

  /** Newly listed nodes that reborrow a listed one. */
  lemma FoundMore(dag: Dag, index: nat, indices: seq<nat>, i: nat, more: seq<nat>)
    requires Indexed(dag) && Resolved(dag) && Found(ReborrowingGraph(dag), index, indices) && i in indices
    requires indices <= more && Distinct(more)
    requires forall j :: j in more && j !in indices ==>
               j < |dag.nodes| && dag.nodes[j].borrow in dag.nodes[i].reborrowing
    ensures Found(ReborrowingGraph(dag), index, more)
  {
    var g := ReborrowingGraph(dag);
    forall j | j in more
      ensures j < |g| && Reaches(g, index, j)
    {
      if j !in indices {
        assert Edge(g, i, j);
        ReachedByEdge(g, index, i, j);
      }
    }
  }

  lemma FoundBounded(g: Graph, index: nat, indices: seq<nat>)
    requires Found(g, index, indices)
    ensures |indices| <= |g|
  {
    forall i | 0 <= i < |indices|
      ensures indices[i] < |g|
    {
      assert indices[i] in indices;
    }
    DistinctBounded(indices, |g|);
  }

  lemma TargetsListed(dag: Dag, i: nat, indices: seq<nat>)
    requires Indexed(dag) && Resolved(dag) && i < |dag.nodes|
    requires forall b :: b in dag.nodes[i].reborrowing ==> dag.borrowIndices[b] in indices
    ensures forall j: nat :: Edge(ReborrowingGraph(dag), i, j) ==> j in indices
  {
  }

  lemma AllReached(g: Graph, index: nat, indices: seq<nat>)
    requires Found(g, index, indices) && ListedUpTo(g, indices, |indices|)
    ensures forall i: nat :: i in indices <==> Reaches(g, index, i)
  {
    forall i: nat | Reaches(g, index, i)
      ensures i in indices
    {
      var path :| PathFromTo(g, path, index, i);
      ClosedHoldsReached(g, indices, path);
    }
  }

  /** What is found stays listed, and the next node has its targets listed as well. */
  lemma SearchStep(dag: Dag, index: nat, before: seq<nat>, after: seq<nat>, done: nat)
    requires Indexed(dag) && Resolved(dag) && Found(ReborrowingGraph(dag), index, before)
    requires done < |before| && ListedUpTo(ReborrowingGraph(dag), before, done)
    requires before <= after && Distinct(after) && before[done] in before
    requires forall b :: b in dag.nodes[before[done]].reborrowing ==> dag.borrowIndices[b] in after
    requires forall j :: j in after && j !in before ==>
               j < |dag.nodes| && dag.nodes[j].borrow in dag.nodes[before[done]].reborrowing
    ensures Found(ReborrowingGraph(dag), index, after)
    ensures ListedUpTo(ReborrowingGraph(dag), after, done + 1)
    ensures |after| <= |dag.nodes|
  {
    var g := ReborrowingGraph(dag);
    FoundMore(dag, index, before, before[done], after);
    FoundBounded(g, index, after);
    TargetsListed(dag, before[done], after);
    forall k, j | 0 <= k < done + 1 && Edge(g, after[k], j)
      ensures j in after
    {
      assert after[k] == before[k];
      assert k < done ==> j in before;
    }
  }

  ghost predicate Marks(visited: seq<bool>, indices: seq<nat>) {
    forall i: nat :: i < |visited| ==> (visited[i] <==> i in indices)
  }

  /** List and enqueue the nodes of those borrows that have not been visited. */
  method VisitBorrows(dag: Dag, borrows: seq<nat>, visited: array<bool>, toVisit: seq<nat>, guardIndices: seq<nat>)
    returns (queue: seq<nat>, indices: seq<nat>)
    requires Indexed(dag) && forall b :: b in borrows ==> b in dag.borrowIndices
    requires visited.Length == |dag.nodes| && Marks(visited[..], guardIndices) && Distinct(guardIndices)
    modifies visited
    ensures guardIndices <= indices && queue == toVisit + indices[|guardIndices|..]
    ensures Marks(visited[..], indices) && Distinct(indices)
    ensures forall b :: b in borrows ==> dag.borrowIndices[b] in indices
    ensures forall i :: i in indices && i !in guardIndices ==> i < |dag.nodes| && dag.nodes[i].borrow in borrows
  {
    queue, indices := toVisit, guardIndices;
    for k := 0 to |borrows|
      invariant guardIndices <= indices && queue == toVisit + indices[|guardIndices|..]
      invariant Marks(visited[..], indices) && Distinct(indices)
      invariant forall m :: 0 <= m < k ==> dag.borrowIndices[borrows[m]] in indices
      invariant forall i :: i in indices && i !in guardIndices ==> i < |dag.nodes| && dag.nodes[i].borrow in borrows
    {
      assert borrows[k] in borrows;
      var borrowIndex := dag.borrowIndices[borrows[k]];
      if !visited[borrowIndex] {
        queue := queue + [borrowIndex];
        visited[borrowIndex] := true;
        indices := indices + [borrowIndex];
      }
    }
  }

  /** Breadth-first search from the expiring borrow to everything that reborrows it. */
  method GuardIndices(dag: Dag, expiring: nat) returns (guardIndices: seq<nat>)
    requires Indexed(dag) && Resolved(dag) && expiring in dag.borrowIndices
    ensures Distinct(guardIndices)
    ensures forall i: nat :: i in guardIndices <==>
              Reaches(ReborrowingGraph(dag), dag.borrowIndices[expiring], i)
  {
    var index := dag.borrowIndices[expiring];
    ghost var g := ReborrowingGraph(dag);
    guardIndices := [index];
    var toVisit := [index];
    var visited := new bool[|dag.nodes|](_ => false);
    visited[index] := true;
    assert PathFromTo(g, [index], index, index);
    ghost var done := 0;
    while toVisit != []
      invariant done <= |guardIndices| <= |g| && toVisit == guardIndices[done..]
      invariant Found(g, index, guardIndices)
      invariant Marks(visited[..], guardIndices)
      invariant ListedUpTo(g, guardIndices, done)
      decreases |g| - done
    {
      var currIndex := toVisit[0];
      assert guardIndices[done] in guardIndices;
      ghost var before := guardIndices;
      toVisit, guardIndices := VisitBorrows(dag, dag.nodes[currIndex].reborrowing, visited, toVisit[1..], guardIndices);
      SearchStep(dag, index, before, guardIndices, done);
      done := done + 1;
    }
    AllReached(g, index, guardIndices);
  }

  function Conjoin(conjuncts: seq<Expr>): Expr {
    if conjuncts == [] then Literal(true) else And(conjuncts[0], Conjoin(conjuncts[1..]))
  }

  lemma {:induction false} ConjoinHolds(conjuncts: seq<Expr>, executed: set<nat>)
    ensures Holds(Conjoin(conjuncts), executed) <==> forall e :: e in conjuncts ==> Holds(e, executed)
  {
    if conjuncts != [] {
      ConjoinHolds(conjuncts[1..], executed);
      if Holds(Conjoin(conjuncts), executed) {
        forall e | e in conjuncts
          ensures Holds(e, executed)
        {
          assert e == conjuncts[0] || e in conjuncts[1..];
        }
      }
      if forall e :: e in conjuncts ==> Holds(e, executed) {
        assert conjuncts[0] in conjuncts;
        assert forall e :: e in conjuncts[1..] ==> e in conjuncts;
        assert Holds(Conjoin(conjuncts[1..]), executed);
        assert Conjoin(conjuncts) == And(conjuncts[0], Conjoin(conjuncts[1..]));
      }
    }
  }

  /** The guard holds if the guards of all that directly or indirectly reborrow `expiring` hold, and its own. */
  ghost predicate GuardsAll(dag: Dag, index: nat, executed: set<nat>)
    requires Indexed(dag) && Resolved(dag)
  {
    forall i :: 0 <= i < |dag.nodes| && Reaches(ReborrowingGraph(dag), index, i) ==> Holds(dag.nodes[i].guard, executed)
  }

  method GetGuard(dag: Dag, expiring: nat) returns (guard: Expr)
    requires Indexed(dag) && Resolved(dag) && expiring in dag.borrowIndices
    ensures forall executed :: Holds(guard, executed) <==> GuardsAll(dag, dag.borrowIndices[expiring], executed)
  {
    var guardIndices := GuardIndices(dag, expiring);
    ghost var g := ReborrowingGraph(dag);
    forall i | 0 <= i < |guardIndices|
      ensures guardIndices[i] < |dag.nodes|
    {
      assert guardIndices[i] in guardIndices;
      var path :| PathFromTo(g, path, dag.borrowIndices[expiring], guardIndices[i]);
    }
    var guards := seq(|guardIndices|, i requires 0 <= i < |guardIndices| => dag.nodes[guardIndices[i]].guard);
    guard := Conjoin(guards);
    forall executed
      ensures Holds(guard, executed) <==> GuardsAll(dag, dag.borrowIndices[expiring], executed)
    {
      ConjoinHolds(guards, executed);
      if Holds(guard, executed) {
        forall i: nat | i < |dag.nodes| && Reaches(g, dag.borrowIndices[expiring], i)
          ensures Holds(dag.nodes[i].guard, executed)
        {
          var k :| 0 <= k < |guardIndices| && guardIndices[k] == i;
          assert guards[k] in guards;
        }
      }
    }
  }

  // ----- graphs made from derived reborrows -----

  /** The encoder's nodes for the nodes of a reborrowing graph. */
  ghost predicate Encodes(nodes: seq<Node>, dagNodes: seq<D.DagNode>) {
    && |nodes| == |dagNodes|
    && forall i :: 0 <= i < |nodes| ==>
         && nodes[i].borrow == dagNodes[i].loan
         && nodes[i].reborrowing == dagNodes[i].reborrowing
         && nodes[i].reborrowed == dagNodes[i].reborrowed
  }

  lemma EncodesBorrows(nodes: seq<Node>, dagNodes: seq<D.DagNode>)
    requires Encodes(nodes, dagNodes)
    ensures BorrowsOf(nodes) == D.LoansOf(dagNodes)
  {
  }

  /** What was sorted topologically passes the integrity checks. */
  lemma DagHasIntegrity(nodes: seq<Node>, dagNodes: seq<D.DagNode>, loans: seq<nat>, direct: Relation)
    requires Encodes(nodes, dagNodes) && D.IsDagOf(dagNodes, loans, direct, direct)
    ensures Integrity(nodes)
  {
    EncodesBorrows(nodes, dagNodes);
    if nodes != [] {
      D.DagEnds(dagNodes, loans, direct);
    }
    forall i | 0 <= i < |nodes|
      ensures LinksResolve(nodes, i)
    {
      assert D.Linked(dagNodes, direct, i);
    }
  }

  lemma PermutationDistinct(s: seq<nat>, t: seq<nat>)
    requires multiset(s) == multiset(t) && Distinct(s)
    ensures Distinct(t)
  {
    DistinctSize(s);
    forall v
      ensures v in Elements(s) <==> v in Elements(t)
    {
      assert v in multiset(s) <==> v in multiset(t);
    }
    assert Elements(s) == Elements(t);
    assert |s| == |multiset(s)| == |t|;
    SizeDistinct(t);
  }

  lemma {:induction false} SizeDistinct(t: seq<nat>)
    ensures |Elements(t)| <= |t|
    ensures |Elements(t)| == |t| ==> Distinct(t)
  {
    if t != [] {
      var k := |t| - 1;
      SizeDistinct(t[..k]);
      forall v
        ensures v in Elements(t) <==> v in Elements(t[..k]) || v == t[k]
      {
      }
      if t[k] in t[..k] {
        assert Elements(t) == Elements(t[..k]);
      } else {
        assert Elements(t) == Elements(t[..k]) + {t[k]};
      }
    }
  }

  /** Building fails exactly when a loan was listed twice. */
  method BuildReborrowingDag(nodes: seq<Node>, ghost dagNodes: seq<D.DagNode>, ghost loans: seq<nat>,
                             ghost direct: Relation)
    returns (r: Option<Dag>)
    requires Encodes(nodes, dagNodes) && D.IsDagOf(dagNodes, loans, direct, direct)
    ensures r.Some? <==> Distinct(loans)
    ensures r.Some? ==> r.value.nodes == nodes && Indexed(r.value) && Resolved(r.value)
  {
    EncodesBorrows(nodes, dagNodes);
    DagHasIntegrity(nodes, dagNodes, loans, direct);
    if Distinct(loans) {
      PermutationDistinct(loans, BorrowsOf(nodes));
    }
    r := Build(nodes);
    if r.Some? {
      PermutationDistinct(BorrowsOf(nodes), loans);
      IndexedBorrows(r.value);
      forall i, b | 0 <= i < |nodes| && b in nodes[i].reborrowing
        ensures b in r.value.borrowIndices
      {
        assert LinksResolve(nodes, i);
      }
    }
  }

  ghost predicate Built(dag: Dag, dagNodes: seq<D.DagNode>, loans: seq<nat>, direct: Relation) {
    && Indexed(dag) && Resolved(dag) && Encodes(dag.nodes, dagNodes)
    && D.IsDagOf(dagNodes, loans, direct, direct)
  }

  lemma LinkIsDirect(dag: Dag, dagNodes: seq<D.DagNode>, loans: seq<nat>, direct: Relation, i: nat, j: nat)
    requires Built(dag, dagNodes, loans, direct)
    ensures Edge(ReborrowingGraph(dag), i, j) <==>
      i < |dag.nodes| && j < |dag.nodes| && (dag.nodes[j].borrow, dag.nodes[i].borrow) in direct
  {
    EncodesBorrows(dag.nodes, dagNodes);
    if i < |dag.nodes| && j < |dag.nodes| {
      assert D.Linked(dagNodes, direct, i);
      assert BorrowsOf(dag.nodes)[j] == dag.nodes[j].borrow;
    }
  }

  lemma NodeIsLoan(dag: Dag, dagNodes: seq<D.DagNode>, loans: seq<nat>, direct: Relation, i: nat)
    requires Built(dag, dagNodes, loans, direct) && i < |dag.nodes|
    ensures dag.nodes[i].borrow in loans
  {
    D.DagLoans(dagNodes, loans, dag.nodes[i].borrow);
    assert D.LoansOf(dagNodes)[i] == dag.nodes[i].borrow;
  }

  lemma {:induction false} PathIsReborrow(dag: Dag, dagNodes: seq<D.DagNode>, loans: seq<nat>, direct: Relation,
                                          path: seq<nat>)
    requires Built(dag, dagNodes, loans, direct)
    requires IsPath(ReborrowingGraph(dag), path) && |path| > 1
    ensures Connected(D.Within(direct, loans), dag.nodes[End(path)].borrow, dag.nodes[path[0]].borrow)
    decreases |path|
  {
    var part := D.Within(direct, loans);
    var k := |path| - 1;
    var i, j := path[k - 1], path[k];
    assert Edge(ReborrowingGraph(dag), i, j);
    LinkIsDirect(dag, dagNodes, loans, direct, i, j);
    NodeIsLoan(dag, dagNodes, loans, direct, i);
    NodeIsLoan(dag, dagNodes, loans, direct, j);
    OneStep(part, dag.nodes[j].borrow, dag.nodes[i].borrow);
    if k > 1 {
      SlicePath(ReborrowingGraph(dag), path, 0, k);
      PathIsReborrow(dag, dagNodes, loans, direct, path[..k]);
      ConnectedTransitive(part, dag.nodes[j].borrow, dag.nodes[i].borrow, dag.nodes[path[0]].borrow);
    }
  }

  lemma {:induction false} ReborrowIsPath(dag: Dag, dagNodes: seq<D.DagNode>, loans: seq<nat>, direct: Relation,
                                          chain: seq<nat>, i: nat, j: nat)
    requires Built(dag, dagNodes, loans, direct) && i < |dag.nodes| && j < |dag.nodes|
    requires IsChain(D.Within(direct, loans), chain)
    requires chain[0] == dag.nodes[j].borrow && chain[|chain| - 1] == dag.nodes[i].borrow
    ensures Reaches(ReborrowingGraph(dag), i, j)
    decreases |chain|
  {
    var g := ReborrowingGraph(dag);
    assert (chain[0], chain[1]) in D.Within(direct, loans);
    EncodesBorrows(dag.nodes, dagNodes);
    D.DagLoans(dagNodes, loans, chain[1]);
    var m :| 0 <= m < |dag.nodes| && BorrowsOf(dag.nodes)[m] == chain[1];
    LinkIsDirect(dag, dagNodes, loans, direct, m, j);
    if |chain| == 2 {
      assert dag.borrowIndices[chain[1]] == m == i;
      assert PathFromTo(g, [i], i, i);
    } else {
      ReborrowIsPath(dag, dagNodes, loans, direct, chain[1..], i, m);
    }
    ReachedByEdge(g, i, m, j);
  }

  /** A loan and whatever reborrows it, in one step or more. */
  ghost predicate Ancestor(loans: seq<nat>, direct: Relation, a: nat, l: nat) {
    a == l || Connected(D.Within(direct, loans), a, l)
  }

  /** The guard of a borrow is the conjunction over the borrow and all its transitive reborrowers. */
  lemma GuardIsAncestorConjunction(dag: Dag, dagNodes: seq<D.DagNode>, loans: seq<nat>, direct: Relation,
                                   index: nat, executed: set<nat>)
    requires Built(dag, dagNodes, loans, direct) && index < |dag.nodes|
    ensures GuardsAll(dag, index, executed) <==>
            forall i :: 0 <= i < |dag.nodes| &&
                        Ancestor(loans, direct, dag.nodes[i].borrow, dag.nodes[index].borrow) ==>
              Holds(dag.nodes[i].guard, executed)
  {
    var g := ReborrowingGraph(dag);
    forall i: nat | i < |dag.nodes|
      ensures Reaches(g, index, i) <==> Ancestor(loans, direct, dag.nodes[i].borrow, dag.nodes[index].borrow)
    {
      if Reaches(g, index, i) {
        var path :| PathFromTo(g, path, index, i);
        if |path| > 1 {
          PathIsReborrow(dag, dagNodes, loans, direct, path);
        }
      }
      if Ancestor(loans, direct, dag.nodes[i].borrow, dag.nodes[index].borrow) {
        if dag.nodes[i].borrow == dag.nodes[index].borrow {
          assert dag.borrowIndices[dag.nodes[i].borrow] == i;
          assert PathFromTo(g, [i], i, i);
        } else {
          var chain :| IsChain(D.Within(direct, loans), chain) && chain[0] == dag.nodes[i].borrow
                       && chain[|chain| - 1] == dag.nodes[index].borrow;
          ReborrowIsPath(dag, dagNodes, loans, direct, chain, index, i);
        }
      }
    }
  }
}
