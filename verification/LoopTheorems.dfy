/** What the computed loop structure of a procedure guarantees to its users. */
module LoopTheorems {
  import opened FiniteSets
  import opened Graphs
  import opened TopologicalSort
  import opened NaturalLoops
  import opened ProcedureLoops

  /** No head with a self-loop can be reached from outside the loop, except by being the start of everything. */
  ghost predicate ExactHeads(p: Procedure) {
    forall head: nat :: IsHead(p, head) && BackEdge(p, head, head) ==> LedToOnlyByDominated(p, head)
  }

  /** Loops are connected if all blocks can be reached without imaginary or unwinding edges. */
  lemma ReachableMeansConnected(p: Procedure)
    requires WellFormed(p) && forall b: nat :: b < |p.edges| ==> Reaches(p.realEdges, START, b)
    ensures LoopsConnected(p)
  {
    forall head: nat, b: nat | InLoop(p, head, b)
      ensures Reaches(p.realEdges, head, b)
    {
      InLoopBounds(p, head, b);
      HeadDominates(p, head, b);
      assert Reaches(p.realEdges, START, b);
      var path :| PathFromTo(p.realEdges, path, START, b);
      RealPathIsPath(p, path);
      assert PathFromTo(p.edges, path, START, b);
      var i :| 0 <= i < |path| && path[i] == head;
      SlicePath(p.realEdges, path, i, |path|);
      assert PathFromTo(p.realEdges, path[i..|path|], head, b);
    }
  }

  /** With connected loops the lookup of every head succeeds: each is in its own body. */
  lemma HeadsAreCollected(p: Procedure)
    requires WellFormed(p) && LoopsConnected(p)
    ensures HeadsCollected(p) && HeadsFound(p)
  {
    forall head: nat | IsHead(p, head)
      ensures Collected(p, head, head)
    {
      LoopIsCollected(p, head, head);
    }
  }

  ghost predicate ReturnsTo(p: Procedure, head: nat) {
    exists source: nat :: BackEdge(p, source, head) && Reaches(p.realEdges, head, source)
  }

  /** A head is in its own body exactly if one of its back edges can be reached from it. */
  lemma HeadCollectedExactly(p: Procedure, head: nat)
    ensures Collected(p, head, head) <==> ReturnsTo(p, head)
  {
    if Collected(p, head, head) {
      var source: nat :| BackEdge(p, source, head) && WalksBack(p, head, source, head);
    }
    if ReturnsTo(p, head) {
      var source: nat :| BackEdge(p, source, head) && Reaches(p.realEdges, head, source);
      var path :| PathFromTo(p.realEdges, path, head, source);
      var i := LastOccurrence(path, head);
      SlicePath(p.realEdges, path, i, |path|);
      assert forall k :: 0 < k < |path[i..]| ==> path[i..][k] == path[i + 1..][k - 1];
      assert PathFromTo(p.realEdges, path[i..], head, source) && Passes(path[i..], head);
    }
  }

  lemma HeadsCollectedExactly(p: Procedure)
    ensures HeadsCollected(p) <==> forall head: nat :: IsHead(p, head) ==> ReturnsTo(p, head)
  {
    forall head: nat
      ensures Collected(p, head, head) <==> ReturnsTo(p, head)
    {
      HeadCollectedExactly(p, head);
    }
  }

  ghost predicate IsNaturalLoop(p: Procedure, bodies: Bodies, head: nat, b: nat) {
    && (head in bodies <==> IsHead(p, head))
    && (head in bodies && b in bodies[head] <==> InLoop(p, head, b))
  }

  ghost predicate AreNaturalLoops(p: Procedure, bodies: Bodies) {
    forall head: nat, b: nat :: IsNaturalLoop(p, bodies, head, b)
  }

  /** The computed body of a head is its natural loop. */
  lemma BodiesAreLoops(p: Procedure, backEdges: Edges, bodies: Bodies)
    requires WellFormed(p) && LoopsConnected(p) && ExactHeads(p)
    requires AreBackEdges(p, backEdges) && AreBodies(p, backEdges, bodies)
    ensures AreNaturalLoops(p, bodies)
  {
    forall head: nat, b: nat
      ensures IsNaturalLoop(p, bodies, head, b)
    {
      HeadsAreKeys(p, backEdges, bodies, head);
      if IsHead(p, head) {
        assert IsBody(p, backEdges, head, bodies[head]);
        CollectedByAll(p, backEdges, head, b);
        CollectedIffInLoop(p, head);
      }
    }
  }

  // ----- nesting -----

  lemma EnclosingAreHeads(p: Procedure, bodies: Bodies, b: nat)
    requires WellFormed(p) && AreNaturalLoops(p, bodies)
    ensures EnclosingOf(bodies, b) == EnclosingHeads(p, b)
  {
    forall h: nat
      ensures h in EnclosingOf(bodies, b) <==> h in EnclosingHeads(p, b)
    {
      assert IsNaturalLoop(p, bodies, h, b);
      EnclosingExact(p, h, b);
    }
  }

  lemma DepthIsDepth(p: Procedure, bodies: Bodies, depths: map<nat, nat>, lists: map<nat, seq<nat>>, h: nat)
    requires WellFormed(p) && AreNaturalLoops(p, bodies) && DescribesNesting(bodies, depths, lists)
    ensures h in depths <==> IsHead(p, h)
    ensures h in depths ==> depths[h] == HeadDepth(p, h)
  {
    assert IsNaturalLoop(p, bodies, h, h);
    EnclosingAreHeads(p, bodies, h);
  }

  lemma ListIsEnclosing(p: Procedure, bodies: Bodies, depths: map<nat, nat>, lists: map<nat, seq<nat>>, b: nat)
    requires WellFormed(p) && AreNaturalLoops(p, bodies) && DescribesNesting(bodies, depths, lists) && b in lists
    ensures ListsEnclosing(p, b, lists[b])
  {
    var heads := lists[b];
    EnclosingAreHeads(p, bodies, b);
    assert ListsByDepth(heads, EnclosingOf(bodies, b), depths);
    forall i, j | 0 <= i < j < |heads|
      ensures HeadDepth(p, heads[i]) <= HeadDepth(p, heads[j])
    {
      assert heads[i] in heads && heads[j] in heads;
      DepthIsDepth(p, bodies, depths, lists, heads[i]);
      DepthIsDepth(p, bodies, depths, lists, heads[j]);
    }
  }

  /**
   The heads around a block are listed from the outermost to the innermost loop, each loop
   inside the one before it, and the head at `i` has depth `i + 1`.
   */
  lemma EnclosingListIsChain(p: Procedure, bodies: Bodies, depths: map<nat, nat>, lists: map<nat, seq<nat>>, b: nat)
    requires WellFormed(p) && LoopsConnected(p)
    requires AreNaturalLoops(p, bodies) && DescribesNesting(bodies, depths, lists) && b in lists
    ensures forall h: nat :: h in lists[b] <==> InLoop(p, h, b)
    ensures forall i, j :: 0 <= i < j < |lists[b]| ==>
              InLoop(p, lists[b][i], lists[b][j]) && forall m :: InLoop(p, lists[b][j], m) ==> InLoop(p, lists[b][i], m)
    ensures forall i :: 0 <= i < |lists[b]| ==> lists[b][i] in depths && depths[lists[b][i]] == i + 1
  {
    var heads := lists[b];
    ListIsEnclosing(p, bodies, depths, lists, b);
    EnclosingChain(p, b, heads);
    forall h: nat
      ensures h in heads <==> InLoop(p, h, b)
    {
      EnclosingExact(p, h, b);
    }
    forall i | 0 <= i < |heads|
      ensures heads[i] in depths && depths[heads[i]] == i + 1
    {
      assert heads[i] in heads;
      assert ListsByDepth(heads, EnclosingOf(bodies, b), depths);
      DepthIsDepth(p, bodies, depths, lists, heads[i]);
    }
  }

  /** The depth of a block is the number of loops around it. */
  lemma LoopDepthCounts(p: Procedure, bodies: Bodies, depths: map<nat, nat>, lists: map<nat, seq<nat>>, b: nat)
    requires WellFormed(p) && LoopsConnected(p)
    requires AreNaturalLoops(p, bodies) && DescribesNesting(bodies, depths, lists)
    ensures LoopDepth(lists, depths, b) == |EnclosingHeads(p, b)|
  {
    EnclosingAreHeads(p, bodies, b);
    if b in lists {
      EnclosingListIsChain(p, bodies, depths, lists, b);
      ListIsEnclosing(p, bodies, depths, lists, b);
      DistinctSize(lists[b]);
      assert Elements(lists[b]) == EnclosingHeads(p, b);
    }
  }

  // ----- order -----

  /**
   The ordered body of a loop starts with its head, and every other block in it is led to, without a
   back edge, by an earlier block of the list.
   */
  lemma OrderedBodyStartsAtHead(p: Procedure, order: seq<nat>, head: nat, body: set<nat>, list: seq<nat>, j: nat)
    returns (k: nat)
    requires WellFormed(p) && LoopsConnected(p) && IsTopological(ForwardGraph(p), order)
    requires IsHead(p, head) && (forall b: nat :: b in body <==> InLoop(p, head, b))
    requires ListsInOrder(list, body, order) && j < |list|
    ensures list[0] == head
    ensures j > 0 ==> k < j && ForwardEdge(p, list[k], list[j])
  {
    assert head in list;
    var h :| 0 <= h < |list| && list[h] == head;
    if list[0] != head {
      var _ := EarlierInBody(p, order, head, body, list, 0);
    }
    k := 0;
    if j > 0 {
      k := EarlierInBody(p, order, head, body, list, j);
    }
  }

  /** Hence both checks on ordered bodies pass: each starts with its head, and its blocks are in the border in turn. */
  lemma OrderedBodiesPassChecks(p: Procedure, isSwitchInt: seq<bool>, info: LoopInfo, head: nat)
    requires WellFormed(p) && LoopsConnected(p) && ExactHeads(p) && Describes(p, isSwitchInt, info)
    requires head in info.loopBodies
    ensures var list := info.orderedLoopBodies[head]; list != [] && list[0] == head && Bordered(p, head, list)
  {
    BodiesAreLoops(p, info.backEdges, info.loopBodies);
    forall b: nat
      ensures IsHead(p, head) && (b in info.loopBodies[head] <==> InLoop(p, head, b))
    {
      assert IsNaturalLoop(p, info.loopBodies, head, b);
    }
    OrderedBodyPasses(p, info.orderedBlocks, head, info.loopBodies[head], info.orderedLoopBodies[head]);
  }

  lemma OrderedBodyPasses(p: Procedure, order: seq<nat>, head: nat, body: set<nat>, list: seq<nat>)
    requires WellFormed(p) && LoopsConnected(p) && IsTopological(ForwardGraph(p), order)
    requires IsHead(p, head) && (forall b: nat :: b in body <==> InLoop(p, head, b))
    requires ListsInOrder(list, body, order)
    ensures list != [] && list[0] == head && Bordered(p, head, list)
  {
    assert head in list;
    var _ := OrderedBodyStartsAtHead(p, order, head, body, list, 0);
    forall j: nat | j < |list|
      ensures ReachedFrom(p, head, list, j, j)
    {
      var _ := OrderedBodyStartsAtHead(p, order, head, body, list, j);
    }
  }

  lemma PositionsFollow(list: seq<nat>, body: set<nat>, order: seq<nat>, j: nat, k: nat, pj: nat, pk: nat)
    requires ListsInOrder(list, body, order) && j < |list| && k < |list|
    requires pj < |order| && pk < |order| && order[pj] == list[j] && order[pk] == list[k]
    ensures j < k ==> pj < pk
  {
    assert j < k ==> Precedes(order, list[j], list[k]);
  }

  lemma EarlierInOrder(p: Procedure, order: seq<nat>, head: nat, b: nat) returns (v: nat, k: nat, m: nat)
    requires WellFormed(p) && LoopsConnected(p) && IsTopological(ForwardGraph(p), order)
    requires InLoop(p, head, b) && b != head
    ensures InLoop(p, head, v) && ForwardEdge(p, v, b) && v != b
    ensures k < m < |order| && order[k] == v && order[m] == b
  {
    InLoopBounds(p, head, b);
    assert b in order && head in order;
    m :| 0 <= m < |order| && order[m] == b;
    var h :| 0 <= h < |order| && order[h] == head;
    k := HeadComesFirst(p, ForwardGraph(p), order, head, h, m);
    v := order[k];
  }

  lemma EarlierInBody(p: Procedure, order: seq<nat>, head: nat, body: set<nat>, list: seq<nat>, j: nat) returns (k: nat)
    requires WellFormed(p) && LoopsConnected(p) && IsTopological(ForwardGraph(p), order)
    requires IsHead(p, head) && (forall b: nat :: b in body <==> InLoop(p, head, b))
    requires ListsInOrder(list, body, order) && j < |list| && list[j] != head
    ensures k < j && ForwardEdge(p, list[k], list[j])
  {
    assert list[j] in list;
    var v, pk, pj := EarlierInOrder(p, order, head, list[j]);
    assert v in list;
    k :| 0 <= k < |list| && list[k] == v;
    PositionsFollow(list, body, order, j, k, pj, pk);
  }

  // ----- exits -----

  /** A block in a table of exit blocks has a successor outside of the loop. */
  lemma ExitLeavesLoop(p: Procedure, bodies: Bodies, depths: map<nat, nat>, lists: map<nat, seq<nat>>,
                       isSwitchInt: seq<bool>, head: nat, b: nat) returns (s: nat)
    requires WellFormed(p) && LoopsConnected(p)
    requires AreNaturalLoops(p, bodies) && DescribesNesting(bodies, depths, lists) && head in depths
    requires ExitsLoop(p, isSwitchInt, c => LoopDepth(lists, depths, c), depths[head], b)
    ensures Edge(p.realEdges, b, s) && !InLoop(p, head, s)
  {
    s :| s in p.realEdges[b] && LoopDepth(lists, depths, s) < depths[head];
    DepthIsDepth(p, bodies, depths, lists, head);
    LoopDepthCounts(p, bodies, depths, lists, s);
    if InLoop(p, head, s) {
      DepthInsideLoop(p, head, s);
      assert false;
    }
  }

  lemma {:induction false} ExitsKeepOrder(p: Procedure, isSwitchInt: seq<bool>, depth: nat -> nat, headDepth: nat,
                                          body: seq<nat>, order: seq<nat>)
    requires Distinct(body) && forall i, j :: 0 <= i < j < |body| ==> Precedes(order, body[i], body[j])
    ensures var exits := ExitsIn(p, isSwitchInt, depth, headDepth, body);
            Distinct(exits) && forall i, j :: 0 <= i < j < |exits| ==> Precedes(order, exits[i], exits[j])
    decreases |body|
  {
    if body != [] {
      var k := |body| - 1;
      ExitsKeepOrder(p, isSwitchInt, depth, headDepth, body[..k], order);
      var exits := ExitsIn(p, isSwitchInt, depth, headDepth, body[..k]);
      forall i | 0 <= i < |exits|
        ensures exits[i] != body[k] && Precedes(order, exits[i], body[k])
      {
        assert exits[i] in body[..k];
      }
    }
  }

  /** A switch of the loop with a successor in fewer loops than the head. */
  ghost predicate SwitchLeaves(p: Procedure, isSwitchInt: seq<bool>, head: nat, b: nat) {
    && InLoop(p, head, b) && b < |isSwitchInt| && isSwitchInt[b]
    && exists s: nat :: Edge(p.realEdges, b, s) && |EnclosingHeads(p, s)| < |EnclosingHeads(p, head)|
  }

  /** The exit blocks of a loop are exactly its switches that leave it, in the order of the blocks. */
  lemma ExitBlocksExactly(p: Procedure, isSwitchInt: seq<bool>, info: LoopInfo, head: nat)
    requires WellFormed(p) && LoopsConnected(p) && ExactHeads(p) && Describes(p, isSwitchInt, info)
    requires |isSwitchInt| == |p.edges| && head in info.loopBodies
    ensures var exits := info.loopExitBlocks[head];
            && (forall b: nat :: b in exits <==> SwitchLeaves(p, isSwitchInt, head, b))
            && Distinct(exits)
            && forall i, j :: 0 <= i < j < |exits| ==> Precedes(info.orderedBlocks, exits[i], exits[j])
  {
    var depth := (c: nat) => LoopDepth(info.enclosingLoopHeads, info.loopHeadDepths, c);
    BodiesAreLoops(p, info.backEdges, info.loopBodies);
    ExitsKeepOrder(p, isSwitchInt, depth, info.loopHeadDepths[head], info.orderedLoopBodies[head], info.orderedBlocks);
    DepthIsDepth(p, info.loopBodies, info.loopHeadDepths, info.enclosingLoopHeads, head);
    forall s: nat
      ensures depth(s) == |EnclosingHeads(p, s)|
    {
      LoopDepthCounts(p, info.loopBodies, info.loopHeadDepths, info.enclosingLoopHeads, s);
    }
    forall b: nat
      ensures b in info.loopExitBlocks[head] <==> SwitchLeaves(p, isSwitchInt, head, b)
    {
      ExitExactly(p, isSwitchInt, depth, info, head, b);
    }
  }

  lemma ExitExactly(p: Procedure, isSwitchInt: seq<bool>, depth: nat -> nat, info: LoopInfo, head: nat, b: nat)
    requires WellFormed(p) && |isSwitchInt| == |p.edges|
    requires head in info.loopBodies && AreNaturalLoops(p, info.loopBodies) && DescribesOrder(p, info)
    requires head in info.loopHeadDepths && info.loopHeadDepths[head] == |EnclosingHeads(p, head)|
    requires forall s: nat :: depth(s) == |EnclosingHeads(p, s)|
    ensures b in ExitsIn(p, isSwitchInt, depth, info.loopHeadDepths[head], info.orderedLoopBodies[head]) <==>
            SwitchLeaves(p, isSwitchInt, head, b)
  {
    assert IsNaturalLoop(p, info.loopBodies, head, b);
    if InLoop(p, head, b) {
      InLoopBounds(p, head, b);
    }
  }

  /** At least as many loops are around a block of a loop as around its head. */
  lemma DepthInsideLoop(p: Procedure, head: nat, b: nat)
    requires WellFormed(p) && LoopsConnected(p) && InLoop(p, head, b)
    ensures HeadDepth(p, head) <= |EnclosingHeads(p, b)|
  {
    forall k | k in EnclosingHeads(p, head)
      ensures k in EnclosingHeads(p, b)
    {
      EnclosingExact(p, k, head);
      EnclosingExact(p, k, b);
      if k != head {
        HeadDominates(p, k, head);
        LoopsNest(p, k, head, head);
      }
    }
    SubsetSize(EnclosingHeads(p, head), EnclosingHeads(p, b));
  }

  /** A nonconditional block is met in every iteration: on each way from the head to a back-edge source. */
  lemma NonconditionalInEveryIteration(p: Procedure, bodies: Bodies, head: nat, b: nat, source: nat, path: seq<nat>)
    requires WellFormed(p) && AreNaturalLoops(p, bodies)
    requires IsNonconditional(p, bodies, head, b)
    requires BackEdge(p, source, head) && PathFromTo(p.edges, path, head, source)
    ensures b in path
  {
    assert IsNaturalLoop(p, bodies, head, b);
    HeadDominates(p, head, b);
    if Dominates(p, b, head) {
      InLoopBounds(p, head, b);
      DominanceAntisymmetric(p, b, head);
    } else {
      DominatorOnTail(p, b, head, path);
    }
  }

  /** All ways from the head to the source of a back edge meet `b`. */
  ghost predicate OnEveryWay(p: Procedure, head: nat, b: nat, source: nat) {
    forall path: seq<nat> :: PathFromTo(p.edges, path, head, source) ==> b in path
  }

  lemma DominatesFromHead(p: Procedure, head: nat, b: nat, source: nat)
    requires WellFormed(p) && BackEdge(p, source, head) && OnEveryWay(p, head, b, source)
    ensures Dominates(p, b, source)
  {
    forall path | PathFromTo(p.edges, path, START, source)
      ensures b in path
    {
      var i :| 0 <= i < |path| && path[i] == head;
      SlicePath(p.edges, path, i, |path|);
      assert PathFromTo(p.edges, path[i..|path|], head, source);
    }
  }

  /** The nonconditional blocks of a loop are exactly those that every iteration meets. */
  lemma NonconditionalExactly(p: Procedure, isSwitchInt: seq<bool>, info: LoopInfo, head: nat, b: nat)
    requires WellFormed(p) && LoopsConnected(p) && ExactHeads(p) && Describes(p, isSwitchInt, info)
    requires head in info.loopBodies
    ensures b in info.nonconditionalLoopBlocks[head] <==>
            InLoop(p, head, b) && forall source: nat :: BackEdge(p, source, head) ==> OnEveryWay(p, head, b, source)
  {
    BodiesAreLoops(p, info.backEdges, info.loopBodies);
    assert IsNaturalLoop(p, info.loopBodies, head, b);
    if IsNonconditional(p, info.loopBodies, head, b) {
      forall source: nat, path: seq<nat> | BackEdge(p, source, head) && PathFromTo(p.edges, path, head, source)
        ensures b in path
      {
        NonconditionalInEveryIteration(p, info.loopBodies, head, b, source, path);
      }
    }
    forall source: nat | BackEdge(p, source, head) && OnEveryWay(p, head, b, source)
      ensures Dominates(p, b, source)
    {
      DominatesFromHead(p, head, b, source);
    }
  }
}
