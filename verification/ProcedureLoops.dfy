/** The loop structure of a procedure, computed from its real edges and its dominators. */
module ProcedureLoops {
  import opened Wrappers
  import opened Graphs
  import opened TopologicalSort
  import opened NaturalLoops
  import opened Reducibility

  ghost predicate ArePredecessors(p: Procedure, predecessors: Graph) {
    && |predecessors| == |p.edges|
    && forall a: nat, b: nat :: b < |predecessors| ==> (a in predecessors[b] <==> Edge(p.realEdges, a, b))
  }

  /** Apart from the head, the body contains the predecessors of its members. */
  ghost predicate ClosedBody(p: Procedure, head: nat, body: set<nat>) {
    forall a: nat, b: nat :: b in body && b != head && Edge(p.realEdges, a, b) ==> a in body
  }

  /** A walk from `b` to `source` that the head does not interrupt. */
  ghost predicate PendingWalk(p: Procedure, head: nat, source: nat, b: nat) {
    exists path :: PathFromTo(p.realEdges, path, b, source) && forall i :: 0 <= i < |path| - 1 ==> path[i] != head
  }

  lemma PendingIsWalk(p: Procedure, head: nat, source: nat, b: nat)
    requires PendingWalk(p, head, source, b)
    ensures WalksBack(p, head, source, b)
  {
    var path :| PathFromTo(p.realEdges, path, b, source) && forall i :: 0 <= i < |path| - 1 ==> path[i] != head;
    assert Passes(path, head);
  }

  lemma PrependEdge(p: Procedure, head: nat, source: nat, a: nat, b: nat)
    requires WellFormed(p) && PendingWalk(p, head, source, b) && Edge(p.realEdges, a, b)
    ensures WalksBack(p, head, source, a)
    ensures a != head ==> PendingWalk(p, head, source, a)
  {
    var path :| PathFromTo(p.realEdges, path, b, source) && forall i :: 0 <= i < |path| - 1 ==> path[i] != head;
    AppendEdge(p.realEdges, [a], b);
    JoinPaths(p.realEdges, [a, b], path);
    var longer := [a] + path;
    assert [a, b] + path[1..] == longer;
    assert PathFromTo(p.realEdges, longer, a, source);
    assert Passes(longer, head);
  }

  /** A set that is closed under the walk contains all of it. */
  lemma {:induction false} WalkInClosed(p: Procedure, head: nat, path: seq<nat>, body: set<nat>)
    requires IsPath(p.realEdges, path) && Passes(path, head) && End(path) in body
    requires ClosedBody(p, head, body)
    requires End(path) == head ==> forall a: nat :: Edge(p.realEdges, a, head) ==> a in body
    ensures path[0] in body
    decreases |path|
  {
    if |path| > 1 {
      SlicePath(p.realEdges, path, 1, |path|);
      assert forall i :: 0 < i < |path[1..]| - 1 ==> path[1..][i] == path[i + 1];
      WalkInClosed(p, head, path[1..], body);
      assert Edge(p.realEdges, path[0], path[1]);
    }
  }

  /** Every member is new for a reason, and what remains to be looked at is in the queue. */
  ghost predicate CollectInv(p: Procedure, head: nat, source: nat, body0: set<nat>, body: set<nat>, queue: seq<nat>) {
    && body0 <= body && source in body
    && (forall b :: b in body ==> b < |p.edges| && (b in body0 || WalksBack(p, head, source, b)))
    && (forall q :: q in queue ==> q in body && PendingWalk(p, head, source, q))
    && forall a: nat, b: nat :: b in body && Edge(p.realEdges, a, b) ==>
         a in body || b in queue || (b == head && source != head)
  }

  lemma AddMember(p: Procedure, head: nat, source: nat, body0: set<nat>, body: set<nat>, queue: seq<nat>, current: nat,
                  a: nat)
    requires WellFormed(p) && CollectInv(p, head, source, body0, body, queue + [current])
    requires Edge(p.realEdges, a, current) && a !in body
    ensures CollectInv(p, head, source, body0, body + {a}, (if a == head then queue else queue + [a]) + [current])
  {
    assert current in queue + [current];
    PrependEdge(p, head, source, a, current);
    var queue' := (if a == head then queue else queue + [a]) + [current];
    forall q
      ensures q in queue' <==> q in queue + [current] || (q == a && a != head)
    {
    }
  }

  lemma RemoveCurrent(p: Procedure, head: nat, source: nat, body0: set<nat>, body: set<nat>, queue: seq<nat>,
                      current: nat)
    requires CollectInv(p, head, source, body0, body, queue + [current])
    requires forall a: nat :: Edge(p.realEdges, a, current) ==> a in body
    ensures CollectInv(p, head, source, body0, body, queue)
  {
    forall q
      ensures q in queue + [current] <==> q in queue || q == current
    {
    }
  }

  lemma StartCollecting(p: Procedure, head: nat, source: nat, body0: set<nat>)
    requires WellFormed(p) && source < |p.edges|
    requires (forall b :: b in body0 ==> b < |p.edges|) && ClosedBody(p, head, body0)
    ensures CollectInv(p, head, source, body0, body0 + {source}, [source])
  {
    assert PathFromTo(p.realEdges, [source], source, source);
    assert PendingWalk(p, head, source, source);
    PendingIsWalk(p, head, source, source);
  }

  method CollectLoopBody(p: Procedure, predecessors: Graph, head: nat, backEdgeSource: nat, body0: set<nat>)
    returns (body: set<nat>)
    requires WellFormed(p) && ArePredecessors(p, predecessors)
    requires backEdgeSource < |p.edges| && (forall b :: b in body0 ==> b < |p.edges|) && ClosedBody(p, head, body0)
    ensures forall b :: b in body <==> b in body0 || WalksBack(p, head, backEdgeSource, b)
    ensures forall b :: b in body ==> b < |p.edges|
    ensures ClosedBody(p, head, body)
  {
    var workQueue := [backEdgeSource];
    body := body0 + {backEdgeSource};
    UptoSize(|p.edges|);
    StartCollecting(p, head, backEdgeSource, body0);
    while workQueue != []
      invariant CollectInv(p, head, backEdgeSource, body0, body, workQueue)
      decreases Upto(|p.edges|) - body, |workQueue|
    {
      var current := workQueue[|workQueue| - 1];
      assert workQueue == workQueue[..|workQueue| - 1] + [current] && current in workQueue;
      workQueue := workQueue[..|workQueue| - 1];
      body, workQueue := AddPredecessors(p, predecessors, head, backEdgeSource, body0, body, workQueue, current);
    }
    forall b | WalksBack(p, head, backEdgeSource, b)
      ensures b in body
    {
      var path :| PathFromTo(p.realEdges, path, b, backEdgeSource) && Passes(path, head);
      WalkInClosed(p, head, path, body);
    }
  }

  /** Add the predecessors of `current` that are new, and queue them except for the head. */
  method AddPredecessors(p: Procedure, predecessors: Graph, head: nat, ghost source: nat, ghost body0: set<nat>,
                         body: set<nat>, queue: seq<nat>, current: nat)
    returns (body': set<nat>, queue': seq<nat>)
    requires WellFormed(p) && ArePredecessors(p, predecessors) && current < |p.edges|
    requires CollectInv(p, head, source, body0, body, queue + [current])
    ensures CollectInv(p, head, source, body0, body', queue')
    ensures body <= body' && (body' == body ==> queue' == queue)
  {
    body', queue' := body, queue;
    for k := 0 to |predecessors[current]|
      invariant CollectInv(p, head, source, body0, body', queue' + [current])
      invariant forall i :: 0 <= i < k ==> predecessors[current][i] in body'
      invariant body <= body' && (body' == body ==> queue' == queue)
    {
      var predecessor := predecessors[current][k];
      assert predecessor in predecessors[current];
      if predecessor in body' {
        continue;
      }
      AddMember(p, head, source, body0, body', queue', current, predecessor);
      body' := body' + {predecessor};
      if predecessor != head {
        queue' := queue' + [predecessor];
      }
    }
    RemoveCurrent(p, head, source, body0, body', queue', current);
  }

  // ----- the loops of a procedure -----

  /** The dominators of each block, as the compiler provides them. */
  ghost predicate AreDominators(p: Procedure, dominators: seq<set<nat>>) {
    && |dominators| == |p.edges|
    && forall a: nat, b: nat :: b < |dominators| ==> (a in dominators[b] <==> Dominates(p, a, b))
  }

  type Edges = set<(nat, nat)>

  ghost predicate AreBackEdges(p: Procedure, backEdges: Edges) {
    forall a: nat, b: nat :: (a, b) in backEdges <==> BackEdge(p, a, b)
  }

  method FindBackEdges(p: Procedure, dominators: seq<set<nat>>) returns (backEdges: Edges)
    requires WellFormed(p) && AreDominators(p, dominators)
    ensures AreBackEdges(p, backEdges)
  {
    backEdges := {};
    for block := 0 to |p.realEdges|
      invariant forall a: nat, b: nat :: (a, b) in backEdges <==> a < block && BackEdge(p, a, b)
    {
      for k := 0 to |p.realEdges[block]|
        invariant forall a: nat, b: nat :: (a, b) in backEdges <==>
          BackEdge(p, a, b) && (a < block || (a == block && b in p.realEdges[block][..k]))
      {
        var successor := p.realEdges[block][k];
        assert p.realEdges[block][..k + 1] == p.realEdges[block][..k] + [successor];
        if successor in dominators[block] {
          backEdges := backEdges + {(block, successor)};
        }
      }
      assert p.realEdges[block][..|p.realEdges[block]|] == p.realEdges[block];
    }
  }

  type Bodies = map<nat, set<nat>>

  /** `b` is collected for one of the given back edges. */
  ghost predicate CollectedBy(p: Procedure, backEdges: Edges, head: nat, b: nat) {
    exists source: nat :: (source, head) in backEdges && WalksBack(p, head, source, b)
  }

  ghost predicate AreBodies(p: Procedure, backEdges: Edges, bodies: Bodies) {
    && (forall head: nat :: head in bodies <==> exists source: nat :: (source, head) in backEdges)
    && forall head :: head in bodies ==> IsBody(p, backEdges, head, bodies[head])
  }

  ghost predicate IsBody(p: Procedure, backEdges: Edges, head: nat, body: set<nat>) {
    && ClosedBody(p, head, body)
    && (forall b :: b in body ==> b < |p.edges|)
    && forall b: nat :: b in body <==> CollectedBy(p, backEdges, head, b)
  }

  /** Collect the loop bodies. The body of a head is shared by all its back edges. */
  method CollectBodies(p: Procedure, predecessors: Graph, backEdges: Edges) returns (bodies: Bodies)
    requires WellFormed(p) && ArePredecessors(p, predecessors) && AreBackEdges(p, backEdges)
    ensures AreBodies(p, backEdges, bodies)
  {
    bodies := map[];
    var todo := backEdges;
    while todo != {}
      invariant todo <= backEdges
      invariant AreBodies(p, backEdges - todo, bodies)
    {
      var edge :| edge in todo;
      var (source, target) := edge;
      ghost var done := backEdges - todo;
      assert BackEdge(p, source, target);
      var body0 := if target in bodies then bodies[target] else {};
      var body := CollectLoopBody(p, predecessors, target, source, body0);
      AddBody(p, done, bodies, source, target, body);
      bodies := bodies[target := body];
      todo := todo - {edge};
      assert backEdges - todo == done + {(source, target)};
    }
    assert backEdges - todo == backEdges;
  }

  lemma AddBody(p: Procedure, done: Edges, bodies: Bodies, source: nat, target: nat, body: set<nat>)
    requires AreBodies(p, done, bodies) && ClosedBody(p, target, body)
    requires forall b :: b in body ==> b < |p.edges|
    requires forall b :: b in body <==>
             b in (if target in bodies then bodies[target] else {}) || WalksBack(p, target, source, b)
    ensures AreBodies(p, done + {(source, target)}, bodies[target := body])
  {
    var done', bodies' := done + {(source, target)}, bodies[target := body];
    forall head: nat, b: nat
      ensures CollectedBy(p, done', head, b) <==>
              CollectedBy(p, done, head, b) || (head == target && WalksBack(p, target, source, b))
    {
      if CollectedBy(p, done', head, b) {
        var s: nat :| (s, head) in done' && WalksBack(p, head, s, b);
      }
      if head == target && WalksBack(p, target, source, b) {
        assert (source, head) in done';
      }
    }
    forall head: nat
      ensures head in bodies' <==> exists s: nat :: (s, head) in done'
    {
      if head == target {
        assert (source, head) in done';
      }
    }
    if target !in bodies {
      forall b: nat
        ensures !CollectedBy(p, done, target, b)
      {
      }
    }
  }

  // ----- nesting -----

  /** The heads whose body contains `b`. */
  function EnclosingOf(bodies: Bodies, b: nat): set<nat> {
    set head | head in bodies && b in bodies[head]
  }

  ghost predicate InNoBody(bodies: Bodies, b: nat) {
    forall head :: head in bodies ==> b !in bodies[head]
  }

  method FindEnclosingHeads(bodies: Bodies) returns (enclosing: map<nat, set<nat>>)
    ensures forall b :: b in enclosing ==> enclosing[b] == EnclosingOf(bodies, b)
    ensures forall b: nat :: b in enclosing <==> !InNoBody(bodies, b)
  {
    enclosing := map[];
    var todo := bodies.Keys;
    while todo != {}
      invariant todo <= bodies.Keys
      invariant forall b :: b in enclosing <==> exists h :: h in bodies && h !in todo && b in bodies[h]
      invariant forall b, h :: b in enclosing ==> (h in enclosing[b] <==> h in bodies && h !in todo && b in bodies[h])
    {
      var head :| head in todo;
      var blocks := bodies[head];
      while blocks != {}
        invariant blocks <= bodies[head]
        invariant forall b :: b in enclosing <==>
          (b in bodies[head] && b !in blocks) || exists h :: h in bodies && h !in todo && b in bodies[h]
        invariant forall b, h :: b in enclosing ==> (h in enclosing[b] <==>
          h in bodies && b in bodies[h] && (h !in todo || (h == head && b !in blocks)))
      {
        var block :| block in blocks;
        var heads := if block in enclosing then enclosing[block] else {};
        enclosing := enclosing[block := heads + {head}];
        blocks := blocks - {block};
      }
      todo := todo - {head};
    }
  }

  /** The elements of `s`, sorted by `key`. */
  method SortByKey(s: set<nat>, key: map<nat, nat>) returns (sorted: seq<nat>)
    requires s <= key.Keys
    ensures Distinct(sorted) && forall v :: v in sorted <==> v in s
    ensures forall i, j :: 0 <= i < j < |sorted| ==> key[sorted[i]] <= key[sorted[j]]
  {
    sorted := [];
    var todo := s;
    while todo != {}
      invariant todo <= s && Distinct(sorted)
      invariant forall v :: v in sorted <==> v in s && v !in todo
      invariant forall i, j :: 0 <= i < j < |sorted| ==> key[sorted[i]] <= key[sorted[j]]
      invariant forall i, v :: 0 <= i < |sorted| && v in todo ==> key[sorted[i]] <= key[v]
    {
      ghost var least := SmallestKey(todo, key);
      var next :| next in todo && forall v :: v in todo ==> key[next] <= key[v];
      sorted := sorted + [next];
      todo := todo - {next};
    }
  }

  lemma SmallestKey(s: set<nat>, key: map<nat, nat>) returns (least: nat)
    requires s != {} && s <= key.Keys
    ensures least in s && forall v :: v in s ==> key[least] <= key[v]
  {
    least :| least in s;
    var rest := s - {least};
    while rest != {}
      invariant least in s && rest <= s
      invariant forall v :: v in s && v !in rest ==> key[least] <= key[v]
    {
      var v :| v in rest;
      rest := rest - {v};
      if key[v] < key[least] {
        least := v;
      }
    }
  }

  // ----- the order of the blocks -----

  /** The loop depth of a block: the depth of the last head in its list, zero outside of loops. */
  function LoopDepth(enclosing: map<nat, seq<nat>>, depths: map<nat, nat>, b: nat): nat {
    if b in enclosing && enclosing[b] != [] && enclosing[b][|enclosing[b]| - 1] in depths
    then depths[enclosing[b][|enclosing[b]| - 1]]
    else 0
  }

  /** Successors of a block in the order in which they are visited: first those that leave the loop. */
  method VisitOrder(p: Procedure, backEdges: Edges, depth: nat -> nat, block: nat) returns (targets: seq<nat>)
    requires block < |p.realEdges|
    ensures forall b: nat :: b in targets <==> b in p.realEdges[block] && (block, b) !in backEdges
    ensures forall i, j :: 0 <= i < j < |targets| && depth(targets[j]) < depth(block) ==>
              depth(targets[i]) < depth(block)
  {
    targets := [];
    for k := 0 to |p.realEdges[block]|
      invariant forall b: nat :: b in targets <==>
        b in p.realEdges[block][..k] && (block, b) !in backEdges && depth(b) < depth(block)
    {
      var successor := p.realEdges[block][k];
      assert p.realEdges[block][..k + 1] == p.realEdges[block][..k] + [successor];
      if depth(successor) < depth(block) && (block, successor) !in backEdges {
        targets := targets + [successor];
      }
    }
    assert p.realEdges[block][..|p.realEdges[block]|] == p.realEdges[block];
    var leaving := targets;
    for k := 0 to |p.realEdges[block]|
      invariant leaving <= targets
      invariant forall i :: |leaving| <= i < |targets| ==> depth(targets[i]) >= depth(block)
      invariant forall b: nat :: b in targets <==>
        b in leaving || (b in p.realEdges[block][..k] && (block, b) !in backEdges && depth(b) >= depth(block))
    {
      var successor := p.realEdges[block][k];
      assert p.realEdges[block][..k + 1] == p.realEdges[block][..k] + [successor];
      if depth(successor) >= depth(block) && (block, successor) !in backEdges {
        targets := targets + [successor];
      }
    }
    assert forall i :: 0 <= i < |leaving| ==> targets[i] in leaving;
  }

  lemma ForwardOrders(p: Procedure, g: Graph)
    requires WellFormed(p) && IsGraph(g) && SameEdges(g, ForwardGraph(p))
    ensures HasCycle(g) <==> Irreducible(p)
    ensures forall order :: IsTopological(g, order) ==> IsTopological(ForwardGraph(p), order)
  {
    ForwardCycleIffIrreducible(p);
    SameEdgesSameOrders(g, ForwardGraph(p));
    SameEdgesSameOrders(ForwardGraph(p), g);
  }

  /** The blocks in topological order, ignoring back edges; none if the procedure is irreducible. */
  method OrderBasicBlocks(p: Procedure, backEdges: Edges, depth: nat -> nat) returns (order: Option<seq<nat>>)
    requires WellFormed(p) && AreBackEdges(p, backEdges)
    ensures order.None? <==> Irreducible(p)
    ensures order.Some? ==> IsTopological(ForwardGraph(p), order.value)
  {
    var targets: Graph := [];
    for block := 0 to |p.realEdges|
      invariant |targets| == block
      invariant forall a: nat, b: nat :: a < block ==>
                  (b in targets[a] <==> b in p.realEdges[a] && (a, b) !in backEdges)
    {
      var visited := VisitOrder(p, backEdges, depth, block);
      targets := targets + [visited];
    }
    order := TopologicalOrder(targets);
    ForwardOrders(p, targets);
  }

  // ----- all of it together -----

  datatype LoopInfo = LoopInfo(
    loopHeadDepths: map<nat, nat>,
    loopBodies: Bodies,
    orderedLoopBodies: map<nat, seq<nat>>,
    enclosingLoopHeads: map<nat, seq<nat>>,
    loopExitBlocks: map<nat, seq<nat>>,
    nonconditionalLoopBlocks: Bodies,
    backEdges: Edges,
    orderedBlocks: seq<nat>)

  /** `list` is `members` in the order in which they occur in `order`. */
  ghost predicate ListsInOrder(list: seq<nat>, members: set<nat>, order: seq<nat>) {
    && Distinct(list)
    && (forall v :: v in list <==> v in members)
    && forall i, j :: 0 <= i < j < |list| ==> Precedes(order, list[i], list[j])
  }

  ghost predicate Precedes(order: seq<nat>, a: nat, b: nat) {
    forall k, m :: 0 <= k < |order| && 0 <= m < |order| && order[k] == a && order[m] == b ==> k < m
  }

  ghost predicate ListsByDepth(list: seq<nat>, heads: set<nat>, depths: map<nat, nat>) {
    && Distinct(list)
    && (forall h :: h in list <==> h in heads)
    && (forall h :: h in list ==> h in depths)
    && forall i, j :: 0 <= i < j < |list| ==> depths[list[i]] <= depths[list[j]]
  }

  /** `b` is in the body of `head` and dominates every block from which a back edge returns to `head`. */
  ghost predicate IsNonconditional(p: Procedure, bodies: Bodies, head: nat, b: nat) {
    head in bodies && b in bodies[head] && forall source: nat :: BackEdge(p, source, head) ==> Dominates(p, b, source)
  }

  ghost predicate ExitsLoop(p: Procedure, isSwitchInt: seq<bool>, depth: nat -> nat, headDepth: nat, b: nat) {
    && b < |p.realEdges| == |isSwitchInt|
    && isSwitchInt[b]
    && exists s :: s in p.realEdges[b] && depth(s) < headDepth
  }

  /** The exit blocks among `body`, in its order. */
  ghost function ExitsIn(p: Procedure, isSwitchInt: seq<bool>, depth: nat -> nat, headDepth: nat,
                         body: seq<nat>): (r: seq<nat>)
    ensures forall b :: b in r <==> b in body && ExitsLoop(p, isSwitchInt, depth, headDepth, b)
  {
    if body == [] then []
    else
      var k := |body| - 1;
      ExitsIn(p, isSwitchInt, depth, headDepth, body[..k]) +
      if ExitsLoop(p, isSwitchInt, depth, headDepth, body[k]) then [body[k]] else []
  }

  ghost predicate DescribesNesting(bodies: Bodies, depths: map<nat, nat>, lists: map<nat, seq<nat>>) {
    && depths.Keys == bodies.Keys
    && (forall h :: h in depths ==> depths[h] == |EnclosingOf(bodies, h)|)
    && (forall b: nat :: b !in lists ==> EnclosingOf(bodies, b) == {})
    && forall b :: b in lists ==> ListsByDepth(lists[b], EnclosingOf(bodies, b), depths)
  }

  ghost predicate DescribesOrder(p: Procedure, info: LoopInfo)
    requires WellFormed(p)
  {
    && IsTopological(ForwardGraph(p), info.orderedBlocks)
    && info.orderedLoopBodies.Keys == info.loopBodies.Keys
    && forall h :: h in info.loopBodies ==>
         ListsInOrder(info.orderedLoopBodies[h], info.loopBodies[h], info.orderedBlocks)
  }

  ghost predicate DescribesExits(p: Procedure, isSwitchInt: seq<bool>, info: LoopInfo) {
    && info.loopExitBlocks.Keys == info.loopBodies.Keys == info.loopHeadDepths.Keys == info.orderedLoopBodies.Keys
    && var depth := (c: nat) => LoopDepth(info.enclosingLoopHeads, info.loopHeadDepths, c);
       forall h :: h in info.loopBodies ==>
         info.loopExitBlocks[h] == ExitsIn(p, isSwitchInt, depth, info.loopHeadDepths[h], info.orderedLoopBodies[h])
  }

  ghost predicate DescribesNonconditional(p: Procedure, info: LoopInfo) {
    && info.nonconditionalLoopBlocks.Keys == info.loopBodies.Keys
    && forall h: nat, b: nat :: h in info.loopBodies ==>
         (b in info.nonconditionalLoopBlocks[h] <==> IsNonconditional(p, info.loopBodies, h, b))
  }

  /** What the computed tables mean. */
  ghost predicate Describes(p: Procedure, isSwitchInt: seq<bool>, info: LoopInfo)
    requires WellFormed(p)
  {
    && AreBackEdges(p, info.backEdges)
    && AreBodies(p, info.backEdges, info.loopBodies)
    && DescribesNesting(info.loopBodies, info.loopHeadDepths, info.enclosingLoopHeads)
    && DescribesOrder(p, info)
    && DescribesExits(p, isSwitchInt, info)
    && DescribesNonconditional(p, info)
  }

  /** The depth of a head is the number of heads around it. There is no result if the lookup of a head fails. */
  method HeadDepths(bodies: Bodies, enclosing: map<nat, set<nat>>) returns (r: Option<map<nat, nat>>)
    ensures r.None? <==> !(bodies.Keys <= enclosing.Keys)
    ensures r.Some? ==> r.value.Keys == bodies.Keys
    ensures r.Some? ==> forall h :: h in bodies ==> r.value[h] == |enclosing[h]|
  {
    var depths: map<nat, nat> := map[];
    var todo := bodies.Keys;
    while todo != {}
      invariant todo <= bodies.Keys && depths.Keys == bodies.Keys - todo
      invariant forall h :: h in depths ==> h in enclosing && depths[h] == |enclosing[h]|
    {
      var head :| head in todo;
      if head !in enclosing {
        return None;
      }
      depths := depths[head := |enclosing[head]|];
      todo := todo - {head};
    }
    return Some(depths);
  }

  method SortEnclosing(bodies: Bodies, enclosing: map<nat, set<nat>>, depths: map<nat, nat>)
    returns (lists: map<nat, seq<nat>>)
    requires depths.Keys == bodies.Keys
    requires forall b :: b in enclosing ==> enclosing[b] == EnclosingOf(bodies, b)
    ensures lists.Keys == enclosing.Keys
    ensures forall b :: b in lists ==> ListsByDepth(lists[b], EnclosingOf(bodies, b), depths)
  {
    lists := map[];
    var todo := enclosing.Keys;
    while todo != {}
      invariant todo <= enclosing.Keys && lists.Keys == enclosing.Keys - todo
      invariant forall b :: b in lists ==> ListsByDepth(lists[b], EnclosingOf(bodies, b), depths)
    {
      var block :| block in todo;
      var heads := SortByKey(enclosing[block], depths);
      lists := lists[block := heads];
      todo := todo - {block};
    }
  }

  method BlockOrder(order: seq<nat>) returns (positions: map<nat, nat>)
    requires Distinct(order)
    ensures forall v :: v in positions <==> v in order
    ensures forall i :: 0 <= i < |order| ==> positions[order[i]] == i
  {
    positions := map[];
    for i := 0 to |order|
      invariant forall v :: v in positions <==> v in order[..i]
      invariant forall k :: 0 <= k < i ==> order[k] in positions && positions[order[k]] == k
    {
      positions := positions[order[i] := i];
    }
  }

  method OrderBodies(bodies: Bodies, order: seq<nat>) returns (ordered: map<nat, seq<nat>>)
    requires Distinct(order) && forall h, b :: h in bodies && b in bodies[h] ==> b in order
    ensures ordered.Keys == bodies.Keys
    ensures forall h :: h in ordered ==> ListsInOrder(ordered[h], bodies[h], order)
  {
    var positions := BlockOrder(order);
    ordered := map[];
    var todo := bodies.Keys;
    while todo != {}
      invariant todo <= bodies.Keys && ordered.Keys == bodies.Keys - todo
      invariant forall h :: h in ordered ==> ListsInOrder(ordered[h], bodies[h], order)
    {
      var head :| head in todo;
      var body := SortByKey(bodies[head], positions);
      forall i, j | 0 <= i < j < |body|
        ensures Precedes(order, body[i], body[j])
      {
        assert body[i] in order && body[j] in order && body[i] != body[j];
      }
      ordered := ordered[head := body];
      todo := todo - {head};
    }
  }

  /** The block at `j` is the head, or one of the first `count` blocks of the body leads to it without a back edge. */
  ghost predicate ReachedFrom(p: Procedure, head: nat, body: seq<nat>, count: nat, j: nat)
    requires count <= |body| && j < |body|
  {
    body[j] == head || exists i :: 0 <= i < count && ForwardEdge(p, body[i], body[j])
  }

  /** Each block of the body is reached from the blocks before it. */
  ghost predicate Bordered(p: Procedure, head: nat, body: seq<nat>) {
    forall j: nat :: j < |body| ==> ReachedFrom(p, head, body, j, j)
  }

  /** The border without the current block and with its forward successors in the loop. */
  method MoveBorder(p: Procedure, backEdges: Edges, members: set<nat>, current: nat, border: set<nat>)
    returns (next: set<nat>)
    requires AreBackEdges(p, backEdges) && current < |p.realEdges|
    ensures forall b: nat :: b in next <==>
              (b in border && b != current) || (ForwardEdge(p, current, b) && b in members)
  {
    next := border - {current};
    for k := 0 to |p.realEdges[current]|
      invariant forall b: nat :: b in next <==>
        (b in border && b != current) ||
        (b in p.realEdges[current][..k] && !BackEdge(p, current, b) && b in members)
    {
      var successor := p.realEdges[current][k];
      assert p.realEdges[current][..k + 1] == p.realEdges[current][..k] + [successor];
      if (current, successor) !in backEdges && successor in members {
        next := next + {successor};
      }
    }
    assert p.realEdges[current][..|p.realEdges[current]|] == p.realEdges[current];
  }

  /** The exit blocks of a loop, and whether every block was in the border when its turn came. */
  method ExitBlocks(p: Procedure, isSwitchInt: seq<bool>, backEdges: Edges, depth: nat -> nat, head: nat,
                    headDepth: nat, members: set<nat>, body: seq<nat>) returns (exits: seq<nat>, bordered: bool)
    requires AreBackEdges(p, backEdges)
    requires |isSwitchInt| == |p.realEdges| && forall b :: b in body ==> b < |p.realEdges|
    requires Distinct(body) && forall b :: b in body <==> b in members
    ensures exits == ExitsIn(p, isSwitchInt, depth, headDepth, body)
    ensures bordered <==> Bordered(p, head, body)
  {
    exits, bordered := [], true;
    var border := {head};
    for k := 0 to |body|
      invariant exits == ExitsIn(p, isSwitchInt, depth, headDepth, body[..k])
      invariant bordered <==> forall j: nat :: j < k ==> ReachedFrom(p, head, body, j, j)
      invariant forall j: nat :: k <= j < |body| ==> (body[j] in border <==> ReachedFrom(p, head, body, k, j))
    {
      var current := body[k];
      assert current in body;
      assert body[..k + 1][..k] == body[..k];
      bordered := bordered && current in border;
      var hasExitEdge := exists s :: s in p.realEdges[current] && depth(s) < headDepth;
      if isSwitchInt[current] && hasExitEdge {
        exits := exits + [current];
      }
      border := MoveBorder(p, backEdges, members, current, border);
      forall j: nat | k < j < |body|
        ensures ReachedFrom(p, head, body, k + 1, j) <==>
                ReachedFrom(p, head, body, k, j) || ForwardEdge(p, current, body[j])
      {
      }
    }
    assert body[..|body|] == body;
  }

  /** `b` is in the body of `head` and dominates the sources of those back edges that have been looked at. */
  ghost predicate NonconditionalSoFar(p: Procedure, bodies: Bodies, done: Edges, head: nat, b: nat) {
    head in bodies && b in bodies[head] && forall source: nat :: (source, head) in done ==> Dominates(p, b, source)
  }

  method NonconditionalBlocks(p: Procedure, dominators: seq<set<nat>>, backEdges: Edges, bodies: Bodies)
    returns (blocks: Bodies)
    requires AreDominators(p, dominators)
    requires forall e :: e in backEdges ==> e.0 < |p.edges| && e.1 in bodies
    ensures blocks.Keys == bodies.Keys
    ensures forall h: nat, b: nat :: h in bodies ==>
              (b in blocks[h] <==> NonconditionalSoFar(p, bodies, backEdges, h, b))
  {
    blocks := bodies;
    var todo := backEdges;
    while todo != {}
      invariant todo <= backEdges && blocks.Keys == bodies.Keys
      invariant forall h: nat, b: nat :: h in bodies ==>
        (b in blocks[h] <==> NonconditionalSoFar(p, bodies, backEdges - todo, h, b))
    {
      var edge :| edge in todo;
      var (source, head) := edge;
      ghost var done := backEdges - todo;
      forall h: nat, b: nat
        ensures NonconditionalSoFar(p, bodies, done + {edge}, h, b) <==>
                NonconditionalSoFar(p, bodies, done, h, b) && (h == head ==> b in dominators[source])
      {
      }
      blocks := blocks[head := blocks[head] * dominators[source]];
      todo := todo - {edge};
      assert backEdges - todo == done + {edge};
    }
    assert backEdges - todo == backEdges;
  }

  method AllExitBlocks(p: Procedure, isSwitchInt: seq<bool>, backEdges: Edges, depth: nat -> nat, depths: map<nat, nat>,
                       bodies: Bodies, orderedBodies: map<nat, seq<nat>>)
    returns (exits: map<nat, seq<nat>>, bordered: bool)
    requires AreBackEdges(p, backEdges)
    requires |isSwitchInt| == |p.realEdges| && depths.Keys == bodies.Keys == orderedBodies.Keys
    requires forall h :: h in bodies ==>
               Distinct(orderedBodies[h]) && forall b :: b in orderedBodies[h] <==> b in bodies[h]
    requires forall h, b :: h in bodies && b in bodies[h] ==> b < |p.realEdges|
    ensures exits.Keys == bodies.Keys
    ensures forall h :: h in exits ==> exits[h] == ExitsIn(p, isSwitchInt, depth, depths[h], orderedBodies[h])
    ensures bordered <==> forall h :: h in bodies ==> Bordered(p, h, orderedBodies[h])
  {
    exits, bordered := map[], true;
    var todo := bodies.Keys;
    while todo != {}
      invariant todo <= bodies.Keys && exits.Keys == bodies.Keys - todo
      invariant forall h :: h in exits ==> exits[h] == ExitsIn(p, isSwitchInt, depth, depths[h], orderedBodies[h])
      invariant bordered <==> forall h :: h in exits ==> Bordered(p, h, orderedBodies[h])
    {
      var head :| head in todo;
      var exitBlocks, inBorder :=
        ExitBlocks(p, isSwitchInt, backEdges, depth, head, depths[head], bodies[head], orderedBodies[head]);
      exits := exits[head := exitBlocks];
      bordered := bordered && inBorder;
      todo := todo - {head};
    }
  }

  /** Each head is found in its own loop. */
  ghost predicate HeadsCollected(p: Procedure) {
    forall head: nat :: IsHead(p, head) ==> Collected(p, head, head)
  }

  /** Each head is found in some loop. */
  ghost predicate HeadsFound(p: Procedure) {
    forall head: nat :: IsHead(p, head) ==> exists outer: nat :: Collected(p, outer, head)
  }

  lemma HeadEnclosedExactly(p: Procedure, backEdges: Edges, bodies: Bodies, b: nat)
    requires AreBackEdges(p, backEdges) && AreBodies(p, backEdges, bodies)
    ensures !InNoBody(bodies, b) <==> exists outer: nat :: Collected(p, outer, b)
  {
    if h :| h in bodies && b in bodies[h] {
      assert IsBody(p, backEdges, h, bodies[h]);
      CollectedByAll(p, backEdges, h, b);
    }
    if outer: nat :| Collected(p, outer, b) {
      CollectedByAll(p, backEdges, outer, b);
      var source: nat :| (source, outer) in backEdges && WalksBack(p, outer, source, b);
      assert IsBody(p, backEdges, outer, bodies[outer]);
    }
  }

  lemma HeadsFoundExactly(p: Procedure, backEdges: Edges, bodies: Bodies)
    requires AreBackEdges(p, backEdges) && AreBodies(p, backEdges, bodies)
    ensures HeadsFound(p) <==> forall h :: h in bodies ==> !InNoBody(bodies, h)
  {
    forall h: nat
      ensures h in bodies <==> IsHead(p, h)
      ensures !InNoBody(bodies, h) <==> exists outer: nat :: Collected(p, outer, h)
    {
      HeadsAreKeys(p, backEdges, bodies, h);
      HeadEnclosedExactly(p, backEdges, bodies, h);
    }
  }

  /** Depths and lists of heads; there is no result exactly if some head is in no body. */
  method FindNesting(p: Procedure, ghost backEdges: Edges, bodies: Bodies)
    returns (r: Option<(map<nat, nat>, map<nat, seq<nat>>)>)
    requires AreBackEdges(p, backEdges) && AreBodies(p, backEdges, bodies)
    ensures r.None? <==> !HeadsFound(p)
    ensures r.Some? ==> DescribesNesting(bodies, r.value.0, r.value.1)
  {
    HeadsFoundExactly(p, backEdges, bodies);
    var enclosing := FindEnclosingHeads(bodies);
    var depths := HeadDepths(bodies, enclosing);
    if depths.None? {
      return None;
    }
    var lists := SortEnclosing(bodies, enclosing, depths.value);
    NestingDescribed(bodies, enclosing, depths.value, lists);
    return Some((depths.value, lists));
  }

  lemma NestingDescribed(bodies: Bodies, enclosing: map<nat, set<nat>>, depths: map<nat, nat>,
                         lists: map<nat, seq<nat>>)
    requires forall b: nat :: b in enclosing <==> !InNoBody(bodies, b)
    requires forall b :: b in enclosing ==> enclosing[b] == EnclosingOf(bodies, b)
    requires depths.Keys == bodies.Keys && forall h :: h in bodies ==> h in enclosing && depths[h] == |enclosing[h]|
    requires lists.Keys == enclosing.Keys
    requires forall b :: b in lists ==> ListsByDepth(lists[b], EnclosingOf(bodies, b), depths)
    ensures DescribesNesting(bodies, depths, lists)
  {
    forall b: nat | b !in lists
      ensures EnclosingOf(bodies, b) == {}
    {
      assert InNoBody(bodies, b);
    }
  }

  lemma HeadsAreKeys(p: Procedure, backEdges: Edges, bodies: Bodies, head: nat)
    requires AreBackEdges(p, backEdges) && AreBodies(p, backEdges, bodies)
    ensures head in bodies <==> IsHead(p, head)
  {
    if head in bodies {
      var source: nat :| (source, head) in backEdges;
      assert BackEdge(p, source, head);
    }
    if IsHead(p, head) {
      var source: nat :| BackEdge(p, source, head);
      assert (source, head) in backEdges;
    }
  }

  lemma BodyBlocks(p: Procedure, backEdges: Edges, bodies: Bodies)
    requires WellFormed(p) && AreBackEdges(p, backEdges) && AreBodies(p, backEdges, bodies)
    ensures forall h, b :: h in bodies && b in bodies[h] ==> b < |p.edges|
    ensures forall e :: e in backEdges ==> e.0 < |p.edges| && e.1 in bodies
  {
    forall h | h in bodies
      ensures forall b :: b in bodies[h] ==> b < |p.edges|
    {
      assert IsBody(p, backEdges, h, bodies[h]);
    }
    forall e | e in backEdges
      ensures e.0 < |p.edges| && e.1 in bodies
    {
      assert (e.0, e.1) in backEdges;
      assert BackEdge(p, e.0, e.1);
    }
  }

  lemma NonconditionalExact(p: Procedure, backEdges: Edges, bodies: Bodies, head: nat, b: nat)
    requires AreBackEdges(p, backEdges)
    ensures NonconditionalSoFar(p, bodies, backEdges, head, b) <==> IsNonconditional(p, bodies, head, b)
  {
  }

  /** The computation fails at the lookup of a head that is in no body, or in the sort of an irreducible procedure. */
  datatype Outcome = Loops(info: LoopInfo) | HeadNotFound | NotADag

  /** Compute the loop structure, and whether the blocks of each body were in the border in turn. */
  method Compute(p: Procedure, predecessors: Graph, dominators: seq<set<nat>>, isSwitchInt: seq<bool>)
    returns (r: Outcome, bordered: bool)
    requires WellFormed(p) && ArePredecessors(p, predecessors) && AreDominators(p, dominators)
    requires |isSwitchInt| == |p.edges|
    ensures r.HeadNotFound? <==> !HeadsFound(p)
    ensures r.NotADag? <==> HeadsFound(p) && Irreducible(p)
    ensures r.Loops? ==> Describes(p, isSwitchInt, r.info)
    ensures r.Loops? ==>
              (bordered <==> forall h :: h in r.info.loopBodies ==> Bordered(p, h, r.info.orderedLoopBodies[h]))
  {
    var backEdges := FindBackEdges(p, dominators);
    var bodies := CollectBodies(p, predecessors, backEdges);
    var nesting := FindNesting(p, backEdges, bodies);
    if nesting.None? {
      return HeadNotFound, true;
    }
    var (depths, lists) := nesting.value;
    var depth := (b: nat) => LoopDepth(lists, depths, b);
    var order := OrderBasicBlocks(p, backEdges, depth);
    if order.None? {
      return NotADag, true;
    }
    BodyBlocks(p, backEdges, bodies);
    var orderedBodies := OrderBodies(bodies, order.value);
    var exits;
    exits, bordered := AllExitBlocks(p, isSwitchInt, backEdges, depth, depths, bodies, orderedBodies);
    var nonconditional := NonconditionalBlocks(p, dominators, backEdges, bodies);
    forall h: nat, b: nat { NonconditionalExact(p, backEdges, bodies, h, b); }
    var info := LoopInfo(depths, bodies, orderedBodies, lists, exits, nonconditional, backEdges, order.value);
    assert DescribesExits(p, isSwitchInt, info);
    r := Loops(info);
  }

  lemma CollectedByAll(p: Procedure, backEdges: Edges, head: nat, b: nat)
    requires AreBackEdges(p, backEdges)
    ensures CollectedBy(p, backEdges, head, b) <==> Collected(p, head, b)
  {
    if CollectedBy(p, backEdges, head, b) {
      var source: nat :| (source, head) in backEdges && WalksBack(p, head, source, b);
      assert BackEdge(p, source, head);
    }
    if Collected(p, head, b) {
      var source: nat :| BackEdge(p, source, head) && WalksBack(p, head, source, b);
      assert (source, head) in backEdges;
    }
  }

  lemma FirstEdge(g: Graph, path: seq<nat>)
    requires IsPath(g, path)
    ensures |path| > 1 ==> Edge(g, path[0], path[1])
  {
    assert |path| > 1 ==> Edge(g, path[1 - 1], path[1]);
  }

  /** The smallest failing input for the lookup: a back edge whose source is not reached along real edges. */
  lemma HeadWithoutBody()
    ensures var p := Procedure([[1], [0]], [[], [0]]); WellFormed(p) && IsHead(p, 0) && !HeadsFound(p)
  {
    var p := Procedure([[1], [0]], [[], [0]]);
    assert PathFromTo(p.edges, [0], 0, 0) && PathFromTo(p.edges, [0, 1], 0, 1);
    assert WellFormed(p);
    assert Dominates(p, 0, 1);
    assert BackEdge(p, 1, 0);
    assert IsHead(p, 0);
    forall outer: nat
      ensures !Collected(p, outer, 0)
    {
      forall source: nat | BackEdge(p, source, outer)
        ensures !WalksBack(p, outer, source, 0)
      {
        forall path
          ensures !PathFromTo(p.realEdges, path, 0, source)
        {
          if IsPath(p.realEdges, path) {
            FirstEdge(p.realEdges, path);
          }
        }
      }
    }
    assert !exists outer: nat :: Collected(p, outer, 0);
  }
}
