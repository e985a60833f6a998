/**
 Dominance and natural loops. Dominance is over all edges of a body, loops are made of its
 real edges: those that are neither imaginary nor taken when unwinding.
 */
module NaturalLoops {
  import opened FiniteSets
  import opened Graphs
  import opened TopologicalSort

  const START: nat := 0

  datatype Procedure = Procedure(edges: Graph, realEdges: Graph)

  /** Real edges are edges, and every block can be reached from the start block. */
  ghost predicate WellFormed(p: Procedure) {
    && 0 < |p.edges| == |p.realEdges|
    && IsGraph(p.edges) && IsGraph(p.realEdges)
    && (forall a: nat, b: nat :: Edge(p.realEdges, a, b) ==> Edge(p.edges, a, b))
    && forall b: nat :: b < |p.edges| ==> Reaches(p.edges, START, b)
  }

  ghost predicate Dominates(p: Procedure, a: nat, b: nat) {
    forall path :: PathFromTo(p.edges, path, START, b) ==> a in path
  }

  ghost predicate BackEdge(p: Procedure, source: nat, head: nat) {
    Edge(p.realEdges, source, head) && Dominates(p, head, source)
  }

  ghost predicate IsHead(p: Procedure, head: nat) {
    exists source :: BackEdge(p, source, head)
  }

  /** A real path from `b` to a back-edge source, not through `head`. */
  ghost predicate BodyPath(p: Procedure, head: nat, b: nat, path: seq<nat>) {
    IsPath(p.realEdges, path) && path[0] == b && BackEdge(p, End(path), head) && head !in path
  }

  /** The natural loop of `head`. */
  ghost predicate InLoop(p: Procedure, head: nat, b: nat) {
    IsHead(p, head) && (b == head || exists path :: BodyPath(p, head, b, path))
  }

  /** Every block of a natural loop can be reached from its head along real edges. */
  ghost predicate LoopsConnected(p: Procedure) {
    forall head: nat, b: nat :: InLoop(p, head, b) ==> Reaches(p.realEdges, head, b)
  }

  // ----- dominance -----

  lemma RealPathIsPath(p: Procedure, path: seq<nat>)
    requires WellFormed(p) && IsPath(p.realEdges, path)
    ensures IsPath(p.edges, path)
  {
    forall i | 0 < i < |path|
      ensures Edge(p.edges, path[i - 1], path[i])
    {
      assert Edge(p.realEdges, path[i - 1], path[i]);
    }
  }

  /** What does not dominate `b` can be avoided on the way to `b`. */
  lemma AvoidingPath(p: Procedure, a: nat, b: nat) returns (path: seq<nat>)
    requires !Dominates(p, a, b)
    ensures PathFromTo(p.edges, path, START, b) && a !in path
  {
    path :| PathFromTo(p.edges, path, START, b) && a !in path;
  }

  /** A detour around `a` that reaches `b` and continues avoiding `a` refutes that `a` dominates the end. */
  lemma DominatorOnTail(p: Procedure, a: nat, b: nat, tail: seq<nat>)
    requires WellFormed(p) && IsPath(p.edges, tail) && tail[0] == b
    requires !Dominates(p, a, b) && Dominates(p, a, End(tail))
    ensures a in tail
  {
    var path := AvoidingPath(p, a, b);
    JoinPaths(p.edges, path, tail);
    assert PathFromTo(p.edges, path + tail[1..], START, End(tail));
  }

  lemma StartSimplePath(p: Procedure, b: nat) returns (path: seq<nat>)
    requires WellFormed(p) && b < |p.edges|
    ensures PathFromTo(p.edges, path, START, b) && Distinct(path)
  {
    assert Reaches(p.edges, START, b);
    var any :| PathFromTo(p.edges, any, START, b);
    path := SimplePath(p.edges, any);
  }

  lemma DominanceAntisymmetric(p: Procedure, a: nat, b: nat)
    requires WellFormed(p) && b < |p.edges|
    requires Dominates(p, a, b) && Dominates(p, b, a)
    ensures a == b
  {
    var path := StartSimplePath(p, b);
    var i :| 0 <= i < |path| && path[i] == a;
    SlicePath(p.edges, path, 0, i + 1);
    assert PathFromTo(p.edges, path[..i + 1], START, a);
    assert b in path[..i + 1];
  }

  /** The dominators of a block form a chain. */
  lemma DominatorsComparable(p: Procedure, a: nat, b: nat, m: nat)
    requires WellFormed(p) && m < |p.edges|
    requires Dominates(p, a, m) && Dominates(p, b, m)
    ensures Dominates(p, a, b) || Dominates(p, b, a)
  {
    var path := StartSimplePath(p, m);
    var i :| 0 <= i < |path| && path[i] == a;
    var j :| 0 <= j < |path| && path[j] == b;
    if i <= j {
      LaterIsDominated(p, a, b, path, i, j);
    } else {
      LaterIsDominated(p, b, a, path, j, i);
    }
  }

  lemma LaterIsDominated(p: Procedure, a: nat, b: nat, path: seq<nat>, i: nat, j: nat)
    requires WellFormed(p) && IsPath(p.edges, path) && Distinct(path)
    requires i <= j < |path| && path[i] == a && path[j] == b
    requires Dominates(p, a, End(path))
    ensures Dominates(p, a, b)
  {
    if a != b && !Dominates(p, a, b) {
      SlicePath(p.edges, path, j, |path|);
      DominatorOnTail(p, a, b, path[j..]);
      assert false;
    }
  }

  // ----- the blocks of a loop -----

  lemma InLoopBounds(p: Procedure, head: nat, b: nat)
    requires WellFormed(p) && InLoop(p, head, b)
    ensures head < |p.edges| && b < |p.edges|
  {
    var source :| BackEdge(p, source, head);
    if b != head {
      var path :| BodyPath(p, head, b, path);
    }
  }

  /** The head of a loop dominates every block of the loop. */
  lemma HeadDominates(p: Procedure, head: nat, b: nat)
    requires WellFormed(p) && InLoop(p, head, b)
    ensures Dominates(p, head, b)
  {
    if b != head && !Dominates(p, head, b) {
      var path :| BodyPath(p, head, b, path);
      RealPathIsPath(p, path);
      DominatorOnTail(p, head, b, path);
      assert false;
    }
    if b == head {
      forall path | PathFromTo(p.edges, path, START, b)
        ensures head in path
      {
        assert End(path) in path;
      }
    }
  }

  /** Walking backwards stays in the loop until the head. */
  lemma InLoopBackwards(p: Procedure, head: nat, path: seq<nat>)
    requires WellFormed(p) && IsPath(p.realEdges, path) && head !in path[..|path| - 1]
    requires InLoop(p, head, End(path)) && End(path) != head
    ensures InLoop(p, head, path[0])
  {
    var rest :| BodyPath(p, head, End(path), rest);
    JoinPaths(p.realEdges, path, rest);
    assert path == path[..|path| - 1] + [End(path)];
    assert BodyPath(p, head, path[0], path + rest[1..]);
  }

  /** From an inner head to a block shared with an outer loop there is a way around the outer head. */
  lemma PathAroundOuterHead(p: Procedure, outer: nat, inner: nat, m: nat) returns (path: seq<nat>)
    requires WellFormed(p) && LoopsConnected(p)
    requires InLoop(p, inner, m) && outer != inner && m != outer
    requires !Dominates(p, inner, outer)
    ensures PathFromTo(p.realEdges, path, inner, m) && outer !in path
  {
    assert Reaches(p.realEdges, inner, m);
    path :| PathFromTo(p.realEdges, path, inner, m);
    if outer in path {
      var i := LastOccurrence(path, outer);
      SlicePath(p.realEdges, path, i, |path|);
      path := TailFromInnerHead(p, outer, inner, m, path[i..]);
    }
  }

  /** A path that leaves the outer head for good comes by the inner head. */
  lemma TailFromInnerHead(p: Procedure, outer: nat, inner: nat, m: nat, tail: seq<nat>) returns (path: seq<nat>)
    requires WellFormed(p) && InLoop(p, inner, m) && !Dominates(p, inner, outer)
    requires PathFromTo(p.realEdges, tail, outer, m) && outer !in tail[1..] && outer != inner
    ensures PathFromTo(p.realEdges, path, inner, m) && outer !in path
  {
    RealPathIsPath(p, tail);
    HeadDominates(p, inner, m);
    DominatorOnTail(p, inner, outer, tail);
    var j :| 0 <= j < |tail| && tail[j] == inner;
    SlicePath(p.realEdges, tail, j, |tail|);
    path := tail[j..];
    assert path == tail[1..][j - 1..];
  }

  lemma LastOccurrence(path: seq<nat>, v: nat) returns (i: nat)
    requires v in path
    ensures i < |path| && path[i] == v && v !in path[i + 1..]
  {
    i := |path| - 1;
    while path[i] != v
      invariant i < |path| && v in path[..i + 1] && v !in path[i + 1..]
      decreases i
    {
      assert path[..i + 1] == path[..i] + [path[i]];
      assert path[i..] == [path[i]] + path[i + 1..];
      i := i - 1;
    }
  }

  /** The head of an inner loop that shares a block with an outer loop belongs to the outer loop. */
  lemma InnerHeadInOuter(p: Procedure, outer: nat, inner: nat, m: nat)
    requires WellFormed(p) && LoopsConnected(p)
    requires InLoop(p, outer, m) && InLoop(p, inner, m) && outer != inner
    requires Dominates(p, outer, inner)
    ensures InLoop(p, outer, inner) && m != outer && !Dominates(p, inner, outer)
  {
    InLoopBounds(p, inner, m);
    if Dominates(p, inner, outer) {
      DominanceAntisymmetric(p, outer, inner);
      assert false;
    }
    if m == outer {
      HeadDominates(p, inner, m);
      assert false;
    }
    var path := PathAroundOuterHead(p, outer, inner, m);
    InLoopBackwards(p, outer, path);
  }

  lemma BodyPathInLoop(p: Procedure, head: nat, b: nat, path: seq<nat>, i: nat)
    requires BodyPath(p, head, b, path) && i < |path|
    ensures InLoop(p, head, path[i])
  {
    SlicePath(p.realEdges, path, i, |path|);
    assert BodyPath(p, head, path[i], path[i..]);
  }

  /** Loops with different heads that share a block are strictly nested, the dominating head outside. */
  lemma LoopsNest(p: Procedure, outer: nat, inner: nat, m: nat)
    requires WellFormed(p) && LoopsConnected(p)
    requires InLoop(p, outer, m) && InLoop(p, inner, m) && outer != inner
    requires Dominates(p, outer, inner)
    ensures forall b :: InLoop(p, inner, b) ==> InLoop(p, outer, b)
    ensures InLoop(p, outer, outer) && !InLoop(p, inner, outer)
  {
    InnerHeadInOuter(p, outer, inner, m);
    if InLoop(p, inner, outer) {
      HeadDominates(p, inner, outer);
      assert false;
    }
    forall b | InLoop(p, inner, b) && b != inner
      ensures InLoop(p, outer, b)
    {
      var path :| BodyPath(p, inner, b, path);
      forall i | 0 <= i < |path|
        ensures path[i] != outer
      {
        BodyPathInLoop(p, inner, b, path, i);
      }
      AppendEdge(p.realEdges, path, inner);
      var longer := path + [inner];
      assert longer[..|longer| - 1] == path;
      InLoopBackwards(p, outer, longer);
    }
  }

  /** Any two loops that share a block: one of them strictly contains the other. */
  lemma SharedBlockNests(p: Procedure, h: nat, h': nat, m: nat)
    requires WellFormed(p) && LoopsConnected(p)
    requires InLoop(p, h, m) && InLoop(p, h', m) && h != h'
    ensures || ((forall b :: InLoop(p, h', b) ==> InLoop(p, h, b)) && InLoop(p, h, h) && !InLoop(p, h', h))
            || ((forall b :: InLoop(p, h, b) ==> InLoop(p, h', b)) && InLoop(p, h', h') && !InLoop(p, h, h'))
  {
    InLoopBounds(p, h, m);
    HeadDominates(p, h, m);
    HeadDominates(p, h', m);
    DominatorsComparable(p, h, h', m);
    if Dominates(p, h, h') {
      LoopsNest(p, h, h', m);
    } else {
      LoopsNest(p, h', h, m);
    }
  }

  // ----- nesting depth -----

  /** The heads of the loops around `b`. */
  ghost function EnclosingHeads(p: Procedure, b: nat): set<nat> {
    set h | h in Upto(|p.edges|) && InLoop(p, h, b)
  }

  ghost function HeadDepth(p: Procedure, h: nat): nat {
    |EnclosingHeads(p, h)|
  }

  lemma EnclosingExact(p: Procedure, h: nat, b: nat)
    requires WellFormed(p)
    ensures h in EnclosingHeads(p, b) <==> InLoop(p, h, b)
  {
    UptoSize(|p.edges|);
    if InLoop(p, h, b) {
      InLoopBounds(p, h, b);
    }
  }

  /** What encloses the head of an inner loop is what encloses the head of the outer one, and more. */
  lemma EnclosingGrows(p: Procedure, outer: nat, inner: nat)
    requires WellFormed(p) && LoopsConnected(p)
    requires InLoop(p, outer, inner) && IsHead(p, inner) && outer != inner
    ensures EnclosingHeads(p, outer) < EnclosingHeads(p, inner)
    ensures HeadDepth(p, outer) < HeadDepth(p, inner)
  {
    HeadDominates(p, outer, inner);
    LoopsNest(p, outer, inner, inner);
    forall k | k in EnclosingHeads(p, outer)
      ensures k in EnclosingHeads(p, inner)
    {
      EnclosingExact(p, k, outer);
      EnclosingExact(p, k, inner);
      if k != outer {
        HeadDominates(p, k, outer);
        LoopsNest(p, k, outer, outer);
      }
    }
    EnclosingExact(p, inner, inner);
    EnclosingExact(p, inner, outer);
    SubsetSize(EnclosingHeads(p, outer), EnclosingHeads(p, inner));
  }

  /** The heads around `b`, listed by depth. */
  ghost predicate ListsEnclosing(p: Procedure, b: nat, heads: seq<nat>) {
    && Distinct(heads)
    && (forall h: nat :: h in heads <==> h in EnclosingHeads(p, b))
    && forall i, j :: 0 <= i < j < |heads| ==> HeadDepth(p, heads[i]) <= HeadDepth(p, heads[j])
  }

  lemma EnclosingPair(p: Procedure, b: nat, heads: seq<nat>, i: nat, j: nat)
    requires WellFormed(p) && LoopsConnected(p) && ListsEnclosing(p, b, heads) && i < j < |heads|
    ensures InLoop(p, heads[i], heads[j]) && HeadDepth(p, heads[i]) < HeadDepth(p, heads[j])
    ensures forall m :: InLoop(p, heads[j], m) ==> InLoop(p, heads[i], m)
    ensures InLoop(p, heads[i], heads[i]) && !InLoop(p, heads[j], heads[i])
  {
    assert heads[i] in heads && heads[j] in heads;
    EnclosingExact(p, heads[i], b);
    EnclosingExact(p, heads[j], b);
    SharedBlockNests(p, heads[i], heads[j], b);
    if InLoop(p, heads[j], heads[i]) {
      EnclosingGrows(p, heads[j], heads[i]);
      assert false;
    }
    assert InLoop(p, heads[j], heads[j]);
    EnclosingGrows(p, heads[i], heads[j]);
  }

  /** The list is a chain from the outermost to the innermost loop, and the head at `i` has depth `i + 1`. */
  lemma EnclosingChain(p: Procedure, b: nat, heads: seq<nat>)
    requires WellFormed(p) && LoopsConnected(p) && ListsEnclosing(p, b, heads)
    ensures forall i, j :: 0 <= i < j < |heads| ==>
                             InLoop(p, heads[i], heads[j]) &&
                             forall m :: InLoop(p, heads[j], m) ==> InLoop(p, heads[i], m)
    ensures forall i :: 0 <= i < |heads| ==> HeadDepth(p, heads[i]) == i + 1
  {
    forall i, j | 0 <= i < j < |heads|
      ensures InLoop(p, heads[i], heads[j]) && forall m :: InLoop(p, heads[j], m) ==> InLoop(p, heads[i], m)
    {
      EnclosingPair(p, b, heads, i, j);
    }
    forall i | 0 <= i < |heads|
      ensures HeadDepth(p, heads[i]) == i + 1
    {
      DepthIsPosition(p, b, heads, i);
    }
  }

  lemma EnclosingByPosition(p: Procedure, b: nat, heads: seq<nat>, i: nat, k: nat)
    requires WellFormed(p) && LoopsConnected(p) && ListsEnclosing(p, b, heads) && i < |heads|
    ensures k in EnclosingHeads(p, heads[i]) <==> k in heads[..i + 1]
  {
    var h := heads[i];
    assert h in heads;
    EnclosingExact(p, h, b);
    EnclosingExact(p, k, h);
    EnclosingExact(p, k, b);
    if InLoop(p, k, h) {
      if k != h {
        HeadDominates(p, k, h);
        LoopsNest(p, k, h, h);
      }
      assert k in heads;
      var m :| 0 <= m < |heads| && heads[m] == k;
      if i < m {
        EnclosingPair(p, b, heads, i, m);
      }
      assert heads[..i + 1][m] == k;
    }
    if k in heads[..i + 1] {
      var m :| 0 <= m <= i && heads[m] == k;
      if m < i {
        EnclosingPair(p, b, heads, m, i);
      }
    }
  }

  lemma DepthIsPosition(p: Procedure, b: nat, heads: seq<nat>, i: nat)
    requires WellFormed(p) && LoopsConnected(p) && ListsEnclosing(p, b, heads) && i < |heads|
    ensures HeadDepth(p, heads[i]) == i + 1
  {
    forall k: nat
      ensures k in EnclosingHeads(p, heads[i]) <==> k in Elements(heads[..i + 1])
    {
      EnclosingByPosition(p, b, heads, i, k);
    }
    DistinctSize(heads[..i + 1]);
    assert EnclosingHeads(p, heads[i]) == Elements(heads[..i + 1]);
  }

  // ----- loops without their back edges -----

  /** A real edge that does not return to a loop head. */
  ghost predicate ForwardEdge(p: Procedure, a: nat, b: nat) {
    Edge(p.realEdges, a, b) && !BackEdge(p, a, b)
  }

  ghost predicate IsForwardGraph(p: Procedure, g: Graph) {
    IsGraph(g) && |g| == |p.edges| && forall a: nat, b: nat :: Edge(g, a, b) <==> ForwardEdge(p, a, b)
  }

  ghost function ForwardAmong(p: Procedure, a: nat, targets: seq<nat>): (r: seq<nat>)
    ensures forall b: nat :: b in r <==> b in targets && !BackEdge(p, a, b)
  {
    if targets == [] then []
    else (if BackEdge(p, a, targets[0]) then [] else [targets[0]]) + ForwardAmong(p, a, targets[1..])
  }

  /** The real edges that are no back edges. */
  ghost function ForwardGraph(p: Procedure): (g: Graph)
    requires WellFormed(p)
    ensures IsForwardGraph(p, g)
  {
    seq(|p.edges|, (a: nat) requires a < |p.edges| => ForwardAmong(p, a, p.realEdges[a]))
  }

  ghost predicate SameEdges(g: Graph, h: Graph) {
    |g| == |h| && forall a: nat, b: nat :: Edge(g, a, b) <==> Edge(h, a, b)
  }

  /** Cycles and topological orders depend on the edges only. */
  lemma SameEdgesSameOrders(g: Graph, h: Graph)
    requires SameEdges(g, h)
    ensures HasCycle(g) ==> HasCycle(h)
    ensures forall order :: IsTopological(g, order) ==> IsTopological(h, order)
  {
    if HasCycle(g) {
      var path :| IsPath(g, path) && |path| > 1 && path[0] == End(path);
      assert IsPath(h, path);
    }
  }

  /** On a path without repetition from a loop head into its loop no edge is a back edge. */
  lemma SimplePathIsForward(p: Procedure, head: nat, path: seq<nat>, i: nat)
    requires WellFormed(p) && IsPath(p.realEdges, path) && path[0] == head && Distinct(path)
    requires InLoop(p, head, End(path)) && 0 < i < |path|
    ensures ForwardEdge(p, path[i - 1], path[i])
  {
    var u, v := path[i - 1], path[i];
    assert Edge(p.realEdges, u, v);
    RealPathIsPath(p, path);
    if Dominates(p, v, u) {
      SlicePath(p.edges, path, 0, i);
      SlicePath(p.edges, path, i, |path|);
      if Dominates(p, v, head) {
        if Dominates(p, head, v) {
          DominanceAntisymmetric(p, head, v);
          assert false;
        }
        HeadDominates(p, head, End(path));
        DominatorOnTail(p, head, v, path[i..]);
        assert false;
      }
      DominatorOnTail(p, v, head, path[..i]);
      assert false;
    }
  }

  /** Inside a loop every block can be reached from the head without taking a back edge. */
  lemma ForwardPathInLoop(p: Procedure, g: Graph, head: nat, b: nat) returns (path: seq<nat>)
    requires WellFormed(p) && LoopsConnected(p) && IsForwardGraph(p, g) && InLoop(p, head, b)
    ensures PathFromTo(g, path, head, b)
    ensures b != head ==> |path| > 1 && InLoop(p, head, path[|path| - 2])
  {
    assert Reaches(p.realEdges, head, b);
    var any :| PathFromTo(p.realEdges, any, head, b);
    path := SimplePath(p.realEdges, any);
    forall i | 0 < i < |path|
      ensures Edge(g, path[i - 1], path[i])
    {
      SimplePathIsForward(p, head, path, i);
    }
    if b != head {
      var k := |path| - 2;
      if path[k] != head {
        SlicePath(p.realEdges, path, k, |path|);
        InLoopBackwards(p, head, path[k..]);
      }
    }
  }

  /**
   In a topological order of the forward edges the head of a loop comes before the rest of the loop,
   and each other block of the loop comes after one that leads to it inside the loop.
   */
  lemma HeadComesFirst(p: Procedure, g: Graph, order: seq<nat>, head: nat, i: nat, j: nat) returns (k: nat)
    requires WellFormed(p) && LoopsConnected(p) && IsForwardGraph(p, g) && IsTopological(g, order)
    requires i < |order| && j < |order| && order[i] == head
    requires InLoop(p, head, order[j]) && order[j] != head
    ensures i < j
    ensures k < j && InLoop(p, head, order[k]) && Edge(g, order[k], order[j])
  {
    var path := ForwardPathInLoop(p, g, head, order[j]);
    OrderAlongPath(g, order, path, i, j);
    var before := path[|path| - 2];
    assert Edge(g, path[|path| - 2], path[|path| - 1]);
    assert before in order;
    k :| 0 <= k < |order| && order[k] == before;
  }

  // ----- what the backward walk collects -----

  /** `b` is found by walking backwards from `source`, where `head` stops the walk unless it is the source. */
  ghost predicate WalksBack(p: Procedure, head: nat, source: nat, b: nat) {
    exists path :: PathFromTo(p.realEdges, path, b, source) && Passes(path, head)
  }

  /** `head` is not strictly between the ends of `path`. */
  ghost predicate Passes(path: seq<nat>, head: nat) {
    forall i :: 0 < i < |path| - 1 ==> path[i] != head
  }

  /** `b` is collected for some back edge into `head`. */
  ghost predicate Collected(p: Procedure, head: nat, b: nat) {
    exists source :: BackEdge(p, source, head) && WalksBack(p, head, source, b)
  }

  lemma LoopIsCollected(p: Procedure, head: nat, b: nat)
    requires WellFormed(p) && LoopsConnected(p) && InLoop(p, head, b)
    ensures Collected(p, head, b)
  {
    if b != head {
      var path :| BodyPath(p, head, b, path);
      assert PathFromTo(p.realEdges, path, b, End(path)) && Passes(path, head);
    } else {
      var source :| BackEdge(p, source, head);
      if source == head {
        assert PathFromTo(p.realEdges, [head], head, head) && Passes([head], head);
      } else {
        assert BodyPath(p, head, source, [source]);
        assert Reaches(p.realEdges, head, source);
        var path :| PathFromTo(p.realEdges, path, head, source);
        var i := LastOccurrence(path, head);
        SlicePath(p.realEdges, path, i, |path|);
        assert forall k :: 0 < k < |path[i..]| ==> path[i..][k] == path[i + 1..][k - 1];
        assert PathFromTo(p.realEdges, path[i..], head, source) && Passes(path[i..], head);
      }
    }
  }

  /** Whatever leads to `head` along real edges is dominated by it. */
  ghost predicate LedToOnlyByDominated(p: Procedure, head: nat) {
    forall b :: Reaches(p.realEdges, b, head) ==> Dominates(p, head, b)
  }

  /**
   The walk collects exactly the natural loop, unless the head is the source of one of its own
   back edges and some block outside the loop leads to it.
   */
  lemma CollectedIffInLoop(p: Procedure, head: nat)
    requires WellFormed(p) && LoopsConnected(p) && IsHead(p, head)
    ensures (forall b :: Collected(p, head, b) <==> InLoop(p, head, b)) <==>
            (BackEdge(p, head, head) ==> LedToOnlyByDominated(p, head))
  {
    forall b | InLoop(p, head, b)
      ensures Collected(p, head, b)
    {
      LoopIsCollected(p, head, b);
    }
    if BackEdge(p, head, head) {
      forall b
        ensures Collected(p, head, b) <==> Reaches(p.realEdges, b, head)
        ensures LedToOnlyByDominated(p, head) && Reaches(p.realEdges, b, head) ==> InLoop(p, head, b)
        ensures InLoop(p, head, b) ==> Dominates(p, head, b)
      {
        SelfLoopCollects(p, head, b);
        if InLoop(p, head, b) {
          HeadDominates(p, head, b);
        }
      }
    } else {
      forall b | Collected(p, head, b)
        ensures InLoop(p, head, b)
      {
        var source :| BackEdge(p, source, head) && WalksBack(p, head, source, b);
        var path :| PathFromTo(p.realEdges, path, b, source) && Passes(path, head);
        if b != head {
          assert BodyPath(p, head, b, path);
        }
      }
    }
  }

  /** The first arrival of a path at `v`. */
  lemma FirstArrival(g: Graph, path: seq<nat>) returns (first: seq<nat>)
    requires IsPath(g, path)
    ensures PathFromTo(g, first, path[0], End(path)) && End(path) !in first[..|first| - 1]
    ensures |first| > 1 ==> Edge(g, first[|first| - 2], End(path))
  {
    var v := End(path);
    var i := 0;
    while path[i] != v
      invariant i < |path| && v !in path[..i]
      decreases |path| - i
    {
      assert path[..i + 1] == path[..i] + [path[i]];
      i := i + 1;
    }
    SlicePath(g, path, 0, i + 1);
    first := path[..i + 1];
    assert first[..|first| - 1] == path[..i];
  }

  /** With a self-loop the walk does not stop at the head: it collects whatever leads there. */
  lemma SelfLoopCollects(p: Procedure, head: nat, b: nat)
    requires WellFormed(p) && BackEdge(p, head, head)
    ensures Collected(p, head, b) <==> Reaches(p.realEdges, b, head)
    ensures LedToOnlyByDominated(p, head) && Reaches(p.realEdges, b, head) ==> InLoop(p, head, b)
  {
    if Collected(p, head, b) {
      var source :| BackEdge(p, source, head) && WalksBack(p, head, source, b);
      var path :| PathFromTo(p.realEdges, path, b, source) && Passes(path, head);
      AppendEdge(p.realEdges, path, head);
    }
    if Reaches(p.realEdges, b, head) {
      var path :| PathFromTo(p.realEdges, path, b, head);
      var first := FirstArrival(p.realEdges, path);
      assert Passes(first, head);
      if LedToOnlyByDominated(p, head) && b != head {
        var k := |first| - 1;
        SlicePath(p.realEdges, first, 0, k);
        SlicePath(p.realEdges, first, k - 1, |first|);
        assert Reaches(p.realEdges, first[k - 1], head);
        assert BodyPath(p, head, b, first[..k]);
      }
    }
  }

  /** The smallest failing input: the start block leads to a block with a self-loop. */
  lemma SelfLoopOvercollects()
    ensures var p := Procedure([[1], [1]], [[1], [1]]);
            WellFormed(p) && LoopsConnected(p) && IsHead(p, 1) && Collected(p, 1, 0) && !InLoop(p, 1, 0)
  {
    var p := Procedure([[1], [1]], [[1], [1]]);
    assert PathFromTo(p.edges, [0], 0, 0) && PathFromTo(p.edges, [0, 1], 0, 1);
    assert !Dominates(p, 1, 0);
    assert BackEdge(p, 1, 1);
    assert Passes([0, 1], 1);
    assert WalksBack(p, 1, 1, 0);
    forall head: nat, b: nat | InLoop(p, head, b)
      ensures head == 1 && b == 1 && Reaches(p.realEdges, head, b)
    {
      var source :| BackEdge(p, source, head);
      assert PathFromTo(p.realEdges, [1], 1, 1);
    }
  }
}
