/** Directed graphs given by adjacency lists, their paths and their cycles. */
module Graphs {
  import opened FiniteSets

  type Graph = seq<seq<nat>>

  ghost predicate IsGraph(g: Graph) {
    forall a, b :: 0 <= a < |g| && b in g[a] ==> b < |g|
  }

  predicate Edge(g: Graph, a: nat, b: nat) {
    a < |g| && b in g[a]
  }

  /** A path is not empty; a single node is a path from itself to itself. */
  ghost predicate IsPath(g: Graph, path: seq<nat>) {
    && path != []
    && (forall i :: 0 <= i < |path| ==> path[i] < |g|)
    && forall i :: 0 < i < |path| ==> Edge(g, path[i - 1], path[i])
  }

  function End(path: seq<nat>): nat
    requires path != []
  {
    path[|path| - 1]
  }

  ghost predicate PathFromTo(g: Graph, path: seq<nat>, a: nat, b: nat) {
    IsPath(g, path) && path[0] == a && End(path) == b
  }

  ghost predicate Reaches(g: Graph, a: nat, b: nat) {
    exists path :: PathFromTo(g, path, a, b)
  }

  ghost predicate Distinct<T>(s: seq<T>) {
    forall i, j :: 0 <= i < j < |s| ==> s[i] != s[j]
  }

  ghost predicate HasCycle(g: Graph) {
    exists path :: IsPath(g, path) && |path| > 1 && path[0] == End(path)
  }

  lemma SlicePath(g: Graph, path: seq<nat>, i: nat, j: nat)
    requires IsPath(g, path) && i < j <= |path|
    ensures PathFromTo(g, path[i..j], path[i], path[j - 1])
  {
    var part := path[i..j];
    forall k | 0 < k < |part|
      ensures Edge(g, part[k - 1], part[k])
    {
      assert part[k - 1] == path[i + k - 1] && part[k] == path[i + k];
      assert Edge(g, path[i + k - 1], path[i + k]);
    }
  }

  /** Two paths that meet, one after the other. */
  lemma JoinPaths(g: Graph, p: seq<nat>, q: seq<nat>)
    requires IsPath(g, p) && IsPath(g, q) && End(p) == q[0]
    ensures PathFromTo(g, p + q[1..], p[0], End(q))
    ensures forall v :: v in p + q[1..] <==> v in p || v in q
  {
    var all := p + q[1..];
    forall i | 0 <= i < |all|
      ensures all[i] < |g|
      ensures i > 0 ==> Edge(g, all[i - 1], all[i])
    {
      if i >= |p| {
        assert all[i] == q[i - |p| + 1];
        assert all[i - 1] == q[i - |p|];
        assert Edge(g, q[i - |p|], q[i - |p| + 1]);
      }
    }
    forall v | v in q
      ensures v in all
    {
      var i :| 0 <= i < |q| && q[i] == v;
      assert v == all[|p| - 1 + i];
    }
  }

  lemma AppendEdge(g: Graph, p: seq<nat>, b: nat)
    requires IsPath(g, p) && Edge(g, End(p), b) && b < |g|
    ensures PathFromTo(g, p + [b], p[0], b)
  {
    var all := p + [b];
    forall i | 0 < i < |all|
      ensures Edge(g, all[i - 1], all[i])
    {
      assert i < |p| ==> Edge(g, p[i - 1], p[i]);
    }
  }

  /** Cutting out cycles leaves a path without repetition. */
  lemma {:induction false} SimplePath(g: Graph, p: seq<nat>) returns (q: seq<nat>)
    requires IsPath(g, p)
    ensures PathFromTo(g, q, p[0], End(p)) && Distinct(q)
    ensures forall v :: v in q ==> v in p
    decreases |p|
  {
    if Distinct(p) {
      q := p;
    } else {
      var i, j :| 0 <= i < j < |p| && p[i] == p[j];
      SlicePath(g, p, 0, i + 1);
      SlicePath(g, p, j, |p|);
      JoinPaths(g, p[..i + 1], p[j..]);
      q := SimplePath(g, p[..i + 1] + p[j..][1..]);
    }
  }

  lemma {:induction false} DistinctBounded(s: seq<nat>, n: nat)
    requires Distinct(s) && forall i :: 0 <= i < |s| ==> s[i] < n
    ensures |s| <= n
  {
    DistinctSize(s);
    UptoSize(n);
    SubsetSize(Elements(s), Upto(n));
  }

  ghost function Elements<T>(s: seq<T>): set<T> {
    set v | v in s
  }

  lemma {:induction false} DistinctSize<T>(s: seq<T>)
    requires Distinct(s)
    ensures |Elements(s)| == |s|
  {
    if s != [] {
      var k := |s| - 1;
      DistinctSize(s[..k]);
      assert Elements(s) == Elements(s[..k]) + {s[k]};
    }
  }

  /** Two lists without repetition, one after the other, repeat exactly what they have in common. */
  lemma AppendedDistinct<T>(s: seq<T>, t: seq<T>)
    ensures Distinct(s) && Distinct(t) ==> (Distinct(s + t) <==> !exists v :: v in s && v in t)
  {
    var all := s + t;
    if v :| v in s && v in t {
      var i :| 0 <= i < |s| && s[i] == v;
      var j :| 0 <= j < |t| && t[j] == v;
      assert all[i] == all[|s| + j];
    } else if Distinct(s) && Distinct(t) {
      forall i, j | 0 <= i < j < |all|
        ensures all[i] != all[j]
      {
        assert all[i] == if i < |s| then s[i] else t[i - |s|];
        assert all[j] == if j < |s| then s[j] else t[j - |s|];
        assert i < |s| <= j ==> all[i] in s && all[j] in t;
      }
    }
  }

  ghost function Upto(n: nat): set<nat> {
    if n == 0 then {} else Upto(n - 1) + {n - 1}
  }

  lemma {:induction false} UptoSize(n: nat)
    ensures |Upto(n)| == n && forall i: nat :: i in Upto(n) <==> i < n
  {
    if n > 0 {
      UptoSize(n - 1);
    }
  }
}
