/**
 Zombie loans: loans that were killed, because the borrowed place was overwritten, while the
 reference made by them can still be used. They are derived from the facts of the borrow checker
 by rules, which are applied until nothing new is found.
 */
module Zombies {
  import opened ControlPoints

  /** Regions and loans are numbered. */
  type Required = set<(nat, nat, Point)>

  datatype Facts = Facts(
    required: Required,
    killed: set<(nat, Point)>,
    edges: set<(Point, Point)>,
    live: set<(nat, Point)>,
    subsets: set<(nat, nat, Point)>)

  // ----- the rules -----

  ghost predicate StartsAt(f: Facts, r: nat, l: nat, p: Point, q: Point) {
    (r, l, p) in f.required && (l, p) in f.killed && (p, q) in f.edges && (r, q) in f.live
  }

  /** A region that requires the loan where it is killed and that is live after it. */
  function Started(f: Facts): Required {
    set t, e | t in f.required && (t.1, t.2) in f.killed && e in f.edges && e.0 == t.2 &&
               (t.0, e.1) in f.live :: (t.0, t.1, e.1)
  }

  lemma InStarted(f: Facts, r: nat, l: nat, q: Point)
    ensures (r, l, q) in Started(f) <==> exists p: Point :: StartsAt(f, r, l, p, q)
  {
    if (r, l, q) in Started(f) {
      var t, e :| t in f.required && (t.1, t.2) in f.killed && e in f.edges && e.0 == t.2 &&
                  (t.0, e.1) in f.live && (t.0, t.1, e.1) == (r, l, q);
      assert t == (r, l, t.2) && e == (t.2, q);
      assert StartsAt(f, r, l, t.2, q);
    }
    if p: Point :| StartsAt(f, r, l, p, q) {
      assert (r, l, p).0 == r && (p, q).1 == q;
    }
  }

  function AlongSubsets(f: Facts, z: Required): Required {
    set t, u | t in z && u in f.subsets && u.0 == t.0 && u.2 == t.2 :: (u.1, t.1, t.2)
  }

  lemma InAlongSubsets(f: Facts, z: Required, r: nat, l: nat, p: Point)
    ensures (r, l, p) in AlongSubsets(f, z) <==> exists r1: nat :: (r1, l, p) in z && (r1, r, p) in f.subsets
  {
    if (r, l, p) in AlongSubsets(f, z) {
      var t, u :| t in z && u in f.subsets && u.0 == t.0 && u.2 == t.2 && (u.1, t.1, t.2) == (r, l, p);
      assert t == (t.0, l, p) && u == (t.0, r, p);
    }
    if r1: nat :| (r1, l, p) in z && (r1, r, p) in f.subsets {
      assert (r1, l, p).1 == l && (r1, r, p).1 == r;
    }
  }

  function AlongEdges(f: Facts, z: Required): Required {
    set t, e | t in z && e in f.edges && e.0 == t.2 && (t.0, e.1) in f.live :: (t.0, t.1, e.1)
  }

  lemma InAlongEdges(f: Facts, z: Required, r: nat, l: nat, q: Point)
    ensures (r, l, q) in AlongEdges(f, z) <==>
            (r, q) in f.live && exists p: Point :: (r, l, p) in z && (p, q) in f.edges
  {
    if (r, l, q) in AlongEdges(f, z) {
      var t, e :| t in z && e in f.edges && e.0 == t.2 && (t.0, e.1) in f.live && (t.0, t.1, e.1) == (r, l, q);
      assert t == (r, l, t.2) && e == (t.2, q);
    }
    if p: Point :| (r, q) in f.live && (r, l, p) in z && (p, q) in f.edges {
      assert (r, l, p).0 == r && (p, q).1 == q;
    }
  }

  ghost predicate Closed(f: Facts, z: Required) {
    Started(f) <= z && AlongSubsets(f, z) <= z && AlongEdges(f, z) <= z
  }

  ghost predicate IsLeast(f: Facts, z: Required) {
    Closed(f, z) && forall other :: Closed(f, other) ==> z <= other
  }

  // ----- the derivation -----

  ghost function Regions(f: Facts): set<nat> {
    (set t | t in f.required :: t.0) + (set t | t in f.subsets :: t.1)
  }

  ghost function Loans(f: Facts): set<nat> {
    set t | t in f.required :: t.1
  }

  ghost function Targets(f: Facts): set<Point> {
    set e | e in f.edges :: e.1
  }

  ghost function AllTriples(f: Facts): Required {
    set r, l, p | r in Regions(f) && l in Loans(f) && p in Targets(f) :: (r, l, p)
  }

  lemma RulesBounded(f: Facts, z: Required)
    requires z <= AllTriples(f)
    ensures Started(f) <= AllTriples(f) && AlongSubsets(f, z) <= AllTriples(f) && AlongEdges(f, z) <= AllTriples(f)
  {
    forall t | t in Started(f)
      ensures t in AllTriples(f)
    {
      InStarted(f, t.0, t.1, t.2);
      var p: Point :| StartsAt(f, t.0, t.1, p, t.2);
      assert (t.0, t.1, p).0 in Regions(f) && (t.0, t.1, p).1 in Loans(f) && (p, t.2).1 in Targets(f);
    }
    forall t | t in AlongSubsets(f, z)
      ensures t in AllTriples(f)
    {
      InAlongSubsets(f, z, t.0, t.1, t.2);
      var r: nat :| (r, t.1, t.2) in z && (r, t.0, t.2) in f.subsets;
      assert (r, t.0, t.2).1 in Regions(f);
    }
    forall t | t in AlongEdges(f, z)
      ensures t in AllTriples(f)
    {
      InAlongEdges(f, z, t.0, t.1, t.2);
      var p: Point :| (t.0, t.1, p) in z && (p, t.2) in f.edges;
      assert (p, t.2).1 in Targets(f);
    }
  }

  lemma RulesMonotone(f: Facts, z: Required, other: Required)
    requires z <= other && Closed(f, other)
    ensures AlongSubsets(f, z) <= other && AlongEdges(f, z) <= other
  {
    forall t | t in AlongSubsets(f, z)
      ensures t in other
    {
      InAlongSubsets(f, z, t.0, t.1, t.2);
      InAlongSubsets(f, other, t.0, t.1, t.2);
      assert t in AlongSubsets(f, other);
    }
    forall t | t in AlongEdges(f, z)
      ensures t in other
    {
      InAlongEdges(f, z, t.0, t.1, t.2);
      InAlongEdges(f, other, t.0, t.1, t.2);
      assert t in AlongEdges(f, other);
    }
  }

  function LiveAt(f: Facts, z: Required): set<(nat, Point)> {
    set t | t in z && (t.0, t.2) in f.live :: (t.1, t.2)
  }

  lemma InLiveAt(f: Facts, z: Required, l: nat, p: Point)
    ensures (l, p) in LiveAt(f, z) <==> exists r: nat :: (r, l, p) in z && (r, p) in f.live
  {
    if (l, p) in LiveAt(f, z) {
      var t :| t in z && (t.0, t.2) in f.live && (t.1, t.2) == (l, p);
      assert t == (t.0, l, p);
    }
    if r: nat :| (r, l, p) in z && (r, p) in f.live {
      assert (r, l, p).1 == l;
    }
  }

  function BecomesAt(f: Facts): set<(nat, Point)> {
    set t, e | t in f.required && (t.1, t.2) in f.killed && e in f.edges && e.0 == t.2 &&
               (t.0, e.1) in f.live :: (t.1, t.2)
  }

  lemma InBecomesAt(f: Facts, l: nat, p: Point)
    ensures (l, p) in BecomesAt(f) <==> exists r: nat, q: Point :: StartsAt(f, r, l, p, q)
  {
    if (l, p) in BecomesAt(f) {
      var t, e :| t in f.required && (t.1, t.2) in f.killed && e in f.edges && e.0 == t.2 &&
                  (t.0, e.1) in f.live && (t.1, t.2) == (l, p);
      assert t == (t.0, l, p) && e == (p, e.1);
      assert StartsAt(f, t.0, l, p, e.1);
    }
    if r: nat, q: Point :| StartsAt(f, r, l, p, q) {
      assert (r, l, p).1 == l && (p, q).0 == p;
    }
  }

  /** Apply the rules until the relation no longer changes. */
  method DeriveZombieRequires(f: Facts)
    returns (zombieRequires: Required, zombieLiveAt: set<(nat, Point)>, becomeZombieAt: set<(nat, Point)>)
    ensures IsLeast(f, zombieRequires)
    ensures zombieLiveAt == LiveAt(f, zombieRequires)
    ensures becomeZombieAt == BecomesAt(f)
  {
    zombieRequires := {};
    var changed := true;
    while changed
      invariant zombieRequires <= AllTriples(f)
      invariant forall other :: Closed(f, other) ==> zombieRequires <= other
      invariant !changed ==> Closed(f, zombieRequires)
      decreases AllTriples(f) - zombieRequires, changed
    {
      RulesBounded(f, zombieRequires);
      forall other | Closed(f, other)
        ensures AlongSubsets(f, zombieRequires) <= other && AlongEdges(f, zombieRequires) <= other
      {
        RulesMonotone(f, zombieRequires, other);
      }
      var next := zombieRequires + Started(f) + AlongSubsets(f, zombieRequires) + AlongEdges(f, zombieRequires);
      changed := next != zombieRequires;
      zombieRequires := next;
    }
    zombieLiveAt := LiveAt(f, zombieRequires);
    becomeZombieAt := BecomesAt(f);
  }

  // ----- what the relation means -----

  /** A region at a point. */
  type Stage = (nat, Point)

  ghost predicate Step(f: Facts, a: Stage, b: Stage) {
    || (a.1 == b.1 && (a.0, b.0, b.1) in f.subsets)
    || (a.0 == b.0 && (a.1, b.1) in f.edges && b in f.live)
  }

  /** How a zombie gets to the last stage, from the point where the loan is killed. */
  ghost predicate IsTrace(f: Facts, l: nat, trace: seq<Stage>) {
    && trace != []
    && (exists p: Point :: StartsAt(f, trace[0].0, l, p, trace[0].1))
    && forall i :: 0 < i < |trace| ==> Step(f, trace[i - 1], trace[i])
  }

  ghost predicate TraceTo(f: Facts, l: nat, trace: seq<Stage>, end: Stage) {
    IsTrace(f, l, trace) && trace[|trace| - 1] == end
  }

  lemma {:induction false} TraceIsRequired(f: Facts, z: Required, l: nat, trace: seq<Stage>)
    requires Closed(f, z) && IsTrace(f, l, trace)
    ensures (trace[|trace| - 1].0, l, trace[|trace| - 1].1) in z
    decreases |trace|
  {
    var k := |trace| - 1;
    var b := trace[k];
    if k == 0 {
      InStarted(f, b.0, l, b.1);
    } else {
      TraceIsRequired(f, z, l, trace[..k]);
      var a := trace[k - 1];
      assert Step(f, a, b);
      if a.1 == b.1 && (a.0, b.0, b.1) in f.subsets {
        InAlongSubsets(f, z, b.0, l, b.1);
      } else {
        InAlongEdges(f, z, b.0, l, b.1);
      }
    }
  }

  ghost predicate Traced(f: Facts, r: nat, l: nat, p: Point) {
    exists trace :: TraceTo(f, l, trace, (r, p))
  }

  lemma TraceExtends(f: Facts, l: nat, a: Stage, b: Stage)
    requires Traced(f, a.0, l, a.1) && Step(f, a, b)
    ensures Traced(f, b.0, l, b.1)
  {
    var trace :| TraceTo(f, l, trace, (a.0, a.1));
    var more := trace + [b];
    assert more[0] == trace[0];
    forall i | 0 < i < |more|
      ensures Step(f, more[i - 1], more[i])
    {
      assert i < |trace| ==> Step(f, trace[i - 1], trace[i]);
    }
    assert TraceTo(f, l, more, (b.0, b.1));
  }

  ghost function TracedTriples(f: Facts): Required {
    set t | t in AllTriples(f) && Traced(f, t.0, t.1, t.2)
  }

  lemma StartedIsTraced(f: Facts, t: (nat, nat, Point))
    requires t in Started(f)
    ensures Traced(f, t.0, t.1, t.2)
  {
    InStarted(f, t.0, t.1, t.2);
    var trace := [(t.0, t.2)];
    var p: Point :| StartsAt(f, t.0, t.1, p, t.2);
    assert StartsAt(f, trace[0].0, t.1, p, trace[0].1);
    assert TraceTo(f, t.1, trace, (t.0, t.2));
  }

  lemma SubsetIsTraced(f: Facts, t: (nat, nat, Point))
    requires t in AlongSubsets(f, TracedTriples(f))
    ensures Traced(f, t.0, t.1, t.2)
  {
    InAlongSubsets(f, TracedTriples(f), t.0, t.1, t.2);
    var r: nat :| (r, t.1, t.2) in TracedTriples(f) && (r, t.0, t.2) in f.subsets;
    TraceExtends(f, t.1, (r, t.2), (t.0, t.2));
  }

  lemma EdgeIsTraced(f: Facts, t: (nat, nat, Point))
    requires t in AlongEdges(f, TracedTriples(f))
    ensures Traced(f, t.0, t.1, t.2)
  {
    InAlongEdges(f, TracedTriples(f), t.0, t.1, t.2);
    var p: Point :| (t.0, t.1, p) in TracedTriples(f) && (p, t.2) in f.edges;
    TraceExtends(f, t.1, (t.0, p), (t.0, t.2));
  }

  lemma TracedClosed(f: Facts)
    ensures Closed(f, TracedTriples(f))
  {
    var z := TracedTriples(f);
    RulesBounded(f, z);
    forall t | t in Started(f)
      ensures t in z
    {
      StartedIsTraced(f, t);
    }
    forall t | t in AlongSubsets(f, z)
      ensures t in z
    {
      SubsetIsTraced(f, t);
    }
    forall t | t in AlongEdges(f, z)
      ensures t in z
    {
      EdgeIsTraced(f, t);
    }
  }

  /** The derived relation holds exactly what a trace from a kill leads to. */
  lemma RequiredIffTraced(f: Facts, z: Required, r: nat, l: nat, p: Point)
    requires IsLeast(f, z)
    ensures (r, l, p) in z <==> Traced(f, r, l, p)
  {
    TracedClosed(f);
    if Traced(f, r, l, p) {
      var trace :| TraceTo(f, l, trace, (r, p));
      TraceIsRequired(f, z, l, trace);
    }
  }

  // ----- where zombies are live -----

  /** The region takes the loan along every edge out of the point on whose other end the region is live. */
  ghost predicate Carries(f: Facts, z: Required, r: nat, l: nat, p: Point) {
    (r, l, p) in z || ((r, l, p) in f.required && (l, p) in f.killed)
  }

  ghost predicate CarriedTo(f: Facts, z: Required, l: nat, q: Point) {
    exists p: Point, r: nat :: (p, q) in f.edges && (r, q) in f.live && Carries(f, z, r, l, p)
  }

  lemma {:induction false} TraceIsCarried(f: Facts, z: Required, l: nat, trace: seq<Stage>)
    requires Closed(f, z) && IsTrace(f, l, trace)
    ensures CarriedTo(f, z, l, trace[|trace| - 1].1)
    decreases |trace|
  {
    var k := |trace| - 1;
    var b := trace[k];
    if k == 0 {
      var p: Point :| StartsAt(f, b.0, l, p, b.1);
      assert Carries(f, z, b.0, l, p);
    } else {
      var a := trace[k - 1];
      assert Step(f, a, b);
      TraceIsCarried(f, z, l, trace[..k]);
      if a.1 != b.1 {
        TraceIsRequired(f, z, l, trace[..k]);
        assert Carries(f, z, b.0, l, a.1);
      }
    }
  }

  /** A zombie is live exactly where some live region is entered along an edge with the loan. */
  lemma LiveExactly(f: Facts, z: Required, l: nat, q: Point)
    requires IsLeast(f, z)
    ensures (l, q) in LiveAt(f, z) <==> CarriedTo(f, z, l, q)
  {
    InLiveAt(f, z, l, q);
    if r: nat :| (r, l, q) in z && (r, q) in f.live {
      RequiredIffTraced(f, z, r, l, q);
      var trace :| TraceTo(f, l, trace, (r, q));
      TraceIsCarried(f, z, l, trace);
    }
    if p: Point, r: nat :| (p, q) in f.edges && (r, q) in f.live && Carries(f, z, r, l, p) {
      InAlongEdges(f, z, r, l, q);
      InStarted(f, r, l, q);
      assert (r, l, p) in z || StartsAt(f, r, l, p, q);
    }
  }

  // ----- paths of points -----

  ghost predicate IsPointPath(f: Facts, path: seq<Point>) {
    |path| > 1 && forall i :: 0 < i < |path| ==> (path[i - 1], path[i]) in f.edges
  }

  lemma {:induction false} TraceFollowsPath(f: Facts, l: nat, trace: seq<Stage>) returns (path: seq<Point>)
    requires IsTrace(f, l, trace)
    ensures IsPointPath(f, path) && path[|path| - 1] == trace[|trace| - 1].1
    ensures (l, path[0]) in BecomesAt(f)
    ensures (l, path[0]) in f.killed && exists r: nat :: (r, l, path[0]) in f.required
    decreases |trace|
  {
    var k := |trace| - 1;
    if k == 0 {
      var p: Point :| StartsAt(f, trace[0].0, l, p, trace[0].1);
      path := [p, trace[0].1];
      InBecomesAt(f, l, p);
    } else {
      path := TraceFollowsPath(f, l, trace[..k]);
      assert Step(f, trace[k - 1], trace[k]);
      if trace[k - 1].1 != trace[k].1 {
        path := path + [trace[k].1];
      }
    }
  }

  /** A zombie that is live has become one before: it was killed where a region required it, on the way here. */
  lemma LiveZombieWasKilled(f: Facts, z: Required, l: nat, p: Point) returns (path: seq<Point>)
    requires IsLeast(f, z) && (l, p) in LiveAt(f, z)
    ensures IsPointPath(f, path) && path[|path| - 1] == p
    ensures (l, path[0]) in BecomesAt(f)
    ensures (l, path[0]) in f.killed && exists r: nat :: (r, l, path[0]) in f.required
  {
    InLiveAt(f, z, l, p);
    var r: nat :| (r, l, p) in z && (r, p) in f.live;
    RequiredIffTraced(f, z, r, l, p);
    var trace :| TraceTo(f, l, trace, (r, p));
    path := TraceFollowsPath(f, l, trace);
  }

  /** A loan that becomes a zombie is a live zombie at the next point on some edge. */
  lemma BecomingIsLiveNext(f: Facts, z: Required, l: nat, p: Point) returns (q: Point)
    requires IsLeast(f, z) && (l, p) in BecomesAt(f)
    ensures (p, q) in f.edges && (l, q) in LiveAt(f, z)
  {
    InBecomesAt(f, l, p);
    var r: nat, next: Point :| StartsAt(f, r, l, p, next);
    q := next;
    InStarted(f, r, l, q);
    InLiveAt(f, z, l, q);
  }
}
