/**
 What becomes of loans, when the facts on zombies are those derived from the regions: which losses are
 reported as an expiry, and which are silent.
 */
module LoanFates {
  import opened AbstractStates
  import opened ControlPoints
  import opened Graphs
  import opened LoanExpiry
  import Z = Zombies

  // ----- what becomes of a loan on an edge -----

  /** The facts on zombies are those derived for the points of the body. */
  ghost predicate Derived(flow: Flow, facts: Facts, f: Z.Facts, z: Z.Required) {
    && AreEdges(flow, f.edges)
    && Z.IsLeast(f, z)
    && forall loan: nat, point: Point :: DerivedAt(facts, f, z, loan, point)
  }

  ghost predicate DerivedAt(facts: Facts, f: Z.Facts, z: Z.Required, loan: nat, point: Point) {
    && (loan in AtPoint(facts.zombieLiveAt, point) <==> (loan, point) in Z.LiveAt(f, z))
    && (loan in AtPoint(facts.becomeZombieAt, point) <==> (loan, point) in Z.BecomesAt(f))
  }

  /** The loans of each point, each listed once. */
  ghost predicate Lists(pairs: set<(nat, Point)>, lists: map<Point, seq<nat>>) {
    && (forall point: Point :: Distinct(AtPoint(lists, point)))
    && forall loan: nat, point: Point :: loan in AtPoint(lists, point) <==> (loan, point) in pairs
  }

  method GroupByPoint(pairs: set<(nat, Point)>) returns (lists: map<Point, seq<nat>>)
    ensures Lists(pairs, lists)
  {
    lists := map[];
    var todo := pairs;
    while todo != {}
      invariant todo <= pairs
      invariant Lists(pairs - todo, lists)
    {
      var pair :| pair in todo;
      var (loan, point) := pair;
      AddToList(pairs - todo, lists, loan, point);
      lists := lists[point := AtPoint(lists, point) + [loan]];
      todo := todo - {pair};
      assert pairs - todo == pairs - (todo + {pair}) + {pair};
    }
    assert pairs - todo == pairs;
  }

  lemma AddToList(pairs: set<(nat, Point)>, lists: map<Point, seq<nat>>, loan: nat, point: Point)
    requires Lists(pairs, lists) && (loan, point) !in pairs
    ensures Lists(pairs + {(loan, point)}, lists[point := AtPoint(lists, point) + [loan]])
  {
    var lists' := lists[point := AtPoint(lists, point) + [loan]];
    assert loan !in AtPoint(lists, point);
    forall p: Point
      ensures AtPoint(lists', p) == if p == point then AtPoint(lists, p) + [loan] else AtPoint(lists, p)
    {
    }
  }

  /** Add the facts on zombies to those of the borrow checker. */
  method DeriveFacts(flow: Flow, f: Z.Facts, borrowLiveAt: map<Point, seq<nat>>, borrowRegion: seq<(nat, nat, Point)>)
    returns (facts: Facts, z: Z.Required)
    requires AreEdges(flow, f.edges)
    ensures Derived(flow, facts, f, z) && ListedOnce(facts, true)
    ensures facts.borrowLiveAt == borrowLiveAt && facts.borrowRegion == borrowRegion
  {
    var zombieLiveAt, becomeZombieAt;
    z, zombieLiveAt, becomeZombieAt := Z.DeriveZombieRequires(f);
    var liveLists := GroupByPoint(zombieLiveAt);
    var becomeLists := GroupByPoint(becomeZombieAt);
    facts := Facts(borrowLiveAt, liveLists, becomeLists, borrowRegion);
    assert forall loan: nat, point: Point :: DerivedAt(facts, f, z, loan, point);
  }

  /**
   The loan is killed in a region that is live on some edge out of `p`, but no region that is live at `q` takes
   the loan there.
   */
  ghost predicate Silent(f: Z.Facts, z: Z.Required, loan: nat, p: Point, q: Point) {
    && (exists r: nat, other: Point :: Z.StartsAt(f, r, loan, p, other))
    && !Z.CarriedTo(f, z, loan, q)
  }

  /**
   An active loan that is not live after an edge is reported as dying on it, or is a live zombie there, or is
   lost silently: no query reports it and it is no zombie. The last is so exactly by which regions are live.
   */
  lemma LostSilentlyExactly(flow: Flow, facts: Facts, f: Z.Facts, z: Z.Required, zombie: bool, loan: nat,
                            loc: Location, next: Location)
    requires Derived(flow, facts, f, z)
    requires IsActive(facts, zombie, loan, loc) && !IsLive(facts, zombie, loan, Start(next))
    ensures !DiesBetween(facts, zombie, loan, loc, next) && !IsLive(facts, true, loan, Start(next)) <==>
            Silent(f, z, loan, Mid(loc), Start(next))
    ensures Silent(f, z, loan, Mid(loc), Start(next)) ==> !Reported(facts, loan, loc, next)
  {
    assert DerivedAt(facts, f, z, loan, Mid(loc)) && DerivedAt(facts, f, z, loan, Start(next));
    Z.InBecomesAt(f, loan, Mid(loc));
    Z.LiveExactly(f, z, loan, Start(next));
  }

  /** A loan is lost silently only where control branches, and while it lives on as a zombie on another branch. */
  lemma SilentOnlyAtBranch(flow: Flow, facts: Facts, f: Z.Facts, z: Z.Required, loan: nat, loc: Location,
                           next: Location)
    returns (other: Location)
    requires Derived(flow, facts, f, z) && Silent(f, z, loan, Mid(loc), Start(next))
    ensures InBody(flow, loc) && other in GetSuccessors(flow, loc) && other != next
    ensures IsLive(facts, true, loan, Start(other))
  {
    var r: nat, q: Point :| Z.StartsAt(f, r, loan, Mid(loc), q);
    assert PointEdge(flow, Mid(loc), q);
    other := q.location;
    assert Z.Carries(f, z, r, loan, Mid(loc));
    assert Z.CarriedTo(f, z, loan, Start(other));
    Z.LiveExactly(f, z, loan, Start(other));
    assert DerivedAt(facts, f, z, loan, Start(other));
  }

  // ----- what becomes of a loan on a path -----

  ghost predicate ActiveSomehow(facts: Facts, loan: nat, loc: Location) {
    IsActive(facts, false, loan, loc) || IsActive(facts, true, loan, loc)
  }

  ghost predicate LiveSomehow(facts: Facts, loan: nat, point: Point) {
    IsLive(facts, false, loan, point) || IsLive(facts, true, loan, point)
  }

  /** A path of locations, at each of which the facts pass the assertion for loans and for zombies. */
  ghost predicate IsCheckedPath(flow: Flow, facts: Facts, path: seq<Location>) {
    && path != []
    && (forall i :: 0 <= i < |path| ==> InBody(flow, path[i]))
    && (forall i :: 0 <= i < |path| ==> StartWithinMid(facts, false, path[i]) && StartWithinMid(facts, true, path[i]))
    && forall i :: 0 < i < |path| ==> path[i] in GetSuccessors(flow, path[i - 1])
  }

  /**
   A loan that is active at the first location, and live neither as a borrow nor as a zombie at the last, is lost
   on the first edge after which it is neither. Up to there it is active, by itself or as the zombie that it has
   become, and on that edge it is reported exactly if it is not lost silently.
   */
  lemma {:induction false} LossReportedUnlessSilent(flow: Flow, facts: Facts, f: Z.Facts, z: Z.Required, loan: nat,
                                                    path: seq<Location>) returns (i: nat)
    requires IsCheckedPath(flow, facts, path) && |path| > 1 && Derived(flow, facts, f, z)
    requires ActiveSomehow(facts, loan, path[0]) && !LiveSomehow(facts, loan, Start(path[|path| - 1]))
    ensures i + 1 < |path| && !LiveSomehow(facts, loan, Start(path[i + 1]))
    ensures forall k :: 0 <= k <= i ==> ActiveSomehow(facts, loan, path[k])
    ensures forall k :: 0 < k <= i ==> LiveSomehow(facts, loan, Start(path[k]))
    ensures Reported(facts, loan, path[i], path[i + 1]) <==> !Silent(f, z, loan, Mid(path[i]), Start(path[i + 1]))
    decreases |path|
  {
    if LiveSomehow(facts, loan, Start(path[1])) {
      var rest := path[1..];
      forall k | 0 < k < |rest|
        ensures rest[k] in GetSuccessors(flow, rest[k - 1])
      {
        assert path[k + 1] in GetSuccessors(flow, path[k]);
      }
      LiveIsActive(facts, loan, path[1]);
      var j := LossReportedUnlessSilent(flow, facts, f, z, loan, rest);
      i := j + 1;
      assert rest[j] == path[i] && rest[j + 1] == path[i + 1];
      forall k | 0 <= k <= i
        ensures ActiveSomehow(facts, loan, path[k])
        ensures k > 0 ==> LiveSomehow(facts, loan, Start(path[k]))
      {
        if k > 0 {
          assert path[k] == rest[k - 1];
        }
      }
    } else {
      i := 0;
      LostSilentlyExactly(flow, facts, f, z, !IsActive(facts, false, loan, path[0]), loan, path[0], path[1]);
    }
  }

  lemma LiveIsActive(facts: Facts, loan: nat, loc: Location)
    requires StartWithinMid(facts, false, loc) && StartWithinMid(facts, true, loc)
    ensures LiveSomehow(facts, loan, Start(loc)) ==> ActiveSomehow(facts, loan, loc)
  {
  }

  lemma UnreportedStaysLive(flow: Flow, facts: Facts, f: Z.Facts, z: Z.Required, loan: nat, loc: Location,
                            next: Location)
    requires Derived(flow, facts, f, z) && ActiveSomehow(facts, loan, loc)
    requires !Reported(facts, loan, loc, next) && !Silent(f, z, loan, Mid(loc), Start(next))
    ensures LiveSomehow(facts, loan, Start(next))
  {
    if !LiveSomehow(facts, loan, Start(next)) {
      LostSilentlyExactly(flow, facts, f, z, !IsActive(facts, false, loan, loc), loan, loc, next);
    }
  }

  /** A loan that is neither reported nor lost silently on a path is live throughout and still active at the end. */
  lemma {:induction false} UnreportedStaysActive(flow: Flow, facts: Facts, f: Z.Facts, z: Z.Required, loan: nat,
                                                 path: seq<Location>)
    requires IsCheckedPath(flow, facts, path) && Derived(flow, facts, f, z)
    requires ActiveSomehow(facts, loan, path[0])
    requires forall i :: 0 <= i < |path| - 1 ==>
               !Reported(facts, loan, path[i], path[i + 1]) && !Silent(f, z, loan, Mid(path[i]), Start(path[i + 1]))
    ensures forall k :: 0 < k < |path| ==> LiveSomehow(facts, loan, Start(path[k]))
    ensures ActiveSomehow(facts, loan, path[|path| - 1])
    decreases |path|
  {
    if |path| > 1 {
      var k := |path| - 1;
      UnreportedStaysActive(flow, facts, f, z, loan, path[..k]);
      UnreportedStaysLive(flow, facts, f, z, loan, path[k - 1], path[k]);
      LiveIsActive(facts, loan, path[k]);
    }
  }

  /**
   On a path to where control ends without a return, a loan that is active first is reported on an edge, lost
   silently on one, or reported at the end: there it cannot turn into a zombie any more.
   */
  lemma LoanEndsReportedOrSilent(flow: Flow, facts: Facts, f: Z.Facts, z: Z.Required, loan: nat, path: seq<Location>)
    requires IsCheckedPath(flow, facts, path) && Derived(flow, facts, f, z)
    requires ActiveSomehow(facts, loan, path[0])
    requires var end := path[|path| - 1];
             && end.index == flow.cfg.statements[end.block] && end.block !in flow.returning
             && flow.cfg.successors[end.block] == []
    requires forall i :: 0 <= i < |path| - 1 ==>
               !Reported(facts, loan, path[i], path[i + 1]) && !Silent(f, z, loan, Mid(path[i]), Start(path[i + 1]))
    ensures var end := path[|path| - 1];
            DiesAt(flow, facts, false, loan, end) || DiesAt(flow, facts, true, loan, end)
  {
    var end := path[|path| - 1];
    UnreportedStaysActive(flow, facts, f, z, loan, path);
    Z.InBecomesAt(f, loan, Mid(end));
    assert DerivedAt(facts, f, z, loan, Mid(end));
    forall r: nat, q: Point
      ensures !Z.StartsAt(f, r, loan, Mid(end), q)
    {
      assert !PointEdge(flow, Mid(end), q);
    }
  }

  /** On a path to a return such a loan is still active there, and is not reported either. */
  lemma LoanOutlivesReturn(flow: Flow, facts: Facts, f: Z.Facts, z: Z.Required, loan: nat, path: seq<Location>)
    requires IsCheckedPath(flow, facts, path) && Derived(flow, facts, f, z)
    requires ActiveSomehow(facts, loan, path[0])
    requires forall i :: 0 <= i < |path| - 1 ==>
               !Reported(facts, loan, path[i], path[i + 1]) && !Silent(f, z, loan, Mid(path[i]), Start(path[i + 1]))
    requires var end := path[|path| - 1];
             && end.index == flow.cfg.statements[end.block] && end.block in flow.returning
             && flow.cfg.successors[end.block] == []
    ensures var end := path[|path| - 1];
            && ActiveSomehow(facts, loan, end)
            && !DiesAt(flow, facts, false, loan, end) && !DiesAt(flow, facts, true, loan, end)
  {
    UnreportedStaysActive(flow, facts, f, z, loan, path);
  }

  // ----- a loan that is lost silently -----

  /** A block that branches to two others. */
  function BranchFlow(): Flow {
    Flow(Cfg([0, 0, 0], [[1, 2], [], []], [[], [0], [0]]), {1, 2})
  }

  const BRANCH: Location := Location(0, 0)
  const KEPT: Location := Location(1, 0)
  const OTHER: Location := Location(2, 0)

  /** Loan 7 is killed at the branch, and the region that requires it is live in the first of the two blocks only. */
  function BranchFacts(): Z.Facts {
    Z.Facts(
      {(1, 7, Mid(BRANCH))},
      {(7, Mid(BRANCH))},
      {(Start(BRANCH), Mid(BRANCH)), (Mid(BRANCH), Start(KEPT)), (Mid(BRANCH), Start(OTHER)),
       (Start(KEPT), Mid(KEPT)), (Start(OTHER), Mid(OTHER))},
      {(1, Start(KEPT)), (1, Mid(KEPT))},
      {})
  }

  function BranchZombies(): Z.Required {
    {(1, 7, Start(KEPT)), (1, 7, Mid(KEPT))}
  }

  function BranchLoans(): Facts {
    Facts(map[Start(BRANCH) := [7], Mid(BRANCH) := [7]], map[Start(KEPT) := [7], Mid(KEPT) := [7]],
          map[Mid(BRANCH) := [7]], [])
  }

  lemma BranchEdges()
    ensures WellFormed(BranchFlow().cfg) && AreEdges(BranchFlow(), BranchFacts().edges)
  {
    var flow, edges := BranchFlow(), BranchFacts().edges;
    assert WellFormed(flow.cfg);
    forall a: Point, b: Point
      ensures (a, b) in edges <==> PointEdge(flow, a, b)
    {
      if a.Mid? && a.location == BRANCH {
        var next := GetSuccessors(flow, BRANCH);
        assert next == [KEPT, OTHER];
      }
    }
  }

  lemma BranchZombiesLeast()
    ensures Z.IsLeast(BranchFacts(), BranchZombies())
  {
    var f, z := BranchFacts(), BranchZombies();
    forall other | Z.Closed(f, other)
      ensures z <= other
    {
      assert Z.StartsAt(f, 1, 7, Mid(BRANCH), Start(KEPT));
      Z.InStarted(f, 1, 7, Start(KEPT));
      assert (Start(KEPT), Mid(KEPT)) in f.edges;
      Z.InAlongEdges(f, other, 1, 7, Mid(KEPT));
    }
    forall r: nat, l: nat, p: Point
      ensures (r, l, p) in Z.Started(f) || (r, l, p) in Z.AlongSubsets(f, z) || (r, l, p) in Z.AlongEdges(f, z) ==>
                (r, l, p) in z
    {
      Z.InStarted(f, r, l, p);
      Z.InAlongSubsets(f, z, r, l, p);
      Z.InAlongEdges(f, z, r, l, p);
    }
  }

  lemma BranchLive(loan: nat, point: Point)
    ensures (loan, point) in Z.LiveAt(BranchFacts(), BranchZombies()) <==>
            loan == 7 && (point == Start(KEPT) || point == Mid(KEPT))
  {
    Z.InLiveAt(BranchFacts(), BranchZombies(), loan, point);
    assert (1, 7, Start(KEPT)) in BranchZombies() && (1, 7, Mid(KEPT)) in BranchZombies();
  }

  lemma BranchBecomes(loan: nat, point: Point)
    ensures (loan, point) in Z.BecomesAt(BranchFacts()) <==> loan == 7 && point == Mid(BRANCH)
  {
    Z.InBecomesAt(BranchFacts(), loan, point);
    assert Z.StartsAt(BranchFacts(), 1, 7, Mid(BRANCH), Start(KEPT));
  }

  lemma BranchDerived()
    ensures Derived(BranchFlow(), BranchLoans(), BranchFacts(), BranchZombies())
  {
    BranchEdges();
    BranchZombiesLeast();
    forall loan: nat, point: Point
      ensures DerivedAt(BranchLoans(), BranchFacts(), BranchZombies(), loan, point)
    {
      BranchLive(loan, point);
      BranchBecomes(loan, point);
    }
  }

  /** On the edge to the second block the loan is active first, and then no query reports it and it is no zombie. */
  lemma BranchLosesSilently()
    ensures InBody(BranchFlow(), BRANCH) && OTHER in GetSuccessors(BranchFlow(), BRANCH)
    ensures Derived(BranchFlow(), BranchLoans(), BranchFacts(), BranchZombies())
    ensures forall loc, zombie :: StartWithinMid(BranchLoans(), zombie, loc)
    ensures IsActive(BranchLoans(), false, 7, BRANCH)
    ensures !LiveSomehow(BranchLoans(), 7, Start(OTHER)) && !Reported(BranchLoans(), 7, BRANCH, OTHER)
    ensures Silent(BranchFacts(), BranchZombies(), 7, Mid(BRANCH), Start(OTHER))
  {
    BranchEdges();
    BranchDerived();
    LostSilentlyExactly(BranchFlow(), BranchLoans(), BranchFacts(), BranchZombies(), false, 7, BRANCH, OTHER);
    assert PointEdge(BranchFlow(), Mid(BRANCH), Start(OTHER));
  }
}
