/** Which loans are active at a location, and which of them expire at it or on an edge out of it. */
module LoanExpiry {
  import opened Wrappers
  import opened AbstractStates
  import opened ControlPoints
  import opened Graphs

  datatype Facts = Facts(
    borrowLiveAt: map<Point, seq<nat>>,
    zombieLiveAt: map<Point, seq<nat>>,
    becomeZombieAt: map<Point, seq<nat>>,
    borrowRegion: seq<(nat, nat, Point)>)

  // ----- active loans -----

  function LiveLoans(facts: Facts, zombie: bool): map<Point, seq<nat>> {
    if zombie then facts.zombieLiveAt else facts.borrowLiveAt
  }

  function AtPoint(loans: map<Point, seq<nat>>, point: Point): seq<nat> {
    if point in loans then loans[point] else []
  }

  predicate IsLive(facts: Facts, zombie: bool, loan: nat, point: Point) {
    loan in AtPoint(LiveLoans(facts, zombie), point)
  }

  predicate BecomesZombie(facts: Facts, loan: nat, loc: Location) {
    loan in AtPoint(facts.becomeZombieAt, Mid(loc))
  }

  /** What the code asserts of the facts: loans are added in the middle of a location, not dropped. */
  ghost predicate StartWithinMid(facts: Facts, zombie: bool, loc: Location) {
    var live := LiveLoans(facts, zombie);
    if Mid(loc) in live then forall l :: l in AtPoint(live, Start(loc)) ==> l in live[Mid(loc)]
    else Start(loc) !in live
  }

  ghost predicate IsActive(facts: Facts, zombie: bool, loan: nat, loc: Location) {
    || IsLive(facts, zombie, loan, Mid(loc))
    || (!zombie && exists r :: r in facts.borrowRegion && r.1 == loan && r.2 == Mid(loc))
  }

  /** No loan is listed twice at a point, as in a relation. */
  ghost predicate ListedOnce(facts: Facts, zombie: bool) {
    forall point: Point :: Distinct(AtPoint(LiveLoans(facts, zombie), point))
  }

  /** The active loans; none if the facts break the assertion. */
  method GetActiveLoans(facts: Facts, loc: Location, zombie: bool) returns (r: Option<seq<nat>>)
    ensures r.Some? <==> StartWithinMid(facts, zombie, loc)
    ensures r.Some? ==>
              forall l :: l in r.value <==>
                || (zombie && l in AtPoint(facts.zombieLiveAt, Mid(loc)))
                || (!zombie && l in AtPoint(facts.borrowLiveAt, Mid(loc)))
                || (!zombie && exists region: nat :: (region, l, Mid(loc)) in facts.borrowRegion)
    ensures r.Some? ==> forall l :: l in r.value <==> IsActive(facts, zombie, l, loc)
    ensures r.Some? && ListedOnce(facts, zombie) ==> Distinct(r.value)
  {
    var live := LiveLoans(facts, zombie);
    var loans := [];
    assert AtPoint(live, Mid(loc)) == if Mid(loc) in live then live[Mid(loc)] else [];
    if Mid(loc) in live {
      loans := live[Mid(loc)];
      var startLoans := AtPoint(live, Start(loc));
      if !(forall l :: l in startLoans ==> l in loans) {
        return None;
      }
    } else if Start(loc) in live {
      return None;
    }
    if !zombie {
      for i := 0 to |facts.borrowRegion|
        invariant forall l :: l in loans <==>
          || IsLive(facts, zombie, l, Mid(loc))
          || exists k :: 0 <= k < i && facts.borrowRegion[k].1 == l && facts.borrowRegion[k].2 == Mid(loc)
        invariant ListedOnce(facts, zombie) ==> Distinct(loans)
      {
        var (_, loan, point) := facts.borrowRegion[i];
        if point == Mid(loc) && loan !in loans {
          loans := loans + [loan];
        }
      }
    }
    return Some(loans);
  }

  // ----- loans that die -----

  ghost predicate DiesBetween(facts: Facts, zombie: bool, loan: nat, loc: Location, next: Location) {
    && IsActive(facts, zombie, loan, loc)
    && !IsLive(facts, zombie, loan, Start(next))
    && !BecomesZombie(facts, loan, loc)
  }

  /** Dying between the locations as a borrow or as a zombie. */
  ghost predicate Reported(facts: Facts, loan: nat, loc: Location, next: Location) {
    DiesBetween(facts, false, loan, loc, next) || DiesBetween(facts, true, loan, loc, next)
  }

  ghost predicate DiesAt(flow: Flow, facts: Facts, zombie: bool, loan: nat, loc: Location)
    requires InBody(flow, loc)
  {
    var successors := GetSuccessors(flow, loc);
    && IsActive(facts, zombie, loan, loc)
    && (forall next :: next in successors ==> !IsLive(facts, zombie, loan, Start(next)))
    && !(successors == [] && IsReturn(flow, loc))
    && !BecomesZombie(facts, loan, loc)
  }

  method GetLoansDyingBetween(flow: Flow, facts: Facts, loc: Location, next: Location, zombie: bool)
    returns (r: Option<seq<nat>>)
    requires InBody(flow, loc) && next in GetSuccessors(flow, loc)
    ensures r.Some? <==> StartWithinMid(facts, zombie, loc)
    ensures r.Some? ==> forall l :: l in r.value <==> DiesBetween(facts, zombie, l, loc, next)
    ensures r.Some? && ListedOnce(facts, zombie) ==> Distinct(r.value)
  {
    var becomingZombie := AtPoint(facts.becomeZombieAt, Mid(loc));
    var active := GetActiveLoans(facts, loc, zombie);
    if active.None? {
      return None;
    }
    var dying := [];
    for i := 0 to |active.value|
      invariant forall l :: l in dying <==> l in active.value[..i] && DiesBetween(facts, zombie, l, loc, next)
      invariant ListedOnce(facts, zombie) ==> Distinct(dying)
    {
      var loan := active.value[i];
      assert loan in active.value;
      assert Distinct(active.value) ==> loan !in active.value[..i];
      if loan !in AtPoint(LiveLoans(facts, zombie), Start(next)) && loan !in becomingZombie {
        dying := dying + [loan];
      }
    }
    assert active.value[..|active.value|] == active.value;
    return Some(dying);
  }

  method GetLoansDyingAt(flow: Flow, facts: Facts, loc: Location, zombie: bool) returns (r: Option<seq<nat>>)
    requires InBody(flow, loc)
    ensures r.Some? <==> StartWithinMid(facts, zombie, loc)
    ensures r.Some? ==> forall l :: l in r.value <==> DiesAt(flow, facts, zombie, l, loc)
    ensures r.Some? && ListedOnce(facts, zombie) ==> Distinct(r.value)
  {
    var successors := GetSuccessors(flow, loc);
    var becomingZombie := AtPoint(facts.becomeZombieAt, Mid(loc));
    var active := GetActiveLoans(facts, loc, zombie);
    if active.None? {
      return None;
    }
    var dying := [];
    for i := 0 to |active.value|
      invariant forall l :: l in dying <==> l in active.value[..i] && DiesAt(flow, facts, zombie, l, loc)
      invariant ListedOnce(facts, zombie) ==> Distinct(dying)
    {
      var loan := active.value[i];
      assert loan in active.value;
      assert Distinct(active.value) ==> loan !in active.value[..i];
      var aliveInSuccessor := exists next :: next in successors &&
                                             loan in AtPoint(LiveLoans(facts, zombie), Start(next));
      if !aliveInSuccessor && !(successors == [] && IsReturn(flow, loc)) && loan !in becomingZombie {
        dying := dying + [loan];
      }
    }
    assert active.value[..|active.value|] == active.value;
    return Some(dying);
  }

  // ----- loans and zombies together -----

  /** The loans that die as borrows, then those that die as zombies, and the latter on their own. */
  method GetAllLoansDyingBetween(flow: Flow, facts: Facts, loc: Location, next: Location)
    returns (r: Option<(seq<nat>, seq<nat>)>)
    requires InBody(flow, loc) && next in GetSuccessors(flow, loc)
    ensures r.Some? <==> StartWithinMid(facts, false, loc) && StartWithinMid(facts, true, loc)
    ensures r.Some? ==> forall l :: l in r.value.0 <==> Reported(facts, l, loc, next)
    ensures r.Some? ==> forall l :: l in r.value.1 <==> DiesBetween(facts, true, l, loc, next)
    ensures r.Some? && ListedOnce(facts, false) && ListedOnce(facts, true) ==>
              (Distinct(r.value.0) <==>
               !exists l :: DiesBetween(facts, false, l, loc, next) && DiesBetween(facts, true, l, loc, next))
  {
    var loans := GetLoansDyingBetween(flow, facts, loc, next, false);
    if loans.None? {
      return None;
    }
    var zombies := GetLoansDyingBetween(flow, facts, loc, next, true);
    if zombies.None? {
      return None;
    }
    AppendedDistinct(loans.value, zombies.value);
    return Some((loans.value + zombies.value, zombies.value));
  }

  method GetAllLoansDyingAt(flow: Flow, facts: Facts, loc: Location) returns (r: Option<(seq<nat>, seq<nat>)>)
    requires InBody(flow, loc)
    ensures r.Some? <==> StartWithinMid(facts, false, loc) && StartWithinMid(facts, true, loc)
    ensures r.Some? ==>
              forall l :: l in r.value.0 <==> DiesAt(flow, facts, false, l, loc) || DiesAt(flow, facts, true, l, loc)
    ensures r.Some? ==> forall l :: l in r.value.1 <==> DiesAt(flow, facts, true, l, loc)
    ensures r.Some? && ListedOnce(facts, false) && ListedOnce(facts, true) ==>
              (Distinct(r.value.0) <==>
               !exists l :: DiesAt(flow, facts, false, l, loc) && DiesAt(flow, facts, true, l, loc))
  {
    var loans := GetLoansDyingAt(flow, facts, loc, false);
    if loans.None? {
      return None;
    }
    var zombies := GetLoansDyingAt(flow, facts, loc, true);
    if zombies.None? {
      return None;
    }
    AppendedDistinct(loans.value, zombies.value);
    return Some((loans.value + zombies.value, zombies.value));
  }

  // ----- what the two queries say together -----

  /** A loan made at a location that no longer lives after it dies there, unless it becomes a zombie. */
  lemma IssuedLoanDies(flow: Flow, facts: Facts, region: nat, loan: nat, loc: Location, next: Location)
    requires InBody(flow, loc) && next in GetSuccessors(flow, loc)
    requires (region, loan, Mid(loc)) in facts.borrowRegion
    ensures DiesBetween(facts, false, loan, loc, next) <==>
            loan !in AtPoint(facts.borrowLiveAt, Start(next)) && loan !in AtPoint(facts.becomeZombieAt, Mid(loc))
    ensures DiesAt(flow, facts, false, loan, loc) <==>
            && (forall other :: other in GetSuccessors(flow, loc) ==>
                                  loan !in AtPoint(facts.borrowLiveAt, Start(other)))
            && loan !in AtPoint(facts.becomeZombieAt, Mid(loc))
  {
    assert IsActive(facts, false, loan, loc);
  }

  /** What dies at a location with successors is what dies on every edge out of it. */
  lemma DyingAtIsIntersection(flow: Flow, facts: Facts, zombie: bool, loan: nat, loc: Location)
    requires InBody(flow, loc) && GetSuccessors(flow, loc) != []
    ensures DiesAt(flow, facts, zombie, loan, loc) <==>
            forall next :: next in GetSuccessors(flow, loc) ==> DiesBetween(facts, zombie, loan, loc, next)
  {
    var first := GetSuccessors(flow, loc)[0];
    assert first in GetSuccessors(flow, loc);
  }
}
