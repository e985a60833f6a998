/** The domain of reaching definitions: a second instance of the solver, with union as its join. */
module ReachingDefinitions {
  import opened Wrappers
  import opened FiniteSets
  import opened Places
  import opened Mir
  import opened A = AbstractStates

  datatype DefLocation = Assignment(location: Location) | Parameter(index: nat)

  /** The definitions that may still reach, by local. A local without any has no entry. */
  type Defs = map<nat, set<DefLocation>>

  function DefsOf(s: Defs, local: nat): set<DefLocation> {
    if local in s then s[local] else {}
  }

  function AsLocal(p: Place): Option<nat> {
    if p.projection == [] then Some(p.local) else None
  }

  function JoinedDefs(s: Defs, t: Defs): Defs {
    map local | local in s.Keys + t.Keys :: DefsOf(s, local) + DefsOf(t, local)
  }

  predicate IsArgument(argCount: nat, local: nat) {
    1 <= local <= argCount
  }

  /** The parameters reach the start of the body. */
  function InitialDefs(argCount: nat): Defs {
    map local: nat | 1 <= local <= argCount && IsArgument(argCount, local) :: {Parameter(local - 1)}
  }

  /** A whole local is overwritten at `location`; assignments to its parts are not definitions. */
  function Overwritten(s: Defs, target: Place, location: Location): Defs {
    match AsLocal(target)
    case Some(local) => s[local := {Assignment(location)}]
    case None => s
  }

  /** A whole local may or may not have been overwritten at `location`. */
  function MaybeOverwritten(s: Defs, target: Place, location: Location): Defs {
    match AsLocal(target)
    case Some(local) => s[local := DefsOf(s, local) + {Assignment(location)}]
    case None => s
  }

  function StatementDefs(s: Defs, statement: Statement, location: Location): Defs {
    match statement
    case Assign(target, _) => Overwritten(s, target, location)
    case OtherStatement => s
  }

  function CallEntry(s: Defs, destination: Option<(Place, nat)>, location: Location): seq<(nat, Defs)> {
    match destination
    case None => []
    case Some((place, target)) => [(target, Overwritten(s, place, location))]
  }

  function CleanupEntry(s: Defs, destination: Option<(Place, nat)>, cleanup: Option<nat>,
                        location: Location): seq<(nat, Defs)>
  {
    match cleanup
    case None => []
    case Some(b) =>
      match destination
      case None => [(b, s)]
      case Some((place, _)) => [(b, MaybeOverwritten(s, place, location))]
  }

  function TerminatorDefs(s: Defs, t: Terminator, location: Location): seq<(nat, Defs)> {
    match t
    case Call(_, _, destination, cleanup) =>
      CallEntry(s, destination, location) + CleanupEntry(s, destination, cleanup, location)
    case _ => seq(|Successors(t)|, (i: nat) requires i < |Successors(t)| => (Successors(t)[i], s))
  }

  function StatementResult(body: Body, loc: Location, s: Defs): A.Result<Defs> {
    if loc.block < |body.blocks| && loc.index < |body.blocks[loc.block].statements|
    then Ok(StatementDefs(s, body.blocks[loc.block].statements[loc.index], loc))
    else Ok(s)
  }

  function TerminatorResult(body: Body, loc: Location, s: Defs): A.Result<seq<(nat, Defs)>> {
    if loc.block >= |body.blocks| then Ok([])
    else if body.blocks[loc.block].terminator.InlineAsm? then Err(UnsupportedStatement(loc))
    else Ok(TerminatorDefs(s, body.blocks[loc.block].terminator, loc))
  }

  function DefsDomain(body: Body): Domain<Defs> {
    Domain(
      map[],
      InitialDefs(body.argCount),
      (s: Defs, t: Defs) => JoinedDefs(s, t),
      (loc: Location, s: Defs) => StatementResult(body, loc, s),
      (loc: Location, s: Defs) => TerminatorResult(body, loc, s))
  }

  // ----- definitions as pairs -----

  ghost predicate Has(s: Defs, local: nat, d: DefLocation) {
    local in s && d in s[local]
  }

  ghost function Pairs(s: Defs): set<(nat, DefLocation)> {
    set local, d | local in s && d in s[local] :: (local, d)
  }

  ghost predicate NoneEmpty(s: Defs) {
    forall local :: local in s ==> s[local] != {}
  }

  ghost predicate IsDefinition(body: Body, d: DefLocation) {
    match d
    case Assignment(loc) => loc.block < |body.blocks| && loc.index <= |body.blocks[loc.block].statements|
    case Parameter(index) => index < body.argCount
  }

  ghost function AllAssignments(body: Body): set<DefLocation> {
    set b: nat, i: nat | 0 <= b < |body.blocks| && 0 <= i <= |body.blocks[b].statements| :: Assignment(Location(b, i))
  }

  ghost function AllParameters(body: Body): set<DefLocation> {
    set i: nat | 0 <= i < body.argCount :: Parameter(i)
  }

  ghost function AllPairs(body: Body): set<(nat, DefLocation)> {
    set local: nat, d | 0 <= local < |body.locals| && d in AllAssignments(body) + AllParameters(body) :: (local, d)
  }

  lemma AllPairsExact(body: Body, local: nat, d: DefLocation)
    ensures (local, d) in AllPairs(body) <==> local < |body.locals| && IsDefinition(body, d)
  {
    if local < |body.locals| && IsDefinition(body, d) {
      match d {
        case Assignment(loc) =>
          assert d == Assignment(Location(loc.block, loc.index));
          assert d in AllAssignments(body);
        case Parameter(i) =>
          assert d in AllParameters(body);
      }
    }
  }

  ghost predicate DefsValid(body: Body, s: Defs) {
    NoneEmpty(s) && forall local: nat, d :: Has(s, local, d) ==> local < |body.locals| && IsDefinition(body, d)
  }

  ghost function DefsLaws(body: Body): Laws<Defs> {
    Laws(
      (s: Defs) => DefsValid(body, s),
      (s: Defs) => if |Pairs(s)| <= |AllPairs(body)| then |AllPairs(body)| - |Pairs(s)| else 0,
      |AllPairs(body)| + 1)
  }

  /** Every definition in `s` is one in `t`. */
  ghost predicate Included(s: Defs, t: Defs) {
    forall local: nat, d :: Has(s, local, d) ==> Has(t, local, d)
  }

  lemma SameDefs(s: Defs, t: Defs)
    requires forall local :: local in s <==> local in t
    requires Included(s, t) && Included(t, s)
    ensures s == t
  {
    forall local: nat | local in s
      ensures s[local] == t[local]
    {
      forall d
        ensures d in s[local] <==> d in t[local]
      {
        assert Has(s, local, d) <==> Has(t, local, d);
      }
    }
  }

  lemma SameIfNoneEmpty(s: Defs, t: Defs)
    requires NoneEmpty(s) && NoneEmpty(t)
    requires Included(s, t) && Included(t, s)
    ensures s == t
  {
    forall local: nat
      ensures local in s <==> local in t
    {
      if local in s {
        var d :| d in s[local];
        assert Has(s, local, d);
      }
      if local in t {
        var d :| d in t[local];
        assert Has(t, local, d);
      }
    }
    SameDefs(s, t);
  }

  lemma JoinedHas(s: Defs, t: Defs)
    ensures forall local :: local in JoinedDefs(s, t) <==> local in s || local in t
    ensures forall local: nat, d :: Has(JoinedDefs(s, t), local, d) <==> Has(s, local, d) || Has(t, local, d)
  {
  }

  lemma JoinedValid(body: Body, s: Defs, t: Defs)
    requires DefsValid(body, s) && DefsValid(body, t)
    ensures DefsValid(body, JoinedDefs(s, t))
    ensures Included(s, JoinedDefs(s, t))
    ensures Included(JoinedDefs(s, t), s) ==> JoinedDefs(s, t) == s
  {
    JoinedHas(s, t);
    if Included(JoinedDefs(s, t), s) {
      SameIfNoneEmpty(JoinedDefs(s, t), s);
    }
  }

  lemma JoinAlgebra(s: Defs, t: Defs)
    ensures JoinedDefs(s, t) == JoinedDefs(t, s)
    ensures JoinedDefs(s, s) == s
    ensures JoinedDefs(map[], s) == s
  {
    JoinedHas(s, t);
    JoinedHas(t, s);
    SameDefs(JoinedDefs(s, t), JoinedDefs(t, s));
    JoinedHas(s, s);
    SameDefs(JoinedDefs(s, s), s);
    JoinedHas(map[], s);
    SameDefs(JoinedDefs(map[], s), s);
  }

  lemma JoinAssociative(s: Defs, t: Defs, u: Defs)
    ensures JoinedDefs(JoinedDefs(s, t), u) == JoinedDefs(s, JoinedDefs(t, u))
  {
    JoinedHas(s, t);
    JoinedHas(t, u);
    JoinedHas(JoinedDefs(s, t), u);
    JoinedHas(s, JoinedDefs(t, u));
    SameDefs(JoinedDefs(JoinedDefs(s, t), u), JoinedDefs(s, JoinedDefs(t, u)));
  }

  lemma IncludedPairs(s: Defs, t: Defs)
    ensures Included(s, t) <==> Pairs(s) <= Pairs(t)
  {
    forall local: nat, d
      ensures Has(s, local, d) <==> (local, d) in Pairs(s)
      ensures Has(t, local, d) <==> (local, d) in Pairs(t)
    {
    }
  }

  lemma JoinRaisesRank(body: Body, s: Defs, t: Defs)
    requires DefsValid(body, s) && DefsValid(body, t)
    ensures var laws := DefsLaws(body);
            && laws.rank(s) < laws.height
            && (JoinedDefs(s, t) == s || laws.rank(JoinedDefs(s, t)) < laws.rank(s))
  {
    JoinedValid(body, s, t);
    PairsBounded(body, s);
    PairsBounded(body, JoinedDefs(s, t));
    SubsetSize(Pairs(s), AllPairs(body));
    SubsetSize(Pairs(JoinedDefs(s, t)), AllPairs(body));
    IncludedPairs(s, JoinedDefs(s, t));
    IncludedPairs(JoinedDefs(s, t), s);
    SubsetSize(Pairs(s), Pairs(JoinedDefs(s, t)));
  }

  lemma PairsBounded(body: Body, s: Defs)
    requires DefsValid(body, s)
    ensures Pairs(s) <= AllPairs(body)
  {
    forall p | p in Pairs(s)
      ensures p in AllPairs(body)
    {
      assert Has(s, p.0, p.1);
      AllPairsExact(body, p.0, p.1);
    }
  }

  lemma DefsJoinLaws(body: Body)
    requires BodyValid(body)
    ensures JoinLaws(DefsDomain(body), DefsLaws(body))
  {
    var dom, laws := DefsDomain(body), DefsLaws(body);
    forall local: nat, d
      ensures Has(InitialDefs(body.argCount), local, d) ==> local < |body.locals| && IsDefinition(body, d)
    {
    }
    forall s, t
      ensures PairLaw(dom, laws, s, t)
    {
      if DefsValid(body, s) && DefsValid(body, t) {
        JoinAlgebra(s, t);
        JoinedValid(body, s, t);
        JoinRaisesRank(body, s, t);
      }
    }
    forall s, t, u
      ensures TripleLaw(dom, laws, s, t, u)
    {
      JoinAssociative(s, t, u);
    }
  }

  // ----- the effects keep valid states and their joins -----

  lemma OverwrittenHas(s: Defs, target: Place, location: Location)
    ensures forall local :: local in Overwritten(s, target, location) <==> local in s || AsLocal(target) == Some(local)
    ensures forall local :: local in MaybeOverwritten(s, target, location) <==>
            local in s || AsLocal(target) == Some(local)
    ensures forall local: nat, d :: Has(Overwritten(s, target, location), local, d) <==>
                                      || (AsLocal(target) == Some(local) && d == Assignment(location))
                                      || (AsLocal(target) != Some(local) && Has(s, local, d))
    ensures forall local: nat, d :: Has(MaybeOverwritten(s, target, location), local, d) <==>
                                      Has(s, local, d) || (AsLocal(target) == Some(local) && d == Assignment(location))
  {
  }

  lemma OverwrittenValid(body: Body, s: Defs, target: Place, location: Location)
    requires DefsValid(body, s) && target.local < |body.locals| && IsDefinition(body, Assignment(location))
    ensures DefsValid(body, Overwritten(s, target, location)) && DefsValid(body, MaybeOverwritten(s, target, location))
  {
    OverwrittenHas(s, target, location);
  }

  lemma OverwrittenKeepsJoin(s: Defs, t: Defs, target: Place, location: Location)
    ensures Overwritten(JoinedDefs(s, t), target, location) ==
            JoinedDefs(Overwritten(s, target, location), Overwritten(t, target, location))
  {
    var joined := JoinedDefs(s, t);
    var o, o' := Overwritten(s, target, location), Overwritten(t, target, location);
    JoinedHas(s, t);
    OverwrittenHas(joined, target, location);
    OverwrittenHas(s, target, location);
    OverwrittenHas(t, target, location);
    JoinedHas(o, o');
    SameDefs(Overwritten(joined, target, location), JoinedDefs(o, o'));
  }

  lemma MaybeOverwrittenKeepsJoin(s: Defs, t: Defs, target: Place, location: Location)
    ensures MaybeOverwritten(JoinedDefs(s, t), target, location) ==
            JoinedDefs(MaybeOverwritten(s, target, location), MaybeOverwritten(t, target, location))
  {
    var joined := JoinedDefs(s, t);
    var m, m' := MaybeOverwritten(s, target, location), MaybeOverwritten(t, target, location);
    JoinedHas(s, t);
    OverwrittenHas(joined, target, location);
    OverwrittenHas(s, target, location);
    OverwrittenHas(t, target, location);
    JoinedHas(m, m');
    SameDefs(MaybeOverwritten(joined, target, location), JoinedDefs(m, m'));
  }

  lemma DefsTerminatorLaw(body: Body, s: Defs, t: Defs, terminator: Terminator, loc: Location)
    requires TerminatorValid(body.locals, terminator) && IsDefinition(body, Assignment(loc))
    requires DefsValid(body, s) && DefsValid(body, t)
    ensures TargetsJoin(DefsDomain(body), DefsLaws(body), TerminatorDefs(s, terminator, loc),
                        TerminatorDefs(t, terminator, loc),
                        TerminatorDefs(JoinedDefs(s, t), terminator, loc))
  {
    if terminator.Call? {
      CallLaw(body, s, t, terminator.destination, loc);
      CleanupLaw(body, s, t, terminator.destination, terminator.cleanup, loc);
    }
  }

  lemma CallLaw(body: Body, s: Defs, t: Defs, destination: Option<(Place, nat)>, loc: Location)
    requires destination.Some? ==> Valid(body.locals, destination.value.0)
    requires IsDefinition(body, Assignment(loc)) && DefsValid(body, s) && DefsValid(body, t)
    ensures TargetsJoin(DefsDomain(body), DefsLaws(body), CallEntry(s, destination, loc),
                        CallEntry(t, destination, loc),
                        CallEntry(JoinedDefs(s, t), destination, loc))
  {
    if destination.Some? {
      var place := destination.value.0;
      PlaceLocal(body.locals, place);
      OverwrittenValid(body, s, place, loc);
      OverwrittenValid(body, t, place, loc);
      OverwrittenKeepsJoin(s, t, place, loc);
    }
  }

  lemma CleanupLaw(body: Body, s: Defs, t: Defs, destination: Option<(Place, nat)>, cleanup: Option<nat>, loc: Location)
    requires destination.Some? ==> Valid(body.locals, destination.value.0)
    requires IsDefinition(body, Assignment(loc)) && DefsValid(body, s) && DefsValid(body, t)
    ensures TargetsJoin(DefsDomain(body), DefsLaws(body), CleanupEntry(s, destination, cleanup, loc),
                        CleanupEntry(t, destination, cleanup, loc),
                        CleanupEntry(JoinedDefs(s, t), destination, cleanup, loc))
  {
    if destination.Some? {
      var place := destination.value.0;
      PlaceLocal(body.locals, place);
      OverwrittenValid(body, s, place, loc);
      OverwrittenValid(body, t, place, loc);
      MaybeOverwrittenKeepsJoin(s, t, place, loc);
    }
  }

  lemma DefsEntriesAreSuccessors(s: Defs, t: Terminator, loc: Location)
    ensures |TerminatorDefs(s, t, loc)| == |Successors(t)|
    ensures forall i :: 0 <= i < |Successors(t)| ==> TerminatorDefs(s, t, loc)[i].0 == Successors(t)[i]
  {
  }

  lemma PlaceLocal(locals: Locals, p: Place)
    requires Valid(locals, p)
    ensures p.local < |locals|
  {
    PrefixValid(locals, p, Root(p.local));
  }

  lemma DefsLawful(body: Body)
    requires BodyValid(body)
    ensures Distributive(DefsDomain(body), CfgOf(body), DefsLaws(body))
    ensures Monotone(DefsDomain(body), CfgOf(body), DefsLaws(body))
  {
    var dom, cfg, laws := DefsDomain(body), CfgOf(body), DefsLaws(body);
    DefsJoinLaws(body);
    forall loc, s, t
      ensures KeepsJoinAt(dom, cfg, laws, loc, s, t)
    {
      if loc.block < |body.blocks| && DefsValid(body, s) && DefsValid(body, t) {
        DefsKeepJoinAt(body, loc, s, t);
      }
    }
    DistributiveIsMonotone(dom, cfg, laws);
  }

  lemma DefsStatementLaw(body: Body, s: Defs, t: Defs, statement: Statement, loc: Location)
    requires StatementValid(body.locals, statement) && IsDefinition(body, Assignment(loc))
    requires DefsValid(body, s) && DefsValid(body, t)
    ensures DefsValid(body, StatementDefs(s, statement, loc)) && DefsValid(body, StatementDefs(t, statement, loc))
    ensures StatementDefs(JoinedDefs(s, t), statement, loc) ==
            JoinedDefs(StatementDefs(s, statement, loc), StatementDefs(t, statement, loc))
  {
    if statement.Assign? {
      PlaceLocal(body.locals, statement.target);
      OverwrittenValid(body, s, statement.target, loc);
      OverwrittenValid(body, t, statement.target, loc);
      OverwrittenKeepsJoin(s, t, statement.target, loc);
    }
  }

  lemma DefsKeepJoinAt(body: Body, loc: Location, s: Defs, t: Defs)
    requires BodyValid(body) && loc.block < |body.blocks| && DefsValid(body, s) && DefsValid(body, t)
    ensures KeepsJoinAt(DefsDomain(body), CfgOf(body), DefsLaws(body), loc, s, t)
  {
    var block := body.blocks[loc.block];
    if loc.index < |block.statements| {
      assert block.statements[loc.index] in block.statements;
      DefsStatementLaw(body, s, t, block.statements[loc.index], loc);
    } else if loc.index == |block.statements| {
      DefsTerminatorKeepsJoin(body, loc, s, t);
    }
  }

  lemma DefsTerminatorKeepsJoin(body: Body, loc: Location, s: Defs, t: Defs)
    requires BodyValid(body) && loc.block < |body.blocks| && DefsValid(body, s) && DefsValid(body, t)
    requires loc.index == |body.blocks[loc.block].statements|
    ensures TerminatorLaw(DefsDomain(body), DefsLaws(body), Successors(body.blocks[loc.block].terminator),
                          TerminatorResult(body, loc, s), TerminatorResult(body, loc, t),
                          TerminatorResult(body, loc, JoinedDefs(s, t)))
  {
    var terminator := body.blocks[loc.block].terminator;
    if !terminator.InlineAsm? {
      DefsTerminatorLaw(body, s, t, terminator, loc);
      DefsEntriesAreSuccessors(s, terminator, loc);
    }
  }

  // ----- the state that is updated in place -----

  class ReachingDefsState {
    var reachingDefs: Defs

    constructor (defs: Defs)
      ensures reachingDefs == defs
    {
      reachingDefs := defs;
    }

    method Join(other: ReachingDefsState)
      modifies this
      ensures reachingDefs == JoinedDefs(old(reachingDefs), old(other.reachingDefs))
    {
      ghost var mine := reachingDefs;
      var others := other.reachingDefs;
      var todo := others.Keys;
      while todo != {}
        invariant todo <= others.Keys
        invariant reachingDefs.Keys == mine.Keys + (others.Keys - todo)
        invariant forall local :: local in reachingDefs ==>
                                    reachingDefs[local] == if local in todo then DefsOf(mine, local)
                                                           else DefsOf(mine, local) + DefsOf(others, local)
      {
        var local :| local in todo;
        reachingDefs := reachingDefs[local := DefsOf(reachingDefs, local) + others[local]];
        todo := todo - {local};
      }
      assert reachingDefs == JoinedDefs(mine, others);
    }

    method ApplyStatementEffect(statement: Statement, location: Location)
      modifies this
      ensures reachingDefs == StatementDefs(old(reachingDefs), statement, location)
    {
      match statement {
        case Assign(target, _) =>
          match AsLocal(target) {
            case Some(local) => reachingDefs := reachingDefs[local := {Assignment(location)}];
            case None =>
          }
        case OtherStatement =>
      }
    }

    method AfterCall(destination: (Place, nat), location: Location) returns (entry: (nat, Defs))
      ensures [entry] == CallEntry(reachingDefs, Some(destination), location)
    {
      var destDefs := reachingDefs;
      match AsLocal(destination.0) {
        case Some(local) => destDefs := destDefs[local := {Assignment(location)}];
        case None =>
      }
      entry := (destination.1, destDefs);
    }

    method AfterCleanup(destination: Option<(Place, nat)>, cleanup: nat, location: Location)
      returns (entry: (nat, Defs))
      ensures [entry] == CleanupEntry(reachingDefs, destination, Some(cleanup), location)
    {
      var cleanupDefs := reachingDefs;
      if destination.Some? {
        match AsLocal(destination.value.0) {
          case Some(local) => cleanupDefs := cleanupDefs[local := DefsOf(cleanupDefs, local) + {Assignment(location)}];
          case None =>
        }
      }
      entry := (cleanup, cleanupDefs);
    }

    /** The states of the outgoing edges; this state stays as it is. */
    method ApplyTerminatorEffect(t: Terminator, location: Location) returns (r: A.Result<seq<(nat, Defs)>>)
      ensures r == if t.InlineAsm? then Err(UnsupportedStatement(location))
                   else Ok(TerminatorDefs(reachingDefs, t, location))
    {
      var entries: seq<(nat, Defs)> := [];
      if t.InlineAsm? {
        return Err(UnsupportedStatement(location));
      } else if t.Call? {
        if t.destination.Some? {
          var entry := AfterCall(t.destination.value, location);
          entries := [entry];
        }
        assert entries == CallEntry(reachingDefs, t.destination, location);
        if t.cleanup.Some? {
          var entry := AfterCleanup(t.destination, t.cleanup.value, location);
          entries := entries + [entry];
        }
        assert entries == CallEntry(reachingDefs, t.destination, location)
                          + CleanupEntry(reachingDefs, t.destination, t.cleanup, location);
        assert entries == TerminatorDefs(reachingDefs, t, location);
      } else {
        for i := 0 to |Successors(t)|
          invariant |entries| == i
          invariant forall k :: 0 <= k < i ==> entries[k] == (Successors(t)[k], reachingDefs)
        {
          entries := entries + [(Successors(t)[i], reachingDefs)];
        }
        assert entries == TerminatorDefs(reachingDefs, t, location);
      }
      return Ok(entries);
    }
  }
}
