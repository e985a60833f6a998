/** The domain of definitely initialised places, and what the analysis finds out with it. */
module DefinitelyInitialized {
  import opened Wrappers
  import opened FiniteSets
  import opened Places
  import opened CanonicalSets
  import opened PlaceSets
  import opened Mir
  import opened A = AbstractStates

  // ----- the operations, stated on the leaves -----

  function Initialised(locals: Locals, s: set<Place>, p: Place): set<Place> {
    if Valid(locals, p) then Normalise(locals, Leaves(locals, s) + LeavesBelow(locals, p)) else s
  }

  function Uninitialised(locals: Locals, s: set<Place>, p: Place): set<Place> {
    if Valid(locals, p) then Normalise(locals, Leaves(locals, s) - LeavesBelow(locals, p)) else s
  }

  function Joined(locals: Locals, s: set<Place>, t: set<Place>): set<Place> {
    Normalise(locals, Leaves(locals, s) * Leaves(locals, t))
  }

  function BottomPlaces(locals: Locals): set<Place> {
    set n: nat | 0 <= n < |locals| :: Root(n)
  }

  function InitialPlaces(locals: Locals, argCount: nat): set<Place> {
    set n: nat | 1 <= n <= argCount :: Root(n)
  }

  function OperandEffect(locals: Locals, s: set<Place>, operand: Operand): set<Place> {
    if operand.Move? then Uninitialised(locals, s, operand.place) else s
  }

  function OperandsEffect(locals: Locals, s: set<Place>, operands: seq<Operand>): set<Place> {
    if operands == [] then s
    else OperandEffect(locals, OperandsEffect(locals, s, operands[..|operands| - 1]), operands[|operands| - 1])
  }

  function StatementEffect(locals: Locals, s: set<Place>, statement: Statement): set<Place> {
    match statement
    case Assign(target, source) => Initialised(locals, OperandsEffect(locals, s, OperandsOf(source)), target)
    case OtherStatement => s
  }

  function ToAll(targets: seq<nat>, s: set<Place>): seq<(nat, set<Place>)> {
    seq(|targets|, (i: nat) requires i < |targets| => (targets[i], s))
  }

  /** On an error edge nothing is known to be initialised. */
  function ErrorEdge(target: Option<nat>): seq<(nat, set<Place>)> {
    ToAll(Optional(target), {})
  }

  function TerminatorEffect(locals: Locals, s: set<Place>, t: Terminator): seq<(nat, set<Place>)> {
    match t
    case SwitchInt(discr, targets) => ToAll(targets, OperandEffect(locals, s, discr))
    case Drop(place, target, unwind) =>
      [(target, Uninitialised(locals, s, place))] + ErrorEdge(unwind)
    case DropAndReplace(place, value, target, unwind) =>
      [(target, Initialised(locals, OperandEffect(locals, Uninitialised(locals, s, place), value), place))] +
      ErrorEdge(unwind)
    case Call(func, args, destination, cleanup) =>
      var called := OperandEffect(locals, OperandsEffect(locals, s, args), func);
      (match destination
       case None => []
       case Some((place, target)) => [(target, Initialised(locals, called, place))]) + ErrorEdge(cleanup)
    case Assert(cond, target, cleanup) => [(target, OperandEffect(locals, s, cond))] + ErrorEdge(cleanup)
    case Yield(value, resume, drop) => [(resume, OperandEffect(locals, s, value))] + ErrorEdge(drop)
    case InlineAsm(_) => []
    case OtherTerminator(targets) => ToAll(targets, s)
  }

  function StatementResult(body: Body, loc: Location, s: set<Place>): A.Result<set<Place>> {
    if loc.block < |body.blocks| && loc.index < |body.blocks[loc.block].statements|
    then Ok(StatementEffect(body.locals, s, body.blocks[loc.block].statements[loc.index]))
    else Ok(s)
  }

  function TerminatorResult(body: Body, loc: Location, s: set<Place>): A.Result<seq<(nat, set<Place>)>> {
    if loc.block >= |body.blocks| then Ok([])
    else if body.blocks[loc.block].terminator.InlineAsm? then Err(UnsupportedStatement(loc))
    else Ok(TerminatorEffect(body.locals, s, body.blocks[loc.block].terminator))
  }

  function InitDomain(body: Body): Domain<set<Place>> {
    Domain(
      BottomPlaces(body.locals),
      InitialPlaces(body.locals, body.argCount),
      (s: set<Place>, t: set<Place>) => Joined(body.locals, s, t),
      (loc: Location, s: set<Place>) => StatementResult(body, loc, s),
      (loc: Location, s: set<Place>) => TerminatorResult(body, loc, s))
  }

  ghost function InitLaws(locals: Locals): Laws<set<Place>> {
    Laws(
      (s: set<Place>) => Canonical(locals, s),
      (s: set<Place>) => |Leaves(locals, s)|,
      |AllLeaves(locals)| + 1)
  }

  // ----- the operations keep canonical sets and their joins -----

  lemma LeavesBelowAll(locals: Locals, p: Place)
    requires Valid(locals, p)
    ensures LeavesBelow(locals, p) <= AllLeaves(locals)
  {
    forall l | l in LeavesBelow(locals, p)
      ensures l in AllLeaves(locals)
    {
      LeavesBelowExact(locals, p, l);
      AllLeavesExact(locals, l);
    }
  }

  lemma InitialisedExact(locals: Locals, s: set<Place>, p: Place)
    requires Valid(locals, p)
    ensures Canonical(locals, Initialised(locals, s, p))
    ensures Leaves(locals, Initialised(locals, s, p)) == Leaves(locals, s) + LeavesBelow(locals, p)
  {
    LeavesBelowAll(locals, p);
    NormaliseCanonical(locals, Leaves(locals, s) + LeavesBelow(locals, p));
  }

  lemma UninitialisedExact(locals: Locals, s: set<Place>, p: Place)
    requires Valid(locals, p)
    ensures Canonical(locals, Uninitialised(locals, s, p))
    ensures Leaves(locals, Uninitialised(locals, s, p)) == Leaves(locals, s) - LeavesBelow(locals, p)
  {
    NormaliseCanonical(locals, Leaves(locals, s) - LeavesBelow(locals, p));
  }

  lemma JoinedExact(locals: Locals, s: set<Place>, t: set<Place>)
    ensures Canonical(locals, Joined(locals, s, t))
    ensures Leaves(locals, Joined(locals, s, t)) == Leaves(locals, s) * Leaves(locals, t)
  {
    NormaliseCanonical(locals, Leaves(locals, s) * Leaves(locals, t));
  }

  lemma InitialisedKeepsJoin(locals: Locals, s: set<Place>, t: set<Place>, p: Place)
    requires Valid(locals, p)
    ensures Initialised(locals, Joined(locals, s, t), p) ==
              Joined(locals, Initialised(locals, s, p), Initialised(locals, t, p))
  {
    JoinedExact(locals, s, t);
    InitialisedExact(locals, s, p);
    InitialisedExact(locals, t, p);
    assert Leaves(locals, s) * Leaves(locals, t) + LeavesBelow(locals, p)
        == (Leaves(locals, s) + LeavesBelow(locals, p)) * (Leaves(locals, t) + LeavesBelow(locals, p));
  }

  lemma UninitialisedKeepsJoin(locals: Locals, s: set<Place>, t: set<Place>, p: Place)
    requires Valid(locals, p)
    ensures Uninitialised(locals, Joined(locals, s, t), p) ==
              Joined(locals, Uninitialised(locals, s, p), Uninitialised(locals, t, p))
  {
    JoinedExact(locals, s, t);
    UninitialisedExact(locals, s, p);
    UninitialisedExact(locals, t, p);
    assert Leaves(locals, s) * Leaves(locals, t) - LeavesBelow(locals, p)
        == (Leaves(locals, s) - LeavesBelow(locals, p)) * (Leaves(locals, t) - LeavesBelow(locals, p));
  }

  lemma OperandKeepsJoin(locals: Locals, s: set<Place>, t: set<Place>, operand: Operand)
    requires OperandValid(locals, operand) && Canonical(locals, s) && Canonical(locals, t)
    ensures Canonical(locals, OperandEffect(locals, s, operand)) && Canonical(locals, OperandEffect(locals, t, operand))
    ensures OperandEffect(locals, Joined(locals, s, t), operand) ==
            Joined(locals, OperandEffect(locals, s, operand), OperandEffect(locals, t, operand))
  {
    if operand.Move? {
      UninitialisedExact(locals, s, operand.place);
      UninitialisedExact(locals, t, operand.place);
      UninitialisedKeepsJoin(locals, s, t, operand.place);
    }
  }

  lemma {:induction false} OperandsKeepJoin(locals: Locals, s: set<Place>, t: set<Place>, operands: seq<Operand>)
    requires forall operand :: operand in operands ==> OperandValid(locals, operand)
    requires Canonical(locals, s) && Canonical(locals, t)
    ensures Canonical(locals, OperandsEffect(locals, s, operands)) &&
            Canonical(locals, OperandsEffect(locals, t, operands))
    ensures OperandsEffect(locals, Joined(locals, s, t), operands) ==
            Joined(locals, OperandsEffect(locals, s, operands), OperandsEffect(locals, t, operands))
  {
    if operands != [] {
      var k := |operands| - 1;
      OperandsKeepJoin(locals, s, t, operands[..k]);
      OperandKeepsJoin(locals, OperandsEffect(locals, s, operands[..k]), OperandsEffect(locals, t, operands[..k]),
                       operands[k]);
    }
  }

  lemma StatementKeepsJoin(locals: Locals, s: set<Place>, t: set<Place>, statement: Statement)
    requires StatementValid(locals, statement) && Canonical(locals, s) && Canonical(locals, t)
    ensures Canonical(locals, StatementEffect(locals, s, statement)) &&
            Canonical(locals, StatementEffect(locals, t, statement))
    ensures StatementEffect(locals, Joined(locals, s, t), statement) ==
            Joined(locals, StatementEffect(locals, s, statement), StatementEffect(locals, t, statement))
  {
    match statement
    case Assign(target, source) =>
      var operands := OperandsOf(source);
      OperandsKeepJoin(locals, s, t, operands);
      var s', t' := OperandsEffect(locals, s, operands), OperandsEffect(locals, t, operands);
      InitialisedExact(locals, s', target);
      InitialisedExact(locals, t', target);
      InitialisedKeepsJoin(locals, s', t', target);
    case OtherStatement =>
  }

  ghost predicate EntriesJoin(locals: Locals, s: seq<(nat, set<Place>)>, t: seq<(nat, set<Place>)>,
                              u: seq<(nat, set<Place>)>)
  {
    && |s| == |t| == |u|
    && forall i :: 0 <= i < |s| ==>
                     && s[i].0 == t[i].0 == u[i].0
                     && Canonical(locals, s[i].1) && Canonical(locals, t[i].1)
                     && u[i].1 == Joined(locals, s[i].1, t[i].1)
  }

  lemma ErrorEdgeKeepsJoin(locals: Locals, target: Option<nat>)
    ensures EntriesJoin(locals, ErrorEdge(target), ErrorEdge(target), ErrorEdge(target))
  {
    RootsExact(locals, {});
    JoinedExact(locals, {}, {});
    CanonicalUnique(locals, {}, Joined(locals, {}, {}));
  }

  lemma ReplacedKeepsJoin(locals: Locals, s: set<Place>, t: set<Place>, place: Place, value: Operand)
    requires Valid(locals, place) && OperandValid(locals, value) && Canonical(locals, s) && Canonical(locals, t)
    ensures var s' := Initialised(locals, OperandEffect(locals, Uninitialised(locals, s, place), value), place);
            var t' := Initialised(locals, OperandEffect(locals, Uninitialised(locals, t, place), value), place);
            var joined := OperandEffect(locals, Uninitialised(locals, Joined(locals, s, t), place), value);
            && Canonical(locals, s') && Canonical(locals, t')
            && Initialised(locals, joined, place) == Joined(locals, s', t')
  {
    UninitialisedExact(locals, s, place);
    UninitialisedExact(locals, t, place);
    UninitialisedKeepsJoin(locals, s, t, place);
    var s', t' := Uninitialised(locals, s, place), Uninitialised(locals, t, place);
    OperandKeepsJoin(locals, s', t', value);
    InitialisedExact(locals, OperandEffect(locals, s', value), place);
    InitialisedExact(locals, OperandEffect(locals, t', value), place);
    InitialisedKeepsJoin(locals, OperandEffect(locals, s', value), OperandEffect(locals, t', value), place);
  }

  lemma CalledKeepsJoin(locals: Locals, s: set<Place>, t: set<Place>, func: Operand, args: seq<Operand>, place: Place)
    requires Valid(locals, place) && OperandValid(locals, func) && Canonical(locals, s) && Canonical(locals, t)
    requires forall arg :: arg in args ==> OperandValid(locals, arg)
    ensures var s' := Initialised(locals, OperandEffect(locals, OperandsEffect(locals, s, args), func), place);
            var t' := Initialised(locals, OperandEffect(locals, OperandsEffect(locals, t, args), func), place);
            var joined := OperandEffect(locals, OperandsEffect(locals, Joined(locals, s, t), args), func);
            && Canonical(locals, s') && Canonical(locals, t')
            && Initialised(locals, joined, place) == Joined(locals, s', t')
  {
    OperandsKeepJoin(locals, s, t, args);
    var s', t' := OperandsEffect(locals, s, args), OperandsEffect(locals, t, args);
    OperandKeepsJoin(locals, s', t', func);
    InitialisedExact(locals, OperandEffect(locals, s', func), place);
    InitialisedExact(locals, OperandEffect(locals, t', func), place);
    InitialisedKeepsJoin(locals, OperandEffect(locals, s', func), OperandEffect(locals, t', func), place);
  }

  lemma EdgesKeepJoin(locals: Locals, target: nat, s: set<Place>, t: set<Place>, u: set<Place>, unwind: Option<nat>)
    requires Canonical(locals, s) && Canonical(locals, t) && u == Joined(locals, s, t)
    ensures EntriesJoin(locals, [(target, s)] + ErrorEdge(unwind), [(target, t)] + ErrorEdge(unwind),
                        [(target, u)] + ErrorEdge(unwind))
  {
    ErrorEdgeKeepsJoin(locals, unwind);
  }

  lemma TerminatorKeepsJoin(locals: Locals, s: set<Place>, t: set<Place>, terminator: Terminator)
    requires TerminatorValid(locals, terminator) && Canonical(locals, s) && Canonical(locals, t)
    ensures EntriesJoin(locals, TerminatorEffect(locals, s, terminator), TerminatorEffect(locals, t, terminator),
                        TerminatorEffect(locals, Joined(locals, s, t), terminator))
  {
    var joined := Joined(locals, s, t);
    match terminator
    case SwitchInt(discr, _) => OperandKeepsJoin(locals, s, t, discr);
    case Drop(place, target, unwind) =>
      UninitialisedExact(locals, s, place);
      UninitialisedExact(locals, t, place);
      UninitialisedKeepsJoin(locals, s, t, place);
      EdgesKeepJoin(locals, target, Uninitialised(locals, s, place), Uninitialised(locals, t, place),
                    Uninitialised(locals, joined, place), unwind);
    case DropAndReplace(place, value, _, unwind) =>
      ErrorEdgeKeepsJoin(locals, unwind);
      ReplacedKeepsJoin(locals, s, t, place, value);
    case Call(func, args, destination, cleanup) =>
      ErrorEdgeKeepsJoin(locals, cleanup);
      if destination.Some? {
        CalledKeepsJoin(locals, s, t, func, args, destination.value.0);
      }
    case Assert(cond, target, cleanup) =>
      OperandKeepsJoin(locals, s, t, cond);
      EdgesKeepJoin(locals, target, OperandEffect(locals, s, cond), OperandEffect(locals, t, cond),
                    OperandEffect(locals, joined, cond), cleanup);
    case Yield(value, resume, drop) =>
      OperandKeepsJoin(locals, s, t, value);
      EdgesKeepJoin(locals, resume, OperandEffect(locals, s, value), OperandEffect(locals, t, value),
                    OperandEffect(locals, joined, value), drop);
    case InlineAsm(_) =>
    case OtherTerminator(_) =>
  }

  // ----- the domain obeys the laws of the solver -----

  lemma BottomCanonical(locals: Locals)
    ensures Canonical(locals, BottomPlaces(locals)) && Leaves(locals, BottomPlaces(locals)) == AllLeaves(locals)
  {
    RootsExact(locals, BottomPlaces(locals));
    forall l | l in AllLeaves(locals)
      ensures Root(l.local) in BottomPlaces(locals)
    {
      AllLeavesExact(locals, l);
      PrefixValid(locals, l, Root(l.local));
    }
  }

  lemma InitialCanonical(locals: Locals, argCount: nat)
    requires argCount < |locals|
    ensures Canonical(locals, InitialPlaces(locals, argCount))
    ensures forall l :: l in Leaves(locals, InitialPlaces(locals, argCount)) <==>
            l in AllLeaves(locals) && 1 <= l.local <= argCount
  {
    RootsExact(locals, InitialPlaces(locals, argCount));
  }

  lemma InitJoinLaws(body: Body)
    requires body.argCount < |body.locals|
    ensures JoinLaws(InitDomain(body), InitLaws(body.locals))
  {
    var locals := body.locals;
    var dom, laws := InitDomain(body), InitLaws(locals);
    BottomCanonical(locals);
    InitialCanonical(locals, body.argCount);
    forall s, t
      ensures PairLaw(dom, laws, s, t)
    {
      if Canonical(locals, s) && Canonical(locals, t) {
        JoinedExact(locals, s, t);
        JoinedExact(locals, s, s);
        JoinedExact(locals, dom.bottom, s);
        CanonicalUnique(locals, s, Joined(locals, s, s));
        CanonicalUnique(locals, s, Joined(locals, dom.bottom, s));
        CanonicalUnique(locals, s, Joined(locals, s, t));
        assert Leaves(locals, s) * Leaves(locals, t) == Leaves(locals, t) * Leaves(locals, s);
        assert AllLeaves(locals) * Leaves(locals, s) == Leaves(locals, s);
        SubsetSize(Leaves(locals, s), AllLeaves(locals));
        SubsetSize(Leaves(locals, Joined(locals, s, t)), Leaves(locals, s));
      }
    }
    forall s, t, u
      ensures TripleLaw(dom, laws, s, t, u)
    {
      JoinedExact(locals, s, t);
      JoinedExact(locals, t, u);
      assert Leaves(locals, s) * Leaves(locals, t) * Leaves(locals, u) ==
               Leaves(locals, s) * (Leaves(locals, t) * Leaves(locals, u));
    }
  }

  lemma {:induction false} EntriesAreSuccessors(locals: Locals, s: set<Place>, t: Terminator)
    requires !t.InlineAsm?
    ensures |TerminatorEffect(locals, s, t)| == |Successors(t)|
    ensures forall i :: 0 <= i < |Successors(t)| ==> TerminatorEffect(locals, s, t)[i].0 == Successors(t)[i]
  {
  }

  lemma InitLawful(body: Body)
    requires BodyValid(body)
    ensures Distributive(InitDomain(body), CfgOf(body), InitLaws(body.locals))
    ensures Monotone(InitDomain(body), CfgOf(body), InitLaws(body.locals))
  {
    var dom, cfg, laws := InitDomain(body), CfgOf(body), InitLaws(body.locals);
    InitJoinLaws(body);
    forall loc, s, t
      ensures KeepsJoinAt(dom, cfg, laws, loc, s, t)
    {
      if loc.block < |body.blocks| && Canonical(body.locals, s) && Canonical(body.locals, t) {
        var block := body.blocks[loc.block];
        if loc.index < |block.statements| {
          StatementKeepsJoin(body.locals, s, t, block.statements[loc.index]);
        } else if !block.terminator.InlineAsm? {
          TerminatorKeepsJoin(body.locals, s, t, block.terminator);
          EntriesAreSuccessors(body.locals, s, block.terminator);
        }
      }
    }
    DistributiveIsMonotone(dom, cfg, laws);
  }

  // ----- the operations in place -----

  method SetPlaceInitialised(state: PlaceSet, place: Place)
    requires Canonical(state.locals, state.places) && Valid(state.locals, place)
    modifies state
    ensures Canonical(state.locals, state.places)
    ensures state.places == Initialised(state.locals, old(state.places), place)
  {
    InitialisedExact(state.locals, state.places, place);
    ghost var expected := Initialised(state.locals, state.places, place);
    state.Insert(place);
    CanonicalUnique(state.locals, state.places, expected);
  }

  method SetPlaceUninitialised(state: PlaceSet, place: Place)
    requires Canonical(state.locals, state.places) && Valid(state.locals, place)
    modifies state
    ensures Canonical(state.locals, state.places)
    ensures state.places == Uninitialised(state.locals, old(state.places), place)
  {
    UninitialisedExact(state.locals, state.places, place);
    ghost var expected := Uninitialised(state.locals, state.places, place);
    state.Remove(place);
    CanonicalUnique(state.locals, state.places, expected);
  }

  method JoinStates(state: PlaceSet, other: PlaceSet)
    requires other.locals == state.locals
    requires Canonical(state.locals, state.places) && Canonical(state.locals, other.places)
    modifies state
    ensures Canonical(state.locals, state.places)
    ensures state.places == Joined(state.locals, old(state.places), old(other.places))
  {
    JoinedExact(state.locals, state.places, other.places);
    ghost var expected := Joined(state.locals, state.places, other.places);
    state.Join(other);
    CanonicalUnique(state.locals, state.places, expected);
  }

  method ApplyOperandEffect(state: PlaceSet, operand: Operand)
    requires Canonical(state.locals, state.places) && OperandValid(state.locals, operand)
    modifies state
    ensures Canonical(state.locals, state.places)
    ensures state.places == OperandEffect(state.locals, old(state.places), operand)
  {
    if operand.Move? {
      SetPlaceUninitialised(state, operand.place);
    }
  }

  method ApplyOperandsEffect(state: PlaceSet, operands: seq<Operand>)
    requires Canonical(state.locals, state.places)
    requires forall operand :: operand in operands ==> OperandValid(state.locals, operand)
    modifies state
    ensures Canonical(state.locals, state.places)
    ensures state.places == OperandsEffect(state.locals, old(state.places), operands)
  {
    for k := 0 to |operands|
      invariant Canonical(state.locals, state.places)
      invariant state.places == OperandsEffect(state.locals, old(state.places), operands[..k])
    {
      assert operands[..k + 1][..k] == operands[..k];
      ApplyOperandEffect(state, operands[k]);
    }
    assert operands[..|operands|] == operands;
  }

  lemma FewOperands(locals: Locals, s: set<Place>, left: Operand, right: Operand)
    ensures OperandsEffect(locals, s, [left]) == OperandEffect(locals, s, left)
    ensures OperandsEffect(locals, s, [left, right]) == OperandEffect(locals, OperandEffect(locals, s, left), right)
  {
    assert [left][..0] == [];
    assert [left, right][..1] == [left];
  }

  method ApplyStatementEffect(state: PlaceSet, statement: Statement)
    requires Canonical(state.locals, state.places) && StatementValid(state.locals, statement)
    modifies state
    ensures Canonical(state.locals, state.places)
    ensures state.places == StatementEffect(state.locals, old(state.places), statement)
  {
    match statement {
      case Assign(target, source) =>
        match source {
          case OneOperand(operand) =>
            FewOperands(state.locals, state.places, operand, operand);
            ApplyOperandEffect(state, operand);
          case TwoOperands(left, right) =>
            FewOperands(state.locals, state.places, left, right);
            ApplyOperandEffect(state, left);
            ApplyOperandEffect(state, right);
          case Aggregate(operands) =>
            ApplyOperandsEffect(state, operands);
          case OtherRvalue =>
        }
        SetPlaceInitialised(state, target);
      case OtherStatement =>
    }
  }

  /** The states of the outgoing edges, computed on a copy of `state`. */
  method ApplyTerminatorEffect(state: PlaceSet, terminator: Terminator, location: Location)
    returns (r: A.Result<seq<(nat, set<Place>)>>)
    requires Canonical(state.locals, state.places) && TerminatorValid(state.locals, terminator)
    ensures r == if terminator.InlineAsm? then Err(UnsupportedStatement(location))
                 else Ok(TerminatorEffect(state.locals, state.places, terminator))
  {
    var newState := new PlaceSet(state.locals, state.places);
    match terminator {
      case SwitchInt(discr, targets) =>
        ApplyOperandEffect(newState, discr);
        return Ok(ToAll(targets, newState.places));
      case Drop(place, target, unwind) =>
        SetPlaceUninitialised(newState, place);
        return Ok([(target, newState.places)] + ErrorEdge(unwind));
      case DropAndReplace(place, value, target, unwind) =>
        SetPlaceUninitialised(newState, place);
        ApplyOperandEffect(newState, value);
        SetPlaceInitialised(newState, place);
        return Ok([(target, newState.places)] + ErrorEdge(unwind));
      case Call(func, args, destination, cleanup) =>
        ApplyOperandsEffect(newState, args);
        ApplyOperandEffect(newState, func);
        var entries := [];
        match destination {
          case None =>
          case Some((place, target)) =>
            SetPlaceInitialised(newState, place);
            entries := [(target, newState.places)];
        }
        return Ok(entries + ErrorEdge(cleanup));
      case Assert(cond, target, cleanup) =>
        ApplyOperandEffect(newState, cond);
        return Ok([(target, newState.places)] + ErrorEdge(cleanup));
      case Yield(value, resume, drop) =>
        ApplyOperandEffect(newState, value);
        return Ok([(resume, newState.places)] + ErrorEdge(drop));
      case InlineAsm(_) =>
        return Err(UnsupportedStatement(location));
      case OtherTerminator(targets) =>
        return Ok(ToAll(targets, state.places));
    }
  }
}
