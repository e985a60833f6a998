/**
 What the analysis of definitely initialised places means for one leaf: it is reported
 exactly when it is initialised along every path. The reference follows a single leaf
 through the body and knows nothing of sets of places.
 */
module InitializedAlongPaths {
  import opened Wrappers
  import opened Places
  import opened CanonicalSets
  import opened Mir
  import opened Graphs
  import opened AbstractStates
  import opened PointwiseStates
  import opened Analyzer
  import opened JoinOverPaths
  import opened DefinitelyInitialized

  // ----- one leaf -----

  predicate Moves(operand: Operand, l: Place) {
    operand.Move? && IsPrefix(l, operand.place)
  }

  predicate MovesSome(operands: seq<Operand>, l: Place) {
    exists operand :: operand in operands && Moves(operand, l)
  }

  /** Does evaluating the right-hand side move `l`? */
  predicate MovedBy(source: Rvalue, l: Place) {
    match source
    case OneOperand(operand) => Moves(operand, l)
    case TwoOperands(left, right) => Moves(left, l) || Moves(right, l)
    case Aggregate(operands) => MovesSome(operands, l)
    case OtherRvalue => false
  }

  /** Is `l` initialised after `statement`, if `init` says whether it was before? */
  predicate AfterStatement(statement: Statement, l: Place, init: bool) {
    match statement
    case Assign(target, source) => IsPrefix(l, target) || (init && !MovedBy(source, l))
    case OtherStatement => init
  }

  /** Is `l` initialised on the normal outgoing edge of `t`? */
  predicate AfterTerminator(t: Terminator, l: Place, init: bool) {
    match t
    case SwitchInt(discr, _) => init && !Moves(discr, l)
    case Drop(place, _, _) => init && !IsPrefix(l, place)
    case DropAndReplace(place, value, _, _) => IsPrefix(l, place) || (init && !Moves(value, l))
    case Call(func, args, destination, _) =>
      (destination.Some? && IsPrefix(l, destination.value.0)) || (init && !MovesSome(args, l) && !Moves(func, l))
    case Assert(cond, _, _) => init && !Moves(cond, l)
    case Yield(value, _, _) => init && !Moves(value, l)
    case InlineAsm(_) => false
    case OtherTerminator(_) => init
  }

  /** Is `b` where `t` continues after an error? */
  predicate IsErrorEdge(t: Terminator, b: nat) {
    match t
    case Drop(_, _, unwind) => unwind == Some(b)
    case DropAndReplace(_, _, _, unwind) => unwind == Some(b)
    case Call(_, _, _, cleanup) => cleanup == Some(b)
    case Assert(_, _, cleanup) => cleanup == Some(b)
    case Yield(_, _, drop) => drop == Some(b)
    case _ => false
  }

  predicate InitialisedAtStart(body: Body, b: nat, l: Place) {
    if b == START_BLOCK then 1 <= l.local <= body.argCount else true
  }

  predicate AfterStatements(statements: seq<Statement>, l: Place, init: bool) {
    if statements == [] then init
    else AfterStatement(statements[|statements| - 1], l, AfterStatements(statements[..|statements| - 1], l, init))
  }

  /** Is `l` initialised when control, having followed `path`, enters its last block? */
  ghost predicate InitialisedOnEntry(body: Body, path: seq<nat>, l: Place)
    requires IsPath(CfgOf(body).successors, path)
    decreases |path|
  {
    if |path| == 1 then InitialisedAtStart(body, path[0], l)
    else
      var prior := path[..|path| - 1];
      assert forall i :: 0 <= i < |prior| ==> prior[i] == path[i];
      var block := body.blocks[End(prior)];
      && !IsErrorEdge(block.terminator, End(path))
      && AfterTerminator(block.terminator, l, AfterStatements(block.statements, l, InitialisedOnEntry(body, prior, l)))
  }

  ghost predicate InitialisedAlong(body: Body, path: seq<nat>, index: nat, l: Place)
    requires IsPath(CfgOf(body).successors, path) && index <= |body.blocks[End(path)].statements|
  {
    AfterStatements(body.blocks[End(path)].statements[..index], l, InitialisedOnEntry(body, path, l))
  }

  // ----- the effects on sets of places, leaf by leaf -----

  lemma InitialisedLeaf(locals: Locals, s: set<Place>, p: Place, l: Place)
    requires Valid(locals, p) && IsLeaf(locals, l)
    ensures l in Leaves(locals, Initialised(locals, s, p)) <==> l in Leaves(locals, s) || IsPrefix(l, p)
    ensures l in Leaves(locals, Uninitialised(locals, s, p)) <==> l in Leaves(locals, s) && !IsPrefix(l, p)
  {
    InitialisedExact(locals, s, p);
    UninitialisedExact(locals, s, p);
    LeavesBelowExact(locals, p, l);
  }

  lemma OperandLeaf(locals: Locals, s: set<Place>, operand: Operand, l: Place)
    requires OperandValid(locals, operand) && IsLeaf(locals, l)
    ensures l in Leaves(locals, OperandEffect(locals, s, operand)) <==> l in Leaves(locals, s) && !Moves(operand, l)
  {
    if operand.Move? {
      InitialisedLeaf(locals, s, operand.place, l);
    }
  }

  lemma {:induction false} OperandsLeaf(locals: Locals, s: set<Place>, operands: seq<Operand>, l: Place)
    requires forall operand :: operand in operands ==> OperandValid(locals, operand)
    requires IsLeaf(locals, l)
    ensures l in Leaves(locals, OperandsEffect(locals, s, operands)) <==>
            l in Leaves(locals, s) && !MovesSome(operands, l)
  {
    if operands != [] {
      var k := |operands| - 1;
      OperandsLeaf(locals, s, operands[..k], l);
      OperandLeaf(locals, OperandsEffect(locals, s, operands[..k]), operands[k], l);
      assert operands == operands[..k] + [operands[k]];
    }
  }

  lemma SourceLeaf(locals: Locals, s: set<Place>, source: Rvalue, l: Place)
    requires RvalueValid(locals, source) && IsLeaf(locals, l)
    ensures l in Leaves(locals, OperandsEffect(locals, s, OperandsOf(source))) <==>
            l in Leaves(locals, s) && !MovedBy(source, l)
  {
    match source
    case OneOperand(operand) =>
      FewOperands(locals, s, operand, operand);
      OperandLeaf(locals, s, operand, l);
    case TwoOperands(left, right) =>
      FewOperands(locals, s, left, right);
      OperandLeaf(locals, s, left, l);
      OperandLeaf(locals, OperandEffect(locals, s, left), right, l);
    case Aggregate(operands) => OperandsLeaf(locals, s, operands, l);
    case OtherRvalue =>
  }

  lemma StatementLeaf(locals: Locals, s: set<Place>, statement: Statement, l: Place)
    requires StatementValid(locals, statement) && IsLeaf(locals, l)
    ensures l in Leaves(locals, StatementEffect(locals, s, statement)) <==>
            AfterStatement(statement, l, l in Leaves(locals, s))
  {
    match statement
    case Assign(target, source) =>
      SourceLeaf(locals, s, source, l);
      InitialisedLeaf(locals, OperandsEffect(locals, s, OperandsOf(source)), target, l);
    case OtherStatement =>
  }

  /** Every entry for `b` agrees with the reference, and an error edge comes with nothing initialised. */
  lemma TerminatorLeaf(locals: Locals, s: set<Place>, t: Terminator, l: Place, i: nat)
    requires TerminatorValid(locals, t) && IsLeaf(locals, l) && i < |TerminatorEffect(locals, s, t)|
    ensures var (b, found) := TerminatorEffect(locals, s, t)[i];
            || (l in Leaves(locals, found) <==> AfterTerminator(t, l, l in Leaves(locals, s)))
            || (IsErrorEdge(t, b) && l !in Leaves(locals, found))
  {
    match t
    case SwitchInt(discr, _) => OperandLeaf(locals, s, discr, l);
    case Drop(place, _, _) => InitialisedLeaf(locals, s, place, l);
    case DropAndReplace(place, value, _, _) =>
      var s' := Uninitialised(locals, s, place);
      InitialisedLeaf(locals, s, place, l);
      OperandLeaf(locals, s', value, l);
      InitialisedLeaf(locals, OperandEffect(locals, s', value), place, l);
    case Call(func, args, destination, _) =>
      var s' := OperandsEffect(locals, s, args);
      OperandsLeaf(locals, s, args, l);
      OperandLeaf(locals, s', func, l);
      if destination.Some? {
        InitialisedLeaf(locals, OperandEffect(locals, s', func), destination.value.0, l);
      }
    case Assert(cond, _, _) => OperandLeaf(locals, s, cond, l);
    case Yield(value, _, _) => OperandLeaf(locals, s, value, l);
    case InlineAsm(_) =>
    case OtherTerminator(_) =>
  }

  lemma ErrorEntry(locals: Locals, s: set<Place>, t: Terminator, b: nat) returns (i: nat)
    requires IsErrorEdge(t, b)
    ensures i < |TerminatorEffect(locals, s, t)| && TerminatorEffect(locals, s, t)[i] == (b, {})
  {
    i := |TerminatorEffect(locals, s, t)| - 1;
  }

  /** The state on an edge covers a leaf exactly if every entry for that edge does. */
  lemma {:induction false} MergedLeaf(body: Body, entries: seq<(nat, set<Place>)>, b: nat, l: Place)
    requires IsLeaf(body.locals, l)
    ensures var merged := MergeTargets(InitDomain(body), entries);
            && (b in merged <==> exists i :: 0 <= i < |entries| && entries[i].0 == b)
            && (b in merged ==> (l in Leaves(body.locals, merged[b]) <==>
                                 forall i :: 0 <= i < |entries| && entries[i].0 == b ==>
                                   l in Leaves(body.locals, entries[i].1)))
    decreases |entries|
  {
    if entries != [] {
      var k := |entries| - 1;
      var prior := MergeTargets(InitDomain(body), entries[..k]);
      MergedLeaf(body, entries[..k], b, l);
      assert forall i :: 0 <= i < k ==> entries[..k][i] == entries[i];
      if entries[k].0 in prior {
        JoinedExact(body.locals, prior[entries[k].0], entries[k].1);
      }
    }
  }

  lemma EdgeLeaf(body: Body, s: set<Place>, p: nat, b: nat, l: Place)
    requires BodyValid(body) && p < |body.blocks| && b in Successors(body.blocks[p].terminator)
    requires !body.blocks[p].terminator.InlineAsm? && IsLeaf(body.locals, l)
    ensures var t := body.blocks[p].terminator;
            var merged := MergeTargets(InitDomain(body), TerminatorEffect(body.locals, s, t));
            && b in merged
            && (l in Leaves(body.locals, merged[b]) <==>
                !IsErrorEdge(t, b) && AfterTerminator(t, l, l in Leaves(body.locals, s)))
  {
    var t := body.blocks[p].terminator;
    var entries := TerminatorEffect(body.locals, s, t);
    MergedLeaf(body, entries, b, l);
    EntriesAreSuccessors(body.locals, s, t);
    var j :| 0 <= j < |Successors(t)| && Successors(t)[j] == b;
    assert entries[j].0 == b;
    forall i: nat | i < |entries| && entries[i].0 == b
      ensures l in Leaves(body.locals, entries[i].1) ==> AfterTerminator(t, l, l in Leaves(body.locals, s))
      ensures !IsErrorEdge(t, b) ==>
                (l in Leaves(body.locals, entries[i].1) <==> AfterTerminator(t, l, l in Leaves(body.locals, s)))
    {
      TerminatorLeaf(body.locals, s, t, l, i);
    }
    if IsErrorEdge(t, b) {
      var i := ErrorEntry(body.locals, s, t, b);
      assert l !in Leaves(body.locals, entries[i].1);
    }
  }

  lemma {:induction false} StatementsLeaf(body: Body, p: nat, s: set<Place>, count: nat, l: Place)
    requires BodyValid(body) && p < |body.blocks| && count <= |body.blocks[p].statements| && IsLeaf(body.locals, l)
    ensures RunStatements(InitDomain(body), p, s, count).Ok?
    ensures l in Leaves(body.locals, RunStatements(InitDomain(body), p, s, count).value) <==>
            AfterStatements(body.blocks[p].statements[..count], l, l in Leaves(body.locals, s))
  {
    var statements := body.blocks[p].statements;
    if count > 0 {
      StatementsLeaf(body, p, s, count - 1, l);
      assert statements[..count][..count - 1] == statements[..count - 1];
      StatementLeaf(body.locals, RunStatements(InitDomain(body), p, s, count - 1).value, statements[count - 1], l);
    }
  }

  /** The analysis can fail only at inline assembly. */
  lemma ErrorsAreInlineAsm(body: Body, p: nat)
    requires BodyValid(body) && p < |body.blocks|
    ensures BlockError(InitDomain(body), CfgOf(body), p) ==
            if body.blocks[p].terminator.InlineAsm? then Some(UnsupportedStatement(TerminatorLoc(CfgOf(body), p)))
            else None
  {
    var dom, cfg := InitDomain(body), CfgOf(body);
    var count := |body.blocks[p].statements|;
    if body.blocks[p].terminator.InlineAsm? {
      RunsThrough(body, p, dom.bottom, count);
    } else {
      RunsThrough(body, p, dom.bottom, count);
      var s := RunStatements(dom, p, dom.bottom, count).value;
      forall b | b in Successors(body.blocks[p].terminator)
        ensures b in MergeTargets(dom, TerminatorEffect(body.locals, s, body.blocks[p].terminator))
      {
        SuccessorHasState(body, s, p, b);
      }
    }
  }

  lemma {:induction false} RunsThrough(body: Body, p: nat, s: set<Place>, count: nat)
    ensures RunStatements(InitDomain(body), p, s, count).Ok?
  {
    if count > 0 {
      RunsThrough(body, p, s, count - 1);
    }
  }

  lemma {:induction false} MergedTargets(body: Body, entries: seq<(nat, set<Place>)>, i: nat)
    requires i < |entries|
    ensures entries[i].0 in MergeTargets(InitDomain(body), entries)
    decreases |entries|
  {
    var k := |entries| - 1;
    if i < k {
      MergedTargets(body, entries[..k], i);
    }
  }

  lemma SuccessorHasState(body: Body, s: set<Place>, p: nat, b: nat)
    requires p < |body.blocks| && !body.blocks[p].terminator.InlineAsm? && b in Successors(body.blocks[p].terminator)
    ensures b in MergeTargets(InitDomain(body), TerminatorEffect(body.locals, s, body.blocks[p].terminator))
  {
    var t := body.blocks[p].terminator;
    EntriesAreSuccessors(body.locals, s, t);
    var i :| 0 <= i < |Successors(t)| && Successors(t)[i] == b;
    MergedTargets(body, TerminatorEffect(body.locals, s, t), i);
  }

  lemma NoErrorsExact(body: Body)
    requires BodyValid(body)
    ensures NoErrors(InitDomain(body), CfgOf(body)) <==> NoInlineAsm(body)
  {
    forall p: nat | p < |body.blocks|
      ensures BlockError(InitDomain(body), CfgOf(body), p).None? <==> !body.blocks[p].terminator.InlineAsm?
    {
      ErrorsAreInlineAsm(body, p);
    }
  }

  // ----- along paths -----

  lemma {:induction false} PathStateLeaf(body: Body, path: seq<nat>, l: Place)
    requires BodyValid(body) && NoInlineAsm(body) && IsPath(CfgOf(body).successors, path) && IsLeaf(body.locals, l)
    ensures l in Leaves(body.locals, PathState(InitDomain(body), CfgOf(body), path)) <==>
            InitialisedOnEntry(body, path, l)
    decreases |path|
  {
    var dom, cfg := InitDomain(body), CfgOf(body);
    if |path| == 1 {
      AllLeavesExact(body.locals, l);
      BottomCanonical(body.locals);
      InitialCanonical(body.locals, body.argCount);
    } else {
      var prior := path[..|path| - 1];
      assert IsPath(cfg.successors, prior);
      PathStateLeaf(body, prior, l);
      var p, b := End(prior), End(path);
      var s := PathState(dom, cfg, prior);
      var statements := body.blocks[p].statements;
      StatementsLeaf(body, p, s, |statements|, l);
      assert statements[..|statements|] == statements;
      var t := RunStatements(dom, p, s, |statements|).value;
      EdgeLeaf(body, t, p, b, l);
      EdgesSelected(body, p, s);
    }
  }

  lemma EdgesSelected(body: Body, p: nat, s: set<Place>)
    requires BodyValid(body) && NoInlineAsm(body) && p < |body.blocks|
    ensures var dom := InitDomain(body);
            var run := RunStatements(dom, p, s, |body.blocks[p].statements|);
            var successors := Successors(body.blocks[p].terminator);
            && run.Ok?
            && var merged := MergeTargets(dom, TerminatorEffect(body.locals, run.value, body.blocks[p].terminator));
            && (forall b :: b in successors ==> b in merged)
            && EdgeStates(dom, CfgOf(body), p, s) == Ok(Selected(successors, merged))
  {
    var dom := InitDomain(body);
    RunsThrough(body, p, s, |body.blocks[p].statements|);
    var t := RunStatements(dom, p, s, |body.blocks[p].statements|).value;
    forall b | b in Successors(body.blocks[p].terminator)
      ensures b in MergeTargets(dom, TerminatorEffect(body.locals, t, body.blocks[p].terminator))
    {
      SuccessorHasState(body, t, p, b);
    }
  }

  lemma PathStateAtLeaf(body: Body, path: seq<nat>, index: nat, l: Place)
    requires BodyValid(body) && NoInlineAsm(body) && IsPath(CfgOf(body).successors, path) && IsLeaf(body.locals, l)
    requires index <= |body.blocks[End(path)].statements|
    ensures l in Leaves(body.locals, PathStateAt(InitDomain(body), CfgOf(body), path, index)) <==>
            InitialisedAlong(body, path, index, l)
  {
    PathStateLeaf(body, path, l);
    StatementsLeaf(body, End(path), PathState(InitDomain(body), CfgOf(body), path), index, l);
  }

  // ----- the analysis -----

  ghost predicate AlongAll(body: Body, b: nat, index: nat, l: Place)
    requires b < |body.blocks| && index <= |body.blocks[b].statements|
  {
    forall path :: IsPath(CfgOf(body).successors, path) && End(path) == b ==> InitialisedAlong(body, path, index, l)
  }

  ghost predicate AlongAllFromStart(body: Body, b: nat, index: nat, l: Place)
    requires b < |body.blocks| && index <= |body.blocks[b].statements|
  {
    forall path :: FromStart(CfgOf(body), path) && End(path) == b ==> InitialisedAlong(body, path, index, l)
  }

  /** Compare a set of leaves with the order of the domain. */
  lemma BelowIsSuperset(body: Body, s: set<Place>, leaves: set<Place>)
    requires Canonical(body.locals, s) && leaves <= AllLeaves(body.locals)
    ensures Canonical(body.locals, Normalise(body.locals, leaves))
    ensures Below(InitDomain(body), s, Normalise(body.locals, leaves)) <==> leaves <= Leaves(body.locals, s)
  {
    var u := Normalise(body.locals, leaves);
    NormaliseCanonical(body.locals, leaves);
    JoinedExact(body.locals, s, u);
    CanonicalUnique(body.locals, Joined(body.locals, s, u), u);
  }

  lemma BoundIsSuperset(body: Body, b: nat, index: nat, leaves: set<Place>, path: seq<nat>)
    requires BodyValid(body) && NoInlineAsm(body) && leaves <= AllLeaves(body.locals)
    requires IsPath(CfgOf(body).successors, path) && End(path) == b && index <= |body.blocks[b].statements|
    ensures Below(InitDomain(body), PathStateAt(InitDomain(body), CfgOf(body), path, index),
                  Normalise(body.locals, leaves)) <==>
            forall l :: l in leaves ==> InitialisedAlong(body, path, index, l)
  {
    var dom, cfg, laws := InitDomain(body), CfgOf(body), InitLaws(body.locals);
    InitLawful(body);
    NoErrorsExact(body);
    PathStateValid(dom, cfg, laws, path);
    PrefixOk(dom, cfg, laws, b, PathState(dom, cfg, path), index);
    BelowIsSuperset(body, PathStateAt(dom, cfg, path, index), leaves);
    forall l | l in leaves
      ensures l in Leaves(body.locals, PathStateAt(dom, cfg, path, index)) <==> InitialisedAlong(body, path, index, l)
    {
      AllLeavesExact(body.locals, l);
      PathStateAtLeaf(body, path, index, l);
    }
  }

  /** A leaf is reported before a location exactly if it is initialised along every path there. */
  lemma ReportedIffInitialised(body: Body, before: map<Location, set<Place>>, after: EdgeMap<set<Place>>, b: nat,
                               index: nat, l: Place)
    requires BodyValid(body) && NoInlineAsm(body) &&
             Solved(InitDomain(body), CfgOf(body), InitLaws(body.locals), before, after)
    requires b < |body.blocks| && index <= |body.blocks[b].statements| && IsLeaf(body.locals, l)
    ensures Location(b, index) in before && Canonical(body.locals, before[Location(b, index)])
    ensures l in Leaves(body.locals, before[Location(b, index)]) <==> AlongAll(body, b, index, l)
    ensures OnlyReachableInto(CfgOf(body), b) ==>
              (l in Leaves(body.locals, before[Location(b, index)]) <==> AlongAllFromStart(body, b, index, l))
  {
    var dom, cfg, laws := InitDomain(body), CfgOf(body), InitLaws(body.locals);
    InitLawful(body);
    NoErrorsExact(body);
    AllLeavesExact(body.locals, l);
    var u := Normalise(body.locals, {l});
    NormaliseCanonical(body.locals, {l});
    SolutionIsJoinOverPaths(dom, cfg, laws, before, after, b, index, u);
    BelowIsSuperset(body, before[Location(b, index)], {l});
    forall path | IsPath(cfg.successors, path) && End(path) == b
      ensures Below(dom, PathStateAt(dom, cfg, path, index), u) <==> InitialisedAlong(body, path, index, l)
    {
      BoundIsSuperset(body, b, index, {l}, path);
    }
    if OnlyReachableInto(cfg, b) {
      SolutionIsJoinFromStart(dom, cfg, laws, before, after, b, index, u);
    }
  }

  /** Run the analysis on a body. */
  method Analyze(body: Body) returns (r: AbstractStates.Result<PointwiseState<set<Place>>>)
    requires BodyValid(body)
    ensures r.Ok? <==> NoInlineAsm(body)
    ensures r.Ok? ==>
              && fresh(r.value)
              && Solved(InitDomain(body), CfgOf(body), InitLaws(body.locals), r.value.stateBefore,
                        r.value.stateAfterBlock)
    ensures r.Err? ==> exists b: nat :: b < |body.blocks| && body.blocks[b].terminator.InlineAsm? &&
                                        r.error == UnsupportedStatement(TerminatorLoc(CfgOf(body), b)) &&
                                        forall p: nat :: p < b ==> !body.blocks[p].terminator.InlineAsm?
  {
    InitLawful(body);
    NoErrorsExact(body);
    r := RunFwdAnalysis(InitDomain(body), CfgOf(body), InitLaws(body.locals));
    if r.Err? {
      ghost var b: nat :| b < |body.blocks| && BlockError(InitDomain(body), CfgOf(body), b) == Some(r.error) &&
                    forall p: nat :: p < b ==> BlockError(InitDomain(body), CfgOf(body), p).None?;
      forall p: nat | p <= b
        ensures BlockError(InitDomain(body), CfgOf(body), p) ==
                if body.blocks[p].terminator.InlineAsm? then Some(UnsupportedStatement(TerminatorLoc(CfgOf(body), p)))
                else None
      {
        ErrorsAreInlineAsm(body, p);
      }
    }
  }
}
