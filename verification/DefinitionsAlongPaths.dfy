/**
 What the analysis of reaching definitions means for one definition of one local: it is
 reported exactly when it survives along some path. The reference follows a single
 definition through the body.
 */
module DefinitionsAlongPaths {
  import opened Wrappers
  import opened Mir
  import opened Places
  import opened Graphs
  import opened AbstractStates
  import opened PointwiseStates
  import opened Analyzer
  import opened JoinOverPaths
  import opened ReachingDefinitions

  // ----- one definition -----

  /** Does `d` hold for `local` after `statement`, if `holds` says whether it did before? */
  predicate HoldsAfter(statement: Statement, location: Location, local: nat, d: DefLocation, holds: bool) {
    if statement.Assign? && statement.target == Root(local) then d == Assignment(location) else holds
  }

  predicate IsDestination(t: Terminator, local: nat) {
    t.Call? && t.destination.Some? && t.destination.value.0 == Root(local)
  }

  /** Does `d` hold for `local` on some edge from the terminator `t` at `location` to `b`? */
  predicate HoldsOnEdge(t: Terminator, location: Location, b: nat, local: nat, d: DefLocation, holds: bool) {
    if t.Call? then
      || (&& t.destination.Some? && t.destination.value.1 == b
          && if IsDestination(t, local) then d == Assignment(location) else holds)
      || (t.cleanup == Some(b) && (holds || (IsDestination(t, local) && d == Assignment(location))))
    else holds
  }

  predicate HoldsAtStart(body: Body, b: nat, local: nat, d: DefLocation) {
    b == START_BLOCK && 1 <= local <= body.argCount && d == Parameter(local - 1)
  }

  predicate HoldsAfterStatements(statements: seq<Statement>, block: nat, local: nat, d: DefLocation, holds: bool) {
    if statements == [] then holds
    else
      var k := |statements| - 1;
      HoldsAfter(statements[k], Location(block, k), local, d,
                 HoldsAfterStatements(statements[..k], block, local, d, holds))
  }

  /** Does `d` hold for `local` when control, having followed `path`, enters its last block? */
  ghost predicate HoldsOnEntry(body: Body, path: seq<nat>, local: nat, d: DefLocation)
    requires IsPath(CfgOf(body).successors, path)
    decreases |path|
  {
    if |path| == 1 then HoldsAtStart(body, path[0], local, d)
    else
      var prior := path[..|path| - 1];
      assert forall i :: 0 <= i < |prior| ==> prior[i] == path[i];
      var p := End(prior);
      var block := body.blocks[p];
      HoldsOnEdge(block.terminator, TerminatorLoc(CfgOf(body), p), End(path), local, d,
                  HoldsAfterStatements(block.statements, p, local, d, HoldsOnEntry(body, prior, local, d)))
  }

  ghost predicate HoldsAlong(body: Body, path: seq<nat>, index: nat, local: nat, d: DefLocation)
    requires IsPath(CfgOf(body).successors, path) && index <= |body.blocks[End(path)].statements|
  {
    HoldsAfterStatements(body.blocks[End(path)].statements[..index], End(path), local, d,
                         HoldsOnEntry(body, path, local, d))
  }

  // ----- the effects, definition by definition -----

  lemma {:induction false} StatementsHas(body: Body, p: nat, s: Defs, count: nat, local: nat, d: DefLocation)
    requires BodyValid(body) && p < |body.blocks| && count <= |body.blocks[p].statements|
    ensures RunStatements(DefsDomain(body), p, s, count).Ok?
    ensures Has(RunStatements(DefsDomain(body), p, s, count).value, local, d) <==>
            HoldsAfterStatements(body.blocks[p].statements[..count], p, local, d, Has(s, local, d))
  {
    var statements := body.blocks[p].statements;
    if count > 0 {
      StatementsHas(body, p, s, count - 1, local, d);
      assert statements[..count][..count - 1] == statements[..count - 1];
      var t := RunStatements(DefsDomain(body), p, s, count - 1).value;
      if statements[count - 1].Assign? {
        OverwrittenHas(t, statements[count - 1].target, Location(p, count - 1));
      }
    }
  }

  lemma {:induction false} MergedHas(body: Body, entries: seq<(nat, Defs)>, b: nat, local: nat, d: DefLocation)
    ensures var merged := MergeTargets(DefsDomain(body), entries);
            && (b in merged <==> exists i :: 0 <= i < |entries| && entries[i].0 == b)
            && (b in merged ==> (Has(merged[b], local, d) <==>
                                 exists i :: 0 <= i < |entries| && entries[i].0 == b && Has(entries[i].1, local, d)))
    decreases |entries|
  {
    if entries != [] {
      var k := |entries| - 1;
      var prior := MergeTargets(DefsDomain(body), entries[..k]);
      MergedHas(body, entries[..k], b, local, d);
      assert forall i :: 0 <= i < k ==> entries[..k][i] == entries[i];
      if entries[k].0 in prior {
        JoinedHas(prior[entries[k].0], entries[k].1);
      }
    }
  }

  lemma EntriesHave(s: Defs, t: Terminator, loc: Location, b: nat, local: nat, d: DefLocation)
    requires b in Successors(t)
    ensures var entries := TerminatorDefs(s, t, loc);
            && (exists i :: 0 <= i < |entries| && entries[i].0 == b)
            && ((exists i :: 0 <= i < |entries| && entries[i].0 == b && Has(entries[i].1, local, d)) <==>
                HoldsOnEdge(t, loc, b, local, d, Has(s, local, d)))
  {
    var entries := TerminatorDefs(s, t, loc);
    DefsEntriesAreSuccessors(s, t, loc);
    var j :| 0 <= j < |Successors(t)| && Successors(t)[j] == b;
    assert entries[j].0 == b;
    if t.Call? {
      if t.destination.Some? {
        OverwrittenHas(s, t.destination.value.0, loc);
        assert entries[0] == CallEntry(s, t.destination, loc)[0];
      }
      if t.cleanup.Some? {
        assert entries[|entries| - 1] == CleanupEntry(s, t.destination, t.cleanup, loc)[0];
      }
    } else {
      assert entries[j].1 == s;
    }
  }

  lemma EdgeHas(body: Body, p: nat, s: Defs, b: nat, local: nat, d: DefLocation)
    requires BodyValid(body) && p < |body.blocks| && !body.blocks[p].terminator.InlineAsm?
    requires b in Successors(body.blocks[p].terminator)
    ensures var block := body.blocks[p];
            var edges := EdgeStates(DefsDomain(body), CfgOf(body), p, s);
            && edges.Ok? && b in edges.value
            && (Has(edges.value[b], local, d) <==>
                HoldsOnEdge(block.terminator, TerminatorLoc(CfgOf(body), p), b, local, d,
                            HoldsAfterStatements(block.statements, p, local, d, Has(s, local, d))))
  {
    var block := body.blocks[p];
    var loc := TerminatorLoc(CfgOf(body), p);
    StatementsHas(body, p, s, |block.statements|, local, d);
    assert block.statements[..|block.statements|] == block.statements;
    var t := RunStatements(DefsDomain(body), p, s, |block.statements|).value;
    var entries := TerminatorDefs(t, block.terminator, loc);
    forall q | q in Successors(block.terminator)
      ensures q in MergeTargets(DefsDomain(body), entries)
    {
      EntriesHave(t, block.terminator, loc, q, local, d);
      MergedHas(body, entries, q, local, d);
    }
    EntriesHave(t, block.terminator, loc, b, local, d);
    MergedHas(body, entries, b, local, d);
  }

  lemma DefsErrors(body: Body)
    requires BodyValid(body)
    ensures NoErrors(DefsDomain(body), CfgOf(body)) <==> NoInlineAsm(body)
  {
    var dom, cfg := DefsDomain(body), CfgOf(body);
    forall p: nat | p < |body.blocks|
      ensures BlockError(dom, cfg, p).None? <==> !body.blocks[p].terminator.InlineAsm?
    {
      DefsBlockError(body, p);
    }
  }

  lemma DefsBlockError(body: Body, p: nat)
    requires BodyValid(body) && p < |body.blocks|
    ensures BlockError(DefsDomain(body), CfgOf(body), p).None? <==> !body.blocks[p].terminator.InlineAsm?
  {
    var dom, cfg := DefsDomain(body), CfgOf(body);
    var block := body.blocks[p];
    StatementsHas(body, p, dom.bottom, |block.statements|, 0, Parameter(0));
    if !block.terminator.InlineAsm? {
      var t := RunStatements(dom, p, dom.bottom, |block.statements|).value;
      var entries := TerminatorDefs(t, block.terminator, TerminatorLoc(cfg, p));
      forall q | q in Successors(block.terminator)
        ensures q in MergeTargets(dom, entries)
      {
        EntriesHave(t, block.terminator, TerminatorLoc(cfg, p), q, 0, Parameter(0));
        MergedHas(body, entries, q, 0, Parameter(0));
      }
    }
  }

  // ----- along paths -----

  lemma {:induction false} PathStateHas(body: Body, path: seq<nat>, local: nat, d: DefLocation)
    requires BodyValid(body) && NoInlineAsm(body) && IsPath(CfgOf(body).successors, path)
    ensures Has(PathState(DefsDomain(body), CfgOf(body), path), local, d) <==> HoldsOnEntry(body, path, local, d)
    decreases |path|
  {
    if |path| > 1 {
      var prior := path[..|path| - 1];
      assert IsPath(CfgOf(body).successors, prior);
      PathStateHas(body, prior, local, d);
      EdgeHas(body, End(prior), PathState(DefsDomain(body), CfgOf(body), prior), End(path), local, d);
    }
  }

  lemma PathStateAtHas(body: Body, path: seq<nat>, index: nat, local: nat, d: DefLocation)
    requires BodyValid(body) && NoInlineAsm(body) && IsPath(CfgOf(body).successors, path)
    requires index <= |body.blocks[End(path)].statements|
    ensures Has(PathStateAt(DefsDomain(body), CfgOf(body), path, index), local, d) <==>
            HoldsAlong(body, path, index, local, d)
  {
    PathStateHas(body, path, local, d);
    StatementsHas(body, End(path), PathState(DefsDomain(body), CfgOf(body), path), index, local, d);
  }

  ghost predicate AlongSome(body: Body, b: nat, index: nat, local: nat, d: DefLocation)
    requires b < |body.blocks| && index <= |body.blocks[b].statements|
  {
    exists path :: IsPath(CfgOf(body).successors, path) && End(path) == b && HoldsAlong(body, path, index, local, d)
  }

  ghost predicate AlongSomeFromStart(body: Body, b: nat, index: nat, local: nat, d: DefLocation)
    requires b < |body.blocks| && index <= |body.blocks[b].statements|
  {
    exists path :: FromStart(CfgOf(body), path) && End(path) == b && HoldsAlong(body, path, index, local, d)
  }

  /** `s` without the definition `d` of `local`. */
  ghost function Without(s: Defs, local: nat, d: DefLocation): Defs {
    if local !in s then s
    else if s[local] <= {d} then s - {local}
    else s[local := s[local] - {d}]
  }

  lemma WithoutHas(body: Body, s: Defs, local: nat, d: DefLocation)
    requires DefsValid(body, s)
    ensures DefsValid(body, Without(s, local, d))
    ensures forall l: nat, e :: Has(Without(s, local, d), l, e) <==> Has(s, l, e) && !(l == local && e == d)
  {
    var t := Without(s, local, d);
    forall l: nat, e
      ensures Has(t, l, e) <==> Has(s, l, e) && !(l == local && e == d)
    {
    }
    assert NoneEmpty(t);
  }

  lemma BelowIsIncluded(body: Body, s: Defs, t: Defs)
    requires DefsValid(body, s) && DefsValid(body, t)
    ensures Below(DefsDomain(body), s, t) <==> Included(s, t)
  {
    JoinedHas(s, t);
    JoinAlgebra(s, t);
    JoinedValid(body, t, s);
    JoinedHas(t, s);
  }

  /** Leaving out `d` is an upper bound of the paths along which it does not hold. */
  lemma WithoutBound(body: Body, s: Defs, b: nat, path: seq<nat>, index: nat, local: nat, d: DefLocation)
    requires BodyValid(body) && NoInlineAsm(body) && IsPath(CfgOf(body).successors, path) && End(path) == b
    requires index <= |body.blocks[b].statements| && DefsValid(body, s)
    requires Below(DefsDomain(body), PathStateAt(DefsDomain(body), CfgOf(body), path, index), s)
    ensures Below(DefsDomain(body), PathStateAt(DefsDomain(body), CfgOf(body), path, index), Without(s, local, d)) <==>
            !HoldsAlong(body, path, index, local, d)
  {
    var dom, cfg, laws := DefsDomain(body), CfgOf(body), DefsLaws(body);
    DefsLawful(body);
    DefsErrors(body);
    PathStateValid(dom, cfg, laws, path);
    PrefixOk(dom, cfg, laws, b, PathState(dom, cfg, path), index);
    var t := PathStateAt(dom, cfg, path, index);
    PathStateAtHas(body, path, index, local, d);
    WithoutHas(body, s, local, d);
    BelowIsIncluded(body, t, s);
    BelowIsIncluded(body, t, Without(s, local, d));
  }

  /** A definition is reported before a location exactly if it holds along some path there. */
  lemma ReportedIffHolds(body: Body, before: map<Location, Defs>, after: EdgeMap<Defs>, b: nat, index: nat, local: nat,
                         d: DefLocation)
    requires BodyValid(body) && NoInlineAsm(body) &&
             Solved(DefsDomain(body), CfgOf(body), DefsLaws(body), before, after)
    requires b < |body.blocks| && index <= |body.blocks[b].statements|
    ensures Location(b, index) in before
    ensures Has(before[Location(b, index)], local, d) <==> AlongSome(body, b, index, local, d)
    ensures OnlyReachableInto(CfgOf(body), b) ==>
              (Has(before[Location(b, index)], local, d) <==> AlongSomeFromStart(body, b, index, local, d))
  {
    var dom, cfg, laws := DefsDomain(body), CfgOf(body), DefsLaws(body);
    DefsLawful(body);
    DefsErrors(body);
    SolutionIsJoinOverPaths(dom, cfg, laws, before, after, b, index, dom.bottom);
    var s := before[Location(b, index)];
    var u := Without(s, local, d);
    WithoutHas(body, s, local, d);
    BelowIsIncluded(body, s, u);
    SolutionIsJoinOverPaths(dom, cfg, laws, before, after, b, index, u);
    forall path | IsPath(cfg.successors, path) && End(path) == b
      ensures Below(dom, PathStateAt(dom, cfg, path, index), u) <==> !HoldsAlong(body, path, index, local, d)
    {
      WithoutBound(body, s, b, path, index, local, d);
    }
    if OnlyReachableInto(cfg, b) {
      SolutionIsJoinFromStart(dom, cfg, laws, before, after, b, index, u);
    }
  }

  /** Run the analysis on a body. */
  method Analyze(body: Body) returns (r: AbstractStates.Result<PointwiseState<Defs>>)
    requires BodyValid(body)
    ensures r.Ok? <==> NoInlineAsm(body)
    ensures r.Ok? ==>
              && fresh(r.value)
              && Solved(DefsDomain(body), CfgOf(body), DefsLaws(body), r.value.stateBefore, r.value.stateAfterBlock)
  {
    DefsLawful(body);
    DefsErrors(body);
    r := RunFwdAnalysis(DefsDomain(body), CfgOf(body), DefsLaws(body));
  }
}
