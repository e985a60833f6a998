/**
 The solver against its independent reference: the join of the states along all paths.
 A path may start at the start block with the initial state, or anywhere with bottom;
 where no unreachable block gets in the way, the paths from the start block suffice.
 */
module JoinOverPaths {
  import opened Graphs
  import opened AbstractStates
  import opened Analyzer

  /** The state that a run along `path` has before location `index` of its last block. */
  ghost function PathStateAt<S>(dom: Domain<S>, cfg: Cfg, path: seq<nat>, index: nat): S
    requires |cfg.statements| == |cfg.successors| && IsPath(cfg.successors, path)
  {
    match RunStatements(dom, End(path), PathState(dom, cfg, path), index)
    case Ok(s) => s
    case Err(_) => dom.bottom
  }

  /** A path that starts at the start block. */
  ghost predicate FromStart(cfg: Cfg, path: seq<nat>) {
    IsPath(cfg.successors, path) && path[0] == START_BLOCK
  }

  ghost predicate Reachable(cfg: Cfg, b: nat) {
    Reaches(cfg.successors, START_BLOCK, b)
  }

  ghost predicate AboveAllPaths<S>(dom: Domain<S>, cfg: Cfg, b: nat, index: nat, u: S)
    requires |cfg.statements| == |cfg.successors|
  {
    forall path :: IsPath(cfg.successors, path) && End(path) == b ==> Below(dom, PathStateAt(dom, cfg, path, index), u)
  }

  ghost predicate AbovePathsFromStart<S>(dom: Domain<S>, cfg: Cfg, b: nat, index: nat, u: S)
    requires |cfg.statements| == |cfg.successors|
  {
    forall path :: FromStart(cfg, path) && End(path) == b ==> Below(dom, PathStateAt(dom, cfg, path, index), u)
  }

  // ----- soundness: every path is below the solution -----

  lemma SolvedFacts<S(!new)>(dom: Domain<S>, cfg: Cfg, laws: Laws<S>, before: map<Location, S>, after: EdgeMap<S>,
                             b: nat)
    requires WellFormed(cfg) && Monotone(dom, cfg, laws) && Solved(dom, cfg, laws, before, after)
    requires b < |cfg.statements|
    ensures laws.valid(StateBefore(dom, cfg, after, b))
    ensures b in after && EdgeStates(dom, cfg, b, StateBefore(dom, cfg, after, b)) == Ok(after[b])
    ensures EdgesValid(cfg, laws, after)
  {
    assert SolvedAt(dom, cfg, laws, before, after, b);
    SolutionBounds(dom, cfg, laws, before, after);
  }

  lemma {:induction false} PathBelow<S(!new)>(dom: Domain<S>, cfg: Cfg, laws: Laws<S>, before: map<Location, S>,
                                              after: EdgeMap<S>, path: seq<nat>)
    requires WellFormed(cfg) && Monotone(dom, cfg, laws) && Solved(dom, cfg, laws, before, after)
    requires IsPath(cfg.successors, path)
    ensures Below(dom, PathState(dom, cfg, path), StateBefore(dom, cfg, after, End(path)))
    decreases |path|
  {
    var b := End(path);
    SolvedFacts(dom, cfg, laws, before, after, b);
    if |path| == 1 {
      IncomingAbove(dom, cfg, laws, after, b, |cfg.predecessors[b]|, b);
    } else {
      var prior := path[..|path| - 1];
      assert IsPath(cfg.successors, prior);
      PathBelow(dom, cfg, laws, before, after, prior);
      PathStateValid(dom, cfg, laws, prior);
      SolvedFacts(dom, cfg, laws, before, after, End(prior));
      PathStepBelow(dom, cfg, laws, after, path);
    }
  }

  /** One more edge; a path whose block raises an error goes on from bottom. */
  lemma PathStepBelow<S(!new)>(dom: Domain<S>, cfg: Cfg, laws: Laws<S>, after: EdgeMap<S>, path: seq<nat>)
    requires WellFormed(cfg) && Monotone(dom, cfg, laws) && EdgesValid(cfg, laws, after)
    requires IsPath(cfg.successors, path) && |path| > 1 && IsPath(cfg.successors, path[..|path| - 1])
    requires var prior := path[..|path| - 1];
             var p := End(prior);
             && laws.valid(PathState(dom, cfg, prior)) && laws.valid(StateBefore(dom, cfg, after, p))
             && Below(dom, PathState(dom, cfg, prior), StateBefore(dom, cfg, after, p))
             && p in after && EdgeStates(dom, cfg, p, StateBefore(dom, cfg, after, p)) == Ok(after[p])
    ensures Below(dom, PathState(dom, cfg, path), StateBefore(dom, cfg, after, End(path)))
  {
    var prior, b := path[..|path| - 1], End(path);
    var p, s := End(prior), PathState(dom, cfg, prior);
    IncomingValid(dom, cfg, laws, after, b, |cfg.predecessors[b]|);
    if EdgeStates(dom, cfg, p, s).Ok? {
      EdgesMonotone(dom, cfg, laws, p, s, StateBefore(dom, cfg, after, p));
      assert cfg.predecessors[b][..|cfg.predecessors[b]|] == cfg.predecessors[b];
      IncomingAbove(dom, cfg, laws, after, b, |cfg.predecessors[b]|, p);
      JoinLeast(dom, laws, PathState(dom, cfg, path), after[p][b], StateBefore(dom, cfg, after, b));
    } else {
      JoinFacts(dom, laws, StateBefore(dom, cfg, after, b), StateBefore(dom, cfg, after, b));
    }
  }

  /** The prefix of a block that raises no error raises none either. */
  lemma PrefixOk<S(!new)>(dom: Domain<S>, cfg: Cfg, laws: Laws<S>, b: nat, s: S, index: nat)
    requires WellFormed(cfg) && Distributive(dom, cfg, laws) && NoErrors(dom, cfg)
    requires b < |cfg.statements| && index <= cfg.statements[b] && laws.valid(s)
    ensures RunStatements(dom, b, s, index).Ok? && laws.valid(RunStatements(dom, b, s, index).value)
  {
    DistributiveIsMonotone(dom, cfg, laws);
    JoinFacts(dom, laws, s, s);
    BlockErrorExact(dom, cfg, laws, b, s);
    if RunStatements(dom, b, s, index).Err? {
      FailedRun(dom, b, s, index, cfg.statements[b]);
    }
    StatementsRise(dom, cfg, laws, b, s, s, index);
  }

  lemma RecordedState<S(!new)>(dom: Domain<S>, cfg: Cfg, laws: Laws<S>, before: map<Location, S>, after: EdgeMap<S>,
                               b: nat, index: nat)
    requires WellFormed(cfg) && Monotone(dom, cfg, laws) && Solved(dom, cfg, laws, before, after)
    requires b < |cfg.statements| && index <= cfg.statements[b]
    ensures Location(b, index) in before && laws.valid(before[Location(b, index)])
    ensures RunStatements(dom, b, StateBefore(dom, cfg, after, b), index) == Ok(before[Location(b, index)])
  {
    var s := StateBefore(dom, cfg, after, b);
    assert SolvedAt(dom, cfg, laws, before, after, b);
    assert RecordedAt(dom, before, b, s, index);
    JoinFacts(dom, laws, s, s);
    StatementsRise(dom, cfg, laws, b, s, s, index);
  }

  lemma PathAtBelow<S(!new)>(dom: Domain<S>, cfg: Cfg, laws: Laws<S>, before: map<Location, S>, after: EdgeMap<S>,
                             path: seq<nat>, index: nat)
    requires WellFormed(cfg) && Monotone(dom, cfg, laws) && Solved(dom, cfg, laws, before, after)
    requires IsPath(cfg.successors, path) && index <= cfg.statements[End(path)]
    ensures Location(End(path), index) in before
    ensures laws.valid(PathStateAt(dom, cfg, path, index))
    ensures Below(dom, PathStateAt(dom, cfg, path, index), before[Location(End(path), index)])
  {
    var b := End(path);
    var s, t := PathState(dom, cfg, path), StateBefore(dom, cfg, after, b);
    PathBelow(dom, cfg, laws, before, after, path);
    PathStateValid(dom, cfg, laws, path);
    SolvedFacts(dom, cfg, laws, before, after, b);
    RecordedState(dom, cfg, laws, before, after, b, index);
    StatementsRise(dom, cfg, laws, b, s, t, index);
    JoinFacts(dom, laws, before[Location(b, index)], before[Location(b, index)]);
  }

  /** In every monotone domain the recorded states are above those of all paths. */
  lemma SolutionAboveAllPaths<S(!new)>(dom: Domain<S>, cfg: Cfg, laws: Laws<S>, before: map<Location, S>,
                                       after: EdgeMap<S>, b: nat, index: nat)
    requires WellFormed(cfg) && Monotone(dom, cfg, laws) && Solved(dom, cfg, laws, before, after)
    requires b < |cfg.statements| && index <= cfg.statements[b]
    ensures Location(b, index) in before && laws.valid(before[Location(b, index)])
    ensures AboveAllPaths(dom, cfg, b, index, before[Location(b, index)])
  {
    RecordedState(dom, cfg, laws, before, after, b, index);
    forall path | IsPath(cfg.successors, path) && End(path) == b
      ensures Below(dom, PathStateAt(dom, cfg, path, index), before[Location(b, index)])
    {
      PathAtBelow(dom, cfg, laws, before, after, path, index);
    }
  }

  // ----- a join of finitely many paths is below every bound of all paths -----

  lemma {:induction false} JoinedPathsBelow<S(!new)>(dom: Domain<S>, cfg: Cfg, laws: Laws<S>, b: nat, index: nat,
                                                     paths: Paths, u: S)
    requires WellFormed(cfg) && Distributive(dom, cfg, laws) && NoErrors(dom, cfg)
    requires b < |cfg.statements| && index <= cfg.statements[b] && laws.valid(u)
    requires LeadTo(cfg, b, paths) && AboveAllPaths(dom, cfg, b, index, u)
    ensures laws.valid(JoinOfPaths(dom, cfg, b, paths))
    ensures RunStatements(dom, b, JoinOfPaths(dom, cfg, b, paths), index).Ok?
    ensures Below(dom, RunStatements(dom, b, JoinOfPaths(dom, cfg, b, paths), index).value, u)
  {
    DistributiveIsMonotone(dom, cfg, laws);
    JoinOfPathsValid(dom, cfg, laws, b, paths);
    PrefixOk(dom, cfg, laws, b, JoinOfPaths(dom, cfg, b, paths), index);
    match paths
    case Single(path) =>
      assert Below(dom, PathStateAt(dom, cfg, path, index), u);
    case Both(left, right) =>
      JoinedPathsBelow(dom, cfg, laws, b, index, left, u);
      JoinedPathsBelow(dom, cfg, laws, b, index, right, u);
      var s, t := JoinOfPaths(dom, cfg, b, left), JoinOfPaths(dom, cfg, b, right);
      StatementsKeepJoin(dom, cfg, laws, b, s, t, index);
      JoinLeast(dom, laws, RunStatements(dom, b, s, index).value, RunStatements(dom, b, t, index).value, u);
  }

  // ----- precision: the joins over all paths solve the equations, and the solver finds the least solution -----

  /** Finitely many paths suffice for a join above all of them: each missing path would lower the rank. */
  lemma {:induction false} EnoughPaths<S(!new)>(dom: Domain<S>, cfg: Cfg, laws: Laws<S>, b: nat, paths: Paths)
    returns (enough: Paths)
    requires WellFormed(cfg) && Monotone(dom, cfg, laws) && LeadTo(cfg, b, paths)
    ensures LeadTo(cfg, b, enough) && AboveAllPaths(dom, cfg, b, 0, JoinOfPaths(dom, cfg, b, enough))
    decreases laws.rank(JoinOfPaths(dom, cfg, b, paths))
  {
    var s := JoinOfPaths(dom, cfg, b, paths);
    JoinOfPathsValid(dom, cfg, laws, b, paths);
    if path :| IsPath(cfg.successors, path) && End(path) == b && !Below(dom, PathStateAt(dom, cfg, path, 0), s) {
      PathStateValid(dom, cfg, laws, path);
      var t := PathState(dom, cfg, path);
      assert !Below(dom, t, s);
      JoinFacts(dom, laws, s, t);
      JoinFacts(dom, laws, s, dom.join(s, t));
      assert JoinOfPaths(dom, cfg, b, Both(paths, Single(path))) == dom.join(s, t);
      enough := EnoughPaths(dom, cfg, laws, b, Both(paths, Single(path)));
    } else {
      enough := paths;
    }
  }

  /** Is `s` the join over all paths to `b`, reached by finitely many of them? */
  ghost predicate IsPathJoin<S>(dom: Domain<S>, cfg: Cfg, b: nat, s: S)
    requires |cfg.statements| == |cfg.successors|
  {
    FromPaths(dom, cfg, b, s) && AboveAllPaths(dom, cfg, b, 0, s)
  }

  ghost function PathJoin<S(!new)>(dom: Domain<S>, cfg: Cfg, b: nat): S
    requires |cfg.statements| == |cfg.successors|
  {
    if s :| IsPathJoin(dom, cfg, b, s) then s else dom.bottom
  }

  /** The join over all paths exists, and is a state from which `b` raises no error. */
  ghost predicate HasPathJoin<S(!new)>(dom: Domain<S>, cfg: Cfg, laws: Laws<S>, b: nat)
    requires |cfg.statements| == |cfg.successors|
  {
    && b < |cfg.statements|
    && IsPathJoin(dom, cfg, b, PathJoin(dom, cfg, b))
    && laws.valid(PathJoin(dom, cfg, b))
    && EdgeStates(dom, cfg, b, PathJoin(dom, cfg, b)).Ok?
  }

  lemma PathJoinExists<S(!new)>(dom: Domain<S>, cfg: Cfg, laws: Laws<S>, b: nat)
    requires WellFormed(cfg) && Distributive(dom, cfg, laws) && NoErrors(dom, cfg) && b < |cfg.statements|
    ensures HasPathJoin(dom, cfg, laws, b)
  {
    DistributiveIsMonotone(dom, cfg, laws);
    assert LeadTo(cfg, b, Single([b]));
    var enough := EnoughPaths(dom, cfg, laws, b, Single([b]));
    assert IsPathJoin(dom, cfg, b, JoinOfPaths(dom, cfg, b, enough));
    var paths :| LeadTo(cfg, b, paths) && PathJoin(dom, cfg, b) == JoinOfPaths(dom, cfg, b, paths);
    JoinOfPathsValid(dom, cfg, laws, b, paths);
    BlockErrorExact(dom, cfg, laws, b, PathJoin(dom, cfg, b));
  }

  /** The edge states computed from the joins over all paths. */
  ghost function EdgesOfJoins<S(!new)>(dom: Domain<S>, cfg: Cfg, laws: Laws<S>): EdgeMap<S>
    requires |cfg.statements| == |cfg.successors|
  {
    map b: nat | b < |cfg.statements| && HasPathJoin(dom, cfg, laws, b) ::
      EdgeStates(dom, cfg, b, PathJoin(dom, cfg, b)).value
  }

  lemma EdgeBelowJoin<S(!new)>(dom: Domain<S>, cfg: Cfg, laws: Laws<S>, p: nat, b: nat)
    requires WellFormed(cfg) && Distributive(dom, cfg, laws) && NoErrors(dom, cfg)
    requires HasPathJoin(dom, cfg, laws, p) && HasPathJoin(dom, cfg, laws, b) && b in cfg.successors[p]
    ensures b in EdgeStates(dom, cfg, p, PathJoin(dom, cfg, p)).value
    ensures Below(dom, EdgeStates(dom, cfg, p, PathJoin(dom, cfg, p)).value[b], PathJoin(dom, cfg, b))
  {
    var paths :| LeadTo(cfg, p, paths) && PathJoin(dom, cfg, p) == JoinOfPaths(dom, cfg, p, paths);
    FromPathsEdge(dom, cfg, laws, p, b, paths);
    var edge := EdgeStates(dom, cfg, p, PathJoin(dom, cfg, p)).value[b];
    var longer :| LeadTo(cfg, b, longer) && edge == JoinOfPaths(dom, cfg, b, longer);
    JoinedPathsBelow(dom, cfg, laws, b, 0, longer, PathJoin(dom, cfg, b));
  }

  lemma EntryBelowJoin<S(!new)>(dom: Domain<S>, cfg: Cfg, laws: Laws<S>, b: nat)
    requires WellFormed(cfg) && HasPathJoin(dom, cfg, laws, b)
    ensures Below(dom, Entry(dom, b), PathJoin(dom, cfg, b))
  {
    var path := [b];
    assert IsPath(cfg.successors, path) && End(path) == b;
    assert Below(dom, PathStateAt(dom, cfg, path, 0), PathJoin(dom, cfg, b));
  }

  lemma StateBelowJoin<S(!new)>(dom: Domain<S>, cfg: Cfg, laws: Laws<S>, b: nat)
    requires WellFormed(cfg) && Distributive(dom, cfg, laws) && NoErrors(dom, cfg) && HasPathJoin(dom, cfg, laws, b)
    requires EdgesValid(cfg, laws, EdgesOfJoins(dom, cfg, laws))
    ensures Below(dom, StateBefore(dom, cfg, EdgesOfJoins(dom, cfg, laws), b), PathJoin(dom, cfg, b))
  {
    var bound, u := EdgesOfJoins(dom, cfg, laws), PathJoin(dom, cfg, b);
    EntryBelowJoin(dom, cfg, laws, b);
    forall p | p in bound && b in bound[p]
      ensures Below(dom, bound[p][b], u)
    {
      EdgeBelowJoin(dom, cfg, laws, p, b);
    }
    IncomingLeast(dom, cfg, laws, bound, b, |cfg.predecessors[b]|, u);
  }

  /** The joins over all paths satisfy the edge inequations. */
  lemma JoinsBound<S(!new)>(dom: Domain<S>, cfg: Cfg, laws: Laws<S>)
    requires WellFormed(cfg) && Distributive(dom, cfg, laws) && NoErrors(dom, cfg)
    ensures forall b: nat :: b < |cfg.statements| ==> HasPathJoin(dom, cfg, laws, b)
    ensures PostSolution(dom, cfg, laws, EdgesOfJoins(dom, cfg, laws))
  {
    DistributiveIsMonotone(dom, cfg, laws);
    forall b: nat | b < |cfg.statements|
      ensures HasPathJoin(dom, cfg, laws, b)
    {
      PathJoinExists(dom, cfg, laws, b);
    }
    var bound := EdgesOfJoins(dom, cfg, laws);
    forall p | p in bound
      ensures (forall b :: b in bound[p] <==> b in cfg.successors[p]) &&
              forall b :: b in bound[p] ==> laws.valid(bound[p][b])
    {
      EdgesExact(dom, cfg, laws, p, PathJoin(dom, cfg, p));
    }
    forall p: nat | p < |cfg.statements|
      ensures p in bound && BoundAt(dom, cfg, bound, p)
    {
      assert HasPathJoin(dom, cfg, laws, p);
      var s := StateBefore(dom, cfg, bound, p);
      StateBelowJoin(dom, cfg, laws, p);
      IncomingValid(dom, cfg, laws, bound, p, |cfg.predecessors[p]|);
      BlockErrorExact(dom, cfg, laws, p, s);
      EdgesMonotone(dom, cfg, laws, p, s, PathJoin(dom, cfg, p));
    }
  }

  /** What the solver finds is therefore the join over all paths. */
  lemma SolutionFromPaths<S(!new)>(dom: Domain<S>, cfg: Cfg, laws: Laws<S>, before: map<Location, S>, after: EdgeMap<S>,
                                   b: nat)
    requires WellFormed(cfg) && Distributive(dom, cfg, laws) && Solved(dom, cfg, laws, before, after)
    requires b < |cfg.statements|
    ensures IsPathJoin(dom, cfg, b, StateBefore(dom, cfg, after, b))
  {
    DistributiveIsMonotone(dom, cfg, laws);
    SolvedNoErrors(dom, cfg, laws, before, after);
    JoinsBound(dom, cfg, laws);
    var bound, k := EdgesOfJoins(dom, cfg, laws), |cfg.predecessors[b]|;
    var s, u := StateBefore(dom, cfg, after, b), PathJoin(dom, cfg, b);
    SolvedFacts(dom, cfg, laws, before, after, b);
    assert HasPathJoin(dom, cfg, laws, b);
    IncomingBelow(dom, cfg, laws, after, bound, b, k);
    StateBelowJoin(dom, cfg, laws, b);
    IncomingValid(dom, cfg, laws, bound, b, k);
    JoinLeast(dom, laws, s, StateBefore(dom, cfg, bound, b), u);
    forall path | IsPath(cfg.successors, path) && End(path) == b
      ensures Below(dom, PathStateAt(dom, cfg, path, 0), s)
    {
      PathBelow(dom, cfg, laws, before, after, path);
    }
    var paths :| LeadTo(cfg, b, paths) && u == JoinOfPaths(dom, cfg, b, paths);
    JoinedPathsBelow(dom, cfg, laws, b, 0, paths, s);
    JoinFacts(dom, laws, s, u);
  }

  /**
   The recorded state is the join of the states along all paths: it is above each of
   them, and below everything else that is.
   */
  lemma SolutionIsJoinOverPaths<S(!new)>(dom: Domain<S>, cfg: Cfg, laws: Laws<S>, before: map<Location, S>,
                                         after: EdgeMap<S>, b: nat, index: nat, u: S)
    requires WellFormed(cfg) && Distributive(dom, cfg, laws) && Solved(dom, cfg, laws, before, after)
    requires b < |cfg.statements| && index <= cfg.statements[b] && laws.valid(u)
    ensures Location(b, index) in before && laws.valid(before[Location(b, index)])
    ensures AboveAllPaths(dom, cfg, b, index, before[Location(b, index)])
    ensures Below(dom, before[Location(b, index)], u) <==> AboveAllPaths(dom, cfg, b, index, u)
  {
    var found := StateBefore(dom, cfg, after, b);
    DistributiveIsMonotone(dom, cfg, laws);
    SolvedNoErrors(dom, cfg, laws, before, after);
    RecordedState(dom, cfg, laws, before, after, b, index);
    forall path | IsPath(cfg.successors, path) && End(path) == b
      ensures Below(dom, PathStateAt(dom, cfg, path, index), before[Location(b, index)])
      ensures Below(dom, before[Location(b, index)], u) ==> Below(dom, PathStateAt(dom, cfg, path, index), u)
    {
      PathAtBelow(dom, cfg, laws, before, after, path, index);
      JoinLeast(dom, laws, PathStateAt(dom, cfg, path, index), before[Location(b, index)], u);
    }
    if AboveAllPaths(dom, cfg, b, index, u) {
      SolutionFromPaths(dom, cfg, laws, before, after, b);
      var paths :| LeadTo(cfg, b, paths) && found == JoinOfPaths(dom, cfg, b, paths);
      JoinedPathsBelow(dom, cfg, laws, b, index, paths, u);
    }
  }

  // ----- paths from the start block -----

  ghost predicate OnlyReachableInto(cfg: Cfg, b: nat) {
    forall a: nat :: Reaches(cfg.successors, a, b) ==> Reachable(cfg, a)
  }

  lemma {:induction false} AppendPath(cfg: Cfg, head: seq<nat>, path: seq<nat>)
    requires WellFormed(cfg) && IsPath(cfg.successors, head) && IsPath(cfg.successors, path) && End(head) == path[0]
    ensures IsPath(cfg.successors, head + path[1..]) && End(head + path[1..]) == End(path) &&
            (head + path[1..])[0] == head[0]
    ensures |path| > 1 ==> (head + path[1..])[..|head + path[1..]| - 1] == head + path[..|path| - 1][1..]
  {
    JoinPaths(cfg.successors, head, path);
  }

  /** Starting from the start block instead of from bottom only raises the state. */
  lemma {:induction false} LongerPathAbove<S(!new)>(dom: Domain<S>, cfg: Cfg, laws: Laws<S>, head: seq<nat>,
                                                    path: seq<nat>)
    requires WellFormed(cfg) && Distributive(dom, cfg, laws) && NoErrors(dom, cfg)
    requires IsPath(cfg.successors, head) && IsPath(cfg.successors, path) && End(head) == path[0] &&
             path[0] != START_BLOCK
    ensures IsPath(cfg.successors, head + path[1..]) && End(head + path[1..]) == End(path)
    ensures Below(dom, PathState(dom, cfg, path), PathState(dom, cfg, head + path[1..]))
    decreases |path|
  {
    DistributiveIsMonotone(dom, cfg, laws);
    AppendPath(cfg, head, path);
    var all := head + path[1..];
    PathStateValid(dom, cfg, laws, all);
    if |path| == 1 {
      JoinFacts(dom, laws, PathState(dom, cfg, all), PathState(dom, cfg, all));
    } else {
      var prior := path[..|path| - 1];
      assert IsPath(cfg.successors, prior);
      LongerPathAbove(dom, cfg, laws, head, prior);
      assert all[..|all| - 1] == head + prior[1..];
      PathStepAbove(dom, cfg, laws, path, all);
    }
  }

  lemma PathStepAbove<S(!new)>(dom: Domain<S>, cfg: Cfg, laws: Laws<S>, path: seq<nat>, path': seq<nat>)
    requires WellFormed(cfg) && Distributive(dom, cfg, laws) && NoErrors(dom, cfg)
    requires IsPath(cfg.successors, path) && IsPath(cfg.successors, path') && |path| > 1 && |path'| > 1 &&
             End(path) == End(path')
    requires var prior, prior' := path[..|path| - 1], path'[..|path'| - 1];
             && IsPath(cfg.successors, prior) && IsPath(cfg.successors, prior') && End(prior) == End(prior')
             && Below(dom, PathState(dom, cfg, prior), PathState(dom, cfg, prior'))
    ensures Below(dom, PathState(dom, cfg, path), PathState(dom, cfg, path'))
  {
    var prior, prior' := path[..|path| - 1], path'[..|path'| - 1];
    DistributiveIsMonotone(dom, cfg, laws);
    PathStateValid(dom, cfg, laws, prior);
    PathStateValid(dom, cfg, laws, prior');
    BlockErrorExact(dom, cfg, laws, End(prior), PathState(dom, cfg, prior));
    BlockErrorExact(dom, cfg, laws, End(prior), PathState(dom, cfg, prior'));
    EdgesMonotone(dom, cfg, laws, End(prior), PathState(dom, cfg, prior), PathState(dom, cfg, prior'));
  }

  lemma PathsFromStartSuffice<S(!new)>(dom: Domain<S>, cfg: Cfg, laws: Laws<S>, b: nat, index: nat, u: S)
    requires WellFormed(cfg) && Distributive(dom, cfg, laws) && NoErrors(dom, cfg)
    requires b < |cfg.statements| && index <= cfg.statements[b] && laws.valid(u)
    requires OnlyReachableInto(cfg, b)
    ensures AboveAllPaths(dom, cfg, b, index, u) <==> AbovePathsFromStart(dom, cfg, b, index, u)
  {
    DistributiveIsMonotone(dom, cfg, laws);
    if AbovePathsFromStart(dom, cfg, b, index, u) {
      forall path | IsPath(cfg.successors, path) && End(path) == b
        ensures Below(dom, PathStateAt(dom, cfg, path, index), u)
      {
        if path[0] != START_BLOCK {
          assert PathFromTo(cfg.successors, path, path[0], b);
          assert Reachable(cfg, path[0]);
          var head :| PathFromTo(cfg.successors, head, START_BLOCK, path[0]);
          AppendPath(cfg, head, path);
          LongerPathAbove(dom, cfg, laws, head, path);
          var all := head + path[1..];
          assert FromStart(cfg, all);
          PathStateValid(dom, cfg, laws, path);
          PathStateValid(dom, cfg, laws, all);
          PrefixOk(dom, cfg, laws, b, PathState(dom, cfg, path), index);
          PrefixOk(dom, cfg, laws, b, PathState(dom, cfg, all), index);
          StatementsKeepJoin(dom, cfg, laws, b, PathState(dom, cfg, path), PathState(dom, cfg, all), index);
          JoinLeast(dom, laws, PathStateAt(dom, cfg, path, index), PathStateAt(dom, cfg, all, index), u);
        }
      }
    }
  }

  /** Where only reachable blocks lead to `b`, the solution is the join over the paths from the start block. */
  lemma SolutionIsJoinFromStart<S(!new)>(dom: Domain<S>, cfg: Cfg, laws: Laws<S>, before: map<Location, S>,
                                         after: EdgeMap<S>, b: nat, index: nat, u: S)
    requires WellFormed(cfg) && Distributive(dom, cfg, laws) && Solved(dom, cfg, laws, before, after)
    requires b < |cfg.statements| && index <= cfg.statements[b] && laws.valid(u)
    requires OnlyReachableInto(cfg, b)
    ensures Location(b, index) in before
    ensures Below(dom, before[Location(b, index)], u) <==> AbovePathsFromStart(dom, cfg, b, index, u)
  {
    SolvedNoErrors(dom, cfg, laws, before, after);
    SolutionIsJoinOverPaths(dom, cfg, laws, before, after, b, index, u);
    PathsFromStartSuffice(dom, cfg, laws, b, index, u);
  }

  lemma OnPathReachable(cfg: Cfg, path: seq<nat>, i: nat)
    requires FromStart(cfg, path) && i < |path|
    ensures Reachable(cfg, path[i])
  {
    assert PathFromTo(cfg.successors, path[..i + 1], START_BLOCK, path[i]);
  }

  // ----- unreachable blocks lose precision -----

  /** A domain that notices whether control has passed through block `u`. */
  function PassedThrough(cfg: Cfg, u: nat): Domain<bool> {
    Domain(
      false,
      false,
      (s: bool, t: bool) => s || t,
      (loc: Location, s: bool) => Ok(s),
      (loc: Location, s: bool) =>
        if loc.block < |cfg.successors| then
          Ok(seq(|cfg.successors[loc.block]|, (i: nat) requires i < |cfg.successors[loc.block]| =>
            (cfg.successors[loc.block][i], s || loc.block == u)))
        else Ok([]))
  }

  function BoolLaws(): Laws<bool> {
    Laws((s: bool) => true, (s: bool) => if s then 0 else 1, 2)
  }

  lemma PassedThroughLawful(cfg: Cfg, u: nat)
    requires WellFormed(cfg)
    ensures Distributive(PassedThrough(cfg, u), cfg, BoolLaws())
  {
    var dom, laws := PassedThrough(cfg, u), BoolLaws();
    assert JoinLaws(dom, laws) by {
      forall s, t ensures PairLaw(dom, laws, s, t) {}
      forall s, t, r ensures TripleLaw(dom, laws, s, t, r) {}
    }
    forall loc, s, t
      ensures KeepsJoinAt(dom, cfg, laws, loc, s, t)
    {
    }
  }

  lemma {:induction false} PassedEdges(cfg: Cfg, u: nat, p: nat, s: bool)
    requires WellFormed(cfg) && p < |cfg.statements|
    ensures EdgeStates(PassedThrough(cfg, u), cfg, p, s).Ok?
    ensures var edges := EdgeStates(PassedThrough(cfg, u), cfg, p, s).value;
            forall t :: t in cfg.successors[p] ==> t in edges && edges[t] == (s || p == u)
  {
    var dom := PassedThrough(cfg, u);
    PassedStatements(cfg, u, p, s, cfg.statements[p]);
    var states := dom.terminator(TerminatorLoc(cfg, p), s).value;
    PassedMerge(cfg, u, cfg.successors[p], states, s || p == u);
  }

  lemma {:induction false} PassedStatements(cfg: Cfg, u: nat, p: nat, s: bool, count: nat)
    ensures RunStatements(PassedThrough(cfg, u), p, s, count) == Ok(s)
  {
    if count > 0 {
      PassedStatements(cfg, u, p, s, count - 1);
    }
  }

  lemma {:induction false} PassedMerge(cfg: Cfg, u: nat, successors: seq<nat>, states: seq<(nat, bool)>, s: bool)
    requires |states| == |successors|
    requires forall i :: 0 <= i < |states| ==> states[i].0 == successors[i] && states[i].1 == s
    ensures var merged := MergeTargets(PassedThrough(cfg, u), states);
            && (forall t :: t in merged <==> t in successors)
            && forall t :: t in merged ==> merged[t] == s
    decreases |states|
  {
    if states != [] {
      var k := |states| - 1;
      PassedMerge(cfg, u, successors[..k], states[..k], s);
      assert successors == successors[..k] + [successors[k]];
      var prior := MergeTargets(PassedThrough(cfg, u), states[..k]);
      if successors[k] in prior {
        assert prior[successors[k]] == s;
      }
    }
  }

  lemma {:induction false} PassedPath(cfg: Cfg, u: nat, path: seq<nat>)
    requires WellFormed(cfg) && IsPath(cfg.successors, path)
    ensures PathState(PassedThrough(cfg, u), cfg, path) <==> u in path[..|path| - 1]
    decreases |path|
  {
    if |path| > 1 {
      var prior := path[..|path| - 1];
      assert IsPath(cfg.successors, prior);
      PassedPath(cfg, u, prior);
      PassedEdges(cfg, u, End(prior), PathState(PassedThrough(cfg, u), cfg, prior));
      assert prior == prior[..|prior| - 1] + [End(prior)];
    }
  }

  /**
   The other half: whenever an unreachable block `u` leads to the reachable block `b`, some lawful
   domain gets a state for `b` that is strictly above that of every path from the start block.
   */
  lemma UnreachableLosesPrecision(cfg: Cfg, u: nat, b: nat, before: map<Location, bool>, after: EdgeMap<bool>)
    requires WellFormed(cfg) && b < |cfg.statements|
    requires Reachable(cfg, b) && Reaches(cfg.successors, u, b) && !Reachable(cfg, u)
    requires Solved(PassedThrough(cfg, u), cfg, BoolLaws(), before, after)
    ensures Distributive(PassedThrough(cfg, u), cfg, BoolLaws()) && NoErrors(PassedThrough(cfg, u), cfg)
    ensures Location(b, 0) in before && before[Location(b, 0)]
    ensures AbovePathsFromStart(PassedThrough(cfg, u), cfg, b, 0, false)
  {
    var dom := PassedThrough(cfg, u);
    PassedThroughLawful(cfg, u);
    DistributiveIsMonotone(dom, cfg, BoolLaws());
    forall p: nat | p < |cfg.statements|
      ensures BlockError(dom, cfg, p).None?
    {
      PassedEdges(cfg, u, p, dom.bottom);
    }
    var path :| PathFromTo(cfg.successors, path, u, b);
    assert u != b;
    assert path[..|path| - 1][0] == u;
    PassedPath(cfg, u, path);
    PathAtBelow(dom, cfg, BoolLaws(), before, after, path, 0);
    forall other | FromStart(cfg, other) && End(other) == b
      ensures Below(dom, PathStateAt(dom, cfg, other, 0), false)
    {
      PassedPath(cfg, u, other);
      if u in other[..|other| - 1] {
        var i :| 0 <= i < |other| - 1 && other[i] == u;
        OnPathReachable(cfg, other, i);
      }
    }
  }
}
