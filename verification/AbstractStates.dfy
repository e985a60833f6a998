/**
 Abstract states of the forward analysis. A domain is a record of its operations, and
 the laws that the analysis relies on are a predicate over that record. From them
 follow the states of a block's outgoing edges and the states along paths.
 */
module AbstractStates {
  import opened Wrappers
  import opened Graphs

  datatype Location = Location(block: nat, index: nat)

  datatype AnalysisError =
    | UnsupportedStatement(location: Location)
    | SuccessorWithoutState(location: Location, successor: nat)

  datatype Result<+T> = Ok(value: T) | Err(error: AnalysisError)

  /** The shape of a body: the number of statements and the edges of each block. Block 0 is the start block. */
  datatype Cfg = Cfg(statements: seq<nat>, successors: seq<seq<nat>>, predecessors: seq<seq<nat>>)

  const START_BLOCK: nat := 0

  ghost predicate WellFormed(cfg: Cfg) {
    && 0 < |cfg.statements| == |cfg.successors| == |cfg.predecessors|
    && (forall p, b :: 0 <= p < |cfg.successors| && b in cfg.successors[p] ==> b < |cfg.successors|)
    && (forall p, b :: 0 <= b < |cfg.predecessors| && p in cfg.predecessors[b] ==>
                         p < |cfg.successors| && b in cfg.successors[p])
    && (forall p, b :: 0 <= p < |cfg.successors| && b in cfg.successors[p] ==> p in cfg.predecessors[b])
  }

  function TerminatorLoc(cfg: Cfg, block: nat): Location
    requires block < |cfg.statements|
  {
    Location(block, cfg.statements[block])
  }

  /** The operations of an abstract state. */
  datatype Domain<!S> = Domain(
    bottom: S,
    initial: S,
    join: (S, S) -> S,
    statement: (Location, S) -> Result<S>,
    terminator: (Location, S) -> Result<seq<(nat, S)>>)

  // ----- what one block does to its incoming state -----

  function RunStatements<S>(dom: Domain<S>, block: nat, s: S, count: nat): Result<S> {
    if count == 0 then Ok(s)
    else
      match RunStatements(dom, block, s, count - 1)
      case Err(e) => Err(e)
      case Ok(t) => dom.statement(Location(block, count - 1), t)
  }

  /** States for the same target are joined, in the order of the list. */
  function MergeTargets<S>(dom: Domain<S>, states: seq<(nat, S)>): map<nat, S> {
    if states == [] then map[]
    else
      AddTarget(dom, MergeTargets(dom, states[..|states| - 1]), states[|states| - 1])
  }

  function AddTarget<S>(dom: Domain<S>, merged: map<nat, S>, next: (nat, S)): map<nat, S> {
    if next.0 in merged then merged[next.0 := dom.join(merged[next.0], next.1)] else merged[next.0 := next.1]
  }

  function FirstMissing<S>(successors: seq<nat>, states: map<nat, S>): (missing: Option<nat>)
    ensures missing.None? <==> forall b :: b in successors ==> b in states
  {
    if successors == [] then None
    else if successors[0] !in states then Some(successors[0])
    else FirstMissing(successors[1..], states)
  }

  /** The states on the outgoing edges of `block` for the incoming state `s`. */
  function EdgeStates<S>(dom: Domain<S>, cfg: Cfg, block: nat, s: S): Result<map<nat, S>>
    requires block < |cfg.statements| == |cfg.successors|
  {
    match RunStatements(dom, block, s, cfg.statements[block])
    case Err(e) => Err(e)
    case Ok(t) =>
      match dom.terminator(TerminatorLoc(cfg, block), t)
      case Err(e) => Err(e)
      case Ok(states) =>
        SelectEdges(TerminatorLoc(cfg, block), cfg.successors[block], MergeTargets(dom, states))
  }

  function SelectEdges<S>(loc: Location, successors: seq<nat>, merged: map<nat, S>): Result<map<nat, S>> {
    match FirstMissing(successors, merged)
    case Some(b) => Err(SuccessorWithoutState(loc, b))
    case None => Ok(Selected(successors, merged))
  }

  function Selected<S>(successors: seq<nat>, states: map<nat, S>): map<nat, S>
    requires forall b :: b in successors ==> b in states
  {
    map b | b in successors :: states[b]
  }

  function Entry<S>(dom: Domain<S>, block: nat): S {
    if block == START_BLOCK then dom.initial else dom.bottom
  }

  type EdgeMap<S> = map<nat, map<nat, S>>

  /** The entry state of `block`, joined with the known states of its first `count` incoming edges. */
  function Incoming<S>(dom: Domain<S>, cfg: Cfg, after: EdgeMap<S>, block: nat, count: nat): S
    requires block < |cfg.predecessors| && count <= |cfg.predecessors[block]|
  {
    if count == 0 then Entry(dom, block)
    else
      var s := Incoming(dom, cfg, after, block, count - 1);
      var p := cfg.predecessors[block][count - 1];
      if p in after && block in after[p] then dom.join(s, after[p][block]) else s
  }

  function StateBefore<S>(dom: Domain<S>, cfg: Cfg, after: EdgeMap<S>, block: nat): S
    requires block < |cfg.predecessors|
  {
    Incoming(dom, cfg, after, block, |cfg.predecessors[block]|)
  }

  // ----- the laws of a domain -----

  /** Which states the domain uses, and how far each may still rise. */
  datatype Laws<!S> = Laws(valid: S -> bool, rank: S -> nat, height: nat)

  ghost predicate Below<S>(dom: Domain<S>, s: S, t: S) {
    dom.join(s, t) == t
  }

  ghost predicate PairLaw<S>(dom: Domain<S>, laws: Laws<S>, s: S, t: S) {
    laws.valid(s) && laws.valid(t) ==>
      && laws.valid(dom.join(s, t))
      && dom.join(s, t) == dom.join(t, s)
      && dom.join(s, s) == s
      && dom.join(dom.bottom, s) == s
      && laws.rank(s) < laws.height
      && (dom.join(s, t) == s || laws.rank(dom.join(s, t)) < laws.rank(s))
  }

  ghost predicate TripleLaw<S>(dom: Domain<S>, laws: Laws<S>, s: S, t: S, u: S) {
    laws.valid(s) && laws.valid(t) && laws.valid(u) ==> dom.join(dom.join(s, t), u) == dom.join(s, dom.join(t, u))
  }

  ghost predicate JoinLaws<S(!new)>(dom: Domain<S>, laws: Laws<S>) {
    && laws.valid(dom.bottom)
    && laws.valid(dom.initial)
    && (forall s, t :: PairLaw(dom, laws, s, t))
    && (forall s, t, u :: TripleLaw(dom, laws, s, t, u))
  }

  // A transfer function is monotone if it takes a higher state to a higher result. Nothing
  // is asked of it where it raises an error, and whether it does may depend on the state.

  ghost predicate StatementRises<S>(dom: Domain<S>, laws: Laws<S>, r: Result<S>, r': Result<S>) {
    r.Ok? && r'.Ok? ==> laws.valid(r.value) && laws.valid(r'.value) && Below(dom, r.value, r'.value)
  }

  ghost predicate TerminatorRises<S>(dom: Domain<S>, laws: Laws<S>, r: Result<seq<(nat, S)>>, r': Result<seq<(nat, S)>>)
  {
    r.Ok? && r'.Ok? ==> StatesRise(dom, laws, MergeTargets(dom, r.value), MergeTargets(dom, r'.value))
  }

  ghost predicate StatesRise<S>(dom: Domain<S>, laws: Laws<S>, m: map<nat, S>, m': map<nat, S>) {
    && (forall b :: b in m ==> laws.valid(m[b]))
    && (forall b :: b in m' ==> laws.valid(m'[b]))
    && (forall b :: b in m && b in m' ==> Below(dom, m[b], m'[b]))
  }

  ghost predicate RisesAt<S>(dom: Domain<S>, cfg: Cfg, laws: Laws<S>, loc: Location, s: S, t: S)
    requires WellFormed(cfg)
  {
    loc.block < |cfg.statements| && laws.valid(s) && laws.valid(t) && Below(dom, s, t) ==>
      if loc.index < cfg.statements[loc.block] then
        StatementRises(dom, laws, dom.statement(loc, s), dom.statement(loc, t))
      else if loc.index == cfg.statements[loc.block] then
        TerminatorRises(dom, laws, dom.terminator(loc, s), dom.terminator(loc, t))
      else true
  }

  /** A semilattice of finite height whose transfer functions are monotone. */
  ghost predicate Monotone<S(!new)>(dom: Domain<S>, cfg: Cfg, laws: Laws<S>)
    requires WellFormed(cfg)
  {
    && JoinLaws(dom, laws)
    && forall loc, s, t :: RisesAt(dom, cfg, laws, loc, s, t)
  }

  /** Either all three results are the same error, or the third is the join of the other two. */
  ghost predicate StatementLaw<S>(dom: Domain<S>, laws: Laws<S>, r: Result<S>, r': Result<S>, joined: Result<S>) {
    match (r, r', joined)
    case (Ok(s), Ok(t), Ok(u)) => laws.valid(s) && laws.valid(t) && u == dom.join(s, t)
    case (Err(e), Err(e'), Err(f)) => e == e' == f
    case _ => false
  }

  ghost predicate TerminatorLaw<S>(dom: Domain<S>, laws: Laws<S>, successors: seq<nat>,
                                   r: Result<seq<(nat, S)>>, r': Result<seq<(nat, S)>>, joined: Result<seq<(nat, S)>>)
  {
    match (r, r', joined)
    case (Ok(s), Ok(t), Ok(u)) => TargetsJoin(dom, laws, s, t, u) && forall i :: 0 <= i < |s| ==> s[i].0 in successors
    case (Err(e), Err(e'), Err(f)) => e == e' == f
    case _ => false
  }

  ghost predicate TargetsJoin<S>(dom: Domain<S>, laws: Laws<S>, s: seq<(nat, S)>, t: seq<(nat, S)>, u: seq<(nat, S)>) {
    && |s| == |t| == |u|
    && forall i :: 0 <= i < |s| ==>
                     && s[i].0 == t[i].0 == u[i].0
                     && laws.valid(s[i].1) && laws.valid(t[i].1)
                     && u[i].1 == dom.join(s[i].1, t[i].1)
  }

  ghost predicate KeepsJoinAt<S>(dom: Domain<S>, cfg: Cfg, laws: Laws<S>, loc: Location, s: S, t: S)
    requires WellFormed(cfg)
  {
    loc.block < |cfg.statements| && laws.valid(s) && laws.valid(t) ==>
      if loc.index < cfg.statements[loc.block] then
        StatementLaw(dom, laws, dom.statement(loc, s), dom.statement(loc, t), dom.statement(loc, dom.join(s, t)))
      else if loc.index == cfg.statements[loc.block] then
        TerminatorLaw(dom, laws, cfg.successors[loc.block],
                      dom.terminator(loc, s), dom.terminator(loc, t), dom.terminator(loc, dom.join(s, t)))
      else true
  }

  /** A semilattice of finite height whose transfer functions keep joins. */
  ghost predicate Distributive<S(!new)>(dom: Domain<S>, cfg: Cfg, laws: Laws<S>)
    requires WellFormed(cfg)
  {
    && JoinLaws(dom, laws)
    && forall loc, s, t :: KeepsJoinAt(dom, cfg, laws, loc, s, t)
  }

  lemma JoinFacts<S(!new)>(dom: Domain<S>, laws: Laws<S>, s: S, t: S)
    requires JoinLaws(dom, laws) && laws.valid(s) && laws.valid(t)
    ensures laws.valid(dom.join(s, t))
    ensures Below(dom, s, dom.join(s, t)) && Below(dom, t, dom.join(s, t))
    ensures Below(dom, s, s) && Below(dom, dom.bottom, s)
    ensures laws.rank(s) < laws.height
    ensures Below(dom, s, t) && s != t ==> laws.rank(t) < laws.rank(s)
    ensures Below(dom, s, t) && Below(dom, t, s) ==> s == t
  {
    assert PairLaw(dom, laws, s, t) && PairLaw(dom, laws, t, s);
    assert TripleLaw(dom, laws, s, s, t) && TripleLaw(dom, laws, t, t, s);
  }

  lemma JoinLeast<S(!new)>(dom: Domain<S>, laws: Laws<S>, s: S, t: S, u: S)
    requires JoinLaws(dom, laws) && laws.valid(s) && laws.valid(t) && laws.valid(u)
    ensures Below(dom, s, u) && Below(dom, t, u) ==> Below(dom, dom.join(s, t), u)
    ensures Below(dom, s, t) && Below(dom, t, u) ==> Below(dom, s, u)
    ensures dom.join(dom.join(s, t), u) == dom.join(s, dom.join(t, u))
  {
    assert TripleLaw(dom, laws, s, t, u);
  }

  lemma JoinSwap<S(!new)>(dom: Domain<S>, laws: Laws<S>, a: S, b: S, c: S, d: S)
    requires JoinLaws(dom, laws)
    requires laws.valid(a) && laws.valid(b) && laws.valid(c) && laws.valid(d)
    ensures dom.join(dom.join(a, b), dom.join(c, d)) == dom.join(dom.join(a, c), dom.join(b, d))
  {
    assert PairLaw(dom, laws, b, c) && PairLaw(dom, laws, c, d) && PairLaw(dom, laws, b, d);
    assert TripleLaw(dom, laws, a, b, dom.join(c, d)) && TripleLaw(dom, laws, a, c, dom.join(b, d));
    assert TripleLaw(dom, laws, b, c, d) && TripleLaw(dom, laws, c, b, d);
  }

  // ----- monotone transfer functions -----

  lemma {:induction false} StatementsRise<S(!new)>(dom: Domain<S>, cfg: Cfg, laws: Laws<S>, block: nat, s: S, t: S,
                                                   count: nat)
    requires WellFormed(cfg) && Monotone(dom, cfg, laws)
    requires block < |cfg.statements| && count <= cfg.statements[block]
    requires laws.valid(s) && laws.valid(t) && Below(dom, s, t)
    ensures StatementRises(dom, laws, RunStatements(dom, block, s, count), RunStatements(dom, block, t, count))
  {
    if count > 0 {
      StatementsRise(dom, cfg, laws, block, s, t, count - 1);
      var r, r' := RunStatements(dom, block, s, count - 1), RunStatements(dom, block, t, count - 1);
      if r.Ok? && r'.Ok? {
        assert RisesAt(dom, cfg, laws, Location(block, count - 1), r.value, r'.value);
      }
    }
  }

  /** From a higher incoming state a block computes higher states for its outgoing edges. */
  lemma EdgesMonotone<S(!new)>(dom: Domain<S>, cfg: Cfg, laws: Laws<S>, block: nat, s: S, t: S)
    requires WellFormed(cfg) && Monotone(dom, cfg, laws) && block < |cfg.statements|
    requires laws.valid(s) && laws.valid(t) && Below(dom, s, t)
    requires EdgeStates(dom, cfg, block, s).Ok? && EdgeStates(dom, cfg, block, t).Ok?
    ensures var m, n := EdgeStates(dom, cfg, block, s).value, EdgeStates(dom, cfg, block, t).value;
            && m.Keys == n.Keys && (forall b :: b in m <==> b in cfg.successors[block])
            && forall b :: b in m ==> laws.valid(m[b]) && laws.valid(n[b]) && Below(dom, m[b], n[b])
  {
    var count := cfg.statements[block];
    StatementsRise(dom, cfg, laws, block, s, t, count);
    var r, r' := RunStatements(dom, block, s, count), RunStatements(dom, block, t, count);
    assert RisesAt(dom, cfg, laws, TerminatorLoc(cfg, block), r.value, r'.value);
  }

  lemma EdgesExact<S(!new)>(dom: Domain<S>, cfg: Cfg, laws: Laws<S>, block: nat, s: S)
    requires WellFormed(cfg) && Monotone(dom, cfg, laws) && block < |cfg.statements| && laws.valid(s)
    requires EdgeStates(dom, cfg, block, s).Ok?
    ensures var m := EdgeStates(dom, cfg, block, s).value;
            (forall b :: b in m <==> b in cfg.successors[block]) && forall b :: b in m ==> laws.valid(m[b])
  {
    JoinFacts(dom, laws, s, s);
    EdgesMonotone(dom, cfg, laws, block, s, s);
  }

  // ----- transfer functions keep joins -----

  lemma DistributiveIsMonotone<S(!new)>(dom: Domain<S>, cfg: Cfg, laws: Laws<S>)
    requires WellFormed(cfg) && Distributive(dom, cfg, laws)
    ensures Monotone(dom, cfg, laws)
  {
    forall loc, s, t
      ensures RisesAt(dom, cfg, laws, loc, s, t)
    {
      if loc.block < |cfg.statements| && laws.valid(s) && laws.valid(t) && Below(dom, s, t) {
        assert KeepsJoinAt(dom, cfg, laws, loc, s, t);
        if loc.index == cfg.statements[loc.block] {
          var r, r' := dom.terminator(loc, s), dom.terminator(loc, t);
          if r.Ok? && r'.Ok? {
            MergeKeepsJoin(dom, laws, r.value, r'.value, r'.value);
          }
        }
      }
    }
  }

  lemma {:induction false} StatementsKeepJoin<S(!new)>(dom: Domain<S>, cfg: Cfg, laws: Laws<S>, block: nat, s: S, t: S,
                                                       count: nat)
    requires WellFormed(cfg) && Distributive(dom, cfg, laws)
    requires block < |cfg.statements| && count <= cfg.statements[block]
    requires laws.valid(s) && laws.valid(t)
    ensures StatementLaw(dom, laws, RunStatements(dom, block, s, count), RunStatements(dom, block, t, count),
                         RunStatements(dom, block, dom.join(s, t), count))
  {
    if count > 0 {
      StatementsKeepJoin(dom, cfg, laws, block, s, t, count - 1);
      var r, r' := RunStatements(dom, block, s, count - 1), RunStatements(dom, block, t, count - 1);
      if r.Ok? {
        var loc := Location(block, count - 1);
        assert KeepsJoinAt(dom, cfg, laws, loc, r.value, r'.value);
      }
    }
  }

  ghost predicate StatesJoin<S>(dom: Domain<S>, laws: Laws<S>, m: map<nat, S>, m': map<nat, S>, n: map<nat, S>) {
    && m.Keys == m'.Keys == n.Keys
    && forall b :: b in m ==> laws.valid(m[b]) && laws.valid(m'[b]) && n[b] == dom.join(m[b], m'[b])
  }

  lemma AddKeepsJoin<S(!new)>(dom: Domain<S>, laws: Laws<S>, m: map<nat, S>, m': map<nat, S>, n: map<nat, S>, b: nat,
                              s: S, t: S)
    requires JoinLaws(dom, laws) && StatesJoin(dom, laws, m, m', n) && laws.valid(s) && laws.valid(t)
    ensures StatesJoin(dom, laws, AddTarget(dom, m, (b, s)), AddTarget(dom, m', (b, t)),
                       AddTarget(dom, n, (b, dom.join(s, t))))
  {
    if b in m {
      JoinSwap(dom, laws, m[b], m'[b], s, t);
      JoinFacts(dom, laws, m[b], s);
      JoinFacts(dom, laws, m'[b], t);
    }
  }

  lemma {:induction false} MergeKeepsJoin<S(!new)>(dom: Domain<S>, laws: Laws<S>, s: seq<(nat, S)>, t: seq<(nat, S)>,
                                                   u: seq<(nat, S)>)
    requires JoinLaws(dom, laws) && TargetsJoin(dom, laws, s, t, u)
    ensures StatesJoin(dom, laws, MergeTargets(dom, s), MergeTargets(dom, t), MergeTargets(dom, u))
    decreases |s|
  {
    if s != [] {
      var k := |s| - 1;
      assert s[k].0 == t[k].0 == u[k].0;
      MergeKeepsJoin(dom, laws, s[..k], t[..k], u[..k]);
      AddKeepsJoin(dom, laws, MergeTargets(dom, s[..k]), MergeTargets(dom, t[..k]), MergeTargets(dom, u[..k]),
                   s[k].0, s[k].1, t[k].1);
    }
  }

  ghost predicate EdgeLaw<S>(dom: Domain<S>, laws: Laws<S>, successors: seq<nat>,
                             r: Result<map<nat, S>>, r': Result<map<nat, S>>, joined: Result<map<nat, S>>)
  {
    match (r, r', joined)
    case (Ok(m), Ok(m'), Ok(n)) => StatesJoin(dom, laws, m, m', n) && forall b :: b in m <==> b in successors
    case (Err(e), Err(e'), Err(f)) => e == e' == f
    case _ => false
  }

  lemma {:induction false} FirstMissingSame<S>(successors: seq<nat>, m: map<nat, S>, m': map<nat, S>)
    requires m.Keys == m'.Keys
    ensures FirstMissing(successors, m) == FirstMissing(successors, m')
  {
    if successors != [] {
      assert successors[0] in m.Keys <==> successors[0] in m'.Keys;
      FirstMissingSame(successors[1..], m, m');
    }
  }

  lemma SelectKeepsJoin<S(!new)>(dom: Domain<S>, laws: Laws<S>, loc: Location, successors: seq<nat>,
                                 m: map<nat, S>, m': map<nat, S>, n: map<nat, S>)
    requires StatesJoin(dom, laws, m, m', n)
    ensures EdgeLaw(dom, laws, successors, SelectEdges(loc, successors, m), SelectEdges(loc, successors, m'),
                    SelectEdges(loc, successors, n))
  {
    FirstMissingSame(successors, m, m');
    FirstMissingSame(successors, m, n);
  }

  /** A block keeps joins from its entry to each of its outgoing edges. */
  lemma EdgesKeepJoin<S(!new)>(dom: Domain<S>, cfg: Cfg, laws: Laws<S>, block: nat, s: S, t: S)
    requires WellFormed(cfg) && Distributive(dom, cfg, laws) && block < |cfg.statements|
    requires laws.valid(s) && laws.valid(t)
    ensures EdgeLaw(dom, laws, cfg.successors[block], EdgeStates(dom, cfg, block, s), EdgeStates(dom, cfg, block, t),
                    EdgeStates(dom, cfg, block, dom.join(s, t)))
  {
    var count := cfg.statements[block];
    StatementsKeepJoin(dom, cfg, laws, block, s, t, count);
    var r, r' := RunStatements(dom, block, s, count), RunStatements(dom, block, t, count);
    if r.Ok? {
      var loc := TerminatorLoc(cfg, block);
      var x, y := dom.terminator(loc, r.value), dom.terminator(loc, r'.value);
      var z := dom.terminator(loc, dom.join(r.value, r'.value));
      assert KeepsJoinAt(dom, cfg, laws, loc, r.value, r'.value);
      if x.Ok? {
        MergeKeepsJoin(dom, laws, x.value, y.value, z.value);
        SelectKeepsJoin(dom, laws, loc, cfg.successors[block],
                        MergeTargets(dom, x.value), MergeTargets(dom, y.value), MergeTargets(dom, z.value));
      }
    }
  }

  /** The error that `block` raises, if any; from bottom; in a distributive domain it is the same from any state. */
  ghost function BlockError<S>(dom: Domain<S>, cfg: Cfg, block: nat): Option<AnalysisError>
    requires block < |cfg.statements| == |cfg.successors|
  {
    match EdgeStates(dom, cfg, block, dom.bottom)
    case Ok(_) => None
    case Err(e) => Some(e)
  }

  lemma BlockErrorExact<S(!new)>(dom: Domain<S>, cfg: Cfg, laws: Laws<S>, block: nat, s: S)
    requires WellFormed(cfg) && Distributive(dom, cfg, laws) && block < |cfg.statements| && laws.valid(s)
    ensures BlockError(dom, cfg, block) ==
            match EdgeStates(dom, cfg, block, s) case Ok(_) => None case Err(e) => Some(e)
    ensures EdgeStates(dom, cfg, block, s).Ok? ==>
              var m := EdgeStates(dom, cfg, block, s).value;
              (forall b :: b in m <==> b in cfg.successors[block]) && forall b :: b in m ==> laws.valid(m[b])
  {
    EdgesKeepJoin(dom, cfg, laws, block, dom.bottom, s);
  }

  ghost predicate NoErrors<S>(dom: Domain<S>, cfg: Cfg)
    requires |cfg.statements| == |cfg.successors|
  {
    forall b: nat :: b < |cfg.statements| ==> BlockError(dom, cfg, b).None?
  }

  // ----- states along paths -----

  /** The state on entry of the last block of `path`: the first block starts from its entry state. */
  ghost function PathState<S>(dom: Domain<S>, cfg: Cfg, path: seq<nat>): S
    requires |cfg.statements| == |cfg.successors| && IsPath(cfg.successors, path)
    decreases |path|
  {
    if |path| == 1 then Entry(dom, path[0])
    else
      var prior := path[..|path| - 1];
      assert forall i :: 0 <= i < |prior| ==> prior[i] == path[i];
      var edges := EdgeStates(dom, cfg, End(prior), PathState(dom, cfg, prior));
      if edges.Ok? && End(path) in edges.value then edges.value[End(path)] else dom.bottom
  }

  lemma {:induction false} PathStateValid<S(!new)>(dom: Domain<S>, cfg: Cfg, laws: Laws<S>, path: seq<nat>)
    requires WellFormed(cfg) && Monotone(dom, cfg, laws) && IsPath(cfg.successors, path)
    ensures laws.valid(PathState(dom, cfg, path))
    decreases |path|
  {
    if |path| > 1 {
      var prior := path[..|path| - 1];
      assert IsPath(cfg.successors, prior);
      PathStateValid(dom, cfg, laws, prior);
      if EdgeStates(dom, cfg, End(prior), PathState(dom, cfg, prior)).Ok? {
        EdgesExact(dom, cfg, laws, End(prior), PathState(dom, cfg, prior));
      }
    }
  }

  /** Finitely many paths, together with the order in which their states are joined. */
  datatype Paths = Single(path: seq<nat>) | Both(left: Paths, right: Paths)

  ghost predicate LeadTo(cfg: Cfg, block: nat, paths: Paths) {
    match paths
    case Single(path) => IsPath(cfg.successors, path) && End(path) == block
    case Both(left, right) => LeadTo(cfg, block, left) && LeadTo(cfg, block, right)
  }

  ghost function JoinOfPaths<S>(dom: Domain<S>, cfg: Cfg, block: nat, paths: Paths): S
    requires |cfg.statements| == |cfg.successors| && LeadTo(cfg, block, paths)
  {
    match paths
    case Single(path) => PathState(dom, cfg, path)
    case Both(left, right) => dom.join(JoinOfPaths(dom, cfg, block, left), JoinOfPaths(dom, cfg, block, right))
  }

  /** Is `s` the join of the states along finitely many paths to `block`? */
  ghost predicate FromPaths<S>(dom: Domain<S>, cfg: Cfg, block: nat, s: S)
    requires |cfg.statements| == |cfg.successors|
  {
    exists paths :: LeadTo(cfg, block, paths) && s == JoinOfPaths(dom, cfg, block, paths)
  }

  lemma {:induction false} JoinOfPathsValid<S(!new)>(dom: Domain<S>, cfg: Cfg, laws: Laws<S>, block: nat, paths: Paths)
    requires WellFormed(cfg) && Monotone(dom, cfg, laws) && LeadTo(cfg, block, paths)
    ensures laws.valid(JoinOfPaths(dom, cfg, block, paths))
  {
    match paths
    case Single(path) => PathStateValid(dom, cfg, laws, path);
    case Both(left, right) =>
      JoinOfPathsValid(dom, cfg, laws, block, left);
      JoinOfPathsValid(dom, cfg, laws, block, right);
      JoinFacts(dom, laws, JoinOfPaths(dom, cfg, block, left), JoinOfPaths(dom, cfg, block, right));
  }

  lemma FromPathsJoin<S>(dom: Domain<S>, cfg: Cfg, block: nat, s: S, t: S)
    requires |cfg.statements| == |cfg.successors|
    requires FromPaths(dom, cfg, block, s) && FromPaths(dom, cfg, block, t)
    ensures FromPaths(dom, cfg, block, dom.join(s, t))
  {
    var left :| LeadTo(cfg, block, left) && s == JoinOfPaths(dom, cfg, block, left);
    var right :| LeadTo(cfg, block, right) && t == JoinOfPaths(dom, cfg, block, right);
    assert LeadTo(cfg, block, Both(left, right));
    assert JoinOfPaths(dom, cfg, block, Both(left, right)) == dom.join(s, t);
  }

  /** Distributivity at work: an edge state computed from a join of paths is a join of longer paths. */
  lemma {:induction false} FromPathsEdge<S(!new)>(dom: Domain<S>, cfg: Cfg, laws: Laws<S>, p: nat, b: nat, paths: Paths)
    requires WellFormed(cfg) && Distributive(dom, cfg, laws)
    requires LeadTo(cfg, p, paths) && p < |cfg.successors| && b in cfg.successors[p]
    requires BlockError(dom, cfg, p).None?
    ensures laws.valid(JoinOfPaths(dom, cfg, p, paths))
    ensures EdgeStates(dom, cfg, p, JoinOfPaths(dom, cfg, p, paths)).Ok?
    ensures b in EdgeStates(dom, cfg, p, JoinOfPaths(dom, cfg, p, paths)).value
    ensures FromPaths(dom, cfg, b, EdgeStates(dom, cfg, p, JoinOfPaths(dom, cfg, p, paths)).value[b])
  {
    DistributiveIsMonotone(dom, cfg, laws);
    JoinOfPathsValid(dom, cfg, laws, p, paths);
    BlockErrorExact(dom, cfg, laws, p, JoinOfPaths(dom, cfg, p, paths));
    match paths
    case Single(path) =>
      AppendEdge(cfg.successors, path, b);
      assert LeadTo(cfg, b, Single(path + [b]));
      assert JoinOfPaths(dom, cfg, b, Single(path + [b])) ==
               EdgeStates(dom, cfg, p, PathState(dom, cfg, path)).value[b];
    case Both(left, right) =>
      FromPathsEdge(dom, cfg, laws, p, b, left);
      FromPathsEdge(dom, cfg, laws, p, b, right);
      var s, t := JoinOfPaths(dom, cfg, p, left), JoinOfPaths(dom, cfg, p, right);
      EdgesKeepJoin(dom, cfg, laws, p, s, t);
      FromPathsJoin(dom, cfg, b, EdgeStates(dom, cfg, p, s).value[b], EdgeStates(dom, cfg, p, t).value[b]);
  }
}
