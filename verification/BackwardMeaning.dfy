/** What the result of a backward interpretation means: when there is one, and what running forwards makes of it. */
module BackwardMeaning {
  import opened Wrappers
  import opened Graphs
  import opened TopologicalSort
  import opened AbstractStates
  import opened BackwardInterpreter

  // ----- when there is a result -----

  /** Some path from the start block visits a block twice. */
  ghost predicate CycleReachable(g: Graph, start: nat) {
    exists path: seq<nat> :: IsPath(g, path) && path[0] == start && !Distinct(path)
  }

  lemma {:induction false} KnownAlongPath(g: Graph, order: seq<nat>, path: seq<nat>, k: nat, j: nat)
    requires IsFinished(g, order) && IsPath(g, path) && j <= k < |path|
    requires path[j] in order
    ensures path[k] in order
    ensures j < k ==> Rank(order, path[k]) > Rank(order, path[j])
    decreases k
  {
    if j < k {
      KnownAlongPath(g, order, path, k - 1, j);
      var m :| 0 <= m < |order| && order[m] == path[k - 1];
      assert TargetsBefore(g, order, m);
      assert Edge(g, path[k - 1], path[k]);
      var n :| 0 <= n < m && order[n] == path[k];
      RankAt(order, m);
      RankAt(order, n);
    }
  }

  /** A known block leads to no cycle. */
  lemma KnownHasNoCycle(g: Graph, order: seq<nat>, start: nat)
    requires IsFinished(g, order) && start in order
    ensures !CycleReachable(g, start)
  {
    if CycleReachable(g, start) {
      var path: seq<nat> :| IsPath(g, path) && path[0] == start && !Distinct(path);
      var i, j :| 0 <= i < j < |path| && path[i] == path[j];
      KnownAlongPath(g, order, path, i, 0);
      KnownAlongPath(g, order, path, j, i);
      assert false;
    }
  }

  /** From an unknown block one can go on for ever. */
  lemma {:induction false} UnknownPath<S>(cfg: Cfg, heads: map<nat, S>, start: nat, length: nat)
    returns (path: seq<nat>)
    requires WellFormed(cfg) && Full(cfg, heads) && start < |cfg.successors| && start !in heads
    ensures IsPath(cfg.successors, path) && path[0] == start && |path| == length + 1
    ensures End(path) !in heads
    decreases length
  {
    if length == 0 {
      path := [start];
    } else {
      path := UnknownPath(cfg, heads, start, length - 1);
      var last := End(path);
      assert last < |cfg.successors| && !Complete(cfg, heads.Keys, last);
      var next :| next in cfg.successors[last] && next !in heads;
      AppendEdge(cfg.successors, path, next);
      path := path + [next];
    }
  }

  /** The start block stays unknown exactly if a cycle can be reached from it. */
  lemma StartUnknownIffCycle<S, E>(cfg: Cfg, i: Interpreter<S, E>, order: seq<nat>, heads: map<nat, S>)
    requires Evaluated(cfg, i, order, heads) && Full(cfg, heads)
    ensures START_BLOCK !in heads <==> CycleReachable(cfg.successors, START_BLOCK)
  {
    if START_BLOCK in heads {
      assert START_BLOCK in Elements(order);
      KnownHasNoCycle(cfg.successors, order, START_BLOCK);
    } else {
      var path := UnknownPath(cfg, heads, START_BLOCK, |cfg.successors|);
      if Distinct(path) {
        DistinctBounded(path, |cfg.successors|);
      }
    }
  }

  /** An interpretation that does not fail has no result exactly if a cycle can be reached from the start block. */
  lemma NoResultIffCycle<S(!new), E>(cfg: Cfg, i: Interpreter<S, E>, result: Option<S>)
    requires IsOutcome(cfg, i, Done(result))
    ensures result.None? <==> CycleReachable(cfg.successors, START_BLOCK)
  {
    var order, heads :| Finishes(cfg, i, order, heads, result);
    StartUnknownIffCycle(cfg, i, order, heads);
  }

  const LOOP_APART: Cfg := Cfg([0, 0], [[], [1]], [[], [1]])

  lemma LoopApart()
    ensures WellFormed(LOOP_APART) && HasCycle(LOOP_APART.successors)
  {
    var loop := [1, 1];
    assert IsPath(LOOP_APART.successors, loop) && loop[0] == End(loop);
  }

  /** The smallest graph with a loop for which there is a result: a start block that ends, and a loop apart from it. */
  lemma LoopApartHasResult<S(!new), E>(i: Interpreter<S, E>, s: S)
    requires i.terminator(START_BLOCK, map[]) == Done(s)
    ensures HasCycle(LOOP_APART.successors) && IsOutcome(LOOP_APART, i, Done(Some(s)))
  {
    LoopApart();
    var none: map<nat, S> := map[];
    assert Evaluated(LOOP_APART, i, [], none);
    assert SuccessorStates(LOOP_APART, none, 0) == none;
    EvaluatedNext(LOOP_APART, i, [], none, 0, s);
    assert 1 in LOOP_APART.successors[1];
    assert Finishes(LOOP_APART, i, [] + [0], none[0 := s], Some(s));
  }

  // ----- which failures are reported -----

  /** What was known before a failure is known, with the same states, to whoever gets further. */
  lemma {:induction false} EvaluatedWithin<S, E>(cfg: Cfg, i: Interpreter<S, E>, order: seq<nat>, heads: map<nat, S>,
                                                 others: seq<nat>, full: map<nat, S>, k: nat)
    requires Evaluated(cfg, i, order, heads) && Evaluated(cfg, i, others, full) && Full(cfg, full)
    requires k <= |order|
    ensures forall j :: 0 <= j < k ==> order[j] in heads && order[j] in full && full[order[j]] == heads[order[j]]
    decreases k
  {
    if k > 0 {
      EvaluatedWithin(cfg, i, order, heads, others, full, k - 1);
      var b := order[k - 1];
      assert b in Elements(order);
      assert HeadExact(cfg, i, heads, b);
      assert TargetsBefore(cfg.successors, order, k - 1);
      forall c | c in cfg.successors[b]
        ensures c in full && full[c] == heads[c]
      {
        assert Edge(cfg.successors, b, c);
        assert c in order[..k - 1];
      }
      assert Complete(cfg, full.Keys, b);
      assert HeadExact(cfg, i, full, b);
      assert SuccessorStates(cfg, full, b) == SuccessorStates(cfg, heads, b);
    }
  }

  /** A failure excludes that all blocks that lead to no cycle can be interpreted. */
  lemma BreakMeansNoFinish<S, E>(cfg: Cfg, i: Interpreter<S, E>, order: seq<nat>, heads: map<nat, S>, b: nat,
                                 others: seq<nat>, full: map<nat, S>)
    requires Evaluated(cfg, i, order, heads)
    requires Complete(cfg, heads.Keys, b) && BlockState(cfg, i, heads, b).Failed?
    ensures !(Evaluated(cfg, i, others, full) && Full(cfg, full))
  {
    if Evaluated(cfg, i, others, full) && Full(cfg, full) {
      EvaluatedWithin(cfg, i, order, heads, others, full, |order|);
      forall c | c in heads
        ensures c in full && full[c] == heads[c]
      {
        assert c in Elements(order);
      }
      SameSuccessors(cfg, i, heads, full, b);
    }
  }

  lemma KnownElsewhere<S, E>(cfg: Cfg, i: Interpreter<S, E>, order: seq<nat>, heads: map<nat, S>,
                             others: seq<nat>, full: map<nat, S>, b: nat)
    requires Evaluated(cfg, i, order, heads) && Evaluated(cfg, i, others, full) && Full(cfg, full) && b in heads
    ensures b in full && full[b] == heads[b]
  {
    EvaluatedWithin(cfg, i, order, heads, others, full, |order|);
    assert b in Elements(order);
  }

  /**
   The outcome is determined: in whatever order blocks are interpreted, either all runs give the same
   result or all of them fail.
   */
  lemma OutcomeUnique<S(!new), E>(cfg: Cfg, i: Interpreter<S, E>, r: Outcome<Option<S>, E>, r': Outcome<Option<S>, E>)
    requires IsOutcome(cfg, i, r) && IsOutcome(cfg, i, r') && r.Done?
    ensures r == r'
  {
    var order, heads :| Finishes(cfg, i, order, heads, r.value);
    if r'.Failed? {
      var order', heads', b :| Breaks(cfg, i, order', heads', b, r'.error);
      BreakMeansNoFinish(cfg, i, order', heads', b, order, heads);
    } else {
      var order', heads' :| Finishes(cfg, i, order', heads', r'.value);
      if START_BLOCK in heads {
        KnownElsewhere(cfg, i, order, heads, order', heads', START_BLOCK);
      }
      if START_BLOCK in heads' {
        KnownElsewhere(cfg, i, order', heads', order, heads, START_BLOCK);
      }
    }
  }

  // ----- running forwards -----

  datatype Next<V, R> = Goto(block: nat, env: V) | Exit(value: R)

  /** Execution in terms of environments, and the value of an abstract state in an environment. */
  datatype Forward<!S, !V, !R> = Forward(
    statement: (nat, nat, V) -> V,
    terminator: (nat, V) -> Next<V, R>,
    read: (S, V) -> R)

  function RunStatementsFrom<S, V, R>(f: Forward<S, V, R>, block: nat, env: V, index: nat, count: nat): V
    requires index <= count
    decreases count - index
  {
    if index == count then env else RunStatementsFrom(f, block, f.statement(block, index, env), index + 1, count)
  }

  /** The end of a block in the forward run. */
  function RunBlock<S, V, R>(cfg: Cfg, f: Forward<S, V, R>, block: nat, env: V): Next<V, R>
    requires block < |cfg.statements|
  {
    f.terminator(block, RunStatementsFrom(f, block, env, 0, cfg.statements[block]))
  }

  /** Run from the head of a block to an exit, through at most `fuel` blocks. */
  function Run<S, V, R>(cfg: Cfg, f: Forward<S, V, R>, block: nat, env: V, fuel: nat): Option<R>
    decreases fuel
  {
    if fuel == 0 || block >= |cfg.statements| then None
    else
      match RunBlock(cfg, f, block, env)
      case Exit(r) => Some(r)
      case Goto(b, v) => Run(cfg, f, b, v, fuel - 1)
  }

  /** Interpreting a statement backwards undoes running it forwards. */
  ghost predicate StatementAgrees<S(!new), E, V(!new), R>(i: Interpreter<S, E>, f: Forward<S, V, R>) {
    forall b: nat, k: nat, s: S, v: V :: i.statement(b, k, s).Done? ==>
      f.read(i.statement(b, k, s).value, v) == f.read(s, f.statement(b, k, v))
  }

  /** Interpreting a terminator selects the state of the successor that is taken. */
  ghost predicate TerminatorAgreesAt<S, E, V, R>(cfg: Cfg, i: Interpreter<S, E>, f: Forward<S, V, R>,
                                                 b: nat, states: map<nat, S>, v: V)
  {
    b < |cfg.successors| && (forall c :: c in states <==> c in cfg.successors[b]) && i.terminator(b, states).Done? ==>
      match f.terminator(b, v)
      case Goto(c, w) => c in states && f.read(i.terminator(b, states).value, v) == f.read(states[c], w)
      case Exit(r) => f.read(i.terminator(b, states).value, v) == r
  }

  ghost predicate TerminatorAgrees<S(!new), E, V(!new), R>(cfg: Cfg, i: Interpreter<S, E>, f: Forward<S, V, R>) {
    forall b: nat, states: map<nat, S>, v: V :: TerminatorAgreesAt(cfg, i, f, b, states, v)
  }

  lemma {:induction false} RunStatementsLast<S, V, R>(f: Forward<S, V, R>, block: nat, env: V, index: nat, count: nat)
    requires index <= count
    ensures RunStatementsFrom(f, block, env, index, count + 1) ==
            f.statement(block, count, RunStatementsFrom(f, block, env, index, count))
    decreases count - index
  {
    if index < count {
      RunStatementsLast(f, block, f.statement(block, index, env), index + 1, count);
    }
  }

  lemma {:induction false} StatementsAgree<S(!new), E, V(!new), R>(i: Interpreter<S, E>, f: Forward<S, V, R>,
                                                                  block: nat, s: S,
                                                       count: nat, env: V)
    requires StatementAgrees(i, f) && ApplyStatements(i, block, s, count).Done?
    ensures f.read(ApplyStatements(i, block, s, count).value, env) ==
            f.read(s, RunStatementsFrom(f, block, env, 0, count))
    decreases count
  {
    if count > 0 {
      var t := i.statement(block, count - 1, s).value;
      StatementsAgree(i, f, block, t, count - 1, env);
      RunStatementsLast(f, block, env, 0, count - 1);
    }
  }

  /** Running a block and reading the state where it leads gives what reading the state at its head gives. */
  ghost predicate BlockSound<S, V, R>(cfg: Cfg, f: Forward<S, V, R>, heads: map<nat, S>, b: nat, env: V) {
    b in heads && b < |cfg.statements| && b < |cfg.successors| &&
    match RunBlock(cfg, f, b, env)
    case Exit(r) => r == f.read(heads[b], env)
    case Goto(c, v) => c in cfg.successors[b] && c in heads && f.read(heads[c], v) == f.read(heads[b], env)
  }

  lemma BlockAgrees<S(!new), E, V(!new), R>(cfg: Cfg, i: Interpreter<S, E>, f: Forward<S, V, R>,
                                            heads: map<nat, S>, b: nat, env: V)
    requires WellFormed(cfg) && HeadExact(cfg, i, heads, b)
    requires StatementAgrees(i, f) && TerminatorAgrees(cfg, i, f)
    ensures BlockSound(cfg, f, heads, b, env)
  {
    var states := SuccessorStates(cfg, heads, b);
    StatementsAgree(i, f, b, i.terminator(b, states).value, cfg.statements[b], env);
    assert TerminatorAgreesAt(cfg, i, f, b, states, RunStatementsFrom(f, b, env, 0, cfg.statements[b]));
  }

  /** The state at the head of the `k`th known block says what running from there yields within `k + 1` blocks. */
  lemma {:induction false} HeadsAgree<S, V(!new), R>(cfg: Cfg, f: Forward<S, V, R>, order: seq<nat>,
                                                     heads: map<nat, S>, k: nat, env: V, fuel: nat)
    requires IsFinished(cfg.successors, order) && k < |order| && k < fuel
    requires forall j: nat, v: V :: j < |order| ==> BlockSound(cfg, f, heads, order[j], v)
    ensures order[k] in heads && Run(cfg, f, order[k], env, fuel) == Some(f.read(heads[order[k]], env))
    decreases k
  {
    var b := order[k];
    assert BlockSound(cfg, f, heads, b, env);
    match RunBlock(cfg, f, b, env)
    case Exit(r) =>
    case Goto(c, v) =>
      var j := EarlierSuccessor(cfg, order, k, c);
      HeadsAgree(cfg, f, order, heads, j, v, fuel - 1);
  }

  lemma EarlierSuccessor(cfg: Cfg, order: seq<nat>, k: nat, c: nat) returns (j: nat)
    requires IsFinished(cfg.successors, order) && k < |order| && c in cfg.successors[order[k]]
    ensures j < k && order[j] == c
  {
    assert TargetsBefore(cfg.successors, order, k);
    assert Edge(cfg.successors, order[k], c);
    j :| 0 <= j < k && order[j] == c;
  }

  /** A returned state, read in any environment, is what running from the start block yields. */
  lemma MeaningPreserved<S(!new), E, V(!new), R>(cfg: Cfg, i: Interpreter<S, E>, f: Forward<S, V, R>, s: S, env: V)
    requires IsOutcome(cfg, i, Done(Some(s))) && StatementAgrees(i, f) && TerminatorAgrees(cfg, i, f)
    ensures Run(cfg, f, START_BLOCK, env, |cfg.successors|) == Some(f.read(s, env))
  {
    var order: seq<nat>, heads: map<nat, S> :| Finishes(cfg, i, order, heads, Some(s));
    assert START_BLOCK in Elements(order);
    var k :| 0 <= k < |order| && order[k] == START_BLOCK;
    DistinctBounded(order, |cfg.successors|);
    forall j: nat, v: V | j < |order|
      ensures BlockSound(cfg, f, heads, order[j], v)
    {
      assert order[j] in Elements(order);
      BlockAgrees(cfg, i, f, heads, order[j], v);
    }
    HeadsAgree(cfg, f, order, heads, k, env, |cfg.successors|);
  }
}
