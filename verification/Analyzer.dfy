/** The forward abstract interpreter: a work-set solver over the states on control-flow edges. */
module Analyzer {
  import opened Wrappers
  import opened FiniteSets
  import opened AbstractStates
  import opened PointwiseStates

  // ----- what the solver computes -----

  /** The states recorded before the first `count` locations of `block` are those of a run from `s`. */
  ghost predicate RecordedUpTo<S>(dom: Domain<S>, before: map<Location, S>, block: nat, s: S, count: nat) {
    forall i: nat :: i < count ==> RecordedAt(dom, before, block, s, i)
  }

  ghost predicate RecordedAt<S>(dom: Domain<S>, before: map<Location, S>, block: nat, s: S, i: nat) {
    Location(block, i) in before && RunStatements(dom, block, s, i) == Ok(before[Location(block, i)])
  }

  ghost predicate Recorded<S>(dom: Domain<S>, cfg: Cfg, before: map<Location, S>, block: nat, s: S)
    requires block < |cfg.statements|
  {
    RecordedUpTo(dom, before, block, s, cfg.statements[block] + 1)
  }

  ghost predicate SameOutside<S>(before: map<Location, S>, before': map<Location, S>, block: nat) {
    forall loc :: loc in before && loc.block != block ==> loc in before' && before'[loc] == before[loc]
  }

  lemma RecordedOutside<S>(dom: Domain<S>, before: map<Location, S>, before': map<Location, S>, block: nat, p: nat,
                           s: S, count: nat)
    requires SameOutside(before, before', block) && p != block
    requires RecordedUpTo(dom, before, p, s, count)
    ensures RecordedUpTo(dom, before', p, s, count)
  {
    forall i: nat | i < count
      ensures RecordedAt(dom, before', p, s, i)
    {
      assert RecordedAt(dom, before, p, s, i);
    }
  }

  lemma RecordedMore<S>(dom: Domain<S>, before: map<Location, S>, block: nat, s: S, count: nat, t: S)
    requires RecordedUpTo(dom, before, block, s, count)
    requires RunStatements(dom, block, s, count) == Ok(t)
    ensures RecordedUpTo(dom, before[Location(block, count) := t], block, s, count + 1)
  {
    var before' := before[Location(block, count) := t];
    forall i: nat | i < count + 1
      ensures RecordedAt(dom, before', block, s, i)
    {
      assert i < count ==> RecordedAt(dom, before, block, s, i);
    }
  }

  /** The edge equations hold at `block`, and its states are recorded. */
  ghost predicate SolvedAt<S>(dom: Domain<S>, cfg: Cfg, laws: Laws<S>, before: map<Location, S>, after: EdgeMap<S>,
                              block: nat)
    requires WellFormed(cfg) && block < |cfg.statements|
  {
    var s := StateBefore(dom, cfg, after, block);
    && laws.valid(s)
    && block in after
    && EdgeStates(dom, cfg, block, s) == Ok(after[block])
    && Recorded(dom, cfg, before, block, s)
  }

  /** `bound` has a state for each edge at or above the one that the source block computes from `bound`. */
  ghost predicate PostSolution<S>(dom: Domain<S>, cfg: Cfg, laws: Laws<S>, bound: EdgeMap<S>)
    requires WellFormed(cfg)
  {
    && EdgesValid(cfg, laws, bound)
    && forall p: nat :: p < |cfg.statements| ==> p in bound && BoundAt(dom, cfg, bound, p)
  }

  ghost predicate BoundAt<S>(dom: Domain<S>, cfg: Cfg, bound: EdgeMap<S>, p: nat)
    requires WellFormed(cfg) && p < |cfg.statements| && p in bound
  {
    var edges := EdgeStates(dom, cfg, p, StateBefore(dom, cfg, bound, p));
    edges.Ok? && forall b :: b in edges.value && b in bound[p] ==> Below(dom, edges.value[b], bound[p][b])
  }

  /** Every known edge state is below that of `bound`. */
  ghost predicate AllBelow<S>(dom: Domain<S>, after: EdgeMap<S>, bound: EdgeMap<S>) {
    forall p, b :: EdgeBelow(dom, after, bound, p, b)
  }

  ghost predicate EdgeBelow<S>(dom: Domain<S>, after: EdgeMap<S>, bound: EdgeMap<S>, p: nat, b: nat) {
    p in after && b in after[p] ==> p in bound && b in bound[p] && Below(dom, after[p][b], bound[p][b])
  }

  ghost predicate Least<S(!new)>(dom: Domain<S>, cfg: Cfg, laws: Laws<S>, after: EdgeMap<S>)
    requires WellFormed(cfg)
  {
    forall bound :: PostSolution(dom, cfg, laws, bound) ==> AllBelow(dom, after, bound)
  }

  /** The least solution of the edge equations. */
  ghost predicate Solved<S(!new)>(dom: Domain<S>, cfg: Cfg, laws: Laws<S>, before: map<Location, S>, after: EdgeMap<S>)
    requires WellFormed(cfg)
  {
    && (forall b :: b in after ==> b < |cfg.statements|)
    && (forall b: nat :: b < |cfg.statements| ==> SolvedAt(dom, cfg, laws, before, after, b))
    && Least(dom, cfg, laws, after)
  }

  /** Some block raises `e` from an incoming state that no solution can avoid: it is below that of every solution. */
  ghost predicate ForcedError<S(!new)>(dom: Domain<S>, cfg: Cfg, laws: Laws<S>, e: AnalysisError)
    requires WellFormed(cfg)
  {
    exists b: nat, s ::
      && b < |cfg.statements| && laws.valid(s) && EdgeStates(dom, cfg, b, s) == Err(e)
      && forall bound :: PostSolution(dom, cfg, laws, bound) ==> Below(dom, s, StateBefore(dom, cfg, bound, b))
  }

  /** `e` is the error of the first block that has one. */
  ghost predicate FirstError<S>(dom: Domain<S>, cfg: Cfg, e: AnalysisError)
    requires WellFormed(cfg)
  {
    exists b: nat :: b < |cfg.statements| && BlockError(dom, cfg, b) == Some(e) &&
                     forall p: nat :: p < b ==> BlockError(dom, cfg, p).None?
  }

  // ----- the invariant of the solver -----

  /** What is known of an already visited block, whose last incoming state was `last`. */
  ghost predicate VisitedAt<S>(dom: Domain<S>, cfg: Cfg, laws: Laws<S>, before: map<Location, S>, after: EdgeMap<S>,
                               p: nat, last: S, settled: bool)
    requires WellFormed(cfg) && p < |cfg.statements|
  {
    var s := StateBefore(dom, cfg, after, p);
    && laws.valid(last)
    && p in after && EdgeStates(dom, cfg, p, last) == Ok(after[p])
    && Recorded(dom, cfg, before, p, last)
    && Below(dom, last, s)
    && (settled ==> s == last)
  }

  /** Every block is pending or has been visited. */
  ghost predicate Pending<S>(cfg: Cfg, after: EdgeMap<S>, lasts: map<nat, S>, workSet: set<nat>) {
    && (forall b :: b in workSet ==> b < |cfg.statements|)
    && (forall b :: b in after <==> b in lasts)
    && (forall b :: b in after ==> b < |cfg.statements|)
    && (forall b: nat :: b < |cfg.statements| && b !in after ==> b in workSet)
  }

  ghost predicate Inv<S>(dom: Domain<S>, cfg: Cfg, laws: Laws<S>, before: map<Location, S>, after: EdgeMap<S>,
                         lasts: map<nat, S>, workSet: set<nat>)
    requires WellFormed(cfg)
  {
    && Pending(cfg, after, lasts, workSet)
    && forall b: nat :: VisitedIn(dom, cfg, laws, before, after, lasts, workSet, b)
  }

  ghost predicate VisitedIn<S>(dom: Domain<S>, cfg: Cfg, laws: Laws<S>, before: map<Location, S>, after: EdgeMap<S>,
                               lasts: map<nat, S>, workSet: set<nat>, b: nat)
    requires WellFormed(cfg)
  {
    b in lasts ==> b < |cfg.statements| && VisitedAt(dom, cfg, laws, before, after, b, lasts[b], b !in workSet)
  }

  /** Every known edge state is valid, and its target is a successor. */
  ghost predicate EdgesValid<S>(cfg: Cfg, laws: Laws<S>, after: EdgeMap<S>)
    requires WellFormed(cfg)
  {
    forall p :: p in after ==>
                  && p < |cfg.statements|
                  && (forall b :: b in after[p] <==> b in cfg.successors[p])
                  && forall b :: b in after[p] ==> laws.valid(after[p][b])
  }

  lemma InvEdgesValid<S(!new)>(dom: Domain<S>, cfg: Cfg, laws: Laws<S>, before: map<Location, S>, after: EdgeMap<S>,
                               lasts: map<nat, S>, workSet: set<nat>)
    requires WellFormed(cfg) && Monotone(dom, cfg, laws) && Inv(dom, cfg, laws, before, after, lasts, workSet)
    ensures EdgesValid(cfg, laws, after)
  {
    forall p | p in after
      ensures (forall b :: b in after[p] <==> b in cfg.successors[p]) &&
              forall b :: b in after[p] ==> laws.valid(after[p][b])
    {
      assert VisitedIn(dom, cfg, laws, before, after, lasts, workSet, p);
      EdgesExact(dom, cfg, laws, p, lasts[p]);
    }
  }

  // ----- incoming states -----

  lemma {:induction false} IncomingValid<S(!new)>(dom: Domain<S>, cfg: Cfg, laws: Laws<S>, after: EdgeMap<S>, b: nat,
                                                  k: nat)
    requires WellFormed(cfg) && JoinLaws(dom, laws) && EdgesValid(cfg, laws, after)
    requires b < |cfg.predecessors| && k <= |cfg.predecessors[b]|
    ensures laws.valid(Incoming(dom, cfg, after, b, k))
  {
    if k > 0 {
      IncomingValid(dom, cfg, laws, after, b, k - 1);
      var p := cfg.predecessors[b][k - 1];
      if p in after && b in after[p] {
        JoinFacts(dom, laws, Incoming(dom, cfg, after, b, k - 1), after[p][b]);
      }
    }
  }

  /** Each edge state is below the incoming state of its target. */
  lemma {:induction false} IncomingAbove<S(!new)>(dom: Domain<S>, cfg: Cfg, laws: Laws<S>, after: EdgeMap<S>, b: nat,
                                                  k: nat, p: nat)
    requires WellFormed(cfg) && JoinLaws(dom, laws) && EdgesValid(cfg, laws, after)
    requires b < |cfg.predecessors| && k <= |cfg.predecessors[b]|
    ensures Below(dom, Entry(dom, b), Incoming(dom, cfg, after, b, k))
    ensures p in cfg.predecessors[b][..k] && p in after && b in after[p] ==>
              Below(dom, after[p][b], Incoming(dom, cfg, after, b, k))
  {
    IncomingValid(dom, cfg, laws, after, b, k);
    if k == 0 {
      JoinFacts(dom, laws, Entry(dom, b), Entry(dom, b));
    } else {
      var s := Incoming(dom, cfg, after, b, k - 1);
      var q := cfg.predecessors[b][k - 1];
      IncomingValid(dom, cfg, laws, after, b, k - 1);
      IncomingAbove(dom, cfg, laws, after, b, k - 1, p);
      assert cfg.predecessors[b][..k] == cfg.predecessors[b][..k - 1] + [q];
      if q in after && b in after[q] {
        JoinFacts(dom, laws, s, after[q][b]);
        JoinLeast(dom, laws, Entry(dom, b), s, dom.join(s, after[q][b]));
        if p in after && b in after[p] {
          JoinLeast(dom, laws, after[p][b], s, dom.join(s, after[q][b]));
        }
      }
    }
  }

  /** The incoming state is below whatever the entry state and all edge states are below. */
  lemma {:induction false} IncomingLeast<S(!new)>(dom: Domain<S>, cfg: Cfg, laws: Laws<S>, after: EdgeMap<S>,
                                                  b: nat, k: nat, u: S)
    requires WellFormed(cfg) && JoinLaws(dom, laws) && EdgesValid(cfg, laws, after) && laws.valid(u)
    requires b < |cfg.predecessors| && k <= |cfg.predecessors[b]|
    requires Below(dom, Entry(dom, b), u)
    requires forall p :: p in after && b in after[p] ==> Below(dom, after[p][b], u)
    ensures Below(dom, Incoming(dom, cfg, after, b, k), u)
  {
    if k > 0 {
      IncomingLeast(dom, cfg, laws, after, b, k - 1, u);
      IncomingValid(dom, cfg, laws, after, b, k - 1);
      var p := cfg.predecessors[b][k - 1];
      if p in after && b in after[p] {
        JoinLeast(dom, laws, Incoming(dom, cfg, after, b, k - 1), after[p][b], u);
      }
    }
  }

  /** Later edge states are at or above the earlier ones; `changed` are the targets of edges that differ. */
  ghost predicate RisenAt<S>(dom: Domain<S>, after: EdgeMap<S>, after': EdgeMap<S>, changed: set<nat>, p: nat, b: nat) {
    && (p in after && b in after[p] ==>
          && p in after' && b in after'[p]
          && Below(dom, after[p][b], after'[p][b])
          && (b !in changed ==> after[p][b] == after'[p][b]))
    && (p in after' && b in after'[p] && b !in changed ==> p in after && b in after[p])
  }

  ghost predicate Risen<S>(dom: Domain<S>, after: EdgeMap<S>, after': EdgeMap<S>, changed: set<nat>) {
    forall p, b :: RisenAt(dom, after, after', changed, p, b)
  }

  lemma {:induction false} IncomingRises<S(!new)>(dom: Domain<S>, cfg: Cfg, laws: Laws<S>, after: EdgeMap<S>,
                                                  after': EdgeMap<S>, changed: set<nat>, b: nat, k: nat)
    requires WellFormed(cfg) && JoinLaws(dom, laws) && EdgesValid(cfg, laws, after) && EdgesValid(cfg, laws, after')
    requires Risen(dom, after, after', changed)
    requires b < |cfg.predecessors| && k <= |cfg.predecessors[b]|
    ensures Below(dom, Incoming(dom, cfg, after, b, k), Incoming(dom, cfg, after', b, k))
    ensures b !in changed ==> Incoming(dom, cfg, after, b, k) == Incoming(dom, cfg, after', b, k)
  {
    if k == 0 {
      JoinFacts(dom, laws, Entry(dom, b), Entry(dom, b));
    } else {
      IncomingRises(dom, cfg, laws, after, after', changed, b, k - 1);
      IncomingValid(dom, cfg, laws, after, b, k - 1);
      IncomingValid(dom, cfg, laws, after', b, k - 1);
      var s, t := Incoming(dom, cfg, after, b, k - 1), Incoming(dom, cfg, after', b, k - 1);
      var p := cfg.predecessors[b][k - 1];
      assert RisenAt(dom, after, after', changed, p, b);
      if p in after' && b in after'[p] {
        var y := after'[p][b];
        JoinFacts(dom, laws, t, y);
        JoinLeast(dom, laws, s, t, dom.join(t, y));
        if p in after && b in after[p] {
          JoinLeast(dom, laws, after[p][b], y, dom.join(t, y));
          JoinLeast(dom, laws, s, after[p][b], dom.join(t, y));
        }
      }
    }
  }

  // ----- one round of the solver -----

  /** The targets whose edge from `block` gets a new state. */
  function Changed<S(==)>(after: EdgeMap<S>, block: nat, edges: map<nat, S>): set<nat> {
    set b | b in edges && !(block in after && b in after[block] && after[block][b] == edges[b])
  }

  lemma RoundRises<S(!new)>(dom: Domain<S>, cfg: Cfg, laws: Laws<S>, before: map<Location, S>, after: EdgeMap<S>,
                            lasts: map<nat, S>, workSet: set<nat>, block: nat, edges: map<nat, S>, after': EdgeMap<S>)
    requires WellFormed(cfg) && Monotone(dom, cfg, laws) && Inv(dom, cfg, laws, before, after, lasts, workSet)
    requires block < |cfg.statements|
    requires EdgeStates(dom, cfg, block, StateBefore(dom, cfg, after, block)) == Ok(edges)
    requires after' == after[block := edges]
    ensures EdgesValid(cfg, laws, after) && EdgesValid(cfg, laws, after')
    ensures Risen(dom, after, after', Changed(after, block, edges))
  {
    InvEdgesValid(dom, cfg, laws, before, after, lasts, workSet);
    var s := StateBefore(dom, cfg, after, block);
    IncomingValid(dom, cfg, laws, after, block, |cfg.predecessors[block]|);
    EdgesExact(dom, cfg, laws, block, s);
    assert VisitedIn(dom, cfg, laws, before, after, lasts, workSet, block);
    VisitedBelow(dom, cfg, laws, before, after, lasts, workSet, block, edges);
    EdgesRise(dom, cfg, laws, after, block, edges, after');
  }

  lemma VisitedBelow<S(!new)>(dom: Domain<S>, cfg: Cfg, laws: Laws<S>, before: map<Location, S>, after: EdgeMap<S>,
                              lasts: map<nat, S>, workSet: set<nat>, p: nat, edges: map<nat, S>)
    requires WellFormed(cfg) && Monotone(dom, cfg, laws) && p < |cfg.statements|
    requires VisitedIn(dom, cfg, laws, before, after, lasts, workSet, p)
    requires laws.valid(StateBefore(dom, cfg, after, p))
    requires EdgeStates(dom, cfg, p, StateBefore(dom, cfg, after, p)) == Ok(edges)
    ensures p in lasts ==> p in after && forall b :: b in after[p] ==> b in edges && Below(dom, after[p][b], edges[b])
  {
    if p in lasts {
      EdgesMonotone(dom, cfg, laws, p, lasts[p], StateBefore(dom, cfg, after, p));
    }
  }

  lemma EdgesRise<S(!new)>(dom: Domain<S>, cfg: Cfg, laws: Laws<S>, after: EdgeMap<S>, block: nat, edges: map<nat, S>,
                           after': EdgeMap<S>)
    requires WellFormed(cfg) && JoinLaws(dom, laws) && EdgesValid(cfg, laws, after)
    requires after' == after[block := edges]
    requires block in after ==> forall b :: b in after[block] ==> b in edges && Below(dom, after[block][b], edges[b])
    ensures Risen(dom, after, after', Changed(after, block, edges))
  {
    var changed := Changed(after, block, edges);
    forall p, b
      ensures RisenAt(dom, after, after', changed, p, b)
    {
      if p in after && b in after[p] && p != block {
        JoinFacts(dom, laws, after[p][b], after[p][b]);
      }
    }
  }

  lemma VisitedStays<S(!new)>(dom: Domain<S>, cfg: Cfg, laws: Laws<S>, before: map<Location, S>, after: EdgeMap<S>,
                              before': map<Location, S>, after': EdgeMap<S>, changed: set<nat>,
                              p: nat, last: S, settled: bool)
    requires WellFormed(cfg) && JoinLaws(dom, laws) && EdgesValid(cfg, laws, after) && EdgesValid(cfg, laws, after')
    requires Risen(dom, after, after', changed)
    requires p < |cfg.statements| && VisitedAt(dom, cfg, laws, before, after, p, last, settled)
    requires p in after' && after'[p] == after[p]
    requires Recorded(dom, cfg, before', p, last)
    ensures VisitedAt(dom, cfg, laws, before', after', p, last, settled && p !in changed)
  {
    var k := |cfg.predecessors[p]|;
    IncomingRises(dom, cfg, laws, after, after', changed, p, k);
    IncomingValid(dom, cfg, laws, after, p, k);
    IncomingValid(dom, cfg, laws, after', p, k);
    JoinLeast(dom, laws, last, Incoming(dom, cfg, after, p, k), Incoming(dom, cfg, after', p, k));
  }

  lemma VisitedNow<S(!new)>(dom: Domain<S>, cfg: Cfg, laws: Laws<S>, after: EdgeMap<S>,
                            before': map<Location, S>, after': EdgeMap<S>, changed: set<nat>, p: nat)
    requires WellFormed(cfg) && JoinLaws(dom, laws) && EdgesValid(cfg, laws, after) && EdgesValid(cfg, laws, after')
    requires Risen(dom, after, after', changed)
    requires p < |cfg.statements|
    requires p in after' && EdgeStates(dom, cfg, p, StateBefore(dom, cfg, after, p)) == Ok(after'[p])
    requires Recorded(dom, cfg, before', p, StateBefore(dom, cfg, after, p))
    ensures VisitedAt(dom, cfg, laws, before', after', p, StateBefore(dom, cfg, after, p), p !in changed)
  {
    var k := |cfg.predecessors[p]|;
    IncomingRises(dom, cfg, laws, after, after', changed, p, k);
    IncomingValid(dom, cfg, laws, after, p, k);
  }

  lemma RoundKeepsPending<S>(cfg: Cfg, after: EdgeMap<S>, lasts: map<nat, S>, workSet: set<nat>, block: nat, s: S,
                             edges: map<nat, S>)
    requires WellFormed(cfg) && Pending(cfg, after, lasts, workSet) && block in workSet
    requires forall b :: b in edges ==> b in cfg.successors[block]
    ensures Pending(cfg, after[block := edges], lasts[block := s], workSet - {block} + Changed(after, block, edges))
  {
  }

  lemma RoundVisits<S(!new)>(dom: Domain<S>, cfg: Cfg, laws: Laws<S>, before: map<Location, S>, after: EdgeMap<S>,
                             lasts: map<nat, S>, workSet: set<nat>, block: nat,
                             before': map<Location, S>, after': EdgeMap<S>, changed: set<nat>, p: nat)
    requires WellFormed(cfg) && JoinLaws(dom, laws) && EdgesValid(cfg, laws, after) && EdgesValid(cfg, laws, after')
    requires Risen(dom, after, after', changed)
    requires VisitedIn(dom, cfg, laws, before, after, lasts, workSet, p)
    requires SameOutside(before, before', block)
    requires p != block && (p in lasts ==> p in after' && after'[p] == after[p])
    ensures VisitedIn(dom, cfg, laws, before', after', lasts, workSet - {block} + changed, p)
  {
    if p in lasts {
      RecordedOutside(dom, before, before', block, p, lasts[p], cfg.statements[p] + 1);
      VisitedStays(dom, cfg, laws, before, after, before', after', changed, p, lasts[p], p !in workSet);
    }
  }

  /** Processing one block of the work set keeps the invariant. */
  lemma RoundKeepsInv<S(!new)>(dom: Domain<S>, cfg: Cfg, laws: Laws<S>, before: map<Location, S>, after: EdgeMap<S>,
                               lasts: map<nat, S>, workSet: set<nat>, block: nat, edges: map<nat, S>,
                               before': map<Location, S>, after': EdgeMap<S>)
    requires WellFormed(cfg) && Monotone(dom, cfg, laws) && Inv(dom, cfg, laws, before, after, lasts, workSet)
    requires block in workSet
    requires EdgeStates(dom, cfg, block, StateBefore(dom, cfg, after, block)) == Ok(edges)
    requires Recorded(dom, cfg, before', block, StateBefore(dom, cfg, after, block))
    requires SameOutside(before, before', block)
    requires after' == after[block := edges]
    ensures Inv(dom, cfg, laws, before', after', lasts[block := StateBefore(dom, cfg, after, block)],
                workSet - {block} + Changed(after, block, edges))
    ensures EdgesValid(cfg, laws, after) && EdgesValid(cfg, laws, after')
    ensures Risen(dom, after, after', Changed(after, block, edges))
  {
    var s := StateBefore(dom, cfg, after, block);
    var lasts', changed := lasts[block := s], Changed(after, block, edges);
    var workSet' := workSet - {block} + changed;
    RoundRises(dom, cfg, laws, before, after, lasts, workSet, block, edges, after');
    VisitedNow(dom, cfg, laws, after, before', after', changed, block);
    RoundKeepsPending(cfg, after, lasts, workSet, block, s, edges);
    forall p: nat
      ensures VisitedIn(dom, cfg, laws, before', after', lasts', workSet', p)
    {
      if p != block {
        assert VisitedIn(dom, cfg, laws, before, after, lasts, workSet, p);
        RoundVisits(dom, cfg, laws, before, after, lasts, workSet, block, before', after', changed, p);
      }
    }
  }

  // ----- every solution stays above -----

  lemma {:induction false} IncomingBelow<S(!new)>(dom: Domain<S>, cfg: Cfg, laws: Laws<S>, after: EdgeMap<S>,
                                                  bound: EdgeMap<S>, b: nat, k: nat)
    requires WellFormed(cfg) && JoinLaws(dom, laws) && EdgesValid(cfg, laws, after) && EdgesValid(cfg, laws, bound)
    requires AllBelow(dom, after, bound)
    requires b < |cfg.predecessors| && k <= |cfg.predecessors[b]|
    ensures Below(dom, Incoming(dom, cfg, after, b, k), Incoming(dom, cfg, bound, b, k))
  {
    var everything := set p, t | p in bound && t in bound[p] :: t;
    forall p, t
      ensures RisenAt(dom, after, bound, everything, p, t)
    {
      assert EdgeBelow(dom, after, bound, p, t);
    }
    IncomingRises(dom, cfg, laws, after, bound, everything, b, k);
  }

  /** A round keeps the edge states below those of every solution. */
  lemma RoundStaysBelow<S(!new)>(dom: Domain<S>, cfg: Cfg, laws: Laws<S>, after: EdgeMap<S>, bound: EdgeMap<S>,
                                 block: nat, edges: map<nat, S>)
    requires WellFormed(cfg) && Monotone(dom, cfg, laws) && EdgesValid(cfg, laws, after)
    requires PostSolution(dom, cfg, laws, bound) && AllBelow(dom, after, bound)
    requires block < |cfg.statements| && EdgeStates(dom, cfg, block, StateBefore(dom, cfg, after, block)) == Ok(edges)
    ensures AllBelow(dom, after[block := edges], bound)
  {
    var k := |cfg.predecessors[block]|;
    var s, t := StateBefore(dom, cfg, after, block), StateBefore(dom, cfg, bound, block);
    IncomingValid(dom, cfg, laws, after, block, k);
    IncomingValid(dom, cfg, laws, bound, block, k);
    IncomingBelow(dom, cfg, laws, after, bound, block, k);
    assert BoundAt(dom, cfg, bound, block);
    EdgesMonotone(dom, cfg, laws, block, s, t);
    var higher, after' := EdgeStates(dom, cfg, block, t).value, after[block := edges];
    forall p, b
      ensures EdgeBelow(dom, after', bound, p, b)
    {
      assert EdgeBelow(dom, after, bound, p, b);
      if p == block && b in edges {
        JoinLeast(dom, laws, edges[b], higher[b], bound[p][b]);
      }
    }
  }

  lemma RoundKeepsLeast<S(!new)>(dom: Domain<S>, cfg: Cfg, laws: Laws<S>, after: EdgeMap<S>, block: nat,
                                 edges: map<nat, S>)
    requires WellFormed(cfg) && Monotone(dom, cfg, laws) && EdgesValid(cfg, laws, after)
    requires Least(dom, cfg, laws, after)
    requires block < |cfg.statements| && EdgeStates(dom, cfg, block, StateBefore(dom, cfg, after, block)) == Ok(edges)
    ensures Least(dom, cfg, laws, after[block := edges])
  {
    forall bound | PostSolution(dom, cfg, laws, bound)
      ensures AllBelow(dom, after[block := edges], bound)
    {
      RoundStaysBelow(dom, cfg, laws, after, bound, block, edges);
    }
  }

  lemma ErrorIsForced<S(!new)>(dom: Domain<S>, cfg: Cfg, laws: Laws<S>, after: EdgeMap<S>, block: nat, e: AnalysisError)
    requires WellFormed(cfg) && JoinLaws(dom, laws) && EdgesValid(cfg, laws, after) && Least(dom, cfg, laws, after)
    requires block < |cfg.statements| && EdgeStates(dom, cfg, block, StateBefore(dom, cfg, after, block)) == Err(e)
    ensures ForcedError(dom, cfg, laws, e)
  {
    var k := |cfg.predecessors[block]|;
    IncomingValid(dom, cfg, laws, after, block, k);
    forall bound | PostSolution(dom, cfg, laws, bound)
      ensures Below(dom, StateBefore(dom, cfg, after, block), StateBefore(dom, cfg, bound, block))
    {
      IncomingBelow(dom, cfg, laws, after, bound, block, k);
    }
  }

  // ----- termination -----

  /** How far the state of an edge may still rise. */
  ghost function EdgeWeight<S>(laws: Laws<S>, after: EdgeMap<S>, p: nat, b: nat): nat {
    if p in after && b in after[p] then laws.rank(after[p][b]) else laws.height
  }

  ghost function BlockWeight<S>(cfg: Cfg, laws: Laws<S>, after: EdgeMap<S>, p: nat, k: nat): nat
    requires p < |cfg.successors| && k <= |cfg.successors[p]|
  {
    if k == 0 then 0
    else BlockWeight(cfg, laws, after, p, k - 1) + EdgeWeight(laws, after, p, cfg.successors[p][k - 1])
  }

  ghost function TotalWeight<S>(cfg: Cfg, laws: Laws<S>, after: EdgeMap<S>, m: nat): nat
    requires m <= |cfg.successors|
  {
    if m == 0 then 0
    else TotalWeight(cfg, laws, after, m - 1) + BlockWeight(cfg, laws, after, m - 1, |cfg.successors[m - 1]|)
  }

  lemma EdgeWeightFalls<S(!new)>(dom: Domain<S>, cfg: Cfg, laws: Laws<S>, after: EdgeMap<S>, after': EdgeMap<S>,
                                 changed: set<nat>, p: nat, b: nat)
    requires WellFormed(cfg) && JoinLaws(dom, laws) && EdgesValid(cfg, laws, after) && EdgesValid(cfg, laws, after')
    requires Risen(dom, after, after', changed)
    ensures EdgeWeight(laws, after', p, b) <= EdgeWeight(laws, after, p, b)
    ensures p in after' && b in after'[p] && !(p in after && b in after[p] && after[p][b] == after'[p][b]) ==>
              EdgeWeight(laws, after', p, b) < EdgeWeight(laws, after, p, b)
  {
    assert RisenAt(dom, after, after', changed, p, b);
    if p in after' && b in after'[p] {
      JoinFacts(dom, laws, after'[p][b], after'[p][b]);
      if p in after && b in after[p] {
        JoinFacts(dom, laws, after[p][b], after'[p][b]);
      }
    }
  }

  lemma {:induction false} BlockWeightFalls<S(!new)>(dom: Domain<S>, cfg: Cfg, laws: Laws<S>, after: EdgeMap<S>,
                                                     after': EdgeMap<S>, changed: set<nat>, p: nat, k: nat)
    requires WellFormed(cfg) && JoinLaws(dom, laws) && EdgesValid(cfg, laws, after) && EdgesValid(cfg, laws, after')
    requires Risen(dom, after, after', changed)
    requires p < |cfg.successors| && k <= |cfg.successors[p]|
    ensures BlockWeight(cfg, laws, after', p, k) <= BlockWeight(cfg, laws, after, p, k)
    ensures p in after' && (exists b :: b in cfg.successors[p][..k] && b in Changed(after, p, after'[p])) ==>
              BlockWeight(cfg, laws, after', p, k) < BlockWeight(cfg, laws, after, p, k)
  {
    if k > 0 {
      var b := cfg.successors[p][k - 1];
      BlockWeightFalls(dom, cfg, laws, after, after', changed, p, k - 1);
      EdgeWeightFalls(dom, cfg, laws, after, after', changed, p, b);
      assert cfg.successors[p][..k] == cfg.successors[p][..k - 1] + [b];
    }
  }

  lemma {:induction false} TotalWeightFalls<S(!new)>(dom: Domain<S>, cfg: Cfg, laws: Laws<S>, after: EdgeMap<S>,
                                                     after': EdgeMap<S>, changed: set<nat>, p: nat, m: nat)
    requires WellFormed(cfg) && JoinLaws(dom, laws) && EdgesValid(cfg, laws, after) && EdgesValid(cfg, laws, after')
    requires Risen(dom, after, after', changed) && m <= |cfg.successors|
    ensures TotalWeight(cfg, laws, after', m) <= TotalWeight(cfg, laws, after, m)
    ensures p in after' && p < m && Changed(after, p, after'[p]) != {} ==>
              TotalWeight(cfg, laws, after', m) < TotalWeight(cfg, laws, after, m)
  {
    if m > 0 {
      var q := m - 1;
      TotalWeightFalls(dom, cfg, laws, after, after', changed, p, q);
      BlockWeightFalls(dom, cfg, laws, after, after', changed, q, |cfg.successors[q]|);
      if p == q && p in after' && Changed(after, p, after'[p]) != {} {
        var b :| b in Changed(after, p, after'[p]);
        assert cfg.successors[q][..|cfg.successors[q]|] == cfg.successors[q];
        assert b in after'[p];
      }
    }
  }

  // ----- the solver -----

  method JoinPredecessors<S(==)>(dom: Domain<S>, cfg: Cfg, pointwise: PointwiseState<S>, block: nat) returns (state: S)
    requires WellFormed(cfg) && block < |cfg.statements|
    requires forall p :: p in cfg.predecessors[block] && p in pointwise.stateAfterBlock ==>
               block in pointwise.stateAfterBlock[p]
    ensures state == StateBefore(dom, cfg, pointwise.stateAfterBlock, block)
  {
    if block == START_BLOCK {
      state := dom.initial;
    } else {
      state := dom.bottom;
    }
    for k := 0 to |cfg.predecessors[block]|
      invariant state == Incoming(dom, cfg, pointwise.stateAfterBlock, block, k)
    {
      var pred := cfg.predecessors[block][k];
      match pointwise.LookupAfterBlock(pred) {
        case Some(edges) => state := dom.join(state, edges[block]);
        case None =>
      }
    }
  }

  /** Run the statements of `block`, recording the state before each location. */
  method RunBlock<S(==)>(dom: Domain<S>, cfg: Cfg, pointwise: PointwiseState<S>, block: nat, state: S)
    returns (r: Result<S>)
    requires WellFormed(cfg) && block < |cfg.statements|
    modifies pointwise`stateBefore
    ensures r == RunStatements(dom, block, state, cfg.statements[block])
    ensures r.Ok? ==> Recorded(dom, cfg, pointwise.stateBefore, block, state)
    ensures SameOutside(old(pointwise.stateBefore), pointwise.stateBefore, block)
  {
    var current := state;
    for index := 0 to cfg.statements[block]
      invariant RunStatements(dom, block, state, index) == Ok(current)
      invariant RecordedUpTo(dom, pointwise.stateBefore, block, state, index)
      invariant SameOutside(old(pointwise.stateBefore), pointwise.stateBefore, block)
    {
      var location := Location(block, index);
      RecordedMore(dom, pointwise.stateBefore, block, state, index, current);
      pointwise.SetBefore(location, current);
      match dom.statement(location, current) {
        case Ok(next) => current := next;
        case Err(e) =>
          FailedRun(dom, block, state, index + 1, cfg.statements[block]);
          return Err(e);
      }
    }
    RecordedMore(dom, pointwise.stateBefore, block, state, cfg.statements[block], current);
    pointwise.SetBefore(TerminatorLoc(cfg, block), current);
    return Ok(current);
  }

  lemma {:induction false} FailedRun<S>(dom: Domain<S>, block: nat, s: S, k: nat, count: nat)
    requires k <= count && RunStatements(dom, block, s, k).Err?
    ensures RunStatements(dom, block, s, count) == RunStatements(dom, block, s, k)
    decreases count
  {
    if k < count {
      FailedRun(dom, block, s, k, count - 1);
    }
  }

  method MergeStates<S(==)>(dom: Domain<S>, states: seq<(nat, S)>) returns (merged: map<nat, S>)
    ensures merged == MergeTargets(dom, states)
  {
    merged := map[];
    for k := 0 to |states|
      invariant merged == MergeTargets(dom, states[..k])
    {
      assert states[..k + 1][..k] == states[..k];
      var (next, state) := states[k];
      if next in merged {
        merged := merged[next := dom.join(merged[next], state)];
      } else {
        merged := merged[next := state];
      }
    }
    assert states[..|states|] == states;
  }

  method CheckSuccessors<S(==)>(successors: seq<nat>, states: map<nat, S>) returns (missing: Option<nat>)
    ensures missing == FirstMissing(successors, states)
  {
    for k := 0 to |successors|
      invariant FirstMissing(successors[k..], states) == FirstMissing(successors, states)
    {
      if successors[k] !in states {
        return Some(successors[k]);
      }
    }
    return None;
  }

  /** The edge states when those in `done` have been replaced. */
  ghost function Replaced<S>(previous: map<nat, S>, states: map<nat, S>, done: set<nat>): map<nat, S>
    requires done <= states.Keys
  {
    map b | b in previous.Keys + done :: if b in done then states[b] else previous[b]
  }

  ghost function ChangedAmong<S>(previous: map<nat, S>, states: map<nat, S>, done: set<nat>): set<nat>
    requires done <= states.Keys
  {
    set b | b in done && !(b in previous && previous[b] == states[b])
  }

  ghost function Without<S>(states: map<nat, S>, done: set<nat>): map<nat, S> {
    map b | b in states && b !in done :: states[b]
  }

  /** Replacing one more edge state, unless it has been replaced already. */
  lemma ReplaceNext<S>(previous: map<nat, S>, states: map<nat, S>, done: set<nat>, next: nat)
    requires done <= states.Keys && next in states && next !in done
    ensures Without(states, done + {next}) == Without(states, done) - {next}
    ensures Replaced(previous, states, done + {next}) == WithEdge(Replaced(previous, states, done), next, states[next])
    ensures ChangedAmong(previous, states, done + {next}) ==
            ChangedAmong(previous, states, done) +
            if next in previous && previous[next] == states[next] then {} else {next}
    ensures next in Replaced(previous, states, done) <==> next in previous
    ensures next in previous ==> Replaced(previous, states, done)[next] == previous[next]
  {
  }

  lemma ReplacedAll<S>(after: EdgeMap<S>, block: nat, successors: seq<nat>, states: map<nat, S>, done: set<nat>)
    requires forall b :: b in successors ==> b in states
    requires forall b :: b in EdgesOf(after, block) ==> b in successors
    requires done <= states.Keys && forall b :: b in done <==> b in successors
    ensures Replaced(EdgesOf(after, block), states, done) == Selected(successors, states)
    ensures ChangedAmong(EdgesOf(after, block), states, done) == Changed(after, block, Selected(successors, states))
  {
  }

  /** The edge states in `pointwise` are those of `after`, with the ones of `block` replaced as far as `done`. */
  ghost predicate Published<S>(pointwise: PointwiseState<S>, after: EdgeMap<S>, block: nat, states: map<nat, S>,
                               done: set<nat>)
    reads pointwise
    requires done <= states.Keys
  {
    pointwise.stateAfterBlock == after[block := Replaced(EdgesOf(after, block), states, done)]
  }

  /** Store the state for one successor, unless it has been stored already. */
  method PublishEdge<S(==)>(pointwise: PointwiseState<S>, block: nat, next: nat, newMap: map<nat, S>, changed: set<nat>,
                            ghost after: EdgeMap<S>, ghost states: map<nat, S>, ghost done: set<nat>)
    returns (rest: map<nat, S>, more: set<nat>)
    requires done <= states.Keys && next in states && newMap == Without(states, done)
    requires changed == ChangedAmong(EdgesOf(after, block), states, done)
    requires Published(pointwise, after, block, states, done)
    modifies pointwise`stateAfterBlock
    ensures rest == Without(states, done + {next})
    ensures more == ChangedAmong(EdgesOf(after, block), states, done + {next})
    ensures Published(pointwise, after, block, states, done + {next})
  {
    rest, more := newMap, changed;
    if next in newMap {
      ReplaceNext(EdgesOf(after, block), states, done, next);
      var state := newMap[next];
      rest := newMap - {next};
      var prev := pointwise.InsertAfterBlock(block, next, state);
      if prev != Some(state) {
        more := changed + {next};
      }
    } else {
      assert done + {next} == done;
    }
  }

  /** Store the edge states of `block` and return the successors whose state is new. */
  method Publish<S(==)>(successors: seq<nat>, pointwise: PointwiseState<S>, block: nat, states: map<nat, S>)
    returns (changed: set<nat>)
    requires forall b :: b in successors ==> b in states
    requires block in pointwise.stateAfterBlock ==>
               forall b :: b in pointwise.stateAfterBlock[block] ==> b in successors
    modifies pointwise`stateAfterBlock
    ensures var edges := Selected(successors, states);
            && pointwise.stateAfterBlock == old(pointwise.stateAfterBlock)[block := edges]
            && changed == Changed(old(pointwise.stateAfterBlock), block, edges)
  {
    ghost var after := pointwise.stateAfterBlock;
    var newMap := states;
    changed := {};
    pointwise.LookupMutAfterBlock(block);
    ghost var done := {};
    NothingReplaced(after, block, states);
    for k := 0 to |successors|
      invariant done <= states.Keys && forall b :: b in done <==> b in successors[..k]
      invariant newMap == Without(states, done)
      invariant Published(pointwise, after, block, states, done)
      invariant changed == ChangedAmong(EdgesOf(after, block), states, done)
    {
      newMap, changed := PublishEdge(pointwise, block, successors[k], newMap, changed, after, states, done);
      done := done + {successors[k]};
      assert successors[..k + 1] == successors[..k] + [successors[k]];
    }
    assert successors[..|successors|] == successors;
    ReplacedAll(after, block, successors, states, done);
  }

  lemma NothingReplaced<S>(after: EdgeMap<S>, block: nat, states: map<nat, S>)
    ensures Replaced(EdgesOf(after, block), states, {}) == EdgesOf(after, block)
    ensures Without(states, {}) == states
    ensures ChangedAmong(EdgesOf(after, block), states, {}) == {}
  {
  }

  /** Interpret `block` once and return the states on its outgoing edges. */
  method InterpretBlock<S(==)>(dom: Domain<S>, cfg: Cfg, pointwise: PointwiseState<S>, block: nat)
    returns (r: Result<map<nat, S>>)
    requires WellFormed(cfg) && block < |cfg.statements|
    requires forall p :: p in cfg.predecessors[block] && p in pointwise.stateAfterBlock ==>
               block in pointwise.stateAfterBlock[p]
    modifies pointwise`stateBefore
    ensures var s := StateBefore(dom, cfg, pointwise.stateAfterBlock, block);
            && (r.Ok? ==> (forall b :: b in cfg.successors[block] ==> b in r.value))
            && EdgeStates(dom, cfg, block, s) == (match r
                                                  case Ok(states) => Ok(Selected(cfg.successors[block], states))
                                                  case Err(e) => Err(e))
            && (r.Ok? ==> Recorded(dom, cfg, pointwise.stateBefore, block, s))
    ensures SameOutside(old(pointwise.stateBefore), pointwise.stateBefore, block)
  {
    var stateBeforeBlock := JoinPredecessors(dom, cfg, pointwise, block);
    var current := RunBlock(dom, cfg, pointwise, block, stateBeforeBlock);
    if current.Err? {
      return Err(current.error);
    }
    var nextStates := dom.terminator(TerminatorLoc(cfg, block), current.value);
    if nextStates.Err? {
      return Err(nextStates.error);
    }
    var newMap := MergeStates(dom, nextStates.value);
    var missing := CheckSuccessors(cfg.successors[block], newMap);
    if missing.Some? {
      return Err(SuccessorWithoutState(TerminatorLoc(cfg, block), missing.value));
    }
    return Ok(newMap);
  }

  predicate IsBlock(cfg: Cfg, b: nat) {
    b < |cfg.statements|
  }

  function AllBlocks(cfg: Cfg): set<nat> {
    set b: nat | 0 <= b < |cfg.statements| && IsBlock(cfg, b)
  }

  lemma InitialInv<S(!new)>(dom: Domain<S>, cfg: Cfg, laws: Laws<S>)
    requires WellFormed(cfg)
    ensures Inv(dom, cfg, laws, map[], map[], map[], AllBlocks(cfg)) && Least(dom, cfg, laws, map[])
  {
    forall bound: EdgeMap<S>
      ensures AllBelow(dom, map[], bound)
    {
    }
    forall b: nat
      ensures VisitedIn(dom, cfg, laws, map[], map[], map[], AllBlocks(cfg), b)
    {
    }
  }

  /** With nothing left to do, the invariant says that the equations are solved. */
  lemma FinalInv<S(!new)>(dom: Domain<S>, cfg: Cfg, laws: Laws<S>, before: map<Location, S>, after: EdgeMap<S>,
                          lasts: map<nat, S>)
    requires WellFormed(cfg) && Inv(dom, cfg, laws, before, after, lasts, {}) && Least(dom, cfg, laws, after)
    ensures Solved(dom, cfg, laws, before, after)
  {
    forall b: nat | b < |cfg.statements|
      ensures SolvedAt(dom, cfg, laws, before, after, b)
    {
      assert b in after && b in lasts;
      assert VisitedIn(dom, cfg, laws, before, after, lasts, {}, b);
    }
  }

  /** In a distributive domain no block of a solution raises an error from any state. */
  lemma SolvedNoErrors<S(!new)>(dom: Domain<S>, cfg: Cfg, laws: Laws<S>, before: map<Location, S>, after: EdgeMap<S>)
    requires WellFormed(cfg) && Distributive(dom, cfg, laws) && Solved(dom, cfg, laws, before, after)
    ensures NoErrors(dom, cfg)
  {
    forall b: nat | b < |cfg.statements|
      ensures BlockError(dom, cfg, b).None?
    {
      assert SolvedAt(dom, cfg, laws, before, after, b);
      BlockErrorExact(dom, cfg, laws, b, StateBefore(dom, cfg, after, b));
    }
  }

  /** Does an error that a block raises from one state occur from every higher one as well? */
  ghost predicate ErrorsPersist<S(!new)>(dom: Domain<S>, cfg: Cfg, laws: Laws<S>)
    requires WellFormed(cfg)
  {
    forall b: nat, s, t :: b < |cfg.statements| && laws.valid(s) && laws.valid(t) && Below(dom, s, t) ==>
                             EdgeStates(dom, cfg, b, s).Err? ==> EdgeStates(dom, cfg, b, t).Err?
  }

  /** Where errors persist, the solver fails only if there is no solution to find. */
  lemma ForcedErrorUnsolvable<S(!new)>(dom: Domain<S>, cfg: Cfg, laws: Laws<S>, e: AnalysisError)
    requires WellFormed(cfg) && JoinLaws(dom, laws) && ErrorsPersist(dom, cfg, laws)
    requires ForcedError(dom, cfg, laws, e)
    ensures !exists bound :: PostSolution(dom, cfg, laws, bound)
  {
    var b: nat, s :|
      && b < |cfg.statements| && laws.valid(s) && EdgeStates(dom, cfg, b, s) == Err(e)
      && forall bound :: PostSolution(dom, cfg, laws, bound) ==> Below(dom, s, StateBefore(dom, cfg, bound, b));
    forall bound
      ensures !PostSolution(dom, cfg, laws, bound)
    {
      if EdgesValid(cfg, laws, bound) {
        IncomingValid(dom, cfg, laws, bound, b, |cfg.predecessors[b]|);
        assert PostSolution(dom, cfg, laws, bound) ==> b !in bound || !BoundAt(dom, cfg, bound, b);
      }
    }
  }

  lemma SolutionBounds<S(!new)>(dom: Domain<S>, cfg: Cfg, laws: Laws<S>, before: map<Location, S>, after: EdgeMap<S>)
    requires WellFormed(cfg) && Monotone(dom, cfg, laws) && Solved(dom, cfg, laws, before, after)
    ensures PostSolution(dom, cfg, laws, after)
  {
    forall p: nat | p < |cfg.statements|
      ensures p in after && BoundAt(dom, cfg, after, p)
      ensures (forall b :: b in after[p] <==> b in cfg.successors[p]) &&
              forall b :: b in after[p] ==> laws.valid(after[p][b])
    {
      assert SolvedAt(dom, cfg, laws, before, after, p);
      EdgesExact(dom, cfg, laws, p, StateBefore(dom, cfg, after, p));
      forall b | b in after[p]
        ensures Below(dom, after[p][b], after[p][b])
      {
        JoinFacts(dom, laws, after[p][b], after[p][b]);
      }
    }
  }

  /** Blocks before the smallest pending one have been visited, hence raise no error. */
  lemma ErrorIsFirst<S(!new)>(dom: Domain<S>, cfg: Cfg, laws: Laws<S>, before: map<Location, S>, after: EdgeMap<S>,
                              lasts: map<nat, S>, workSet: set<nat>, block: nat, e: AnalysisError)
    requires WellFormed(cfg) && Distributive(dom, cfg, laws) && Inv(dom, cfg, laws, before, after, lasts, workSet)
    requires block in workSet && forall b :: b in workSet ==> block <= b
    requires EdgeStates(dom, cfg, block, StateBefore(dom, cfg, after, block)) == Err(e)
    ensures FirstError(dom, cfg, e) && !NoErrors(dom, cfg)
  {
    DistributiveIsMonotone(dom, cfg, laws);
    InvEdgesValid(dom, cfg, laws, before, after, lasts, workSet);
    IncomingValid(dom, cfg, laws, after, block, |cfg.predecessors[block]|);
    BlockErrorExact(dom, cfg, laws, block, StateBefore(dom, cfg, after, block));
    forall p: nat | p < block
      ensures BlockError(dom, cfg, p).None?
    {
      assert p in lasts;
      assert VisitedIn(dom, cfg, laws, before, after, lasts, workSet, p);
      BlockErrorExact(dom, cfg, laws, p, lasts[p]);
    }
  }

  /** One round keeps the invariant, and either lowers the weight or leaves no new work. */
  lemma RoundDone<S(!new)>(dom: Domain<S>, cfg: Cfg, laws: Laws<S>, before: map<Location, S>, after: EdgeMap<S>,
                           lasts: map<nat, S>, workSet: set<nat>, block: nat, edges: map<nat, S>,
                           before': map<Location, S>)
    requires WellFormed(cfg) && Monotone(dom, cfg, laws) && Inv(dom, cfg, laws, before, after, lasts, workSet)
    requires block in workSet
    requires EdgeStates(dom, cfg, block, StateBefore(dom, cfg, after, block)) == Ok(edges)
    requires Recorded(dom, cfg, before', block, StateBefore(dom, cfg, after, block))
    requires SameOutside(before, before', block)
    ensures var after', workSet' := after[block := edges], workSet - {block} + Changed(after, block, edges);
            && Inv(dom, cfg, laws, before', after', lasts[block := StateBefore(dom, cfg, after, block)], workSet')
            && (|| TotalWeight(cfg, laws, after', |cfg.successors|) < TotalWeight(cfg, laws, after, |cfg.successors|)
                || (&& TotalWeight(cfg, laws, after', |cfg.successors|) ==
                       TotalWeight(cfg, laws, after, |cfg.successors|)
                    && |workSet'| < |workSet|))
  {
    var after', changed := after[block := edges], Changed(after, block, edges);
    RoundKeepsInv(dom, cfg, laws, before, after, lasts, workSet, block, edges, before', after');
    TotalWeightFalls(dom, cfg, laws, after, after', changed, block, |cfg.successors|);
    if changed == {} {
      assert workSet - {block} + changed == workSet - {block};
    }
  }

  /**
   Compute an abstract state for every location, or report an error. In a distributive domain
   it is the error of the first block that has one.
   */
  method RunFwdAnalysis<S(==, !new)>(dom: Domain<S>, cfg: Cfg, ghost laws: Laws<S>)
    returns (r: Result<PointwiseState<S>>)
    requires WellFormed(cfg) && Monotone(dom, cfg, laws)
    ensures r.Ok? ==> fresh(r.value) && Solved(dom, cfg, laws, r.value.stateBefore, r.value.stateAfterBlock)
    ensures r.Err? ==> ForcedError(dom, cfg, laws, r.error)
    ensures ErrorsPersist(dom, cfg, laws) ==> (r.Ok? <==> exists bound :: PostSolution(dom, cfg, laws, bound))
    ensures Distributive(dom, cfg, laws) ==> (r.Ok? <==> NoErrors(dom, cfg))
    ensures Distributive(dom, cfg, laws) && r.Err? ==> FirstError(dom, cfg, r.error)
  {
    var pointwise := new PointwiseState<S>();
    var workSet := AllBlocks(cfg);
    ghost var lasts: map<nat, S> := map[];
    InitialInv(dom, cfg, laws);
    while workSet != {}
      invariant Inv(dom, cfg, laws, pointwise.stateBefore, pointwise.stateAfterBlock, lasts, workSet)
      invariant Least(dom, cfg, laws, pointwise.stateAfterBlock)
      decreases TotalWeight(cfg, laws, pointwise.stateAfterBlock, |cfg.successors|), |workSet|
    {
      ghost var least := SmallestExists(workSet);
      var bb :| bb in workSet && forall b :: b in workSet ==> bb <= b;
      ghost var before, after := pointwise.stateBefore, pointwise.stateAfterBlock;
      InvEdgesValid(dom, cfg, laws, before, after, lasts, workSet);
      var newMap := InterpretBlock(dom, cfg, pointwise, bb);
      if newMap.Err? {
        ErrorIsForced(dom, cfg, laws, after, bb, newMap.error);
        if ErrorsPersist(dom, cfg, laws) {
          ForcedErrorUnsolvable(dom, cfg, laws, newMap.error);
        }
        if Distributive(dom, cfg, laws) {
          ErrorIsFirst(dom, cfg, laws, before, after, lasts, workSet, bb, newMap.error);
        }
        return Err(newMap.error);
      }
      var changed := Publish(cfg.successors[bb], pointwise, bb, newMap.value);
      ghost var edges := Selected(cfg.successors[bb], newMap.value);
      RoundKeepsLeast(dom, cfg, laws, after, bb, edges);
      RoundDone(dom, cfg, laws, before, after, lasts, workSet, bb, edges, pointwise.stateBefore);
      lasts := lasts[bb := StateBefore(dom, cfg, after, bb)];
      workSet := workSet - {bb} + changed;
    }
    FinalInv(dom, cfg, laws, pointwise.stateBefore, pointwise.stateAfterBlock, lasts);
    SolutionBounds(dom, cfg, laws, pointwise.stateBefore, pointwise.stateAfterBlock);
    if Distributive(dom, cfg, laws) {
      SolvedNoErrors(dom, cfg, laws, pointwise.stateBefore, pointwise.stateAfterBlock);
    }
    return Ok(pointwise);
  }
}
