/**
 Backward interpretation of a body without loops: from the blocks without successors to the start
 block, a block being interpreted when the states at the heads of all its successors are known.
 */
module BackwardInterpreter {
  import opened Wrappers
  import opened Sequences
  import opened Graphs
  import opened TopologicalSort
  import opened AbstractStates

  datatype Outcome<+S, +E> = Done(value: S) | Failed(error: E)

  /** What the interpreter does at a terminator, given the states at the heads of its successors, and at a statement. */
  datatype Interpreter<!S, E> = Interpreter(
    terminator: (nat, map<nat, S>) -> Outcome<S, E>,
    statement: (nat, nat, S) -> Outcome<S, E>)

  // ----- one block -----

  /** The first `count` statements, from the last to the first. */
  function ApplyStatements<S, E>(i: Interpreter<S, E>, block: nat, s: S, count: nat): Outcome<S, E> {
    if count == 0 then Done(s)
    else
      match i.statement(block, count - 1, s)
      case Failed(e) => Failed(e)
      case Done(t) => ApplyStatements(i, block, t, count - 1)
  }

  ghost predicate Complete(cfg: Cfg, known: set<nat>, block: nat) {
    block < |cfg.successors| && forall b :: b in cfg.successors[block] ==> b in known
  }

  function SuccessorStates<S>(cfg: Cfg, heads: map<nat, S>, block: nat): (states: map<nat, S>)
    requires Complete(cfg, heads.Keys, block)
    ensures forall b :: b in states <==> b in cfg.successors[block]
    ensures forall b :: b in states ==> states[b] == heads[b]
  {
    map b | b in cfg.successors[block] :: heads[b]
  }

  function BlockState<S, E>(cfg: Cfg, i: Interpreter<S, E>, heads: map<nat, S>, block: nat): Outcome<S, E>
    requires WellFormed(cfg) && Complete(cfg, heads.Keys, block)
  {
    match i.terminator(block, SuccessorStates(cfg, heads, block))
    case Failed(e) => Failed(e)
    case Done(s) => ApplyStatements(i, block, s, cfg.statements[block])
  }

  method InterpretBlock<S, E>(cfg: Cfg, i: Interpreter<S, E>, heads: map<nat, S>, block: nat)
    returns (r: Outcome<S, E>)
    requires WellFormed(cfg) && Complete(cfg, heads.Keys, block)
    ensures r == BlockState(cfg, i, heads, block)
  {
    r := i.terminator(block, SuccessorStates(cfg, heads, block));
    if r.Failed? {
      return;
    }
    for index := cfg.statements[block] downto 0
      invariant r.Done?
      invariant ApplyStatements(i, block, r.value, index) == BlockState(cfg, i, heads, block)
    {
      r := i.statement(block, index, r.value);
      if r.Failed? {
        return;
      }
    }
  }

  // ----- the states known so far -----

  /** The state of a known block is the one interpreted from the states of its successors. */
  ghost predicate HeadExact<S, E>(cfg: Cfg, i: Interpreter<S, E>, heads: map<nat, S>, block: nat)
    requires WellFormed(cfg)
  {
    && block in heads && Complete(cfg, heads.Keys, block)
    && BlockState(cfg, i, heads, block) == Done(heads[block])
  }

  /** `order` lists the known blocks in the order in which they became known. */
  ghost predicate Evaluated<S, E>(cfg: Cfg, i: Interpreter<S, E>, order: seq<nat>, heads: map<nat, S>) {
    && WellFormed(cfg)
    && IsFinished(cfg.successors, order)
    && heads.Keys == Elements(order)
    && forall b :: b in heads ==> HeadExact(cfg, i, heads, b)
  }

  /** No block is left out. */
  ghost predicate Full<S>(cfg: Cfg, heads: map<nat, S>) {
    forall b: nat :: Complete(cfg, heads.Keys, b) ==> b in heads
  }

  lemma SameSuccessors<S, E>(cfg: Cfg, i: Interpreter<S, E>, heads: map<nat, S>, more: map<nat, S>, block: nat)
    requires WellFormed(cfg) && Complete(cfg, heads.Keys, block)
    requires forall b :: b in heads ==> b in more && more[b] == heads[b]
    ensures Complete(cfg, more.Keys, block)
    ensures BlockState(cfg, i, more, block) == BlockState(cfg, i, heads, block)
  {
    assert SuccessorStates(cfg, more, block) == SuccessorStates(cfg, heads, block);
  }

  lemma EvaluatedNext<S, E>(cfg: Cfg, i: Interpreter<S, E>, order: seq<nat>, heads: map<nat, S>, block: nat, s: S)
    requires Evaluated(cfg, i, order, heads) && block !in heads
    requires Complete(cfg, heads.Keys, block) && BlockState(cfg, i, heads, block) == Done(s)
    ensures Evaluated(cfg, i, order + [block], heads[block := s])
  {
    var more := heads[block := s];
    assert block !in order by {
      assert block !in Elements(order);
    }
    forall b | Edge(cfg.successors, block, b)
      ensures b in order
    {
      assert b in Elements(order);
    }
    FinishNode(cfg.successors, order, block);
    assert more.Keys == Elements(order + [block]);
    forall b | b in more
      ensures HeadExact(cfg, i, more, b)
    {
      if b != block {
        assert HeadExact(cfg, i, heads, b);
      }
      SameSuccessors(cfg, i, heads, more, b);
    }
  }

  /** Interpreting a known block once more does not change its state; any other block becomes known. */
  lemma EvaluatedStep<S, E>(cfg: Cfg, i: Interpreter<S, E>, order: seq<nat>, heads: map<nat, S>, block: nat, s: S)
    returns (next: seq<nat>)
    requires Evaluated(cfg, i, order, heads)
    requires Complete(cfg, heads.Keys, block) && BlockState(cfg, i, heads, block) == Done(s)
    ensures Evaluated(cfg, i, next, heads[block := s])
    ensures block in heads ==> next == order
    ensures block !in heads ==> |order| < |next| <= |cfg.successors|
  {
    if block in heads {
      assert HeadExact(cfg, i, heads, block);
      assert heads[block := s] == heads;
      next := order;
    } else {
      EvaluatedNext(cfg, i, order, heads, block, s);
      next := order + [block];
      DistinctBounded(next, |cfg.successors|);
    }
  }

  // ----- why the worklist runs empty -----

  ghost function Rank(order: seq<nat>, block: nat): (r: nat)
    ensures r == 0 <==> block !in order
  {
    if order == [] then 0
    else if order[0] == block then |order|
    else Rank(order[1..], block)
  }

  lemma {:induction false} RankAt(order: seq<nat>, k: nat)
    requires Distinct(order) && k < |order|
    ensures Rank(order, order[k]) == |order| - k
    decreases |order|
  {
    if k > 0 {
      assert order[1..][k - 1] == order[k];
      RankAt(order[1..], k - 1);
    }
  }

  /** A bound on the number of times that blocks are taken up again because of one entry for `block`. */
  ghost function Weight(cfg: Cfg, order: seq<nat>, block: nat): nat
    decreases Rank(order, block), 1, 0
  {
    if block < |cfg.predecessors| then 1 + WeightBelow(cfg, order, cfg.predecessors[block], Rank(order, block)) else 1
  }

  /** The weights of those blocks that became known later than the rank says. */
  ghost function WeightBelow(cfg: Cfg, order: seq<nat>, blocks: seq<nat>, rank: nat): nat
    decreases rank, 0, |blocks|
  {
    if blocks == [] then 0
    else
      var k := |blocks| - 1;
      WeightBelow(cfg, order, blocks[..k], rank) +
      if Rank(order, blocks[k]) < rank then Weight(cfg, order, blocks[k]) else 0
  }

  ghost function TotalWeight(cfg: Cfg, order: seq<nat>, blocks: seq<nat>): nat {
    if blocks == [] then 0
    else TotalWeight(cfg, order, blocks[..|blocks| - 1]) + Weight(cfg, order, blocks[|blocks| - 1])
  }

  /** A complete predecessor became known later than the block, if it is known at all. */
  lemma PredecessorIsLater(cfg: Cfg, order: seq<nat>, block: nat, p: nat)
    requires WellFormed(cfg) && IsFinished(cfg.successors, order)
    requires block in order && block < |cfg.predecessors| && p in cfg.predecessors[block]
    ensures p < |cfg.successors| && Rank(order, p) < Rank(order, block)
  {
    if p in order {
      var k :| 0 <= k < |order| && order[k] == p;
      assert TargetsBefore(cfg.successors, order, k);
      assert Edge(cfg.successors, p, block);
      var j :| 0 <= j < k && order[j] == block;
      RankAt(order, k);
      RankAt(order, j);
    }
  }

  // ----- the worklist -----

  ghost predicate AllComplete(cfg: Cfg, known: set<nat>, blocks: seq<nat>) {
    forall b :: b in blocks ==> Complete(cfg, known, b)
  }

  /** A block whose successors are all known is known or about to be interpreted. */
  ghost predicate NoneForgotten(cfg: Cfg, known: set<nat>, pending: seq<nat>) {
    forall b: nat :: Complete(cfg, known, b) ==> b in known || b in pending
  }

  method FinalBlocks(cfg: Cfg) returns (pending: seq<nat>)
    requires WellFormed(cfg)
    ensures AllComplete(cfg, {}, pending) && NoneForgotten(cfg, {}, pending)
  {
    pending := [];
    for b := 0 to |cfg.successors|
      invariant forall c: nat :: c in pending <==> c < b && cfg.successors[c] == []
    {
      if cfg.successors[b] == [] {
        pending := pending + [b];
      }
    }
    forall b: nat | Complete(cfg, {}, b)
      ensures b in pending
    {
      SomeElement(cfg.successors[b]);
    }
  }

  /** Push the predecessors of `block` whose successors are all known. */
  method PushPredecessors<S>(cfg: Cfg, heads: map<nat, S>, block: nat, pending: seq<nat>, ghost order: seq<nat>)
    returns (more: seq<nat>)
    requires WellFormed(cfg) && IsFinished(cfg.successors, order) && heads.Keys == Elements(order)
    requires block in heads && block < |cfg.predecessors|
    ensures forall b :: b in more <==>
              b in pending || (b in cfg.predecessors[block] && Complete(cfg, heads.Keys, b))
    ensures TotalWeight(cfg, order, more) < TotalWeight(cfg, order, pending) + Weight(cfg, order, block)
  {
    var predecessors := cfg.predecessors[block];
    more := pending;
    for k := 0 to |predecessors|
      invariant forall b :: b in more <==>
                  b in pending || (b in predecessors[..k] && Complete(cfg, heads.Keys, b))
      invariant TotalWeight(cfg, order, more) <=
                TotalWeight(cfg, order, pending) + WeightBelow(cfg, order, predecessors[..k], Rank(order, block))
    {
      var p := predecessors[k];
      assert p in cfg.predecessors[block];
      assert predecessors[..k + 1] == predecessors[..k] + [p];
      assert predecessors[..k + 1][..k] == predecessors[..k];
      assert block in order by {
        assert block in Elements(order);
      }
      PredecessorIsLater(cfg, order, block, p);
      if forall b :: b in cfg.successors[p] ==> b in heads {
        assert (more + [p])[..|more|] == more;
        more := more + [p];
      }
    }
    assert predecessors[..|predecessors|] == predecessors;
  }

  lemma TakeBlock(cfg: Cfg, known: set<nat>, pending: seq<nat>)
    requires pending != [] && AllComplete(cfg, known, pending)
    ensures Complete(cfg, known, pending[|pending| - 1])
  {
    assert pending[|pending| - 1] in pending;
  }

  /** A block that has become complete now is a predecessor of the block just interpreted. */
  lemma PendingAfter(cfg: Cfg, prior: set<nat>, block: nat, before: seq<nat>, pending: seq<nat>)
    requires WellFormed(cfg) && block < |cfg.predecessors| && before != [] && before[|before| - 1] == block
    requires AllComplete(cfg, prior, before) && NoneForgotten(cfg, prior, before)
    requires forall b :: b in pending <==>
               b in before[..|before| - 1] || (b in cfg.predecessors[block] && Complete(cfg, prior + {block}, b))
    ensures AllComplete(cfg, prior + {block}, pending) && NoneForgotten(cfg, prior + {block}, pending)
  {
    assert before == before[..|before| - 1] + [block];
    forall b: nat | Complete(cfg, prior + {block}, b)
      ensures b in prior + {block} || b in pending
    {
      if Complete(cfg, prior, b) {
        assert b in prior || b in before;
      } else {
        assert block in cfg.successors[b];
      }
    }
    forall b | b in pending
      ensures Complete(cfg, prior + {block}, b)
    {
      if b in before[..|before| - 1] {
        assert b in before;
        assert Complete(cfg, prior, b);
      }
    }
  }

  /** All blocks that can be interpreted have been, and the result is the state at the head of the start block. */
  ghost predicate Finishes<S, E>(cfg: Cfg, i: Interpreter<S, E>, order: seq<nat>, heads: map<nat, S>, result: Option<S>)
  {
    && Evaluated(cfg, i, order, heads) && Full(cfg, heads)
    && result == if START_BLOCK in heads then Some(heads[START_BLOCK]) else None
  }

  /** A block fails whose successors have all been interpreted. */
  ghost predicate Breaks<S, E>(cfg: Cfg, i: Interpreter<S, E>, order: seq<nat>, heads: map<nat, S>, block: nat,
                               error: E)
  {
    && Evaluated(cfg, i, order, heads)
    && Complete(cfg, heads.Keys, block) && BlockState(cfg, i, heads, block) == Failed(error)
  }

  ghost predicate IsOutcome<S(!new), E>(cfg: Cfg, i: Interpreter<S, E>, r: Outcome<Option<S>, E>) {
    match r
    case Done(result) => exists order, heads :: Finishes(cfg, i, order, heads, result)
    case Failed(error) => exists order, heads, block :: Breaks(cfg, i, order, heads, block, error)
  }

  method RunBackwardInterpretation<S(!new), E>(cfg: Cfg, i: Interpreter<S, E>) returns (r: Outcome<Option<S>, E>)
    requires WellFormed(cfg)
    ensures IsOutcome(cfg, i, r)
  {
    var heads: map<nat, S> := map[];
    var pending := FinalBlocks(cfg);
    ghost var order: seq<nat> := [];
    while pending != []
      invariant Evaluated(cfg, i, order, heads)
      invariant AllComplete(cfg, heads.Keys, pending)
      invariant NoneForgotten(cfg, heads.Keys, pending)
      decreases |cfg.successors| - |order|, TotalWeight(cfg, order, pending)
    {
      ghost var before := pending;
      var block := pending[|pending| - 1];
      pending := pending[..|pending| - 1];
      TakeBlock(cfg, heads.Keys, before);
      var state := InterpretBlock(cfg, i, heads, block);
      if state.Failed? {
        assert Breaks(cfg, i, order, heads, block, state.error);
        return Failed(state.error);
      }
      ghost var prior := heads.Keys;
      order := EvaluatedStep(cfg, i, order, heads, block, state.value);
      heads := heads[block := state.value];
      pending := PushPredecessors(cfg, heads, block, pending, order);
      PendingAfter(cfg, prior, block, before, pending);
    }
    var result := if START_BLOCK in heads then Some(heads[START_BLOCK]) else None;
    assert Finishes(cfg, i, order, heads, result);
    return Done(result);
  }
}
