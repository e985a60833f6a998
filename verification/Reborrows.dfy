/**
 The reborrowing relation between loans: its transitive closure and the direct reborrows
 that are left when everything implied by transitivity is dropped.
 */
module Reborrows {

  /** `(a, b)` says that loan `a` reborrows loan `b`. */
  type Relation = set<(nat, nat)>

  ghost predicate IsChain(r: Relation, chain: seq<nat>) {
    |chain| > 1 && forall i :: 0 < i < |chain| ==> (chain[i - 1], chain[i]) in r
  }

  /** `a` leads to `b` in one step or more. */
  ghost predicate Connected(r: Relation, a: nat, b: nat) {
    exists chain :: IsChain(r, chain) && chain[0] == a && chain[|chain| - 1] == b
  }

  ghost predicate Transitive(r: Relation) {
    forall a: nat, b: nat, c: nat :: (a, b) in r && (b, c) in r ==> (a, c) in r
  }

  ghost predicate Irreflexive(r: Relation) {
    forall a: nat :: (a, a) !in r
  }

  lemma OneStep(r: Relation, a: nat, b: nat)
    requires (a, b) in r
    ensures Connected(r, a, b)
  {
    assert IsChain(r, [a, b]);
  }

  lemma ConnectedTransitive(r: Relation, a: nat, b: nat, c: nat)
    requires Connected(r, a, b) && Connected(r, b, c)
    ensures Connected(r, a, c)
  {
    var p :| IsChain(r, p) && p[0] == a && p[|p| - 1] == b;
    var q :| IsChain(r, q) && q[0] == b && q[|q| - 1] == c;
    var all := p + q[1..];
    forall i | 0 < i < |all|
      ensures (all[i - 1], all[i]) in r
    {
      if i >= |p| {
        assert all[i] == q[i - |p| + 1] && all[i - 1] == q[i - |p|];
      }
    }
    assert IsChain(r, all);
  }

  /** A transitive relation contains whatever is connected by part of it. */
  lemma {:induction false} ChainInTransitive(r: Relation, s: Relation, chain: seq<nat>)
    requires r <= s && Transitive(s) && IsChain(r, chain)
    ensures (chain[0], chain[|chain| - 1]) in s
    decreases |chain|
  {
    var k := |chain| - 1;
    assert (chain[k - 1], chain[k]) in s;
    if k > 1 {
      ChainInTransitive(r, s, chain[..k]);
    }
  }

  // ----- transitive closure -----

  function Compose(r: Relation, s: Relation): Relation {
    set p, q | p in r && q in s && p.1 == q.0 :: (p.0, q.1)
  }

  ghost function Nodes(r: Relation): set<nat> {
    (set p | p in r :: p.0) + (set p | p in r :: p.1)
  }

  ghost function AllPairs(nodes: set<nat>): Relation {
    set a, b | a in nodes && b in nodes :: (a, b)
  }

  /** Join the relation with itself until nothing new is found. */
  method TransitiveClosure(reborrows: Relation) returns (closed: Relation)
    ensures forall a: nat, b: nat :: (a, b) in closed <==> Connected(reborrows, a, b)
  {
    closed := reborrows;
    ghost var all := AllPairs(Nodes(reborrows));
    forall a: nat, b: nat | (a, b) in closed
      ensures (a, b) in all && Connected(reborrows, a, b)
    {
      OneStep(reborrows, a, b);
      assert (a, b).0 in Nodes(reborrows) && (a, b).1 in Nodes(reborrows);
    }
    assert closed <= all;
    while !(Compose(closed, closed) <= closed)
      invariant reborrows <= closed <= all
      invariant forall a: nat, b: nat :: (a, b) in closed ==> Connected(reborrows, a, b)
      decreases all - closed
    {
      var found := Compose(closed, closed);
      forall a: nat, c: nat | (a, c) in found
        ensures (a, c) in all && Connected(reborrows, a, c)
      {
        var p, q :| p in closed && q in closed && p.1 == q.0 && (p.0, q.1) == (a, c);
        assert (a, p.1) == p && (p.1, c) == q;
        ConnectedTransitive(reborrows, a, p.1, c);
      }
      closed := closed + found;
    }
    assert Transitive(closed) by {
      forall a: nat, b: nat, c: nat | (a, b) in closed && (b, c) in closed
        ensures (a, c) in closed
      {
        assert (a, c) in Compose(closed, closed);
      }
    }
    forall a: nat, b: nat | Connected(reborrows, a, b)
      ensures (a, b) in closed
    {
      var chain :| IsChain(reborrows, chain) && chain[0] == a && chain[|chain| - 1] == b;
      ChainInTransitive(reborrows, closed, chain);
    }
  }

  // ----- transitive reduction -----

  /** The pairs that are not implied by two others. */
  function DeriveNontransitive(reborrows: Relation): Relation {
    set p | p in reborrows && !exists q :: q in reborrows && q.1 == p.1 && (p.0, q.0) in reborrows
  }

  ghost function Between(r: Relation, a: nat, b: nat): set<nat> {
    set c | c in Nodes(r) && (a, c) in r && (c, b) in r
  }

  lemma BetweenShrinks(r: Relation, a: nat, b: nat, c: nat)
    requires Transitive(r) && Irreflexive(r) && c in Between(r, a, b)
    ensures Between(r, a, c) < Between(r, a, b) && Between(r, c, b) < Between(r, a, b)
  {
  }

  lemma DirectOrBetween(r: Relation, a: nat, b: nat)
    requires (a, b) in r
    ensures (a, b) in DeriveNontransitive(r) <==> Between(r, a, b) == {}
  {
    if (a, b) !in DeriveNontransitive(r) {
      var q :| q in r && q.1 == b && (a, q.0) in r;
      assert q == (q.0, b) && q.0 in Between(r, a, b);
    }
    if c :| c in Between(r, a, b) {
      assert (c, b) in r && (c, b).1 == b;
    }
  }

  lemma {:induction false} ReductionConnects(r: Relation, a: nat, b: nat)
    requires Transitive(r) && Irreflexive(r) && (a, b) in r
    ensures Connected(DeriveNontransitive(r), a, b)
    decreases Between(r, a, b)
  {
    DirectOrBetween(r, a, b);
    if Between(r, a, b) == {} {
      OneStep(DeriveNontransitive(r), a, b);
    } else {
      var c :| c in Between(r, a, b);
      BetweenShrinks(r, a, b, c);
      ReductionConnects(r, a, c);
      ReductionConnects(r, c, b);
      ConnectedTransitive(DeriveNontransitive(r), a, c, b);
    }
  }

  ghost predicate ReductionLosesNothing(r: Relation) {
    forall a: nat, b: nat :: Connected(DeriveNontransitive(r), a, b) <==> (a, b) in r
  }

  /** The direct reborrows generate exactly the relation, precisely when it is transitive. */
  lemma ReductionExact(r: Relation)
    requires Irreflexive(r)
    ensures ReductionLosesNothing(r) <==> Transitive(r)
  {
    if Transitive(r) {
      forall a: nat, b: nat
        ensures Connected(DeriveNontransitive(r), a, b) <==> (a, b) in r
      {
        if (a, b) in r {
          ReductionConnects(r, a, b);
        }
        if Connected(DeriveNontransitive(r), a, b) {
          var chain :| IsChain(DeriveNontransitive(r), chain) && chain[0] == a && chain[|chain| - 1] == b;
          ChainInTransitive(DeriveNontransitive(r), r, chain);
        }
      }
    }
    if ReductionLosesNothing(r) {
      forall a: nat, b: nat, c: nat | (a, b) in r && (b, c) in r
        ensures (a, c) in r
      {
        ConnectedTransitive(DeriveNontransitive(r), a, b, c);
      }
    }
  }

  /** A way from `a` to `b` that stays within `r` and is longer than one step refutes that the pair is direct. */
  lemma DirectIsOneStep(r: Relation, s: Relation, a: nat, b: nat)
    requires Transitive(r) && (a, b) in DeriveNontransitive(r) && Connected(s, a, b)
    requires s <= r
    ensures (a, b) in s
  {
    var chain :| IsChain(s, chain) && chain[0] == a && chain[|chain| - 1] == b;
    var k := |chain| - 1;
    assert (chain[k - 1], chain[k]) in s;
    if k > 1 {
      ChainInTransitive(s, r, chain[..k]);
    }
  }

  /** Every relation that generates `r` contains all direct reborrows, so none of them can be spared. */
  lemma ReductionSmallest(r: Relation, s: Relation)
    requires Transitive(r) && Irreflexive(r)
    requires forall a: nat, b: nat :: Connected(s, a, b) <==> (a, b) in r
    ensures DeriveNontransitive(r) <= s
  {
    forall p | p in s
      ensures p in r
    {
      OneStep(s, p.0, p.1);
    }
    forall p | p in DeriveNontransitive(r)
      ensures p in s
    {
      DirectIsOneStep(r, s, p.0, p.1);
    }
  }

  lemma RemovingLosesPair(r: Relation, p: (nat, nat))
    requires Transitive(r) && Irreflexive(r) && p in DeriveNontransitive(r)
    ensures !Connected(DeriveNontransitive(r) - {p}, p.0, p.1)
  {
    var rest := DeriveNontransitive(r) - {p};
    forall q | q in rest
      ensures q in r
    {
      assert q in DeriveNontransitive(r);
    }
    if Connected(rest, p.0, p.1) {
      DirectIsOneStep(r, rest, p.0, p.1);
    }
  }

  // ----- both steps together -----

  ghost predicate Mutual(loaded: Relation, a: nat, b: nat) {
    a != b && Connected(loaded, a, b) && Connected(loaded, b, a)
  }

  ghost predicate Derived(loaded: Relation, reborrows: Relation) {
    forall a: nat, b: nat :: (a, b) in reborrows <==> a != b && Connected(loaded, a, b)
  }

  /** Close the relation, drop the reflexive pairs, and keep the direct ones. */
  method DeriveReborrows(loaded: Relation) returns (reborrows: Relation, direct: Relation)
    ensures Derived(loaded, reborrows)
    ensures direct == DeriveNontransitive(reborrows)
  {
    var closed := TransitiveClosure(loaded);
    reborrows := set p | p in closed && p.0 != p.1;
    direct := DeriveNontransitive(reborrows);
  }

  /** What is derived loses nothing exactly if no two different loans reborrow each other. */
  lemma DerivedLosesNothing(loaded: Relation, reborrows: Relation)
    requires Derived(loaded, reborrows)
    ensures ReductionLosesNothing(reborrows) <==> !exists a: nat, b: nat :: Mutual(loaded, a, b)
  {
    ReductionExact(reborrows);
    if a: nat, b: nat :| Mutual(loaded, a, b) {
      assert (a, b) in reborrows && (b, a) in reborrows && (a, a) !in reborrows;
    } else {
      forall a: nat, b: nat, c: nat | (a, b) in reborrows && (b, c) in reborrows
        ensures (a, c) in reborrows
      {
        ConnectedTransitive(loaded, a, b, c);
        assert !Mutual(loaded, a, b);
      }
    }
  }

  // ----- cycles among the direct reborrows -----

  /** Two loans reborrow each other, and neither shares that with a third loan. */
  ghost predicate MutualPair(loaded: Relation, a: nat, b: nat) {
    Mutual(loaded, a, b) && forall c: nat :: Mutual(loaded, a, c) ==> c == b
  }

  lemma {:induction false} ChainOfConnected(r: Relation, s: Relation, chain: seq<nat>)
    requires IsChain(s, chain) && forall a: nat, b: nat :: (a, b) in s ==> Connected(r, a, b)
    ensures Connected(r, chain[0], chain[|chain| - 1])
    decreases |chain|
  {
    var k := |chain| - 1;
    assert (chain[k - 1], chain[k]) in s;
    if k > 1 {
      ChainOfConnected(r, s, chain[..k]);
      ConnectedTransitive(r, chain[0], chain[k - 1], chain[k]);
    }
  }

  /** A direct reborrow that is returned leaves no room for a third loan. */
  lemma ReturnedDirectIsPair(loaded: Relation, reborrows: Relation, a: nat, b: nat)
    requires Derived(loaded, reborrows)
    requires (a, b) in DeriveNontransitive(reborrows) && Connected(loaded, b, a)
    ensures MutualPair(loaded, a, b)
  {
    forall c: nat | Mutual(loaded, a, c)
      ensures c == b
    {
      if c != b {
        ConnectedTransitive(loaded, c, a, b);
      }
    }
  }

  lemma PairIsDirect(loaded: Relation, reborrows: Relation, a: nat, b: nat)
    requires Derived(loaded, reborrows) && MutualPair(loaded, a, b)
    ensures (a, b) in DeriveNontransitive(reborrows) && (b, a) in DeriveNontransitive(reborrows)
  {
    forall q | q in reborrows && q.1 == b
      ensures (a, q.0) !in reborrows
    {
      if (a, q.0) in reborrows {
        assert q == (q.0, b);
        ConnectedTransitive(loaded, q.0, b, a);
        assert Mutual(loaded, a, q.0);
      }
    }
    forall q | q in reborrows && q.1 == a
      ensures (b, q.0) !in reborrows
    {
      if (b, q.0) in reborrows {
        assert q == (q.0, a);
        ConnectedTransitive(loaded, a, b, q.0);
        assert Mutual(loaded, a, q.0);
      }
    }
  }

  /** A cycle of direct reborrows starts with a mutual pair. */
  lemma CycleGivesPair(loaded: Relation, reborrows: Relation, part: Relation, a: nat) returns (b: nat)
    requires Derived(loaded, reborrows)
    requires part <= DeriveNontransitive(reborrows) && Connected(part, a, a)
    ensures (a, b) in part && MutualPair(loaded, a, b)
  {
    var chain :| IsChain(part, chain) && chain[0] == a && chain[|chain| - 1] == a;
    b := chain[1];
    assert (chain[0], b) in part;
    assert |chain| > 2;
    ChainOfConnected(loaded, part, chain[1..]);
    ReturnedDirectIsPair(loaded, reborrows, a, b);
  }

  /** The direct reborrows have a cycle exactly if some pair of loans, and no third loan with them, is mutual. */
  lemma DirectCyclic(loaded: Relation, reborrows: Relation)
    requires Derived(loaded, reborrows)
    ensures (exists a: nat :: Connected(DeriveNontransitive(reborrows), a, a)) <==>
            exists a: nat, b: nat :: MutualPair(loaded, a, b)
  {
    var direct := DeriveNontransitive(reborrows);
    if a: nat :| Connected(direct, a, a) {
      var b := CycleGivesPair(loaded, reborrows, direct, a);
    }
    if a: nat, b: nat :| MutualPair(loaded, a, b) {
      PairIsDirect(loaded, reborrows, a, b);
      OneStep(direct, a, b);
      OneStep(direct, b, a);
      ConnectedTransitive(direct, a, b, a);
    }
  }

  const TWO_MUTUAL_LOANS: Relation := {(0, 1), (1, 0)}

  /** The smallest failing input: from two loans that reborrow each other the same two pairs are derived. */
  lemma MutualLoansFail()
    ensures Derived(TWO_MUTUAL_LOANS, TWO_MUTUAL_LOANS)
    ensures !ReductionLosesNothing(TWO_MUTUAL_LOANS)
    ensures Connected(DeriveNontransitive(TWO_MUTUAL_LOANS), 0, 0)
  {
    var loaded := TWO_MUTUAL_LOANS;
    OneStep(loaded, 0, 1);
    OneStep(loaded, 1, 0);
    forall a: nat, b: nat | Connected(loaded, a, b)
      ensures a < 2 && b < 2
    {
      var chain :| IsChain(loaded, chain) && chain[0] == a && chain[|chain| - 1] == b;
      assert (a, chain[1]) in loaded && (chain[|chain| - 2], b) in loaded;
    }
    assert Mutual(loaded, 0, 1);
    DerivedLosesNothing(loaded, loaded);
    var direct := DeriveNontransitive(loaded);
    PairIsDirect(loaded, loaded, 0, 1);
    OneStep(direct, 0, 1);
    OneStep(direct, 1, 0);
    ConnectedTransitive(direct, 0, 1, 0);
  }
}
