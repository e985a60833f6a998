/**
 The reborrowing graph of the loans that expire at a location: the loans in topological order,
 each with the loans that reborrow it and the loans that it reborrows.
 */
module ReborrowingDag {
  import opened Wrappers
  import opened Graphs
  import opened TopologicalSort
  import opened Reborrows

  datatype DagNode = DagNode(loan: nat, reborrowing: seq<nat>, reborrowed: seq<nat>)

  datatype DagError = LoansInNestedLoops | NoMagicWands

  /** `NotADag` is the panic of the sort. */
  datatype DagResult = Dag(nodes: seq<DagNode>) | Failed(error: DagError) | NotADag

  function WithoutPlaceholders(loans: seq<nat>, placeholders: seq<nat>): (kept: seq<nat>)
    ensures forall l :: l in kept <==> l in loans && l !in placeholders
  {
    if loans == [] then []
    else if loans[0] in placeholders then WithoutPlaceholders(loans[1..], placeholders)
    else [loans[0]] + WithoutPlaceholders(loans[1..], placeholders)
  }

  lemma {:induction false} KeptAppend(s: seq<nat>, t: seq<nat>, placeholders: seq<nat>)
    ensures WithoutPlaceholders(s + t, placeholders) ==
            WithoutPlaceholders(s, placeholders) + WithoutPlaceholders(t, placeholders)
  {
    if s == [] {
      assert s + t == t;
    } else {
      assert (s + t)[0] == s[0] && (s + t)[1..] == s[1..] + t;
      KeptAppend(s[1..], t, placeholders);
    }
  }

  lemma {:induction false} KeptDistinct(loans: seq<nat>, placeholders: seq<nat>)
    requires Distinct(loans)
    ensures Distinct(WithoutPlaceholders(loans, placeholders))
  {
    if loans != [] {
      KeptDistinct(loans[1..], placeholders);
      assert loans[0] !in loans[1..];
    }
  }

  /** A loan of the graph is listed twice exactly if it expires both as a borrow and as a zombie. */
  lemma KeptTwiceIffBoth(borrows: seq<nat>, zombies: seq<nat>, placeholders: seq<nat>)
    requires Distinct(borrows) && Distinct(zombies)
    ensures Distinct(WithoutPlaceholders(borrows + zombies, placeholders)) <==>
            !exists l :: l in borrows && l in zombies && l !in placeholders
  {
    KeptAppend(borrows, zombies, placeholders);
    KeptDistinct(borrows, placeholders);
    KeptDistinct(zombies, placeholders);
    AppendedDistinct(WithoutPlaceholders(borrows, placeholders), WithoutPlaceholders(zombies, placeholders));
  }

  // ----- loans made inside loops -----

  function LoanLoops(loans: seq<nat>, loopOf: map<nat, nat>): (pairs: seq<(nat, nat)>)
    ensures forall l, head :: (l, head) in pairs <==> l in loans && l in loopOf && loopOf[l] == head
  {
    if loans == [] then []
    else if loans[0] in loopOf then [(loans[0], loopOf[loans[0]])] + LoanLoops(loans[1..], loopOf)
    else LoanLoops(loans[1..], loopOf)
  }

  /** The loans made in a loop with the innermost loop of each; none if two loops occur. */
  method GetLoanLoops(loans: seq<nat>, loopOf: map<nat, nat>) returns (r: Option<seq<(nat, nat)>>)
    ensures r.None? <==>
      exists l, m :: l in loans && m in loans && l in loopOf && m in loopOf && loopOf[l] != loopOf[m]
    ensures r.Some? ==> (r.value != [] <==> exists l :: l in loans && l in loopOf)
    ensures r.Some? ==> forall l, head :: (l, head) in r.value <==> l in loans && l in loopOf && loopOf[l] == head
  {
    var pairs := LoanLoops(loans, loopOf);
    for i := 0 to |pairs|
      invariant forall k, j :: 0 <= k < i && 0 <= j < |pairs| ==> pairs[k].1 == pairs[j].1
    {
      for j := 0 to |pairs|
        invariant forall k :: 0 <= k < j ==> pairs[i].1 == pairs[k].1
      {
        if pairs[i].1 != pairs[j].1 {
          assert (pairs[i].0, pairs[i].1) in pairs && (pairs[j].0, pairs[j].1) in pairs;
          return None;
        }
      }
    }
    if exists l :: l in loans && l in loopOf {
      ghost var l :| l in loans && l in loopOf;
      assert (l, loopOf[l]) in pairs;
    }
    if pairs != [] {
      assert (pairs[0].0, pairs[0].1) in pairs;
    }
    forall l, m | l in loans && m in loans && l in loopOf && m in loopOf
      ensures loopOf[l] == loopOf[m]
    {
      assert (l, loopOf[l]) in pairs && (m, loopOf[m]) in pairs;
    }
    return Some(pairs);
  }

  // ----- the graph over positions in the list of loans -----

  /** The positions from `k` on of the loans that `loan` reborrows. */
  function Targets(loans: seq<nat>, direct: Relation, loan: nat, k: nat): (r: seq<nat>)
    requires k <= |loans|
    ensures forall j :: j in r <==> k <= j < |loans| && (loan, loans[j]) in direct
    decreases |loans| - k
  {
    if k == |loans| then []
    else (if (loan, loans[k]) in direct then [k] else []) + Targets(loans, direct, loan, k + 1)
  }

  function LoanGraph(loans: seq<nat>, direct: Relation): (g: Graph)
    ensures |g| == |loans| && IsGraph(g)
    ensures forall i: nat, j: nat :: Edge(g, i, j) <==> i < |loans| && j < |loans| && (loans[i], loans[j]) in direct
  {
    seq(|loans|, (i: nat) requires i < |loans| => Targets(loans, direct, loans[i], 0))
  }

  /** The part of the relation between listed loans. */
  ghost function Within(direct: Relation, loans: seq<nat>): (r: Relation)
    ensures forall a: nat, b: nat :: (a, b) in r <==> (a, b) in direct && a in loans && b in loans
  {
    set p | p in direct && p.0 in loans && p.1 in loans
  }

  ghost function LoansAlong(loans: seq<nat>, path: seq<nat>): (chain: seq<nat>)
    requires forall i :: 0 <= i < |path| ==> path[i] < |loans|
    ensures |chain| == |path| && forall i :: 0 <= i < |path| ==> chain[i] == loans[path[i]]
  {
    seq(|path|, i requires 0 <= i < |path| => loans[path[i]])
  }

  ghost function PositionOf(loans: seq<nat>, l: nat): (i: nat)
    requires l in loans
    ensures i < |loans| && loans[i] == l
  {
    var i :| 0 <= i < |loans| && loans[i] == l; i
  }

  lemma PathIsChain(loans: seq<nat>, direct: Relation, path: seq<nat>)
    requires IsPath(LoanGraph(loans, direct), path) && |path| > 1
    ensures Connected(Within(direct, loans), loans[path[0]], loans[End(path)])
  {
    var chain := LoansAlong(loans, path);
    forall i | 0 < i < |chain|
      ensures (chain[i - 1], chain[i]) in Within(direct, loans)
    {
      assert Edge(LoanGraph(loans, direct), path[i - 1], path[i]);
    }
    assert IsChain(Within(direct, loans), chain);
  }

  /** A chain of listed loans is the image of a path, whose ends can be chosen freely among equal loans. */
  lemma ChainIsPath(loans: seq<nat>, direct: Relation, a: nat, b: nat) returns (path: seq<nat>)
    requires a < |loans| && b < |loans| && Connected(Within(direct, loans), loans[a], loans[b])
    ensures PathFromTo(LoanGraph(loans, direct), path, a, b) && |path| > 1
  {
    var r := Within(direct, loans);
    var chain :| IsChain(r, chain) && chain[0] == loans[a] && chain[|chain| - 1] == loans[b];
    var k := |chain| - 1;
    assert (chain[0], chain[1]) in r;
    forall i | 0 <= i < |chain|
      ensures chain[i] in loans
    {
      if i > 0 {
        assert (chain[i - 1], chain[i]) in r;
      }
    }
    path := seq(|chain|, i requires 0 <= i < |chain| =>
      if i == 0 then a else if i == k then b else PositionOf(loans, chain[i]));
    forall i | 0 < i < |path|
      ensures Edge(LoanGraph(loans, direct), path[i - 1], path[i])
    {
      assert (chain[i - 1], chain[i]) in r;
      assert loans[path[i - 1]] == chain[i - 1] && loans[path[i]] == chain[i];
    }
  }

  ghost predicate Cyclic(direct: Relation, loans: seq<nat>) {
    exists l :: l in loans && Connected(Within(direct, loans), l, l)
  }

  lemma CycleOfLoans(loans: seq<nat>, direct: Relation)
    ensures HasCycle(LoanGraph(loans, direct)) <==> Cyclic(direct, loans)
  {
    var g := LoanGraph(loans, direct);
    if HasCycle(g) {
      var path :| IsPath(g, path) && |path| > 1 && path[0] == End(path);
      PathIsChain(loans, direct, path);
    }
    if Cyclic(direct, loans) {
      var l :| l in loans && Connected(Within(direct, loans), l, l);
      var a := PositionOf(loans, l);
      var path := ChainIsPath(loans, direct, a, a);
    }
  }

  // ----- the sorted loans -----

  lemma PositionsBelow(order: seq<nat>, n: nat)
    requires forall v: nat :: v in order <==> v < n
    ensures forall i :: 0 <= i < |order| ==> order[i] < n
  {
    forall i | 0 <= i < |order|
      ensures order[i] < n
    {
      assert order[i] in order;
    }
  }

  function Select(loans: seq<nat>, order: seq<nat>): (s: seq<nat>)
    requires forall i :: 0 <= i < |order| ==> order[i] < |loans|
    ensures |s| == |order| && forall i :: 0 <= i < |order| ==> s[i] == loans[order[i]]
  {
    seq(|order|, i requires 0 <= i < |order| => loans[order[i]])
  }

  /** Every position below `n` once. */
  ghost predicate ArePositions(order: seq<nat>, n: nat) {
    Distinct(order) && forall v: nat :: v in order <==> v < n
  }

  lemma DropLastPosition(order: seq<nat>, n: nat, p: nat) returns (rest: seq<nat>)
    requires ArePositions(order, n + 1) && p < |order| && order[p] == n
    ensures rest == order[..p] + order[p + 1..] && ArePositions(rest, n)
  {
    rest := order[..p] + order[p + 1..];
    forall i, j | 0 <= i < j < |rest|
      ensures rest[i] != rest[j]
    {
      assert rest[i] == order[if i < p then i else i + 1];
      assert rest[j] == order[if j < p then j else j + 1];
    }
    forall v: nat
      ensures v in rest <==> v < n
    {
      if v < n {
        assert v in order;
        var i :| 0 <= i < |order| && order[i] == v;
        assert v == rest[if i < p then i else i - 1];
      }
      if v in rest {
        var i :| 0 <= i < |rest| && rest[i] == v;
        assert v == order[if i < p then i else i + 1];
        assert v in order;
      }
    }
  }

  lemma SelectSplits(loans: seq<nat>, order: seq<nat>, p: nat, rest: seq<nat>)
    requires loans != [] && p < |order| && order[p] == |loans| - 1 && rest == order[..p] + order[p + 1..]
    requires forall i :: 0 <= i < |order| ==> order[i] < |loans|
    requires forall i :: 0 <= i < |rest| ==> rest[i] < |loans| - 1
    ensures multiset(Select(loans, order)) ==
            multiset(Select(loans[..|loans| - 1], rest)) + multiset{loans[|loans| - 1]}
  {
    var all := Select(loans, order);
    assert all == all[..p] + [loans[|loans| - 1]] + all[p + 1..];
    assert Select(loans[..|loans| - 1], rest) == all[..p] + all[p + 1..];
  }

  /** Taking every position once gives a permutation. */
  lemma {:induction false} SelectPermutes(loans: seq<nat>, order: seq<nat>)
    requires ArePositions(order, |loans|)
    requires forall i :: 0 <= i < |order| ==> order[i] < |loans|
    ensures multiset(Select(loans, order)) == multiset(loans)
    decreases |loans|
  {
    if loans == [] {
      DistinctBounded(order, 0);
    } else {
      var n := |loans| - 1;
      assert n in order;
      var p :| 0 <= p < |order| && order[p] == n;
      var rest := DropLastPosition(order, n, p);
      PositionsBelow(rest, n);
      SelectSplits(loans, order, p, rest);
      SelectPermutes(loans[..n], rest);
      assert loans == loans[..n] + [loans[n]];
    }
  }

  function Reborrowing(sorted: seq<nat>, direct: Relation, loan: nat): (r: seq<nat>)
    ensures forall l :: l in r <==> l in sorted && (l, loan) in direct
  {
    if sorted == [] then []
    else (if (sorted[0], loan) in direct then [sorted[0]] else []) + Reborrowing(sorted[1..], direct, loan)
  }

  function Reborrowed(sorted: seq<nat>, direct: Relation, loan: nat): (r: seq<nat>)
    ensures forall l :: l in r <==> l in sorted && (loan, l) in direct
  {
    if sorted == [] then []
    else (if (loan, sorted[0]) in direct then [sorted[0]] else []) + Reborrowed(sorted[1..], direct, loan)
  }

  function LoansOf(nodes: seq<DagNode>): (s: seq<nat>)
    ensures |s| == |nodes| && forall i :: 0 <= i < |nodes| ==> s[i] == nodes[i].loan
  {
    seq(|nodes|, i requires 0 <= i < |nodes| => nodes[i].loan)
  }

  ghost predicate Linked(nodes: seq<DagNode>, links: Relation, i: nat)
    requires i < |nodes|
  {
    && (forall l :: l in nodes[i].reborrowing <==> l in LoansOf(nodes) && (l, nodes[i].loan) in links)
    && (forall l :: l in nodes[i].reborrowed <==> l in LoansOf(nodes) && (nodes[i].loan, l) in links)
  }

  /** The nodes are the loans in an order in which a loan comes before what it reborrows. */
  ghost predicate IsDagOf(nodes: seq<DagNode>, loans: seq<nat>, direct: Relation, links: Relation) {
    && multiset(LoansOf(nodes)) == multiset(loans)
    && (forall i, j :: 0 <= i < |nodes| && 0 <= j < |nodes| && (nodes[i].loan, nodes[j].loan) in direct ==> i < j)
    && forall i :: 0 <= i < |nodes| ==> Linked(nodes, links, i)
  }

  lemma TopologicalIsDag(loans: seq<nat>, direct: Relation, order: seq<nat>, nodes: seq<DagNode>, links: Relation)
    requires IsTopological(LoanGraph(loans, direct), order)
    requires forall i :: 0 <= i < |order| ==> order[i] < |loans|
    requires LoansOf(nodes) == Select(loans, order)
    requires forall i :: 0 <= i < |nodes| ==> Linked(nodes, links, i)
    ensures IsDagOf(nodes, loans, direct, links)
  {
    SelectPermutes(loans, order);
    forall i, j | 0 <= i < |nodes| && 0 <= j < |nodes| && (nodes[i].loan, nodes[j].loan) in direct
      ensures i < j
    {
      assert LoansOf(nodes)[i] == loans[order[i]] && LoansOf(nodes)[j] == loans[order[j]];
      assert Edge(LoanGraph(loans, direct), order[i], order[j]);
    }
  }

  function LinkNodes(sorted: seq<nat>, links: Relation): (nodes: seq<DagNode>)
    ensures LoansOf(nodes) == sorted
    ensures forall i :: 0 <= i < |nodes| ==> Linked(nodes, links, i)
  {
    var nodes := seq(|sorted|, i requires 0 <= i < |sorted| =>
      DagNode(sorted[i], Reborrowing(sorted, links, sorted[i]), Reborrowed(sorted, links, sorted[i])));
    assert LoansOf(nodes) == sorted;
    nodes
  }

  method ConstructDag(allLoans: seq<nat>, placeholders: seq<nat>, inLoop: bool, loopOf: map<nat, nat>,
                      direct: Relation, links: Relation)
    returns (r: DagResult)
    ensures var loans := WithoutPlaceholders(allLoans, placeholders);
            match r
            case Failed(LoansInNestedLoops) =>
              !inLoop && exists l, m :: l in loans && m in loans && l in loopOf && m in loopOf && loopOf[l] != loopOf[m]
            case Failed(NoMagicWands) =>
              && !inLoop && (exists l :: l in loans && l in loopOf)
              && forall l, m :: l in loans && m in loans && l in loopOf && m in loopOf ==> loopOf[l] == loopOf[m]
            case NotADag => (inLoop || forall l :: l in loans ==> l !in loopOf) && Cyclic(direct, loans)
            case Dag(nodes) =>
              && (inLoop || forall l :: l in loans ==> l !in loopOf) && !Cyclic(direct, loans)
              && IsDagOf(nodes, loans, direct, links)
  {
    var loans := WithoutPlaceholders(allLoans, placeholders);
    if !inLoop {
      var loanLoops := GetLoanLoops(loans, loopOf);
      if loanLoops.None? {
        return Failed(LoansInNestedLoops);
      }
      if loanLoops.value != [] {
        return Failed(NoMagicWands);
      }
    }
    CycleOfLoans(loans, direct);
    var order := TopologicalOrder(LoanGraph(loans, direct));
    if order.None? {
      return NotADag;
    }
    PositionsBelow(order.value, |loans|);
    var sorted := Select(loans, order.value);
    var nodes := LinkNodes(sorted, links);
    TopologicalIsDag(loans, direct, order.value, nodes, links);
    return Dag(nodes);
  }

  // ----- what the order means -----

  lemma DagLoans(nodes: seq<DagNode>, loans: seq<nat>, l: nat)
    requires multiset(LoansOf(nodes)) == multiset(loans)
    ensures l in LoansOf(nodes) <==> l in loans
  {
    assert l in multiset(LoansOf(nodes)) <==> l in LoansOf(nodes);
    assert l in multiset(loans) <==> l in loans;
  }

  /** Whatever reborrows the loan of a node is itself a node, further to the front. */
  lemma ReborrowingIsEarlier(nodes: seq<DagNode>, loans: seq<nat>, direct: Relation, i: nat, l: nat)
    requires IsDagOf(nodes, loans, direct, direct) && i < |nodes| && l in nodes[i].reborrowing
    ensures l in loans && exists k :: 0 <= k < i && nodes[k].loan == l
  {
    assert Linked(nodes, direct, i);
    var k :| 0 <= k < |nodes| && LoansOf(nodes)[k] == l;
    DagLoans(nodes, loans, l);
  }

  lemma ReborrowedIsLater(nodes: seq<DagNode>, loans: seq<nat>, direct: Relation, i: nat, l: nat)
    requires IsDagOf(nodes, loans, direct, direct) && i < |nodes| && l in nodes[i].reborrowed
    ensures l in loans && exists k :: i < k < |nodes| && nodes[k].loan == l
  {
    assert Linked(nodes, direct, i);
    var k :| 0 <= k < |nodes| && LoansOf(nodes)[k] == l;
    DagLoans(nodes, loans, l);
  }

  /** The first node is reborrowed by nobody, the last reborrows nobody. */
  lemma DagEnds(nodes: seq<DagNode>, loans: seq<nat>, direct: Relation)
    requires IsDagOf(nodes, loans, direct, direct) && nodes != []
    ensures nodes[0].reborrowing == [] && nodes[|nodes| - 1].reborrowed == []
  {
    if nodes[0].reborrowing != [] {
      ReborrowingIsEarlier(nodes, loans, direct, 0, nodes[0].reborrowing[0]);
    }
    if nodes[|nodes| - 1].reborrowed != [] {
      ReborrowedIsLater(nodes, loans, direct, |nodes| - 1, nodes[|nodes| - 1].reborrowed[0]);
    }
  }

  /** For the derived relation the sort fails exactly on a mutual pair among the loans, with no third loan in it. */
  lemma CyclicIffMutualPair(loaded: Relation, reborrows: Relation, loans: seq<nat>)
    requires Derived(loaded, reborrows)
    ensures Cyclic(DeriveNontransitive(reborrows), loans) <==>
            exists a, b :: a in loans && b in loans && MutualPair(loaded, a, b)
  {
    var part := Within(DeriveNontransitive(reborrows), loans);
    if l :| l in loans && Connected(part, l, l) {
      forall p | p in part
        ensures p in DeriveNontransitive(reborrows)
      {
        assert (p.0, p.1) in part;
      }
      var b := CycleGivesPair(loaded, reborrows, part, l);
      assert b in loans;
    }
    if a, b :| a in loans && b in loans && MutualPair(loaded, a, b) {
      PairIsDirect(loaded, reborrows, a, b);
      OneStep(part, a, b);
      OneStep(part, b, a);
      ConnectedTransitive(part, a, b, a);
    }
  }
}
