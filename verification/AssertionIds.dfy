/**
 The ids that connect three representations of an assertion: the parsed tree, the closures that are
 emitted so that the Rust compiler type-checks its expressions, and the stored structure from which
 the typed tree is rebuilt.
 */
module AssertionIds {
  import opened Wrappers

  datatype Term<I, E> = Term(spec: nat, id: I, expr: E)

  datatype Vars<I, V> = Vars(spec: nat, id: I, vars: seq<V>)

  datatype Binders<I, V> = Binders(spec: nat, preId: I, postId: I, args: seq<V>, res: V)

  datatype Assertion<I, E, V> =
    | Atom(term: Term<I, E>)
    | And(conjuncts: seq<Assertion<I, E, V>>)
    | Implies(left: Assertion<I, E, V>, right: Assertion<I, E, V>)
    | Quantified(existential: bool, vars: Vars<I, V>, triggers: seq<seq<Term<I, E>>>, body: Assertion<I, E, V>)
    | SpecEntailment(closure: Term<I, E>, binders: Binders<I, V>, pres: seq<Assertion<I, E, V>>,
                     posts: seq<Assertion<I, E, V>>)

  // ----- assigning ids -----

  const FIRST_LAST_ID: nat := 100

  class ExpressionIdGenerator {
    var lastId: nat

    constructor ()
      ensures lastId == FIRST_LAST_ID
    {
      lastId := FIRST_LAST_ID;
    }

    method Generate() returns (id: nat)
      modifies this
      ensures id == lastId == old(lastId) + 1
    {
      lastId := lastId + 1;
      id := lastId;
    }
  }

  /** The number of ids that the parts of an assertion need. */
  function CountTriggers<I, E>(triggers: seq<seq<Term<I, E>>>): nat {
    if triggers == [] then 0 else |triggers[0]| + CountTriggers(triggers[1..])
  }

  function Count<I, E, V>(a: Assertion<I, E, V>): nat {
    match a
    case Atom(_) => 1
    case And(cs) => CountAll(cs)
    case Implies(left, right) => Count(left) + Count(right)
    case Quantified(_, _, triggers, body) => 1 + CountTriggers(triggers) + Count(body)
    case SpecEntailment(_, _, pres, posts) => 3 + CountAll(pres) + CountAll(posts)
  }

  function CountAll<I, E, V>(cs: seq<Assertion<I, E, V>>): nat {
    if cs == [] then 0 else Count(cs[0]) + CountAll(cs[1..])
  }

  /** The assertion with ids after `last`, in the order in which the parts are visited. */
  function AssignTerms<E>(terms: seq<Term<(), E>>, spec: nat, last: nat): (r: seq<Term<nat, E>>)
    ensures |r| == |terms|
  {
    if terms == [] then []
    else [Term(spec, last + 1, terms[0].expr)] + AssignTerms(terms[1..], spec, last + 1)
  }

  function AssignTriggers<E>(triggers: seq<seq<Term<(), E>>>, spec: nat, last: nat): (r: seq<seq<Term<nat, E>>>)
    ensures |r| == |triggers|
  {
    if triggers == [] then []
    else [AssignTerms(triggers[0], spec, last)] + AssignTriggers(triggers[1..], spec, last + |triggers[0]|)
  }

  function Assign<E, V>(a: Assertion<(), E, V>, spec: nat, last: nat): Assertion<nat, E, V> {
    match a
    case Atom(term) => Atom(Term(spec, last + 1, term.expr))
    case And(cs) => And(AssignAll(cs, spec, last))
    case Implies(left, right) => Implies(Assign(left, spec, last), Assign(right, spec, last + Count(left)))
    case Quantified(ex, vars, triggers, body) =>
      Quantified(ex, Vars(spec, last + 1, vars.vars), AssignTriggers(triggers, spec, last + 1),
                 Assign(body, spec, last + 1 + CountTriggers(triggers)))
    case SpecEntailment(closure, binders, pres, posts) =>
      SpecEntailment(Term(spec, last + 1, closure.expr),
                     Binders(spec, last + 2, last + 3, binders.args, binders.res),
                     AssignAll(pres, spec, last + 3), AssignAll(posts, spec, last + 3 + CountAll(pres)))
  }

  function AssignAll<E, V>(cs: seq<Assertion<(), E, V>>, spec: nat, last: nat): (r: seq<Assertion<nat, E, V>>)
    ensures |r| == |cs|
  {
    if cs == [] then []
    else [Assign(cs[0], spec, last)] + AssignAll(cs[1..], spec, last + Count(cs[0]))
  }

  method AssignTermsIds<E>(terms: seq<Term<(), E>>, spec: nat, generator: ExpressionIdGenerator)
    returns (r: seq<Term<nat, E>>)
    modifies generator
    ensures r == AssignTerms(terms, spec, old(generator.lastId))
    ensures generator.lastId == old(generator.lastId) + |terms|
  {
    r := [];
    for i := 0 to |terms|
      invariant generator.lastId == old(generator.lastId) + i
      invariant r + AssignTerms(terms[i..], spec, generator.lastId) == AssignTerms(terms, spec, old(generator.lastId))
    {
      var id := generator.Generate();
      assert terms[i..][1..] == terms[i + 1..];
      r := r + [Term(spec, id, terms[i].expr)];
    }
  }

  method AssignTriggersIds<E>(triggers: seq<seq<Term<(), E>>>, spec: nat, generator: ExpressionIdGenerator)
    returns (r: seq<seq<Term<nat, E>>>)
    modifies generator
    ensures r == AssignTriggers(triggers, spec, old(generator.lastId))
    ensures generator.lastId == old(generator.lastId) + CountTriggers(triggers)
  {
    r := [];
    for i := 0 to |triggers|
      invariant generator.lastId + CountTriggers(triggers[i..]) == old(generator.lastId) + CountTriggers(triggers)
      invariant r + AssignTriggers(triggers[i..], spec, generator.lastId) ==
                AssignTriggers(triggers, spec, old(generator.lastId))
    {
      var terms := AssignTermsIds(triggers[i], spec, generator);
      assert triggers[i..][1..] == triggers[i + 1..];
      r := r + [terms];
    }
  }

  /** Assign ids from the generator to all parts of the assertion. */
  method AssignIds<E, V>(a: Assertion<(), E, V>, spec: nat, generator: ExpressionIdGenerator)
    returns (r: Assertion<nat, E, V>)
    modifies generator
    ensures r == Assign(a, spec, old(generator.lastId))
    ensures generator.lastId == old(generator.lastId) + Count(a)
    decreases a, 0
  {
    match a
    case Atom(term) =>
      var id := generator.Generate();
      r := Atom(Term(spec, id, term.expr));
    case And(cs) =>
      var conjuncts := AssignAllIds(cs, spec, generator);
      r := And(conjuncts);
    case Implies(left, right) =>
      var first := AssignIds(left, spec, generator);
      var second := AssignIds(right, spec, generator);
      r := Implies(first, second);
    case Quantified(ex, vars, triggers, body) =>
      var id := generator.Generate();
      var terms := AssignTriggersIds(triggers, spec, generator);
      var inner := AssignIds(body, spec, generator);
      r := Quantified(ex, Vars(spec, id, vars.vars), terms, inner);
    case SpecEntailment(closure, binders, pres, posts) =>
      var id := generator.Generate();
      var preId := generator.Generate();
      var postId := generator.Generate();
      var before := AssignAllIds(pres, spec, generator);
      var after := AssignAllIds(posts, spec, generator);
      r := SpecEntailment(Term(spec, id, closure.expr), Binders(spec, preId, postId, binders.args, binders.res),
                          before, after);
  }

  method AssignAllIds<E, V>(cs: seq<Assertion<(), E, V>>, spec: nat, generator: ExpressionIdGenerator)
    returns (r: seq<Assertion<nat, E, V>>)
    modifies generator
    ensures r == AssignAll(cs, spec, old(generator.lastId))
    ensures generator.lastId == old(generator.lastId) + CountAll(cs)
    decreases cs, 1
  {
    r := [];
    for i := 0 to |cs|
      invariant generator.lastId + CountAll(cs[i..]) == old(generator.lastId) + CountAll(cs)
      invariant r + AssignAll(cs[i..], spec, generator.lastId) == AssignAll(cs, spec, old(generator.lastId))
    {
      var c := AssignIds(cs[i], spec, generator);
      assert cs[i..][1..] == cs[i + 1..];
      r := r + [c];
    }
  }

  // ----- what has to be found under which key -----

  /** The specification and the id within it, which make up the name of a closure. */
  type Key = (nat, nat)

  /** The parameters of a closure, and the expression it consists of, if it is made for one. */
  datatype Code<E, V> = Code(params: seq<V>, expr: Option<E>)

  datatype Entry<E, V> = Entry(key: Key, code: Code<E, V>)

  function TermEntry<E, V>(term: Term<nat, E>): Entry<E, V> {
    Entry((term.spec, term.id), Code([], Some(term.expr)))
  }

  function TermEntries<E, V>(terms: seq<Term<nat, E>>): (r: seq<Entry<E, V>>)
    ensures |r| == |terms| && forall i :: 0 <= i < |terms| ==> r[i] == TermEntry(terms[i])
  {
    seq(|terms|, i requires 0 <= i < |terms| => TermEntry(terms[i]))
  }

  function TriggerEntries<E, V>(triggers: seq<seq<Term<nat, E>>>): seq<Entry<E, V>> {
    if triggers == [] then [] else TermEntries(triggers[0]) + TriggerEntries(triggers[1..])
  }

  function VarsEntry<E, V>(vars: Vars<nat, V>): Entry<E, V> {
    Entry((vars.spec, vars.id), Code(vars.vars, None))
  }

  /** The preconditions see the arguments, the postconditions also the result. */
  function BinderEntries<E, V>(binders: Binders<nat, V>): seq<Entry<E, V>> {
    [Entry((binders.spec, binders.preId), Code(binders.args, None)),
     Entry((binders.spec, binders.postId), Code(binders.args + [binders.res], None))]
  }

  /** One entry for each id, in the order of the ids. */
  function Entries<E, V>(a: Assertion<nat, E, V>): seq<Entry<E, V>> {
    match a
    case Atom(term) => [TermEntry(term)]
    case And(cs) => EntriesAll(cs)
    case Implies(left, right) => Entries(left) + Entries(right)
    case Quantified(_, vars, triggers, body) => [VarsEntry(vars)] + TriggerEntries(triggers) + Entries(body)
    case SpecEntailment(closure, binders, pres, posts) =>
      [TermEntry(closure)] + BinderEntries(binders) + EntriesAll(pres) + EntriesAll(posts)
  }

  function EntriesAll<E, V>(cs: seq<Assertion<nat, E, V>>): seq<Entry<E, V>> {
    if cs == [] then [] else Entries(cs[0]) + EntriesAll(cs[1..])
  }

  /** The keys of the entries are consecutive, from `last + 1` on. */
  ghost predicate Consecutive<E, V>(entries: seq<Entry<E, V>>, spec: nat, last: nat) {
    forall i :: 0 <= i < |entries| ==> entries[i].key == (spec, last + 1 + i)
  }

  lemma ConsecutiveConcat<E, V>(x: seq<Entry<E, V>>, y: seq<Entry<E, V>>, spec: nat, last: nat)
    requires Consecutive(x, spec, last) && Consecutive(y, spec, last + |x|)
    ensures Consecutive(x + y, spec, last)
  {
  }

  lemma {:induction false} TermIds<E, V>(terms: seq<Term<(), E>>, spec: nat, last: nat)
    ensures Consecutive<E, V>(TermEntries(AssignTerms(terms, spec, last)), spec, last)
    decreases |terms|
  {
    if terms != [] {
      TermIds<E, V>(terms[1..], spec, last + 1);
      var rest := AssignTerms(terms[1..], spec, last + 1);
      var all := AssignTerms(terms, spec, last);
      assert TermEntries<E, V>(all) == [TermEntry(all[0])] + TermEntries(rest);
    }
  }

  lemma TriggersUnfold<E, V>(triggers: seq<seq<Term<(), E>>>, spec: nat, last: nat)
    requires triggers != []
    ensures TriggerEntries<E, V>(AssignTriggers(triggers, spec, last)) ==
            TermEntries(AssignTerms(triggers[0], spec, last)) +
            TriggerEntries(AssignTriggers(triggers[1..], spec, last + |triggers[0]|))
  {
    var rest := AssignTriggers(triggers[1..], spec, last + |triggers[0]|);
    assert AssignTriggers(triggers, spec, last)[1..] == rest;
  }

  lemma {:induction false} TriggerIds<E, V>(triggers: seq<seq<Term<(), E>>>, spec: nat, last: nat)
    ensures var entries := TriggerEntries<E, V>(AssignTriggers(triggers, spec, last));
            |entries| == CountTriggers(triggers) && Consecutive(entries, spec, last)
    decreases |triggers|
  {
    if triggers != [] {
      var n := |triggers[0]|;
      TermIds<E, V>(triggers[0], spec, last);
      TriggerIds<E, V>(triggers[1..], spec, last + n);
      TriggersUnfold<E, V>(triggers, spec, last);
      ConsecutiveConcat<E, V>(TermEntries(AssignTerms(triggers[0], spec, last)),
                              TriggerEntries(AssignTriggers(triggers[1..], spec, last + n)), spec, last);
    }
  }

  /** The ids of an assertion are the next ones of the generator, each used once. */
  lemma {:induction false} IdsAreConsecutive<E, V>(a: Assertion<(), E, V>, spec: nat, last: nat)
    ensures |Entries(Assign(a, spec, last))| == Count(a) && Consecutive(Entries(Assign(a, spec, last)), spec, last)
    decreases a, 0
  {
    match a
    case Atom(_) =>
    case And(cs) => AllIdsAreConsecutive(cs, spec, last);
    case Implies(left, right) =>
      IdsAreConsecutive(left, spec, last);
      IdsAreConsecutive(right, spec, last + Count(left));
      ImplicationIds(left, right, spec, last);
    case Quantified(ex, vars, triggers, body) => QuantifiedIds(ex, vars, triggers, body, spec, last);
    case SpecEntailment(closure, binders, pres, posts) =>
      AllIdsAreConsecutive(pres, spec, last + 3);
      AllIdsAreConsecutive(posts, spec, last + 3 + CountAll(pres));
      EntailmentIds(closure, binders, pres, posts, spec, last);
  }

  lemma ImplicationIds<E, V>(left: Assertion<(), E, V>, right: Assertion<(), E, V>, spec: nat, last: nat)
    requires var r := Entries(Assign(left, spec, last)); |r| == Count(left) && Consecutive(r, spec, last)
    requires var r := Entries(Assign(right, spec, last + Count(left)));
             |r| == Count(right) && Consecutive(r, spec, last + Count(left))
    ensures var r := Entries(Assign(Implies(left, right), spec, last));
            |r| == Count(left) + Count(right) && Consecutive(r, spec, last)
  {
    ConsecutiveConcat(Entries(Assign(left, spec, last)), Entries(Assign(right, spec, last + Count(left))), spec, last);
  }

  lemma {:induction false} QuantifiedIds<E, V>(ex: bool, vars: Vars<(), V>, triggers: seq<seq<Term<(), E>>>,
                                               body: Assertion<(), E, V>, spec: nat, last: nat)
    ensures var r := Entries(Assign(Quantified(ex, vars, triggers, body), spec, last));
            |r| == 1 + CountTriggers(triggers) + Count(body) && Consecutive(r, spec, last)
    decreases body, 2
  {
    var n := CountTriggers(triggers);
    var first: seq<Entry<E, V>> := [VarsEntry(Vars(spec, last + 1, vars.vars))];
    var second: seq<Entry<E, V>> := TriggerEntries(AssignTriggers(triggers, spec, last + 1));
    TriggerIds<E, V>(triggers, spec, last + 1);
    IdsAreConsecutive(body, spec, last + 1 + n);
    ConsecutiveConcat(first, second, spec, last);
    ConsecutiveConcat(first + second, Entries(Assign(body, spec, last + 1 + n)), spec, last);
  }

  lemma EntailmentIds<E, V>(closure: Term<(), E>, binders: Binders<(), V>, pres: seq<Assertion<(), E, V>>,
                            posts: seq<Assertion<(), E, V>>, spec: nat, last: nat)
    requires var entries := EntriesAll(AssignAll(pres, spec, last + 3));
             |entries| == CountAll(pres) && Consecutive(entries, spec, last + 3)
    requires var entries := EntriesAll(AssignAll(posts, spec, last + 3 + CountAll(pres)));
             |entries| == CountAll(posts) && Consecutive(entries, spec, last + 3 + CountAll(pres))
    ensures var r := Entries(Assign(SpecEntailment(closure, binders, pres, posts), spec, last));
            |r| == 3 + CountAll(pres) + CountAll(posts) && Consecutive(r, spec, last)
  {
    var first: seq<Entry<E, V>> := [TermEntry(Term(spec, last + 1, closure.expr))] +
                                   BinderEntries(Binders(spec, last + 2, last + 3, binders.args, binders.res));
    var second := EntriesAll(AssignAll(pres, spec, last + 3));
    var third := EntriesAll(AssignAll(posts, spec, last + 3 + CountAll(pres)));
    ConsecutiveConcat(first, second, spec, last);
    ConsecutiveConcat(first + second, third, spec, last);
  }

  lemma AllUnfold<E, V>(cs: seq<Assertion<(), E, V>>, spec: nat, last: nat)
    requires cs != []
    ensures EntriesAll(AssignAll(cs, spec, last)) ==
            Entries(Assign(cs[0], spec, last)) + EntriesAll(AssignAll(cs[1..], spec, last + Count(cs[0])))
  {
    var rest := AssignAll(cs[1..], spec, last + Count(cs[0]));
    assert AssignAll(cs, spec, last)[1..] == rest;
  }

  lemma {:induction false} AllIdsAreConsecutive<E, V>(cs: seq<Assertion<(), E, V>>, spec: nat, last: nat)
    ensures var entries := EntriesAll(AssignAll(cs, spec, last));
            |entries| == CountAll(cs) && Consecutive(entries, spec, last)
    decreases cs, 1
  {
    if cs != [] {
      var n := Count(cs[0]);
      IdsAreConsecutive(cs[0], spec, last);
      AllIdsAreConsecutive(cs[1..], spec, last + n);
      AllUnfold(cs, spec, last);
      ConsecutiveConcat(Entries(Assign(cs[0], spec, last)), EntriesAll(AssignAll(cs[1..], spec, last + n)), spec, last);
    }
  }
}
