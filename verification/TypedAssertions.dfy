/**
 The closures emitted for an assertion, the structure stored for it, and the typed assertion that is
 rebuilt from the structure and the closures.
 */
module TypedAssertions {
  import opened Wrappers
  import opened Sequences
  import opened AssertionIds

  // ----- the closures -----

  datatype Closure<E, V> = Closure(entry: Entry<E, V>, nested: seq<Closure<E, V>>)

  function TermClosures<E, V>(terms: seq<Term<nat, E>>): (r: seq<Closure<E, V>>)
    ensures |r| == |terms|
  {
    if terms == [] then [] else [Closure(TermEntry(terms[0]), [])] + TermClosures(terms[1..])
  }

  function TriggerClosures<E, V>(triggers: seq<seq<Term<nat, E>>>): seq<Closure<E, V>> {
    if triggers == [] then [] else TermClosures(triggers[0]) + TriggerClosures(triggers[1..])
  }

  /** Within a quantifier the body comes before the triggers. */
  function Closures<E, V>(a: Assertion<nat, E, V>): seq<Closure<E, V>> {
    match a
    case Atom(term) => [Closure(TermEntry(term), [])]
    case And(cs) => ClosuresAll(cs)
    case Implies(left, right) => Closures(left) + Closures(right)
    case Quantified(_, vars, triggers, body) =>
      [Closure(VarsEntry(vars), Closures(body) + TriggerClosures(triggers))]
    case SpecEntailment(closure, binders, pres, posts) =>
      [Closure(TermEntry(closure), []),
       Closure(BinderEntries(binders)[0], ClosuresAll(pres)),
       Closure(BinderEntries(binders)[1], ClosuresAll(posts))]
  }

  function ClosuresAll<E, V>(cs: seq<Assertion<nat, E, V>>): seq<Closure<E, V>> {
    if cs == [] then [] else Closures(cs[0]) + ClosuresAll(cs[1..])
  }

  /** Extend the tokens by the closures for the assertion. */
  method EncodeTypeCheck<E, V>(a: Assertion<nat, E, V>, tokens: seq<Closure<E, V>>) returns (more: seq<Closure<E, V>>)
    ensures more == tokens + Closures(a)
    decreases a, 0
  {
    more := tokens;
    match a
    case Atom(term) => more := more + [Closure(TermEntry(term), [])];
    case And(cs) => more := EncodeAll(cs, more);
    case Implies(left, right) =>
      more := EncodeTypeCheck(left, more);
      more := EncodeTypeCheck(right, more);
    case Quantified(_, vars, triggers, body) =>
      var nested := EncodeTypeCheck(body, []);
      assert nested == Closures(body);
      nested := nested + TriggerClosures(triggers);
      more := more + [Closure(VarsEntry(vars), nested)];
    case SpecEntailment(closure, binders, pres, posts) =>
      more := more + [Closure(TermEntry(closure), [])];
      var before := EncodeAll(pres, []);
      var after := EncodeAll(posts, []);
      assert before == ClosuresAll(pres) && after == ClosuresAll(posts);
      more := more + [Closure(Entry((binders.spec, binders.preId), Code(binders.args, None)), before),
                      Closure(Entry((binders.spec, binders.postId), Code(binders.args + [binders.res], None)), after)];
  }

  method EncodeAll<E, V>(cs: seq<Assertion<nat, E, V>>, tokens: seq<Closure<E, V>>) returns (more: seq<Closure<E, V>>)
    ensures more == tokens + ClosuresAll(cs)
    decreases cs, 1
  {
    more := tokens;
    for i := 0 to |cs|
      invariant more + ClosuresAll(cs[i..]) == tokens + ClosuresAll(cs)
    {
      assert cs[i..][1..] == cs[i + 1..];
      more := EncodeTypeCheck(cs[i], more);
    }
  }

  /** All closures, also those inside others, as the compiler finds them. */
  function Flatten<E, V>(cs: seq<Closure<E, V>>): seq<Entry<E, V>> {
    if cs == [] then [] else [cs[0].entry] + Flatten(cs[0].nested) + Flatten(cs[1..])
  }

  lemma {:induction false} FlattenConcat<E, V>(x: seq<Closure<E, V>>, y: seq<Closure<E, V>>)
    ensures Flatten(x + y) == Flatten(x) + Flatten(y)
    decreases |x|
  {
    if x == [] {
      assert x + y == y;
    } else {
      FlattenConcat(x[1..], y);
      assert (x + y)[0] == x[0] && (x + y)[1..] == x[1..] + y;
      Regroup([x[0].entry] + Flatten(x[0].nested), Flatten(x[1..]), Flatten(y));
    }
  }

  lemma FlattenOne<E, V>(entry: Entry<E, V>, nested: seq<Closure<E, V>>)
    ensures Flatten([Closure(entry, nested)]) == [entry] + Flatten(nested)
  {
  }

  lemma {:induction false} TermsEmitted<E, V>(terms: seq<Term<nat, E>>)
    ensures Flatten(TermClosures<E, V>(terms)) == TermEntries(terms)
    decreases |terms|
  {
    if terms != [] {
      TermsEmitted<E, V>(terms[1..]);
      FlattenConcat<E, V>([Closure(TermEntry(terms[0]), [])], TermClosures(terms[1..]));
      FlattenOne<E, V>(TermEntry(terms[0]), []);
      assert TermEntries<E, V>(terms) == [TermEntry(terms[0])] + TermEntries(terms[1..]);
    }
  }

  lemma {:induction false} TriggersEmitted<E, V>(triggers: seq<seq<Term<nat, E>>>)
    ensures Flatten(TriggerClosures<E, V>(triggers)) == TriggerEntries(triggers)
    decreases |triggers|
  {
    if triggers != [] {
      TermsEmitted<E, V>(triggers[0]);
      TriggersEmitted<E, V>(triggers[1..]);
      FlattenConcat<E, V>(TermClosures(triggers[0]), TriggerClosures(triggers[1..]));
    }
  }

  /** The emitted closures are the entries of the assertion, in another order. */
  lemma {:induction false} EmitsEntries<E, V>(a: Assertion<nat, E, V>)
    ensures multiset(Flatten(Closures(a))) == multiset(Entries(a))
    decreases a, 0
  {
    match a
    case Atom(term) => FlattenOne<E, V>(TermEntry(term), []);
    case And(cs) => EmitsAll(cs);
    case Implies(left, right) =>
      EmitsEntries(left);
      EmitsEntries(right);
      FlattenConcat(Closures(left), Closures(right));
    case Quantified(_, vars, triggers, body) =>
      EmitsEntries(body);
      TriggersEmitted<E, V>(triggers);
      FlattenConcat(Closures(body), TriggerClosures(triggers));
      FlattenOne(VarsEntry(vars), Closures(body) + TriggerClosures(triggers));
    case SpecEntailment(closure, binders, pres, posts) =>
      EmitsAll(pres);
      EmitsAll(posts);
      var entries := BinderEntries<E, V>(binders);
      EmitsEntailment(TermEntry(closure), entries[0], ClosuresAll(pres), entries[1], ClosuresAll(posts),
                      EntriesAll(pres), EntriesAll(posts));
  }

  lemma EmitsEntailment<E, V>(a: Entry<E, V>, b: Entry<E, V>, p: seq<Closure<E, V>>, c: Entry<E, V>,
                              q: seq<Closure<E, V>>, p1: seq<Entry<E, V>>, q1: seq<Entry<E, V>>)
    requires multiset(Flatten(p)) == multiset(p1) && multiset(Flatten(q)) == multiset(q1)
    ensures multiset(Flatten([Closure(a, []), Closure(b, p), Closure(c, q)])) == multiset([a] + [b, c] + p1 + q1)
  {
    FlattenThree(a, b, p, c, q);
    BindersFirst([a], b, c, Flatten(p), Flatten(q), p1, q1);
  }

  lemma FlattenThree<E, V>(a: Entry<E, V>, b: Entry<E, V>, p: seq<Closure<E, V>>, c: Entry<E, V>,
                           q: seq<Closure<E, V>>)
    ensures Flatten([Closure(a, []), Closure(b, p), Closure(c, q)]) == ([a] + ([b] + Flatten(p))) + ([c] + Flatten(q))
  {
    FlattenConcat([Closure(a, []), Closure(b, p)], [Closure(c, q)]);
    FlattenConcat([Closure(a, [])], [Closure(b, p)]);
    FlattenOne(a, []);
    FlattenOne(b, p);
    FlattenOne(c, q);
  }

  lemma BindersFirst<T>(x: seq<T>, a: T, b: T, p: seq<T>, q: seq<T>, p1: seq<T>, q1: seq<T>)
    requires multiset(p) == multiset(p1) && multiset(q) == multiset(q1)
    ensures multiset((x + ([a] + p)) + ([b] + q)) == multiset(x + [a, b] + p1 + q1)
  {
    assert [a, b] == [a] + [b];
  }

  lemma {:induction false} EmitsAll<E, V>(cs: seq<Assertion<nat, E, V>>)
    ensures multiset(Flatten(ClosuresAll(cs))) == multiset(EntriesAll(cs))
    decreases cs, 1
  {
    if cs != [] {
      EmitsEntries(cs[0]);
      EmitsAll(cs[1..]);
      FlattenConcat(Closures(cs[0]), ClosuresAll(cs[1..]));
    }
  }

  // ----- finding a closure by its key -----

  /** The later of two closures with the same key wins. */
  function Collect<E, V>(entries: seq<Entry<E, V>>): map<Key, Code<E, V>> {
    if entries == [] then map[]
    else
      var last := |entries| - 1;
      Collect(entries[..last])[entries[last].key := entries[last].code]
  }

  ghost predicate KeysUnique<E, V>(entries: seq<Entry<E, V>>) {
    forall i, j :: 0 <= i < |entries| && 0 <= j < |entries| && entries[i].key == entries[j].key ==>
      entries[i] == entries[j]
  }

  ghost predicate Provides<E, V>(closures: map<Key, Code<E, V>>, e: Entry<E, V>) {
    e.key in closures && closures[e.key] == e.code
  }

  ghost predicate ProvidesAll<E, V>(closures: map<Key, Code<E, V>>, entries: seq<Entry<E, V>>) {
    forall e :: e in entries ==> Provides(closures, e)
  }

  lemma {:induction false} CollectProvides<E, V>(entries: seq<Entry<E, V>>)
    requires KeysUnique(entries)
    ensures forall i :: 0 <= i < |entries| ==> Provides(Collect(entries), entries[i])
    ensures forall key :: key in Collect(entries) ==> exists i :: 0 <= i < |entries| && entries[i].key == key
    decreases |entries|
  {
    if entries != [] {
      var last := |entries| - 1;
      CollectProvides(entries[..last]);
      forall i | 0 <= i < |entries|
        ensures Provides(Collect(entries), entries[i])
      {
        if i < last {
          assert Provides(Collect(entries[..last]), entries[..last][i]);
        }
      }
    }
  }

  lemma ConsecutiveUnique<E, V>(entries: seq<Entry<E, V>>, spec: nat, last: nat)
    requires Consecutive(entries, spec, last)
    ensures forall e, f :: e in entries && f in entries && e.key == f.key ==> e == f
  {
  }

  lemma PermutedUnique<E, V>(entries: seq<Entry<E, V>>, others: seq<Entry<E, V>>)
    requires multiset(entries) == multiset(others)
    requires forall e, f :: e in entries && f in entries && e.key == f.key ==> e == f
    ensures KeysUnique(others)
    ensures forall e :: e in entries <==> e in others
  {
    forall e
      ensures e in entries <==> e in others
    {
      assert e in multiset(entries) <==> e in multiset(others);
    }
    forall i, j | 0 <= i < |others| && 0 <= j < |others| && others[i].key == others[j].key
      ensures others[i] == others[j]
    {
      assert others[i] in entries && others[j] in entries;
    }
  }

  /** The collected keys are those of the entries. */
  lemma CollectedKeys<E, V>(flat: seq<Entry<E, V>>, entries: seq<Entry<E, V>>, spec: nat, last: nat)
    requires KeysUnique(flat) && Consecutive(entries, spec, last) && forall e :: e in entries <==> e in flat
    ensures forall key :: key in Collect(flat) <==> key.0 == spec && last < key.1 <= last + |entries|
  {
    CollectProvides(flat);
    forall key
      ensures key in Collect(flat) <==> key.0 == spec && last < key.1 <= last + |entries|
    {
      if key in Collect(flat) {
        var i :| 0 <= i < |flat| && flat[i].key == key;
        assert flat[i] in entries;
      }
      if key.0 == spec && last < key.1 <= last + |entries| {
        var e := entries[key.1 - last - 1];
        assert e in entries && e.key == key;
        assert Provides(Collect(flat), e);
      }
    }
  }

  lemma PermutedProvides<E, V>(entries: seq<Entry<E, V>>, flat: seq<Entry<E, V>>, spec: nat, last: nat)
    requires Consecutive(entries, spec, last) && multiset(flat) == multiset(entries)
    ensures |flat| == |entries| && ProvidesAll(Collect(flat), entries)
    ensures forall key :: key in Collect(flat) <==> key.0 == spec && last < key.1 <= last + |entries|
  {
    ConsecutiveUnique(entries, spec, last);
    PermutedUnique(entries, flat);
    CollectProvides(flat);
    CollectedKeys(flat, entries, spec, last);
    assert |flat| == |multiset(flat)| == |multiset(entries)|;
  }

  /** The closures emitted for an assertion with assigned ids have exactly the keys of its entries, and their code. */
  lemma EmittedAreProvided<E, V>(a: Assertion<(), E, V>, spec: nat, last: nat)
    ensures var r := Assign(a, spec, last);
            var closures := Collect(Flatten(Closures(r)));
            && |Flatten(Closures(r))| == Count(a)
            && ProvidesAll(closures, Entries(r))
            && forall key :: key in closures <==> key.0 == spec && last < key.1 <= last + Count(a)
  {
    var r := Assign(a, spec, last);
    IdsAreConsecutive(a, spec, last);
    EmitsEntries(r);
    PermutedProvides(Entries(r), Flatten(Closures(r)), spec, last);
  }

  // ----- the stored structure -----

  datatype Structure =
    | AtomKey(key: Key)
    | AndOf(conjuncts: seq<Structure>)
    | ImpliesOf(left: Structure, right: Structure)
    | QuantifiedOf(existential: bool, key: Key, count: nat, body: Structure, triggers: seq<seq<Key>>)
    | EntailmentOf(closure: Key, spec: nat, preId: nat, postId: nat, argCount: nat, pres: seq<Structure>,
                   posts: seq<Structure>)

  function TermKeys<E>(terms: seq<Term<nat, E>>): (r: seq<Key>)
    ensures |r| == |terms|
  {
    if terms == [] then [] else [(terms[0].spec, terms[0].id)] + TermKeys(terms[1..])
  }

  function TriggerKeys<E>(triggers: seq<seq<Term<nat, E>>>): (r: seq<seq<Key>>)
    ensures |r| == |triggers|
  {
    if triggers == [] then [] else [TermKeys(triggers[0])] + TriggerKeys(triggers[1..])
  }

  function ToStructure<E, V>(a: Assertion<nat, E, V>): Structure {
    match a
    case Atom(term) => AtomKey((term.spec, term.id))
    case And(cs) => AndOf(ToStructures(cs))
    case Implies(left, right) => ImpliesOf(ToStructure(left), ToStructure(right))
    case Quantified(ex, vars, triggers, body) =>
      QuantifiedOf(ex, (vars.spec, vars.id), |vars.vars|, ToStructure(body), TriggerKeys(triggers))
    case SpecEntailment(closure, binders, pres, posts) =>
      EntailmentOf((closure.spec, closure.id), binders.spec, binders.preId, binders.postId, |binders.args|,
                   ToStructures(pres), ToStructures(posts))
  }

  function ToStructures<E, V>(cs: seq<Assertion<nat, E, V>>): seq<Structure> {
    if cs == [] then [] else [ToStructure(cs[0])] + ToStructures(cs[1..])
  }

  // ----- the typed assertion -----

  type TypedAssertion<E, V> = Assertion<nat, Code<E, V>, V>

  function KeyToTyped<E, V>(key: Key, closures: map<Key, Code<E, V>>): Option<Term<nat, Code<E, V>>> {
    if key in closures then Some(Term(key.0, key.1, closures[key])) else None
  }

  function KeysToTyped<E, V>(keys: seq<Key>, closures: map<Key, Code<E, V>>): Option<seq<Term<nat, Code<E, V>>>> {
    if keys == [] then Some([])
    else
      match (KeyToTyped(keys[0], closures), KeysToTyped(keys[1..], closures))
      case (Some(first), Some(rest)) => Some([first] + rest)
      case _ => None
  }

  function TriggersToTyped<E, V>(triggers: seq<seq<Key>>, closures: map<Key, Code<E, V>>)
    : Option<seq<seq<Term<nat, Code<E, V>>>>>
  {
    if triggers == [] then Some([])
    else
      match (KeysToTyped(triggers[0], closures), TriggersToTyped(triggers[1..], closures))
      case (Some(first), Some(rest)) => Some([first] + rest)
      case _ => None
  }

  /** The parameters of a closure; none if it is missing or their number is not the stored one. */
  function ParamsToTyped<E, V>(key: Key, count: nat, closures: map<Key, Code<E, V>>): (r: Option<seq<V>>)
    ensures r.Some? ==> |r.value| == count
  {
    if key in closures && |closures[key].params| == count then Some(closures[key].params) else None
  }

  /** The assertion rebuilt from its structure; none if a closure is missing or an assertion on its arity fails. */
  function ToTyped<E, V>(s: Structure, closures: map<Key, Code<E, V>>): Option<TypedAssertion<E, V>> {
    match s
    case AtomKey(key) =>
      (match KeyToTyped(key, closures)
       case None => None
       case Some(term) => Some(Atom(term)))
    case AndOf(cs) =>
      (match ToTypedAll(cs, closures)
       case None => None
       case Some(conjuncts) => Some(And(conjuncts)))
    case ImpliesOf(left, right) =>
      (match (ToTyped(left, closures), ToTyped(right, closures))
       case (Some(l), Some(r)) => Some(Implies(l, r))
       case _ => None)
    case QuantifiedOf(ex, key, count, body, triggers) =>
      (match (ParamsToTyped(key, count, closures), TriggersToTyped(triggers, closures), ToTyped(body, closures))
       case (Some(vars), Some(ts), Some(inner)) => Some(Quantified(ex, Vars(key.0, key.1, vars), ts, inner))
       case _ => None)
    case EntailmentOf(closure, spec, preId, postId, argCount, pres, posts) =>
      (match (KeyToTyped(closure, closures),
              BindersToTyped(spec, preId, postId, argCount, closures),
              ToTypedAll(pres, closures), ToTypedAll(posts, closures))
       case (Some(c), Some(binders), Some(before), Some(after)) => Some(SpecEntailment(c, binders, before, after))
       case _ => None)
  }

  /** The result is the last parameter of the closure for the postconditions. */
  function BindersToTyped<E, V>(spec: nat, preId: nat, postId: nat, argCount: nat, closures: map<Key, Code<E, V>>)
    : Option<Binders<nat, V>>
  {
    match (ParamsToTyped((spec, preId), argCount, closures), ParamsToTyped((spec, postId), argCount + 1, closures))
    case (Some(args), Some(more)) => Some(Binders(spec, preId, postId, args, more[argCount]))
    case _ => None
  }

  function ToTypedAll<E, V>(cs: seq<Structure>, closures: map<Key, Code<E, V>>): Option<seq<TypedAssertion<E, V>>> {
    if cs == [] then Some([])
    else
      match (ToTyped(cs[0], closures), ToTypedAll(cs[1..], closures))
      case (Some(first), Some(rest)) => Some([first] + rest)
      case _ => None
  }

  // ----- the three representations line up -----

  function TypedTerms<E, V>(terms: seq<Term<nat, E>>): (r: seq<Term<nat, Code<E, V>>>)
    ensures |r| == |terms|
  {
    if terms == [] then []
    else [Term(terms[0].spec, terms[0].id, Code([], Some(terms[0].expr)))] + TypedTerms(terms[1..])
  }

  function TypedTriggers<E, V>(triggers: seq<seq<Term<nat, E>>>): seq<seq<Term<nat, Code<E, V>>>> {
    if triggers == [] then [] else [TypedTerms(triggers[0])] + TypedTriggers(triggers[1..])
  }

  /** The same tree with every expression replaced by the closure that consists of it. */
  function Typed<E, V>(a: Assertion<nat, E, V>): TypedAssertion<E, V> {
    match a
    case Atom(term) => Atom(Term(term.spec, term.id, Code([], Some(term.expr))))
    case And(cs) => And(TypedAll(cs))
    case Implies(left, right) => Implies(Typed(left), Typed(right))
    case Quantified(ex, vars, triggers, body) => Quantified(ex, vars, TypedTriggers(triggers), Typed(body))
    case SpecEntailment(closure, binders, pres, posts) =>
      SpecEntailment(Term(closure.spec, closure.id, Code([], Some(closure.expr))), binders,
                     TypedAll(pres), TypedAll(posts))
  }

  function TypedAll<E, V>(cs: seq<Assertion<nat, E, V>>): seq<TypedAssertion<E, V>> {
    if cs == [] then [] else [Typed(cs[0])] + TypedAll(cs[1..])
  }

  lemma ProvidesConcat<E, V>(closures: map<Key, Code<E, V>>, x: seq<Entry<E, V>>, y: seq<Entry<E, V>>)
    ensures ProvidesAll(closures, x + y) <==> ProvidesAll(closures, x) && ProvidesAll(closures, y)
  {
    if ProvidesAll(closures, x + y) {
      forall e | e in x || e in y
        ensures Provides(closures, e)
      {
        assert e in x + y;
      }
    }
  }

  lemma ProvidesOne<E, V>(closures: map<Key, Code<E, V>>, e: Entry<E, V>)
    ensures ProvidesAll(closures, [e]) <==> Provides(closures, e)
  {
    assert e in [e];
  }

  lemma {:induction false} TermsRebuilt<E, V>(terms: seq<Term<nat, E>>, closures: map<Key, Code<E, V>>)
    requires ProvidesAll(closures, TermEntries(terms))
    ensures KeysToTyped(TermKeys(terms), closures) == Some(TypedTerms(terms))
    decreases |terms|
  {
    if terms != [] {
      assert TermEntries<E, V>(terms) == [TermEntry(terms[0])] + TermEntries(terms[1..]);
      ProvidesConcat(closures, [TermEntry(terms[0])], TermEntries(terms[1..]));
      ProvidesOne(closures, TermEntry(terms[0]));
      TermsRebuilt(terms[1..], closures);
    }
  }

  lemma {:induction false} TriggersRebuilt<E, V>(triggers: seq<seq<Term<nat, E>>>, closures: map<Key, Code<E, V>>)
    requires ProvidesAll(closures, TriggerEntries(triggers))
    ensures TriggersToTyped(TriggerKeys(triggers), closures) == Some(TypedTriggers(triggers))
    decreases |triggers|
  {
    if triggers != [] {
      ProvidesConcat(closures, TermEntries(triggers[0]), TriggerEntries(triggers[1..]));
      TermsRebuilt(triggers[0], closures);
      TriggersRebuilt(triggers[1..], closures);
    }
  }

  lemma BindersRebuilt<E, V>(binders: Binders<nat, V>, closures: map<Key, Code<E, V>>)
    requires ProvidesAll(closures, BinderEntries(binders))
    ensures BindersToTyped(binders.spec, binders.preId, binders.postId, |binders.args|, closures) == Some(binders)
  {
    var entries := BinderEntries<E, V>(binders);
    assert entries[0] in entries && entries[1] in entries;
  }

  /** From closures that provide its entries, an assertion is rebuilt with its shape. */
  lemma {:induction false} Rebuilt<E, V>(a: Assertion<nat, E, V>, closures: map<Key, Code<E, V>>)
    requires ProvidesAll(closures, Entries(a))
    ensures ToTyped(ToStructure(a), closures) == Some(Typed(a))
    decreases a, 0
  {
    match a
    case Atom(term) => ProvidesOne(closures, TermEntry(term));
    case And(cs) => AllRebuilt(cs, closures);
    case Implies(left, right) =>
      ProvidesConcat(closures, Entries(left), Entries(right));
      Rebuilt(left, closures);
      Rebuilt(right, closures);
    case Quantified(_, vars, triggers, body) =>
      ProvidesConcat(closures, [VarsEntry(vars)] + TriggerEntries(triggers), Entries(body));
      ProvidesConcat(closures, [VarsEntry(vars)], TriggerEntries(triggers));
      ProvidesOne(closures, VarsEntry(vars));
      TriggersRebuilt(triggers, closures);
      Rebuilt(body, closures);
    case SpecEntailment(closure, binders, pres, posts) =>
      var first: seq<Entry<E, V>> := [TermEntry(closure)];
      ProvidesConcat(closures, first + BinderEntries(binders) + EntriesAll(pres), EntriesAll(posts));
      ProvidesConcat(closures, first + BinderEntries(binders), EntriesAll(pres));
      ProvidesConcat(closures, first, BinderEntries(binders));
      ProvidesOne(closures, TermEntry(closure));
      BindersRebuilt(binders, closures);
      AllRebuilt(pres, closures);
      AllRebuilt(posts, closures);
  }

  lemma {:induction false} AllRebuilt<E, V>(cs: seq<Assertion<nat, E, V>>, closures: map<Key, Code<E, V>>)
    requires ProvidesAll(closures, EntriesAll(cs))
    ensures ToTypedAll(ToStructures(cs), closures) == Some(TypedAll(cs))
    decreases cs, 1
  {
    if cs != [] {
      ProvidesConcat(closures, Entries(cs[0]), EntriesAll(cs[1..]));
      Rebuilt(cs[0], closures);
      AllRebuilt(cs[1..], closures);
    }
  }

  // ----- what is looked up -----

  /** A closure with the key exists, and has the stored number of parameters if it binds variables. */
  ghost predicate Fits<E, V>(closures: map<Key, Code<E, V>>, e: Entry<E, V>) {
    e.key in closures && (e.code.expr.None? ==> |closures[e.key].params| == |e.code.params|)
  }

  ghost predicate FitsAll<E, V>(closures: map<Key, Code<E, V>>, entries: seq<Entry<E, V>>) {
    forall e :: e in entries ==> Fits(closures, e)
  }

  lemma FitsConcat<E, V>(closures: map<Key, Code<E, V>>, x: seq<Entry<E, V>>, y: seq<Entry<E, V>>)
    ensures FitsAll(closures, x + y) <==> FitsAll(closures, x) && FitsAll(closures, y)
  {
    if FitsAll(closures, x + y) {
      forall e | e in x || e in y
        ensures Fits(closures, e)
      {
        assert e in x + y;
      }
    }
  }

  lemma FitsOne<E, V>(closures: map<Key, Code<E, V>>, e: Entry<E, V>)
    ensures FitsAll(closures, [e]) <==> Fits(closures, e)
  {
    assert e in [e];
  }

  lemma {:induction false} TermsLookedUp<E, V>(terms: seq<Term<nat, E>>, closures: map<Key, Code<E, V>>)
    ensures KeysToTyped(TermKeys(terms), closures).Some? <==> FitsAll(closures, TermEntries(terms))
    decreases |terms|
  {
    if terms != [] {
      assert TermEntries<E, V>(terms) == [TermEntry(terms[0])] + TermEntries(terms[1..]);
      FitsConcat(closures, [TermEntry(terms[0])], TermEntries(terms[1..]));
      FitsOne(closures, TermEntry(terms[0]));
      TermsLookedUp(terms[1..], closures);
    }
  }

  lemma {:induction false} TriggersLookedUp<E, V>(triggers: seq<seq<Term<nat, E>>>, closures: map<Key, Code<E, V>>)
    ensures TriggersToTyped(TriggerKeys(triggers), closures).Some? <==> FitsAll(closures, TriggerEntries(triggers))
    decreases |triggers|
  {
    if triggers != [] {
      FitsConcat(closures, TermEntries(triggers[0]), TriggerEntries(triggers[1..]));
      TermsLookedUp(triggers[0], closures);
      TriggersLookedUp(triggers[1..], closures);
    }
  }

  lemma BindersLookedUp<E, V>(binders: Binders<nat, V>, closures: map<Key, Code<E, V>>)
    ensures BindersToTyped(binders.spec, binders.preId, binders.postId, |binders.args|, closures).Some? <==>
            FitsAll(closures, BinderEntries(binders))
  {
    var entries := BinderEntries<E, V>(binders);
    assert entries == [entries[0]] + [entries[1]];
    FitsConcat(closures, [entries[0]], [entries[1]]);
    FitsOne(closures, entries[0]);
    FitsOne(closures, entries[1]);
  }

  /**
   Rebuilding succeeds exactly if every entry finds a closure that fits: no key is missed and
   none is asked for in vain.
   */
  lemma {:induction false} LookedUp<E, V>(a: Assertion<nat, E, V>, closures: map<Key, Code<E, V>>)
    ensures ToTyped(ToStructure(a), closures).Some? <==> FitsAll(closures, Entries(a))
    decreases a, 0
  {
    match a
    case Atom(term) => FitsOne(closures, TermEntry(term));
    case And(cs) => AllLookedUp(cs, closures);
    case Implies(left, right) =>
      FitsConcat(closures, Entries(left), Entries(right));
      LookedUp(left, closures);
      LookedUp(right, closures);
    case Quantified(_, vars, triggers, body) =>
      FitsConcat(closures, [VarsEntry(vars)] + TriggerEntries(triggers), Entries(body));
      FitsConcat(closures, [VarsEntry(vars)], TriggerEntries(triggers));
      FitsOne(closures, VarsEntry(vars));
      TriggersLookedUp(triggers, closures);
      LookedUp(body, closures);
    case SpecEntailment(closure, binders, pres, posts) =>
      AllLookedUp(pres, closures);
      AllLookedUp(posts, closures);
      EntailmentLookedUp(closure, binders, pres, posts, closures);
  }

  lemma EntailmentLookedUp<E, V>(closure: Term<nat, E>, binders: Binders<nat, V>, pres: seq<Assertion<nat, E, V>>,
                                 posts: seq<Assertion<nat, E, V>>, closures: map<Key, Code<E, V>>)
    requires ToTypedAll(ToStructures(pres), closures).Some? <==> FitsAll(closures, EntriesAll(pres))
    requires ToTypedAll(ToStructures(posts), closures).Some? <==> FitsAll(closures, EntriesAll(posts))
    ensures var a := SpecEntailment(closure, binders, pres, posts);
            ToTyped(ToStructure(a), closures).Some? <==> FitsAll(closures, Entries(a))
  {
    var first: seq<Entry<E, V>> := [TermEntry(closure)];
    FitsConcat(closures, first + BinderEntries(binders) + EntriesAll(pres), EntriesAll(posts));
    FitsConcat(closures, first + BinderEntries(binders), EntriesAll(pres));
    FitsConcat(closures, first, BinderEntries(binders));
    FitsOne(closures, TermEntry(closure));
    BindersLookedUp(binders, closures);
  }

  lemma {:induction false} AllLookedUp<E, V>(cs: seq<Assertion<nat, E, V>>, closures: map<Key, Code<E, V>>)
    ensures ToTypedAll(ToStructures(cs), closures).Some? <==> FitsAll(closures, EntriesAll(cs))
    decreases cs, 1
  {
    if cs != [] {
      FitsConcat(closures, Entries(cs[0]), EntriesAll(cs[1..]));
      LookedUp(cs[0], closures);
      AllLookedUp(cs[1..], closures);
    }
  }
}
