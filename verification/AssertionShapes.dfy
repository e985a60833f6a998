/** From a parsed assertion through ids, closures and the stored structure back to the same tree. */
module AssertionShapes {
  import opened Wrappers
  import opened AssertionIds
  import opened TypedAssertions

  /** The tree without ids, and with expressions replaced by what `f` says about them. */
  function Shape<I, X, Y, V>(a: Assertion<I, X, V>, f: X -> Y): Assertion<(), Y, V> {
    match a
    case Atom(term) => Atom(Term(0, (), f(term.expr)))
    case And(cs) => And(ShapeAll(cs, f))
    case Implies(left, right) => Implies(Shape(left, f), Shape(right, f))
    case Quantified(ex, vars, triggers, body) =>
      Quantified(ex, Vars(0, (), vars.vars), ShapeTriggers(triggers, f), Shape(body, f))
    case SpecEntailment(closure, binders, pres, posts) =>
      SpecEntailment(Term(0, (), f(closure.expr)), Binders(0, (), (), binders.args, binders.res),
                     ShapeAll(pres, f), ShapeAll(posts, f))
  }

  function ShapeAll<I, X, Y, V>(cs: seq<Assertion<I, X, V>>, f: X -> Y): seq<Assertion<(), Y, V>> {
    if cs == [] then [] else [Shape(cs[0], f)] + ShapeAll(cs[1..], f)
  }

  function ShapeTriggers<I, X, Y>(triggers: seq<seq<Term<I, X>>>, f: X -> Y): seq<seq<Term<(), Y>>> {
    if triggers == [] then [] else [ShapeTerms(triggers[0], f)] + ShapeTriggers(triggers[1..], f)
  }

  function ShapeTerms<I, X, Y>(terms: seq<Term<I, X>>, f: X -> Y): seq<Term<(), Y>> {
    if terms == [] then [] else [Term(0, (), f(terms[0].expr))] + ShapeTerms(terms[1..], f)
  }

  /** The expression of a closure. */
  function ExprOf<E, V>(code: Code<E, V>): Option<E> {
    code.expr
  }

  function Present<E>(e: E): Option<E> {
    Some(e)
  }

  lemma {:induction false} TermsKept<E, V>(terms: seq<Term<(), E>>, spec: nat, last: nat)
    ensures ShapeTerms(TypedTerms<E, V>(AssignTerms(terms, spec, last)), ExprOf) == ShapeTerms(terms, Present)
    decreases |terms|
  {
    if terms != [] {
      TermsKept<E, V>(terms[1..], spec, last + 1);
    }
  }

  lemma {:induction false} TriggersKept<E, V>(triggers: seq<seq<Term<(), E>>>, spec: nat, last: nat)
    ensures ShapeTriggers(TypedTriggers<E, V>(AssignTriggers(triggers, spec, last)), ExprOf)
            == ShapeTriggers(triggers, Present)
    decreases |triggers|
  {
    if triggers != [] {
      TermsKept<E, V>(triggers[0], spec, last);
      TriggersKept<E, V>(triggers[1..], spec, last + |triggers[0]|);
    }
  }

  lemma {:induction false} ShapeKept<E, V>(a: Assertion<(), E, V>, spec: nat, last: nat)
    ensures Shape(Typed(Assign(a, spec, last)), ExprOf) == Shape(a, Present)
    decreases a, 0
  {
    match a
    case Atom(_) =>
    case And(cs) => ShapesKept(cs, spec, last);
    case Implies(left, right) =>
      ShapeKept(left, spec, last);
      ShapeKept(right, spec, last + Count(left));
    case Quantified(ex, vars, triggers, body) =>
      ShapeKept(body, spec, last + 1 + CountTriggers(triggers));
      QuantifiedKept(ex, vars, triggers, body, spec, last);
    case SpecEntailment(closure, binders, pres, posts) =>
      ShapesKept(pres, spec, last + 3);
      ShapesKept(posts, spec, last + 3 + CountAll(pres));
      EntailmentKept(closure, binders, pres, posts, spec, last);
  }

  lemma QuantifiedKept<E, V>(ex: bool, vars: Vars<(), V>, triggers: seq<seq<Term<(), E>>>, body: Assertion<(), E, V>,
                             spec: nat, last: nat)
    requires Shape(Typed(Assign(body, spec, last + 1 + CountTriggers(triggers))), ExprOf) == Shape(body, Present)
    ensures var a := Quantified(ex, vars, triggers, body);
            Shape(Typed(Assign(a, spec, last)), ExprOf) == Shape(a, Present)
  {
    TriggersKept<E, V>(triggers, spec, last + 1);
  }

  lemma EntailmentKept<E, V>(closure: Term<(), E>, binders: Binders<(), V>, pres: seq<Assertion<(), E, V>>,
                             posts: seq<Assertion<(), E, V>>, spec: nat, last: nat)
    requires ShapeAll(TypedAll(AssignAll(pres, spec, last + 3)), ExprOf) == ShapeAll(pres, Present)
    requires ShapeAll(TypedAll(AssignAll(posts, spec, last + 3 + CountAll(pres))), ExprOf) == ShapeAll(posts, Present)
    ensures var a := SpecEntailment(closure, binders, pres, posts);
            Shape(Typed(Assign(a, spec, last)), ExprOf) == Shape(a, Present)
  {
  }

  lemma {:induction false} ShapesKept<E, V>(cs: seq<Assertion<(), E, V>>, spec: nat, last: nat)
    ensures ShapeAll(TypedAll(AssignAll(cs, spec, last)), ExprOf) == ShapeAll(cs, Present)
    decreases cs, 1
  {
    if cs != [] {
      ShapeKept(cs[0], spec, last);
      ShapesKept(cs[1..], spec, last + Count(cs[0]));
    }
  }

  /**
   Assign ids, emit closures and store the structure: what is rebuilt from closures and structure is the
   parsed assertion again, each expression being the closure that consists of it.
   */
  lemma RepresentationsLineUp<E, V>(a: Assertion<(), E, V>, spec: nat, last: nat)
    ensures var r := Assign(a, spec, last);
            var rebuilt := ToTyped(ToStructure(r), Collect(Flatten(Closures(r))));
            rebuilt.Some? && Shape(rebuilt.value, ExprOf) == Shape(a, Present)
  {
    var r := Assign(a, spec, last);
    EmittedAreProvided(a, spec, last);
    Rebuilt(r, Collect(Flatten(Closures(r))));
    ShapeKept(a, spec, last);
  }
}
