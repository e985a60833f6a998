/** The parser accepts exactly the trees of the grammar: every tree parses to its assertion, and nothing else does. */
module GrammarTheorems {
  import opened Wrappers
  import opened Tokens
  import opened Preparser
  import opened PrintedAssertions
  import opened ParsePrinted
  import opened ParseTrees

  // ----- Rust expressions -----

  lemma RustTaken(syntax: Syntax, ts: seq<Token>, rest: seq<Token>)
    requires IsRust(syntax, ts) && EndsHere(ts, rest)
    ensures ParseRustUntil(syntax, ts + rest, ",") == Parsed(ts, rest)
  {
    var all := ts + rest;
    assert all[|ts|..] == rest && all[..|ts|] == ts && all[0..] == all;
    LengthIs(all, |ts|, 0);
    ContainsExactly(ts, "==>");
  }

  // ----- groups, quantifiers and conditions -----

  lemma EndTaken(syntax: Syntax, end: QuantifierEnd)
    requires if end.Triggers? then syntax.isTriggers(end.tokens) else !Peek(end.tokens, ",")
    ensures ParseTriggers(syntax, SpellEnd(end)) ==
            if end.Triggers? then Parsed(end.tokens, []) else Parsed([], end.tokens)
  {
    if end.Triggers? {
      var ts := SpellEnd(end);
      assert ts[1..][0] == Ident("triggers") && ts[3..] == end.tokens;
      PeekFrom(ts, "=", 2);
      Spelled(ts, 0);
      Spelled(ts, 2);
    }
  }

  lemma ArgsTaken(syntax: Syntax, args: Option<seq<Token>>, rest: seq<Token>)
    requires (args.Some? ==> AreArgs(syntax, args.value)) && PeekGroup(rest, Bracket)
    ensures ParseEntailmentArgs(syntax, SpellArgs(args) + rest) ==
            Parsed(if args.Some? then args.value else [], rest)
  {
    if args.Some? {
      var ts := VarsTaken(args.value, rest);
    } else {
      assert SpellArgs(args) + rest == rest;
      Spelled(rest, 0);
    }
  }

  /** A quantifier is taken with its group, whatever the body leaves in there. */
  lemma QuantifierStep(syntax: Syntax, existential: bool, inner: seq<Token>, a: Assertion, last: seq<Token>,
                       rest: seq<Token>)
    requires ExtractQuantifierRhs(syntax, inner, existential) == Parsed(a, last)
    ensures var keyword := if existential then "exists" else "forall";
            ParseEntailment(syntax, [Ident(keyword), Group(Parenthesis, inner)] + rest) == Parsed(a, rest)
  {
    var ts := [Ident(if existential then "exists" else "forall"), Group(Parenthesis, inner)] + rest;
    assert ts[1..] == [Group(Parenthesis, inner)] + rest && ts[2..] == rest;
  }

  lemma EntailmentStep(syntax: Syntax, closure: seq<Token>, args: seq<Token>, vars: seq<Token>, last: seq<Token>,
                       pres: seq<Assertion>, posts: seq<Assertion>)
    requires IsRust(syntax, closure) && EndsHere(closure, ENTAILS + args) && !StartsUnit(closure + (ENTAILS + args))
    requires ParseEntailmentArgs(syntax, args) == Parsed(vars, last) && PeekGroup(last, Bracket)
    requires ExtractEntailmentRhs(syntax, last[0].tokens, true, [], []) == Parsed((pres, posts), [])
    ensures ParseEntailment(syntax, closure + (ENTAILS + args)) ==
            Parsed(SpecEntailment(closure, vars, pres, posts), last[1..])
  {
    RustTaken(syntax, closure, ENTAILS + args);
    Spelled(ENTAILS + args, 0);
    assert (ENTAILS + args)[2..] == args;
  }

  lemma ConditionStep(syntax: Syntax, post: bool, inner: seq<Token>, a: Assertion, rest: seq<Token>, first: bool,
                      pres: seq<Assertion>, posts: seq<Assertion>)
    requires ExtractAssertion(syntax, inner) == Parsed(a, [])
    ensures var next := [Ident(if post then "ensures" else "requires"), Group(Parenthesis, inner)] + rest;
            ExtractEntailmentRhs(syntax, if first then next else COMMA + next, first, pres, posts) ==
            if post then ExtractEntailmentRhs(syntax, rest, false, pres, posts + [a])
            else ExtractEntailmentRhs(syntax, rest, false, pres + [a], posts)
  {
    var next := [Ident(if post then "ensures" else "requires"), Group(Parenthesis, inner)] + rest;
    assert next[1..] == [Group(Parenthesis, inner)] + rest && next[2..] == rest;
    if !first {
      Spelled(COMMA + next, 0);
      assert (COMMA + next)[1..] == next;
    }
  }

  // ----- every tree is parsed -----

  /** A whole tree parses to its assertion. */
  lemma {:induction false} WholeParses(syntax: Syntax, tree: Tree)
    requires Whole(syntax, tree)
    ensures ExtractAssertion(syntax, Spell(tree)) == Parsed(Meaning(tree), [])
    decreases tree, 6
  {
    if tree != Conjunction([]) {
      AmbiguousExactly(Spell(tree));
      TreeParses(syntax, tree, []);
      assert Spell(tree) + [] == Spell(tree);
    }
  }

  /** A tree of the grammar is taken from in front of tokens that do not continue it. */
  lemma {:induction false} TreeParses(syntax: Syntax, tree: Tree, rest: seq<Token>)
    requires Fits(syntax, tree, rest) && AfterAssertion(rest)
    ensures ParsePrusti(syntax, Spell(tree) + rest) == Parsed(Meaning(tree), rest)
    decreases tree, 5
  {
    if tree.Implication? {
      var tail := Spell(tree.right) + rest;
      ImpliesIsNoAnd(tail);
      ConjunctionParses(syntax, tree.left, IMPLIES + tail);
      TreeParses(syntax, tree.right, rest);
      ImplicationSpelled(tree.left, tree.right, rest);
      ImplicationParses(syntax, Spell(tree.left) + (IMPLIES + tail), Meaning(tree.left), tail, Meaning(tree.right),
                        rest);
    } else {
      ConjunctionParses(syntax, tree, rest);
    }
  }

  lemma {:induction false} ConjunctionParses(syntax: Syntax, tree: Tree, rest: seq<Token>)
    requires Fits(syntax, tree, rest) && !tree.Implication? && !Peek(rest, "&&")
    ensures ParseConjunction(syntax, Spell(tree) + rest) == Parsed(Meaning(tree), rest)
    decreases tree, 4
  {
    if tree.Conjunction? {
      PartsParse(syntax, tree.parts, rest);
      assert Spell(tree) == SpellParts(tree.parts);
    } else {
      UnitParses(syntax, tree, rest);
      LastConjunctParses(syntax, Spell(tree) + rest, Meaning(tree), rest);
    }
  }

  lemma {:induction false} PartsParse(syntax: Syntax, parts: seq<Tree>, rest: seq<Token>)
    requires parts != [] && FitParts(syntax, parts, rest) && !Peek(rest, "&&")
    ensures ParseConjuncts(syntax, SpellParts(parts) + rest) == Parsed(Meanings(parts), rest)
    decreases parts, 3
  {
    var unit := parts[0];
    if |parts| == 1 {
      UnitParses(syntax, unit, rest);
      LastConjunctParses(syntax, Spell(unit) + rest, Meaning(unit), rest);
      assert Meanings(parts) == [Meaning(unit)];
    } else {
      var tail := SpellParts(parts[1..]) + rest;
      UnitParses(syntax, unit, AND + tail);
      PartsParse(syntax, parts[1..], rest);
      FirstConjunctParses(syntax, Spell(unit) + (AND + tail), Meaning(unit), tail, Meanings(parts[1..]), rest);
      assert parts == [unit] + parts[1..];
      MoreParts(syntax, unit, parts[1..], rest);
    }
  }

  lemma {:induction false} UnitParses(syntax: Syntax, tree: Tree, rest: seq<Token>)
    requires Fits(syntax, tree, rest) && IsUnit(tree)
    ensures ParseEntailment(syntax, Spell(tree) + rest) == Parsed(Meaning(tree), rest)
    decreases tree, 2
  {
    match tree
    case Rust(tokens) =>
      RustTaken(syntax, tokens, rest);
    case Paren(inner) =>
      WholeParses(syntax, inner);
      assert (Spell(tree) + rest)[1..] == rest;
    case Quantifier(_, _, _, _) =>
      QuantifierTaken(syntax, tree, rest);
    case Entailment(_, _, _) =>
      EntailmentTaken(syntax, tree, rest);
  }

  lemma {:induction false} QuantifierTaken(syntax: Syntax, tree: Tree, rest: seq<Token>)
    requires tree.Quantifier? && Fits(syntax, tree, rest)
    ensures ParseEntailment(syntax, Spell(tree) + rest) == Parsed(Meaning(tree), rest)
    decreases tree, 1
  {
    var after := SpellEnd(tree.end);
    TreeParses(syntax, tree.body, after);
    EndTaken(syntax, tree.end);
    var triggers := ParseTriggers(syntax, after);
    QuantifiedParses(syntax, tree.vars, Spell(tree.body) + after, Meaning(tree.body), after, triggers.value,
                     triggers.rest, tree.existential);
    var inner := BAR + tree.vars + BAR + (Spell(tree.body) + after);
    assert inner == BAR + tree.vars + BAR + Spell(tree.body) + after;
    QuantifierStep(syntax, tree.existential, inner, Meaning(tree), triggers.rest, rest);
  }

  lemma {:induction false} EntailmentTaken(syntax: Syntax, tree: Tree, rest: seq<Token>)
    requires tree.Entailment? && Fits(syntax, tree, rest)
    ensures ParseEntailment(syntax, Spell(tree) + rest) == Parsed(Meaning(tree), rest)
    decreases tree, 1
  {
    var last := [Group(Bracket, SpellConditions(tree.conditions))] + rest;
    ArgsTaken(syntax, tree.args, last);
    ConditionsTaken(syntax, tree.conditions, true, [], []);
    EntailmentSpelled(tree.closure, tree.args, last, tree.conditions);
    var pres, posts := Chosen(tree.conditions, false), Chosen(tree.conditions, true);
    assert [] + pres == pres && [] + posts == posts;
    assert [] + SpellConditions(tree.conditions) == last[0].tokens;
    EntailmentStep(syntax, tree.closure, SpellArgs(tree.args) + last, if tree.args.Some? then tree.args.value else [],
                   last, pres, posts);
  }

  lemma {:induction false} ConditionTaken(syntax: Syntax, condition: Condition, rest: seq<Token>, first: bool,
                                          pres: seq<Assertion>, posts: seq<Assertion>)
    requires Whole(syntax, condition.assertion)
    ensures var next := SpellCondition(condition) + rest;
            ExtractEntailmentRhs(syntax, if first then next else COMMA + next, first, pres, posts) ==
            ExtractEntailmentRhs(syntax, rest, false, pres + IfChosen(condition, false),
                                 posts + IfChosen(condition, true))
    decreases condition, 7
  {
    WholeParses(syntax, condition.assertion);
    ConditionStep(syntax, condition.post, Spell(condition.assertion), Meaning(condition.assertion), rest, first, pres,
                  posts);
    MoreChosen(condition, [], pres, false);
    MoreChosen(condition, [], posts, true);
  }

  lemma {:induction false} ConditionsTaken(syntax: Syntax, conditions: seq<Condition>, first: bool,
                                           pres: seq<Assertion>, posts: seq<Assertion>)
    requires AllWhole(syntax, conditions)
    ensures var comma := if first || conditions == [] then [] else COMMA;
            ExtractEntailmentRhs(syntax, comma + SpellConditions(conditions), first, pres, posts) ==
            Parsed((pres + Chosen(conditions, false), posts + Chosen(conditions, true)), [])
    decreases conditions, 8
  {
    if conditions == [] {
      assert pres + [] == pres && posts + [] == posts;
    } else {
      var condition, others := conditions[0], conditions[1..];
      assert conditions == [condition] + others;
      var rest := (if others == [] then [] else COMMA) + SpellConditions(others);
      ConditionTaken(syntax, condition, rest, first, pres, posts);
      assert (if first then [] else COMMA) + (SpellCondition(condition) + rest) ==
             if first then SpellCondition(condition) + rest else COMMA + (SpellCondition(condition) + rest);
      ConditionsTaken(syntax, others, false, pres + IfChosen(condition, false), posts + IfChosen(condition, true));
      MoreConditions(condition, others);
      MoreChosen(condition, others, pres, false);
      MoreChosen(condition, others, posts, true);
    }
  }

  // ----- the parser and the grammar -----

  ghost predicate IsTreeOf(syntax: Syntax, tree: Tree, ts: seq<Token>, a: Assertion) {
    Whole(syntax, tree) && Spell(tree) == ts && Meaning(tree) == a
  }

  /** The parser accepts exactly the tokens of trees of the grammar, and returns the assertion of the tree. */
  lemma AcceptsExactly(syntax: Syntax, ts: seq<Token>, a: Assertion)
    ensures ExtractAssertion(syntax, ts) == Parsed(a, []) <==> exists tree :: IsTreeOf(syntax, tree, ts, a)
  {
    if ExtractAssertion(syntax, ts) == Parsed(a, []) {
      var tree := ExtractedTree(syntax, ts);
      assert IsTreeOf(syntax, tree, ts, a);
    }
    if tree :| IsTreeOf(syntax, tree, ts, a) {
      WholeParses(syntax, tree);
    }
  }
}
