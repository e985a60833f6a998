/**
 Parse trees keep what assertions forget: parentheses, and the tokens that a quantifier ignores. Whatever
 tokens are parsed, there is a tree for the result that is spelled by exactly the tokens that were used.
 */
module ParseTrees {
  import opened Wrappers
  import opened Tokens
  import opened Preparser
  import opened PrintedAssertions
  import opened ParsePrinted

  /** A conjunction without parts stands for no tokens. */
  datatype Tree =
    | Rust(tokens: seq<Token>)
    | Paren(inner: Tree)
    | Conjunction(parts: seq<Tree>)
    | Implication(left: Tree, right: Tree)
    | Quantifier(existential: bool, vars: seq<Token>, body: Tree, end: QuantifierEnd)
    | Entailment(closure: seq<Token>, args: Option<seq<Token>>, conditions: seq<Condition>)

  datatype Condition = Condition(post: bool, assertion: Tree)

  datatype QuantifierEnd = Triggers(tokens: seq<Token>) | Ignored(tokens: seq<Token>)

  // ----- the tokens of a tree -----

  function Spell(tree: Tree): seq<Token>
    decreases tree, 0
  {
    match tree
    case Rust(tokens) => tokens
    case Paren(inner) => [Group(Parenthesis, Spell(inner))]
    case Conjunction(parts) => if parts == [] then [] else SpellParts(parts)
    case Implication(left, right) => Spell(left) + IMPLIES + Spell(right)
    case Quantifier(existential, vars, body, end) =>
      [Ident(if existential then "exists" else "forall"),
       Group(Parenthesis, BAR + vars + BAR + Spell(body) + SpellEnd(end))]
    case Entailment(closure, args, conditions) =>
      closure + ENTAILS + SpellArgs(args) + [Group(Bracket, SpellConditions(conditions))]
  }

  function SpellParts(parts: seq<Tree>): seq<Token>
    requires parts != []
    decreases parts, 1
  {
    if |parts| == 1 then Spell(parts[0]) else Spell(parts[0]) + AND + SpellParts(parts[1..])
  }

  function SpellEnd(end: QuantifierEnd): seq<Token> {
    match end
    case Triggers(tokens) => COMMA + [Ident("triggers"), Punct('=')] + tokens
    case Ignored(tokens) => tokens
  }

  function SpellArgs(args: Option<seq<Token>>): seq<Token> {
    match args
    case Some(vars) => BAR + vars + BAR
    case None => []
  }

  function SpellCondition(condition: Condition): seq<Token>
    decreases condition, 1
  {
    [Ident(if condition.post then "ensures" else "requires"), Group(Parenthesis, Spell(condition.assertion))]
  }

  function SpellConditions(conditions: seq<Condition>): seq<Token>
    decreases conditions, 2
  {
    if conditions == [] then []
    else if |conditions| == 1 then SpellCondition(conditions[0])
    else SpellCondition(conditions[0]) + COMMA + SpellConditions(conditions[1..])
  }

  // ----- the assertion of a tree -----

  function Meaning(tree: Tree): Assertion
    decreases tree, 0
  {
    match tree
    case Rust(tokens) => Expr(tokens)
    case Paren(inner) => Meaning(inner)
    case Conjunction(parts) => And(Meanings(parts))
    case Implication(left, right) => Implies(Meaning(left), Meaning(right))
    case Quantifier(existential, vars, body, end) =>
      var triggers := if end.Triggers? then end.tokens else [];
      if existential then Exists(vars, triggers, Meaning(body)) else ForAll(vars, triggers, Meaning(body))
    case Entailment(closure, args, conditions) =>
      var vars := if args.Some? then args.value else [];
      SpecEntailment(closure, vars, Chosen(conditions, false), Chosen(conditions, true))
  }

  function Meanings(parts: seq<Tree>): (r: seq<Assertion>)
    ensures |r| == |parts| && forall i :: 0 <= i < |r| ==> r[i] == Meaning(parts[i])
    decreases parts, 1
  {
    seq(|parts|, i requires 0 <= i < |parts| => Meaning(parts[i]))
  }

  function IfChosen(condition: Condition, post: bool): seq<Assertion>
    decreases condition, 1
  {
    if condition.post == post then [Meaning(condition.assertion)] else []
  }

  /** The preconditions, or the postconditions, in their order. */
  function Chosen(conditions: seq<Condition>, post: bool): seq<Assertion>
    decreases conditions, 2
  {
    if conditions == [] then [] else IfChosen(conditions[0], post) + Chosen(conditions[1..], post)
  }

  // ----- the trees of the grammar -----

  /** A Rust expression as the parser keeps it: accepted, without an implication anywhere in it. */
  ghost predicate IsRust(syntax: Syntax, ts: seq<Token>) {
    && ts != [] && syntax.isExpr(ts)
    && forall positions: seq<nat>, offset: nat :: !StartsInside(ts, "==>", positions, offset)
  }

  ghost predicate AreArgs(syntax: Syntax, vars: seq<Token>) {
    syntax.isArgs(vars) && Punct('|') !in vars
  }

  /** May these tokens come after a group of an assertion? After other tokens a group is part of an expression. */
  predicate AfterGroup(rest: seq<Token>) {
    rest == [] || Peek(rest, "|=") || Peek(rest, "&&") || Peek(rest, "==>")
  }

  predicate StartsUnit(ts: seq<Token>) {
    PeekKeyword(ts, "forall") || PeekKeyword(ts, "exists") || (PeekGroup(ts, Parenthesis) && AfterGroup(ts[1..]))
  }

  /** An expression is as long as possible: up to the first operator or comma, or the last token. */
  ghost predicate EndsHere(ts: seq<Token>, rest: seq<Token>) {
    (forall j: nat :: j < |ts| ==> NoOperator(ts + rest, j)) && (rest == [] || !NoOperator(rest, 0))
  }

  /** Can the tokens after an assertion not continue it? */
  predicate AfterAssertion(rest: seq<Token>) {
    !Peek(rest, "&&") && !Peek(rest, "==>")
  }

  predicate IsUnit(tree: Tree) {
    !tree.Conjunction? && !tree.Implication?
  }

  /**
   The trees of the grammar, in front of the tokens in `rest`. Implications associate to the right and bind weaker
   than conjunctions.
   */
  ghost predicate Fits(syntax: Syntax, tree: Tree, rest: seq<Token>)
    decreases tree, 0
  {
    match tree
    case Rust(tokens) =>
      IsRust(syntax, tokens) && !StartsUnit(tokens + rest) && EndsHere(tokens, rest) && !Peek(rest, "|=")
    case Paren(inner) => Whole(syntax, inner) && AfterGroup(rest)
    case Conjunction(parts) => |parts| > 1 && FitParts(syntax, parts, rest)
    case Implication(left, right) =>
      !left.Implication? && Fits(syntax, left, IMPLIES + (Spell(right) + rest)) && Fits(syntax, right, rest)
    case Quantifier(_, vars, body, end) =>
      && vars != [] && AreArgs(syntax, vars)
      && Fits(syntax, body, SpellEnd(end)) && AfterAssertion(SpellEnd(end))
      && if end.Triggers? then syntax.isTriggers(end.tokens) else !Peek(end.tokens, ",")
    case Entailment(closure, args, conditions) =>
      var tail := ENTAILS + (SpellArgs(args) + ([Group(Bracket, SpellConditions(conditions))] + rest));
      && IsRust(syntax, closure) && !StartsUnit(closure + tail) && EndsHere(closure, tail)
      && (args.Some? ==> AreArgs(syntax, args.value))
      && forall condition :: condition in conditions ==> Whole(syntax, condition.assertion)
  }

  ghost predicate FitParts(syntax: Syntax, parts: seq<Tree>, rest: seq<Token>)
    requires parts != []
    decreases parts, 1
  {
    && IsUnit(parts[0])
    && if |parts| == 1 then Fits(syntax, parts[0], rest)
       else Fits(syntax, parts[0], AND + (SpellParts(parts[1..]) + rest)) && FitParts(syntax, parts[1..], rest)
  }

  /** What may stand alone, in parentheses or as a condition: nothing, or a tree that is not ambiguous. */
  ghost predicate Whole(syntax: Syntax, tree: Tree)
    decreases tree, 1
  {
    tree == Conjunction([]) || (Fits(syntax, tree, []) && !Ambiguous(Spell(tree)))
  }

  // ----- every parse has a tree -----

  lemma {:induction false} NoBarBefore(ts: seq<Token>)
    ensures Punct('|') !in ts[..LengthUntil(ts, "|")]
  {
    if ts != [] && !Peek(ts, "|") {
      Spelled(ts, 0);
      NoBarBefore(ts[1..]);
      var n := LengthUntil(ts[1..], "|");
      assert ts[..n + 1] == [ts[0]] + ts[1..][..n];
    }
  }

  lemma RustParsed(syntax: Syntax, ts: seq<Token>)
    ensures var r := ParseRustUntil(syntax, ts, ",");
            r.Parsed? ==> IsRust(syntax, r.value) && ts == r.value + r.rest && EndsHere(r.value, r.rest)
  {
    var r := ParseRustUntil(syntax, ts, ",");
    if r.Parsed? {
      ContainsExactly(r.value, "==>");
      ExpressionEnds(ts);
      assert ts == r.value + r.rest;
      forall j: nat | j < |r.value|
        ensures NoOperator(ts, j)
      {
        LengthMeansNoOperator(ts, ExpressionLength(ts, ","), j);
      }
    }
  }

  /** Vars between bars. */
  lemma BarsParsed(ts: seq<Token>)
    requires Peek(ts, "|")
    ensures var n := LengthUntil(ts[1..], "|");
            var vars, rest := ts[1..][..n], ts[1..][n..];
            Punct('|') !in vars && (Peek(rest, "|") ==> ts == BAR + vars + BAR + rest[1..])
  {
    Spelled(ts, 0);
    NoBarBefore(ts[1..]);
    var rest := ts[1..][LengthUntil(ts[1..], "|")..];
    Spelled(rest, 0);
  }

  lemma ArgsParsed(syntax: Syntax, ts: seq<Token>) returns (args: Option<seq<Token>>)
    requires ParseEntailmentArgs(syntax, ts).Parsed?
    ensures var r := ParseEntailmentArgs(syntax, ts);
            && ts == SpellArgs(args) + r.rest && r.value == (if args.Some? then args.value else [])
            && (args.Some? ==> AreArgs(syntax, args.value))
  {
    if Peek(ts, "|") {
      BarsParsed(ts);
      args := Some(ParseEntailmentArgs(syntax, ts).value);
    } else {
      args := None;
    }
  }

  /** An assertion that is parsed has a tree for all of the tokens. */
  lemma {:induction false} ExtractedTree(syntax: Syntax, ts: seq<Token>) returns (tree: Tree)
    requires ExtractAssertion(syntax, ts).Parsed?
    ensures Whole(syntax, tree) && Spell(tree) == ts && Meaning(tree) == ExtractAssertion(syntax, ts).value
    decreases Size(ts), 5
  {
    if ts == [] {
      tree := Conjunction([]);
    } else {
      AmbiguousExactly(ts);
      tree := ParsedTree(syntax, ts);
      assert Spell(tree) == ts;
    }
  }

  /** What is parsed from the front has a tree for the tokens in front of those that are left. */
  lemma {:induction false} ParsedTree(syntax: Syntax, ts: seq<Token>) returns (tree: Tree)
    requires ParsePrusti(syntax, ts).Parsed?
    ensures var r := ParsePrusti(syntax, ts);
            Fits(syntax, tree, r.rest) && ts == Spell(tree) + r.rest && Meaning(tree) == r.value
    ensures AfterAssertion(ParsePrusti(syntax, ts).rest)
    decreases Size(ts), 4
  {
    tree := ConjunctionTree(syntax, ts);
    var rest := ParseConjunction(syntax, ts).rest;
    if Peek(rest, "==>") {
      AfterImplies(rest);
      var right := ParsedTree(syntax, rest[3..]);
      ImplicationSpelled(tree, right, ParsePrusti(syntax, rest[3..]).rest);
      tree := Implication(tree, right);
    }
  }

  lemma AfterImplies(ts: seq<Token>)
    requires Peek(ts, "==>")
    ensures ts == IMPLIES + ts[3..] && Size(ts[3..]) + 3 <= Size(ts)
  {
    Spelled(ts, 0);
    SizeFrom(ts, 3);
  }

  lemma ImplicationSpelled(left: Tree, right: Tree, last: seq<Token>)
    ensures Spell(left) + (IMPLIES + (Spell(right) + last)) == Spell(Implication(left, right)) + last
  {
  }

  lemma {:induction false} ConjunctionTree(syntax: Syntax, ts: seq<Token>) returns (tree: Tree)
    requires ParseConjunction(syntax, ts).Parsed?
    ensures var r := ParseConjunction(syntax, ts);
            && !tree.Implication? && Fits(syntax, tree, r.rest) && !Peek(r.rest, "&&")
            && ts == Spell(tree) + r.rest && Meaning(tree) == r.value
    decreases Size(ts), 3
  {
    var parts := ConjunctTrees(syntax, ts);
    assert |Meanings(parts)| == |parts|;
    tree := if |parts| == 1 then parts[0] else Conjunction(parts);
    assert |parts| == 1 ==> Meanings(parts)[0] == Meaning(tree);
    assert Spell(tree) == SpellParts(parts);
  }

  lemma OnePart(syntax: Syntax, unit: Tree, rest: seq<Token>)
    requires IsUnit(unit) && Fits(syntax, unit, rest)
    ensures SpellParts([unit]) == Spell(unit) && Meanings([unit]) == [Meaning(unit)]
    ensures FitParts(syntax, [unit], rest)
  {
  }

  lemma MoreParts(syntax: Syntax, unit: Tree, others: seq<Tree>, last: seq<Token>)
    requires others != [] && IsUnit(unit) && Fits(syntax, unit, AND + (SpellParts(others) + last))
    requires FitParts(syntax, others, last)
    ensures FitParts(syntax, [unit] + others, last)
    ensures Spell(unit) + (AND + (SpellParts(others) + last)) == SpellParts([unit] + others) + last
    ensures Meanings([unit] + others) == [Meaning(unit)] + Meanings(others)
  {
    assert ([unit] + others)[1..] == others;
    assert SpellParts([unit] + others) == Spell(unit) + AND + SpellParts(others);
  }

  lemma AfterAnd(ts: seq<Token>)
    requires Peek(ts, "&&")
    ensures ts == AND + ts[2..] && Size(ts[2..]) + 2 <= Size(ts)
  {
    Spelled(ts, 0);
    SizeFrom(ts, 2);
  }

  lemma {:induction false} ConjunctTrees(syntax: Syntax, ts: seq<Token>) returns (parts: seq<Tree>)
    requires ParseConjuncts(syntax, ts).Parsed?
    ensures var r := ParseConjuncts(syntax, ts);
            && parts != [] && FitParts(syntax, parts, r.rest) && !Peek(r.rest, "&&")
            && ts == SpellParts(parts) + r.rest && Meanings(parts) == r.value
    decreases Size(ts), 2
  {
    var unit := UnitTree(syntax, ts);
    var rest := ParseEntailment(syntax, ts).rest;
    if Peek(rest, "&&") {
      AfterAnd(rest);
      var others := ConjunctTrees(syntax, rest[2..]);
      MoreParts(syntax, unit, others, ParseConjuncts(syntax, rest[2..]).rest);
      parts := [unit] + others;
    } else {
      OnePart(syntax, unit, rest);
      parts := [unit];
    }
  }

  lemma {:induction false} UnitTree(syntax: Syntax, ts: seq<Token>) returns (tree: Tree)
    requires ParseEntailment(syntax, ts).Parsed?
    ensures var r := ParseEntailment(syntax, ts);
            IsUnit(tree) && Fits(syntax, tree, r.rest) && ts == Spell(tree) + r.rest && Meaning(tree) == r.value
    decreases Size(ts), 1
  {
    if (PeekGroup(ts, Parenthesis) && !IsPartOfRustExpr(ts)) || PeekKeyword(ts, "forall") || PeekKeyword(ts, "exists") {
      tree := PrimaryTree(syntax, ts);
    } else {
      RustParsed(syntax, ts);
      var closure := ParseRustUntil(syntax, ts, ",");
      if Peek(closure.rest, "|=") {
        AfterEntails(closure.rest);
        var last := ParseEntailmentArgs(syntax, closure.rest[2..]).rest;
        var args, conditions := EntailmentParts(syntax, closure.rest[2..]);
        tree := Entailment(closure.value, args, conditions);
        EntailmentSpelled(closure.value, args, last, conditions);
      } else {
        tree := Rust(closure.value);
      }
    }
  }

  lemma AfterEntails(ts: seq<Token>)
    requires Peek(ts, "|=")
    ensures ts == ENTAILS + ts[2..] && Size(ts[2..]) + 2 <= Size(ts)
  {
    Spelled(ts, 0);
    SizeFrom(ts, 2);
  }

  /** The arguments and conditions after `|=`. */
  lemma {:induction false} EntailmentParts(syntax: Syntax, ts: seq<Token>)
    returns (args: Option<seq<Token>>, conditions: seq<Condition>)
    requires var r := ParseEntailmentArgs(syntax, ts);
             && r.Parsed? && PeekGroup(r.rest, Bracket)
             && ExtractEntailmentRhs(syntax, r.rest[0].tokens, true, [], []).Parsed?
    ensures var r := ParseEntailmentArgs(syntax, ts);
            && ts == SpellArgs(args) + r.rest && r.value == (if args.Some? then args.value else [])
            && (args.Some? ==> AreArgs(syntax, args.value))
            && r.rest[0].tokens == SpellConditions(conditions)
            && ExtractEntailmentRhs(syntax, r.rest[0].tokens, true, [], []).value ==
               (Chosen(conditions, false), Chosen(conditions, true))
    ensures AllWhole(syntax, conditions)
    decreases Size(ts), 7
  {
    args := ArgsParsed(syntax, ts);
    var inner := ParseEntailmentArgs(syntax, ts).rest[0].tokens;
    conditions := ConditionTrees(syntax, inner, true, [], []);
    assert [] + Chosen(conditions, false) == Chosen(conditions, false);
    assert [] + Chosen(conditions, true) == Chosen(conditions, true);
  }

  lemma EntailmentSpelled(closure: seq<Token>, args: Option<seq<Token>>, last: seq<Token>, conditions: seq<Condition>)
    requires PeekGroup(last, Bracket)
    requires last[0].tokens == SpellConditions(conditions)
    ensures last == [Group(Bracket, SpellConditions(conditions))] + last[1..]
    ensures closure + (ENTAILS + (SpellArgs(args) + last)) == Spell(Entailment(closure, args, conditions)) + last[1..]
  {
    assert Spell(Entailment(closure, args, conditions)) == closure + ENTAILS + SpellArgs(args) + [last[0]];
  }

  lemma {:induction false} PrimaryTree(syntax: Syntax, ts: seq<Token>) returns (tree: Tree)
    requires StartsUnit(ts) && ParsePrimary(syntax, ts).Parsed?
    ensures var r := ParsePrimary(syntax, ts);
            IsUnit(tree) && Fits(syntax, tree, r.rest) && ts == Spell(tree) + r.rest && Meaning(tree) == r.value
    decreases Size(ts), 0
  {
    if PeekGroup(ts, Parenthesis) {
      var inner := ExtractedTree(syntax, ts[0].tokens);
      tree := Paren(inner);
    } else {
      SizeFrom(ts, 1);
      SizeFrom(ts, 2);
      tree := QuantifierTree(syntax, ts[1].tokens, ts[0] == Ident("exists"));
      assert ts == [ts[0], ts[1]] + ts[2..];
    }
  }

  lemma {:induction false} QuantifierTree(syntax: Syntax, ts: seq<Token>, existential: bool) returns (tree: Tree)
    requires ExtractQuantifierRhs(syntax, ts, existential).Parsed?
    ensures tree.Quantifier? && tree.existential == existential && forall rest: seq<Token> :: Fits(syntax, tree, rest)
    ensures Meaning(tree) == ExtractQuantifierRhs(syntax, ts, existential).value
    ensures ts == BAR + tree.vars + BAR + Spell(tree.body) + SpellEnd(tree.end)
    decreases Size(ts), 5
  {
    BarsParsed(ts);
    SizeFrom(ts, 1);
    var n := LengthUntil(ts[1..], "|");
    SizeFrom(ts[1..], n);
    var vars, bar := ts[1..][..n], ts[1..][n..];
    SizeFrom(bar, 1);
    var body := ParsedTree(syntax, bar[1..]);
    var rest := ParsePrusti(syntax, bar[1..]).rest;
    var end := EndParsed(syntax, rest);
    tree := Quantifier(existential, vars, body, end);
  }

  lemma EndParsed(syntax: Syntax, ts: seq<Token>) returns (end: QuantifierEnd)
    requires ParseTriggers(syntax, ts).Parsed?
    ensures ts == SpellEnd(end) && ParseTriggers(syntax, ts).value == (if end.Triggers? then end.tokens else [])
    ensures if end.Triggers? then syntax.isTriggers(end.tokens) else !Peek(end.tokens, ",")
  {
    if Peek(ts, ",") {
      Spelled(ts, 0);
      Spelled(ts[2..], 0);
      end := Triggers(ts[3..]);
    } else {
      end := Ignored(ts);
    }
  }

  ghost predicate AllWhole(syntax: Syntax, conditions: seq<Condition>) {
    forall condition :: condition in conditions ==> Whole(syntax, condition.assertion)
  }

  lemma MoreConditions(condition: Condition, others: seq<Condition>)
    ensures SpellConditions([condition] + others) ==
            SpellCondition(condition) + if others == [] then [] else COMMA + SpellConditions(others)
  {
    assert ([condition] + others)[1..] == others;
  }

  lemma MoreChosen(condition: Condition, others: seq<Condition>, found: seq<Assertion>, post: bool)
    ensures found + IfChosen(condition, post) ==
            if condition.post == post then found + [Meaning(condition.assertion)] else found
    ensures found + IfChosen(condition, post) + Chosen(others, post) == found + Chosen([condition] + others, post)
  {
    assert ([condition] + others)[1..] == others;
  }

  /** The first of the conditions that are parsed, with its keyword. */
  lemma {:induction false} ConditionTree(syntax: Syntax, ts: seq<Token>) returns (condition: Condition)
    requires PeekKeyword(ts, "requires") || PeekKeyword(ts, "ensures")
    requires PeekGroup(ts[1..], Parenthesis) && ExtractAssertion(syntax, ts[1].tokens).Parsed?
    ensures condition.post == PeekKeyword(ts, "ensures") && Whole(syntax, condition.assertion)
    ensures Meaning(condition.assertion) == ExtractAssertion(syntax, ts[1].tokens).value
    ensures ts == SpellCondition(condition) + ts[2..] && Size(ts[2..]) + 2 <= Size(ts)
    decreases Size(ts), 5
  {
    SizeFrom(ts, 1);
    SizeFrom(ts, 2);
    var tree := ExtractedTree(syntax, ts[1].tokens);
    condition := Condition(PeekKeyword(ts, "ensures"), tree);
    assert ts == [ts[0], ts[1]] + ts[2..];
  }

  lemma {:induction false} ConditionTrees(syntax: Syntax, ts: seq<Token>, first: bool, pres: seq<Assertion>,
                                          posts: seq<Assertion>) returns (conditions: seq<Condition>)
    requires ExtractEntailmentRhs(syntax, ts, first, pres, posts).Parsed?
    ensures AllWhole(syntax, conditions)
    ensures ts == (if first || conditions == [] then [] else COMMA) + SpellConditions(conditions)
    ensures ExtractEntailmentRhs(syntax, ts, first, pres, posts).value ==
            (pres + Chosen(conditions, false), posts + Chosen(conditions, true))
    decreases Size(ts), 6
  {
    conditions := [];
    if ts == [] {
      assert pres + [] == pres && posts + [] == posts;
    } else {
      var next := AfterComma(syntax, ts, first, pres, posts);
      var condition := ConditionTree(syntax, next);
      var before, after := pres + IfChosen(condition, false), posts + IfChosen(condition, true);
      MoreChosen(condition, [], pres, false);
      MoreChosen(condition, [], posts, true);
      var others := ConditionTrees(syntax, next[2..], false, before, after);
      MoreConditions(condition, others);
      MoreChosen(condition, others, pres, false);
      MoreChosen(condition, others, posts, true);
      conditions := [condition] + others;
    }
  }

  /** The tokens of the next condition; a comma is in front of each but the first. */
  lemma AfterComma(syntax: Syntax, ts: seq<Token>, first: bool, pres: seq<Assertion>, posts: seq<Assertion>)
    returns (next: seq<Token>)
    requires ts != [] && ExtractEntailmentRhs(syntax, ts, first, pres, posts).Parsed?
    ensures ts == (if first then [] else COMMA) + next && Size(next) <= Size(ts)
    ensures PeekKeyword(next, "requires") || PeekKeyword(next, "ensures")
    ensures PeekGroup(next[1..], Parenthesis) && ExtractAssertion(syntax, next[1].tokens).Parsed?
    ensures var a := ExtractAssertion(syntax, next[1].tokens).value;
            ExtractEntailmentRhs(syntax, ts, first, pres, posts) ==
            if PeekKeyword(next, "ensures") then ExtractEntailmentRhs(syntax, next[2..], false, pres, posts + [a])
            else ExtractEntailmentRhs(syntax, next[2..], false, pres + [a], posts)
  {
    Spelled(ts, 0);
    SizeFrom(ts, 1);
    next := if first then ts else ts[1..];
  }
}
