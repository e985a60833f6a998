/** Parsing what was printed gives back the same assertion and uses all tokens. */
module ParsePrinted {
  import opened Sequences
  import opened Tokens
  import opened Preparser
  import opened PrintedAssertions

  // ----- atoms -----

  lemma PeekFrom(ts: seq<Token>, operator: string, j: nat)
    requires j <= |ts|
    ensures Peek(ts[j..], operator) == PeekAt(ts, operator, j)
  {
    if Peek(ts[j..], operator) {
      forall i | 0 <= i < |operator|
        ensures ts[j + i] == Punct(operator[i])
      {
        assert ts[j..][0 + i] == ts[j + i];
      }
    }
    if PeekAt(ts, operator, j) {
      forall i | 0 <= i < |operator|
        ensures ts[j..][0 + i] == Punct(operator[i])
      {
        assert ts[j..][0 + i] == ts[j + i];
      }
    }
  }

  /** What may come after a conjunct: nothing, an operator, or a comma. */
  ghost predicate Follows(k: seq<Token>) {
    k == [] || Peek(k, "&&") || Peek(k, "==>") || Peek(k, ",")
  }

  lemma StopsHead(k: seq<Token>)
    requires (Follows(k) || Peek(k, "|=")) && k != []
    ensures || k[0] == Punct('&') || k[0] == Punct(',') || k[0] == Punct('|')
            || (k[0] == Punct('=') && |k| > 1 && k[1] == Punct('='))
  {
    Spelled(k, 0);
  }

  /** No operator starts within an atom, even one that would end in the tokens after it. */
  lemma NoOperatorAcross(ts: seq<Token>, k: seq<Token>, j: nat)
    requires j < |ts| && (Follows(k) || Peek(k, "|="))
    requires NoOperator(ts, j)
    requires k != [] ==> ts[|ts| - 1] != Punct('&') && ts[|ts| - 1] != Punct('|')
    ensures NoOperator(ts + k, j)
  {
    var all := ts + k;
    if k != [] {
      StopsHead(k);
    }
    assert all[j] == ts[j];
    assert j + 1 < |all| ==> all[j + 1] == if j + 1 < |ts| then ts[j + 1] else k[0];
    Spelled(all, j);
    Spelled(ts, j);
  }

  lemma {:induction false} LengthIs(ts: seq<Token>, n: nat, from: nat)
    requires from <= n <= |ts|
    requires forall j: nat :: from <= j < n ==> NoOperator(ts, j)
    requires EndsExpression(ts[n..], ",")
    ensures ExpressionLength(ts[from..], ",") == n - from
    decreases n - from
  {
    if from < n {
      assert NoOperator(ts, from);
      PeekFrom(ts, "|=", from);
      PeekFrom(ts, "&&", from);
      PeekFrom(ts, "==>", from);
      PeekFrom(ts, ",", from);
      assert ts[from..][1..] == ts[from + 1..];
      LengthIs(ts, n, from + 1);
    }
  }

  /** The Rust expression of an atom ends where the atom does. */
  lemma AtomLength(syntax: Syntax, ts: seq<Token>, k: seq<Token>)
    requires AtomOk(syntax, ts) && (Follows(k) || Peek(k, "|="))
    requires k != [] ==> ts[|ts| - 1] != Punct('&') && ts[|ts| - 1] != Punct('|')
    ensures ExpressionLength(ts + k, ",") == |ts| && (ts + k)[..|ts|] == ts && (ts + k)[|ts|..] == k
    ensures PeekGroup(ts + k, Parenthesis) ==> IsPartOfRustExpr(ts + k)
  {
    var all := ts + k;
    forall j: nat | j < |ts|
      ensures NoOperator(all, j)
    {
      NoOperatorAcross(ts, k, j);
    }
    assert all[|ts|..] == k && all[..|ts|] == ts && all[0..] == all;
    LengthIs(all, |ts|, 0);
    if PeekGroup(all, Parenthesis) {
      assert NoOperator(all, 1);
      PeekFrom(all, "|=", 1);
      PeekFrom(all, "&&", 1);
      PeekFrom(all, "==>", 1);
    }
  }

  /** An atom is taken as a whole if what follows cannot be confused with its end. */
  lemma AtomParses(syntax: Syntax, ts: seq<Token>, k: seq<Token>)
    requires AtomOk(syntax, ts) && Follows(k)
    requires k != [] ==> ts[|ts| - 1] != Punct('&') && ts[|ts| - 1] != Punct('|')
    ensures ParseEntailment(syntax, ts + k) == Parsed(Expr(ts), k)
  {
    AtomLength(syntax, ts, k);
    assert (ts + k)[0] == ts[0];
    Spelled(k, 0);
  }

  /** A single conjunct is the whole. */
  lemma SingleParses(syntax: Syntax, ts: seq<Token>, a: Assertion, k: seq<Token>)
    requires ParseEntailment(syntax, ts) == Parsed(a, k) && !Peek(k, "&&")
    ensures ParseConjunction(syntax, ts) == Parsed(a, k)
    ensures !Peek(k, "==>") ==> ParsePrusti(syntax, ts) == Parsed(a, k)
  {
  }

  lemma AtomExtracts(syntax: Syntax, ts: seq<Token>)
    requires AtomOk(syntax, ts)
    ensures ExtractAssertion(syntax, ts) == Parsed(Expr(ts), [])
  {
    AtomUnambiguous(syntax, ts);
    AtomParses(syntax, ts, []);
    assert ts + [] == ts;
    SingleParses(syntax, ts, Expr(ts), []);
  }

  // ----- groups and quantifiers -----

  /** A group in front of an operator, or on its own, is parsed as a parenthesised assertion. */
  lemma GroupParses(syntax: Syntax, inner: seq<Token>, a: Assertion, k: seq<Token>)
    requires ExtractAssertion(syntax, inner) == Parsed(a, [])
    requires k == [] || Peek(k, "&&") || Peek(k, "==>")
    ensures ParseEntailment(syntax, Grouped(inner) + k) == Parsed(a, k)
  {
    assert (Grouped(inner) + k)[1..] == k;
  }

  lemma {:induction false} UntilIs(ts: seq<Token>, n: nat)
    requires n <= |ts| && Punct('|') !in ts[..n] && Peek(ts[n..], "|")
    ensures LengthUntil(ts, "|") == n
    decreases n
  {
    if n > 0 {
      assert ts[0] == ts[..n][0];
      Spelled(ts, 0);
      assert ts[1..][..n - 1] == ts[..n][1..] && ts[1..][n - 1..] == ts[n..];
      UntilIs(ts[1..], n - 1);
    }
  }

  lemma TriggersParse(syntax: Syntax, triggers: seq<Token>)
    requires triggers != [] ==> TriggersOk(syntax, triggers)
    ensures ParseTriggers(syntax, PrintTriggers(triggers)) == Parsed(triggers, [])
  {
    if triggers != [] {
      var ts := PrintTriggers(triggers);
      assert Peek(ts, ",") && ts[1..][0] == Ident("triggers") && ts[3..] == triggers;
      PeekFrom(ts, "=", 2);
      assert PeekAt(ts, "=", 2);
    }
  }

  lemma VarsTaken(vars: seq<Token>, tail: seq<Token>) returns (ts: seq<Token>)
    requires Punct('|') !in vars
    ensures ts == BAR + vars + BAR + tail && Peek(ts, "|") && LengthUntil(ts[1..], "|") == |vars|
    ensures ts[1..][..|vars|] == vars
    ensures Peek(ts[1..][|vars|..], "|") && ts[1..][|vars|..][1..] == tail
  {
    ts := BAR + vars + BAR + tail;
    assert ts[1..] == vars + (BAR + tail);
    assert ts[1..][..|vars|] == vars && ts[1..][|vars|..] == BAR + tail;
    UntilIs(ts[1..], |vars|);
  }

  lemma QuantifiedParses(syntax: Syntax, vars: seq<Token>, tail: seq<Token>, body: Assertion, rest: seq<Token>,
                         triggers: seq<Token>, last: seq<Token>, existential: bool)
    requires ArgsOk(syntax, vars)
    requires ParsePrusti(syntax, tail) == Parsed(body, rest)
    requires ParseTriggers(syntax, rest) == Parsed(triggers, last)
    ensures ExtractQuantifierRhs(syntax, BAR + vars + BAR + tail, existential) ==
            Parsed(if existential then Exists(vars, triggers, body) else ForAll(vars, triggers, body), last)
  {
    var ts := VarsTaken(vars, tail);
  }

  lemma QuantifierParses(syntax: Syntax, vars: seq<Token>, triggers: seq<Token>, body: Assertion, existential: bool)
    requires QuantifierOk(syntax, vars, triggers, body)
    requires ParsePrusti(syntax, Print(body) + PrintTriggers(triggers)) == Parsed(body, PrintTriggers(triggers))
    ensures ExtractQuantifierRhs(syntax, PrintQuantified(vars, triggers, body), existential) ==
            Parsed(if existential then Exists(vars, triggers, body) else ForAll(vars, triggers, body), [])
  {
    var tail := Print(body) + PrintTriggers(triggers);
    TriggersParse(syntax, triggers);
    QuantifiedParses(syntax, vars, tail, body, PrintTriggers(triggers), triggers, [], existential);
    Regroup(BAR + vars + BAR, Print(body), PrintTriggers(triggers));
  }

  lemma QuantifierUnitParses(syntax: Syntax, existential: bool, inner: seq<Token>, a: Assertion, k: seq<Token>)
    requires ExtractQuantifierRhs(syntax, inner, existential) == Parsed(a, [])
    ensures ParseEntailment(syntax, [Ident(if existential then "exists" else "forall")] + Grouped(inner) + k)
            == Parsed(a, k)
  {
    var ts := [Ident(if existential then "exists" else "forall")] + Grouped(inner) + k;
    assert ts[1..] == Grouped(inner) + k && ts[2..] == k;
    assert ts[1] == Group(Parenthesis, inner);
  }

  // ----- entailments -----

  /** The conditions in `ts`, after others of one kind. */
  function WithConditions(syntax: Syntax, keyword: string, cs: seq<Assertion>, ts: seq<Token>, pres: seq<Assertion>,
                          posts: seq<Assertion>): Parsed<(seq<Assertion>, seq<Assertion>)>
  {
    if keyword == "requires" then ExtractEntailmentRhs(syntax, ts, false, pres + cs, posts)
    else ExtractEntailmentRhs(syntax, ts, false, pres, posts + cs)
  }

  lemma PrintConditionsSplits(keyword: string, cs: seq<Assertion>, tail: seq<Token>)
    requires cs != []
    ensures PrintConditions(keyword, cs) + tail ==
            COMMA + (PrintCondition(keyword, cs[0]) + (PrintConditions(keyword, cs[1..]) + tail))
  {
    Regroup(COMMA + PrintCondition(keyword, cs[0]), PrintConditions(keyword, cs[1..]), tail);
    Regroup(COMMA, PrintCondition(keyword, cs[0]), PrintConditions(keyword, cs[1..]) + tail);
  }

  lemma ConditionsRegroup(cs: seq<Assertion>, pres: seq<Assertion>, posts: seq<Assertion>)
    requires cs != []
    ensures pres + [cs[0]] + cs[1..] == pres + cs && posts + [cs[0]] + cs[1..] == posts + cs
  {
    Regroup(pres, [cs[0]], cs[1..]);
    Regroup(posts, [cs[0]], cs[1..]);
    assert [cs[0]] + cs[1..] == cs;
  }

  lemma OneCondition(syntax: Syntax, keyword: string, c: Assertion, rest: seq<Token>, pres: seq<Assertion>,
                     posts: seq<Assertion>)
    requires keyword == "requires" || keyword == "ensures"
    requires ExtractAssertion(syntax, Print(c)) == Parsed(c, [])
    ensures ExtractEntailmentRhs(syntax, COMMA + (PrintCondition(keyword, c) + rest), false, pres, posts) ==
            WithConditions(syntax, keyword, [c], rest, pres, posts)
  {
    var ts := COMMA + (PrintCondition(keyword, c) + rest);
    var next := PrintCondition(keyword, c) + rest;
    Spelled(ts, 0);
    assert ts[1..] == next && next[2..] == rest && next[1] == Group(Parenthesis, Print(c));
    assert next[1..][0] == next[1];
  }

  /** The first condition needs no comma. */
  lemma RhsParses(syntax: Syntax, ts: seq<Token>, pres: seq<Assertion>, posts: seq<Assertion>)
    requires ExtractEntailmentRhs(syntax, ts, false, [], []) == Parsed((pres, posts), [])
    requires |ts| != 1
    ensures ExtractEntailmentRhs(syntax, PrintRhs(ts), true, [], []) == Parsed((pres, posts), [])
  {
  }

  lemma ArgsParse(syntax: Syntax, vars: seq<Token>, k: seq<Token>)
    requires (vars != [] ==> ArgsOk(syntax, vars)) && PeekGroup(k, Bracket)
    ensures ParseEntailmentArgs(syntax, PrintArgs(vars) + k) == Parsed(vars, k)
  {
    if vars == [] {
      assert [] + k == k;
      Spelled(k, 0);
    } else {
      var ts := VarsTaken(vars, k);
    }
  }

  lemma ClosureParses(syntax: Syntax, closure: seq<Token>, args: seq<Token>, vars: seq<Token>, k: seq<Token>,
                      pres: seq<Assertion>, posts: seq<Assertion>)
    requires AtomOk(syntax, closure) && Plain(closure)
    requires ParseEntailmentArgs(syntax, args) == Parsed(vars, k) && PeekGroup(k, Bracket)
    requires ExtractEntailmentRhs(syntax, k[0].tokens, true, [], []) == Parsed((pres, posts), [])
    ensures ParseEntailment(syntax, closure + (ENTAILS + args)) ==
            Parsed(SpecEntailment(closure, vars, pres, posts), k[1..])
  {
    var tail := ENTAILS + args;
    Spelled(tail, 0);
    AtomLength(syntax, closure, tail);
    assert (closure + tail)[0] == closure[0] && tail[2..] == args;
  }

  // ----- one step of the grammar -----

  lemma CommaIsNoOperator(k: seq<Token>)
    requires Peek(k, ",")
    ensures !Peek(k, "&&") && !Peek(k, "==>")
  {
    Spelled(k, 0);
  }

  lemma ImpliesIsNoAnd(k: seq<Token>)
    ensures Peek(IMPLIES + k, "==>") && !Peek(IMPLIES + k, "&&")
    ensures Peek(AND + k, "&&") && !Peek(AND + k, "==>")
  {
    Spelled(IMPLIES + k, 0);
    Spelled(AND + k, 0);
  }

  lemma ImplicationParses(syntax: Syntax, ts: seq<Token>, left: Assertion, tail: seq<Token>, right: Assertion,
                          k: seq<Token>)
    requires ParseConjunction(syntax, ts) == Parsed(left, IMPLIES + tail)
    requires ParsePrusti(syntax, tail) == Parsed(right, k)
    ensures ParsePrusti(syntax, ts) == Parsed(Implies(left, right), k)
  {
    ImpliesIsNoAnd(tail);
    assert (IMPLIES + tail)[3..] == tail;
  }

  lemma FirstConjunctParses(syntax: Syntax, ts: seq<Token>, first: Assertion, tail: seq<Token>,
                            others: seq<Assertion>, k: seq<Token>)
    requires ParseEntailment(syntax, ts) == Parsed(first, AND + tail)
    requires ParseConjuncts(syntax, tail) == Parsed(others, k)
    ensures ParseConjuncts(syntax, ts) == Parsed([first] + others, k)
  {
    ImpliesIsNoAnd(tail);
    assert (AND + tail)[2..] == tail;
  }

  lemma LastConjunctParses(syntax: Syntax, ts: seq<Token>, last: Assertion, k: seq<Token>)
    requires ParseEntailment(syntax, ts) == Parsed(last, k) && !Peek(k, "&&")
    ensures ParseConjuncts(syntax, ts) == Parsed([last], k)
  {
  }

  lemma AndParses(syntax: Syntax, ts: seq<Token>, cs: seq<Assertion>, k: seq<Token>)
    requires ParseConjuncts(syntax, ts) == Parsed(cs, k) && |cs| > 1
    ensures ParseConjunction(syntax, ts) == Parsed(And(cs), k)
    ensures !Peek(k, "==>") ==> ParsePrusti(syntax, ts) == Parsed(And(cs), k)
  {
  }

  // ----- whole assertions -----

  /** What may come after an assertion that ends the surrounding tokens or stands in front of triggers. */
  ghost predicate Closes(a: Assertion, k: seq<Token>) {
    k == [] || (Peek(k, ",") && !EndsGrouped(a))
  }

  lemma {:induction false} UnitParses(syntax: Syntax, a: Assertion, k: seq<Token>)
    requires Printable(syntax, a) && Follows(k) && (Peek(k, ",") ==> !UnitGrouped(a))
    ensures ParseEntailment(syntax, PrintUnit(a) + k) == Parsed(a, k)
    decreases a, 2
  {
    if UnitGrouped(a) {
      if IsCompound(a) {
        CompoundExtracts(syntax, a);
        GroupParses(syntax, PrintCompound(a), a, k);
      } else if a.Expr? {
        AtomExtracts(syntax, a.tokens);
        GroupParses(syntax, a.tokens, a, k);
      } else {
        assert a == And([]);
        GroupParses(syntax, [], a, k);
      }
    } else {
      match a
      case Expr(ts) => AtomParses(syntax, ts, k);
      case ForAll(_, _, _) => NestedQuantifierParses(syntax, a, k);
      case Exists(_, _, _) => NestedQuantifierParses(syntax, a, k);
      case SpecEntailment(_, _, _, _) => EntailmentParses(syntax, a, k);
    }
  }

  /** An entailment is taken as a whole, whatever follows it. */
  lemma {:induction false} EntailmentParses(syntax: Syntax, a: Assertion, k: seq<Token>)
    requires Printable(syntax, a) && a.SpecEntailment?
    ensures ParseEntailment(syntax, PrintUnit(a) + k) == Parsed(a, k)
    decreases a, 1
  {
    var pres, posts := PrintConditions("requires", a.pres), PrintConditions("ensures", a.posts);
    ConditionsParse(syntax, "ensures", a.posts, [], a.pres, []);
    assert posts + [] == posts;
    ConditionsParse(syntax, "requires", a.pres, posts, [], []);
    assert [] + a.pres == a.pres && [] + a.posts == a.posts;
    RhsParses(syntax, pres + posts, a.pres, a.posts);
    var conditions := [Group(Bracket, PrintRhs(pres + posts))] + k;
    ArgsParse(syntax, a.vars, conditions);
    ClosureParses(syntax, a.closure, PrintArgs(a.vars) + conditions, a.vars, conditions, a.pres, a.posts);
    Regroup(a.closure + ENTAILS + PrintArgs(a.vars), [Group(Bracket, PrintRhs(pres + posts))], k);
    Regroup(a.closure + ENTAILS, PrintArgs(a.vars), conditions);
    Regroup(a.closure, ENTAILS, PrintArgs(a.vars) + conditions);
  }

  /** The conditions of one kind, in front of others that are parsed after them. */
  lemma {:induction false} ConditionsParse(syntax: Syntax, keyword: string, cs: seq<Assertion>, tail: seq<Token>,
                                           pres: seq<Assertion>, posts: seq<Assertion>)
    requires keyword == "requires" || keyword == "ensures"
    requires forall c :: c in cs ==> Printable(syntax, c)
    ensures ExtractEntailmentRhs(syntax, PrintConditions(keyword, cs) + tail, false, pres, posts) ==
            WithConditions(syntax, keyword, cs, tail, pres, posts)
    decreases cs, 1
  {
    if cs == [] {
      assert [] + tail == tail && pres + cs == pres && posts + cs == posts;
    } else {
      var rest := PrintConditions(keyword, cs[1..]) + tail;
      WholeParses(syntax, cs[0]);
      OneCondition(syntax, keyword, cs[0], rest, pres, posts);
      PrintConditionsSplits(keyword, cs, tail);
      ConditionsRegroup(cs, pres, posts);
      if keyword == "requires" {
        ConditionsParse(syntax, keyword, cs[1..], tail, pres + [cs[0]], posts);
      } else {
        ConditionsParse(syntax, keyword, cs[1..], tail, pres, posts + [cs[0]]);
      }
    }
  }

  lemma {:induction false} WholeParses(syntax: Syntax, a: Assertion)
    requires Printable(syntax, a)
    ensures ExtractAssertion(syntax, Print(a)) == Parsed(a, [])
    decreases a, 4
  {
    PrintNeat(syntax, a);
    ClearIsUnambiguous(Print(a));
    PrustiParses(syntax, a, []);
    assert Print(a) + [] == Print(a);
  }

  /** A quantifier is taken as a whole, whatever follows it. */
  lemma {:induction false} NestedQuantifierParses(syntax: Syntax, a: Assertion, k: seq<Token>)
    requires Printable(syntax, a) && (a.ForAll? || a.Exists?)
    ensures ParseEntailment(syntax, PrintUnit(a) + k) == Parsed(a, k)
    decreases a, 1
  {
    BodyParses(syntax, a.triggers, a.body);
    QuantifierParses(syntax, a.vars, a.triggers, a.body, a.Exists?);
    QuantifierUnitParses(syntax, a.Exists?, PrintQuantified(a.vars, a.triggers, a.body), a, k);
  }

  lemma {:induction false} BodyParses(syntax: Syntax, triggers: seq<Token>, body: Assertion)
    requires Printable(syntax, body) && (triggers != [] ==> !EndsGrouped(body))
    ensures ParsePrusti(syntax, Print(body) + PrintTriggers(triggers)) == Parsed(body, PrintTriggers(triggers))
    decreases body, 4
  {
    var k := PrintTriggers(triggers);
    assert triggers != [] ==> Peek(k, ",");
    PrustiParses(syntax, body, k);
  }

  lemma {:induction false} CompoundExtracts(syntax: Syntax, a: Assertion)
    requires Printable(syntax, a) && IsCompound(a)
    ensures ExtractAssertion(syntax, PrintCompound(a)) == Parsed(a, [])
    decreases a, 1
  {
    PrintCompoundNeat(syntax, a);
    ClearIsUnambiguous(PrintCompound(a));
    CompoundParses(syntax, a, []);
    assert PrintCompound(a) + [] == PrintCompound(a);
  }

  lemma {:induction false} CompoundParses(syntax: Syntax, a: Assertion, k: seq<Token>)
    requires Printable(syntax, a) && IsCompound(a) && Closes(a, k)
    ensures ParsePrusti(syntax, PrintCompound(a) + k) == Parsed(a, k)
    decreases a, 0
  {
    if k != [] {
      CommaIsNoOperator(k);
    }
    match a
    case Implies(left, right) =>
      var first := if left.And? && |left.conjuncts| > 1 then PrintCompound(left) else PrintUnit(left);
      var tail := Print(right) + k;
      ImpliesIsNoAnd(tail);
      LeftParses(syntax, left, IMPLIES + tail);
      PrustiParses(syntax, right, k);
      ImplicationParses(syntax, first + (IMPLIES + tail), left, tail, right, k);
      Regroup(first + IMPLIES, Print(right), k);
      Regroup(first, IMPLIES, tail);
    case And(cs) =>
      ConjunctsParse(syntax, cs, k);
      AndParses(syntax, PrintAll(cs) + k, cs, k);
  }

  /** The left side of an implication: conjuncts without parentheses, or one conjunct. */
  lemma {:induction false} LeftParses(syntax: Syntax, left: Assertion, k: seq<Token>)
    requires Printable(syntax, left) && Peek(k, "==>") && !Peek(k, "&&")
    ensures ParseConjunction(syntax,
              (if left.And? && |left.conjuncts| > 1 then PrintCompound(left) else PrintUnit(left)) + k)
            == Parsed(left, k)
    decreases left, 3
  {
    Spelled(k, 0);
    if left.And? && |left.conjuncts| > 1 {
      ConjunctsParse(syntax, left.conjuncts, k);
      AndParses(syntax, PrintAll(left.conjuncts) + k, left.conjuncts, k);
    } else {
      UnitParses(syntax, left, k);
      SingleParses(syntax, PrintUnit(left) + k, left, k);
    }
  }

  lemma PrintAllSplits(cs: seq<Assertion>, k: seq<Token>)
    requires |cs| > 1
    ensures PrintAll(cs) + k == PrintUnit(cs[0]) + (AND + (PrintAll(cs[1..]) + k))
  {
    Regroup(PrintUnit(cs[0]) + AND, PrintAll(cs[1..]), k);
    Regroup(PrintUnit(cs[0]), AND, PrintAll(cs[1..]) + k);
  }

  lemma AndFollows(tail: seq<Token>)
    ensures Follows(AND + tail) && !Peek(AND + tail, ",")
  {
    ImpliesIsNoAnd(tail);
    Spelled(AND + tail, 0);
  }

  lemma AllParse(syntax: Syntax, cs: seq<Assertion>, k: seq<Token>)
    requires |cs| > 1
    requires ParseEntailment(syntax, PrintUnit(cs[0]) + (AND + (PrintAll(cs[1..]) + k)))
             == Parsed(cs[0], AND + (PrintAll(cs[1..]) + k))
    requires ParseConjuncts(syntax, PrintAll(cs[1..]) + k) == Parsed(cs[1..], k)
    ensures ParseConjuncts(syntax, PrintAll(cs) + k) == Parsed(cs, k)
  {
    var tail := PrintAll(cs[1..]) + k;
    FirstConjunctParses(syntax, PrintUnit(cs[0]) + (AND + tail), cs[0], tail, cs[1..], k);
    PrintAllSplits(cs, k);
    assert cs == [cs[0]] + cs[1..];
  }

  lemma {:induction false} ConjunctsParse(syntax: Syntax, cs: seq<Assertion>, k: seq<Token>)
    requires cs != [] && forall c :: c in cs ==> Printable(syntax, c)
    requires Follows(k) && !Peek(k, "&&") && (Peek(k, ",") ==> !UnitGrouped(cs[|cs| - 1]))
    ensures ParseConjuncts(syntax, PrintAll(cs) + k) == Parsed(cs, k)
    decreases cs, 1
  {
    assert cs[0] in cs;
    if |cs| == 1 {
      UnitParses(syntax, cs[0], k);
      LastConjunctParses(syntax, PrintUnit(cs[0]) + k, cs[0], k);
      assert cs == [cs[0]];
    } else {
      var tail := PrintAll(cs[1..]) + k;
      AndFollows(tail);
      UnitParses(syntax, cs[0], AND + tail);
      assert cs[1..][|cs| - 2] == cs[|cs| - 1];
      ConjunctsParse(syntax, cs[1..], k);
      AllParse(syntax, cs, k);
    }
  }

  lemma {:induction false} PrustiParses(syntax: Syntax, a: Assertion, k: seq<Token>)
    requires Printable(syntax, a) && Closes(a, k)
    ensures ParsePrusti(syntax, Print(a) + k) == Parsed(a, k)
    decreases a, 3
  {
    if IsCompound(a) {
      CompoundParses(syntax, a, k);
    } else {
      if k != [] {
        CommaIsNoOperator(k);
      }
      UnitParses(syntax, a, k);
      SingleParses(syntax, PrintUnit(a) + k, a, k);
    }
  }

  /** Parsing inverts printing, for every printable assertion. */
  lemma RoundTrip(syntax: Syntax, a: Assertion)
    requires Printable(syntax, a)
    ensures ExtractAssertion(syntax, Print(a)) == Parsed(a, [])
  {
    WholeParses(syntax, a);
  }

  /** Different assertions print differently. */
  lemma PrintInjective(syntax: Syntax, a: Assertion, b: Assertion)
    requires Printable(syntax, a) && Printable(syntax, b) && Print(a) == Print(b)
    ensures a == b
  {
    RoundTrip(syntax, a);
    RoundTrip(syntax, b);
  }

  // ----- which atoms are kept -----

  lemma {:induction false} PrefixSize(ts: seq<Token>, n: nat)
    requires n <= |ts|
    ensures Size(ts[..n]) <= Size(ts)
    decreases n
  {
    if n > 0 {
      assert ts[..n][1..] == ts[1..][..n - 1];
      PrefixSize(ts[1..], n - 1);
    }
  }

  lemma PrimaryOfGroup(syntax: Syntax, ts: seq<Token>)
    ensures var r := ParsePrimary(syntax, ts);
            r.Parsed? && r.value.Expr? ==>
              && PeekGroup(ts, Parenthesis) && ts[0].tokens != []
              && ParsePrusti(syntax, ts[0].tokens).Parsed? && ParsePrusti(syntax, ts[0].tokens).value == r.value
  {
  }

  lemma EntailmentOfAtom(syntax: Syntax, ts: seq<Token>)
    ensures var r := ParseEntailment(syntax, ts);
            r.Parsed? && r.value.Expr? && r != ParsePrimary(syntax, ts) ==>
              r.value.tokens == ts[..ExpressionLength(ts, ",")]
  {
  }

  lemma PrustiOfConjunct(syntax: Syntax, ts: seq<Token>)
    ensures var r := ParsePrusti(syntax, ts);
            r.Parsed? && r.value.Expr? ==> r == ParseEntailment(syntax, ts)
  {
    var r := ParsePrusti(syntax, ts);
    if r.Parsed? && r.value.Expr? {
      assert r == ParseConjunction(syntax, ts);
    }
  }

  /** The tokens of a parsed atom are no more than were there to be parsed. */
  lemma {:induction false} AtomWithin(syntax: Syntax, ts: seq<Token>)
    ensures var r := ParsePrusti(syntax, ts); r.Parsed? && r.value.Expr? ==> Size(r.value.tokens) <= Size(ts)
    decreases Size(ts)
  {
    var r := ParsePrusti(syntax, ts);
    if r.Parsed? && r.value.Expr? {
      PrustiOfConjunct(syntax, ts);
      EntailmentOfAtom(syntax, ts);
      if r == ParsePrimary(syntax, ts) {
        PrimaryOfGroup(syntax, ts);
        AtomWithin(syntax, ts[0].tokens);
      } else {
        PrefixSize(ts, ExpressionLength(ts, ","));
      }
    }
  }

  lemma {:induction false} ExpressionEnds(ts: seq<Token>)
    ensures EndsExpression(ts[ExpressionLength(ts, ",")..], ",")
  {
    if !EndsExpression(ts, ",") {
      ExpressionEnds(ts[1..]);
      assert ts[1..][ExpressionLength(ts[1..], ",")..] == ts[ExpressionLength(ts, ",")..];
    }
  }

  lemma {:induction false} LengthMeansNoOperator(ts: seq<Token>, n: nat, j: nat)
    requires j < n <= |ts| && n <= ExpressionLength(ts, ",")
    ensures NoOperator(ts, j)
    decreases j
  {
    if j > 0 {
      LengthMeansNoOperator(ts[1..], n - 1, j - 1);
      assert ts[1..][j - 1..] == ts[j..];
      PeekShift(ts, j);
    }
  }

  lemma PeekShift(ts: seq<Token>, j: nat)
    requires 0 < j < |ts|
    ensures NoOperator(ts[1..], j - 1) ==> NoOperator(ts, j)
  {
    Spelled(ts[1..], j - 1);
    Spelled(ts, j);
  }

  /** The atoms that parse as themselves are exactly those that the printer accepts. */
  lemma AtomsExactly(syntax: Syntax, ts: seq<Token>)
    ensures ExtractAssertion(syntax, ts) == Parsed(Expr(ts), []) <==> AtomOk(syntax, ts)
  {
    if AtomOk(syntax, ts) {
      AtomExtracts(syntax, ts);
    }
    if ExtractAssertion(syntax, ts) == Parsed(Expr(ts), []) {
      PrustiOfConjunct(syntax, ts);
      EntailmentOfAtom(syntax, ts);
      if ParsePrusti(syntax, ts) == ParsePrimary(syntax, ts) {
        PrimaryOfGroup(syntax, ts);
        AtomWithin(syntax, ts[0].tokens);
        assert false;
      }
      AtomOfPrusti(syntax, ts);
    }
  }

  lemma AtomOfPrusti(syntax: Syntax, ts: seq<Token>)
    requires ts != [] && !BothAndOr(ts) && ParseEntailment(syntax, ts) == Parsed(Expr(ts), [])
    requires ParseEntailment(syntax, ts) != ParsePrimary(syntax, ts)
    ensures AtomOk(syntax, ts)
  {
    UnambiguousGroups(ts);
    assert ts[..ExpressionLength(ts, ",")] == ts;
    forall j: nat
      ensures NoOperator(ts, j)
    {
      if j < |ts| {
        LengthMeansNoOperator(ts, |ts|, j);
      }
    }
  }

  // ----- what is not inverted -----

  // In front of triggers a group is taken for the Rust expression of its tokens, or rejected.

  lemma UnitLost(syntax: Syntax, a: Assertion, k: seq<Token>)
    requires Printable(syntax, a) && UnitGrouped(a) && Peek(k, ",")
    ensures var r := ParseEntailment(syntax, PrintUnit(a) + k); r.Parsed? ==> r.value != a && r.rest == k
  {
    var ts := PrintUnit(a) + k;
    assert ts[1..] == k && ts[..1] == PrintUnit(a);
    Spelled(k, 0);
    Spelled(ts, 0);
    assert IsPartOfRustExpr(ts);
    assert ExpressionLength(k, ",") == 0;
    assert ExpressionLength(ts, ",") == 1;
    var r := ParseEntailment(syntax, ts);
    if r.Parsed? {
      assert r.value == Expr(PrintUnit(a));
      if a.Expr? {
        GroupIsLarger(a.tokens);
      }
    }
  }

  lemma GroupIsLarger(ts: seq<Token>)
    ensures Grouped(ts) != ts
  {
    assert Size(Grouped(ts)) == 1 + Size(ts);
  }

  lemma {:induction false} ConjunctsLost(syntax: Syntax, cs: seq<Assertion>, k: seq<Token>)
    requires cs != [] && forall c :: c in cs ==> Printable(syntax, c)
    requires UnitGrouped(cs[|cs| - 1]) && Peek(k, ",")
    ensures var r := ParseConjuncts(syntax, PrintAll(cs) + k);
            r.Parsed? ==> |r.value| == |cs| && r.value != cs && r.rest == k
    decreases |cs|
  {
    CommaIsNoOperator(k);
    if |cs| == 1 {
      UnitLost(syntax, cs[0], k);
    } else {
      var tail := PrintAll(cs[1..]) + k;
      AndFollows(tail);
      UnitParses(syntax, cs[0], AND + tail);
      ConjunctsLost(syntax, cs[1..], k);
      PrintAllSplits(cs, k);
      ConjunctsAfter(syntax, PrintUnit(cs[0]) + (AND + tail), cs[0], tail);
    }
  }

  lemma ConjunctsAfter(syntax: Syntax, ts: seq<Token>, first: Assertion, tail: seq<Token>)
    requires ParseEntailment(syntax, ts) == Parsed(first, AND + tail)
    ensures var r, others := ParseConjuncts(syntax, ts), ParseConjuncts(syntax, tail);
            r == if others.Parsed? then Parsed([first] + others.value, others.rest) else Bad(others.error)
  {
    ImpliesIsNoAnd(tail);
    assert (AND + tail)[2..] == tail;
  }

  lemma PrustiAfter(syntax: Syntax, ts: seq<Token>, left: Assertion, tail: seq<Token>)
    requires ParseConjunction(syntax, ts) == Parsed(left, IMPLIES + tail)
    ensures var r, right := ParsePrusti(syntax, ts), ParsePrusti(syntax, tail);
            r == if right.Parsed? then Parsed(Implies(left, right.value), right.rest) else Bad(right.error)
  {
    ImpliesIsNoAnd(tail);
    assert (IMPLIES + tail)[3..] == tail;
  }

  lemma {:induction false} BodyLost(syntax: Syntax, a: Assertion, k: seq<Token>)
    requires Printable(syntax, a) && EndsGrouped(a) && Peek(k, ",")
    ensures var r := ParsePrusti(syntax, Print(a) + k); r.Parsed? ==> r.value != a
    decreases a
  {
    CommaIsNoOperator(k);
    if a.Implies? {
      var left := a.left;
      var first := if left.And? && |left.conjuncts| > 1 then PrintCompound(left) else PrintUnit(left);
      var tail := Print(a.right) + k;
      ImpliesIsNoAnd(tail);
      LeftParses(syntax, left, IMPLIES + tail);
      BodyLost(syntax, a.right, k);
      PrustiAfter(syntax, first + (IMPLIES + tail), left, tail);
      Regroup(first + IMPLIES, Print(a.right), k);
      Regroup(first, IMPLIES, tail);
    } else if IsCompound(a) {
      ConjunctsLost(syntax, a.conjuncts, k);
    } else {
      UnitLost(syntax, a, k);
      assert ParseConjuncts(syntax, PrintUnit(a) + k).Parsed? ==> ParseEntailment(syntax, PrintUnit(a) + k).Parsed?;
    }
  }

  /** A printed quantifier with triggers parses as itself exactly if its body does not end with a group. */
  lemma TriggersParseExactly(syntax: Syntax, vars: seq<Token>, triggers: seq<Token>, body: Assertion, existential: bool)
    requires VarsOk(syntax, vars) && triggers != [] && TriggersOk(syntax, triggers) && Printable(syntax, body)
    ensures ExtractQuantifierRhs(syntax, PrintQuantified(vars, triggers, body), existential) ==
            Parsed(if existential then Exists(vars, triggers, body) else ForAll(vars, triggers, body), [])
            <==> !EndsGrouped(body)
  {
    if EndsGrouped(body) {
      var k := PrintTriggers(triggers);
      assert Peek(k, ",");
      BodyLost(syntax, body, k);
      QuantifierAfter(syntax, vars, Print(body) + k, existential);
      Regroup(BAR + vars + BAR, Print(body), k);
    } else {
      BodyParses(syntax, triggers, body);
      QuantifierParses(syntax, vars, triggers, body, existential);
    }
  }

  /** The body of a parsed quantifier is what was parsed after its arguments. */
  lemma QuantifierAfter(syntax: Syntax, vars: seq<Token>, tail: seq<Token>, existential: bool)
    requires ArgsOk(syntax, vars)
    ensures var r := ExtractQuantifierRhs(syntax, BAR + vars + BAR + tail, existential);
            var body := ParsePrusti(syntax, tail);
            r.Parsed? ==> body.Parsed? && (r.value.ForAll? || r.value.Exists?) && r.value.body == body.value &&
                          r.rest == if Peek(body.rest, ",") then [] else body.rest
  {
    var ts := VarsTaken(vars, tail);
  }
}
