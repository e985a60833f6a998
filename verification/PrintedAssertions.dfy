/**
 Printing assertions in the documented grammar, with parentheses where they are needed, and
 parsing what was printed.
 */
module PrintedAssertions {
  import opened Tokens
  import opened Preparser

  const AND: seq<Token> := [Punct('&'), Punct('&')]
  const IMPLIES: seq<Token> := [Punct('='), Punct('='), Punct('>')]
  const BAR: seq<Token> := [Punct('|')]
  const ENTAILS: seq<Token> := [Punct('|'), Punct('=')]
  const COMMA: seq<Token> := [Punct(',')]

  // ----- which assertions can be printed -----

  ghost predicate NoOr(ts: seq<Token>) {
    forall j: nat :: !PeekAt(ts, "||", j)
  }

  ghost predicate GroupsClear(ts: seq<Token>) {
    forall k: nat :: !InnerAmbiguous(ts, k)
  }

  ghost predicate NoOperator(ts: seq<Token>, j: nat) {
    !PeekAt(ts, "|=", j) && !PeekAt(ts, "&&", j) && !PeekAt(ts, "==>", j) && !PeekAt(ts, ",", j)
  }

  predicate HasOr(ts: seq<Token>) {
    exists j :: 0 <= j < |ts| && PeekAt(ts, "||", j)
  }

  /** An atom that needs no parentheses. */
  predicate Plain(ts: seq<Token>) {
    && ts != [] && ts[0] != Punct('|') && !HasOr(ts)
    && ts[|ts| - 1] != Punct('&') && ts[|ts| - 1] != Punct('|')
  }

  /** A Rust expression that the parser can keep as one atom. */
  ghost predicate AtomOk(syntax: Syntax, ts: seq<Token>) {
    && ts != [] && syntax.isExpr(ts)
    && (forall j: nat :: NoOperator(ts, j))
    && !ContainsRecursive(ts, "==>")
    && GroupsClear(ts)
    && !PeekKeyword(ts, "forall") && !PeekKeyword(ts, "exists")
    && (PeekGroup(ts, Parenthesis) ==> |ts| > 1)
  }

  /** Arguments that the parser takes between bars. */
  ghost predicate ArgsOk(syntax: Syntax, vars: seq<Token>) {
    vars != [] && syntax.isArgs(vars) && Punct('|') !in vars
  }

  ghost predicate VarsOk(syntax: Syntax, vars: seq<Token>) {
    ArgsOk(syntax, vars) && GroupsClear(vars)
  }

  ghost predicate TriggersOk(syntax: Syntax, triggers: seq<Token>) {
    syntax.isTriggers(triggers) && GroupsClear(triggers) && NoOr(triggers)
  }

  /** Does the assertion, as one conjunct, print as a group? */
  predicate UnitGrouped(a: Assertion) {
    match a
    case Expr(ts) => !Plain(ts)
    case And(_) => true
    case Implies(_, _) => true
    case _ => false
  }

  predicate EndsGrouped(a: Assertion) {
    match a
    case Implies(_, right) => EndsGrouped(right)
    case And(cs) => cs == [] || UnitGrouped(cs[|cs| - 1])
    case _ => UnitGrouped(a)
  }

  ghost predicate Printable(syntax: Syntax, a: Assertion) {
    match a
    case Expr(ts) => AtomOk(syntax, ts)
    case And(cs) => |cs| != 1 && forall c :: c in cs ==> Printable(syntax, c)
    case Implies(left, right) => Printable(syntax, left) && Printable(syntax, right)
    case ForAll(vars, triggers, body) => QuantifierOk(syntax, vars, triggers, body) && Printable(syntax, body)
    case Exists(vars, triggers, body) => QuantifierOk(syntax, vars, triggers, body) && Printable(syntax, body)
    case SpecEntailment(closure, vars, pres, posts) =>
      && AtomOk(syntax, closure) && Plain(closure)
      && (vars != [] ==> VarsOk(syntax, vars))
      && (forall c :: c in pres ==> Printable(syntax, c))
      && (forall c :: c in posts ==> Printable(syntax, c))
  }

  /** With triggers, the body must not end with a group: a comma after a group is taken for part of an expression. */
  ghost predicate QuantifierOk(syntax: Syntax, vars: seq<Token>, triggers: seq<Token>, body: Assertion) {
    VarsOk(syntax, vars) && (triggers != [] ==> TriggersOk(syntax, triggers) && !EndsGrouped(body))
  }

  // ----- printing -----

  predicate IsCompound(a: Assertion) {
    a.Implies? || (a.And? && |a.conjuncts| > 1)
  }

  function Grouped(ts: seq<Token>): seq<Token> {
    [Group(Parenthesis, ts)]
  }

  function Print(a: Assertion): seq<Token>
    decreases a, 2
  {
    if IsCompound(a) then PrintCompound(a) else PrintUnit(a)
  }

  function PrintCompound(a: Assertion): seq<Token>
    requires IsCompound(a)
    decreases a, 0
  {
    match a
    case Implies(left, right) =>
      (if left.And? && |left.conjuncts| > 1 then PrintCompound(left) else PrintUnit(left)) + IMPLIES + Print(right)
    case And(cs) => PrintAll(cs)
  }

  function PrintAll(cs: seq<Assertion>): seq<Token>
    requires cs != []
    decreases cs, 1
  {
    if |cs| == 1 then PrintUnit(cs[0]) else PrintUnit(cs[0]) + AND + PrintAll(cs[1..])
  }

  function PrintUnit(a: Assertion): seq<Token>
    decreases a, 1
  {
    if IsCompound(a) then Grouped(PrintCompound(a))
    else
      match a
      case Expr(ts) => if Plain(ts) then ts else Grouped(ts)
      case And(_) => Grouped([])
      case ForAll(vars, triggers, body) => [Ident("forall")] + Grouped(PrintQuantified(vars, triggers, body))
      case Exists(vars, triggers, body) => [Ident("exists")] + Grouped(PrintQuantified(vars, triggers, body))
      case SpecEntailment(closure, vars, pres, posts) =>
        closure + ENTAILS + PrintArgs(vars) +
        [Group(Bracket, PrintRhs(PrintConditions("requires", pres) + PrintConditions("ensures", posts)))]
  }

  function PrintArgs(vars: seq<Token>): seq<Token> {
    if vars == [] then [] else BAR + vars + BAR
  }

  /** Each condition with a comma in front. */
  function PrintConditions(keyword: string, conditions: seq<Assertion>): seq<Token>
    decreases conditions, 1
  {
    if conditions == [] then []
    else COMMA + PrintCondition(keyword, conditions[0]) + PrintConditions(keyword, conditions[1..])
  }

  function PrintCondition(keyword: string, condition: Assertion): seq<Token>
    decreases condition, 3
  {
    [Ident(keyword)] + Grouped(Print(condition))
  }

  /** The conditions without the comma in front of the first. */
  function PrintRhs(conditions: seq<Token>): seq<Token> {
    if conditions == [] then [] else conditions[1..]
  }

  function PrintQuantified(vars: seq<Token>, triggers: seq<Token>, body: Assertion): seq<Token>
    decreases body, 3
  {
    BAR + vars + BAR + Print(body) + PrintTriggers(triggers)
  }

  function PrintTriggers(triggers: seq<Token>): seq<Token> {
    if triggers == [] then [] else [Punct(','), Ident("triggers"), Punct('=')] + triggers
  }

  // ----- what is printed is not ambiguous -----

  ghost predicate Clear(ts: seq<Token>) {
    NoOr(ts) && GroupsClear(ts)
  }

  lemma ClearIsUnambiguous(ts: seq<Token>)
    requires Clear(ts)
    ensures !BothAndOr(ts)
  {
    AmbiguousExactly(ts);
  }

  lemma UnambiguousGroups(ts: seq<Token>)
    requires !BothAndOr(ts)
    ensures GroupsClear(ts)
  {
    AmbiguousExactly(ts);
  }

  ghost predicate Neat(ts: seq<Token>) {
    Clear(ts) && ts != [] && ts[0] != Punct('|') && ts[|ts| - 1] != Punct('|')
  }

  lemma ClearConcat(x: seq<Token>, y: seq<Token>)
    requires Clear(x) && Clear(y)
    requires x != [] && y != [] ==> x[|x| - 1] != Punct('|') || y[0] != Punct('|')
    ensures Clear(x + y)
  {
    var all := x + y;
    forall j: nat
      ensures !PeekAt(all, "||", j)
    {
      Spelled(all, j);
      Spelled(x, j);
      if j >= |x| {
        Spelled(y, j - |x|);
      }
    }
    forall k: nat
      ensures !InnerAmbiguous(all, k)
    {
      if k < |all| {
        assert if k < |x| then !InnerAmbiguous(x, k) else !InnerAmbiguous(y, k - |x|);
      }
    }
  }

  lemma NeatConcat(x: seq<Token>, y: seq<Token>)
    requires Neat(x) && Neat(y)
    ensures Neat(x + y)
  {
    ClearConcat(x, y);
  }

  lemma SingleClear(token: Token)
    requires !InnerAmbiguous([token], 0)
    ensures Clear([token])
  {
    forall j: nat
      ensures !PeekAt([token], "||", j)
    {
      Spelled([token], j);
    }
  }

  lemma GroupedNeat(ts: seq<Token>)
    requires !BothAndOr(ts)
    ensures Neat(Grouped(ts))
  {
    SingleClear(Group(Parenthesis, ts));
  }

  lemma FlatClear(ts: seq<Token>)
    requires forall k :: 0 <= k < |ts| ==> ts[k] != Punct('|') && !ts[k].Group?
    ensures Clear(ts)
  {
    forall j: nat
      ensures !PeekAt(ts, "||", j)
    {
      Spelled(ts, j);
    }
  }

  lemma OperatorsNeat()
    ensures Neat(AND) && Neat(IMPLIES)
  {
    FlatClear(AND);
    FlatClear(IMPLIES);
  }

  lemma AtomUnambiguous(syntax: Syntax, ts: seq<Token>)
    requires AtomOk(syntax, ts)
    ensures !BothAndOr(ts)
    ensures !HasOr(ts) ==> Clear(ts)
  {
    AmbiguousExactly(ts);
    forall a: nat, o: nat
      ensures !MixedAt(ts, a, o)
    {
      assert NoOperator(ts, a);
    }
    if !HasOr(ts) {
      forall j: nat
        ensures !PeekAt(ts, "||", j)
      {
      }
    }
  }

  lemma TriggersClear(triggers: seq<Token>)
    requires triggers != [] ==> Clear(triggers)
    ensures Clear(PrintTriggers(triggers))
  {
    if triggers == [] {
      assert forall j: nat :: !PeekAt([], "||", j);
    } else {
      FlatClear([Punct(','), Ident("triggers"), Punct('=')]);
      ClearConcat([Punct(','), Ident("triggers"), Punct('=')], triggers);
    }
  }

  lemma VarsClear(syntax: Syntax, vars: seq<Token>)
    requires VarsOk(syntax, vars)
    ensures Clear(BAR + vars + BAR)
  {
    SingleClear(Punct('|'));
    assert vars[0] in vars && vars[|vars| - 1] in vars;
    forall j: nat
      ensures !PeekAt(vars, "||", j)
    {
      Spelled(vars, j);
      assert j < |vars| ==> vars[j] in vars;
    }
    ClearConcat(BAR, vars);
    ClearConcat(BAR + vars, BAR);
  }

  lemma QuantifiedClear(syntax: Syntax, vars: seq<Token>, triggers: seq<Token>, body: Assertion)
    requires QuantifierOk(syntax, vars, triggers, body) && Neat(Print(body))
    ensures !BothAndOr(PrintQuantified(vars, triggers, body))
  {
    VarsClear(syntax, vars);
    TriggersClear(triggers);
    ClearConcat(BAR + vars + BAR, Print(body));
    ClearConcat(BAR + vars + BAR + Print(body), PrintTriggers(triggers));
    ClearIsUnambiguous(PrintQuantified(vars, triggers, body));
  }

  lemma QuantifierNeat(keyword: string, inner: seq<Token>)
    requires !BothAndOr(inner)
    ensures Neat([Ident(keyword)] + Grouped(inner))
  {
    SingleClear(Ident(keyword));
    GroupedNeat(inner);
    NeatConcat([Ident(keyword)], Grouped(inner));
  }

  lemma EntailmentNeat(syntax: Syntax, closure: seq<Token>, vars: seq<Token>, inner: seq<Token>)
    requires AtomOk(syntax, closure) && Plain(closure) && (vars != [] ==> VarsOk(syntax, vars))
    ensures Neat(closure + ENTAILS + PrintArgs(vars) + [Group(Bracket, inner)])
  {
    AtomUnambiguous(syntax, closure);
    SingleClear(Punct('|'));
    SingleClear(Punct('='));
    ClearConcat(BAR, [Punct('=')]);
    assert ENTAILS == BAR + [Punct('=')];
    ClearConcat(closure, ENTAILS);
    var conditions := [Group(Bracket, inner)];
    SingleClear(conditions[0]);
    if vars == [] {
      assert closure + ENTAILS + PrintArgs(vars) == closure + ENTAILS;
      ClearConcat(closure + ENTAILS, conditions);
    } else {
      VarsClear(syntax, vars);
      ClearConcat(closure + ENTAILS, BAR + vars + BAR);
      ClearConcat(closure + ENTAILS + (BAR + vars + BAR), conditions);
    }
  }

  lemma {:induction false} PrintUnitNeat(syntax: Syntax, a: Assertion)
    requires Printable(syntax, a)
    ensures Neat(PrintUnit(a))
    decreases a, 1
  {
    if IsCompound(a) {
      PrintCompoundNeat(syntax, a);
      ClearIsUnambiguous(PrintCompound(a));
      GroupedNeat(PrintCompound(a));
    } else {
      match a
      case Expr(ts) =>
        AtomUnambiguous(syntax, ts);
        GroupedNeat(ts);
      case And(_) =>
        assert Clear([]);
        ClearIsUnambiguous([]);
        GroupedNeat([]);
      case ForAll(vars, triggers, body) =>
        PrintNeat(syntax, body);
        QuantifiedClear(syntax, vars, triggers, body);
        QuantifierNeat("forall", PrintQuantified(vars, triggers, body));
      case Exists(vars, triggers, body) =>
        PrintNeat(syntax, body);
        QuantifiedClear(syntax, vars, triggers, body);
        QuantifierNeat("exists", PrintQuantified(vars, triggers, body));
      case SpecEntailment(closure, vars, pres, posts) =>
        EntailmentNeat(syntax, closure, vars,
                       PrintRhs(PrintConditions("requires", pres) + PrintConditions("ensures", posts)));
    }
  }

  lemma {:induction false} PrintCompoundNeat(syntax: Syntax, a: Assertion)
    requires Printable(syntax, a) && IsCompound(a)
    ensures Neat(PrintCompound(a))
    decreases a, 0
  {
    OperatorsNeat();
    match a
    case Implies(left, right) =>
      var first := if left.And? && |left.conjuncts| > 1 then PrintCompound(left) else PrintUnit(left);
      if left.And? && |left.conjuncts| > 1 {
        PrintCompoundNeat(syntax, left);
      } else {
        PrintUnitNeat(syntax, left);
      }
      PrintNeat(syntax, right);
      NeatConcat(first, IMPLIES);
      NeatConcat(first + IMPLIES, Print(right));
    case And(cs) => PrintAllNeat(syntax, cs);
  }

  lemma {:induction false} PrintAllNeat(syntax: Syntax, cs: seq<Assertion>)
    requires cs != [] && forall c :: c in cs ==> Printable(syntax, c)
    ensures Neat(PrintAll(cs))
    decreases cs, 1
  {
    OperatorsNeat();
    PrintUnitNeat(syntax, cs[0]);
    if |cs| > 1 {
      PrintAllNeat(syntax, cs[1..]);
      NeatConcat(PrintUnit(cs[0]), AND);
      NeatConcat(PrintUnit(cs[0]) + AND, PrintAll(cs[1..]));
    }
  }

  lemma {:induction false} PrintNeat(syntax: Syntax, a: Assertion)
    requires Printable(syntax, a)
    ensures Neat(Print(a))
    decreases a, 2
  {
    if IsCompound(a) {
      PrintCompoundNeat(syntax, a);
    } else {
      PrintUnitNeat(syntax, a);
    }
  }
}
