/**
 The parser of assertions over token trees: what each of its operations returns for the tokens that
 are left. Rust expressions, argument lists and triggers are kept as their tokens.
 */
module Preparser {
  import opened Tokens

  datatype Assertion =
    | Expr(tokens: seq<Token>)
    | And(conjuncts: seq<Assertion>)
    | Implies(left: Assertion, right: Assertion)
    | ForAll(vars: seq<Token>, triggers: seq<Token>, body: Assertion)
    | Exists(vars: seq<Token>, triggers: seq<Token>, body: Assertion)
    | SpecEntailment(closure: seq<Token>, vars: seq<Token>, pres: seq<Assertion>, posts: seq<Assertion>)

  datatype Error =
    | Expected(what: string)
    | Unexpected
    | AmbiguousExpression
    | ImpliesInExpression
    | NoQuantifierArguments
    | TriggersNotTuples
    | RustSyntax

  /** Which token streams the Rust parser accepts as an expression, as an argument list and as an array of tuples. */
  datatype Syntax = Syntax(
    isExpr: seq<Token> -> bool,
    isArgs: seq<Token> -> bool,
    isTriggers: seq<Token> -> bool)

  /** What was parsed, and the tokens that are left after it. */
  datatype Parsed<+T> = Parsed(value: T, rest: seq<Token>) | Bad(error: Error)

  /** At most the given number of tokens is left. */
  ghost predicate Leaves<T>(r: Parsed<T>, size: int) {
    r.Parsed? ==> Size(r.rest) <= size
  }

  // ----- streams of tokens for the Rust parser -----

  function LengthUntil(ts: seq<Token>, operator: string): (n: nat)
    ensures n <= |ts|
  {
    if ts == [] || Peek(ts, operator) then 0 else 1 + LengthUntil(ts[1..], operator)
  }

  predicate EndsExpression(ts: seq<Token>, terminator: string) {
    ts == [] || Peek(ts, "|=") || Peek(ts, "&&") || Peek(ts, "==>") || Peek(ts, terminator)
  }

  function ExpressionLength(ts: seq<Token>, terminator: string): (n: nat)
    ensures n <= |ts|
  {
    if EndsExpression(ts, terminator) then 0 else 1 + ExpressionLength(ts[1..], terminator)
  }

  function ParseRustUntil(syntax: Syntax, ts: seq<Token>, terminator: string): (r: Parsed<seq<Token>>)
    ensures Leaves(r, Size(ts) - 1)
  {
    var n := ExpressionLength(ts, terminator);
    SizeFrom(ts, n);
    if ContainsRecursive(ts[..n], "==>") then Bad(ImpliesInExpression)
    else if n == 0 then Bad(Expected("expression"))
    else if !syntax.isExpr(ts[..n]) then Bad(RustSyntax)
    else Parsed(ts[..n], ts[n..])
  }

  /** Does something other than an operator on assertions follow the first token? */
  predicate IsPartOfRustExpr(ts: seq<Token>) {
    ts != [] && !(Peek(ts[1..], "|=") || Peek(ts[1..], "&&") || Peek(ts[1..], "==>") || ts[1..] == [])
  }

  // ----- assertions -----

  function ExtractAssertion(syntax: Syntax, ts: seq<Token>): (r: Parsed<Assertion>)
    ensures r.Parsed? ==> r.rest == []
    decreases Size(ts), 5
  {
    if ts == [] then Parsed(And([]), [])
    else if BothAndOr(ts) then Bad(AmbiguousExpression)
    else
      match ParsePrusti(syntax, ts)
      case Bad(e) => Bad(e)
      case Parsed(a, rest) => if rest == [] then Parsed(a, []) else Bad(Unexpected)
  }

  function ParsePrusti(syntax: Syntax, ts: seq<Token>): (r: Parsed<Assertion>)
    ensures Leaves(r, Size(ts) - 1)
    decreases Size(ts), 4
  {
    match ParseConjunction(syntax, ts)
    case Bad(e) => Bad(e)
    case Parsed(left, rest) =>
      if Peek(rest, "==>") then
        SizeFrom(rest, 3);
        match ParsePrusti(syntax, rest[3..])
        case Bad(e) => Bad(e)
        case Parsed(right, last) => Parsed(Implies(left, right), last)
      else Parsed(left, rest)
  }

  function ParseConjunction(syntax: Syntax, ts: seq<Token>): (r: Parsed<Assertion>)
    ensures Leaves(r, Size(ts) - 1)
    decreases Size(ts), 3
  {
    match ParseConjuncts(syntax, ts)
    case Bad(e) => Bad(e)
    case Parsed(conjuncts, rest) => Parsed(if |conjuncts| == 1 then conjuncts[0] else And(conjuncts), rest)
  }

  function ParseConjuncts(syntax: Syntax, ts: seq<Token>): (r: Parsed<seq<Assertion>>)
    ensures Leaves(r, Size(ts) - 1) && (r.Parsed? ==> r.value != [])
    decreases Size(ts), 2
  {
    match ParseEntailment(syntax, ts)
    case Bad(e) => Bad(e)
    case Parsed(first, rest) =>
      if Peek(rest, "&&") then
        SizeFrom(rest, 2);
        match ParseConjuncts(syntax, rest[2..])
        case Bad(e) => Bad(e)
        case Parsed(others, last) => Parsed([first] + others, last)
      else Parsed([first], rest)
  }

  function ParseEntailment(syntax: Syntax, ts: seq<Token>): (r: Parsed<Assertion>)
    ensures Leaves(r, Size(ts) - 1)
    decreases Size(ts), 1
  {
    if (PeekGroup(ts, Parenthesis) && !IsPartOfRustExpr(ts)) || PeekKeyword(ts, "forall") || PeekKeyword(ts, "exists")
    then ParsePrimary(syntax, ts)
    else
      match ParseRustUntil(syntax, ts, ",")
      case Bad(e) => Bad(e)
      case Parsed(closure, rest) =>
        if !Peek(rest, "|=") then Parsed(Expr(closure), rest)
        else
          SizeFrom(rest, 2);
          match ParseEntailmentArgs(syntax, rest[2..])
          case Bad(e) => Bad(e)
          case Parsed(vars, last) =>
            if !PeekGroup(last, Bracket) then Bad(Expected("`[`"))
            else
              match ExtractEntailmentRhs(syntax, last[0].tokens, true, [], [])
              case Bad(e) => Bad(e)
              case Parsed((pres, posts), _) => Parsed(SpecEntailment(closure, vars, pres, posts), last[1..])
  }

  /** The optional arguments of an entailment, between bars. */
  function ParseEntailmentArgs(syntax: Syntax, ts: seq<Token>): (r: Parsed<seq<Token>>)
    ensures Leaves(r, Size(ts))
  {
    if !Peek(ts, "|") then Parsed([], ts)
    else
      SizeFrom(ts, 1);
      var n := LengthUntil(ts[1..], "|");
      SizeFrom(ts[1..], n);
      var vars, rest := ts[1..][..n], ts[1..][n..];
      if !syntax.isArgs(vars) then Bad(RustSyntax)
      else if !Peek(rest, "|") then Bad(Expected("`|`"))
      else
        SizeFrom(rest, 1);
        Parsed(vars, rest[1..])
  }

  /** The preconditions and postconditions from here on, after those already found. */
  function ExtractEntailmentRhs(syntax: Syntax, ts: seq<Token>, first: bool, pres: seq<Assertion>,
                                posts: seq<Assertion>): (r: Parsed<(seq<Assertion>, seq<Assertion>)>)
    ensures r.Parsed? ==> r.rest == []
    decreases Size(ts), 6
  {
    if ts == [] then Parsed((pres, posts), [])
    else if !first && !Peek(ts, ",") then Bad(Expected("`,`"))
    else
      var next := if first then ts else ts[1..];
      SizeFrom(ts, 1);
      if PeekKeyword(next, "requires") || PeekKeyword(next, "ensures") then
        SizeFrom(next, 1);
        if !PeekGroup(next[1..], Parenthesis) then Bad(Expected("`(`"))
        else
          match ExtractAssertion(syntax, next[1].tokens)
          case Bad(e) => Bad(e)
          case Parsed(a, _) =>
            SizeFrom(next, 2);
            if PeekKeyword(next, "requires") then ExtractEntailmentRhs(syntax, next[2..], false, pres + [a], posts)
            else ExtractEntailmentRhs(syntax, next[2..], false, pres, posts + [a])
      else Bad(Expected("`requires` or `ensures`"))
  }

  function ParsePrimary(syntax: Syntax, ts: seq<Token>): (r: Parsed<Assertion>)
    ensures Leaves(r, Size(ts) - 1)
    decreases Size(ts), 0
  {
    if PeekGroup(ts, Parenthesis) then
      match ExtractAssertion(syntax, ts[0].tokens)
      case Bad(e) => Bad(e)
      case Parsed(a, _) => Parsed(a, ts[1..])
    else if PeekKeyword(ts, "forall") || PeekKeyword(ts, "exists") then
      SizeFrom(ts, 1);
      if !PeekGroup(ts[1..], Parenthesis) then Bad(Expected("`(`"))
      else
        SizeFrom(ts, 2);
        match ExtractQuantifierRhs(syntax, ts[1].tokens, ts[0] == Ident("exists"))
        case Bad(e) => Bad(e)
        case Parsed(a, _) => Parsed(a, ts[2..])
    else Bad(Expected("`(`, `forall` or `exists`"))
  }

  /** The arguments, body and triggers of a quantifier. Tokens that are left after the body are not looked at. */
  function ExtractQuantifierRhs(syntax: Syntax, ts: seq<Token>, existential: bool): (r: Parsed<Assertion>)
    decreases Size(ts), 5
  {
    if !Peek(ts, "|") then Bad(Expected("`|`"))
    else
      SizeFrom(ts, 1);
      var n := LengthUntil(ts[1..], "|");
      SizeFrom(ts[1..], n);
      var vars, bar := ts[1..][..n], ts[1..][n..];
      if vars == [] then Bad(NoQuantifierArguments)
      else if !syntax.isArgs(vars) then Bad(RustSyntax)
      else if !Peek(bar, "|") then Bad(Expected("`|`"))
      else
        SizeFrom(bar, 1);
        match ParsePrusti(syntax, bar[1..])
        case Bad(e) => Bad(e)
        case Parsed(body, rest) =>
          match ParseTriggers(syntax, rest)
          case Bad(e) => Bad(e)
          case Parsed(triggers, last) =>
            Parsed(if existential then Exists(vars, triggers, body) else ForAll(vars, triggers, body), last)
  }

  function ParseTriggers(syntax: Syntax, ts: seq<Token>): Parsed<seq<Token>> {
    if !Peek(ts, ",") then Parsed([], ts)
    else if !PeekKeyword(ts[1..], "triggers") then Bad(Expected("`triggers`"))
    else if !Peek(ts[2..], "=") then Bad(Expected("`=`"))
    else if !syntax.isTriggers(ts[3..]) then Bad(TriggersNotTuples)
    else Parsed(ts[3..], [])
  }
}
