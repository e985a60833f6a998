/** The parser as it runs: it takes tokens from the front of those that are left. */
module TokenParser {
  import opened Tokens
  import opened Preparser

  datatype Outcome<+T> = Success(value: T) | Failure(error: Error)

  /** The outcome and the tokens left are as parsed. After an error nothing is said about the tokens. */
  ghost predicate Agrees<T>(r: Outcome<T>, left: seq<Token>, p: Parsed<T>) {
    match p
    case Bad(e) => r == Failure(e)
    case Parsed(value, rest) => r == Success(value) && left == rest
  }

  /** The conjunction, given the conjuncts before the tokens. */
  ghost function Continue(syntax: Syntax, conjuncts: seq<Assertion>, ts: seq<Token>): Parsed<seq<Assertion>> {
    if !Peek(ts, "&&") then Parsed(conjuncts, ts)
    else
      match ParseConjuncts(syntax, ts[2..])
      case Bad(e) => Bad(e)
      case Parsed(others, last) => Parsed(conjuncts + others, last)
  }

  lemma ContinueNext(syntax: Syntax, conjuncts: seq<Assertion>, ts: seq<Token>)
    requires Peek(ts, "&&")
    ensures var next := ParseEntailment(syntax, ts[2..]);
            Continue(syntax, conjuncts, ts) ==
            if next.Bad? then Bad(next.error) else Continue(syntax, conjuncts + [next.value], next.rest)
  {
    var next := ParseEntailment(syntax, ts[2..]);
    if next.Parsed? && Peek(next.rest, "&&") {
      var others := ParseConjuncts(syntax, next.rest[2..]);
      if others.Parsed? {
        assert conjuncts + ([next.value] + others.value) == conjuncts + [next.value] + others.value;
      }
    }
  }

  class Parser {
    const syntax: Syntax
    var tokens: seq<Token>

    constructor (syntax: Syntax, tokens: seq<Token>)
      ensures this.syntax == syntax && this.tokens == tokens
    {
      this.syntax := syntax;
      this.tokens := tokens;
    }

    method Pop() returns (token: Token)
      requires tokens != []
      modifies this
      ensures token == old(tokens)[0] && tokens == old(tokens)[1..]
    {
      token := tokens[0];
      tokens := tokens[1..];
    }

    method ConsumeOperator(operator: string) returns (found: bool)
      modifies this
      ensures found == Peek(old(tokens), operator)
      ensures tokens == if found then old(tokens)[|operator|..] else old(tokens)
    {
      found := Peek(tokens, operator);
      if found {
        tokens := tokens[|operator|..];
      }
    }

    method ConsumeKeyword(keyword: string) returns (found: bool)
      modifies this
      ensures found == PeekKeyword(old(tokens), keyword)
      ensures tokens == if found then old(tokens)[1..] else old(tokens)
    {
      found := PeekKeyword(tokens, keyword);
      if found {
        tokens := tokens[1..];
      }
    }

    /** The tokens inside the group, if one with the delimiter is next. */
    method ConsumeGroup(delimiter: Delimiter) returns (found: bool, stream: seq<Token>)
      modifies this
      ensures found == PeekGroup(old(tokens), delimiter)
      ensures found ==> stream == old(tokens)[0].tokens && tokens == old(tokens)[1..]
      ensures !found ==> tokens == old(tokens)
    {
      found := PeekGroup(tokens, delimiter);
      stream := [];
      if found {
        stream := tokens[0].tokens;
        tokens := tokens[1..];
      }
    }

    method CreateStreamUntil(operator: string) returns (stream: seq<Token>)
      modifies this
      ensures var n := LengthUntil(old(tokens), operator);
              stream == old(tokens)[..n] && tokens == old(tokens)[n..]
    {
      stream := [];
      ghost var all := tokens;
      while !Peek(tokens, operator) && tokens != []
        invariant |stream| <= |all| && stream == all[..|stream|] && tokens == all[|stream|..]
        invariant LengthUntil(all, operator) == |stream| + LengthUntil(tokens, operator)
        decreases |tokens|
      {
        var token := Pop();
        stream := stream + [token];
      }
    }

    method ParseRustUntil(terminator: string) returns (r: Outcome<seq<Token>>)
      modifies this
      ensures Agrees(r, tokens, Preparser.ParseRustUntil(syntax, old(tokens), terminator))
    {
      var stream := [];
      ghost var all := tokens;
      while !Peek(tokens, "|=") && !Peek(tokens, "&&") && !Peek(tokens, "==>") &&
            !Peek(tokens, terminator) && tokens != []
        invariant |stream| <= |all| && stream == all[..|stream|] && tokens == all[|stream|..]
        invariant ExpressionLength(all, terminator) == |stream| + ExpressionLength(tokens, terminator)
        decreases |tokens|
      {
        var token := Pop();
        stream := stream + [token];
      }
      var implies := ContainsOperatorRecursive(stream, "==>");
      if implies {
        return Failure(ImpliesInExpression);
      }
      if stream == [] {
        return Failure(Expected("expression"));
      }
      if !syntax.isExpr(stream) {
        return Failure(RustSyntax);
      }
      return Success(stream);
    }

    method ExtractAssertion() returns (r: Outcome<Assertion>)
      modifies this
      ensures Agrees(r, tokens, Preparser.ExtractAssertion(syntax, old(tokens)))
      decreases Size(tokens), 5
    {
      if tokens == [] {
        return Success(And([]));
      }
      var ambiguous := ContainsBothAndOr(tokens);
      if ambiguous {
        return Failure(AmbiguousExpression);
      }
      r := ParsePrusti();
      if r.Success? && tokens != [] {
        return Failure(Unexpected);
      }
    }

    method ParsePrusti() returns (r: Outcome<Assertion>)
      modifies this
      ensures Agrees(r, tokens, Preparser.ParsePrusti(syntax, old(tokens)))
      decreases Size(tokens), 4
    {
      var left := ParseConjunction();
      if left.Failure? {
        return left;
      }
      SizeFrom(tokens, if Peek(tokens, "==>") then 3 else 0);
      var implies := ConsumeOperator("==>");
      if !implies {
        return left;
      }
      var right := ParsePrusti();
      if right.Failure? {
        return right;
      }
      return Success(Implies(left.value, right.value));
    }

    method ParseConjunction() returns (r: Outcome<Assertion>)
      modifies this
      ensures Agrees(r, tokens, Preparser.ParseConjunction(syntax, old(tokens)))
      decreases Size(tokens), 3
    {
      ghost var all := tokens;
      var first := ParseEntailment();
      if first.Failure? {
        return first;
      }
      var conjuncts := [first.value];
      assert ParseConjuncts(syntax, all) == Continue(syntax, conjuncts, tokens);
      while true
        invariant conjuncts != [] && Size(tokens) < Size(all)
        invariant ParseConjuncts(syntax, all) == Continue(syntax, conjuncts, tokens)
        decreases Size(tokens)
      {
        ghost var before := tokens;
        SizeFrom(tokens, if Peek(tokens, "&&") then 2 else 0);
        var more := ConsumeOperator("&&");
        if !more {
          break;
        }
        ContinueNext(syntax, conjuncts, before);
        var next := ParseEntailment();
        if next.Failure? {
          return next;
        }
        conjuncts := conjuncts + [next.value];
      }
      return Success(if |conjuncts| == 1 then conjuncts[0] else And(conjuncts));
    }

    method ParseEntailment() returns (r: Outcome<Assertion>)
      modifies this
      ensures Agrees(r, tokens, Preparser.ParseEntailment(syntax, old(tokens)))
      decreases Size(tokens), 2
    {
      if (PeekGroup(tokens, Parenthesis) && !IsPartOfRustExpr(tokens)) ||
         PeekKeyword(tokens, "forall") || PeekKeyword(tokens, "exists")
      {
        r := ParsePrimary();
        return;
      }
      var closure := ParseRustUntil(",");
      if closure.Failure? {
        return Failure(closure.error);
      }
      SizeFrom(tokens, if Peek(tokens, "|=") then 2 else 0);
      var entails := ConsumeOperator("|=");
      if !entails {
        return Success(Expr(closure.value));
      }
      var vars := ParseEntailmentArgs();
      if vars.Failure? {
        return Failure(vars.error);
      }
      ghost var before := tokens;
      var found, stream := ConsumeGroup(Bracket);
      if !found {
        return Failure(Expected("`[`"));
      }
      assert Size(stream) < Size(before);
      var rhs := new Parser(syntax, stream);
      var conditions := rhs.ExtractEntailmentRhs();
      if conditions.Failure? {
        return Failure(conditions.error);
      }
      return Success(SpecEntailment(closure.value, vars.value, conditions.value.0, conditions.value.1));
    }

    method ParseEntailmentArgs() returns (r: Outcome<seq<Token>>)
      modifies this
      ensures Agrees(r, tokens, Preparser.ParseEntailmentArgs(syntax, old(tokens)))
    {
      var open := ConsumeOperator("|");
      if !open {
        return Success([]);
      }
      var vars := CreateStreamUntil("|");
      if !syntax.isArgs(vars) {
        return Failure(RustSyntax);
      }
      var close := ConsumeOperator("|");
      if !close {
        return Failure(Expected("`|`"));
      }
      return Success(vars);
    }

    method ExtractEntailmentRhs() returns (r: Outcome<(seq<Assertion>, seq<Assertion>)>)
      modifies this
      ensures Agrees(r, tokens, Preparser.ExtractEntailmentRhs(syntax, old(tokens), true, [], []))
      decreases Size(tokens), 6
    {
      var pres, posts := [], [];
      var first := true;
      ghost var all := tokens;
      while tokens != []
        invariant Size(tokens) <= Size(all)
        invariant Preparser.ExtractEntailmentRhs(syntax, all, true, [], []) ==
                  Preparser.ExtractEntailmentRhs(syntax, tokens, first, pres, posts)
        decreases |tokens|
      {
        SizeFrom(tokens, 1);
        if !first {
          var comma := ConsumeOperator(",");
          if !comma {
            return Failure(Expected("`,`"));
          }
        }
        first := false;
        ghost var next := tokens;
        SizeFrom(next, if next == [] then 0 else 1);
        SizeFrom(next, if |next| < 2 then 0 else 2);
        var isRequires := ConsumeKeyword("requires");
        var isEnsures := false;
        if !isRequires {
          isEnsures := ConsumeKeyword("ensures");
        }
        if !isRequires && !isEnsures {
          return Failure(Expected("`requires` or `ensures`"));
        }
        var found, stream := ConsumeGroup(Parenthesis);
        if !found {
          return Failure(Expected("`(`"));
        }
        assert stream == next[1].tokens && tokens == next[2..];
        var inner := new Parser(syntax, stream);
        var assertion := inner.ExtractAssertion();
        if assertion.Failure? {
          return Failure(assertion.error);
        }
        if isRequires {
          pres := pres + [assertion.value];
        } else {
          posts := posts + [assertion.value];
        }
      }
      return Success((pres, posts));
    }

    method ParsePrimary() returns (r: Outcome<Assertion>)
      modifies this
      ensures Agrees(r, tokens, Preparser.ParsePrimary(syntax, old(tokens)))
      decreases Size(tokens), 1
    {
      ghost var all := tokens;
      SizeFrom(all, if all == [] then 0 else 1);
      var found, stream := ConsumeGroup(Parenthesis);
      if found {
        var inner := new Parser(syntax, stream);
        r := inner.ExtractAssertion();
        return;
      }
      var isForall := ConsumeKeyword("forall");
      var isExists := false;
      if !isForall {
        isExists := ConsumeKeyword("exists");
      }
      if !isForall && !isExists {
        return Failure(Expected("`(`, `forall` or `exists`"));
      }
      found, stream := ConsumeGroup(Parenthesis);
      if !found {
        return Failure(Expected("`(`"));
      }
      assert all[1..][0] == all[1] && stream == all[1].tokens;
      var rhs := new Parser(syntax, stream);
      r := rhs.ExtractQuantifierRhs(isExists);
    }

    method ExtractQuantifierRhs(existential: bool) returns (r: Outcome<Assertion>)
      modifies this
      ensures Agrees(r, tokens, Preparser.ExtractQuantifierRhs(syntax, old(tokens), existential))
      decreases Size(tokens), 5
    {
      ghost var all := tokens;
      SizeFrom(all, if Peek(all, "|") then 1 else 0);
      var open := ConsumeOperator("|");
      if !open {
        return Failure(Expected("`|`"));
      }
      SizeFrom(tokens, LengthUntil(tokens, "|"));
      var vars := CreateStreamUntil("|");
      if vars == [] {
        return Failure(NoQuantifierArguments);
      }
      if !syntax.isArgs(vars) {
        return Failure(RustSyntax);
      }
      SizeFrom(tokens, if Peek(tokens, "|") then 1 else 0);
      var close := ConsumeOperator("|");
      if !close {
        return Failure(Expected("`|`"));
      }
      var body := ParsePrusti();
      if body.Failure? {
        return body;
      }
      var triggers := ParseTriggers();
      if triggers.Failure? {
        return Failure(triggers.error);
      }
      return Success(if existential then Exists(vars, triggers.value, body.value)
                     else ForAll(vars, triggers.value, body.value));
    }

    method ParseTriggers() returns (r: Outcome<seq<Token>>)
      modifies this
      ensures Agrees(r, tokens, Preparser.ParseTriggers(syntax, old(tokens)))
    {
      ghost var all := tokens;
      var comma := ConsumeOperator(",");
      if !comma {
        return Success([]);
      }
      var keyword := ConsumeKeyword("triggers");
      if !keyword {
        return Failure(Expected("`triggers`"));
      }
      var equals := ConsumeOperator("=");
      if !equals {
        return Failure(Expected("`=`"));
      }
      var stream := tokens;
      tokens := [];
      assert stream == all[3..];
      if !syntax.isTriggers(stream) {
        return Failure(TriggersNotTuples);
      }
      return Success(stream);
    }
  }
}
