/**
 The parser of quantifiers does not look at tokens that are left after the body. Which tokens
 those are, for every sequence of tokens, and how bodies come to leave them.
 */
module IgnoredTokens {
  import opened Sequences
  import opened Tokens
  import opened Preparser
  import opened PrintedAssertions
  import opened ParsePrinted

  predicate IsQuantifier(ts: seq<Token>) {
    PeekKeyword(ts, "forall") || PeekKeyword(ts, "exists")
  }

  /** Do the tokens start with a group that is not part of a Rust expression? */
  predicate IsGroup(ts: seq<Token>) {
    PeekGroup(ts, Parenthesis) && !IsPartOfRustExpr(ts)
  }

  /** The tokens after the optional arguments between bars. */
  function AfterArgs(ts: seq<Token>): (rest: seq<Token>)
    ensures |rest| <= |ts|
  {
    if !Peek(ts, "|") then ts
    else
      var bar := ts[1..][LengthUntil(ts[1..], "|")..];
      if bar == [] then [] else bar[1..]
  }

  /** The tokens that a conjunct which starts here does not use. */
  function AfterConjunct(ts: seq<Token>): (rest: seq<Token>)
    ensures |rest| <= |ts|
  {
    if IsQuantifier(ts) then if |ts| > 2 then ts[2..] else []
    else if IsGroup(ts) then ts[1..]
    else
      var rest := ts[ExpressionLength(ts, ",")..];
      if !Peek(rest, "|=") then rest
      else
        var conditions := AfterArgs(rest[2..]);
        if conditions == [] then [] else conditions[1..]
  }

  /** The tokens from the last conjunct on, found without parsing what is inside of the conjuncts. */
  function LastConjunct(ts: seq<Token>): seq<Token>
    decreases |ts|
  {
    var rest := AfterConjunct(ts);
    if Peek(rest, "&&") then LastConjunct(rest[2..])
    else if Peek(rest, "==>") then LastConjunct(rest[3..])
    else ts
  }

  /**
   Are there tokens after the last conjunct that no one looks at? They do not start with a comma, so
   they come after a quantifier or an entailment, or are an `|=` after a group.
   */
  predicate LeavesIgnored(last: seq<Token>) {
    var rest := AfterConjunct(last);
    rest != [] && !Peek(rest, ",")
  }

  lemma ArgsLeave(syntax: Syntax, ts: seq<Token>)
    ensures var r := ParseEntailmentArgs(syntax, ts); r.Parsed? ==> r.rest == AfterArgs(ts)
  {
  }

  lemma PrimaryLeaves(syntax: Syntax, ts: seq<Token>)
    requires IsQuantifier(ts) || PeekGroup(ts, Parenthesis)
    ensures var r := ParsePrimary(syntax, ts);
            r.Parsed? ==> if IsQuantifier(ts) then |ts| > 1 && r.rest == ts[2..] else r.rest == ts[1..]
  {
  }

  /** A conjunct that parses leaves the tokens that it does not use. */
  lemma ConjunctLeaves(syntax: Syntax, ts: seq<Token>)
    ensures var r := ParseEntailment(syntax, ts); r.Parsed? ==> r.rest == AfterConjunct(ts)
  {
    if IsQuantifier(ts) || IsGroup(ts) {
      PrimaryLeaves(syntax, ts);
    } else {
      var rest := ts[ExpressionLength(ts, ",")..];
      if Peek(rest, "|=") {
        ArgsLeave(syntax, rest[2..]);
      }
    }
  }

  lemma {:induction false} ConjunctsLeave(syntax: Syntax, ts: seq<Token>)
    ensures var r := ParseConjuncts(syntax, ts);
            r.Parsed? ==>
              && !Peek(r.rest, "&&")
              && if Peek(r.rest, "==>") then LastConjunct(ts) == LastConjunct(r.rest[3..])
                 else ParseEntailment(syntax, LastConjunct(ts)).Parsed? &&
                      ParseEntailment(syntax, LastConjunct(ts)).rest == r.rest
    decreases Size(ts)
  {
    ConjunctLeaves(syntax, ts);
    var first := ParseEntailment(syntax, ts);
    if first.Parsed? && Peek(first.rest, "&&") {
      SizeFrom(first.rest, 2);
      ConjunctsLeave(syntax, first.rest[2..]);
    }
  }

  /** What is left after an assertion is left after its last conjunct. */
  lemma {:induction false} AssertionLeaves(syntax: Syntax, ts: seq<Token>)
    ensures var r := ParsePrusti(syntax, ts);
            r.Parsed? ==>
              && !Peek(r.rest, "&&") && !Peek(r.rest, "==>")
              && ParseEntailment(syntax, LastConjunct(ts)).Parsed?
              && ParseEntailment(syntax, LastConjunct(ts)).rest == r.rest
    decreases Size(ts)
  {
    ConjunctsLeave(syntax, ts);
    var left := ParseConjunction(syntax, ts);
    if left.Parsed? && Peek(left.rest, "==>") {
      SizeFrom(left.rest, 3);
      AssertionLeaves(syntax, left.rest[3..]);
    }
  }

  /** A quantifier that parses has used all of its tokens, unless its body leaves some that are ignored. */
  lemma IgnoresExactly(syntax: Syntax, vars: seq<Token>, tail: seq<Token>, existential: bool)
    requires ArgsOk(syntax, vars)
    ensures var r := ExtractQuantifierRhs(syntax, BAR + vars + BAR + tail, existential);
            r.Parsed? ==> (r.rest != [] <==> LeavesIgnored(LastConjunct(tail)))
  {
    QuantifierAfter(syntax, vars, tail, existential);
    AssertionLeaves(syntax, tail);
    ConjunctLeaves(syntax, LastConjunct(tail));
  }

  /**
   Tokens are an assertion exactly if they are unambiguous, parse, and leave nothing after their last conjunct.
   Anything that is left, a comma included, is an error.
   */
  lemma ExtractsExactly(syntax: Syntax, ts: seq<Token>)
    requires ts != []
    ensures var r, parsed := ExtractAssertion(syntax, ts), ParsePrusti(syntax, ts);
            r == if Ambiguous(ts) then Bad(AmbiguousExpression)
                 else if parsed.Bad? then Bad(parsed.error)
                 else if AfterConjunct(LastConjunct(ts)) == [] then Parsed(parsed.value, [])
                 else Bad(Unexpected)
  {
    AmbiguousExactly(ts);
    AssertionLeaves(syntax, ts);
    ConjunctLeaves(syntax, LastConjunct(ts));
  }

  // ----- bodies that leave tokens to be ignored -----

  /** More tokens at the end are left over, and change nothing else. */
  ghost predicate Extends(syntax: Syntax, ts: seq<Token>, k: seq<Token>) {
    var r := ParseEntailment(syntax, ts);
    r.Parsed? && ParseEntailment(syntax, ts + k) == Parsed(r.value, r.rest + k)
  }

  predicate IsOperator(ts: seq<Token>) {
    Peek(ts, "|=") || Peek(ts, "&&") || Peek(ts, "==>")
  }

  lemma OperatorExtends(ts: seq<Token>, k: seq<Token>)
    ensures IsOperator(ts) ==> IsOperator(ts + k)
    ensures |ts| >= 3 ==> (EndsExpression(ts, ",") <==> EndsExpression(ts + k, ","))
    ensures Peek(ts, "|=") ==> Peek(ts + k, "|=")
    ensures Peek(ts, "&&") ==> Peek(ts + k, "&&")
    ensures Peek(ts, "==>") ==> Peek(ts + k, "==>")
    ensures IsOperator(ts) ==> |ts| >= 2
    ensures Peek(ts, "&&") || Peek(ts, "==>") ==> !Peek(ts + k, "|=")
  {
    Spelled(ts, 0);
    Spelled(ts + k, 0);
  }

  lemma {:induction false} LengthExtends(ts: seq<Token>, k: seq<Token>)
    requires IsOperator(ts[ExpressionLength(ts, ",")..])
    ensures ExpressionLength(ts + k, ",") == ExpressionLength(ts, ",")
  {
    OperatorExtends(ts, k);
    if !EndsExpression(ts, ",") {
      assert ts[1..][ExpressionLength(ts[1..], ",")..] == ts[ExpressionLength(ts, ",")..];
      OperatorExtends(ts[ExpressionLength(ts, ",")..], k);
      assert (ts + k)[1..] == ts[1..] + k;
      LengthExtends(ts[1..], k);
    } else {
      assert ts[0..] == ts;
    }
  }

  lemma {:induction false} UntilExtends(ts: seq<Token>, k: seq<Token>)
    requires Peek(ts[LengthUntil(ts, "|")..], "|")
    ensures LengthUntil(ts + k, "|") == LengthUntil(ts, "|")
  {
    Spelled(ts, 0);
    Spelled(ts + k, 0);
    if ts != [] && !Peek(ts, "|") {
      assert ts[1..][LengthUntil(ts[1..], "|")..] == ts[LengthUntil(ts, "|")..];
      assert (ts + k)[1..] == ts[1..] + k;
      UntilExtends(ts[1..], k);
    }
  }

  lemma ArgsExtend(syntax: Syntax, ts: seq<Token>, k: seq<Token>)
    requires ParseEntailmentArgs(syntax, ts).Parsed? && ParseEntailmentArgs(syntax, ts).rest != []
    ensures var r := ParseEntailmentArgs(syntax, ts);
            ParseEntailmentArgs(syntax, ts + k) == Parsed(r.value, r.rest + k)
  {
    if Peek(ts, "|") {
      OperatorAlone(ts, k);
      BarsExtend(ts[1..], k);
      SplitLonger(ts, k, 1);
    } else {
      OperatorAlone(ts, k);
    }
  }

  lemma OperatorAlone(ts: seq<Token>, k: seq<Token>)
    requires ts != []
    ensures Peek(ts + k, "|") <==> Peek(ts, "|")
  {
    Spelled(ts, 0);
    Spelled(ts + k, 0);
  }

  lemma BarsExtend(ts: seq<Token>, k: seq<Token>)
    ensures var n := LengthUntil(ts, "|");
            Peek(ts[n..], "|") ==>
              && LengthUntil(ts + k, "|") == n
              && (ts + k)[..n] == ts[..n]
              && Peek((ts + k)[n..], "|")
              && (ts + k)[n..][1..] == ts[n..][1..] + k
  {
    var n := LengthUntil(ts, "|");
    if Peek(ts[n..], "|") {
      UntilExtends(ts, k);
      SplitLonger(ts, k, n);
      OperatorAlone(ts[n..], k);
      SplitLonger(ts[n..], k, 1);
    }
  }

  lemma QuantifierExtends(syntax: Syntax, ts: seq<Token>, k: seq<Token>)
    requires IsQuantifier(ts) && ParseEntailment(syntax, ts).Parsed?
    ensures Extends(syntax, ts, k)
  {
    assert (ts + k)[1..] == ts[1..] + k && (ts + k)[2..] == ts[2..] + k;
    assert (ts + k)[0] == ts[0] && (ts + k)[1] == ts[1];
  }

  lemma GroupExtends(syntax: Syntax, ts: seq<Token>, k: seq<Token>)
    requires IsGroup(ts) && ParseEntailment(syntax, ts).Parsed?
    requires IsOperator(ts[1..] + k) || ts[1..] + k == []
    ensures Extends(syntax, ts, k)
  {
    assert (ts + k)[1..] == ts[1..] + k && (ts + k)[0] == ts[0];
  }

  lemma GroupStays(ts: seq<Token>, k: seq<Token>)
    requires IsOperator(ts[ExpressionLength(ts, ",")..]) && ExpressionLength(ts, ",") > 0
    ensures IsGroup(ts + k) <==> IsGroup(ts)
    ensures IsQuantifier(ts + k) <==> IsQuantifier(ts)
  {
    var n := ExpressionLength(ts, ",");
    assert (ts + k)[0] == ts[0];
    OperatorExtends(ts[n..], k);
    SplitLonger(ts, k, 1);
    OperatorExtends(ts[1..], k);
  }

  /** A Rust expression, or the closure of an entailment, in front of an operator. */
  lemma RustExtends(syntax: Syntax, ts: seq<Token>, k: seq<Token>)
    requires IsOperator(ts[ExpressionLength(ts, ",")..])
    ensures var n, r := ExpressionLength(ts, ","), ParseRustUntil(syntax, ts, ",");
            r.Parsed? ==>
              n > 0 && r.rest == ts[n..] && ParseRustUntil(syntax, ts + k, ",") == Parsed(r.value, ts[n..] + k)
  {
    LengthExtends(ts, k);
    SplitLonger(ts, k, ExpressionLength(ts, ","));
  }

  lemma ExpressionExtends(syntax: Syntax, ts: seq<Token>, k: seq<Token>)
    requires ParseEntailment(syntax, ts).Parsed?
    requires !IsQuantifier(ts) && !IsGroup(ts) && IsOperator(ts[ExpressionLength(ts, ",")..])
    ensures Extends(syntax, ts, k)
  {
    RustExtends(syntax, ts, k);
    GroupStays(ts, k);
    var rest := ts[ExpressionLength(ts, ",")..];
    OperatorExtends(rest, k);
    if Peek(rest, "|=") {
      var args := ParseEntailmentArgs(syntax, rest[2..]);
      SplitLonger(rest, k, 2);
      ArgsExtend(syntax, rest[2..], k);
      SplitLonger(args.rest, k, 1);
      SplitLonger(args.rest, k, 0);
    }
  }

  /** A conjunct in front of `&&` or `==>` does not depend on what comes later. */
  lemma ConjunctExtends(syntax: Syntax, ts: seq<Token>, k: seq<Token>)
    requires ParseEntailment(syntax, ts).Parsed?
    requires Peek(ParseEntailment(syntax, ts).rest, "&&") || Peek(ParseEntailment(syntax, ts).rest, "==>")
    ensures Extends(syntax, ts, k)
  {
    OperatorExtends(ParseEntailment(syntax, ts).rest, k);
    if IsQuantifier(ts) {
      QuantifierExtends(syntax, ts, k);
    } else if IsGroup(ts) {
      GroupExtends(syntax, ts, k);
    } else {
      var rest := ts[ExpressionLength(ts, ",")..];
      ExpressionEnds(ts);
      ExpressionExtends(syntax, ts, k);
    }
  }

  lemma {:induction false} ConjunctsExtend(syntax: Syntax, ts: seq<Token>, k: seq<Token>)
    requires ParseConjuncts(syntax, ts).Parsed? && !Peek(k, "&&")
    requires var rest := ParseConjuncts(syntax, ts).rest;
             Peek(rest, "==>") || (rest == [] && Extends(syntax, LastConjunct(ts), k))
    ensures var r := ParseConjuncts(syntax, ts); ParseConjuncts(syntax, ts + k) == Parsed(r.value, r.rest + k)
    decreases Size(ts)
  {
    ConjunctLeaves(syntax, ts);
    var first := ParseEntailment(syntax, ts);
    OperatorExtends(first.rest, k);
    if Peek(first.rest, "&&") {
      ConjunctExtends(syntax, ts, k);
      SizeFrom(first.rest, 2);
      assert (first.rest + k)[2..] == first.rest[2..] + k;
      ConjunctsExtend(syntax, first.rest[2..], k);
    } else if Peek(first.rest, "==>") {
      ConjunctExtends(syntax, ts, k);
      Spelled(first.rest + k, 0);
    } else {
      assert [] + k == k;
    }
  }

  lemma {:induction false} AssertionExtends(syntax: Syntax, ts: seq<Token>, a: Assertion, k: seq<Token>)
    requires ParsePrusti(syntax, ts) == Parsed(a, []) && !Peek(k, "&&") && !Peek(k, "==>")
    requires Extends(syntax, LastConjunct(ts), k)
    ensures ParsePrusti(syntax, ts + k) == Parsed(a, k)
    decreases Size(ts)
  {
    var left := ParseConjuncts(syntax, ts);
    ConjunctsLeave(syntax, ts);
    ConjunctsExtend(syntax, ts, k);
    if Peek(left.rest, "==>") {
      OperatorExtends(left.rest, k);
      SizeFrom(left.rest, 3);
      SplitLonger(left.rest, k, 3);
      AssertionExtends(syntax, left.rest[3..], a.right, k);
    } else {
      assert [] + k == k;
    }
  }

  /** Does the body end with a quantifier or an entailment, or with a group in front of `|=`? */
  predicate IgnoresAfter(last: seq<Token>, junk: seq<Token>) {
    if IsQuantifier(last) then true
    else if IsGroup(last) then Peek(junk, "|=")
    else Peek(last[ExpressionLength(last, ",")..], "|=")
  }

  /**
   After a body that ends with a quantifier or an entailment, tokens that are no operator and no comma are
   left over, and so is an `|=` after a group. At the end of an assertion they are an error; in a quantifier
   they are ignored.
   */
  lemma QuantifierIgnoresRest(syntax: Syntax, vars: seq<Token>, body: seq<Token>, a: Assertion, junk: seq<Token>,
                              existential: bool)
    requires ArgsOk(syntax, vars) && ParsePrusti(syntax, body) == Parsed(a, [])
    requires junk != [] && !Peek(junk, "&&") && !Peek(junk, "==>") && !Peek(junk, ",")
    requires IgnoresAfter(LastConjunct(body), junk)
    ensures ExtractQuantifierRhs(syntax, BAR + vars + BAR + (body + junk), existential) ==
            Parsed(if existential then Exists(vars, [], a) else ForAll(vars, [], a), junk)
    ensures !BothAndOr(body + junk) ==> ExtractAssertion(syntax, body + junk) == Bad(Unexpected)
  {
    var last := LastConjunct(body);
    AssertionLeaves(syntax, body);
    if IsQuantifier(last) {
      QuantifierExtends(syntax, last, junk);
    } else if IsGroup(last) {
      assert last[1..] + junk == junk;
      GroupExtends(syntax, last, junk);
    } else {
      ExpressionExtends(syntax, last, junk);
    }
    AssertionExtends(syntax, body, a, junk);
    QuantifiedParses(syntax, vars, body + junk, a, junk, [], junk, existential);
  }
}
