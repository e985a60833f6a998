/** Token trees, in which an operator is a run of punctuation tokens of one character each. */
module Tokens {

  datatype Delimiter = Parenthesis | Bracket | Brace | NoDelimiter

  datatype Token =
    | Punct(c: char)
    | Ident(name: string)
    | Literal(text: string)
    | Group(delimiter: Delimiter, tokens: seq<Token>)

  /** The number of tokens, including those inside groups. */
  function Size(ts: seq<Token>): nat {
    if ts == [] then 0
    else (if ts[0].Group? then 1 + Size(ts[0].tokens) else 1) + Size(ts[1..])
  }

  lemma {:induction false} SizeFrom(ts: seq<Token>, k: nat)
    requires k <= |ts|
    ensures Size(ts[k..]) + k <= Size(ts)
  {
    if k > 0 {
      SizeFrom(ts[1..], k - 1);
      assert ts[1..][k - 1..] == ts[k..];
    }
  }

  predicate PeekAt(ts: seq<Token>, operator: string, offset: nat) {
    offset + |operator| <= |ts| && forall i :: 0 <= i < |operator| ==> ts[offset + i] == Punct(operator[i])
  }

  predicate Peek(ts: seq<Token>, operator: string) {
    PeekAt(ts, operator, 0)
  }

  predicate PeekKeyword(ts: seq<Token>, keyword: string) {
    ts != [] && ts[0] == Ident(keyword)
  }

  predicate PeekGroup(ts: seq<Token>, delimiter: Delimiter) {
    ts != [] && ts[0].Group? && ts[0].delimiter == delimiter
  }

  // ----- operators anywhere -----

  /** Does the operator appear at some offset, or inside a group? */
  predicate ContainsRecursive(ts: seq<Token>, operator: string)
    decreases ts, 1
  {
    exists offset :: 0 <= offset < |ts| && ContainsAt(ts, operator, offset)
  }

  predicate ContainsAt(ts: seq<Token>, operator: string, offset: nat)
    requires offset < |ts|
    decreases ts, 0
  {
    PeekAt(ts, operator, offset) || (ts[offset].Group? && ContainsRecursive(ts[offset].tokens, operator))
  }

  /** The tokens of the group that the positions lead to, each within the group before it. */
  function Inside(ts: seq<Token>, positions: seq<nat>): seq<Token>
    decreases |positions|
  {
    if positions == [] then ts
    else if positions[0] < |ts| && ts[positions[0]].Group? then Inside(ts[positions[0]].tokens, positions[1..])
    else []
  }

  ghost predicate StartsInside(ts: seq<Token>, operator: string, positions: seq<nat>, offset: nat) {
    offset < |Inside(ts, positions)| && PeekAt(Inside(ts, positions), operator, offset)
  }

  /** The operator starts at the offset or inside the group there. */
  ghost predicate Finds(ts: seq<Token>, operator: string, offset: nat)
    requires offset < |ts|
  {
    ContainsAt(ts, operator, offset)
  }

  lemma ContainsSomewhere(ts: seq<Token>, operator: string)
    ensures ContainsRecursive(ts, operator) <==> exists offset: nat :: offset < |ts| && Finds(ts, operator, offset)
  {
    if offset: nat :| offset < |ts| && Finds(ts, operator, offset) {
      assert ContainsAt(ts, operator, offset);
    } else {
      forall offset | 0 <= offset < |ts|
        ensures !ContainsAt(ts, operator, offset)
      {
        assert !Finds(ts, operator, offset);
      }
    }
  }

  /** The recursive search finds an operator exactly if it starts in the tokens or in a group, however deep. */
  lemma {:induction false} ContainsExactly(ts: seq<Token>, operator: string)
    ensures ContainsRecursive(ts, operator) <==>
            exists positions: seq<nat>, offset: nat :: StartsInside(ts, operator, positions, offset)
    decreases ts
  {
    ContainsSomewhere(ts, operator);
    if ContainsRecursive(ts, operator) {
      var offset: nat :| offset < |ts| && Finds(ts, operator, offset);
      if PeekAt(ts, operator, offset) {
        assert StartsInside(ts, operator, [], offset);
      } else {
        ContainsExactly(ts[offset].tokens, operator);
        var positions: seq<nat>, at: nat :| StartsInside(ts[offset].tokens, operator, positions, at);
        assert ([offset] + positions)[1..] == positions;
        assert StartsInside(ts, operator, [offset] + positions, at);
      }
    }
    if positions: seq<nat>, offset: nat :| StartsInside(ts, operator, positions, offset) {
      if positions == [] {
        assert Finds(ts, operator, offset);
      } else {
        var k := positions[0];
        assert StartsInside(ts[k].tokens, operator, positions[1..], offset);
        ContainsExactly(ts[k].tokens, operator);
        assert Finds(ts, operator, k);
      }
    }
  }

  // ----- ambiguous uses of && and || -----

  /** Scan from `offset` on, having seen the two operators or not since the last `==>`. */
  predicate Scan(ts: seq<Token>, offset: nat, andSeen: bool, orSeen: bool)
    requires offset <= |ts|
    decreases ts, |ts| - offset
  {
    if offset == |ts| then false
    else if PeekAt(ts, "&&", offset) then orSeen || Scan(ts, offset + 1, true, orSeen)
    else if PeekAt(ts, "||", offset) then andSeen || Scan(ts, offset + 1, andSeen, true)
    else if PeekAt(ts, "==>", offset) then Scan(ts, offset + 1, false, false)
    else if ts[offset].Group? && ts[offset].delimiter == Parenthesis && BothAndOr(ts[offset].tokens) then true
    else (andSeen && orSeen) || Scan(ts, offset + 1, andSeen, orSeen)
  }

  /** Some subexpression, in parentheses or separated by `==>`, contains both `&&` and `||`. */
  predicate BothAndOr(ts: seq<Token>)
    decreases ts, |ts| + 1
  {
    Scan(ts, 0, false, false)
  }

  method ContainsBothAndOr(stream: seq<Token>) returns (found: bool)
    ensures found == BothAndOr(stream)
    decreases stream
  {
    var andSeen, orSeen := false, false;
    for offset := 0 to |stream|
      invariant !(andSeen && orSeen)
      invariant BothAndOr(stream) == Scan(stream, offset, andSeen, orSeen)
    {
      if PeekAt(stream, "&&", offset) {
        andSeen := true;
      } else if PeekAt(stream, "||", offset) {
        orSeen := true;
      } else if PeekAt(stream, "==>", offset) {
        andSeen, orSeen := false, false;
      } else if stream[offset].Group? {
        if stream[offset].delimiter == Parenthesis {
          var inner := ContainsBothAndOr(stream[offset].tokens);
          if inner {
            return true;
          }
        }
      }
      if andSeen && orSeen {
        return true;
      }
    }
    return false;
  }

  method ContainsOperatorRecursive(stream: seq<Token>, operator: string) returns (found: bool)
    ensures found == ContainsRecursive(stream, operator)
    decreases stream
  {
    for offset := 0 to |stream|
      invariant forall k :: 0 <= k < offset ==> !ContainsAt(stream, operator, k)
    {
      if PeekAt(stream, operator, offset) {
        assert ContainsAt(stream, operator, offset);
        return true;
      }
      if stream[offset].Group? {
        var inner := ContainsOperatorRecursive(stream[offset].tokens, operator);
        if inner {
          assert ContainsAt(stream, operator, offset);
          return true;
        }
      }
    }
    return false;
  }

  // ----- what the scan means -----

  /** `&&` or `||` starts at the offset and no `==>` starts between it and `to`. */
  ghost predicate SeenSince(ts: seq<Token>, operator: string, at: nat, to: nat) {
    at < to && PeekAt(ts, operator, at) && forall k :: at < k < to ==> !PeekAt(ts, "==>", k)
  }

  /** An `&&` and an `||` without a `==>` between them. */
  ghost predicate MixedAt(ts: seq<Token>, a: nat, o: nat) {
    && PeekAt(ts, "&&", a) && PeekAt(ts, "||", o)
    && forall k :: (a < k < o || o < k < a) ==> !PeekAt(ts, "==>", k)
  }

  ghost predicate InnerAmbiguous(ts: seq<Token>, k: nat) {
    k < |ts| && ts[k].Group? && ts[k].delimiter == Parenthesis && BothAndOr(ts[k].tokens)
  }

  ghost predicate Ambiguous(ts: seq<Token>) {
    (exists a: nat, o: nat :: MixedAt(ts, a, o)) || (exists k: nat :: InnerAmbiguous(ts, k))
  }

  ghost predicate Remembers(ts: seq<Token>, operator: string, offset: nat, seen: bool) {
    seen <==> exists at: nat :: SeenSince(ts, operator, at, offset)
  }

  ghost predicate AmbiguousBefore(ts: seq<Token>, offset: nat) {
    || (exists a: nat, o: nat :: a < offset && o < offset && MixedAt(ts, a, o))
    || (exists k: nat :: k < offset && InnerAmbiguous(ts, k))
  }

  /** The operators, spelled out. */
  lemma Spelled(ts: seq<Token>, j: nat)
    ensures PeekAt(ts, ",", j) <==> j < |ts| && ts[j] == Punct(',')
    ensures PeekAt(ts, "|", j) <==> j < |ts| && ts[j] == Punct('|')
    ensures PeekAt(ts, "=", j) <==> j < |ts| && ts[j] == Punct('=')
    ensures PeekAt(ts, "&&", j) <==> j + 1 < |ts| && ts[j] == Punct('&') && ts[j + 1] == Punct('&')
    ensures PeekAt(ts, "||", j) <==> j + 1 < |ts| && ts[j] == Punct('|') && ts[j + 1] == Punct('|')
    ensures PeekAt(ts, "|=", j) <==> j + 1 < |ts| && ts[j] == Punct('|') && ts[j + 1] == Punct('=')
    ensures PeekAt(ts, "==>", j) <==>
            j + 2 < |ts| && ts[j] == Punct('=') && ts[j + 1] == Punct('=') && ts[j + 2] == Punct('>')
  {
    Peek1(ts, ",", j);
    Peek1(ts, "|", j);
    Peek1(ts, "=", j);
    Peek2(ts, "&&", j);
    Peek2(ts, "||", j);
    Peek2(ts, "|=", j);
    assert "==>"[0] == '=' && "==>"[1] == '=' && "==>"[2] == '>';
    if PeekAt(ts, "==>", j) {
      assert ts[j + 0] == Punct("==>"[0]) && ts[j + 1] == Punct("==>"[1]) && ts[j + 2] == Punct("==>"[2]);
    }
  }

  lemma Peek1(ts: seq<Token>, operator: string, j: nat)
    requires |operator| == 1
    ensures PeekAt(ts, operator, j) <==> j < |ts| && ts[j] == Punct(operator[0])
  {
    if PeekAt(ts, operator, j) {
      assert ts[j + 0] == Punct(operator[0]);
    }
  }

  lemma Peek2(ts: seq<Token>, operator: string, j: nat)
    requires |operator| == 2
    ensures PeekAt(ts, operator, j) <==> j + 1 < |ts| && ts[j] == Punct(operator[0]) && ts[j + 1] == Punct(operator[1])
  {
    if PeekAt(ts, operator, j) {
      assert ts[j + 0] == Punct(operator[0]) && ts[j + 1] == Punct(operator[1]);
    }
  }

  lemma RememberNext(ts: seq<Token>, operator: string, offset: nat, seen: bool)
    requires Remembers(ts, operator, offset, seen)
    ensures PeekAt(ts, operator, offset) ==> Remembers(ts, operator, offset + 1, true)
    ensures !PeekAt(ts, operator, offset) && PeekAt(ts, "==>", offset) ==> Remembers(ts, operator, offset + 1, false)
    ensures !PeekAt(ts, operator, offset) && !PeekAt(ts, "==>", offset) ==> Remembers(ts, operator, offset + 1, seen)
  {
    var next := offset + 1;
    if PeekAt(ts, operator, offset) {
      assert SeenSince(ts, operator, offset, next);
    } else if !PeekAt(ts, "==>", offset) {
      if at: nat :| SeenSince(ts, operator, at, offset) {
        assert SeenSince(ts, operator, at, next);
      }
      if at: nat :| SeenSince(ts, operator, at, next) {
        assert SeenSince(ts, operator, at, offset);
      }
    }
  }

  /** A first mixture ends at `offset` exactly if the scan remembers the other operator there. */
  lemma MixedEndsAt(ts: seq<Token>, offset: nat, andSeen: bool, orSeen: bool)
    requires Remembers(ts, "&&", offset, andSeen) && Remembers(ts, "||", offset, orSeen)
    requires !AmbiguousBefore(ts, offset) && offset < |ts|
    ensures AmbiguousBefore(ts, offset + 1) <==>
            || (PeekAt(ts, "&&", offset) && orSeen)
            || (PeekAt(ts, "||", offset) && andSeen)
            || InnerAmbiguous(ts, offset)
  {
    Spelled(ts, offset);
    if PeekAt(ts, "&&", offset) && orSeen {
      var at: nat :| SeenSince(ts, "||", at, offset);
      assert MixedAt(ts, offset, at);
    }
    if PeekAt(ts, "||", offset) && andSeen {
      var at: nat :| SeenSince(ts, "&&", at, offset);
      assert MixedAt(ts, at, offset);
    }
    if a: nat, o: nat :| a < offset + 1 && o < offset + 1 && MixedAt(ts, a, o) {
      assert a == offset || o == offset;
      if a == offset {
        assert SeenSince(ts, "||", o, offset);
      } else {
        assert SeenSince(ts, "&&", a, offset);
      }
    }
  }

  lemma {:induction false} ScanFindsAmbiguity(ts: seq<Token>, offset: nat, andSeen: bool, orSeen: bool)
    requires offset <= |ts|
    requires Remembers(ts, "&&", offset, andSeen) && Remembers(ts, "||", offset, orSeen) && !(andSeen && orSeen)
    requires !AmbiguousBefore(ts, offset)
    ensures Scan(ts, offset, andSeen, orSeen) <==> AmbiguousBefore(ts, |ts|)
    decreases |ts| - offset
  {
    if offset < |ts| {
      Spelled(ts, offset);
      MixedEndsAt(ts, offset, andSeen, orSeen);
      RememberNext(ts, "&&", offset, andSeen);
      RememberNext(ts, "||", offset, orSeen);
      if AmbiguousBefore(ts, offset + 1) {
        AmbiguousLater(ts, offset + 1);
      } else if PeekAt(ts, "&&", offset) {
        ScanFindsAmbiguity(ts, offset + 1, true, orSeen);
      } else if PeekAt(ts, "||", offset) {
        ScanFindsAmbiguity(ts, offset + 1, andSeen, true);
      } else if PeekAt(ts, "==>", offset) {
        ScanFindsAmbiguity(ts, offset + 1, false, false);
      } else {
        ScanFindsAmbiguity(ts, offset + 1, andSeen, orSeen);
      }
    }
  }

  lemma AmbiguousLater(ts: seq<Token>, offset: nat)
    requires offset <= |ts| && AmbiguousBefore(ts, offset)
    ensures AmbiguousBefore(ts, |ts|)
  {
  }

  /** The check rejects exactly the token trees that mix the two operators in one subexpression. */
  lemma AmbiguousExactly(ts: seq<Token>)
    ensures BothAndOr(ts) <==> Ambiguous(ts)
  {
    assert Remembers(ts, "&&", 0, false) && Remembers(ts, "||", 0, false);
    ScanFindsAmbiguity(ts, 0, false, false);
    if a: nat, o: nat :| MixedAt(ts, a, o) {
      assert a < |ts| && o < |ts|;
    }
  }
}
