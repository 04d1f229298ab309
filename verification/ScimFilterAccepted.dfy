/** What the parser accepts: exactly the filters of the grammar, with any of the closing
    tokens at their end left off. */
module ScimFilterAccepted {
  import opened Text
  import opened ScimFilter
  import opened ScimFilterGrammar

  /** `s`, with m closing tokens missing, is what was read before `rest`. */
  predicate ReadAs(ts: seq<string>, s: Syn, m: nat, node: Node, rest: seq<string>) {
    MayMiss(s, m, rest) && Erase(s) == node && ts == Open(s, m) + rest
  }

  /** A filter in front of a token list, and the rest behind it. */
  predicate Front(it: seq<string>, n: Node, s: Syn, m: nat, dropped: seq<string>) {
    IsOrExpr(s) && ReadAs(it, s, m, n, dropped) && !EqualFold(Peek(dropped), "and") && !EqualFold(Peek(dropped), "or")
  }

  // ---- primaries ----

  /** What parseComparison must have seen to give a node. */
  lemma ComparisonShape(attr: string, rest: seq<string>)
    requires ParseComparison(attr, rest).node.Some?
    ensures rest != []
    ensures Lower(rest[0]) == "pr" ==> ParseComparison(attr, rest) == Parsed(Some(Node.Present(attr)), rest[1..])
    ensures Lower(rest[0]) != "pr" ==>
              && |rest| > 1 && CmpOpOf(Lower(rest[0])).Some? && rest[1] != ""
              && ParseComparison(attr, rest) == Parsed(Some(Cmp(attr, OpOf(rest[0]), TrimQuotes(rest[1]))), rest[2..])
  {
    assert Consume(rest) == rest[1..];
    assert Consume(rest[1..]) == if |rest| > 1 then rest[2..] else [];
  }

  lemma HasRead(s: Syn, k: seq<string>)
    requires s.Has?
    ensures ReadAs([s.attr, s.pr] + k, s, 0, Node.Present(Lower(s.attr)), k)
  {
  }

  lemma LeafRead(s: Syn, k: seq<string>)
    requires s.Leaf?
    ensures ReadAs([s.attr, s.op, s.value] + k, s, 0, Cmp(Lower(s.attr), OpOf(s.op), TrimQuotes(s.value)), k)
  {
  }

  lemma FrontTokens(a: string, rest: seq<string>)
    ensures rest != [] ==> [a] + rest == [a, rest[0]] + rest[1..]
    ensures |rest| > 1 ==> [a] + rest == [a, rest[0], rest[1]] + rest[2..]
  {
  }

  /** The comparison behind a path. */
  lemma BehindPath(a: string, rest: seq<string>) returns (s: Syn)
    requires IsPath(a) && ParseComparison(Lower(a), rest).node.Some?
    ensures (s.Leaf? || s.Has?) && IsPrimary(s) && s.attr == a
    ensures var p := ParseComparison(Lower(a), rest); ReadAs([a] + rest, s, 0, p.node.value, p.rest)
  {
    ComparisonShape(Lower(a), rest);
    FrontTokens(a, rest);
    if Lower(rest[0]) == "pr" {
      s := Has(a, rest[0]);
      HasRead(s, rest[1..]);
    } else {
      s := Leaf(a, rest[0], rest[1]);
      LeafRead(s, rest[2..]);
    }
  }

  lemma ComparisonSound(ts: seq<string>) returns (s: Syn)
    requires ts != [] && ts[0] != "(" && '[' !in ts[0] && ParsePrimary(ts).node.Some?
    ensures (s.Leaf? || s.Has?) && IsPrimary(s) && s.attr == ts[0]
    ensures ReadAs(ts, s, 0, ParsePrimary(ts).node.value, ParsePrimary(ts).rest)
  {
    var a, rest := ts[0], ts[1..];
    assert ts == [a] + rest;
    assert a != "";
    PathFirst(a, rest);
    s := BehindPath(a, rest);
  }

  /** The group is closed: nothing was missing inside it. */
  lemma ClosedGroup(ts: seq<string>, c: Syn, m: nat, node: Node, rest: seq<string>)
    requires ts != [] && ts[0] == "(" && ReadAs(ts[1..], c, m, node, rest) && Peek(rest) == ")"
    ensures ReadAs(ts, Group(c), 0, node, rest[1..])
  {
    assert rest == [")"] + rest[1..];
    OpenNone(c);
    assert ts == ["("] + ts[1..];
    assert ts == Tokens(Group(c)) + rest[1..];
    NothingCut(Group(c));
  }

  lemma OpenGroup(ts: seq<string>, c: Syn, m: nat, node: Node, rest: seq<string>)
    requires ts != [] && ts[0] == "(" && ReadAs(ts[1..], c, m, node, rest) && Stuck(rest)
    ensures ReadAs(ts, Group(c), m + 1, node, rest)
  {
    assert ts == ["("] + ts[1..];
    Regroup(["("], Open(c, m), rest);
  }

  /** Glueing stops at a closing bracket, an empty token or the end. */
  lemma {:induction false} GlueSound(inner: string, ts: seq<string>) returns (glued: seq<string>, rest: seq<string>)
    ensures ts == glued + rest && Gluable(glued) && (Peek(rest) == "]" || Peek(rest) == "")
    ensures Glue(inner, ts) == Glued(Joined(inner, glued), rest)
    decreases |ts|
  {
    if Peek(ts) == "]" || Peek(ts) == "" {
      glued, rest := [], ts;
    } else {
      var g, r := GlueSound(inner + " " + ts[0], ts[1..]);
      glued, rest := [ts[0]] + g, r;
      assert glued[1..] == g;
      assert ts == [ts[0]] + ts[1..];
    }
  }

  lemma ClosedBracket(s: Syn, k: seq<string>)
    requires s.Bracket?
    ensures ReadAs([s.path] + (s.glued + (["]"] + k)), s, 0, Erase(s), k)
  {
    BracketTokens(s, 0, k);
  }

  lemma CutBracket(s: Syn, k: seq<string>)
    requires s.Bracket? && Peek(k) == ""
    ensures ReadAs([s.path] + (s.glued + k), s, 1, Erase(s), k)
  {
    BracketTokens(s, 1, k);
    NoKeyword("");
    NotOr("");
  }

  /** The primary of a bracketed path, with or without its closing bracket. */
  lemma BracketRead(ts: seq<string>, s: Syn, rest: seq<string>) returns (m: nat)
    requires s.Bracket? && ts == [s.path] + (s.glued + rest) && (Peek(rest) == "]" || Peek(rest) == "")
    ensures ReadAs(ts, s, m, Erase(s), if Peek(rest) == "]" then Consume(rest) else rest)
  {
    if Peek(rest) == "]" {
      m := 0;
      assert rest == ["]"] + rest[1..];
      ClosedBracket(s, rest[1..]);
    } else {
      m := 1;
      CutBracket(s, rest);
    }
  }

  lemma BracketIsOk(path: string, glued: seq<string>, inner: Syn, open: nat, node: Node, dropped: seq<string>) returns (s: Syn)
    requires '[' in path && Gluable(glued)
    requires Front(Tokenize(Joined(AfterBracket(path), glued)), node, inner, open, dropped)
    ensures s == Bracket(path, glued, inner, open, dropped) && IsPrimary(s) && Erase(s) == node
  {
    s := Bracket(path, glued, inner, open, dropped);
    assert BracketOk(s);
  }

  /** What a bracketed path holds has fewer opening brackets. */
  lemma HoldsFewer(path: string, ts: seq<string>)
    requires '[' in path
    ensures Brackets(Tokenize(Glue(AfterBracket(path), ts).inner)) < Brackets([path] + ts)
  {
    BracketTextShrinks(path, ts);
    assert ([path] + ts)[1..] == ts;
    assert BracketText(Lower(path), ts) == Glue(AfterBracket(path), ts);
  }

  /** What a bracketed path holds, and what its primary returns. */
  lemma BracketShape(ts: seq<string>) returns (glued: seq<string>, rest: seq<string>)
    requires ts != [] && '[' in ts[0]
    ensures ts == [ts[0]] + (glued + rest) && Gluable(glued) && (Peek(rest) == "]" || Peek(rest) == "")
    ensures var it := Tokenize(Joined(AfterBracket(ts[0]), glued));
            && Brackets(it) < Brackets(ts)
            && ParsePrimary(ts) == Parsed(ParseOr(it).node, if Peek(rest) == "]" then Consume(rest) else rest)
  {
    var path, more := ts[0], ts[1..];
    assert ts == [path] + more;
    glued, rest := GlueSound(AfterBracket(path), more);
    BracketFirst(path, more);
    HoldsFewer(path, more);
  }

  lemma {:induction false} BracketSound(ts: seq<string>) returns (s: Syn, m: nat)
    requires ts != [] && '[' in ts[0] && ParsePrimary(ts).node.Some?
    ensures s.Bracket? && IsPrimary(s) && ReadAs(ts, s, m, ParsePrimary(ts).node.value, ParsePrimary(ts).rest)
    decreases Brackets(ts), |ts|, 0
  {
    var glued, rest := BracketShape(ts);
    var it := Tokenize(Joined(AfterBracket(ts[0]), glued));
    var inner, open := OrSound(it);
    var p := ParseOr(it);
    s := BracketIsOk(ts[0], glued, inner, open, p.node.value, p.rest);
    m := BracketRead(ts, s, rest);
  }

  lemma GroupFirst(ts: seq<string>)
    requires ts != [] && ts[0] == "("
    ensures var p := ParseOr(ts[1..]);
            ParsePrimary(ts) == Parsed(p.node, if Peek(p.rest) == ")" then p.rest[1..] else p.rest)
  {
  }

  lemma {:induction false} PrimarySound(ts: seq<string>) returns (s: Syn, m: nat)
    requires ParsePrimary(ts).node.Some?
    ensures IsPrimary(s) && ReadAs(ts, s, m, ParsePrimary(ts).node.value, ParsePrimary(ts).rest)
    ensures s.Leaf? || s.Has? ==> ts != [] && s.attr == ts[0]
    decreases Brackets(ts), |ts|, 1
  {
    if ts != [] && ts[0] == "(" {
      var c, k := OrSound(ts[1..]);
      var p := ParseOr(ts[1..]);
      GroupFirst(ts);
      s := Group(c);
      m := if Peek(p.rest) == ")" then 0 else k + 1;
      if Peek(p.rest) == ")" {
        ClosedGroup(ts, c, k, p.node.value, p.rest);
      } else {
        OpenGroup(ts, c, k, p.node.value, p.rest);
      }
    } else if '[' in ts[0] {
      s, m := BracketSound(ts);
    } else {
      s := ComparisonSound(ts);
      m := 0;
    }
  }

  // ---- negations ----

  lemma NegateRead(ts: seq<string>, c: Syn, m: nat, node: Node, rest: seq<string>)
    requires ts != [] && ReadAs(ts[1..], c, m, node, rest)
    ensures ReadAs(ts, Negate(ts[0], c), m, Not(node), rest)
  {
    assert ts == [ts[0]] + ts[1..];
    Regroup([ts[0]], Open(c, m), rest);
  }

  lemma {:induction false} UnarySound(ts: seq<string>) returns (s: Syn, m: nat)
    requires ParseUnary(ts).node.Some?
    ensures IsUnaryExpr(s) && ReadAs(ts, s, m, ParseUnary(ts).node.value, ParseUnary(ts).rest)
    decreases Brackets(ts), |ts|, 2
  {
    if ts != [] && EqualFold(ts[0], "not") {
      var c, k := PrimarySound(ts[1..]);
      var p := ParsePrimary(ts[1..]);
      NegateRead(ts, c, k, p.node.value, p.rest);
      s, m := Negate(ts[0], c), k;
    } else {
      s, m := PrimarySound(ts);
    }
  }

  // ---- the two loops ----

  /** Another operand: nothing can have been missing in the one on the left. */
  lemma BothRead(ts: seq<string>, l: Syn, lm: nat, left: Node, more: seq<string>, r: Syn, m: nat, right: Node, rest: seq<string>)
    requires ReadAs(ts, l, lm, left, more) && more != [] && EqualFold(more[0], "and") && ReadAs(more[1..], r, m, right, rest)
    ensures ReadAs(ts, Both(l, more[0], r), m, And(left, right), rest)
  {
    OpenNone(l);
    Recombine(ts, Tokens(l), more, Open(r, m), rest);
  }

  lemma EitherRead(ts: seq<string>, l: Syn, lm: nat, left: Node, more: seq<string>, r: Syn, m: nat, right: Node, rest: seq<string>)
    requires ReadAs(ts, l, lm, left, more) && more != [] && EqualFold(more[0], "or") && ReadAs(more[1..], r, m, right, rest)
    ensures ReadAs(ts, Either(l, more[0], r), m, Or(left, right), rest)
  {
    OpenNone(l);
    Recombine(ts, Tokens(l), more, Open(r, m), rest);
  }

  lemma Recombine(ts: seq<string>, l: seq<string>, more: seq<string>, r: seq<string>, rest: seq<string>)
    requires ts == l + more && more != [] && more[1..] == r + rest
    ensures ts == (l + ([more[0]] + r)) + rest
  {
    assert more == [more[0]] + (r + rest);
    Regroup([more[0]], r, rest);
    Regroup(l, [more[0]] + r, rest);
  }

  lemma {:induction false} AndRestSound(ts: seq<string>, l: Syn, lm: nat, left: Node, more: seq<string>) returns (s: Syn, m: nat)
    requires IsAndExpr(l) && ReadAs(ts, l, lm, left, more) && AndRest(left, more).node.Some?
    ensures IsAndExpr(s) && ReadAs(ts, s, m, AndRest(left, more).node.value, AndRest(left, more).rest)
    ensures !EqualFold(Peek(AndRest(left, more).rest), "and")
    decreases Brackets(more), |more|, 3
  {
    if more != [] && EqualFold(more[0], "and") {
      var r, k := UnarySound(more[1..]);
      var p := ParseUnary(more[1..]);
      BothRead(ts, l, lm, left, more, r, k, p.node.value, p.rest);
      s, m := AndRestSound(ts, Both(l, more[0], r), k, And(left, p.node.value), p.rest);
    } else {
      s, m := l, lm;
      NoKeyword("");
    }
  }

  lemma {:induction false} AndSound(ts: seq<string>) returns (s: Syn, m: nat)
    requires ParseAnd(ts).node.Some?
    ensures IsAndExpr(s) && ReadAs(ts, s, m, ParseAnd(ts).node.value, ParseAnd(ts).rest)
    ensures !EqualFold(Peek(ParseAnd(ts).rest), "and")
    decreases Brackets(ts), |ts|, 4
  {
    var l, lm := UnarySound(ts);
    var p := ParseUnary(ts);
    s, m := AndRestSound(ts, l, lm, p.node.value, p.rest);
  }

  lemma {:induction false} OrRestSound(ts: seq<string>, l: Syn, lm: nat, left: Node, more: seq<string>) returns (s: Syn, m: nat)
    requires IsOrExpr(l) && ReadAs(ts, l, lm, left, more) && OrRest(left, more).node.Some?
    requires !EqualFold(Peek(more), "and")
    ensures IsOrExpr(s) && ReadAs(ts, s, m, OrRest(left, more).node.value, OrRest(left, more).rest)
    ensures !EqualFold(Peek(OrRest(left, more).rest), "and") && !EqualFold(Peek(OrRest(left, more).rest), "or")
    decreases Brackets(more), |more|, 5
  {
    if more != [] && EqualFold(more[0], "or") {
      var r, k := AndSound(more[1..]);
      var p := ParseAnd(more[1..]);
      EitherRead(ts, l, lm, left, more, r, k, p.node.value, p.rest);
      s, m := OrRestSound(ts, Either(l, more[0], r), k, Or(left, p.node.value), p.rest);
    } else {
      s, m := l, lm;
      NotOr("");
    }
  }

  lemma {:induction false} OrSound(ts: seq<string>) returns (s: Syn, m: nat)
    requires ParseOr(ts).node.Some?
    ensures IsOrExpr(s) && ReadAs(ts, s, m, ParseOr(ts).node.value, ParseOr(ts).rest)
    ensures !EqualFold(Peek(ParseOr(ts).rest), "and") && !EqualFold(Peek(ParseOr(ts).rest), "or")
    decreases Brackets(ts), |ts|, 6
  {
    var l, lm := AndSound(ts);
    var p := ParseAnd(ts);
    AndIsOr(l);
    s, m := OrRestSound(ts, l, lm, p.node.value, p.rest);
  }

  // ---- exactly ----

  /** The tokens, with some of the filter's own closing tokens added at the end, are a
      filter of the grammar that stands for the tree. */
  ghost predicate StandsFor(ts: seq<string>, n: Node) {
    exists s, m: nat :: Closed(ts, n, s, m)
  }

  predicate Closed(ts: seq<string>, n: Node, s: Syn, m: nat) {
    IsOrExpr(s) && Erase(s) == n && m <= Closers(s) && Tokens(s) == ts + Missing(s, m)
  }

  lemma ClosedIsOpen(ts: seq<string>, n: Node, s: Syn, m: nat)
    requires Closed(ts, n, s, m)
    ensures ts == Open(s, m)
  {
    OpenCloses(s, m);
    MissingCount(s, m);
    assert ts == Tokens(s)[..|Tokens(s)| - m] == Open(s, m);
  }

  /** Any list of tokens parses to a tree with nothing left over if and only if it is a
      filter of the grammar for that tree, save for closing tokens at its end. */
  lemma AcceptedIff(ts: seq<string>, n: Node)
    ensures ParseOr(ts) == Parsed(Some(n), []) <==> StandsFor(ts, n)
  {
    if ParseOr(ts) == Parsed(Some(n), []) {
      var s, m := OrSound(ts);
      assert ts == Open(s, m) + [] == Open(s, m);
      OpenCloses(s, m);
      assert Closed(ts, n, s, m);
    }
    if StandsFor(ts, n) {
      var s, m: nat :| Closed(ts, n, s, m);
      ClosedIsOpen(ts, n, s, m);
      GrammarParses(s, m);
    }
  }

  // ---- what brackets drop ----

  /** The text in the brackets of a path, as it is tokenized again. */
  function BracketTokensOf(ts: seq<string>): seq<string>
    requires ts != []
  {
    Tokenize(Glue(AfterBracket(ts[0]), ts[1..]).inner)
  }

  /** Some filter for the tree is in front of the tokens, and `dropped` is behind it. */
  ghost predicate InFront(it: seq<string>, n: Node, dropped: seq<string>) {
    exists s, m: nat :: Front(it, n, s, m, dropped)
  }

  /** The parser stops behind the filter in front, and that is the only one there is. */
  lemma FrontIff(it: seq<string>, n: Node, dropped: seq<string>)
    ensures ParseOr(it) == Parsed(Some(n), dropped) <==> InFront(it, n, dropped)
  {
    if ParseOr(it) == Parsed(Some(n), dropped) {
      var s, m := OrSound(it);
      assert Front(it, n, s, m, dropped);
    }
    if InFront(it, n, dropped) {
      var s, m: nat :| Front(it, n, s, m, dropped);
      OrParses(s, m, dropped);
      OrEnds(n, dropped);
    }
  }

  /** A bracketed path stands for a tree if and only if a filter for that tree is in front
      of what the brackets hold; the brackets hold that filter and no more if and only if
      nothing is dropped. */
  lemma BracketIff(ts: seq<string>, n: Node)
    requires ts != [] && '[' in ts[0]
    ensures ParsePrimary(ts).node == Some(n) <==> exists dropped :: InFront(BracketTokensOf(ts), n, dropped)
    ensures forall dropped :: InFront(BracketTokensOf(ts), n, dropped) ==> (StandsFor(BracketTokensOf(ts), n) <==> dropped == [])
  {
    var it := BracketTokensOf(ts);
    assert ts == [ts[0]] + ts[1..];
    BracketFirst(ts[0], ts[1..]);
    AcceptedIff(it, n);
    FrontIff(it, n, ParseOr(it).rest);
    forall dropped | InFront(it, n, dropped)
      ensures ParseOr(it) == Parsed(Some(n), dropped)
    {
      FrontIff(it, n, dropped);
    }
  }
}
