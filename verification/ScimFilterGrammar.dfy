/** The filter grammar as the parser implements it, and the proof that what it generates is
    parsed, also when closing parentheses or a closing bracket are left off at the end.

    A `Syn` is a filter as a client may write it: with or without redundant parentheses,
    and with its keywords in any case. `Erase` is the tree it stands for. */
module ScimFilterGrammar {
  import opened Text
  import opened ScimFilter

  datatype Syn =
    | Leaf(attr: string, op: string, value: string)
    | Has(attr: string, pr: string)
    | Negate(kw: string, child: Syn)
    | Both(left: Syn, kw: string, right: Syn)
    | Either(left: Syn, kw: string, right: Syn)
    | Group(child: Syn)
    | Bracket(path: string, glued: seq<string>, inner: Syn, open: nat, dropped: seq<string>)

  function OpOf(word: string): CmpOp {
    match CmpOpOf(Lower(word)) case Some(op) => op case None => Eq
  }

  function Erase(s: Syn): Node {
    match s
    case Leaf(a, op, v) => Cmp(Lower(a), OpOf(op), TrimQuotes(v))
    case Has(a, _) => Node.Present(Lower(a))
    case Negate(_, c) => Not(Erase(c))
    case Both(l, _, r) => And(Erase(l), Erase(r))
    case Either(l, _, r) => Or(Erase(l), Erase(r))
    case Group(c) => Erase(c)
    case Bracket(_, _, inner, _, _) => Erase(inner)
  }

  function Tokens(s: Syn): seq<string> {
    match s
    case Leaf(a, op, v) => [a, op, v]
    case Has(a, pr) => [a, pr]
    case Negate(kw, c) => [kw] + Tokens(c)
    case Both(l, kw, r) => Tokens(l) + ([kw] + Tokens(r))
    case Either(l, kw, r) => Tokens(l) + ([kw] + Tokens(r))
    case Group(c) => ["("] + (Tokens(c) + [")"])
    case Bracket(path, glued, _, _, _) => [path] + (glued + ["]"])
  }

  // ---- what may be left off at the end ----

  /** How many closing tokens the filter ends in. */
  function Closers(s: Syn): nat {
    match s
    case Leaf(_, _, _) => 0
    case Has(_, _) => 0
    case Negate(_, c) => Closers(c)
    case Both(_, _, r) => Closers(r)
    case Either(_, _, r) => Closers(r)
    case Group(c) => Closers(c) + 1
    case Bracket(_, _, _, _, _) => 1
  }

  /** The last m of them. */
  function Missing(s: Syn, m: nat): seq<string>
    requires m <= Closers(s)
  {
    match s
    case Leaf(_, _, _) => []
    case Has(_, _) => []
    case Negate(_, c) => Missing(c, m)
    case Both(_, _, r) => Missing(r, m)
    case Either(_, _, r) => Missing(r, m)
    case Group(c) => if m == 0 then [] else Missing(c, m - 1) + [")"]
    case Bracket(_, _, _, _, _) => if m == 0 then [] else ["]"]
  }

  /** The tokens without the last m closing ones. */
  function Open(s: Syn, m: nat): seq<string>
    requires m <= Closers(s)
  {
    match s
    case Leaf(_, _, _) => Tokens(s)
    case Has(_, _) => Tokens(s)
    case Negate(kw, c) => [kw] + Open(c, m)
    case Both(l, kw, r) => Tokens(l) + ([kw] + Open(r, m))
    case Either(l, kw, r) => Tokens(l) + ([kw] + Open(r, m))
    case Group(c) => if m == 0 then ["("] + (Tokens(c) + [")"]) else ["("] + Open(c, m - 1)
    case Bracket(path, glued, _, _, _) => if m == 0 then [path] + (glued + ["]"]) else [path] + glued
  }

  predicate EndsInBracket(s: Syn) {
    match s
    case Leaf(_, _, _) => false
    case Has(_, _) => false
    case Negate(_, c) => EndsInBracket(c)
    case Both(_, _, r) => EndsInBracket(r)
    case Either(_, _, r) => EndsInBracket(r)
    case Group(c) => EndsInBracket(c)
    case Bracket(_, _, _, _, _) => true
  }

  /** The closing bracket is among the missing tokens. */
  predicate Cut(s: Syn, m: nat) {
    EndsInBracket(s) && m == Closers(s)
  }

  lemma {:induction false} NothingCut(s: Syn)
    ensures !Cut(s, 0)
  {
    match s
    case Negate(_, c) => NothingCut(c);
    case Both(_, _, r) => NothingCut(r);
    case Either(_, _, r) => NothingCut(r);
    case _ =>
  }

  lemma {:induction false} OpenNone(s: Syn)
    ensures Open(s, 0) == Tokens(s)
  {
    match s
    case Negate(_, c) => OpenNone(c);
    case Both(_, _, r) => OpenNone(r);
    case Either(_, _, r) => OpenNone(r);
    case _ =>
  }

  lemma PrefixCloses(front: seq<string>, open: seq<string>, missing: seq<string>, whole: seq<string>)
    requires open + missing == whole
    ensures (front + open) + missing == front + whole
  {
    Regroup(front, open, missing);
  }

  lemma {:induction false} OpenCloses(s: Syn, m: nat)
    requires m <= Closers(s)
    ensures Open(s, m) + Missing(s, m) == Tokens(s)
  {
    match s
    case Negate(kw, c) =>
      OpenCloses(c, m);
      PrefixCloses([kw], Open(c, m), Missing(c, m), Tokens(c));
    case Both(l, kw, r) =>
      OpenCloses(r, m);
      PrefixCloses([kw], Open(r, m), Missing(r, m), Tokens(r));
      PrefixCloses(Tokens(l), [kw] + Open(r, m), Missing(r, m), [kw] + Tokens(r));
    case Either(l, kw, r) =>
      OpenCloses(r, m);
      PrefixCloses([kw], Open(r, m), Missing(r, m), Tokens(r));
      PrefixCloses(Tokens(l), [kw] + Open(r, m), Missing(r, m), [kw] + Tokens(r));
    case Group(c) =>
      if m == 0 {
        PrefixCloses(["("], Tokens(c) + [")"], [], Tokens(c) + [")"]);
      } else {
        OpenCloses(c, m - 1);
        WrapCloses(Open(c, m - 1), Missing(c, m - 1), Tokens(c));
      }
    case Bracket(path, glued, _, _, _) =>
      if m == 0 {
        PrefixCloses([path], glued + ["]"], [], glued + ["]"]);
      } else {
        PrefixCloses([path], glued, ["]"], glued + ["]"]);
      }
    case _ => assert Tokens(s) + [] == Tokens(s);
  }

  lemma {:induction false} MissingCount(s: Syn, m: nat)
    requires m <= Closers(s)
    ensures |Missing(s, m)| == m
  {
    match s
    case Negate(_, c) => MissingCount(c, m);
    case Both(_, _, r) => MissingCount(r, m);
    case Either(_, _, r) => MissingCount(r, m);
    case Group(c) =>
      if m > 0 {
        MissingCount(c, m - 1);
      }
    case _ =>
  }

  lemma WrapCloses(open: seq<string>, missing: seq<string>, whole: seq<string>)
    requires open + missing == whole
    ensures (["("] + open) + (missing + [")"]) == ["("] + (whole + [")"])
  {
    Regroup(["("], open, missing + [")"]);
    Regroup(open, missing, [")"]);
  }

  lemma OpenNotEmpty(s: Syn, m: nat)
    requires m <= Closers(s)
    ensures Open(s, m) != []
  {
  }

  /** Nothing in the way of a filter's end: no operator and no closing parenthesis. */
  predicate Stuck(k: seq<string>) {
    Peek(k) != ")" && !EqualFold(Peek(k), "and") && !EqualFold(Peek(k), "or")
  }

  /** Closing tokens can be missing only where nothing follows that would be taken for
      one or for an operator; a closing bracket only at an empty token or the end. */
  predicate MayMiss(s: Syn, m: nat, k: seq<string>) {
    m <= Closers(s) && (m > 0 ==> Stuck(k)) && (Cut(s, m) ==> Peek(k) == "")
  }

  // ---- bracketed paths ----

  /** What follows the first "[" of a path, in lower case. */
  function AfterBracket(path: string): string {
    var low := Lower(path);
    low[if IndexOf(low, '[') < |low| then IndexOf(low, '[') + 1 else |low|..]
  }

  /** Tokens joined by single blanks, without their quotes. */
  function Joined(inner: string, ts: seq<string>): string
    decreases |ts|
  {
    if ts == [] then inner else Joined(inner + " " + ts[0], ts[1..])
  }

  predicate Gluable(ts: seq<string>) {
    forall i :: 0 <= i < |ts| ==> ts[i] != "]" && ts[i] != ""
  }

  /** The text in the brackets, tokenized again, is a filter with anything behind it that
      is no operator: whatever is left over is dropped. */
  predicate BracketOk(s: Syn)
    requires s.Bracket?
  {
    && '[' in s.path && Gluable(s.glued) && MayMiss(s.inner, s.open, s.dropped)
    && Tokenize(Joined(AfterBracket(s.path), s.glued)) == Open(s.inner, s.open) + s.dropped
    && !EqualFold(Peek(s.dropped), "and") && !EqualFold(Peek(s.dropped), "or")
  }

  // ---- the grammar: or binds weakest, both operators group to the left ----

  /** What parsePrimary takes for an attribute path. */
  predicate IsPath(a: string) {
    a != "" && a != "(" && '[' !in a
  }

  predicate IsPrimary(s: Syn)
    decreases s, 0
  {
    match s
    case Leaf(a, op, v) => IsPath(a) && CmpOpOf(Lower(op)).Some? && v != ""
    case Has(a, pr) => IsPath(a) && Lower(pr) == "pr"
    case Group(c) => IsOrExpr(c)
    case Bracket(_, _, inner, _, _) => BracketOk(s) && IsOrExpr(inner)
    case _ => false
  }

  /** A comparison whose path is the word "not" would be read as a negation. */
  predicate IsUnaryExpr(s: Syn)
    decreases s, 1
  {
    if s.Negate? then EqualFold(s.kw, "not") && IsPrimary(s.child)
    else IsPrimary(s) && (s.Leaf? || s.Has? ==> !EqualFold(s.attr, "not"))
  }

  predicate IsAndExpr(s: Syn)
    decreases s, 2
  {
    if s.Both? then IsAndExpr(s.left) && EqualFold(s.kw, "and") && IsUnaryExpr(s.right) else IsUnaryExpr(s)
  }

  predicate IsOrExpr(s: Syn)
    decreases s, 3
  {
    if s.Either? then IsOrExpr(s.left) && EqualFold(s.kw, "or") && IsAndExpr(s.right) else IsAndExpr(s)
  }

  lemma AndIsOr(s: Syn)
    requires IsAndExpr(s)
    ensures IsOrExpr(s)
  {
    assert s.Either? ==> !IsPrimary(s) && !IsUnaryExpr(s) && !IsAndExpr(s);
  }

  lemma UnaryIsAnd(s: Syn)
    requires IsUnaryExpr(s)
    ensures IsAndExpr(s) && IsOrExpr(s)
  {
    assert s.Both? || s.Either? ==> !IsPrimary(s) && !IsUnaryExpr(s);
    AndIsOr(s);
  }

  // ---- what the grammar generates is parsed ----

  lemma NoKeyword(w: string)
    requires |w| < 3
    ensures !EqualFold(w, "and") && !EqualFold(w, "not")
  {
    assert |Lower(w)| == |w| && |Lower("and")| == 3 && |Lower("not")| == 3;
  }

  lemma NotOr(w: string)
    requires |w| != 2
    ensures !EqualFold(w, "or")
  {
    assert |Lower(w)| == |w| && |Lower("or")| == 2;
  }

  lemma ComparisonParses(attr: string, op: string, v: string, k: seq<string>)
    requires CmpOpOf(Lower(op)).Some? && v != ""
    ensures ParseComparison(attr, [op, v] + k) == Parsed(Some(Cmp(attr, OpOf(op), TrimQuotes(v))), k)
  {
    var ts := [op, v] + k;
    assert ts[0] == op && ts[1..] == [v] + k && ([v] + k)[1..] == k;
    assert Consume(ts) == [v] + k && Consume(Consume(ts)) == k;
  }

  lemma PresenceParses(attr: string, pr: string, k: seq<string>)
    requires Lower(pr) == "pr"
    ensures ParseComparison(attr, [pr] + k) == Parsed(Some(Node.Present(attr)), k)
  {
    assert ([pr] + k)[1..] == k;
  }

  lemma PathFirst(a: string, rest: seq<string>)
    requires IsPath(a)
    ensures ParsePrimary([a] + rest) == ParseComparison(Lower(a), rest)
  {
    assert ([a] + rest)[0] == a && ([a] + rest)[1..] == rest;
  }

  lemma LeafParses(s: Syn, k: seq<string>)
    requires (s.Leaf? || s.Has?) && IsPrimary(s)
    ensures ParsePrimary(Tokens(s) + k) == Parsed(Some(Erase(s)), k)
  {
    if s.Leaf? {
      assert Tokens(s) + k == [s.attr] + ([s.op, s.value] + k);
      PathFirst(s.attr, [s.op, s.value] + k);
      ComparisonParses(Lower(s.attr), s.op, s.value, k);
    } else {
      assert Tokens(s) + k == [s.attr] + ([s.pr] + k);
      PathFirst(s.attr, [s.pr] + k);
      PresenceParses(Lower(s.attr), s.pr, k);
    }
  }

  /** A group whose filter has been read up to k. */
  lemma GroupParses(inner: seq<string>, node: Node, k: seq<string>)
    requires ParseOr(inner) == Parsed(Some(node), k)
    ensures ParsePrimary(["("] + inner) == Parsed(Some(node), if Peek(k) == ")" then Consume(k) else k)
  {
    assert (["("] + inner)[1..] == inner;
  }

  lemma OrEnds(left: Node, k: seq<string>)
    requires !EqualFold(Peek(k), "or")
    ensures OrRest(left, k) == Parsed(Some(left), k)
  {
  }

  lemma AndEnds(left: Node, k: seq<string>)
    requires !EqualFold(Peek(k), "and")
    ensures AndRest(left, k) == Parsed(Some(left), k)
  {
  }

  lemma ClosedTokens(c: Syn, k: seq<string>)
    ensures Open(Group(c), 0) + k == ["("] + (Tokens(c) + ([")"] + k))
  {
    Regroup(["("], Tokens(c) + [")"], k);
    Regroup(Tokens(c), [")"], k);
  }

  lemma {:induction false} GlueAll(inner: string, ts: seq<string>, rest: seq<string>)
    requires Gluable(ts) && (Peek(rest) == "]" || Peek(rest) == "")
    ensures Glue(inner, ts + rest) == Glued(Joined(inner, ts), rest)
    decreases |ts|
  {
    if ts == [] {
      assert ts + rest == rest;
    } else {
      assert (ts + rest)[0] == ts[0] && (ts + rest)[1..] == ts[1..] + rest;
      GlueAll(inner + " " + ts[0], ts[1..], rest);
    }
  }

  /** The primary that starts with a bracketed path. */
  lemma BracketFirst(path: string, ts: seq<string>)
    requires '[' in path
    ensures var g := Glue(AfterBracket(path), ts);
            ParsePrimary([path] + ts) ==
            Parsed(ParseOr(Tokenize(g.inner)).node, if Peek(g.rest) == "]" then Consume(g.rest) else g.rest)
  {
    assert ([path] + ts)[0] == path && ([path] + ts)[1..] == ts && path != "(" && path != "";
    assert BracketText(Lower(path), ts) == Glue(AfterBracket(path), ts);
  }

  /** The glued tokens, and what the bracketed primary leaves. */
  lemma BracketGlued(path: string, glued: seq<string>, rest: seq<string>)
    requires '[' in path && Gluable(glued) && (Peek(rest) == "]" || Peek(rest) == "")
    ensures ParsePrimary([path] + (glued + rest)) ==
            Parsed(ParseOr(Tokenize(Joined(AfterBracket(path), glued))).node, if Peek(rest) == "]" then Consume(rest) else rest)
  {
    GlueAll(AfterBracket(path), glued, rest);
    BracketFirst(path, glued + rest);
  }

  lemma BracketParses(path: string, glued: seq<string>, node: Node, closed: bool, k: seq<string>)
    requires '[' in path && Gluable(glued) && (closed || Peek(k) == "")
    requires ParseOr(Tokenize(Joined(AfterBracket(path), glued))).node == Some(node)
    ensures ParsePrimary([path] + (glued + if closed then ["]"] + k else k)) == Parsed(Some(node), k)
  {
    if closed {
      BracketGlued(path, glued, ["]"] + k);
      assert (["]"] + k)[1..] == k;
    } else {
      BracketGlued(path, glued, k);
    }
  }

  lemma BracketTokens(s: Syn, m: nat, k: seq<string>)
    requires s.Bracket? && m <= 1
    ensures Open(s, m) + k == [s.path] + (s.glued + if m == 0 then ["]"] + k else k)
  {
    if m == 0 {
      Regroup([s.path], s.glued + ["]"], k);
      Regroup(s.glued, ["]"], k);
    } else {
      Regroup([s.path], s.glued, k);
    }
  }

  lemma {:induction false} PrimaryParses(s: Syn, m: nat, k: seq<string>)
    requires IsPrimary(s) && MayMiss(s, m, k)
    ensures ParsePrimary(Open(s, m) + k) == Parsed(Some(Erase(s)), k)
    decreases s, 0
  {
    if s.Group? && m == 0 {
      var rest := [")"] + k;
      ClosedTokens(s.child, k);
      OpenNone(s.child);
      NoKeyword(")");
      NotOr(")");
      NothingCut(s.child);
      OrParses(s.child, 0, rest);
      OrEnds(Erase(s.child), rest);
      GroupParses(Tokens(s.child) + rest, Erase(s.child), rest);
      assert rest[1..] == k;
    } else if s.Group? {
      Regroup(["("], Open(s.child, m - 1), k);
      OrParses(s.child, m - 1, k);
      OrEnds(Erase(s.child), k);
      GroupParses(Open(s.child, m - 1) + k, Erase(s.child), k);
    } else if s.Bracket? {
      OrParses(s.inner, s.open, s.dropped);
      OrEnds(Erase(s.inner), s.dropped);
      BracketTokens(s, m, k);
      BracketParses(s.path, s.glued, Erase(s.inner), m == 0, k);
    } else {
      LeafParses(s, k);
    }
  }

  lemma NotPrimary(ts: seq<string>)
    requires ts != [] && !EqualFold(ts[0], "not")
    ensures ParseUnary(ts) == ParsePrimary(ts)
  {
  }

  lemma {:induction false} UnaryParses(s: Syn, m: nat, k: seq<string>)
    requires IsUnaryExpr(s) && MayMiss(s, m, k)
    ensures ParseUnary(Open(s, m) + k) == Parsed(Some(Erase(s)), k)
    decreases s, 1
  {
    if s.Negate? {
      var ts := [s.kw] + (Open(s.child, m) + k);
      assert Open(s, m) + k == ts && ts[1..] == Open(s.child, m) + k;
      PrimaryParses(s.child, m, k);
    } else {
      NoKeyword("(");
      assert (Open(s, m) + k)[0] == Open(s, m)[0];
      NotPrimary(Open(s, m) + k);
      PrimaryParses(s, m, k);
    }
  }

  lemma AndStep(left: Node, right: Node, kw: string, ts: seq<string>, k: seq<string>)
    requires EqualFold(kw, "and") && ParseUnary(ts) == Parsed(Some(right), k)
    ensures AndRest(left, [kw] + ts) == AndRest(And(left, right), k)
  {
    assert ([kw] + ts)[1..] == ts;
  }

  lemma OrStep(left: Node, right: Node, kw: string, ts: seq<string>, k: seq<string>)
    requires EqualFold(kw, "or") && ParseAnd(ts) == Parsed(Some(right), k)
    ensures OrRest(left, [kw] + ts) == OrRest(Or(left, right), k)
  {
    assert ([kw] + ts)[1..] == ts;
  }

  /** Reading an and-expression and then k is reading k with that operand on the left. */
  lemma {:induction false} AndParses(s: Syn, m: nat, k: seq<string>)
    requires IsAndExpr(s) && MayMiss(s, m, k)
    ensures ParseAnd(Open(s, m) + k) == AndRest(Erase(s), k)
    decreases s, 2
  {
    if s.Both? {
      var more := [s.kw] + (Open(s.right, m) + k);
      assert Open(s, m) + k == Tokens(s.left) + more;
      OpenNone(s.left);
      NothingCut(s.left);
      AndParses(s.left, 0, more);
      UnaryParses(s.right, m, k);
      AndStep(Erase(s.left), Erase(s.right), s.kw, Open(s.right, m) + k, k);
    } else {
      UnaryParses(s, m, k);
    }
  }

  lemma NotAnd(kw: string)
    requires EqualFold(kw, "or")
    ensures !EqualFold(kw, "and")
  {
    assert |Lower(kw)| == 2 && |Lower("and")| == 3;
  }

  lemma {:induction false} OrParses(s: Syn, m: nat, k: seq<string>)
    requires IsOrExpr(s) && MayMiss(s, m, k) && !EqualFold(Peek(k), "and")
    ensures ParseOr(Open(s, m) + k) == OrRest(Erase(s), k)
    decreases s, 3
  {
    if s.Either? {
      var more := [s.kw] + (Open(s.right, m) + k);
      assert Open(s, m) + k == Tokens(s.left) + more;
      OpenNone(s.left);
      NotAnd(s.kw);
      NothingCut(s.left);
      OrParses(s.left, 0, more);
      AndParses(s.right, m, k);
      AndEnds(Erase(s.right), k);
      OrStep(Erase(s.left), Erase(s.right), s.kw, Open(s.right, m) + k, k);
    } else {
      AndParses(s, m, k);
      AndEnds(Erase(s), k);
    }
  }

  lemma EndIsStuck()
    ensures Stuck([])
  {
    NoKeyword("");
    NotOr("");
  }

  /** The parser reads every filter of the grammar back as the tree it stands for, and
      leaves no token over, however many of its closing tokens are missing at the end. */
  lemma GrammarParses(s: Syn, m: nat)
    requires IsOrExpr(s) && m <= Closers(s)
    ensures ParseOr(Open(s, m)) == Parsed(Some(Erase(s)), [])
  {
    assert Open(s, m) + [] == Open(s, m);
    EndIsStuck();
    OrParses(s, m, []);
    OrEnds(Erase(s), []);
  }
}
