/** The SCIM filter language (section 3.4.2.2 of RFC 7644): tokenizer, recursive-descent
    parser and evaluator. The functions say what the program's loops compute. */
module ScimFilter {
  import opened Text

  datatype CmpOp = Eq | Ne | Co | Sw

  datatype Node =
    | Cmp(attr: string, op: CmpOp, value: string)
    | Present(attr: string)
    | And(left: Node, right: Node)
    | Or(left: Node, right: Node)
    | Not(child: Node)

  // ---- evaluator ----

  function AttrOf(attrs: map<string, string>, name: string): string {
    if name in attrs then attrs[name] else ""
  }

  predicate CmpHolds(op: CmpOp, got: string, want: string) {
    match op
    case Eq => got == want
    case Ne => got != want
    case Co => Contains(got, want)
    case Sw => want <= got
  }

  predicate Eval(n: Node, attrs: map<string, string>) {
    match n
    case And(l, r) => Eval(l, attrs) && Eval(r, attrs)
    case Or(l, r) => Eval(l, attrs) || Eval(r, attrs)
    case Not(c) => !Eval(c, attrs)
    case Present(a) => AttrOf(attrs, a) != ""
    case Cmp(a, op, v) => CmpHolds(op, Lower(AttrOf(attrs, a)), Lower(v))
  }

  // ---- tokenizer ----

  predicate IsBlank(c: char) {
    c == ' ' || c == '\t'
  }

  predicate IsParen(c: char) {
    c == '(' || c == ')'
  }

  predicate IsQuote(c: char) {
    c == '"' || c == '\''
  }

  predicate IsSeparator(c: char) {
    IsBlank(c) || IsParen(c)
  }

  /** Where the word that starts `s` ends. */
  function WordEnd(s: string): (j: nat)
    ensures j <= |s|
    ensures forall k :: 0 <= k < j ==> !IsSeparator(s[k])
    ensures j < |s| ==> IsSeparator(s[j])
  {
    if s == "" || IsSeparator(s[0]) then 0 else 1 + WordEnd(s[1..])
  }

  function Tokenize(raw: string): seq<string>
    decreases |raw|
  {
    if raw == "" then []
    else if IsBlank(raw[0]) then Tokenize(raw[1..])
    else if IsParen(raw[0]) then [raw[..1]] + Tokenize(raw[1..])
    else if IsQuote(raw[0]) then
      var j := 1 + IndexOf(raw[1..], raw[0]);
      [raw[1..j]] + Tokenize(if j < |raw| then raw[j + 1..] else "")
    else
      var j := WordEnd(raw);
      [raw[..j]] + Tokenize(raw[j..])
  }

  // ---- how many '[' are left: the termination measure ----

  function Count(s: string): nat {
    if s == "" then 0 else (if s[0] == '[' then 1 else 0) + Count(s[1..])
  }

  function Brackets(ts: seq<string>): nat {
    if ts == [] then 0 else Count(ts[0]) + Brackets(ts[1..])
  }

  lemma {:induction false} CountConcat(a: string, b: string)
    ensures Count(a + b) == Count(a) + Count(b)
    decreases |a|
  {
    if a == "" {
      assert a + b == b;
    } else {
      assert (a + b)[1..] == a[1..] + b;
      CountConcat(a[1..], b);
    }
  }

  lemma {:induction false} CountLower(s: string)
    ensures Count(Lower(s)) == Count(s)
  {
    if s != "" {
      assert Lower(s)[1..] == Lower(s[1..]);
      CountLower(s[1..]);
    }
  }

  lemma {:induction false} CountSplit(s: string, j: nat)
    requires j <= |s|
    ensures Count(s[..j]) + Count(s[j..]) == Count(s)
  {
    var a, b := s[..j], s[j..];
    assert a + b == s;
    CountConcat(a, b);
  }

  /** Tokenizing never invents a bracket. */
  lemma {:induction false} TokenizeBrackets(raw: string)
    ensures Brackets(Tokenize(raw)) <= Count(raw)
    decreases |raw|
  {
    if raw != "" {
      CountSplit(raw, 1);
      if IsBlank(raw[0]) || IsParen(raw[0]) {
        TokenizeBrackets(raw[1..]);
      } else if IsQuote(raw[0]) {
        var j := 1 + IndexOf(raw[1..], raw[0]);
        var rest := if j < |raw| then raw[j + 1..] else "";
        CountSplit(raw[1..], j - 1);
        assert raw[1..][..j - 1] == raw[1..j] && raw[1..][j - 1..] == raw[j..];
        if j < |raw| {
          CountSplit(raw[j..], 1);
          assert raw[j..][1..] == rest;
        }
        TokenizeBrackets(rest);
      } else {
        var j := WordEnd(raw);
        CountSplit(raw, j);
        TokenizeBrackets(raw[j..]);
      }
    }
  }

  // ---- parser ----

  function Peek(ts: seq<string>): string {
    if ts == [] then "" else ts[0]
  }

  function Consume(ts: seq<string>): (rest: seq<string>)
    ensures |rest| <= |ts| && Brackets(rest) <= Brackets(ts)
    ensures ts != [] ==> |rest| < |ts|
  {
    if ts == [] then [] else ts[1..]
  }

  /** What a parse returns: nil or a node, and the tokens it has not consumed. */
  datatype Parsed = Parsed(node: Option<Node>, rest: seq<string>)

  datatype Glued = Glued(inner: string, rest: seq<string>)

  /** Joins tokens with single blanks until a "]" token, an empty token or the end. */
  function Glue(inner: string, ts: seq<string>): (g: Glued)
    ensures |g.rest| <= |ts| && Brackets(g.rest) <= Brackets(ts)
    decreases |ts|
  {
    if Peek(ts) == "]" || Peek(ts) == "" then Glued(inner, ts)
    else Glue(inner + " " + ts[0], ts[1..])
  }

  lemma {:induction false} GlueBrackets(inner: string, ts: seq<string>)
    ensures Count(Glue(inner, ts).inner) <= Count(inner) + Brackets(ts)
    decreases |ts|
  {
    if Peek(ts) != "]" && Peek(ts) != "" {
      CountConcat(inner + " ", ts[0]);
      CountConcat(inner, " ");
      GlueBrackets(inner + " " + ts[0], ts[1..]);
    }
  }

  function CmpOpOf(word: string): Option<CmpOp> {
    if word == "eq" then Some(Eq)
    else if word == "ne" then Some(Ne)
    else if word == "co" then Some(Co)
    else if word == "sw" then Some(Sw)
    else None
  }

  function TrimQuotes(s: string): string {
    Trim(s, IsQuote)
  }

  /** attrPath pr | attrPath op value, after the path token. */
  function ParseComparison(attr: string, ts: seq<string>): (p: Parsed)
    ensures |p.rest| <= |ts| && Brackets(p.rest) <= Brackets(ts)
  {
    var op := Lower(Peek(ts));
    if op == "" then Parsed(None, ts)
    else if op == "pr" then Parsed(Some(Present(attr)), Consume(ts))
    else
      match CmpOpOf(op)
      case None => Parsed(None, ts)
      case Some(cmp) =>
        var value := Peek(Consume(ts));
        Parsed(if value == "" then None else Some(Cmp(attr, cmp, TrimQuotes(value))), Consume(Consume(ts)))
  }

  /** The text inside the brackets of "base[...": glued, to be tokenized again. */
  function BracketText(attr: string, ts: seq<string>): Glued {
    Glue(attr[if IndexOf(attr, '[') < |attr| then IndexOf(attr, '[') + 1 else |attr|..], ts)
  }

  lemma {:induction false} CountAfter(s: string, i: nat)
    requires i < |s| && s[i] == '['
    ensures Count(s[i + 1..]) < Count(s)
  {
    CountSplit(s, i);
    CountSplit(s[i..], 1);
    assert s[i..][1..] == s[i + 1..] && s[i..][..1] == "[";
  }

  lemma BracketStays(attr: string)
    requires '[' in attr
    ensures var i := IndexOf(Lower(attr), '['); i < |Lower(attr)| && Lower(attr)[i] == '['
  {
    var k :| 0 <= k < |attr| && attr[k] == '[';
    assert Lower(attr)[k] == '[';
  }

  lemma BracketTextShrinks(attr: string, ts: seq<string>)
    requires '[' in attr
    ensures Brackets(Tokenize(BracketText(Lower(attr), ts).inner)) < Count(attr) + Brackets(ts)
  {
    var low := Lower(attr);
    var i := IndexOf(low, '[');
    BracketStays(attr);
    CountLower(attr);
    CountAfter(low, i);
    GlueBrackets(low[i + 1..], ts);
    TokenizeBrackets(BracketText(low, ts).inner);
  }

  function ParseOr(ts: seq<string>): (p: Parsed)
    ensures |p.rest| <= |ts| && Brackets(p.rest) <= Brackets(ts)
    decreases Brackets(ts), |ts|, 6
  {
    var l := ParseAnd(ts);
    if l.node.None? then l else OrRest(l.node.value, l.rest)
  }

  /** The loop of parseOr once its left operand is known. */
  function OrRest(left: Node, ts: seq<string>): (p: Parsed)
    ensures |p.rest| <= |ts| && Brackets(p.rest) <= Brackets(ts)
    decreases Brackets(ts), |ts|, 5
  {
    if ts != [] && EqualFold(Peek(ts), "or") then
      var r := ParseAnd(Consume(ts));
      if r.node.None? then r else OrRest(Or(left, r.node.value), r.rest)
    else Parsed(Some(left), ts)
  }

  function ParseAnd(ts: seq<string>): (p: Parsed)
    ensures |p.rest| <= |ts| && Brackets(p.rest) <= Brackets(ts)
    decreases Brackets(ts), |ts|, 4
  {
    var l := ParseUnary(ts);
    if l.node.None? then l else AndRest(l.node.value, l.rest)
  }

  function AndRest(left: Node, ts: seq<string>): (p: Parsed)
    ensures |p.rest| <= |ts| && Brackets(p.rest) <= Brackets(ts)
    decreases Brackets(ts), |ts|, 3
  {
    if ts != [] && EqualFold(Peek(ts), "and") then
      var r := ParseUnary(Consume(ts));
      if r.node.None? then r else AndRest(And(left, r.node.value), r.rest)
    else Parsed(Some(left), ts)
  }

  function ParseUnary(ts: seq<string>): (p: Parsed)
    ensures |p.rest| <= |ts| && Brackets(p.rest) <= Brackets(ts)
    decreases Brackets(ts), |ts|, 2
  {
    if ts != [] && EqualFold(Peek(ts), "not") then
      var c := ParsePrimary(Consume(ts));
      Parsed(if c.node.None? then None else Some(Not(c.node.value)), c.rest)
    else ParsePrimary(ts)
  }

  function ParsePrimary(ts: seq<string>): (p: Parsed)
    ensures |p.rest| <= |ts| && Brackets(p.rest) <= Brackets(ts)
    decreases Brackets(ts), |ts|, 1
  {
    if ts != [] && Peek(ts) == "(" then
      var inner := ParseOr(Consume(ts));
      Parsed(inner.node, if Peek(inner.rest) == ")" then Consume(inner.rest) else inner.rest)
    else if Peek(ts) == "" then Parsed(None, Consume(ts))
    else
      var attr := Lower(ts[0]);
      if '[' in ts[0] then
        var g := BracketText(attr, ts[1..]);
        BracketTextShrinks(ts[0], ts[1..]);
        Parsed(ParseOr(Tokenize(g.inner)).node, if Peek(g.rest) == "]" then Consume(g.rest) else g.rest)
      else ParseComparison(attr, ts[1..])
  }

  /** ParseSCIMFilter: None for an empty, unparseable or not fully consumed filter. */
  function Parse(raw: string): Option<Node> {
    var s := TrimSpace(raw);
    if s == "" then None
    else
      var p := ParseOr(Tokenize(s));
      if p.rest != [] then None else p.node
  }
}
