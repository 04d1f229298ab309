/** Filter-qualified paths, base[attr op "value"]: the parser glues the tokens inside the
    brackets back together without their quotes and tokenizes the result again. */
module ScimFilterBracket {
  import opened Text
  import opened ScimFilter
  import opened ScimFilterGrammar
  import opened ScimFilterLayout
  import opened ScimFilterAccepted
  import opened ScimFilterText

  /** A value that is still one token once its quotes are gone. */
  predicate Unsplit(v: string) {
    (forall i :: 0 <= i < |v| ==> !IsSeparator(v[i])) || (|v| == 1 && IsParen(v[0]))
  }

  lemma UnsplitIsOneToken(v: string)
    requires Unsplit(v) && v != "" && !IsQuote(v[0])
    ensures Tokenize(v) == [v]
  {
    if forall i :: 0 <= i < |v| ==> !IsSeparator(v[i]) {
      assert WordEnd(v) == |v|;
      assert v[..|v|] == v && v[|v|..] == "";
    } else {
      assert v[1..] == "" && v[..1] == v;
    }
  }

  lemma {:induction false} FirstTokenFits(v: string)
    ensures Tokenize(v) != [] ==> |Tokenize(v)[0]| <= |v|
    decreases |v|
  {
    if v != "" && IsBlank(v[0]) {
      FirstTokenFits(v[1..]);
    }
  }

  /** Otherwise the first token is a strictly shorter piece. */
  lemma SplitShortens(v: string)
    requires !Unsplit(v) && v != "" && !IsQuote(v[0])
    ensures Tokenize(v) != [] ==> |Tokenize(v)[0]| < |v|
  {
    if IsBlank(v[0]) {
      FirstTokenFits(v[1..]);
    } else if IsParen(v[0]) {
      assert |v| > 1;
    } else {
      assert WordEnd(v) < |v|;
    }
  }

  lemma {:induction false} AndRestKeepsLeaf(left: Node, ts: seq<string>)
    ensures AndRest(left, ts).node.None? || AndRest(left, ts).node.value == left || AndRest(left, ts).node.value.And?
    decreases |ts|
  {
    if ts != [] && EqualFold(Peek(ts), "and") {
      var r := ParseUnary(Consume(ts));
      if r.node.Some? {
        AndRestKeepsLeaf(And(left, r.node.value), r.rest);
      }
    }
  }

  lemma {:induction false} OrRestKeepsLeaf(left: Node, ts: seq<string>)
    ensures OrRest(left, ts).node.None? || OrRest(left, ts).node.value == left || OrRest(left, ts).node.value.Or?
    decreases |ts|
  {
    if ts != [] && EqualFold(Peek(ts), "or") {
      var r := ParseAnd(Consume(ts));
      if r.node.Some? {
        OrRestKeepsLeaf(Or(left, r.node.value), r.rest);
      }
    }
  }

  /** An attribute path as it is written: one word, no bracket, not the keyword "not". */
  predicate IsWordPath(a: string) {
    IsLexeme(Word(a)) && IsPath(a) && !EqualFold(a, "not")
  }

  lemma LowerPath(a: string)
    requires IsWordPath(a)
    ensures IsWordPath(Lower(a)) && Lower(Lower(a)) == Lower(a)
  {
    LowerIsLower(a);
    var low := Lower(a);
    assert forall i :: 0 <= i < |a| ==> low[i] == LowerChar(a[i]);
    assert low[0] == LowerChar(a[0]);
  }

  function InnerText(attr: string, op: CmpOp, v: string): string {
    attr + (" " + (OpWord(op) + (" " + v)))
  }

  lemma WordThenBlank(w: string, rest: string)
    requires IsLexeme(Word(w))
    ensures Tokenize(w + (" " + rest)) == [w] + Tokenize(rest)
  {
    assert (" " + rest)[0] == ' ';
    WordTokenized(w, " " + rest);
    BlanksSkipped(" ", rest);
  }

  lemma InnerTokens(attr: string, op: CmpOp, v: string)
    requires IsWordPath(attr)
    ensures Tokenize(InnerText(attr, op, v)) == [attr, OpWord(op)] + Tokenize(v)
  {
    var w := OpWord(op);
    OpWordIsOp(op);
    WordThenBlank(attr, w + (" " + v));
    WordThenBlank(w, v);
  }

  /** What the first comparison of the glued text makes of the value. */
  lemma InnerComparison(attr: string, op: CmpOp, tv: seq<string>)
    requires IsWordPath(attr) && Lower(attr) == attr
    ensures var p := ParseUnary([attr, OpWord(op)] + tv);
            if Peek(tv) == "" then p.node.None?
            else p == Parsed(Some(Cmp(attr, op, TrimQuotes(tv[0]))), tv[1..])
  {
    ConsTwo(attr, OpWord(op), tv);
    PathThen(attr, [OpWord(op)] + tv);
    ComparisonOf(attr, op, tv);
  }

  lemma ConsTwo(a: string, b: string, ts: seq<string>)
    ensures [a, b] + ts == [a] + ([b] + ts)
  {
  }

  lemma PathThen(attr: string, rest: seq<string>)
    requires IsWordPath(attr) && Lower(attr) == attr
    ensures ParseUnary([attr] + rest) == ParseComparison(attr, rest)
  {
    NotPrimary([attr] + rest);
    PathFirst(attr, rest);
  }

  lemma ComparisonOf(attr: string, op: CmpOp, tv: seq<string>)
    ensures var p := ParseComparison(attr, [OpWord(op)] + tv);
            if Peek(tv) == "" then p.node.None?
            else p == Parsed(Some(Cmp(attr, op, TrimQuotes(tv[0]))), tv[1..])
  {
    LowerFixed(OpWord(op));
    assert CmpOpOf(OpWord(op)) == Some(op) && OpWord(op) != "pr";
    assert Consume([OpWord(op)] + tv) == tv;
  }

  /** A comparison at the front of a filter stays on its own or becomes an operand. */
  lemma LeafOrLarger(ts: seq<string>, leaf: Node, rest: seq<string>)
    requires ParseUnary(ts) == Parsed(Some(leaf), rest)
    ensures var n := ParseOr(ts).node; n.None? || n.value == leaf || n.value.And? || n.value.Or?
  {
    AndRestKeepsLeaf(leaf, rest);
    var a := AndRest(leaf, rest);
    if a.node.Some? {
      OrRestKeepsLeaf(a.node.value, a.rest);
    }
  }

  lemma InnerParses(attr: string, op: CmpOp, v: string)
    requires IsWordPath(attr) && Lower(attr) == attr && v != "" && TrimQuotes(v) == v
    ensures ParseOr(Tokenize(InnerText(attr, op, v))).node == Some(Cmp(attr, op, v)) <==> Unsplit(v)
  {
    InnerTokens(attr, op, v);
    var tv := Tokenize(v);
    var ts := [attr, OpWord(op)] + tv;
    InnerComparison(attr, op, tv);
    if Unsplit(v) {
      UnsplitIsOneToken(v);
      assert ParseAnd(ts) == AndRest(Cmp(attr, op, v), []);
    } else {
      SplitShortens(v);
      if Peek(tv) == "" {
        assert ParseAnd(ts).node.None?;
      } else {
        LeafOrLarger(ts, Cmp(attr, op, TrimQuotes(tv[0])), tv[1..]);
      }
    }
  }

  lemma BracketStart(base: string, attr: string, ts: seq<string>)
    requires '[' !in base && '[' !in attr
    ensures BracketText(Lower(base + ['['] + attr), ts) == Glue(Lower(attr), ts)
  {
    var path := base + ['['] + attr;
    var low := Lower(path);
    assert low == Lower(base) + ['['] + Lower(attr);
    assert '[' !in Lower(base);
    IndexOfConcat(Lower(base), '[', Lower(attr));
    assert low[|base| + 1..] == Lower(attr);
  }

  /** A primary that leaves nothing over is the whole filter. */
  lemma AloneParses(ts: seq<string>)
    requires ts != [] && !EqualFold(ts[0], "not") && (ParsePrimary(ts).node.None? || ParsePrimary(ts).rest == [])
    ensures ParseOr(ts).node == ParsePrimary(ts).node && (ParseOr(ts).node.Some? ==> ParseOr(ts).rest == [])
  {
    NotPrimary(ts);
    var p := ParsePrimary(ts);
    if p.node.Some? {
      EndIsStuck();
      AndEnds(p.node.value, []);
      OrEnds(p.node.value, []);
    }
  }

  /** A path without a comparison behind it. */
  lemma PathAloneFails(attr: string, rest: seq<string>)
    requires IsWordPath(attr) && ParseComparison(Lower(attr), rest).node.None?
    ensures ParseOr([attr] + rest).node.None?
  {
    PathFirst(attr, rest);
    AloneParses([attr] + rest);
  }

  lemma TwoTokens(attr: string, w: string)
    requires IsLexeme(Word(attr)) && IsLexeme(Word(w))
    ensures Tokenize(attr + " " + w) == [attr] + [w]
  {
    assert attr + " " + w == attr + (" " + w);
    WordThenBlank(attr, w);
    WordTokenized(w, "");
    assert w + "" == w;
  }

  lemma TwoTokensAreNoFilter(attr: string, op: CmpOp)
    requires IsWordPath(attr) && Lower(attr) == attr
    ensures ParseOr(Tokenize(attr + " " + OpWord(op))).node.None?
  {
    var w := OpWord(op);
    OpWordIsOp(op);
    TwoTokens(attr, w);
    assert [w] + [] == [w];
    ComparisonOf(attr, op, []);
    PathAloneFails(attr, [w]);
  }

  /** Each token after a blank. */
  function Blanked(ts: seq<string>): string {
    if ts == [] then "" else " " + (ts[0] + Blanked(ts[1..]))
  }

  lemma {:induction false} JoinedIsBlanked(inner: string, ts: seq<string>)
    ensures Joined(inner, ts) == inner + Blanked(ts)
    decreases |ts|
  {
    if ts != [] {
      JoinedIsBlanked(inner + " " + ts[0], ts[1..]);
      assert inner + " " + ts[0] + Blanked(ts[1..]) == inner + (" " + (ts[0] + Blanked(ts[1..])));
    }
  }

  // ---- base[attr op "v"] ----

  function ComparisonTokens(base: string, attr: string, op: CmpOp, v: string): seq<string> {
    [base + ['['] + attr, OpWord(op), v, "]"]
  }

  lemma FourTokens(a: string, b: string, c: string, d: string)
    ensures [a, b, c, d] == [a] + ([b] + [c, d]) == [a] + ([b, c] + [d])
  {
  }

  /** What is glued before the first closing bracket decides. */
  lemma ClosedPrimary(path: string, glued: seq<string>, k: seq<string>)
    requires '[' in path && Gluable(glued)
    ensures ParsePrimary([path] + (glued + (["]"] + k))) == Parsed(ParseOr(Tokenize(Joined(AfterBracket(path), glued))).node, k)
  {
    BracketGlued(path, glued, ["]"] + k);
    assert (["]"] + k)[1..] == k;
  }

  lemma BracketedValue(base: string, attr: string, op: CmpOp, v: string)
    requires '[' !in base && IsWordPath(attr) && v != "" && TrimQuotes(v) == v && v != "]"
    ensures var p := ParsePrimary(ComparisonTokens(base, attr, op, v));
            (p.node == Some(Cmp(Lower(attr), op, v)) <==> Unsplit(v)) && p.rest == []
  {
    var path, low, w := base + ['['] + attr, Lower(attr), OpWord(op);
    OpWordIsOp(op);
    LowerPath(attr);
    AfterBracketOf(base, attr);
    FourTokens(path, w, v, "]");
    assert ["]"] + [] == ["]"];
    ClosedPrimary(path, [w, v], []);
    JoinedTwo(low, w, v);
    InnerParses(low, op, v);
  }

  lemma BracketedBracket(base: string, attr: string, op: CmpOp)
    requires '[' !in base && IsWordPath(attr)
    ensures ParsePrimary(ComparisonTokens(base, attr, op, "]")).node.None?
  {
    var path, low, w := base + ['['] + attr, Lower(attr), OpWord(op);
    OpWordIsOp(op);
    LowerPath(attr);
    AfterBracketOf(base, attr);
    FourTokens(path, w, "]", "]");
    assert ["]"] + ["]"] == ["]", "]"];
    ClosedPrimary(path, [w], ["]"]);
    JoinedOne(low, w);
    TwoTokensAreNoFilter(low, op);
  }

  /** The bracketed filter stands for attr op v exactly when v survives without its quotes:
      no blank or parenthesis in it, and not itself a closing bracket. */
  lemma BracketedPrimary(base: string, attr: string, op: CmpOp, v: string)
    requires '[' !in base && IsWordPath(attr) && v != "" && TrimQuotes(v) == v
    ensures var p := ParsePrimary(ComparisonTokens(base, attr, op, v));
            && (p.node == Some(Cmp(Lower(attr), op, v)) <==> Unsplit(v) && v != "]")
            && (if v == "]" then p.node.None? else p.rest == [])
  {
    if v == "]" {
      BracketedBracket(base, attr, op);
    } else {
      BracketedValue(base, attr, op, v);
    }
  }

  lemma JoinedOne(inner: string, a: string)
    ensures Joined(inner, [a]) == inner + " " + a
  {
    assert Joined(inner + " " + a, []) == inner + " " + a;
  }

  lemma JoinedTwo(inner: string, a: string, b: string)
    ensures Joined(inner, [a, b]) == inner + (" " + (a + (" " + b)))
  {
    JoinedIsBlanked(inner, [a, b]);
    assert [a, b][1..] == [b] && [b][1..] == [] && Blanked([]) == "";
    assert Blanked([b]) == " " + (b + "") && b + "" == b;
  }

  function BracketedText(base: string, attr: string, op: CmpOp, v: string): string {
    (base + ['['] + attr) + (" " + (OpWord(op) + (" " + (['"'] + v + ['"'] + "]"))))
  }

  lemma BracketedTokens(base: string, attr: string, op: CmpOp, v: string)
    requires IsLexeme(Word(base + ['['] + attr)) && '"' !in v
    ensures Tokenize(BracketedText(base, attr, op, v)) == ComparisonTokens(base, attr, op, v)
  {
    OpWordIsOp(op);
    var tail := ['"'] + v + ['"'] + "]";
    QuotedTokenized('"', v, "]");
    WordTokenized("]", "");
    assert "]" + "" == "]";
    assert Tokenize(tail) == [v, "]"];
    WordThenBlank(OpWord(op), tail);
    WordThenBlank(base + ['['] + attr, OpWord(op) + (" " + tail));
  }

  lemma BracketedTrimmed(base: string, attr: string, op: CmpOp, v: string)
    requires IsLexeme(Word(base + ['['] + attr))
    ensures var raw := BracketedText(base, attr, op, v); TrimSpace(raw) == raw != ""
  {
    var raw, path := BracketedText(base, attr, op, v), base + ['['] + attr;
    assert raw[0] == path[0] && raw[|raw| - 1] == ']';
    TrimNothing(raw);
  }

  lemma BracketIsNoKeyword(base: string, attr: string)
    ensures !EqualFold(base + ['['] + attr, "not")
  {
    var path := base + ['['] + attr;
    assert path[|base|] == '[' && Lower(path)[|base|] == '[';
    LowerFixed("not");
    assert '[' !in "not";
  }

  /** The text base[attr op "v"] parses to attr op v exactly when v is one word, or a single
      parenthesis, and not a closing bracket. */
  lemma BracketedComparison(base: string, attr: string, op: CmpOp, v: string)
    requires '[' !in base && IsWordPath(attr) && IsLexeme(Word(base + ['['] + attr))
    requires v != "" && '"' !in v && TrimQuotes(v) == v
    ensures Parse(BracketedText(base, attr, op, v)) == Some(Cmp(Lower(attr), op, v)) <==> Unsplit(v) && v != "]"
  {
    BracketedTrimmed(base, attr, op, v);
    BracketedTokens(base, attr, op, v);
    BracketedPrimary(base, attr, op, v);
    BracketIsNoKeyword(base, attr);
    AloneParses(ComparisonTokens(base, attr, op, v));
  }

  // ---- base[attr op "v"junk ----

  function LeftoverText(base: string, attr: string, op: CmpOp, v: string, junk: string): string {
    (base + ['['] + attr) + (" " + (OpWord(op) + (" " + (['"'] + v + ['"'] + junk))))
  }

  lemma LeftoverTokens(base: string, attr: string, op: CmpOp, v: string, junk: string)
    requires IsLexeme(Word(base + ['['] + attr)) && '"' !in v && IsLexeme(Word(junk))
    ensures Tokenize(LeftoverText(base, attr, op, v, junk)) == [base + ['['] + attr] + [OpWord(op), v, junk]
  {
    OpWordIsOp(op);
    var tail := ['"'] + v + ['"'] + junk;
    QuotedTokenized('"', v, junk);
    WordTokenized(junk, "");
    assert junk + "" == junk;
    assert Tokenize(tail) == [v, junk];
    WordThenBlank(OpWord(op), tail);
    WordThenBlank(base + ['['] + attr, OpWord(op) + (" " + tail));
  }

  predicate AllWords(ts: seq<string>) {
    forall i :: 0 <= i < |ts| ==> IsLexeme(Word(ts[i]))
  }

  /** Words joined by blanks are those words again. */
  lemma {:induction false} BlankedTokens(w: string, ts: seq<string>)
    requires IsLexeme(Word(w)) && AllWords(ts)
    ensures Tokenize(w + Blanked(ts)) == [w] + ts
    decreases |ts|
  {
    if ts == [] {
      WordTokenized(w, "");
    } else {
      BlankedTokens(ts[0], ts[1..]);
      WordThenBlank(w, ts[0] + Blanked(ts[1..]));
      assert [w] + ([ts[0]] + ts[1..]) == [w] + ts;
    }
  }

  /** The glued text: the comparison, and the junk behind it. */
  lemma LeftoverInner(attr: string, op: CmpOp, v: string, junk: string)
    requires IsWordPath(attr) && IsLexeme(Word(v)) && IsLexeme(Word(junk)) && v != "]" && junk != "]"
    ensures Glue(attr, [OpWord(op), v, junk]) == Glued(Joined(attr, [OpWord(op), v, junk]), [])
    ensures Tokenize(Joined(attr, [OpWord(op), v, junk])) == [attr, OpWord(op), v] + [junk]
  {
    var ts := [OpWord(op), v, junk];
    OpWordIsOp(op);
    assert ts + [] == ts;
    GlueAll(attr, ts, []);
    JoinedIsBlanked(attr, ts);
    BlankedTokens(attr, ts);
  }

  /** What follows a filter inside brackets is dropped without a word, and the closing
      bracket may be missing: emails[type eq "work"].value, with nothing compared, is
      accepted as type eq "work". */
  lemma LeftoverDropped(base: string, attr: string, op: CmpOp, v: string, junk: string)
    requires '[' !in base && IsWordPath(attr) && IsLexeme(Word(base + ['['] + attr))
    requires IsLexeme(Word(v)) && '"' !in v && TrimQuotes(v) == v && v != "]"
    requires IsLexeme(Word(junk)) && junk != "]" && !EqualFold(junk, "and") && !EqualFold(junk, "or")
    ensures Parse(LeftoverText(base, attr, op, v, junk)) == Some(Cmp(Lower(attr), op, v))
  {
    var raw, path, low := LeftoverText(base, attr, op, v, junk), base + ['['] + attr, Lower(attr);
    assert raw[0] == path[0] && raw[|raw| - 1] == junk[|junk| - 1];
    TrimNothing(raw);
    LeftoverTokens(base, attr, op, v, junk);
    LowerPath(attr);
    LeftoverInner(low, op, v, junk);
    AfterBracketOf(base, attr);
    BracketFirst(path, [OpWord(op), v, junk]);
    InnerRead(low, op, v, junk);
    BracketIsNoKeyword(base, attr);
    AloneParses([path] + [OpWord(op), v, junk]);
  }

  lemma AfterBracketOf(base: string, attr: string)
    requires '[' !in base && '[' !in attr
    ensures '[' in base + ['['] + attr && AfterBracket(base + ['['] + attr) == Lower(attr)
  {
    var path := base + ['['] + attr;
    assert path[|base|] == '[';
    BracketStart(base, attr, []);
  }

  lemma InnerRead(attr: string, op: CmpOp, v: string, junk: string)
    requires IsWordPath(attr) && Lower(attr) == attr && v != "" && TrimQuotes(v) == v
    requires !EqualFold(junk, "and") && !EqualFold(junk, "or")
    ensures ParseOr([attr, OpWord(op), v] + [junk]) == Parsed(Some(Cmp(attr, op, v)), [junk])
  {
    OpWordIsOp(op);
    var s := Leaf(attr, OpWord(op), v);
    UnaryIsAnd(s);
    NothingCut(s);
    OrParses(s, 0, [junk]);
    OrEnds(Erase(s), [junk]);
  }

  // ---- attr op "v ----

  function UnclosedText(attr: string, op: CmpOp, quote: char, v: string): string {
    attr + (" " + (OpWord(op) + (" " + ([quote] + v))))
  }

  lemma UnclosedTokens(attr: string, op: CmpOp, quote: char, v: string)
    requires IsWordPath(attr) && IsQuote(quote) && quote !in v
    ensures Tokenize(UnclosedText(attr, op, quote, v)) == [attr, OpWord(op), v]
  {
    OpWordIsOp(op);
    QuoteFirst(quote, v);
    WordThenBlank(OpWord(op), [quote] + v);
    WordThenBlank(attr, OpWord(op) + (" " + ([quote] + v)));
  }

  /** The closing quote of the last value may be missing. */
  lemma UnclosedQuoteAccepted(attr: string, op: CmpOp, quote: char, v: string)
    requires IsWordPath(attr) && IsQuote(quote) && v != "" && quote !in v && TrimQuotes(v) == v && !IsSpace(v[|v| - 1])
    ensures Parse(UnclosedText(attr, op, quote, v)) == Some(Cmp(Lower(attr), op, v))
  {
    var raw := UnclosedText(attr, op, quote, v);
    assert raw[0] == attr[0] && raw[|raw| - 1] == v[|v| - 1];
    TrimNothing(raw);
    UnclosedTokens(attr, op, quote, v);
    OpWordIsOp(op);
    var s := Leaf(attr, OpWord(op), v);
    UnaryIsAnd(s);
    OpenNone(s);
    GrammarParses(s, 0);
  }

  // ---- attr op "" ----

  function EmptyText(attr: string, op: CmpOp, quote: char): string {
    attr + (" " + (OpWord(op) + (" " + [quote, quote])))
  }

  lemma EmptyTokens(attr: string, op: CmpOp, quote: char)
    requires IsWordPath(attr) && IsQuote(quote)
    ensures Tokenize(EmptyText(attr, op, quote)) == [attr, OpWord(op), ""]
  {
    OpWordIsOp(op);
    QuotedTokenized(quote, "", "");
    assert [quote] + "" + [quote] + "" == [quote, quote];
    WordThenBlank(OpWord(op), [quote, quote]);
    WordThenBlank(attr, OpWord(op) + (" " + [quote, quote]));
  }

  /** An empty quoted value, as in attr eq "", makes the whole text no filter. */
  lemma EmptyValueRejected(attr: string, op: CmpOp, quote: char)
    requires IsWordPath(attr) && IsQuote(quote)
    ensures Parse(EmptyText(attr, op, quote)) == None
  {
    var raw := EmptyText(attr, op, quote);
    assert raw[0] == attr[0] && raw[|raw| - 1] == quote;
    TrimNothing(raw);
    EmptyTokens(attr, op, quote);
    var ts := [attr, OpWord(op), ""];
    assert ts == [attr] + [OpWord(op), ""] && [OpWord(op), ""] == [OpWord(op)] + [""];
    ComparisonOf(Lower(attr), op, [""]);
    PathAloneFails(attr, [OpWord(op), ""]);
  }
}
