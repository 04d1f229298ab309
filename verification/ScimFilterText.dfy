/** How a tree is written as a filter, with every pair of parentheses or with the fewest;
    that the text is read back as the tree; and exactly which texts are filters. */
module ScimFilterText {
  import opened Text
  import opened ScimFilter
  import opened ScimFilterGrammar
  import opened ScimFilterAccepted
  import opened ScimFilterLayout

  // ---- any layout of a filter is parsed ----

  /** Any text that lays out a filter of the grammar parses to the tree it stands for,
      whichever closing tokens are missing at its end. */
  lemma FilterTextParses(s: Syn, m: nat, items: seq<Item>)
    requires IsOrExpr(s) && m <= Closers(s) && WellSpaced(items) && ItemTokens(items) == Open(s, m)
    ensures Parse(Source(items)) == Some(Erase(s))
  {
    OpenNotEmpty(s, m);
    GrammarParses(s, m);
    TrimmedSource(items);
    var d := DropLastGap(items);
    DropLastGapShape(items);
    SourceTokenized(d);
    ItemTokensOf(d);
    ItemTokensOf(items);
  }

  // ---- exactly which texts are filters ----

  /** The text, but perhaps for a quote that is open at its end, lays out these items. */
  predicate LaysOut(text: string, items: seq<Item>) {
    Laid(items) && (Source(items) == text || (QuoteOpen(text).Some? && Source(items) == text + [QuoteOpen(text).value]))
  }

  lemma LaidTokens(text: string, items: seq<Item>)
    requires LaysOut(text, items)
    ensures Tokenize(text) == ItemTokens(items)
  {
    SourceTokenized(items);
    if Source(items) != text {
      QuoteIsQuote(text);
      LastQuoteIff(text, QuoteOpen(text).value);
    }
  }

  lemma {:induction false} QuoteIsQuote(text: string)
    ensures QuoteOpen(text).Some? ==> IsQuote(QuoteOpen(text).value)
    decreases |text|
  {
    if text != "" && (IsBlank(text[0]) || IsParen(text[0])) {
      QuoteIsQuote(text[1..]);
    } else if text != "" && IsQuote(text[0]) {
      var j := 1 + IndexOf(text[1..], text[0]);
      if j < |text| {
        QuoteIsQuote(text[j + 1..]);
      }
    } else if text != "" {
      QuoteIsQuote(text[WordEnd(text)..]);
    }
  }

  /** A text parses to a tree if and only if, blanks around it and a missing last quote
      aside, it lays out the tokens of a filter of the grammar for that tree, of which
      closing tokens at the end may be missing. */
  lemma FilterAcceptedIff(raw: string, n: Node)
    ensures Parse(raw) == Some(n) <==> exists items :: LaysOut(TrimSpace(raw), items) && StandsFor(ItemTokens(items), n)
  {
    var text := TrimSpace(raw);
    AcceptedIff(Tokenize(text), n);
    if Parse(raw) == Some(n) {
      var items := TextIsLaid(text);
      assert LaysOut(text, items);
    }
    if items :| LaysOut(text, items) && StandsFor(ItemTokens(items), n) {
      LaidTokens(text, items);
    }
  }

  /** The last quote of a filter may be left off. */
  lemma LastQuoteMayBeMissing(raw: string, q: char)
    requires TrimSpace(raw) == raw && QuoteOpen(raw) == Some(q)
    ensures Parse(raw + [q]) == Parse(raw)
  {
    QuoteIsQuote(raw);
    LastQuoteIff(raw, q);
    assert raw != "" && (raw + [q])[0] == raw[0];
    TrimNothing(raw + [q]);
  }

  // ---- two printers ----

  function OpWord(op: CmpOp): string {
    match op case Eq => "eq" case Ne => "ne" case Co => "co" case Sw => "sw"
  }

  lemma OpWordIsOp(op: CmpOp)
    ensures CmpOpOf(Lower(OpWord(op))) == Some(op) && OpOf(OpWord(op)) == op && IsLexeme(Word(OpWord(op)))
  {
    LowerFixed(OpWord(op));
  }

  /** The quote that does not occur in the value. */
  function QuoteFor(v: string): (q: char)
    ensures IsQuote(q)
  {
    if '"' in v then '\'' else '"'
  }

  /** A value that can be put between quotes and is not trimmed afterwards. */
  predicate IsValue(v: string) {
    v != "" && TrimQuotes(v) == v && QuoteFor(v) !in v
  }

  /** A path that stands as one word and is its own lower-case form. */
  predicate IsName(a: string) {
    IsLexeme(Word(a)) && IsPath(a) && Lower(a) == a && !EqualFold(a, "not")
  }

  /** A tree that has a concrete syntax. */
  predicate Printable(n: Node) {
    match n
    case Cmp(a, _, v) => IsName(a) && IsValue(v)
    case Present(a) => IsName(a)
    case And(l, r) => Printable(l) && Printable(r)
    case Or(l, r) => Printable(l) && Printable(r)
    case Not(c) => Printable(c)
  }

  /** Every branch in parentheses. */
  function PrintFull(n: Node): Syn {
    match n
    case Cmp(a, op, v) => Leaf(a, OpWord(op), v)
    case Present(a) => Has(a, "pr")
    case And(l, r) => Group(Both(PrintFull(l), "and", PrintFull(r)))
    case Or(l, r) => Group(Either(PrintFull(l), "or", PrintFull(r)))
    case Not(c) => Group(Negate("not", PrintFull(c)))
  }

  datatype Level = AsOr | AsAnd | AsUnary | AsPrimary

  /** Whether a node may stand at a level without parentheses. */
  predicate Fits(n: Node, level: Level) {
    match n
    case Or(_, _) => level.AsOr?
    case And(_, _) => level.AsOr? || level.AsAnd?
    case Not(_) => !level.AsPrimary?
    case _ => true
  }

  /** Parentheses only where precedence needs them. */
  function PrintMinimal(n: Node, level: Level): Syn
    decreases n, if Fits(n, level) then 0 else 1
  {
    if !Fits(n, level) then Group(PrintMinimal(n, AsOr))
    else
      match n
      case Cmp(a, op, v) => Leaf(a, OpWord(op), v)
      case Present(a) => Has(a, "pr")
      case And(l, r) => Both(PrintMinimal(l, AsAnd), "and", PrintMinimal(r, AsUnary))
      case Or(l, r) => Either(PrintMinimal(l, AsOr), "or", PrintMinimal(r, AsAnd))
      case Not(c) => Negate("not", PrintMinimal(c, AsPrimary))
  }

  predicate IsAt(s: Syn, level: Level) {
    match level
    case AsOr => IsOrExpr(s)
    case AsAnd => IsAndExpr(s)
    case AsUnary => IsUnaryExpr(s)
    case AsPrimary => IsPrimary(s)
  }

  /** A primary, and so a filter at every level, that spells the tree. */
  predicate Prints(s: Syn, n: Node) {
    IsPrimary(s) && IsUnaryExpr(s) && IsAndExpr(s) && IsOrExpr(s) && Erase(s) == n && Spellable(s)
  }

  lemma LeafIsAt(n: Node)
    requires Printable(n) && (n.Cmp? || n.Present?)
    ensures Prints(PrintFull(n), n)
  {
    if n.Cmp? {
      OpWordIsOp(n.op);
    } else {
      LowerFixed("pr");
    }
    UnaryIsAnd(PrintFull(n));
  }

  lemma GroupIsAt(c: Syn)
    requires IsOrExpr(c)
    ensures IsPrimary(Group(c)) && IsUnaryExpr(Group(c)) && IsAndExpr(Group(c)) && IsOrExpr(Group(c))
  {
    UnaryIsAnd(Group(c));
  }

  lemma NegateIsAt(c: Syn)
    requires IsPrimary(c)
    ensures var s := Negate("not", c); IsUnaryExpr(s) && IsAndExpr(s) && IsOrExpr(s)
  {
    UnaryIsAnd(Negate("not", c));
  }

  lemma BothIsAt(l: Syn, r: Syn)
    requires IsAndExpr(l) && IsUnaryExpr(r)
    ensures IsOrExpr(Both(l, "and", r))
  {
    AndIsOr(Both(l, "and", r));
  }

  lemma EitherIsAt(l: Syn, r: Syn)
    requires IsOrExpr(l) && IsAndExpr(r)
    ensures IsOrExpr(Either(l, "or", r))
  {
  }

  lemma OperatorsAreWords()
    ensures IsLexeme(Word("and")) && IsLexeme(Word("or")) && IsLexeme(Word("not"))
  {
  }

  lemma GroupedAnd(l: Syn, r: Syn, a: Node, b: Node)
    requires Prints(l, a) && Prints(r, b)
    ensures Prints(Group(Both(l, "and", r)), And(a, b))
  {
    BothIsAt(l, r);
    GroupIsAt(Both(l, "and", r));
    OperatorsAreWords();
  }

  lemma GroupedOr(l: Syn, r: Syn, a: Node, b: Node)
    requires Prints(l, a) && Prints(r, b)
    ensures Prints(Group(Either(l, "or", r)), Or(a, b))
  {
    EitherIsAt(l, r);
    GroupIsAt(Either(l, "or", r));
    OperatorsAreWords();
  }

  lemma GroupedNot(c: Syn, a: Node)
    requires Prints(c, a)
    ensures Prints(Group(Negate("not", c)), Not(a))
  {
    NegateIsAt(c);
    GroupIsAt(Negate("not", c));
    OperatorsAreWords();
  }

  lemma {:induction false} PrintFullIsPrimary(n: Node)
    requires Printable(n)
    ensures Prints(PrintFull(n), n)
  {
    match n
    case And(l, r) =>
      PrintFullIsPrimary(l);
      PrintFullIsPrimary(r);
      GroupedAnd(PrintFull(l), PrintFull(r), l, r);
    case Or(l, r) =>
      PrintFullIsPrimary(l);
      PrintFullIsPrimary(r);
      GroupedOr(PrintFull(l), PrintFull(r), l, r);
    case Not(c) =>
      PrintFullIsPrimary(c);
      GroupedNot(PrintFull(c), c);
    case _ => LeafIsAt(n);
  }

  lemma {:induction false} PrintMinimalIsAt(n: Node, level: Level)
    requires Printable(n)
    ensures var s := PrintMinimal(n, level); IsAt(s, level) && Erase(s) == n && Spellable(s)
    decreases n, if Fits(n, level) then 0 else 1
  {
    if !Fits(n, level) {
      PrintMinimalIsAt(n, AsOr);
      GroupIsAt(PrintMinimal(n, AsOr));
    } else {
      match n
      case And(l, r) =>
        PrintMinimalIsAt(l, AsAnd);
        PrintMinimalIsAt(r, AsUnary);
        AndIsOr(PrintMinimal(n, level));
      case Or(l, r) =>
        PrintMinimalIsAt(l, AsOr);
        PrintMinimalIsAt(r, AsAnd);
      case Not(c) =>
        PrintMinimalIsAt(c, AsPrimary);
        NegateIsAt(PrintMinimal(c, AsPrimary));
      case _ => LeafIsAt(n);
    }
  }

  // ---- the printed text ----

  /** All words can stand as words, and all values between quotes. */
  predicate Spellable(s: Syn) {
    match s
    case Leaf(a, op, v) => IsLexeme(Word(a)) && IsLexeme(Word(op)) && QuoteFor(v) !in v
    case Has(a, pr) => IsLexeme(Word(a)) && IsLexeme(Word(pr))
    case Negate(kw, c) => IsLexeme(Word(kw)) && Spellable(c)
    case Both(l, kw, r) => Spellable(l) && IsLexeme(Word(kw)) && Spellable(r)
    case Either(l, kw, r) => Spellable(l) && IsLexeme(Word(kw)) && Spellable(r)
    case Group(c) => Spellable(c)
    case Bracket(_, _, _, _, _) => false
  }

  function Lexemes(s: Syn): seq<Lexeme> {
    match s
    case Leaf(a, op, v) => [Word(a), Word(op), Quoted(QuoteFor(v), v)]
    case Has(a, pr) => [Word(a), Word(pr)]
    case Negate(kw, c) => [Word(kw)] + Lexemes(c)
    case Both(l, kw, r) => Lexemes(l) + ([Word(kw)] + Lexemes(r))
    case Either(l, kw, r) => Lexemes(l) + ([Word(kw)] + Lexemes(r))
    case Group(c) => [Mark('(')] + (Lexemes(c) + [Mark(')')])
    case Bracket(_, _, _, _, _) => []
  }

  lemma {:induction false} LexemesAreTokens(s: Syn)
    requires Spellable(s)
    ensures TokenList(Lexemes(s)) == Tokens(s)
  {
    match s
    case Leaf(a, op, v) =>
      TokenListOne(Word(a), [Word(op), Quoted(QuoteFor(v), v)]);
      TokenListOne(Word(op), [Quoted(QuoteFor(v), v)]);
    case Has(a, pr) =>
      TokenListOne(Word(a), [Word(pr)]);
    case Negate(kw, c) =>
      LexemesAreTokens(c);
      TokenListOne(Word(kw), Lexemes(c));
    case Both(l, kw, r) =>
      LexemesAreTokens(l);
      LexemesAreTokens(r);
      TokenListOne(Word(kw), Lexemes(r));
      TokenListConcat(Lexemes(l), [Word(kw)] + Lexemes(r));
    case Either(l, kw, r) =>
      LexemesAreTokens(l);
      LexemesAreTokens(r);
      TokenListOne(Word(kw), Lexemes(r));
      TokenListConcat(Lexemes(l), [Word(kw)] + Lexemes(r));
    case Group(c) =>
      LexemesAreTokens(c);
      TokenListOne(Mark('('), Lexemes(c) + [Mark(')')]);
      TokenListConcat(Lexemes(c), [Mark(')')]);
    case _ =>
  }

  predicate AllLexemes(xs: seq<Lexeme>) {
    forall i :: 0 <= i < |xs| ==> IsLexeme(xs[i])
  }

  lemma {:induction false} LexemesAreLexemes(s: Syn)
    requires Spellable(s)
    ensures AllLexemes(Lexemes(s))
  {
    match s
    case Negate(_, c) => LexemesAreLexemes(c);
    case Both(l, _, r) =>
      LexemesAreLexemes(l);
      LexemesAreLexemes(r);
    case Either(l, _, r) =>
      LexemesAreLexemes(l);
      LexemesAreLexemes(r);
    case Group(c) => LexemesAreLexemes(c);
    case _ =>
  }

  /** One blank after each lexeme. */
  function Spaced(xs: seq<Lexeme>): seq<Item> {
    if xs == [] then [] else [Item(xs[0], " ")] + Spaced(xs[1..])
  }

  lemma {:induction false} SpacedIsLayout(xs: seq<Lexeme>)
    requires AllLexemes(xs)
    ensures WellSpaced(Spaced(xs)) && ItemTokens(Spaced(xs)) == TokenList(xs)
    decreases |xs|
  {
    if xs != [] {
      SpacedIsLayout(xs[1..]);
      assert Spaced(xs)[1..] == Spaced(xs[1..]);
    }
  }

  /** A filter as a string. */
  function FilterText(s: Syn): string {
    Source(Spaced(Lexemes(s)))
  }

  function Print(n: Node, full: bool): string {
    FilterText(if full then PrintFull(n) else PrintMinimal(n, AsOr))
  }

  lemma FilterTextOf(s: Syn)
    requires IsOrExpr(s) && Spellable(s)
    ensures Parse(FilterText(s)) == Some(Erase(s))
  {
    LexemesAreLexemes(s);
    SpacedIsLayout(Lexemes(s));
    LexemesAreTokens(s);
    OpenNone(s);
    FilterTextParses(s, 0, Spaced(Lexemes(s)));
  }

  /** Printing a tree, with all parentheses or with the fewest, and parsing the text
      returns the tree. */
  lemma PrintedFilterParses(n: Node, full: bool)
    requires Printable(n)
    ensures Parse(Print(n, full)) == Some(n)
  {
    PrintFullIsPrimary(n);
    PrintMinimalIsAt(n, AsOr);
    FilterTextOf(if full then PrintFull(n) else PrintMinimal(n, AsOr));
  }

  // ---- what the text means ----

  /** A user matches a text that parses to a filter which holds of him. */
  predicate Matches(text: string, attrs: map<string, string>) {
    Parse(text).Some? && Eval(Parse(text).value, attrs)
  }

  lemma PrintedMatches(n: Node, full: bool, attrs: map<string, string>)
    requires Printable(n)
    ensures Matches(Print(n, full), attrs) <==> Eval(n, attrs)
  {
    PrintedFilterParses(n, full);
  }

  /** The text of a compound filter matches as its parts do. */
  lemma TextMeans(l: Node, r: Node, full: bool, attrs: map<string, string>)
    requires Printable(l) && Printable(r)
    ensures Matches(Print(And(l, r), full), attrs) <==> Matches(Print(l, full), attrs) && Matches(Print(r, full), attrs)
    ensures Matches(Print(Or(l, r), full), attrs) <==> Matches(Print(l, full), attrs) || Matches(Print(r, full), attrs)
    ensures Matches(Print(Not(l), full), attrs) <==> !Matches(Print(l, full), attrs)
  {
    PrintedMatches(l, full, attrs);
    PrintedMatches(r, full, attrs);
    PrintedMatches(And(l, r), full, attrs);
    PrintedMatches(Or(l, r), full, attrs);
    PrintedMatches(Not(l), full, attrs);
  }

  /** And ne is the negation of eq. */
  lemma NeIsNotEq(attr: string, value: string, full: bool, attrs: map<string, string>)
    requires IsName(attr) && IsValue(value)
    ensures Matches(Print(Cmp(attr, Ne, value), full), attrs) <==> !Matches(Print(Cmp(attr, Eq, value), full), attrs)
  {
    PrintedMatches(Cmp(attr, Ne, value), full, attrs);
    PrintedMatches(Cmp(attr, Eq, value), full, attrs);
  }

  // ---- the fewest parentheses ----

  /** Pairs of parentheses or brackets. */
  function Groups(s: Syn): nat {
    match s
    case Leaf(_, _, _) => 0
    case Has(_, _) => 0
    case Negate(_, c) => Groups(c)
    case Both(l, _, r) => Groups(l) + Groups(r)
    case Either(l, _, r) => Groups(l) + Groups(r)
    case Group(c) => 1 + Groups(c)
    case Bracket(_, _, inner, _, _) => 1 + Groups(inner)
  }

  lemma FittingIsAsOr(n: Node, level: Level)
    requires Fits(n, level)
    ensures PrintMinimal(n, level) == PrintMinimal(n, AsOr)
  {
  }

  /** What a level lets stand without parentheses. */
  lemma PartsAt(s: Syn, level: Level)
    requires IsAt(s, level)
    ensures s.Both? || s.Either? || s.Negate? ==> Fits(Erase(s), level)
    ensures s.Group? ==> IsOrExpr(s.child)
    ensures s.Bracket? ==> IsOrExpr(s.inner)
    ensures s.Both? ==> IsAndExpr(s.left) && IsUnaryExpr(s.right)
    ensures s.Either? ==> IsOrExpr(s.left) && IsAndExpr(s.right)
    ensures s.Negate? ==> IsPrimary(s.child)
  {
    assert IsPrimary(s) ==> s.Leaf? || s.Has? || (s.Group? && IsOrExpr(s.child)) || (s.Bracket? && IsOrExpr(s.inner));
    assert IsUnaryExpr(s) ==> (s.Negate? && IsPrimary(s.child)) || IsPrimary(s);
    assert IsAndExpr(s) ==> s.Both? || IsUnaryExpr(s);
    assert IsOrExpr(s) ==> s.Either? || IsAndExpr(s);
  }

  lemma {:induction false} NoFewerGroups(s: Syn, level: Level)
    requires IsAt(s, level)
    ensures Groups(PrintMinimal(Erase(s), level)) <= Groups(s)
    decreases s
  {
    var n := Erase(s);
    match s
    case Group(c) =>
      PartsAt(s, level);
      NoFewerGroups(c, AsOr);
      if Fits(n, level) {
        FittingIsAsOr(n, level);
      }
    case Bracket(_, _, inner, _, _) =>
      PartsAt(s, level);
      NoFewerGroups(inner, AsOr);
      if Fits(n, level) {
        FittingIsAsOr(n, level);
      }
    case Both(l, _, r) =>
      PartsAt(s, level);
      NoFewerGroups(l, AsAnd);
      NoFewerGroups(r, AsUnary);
    case Either(l, _, r) =>
      PartsAt(s, level);
      NoFewerGroups(l, AsOr);
      NoFewerGroups(r, AsAnd);
    case Negate(_, c) =>
      PartsAt(s, level);
      NoFewerGroups(c, AsPrimary);
    case _ =>
  }

  /** No filter of the grammar for the same tree has fewer pairs of parentheses or brackets. */
  lemma FewestParentheses(n: Node, s: Syn)
    requires IsOrExpr(s) && Erase(s) == n
    ensures Groups(PrintMinimal(n, AsOr)) <= Groups(s)
  {
    NoFewerGroups(s, AsOr);
  }
}
