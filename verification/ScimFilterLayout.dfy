/** Filters as text: every text is a layout of its tokens, and the tokenizer undoes every
    layout. */
module ScimFilterLayout {
  import opened Text
  import opened ScimFilter

  // ---- from text to tokens ----

  datatype Lexeme = Word(text: string) | Quoted(quote: char, text: string) | Mark(c: char)

  /** A lexeme and the blanks after it. */
  datatype Item = Item(lex: Lexeme, gap: string)

  function TextOf(x: Lexeme): string {
    match x
    case Word(t) => t
    case Quoted(q, t) => [q] + t + [q]
    case Mark(c) => [c]
  }

  function TokenOf(x: Lexeme): string {
    if x.Mark? then [x.c] else x.text
  }

  /** What the tokenizer takes for one token. */
  predicate IsRough(x: Lexeme) {
    match x
    case Word(t) => t != "" && !IsQuote(t[0]) && forall i :: 0 <= i < |t| ==> !IsSeparator(t[i])
    case Quoted(q, t) => IsQuote(q) && q !in t
    case Mark(c) => IsParen(c)
  }

  /** Without line breaks and the like in a word, which would be trimmed from the ends. */
  predicate IsLexeme(x: Lexeme) {
    IsRough(x) && (x.Word? ==> forall i :: 0 <= i < |x.text| ==> !IsSpace(x.text[i]))
  }

  predicate AllBlank(s: string) {
    forall i :: 0 <= i < |s| ==> IsBlank(s[i])
  }

  /** Only a word needs a blank after it, and not before a parenthesis or the end. */
  predicate Laid(items: seq<Item>)
    decreases |items|
  {
    items != [] ==>
      && IsRough(items[0].lex) && AllBlank(items[0].gap) && Laid(items[1..])
      && (items[0].lex.Word? && items[0].gap == "" && |items| > 1 ==> items[1].lex.Mark?)
  }

  /** A layout that loses nothing when blanks are trimmed from its ends. */
  predicate WellSpaced(items: seq<Item>) {
    Laid(items) && forall i :: 0 <= i < |items| ==> IsLexeme(items[i].lex)
  }

  function Source(items: seq<Item>): string {
    if items == [] then "" else TextOf(items[0].lex) + (items[0].gap + Source(items[1..]))
  }

  function ItemTokens(items: seq<Item>): seq<string> {
    if items == [] then [] else [TokenOf(items[0].lex)] + ItemTokens(items[1..])
  }

  lemma {:induction false} BlanksSkipped(gap: string, rest: string)
    requires AllBlank(gap)
    ensures Tokenize(gap + rest) == Tokenize(rest)
  {
    if gap == "" {
      assert gap + rest == rest;
    } else {
      assert (gap + rest)[1..] == gap[1..] + rest;
      BlanksSkipped(gap[1..], rest);
    }
  }

  lemma QuotedTokenized(q: char, t: string, rest: string)
    requires IsQuote(q) && q !in t
    ensures Tokenize([q] + t + [q] + rest) == [t] + Tokenize(rest)
  {
    var s := [q] + t + [q] + rest;
    assert s[1..] == t + [q] + rest;
    IndexOfConcat(t, q, rest);
    assert s[1..1 + |t|] == t && s[|t| + 2..] == rest;
  }

  lemma WordTokenized(t: string, rest: string)
    requires IsRough(Word(t)) && (rest == "" || IsSeparator(rest[0]))
    ensures Tokenize(t + rest) == [t] + Tokenize(rest)
  {
    var s := t + rest;
    assert forall k :: 0 <= k < |t| ==> s[k] == t[k];
    assert |t| < |s| ==> s[|t|] == rest[0];
    assert WordEnd(s) == |t|;
    assert s[..|t|] == t && s[|t|..] == rest;
  }

  lemma LexemeTokenized(x: Lexeme, rest: string)
    requires IsRough(x) && (x.Word? ==> rest == "" || IsSeparator(rest[0]))
    ensures Tokenize(TextOf(x) + rest) == [TokenOf(x)] + Tokenize(rest)
  {
    match x
    case Word(t) => WordTokenized(t, rest);
    case Quoted(q, t) => QuotedTokenized(q, t, rest);
    case Mark(c) =>
      assert ([c] + rest)[1..] == rest && ([c] + rest)[..1] == [c];
  }

  /** The tokenizer undoes any layout of the lexemes. */
  lemma {:induction false} SourceTokenized(items: seq<Item>)
    requires Laid(items)
    ensures Tokenize(Source(items)) == ItemTokens(items)
    decreases |items|
  {
    if items != [] {
      var x, gap, tail := items[0].lex, items[0].gap, Source(items[1..]);
      SourceTokenized(items[1..]);
      BlanksSkipped(gap, tail);
      if x.Word? && gap == "" && |items| > 1 {
        assert items[1..][0] == items[1] && IsParen(items[1].lex.c);
        assert (gap + tail)[0] == items[1].lex.c;
      } else if gap != "" {
        assert (gap + tail)[0] == gap[0];
      }
      LexemeTokenized(x, gap + tail);
    }
  }

  function LexemesOf(items: seq<Item>): seq<Lexeme> {
    if items == [] then [] else [items[0].lex] + LexemesOf(items[1..])
  }

  function TokenList(xs: seq<Lexeme>): seq<string> {
    if xs == [] then [] else [TokenOf(xs[0])] + TokenList(xs[1..])
  }

  lemma {:induction false} TokenListConcat(a: seq<Lexeme>, b: seq<Lexeme>)
    ensures TokenList(a + b) == TokenList(a) + TokenList(b)
    decreases |a|
  {
    if a == [] {
      assert a + b == b;
    } else {
      assert (a + b)[1..] == a[1..] + b;
      TokenListConcat(a[1..], b);
    }
  }

  lemma TokenListOne(x: Lexeme, xs: seq<Lexeme>)
    ensures TokenList([x] + xs) == [TokenOf(x)] + TokenList(xs)
  {
    assert ([x] + xs)[1..] == xs;
  }

  lemma {:induction false} ItemTokensOf(items: seq<Item>)
    ensures ItemTokens(items) == TokenList(LexemesOf(items))
    decreases |items|
  {
    if items != [] {
      ItemTokensOf(items[1..]);
      TokenListOne(items[0].lex, LexemesOf(items[1..]));
    }
  }

  lemma LexemeEnds(x: Lexeme)
    requires IsLexeme(x)
    ensures var t := TextOf(x); t != "" && !IsSpace(t[0]) && !IsSpace(t[|t| - 1])
  {
  }

  /** Without the blanks at the end. */
  function DropLastGap(items: seq<Item>): (r: seq<Item>)
    ensures |r| == |items|
    ensures items != [] ==> r[0].lex == items[0].lex
    decreases |items|
  {
    if items == [] then []
    else if |items| == 1 then [items[0].(gap := "")]
    else [items[0]] + DropLastGap(items[1..])
  }

  lemma {:induction false} DropLastGapShape(items: seq<Item>)
    requires Laid(items)
    ensures Laid(DropLastGap(items)) && LexemesOf(DropLastGap(items)) == LexemesOf(items)
    decreases |items|
  {
    if |items| > 1 {
      DropLastGapShape(items[1..]);
      assert DropLastGap(items)[1..] == DropLastGap(items[1..]);
    }
  }

  lemma RegroupFour(a: string, b: string, c: string, d: string)
    ensures a + (b + (c + d)) == (a + (b + c)) + d
  {
  }

  lemma {:induction false} DropLastGapSource(items: seq<Item>) returns (gap: string)
    requires Laid(items)
    ensures AllBlank(gap) && Source(items) == Source(DropLastGap(items)) + gap
    decreases |items|
  {
    var d := DropLastGap(items);
    if items == [] {
      gap := "";
    } else if |items| == 1 {
      gap := items[0].gap;
      assert Source(items[1..]) == "" && Source(d[1..]) == "";
    } else {
      gap := DropLastGapSource(items[1..]);
      assert d[1..] == DropLastGap(items[1..]);
      var text, blanks, tail := TextOf(items[0].lex), items[0].gap, Source(d[1..]);
      RegroupFour(text, blanks, tail, gap);
    }
  }

  lemma {:induction false} DropLastGapEnds(items: seq<Item>)
    requires WellSpaced(items) && items != []
    ensures var t := Source(DropLastGap(items)); t != "" && !IsSpace(t[0]) && !IsSpace(t[|t| - 1])
    decreases |items|
  {
    var d := DropLastGap(items);
    LexemeEnds(items[0].lex);
    if |items| == 1 {
      assert Source(d) == TextOf(items[0].lex) by { assert Source(d[1..]) == ""; }
    } else {
      DropLastGapEnds(items[1..]);
      assert d[1..] == DropLastGap(items[1..]);
    }
  }

  lemma {:induction false} TrimRightBlanks(s: string, gap: string)
    requires s != "" && !IsSpace(s[|s| - 1]) && AllBlank(gap)
    ensures TrimRight(s + gap, IsSpace) == s
  {
    if gap == "" {
      assert s + gap == s;
    } else {
      var n := |gap| - 1;
      assert (s + gap)[..|s + gap| - 1] == s + gap[..n];
      TrimRightBlanks(s, gap[..n]);
    }
  }

  lemma TrimmedSource(items: seq<Item>)
    requires WellSpaced(items) && items != []
    ensures TrimSpace(Source(items)) == Source(DropLastGap(items)) != ""
  {
    var gap := DropLastGapSource(items);
    DropLastGapEnds(items);
    var t := Source(DropLastGap(items));
    assert (t + gap)[0] == t[0];
    TrimRightBlanks(t, gap);
  }

  // ---- every text is a layout of its tokens ----

  /** The quote that is still open where the text ends. */
  function QuoteOpen(raw: string): Option<char>
    decreases |raw|
  {
    if raw == "" then None
    else if IsBlank(raw[0]) || IsParen(raw[0]) then QuoteOpen(raw[1..])
    else if IsQuote(raw[0]) then
      var j := 1 + IndexOf(raw[1..], raw[0]);
      if j < |raw| then QuoteOpen(raw[j + 1..]) else Some(raw[0])
    else QuoteOpen(raw[WordEnd(raw)..])
  }

  function LeadingBlanks(s: string): (n: nat)
    ensures n <= |s| && AllBlank(s[..n]) && (n < |s| ==> !IsBlank(s[n]))
  {
    if s == "" || !IsBlank(s[0]) then 0 else 1 + LeadingBlanks(s[1..])
  }

  /** The text with the quote that is missing at its end. */
  function Completed(raw: string): string {
    if QuoteOpen(raw).Some? then raw + [QuoteOpen(raw).value] else raw
  }

  lemma {:induction false} QuoteAfterBlanks(gap: string, rest: string)
    requires AllBlank(gap)
    ensures QuoteOpen(gap + rest) == QuoteOpen(rest)
  {
    if gap == "" {
      assert gap + rest == rest;
    } else {
      assert (gap + rest)[1..] == gap[1..] + rest;
      QuoteAfterBlanks(gap[1..], rest);
    }
  }

  /** The lexeme at the front of a text. */
  lemma FrontLexeme(raw: string) returns (x: Lexeme, rest: string)
    requires raw != "" && !IsBlank(raw[0]) && !(IsQuote(raw[0]) && IndexOf(raw[1..], raw[0]) == |raw| - 1)
    ensures IsRough(x) && raw == TextOf(x) + rest && |rest| < |raw|
    ensures Tokenize(raw) == [TokenOf(x)] + Tokenize(rest) && QuoteOpen(raw) == QuoteOpen(rest)
    ensures x.Word? ==> rest == "" || IsSeparator(rest[0])
    ensures IsParen(raw[0]) ==> x.Mark?
  {
    if IsParen(raw[0]) {
      x, rest := Mark(raw[0]), raw[1..];
      assert raw[..1] == [raw[0]];
    } else if IsQuote(raw[0]) {
      var j := 1 + IndexOf(raw[1..], raw[0]);
      x, rest := Quoted(raw[0], raw[1..j]), raw[j + 1..];
      assert raw == [raw[0]] + raw[1..j] + [raw[j]] + rest;
    } else {
      var j := WordEnd(raw);
      x, rest := Word(raw[..j]), raw[j..];
    }
  }

  /** The items lay out the text, completed, and are its tokens. */
  predicate LaidAs(raw: string, items: seq<Item>) {
    && Laid(items) && ItemTokens(items) == Tokenize(raw) && Source(items) == Completed(raw)
    && (raw != "" && IsParen(raw[0]) ==> items != [] && items[0].lex.Mark?)
    && (raw == "" ==> items == [])
  }

  lemma {:induction false} TextIsLaid(raw: string) returns (items: seq<Item>)
    requires raw == "" || !IsBlank(raw[0])
    ensures LaidAs(raw, items)
    decreases |raw|
  {
    if raw == "" {
      items := [];
      assert LaidAs("", []);
    } else if IsQuote(raw[0]) && IndexOf(raw[1..], raw[0]) == |raw| - 1 {
      items := UnclosedIsLaid(raw);
    } else {
      var x, rest := FrontLexeme(raw);
      var n := LeadingBlanks(rest);
      SplitAt(rest, n);
      var more := TextIsLaid(rest[n..]);
      items := OneMoreItem(x, rest[..n], more, raw, rest[n..]);
    }
  }

  lemma SplitAt(s: string, n: nat)
    requires n <= |s|
    ensures s == s[..n] + s[n..] && |s[n..]| <= |s|
  {
  }

  lemma UnclosedIsLaid(raw: string) returns (items: seq<Item>)
    requires raw != "" && IsQuote(raw[0]) && IndexOf(raw[1..], raw[0]) == |raw| - 1
    ensures LaidAs(raw, items)
  {
    items := [Item(Quoted(raw[0], raw[1..]), "")];
    assert items[1..] == [] && Source([]) == "";
    assert Tokenize("") == [] && raw[1..|raw|] == raw[1..];
    assert Source(items) == [raw[0]] + raw[1..] + [raw[0]];
    assert raw == [raw[0]] + raw[1..];
  }

  lemma OneMoreItem(x: Lexeme, gap: string, more: seq<Item>, raw: string, tail: string) returns (items: seq<Item>)
    requires IsRough(x) && AllBlank(gap) && LaidAs(tail, more) && raw == TextOf(x) + (gap + tail) && raw != ""
    requires Tokenize(raw) == [TokenOf(x)] + Tokenize(gap + tail) && QuoteOpen(raw) == QuoteOpen(gap + tail)
    requires x.Word? && gap == "" && tail != "" ==> IsSeparator(tail[0])
    requires tail != "" ==> !IsBlank(tail[0])
    requires IsParen(raw[0]) ==> x.Mark?
    ensures LaidAs(raw, items)
  {
    items := [Item(x, gap)] + more;
    assert items[1..] == more && items[0] == Item(x, gap);
    BlanksSkipped(gap, tail);
    QuoteAfterBlanks(gap, tail);
    if QuoteOpen(tail).Some? {
      RegroupFour(TextOf(x), gap, tail, [QuoteOpen(tail).value]);
    }
  }

  // ---- a quote at the end ----

  lemma QuoteFirst(c: char, body: string)
    requires IsQuote(c)
    ensures var i := IndexOf(body, c);
            if i < |body| then Tokenize([c] + body) == [body[..i]] + Tokenize(body[i + 1..]) && QuoteOpen([c] + body) == QuoteOpen(body[i + 1..])
            else Tokenize([c] + body) == [body] && QuoteOpen([c] + body) == Some(c)
  {
    var raw, i := [c] + body, IndexOf(body, c);
    assert raw[1..] == body && raw[1..1 + i] == body[..i];
    if i < |body| {
      assert raw[i + 2..] == body[i + 1..];
    } else {
      assert body[..i] == body && Tokenize("") == [];
    }
  }

  lemma SameHead(h: string, a: seq<string>, b: seq<string>)
    ensures [h] + a == [h] + b <==> a == b
  {
    assert ([h] + a)[1..] == a && ([h] + b)[1..] == b;
  }

  /** Behind a quoted token. */
  lemma ClosedCase(c: char, body: string, q: char)
    requires IsQuote(c) && IsQuote(q) && IndexOf(body, c) < |body|
    ensures var rest := body[IndexOf(body, c) + 1..];
            && (Tokenize([c] + (body + [q])) == Tokenize([c] + body) <==> Tokenize(rest + [q]) == Tokenize(rest))
            && QuoteOpen([c] + body) == QuoteOpen(rest)
  {
    var i := IndexOf(body, c);
    QuoteFirst(c, body);
    QuoteFirst(c, body + [q]);
    FoundBefore(body, q, c);
    assert (body + [q])[..i] == body[..i] && (body + [q])[i + 1..] == body[i + 1..] + [q];
    SameHead(body[..i], Tokenize(body[i + 1..] + [q]), Tokenize(body[i + 1..]));
  }

  /** Inside a quoted token that is open. */
  lemma OpenCase(c: char, body: string, q: char)
    requires IsQuote(c) && IsQuote(q) && IndexOf(body, c) == |body|
    ensures Tokenize([c] + (body + [q])) == Tokenize([c] + body) <==> q == c
    ensures QuoteOpen([c] + body) == Some(c)
  {
    QuoteFirst(c, body);
    QuoteFirst(c, body + [q]);
    NotFoundBefore(body, q, c);
    if q == c {
      assert (body + [q])[..|body|] == body && (body + [q])[|body| + 1..] == "";
      assert Tokenize("") == [] && [body] + [] == [body];
    } else {
      assert [body + [q]][0] != [body][0];
    }
  }

  lemma NotFoundBefore(body: string, q: char, c: char)
    requires IndexOf(body, c) == |body|
    ensures IndexOf(body + [q], c) == if q == c then |body| else |body| + 1
  {
    var longer := body + [q];
    assert forall i :: 0 <= i < |body| ==> longer[i] == body[i];
    assert longer[|body|] == q;
  }

  lemma WordFirst(raw: string)
    requires raw != "" && !IsSeparator(raw[0]) && !IsQuote(raw[0])
    ensures var j := WordEnd(raw);
            0 < j && Tokenize(raw) == [raw[..j]] + Tokenize(raw[j..]) && QuoteOpen(raw) == QuoteOpen(raw[j..])
  {
  }

  /** Behind a word. */
  lemma BehindWord(raw: string, q: char)
    requires raw != "" && !IsSeparator(raw[0]) && !IsQuote(raw[0]) && IsQuote(q) && WordEnd(raw) < |raw|
    ensures var rest := raw[WordEnd(raw)..];
            Tokenize(raw + [q]) == Tokenize(raw) <==> Tokenize(rest + [q]) == Tokenize(rest)
  {
    var longer, j := raw + [q], WordEnd(raw);
    WordFirst(raw);
    WordFirst(longer);
    WordEndLonger(raw, q);
    assert longer[..j] == raw[..j] && longer[j..] == raw[j..] + [q];
    SameHead(raw[..j], Tokenize(raw[j..] + [q]), Tokenize(raw[j..]));
  }

  /** At the end of a word. */
  lemma EndOfWord(raw: string, q: char)
    requires raw != "" && !IsSeparator(raw[0]) && !IsQuote(raw[0]) && IsQuote(q) && WordEnd(raw) == |raw|
    ensures Tokenize(raw + [q]) != Tokenize(raw) && QuoteOpen(raw) == None
  {
    WordFirst(raw);
    WordFirst(raw + [q]);
    WordEndLonger(raw, q);
    assert raw[|raw|..] == "" && raw[..|raw|] == raw && (raw + [q])[..|raw| + 1] == raw + [q];
    assert Tokenize(raw)[0] == raw && Tokenize(raw + [q])[0] == raw + [q];
  }

  lemma {:induction false} WordEndLonger(raw: string, q: char)
    requires IsQuote(q)
    ensures WordEnd(raw + [q]) == if WordEnd(raw) < |raw| then WordEnd(raw) else |raw| + 1
  {
    var longer := raw + [q];
    if raw == "" {
      assert longer[1..] == "";
    } else if !IsSeparator(raw[0]) {
      assert longer[1..] == raw[1..] + [q];
      WordEndLonger(raw[1..], q);
    }
  }

  lemma SimpleCase(raw: string, q: char)
    requires raw != "" && IsSeparator(raw[0]) && IsQuote(q)
    requires Tokenize(raw[1..] + [q]) == Tokenize(raw[1..]) <==> QuoteOpen(raw[1..]) == Some(q)
    ensures Tokenize(raw + [q]) == Tokenize(raw) <==> QuoteOpen(raw) == Some(q)
  {
    var longer := raw + [q];
    assert longer[1..] == raw[1..] + [q] && longer[..1] == raw[..1];
    SameHead(raw[..1], Tokenize(raw[1..] + [q]), Tokenize(raw[1..]));
  }

  /** A quote at the end of a text makes no difference if and only if it closes the one
      that is open there. */
  lemma {:induction false} LastQuoteIff(raw: string, q: char)
    requires IsQuote(q)
    ensures Tokenize(raw + [q]) == Tokenize(raw) <==> QuoteOpen(raw) == Some(q)
    decreases |raw|
  {
    if raw == "" {
      QuoteFirst(q, "");
      assert raw + [q] == [q] + "";
    } else if IsSeparator(raw[0]) {
      LastQuoteIff(raw[1..], q);
      SimpleCase(raw, q);
    } else if IsQuote(raw[0]) {
      var c, body := raw[0], raw[1..];
      var i := IndexOf(body, c);
      assert raw == [c] + body && raw + [q] == [c] + (body + [q]);
      if i < |body| {
        LastQuoteIff(body[i + 1..], q);
        ClosedCase(c, body, q);
      } else {
        OpenCase(c, body, q);
      }
    } else if WordEnd(raw) < |raw| {
      WordFirst(raw);
      LastQuoteIff(raw[WordEnd(raw)..], q);
      BehindWord(raw, q);
    } else {
      EndOfWord(raw, q);
    }
  }

  lemma FoundBefore(body: string, q: char, c: char)
    requires IndexOf(body, c) < |body|
    ensures IndexOf(body + [q], c) == IndexOf(body, c)
  {
    var i, k := IndexOf(body, c), IndexOf(body + [q], c);
    assert (body + [q])[i] == c;
    assert k < |body| && (body + [q])[k] == body[k];
  }
}
