/** The filter tokenizer and parser as the program runs them: index loops over the raw
    text, and a parser object whose position moves over the token list. */
module ScimFilterParser {
  import opened Text
  import opened ScimFilter

  // ---- what Tokenize does at position i of the raw text ----

  lemma AtBlank(raw: string, i: nat)
    requires i < |raw| && IsBlank(raw[i])
    ensures Tokenize(raw[i..]) == Tokenize(raw[i + 1..])
  {
    assert raw[i..][1..] == raw[i + 1..];
  }

  lemma AtParen(raw: string, i: nat)
    requires i < |raw| && IsParen(raw[i])
    ensures Tokenize(raw[i..]) == [[raw[i]]] + Tokenize(raw[i + 1..])
  {
    assert raw[i..][1..] == raw[i + 1..] && raw[i..][..1] == [raw[i]];
  }

  lemma AtQuote(raw: string, i: nat, j: nat)
    requires i < j <= |raw| && IsQuote(raw[i])
    requires forall k :: i < k < j ==> raw[k] != raw[i]
    requires j < |raw| ==> raw[j] == raw[i]
    ensures Tokenize(raw[i..]) == [raw[i + 1..j]] + Tokenize(raw[if j < |raw| then j + 1 else j..])
  {
    var left := raw[i..];
    var rest := left[1..];
    assert forall k :: 0 <= k < |rest| ==> rest[k] == raw[i + 1 + k];
    assert IndexOf(rest, raw[i]) == j - i - 1;
    assert left[1..j - i] == raw[i + 1..j];
    if j < |raw| {
      assert left[j - i + 1..] == raw[j + 1..];
    } else {
      assert raw[j..] == "";
    }
  }

  lemma AtWord(raw: string, i: nat, j: nat)
    requires i < j <= |raw| && !IsQuote(raw[i])
    requires forall k :: i <= k < j ==> !IsSeparator(raw[k])
    requires j < |raw| ==> IsSeparator(raw[j])
    ensures Tokenize(raw[i..]) == [raw[i..j]] + Tokenize(raw[j..])
  {
    var left := raw[i..];
    assert forall k :: 0 <= k < |left| ==> left[k] == raw[i + k];
    assert WordEnd(left) == j - i;
    assert left[..j - i] == raw[i..j] && left[j - i..] == raw[j..];
  }

  /** The index of the closing quote, or the end. */
  method ScanQuote(raw: string, i: nat) returns (j: nat)
    requires i < |raw|
    ensures i < j <= |raw| && (forall k :: i < k < j ==> raw[k] != raw[i]) && (j < |raw| ==> raw[j] == raw[i])
  {
    j := i + 1;
    while j < |raw| && raw[j] != raw[i]
      invariant i < j <= |raw|
      invariant forall k :: i < k < j ==> raw[k] != raw[i]
    {
      j := j + 1;
    }
  }

  method ScanWord(raw: string, i: nat) returns (j: nat)
    requires i <= |raw|
    ensures i <= j <= |raw| && (forall k :: i <= k < j ==> !IsSeparator(raw[k])) && (j < |raw| ==> IsSeparator(raw[j]))
  {
    j := i;
    while j < |raw| && !IsSeparator(raw[j])
      invariant i <= j <= |raw|
      invariant forall k :: i <= k < j ==> !IsSeparator(raw[k])
    {
      j := j + 1;
    }
  }

  /** Splits a filter into tokens, scanning left to right. */
  method ScimTokenize(raw: string) returns (tokens: seq<string>)
    ensures tokens == Tokenize(raw)
  {
    tokens := [];
    var i := 0;
    ghost var all := Tokenize(raw);
    assert raw[0..] == raw;
    while i < |raw|
      invariant i <= |raw|
      invariant tokens + Tokenize(raw[i..]) == all
    {
      var next, token := i + 1, None;
      if IsBlank(raw[i]) {
        AtBlank(raw, i);
      } else if IsParen(raw[i]) {
        AtParen(raw, i);
        token := Some([raw[i]]);
      } else if IsQuote(raw[i]) {
        var j := ScanQuote(raw, i);
        AtQuote(raw, i, j);
        token := Some(raw[i + 1..j]);
        next := if j < |raw| then j + 1 else j;
      } else {
        next := ScanWord(raw, i);
        AtWord(raw, i, next);
        token := Some(raw[i..next]);
      }
      TokenAppended(tokens, token, Tokenize(raw[next..]));
      tokens := tokens + if token.Some? then [token.value] else [];
      i := next;
    }
    assert raw[i..] == "";
  }

  lemma TokenAppended(tokens: seq<string>, token: Option<string>, rest: seq<string>)
    ensures var t := if token.Some? then [token.value] else [];
            tokens + (t + rest) == (tokens + t) + rest
  {
  }

  class Parser {
    const tokens: seq<string>
    var pos: nat

    constructor (tokens: seq<string>)
      ensures this.tokens == tokens && pos == 0 && Rest() == tokens
    {
      this.tokens := tokens;
      pos := 0;
      new;
      assert tokens[0..] == tokens;
    }

    /** The tokens not consumed yet; the position may run past the end. */
    ghost function Rest(): seq<string>
      reads this
    {
      if pos <= |tokens| then tokens[pos..] else []
    }

    method PeekToken() returns (t: string)
      ensures t == Peek(Rest())
    {
      t := if pos >= |tokens| then "" else tokens[pos];
    }

    method ConsumeToken() returns (t: string)
      modifies this
      ensures t == Peek(old(Rest())) && Rest() == Consume(old(Rest()))
    {
      t := PeekToken();
      pos := pos + 1;
    }

    method RunOr() returns (node: Option<Node>)
      modifies this
      ensures Parsed(node, Rest()) == ParseOr(old(Rest()))
      decreases Brackets(Rest()), |Rest()|, 6
    {
      node := RunAnd();
      if node.None? {
        return;
      }
      var t := PeekToken();
      while EqualFold(t, "or")
        invariant node.Some? && t == Peek(Rest())
        invariant OrRest(node.value, Rest()) == ParseOr(old(Rest()))
        invariant |Rest()| <= |old(Rest())| && Brackets(Rest()) <= Brackets(old(Rest()))
        decreases |Rest()|
      {
        NotEmptyWord(t, "or");
        var or := ConsumeToken();
        var right := RunAnd();
        if right.None? {
          return None;
        }
        node := Some(Or(node.value, right.value));
        t := PeekToken();
      }
    }

    method RunAnd() returns (node: Option<Node>)
      modifies this
      ensures Parsed(node, Rest()) == ParseAnd(old(Rest()))
      decreases Brackets(Rest()), |Rest()|, 4
    {
      node := RunUnary();
      if node.None? {
        return;
      }
      var t := PeekToken();
      while EqualFold(t, "and")
        invariant node.Some? && t == Peek(Rest())
        invariant AndRest(node.value, Rest()) == ParseAnd(old(Rest()))
        invariant |Rest()| <= |old(Rest())| && Brackets(Rest()) <= Brackets(old(Rest()))
        decreases |Rest()|
      {
        NotEmptyWord(t, "and");
        var and := ConsumeToken();
        var right := RunUnary();
        if right.None? {
          return None;
        }
        node := Some(And(node.value, right.value));
        t := PeekToken();
      }
    }

    method RunUnary() returns (node: Option<Node>)
      modifies this
      ensures Parsed(node, Rest()) == ParseUnary(old(Rest()))
      decreases Brackets(Rest()), |Rest()|, 2
    {
      var t := PeekToken();
      if EqualFold(t, "not") {
        NotEmptyWord(t, "not");
        var not := ConsumeToken();
        var child := RunPrimary();
        return if child.None? then None else Some(Not(child.value));
      }
      node := RunPrimary();
    }

    method RunPrimary() returns (node: Option<Node>)
      modifies this
      ensures Parsed(node, Rest()) == ParsePrimary(old(Rest()))
      decreases Brackets(Rest()), |Rest()|, 1
    {
      var t := PeekToken();
      if t == "(" {
        var open := ConsumeToken();
        node := RunOr();
        t := PeekToken();
        if t == ")" {
          var close := ConsumeToken();
        }
        return;
      }
      var attr := ConsumeToken();
      if attr == "" {
        return None;
      }
      ghost var rest := Rest();
      var path := attr;
      attr := Lower(attr);
      var idx := IndexOf(attr, '[');
      if idx < |attr| {
        PathHasBracket(path);
        var inner := attr[idx + 1..];
        t := PeekToken();
        while t != "]" && t != ""
          invariant t == Peek(Rest())
          invariant Glue(inner, Rest()) == BracketText(attr, rest)
          decreases |Rest()|
        {
          inner := inner + " " + t;
          var glued := ConsumeToken();
          t := PeekToken();
        }
        if t == "]" {
          var close := ConsumeToken();
        }
        BracketTextShrinks(path, rest);
        var tokens' := ScimTokenize(inner);
        var p := new Parser(tokens');
        node := p.RunOr();
        return;
      }
      PathHasBracket(path);
      node := RunComparison(attr);
    }

    method RunComparison(attr: string) returns (node: Option<Node>)
      modifies this
      ensures Parsed(node, Rest()) == ParseComparison(attr, old(Rest()))
    {
      var t := PeekToken();
      var op := Lower(t);
      if op == "" {
        return None;
      }
      if op == "pr" {
        t := ConsumeToken();
        return Some(Present(attr));
      }
      var cmp := CmpOpOf(op);
      if cmp.None? {
        return None;
      }
      t := ConsumeToken();
      var value := ConsumeToken();
      if value == "" {
        return None;
      }
      return Some(Cmp(attr, cmp.value, TrimQuotes(value)));
    }
  }

  lemma NotEmptyWord(t: string, word: string)
    requires word != "" && EqualFold(t, word)
    ensures t != ""
  {
    assert |Lower(t)| == |t| && |Lower(word)| == |word|;
  }

  lemma PathHasBracket(path: string)
    ensures '[' in path <==> IndexOf(Lower(path), '[') < |path|
  {
    var low := Lower(path);
    assert forall k :: 0 <= k < |path| ==> (low[k] == '[' <==> path[k] == '[');
  }

  /** ParseSCIMFilter. */
  method ParseScimFilter(raw: string) returns (node: Option<Node>)
    ensures node == Parse(raw)
  {
    var s := TrimSpace(raw);
    if s == "" {
      return None;
    }
    var tokens := ScimTokenize(s);
    var p := new Parser(tokens);
    node := p.RunOr();
    if node.None? || p.pos < |p.tokens| {
      return None;
    }
  }
}
