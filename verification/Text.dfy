/** Byte strings as the Go code sees them: a `char` stands for one byte.
    Case folding, trimming and decimal rendering are the ASCII parts of the
    Go library functions that the handlers call. */
module Text {

  datatype Option<+T> = None | Some(value: T)

  // ---- case folding ----

  function LowerChar(c: char): char {
    if 'A' <= c <= 'Z' then (c as int + 32) as char else c
  }

  function Lower(s: string): (r: string)
    ensures |r| == |s|
    ensures forall i :: 0 <= i < |s| ==> r[i] == LowerChar(s[i])
  {
    seq(|s|, i requires 0 <= i < |s| => LowerChar(s[i]))
  }

  predicate IsLower(s: string) {
    forall i :: 0 <= i < |s| ==> !('A' <= s[i] <= 'Z')
  }

  predicate EqualFold(a: string, b: string) {
    Lower(a) == Lower(b)
  }

  lemma LowerFixed(s: string)
    requires IsLower(s)
    ensures Lower(s) == s
  {
    assert forall i :: 0 <= i < |s| ==> Lower(s)[i] == s[i];
  }

  lemma LowerIsLower(s: string)
    ensures IsLower(Lower(s)) && Lower(Lower(s)) == Lower(s)
  {
    LowerFixed(Lower(s));
  }

  // ---- trimming ----

  predicate IsSpace(c: char) {
    c == ' ' || '\t' <= c <= '\r'
  }

  function TrimLeft(s: string, cut: char -> bool): (r: string)
    ensures |r| <= |s|
    ensures r == [] || !cut(r[0])
    ensures forall i :: 0 <= i < |r| ==> r[i] in s
  {
    if s == [] || !cut(s[0]) then s else TrimLeft(s[1..], cut)
  }

  function TrimRight(s: string, cut: char -> bool): (r: string)
    ensures r <= s
    ensures r == [] || !cut(r[|r| - 1])
  {
    if s == [] || !cut(s[|s| - 1]) then s else TrimRight(s[..|s| - 1], cut)
  }

  /** strings.Trim(s, cutset). */
  function Trim(s: string, cut: char -> bool): (r: string)
    ensures |r| <= |s|
    ensures r == [] || (!cut(r[0]) && !cut(r[|r| - 1]))
  {
    TrimRight(TrimLeft(s, cut), cut)
  }

  function TrimSpace(s: string): (r: string)
    ensures |r| <= |s|
    ensures r == [] || (!IsSpace(r[0]) && !IsSpace(r[|r| - 1]))
  {
    Trim(s, IsSpace)
  }

  lemma TrimNothing(v: string)
    requires v != "" && !IsSpace(v[0]) && !IsSpace(v[|v| - 1])
    ensures TrimSpace(v) == v
  {
  }

  predicate AllCut(s: string, cut: char -> bool) {
    forall i :: 0 <= i < |s| ==> cut(s[i])
  }

  lemma Uncons(s: string)
    requires s != ""
    ensures s == [s[0]] + s[1..]
  {
  }

  lemma Unsnoc(s: string)
    requires s != ""
    ensures s == s[..|s| - 1] + [s[|s| - 1]]
  {
  }

  /** Trimming takes a front and a back off that consist of characters to be cut. */
  lemma {:induction false} TrimLeftFront(s: string, cut: char -> bool) returns (front: string)
    ensures s == front + TrimLeft(s, cut) && AllCut(front, cut)
    decreases |s|
  {
    if s == "" || !cut(s[0]) {
      front := "";
    } else {
      var more := TrimLeftFront(s[1..], cut);
      front := [s[0]] + more;
      Uncons(s);
      Regroup([s[0]], more, TrimLeft(s, cut));
    }
  }

  lemma {:induction false} TrimRightBack(s: string, cut: char -> bool) returns (back: string)
    ensures s == TrimRight(s, cut) + back && AllCut(back, cut)
    decreases |s|
  {
    if s == "" || !cut(s[|s| - 1]) {
      back := "";
    } else {
      var n := |s| - 1;
      var more := TrimRightBack(s[..n], cut);
      back := more + [s[n]];
      Unsnoc(s);
      Regroup(TrimRight(s, cut), more, [s[n]]);
    }
  }

  lemma {:induction false} TrimLeftCuts(front: string, rest: string, cut: char -> bool)
    requires AllCut(front, cut) && (rest == "" || !cut(rest[0]))
    ensures TrimLeft(front + rest, cut) == rest
    decreases |front|
  {
    if front == "" {
      assert front + rest == rest;
    } else {
      assert (front + rest)[1..] == front[1..] + rest;
      TrimLeftCuts(front[1..], rest, cut);
    }
  }

  lemma {:induction false} TrimRightCuts(rest: string, back: string, cut: char -> bool)
    requires AllCut(back, cut) && (rest == "" || !cut(rest[|rest| - 1]))
    ensures TrimRight(rest + back, cut) == rest
    decreases |back|
  {
    if back == "" {
      assert rest + back == rest;
    } else {
      var n := |back| - 1;
      assert (rest + back)[..|rest| + n] == rest + back[..n];
      TrimRightCuts(rest, back[..n], cut);
    }
  }

  /** What is left in the middle is what trimming returns. */
  lemma TrimCuts(front: string, mid: string, back: string, cut: char -> bool)
    requires AllCut(front, cut) && AllCut(back, cut) && mid != "" && !cut(mid[0]) && !cut(mid[|mid| - 1])
    ensures Trim(front + (mid + back), cut) == mid
  {
    TrimLeftCuts(front, mid + back, cut);
    TrimRightCuts(mid, back, cut);
  }

  lemma TrimParts(s: string, cut: char -> bool) returns (front: string, back: string)
    ensures s == front + (Trim(s, cut) + back) && AllCut(front, cut) && AllCut(back, cut)
  {
    front := TrimLeftFront(s, cut);
    back := TrimRightBack(TrimLeft(s, cut), cut);
  }

  /** Blank texts, and no others, are trimmed away. */
  lemma BlankIff(s: string)
    ensures TrimSpace(s) == "" <==> AllCut(s, IsSpace)
  {
    var front, back := TrimParts(s, IsSpace);
    if AllCut(s, IsSpace) {
      TrimLeftCuts(s, "", IsSpace);
      assert s + "" == s;
    }
  }

  // ---- searching ----

  /** strings.Index for a single byte: the first position, or |s| when absent. */
  function IndexOf(s: string, c: char): (i: nat)
    ensures i <= |s|
    ensures i < |s| ==> s[i] == c
    ensures forall j :: 0 <= j < i ==> s[j] != c
  {
    if s == [] || s[0] == c then 0 else 1 + IndexOf(s[1..], c)
  }

  /** strings.LastIndex for a single byte, or -1 when absent. */
  function LastIndexOf(s: string, c: char): (i: int)
    ensures -1 <= i < |s|
    ensures i >= 0 ==> s[i] == c
    ensures forall j :: i < j < |s| ==> s[j] != c
  {
    if s == [] then -1
    else if s[|s| - 1] == c then |s| - 1
    else LastIndexOf(s[..|s| - 1], c)
  }

  predicate Contains(s: string, sub: string) {
    exists i :: 0 <= i <= |s| && sub <= s[i..]
  }

  // ---- splitting ----

  /** strings.Split on a one-byte separator: never empty. */
  function Split(s: string, sep: char): (parts: seq<string>)
    ensures |parts| >= 1
  {
    var i := IndexOf(s, sep);
    if i == |s| then [s] else [s[..i]] + Split(s[i + 1..], sep)
  }

  lemma IndexOfConcat(a: string, c: char, b: string)
    requires c !in a
    ensures IndexOf(a + [c] + b, c) == |a|
  {
    var s := a + [c] + b;
    assert s[|a|] == c;
    assert forall j :: 0 <= j < |a| ==> s[j] == a[j];
  }

  lemma {:induction false} LastIndexOfConcat(a: string, c: char, b: string)
    requires c !in b
    ensures LastIndexOf(a + [c] + b, c) == |a|
  {
    var s := a + [c] + b;
    assert s[|a|] == c;
    forall j | |a| < j < |s|
      ensures s[j] != c
    {
      assert s[j] == b[j - |a| - 1];
    }
  }

  lemma SplitNone(s: string, sep: char)
    requires sep !in s
    ensures Split(s, sep) == [s]
  {
  }

  lemma SplitHead(a: string, sep: char, b: string)
    requires sep !in a
    ensures Split(a + [sep] + b, sep) == [a] + Split(b, sep)
  {
    IndexOfConcat(a, sep, b);
    var s := a + [sep] + b;
    assert s[..|a|] == a && s[|a| + 1..] == b;
  }

  /** The text around one of its separators. */
  lemma AroundSeparator(s: string, i: nat)
    requires i < |s|
    ensures s == s[..i] + [s[i]] + s[i + 1..]
  {
  }

  lemma SplitFirst(s: string, sep: char)
    requires IndexOf(s, sep) < |s|
    ensures var i := IndexOf(s, sep); sep !in s[..i] && Split(s, sep) == [s[..i]] + Split(s[i + 1..], sep)
  {
    var i := IndexOf(s, sep);
    forall j | 0 <= j < i
      ensures s[..i][j] != sep
    {
      assert s[..i][j] == s[j];
    }
  }

  lemma JoinTwice(a: string, b: string, c: string, sep: char)
    ensures (a + [sep] + b) + [sep] + c == a + [sep] + (b + [sep] + c)
  {
  }

  /** Splitting distributes over joining with the separator. */
  lemma {:induction false} SplitConcat(a: string, sep: char, b: string)
    ensures Split(a + [sep] + b, sep) == Split(a, sep) + Split(b, sep)
    decreases |a|
  {
    var i := IndexOf(a, sep);
    if i == |a| {
      SplitHead(a, sep, b);
    } else {
      var head, tail := a[..i], a[i + 1..];
      AroundSeparator(a, i);
      SplitFirst(a, sep);
      JoinTwice(head, tail, b, sep);
      SplitHead(head, sep, tail + [sep] + b);
      SplitConcat(tail, sep, b);
      Regroup([head], Split(tail, sep), Split(b, sep));
    }
  }

  // ---- mapping and flattening ----

  function FlatMap<T, R>(f: T -> seq<R>, xs: seq<T>): seq<R> {
    if xs == [] then [] else FlatMap(f, xs[..|xs| - 1]) + f(xs[|xs| - 1])
  }

  lemma FlatMapSnoc<T, R>(f: T -> seq<R>, xs: seq<T>, x: T)
    ensures FlatMap(f, xs + [x]) == FlatMap(f, xs) + f(x)
  {
    assert (xs + [x])[..|xs|] == xs;
  }

  lemma FlatMapOne<T, R>(f: T -> seq<R>, x: T)
    ensures FlatMap(f, [x]) == f(x)
  {
    FlatMapSnoc(f, [], x);
    assert [] + [x] == [x];
  }

  lemma Regroup<R>(a: seq<R>, b: seq<R>, c: seq<R>)
    ensures (a + b) + c == a + (b + c)
  {
  }

  lemma {:induction false} FlatMapConcat<T, R>(f: T -> seq<R>, xs: seq<T>, ys: seq<T>)
    ensures FlatMap(f, xs + ys) == FlatMap(f, xs) + FlatMap(f, ys)
  {
    if ys == [] {
      assert xs + ys == xs;
    } else {
      var n := |ys| - 1;
      FlatMapConcat(f, xs, ys[..n]);
      FlatMapSnoc(f, xs + ys[..n], ys[n]);
      assert xs + ys == (xs + ys[..n]) + [ys[n]];
      Regroup(FlatMap(f, xs), FlatMap(f, ys[..n]), f(ys[n]));
    }
  }

  /** Replacing two neighbours by one element that maps to both. */
  lemma FlatMapMerge<T, R>(f: T -> seq<R>, front: seq<T>, x: T, y: T, xy: T, rest: seq<T>)
    requires f(xy) == f(x) + f(y)
    ensures FlatMap(f, front + [xy] + rest) == FlatMap(f, front + [x]) + FlatMap(f, [y] + rest)
  {
    FlatMapConcat(f, front + [xy], rest);
    FlatMapSnoc(f, front, xy);
    FlatMapSnoc(f, front, x);
    FlatMapConcat(f, [y], rest);
    FlatMapOne(f, y);
  }

  // ---- decimal rendering ----

  predicate IsDigit(c: char) {
    '0' <= c <= '9'
  }

  predicate AllDigits(s: string) {
    forall i :: 0 <= i < |s| ==> IsDigit(s[i])
  }

  function DigitValue(c: char): (d: nat)
    requires IsDigit(c)
    ensures d < 10
  {
    c as int - '0' as int
  }

  function Digit(d: nat): (c: char)
    requires d < 10
    ensures IsDigit(c) && DigitValue(c) == d
  {
    ('0' as int + d) as char
  }

  /** fmt.Sprintf("%d", n) for a non-negative n. */
  function Dec(n: nat): (s: string)
    ensures |s| >= 1 && AllDigits(s)
  {
    if n < 10 then [Digit(n)] else Dec(n / 10) + [Digit(n % 10)]
  }

  function DecValue(s: string): nat
    requires AllDigits(s)
  {
    if s == [] then 0
    else DecValue(s[..|s| - 1]) * 10 + DigitValue(s[|s| - 1])
  }

  lemma {:induction false} DecRoundTrip(n: nat)
    ensures DecValue(Dec(n)) == n
  {
    if n < 10 {
      assert Dec(n)[..0] == [];
    } else {
      DecRoundTrip(n / 10);
      var s := Dec(n);
      assert s[..|s| - 1] == Dec(n / 10);
    }
  }

  const INT64_LIMIT: int := 0x8000_0000_0000_0000

  /** strconv.ParseInt(s, 10, 64); None stands for its error. */
  function ParseInt64(s: string): Option<int> {
    var signed := s != [] && (s[0] == '-' || s[0] == '+');
    var digits := if signed then s[1..] else s;
    if digits == [] || !AllDigits(digits) then None
    else
      var magnitude: int := DecValue(digits);
      var n := if signed && s[0] == '-' then -magnitude else magnitude;
      if -INT64_LIMIT <= n < INT64_LIMIT then Some(n) else None
  }

  predicate IsIntText(sign: string, digits: string, n: int) {
    && digits != "" && AllDigits(digits) && (sign == "" || sign == "+" || sign == "-")
    && n == (if sign == "-" then -1 else 1) * DecValue(digits)
  }

  lemma SignOff(sign: string, digits: string, n: int)
    requires IsIntText(sign, digits, n) && -INT64_LIMIT <= n < INT64_LIMIT
    ensures ParseInt64(sign + digits) == Some(n)
  {
    var s := sign + digits;
    assert IsDigit(digits[0]);
    if sign == "" {
      assert s == digits;
    } else {
      assert s[0] == sign[0] && s[1..] == digits;
    }
  }

  lemma SignOf(s: string, n: int) returns (sign: string, digits: string)
    requires ParseInt64(s) == Some(n)
    ensures s == sign + digits && IsIntText(sign, digits, n)
  {
    if s[0] == '-' || s[0] == '+' {
      sign, digits := [s[0]], s[1..];
      Uncons(s);
    } else {
      sign, digits := "", s;
    }
  }

  /** An integer is read from digits with or without a sign, and only if 64 bits hold it. */
  lemma ParseInt64Iff(s: string, n: int)
    ensures ParseInt64(s) == Some(n) <==>
            -INT64_LIMIT <= n < INT64_LIMIT && exists sign, digits :: s == sign + digits && IsIntText(sign, digits, n)
  {
    if ParseInt64(s) == Some(n) {
      var sign, digits := SignOf(s, n);
    }
    if sign, digits :| -INT64_LIMIT <= n < INT64_LIMIT && s == sign + digits && IsIntText(sign, digits, n) {
      SignOff(sign, digits, n);
    }
  }

  lemma ParseInt64Dec(n: nat)
    requires n < INT64_LIMIT
    ensures ParseInt64(Dec(n)) == Some(n)
  {
    DecRoundTrip(n);
    assert IsDigit(Dec(n)[0]);
  }
}
