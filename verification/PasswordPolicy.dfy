/** The password-policy string: written as "length(12) and digits(1)", read back by a
    case-insensitive search for a name at a word boundary with a number in brackets. */
module PasswordPolicy {
  import opened Text

  // ---- reading ----

  predicate IsLetter(c: char) {
    'a' <= c <= 'z' || 'A' <= c <= 'Z'
  }

  predicate IsWord(c: char) {
    IsLetter(c) || IsDigit(c) || c == '_'
  }

  predicate Letters(s: string) {
    forall i :: 0 <= i < |s| ==> IsLetter(s[i])
  }

  /** The digits at the front. */
  function DigitRun(s: string): (r: string)
    ensures AllDigits(r)
  {
    if s != "" && IsDigit(s[0]) then [s[0]] + DigitRun(s[1..]) else ""
  }

  /** The number in "number)" at the front. */
  function Bracketed(s: string): (r: Option<string>)
    ensures r.Some? ==> AllDigits(r.value)
  {
    var d := DigitRun(s);
    if d != "" && d + ")" <= s then Some(d) else None
  }

  /** The number of "name(number)" at the front, case ignored. */
  function Match(s: string, name: string): (r: Option<string>)
    ensures r.Some? ==> AllDigits(r.value)
  {
    if |name| < |s| && EqualFold(s[..|name|], name) && s[|name|] == '(' then Bracketed(s[|name| + 1..]) else None
  }

  lemma BracketedIff(s: string, d: string)
    ensures Bracketed(s) == Some(d) <==> d != "" && AllDigits(d) && d + ")" <= s
  {
    if d != "" && AllDigits(d) && d + ")" <= s {
      var rest := s[|d|..];
      assert s == d + rest && rest[0] == s[|d|] == (d + ")")[|d|];
      DigitRunOf(d, rest);
    }
  }

  /** A match is the name, case ignored, and at least one digit in brackets. */
  lemma MatchIff(s: string, name: string, d: string)
    ensures Match(s, name) == Some(d) <==>
            |name| < |s| && Lower(s[..|name|]) == Lower(name) && s[|name|] == '(' && d != "" && AllDigits(d) && d + ")" <= s[|name| + 1..]
  {
    if |name| < |s| {
      BracketedIff(s[|name| + 1..], d);
    }
  }

  /** The leftmost match at a word boundary; `word` tells whether a word character
      precedes. */
  function Search(word: bool, s: string, name: string): (r: Option<string>)
    ensures r.Some? ==> AllDigits(r.value)
    decreases |s|
  {
    if s == "" then None
    else if !word && Match(s, name).Some? then Match(s, name)
    else Search(IsWord(s[0]), s[1..], name)
  }

  /** A name starts a word at position i, and carries this number. */
  predicate MatchesAt(s: string, name: string, i: nat, number: string) {
    i < |s| && (i == 0 || !IsWord(s[i - 1])) && Match(s[i..], name) == Some(number)
  }

  ghost predicate NoMatchAt(s: string, name: string, i: nat) {
    forall number :: !MatchesAt(s, name, i, number)
  }

  lemma {:induction false} SearchFrom(s: string, name: string, i: nat) returns (at: nat)
    requires i <= |s|
    ensures i <= at <= |s|
    ensures forall j :: i <= j < at ==> NoMatchAt(s, name, j)
    ensures var r := Search(i > 0 && IsWord(s[i - 1]), s[i..], name);
            if at == |s| then r == None else r.Some? && MatchesAt(s, name, at, r.value)
    decreases |s| - i
  {
    if i == |s| || (!(i > 0 && IsWord(s[i - 1])) && Match(s[i..], name).Some?) {
      at := i;
    } else {
      assert s[i..][1..] == s[i + 1..];
      assert NoMatchAt(s, name, i);
      at := SearchFrom(s, name, i + 1);
    }
  }

  /** The search finds the first match, and fails only when there is none. */
  lemma SearchIsLeftmost(s: string, name: string) returns (at: nat)
    ensures at <= |s| && forall j :: 0 <= j < at ==> NoMatchAt(s, name, j)
    ensures if at == |s| then Search(false, s, name) == None
            else Search(false, s, name).Some? && MatchesAt(s, name, at, Search(false, s, name).value)
  {
    at := SearchFrom(s, name, 0);
    assert s[0..] == s;
  }

  /** strconv.Atoi on digits: too large a number reads as the largest one. */
  function Atoi(digits: string): int
    requires AllDigits(digits)
  {
    var n := DecValue(digits);
    if n < INT64_LIMIT then n else INT64_LIMIT - 1
  }

  /** A number that 64 bits do not hold reads as 9223372036854775807. */
  lemma AtoiSaturates(digits: string)
    requires AllDigits(digits)
    ensures Atoi(digits) == if DecValue(digits) <= 9223372036854775807 then DecValue(digits) else 9223372036854775807
  {
  }

  function PolicyParam(policy: string, name: string): int {
    match Search(false, policy, name)
    case None => 0
    case Some(number) => Atoi(number)
  }

  // ---- writing ----

  datatype Component = Component(name: string, value: int)

  function Part(c: Component): string
    requires c.value >= 0
  {
    c.name + "(" + Dec(c.value) + ")"
  }

  predicate WellFormed(cs: seq<Component>) {
    forall i :: 0 <= i < |cs| ==> cs[i].name != "" && Letters(cs[i].name) && 0 <= cs[i].value < INT64_LIMIT
  }

  /** strings.Join(parts, " and "), front to back. */
  function PolicyText(cs: seq<Component>): string
    requires WellFormed(cs)
  {
    if cs == [] then ""
    else if |cs| == 1 then Part(cs[0])
    else Part(cs[0]) + (" and " + PolicyText(cs[1..]))
  }

  /** What the string should mean: the first component of that name. */
  function Lookup(cs: seq<Component>, name: string): int {
    if cs == [] then 0 else if EqualFold(cs[0].name, name) then cs[0].value else Lookup(cs[1..], name)
  }

  // ---- a name is found nowhere but at its component ----

  lemma FoldedLetter(a: char, b: char)
    requires LowerChar(a) == LowerChar(b)
    ensures IsLetter(a) <==> IsLetter(b)
  {
  }

  lemma FoldedLetters(a: string, b: string)
    requires EqualFold(a, b) && Letters(b)
    ensures |a| == |b| && Letters(a)
  {
    assert |Lower(a)| == |Lower(b)|;
    forall i | 0 <= i < |a|
      ensures IsLetter(a[i])
    {
      assert Lower(a)[i] == Lower(b)[i];
      FoldedLetter(a[i], b[i]);
    }
  }

  /** A run of letters that ends: only the whole run can match, and only before a bracket. */
  lemma MatchRun(run: string, c: char, rest: string, name: string)
    requires Letters(run) && !IsLetter(c) && Letters(name)
    ensures Match(run + [c] + rest, name) == if EqualFold(run, name) && c == '(' then Bracketed(rest) else None
  {
    var s := run + [c] + rest;
    var n := |name|;
    assert s[|run|] == c && s[..|run|] == run && s[|run| + 1..] == rest;
    assert |run| < n < |s| ==> s[..n][|run|] == c;
    assert n < |run| ==> s[n] == run[n];
    if EqualFold(run, name) {
      FoldedLetters(run, name);
    } else if n < |s| && EqualFold(s[..n], name) {
      FoldedLetters(s[..n], name);
    }
  }

  lemma {:induction false} InsideWord(run: string, c: char, rest: string, name: string)
    requires Letters(run) && !IsLetter(c) && Letters(name) && name != ""
    ensures Search(true, run + [c] + rest, name) == Search(IsWord(c), rest, name)
    decreases |run|
  {
    var s := run + [c] + rest;
    if run == "" {
      assert s[1..] == rest;
    } else {
      assert s[1..] == run[1..] + [c] + rest;
      InsideWord(run[1..], c, rest, name);
    }
  }

  /** Passing a run of letters and the character after it. */
  lemma PassRun(word: bool, run: string, c: char, rest: string, name: string)
    requires Letters(run) && !IsLetter(c) && Letters(name) && name != ""
    ensures Search(word, run + [c] + rest, name) ==
            if !word && EqualFold(run, name) && c == '(' && Bracketed(rest).Some? then Bracketed(rest)
            else Search(IsWord(c), rest, name)
  {
    var s := run + [c] + rest;
    MatchRun(run, c, rest, name);
    if run == "" {
      assert s[1..] == rest;
    } else {
      assert s[1..] == run[1..] + [c] + rest;
      InsideWord(run[1..], c, rest, name);
    }
  }

  lemma {:induction false} PassDigits(word: bool, digits: string, rest: string, name: string)
    requires AllDigits(digits) && digits != "" && Letters(name) && name != ""
    ensures Search(word, digits + rest, name) == Search(true, rest, name)
    decreases |digits|
  {
    var tail := digits[1..] + rest;
    assert digits + rest == "" + [digits[0]] + tail;
    PassRun(word, "", digits[0], tail, name);
    if |digits| > 1 {
      PassDigits(true, digits[1..], rest, name);
    } else {
      assert tail == rest;
    }
  }

  lemma {:induction false} DigitRunOf(digits: string, rest: string)
    requires AllDigits(digits) && (rest == "" || !IsDigit(rest[0]))
    ensures DigitRun(digits + rest) == digits
  {
    if digits != "" {
      assert (digits + rest)[1..] == digits[1..] + rest;
      DigitRunOf(digits[1..], rest);
    } else {
      assert digits + rest == rest;
    }
  }

  lemma BracketedOf(digits: string, rest: string)
    requires AllDigits(digits) && digits != ""
    ensures Bracketed(digits + (")" + rest)) == Some(digits)
  {
    DigitRunOf(digits, ")" + rest);
    assert digits + (")" + rest) == digits + ")" + rest;
  }

  /** A component answers to its own name and to no other. */
  lemma PassPart(c: Component, rest: string, name: string)
    requires Letters(c.name) && c.value >= 0 && Letters(name) && name != ""
    ensures Search(false, Part(c) + rest, name) ==
            if EqualFold(c.name, name) then Some(Dec(c.value)) else Search(false, rest, name)
  {
    var digits := Dec(c.value);
    var inner := digits + (")" + rest);
    assert Part(c) + rest == c.name + ['('] + inner;
    PassRun(false, c.name, '(', inner, name);
    BracketedOf(digits, rest);
    PassDigits(false, digits, ")" + rest, name);
    assert ")" + rest == "" + [')'] + rest;
    PassRun(true, "", ')', rest, name);
  }

  lemma PassAnd(rest: string, name: string)
    requires Letters(name) && name != ""
    ensures Search(false, " and " + rest, name) == Search(false, rest, name)
  {
    var tail := "and" + [' '] + rest;
    assert " and " + rest == "" + [' '] + tail;
    PassRun(false, "", ' ', tail, name);
    PassRun(false, "and", ' ', rest, name);
  }

  /** The search finds the first component of that name, or nothing. */
  lemma {:induction false} SearchComponents(cs: seq<Component>, name: string)
    requires WellFormed(cs) && Letters(name) && name != ""
    ensures match Search(false, PolicyText(cs), name)
            case None => Lookup(cs, name) == 0
            case Some(number) => Lookup(cs, name) >= 0 && number == Dec(Lookup(cs, name)) && Lookup(cs, name) < INT64_LIMIT
    decreases |cs|
  {
    if cs != [] {
      var rest := if |cs| == 1 then "" else " and " + PolicyText(cs[1..]);
      assert PolicyText(cs) == Part(cs[0]) + rest;
      PassPart(cs[0], rest, name);
      if !EqualFold(cs[0].name, name) {
        SearchComponents(cs[1..], name);
        if |cs| > 1 {
          PassAnd(PolicyText(cs[1..]), name);
        }
      }
    }
  }

  /** Reading is looking up, for every list of components and every name. */
  lemma ParamIsLookup(cs: seq<Component>, name: string)
    requires WellFormed(cs) && Letters(name) && name != ""
    ensures PolicyParam(PolicyText(cs), name) == Lookup(cs, name)
  {
    SearchComponents(cs, name);
    if Search(false, PolicyText(cs), name).Some? {
      DecRoundTrip(Lookup(cs, name));
    }
  }

  // ---- the seven fields ----

  datatype Request = Request(minLength: int, upperCase: int, lowerCase: int, digits: int, specialChars: int,
                             passwordHistory: int, passwordExpireDays: int)

  function Fields(r: Request): seq<Component> {
    [Component("length", r.minLength), Component("upperCase", r.upperCase), Component("lowerCase", r.lowerCase),
     Component("digits", r.digits), Component("specialChars", r.specialChars),
     Component("passwordHistory", r.passwordHistory), Component("forceExpiredPasswordChange", r.passwordExpireDays)]
  }

  /** Components that are not positive are left out. */
  function Positive(cs: seq<Component>): seq<Component> {
    if cs == [] then []
    else (if cs[0].value > 0 then [cs[0]] else []) + Positive(cs[1..])
  }

  predicate NamesDiffer(cs: seq<Component>) {
    forall i, j :: 0 <= i < j < |cs| ==> !EqualFold(cs[i].name, cs[j].name)
  }

  lemma {:induction false} NotFound(cs: seq<Component>, name: string)
    requires forall i :: 0 <= i < |cs| ==> !EqualFold(cs[i].name, name)
    ensures Lookup(Positive(cs), name) == 0
  {
    if cs != [] {
      NotFound(cs[1..], name);
      LookupFront(cs, name);
    }
  }

  lemma LookupFront(cs: seq<Component>, name: string)
    requires cs != []
    ensures Lookup(Positive(cs), name) ==
            if cs[0].value > 0 && EqualFold(cs[0].name, name) then cs[0].value else Lookup(Positive(cs[1..]), name)
  {
    if cs[0].value > 0 {
      assert Positive(cs)[1..] == Positive(cs[1..]);
    } else {
      assert Positive(cs) == Positive(cs[1..]);
    }
  }

  lemma {:induction false} LookupPositive(cs: seq<Component>, k: nat)
    requires NamesDiffer(cs) && k < |cs|
    ensures Lookup(Positive(cs), cs[k].name) == if cs[k].value > 0 then cs[k].value else 0
  {
    LookupFront(cs, cs[k].name);
    if k == 0 {
      forall i | 0 <= i < |cs[1..]|
        ensures !EqualFold(cs[1..][i].name, cs[0].name)
      {
        assert !EqualFold(cs[0].name, cs[i + 1].name);
      }
      NotFound(cs[1..], cs[0].name);
    } else {
      LookupPositive(cs[1..], k - 1);
    }
  }

  predicate InRange(cs: seq<Component>) {
    forall i :: 0 <= i < |cs| ==> cs[i].name != "" && Letters(cs[i].name) && cs[i].value < INT64_LIMIT
  }

  lemma {:induction false} PositiveWellFormed(cs: seq<Component>)
    requires InRange(cs)
    ensures WellFormed(Positive(cs))
  {
    if cs != [] {
      PositiveWellFormed(cs[1..]);
    }
  }

  lemma FirstLettersDiffer(a: string, b: string)
    requires |a| != |b| || (a != "" && LowerChar(a[0]) != LowerChar(b[0]))
    ensures !EqualFold(a, b)
  {
    if |a| == |b| {
      assert Lower(a)[0] == LowerChar(a[0]) && Lower(b)[0] == LowerChar(b[0]);
    } else {
      assert |Lower(a)| != |Lower(b)|;
    }
  }

  lemma FieldNamesDiffer(r: Request)
    ensures NamesDiffer(Fields(r))
  {
    var cs := Fields(r);
    forall i, j | 0 <= i < j < |cs|
      ensures !EqualFold(cs[i].name, cs[j].name)
    {
      FirstLettersDiffer(cs[i].name, cs[j].name);
    }
  }

  predicate Representable(r: Request) {
    && r.minLength < INT64_LIMIT && r.upperCase < INT64_LIMIT && r.lowerCase < INT64_LIMIT && r.digits < INT64_LIMIT
    && r.specialChars < INT64_LIMIT && r.passwordHistory < INT64_LIMIT && r.passwordExpireDays < INT64_LIMIT
  }

  lemma ShortNames()
    ensures Letters("length") && Letters("upperCase") && Letters("lowerCase") && Letters("digits")
  {
  }

  lemma LongNames()
    ensures Letters("specialChars") && Letters("passwordHistory")
  {
  }

  lemma LongestName()
    ensures Letters("forceExpiredPasswordChange")
  {
    assert "forceExpiredPasswordChange" == "forceExpired" + "PasswordChange";
    assert Letters("forceExpired") && Letters("PasswordChange");
  }

  predicate Sound(c: Component) {
    c.name != "" && Letters(c.name) && c.value < INT64_LIMIT
  }

  lemma FieldsInRange(r: Request)
    requires Representable(r)
    ensures InRange(Fields(r))
  {
    ShortNames();
    LongNames();
    LongestName();
    var cs := Fields(r);
    assert Sound(cs[0]) && Sound(cs[1]) && Sound(cs[2]) && Sound(cs[3]) && Sound(cs[4]) && Sound(cs[5]) && Sound(cs[6]);
    forall i | 0 <= i < |cs|
      ensures Sound(cs[i])
    {
    }
  }

  /** The part a field contributes, if any. */
  function PartOf(c: Component): seq<string> {
    if c.value > 0 then [Part(c)] else []
  }

  /** strings.Join(parts, " and "). */
  function Joined(parts: seq<string>): string {
    if parts == [] then "" else if |parts| == 1 then parts[0] else parts[0] + (" and " + Joined(parts[1..]))
  }

  lemma FlatMapFront(cs: seq<Component>)
    requires cs != []
    ensures FlatMap(PartOf, cs) == PartOf(cs[0]) + FlatMap(PartOf, cs[1..])
  {
    FlatMapConcat(PartOf, [cs[0]], cs[1..]);
    FlatMapOne(PartOf, cs[0]);
    assert [cs[0]] + cs[1..] == cs;
  }

  lemma {:induction false} PartsCount(cs: seq<Component>)
    ensures |FlatMap(PartOf, cs)| == |Positive(cs)|
  {
    if cs != [] {
      FlatMapFront(cs);
      PartsCount(cs[1..]);
    }
  }

  lemma {:induction false} JoinedParts(cs: seq<Component>)
    requires InRange(cs)
    ensures WellFormed(Positive(cs)) && Joined(FlatMap(PartOf, cs)) == PolicyText(Positive(cs))
  {
    PositiveWellFormed(cs);
    if cs != [] {
      FlatMapFront(cs);
      JoinedParts(cs[1..]);
      PartsCount(cs[1..]);
      if cs[0].value > 0 {
        JoinFront(cs[0], FlatMap(PartOf, cs[1..]), Positive(cs[1..]));
      } else {
        assert [] + FlatMap(PartOf, cs[1..]) == FlatMap(PartOf, cs[1..]) && [] + Positive(cs[1..]) == Positive(cs[1..]);
      }
    }
  }

  lemma JoinFront(c: Component, parts: seq<string>, cs: seq<Component>)
    requires c.value >= 0 && WellFormed([c] + cs) && WellFormed(cs) && |parts| == |cs| && Joined(parts) == PolicyText(cs)
    ensures Joined([Part(c)] + parts) == PolicyText([c] + cs)
  {
    assert ([Part(c)] + parts)[1..] == parts && ([c] + cs)[1..] == cs;
  }

  method Append(parts: seq<string>, ghost cs: seq<Component>, ghost k: nat, name: string, value: int) returns (r: seq<string>)
    requires k < |cs| && cs[k] == Component(name, value) && parts == FlatMap(PartOf, cs[..k])
    ensures r == FlatMap(PartOf, cs[..k + 1])
  {
    assert cs[..k + 1] == cs[..k] + [cs[k]];
    FlatMapSnoc(PartOf, cs[..k], cs[k]);
    r := parts;
    if value > 0 {
      r := r + [name + "(" + Dec(value) + ")"];
    }
  }

  lemma BuiltText(r: Request)
    requires Representable(r)
    ensures InRange(Fields(r)) && WellFormed(Positive(Fields(r)))
    ensures Joined(FlatMap(PartOf, Fields(r)[..7])) == PolicyText(Positive(Fields(r)))
  {
    assert Fields(r)[..7] == Fields(r);
    FieldsInRange(r);
    JoinedParts(Fields(r));
  }

  method CharacterParts(r: Request) returns (parts: seq<string>)
    ensures parts == FlatMap(PartOf, Fields(r)[..5])
  {
    ghost var cs := Fields(r);
    parts := [];
    parts := Append(parts, cs, 0, "length", r.minLength);
    parts := Append(parts, cs, 1, "upperCase", r.upperCase);
    parts := Append(parts, cs, 2, "lowerCase", r.lowerCase);
    parts := Append(parts, cs, 3, "digits", r.digits);
    parts := Append(parts, cs, 4, "specialChars", r.specialChars);
  }

  lemma FieldRecovered(r: Request, k: nat)
    requires Representable(r) && k < 7
    ensures InRange(Fields(r)) && WellFormed(Positive(Fields(r)))
    ensures PolicyParam(PolicyText(Positive(Fields(r))), Fields(r)[k].name) ==
            if Fields(r)[k].value > 0 then Fields(r)[k].value else 0
  {
    FieldsInRange(r);
    FieldNamesDiffer(r);
    var cs := Fields(r);
    PositiveWellFormed(cs);
    ParamIsLookup(Positive(cs), cs[k].name);
    LookupPositive(cs, k);
  }

  function AtLeastZero(n: int): int {
    if n > 0 then n else 0
  }

  /** The text carries each field under its own name. */
  predicate Carries(policy: string, r: Request) {
    && PolicyParam(policy, "length") == AtLeastZero(r.minLength)
    && PolicyParam(policy, "upperCase") == AtLeastZero(r.upperCase)
    && PolicyParam(policy, "lowerCase") == AtLeastZero(r.lowerCase)
    && PolicyParam(policy, "digits") == AtLeastZero(r.digits)
    && PolicyParam(policy, "specialChars") == AtLeastZero(r.specialChars)
    && PolicyParam(policy, "passwordHistory") == AtLeastZero(r.passwordHistory)
    && PolicyParam(policy, "forceExpiredPasswordChange") == AtLeastZero(r.passwordExpireDays)
  }

  lemma BuiltCarries(r: Request)
    requires Representable(r)
    ensures WellFormed(Positive(Fields(r))) && Carries(PolicyText(Positive(Fields(r))), r)
  {
    FieldRecovered(r, 0);
    FieldRecovered(r, 1);
    FieldRecovered(r, 2);
    FieldRecovered(r, 3);
    FieldRecovered(r, 4);
    FieldRecovered(r, 5);
    FieldRecovered(r, 6);
  }

  method BuildPolicyString(r: Request) returns (policy: string)
    requires Representable(r)
    ensures InRange(Fields(r)) && WellFormed(Positive(Fields(r))) && policy == PolicyText(Positive(Fields(r)))
    ensures Carries(policy, r)
  {
    ghost var cs := Fields(r);
    var parts := CharacterParts(r);
    parts := Append(parts, cs, 5, "passwordHistory", r.passwordHistory);
    parts := Append(parts, cs, 6, "forceExpiredPasswordChange", r.passwordExpireDays);
    BuiltText(r);
    BuiltCarries(r);
    policy := Joined(parts);
  }

  /** The policy string as read back into the response. */
  function ReadBack(policy: string): Request {
    Request(PolicyParam(policy, "length"), PolicyParam(policy, "upperCase"), PolicyParam(policy, "lowerCase"),
            PolicyParam(policy, "digits"), PolicyParam(policy, "specialChars"),
            PolicyParam(policy, "passwordHistory"), PolicyParam(policy, "forceExpiredPasswordChange"))
  }

  predicate NonNegative(r: Request) {
    && r.minLength >= 0 && r.upperCase >= 0 && r.lowerCase >= 0 && r.digits >= 0 && r.specialChars >= 0
    && r.passwordHistory >= 0 && r.passwordExpireDays >= 0
  }

  /** All seven fields come back, zero included, exactly when none of them is negative. */
  lemma PolicyRoundTrip(r: Request)
    requires Representable(r)
    ensures WellFormed(Positive(Fields(r)))
    ensures ReadBack(PolicyText(Positive(Fields(r)))) == r <==> NonNegative(r)
  {
    BuiltCarries(r);
  }

  lemma TwoParts(a: Component, b: Component)
    requires WellFormed([a, b]) && a.value >= 0 && b.value >= 0
    ensures PolicyText([a, b]) == Part(a) + (" and " + Part(b))
  {
    assert [a, b][1..] == [b];
  }

  /** The form Keycloak documents. */
  lemma WrittenForm()
    ensures var cs := [Component("length", 12), Component("upperCase", 1)];
            WellFormed(cs) && PolicyText(cs) == "length(12) and upperCase(1)"
  {
    ShortNames();
    TwoParts(Component("length", 12), Component("upperCase", 1));
    WrittenParts();
  }

  lemma WrittenParts()
    ensures Part(Component("length", 12)) + (" and " + Part(Component("upperCase", 1))) == "length(12) and upperCase(1)"
  {
    assert Dec(12) == Dec(1) + "2" == "12" && Dec(1) == "1";
    assert "length" + "(" + "12" + ")" == "length(12)" && "upperCase" + "(" + "1" + ")" == "upperCase(1)";
  }
}
