/** The user list endpoint: which filters become SQL predicates, what those predicates
    select, and how the selected rows are paged. */
module ScimSql {
  import opened Text
  import opened ScimFilter

  /** The WHERE clause appended after org_id = $1. */
  datatype Clause = NoClause | EmailEquals(value: string) | EmailILike(pattern: string)

  datatype Translation = InvalidFilter | Where(clause: Clause)

  predicate IsEmailAttr(attr: string) {
    attr == "username" || attr == "emails.value"
  }

  /** parseSCIMFilterStrict and the filterOp switch; None is an absent or unparseable filter. */
  function Translate(filter: Option<Node>): Translation {
    match filter
    case Some(Cmp(attr, op, value)) =>
      if !IsEmailAttr(attr) then Where(NoClause)
      else
        (match op
         case Eq => Where(EmailEquals(Lower(value)))
         case Co => Where(EmailILike("%" + Lower(value) + "%"))
         case Sw => Where(EmailILike(Lower(value) + "%"))
         case Ne => Where(NoClause))
    case Some(Present(_)) => Where(NoClause)
    case Some(_) => InvalidFilter
    case None => Where(NoClause)
  }

  // ---- SQL semantics ----

  /** The LIKE operator: % any string, _ any byte, \ quotes the next one. */
  predicate Like(p: string, s: string)
    decreases |p| + |s|
  {
    if p == "" then s == ""
    else if p[0] == '%' then Like(p[1..], s) || (s != "" && Like(p, s[1..]))
    else if p[0] == '\\' then |p| > 1 && s != "" && s[0] == p[1] && Like(p[2..], s[1..])
    else s != "" && (p[0] == '_' || p[0] == s[0]) && Like(p[1..], s[1..])
  }

  predicate Holds(c: Clause, email: string) {
    match c
    case NoClause => true
    case EmailEquals(v) => email == v
    case EmailILike(p) => Like(Lower(p), Lower(email))
  }

  /** A user's attributes: two of them are the stored e-mail, the others are free. */
  predicate Describes(attrs: map<string, string>, email: string) {
    AttrOf(attrs, "username") == email && AttrOf(attrs, "emails.value") == email
  }

  /** What the handlers store. */
  predicate Stored(email: string) {
    email != "" && IsLower(email)
  }

  predicate IsMeta(c: char) {
    c == '%' || c == '_' || c == '\\'
  }

  predicate NoMeta(v: string) {
    forall i :: 0 <= i < |v| ==> !IsMeta(v[i])
  }

  lemma {:induction false} LikeAnything(s: string)
    ensures Like("%", s)
  {
    assert "%"[1..] == "";
    if s != "" {
      LikeAnything(s[1..]);
    }
  }

  lemma {:induction false} LikePrefix(v: string, s: string)
    requires NoMeta(v)
    ensures Like(v + "%", s) <==> v <= s
    decreases |v|
  {
    var p := v + "%";
    if v == "" {
      assert p == "%";
      LikeAnything(s);
    } else {
      assert p[0] == v[0] && p[1..] == v[1..] + "%";
      if s != "" {
        LikePrefix(v[1..], s[1..]);
        assert v <= s <==> v[0] == s[0] && v[1..] <= s[1..];
      }
    }
  }

  lemma {:induction false} LikeContains(v: string, s: string)
    requires NoMeta(v)
    ensures Like("%" + (v + "%"), s) <==> Contains(s, v)
    decreases |s|
  {
    var p := "%" + (v + "%");
    assert p[1..] == v + "%";
    LikePrefix(v, s);
    assert s[0..] == s;
    if s == "" {
      assert Contains(s, v) ==> v <= s;
    } else {
      LikeContains(v, s[1..]);
      if Contains(s[1..], v) {
        var i :| 0 <= i <= |s[1..]| && v <= s[1..][i..];
        assert s[1..][i..] == s[i + 1..];
      }
      if Contains(s, v) && !(v <= s) {
        var i :| 0 <= i <= |s| && v <= s[i..];
        assert s[1..][i - 1..] == s[i..];
      }
    }
  }

  lemma LowerKeepsMeta(v: string)
    ensures NoMeta(Lower(v)) <==> NoMeta(v)
  {
    assert forall i :: 0 <= i < |v| ==> (IsMeta(Lower(v)[i]) <==> IsMeta(v[i]));
  }

  lemma LowerPattern(v: string)
    ensures Lower("%" + Lower(v) + "%") == "%" + (Lower(v) + "%")
    ensures Lower(Lower(v) + "%") == Lower(v) + "%"
  {
    LowerIsLower(v);
    LowerFixed("%" + Lower(v) + "%");
    LowerFixed(Lower(v) + "%");
  }

  predicate IsLeaf(n: Node) {
    n.Cmp? || n.Present?
  }

  /** The SQL predicate selects the user exactly when the filter holds of him. */
  predicate Agrees(n: Node, email: string, attrs: map<string, string>)
    requires IsLeaf(n)
  {
    Holds(Translate(Some(n)).clause, email) <==> Eval(n, attrs)
  }

  /** For eq always, and for co and sw on values without LIKE metacharacters, the SQL
      predicate selects a lower-case stored e-mail exactly when the filter holds of it. */
  lemma TranslationPreservesMeaning(attr: string, op: CmpOp, value: string, email: string, attrs: map<string, string>)
    requires IsEmailAttr(attr) && op != Ne && IsLower(email) && Describes(attrs, email)
    requires op == Eq || NoMeta(value)
    ensures Agrees(Cmp(attr, op, value), email, attrs)
  {
    LowerFixed(email);
    LowerKeepsMeta(value);
    LowerPattern(value);
    match op
    case Eq =>
    case Co => LikeContains(Lower(value), email);
    case Sw => LikePrefix(Lower(value), email);
  }

  // ---- the condition on values is exact ----

  /** An e-mail that the pattern for `v` matches although it does not contain `v`. */
  function Shadow(v: string): string {
    if v == "" then ""
    else if v[0] == '%' then Shadow(v[1..])
    else if v[0] == '_' then "a" + Shadow(v[1..])
    else if v[0] == '\\' then (if |v| == 1 then "%" else [v[1]] + Shadow(v[2..]))
    else [v[0]] + Shadow(v[1..])
  }

  lemma {:induction false} ShadowMatches(v: string)
    ensures Like(v + "%", Shadow(v))
    decreases |v|
  {
    var p, s := v + "%", Shadow(v);
    if v == "" {
      LikeAnything("");
    } else {
      assert p[0] == v[0] && p[1..] == v[1..] + "%";
      if v[0] == '%' {
        ShadowMatches(v[1..]);
      } else if v[0] == '\\' {
        if |v| == 1 {
          assert p[2..] == "" && s[1..] == "";
        } else {
          ShadowMatches(v[2..]);
          assert p[2..] == v[2..] + "%" && s[1..] == Shadow(v[2..]);
        }
      } else {
        ShadowMatches(v[1..]);
        assert s[1..] == Shadow(v[1..]);
      }
    }
  }

  lemma {:induction false} ShadowDiffers(v: string)
    ensures |Shadow(v)| <= |v|
    ensures !NoMeta(v) ==> Shadow(v) != v
    ensures IsLower(v) ==> IsLower(Shadow(v))
    decreases |v|
  {
    if v != "" {
      ShadowDiffers(v[1..]);
      if v[0] == '\\' && |v| > 1 {
        ShadowDiffers(v[2..]);
      } else if !IsMeta(v[0]) {
        assert Shadow(v)[1..] == Shadow(v[1..]);
        if NoMeta(v[1..]) {
          assert forall i :: 1 <= i < |v| ==> v[i] == v[1..][i - 1];
        }
      }
    }
  }

  lemma ContainsNoLonger(s: string, v: string)
    requires |s| <= |v|
    ensures Contains(s, v) || v <= s ==> s == v
  {
    if Contains(s, v) {
      var i :| 0 <= i <= |s| && v <= s[i..];
      assert s[i..] == s;
    }
  }

  /** A stored e-mail on which the pattern and the value disagree. */
  function Misled(v: string): string {
    if Shadow(v) == "" then "a" else Shadow(v)
  }

  lemma {:induction false} LikePercents(v: string, s: string)
    requires Shadow(v) == ""
    ensures Like(v + "%", s) && forall i :: 0 <= i < |v| ==> v[i] == '%'
  {
    if v == "" {
      LikeAnything(s);
      assert v + "%" == "%";
    } else {
      LikePercents(v[1..], s);
      assert (v + "%")[1..] == v[1..] + "%";
    }
  }

  /** With a metacharacter in the value some stored e-mail is selected wrongly. */
  lemma MetaBreaksMeaning(attr: string, op: CmpOp, value: string, attrs: map<string, string>)
    requires IsEmailAttr(attr) && (op == Co || op == Sw) && !NoMeta(value) && Describes(attrs, Misled(Lower(value)))
    ensures Stored(Misled(Lower(value))) && !Agrees(Cmp(attr, op, value), Misled(Lower(value)), attrs)
  {
    var v := Lower(value);
    var email := Misled(v);
    LowerIsLower(value);
    LowerKeepsMeta(value);
    LowerPattern(value);
    if Shadow(v) == "" {
      LikePercents(v, "a");
    } else {
      ShadowMatches(v);
      ShadowDiffers(v);
    }
    LowerFixed(email);
    assert ("%" + (v + "%"))[1..] == v + "%";
    ContainsNoLonger(email, v);
  }

  /** When the translation is exact: ne and other attributes are dropped, so for those
      only where the comparison is no constraint. */
  predicate Exact(n: Node)
    requires IsLeaf(n)
  {
    match n
    case Present(attr) => IsEmailAttr(attr)
    case Cmp(attr, op, v) =>
      if IsEmailAttr(attr) then op == Eq || (if op == Ne then v == "" else NoMeta(v)) else (op == Co || op == Sw) && v == ""
  }

  lemma ExactAgrees(n: Node, email: string, attrs: map<string, string>)
    requires IsLeaf(n) && Exact(n) && Stored(email) && Describes(attrs, email)
    ensures Agrees(n, email, attrs)
  {
    if n.Cmp? && IsEmailAttr(n.attr) && n.op != Ne {
      TranslationPreservesMeaning(n.attr, n.op, n.value, email, attrs);
    } else if n.Cmp? && n.op == Ne {
      LowerFixed(email);
    } else if n.Cmp? {
      var got := Lower(AttrOf(attrs, n.attr));
      assert got[0..] == got && Contains(got, Lower(n.value));
    }
  }

  /** The user that a dropped filter should have kept out. */
  lemma DroppedFails(n: Node) returns (email: string, attrs: map<string, string>)
    requires IsLeaf(n) && !Exact(n) && Translate(Some(n)) == Where(NoClause)
    ensures Stored(email) && Describes(attrs, email) && !Agrees(n, email, attrs)
  {
    email := "a";
    var base := map["username" := email, "emails.value" := email];
    match n
    case Present(attr) =>
      attrs := base;
    case Cmp(attr, op, v) =>
      if IsEmailAttr(attr) {
        email := Lower(v);
        attrs := map["username" := email, "emails.value" := email];
        LowerIsLower(v);
      } else {
        attrs := if op == Ne then base[attr := v] else if v == "" then base[attr := "x"] else base;
        assert Lower("") == "";
        ContainsNoLonger("", Lower(v));
      }
  }

  /** A leaf filter is translated exactly, for all users, if and only if it compares the
      e-mail by eq, or by co or sw without a LIKE metacharacter, asks for its presence,
      or constrains nothing. */
  lemma TranslationExactIff(n: Node)
    requires IsLeaf(n)
    ensures (forall email, attrs :: Stored(email) && Describes(attrs, email) ==> Agrees(n, email, attrs)) <==> Exact(n)
  {
    if Exact(n) {
      forall email, attrs | Stored(email) && Describes(attrs, email)
        ensures Agrees(n, email, attrs)
      {
        ExactAgrees(n, email, attrs);
      }
    } else if Translate(Some(n)) == Where(NoClause) {
      var email, attrs := DroppedFails(n);
    } else {
      var email, attrs := MetaFails(n);
    }
  }

  lemma MetaFails(n: Node) returns (email: string, attrs: map<string, string>)
    requires IsLeaf(n) && !Exact(n) && Translate(Some(n)) != Where(NoClause)
    ensures Stored(email) && Describes(attrs, email) && !Agrees(n, email, attrs)
  {
    email := Misled(Lower(n.value));
    attrs := map["username" := email, "emails.value" := email];
    MetaBreaksMeaning(n.attr, n.op, n.value, attrs);
  }

  // ---- rows, count and pages ----

  datatype User = User(org: string, email: string, attrs: map<string, string>)

  function Selected(c: Clause, org: string, users: seq<User>): seq<User> {
    if users == [] then []
    else (if users[0].org == org && Holds(c, users[0].email) then [users[0]] else []) + Selected(c, org, users[1..])
  }

  /** The COUNT(*) query: the same clause over its own parameter list. */
  function Counted(c: Clause, org: string, users: seq<User>): nat {
    if users == [] then 0
    else (if users[0].org == org && Holds(c, users[0].email) then 1 else 0) + Counted(c, org, users[1..])
  }

  function Matching(n: Node, org: string, users: seq<User>): seq<User> {
    if users == [] then []
    else (if users[0].org == org && Eval(n, users[0].attrs) then [users[0]] else []) + Matching(n, org, users[1..])
  }

  /** The list returns exactly the org's users on which the filter holds, in order, and
      totalResults is their number. */
  lemma {:induction false} ListIsFiltered(n: Node, org: string, users: seq<User>)
    requires IsLeaf(n) && Exact(n)
    requires AllStored(users)
    ensures var c := Translate(Some(n)).clause;
            Selected(c, org, users) == Matching(n, org, users) && Counted(c, org, users) == |Selected(c, org, users)|
  {
    if users != [] {
      assert users[0] in users;
      ExactAgrees(n, users[0].email, users[0].attrs);
      ListIsFiltered(n, org, users[1..]);
    }
  }

  // ---- the whole answer, from the filter text on ----

  datatype Listing = BadFilter | Listed(resources: seq<User>, totalResults: nat)

  /** The handler: 400 invalidFilter, or one page of the selected rows and their number. */
  function ListUsers(filter: string, org: string, users: seq<User>, startIndex: int, count: int): Listing
    requires count > 0
  {
    match Translate(if filter == "" then None else Parse(filter))
    case InvalidFilter => BadFilter
    case Where(c) => Listed(Page(Selected(c, org, users), startIndex, count), Counted(c, org, users))
  }

  predicate IsLogical(n: Node) {
    n.And? || n.Or? || n.Not?
  }

  /** The organisation's users, in order. */
  function OfOrg(org: string, users: seq<User>): seq<User> {
    if users == [] then [] else (if users[0].org == org then [users[0]] else []) + OfOrg(org, users[1..])
  }

  lemma {:induction false} NoClauseSelectsAll(org: string, users: seq<User>)
    ensures Selected(NoClause, org, users) == OfOrg(org, users) && Counted(NoClause, org, users) == |OfOrg(org, users)|
  {
    if users != [] {
      NoClauseSelectsAll(org, users[1..]);
    }
  }

  /** A filter is refused if and only if it is a logical expression; an absent or
      unparseable one lists the whole organisation; and a comparison that is translated
      exactly lists the users it holds of. */
  lemma ListAnswers(filter: string, org: string, users: seq<User>, startIndex: int, count: int)
    requires count > 0
    ensures var answer, n := ListUsers(filter, org, users, startIndex, count), Parse(filter);
            && (answer == BadFilter <==> n.Some? && IsLogical(n.value))
            && (n.None? ==> answer == Listed(Page(OfOrg(org, users), startIndex, count), |OfOrg(org, users)|))
            && (n.Some? && IsLeaf(n.value) && Exact(n.value) && AllStored(users) ==>
                  answer == Listed(Page(Matching(n.value, org, users), startIndex, count), |Matching(n.value, org, users)|))
  {
    assert Parse("") == None;
    var n := Parse(filter);
    NoClauseSelectsAll(org, users);
    if n.Some? && IsLeaf(n.value) && Exact(n.value) && AllStored(users) {
      ListIsFiltered(n.value, org, users);
    }
  }

  predicate AllStored(users: seq<User>) {
    forall u :: u in users ==> Stored(u.email) && Describes(u.attrs, u.email)
  }

  /** The in-process paging of the group list: re-slicing from a 1-based start index. */
  method PageOf<T>(all: seq<T>, startIndex: int, count: int) returns (page: seq<T>)
    requires count > 0
    ensures page == Page(all, startIndex, count)
  {
    var offset := startIndex - 1;
    if offset < 0 {
      offset := 0;
    }
    page := if offset < |all| then all[offset..] else [];
    if |page| > count {
      page := page[..count];
    }
  }

  /** The items at 1-based positions startIndex to startIndex + count - 1. */
  function Page<T>(all: seq<T>, startIndex: int, count: int): seq<T>
    requires count > 0
  {
    var from := Clamp(startIndex - 1, |all|);
    all[from..Clamp(from + count, |all|)]
  }

  function Clamp(i: int, n: nat): (r: nat)
    ensures r <= n
  {
    if i < 0 then 0 else if i > n then n else i
  }

  /** The page starts at the item with the 1-based index, or at the first one, and holds
      `count` items or as many as there are. */
  lemma PageItems<T>(all: seq<T>, startIndex: int, count: int)
    requires count > 0
    ensures var page, from := Page(all, startIndex, count), if startIndex < 1 then 0 else startIndex - 1;
            && |page| == (if from >= |all| then 0 else if from + count > |all| then |all| - from else count)
            && forall i :: 0 <= i < |page| ==> page[i] == all[from + i]
  {
    var from := if startIndex < 1 then 0 else startIndex - 1;
    assert Clamp(startIndex - 1, |all|) == if from > |all| then |all| else from;
  }

  /** Consecutive pages from `startIndex` on, until one is empty. */
  function Pages<T>(all: seq<T>, startIndex: int, count: int): seq<T>
    requires count > 0 && startIndex > 0
    decreases |all| - startIndex
  {
    var page := Page(all, startIndex, count);
    if page == [] then [] else page + Pages(all, startIndex + count, count)
  }

  lemma PageThenRest<T>(all: seq<T>, startIndex: int, count: int)
    requires count > 0 && startIndex > 0
    ensures Page(all, startIndex, count) + all[Clamp(startIndex + count - 1, |all|)..] == all[Clamp(startIndex - 1, |all|)..]
    ensures Page(all, startIndex, count) == [] ==> all[Clamp(startIndex - 1, |all|)..] == []
  {
  }

  /** Walking the pages returns every item once and in order. */
  lemma {:induction false} PagesCoverAll<T>(all: seq<T>, startIndex: int, count: int)
    requires count > 0 && startIndex > 0
    ensures Pages(all, startIndex, count) == all[Clamp(startIndex - 1, |all|)..]
    decreases |all| - startIndex
  {
    PageThenRest(all, startIndex, count);
    if Page(all, startIndex, count) != [] {
      PagesCoverAll(all, startIndex + count, count);
    }
  }
}
