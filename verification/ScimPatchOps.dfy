/** The operation list of a SCIM PATCH body and the attribute values it produces. */
module ScimPatchOps {
  import opened Text

  /** A decoded JSON value, as far as the PATCH handler inspects it. */
  datatype Json =
    | JString(s: string)
    | JBool(b: bool)
    | JObject(fields: map<string, Json>)
    | JArray(items: seq<Json>)
    | JOther

  datatype PatchOp = PatchOp(op: string, path: string, value: Json)

  /** The columns of a user row that PATCH may change. */
  datatype UserRow = UserRow(email: string, first: string, last: string, disabled: bool)

  /** What an operation overwrites; None leaves the column alone. */
  datatype Delta = Delta(email: Option<string>, first: Option<string>, last: Option<string>, disabled: Option<bool>)

  const NoChange := Delta(None, None, None, None)

  function Over<T>(later: Option<T>, earlier: Option<T>): Option<T> {
    if later.Some? then later else earlier
  }

  function Pick<T>(o: Option<T>, current: T): T {
    if o.Some? then o.value else current
  }

  function ApplyDelta(d: Delta, row: UserRow): UserRow {
    UserRow(Pick(d.email, row.email), Pick(d.first, row.first), Pick(d.last, row.last), Pick(d.disabled, row.disabled))
  }

  /** `first` and then `second`, as one overwrite. */
  function Then(first: Delta, second: Delta): Delta {
    Delta(Over(second.email, first.email), Over(second.first, first.first),
          Over(second.last, first.last), Over(second.disabled, first.disabled))
  }

  // ---- paths ----

  /** The base of a filter-qualified path, or "" when the brackets do not match up. */
  function FilterPathBase(path: string): string {
    var open := IndexOf(path, '[');
    var close := LastIndexOf(path, ']');
    if open == |path| || close == -1 || close < open then ""
    else Lower(TrimSpace(path[..open]))
  }

  /** The plain attribute path an operation addresses: a bracketed filter is cut out. */
  function ResolvePath(path: string): string {
    var low := Lower(path);
    if '[' !in low then low
    else
      var base := FilterPathBase(path);
      if base == "" then low
      else
        var close := LastIndexOf(low, ']');
        var after :=
          if close != -1 && close + 1 < |low|
          then (if low[close + 1] == '.' then low[close + 2..] else low[close + 1..])
          else "";
        if after != "" then base + "." + after else base
  }

  lemma {:induction false} FilterPathBaseOf(base: string, rest: string)
    requires '[' !in base && ']' in rest
    ensures FilterPathBase(base + ['['] + rest) == Lower(TrimSpace(base))
  {
    var path := base + ['['] + rest;
    IndexOfConcat(base, '[', rest);
    var k :| 0 <= k < |rest| && rest[k] == ']';
    assert path[|base| + 1 + k] == ']';
    assert path[..|base|] == base;
  }

  lemma LowerOfPath(front: string, rest: string)
    requires ']' !in rest
    ensures Lower(front + [']'] + rest) == Lower(front) + [']'] + Lower(rest)
    ensures ']' !in Lower(rest)
  {
  }

  /** What follows the brackets, without its dot. */
  function LeafOf(rest: string): string {
    if rest != "" && rest[0] == '.' then rest[1..] else rest
  }

  lemma {:induction false} ResolveBracketed(path: string, base: string, front: string, rest: string)
    requires Lower(path) == front + [']'] + rest && '[' in Lower(path)
    requires FilterPathBase(path) == base != "" && ']' !in rest
    ensures ResolvePath(path) == if LeafOf(rest) == "" then base else base + "." + LeafOf(rest)
  {
    var low := Lower(path);
    LastIndexOfConcat(front, ']', rest);
    assert low[|front| + 1..] == rest;
    if rest != "" {
      assert low[|front| + 1] == rest[0] && low[|front| + 2..] == rest[1..];
    }
  }

  lemma LowerLeaf(rest: string)
    ensures LeafOf(Lower(rest)) == Lower(LeafOf(rest))
  {
  }

  /** A bracketed filter never changes the attribute addressed, whatever text it holds:
      base[filter].leaf addresses base.leaf and base[filter] addresses base. Without a
      base the text is taken as it is. */
  lemma {:induction false} FilterIsCutOut(base: string, filter: string, rest: string)
    requires '[' !in base && ']' !in rest
    ensures var path := base + ['['] + (filter + [']'] + rest);
            var name, leaf := Lower(TrimSpace(base)), Lower(LeafOf(rest));
            ResolvePath(path) == if name == "" then Lower(path) else if leaf == "" then name else name + "." + leaf
  {
    var inner := filter + [']'] + rest;
    var front := base + ['['] + filter;
    assert inner[|filter|] == ']';
    FilterPathBaseOf(base, inner);
    PathRegrouped(base, filter, rest);
    LowerOfPath(front, rest);
    LowerLeaf(rest);
    if Lower(TrimSpace(base)) != "" {
      ResolveBracketed(base + ['['] + inner, Lower(TrimSpace(base)), Lower(front), Lower(rest));
    }
  }

  lemma PathRegrouped(base: string, filter: string, tail: string)
    ensures base + ['['] + (filter + [']'] + tail) == (base + ['['] + filter) + [']'] + tail
    ensures '[' in Lower(base + ['['] + (filter + [']'] + tail))
  {
    var path := base + ['['] + (filter + [']'] + tail);
    assert path[|base|] == '[' && Lower(path)[|base|] == '[';
  }

  /** A path without a closing bracket behind an opening one is taken as it is. */
  lemma {:induction false} PlainPath(path: string)
    requires forall i, j :: 0 <= i < j < |path| && path[i] == '[' ==> path[j] != ']'
    ensures ResolvePath(path) == Lower(path)
  {
    var open, close := IndexOf(path, '['), LastIndexOf(path, ']');
    if open < |path| {
      assert close < open;
      assert FilterPathBase(path) == "";
    } else {
      assert '[' !in Lower(path);
    }
  }

  // ---- one operation ----

  /** A new userName or e-mail is trimmed and lower-cased; a blank one is ignored. */
  function EmailOf(v: Json): Option<string> {
    if v.JString? && Lower(TrimSpace(v.s)) != "" then Some(Lower(TrimSpace(v.s))) else None
  }

  function FieldOf(v: Json, name: string): Json {
    if v.JObject? && name in v.fields then v.fields[name] else JOther
  }

  function FirstEmail(items: seq<Json>): Option<string> {
    if items == [] then None
    else if EmailOf(FieldOf(items[0], "value")).Some? then EmailOf(FieldOf(items[0], "value"))
    else FirstEmail(items[1..])
  }

  function EmailsOf(v: Json): Option<string> {
    match v
    case JString(_) => EmailOf(v)
    case JObject(_) => EmailOf(FieldOf(v, "value"))
    case JArray(items) => FirstEmail(items)
    case _ => None
  }

  function NameOf(v: Json): Option<string> {
    if v.JString? then Some(TrimSpace(v.s)) else None
  }

  function DisabledOf(v: Json): Option<bool> {
    if v.JBool? then Some(!v.b) else None
  }

  /** What one operation overwrites, independently of the row it is applied to. */
  function Effect(op: PatchOp): Delta {
    var verb := Lower(op.op);
    var path := ResolvePath(op.path);
    if verb == "replace" || verb == "add" then
      if path == "active" then NoChange.(disabled := DisabledOf(op.value))
      else if path == "name.givenname" then NoChange.(first := NameOf(op.value))
      else if path == "name.familyname" then NoChange.(last := NameOf(op.value))
      else if path == "username" then NoChange.(email := EmailOf(op.value))
      else if path == "emails" || path == "emails.value" then NoChange.(email := EmailsOf(op.value))
      else if path == "" then
        var name := FieldOf(op.value, "name");
        Delta(EmailOf(FieldOf(op.value, "userName")), NameOf(FieldOf(name, "givenName")),
              NameOf(FieldOf(name, "familyName")), DisabledOf(FieldOf(op.value, "active")))
      else NoChange
    else if verb == "remove" && path == "active" then NoChange.(disabled := Some(true))
    else NoChange
  }

  /** The whole operation list as one overwrite: later operations win. */
  function Effects(ops: seq<PatchOp>): Delta {
    if ops == [] then NoChange
    else Then(Effects(ops[..|ops| - 1]), Effect(ops[|ops| - 1]))
  }

  // ---- what an operation writes, column by column ----

  predicate Writes(op: PatchOp) {
    Lower(op.op) == "replace" || Lower(op.op) == "add"
  }

  /** The operation carries this value: under that path, or as a field of an object
      without a path. */
  predicate Carries(op: PatchOp, path: string, field: string, v: Json) {
    Writes(op) && ((ResolvePath(op.path) == path && op.value == v) || (ResolvePath(op.path) == "" && HasField(op.value, field, v)))
  }

  predicate HasField(o: Json, field: string, v: Json) {
    o.JObject? && field in o.fields && o.fields[field] == v
  }

  /** active=b, or the removal of active. */
  predicate SetsDisabled(op: PatchOp, disabled: bool) {
    || Carries(op, "active", "active", JBool(!disabled))
    || (Lower(op.op) == "remove" && ResolvePath(op.path) == "active" && disabled)
  }

  predicate CarriesName(op: PatchOp, path: string, field: string, raw: string) {
    Writes(op) &&
    if ResolvePath(op.path) == path then op.value == JString(raw)
    else ResolvePath(op.path) == "" && op.value.JObject? && "name" in op.value.fields && HasField(op.value.fields["name"], field, JString(raw))
  }

  /** A name part comes trimmed, by its path or inside the object "name". */
  ghost predicate SetsName(op: PatchOp, path: string, field: string, name: string) {
    exists raw :: CarriesName(op, path, field, raw) && name == TrimSpace(raw)
  }

  ghost predicate SetsFirst(op: PatchOp, name: string) {
    SetsName(op, "name.givenname", "givenName", name)
  }

  ghost predicate SetsLast(op: PatchOp, name: string) {
    SetsName(op, "name.familyname", "familyName", name)
  }

  predicate IsEmail(v: Json, email: string) {
    v.JString? && Lower(TrimSpace(v.s)) == email != ""
  }

  predicate FieldIsEmail(o: Json, field: string, email: string) {
    o.JObject? && field in o.fields && IsEmail(o.fields[field], email)
  }

  ghost predicate FirstUsable(items: seq<Json>, i: int, email: string) {
    && 0 <= i < |items| && FieldIsEmail(items[i], "value", email)
    && (forall j, other :: 0 <= j < i ==> !FieldIsEmail(items[j], "value", other))
  }

  /** A string, an object with a value, or the first usable item of an array. */
  ghost predicate GivesEmail(v: Json, email: string) {
    IsEmail(v, email) || FieldIsEmail(v, "value", email) || (v.JArray? && exists i :: FirstUsable(v.items, i, email))
  }

  ghost predicate SetsEmail(op: PatchOp, email: string) {
    Writes(op) && EmailUnder(ResolvePath(op.path), op.value, email)
  }

  ghost predicate EmailUnder(path: string, v: Json, email: string) {
    || (path == "username" && IsEmail(v, email))
    || ((path == "emails" || path == "emails.value") && GivesEmail(v, email))
    || (path == "" && FieldIsEmail(v, "userName", email))
  }

  /** The value that the last operation to write the column gives it, or the one it had. */
  ghost predicate LastWrite<T(!new)>(ops: seq<PatchOp>, sets: (PatchOp, T) -> bool, before: T, after: T) {
    || (exists i :: WritesLast(ops, sets, i, after))
    || (after == before && forall j, v :: 0 <= j < |ops| ==> !sets(ops[j], v))
  }

  ghost predicate WritesLast<T(!new)>(ops: seq<PatchOp>, sets: (PatchOp, T) -> bool, i: int, v: T) {
    0 <= i < |ops| && sets(ops[i], v) && forall j, w :: i < j < |ops| ==> !sets(ops[j], w)
  }

  lemma LastWriteNext<T(!new)>(ops: seq<PatchOp>, op: PatchOp, sets: (PatchOp, T) -> bool, before: T, now: T, e: Option<T>)
    requires LastWrite(ops, sets, before, now)
    requires forall v :: sets(op, v) <==> e == Some(v)
    ensures LastWrite(ops + [op], sets, before, Pick(e, now))
  {
    var more, n := ops + [op], |ops|;
    assert more[n] == op;
    if e.Some? {
      assert WritesLast(more, sets, n, e.value);
    } else if i :| WritesLast(ops, sets, i, now) {
      assert WritesLast(more, sets, i, now);
    }
  }

  lemma {:induction false} FirstEmailIff(items: seq<Json>, email: string)
    ensures FirstEmail(items) == Some(email) <==> exists i :: FirstUsable(items, i, email)
  {
    if items == [] {
      assert forall i :: !FirstUsable(items, i, email);
    } else {
      FirstEmailIff(items[1..], email);
      var head := EmailOf(FieldOf(items[0], "value"));
      if head.Some? {
        assert FieldIsEmail(items[0], "value", head.value);
        assert email == head.value ==> FirstUsable(items, 0, email);
      } else {
        LaterUsable(items, email);
      }
    }
  }

  lemma LaterUsable(items: seq<Json>, email: string)
    requires items != [] && forall other :: !FieldIsEmail(items[0], "value", other)
    ensures (exists i :: FirstUsable(items, i, email)) <==> exists i :: FirstUsable(items[1..], i, email)
  {
    if i :| FirstUsable(items, i, email) {
      assert FirstUsable(items[1..], i - 1, email);
    }
    if i :| FirstUsable(items[1..], i, email) {
      forall j, other | 0 <= j < i + 1
        ensures !FieldIsEmail(items[j], "value", other)
      {
        assert j > 0 ==> items[j] == items[1..][j - 1];
      }
      assert FirstUsable(items, i + 1, email);
    }
  }

  lemma EmailsOfIff(v: Json, email: string)
    ensures EmailsOf(v) == Some(email) <==> GivesEmail(v, email)
  {
    if v.JArray? {
      FirstEmailIff(v.items, email);
    }
  }

  function EmailAt(path: string, v: Json): Option<string> {
    if path == "username" then EmailOf(v)
    else if path == "emails" || path == "emails.value" then EmailsOf(v)
    else if path == "" then EmailOf(FieldOf(v, "userName"))
    else None
  }

  lemma EmailUnderIff(path: string, v: Json, email: string)
    ensures EmailUnder(path, v, email) <==> EmailAt(path, v) == Some(email)
  {
    EmailsOfIff(v, email);
    assert EmailOf(v) == Some(email) <==> IsEmail(v, email);
    assert EmailOf(FieldOf(v, "userName")) == Some(email) <==> FieldIsEmail(v, "userName", email);
  }

  lemma EffectEmailIs(op: PatchOp)
    ensures Effect(op).email == if Writes(op) then EmailAt(ResolvePath(op.path), op.value) else None
  {
  }

  lemma EffectEmailIff(op: PatchOp, email: string)
    ensures Effect(op).email == Some(email) <==> SetsEmail(op, email)
  {
    EffectEmailIs(op);
    EmailUnderIff(ResolvePath(op.path), op.value, email);
  }

  lemma EffectDisabledIff(op: PatchOp, disabled: bool)
    ensures Effect(op).disabled == Some(disabled) <==> SetsDisabled(op, disabled)
  {
  }

  lemma EffectFirstIff(op: PatchOp, name: string)
    ensures Effect(op).first == Some(name) <==> SetsFirst(op, name)
  {
    var v := if ResolvePath(op.path) == "" then FieldOf(FieldOf(op.value, "name"), "givenName") else op.value;
    assert SetsFirst(op, name) ==> v.JString?;
    assert v.JString? && Effect(op).first.Some? ==> CarriesName(op, "name.givenname", "givenName", v.s);
  }

  lemma EffectLastIff(op: PatchOp, name: string)
    ensures Effect(op).last == Some(name) <==> SetsLast(op, name)
  {
    var v := if ResolvePath(op.path) == "" then FieldOf(FieldOf(op.value, "name"), "familyName") else op.value;
    assert SetsLast(op, name) ==> v.JString?;
    assert v.JString? && Effect(op).last.Some? ==> CarriesName(op, "name.familyname", "familyName", v.s);
  }

  /** Each column holds what the last operation to write it says, and what it held
      before if none does. */
  ghost predicate LastWritesWin(ops: seq<PatchOp>, row: UserRow, patched: UserRow) {
    match patched
    case UserRow(_, _, _, _) =>
      && LastWrite(ops, SetsEmail, row.email, patched.email)
      && LastWrite(ops, SetsFirst, row.first, patched.first)
      && LastWrite(ops, SetsLast, row.last, patched.last)
      && LastWrite(ops, SetsDisabled, row.disabled, patched.disabled)
  }

  lemma ThenApplies(a: Delta, b: Delta, row: UserRow)
    ensures ApplyDelta(Then(a, b), row) == ApplyDelta(b, ApplyDelta(a, row))
  {
  }

  lemma LastWritesNext(ops: seq<PatchOp>, op: PatchOp, row: UserRow, now: UserRow)
    requires LastWritesWin(ops, row, now)
    ensures LastWritesWin(ops + [op], row, ApplyDelta(Effect(op), now))
  {
    var d := Effect(op);
    forall v
      ensures d.email == Some(v) <==> SetsEmail(op, v)
      ensures d.first == Some(v) <==> SetsFirst(op, v)
      ensures d.last == Some(v) <==> SetsLast(op, v)
    {
      EffectEmailIff(op, v);
      EffectFirstIff(op, v);
      EffectLastIff(op, v);
    }
    forall b
      ensures d.disabled == Some(b) <==> SetsDisabled(op, b)
    {
      EffectDisabledIff(op, b);
    }
    LastWriteNext(ops, op, SetsEmail, row.email, now.email, d.email);
    LastWriteNext(ops, op, SetsFirst, row.first, now.first, d.first);
    LastWriteNext(ops, op, SetsLast, row.last, now.last, d.last);
    LastWriteNext(ops, op, SetsDisabled, row.disabled, now.disabled, d.disabled);
  }

  lemma {:induction false} EffectsMean(ops: seq<PatchOp>, row: UserRow)
    ensures LastWritesWin(ops, row, ApplyDelta(Effects(ops), row))
  {
    if ops != [] {
      var front, op := ops[..|ops| - 1], ops[|ops| - 1];
      assert ops == front + [op];
      EffectsMean(front, row);
      ThenApplies(Effects(front), Effect(op), row);
      LastWritesNext(front, op, row, ApplyDelta(Effects(front), row));
    }
  }

  /** The operations loop of the handler: locals are updated operation by operation. */
  method ApplyOperations(ops: seq<PatchOp>, row: UserRow) returns (patched: UserRow)
    ensures LastWritesWin(ops, row, patched)
    ensures patched == ApplyDelta(Effects(ops), row)
  {
    var email, first, last, disabled := row.email, row.first, row.last, row.disabled;
    for i := 0 to |ops|
      invariant UserRow(email, first, last, disabled) == ApplyDelta(Effects(ops[..i]), row)
    {
      var d := Effect(ops[i]);
      if d.email.Some? { email := d.email.value; }
      if d.first.Some? { first := d.first.value; }
      if d.last.Some? { last := d.last.value; }
      if d.disabled.Some? { disabled := d.disabled.value; }
      assert ops[..i + 1][..i] == ops[..i];
    }
    assert ops[..|ops|] == ops;
    EffectsMean(ops, row);
    patched := UserRow(email, first, last, disabled);
  }

  /** Splitting a body into two consecutive PATCHes gives the same row. */
  lemma {:induction false} EffectsConcat(a: seq<PatchOp>, b: seq<PatchOp>, row: UserRow)
    ensures Effects(a + b) == Then(Effects(a), Effects(b))
    ensures ApplyDelta(Effects(a + b), row) == ApplyDelta(Effects(b), ApplyDelta(Effects(a), row))
    decreases |b|
  {
    if b == [] {
      assert a + b == a;
    } else {
      var front := b[..|b| - 1];
      EffectsConcat(a, front, row);
      assert (a + b)[..|a + b| - 1] == a + front;
    }
  }

  /** Re-sending a PATCH body changes nothing that it did not change the first time. */
  lemma ReplayIsIdempotent(ops: seq<PatchOp>, row: UserRow)
    ensures ApplyDelta(Effects(ops + ops), row) == ApplyDelta(Effects(ops), row)
  {
    EffectsConcat(ops, ops, row);
  }

  predicate NormalEmail(e: string) {
    e != "" && IsLower(e) && TrimSpace(e) == e
  }

  predicate NormalIfSet(e: Option<string>) {
    e.Some? ==> NormalEmail(e.value)
  }

  lemma EmailOfNormal(v: Json)
    ensures NormalIfSet(EmailOf(v))
  {
    if EmailOf(v).Some? {
      var trimmed := TrimSpace(v.s);
      LowerIsLower(trimmed);
      assert !IsSpace(Lower(trimmed)[0]) && !IsSpace(Lower(trimmed)[|trimmed| - 1]);
      TrimNothing(Lower(trimmed));
    }
  }

  lemma {:induction false} FirstEmailNormal(items: seq<Json>)
    ensures NormalIfSet(FirstEmail(items))
  {
    if items != [] {
      EmailOfNormal(FieldOf(items[0], "value"));
      FirstEmailNormal(items[1..]);
    }
  }

  lemma EmailsOfNormal(v: Json)
    ensures NormalIfSet(EmailsOf(v))
  {
    EmailOfNormal(v);
    EmailOfNormal(FieldOf(v, "value"));
    if v.JArray? {
      FirstEmailNormal(v.items);
    }
  }

  lemma EffectEmail(op: PatchOp)
    ensures var e := Effect(op).email;
            e in {None, EmailOf(op.value), EmailsOf(op.value), EmailOf(FieldOf(op.value, "userName"))}
  {
  }

  /** No operation list can blank the e-mail or store one with upper-case letters or
      blanks around it. */
  lemma {:induction false} EmailStaysNormal(ops: seq<PatchOp>, row: UserRow)
    requires NormalEmail(row.email)
    ensures NormalEmail(ApplyDelta(Effects(ops), row).email)
  {
    if ops != [] {
      EmailStaysNormal(ops[..|ops| - 1], row);
      var op := ops[|ops| - 1];
      EffectEmail(op);
      EmailOfNormal(op.value);
      EmailsOfNormal(op.value);
      EmailOfNormal(FieldOf(op.value, "userName"));
      assert NormalIfSet(Effect(op).email);
    }
  }
}
