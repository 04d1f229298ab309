/** Optimistic concurrency of SCIM PATCH on one user.

    Any number of handlers run at once. Each one reads the row and its version,
    takes the next version by a compare-and-swap, updates the identity provider,
    writes the row, and on a failure rolls the version back only if it is still
    the one it took. Every database statement and every foreign call is one
    atomic step; a handler that crashes simply takes no further step. */
module ScimPatch {
  import opened Text
  import opened ScimPatchOps

  // ---- If-Match ----

  datatype IfMatch = NoHeader | Malformed | AnyVersion | Version(v: int)

  function TrimPrefix(s: string, prefix: string): string {
    if prefix <= s then s[|prefix|..] else s
  }

  predicate IsDoubleQuote(c: char) {
    c == '"'
  }

  /** Without the mark of a weak validator and the quotes. */
  function Unquoted(raw: string): string {
    Trim(Unmarked(raw), IsDoubleQuote)
  }

  function ParseIfMatch(header: string): IfMatch {
    var raw := TrimSpace(header);
    if raw == "" then NoHeader
    else if raw == "*" then AnyVersion
    else
      match ParseInt64(Unquoted(raw))
      case None => Malformed
      case Some(n) => Version(n)
  }

  /** meta.version and the ETag header. */
  function ETag(version: nat): string {
    "W/\"" + Dec(version) + "\""
  }

  /** Every ETag the handlers emit comes back as exactly that version. */
  lemma ETagRoundTrip(version: nat)
    requires version < INT64_LIMIT
    ensures ParseIfMatch(ETag(version)) == Version(version)
  {
    QuotedETag(Dec(version));
    ParseInt64Dec(version);
  }

  /** A version as a header may spell it: in either case of the weak mark, or both, with
      any quotes around it, and a sign. */
  predicate Spells(raw: string, mark: string, open: string, digits: string, close: string, n: int) {
    && (mark == "" || mark == "W/" || mark == "w/" || mark == "W/w/")
    && AllCut(open, IsDoubleQuote) && AllCut(close, IsDoubleQuote)
    && raw == mark + (open + (digits + close)) && ParseInt64(digits) == Some(n)
  }

  ghost predicate SpellsVersion(raw: string, n: int) {
    exists mark, open, digits, close :: Spells(raw, mark, open, digits, close, n)
  }

  function Unmarked(raw: string): string {
    TrimPrefix(TrimPrefix(raw, "W/"), "w/")
  }

  lemma PrefixOff(s: string, prefix: string) returns (off: string)
    ensures (off == "" || off == prefix) && s == off + TrimPrefix(s, prefix)
  {
    off := if prefix <= s then prefix else "";
  }

  lemma MarkOf(raw: string) returns (mark: string)
    ensures (mark == "" || mark == "W/" || mark == "w/" || mark == "W/w/") && raw == mark + Unmarked(raw)
  {
    var one := TrimPrefix(raw, "W/");
    var a := PrefixOff(raw, "W/");
    var b := PrefixOff(one, "w/");
    mark := a + b;
    Regroup(a, b, Unmarked(raw));
  }

  lemma MarkComesOff(mark: string, body: string)
    requires mark == "" || mark == "W/" || mark == "w/" || mark == "W/w/"
    requires body != "" && body[0] != 'W' && body[0] != 'w'
    ensures Unmarked(mark + body) == body
  {
    var raw := mark + body;
    if mark == "" {
      assert raw == body;
    } else if mark == "W/" {
      assert raw[2..] == body;
    } else if mark == "w/" {
      assert raw[2..] == body;
    } else {
      assert raw[2..] == "w/" + body && ("w/" + body)[2..] == body;
    }
  }

  lemma IntTextEnds(digits: string, n: int)
    requires ParseInt64(digits) == Some(n)
    ensures digits != "" && !IsDoubleQuote(digits[0]) && !IsDoubleQuote(digits[|digits| - 1]) && digits[0] != 'W' && digits[0] != 'w'
  {
    var tail := if digits[0] == '-' || digits[0] == '+' then digits[1..] else digits;
    assert AllDigits(tail) && tail[|tail| - 1] == digits[|digits| - 1];
  }

  lemma SpellsVersionIff(raw: string, n: int)
    ensures ParseInt64(Unquoted(raw)) == Some(n) <==> SpellsVersion(raw, n)
  {
    if ParseInt64(Unquoted(raw)) == Some(n) {
      var mark := MarkOf(raw);
      var open, close := TrimParts(Unmarked(raw), IsDoubleQuote);
      assert Spells(raw, mark, open, Unquoted(raw), close, n);
    }
    if mark, open, digits, close :| Spells(raw, mark, open, digits, close, n) {
      IntTextEnds(digits, n);
      TrimCuts(open, digits, close, IsDoubleQuote);
      MarkComesOff(mark, open + (digits + close));
    }
  }

  /** A blank header constrains nothing, "*" matches any version, a version is read from
      exactly the texts that spell it, and all other texts are malformed. */
  lemma IfMatchMeans(header: string)
    ensures var raw := TrimSpace(header);
            && (ParseIfMatch(header) == NoHeader <==> AllCut(header, IsSpace))
            && (ParseIfMatch(header) == AnyVersion <==> raw == "*")
            && (forall n :: ParseIfMatch(header) == Version(n) <==> SpellsVersion(raw, n))
  {
    var raw := TrimSpace(header);
    BlankIff(header);
    forall n
      ensures ParseInt64(Unquoted(raw)) == Some(n) <==> SpellsVersion(raw, n)
    {
      SpellsVersionIff(raw, n);
    }
    if raw == "" || raw == "*" {
      assert ParseInt64(Unquoted(raw)).None?;
    }
  }

  lemma QuotedETag(digits: string)
    requires digits != "" && AllDigits(digits)
    ensures var raw := "W/\"" + digits + "\""; TrimSpace(raw) == raw && raw != "*" && Unquoted(raw) == digits
  {
    var raw, body := "W/\"" + digits + "\"", "\"" + digits + "\"";
    assert raw[|raw| - 1] == '"';
    TrimNothing(raw);
    assert raw[2..] == body;
    TrimQuoted(digits);
  }

  lemma TrimQuoted(digits: string)
    requires digits != "" && AllDigits(digits)
    ensures Trim("\"" + digits + "\"", IsDoubleQuote) == digits
  {
    var body := "\"" + digits + "\"";
    assert body[1..] == digits + "\"" && (digits + "\"")[0] == digits[0];
    assert TrimLeft(body, IsDoubleQuote) == TrimLeft(digits + "\"", IsDoubleQuote) == digits + "\"";
    assert (digits + "\"")[..|digits|] == digits;
    assert TrimRight(digits + "\"", IsDoubleQuote) == TrimRight(digits, IsDoubleQuote) == digits;
  }

  /** A version constraint is met by the stored version; a negative one constrains nothing. */
  predicate Admits(m: IfMatch, current: int) {
    m.Version? && m.v >= 0 ==> m.v == current
  }

  // ---- the two version statements ----

  /** COALESCE(version, 1): a user without a version row is at version 1. */
  function Current(stored: Option<int>): int {
    if stored.None? then 1 else stored.value
  }

  /** INSERT ... ON CONFLICT DO UPDATE ... WHERE version = base; None when no row is affected. */
  function Bump(stored: Option<int>, base: int): Option<int> {
    if stored.None? || stored.value == base then Some(base + 1) else None
  }

  /** UPDATE ... SET version = prev WHERE version = attempted. */
  function RollBack(stored: Option<int>, prev: int, attempted: int): Option<int> {
    if stored == Some(attempted) then Some(prev) else stored
  }

  /** What the identity provider keeps of a user. */
  datatype Identity = Identity(first: string, last: string, disabled: bool)

  function IdentityOf(row: UserRow): Identity {
    Identity(row.first, row.last, row.disabled)
  }

  /** The row UPDATE: the e-mail column is only written when the PATCH changes it. */
  function Written(stored: UserRow, orig: UserRow, target: UserRow): UserRow {
    if target.email != orig.email then target else target.(email := stored.email)
  }

  datatype Reply = Ok(etag: int) | BadRequest | PreconditionFailed | ServerError

  // ---- one handler running alone ----

  /** Which of the statements and foreign calls succeed. */
  datatype Outcome = Outcome(load: bool, bump: bool, push: bool, write: bool, rollBack: bool, restore: bool)

  class UserStore {
    var version: Option<int>
    var row: UserRow
    var keycloak: Identity

    constructor (version: Option<int>, row: UserRow, keycloak: Identity)
      ensures this.version == version && this.row == row && this.keycloak == keycloak
    {
      this.version, this.row, this.keycloak := version, row, keycloak;
    }

    /** Without overlap a PATCH is all or nothing: it succeeds exactly when its
        precondition holds and every call succeeds, and a failure leaves the row
        alone, leaves the version alone unless the roll-back itself fails, and
        leaves Keycloak in step with the row unless its restore fails. */
    method Patch(ifMatch: IfMatch, ops: seq<PatchOp>, outcome: Outcome) returns (reply: Reply)
      modifies this
      ensures reply.Ok? <==>
              (outcome.load && ifMatch != Malformed && Admits(ifMatch, Current(old(version))) &&
               outcome.bump && outcome.push && outcome.write)
      ensures reply == BadRequest <==> outcome.load && ifMatch == Malformed
      ensures reply == PreconditionFailed <==> outcome.load && ifMatch.Version? && ifMatch.v >= 0 && ifMatch.v != Current(old(version))
      ensures reply.Ok? ==>
              && LastWritesWin(ops, old(row), row) && row == ApplyDelta(Effects(ops), old(row))
              && keycloak.first == row.first && keycloak.last == row.last && keycloak.disabled == row.disabled
              && version == Some(reply.etag) && reply.etag == Current(old(version)) + 1
      ensures !reply.Ok? ==>
              && row == old(row)
              && (outcome.rollBack ==> Current(version) == Current(old(version)))
              && (outcome.restore && old(keycloak) == IdentityOf(row) ==> keycloak == old(keycloak))
      ensures !reply.Ok? && keycloak != old(keycloak) ==>
              keycloak == IdentityOf(if outcome.restore then row else ApplyDelta(Effects(ops), row))
    {
      if !outcome.load {
        return ServerError;
      }
      var base, orig := Current(version), row;
      if ifMatch == Malformed {
        return BadRequest;
      }
      if ifMatch.Version? && ifMatch.v >= 0 && ifMatch.v != base {
        return PreconditionFailed;
      }
      var target := ApplyOperations(ops, orig);
      reply := Store(base, target, outcome);
    }

    /** The handler once its precondition is met: bump, push, write, or compensate. */
    method Store(base: int, target: UserRow, outcome: Outcome) returns (reply: Reply)
      requires base == Current(version)
      modifies this
      ensures reply == if outcome.bump && outcome.push && outcome.write then Ok(base + 1) else ServerError
      ensures reply.Ok? ==> row == target && keycloak == IdentityOf(target) && version == Some(base + 1)
      ensures !reply.Ok? ==>
              && row == old(row)
              && (outcome.rollBack ==> Current(version) == base)
              && (keycloak == old(keycloak) || keycloak == IdentityOf(if outcome.restore then row else target))
    {
      var orig := row;
      if !outcome.bump {
        return ServerError;
      }
      var bumped := Bump(version, base);
      if bumped.None? {
        return PreconditionFailed;
      }
      version := bumped;
      if !outcome.push {
        if outcome.rollBack {
          version := RollBack(version, base, base + 1);
        }
        return ServerError;
      }
      keycloak := IdentityOf(target);
      if !outcome.write {
        if outcome.rollBack {
          version := RollBack(version, base, base + 1);
        }
        if outcome.restore {
          keycloak := IdentityOf(orig);
        }
        return ServerError;
      }
      row := Written(row, orig, target);
      return Ok(base + 1);
    }
  }

  // ---- many handlers, any interleaving ----

  datatype Stage =
    | Arrived
    | Loaded(base: int, orig: UserRow)
    | Claimed(base: int, orig: UserRow)
    | Pushed(base: int, orig: UserRow)
    | Undoing(base: int, orig: UserRow, pushed: bool)
    | Restoring(orig: UserRow)
    | Replied(reply: Reply)

  datatype Request = Request(ifMatch: IfMatch, delta: Delta, stage: Stage)

  datatype Commit = Commit(id: nat, etag: int, delta: Delta)

  /** `owner` and `commits` are history: who took each version that is still below the
      stored one, and the rows written, in order. No step reads them. */
  datatype State = State(version: Option<int>, row: UserRow, keycloak: Identity,
                         reqs: map<nat, Request>, owner: map<int, nat>, commits: seq<Commit>)

  datatype Step =
    | Arrive(id: nat, ifMatch: IfMatch, delta: Delta)
    | Load(id: nat, ok: bool)
    | TakeVersion(id: nat, ok: bool)
    | Push(id: nat, ok: bool)
    | Write(id: nat, ok: bool)
    | Undo(id: nat, ok: bool)
    | Restore(id: nat, ok: bool)
    | InitVersion

  function Start(version: Option<int>, row: UserRow, keycloak: Identity): State {
    State(version, row, keycloak, map[], map[], [])
  }

  function At(s: State, id: nat, stage: Stage): State
    requires id in s.reqs
  {
    s.(reqs := s.reqs[id := s.reqs[id].(stage := stage)])
  }

  function NextLoad(s: State, id: nat, ok: bool): State
    requires id in s.reqs
  {
    var m := s.reqs[id].ifMatch;
    if !ok then At(s, id, Replied(ServerError))
    else if m == Malformed then At(s, id, Replied(BadRequest))
    else if !Admits(m, Current(s.version)) then At(s, id, Replied(PreconditionFailed))
    else At(s, id, Loaded(Current(s.version), s.row))
  }

  function NextTake(s: State, id: nat, ok: bool): State
    requires id in s.reqs && s.reqs[id].stage.Loaded?
  {
    var st := s.reqs[id].stage;
    if !ok then At(s, id, Replied(ServerError))
    else
      match Bump(s.version, st.base)
      case None => At(s, id, Replied(PreconditionFailed))
      case Some(v) => At(s, id, Claimed(st.base, st.orig)).(version := Some(v), owner := s.owner[v := id])
  }

  function NextPush(s: State, id: nat, ok: bool): State
    requires id in s.reqs && s.reqs[id].stage.Claimed?
  {
    var st := s.reqs[id].stage;
    if !ok then At(s, id, Undoing(st.base, st.orig, false))
    else At(s, id, Pushed(st.base, st.orig)).(keycloak := IdentityOf(ApplyDelta(s.reqs[id].delta, st.orig)))
  }

  function NextWrite(s: State, id: nat, ok: bool): State
    requires id in s.reqs && s.reqs[id].stage.Pushed?
  {
    var st := s.reqs[id].stage;
    var d := s.reqs[id].delta;
    if !ok then At(s, id, Undoing(st.base, st.orig, true))
    else At(s, id, Replied(Ok(st.base + 1))).(row := Written(s.row, st.orig, ApplyDelta(d, st.orig)),
                                              commits := s.commits + [Commit(id, st.base + 1, d)])
  }

  function NextUndo(s: State, id: nat, ok: bool): State
    requires id in s.reqs && s.reqs[id].stage.Undoing?
  {
    var st := s.reqs[id].stage;
    var moved := At(s, id, if st.pushed then Restoring(st.orig) else Replied(ServerError));
    if !ok || s.version != Some(st.base + 1) then moved
    else moved.(version := RollBack(s.version, st.base, st.base + 1), owner := s.owner - {st.base + 1})
  }

  function NextRestore(s: State, id: nat, ok: bool): State
    requires id in s.reqs && s.reqs[id].stage.Restoring?
  {
    var st := s.reqs[id].stage;
    var moved := At(s, id, Replied(ServerError));
    if ok then moved.(keycloak := IdentityOf(st.orig)) else moved
  }

  /** A step that is not enabled changes nothing. */
  function Next(s: State, step: Step): State {
    match step
    case Arrive(id, m, d) => if id in s.reqs then s else s.(reqs := s.reqs[id := Request(m, d, Arrived)])
    case Load(id, ok) => if id in s.reqs && s.reqs[id].stage.Arrived? then NextLoad(s, id, ok) else s
    case TakeVersion(id, ok) => if id in s.reqs && s.reqs[id].stage.Loaded? then NextTake(s, id, ok) else s
    case Push(id, ok) => if id in s.reqs && s.reqs[id].stage.Claimed? then NextPush(s, id, ok) else s
    case Write(id, ok) => if id in s.reqs && s.reqs[id].stage.Pushed? then NextWrite(s, id, ok) else s
    case Undo(id, ok) => if id in s.reqs && s.reqs[id].stage.Undoing? then NextUndo(s, id, ok) else s
    case Restore(id, ok) => if id in s.reqs && s.reqs[id].stage.Restoring? then NextRestore(s, id, ok) else s
    case InitVersion => if s.version.None? then s.(version := Some(1)) else s
  }

  function Run(s: State, steps: seq<Step>): State
    decreases |steps|
  {
    if steps == [] then s else Run(Next(s, steps[0]), steps[1..])
  }

  // ---- version ownership ----

  /** The version a handler has taken and not given back. */
  function Claim(stage: Stage): Option<int> {
    match stage
    case Claimed(base, _) => Some(base + 1)
    case Pushed(base, _) => Some(base + 1)
    case Undoing(base, _, _) => Some(base + 1)
    case Replied(Ok(etag)) => Some(etag)
    case _ => None
  }

  /** Each version above `first` up to the stored one belongs to exactly one request,
      no request has two, and a request that took a version still has it. */
  ghost predicate Owned(first: int, s: State) {
    match s
    case State(_, _, _, _, _, _) =>
      && (s.version.None? ==> first == 1)
      && (forall v :: v in s.owner <==> first < v <= Current(s.version))
      && first <= Current(s.version)
      && (forall v :: v in s.owner ==> s.owner[v] in s.reqs && !s.reqs[s.owner[v]].stage.Arrived? && !s.reqs[s.owner[v]].stage.Loaded?)
      && (forall v, w :: v in s.owner && w in s.owner && s.owner[v] == s.owner[w] ==> v == w)
      && (forall id :: id in s.reqs ==> HasClaim(s, id))
      && (s.version.None? ==> forall id :: id in s.reqs && s.reqs[id].stage.Loaded? ==> s.reqs[id].stage.base == 1)
  }

  ghost predicate HasClaim(s: State, id: nat)
    requires id in s.reqs
  {
    var c := Claim(s.reqs[id].stage);
    c.Some? ==> c.value in s.owner && s.owner[c.value] == id
  }

  /** A request that constrained the version works on that version. */
  ghost predicate Constrained(s: State) {
    forall id :: id in s.reqs ==> Meets(s.reqs[id].ifMatch, s.reqs[id].stage)
  }

  predicate Meets(m: IfMatch, stage: Stage) {
    m.Version? && m.v >= 0 ==> (stage.Loaded? ==> stage.base == m.v) && (Claim(stage).Some? ==> Claim(stage).value == m.v + 1)
  }

  /** Moving on without taking or giving back a version. */
  lemma OwnedAt(first: int, s: State, id: nat, stage: Stage)
    requires Owned(first, s) && id in s.reqs && !stage.Arrived?
    requires stage.Loaded? ==> s.reqs[id].stage.Arrived? && stage.base == Current(s.version)
    requires Claim(stage).Some? ==> Claim(stage) == Claim(s.reqs[id].stage)
    ensures Owned(first, At(s, id, stage))
  {
    var t := At(s, id, stage);
    assert HasClaim(s, id);
    assert forall i :: i in t.reqs ==> (HasClaim(s, i) && i != id ==> HasClaim(t, i));
  }

  lemma OwnedTake(first: int, s: State, id: nat, ok: bool)
    requires Owned(first, s) && id in s.reqs && s.reqs[id].stage.Loaded?
    ensures Owned(first, NextTake(s, id, ok))
  {
    var st := s.reqs[id].stage;
    var v := Bump(s.version, st.base);
    if !ok || v.None? {
      OwnedAt(first, s, id, Replied(ServerError));
      OwnedAt(first, s, id, Replied(PreconditionFailed));
    } else {
      var t := NextTake(s, id, ok);
      assert st.base == Current(s.version) && v.value !in s.owner;
      forall i | i in t.reqs
        ensures HasClaim(t, i)
      {
        assert HasClaim(s, i);
      }
    }
  }

  lemma OwnedUndo(first: int, s: State, id: nat, ok: bool)
    requires Owned(first, s) && id in s.reqs && s.reqs[id].stage.Undoing?
    ensures Owned(first, NextUndo(s, id, ok))
  {
    var st := s.reqs[id].stage;
    var moved := if st.pushed then Restoring(st.orig) else Replied(ServerError);
    OwnedAt(first, s, id, moved);
    if ok && s.version == Some(st.base + 1) {
      var t := NextUndo(s, id, ok);
      assert HasClaim(s, id) && Current(t.version) == st.base;
      forall i | i in t.reqs
        ensures HasClaim(t, i)
      {
        assert HasClaim(s, i);
      }
    }
  }

  lemma OwnedArrive(first: int, s: State, id: nat, m: IfMatch, d: Delta)
    requires Owned(first, s) && id !in s.reqs
    ensures Owned(first, Next(s, Arrive(id, m, d)))
  {
    var t := Next(s, Arrive(id, m, d));
    assert forall i :: i in s.reqs ==> HasClaim(s, i) && HasClaim(t, i);
  }

  lemma OwnedPush(first: int, s: State, id: nat, ok: bool)
    requires Owned(first, s) && id in s.reqs && s.reqs[id].stage.Claimed?
    ensures Owned(first, NextPush(s, id, ok))
  {
    var stage := NextPush(s, id, ok).reqs[id].stage;
    OwnedAt(first, s, id, stage);
    OwnedFrame(first, At(s, id, stage), NextPush(s, id, ok));
  }

  lemma OwnedWrite(first: int, s: State, id: nat, ok: bool)
    requires Owned(first, s) && id in s.reqs && s.reqs[id].stage.Pushed?
    ensures Owned(first, NextWrite(s, id, ok))
  {
    var stage := NextWrite(s, id, ok).reqs[id].stage;
    OwnedAt(first, s, id, stage);
    OwnedFrame(first, At(s, id, stage), NextWrite(s, id, ok));
  }

  lemma OwnedRestore(first: int, s: State, id: nat, ok: bool)
    requires Owned(first, s) && id in s.reqs && s.reqs[id].stage.Restoring?
    ensures Owned(first, NextRestore(s, id, ok))
  {
    OwnedAt(first, s, id, Replied(ServerError));
    OwnedFrame(first, At(s, id, Replied(ServerError)), NextRestore(s, id, ok));
  }

  lemma OwnedNext(first: int, s: State, step: Step)
    requires Owned(first, s)
    ensures Owned(first, Next(s, step))
  {
    match step
    case Arrive(id, m, d) => if id !in s.reqs { OwnedArrive(first, s, id, m, d); }
    case Load(id, ok) =>
      if id in s.reqs && s.reqs[id].stage.Arrived? { OwnedAt(first, s, id, NextLoad(s, id, ok).reqs[id].stage); }
    case TakeVersion(id, ok) => if id in s.reqs && s.reqs[id].stage.Loaded? { OwnedTake(first, s, id, ok); }
    case Push(id, ok) => if id in s.reqs && s.reqs[id].stage.Claimed? { OwnedPush(first, s, id, ok); }
    case Write(id, ok) => if id in s.reqs && s.reqs[id].stage.Pushed? { OwnedWrite(first, s, id, ok); }
    case Undo(id, ok) => if id in s.reqs && s.reqs[id].stage.Undoing? { OwnedUndo(first, s, id, ok); }
    case Restore(id, ok) => if id in s.reqs && s.reqs[id].stage.Restoring? { OwnedRestore(first, s, id, ok); }
    case InitVersion => OwnedFrame(first, s, Next(s, step));
  }

  lemma OwnedFrame(first: int, s: State, t: State)
    requires Owned(first, s)
    requires t.reqs == s.reqs && t.owner == s.owner
    requires t.version == s.version || (s.version.None? && t.version == Some(1))
    ensures Owned(first, t)
  {
    assert forall i :: i in s.reqs ==> HasClaim(s, i) && HasClaim(t, i);
  }

  lemma MeetsNext(s: State, step: Step)
    requires !step.InitVersion? && step.id in s.reqs && Meets(s.reqs[step.id].ifMatch, s.reqs[step.id].stage)
    ensures var t := Next(s, step);
            step.id in t.reqs && t.reqs == s.reqs[step.id := t.reqs[step.id]] && Meets(t.reqs[step.id].ifMatch, t.reqs[step.id].stage)
  {
  }

  lemma ConstrainedNext(s: State, step: Step)
    requires Constrained(s)
    ensures Constrained(Next(s, step))
  {
    if !step.InitVersion? && step.id in s.reqs {
      MeetsNext(s, step);
    }
  }

  lemma {:induction false} OwnedRun(first: int, s: State, steps: seq<Step>)
    requires Owned(first, s) && Constrained(s)
    ensures Owned(first, Run(s, steps)) && Constrained(Run(s, steps))
    decreases |steps|
  {
    if steps != [] {
      OwnedNext(first, s, steps[0]);
      ConstrainedNext(s, steps[0]);
      OwnedRun(first, Next(s, steps[0]), steps[1..]);
    }
  }

  predicate Succeeded(s: State, id: nat, etag: int) {
    id in s.reqs && s.reqs[id].stage == Replied(Ok(etag))
  }

  /** The version claims, for every interleaving of any number of PATCHes. */
  lemma VersionClaims(version: Option<int>, row: UserRow, keycloak: Identity, steps: seq<Step>)
    ensures var s := Run(Start(version, row, keycloak), steps);
            var first, now := Current(version), Current(s.version);
            && (forall v :: v in s.owner <==> first < v <= now)
            && (forall v, w :: v in s.owner && w in s.owner && s.owner[v] == s.owner[w] ==> v == w)
            && (forall id, etag :: Succeeded(s, id, etag) ==> first < etag <= now && s.owner[etag] == id)
            && (forall i, j, etag :: Succeeded(s, i, etag) && Succeeded(s, j, etag) ==> i == j)
            && (forall i, j, e, f, v :: Succeeded(s, i, e) && Succeeded(s, j, f) && v >= 0 ==>
                                          s.reqs[i].ifMatch == s.reqs[j].ifMatch == Version(v) ==> i == j)
  {
    var s0 := Start(version, row, keycloak);
    OwnedRun(Current(version), s0, steps);
    var s := Run(s0, steps);
    forall id, etag | Succeeded(s, id, etag)
      ensures etag in s.owner && s.owner[etag] == id
    {
      assert HasClaim(s, id);
    }
  }

  /** Once an ETag has been returned, the stored version never falls below it again. */
  lemma ETagIsAFloor(first: int, s: State, steps: seq<Step>, id: nat, etag: int)
    requires Owned(first, s) && Constrained(s) && Succeeded(s, id, etag)
    ensures Succeeded(Run(s, steps), id, etag) && etag <= Current(Run(s, steps).version)
  {
    OwnedRun(first, s, steps);
    RepliesAreFinal(s, steps, id);
    assert HasClaim(Run(s, steps), id);
  }

  lemma {:induction false} RepliesAreFinal(s: State, steps: seq<Step>, id: nat)
    requires id in s.reqs && s.reqs[id].stage.Replied?
    ensures id in Run(s, steps).reqs && Run(s, steps).reqs[id] == s.reqs[id]
    decreases |steps|
  {
    if steps != [] {
      RepliesAreFinal(Next(s, steps[0]), steps[1..], id);
    }
  }
}
