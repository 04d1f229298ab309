/** When overlapping PATCHes leave the row as if they had run one after the other. */
module ScimPatchSerial {
  import opened Text
  import opened ScimPatchOps
  import opened ScimPatch

  // ---- serialisability of the row ----

  /** Between taking a version and either writing the row or trying to give the version back. */
  predicate Unresolved(s: State, id: nat) {
    id in s.reqs && (s.reqs[id].stage.Claimed? || s.reqs[id].stage.Pushed? || s.reqs[id].stage.Undoing?)
  }

  ghost predicate Quiet(s: State) {
    forall id :: !Unresolved(s, id)
  }

  /** No handler reads the row while another one's version is unresolved. */
  ghost predicate ReadsAreQuiet(s: State, steps: seq<Step>)
    decreases |steps|
  {
    steps != [] ==> (steps[0].Load? ==> Quiet(s)) && ReadsAreQuiet(Next(s, steps[0]), steps[1..])
  }

  function Replay(row: UserRow, commits: seq<Commit>): UserRow {
    if commits == [] then row
    else ApplyDelta(commits[|commits| - 1].delta, Replay(row, commits[..|commits| - 1]))
  }

  function LastETag(first: int, commits: seq<Commit>): int {
    if commits == [] then first else commits[|commits| - 1].etag
  }

  ghost predicate CommitsInOrder(first: int, s: State) {
    match s
    case State(_, _, _, _, _, _) =>
      && (forall i :: 0 <= i < |s.commits| ==> Succeeded(s, s.commits[i].id, s.commits[i].etag) && first < s.commits[i].etag
                                               && s.commits[i].delta == s.reqs[s.commits[i].id].delta)
      && (forall i, j :: 0 <= i < j < |s.commits| ==> s.commits[i].etag < s.commits[j].etag)
      && (forall id, etag :: Succeeded(s, id, etag) ==> exists i :: 0 <= i < |s.commits| && s.commits[i].id == id)
  }

  /** What a handler has read is still true, or its compare-and-swap is bound to fail. */
  ghost predicate ReadIsCurrent(first: int, s: State, id: nat)
    requires id in s.reqs
  {
    var st := s.reqs[id].stage;
    && (st.Loaded? ==>
          && st.base <= Current(s.version)
          && (st.base < LastETag(first, s.commits) || st.orig == s.row)
          && (!Quiet(s) ==> st.base < Current(s.version)))
    && (Unresolved(s, id) ==> st.base + 1 == Current(s.version) && st.orig == s.row)
  }

  ghost predicate ReadsAreCurrent(first: int, s: State) {
    match s
    case State(_, _, _, reqs, _, _) => forall id :: id in reqs ==> ReadIsCurrent(first, s, id)
  }

  ghost predicate Serial(first: int, row: UserRow, s: State) {
    Owned(first, s) && CommitsInOrder(first, s) && s.row == Replay(row, s.commits) && ReadsAreCurrent(first, s)
  }

  // -- one handler moves to a stage that is no success --

  ghost predicate Moves(s: State, t: State, id: nat) {
    && id in t.reqs && t.reqs == s.reqs[id := t.reqs[id]]
    && t.row == s.row && t.commits == s.commits
    && (t.reqs[id].stage.Replied? ==> !t.reqs[id].stage.reply.Ok?)
    && (id in s.reqs ==> !s.reqs[id].stage.Replied? && t.reqs[id].delta == s.reqs[id].delta)
  }

  lemma CommitsFrame(first: int, s: State, t: State, id: nat)
    requires CommitsInOrder(first, s) && Moves(s, t, id)
    ensures CommitsInOrder(first, t)
  {
    assert forall i, e :: Succeeded(t, i, e) <==> Succeeded(s, i, e);
  }

  /** The handler's own unresolvedness and the current version stay as they are. */
  lemma ReadsFrame(first: int, s: State, t: State, id: nat)
    requires ReadsAreCurrent(first, s) && Moves(s, t, id) && Current(t.version) == Current(s.version)
    requires (Unresolved(t, id) <==> Unresolved(s, id)) && ReadIsCurrent(first, t, id)
    ensures ReadsAreCurrent(first, t)
  {
    QuietFrame(s, t, id);
    forall i | i in t.reqs
      ensures ReadIsCurrent(first, t, i)
    {
      assert i != id ==> ReadIsCurrent(first, s, i);
    }
  }

  lemma QuietFrame(s: State, t: State, id: nat)
    requires Moves(s, t, id) && (Unresolved(t, id) <==> Unresolved(s, id))
    ensures Quiet(t) <==> Quiet(s)
  {
    assert forall i :: Unresolved(t, i) <==> Unresolved(s, i);
  }

  /** Two unresolved handlers would own the same version. */
  lemma OneUnresolved(first: int, row: UserRow, s: State, i: nat, j: nat)
    requires Serial(first, row, s) && Unresolved(s, i) && Unresolved(s, j)
    ensures i == j
  {
    assert ReadIsCurrent(first, s, i) && ReadIsCurrent(first, s, j) && HasClaim(s, i) && HasClaim(s, j);
  }

  lemma LastETagBelow(first: int, row: UserRow, s: State)
    requires Serial(first, row, s)
    ensures LastETag(first, s.commits) <= Current(s.version)
    ensures !Quiet(s) ==> LastETag(first, s.commits) < Current(s.version)
  {
    if s.commits != [] {
      var c := s.commits[|s.commits| - 1];
      assert Succeeded(s, c.id, c.etag) && HasClaim(s, c.id);
      if !Quiet(s) {
        var u :| Unresolved(s, u);
        assert ReadIsCurrent(first, s, u) && HasClaim(s, u);
      }
    } else if !Quiet(s) {
      var u :| Unresolved(s, u);
      assert ReadIsCurrent(first, s, u) && HasClaim(s, u);
    }
  }

  lemma SerialTake(first: int, row: UserRow, s: State, id: nat, ok: bool)
    requires Serial(first, row, s) && id in s.reqs && s.reqs[id].stage.Loaded?
    ensures Serial(first, row, NextTake(s, id, ok))
  {
    OwnedTake(first, s, id, ok);
    var t := NextTake(s, id, ok);
    CommitsFrame(first, s, t, id);
    if ok && Bump(s.version, s.reqs[id].stage.base).Some? {
      TakenReads(first, row, s, id);
    } else {
      ReadsFrame(first, s, t, id);
    }
  }

  /** A compare-and-swap that succeeds read the row while no version was unresolved, and
      nothing has been written since. */
  lemma TakenIsCurrent(first: int, row: UserRow, s: State, id: nat)
    requires Serial(first, row, s) && id in s.reqs && s.reqs[id].stage.Loaded?
    requires Bump(s.version, s.reqs[id].stage.base).Some?
    ensures s.reqs[id].stage.base == Current(s.version) && s.reqs[id].stage.orig == s.row && Quiet(s)
  {
    LastETagBelow(first, row, s);
    assert ReadIsCurrent(first, s, id);
  }

  lemma ReadsAfterTake(first: int, s: State, id: nat, t: State, i: nat)
    requires id in s.reqs && i in s.reqs && i != id && ReadIsCurrent(first, s, i) && Quiet(s)
    requires t.version == Some(Current(s.version) + 1) && t.row == s.row && t.commits == s.commits
    requires i in t.reqs && t.reqs[i] == s.reqs[i]
    ensures ReadIsCurrent(first, t, i)
  {
    assert !Unresolved(s, i);
  }

  lemma TakenReads(first: int, row: UserRow, s: State, id: nat)
    requires Serial(first, row, s) && id in s.reqs && s.reqs[id].stage.Loaded?
    requires Bump(s.version, s.reqs[id].stage.base).Some?
    ensures ReadsAreCurrent(first, NextTake(s, id, true))
  {
    TakenIsCurrent(first, row, s, id);
    var t := NextTake(s, id, true);
    forall i | i in t.reqs
      ensures ReadIsCurrent(first, t, i)
    {
      if i != id {
        ReadsAfterTake(first, s, id, t, i);
      }
    }
  }

  /** A handler that has not replied yet replies with a new, highest version. */
  ghost predicate Appends(first: int, s: State, t: State, c: Commit) {
    && CommitsInOrder(first, s) && LastETag(first, s.commits) < c.etag && first < c.etag
    && t.commits == s.commits + [c] && c.id in s.reqs && !s.reqs[c.id].stage.Replied?
    && t.reqs == s.reqs[c.id := s.reqs[c.id].(stage := Replied(Ok(c.etag)))] && c.delta == s.reqs[c.id].delta
  }

  lemma CommitStays(first: int, s: State, t: State, c: Commit, k: int)
    requires Appends(first, s, t, c) && 0 <= k < |s.commits|
    ensures var d := t.commits[k];
            d == s.commits[k] && Succeeded(t, d.id, d.etag) && first < d.etag < c.etag && d.delta == t.reqs[d.id].delta
  {
    var d := s.commits[k];
    assert Succeeded(s, d.id, d.etag) && d.id != c.id;
    assert d.etag <= LastETag(first, s.commits);
  }

  lemma CommitFound(first: int, s: State, t: State, c: Commit, id: nat, etag: int)
    requires Appends(first, s, t, c) && Succeeded(t, id, etag)
    ensures exists k :: 0 <= k < |t.commits| && t.commits[k].id == id
  {
    if id == c.id {
      assert t.commits[|s.commits|].id == id;
    } else {
      assert Succeeded(s, id, etag);
      var k :| 0 <= k < |s.commits| && s.commits[k].id == id;
      assert t.commits[k].id == id;
    }
  }

  lemma CommitsAppended(first: int, s: State, t: State, c: Commit)
    requires Appends(first, s, t, c)
    ensures CommitsInOrder(first, t)
  {
    assert t.commits[|s.commits|] == c;
    forall k | 0 <= k < |s.commits|
      ensures t.commits[k] == s.commits[k] && Succeeded(t, t.commits[k].id, t.commits[k].etag)
      ensures first < t.commits[k].etag < c.etag && t.commits[k].delta == t.reqs[t.commits[k].id].delta
    {
      CommitStays(first, s, t, c, k);
    }
    forall id, etag | Succeeded(t, id, etag)
      ensures exists k :: 0 <= k < |t.commits| && t.commits[k].id == id
    {
      CommitFound(first, s, t, c, id, etag);
    }
  }

  lemma ReadsAfterWrite(first: int, row: UserRow, s: State, id: nat, t: State, i: nat)
    requires Serial(first, row, s) && id in s.reqs && s.reqs[id].stage.Pushed?
    requires t.version == s.version && i in s.reqs && i != id && i in t.reqs && t.reqs[i] == s.reqs[i]
    requires LastETag(first, t.commits) == Current(s.version)
    requires forall j :: !Unresolved(t, j)
    ensures ReadIsCurrent(first, t, i)
  {
    assert Unresolved(s, id) && ReadIsCurrent(first, s, i);
  }

  lemma WriteCommits(first: int, row: UserRow, s: State, id: nat)
    requires Serial(first, row, s) && id in s.reqs && s.reqs[id].stage.Pushed?
    ensures var t := NextWrite(s, id, true); CommitsInOrder(first, t) && t.row == Replay(row, t.commits)
  {
    var t := NextWrite(s, id, true);
    var st := s.reqs[id].stage;
    assert Unresolved(s, id) && ReadIsCurrent(first, s, id) && HasClaim(s, id);
    LastETagBelow(first, row, s);
    CommitsAppended(first, s, t, Commit(id, st.base + 1, s.reqs[id].delta));
    assert t.commits[..|s.commits|] == s.commits;
  }

  lemma WriteReads(first: int, row: UserRow, s: State, id: nat, i: nat)
    requires Serial(first, row, s) && id in s.reqs && s.reqs[id].stage.Pushed? && i in s.reqs
    ensures ReadIsCurrent(first, NextWrite(s, id, true), i)
  {
    var t := NextWrite(s, id, true);
    assert Unresolved(s, id) && ReadIsCurrent(first, s, id);
    forall j
      ensures !Unresolved(t, j)
    {
      if Unresolved(t, j) {
        OneUnresolved(first, row, s, j, id);
      }
    }
    if i != id {
      ReadsAfterWrite(first, row, s, id, t, i);
    }
  }

  lemma SerialWrite(first: int, row: UserRow, s: State, id: nat)
    requires Serial(first, row, s) && id in s.reqs && s.reqs[id].stage.Pushed?
    ensures Serial(first, row, NextWrite(s, id, true))
  {
    OwnedNext(first, s, Write(id, true));
    WriteCommits(first, row, s, id);
    forall i | i in s.reqs
      ensures ReadIsCurrent(first, NextWrite(s, id, true), i)
    {
      WriteReads(first, row, s, id, i);
    }
  }

  /** Giving the version back leaves nobody unresolved. */
  lemma UndoIsQuiet(first: int, row: UserRow, s: State, id: nat, t: State)
    requires Serial(first, row, s) && id in s.reqs && s.reqs[id].stage.Undoing?
    requires Moves(s, t, id) && !Unresolved(t, id)
    ensures Quiet(t)
  {
    assert Unresolved(s, id);
    forall i
      ensures !Unresolved(t, i)
    {
      if i != id && Unresolved(s, i) {
        OneUnresolved(first, row, s, i, id);
      }
    }
  }

  lemma UndoReads(first: int, row: UserRow, s: State, id: nat, ok: bool)
    requires Serial(first, row, s) && id in s.reqs && s.reqs[id].stage.Undoing?
    ensures ReadsAreCurrent(first, NextUndo(s, id, ok))
  {
    var t := NextUndo(s, id, ok);
    UndoIsQuiet(first, row, s, id, t);
    assert Unresolved(s, id) && ReadIsCurrent(first, s, id);
    forall i | i in t.reqs
      ensures ReadIsCurrent(first, t, i)
    {
      assert ReadIsCurrent(first, s, i);
    }
  }

  lemma SerialUndo(first: int, row: UserRow, s: State, id: nat, ok: bool)
    requires Serial(first, row, s) && id in s.reqs && s.reqs[id].stage.Undoing?
    ensures Serial(first, row, NextUndo(s, id, ok))
  {
    OwnedUndo(first, s, id, ok);
    CommitsFrame(first, s, NextUndo(s, id, ok), id);
    UndoReads(first, row, s, id, ok);
  }

  /** Handler `id` moves to another stage; row, commits and current version stay. */
  lemma SerialMove(first: int, row: UserRow, s: State, t: State, id: nat)
    requires Serial(first, row, s) && Owned(first, t) && Moves(s, t, id) && Current(t.version) == Current(s.version)
    requires (Unresolved(t, id) <==> Unresolved(s, id)) && ReadIsCurrent(first, t, id)
    ensures Serial(first, row, t)
  {
    CommitsFrame(first, s, t, id);
    ReadsFrame(first, s, t, id);
  }

  lemma LoadedReads(first: int, row: UserRow, s: State, id: nat, ok: bool)
    requires Serial(first, row, s) && Quiet(s) && id in s.reqs && s.reqs[id].stage.Arrived?
    ensures var t := NextLoad(s, id, ok); Moves(s, t, id) && !Unresolved(t, id) && ReadIsCurrent(first, t, id)
  {
    var t := NextLoad(s, id, ok);
    assert Moves(s, t, id) && !Unresolved(s, id);
    QuietFrame(s, t, id);
  }

  lemma SerialLoad(first: int, row: UserRow, s: State, id: nat, ok: bool)
    requires Serial(first, row, s) && Quiet(s) && id in s.reqs && s.reqs[id].stage.Arrived?
    ensures Serial(first, row, NextLoad(s, id, ok))
  {
    OwnedNext(first, s, Load(id, ok));
    LoadedReads(first, row, s, id, ok);
    SerialMove(first, row, s, NextLoad(s, id, ok), id);
  }

  /** The remaining steps touch neither the row nor any version. */
  lemma OtherMoves(first: int, s: State, step: Step)
    requires ReadsAreCurrent(first, s) && Next(s, step) != s
    requires step.Arrive? || step.Push? || (step.Write? && !step.ok) || step.Restore?
    ensures var t := Next(s, step);
            && Moves(s, t, step.id) && t.version == s.version && (Unresolved(t, step.id) <==> Unresolved(s, step.id))
            && ReadIsCurrent(first, t, step.id)
  {
    assert step.id in s.reqs ==> ReadIsCurrent(first, s, step.id);
  }

  lemma SerialOther(first: int, row: UserRow, s: State, step: Step)
    requires Serial(first, row, s) && Next(s, step) != s
    requires step.Arrive? || step.Push? || (step.Write? && !step.ok) || step.Restore?
    ensures Serial(first, row, Next(s, step))
  {
    OwnedNext(first, s, step);
    OtherMoves(first, s, step);
    SerialMove(first, row, s, Next(s, step), step.id);
  }

  lemma SerialInit(first: int, row: UserRow, s: State)
    requires Serial(first, row, s)
    ensures Serial(first, row, Next(s, InitVersion))
  {
    OwnedNext(first, s, InitVersion);
    var t := Next(s, InitVersion);
    assert forall i :: Unresolved(t, i) <==> Unresolved(s, i);
    assert forall i, e :: Succeeded(t, i, e) <==> Succeeded(s, i, e);
    forall i | i in t.reqs
      ensures ReadIsCurrent(first, t, i)
    {
      assert ReadIsCurrent(first, s, i);
    }
  }

  lemma SerialNext(first: int, row: UserRow, s: State, step: Step)
    requires Serial(first, row, s) && (step.Load? ==> Quiet(s))
    ensures Serial(first, row, Next(s, step))
  {
    if step.TakeVersion? && step.id in s.reqs && s.reqs[step.id].stage.Loaded? {
      SerialTake(first, row, s, step.id, step.ok);
    } else if step.Undo? && step.id in s.reqs && s.reqs[step.id].stage.Undoing? {
      SerialUndo(first, row, s, step.id, step.ok);
    } else if step.Write? && step.ok && step.id in s.reqs && s.reqs[step.id].stage.Pushed? {
      SerialWrite(first, row, s, step.id);
    } else if step.InitVersion? {
      SerialInit(first, row, s);
    } else if step.Load? && Next(s, step) != s {
      SerialLoad(first, row, s, step.id, step.ok);
    } else if Next(s, step) != s {
      SerialOther(first, row, s, step);
    }
  }

  lemma {:induction false} SerialRun(first: int, row: UserRow, s: State, steps: seq<Step>)
    requires Serial(first, row, s) && ReadsAreQuiet(s, steps)
    ensures Serial(first, row, Run(s, steps))
    decreases |steps|
  {
    if steps != [] {
      SerialNext(first, row, s, steps[0]);
      SerialRun(first, row, Next(s, steps[0]), steps[1..]);
    }
  }

  /** If no handler reads while another's version is unresolved, the row is what the
      successful PATCHes give when applied one after the other in ETag order. */
  lemma PatchesAreSerial(version: Option<int>, row: UserRow, keycloak: Identity, steps: seq<Step>)
    requires ReadsAreQuiet(Start(version, row, keycloak), steps)
    ensures var s := Run(Start(version, row, keycloak), steps);
            && s.row == Replay(row, s.commits)
            && CommitsInOrder(Current(version), s)
  {
    SerialRun(Current(version), row, Start(version, row, keycloak), steps);
  }

  // ---- exactly when a run is serial ----

  /** What the handler did not write has not changed since it read it; and neither has an
      e-mail that it sets to the very value it read, which it does not write either. */
  predicate Untouched(d: Delta, orig: UserRow, stored: UserRow) {
    && (d.first.None? ==> stored.first == orig.first)
    && (d.last.None? ==> stored.last == orig.last)
    && (d.disabled.None? ==> stored.disabled == orig.disabled)
    && (d.email == Some(orig.email) ==> stored.email == orig.email)
  }

  ghost predicate WritesNow(s: State, step: Step) {
    step.Write? && step.ok && step.id in s.reqs && s.reqs[step.id].stage.Pushed?
  }

  /** Every row that the run writes is untouched in that sense when it is written. */
  ghost predicate WritesApply(s: State, steps: seq<Step>)
    decreases |steps|
  {
    steps != [] ==>
      && (WritesNow(s, steps[0]) ==> Untouched(s.reqs[steps[0].id].delta, s.reqs[steps[0].id].stage.orig, s.row))
      && WritesApply(Next(s, steps[0]), steps[1..])
  }

  /** At every point of the run the row is the replay of what has been committed. */
  ghost predicate AlwaysReplays(row: UserRow, s: State, steps: seq<Step>)
    decreases |steps|
  {
    s.row == Replay(row, s.commits) && (steps != [] ==> AlwaysReplays(row, Next(s, steps[0]), steps[1..]))
  }

  lemma StepReplaysIff(row: UserRow, s: State, step: Step)
    requires s.row == Replay(row, s.commits)
    ensures var t := Next(s, step);
            t.row == Replay(row, t.commits) <==>
            (WritesNow(s, step) ==> Untouched(s.reqs[step.id].delta, s.reqs[step.id].stage.orig, s.row))
  {
    if WritesNow(s, step) {
      assert Next(s, step).commits[..|s.commits|] == s.commits;
      WriteAppliesIff(s.reqs[step.id].delta, s.reqs[step.id].stage.orig, s.row);
    } else {
      OnlyWritesWrite(s, step);
    }
  }

  lemma WriteAppliesIff(d: Delta, orig: UserRow, stored: UserRow)
    ensures Written(stored, orig, ApplyDelta(d, orig)) == ApplyDelta(d, stored) <==> Untouched(d, orig, stored)
  {
  }

  lemma OnlyWritesWrite(s: State, step: Step)
    requires !WritesNow(s, step)
    ensures Next(s, step).row == s.row && Next(s, step).commits == s.commits
  {
  }

  /** A run loses no update if and only if every write finds the row as it was read,
      in the columns it leaves alone. */
  lemma {:induction false} RunReplaysIff(row: UserRow, s: State, steps: seq<Step>)
    requires s.row == Replay(row, s.commits)
    ensures AlwaysReplays(row, s, steps) <==> WritesApply(s, steps)
    decreases |steps|
  {
    if steps != [] {
      StepReplaysIff(row, s, steps[0]);
      var t := Next(s, steps[0]);
      if t.row == Replay(row, t.commits) {
        RunReplaysIff(row, t, steps[1..]);
      }
    }
  }

  // ---- why the reads must be quiet ----

  lemma {:induction false} RunConcat(s: State, a: seq<Step>, b: seq<Step>)
    ensures Run(s, a + b) == Run(Run(s, a), b)
    decreases |a|
  {
    if a == [] {
      assert a + b == b;
    } else {
      assert (a + b)[1..] == a[1..] + b;
      RunConcat(Next(s, a[0]), a[1..], b);
    }
  }

  lemma RunTwo(s: State, a: Step, b: Step)
    ensures Run(s, [a, b]) == Next(Next(s, a), b)
  {
    assert [a, b][1..] == [b] && [b][1..] == [];
    assert Run(Next(s, a), [b]) == Run(Next(Next(s, a), b), []);
  }

  lemma RunPhases(s: State, a: seq<Step>, b: seq<Step>, c: seq<Step>, d: seq<Step>, e: seq<Step>)
    ensures Run(s, a + (b + (c + (d + e)))) == Run(Run(Run(Run(Run(s, a), b), c), d), e)
  {
    RunConcat(s, a, b + (c + (d + e)));
    RunConcat(Run(s, a), b, c + (d + e));
    RunConcat(Run(Run(s, a), b), c, d + e);
    RunConcat(Run(Run(Run(s, a), b), c), d, e);
  }

  function Enter(id: nat, d: Delta): seq<Step> {
    [Arrive(id, NoHeader, d), Load(id, true)]
  }

  function TakeAndPush(id: nat): seq<Step> {
    [TakeVersion(id, true), Push(id, true)]
  }

  /** `id` reads the row and version as they are. */
  lemma Enters(s: State, id: nat, d: Delta)
    requires id !in s.reqs
    ensures Run(s, Enter(id, d)) == s.(reqs := s.reqs[id := Request(NoHeader, d, Loaded(Current(s.version), s.row))])
  {
    RunTwo(s, Arrive(id, NoHeader, d), Load(id, true));
  }

  lemma Takes(s: State, id: nat)
    requires id in s.reqs && s.reqs[id].stage.Loaded? && s.version == Some(s.reqs[id].stage.base)
    ensures var st := s.reqs[id].stage;
            Run(s, TakeAndPush(id)) ==
            s.(reqs := s.reqs[id := s.reqs[id].(stage := Pushed(st.base, st.orig))], version := Some(st.base + 1),
            owner := s.owner[st.base + 1 := id], keycloak := IdentityOf(ApplyDelta(s.reqs[id].delta, st.orig)))
  {
    RunTwo(s, TakeVersion(id, true), Push(id, true));
  }

  /** Overlapping PATCHes: the second reads the version the first has taken, before the
      first has written the row. Both succeed with consecutive ETags, and the second
      is applied to the names as they were before the first. */
  lemma OverlapLosesUpdate(v: int, row: UserRow, d1: Delta, d2: Delta) returns (steps: seq<Step>)
    ensures var s := Run(Start(Some(v), row, IdentityOf(row)), steps);
            && Succeeded(s, 1, v + 1) && s.reqs[1].delta == d1
            && Succeeded(s, 2, v + 2) && s.reqs[2].delta == d2
            && IdentityOf(s.row) == IdentityOf(ApplyDelta(d2, row))
  {
    var s0 := Start(Some(v), row, IdentityOf(row));
    var writes := [Write(1, true), Write(2, true)];
    steps := Enter(1, d1) + (TakeAndPush(1) + (Enter(2, d2) + (TakeAndPush(2) + writes)));
    RunPhases(s0, Enter(1, d1), TakeAndPush(1), Enter(2, d2), TakeAndPush(2), writes);
    var s2 := EntersAndPushes(s0, 1, d1);
    var s4 := EntersAndPushes(s2, 2, d2);
    RunTwo(s4, writes[0], writes[1]);
    BothWrite(s4, v, row, d1, d2);
  }

  lemma EntersAndPushes(s: State, id: nat, d: Delta) returns (t: State)
    requires s.version.Some? && id !in s.reqs
    ensures t == Run(Run(s, Enter(id, d)), TakeAndPush(id))
    ensures t.version == Some(s.version.value + 1) && t.row == s.row && t.keycloak == IdentityOf(ApplyDelta(d, s.row))
    ensures t.reqs == s.reqs[id := Request(NoHeader, d, Pushed(s.version.value, s.row))] && t.commits == s.commits
  {
    Enters(s, id, d);
    var s1 := Run(s, Enter(id, d));
    Takes(s1, id);
    t := Run(s1, TakeAndPush(id));
  }

  lemma BothWrite(s: State, v: int, row: UserRow, d1: Delta, d2: Delta)
    requires 1 in s.reqs && s.reqs[1] == Request(NoHeader, d1, Pushed(v, row))
    requires 2 in s.reqs && s.reqs[2] == Request(NoHeader, d2, Pushed(v + 1, row))
    ensures var t := Next(Next(s, Write(1, true)), Write(2, true));
            && Succeeded(t, 1, v + 1) && t.reqs[1].delta == d1
            && Succeeded(t, 2, v + 2) && t.reqs[2].delta == d2
            && IdentityOf(t.row) == IdentityOf(ApplyDelta(d2, row))
  {
  }

  /** The state in which handler 1 is about to give version v + 1 back and handler 2 has read it. */
  lemma ReadBeforeRollBack(v: int, row: UserRow, d1: Delta, d2: Delta) returns (steps: seq<Step>, s: State)
    ensures s == Run(Start(Some(v), row, IdentityOf(row)), steps)
    ensures s.version == Some(v + 1) && s.row == row && 3 !in s.reqs
    ensures 1 in s.reqs && s.reqs[1].stage == Undoing(v, row, false)
    ensures 2 in s.reqs && s.reqs[2] == Request(NoHeader, d2, Loaded(v + 1, row))
  {
    var s0 := Start(Some(v), row, IdentityOf(row));
    var fail := [TakeVersion(1, true), Push(1, false)];
    steps := Enter(1, d1) + (fail + (Enter(2, d2) + ([] + [])));
    RunPhases(s0, Enter(1, d1), fail, Enter(2, d2), [], []);
    var s1 := Run(s0, Enter(1, d1));
    Enters(s0, 1, d1);
    RunTwo(s1, fail[0], fail[1]);
    var s2 := Run(s1, fail);
    assert s2.version == Some(v + 1) && s2.row == row && s2.reqs[1].stage == Undoing(v, row, false);
    s := Run(s2, Enter(2, d2));
    Enters(s2, 2, d2);
  }

  lemma UndoEnterTakeWrite(s: State, v: int, row: UserRow, d2: Delta, d3: Delta) returns (steps: seq<Step>, t: State)
    requires s.version == Some(v + 1) && s.row == row && 3 !in s.reqs
    requires 1 in s.reqs && s.reqs[1].stage == Undoing(v, row, false)
    requires 2 in s.reqs && s.reqs[2] == Request(NoHeader, d2, Loaded(v + 1, row))
    ensures t == Run(s, steps)
    ensures t.version == Some(v + 1) && Succeeded(t, 3, v + 1) && t.reqs[3].delta == d3
    ensures 2 in t.reqs && t.reqs[2] == s.reqs[2]
  {
    var undo, write := [Undo(1, true)], [Write(3, true)];
    steps := undo + (Enter(3, d3) + (TakeAndPush(3) + (write + [])));
    RunPhases(s, undo, Enter(3, d3), TakeAndPush(3), write, []);
    var s1 := Run(s, undo);
    assert s1 == Next(s, undo[0]);
    var s2 := Run(s1, Enter(3, d3));
    Enters(s1, 3, d3);
    var s3 := Run(s2, TakeAndPush(3));
    Takes(s2, 3);
    t := Run(s3, write);
    assert t == Next(s3, write[0]);
  }

  /** The version goes back and is taken again (A-B-A): handler 2 reads while handler 1
      is about to give its version back, handler 3 takes the same version and writes the
      row, and handler 2's compare-and-swap still succeeds on the row it read earlier. */
  lemma AbaLosesUpdate(v: int, row: UserRow, d1: Delta, d2: Delta, d3: Delta) returns (steps: seq<Step>)
    ensures var s := Run(Start(Some(v), row, IdentityOf(row)), steps);
            && Succeeded(s, 3, v + 1) && s.reqs[3].delta == d3
            && Succeeded(s, 2, v + 2) && s.reqs[2].delta == d2
            && IdentityOf(s.row) == IdentityOf(ApplyDelta(d2, row))
  {
    var a, s1 := ReadBeforeRollBack(v, row, d1, d2);
    var b, s2 := UndoEnterTakeWrite(s1, v, row, d2, d3);
    var write := [Write(2, true)];
    steps := a + (b + (TakeAndPush(2) + (write + [])));
    RunPhases(Start(Some(v), row, IdentityOf(row)), a, b, TakeAndPush(2), write, []);
    var s3 := Run(s2, TakeAndPush(2));
    Takes(s2, 2);
    assert Run(s3, write) == Next(s3, write[0]);
  }
}
