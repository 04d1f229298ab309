/** The identity provider under overlapping PATCHes: when it holds what the row holds.

    A handler whose row write fails gives its version back before it restores the
    identity provider, so another handler may take that version in between. */
module ScimPatchIdentity {
  import opened Text
  import opened ScimPatchOps
  import opened ScimPatch
  import opened ScimPatchSerial

  /** The identity provider holds what a handler has pushed and has yet to confirm or undo. */
  predicate Busy(s: State, id: nat) {
    id in s.reqs &&
    match s.reqs[id].stage
    case Pushed(_, _) => true
    case Undoing(_, _, pushed) => pushed
    case Restoring(_) => true
    case _ => false
  }

  ghost predicate Idle(s: State) {
    forall id :: !Busy(s, id)
  }

  predicate Agrees(s: State) {
    s.keycloak == IdentityOf(s.row)
  }

  /** Whenever nobody is between a push and its end, the two sides agree. */
  ghost predicate AlwaysAgrees(s: State, steps: seq<Step>)
    decreases |steps|
  {
    (Idle(s) ==> Agrees(s)) && (steps != [] ==> AlwaysAgrees(Next(s, steps[0]), steps[1..]))
  }

  // ---- exactly when they agree ----

  function Target(r: Request): UserRow
    requires r.stage.Pushed?
  {
    ApplyDelta(r.delta, r.stage.orig)
  }

  /** The last call of a handler finds the other side as it expects: a write finds its own
      push still there, a restore brings back what the row holds, and a restore that
      fails had nothing to bring back. */
  predicate EndsWell(s: State, step: Step) {
    match step
    case Write(id, ok) => ok && id in s.reqs && s.reqs[id].stage.Pushed? ==> s.keycloak == IdentityOf(Target(s.reqs[id]))
    case Restore(id, ok) =>
      id in s.reqs && s.reqs[id].stage.Restoring? ==>
        (if ok then IdentityOf(s.reqs[id].stage.orig) else s.keycloak) == IdentityOf(s.row)
    case _ => true
  }

  ghost predicate CallsEndWell(s: State, steps: seq<Step>)
    decreases |steps|
  {
    steps != [] ==> (Idle(Next(s, steps[0])) ==> EndsWell(s, steps[0])) && CallsEndWell(Next(s, steps[0]), steps[1..])
  }

  /** The row's UPDATE always writes the columns that the identity provider holds. */
  lemma WriteSetsIdentity(stored: UserRow, orig: UserRow, target: UserRow)
    ensures IdentityOf(Written(stored, orig, target)) == IdentityOf(target)
  {
  }

  lemma OtherStepsKeep(s: State, step: Step)
    requires !(step.Write? && step.ok) && !step.Restore?
    ensures Idle(Next(s, step)) ==> Idle(s) && Next(s, step).keycloak == s.keycloak && Next(s, step).row == s.row
  {
    var t := Next(s, step);
    if Idle(t) {
      forall id
        ensures !Busy(s, id)
      {
        assert !Busy(t, id);
      }
      assert !step.InitVersion? ==> !Busy(t, step.id);
    }
  }

  lemma StepAgreesIff(s: State, step: Step)
    requires Idle(s) ==> Agrees(s)
    ensures var t := Next(s, step); (Idle(t) ==> Agrees(t)) <==> (Idle(t) ==> EndsWell(s, step))
  {
    var t := Next(s, step);
    if step.Write? && step.ok && step.id in s.reqs && s.reqs[step.id].stage.Pushed? {
      var r := s.reqs[step.id];
      WriteSetsIdentity(s.row, r.stage.orig, Target(r));
    } else if step.Restore? && step.id in s.reqs && s.reqs[step.id].stage.Restoring? {
    } else if t == s {
    } else {
      OtherStepsKeep(s, step);
    }
  }

  /** Over any run, the identity provider agrees with the row whenever nobody is between a
      push and its end, if and only if every call that ends the last such business ends
      it well. */
  lemma {:induction false} RunAgreesIff(s: State, steps: seq<Step>)
    requires Idle(s) ==> Agrees(s)
    ensures AlwaysAgrees(s, steps) <==> CallsEndWell(s, steps)
    decreases |steps|
  {
    if steps != [] {
      var t := Next(s, steps[0]);
      StepAgreesIff(s, steps[0]);
      if Idle(t) ==> Agrees(t) {
        RunAgreesIff(t, steps[1..]);
      }
    }
  }

  // ---- a guard that suffices ----

  /** Nothing is pushed while another handler still has to restore the identity provider,
      and restoring it succeeds. */
  ghost predicate Guarded(s: State, step: Step) {
    && (step.Push? && step.ok ==> forall id :: id in s.reqs ==> !s.reqs[id].stage.Restoring?)
    && (step.Restore? ==> step.ok)
  }

  ghost predicate RunIsGuarded(s: State, steps: seq<Step>)
    decreases |steps|
  {
    steps != [] ==> Guarded(s, steps[0]) && RunIsGuarded(Next(s, steps[0]), steps[1..])
  }

  /** The row is as a busy handler read it, and while it is pushed the identity provider
      holds what it pushed. */
  predicate BusyOk(s: State, id: nat) {
    Busy(s, id) ==>
      s.reqs[id].stage.orig == s.row && (s.reqs[id].stage.Pushed? ==> s.keycloak == IdentityOf(Target(s.reqs[id])))
  }

  predicate Alone(s: State, i: nat, j: nat) {
    Busy(s, i) && Busy(s, j) ==> i == j
  }

  ghost predicate IdentityInv(s: State) {
    match s
    case State(_, _, _, _, _, _) =>
      && (forall id :: BusyOk(s, id))
      && (forall i, j :: Alone(s, i, j))
      && (Idle(s) ==> Agrees(s))
  }

  /** The handler that moves is the only busy one, before and after. */
  lemma InvSolo(s: State, t: State, id: nat)
    requires id in t.reqs && t.reqs == s.reqs[id := t.reqs[id]]
    requires forall i :: Busy(s, i) ==> i == id
    requires BusyOk(t, id) && (!Busy(t, id) ==> Agrees(t))
    ensures IdentityInv(t)
  {
    forall i
      ensures Busy(t, i) ==> i == id
    {
      assert i != id ==> (Busy(t, i) <==> Busy(s, i));
    }
  }

  /** Nothing changes for the busy handlers, on either side. */
  lemma InvAside(s: State, t: State)
    requires IdentityInv(s) && t.row == s.row && t.keycloak == s.keycloak
    requires forall i :: Busy(t, i) <==> Busy(s, i)
    requires forall i :: Busy(s, i) ==> i in t.reqs && t.reqs[i] == s.reqs[i]
    ensures IdentityInv(t)
  {
    forall i
      ensures BusyOk(t, i)
    {
      assert BusyOk(s, i);
    }
    forall i, j
      ensures Alone(t, i, j)
    {
      assert Alone(s, i, j);
    }
  }

  lemma OnlyBusy(s: State, id: nat)
    requires IdentityInv(s) && Busy(s, id)
    ensures forall i :: Busy(s, i) ==> i == id
  {
    forall i | Busy(s, i)
      ensures i == id
    {
      assert Alone(s, i, id);
    }
  }

  /** A push finds nobody busy: its version is the only unresolved one. */
  lemma InvPush(first: int, row: UserRow, s: State, id: nat)
    requires Serial(first, row, s) && IdentityInv(s) && id in s.reqs && s.reqs[id].stage.Claimed?
    requires Guarded(s, Push(id, true))
    ensures IdentityInv(NextPush(s, id, true))
  {
    assert Unresolved(s, id) && ReadIsCurrent(first, s, id);
    forall i
      ensures !Busy(s, i)
    {
      if Busy(s, i) && Unresolved(s, i) {
        OneUnresolved(first, row, s, i, id);
      }
    }
    InvSolo(s, NextPush(s, id, true), id);
  }

  lemma InvBusy(s: State, step: Step)
    requires IdentityInv(s) && Guarded(s, step) && (step.Write? || step.Undo? || step.Restore?)
    requires Busy(s, step.id)
    ensures IdentityInv(Next(s, step))
  {
    var t := Next(s, step);
    var id := step.id;
    OnlyBusy(s, id);
    assert BusyOk(s, id);
    if t != s {
      assert t.reqs == s.reqs[id := t.reqs[id]];
      if step.Write? && step.ok {
        WriteSetsIdentity(s.row, s.reqs[id].stage.orig, Target(s.reqs[id]));
      }
      InvSolo(s, t, id);
    }
  }

  /** Such a step moves at most one handler, which is not busy before or after. */
  lemma StepAside(s: State, step: Step)
    requires !step.InitVersion? && !(step.Push? && step.ok && step.id in s.reqs && s.reqs[step.id].stage.Claimed?)
    requires !((step.Write? || step.Undo? || step.Restore?) && Busy(s, step.id))
    ensures var t := Next(s, step);
            t == s || (t.row == s.row && t.keycloak == s.keycloak && step.id in t.reqs && t.reqs == s.reqs[step.id := t.reqs[step.id]]
                       && !Busy(s, step.id) && !Busy(t, step.id))
  {
  }

  lemma InvMoved(s: State, t: State, id: nat)
    requires IdentityInv(s) && t.row == s.row && t.keycloak == s.keycloak && id in t.reqs && t.reqs == s.reqs[id := t.reqs[id]]
    requires !Busy(s, id) && !Busy(t, id)
    ensures IdentityInv(t)
  {
    forall i
      ensures Busy(t, i) <==> Busy(s, i)
    {
      assert i != id ==> (Busy(t, i) <==> Busy(s, i));
    }
    InvAside(s, t);
  }

  lemma InvNext(first: int, row: UserRow, s: State, step: Step)
    requires Serial(first, row, s) && IdentityInv(s) && Guarded(s, step)
    ensures IdentityInv(Next(s, step))
  {
    if step.Push? && step.ok && step.id in s.reqs && s.reqs[step.id].stage.Claimed? {
      InvPush(first, row, s, step.id);
    } else if (step.Write? || step.Undo? || step.Restore?) && Busy(s, step.id) {
      InvBusy(s, step);
    } else if step.InitVersion? {
      InvAside(s, Next(s, step));
    } else {
      StepAside(s, step);
      var t := Next(s, step);
      if t != s {
        InvMoved(s, t, step.id);
      }
    }
  }

  lemma {:induction false} GuardedRunAgrees(first: int, row: UserRow, s: State, steps: seq<Step>)
    requires Serial(first, row, s) && IdentityInv(s) && ReadsAreQuiet(s, steps) && RunIsGuarded(s, steps)
    ensures AlwaysAgrees(s, steps)
    decreases |steps|
  {
    if steps != [] {
      SerialNext(first, row, s, steps[0]);
      InvNext(first, row, s, steps[0]);
      GuardedRunAgrees(first, row, Next(s, steps[0]), steps[1..]);
    }
  }

  /** All or nothing towards the identity provider too: if no row is read while a version
      is unresolved, nothing is pushed while a restore is due, and restores succeed,
      then failed PATCHes leave no trace on either side. */
  lemma IdentityAgrees(version: Option<int>, row: UserRow, steps: seq<Step>)
    requires var s := Start(version, row, IdentityOf(row)); ReadsAreQuiet(s, steps) && RunIsGuarded(s, steps)
    ensures AlwaysAgrees(Start(version, row, IdentityOf(row)), steps)
  {
    var s := Start(version, row, IdentityOf(row));
    assert Serial(Current(version), row, s);
    GuardedRunAgrees(Current(version), row, s, steps);
  }

  /** An undisturbed PATCH keeps the guard, so the guard does not rule out success. */
  lemma SoloIsGuarded(v: int, row: UserRow, d: Delta)
    ensures var s := Start(Some(v), row, IdentityOf(row));
            var steps := Enter(1, d) + (TakeAndPush(1) + [Write(1, true)]);
            ReadsAreQuiet(s, steps) && RunIsGuarded(s, steps) && Succeeded(Run(s, steps), 1, v + 1)
  {
    var s := Start(Some(v), row, IdentityOf(row));
    var s1 := Run(s, Enter(1, d));
    var s2 := EntersAndPushes(s, 1, d);
    var last := [Write(1, true)];
    var rest := TakeAndPush(1) + last;
    RunConcat(s, Enter(1, d), rest);
    RunConcat(s1, TakeAndPush(1), last);
    assert Run(s2, last) == Run(Next(s2, Write(1, true)), []);
    EnterIsQuiet(s, 1, d);
    NoLoads(s1, rest);
    QuietConcat(s, Enter(1, d), rest);
    NoneRestores(s, Enter(1, d) + rest);
  }

  /** Without roll-backs no restore falls due. */
  lemma {:induction false} NoneRestores(s: State, steps: seq<Step>)
    requires forall i :: i in s.reqs ==> !s.reqs[i].stage.Restoring?
    requires forall step :: step in steps ==> !step.Undo? && !step.Restore?
    ensures RunIsGuarded(s, steps)
    decreases |steps|
  {
    if steps != [] {
      assert steps[0] in steps;
      NoneRestores(Next(s, steps[0]), steps[1..]);
    }
  }

  // ---- runs in which they part ----

  predicate Engaged(s: State, id: nat) {
    Unresolved(s, id) || (id in s.reqs && s.reqs[id].stage.Restoring?)
  }

  /** No row is read while another handler is unresolved or has a restore due. */
  ghost predicate ReadsAreSettled(s: State, steps: seq<Step>)
    decreases |steps|
  {
    steps != [] ==> (steps[0].Load? ==> forall id :: !Engaged(s, id)) && ReadsAreSettled(Next(s, steps[0]), steps[1..])
  }

  function FailAndUndo(id: nat): seq<Step> {
    [Write(id, false), Undo(id, true)]
  }

  function WriteThenRestore(writer: nat, other: nat): seq<Step> {
    [Write(writer, true), Restore(other, true)]
  }

  lemma FailsAndUndoes(s: State, id: nat, base: int, orig: UserRow)
    requires id in s.reqs && s.reqs[id].stage == Pushed(base, orig) && s.version == Some(base + 1)
    ensures var t := Run(s, FailAndUndo(id));
            && t.reqs == s.reqs[id := s.reqs[id].(stage := Restoring(orig))]
            && t.version == Some(base) && t.row == s.row && t.keycloak == s.keycloak && t.commits == s.commits
  {
    RunTwo(s, Write(id, false), Undo(id, true));
  }

  lemma WritesThenRestores(s: State, writer: nat, other: nat, base: int, row: UserRow, d: Delta)
    requires writer != other && writer in s.reqs && s.reqs[writer] == Request(NoHeader, d, Pushed(base, row)) && s.row == row
    requires other in s.reqs && s.reqs[other].stage == Restoring(row)
    requires forall id :: id in s.reqs ==> id == writer || id == other
    ensures var t := Run(s, WriteThenRestore(writer, other));
            Idle(t) && Succeeded(t, writer, base + 1) && t.row == ApplyDelta(d, row) && t.keycloak == IdentityOf(row)
  {
    RunTwo(s, Write(writer, true), Restore(other, true));
  }

  lemma {:induction false} QuietConcat(s: State, a: seq<Step>, b: seq<Step>)
    requires ReadsAreQuiet(s, a) && ReadsAreQuiet(Run(s, a), b)
    ensures ReadsAreQuiet(s, a + b)
    decreases |a|
  {
    if a == [] {
      assert a + b == b;
    } else {
      assert (a + b)[0] == a[0] && (a + b)[1..] == a[1..] + b;
      QuietConcat(Next(s, a[0]), a[1..], b);
    }
  }

  lemma {:induction false} SettledConcat(s: State, a: seq<Step>, b: seq<Step>)
    requires ReadsAreSettled(s, a) && ReadsAreSettled(Run(s, a), b)
    ensures ReadsAreSettled(s, a + b)
    decreases |a|
  {
    if a == [] {
      assert a + b == b;
    } else {
      assert (a + b)[0] == a[0] && (a + b)[1..] == a[1..] + b;
      SettledConcat(Next(s, a[0]), a[1..], b);
    }
  }

  lemma {:induction false} NoLoads(s: State, steps: seq<Step>)
    requires forall step :: step in steps ==> !step.Load?
    ensures ReadsAreQuiet(s, steps) && ReadsAreSettled(s, steps)
    decreases |steps|
  {
    if steps != [] {
      NoLoads(Next(s, steps[0]), steps[1..]);
    }
  }

  lemma EnterIsQuiet(s: State, id: nat, d: Delta)
    requires id !in s.reqs
    ensures Quiet(s) ==> ReadsAreQuiet(s, Enter(id, d))
    ensures (forall i :: !Engaged(s, i)) ==> ReadsAreSettled(s, Enter(id, d))
  {
    var t := Next(s, Arrive(id, NoHeader, d));
    assert Enter(id, d)[1..] == [Load(id, true)] && [Load(id, true)][1..] == [];
    forall i
      ensures (Unresolved(t, i) <==> Unresolved(s, i)) && (Engaged(t, i) <==> Engaged(s, i))
    {
    }
    assert ReadsAreQuiet(Next(t, Load(id, true)), []) && ReadsAreSettled(Next(t, Load(id, true)), []);
  }

  /** A handler whose row write failed has given its version back and has its restore due;
      another one reads, takes that version, pushes and writes, and then the restore of
      the first undoes its push. No row was read while a version was unresolved. */
  lemma LateRestoreSplits(v: int, row: UserRow, d1: Delta, d2: Delta) returns (steps: seq<Step>)
    ensures var s0 := Start(Some(v), row, IdentityOf(row));
            var s := Run(s0, steps);
            && ReadsAreQuiet(s0, steps) && Idle(s) && Succeeded(s, 2, v + 1)
            && s.row == ApplyDelta(d2, row) && s.keycloak == IdentityOf(row)
  {
    var s0 := Start(Some(v), row, IdentityOf(row));
    var a, s1 := FailsAfterPush(s0, 1, d1);
    EnterIsQuiet(s0, 1, d1);
    var b, s2 := ReadsAndPushes(s1, 2, d2);
    var c := WriteThenRestore(2, 1);
    WritesThenRestores(s2, 2, 1, v, row, d2);
    steps := a + (b + c);
    RunConcat(s0, a, b + c);
    RunConcat(s1, b, c);
    NoLoads(s2, c);
    QuietConcat(s1, b, c);
    QuietConcat(s0, a, b + c);
  }

  /** Handler `id` comes, pushes, fails to write and gives its version back. */
  lemma FailsAfterPush(s: State, id: nat, d: Delta) returns (steps: seq<Step>, t: State)
    requires s.version.Some? && s.reqs == map[]
    ensures t == Run(s, steps) && ReadsAreQuiet(s, steps)
    ensures t.version == s.version && t.row == s.row && t.reqs == map[id := Request(NoHeader, d, Restoring(s.row))]
    ensures t.keycloak == IdentityOf(ApplyDelta(d, s.row))
  {
    var s1 := Run(s, Enter(id, d));
    var s2 := EntersAndPushes(s, id, d);
    FailsAndUndoes(s2, id, s.version.value, s.row);
    t := Run(s2, FailAndUndo(id));
    var rest := TakeAndPush(id) + FailAndUndo(id);
    steps := Enter(id, d) + rest;
    RunConcat(s, Enter(id, d), rest);
    RunConcat(s1, TakeAndPush(id), FailAndUndo(id));
    EnterIsQuiet(s, id, d);
    NoLoads(s1, rest);
    QuietConcat(s, Enter(id, d), rest);
    assert t.reqs == map[id := Request(NoHeader, d, Restoring(s.row))];
  }

  lemma ReadsAndPushes(s: State, id: nat, d: Delta) returns (steps: seq<Step>, t: State)
    requires s.version.Some? && id !in s.reqs && Quiet(s)
    ensures t == Run(s, steps) && ReadsAreQuiet(s, steps)
    ensures t.row == s.row && t.reqs == s.reqs[id := Request(NoHeader, d, Pushed(s.version.value, s.row))]
  {
    var s1 := Run(s, Enter(id, d));
    t := EntersAndPushes(s, id, d);
    steps := Enter(id, d) + TakeAndPush(id);
    RunConcat(s, Enter(id, d), TakeAndPush(id));
    EnterIsQuiet(s, id, d);
    NoLoads(s1, TakeAndPush(id));
    QuietConcat(s, Enter(id, d), TakeAndPush(id));
  }

  /** Waiting with reads is not enough: here both handlers read at once, before anything
      was taken, and the second takes the version that the first has given back. */
  lemma EarlyReadSplits(v: int, row: UserRow, d1: Delta, d2: Delta) returns (steps: seq<Step>)
    ensures var s0 := Start(Some(v), row, IdentityOf(row));
            var s := Run(s0, steps);
            && ReadsAreSettled(s0, steps) && Idle(s) && Succeeded(s, 2, v + 1)
            && s.row == ApplyDelta(d2, row) && s.keycloak == IdentityOf(row)
  {
    var s0 := Start(Some(v), row, IdentityOf(row));
    Enters(s0, 1, d1);
    var s1 := Run(s0, Enter(1, d1));
    Enters(s1, 2, d2);
    var s2 := Run(s1, Enter(2, d2));
    EnterIsQuiet(s0, 1, d1);
    EnterIsQuiet(s1, 2, d2);
    var c, s3 := OneFailsOtherPushes(s2, v, row, d1, d2);
    var d := WriteThenRestore(2, 1);
    WritesThenRestores(s3, 2, 1, v, row, d2);
    steps := Enter(1, d1) + (Enter(2, d2) + (c + d));
    RunConcat(s0, Enter(1, d1), Enter(2, d2) + (c + d));
    RunConcat(s1, Enter(2, d2), c + d);
    RunConcat(s2, c, d);
    NoLoads(s2, c + d);
    SettledConcat(s1, Enter(2, d2), c + d);
    SettledConcat(s0, Enter(1, d1), Enter(2, d2) + (c + d));
  }

  lemma OneFailsOtherPushes(s: State, v: int, row: UserRow, d1: Delta, d2: Delta) returns (steps: seq<Step>, t: State)
    requires s.version == Some(v) && s.row == row
    requires s.reqs == map[1 := Request(NoHeader, d1, Loaded(v, row)), 2 := Request(NoHeader, d2, Loaded(v, row))]
    ensures t == Run(s, steps) && forall step :: step in steps ==> !step.Load?
    ensures t.row == row
    ensures t.reqs == map[1 := Request(NoHeader, d1, Restoring(row)), 2 := Request(NoHeader, d2, Pushed(v, row))]
  {
    var a, s1 := TakesAndFails(s, 1, v, row);
    Takes(s1, 2);
    t := Run(s1, TakeAndPush(2));
    steps := a + TakeAndPush(2);
    RunConcat(s, a, TakeAndPush(2));
  }

  lemma TakesAndFails(s: State, id: nat, v: int, row: UserRow) returns (steps: seq<Step>, t: State)
    requires s.version == Some(v) && id in s.reqs && s.reqs[id].stage == Loaded(v, row)
    ensures t == Run(s, steps) && forall step :: step in steps ==> !step.Load?
    ensures t.version == s.version && t.row == s.row && t.reqs == s.reqs[id := s.reqs[id].(stage := Restoring(row))]
  {
    Takes(s, id);
    var s1 := Run(s, TakeAndPush(id));
    FailsAndUndoes(s1, id, v, row);
    t := Run(s1, FailAndUndo(id));
    steps := TakeAndPush(id) + FailAndUndo(id);
    RunConcat(s, TakeAndPush(id), FailAndUndo(id));
  }

  /** And a single handler is enough when its restore fails. */
  lemma FailedRestoreSplits(v: int, row: UserRow, d: Delta) returns (steps: seq<Step>)
    ensures var s := Run(Start(Some(v), row, IdentityOf(row)), steps);
            Idle(s) && s.row == row && s.keycloak == IdentityOf(ApplyDelta(d, row))
  {
    var s0 := Start(Some(v), row, IdentityOf(row));
    var a, s1 := FailsAfterPush(s0, 1, d);
    steps := a + [Restore(1, false)];
    RunConcat(s0, a, [Restore(1, false)]);
    assert Run(s1, [Restore(1, false)]) == Run(Next(s1, Restore(1, false)), []);
  }
}
