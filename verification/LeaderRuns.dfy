/** What the election guarantees over whole runs: the lock discipline, that leadership can
    always be taken over, that it is only believed, and the one outcome of an unlock that
    shuts every other instance out. */
module LeaderRuns {
  import opened Leader

  // ---- safety ----

  lemma StartInv(s: State)
    requires s.sessions == map[] && s.phases == map[]
    ensures Inv(s)
  {
  }

  /** In every run: one live holder at most, one live leader at most, a live leader holds
      the lock exactly once, and no pooled session holds it. */
  lemma LockDiscipline(steps: seq<Step>)
    requires CleanRun(Start(), steps)
    ensures var s := Run(Start(), steps);
            && (forall x, y :: Held(s, x) > 0 && Held(s, y) > 0 ==> x == y)
            && (forall i, x :: PhaseOf(s, i) == Leading(x) && Alive(s, x) ==> Held(s, x) == 1)
            && (forall i, j, x, y :: PhaseOf(s, i) == Leading(x) && PhaseOf(s, j) == Leading(y) && Alive(s, x) && Alive(s, y) ==> i == j)
            && (forall x :: x in s.sessions && s.sessions[x].owner.Idle? ==> s.sessions[x].held == 0)
  {
    StartInv(Start());
    InvRun(Start(), steps);
    var s := Run(Start(), steps);
    forall x, y
      ensures Held(s, x) > 0 && Held(s, y) > 0 ==> x == y
    {
      assert Exclusive(s, x, y);
    }
    forall i, x | PhaseOf(s, i) == Leading(x) && Alive(s, x)
      ensures Held(s, x) == 1 && s.sessions[x].owner == Used(i)
    {
      assert InstanceOk(s, i) && x in SessionsOf(PhaseOf(s, i));
    }
    forall x | x in s.sessions && s.sessions[x].owner.Idle?
      ensures s.sessions[x].held == 0
    {
      assert SessionOk(s, x);
    }
  }

  /** Every lock is held once, by a live session, and on behalf of an instance that leads
      or is about to unlock, or of nobody any more. */
  ghost predicate Disciplined(s: State) {
    forall x :: SessionOk(s, x)
  }

  ghost predicate AlwaysDisciplined(s: State, steps: seq<Step>)
    decreases |steps|
  {
    Disciplined(s) && (steps != [] ==> AlwaysDisciplined(Next(s, steps[0]), steps[1..]))
  }

  lemma LeakBreaksDiscipline(s: State, step: Step)
    requires Inv(s) && LeaksNow(s, step)
    ensures !Disciplined(Next(s, step))
  {
    var i := step.instance;
    var x := PhaseOf(s, i).session;
    assert InstanceOk(s, i) && x in SessionsOf(PhaseOf(s, i));
    assert !SessionOk(Next(s, step), x);
  }

  /** A run keeps the discipline throughout if and only if no unlock is refused on a
      session that is alive. */
  lemma {:induction false} DisciplinedIffClean(s: State, steps: seq<Step>)
    requires Inv(s)
    ensures AlwaysDisciplined(s, steps) <==> CleanRun(s, steps)
    decreases |steps|
  {
    if steps != [] {
      if LeaksNow(s, steps[0]) {
        LeakBreaksDiscipline(s, steps[0]);
      } else {
        InvNext(s, steps[0]);
        DisciplinedIffClean(Next(s, steps[0]), steps[1..]);
      }
    }
  }

  /** No unlock is refused at all, as one instance can see to. */
  ghost predicate NoRefusal(steps: seq<Step>) {
    forall step :: step in steps ==> !(step.Unlock? && step.outcome == Refused)
  }

  lemma {:induction false} NoRefusalIsClean(s: State, steps: seq<Step>)
    requires NoRefusal(steps)
    ensures CleanRun(s, steps)
    decreases |steps|
  {
    if steps != [] {
      NoRefusalIsClean(Next(s, steps[0]), steps[1..]);
    }
  }

  // ---- leadership can always be taken over ----

  ghost predicate Free(s: State) {
    forall x :: x in s.sessions ==> s.sessions[x].held == 0
  }

  /** A clean release frees the lock. */
  lemma ReleaseFrees(s: State, i: nat, x: nat)
    requires Inv(s) && PhaseOf(s, i) == Unlocking(x) && Alive(s, x)
    ensures Free(Next(s, Unlock(i, Answered)))
  {
    assert InstanceOk(s, i) && x in SessionsOf(PhaseOf(s, i));
    forall y | y in s.sessions && y != x
      ensures s.sessions[y].held == 0
    {
      assert Exclusive(s, x, y);
    }
  }

  lemma FreedByKill(s: State, x: nat)
    requires Inv(s) && Held(s, x) > 0
    ensures Free(Next(s, Kill(x)))
  {
    forall y | y in s.sessions && y != x
      ensures s.sessions[y].held == 0
    {
      assert Exclusive(s, x, y);
    }
  }

  /** The steps that free the lock: the holder releases it, or a backend whose client is
      gone comes to its end. No session in use has to die. */
  lemma CanBeFreed(s: State, candidate: nat) returns (steps: seq<Step>)
    requires Inv(s) && PhaseOf(s, candidate) == Follower
    ensures CleanRun(s, steps) && Free(Run(s, steps)) && PhaseOf(Run(s, steps), candidate) == Follower
    ensures forall step :: step in steps && step.Kill? ==> step.session in s.sessions && s.sessions[step.session].owner == Dropped
  {
    if Free(s) {
      steps := [];
    } else {
      var x :| x in s.sessions && s.sessions[x].held > 0;
      assert SessionOk(s, x);
      if s.sessions[x].owner == Dropped {
        FreedByKill(s, x);
        steps := [Kill(x)];
        NoRefusalIsClean(s, steps);
        RunOne(s, Kill(x));
      } else {
        var i := s.sessions[x].owner.instance;
        var demoted := Next(s, Demote(i));
        InvNext(s, Demote(i));
        assert PhaseOf(demoted, i) == Unlocking(x) && Alive(demoted, x);
        ReleaseFrees(demoted, i, x);
        steps := [Demote(i), Unlock(i, Answered)];
        RunTwo(s, Demote(i), Unlock(i, Answered));
        NoRefusalIsClean(s, steps);
      }
    }
  }

  lemma TakesFreeLock(s: State, i: nat, x: nat)
    requires Free(s) && PhaseOf(s, i) == Follower && x !in s.sessions
    ensures var t := Run(s, [Connect(i, x), TryLock(i, Answered)]);
            PhaseOf(t, i) == Leading(x) && Alive(t, x) && Held(t, x) == 1
  {
    var t := Next(s, Connect(i, x));
    assert Grantable(t, x) && PhaseOf(t, i) == Trying(x) && x in t.sessions;
    RunTwo(s, Connect(i, x), TryLock(i, Answered));
  }

  lemma FreshSession(s: State) returns (x: nat)
    ensures x !in s.sessions
  {
    x := Beyond(s.sessions.Keys);
  }

  lemma Beyond(xs: set<nat>) returns (b: nat)
    ensures forall x :: x in xs ==> x < b
  {
    if xs == {} {
      b := 0;
    } else {
      var y :| y in xs;
      var c := Beyond(xs - {y});
      b := if c > y then c else y + 1;
      assert forall x :: x in xs ==> x == y || x in xs - {y};
    }
  }

  lemma {:induction false} CleanConcat(s: State, first: seq<Step>, second: seq<Step>)
    requires CleanRun(s, first) && CleanRun(Run(s, first), second)
    ensures CleanRun(s, first + second)
    decreases |first|
  {
    if first == [] {
      assert first + second == second;
    } else {
      assert (first + second)[0] == first[0] && (first + second)[1..] == first[1..] + second;
      CleanConcat(Next(s, first[0]), first[1..], second);
    }
  }

  /** From every reachable state every follower can become a live leader without any
      session in use dying. */
  lemma AlwaysReacquirable(past: seq<Step>, candidate: nat) returns (steps: seq<Step>)
    requires CleanRun(Start(), past) && PhaseOf(Run(Start(), past), candidate) == Follower
    ensures var s, t := Run(Start(), past), Run(Start(), past + steps);
            && CleanRun(s, steps) && PhaseOf(t, candidate).Leading? && Alive(t, PhaseOf(t, candidate).session)
            && (forall step :: step in steps && step.Kill? ==> step.session in s.sessions && s.sessions[step.session].owner == Dropped)
  {
    StartInv(Start());
    InvRun(Start(), past);
    var s := Run(Start(), past);
    var first := CanBeFreed(s, candidate);
    var x := FreshSession(Run(s, first));
    TakesFreeLock(Run(s, first), candidate, x);
    var second := [Connect(candidate, x), TryLock(candidate, Answered)];
    RunConcat(s, first, second);
    steps := first + second;
    RunConcat(Start(), past, steps);
    NoRefusalIsClean(Run(s, first), second);
    CleanConcat(s, first, second);
  }

  /** Leadership is only believed: when the leader's session dies, any other instance
      leads for real while the first one still thinks it does. */
  lemma TwoBelievers(i: nat, j: nat, x: nat, y: nat) returns (steps: seq<Step>)
    requires i != j && x != y
    ensures var s := Run(Start(), steps);
            PhaseOf(s, i) == Leading(x) && PhaseOf(s, j) == Leading(y) && !Alive(s, x) && Alive(s, y)
  {
    var first := [Connect(i, x), TryLock(i, Answered)];
    TakesFreeLock(Start(), i, x);
    var s1 := Run(Start(), first);
    StartInv(Start());
    NoRefusalIsClean(Start(), first);
    InvRun(Start(), first);
    FreedByKill(s1, x);
    RunSnoc(Start(), first, Kill(x));
    var s2 := Next(s1, Kill(x));
    OnlyFirst(s1, i, x);
    TakesFreeLock(s2, j, y);
    var second := [Connect(j, y), TryLock(j, Answered)];
    steps := first + [Kill(x)] + second;
    RunConcat(Start(), first + [Kill(x)], second);
    StaysPut(s2, i, j, x, y);
  }

  lemma OnlyFirst(s: State, i: nat, x: nat)
    requires s == Run(Start(), [Connect(i, x), TryLock(i, Answered)])
    ensures s.phases.Keys == {i} && s.sessions.Keys == {x}
  {
    RunTwo(Start(), Connect(i, x), TryLock(i, Answered));
  }

  lemma StaysPut(s: State, i: nat, j: nat, x: nat, y: nat)
    requires i != j && x != y && PhaseOf(s, i) == Leading(x) && x in s.sessions && !s.sessions[x].alive
    ensures var t := Run(s, [Connect(j, y), TryLock(j, Answered)]);
            PhaseOf(t, i) == Leading(x) && !Alive(t, x)
  {
    RunTwo(s, Connect(j, y), TryLock(j, Answered));
  }

  // ---- the one unsafe outcome ----

  /** A refused unlock leaves the lock on a pooled session exactly when that session is
      still alive. */
  lemma RefusedUnlockLeaks(s: State, i: nat, x: nat)
    requires Inv(s) && PhaseOf(s, i) == Unlocking(x)
    ensures var t := Next(Next(s, Unlock(i, Refused)), Return(i));
            (x in t.sessions && t.sessions[x].owner == Idle(i) && Held(t, x) == 1) <==> Alive(s, x)
    ensures Alive(s, x) ==> Leaked(Next(Next(s, Unlock(i, Refused)), Return(i)), i, x)
  {
    assert InstanceOk(s, i) && x in SessionsOf(PhaseOf(s, i));
  }

  /** Instance i's session x holds the lock once more than i knows of. */
  predicate Leaked(s: State, i: nat, x: nat) {
    && x in s.sessions && s.sessions[x].alive
    && (s.sessions[x].owner == Idle(i) || (s.sessions[x].owner == Used(i) && x in SessionsOf(PhaseOf(s, i))))
    && s.sessions[x].held >= (if Holds(PhaseOf(s, i), x) then 2 else 1)
  }

  predicate Elsewhere(s: State, j: nat, x: nat) {
    !PhaseOf(s, j).Leading? && x !in SessionsOf(PhaseOf(s, j))
  }

  /** The session survives: neither it nor its client ends or loses the connection. */
  predicate Survives(step: Step, i: nat, x: nat) {
    match step
    case Kill(y) => y != x
    case Crash(j) => j != i
    case TryLock(j, outcome) => j == i ==> !outcome.Lost?
    case Unlock(j, outcome) => j == i ==> !outcome.Lost?
    case _ => true
  }

  lemma LeakStays(s: State, step: Step, i: nat, x: nat)
    requires Leaked(s, i, x) && Survives(step, i, x)
    requires forall j :: j != i ==> Elsewhere(s, j, x)
    ensures Leaked(Next(s, step), i, x)
  {
    match step
    case Connect(j, y) => assert j != i ==> Elsewhere(s, j, x);
    case TryLock(j, _) => assert j != i ==> Elsewhere(s, j, x);
    case Demote(j) => assert j != i ==> Elsewhere(s, j, x);
    case Unlock(j, _) => assert j != i ==> Elsewhere(s, j, x);
    case Return(j) => assert j != i ==> Elsewhere(s, j, x);
    case Crash(j) =>
    case Kill(y) =>
  }

  lemma OthersShutOut(s: State, step: Step, i: nat, x: nat, j: nat)
    requires Leaked(s, i, x) && j != i && Elsewhere(s, j, x)
    ensures Elsewhere(Next(s, step), j, x)
  {
    if step.TryLock? && step.instance == j && PhaseOf(s, j).Trying? {
      assert !Grantable(s, PhaseOf(s, j).session);
    }
  }

  /** After a leak, no other instance leads in any run in which the session survives,
      however often its instance takes and releases the lock. */
  lemma {:induction false} LeakBlocksOthers(s: State, steps: seq<Step>, i: nat, x: nat)
    requires Leaked(s, i, x) && (forall j :: j != i ==> Elsewhere(s, j, x))
    requires forall step :: step in steps ==> Survives(step, i, x)
    ensures forall j :: j != i ==> !PhaseOf(Run(s, steps), j).Leading?
    decreases |steps|
  {
    if steps != [] {
      var t := Next(s, steps[0]);
      LeakStays(s, steps[0], i, x);
      forall j | j != i
        ensures Elsewhere(t, j, x)
      {
        OthersShutOut(s, steps[0], i, x, j);
      }
      LeakBlocksOthers(t, steps[1..], i, x);
    } else {
      assert forall j :: Elsewhere(s, j, x) ==> !PhaseOf(s, j).Leading?;
    }
  }
}
