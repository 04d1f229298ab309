/** Leader election over session-scoped advisory locks on pooled connections.

    Every instance runs the acquire/hold/release loop of one job. The database knows
    sessions; a session's lock is re-entrant and lives until it is unlocked as often as
    it was taken, or until the session's backend ends. A client may drop a session
    before the backend notices. One query, or one hand-over between an instance and its
    pool, is one atomic step. */
module Leader {

  datatype Owner = Idle(pool: nat) | Used(instance: nat) | Dropped

  datatype Session = Session(owner: Owner, alive: bool, held: nat)

  datatype Phase =
    | Follower
    | Trying(session: nat)
    | Leading(session: nat)
    | Unlocking(session: nat)
    | Returning(session: nat)
    | Stopped

  /** How a query on a live session ends. A lost connection may or may not have had the
      effect; a refused query had none and its session goes back to the pool alive. */
  datatype Outcome = Answered | Lost(effect: bool) | Refused

  datatype Step =
    | Connect(instance: nat, session: nat)
    | TryLock(instance: nat, outcome: Outcome)
    | Demote(instance: nat)
    | Unlock(instance: nat, outcome: Outcome)
    | Return(instance: nat)
    | Crash(instance: nat)
    | Kill(session: nat)

  datatype State = State(phases: map<nat, Phase>, sessions: map<nat, Session>)

  function Start(): State {
    State(map[], map[])
  }

  function PhaseOf(s: State, i: nat): Phase {
    if i in s.phases then s.phases[i] else Follower
  }

  predicate Alive(s: State, x: nat) {
    x in s.sessions && s.sessions[x].alive
  }

  function Held(s: State, x: nat): nat {
    if x in s.sessions then s.sessions[x].held else 0
  }

  /** pg_try_advisory_lock grants unless another session holds the lock. */
  predicate Grantable(s: State, x: nat) {
    forall y :: y in s.sessions && y != x ==> s.sessions[y].held == 0
  }

  function Move(s: State, i: nat, p: Phase): State {
    s.(phases := s.phases[i := p])
  }

  function Put(s: State, x: nat, session: Session): State {
    s.(sessions := s.sessions[x := session])
  }

  /** The client gives up the session; a lock it holds stays until the backend ends. */
  function Abandon(s: State, i: nat, x: nat, held: nat): State
    requires x in s.sessions
  {
    Put(Move(s, i, Follower), x, s.sessions[x].(owner := Dropped, held := held))
  }

  predicate CanConnect(s: State, i: nat, x: nat) {
    PhaseOf(s, i) == Follower && (x in s.sessions ==> s.sessions[x].owner == Idle(i))
  }

  function DoConnect(s: State, i: nat, x: nat): State {
    var session := if x in s.sessions then s.sessions[x].(owner := Used(i)) else Session(Used(i), true, 0);
    Put(Move(s, i, Trying(x)), x, session)
  }

  function DoTryLock(s: State, i: nat, x: nat, outcome: Outcome): State
    requires x in s.sessions
  {
    var session := s.sessions[x];
    var taken := if Grantable(s, x) then session.held + 1 else session.held;
    if !session.alive then Abandon(s, i, x, session.held)
    else
      match outcome
      case Answered => if Grantable(s, x) then Put(Move(s, i, Leading(x)), x, session.(held := taken)) else Move(s, i, Returning(x))
      case Lost(effect) => Abandon(s, i, x, if effect then taken else session.held)
      case Refused => Move(s, i, Returning(x))
  }

  function DoUnlock(s: State, i: nat, x: nat, outcome: Outcome): State
    requires x in s.sessions
  {
    var session := s.sessions[x];
    var left := if session.held > 0 then session.held - 1 else 0;
    if !session.alive then Abandon(s, i, x, session.held)
    else
      match outcome
      case Answered => Put(Move(s, i, Returning(x)), x, session.(held := left))
      case Lost(effect) => Abandon(s, i, x, if effect then left else session.held)
      case Refused => Move(s, i, Returning(x))
  }

  function DoReturn(s: State, i: nat, x: nat): State
    requires x in s.sessions
  {
    Put(Move(s, i, Follower), x, s.sessions[x].(owner := Idle(i)))
  }

  /** The process is gone, and with it its hold on all of its sessions. */
  function DoCrash(s: State, i: nat): State {
    State(s.phases[i := Stopped],
          map x | x in s.sessions ::
            var session := s.sessions[x];
            if session.owner == Used(i) || session.owner == Idle(i) then session.(owner := Dropped) else session)
  }

  function DoKill(s: State, x: nat): State
    requires x in s.sessions
  {
    Put(s, x, s.sessions[x].(alive := false, held := 0))
  }

  /** A step that is not enabled changes nothing. */
  function Next(s: State, step: Step): State {
    match step
    case Connect(i, x) => if CanConnect(s, i, x) then DoConnect(s, i, x) else s
    case TryLock(i, outcome) =>
      var p := PhaseOf(s, i);
      if p.Trying? && p.session in s.sessions then DoTryLock(s, i, p.session, outcome) else s
    case Demote(i) =>
      var p := PhaseOf(s, i);
      if p.Leading? then Move(s, i, Unlocking(p.session)) else s
    case Unlock(i, outcome) =>
      var p := PhaseOf(s, i);
      if p.Unlocking? && p.session in s.sessions then DoUnlock(s, i, p.session, outcome) else s
    case Return(i) =>
      var p := PhaseOf(s, i);
      if p.Returning? && p.session in s.sessions then DoReturn(s, i, p.session) else s
    case Crash(i) => DoCrash(s, i)
    case Kill(x) => if x in s.sessions then DoKill(s, x) else s
  }

  function Run(s: State, steps: seq<Step>): State
    decreases |steps|
  {
    if steps == [] then s else Run(Next(s, steps[0]), steps[1..])
  }

  lemma RunOne(s: State, a: Step)
    ensures Run(s, [a]) == Next(s, a)
  {
    assert Run(Next(s, a), []) == Next(s, a);
  }

  lemma RunTwo(s: State, a: Step, b: Step)
    ensures Run(s, [a, b]) == Next(Next(s, a), b)
  {
    RunOne(Next(s, a), b);
    assert [a, b][1..] == [b];
  }

  lemma RunSnoc(s: State, steps: seq<Step>, step: Step)
    ensures Run(s, steps + [step]) == Next(Run(s, steps), step)
    decreases |steps|
  {
    if steps == [] {
      RunOne(s, step);
      assert [] + [step] == [step];
    } else {
      assert (steps + [step])[0] == steps[0] && (steps + [step])[1..] == steps[1..] + [step];
      RunSnoc(Next(s, steps[0]), steps[1..], step);
    }
  }

  lemma {:induction false} RunConcat(s: State, first: seq<Step>, second: seq<Step>)
    ensures Run(s, first + second) == Run(Run(s, first), second)
    decreases |second|
  {
    if second == [] {
      assert first + second == first;
    } else {
      var n := |second| - 1;
      RunConcat(s, first, second[..n]);
      RunSnoc(s, first + second[..n], second[n]);
      RunSnoc(Run(s, first), second[..n], second[n]);
      assert first + second == first + second[..n] + [second[n]] && second == second[..n] + [second[n]];
    }
  }

  // ---- the invariant ----

  function SessionsOf(p: Phase): set<nat> {
    match p
    case Trying(x) => {x}
    case Leading(x) => {x}
    case Unlocking(x) => {x}
    case Returning(x) => {x}
    case _ => {}
  }

  predicate Holds(p: Phase, x: nat) {
    p == Leading(x) || p == Unlocking(x)
  }

  /** The session an instance works on is its own, and holds the lock exactly once while
      the instance leads or is about to unlock. */
  predicate InstanceOk(s: State, i: nat) {
    forall x :: x in SessionsOf(PhaseOf(s, i)) ==>
      && x in s.sessions && s.sessions[x].owner == Used(i)
      && (s.sessions[x].alive && Holds(PhaseOf(s, i), x) ==> s.sessions[x].held == 1)
      && (!Holds(PhaseOf(s, i), x) ==> s.sessions[x].held == 0)
  }

  /** Only a live session holds the lock, once, and never one that lies in a pool. */
  predicate SessionOk(s: State, x: nat) {
    x in s.sessions && s.sessions[x].held > 0 ==>
      && s.sessions[x].alive && s.sessions[x].held == 1
      && !s.sessions[x].owner.Idle?
      && (s.sessions[x].owner.Used? ==> Holds(PhaseOf(s, s.sessions[x].owner.instance), x))
  }

  predicate Exclusive(s: State, x: nat, y: nat) {
    Held(s, x) > 0 && Held(s, y) > 0 ==> x == y
  }

  ghost predicate Inv(s: State) {
    match s
    case State(_, _) =>
      && (forall i :: InstanceOk(s, i))
      && (forall x :: SessionOk(s, x))
      && (forall x, y :: Exclusive(s, x, y))
  }

  /** One instance moves and its session changes; everything else stays. */
  ghost predicate Local(s: State, t: State, i: nat, x: nat) {
    && t.phases == s.phases[i := PhaseOf(t, i)]
    && x in t.sessions && t.sessions == s.sessions[x := t.sessions[x]]
    && (x in s.sessions ==> s.sessions[x].owner == Used(i) || s.sessions[x].owner == Idle(i))
  }

  /** What such a step has to establish about its own instance and session. */
  lemma LocalInv(s: State, t: State, i: nat, x: nat)
    requires Inv(s) && Local(s, t, i, x)
    requires InstanceOk(t, i) && SessionOk(t, x)
    requires SessionsOf(PhaseOf(s, i)) <= {x}
    requires Held(t, x) > 0 ==> Held(s, x) > 0 || Grantable(s, x)
    ensures Inv(t)
  {
    forall j
      ensures InstanceOk(t, j)
    {
      assert InstanceOk(s, j);
      if j != i {
        assert PhaseOf(t, j) == PhaseOf(s, j);
      }
    }
    forall y
      ensures SessionOk(t, y)
    {
      assert SessionOk(s, y);
      LocalSession(s, t, i, x, y);
    }
    forall y, z
      ensures Exclusive(t, y, z)
    {
      assert Exclusive(s, y, z) && Exclusive(s, x, y) && Exclusive(s, x, z);
    }
  }

  lemma LocalSession(s: State, t: State, i: nat, x: nat, y: nat)
    requires Inv(s) && Local(s, t, i, x) && SessionOk(s, y) && SessionOk(t, x)
    requires SessionsOf(PhaseOf(s, i)) <= {x}
    ensures SessionOk(t, y)
  {
    if y != x && y in s.sessions && s.sessions[y].held > 0 && s.sessions[y].owner.Used? {
      var j := s.sessions[y].owner.instance;
      assert y in SessionsOf(PhaseOf(s, j));
      assert j != i;
      assert PhaseOf(t, j) == PhaseOf(s, j);
    }
  }

  lemma InvConnect(s: State, i: nat, x: nat)
    requires Inv(s) && CanConnect(s, i, x)
    ensures Inv(DoConnect(s, i, x))
  {
    assert InstanceOk(s, i) && SessionOk(s, x);
    LocalInv(s, DoConnect(s, i, x), i, x);
  }

  lemma InvTryLock(s: State, i: nat, x: nat, outcome: Outcome)
    requires Inv(s) && PhaseOf(s, i) == Trying(x) && x in s.sessions
    ensures Inv(DoTryLock(s, i, x, outcome))
  {
    assert InstanceOk(s, i) && SessionOk(s, x) && x in SessionsOf(PhaseOf(s, i));
    LocalInv(s, DoTryLock(s, i, x, outcome), i, x);
  }

  /** All outcomes but one are safe for the unlock, and that one is on a dead session. */
  lemma InvUnlock(s: State, i: nat, x: nat, outcome: Outcome)
    requires Inv(s) && PhaseOf(s, i) == Unlocking(x) && x in s.sessions && (outcome == Refused ==> !Alive(s, x))
    ensures Inv(DoUnlock(s, i, x, outcome))
  {
    assert InstanceOk(s, i) && SessionOk(s, x) && x in SessionsOf(PhaseOf(s, i));
    LocalInv(s, DoUnlock(s, i, x, outcome), i, x);
  }

  lemma InvDemote(s: State, i: nat, x: nat)
    requires Inv(s) && PhaseOf(s, i) == Leading(x)
    ensures Inv(Move(s, i, Unlocking(x)))
  {
    assert InstanceOk(s, i) && SessionOk(s, x) && x in SessionsOf(PhaseOf(s, i));
    LocalInv(s, Move(s, i, Unlocking(x)), i, x);
  }

  lemma InvReturn(s: State, i: nat, x: nat)
    requires Inv(s) && PhaseOf(s, i) == Returning(x) && x in s.sessions
    ensures Inv(DoReturn(s, i, x))
  {
    assert InstanceOk(s, i) && SessionOk(s, x) && x in SessionsOf(PhaseOf(s, i));
    LocalInv(s, DoReturn(s, i, x), i, x);
  }

  lemma InvCrash(s: State, i: nat)
    requires Inv(s)
    ensures Inv(DoCrash(s, i))
  {
    var t := DoCrash(s, i);
    forall j
      ensures InstanceOk(t, j)
    {
      assert InstanceOk(s, j);
    }
    forall x
      ensures SessionOk(t, x)
    {
      assert SessionOk(s, x);
    }
    forall x, y
      ensures Exclusive(t, x, y)
    {
      assert Exclusive(s, x, y);
    }
  }

  lemma InvKill(s: State, x: nat)
    requires Inv(s) && x in s.sessions
    ensures Inv(DoKill(s, x))
  {
    var t := DoKill(s, x);
    forall j
      ensures InstanceOk(t, j)
    {
      assert InstanceOk(s, j);
    }
    forall y
      ensures SessionOk(t, y)
    {
      assert SessionOk(s, y);
    }
    forall y, z
      ensures Exclusive(t, y, z)
    {
      assert Exclusive(s, y, z);
    }
  }

  /** An unlock that fails while its session goes back to the pool alive. */
  predicate LeaksNow(s: State, step: Step) {
    step.Unlock? && step.outcome == Refused && PhaseOf(s, step.instance).Unlocking? && Alive(s, PhaseOf(s, step.instance).session)
  }

  lemma InvNext(s: State, step: Step)
    requires Inv(s) && !LeaksNow(s, step)
    ensures Inv(Next(s, step))
  {
    match step
    case Connect(i, x) => if CanConnect(s, i, x) { InvConnect(s, i, x); }
    case TryLock(i, outcome) =>
      var p := PhaseOf(s, i);
      if p.Trying? && p.session in s.sessions { InvTryLock(s, i, p.session, outcome); }
    case Demote(i) =>
      var p := PhaseOf(s, i);
      if p.Leading? { InvDemote(s, i, p.session); }
    case Unlock(i, outcome) =>
      var p := PhaseOf(s, i);
      if p.Unlocking? && p.session in s.sessions { InvUnlock(s, i, p.session, outcome); }
    case Return(i) =>
      var p := PhaseOf(s, i);
      if p.Returning? && p.session in s.sessions { InvReturn(s, i, p.session); }
    case Crash(i) => InvCrash(s, i);
    case Kill(x) => if x in s.sessions { InvKill(s, x); }
  }

  predicate CleanRun(s: State, steps: seq<Step>)
    decreases |steps|
  {
    steps != [] ==> !LeaksNow(s, steps[0]) && CleanRun(Next(s, steps[0]), steps[1..])
  }

  lemma {:induction false} InvRun(s: State, steps: seq<Step>)
    requires Inv(s) && CleanRun(s, steps)
    ensures Inv(Run(s, steps))
    decreases |steps|
  {
    if steps != [] {
      InvNext(s, steps[0]);
      InvRun(Next(s, steps[0]), steps[1..]);
    }
  }
}
