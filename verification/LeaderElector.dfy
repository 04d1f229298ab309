/** One instance's election loop, as the program writes it, against the election's
    state machine. */
module LeaderElector {
  import opened Text
  import opened Leader
  import opened LeaderRuns

  type Sessions = map<nat, Session>

  /** A query on a session whose connection breaks closes it for the client. */
  function Broken(ss: Sessions, x: nat, held: nat): Sessions
    requires x in ss
  {
    ss[x := ss[x].(owner := Dropped, held := held)]
  }

  /** pg_try_advisory_lock; None is a query error. */
  function TryLockQuery(ss: Sessions, x: nat, outcome: Outcome): (Sessions, Option<bool>)
    requires x in ss
  {
    var free := Grantable(State(map[], ss), x);
    var taken := if free then ss[x].held + 1 else ss[x].held;
    if !ss[x].alive then (Broken(ss, x, ss[x].held), None)
    else
      match outcome
      case Answered => (ss[x := ss[x].(held := taken)], Some(free))
      case Lost(effect) => (Broken(ss, x, if effect then taken else ss[x].held), None)
      case Refused => (ss, None)
  }

  /** pg_advisory_unlock; its answer is ignored. */
  function UnlockQuery(ss: Sessions, x: nat, outcome: Outcome): Sessions
    requires x in ss
  {
    var left := if ss[x].held > 0 then ss[x].held - 1 else 0;
    if !ss[x].alive then Broken(ss, x, ss[x].held)
    else
      match outcome
      case Answered => ss[x := ss[x].(held := left)]
      case Lost(effect) => Broken(ss, x, if effect then left else ss[x].held)
      case Refused => ss
  }

  /** Release: an open session goes back to the pool, a broken one is discarded. */
  function Release(ss: Sessions, i: nat, x: nat): Sessions
    requires x in ss
  {
    if ss[x].owner == Dropped then ss else ss[x := ss[x].(owner := Idle(i))]
  }

  function Taken(ss: Sessions, i: nat, x: nat): (r: Sessions)
    ensures x in r
  {
    if x in ss then ss[x := ss[x].(owner := Used(i))] else ss[x := Session(Used(i), true, 0)]
  }

  lemma LockSteps(ss: Sessions, i: nat, x: nat, outcome: Outcome)
    requires x in ss && ss[x].owner == Used(i)
    ensures var q := TryLockQuery(ss, x, outcome);
            Next(Next(State(map[i := Trying(x)], ss), TryLock(i, outcome)), Return(i)) ==
            if q.1 == Some(true) then State(map[i := Leading(x)], q.0) else State(map[i := Follower], Release(q.0, i, x))
  {
    var s := State(map[i := Trying(x)], ss);
    assert Grantable(s, x) == Grantable(State(map[], ss), x);
    assert ss[x := ss[x]] == ss;
  }

  lemma AttemptSteps(ss: Sessions, i: nat, x: nat, outcome: Outcome)
    requires x in ss ==> ss[x].owner == Idle(i)
    ensures var q := TryLockQuery(Taken(ss, i, x), x, outcome);
            Run(State(map[i := Follower], ss), [Connect(i, x), TryLock(i, outcome), Return(i)]) ==
            if q.1 == Some(true) then State(map[i := Leading(x)], q.0) else State(map[i := Follower], Release(q.0, i, x))
  {
    var s := State(map[i := Follower], ss);
    RunThree(s, Connect(i, x), TryLock(i, outcome), Return(i));
    var s1 := Next(s, Connect(i, x));
    assert s1 == State(map[i := Trying(x)], Taken(ss, i, x));
    LockSteps(s1.sessions, i, x, outcome);
  }

  /** What the environment decides during one turn of the loop. */
  datatype Turn = Turn(cancelled: bool, choice: Option<nat>, lock: Outcome, woken: bool, ping: bool, unlock: Outcome)

  lemma RunThree(s: State, a: Step, b: Step, c: Step)
    ensures Run(s, [a, b, c]) == Next(Next(Next(s, a), b), c)
  {
    RunTwo(Next(s, a), b, c);
    assert [a, b, c][1..] == [b, c];
  }

  function AcquireSteps(i: nat, choice: Option<nat>, outcome: Outcome): seq<Step> {
    if choice.None? then [] else [Connect(i, choice.value), TryLock(i, outcome), Return(i)]
  }

  function ReleaseSteps(i: nat, outcome: Outcome): seq<Step> {
    [Demote(i), Unlock(i, outcome), Return(i)]
  }

  lemma Extended(s: State, steps: seq<Step>, more: seq<Step>)
    ensures Run(s, steps + more) == Run(Run(s, steps), more)
    ensures NoRefusal(steps) && NoRefusal(more) ==> NoRefusal(steps + more)
  {
    RunConcat(s, steps, more);
  }

  lemma SafeSteps(i: nat, choice: Option<nat>, outcome: Outcome)
    ensures NoRefusal(AcquireSteps(i, choice, outcome))
    ensures outcome != Refused ==> NoRefusal(ReleaseSteps(i, outcome))
  {
  }

  // ---- what a turn means ----

  /** The pool can hand out the session: a new one, or one that lies in it. */
  predicate Offered(ss: Sessions, i: nat, x: nat) {
    x in ss ==> ss[x].owner == Idle(i)
  }

  predicate Usable(ss: Sessions, i: nat, x: nat) {
    x in ss ==> ss[x].owner == Idle(i) && ss[x].alive
  }

  predicate FreeFor(ss: Sessions, x: nat) {
    forall y :: y in ss && y != x ==> ss[y].held == 0
  }

  /** An attempt succeeds on a usable session when no other one holds the lock and the
      query is answered. */
  predicate Wins(ss: Sessions, i: nat, choice: Option<nat>, outcome: Outcome) {
    choice.Some? && Usable(ss, i, choice.value) && FreeFor(ss, choice.value) && outcome == Answered
  }

  function HeldBy(ss: Sessions, x: nat): nat {
    if x in ss then ss[x].held else 0
  }

  /** The session it then leads on. */
  function Won(ss: Sessions, i: nat, x: nat): Sessions {
    ss[x := Session(Used(i), true, HeldBy(ss, x) + 1)]
  }

  /** A session is handed back by an attempt in vain, or discarded when its connection
      broke; a lock may then be held there for nobody. */
  function Tried(ss: Sessions, i: nat, choice: Option<nat>, outcome: Outcome): Sessions {
    if choice.None? || !Offered(ss, i, choice.value) then ss
    else
      var x, held := choice.value, HeldBy(ss, choice.value);
      if x in ss && !ss[x].alive then ss[x := Session(Dropped, false, held)]
      else if outcome.Lost? then ss[x := Session(Dropped, true, if outcome.effect && FreeFor(ss, x) then held + 1 else held)]
      else ss[x := Session(Idle(i), true, held)]
  }

  /** The session after its unlock: the lock is gone when the query took effect. */
  function Unlocked(session: Session, i: nat, outcome: Outcome): Session {
    var left := if session.held > 0 then session.held - 1 else 0;
    if !session.alive then session.(owner := Dropped)
    else
      match outcome
      case Answered => Session(Idle(i), true, left)
      case Lost(effect) => Session(Dropped, true, if effect then left else session.held)
      case Refused => session.(owner := Idle(i))
  }

  function LeaderState(i: nat, x: nat, ss: Sessions): State {
    State(map[i := Leading(x)], ss)
  }

  function FollowerState(i: nat, ss: Sessions): State {
    State(map[i := Follower], ss)
  }

  /** The rest of a turn of an instance that leads: it stops when it is not woken again,
      stays leader as it is when its ping succeeds, and otherwise gives up and unlocks. */
  ghost predicate KeepsOn(i: nat, x: nat, ss: Sessions, turn: Turn, t: State, stop: bool) {
    x in ss && stop == !turn.woken &&
    t == if turn.woken && !turn.ping then FollowerState(i, ss[x := Unlocked(ss[x], i, turn.unlock)]) else LeaderState(i, x, ss)
  }

  /** One turn: nothing once cancelled; a follower leads when its attempt wins. */
  ghost predicate TurnTaken(i: nat, s: State, turn: Turn, t: State, stop: bool) {
    if turn.cancelled then t == s && stop
    else
      match PhaseOf(s, i)
      case Leading(x) => KeepsOn(i, x, s.sessions, turn, t, stop)
      case _ =>
        if Wins(s.sessions, i, turn.choice, turn.lock) then
          KeepsOn(i, turn.choice.value, Won(s.sessions, i, turn.choice.value), turn, t, stop)
        else stop == !turn.woken && t == FollowerState(i, Tried(s.sessions, i, turn.choice, turn.lock))
  }

  /** What follows from one turn for leadership: a follower on a usable session leads
      when the lock is free and the query answered; a leader keeps everything as it is
      while its ping succeeds, and has unlocked its session when an answered unlock
      follows a failed ping. */
  lemma TurnMeans(i: nat, s: State, turn: Turn, t: State, stop: bool, x: nat)
    requires TurnTaken(i, s, turn, t, stop) && !turn.cancelled && turn.woken
    ensures !stop
    ensures PhaseOf(s, i) == Follower && turn.choice == Some(x) && x !in s.sessions && turn.lock == Answered && turn.ping
            && (forall y :: y in s.sessions ==> s.sessions[y].held == 0) ==>
              PhaseOf(t, i) == Leading(x) && t.sessions == s.sessions[x := Session(Used(i), true, 1)]
    ensures PhaseOf(s, i) == Follower && (turn.choice == None || turn.lock != Answered) ==> PhaseOf(t, i) == Follower
    ensures PhaseOf(s, i) == Leading(x) && turn.ping ==> PhaseOf(t, i) == Leading(x) && t.sessions == s.sessions
    ensures PhaseOf(s, i) == Leading(x) && !turn.ping && x in s.sessions && s.sessions[x].alive && s.sessions[x].held == 1 && turn.unlock == Answered ==>
              PhaseOf(t, i) == Follower && t.sessions == s.sessions[x := Session(Idle(i), true, 0)]
  {
  }

  /** The states between the turns; the turn that stops the loop is the last. */
  ghost predicate TurnsTaken(i: nat, trace: seq<State>, turns: seq<Turn>, stopped: bool) {
    && 1 <= |trace| <= |turns| + 1 && (!stopped ==> |trace| == |turns| + 1)
    && (forall k :: 0 <= k < |trace| - 1 ==> TurnTaken(i, trace[k], turns[k], trace[k + 1], stopped && k == |trace| - 2))
  }

  /** The state after the final release. */
  function Released(i: nat, s: State, outcome: Outcome): State {
    var p := PhaseOf(s, i);
    if p.Leading? && p.session in s.sessions
    then FollowerState(i, s.sessions[p.session := Unlocked(s.sessions[p.session], i, outcome)])
    else s
  }

  lemma TurnAdded(i: nat, trace: seq<State>, turns: seq<Turn>, k: nat, t: State, stop: bool)
    requires k < |turns| && |trace| == k + 1 && TurnsTaken(i, trace, turns[..k], false)
    requires TurnTaken(i, trace[k], turns[k], t, stop)
    ensures TurnsTaken(i, trace + [t], turns[..k + 1], stop) && (stop ==> TurnsTaken(i, trace + [t], turns, true))
  {
    var longer := trace + [t];
    forall j | 0 <= j < |longer| - 1
      ensures TurnTaken(i, longer[j], turns[j], longer[j + 1], stop && j == |longer| - 2)
    {
      assert j < k ==> TurnTaken(i, trace[j], turns[..k][j], trace[j + 1], false);
    }
  }

  /** What connecting, asking and handing back leave of the sessions. */
  lemma QueryMeans(ss: Sessions, i: nat, x: nat, outcome: Outcome)
    requires Offered(ss, i, x)
    ensures var q := TryLockQuery(Taken(ss, i, x), x, outcome);
            && (q.1 == Some(true) <==> Wins(ss, i, Some(x), outcome))
            && (q.1 == Some(true) ==> q.0 == Won(ss, i, x))
            && (q.1 != Some(true) ==> x in q.0 && Release(q.0, i, x) == Tried(ss, i, Some(x), outcome))
  {
    var taken := Taken(ss, i, x);
    assert Grantable(State(map[], taken), x) <==> FreeFor(ss, x) by {
      assert forall y :: y != x ==> (y in taken <==> y in ss) && (y in ss ==> taken[y] == ss[y]);
    }
  }

  lemma UnlockMeans(ss: Sessions, i: nat, x: nat, outcome: Outcome)
    requires x in ss && ss[x].owner == Used(i)
    ensures x in UnlockQuery(ss, x, outcome)
    ensures Release(UnlockQuery(ss, x, outcome), i, x) == ss[x := Unlocked(ss[x], i, outcome)]
  {
  }

  class Elector {
    const id: nat
    var conn: Option<nat>
    var isLeader: bool
    /** The database's sessions, of which this instance uses one at a time. */
    var sessions: Sessions

    constructor (id: nat, sessions: Sessions)
      ensures this.id == id && !isLeader && this.sessions == sessions && Valid()
    {
      this.id, this.conn, this.isLeader, this.sessions := id, None, false, sessions;
    }

    ghost predicate Valid()
      reads this
    {
      && (isLeader <==> conn.Some?)
      && (conn.Some? ==> conn.value in sessions && sessions[conn.value].owner == Used(id))
    }

    /** This instance and the database, as the state machine sees them. */
    ghost function View(): State
      reads this
    {
      State(map[id := if conn.Some? then Leading(conn.value) else Follower], sessions)
    }

    /** An attempt is the machine's connect, query and hand-back. */
    method TryAcquire(choice: Option<nat>, outcome: Outcome) returns (ok: bool)
      requires Valid() && !isLeader
      modifies this
      ensures Valid() && ok == isLeader
      ensures ok <==> Wins(old(sessions), id, choice, outcome)
      ensures ok ==> conn == choice && sessions == Won(old(sessions), id, choice.value)
      ensures !ok ==> sessions == Tried(old(sessions), id, choice, outcome)
      ensures View() == Run(old(View()), AcquireSteps(id, choice, outcome))
    {
      if choice.None? {
        return false;
      }
      var x := choice.value;
      if x in sessions && sessions[x].owner != Idle(id) {
        RunThree(View(), Connect(id, x), TryLock(id, outcome), Return(id));
        return false;
      }
      AttemptSteps(sessions, id, x, outcome);
      QueryMeans(sessions, id, x, outcome);
      sessions := Taken(sessions, id, x);
      var q := TryLockQuery(sessions, x, outcome);
      sessions := q.0;
      if q.1 != Some(true) {
        sessions := Release(sessions, id, x);
        return false;
      }
      conn := Some(x);
      isLeader := true;
      return true;
    }

    /** A release is the machine's demotion, unlock and hand-back; afterwards the
        instance neither leads nor keeps a session, whatever the unlock did. */
    method ReleaseIfLeader(outcome: Outcome)
      requires Valid()
      modifies this
      ensures Valid() && !isLeader
      ensures View() == Released(id, old(View()), outcome)
      ensures View() == Run(old(View()), ReleaseSteps(id, outcome))
    {
      RunThree(View(), Demote(id), Unlock(id, outcome), Return(id));
      if !isLeader {
        return;
      }
      isLeader := false;
      if conn.Some? {
        var x := conn.value;
        UnlockMeans(sessions, id, x, outcome);
        sessions := UnlockQuery(sessions, x, outcome);
        sessions := Release(sessions, id, x);
        conn := None;
      }
    }

    /** One turn of the loop; `steps` are the machine's steps for it. */
    method TakeTurn(turn: Turn) returns (stop: bool, ghost steps: seq<Step>)
      requires Valid()
      modifies this
      ensures Valid()
      ensures TurnTaken(id, old(View()), turn, View(), stop)
      ensures View() == Run(old(View()), steps) && (turn.unlock != Refused ==> NoRefusal(steps))
    {
      steps := [];
      if turn.cancelled {
        return true, steps;
      }
      if !isLeader {
        var ok := TryAcquire(turn.choice, turn.lock);
        SafeSteps(id, turn.choice, turn.lock);
        steps := AcquireSteps(id, turn.choice, turn.lock);
        if !ok {
          return !turn.woken, steps;
        }
      }
      if !turn.woken {
        return true, steps;
      }
      if isLeader && !turn.ping {
        Extended(old(View()), steps, ReleaseSteps(id, turn.unlock));
        SafeSteps(id, None, turn.unlock);
        ReleaseIfLeader(turn.unlock);
        steps := steps + ReleaseSteps(id, turn.unlock);
      }
      return false, steps;
    }

    /** The loop takes the turns one after the other until one stops it, and ends without
        leadership. Altogether that is a sequence of steps of the machine, unsafe ones
        only where an unlock is refused. */
    method Loop(turns: seq<Turn>, final: Outcome) returns (ghost trace: seq<State>, ghost stopped: bool, ghost steps: seq<Step>)
      requires Valid()
      modifies this
      ensures Valid() && !isLeader
      ensures TurnsTaken(id, trace, turns, stopped) && trace[0] == old(View())
      ensures View() == Released(id, trace[|trace| - 1], final)
      ensures View() == Run(old(View()), steps)
      ensures final != Refused && (forall t :: t in turns ==> t.unlock != Refused) ==> NoRefusal(steps)
    {
      trace, stopped, steps := [View()], false, [];
      for i := 0 to |turns|
        invariant Valid() && !stopped && |trace| == i + 1
        invariant TurnsTaken(id, trace, turns[..i], false) && trace[0] == old(View()) && View() == trace[i]
        invariant View() == Run(old(View()), steps)
        invariant (forall t :: t in turns ==> t.unlock != Refused) ==> NoRefusal(steps)
      {
        var stop, more := TakeTurn(turns[i]);
        TurnAdded(id, trace, turns, i, View(), stop);
        Extended(old(View()), steps, more);
        trace, stopped, steps := trace + [View()], stop, steps + more;
        if stop {
          break;
        }
      }
      assert turns[..|turns|] == turns;
      ReleaseIfLeader(final);
      Extended(old(View()), steps, ReleaseSteps(id, final));
      SafeSteps(id, None, final);
      steps := steps + ReleaseSteps(id, final);
    }
  }
}
