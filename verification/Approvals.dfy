/** Deciding one approval request, with any number of deciders at once.

    Every UPDATE is conditional on the status it expects. A statement that reports an
    error may still be on its way and take effect at any later time, or never; a decider
    may crash at any point. The approved action itself either succeeds or has no effect. */
module Approvals {
  import opened Text

  datatype Status = Pending | Executing | Approved | Rejected

  datatype Statement = Reject | Claim | Reset | Finish

  datatype Reply = RepliedApproved | RepliedRejected | Conflict | Forbidden | ServerError | ChangedState

  datatype Phase =
    | Ready(actor: string, approve: bool)
    | Running(actor: string)
    | Executed(actor: string)
    | Failed(actor: string)
    | Late(actor: string, statement: Statement)
    | Done(reply: Reply)

  datatype Row = Row(status: Status, decidedBy: Option<string>)

  /** `executors` is history: who has carried out the action, in order. */
  datatype State = State(requester: string, row: Row, deciders: map<nat, Phase>, executors: seq<string>)

  function Start(requester: string): State {
    State(requester, Row(Pending, None), map[], [])
  }

  datatype Step =
    | Fetch(decider: nat, actor: string, approve: bool)
    | Send(decider: nat, answered: bool)
    | Execute(decider: nat, ok: bool)
    | Deliver(decider: nat)
    | Crash(decider: nat)

  function Expected(st: Statement): Status {
    match st
    case Reject => Pending
    case Claim => Pending
    case Reset => Executing
    case Finish => Executing
  }

  function Applied(st: Statement, actor: string): Row {
    match st
    case Reject => Row(Rejected, Some(actor))
    case Claim => Row(Executing, Some(actor))
    case Reset => Row(Pending, None)
    case Finish => Row(Approved, Some(actor))
  }

  function Updated(row: Row, st: Statement, actor: string): Row {
    if row.status == Expected(st) then Applied(st, actor) else row
  }

  /** The statement a decider sends next. */
  function Pendency(p: Phase): Option<Statement> {
    match p
    case Ready(_, approve) => Some(if approve then Claim else Reject)
    case Executed(_) => Some(Finish)
    case Failed(_) => Some(Reset)
    case _ => None
  }

  /** Where an answer leads, given whether a row was affected. */
  function Answered(st: Statement, actor: string, affected: bool): Phase {
    match st
    case Reject => Done(if affected then RepliedRejected else Conflict)
    case Claim => if affected then Running(actor) else Done(Conflict)
    case Reset => Done(ServerError)
    case Finish => Done(if affected then RepliedApproved else ChangedState)
  }

  function Put(s: State, d: nat, p: Phase): State {
    s.(deciders := s.deciders[d := p])
  }

  function DoFetch(s: State, d: nat, actor: string, approve: bool): State {
    Put(s, d,
        if s.row.status != Pending then Done(Conflict)
        else if actor == s.requester then Done(Forbidden)
        else Ready(actor, approve))
  }

  function DoSend(s: State, d: nat, p: Phase, st: Statement, answered: bool): State
    requires Pendency(p) == Some(st)
  {
    if answered then
      Put(s.(row := Updated(s.row, st, p.actor)), d, Answered(st, p.actor, s.row.status == Expected(st)))
    else Put(s, d, Late(p.actor, st))
  }

  function DoExecute(s: State, d: nat, actor: string, ok: bool): State {
    if ok then Put(s.(executors := s.executors + [actor]), d, Executed(actor)) else Put(s, d, Failed(actor))
  }

  function DoDeliver(s: State, d: nat, actor: string, st: Statement): State {
    Put(s.(row := Updated(s.row, st, actor)), d, Done(ServerError))
  }

  /** A step that is not enabled changes nothing. */
  function Next(s: State, step: Step): State {
    var d := step.decider;
    if d !in s.deciders then
      if step.Fetch? then DoFetch(s, d, step.actor, step.approve) else s
    else
      var p := s.deciders[d];
      match step
      case Fetch(_, _, _) => s
      case Send(_, answered) => if Pendency(p).Some? then DoSend(s, d, p, Pendency(p).value, answered) else s
      case Execute(_, ok) => if p.Running? then DoExecute(s, d, p.actor, ok) else s
      case Deliver(_) => if p.Late? then DoDeliver(s, d, p.actor, p.statement) else s
      case Crash(_) => if p.Done? then s else Put(s, d, Done(ServerError))
  }

  function Run(s: State, steps: seq<Step>): State
    decreases |steps|
  {
    if steps == [] then s else Run(Next(s, steps[0]), steps[1..])
  }

  // ---- the invariant ----

  /** The decider, or a statement it has sent, still has the claim on the request. */
  predicate Claiming(p: Phase) {
    p.Running? || p.Executed? || p.Failed? || (p.Late? && (p.statement == Reset || p.statement == Finish))
  }

  /** The decider has carried out the action and not yet recorded it. */
  predicate Unrecorded(p: Phase) {
    p.Executed? || (p.Late? && p.statement == Finish)
  }

  predicate PhaseOk(s: State, p: Phase) {
    && (!p.Done? ==> p.actor != s.requester)
    && (Claiming(p) ==> s.row.status == Executing && s.row.decidedBy == Some(p.actor))
    && (Claiming(p) ==> s.executors == if Unrecorded(p) then [p.actor] else [])
    && (p == Done(RepliedApproved) ==> s.row.status == Approved)
    && (p == Done(RepliedRejected) ==> s.row.status == Rejected)
    && p != Done(ChangedState)
  }

  predicate RowOk(s: State) {
    match s.row.status
    case Pending => s.executors == [] && s.row.decidedBy == None
    case Rejected => s.executors == [] && s.row.decidedBy.Some? && s.row.decidedBy.value != s.requester
    case Executing => |s.executors| <= 1 && s.row.decidedBy.Some? && s.row.decidedBy.value != s.requester
    case Approved => |s.executors| == 1 && s.row.decidedBy == Some(s.executors[0]) && s.executors[0] != s.requester
  }

  predicate OneClaim(s: State, d: nat, e: nat) {
    d in s.deciders && e in s.deciders && Claiming(s.deciders[d]) && Claiming(s.deciders[e]) ==> d == e
  }

  ghost predicate Inv(s: State) {
    && RowOk(s)
    && (forall d :: d in s.deciders ==> PhaseOk(s, s.deciders[d]))
    && (forall d, e :: OneClaim(s, d, e))
  }

  /** A decider moves; if the row or the executions change, it is the one with the claim,
      or nobody has one and no decider was told a final status. */
  lemma InvPut(s: State, t: State, d: nat, p: Phase)
    requires Inv(s) && t == State(s.requester, t.row, s.deciders[d := p], t.executors)
    requires RowOk(t) && PhaseOk(t, p)
    requires t.row != s.row || t.executors != s.executors ==>
               && (s.row.status == Pending || (d in s.deciders && Claiming(s.deciders[d])))
    requires Claiming(p) ==> s.row.status == Pending || (d in s.deciders && Claiming(s.deciders[d]))
    ensures Inv(t)
  {
    forall e | e in t.deciders
      ensures PhaseOk(t, t.deciders[e])
    {
      if e != d {
        assert PhaseOk(s, s.deciders[e]);
        assert OneClaim(s, d, e);
        if d in s.deciders {
          assert PhaseOk(s, s.deciders[d]);
        }
      }
    }
    forall e, f
      ensures OneClaim(t, e, f)
    {
      assert OneClaim(s, e, f) && OneClaim(s, d, f) && OneClaim(s, e, d);
      if e in s.deciders { assert PhaseOk(s, s.deciders[e]); }
      if f in s.deciders { assert PhaseOk(s, s.deciders[f]); }
    }
  }

  lemma InvSend(s: State, d: nat, answered: bool)
    requires Inv(s) && d in s.deciders && Pendency(s.deciders[d]).Some?
    ensures Inv(Next(s, Send(d, answered)))
  {
    var p := s.deciders[d];
    assert PhaseOk(s, p);
    var t := DoSend(s, d, p, Pendency(p).value, answered);
    InvPut(s, t, d, t.deciders[d]);
  }

  lemma InvExecute(s: State, d: nat, ok: bool)
    requires Inv(s) && d in s.deciders && s.deciders[d].Running?
    ensures Inv(Next(s, Execute(d, ok)))
  {
    assert PhaseOk(s, s.deciders[d]);
    var t := Next(s, Execute(d, ok));
    InvPut(s, t, d, t.deciders[d]);
  }

  lemma InvDeliver(s: State, d: nat)
    requires Inv(s) && d in s.deciders && s.deciders[d].Late?
    ensures Inv(Next(s, Deliver(d)))
  {
    assert PhaseOk(s, s.deciders[d]);
    var t := Next(s, Deliver(d));
    InvPut(s, t, d, t.deciders[d]);
  }

  lemma InvNext(s: State, step: Step)
    requires Inv(s)
    ensures Inv(Next(s, step))
  {
    var d := step.decider;
    match step
    case Fetch(_, actor, approve) =>
      if d !in s.deciders {
        var t := DoFetch(s, d, actor, approve);
        InvPut(s, t, d, t.deciders[d]);
      }
    case Send(_, answered) => if d in s.deciders && Pendency(s.deciders[d]).Some? { InvSend(s, d, answered); }
    case Execute(_, ok) => if d in s.deciders && s.deciders[d].Running? { InvExecute(s, d, ok); }
    case Deliver(_) => if d in s.deciders && s.deciders[d].Late? { InvDeliver(s, d); }
    case Crash(_) =>
      if d in s.deciders && !s.deciders[d].Done? {
        var t := Next(s, step);
        InvPut(s, t, d, t.deciders[d]);
      }
  }

  lemma {:induction false} InvRun(s: State, steps: seq<Step>)
    requires Inv(s)
    ensures Inv(Run(s, steps))
    decreases |steps|
  {
    if steps != [] {
      InvNext(s, steps[0]);
      InvRun(Next(s, steps[0]), steps[1..]);
    }
  }

  /** In every run: at most one execution in flight, at most one that ever succeeds, one
      if approved and none if rejected, the decider on record is the one who executed and
      never the requester, nobody is told of a changed state, and what deciders are told
      is what the row says. */
  lemma DecisionsAreSafe(requester: string, steps: seq<Step>)
    ensures var s := Run(Start(requester), steps);
            && |s.executors| <= 1
            && (s.row.status == Approved ==> |s.executors| == 1 && s.row.decidedBy == Some(s.executors[0]))
            && (s.row.status == Rejected || s.row.status == Pending ==> s.executors == [])
            && (s.row.decidedBy.Some? <==> s.row.status != Pending)
            && (s.row.decidedBy.Some? ==> s.row.decidedBy.value != requester)
            && (forall d, e :: d in s.deciders && e in s.deciders && s.deciders[d].Running? && s.deciders[e].Running? ==> d == e)
            && (forall d :: d in s.deciders ==> s.deciders[d] != Done(ChangedState))
            && (Done(RepliedApproved) in s.deciders.Values ==> s.row.status == Approved)
            && (Done(RepliedRejected) in s.deciders.Values ==> s.row.status == Rejected)
  {
    InvRun(Start(requester), steps);
    var s := Run(Start(requester), steps);
    assert s.requester == requester by { RequesterStays(Start(requester), steps); }
    forall d, e | d in s.deciders && e in s.deciders && s.deciders[d].Running? && s.deciders[e].Running?
      ensures d == e
    {
      assert OneClaim(s, d, e);
    }
    assert forall d :: d in s.deciders ==> PhaseOk(s, s.deciders[d]);
  }

  lemma {:induction false} RequesterStays(s: State, steps: seq<Step>)
    ensures Run(s, steps).requester == s.requester
    decreases |steps|
  {
    if steps != [] {
      RequesterStays(Next(s, steps[0]), steps[1..]);
    }
  }

  // ---- what is final ----

  /** No decider can still change the row. */
  predicate Settled(s: State) {
    s.row.status == Approved || s.row.status == Rejected || (s.row.status == Executing && forall d :: d in s.deciders ==> !Claiming(s.deciders[d]))
  }

  lemma SettledNext(s: State, step: Step)
    requires Inv(s) && Settled(s)
    ensures Settled(Next(s, step)) && Next(s, step).row == s.row && Next(s, step).executors == s.executors
  {
    if step.decider in s.deciders {
      assert PhaseOk(s, s.deciders[step.decider]);
    }
  }

  /** An approved or rejected request stays as it is in every continuation; and so does
      one left in execution by a decider that crashed or lost its claim's answer: nobody
      can take it up again. */
  lemma {:induction false} SettledForever(s: State, steps: seq<Step>)
    requires Inv(s) && Settled(s)
    ensures Run(s, steps).row == s.row && Run(s, steps).executors == s.executors
    decreases |steps|
  {
    if steps != [] {
      SettledNext(s, steps[0]);
      InvNext(s, steps[0]);
      SettledForever(Next(s, steps[0]), steps[1..]);
    }
  }

  /** Losing a decider that holds the claim, in whatever phase, strands the request. */
  lemma CrashStrands(s: State, d: nat)
    requires Inv(s) && d in s.deciders && Claiming(s.deciders[d])
    ensures var t := Next(s, Crash(d)); Settled(t) && t.row.status == Executing
  {
    assert PhaseOk(s, s.deciders[d]);
    var t := Next(s, Crash(d));
    forall e | e in t.deciders
      ensures !Claiming(t.deciders[e])
    {
      assert OneClaim(s, d, e);
    }
  }

  lemma RunOne(s: State, a: Step)
    ensures Run(s, [a]) == Next(s, a)
  {
    assert Run(Next(s, a), []) == Next(s, a);
  }

  lemma RunTwo(s: State, a: Step, b: Step)
    ensures Run(s, [a, b]) == Next(Next(s, a), b)
  {
    assert [a, b][1..] == [b];
    RunOne(Next(s, a), b);
  }

  /** Whoever has the claim can bring the execution to an end. */
  lemma ClaimCanEnd(s: State, d: nat) returns (steps: seq<Step>)
    requires Inv(s) && d in s.deciders && Claiming(s.deciders[d])
    ensures Run(s, steps).row.status != Executing
  {
    assert PhaseOk(s, s.deciders[d]);
    match s.deciders[d]
    case Running(_) =>
      steps := [Execute(d, true), Send(d, true)];
      RunTwo(s, Execute(d, true), Send(d, true));
    case Late(_, _) =>
      steps := [Deliver(d)];
      RunOne(s, Deliver(d));
    case _ =>
      steps := [Send(d, true)];
      RunOne(s, Send(d, true));
  }

  /** A request in execution can leave it, by some continuation, if and only if some
      decider or a statement it has sent still has the claim. */
  lemma CanLeaveExecutionIff(s: State)
    requires Inv(s) && s.row.status == Executing
    ensures (exists steps :: Run(s, steps).row.status != Executing) <==> exists d :: d in s.deciders && Claiming(s.deciders[d])
  {
    if d :| d in s.deciders && Claiming(s.deciders[d]) {
      var steps := ClaimCanEnd(s, d);
    } else {
      forall steps
        ensures Run(s, steps).row.status == Executing
      {
        SettledForever(s, steps);
      }
    }
  }

  /** Otherwise it is not lost: a failed execution whose reset arrives is pending again,
      undecided and unexecuted. */
  lemma FailureReopens(s: State, d: nat)
    requires Inv(s) && d in s.deciders && s.deciders[d].Failed?
    ensures var t := Next(s, Send(d, true)); t.row == Row(Pending, None) && t.executors == []
    ensures Next(Next(s, Send(d, false)), Deliver(d)).row == Row(Pending, None)
  {
    assert PhaseOk(s, s.deciders[d]);
  }

  // ---- one decider, as the program writes it ----

  /** Which calls succeed: the first UPDATE, the action, and the second UPDATE. */
  datatype Outcome = Outcome(first: bool, action: bool, second: bool)

  function DecideSteps(actor: string, approve: bool, o: Outcome): seq<Step> {
    [Fetch(0, actor, approve), Send(0, o.first), Execute(0, o.action), Send(0, o.second)]
  }

  lemma RunFour(s: State, a: Step, b: Step, c: Step, d: Step)
    ensures Run(s, [a, b, c, d]) == Next(Next(Next(Next(s, a), b), c), d)
  {
    assert [a, b, c, d][1..] == [b, c, d] && [b, c, d][1..] == [c, d];
    RunTwo(Next(Next(s, a), b), c, d);
  }

  /** The decider gets as far as claiming or rejecting. */
  predicate Proceeds(row: Row, requester: string, actor: string, o: Outcome) {
    row.status == Pending && actor != requester && o.first
  }

  predicate Acts(row: Row, requester: string, actor: string, approve: bool, o: Outcome) {
    Proceeds(row, requester, actor, o) && approve && o.action
  }

  /** What is left of the row when nobody interferes. */
  function DecidedRow(row: Row, requester: string, actor: string, approve: bool, o: Outcome): Row {
    if !Proceeds(row, requester, actor, o) then row
    else if !approve then Row(Rejected, Some(actor))
    else if !o.second then Row(Executing, Some(actor))
    else if o.action then Row(Approved, Some(actor))
    else Row(Pending, None)
  }

  lemma DecidedBySteps(s: State, actor: string, approve: bool, o: Outcome)
    requires s.deciders == map[]
    ensures var t := Run(s, DecideSteps(actor, approve, o));
            && t.row == DecidedRow(s.row, s.requester, actor, approve, o)
            && t.executors == s.executors + if Acts(s.row, s.requester, actor, approve, o) then [actor] else []
  {
    RunFour(s, Fetch(0, actor, approve), Send(0, o.first), Execute(0, o.action), Send(0, o.second));
    var t := Next(Next(s, Fetch(0, actor, approve)), Send(0, o.first));
    FirstSteps(s, actor, approve, o);
    LastSteps(t, o);
    assert s.executors + [] == s.executors;
  }

  lemma FirstSteps(s: State, actor: string, approve: bool, o: Outcome)
    requires s.deciders == map[]
    ensures var t := Next(Next(s, Fetch(0, actor, approve)), Send(0, o.first));
            && t.executors == s.executors && 0 in t.deciders
            && if Proceeds(s.row, s.requester, actor, o) && approve then t.row == Row(Executing, Some(actor)) && t.deciders[0] == Running(actor)
               else t.row == DecidedRow(s.row, s.requester, actor, approve, o) && (t.deciders[0].Done? || t.deciders[0].Late?)
  {
  }

  lemma LastSteps(s: State, o: Outcome)
    requires 0 in s.deciders
    requires s.deciders[0].Running? ==> s.row == Row(Executing, Some(s.deciders[0].actor))
    ensures var t := Next(Next(s, Execute(0, o.action)), Send(0, o.second));
            match s.deciders[0]
            case Running(actor) =>
              && t.executors == s.executors + (if o.action then [actor] else [])
              && t.row == if !o.second then s.row else if o.action then Row(Approved, Some(actor)) else Row(Pending, None)
            case Done(_) => t == s
            case Late(_, _) => t == s
            case _ => true
  {
  }

  class Request {
    const requester: string
    var row: Row
    var executors: seq<string>

    constructor (requester: string)
      ensures this.requester == requester && row == Row(Pending, None) && executors == []
    {
      this.requester, row, executors := requester, Row(Pending, None), [];
    }

    ghost function View(): State
      reads this
    {
      State(requester, row, map[], executors)
    }

    method Exec(st: Statement, actor: string) returns (affected: bool)
      modifies this`row
      ensures affected <==> old(row).status == Expected(st)
      ensures row == Updated(old(row), st, actor)
    {
      affected := row.status == Expected(st);
      if affected {
        row := Applied(st, actor);
      }
    }

    /** The claimed request: act, then record the success or reopen it. */
    method Carry(actor: string, o: Outcome) returns (reply: Reply)
      requires row == Row(Executing, Some(actor))
      modifies this
      ensures reply == if o.action && o.second then RepliedApproved else ServerError
      ensures executors == old(executors) + if o.action then [actor] else []
      ensures row == if !o.second then old(row) else if o.action then Row(Approved, Some(actor)) else Row(Pending, None)
    {
      if !o.action {
        if o.second {
          var _ := Exec(Reset, actor);
        }
        return ServerError;
      }
      executors := executors + [actor];
      if !o.second {
        return ServerError;
      }
      var finished := Exec(Finish, actor);
      if !finished {
        return ChangedState;
      }
      return RepliedApproved;
    }

    /** Undisturbed, a decision goes through exactly when the request was pending, the
        decider is not the requester and every call succeeds; a failed action leaves it
        pending. Row and executions are those of the machine's four steps. */
    method Decide(actor: string, approve: bool, o: Outcome) returns (reply: Reply)
      modifies this
      ensures reply == RepliedApproved <==>
              old(row).status == Pending && actor != requester && approve && o.first && o.action && o.second
      ensures reply == RepliedRejected <==> old(row).status == Pending && actor != requester && !approve && o.first
      ensures reply == Conflict <==> old(row).status != Pending
      ensures reply == Forbidden <==> old(row).status == Pending && actor == requester
      ensures reply != ChangedState
      ensures row == DecidedRow(old(row), requester, actor, approve, o)
      ensures executors == old(executors) + if Acts(old(row), requester, actor, approve, o) then [actor] else []
      ensures var t := Run(old(View()), DecideSteps(actor, approve, o)); row == t.row && executors == t.executors
    {
      DecidedBySteps(View(), actor, approve, o);
      if row.status != Pending {
        return Conflict;
      }
      if actor == requester {
        return Forbidden;
      }
      if !approve {
        if !o.first {
          return ServerError;
        }
        var rejected := Exec(Reject, actor);
        return if rejected then RepliedRejected else Conflict;
      }
      if !o.first {
        return ServerError;
      }
      var claimed := Exec(Claim, actor);
      if !claimed {
        return Conflict;
      }
      reply := Carry(actor, o);
    }
  }
}
