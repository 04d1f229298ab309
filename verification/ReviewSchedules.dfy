/** Recurring review campaigns, fired by any number of replicas that all believe to lead.

    A replica lists the due schedules and fires them one by one, each in a transaction:
    claim the row with a conditional UPDATE, insert the campaign and its items, commit.
    NOW() is the time the transaction began; the next run is computed from the replica's
    own clock. An updated row stays locked until its transaction ends. Times are seconds. */
module ReviewSchedules {

  const DAY := 86400

  function CadenceSeconds(cadence: string): (r: int)
    ensures r >= 7 * DAY
    ensures r == (match cadence case "weekly" => 604800 case "quarterly" => 7776000 case _ => 2592000)
  {
    if cadence == "weekly" then 7 * DAY
    else if cadence == "monthly" then 30 * DAY
    else if cadence == "quarterly" then 90 * DAY
    else 30 * DAY
  }

  datatype Row = Row(name: string, cadence: string, org: string, creator: string, enabled: bool, next: int, last: int)

  /** An app assignment, with the organisation the app belongs to. */
  datatype Grant = Grant(user: string, app: string, org: string)

  /** Which replica committed a campaign, on which of its passes, and whether it learnt
      that the commit succeeded. */
  datatype Origin = Origin(replica: nat, pass: nat, answered: bool)

  /** `at` is the transaction's NOW(). `seen` and `origin` are history: all grants when the
      items were taken, and where the campaign comes from. */
  datatype Campaign = Campaign(schedule: nat, name: string, creator: string, org: string, cadence: string,
                               at: int, items: set<Grant>, seen: set<Grant>, origin: Origin)

  /** A claim that affected no row. */
  datatype Loss = Loss(replica: nat, pass: nat, schedule: nat)

  /** What the due query returns of a schedule. */
  datatype Due = Due(id: nat, name: string, cadence: string, org: string, creator: string)

  /** A transaction on one due schedule: its NOW() and its replica's clock. */
  datatype Tx = Tx(due: Due, at: int, app: int)

  datatype Phase =
    | Looping
    | Begun(tx: Tx)
    | Claimed(tx: Tx)
    | Filled(tx: Tx, seen: set<Grant>)

  /** `pass` is history: how often the replica has listed the due schedules. */
  datatype Replica = Replica(todo: seq<Due>, phase: Phase, created: nat, pass: nat)

  /** `losses` is history: all claims that affected no row. */
  datatype State = State(rows: map<nat, Row>, used: set<nat>, grants: set<Grant>, campaigns: seq<Campaign>,
                         replicas: map<nat, Replica>, clock: int, losses: seq<Loss>)

  datatype Step =
    | Create(id: nat, row: Row)
    | Update(id: nat, name: string, enabled: bool)
    | Delete(id: nat)
    | Regrant(grants: set<Grant>)
    | Tick(dt: nat)
    | List(replica: nat, due: seq<Due>)
    | Begin(replica: nat, app: int)
    | Claim(replica: nat)
    | Fill(replica: nat)
    | Commit(replica: nat, answered: bool)
    | Abort(replica: nat)

  function OrgGrants(grants: set<Grant>, org: string): set<Grant> {
    set g | g in grants && g.org == org
  }

  function TxOf(p: Phase): set<Tx> {
    match p
    case Looping => {}
    case Begun(tx) => {tx}
    case Claimed(tx) => {tx}
    case Filled(tx, _) => {tx}
  }

  /** The replica holds the lock on the schedule's row. */
  predicate Locks(r: Replica, id: nat) {
    (r.phase.Claimed? || r.phase.Filled?) && r.phase.tx.due.id == id
  }

  ghost predicate Locked(s: State, id: nat) {
    exists w :: w in s.replicas && Locks(s.replicas[w], id)
  }

  function Put(s: State, w: nat, r: Replica): State {
    s.(replicas := s.replicas[w := r])
  }

  ghost predicate IsDue(s: State, d: Due) {
    && d.id in s.rows && s.rows[d.id].enabled && s.rows[d.id].next <= s.clock
    && d == DueOf(d.id, s.rows[d.id])
  }

  function DueOf(id: nat, row: Row): Due {
    Due(id, row.name, row.cadence, row.org, row.creator)
  }

  function CampaignOf(tx: Tx, seen: set<Grant>, origin: Origin): Campaign {
    Campaign(tx.due.id, tx.due.name, tx.due.creator, tx.due.org, tx.due.cadence, tx.at, OrgGrants(seen, tx.due.org), seen, origin)
  }

  /** A replica's clock may lag behind the database's by at most `skew`; a schedule is
      created with its first run a cadence after such a clock. */
  ghost predicate Enabled(skew: nat, s: State, step: Step) {
    match step
    case Create(id, row) => id !in s.used && row.next - CadenceSeconds(row.cadence) >= s.clock - skew
    case Update(id, _, _) => id in s.rows && !Locked(s, id)
    case Delete(id) => id in s.rows && !Locked(s, id)
    case Regrant(_) => true
    case Tick(_) => true
    case List(w, due) =>
      && (w in s.replicas ==> s.replicas[w].phase == Looping)
      && (forall d :: d in due ==> IsDue(s, d))
    case Begin(w, app) => w in s.replicas && s.replicas[w].phase == Looping && s.replicas[w].todo != [] && app >= s.clock - skew
    case Claim(w) => w in s.replicas && s.replicas[w].phase.Begun? && !Locked(s, s.replicas[w].phase.tx.due.id)
    case Fill(w) => w in s.replicas && s.replicas[w].phase.Claimed?
    case Commit(w, _) => w in s.replicas && s.replicas[w].phase.Filled? && s.replicas[w].phase.tx.due.id in s.rows
    case Abort(w) => w in s.replicas && s.replicas[w].phase != Looping
  }

  /** UPDATE ... WHERE enabled AND next_run_at <= NOW(). */
  predicate Claims(s: State, tx: Tx) {
    tx.due.id in s.rows && s.rows[tx.due.id].enabled && s.rows[tx.due.id].next <= tx.at
  }

  function DoClaim(s: State, w: nat, r: Replica): State
    requires r.phase.Begun?
  {
    if Claims(s, r.phase.tx) then Put(s, w, r.(phase := Claimed(r.phase.tx)))
    else
      Put(s, w, r.(phase := Looping, created := r.created + 1)).(losses := s.losses + [Loss(w, r.pass, r.phase.tx.due.id)])
  }

  function Advanced(row: Row, tx: Tx): Row {
    row.(last := tx.at, next := tx.app + CadenceSeconds(tx.due.cadence))
  }

  /** The commit takes effect; without an answer the replica counts it as failed. */
  function DoCommit(s: State, w: nat, r: Replica, answered: bool): State
    requires r.phase.Filled? && r.phase.tx.due.id in s.rows
  {
    var tx := r.phase.tx;
    var t := Put(s, w, r.(phase := Looping, created := r.created + if answered then 1 else 0));
    t.(rows := s.rows[tx.due.id := Advanced(s.rows[tx.due.id], tx)],
    campaigns := s.campaigns + [CampaignOf(tx, r.phase.seen, Origin(w, r.pass, answered))])
  }

  function PassOf(s: State, w: nat): nat {
    if w in s.replicas then s.replicas[w].pass else 0
  }

  ghost function Next(skew: nat, s: State, step: Step): State {
    if !Enabled(skew, s, step) then s
    else
      match step
      case Create(id, row) => s.(rows := s.rows[id := row], used := s.used + {id})
      case Update(id, name, enabled) => s.(rows := s.rows[id := s.rows[id].(name := name, enabled := enabled)])
      case Delete(id) => s.(rows := s.rows - {id})
      case Regrant(grants) => s.(grants := grants)
      case Tick(dt) => s.(clock := s.clock + dt)
      case List(w, due) => Put(s, w, Replica(due, Looping, 0, PassOf(s, w) + 1))
      case Begin(w, app) =>
        var r := s.replicas[w];
        Put(s, w, r.(todo := r.todo[1..], phase := Begun(Tx(r.todo[0], s.clock, app))))
      case Claim(w) => DoClaim(s, w, s.replicas[w])
      case Fill(w) =>
        var r := s.replicas[w];
        Put(s, w, r.(phase := Filled(r.phase.tx, s.grants)))
      case Commit(w, answered) => DoCommit(s, w, s.replicas[w], answered)
      case Abort(w) => Put(s, w, s.replicas[w].(phase := Looping))
  }

  lemma RunFour(skew: nat, s: State, a: Step, b: Step, c: Step, d: Step)
    ensures Run(skew, s, [a, b, c, d]) == Next(skew, Next(skew, Next(skew, Next(skew, s, a), b), c), d)
  {
    var s1 := Next(skew, s, a);
    var s2 := Next(skew, s1, b);
    var s3 := Next(skew, s2, c);
    assert [a, b, c, d][1..] == [b, c, d] && [b, c, d][1..] == [c, d] && [c, d][1..] == [d] && [d][1..] == [];
    assert Run(skew, s3, [d]) == Run(skew, Next(skew, s3, d), []);
    assert Run(skew, s2, [c, d]) == Run(skew, s3, [d]);
    assert Run(skew, s1, [b, c, d]) == Run(skew, s2, [c, d]);
  }

  lemma {:induction false} RunConcat(skew: nat, s: State, first: seq<Step>, second: seq<Step>)
    ensures Run(skew, s, first + second) == Run(skew, Run(skew, s, first), second)
    decreases |first|
  {
    if first == [] {
      assert first + second == second;
    } else {
      assert (first + second)[0] == first[0] && (first + second)[1..] == first[1..] + second;
      RunConcat(skew, Next(skew, s, first[0]), first[1..], second);
    }
  }

  ghost function Run(skew: nat, s: State, steps: seq<Step>): State
    decreases |steps|
  {
    if steps == [] then s else Run(skew, Next(skew, s, steps[0]), steps[1..])
  }

  function Start(clock: int): State {
    State(map[], {}, {}, [], map[], clock, [])
  }

  // ---- the invariant ----

  /** A due entry still describes the schedule's fixed columns, if the schedule exists. */
  predicate DueOk(rows: map<nat, Row>, used: set<nat>, d: Due) {
    d.id in used && (d.id in rows ==> rows[d.id].cadence == d.cadence && rows[d.id].org == d.org)
  }

  predicate ReplicaOk(skew: nat, rows: map<nat, Row>, used: set<nat>, r: Replica) {
    && (forall d :: d in r.todo ==> DueOk(rows, used, d))
    && (forall tx :: tx in TxOf(r.phase) ==> DueOk(rows, used, tx.due) && tx.app >= tx.at - skew)
    && (r.phase.Claimed? || r.phase.Filled? ==> r.phase.tx.due.id in rows && rows[r.phase.tx.due.id].next <= r.phase.tx.at)
  }

  /** The schedule's next run lies a cadence after every campaign it has had. */
  predicate CampaignOk(skew: nat, rows: map<nat, Row>, used: set<nat>, c: Campaign) {
    && c.schedule in used
    && c.items == OrgGrants(c.seen, c.org)
    && (c.schedule in rows ==>
          && rows[c.schedule].cadence == c.cadence && rows[c.schedule].org == c.org
          && rows[c.schedule].next >= c.at + CadenceSeconds(c.cadence) - skew)
  }

  predicate Apart(skew: nat, a: Campaign, b: Campaign) {
    a.schedule == b.schedule ==> a.cadence == b.cadence && a.org == b.org && b.at >= a.at + CadenceSeconds(a.cadence) - skew
  }

  ghost predicate AllApart(skew: nat, cs: seq<Campaign>) {
    forall i, j :: 0 <= i < j < |cs| ==> Apart(skew, cs[i], cs[j])
  }

  ghost predicate RowsUsed(s: State) {
    forall id :: id in s.rows ==> id in s.used
  }

  ghost predicate ReplicasOk(skew: nat, s: State) {
    forall w :: w in s.replicas ==> ReplicaOk(skew, s.rows, s.used, s.replicas[w])
  }

  ghost predicate CampaignsOk(skew: nat, s: State) {
    forall c :: c in s.campaigns ==> CampaignOk(skew, s.rows, s.used, c)
  }

  ghost predicate OneLock(s: State) {
    forall v, w, id :: v in s.replicas && w in s.replicas && Locks(s.replicas[v], id) && Locks(s.replicas[w], id) ==> v == w
  }

  /** A skew as long as the shortest cadence would leave nothing to promise. */
  ghost predicate Inv(skew: nat, s: State) {
    match s
    case State(_, _, _, campaigns, _, _, _) =>
      skew < 7 * DAY && RowsUsed(s) && ReplicasOk(skew, s) && CampaignsOk(skew, s) && OneLock(s) && AllApart(skew, campaigns)
  }

  /** The rows may change where nobody holds the lock, as long as fixed columns and the
      next run stay; schedules may come with new ids and go. */
  ghost predicate RowsEvolve(s: State, rows: map<nat, Row>, used: set<nat>) {
    && s.used <= used
    && (forall id :: id in rows ==> id in used)
    && (forall id :: id in rows && id in s.used ==>
          id in s.rows && rows[id].cadence == s.rows[id].cadence && rows[id].org == s.rows[id].org && rows[id].next == s.rows[id].next)
    && (forall id :: id in s.rows && Locked(s, id) ==> id in rows && rows[id] == s.rows[id])
  }

  lemma InvRows(skew: nat, s: State, rows: map<nat, Row>, used: set<nat>)
    requires Inv(skew, s) && RowsEvolve(s, rows, used)
    ensures Inv(skew, s.(rows := rows, used := used))
  {
    forall w | w in s.replicas
      ensures ReplicaOk(skew, rows, used, s.replicas[w])
    {
      var r := s.replicas[w];
      assert ReplicaOk(skew, s.rows, s.used, r);
      if r.phase.Claimed? || r.phase.Filled? {
        assert Locks(r, r.phase.tx.due.id);
        assert Locked(s, r.phase.tx.due.id);
      }
    }
    forall c | c in s.campaigns
      ensures CampaignOk(skew, rows, used, c)
    {
      assert CampaignOk(skew, s.rows, s.used, c);
    }
  }

  /** A replica moves without gaining a lock that another one holds. */
  lemma InvPut(skew: nat, s: State, w: nat, r: Replica)
    requires Inv(skew, s) && ReplicaOk(skew, s.rows, s.used, r)
    requires forall id :: Locks(r, id) ==> (w in s.replicas && Locks(s.replicas[w], id)) || !Locked(s, id)
    ensures Inv(skew, Put(s, w, r))
  {
  }

  lemma InvBegin(skew: nat, s: State, w: nat, app: int)
    requires Inv(skew, s) && Enabled(skew, s, Begin(w, app))
    ensures Inv(skew, Next(skew, s, Begin(w, app)))
  {
    var r := s.replicas[w];
    assert ReplicaOk(skew, s.rows, s.used, r);
    InvPut(skew, s, w, r.(todo := r.todo[1..], phase := Begun(Tx(r.todo[0], s.clock, app))));
  }

  lemma InvLosses(skew: nat, s: State, losses: seq<Loss>)
    requires Inv(skew, s)
    ensures Inv(skew, s.(losses := losses))
  {
  }

  lemma InvClaim(skew: nat, s: State, w: nat)
    requires Inv(skew, s) && Enabled(skew, s, Claim(w))
    ensures Inv(skew, Next(skew, s, Claim(w)))
  {
    var r := s.replicas[w];
    assert ReplicaOk(skew, s.rows, s.used, r);
    var t := DoClaim(s, w, r);
    InvPut(skew, s, w, t.replicas[w]);
    InvLosses(skew, Put(s, w, t.replicas[w]), t.losses);
  }

  lemma InvFill(skew: nat, s: State, w: nat)
    requires Inv(skew, s) && Enabled(skew, s, Fill(w))
    ensures Inv(skew, Next(skew, s, Fill(w)))
  {
    var r := s.replicas[w];
    assert ReplicaOk(skew, s.rows, s.used, r);
    InvPut(skew, s, w, r.(phase := Filled(r.phase.tx, s.grants)));
  }

  lemma InvAbort(skew: nat, s: State, w: nat)
    requires Inv(skew, s) && Enabled(skew, s, Abort(w))
    ensures Inv(skew, Next(skew, s, Abort(w)))
  {
    assert ReplicaOk(skew, s.rows, s.used, s.replicas[w]);
    InvPut(skew, s, w, s.replicas[w].(phase := Looping));
  }

  lemma InvList(skew: nat, s: State, w: nat, due: seq<Due>)
    requires Inv(skew, s) && Enabled(skew, s, List(w, due))
    ensures Inv(skew, Next(skew, s, List(w, due)))
  {
    var r := Replica(due, Looping, 0, PassOf(s, w) + 1);
    forall d | d in due
      ensures DueOk(s.rows, s.used, d)
    {
      assert IsDue(s, d);
    }
    InvPut(skew, s, w, r);
  }

  /** The advance keeps every other claim intact and stays ahead of every campaign. */
  lemma CommitRows(skew: nat, s: State, w: nat, tx: Tx)
    requires Inv(skew, s) && w in s.replicas && s.replicas[w].phase.Filled? && s.replicas[w].phase.tx == tx && tx.due.id in s.rows
    ensures var rows := s.rows[tx.due.id := Advanced(s.rows[tx.due.id], tx)];
            && (forall v :: v in s.replicas && v != w ==> ReplicaOk(skew, rows, s.used, s.replicas[v]))
            && (forall c :: c in s.campaigns ==> CampaignOk(skew, rows, s.used, c))
            && forall o :: CampaignOk(skew, rows, s.used, CampaignOf(tx, s.replicas[w].phase.seen, o))
  {
    var rows := s.rows[tx.due.id := Advanced(s.rows[tx.due.id], tx)];
    var r := s.replicas[w];
    assert ReplicaOk(skew, s.rows, s.used, r) && tx in TxOf(r.phase) && Locks(r, tx.due.id);
    forall v | v in s.replicas && v != w
      ensures ReplicaOk(skew, rows, s.used, s.replicas[v])
    {
      assert ReplicaOk(skew, s.rows, s.used, s.replicas[v]);
      assert !Locks(s.replicas[v], tx.due.id);
    }
    forall c | c in s.campaigns
      ensures CampaignOk(skew, rows, s.used, c)
    {
      assert CampaignOk(skew, s.rows, s.used, c);
    }
  }

  lemma CommitApart(skew: nat, s: State, w: nat, tx: Tx, o: Origin)
    requires Inv(skew, s) && w in s.replicas && s.replicas[w].phase.Filled? && s.replicas[w].phase.tx == tx
    ensures AllApart(skew, s.campaigns + [CampaignOf(tx, s.replicas[w].phase.seen, o)])
  {
    var c := CampaignOf(tx, s.replicas[w].phase.seen, o);
    var r := s.replicas[w];
    assert ReplicaOk(skew, s.rows, s.used, r) && tx in TxOf(r.phase);
    forall i | 0 <= i < |s.campaigns|
      ensures Apart(skew, s.campaigns[i], c)
    {
      assert CampaignOk(skew, s.rows, s.used, s.campaigns[i]);
    }
  }

  lemma InvCommit(skew: nat, s: State, w: nat, answered: bool)
    requires Inv(skew, s) && Enabled(skew, s, Commit(w, answered))
    ensures Inv(skew, DoCommit(s, w, s.replicas[w], answered))
  {
    var r := s.replicas[w];
    var t := DoCommit(s, w, r, answered);
    CommitRows(skew, s, w, r.phase.tx);
    CommitApart(skew, s, w, r.phase.tx, Origin(w, r.pass, answered));
    assert ReplicaOk(skew, s.rows, s.used, r);
    forall d | d in r.todo
      ensures DueOk(t.rows, t.used, d)
    {
      assert DueOk(s.rows, s.used, d);
    }
    assert ReplicaOk(skew, t.rows, t.used, t.replicas[w]);
  }

  lemma InvNext(skew: nat, s: State, step: Step)
    requires Inv(skew, s)
    ensures Inv(skew, Next(skew, s, step))
  {
    if Enabled(skew, s, step) {
      match step
      case Create(id, row) => InvRows(skew, s, s.rows[id := row], s.used + {id});
      case Update(id, name, enabled) => InvRows(skew, s, s.rows[id := s.rows[id].(name := name, enabled := enabled)], s.used);
      case Delete(id) => InvRows(skew, s, s.rows - {id}, s.used);
      case Regrant(_) =>
      case Tick(_) =>
      case List(w, due) => InvList(skew, s, w, due);
      case Begin(w, app) => InvBegin(skew, s, w, app);
      case Claim(w) => InvClaim(skew, s, w);
      case Fill(w) => InvFill(skew, s, w);
      case Commit(w, answered) => InvCommit(skew, s, w, answered);
      case Abort(w) => InvAbort(skew, s, w);
    }
  }

  lemma {:induction false} InvRun(skew: nat, s: State, steps: seq<Step>)
    requires Inv(skew, s)
    ensures Inv(skew, Run(skew, s, steps))
    decreases |steps|
  {
    if steps != [] {
      InvNext(skew, s, steps[0]);
      InvRun(skew, Next(skew, s, steps[0]), steps[1..]);
    }
  }
}
