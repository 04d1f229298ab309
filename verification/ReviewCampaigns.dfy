/** What the replicas guarantee over whole runs: how far campaigns are apart, that a
    schedule advances with exactly one campaign, and what the returned count means. */
module ReviewCampaigns {
  import opened ReviewSchedules

  // ---- spacing ----

  /** In every run: two campaigns of one schedule are its cadence apart, up to the clock
      skew, and each campaign holds exactly its organisation's grants. */
  lemma CampaignsAreSpaced(skew: nat, clock: int, steps: seq<Step>)
    requires skew < 7 * DAY
    ensures var cs := Run(skew, Start(clock), steps).campaigns;
            && (forall i, j :: 0 <= i < j < |cs| && cs[i].schedule == cs[j].schedule ==>
                  cs[j].at - cs[i].at >= CadenceSeconds(cs[i].cadence) - skew)
            && (forall c :: c in cs ==> c.items == OrgGrants(c.seen, c.org))
  {
    InvRun(skew, Start(clock), steps);
    var s := Run(skew, Start(clock), steps);
    forall c | c in s.campaigns
      ensures c.items == OrgGrants(c.seen, c.org)
    {
      assert CampaignOk(skew, s.rows, s.used, c);
    }
  }

  // ---- one campaign per advance ----

  predicate SameRun(s: State, t: State, id: nat) {
    id in s.rows && id in t.rows ==> t.rows[id].next == s.rows[id].next && t.rows[id].last == s.rows[id].last
  }

  /** A step commits campaigns of a schedule exactly when it advances that schedule: then
      it commits one, with the schedule's organisation and that organisation's grants,
      and otherwise it leaves campaigns and advances alone. */
  lemma AdvancedIffOneCampaign(skew: nat, s: State, step: Step, id: nat)
    requires Inv(skew, s) && id in s.rows
    ensures var t := Next(skew, s, step);
            var fired := step.Commit? && Enabled(skew, s, step) && s.replicas[step.replica].phase.tx.due.id == id;
            && (fired ==>
                  && !SameRun(s, t, id)
                  && exists c :: t.campaigns == s.campaigns + [c] && c.schedule == id && c.org == s.rows[id].org
                       && c.items == OrgGrants(s.replicas[step.replica].phase.seen, c.org) && t.rows[id].last == c.at)
            && (!fired ==> SameRun(s, t, id) && forall c :: c in t.campaigns && c !in s.campaigns ==> c.schedule != id)
  {
    if step.Commit? && Enabled(skew, s, step) {
      AdvanceMoves(skew, s, step.replica);
    }
  }

  lemma AdvanceMoves(skew: nat, s: State, w: nat)
    requires Inv(skew, s) && Enabled(skew, s, Commit(w, true))
    ensures var tx := s.replicas[w].phase.tx;
            var row, moved := s.rows[tx.due.id], Advanced(s.rows[tx.due.id], tx);
            row.org == tx.due.org && row.next <= tx.at && moved.next >= tx.at + CadenceSeconds(tx.due.cadence) - skew
  {
    var r := s.replicas[w];
    assert ReplicaOk(skew, s.rows, s.used, r) && r.phase.tx in TxOf(r.phase);
  }

  // ---- what the count means, and how tight the spacing is ----

  /** Campaigns that a replica committed on one pass, and those of them it was told of. */
  function CommittedBy(cs: seq<Campaign>, w: nat, pass: nat): nat {
    if cs == [] then 0
    else
      var o := cs[|cs| - 1].origin;
      CommittedBy(cs[..|cs| - 1], w, pass) + if o.replica == w && o.pass == pass then 1 else 0
  }

  function AnsweredBy(cs: seq<Campaign>, w: nat, pass: nat): nat {
    if cs == [] then 0
    else AnsweredBy(cs[..|cs| - 1], w, pass) + if cs[|cs| - 1].origin == Origin(w, pass, true) then 1 else 0
  }

  /** Claims that the replica lost on that pass. */
  function LostBy(ls: seq<Loss>, w: nat, pass: nat): nat {
    if ls == [] then 0
    else
      var l := ls[|ls| - 1];
      LostBy(ls[..|ls| - 1], w, pass) + if l.replica == w && l.pass == pass then 1 else 0
  }

  /** Nothing comes from a pass that has not begun. */
  predicate Happened(s: State, w: nat, pass: nat) {
    w in s.replicas && pass <= s.replicas[w].pass
  }

  ghost predicate CountInv(s: State) {
    && (forall w :: w in s.replicas ==> Counted(s, w))
    && (forall c :: c in s.campaigns ==> Happened(s, c.origin.replica, c.origin.pass))
    && (forall l :: l in s.losses ==> Happened(s, l.replica, l.pass))
  }

  /** The replica's counter is its answered commits and its lost claims of this pass. */
  predicate Counted(s: State, w: nat)
    requires w in s.replicas
  {
    var r := s.replicas[w];
    r.created == AnsweredBy(s.campaigns, w, r.pass) + LostBy(s.losses, w, r.pass)
  }

  lemma {:induction false} NoneCommitted(cs: seq<Campaign>, w: nat, pass: nat)
    requires forall c :: c in cs ==> c.origin.replica != w || c.origin.pass != pass
    ensures AnsweredBy(cs, w, pass) == 0
  {
    if cs != [] {
      NoneCommitted(cs[..|cs| - 1], w, pass);
    }
  }

  lemma {:induction false} NoneLost(ls: seq<Loss>, w: nat, pass: nat)
    requires forall l :: l in ls ==> l.replica != w || l.pass != pass
    ensures LostBy(ls, w, pass) == 0
  {
    if ls != [] {
      NoneLost(ls[..|ls| - 1], w, pass);
    }
  }

  lemma CommitCounts(cs: seq<Campaign>, c: Campaign, w: nat, pass: nat)
    ensures AnsweredBy(cs + [c], w, pass) == AnsweredBy(cs, w, pass) + if c.origin == Origin(w, pass, true) then 1 else 0
  {
    assert (cs + [c])[..|cs|] == cs;
  }

  lemma LossCounts(ls: seq<Loss>, l: Loss, w: nat, pass: nat)
    ensures LostBy(ls + [l], w, pass) == LostBy(ls, w, pass) + if l.replica == w && l.pass == pass then 1 else 0
  {
    assert (ls + [l])[..|ls|] == ls;
  }

  /** A replica moves on within its pass, and neither commits nor loses anything. */
  lemma CountMoves(s: State, t: State)
    requires CountInv(s) && t.campaigns == s.campaigns && t.losses == s.losses && t.replicas.Keys == s.replicas.Keys
    requires forall w :: w in s.replicas ==> t.replicas[w].created == s.replicas[w].created && t.replicas[w].pass == s.replicas[w].pass
    ensures CountInv(t)
  {
    forall w | w in t.replicas
      ensures Counted(t, w)
    {
      assert Counted(s, w);
    }
  }

  lemma CountList(s: State, w: nat, due: seq<Due>)
    requires CountInv(s)
    ensures CountInv(Put(s, w, Replica(due, Looping, 0, PassOf(s, w) + 1)))
  {
    var t := Put(s, w, Replica(due, Looping, 0, PassOf(s, w) + 1));
    NoneCommitted(s.campaigns, w, PassOf(s, w) + 1);
    NoneLost(s.losses, w, PassOf(s, w) + 1);
    forall v | v in t.replicas
      ensures Counted(t, v)
    {
      assert v != w ==> Counted(s, v);
    }
  }

  lemma CountClaim(s: State, w: nat)
    requires CountInv(s) && w in s.replicas && s.replicas[w].phase.Begun?
    ensures CountInv(DoClaim(s, w, s.replicas[w]))
  {
    var r := s.replicas[w];
    var t := DoClaim(s, w, r);
    if Claims(s, r.phase.tx) {
      CountMoves(s, t);
    } else {
      CountLoss(s, w, t, Loss(w, r.pass, r.phase.tx.due.id));
    }
  }

  lemma CountLoss(s: State, w: nat, t: State, l: Loss)
    requires CountInv(s) && w in s.replicas && l.replica == w && l.pass == s.replicas[w].pass
    requires t.campaigns == s.campaigns && t.losses == s.losses + [l] && w in t.replicas
    requires t.replicas == s.replicas[w := t.replicas[w]]
    requires t.replicas[w].created == s.replicas[w].created + 1 && t.replicas[w].pass == s.replicas[w].pass
    ensures CountInv(t)
  {
    forall v | v in t.replicas
      ensures Counted(t, v)
    {
      assert Counted(s, v);
      LossCounts(s.losses, l, v, t.replicas[v].pass);
    }
    forall k | k in t.losses
      ensures Happened(t, k.replica, k.pass)
    {
      assert k in s.losses || k == l;
    }
    forall c | c in t.campaigns
      ensures Happened(t, c.origin.replica, c.origin.pass)
    {
      assert Happened(s, c.origin.replica, c.origin.pass);
    }
  }

  lemma CountCommit(s: State, w: nat, answered: bool)
    requires CountInv(s) && w in s.replicas && s.replicas[w].phase.Filled? && s.replicas[w].phase.tx.due.id in s.rows
    ensures CountInv(DoCommit(s, w, s.replicas[w], answered))
  {
    var r := s.replicas[w];
    var t := DoCommit(s, w, r, answered);
    CountCampaign(s, w, t, CampaignOf(r.phase.tx, r.phase.seen, Origin(w, r.pass, answered)));
  }

  lemma CountCampaign(s: State, w: nat, t: State, c: Campaign)
    requires CountInv(s) && w in s.replicas && c.origin.replica == w && c.origin.pass == s.replicas[w].pass
    requires t.campaigns == s.campaigns + [c] && t.losses == s.losses && w in t.replicas
    requires t.replicas == s.replicas[w := t.replicas[w]] && t.replicas[w].pass == s.replicas[w].pass
    requires t.replicas[w].created == s.replicas[w].created + if c.origin.answered then 1 else 0
    ensures CountInv(t)
  {
    forall v | v in t.replicas
      ensures Counted(t, v)
    {
      assert Counted(s, v);
      CommitCounts(s.campaigns, c, v, t.replicas[v].pass);
    }
    forall k | k in t.campaigns
      ensures Happened(t, k.origin.replica, k.origin.pass)
    {
      assert k in s.campaigns || k == c;
    }
    forall l | l in t.losses
      ensures Happened(t, l.replica, l.pass)
    {
      assert Happened(s, l.replica, l.pass);
    }
  }

  lemma CountNext(skew: nat, s: State, step: Step)
    requires CountInv(s)
    ensures CountInv(Next(skew, s, step))
  {
    if Enabled(skew, s, step) {
      match step
      case List(w, due) => CountList(s, w, due);
      case Claim(w) => CountClaim(s, w);
      case Commit(w, answered) => CountCommit(s, w, answered);
      case _ => CountOther(skew, s, step);
    }
  }

  lemma CountOther(skew: nat, s: State, step: Step)
    requires CountInv(s) && !step.List? && !step.Claim? && !step.Commit?
    ensures CountInv(Next(skew, s, step))
  {
    var t := Next(skew, s, step);
    assert t.replicas.Keys == s.replicas.Keys;
    CountMoves(s, t);
  }

  lemma {:induction false} CountRun(skew: nat, s: State, steps: seq<Step>)
    requires CountInv(s)
    ensures CountInv(Run(skew, s, steps))
    decreases |steps|
  {
    if steps != [] {
      CountNext(skew, s, steps[0]);
      CountRun(skew, Next(skew, s, steps[0]), steps[1..]);
    }
  }

  lemma {:induction false} AnsweredAreCommitted(cs: seq<Campaign>, w: nat, pass: nat)
    ensures AnsweredBy(cs, w, pass) <= CommittedBy(cs, w, pass)
    ensures AnsweredBy(cs, w, pass) == CommittedBy(cs, w, pass) <==>
            forall i :: 0 <= i < |cs| ==> cs[i].origin != Origin(w, pass, false)
  {
    if cs != [] {
      var n := |cs| - 1;
      AnsweredAreCommitted(cs[..n], w, pass);
      assert forall i :: 0 <= i < n ==> cs[..n][i] == cs[i];
    }
  }

  /** The count a replica returns is the campaigns it committed on that pass and was told
      of, and the claims it lost. So, while no commit goes unanswered, it is the number of
      its campaigns if and only if it lost no claim. */
  lemma CountIncludesLostRaces(skew: nat, clock: int, steps: seq<Step>, w: nat)
    ensures var s := Run(skew, Start(clock), steps);
            w in s.replicas ==>
              var r := s.replicas[w];
              var committed := CommittedBy(s.campaigns, w, r.pass);
              && r.created == AnsweredBy(s.campaigns, w, r.pass) + LostBy(s.losses, w, r.pass)
              && r.created <= committed + LostBy(s.losses, w, r.pass)
              && ((forall c :: c in s.campaigns ==> c.origin != Origin(w, r.pass, false)) ==>
                    (r.created == committed <==> LostBy(s.losses, w, r.pass) == 0))
  {
    CountRun(skew, Start(clock), steps);
    var s := Run(skew, Start(clock), steps);
    if w in s.replicas {
      assert Counted(s, w);
      AnsweredAreCommitted(s.campaigns, w, s.replicas[w].pass);
    }
  }

  function FireSteps(w: nat, app: int): seq<Step> {
    [Begin(w, app), Claim(w), Fill(w), Commit(w, true)]
  }

  ghost predicate ReadyToFire(skew: nat, s: State, w: nat, app: int) {
    && Enabled(skew, s, Begin(w, app))
    && Claims(s, Tx(s.replicas[w].todo[0], s.clock, app))
    && !Locked(s, s.replicas[w].todo[0].id)
  }

  /** The four statements of an undisturbed transaction. */
  lemma Fires(skew: nat, s: State, w: nat, app: int)
    requires ReadyToFire(skew, s, w, app)
    ensures var r := s.replicas[w];
            var tx := Tx(r.todo[0], s.clock, app);
            Run(skew, s, FireSteps(w, app)) ==
            s.(replicas := s.replicas[w := Replica(r.todo[1..], Looping, r.created + 1, r.pass)],
            rows := s.rows[tx.due.id := Advanced(s.rows[tx.due.id], tx)],
            campaigns := s.campaigns + [CampaignOf(tx, s.grants, Origin(w, r.pass, true))])
  {
    var r := s.replicas[w];
    var tx := Tx(r.todo[0], s.clock, app);
    RunFour(skew, s, Begin(w, app), Claim(w), Fill(w), Commit(w, true));
    var r1 := r.(todo := r.todo[1..], phase := Begun(tx));
    var s1 := Put(s, w, r1);
    assert Next(skew, s, Begin(w, app)) == s1;
    forall v | v in s1.replicas
      ensures !Locks(s1.replicas[v], tx.due.id)
    {
      assert v != w ==> !Locks(s.replicas[v], tx.due.id);
    }
    assert Enabled(skew, s1, Claim(w));
    var s2 := Put(s, w, r1.(phase := Claimed(tx)));
    assert Next(skew, s1, Claim(w)) == s2;
    var s3 := Put(s, w, r1.(phase := Filled(tx, s.grants)));
    assert Next(skew, s2, Fill(w)) == s3;
  }

  function SceneRow(clock: int): Row {
    Row("access", "weekly", "org", "admin", true, clock, clock - 7 * DAY)
  }

  /** One weekly schedule, created a week ago and due now, listed by two replicas. */
  function Scene(clock: int): State {
    var listed := Replica([DueOf(0, SceneRow(clock))], Looping, 0, 1);
    Start(clock).(rows := map[0 := SceneRow(clock)], used := {0}, replicas := map[1 := listed, 2 := listed])
  }

  lemma SceneIsReached(skew: nat, clock: int) returns (steps: seq<Step>)
    ensures Run(skew, Start(clock - 7 * DAY), steps) == Scene(clock)
  {
    var row, start := SceneRow(clock), Start(clock - 7 * DAY);
    var due := [DueOf(0, row)];
    steps := [Create(0, row), Tick(7 * DAY), List(1, due), List(2, due)];
    RunFour(skew, start, Create(0, row), Tick(7 * DAY), List(1, due), List(2, due));
    var s1 := start.(rows := map[0 := row], used := {0});
    assert Next(skew, start, Create(0, row)) == s1 by {
      assert start.rows[0 := row] == map[0 := row] && start.used + {0} == {0};
    }
    var s2 := s1.(clock := clock);
    assert Next(skew, s1, Tick(7 * DAY)) == s2;
    assert forall d :: d in due ==> IsDue(s2, d);
    var s3 := Put(s2, 1, Replica(due, Looping, 0, 1));
    assert Next(skew, s2, List(1, due)) == s3;
    assert forall d :: d in due ==> IsDue(s3, d);
    assert Next(skew, s3, List(2, due)) == Scene(clock);
  }

  /** The skew is really lost: with it, two weekly campaigns can be that much closer. */
  lemma SkewIsReached(skew: nat, clock: int) returns (steps: seq<Step>)
    requires skew < 7 * DAY
    ensures var cs := Run(skew, Start(clock - 7 * DAY), steps).campaigns;
            |cs| == 2 && cs[0].schedule == cs[1].schedule && cs[1].at - cs[0].at == 7 * DAY - skew
  {
    var scene := SceneIsReached(skew, clock);
    var first := FireSteps(1, clock - skew);
    var s1 := Run(skew, Scene(clock), first);
    var later := [Tick(7 * DAY - skew)];
    var s2 := s1.(clock := clock + 7 * DAY - skew);
    SkewedFire(skew, clock);
    assert Run(skew, s1, later) == s2 by {
      assert later[1..] == [] && Run(skew, s2, []) == s2;
    }
    Fires(skew, s2, 2, s2.clock);
    steps := scene + first + later + FireSteps(2, s2.clock);
    RunConcat(skew, Start(clock - 7 * DAY), scene, first);
    RunConcat(skew, Start(clock - 7 * DAY), scene + first, later);
    RunConcat(skew, Start(clock - 7 * DAY), scene + first + later, FireSteps(2, s2.clock));
  }

  /** The first replica fires by a clock that lags; the second one is ready a week later,
      less the skew. */
  lemma SkewedFire(skew: nat, clock: int)
    requires skew < 7 * DAY
    ensures var s1 := Run(skew, Scene(clock), FireSteps(1, clock - skew));
            var s2 := s1.(clock := clock + 7 * DAY - skew);
            && |s1.campaigns| == 1 && s1.campaigns[0].schedule == 0 && s1.campaigns[0].at == clock && s1.clock == clock
            && ReadyToFire(skew, s2, 2, s2.clock) && s2.replicas[2].todo[0].id == 0
  {
    Fires(skew, Scene(clock), 1, clock - skew);
  }

  /** Two replicas that list the same due schedule both count it; there is one campaign. */
  lemma LostRaceIsCounted(skew: nat, clock: int) returns (steps: seq<Step>)
    requires skew < 7 * DAY
    ensures var s := Run(skew, Start(clock - 7 * DAY), steps);
            |s.campaigns| == 1 && {1, 2} <= s.replicas.Keys && s.replicas[1].created == 1 && s.replicas[2].created == 1
  {
    var scene := SceneIsReached(skew, clock);
    var start, fire := Start(clock - 7 * DAY), FireSteps(1, clock);
    LosesRace(skew, clock);
    steps := scene + fire + RaceSteps(clock);
    RunConcat(skew, start, scene, fire);
    RunConcat(skew, start, scene + fire, RaceSteps(clock));
  }

  function RaceSteps(clock: int): seq<Step> {
    [Begin(2, clock), Claim(2), Tick(0), Tick(0)]
  }

  lemma LosesRace(skew: nat, clock: int)
    requires skew < 7 * DAY
    ensures var s := Run(skew, Run(skew, Scene(clock), FireSteps(1, clock)), RaceSteps(clock));
            |s.campaigns| == 1 && {1, 2} <= s.replicas.Keys && s.replicas[1].created == 1 && s.replicas[2].created == 1
  {
    Fires(skew, Scene(clock), 1, clock);
    var s1 := Run(skew, Scene(clock), FireSteps(1, clock));
    RunFour(skew, s1, Begin(2, clock), Claim(2), Tick(0), Tick(0));
    var r := s1.replicas[2];
    var s2 := Put(s1, 2, r.(todo := r.todo[1..], phase := Begun(Tx(r.todo[0], clock, clock))));
    assert Next(skew, s1, Begin(2, clock)) == s2;
    assert !Locked(s2, 0) && !Claims(s2, s2.replicas[2].phase.tx);
    assert Enabled(skew, s2, Claim(2));
  }
}
