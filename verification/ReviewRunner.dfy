/** One replica's pass over the due schedules, as the program writes it. */
module ReviewRunner {
  import opened Text
  import opened ReviewSchedules

  /** The statement of a transaction that fails, if any. */
  datatype Failure = NoFailure | AtBegin | AtUpdate | AtCampaign | AtItems | AtCommit

  /** What the outside decides about one transaction: its NOW(), the replica's clock, the
      failure, and the table as the other replicas have left it by then. */
  datatype Turn = Turn(at: int, app: int, failure: Failure, rows: map<nat, Row>)

  predicate RowDue(rows: map<nat, Row>, id: nat, at: int) {
    id in rows && rows[id].enabled && rows[id].next <= at
  }

  /** The transaction gets as far as its failure only while there is something to do. */
  predicate Fails(rows: map<nat, Row>, d: Due, at: int, failure: Failure) {
    failure == AtBegin || failure == AtUpdate || (failure != NoFailure && RowDue(rows, d.id, at))
  }

  predicate Fires(d: Due, turn: Turn) {
    !Fails(turn.rows, d, turn.at, turn.failure) && RowDue(turn.rows, d.id, turn.at)
  }

  /** A campaign is what the due query returned of its schedule, at the transaction's
      time, with the grants of the schedule's organisation as its items. */
  predicate IsCampaignOf(c: Campaign, d: Due, at: int, grants: set<Grant>) {
    && c.schedule == d.id && c.name == d.name && c.creator == d.creator && c.org == d.org && c.cadence == d.cadence
    && c.at == at && c.items == set g | g in grants && g.org == d.org
  }

  /** The campaigns are those of the turns that fire, one each and in order. */
  predicate AreCampaigns(cs: seq<Campaign>, due: seq<Due>, turns: seq<Turn>, grants: set<Grant>)
    requires |turns| == |due|
    decreases |due|
  {
    if due == [] then cs == []
    else
      var k := |due| - 1;
      if Fires(due[k], turns[k]) then
        && cs != [] && IsCampaignOf(cs[|cs| - 1], due[k], turns[k].at, grants)
        && AreCampaigns(cs[..|cs| - 1], due[..k], turns[..k], grants)
      else AreCampaigns(cs, due[..k], turns[..k], grants)
  }

  predicate LostRace(d: Due, turn: Turn) {
    !Fails(turn.rows, d, turn.at, turn.failure) && !RowDue(turn.rows, d.id, turn.at)
  }

  function LostRaces(due: seq<Due>, turns: seq<Turn>): (n: nat)
    requires |turns| == |due|
    ensures n == 0 <==> forall i :: 0 <= i < |due| ==> !LostRace(due[i], turns[i])
  {
    if due == [] then 0
    else
      var k := |due| - 1;
      LostRaces(due[..k], turns[..k]) + if LostRace(due[k], turns[k]) then 1 else 0
  }

  /** One more turn of the pass: its campaign, or its lost race, or neither. */
  lemma NextTurn(due: seq<Due>, turns: seq<Turn>, i: nat, before: seq<Campaign>, after: seq<Campaign>, from: nat, grants: set<Grant>)
    requires i < |due| == |turns| && from <= |before|
    requires AreCampaigns(before[from..], due[..i], turns[..i], grants)
    requires if Fires(due[i], turns[i])
             then |after| == |before| + 1 && after[..|before|] == before && IsCampaignOf(after[|before|], due[i], turns[i].at, grants)
             else after == before
    ensures AreCampaigns(after[from..], due[..i + 1], turns[..i + 1], grants)
    ensures LostRaces(due[..i + 1], turns[..i + 1]) == LostRaces(due[..i], turns[..i]) + if LostRace(due[i], turns[i]) then 1 else 0
  {
    assert due[..i + 1][..i] == due[..i] && turns[..i + 1][..i] == turns[..i];
    if Fires(due[i], turns[i]) {
      assert after[from..][..|before| - from] == before[from..];
    }
  }

  /** A transaction that does not fail either fires or has lost its schedule, which is
      gone, disabled or has been advanced beyond the transaction's time. */
  lemma LostRaceIff(d: Due, turn: Turn)
    ensures LostRace(d, turn) <==>
            && turn.failure != AtBegin && turn.failure != AtUpdate
            && (d.id in turn.rows ==> !turn.rows[d.id].enabled || turn.rows[d.id].next > turn.at)
    ensures !(LostRace(d, turn) && Fires(d, turn))
  {
  }

  class ScheduleStore {
    var rows: map<nat, Row>
    var grants: set<Grant>
    var campaigns: seq<Campaign>
    const origin: Origin

    constructor (rows: map<nat, Row>, grants: set<Grant>, origin: Origin)
      ensures this.rows == rows && this.grants == grants && campaigns == [] && this.origin == origin
    {
      this.rows, this.grants, this.campaigns, this.origin := rows, grants, [], origin;
    }

    /** All or nothing: a schedule that is still due is advanced together with its one
        campaign, or neither; one that is not is left alone without an error. */
    method Fire(d: Due, at: int, app: int, failure: Failure) returns (ok: bool)
      modifies this`rows, this`campaigns
      ensures RowDue(old(rows), d.id, at) <==> d.id in old(rows) && old(rows)[d.id].enabled && old(rows)[d.id].next <= at
      ensures ok <==> failure != AtBegin && failure != AtUpdate && (failure == NoFailure || !RowDue(old(rows), d.id, at))
      ensures ok <==> !Fails(old(rows), d, at, failure)
      ensures ok && RowDue(old(rows), d.id, at) ==>
              && rows == old(rows)[d.id := Advanced(old(rows)[d.id], Tx(d, at, app))]
              && campaigns == old(campaigns) + [CampaignOf(Tx(d, at, app), grants, origin)]
              && IsCampaignOf(campaigns[|old(campaigns)|], d, at, grants)
              && rows[d.id] == old(rows)[d.id].(last := at, next := app + CadenceSeconds(d.cadence))
      ensures !ok || !RowDue(old(rows), d.id, at) ==> rows == old(rows) && campaigns == old(campaigns)
    {
      if failure == AtBegin || failure == AtUpdate {
        return false;
      }
      var next := app + CadenceSeconds(d.cadence);
      if !RowDue(rows, d.id, at) {
        return true;
      }
      var newRows := rows[d.id := rows[d.id].(last := at, next := next)];
      if failure == AtCampaign || failure == AtItems {
        return false;
      }
      var items := OrgGrants(grants, d.org);
      var newCampaigns := campaigns + [Campaign(d.id, d.name, d.creator, d.org, d.cadence, at, items, grants, origin)];
      if failure == AtCommit {
        return false;
      }
      rows, campaigns := newRows, newCampaigns;
      return true;
    }

    /** The returned count exceeds the campaigns committed by exactly the lost races. */
    method RunDue(listed: Option<seq<Due>>, turns: seq<Turn>) returns (created: nat)
      requires listed.Some? ==> |turns| == |listed.value|
      modifies this`rows, this`campaigns
      ensures listed.None? ==> created == 0 && campaigns == old(campaigns)
      ensures listed.Some? ==> created == |campaigns| - |old(campaigns)| + LostRaces(listed.value, turns)
      ensures old(campaigns) <= campaigns
      ensures listed.Some? ==> AreCampaigns(campaigns[|old(campaigns)|..], listed.value, turns, grants)
    {
      if listed.None? {
        return 0;
      }
      var due := listed.value;
      created := 0;
      for i := 0 to |due|
        invariant old(campaigns) <= campaigns
        invariant AreCampaigns(campaigns[|old(campaigns)|..], due[..i], turns[..i], grants)
        invariant created == |campaigns| - |old(campaigns)| + LostRaces(due[..i], turns[..i])
      {
        rows := turns[i].rows;
        ghost var before := campaigns;
        var ok := Fire(due[i], turns[i].at, turns[i].app, turns[i].failure);
        NextTurn(due, turns, i, before, campaigns, |old(campaigns)|, grants);
        if !ok {
          continue;
        }
        created := created + 1;
      }
      assert due[..|due|] == due && turns[..|due|] == turns;
    }
  }
}
