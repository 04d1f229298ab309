/** Schema migrations by any number of migrators at once.

    The advisory lock is not relied upon: migrators interleave freely, work from stale
    snapshots of the applied ids, fail and crash. A migration's statement and its row in
    schema_migrations commit together, and the row's primary key is unique. */
module Migrations {
  // ---- the list ----

  const Known: seq<int> := [1, 2, 3, 4, 5, 15, 16, 17, 20, 21, 22, 23, 28, 29, 30, 31, 32, 33, 34, 35,
                            36, 37, 38, 39, 40, 41, 42, 43, 44, 45, 46, 47, 48]

  ghost predicate Increasing(ids: seq<int>) {
    && (forall i :: 0 <= i < |ids| ==> ids[i] > 0)
    && (forall i, j :: 0 <= i < j < |ids| ==> ids[i] < ids[j])
  }

  predicate StepsUp(ids: seq<int>) {
    |ids| > 0 ==> ids[0] > 0 && forall i :: 1 <= i < |ids| ==> ids[i - 1] < ids[i]
  }

  lemma {:induction false} StepsUpIncreasing(ids: seq<int>)
    requires StepsUp(ids)
    ensures Increasing(ids)
  {
    if |ids| > 1 {
      var n := |ids| - 1;
      StepsUpIncreasing(ids[..n]);
      assert ids[n - 1] < ids[n] && ids[..n][n - 1] > 0;
      assert forall i :: 0 <= i < n ==> ids[..n][i] == ids[i] && ids[i] <= ids[n - 1];
    }
  }

  lemma KnownIncreasing()
    ensures Increasing(Known)
  {
    StepsUpIncreasing(Known);
  }

  /** The id of the last migration, 0 for an empty list. */
  function Latest(ids: seq<int>): int {
    if ids == [] then 0 else ids[|ids| - 1]
  }

  method LatestMigrationID(ids: seq<int>) returns (max: int)
    ensures forall id :: id in ids ==> id <= max
    ensures max == 0 || max in ids
    ensures Increasing(ids) ==> max == Latest(ids)
  {
    max := 0;
    for i := 0 to |ids|
      invariant forall j :: 0 <= j < i ==> ids[j] <= max
      invariant max == 0 || max in ids[..i]
      invariant max >= 0
    {
      if ids[i] > max {
        max := ids[i];
      }
    }
  }

  function Ids(list: seq<int>): set<int> {
    set id | id in list
  }

  // ---- the state machine ----

  /** A migrator's binary knows the first `n` migrations of the list; it has loaded the
      applied ids and is about to look at the one at `pos`. */
  datatype Migrator =
    | Working(n: nat, snapshot: set<int>, pos: nat)
    | Finished(n: nat)
    | Errored

  /** `log` is history: the migrations that took effect, in order. */
  datatype State = State(recorded: set<int>, log: seq<int>, migrators: map<nat, Migrator>)

  /** How the transaction ends: it may fail before or after the commit took effect. */
  datatype Outcome = Committed | RolledBack | CommitUnknown

  datatype Step =
    | Load(migrator: nat, n: nat)
    | Handle(migrator: nat, outcome: Outcome)
    | Crash(migrator: nat)

  function Start(): State {
    State({}, [], map[])
  }

  function Put(s: State, m: nat, p: Migrator): State {
    s.(migrators := s.migrators[m := p])
  }

  function Apply(s: State, id: int): State {
    s.(recorded := s.recorded + {id}, log := s.log + [id])
  }

  function DoHandle(all: seq<int>, s: State, m: nat, w: Migrator, outcome: Outcome): State
    requires w.Working? && w.n <= |all|
  {
    if w.pos >= w.n then Put(s, m, Finished(w.n))
    else if all[w.pos] in w.snapshot then Put(s, m, w.(pos := w.pos + 1))
    else if outcome == RolledBack || all[w.pos] in s.recorded then Put(s, m, Errored)
    else Put(Apply(s, all[w.pos]), m, if outcome == Committed then w.(pos := w.pos + 1) else Errored)
  }

  /** A step that is not enabled changes nothing. */
  function Next(all: seq<int>, s: State, step: Step): State {
    match step
    case Load(m, n) => if n <= |all| then Put(s, m, Working(n, s.recorded, 0)) else s
    case Handle(m, outcome) =>
      if m in s.migrators && s.migrators[m].Working? && s.migrators[m].n <= |all| then DoHandle(all, s, m, s.migrators[m], outcome)
      else s
    case Crash(m) => Put(s, m, Errored)
  }

  function Run(all: seq<int>, s: State, steps: seq<Step>): State
    decreases |steps|
  {
    if steps == [] then s else Run(all, Next(all, s, steps[0]), steps[1..])
  }

  predicate MigratorOk(s: State, m: Migrator) {
    match m
    case Working(n, snapshot, pos) => snapshot <= s.recorded && pos <= n && pos <= |s.log|
    case Finished(n) => n <= |s.log|
    case Errored => true
  }

  ghost predicate Inv(all: seq<int>, s: State) {
    && Increasing(all) && s.log <= all
    && s.recorded == Ids(s.log)
    && (forall m :: m in s.migrators ==> MigratorOk(s, s.migrators[m]))
  }

  /** An id is recorded exactly when it is among the first |log| of the list. */
  lemma RecordedIsPrefix(all: seq<int>, s: State, pos: nat)
    requires Inv(all, s) && pos < |all|
    ensures all[pos] in s.recorded <==> pos < |s.log|
  {
    if pos < |s.log| {
      assert s.log[pos] == all[pos];
    }
  }

  /** A migrator that inserts a row is at the end of the applied prefix, stale or not. */
  lemma InvHandle(all: seq<int>, s: State, m: nat, outcome: Outcome)
    requires Inv(all, s) && m in s.migrators && s.migrators[m].Working? && s.migrators[m].n <= |all|
    ensures Inv(all, DoHandle(all, s, m, s.migrators[m], outcome))
  {
    var w := s.migrators[m];
    var t := DoHandle(all, s, m, w, outcome);
    assert MigratorOk(s, w);
    if w.pos < w.n {
      RecordedIsPrefix(all, s, w.pos);
      if t.log != s.log {
        assert w.pos == |s.log|;
        assert Ids(s.log + [all[w.pos]]) == Ids(s.log) + {all[w.pos]};
      }
    }
    forall e | e in t.migrators
      ensures MigratorOk(t, t.migrators[e])
    {
      if e != m {
        assert MigratorOk(s, s.migrators[e]);
      }
    }
  }

  lemma InvNext(all: seq<int>, s: State, step: Step)
    requires Inv(all, s)
    ensures Inv(all, Next(all, s, step))
  {
    if step.Handle? && step.migrator in s.migrators && s.migrators[step.migrator].Working? && s.migrators[step.migrator].n <= |all| {
      InvHandle(all, s, step.migrator, step.outcome);
    }
  }

  lemma {:induction false} InvRun(all: seq<int>, s: State, steps: seq<Step>)
    requires Inv(all, s)
    ensures Inv(all, Run(all, s, steps))
    decreases |steps|
  {
    if steps != [] {
      InvNext(all, s, steps[0]);
      InvRun(all, Next(all, s, steps[0]), steps[1..]);
    }
  }

  /** In every run the migrations that took effect are a prefix of the list, in its order
      and each once; the recorded ids are exactly those; and a migrator that finishes has
      all of its migrations applied. */
  lemma AppliedInOrderOnce(all: seq<int>, steps: seq<Step>)
    requires Increasing(all)
    ensures var s := Run(all, Start(), steps);
            && s.log <= all && s.recorded == Ids(s.log)
            && (forall i, j :: 0 <= i < j < |s.log| ==> s.log[i] != s.log[j])
            && (forall m :: m in s.migrators && s.migrators[m].Finished? && s.migrators[m].n <= |all| ==>
                  Ids(all[..s.migrators[m].n]) <= s.recorded)
  {
    InvRun(all, Start(), steps);
    var s := Run(all, Start(), steps);
    forall m | m in s.migrators && s.migrators[m].Finished? && s.migrators[m].n <= |all|
      ensures Ids(all[..s.migrators[m].n]) <= s.recorded
    {
      assert MigratorOk(s, s.migrators[m]);
      PrefixApplied(all, s, s.migrators[m].n);
    }
  }

  lemma PrefixApplied(all: seq<int>, s: State, n: nat)
    requires Inv(all, s) && n <= |s.log|
    ensures Ids(all[..n]) <= s.recorded
  {
    forall id | id in Ids(all[..n])
      ensures id in s.recorded
    {
      var i :| 0 <= i < n && all[i] == id;
      assert s.log[i] == id;
    }
  }

  // ---- progress ----

  /** A transaction that is rolled back leaves no trace, and its migrator gives up. */
  lemma RolledBackLeavesNoTrace(all: seq<int>, s: State, m: nat)
    requires m in s.migrators && s.migrators[m].Working? && s.migrators[m].n <= |all|
    ensures var t := Next(all, s, Handle(m, RolledBack));
            && t.recorded == s.recorded && t.log == s.log
            && (t.migrators[m] == Errored <==> s.migrators[m].pos < s.migrators[m].n && all[s.migrators[m].pos] !in s.migrators[m].snapshot)
  {
  }

  function Steady(m: nat, k: nat): seq<Step> {
    if k == 0 then [] else [Handle(m, Committed)] + Steady(m, k - 1)
  }

  /** A migrator whose snapshot is current passes what is recorded and applies the rest. */
  lemma HandlesOne(all: seq<int>, s: State, m: nat)
    requires Inv(all, s) && m in s.migrators && s.migrators[m].Working? && s.migrators[m].pos < s.migrators[m].n <= |all|
    requires forall i :: s.migrators[m].pos <= i < |s.log| ==> s.log[i] in s.migrators[m].snapshot
    ensures var w, t := s.migrators[m], Next(all, s, Handle(m, Committed));
            && t.log == (if w.pos < |s.log| then s.log else all[..w.pos + 1])
            && m in t.migrators && t.migrators[m] == w.(pos := w.pos + 1)
  {
    var w := s.migrators[m];
    assert MigratorOk(s, w);
    RecordedIsPrefix(all, s, w.pos);
    if w.pos < |s.log| {
      assert s.log[w.pos] == all[w.pos];
    } else {
      assert s.log == all[..w.pos];
      assert all[..w.pos + 1] == all[..w.pos] + [all[w.pos]];
    }
  }

  lemma RunUnfolds(all: seq<int>, s: State, step: Step, rest: seq<Step>)
    ensures Run(all, s, [step] + rest) == Run(all, Next(all, s, step), rest)
  {
    assert ([step] + rest)[1..] == rest;
  }

  lemma SteadyUnfolds(all: seq<int>, s: State, m: nat, k: nat)
    ensures Run(all, s, Steady(m, k + 1)) == Run(all, Next(all, s, Handle(m, Committed)), Steady(m, k))
  {
    RunUnfolds(all, s, Handle(m, Committed), Steady(m, k));
  }

  predicate Completes(t: State, m: nat, n: nat, log: seq<int>) {
    m in t.migrators && t.migrators[m] == Finished(n) && t.log == log
  }

  lemma {:induction false} SteadyFinishes(all: seq<int>, s: State, m: nat)
    requires Inv(all, s) && m in s.migrators && s.migrators[m].Working? && s.migrators[m].pos <= s.migrators[m].n <= |all|
    requires forall i :: s.migrators[m].pos <= i < |s.log| ==> s.log[i] in s.migrators[m].snapshot
    ensures var w := s.migrators[m];
            Completes(Run(all, s, Steady(m, w.n - w.pos + 1)), m, w.n, if w.n <= |s.log| then s.log else all[..w.n])
    decreases s.migrators[m].n - s.migrators[m].pos
  {
    var w := s.migrators[m];
    var t := Next(all, s, Handle(m, Committed));
    SteadyUnfolds(all, s, m, w.n - w.pos);
    if w.pos < w.n {
      HandlesOne(all, s, m);
      InvNext(all, s, Handle(m, Committed));
      SteadyFinishes(all, t, m);
    } else {
      assert MigratorOk(s, w);
      assert Run(all, t, Steady(m, 0)) == t;
    }
  }

  /** From every reachable database a migrator that is left alone and whose transactions
      commit finishes, and then exactly its own migrations or more are applied. */
  lemma UndisturbedFinishes(all: seq<int>, s: State, m: nat, n: nat) returns (steps: seq<Step>)
    requires Inv(all, s) && n <= |all|
    ensures var t := Run(all, s, steps);
            Completes(t, m, n, if n <= |s.log| then s.log else all[..n])
  {
    var loaded := Next(all, s, Load(m, n));
    InvNext(all, s, Load(m, n));
    SteadyFinishes(all, loaded, m);
    steps := [Load(m, n)] + Steady(m, n + 1);
    RunUnfolds(all, s, Load(m, n), Steady(m, n + 1));
  }

  // ---- waiting for the schema ----

  /** MAX(id), or 0 when there is none. */
  ghost predicate IsVersion(recorded: set<int>, version: int) {
    && (forall id :: id in recorded ==> id <= version)
    && (version in recorded || (version == 0 && forall id :: id !in recorded))
  }

  lemma NoIds(ids: seq<int>)
    requires |ids| == 0
    ensures forall id :: id !in Ids(ids)
  {
    forall id
      ensures id !in ids
    {
    }
  }

  lemma {:induction false} VersionExists(ids: seq<int>) returns (version: int)
    ensures IsVersion(Ids(ids), version)
  {
    if |ids| == 0 {
      version := 0;
      NoIds(ids);
    } else {
      var n := |ids| - 1;
      var v := VersionExists(ids[..n]);
      version := if n == 0 || ids[n] > v then ids[n] else v;
      forall id | id in Ids(ids)
        ensures id <= version
      {
        var i :| 0 <= i <= n && ids[i] == id;
        assert i < n ==> ids[..n][i] in Ids(ids[..n]);
      }
      assert ids[n] in Ids(ids);
      if n > 0 && version == v {
        assert ids[..n][0] in Ids(ids[..n]);
        var i :| 0 <= i < n && ids[..n][i] == v;
        assert ids[i] == v;
      }
    }
  }

  /** In every reachable database the version test of a binary that knows the first n
      migrations passes exactly when all of them are applied. */
  lemma VersionTestIsExact(all: seq<int>, steps: seq<Step>, n: nat, version: int)
    requires Increasing(all) && n <= |all|
    requires IsVersion(Run(all, Start(), steps).recorded, version)
    ensures version >= Latest(all[..n]) <==> Ids(all[..n]) <= Run(all, Start(), steps).recorded
  {
    InvRun(all, Start(), steps);
    var s := Run(all, Start(), steps);
    if n > 0 {
      RecordedIsPrefix(all, s, n - 1);
      assert all[..n][n - 1] == all[n - 1] && all[n - 1] in Ids(all[..n]);
      VersionOfLog(all, s, version);
      if n <= |s.log| {
        PrefixApplied(all, s, n);
      }
    } else {
      VersionOfLog(all, s, version);
    }
  }

  lemma VersionOfLog(all: seq<int>, s: State, version: int)
    requires Inv(all, s) && IsVersion(s.recorded, version)
    ensures version == Latest(s.log)
  {
    if s.log != [] {
      var k := |s.log| - 1;
      assert s.log[k] in s.recorded;
      var i :| 0 <= i < |s.log| && s.log[i] == version;
      assert s.log[i] == all[i] && s.log[k] == all[k];
    }
  }

  /** One poll: a query error, or MAX(id) and whether the deadline has passed. */
  datatype Poll = QueryError | Seen(version: int, expired: bool)

  datatype Wait = Current | Behind | QueryFailed

  /** The poll ends the wait: it fails, sees the target version, or comes too late. */
  predicate Stops(target: int, p: Poll) {
    p.QueryError? || p.version >= target || p.expired
  }

  /** The verdict is that of the first poll that stops the loop; without one, the
      caller's context has ended. */
  method WaitForSchema(ids: seq<int>, polls: seq<Poll>) returns (wait: Wait, last: nat)
    requires Increasing(ids)
    ensures last <= |polls| && forall i :: 0 <= i < last ==> !Stops(Latest(ids), polls[i])
    ensures wait == QueryFailed <==> last < |polls| && polls[last] == QueryError
    ensures wait == Current <==> last < |polls| && polls[last].Seen? && polls[last].version >= Latest(ids)
    ensures last < |polls| && wait == Behind ==> polls[last].expired
  {
    var target := LatestMigrationID(ids);
    last := 0;
    while last < |polls|
      invariant last <= |polls| && forall i :: 0 <= i < last ==> !Stops(Latest(ids), polls[i])
    {
      var p := polls[last];
      if p.QueryError? {
        return QueryFailed, last;
      }
      if p.version >= target {
        return Current, last;
      }
      if p.expired {
        return Behind, last;
      }
      last := last + 1;
    }
    return Behind, last;
  }

  /** The version test of a binary that knows the first n migrations tells the truth. */
  predicate TestIsRight(all: seq<int>, recorded: set<int>, version: int, n: nat)
    requires n <= |all|
  {
    version >= Latest(all[..n]) <==> Ids(all[..n]) <= recorded
  }

  lemma UpToLatest(all: seq<int>, n: nat, id: int)
    requires Increasing(all) && 0 < n <= |all|
    ensures id in Ids(all[..n]) <==> id in all && id <= Latest(all[..n])
    ensures Latest(all[..n]) == all[n - 1]
  {
    var front := all[..n];
    assert front[n - 1] == all[n - 1];
    if id in all && id <= all[n - 1] {
      var i :| 0 <= i < |all| && all[i] == id;
      assert front[i] == id;
    }
  }

  /** Whatever the database has recorded, the test is right for the binaries of every age
      if and only if no id of the list is missing below the version. */
  lemma VersionTestExactIff(all: seq<int>, recorded: set<int>, version: int)
    requires Increasing(all) && IsVersion(recorded, version)
    ensures (forall n :: 0 < n <= |all| ==> TestIsRight(all, recorded, version, n)) <==>
            (forall id :: id in all && id <= version ==> id in recorded)
  {
    if forall n :: 0 < n <= |all| ==> TestIsRight(all, recorded, version, n) {
      forall id | id in all && id <= version
        ensures id in recorded
      {
        var i :| 0 <= i < |all| && all[i] == id;
        UpToLatest(all, i + 1, id);
        assert TestIsRight(all, recorded, version, i + 1);
      }
    }
    if forall id :: id in all && id <= version ==> id in recorded {
      forall n | 0 < n <= |all|
        ensures TestIsRight(all, recorded, version, n)
      {
        forall id
          ensures id in Ids(all[..n]) <==> id in all && id <= Latest(all[..n])
        {
          UpToLatest(all, n, id);
        }
        UpToLatest(all, n, all[n - 1]);
      }
    }
  }

  /** The list may only grow at its end: a binary whose list has an extra id below the
      latest one, the gaps notwithstanding, takes a database without it for current. */
  lemma GapFoolsVersionTest(prior: seq<int>, ids: seq<int>, extra: int, version: int)
    requires Increasing(prior) && Increasing(ids) && Ids(ids) == Ids(prior) + {extra}
    requires extra !in prior && 0 < extra < Latest(prior)
    requires IsVersion(Ids(prior), version)
    ensures version >= Latest(ids) && !(Ids(ids) <= Ids(prior))
  {
    assert extra in Ids(ids);
    assert Latest(prior) in Ids(prior);
    var k := |ids| - 1;
    assert ids != [];
    assert ids[k] in Ids(ids);
  }

  // ---- one migrator, as the program writes it ----

  /** The first n migrations of the list, without those in the snapshot, in order. */
  function Missing(list: seq<int>, n: nat, snapshot: set<int>): seq<int>
    requires n <= |list|
  {
    if n == 0 then []
    else Missing(list, n - 1, snapshot) + if list[n - 1] in snapshot then [] else [list[n - 1]]
  }

  /** The missing ones are those of the first n that the snapshot lacks, in list order. */
  lemma {:induction false} MissingExactly(list: seq<int>, n: nat, snapshot: set<int>)
    requires Increasing(list) && n <= |list|
    ensures Increasing(Missing(list, n, snapshot))
    ensures forall id :: id in Missing(list, n, snapshot) <==> id in list[..n] && id !in snapshot
  {
    if n > 0 {
      MissingExactly(list, n - 1, snapshot);
      assert list[..n] == list[..n - 1] + [list[n - 1]];
      var m := Missing(list, n - 1, snapshot);
      forall i | 0 <= i < |m|
        ensures 0 < m[i] < list[n - 1]
      {
        assert m[i] in m;
        var k :| 0 <= k < n - 1 && list[k] == m[i];
      }
    }
  }

  function FirstIds(list: seq<int>, n: nat): set<int>
    requires n <= |list|
  {
    if n == 0 then {} else FirstIds(list, n - 1) + {list[n - 1]}
  }

  lemma {:induction false} FirstIdsOf(list: seq<int>, n: nat)
    requires n <= |list|
    ensures FirstIds(list, n) == Ids(list[..n])
  {
    if n > 0 {
      FirstIdsOf(list, n - 1);
      assert list[..n] == list[..n - 1] + [list[n - 1]];
    }
  }

  lemma NotAmongFirst(list: seq<int>, n: nat)
    requires Increasing(list) && n < |list|
    ensures list[n] !in FirstIds(list, n)
  {
    FirstIdsOf(list, n);
  }

  class Database {
    var recorded: set<int>
    var log: seq<int>

    constructor ()
      ensures recorded == {} && log == []
    {
      recorded, log := {}, [];
    }

    /** One migration and its row, in one transaction; a recorded id cannot be inserted
        again. */
    method Migrate(id: int, outcome: Outcome) returns (ok: bool)
      modifies this
      ensures ok <==> outcome == Committed && id !in old(recorded)
      ensures if outcome == RolledBack || id in old(recorded) then recorded == old(recorded) && log == old(log)
              else recorded == old(recorded) + {id} && log == old(log) + [id]
    {
      if outcome == RolledBack || id in recorded {
        return false;
      }
      recorded, log := recorded + {id}, log + [id];
      return outcome == Committed;
    }

    /** Undisturbed, a migrator applies exactly what is missing, in order; an error leaves
        the part before it applied. */
    method RunMigrations(list: seq<int>, outcomes: seq<Outcome>) returns (ok: bool, ghost done: nat)
      requires |outcomes| == |list| && Increasing(list)
      modifies this
      ensures done <= |list| && (ok ==> done == |list|)
      ensures ok <==> forall i :: 0 <= i < |list| ==> list[i] in old(recorded) || outcomes[i] == Committed
      ensures log == old(log) + Missing(list, done, old(recorded))
      ensures recorded == old(recorded) + FirstIds(list, done)
    {
      var applied := recorded;
      ghost var before := log;
      for i := 0 to |list|
        invariant log == before + Missing(list, i, applied)
        invariant recorded == applied + FirstIds(list, i)
        invariant forall j :: 0 <= j < i ==> list[j] in applied || outcomes[j] == Committed
      {
        NotAmongFirst(list, i);
        if list[i] in applied {
          continue;
        }
        var applies := Migrate(list[i], outcomes[i]);
        if !applies {
          return false, if outcomes[i] == RolledBack then i else i + 1;
        }
      }
      return true, |list|;
    }
  }
}
