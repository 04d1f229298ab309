/** What holds of every client in every run, evicted or cut off or not: each entry admits
    at most `limit` requests in any window, so a client exceeds its limit at most once for
    each further entry that decided for it. */
module RateLimiterEntries {
  import opened RateLimiter
  import opened RateLimiterRuns

  /** The admissions that one entry decided. */
  function EntryTimes(log: seq<Admission>, id: nat): seq<int> {
    if log == [] then []
    else
      var n := |log| - 1;
      EntryTimes(log[..n], id) + if log[n].entry == id then [log[n].at] else []
  }

  lemma EntryTimesSnoc(log: seq<Admission>, a: Admission, id: nat)
    ensures EntryTimes(log + [a], id) == EntryTimes(log, id) + if a.entry == id then [a.at] else []
  {
    assert (log + [a])[..|log|] == log;
  }

  // ---- every entry is exact, in the table or not ----

  predicate EntryTracks(c: Config, s: State, id: nat)
    requires id in s.buckets
  {
    Recent(EntryTimes(s.log, id), s.clock - c.window) == Recent(s.buckets[id].times, s.clock - c.window)
  }

  ghost predicate EntryLogged(c: Config, log: seq<Admission>, clock: int, id: nat) {
    Sorted(EntryTimes(log, id)) && Below(EntryTimes(log, id), clock) && Spaced(c, EntryTimes(log, id))
  }

  ghost predicate EntryAt(c: Config, s: State, id: nat) {
    && EntryLogged(c, s.log, s.clock, id)
    && if id in s.buckets then EntryTracks(c, s, id) else EntryTimes(s.log, id) == []
  }

  ghost predicate EntryInv(c: Config, s: State) {
    match s
    case State(_, _, _, _, _, _, _) => Wired(s) && forall id :: EntryAt(c, s, id)
  }

  lemma EntryEnter(c: Config, s: State, thread: nat, key: string, table: Table<nat>)
    requires EntryInv(c, s) && CanEnter(s, thread, key, table)
    ensures EntryInv(c, NextEnter(s, thread, key, table))
  {
    var t := NextEnter(s, thread, key, table);
    WiredEnter(s, thread, key, table);
    forall id
      ensures EntryAt(c, t, id)
    {
      assert EntryAt(c, s, id);
    }
  }

  lemma EntryAtLater(c: Config, s: State, now: int, table: Table<nat>, id: nat)
    requires EntryAt(c, s, id) && now >= s.clock
    ensures EntryAt(c, NextSweep(s, now, table), id)
  {
    if id in s.buckets {
      RecentAgree(EntryTimes(s.log, id), s.buckets[id].times, s.clock - c.window, now - c.window);
    }
  }

  lemma EntrySweep(c: Config, s: State, now: int, table: Table<nat>)
    requires EntryInv(c, s) && now >= s.clock && Sweeps(s, now - c.window, table)
    ensures EntryInv(c, NextSweep(s, now, table))
  {
    WiredSweep(c, s, now, table);
    forall id
      ensures EntryAt(c, NextSweep(s, now, table), id)
    {
      assert EntryAt(c, s, id);
      EntryAtLater(c, s, now, table, id);
    }
  }

  lemma WiredFinish(c: Config, s: State, thread: nat, now: int)
    requires Wired(s) && thread in s.waiting
    ensures Wired(NextFinish(c, s, thread, now))
  {
  }

  lemma EntryLoggedFinish(c: Config, s: State, thread: nat, now: int, id: nat)
    requires thread in s.waiting && s.waiting[thread].id in s.buckets
    ensures var tk := s.waiting[thread];
            EntryTimes(NextFinish(c, s, thread, now).log, id) ==
            EntryTimes(s.log, id) + if tk.id == id && Decision(c, s, tk, now) then [now] else []
  {
    var tk := s.waiting[thread];
    EntryTimesSnoc(s.log, Admission(tk.key, now, tk.id), id);
    assert s.log + [] == s.log && EntryTimes(s.log, id) + [] == EntryTimes(s.log, id);
  }

  lemma EntryTracksFinish(c: Config, s: State, thread: nat, now: int, id: nat)
    requires Wired(s) && thread in s.waiting && id in s.buckets && EntryTracks(c, s, id) && now >= s.clock
    ensures EntryTracks(c, NextFinish(c, s, thread, now), id)
  {
    EntryLoggedFinish(c, s, thread, now, id);
    RecentAgree(EntryTimes(s.log, id), s.buckets[id].times, s.clock - c.window, now - c.window);
    if id == s.waiting[thread].id {
      RecordedAlike(EntryTimes(s.log, id), s.buckets[id].times, now, c);
    } else {
      assert EntryTimes(s.log, id) + [] == EntryTimes(s.log, id);
    }
  }

  /** One more admission, of an entry that found fewer than the limit. */
  lemma OneMore(c: Config, times: seq<int>, clock: int, now: int)
    requires Sorted(times) && Below(times, clock) && Spaced(c, times) && clock <= now
    requires |Recent(times, now - c.window)| < c.limit
    ensures Sorted(times + [now]) && Below(times + [now], now) && Spaced(c, times + [now])
  {
    SpacedSnoc(c, times, now);
  }

  lemma EntryDecision(c: Config, s: State, thread: nat, now: int)
    requires Wired(s) && thread in s.waiting && now >= s.clock && EntryTracks(c, s, s.waiting[thread].id)
    ensures var tk := s.waiting[thread];
            Decision(c, s, tk, now) <==> |Recent(EntryTimes(s.log, tk.id), now - c.window)| < c.limit
  {
    var id := s.waiting[thread].id;
    RecentAgree(EntryTimes(s.log, id), s.buckets[id].times, s.clock - c.window, now - c.window);
  }

  lemma EntryLogFinish(c: Config, s: State, thread: nat, now: int, id: nat)
    requires Wired(s) && thread in s.waiting && now >= s.clock
    requires EntryTracks(c, s, s.waiting[thread].id) && EntryLogged(c, s.log, s.clock, id)
    ensures EntryLogged(c, NextFinish(c, s, thread, now).log, now, id)
  {
    var times := EntryTimes(s.log, id);
    EntryLoggedFinish(c, s, thread, now, id);
    EntryDecision(c, s, thread, now);
    if s.waiting[thread].id == id && Decision(c, s, s.waiting[thread], now) {
      OneMore(c, times, s.clock, now);
    } else {
      assert times + [] == times;
    }
  }

  lemma EntryAtFinish(c: Config, s: State, thread: nat, now: int, id: nat)
    requires Wired(s) && thread in s.waiting && now >= s.clock
    requires EntryTracks(c, s, s.waiting[thread].id) && EntryAt(c, s, id)
    ensures EntryAt(c, NextFinish(c, s, thread, now), id)
  {
    EntryLogFinish(c, s, thread, now, id);
    if id in s.buckets {
      EntryTracksFinish(c, s, thread, now, id);
    } else {
      EntryLoggedFinish(c, s, thread, now, id);
    }
  }

  lemma EntryFinish(c: Config, s: State, thread: nat, now: int)
    requires EntryInv(c, s) && thread in s.waiting && now >= s.clock
    ensures EntryInv(c, NextFinish(c, s, thread, now))
  {
    WiredFinish(c, s, thread, now);
    assert EntryAt(c, s, s.waiting[thread].id);
    forall id
      ensures EntryAt(c, NextFinish(c, s, thread, now), id)
    {
      assert EntryAt(c, s, id);
      EntryAtFinish(c, s, thread, now, id);
    }
  }

  lemma EntryAfterEnter(c: Config, s: State, thread: nat, key: string, table: Table<nat>, t: State)
    requires EntryInv(c, s) && t == Next(c, s, Enter(thread, key, table))
    ensures EntryInv(c, t)
  {
    EnterStep(c, s, thread, key, table, t);
    if t != s { EntryEnter(c, s, thread, key, table); }
  }

  lemma EntryAfterFinish(c: Config, s: State, thread: nat, dt: nat, t: State)
    requires EntryInv(c, s) && t == Next(c, s, Finish(thread, dt))
    ensures EntryInv(c, t)
  {
    FinishStep(c, s, thread, dt, t);
    if t != s { EntryFinish(c, s, thread, s.clock + dt); }
  }

  lemma EntryAfterSweep(c: Config, s: State, dt: nat, table: Table<nat>, t: State)
    requires EntryInv(c, s) && t == Next(c, s, Sweep(dt, table))
    ensures EntryInv(c, t)
  {
    SweepStep(c, s, dt, table, t);
    if t != s { EntrySweep(c, s, s.clock + dt, table); }
  }

  lemma EntryNext(c: Config, s: State, step: Step)
    requires EntryInv(c, s)
    ensures EntryInv(c, Next(c, s, step))
  {
    match step
    case Enter(thread, key, table) => EntryAfterEnter(c, s, thread, key, table, Next(c, s, step));
    case Finish(thread, dt) => EntryAfterFinish(c, s, thread, dt, Next(c, s, step));
    case Sweep(dt, table) => EntryAfterSweep(c, s, dt, table, Next(c, s, step));
  }

  lemma {:induction false} EntryRun(c: Config, s: State, steps: seq<Step>)
    requires EntryInv(c, s)
    ensures EntryInv(c, Run(c, s, steps))
    decreases |steps|
  {
    if steps != [] {
      EntryNext(c, s, steps[0]);
      EntryRun(c, Next(c, s, steps[0]), steps[1..]);
    }
  }

  lemma StartEntries(c: Config, clock: int)
    ensures EntryInv(c, Start(clock))
  {
    assert forall id :: EntryTimes([], id) == [];
    assert forall id :: EntryAt(c, Start(clock), id);
  }

  /** In every run, every entry admits at most `limit` requests in any window. */
  lemma EntryLimitHolds(c: Config, clock: int, steps: seq<Step>, id: nat, t: int)
    requires c.limit >= 0
    ensures |InWindow(EntryTimes(Run(c, Start(clock), steps).log, id), t, c.window)| <= c.limit
  {
    StartEntries(c, clock);
    EntryRun(c, Start(clock), steps);
    var s := Run(c, Start(clock), steps);
    assert EntryAt(c, s, id);
    SpacedBoundsWindows(c, EntryTimes(s.log, id), t);
  }

  // ---- and so a client's excess is bounded by its entries ----

  predicate Inside(a: Admission, key: string, t: int, window: nat) {
    a.key == key && t - window < a.at <= t
  }

  /** The entries that admitted the client within the window. */
  function Deciders(log: seq<Admission>, key: string, t: int, window: nat): set<nat> {
    set a | a in log && Inside(a, key, t, window) :: a.entry
  }

  /** How many admissions within the window these entries made. */
  function MadeBy(log: seq<Admission>, key: string, t: int, window: nat, ids: set<nat>): nat {
    if log == [] then 0
    else
      var n := |log| - 1;
      MadeBy(log[..n], key, t, window, ids) + if Inside(log[n], key, t, window) && log[n].entry in ids then 1 else 0
  }

  lemma {:induction false} MadeByOne(log: seq<Admission>, key: string, t: int, window: nat, id: nat)
    ensures MadeBy(log, key, t, window, {id}) <= |InWindow(EntryTimes(log, id), t, window)|
  {
    if log != [] {
      var n := |log| - 1;
      MadeByOne(log[..n], key, t, window, id);
      var times := EntryTimes(log[..n], id);
      if log[n].entry == id {
        assert (times + [log[n].at])[..|times|] == times;
      } else {
        assert times + [] == times;
      }
    }
  }

  lemma {:induction false} MadeBySplit(log: seq<Admission>, key: string, t: int, window: nat, ids: set<nat>, id: nat)
    requires id in ids
    ensures MadeBy(log, key, t, window, ids) == MadeBy(log, key, t, window, ids - {id}) + MadeBy(log, key, t, window, {id})
  {
    if log != [] {
      MadeBySplit(log[..|log| - 1], key, t, window, ids, id);
    }
  }

  lemma {:induction false} MadeByNone(log: seq<Admission>, key: string, t: int, window: nat)
    ensures MadeBy(log, key, t, window, {}) == 0
  {
    if log != [] {
      MadeByNone(log[..|log| - 1], key, t, window);
    }
  }

  lemma {:induction false} MadeByBound(log: seq<Admission>, key: string, t: int, window: nat, ids: set<nat>, limit: nat)
    requires forall id :: |InWindow(EntryTimes(log, id), t, window)| <= limit
    ensures MadeBy(log, key, t, window, ids) <= limit * |ids|
  {
    if ids == {} {
      MadeByNone(log, key, t, window);
    } else {
      var id :| id in ids;
      MadeBySplit(log, key, t, window, ids, id);
      MadeByOne(log, key, t, window, id);
      MadeByBound(log, key, t, window, ids - {id}, limit);
      assert limit * |ids| == limit * |ids - {id}| + limit;
    }
  }

  lemma InWindowSnoc(times: seq<int>, at: int, t: int, window: nat)
    ensures |InWindow(times + [at], t, window)| == |InWindow(times, t, window)| + if t - window < at <= t then 1 else 0
  {
    assert (times + [at])[..|times|] == times;
  }

  lemma {:induction false} AllAreMade(log: seq<Admission>, key: string, t: int, window: nat, ids: set<nat>)
    requires forall i :: 0 <= i < |log| && Inside(log[i], key, t, window) ==> log[i].entry in ids
    ensures |InWindow(TimesOf(log, key), t, window)| == MadeBy(log, key, t, window, ids)
  {
    if log != [] {
      var n := |log| - 1;
      var front, times := log[..n], TimesOf(log[..n], key);
      AllAreMade(front, key, t, window, ids);
      InWindowSnoc(times, log[n].at, t, window);
      assert times + [] == times;
    }
  }

  /** In every run, evictions and sweeps wherever they fall, a client is admitted in any
      window at most `limit` times for each entry that decided for it. */
  lemma ExcessIsBounded(c: Config, clock: int, steps: seq<Step>, key: string, t: int)
    requires c.limit >= 0
    ensures var log := Run(c, Start(clock), steps).log;
            |InWindow(TimesOf(log, key), t, c.window)| <= c.limit * |Deciders(log, key, t, c.window)|
  {
    var log := Run(c, Start(clock), steps).log;
    forall id
      ensures |InWindow(EntryTimes(log, id), t, c.window)| <= c.limit
    {
      EntryLimitHolds(c, clock, steps, id, t);
    }
    var ids := Deciders(log, key, t, c.window);
    MadeByBound(log, key, t, c.window, ids, c.limit);
    AllAreMade(log, key, t, c.window, ids);
  }
}
