/** The rate limiter under concurrency, against a plain log of admissions.

    A request passes two critical sections: one on the table (find or create the
    client's entry) and one on the entry (decide and record). Sweeps and other requests
    may run in between, so an entry can leave the table while a request holds it.
    Entries are identified by numbers, as the program identifies them by pointers. */
module RateLimiterRuns {
  import opened RateLimiter

  datatype Config = Config(limit: int, window: nat)

  /** `key` is history: no step reads it. */
  datatype Bucket = Bucket(key: string, times: seq<int>)

  datatype Ticket = Ticket(key: string, id: nat)

  /** `entry` is history: the entry that decided. */
  datatype Admission = Admission(key: string, at: int, entry: nat)

  /** `log` and `lost` are history: all admissions, and the keys whose record was cut off
      from the table by an eviction or by a decision on a detached entry. */
  datatype State = State(table: Table<nat>, buckets: map<nat, Bucket>, next: nat,
                         waiting: map<nat, Ticket>, clock: int, log: seq<Admission>, lost: set<string>)

  /** Entering with a new key also says which table the eviction leaves, and a sweep
      which table it leaves. */
  datatype Step =
    | Enter(thread: nat, key: string, table: Table<nat>)
    | Finish(thread: nat, dt: nat)
    | Sweep(dt: nat, table: Table<nat>)

  function Start(clock: int): (s: State)
    ensures Enumerates(s.table) && |s.table.entries| == 0
  {
    State(Table(map[], []), map[], 0, map[], clock, [], {})
  }

  /** The new entry is in, below the cap nothing goes, and at the cap the oldest one. */
  ghost predicate Inserts(t: Table<nat>, key: string, id: nat, r: Table<nat>) {
    match r
    case Table(entries, _) => Enumerates(r) && |entries| <= MAX_ENTRIES && Fifo(t, key, id, r)
  }

  /** The table always has room for one more client in this way. */
  lemma FifoInserts(t: Table<nat>, key: string, id: nat) returns (r: Table<nat>)
    requires Enumerates(t) && |t.entries| <= MAX_ENTRIES && key !in t.entries
    ensures Inserts(t, key, id, r)
  {
    EmptyOrderMeansEmpty(t);
    var room := if |t.entries| < MAX_ENTRIES then t else DropOldest(t);
    InsertIsFifo(t, room, key, id);
    r := Table(room.entries[key := id], room.order + [key]);
  }

  /** An insertion below the cap evicts nothing, and at the cap exactly the oldest key. */
  lemma EvictsExactlyOldest(t: Table<nat>, key: string, id: nat, r: Table<nat>)
    requires Enumerates(t) && |t.entries| <= MAX_ENTRIES && key !in t.entries && Inserts(t, key, id, r)
    ensures t.entries.Keys - r.entries.Keys == if |t.entries| < 10000 then {} else {t.order[0]}
  {
    AsManyKeys(t);
    forall k
      ensures k in t.entries && k !in r.entries <==> |t.entries| == 10000 && k == t.order[0]
    {
      EvictedIff(t, key, id, r, k);
    }
  }

  lemma EvictedIff(t: Table<nat>, key: string, id: nat, r: Table<nat>, k: string)
    requires Enumerates(t) && |t.entries| == |t.order| <= MAX_ENTRIES && key !in t.entries && Inserts(t, key, id, r)
    ensures k in t.entries && k !in r.entries <==> |t.entries| == 10000 && k == t.order[0]
  {
    var n := Surplus(|t.entries|);
    assert k in t.entries <==> k in t.order;
    assert k in r.entries <==> k in t.order[n..] + [key];
    assert t.order == t.order[..n] + t.order[n..];
    assert k in t.order <==> k in t.order[..n] || k in t.order[n..];
    if n == 1 {
      assert t.order[0] !in t.order[1..];
    }
  }

  /** The first critical section. */
  ghost function NextEnter(s: State, thread: nat, key: string, table: Table<nat>): State {
    if key in s.table.entries then s.(waiting := s.waiting[thread := Ticket(key, s.table.entries[key])])
    else
      s.(table := table, buckets := s.buckets[s.next := Bucket(key, [])], next := s.next + 1,
      waiting := s.waiting[thread := Ticket(key, s.next)], lost := s.lost + (s.table.entries.Keys - table.entries.Keys))
  }

  ghost predicate CanEnter(s: State, thread: nat, key: string, table: Table<nat>) {
    thread !in s.waiting && (key !in s.table.entries ==> Inserts(s.table, key, s.next, table))
  }

  predicate Attached(s: State, t: Ticket) {
    t.key in s.table.entries && s.table.entries[t.key] == t.id
  }

  predicate Decision(c: Config, s: State, t: Ticket, now: int)
    requires t.id in s.buckets
  {
    Admits(s.buckets[t.id].times, now, c.window, c.limit)
  }

  /** The second critical section. */
  function NextFinish(c: Config, s: State, thread: nat, now: int): State
    requires thread in s.waiting && s.waiting[thread].id in s.buckets
  {
    var t := s.waiting[thread];
    var b := s.buckets[t.id];
    s.(buckets := s.buckets[t.id := b.(times := After(b.times, now, c.window, c.limit))],
    waiting := s.waiting - {thread}, clock := now,
    log := s.log + (if Decision(c, s, t, now) then [Admission(t.key, now, t.id)] else []),
    lost := s.lost + if Attached(s, t) then {} else {t.key})
  }

  /** What the table knows of a client. */
  function Known(s: State, key: string): seq<int> {
    if key in s.table.entries && s.table.entries[key] in s.buckets then s.buckets[s.table.entries[key]].times else []
  }

  predicate SweptAt(s: State, cutoff: int, r: Table<nat>, k: string) {
    && (k in r.entries ==> k in s.table.entries && r.entries[k] == s.table.entries[k])
    && (k in s.table.entries && k !in r.entries ==> Stale(Known(s, k), cutoff))
  }

  /** Entries may leave the table only when they are stale; the rest stays as it is. */
  ghost predicate Sweeps(s: State, cutoff: int, r: Table<nat>) {
    match r
    case Table(entries, _) =>
      && Enumerates(r) && |entries| <= MAX_ENTRIES
      && (forall k :: SweptAt(s, cutoff, r, k))
  }

  ghost function LiveKeys(s: State, cutoff: int): set<string> {
    set k | k in s.table.entries && !Stale(Known(s, k), cutoff)
  }

  /** The program's sweep removes every stale entry. */
  lemma FullSweeps(s: State, cutoff: int)
    requires Enumerates(s.table) && |s.table.entries| <= MAX_ENTRIES
    ensures Sweeps(s, cutoff, Swept(s.table, LiveKeys(s, cutoff)))
  {
    SweptEnumerates(s.table, LiveKeys(s, cutoff));
  }

  function NextSweep(s: State, now: int, table: Table<nat>): State {
    match s
    case State(_, buckets, next, waiting, _, log, lost) => State(table, buckets, next, waiting, now, log, lost)
  }

  /** A step that is not enabled changes nothing; the clock never goes back. */
  ghost function Next(c: Config, s: State, step: Step): State {
    match step
    case Enter(thread, key, table) => if CanEnter(s, thread, key, table) then NextEnter(s, thread, key, table) else s
    case Finish(thread, dt) =>
      if thread in s.waiting && s.waiting[thread].id in s.buckets then NextFinish(c, s, thread, s.clock + dt) else s
    case Sweep(dt, table) =>
      if Sweeps(s, s.clock + dt - c.window, table) then NextSweep(s, s.clock + dt, table) else s
  }

  ghost function Run(c: Config, s: State, steps: seq<Step>): State
    decreases |steps|
  {
    if steps == [] then s else Run(c, Next(c, s, steps[0]), steps[1..])
  }

  // ---- the log ----

  function TimesOf(log: seq<Admission>, key: string): seq<int> {
    if log == [] then []
    else
      var n := |log| - 1;
      TimesOf(log[..n], key) + if log[n].key == key then [log[n].at] else []
  }

  lemma TimesOfSnoc(log: seq<Admission>, a: Admission, key: string)
    ensures TimesOf(log + [a], key) == TimesOf(log, key) + if a.key == key then [a.at] else []
  {
    assert (log + [a])[..|log|] == log;
  }

  lemma RecentSnoc(times: seq<int>, t: int, cutoff: int)
    ensures Recent(times + [t], cutoff) == Recent(times, cutoff) + if t > cutoff then [t] else []
  {
    assert (times + [t])[..|times|] == times;
  }

  /** Compacting early loses nothing for a later cutoff. */
  lemma {:induction false} RecentTwice(times: seq<int>, early: int, late: int)
    requires early <= late
    ensures Recent(Recent(times, early), late) == Recent(times, late)
  {
    if times != [] {
      var n := |times| - 1;
      RecentTwice(times[..n], early, late);
      if times[n] > early {
        RecentSnoc(Recent(times[..n], early), times[n], late);
      } else {
        assert Recent(times, early) == Recent(times[..n], early);
        assert Recent(times, late) == Recent(times[..n], late);
      }
    }
  }

  lemma RecentAgree(a: seq<int>, b: seq<int>, early: int, late: int)
    requires Recent(a, early) == Recent(b, early) && early <= late
    ensures Recent(a, late) == Recent(b, late)
  {
    RecentTwice(a, early, late);
    RecentTwice(b, early, late);
  }

  predicate Below(times: seq<int>, bound: int) {
    forall i :: 0 <= i < |times| ==> times[i] <= bound
  }

  lemma {:induction false} RecentOfOld(times: seq<int>, cutoff: int)
    requires Below(times, cutoff)
    ensures Recent(times, cutoff) == []
  {
    if times != [] {
      RecentOfOld(times[..|times| - 1], cutoff);
    }
  }

  lemma {:induction false} RecentOrdered(times: seq<int>, cutoff: int, bound: int)
    requires Sorted(times) && Below(times, bound)
    ensures Sorted(Recent(times, cutoff)) && Below(Recent(times, cutoff), bound)
  {
    if times != [] {
      var n := |times| - 1;
      RecentOrdered(times[..n], cutoff, times[n]);
    }
  }

  // ---- the invariant ----

  ghost predicate Wired(s: State) {
    && (forall k :: k in s.table.entries ==> s.table.entries[k] in s.buckets && s.buckets[s.table.entries[k]].key == k)
    && (forall t :: t in s.waiting ==> s.waiting[t].id in s.buckets && s.buckets[s.waiting[t].id].key == s.waiting[t].key)
    && (forall id :: id in s.buckets ==> id < s.next)
  }

  ghost predicate Ordered(s: State) {
    && (forall id :: id in s.buckets ==> Sorted(s.buckets[id].times) && Below(s.buckets[id].times, s.clock))
    && (forall k :: LogInOrder(s.log, s.clock, k))
  }

  predicate LogInOrder(log: seq<Admission>, clock: int, key: string) {
    Sorted(TimesOf(log, key)) && Below(TimesOf(log, key), clock)
  }

  /** Inside the window, the table knows exactly the admissions of the log. */
  ghost predicate Tracks(c: Config, s: State, key: string) {
    Recent(TimesOf(s.log, key), s.clock - c.window) == Recent(Known(s, key), s.clock - c.window)
  }

  ghost predicate Inv(c: Config, s: State) {
    match s
    case State(table, _, _, _, _, _, lost) =>
      && Enumerates(table) && |table.entries| <= MAX_ENTRIES
      && Wired(s) && Ordered(s)
      && (forall k :: k !in lost ==> Tracks(c, s, k))
  }

  lemma TracksLater(c: Config, s: State, key: string, now: int)
    requires Tracks(c, s, key) && now >= s.clock
    ensures Recent(TimesOf(s.log, key), now - c.window) == Recent(Known(s, key), now - c.window)
  {
    RecentAgree(TimesOf(s.log, key), Known(s, key), s.clock - c.window, now - c.window);
  }

  lemma TracksSame(c: Config, s: State, t: State, key: string)
    requires Tracks(c, s, key) && t.log == s.log && t.clock == s.clock && Known(t, key) == Known(s, key)
    ensures Tracks(c, t, key)
  {
  }

  lemma OrderedEnter(s: State, thread: nat, key: string, table: Table<nat>)
    requires Ordered(s)
    ensures Ordered(NextEnter(s, thread, key, table))
  {
    var t := NextEnter(s, thread, key, table);
    assert t.log == s.log && t.clock == s.clock;
  }

  lemma WiredEnter(s: State, thread: nat, key: string, table: Table<nat>)
    requires Wired(s) && CanEnter(s, thread, key, table)
    ensures Wired(NextEnter(s, thread, key, table))
  {
  }

  lemma KnownEnter(s: State, thread: nat, key: string, table: Table<nat>, k: string)
    requires Wired(s) && CanEnter(s, thread, key, table) && k !in NextEnter(s, thread, key, table).lost
    ensures Known(NextEnter(s, thread, key, table), k) == Known(s, k)
  {
    assert key !in s.table.entries && k in s.table.entries ==> k in table.entries.Keys;
  }

  lemma InvEnter(c: Config, s: State, thread: nat, key: string, table: Table<nat>)
    requires Inv(c, s) && CanEnter(s, thread, key, table)
    ensures Inv(c, NextEnter(s, thread, key, table))
  {
    var t := NextEnter(s, thread, key, table);
    WiredEnter(s, thread, key, table);
    OrderedEnter(s, thread, key, table);
    forall k | k !in t.lost
      ensures Tracks(c, t, k)
    {
      KnownEnter(s, thread, key, table, k);
      TracksSame(c, s, t, k);
    }
  }

  lemma AfterOrdered(times: seq<int>, clock: int, now: int, window: nat, limit: int)
    requires Sorted(times) && Below(times, clock) && clock <= now
    ensures Sorted(After(times, now, window, limit)) && Below(After(times, now, window, limit), now)
  {
    RecentOrdered(times, now - window, clock);
  }

  lemma LogOrdered(s: State, a: Admission, k: string)
    requires Ordered(s) && a.at >= s.clock
    ensures LogInOrder(s.log + [a], a.at, k) && LogInOrder(s.log, a.at, k)
  {
    assert LogInOrder(s.log, s.clock, k);
    TimesOfSnoc(s.log, a, k);
  }

  lemma OrderedFinish(c: Config, s: State, thread: nat, now: int)
    requires Wired(s) && Ordered(s) && thread in s.waiting && now >= s.clock
    ensures Ordered(NextFinish(c, s, thread, now))
  {
    var t := NextFinish(c, s, thread, now);
    var tk := s.waiting[thread];
    AfterOrdered(s.buckets[tk.id].times, s.clock, now, c.window, c.limit);
    assert t.log == s.log || t.log == s.log + [Admission(tk.key, now, tk.id)];
    forall k
      ensures LogInOrder(t.log, now, k)
    {
      LogOrdered(s, Admission(tk.key, now, tk.id), k);
    }
  }

  /** The decision is the log's decision, unless the record was cut off. */
  lemma DecisionIsExact(c: Config, s: State, thread: nat, now: int)
    requires Inv(c, s) && thread in s.waiting && now >= s.clock
    requires s.waiting[thread].key !in s.lost && Attached(s, s.waiting[thread])
    ensures Decision(c, s, s.waiting[thread], now) <==> |Recent(TimesOf(s.log, s.waiting[thread].key), now - c.window)| < c.limit
  {
    var key := s.waiting[thread].key;
    assert Tracks(c, s, key);
    TracksLater(c, s, key, now);
  }

  /** Recording a decision in the log and in the entry, side by side. */
  lemma RecordedAlike(logged: seq<int>, known: seq<int>, now: int, c: Config)
    requires Recent(logged, now - c.window) == Recent(known, now - c.window)
    ensures var ok := Admits(known, now, c.window, c.limit);
            Recent(logged + (if ok then [now] else []), now - c.window) ==
            Recent(After(known, now, c.window, c.limit), now - c.window)
  {
    var cutoff := now - c.window;
    var kept := Recent(known, cutoff);
    RecentTwice(known, cutoff, cutoff);
    RecentSnoc(logged, now, cutoff);
    RecentSnoc(kept, now, cutoff);
    assert kept + [] == kept && logged + [] == logged;
  }

  lemma LoggedFinish(c: Config, s: State, thread: nat, now: int, key: string)
    requires thread in s.waiting && s.waiting[thread].id in s.buckets
    ensures var tk := s.waiting[thread];
            TimesOf(NextFinish(c, s, thread, now).log, key) ==
            TimesOf(s.log, key) + if tk.key == key && Decision(c, s, tk, now) then [now] else []
  {
    TimesOfSnoc(s.log, Admission(s.waiting[thread].key, now, s.waiting[thread].id), key);
    assert s.log + [] == s.log && TimesOf(s.log, key) + [] == TimesOf(s.log, key);
  }

  lemma KnownFinish(c: Config, s: State, thread: nat, now: int, key: string)
    requires Wired(s) && thread in s.waiting
    ensures var tk := s.waiting[thread];
            Known(NextFinish(c, s, thread, now), key) ==
            if key == tk.key && Attached(s, tk) then After(Known(s, key), now, c.window, c.limit) else Known(s, key)
  {
    var tk := s.waiting[thread];
    if key in s.table.entries && s.table.entries[key] == tk.id {
      assert s.buckets[tk.id].key == key == tk.key;
    }
  }

  lemma TracksFinish(c: Config, s: State, thread: nat, now: int, key: string)
    requires Wired(s) && Tracks(c, s, key) && thread in s.waiting && now >= s.clock
    requires key == s.waiting[thread].key ==> Attached(s, s.waiting[thread])
    ensures Tracks(c, NextFinish(c, s, thread, now), key)
  {
    TracksLater(c, s, key, now);
    LoggedFinish(c, s, thread, now, key);
    KnownFinish(c, s, thread, now, key);
    if key == s.waiting[thread].key {
      RecordedAlike(TimesOf(s.log, key), Known(s, key), now, c);
    } else {
      assert TimesOf(s.log, key) + [] == TimesOf(s.log, key);
    }
  }

  lemma InvFinish(c: Config, s: State, thread: nat, now: int)
    requires Inv(c, s) && thread in s.waiting && now >= s.clock
    ensures Inv(c, NextFinish(c, s, thread, now))
  {
    OrderedFinish(c, s, thread, now);
    forall k | k !in NextFinish(c, s, thread, now).lost
      ensures Tracks(c, NextFinish(c, s, thread, now), k)
    {
      assert Tracks(c, s, k);
      TracksFinish(c, s, thread, now, k);
    }
  }

  lemma StaleIsOld(times: seq<int>, cutoff: int)
    requires Sorted(times) && Stale(times, cutoff)
    ensures Recent(times, cutoff) == []
  {
    RecentOfOld(times, cutoff);
  }

  lemma SweepAgree(logged: seq<int>, before: seq<int>, after: seq<int>, cutoff: int)
    requires Recent(logged, cutoff) == Recent(before, cutoff)
    requires after == before || (after == [] && Sorted(before) && Stale(before, cutoff))
    ensures Recent(logged, cutoff) == Recent(after, cutoff)
  {
    if after != before {
      StaleIsOld(before, cutoff);
    }
  }

  lemma KnownSweep(s: State, cutoff: int, now: int, table: Table<nat>, key: string)
    requires Wired(s) && Ordered(s) && Sweeps(s, cutoff, table)
    ensures var before, after := Known(s, key), Known(NextSweep(s, now, table), key);
            after == before || (after == [] && Sorted(before) && Stale(before, cutoff))
  {
    assert SweptAt(s, cutoff, table, key);
  }

  /** A swept entry held nothing inside the window. */
  lemma TracksSweep(c: Config, s: State, now: int, table: Table<nat>, key: string)
    requires Wired(s) && Ordered(s) && Tracks(c, s, key) && now >= s.clock && Sweeps(s, now - c.window, table)
    ensures Tracks(c, NextSweep(s, now, table), key)
  {
    var t := NextSweep(s, now, table);
    TracksLater(c, s, key, now);
    KnownSweep(s, now - c.window, now, table, key);
    SweepAgree(TimesOf(s.log, key), Known(s, key), Known(t, key), now - c.window);
  }

  lemma OrderedSweep(c: Config, s: State, now: int, table: Table<nat>)
    requires Ordered(s) && now >= s.clock
    ensures Ordered(NextSweep(s, now, table))
  {
    forall k
      ensures LogInOrder(s.log, now, k)
    {
      assert LogInOrder(s.log, s.clock, k);
    }
  }

  lemma WiredSweep(c: Config, s: State, now: int, table: Table<nat>)
    requires Wired(s) && Sweeps(s, now - c.window, table)
    ensures Wired(NextSweep(s, now, table))
  {
    forall k | k in table.entries
      ensures table.entries[k] in s.buckets && s.buckets[table.entries[k]].key == k
    {
      assert SweptAt(s, now - c.window, table, k);
    }
  }

  lemma InvSweep(c: Config, s: State, now: int, table: Table<nat>)
    requires Inv(c, s) && now >= s.clock && Sweeps(s, now - c.window, table)
    ensures Inv(c, NextSweep(s, now, table))
  {
    OrderedSweep(c, s, now, table);
    WiredSweep(c, s, now, table);
    forall k | k !in s.lost
      ensures Tracks(c, NextSweep(s, now, table), k)
    {
      assert Tracks(c, s, k);
      TracksSweep(c, s, now, table, k);
    }
  }

  lemma FinishStep(c: Config, s: State, thread: nat, dt: nat, t: State)
    requires t == Next(c, s, Finish(thread, dt))
    ensures t == s || (thread in s.waiting && s.waiting[thread].id in s.buckets && t == NextFinish(c, s, thread, s.clock + dt))
  {
  }

  lemma EnterStep(c: Config, s: State, thread: nat, key: string, table: Table<nat>, t: State)
    requires t == Next(c, s, Enter(thread, key, table))
    ensures t == s || (CanEnter(s, thread, key, table) && t == NextEnter(s, thread, key, table))
  {
  }

  lemma SweepStep(c: Config, s: State, dt: nat, table: Table<nat>, t: State)
    requires t == Next(c, s, Sweep(dt, table))
    ensures t == s || (Sweeps(s, s.clock + dt - c.window, table) && t == NextSweep(s, s.clock + dt, table))
  {
  }

  lemma InvAfterEnter(c: Config, s: State, thread: nat, key: string, table: Table<nat>, t: State)
    requires Inv(c, s) && t == Next(c, s, Enter(thread, key, table))
    ensures Inv(c, t)
  {
    EnterStep(c, s, thread, key, table, t);
    if t != s { InvEnter(c, s, thread, key, table); }
  }

  lemma InvAfterFinish(c: Config, s: State, thread: nat, dt: nat, t: State)
    requires Inv(c, s) && t == Next(c, s, Finish(thread, dt))
    ensures Inv(c, t)
  {
    FinishStep(c, s, thread, dt, t);
    if t != s { InvFinish(c, s, thread, s.clock + dt); }
  }

  lemma InvAfterSweep(c: Config, s: State, dt: nat, table: Table<nat>, t: State)
    requires Inv(c, s) && t == Next(c, s, Sweep(dt, table))
    ensures Inv(c, t)
  {
    SweepStep(c, s, dt, table, t);
    if t != s { InvSweep(c, s, s.clock + dt, table); }
  }

  lemma InvNext(c: Config, s: State, step: Step)
    requires Inv(c, s)
    ensures Inv(c, Next(c, s, step))
  {
    match step
    case Enter(thread, key, table) => InvAfterEnter(c, s, thread, key, table, Next(c, s, step));
    case Finish(thread, dt) => InvAfterFinish(c, s, thread, dt, Next(c, s, step));
    case Sweep(dt, table) => InvAfterSweep(c, s, dt, table, Next(c, s, step));
  }

  /** Over every run: the order enumerates exactly the entries, the table stays under its
      cap, all timestamps are sorted, and the table knows what the log knows. */
  lemma {:induction false} InvRun(c: Config, s: State, steps: seq<Step>)
    requires Inv(c, s)
    ensures Inv(c, Run(c, s, steps))
    decreases |steps|
  {
    if steps != [] {
      InvNext(c, s, steps[0]);
      InvRun(c, Next(c, s, steps[0]), steps[1..]);
    }
  }

  lemma StartInv(c: Config, clock: int)
    ensures Inv(c, Start(clock))
  {
    assert forall k :: LogInOrder([], clock, k);
  }

  // ---- no window holds more than the limit ----

  /** The timestamps in the half-open window that ends at t. */
  function InWindow(times: seq<int>, t: int, window: nat): seq<int> {
    if times == [] then []
    else
      var n := |times| - 1;
      InWindow(times[..n], t, window) + if t - window < times[n] <= t then [times[n]] else []
  }

  /** Each admission found fewer than the limit before it. */
  predicate SpacedAt(c: Config, times: seq<int>, i: int) {
    0 <= i < |times| ==> |Recent(times[..i], times[i] - c.window)| < c.limit
  }

  ghost predicate Spaced(c: Config, times: seq<int>) {
    forall i :: SpacedAt(c, times, i)
  }

  lemma {:induction false} RecentShrinks(times: seq<int>, early: int, late: int)
    requires early <= late
    ensures |Recent(times, late)| <= |Recent(times, early)|
  {
    RecentTwice(times, early, late);
  }

  lemma {:induction false} WindowIsRecent(times: seq<int>, t: int, window: nat)
    requires Below(times, t)
    ensures InWindow(times, t, window) == Recent(times, t - window)
  {
    if times != [] {
      WindowIsRecent(times[..|times| - 1], t, window);
    }
  }

  lemma {:induction false} SpacedBoundsWindows(c: Config, times: seq<int>, t: int)
    requires c.limit >= 0 && Sorted(times) && Spaced(c, times)
    ensures |InWindow(times, t, c.window)| <= c.limit
  {
    if times != [] {
      var n := |times| - 1;
      var front := times[..n];
      forall i
        ensures SpacedAt(c, front, i)
      {
        assert SpacedAt(c, times, i);
        assert 0 <= i < n ==> front[..i] == times[..i];
      }
      SpacedBoundsWindows(c, front, t);
      assert SpacedAt(c, times, n);
      if times[n] <= t {
        WindowIsRecent(front, t, c.window);
        RecentShrinks(front, times[n] - c.window, t - c.window);
      }
    }
  }

  lemma SpacedAtSnoc(c: Config, times: seq<int>, now: int, i: int)
    requires SpacedAt(c, times, i) && |Recent(times, now - c.window)| < c.limit
    ensures SpacedAt(c, times + [now], i)
  {
    if 0 <= i < |times| {
      assert (times + [now])[..i] == times[..i];
    } else if i == |times| {
      assert (times + [now])[..i] == times;
    }
  }

  lemma SpacedSnoc(c: Config, times: seq<int>, now: int)
    requires Spaced(c, times) && |Recent(times, now - c.window)| < c.limit
    ensures Spaced(c, times + [now])
  {
    forall i
      ensures SpacedAt(c, times + [now], i)
    {
      assert SpacedAt(c, times, i);
      SpacedAtSnoc(c, times, now, i);
    }
  }

  ghost predicate AllSpaced(c: Config, s: State) {
    match s
    case State(_, _, _, _, _, log, lost) => forall k :: k !in lost ==> Spaced(c, TimesOf(log, k))
  }

  lemma SpacedFinish(c: Config, s: State, thread: nat, now: int, k: string)
    requires Inv(c, s) && AllSpaced(c, s) && thread in s.waiting && now >= s.clock && k !in NextFinish(c, s, thread, now).lost
    ensures Spaced(c, TimesOf(NextFinish(c, s, thread, now).log, k))
  {
    var tk := s.waiting[thread];
    LoggedFinish(c, s, thread, now, k);
    assert Spaced(c, TimesOf(s.log, k));
    assert TimesOf(s.log, k) + [] == TimesOf(s.log, k);
    if k == tk.key && Decision(c, s, tk, now) {
      assert Attached(s, tk);
      DecisionIsExact(c, s, thread, now);
      SpacedSnoc(c, TimesOf(s.log, k), now);
    }
  }

  lemma LogOnlyGrowsOnFinish(c: Config, s: State, step: Step)
    requires !(step.Finish? && step.thread in s.waiting)
    ensures Next(c, s, step).log == s.log && s.lost <= Next(c, s, step).lost
  {
  }

  lemma AllSpacedNext(c: Config, s: State, step: Step)
    requires Inv(c, s) && AllSpaced(c, s)
    ensures AllSpaced(c, Next(c, s, step))
  {
    if step.Finish? && step.thread in s.waiting {
      AllSpacedFinish(c, s, step.thread, s.clock + step.dt);
    } else {
      LogOnlyGrowsOnFinish(c, s, step);
      SpacedFrame(c, s, Next(c, s, step));
    }
  }

  lemma AllSpacedFinish(c: Config, s: State, thread: nat, now: int)
    requires Inv(c, s) && AllSpaced(c, s) && thread in s.waiting && now >= s.clock
    ensures AllSpaced(c, NextFinish(c, s, thread, now))
  {
    forall k | k !in NextFinish(c, s, thread, now).lost
      ensures Spaced(c, TimesOf(NextFinish(c, s, thread, now).log, k))
    {
      SpacedFinish(c, s, thread, now, k);
    }
  }

  lemma SpacedFrame(c: Config, s: State, t: State)
    requires AllSpaced(c, s) && t.log == s.log && s.lost <= t.lost
    ensures AllSpaced(c, t)
  {
    assert forall k :: k !in t.lost ==> k !in s.lost && Spaced(c, TimesOf(s.log, k));
  }

  lemma {:induction false} AllSpacedRun(c: Config, s: State, steps: seq<Step>)
    requires Inv(c, s) && AllSpaced(c, s)
    ensures Inv(c, Run(c, s, steps)) && AllSpaced(c, Run(c, s, steps))
    decreases |steps|
  {
    if steps != [] {
      InvNext(c, s, steps[0]);
      AllSpacedNext(c, s, steps[0]);
      AllSpacedRun(c, Next(c, s, steps[0]), steps[1..]);
    }
  }

  /** In every run, a client whose entry was neither evicted nor used after leaving the
      table is never admitted more than `limit` times within any window. */
  lemma LimitHolds(c: Config, clock: int, steps: seq<Step>, key: string, t: int)
    requires c.limit >= 0
    ensures var s := Run(c, Start(clock), steps);
            key !in s.lost ==> |InWindow(TimesOf(s.log, key), t, c.window)| <= c.limit
  {
    StartInv(c, clock);
    assert AllSpaced(c, Start(clock)) by {
      assert forall k :: TimesOf(Start(clock).log, k) == [];
    }
    AllSpacedRun(c, Start(clock), steps);
    var s := Run(c, Start(clock), steps);
    if key !in s.lost {
      assert LogInOrder(s.log, s.clock, key);
      SpacedBoundsWindows(c, TimesOf(s.log, key), t);
    }
  }

  // ---- exactly when the record is cut off ----

  /** A decision keeps the table in step with the log if and only if it is recorded in an
      entry that the table still holds, or refuses. */
  lemma DecisionForgottenIff(c: Config, s: State, thread: nat, now: int)
    requires Inv(c, s) && thread in s.waiting && now >= s.clock && c.window > 0 && s.waiting[thread].key !in s.lost
    ensures var tk := s.waiting[thread];
            Tracks(c, NextFinish(c, s, thread, now), tk.key) <==> Attached(s, tk) || !Decision(c, s, tk, now)
  {
    var tk := s.waiting[thread];
    var t := NextFinish(c, s, thread, now);
    assert Tracks(c, s, tk.key);
    if Attached(s, tk) {
      TracksFinish(c, s, thread, now, tk.key);
    } else {
      TracksLater(c, s, tk.key, now);
      LoggedFinish(c, s, thread, now, tk.key);
      KnownFinish(c, s, thread, now, tk.key);
      RecentSnoc(TimesOf(s.log, tk.key), now, now - c.window);
      assert TimesOf(s.log, tk.key) + [] == TimesOf(s.log, tk.key);
    }
  }

  lemma UnknownTracksIff(c: Config, s: State, t: State, k: string)
    requires Tracks(c, s, k) && t.log == s.log && t.clock == s.clock && Known(t, k) == []
    ensures Tracks(c, t, k) <==> Recent(Known(s, k), s.clock - c.window) == []
  {
  }

  /** An eviction keeps a client's record if and only if nothing of it was in the window. */
  lemma EvictionForgetsIff(c: Config, s: State, thread: nat, key: string, table: Table<nat>, k: string)
    requires Inv(c, s) && CanEnter(s, thread, key, table) && k !in s.lost
    requires key !in s.table.entries && k in s.table.entries && k !in table.entries
    ensures Tracks(c, NextEnter(s, thread, key, table), k) <==> Recent(Known(s, k), s.clock - c.window) == []
  {
    UnknownTracksIff(c, s, NextEnter(s, thread, key, table), k);
  }
}
