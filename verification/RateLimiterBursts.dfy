/** What a cut-off record allows: a run of the limiter that passes any number of requests
    of one client at one instant. */
module RateLimiterBursts {
  import opened RateLimiter
  import opened RateLimiterRuns

  lemma RunUnfolds(c: Config, s: State, step: Step, rest: seq<Step>)
    ensures Run(c, s, [step] + rest) == Run(c, Next(c, s, step), rest)
  {
    assert ([step] + rest)[1..] == rest;
  }

  lemma {:induction false} RunConcat(c: Config, s: State, first: seq<Step>, second: seq<Step>)
    ensures Run(c, s, first + second) == Run(c, Run(c, s, first), second)
    decreases |first|
  {
    if first == [] {
      assert first + second == second;
    } else {
      RunUnfolds(c, s, first[0], first[1..] + second);
      assert first + second == [first[0]] + (first[1..] + second);
      RunConcat(c, Next(c, s, first[0]), first[1..], second);
    }
  }

  const Nobody: Table<nat> := Table(map[], [])

  function Alone(key: string, id: nat): Table<nat> {
    Table(map[key := id], [key])
  }

  // ---- entering and being swept, once a window ----

  /** Thread i has entered with entry i, in which nothing has been recorded. */
  predicate UnusedAt(s: State, key: string, i: nat) {
    i in s.waiting && s.waiting[i] == Ticket(key, i) && i in s.buckets && s.buckets[i].times == []
  }

  ghost predicate Unused(s: State, key: string, j: nat, n: nat) {
    forall i: nat :: j <= i < n ==> UnusedAt(s, key, i)
  }

  /** Threads 0 to k - 1 hold such entries, and none of them is in the table. */
  ghost predicate Parked(s: State, key: string, k: nat) {
    && s.table == Nobody && s.next == k && s.log == [] && Unused(s, key, 0, k)
    && (forall i :: i in s.waiting ==> i < k)
  }

  lemma InsertsAlone(key: string, k: nat)
    ensures Inserts(Nobody, key, k, Alone(key, k))
  {
    assert [key] == [] + [key];
  }

  function Entered(s: State, key: string, k: nat): State {
    s.(table := Alone(key, k), buckets := s.buckets[k := Bucket(key, [])], next := k + 1,
    waiting := s.waiting[k := Ticket(key, k)])
  }

  lemma EntersEmpty(s: State, key: string, k: nat)
    requires s.table == Nobody && s.next == k
    ensures NextEnter(s, k, key, Alone(key, k)) == Entered(s, key, k)
  {
    assert Nobody.entries.Keys - Alone(key, k).entries.Keys == {};
    assert s.lost + {} == s.lost;
  }

  lemma EntersAlone(c: Config, s: State, key: string, k: nat)
    requires Parked(s, key, k)
    ensures Next(c, s, Enter(k, key, Alone(key, k))) == Entered(s, key, k)
  {
    InsertsAlone(key, k);
    EntersEmpty(s, key, k);
    assert CanEnter(s, k, key, Alone(key, k));
  }

  lemma CanSweepUnused(s: State, key: string, id: nat, cutoff: int)
    requires s.table == Alone(key, id) && id in s.buckets && s.buckets[id].times == []
    ensures Sweeps(s, cutoff, Nobody)
  {
    forall k
      ensures SweptAt(s, cutoff, Nobody, k)
    {
    }
  }

  /** Time passes only from one sweep to the next, which is one window. */
  ghost predicate Ticking(c: Config, steps: seq<Step>) {
    forall step :: step in steps ==> (step.Sweep? ==> step.dt == c.window) && (step.Finish? ==> step.dt == 0)
  }

  lemma SweptIsParked(s: State, key: string, k: nat, now: int)
    requires Parked(s, key, k)
    ensures Parked(NextSweep(Entered(s, key, k), now, Nobody), key, k + 1)
  {
    var t := NextSweep(Entered(s, key, k), now, Nobody);
    forall i: nat | i < k + 1
      ensures UnusedAt(t, key, i)
    {
      assert i < k ==> UnusedAt(s, key, i);
    }
  }

  lemma SweepsUnused(c: Config, s: State, key: string, k: nat)
    requires s.table == Alone(key, k) && k in s.buckets && s.buckets[k].times == []
    ensures Next(c, s, Sweep(c.window, Nobody)) == NextSweep(s, s.clock + c.window, Nobody)
  {
    CanSweepUnused(s, key, k, s.clock + c.window - c.window);
  }

  /** A request enters, and the sweep at the end of the window finds its entry unused. */
  lemma ParksOne(c: Config, s: State, key: string, k: nat) returns (steps: seq<Step>, t: State)
    requires Parked(s, key, k)
    ensures Run(c, s, steps) == t && Ticking(c, steps)
    ensures Parked(t, key, k + 1) && t.clock == s.clock + c.window
  {
    var enter, sweep := Enter(k, key, Alone(key, k)), Sweep(c.window, Nobody);
    EntersAlone(c, s, key, k);
    var s1 := Entered(s, key, k);
    SweepsUnused(c, s1, key, k);
    t := NextSweep(s1, s.clock + c.window, Nobody);
    SweptIsParked(s, key, k, s.clock + c.window);
    RunUnfolds(c, s, enter, [sweep] + []);
    RunUnfolds(c, s1, sweep, []);
    steps := [enter] + ([sweep] + []);
  }

  lemma {:induction false} Parks(c: Config, s: State, key: string, k: nat, n: nat) returns (steps: seq<Step>, t: State)
    requires k <= n && Parked(s, key, k)
    ensures Run(c, s, steps) == t && Ticking(c, steps)
    ensures Parked(t, key, n) && t.clock == s.clock + (n - k) * c.window
    decreases n - k
  {
    if k == n {
      steps, t := [], s;
    } else {
      var first, s1 := ParksOne(c, s, key, k);
      var rest, s2 := Parks(c, s1, key, k + 1, n);
      RunConcat(c, s, first, rest);
      steps, t := first + rest, s2;
      assert (n - k) * c.window == (n - (k + 1)) * c.window + c.window;
    }
  }

  // ---- and then deciding, all at once ----

  /** Threads j to n - 1 of one client, admitted at one instant by an entry each. */
  function Burst(key: string, at: int, j: nat, n: nat): (log: seq<Admission>)
    requires j <= n
    ensures |log| == n - j
    decreases n - j
  {
    if j == n then [] else [Admission(key, at, j)] + Burst(key, at, j + 1, n)
  }

  /** An entry that holds no timestamp admits, in the table or not. */
  lemma AdmitsUnused(c: Config, s: State, key: string, j: nat, n: nat)
    requires c.limit > 0 && j < n && Unused(s, key, j, n)
    ensures var t := Next(c, s, Finish(j, 0));
            t.log == s.log + [Admission(key, s.clock, j)] && t.clock == s.clock && Unused(t, key, j + 1, n)
  {
    assert UnusedAt(s, key, j);
    assert Admits([], s.clock, c.window, c.limit);
    var t := NextFinish(c, s, j, s.clock);
    assert Next(c, s, Finish(j, 0)) == t;
    forall i: nat | j + 1 <= i < n
      ensures UnusedAt(t, key, i)
    {
      assert UnusedAt(s, key, i);
    }
  }

  lemma BurstFront(log: seq<Admission>, key: string, at: int, j: nat, n: nat)
    requires j < n
    ensures log + [Admission(key, at, j)] + Burst(key, at, j + 1, n) == log + Burst(key, at, j, n)
  {
  }

  lemma {:induction false} AllFinish(c: Config, s: State, key: string, j: nat, n: nat) returns (steps: seq<Step>)
    requires c.limit > 0 && j <= n && Unused(s, key, j, n)
    ensures Run(c, s, steps).log == s.log + Burst(key, s.clock, j, n) && Ticking(c, steps)
    decreases n - j
  {
    if j == n {
      steps := [];
      assert s.log + Burst(key, s.clock, j, n) == s.log;
    } else {
      AdmitsUnused(c, s, key, j, n);
      var t := Next(c, s, Finish(j, 0));
      var rest := AllFinish(c, t, key, j + 1, n);
      RunUnfolds(c, s, Finish(j, 0), rest);
      steps := [Finish(j, 0)] + rest;
      BurstFront(s.log, key, s.clock, j, n);
    }
  }

  lemma Bursts(c: Config, s: State, key: string, n: nat) returns (steps: seq<Step>)
    requires c.limit > 0 && Parked(s, key, 0)
    ensures Ticking(c, steps) && Run(c, s, steps).log == Burst(key, s.clock + n * c.window, 0, n)
  {
    var park, t := Parks(c, s, key, 0, n);
    var finish := AllFinish(c, t, key, 0, n);
    RunConcat(c, s, park, finish);
    steps := park + finish;
    assert t.log + Burst(key, t.clock, 0, n) == Burst(key, t.clock, 0, n);
  }

  /** The exception is real and unbounded. The sweeper runs once a window; in each of n
      windows a request of one client stalls between its two critical sections while its
      unused entry is swept. When they go on, all n pass at one instant, whatever the
      limit. */
  lemma SweepBetweenSections(c: Config, key: string, clock: int, n: nat) returns (steps: seq<Step>)
    requires c.limit > 0
    ensures Ticking(c, steps) && Run(c, Start(clock), steps).log == Burst(key, clock + n * c.window, 0, n)
  {
    steps := Bursts(c, Start(clock), key, n);
  }
}
