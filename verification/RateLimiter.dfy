/** The in-memory sliding-window rate limiter: its per-client buffers, the bounded table
    of clients with first-in-first-out eviction, and the background sweep. */
module RateLimiter {

  const MAX_ENTRIES: nat := 10000

  // ---- one client's timestamps ----

  /** The timestamps after the cutoff, in order. */
  function Recent(times: seq<int>, cutoff: int): (kept: seq<int>)
    ensures |kept| <= |times|
  {
    if times == [] then []
    else
      var n := |times| - 1;
      Recent(times[..n], cutoff) + if times[n] > cutoff then [times[n]] else []
  }

  /** The places of the timestamps after the cutoff. */
  ghost function Later(times: seq<int>, cutoff: int): set<int> {
    set i | 0 <= i < |times| && times[i] > cutoff
  }

  lemma {:induction false} RecentCounts(times: seq<int>, cutoff: int)
    ensures |Recent(times, cutoff)| == |Later(times, cutoff)|
  {
    if times != [] {
      var n := |times| - 1;
      RecentCounts(times[..n], cutoff);
      assert Later(times, cutoff) == Later(times[..n], cutoff) + if times[n] > cutoff then {n} else {};
    }
  }

  /** `kept` are exactly the timestamps after the cutoff, each at the place that the
      number of those before it gives. */
  ghost predicate KeepsLater(times: seq<int>, cutoff: int, kept: seq<int>) {
    |kept| == |Later(times, cutoff)| && forall i :: 0 <= i < |times| && times[i] > cutoff ==> KeptAt(times, cutoff, kept, i)
  }

  ghost predicate KeptAt(times: seq<int>, cutoff: int, kept: seq<int>, i: int)
    requires 0 <= i < |times|
  {
    var place := |Later(times[..i], cutoff)|;
    place < |kept| && kept[place] == times[i]
  }

  lemma {:induction false} RecentKeepsLater(times: seq<int>, cutoff: int)
    ensures KeepsLater(times, cutoff, Recent(times, cutoff))
  {
    RecentCounts(times, cutoff);
    if times != [] {
      var n := |times| - 1;
      var front := times[..n];
      RecentKeepsLater(front, cutoff);
      RecentCounts(front, cutoff);
      forall i | 0 <= i < |times| && times[i] > cutoff
        ensures KeptAt(times, cutoff, Recent(times, cutoff), i)
      {
        if i < n {
          assert front[i] == times[i] && KeptAt(front, cutoff, Recent(front, cutoff), i);
          assert front[..i] == times[..i];
        }
      }
    }
  }

  predicate Admits(times: seq<int>, now: int, window: int, limit: int) {
    |Recent(times, now - window)| < limit
  }

  /** The buffer after a request at `now`. */
  function After(times: seq<int>, now: int, window: int, limit: int): seq<int> {
    Recent(times, now - window) + if Admits(times, now, window, limit) then [now] else []
  }

  /** A request is admitted if and only if fewer than the limit lie in the window; the
      buffer then holds those, in order, and the new one if it was admitted. */
  ghost predicate Decides(times: seq<int>, now: int, window: int, limit: int, ok: bool, after: seq<int>) {
    && (ok <==> |Later(times, now - window)| < limit)
    && (if ok then after != [] && after[|after| - 1] == now && KeepsLater(times, now - window, after[..|after| - 1])
        else KeepsLater(times, now - window, after))
  }

  lemma AfterDecides(times: seq<int>, now: int, window: int, limit: int)
    ensures Decides(times, now, window, limit, Admits(times, now, window, limit), After(times, now, window, limit))
  {
    var kept := Recent(times, now - window);
    RecentCounts(times, now - window);
    RecentKeepsLater(times, now - window);
    assert (kept + [now])[..|kept|] == kept && kept + [] == kept;
  }

  predicate Sorted(times: seq<int>) {
    forall i, j :: 0 <= i < j < |times| ==> times[i] <= times[j]
  }

  lemma RecentNext(times: seq<int>, i: nat, cutoff: int)
    requires i < |times|
    ensures Recent(times[..i + 1], cutoff) == Recent(times[..i], cutoff) + if times[i] > cutoff then [times[i]] else []
  {
    assert times[..i + 1][..i] == times[..i];
  }

  /** Drops the timestamps at or before the cutoff, writing over the buffer being read. */
  method CompactInPlace(buf: array<int>, n: nat, cutoff: int) returns (k: nat)
    requires n <= buf.Length
    modifies buf
    ensures k <= n && buf[..k] == Recent(old(buf[..n]), cutoff)
  {
    ghost var was := buf[..n];
    k := 0;
    for i := 0 to n
      invariant k <= i
      invariant buf[..k] == Recent(was[..i], cutoff)
      invariant forall j :: i <= j < n ==> buf[j] == was[j]
    {
      RecentNext(was, i, cutoff);
      if buf[i] > cutoff {
        buf[k] := buf[i];
        assert buf[..k + 1] == buf[..k] + [was[i]];
        k := k + 1;
      }
    }
    assert was[..n] == was;
  }

  class Entry {
    var buf: array<int>
    var len: nat

    ghost predicate Valid()
      reads this
    {
      len <= buf.Length
    }

    ghost function Times(): seq<int>
      requires Valid()
      reads this, buf
    {
      buf[..len]
    }

    constructor ()
      ensures Valid() && fresh(buf) && Times() == []
    {
      buf := new int[0];
      len := 0;
    }

    /** The second critical section of allow: under the entry's own lock. */
    method Admit(now: int, window: int, limit: int) returns (ok: bool)
      requires Valid()
      modifies this, buf
      ensures Valid() && (buf == old(buf) || fresh(buf))
      ensures ok <==> Admits(old(Times()), now, window, limit)
      ensures Times() == After(old(Times()), now, window, limit)
    {
      var kept := CompactInPlace(buf, len, now - window);
      if kept >= limit {
        len := kept;
        return false;
      }
      Append(kept, now);
      return true;
    }

    /** append(kept, now): into spare capacity, or into a larger copy. */
    method Append(kept: nat, now: int)
      requires kept <= buf.Length
      modifies this, buf
      ensures Valid() && (buf == old(buf) || fresh(buf)) && Times() == old(buf[..kept]) + [now]
    {
      if kept == buf.Length {
        var bigger := new int[2 * kept + 1];
        for i := 0 to kept
          invariant buf == old(buf) && kept <= buf.Length && bigger != buf
          invariant buf[..kept] == old(buf[..kept])
          invariant bigger[..i] == buf[..i]
        {
          bigger[i] := buf[i];
        }
        buf := bigger;
      }
      buf[kept] := now;
      len := kept + 1;
    }
  }

  // ---- the table of clients ----

  /** `order` lists the keys of `entries` from the oldest insertion to the newest. */
  datatype Table<E> = Table(entries: map<string, E>, order: seq<string>)

  predicate Distinct(order: seq<string>) {
    forall i, j :: 0 <= i < j < |order| ==> order[i] != order[j]
  }

  ghost predicate Enumerates<E>(t: Table<E>) {
    match t
    case Table(entries, order) => Distinct(order) && forall k :: k in order <==> k in entries
  }

  function DropOldest<E>(t: Table<E>): Table<E>
    requires t.order != []
  {
    Table(t.entries - {t.order[0]}, t.order[1..])
  }

  lemma DropOldestEnumerates<E>(t: Table<E>)
    requires Enumerates(t) && t.order != []
    ensures Enumerates(DropOldest(t)) && |DropOldest(t).entries| == |t.entries| - 1
  {
    var d := DropOldest(t);
    assert t.order[0] in t.entries;
    assert d.entries.Keys == t.entries.Keys - {t.order[0]};
    assert |d.entries| == |d.entries.Keys| && |t.entries| == |t.entries.Keys|;
    forall k
      ensures k in d.order <==> k in d.entries
    {
      assert t.order == [t.order[0]] + d.order;
      assert k in t.order <==> k in t.entries;
    }
  }

  lemma EmptyOrderMeansEmpty<E>(t: Table<E>)
    requires Enumerates(t)
    ensures t.order == [] <==> |t.entries| == 0
  {
    if t.order == [] {
      assert forall k :: k in t.entries ==> k in t.order;
      assert t.entries.Keys == {};
    } else {
      assert t.order[0] in t.entries;
      assert t.order[0] in t.entries.Keys;
    }
    assert |t.entries| == |t.entries.Keys|;
  }

  lemma {:induction false} AsManyKeys<E>(t: Table<E>)
    requires Enumerates(t)
    ensures |t.order| == |t.entries|
    decreases |t.order|
  {
    EmptyOrderMeansEmpty(t);
    if t.order != [] {
      DropOldestEnumerates(t);
      AsManyKeys(DropOldest(t));
    }
  }

  /** How many entries must go before a new one fits under the cap of 10000. */
  function Surplus(size: nat): nat {
    if size < 10000 then 0 else size - 9999
  }

  /** First in, first out: the oldest entries go, as few as needed; the others keep their
      entry and their place, and the new key comes last. */
  ghost predicate Fifo<E>(t: Table<E>, key: string, e: E, r: Table<E>) {
    match r
    case Table(entries, order) =>
      var n := Surplus(|t.entries|);
      && Enumerates(r) && n <= |t.order| && order == t.order[n..] + [key]
      && key in entries && entries[key] == e
      && (forall k :: k in entries && k != key ==> k in t.entries && entries[k] == t.entries[k])
  }

  /** Below the cap nothing goes, at the cap the first key does. */
  lemma InsertIsFifo<E>(t: Table<E>, room: Table<E>, key: string, e: E)
    requires Enumerates(t) && |t.entries| <= 10000 && key !in t.entries
    requires if |t.entries| < 10000 then room == t else t.order != [] && room == DropOldest(t)
    ensures Fifo(t, key, e, Table(room.entries[key := e], room.order + [key]))
    ensures |room.entries[key := e]| <= 10000
  {
    if |t.entries| == 10000 {
      DropOldestEnumerates(t);
    } else {
      assert t.order[0..] == t.order;
    }
    InsertEnumerates(room, key, e);
  }

  lemma InsertEnumerates<E>(t: Table<E>, key: string, e: E)
    requires Enumerates(t) && key !in t.entries
    ensures Enumerates(Table(t.entries[key := e], t.order + [key]))
    ensures |t.entries[key := e]| == |t.entries| + 1
  {
    var r := Table(t.entries[key := e], t.order + [key]);
    assert r.entries.Keys == t.entries.Keys + {key};
    assert key !in t.order;
  }

  /** What the sweep leaves: the entries that are not stale, in their old order. */
  function FilterKeys(order: seq<string>, keep: set<string>): seq<string> {
    if order == [] then []
    else
      var n := |order| - 1;
      FilterKeys(order[..n], keep) + if order[n] in keep then [order[n]] else []
  }

  lemma {:induction false} FilterKeysMembers(order: seq<string>, keep: set<string>, k: string)
    ensures k in FilterKeys(order, keep) <==> k in order && k in keep
  {
    if order != [] {
      var n := |order| - 1;
      FilterKeysMembers(order[..n], keep, k);
      assert order == order[..n] + [order[n]];
    }
  }

  lemma {:induction false} FilterKeysDistinct(order: seq<string>, keep: set<string>)
    requires Distinct(order)
    ensures Distinct(FilterKeys(order, keep))
  {
    if order != [] {
      var n := |order| - 1;
      FilterKeysDistinct(order[..n], keep);
      FilterKeysMembers(order[..n], keep, order[n]);
    }
  }

  predicate PlacedAt(order: seq<string>, a: string, b: string, i: int, j: int) {
    0 <= i < j < |order| && order[i] == a && order[j] == b
  }

  ghost predicate Precedes(order: seq<string>, a: string, b: string) {
    exists i, j :: PlacedAt(order, a, b, i, j)
  }

  /** The keys that are left stand in the order they stood in. */
  ghost predicate SameOrder(order: seq<string>, kept: seq<string>) {
    forall p, q :: 0 <= p < q < |kept| ==> Precedes(order, kept[p], kept[q])
  }

  lemma PrecedesLonger(order: seq<string>, x: string, a: string, b: string)
    requires Precedes(order, a, b)
    ensures Precedes(order + [x], a, b)
  {
    var i, j :| PlacedAt(order, a, b, i, j);
    assert PlacedAt(order + [x], a, b, i, j);
  }

  lemma PrecedesLast(order: seq<string>, x: string, a: string)
    requires a in order
    ensures Precedes(order + [x], a, x)
  {
    var i :| 0 <= i < |order| && order[i] == a;
    assert PlacedAt(order + [x], a, x, i, |order|);
  }

  lemma {:induction false} FilterKeysInOrder(order: seq<string>, keep: set<string>)
    ensures SameOrder(order, FilterKeys(order, keep))
  {
    if order != [] {
      var n := |order| - 1;
      var front, x := order[..n], order[n];
      assert order == front + [x];
      FilterKeysInOrder(front, keep);
      var kept := FilterKeys(front, keep);
      forall p, q | 0 <= p < q < |FilterKeys(order, keep)|
        ensures Precedes(order, FilterKeys(order, keep)[p], FilterKeys(order, keep)[q])
      {
        if q < |kept| {
          PrecedesLonger(front, x, kept[p], kept[q]);
        } else {
          FilterKeysMembers(front, keep, kept[p]);
          PrecedesLast(front, x, kept[p]);
        }
      }
    }
  }

  /** Not touched within the window, judged by the newest timestamp. */
  predicate Stale(times: seq<int>, cutoff: int) {
    times == [] || times[|times| - 1] <= cutoff
  }

  function Restrict<E>(m: map<string, E>, keys: set<string>): map<string, E> {
    map k | k in m && k in keys :: m[k]
  }

  ghost function Swept<E>(t: Table<E>, live: set<string>): Table<E> {
    Table(Restrict(t.entries, live), FilterKeys(t.order, live))
  }

  /** The sweep keeps exactly the live entries, as they are and in their old order. */
  lemma SweptExactly<E>(t: Table<E>, live: set<string>)
    requires Enumerates(t)
    ensures var s := Swept(t, live);
            && (forall k :: k in s.entries <==> k in t.entries && k in live)
            && (forall k :: k in s.entries ==> s.entries[k] == t.entries[k])
            && Enumerates(s) && SameOrder(t.order, s.order)
  {
    SweptEnumerates(t, live);
    FilterKeysInOrder(t.order, live);
  }

  /** In a buffer that is sorted, stale means that nothing lies after the cutoff. */
  lemma StaleIff(times: seq<int>, cutoff: int)
    requires Sorted(times)
    ensures Stale(times, cutoff) <==> Later(times, cutoff) == {}
  {
    if times != [] && times[|times| - 1] > cutoff {
      assert |times| - 1 in Later(times, cutoff);
    }
  }

  lemma SweptEnumerates<E>(t: Table<E>, live: set<string>)
    requires Enumerates(t)
    ensures Enumerates(Swept(t, live)) && |Swept(t, live).entries| <= |t.entries|
  {
    var s := Swept(t, live);
    FilterKeysDistinct(t.order, live);
    forall k
      ensures k in s.order <==> k in s.entries
    {
      FilterKeysMembers(t.order, live, k);
    }
    assert s.entries.Keys <= t.entries.Keys;
    SubsetSize(s.entries.Keys, t.entries.Keys);
    assert |s.entries| == |s.entries.Keys| && |t.entries| == |t.entries.Keys|;
  }

  lemma {:induction false} SubsetSize(a: set<string>, b: set<string>)
    requires a <= b
    ensures |a| <= |b|
  {
    assert |b| == |a| + |b - a| by { assert b == a + (b - a); }
  }

  lemma HeadIsEntry<E>(t: Table<E>)
    requires Enumerates(t)
    ensures t.order != [] ==> t.order[0] in t.entries
  {
  }

  lemma EvictedOne<E>(t: Table<E>, k: string, i: nat)
    requires i < |t.order| && t.order[i] == k && k in t.entries
    requires forall j :: 0 <= j < i ==> t.order[j] !in t.entries
    ensures Enumerates(t) ==> i == 0 && |t.entries| > 0 && Enumerates(DropOldest(t))
  {
    if Enumerates(t) {
      assert t.order[0] in t.entries;
      DropOldestEnumerates(t);
      EmptyOrderMeansEmpty(t);
    }
  }

  lemma EvictedNone<E>(t: Table<E>)
    requires forall j :: 0 <= j < |t.order| ==> t.order[j] !in t.entries
    ensures Enumerates(t) ==> t.order == [] && |t.entries| == 0
  {
    if Enumerates(t) {
      EmptyOrderMeansEmpty(t);
      HeadIsEntry(t);
    }
  }

  lemma SweptTable<E>(t: Table<E>, live: set<string>, entries: map<string, E>, order: seq<string>)
    requires Enumerates(t) && entries == Restrict(t.entries, live)
    requires order == if |entries| > 0 then FilterKeys(t.order, live) else []
    ensures Table(entries, order) == Swept(t, live)
    ensures Enumerates(Swept(t, live)) && |entries| <= |t.entries|
  {
    SweptEnumerates(t, live);
    EmptyOrderMeansEmpty(Swept(t, live));
  }

  class RateLimiter {
    var entries: map<string, Entry>
    var order: seq<string>
    const limit: int
    const window: int

    ghost function State(): Table<Entry>
      reads this
    {
      Table(entries, order)
    }

    ghost predicate Valid()
      reads this
    {
      Enumerates(State()) && |entries| <= MAX_ENTRIES
    }

    constructor (limit: int, window: int)
      ensures Valid() && this.limit == limit && this.window == window && entries == map[]
    {
      entries, order := map[], [];
      this.limit, this.window := limit, window;
    }

    /** Removes the oldest key that is still in the table, skipping keys that are not.
        When the order enumerates the entries it removes its first key and fails only
        on an empty table. */
    method EvictOldest() returns (ok: bool)
      modifies this
      ensures ok <==> exists k :: k in old(order) && k in old(entries)
      ensures !ok ==> entries == old(entries)
      ensures ok && old(order[0]) in old(entries) ==> State() == DropOldest(old(State()))
      ensures old(Enumerates(State())) ==> Enumerates(State()) && (ok <==> |old(entries)| > 0)
    {
      ghost var skipped := 0;
      while order != []
        invariant entries == old(entries)
        invariant 0 <= skipped <= |old(order)| && order == old(order)[skipped..]
        invariant forall j :: 0 <= j < skipped ==> old(order)[j] !in entries
        decreases |order|
      {
        var k := order[0];
        assert k == old(order)[skipped];
        order := order[1..];
        if k in entries {
          entries := entries - {k};
          EvictedOne(old(State()), k, skipped);
          return true;
        }
        skipped := skipped + 1;
      }
      EvictedNone(old(State()));
      return false;
    }

    /** The first critical section of allow: under the limiter's lock. */
    method LookUp(key: string) returns (e: Entry)
      requires Valid()
      modifies this
      ensures Valid() && key in entries && entries[key] == e
      ensures key in old(entries) ==> State() == old(State())
      ensures key !in old(entries) ==> fresh(e) && e.Valid() && fresh(e.buf) && e.Times() == []
      ensures key !in old(entries) ==> Fifo(old(State()), key, e, State())
    {
      if key in entries {
        return entries[key];
      }
      while |entries| >= MAX_ENTRIES
        invariant Enumerates(State()) && key !in entries && |entries| <= MAX_ENTRIES
        invariant if |old(entries)| < MAX_ENTRIES || |entries| == MAX_ENTRIES then State() == old(State())
                  else old(order) != [] && State() == DropOldest(old(State()))
        decreases |entries|
      {
        DropOldestEnumerates(State());
        EmptyOrderMeansEmpty(State());
        HeadIsEntry(State());
        var evicted := EvictOldest();
        if !evicted {
          break;
        }
      }
      e := new Entry();
      InsertIsFifo(old(State()), State(), key, e);
      entries := entries[key := e];
      order := order + [key];
    }

    /** One tick of the sweep: drops stale entries, then their keys from the order. */
    method Gc(now: int)
      requires Valid() && forall k :: k in entries ==> entries[k].Valid()
      modifies this
      ensures Valid()
      ensures State() == Swept(old(State()), old(Live(entries, now - window)))
    {
      ghost var was := State();
      var live := LiveKeys(entries, now - window);
      var left := Restrict(entries, live);
      assert left.Keys == live;
      var kept := [];
      if |left| > 0 {
        kept := CompactOrder(order, left.Keys);
      }
      SweptTable(was, live, left, kept);
      ghost var swept := Swept(was, live);
      assert live == old(Live(entries, now - window)) && was == old(State());
      entries, order := left, kept;
      assert State() == swept;
    }
  }

  /** The keys that are still in the table, in order. */
  method CompactOrder(order: seq<string>, keep: set<string>) returns (kept: seq<string>)
    ensures kept == FilterKeys(order, keep) && SameOrder(order, kept)
  {
    FilterKeysInOrder(order, keep);
    kept := [];
    for i := 0 to |order|
      invariant kept == FilterKeys(order[..i], keep)
    {
      assert order[..i + 1][..i] == order[..i];
      if order[i] in keep {
        kept := kept + [order[i]];
      }
    }
    assert order[..|order|] == order;
  }

  ghost function Live(entries: map<string, Entry>, cutoff: int): (live: set<string>)
    requires forall k :: k in entries ==> entries[k].Valid()
    reads entries.Values, set k | k in entries :: entries[k].buf
    ensures live <= entries.Keys
    ensures forall k :: k in live <==> k in entries && entries[k].Times() != [] && entries[k].Times()[|entries[k].Times()| - 1] > cutoff
  {
    set k | k in entries && !Stale(entries[k].Times(), cutoff)
  }

  /** The sweep's loop over the map: the keys whose entry is not stale. */
  method LiveKeys(entries: map<string, Entry>, cutoff: int) returns (live: set<string>)
    requires forall k :: k in entries ==> entries[k].Valid()
    ensures live == old(Live(entries, cutoff))
  {
    live := {};
    var todo := entries.Keys;
    while todo != {}
      invariant todo <= entries.Keys
      invariant live == set k | k in entries && k !in todo && !Stale(entries[k].Times(), cutoff)
      decreases |todo|
    {
      var k :| k in todo;
      var e := entries[k];
      var stale := e.len == 0 || e.buf[e.len - 1] <= cutoff;
      assert stale <==> Stale(e.Times(), cutoff);
      if !stale {
        live := live + {k};
      }
      todo := todo - {k};
    }
  }
}
