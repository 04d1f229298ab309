/** What pruning does to verification, over whole runs: exactly which prunes keep the
    table verifiable, what verifying during a prune reports, and runs that show both.

    No property of the digest is assumed beyond that it is never empty. Where a claim
    rests on hashes telling rows apart, the alternative is a collision among rows that
    the table really held. */
module AuditRuns {
  import opened Text
  import opened AuditChain
  import opened AuditRetention

  // ---- equal hashes in one chain are a collision ----

  lemma CollisionGrows(h: Hash, a: set<Row>, b: set<Row>)
    requires Collision(h, a) && a <= b
    ensures Collision(h, b)
  {
  }

  /** Row hashes of a chain from genesis repeat only by a collision. */
  lemma {:induction false} RepeatedHashCollides(h: Hash, rows: seq<Row>, i: nat, j: nat)
    requires Chain(h, "", rows) && i < j < |rows| && HashOf(rows[i]) == HashOf(rows[j])
    ensures Collision(h, RowSet(rows))
    decreases i
  {
    assert LinkedAt(h, "", rows, i) && LinkedAt(h, "", rows, j) && LinkedAt(h, "", rows, j - 1);
    assert rows[i] in RowSet(rows) && rows[j] in RowSet(rows);
    if Content(rows[i]) == Content(rows[j]) {
      assert Content(rows[i])[5] == Content(rows[j])[5];
      RepeatedHashCollides(h, rows, i - 1, j - 1);
    }
  }

  lemma LastKeptIsLast(h: Hash, past: seq<Row>, front: seq<Row>, cutoff: int, kept: seq<Row>)
    requires Chain(h, "", past + front) && front != []
    requires kept == Keep(front, cutoff) && kept != []
    requires HashOf(kept[|kept| - 1]) == HashOf(front[|front| - 1])
    ensures front[|front| - 1].createdAt >= cutoff || Collision(h, RowSet(past + front))
  {
    var k := kept[|kept| - 1];
    KeepMembers(front, cutoff, k);
    var i :| 0 <= i < |front| && front[i] == k;
    var all := past + front;
    if i < |front| - 1 {
      RepeatedHashCollides(h, all, |past| + i, |all| - 1);
    }
  }

  lemma ContiguousSnoc(rows: seq<Row>, cutoff: int)
    requires rows != [] && Contiguous(rows[..|rows| - 1], cutoff)
    requires KeptAt(rows, cutoff, |rows| - 1) && Keep(rows[..|rows| - 1], cutoff) != [] ==>
               |rows| >= 2 && KeptAt(rows, cutoff, |rows| - 2)
    ensures Contiguous(rows, cutoff)
  {
    var n := |rows| - 1;
    var front := rows[..n];
    forall i, j, k | i < j < k && KeptAt(rows, cutoff, i) && KeptAt(rows, cutoff, k)
      ensures KeptAt(rows, cutoff, j)
    {
      assert KeptAt(front, cutoff, i) by { assert front[i] == rows[i]; }
      KeepMembers(front, cutoff, front[i]);
      if j < n - 1 {
        assert KeptAt(front, cutoff, if k == n then n - 1 else k);
        assert KeptAt(front, cutoff, j);
      }
    }
  }

  /** If the retained rows still link up, none was deleted from between them. */
  lemma {:induction false} LinkedKeepIsContiguous(h: Hash, past: seq<Row>, rows: seq<Row>, cutoff: int, prev: string)
    requires Chain(h, "", past + rows) && Chain(h, prev, Keep(rows, cutoff))
    ensures Contiguous(rows, cutoff) || Collision(h, RowSet(past + rows))
  {
    if rows != [] {
      var n := |rows| - 1;
      var front, last := rows[..n], rows[n];
      var kept := Keep(front, cutoff);
      assert past + rows == (past + front) + [last];
      ChainSuffix(h, "", past + front, [last]);
      var tail := if last.createdAt >= cutoff then [last] else [];
      assert Keep(rows, cutoff) == kept + tail;
      ChainSuffix(h, prev, kept, tail);
      LinkedKeepIsContiguous(h, past, front, cutoff, prev);
      if tail != [] && kept != [] {
        LastKeptIsLast(h, past, front, cutoff, kept);
        assert rows[n - 1] == front[n - 1];
      }
      if Collision(h, RowSet(past + front)) {
        CollisionGrows(h, RowSet(past + front), RowSet(past + rows));
      } else {
        ContiguousSnoc(rows, cutoff);
      }
    }
  }

  lemma AcceptedPruneIsContiguous(h: Hash, past: seq<Row>, log: Log, cutoff: int, details: string, now: int)
    requires Continues(h, past, log)
    requires var t := PruneLog(h, log, cutoff, details, now); Accepts(h, t.anchor, t.rows)
    ensures Contiguous(log.rows, cutoff) || Collision(h, RowSet(past + log.rows))
  {
    var t := PruneLog(h, log, cutoff, details, now);
    var kept := Keep(log.rows, cutoff);
    if |kept| == |log.rows| {
      KeepAll(log.rows, cutoff);
      forall i | 0 <= i < |log.rows|
        ensures KeptAt(log.rows, cutoff, i)
      {
        KeepMembers(log.rows, cutoff, log.rows[i]);
      }
    } else {
      var start := StartHash(LoadAnchor(t.anchor));
      var r := t.rows[|kept|];
      assert t.rows == kept + [r];
      ChainSuffix(h, start, kept, [r]);
      LinkedKeepIsContiguous(h, past, log.rows, cutoff, start);
    }
  }

  /** Pruning leaves a table that verifies exactly when the retained rows are contiguous
      in seq order, unless two rows of the chain collide. */
  lemma PruneVerifiesIff(h: Hash, past: seq<Row>, log: Log, cutoff: int, details: string, now: int)
    requires NeverEmpty(h) && Continues(h, past, log)
    ensures var t := PruneLog(h, log, cutoff, details, now);
            && (Contiguous(log.rows, cutoff) ==> Accepts(h, t.anchor, t.rows))
            && (Accepts(h, t.anchor, t.rows) ==> Contiguous(log.rows, cutoff) || Collision(h, RowSet(past + log.rows)))
  {
    var t := PruneLog(h, log, cutoff, details, now);
    if Contiguous(log.rows, cutoff) {
      var after := PruneContinues(h, past, log, cutoff, details, now);
      ContinuedIsAccepted(h, after, t);
    } else if Accepts(h, t.anchor, t.rows) {
      AcceptedPruneIsContiguous(h, past, log, cutoff, details, now);
    }
  }

  // ---- whole runs ----

  datatype Event =
    | Write(entry: Entry, now: int)
    | FailedWrite(seqLost: bool)
    | Prune(cutoff: int, details: string, now: int)

  function Step(h: Hash, log: Log, ev: Event): Log {
    match ev
    case Write(e, now) => Append(h, log, e, now)
    case FailedWrite(lost) => log.(nextSeq := log.nextSeq + if lost then 1 else 0)
    case Prune(cutoff, details, now) => PruneLog(h, log, cutoff, details, now)
  }

  function Run(h: Hash, log: Log, events: seq<Event>): Log
    decreases |events|
  {
    if events == [] then log else Run(h, Step(h, log, events[0]), events[1..])
  }

  ghost predicate Verifies(h: Hash, log: Log) {
    Accepts(h, log.anchor, log.rows)
  }

  ghost predicate AlwaysVerifies(h: Hash, log: Log, events: seq<Event>)
    decreases |events|
  {
    Verifies(h, log) && (events != [] ==> AlwaysVerifies(h, Step(h, log, events[0]), events[1..]))
  }

  /** The guard a pruner could check before deleting: every prune of the run keeps a slice. */
  ghost predicate PrunesAreContiguous(h: Hash, log: Log, events: seq<Event>)
    decreases |events|
  {
    events != [] ==>
      (events[0].Prune? ==> Contiguous(log.rows, events[0].cutoff)) && PrunesAreContiguous(h, Step(h, log, events[0]), events[1..])
  }

  /** All rows that the run ever sees, with those that came before it. */
  ghost function RowsEver(h: Hash, past: set<Row>, log: Log, events: seq<Event>): set<Row>
    decreases |events|
  {
    var seen := past + RowSet(log.rows);
    if events == [] then seen else RowsEver(h, seen, Step(h, log, events[0]), events[1..])
  }

  lemma {:induction false} RowsEverGrow(h: Hash, a: set<Row>, b: set<Row>, log: Log, events: seq<Event>)
    requires a <= b
    ensures b <= RowsEver(h, b, log, events) && RowsEver(h, a, log, events) <= RowsEver(h, b, log, events)
    decreases |events|
  {
    if events != [] {
      RowsEverGrow(h, a + RowSet(log.rows), b + RowSet(log.rows), Step(h, log, events[0]), events[1..]);
    }
  }

  /** A step that is a write, a gap or a contiguous prune continues the chain; what leaves
      the table joins its past. */
  lemma StepContinues(h: Hash, past: seq<Row>, log: Log, ev: Event) returns (after: seq<Row>)
    requires NeverEmpty(h) && Continues(h, past, log)
    requires ev.Prune? ==> Contiguous(log.rows, ev.cutoff)
    ensures Continues(h, after, Step(h, log, ev)) && RowSet(after) <= RowSet(past + log.rows)
  {
    match ev
    case Write(e, now) => after := AppendContinues(h, past, log, e, now);
    case FailedWrite(lost) => after := past;
    case Prune(cutoff, details, now) => after := PruneContinues(h, past, log, cutoff, details, now);
  }

  /** A run of contiguous prunes verifies throughout. */
  lemma {:induction false} ContiguousRunVerifies(h: Hash, past: seq<Row>, log: Log, events: seq<Event>)
    requires NeverEmpty(h) && Continues(h, past, log) && PrunesAreContiguous(h, log, events)
    ensures AlwaysVerifies(h, log, events)
    decreases |events|
  {
    ContinuedIsAccepted(h, past, log);
    if events != [] {
      var after := StepContinues(h, past, log, events[0]);
      ContiguousRunVerifies(h, after, Step(h, log, events[0]), events[1..]);
    }
  }

  lemma {:induction false} VerifiedRunIsContiguous(h: Hash, past: seq<Row>, log: Log, events: seq<Event>)
    requires NeverEmpty(h) && Continues(h, past, log) && AlwaysVerifies(h, log, events)
    ensures PrunesAreContiguous(h, log, events) || Collision(h, RowsEver(h, RowSet(past), log, events))
    decreases |events|
  {
    if events != [] {
      var ev := events[0];
      var seen := RowSet(past) + RowSet(log.rows);
      assert seen == RowSet(past + log.rows);
      RowsEverGrow(h, {}, seen, Step(h, log, ev), events[1..]);
      if ev.Prune? {
        PruneVerifiesIff(h, past, log, ev.cutoff, ev.details, ev.now);
      }
      if Collision(h, seen) {
        CollisionGrows(h, seen, RowsEver(h, seen, Step(h, log, ev), events[1..]));
      } else {
        var after := StepContinues(h, past, log, ev);
        VerifiedRunIsContiguous(h, after, Step(h, log, ev), events[1..]);
        RowsEverGrow(h, RowSet(after), seen, Step(h, log, ev), events[1..]);
        if Collision(h, RowsEver(h, RowSet(after), Step(h, log, ev), events[1..])) {
          CollisionGrows(h, RowsEver(h, RowSet(after), Step(h, log, ev), events[1..]),
                         RowsEver(h, seen, Step(h, log, ev), events[1..]));
        }
      }
    }
  }

  /** Over any run of writes, failed writes and prunes, every intermediate table verifies
      if and only if every prune keeps a contiguous part of the table, unless two rows
      that the run has seen collide. */
  lemma RunVerifiesIff(h: Hash, past: seq<Row>, log: Log, events: seq<Event>)
    requires NeverEmpty(h) && Continues(h, past, log)
    ensures PrunesAreContiguous(h, log, events) ==> AlwaysVerifies(h, log, events)
    ensures AlwaysVerifies(h, log, events) ==>
              PrunesAreContiguous(h, log, events) || Collision(h, RowsEver(h, RowSet(past), log, events))
  {
    if PrunesAreContiguous(h, log, events) {
      ContiguousRunVerifies(h, past, log, events);
    } else if AlwaysVerifies(h, log, events) {
      VerifiedRunIsContiguous(h, past, log, events);
    }
  }

  // ---- the hypothesis that makes created_at and seq agree ----

  predicate InTimeOrder(rows: seq<Row>) {
    forall i, j :: 0 <= i < j < |rows| ==> rows[i].createdAt <= rows[j].createdAt
  }

  ghost predicate StaysInTimeOrder(h: Hash, log: Log, events: seq<Event>)
    decreases |events|
  {
    InTimeOrder(log.rows) && (events != [] ==> StaysInTimeOrder(h, Step(h, log, events[0]), events[1..]))
  }

  lemma {:induction false} TimeOrderIsContiguous(h: Hash, log: Log, events: seq<Event>)
    requires StaysInTimeOrder(h, log, events)
    ensures PrunesAreContiguous(h, log, events)
    decreases |events|
  {
    if events != [] {
      TimeOrderIsContiguous(h, Step(h, log, events[0]), events[1..]);
    }
  }

  /** The log right after the backfill of a table whose rows have no hash yet. */
  lemma BackfilledIsSound(h: Hash, filled: seq<Row>, nextSeq: nat)
    requires Chain(h, "", filled) && InSeqOrder(Log(filled, nextSeq, None))
    ensures Continues(h, [], Log(filled, nextSeq, None))
  {
    assert [] + filled == filled;
  }

  /** From the backfill on, while created_at does not decrease in seq order, every table
      of the run verifies: through repeated prunes, prunes that empty the table, and
      writes that are rolled back. */
  lemma RunFromBackfillVerifies(h: Hash, filled: seq<Row>, nextSeq: nat, events: seq<Event>)
    requires NeverEmpty(h) && Chain(h, "", filled) && InSeqOrder(Log(filled, nextSeq, None))
    requires StaysInTimeOrder(h, Log(filled, nextSeq, None), events)
    ensures AlwaysVerifies(h, Log(filled, nextSeq, None), events)
  {
    BackfilledIsSound(h, filled, nextSeq);
    TimeOrderIsContiguous(h, Log(filled, nextSeq, None), events);
    ContiguousRunVerifies(h, [], Log(filled, nextSeq, None), events);
  }

  // ---- verifying while a prune commits ----

  lemma OldAnchor(h: Hash, past: seq<Row>, log: Log)
    requires Continues(h, past, log) && log.rows != []
    ensures var a := LoadAnchor(log.anchor);
            && StartOk(a, log.rows[0]) && StartHash(a) == log.rows[0].prevHash
            && (log.anchor.Some? ==> a.firstSeq == log.rows[0].seqNo > 0)
            && (log.anchor.None? ==> a.firstSeq == 0 && log.rows[0].prevHash == "")
  {
    ChainSuffix(h, "", past, log.rows);
  }

  /** The prune keeps the first row: the old anchor still fits. */
  lemma RaceKeepsFirst(h: Hash, past: seq<Row>, log: Log, t: Log)
    requires Continues(h, past, log) && log.rows != [] && t.rows != [] && t.rows[0] == log.rows[0]
    requires Chain(h, t.rows[0].prevHash, t.rows)
    ensures Accepts(h, log.anchor, t.rows)
  {
    OldAnchor(h, past, log);
  }

  /** The table now starts at a later row of the old one: the old anchor does not fit. */
  lemma RaceMovesFirst(h: Hash, past: seq<Row>, log: Log, t: Log, lo: nat)
    requires Continues(h, past, log) && 0 < lo < |log.rows| && t.rows != [] && t.rows[0] == log.rows[lo]
    ensures !Accepts(h, log.anchor, t.rows)
  {
    OldAnchor(h, past, log);
    ChainSuffix(h, "", past, log.rows);
    var start := Before("", past, |past|);
    assert LinkedAt(h, start, log.rows, lo) && LinkedAt(h, start, log.rows, lo - 1);
    assert Accepts(h, log.anchor, t.rows) ==> LinkedAt(h, StartHash(LoadAnchor(log.anchor)), t.rows, 0);
  }

  /** The table is the marker alone, at genesis: only a missing anchor fits. */
  lemma RaceEmpties(h: Hash, past: seq<Row>, log: Log, t: Log)
    requires Continues(h, past, log) && log.rows != [] && |t.rows| == 1 && t.rows[0].seqNo == log.nextSeq
    requires Chain(h, "", t.rows)
    ensures Accepts(h, log.anchor, t.rows) <==> log.anchor.None?
  {
    OldAnchor(h, past, log);
  }

  /** What a contiguous prune leaves at the front of the table. */
  lemma PrunedFront(h: Hash, past: seq<Row>, log: Log, cutoff: int, details: string, now: int) returns (lo: nat)
    requires NeverEmpty(h) && Continues(h, past, log) && Contiguous(log.rows, cutoff) && log.rows != []
    ensures var t := PruneLog(h, log, cutoff, details, now);
            && t.rows != [] && Chain(h, t.rows[0].prevHash, t.rows)
            && (Keep(log.rows, cutoff) == [] ==> |t.rows| == 1 && t.rows[0].seqNo == log.nextSeq && t.rows[0].prevHash == "")
            && (Keep(log.rows, cutoff) != [] ==>
                  lo < |log.rows| && t.rows[0] == log.rows[lo] && (lo == 0 <==> KeptAt(log.rows, cutoff, 0)))
  {
    var t := PruneLog(h, log, cutoff, details, now);
    var after := PruneContinues(h, past, log, cutoff, details, now);
    ChainSuffix(h, "", after, t.rows);
    var l, hi := KeepIsSlice(log.rows, cutoff);
    lo := l;
    KeepMembers(log.rows, cutoff, log.rows[0]);
    if |Keep(log.rows, cutoff)| == |log.rows| {
      KeepAll(log.rows, cutoff);
      assert log.rows[0] in Keep(log.rows, cutoff);
    }
  }

  /** The verifier reads the anchor and the rows in two statements. A prune that commits
      in between is reported as tampering exactly when it removes the first row, unless
      it empties a table that had no anchor. */
  lemma VerifyRacingPrune(h: Hash, past: seq<Row>, log: Log, cutoff: int, details: string, now: int)
    requires NeverEmpty(h) && Continues(h, past, log) && Contiguous(log.rows, cutoff) && log.rows != []
    ensures Accepts(h, log.anchor, PruneLog(h, log, cutoff, details, now).rows) <==>
            (KeptAt(log.rows, cutoff, 0) || (Keep(log.rows, cutoff) == [] && log.anchor.None?))
  {
    var t := PruneLog(h, log, cutoff, details, now);
    var lo := PrunedFront(h, past, log, cutoff, details, now);
    KeepMembers(log.rows, cutoff, log.rows[0]);
    if Keep(log.rows, cutoff) == [] {
      RaceEmpties(h, past, log, t);
    } else if lo == 0 {
      RaceKeepsFirst(h, past, log, t);
    } else {
      RaceMovesFirst(h, past, log, t, lo);
    }
  }

  /** No prune of the run reaches this row. */
  predicate NoneReaches(r: Row, events: seq<Event>) {
    forall i :: 0 <= i < |events| && events[i].Prune? ==> events[i].cutoff <= r.createdAt
  }

  /** A step keeps the first row, or a prune reaches it and a later row comes first. */
  lemma StepFront(h: Hash, past: seq<Row>, log: Log, ev: Event)
    requires NeverEmpty(h) && Continues(h, past, log) && log.rows != []
    requires ev.Prune? ==> Contiguous(log.rows, ev.cutoff)
    ensures var t := Step(h, log, ev);
            && t.rows != []
            && (NoneReaches(log.rows[0], [ev]) ==> t.rows[0] == log.rows[0])
            && (!NoneReaches(log.rows[0], [ev]) ==> t.rows[0].seqNo > log.rows[0].seqNo)
  {
    if ev.Prune? {
      assert NoneReaches(log.rows[0], [ev]) <==> KeptAt(log.rows, ev.cutoff, 0) by { assert [ev][0] == ev; }
      var lo := PrunedFront(h, past, log, ev.cutoff, ev.details, ev.now);
      KeepMembers(log.rows, ev.cutoff, log.rows[0]);
    }
  }

  lemma NoneReachesSplit(r: Row, events: seq<Event>)
    requires events != []
    ensures NoneReaches(r, events) <==> NoneReaches(r, [events[0]]) && NoneReaches(r, events[1..])
  {
    assert [events[0]][0] == events[0];
    assert forall i :: 0 < i < |events| ==> events[i] == events[1..][i - 1];
    assert forall i :: 0 <= i < |events| - 1 ==> events[1..][i] == events[i + 1];
  }

  /** Over a run the first row stays if and only if no prune reaches it; otherwise the
      table starts at a later row. */
  lemma {:induction false} RunFront(h: Hash, past: seq<Row>, log: Log, events: seq<Event>) returns (after: seq<Row>)
    requires NeverEmpty(h) && Continues(h, past, log) && PrunesAreContiguous(h, log, events)
    ensures var t := Run(h, log, events);
            && Continues(h, after, t)
            && (log.rows != [] ==>
                  && t.rows != []
                  && (NoneReaches(log.rows[0], events) ==> t.rows[0] == log.rows[0])
                  && (!NoneReaches(log.rows[0], events) ==> t.rows[0].seqNo > log.rows[0].seqNo))
    decreases |events|
  {
    if events == [] {
      after := past;
    } else {
      var next := Step(h, log, events[0]);
      var mid := StepContinues(h, past, log, events[0]);
      after := RunFront(h, mid, next, events[1..]);
      if log.rows != [] {
        StepFront(h, past, log, events[0]);
        NoneReachesSplit(log.rows[0], events);
      }
    }
  }

  /** The verifier reads the anchor, then any run of writes, failed writes and prunes takes
      place, then it reads the rows. With an anchor, that is reported as tampering exactly
      when a prune of the run reaches the first row; without one, exactly when the rows
      then no longer start at genesis. */
  lemma VerifyRacingRun(h: Hash, past: seq<Row>, log: Log, events: seq<Event>)
    requires NeverEmpty(h) && Continues(h, past, log) && PrunesAreContiguous(h, log, events)
    ensures var t := Run(h, log, events);
            Accepts(h, log.anchor, t.rows) <==>
            if log.anchor.Some? then NoneReaches(log.rows[0], events) else t.rows == [] || t.rows[0].prevHash == ""
  {
    var t := Run(h, log, events);
    var after := RunFront(h, past, log, events);
    ChainSuffix(h, "", after, t.rows);
    if log.anchor.Some? {
      OldAnchor(h, past, log);
    } else {
      assert t.rows != [] && Accepts(h, log.anchor, t.rows) ==> LinkedAt(h, "", t.rows, 0);
    }
  }

  // ---- runs that show both ----

  /** An empty table, as it is before the first entry. */
  function Fresh(): Log {
    Log([], 1, None)
  }

  lemma FreshContinues(h: Hash)
    ensures Continues(h, [], Fresh())
  {
    assert [] + Fresh().rows == [];
  }

  /** Appending to a fresh table, twice. */
  lemma TwoWrites(h: Hash, e1: Entry, t1: int, e2: Entry, t2: int) returns (log: Log)
    requires NeverEmpty(h)
    ensures log == Append(h, Append(h, Fresh(), e1, t1), e2, t2) && Continues(h, [], log)
    ensures |log.rows| == 2 && log.rows[0].createdAt == t1 && log.rows[1].createdAt == t2 && log.anchor.None?
  {
    FreshContinues(h);
    var one := Append(h, Fresh(), e1, t1);
    var past := AppendContinues(h, [], Fresh(), e1, t1);
    assert past == [] by { assert one.anchor.None?; }
    var past2 := AppendContinues(h, past, one, e2, t2);
    log := Append(h, one, e2, t2);
  }

  /** created_at is the time a writer's transaction began, seq the order in which the
      writers got the lock. A writer that began just before the cutoff and got the lock
      between two later ones is pruned from between them, and the table no longer
      verifies, unless two of the rows collide. */
  lemma LateWriterBreaksPrune(h: Hash, e1: Entry, e2: Entry, e3: Entry, cutoff: int, details: string, now: int) returns (log: Log)
    requires NeverEmpty(h)
    ensures log == Append(h, Append(h, Append(h, Fresh(), e1, cutoff), e2, cutoff - 1), e3, cutoff)
    ensures Verifies(h, log) && !Contiguous(log.rows, cutoff)
    ensures Verifies(h, PruneLog(h, log, cutoff, details, now)) ==> Collision(h, RowSet(log.rows))
  {
    log := LateWrites(h, e1, e2, e3, cutoff);
    ContinuedIsAccepted(h, [], log);
    assert [] + log.rows == log.rows;
    PruneVerifiesIff(h, [], log, cutoff, details, now);
  }

  lemma LateWrites(h: Hash, e1: Entry, e2: Entry, e3: Entry, cutoff: int) returns (log: Log)
    requires NeverEmpty(h)
    ensures log == Append(h, Append(h, Append(h, Fresh(), e1, cutoff), e2, cutoff - 1), e3, cutoff)
    ensures Continues(h, [], log) && !Contiguous(log.rows, cutoff)
  {
    var two := TwoWrites(h, e1, cutoff, e2, cutoff - 1);
    var past := AppendContinues(h, [], two, e3, cutoff);
    log := Append(h, two, e3, cutoff);
    assert KeptAt(log.rows, cutoff, 0) && KeptAt(log.rows, cutoff, 2) && !KeptAt(log.rows, cutoff, 1);
  }

  /** Two entries, one on each side of the cutoff: the table verifies before the prune and
      after it, but not when the anchor was read before and the rows after. */
  lemma RacingPruneRaisesAlarm(h: Hash, e1: Entry, e2: Entry, cutoff: int, details: string, now: int) returns (log: Log)
    requires NeverEmpty(h)
    ensures log == Append(h, Append(h, Fresh(), e1, cutoff - 1), e2, cutoff)
    ensures var t := PruneLog(h, log, cutoff, details, now);
            Verifies(h, log) && Verifies(h, t) && !Accepts(h, log.anchor, t.rows)
  {
    log := TwoWrites(h, e1, cutoff - 1, e2, cutoff);
    assert Contiguous(log.rows, cutoff);
    ContinuedIsAccepted(h, [], log);
    PruneVerifiesIff(h, [], log, cutoff, details, now);
    VerifyRacingPrune(h, [], log, cutoff, details, now);
    KeepMembers(log.rows, cutoff, log.rows[1]);
  }

  // ---- what the chain attests ----

  /** org_id and created_at can be rewritten without the verifier noticing. */
  lemma UncoveredColumns(h: Hash, anchor: Option<Anchor>, rows: seq<Row>, forged: seq<Row>)
    requires |forged| == |rows|
    requires forall i :: 0 <= i < |rows| ==> forged[i] == rows[i].(orgId := forged[i].orgId, createdAt := forged[i].createdAt)
    ensures Accepts(h, anchor, forged) <==> Accepts(h, anchor, rows)
  {
    var prev := StartHash(LoadAnchor(anchor));
    forall i | 0 <= i < |rows|
      ensures LinkedAt(h, prev, forged, i) == LinkedAt(h, prev, rows, i)
    {
      assert Content(forged[i]) == Content(rows[i]);
    }
    assert Chain(h, prev, forged) ==> (forall i :: 0 <= i < |rows| ==> LinkedAt(h, prev, forged, i) && LinkedAt(h, prev, rows, i));
    assert Chain(h, prev, rows) ==> (forall i :: 0 <= i < |rows| ==> LinkedAt(h, prev, rows, i) && LinkedAt(h, prev, forged, i));
  }
}
