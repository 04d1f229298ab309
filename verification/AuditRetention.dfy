/** Appending, backfilling and pruning the audit chain, and what VerifyChain makes of
    the result over whole runs. */
module AuditRetention {
  import opened Text
  import opened AuditChain

  // ---- the writer ----

  datatype Entry = Entry(orgId: string, actor: string, action: string, targetType: string, targetId: string, details: Option<string>)

  /** The hash of the row with the highest seq, or "" for an empty table or a NULL hash. */
  function ChainHead(rows: seq<Row>): string {
    if rows == [] then "" else HashOf(rows[|rows| - 1])
  }

  function NewRow(h: Hash, log: Log, e: Entry, now: int): Row {
    var bare := Row(log.nextSeq, e.orgId, e.actor, e.action, Some(e.targetType), Some(e.targetId),
                    Some(Coalesce(e.details, "{}")), None, ChainHead(log.rows), now);
    bare.(rowHash := Some(ComputeHash(h, bare)))
  }

  /** The row records the entry, column by column, and its hash covers the six hashed
      values in their fixed order, the last of them the hash at the tip. */
  ghost predicate Records(h: Hash, r: Row, e: Entry, seqNo: nat, tip: string, now: int) {
    var details := if e.details.Some? then e.details.value else "{}";
    && r.seqNo == seqNo && r.orgId == e.orgId && r.actor == e.actor && r.action == e.action
    && r.targetType == Some(e.targetType) && r.targetId == Some(e.targetId) && r.details == Some(details)
    && r.createdAt == now && r.prevHash == tip
    && r.rowHash == Some(h([e.actor, e.action, e.targetType, e.targetId, details, tip]))
  }

  function Append(h: Hash, log: Log, e: Entry, now: int): Log {
    log.(rows := log.rows + [NewRow(h, log, e, now)], nextSeq := log.nextSeq + 1)
  }

  // ---- the pruner ----

  /** The rows that DELETE ... WHERE created_at < cutoff leaves, in seq order. */
  function Keep(rows: seq<Row>, cutoff: int): (kept: seq<Row>)
    ensures |kept| <= |rows|
  {
    if rows == [] then []
    else
      var n := |rows| - 1;
      Keep(rows[..n], cutoff) + if rows[n].createdAt >= cutoff then [rows[n]] else []
  }

  lemma {:induction false} KeepMembers(rows: seq<Row>, cutoff: int, r: Row)
    ensures r in Keep(rows, cutoff) <==> r in rows && r.createdAt >= cutoff
  {
    if rows != [] {
      var n := |rows| - 1;
      KeepMembers(rows[..n], cutoff, r);
      assert rows == rows[..n] + [rows[n]];
    }
  }

  /** SELECT seq, prev_hash ... WHERE created_at >= cutoff ORDER BY seq LIMIT 1, as an anchor. */
  function AnchorOf(kept: seq<Row>): Option<Anchor> {
    if kept == [] then None else Some(Anchor(kept[0].seqNo, kept[0].prevHash))
  }

  function MarkerEntry(details: string): Entry {
    Entry("00000000-0000-0000-0000-000000000001", "system", "audit.prune", "audit_logs", "", Some(details))
  }

  function PruneLog(h: Hash, log: Log, cutoff: int, details: string, now: int): Log {
    var kept := Keep(log.rows, cutoff);
    if |kept| == |log.rows| then log
    else Append(h, log.(rows := kept, anchor := AnchorOf(kept)), MarkerEntry(details), now)
  }

  // ---- the backfill ----

  function Rehashed(h: Hash, r: Row, prev: string): Row {
    var linked := r.(prevHash := prev);
    linked.(rowHash := Some(ComputeHash(h, linked)))
  }

  /** What the migration must leave of a row. */
  predicate SameRecord(a: Row, b: Row) {
    a == b.(rowHash := a.rowHash, prevHash := a.prevHash)
  }

  lemma RehashedLinks(h: Hash, r: Row, prev: string)
    requires NeverEmpty(h)
    ensures LinkOk(h, prev, Rehashed(h, r, prev)) && SameRecord(Rehashed(h, r, prev), r)
  {
    var linked := r.(prevHash := prev);
    assert Content(Rehashed(h, r, prev)) == Content(linked);
  }

  predicate Legacy(rows: seq<Row>) {
    forall r :: r in rows ==> r.rowHash.None?
  }

  /** Backfills row_hash and prev_hash in seq order, carrying the previous hash. A table
      in which no row has a hash yet becomes a chain from genesis, and nothing else
      about its rows changes. */
  method Backfill(h: Hash, rows: seq<Row>) returns (filled: seq<Row>)
    requires NeverEmpty(h)
    ensures |filled| == |rows|
    ensures forall i :: 0 <= i < |rows| ==> SameRecord(filled[i], rows[i])
    ensures forall i :: 0 <= i < |rows| && rows[i].rowHash.Some? ==> filled[i] == rows[i]
    ensures Legacy(rows) ==> Chain(h, "", filled)
  {
    filled := [];
    var ph := "";
    for i := 0 to |rows|
      invariant |filled| == i
      invariant forall j :: 0 <= j < i ==> SameRecord(filled[j], rows[j])
      invariant forall j :: 0 <= j < i && rows[j].rowHash.Some? ==> filled[j] == rows[j]
      invariant Legacy(rows) ==> Chain(h, "", filled) && ph == Before("", filled, i)
    {
      var r := rows[i];
      if r.rowHash.None? {
        var next := Rehashed(h, r, ph);
        RehashedLinks(h, r, ph);
        if Legacy(rows) {
          ChainSnoc(h, "", filled, next);
        }
        filled := filled + [next];
        ph := HashOf(next);
      } else {
        assert !Legacy(rows);
        filled := filled + [r];
      }
    }
  }

  // ---- the table as an object ----

  /** Where a transaction stops: before the INSERT, after it (the sequence value is
      gone, the row is not there), or at its commit. */
  datatype TxEnd = FailsEarly | FailsLate | Commits

  /** The first retained row's anchor and the retained rows, in one pass. */
  method SelectKept(rows: seq<Row>, cutoff: int) returns (kept: seq<Row>, first: Option<Anchor>)
    ensures kept == Keep(rows, cutoff) && first == AnchorOf(kept)
  {
    kept, first := [], None;
    for i := 0 to |rows|
      invariant kept == Keep(rows[..i], cutoff) && first == AnchorOf(kept)
    {
      assert rows[..i + 1][..i] == rows[..i];
      if rows[i].createdAt >= cutoff {
        if first.None? {
          first := Some(Anchor(rows[i].seqNo, rows[i].prevHash));
        }
        kept := kept + [rows[i]];
      }
    }
    assert rows[..|rows|] == rows;
  }

  class AuditLog {
    const h: Hash
    var rows: seq<Row>
    var nextSeq: nat
    var anchor: Option<Anchor>

    ghost function State(): Log
      reads this
    {
      Log(rows, nextSeq, anchor)
    }

    constructor (h: Hash, log: Log)
      ensures this.h == h && State() == log
    {
      this.h, rows, nextSeq, anchor := h, log.rows, log.nextSeq, log.anchor;
    }

    method WriteEntry(e: Entry, now: int, end: TxEnd) returns (ok: bool)
      modifies this
      ensures ok <==> e.orgId != "" && end == Commits
      ensures ok ==> State() == Append(h, old(State()), e, now)
      ensures ok ==> |rows| == |old(rows)| + 1 && rows[..|old(rows)|] == old(rows) && anchor == old(anchor) && nextSeq == old(nextSeq) + 1
      ensures ok ==> Records(h, rows[|old(rows)|], e, old(nextSeq), ChainHead(old(rows)), now)
      ensures !ok ==> rows == old(rows) && anchor == old(anchor) && old(nextSeq) <= nextSeq <= old(nextSeq) + 1
    {
      if e.orgId == "" || end == FailsEarly {
        return false;
      }
      var prevHash := if rows == [] then "" else HashOf(rows[|rows| - 1]);
      var details := if e.details.Some? then e.details.value else "{}";
      var row := Row(nextSeq, e.orgId, e.actor, e.action, Some(e.targetType), Some(e.targetId), Some(details), None, prevHash, now);
      nextSeq := nextSeq + 1;
      if end == FailsLate {
        return false;
      }
      rows := rows + [row.(rowHash := Some(ComputeHash(h, row)))];
      return true;
    }

    /** Deletes the rows older than the retention window in one transaction. */
    method Prune(retainFor: int, clock: int, details: string, now: int, end: TxEnd) returns (deleted: nat)
      modifies this
      ensures retainFor > 0 && end == Commits ==> State() == PruneLog(h, old(State()), clock - retainFor, details, now)
      ensures retainFor > 0 && end == Commits ==> deleted == |old(rows)| - |Keep(old(rows), clock - retainFor)|
      ensures deleted > 0 ==>
                var kept := Keep(old(rows), clock - retainFor);
                && |rows| == |kept| + 1 && rows[..|kept|] == kept && nextSeq == old(nextSeq) + 1
                && Records(h, rows[|kept|], Entry("00000000-0000-0000-0000-000000000001", "system", "audit.prune", "audit_logs", "", Some(details)),
                           old(nextSeq), ChainHead(kept), now)
                && anchor == if kept == [] then None else Some(Anchor(kept[0].seqNo, kept[0].prevHash))
      ensures deleted == 0 ==> rows == old(rows) && anchor == old(anchor)
      ensures retainFor <= 0 ==> State() == old(State()) && deleted == 0
      ensures end != Commits ==> rows == old(rows) && anchor == old(anchor) && deleted == 0 && old(nextSeq) <= nextSeq <= old(nextSeq) + 1
    {
      if retainFor <= 0 {
        return 0;
      }
      if end != Commits {
        nextSeq := if end == FailsLate then nextSeq + 1 else nextSeq;
        return 0;
      }
      var kept, first := SelectKept(rows, clock - retainFor);
      deleted := |rows| - |kept|;
      if deleted > 0 {
        rows, anchor := kept, first;
        var marked := WriteEntry(MarkerEntry(details), now, Commits);
      }
    }
  }

  lemma {:induction false} KeepAll(rows: seq<Row>, cutoff: int)
    requires |Keep(rows, cutoff)| == |rows|
    ensures Keep(rows, cutoff) == rows
  {
    if rows != [] {
      KeepAll(rows[..|rows| - 1], cutoff);
    }
  }

  // ---- the invariant ----

  predicate InSeqOrder(log: Log) {
    && (forall i :: 0 <= i < |log.rows| ==> 0 < log.rows[i].seqNo < log.nextSeq)
    && (forall i, j :: 0 <= i < j < |log.rows| ==> log.rows[i].seqNo < log.rows[j].seqNo)
    && 0 < log.nextSeq
  }

  /** The table continues a chain that starts at genesis; `past` are rows no longer in it. */
  ghost predicate Continues(h: Hash, past: seq<Row>, log: Log) {
    && Chain(h, "", past + log.rows)
    && InSeqOrder(log)
    && (log.anchor.None? ==> past == [])
    && (log.anchor.Some? ==> log.rows != [] && log.anchor == AnchorOf(log.rows))
  }

  lemma ChainSuffix(h: Hash, prev: string, a: seq<Row>, b: seq<Row>)
    requires Chain(h, prev, a + b)
    ensures Chain(h, Before(prev, a, |a|), b) && Chain(h, prev, a)
    ensures b != [] ==> b[0].prevHash == Before(prev, a, |a|)
  {
    var whole := a + b;
    forall i | 0 <= i < |b|
      ensures LinkedAt(h, Before(prev, a, |a|), b, i)
    {
      assert LinkedAt(h, prev, whole, |a| + i);
    }
    forall i | 0 <= i < |a|
      ensures LinkedAt(h, prev, a, i)
    {
      assert LinkedAt(h, prev, whole, i);
    }
    assert b != [] ==> LinkedAt(h, prev, whole, |a|);
  }

  /** A table that continues a chain is accepted. */
  lemma ContinuedIsAccepted(h: Hash, past: seq<Row>, log: Log)
    requires Continues(h, past, log)
    ensures Accepts(h, log.anchor, log.rows)
  {
    ChainSuffix(h, "", past, log.rows);
  }

  /** An append continues the chain; an empty table has no anchor and restarts at genesis. */
  lemma AppendContinues(h: Hash, past: seq<Row>, log: Log, e: Entry, now: int) returns (after: seq<Row>)
    requires NeverEmpty(h) && Continues(h, past, log)
    ensures Continues(h, after, Append(h, log, e, now)) && RowSet(after) <= RowSet(past + log.rows)
    ensures log.rows != [] ==> after == past
  {
    var r := NewRow(h, log, e, now);
    var t := Append(h, log, e, now);
    if log.rows == [] {
      after := [];
      ChainSnoc(h, "", [], r);
      assert [] + t.rows == [r];
    } else {
      after := past;
      ChainSnoc(h, "", past + log.rows, r);
      assert past + t.rows == past + log.rows + [r];
    }
  }

  // ---- when pruning is sound ----

  predicate KeptAt(rows: seq<Row>, cutoff: int, i: int) {
    0 <= i < |rows| && rows[i].createdAt >= cutoff
  }

  /** No row is deleted from between two retained ones. */
  ghost predicate Contiguous(rows: seq<Row>, cutoff: int) {
    forall i, j, k :: i < j < k && KeptAt(rows, cutoff, i) && KeptAt(rows, cutoff, k) ==> KeptAt(rows, cutoff, j)
  }

  lemma ContiguousFront(rows: seq<Row>, cutoff: int)
    requires rows != [] && Contiguous(rows, cutoff)
    ensures Contiguous(rows[..|rows| - 1], cutoff)
  {
    var front := rows[..|rows| - 1];
    forall i, j, k | i < j < k && KeptAt(front, cutoff, i) && KeptAt(front, cutoff, k)
      ensures KeptAt(front, cutoff, j)
    {
      assert KeptAt(rows, cutoff, i) && KeptAt(rows, cutoff, k) && KeptAt(rows, cutoff, j);
    }
  }

  ghost predicate IsSlice(rows: seq<Row>, cutoff: int, lo: int, hi: int) {
    && 0 <= lo <= hi <= |rows| && Keep(rows, cutoff) == rows[lo..hi]
    && (lo < hi ==> KeptAt(rows, cutoff, lo))
    && (lo < hi ==> !KeptAt(rows, cutoff, hi) && !KeptAt(rows, cutoff, lo - 1))
  }

  lemma KeptAtFront(rows: seq<Row>, cutoff: int, i: int)
    requires rows != [] && i < |rows| - 1
    ensures KeptAt(rows[..|rows| - 1], cutoff, i) <==> KeptAt(rows, cutoff, i)
  {
  }

  lemma SliceOfPrefix<T>(xs: seq<T>, n: nat, lo: nat, hi: nat)
    requires lo <= hi <= n <= |xs|
    ensures xs[..n][lo..hi] == xs[lo..hi]
  {
  }

  lemma SliceOfFront(rows: seq<Row>, cutoff: int, lo: int, hi: int)
    requires rows != [] && IsSlice(rows[..|rows| - 1], cutoff, lo, hi) && !KeptAt(rows, cutoff, |rows| - 1)
    ensures IsSlice(rows, cutoff, lo, hi)
  {
    var n := |rows| - 1;
    var front := rows[..n];
    SliceOfPrefix(rows, n, lo, hi);
    KeptAtFront(rows, cutoff, lo - 1);
    if lo < n {
      KeptAtFront(rows, cutoff, lo);
    }
    if hi < n {
      KeptAtFront(rows, cutoff, hi);
    }
  }

  lemma SliceStarts(rows: seq<Row>, cutoff: int, lo: int)
    requires rows != [] && IsSlice(rows[..|rows| - 1], cutoff, lo, lo) && KeptAt(rows, cutoff, |rows| - 1)
    ensures IsSlice(rows, cutoff, |rows| - 1, |rows|)
  {
    var n := |rows| - 1;
    assert rows[n..n + 1] == [rows[n]];
    if n > 0 {
      KeepMembers(rows[..n], cutoff, rows[n - 1]);
      assert rows[..n][n - 1] == rows[n - 1];
    }
  }

  lemma SliceGrows(rows: seq<Row>, cutoff: int, lo: int, hi: int)
    requires rows != [] && Contiguous(rows, cutoff) && IsSlice(rows[..|rows| - 1], cutoff, lo, hi)
    requires lo < hi && KeptAt(rows, cutoff, |rows| - 1)
    ensures IsSlice(rows, cutoff, lo, |rows|)
  {
    var n := |rows| - 1;
    var front := rows[..n];
    assert KeptAt(front, cutoff, lo) && KeptAt(rows, cutoff, lo);
    assert hi < n ==> KeptAt(rows, cutoff, hi);
    assert hi == n by { assert hi < n ==> KeptAt(front, cutoff, hi); }
    assert front[lo..n] + [rows[n]] == rows[lo..n + 1];
    assert KeptAt(front, cutoff, lo - 1) <==> KeptAt(rows, cutoff, lo - 1);
  }

  /** Retained rows without a gap are one slice of the table. */
  lemma {:induction false} KeepIsSlice(rows: seq<Row>, cutoff: int) returns (lo: int, hi: int)
    requires Contiguous(rows, cutoff)
    ensures IsSlice(rows, cutoff, lo, hi)
  {
    if rows == [] {
      return 0, 0;
    }
    var n := |rows| - 1;
    ContiguousFront(rows, cutoff);
    lo, hi := KeepIsSlice(rows[..n], cutoff);
    if !KeptAt(rows, cutoff, n) {
      SliceOfFront(rows, cutoff, lo, hi);
    } else if lo == hi {
      SliceStarts(rows, cutoff, lo);
      lo, hi := n, n + 1;
    } else {
      SliceGrows(rows, cutoff, lo, hi);
      hi := n + 1;
    }
  }

  lemma SliceContinues(h: Hash, past: seq<Row>, log: Log, lo: int, hi: int)
    requires Continues(h, past, log) && 0 <= lo < hi <= |log.rows|
    ensures Continues(h, past + log.rows[..lo], log.(rows := log.rows[lo..hi], anchor := AnchorOf(log.rows[lo..hi])))
  {
    var t := log.(rows := log.rows[lo..hi], anchor := AnchorOf(log.rows[lo..hi]));
    var gone := past + log.rows[..lo];
    assert past + log.rows == (gone + t.rows) + log.rows[hi..];
    ChainSuffix(h, "", gone + t.rows, log.rows[hi..]);
  }

  /** The rows in front of the retained ones join the past; a table that was emptied
      starts again. */
  lemma PruneContinues(h: Hash, past: seq<Row>, log: Log, cutoff: int, details: string, now: int) returns (after: seq<Row>)
    requires NeverEmpty(h) && Continues(h, past, log) && Contiguous(log.rows, cutoff)
    ensures Continues(h, after, PruneLog(h, log, cutoff, details, now)) && RowSet(after) <= RowSet(past + log.rows)
  {
    var lo, hi := KeepIsSlice(log.rows, cutoff);
    var kept := log.rows[lo..hi];
    if |kept| == |log.rows| {
      after := past;
    } else {
      var mid := log.(rows := kept, anchor := AnchorOf(kept));
      if lo == hi {
        assert [] + kept == [];
        after := AppendContinues(h, [], mid, MarkerEntry(details), now);
      } else {
        SliceContinues(h, past, log, lo, hi);
        after := AppendContinues(h, past + log.rows[..lo], mid, MarkerEntry(details), now);
      }
    }
  }
}
