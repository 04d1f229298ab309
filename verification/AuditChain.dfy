/** The tamper-evident audit log: hash-chained rows, the verifier, retention
    pruning with its chain anchor, and the backfill of rows that predate the chain.

    `h` hashes a list of six fields; in the program it is HashFields of the
    hex-encoded SHA-256. What a theorem needs of it is written out where it is
    needed. Writers and the pruner hold one advisory lock, so each transaction is
    one atomic step. */
module AuditChain {
  import opened Text
  import AuditEncoding

  type Hash = seq<string> -> string

  ghost predicate NeverEmpty(h: Hash) {
    forall x :: h(x) != ""
  }

  /** A row of audit_logs; None stands for NULL. */
  datatype Row = Row(
    seqNo: nat, orgId: string, actor: string, action: string,
    targetType: Option<string>, targetId: Option<string>, details: Option<string>,
    rowHash: Option<string>, prevHash: string, createdAt: int)

  datatype Anchor = Anchor(firstSeq: nat, prevHash: string)

  /** `rows` is the table in seq order; the sequence counter is never rolled back. */
  datatype Log = Log(rows: seq<Row>, nextSeq: nat, anchor: Option<Anchor>)

  function Coalesce(o: Option<string>, default: string): string {
    if o.Some? then o.value else default
  }

  function HashOf(r: Row): string {
    Coalesce(r.rowHash, "")
  }

  /** The six hashed fields: the tenant and the timestamp are not among them. */
  function Content(r: Row): seq<string> {
    [r.actor, r.action, Coalesce(r.targetType, ""), Coalesce(r.targetId, ""), Coalesce(r.details, "{}"), r.prevHash]
  }

  function ComputeHash(h: Hash, r: Row): string {
    h(Content(r))
  }

  /** A NULL target hashes like an empty one and NULL details like "{}". */
  lemma NullsHashAsEmpty(h: Hash, r: Row)
    ensures ComputeHash(h, r.(targetType := None)) == ComputeHash(h, r.(targetType := Some("")))
    ensures ComputeHash(h, r.(targetId := None)) == ComputeHash(h, r.(targetId := Some("")))
    ensures ComputeHash(h, r.(details := None)) == ComputeHash(h, r.(details := Some("{}")))
    ensures forall t, i, d :: ComputeHash(h, r.(targetType := Some(t), targetId := Some(i), details := Some(d))) ==
                              h([r.actor, r.action, t, i, d, r.prevHash])
  {
  }

  // ---- the verifier ----

  /** Two of these rows have different hashed fields and one hash. */
  ghost predicate Collision(h: Hash, rows: set<Row>) {
    exists a, b :: a in rows && b in rows && Content(a) != Content(b) && ComputeHash(h, a) == ComputeHash(h, b)
  }

  /** There is none when the hash tells the field lists apart. */
  lemma InjectiveHashNeverCollides(h: Hash, rows: set<Row>)
    requires forall x, y :: h(x) == h(y) ==> x == y
    ensures !Collision(h, rows)
  {
  }

  function RowSet(rows: seq<Row>): set<Row> {
    set r | r in rows
  }

  predicate LinkOk(h: Hash, prev: string, r: Row) {
    HashOf(r) != "" && r.prevHash == prev && HashOf(r) == ComputeHash(h, r)
  }

  /** A row without a hash never links. */
  lemma MissingHashBreaks(h: Hash, prev: string, r: Row)
    requires r.rowHash.None?
    ensures !LinkOk(h, prev, r)
  {
  }

  /** The hash the row at position i must follow. */
  function Before(prev: string, rows: seq<Row>, i: nat): string
    requires i <= |rows|
  {
    if i == 0 then prev else HashOf(rows[i - 1])
  }

  predicate LinkedAt(h: Hash, prev: string, rows: seq<Row>, i: nat)
    requires i < |rows|
  {
    LinkOk(h, Before(prev, rows, i), rows[i])
  }

  ghost predicate Chain(h: Hash, prev: string, rows: seq<Row>) {
    forall i :: 0 <= i < |rows| ==> LinkedAt(h, prev, rows, i)
  }

  lemma ChainStep(h: Hash, prev: string, rows: seq<Row>, i: nat)
    requires i < |rows|
    ensures Chain(h, prev, rows[..i + 1]) <==> Chain(h, prev, rows[..i]) && LinkedAt(h, prev, rows, i)
    ensures Chain(h, prev, rows) ==> Chain(h, prev, rows[..i + 1])
  {
    var whole, part := rows[..i + 1], rows[..i];
    if Chain(h, prev, part) && LinkedAt(h, prev, rows, i) {
      forall j | 0 <= j <= i
        ensures LinkedAt(h, prev, whole, j)
      {
        assert j < i ==> LinkedAt(h, prev, part, j);
      }
    }
    if Chain(h, prev, whole) {
      assert LinkedAt(h, prev, whole, i);
      forall j | 0 <= j < i
        ensures LinkedAt(h, prev, part, j)
      {
        assert LinkedAt(h, prev, whole, j);
      }
    }
    if Chain(h, prev, rows) {
      forall j | 0 <= j <= i
        ensures LinkedAt(h, prev, whole, j)
      {
        assert LinkedAt(h, prev, rows, j);
      }
    }
  }

  lemma ChainSnoc(h: Hash, prev: string, rows: seq<Row>, r: Row)
    requires Chain(h, prev, rows) && LinkOk(h, Before(prev, rows, |rows|), r)
    ensures Chain(h, prev, rows + [r])
  {
    var longer := rows + [r];
    forall j | 0 <= j < |longer|
      ensures LinkedAt(h, prev, longer, j)
    {
      assert j < |rows| ==> LinkedAt(h, prev, rows, j);
    }
  }

  function LoadAnchor(a: Option<Anchor>): Anchor {
    if a.Some? then a.value else Anchor(0, "")
  }

  predicate StartOk(a: Anchor, r: Row) {
    a.firstSeq > 0 ==> r.seqNo == a.firstSeq
  }

  function StartHash(a: Anchor): string {
    if a.firstSeq > 0 then a.prevHash else ""
  }

  ghost predicate Accepts(h: Hash, anchor: Option<Anchor>, rows: seq<Row>) {
    rows == [] || (StartOk(LoadAnchor(anchor), rows[0]) && Chain(h, StartHash(LoadAnchor(anchor)), rows))
  }

  datatype VerifyResult = VerifyResult(ok: bool, rowsChecked: nat, firstBreakSeq: nat)

  /** Walks the rows and stops at the first broken link. */
  method VerifyChain(h: Hash, anchor: Option<Anchor>, rows: seq<Row>) returns (result: VerifyResult)
    ensures result.ok <==> Accepts(h, anchor, rows)
    ensures result.ok ==> result.rowsChecked == |rows| && result.firstBreakSeq == 0
    ensures !result.ok ==> 1 <= result.rowsChecked <= |rows| && result.firstBreakSeq == rows[result.rowsChecked - 1].seqNo
    ensures !result.ok ==> Accepts(h, anchor, rows[..result.rowsChecked - 1]) && !Accepts(h, anchor, rows[..result.rowsChecked])
  {
    var a := LoadAnchor(anchor);
    var prev := "";
    for i := 0 to |rows|
      invariant prev == if i == 0 then "" else HashOf(rows[i - 1])
      invariant i > 0 ==> StartOk(a, rows[0])
      invariant Chain(h, StartHash(a), rows[..i])
    {
      var r := rows[i];
      ChainStep(h, StartHash(a), rows, i);
      if i == 0 && a.firstSeq > 0 {
        if r.seqNo != a.firstSeq {
          return VerifyResult(false, i + 1, r.seqNo);
        }
        prev := a.prevHash;
      }
      if HashOf(r) == "" || r.prevHash != prev || HashOf(r) != ComputeHash(h, r) {
        return VerifyResult(false, i + 1, r.seqNo);
      }
      prev := HashOf(r);
    }
    assert rows[..|rows|] == rows;
    return VerifyResult(true, |rows|, 0);
  }
}
