/** What two audit tables that both verify can still differ in. */
module AuditTamper {
  import opened Text
  import opened AuditEncoding
  import opened AuditChain
  import opened AuditRetention
  import opened AuditRuns

  /** Two different texts with one digest, found at row i of the two tables. */
  ghost predicate CollisionAt(sha: string -> string, a: seq<Row>, b: seq<Row>, i: int) {
    0 <= i < |a| && i < |b| && Encode(Content(a[i])) != Encode(Content(b[i])) && sha(Encode(Content(a[i]))) == sha(Encode(Content(b[i])))
  }

  ghost predicate SameContent(a: seq<Row>, b: seq<Row>) {
    |a| == |b| && forall i :: 0 <= i < |a| ==> Content(a[i]) == Content(b[i])
  }

  lemma {:induction false} SameTipSameContent(sha: string -> string, prev: string, a: seq<Row>, b: seq<Row>)
    requires |a| == |b| && Chain(HashFields(sha), prev, a) && Chain(HashFields(sha), prev, b)
    requires a != [] ==> HashOf(a[|a| - 1]) == HashOf(b[|b| - 1])
    ensures SameContent(a, b) || exists i :: CollisionAt(sha, a, b, i)
  {
    if a != [] {
      var h, n := HashFields(sha), |a| - 1;
      assert LinkedAt(h, prev, a, n) && LinkedAt(h, prev, b, n);
      SameHashOrCollision(sha, Content(a[n]), Content(b[n]));
      if Content(a[n]) != Content(b[n]) {
        assert CollisionAt(sha, a, b, n);
      } else {
        var a', b' := a[..n], b[..n];
        assert a == a' + [a[n]] && b == b' + [b[n]];
        ChainSuffix(h, prev, a', [a[n]]);
        ChainSuffix(h, prev, b', [b[n]]);
        assert Content(a[n])[5] == Content(b[n])[5];
        SameTipSameContent(sha, prev, a', b');
        if !SameContent(a', b') {
          var i :| CollisionAt(sha, a', b', i);
          assert CollisionAt(sha, a, b, i);
        } else {
          assert forall i :: 0 <= i < n ==> a[i] == a'[i] && b[i] == b'[i];
        }
      }
    }
  }

  /** Tamper evidence: under one anchor, with as many rows and the same last hash, two
      tables that verify agree on every hashed field of every row, or a collision of the
      digest is at hand. */
  lemma TamperEvidence(sha: string -> string, anchor: Option<Anchor>, a: seq<Row>, b: seq<Row>)
    requires Accepts(HashFields(sha), anchor, a) && Accepts(HashFields(sha), anchor, b)
    requires |a| == |b| && ChainHead(a) == ChainHead(b)
    ensures SameContent(a, b) || exists i :: CollisionAt(sha, a, b, i)
  {
    if a != [] {
      SameTipSameContent(sha, StartHash(LoadAnchor(anchor)), a, b);
    }
  }

  /** From genesis the last hash alone fixes the whole table, even the number of rows,
      or a collision of the digest is at hand. */
  lemma {:induction false} TipFixesTable(h: Hash, a: seq<Row>, b: seq<Row>)
    requires Chain(h, "", a) && Chain(h, "", b) && ChainHead(a) == ChainHead(b)
    ensures SameContent(a, b) || Collision(h, RowSet(a) + RowSet(b))
    decreases |a|
  {
    if a == [] {
      assert b != [] ==> LinkedAt(h, "", b, |b| - 1);
    } else {
      var n, m := |a| - 1, |b| - 1;
      assert LinkedAt(h, "", a, n);
      assert b != [];
      assert LinkedAt(h, "", b, m);
      assert a[n] in RowSet(a) && b[m] in RowSet(b);
      if Content(a[n]) == Content(b[m]) {
        var a', b' := a[..n], b[..m];
        assert a == a' + [a[n]] && b == b' + [b[m]];
        ChainSuffix(h, "", a', [a[n]]);
        ChainSuffix(h, "", b', [b[m]]);
        assert Content(a[n])[5] == Content(b[m])[5];
        TipFixesTable(h, a', b');
        TableGrows(h, a', b', a[n], b[m]);
      }
    }
  }

  lemma TableGrows(h: Hash, a: seq<Row>, b: seq<Row>, x: Row, y: Row)
    requires Content(x) == Content(y) && (SameContent(a, b) || Collision(h, RowSet(a) + RowSet(b)))
    ensures SameContent(a + [x], b + [y]) || Collision(h, RowSet(a + [x]) + RowSet(b + [y]))
  {
    if !SameContent(a, b) {
      CollisionGrows(h, RowSet(a) + RowSet(b), RowSet(a + [x]) + RowSet(b + [y]));
    }
  }
}
