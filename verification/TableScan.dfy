/** What a scan of a table returns, row by row. */
module TableScans {
  import opened Outcomes
  import opened RecordLayout
  import opened RowCodec
  import opened ExprCompiler
  import opened RecordScans
  import opened TableOps
  import opened Tables
  import opened IndexPath
  import opened TableRows
  import R = RecordStores
  import OrderBy

  /** The rows are those under the Rids, which come in page and slot order and are exactly the chosen ones. */
  ghost predicate RowsOf(layout: SchemaLayout, m: R.RStore, e: Option<Expr>, rids: seq<Rid>, rows: seq<Row>)
    requires InBounds(layout)
  {
    && |rows| == |rids|
    && (forall i, j :: 0 <= i < j < |rids| ==> Before(rids[i], rids[j]))
    && (forall q :: q in rids <==> Chosen(layout, m, e, q))
    && forall i :: 0 <= i < |rids| ==> RowIn(layout, m, rids[i]) == Some(rows[i])
  }

  /** A scan fails exactly on an ill-typed filter, and else returns the chosen rows in order. */
  lemma ScanMeans(layout: SchemaLayout, m: R.RStore, e: Option<Expr>) returns (rids: seq<Rid>)
    requires TableOk(layout, m)
    ensures InBounds(layout)
    ensures ScanRows(layout, m, e).Ok? <==> FilterOk(layout, e)
    ensures FilterOk(layout, e) ==> RowsOf(layout, m, e, rids, ScanRows(layout, m, e).value)
  {
    hide TableOk, FilterOk, SnapshotOf, Chosen, RowsOf, DecodeAll, RidsOf, CollectSpec;
    TableParts(layout, m);
    CollectExact(layout, m, e);
    rids := [];
    if FilterOk(layout, e) {
      CollectedChosen(layout, m, e);
      CollectedSized(layout, m, e);
      var recs := CollectSpec(layout, m, e).value;
      rids := RidsOf(recs);
      SnapshotRows(layout, m, e, recs);
    }
  }

  lemma SnapshotRows(layout: SchemaLayout, m: R.RStore, e: Option<Expr>, recs: seq<Record>)
    requires InBounds(layout) && Sized(recs, layout.recordSize) && SnapshotOf(m, recs)
    requires forall q :: RidIn(recs, q) <==> Chosen(layout, m, e, q)
    ensures RowsOf(layout, m, e, RidsOf(recs), DecodeAll(layout, recs))
  {
    hide R.Lookup, Chosen, DecodeRow, Before;
    forall q ensures q in RidsOf(recs) <==> Chosen(layout, m, e, q) {
      RidsMembers(recs, q);
    }
    forall i | 0 <= i < |recs| ensures RowIn(layout, m, recs[i].rid) == Some(DecodeAll(layout, recs)[i]) {
      assert R.Lookup(m, recs[i].rid) == Some(recs[i].data);
    }
  }

  /** The rows with one more at place i. */
  function WithRow(rows: seq<Row>, i: nat, row: Row): seq<Row>
    requires i <= |rows|
  {
    rows[..i] + [row] + rows[i..]
  }

  /** After an insert the scan returns one more row, the one inserted, and all others as before. */
  lemma ScanAfterInsert(layout: SchemaLayout, m: R.RStore, values: Row, t: R.RStore, rid: Rid) returns (i: nat)
    requires TableOk(layout, m) && TableOk(layout, t) && InBounds(layout)
    requires RowInserted(layout, m, values, t, Ok(rid))
    ensures ScanRows(layout, m, None).Ok? && i <= |ScanRows(layout, m, None).value|
    ensures ScanRows(layout, t, None) == Ok(WithRow(ScanRows(layout, m, None).value, i, TrimRow(values)))
  {
    hide TableOk, ScanRows, RowsOf, RowInserted;
    var p := ScanMeans(layout, m, None);
    var q := ScanMeans(layout, t, None);
    i := OneMore(layout, m, values, t, rid, p, ScanRows(layout, m, None).value, q, ScanRows(layout, t, None).value);
  }

  lemma OneMore(layout: SchemaLayout, m: R.RStore, values: Row, t: R.RStore, rid: Rid, p: seq<Rid>, before: seq<Row>,
      q: seq<Rid>, after: seq<Row>)
    returns (i: nat)
    requires InBounds(layout) && RowInserted(layout, m, values, t, Ok(rid))
    requires RowsOf(layout, m, None, p, before) && RowsOf(layout, t, None, q, after)
    ensures i <= |before| && after == WithRow(before, i, TrimRow(values))
  {
    hide RowIn, AllFit, Before, Chosen;
    EveryRow(layout, m);
    EveryRow(layout, t);
    assert rid in q && rid !in p;
    i :| 0 <= i < |q| && q[i] == rid;
    WithoutOne(p, q, i);
    forall k | 0 <= k < |after| ensures after[k] == WithRow(before, i, TrimRow(values))[k] {
      SameRow(layout, m, values, t, rid, q[k]);
      assert k > i ==> p[k - 1] == q[k];
    }
  }

  lemma SameRow(layout: SchemaLayout, m: R.RStore, values: Row, t: R.RStore, rid: Rid, q: Rid)
    requires InBounds(layout) && RowInserted(layout, m, values, t, Ok(rid))
    ensures RowIn(layout, t, q) == if q == rid then Some(TrimRow(values)) else RowIn(layout, m, q)
  {
  }

  lemma EveryRow(layout: SchemaLayout, m: R.RStore)
    requires InBounds(layout)
    ensures forall q :: Chosen(layout, m, None, q) <==> RowIn(layout, m, q).Some?
  {
  }

  /** Taking the one new Rid out of the longer list leaves the shorter one. */
  lemma WithoutOne(p: seq<Rid>, q: seq<Rid>, i: nat)
    requires i < |q| && q[i] !in p
    requires forall a, b :: 0 <= a < b < |p| ==> Before(p[a], p[b])
    requires forall a, b :: 0 <= a < b < |q| ==> Before(q[a], q[b])
    requires forall r :: r in q <==> r in p || r == q[i]
    ensures p == q[..i] + q[i + 1..]
  {
    var rest := q[..i] + q[i + 1..];
    forall r ensures r in rest <==> r in p {
      if r in rest {
        var k :| 0 <= k < |rest| && rest[k] == r;
        assert r == q[if k < i then k else k + 1];
        assert Before(r, q[i]) || Before(q[i], r);
      }
      if r in p {
        assert r in q;
        var k :| 0 <= k < |q| && q[k] == r;
        assert rest[if k < i then k else k - 1] == r;
      }
    }
    OrderBy.OrderedUnique(p, rest, Before);
  }
}
