/** What a SELECT answers: its rows fetched, stably sorted, cut off at the limit, then projected. */
module SelectPlans {
  import opened Outcomes
  import opened Bytes
  import opened RecordLayout
  import opened RowCodec
  import opened ExprCompiler
  import opened TableOps
  import opened Tables
  import opened IndexPath
  import opened OrderBy
  import opened QueryPlan
  import R = RecordStores

  datatype Select = Select(
    table: string,
    filter: Option<Expr>,
    projection: Projection,
    orderBy: seq<OrderItem>,
    limit: Option<nat>)

  // ---- rows under a schema

  /** One value of the right kind per column. */
  predicate Conforms(columns: seq<ColumnSchema>, row: Row) {
    |row| == |columns| && forall i :: 0 <= i < |row| ==> KindMatches(columns[i].columnType, row[i])
  }

  ghost predicate AllConform(columns: seq<ColumnSchema>, rows: seq<Row>) {
    forall i :: 0 <= i < |rows| ==> Conforms(columns, rows[i])
  }

  ghost predicate LaysOut(layout: SchemaLayout, columns: seq<ColumnSchema>) {
    && |layout.columns| == |columns|
    && forall i :: 0 <= i < |columns| ==>
         layout.columns[i].name == columns[i].name && layout.columns[i].columnType == columns[i].columnType
  }

  lemma DecodedConforms(layout: SchemaLayout, columns: seq<ColumnSchema>, data: seq<byte>)
    requires LaysOut(layout, columns) && InBounds(layout) && |data| == layout.recordSize
    ensures Conforms(columns, DecodeRow(layout, data))
  {
    hide DecodeI32, DecodeU32, Trim;
    var row := DecodeRow(layout, data);
    forall i | 0 <= i < |row| ensures KindMatches(columns[i].columnType, row[i]) {
      assert row[i] == DecodeField(layout.columns[i].columnType, Field(layout, i, data));
    }
  }

  /** Scanned rows conform to the schema. */
  lemma ScannedConform(layout: SchemaLayout, columns: seq<ColumnSchema>, m: R.RStore, e: Option<Expr>)
    requires TableOk(layout, m) && LaysOut(layout, columns)
    ensures ScanRows(layout, m, e).Ok? ==> AllConform(columns, ScanRows(layout, m, e).value)
  {
    hide Tiles, R.Inv, UniqueNames, CollectSpec, DecodeRow, Conforms, LaysOut;
    CollectedSized(layout, m, e);
    if ScanRows(layout, m, e).Ok? {
      var recs := CollectSpec(layout, m, e).value;
      forall i | 0 <= i < |recs| ensures Conforms(columns, DecodeRow(layout, recs[i].data)) {
        DecodedConforms(layout, columns, recs[i].data);
      }
    }
  }

  /** So do rows fetched by Rid. */
  lemma {:induction false} FetchedConform(layout: SchemaLayout, columns: seq<ColumnSchema>, m: R.RStore,
      rids: seq<Rid>, n: nat)
    requires LaysOut(layout, columns) && InBounds(layout) && n <= |rids|
    ensures RowsAt(layout, m, rids, n).Ok? ==> AllConform(columns, RowsAt(layout, m, rids, n).value)
  {
    hide DecodeRow, Conforms, LaysOut, R.Get;
    if n == 0 {
    } else {
      FetchedConform(layout, columns, m, rids, n - 1);
      if RowsAt(layout, m, rids, n).Ok? {
        DecodedConforms(layout, columns, R.Get(m, rids[n - 1]).value);
      }
    }
  }

  // ---- the answer

  /** The request can be planned against the schema. */
  ghost predicate Plannable(columns: seq<ColumnSchema>, q: Select) {
    && (q.filter.Some? ==> FilterColumnsKnown(columns, q.filter.value))
    && ProjectionOk(columns, q.projection)
    && OrderOk(columns, q.orderBy)
    && q.limit != Some(0)
  }

  function ProjectAll(rows: seq<Row>, indices: seq<nat>): seq<Row>
    requires forall r, i :: 0 <= r < |rows| && 0 <= i < |indices| ==> indices[i] < |rows[r]|
  {
    seq(|rows|, r requires 0 <= r < |rows| => ProjectRow(rows[r], indices))
  }

  lemma KeysFit(columns: seq<ColumnSchema>, rows: seq<Row>, items: seq<OrderItem>, keys: seq<OrderKey>)
    requires AllConform(columns, rows) && KeysFor(columns, items, keys)
    ensures Sortable(rows, keys)
  {
    forall i, j | 0 <= i < |rows| && 0 <= j < |rows| ensures Alike(rows[i], rows[j]) {
      assert Conforms(columns, rows[i]) && Conforms(columns, rows[j]);
    }
  }

  lemma ArrangedLengths(columns: seq<ColumnSchema>, rows: seq<Row>, keys: seq<OrderKey>, limit: Option<nat>)
    requires AllConform(columns, rows) && Sortable(rows, keys)
    ensures AllConform(columns, ApplyLimit(ApplyOrderBy(rows, keys), limit))
  {
    hide Conforms, KeysInRow, Alike, Precedes;
  }

  /** Sorting, cutting off and projecting, in this order. */
  ghost predicate Answers(columns: seq<ColumnSchema>, rows: seq<Row>, q: Select, keys: seq<OrderKey>,
      indices: seq<nat>, out: seq<Row>)
    requires AllConform(columns, rows)
  {
    && KeysFor(columns, q.orderBy, keys) && PointsAt(columns, indices, ProjectedNames(columns, q.projection))
    && (KeysFit(columns, rows, q.orderBy, keys);
        var kept := ApplyLimit(ApplyOrderBy(rows, keys), q.limit);
        ArrangedLengths(columns, rows, keys, q.limit);
        && (forall i :: 0 <= i < |kept| ==> Conforms(columns, kept[i]))
        && out == ProjectAll(kept, indices))
  }

  /** Source row a of an answer goes before source row b: b is not to come first, and of rows that hold
      the same values under all keys the earlier one goes first. */
  ghost predicate RightOrder(rows: seq<Row>, keys: seq<OrderKey>, a: nat, b: nat)
    requires Sortable(rows, keys) && a < |rows| && b < |rows|
  {
    !ComesFirst(rows[b], rows[a], keys) && (SameUnder(rows[a], rows[b], keys) ==> a < b)
  }

  lemma PrecedesMeans(rows: seq<Row>, keys: seq<OrderKey>, a: nat, b: nat)
    requires Sortable(rows, keys) && a < |rows| && b < |rows|
    ensures Precedes(rows, keys, a, b) ==> RightOrder(rows, keys, a, b)
  {
    hide CompareRows, ComesFirst, SameUnder;
    CompareRowsMeans(rows[a], rows[b], keys);
    CompareRowsMeans(rows[b], rows[a], keys);
    CompareRowsReverse(rows[a], rows[b], keys);
  }

  /** The answer takes its rows from the fetched ones in the order p, as many as the limit allows: each of
      its rows is in the right order with every later and every dropped one, and holds the requested
      columns of its source row in the requested order, whether or not the sort columns are among them. */
  lemma AnswerMeans(columns: seq<ColumnSchema>, rows: seq<Row>, q: Select, keys: seq<OrderKey>, indices: seq<nat>,
      out: seq<Row>)
    returns (p: seq<nat>)
    requires AllConform(columns, rows) && Answers(columns, rows, q, keys, indices, out)
    ensures |keys| == |q.orderBy|
    ensures forall k :: 0 <= k < |keys| ==>
              keys[k].index < |columns| && columns[keys[k].index].name == q.orderBy[k].column &&
              keys[k].desc == q.orderBy[k].desc
    ensures Sortable(rows, keys) && StableSorted(rows, keys, p)
    ensures |p| == |rows| && (forall i :: 0 <= i < |p| ==> p[i] < |rows|)
    ensures forall i, j :: 0 <= i < j < |p| ==> p[i] != p[j]
    ensures |out| == if q.limit.Some? && q.limit.value < |rows| then q.limit.value else |rows|
    ensures forall i, j :: 0 <= i < |out| && i < j < |p| ==> RightOrder(rows, keys, p[i], p[j])
    ensures |indices| == |ProjectedNames(columns, q.projection)|
    ensures forall i :: 0 <= i < |out| ==> |out[i]| == |indices| && |rows[p[i]]| == |columns|
    ensures forall i, k :: 0 <= i < |out| && 0 <= k < |indices| ==>
              indices[k] < |columns| && columns[indices[k]].name == ProjectedNames(columns, q.projection)[k] &&
              out[i][k] == rows[p[i]][indices[k]]
  {
    hide Precedes, Alike, ProjectedNames, RightOrder;
    KeysFit(columns, rows, q.orderBy, keys);
    p := OrderedPrefix(rows, keys, q.limit);
    forall i, j | 0 <= i < j < |p| ensures RightOrder(rows, keys, p[i], p[j]) && p[i] != p[j] {
      assert Precedes(rows, keys, p[i], p[j]);
      PrecedesMeans(rows, keys, p[i], p[j]);
      PrecedesAsymmetric(rows, keys, p[i], p[j]);
    }
    forall i | 0 <= i < |out| ensures |rows[p[i]]| == |columns| {
      assert Conforms(columns, rows[p[i]]);
    }
  }
}
