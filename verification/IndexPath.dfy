/** Why a lookup in an up-to-date index and a full scan give the same rows in the same order. */
module IndexPath {
  import opened Outcomes
  import opened Bytes
  import opened PageStore
  import opened RecordLayout
  import opened Predicates
  import opened RowCodec
  import opened ExprCompiler
  import opened RecordScans
  import opened IndexFiles
  import opened TableOps
  import opened Tables
  import R = RecordStores
  import OrderBy

  /** The entries an index on the column should hold, in scan order. */
  ghost function EntriesFor(layout: SchemaLayout, m: R.RStore, column: string): Result<seq<IndexEntry>, TableError>
    requires TableOk(layout, m)
  {
    TilesInBounds(layout);
    ScanSized(m);
    var i :- ColumnIndex(layout, column);
    EntriesOf(layout, i, ScanAll(m))
  }

  ghost predicate IntColumn(layout: SchemaLayout, column: string) {
    ColumnIndex(layout, column).Ok? && layout.columns[ColumnIndex(layout, column).value].columnType == Int32
  }

  function KeyFilter(column: string, key: i32): Expr {
    CmpValue(column, Eq, IntValue(key))
  }

  // ---- sorting keeps distinct entries distinct

  lemma {:induction false} PlaceDistinct(e: IndexEntry, sorted: seq<IndexEntry>)
    requires Distinct(sorted) && e !in sorted
    ensures Distinct(Place(e, sorted))
  {
    if sorted != [] && !EntryLess(e, sorted[0]) {
      PlaceDistinct(e, sorted[1..]);
      PlaceMembers(e, sorted[1..]);
      assert sorted[0] !in sorted[1..];
    }
  }

  lemma {:induction false} SortDistinct(entries: seq<IndexEntry>)
    requires Distinct(entries)
    ensures Distinct(Sort(entries))
  {
    if entries == [] {
    } else {
      var init, last := entries[..|entries| - 1], entries[|entries| - 1];
      SortDistinct(init);
      SortMembers(init, last);
      assert last !in init;
      PlaceDistinct(last, Sort(init));
    }
  }

  lemma SortMembers(entries: seq<IndexEntry>, e: IndexEntry)
    ensures e in Sort(entries) <==> e in entries
  {
    SortSpec(entries);
    assert e in multiset(entries) <==> e in multiset(Sort(entries));
  }

  // ---- the entries of a table

  /** An entry is filed exactly for the live records whose column holds its key. */
  lemma EntryMembers(layout: SchemaLayout, m: R.RStore, column: string, e: IndexEntry)
    requires TableOk(layout, m) && IntColumn(layout, column)
    ensures EntriesFor(layout, m, column).Ok?
    ensures e in EntriesFor(layout, m, column).value <==> Picked(layout, m, Some(KeyFilter(column, e.key)), e.rid)
  {
    hide Tiles, R.Inv, UniqueNames, ScanAll, DecodeI32, R.Lookup, DecodeRow, EntriesOf, Selects;
    TilesInBounds(layout);
    ScanSized(m);
    var i, recs := ColumnIndex(layout, column).value, ScanAll(m);
    EntriesExact(layout, i, recs);
    var entries := EntriesOf(layout, i, recs).value;
    var filter := Some(KeyFilter(column, e.key));
    if e in entries {
      var k :| 0 <= k < |entries| && entries[k] == e;
      KeySelects(layout, column, recs[k], e.key);
      ScanAllExact(m, recs[k]);
      assert recs[k] in recs;
    }
    if Picked(layout, m, filter, e.rid) {
      var x := Record(e.rid, R.Lookup(m, e.rid).value);
      ScanAllExact(m, x);
      var k :| 0 <= k < |recs| && recs[k] == x;
      KeySelects(layout, column, x, e.key);
      assert entries[k] == e;
    }
  }

  /** A record is filed under the key exactly when the filter on the key selects it. */
  lemma KeySelects(layout: SchemaLayout, column: string, x: Record, key: i32)
    requires InBounds(layout) && |x.data| == layout.recordSize && IntColumn(layout, column)
    ensures EntryOf(layout, ColumnIndex(layout, column).value, x).Ok?
    ensures EntryOf(layout, ColumnIndex(layout, column).value, x).value.rid == x.rid
    ensures EntryOf(layout, ColumnIndex(layout, column).value, x).value.key == key <==>
            Selects(layout, Some(KeyFilter(column, key)), x.data)
  {
    hide DecodeI32;
  }

  lemma EntriesDistinct(layout: SchemaLayout, m: R.RStore, column: string)
    requires TableOk(layout, m) && IntColumn(layout, column)
    ensures EntriesFor(layout, m, column).Ok? && Distinct(EntriesFor(layout, m, column).value)
  {
    hide Tiles, R.Inv, UniqueNames, ScanAll, EntriesOf, DecodeRow;
    TilesInBounds(layout);
    ScanSized(m);
    var i, recs := ColumnIndex(layout, column).value, ScanAll(m);
    EntriesExact(layout, i, recs);
    ScanIsOrdered(m);
    var entries := EntriesOf(layout, i, recs).value;
    forall a, b | 0 <= a < b < |entries| ensures entries[a] != entries[b] {
      assert Ok(entries[a]) == EntryOf(layout, i, recs[a]) && Ok(entries[b]) == EntryOf(layout, i, recs[b]);
      assert Before(recs[a].rid, recs[b].rid);
    }
  }

  // ---- the lookup

  function RidsOf(recs: seq<Record>): (r: seq<Rid>) {
    seq(|recs|, i requires 0 <= i < |recs| => recs[i].rid)
  }

  /** The Rids found under the key are those of the selected records, in scan order. */
  lemma LookupIsSelection(layout: SchemaLayout, m: R.RStore, column: string, key: i32)
    requires TableOk(layout, m) && IntColumn(layout, column)
    ensures EntriesFor(layout, m, column).Ok?
    ensures CursorOk(m, 1, 0) && CollectSpec(layout, m, Some(KeyFilter(column, key))).Ok?
    ensures LookupIn(Sort(EntriesFor(layout, m, column).value), key) ==
            RidsOf(CollectSpec(layout, m, Some(KeyFilter(column, key))).value)
  {
    hide Tiles, R.Inv, UniqueNames, EntriesFor, CollectSpec, LookupIn, Sort, Picked, Sorted;
    var filter := Some(KeyFilter(column, key));
    EntriesDistinct(layout, m, column);
    TilesInBounds(layout);
    KeyFilterOk(layout, column, key);
    CollectedSnapshot(layout, m, filter);
    var entries, recs := EntriesFor(layout, m, column).value, CollectSpec(layout, m, filter).value;
    var rids := LookupIn(Sort(entries), key);
    SortSpec(entries);
    SortDistinct(entries);
    LookupOrdered(Sort(entries), key);
    forall r ensures r in rids <==> r in RidsOf(recs) {
      LookupExact(Sort(entries), key, r);
      SortMembers(entries, IndexEntry(key, r));
      EntryMembers(layout, m, column, IndexEntry(key, r));
      RidsMembers(recs, r);
    }
    OrderBy.OrderedUnique(rids, RidsOf(recs), Before);
  }

  lemma RidsMembers(recs: seq<Record>, r: Rid)
    ensures r in RidsOf(recs) <==> RidIn(recs, r)
  {
    if RidIn(recs, r) {
      var i :| 0 <= i < |recs| && recs[i].rid == r;
      assert RidsOf(recs)[i] == r;
    }
  }

  lemma KeyFilterOk(layout: SchemaLayout, column: string, key: i32)
    requires IntColumn(layout, column)
    ensures FilterOk(layout, Some(KeyFilter(column, key)))
  {
  }

  /** Fetching live records one by one decodes them in order. */
  lemma {:induction false} RowsAtDecode(layout: SchemaLayout, m: R.RStore, recs: seq<Record>, n: nat)
    requires TableOk(layout, m) && InBounds(layout) && Sized(recs, layout.recordSize) && SnapshotOf(m, recs)
    requires n <= |recs|
    ensures RowsAt(layout, m, RidsOf(recs), n) == Ok(DecodeAll(layout, recs)[..n])
  {
    hide Tiles, R.Inv, UniqueNames, R.Lookup, R.Get, DecodeRow;
    if n == 0 {
    } else {
      RowsAtDecode(layout, m, recs, n - 1);
      R.GetIsLookup(m, recs[n - 1].rid);
      assert DecodeAll(layout, recs)[..n] == DecodeAll(layout, recs)[..n - 1] + [DecodeRow(layout, recs[n - 1].data)];
    }
  }

  /** What `table.scan` returns. */
  ghost function ScanRows(layout: SchemaLayout, m: R.RStore, e: Option<Expr>): Result<seq<Row>, TableError>
    requires TableOk(layout, m)
  {
    CollectedSized(layout, m, e);
    match CollectSpec(layout, m, e)
    case Ok(recs) => Ok(DecodeAll(layout, recs))
    case Err(err) => Err(err)
  }

  /** What `rows_by_rids` returns for the Rids an index file gives for the key. */
  ghost function LookupRows(layout: SchemaLayout, m: R.RStore, content: string, key: i32): Result<seq<Row>, TableError>
    requires TableOk(layout, m)
  {
    TilesInBounds(layout);
    match LookupEq(content, key)
    case Err(e) => Err(IndexFailure(e))
    case Ok(rids) => RowsAt(layout, m, rids, |rids|)
  }

  /** Through an up-to-date index file, the rows and their order are those of the scan. */
  lemma FastPathIsScan(layout: SchemaLayout, m: R.RStore, column: string, key: i32, content: string)
    requires TableOk(layout, m) && IntColumn(layout, column)
    requires EntriesFor(layout, m, column).Ok? && LoadSpec(content).Ok?
    requires LoadSpec(content).value.1 == Sort(EntriesFor(layout, m, column).value)
    ensures LookupRows(layout, m, content, key) == ScanRows(layout, m, Some(KeyFilter(column, key)))
  {
    hide Tiles, R.Inv, UniqueNames, EntriesFor, CollectSpec, LookupIn, Sort, Picked, LoadSpec, RowsAt;
    var filter := Some(KeyFilter(column, key));
    LookupIsSelection(layout, m, column, key);
    TilesInBounds(layout);
    KeyFilterOk(layout, column, key);
    CollectedSnapshot(layout, m, filter);
    var recs := CollectSpec(layout, m, filter).value;
    RowsAtDecode(layout, m, recs, |recs|);
    assert DecodeAll(layout, recs)[..|recs|] == DecodeAll(layout, recs);
  }

  /** Through an index file without entries nothing is found, which is right exactly when the scan
      selects nothing. */
  lemma EmptiedIndexMisses(layout: SchemaLayout, m: R.RStore, column: string, key: i32, content: string)
    requires TableOk(layout, m) && IntColumn(layout, column)
    requires LoadSpec(content).Ok? && LoadSpec(content).value.1 == []
    ensures InBounds(layout)
    ensures LookupRows(layout, m, content, key) == Ok([])
    ensures LookupRows(layout, m, content, key) == ScanRows(layout, m, Some(KeyFilter(column, key))) <==>
            forall q :: !Picked(layout, m, Some(KeyFilter(column, key)), q)
  {
    hide Tiles, R.Inv, UniqueNames, CollectSpec, Picked, LoadSpec;
    var filter := Some(KeyFilter(column, key));
    TilesInBounds(layout);
    KeyFilterOk(layout, column, key);
    CollectedSnapshot(layout, m, filter);
    var recs := CollectSpec(layout, m, filter).value;
    if recs != [] {
      assert RidIn(recs, recs[0].rid);
    }
  }
}
