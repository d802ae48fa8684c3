/** A table: rows under a schema, stored in a record file. */
module Tables {
  import opened Outcomes
  import opened Bytes
  import opened RecordLayout
  import opened RecordFiles
  import opened RecordScans
  import opened RowCodec
  import opened ExprCompiler
  import opened IndexFiles
  import opened TableOps
  import opened TableRows
  import R = RecordStores
  import PoolStates

  function DecodeAll(layout: SchemaLayout, recs: seq<Record>): (r: seq<Row>)
    requires InBounds(layout) && forall i :: 0 <= i < |recs| ==> |recs[i].data| == layout.recordSize
    ensures |r| == |recs| && forall i :: 0 <= i < |r| ==> r[i] == DecodeRow(layout, recs[i].data)
  {
    seq(|recs|, i requires 0 <= i < |recs| => DecodeRow(layout, recs[i].data))
  }

  /** The rows under a list of Rids, or an error if one of them is not live. */
  function RowsAt(layout: SchemaLayout, m: R.RStore, rids: seq<Rid>, n: nat): Result<seq<Row>, TableError>
    requires InBounds(layout) && n <= |rids|
  {
    if n == 0 then Ok([])
    else
      var rest :- RowsAt(layout, m, rids, n - 1);
      match R.Get(m, rids[n - 1])
      case Err(_) => Err(RecordFailure)
      case Ok(d) => if |d| != layout.recordSize then Err(RecordFailure) else Ok(rest + [DecodeRow(layout, d)])
  }

  lemma {:induction false} RowsAtStays(layout: SchemaLayout, m: R.RStore, rids: seq<Rid>, n: nat, k: nat)
    requires InBounds(layout) && n <= k <= |rids| && RowsAt(layout, m, rids, n).Err?
    ensures RowsAt(layout, m, rids, k) == RowsAt(layout, m, rids, n)
  {
    if n == k {
    } else {
      RowsAtStays(layout, m, rids, n, k - 1);
    }
  }

  lemma {:induction false} UpdateEachStays(layout: SchemaLayout, m: R.RStore, recs: seq<Record>,
      assignments: seq<Assignment>, n: nat)
    requires InBounds(layout) && Sized(recs, layout.recordSize) && n <= |recs|
    requires Sized(recs[..n], layout.recordSize) && UpdateEach(layout, m, recs[..n], assignments).1.Err?
    ensures UpdateEach(layout, m, recs, assignments) == UpdateEach(layout, m, recs[..n], assignments)
    decreases |recs|
  {
    hide OneUpdated;
    if n == |recs| {
      assert recs[..n] == recs;
    } else {
      var rest := recs[..|recs| - 1];
      assert rest[..n] == recs[..n];
      UpdateEachStays(layout, m, rest, assignments, n);
    }
  }

  lemma {:induction false} DeleteEachStays(m: R.RStore, recs: seq<Record>, n: nat)
    requires n <= |recs| && DeleteEach(m, recs[..n]).1.Err?
    ensures DeleteEach(m, recs) == DeleteEach(m, recs[..n])
    decreases |recs|
  {
    hide R.Delete;
    if n == |recs| {
      assert recs[..n] == recs;
    } else {
      var rest := recs[..|recs| - 1];
      assert rest[..n] == recs[..n];
      DeleteEachStays(m, rest, n);
    }
  }

  class Table {
    const schema: TableSchema
    const layout: SchemaLayout
    const file: RecordFile

    ghost predicate Valid()
      reads this, file, file.pool
    {
      file.Valid() && TableOk(layout, file.Model())
    }

    ghost function Model(): R.RStore
      reads this, file, file.pool
      requires Valid()
    {
      file.Model()
    }

    /** Opening a table compiles its schema over an open record file of the matching record size. */
    constructor (schema: TableSchema, layout: SchemaLayout, file: RecordFile)
      requires CompileSchemaSpec(schema) == Ok(layout) && file.Valid() && file.Model().size == layout.recordSize
      ensures this.schema == schema && this.layout == layout && this.file == file
      ensures Valid() && Model() == file.Model()
    {
      this.schema, this.layout, this.file := schema, layout, file;
      new;
      CompiledTiles(schema);
    }

    /** Encodes and inserts; the table stays valid unless the record went beyond the last page id that
        fits in a link. */
    method Insert(values: Row) returns (r: Result<Rid, TableError>)
      requires Valid()
      modifies file, file.pool
      ensures InBounds(layout) && file.Backed()
      ensures match InsertRow(layout, old(Model()), values)
              case Ok(a) => r == Ok(a.1) && file.Model() == a.0
              case Err(e) => r == Err(e) && file.Model() == old(Model())
      ensures RowInserted(layout, old(Model()), values, file.Model(), r)
      ensures Valid() <==> r.Err? || R.Roomy(old(Model()))
    {
      hide FileOk, StoreIn, Layout, Sequential, PoolStates.Inv, R.Inv, Tiles, UniqueNames, R.Insert, EncodeRowSpec,
        RowInserted;
      TilesInBounds(layout);
      InsertMeans(layout, Model(), values);
      var bytes :- EncodeRow(layout, values);
      R.InsertInv(Model(), bytes);
      InsertKeepsSize(Model(), bytes);
      var rid := file.Insert(bytes);
      if rid.Err? {
        return Err(RecordFailure);
      }
      return Ok(rid.value);
    }

    method CollectRecords(expr: Option<Expr>) returns (r: Result<seq<Record>, TableError>)
      requires Valid()
      modifies file.pool
      ensures Valid() && Model() == old(Model())
      ensures CursorOk(Model(), 1, 0) && r == CollectSpec(layout, Model(), expr)
    {
      hide FileOk, StoreIn, Layout, Sequential, PoolStates.Inv, R.Inv, Tiles, UniqueNames, ScanAll, Collect,
        CompileFilter, PredicateOf;
      FirstCursor(Model());
      var filter :- CompileFilter(layout, expr);
      var records := CollectAll(file, PredicateOf(filter));
      if records.Err? {
        return Err(RecordFailure);
      }
      return Ok(records.value);
    }

    method Scan(expr: Option<Expr>) returns (r: Result<seq<Row>, TableError>)
      requires Valid()
      modifies file.pool
      ensures Valid() && Model() == old(Model())
      ensures CursorOk(Model(), 1, 0) && InBounds(layout)
      ensures match CollectSpec(layout, Model(), expr)
              case Ok(recs) => Sized(recs, layout.recordSize) && r == Ok(DecodeAll(layout, recs))
              case Err(e) => r == Err(e)
    {
      hide FileOk, StoreIn, Layout, Sequential, PoolStates.Inv, R.Inv, Tiles, UniqueNames, CollectSpec;
      TilesInBounds(layout);
      CollectedSized(layout, Model(), expr);
      var records :- CollectRecords(expr);
      return Ok(DecodeAll(layout, records));
    }

    method RowsByRids(rids: seq<Rid>) returns (r: Result<seq<Row>, TableError>)
      requires Valid()
      modifies file.pool
      ensures Valid() && Model() == old(Model())
      ensures InBounds(layout) && r == RowsAt(layout, Model(), rids, |rids|)
    {
      hide FileOk, StoreIn, Layout, Sequential, PoolStates.Inv, R.Inv, Tiles, UniqueNames, R.Get, DecodeRow, R.Lookup;
      TilesInBounds(layout);
      var rows := [];
      for n := 0 to |rids|
        invariant Valid() && Model() == old(Model())
        invariant RowsAt(layout, Model(), rids, n) == Ok(rows)
      {
        GetSized(Model(), rids[n]);
        var record := file.Get(rids[n]);
        if record.Err? {
          RowsAtStays(layout, Model(), rids, n + 1, |rids|);
          return Err(RecordFailure);
        }
        rows := rows + [DecodeRow(layout, record.value)];
      }
      return Ok(rows);
    }

    method UpdateWhere(expr: Option<Expr>, assignments: seq<Assignment>) returns (r: Result<nat, TableError>)
      requires Valid()
      modifies file.pool
      ensures Valid() && (Model(), r) == TableOps.UpdateWhere(layout, old(Model()), expr, assignments)
      ensures InBounds(layout) && RowsUpdated(layout, old(Model()), expr, assignments, Model(), r)
    {
      hide FileOk, StoreIn, Layout, Sequential, PoolStates.Inv, R.Inv, Tiles, UniqueNames, CollectSpec, UpdateEach,
        RowsUpdated;
      UpdateMeans(layout, Model(), expr, assignments);
      CollectedSized(layout, Model(), expr);
      var records := CollectRecords(expr);
      if records.Err? {
        return Err(records.error);
      }
      r := UpdateRecords(records.value, assignments);
    }

    /** The write loop of UpdateWhere. */
    method UpdateRecords(records: seq<Record>, assignments: seq<Assignment>) returns (r: Result<nat, TableError>)
      requires Valid() && InBounds(layout) && Sized(records, layout.recordSize)
      modifies file.pool
      ensures Valid() && (Model(), r) == UpdateEach(layout, old(Model()), records, assignments)
    {
      hide FileOk, StoreIn, Layout, Sequential, PoolStates.Inv, R.Inv, Tiles, UniqueNames, OneUpdated;
      var affected: nat := 0;
      assert records[..|records|] == records;
      ghost var m := Model();
      for n := 0 to |records|
        invariant Valid() && UpdateEach(layout, m, records[..n], assignments) == (Model(), Ok(n)) && affected == n
      {
        assert records[..n + 1][..n] == records[..n];
        var updated := UpdateRecord(records[n], assignments);
        if updated.Err? {
          UpdateEachStays(layout, m, records, assignments, n + 1);
          return Err(updated.error);
        }
        affected := affected + 1;
      }
      return Ok(affected);
    }

    method UpdateRecord(record: Record, assignments: seq<Assignment>) returns (r: Result<(), TableError>)
      requires Valid() && InBounds(layout) && |record.data| == layout.recordSize
      modifies file.pool
      ensures Valid()
      ensures match OneUpdated(layout, old(Model()), record, assignments)
              case Err(e) => r == Err(e) && Model() == old(Model())
              case Ok(t) => r.Ok? && Model() == t
    {
      hide FileOk, StoreIn, Layout, Sequential, PoolStates.Inv, R.Inv, Tiles, UniqueNames, R.Update, UpdatedBytes;
      var bytes :- NewBytes(record.data, assignments);
      UpdateKeeps(Model(), record.rid, bytes);
      var updated := file.Update(record.rid, bytes);
      return if updated.Err? then Err(RecordFailure) else Ok(());
    }

    /** Decodes a record, applies the assignments in order and encodes the row again. */
    method NewBytes(data: seq<byte>, assignments: seq<Assignment>) returns (r: Result<seq<byte>, TableError>)
      requires InBounds(layout) && |data| == layout.recordSize
      ensures r == UpdatedBytes(layout, data, assignments)
    {
      hide DecodeField, EncodeRowSpec, Field;
      var row := DecodeRow(layout, data);
      for n := 0 to |assignments|
        invariant |row| == |layout.columns|
        invariant AssignUpTo(layout, DecodeRow(layout, data), assignments, n) == Ok(row)
      {
        var index := ColumnIndex(layout, assignments[n].0);
        if index.Err? {
          AssignStays(layout, DecodeRow(layout, data), assignments, n + 1, |assignments|);
          return Err(index.error);
        }
        row := row[index.value := assignments[n].1];
      }
      r := EncodeRow(layout, row);
    }

    method DeleteWhere(expr: Option<Expr>) returns (r: Result<nat, TableError>)
      requires Valid()
      modifies file, file.pool
      ensures Valid() && (Model(), r) == TableOps.DeleteWhere(layout, old(Model()), expr)
      ensures InBounds(layout) && RowsDeleted(layout, old(Model()), expr, Model(), r)
    {
      hide FileOk, StoreIn, Layout, Sequential, PoolStates.Inv, R.Inv, Tiles, UniqueNames, CollectSpec, DeleteEach,
        RowsDeleted;
      DeleteMeans(layout, Model(), expr);
      CollectExact(layout, Model(), expr);
      var records := CollectRecords(expr);
      if records.Err? {
        return Err(records.error);
      }
      r := DeleteRecords(records.value);
    }

    /** The loop of DeleteWhere. */
    method DeleteRecords(records: seq<Record>) returns (r: Result<nat, TableError>)
      requires Valid()
      modifies file, file.pool
      ensures Valid() && (Model(), r) == DeleteEach(old(Model()), records)
    {
      hide FileOk, StoreIn, Layout, Sequential, PoolStates.Inv, R.Inv, Tiles, UniqueNames, R.Delete;
      var affected: nat := 0;
      assert records[..|records|] == records;
      ghost var m := Model();
      for n := 0 to |records|
        invariant Valid() && DeleteEach(m, records[..n]) == (Model(), Ok(n)) && affected == n
      {
        assert records[..n + 1][..n] == records[..n];
        R.DeleteInv(Model(), records[n].rid);
        DeleteKeepsSize(Model(), records[n].rid);
        var deleted := file.Delete(records[n].rid);
        if deleted.Err? {
          DeleteEachStays(m, records, n + 1);
          return Err(RecordFailure);
        }
        affected := affected + 1;
      }
      return Ok(affected);
    }

    method IndexEntriesForInt32Column(column: string) returns (r: Result<seq<IndexEntry>, TableError>)
      requires Valid()
      modifies file.pool
      ensures Valid() && Model() == old(Model())
      ensures CursorOk(Model(), 1, 0) && InBounds(layout) && Sized(ScanAll(Model()), layout.recordSize)
      ensures r == match ColumnIndex(layout, column)
                   case Err(e) => Err(e)
                   case Ok(i) => EntriesOf(layout, i, ScanAll(Model()))
    {
      hide FileOk, StoreIn, Layout, Sequential, PoolStates.Inv, R.Inv, Tiles, UniqueNames, ScanAll, CollectSpec,
        Selected;
      CollectExact(layout, Model(), None);
      AllSelected(layout, ScanAll(Model()));
      var index := ColumnIndex(layout, column);
      var records := CollectRecords(None);
      if index.Err? {
        return Err(index.error);
      }
      r := BuildEntries(index.value, records.value);
    }

    method BuildEntries(index: nat, records: seq<Record>) returns (r: Result<seq<IndexEntry>, TableError>)
      requires InBounds(layout) && Sized(records, layout.recordSize) && index < |layout.columns|
      ensures r == EntriesOf(layout, index, records)
    {
      hide DecodeRow;
      var entries := [];
      assert records[..|records|] == records;
      for n := 0 to |records|
        invariant EntriesOf(layout, index, records[..n]) == Ok(entries)
      {
        assert records[..n + 1][..n] == records[..n];
        var row := DecodeRow(layout, records[n].data);
        if !row[index].IntValue? {
          EntriesStay(layout, index, records, n + 1);
          return Err(InvalidSchema);
        }
        entries := entries + [IndexEntry(row[index].number, records[n].rid)];
      }
      return Ok(entries);
    }
  }

  lemma InsertKeepsSize(m: R.RStore, d: seq<byte>)
    ensures R.Insert(m, d).Ok? ==> R.Insert(m, d).value.0.size == m.size
  {
    R.FillRange(m, d);
    if |m.pages| < 0xFFFF_FFFE {
      R.FillRange(R.Grown(m), d);
    }
  }

  lemma UpdateKeeps(m: R.RStore, rid: Rid, d: seq<byte>)
    requires R.Inv(m)
    ensures R.Update(m, rid, d).Ok? ==> R.Inv(R.Update(m, rid, d).value) && R.Update(m, rid, d).value.size == m.size
  {
    R.UpdateInv(m, rid, d);
  }

  lemma DeleteKeepsSize(m: R.RStore, rid: Rid)
    ensures R.Delete(m, rid).Ok? ==> R.Delete(m, rid).value.size == m.size
  {
  }

  lemma GetSized(m: R.RStore, rid: Rid)
    requires R.Inv(m)
    ensures R.Get(m, rid).Ok? ==> |R.Get(m, rid).value| == m.size
  {
    R.GetIsLookup(m, rid);
    LookupSized(m, rid);
  }

  lemma {:induction false} AssignStays(layout: SchemaLayout, row: Row, assignments: seq<Assignment>, n: nat, k: nat)
    requires |row| == |layout.columns| && n <= k <= |assignments| && AssignUpTo(layout, row, assignments, n).Err?
    ensures AssignUpTo(layout, row, assignments, k) == AssignUpTo(layout, row, assignments, n)
  {
    if n == k {
    } else {
      AssignStays(layout, row, assignments, n, k - 1);
    }
  }

  lemma {:induction false} EntriesStay(layout: SchemaLayout, i: nat, recs: seq<Record>, n: nat)
    requires InBounds(layout) && Sized(recs, layout.recordSize) && i < |layout.columns| && n <= |recs|
    requires EntriesOf(layout, i, recs[..n]).Err?
    ensures EntriesOf(layout, i, recs) == EntriesOf(layout, i, recs[..n])
    decreases |recs|
  {
    if n == |recs| {
      assert recs[..n] == recs;
    } else {
      var rest := recs[..|recs| - 1];
      assert rest[..n] == recs[..n];
      EntriesStay(layout, i, rest, n);
    }
  }

  lemma {:induction false} AllSelected(layout: SchemaLayout, recs: seq<Record>)
    requires InBounds(layout) && Sized(recs, layout.recordSize)
    ensures Selected(layout, None, recs) == recs
    decreases |recs|
  {
    if recs == [] {
    } else {
      AllSelected(layout, recs[1..]);
      assert recs == [recs[0]] + recs[1..];
    }
  }
}
