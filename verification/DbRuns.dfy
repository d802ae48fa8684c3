/** Runs of database requests: indexes keep agreeing with their tables, and what the exceptions are. */
module DbRuns {
  import opened Outcomes
  import opened Bytes
  import opened RecordLayout
  import opened RowCodec
  import opened ExprCompiler
  import opened IndexFiles
  import opened TableOps
  import opened IndexPath
  import opened DbStates
  import R = RecordStores

  datatype Request =
    | CreateTableRequest(schema: TableSchema)
    | DropTableRequest(table: string)
    | CreateIndexRequest(name: string, table: string, column: string)
    | DropIndexRequest(name: string)
    | InsertRequest(table: string, values: Row)
    | UpdateRequest(table: string, filter: Option<Expr>, assignments: seq<Assignment>)
    | DeleteRequest(table: string, filter: Option<Expr>)

  function ErrorOf<T>(r: Result<T, TableError>): Option<TableError> {
    match r
    case Ok(_) => None
    case Err(e) => Some(e)
  }

  ghost predicate Able(db: Db, q: Request) {
    SoundDb(db) && (q.InsertRequest? ==> CanInsert(db, q.table))
  }

  /** The state after the request, and the error if it is refused. */
  ghost function Step(db: Db, q: Request): (Db, Option<TableError>)
    requires Able(db, q)
  {
    match q
    case CreateTableRequest(schema) => CreateTable(db, schema)
    case DropTableRequest(table) => DropTable(db, table)
    case CreateIndexRequest(name, table, column) => CreateIndex(db, name, table, column)
    case DropIndexRequest(name) => DropIndex(db, name)
    case InsertRequest(table, values) => var (t, r) := InsertInto(db, table, values); (t, ErrorOf(r))
    case UpdateRequest(table, filter, assignments) =>
      var (t, r) := UpdateIn(db, table, filter, assignments); (t, ErrorOf(r))
    case DeleteRequest(table, filter) => var (t, r) := DeleteFrom(db, table, filter); (t, ErrorOf(r))
  }

  /** An index request that is refused because the name is taken. */
  ghost predicate RefusedDuplicate(db: Db, q: Request) {
    q.CreateIndexRequest? && q.name in db.indexes && GoodMeta(db, IndexMeta(q.name, q.table, q.column))
  }

  /** The request does not try to create an index under the name of an index that has entries; one with
      a new name never does. */
  ghost predicate Harmless(db: Db, q: Request)
    requires SoundDb(db)
  {
    RefusedDuplicate(db, q) ==> EntriesNow(db, q.name) == []
  }

  // ---- one step

  lemma CreateTableSound(db: Db, schema: TableSchema)
    requires SoundDb(db)
    ensures SoundDb(CreateTable(db, schema).0) && CreateTable(db, schema).0.indexes == db.indexes
    ensures forall n :: n in db.indexes ==> (Current(CreateTable(db, schema).0, n) <==> Current(db, n))
  {
    hide CompileSchemaSpec, IndexSound, Current, TableSound;
    if CompileSchemaSpec(schema).Ok? && schema.name !in db.catalog && schema.name !in db.orphans {
      CreatedTable(schema);
      match R.Create(CompileSchemaSpec(schema).value.recordSize)
      case Ok(m) => NewTableSound(db, schema, m);
      case Err(_) => OrphanSound(db, schema.name);
    }
  }

  lemma NewTableSound(db: Db, schema: TableSchema, m: R.RStore)
    requires SoundDb(db) && schema.name !in db.catalog && schema.name !in db.orphans
    requires CompileSchemaSpec(schema) == Ok(LayoutOf(schema.columns)) && TableOk(LayoutOf(schema.columns), m)
    ensures var t := db.(catalog := db.catalog[schema.name := schema], models := db.models[schema.name := m]);
            SoundDb(t) && forall n :: n in db.indexes ==> (Current(t, n) <==> Current(db, n))
  {
    hide IntColumn, IndexText, CompileSchemaSpec, LayoutOf, ValidIdentifier, LoadSpec, EntriesFor, Sort, TableOk;
    var t := db.(catalog := db.catalog[schema.name := schema], models := db.models[schema.name := m]);
    forall x | x in t.catalog ensures TableSound(t, x) {
      if x != schema.name {
        assert TableSound(db, x);
      }
    }
    forall n | n in t.indexes ensures IndexSound(t, n) {
      assert IndexSound(db, n);
    }
    forall n | n in db.indexes ensures Current(t, n) <==> Current(db, n) {
      assert IndexSound(db, n);
    }
  }

  lemma OrphanSound(db: Db, name: string)
    requires SoundDb(db) && name !in db.catalog
    ensures var t := db.(orphans := db.orphans + {name});
            SoundDb(t) && forall n :: n in db.indexes ==> (Current(t, n) <==> Current(db, n))
  {
    hide IntColumn, IndexText, CompileSchemaSpec, LayoutOf, ValidIdentifier, LoadSpec, EntriesFor, Sort, TableOk,
      Current;
    assert forall n :: n in db.indexes ==> IndexSound(db, n);
    assert forall x :: x in db.catalog ==> TableSound(db, x);
    RemovedSound(db, db.(orphans := db.orphans + {name}));
  }

  lemma CreatedTable(schema: TableSchema)
    requires CompileSchemaSpec(schema).Ok?
    ensures CompileSchemaSpec(schema) == Ok(LayoutOf(schema.columns))
    ensures var layout := LayoutOf(schema.columns);
            R.Create(layout.recordSize).Ok? ==> TableOk(layout, R.Create(layout.recordSize).value)
  {
    hide Tiles, R.Inv, UniqueNames, FirstColumnError;
    CompiledTiles(schema);
    R.CreateInv(LayoutOf(schema.columns).recordSize);
  }

  lemma DropTableSound(db: Db, table: string)
    requires SoundDb(db)
    ensures var t := DropTable(db, table).0;
            SoundDb(t) && (forall n :: n in t.indexes ==> n in db.indexes && (Current(t, n) <==> Current(db, n)))
  {
    hide TableOk, IntColumn, IndexText, CompileSchemaSpec, LayoutOf, Content, ValidIdentifier, LoadSpec, EntriesFor,
      Sort, Current;
    if table in db.catalog {
      assert forall n :: n in db.indexes ==> IndexSound(db, n);
      RemovedSound(db, DropTable(db, table).0);
    }
  }

  lemma DropIndexSound(db: Db, name: string)
    requires SoundDb(db)
    ensures var t := DropIndex(db, name).0;
            SoundDb(t) && (forall n :: n in t.indexes ==> n in db.indexes && (Current(t, n) <==> Current(db, n)))
  {
    hide TableOk, IntColumn, IndexText, CompileSchemaSpec, LayoutOf, Content, ValidIdentifier, LoadSpec, EntriesFor,
      Sort, Current;
    if name in db.indexes {
      assert forall n :: n in db.indexes ==> IndexSound(db, n);
      RemovedSound(db, DropIndex(db, name).0);
    }
  }

  /** A new index is current at once; a refused one leaves every other index as it was. */
  lemma CreateIndexSound(db: Db, name: string, table: string, column: string)
    requires SoundDb(db)
    ensures var t := CreateIndex(db, name, table, column).0;
            SoundDb(t) && (forall n :: n in t.indexes && n != name ==>
              n in db.indexes && (Current(t, n) <==> Current(db, n)))
    ensures name !in db.indexes && name in CreateIndex(db, name, table, column).0.indexes ==>
              Current(CreateIndex(db, name, table, column).0, name)
  {
    hide LayoutOf, ValidIdentifier, Current, SoundDb, Overwritten, Added, RebuiltAll;
    var meta := IndexMeta(name, table, column);
    GoodMetaIff(db, name, table, column);
    if GoodMeta(db, meta) {
      if name in db.indexes {
        OverwrittenCurrent(db, meta);
      } else {
        AddedCurrent(db, meta);
      }
    }
  }

  lemma OverwrittenCurrent(db: Db, meta: IndexMeta)
    requires SoundDb(db) && GoodMeta(db, meta) && meta.name in db.indexes
    ensures SoundDb(Overwritten(db, meta)) && Overwritten(db, meta).indexes == db.indexes
    ensures forall n :: n in db.indexes && n != meta.name ==> (Current(Overwritten(db, meta), n) <==> Current(db, n))
  {
    hide TableOk, IndexText, CompileSchemaSpec, LayoutOf, Content, ValidIdentifier, LoadSpec, EntriesFor, Sort,
      IntColumn, GoodMeta;
    OverwrittenSound(db, meta);
  }

  lemma AddedCurrent(db: Db, meta: IndexMeta)
    requires SoundDb(db) && GoodMeta(db, meta) && meta.name !in db.indexes
    ensures SoundDb(Added(db, meta)) && meta.name in Added(db, meta).indexes
    ensures var t := RebuiltAll(Added(db, meta), {meta.name});
            && SoundDb(t) && t.indexes == db.indexes[meta.name := meta] && Current(t, meta.name)
            && forall n :: n in db.indexes ==> (Current(t, n) <==> Current(db, n))
  {
    hide TableOk, IndexText, CompileSchemaSpec, LayoutOf, Content, ValidIdentifier, LoadSpec, EntriesFor, Sort,
      IntColumn, GoodMeta, RebuiltFile;
    AddedSound(db, meta);
    var t := Added(db, meta);
    RebuiltIsCurrent(t, {meta.name});
    assert forall n :: n in db.indexes ==> (Current(t, n) <==> Current(db, n));
  }

  /** After new contents for a table and a rebuild, its indexes are current and the others as before. */
  lemma RebuiltAfterWrite(db: Db, table: string, m: R.RStore)
    requires SoundDb(db) && table in db.catalog && TableOk(LayoutAt(db, table), m)
    ensures SoundDb(WithModel(db, table, m))
    ensures var t := Rebuilt(WithModel(db, table, m), table);
            SoundDb(t) && forall n :: n in db.indexes ==> (Current(t, n) <==> IndexOn(db, n, table) || Current(db, n))
  {
    hide TableOk, IntColumn, IndexText, CompileSchemaSpec, LayoutOf, Content, ValidIdentifier, LoadSpec, EntriesFor,
      Sort;
    WithModelSound(db, table, m);
    var t := WithModel(db, table, m);
    RebuiltIsCurrent(t, IndexesOf(t, table));
  }

  lemma SameModel(db: Db, table: string)
    requires table in db.models
    ensures WithModel(db, table, db.models[table]) == db
  {
    assert db.models[table := db.models[table]] == db.models;
  }

  ghost predicate IsWrite(q: Request) {
    q.InsertRequest? || q.UpdateRequest? || q.DeleteRequest?
  }

  /** A write on a table that is not refused makes all its indexes current, even stale ones; a refused
      write changes nothing at all. */
  lemma WriteRebuilds(db: Db, q: Request)
    requires Able(db, q) && IsWrite(q)
    ensures var (t, e) := Step(db, q);
            && SoundDb(t) && t.indexes == db.indexes
            && (e.Some? ==> t == db)
            && (e.None? ==> q.table in db.catalog && forall n :: n in db.indexes ==>
               (Current(t, n) <==> IndexOn(db, n, q.table) || Current(db, n)))
  {
    hide TableOk, IntColumn, IndexText, CompileSchemaSpec, LayoutOf, Content, ValidIdentifier, LoadSpec, EntriesFor,
      Sort, Current,
      Rebuilt, UpdateWhere, DeleteWhere, InsertRow;
    if q.table in db.catalog {
      var layout, m := LayoutAt(db, q.table), db.models[q.table];
      SoundTable(db, q.table);
      SameModel(db, q.table);
      match q
      case InsertRequest(table, values) =>
        InsertTableOk(layout, m, values);
        if InsertRow(layout, m, values).Ok? {
          RebuiltAfterWrite(db, table, InsertRow(layout, m, values).value.0);
          RebuiltKeeps(db, table, InsertRow(layout, m, values).value.0);
        }
      case UpdateRequest(table, filter, assignments) =>
        UpdateIsAtomic(layout, m, filter, assignments, Zeros(layout.recordSize));
        RebuiltAfterWrite(db, table, UpdateWhere(layout, m, filter, assignments).0);
        RebuiltKeeps(db, table, UpdateWhere(layout, m, filter, assignments).0);
      case DeleteRequest(table, filter) =>
        DeleteIsAtomic(layout, m, filter);
        RebuiltAfterWrite(db, table, DeleteWhere(layout, m, filter).0);
        RebuiltKeeps(db, table, DeleteWhere(layout, m, filter).0);
    }
  }

  lemma SoundTable(db: Db, table: string)
    requires SoundDb(db) && table in db.catalog
    ensures table in db.models && TableOk(LayoutAt(db, table), db.models[table]) && InBounds(LayoutAt(db, table))
  {
    hide R.Inv, UniqueNames;
    assert TableSound(db, table);
    TilesInBounds(LayoutAt(db, table));
  }

  lemma RebuiltKeeps(db: Db, table: string, m: R.RStore)
    requires SoundDb(db) && table in db.catalog && TableOk(LayoutAt(db, table), m)
    ensures SoundDb(WithModel(db, table, m))
    ensures Rebuilt(WithModel(db, table, m), table).indexes == db.indexes
  {
    hide TableOk;
    WithModelSound(db, table, m);
  }

  /** Every request keeps a sound database sound. */
  lemma StepSound(db: Db, q: Request)
    requires Able(db, q)
    ensures SoundDb(Step(db, q).0)
  {
    hide SoundDb, CreateTable, DropTable, CreateIndex, DropIndex, InsertInto, UpdateIn, DeleteFrom, Current;
    match q
    case CreateTableRequest(schema) => CreateTableSound(db, schema);
    case DropTableRequest(table) => DropTableSound(db, table);
    case CreateIndexRequest(name, table, column) => CreateIndexSound(db, name, table, column);
    case DropIndexRequest(name) => DropIndexSound(db, name);
    case _ => WriteRebuilds(db, q);
  }

  /** Requests keep the indexes in agreement, refused or not, with exactly one exception. */
  lemma StepAgreed(db: Db, q: Request)
    requires Able(db, q) && Agreed(db)
    ensures SoundDb(Step(db, q).0)
    ensures Agreed(Step(db, q).0) <==> Harmless(db, q)
  {
    hide SoundDb, CreateTable, DropTable, CreateIndex, DropIndex, InsertInto, UpdateIn, DeleteFrom, Current, GoodMeta;
    StepSound(db, q);
    match q
    case CreateTableRequest(schema) => CreateTableSound(db, schema);
    case DropTableRequest(table) => DropTableSound(db, table);
    case CreateIndexRequest(name, table, column) =>
      CreateIndexSound(db, name, table, column);
      if name in db.indexes {
        if RefusedDuplicate(db, q) {
          DuplicateEmpties(db, q);
        } else {
          IllFormedIndex(db, name, table, column);
        }
      }
    case DropIndexRequest(name) => DropIndexSound(db, name);
    case _ => WriteRebuilds(db, q);
  }

  /** No request but one to create an index can break the agreement. */
  lemma StaysAgreed(db: Db, q: Request)
    requires Able(db, q) && !q.CreateIndexRequest?
    ensures SoundDb(Step(db, q).0)
    ensures Agreed(db) ==> Agreed(Step(db, q).0)
  {
    hide SoundDb, Step, Agreed;
    StepSound(db, q);
    if Agreed(db) {
      StepAgreed(db, q);
    }
  }

  lemma IllFormedIndex(db: Db, name: string, table: string, column: string)
    requires SoundDb(db) && !GoodMeta(db, IndexMeta(name, table, column))
    ensures CreateIndex(db, name, table, column).0 == db
  {
    hide LayoutOf, ValidIdentifier, SoundDb, ColumnIndex;
    GoodMetaIff(db, name, table, column);
  }

  // ---- runs

  ghost predicate Possible(db: Db, qs: seq<Request>)
    decreases |qs|
  {
    SoundDb(db) && (qs != [] ==> Able(db, qs[0]) && Possible(Step(db, qs[0]).0, qs[1..]))
  }

  ghost function Run(db: Db, qs: seq<Request>): Db
    requires Possible(db, qs)
    decreases |qs|
  {
    if qs == [] then db else Run(Step(db, qs[0]).0, qs[1..])
  }

  ghost predicate HarmlessRun(db: Db, qs: seq<Request>)
    requires Possible(db, qs)
    decreases |qs|
  {
    qs != [] ==> Harmless(db, qs[0]) && HarmlessRun(Step(db, qs[0]).0, qs[1..])
  }

  lemma EmptyAgreed()
    ensures SoundDb(EMPTY_DB) && Agreed(EMPTY_DB)
  {
  }

  /** In every state reached by harmless requests, refused ones included, indexes and tables agree. */
  lemma {:induction false} RunAgreed(db: Db, qs: seq<Request>)
    requires Possible(db, qs) && HarmlessRun(db, qs) && Agreed(db)
    ensures SoundDb(Run(db, qs)) && Agreed(Run(db, qs))
    decreases |qs|
  {
    hide SoundDb, Step, Agreed, Harmless;
    if qs == [] {
    } else {
      StepAgreed(db, qs[0]);
      RunAgreed(Step(db, qs[0]).0, qs[1..]);
    }
  }

  // ---- selecting

  /** What a select finds through the index `via`, or by scanning the table. */
  ghost function Fetched(db: Db, table: string, filter: Option<Expr>, via: Option<string>): Result<seq<Row>, TableError>
    requires SoundDb(db) && table in db.catalog && Usable(db, table, filter, via)
  {
    SoundTable(db, table);
    match via
    case None => ScanRows(LayoutAt(db, table), db.models[table], filter)
    case Some(name) =>
      assert IndexSound(db, name);
      LookupRows(LayoutAt(db, table), db.models[table], db.indexFiles[name], filter.value.value.number)
  }

  /** The filter compares the indexed column of the table with an Int32 constant for equality. */
  predicate Usable(db: Db, table: string, filter: Option<Expr>, via: Option<string>) {
    via.Some? ==>
      && filter.Some? && filter.value.CmpValue? && filter.value.op.Eq? && filter.value.value.IntValue?
      && IndexOn(db, via.value, table) && db.indexes[via.value].column == filter.value.column
  }

  /** While the index is current, the select through it is the select by scan. */
  lemma SelectSame(db: Db, table: string, filter: Option<Expr>, name: string)
    requires SoundDb(db) && table in db.catalog && Usable(db, table, filter, Some(name)) && Current(db, name)
    ensures Fetched(db, table, filter, Some(name)) == Fetched(db, table, filter, None)
  {
    hide TableOk, IntColumn, IndexText, CompileSchemaSpec, LayoutOf, LoadSpec, EntriesFor, Sort, LookupRows, ScanRows;
    SoundTable(db, table);
    assert IndexSound(db, name);
    var layout, m := LayoutAt(db, table), db.models[table];
    EntriesDistinct(layout, m, filter.value.column);
    FastPathIsScan(layout, m, filter.value.column, filter.value.value.number, db.indexFiles[name]);
  }

  /** Fast path and scan agree after every run of harmless requests from an empty database, whichever of the
      usable indexes is picked. */
  lemma FastPathAfterRun(qs: seq<Request>, table: string, filter: Option<Expr>, name: string)
    requires Possible(EMPTY_DB, qs) && HarmlessRun(EMPTY_DB, qs)
    requires table in Run(EMPTY_DB, qs).catalog && Usable(Run(EMPTY_DB, qs), table, filter, Some(name))
    ensures var db := Run(EMPTY_DB, qs);
            && SoundDb(db)
            && Fetched(db, table, filter, Some(name)) == Fetched(db, table, filter, None)
  {
    hide SoundDb, Step, Current, Fetched;
    EmptyAgreed();
    RunAgreed(EMPTY_DB, qs);
    SelectSame(Run(EMPTY_DB, qs), table, filter, name);
  }

  // ---- the duplicate index

  /** A refused duplicate empties the live index of that name: it stays current exactly when its table
      has no records. */
  lemma DuplicateEmpties(db: Db, q: Request)
    requires Able(db, q) && RefusedDuplicate(db, q)
    ensures var (t, e) := Step(db, q);
            && e == Some(IndexFailure(DuplicateIndex(q.name))) && SoundDb(t) && t.indexes == db.indexes &&
               t.models == db.models
            && LoadSpec(t.indexFiles[q.name]).Ok? && LoadSpec(t.indexFiles[q.name]).value.1 == []
            && (Current(t, q.name) <==> EntriesNow(db, q.name) == [])
  {
    hide TableOk, IndexText, CompileSchemaSpec, LayoutOf, Content, ValidIdentifier, LoadSpec, EntriesFor;
    var meta := IndexMeta(q.name, q.table, q.column);
    OverwrittenSound(db, meta);
    IdentifiersPlain(db, meta);
    WriteLoadRoundTrip(meta, []);
    if Sort(EntriesNow(db, q.name)) == [] {
      SortSpec(EntriesNow(db, q.name));
      NotEmpty(EntriesNow(db, q.name));
    }
  }

  lemma NotEmpty(entries: seq<IndexEntry>)
    ensures entries != [] ==> multiset(entries) != multiset{}
  {
    assert entries != [] ==> entries[0] in multiset(entries);
  }

  /** Until the next write on its table, a select through the emptied index finds nothing; that is what
      the scan finds exactly when no record is selected. */
  lemma SelectAfterDuplicate(db: Db, q: Request, filter: Option<Expr>)
    requires Able(db, q) && RefusedDuplicate(db, q)
    requires Usable(db, db.indexes[q.name].table, filter, Some(q.name))
    ensures var t, table := Step(db, q).0, db.indexes[q.name].table;
            && SoundDb(t) && table in t.catalog && Usable(t, table, filter, Some(q.name))
            && InBounds(LayoutAt(t, table)) && table in t.models
            && Fetched(t, table, filter, Some(q.name)) == Ok([])
            && (Fetched(t, table, filter, Some(q.name)) == Fetched(t, table, filter, None) <==>
                forall r :: !Picked(LayoutAt(t, table), t.models[table], filter, r))
  {
    hide TableOk, IntColumn, IndexText, CompileSchemaSpec, LayoutOf, LoadSpec, EntriesFor, Sort, LookupRows, ScanRows,
      Picked, Step,
      EntriesNow, Current, GoodMeta;
    DuplicateEmpties(db, q);
    assert IndexSound(db, q.name);
    var t, table := Step(db, q).0, db.indexes[q.name].table;
    assert IndexSound(t, q.name);
    SoundTable(t, table);
    EmptiedIndexMisses(LayoutAt(t, table), t.models[table], filter.value.column, filter.value.value.number,
      t.indexFiles[q.name]);
  }

  // ---- what an index file says about itself

  /** The index file names the table and column that the catalog gives the index. */
  ghost predicate MetaCurrent(db: Db, name: string)
    requires SoundDb(db) && name in db.indexes
  {
    assert IndexSound(db, name);
    LoadSpec(db.indexFiles[name]).Ok? && LoadSpec(db.indexFiles[name]).value.0 == db.indexes[name]
  }

  /** Rebuilding keeps the meta data of the file, right or wrong. */
  lemma RebuiltMeta(db: Db, names: set<string>, n: string)
    requires SoundDb(db) && n in db.indexes
    ensures SoundDb(RebuiltAll(db, names)) && n in RebuiltAll(db, names).indexes
    ensures MetaCurrent(RebuiltAll(db, names), n) <==> MetaCurrent(db, n)
  {
    hide TableOk, IntColumn, IndexText, CompileSchemaSpec, LayoutOf, Content, ValidIdentifier, LoadSpec, EntriesFor,
      Sort, PlainMeta;
    RebuiltIsCurrent(db, names);
    assert IndexSound(db, n);
    TextLoads(db.indexFiles[n]);
    WriteLoadRoundTrip(LoadSpec(db.indexFiles[n]).value.0, EntriesNow(db, n));
  }

  lemma WrittenMeta(db: Db, table: string, m: R.RStore, n: string)
    requires SoundDb(db) && n in db.indexes && table in db.catalog && TableOk(LayoutAt(db, table), m)
    ensures SoundDb(WithModel(db, table, m))
    ensures var t := Rebuilt(WithModel(db, table, m), table);
            SoundDb(t) && n in t.indexes && (MetaCurrent(t, n) <==> MetaCurrent(db, n))
  {
    hide TableOk, IntColumn, IndexText, CompileSchemaSpec, LayoutOf, Content, ValidIdentifier, LoadSpec, EntriesFor,
      Sort, PlainMeta;
    WithModelSound(db, table, m);
    var t := WithModel(db, table, m);
    RebuiltMeta(t, IndexesOf(t, table), n);
  }

  lemma AddedMeta(db: Db, meta: IndexMeta)
    requires SoundDb(db) && GoodMeta(db, meta) && meta.name !in db.indexes
    ensures SoundDb(Added(db, meta)) && MetaCurrent(Added(db, meta), meta.name)
  {
    hide TableOk, IntColumn, IndexText, CompileSchemaSpec, LayoutOf, Content, ValidIdentifier, LoadSpec, EntriesFor,
      Sort, PlainMeta;
    AddedSound(db, meta);
    IdentifiersPlain(db, meta);
    WriteLoadRoundTrip(meta, []);
  }

  /** The file of an index names the index's own table and column from its creation on, until a refused
      duplicate that names another table or column; from then on no rebuild puts it right. */
  lemma MetaStep(db: Db, q: Request, n: string)
    requires Able(db, q)
    ensures SoundDb(Step(db, q).0)
    ensures var t := Step(db, q).0;
            n in t.indexes ==>
              (MetaCurrent(t, n) <==>
               if n !in db.indexes then true
               else if RefusedDuplicate(db, q) && q.name == n then IndexMeta(q.name, q.table, q.column) == db.indexes[n]
               else MetaCurrent(db, n))
  {
    hide SoundDb, TableOk, LayoutAt, Content, ValidIdentifier, LoadSpec, Rebuilt, RebuiltAll, TableOps.UpdateWhere,
      TableOps.DeleteWhere,
      InsertRow, MetaCurrent, GoodMeta;
    StepSound(db, q);
    match q
    case CreateTableRequest(schema) => IndexFilesKnown(db); SameFileMeta(db, Step(db, q).0, n);
    case DropTableRequest(table) => IndexFilesKnown(db); SameFileMeta(db, Step(db, q).0, n);
    case DropIndexRequest(name) => IndexFilesKnown(db); SameFileMeta(db, Step(db, q).0, n);
    case CreateIndexRequest(name, table, column) => CreateIndexMeta(db, name, table, column, n);
    case _ =>
      if n in db.indexes {
        WriteMeta(db, q, n);
      } else {
        WriteRebuilds(db, q);
      }
  }

  lemma SameFileMeta(db: Db, t: Db, n: string)
    requires SoundDb(db) && SoundDb(t)
    requires n in t.indexes ==> n in db.indexes && t.indexes[n] == db.indexes[n]
    requires n in t.indexes && n in t.indexFiles ==> n in db.indexFiles && t.indexFiles[n] == db.indexFiles[n]
    ensures n in t.indexes ==> (MetaCurrent(t, n) <==> MetaCurrent(db, n))
  {
    hide LoadSpec, TableOk, IntColumn, IndexText, CompileSchemaSpec, LayoutOf, ValidIdentifier;
  }

  lemma CreateIndexMeta(db: Db, name: string, table: string, column: string, n: string)
    requires SoundDb(db)
    ensures var t := CreateIndex(db, name, table, column).0;
            && SoundDb(t)
            && (n in t.indexes ==>
                  (MetaCurrent(t, n) <==>
                   if n !in db.indexes then true
                   else if RefusedDuplicate(db, CreateIndexRequest(name, table, column)) && name == n
                   then IndexMeta(name, table, column) == db.indexes[n]
                   else MetaCurrent(db, n)))
  {
    hide TableOk, IntColumn, IndexText, CompileSchemaSpec, LayoutOf, Content, ValidIdentifier, LoadSpec, EntriesFor,
      Sort, PlainMeta,
      MetaCurrent, GoodMeta, SoundDb, RebuiltAll;
    CreateIndexSound(db, name, table, column);
    var meta := IndexMeta(name, table, column);
    GoodMetaIff(db, name, table, column);
    if !GoodMeta(db, meta) {
      IllFormedIndex(db, name, table, column);
    } else if name in db.indexes {
      if n in db.indexes {
        OverwrittenMeta(db, meta, n);
      }
    } else {
      AddedSound(db, meta);
      AddedMeta(db, meta);
      if n in db.indexes {
        KeptMeta(db, meta, n);
      }
      if n in Added(db, meta).indexes {
        RebuiltMeta(Added(db, meta), {name}, n);
      }
      RebuiltIndexes(Added(db, meta), {name});
    }
  }

  lemma KeptMeta(db: Db, meta: IndexMeta, n: string)
    requires SoundDb(db) && SoundDb(Added(db, meta)) && n in db.indexes && meta.name !in db.indexes
    ensures n in Added(db, meta).indexes && (MetaCurrent(Added(db, meta), n) <==> MetaCurrent(db, n))
  {
    hide LoadSpec, Content, SoundDb;
    IndexFilesKnown(db);
    IndexFilesKnown(Added(db, meta));
  }

  lemma OverwrittenMeta(db: Db, meta: IndexMeta, n: string)
    requires SoundDb(db) && GoodMeta(db, meta) && meta.name in db.indexes && n in db.indexes
    ensures SoundDb(Overwritten(db, meta))
    ensures MetaCurrent(Overwritten(db, meta), n) <==>
              if n == meta.name then meta == db.indexes[n] else MetaCurrent(db, n)
  {
    hide TableOk, IntColumn, IndexText, CompileSchemaSpec, LayoutOf, Content, ValidIdentifier, LoadSpec, EntriesFor,
      Sort, PlainMeta;
    OverwrittenSound(db, meta);
    IdentifiersPlain(db, meta);
    WriteLoadRoundTrip(meta, []);
    assert IndexSound(db, n);
  }

  lemma WriteMeta(db: Db, q: Request, n: string)
    requires Able(db, q) && IsWrite(q) && n in db.indexes
    ensures SoundDb(Step(db, q).0) && n in Step(db, q).0.indexes
    ensures MetaCurrent(Step(db, q).0, n) <==> MetaCurrent(db, n)
  {
    hide TableOk, IntColumn, IndexText, CompileSchemaSpec, LayoutOf, Content, ValidIdentifier, LoadSpec, EntriesFor,
      Sort, MetaCurrent,
      Rebuilt, UpdateWhere, DeleteWhere, InsertRow, Current;
    WriteRebuilds(db, q);
    if Step(db, q).1.None? {
      var layout, m := LayoutAt(db, q.table), db.models[q.table];
      SoundTable(db, q.table);
      match q
      case InsertRequest(table, values) =>
        InsertTableOk(layout, m, values);
        WrittenMeta(db, table, InsertRow(layout, m, values).value.0, n);
      case UpdateRequest(table, filter, assignments) =>
        UpdateIsAtomic(layout, m, filter, assignments, Zeros(layout.recordSize));
        WrittenMeta(db, table, UpdateWhere(layout, m, filter, assignments).0, n);
      case DeleteRequest(table, filter) =>
        DeleteIsAtomic(layout, m, filter);
        WrittenMeta(db, table, DeleteWhere(layout, m, filter).0, n);
    }
  }

  // ---- refused requests

  predicate Oversize(db: Db, q: Request) {
    && q.CreateTableRequest? && CompileSchemaSpec(q.schema).Ok?
    && q.schema.name !in db.catalog && q.schema.name !in db.orphans
    && R.Create(CompileSchemaSpec(q.schema).value.recordSize).Err?
  }

  /** A refused request changes nothing, except that a duplicate index loses the entries of the index it
      clashes with and a table whose records do not fit in a page leaves a file behind. */
  lemma RefusedKeeps(db: Db, q: Request)
    requires Able(db, q) && Step(db, q).1.Some?
    ensures Step(db, q).0 ==
            if Oversize(db, q) then db.(orphans := db.orphans + {q.schema.name})
            else if RefusedDuplicate(db, q) then db.(indexFiles :=
              db.indexFiles[q.name := Content(IndexMeta(q.name, q.table, q.column), [])])
            else db
  {
    hide TableOk, IndexText, CompileSchemaSpec, LayoutOf, Content, ValidIdentifier, LoadSpec, EntriesFor, Sort, Current,
      InsertInto, UpdateIn, DeleteFrom, IntColumn;
    if IsWrite(q) {
      WriteRebuilds(db, q);
    }
    if q.CreateIndexRequest? {
      GoodMetaIff(db, q.name, q.table, q.column);
    }
  }

  lemma GoodMetaIff(db: Db, name: string, table: string, column: string)
    ensures GoodMeta(db, IndexMeta(name, table, column)) <==>
            && ValidIdentifier(name) && table in db.catalog && ColumnIndex(LayoutAt(db, table), column).Ok?
            && LayoutAt(db, table).columns[ColumnIndex(LayoutAt(db, table), column).value].columnType.Int32?
  {
  }

  /** A table is created exactly when its schema is accepted, the name is not taken, neither by a table
      nor by a file left behind, and a record fits in a page. */
  lemma CreateTableExact(db: Db, schema: TableSchema)
    ensures CreateTable(db, schema).1.None? <==>
            && CompileSchemaSpec(schema).Ok? && schema.name !in db.catalog && schema.name !in db.orphans
            && Fits(1, CompileSchemaSpec(schema).value.recordSize)
  {
    hide FirstColumnError, Fits;
    if CompileSchemaSpec(schema).Ok? {
      CompiledTiles(schema);
      R.CreateInv(CompileSchemaSpec(schema).value.recordSize);
    }
  }

  /** A name lost to such a file stays lost for the rest of the run. */
  lemma {:induction false} OrphansStay(db: Db, qs: seq<Request>, name: string)
    requires Possible(db, qs) && name in db.orphans
    ensures name in Run(db, qs).orphans && name !in Run(db, qs).catalog
    decreases |qs|
  {
    hide TableOk, IndexText, CompileSchemaSpec, LayoutOf, Content, ValidIdentifier, IntColumn;
    if qs != [] {
      StepKeepsOrphans(db, qs[0]);
      OrphansStay(Step(db, qs[0]).0, qs[1..], name);
    } else {
      assert name in db.catalog ==> TableSound(db, name);
    }
  }

  lemma StepKeepsOrphans(db: Db, q: Request)
    requires Able(db, q)
    ensures db.orphans <= Step(db, q).0.orphans
  {
    hide TableOk, IndexText, CompileSchemaSpec, LayoutOf, Content, ValidIdentifier, IntColumn, SoundDb, UpdateWhere,
      DeleteWhere, InsertRow;
  }
}
