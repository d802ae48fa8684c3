/** What each database request does to the rows, tables and indexes that a reader finds, and what it
    leaves alone. */
module DbRows {
  import opened Outcomes
  import opened Bytes
  import opened RecordLayout
  import opened RowCodec
  import opened ExprCompiler
  import opened IndexFiles
  import opened TableOps
  import opened IndexPath
  import opened TableRows
  import opened TableScans
  import opened DbStates
  import opened DbRuns
  import R = RecordStores

  /** The row under a Rid of a table. */
  ghost function RowAt(db: Db, table: string, q: Rid): Option<Row>
    requires SoundDb(db) && table in db.catalog
  {
    SoundTable(db, table);
    RowIn(LayoutAt(db, table), db.models[table], q)
  }

  /** Nothing changed but the rows of the table and the files of its indexes. */
  ghost predicate OnlyRowsOf(table: string, db: Db, t: Db) {
    && t.catalog == db.catalog && t.orphans == db.orphans && t.indexes == db.indexes
    && (forall x :: x in t.models <==> x in db.models)
    && (forall x :: x in db.models && x != table ==> t.models[x] == db.models[x])
    && (forall n :: n in t.indexFiles <==> n in db.indexFiles)
    && (forall n :: n in db.indexFiles && !IndexOn(db, n, table) ==> t.indexFiles[n] == db.indexFiles[n])
  }

  lemma RebuiltOnly(db: Db, table: string, m: R.RStore)
    requires SoundDb(db) && table in db.catalog && TableOk(LayoutAt(db, table), m)
    ensures SoundDb(WithModel(db, table, m))
    ensures OnlyRowsOf(table, db, Rebuilt(WithModel(db, table, m), table))
    ensures var t := Rebuilt(WithModel(db, table, m), table); table in t.models && t.models[table] == m
  {
    hide TableOk, RebuiltFile, LayoutAt, SoundDb;
    WithModelSound(db, table, m);
    SoundTable(db, table);
    IndexFilesKnown(db);
  }

  // ---- INSERT, UPDATE and DELETE

  ghost predicate Inserted(db: Db, table: string, values: Row, t: Db, r: Result<Rid, TableError>)
    requires SoundDb(db)
  {
    if table !in db.catalog then t == db && r == Err(TableNotFound(table))
    else
      SoundTable(db, table);
      && OnlyRowsOf(table, db, t) && table in t.models
      && (r.Err? ==> t == db)
      && RowInserted(LayoutAt(db, table), db.models[table], values, t.models[table], r)
  }

  ghost predicate Updated(db: Db, table: string, filter: Option<Expr>, assignments: seq<Assignment>, t: Db,
      r: Result<nat, TableError>)
    requires SoundDb(db)
  {
    if table !in db.catalog then t == db && r == Err(TableNotFound(table))
    else
      SoundTable(db, table);
      && OnlyRowsOf(table, db, t) && table in t.models
      && (r.Err? ==> t == db)
      && RowsUpdated(LayoutAt(db, table), db.models[table], filter, assignments, t.models[table], r)
  }

  ghost predicate Deleted(db: Db, table: string, filter: Option<Expr>, t: Db, r: Result<nat, TableError>)
    requires SoundDb(db)
  {
    if table !in db.catalog then t == db && r == Err(TableNotFound(table))
    else
      SoundTable(db, table);
      && OnlyRowsOf(table, db, t) && table in t.models
      && (r.Err? ==> t == db)
      && RowsDeleted(LayoutAt(db, table), db.models[table], filter, t.models[table], r)
  }

  lemma SameRows(db: Db, table: string)
    requires SoundDb(db) && table in db.catalog
    ensures OnlyRowsOf(table, db, db) && WithModel(db, table, db.models[table]) == db && table in db.models
  {
    SoundTable(db, table);
    SameModel(db, table);
  }

  /** INSERT puts the given row, its Char values trimmed, under a Rid that was free. */
  lemma InsertEffect(db: Db, table: string, values: Row)
    requires SoundDb(db) && CanInsert(db, table)
    ensures var (t, r) := InsertInto(db, table, values); Inserted(db, table, values, t, r)
  {
    hide TableOk, RowInserted, InsertRow, LayoutAt, OnlyRowsOf, Rebuilt, WithModel, SoundDb;
    if table in db.catalog {
      SoundTable(db, table);
      var layout, m := LayoutAt(db, table), db.models[table];
      SameRows(db, table);
      InsertMeans(layout, m, values);
      InsertTableOk(layout, m, values);
      match InsertRow(layout, m, values)
      case Ok(a) => RebuiltOnly(db, table, a.0);
      case Err(_) =>
    }
  }

  /** UPDATE changes exactly the rows that its own filter chooses, to what its assignments say. */
  lemma UpdateEffect(db: Db, table: string, filter: Option<Expr>, assignments: seq<Assignment>)
    requires SoundDb(db)
    ensures var (t, r) := UpdateIn(db, table, filter, assignments); Updated(db, table, filter, assignments, t, r)
  {
    hide TableOk, RowsUpdated, UpdateWhere, LayoutAt, OnlyRowsOf, Rebuilt, WithModel, SoundDb;
    if table in db.catalog {
      SoundTable(db, table);
      var layout, m := LayoutAt(db, table), db.models[table];
      SameRows(db, table);
      UpdateMeans(layout, m, filter, assignments);
      UpdateIsAtomic(layout, m, filter, assignments, Zeros(layout.recordSize));
      RebuiltOnly(db, table, UpdateWhere(layout, m, filter, assignments).0);
    }
  }

  /** DELETE removes exactly the rows that its own filter chooses. */
  lemma DeleteEffect(db: Db, table: string, filter: Option<Expr>)
    requires SoundDb(db)
    ensures var (t, r) := DeleteFrom(db, table, filter); Deleted(db, table, filter, t, r)
  {
    hide TableOk, RowsDeleted, DeleteWhere, LayoutAt, OnlyRowsOf, Rebuilt, WithModel, SoundDb;
    if table in db.catalog {
      SoundTable(db, table);
      var layout, m := LayoutAt(db, table), db.models[table];
      SameRows(db, table);
      DeleteMeans(layout, m, filter);
      DeleteIsAtomic(layout, m, filter);
      RebuiltOnly(db, table, DeleteWhere(layout, m, filter).0);
    }
  }

  // ---- SELECT

  /** The rows are the chosen rows of the table, in page and slot order. */
  ghost predicate Found(db: Db, table: string, filter: Option<Expr>, rows: seq<Row>)
    requires SoundDb(db) && table in db.catalog
  {
    SoundTable(db, table);
    exists rids :: RowsOf(LayoutAt(db, table), db.models[table], filter, rids, rows)
  }

  /** A select by scan fetches exactly the chosen rows, and fails exactly on an ill-typed filter. */
  lemma FetchedMeans(db: Db, table: string, filter: Option<Expr>)
    requires SoundDb(db) && table in db.catalog
    ensures Fetched(db, table, filter, None).Ok? <==> FilterOk(LayoutAt(db, table), filter)
    ensures Fetched(db, table, filter, None).Ok? ==> Found(db, table, filter, Fetched(db, table, filter, None).value)
  {
    hide TableOk, RowsOf, LayoutAt, ScanRows, FilterOk;
    SoundTable(db, table);
    var rids := ScanMeans(LayoutAt(db, table), db.models[table], filter);
  }

  /** After an insert a select of all rows finds one more, the one inserted, and the others as before. */
  lemma SelectAfterInsert(db: Db, table: string, values: Row) returns (i: nat)
    requires SoundDb(db) && CanInsert(db, table) && table in db.catalog && InsertInto(db, table, values).1.Ok?
    ensures var t := InsertInto(db, table, values).0;
            && SoundDb(t) && table in t.catalog
            && Fetched(db, table, None, None).Ok? && i <= |Fetched(db, table, None, None).value|
            && Fetched(t, table, None, None) ==
               Ok(WithRow(Fetched(db, table, None, None).value, i, TrimRow(values)))
  {
    hide TableOk, RowInserted, InsertInto, LayoutAt, ScanRows, SoundDb;
    StepSound(db, InsertRequest(table, values));
    InsertEffect(db, table, values);
    var (t, r) := InsertInto(db, table, values);
    SoundTable(db, table);
    SoundTable(t, table);
    SameLayout(db, t, table);
    i := ScanAfterInsert(LayoutAt(db, table), db.models[table], values, t.models[table], r.value);
  }

  lemma SameLayout(db: Db, t: Db, table: string)
    requires t.catalog == db.catalog && table in db.catalog
    ensures LayoutAt(t, table) == LayoutAt(db, table)
  {
  }

  // ---- CREATE and DROP

  /** A new table has no rows; all else is as before. */
  lemma CreateTableEffect(db: Db, schema: TableSchema)
    requires SoundDb(db) && CreateTable(db, schema).1.None?
    ensures var t := CreateTable(db, schema).0;
            && SoundDb(t) && schema.name !in db.catalog
            && (forall x :: x in t.catalog <==> x in db.catalog || x == schema.name)
            && t.catalog[schema.name] == schema && (forall q :: RowAt(t, schema.name, q).None?)
            && (forall x :: x in db.catalog ==>
                  t.catalog[x] == db.catalog[x] && x in t.models && x in db.models && t.models[x] == db.models[x])
            && t.indexes == db.indexes && t.indexFiles == db.indexFiles && t.orphans == db.orphans
  {
    hide TableOk, CompileSchemaSpec, IndexSound, Current, R.Create;
    CreateTableSound(db, schema);
    EmptyStore(CompileSchemaSpec(schema).value.recordSize);
  }

  lemma EmptyStore(size: nat)
    ensures R.Create(size).Ok? ==> forall q :: R.Lookup(R.Create(size).value, q).None?
  {
  }

  /** Table x with its rows, and index n with its file, are the same in both. */
  predicate SameTable(db: Db, t: Db, x: string) {
    && x in db.catalog && x in t.catalog && t.catalog[x] == db.catalog[x]
    && x in db.models && x in t.models && t.models[x] == db.models[x]
  }

  predicate SameIndex(db: Db, t: Db, n: string) {
    && n in db.indexes && n in t.indexes && t.indexes[n] == db.indexes[n]
    && n in db.indexFiles && n in t.indexFiles && t.indexFiles[n] == db.indexFiles[n]
  }

  /** A dropped table is gone with its indexes and their files, and nothing else is. */
  lemma DropTableEffect(db: Db, table: string)
    requires SoundDb(db)
    ensures var (t, e) := DropTable(db, table);
            && SoundDb(t) && table !in t.catalog && table !in t.models
            && (e.None? <==> table in db.catalog)
            && (forall x :: x in t.catalog <==> x in db.catalog && x != table)
            && (forall x :: x in t.catalog ==> SameTable(db, t, x))
            && (forall n :: n in t.indexes <==> n in db.indexes && !IndexOn(db, n, table))
            && (forall n :: n in t.indexes ==> SameIndex(db, t, n))
            && (forall n :: n in t.indexFiles <==> n in t.indexes) && t.orphans == db.orphans
  {
    hide TableOk, CompileSchemaSpec, Current, LayoutAt, IndexText, IntColumn;
    DropTableSound(db, table);
    forall n | n in db.indexes ensures db.indexes[n].table in db.catalog {
      assert IndexSound(db, n);
    }
  }

  /** A dropped index is gone with its file, and nothing else is. */
  lemma DropIndexEffect(db: Db, name: string)
    requires SoundDb(db)
    ensures var (t, e) := DropIndex(db, name);
            && SoundDb(t) && (e.None? <==> name in db.indexes)
            && t.catalog == db.catalog && t.models == db.models && t.orphans == db.orphans
            && (forall n :: n in t.indexes <==> n in db.indexes && n != name)
            && (forall n :: n in t.indexes ==> SameIndex(db, t, n))
            && (forall n :: n in t.indexFiles <==> n in t.indexes)
  {
    hide TableOk, CompileSchemaSpec, Current, LayoutAt, IndexText, IntColumn;
    DropIndexSound(db, name);
  }

  /** A new index is under its name, on its table and column, with the entries of the table; no other
      index, no table and no row changed. */
  lemma CreateIndexEffect(db: Db, name: string, table: string, column: string)
    requires SoundDb(db)
    ensures var (t, e) := CreateIndex(db, name, table, column);
            && SoundDb(t) && t.catalog == db.catalog && t.models == db.models && t.orphans == db.orphans
            && (e.None? <==> name !in db.indexes && GoodMeta(db, IndexMeta(name, table, column)))
            && (e.None? ==> t.indexes == db.indexes[name := IndexMeta(name, table, column)] && Current(t, name))
            && (e.Some? ==> t.indexes == db.indexes)
            && (forall n :: n in db.indexes && n != name ==> SameIndex(db, t, n))
  {
    hide SoundDb, LayoutAt, ValidIdentifier, Current, RebuiltAll, GoodMeta, Overwritten, Added, SameIndex;
    CreateIndexSound(db, name, table, column);
    GoodMetaIff(db, name, table, column);
    var meta := IndexMeta(name, table, column);
    UntouchedIndexes(db);
    if GoodMeta(db, meta) {
      OverwrittenOthers(db, meta);
      if name !in db.indexes {
        AddedSound(db, meta);
        AddedOthers(db, meta);
      }
    }
  }

  lemma UntouchedIndexes(db: Db)
    requires SoundDb(db)
    ensures forall n :: n in db.indexes ==> SameIndex(db, db, n)
  {
    hide TableSound, IndexSound;
  }

  lemma OverwrittenOthers(db: Db, meta: IndexMeta)
    requires SoundDb(db)
    ensures var t := Overwritten(db, meta);
            && t.catalog == db.catalog && t.models == db.models && t.orphans == db.orphans && t.indexes == db.indexes
            && forall n :: n in db.indexes && n != meta.name ==> SameIndex(db, t, n)
  {
    hide TableSound, IndexSound, Content;
  }

  lemma AddedOthers(db: Db, meta: IndexMeta)
    requires SoundDb(db) && SoundDb(Added(db, meta)) && meta.name !in db.indexes
    ensures var t := RebuiltAll(Added(db, meta), {meta.name});
            && t.catalog == db.catalog && t.models == db.models && t.orphans == db.orphans
            && t.indexes == db.indexes[meta.name := meta]
            && forall n :: n in db.indexes && n != meta.name ==> SameIndex(db, t, n)
  {
    hide SoundDb, Content, RebuiltFile;
    IndexFilesKnown(db);
  }

  // ---- what a run leaves alone

  /** The request writes to the table or drops it. */
  predicate Touches(q: Request, table: string) {
    !q.CreateTableRequest? && !q.CreateIndexRequest? && !q.DropIndexRequest? && q.table == table
  }

  lemma StepKeepsTable(db: Db, q: Request, x: string)
    requires Able(db, q) && x in db.catalog && !Touches(q, x)
    ensures SoundDb(Step(db, q).0) && SameTable(db, Step(db, q).0, x)
  {
    hide SoundDb, CreateTable, DropTable, CreateIndex, DropIndex, InsertInto, UpdateIn, DeleteFrom, RowInserted,
      RowsUpdated, RowsDeleted, LayoutAt;
    StepSound(db, q);
    SoundTable(db, x);
    match q
    case CreateTableRequest(schema) =>
      if CreateTable(db, schema).1.None? {
        CreateTableEffect(db, schema);
      } else {
        RefusedKeeps(db, q);
      }
    case DropTableRequest(table) => DropTableEffect(db, table);
    case CreateIndexRequest(name, table, column) => CreateIndexEffect(db, name, table, column);
    case DropIndexRequest(name) => DropIndexEffect(db, name);
    case InsertRequest(table, values) => InsertEffect(db, table, values);
    case UpdateRequest(table, filter, assignments) => UpdateEffect(db, table, filter, assignments);
    case DeleteRequest(table, filter) => DeleteEffect(db, table, filter);
  }

  /** Over every run that neither writes to a table nor drops it, its schema and all its rows stay. */
  lemma {:induction false} RunKeepsTable(db: Db, qs: seq<Request>, x: string)
    requires Possible(db, qs) && x in db.catalog && forall i :: 0 <= i < |qs| ==> !Touches(qs[i], x)
    ensures SoundDb(Run(db, qs)) && SameTable(db, Run(db, qs), x)
    ensures forall q :: RowAt(Run(db, qs), x, q) == RowAt(db, x, q)
    decreases |qs|
  {
    hide SoundDb, Step, LayoutAt, RowIn;
    if qs == [] {
      SoundTable(db, x);
    } else {
      StepKeepsTable(db, qs[0], x);
      RunKeepsTable(Step(db, qs[0]).0, qs[1..], x);
      SameRowsAt(db, Step(db, qs[0]).0, x);
    }
  }

  lemma SameRowsAt(db: Db, t: Db, x: string)
    requires SoundDb(db) && SoundDb(t) && SameTable(db, t, x)
    ensures forall q :: RowAt(t, x, q) == RowAt(db, x, q)
  {
    hide SoundDb, RowIn;
  }
}
