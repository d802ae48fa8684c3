/** The database as a value: tables, indexes and their files, and what each request does to them. */
module DbStates {
  import opened Outcomes
  import opened Bytes
  import opened RecordLayout
  import opened RowCodec
  import opened ExprCompiler
  import opened IndexFiles
  import opened Text
  import opened TableOps
  import opened Tables
  import opened IndexPath
  import opened CatalogText
  import R = RecordStores

  /** `models` gives the contents of each table's record file; `orphans` are the names of table files
      that belong to no table; `indexFiles` holds the text of each index file. */
  datatype Db = Db(
    catalog: map<string, TableSchema>,
    models: map<string, R.RStore>,
    orphans: set<string>,
    indexes: map<string, IndexMeta>,
    indexFiles: map<string, string>)

  const EMPTY_DB := Db(map[], map[], {}, map[], map[])

  function LayoutAt(db: Db, table: string): SchemaLayout
    requires table in db.catalog
  {
    LayoutOf(db.catalog[table].columns)
  }

  // ---- what always holds

  ghost predicate TableSound(db: Db, table: string) {
    && table in db.catalog && table in db.models && table !in db.orphans
    && db.catalog[table].name == table
    && CompileSchemaSpec(db.catalog[table]) == Ok(LayoutAt(db, table))
    && TableOk(LayoutAt(db, table), db.models[table])
  }

  /** The text is that of an index file, of whatever index and entries. */
  ghost predicate IndexText(content: string) {
    exists m, entries :: PlainMeta(m) && content == Content(m, entries)
  }

  ghost predicate IndexSound(db: Db, name: string) {
    && name in db.indexes && name in db.indexFiles
    && db.indexes[name].name == name && ValidIdentifier(name)
    && db.indexes[name].table in db.catalog
    && IntColumn(LayoutAt(db, db.indexes[name].table), db.indexes[name].column)
    && IndexText(db.indexFiles[name])
  }

  ghost predicate SoundDb(db: Db) {
    && (forall t :: t in db.catalog <==> t in db.models)
    && (forall t :: t in db.catalog ==> TableSound(db, t))
    && (forall n :: n in db.indexes <==> n in db.indexFiles)
    && (forall n :: n in db.indexes ==> IndexSound(db, n))
  }

  lemma TextLoads(content: string)
    requires IndexText(content)
    ensures LoadSpec(content).Ok? && PlainMeta(LoadSpec(content).value.0)
  {
    hide LoadSpec, PlainMeta, Content;
    var m, entries :| PlainMeta(m) && content == Content(m, entries);
    WriteLoadRoundTrip(m, entries);
  }

  /** The entries an index should hold now. */
  ghost function EntriesNow(db: Db, name: string): seq<IndexEntry>
    requires SoundDb(db) && name in db.indexes
  {
    var meta := db.indexes[name];
    assert IndexSound(db, name) && TableSound(db, meta.table);
    EntriesDistinct(LayoutAt(db, meta.table), db.models[meta.table], meta.column);
    EntriesFor(LayoutAt(db, meta.table), db.models[meta.table], meta.column).value
  }

  /** The index file holds exactly one entry per record of its table, sorted. */
  ghost predicate Current(db: Db, name: string)
    requires SoundDb(db) && name in db.indexes
  {
    assert IndexSound(db, name);
    LoadSpec(db.indexFiles[name]).Ok? && LoadSpec(db.indexFiles[name]).value.1 == Sort(EntriesNow(db, name))
  }

  ghost predicate Agreed(db: Db)
    requires SoundDb(db)
  {
    forall n :: n in db.indexes ==> Current(db, n)
  }

  // ---- rebuilding

  /** The new text: the meta data the file already had, and the entries of now. */
  ghost function RebuiltFile(db: Db, name: string): string
    requires SoundDb(db) && name in db.indexes
  {
    assert IndexSound(db, name);
    TextLoads(db.indexFiles[name]);
    Content(LoadSpec(db.indexFiles[name]).value.0, EntriesNow(db, name))
  }

  predicate IndexOn(db: Db, name: string, table: string) {
    name in db.indexes && db.indexes[name].table == table
  }

  /** rebuild_index for each of the names. */
  ghost function RebuiltAll(db: Db, names: set<string>): Db
    requires SoundDb(db)
  {
    db.(indexFiles := map n | n in db.indexFiles ::
      if n in names && n in db.indexes then RebuiltFile(db, n) else db.indexFiles[n])
  }

  ghost function IndexesOf(db: Db, table: string): set<string> {
    set n | n in db.indexes && db.indexes[n].table == table
  }

  ghost function Rebuilt(db: Db, table: string): Db
    requires SoundDb(db)
  {
    RebuiltAll(db, IndexesOf(db, table))
  }

  // ---- requests

  ghost function CreateTable(db: Db, schema: TableSchema): (Db, Option<TableError>) {
    match CompileSchemaSpec(schema)
    case Err(e) => (db, Some(e))
    case Ok(layout) =>
      if schema.name in db.catalog then (db, Some(DuplicateTable(schema.name)))
      else if schema.name in db.orphans then (db, Some(IoFailure))
      else match R.Create(layout.recordSize)
        case Err(_) => (db.(orphans := db.orphans + {schema.name}), Some(RecordFailure))
        case Ok(m) => (db.(catalog := db.catalog[schema.name := schema], models := db.models[schema.name := m]), None)
  }

  ghost function DropTable(db: Db, table: string): (Db, Option<TableError>) {
    if table !in db.catalog then (db, Some(TableNotFound(table)))
    else
      (Db(db.catalog - {table}, db.models - {table}, db.orphans,
          db.indexes - IndexesOf(db, table), db.indexFiles - IndexesOf(db, table)), None)
  }

  /** The index file is written before the duplicate check. */
  ghost function CreateIndex(db: Db, name: string, table: string, column: string): (Db, Option<TableError>)
    requires SoundDb(db)
  {
    if !ValidIdentifier(name) then (db, Some(InvalidName(name)))
    else if table !in db.catalog then (db, Some(TableNotFound(table)))
    else match ColumnIndex(LayoutAt(db, table), column)
      case Err(e) => (db, Some(e))
      case Ok(i) =>
        if !LayoutAt(db, table).columns[i].columnType.Int32? then (db, Some(IndexFailure(UnsupportedKeyType)))
        else
          var meta := IndexMeta(name, table, column);
          var t := Overwritten(db, meta);
          if name in db.indexes then (t, Some(IndexFailure(DuplicateIndex(name))))
          else
            AddedSound(db, meta);
            (RebuiltAll(Added(db, meta), {name}), None)
  }

  function Overwritten(db: Db, meta: IndexMeta): Db {
    db.(indexFiles := db.indexFiles[meta.name := Content(meta, [])])
  }

  function Added(db: Db, meta: IndexMeta): Db {
    Overwritten(db, meta).(indexes := db.indexes[meta.name := meta])
  }

  ghost predicate GoodMeta(db: Db, meta: IndexMeta) {
    ValidIdentifier(meta.name) && meta.table in db.catalog && IntColumn(LayoutAt(db, meta.table), meta.column)
  }

  function DropIndex(db: Db, name: string): (Db, Option<TableError>) {
    if name !in db.indexes then (db, Some(IndexFailure(IndexNotFound(name))))
    else (db.(indexes := db.indexes - {name}, indexFiles := db.indexFiles - {name}), None)
  }

  function WithModel(db: Db, table: string, m: R.RStore): Db {
    db.(models := db.models[table := m])
  }

  ghost function InsertInto(db: Db, table: string, values: Row): (Db, Result<Rid, TableError>)
    requires SoundDb(db) && CanInsert(db, table)
  {
    if table !in db.catalog then (db, Err(TableNotFound(table)))
    else
      var layout, m := LayoutAt(db, table), db.models[table];
      assert TableSound(db, table);
      TilesInBounds(layout);
      match InsertRow(layout, m, values)
      case Err(e) => (db, Err(e))
      case Ok(a) =>
        InsertTableOk(layout, m, values);
        WithModelSound(db, table, a.0);
        (Rebuilt(WithModel(db, table, a.0), table), Ok(a.1))
  }

  ghost function UpdateIn(db: Db, table: string, filter: Option<Expr>, assignments: seq<Assignment>)
    : (Db, Result<nat, TableError>)
    requires SoundDb(db)
  {
    if table !in db.catalog then (db, Err(TableNotFound(table)))
    else
      var layout, m := LayoutAt(db, table), db.models[table];
      assert TableSound(db, table);
      var (t, r) := TableOps.UpdateWhere(layout, m, filter, assignments);
      UpdateIsAtomic(layout, m, filter, assignments, Zeros(layout.recordSize));
      WithModelSound(db, table, t);
      if r.Err? then (WithModel(db, table, t), r)
      else (Rebuilt(WithModel(db, table, t), table), r)
  }

  ghost function DeleteFrom(db: Db, table: string, filter: Option<Expr>): (Db, Result<nat, TableError>)
    requires SoundDb(db)
  {
    if table !in db.catalog then (db, Err(TableNotFound(table)))
    else
      var layout, m := LayoutAt(db, table), db.models[table];
      assert TableSound(db, table);
      var (t, r) := TableOps.DeleteWhere(layout, m, filter);
      DeleteIsAtomic(layout, m, filter);
      WithModelSound(db, table, t);
      if r.Err? then (WithModel(db, table, t), r)
      else (Rebuilt(WithModel(db, table, t), table), r)
  }

  /** Page ids stay below 2^31. */
  predicate CanInsert(db: Db, table: string) {
    table in db.catalog && table in db.models ==> R.Roomy(db.models[table])
  }

  // ---- the steps keep a database sound

  lemma InsertTableOk(layout: SchemaLayout, m: R.RStore, values: Row)
    requires TableOk(layout, m) && InBounds(layout)
    ensures InsertRow(layout, m, values).Ok? <==> EncodeRowSpec(layout, values).Ok?
    ensures InsertRow(layout, m, values).Ok? ==>
              (TableOk(layout, InsertRow(layout, m, values).value.0) <==> R.Roomy(m))
  {
    hide Tiles, R.Inv, UniqueNames, R.Insert, EncodeRowSpec;
    if EncodeRowSpec(layout, values).Ok? {
      var bytes := EncodeRowSpec(layout, values).value;
      R.InsertInv(m, bytes);
      InsertKeepsSize(m, bytes);
    }
  }

  lemma WithModelSound(db: Db, table: string, m: R.RStore)
    requires SoundDb(db) && table in db.catalog && TableOk(LayoutAt(db, table), m)
    ensures SoundDb(WithModel(db, table, m))
  {
    hide TableOk, IntColumn, IndexText, CompileSchemaSpec, LayoutOf;
    var t := WithModel(db, table, m);
    forall x | x in t.catalog ensures TableSound(t, x) {
      assert TableSound(db, x);
    }
    forall n | n in t.indexes ensures IndexSound(t, n) {
      assert IndexSound(db, n);
    }
  }

  lemma IdentifiersPlain(db: Db, meta: IndexMeta)
    requires SoundDb(db) && GoodMeta(db, meta)
    ensures PlainMeta(meta) && IndexText(Content(meta, []))
  {
    hide TableOk, Content, LayoutOf;
    assert TableSound(db, meta.table);
    IdentifierPlain(meta.name);
    IdentifierPlain(meta.table);
    assert Plain(meta.column) by { ColumnNamePlain(db.catalog[meta.table], meta.column); }
  }

  lemma ColumnNamePlain(schema: TableSchema, column: string)
    requires CompileSchemaSpec(schema).Ok? && ColumnIndex(CompileSchemaSpec(schema).value, column).Ok?
    ensures Plain(column)
  {
    hide FirstColumnError, ValidIdentifier, Plain, Width;
    var i := ColumnIndex(CompileSchemaSpec(schema).value, column).value;
    NoColumnError(schema.columns, 0, i);
    IdentifierPlain(column);
  }

  lemma OverwrittenSound(db: Db, meta: IndexMeta)
    requires SoundDb(db) && GoodMeta(db, meta) && meta.name in db.indexes
    ensures SoundDb(Overwritten(db, meta))
  {
    hide TableOk, IntColumn, IndexText, CompileSchemaSpec, LayoutOf, Content, ValidIdentifier;
    IdentifiersPlain(db, meta);
    var t := Overwritten(db, meta);
    forall x | x in t.catalog ensures TableSound(t, x) {
      assert TableSound(db, x);
    }
    forall n | n in t.indexes ensures IndexSound(t, n) {
      assert IndexSound(db, n);
    }
  }

  lemma AddedSound(db: Db, meta: IndexMeta)
    requires SoundDb(db) && GoodMeta(db, meta)
    ensures SoundDb(Added(db, meta))
  {
    hide TableOk, IntColumn, IndexText, CompileSchemaSpec, LayoutOf, Content, ValidIdentifier;
    IdentifiersPlain(db, meta);
    var t := Added(db, meta);
    forall x | x in t.catalog ensures TableSound(t, x) {
      assert TableSound(db, x);
    }
    forall n | n in t.indexes ensures IndexSound(t, n) {
      if n != meta.name {
        assert IndexSound(db, n);
      }
    }
  }

  /** Rebuilding keeps the database sound and makes the rebuilt indexes current, and only them. */
  lemma RebuiltIsCurrent(db: Db, names: set<string>)
    requires SoundDb(db)
    ensures var t := RebuiltAll(db, names);
            SoundDb(t) && forall n :: n in db.indexes ==> (Current(t, n) <==> n in names || Current(db, n))
  {
    hide TableOk, IntColumn, IndexText, CompileSchemaSpec, LayoutOf, Content, ValidIdentifier, LoadSpec, EntriesFor,
      Sort;
    var t := RebuiltAll(db, names);
    forall x | x in t.catalog ensures TableSound(t, x) {
      assert TableSound(db, x);
    }
    forall n | n in t.indexes ensures IndexSound(t, n) {
      assert IndexSound(db, n);
      RebuiltText(db, n);
    }
    forall n | n in db.indexes ensures Current(t, n) <==> n in names || Current(db, n) {
      RebuiltText(db, n);
    }
  }

  lemma RebuiltText(db: Db, name: string)
    requires SoundDb(db) && name in db.indexes
    ensures IndexText(RebuiltFile(db, name))
    ensures LoadSpec(RebuiltFile(db, name)).Ok? && LoadSpec(RebuiltFile(db, name)).value.1 == Sort(EntriesNow(db, name))
  {
    hide TableOk, IntColumn, CompileSchemaSpec, LayoutOf, Content, ValidIdentifier, LoadSpec, EntriesFor, Sort,
      PlainMeta;
    assert IndexSound(db, name);
    TextLoads(db.indexFiles[name]);
    WriteLoadRoundTrip(LoadSpec(db.indexFiles[name]).value.0, EntriesNow(db, name));
  }

  lemma RemovedSound(db: Db, t: Db)
    requires SoundDb(db)
    requires forall x :: x in t.catalog ==> x in db.catalog && t.catalog[x] == db.catalog[x]
    requires forall x :: x in t.catalog <==> x in t.models
    requires forall x :: x in t.models ==> x in db.models && t.models[x] == db.models[x]
    requires forall x :: x in t.catalog ==> x !in t.orphans
    requires forall n :: n in t.indexes <==> n in t.indexFiles
    requires forall n :: n in t.indexes ==>
               && n in db.indexes && t.indexes[n] == db.indexes[n] && t.indexFiles[n] == db.indexFiles[n]
               && t.indexes[n].table in t.catalog
    ensures SoundDb(t)
    ensures forall n :: n in t.indexes ==> (Current(t, n) <==> Current(db, n))
  {
    hide TableOk, IntColumn, IndexText, CompileSchemaSpec, LayoutOf, Content, ValidIdentifier, LoadSpec, EntriesFor,
      Sort;
    forall x | x in t.catalog ensures TableSound(t, x) {
      assert TableSound(db, x);
    }
    forall n | n in t.indexes ensures IndexSound(t, n) {
      assert IndexSound(db, n);
    }
  }

  lemma RebuiltIndexes(db: Db, names: set<string>)
    requires SoundDb(db)
    ensures RebuiltAll(db, names).indexes == db.indexes
  {
    hide RebuiltFile;
  }

  lemma IndexFilesKnown(db: Db)
    requires SoundDb(db)
    ensures forall n :: n in db.indexes <==> n in db.indexFiles
  {
  }
}
