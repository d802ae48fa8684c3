/** The database: a catalog, one record file per table, an index catalog and one text file per index. */
module Databases {
  import opened Outcomes
  import opened Bytes
  import opened PageStore
  import opened RecordLayout
  import opened RecordFiles
  import opened RowCodec
  import opened ExprCompiler
  import opened RecordScans
  import opened IndexFiles
  import opened TableOps
  import opened Tables
  import opened IndexPath
  import opened DbStates
  import opened DbRuns
  import opened CatalogText
  import R = RecordStores
  import PoolStates

  const DEFAULT_BUFFER_CAPACITY := 8

  // ---- helpers about rebuilding

  lemma RebuiltStep(db: Db, t: Db, done: set<string>, name: string)
    requires SoundDb(db) && SoundDb(t) && name in db.indexes && name !in done
    requires t == RebuiltAll(db, done)
    ensures RebuiltAll(t, {name}) == RebuiltAll(db, done + {name})
  {
    hide SoundDb, RebuiltFile, Current;
    IndexFilesKnown(db);
    FileStays(db, t, name);
  }

  /** What an index file is rebuilt to depends on its text and on the tables. */
  lemma FileStays(db: Db, t: Db, name: string)
    requires SoundDb(db) && SoundDb(t) && name in db.indexes && t == db.(indexFiles := t.indexFiles)
    requires name in db.indexFiles && name in t.indexFiles && t.indexFiles[name] == db.indexFiles[name]
    ensures RebuiltFile(t, name) == RebuiltFile(db, name)
  {
    hide SoundDb, Content, LoadSpec, EntriesFor;
  }

  lemma RebuiltNone(db: Db)
    requires SoundDb(db)
    ensures RebuiltAll(db, {}) == db
  {
    hide RebuiltFile, SoundDb;
  }

  /** A record file in a new page file, flushed; it exists exactly when a record fits in a page. */
  method CreateRecordFile(size: nat) returns (r: Result<Store, RecordError>)
    ensures r.Ok? <==> R.Create(size).Ok?
    ensures r.Ok? ==> Holds(r.value, R.Create(size).value)
  {
    hide R.Inv, Holds, Sequential, Valid, Allocate, FileOk, StoreIn, Layout, R.Create;
    EmptyIsSequential();
    var file := RecordFile.Create(EMPTY_STORE, DEFAULT_BUFFER_CAPACITY, size);
    if file.Err? {
      return Err(file.error);
    }
    file.value.Flush();
    return Ok(file.value.pool.files[file.value.fileId]);
  }

  class Database {
    var catalog: map<string, TableSchema>
    var catalogFile: Option<string>
    var tableFiles: map<string, Store>
    var indexes: map<string, IndexMeta>
    var indexCatalogFile: Option<string>
    var indexFiles: map<string, string>
    ghost var models: map<string, R.RStore>

    ghost function S(): Db
      reads this
    {
      Db(catalog, models, tableFiles.Keys - catalog.Keys, indexes, indexFiles)
    }

    /** Each table's page file holds the table's records on its own, and the catalog files hold the
        catalogs, so that opening the files finds the same database. */
    ghost predicate Valid()
      reads this
    {
      SoundDb(S()) && FilesHold(S(), tableFiles) && TablesSaved(catalog, catalogFile) &&
        IndexesSaved(indexes, indexCatalogFile)
    }

    constructor Over(catalog: map<string, TableSchema>, catalogFile: Option<string>, tableFiles: map<string, Store>,
                     indexes: map<string, IndexMeta>, indexCatalogFile: Option<string>, indexFiles: map<string, string>,
                     ghost models: map<string, R.RStore>)
      ensures this.catalog == catalog && this.catalogFile == catalogFile && this.tableFiles == tableFiles
      ensures this.indexes == indexes && this.indexCatalogFile == indexCatalogFile && this.indexFiles == indexFiles
      ensures this.models == models
    {
      this.catalog, this.catalogFile, this.tableFiles := catalog, catalogFile, tableFiles;
      this.indexes, this.indexCatalogFile, this.indexFiles, this.models :=
        indexes, indexCatalogFile, indexFiles, models;
    }

    /** Opening loads the two catalogs, the table catalog first, and nothing else; the files of a sound
        database give back that database. */
    static method Open(catalogFile: Option<string>, tableFiles: map<string, Store>, indexCatalogFile: Option<string>,
                       indexFiles: map<string, string>, ghost image: Db) returns (r: Result<Database, TableError>)
      ensures match LoadedTables(catalogFile)
              case Err(e) => r == Err(e)
              case Ok(tables) => match LoadedIndexes(indexCatalogFile)
                case Err(e) => r == Err(IndexFailure(e))
                case Ok(metas) => r.Ok? && r.value.catalog == tables && r.value.indexes == metas
      ensures r.Ok? ==> r.value.tableFiles == tableFiles && r.value.indexFiles == indexFiles
      ensures r.Ok? ==> fresh(r.value)
      ensures OnDisk(image, catalogFile, tableFiles, indexCatalogFile, indexFiles) ==>
                r.Ok? && r.value.Valid() && r.value.S() == image
    {
      hide SoundDb, FilesHold, LoadCatalogSpec, LoadIndexCatalog;
      var catalog, indexes := map[], map[];
      if catalogFile.Some? {
        catalog :- LoadCatalog(catalogFile.value);
      }
      if indexCatalogFile.Some? {
        var loaded := ReadIndexCatalog(indexCatalogFile.value);
        if loaded.Err? {
          return Err(IndexFailure(loaded.error));
        }
        indexes := loaded.value;
      }
      var database := new Database.Over(catalog, catalogFile, tableFiles, indexes, indexCatalogFile, indexFiles,
        image.models);
      return Ok(database);
    }

    /** Opening the files that a database leaves behind gives that database: same tables with the same
        records, same indexes with the same entries. */
    static method Reopen(database: Database) returns (r: Result<Database, TableError>)
      requires database.Valid()
      ensures r.Ok? && fresh(r.value) && r.value.Valid() && r.value.S() == database.S()
    {
      hide SoundDb, FilesHold, TablesSaved, IndexesSaved;
      r := Open(database.catalogFile, database.tableFiles, database.indexCatalogFile, database.indexFiles,
        database.S());
    }

    // ---- the catalog files

    method SaveTables()
      requires SoundDb(S())
      modifies this`catalogFile
      ensures TablesSaved(catalog, catalogFile)
    {
      hide SoundDb, CompileSchemaSpec, CatalogContent, LoadCatalogSpec;
      CatalogNames(S());
      var schemas := EnumerateTables(catalog);
      CatalogRoundTrip(schemas, catalog);
      var content := SaveCatalog(schemas);
      catalogFile := Some(content);
    }

    method SaveIndexes()
      requires SoundDb(S())
      modifies this`indexCatalogFile
      ensures IndexesSaved(indexes, indexCatalogFile)
    {
      hide SoundDb, IndexCatalogContent, LoadIndexCatalog, PlainMeta;
      IndexNames(S());
      var metas := EnumerateIndexes(indexes);
      IndexesReload(indexes, metas);
      var content := SaveIndexCatalog(metas);
      indexCatalogFile := Some(content);
    }

    // ---- tables

    /** A table opens exactly when it is in the catalog, with the contents last flushed. */
    method OpenTable(name: string) returns (r: Result<Table, TableError>)
      requires Valid()
      ensures r == Err(TableNotFound(name)) || r.Ok?
      ensures r.Ok? <==> name in catalog
      ensures r.Ok? ==> Opened(S(), name, r.value) && fresh(r.value) && fresh(r.value.file) && fresh(r.value.file.pool)
    {
      hide R.Inv, Tiles, UniqueNames, Holds, HoldsRecords, SoundDb, CompileSchemaSpec;
      if name !in catalog {
        return Err(TableNotFound(name));
      }
      FileHolds(S(), tableFiles, name);
      HoldsParts(tableFiles[name], models[name]);
      SoundTable(S(), name);
      var layout := CompileSchema(catalog[name]);
      assert layout.Ok?;
      var file := RecordFile.Open(tableFiles[name], DEFAULT_BUFFER_CAPACITY, models[name]);
      assert file.Ok?;
      var table := new Table(catalog[name], layout.value, file.value);
      return Ok(table);
    }

    /** Dropping a table flushes its file. */
    method CloseTable(name: string, table: Table)
      requires Valid() && name in catalog && table.Valid() && table.layout == LayoutAt(S(), name)
      modifies this`tableFiles, this`models, table.file`headerDirty, table.file.pool
      ensures Valid() && S() == WithModel(old(S()), name, old(table.Model()))
    {
      hide R.Inv, Tiles, UniqueNames, Holds, SoundDb, FileOk, StoreIn, Layout, Sequential, TablesSaved, IndexesSaved,
        FilesHold, PoolStates.Inv;
      ghost var db, m := S(), table.Model();
      table.file.Flush();
      tableFiles := tableFiles[name := table.file.pool.files[table.file.fileId]];
      models := models[name := m];
      WithModelSound(db, name, m);
      assert S().orphans == db.orphans;
      HoldsAfter(db, old(tableFiles), name, m, tableFiles[name]);
    }

    method CreateTable(schema: TableSchema) returns (r: Result<(), TableError>)
      requires Valid()
      modifies this
      ensures Valid() && (S(), ErrorOf(r)) == DbStates.CreateTable(old(S()), schema)
    {
      hide SoundDb, CompileSchemaSpec, Holds, R.Create, TablesSaved, IndexesSaved, FilesHold;
      ghost var db := S();
      var layout :- CompileSchema(schema);
      if schema.name in catalog {
        return Err(DuplicateTable(schema.name));
      }
      if schema.name in tableFiles {
        return Err(IoFailure);
      }
      AllHoused(db, tableFiles);
      tableFiles := tableFiles[schema.name := EMPTY_STORE];
      OrphanSound(db, schema.name);
      assert S() == db.(orphans := db.orphans + {schema.name});
      HoldsElsewhere(db, old(tableFiles), schema.name, S(), tableFiles);
      var file := CreateRecordFile(layout.recordSize);
      if file.Err? {
        return Err(RecordFailure);
      }
      AddTable(db, schema, file.value, R.Create(layout.recordSize).value);
      return Ok(());
    }

    /** Puts a table with a new record file into the catalog. */
    method AddTable(ghost db: Db, schema: TableSchema, file: Store, ghost m: R.RStore)
      requires Valid() && SoundDb(db) && S() == db.(orphans := db.orphans + {schema.name})
      requires schema.name !in db.catalog && schema.name !in db.orphans
      requires CompileSchemaSpec(schema).Ok? && R.Create(CompileSchemaSpec(schema).value.recordSize) == Ok(m)
      requires Holds(file, m)
      modifies this
      ensures Valid() && S() == db.(catalog := db.catalog[schema.name := schema], models := db.models[schema.name := m])
    {
      hide SoundDb, CompileSchemaSpec, Holds, R.Create, TablesSaved, IndexesSaved, FilesHold;
      AllHoused(S(), tableFiles);
      CreatedTable(schema);
      NewTableSound(db, schema, m);
      tableFiles := tableFiles[schema.name := file];
      models := models[schema.name := m];
      catalog := catalog[schema.name := schema];
      assert S().orphans == db.orphans;
      HoldsElsewhere(old(S()), old(tableFiles), schema.name, S(), tableFiles);
      SaveTables();
    }

    method DropTable(name: string) returns (r: Result<(), TableError>)
      requires Valid()
      modifies this
      ensures Valid() && (S(), ErrorOf(r)) == DbStates.DropTable(old(S()), name)
    {
      hide SoundDb, Holds, TableOk, TablesSaved, IndexesSaved, FilesHold;
      if name !in catalog {
        return Err(TableNotFound(name));
      }
      DropTableSound(S(), name);
      ghost var db := S();
      FileHolds(db, tableFiles, name);
      AllHoused(db, tableFiles);
      DropIndexesOf(name);
      tableFiles := tableFiles - {name};
      catalog := catalog - {name};
      models := models - {name};
      assert S().orphans == db.orphans;
      HoldsElsewhere(db, old(tableFiles), name, S(), tableFiles);
      SaveTables();
      SaveIndexes();
      return Ok(());
    }

    /** Deletes the files and the catalog entries of the indexes on a table. */
    method DropIndexesOf(table: string)
      modifies this`indexes, this`indexFiles
      ensures indexes == old(indexes) - IndexesOf(old(S()), table)
      ensures indexFiles == old(indexFiles) - IndexesOf(old(S()), table)
    {
      var all := set n | n in indexes && indexes[n].table == table;
      var remaining := all;
      while remaining != {}
        invariant remaining <= all
        invariant indexes == old(indexes) - (all - remaining) && indexFiles == old(indexFiles) - (all - remaining)
        decreases |remaining|
      {
        var n :| n in remaining;
        indexFiles := indexFiles - {n};
        indexes := indexes - {n};
        remaining := remaining - {n};
      }
      assert all - remaining == IndexesOf(old(S()), table);
    }

    // ---- indexes

    /** Some index of the table on the column, if there is one. */
    method FindIndex(table: string, column: string) returns (r: Option<string>)
      ensures r.Some? ==> IndexOn(S(), r.value, table) && indexes[r.value].column == column
      ensures r.None? ==> forall n :: n in indexes && indexes[n].table == table ==> indexes[n].column != column
    {
      if n :| n in indexes && indexes[n].table == table && indexes[n].column == column {
        return Some(n);
      }
      return None;
    }

    method RebuildIndex(name: string)
      requires Valid() && name in indexes
      modifies this
      ensures Valid() && S() == RebuiltAll(old(S()), {name})
    {
      hide SoundDb, LoadSpec, Content, FilesHold, RebuiltAll, EntriesNow;
      ghost var db := S();
      IndexTable(db, name);
      var entries := TableEntries(name);
      var loaded := LoadIndexFile(indexFiles[name]);
      assert loaded.Ok?;
      var content := WriteIndexFile(loaded.value.0, entries);
      indexFiles := indexFiles[name := content];
      RebuiltIsCurrent(db, {name});
      RebuiltOne(db, name);
      SameFilesHold(db, S(), tableFiles);
    }

    /** Opens the index's table and reads the entries its records call for. */
    method TableEntries(name: string) returns (entries: seq<IndexEntry>)
      requires Valid() && name in indexes
      modifies this`tableFiles, this`models
      ensures Valid() && S() == old(S()) && entries == EntriesNow(S(), name)
    {
      hide SoundDb, FilesHold, TableOk, EntriesNow, LayoutAt, IntColumn, FileOk, StoreIn, Layout, Sequential, ScanAll,
        EntriesOf, ColumnIndex,
        InBounds, CursorOk, Sized, R.Inv;
      ghost var db := S();
      var meta := indexes[name];
      IndexTable(db, name);
      NowIsScan(db, name);
      var table := OpenTable(meta.table);
      var built := table.value.IndexEntriesForInt32Column(meta.column);
      assert built == EntriesFor(table.value.layout, db.models[meta.table], meta.column);
      CloseTable(meta.table, table.value);
      SameModel(db, meta.table);
      return built.value;
    }

    method RebuildIndexesForTable(table: string)
      requires Valid()
      modifies this
      ensures Valid() && S() == Rebuilt(old(S()), table)
    {
      hide SoundDb, Holds, FilesHold, RebuiltAll, TablesSaved, IndexesSaved;
      ghost var db := S();
      RebuiltNone(db);
      var all := set n | n in indexes && indexes[n].table == table;
      assert all == IndexesOf(db, table);
      var remaining := all;
      assert all - remaining == {};
      while remaining != {}
        invariant remaining <= all && Valid() && S() == RebuiltAll(db, all - remaining) && indexes == old(indexes)
        decreases |remaining|
      {
        var n :| n in remaining;
        RebuiltStep(db, S(), all - remaining, n);
        assert all - remaining + {n} == all - (remaining - {n});
        RebuiltIndexes(db, all - remaining + {n});
        RebuildIndex(n);
        remaining := remaining - {n};
      }
      assert all - remaining == all;
    }

    /** The index file is written first; only then does a taken name show. */
    method CreateIndex(name: string, table: string, column: string) returns (r: Result<IndexMeta, TableError>)
      requires Valid()
      modifies this
      ensures Valid() && (S(), ErrorOf(r)) == DbStates.CreateIndex(old(S()), name, table, column)
    {
      hide SoundDb, Holds, FilesHold, RebuiltAll, CompileSchemaSpec, Content, ValidIdentifier, TablesSaved,
        IndexesSaved;
      ghost var db := S();
      if !ValidIdentifier(name) {
        return Err(InvalidName(name));
      }
      if table !in catalog {
        return Err(TableNotFound(table));
      }
      CompiledAt(db, table);
      var layout := CompileSchema(catalog[table]);
      assert layout.Ok?;
      var i :- ColumnIndex(layout.value, column);
      if !layout.value.columns[i].columnType.Int32? {
        return Err(IndexFailure(UnsupportedKeyType));
      }
      var meta := IndexMeta(name, table, column);
      var content := WriteIndexFile(meta, []);
      indexFiles := indexFiles[name := content];
      if name in indexes {
        OverwrittenSound(db, meta);
        SameFilesHold(db, S(), tableFiles);
        return Err(IndexFailure(DuplicateIndex(name)));
      }
      indexes := indexes[name := meta];
      AddedSound(db, meta);
      SameFilesHold(db, S(), tableFiles);
      SaveIndexes();
      RebuildIndex(name);
      return Ok(meta);
    }

    method DropIndex(name: string) returns (r: Result<(), TableError>)
      requires Valid()
      modifies this
      ensures Valid() && (S(), ErrorOf(r)) == DbStates.DropIndex(old(S()), name)
    {
      hide SoundDb, Holds, FilesHold, TablesSaved, IndexesSaved;
      ghost var db := S();
      if name !in indexes {
        return Err(IndexFailure(IndexNotFound(name)));
      }
      DropIndexSound(db, name);
      indexes := indexes - {name};
      assert name in indexFiles by { IndexFilesKnown(db); }
      indexFiles := indexFiles - {name};
      SameFilesHold(db, S(), tableFiles);
      SaveIndexes();
      return Ok(());
    }

    method LookupIndexEq(name: string, key: i32) returns (r: Result<seq<Rid>, IndexError>)
      requires name in indexFiles
      ensures r == LookupEq(indexFiles[name], key)
    {
      hide LoadSpec;
      var loaded :- LoadIndexFile(indexFiles[name]);
      return Ok(LookupIn(loaded.1, key));
    }
  }

  // ---- what the files hold

  /** What a catalog file loads to; no file stands for an empty catalog. */
  function LoadedTables(file: Option<string>): Result<map<string, TableSchema>, TableError> {
    match file
    case None => Ok(map[])
    case Some(text) => LoadCatalogSpec(text)
  }

  function LoadedIndexes(file: Option<string>): Result<map<string, IndexMeta>, IndexError> {
    match file
    case None => Ok(map[])
    case Some(text) => LoadIndexCatalog(text)
  }

  ghost predicate TablesSaved(catalog: map<string, TableSchema>, file: Option<string>) {
    LoadedTables(file) == Ok(catalog)
  }

  ghost predicate IndexesSaved(indexes: map<string, IndexMeta>, file: Option<string>) {
    LoadedIndexes(file) == Ok(indexes)
  }

  /** These files are what the database leaves behind. */
  ghost predicate OnDisk(db: Db, catalogFile: Option<string>, tableFiles: map<string, Store>,
      indexCatalogFile: Option<string>,
                         indexFiles: map<string, string>)
  {
    && SoundDb(db) && FilesHold(db, tableFiles) && db.orphans == tableFiles.Keys - db.catalog.Keys &&
       db.indexFiles == indexFiles
    && TablesSaved(db.catalog, catalogFile) && IndexesSaved(db.indexes, indexCatalogFile)
  }

  lemma CatalogNames(db: Db)
    requires SoundDb(db)
    ensures forall n :: n in db.catalog ==> db.catalog[n].name == n && CompileSchemaSpec(db.catalog[n]).Ok?
  {
    hide CompileSchemaSpec, TableOk;
    assert forall n :: n in db.catalog ==> TableSound(db, n);
  }

  lemma IndexNames(db: Db)
    requires SoundDb(db)
    ensures forall n :: n in db.indexes ==> db.indexes[n].name == n && PlainMeta(db.indexes[n])
  {
    hide PlainMeta, TableOk, IndexText, LayoutAt;
    forall n | n in db.indexes ensures db.indexes[n].name == n && PlainMeta(db.indexes[n]) {
      assert IndexSound(db, n);
      IdentifiersPlain(db, db.indexes[n]);
    }
  }

  predicate Has<T(==)>(s: seq<T>, x: T) {
    exists i :: 0 <= i < |s| && s[i] == x
  }

  lemma HasSnoc<T>(s: seq<T>, x: T)
    ensures Has(s + [x], x) && forall y :: Has(s, y) ==> Has(s + [x], y)
  {
    assert (s + [x])[|s|] == x;
    forall y | Has(s, y) ensures Has(s + [x], y) {
      var i :| 0 <= i < |s| && s[i] == y;
      assert (s + [x])[i] == y;
    }
  }

  /** The schemas of a catalog, each once. */
  method EnumerateTables(tables: map<string, TableSchema>) returns (schemas: seq<TableSchema>)
    requires forall n :: n in tables ==> tables[n].name == n
    ensures Enumerates(schemas, tables)
  {
    var remaining := tables.Keys;
    schemas := [];
    while remaining != {}
      invariant remaining <= tables.Keys
      invariant forall i :: 0 <= i < |schemas| ==>
                schemas[i].name in tables.Keys - remaining && tables[schemas[i].name] == schemas[i]
      invariant forall i, j :: 0 <= i < j < |schemas| ==> schemas[i].name != schemas[j].name
      invariant forall n :: n in tables.Keys - remaining ==> Has(schemas, tables[n])
    {
      var n :| n in remaining;
      HasSnoc(schemas, tables[n]);
      schemas := schemas + [tables[n]];
      remaining := remaining - {n};
    }
  }

  method EnumerateIndexes(indexes: map<string, IndexMeta>) returns (metas: seq<IndexMeta>)
    requires forall n :: n in indexes ==> indexes[n].name == n
    ensures ListsAll(metas, indexes)
  {
    var remaining := indexes.Keys;
    metas := [];
    while remaining != {}
      invariant remaining <= indexes.Keys
      invariant forall i :: 0 <= i < |metas| ==>
                metas[i].name in indexes.Keys - remaining && indexes[metas[i].name] == metas[i]
      invariant forall i, j :: 0 <= i < j < |metas| ==> metas[i].name != metas[j].name
      invariant forall n :: n in indexes.Keys - remaining ==> Has(metas, indexes[n])
    {
      var n :| n in remaining;
      HasSnoc(metas, indexes[n]);
      metas := metas + [indexes[n]];
      remaining := remaining - {n};
    }
  }

  /** Each index of the map once, under its own name. */
  ghost predicate ListsAll(metas: seq<IndexMeta>, indexes: map<string, IndexMeta>) {
    && (forall i, j :: 0 <= i < j < |metas| ==> metas[i].name != metas[j].name)
    && (forall i :: 0 <= i < |metas| ==> metas[i].name in indexes && indexes[metas[i].name] == metas[i])
    && (forall n :: n in indexes ==> exists i :: 0 <= i < |metas| && metas[i].name == n)
  }

  lemma IndexesReload(indexes: map<string, IndexMeta>, metas: seq<IndexMeta>)
    requires ListsAll(metas, indexes) && forall n :: n in indexes ==> PlainMeta(indexes[n])
    ensures LoadIndexCatalog(IndexCatalogContent(metas)) == Ok(indexes)
  {
    hide LoadIndexCatalog, IndexCatalogContent, PlainMeta;
    forall n
      ensures LoadIndexCatalog(IndexCatalogContent(metas)).Ok?
      ensures n in LoadIndexCatalog(IndexCatalogContent(metas)).value <==> n in indexes
      ensures n in indexes ==> LoadIndexCatalog(IndexCatalogContent(metas)).value[n] == indexes[n]
    {
      IndexCatalogRoundTrip(metas, n);
    }
    IndexCatalogRoundTrip(metas, "");
    LoadsTo(LoadIndexCatalog(IndexCatalogContent(metas)), indexes);
  }

  lemma LoadsTo(r: Result<map<string, IndexMeta>, IndexError>, indexes: map<string, IndexMeta>)
    requires r.Ok?
    requires forall n :: n in r.value <==> n in indexes
    requires forall n :: n in indexes ==> r.value[n] == indexes[n]
    ensures r == Ok(indexes)
  {
    assert r.value == indexes;
  }

  /** The table object shows the table's current contents under its schema. */
  ghost predicate Opened(db: Db, name: string, table: Table)
    reads table, table.file, table.file.pool
  {
    && table.Valid() && name in db.catalog && name in db.models
    && table.schema == db.catalog[name] && table.layout == LayoutAt(db, name) && table.Model() == db.models[name]
  }

  ghost predicate FilesHold(db: Db, files: map<string, Store>) {
    forall t :: t in db.catalog ==> t in db.models && t in files && Holds(files[t], db.models[t])
  }

  lemma FileHolds(db: Db, files: map<string, Store>, name: string)
    requires SoundDb(db) && FilesHold(db, files) && name in db.catalog
    ensures name in files && Holds(files[name], db.models[name]) && Valid(files[name]) && R.Inv(db.models[name])
    ensures CompileSchemaSpec(db.catalog[name]) == Ok(LayoutAt(db, name)) && db.catalog[name].name == name
    ensures db.models[name].size == LayoutAt(db, name).recordSize && name !in db.orphans
  {
    hide R.Inv, Tiles, UniqueNames, CompileSchemaSpec;
    assert TableSound(db, name);
  }

  lemma AllHoused(db: Db, files: map<string, Store>)
    requires FilesHold(db, files)
    ensures forall t :: t in db.catalog ==> t in db.models && t in files
  {
    hide Holds;
  }

  lemma HoldsAfter(db: Db, files: map<string, Store>, name: string, m: R.RStore, store: Store)
    requires FilesHold(db, files) && name in db.catalog && Holds(store, m)
    ensures FilesHold(WithModel(db, name, m), files[name := store])
  {
    hide Holds;
  }

  /** Only the file of one table changed, and it holds that table, if it is one. */
  lemma HoldsElsewhere(db: Db, files: map<string, Store>, name: string, t: Db, after: map<string, Store>)
    requires FilesHold(db, files)
    requires forall x :: x in t.catalog && x != name ==>
               x in db.catalog && x in db.models && x in t.models && t.models[x] == db.models[x] &&
                 (x in files ==> x in after && after[x] == files[x])
    requires name in t.catalog ==> name in t.models && name in after && Holds(after[name], t.models[name])
    ensures FilesHold(t, after)
  {
    hide Holds;
  }

  lemma SameFilesHold(db: Db, t: Db, files: map<string, Store>)
    requires FilesHold(db, files) && t.catalog == db.catalog && t.models == db.models
    ensures FilesHold(t, files)
  {
    hide Holds;
  }

  lemma IndexTable(db: Db, name: string)
    requires SoundDb(db) && name in db.indexes
    ensures name in db.indexFiles && LoadSpec(db.indexFiles[name]).Ok?
    ensures db.indexes[name].table in db.catalog
    ensures IntColumn(LayoutAt(db, db.indexes[name].table), db.indexes[name].column)
  {
    hide TableOk, LoadSpec, IndexText;
    assert IndexSound(db, name);
    TextLoads(db.indexFiles[name]);
  }

  lemma CompiledAt(db: Db, table: string)
    requires SoundDb(db) && table in db.catalog
    ensures CompileSchemaSpec(db.catalog[table]) == Ok(LayoutAt(db, table))
  {
    hide TableOk, CompileSchemaSpec;
    assert TableSound(db, table);
  }

  /** The entries an index should hold are those built from a scan of its table. */
  lemma NowIsScan(db: Db, name: string)
    requires SoundDb(db) && name in db.indexes
    ensures var meta := db.indexes[name];
            && meta.table in db.catalog && meta.table in db.models &&
               TableOk(LayoutAt(db, meta.table), db.models[meta.table])
            && EntriesFor(LayoutAt(db, meta.table), db.models[meta.table], meta.column) == Ok(EntriesNow(db, name))
  {
    hide R.Inv, Tiles, UniqueNames, CompileSchemaSpec, EntriesFor, IndexText;
    var meta := db.indexes[name];
    assert IndexSound(db, name) && TableSound(db, meta.table);
    EntriesDistinct(LayoutAt(db, meta.table), db.models[meta.table], meta.column);
  }

  lemma RebuiltOne(db: Db, name: string)
    requires SoundDb(db) && name in db.indexes
    ensures name in db.indexFiles && LoadSpec(db.indexFiles[name]).Ok?
    ensures RebuiltAll(db, {name}) ==
            db.(indexFiles :=
              db.indexFiles[name := Content(LoadSpec(db.indexFiles[name]).value.0, EntriesNow(db, name))])
  {
    hide TableOk, LoadSpec, IndexText, Content, EntriesNow, TableSound, IntColumn, ValidIdentifier;
    assert IndexSound(db, name);
    TextLoads(db.indexFiles[name]);
  }
}
