/** A run of four requests that empties the index of a table with a record. */
module DuplicateRun {
  import opened Outcomes
  import opened RecordLayout
  import opened RowCodec
  import opened ExprCompiler
  import opened RecordScans
  import opened IndexFiles
  import opened TableOps
  import opened IndexPath
  import opened DbStates
  import opened DbRuns
  import R = RecordStores

  const SCHEMA := TableSchema("t", [ColumnSchema("a", Int32)])

  const LAYOUT := SchemaLayout([LayoutColumn("a", Int32, 0)], 4)

  const INDEX := CreateIndexRequest("i", "t", "a")

  const EMPTYING_RUN := [CreateTableRequest(SCHEMA), INDEX, InsertRequest("t", [IntValue(0)]), INDEX]

  lemma SchemaCompiles()
    ensures CompileSchemaSpec(SCHEMA) == Ok(LAYOUT) && LayoutOf(SCHEMA.columns) == LAYOUT
    ensures ColumnIndex(LAYOUT, "a") == Ok(0)
  {
    var c := SCHEMA.columns;
    assert c[..0] == [];
    assert Width(c) == 4;
    assert ColumnError(c, 0).None?;
    assert LayoutOf(c).columns == LAYOUT.columns;
  }

  lemma RecordFits()
    ensures R.Create(4).Ok? && R.Inv(R.Create(4).value)
    ensures var m := R.Create(4).value; m.size == 4 && m.pages == [] && R.Roomy(m)
  {
    hide R.Inv;
    assert Fits(1, 4);
    R.CreateInv(4);
  }

  /** The table exists under the schema, with these contents. */
  ghost predicate HasTable(db: Db, m: R.RStore) {
    SoundDb(db) && "t" in db.catalog && db.catalog["t"] == SCHEMA && "t" in db.models && db.models["t"] == m
  }

  ghost predicate OnlyIndex(db: Db) {
    db.indexes == map["i" := IndexMeta("i", "t", "a")]
  }

  lemma IndexIsGood(db: Db, m: R.RStore)
    requires HasTable(db, m)
    ensures GoodMeta(db, IndexMeta("i", "t", "a")) && LayoutAt(db, "t") == LAYOUT
  {
    hide SoundDb;
    SchemaCompiles();
  }

  lemma FirstStep()
    ensures Able(EMPTY_DB, CreateTableRequest(SCHEMA))
    ensures var t := Step(EMPTY_DB, CreateTableRequest(SCHEMA)).0;
            R.Create(4).Ok? && HasTable(t, R.Create(4).value) && t.indexes == map[]
  {
    hide R.Inv, R.Create, CompileSchemaSpec;
    SchemaCompiles();
    RecordFits();
    EmptyAgreed();
    StepSound(EMPTY_DB, CreateTableRequest(SCHEMA));
  }

  lemma SecondStep(db: Db, m: R.RStore)
    requires HasTable(db, m) && db.indexes == map[]
    ensures HasTable(Step(db, INDEX).0, m) && OnlyIndex(Step(db, INDEX).0)
  {
    hide SoundDb, Content, RebuiltFile, Current, TableOk;
    IndexIsGood(db, m);
    GoodMetaIff(db, "i", "t", "a");
    StepSound(db, INDEX);
  }

  lemma ThirdStep(db: Db, m: R.RStore)
    requires HasTable(db, m) && OnlyIndex(db) && R.Roomy(m)
    ensures Able(db, InsertRequest("t", [IntValue(0)]))
    ensures var t := Step(db, InsertRequest("t", [IntValue(0)])).0;
            SoundDb(t) && Agreed(t) && OnlyIndex(t) && RefusedDuplicate(t, INDEX) && EntriesNow(t, "i") != []
  {
    hide SoundDb, Current, TableOk, Rebuilt, R.Inv, EncodeRowSpec, R.Insert, EntriesNow, LayoutOf, CompileSchemaSpec,
      GoodMeta;
    var q := InsertRequest("t", [IntValue(0)]);
    IndexIsGood(db, m);
    SoundTable(db, "t");
    RowEncodes();
    InsertTableOk(LAYOUT, m, [IntValue(0)]);
    WriteRebuilds(db, q);
    var after := InsertRow(LAYOUT, m, [IntValue(0)]).value.0;
    InsertedTable(db, m, after);
    IndexIsGood(Step(db, q).0, after);
    EntryFound(m, Step(db, q).0, after);
  }

  lemma RowEncodes()
    ensures InBounds(LAYOUT) && EncodeRowSpec(LAYOUT, [IntValue(0)]).Ok?
  {
    UpToOk(LAYOUT, [IntValue(0)], 1);
  }

  lemma InsertedTable(db: Db, m: R.RStore, after: R.RStore)
    requires HasTable(db, m) && R.Roomy(m) && LayoutAt(db, "t") == LAYOUT && InBounds(LAYOUT)
    requires InsertRow(LAYOUT, m, [IntValue(0)]).Ok? && after == InsertRow(LAYOUT, m, [IntValue(0)]).value.0
    requires Able(db, InsertRequest("t", [IntValue(0)])) && SoundDb(Step(db, InsertRequest("t", [IntValue(0)])).0)
    ensures HasTable(Step(db, InsertRequest("t", [IntValue(0)])).0, after)
  {
    hide SoundDb, TableOk, R.Inv, EncodeRowSpec, R.Insert, InsertRow, RebuiltFile, Content;
    SoundTable(db, "t");
  }

  /** The inserted record has an entry. */
  lemma EntryFound(m: R.RStore, db: Db, after: R.RStore)
    requires HasTable(db, after) && OnlyIndex(db) && TableOk(LAYOUT, m) && LayoutAt(db, "t") == LAYOUT
    requires InBounds(LAYOUT) && EncodeRowSpec(LAYOUT, [IntValue(0)]).Ok? && R.Roomy(m)
    requires InsertRow(LAYOUT, m, [IntValue(0)]).Ok? && after == InsertRow(LAYOUT, m, [IntValue(0)]).value.0
    ensures EntriesNow(db, "i") != []
  {
    hide SoundDb, R.Inv, EncodeRowSpec, R.Insert, EntriesFor, EntriesOf, ScanAll, Tiles, UniqueNames, R.Lookup;
    var bytes := EncodeRowSpec(LAYOUT, [IntValue(0)]).value;
    var rid := R.Insert(m, bytes).value.1;
    R.InsertBinds(m, bytes, rid);
    SoundTable(db, "t");
    SchemaCompiles();
    ScanSized(after);
    ScanAllExact(after, Record(rid, bytes));
    TilesInBounds(LAYOUT);
    NonEmptyEntries(after, Record(rid, bytes));
    EntriesDistinct(LAYOUT, after, "a");
  }

  lemma NonEmptyEntries(m: R.RStore, x: Record)
    requires TableOk(LAYOUT, m) && CursorOk(m, 1, 0) && x in ScanAll(m)
    ensures EntriesFor(LAYOUT, m, "a").Ok? && EntriesFor(LAYOUT, m, "a").value != []
  {
    hide R.Inv, EntriesOf, ScanAll, Tiles, UniqueNames;
    SchemaCompiles();
    TilesInBounds(LAYOUT);
    ScanSized(m);
    EntriesExact(LAYOUT, 0, ScanAll(m));
  }

  /** After three requests index and table agree; the fourth, a refused duplicate, breaks that. */
  lemma EmptyingRunEmpties()
    ensures Possible(EMPTY_DB, EMPTYING_RUN)
    ensures SoundDb(Run(EMPTY_DB, EMPTYING_RUN)) && !Agreed(Run(EMPTY_DB, EMPTYING_RUN))
  {
    hide SoundDb, Step, Able, HasTable, EntriesNow, Agreed, RefusedDuplicate;
    FirstStep();
    RecordFits();
    var m := R.Create(4).value;
    var d1 := Step(EMPTY_DB, CreateTableRequest(SCHEMA)).0;
    CanStep(d1, m);
    SecondStep(d1, m);
    var d2 := Step(d1, INDEX).0;
    CanStep(d2, m);
    ThirdStep(d2, m);
    var d3 := Step(d2, InsertRequest("t", [IntValue(0)])).0;
    LastStep(d3);
    var d4 := Step(d3, INDEX).0;
    NoRequests(d4);
    RunCons(d3, INDEX, [], d4);
    RunCons(d2, InsertRequest("t", [IntValue(0)]), [INDEX] + [], d3);
    RunCons(d1, INDEX, [InsertRequest("t", [IntValue(0)])] + ([INDEX] + []), d2);
    RunCons(EMPTY_DB, CreateTableRequest(SCHEMA), [INDEX] + ([InsertRequest("t", [IntValue(0)])] + ([INDEX] + [])), d1);
    assert EMPTYING_RUN ==
      [CreateTableRequest(SCHEMA)] + ([INDEX] + ([InsertRequest("t", [IntValue(0)])] + ([INDEX] + [])));
  }

  lemma CanStep(db: Db, m: R.RStore)
    requires HasTable(db, m)
    ensures SoundDb(db) && Able(db, INDEX) && Able(EMPTY_DB, CreateTableRequest(SCHEMA))
  {
    EmptyAgreed();
  }

  lemma LastStep(db: Db)
    requires SoundDb(db) && OnlyIndex(db) && RefusedDuplicate(db, INDEX) && EntriesNow(db, "i") != []
    ensures Able(db, INDEX) && SoundDb(Step(db, INDEX).0) && !Agreed(Step(db, INDEX).0)
  {
    hide SoundDb, Current, GoodMeta, EntriesNow, CreateIndex;
    DuplicateEmpties(db, INDEX);
  }

  lemma NoRequests(db: Db)
    requires SoundDb(db)
    ensures Possible(db, []) && Run(db, []) == db
  {
    hide SoundDb;
  }

  lemma RunCons(db: Db, q: Request, rest: seq<Request>, t: Db)
    requires Able(db, q) && Step(db, q).0 == t && Possible(t, rest)
    ensures Possible(db, [q] + rest) && Run(db, [q] + rest) == Run(t, rest)
  {
    hide SoundDb, Step;
    assert ([q] + rest)[1..] == rest;
  }
}
