/** Runs of requests to the query engine, ending in a select. */
module EngineRuns {
  import opened Outcomes
  import opened RowCodec
  import opened ExprCompiler
  import opened TableOps
  import opened OrderBy
  import opened QueryPlan
  import opened SelectPlans
  import opened DbStates
  import opened DbRuns
  import opened DbRows
  import opened Databases
  import opened Engines

  datatype EngineRequest =
    | MakeTable(schema: TableSchema)
    | RemoveTable(table: string)
    | MakeIndex(name: string, table: string, column: string)
    | RemoveIndex(name: string)
    | Insert(table: string, input: InsertInput)
    | Update(table: string, assignments: seq<Assignment>, filter: Option<Expr>)
    | Remove(table: string, filter: Option<Expr>)

  // ---- the row of an insert

  /** The first value given for the column. */
  function ValueGiven(entries: seq<Named>, name: string): Value {
    if entries == [] then IntValue(0)
    else if entries[0].0 == name then entries[0].1 else ValueGiven(entries[1..], name)
  }

  function RowGiven(columns: seq<ColumnSchema>, input: InsertInput): Row {
    match input
    case FullRow(values) => values
    case NamedRow(entries) => seq(|columns|, i requires 0 <= i < |columns| => ValueGiven(entries, columns[i].name))
  }

  lemma {:induction false} ValueGivenAt(entries: seq<Named>, k: nat)
    requires UniqueEntries(entries) && k < |entries|
    ensures ValueGiven(entries, entries[k].0) == entries[k].1
    decreases |entries|
  {
    if k == 0 {
    } else {
      assert entries[0].0 != entries[k].0;
      assert UniqueEntries(entries[1..]) && entries[1..][k - 1] == entries[k];
      ValueGivenAt(entries[1..], k - 1);
    }
  }

  /** The row that the engine inserts is the one given. */
  lemma RowIsGiven(columns: seq<ColumnSchema>, input: InsertInput, row: Row)
    requires InputOk(columns, input) && RowOf(columns, input, row)
    ensures row == RowGiven(columns, input)
  {
    hide KindMatches;
    match input
    case FullRow(values) =>
    case NamedRow(entries) =>
      forall i | 0 <= i < |columns| ensures row[i] == ValueGiven(entries, columns[i].name) {
        assert NamesColumn(entries, columns[i].name);
        var k :| 0 <= k < |entries| && entries[k].0 == columns[i].name;
        assert columns[i].name == entries[k].0;
        ValueGivenAt(entries, k);
      }
  }

  // ---- what a request does

  /** The database request that the engine makes, if its checks let the request through. */
  ghost function Planned(db: Db, q: EngineRequest): Option<Request> {
    match q
    case MakeTable(schema) => Some(CreateTableRequest(schema))
    case RemoveTable(table) => Some(DropTableRequest(table))
    case MakeIndex(name, table, column) => Some(CreateIndexRequest(name, table, column))
    case RemoveIndex(name) => Some(DropIndexRequest(name))
    case Insert(table, input) =>
      if table in db.catalog && InputOk(db.catalog[table].columns, input)
      then Some(InsertRequest(table, RowGiven(db.catalog[table].columns, input))) else None
    case Update(table, assignments, filter) =>
      if table in db.catalog && FilterKnown(db.catalog[table].columns, filter) &&
         AssignmentsOk(db.catalog[table].columns, assignments)
      then Some(UpdateRequest(table, filter, assignments)) else None
    case Remove(table, filter) =>
      if table in db.catalog && FilterKnown(db.catalog[table].columns, filter)
      then Some(DeleteRequest(table, filter)) else None
  }

  ghost predicate CanExecute(db: Db, q: EngineRequest) {
    SoundDb(db) && (q.Insert? ==> CanInsert(db, q.table))
  }

  lemma PlannedAble(db: Db, q: EngineRequest)
    requires CanExecute(db, q)
    ensures Planned(db, q).Some? ==> Able(db, Planned(db, q).value)
  {
    hide SoundDb, InputOk, FilterKnown, AssignmentsOk, CanInsert, RowGiven;
  }

  ghost function After(db: Db, q: EngineRequest): Db
    requires CanExecute(db, q)
  {
    PlannedAble(db, q);
    match Planned(db, q)
    case None => db
    case Some(step) => Step(db, step).0
  }

  /** Only a create_index under the name of an index with entries is not. */
  ghost predicate HarmlessRequest(db: Db, q: EngineRequest)
    requires SoundDb(db)
  {
    q.MakeIndex? ==> Harmless(db, CreateIndexRequest(q.name, q.table, q.column))
  }

  lemma AfterSound(db: Db, q: EngineRequest)
    requires CanExecute(db, q)
    ensures SoundDb(After(db, q))
    ensures Agreed(db) ==> (Agreed(After(db, q)) <==> HarmlessRequest(db, q))
  {
    hide SoundDb, Step, Agreed, Harmless, InputOk, FilterKnown, AssignmentsOk, CanInsert;
    var step := Planned(db, q);
    if step.Some? {
      StepSound(db, step.value);
      if Agreed(db) {
        if q.MakeIndex? {
          StepAgreed(db, step.value);
        } else {
          StaysAgreed(db, step.value);
        }
      }
    }
  }

  // ---- runs

  ghost predicate CanRun(db: Db, qs: seq<EngineRequest>)
    decreases |qs|
  {
    SoundDb(db) && (qs != [] ==> CanExecute(db, qs[0]) && CanRun(After(db, qs[0]), qs[1..]))
  }

  ghost function AfterAll(db: Db, qs: seq<EngineRequest>): Db
    requires CanRun(db, qs)
    decreases |qs|
  {
    if qs == [] then db else AfterAll(After(db, qs[0]), qs[1..])
  }

  ghost predicate AllHarmless(db: Db, qs: seq<EngineRequest>)
    requires CanRun(db, qs)
    decreases |qs|
  {
    qs == [] || (HarmlessRequest(db, qs[0]) && AllHarmless(After(db, qs[0]), qs[1..]))
  }

  /** Indexes and tables agree after every run of harmless requests, refused ones included. */
  lemma {:induction false} RunKeepsAgreement(db: Db, qs: seq<EngineRequest>)
    requires CanRun(db, qs) && AllHarmless(db, qs) && Agreed(db)
    ensures SoundDb(AfterAll(db, qs)) && Agreed(AfterAll(db, qs))
    decreases |qs|
  {
    hide SoundDb, After, Agreed, HarmlessRequest;
    if qs == [] {
    } else {
      AfterSound(db, qs[0]);
      RunKeepsAgreement(After(db, qs[0]), qs[1..]);
    }
  }

  // ---- the engine itself

  /** One request: the engine does what the specification says. */
  method Execute(engine: QueryEngine, q: EngineRequest)
    requires engine.database.Valid() && CanExecute(engine.database.S(), q)
    modifies engine.database
    ensures engine.database.Valid() && engine.database.S() == After(old(engine.database.S()), q)
  {
    hide SoundDb, FilesHold, Agreed, InputOk, FilterKnown, AssignmentsOk, RowOf, TablesSaved, IndexesSaved,
      DbStates.CreateTable, DbStates.DropTable, DbStates.CreateIndex, DbStates.DropIndex, InsertInto, UpdateIn,
      DeleteFrom, RowGiven, Harmless, InsertionRefused, UpdateRefused, DeleteRefused, Inserted, Updated, Deleted;
    ghost var db := engine.database.S();
    match q
    case MakeTable(schema) => var _ := engine.ExecuteCreateTable(schema);
    case RemoveTable(table) => var _ := engine.ExecuteDropTable(table);
    case MakeIndex(name, table, column) => var _ := engine.ExecuteCreateIndex(name, table, column);
    case RemoveIndex(name) => var _ := engine.ExecuteDropIndex(name);
    case Insert(table, input) =>
      ghost var row;
      var r;
      r, row := engine.ExecuteInsert(table, input);
      if row.Some? {
        RowIsGiven(db.catalog[table].columns, input, row.value);
      }
    case Update(table, assignments, filter) => var _, _ := engine.ExecuteUpdate(table, assignments, filter);
    case Remove(table, filter) => var _, _ := engine.ExecuteDelete(table, filter);
  }

  method Replay(engine: QueryEngine, qs: seq<EngineRequest>)
    requires engine.database.Valid() && CanRun(engine.database.S(), qs)
    modifies engine.database
    ensures engine.database.Valid() && engine.database.S() == AfterAll(old(engine.database.S()), qs)
  {
    hide SoundDb, FilesHold, After, CanExecute, TablesSaved, IndexesSaved;
    ghost var db := engine.database.S();
    assert qs[0..] == qs;
    for i := 0 to |qs|
      invariant engine.database.Valid() && CanRun(engine.database.S(), qs[i..])
      invariant AfterAll(engine.database.S(), qs[i..]) == AfterAll(db, qs)
    {
      assert qs[i..][0] == qs[i] && qs[i..][1..] == qs[i + 1..];
      Execute(engine, qs[i]);
    }
  }

  /** After any run of harmless requests on a database whose indexes agree with its tables, a select
      answers exactly as if every index were forgotten: what it fetches are the rows its filter chooses. */
  method ReplayThenSelect(engine: QueryEngine, qs: seq<EngineRequest>, q: Select)
    returns (r: Result<(seq<ColumnSchema>, seq<Row>), QueryError>, ghost keys: seq<OrderKey>, ghost indices: seq<nat>)
    requires engine.database.Valid() && Agreed(engine.database.S())
    requires CanRun(engine.database.S(), qs) && AllHarmless(engine.database.S(), qs)
    modifies engine.database
    ensures engine.database.Valid() && engine.database.S() == AfterAll(old(engine.database.S()), qs)
    ensures r.Ok? <==>
              && q.table in engine.database.catalog && Plannable(engine.database.catalog[q.table].columns, q)
              && Fetched(engine.database.S(), q.table, q.filter, None).Ok?
    ensures r.Ok? ==>
              var columns := engine.database.catalog[q.table].columns;
              var rows := Fetched(engine.database.S(), q.table, q.filter, None).value;
              && Found(engine.database.S(), q.table, q.filter, rows)
              && AllConform(columns, rows) && Answers(columns, rows, q, keys, indices, r.value.1)
  {
    hide SoundDb, FilesHold, AfterAll, AllHarmless, CanRun, Fetched, AllConform, Answers, Plannable, Agreed,
      TablesSaved, IndexesSaved, SelectRefused, Found;
    RunKeepsAgreement(engine.database.S(), qs);
    Replay(engine, qs);
    ghost var via;
    r, via, keys, indices := engine.ExecuteSelect(q);
  }
}
