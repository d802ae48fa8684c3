/** The query engine: checks a request against the schema, then acts on the database. */
module Engines {
  import opened Outcomes
  import opened RowCodec
  import opened ExprCompiler
  import opened IndexFiles
  import opened RecordLayout
  import opened TableOps
  import opened Tables
  import opened IndexPath
  import opened OrderBy
  import opened QueryPlan
  import opened SelectPlans
  import opened DbStates
  import opened DbRuns
  import opened DbRows
  import opened Databases
  import R = RecordStores
  import PoolStates
  import RecordFiles

  datatype InsertInput = FullRow(values: Row) | NamedRow(entries: seq<Named>)

  function AsQuery<T>(r: Result<T, TableError>): Result<T, QueryError> {
    match r
    case Ok(v) => Ok(v)
    case Err(e) => Err(TableFailure(e))
  }

  ghost predicate InputOk(columns: seq<ColumnSchema>, input: InsertInput) {
    match input
    case FullRow(values) => Conforms(columns, values)
    case NamedRow(entries) =>
      AllKnown(columns, entries) && UniqueEntries(entries) && AllKindsMatch(columns, entries) &&
        AllNamed(columns, entries)
  }

  /** The row the input stands for. */
  ghost predicate RowOf(columns: seq<ColumnSchema>, input: InsertInput, row: Row) {
    && Conforms(columns, row)
    && match input
       case FullRow(values) => row == values
       case NamedRow(entries) => FillsRow(columns, entries, row)
  }

  ghost predicate FilterKnown(columns: seq<ColumnSchema>, filter: Option<Expr>) {
    filter.Some? ==> FilterColumnsKnown(columns, filter.value)
  }

  ghost predicate AssignmentsOk(columns: seq<ColumnSchema>, assignments: seq<Assignment>) {
    assignments != [] && UniqueEntries(assignments) && AllKnown(columns, assignments) &&
      AllKindsMatch(columns, assignments)
  }

  // ---- which refusal is reported

  /** The filter's first unknown column, in reading order. */
  ghost predicate FilterRefused(columns: seq<ColumnSchema>, filter: Option<Expr>, e: QueryError) {
    filter.Some? && FirstUnknown(columns, FilterColumns(filter.value)) == Err(e)
  }

  ghost predicate InputRefused(columns: seq<ColumnSchema>, input: InsertInput, e: QueryError) {
    match input
    case FullRow(values) => RowRefused(columns, values, e)
    case NamedRow(entries) => InsertRefused(columns, entries, e)
  }

  ghost predicate InsertionRefused(db: Db, table: string, input: InsertInput, e: QueryError) {
    if table !in db.catalog then e == UnknownTable(table) else InputRefused(db.catalog[table].columns, input, e)
  }

  /** The filter is checked before the assignments. */
  ghost predicate UpdateRefused(db: Db, table: string, assignments: seq<Assignment>, filter: Option<Expr>,
      e: QueryError) {
    if table !in db.catalog then e == UnknownTable(table)
    else if !FilterKnown(db.catalog[table].columns, filter) then FilterRefused(db.catalog[table].columns, filter, e)
    else AssignmentsRefused(db.catalog[table].columns, assignments, e)
  }

  ghost predicate DeleteRefused(db: Db, table: string, filter: Option<Expr>, e: QueryError) {
    if table !in db.catalog then e == UnknownTable(table) else FilterRefused(db.catalog[table].columns, filter, e)
  }

  /** The filter comes first, then the projection, the sort keys and the limit. */
  ghost predicate SelectRefused(db: Db, q: Select, e: QueryError) {
    if q.table !in db.catalog then e == UnknownTable(q.table)
    else
      var columns := db.catalog[q.table].columns;
      if !FilterKnown(columns, q.filter) then FilterRefused(columns, q.filter, e)
      else if !ProjectionOk(columns, q.projection) then ProjectionRefused(columns, q.projection, e)
      else if !OrderOk(columns, q.orderBy) then OrderRefused(columns, q.orderBy, e)
      else q.limit == Some(0) && e == InvalidLimit
  }

  // ---- what the schema of a sound database gives

  lemma SchemaSound(db: Db, table: string)
    requires SoundDb(db) && table in db.catalog
    ensures UniqueColumns(db.catalog[table].columns) && LaysOut(LayoutAt(db, table), db.catalog[table].columns)
  {
    hide FirstColumnError, Width, Tiles, TableOk;
    assert TableSound(db, table);
    CompiledTiles(db.catalog[table]);
  }

  /** A schema column is found by name exactly if the layout has it, with the same type. */
  lemma SchemaColumn(layout: SchemaLayout, columns: seq<ColumnSchema>, name: string)
    requires LaysOut(layout, columns)
    ensures ResolveColumn(columns, name).Ok? <==> ColumnIndex(layout, name).Ok?
    ensures ResolveColumn(columns, name).Ok? ==> ColumnIndex(layout, name) == Ok(ResolveColumn(columns, name).value)
  {
  }

  lemma SchemaSoundIf(db: Db, table: string)
    requires SoundDb(db)
    ensures table in db.catalog ==>
              UniqueColumns(db.catalog[table].columns) && LaysOut(LayoutAt(db, table), db.catalog[table].columns)
  {
    hide SoundDb;
    if table in db.catalog {
      SchemaSound(db, table);
    }
  }

  lemma PlanKeeps(columns: seq<ColumnSchema>, assignments: seq<Assignment>, plan: seq<NormalizedAssignment>)
    requires Resolved(columns, assignments, plan)
    ensures assignments == seq(|plan|, i requires 0 <= i < |plan| => (plan[i].column, plan[i].value))
  {
  }

  lemma IndicesInside(columns: seq<ColumnSchema>, indices: seq<nat>, names: seq<string>)
    requires PointsAt(columns, indices, names)
    ensures forall i :: 0 <= i < |indices| ==> indices[i] < |columns|
  {
  }

  lemma ConformLength(columns: seq<ColumnSchema>, row: Row)
    requires Conforms(columns, row)
    ensures |row| == |columns|
  {
  }

  function Refusal(e: Option<TableError>): Result<(), QueryError> {
    match e
    case None => Ok(())
    case Some(error) => Err(TableFailure(error))
  }

  /** Some errors of the database have names of their own in the query layer. */
  function TableAnswer(r: Result<(), TableError>, table: string): Result<(), QueryError> {
    match r
    case Ok(_) => Ok(())
    case Err(TableNotFound(_)) => Err(UnknownTable(table))
    case Err(other) => Err(TableFailure(other))
  }

  function IndexAnswer(e: Option<TableError>, table: string, column: string): Result<(), QueryError> {
    match e
    case None => Ok(())
    case Some(IndexFailure(DuplicateIndex(taken))) => Err(DuplicateIndexName(taken))
    case Some(IndexFailure(UnsupportedKeyType)) => Err(UnsupportedIndexColumnType(column))
    case Some(TableNotFound(_)) => Err(UnknownTable(table))
    case Some(ColumnNotFound(_)) => Err(QueryError.UnknownColumn(column))
    case Some(other) => Err(TableFailure(other))
  }

  function DropAnswer(r: Result<(), TableError>): Result<(), QueryError> {
    match r
    case Ok(_) => Ok(())
    case Err(IndexFailure(IndexNotFound(missing))) => Err(UnknownIndex(missing))
    case Err(other) => Err(TableFailure(other))
  }

  /** How an index request is answered: the table and the column come first, a bad name next, a taken
      one last. */
  function IndexRefusal(db: Db, name: string, table: string, column: string): Result<(), QueryError> {
    if table !in db.catalog then Err(UnknownTable(table))
    else
      var i :- ResolveColumn(db.catalog[table].columns, column);
      if !db.catalog[table].columns[i].columnType.Int32? then Err(UnsupportedIndexColumnType(column))
      else if !ValidIdentifier(name) then Err(TableFailure(InvalidName(name)))
      else if name in db.indexes then Err(DuplicateIndexName(name))
      else Ok(())
  }

  /** The database refuses whatever the query layer would, with no effect, and its other refusals are
      passed on under their own names. */
  lemma IndexAnswered(db: Db, name: string, table: string, column: string)
    requires SoundDb(db)
    ensures table in db.catalog && IntSchemaColumn(db.catalog[table].columns, column) ==>
              IndexRefusal(db, name, table, column) == IndexAnswer(DbStates.CreateIndex(db, name, table, column).1,
                table, column)
    ensures !(table in db.catalog && IntSchemaColumn(db.catalog[table].columns, column)) ==>
              DbStates.CreateIndex(db, name, table, column).0 == db
  {
    hide SoundDb, RebuiltAll, Content, ValidIdentifier, UniqueColumns;
    if table in db.catalog {
      SchemaSound(db, table);
      SchemaColumn(LayoutAt(db, table), db.catalog[table].columns, column);
    }
  }

  predicate IntSchemaColumn(columns: seq<ColumnSchema>, name: string) {
    var i := ResolveColumn(columns, name);
    i.Ok? && columns[i.value].columnType.Int32?
  }

  lemma FetchedRowsConform(db: Db, table: string, filter: Option<Expr>, via: Option<string>)
    requires SoundDb(db) && table in db.catalog && Usable(db, table, filter, via)
    ensures Fetched(db, table, filter, via).Ok? ==>
              AllConform(db.catalog[table].columns, Fetched(db, table, filter, via).value)
  {
    hide TableOk, LayoutAt, LaysOut, LookupEq, ScanRows, RowsAt, AllConform;
    SchemaSound(db, table);
    SoundTable(db, table);
    var layout, columns, m := LayoutAt(db, table), db.catalog[table].columns, db.models[table];
    match via
    case None => ScannedConform(layout, columns, m, filter);
    case Some(name) =>
      assert IndexSound(db, name);
      var rids := LookupEq(db.indexFiles[name], filter.value.value.number);
      if rids.Ok? {
        FetchedConform(layout, columns, m, rids.value, |rids.value|);
      }
  }

  class QueryEngine {
    const database: Database

    constructor (database: Database)
      ensures this.database == database
    {
      this.database := database;
    }

    method LoadSchema(table: string) returns (r: Result<TableSchema, QueryError>)
      ensures r == if table in database.catalog then Ok(database.catalog[table]) else Err(UnknownTable(table))
    {
      if table in database.catalog {
        return Ok(database.catalog[table]);
      }
      return Err(UnknownTable(table));
    }

    // ---- INSERT

    method NormalizeInsertInput(columns: seq<ColumnSchema>, input: InsertInput) returns (r: Result<Row, QueryError>)
      requires UniqueColumns(columns)
      ensures r.Ok? <==> InputOk(columns, input)
      ensures r.Ok? ==> RowOf(columns, input, r.value)
      ensures r.Err? ==> InputRefused(columns, input, r.error)
    {
      match input
      case FullRow(values) =>
        var checked := ValidateRowTypes(columns, values);
        if checked.Err? {
          return Err(checked.error);
        }
        return Ok(values);
      case NamedRow(entries) =>
        r := NormalizeNamedInsert(columns, entries);
        if r.Ok? {
          FilledConforms(columns, entries, r.value);
        }
    }

    /** Refused by the schema, nothing happens; otherwise the row of the request is inserted and the
        indexes are rebuilt. */
    method ExecuteInsert(table: string, input: InsertInput) returns (r: Result<Rid, QueryError>, ghost row: Option<Row>)
      requires database.Valid() && CanInsert(database.S(), table)
      modifies database
      ensures database.Valid()
      ensures row.Some? <==> table in old(database.catalog) && InputOk(old(database.catalog)[table].columns, input)
      ensures row.None? ==> r.Err? && database.S() == old(database.S())
      ensures row.None? ==> InsertionRefused(old(database.S()), table, input, r.error)
      ensures row.Some? ==> RowOf(old(database.catalog)[table].columns, input, row.value)
      ensures row.Some? ==>
                (database.S(), r) == (InsertInto(old(database.S()), table, row.value).0,
                                      AsQuery(InsertInto(old(database.S()), table, row.value).1))
      ensures row.Some? ==>
                match r
                case Ok(rid) => Inserted(old(database.S()), table, row.value, database.S(), Ok(rid))
                case Err(e) =>
                  e.TableFailure? && Inserted(old(database.S()), table, row.value, database.S(), Err(e.error))
      ensures old(Agreed(database.S())) ==> Agreed(database.S())
    {
      hide SoundDb, FilesHold, UniqueColumns, InputOk, RowOf, InsertInto, Agreed, InputRefused, Inserted;
      row := None;
      SchemaSoundIf(database.S(), table);
      var schema :- LoadSchema(table);
      var values :- NormalizeInsertInput(schema.columns, input);
      row := Some(values);
      StaysAgreed(database.S(), InsertRequest(table, values));
      InsertEffect(database.S(), table, values);
      var inserted := InsertAndRebuild(table, values);
      return AsQuery(inserted), row;
    }

    method InsertAndRebuild(table: string, values: Row) returns (r: Result<Rid, TableError>)
      requires database.Valid() && CanInsert(database.S(), table)
      modifies database
      ensures database.Valid() && (database.S(), r) == InsertInto(old(database.S()), table, values)
    {
      hide SoundDb, FilesHold, TableOk, InsertRow, Rebuilt, R.Inv, PoolStates.Inv, RecordFiles.FileOk,
        RecordFiles.StoreIn, RecordFiles.Sequential;
      ghost var db := database.S();
      var target :- database.OpenTable(table);
      SoundTable(db, table);
      var rid := target.Insert(values);
      InsertTableOk(LayoutAt(db, table), db.models[table], values);
      database.CloseTable(table, target);
      SameModel(db, table);
      if rid.Err? {
        return Err(rid.error);
      }
      database.RebuildIndexesForTable(table);
      return Ok(rid.value);
    }

    // ---- UPDATE and DELETE

    method ValidateFilter(columns: seq<ColumnSchema>, filter: Option<Expr>) returns (r: Result<(), QueryError>)
      ensures r.Ok? <==> FilterKnown(columns, filter)
      ensures r.Err? ==> FilterRefused(columns, filter, r.error)
    {
      if filter.None? {
        return Ok(());
      }
      FilterRefusal(columns, filter.value);
      return ValidateExprColumns(columns, filter.value);
    }

    /** Refused by the schema, nothing happens; otherwise the selected rows are updated and the indexes
        rebuilt. */
    method ExecuteUpdate(table: string, assignments: seq<Assignment>, filter: Option<Expr>)
      returns (r: Result<nat, QueryError>, ghost planned: bool)
      requires database.Valid()
      modifies database
      ensures database.Valid()
      ensures planned <==>
                table in old(database.catalog) && FilterKnown(old(database.catalog)[table].columns, filter) &&
                AssignmentsOk(old(database.catalog)[table].columns, assignments)
      ensures !planned ==> r.Err? && database.S() == old(database.S())
      ensures !planned ==> UpdateRefused(old(database.S()), table, assignments, filter, r.error)
      ensures planned ==>
                (database.S(), r) == (UpdateIn(old(database.S()), table, filter, assignments).0,
                                      AsQuery(UpdateIn(old(database.S()), table, filter, assignments).1))
      ensures planned ==>
                match r
                case Ok(n) => Updated(old(database.S()), table, filter, assignments, database.S(), Ok(n))
                case Err(e) =>
                  e.TableFailure? && Updated(old(database.S()), table, filter, assignments, database.S(), Err(e.error))
      ensures old(Agreed(database.S())) ==> Agreed(database.S())
    {
      hide SoundDb, FilesHold, UniqueColumns, FilterKnown, UpdateIn, Resolved, Agreed, LaysOut, FilterRefused,
        AssignmentsRefused, AllKnown, AllKindsMatch, UniqueEntries, Updated;
      planned := false;
      SchemaSoundIf(database.S(), table);
      var schema :- LoadSchema(table);
      var checked := ValidateFilter(schema.columns, filter);
      if checked.Err? {
        return Err(checked.error), false;
      }
      var plan :- NormalizeAssignments(schema.columns, assignments);
      var named := seq(|plan|, i requires 0 <= i < |plan| => (plan[i].column, plan[i].value));
      assert named == assignments by { PlanKeeps(schema.columns, assignments, plan); }
      planned := true;
      StaysAgreed(database.S(), UpdateRequest(table, filter, named));
      UpdateEffect(database.S(), table, filter, named);
      var updated := UpdateAndRebuild(table, filter, named);
      return AsQuery(updated), true;
    }

    method UpdateAndRebuild(table: string, filter: Option<Expr>, assignments: seq<Assignment>)
      returns (r: Result<nat, TableError>)
      requires database.Valid()
      modifies database
      ensures database.Valid() && (database.S(), r) == UpdateIn(old(database.S()), table, filter, assignments)
    {
      hide SoundDb, FilesHold, TableOk, TableOps.UpdateWhere, Rebuilt, R.Inv, PoolStates.Inv, RecordFiles.FileOk,
        RecordFiles.StoreIn, RecordFiles.Sequential;
      ghost var db := database.S();
      var target :- database.OpenTable(table);
      SoundTable(db, table);
      r := target.UpdateWhere(filter, assignments);
      database.CloseTable(table, target);
      if r.Ok? {
        database.RebuildIndexesForTable(table);
      }
    }

    method ExecuteDelete(table: string, filter: Option<Expr>) returns (r: Result<nat, QueryError>, ghost planned: bool)
      requires database.Valid()
      modifies database
      ensures database.Valid()
      ensures planned <==> table in old(database.catalog) && FilterKnown(old(database.catalog)[table].columns, filter)
      ensures !planned ==> r.Err? && database.S() == old(database.S())
      ensures !planned ==> DeleteRefused(old(database.S()), table, filter, r.error)
      ensures planned ==>
                (database.S(), r) == (DeleteFrom(old(database.S()), table, filter).0,
                  AsQuery(DeleteFrom(old(database.S()), table, filter).1))
      ensures planned ==>
                match r
                case Ok(n) => Deleted(old(database.S()), table, filter, database.S(), Ok(n))
                case Err(e) =>
                  e.TableFailure? && Deleted(old(database.S()), table, filter, database.S(), Err(e.error))
      ensures old(Agreed(database.S())) ==> Agreed(database.S())
    {
      hide SoundDb, FilesHold, FilterKnown, DeleteFrom, Agreed, FilterRefused, Deleted;
      planned := false;
      var schema :- LoadSchema(table);
      var checked := ValidateFilter(schema.columns, filter);
      if checked.Err? {
        return Err(checked.error), false;
      }
      planned := true;
      StaysAgreed(database.S(), DeleteRequest(table, filter));
      DeleteEffect(database.S(), table, filter);
      var deleted := DeleteAndRebuild(table, filter);
      return AsQuery(deleted), true;
    }

    method DeleteAndRebuild(table: string, filter: Option<Expr>) returns (r: Result<nat, TableError>)
      requires database.Valid()
      modifies database
      ensures database.Valid() && (database.S(), r) == DeleteFrom(old(database.S()), table, filter)
    {
      hide SoundDb, FilesHold, TableOk, TableOps.DeleteWhere, Rebuilt, R.Inv, PoolStates.Inv, RecordFiles.FileOk,
        RecordFiles.StoreIn, RecordFiles.Sequential;
      ghost var db := database.S();
      var target :- database.OpenTable(table);
      SoundTable(db, table);
      r := target.DeleteWhere(filter);
      database.CloseTable(table, target);
      if r.Ok? {
        database.RebuildIndexesForTable(table);
      }
    }

    // ---- SELECT

    /** The index to look the filter up in, if it can be. */
    method ResolveIndexLookup(table: string, filter: Option<Expr>) returns (via: Option<string>)
      ensures Usable(database.S(), table, filter, via)
      ensures via.None? ==> forall n :: !Usable(database.S(), table, filter, Some(n))
    {
      via := None;
      if filter.Some? && filter.value.CmpValue? && filter.value.op.Eq? && filter.value.value.IntValue? {
        via := database.FindIndex(table, filter.value.column);
      }
    }

    /** The rows of a select, through an index if one can be used. */
    method FetchRows(table: string, filter: Option<Expr>)
      returns (r: Result<seq<Row>, TableError>, ghost via: Option<string>)
      requires database.Valid() && table in database.catalog
      modifies database
      ensures database.Valid() && database.S() == old(database.S())
      ensures Usable(database.S(), table, filter, via) && r == Fetched(database.S(), table, filter, via)
      ensures via.None? ==> forall n :: !Usable(database.S(), table, filter, Some(n))
    {
      hide SoundDb, FilesHold, Fetched;
      var plan := ResolveIndexLookup(table, filter);
      via := plan;
      if plan.Some? {
        r := RowsByIndex(table, filter, plan.value);
      } else {
        r := RowsByScan(table, filter);
      }
    }

    method RowsByScan(table: string, filter: Option<Expr>) returns (r: Result<seq<Row>, TableError>)
      requires database.Valid() && table in database.catalog
      modifies database
      ensures database.Valid() && database.S() == old(database.S()) && r == Fetched(database.S(), table, filter, None)
    {
      hide SoundDb, FilesHold, TableOk, CollectSpec, R.Inv, DecodeAll, LayoutAt, InBounds, Sized,
        PoolStates.Inv, RecordFiles.FileOk, RecordFiles.StoreIn, RecordFiles.Sequential;
      ghost var db := database.S();
      SoundTable(db, table);
      SameModel(db, table);
      var target := database.OpenTable(table);
      r := target.value.Scan(filter);
      assert r == ScanRows(LayoutAt(db, table), db.models[table], filter);
      database.CloseTable(table, target.value);
    }

    method RowsByIndex(table: string, filter: Option<Expr>, name: string) returns (r: Result<seq<Row>, TableError>)
      requires database.Valid() && table in database.catalog && Usable(database.S(), table, filter, Some(name))
      modifies database
      ensures database.Valid() && database.S() == old(database.S())
      ensures r == Fetched(database.S(), table, filter, Some(name))
    {
      hide SoundDb, FilesHold, TableOk, R.Inv, LayoutAt, InBounds, LookupEq, RowsAt, Current, IntColumn,
        PoolStates.Inv, RecordFiles.FileOk, RecordFiles.StoreIn, RecordFiles.Sequential;
      ghost var db := database.S();
      SoundTable(db, table);
      SameModel(db, table);
      IndexTable(db, name);
      var target := database.OpenTable(table);
      var rids := database.LookupIndexEq(name, filter.value.value.number);
      if rids.Err? {
        r := Err(IndexFailure(rids.error));
      } else {
        r := target.value.RowsByRids(rids.value);
      }
      assert r == LookupRows(LayoutAt(db, table), db.models[table], db.indexFiles[name], filter.value.value.number);
      database.CloseTable(table, target.value);
    }

    /** A select answers exactly when it can be planned and its rows can be fetched. */
    method ExecuteSelect(q: Select)
      returns (r: Result<(seq<ColumnSchema>, seq<Row>), QueryError>, ghost via: Option<string>,
               ghost keys: seq<OrderKey>, ghost indices: seq<nat>)
      requires database.Valid()
      modifies database
      ensures database.Valid() && database.S() == old(database.S())
      ensures Usable(database.S(), q.table, q.filter, via)
      ensures r.Ok? <==> q.table in database.catalog && Plannable(database.catalog[q.table].columns, q) &&
                         Fetched(database.S(), q.table, q.filter, via).Ok?
      ensures r.Ok? && via.None? ==> forall n :: !Usable(database.S(), q.table, q.filter, Some(n))
      ensures r.Err? ==> if q.table in database.catalog && Plannable(database.catalog[q.table].columns, q)
                         then AsQuery(Fetched(database.S(), q.table, q.filter, via)) == Err(r.error)
                         else SelectRefused(database.S(), q, r.error)
      ensures q.table in database.catalog && Agreed(database.S()) ==>
                Fetched(database.S(), q.table, q.filter, via) == Fetched(database.S(), q.table, q.filter, None)
      ensures r.Ok? && (via.None? || Agreed(database.S())) ==>
                Found(database.S(), q.table, q.filter, Fetched(database.S(), q.table, q.filter, via).value)
      ensures r.Ok? ==>
                var columns := database.catalog[q.table].columns;
                var rows := Fetched(database.S(), q.table, q.filter, via).value;
                && AllConform(columns, rows) && Answers(columns, rows, q, keys, indices, r.value.1)
                && |r.value.0| == |indices|
                && forall k :: 0 <= k < |indices| ==> r.value.0[k] == columns[indices[k]]
    {
      hide SoundDb, FilesHold, Fetched, UniqueColumns, AllConform, FilterColumnsKnown, Current, KeysFor, PointsAt,
        ProjectionOk, OrderOk, ProjectedNames, FilterRefused, ProjectionRefused, OrderRefused, Found;
      via, keys, indices := None, [], [];
      SchemaSoundIf(database.S(), q.table);
      var schema :- LoadSchema(q.table);
      var columns := schema.columns;
      var checked := ValidateFilter(columns, q.filter);
      if checked.Err? {
        return Err(checked.error), via, keys, indices;
      }
      var projection :- ResolveProjection(columns, q.projection);
      var order :- ResolveOrderBy(columns, q.orderBy);
      var limit :- NormalizeLimit(q.limit);
      keys, indices := order, projection;
      var fetched;
      fetched, via := FetchRows(q.table, q.filter);
      if via.Some? && Agreed(database.S()) {
        SelectSame(database.S(), q.table, q.filter, via.value);
      }
      FetchedMeans(database.S(), q.table, q.filter);
      if fetched.Err? {
        return Err(TableFailure(fetched.error)), via, keys, indices;
      }
      FetchedRowsConform(database.S(), q.table, q.filter, via);
      var out := Finish(columns, fetched.value, q, order, projection);
      IndicesInside(columns, projection, ProjectedNames(columns, q.projection));
      var projected := seq(|projection|, i requires 0 <= i < |projection| => columns[projection[i]]);
      return Ok((projected, out)), via, keys, indices;
    }

    /** Orders the rows, cuts them off and projects them. */
    method Finish(columns: seq<ColumnSchema>, rows: seq<Row>, q: Select, keys: seq<OrderKey>,
        indices: seq<nat>) returns (out: seq<Row>)
      requires AllConform(columns, rows) && KeysFor(columns, q.orderBy, keys)
      requires PointsAt(columns, indices, ProjectedNames(columns, q.projection))
      ensures Answers(columns, rows, q, keys, indices, out)
    {
      hide Conforms, KeysFor, ProjectedNames, Alike;
      KeysFit(columns, rows, q.orderBy, keys);
      ArrangedLengths(columns, rows, keys, q.limit);
      var kept := ApplyLimit(ApplyOrderBy(rows, keys), q.limit);
      forall i | 0 <= i < |kept| ensures |kept[i]| == |columns| {
        ConformLength(columns, kept[i]);
      }
      return ProjectAll(kept, indices);
    }

    // ---- tables and indexes

    method ExecuteCreateTable(schema: TableSchema) returns (r: Result<(), QueryError>)
      requires database.Valid()
      modifies database
      ensures database.Valid() && database.S() == DbStates.CreateTable(old(database.S()), schema).0
      ensures r == Refusal(DbStates.CreateTable(old(database.S()), schema).1)
      ensures old(Agreed(database.S())) ==> Agreed(database.S())
    {
      hide SoundDb, FilesHold, DbStates.CreateTable, Agreed;
      StaysAgreed(database.S(), CreateTableRequest(schema));
      var created := database.CreateTable(schema);
      return Refusal(ErrorOf(created));
    }

    method ExecuteDropTable(table: string) returns (r: Result<(), QueryError>)
      requires database.Valid()
      modifies database
      ensures database.Valid() && database.S() == DbStates.DropTable(old(database.S()), table).0
      ensures r == if table in old(database.catalog) then Ok(()) else Err(UnknownTable(table))
      ensures old(Agreed(database.S())) ==> Agreed(database.S())
    {
      hide SoundDb, FilesHold, Agreed;
      StaysAgreed(database.S(), DropTableRequest(table));
      var dropped := database.DropTable(table);
      return TableAnswer(dropped, table);
    }

    /** Checks the table and the column first, then asks the database; a request with an index name that
        is taken is refused, but not without effect. */
    method ExecuteCreateIndex(name: string, table: string, column: string) returns (r: Result<(), QueryError>)
      requires database.Valid()
      modifies database
      ensures database.Valid() && database.S() == DbStates.CreateIndex(old(database.S()), name, table, column).0
      ensures r == IndexRefusal(old(database.S()), name, table, column)
      ensures old(Agreed(database.S())) ==>
                (Agreed(database.S()) <==> old(Harmless(database.S(), CreateIndexRequest(name, table, column))))
    {
      hide SoundDb, FilesHold, DbStates.CreateIndex, Agreed, Harmless, IndexAnswer, UniqueColumns, LaysOut,
        ValidIdentifier;
      ghost var db := database.S();
      SchemaSoundIf(db, table);
      if Agreed(db) {
        StepAgreed(db, CreateIndexRequest(name, table, column));
      }
      IndexAnswered(db, name, table, column);
      var schema :- LoadSchema(table);
      var i :- ResolveColumn(schema.columns, column);
      if !schema.columns[i].columnType.Int32? {
        return Err(UnsupportedIndexColumnType(column));
      }
      var created := database.CreateIndex(name, table, column);
      return IndexAnswer(ErrorOf(created), table, column);
    }

    method ExecuteDropIndex(name: string) returns (r: Result<(), QueryError>)
      requires database.Valid()
      modifies database
      ensures database.Valid() && database.S() == DbStates.DropIndex(old(database.S()), name).0
      ensures r == if name in old(database.indexes) then Ok(()) else Err(UnknownIndex(name))
      ensures old(Agreed(database.S())) ==> Agreed(database.S())
    {
      hide SoundDb, FilesHold, Agreed;
      StaysAgreed(database.S(), DropIndexRequest(name));
      var dropped := database.DropIndex(name);
      return DropAnswer(dropped);
    }
  }

  lemma FilledConforms(columns: seq<ColumnSchema>, entries: seq<Named>, row: Row)
    requires AllNamed(columns, entries) && AllKindsMatch(columns, entries) && FillsRow(columns, entries, row)
    ensures Conforms(columns, row)
  {
    hide KindMatches;
    forall i | 0 <= i < |row| ensures KindMatches(columns[i].columnType, row[i]) {
      assert NamesColumn(entries, columns[i].name);
      var k :| 0 <= k < |entries| && entries[k].0 == columns[i].name;
      assert columns[i].name == entries[k].0;
    }
  }
}
