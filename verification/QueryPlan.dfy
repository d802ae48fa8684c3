/** Checking and normalising requests against a table's schema. */
module QueryPlan {
  import opened Outcomes
  import opened RowCodec
  import opened ExprCompiler
  import opened OrderBy

  datatype QueryError =
    | TableFailure(error: TableError)
    | UnknownTable(table: string)
    | DuplicateIndexName(name: string)
    | UnknownIndex(name: string)
    | UnsupportedIndexColumnType(column: string)
    | UnknownColumn(column: string)
    | DuplicateUpdateColumn(column: string)
    | DuplicateOrderColumn(column: string)
    | DuplicateRequestColumn(column: string)
    | MissingRequestColumn(column: string)
    | InvalidLimit
    | EmptyAssignments
    | QueryCountMismatch(expected: nat, actual: nat)
    | QueryTypeMismatch(column: string)

  type Named = (string, Value)

  predicate KindMatches(t: ColumnType, v: Value) {
    match (t, v)
    case (Int32, IntValue(_)) => true
    case (Float32, FloatValue(_)) => true
    case (Char(_), CharValue(_)) => true
    case _ => false
  }

  function ResolveColumn(columns: seq<ColumnSchema>, name: string): (r: Result<nat, QueryError>)
    ensures r.Ok? ==> r.value < |columns| && columns[r.value].name == name
    ensures r.Ok? <==> HasColumn(columns, name)
    ensures r.Err? ==> r.error == UnknownColumn(name)
  {
    var i := IndexNamed(columns, (c: ColumnSchema) => c.name, name, 0);
    if i < |columns| then Ok(i) else Err(UnknownColumn(name))
  }

  predicate HasColumn(columns: seq<ColumnSchema>, name: string) {
    exists i :: 0 <= i < |columns| && columns[i].name == name
  }

  ghost predicate UniqueColumns(columns: seq<ColumnSchema>) {
    forall i, j :: 0 <= i < j < |columns| ==> columns[i].name != columns[j].name
  }

  predicate NamesColumn(entries: seq<Named>, name: string) {
    exists k :: 0 <= k < |entries| && entries[k].0 == name
  }

  ghost predicate UniqueEntries(entries: seq<Named>) {
    forall i, j :: 0 <= i < j < |entries| ==> entries[i].0 != entries[j].0
  }

  ghost predicate AllKnown(columns: seq<ColumnSchema>, entries: seq<Named>) {
    forall k :: 0 <= k < |entries| ==> HasColumn(columns, entries[k].0)
  }

  ghost predicate AllKindsMatch(columns: seq<ColumnSchema>, entries: seq<Named>) {
    forall i, k :: 0 <= i < |columns| && 0 <= k < |entries| && columns[i].name == entries[k].0 ==>
      KindMatches(columns[i].columnType, entries[k].1)
  }

  // ---- INSERT

  /** The values before column i are of their columns' kinds. */
  ghost predicate RowFits(columns: seq<ColumnSchema>, values: Row, i: nat)
    requires i <= |columns| == |values|
  {
    forall j :: 0 <= j < i ==> KindMatches(columns[j].columnType, values[j])
  }

  /** Why a full row is refused: its length, or else the first value of a wrong kind. */
  ghost predicate RowRefused(columns: seq<ColumnSchema>, values: Row, e: QueryError) {
    if |values| != |columns| then e == QueryCountMismatch(|columns|, |values|)
    else exists i {:trigger RowFits(columns, values, i)} :: 0 <= i < |columns| && RowFits(columns, values, i) &&
           !KindMatches(columns[i].columnType, values[i]) && e == QueryTypeMismatch(columns[i].name)
  }

  /** A full row: one value of the right kind per column. */
  method ValidateRowTypes(columns: seq<ColumnSchema>, values: Row) returns (r: Result<(), QueryError>)
    ensures r.Ok? <==> |values| == |columns| && RowFits(columns, values, |columns|)
    ensures r.Err? ==> RowRefused(columns, values, r.error)
  {
    if |values| != |columns| {
      return Err(QueryCountMismatch(|columns|, |values|));
    }
    for i := 0 to |columns|
      invariant RowFits(columns, values, i)
    {
      if KindMatches(columns[i].columnType, values[i]) {
        continue;
      }
      return Err(QueryTypeMismatch(columns[i].name));
    }
    return Ok(());
  }

  /** Entry k is the first that names an unknown column, or one named before. */
  ghost predicate EntryRefused(columns: seq<ColumnSchema>, entries: seq<Named>, k: nat, e: QueryError) {
    && k < |entries| && AllKnown(columns, entries[..k]) && UniqueEntries(entries[..k])
    && if !HasColumn(columns, entries[k].0) then e == UnknownColumn(entries[k].0)
       else NamesColumn(entries[..k], entries[k].0) && e == DuplicateRequestColumn(entries[k].0)
  }

  /** The entries give column i a value of its kind. */
  ghost predicate ColumnGiven(column: ColumnSchema, entries: seq<Named>) {
    exists k :: 0 <= k < |entries| && entries[k].0 == column.name && KindMatches(column.columnType, entries[k].1)
  }

  ghost predicate GivenBefore(columns: seq<ColumnSchema>, entries: seq<Named>, i: nat)
    requires i <= |columns|
  {
    forall j :: 0 <= j < i ==> ColumnGiven(columns[j], entries)
  }

  /** Column i is the first without a value, or with one of a wrong kind. */
  ghost predicate ColumnRefused(columns: seq<ColumnSchema>, entries: seq<Named>, i: nat, e: QueryError) {
    && i < |columns| && GivenBefore(columns, entries, i) && !ColumnGiven(columns[i], entries)
    && e == if NamesColumn(entries, columns[i].name) then QueryTypeMismatch(columns[i].name)
            else MissingRequestColumn(columns[i].name)
  }

  /** Why a named insert is refused: its entries come first, then the columns of the schema. */
  ghost predicate InsertRefused(columns: seq<ColumnSchema>, entries: seq<Named>, e: QueryError) {
    if AllKnown(columns, entries) && UniqueEntries(entries) then exists i: nat :: ColumnRefused(columns, entries, i, e)
    else exists k: nat :: EntryRefused(columns, entries, k, e)
  }

  /** The row holds, in schema order, the value given for each column. */
  ghost predicate FillsRow(columns: seq<ColumnSchema>, entries: seq<Named>, row: Row) {
    && |row| == |columns|
    && forall i, k :: 0 <= i < |columns| && 0 <= k < |entries| && columns[i].name == entries[k].0 ==>
       row[i] == entries[k].1
  }

  ghost predicate AllNamed(columns: seq<ColumnSchema>, entries: seq<Named>) {
    forall i :: 0 <= i < |columns| ==> NamesColumn(entries, columns[i].name)
  }

  /** A named insert succeeds exactly when every column is named once, with a value of its kind, and
      nothing else is named; the values then stand in schema order. */
  method NormalizeNamedInsert(columns: seq<ColumnSchema>, entries: seq<Named>) returns (r: Result<Row, QueryError>)
    requires UniqueColumns(columns)
    ensures r.Ok? <==>
              AllKnown(columns, entries) && UniqueEntries(entries) && AllKindsMatch(columns, entries) &&
              AllNamed(columns, entries)
    ensures r.Ok? ==> FillsRow(columns, entries, r.value)
    ensures r.Err? ==> InsertRefused(columns, entries, r.error)
  {
    hide KindMatches, AllKnown, UniqueEntries, EntryRefused, NamesColumn, AllKindsMatch, ColumnRefused, FillsRow;
    var byColumn :- ValuesByColumn(columns, entries);
    r := InSchemaOrder(columns, byColumn);
    if r.Ok? {
      AllSupplied(columns, entries, byColumn);
      RowFilled(columns, entries, byColumn, r.value);
    } else {
      ghost var i: nat :| FirstUnsupplied(columns, byColumn, i) && r.error == ColumnBlame(columns[i], byColumn);
      FirstRefused(columns, entries, byColumn, i);
    }
  }

  /** The map holds the entries' values. */
  ghost predicate Collects(entries: seq<Named>, given: map<string, Value>) {
    && (forall k :: 0 <= k < |entries| ==> entries[k].0 in given && given[entries[k].0] == entries[k].1)
    && (forall c :: c in given ==> NamesColumn(entries, c))
  }

  lemma AllSupplied(columns: seq<ColumnSchema>, entries: seq<Named>, given: map<string, Value>)
    requires UniqueEntries(entries) && Collects(entries, given)
    requires forall i :: 0 <= i < |columns| ==> Supplied(columns[i], given)
    ensures AllKindsMatch(columns, entries) && AllNamed(columns, entries)
  {
    hide KindMatches;
    forall i, k | 0 <= i < |columns| && 0 <= k < |entries| && columns[i].name == entries[k].0
      ensures KindMatches(columns[i].columnType, entries[k].1)
    {
      assert Supplied(columns[i], given);
    }
    forall i | 0 <= i < |columns| ensures NamesColumn(entries, columns[i].name) {
      assert Supplied(columns[i], given);
    }
  }

  lemma RowFilled(columns: seq<ColumnSchema>, entries: seq<Named>, given: map<string, Value>, row: Row)
    requires Collects(entries, given)
    requires |row| == |columns| && forall i :: 0 <= i < |columns| ==>
              columns[i].name in given && row[i] == given[columns[i].name]
    ensures FillsRow(columns, entries, row)
  {
  }

  lemma FirstRefused(columns: seq<ColumnSchema>, entries: seq<Named>, given: map<string, Value>, i: nat)
    requires UniqueEntries(entries) && Collects(entries, given) && FirstUnsupplied(columns, given, i)
    ensures ColumnRefused(columns, entries, i, ColumnBlame(columns[i], given))
    ensures !(AllKindsMatch(columns, entries) && AllNamed(columns, entries))
  {
    hide KindMatches;
    SuppliedIsGiven(columns[i], entries, given);
    forall j | 0 <= j < i ensures ColumnGiven(columns[j], entries) {
      SuppliedIsGiven(columns[j], entries, given);
    }
    if AllNamed(columns, entries) {
      assert NamesColumn(entries, columns[i].name);
      var k :| 0 <= k < |entries| && entries[k].0 == columns[i].name;
      assert columns[i].name == entries[k].0;
    }
  }

  lemma SuppliedIsGiven(column: ColumnSchema, entries: seq<Named>, given: map<string, Value>)
    requires UniqueEntries(entries)
    requires Collects(entries, given)
    ensures Supplied(column, given) <==> ColumnGiven(column, entries)
    ensures column.name in given <==> NamesColumn(entries, column.name)
  {
    hide KindMatches;
  }

  predicate Supplied(column: ColumnSchema, given: map<string, Value>) {
    column.name in given && KindMatches(column.columnType, given[column.name])
  }

  /** Takes each column's value out of the map, in schema order; under unique column names that never
      hides a later column's value. */
  method InSchemaOrder(columns: seq<ColumnSchema>, given: map<string, Value>) returns (r: Result<Row, QueryError>)
    requires UniqueColumns(columns)
    ensures r.Ok? <==> forall i :: 0 <= i < |columns| ==> Supplied(columns[i], given)
    ensures r.Ok? ==> |r.value| == |columns| && forall i :: 0 <= i < |columns| ==> r.value[i] == given[columns[i].name]
    ensures r.Err? ==> exists i: nat :: FirstUnsupplied(columns, given, i) && r.error == ColumnBlame(columns[i], given)
  {
    hide KindMatches;
    var byColumn, ordered: Row := given, [];
    for i := 0 to |columns|
      invariant |ordered| == i
      invariant forall j :: i <= j < |columns| ==> (columns[j].name in byColumn <==> columns[j].name in given)
      invariant forall c :: c in byColumn ==> c in given && byColumn[c] == given[c]
      invariant forall j :: 0 <= j < i ==> Supplied(columns[j], given) && ordered[j] == given[columns[j].name]
    {
      var column := columns[i];
      if column.name !in byColumn {
        assert FirstUnsupplied(columns, given, i);
        return Err(MissingRequestColumn(column.name));
      }
      var value := byColumn[column.name];
      byColumn := byColumn - {column.name};
      if !KindMatches(column.columnType, value) {
        assert FirstUnsupplied(columns, given, i);
        return Err(QueryTypeMismatch(column.name));
      }
      ordered := ordered + [value];
    }
    return Ok(ordered);
  }

  ghost predicate FirstUnsupplied(columns: seq<ColumnSchema>, given: map<string, Value>, i: nat) {
    && i < |columns| && !Supplied(columns[i], given)
    && forall j :: 0 <= j < i ==> Supplied(columns[j], given)
  }

  function ColumnBlame(column: ColumnSchema, given: map<string, Value>): QueryError {
    if column.name in given then QueryTypeMismatch(column.name) else MissingRequestColumn(column.name)
  }

  /** The values by column name, unless a column is unknown or named twice. */
  method ValuesByColumn(columns: seq<ColumnSchema>, entries: seq<Named>)
    returns (r: Result<map<string, Value>, QueryError>)
    ensures r.Ok? <==> AllKnown(columns, entries) && UniqueEntries(entries)
    ensures r.Ok? ==> Collects(entries, r.value)
    ensures r.Err? ==> exists k: nat :: EntryRefused(columns, entries, k, r.error)
  {
    hide HasColumn, NamesColumn, UniqueEntries, KindMatches;
    var seen: set<string>, byColumn: map<string, Value> := {}, map[];
    NoneYet(entries);
    for k := 0 to |entries|
      invariant forall j :: 0 <= j < k ==> HasColumn(columns, entries[j].0)
      invariant UniqueEntries(entries[..k])
      invariant forall c :: c in seen <==> NamesColumn(entries[..k], c)
      invariant byColumn.Keys == seen
      invariant forall j :: 0 <= j < k ==> entries[j].0 in byColumn && byColumn[entries[j].0] == entries[j].1
    {
      var (column, value) := entries[k];
      NamedNext(entries, k);
      if !HasColumn(columns, column) {
        assert EntryRefused(columns, entries, k, UnknownColumn(column));
        return Err(UnknownColumn(column));
      }
      if column in seen {
        NamedTwice(entries, k);
        assert EntryRefused(columns, entries, k, DuplicateRequestColumn(column));
        return Err(DuplicateRequestColumn(column));
      }
      UniqueNext(entries, k);
      seen := seen + {column};
      EarlierNamed(entries, k);
      byColumn := byColumn[column := value];
    }
    assert entries[..|entries|] == entries;
    return Ok(byColumn);
  }

  lemma NoneYet(entries: seq<Named>)
    ensures UniqueEntries(entries[..0]) && forall c :: !NamesColumn(entries[..0], c)
  {
  }

  lemma EarlierNamed(entries: seq<Named>, k: nat)
    requires k < |entries|
    ensures forall j :: 0 <= j < k ==> NamesColumn(entries[..k], entries[j].0)
  {
    forall j | 0 <= j < k ensures NamesColumn(entries[..k], entries[j].0) {
      assert entries[..k][j].0 == entries[j].0;
    }
  }

  lemma NamedTwice(entries: seq<Named>, k: nat)
    requires k < |entries| && NamesColumn(entries[..k], entries[k].0)
    ensures !UniqueEntries(entries)
  {
    var j :| 0 <= j < k && entries[..k][j].0 == entries[k].0;
    assert entries[j].0 == entries[k].0;
  }

  lemma UniqueNext(entries: seq<Named>, k: nat)
    requires k < |entries| && UniqueEntries(entries[..k]) && !NamesColumn(entries[..k], entries[k].0)
    ensures UniqueEntries(entries[..k + 1])
  {
    forall i, j | 0 <= i < j < k + 1 ensures entries[i].0 != entries[j].0 {
      assert entries[..k][i].0 == entries[i].0;
      assert j < k ==> entries[..k][j].0 == entries[j].0;
    }
  }

  lemma NamedNext(entries: seq<Named>, k: nat)
    requires k < |entries|
    ensures forall c :: NamesColumn(entries[..k + 1], c) <==> NamesColumn(entries[..k], c) || c == entries[k].0
  {
    assert entries[..k + 1] == entries[..k] + [entries[k]];
    forall c ensures NamesColumn(entries[..k + 1], c) <==> NamesColumn(entries[..k], c) || c == entries[k].0 {
      if NamesColumn(entries[..k], c) {
        var j :| 0 <= j < k && entries[..k][j].0 == c;
        assert entries[..k + 1][j].0 == c;
      }
      assert entries[..k + 1][k] == entries[k];
      if NamesColumn(entries[..k + 1], c) && c != entries[k].0 {
        var j :| 0 <= j < k + 1 && entries[..k + 1][j].0 == c;
        assert entries[..k][j].0 == c;
      }
    }
  }

  // ---- UPDATE

  datatype NormalizedAssignment = NormalizedAssignment(index: nat, column: string, value: Value)

  /** Assignment k is the first that names a column again, an unknown one, or one of another kind. */
  ghost predicate AssignmentRefused(columns: seq<ColumnSchema>, assignments: seq<Named>, k: nat, e: QueryError) {
    && k < |assignments| && AllKnown(columns, assignments[..k]) && UniqueEntries(assignments[..k])
    && AllKindsMatch(columns, assignments[..k])
    && var c := assignments[k].0;
       if NamesColumn(assignments[..k], c) then e == DuplicateUpdateColumn(c)
       else if !HasColumn(columns, c) then e == UnknownColumn(c)
       else !AllKindsMatch(columns, [assignments[k]]) && e == QueryTypeMismatch(c)
  }

  /** Why assignments are refused. */
  ghost predicate AssignmentsRefused(columns: seq<ColumnSchema>, assignments: seq<Named>, e: QueryError) {
    if assignments == [] then e == EmptyAssignments
    else exists k: nat :: AssignmentRefused(columns, assignments, k, e)
  }

  /** The same assignments in the same order, each with the index of its column. */
  ghost predicate Resolved(columns: seq<ColumnSchema>, assignments: seq<Named>, normalized: seq<NormalizedAssignment>) {
    && |normalized| == |assignments|
    && forall k :: 0 <= k < |assignments| ==>
         && (normalized[k].column, normalized[k].value) == assignments[k]
         && normalized[k].index < |columns| && columns[normalized[k].index].name == assignments[k].0
  }

  /** Assignments are accepted exactly when there is at least one, no column is assigned twice, all
      columns exist and all values are of their column's kind. */
  method NormalizeAssignments(columns: seq<ColumnSchema>, assignments: seq<Named>)
    returns (r: Result<seq<NormalizedAssignment>, QueryError>)
    requires UniqueColumns(columns)
    ensures r.Ok? <==>
              assignments != [] && UniqueEntries(assignments) && AllKnown(columns, assignments) &&
              AllKindsMatch(columns, assignments)
    ensures r.Ok? ==> Resolved(columns, assignments, r.value)
    ensures r.Err? ==> AssignmentsRefused(columns, assignments, r.error)
  {
    hide KindMatches, HasColumn, NamesColumn, UniqueEntries, AllKnown, AllKindsMatch;
    if assignments == [] {
      return Err(EmptyAssignments);
    }
    var seen: set<string>, normalized: seq<NormalizedAssignment> := {}, [];
    NoneYet(assignments);
    NothingAssigned(columns, assignments);
    for k := 0 to |assignments|
      invariant |normalized| == k
      invariant UniqueEntries(assignments[..k]) && AllKnown(columns, assignments[..k])
      invariant AllKindsMatch(columns, assignments[..k])
      invariant forall c :: c in seen <==> NamesColumn(assignments[..k], c)
      invariant forall j :: 0 <= j < k ==>
                  && (normalized[j].column, normalized[j].value) == assignments[j]
                  && normalized[j].index < |columns| && columns[normalized[j].index].name == assignments[j].0
    {
      var (column, value) := assignments[k];
      NamedNext(assignments, k);
      AssignedNext(columns, assignments, k);
      if column in seen {
        NamedTwice(assignments, k);
        assert AssignmentRefused(columns, assignments, k, DuplicateUpdateColumn(column));
        return Err(DuplicateUpdateColumn(column));
      }
      UniqueNext(assignments, k);
      seen := seen + {column};
      var index := ResolveColumn(columns, column);
      if index.Err? {
        assert AssignmentRefused(columns, assignments, k, UnknownColumn(column));
        return Err(index.error);
      }
      OneKind(columns, assignments[k], index.value);
      if !KindMatches(columns[index.value].columnType, value) {
        assert AssignmentRefused(columns, assignments, k, QueryTypeMismatch(column));
        return Err(QueryTypeMismatch(column));
      }
      normalized := normalized + [NormalizedAssignment(index.value, column, value)];
    }
    assert assignments[..|assignments|] == assignments;
    return Ok(normalized);
  }

  lemma NothingAssigned(columns: seq<ColumnSchema>, assignments: seq<Named>)
    ensures AllKnown(columns, assignments[..0]) && AllKindsMatch(columns, assignments[..0])
  {
  }

  /** Whether the assignments up to k are fine, from those before and assignment k. */
  lemma AssignedNext(columns: seq<ColumnSchema>, assignments: seq<Named>, k: nat)
    requires k < |assignments|
    ensures AllKnown(columns, assignments[..k + 1]) <==>
              AllKnown(columns, assignments[..k]) && HasColumn(columns, assignments[k].0)
    ensures AllKindsMatch(columns, assignments[..k + 1]) <==>
              AllKindsMatch(columns, assignments[..k]) && AllKindsMatch(columns, [assignments[k]])
    ensures AllKnown(columns, assignments) ==> HasColumn(columns, assignments[k].0)
    ensures AllKindsMatch(columns, assignments) ==> AllKindsMatch(columns, [assignments[k]])
  {
    hide KindMatches, HasColumn;
    var next := assignments[..k + 1];
    assert next == assignments[..k] + [assignments[k]];
    if AllKnown(columns, assignments[..k]) && HasColumn(columns, assignments[k].0) {
      forall j | 0 <= j < k + 1 ensures HasColumn(columns, next[j].0) {
        assert j < k ==> next[j] == assignments[..k][j];
      }
    }
    if AllKnown(columns, next) {
      assert HasColumn(columns, next[k].0);
      forall j | 0 <= j < k ensures HasColumn(columns, assignments[..k][j].0) {
        assert next[j] == assignments[..k][j];
      }
    }
    if AllKindsMatch(columns, assignments[..k]) && AllKindsMatch(columns, [assignments[k]]) {
      forall i, j | 0 <= i < |columns| && 0 <= j < k + 1 && columns[i].name == next[j].0
        ensures KindMatches(columns[i].columnType, next[j].1)
      {
        assert j < k ==> next[j] == assignments[..k][j];
        assert j == k ==> next[j] == [assignments[k]][0];
      }
    }
    if AllKindsMatch(columns, next) {
      forall i, j | 0 <= i < |columns| && 0 <= j < k && columns[i].name == assignments[..k][j].0
        ensures KindMatches(columns[i].columnType, assignments[..k][j].1)
      {
        assert next[j] == assignments[..k][j];
      }
      forall i | 0 <= i < |columns| && columns[i].name == assignments[k].0
        ensures KindMatches(columns[i].columnType, assignments[k].1)
      {
        assert next[k] == assignments[k];
      }
    }
  }

  lemma OneKind(columns: seq<ColumnSchema>, assignment: Named, i: nat)
    requires UniqueColumns(columns) && i < |columns| && columns[i].name == assignment.0
    ensures AllKindsMatch(columns, [assignment]) <==> KindMatches(columns[i].columnType, assignment.1)
  {
    hide KindMatches;
    assert [assignment][0] == assignment;
  }

  // ---- SELECT

  datatype Projection = AllColumns | Columns(names: seq<string>)

  ghost predicate UniqueNamesIn(names: seq<string>) {
    forall i, j :: 0 <= i < j < |names| ==> names[i] != names[j]
  }

  function ProjectedNames(columns: seq<ColumnSchema>, p: Projection): seq<string> {
    match p
    case AllColumns => seq(|columns|, i requires 0 <= i < |columns| => columns[i].name)
    case Columns(names) => names
  }

  /** The projected columns exist and none is named twice. */
  ghost predicate ProjectionOk(columns: seq<ColumnSchema>, p: Projection) {
    UniqueNamesIn(ProjectedNames(columns, p)) && AllKnownNames(columns, ProjectedNames(columns, p))
  }

  ghost predicate AllKnownNames(columns: seq<ColumnSchema>, names: seq<string>) {
    forall k :: 0 <= k < |names| ==> HasColumn(columns, names[k])
  }

  /** The indices point at the columns of these names, in this order. */
  ghost predicate PointsAt(columns: seq<ColumnSchema>, indices: seq<nat>, names: seq<string>) {
    |indices| == |names| && forall k :: 0 <= k < |indices| ==>
      indices[k] < |columns| && columns[indices[k]].name == names[k]
  }

  lemma AllColumnsOk(columns: seq<ColumnSchema>)
    requires UniqueColumns(columns)
    ensures ProjectionOk(columns, AllColumns)
  {
    assert forall k :: 0 <= k < |columns| ==> columns[k].name == ProjectedNames(columns, AllColumns)[k];
  }

  /** Name k is the first that was named before or is unknown. */
  ghost predicate NameRefused(columns: seq<ColumnSchema>, names: seq<string>, k: nat, e: QueryError) {
    && k < |names| && UniqueNamesIn(names[..k]) && AllKnownNames(columns, names[..k])
    && if names[k] in names[..k] then e == DuplicateRequestColumn(names[k])
       else !HasColumn(columns, names[k]) && e == UnknownColumn(names[k])
  }

  ghost predicate ProjectionRefused(columns: seq<ColumnSchema>, p: Projection, e: QueryError) {
    exists k: nat :: NameRefused(columns, ProjectedNames(columns, p), k, e)
  }

  /** A projection resolves exactly when its columns exist and none is named twice; the indices then
      point at the named columns in the requested order. */
  method ResolveProjection(columns: seq<ColumnSchema>, p: Projection) returns (r: Result<seq<nat>, QueryError>)
    requires UniqueColumns(columns)
    ensures r.Ok? <==> ProjectionOk(columns, p)
    ensures r.Ok? ==> PointsAt(columns, r.value, ProjectedNames(columns, p))
    ensures r.Err? ==> ProjectionRefused(columns, p, r.error)
  {
    hide HasColumn;
    if p.AllColumns? {
      AllColumnsOk(columns);
      return Ok(seq(|columns|, i => i));
    }
    var seen: set<string>, indices: seq<nat> := {}, [];
    for k := 0 to |p.names|
      invariant |indices| == k && UniqueNamesIn(p.names[..k]) && AllKnownNames(columns, p.names[..k])
      invariant forall j :: 0 <= j < k ==> indices[j] < |columns| && columns[indices[j]].name == p.names[j]
      invariant forall c :: c in seen <==> c in p.names[..k]
    {
      if p.names[k] in seen {
        assert NameRefused(columns, p.names, k, DuplicateRequestColumn(p.names[k]));
        return Err(DuplicateRequestColumn(p.names[k]));
      }
      seen := seen + {p.names[k]};
      var index := ResolveColumn(columns, p.names[k]);
      if index.Err? {
        assert NameRefused(columns, p.names, k, UnknownColumn(p.names[k]));
        return Err(index.error);
      }
      indices := indices + [index.value];
    }
    assert p.names[..|p.names|] == p.names;
    return Ok(indices);
  }

  datatype OrderItem = OrderItem(column: string, desc: bool)

  ghost predicate UniqueItems(items: seq<OrderItem>) {
    forall i, j :: 0 <= i < j < |items| ==> items[i].column != items[j].column
  }

  ghost predicate OrderOk(columns: seq<ColumnSchema>, items: seq<OrderItem>) {
    UniqueItems(items) && forall k :: 0 <= k < |items| ==> HasColumn(columns, items[k].column)
  }

  ghost predicate KeysFor(columns: seq<ColumnSchema>, items: seq<OrderItem>, keys: seq<OrderKey>) {
    && |keys| == |items|
    && forall k :: 0 <= k < |items| ==>
         keys[k].index < |columns| && columns[keys[k].index].name == items[k].column && keys[k].desc == items[k].desc
  }

  /** Item k is the first whose column was named before or is unknown. */
  ghost predicate ItemRefused(columns: seq<ColumnSchema>, items: seq<OrderItem>, k: nat, e: QueryError) {
    && k < |items| && OrderOk(columns, items[..k])
    && if exists j :: 0 <= j < k && items[j].column == items[k].column then e == DuplicateOrderColumn(items[k].column)
       else !HasColumn(columns, items[k].column) && e == UnknownColumn(items[k].column)
  }

  ghost predicate OrderRefused(columns: seq<ColumnSchema>, items: seq<OrderItem>, e: QueryError) {
    exists k: nat :: ItemRefused(columns, items, k, e)
  }

  /** Sort keys resolve exactly when their columns exist and none is named twice. */
  method ResolveOrderBy(columns: seq<ColumnSchema>, items: seq<OrderItem>)
    returns (r: Result<seq<OrderKey>, QueryError>)
    ensures r.Ok? <==> OrderOk(columns, items)
    ensures r.Ok? ==> KeysFor(columns, items, r.value)
    ensures r.Err? ==> OrderRefused(columns, items, r.error)
  {
    hide HasColumn;
    var seen: set<string>, keys: seq<OrderKey> := {}, [];
    for k := 0 to |items|
      invariant |keys| == k && OrderOk(columns, items[..k])
      invariant forall j :: 0 <= j < k ==>
                  keys[j].index < |columns| && columns[keys[j].index].name == items[j].column &&
                    keys[j].desc == items[j].desc
      invariant forall c :: c in seen <==> exists j :: 0 <= j < k && items[j].column == c
    {
      if items[k].column in seen {
        assert ItemRefused(columns, items, k, DuplicateOrderColumn(items[k].column));
        return Err(DuplicateOrderColumn(items[k].column));
      }
      seen := seen + {items[k].column};
      var index := ResolveColumn(columns, items[k].column);
      if index.Err? {
        assert ItemRefused(columns, items, k, UnknownColumn(items[k].column));
        return Err(index.error);
      }
      keys := keys + [OrderKey(index.value, items[k].desc)];
    }
    assert items[..|items|] == items;
    return Ok(keys);
  }

  function NormalizeLimit(limit: Option<nat>): Result<Option<nat>, QueryError> {
    if limit == Some(0) then Err(InvalidLimit) else Ok(limit)
  }

  // ---- filters

  ghost predicate FilterColumnsKnown(columns: seq<ColumnSchema>, e: Expr)
    decreases e
  {
    match e
    case CmpValue(c, _, _) => HasColumn(columns, c)
    case CmpColumns(a, _, b) => HasColumn(columns, a) && HasColumn(columns, b)
    case AndExpr(es) => forall k :: 0 <= k < |es| ==> FilterColumnsKnown(columns, es[k])
    case OrExpr(es) => forall k :: 0 <= k < |es| ==> FilterColumnsKnown(columns, es[k])
    case NotExpr(x) => FilterColumnsKnown(columns, x)
  }

  /** The columns a filter names, in reading order. */
  function FilterColumns(e: Expr): seq<string>
    decreases e, 1
  {
    match e
    case CmpValue(c, _, _) => [c]
    case CmpColumns(a, _, b) => [a, b]
    case AndExpr(es) => FilterColumnsEach(es)
    case OrExpr(es) => FilterColumnsEach(es)
    case NotExpr(x) => FilterColumns(x)
  }

  function FilterColumnsEach(es: seq<Expr>): seq<string>
    decreases es, 0
  {
    if es == [] then [] else FilterColumns(es[0]) + FilterColumnsEach(es[1..])
  }

  /** The refusal of the first unknown name, if there is one. */
  function FirstUnknown(columns: seq<ColumnSchema>, names: seq<string>): Result<(), QueryError> {
    if names == [] then Ok(())
    else if HasColumn(columns, names[0]) then FirstUnknown(columns, names[1..])
    else Err(UnknownColumn(names[0]))
  }

  lemma {:induction false} FirstUnknownJoin(columns: seq<ColumnSchema>, a: seq<string>, b: seq<string>)
    ensures FirstUnknown(columns, a + b) ==
            if FirstUnknown(columns, a).Ok? then FirstUnknown(columns, b) else FirstUnknown(columns, a)
    decreases |a|
  {
    hide HasColumn;
    if a == [] {
      assert [] + b == b;
    } else {
      assert (a + b)[1..] == a[1..] + b;
      FirstUnknownJoin(columns, a[1..], b);
    }
  }

  /** The check of a filter reports the first unknown column in reading order. */
  lemma {:induction false} FilterRefusal(columns: seq<ColumnSchema>, e: Expr)
    ensures ValidateExprColumns(columns, e) == FirstUnknown(columns, FilterColumns(e))
    decreases e, 1
  {
    hide HasColumn;
    match e
    case CmpValue(c, _, _) => assert [c][1..] == [];
    case CmpColumns(a, _, b) =>
      assert [a, b][1..] == [b] && [b][1..] == [];
      assert FirstUnknown(columns, [b]) == if HasColumn(columns, b) then Ok(()) else Err(UnknownColumn(b));
    case AndExpr(es) => FilterRefusalEach(columns, es);
    case OrExpr(es) => FilterRefusalEach(columns, es);
    case NotExpr(x) => FilterRefusal(columns, x);
  }

  lemma {:induction false} FilterRefusalEach(columns: seq<ColumnSchema>, es: seq<Expr>)
    ensures ValidateEachExpr(columns, es) == FirstUnknown(columns, FilterColumnsEach(es))
    decreases es, 0
  {
    hide HasColumn;
    if es == [] {
    } else {
      FilterRefusal(columns, es[0]);
      FilterRefusalEach(columns, es[1..]);
      FirstUnknownJoin(columns, FilterColumns(es[0]), FilterColumnsEach(es[1..]));
    }
  }

  function ValidateExprColumns(columns: seq<ColumnSchema>, e: Expr): (r: Result<(), QueryError>)
    ensures r.Ok? <==> FilterColumnsKnown(columns, e)
    decreases e, 1
  {
    match e
    case CmpValue(c, _, _) => if HasColumn(columns, c) then Ok(()) else Err(UnknownColumn(c))
    case CmpColumns(a, _, b) =>
      if !HasColumn(columns, a) then Err(UnknownColumn(a))
      else if HasColumn(columns, b) then Ok(()) else Err(UnknownColumn(b))
    case AndExpr(es) => ValidateEachExpr(columns, es)
    case OrExpr(es) => ValidateEachExpr(columns, es)
    case NotExpr(x) => ValidateExprColumns(columns, x)
  }

  function ValidateEachExpr(columns: seq<ColumnSchema>, es: seq<Expr>): (r: Result<(), QueryError>)
    ensures r.Ok? <==> forall k :: 0 <= k < |es| ==> FilterColumnsKnown(columns, es[k])
    decreases es, 0
  {
    if es == [] then Ok(())
    else
      assert forall k :: 1 <= k < |es| ==> es[k] == es[1..][k - 1];
      var _ :- ValidateExprColumns(columns, es[0]);
      ValidateEachExpr(columns, es[1..])
  }
}
