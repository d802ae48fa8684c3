/** The table catalog and the index catalog as text files. */
module CatalogText {
  import opened Outcomes
  import opened Bytes
  import opened Text
  import opened RowCodec
  import opened IndexFiles

  const CATALOG_HEADER := "rs-redbase-catalog-v1"

  // ---- saving the table catalog

  function ColumnLine(c: ColumnSchema): string {
    match c.columnType
    case Int32 => Join(["column", c.name, "int32"])
    case Float32 => Join(["column", c.name, "float32"])
    case Char(len) => Join(["column", c.name, "char", PrintNat(len)])
  }

  function ColumnLines(columns: seq<ColumnSchema>): seq<string> {
    seq(|columns|, i requires 0 <= i < |columns| => ColumnLine(columns[i]))
  }

  function TableLines(t: TableSchema): seq<string> {
    [Join(["table", t.name])] + ColumnLines(t.columns) + ["end"]
  }

  function TablesLines(tables: seq<TableSchema>): seq<string> {
    if tables == [] then [] else TableLines(tables[0]) + TablesLines(tables[1..])
  }

  /** The catalog file; `tables` are the catalog's schemas in the map's iteration order. */
  function CatalogContent(tables: seq<TableSchema>): string {
    Unlines([CATALOG_HEADER] + TablesLines(tables))
  }

  method SaveCatalog(tables: seq<TableSchema>) returns (content: string)
    ensures content == CatalogContent(tables)
  {
    hide TableLines, TablesLines;
    content := Unlines([CATALOG_HEADER]);
    NoTables();
    for i := 0 to |tables|
      invariant content == Unlines([CATALOG_HEADER] + TablesLines(tables[..i]))
    {
      var written := SaveTable(content, [CATALOG_HEADER] + TablesLines(tables[..i]), tables[i]);
      content := written;
      TablesSnoc(tables[..i], tables[i]);
      assert tables[..i + 1] == tables[..i] + [tables[i]];
      assert [CATALOG_HEADER] + TablesLines(tables[..i]) + TableLines(tables[i]) ==
        [CATALOG_HEADER] + TablesLines(tables[..i + 1]);
    }
    assert tables[..|tables|] == tables;
  }

  /** Appends the lines of one table. */
  method SaveTable(prefix: string, ghost before: seq<string>, t: TableSchema) returns (content: string)
    requires prefix == Unlines(before)
    ensures content == Unlines(before + TableLines(t))
  {
    hide ColumnLine, Join;
    ghost var lines := before + [Join(["table", t.name])];
    UnlinesSnoc(before, Join(["table", t.name]));
    content := prefix + Join(["table", t.name]) + "\n";
    assert lines + ColumnLines(t.columns)[..0] == lines;
    for i := 0 to |t.columns|
      invariant content == Unlines(lines + ColumnLines(t.columns)[..i])
    {
      UnlinesSnoc(lines + ColumnLines(t.columns)[..i], ColumnLine(t.columns[i]));
      content := content + ColumnLine(t.columns[i]) + "\n";
      assert (lines + ColumnLines(t.columns)[..i]) + [ColumnLine(t.columns[i])] ==
        lines + ColumnLines(t.columns)[..i + 1];
    }
    assert ColumnLines(t.columns)[..|t.columns|] == ColumnLines(t.columns);
    UnlinesSnoc(lines + ColumnLines(t.columns), "end");
    content := content + "end" + "\n";
    assert (lines + ColumnLines(t.columns)) + ["end"] == before + TableLines(t);
  }

  lemma NoTables()
    ensures TablesLines([]) == [] && [CATALOG_HEADER] + TablesLines([]) == [CATALOG_HEADER]
  {
  }

  lemma {:induction false} TablesSnoc(tables: seq<TableSchema>, t: TableSchema)
    ensures TablesLines(tables + [t]) == TablesLines(tables) + TableLines(t)
  {
    hide TableLines;
    if tables != [] {
      TablesSnoc(tables[1..], t);
      assert (tables + [t])[1..] == tables[1..] + [t];
    } else {
      assert [t][1..] == [];
    }
  }

  // ---- loading the table catalog

  datatype Reading = Reading(tables: map<string, TableSchema>, current: Option<TableSchema>)

  function WithColumn(r: Reading, c: ColumnSchema): Result<Reading, TableError> {
    match r.current
    case None => Err(CatalogCorrupted)
    case Some(t) => Ok(r.(current := Some(t.(columns := t.columns + [c]))))
  }

  function ReadCatalogLine(r: Reading, line: string): Result<Reading, TableError> {
    if line == "" then Ok(r)
    else
      var parts := Split(line, '\t');
      if |parts| == 2 && parts[0] == "table" then
        (if r.current.Some? then Err(CatalogCorrupted) else Ok(r.(current := Some(TableSchema(parts[1], [])))))
      else if |parts| == 3 && parts[0] == "column" && parts[2] == "int32"
        then WithColumn(r, ColumnSchema(parts[1], Int32))
      else if |parts| == 3 && parts[0] == "column" && parts[2] == "float32"
        then WithColumn(r, ColumnSchema(parts[1], Float32))
      else if |parts| == 4 && parts[0] == "column" && parts[2] == "char" then
        (if r.current.None? then Err(CatalogCorrupted)
         else match ParseUsize(parts[3])
           case None => Err(CatalogCorrupted)
           case Some(len) => WithColumn(r, ColumnSchema(parts[1], Char(len))))
      else if parts == ["end"] then
        (match r.current
         case None => Err(CatalogCorrupted)
         case Some(t) =>
           var _ :- CompileSchemaSpec(t);
           Ok(Reading(r.tables[t.name := t], None)))
      else Err(CatalogCorrupted)
  }

  function ReadCatalogLines(r: Reading, lines: seq<string>): Result<Reading, TableError>
    decreases |lines|
  {
    if lines == [] then Ok(r)
    else
      var t :- ReadCatalogLine(r, lines[0]);
      ReadCatalogLines(t, lines[1..])
  }

  function LoadCatalogSpec(content: string): Result<map<string, TableSchema>, TableError> {
    var lines := Lines(content);
    if lines == [] then Ok(map[])
    else if lines[0] != CATALOG_HEADER then Err(CatalogCorrupted)
    else
      var r :- ReadCatalogLines(Reading(map[], None), lines[1..]);
      if r.current.Some? then Err(CatalogCorrupted) else Ok(r.tables)
  }

  method LoadCatalog(content: string) returns (r: Result<map<string, TableSchema>, TableError>)
    ensures r == LoadCatalogSpec(content)
  {
    hide ReadCatalogLine, Lines;
    var lines := Lines(content);
    if lines == [] {
      return Ok(map[]);
    }
    if lines[0] != CATALOG_HEADER {
      return Err(CatalogCorrupted);
    }
    var reading, i := Reading(map[], None), 1;
    while i < |lines|
      invariant 1 <= i <= |lines|
      invariant ReadCatalogLines(Reading(map[], None), lines[1..]) == ReadCatalogLines(reading, lines[i..])
    {
      assert lines[i..][1..] == lines[i + 1..];
      reading :- ReadCatalogLine(reading, lines[i]);
      i := i + 1;
    }
    if reading.current.Some? {
      return Err(CatalogCorrupted);
    }
    return Ok(reading.tables);
  }

  // ---- the round trip

  lemma IdentifierPlain(name: string)
    requires ValidIdentifier(name)
    ensures Plain(name)
  {
  }

  lemma ReadCatalogCons(r: Reading, line: string, rest: seq<string>, t: Reading)
    requires ReadCatalogLine(r, line) == Ok(t)
    ensures ReadCatalogLines(r, [line] + rest) == ReadCatalogLines(t, rest)
  {
    assert ([line] + rest)[1..] == rest;
  }

  lemma ColumnLineRead(r: Reading, c: ColumnSchema)
    requires Plain(c.name) && r.current.Some? && (c.columnType.Char? ==> c.columnType.len < USIZE_LIMIT)
    ensures OneLine(ColumnLine(c))
    ensures ReadCatalogLine(r, ColumnLine(c)) == WithColumn(r, c)
  {
    hide Join, Split, PrintNat, ParseNat, CompileSchemaSpec;
    EmptySplit();
    match c.columnType
    case Int32 => JoinSplit(["column", c.name, "int32"]);
    case Float32 => JoinSplit(["column", c.name, "float32"]);
    case Char(len) =>
      PrintPlain(len);
      NatRoundTrip(len);
      JoinSplit(["column", c.name, "char", PrintNat(len)]);
  }

  lemma {:induction false} ColumnLinesRead(r: Reading, columns: seq<ColumnSchema>, rest: seq<string>)
    requires r.current.Some?
    requires forall i :: 0 <= i < |columns| ==>
               Plain(columns[i].name) && (columns[i].columnType.Char? ==> columns[i].columnType.len < USIZE_LIMIT)
    ensures var t := r.current.value;
            ReadCatalogLines(r, ColumnLines(columns) + rest) ==
            ReadCatalogLines(r.(current := Some(t.(columns := t.columns + columns))), rest)
    decreases |columns|
  {
    hide ColumnLine, ReadCatalogLine, Plain;
    var t := r.current.value;
    if columns == [] {
      assert ColumnLines(columns) + rest == rest;
      assert t.columns + [] == t.columns;
    } else {
      var next := WithColumn(r, columns[0]).value;
      ColumnLineRead(r, columns[0]);
      assert ColumnLines(columns) + rest == [ColumnLine(columns[0])] + (ColumnLines(columns[1..]) + rest);
      ReadCatalogCons(r, ColumnLine(columns[0]), ColumnLines(columns[1..]) + rest, next);
      ColumnLinesRead(next, columns[1..], rest);
      assert (t.columns + [columns[0]]) + columns[1..] == t.columns + columns;
    }
  }

  lemma SchemaPlain(t: TableSchema)
    requires CompileSchemaSpec(t).Ok?
    ensures Plain(t.name)
    ensures forall i :: 0 <= i < |t.columns| ==>
              Plain(t.columns[i].name) && (t.columns[i].columnType.Char? ==> t.columns[i].columnType.len < USIZE_LIMIT)
  {
    hide ValidIdentifier, NameSeen, Plain, Width;
    IdentifierPlain(t.name);
    forall i | 0 <= i < |t.columns|
      ensures Plain(t.columns[i].name) &&
                (t.columns[i].columnType.Char? ==> t.columns[i].columnType.len < USIZE_LIMIT) {
      NoColumnError(t.columns, 0, i);
      IdentifierPlain(t.columns[i].name);
    }
  }

  lemma BracketLines(t: TableSchema, r: Reading)
    requires Plain(t.name) && r.current.None? && CompileSchemaSpec(t).Ok?
    ensures OneLine(Join(["table", t.name])) && OneLine("end")
    ensures ReadCatalogLine(r, Join(["table", t.name])) == Ok(r.(current := Some(TableSchema(t.name, []))))
    ensures ReadCatalogLine(r.(current := Some(t)), "end") == Ok(Reading(r.tables[t.name := t], None))
  {
    hide Join, Split, CompileSchemaSpec;
    EmptySplit();
    JoinSplit(["table", t.name]);
    assert Plain("end");
    SplitFree("end", '\t');
  }

  lemma TableLinesRead(r: Reading, t: TableSchema, rest: seq<string>)
    requires r.current.None? && CompileSchemaSpec(t).Ok?
    ensures ReadCatalogLines(r, TableLines(t) + rest) == ReadCatalogLines(Reading(r.tables[t.name := t], None), rest)
    ensures forall i :: 0 <= i < |TableLines(t)| ==> OneLine(TableLines(t)[i])
  {
    hide Join, ReadCatalogLine, ReadCatalogLines, CompileSchemaSpec, Plain, ColumnLine;
    SchemaPlain(t);
    BracketLines(t, r);
    var started := r.(current := Some(TableSchema(t.name, [])));
    var columns := ColumnLines(t.columns);
    assert TableLines(t) + rest == [Join(["table", t.name])] + (columns + (["end"] + rest));
    ReadCatalogCons(r, Join(["table", t.name]), columns + (["end"] + rest), started);
    ColumnLinesRead(started, t.columns, ["end"] + rest);
    assert [] + t.columns == t.columns;
    ReadCatalogCons(r.(current := Some(t)), "end", rest, Reading(r.tables[t.name := t], None));
    forall i | 0 <= i < |TableLines(t)| ensures OneLine(TableLines(t)[i]) {
      if 1 <= i <= |t.columns| {
        ColumnLineRead(started, t.columns[i - 1]);
      }
    }
  }

  function Registered(tables: map<string, TableSchema>, schemas: seq<TableSchema>): map<string, TableSchema>
    decreases |schemas|
  {
    if schemas == [] then tables else Registered(tables[schemas[0].name := schemas[0]], schemas[1..])
  }

  lemma {:induction false} TablesLinesRead(tables: map<string, TableSchema>, schemas: seq<TableSchema>)
    requires forall i :: 0 <= i < |schemas| ==> CompileSchemaSpec(schemas[i]).Ok?
    ensures ReadCatalogLines(Reading(tables, None), TablesLines(schemas)) ==
              Ok(Reading(Registered(tables, schemas), None))
    ensures forall i :: 0 <= i < |TablesLines(schemas)| ==> OneLine(TablesLines(schemas)[i])
    decreases |schemas|
  {
    hide TableLines, ReadCatalogLine, CompileSchemaSpec;
    if schemas == [] {
    } else {
      TableLinesRead(Reading(tables, None), schemas[0], TablesLines(schemas[1..]));
      TablesLinesRead(tables[schemas[0].name := schemas[0]], schemas[1..]);
    }
  }

  /** `schemas` enumerates the map, each table once under its own name. */
  ghost predicate Enumerates(schemas: seq<TableSchema>, tables: map<string, TableSchema>) {
    && (forall i, j :: 0 <= i < j < |schemas| ==> schemas[i].name != schemas[j].name)
    && (forall i :: 0 <= i < |schemas| ==> schemas[i].name in tables && tables[schemas[i].name] == schemas[i])
    && (forall name :: name in tables ==> exists i :: 0 <= i < |schemas| && schemas[i].name == name)
  }

  lemma {:induction false} RegisteredAt(tables: map<string, TableSchema>, schemas: seq<TableSchema>, name: string)
    requires forall i, j :: 0 <= i < j < |schemas| ==> schemas[i].name != schemas[j].name
    ensures (forall i :: 0 <= i < |schemas| ==> schemas[i].name != name) ==>
              (name in Registered(tables, schemas) <==> name in tables) &&
              (name in tables ==> Registered(tables, schemas)[name] == tables[name])
    ensures forall i :: 0 <= i < |schemas| && schemas[i].name == name ==>
              name in Registered(tables, schemas) && Registered(tables, schemas)[name] == schemas[i]
    decreases |schemas|
  {
    if schemas == [] {
    } else {
      RegisteredAt(tables[schemas[0].name := schemas[0]], schemas[1..], name);
      assert forall i :: 1 <= i < |schemas| ==> schemas[i] == schemas[1..][i - 1];
    }
  }

  lemma RegisteredAll(schemas: seq<TableSchema>, tables: map<string, TableSchema>)
    requires Enumerates(schemas, tables)
    ensures Registered(map[], schemas) == tables
  {
    var all := Registered(map[], schemas);
    forall name
      ensures name in all <==> name in tables
      ensures name in tables ==> name in all && all[name] == tables[name]
    {
      RegisteredAt(map[], schemas, name);
    }
  }

  /** Loading a saved catalog of valid schemas gives the catalog back, whatever the iteration order. */
  lemma CatalogRoundTrip(schemas: seq<TableSchema>, tables: map<string, TableSchema>)
    requires Enumerates(schemas, tables)
    requires forall i :: 0 <= i < |schemas| ==> CompileSchemaSpec(schemas[i]).Ok?
    ensures LoadCatalogSpec(CatalogContent(schemas)) == Ok(tables)
  {
    hide TablesLines, ReadCatalogLines, CompileSchemaSpec, Lines, OneLine, Enumerates, Registered;
    TablesLinesRead(map[], schemas);
    RegisteredAll(schemas, tables);
    var lines := [CATALOG_HEADER] + TablesLines(schemas);
    assert OneLine(CATALOG_HEADER) by { HeaderOneLine(); }
    LinesUnlines(lines);
    assert lines[1..] == TablesLines(schemas);
  }

  lemma HeaderOneLine()
    ensures OneLine(CATALOG_HEADER)
  {
  }

  // ---- the index catalog

  function IndexLine(m: IndexMeta): string {
    Join(["index", m.name, m.table, m.column, "int32"])
  }

  function IndexCatalogContent(metas: seq<IndexMeta>): string {
    Unlines([INDEX_FILE_HEADER] + IndexLines(metas))
  }

  function ReadIndexLines(indexes: map<string, IndexMeta>, lines: seq<string>)
    : Result<map<string, IndexMeta>, IndexError>
    decreases |lines|
  {
    if lines == [] then Ok(indexes)
    else if lines[0] == "" then ReadIndexLines(indexes, lines[1..])
    else
      var parts := Split(lines[0], '\t');
      if !(|parts| == 5 && parts[0] == "index" && parts[4] == "int32") then Err(IndexCorrupted)
      else if parts[1] in indexes then Err(IndexCorrupted)
      else ReadIndexLines(indexes[parts[1] := IndexMeta(parts[1], parts[2], parts[3])], lines[1..])
  }

  function LoadIndexCatalog(content: string): Result<map<string, IndexMeta>, IndexError> {
    var lines := Lines(content);
    if lines == [] then Ok(map[])
    else if lines[0] != INDEX_FILE_HEADER then Err(IndexCorrupted)
    else ReadIndexLines(map[], lines[1..])
  }

  method ReadIndexCatalog(content: string) returns (r: Result<map<string, IndexMeta>, IndexError>)
    ensures r == LoadIndexCatalog(content)
  {
    hide Split, Lines;
    var lines := Lines(content);
    if lines == [] {
      return Ok(map[]);
    }
    if lines[0] != INDEX_FILE_HEADER {
      return Err(IndexCorrupted);
    }
    var indexes: map<string, IndexMeta>, i := map[], 1;
    while i < |lines|
      invariant 1 <= i <= |lines| && ReadIndexLines(map[], lines[1..]) == ReadIndexLines(indexes, lines[i..])
    {
      assert lines[i..][1..] == lines[i + 1..];
      if lines[i] != "" {
        var parts := Split(lines[i], '\t');
        if !(|parts| == 5 && parts[0] == "index" && parts[4] == "int32") {
          return Err(IndexCorrupted);
        }
        if parts[1] in indexes {
          return Err(IndexCorrupted);
        }
        indexes := indexes[parts[1] := IndexMeta(parts[1], parts[2], parts[3])];
      }
      i := i + 1;
    }
    return Ok(indexes);
  }

  method SaveIndexCatalog(metas: seq<IndexMeta>) returns (content: string)
    ensures content == IndexCatalogContent(metas)
  {
    hide IndexLine;
    content := Unlines([INDEX_FILE_HEADER]);
    assert [INDEX_FILE_HEADER] + IndexLines(metas)[..0] == [INDEX_FILE_HEADER];
    for i := 0 to |metas|
      invariant content == Unlines([INDEX_FILE_HEADER] + IndexLines(metas)[..i])
    {
      content := content + IndexLine(metas[i]) + "\n";
      UnlinesSnoc([INDEX_FILE_HEADER] + IndexLines(metas)[..i], IndexLine(metas[i]));
      assert ([INDEX_FILE_HEADER] + IndexLines(metas)[..i]) + [IndexLine(metas[i])] ==
        [INDEX_FILE_HEADER] + IndexLines(metas)[..i + 1];
    }
    assert IndexLines(metas)[..|metas|] == IndexLines(metas);
  }

  function IndexMap(indexes: map<string, IndexMeta>, metas: seq<IndexMeta>): map<string, IndexMeta>
    decreases |metas|
  {
    if metas == [] then indexes else IndexMap(indexes[metas[0].name := metas[0]], metas[1..])
  }

  function IndexLines(metas: seq<IndexMeta>): seq<string> {
    seq(|metas|, i requires 0 <= i < |metas| => IndexLine(metas[i]))
  }

  lemma IndexLineSplit(m: IndexMeta)
    requires PlainMeta(m)
    ensures OneLine(IndexLine(m)) && IndexLine(m) != ""
    ensures Split(IndexLine(m), '\t') == ["index", m.name, m.table, m.column, "int32"]
  {
    hide Join, Split;
    EmptySplit();
    JoinSplit(["index", m.name, m.table, m.column, "int32"]);
  }

  lemma {:induction false} IndexLinesRead(indexes: map<string, IndexMeta>, metas: seq<IndexMeta>)
    requires forall i :: 0 <= i < |metas| ==> PlainMeta(metas[i]) && metas[i].name !in indexes
    requires forall i, j :: 0 <= i < j < |metas| ==> metas[i].name != metas[j].name
    ensures ReadIndexLines(indexes, IndexLines(metas)) == Ok(IndexMap(indexes, metas))
    decreases |metas|
  {
    hide IndexLine, Split, PlainMeta;
    if metas == [] {
    } else {
      IndexLineSplit(metas[0]);
      assert IndexLines(metas)[1..] == IndexLines(metas[1..]);
      assert IndexLines(metas)[0] == IndexLine(metas[0]);
      IndexLinesRead(indexes[metas[0].name := metas[0]], metas[1..]);
    }
  }

  lemma {:induction false} IndexMapAt(indexes: map<string, IndexMeta>, metas: seq<IndexMeta>, name: string)
    requires forall i, j :: 0 <= i < j < |metas| ==> metas[i].name != metas[j].name
    ensures (forall i :: 0 <= i < |metas| ==> metas[i].name != name) ==>
              (name in IndexMap(indexes, metas) <==> name in indexes) &&
              (name in indexes ==> IndexMap(indexes, metas)[name] == indexes[name])
    ensures forall i :: 0 <= i < |metas| && metas[i].name == name ==>
              name in IndexMap(indexes, metas) && IndexMap(indexes, metas)[name] == metas[i]
    decreases |metas|
  {
    if metas == [] {
    } else {
      IndexMapAt(indexes[metas[0].name := metas[0]], metas[1..], name);
      assert forall i :: 1 <= i < |metas| ==> metas[i] == metas[1..][i - 1];
    }
  }

  /** Loading a saved index catalog gives every index back under its name, and nothing else. */
  lemma IndexCatalogRoundTrip(metas: seq<IndexMeta>, name: string)
    requires forall i :: 0 <= i < |metas| ==> PlainMeta(metas[i])
    requires forall i, j :: 0 <= i < j < |metas| ==> metas[i].name != metas[j].name
    ensures var r := LoadIndexCatalog(IndexCatalogContent(metas));
            && r.Ok?
            && (name in r.value <==> exists i :: 0 <= i < |metas| && metas[i].name == name)
            && (forall i :: 0 <= i < |metas| && metas[i].name == name ==> r.value[name] == metas[i])
  {
    hide IndexLine, Lines, ReadIndexLines, IndexMap, OneLine, PlainMeta;
    var lines := [INDEX_FILE_HEADER] + IndexLines(metas);
    assert OneLine(INDEX_FILE_HEADER) by { IndexHeaderOneLine(); }
    forall i | 0 <= i < |lines| ensures OneLine(lines[i]) {
      if i > 0 {
        IndexLineSplit(metas[i - 1]);
      }
    }
    LinesUnlines(lines);
    assert lines[1..] == IndexLines(metas);
    IndexLinesRead(map[], metas);
    IndexMapAt(map[], metas, name);
  }

  lemma IndexHeaderOneLine()
    ensures OneLine(INDEX_FILE_HEADER)
  {
  }
}
