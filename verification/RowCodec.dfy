/** Table schemas, their byte layout, and rows as fixed-width byte strings. */
module RowCodec {
  import opened Outcomes
  import opened Bytes
  import I = IndexFiles

  datatype ColumnType = Int32 | Float32 | Char(len: nat)

  datatype ColumnSchema = ColumnSchema(name: string, columnType: ColumnType)

  datatype TableSchema = TableSchema(name: string, columns: seq<ColumnSchema>)

  /** Float32 values are kept as their 32-bit patterns, Char values as the bytes of the text. */
  datatype Value = IntValue(number: i32) | FloatValue(bits: u32) | CharValue(text: seq<byte>)

  type Row = seq<Value>

  datatype TableError =
    | RecordFailure
    | IndexFailure(indexError: I.IndexError)
    | IoFailure
    | InvalidName(name: string)
    | InvalidSchema
    | DuplicateTable(name: string)
    | DuplicateColumn(name: string)
    | TableNotFound(name: string)
    | ColumnNotFound(name: string)
    | ValueCountMismatch(expected: nat, actual: nat)
    | ValueTypeMismatch(column: string)
    | CatalogCorrupted

  function FixedLen(t: ColumnType): nat {
    match t
    case Int32 => 4
    case Float32 => 4
    case Char(len) => len
  }

  // ---- identifiers

  predicate IdentifierChar(c: char) {
    'a' <= c <= 'z' || 'A' <= c <= 'Z' || '0' <= c <= '9' || c == '_'
  }

  predicate ValidIdentifier(name: string) {
    name != "" && forall i :: 0 <= i < |name| ==> IdentifierChar(name[i])
  }

  /** The first column of that name, or |columns|. */
  function IndexNamed<T>(columns: seq<T>, nameOf: T -> string, name: string, from: nat): (i: nat)
    requires from <= |columns|
    ensures from <= i <= |columns|
    ensures i < |columns| ==> nameOf(columns[i]) == name
    ensures forall j :: from <= j < i ==> nameOf(columns[j]) != name
    decreases |columns| - from
  {
    if from == |columns| || nameOf(columns[from]) == name then from
    else IndexNamed(columns, nameOf, name, from + 1)
  }

  // ---- layouts

  datatype LayoutColumn = LayoutColumn(name: string, columnType: ColumnType, offset: nat)

  datatype SchemaLayout = SchemaLayout(columns: seq<LayoutColumn>, recordSize: nat)

  function Width(columns: seq<ColumnSchema>): nat {
    if columns == [] then 0 else Width(columns[..|columns| - 1]) + FixedLen(columns[|columns| - 1].columnType)
  }

  lemma {:induction false} WidthMonotone(columns: seq<ColumnSchema>, n: nat)
    requires n <= |columns|
    ensures Width(columns[..n]) <= Width(columns)
    decreases |columns|
  {
    if n == |columns| {
      assert columns[..n] == columns;
    } else {
      var rest := columns[..|columns| - 1];
      assert rest[..n] == columns[..n];
      WidthMonotone(rest, n);
    }
  }

  predicate NameSeen(columns: seq<ColumnSchema>, name: string) {
    exists i :: 0 <= i < |columns| && columns[i].name == name
  }

  /** What compile_schema objects to in column n, given the columns before it. */
  function ColumnError(columns: seq<ColumnSchema>, n: nat): Option<TableError>
    requires n < |columns|
  {
    var c := columns[n];
    if !ValidIdentifier(c.name) then Some(InvalidName(c.name))
    else if NameSeen(columns[..n], c.name) then Some(DuplicateColumn(c.name))
    else if FixedLen(c.columnType) == 0 then Some(InvalidSchema)
    else if Width(columns[..n]) + FixedLen(c.columnType) >= USIZE_LIMIT then Some(InvalidSchema)
    else None
  }

  /** The first objection among columns n and later. */
  function FirstColumnError(columns: seq<ColumnSchema>, n: nat): Option<TableError>
    requires n <= |columns|
    decreases |columns| - n
  {
    if n == |columns| then None
    else
      var e := ColumnError(columns, n);
      if e.Some? then e else FirstColumnError(columns, n + 1)
  }

  function LayoutOf(columns: seq<ColumnSchema>): SchemaLayout {
    SchemaLayout(seq(|columns|, i requires 0 <= i < |columns| =>
                   LayoutColumn(columns[i].name, columns[i].columnType, Width(columns[..i]))),
                 Width(columns))
  }

  function CompileSchemaSpec(schema: TableSchema): Result<SchemaLayout, TableError> {
    if !ValidIdentifier(schema.name) then Err(InvalidName(schema.name))
    else if schema.columns == [] then Err(InvalidSchema)
    else match FirstColumnError(schema.columns, 0)
      case Some(e) => Err(e)
      case None => Ok(LayoutOf(schema.columns))
  }

  /** Computes the layout with a running offset. */
  method CompileSchema(schema: TableSchema) returns (r: Result<SchemaLayout, TableError>)
    ensures r == CompileSchemaSpec(schema)
  {
    hide ValidIdentifier, LayoutOf, Width, NameSeen;
    LayoutEnds(schema.columns);
    if !ValidIdentifier(schema.name) {
      return Err(InvalidName(schema.name));
    }
    if schema.columns == [] {
      return Err(InvalidSchema);
    }
    var offset: nat, columns := 0, [];
    var seen: set<string> := {};
    ghost var all := schema.columns;
    for n := 0 to |schema.columns|
      invariant offset == Width(all[..n]) && columns == LayoutOf(all).columns[..n]
      invariant forall name :: name in seen <==> NameSeen(all[..n], name)
      invariant FirstColumnError(all, 0) == FirstColumnError(all, n)
    {
      var column := schema.columns[n];
      LayoutStep(all, n);
      if !ValidIdentifier(column.name) {
        return Err(InvalidName(column.name));
      }
      if column.name in seen {
        return Err(DuplicateColumn(column.name));
      }
      seen := seen + {column.name};
      SeenNext(all, n);
      var len := FixedLen(column.columnType);
      if len == 0 {
        return Err(InvalidSchema);
      }
      columns := columns + [LayoutColumn(column.name, column.columnType, offset)];
      if offset + len >= USIZE_LIMIT {
        return Err(InvalidSchema);
      }
      offset := offset + len;
    }
    return Ok(SchemaLayout(columns, offset));
  }

  lemma LayoutEnds(columns: seq<ColumnSchema>)
    ensures Width(columns[..0]) == 0 && LayoutOf(columns).columns[..0] == []
    ensures columns[..|columns|] == columns
    ensures |LayoutOf(columns).columns| == |columns|
    ensures LayoutOf(columns).columns[..|columns|] == LayoutOf(columns).columns
    ensures LayoutOf(columns).recordSize == Width(columns)
    ensures forall name :: !NameSeen(columns[..0], name)
  {
  }

  lemma LayoutStep(columns: seq<ColumnSchema>, n: nat)
    requires n < |columns|
    ensures |LayoutOf(columns).columns| == |columns|
    ensures LayoutOf(columns).columns[..n + 1] ==
            LayoutOf(columns).columns[..n] + [LayoutColumn(columns[n].name, columns[n].columnType, Width(columns[..n]))]
    ensures Width(columns[..n + 1]) == Width(columns[..n]) + FixedLen(columns[n].columnType)
  {
    WidthStep(columns, n);
  }

  lemma SeenNext(columns: seq<ColumnSchema>, n: nat)
    requires n < |columns|
    ensures forall name :: NameSeen(columns[..n + 1], name) <==> NameSeen(columns[..n], name) || name == columns[n].name
  {
    forall name ensures NameSeen(columns[..n + 1], name) <==> NameSeen(columns[..n], name) || name == columns[n].name {
      var more := columns[..n + 1];
      if NameSeen(columns[..n], name) {
        var i :| 0 <= i < n && columns[..n][i].name == name;
        assert more[i].name == name;
      }
      assert more[n] == columns[n];
      if NameSeen(more, name) && name != columns[n].name {
        var i :| 0 <= i < n + 1 && more[i].name == name;
        assert columns[..n][i].name == name;
      }
    }
  }

  // ---- the layout tiles the record

  ghost predicate Tiles(layout: SchemaLayout) {
    && layout.columns != []
    && layout.columns[0].offset == 0
    && (forall i :: 0 <= i < |layout.columns| ==> FixedLen(layout.columns[i].columnType) > 0)
    && (forall i :: 0 <= i < |layout.columns| ==> End(layout, i) <= layout.recordSize)
    && (forall i, j :: 0 <= i < j < |layout.columns| ==> End(layout, i) <= layout.columns[j].offset)
    && (forall i {:trigger NextStart(layout, i)} :: 0 <= i < |layout.columns| ==>
       End(layout, i) == NextStart(layout, i))
  }

  function End(layout: SchemaLayout, i: nat): nat
    requires i < |layout.columns|
  {
    layout.columns[i].offset + FixedLen(layout.columns[i].columnType)
  }

  /** Where the column after i starts, or the end of the record. */
  function NextStart(layout: SchemaLayout, i: nat): nat
    requires i < |layout.columns|
  {
    if i + 1 < |layout.columns| then layout.columns[i + 1].offset else layout.recordSize
  }

  ghost predicate UniqueNames(layout: SchemaLayout) {
    forall i, j :: 0 <= i < j < |layout.columns| ==> layout.columns[i].name != layout.columns[j].name
  }

  lemma {:induction false} NoColumnError(columns: seq<ColumnSchema>, n: nat, i: nat)
    requires n <= i < |columns| && FirstColumnError(columns, n).None?
    ensures ColumnError(columns, i).None?
    decreases i - n
  {
    if n == i {
    } else {
      NoColumnError(columns, n + 1, i);
    }
  }

  lemma WidthStep(columns: seq<ColumnSchema>, i: nat)
    requires i < |columns|
    ensures Width(columns[..i + 1]) == Width(columns[..i]) + FixedLen(columns[i].columnType)
  {
    assert columns[..i + 1][..i] == columns[..i];
  }

  lemma TileAt(columns: seq<ColumnSchema>, i: nat)
    requires FirstColumnError(columns, 0).None? && i < |columns|
    ensures var layout := LayoutOf(columns);
            FixedLen(columns[i].columnType) > 0 && End(layout, i) == NextStart(layout, i) <= layout.recordSize
  {
    hide ValidIdentifier, NameSeen, FirstColumnError, Width;
    NoColumnError(columns, 0, i);
    WidthStep(columns, i);
    WidthMonotone(columns, i + 1);
    assert i + 1 == |columns| ==> columns[..i + 1] == columns;
  }

  lemma RecordSizeBound(columns: seq<ColumnSchema>)
    requires FirstColumnError(columns, 0).None? && columns != []
    ensures 0 < Width(columns) < USIZE_LIMIT
  {
    hide ValidIdentifier, NameSeen, FirstColumnError, Width;
    var last := |columns| - 1;
    NoColumnError(columns, 0, last);
    WidthStep(columns, last);
    assert columns[..last + 1] == columns;
  }

  lemma TileBefore(columns: seq<ColumnSchema>, i: nat, j: nat)
    requires FirstColumnError(columns, 0).None? && i < j < |columns|
    ensures var layout := LayoutOf(columns);
            End(layout, i) <= layout.columns[j].offset && columns[i].name != columns[j].name
  {
    hide ValidIdentifier;
    NoColumnError(columns, 0, j);
    WidthStep(columns, i);
    WidthMonotone(columns[..j], i + 1);
    assert columns[..j][..i + 1] == columns[..i + 1];
    assert columns[..j][i] == columns[i];
  }

  lemma {:induction false} AllColumnsFine(columns: seq<ColumnSchema>, n: nat)
    requires n <= |columns| && forall i :: n <= i < |columns| ==> ColumnError(columns, i).None?
    ensures FirstColumnError(columns, n).None?
    decreases |columns| - n
  {
    hide ColumnError;
    if n == |columns| {
    } else {
      AllColumnsFine(columns, n + 1);
    }
  }

  ghost predicate ColumnsFine(columns: seq<ColumnSchema>) {
    && (forall i :: 0 <= i < |columns| ==> ValidIdentifier(columns[i].name) && FixedLen(columns[i].columnType) > 0)
    && (forall i, j :: 0 <= i < j < |columns| ==> columns[i].name != columns[j].name)
    && Width(columns) < USIZE_LIMIT
  }

  /** A schema is accepted exactly when its names are identifiers, its columns are at least one, named
      apart and not empty, and the record size does not overflow. */
  lemma SchemaAcceptedExact(schema: TableSchema)
    ensures CompileSchemaSpec(schema).Ok? <==>
            ValidIdentifier(schema.name) && schema.columns != [] && ColumnsFine(schema.columns)
  {
    hide ValidIdentifier, Width;
    var columns := schema.columns;
    if ValidIdentifier(schema.name) && columns != [] {
      if ColumnsFine(columns) {
        forall i | 0 <= i < |columns| ensures ColumnError(columns, i).None? {
          WidthStep(columns, i);
          WidthMonotone(columns, i + 1);
          assert forall j :: 0 <= j < i ==> columns[..i][j] == columns[j];
        }
        AllColumnsFine(columns, 0);
      }
      if FirstColumnError(columns, 0).None? {
        AcceptedColumnsFine(columns);
      }
    }
  }

  lemma AcceptedColumnsFine(columns: seq<ColumnSchema>)
    requires columns != [] && FirstColumnError(columns, 0).None?
    ensures ColumnsFine(columns)
  {
    hide ValidIdentifier, Width, FirstColumnError, NameSeen;
    RecordSizeBound(columns);
    forall i | 0 <= i < |columns| ensures ValidIdentifier(columns[i].name) && FixedLen(columns[i].columnType) > 0 {
      NoColumnError(columns, 0, i);
    }
    forall i, j | 0 <= i < j < |columns| ensures columns[i].name != columns[j].name {
      TileBefore(columns, i, j);
    }
  }

  lemma LayoutTiles(columns: seq<ColumnSchema>)
    requires FirstColumnError(columns, 0).None? && columns != []
    ensures Tiles(LayoutOf(columns))
  {
    hide ValidIdentifier, Width, FirstColumnError, ColumnError;
    var layout := LayoutOf(columns);
    forall i | 0 <= i < |columns|
      ensures FixedLen(columns[i].columnType) > 0 && End(layout, i) == NextStart(layout, i) <= layout.recordSize {
      TileAt(columns, i);
    }
    forall i, j | 0 <= i < j < |columns| ensures End(layout, i) <= layout.columns[j].offset {
      TileBefore(columns, i, j);
    }
    assert layout.columns[0].offset == 0 by { LayoutEnds(columns); }
  }

  lemma LayoutUnique(columns: seq<ColumnSchema>)
    requires FirstColumnError(columns, 0).None?
    ensures UniqueNames(LayoutOf(columns))
  {
    hide ValidIdentifier, Width, FirstColumnError, ColumnError;
    forall i, j | 0 <= i < j < |columns| ensures columns[i].name != columns[j].name {
      TileBefore(columns, i, j);
    }
  }

  /** An accepted schema is laid out without gaps or overlaps, under distinct column names. */
  lemma CompiledTiles(schema: TableSchema)
    requires CompileSchemaSpec(schema).Ok?
    ensures var layout := CompileSchemaSpec(schema).value;
            && Tiles(layout) && UniqueNames(layout) && 0 < layout.recordSize < USIZE_LIMIT
            && |layout.columns| == |schema.columns|
            && (forall i :: 0 <= i < |layout.columns| ==>
                  layout.columns[i].name == schema.columns[i].name &&
                    layout.columns[i].columnType == schema.columns[i].columnType)
  {
    hide ValidIdentifier, Width, FirstColumnError, Tiles, UniqueNames;
    LayoutTiles(schema.columns);
    LayoutUnique(schema.columns);
    RecordSizeBound(schema.columns);
  }

  // ---- one value

  /** The text without its trailing NUL bytes. */
  function Trim(s: seq<byte>): (r: seq<byte>)
    ensures |r| <= |s| && r == s[..|r|]
    ensures r == [] || r[|r| - 1] != 0
    ensures forall i :: |r| <= i < |s| ==> s[i] == 0
  {
    if s == [] || s[|s| - 1] != 0 then s else Trim(s[..|s| - 1])
  }

  lemma TrimUnique(s: seq<byte>, n: nat)
    requires n <= |s| && (n == 0 || s[n - 1] != 0) && forall i :: n <= i < |s| ==> s[i] == 0
    ensures Trim(s) == s[..n]
  {
    var m := |Trim(s)|;
    assert m > 0 ==> s[m - 1] != 0;
  }

  function Padded(text: seq<byte>, len: nat): (r: seq<byte>)
    requires |text| <= len
    ensures |r| == len
  {
    text + Zeros(len - |text|)
  }

  lemma PaddedAt(text: seq<byte>, len: nat, i: nat)
    requires |text| <= len && i < len
    ensures Padded(text, len)[i] == if i < |text| then text[i] else 0
  {
  }

  lemma TrimmedText(s: seq<byte>)
    ensures var n := |Trim(s)|;
            && n <= |s| && Trim(s) == s[..n] && (n == 0 || s[n - 1] != 0)
            && forall i :: n <= i < |s| ==> s[i] == 0
  {
  }

  lemma TrimPadded(text: seq<byte>, len: nat)
    requires |text| <= len
    ensures Trim(Padded(text, len)) == Trim(text)
  {
    hide Padded, Trim;
    TrimmedText(text);
    var p, n := Padded(text, len), |Trim(text)|;
    forall i | 0 <= i < len ensures p[i] == if i < |text| then text[i] else 0 {
      PaddedAt(text, len, i);
    }
    assert p[..n] == text[..n];
    TrimUnique(p, n);
  }

  lemma PaddedTrim(s: seq<byte>)
    ensures Padded(Trim(s), |s|) == s
  {
  }

  function EncodeField(column: LayoutColumn, value: Value): (r: Result<seq<byte>, TableError>)
    ensures r.Ok? ==> |r.value| == FixedLen(column.columnType)
  {
    match (column.columnType, value)
    case (Int32, IntValue(number)) => Ok(EncodeI32(number))
    case (Float32, FloatValue(bits)) => Ok(EncodeU32(bits))
    case (Char(len), CharValue(text)) => if |text| > len then Err(InvalidSchema) else Ok(Padded(text, len))
    case _ => Err(ValueTypeMismatch(column.name))
  }

  predicate ValueFits(t: ColumnType, v: Value) {
    match (t, v)
    case (Int32, IntValue(_)) => true
    case (Float32, FloatValue(_)) => true
    case (Char(len), CharValue(text)) => |text| <= len
    case _ => false
  }

  /** What is wrong with a value that does not fit its column. */
  function Misfit(column: LayoutColumn, value: Value): TableError {
    if column.columnType.Char? && value.CharValue? then InvalidSchema else ValueTypeMismatch(column.name)
  }

  lemma FieldFits(column: LayoutColumn, value: Value)
    ensures EncodeField(column, value).Ok? <==> ValueFits(column.columnType, value)
    ensures EncodeField(column, value).Err? ==> EncodeField(column, value).error == Misfit(column, value)
  {
    hide EncodeI32, EncodeU32, Padded;
  }

  function DecodeField(columnType: ColumnType, field: seq<byte>): Value
    requires |field| == FixedLen(columnType)
  {
    match columnType
    case Int32 => IntValue(DecodeI32(field))
    case Float32 => FloatValue(DecodeU32(field))
    case Char(_) => CharValue(Trim(field))
  }

  function TrimValue(value: Value): Value {
    match value
    case CharValue(text) => CharValue(Trim(text))
    case _ => value
  }

  lemma FieldRoundTrip(column: LayoutColumn, value: Value)
    requires EncodeField(column, value).Ok?
    ensures DecodeField(column.columnType, EncodeField(column, value).value) == TrimValue(value)
  {
    match value
    case IntValue(number) => I32RoundTrip(number);
    case FloatValue(bits) => U32RoundTrip(bits);
    case CharValue(text) => TrimPadded(text, column.columnType.len);
  }

  lemma FieldUnique(column: LayoutColumn, field: seq<byte>)
    requires |field| == FixedLen(column.columnType)
    ensures EncodeField(column, DecodeField(column.columnType, field)) == Ok(field)
  {
    match column.columnType
    case Int32 => I32Unique(field);
    case Float32 => U32Unique(field);
    case Char(_) => PaddedTrim(field);
  }

  // ---- rows

  function Field(layout: SchemaLayout, i: nat, bytes: seq<byte>): (f: seq<byte>)
    requires i < |layout.columns| && End(layout, i) <= |bytes|
    ensures |f| == FixedLen(layout.columns[i].columnType)
  {
    bytes[layout.columns[i].offset..End(layout, i)]
  }

  /** The record after encoding the first n values into a zeroed buffer. */
  function EncodeUpTo(layout: SchemaLayout, values: Row, n: nat): (r: Result<seq<byte>, TableError>)
    requires n <= |layout.columns| == |values|
    requires forall i :: 0 <= i < |layout.columns| ==> End(layout, i) <= layout.recordSize
    ensures r.Ok? ==> |r.value| == layout.recordSize
  {
    if n == 0 then Ok(Zeros(layout.recordSize))
    else
      var prior :- EncodeUpTo(layout, values, n - 1);
      var field :- EncodeField(layout.columns[n - 1], values[n - 1]);
      assert End(layout, n - 1) <= layout.recordSize;
      Ok(Splice(prior, layout.columns[n - 1].offset, field))
  }

  predicate InBounds(layout: SchemaLayout) {
    forall i :: 0 <= i < |layout.columns| ==> End(layout, i) <= layout.recordSize
  }

  function EncodeRowSpec(layout: SchemaLayout, values: Row): (r: Result<seq<byte>, TableError>)
    requires InBounds(layout)
    ensures r.Ok? ==> |r.value| == layout.recordSize
  {
    if |values| != |layout.columns| then Err(ValueCountMismatch(|layout.columns|, |values|))
    else EncodeUpTo(layout, values, |values|)
  }

  function DecodeRow(layout: SchemaLayout, bytes: seq<byte>): (r: Row)
    requires InBounds(layout) && |bytes| == layout.recordSize
    ensures |r| == |layout.columns|
    ensures forall i :: 0 <= i < |r| ==> r[i] == DecodeField(layout.columns[i].columnType, Field(layout, i, bytes))
  {
    seq(|layout.columns|, i requires 0 <= i < |layout.columns| =>
      DecodeField(layout.columns[i].columnType, Field(layout, i, bytes)))
  }

  /** Writes one value into its column's bytes. */
  method EncodeValue(target: array<byte>, column: LayoutColumn, value: Value) returns (r: Result<(), TableError>)
    requires column.offset + FixedLen(column.columnType) <= target.Length
    modifies target
    ensures match EncodeField(column, value)
            case Ok(f) => r == Ok(()) && target[..] == Splice(old(target[..]), column.offset, f)
            case Err(e) => r == Err(e) && target[..] == old(target[..])
  {
    hide EncodeI32, EncodeU32;
    match (column.columnType, value) {
      case (Int32, IntValue(number)) =>
        var bytes := EncodeI32(number);
        forall i | 0 <= i < 4 {
          target[column.offset + i] := bytes[i];
        }
      case (Float32, FloatValue(bits)) =>
        var bytes := EncodeU32(bits);
        forall i | 0 <= i < 4 {
          target[column.offset + i] := bytes[i];
        }
      case (Char(len), CharValue(text)) =>
        if |text| > len {
          return Err(InvalidSchema);
        }
        forall i | 0 <= i < len {
          target[column.offset + i] := 0;
        }
        forall i | 0 <= i < |text| {
          target[column.offset + i] := text[i];
        }
      case _ =>
        return Err(ValueTypeMismatch(column.name));
    }
    return Ok(());
  }

  method EncodeRow(layout: SchemaLayout, values: Row) returns (r: Result<seq<byte>, TableError>)
    requires InBounds(layout)
    ensures r == EncodeRowSpec(layout, values)
  {
    hide EncodeField, Splice;
    if |values| != |layout.columns| {
      return Err(ValueCountMismatch(|layout.columns|, |values|));
    }
    var bytes := new byte[layout.recordSize](_ => 0);
    assert bytes[..] == Zeros(layout.recordSize);
    for n := 0 to |values|
      invariant EncodeUpTo(layout, values, n) == Ok(bytes[..])
    {
      assert End(layout, n) <= layout.recordSize;
      UpToError(layout, values, n);
      var _ :- EncodeValue(bytes, layout.columns[n], values[n]);
    }
    return Ok(bytes[..]);
  }

  /** An error in value n, with the values before it fine, is the error of the whole row. */
  lemma UpToError(layout: SchemaLayout, values: Row, n: nat)
    requires InBounds(layout) && n < |layout.columns| == |values| && EncodeUpTo(layout, values, n).Ok?
    ensures EncodeField(layout.columns[n], values[n]).Err? ==>
              EncodeUpTo(layout, values, |values|) == Err(EncodeField(layout.columns[n], values[n]).error)
  {
    hide EncodeField, Splice;
    if EncodeField(layout.columns[n], values[n]).Err? {
      UpToErrorStays(layout, values, n + 1, |values|);
    }
  }

  lemma {:induction false} UpToErrorStays(layout: SchemaLayout, values: Row, n: nat, m: nat)
    requires InBounds(layout) && n <= m <= |layout.columns| == |values| && EncodeUpTo(layout, values, n).Err?
    ensures EncodeUpTo(layout, values, m) == EncodeUpTo(layout, values, n)
  {
    if n == m {
    } else {
      UpToErrorStays(layout, values, n, m - 1);
    }
  }

  /** Encoding one column never disturbs another. */
  lemma {:induction false} FieldsEncoded(layout: SchemaLayout, values: Row, n: nat, i: nat)
    requires Tiles(layout) && i < n <= |layout.columns| == |values|
    requires EncodeUpTo(layout, values, n).Ok?
    ensures Ok(Field(layout, i, EncodeUpTo(layout, values, n).value)) == EncodeField(layout.columns[i], values[i])
  {
    hide EncodeField, Splice;
    var prior, at := EncodeUpTo(layout, values, n - 1).value, layout.columns[n - 1].offset;
    var field := EncodeField(layout.columns[n - 1], values[n - 1]).value;
    assert End(layout, n - 1) <= layout.recordSize;
    if i == n - 1 {
      SpliceSame(prior, at, field);
    } else {
      FieldsEncoded(layout, values, n - 1, i);
      SpliceOther(prior, at, field, layout.columns[i].offset, End(layout, i));
    }
  }

  /** A row can be encoded exactly when it has one value per column and every value fits its column. */
  lemma {:induction false} UpToOk(layout: SchemaLayout, values: Row, n: nat)
    requires InBounds(layout) && n <= |layout.columns| == |values|
    ensures EncodeUpTo(layout, values, n).Ok? <==>
              forall i :: 0 <= i < n ==> EncodeField(layout.columns[i], values[i]).Ok?
  {
    hide EncodeField, Splice;
    if n == 0 {
    } else {
      UpToOk(layout, values, n - 1);
    }
  }

  predicate AllFit(layout: SchemaLayout, values: Row) {
    |values| == |layout.columns| &&
    forall i :: 0 <= i < |values| ==> ValueFits(layout.columns[i].columnType, values[i])
  }

  /** Value i is the first that does not fit its column. */
  predicate MisfitAt(layout: SchemaLayout, values: Row, i: nat) {
    && i < |values| == |layout.columns|
    && !ValueFits(layout.columns[i].columnType, values[i])
    && forall j :: 0 <= j < i ==> ValueFits(layout.columns[j].columnType, values[j])
  }

  /** Why a row is refused: the number of values, else the first value that does not fit. */
  ghost predicate RowRejected(layout: SchemaLayout, values: Row, e: TableError) {
    if |values| != |layout.columns| then e == ValueCountMismatch(|layout.columns|, |values|)
    else exists i: nat :: MisfitAt(layout, values, i) && e == Misfit(layout.columns[i], values[i])
  }

  /** A row is encoded exactly if it has one value per column and every value fits; else the first
      objection is reported. */
  lemma EncodedExactly(layout: SchemaLayout, values: Row)
    requires InBounds(layout)
    ensures EncodeRowSpec(layout, values).Ok? <==> AllFit(layout, values)
    ensures EncodeRowSpec(layout, values).Err? ==> RowRejected(layout, values, EncodeRowSpec(layout, values).error)
  {
    hide EncodeUpTo, ValueFits;
    if |values| == |layout.columns| {
      UpToExactly(layout, values, |values|);
    }
  }

  lemma {:induction false} UpToExactly(layout: SchemaLayout, values: Row, n: nat)
    requires InBounds(layout) && n <= |layout.columns| == |values|
    ensures var r := EncodeUpTo(layout, values, n);
            && (r.Ok? <==> forall i :: 0 <= i < n ==> ValueFits(layout.columns[i].columnType, values[i]))
            && (r.Err? ==> exists i: nat ::
                  MisfitAt(layout, values, i) && i < n && r.error == Misfit(layout.columns[i], values[i]))
  {
    hide EncodeField, Splice, ValueFits, Misfit;
    if n == 0 {
    } else {
      UpToExactly(layout, values, n - 1);
      FieldFits(layout.columns[n - 1], values[n - 1]);
      if EncodeUpTo(layout, values, n - 1).Ok? && EncodeField(layout.columns[n - 1], values[n - 1]).Err? {
        assert MisfitAt(layout, values, n - 1);
      }
    }
  }

  function TrimRow(values: Row): (r: Row)
    ensures |r| == |values| && forall i :: 0 <= i < |r| ==> r[i] == TrimValue(values[i])
  {
    seq(|values|, i requires 0 <= i < |values| => TrimValue(values[i]))
  }

  /** Decoding an encoded row gives the row back, with Char values trimmed. */
  lemma DecodeEncoded(layout: SchemaLayout, values: Row)
    requires Tiles(layout) && EncodeRowSpec(layout, values).Ok?
    ensures DecodeRow(layout, EncodeRowSpec(layout, values).value) == TrimRow(values)
  {
    hide EncodeField, DecodeField;
    var bytes := EncodeRowSpec(layout, values).value;
    UpToOk(layout, values, |values|);
    forall i | 0 <= i < |values| ensures DecodeRow(layout, bytes)[i] == TrimRow(values)[i] {
      FieldsEncoded(layout, values, |values|, i);
      FieldRoundTrip(layout.columns[i], values[i]);
    }
  }

  predicate EndsInNul(value: Value) {
    value.CharValue? && value.text != [] && value.text[|value.text| - 1] == 0
  }

  /** The round trip is exact if and only if no Char value ends in a NUL byte. */
  lemma RoundTripExact(layout: SchemaLayout, values: Row)
    requires Tiles(layout) && EncodeRowSpec(layout, values).Ok?
    ensures DecodeRow(layout, EncodeRowSpec(layout, values).value) == values <==>
            forall i :: 0 <= i < |values| ==> !EndsInNul(values[i])
  {
    DecodeEncoded(layout, values);
    forall i | 0 <= i < |values| ensures TrimRow(values)[i] == values[i] <==> !EndsInNul(values[i]) {
      if values[i].CharValue? {
        TrimFixed(values[i].text);
      }
    }
    assert TrimRow(values) == values <==> forall i :: 0 <= i < |values| ==> TrimRow(values)[i] == values[i];
  }

  lemma TrimFixed(s: seq<byte>)
    ensures Trim(s) == s <==> s == [] || s[|s| - 1] != 0
  {
  }

  /** Encoding a decoded record is the identity on its bytes, for every stored record. */
  lemma EncodeDecoded(layout: SchemaLayout, bytes: seq<byte>)
    requires Tiles(layout) && |bytes| == layout.recordSize
    ensures EncodeRowSpec(layout, DecodeRow(layout, bytes)) == Ok(bytes)
  {
    hide EncodeUpTo, EncodeField, DecodeField, Field;
    var n := |layout.columns|;
    assert End(layout, n - 1) == NextStart(layout, n - 1) == layout.recordSize;
    DecodedPrefix(layout, bytes, n);
    assert bytes[..|bytes|] + Zeros(0) == bytes;
  }

  function PrefixEnd(layout: SchemaLayout, n: nat): nat
    requires n <= |layout.columns|
  {
    if n == 0 then 0 else End(layout, n - 1)
  }

  lemma {:induction false} DecodedPrefix(layout: SchemaLayout, bytes: seq<byte>, n: nat)
    requires Tiles(layout) && |bytes| == layout.recordSize && n <= |layout.columns|
    ensures PrefixEnd(layout, n) <= layout.recordSize
    ensures EncodeUpTo(layout, DecodeRow(layout, bytes), n) ==
            Ok(bytes[..PrefixEnd(layout, n)] + Zeros(layout.recordSize - PrefixEnd(layout, n)))
  {
    hide EncodeField, DecodeField, Splice;
    if n == 0 {
      assert bytes[..0] + Zeros(layout.recordSize) == Zeros(layout.recordSize);
    } else {
      DecodedPrefix(layout, bytes, n - 1);
      var at, end := layout.columns[n - 1].offset, End(layout, n - 1);
      assert n > 1 ==> End(layout, n - 2) == NextStart(layout, n - 2);
      assert PrefixEnd(layout, n - 1) == at;
      FieldUnique(layout.columns[n - 1], Field(layout, n - 1, bytes));
      SpliceZeros(bytes, at, end);
    }
  }

  lemma SpliceZeros(bytes: seq<byte>, at: nat, end: nat)
    requires at <= end <= |bytes|
    ensures Splice(bytes[..at] + Zeros(|bytes| - at), at, bytes[at..end]) == bytes[..end] + Zeros(|bytes| - end)
  {
    var r := Splice(bytes[..at] + Zeros(|bytes| - at), at, bytes[at..end]);
    forall i | 0 <= i < |bytes| ensures r[i] == (bytes[..end] + Zeros(|bytes| - end))[i] {
    }
  }
}
