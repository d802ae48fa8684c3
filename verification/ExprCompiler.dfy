/** Compiling filter expressions over columns to logic filters over record bytes, and why it is right. */
module ExprCompiler {
  import opened Outcomes
  import opened Bytes
  import opened Predicates
  import opened RowCodec

  datatype Expr =
    | CmpValue(column: string, op: CompOp, value: Value)
    | CmpColumns(lhs: string, op: CompOp, rhs: string)
    | AndExpr(exprs: seq<Expr>)
    | OrExpr(exprs: seq<Expr>)
    | NotExpr(expr: Expr)

  // ---- columns by name

  function ColumnIndex(layout: SchemaLayout, name: string): (r: Result<nat, TableError>)
    ensures r.Ok? ==> r.value < |layout.columns| && layout.columns[r.value].name == name
  {
    var i := IndexNamed(layout.columns, (c: LayoutColumn) => c.name, name, 0);
    if i < |layout.columns| then Ok(i) else Err(ColumnNotFound(name))
  }

  // ---- compilation

  function ScanField(c: LayoutColumn): FieldRef {
    match c.columnType
    case Int32 => FieldRef(c.offset, 4, FieldInt32)
    case Float32 => FieldRef(c.offset, 4, FieldFloat32)
    case Char(len) => FieldRef(c.offset, len, FieldBytes)
  }

  function ScanValueOf(c: LayoutColumn, v: Value): Result<ScanValue, TableError> {
    match (c.columnType, v)
    case (Int32, IntValue(n)) => Ok(ScanInt32(n))
    case (Float32, FloatValue(b)) => Ok(ScanFloat32(b))
    case (Char(len), CharValue(text)) =>
      if |text| > len then Err(ValueTypeMismatch(c.name)) else Ok(ScanBytes(Padded(text, len)))
    case _ => Err(InvalidSchema)
  }

  function CompileExpr(layout: SchemaLayout, e: Expr): Result<LogicFilter, TableError>
    decreases e, 1
  {
    match e
    case CmpValue(column, op, value) =>
      var i :- ColumnIndex(layout, column);
      var v :- ScanValueOf(layout.columns[i], value);
      Ok(Leaf(Clause(ScanField(layout.columns[i]), op, RhsValue(v))))
    case CmpColumns(lhs, op, rhs) =>
      var i :- ColumnIndex(layout, lhs);
      var j :- ColumnIndex(layout, rhs);
      Ok(Leaf(Clause(ScanField(layout.columns[i]), op, RhsField(ScanField(layout.columns[j])))))
    case AndExpr(exprs) =>
      var children :- CompileEach(layout, exprs);
      if children == [] then Err(RecordFailure) else Ok(And(children))
    case OrExpr(exprs) =>
      var children :- CompileEach(layout, exprs);
      if children == [] then Err(RecordFailure) else Ok(Or(children))
    case NotExpr(expr) =>
      var child :- CompileExpr(layout, expr);
      Ok(Not(child))
  }

  function CompileEach(layout: SchemaLayout, exprs: seq<Expr>): (r: Result<seq<LogicFilter>, TableError>)
    ensures r.Ok? ==> |r.value| == |exprs|
    decreases exprs, 0
  {
    if exprs == [] then Ok([])
    else
      var first :- CompileExpr(layout, exprs[0]);
      var rest :- CompileEach(layout, exprs[1..]);
      Ok([first] + rest)
  }

  // ---- what an expression means on a row

  /** The order of Float32 patterns: by sign, then by magnitude, larger first among the negative ones. */
  predicate FloatBelow(a: u32, b: u32) {
    if a < 0x8000_0000 then a < b < 0x8000_0000 else b < 0x8000_0000 || a > b
  }

  /** Up to byte k the texts are the same; there s ends or has the smaller byte. */
  predicate DiffersAt(s: seq<byte>, t: seq<byte>, k: nat) {
    k <= |s| && k < |t| && s[..k] == t[..k] && (k == |s| || s[k] < t[k])
  }

  ghost predicate TextBelow(s: seq<byte>, t: seq<byte>) {
    exists k: nat :: DiffersAt(s, t, k)
  }

  predicate SameKind(a: Value, b: Value) {
    (a.IntValue? <==> b.IntValue?) && (a.FloatValue? <==> b.FloatValue?) && (a.CharValue? <==> b.CharValue?)
  }

  /** One value is below another of its kind. */
  ghost predicate Below(a: Value, b: Value) {
    match (a, b)
    case (IntValue(x), IntValue(y)) => x < y
    case (FloatValue(x), FloatValue(y)) => FloatBelow(x, y)
    case (CharValue(s), CharValue(t)) => TextBelow(s, t)
    case _ => false
  }

  ghost predicate CellHolds(a: Value, op: CompOp, b: Value) {
    match op
    case NoOp => true
    case Eq => a == b
    case Ne => a != b
    case Lt => Below(a, b)
    case Gt => Below(b, a)
    case Le => a == b || Below(a, b)
    case Ge => a == b || Below(b, a)
  }

  ghost predicate HoldsOn(layout: SchemaLayout, e: Expr, row: Row)
    requires |row| == |layout.columns|
    decreases e
  {
    match e
    case CmpValue(column, op, value) =>
      var i := ColumnIndex(layout, column);
      i.Ok? && CellHolds(row[i.value], op, value)
    case CmpColumns(lhs, op, rhs) =>
      var i, j := ColumnIndex(layout, lhs), ColumnIndex(layout, rhs);
      i.Ok? && j.Ok? && CellHolds(row[i.value], op, row[j.value])
    case AndExpr(exprs) => forall k :: 0 <= k < |exprs| ==> HoldsOn(layout, exprs[k], row)
    case OrExpr(exprs) => exists k :: 0 <= k < |exprs| && HoldsOn(layout, exprs[k], row)
    case NotExpr(expr) => !HoldsOn(layout, expr, row)
  }

  ghost predicate WellTyped(layout: SchemaLayout, e: Expr)
    decreases e
  {
    match e
    case CmpValue(column, _, value) =>
      var i := ColumnIndex(layout, column);
      i.Ok? && ValueFits(layout.columns[i.value].columnType, value)
    case CmpColumns(lhs, op, rhs) =>
      var i, j := ColumnIndex(layout, lhs), ColumnIndex(layout, rhs);
      i.Ok? && j.Ok? && (op == NoOp || layout.columns[i.value].columnType == layout.columns[j.value].columnType)
    case AndExpr(exprs) => exprs != [] && forall k :: 0 <= k < |exprs| ==> WellTyped(layout, exprs[k])
    case OrExpr(exprs) => exprs != [] && forall k :: 0 <= k < |exprs| ==> WellTyped(layout, exprs[k])
    case NotExpr(expr) => WellTyped(layout, expr)
  }

  /** The expression with trailing NUL bytes removed from its Char constants. */
  function TrimExpr(e: Expr): Expr
    decreases e
  {
    match e
    case CmpValue(column, op, value) => CmpValue(column, op, TrimValue(value))
    case CmpColumns(_, _, _) => e
    case AndExpr(exprs) => AndExpr(seq(|exprs|, k requires 0 <= k < |exprs| => TrimExpr(exprs[k])))
    case OrExpr(exprs) => OrExpr(seq(|exprs|, k requires 0 <= k < |exprs| => TrimExpr(exprs[k])))
    case NotExpr(expr) => NotExpr(TrimExpr(expr))
  }

  // ---- what the comparisons compute

  /** How two values compare when the result rows are sorted. */
  function CompareValues(a: Value, b: Value): Ordering {
    match (a, b)
    case (IntValue(x), IntValue(y)) => CompareInts(x, y)
    case (FloatValue(x), FloatValue(y)) => CompareFloats(x, y)
    case (CharValue(x), CharValue(y)) => CompareBytes(x, y)
    case _ => Equal
  }

  lemma {:induction false} CompareBytesMeans(s: seq<byte>, t: seq<byte>)
    ensures CompareBytes(s, t) == Less <==> TextBelow(s, t)
    decreases |s|
  {
    if s == [] {
      assert t != [] ==> DiffersAt(s, t, 0);
    } else if t != [] {
      if s[0] == t[0] {
        CompareBytesMeans(s[1..], t[1..]);
        DiffersTail(s, t);
      } else {
        assert s[0] < t[0] ==> DiffersAt(s, t, 0);
        forall k: nat | DiffersAt(s, t, k) ensures k == 0 {
          SameHeads(s, t, k);
        }
      }
    }
  }

  lemma SameHeads(s: seq<byte>, t: seq<byte>, k: nat)
    requires s != [] && t != [] && DiffersAt(s, t, k)
    ensures k > 0 ==> s[0] == t[0]
  {
    if k > 0 {
      assert s[..k][0] == s[0] && t[..k][0] == t[0];
    }
  }

  lemma DiffersShift(s: seq<byte>, t: seq<byte>, k: nat)
    requires s != [] && t != [] && s[0] == t[0]
    ensures DiffersAt(s, t, k + 1) <==> DiffersAt(s[1..], t[1..], k)
  {
    if k < |s| && k + 1 < |t| {
      assert s[..k + 1] == [s[0]] + s[1..][..k] && t[..k + 1] == [t[0]] + t[1..][..k];
      assert s[..k + 1][1..] == s[1..][..k] && t[..k + 1][1..] == t[1..][..k];
    }
  }

  lemma DiffersTail(s: seq<byte>, t: seq<byte>)
    requires s != [] && t != [] && s[0] == t[0]
    ensures TextBelow(s, t) <==> TextBelow(s[1..], t[1..])
  {
    hide DiffersAt;
    if TextBelow(s, t) {
      var k: nat :| DiffersAt(s, t, k);
      assert k > 0 by { NotAtHead(s, t); }
      DiffersShift(s, t, k - 1);
    }
    if TextBelow(s[1..], t[1..]) {
      var k: nat :| DiffersAt(s[1..], t[1..], k);
      DiffersShift(s, t, k);
    }
  }

  lemma NotAtHead(s: seq<byte>, t: seq<byte>)
    requires s != [] && t != [] && s[0] == t[0]
    ensures !DiffersAt(s, t, 0)
  {
  }

  /** The comparison is the order of the values. */
  lemma CompareValuesMeans(a: Value, b: Value)
    requires SameKind(a, b)
    ensures CompareValues(a, b) == Less <==> Below(a, b)
    ensures CompareValues(a, b) == Equal <==> a == b
    ensures CompareValues(a, b) == Greater <==> Below(b, a)
  {
    hide CompareBytes, TextBelow;
    if a.CharValue? {
      CompareBytesMeans(a.text, b.text);
      CompareBytesMeans(b.text, a.text);
      CompareBytesEqual(a.text, b.text);
      CompareBytesReverse(a.text, b.text);
    }
  }

  lemma SatisfiesMeans(a: Value, op: CompOp, b: Value)
    requires op == NoOp || SameKind(a, b)
    ensures Satisfies(CompareValues(a, b), op) <==> CellHolds(a, op, b)
  {
    hide CompareValues, Below;
    if op != NoOp {
      CompareValuesMeans(a, b);
    }
  }

  // ---- acceptance

  /** A column's field is always a valid field of the record. */
  lemma ScanFieldValid(layout: SchemaLayout, i: nat)
    requires Tiles(layout) && layout.recordSize < USIZE_LIMIT && i < |layout.columns|
    ensures var f := ScanField(layout.columns[i]);
            ValidateField(f, layout.recordSize) == Ok(()) && f.offset == layout.columns[i].offset &&
            f.offset + f.length == End(layout, i)
  {
    assert FixedLen(layout.columns[i].columnType) > 0 && End(layout, i) <= layout.recordSize;
  }

  ghost predicate Accepted(layout: SchemaLayout, e: Expr) {
    CompileExpr(layout, e).Ok? && Validate(CompileExpr(layout, e).value, layout.recordSize).Ok?
  }

  lemma LeafAccepted(layout: SchemaLayout, e: Expr)
    requires Tiles(layout) && layout.recordSize < USIZE_LIMIT
    requires e.CmpValue? || e.CmpColumns?
    ensures Accepted(layout, e) <==> WellTyped(layout, e)
  {
    hide Tiles, ValidateField;
    match e
    case CmpValue(column, op, value) =>
      if ColumnIndex(layout, column).Ok? {
        ScanFieldValid(layout, ColumnIndex(layout, column).value);
      }
    case CmpColumns(lhs, op, rhs) =>
      if ColumnIndex(layout, lhs).Ok? && ColumnIndex(layout, rhs).Ok? {
        ScanFieldValid(layout, ColumnIndex(layout, lhs).value);
        ScanFieldValid(layout, ColumnIndex(layout, rhs).value);
      }
  }

  /** An expression compiles to a filter that the scan accepts exactly when it is well typed. */
  lemma {:induction false} AcceptedIffWellTyped(layout: SchemaLayout, e: Expr)
    requires Tiles(layout) && layout.recordSize < USIZE_LIMIT
    ensures Accepted(layout, e) <==> WellTyped(layout, e)
    decreases e, 1
  {
    match e
    case CmpValue(_, _, _) => LeafAccepted(layout, e);
    case CmpColumns(_, _, _) => LeafAccepted(layout, e);
    case AndExpr(exprs) => EachAccepted(layout, exprs);
    case OrExpr(exprs) => EachAccepted(layout, exprs);
    case NotExpr(expr) => AcceptedIffWellTyped(layout, expr);
  }

  lemma {:induction false} EachAccepted(layout: SchemaLayout, exprs: seq<Expr>)
    requires Tiles(layout) && layout.recordSize < USIZE_LIMIT
    ensures (CompileEach(layout, exprs).Ok? &&
              ValidateEach(CompileEach(layout, exprs).value, layout.recordSize).Ok?) <==>
            forall k :: 0 <= k < |exprs| ==> WellTyped(layout, exprs[k])
    decreases exprs, 0
  {
    if exprs == [] {
    } else {
      AcceptedIffWellTyped(layout, exprs[0]);
      EachAccepted(layout, exprs[1..]);
      if CompileExpr(layout, exprs[0]).Ok? && CompileEach(layout, exprs[1..]).Ok? {
        var children := CompileEach(layout, exprs).value;
        assert children[0] == CompileExpr(layout, exprs[0]).value &&
          children[1..] == CompileEach(layout, exprs[1..]).value;
      }
      assert forall k :: 1 <= k < |exprs| ==> exprs[k] == exprs[1..][k - 1];
    }
  }

  // ---- zero padding keeps the order

  lemma TrimHead(a: seq<byte>)
    requires a != []
    ensures Trim(a) == if a[0] == 0 && Trim(a[1..]) == [] then [] else [a[0]] + Trim(a[1..])
  {
    hide Trim;
    var t := Trim(a[1..]);
    var n := if a[0] == 0 && t == [] then 0 else 1 + |t|;
    forall i | n <= i < |a| ensures a[i] == 0 {
      assert i > 0 ==> a[i] == a[1..][i - 1];
    }
    assert |t| > 0 ==> a[n - 1] == a[1..][|t| - 1] == t[|t| - 1];
    TrimUnique(a, n);
    assert n > 0 ==> a[..n] == [a[0]] + a[1..][..|t|];
  }

  /** Byte strings of the same width compare like their trimmed texts. */
  lemma {:induction false} CompareTrimmed(a: seq<byte>, b: seq<byte>)
    requires |a| == |b|
    ensures CompareBytes(Trim(a), Trim(b)) == CompareBytes(a, b)
    decreases |a|
  {
    hide Trim;
    if a == [] {
    } else {
      TrimHead(a);
      TrimHead(b);
      CompareTrimmed(a[1..], b[1..]);
      CompareFromHeads(a[0], Trim(a[1..]), b[0], Trim(b[1..]));
    }
  }

  lemma CompareFromHeads(x: byte, s: seq<byte>, y: byte, t: seq<byte>)
    ensures CompareBytes([x] + s, [y] + t) == if x != y then CompareInts(x, y) else CompareBytes(s, t)
    ensures CompareBytes([], [y] + t) == Less && CompareBytes([x] + s, []) == Greater
    ensures CompareBytes([], t) == if t == [] then Equal else Less
    ensures CompareBytes(s, []) == if s == [] then Equal else Greater
  {
    assert ([x] + s)[1..] == s && ([y] + t)[1..] == t;
  }

  // ---- meaning

  lemma LeafValueMeans(layout: SchemaLayout, i: nat, op: CompOp, v: Value, bytes: seq<byte>)
    requires Tiles(layout) && layout.recordSize < USIZE_LIMIT && |bytes| == layout.recordSize && i < |layout.columns|
    requires ValueFits(layout.columns[i].columnType, v)
    ensures ScanValueOf(layout.columns[i], v).Ok?
    ensures var c := Clause(ScanField(layout.columns[i]), op, RhsValue(ScanValueOf(layout.columns[i], v).value));
            MatchesClause(c, bytes) == Ok(CellHolds(DecodeRow(layout, bytes)[i], op, TrimValue(v)))
  {
    hide CellHolds;
    LeafValueCompares(layout, i, op, v, bytes);
    SatisfiesMeans(DecodeRow(layout, bytes)[i], op, TrimValue(v));
  }

  lemma LeafValueCompares(layout: SchemaLayout, i: nat, op: CompOp, v: Value, bytes: seq<byte>)
    requires Tiles(layout) && layout.recordSize < USIZE_LIMIT && |bytes| == layout.recordSize && i < |layout.columns|
    requires ValueFits(layout.columns[i].columnType, v)
    ensures ScanValueOf(layout.columns[i], v).Ok?
    ensures var c := Clause(ScanField(layout.columns[i]), op, RhsValue(ScanValueOf(layout.columns[i], v).value));
            MatchesClause(c, bytes) == Ok(Satisfies(CompareValues(DecodeRow(layout, bytes)[i], TrimValue(v)), op))
  {
    hide Trim, DecodeI32, DecodeU32, ValidateField;
    ScanFieldValid(layout, i);
    var column := layout.columns[i];
    var field := Field(layout, i, bytes);
    assert FieldOf(bytes, ScanField(column)) == field;
    if v.CharValue? {
      CompareTrimmed(field, Padded(v.text, column.columnType.len));
      TrimPadded(v.text, column.columnType.len);
    }
  }

  lemma LeafColumnsMeans(layout: SchemaLayout, i: nat, op: CompOp, j: nat, bytes: seq<byte>)
    requires Tiles(layout) && layout.recordSize < USIZE_LIMIT && |bytes| == layout.recordSize
    requires i < |layout.columns| && j < |layout.columns|
    requires op == NoOp || layout.columns[i].columnType == layout.columns[j].columnType
    ensures var c := Clause(ScanField(layout.columns[i]), op, RhsField(ScanField(layout.columns[j])));
            var row := DecodeRow(layout, bytes);
            MatchesClause(c, bytes) == Ok(CellHolds(row[i], op, row[j]))
  {
    hide CellHolds;
    LeafColumnsCompare(layout, i, op, j, bytes);
    SatisfiesMeans(DecodeRow(layout, bytes)[i], op, DecodeRow(layout, bytes)[j]);
  }

  lemma LeafColumnsCompare(layout: SchemaLayout, i: nat, op: CompOp, j: nat, bytes: seq<byte>)
    requires Tiles(layout) && layout.recordSize < USIZE_LIMIT && |bytes| == layout.recordSize
    requires i < |layout.columns| && j < |layout.columns|
    requires op == NoOp || layout.columns[i].columnType == layout.columns[j].columnType
    ensures var c := Clause(ScanField(layout.columns[i]), op, RhsField(ScanField(layout.columns[j])));
            var row := DecodeRow(layout, bytes);
            MatchesClause(c, bytes) == Ok(Satisfies(CompareValues(row[i], row[j]), op))
  {
    hide Trim, DecodeI32, DecodeU32, ValidateField, CompareBytes, CompareInts, CompareFloats, Tiles;
    TilesInBounds(layout);
    ScanFieldValid(layout, i);
    ScanFieldValid(layout, j);
    var a, b := Field(layout, i, bytes), Field(layout, j, bytes);
    assert FieldOf(bytes, ScanField(layout.columns[i])) == a;
    assert FieldOf(bytes, ScanField(layout.columns[j])) == b;
    if op != NoOp && layout.columns[i].columnType.Char? {
      CompareTrimmed(a, b);
    }
  }

  /** The compiled filter never errs on a record and matches exactly when the expression, with its
      constants trimmed, holds on the decoded row. */
  lemma {:induction false} MatchesMeans(layout: SchemaLayout, e: Expr, bytes: seq<byte>)
    requires Tiles(layout) && layout.recordSize < USIZE_LIMIT && |bytes| == layout.recordSize && WellTyped(layout, e)
    ensures CompileExpr(layout, e).Ok?
    ensures Matches(CompileExpr(layout, e).value, bytes) == Ok(HoldsOn(layout, TrimExpr(e), DecodeRow(layout, bytes)))
    decreases e, 1
  {
    hide Tiles, ScanField, MatchesClause, DecodeRow, CellHolds, ScanValueOf;
    TilesInBounds(layout);
    AcceptedIffWellTyped(layout, e);
    match e
    case CmpValue(column, op, value) =>
      LeafValueMeans(layout, ColumnIndex(layout, column).value, op, value, bytes);
    case CmpColumns(lhs, op, rhs) =>
      LeafColumnsMeans(layout, ColumnIndex(layout, lhs).value, op, ColumnIndex(layout, rhs).value, bytes);
    case AndExpr(exprs) => NodeMeans(layout, e, bytes);
    case OrExpr(exprs) => NodeMeans(layout, e, bytes);
    case NotExpr(expr) => MatchesMeans(layout, expr, bytes);
  }

  lemma {:induction false} NodeMeans(layout: SchemaLayout, e: Expr, bytes: seq<byte>)
    requires Tiles(layout) && layout.recordSize < USIZE_LIMIT && |bytes| == layout.recordSize && WellTyped(layout, e)
    requires e.AndExpr? || e.OrExpr?
    ensures CompileExpr(layout, e).Ok?
    ensures Matches(CompileExpr(layout, e).value, bytes) == Ok(HoldsOn(layout, TrimExpr(e), DecodeRow(layout, bytes)))
    decreases e, 0
  {
    hide Tiles, DecodeRow, HoldsOn, TrimExpr, MatchesAll, MatchesAny, CompileEach, ValidateEach;
    TilesInBounds(layout);
    AcceptedIffWellTyped(layout, e);
    EachMeans(layout, e.exprs, bytes);
    TrimmedChildren(layout, e.exprs, DecodeRow(layout, bytes));
  }

  lemma TilesInBounds(layout: SchemaLayout)
    requires Tiles(layout)
    ensures InBounds(layout)
  {
  }

  lemma TrimmedChildren(layout: SchemaLayout, exprs: seq<Expr>, row: Row)
    requires |row| == |layout.columns|
    ensures HoldsOn(layout, TrimExpr(AndExpr(exprs)), row) <==>
            forall k :: 0 <= k < |exprs| ==> HoldsOn(layout, TrimExpr(exprs[k]), row)
    ensures HoldsOn(layout, TrimExpr(OrExpr(exprs)), row) <==>
            exists k :: 0 <= k < |exprs| && HoldsOn(layout, TrimExpr(exprs[k]), row)
  {
    var all, any := TrimExpr(AndExpr(exprs)).exprs, TrimExpr(OrExpr(exprs)).exprs;
    assert forall k :: 0 <= k < |exprs| ==> all[k] == TrimExpr(exprs[k]) && any[k] == TrimExpr(exprs[k]);
  }

  lemma {:induction false} EachMeans(layout: SchemaLayout, exprs: seq<Expr>, bytes: seq<byte>)
    requires Tiles(layout) && layout.recordSize < USIZE_LIMIT && |bytes| == layout.recordSize
    requires forall k :: 0 <= k < |exprs| ==> WellTyped(layout, exprs[k])
    ensures CompileEach(layout, exprs).Ok?
    ensures var children, row := CompileEach(layout, exprs).value, DecodeRow(layout, bytes);
            && MatchesAll(children, bytes) == Ok(forall k :: 0 <= k < |exprs| ==>
               HoldsOn(layout, TrimExpr(exprs[k]), row))
            && MatchesAny(children, bytes) == Ok(exists k ::
                 0 <= k < |exprs| && HoldsOn(layout, TrimExpr(exprs[k]), row))
    decreases exprs, 0
  {
    hide Tiles, DecodeRow, HoldsOn, WellTyped, TrimExpr, Matches, CompileExpr;
    TilesInBounds(layout);
    if exprs == [] {
    } else {
      MatchesMeans(layout, exprs[0], bytes);
      assert forall k :: 1 <= k < |exprs| ==> exprs[k] == exprs[1..][k - 1];
      EachMeans(layout, exprs[1..], bytes);
      var children := CompileEach(layout, exprs).value;
      assert children[0] == CompileExpr(layout, exprs[0]).value &&
        children[1..] == CompileEach(layout, exprs[1..]).value;
      assert forall k :: 0 <= k < |exprs[1..]| ==> exprs[1..][k] == exprs[k + 1];
    }
  }

  // ---- each comparison, kind by kind

  predicate IntTest(x: int, op: CompOp, n: int) {
    match op
    case NoOp => true
    case Eq => x == n
    case Ne => x != n
    case Lt => x < n
    case Gt => x > n
    case Le => x <= n
    case Ge => x >= n
  }

  predicate FloatTest(x: u32, op: CompOp, y: u32) {
    match op
    case NoOp => true
    case Eq => x == y
    case Ne => x != y
    case Lt => FloatBelow(x, y)
    case Gt => FloatBelow(y, x)
    case Le => !FloatBelow(y, x)
    case Ge => !FloatBelow(x, y)
  }

  ghost predicate TextTest(s: seq<byte>, op: CompOp, t: seq<byte>) {
    match op
    case NoOp => true
    case Eq => s == t
    case Ne => s != t
    case Lt => TextBelow(s, t)
    case Gt => TextBelow(t, s)
    case Le => !TextBelow(t, s)
    case Ge => !TextBelow(s, t)
  }

  /** The cell of a stored record under a column of that type. */
  ghost predicate CellIs(layout: SchemaLayout, bytes: seq<byte>, column: string, t: ColumnType, v: Value) {
    && Tiles(layout) && layout.recordSize < USIZE_LIMIT && InBounds(layout) && |bytes| == layout.recordSize
    && var i := ColumnIndex(layout, column);
       i.Ok? && layout.columns[i.value].columnType == t && DecodeRow(layout, bytes)[i.value] == v
  }

  /** What the compiled filter answers on a record. */
  function Answer(layout: SchemaLayout, e: Expr, bytes: seq<byte>): Option<bool> {
    var f := CompileExpr(layout, e);
    if f.Ok? && Matches(f.value, bytes).Ok? then Some(Matches(f.value, bytes).value) else None
  }

  lemma IntLeaf(layout: SchemaLayout, bytes: seq<byte>, lhs: string, op: CompOp, x: i32, n: i32)
    requires CellIs(layout, bytes, lhs, Int32, IntValue(x))
    ensures Answer(layout, CmpValue(lhs, op, IntValue(n)), bytes) == Some(IntTest(x, op, n))
    ensures forall rhs, y: i32 :: CellIs(layout, bytes, rhs, Int32, IntValue(y)) ==>
              Answer(layout, CmpColumns(lhs, op, rhs), bytes) == Some(IntTest(x, op, y))
  {
    hide Tiles, DecodeRow, CompileExpr, Matches;
    MatchesMeans(layout, CmpValue(lhs, op, IntValue(n)), bytes);
    forall rhs, y: i32 | CellIs(layout, bytes, rhs, Int32, IntValue(y))
      ensures Answer(layout, CmpColumns(lhs, op, rhs), bytes) == Some(IntTest(x, op, y))
    {
      MatchesMeans(layout, CmpColumns(lhs, op, rhs), bytes);
    }
  }

  lemma FloatLeaf(layout: SchemaLayout, bytes: seq<byte>, lhs: string, op: CompOp, x: u32, b: u32)
    requires CellIs(layout, bytes, lhs, Float32, FloatValue(x))
    ensures Answer(layout, CmpValue(lhs, op, FloatValue(b)), bytes) == Some(FloatTest(x, op, b))
    ensures forall rhs, y: u32 :: CellIs(layout, bytes, rhs, Float32, FloatValue(y)) ==>
              Answer(layout, CmpColumns(lhs, op, rhs), bytes) == Some(FloatTest(x, op, y))
  {
    hide Tiles, DecodeRow, CompileExpr, Matches;
    MatchesMeans(layout, CmpValue(lhs, op, FloatValue(b)), bytes);
    forall rhs, y: u32 | CellIs(layout, bytes, rhs, Float32, FloatValue(y))
      ensures Answer(layout, CmpColumns(lhs, op, rhs), bytes) == Some(FloatTest(x, op, y))
    {
      MatchesMeans(layout, CmpColumns(lhs, op, rhs), bytes);
    }
  }

  lemma TextLeaf(layout: SchemaLayout, bytes: seq<byte>, lhs: string, op: CompOp, len: nat, s: seq<byte>, c: seq<byte>)
    requires CellIs(layout, bytes, lhs, Char(len), CharValue(s)) && |c| <= len
    ensures Answer(layout, CmpValue(lhs, op, CharValue(c)), bytes) == Some(TextTest(s, op, Trim(c)))
    ensures forall rhs, t :: CellIs(layout, bytes, rhs, Char(len), CharValue(t)) ==>
              Answer(layout, CmpColumns(lhs, op, rhs), bytes) == Some(TextTest(s, op, t))
  {
    hide Tiles, DecodeRow, CompileExpr, Matches, Trim, CellHolds, TextTest;
    MatchesMeans(layout, CmpValue(lhs, op, CharValue(c)), bytes);
    TextCellHolds(s, op, Trim(c));
    forall rhs, t | CellIs(layout, bytes, rhs, Char(len), CharValue(t))
      ensures Answer(layout, CmpColumns(lhs, op, rhs), bytes) == Some(TextTest(s, op, t))
    {
      MatchesMeans(layout, CmpColumns(lhs, op, rhs), bytes);
      TextCellHolds(s, op, t);
    }
  }

  lemma TextCellHolds(s: seq<byte>, op: CompOp, t: seq<byte>)
    ensures CellHolds(CharValue(s), op, CharValue(t)) <==> TextTest(s, op, t)
  {
    hide TextBelow;
    TextBelowTotal(s, t);
  }

  /** Of two texts exactly one is below the other, or they are the same. */
  lemma TextBelowTotal(s: seq<byte>, t: seq<byte>)
    ensures s == t ==> !TextBelow(s, t) && !TextBelow(t, s)
    ensures s != t ==> (TextBelow(s, t) <==> !TextBelow(t, s))
  {
    CompareValuesMeans(CharValue(s), CharValue(t));
  }

  /** The connectives: all operands, some operand, not the operand. */
  lemma ConnectiveAnswers(layout: SchemaLayout, exprs: seq<Expr>, bytes: seq<byte>)
    requires Tiles(layout) && layout.recordSize < USIZE_LIMIT && |bytes| == layout.recordSize && exprs != []
    requires forall k :: 0 <= k < |exprs| ==> WellTyped(layout, exprs[k])
    ensures forall k :: 0 <= k < |exprs| ==> Answer(layout, exprs[k], bytes).Some?
    ensures Answer(layout, AndExpr(exprs), bytes) ==
            Some(forall k :: 0 <= k < |exprs| ==> Answer(layout, exprs[k], bytes) == Some(true))
    ensures Answer(layout, OrExpr(exprs), bytes) ==
            Some(exists k :: 0 <= k < |exprs| && Answer(layout, exprs[k], bytes) == Some(true))
    ensures Answer(layout, NotExpr(exprs[0]), bytes) == Some(Answer(layout, exprs[0], bytes) == Some(false))
  {
    hide Tiles, DecodeRow, CompileExpr, Matches, HoldsOn, TrimExpr;
    TilesInBounds(layout);
    forall k | 0 <= k < |exprs|
      ensures Answer(layout, exprs[k], bytes) == Some(HoldsOn(layout, TrimExpr(exprs[k]), DecodeRow(layout, bytes)))
    {
      MatchesMeans(layout, exprs[k], bytes);
    }
    MatchesMeans(layout, AndExpr(exprs), bytes);
    MatchesMeans(layout, OrExpr(exprs), bytes);
    MatchesMeans(layout, NotExpr(exprs[0]), bytes);
    TrimmedChildren(layout, exprs, DecodeRow(layout, bytes));
    TrimmedNot(layout, exprs[0], DecodeRow(layout, bytes));
  }

  lemma TrimmedNot(layout: SchemaLayout, e: Expr, row: Row)
    requires |row| == |layout.columns|
    ensures HoldsOn(layout, TrimExpr(NotExpr(e)), row) <==> !HoldsOn(layout, TrimExpr(e), row)
  {
  }

  ghost predicate NoNulConstants(e: Expr)
    decreases e
  {
    match e
    case CmpValue(_, _, value) => !EndsInNul(value)
    case CmpColumns(_, _, _) => true
    case AndExpr(exprs) => forall k :: 0 <= k < |exprs| ==> NoNulConstants(exprs[k])
    case OrExpr(exprs) => forall k :: 0 <= k < |exprs| ==> NoNulConstants(exprs[k])
    case NotExpr(expr) => NoNulConstants(expr)
  }

  lemma {:induction false} TrimExprFixed(e: Expr)
    requires NoNulConstants(e)
    ensures TrimExpr(e) == e
    decreases e
  {
    match e
    case CmpValue(_, _, value) => if value.CharValue? { TrimFixed(value.text); }
    case CmpColumns(_, _, _) =>
    case AndExpr(exprs) =>
      forall k | 0 <= k < |exprs| ensures TrimExpr(exprs[k]) == exprs[k] { TrimExprFixed(exprs[k]); }
    case OrExpr(exprs) =>
      forall k | 0 <= k < |exprs| ensures TrimExpr(exprs[k]) == exprs[k] { TrimExprFixed(exprs[k]); }
    case NotExpr(expr) => TrimExprFixed(expr);
  }

  /** Filter compilation preserves meaning for every expression whose constants do not end in NUL. */
  lemma CompilationPreservesMeaning(layout: SchemaLayout, e: Expr, bytes: seq<byte>)
    requires Tiles(layout) && layout.recordSize < USIZE_LIMIT && |bytes| == layout.recordSize
    requires WellTyped(layout, e) && NoNulConstants(e)
    ensures CompileExpr(layout, e).Ok?
    ensures Matches(CompileExpr(layout, e).value, bytes) == Ok(HoldsOn(layout, e, DecodeRow(layout, bytes)))
  {
    MatchesMeans(layout, e, bytes);
    TrimExprFixed(e);
  }

  /** Trailing NUL bytes only make a text greater than its trimmed self. */
  lemma {:induction false} CompareToNul(x: seq<byte>, c: seq<byte>)
    requires x == [] || x[|x| - 1] != 0
    requires c != [] && c[|c| - 1] == 0
    ensures CompareBytes(x, c) == if x == Trim(c) then Less else CompareBytes(x, Trim(c))
  {
    hide Trim;
    TrimHead(c);
    if x != [] && x[0] == c[0] {
      if |c| == 1 {
        TrimFixed(x);
      } else {
        CompareToNul(x[1..], c[1..]);
        assert c == [c[0]] + c[1..] && x == [x[0]] + x[1..];
      }
    }
  }

  /** The operators that a trailing NUL in the constant never matters to. */
  predicate IgnoresNul(op: CompOp) {
    op.NoOp? || op.Le? || op.Gt?
  }

  lemma TextCell(layout: SchemaLayout, i: nat, bytes: seq<byte>)
    requires InBounds(layout) && |bytes| == layout.recordSize && i < |layout.columns|
    requires layout.columns[i].columnType.Char?
    ensures var cell := DecodeRow(layout, bytes)[i];
            cell.CharValue? && (cell.text == [] || cell.text[|cell.text| - 1] != 0)
  {
  }

  lemma NulTextDiffers(x: seq<byte>, op: CompOp, c: seq<byte>)
    requires (x == [] || x[|x| - 1] != 0) && c != [] && c[|c| - 1] == 0
    ensures (CellHolds(CharValue(x), op, CharValue(c)) <==> CellHolds(CharValue(x), op, CharValue(Trim(c)))) <==>
            IgnoresNul(op) || x != Trim(c)
  {
    hide CompareBytes, Trim, CellHolds;
    SatisfiesMeans(CharValue(x), op, CharValue(c));
    SatisfiesMeans(CharValue(x), op, CharValue(Trim(c)));
    CompareToNul(x, c);
    CompareBytesEqual(x, Trim(c));
  }

  /** Where a constant ends in NUL, filter and expression agree exactly under the operators above and on
      the rows that do not hold the trimmed constant. */
  lemma NulConstantDiffers(layout: SchemaLayout, column: string, op: CompOp, value: Value, bytes: seq<byte>)
    requires Tiles(layout) && layout.recordSize < USIZE_LIMIT && |bytes| == layout.recordSize
    requires WellTyped(layout, CmpValue(column, op, value)) && EndsInNul(value)
    ensures var e, row := CmpValue(column, op, value), DecodeRow(layout, bytes);
            && CompileExpr(layout, e).Ok?
            && (Matches(CompileExpr(layout, e).value, bytes) == Ok(HoldsOn(layout, e, row)) <==>
                  IgnoresNul(op) || row[ColumnIndex(layout, column).value] != TrimValue(value))
  {
    var e, i := CmpValue(column, op, value), ColumnIndex(layout, column).value;
    hide Matches, CompileExpr, Tiles, CellHolds, DecodeField, Trim;
    MatchesMeans(layout, e, bytes);
    var cell := DecodeRow(layout, bytes)[i];
    TextCell(layout, i, bytes);
    NulTextDiffers(cell.text, op, value.text);
  }
}
