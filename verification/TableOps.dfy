/** What the table operations do to a record file, and that UPDATE and DELETE act on a snapshot. */
module TableOps {
  import opened Outcomes
  import opened Bytes
  import opened RecordLayout
  import opened Predicates
  import opened RowCodec
  import opened ExprCompiler
  import opened RecordScans
  import opened IndexFiles
  import R = RecordStores

  type Assignment = (string, Value)

  ghost predicate TableOk(layout: SchemaLayout, m: R.RStore) {
    && Tiles(layout) && UniqueNames(layout) && layout.recordSize < USIZE_LIMIT
    && R.Inv(m) && m.size == layout.recordSize
  }

  // ---- collecting

  function CompileFilter(layout: SchemaLayout, e: Option<Expr>): Result<Option<LogicFilter>, TableError> {
    match e
    case None => Ok(None)
    case Some(expr) =>
      var f :- CompileExpr(layout, expr);
      if Validate(f, layout.recordSize).Err? then Err(RecordFailure) else Ok(Some(f))
  }

  function PredicateOf(f: Option<LogicFilter>): Predicate {
    match f
    case None => (bytes: seq<byte>) => Ok(true)
    case Some(filter) => (bytes: seq<byte>) => Matches(filter, bytes)
  }

  ghost function CollectSpec(layout: SchemaLayout, m: R.RStore, e: Option<Expr>): Result<seq<Record>, TableError>
    requires CursorOk(m, 1, 0)
  {
    var f :- CompileFilter(layout, e);
    match Collect(ScanAll(m), PredicateOf(f))
    case Ok(recs) => Ok(recs)
    case Err(_) => Err(RecordFailure)
  }

  ghost predicate FilterOk(layout: SchemaLayout, e: Option<Expr>) {
    e.Some? ==> WellTyped(layout, e.value)
  }

  /** Whether the filter selects a stored record, seen through its decoded row. */
  ghost predicate Selects(layout: SchemaLayout, e: Option<Expr>, data: seq<byte>)
    requires InBounds(layout) && |data| == layout.recordSize
  {
    e.Some? ==> HoldsOn(layout, TrimExpr(e.value), DecodeRow(layout, data))
  }

  ghost predicate Sized(recs: seq<Record>, size: nat) {
    forall i :: 0 <= i < |recs| ==> |recs[i].data| == size
  }

  ghost function Selected(layout: SchemaLayout, e: Option<Expr>, recs: seq<Record>): seq<Record>
    requires InBounds(layout) && Sized(recs, layout.recordSize)
    decreases |recs|
  {
    if recs == [] then []
    else (if Selects(layout, e, recs[0].data) then [recs[0]] else []) + Selected(layout, e, recs[1..])
  }

  lemma FilterAccepted(layout: SchemaLayout, e: Option<Expr>)
    requires Tiles(layout) && layout.recordSize < USIZE_LIMIT
    ensures CompileFilter(layout, e).Ok? <==> FilterOk(layout, e)
  {
    if e.Some? {
      AcceptedIffWellTyped(layout, e.value);
    }
  }

  lemma PredicateMeans(layout: SchemaLayout, e: Option<Expr>, data: seq<byte>)
    requires Tiles(layout) && layout.recordSize < USIZE_LIMIT && FilterOk(layout, e) && |data| == layout.recordSize
    ensures InBounds(layout) && CompileFilter(layout, e).Ok?
    ensures PredicateOf(CompileFilter(layout, e).value)(data) == Ok(Selects(layout, e, data))
  {
    FilterAccepted(layout, e);
    if e.Some? {
      MatchesMeans(layout, e.value, data);
    }
  }

  lemma {:induction false} CollectMeans(layout: SchemaLayout, e: Option<Expr>, recs: seq<Record>)
    requires Tiles(layout) && layout.recordSize < USIZE_LIMIT && FilterOk(layout, e) && Sized(recs, layout.recordSize)
    ensures InBounds(layout) && CompileFilter(layout, e).Ok?
    ensures Collect(recs, PredicateOf(CompileFilter(layout, e).value)) == Ok(Selected(layout, e, recs))
    decreases |recs|
  {
    hide CompileFilter, PredicateOf, Selects, Tiles, FilterOk;
    assert InBounds(layout) by { TilesInBounds(layout); }
    FilterAccepted(layout, e);
    if recs == [] {
    } else {
      PredicateMeans(layout, e, recs[0].data);
      CollectMeans(layout, e, recs[1..]);
    }
  }

  /** Scanned records have the record size. */
  lemma ScanSized(m: R.RStore)
    requires R.Inv(m)
    ensures CursorOk(m, 1, 0) && Sized(ScanAll(m), m.size)
  {
    FirstCursor(m);
    var recs := ScanAll(m);
    forall i | 0 <= i < |recs| ensures |recs[i].data| == m.size {
      ScanAllExact(m, recs[i]);
      assert recs[i] in recs;
      LookupSized(m, recs[i].rid);
    }
  }

  lemma LookupSized(m: R.RStore, r: Rid)
    requires R.Inv(m)
    ensures R.Lookup(m, r).Some? ==> |R.Lookup(m, r).value| == m.size
  {
    if R.Lookup(m, r).Some? {
      assert R.PageShape(m.pages[r.page - 1], m.size, m.slots);
    }
  }

  /** Collecting fails exactly on an ill-typed filter; otherwise it yields, in scan order, the records
      whose decoded rows satisfy the expression. */
  lemma CollectExact(layout: SchemaLayout, m: R.RStore, e: Option<Expr>)
    requires TableOk(layout, m)
    ensures CursorOk(m, 1, 0) && InBounds(layout) && Sized(ScanAll(m), layout.recordSize)
    ensures CollectSpec(layout, m, e).Ok? <==> FilterOk(layout, e)
    ensures FilterOk(layout, e) ==> CollectSpec(layout, m, e) == Ok(Selected(layout, e, ScanAll(m)))
  {
    hide Tiles, R.Inv, Collect, FilterOk, ScanAll;
    assert InBounds(layout) by { TilesInBounds(layout); }
    ScanSized(m);
    FilterAccepted(layout, e);
    if FilterOk(layout, e) {
      CollectMeans(layout, e, ScanAll(m));
    }
  }

  lemma {:induction false} SelectedMembers(layout: SchemaLayout, e: Option<Expr>, recs: seq<Record>, x: Record)
    requires InBounds(layout) && Sized(recs, layout.recordSize)
    ensures x in Selected(layout, e, recs) <==> x in recs && Selects(layout, e, x.data)
    decreases |recs|
  {
    hide Selects;
    if recs == [] {
    } else {
      SelectedMembers(layout, e, recs[1..], x);
      assert recs == [recs[0]] + recs[1..];
    }
  }

  ghost predicate Ordered(recs: seq<Record>) {
    forall a, b :: 0 <= a < b < |recs| ==> Before(recs[a].rid, recs[b].rid)
  }

  lemma {:induction false} SelectedOrdered(layout: SchemaLayout, e: Option<Expr>, recs: seq<Record>)
    requires InBounds(layout) && Sized(recs, layout.recordSize) && Ordered(recs)
    ensures Ordered(Selected(layout, e, recs))
    decreases |recs|
  {
    hide Selects;
    if recs == [] {
    } else {
      var rest := Selected(layout, e, recs[1..]);
      SelectedOrdered(layout, e, recs[1..]);
      forall b | 0 <= b < |rest| ensures Before(recs[0].rid, rest[b].rid) {
        SelectedMembers(layout, e, recs[1..], rest[b]);
        assert rest[b] in rest;
      }
    }
  }

  /** The snapshot of an UPDATE or DELETE: exactly the live records that satisfy the filter, each once,
      in scan order. */
  lemma SnapshotExact(layout: SchemaLayout, m: R.RStore, e: Option<Expr>, x: Record)
    requires TableOk(layout, m) && FilterOk(layout, e)
    ensures CursorOk(m, 1, 0) && CollectSpec(layout, m, e).Ok?
    ensures var recs := CollectSpec(layout, m, e).value;
            && Ordered(recs) && Sized(recs, layout.recordSize)
            && (x in recs <==>
                R.Lookup(m, x.rid) == Some(x.data) && InBounds(layout) && |x.data| == layout.recordSize &&
                Selects(layout, e, x.data))
  {
    hide Tiles, R.Inv, FilterOk, ScanAll, Selects, R.Lookup;
    CollectExact(layout, m, e);
    ScanOrdered(m, 1, 0);
    assert Ordered(ScanAll(m)) by { ScanIsOrdered(m); }
    SelectedOrdered(layout, e, ScanAll(m));
    SelectedMembers(layout, e, ScanAll(m), x);
    ScanAllExact(m, x);
    SelectedSized(layout, e, ScanAll(m));
    LookupSized(m, x.rid);
  }

  lemma ScanIsOrdered(m: R.RStore)
    requires CursorOk(m, 1, 0)
    ensures Ordered(ScanAll(m))
  {
    ScanOrdered(m, 1, 0);
  }

  lemma SelectedSized(layout: SchemaLayout, e: Option<Expr>, recs: seq<Record>)
    requires InBounds(layout) && Sized(recs, layout.recordSize)
    ensures Sized(Selected(layout, e, recs), layout.recordSize)
  {
    hide Selects;
    var out := Selected(layout, e, recs);
    forall i | 0 <= i < |out| ensures |out[i].data| == layout.recordSize {
      SelectedMembers(layout, e, recs, out[i]);
      assert out[i] in out;
    }
  }

  // ---- insert

  ghost function InsertRow(layout: SchemaLayout, m: R.RStore, values: Row): Result<(R.RStore, Rid), TableError>
    requires InBounds(layout)
  {
    var bytes :- EncodeRowSpec(layout, values);
    match R.Insert(m, bytes)
    case Ok(a) => Ok(a)
    case Err(_) => Err(RecordFailure)
  }

  // ---- update

  /** The row after the assignments, applied in order. */
  function AssignUpTo(layout: SchemaLayout, row: Row, assignments: seq<Assignment>, n: nat)
    : (r: Result<Row, TableError>)
    requires |row| == |layout.columns| && n <= |assignments|
    ensures r.Ok? ==> |r.value| == |row|
  {
    if n == 0 then Ok(row)
    else
      var prior :- AssignUpTo(layout, row, assignments, n - 1);
      var i :- ColumnIndex(layout, assignments[n - 1].0);
      Ok(prior[i := assignments[n - 1].1])
  }

  /** The new bytes of a record under an UPDATE. */
  function UpdatedBytes(layout: SchemaLayout, data: seq<byte>, assignments: seq<Assignment>)
    : (r: Result<seq<byte>, TableError>)
    requires InBounds(layout) && |data| == layout.recordSize
    ensures r.Ok? ==> |r.value| == layout.recordSize
  {
    var row :- AssignUpTo(layout, DecodeRow(layout, data), assignments, |assignments|);
    EncodeRowSpec(layout, row)
  }

  ghost function OneUpdated(layout: SchemaLayout, m: R.RStore, x: Record, assignments: seq<Assignment>)
    : Result<R.RStore, TableError>
    requires InBounds(layout) && |x.data| == layout.recordSize
  {
    var bytes :- UpdatedBytes(layout, x.data, assignments);
    match R.Update(m, x.rid, bytes)
    case Err(_) => Err(RecordFailure)
    case Ok(t) => Ok(t)
  }

  ghost function UpdateEach(layout: SchemaLayout, m: R.RStore, recs: seq<Record>, assignments: seq<Assignment>)
    : (R.RStore, Result<nat, TableError>)
    requires InBounds(layout) && Sized(recs, layout.recordSize)
    decreases |recs|
  {
    if recs == [] then (m, Ok(0))
    else
      var n := |recs| - 1;
      var (t, r) := UpdateEach(layout, m, recs[..n], assignments);
      if r.Err? then (t, r)
      else match OneUpdated(layout, t, recs[n], assignments)
        case Err(e) => (t, Err(e))
        case Ok(u) => (u, Ok(n + 1))
  }

  ghost function DeleteEach(m: R.RStore, recs: seq<Record>): (R.RStore, Result<nat, TableError>)
    decreases |recs|
  {
    if recs == [] then (m, Ok(0))
    else
      var n := |recs| - 1;
      var (t, r) := DeleteEach(m, recs[..n]);
      if r.Err? then (t, r)
      else match R.Delete(t, recs[n].rid)
        case Err(_) => (t, Err(RecordFailure))
        case Ok(u) => (u, Ok(n + 1))
  }

  ghost function UpdateWhere(layout: SchemaLayout, m: R.RStore, e: Option<Expr>, assignments: seq<Assignment>)
    : (R.RStore, Result<nat, TableError>)
    requires TableOk(layout, m)
  {
    CollectExact(layout, m, e);
    match CollectSpec(layout, m, e)
    case Err(err) => (m, Err(err))
    case Ok(recs) => CollectedSized(layout, m, e); UpdateEach(layout, m, recs, assignments)
  }

  ghost function DeleteWhere(layout: SchemaLayout, m: R.RStore, e: Option<Expr>): (R.RStore, Result<nat, TableError>)
    requires TableOk(layout, m)
  {
    CollectExact(layout, m, e);
    match CollectSpec(layout, m, e)
    case Err(err) => (m, Err(err))
    case Ok(recs) => DeleteEach(m, recs)
  }

  lemma CollectedSized(layout: SchemaLayout, m: R.RStore, e: Option<Expr>)
    requires TableOk(layout, m)
    ensures CursorOk(m, 1, 0) && InBounds(layout)
    ensures CollectSpec(layout, m, e).Ok? ==> Sized(CollectSpec(layout, m, e).value, layout.recordSize)
  {
    CollectExact(layout, m, e);
    if FilterOk(layout, e) {
      SelectedSized(layout, e, ScanAll(m));
    }
  }

  // ---- an encoding failure depends on the assignments alone

  /** Two rows whose columns either agree or both hold values that fit. */
  ghost predicate FitAlike(layout: SchemaLayout, a: Row, b: Row) {
    |a| == |b| == |layout.columns| &&
    forall i :: 0 <= i < |a| ==>
      a[i] == b[i] || (EncodeField(layout.columns[i], a[i]).Ok? && EncodeField(layout.columns[i], b[i]).Ok?)
  }

  lemma DecodedFit(layout: SchemaLayout, a: seq<byte>, b: seq<byte>)
    requires InBounds(layout) && |a| == |b| == layout.recordSize
    ensures FitAlike(layout, DecodeRow(layout, a), DecodeRow(layout, b))
  {
    hide EncodeField, DecodeField;
    forall i | 0 <= i < |layout.columns|
      ensures EncodeField(layout.columns[i], DecodeRow(layout, a)[i]).Ok?
      ensures EncodeField(layout.columns[i], DecodeRow(layout, b)[i]).Ok?
    {
      FieldUnique(layout.columns[i], Field(layout, i, a));
      FieldUnique(layout.columns[i], Field(layout, i, b));
    }
  }

  lemma {:induction false} AssignFit(layout: SchemaLayout, a: Row, b: Row, assignments: seq<Assignment>, n: nat)
    requires FitAlike(layout, a, b) && n <= |assignments|
    ensures var x, y := AssignUpTo(layout, a, assignments, n), AssignUpTo(layout, b, assignments, n);
            (x.Ok? <==> y.Ok?) && (x.Err? ==> x == y) && (x.Ok? ==> FitAlike(layout, x.value, y.value))
  {
    hide EncodeField;
    if n == 0 {
    } else {
      AssignFit(layout, a, b, assignments, n - 1);
    }
  }

  lemma {:induction false} EncodeFit(layout: SchemaLayout, a: Row, b: Row, n: nat)
    requires InBounds(layout) && FitAlike(layout, a, b) && n <= |layout.columns|
    ensures var x, y := EncodeUpTo(layout, a, n), EncodeUpTo(layout, b, n);
            (x.Ok? <==> y.Ok?) && (x.Err? ==> x == y)
  {
    hide EncodeField, Splice;
    if n == 0 {
    } else {
      EncodeFit(layout, a, b, n - 1);
    }
  }

  /** Whether the new bytes can be computed, and the error if not, is the same for every record. */
  lemma UpdateFailsAlike(layout: SchemaLayout, a: seq<byte>, b: seq<byte>, assignments: seq<Assignment>)
    requires InBounds(layout) && |a| == |b| == layout.recordSize
    ensures var x, y := UpdatedBytes(layout, a, assignments), UpdatedBytes(layout, b, assignments);
            (x.Ok? <==> y.Ok?) && (x.Err? ==> x == y)
  {
    hide EncodeField;
    DecodedFit(layout, a, b);
    var x, y := DecodeRow(layout, a), DecodeRow(layout, b);
    AssignFit(layout, x, y, assignments, |assignments|);
    var u := AssignUpTo(layout, x, assignments, |assignments|);
    if u.Ok? {
      EncodeFit(layout, u.value, AssignUpTo(layout, y, assignments, |assignments|).value, |layout.columns|);
    }
  }

  // ---- what the loops achieve

  ghost predicate RidIn(recs: seq<Record>, r: Rid) {
    exists i :: 0 <= i < |recs| && recs[i].rid == r
  }

  /** The records of a snapshot are live with these bytes, and their Rids are distinct. */
  ghost predicate SnapshotOf(m: R.RStore, recs: seq<Record>) {
    Ordered(recs) && forall i :: 0 <= i < |recs| ==> R.Lookup(m, recs[i].rid) == Some(recs[i].data)
  }

  /** After an UPDATE over a snapshot: the records of the snapshot carry their new bytes, no other record
      changed, no call failed in the middle. */
  lemma {:induction false} UpdateEachOk(layout: SchemaLayout, m: R.RStore, recs: seq<Record>,
      assignments: seq<Assignment>)
    requires InBounds(layout) && R.Inv(m) && m.size == layout.recordSize && Sized(recs, layout.recordSize)
    requires SnapshotOf(m, recs)
    requires recs != [] ==> UpdatedBytes(layout, recs[0].data, assignments).Ok?
    ensures var (t, r) := UpdateEach(layout, m, recs, assignments);
            && r == Ok(|recs|) && R.Inv(t) && t.size == m.size && t.slots == m.slots && |t.pages| == |m.pages| &&
               t.first == m.first
            && (forall i :: 0 <= i < |recs| ==>
                  && UpdatedBytes(layout, recs[i].data, assignments).Ok?
                  && R.Lookup(t, recs[i].rid) == Some(UpdatedBytes(layout, recs[i].data, assignments).value))
            && (forall q :: !RidIn(recs, q) ==> R.Lookup(t, q) == R.Lookup(m, q))
    decreases |recs|
  {
    hide R.Inv, R.Lookup, R.Update, UpdatedBytes;
    if recs == [] {
    } else {
      var n := |recs| - 1;
      var rest := recs[..n];
      assert SnapshotOf(m, rest) && Sized(rest, layout.recordSize);
      UpdateEachOk(layout, m, rest, assignments);
      UpdateFailsAlike(layout, recs[0].data, recs[n].data, assignments);
      var t, rid := UpdateEach(layout, m, rest, assignments).0, recs[n].rid;
      NotEarlier(recs, n);
      var b := UpdatedBytes(layout, recs[n].data, assignments).value;
      UpdateOne(t, rid, b);
      assert R.Lookup(m, recs[n].rid) == Some(recs[n].data);
      forall q | !RidIn(recs, q) ensures !RidIn(rest, q) && q != rid {
        NotInPrefix(recs, n, q);
      }
    }
  }

  lemma UpdateOne(t: R.RStore, rid: Rid, b: seq<byte>)
    requires R.Inv(t) && R.Lookup(t, rid).Some? && |b| == t.size
    ensures R.Update(t, rid, b).Ok?
    ensures var u := R.Update(t, rid, b).value;
            && R.Inv(u) && u.size == t.size && u.slots == t.slots && |u.pages| == |t.pages| && u.first == t.first
            && forall q :: R.Lookup(u, q) == if q == rid then Some(b) else R.Lookup(t, q)
  {
    R.UpdateInv(t, rid, b);
    forall q ensures R.Lookup(R.Update(t, rid, b).value, q) == if q == rid then Some(b) else R.Lookup(t, q) {
      R.UpdateRebinds(t, rid, b, q);
    }
  }

  lemma NotEarlier(recs: seq<Record>, n: nat)
    requires Ordered(recs) && n < |recs|
    ensures !RidIn(recs[..n], recs[n].rid)
  {
    forall i | 0 <= i < n ensures recs[..n][i].rid != recs[n].rid {
      assert Before(recs[i].rid, recs[n].rid);
    }
  }

  lemma NotInPrefix(recs: seq<Record>, n: nat, q: Rid)
    requires n < |recs| && !RidIn(recs, q)
    ensures !RidIn(recs[..n], q) && q != recs[n].rid
  {
    forall i | 0 <= i < n ensures recs[..n][i].rid != q {
      assert recs[..n][i] == recs[i];
    }
  }

  lemma {:induction false} DeleteEachOk(m: R.RStore, recs: seq<Record>)
    requires R.Inv(m) && SnapshotOf(m, recs)
    ensures var (t, r) := DeleteEach(m, recs);
            && r == Ok(|recs|) && R.Inv(t) && t.size == m.size && t.slots == m.slots
            && (forall q :: R.Lookup(t, q) == if RidIn(recs, q) then None else R.Lookup(m, q))
    decreases |recs|
  {
    hide R.Inv, R.Lookup, R.Delete;
    if recs == [] {
    } else {
      var n := |recs| - 1;
      var rest := recs[..n];
      assert SnapshotOf(m, rest);
      DeleteEachOk(m, rest);
      var t, rid := DeleteEach(m, rest).0, recs[n].rid;
      NotEarlier(recs, n);
      assert R.Lookup(m, recs[n].rid) == Some(recs[n].data);
      DeleteOne(t, rid);
      forall q ensures RidIn(recs, q) <==> RidIn(rest, q) || q == rid {
        if !RidIn(recs, q) {
          NotInPrefix(recs, n, q);
        }
        if RidIn(rest, q) {
          var i :| 0 <= i < n && rest[i].rid == q;
          assert recs[i].rid == q;
        }
      }
    }
  }

  lemma DeleteOne(t: R.RStore, rid: Rid)
    requires R.Inv(t) && R.Lookup(t, rid).Some?
    ensures R.Delete(t, rid).Ok?
    ensures var u := R.Delete(t, rid).value;
            && R.Inv(u) && u.size == t.size && u.slots == t.slots
            && forall q :: R.Lookup(u, q) == if q == rid then None else R.Lookup(t, q)
  {
    R.DeleteInv(t, rid);
    forall q ensures R.Lookup(R.Delete(t, rid).value, q) == if q == rid then None else R.Lookup(t, q) {
      R.DeleteUnbinds(t, rid, q);
    }
  }

  /** The filter selects the live record q. */
  ghost predicate Picked(layout: SchemaLayout, m: R.RStore, e: Option<Expr>, q: Rid)
    requires InBounds(layout)
  {
    var d := R.Lookup(m, q);
    d.Some? && |d.value| == layout.recordSize && Selects(layout, e, d.value)
  }

  /** The collected records are a snapshot of the file. */
  lemma CollectedSnapshot(layout: SchemaLayout, m: R.RStore, e: Option<Expr>)
    requires TableOk(layout, m) && FilterOk(layout, e)
    ensures CursorOk(m, 1, 0) && InBounds(layout) && CollectSpec(layout, m, e).Ok?
    ensures var recs := CollectSpec(layout, m, e).value;
            && Sized(recs, layout.recordSize) && SnapshotOf(m, recs)
            && forall q :: RidIn(recs, q) <==> Picked(layout, m, e, q)
  {
    hide Tiles, R.Inv, FilterOk, Selects, R.Lookup, Selected;
    CollectExact(layout, m, e);
    CollectedSized(layout, m, e);
    var recs := CollectSpec(layout, m, e).value;
    forall x ensures Ordered(recs) && (x in recs <==>
        R.Lookup(m, x.rid) == Some(x.data) && |x.data| == layout.recordSize && Selects(layout, e, x.data)) {
      SnapshotExact(layout, m, e, x);
    }
    SnapshotExact(layout, m, e, Record(Rid(0, 0), []));
    forall i | 0 <= i < |recs| ensures R.Lookup(m, recs[i].rid) == Some(recs[i].data) {
      assert recs[i] in recs;
    }
    forall q ensures RidIn(recs, q) <==> Picked(layout, m, e, q) {
      if R.Lookup(m, q).Some? {
        assert Record(q, R.Lookup(m, q).value) in recs <==>
               |R.Lookup(m, q).value| == layout.recordSize && Selects(layout, e, R.Lookup(m, q).value);
      }
      if RidIn(recs, q) {
        var i :| 0 <= i < |recs| && recs[i].rid == q;
        assert recs[i] in recs;
      }
    }
  }

  /** Under the filter, what a live record becomes. */
  ghost function Rewritten(layout: SchemaLayout, m: R.RStore, e: Option<Expr>, assignments: seq<Assignment>, q: Rid)
    : Option<seq<byte>>
    requires TableOk(layout, m)
  {
    TilesInBounds(layout);
    LookupSized(m, q);
    match R.Lookup(m, q)
    case None => None
    case Some(d) =>
      if !Selects(layout, e, d) then Some(d)
      else match UpdatedBytes(layout, d, assignments)
        case Ok(b) => Some(b)
        case Err(_) => Some(d)
  }

  ghost predicate SelectsAny(layout: SchemaLayout, m: R.RStore, e: Option<Expr>)
    requires TableOk(layout, m)
  {
    TilesInBounds(layout);
    exists q :: Picked(layout, m, e, q)
  }

  /** UPDATE acts on a snapshot and is all or nothing: it fails, changing nothing, exactly when the
      filter is ill typed or some row is selected and the assignments cannot be encoded; otherwise the
      selected records, no others, carry their new bytes. */
  lemma UpdateIsAtomic(layout: SchemaLayout, m: R.RStore, e: Option<Expr>, assignments: seq<Assignment>,
      probe: seq<byte>)
    requires TableOk(layout, m) && |probe| == layout.recordSize
    ensures InBounds(layout)
    ensures var (t, r) := UpdateWhere(layout, m, e, assignments);
            && (r.Err? ==> t == m)
            && (r.Err? <==> (!FilterOk(layout, e) ||
               (SelectsAny(layout, m, e) && UpdatedBytes(layout, probe, assignments).Err?)))
            && (r.Err? && FilterOk(layout, e) ==> UpdatedBytes(layout, probe, assignments) == Err(r.error))
            && TableOk(layout, t) && t.slots == m.slots && |t.pages| == |m.pages| && t.first == m.first
            && (r.Ok? ==> forall q :: R.Lookup(t, q) == Rewritten(layout, m, e, assignments, q))
  {
    hide Tiles, R.Inv, FilterOk, Selects, R.Lookup, Selected, UniqueNames, UpdatedBytes;
    TilesInBounds(layout);
    CollectExact(layout, m, e);
    if FilterOk(layout, e) {
      CollectedSnapshot(layout, m, e);
      var recs := CollectSpec(layout, m, e).value;
      assert SelectsAny(layout, m, e) <==> recs != [] by { AnyIsSome(layout, m, e, recs); }
      if recs != [] {
        UpdateFailsAlike(layout, recs[0].data, probe, assignments);
      }
      if recs == [] || UpdatedBytes(layout, recs[0].data, assignments).Ok? {
        UpdateEachOk(layout, m, recs, assignments);
        var t := UpdateEach(layout, m, recs, assignments).0;
        forall q ensures R.Lookup(t, q) == Rewritten(layout, m, e, assignments, q) {
          LookupSized(m, q);
          if RidIn(recs, q) {
            var i :| 0 <= i < |recs| && recs[i].rid == q;
            assert R.Lookup(m, recs[i].rid) == Some(recs[i].data);
          }
        }
      } else {
        FirstFailure(layout, m, recs, assignments);
      }
    }
  }

  lemma AnyIsSome(layout: SchemaLayout, m: R.RStore, e: Option<Expr>, recs: seq<Record>)
    requires TableOk(layout, m) && InBounds(layout)
    requires forall q :: RidIn(recs, q) <==> Picked(layout, m, e, q)
    ensures SelectsAny(layout, m, e) <==> recs != []
  {
    hide Tiles, R.Inv, Selects, R.Lookup, UniqueNames;
    if recs != [] {
      assert RidIn(recs, recs[0].rid);
    }
  }

  /** If the first record's new bytes cannot be computed, nothing is written at all. */
  lemma {:induction false} FirstFailure(layout: SchemaLayout, m: R.RStore, recs: seq<Record>,
      assignments: seq<Assignment>)
    requires InBounds(layout) && Sized(recs, layout.recordSize) && recs != []
    requires UpdatedBytes(layout, recs[0].data, assignments).Err?
    ensures UpdateEach(layout, m, recs, assignments) == (m, Err(UpdatedBytes(layout, recs[0].data, assignments).error))
    decreases |recs|
  {
    hide UpdatedBytes;
    var n := |recs| - 1;
    if n == 0 {
      assert recs[..0] == [];
    } else {
      FirstFailure(layout, m, recs[..n], assignments);
    }
  }

  /** DELETE removes exactly the selected records; it fails, changing nothing, exactly on an ill-typed
      filter. */
  lemma DeleteIsAtomic(layout: SchemaLayout, m: R.RStore, e: Option<Expr>)
    requires TableOk(layout, m)
    ensures InBounds(layout)
    ensures var (t, r) := DeleteWhere(layout, m, e);
            && (r.Err? <==> !FilterOk(layout, e)) && (r.Err? ==> t == m)
            && TableOk(layout, t)
            && (r.Ok? ==> forall q :: R.Lookup(t, q) == if Picked(layout, m, e, q) then None else R.Lookup(m, q))
  {
    hide Tiles, R.Inv, FilterOk, Selects, R.Lookup, Selected, UniqueNames;
    TilesInBounds(layout);
    CollectExact(layout, m, e);
    if FilterOk(layout, e) {
      CollectedSnapshot(layout, m, e);
      DeleteEachOk(m, CollectSpec(layout, m, e).value);
    }
  }

  // ---- what an update leaves alone

  predicate Assigns(assignments: seq<Assignment>, name: string) {
    exists i :: 0 <= i < |assignments| && assignments[i].0 == name
  }

  lemma {:induction false} AssignKeeps(layout: SchemaLayout, row: Row, assignments: seq<Assignment>, n: nat, i: nat)
    requires |row| == |layout.columns| && n <= |assignments| && i < |row|
    requires !Assigns(assignments, layout.columns[i].name)
    ensures AssignUpTo(layout, row, assignments, n).Ok? ==> AssignUpTo(layout, row, assignments, n).value[i] == row[i]
  {
    if n == 0 {
    } else {
      AssignKeeps(layout, row, assignments, n - 1, i);
      assert assignments[n - 1].0 != layout.columns[i].name;
    }
  }

  /** The bytes of a column that is not assigned stay as they were. */
  lemma UpdateKeepsField(layout: SchemaLayout, data: seq<byte>, assignments: seq<Assignment>, i: nat)
    requires Tiles(layout) && InBounds(layout) && |data| == layout.recordSize && i < |layout.columns|
    requires UpdatedBytes(layout, data, assignments).Ok? && !Assigns(assignments, layout.columns[i].name)
    ensures End(layout, i) <= layout.recordSize
    ensures Field(layout, i, UpdatedBytes(layout, data, assignments).value) == Field(layout, i, data)
  {
    hide EncodeField, DecodeField;
    var row := DecodeRow(layout, data);
    AssignKeeps(layout, row, assignments, |assignments|, i);
    var after := AssignUpTo(layout, row, assignments, |assignments|).value;
    FieldsEncoded(layout, after, |after|, i);
    FieldUnique(layout.columns[i], Field(layout, i, data));
  }

  // ---- index entries

  function EntryOf(layout: SchemaLayout, i: nat, x: Record): Result<IndexEntry, TableError>
    requires InBounds(layout) && |x.data| == layout.recordSize && i < |layout.columns|
  {
    match DecodeRow(layout, x.data)[i]
    case IntValue(key) => Ok(IndexEntry(key, x.rid))
    case _ => Err(InvalidSchema)
  }

  function EntriesOf(layout: SchemaLayout, i: nat, recs: seq<Record>): Result<seq<IndexEntry>, TableError>
    requires InBounds(layout) && Sized(recs, layout.recordSize) && i < |layout.columns|
    decreases |recs|
  {
    if recs == [] then Ok([])
    else
      var n := |recs| - 1;
      var rest :- EntriesOf(layout, i, recs[..n]);
      var entry :- EntryOf(layout, i, recs[n]);
      Ok(rest + [entry])
  }

  lemma {:induction false} EntriesExact(layout: SchemaLayout, i: nat, recs: seq<Record>)
    requires InBounds(layout) && Sized(recs, layout.recordSize) && i < |layout.columns|
    requires layout.columns[i].columnType == Int32
    ensures EntriesOf(layout, i, recs).Ok? && |EntriesOf(layout, i, recs).value| == |recs|
    ensures forall k :: 0 <= k < |recs| ==> Ok(EntriesOf(layout, i, recs).value[k]) == EntryOf(layout, i, recs[k])
    decreases |recs|
  {
    hide DecodeI32;
    if recs == [] {
    } else {
      EntriesExact(layout, i, recs[..|recs| - 1]);
    }
  }
}
