/** What the requests on a table do to its rows, as a reader sees them: rows under their Rids. */
module TableRows {
  import opened Outcomes
  import opened Bytes
  import opened RecordLayout
  import opened RowCodec
  import opened ExprCompiler
  import opened RecordScans
  import opened TableOps
  import R = RecordStores

  /** The row that a reader finds under a Rid. */
  ghost function RowIn(layout: SchemaLayout, m: R.RStore, q: Rid): Option<Row>
    requires InBounds(layout)
  {
    match R.Lookup(m, q)
    case Some(d) => if |d| == layout.recordSize then Some(DecodeRow(layout, d)) else None
    case None => None
  }

  /** The row under the Rid satisfies the filter. */
  ghost predicate Chosen(layout: SchemaLayout, m: R.RStore, e: Option<Expr>, q: Rid)
    requires InBounds(layout)
  {
    var row := RowIn(layout, m, q);
    row.Some? && |row.value| == |layout.columns| && (e.Some? ==> HoldsOn(layout, TrimExpr(e.value), row.value))
  }

  ghost predicate ChosenAre(layout: SchemaLayout, m: R.RStore, e: Option<Expr>, chosen: set<Rid>)
    requires InBounds(layout)
  {
    forall q :: q in chosen <==> Chosen(layout, m, e, q)
  }

  lemma ChosenIsPicked(layout: SchemaLayout, m: R.RStore, e: Option<Expr>, q: Rid)
    requires InBounds(layout)
    ensures Chosen(layout, m, e, q) <==> Picked(layout, m, e, q)
  {
    hide HoldsOn, DecodeRow, R.Lookup;
  }

  // ---- the size of a snapshot

  function RidSet(recs: seq<Record>): set<Rid> {
    set i | 0 <= i < |recs| :: recs[i].rid
  }

  lemma {:induction false} RidSetSize(recs: seq<Record>)
    requires Ordered(recs)
    ensures |RidSet(recs)| == |recs| && forall q :: q in RidSet(recs) <==> RidIn(recs, q)
    decreases |recs|
  {
    if recs == [] {
    } else {
      var n := |recs| - 1;
      RidSetSize(recs[..n]);
      NotEarlier(recs, n);
      assert forall i :: 0 <= i < n ==> recs[..n][i] == recs[i];
      assert RidSet(recs) == RidSet(recs[..n]) + {recs[n].rid};
    }
  }

  /** The rows that a filter chooses are as many as the records collected for it. */
  lemma CollectedChosen(layout: SchemaLayout, m: R.RStore, e: Option<Expr>)
    requires TableOk(layout, m) && FilterOk(layout, e)
    ensures CursorOk(m, 1, 0) && InBounds(layout) && CollectSpec(layout, m, e).Ok?
    ensures var recs := CollectSpec(layout, m, e).value;
            && Sized(recs, layout.recordSize) && SnapshotOf(m, recs)
            && ChosenAre(layout, m, e, RidSet(recs)) && |RidSet(recs)| == |recs|
            && forall q :: RidIn(recs, q) <==> q in RidSet(recs)
  {
    hide TableOk, FilterOk, Picked, CollectSpec, Chosen, R.Lookup;
    CollectedSnapshot(layout, m, e);
    var recs := CollectSpec(layout, m, e).value;
    RidSetSize(recs);
    forall q ensures q in RidSet(recs) <==> Chosen(layout, m, e, q) {
      ChosenIsPicked(layout, m, e, q);
    }
  }

  // ---- INSERT

  /** A new Rid holds the given row, its Char values trimmed, and no other row changed; or the row does
      not fit the columns, and nothing changed. */
  ghost predicate RowInserted(layout: SchemaLayout, m: R.RStore, values: Row, t: R.RStore, r: Result<Rid, TableError>)
    requires InBounds(layout)
  {
    match r
    case Err(e) => t == m && !AllFit(layout, values) && RowRejected(layout, values, e)
    case Ok(rid) =>
      && AllFit(layout, values) && RowIn(layout, m, rid).None?
      && forall q :: RowIn(layout, t, q) == if q == rid then Some(TrimRow(values)) else RowIn(layout, m, q)
  }

  lemma InsertMeans(layout: SchemaLayout, m: R.RStore, values: Row)
    requires TableOk(layout, m)
    ensures InBounds(layout)
    ensures match InsertRow(layout, m, values)
            case Ok(a) => RowInserted(layout, m, values, a.0, Ok(a.1))
            case Err(e) => RowInserted(layout, m, values, m, Err(e))
  {
    hide Tiles, R.Inv, UniqueNames, R.Insert, R.Lookup, EncodeRowSpec, DecodeRow, AllFit, RowRejected;
    TilesInBounds(layout);
    EncodedExactly(layout, values);
    if AllFit(layout, values) {
      var bytes := EncodeRowSpec(layout, values).value;
      DecodeEncoded(layout, values);
      R.InsertInv(m, bytes);
      var (t, rid) := R.Insert(m, bytes).value;
      forall q ensures R.Lookup(m, rid) == None && R.Lookup(t, q) == if q == rid then Some(bytes) else R.Lookup(m, q) {
        R.InsertBinds(m, bytes, q);
      }
      R.InsertBinds(m, bytes, rid);
    }
  }

  // ---- UPDATE

  /** Assignment k is the last one to the column. */
  predicate LastTo(assignments: seq<Assignment>, name: string, k: nat) {
    && k < |assignments| && assignments[k].0 == name
    && forall j :: k < j < |assignments| ==> assignments[j].0 != name
  }

  predicate Known(layout: SchemaLayout, name: string) {
    exists i :: 0 <= i < |layout.columns| && layout.columns[i].name == name
  }

  /** Every assignment names a column, and the last value given to a column fits it. */
  ghost predicate AssignmentsFit(layout: SchemaLayout, assignments: seq<Assignment>) {
    && (forall k :: 0 <= k < |assignments| ==> Known(layout, assignments[k].0))
    && (forall i, k: nat :: 0 <= i < |layout.columns| && LastTo(assignments, layout.columns[i].name, k) ==>
          ValueFits(layout.columns[i].columnType, assignments[k].1))
  }

  /** Assigned columns hold the last value assigned, trimmed; the others what they held before. */
  ghost predicate RowAfter(layout: SchemaLayout, assignments: seq<Assignment>, before: Row, after: Row) {
    && |before| == |after| == |layout.columns|
    && (forall i, k: nat :: 0 <= i < |layout.columns| && LastTo(assignments, layout.columns[i].name, k) ==>
          after[i] == TrimValue(assignments[k].1))
    && (forall i :: 0 <= i < |layout.columns| && !Assigns(assignments, layout.columns[i].name) ==>
          after[i] == before[i])
  }

  lemma {:induction false} LastExists(assignments: seq<Assignment>, name: string) returns (k: nat)
    requires Assigns(assignments, name)
    ensures LastTo(assignments, name, k)
    decreases |assignments|
  {
    var n := |assignments| - 1;
    if assignments[n].0 == name {
      k := n;
    } else {
      var i :| 0 <= i < |assignments| && assignments[i].0 == name;
      assert assignments[..n][i].0 == name;
      k := LastExists(assignments[..n], name);
      assert forall j :: k < j < n ==> assignments[..n][j] == assignments[j];
    }
  }

  lemma KnownColumn(layout: SchemaLayout, name: string)
    ensures ColumnIndex(layout, name).Ok? <==> Known(layout, name)
  {
  }

  lemma LastStep(assignments: seq<Assignment>, n: nat, name: string, k: nat)
    requires 0 < n <= |assignments|
    ensures LastTo(assignments[..n], name, k) <==>
              if assignments[n - 1].0 == name then k == n - 1 else LastTo(assignments[..n - 1], name, k)
    ensures Assigns(assignments[..n], name) <==>
              assignments[n - 1].0 == name || Assigns(assignments[..n - 1], name)
  {
    var now, prior := assignments[..n], assignments[..n - 1];
    assert now[n - 1] == assignments[n - 1];
    assert forall j :: 0 <= j < n - 1 ==> now[j] == prior[j];
    if Assigns(prior, name) {
      var j :| 0 <= j < n - 1 && prior[j].0 == name;
      assert now[j].0 == name;
    }
    if Assigns(now, name) && now[n - 1].0 != name {
      var j :| 0 <= j < n && now[j].0 == name;
      assert prior[j].0 == name;
    }
  }

  /** The cells after the first n assignments. */
  lemma {:induction false} AssignedCells(layout: SchemaLayout, row: Row, assignments: seq<Assignment>, n: nat, i: nat)
    requires UniqueNames(layout) && |row| == |layout.columns| && n <= |assignments| && i < |row|
    ensures var r := AssignUpTo(layout, row, assignments, n);
            && (r.Ok? <==> forall k :: 0 <= k < n ==> Known(layout, assignments[k].0))
            && (r.Ok? ==>
                  && (forall k: nat :: LastTo(assignments[..n], layout.columns[i].name, k) ==>
                        r.value[i] == assignments[k].1)
                  && (!Assigns(assignments[..n], layout.columns[i].name) ==> r.value[i] == row[i]))
  {
    hide ColumnIndex, LastTo, Assigns;
    var name := layout.columns[i].name;
    if n == 0 {
      assert !Assigns(assignments[..0], name) && forall k: nat :: !LastTo(assignments[..0], name, k) by {
        NoneAssigned(name);
      }
    } else {
      AssignedCells(layout, row, assignments, n - 1, i);
      KnownColumn(layout, assignments[n - 1].0);
      forall k: nat
        ensures LastTo(assignments[..n], name, k) <==>
                  if assignments[n - 1].0 == name then k == n - 1 else LastTo(assignments[..n - 1], name, k)
      {
        LastStep(assignments, n, name, k);
      }
      LastStep(assignments, n, name, n - 1);
    }
  }

  lemma NoneAssigned(name: string)
    ensures !Assigns([], name) && forall k: nat :: !LastTo([], name, k)
  {
  }

  /** Assignment k is the first that names no column. */
  ghost predicate FirstUnknown(layout: SchemaLayout, assignments: seq<Assignment>, k: nat) {
    && k < |assignments| && !Known(layout, assignments[k].0)
    && forall j :: 0 <= j < k ==> Known(layout, assignments[j].0)
  }

  /** Column i is the first whose last value, assignment k, does not fit it. */
  ghost predicate FirstUnfit(layout: SchemaLayout, assignments: seq<Assignment>, i: nat, k: nat) {
    && i < |layout.columns| && LastTo(assignments, layout.columns[i].name, k)
    && !ValueFits(layout.columns[i].columnType, assignments[k].1)
    && forall j, h: nat :: 0 <= j < i && LastTo(assignments, layout.columns[j].name, h) ==>
         ValueFits(layout.columns[j].columnType, assignments[h].1)
  }

  /** Why assignments are refused by the table. */
  ghost predicate AssignmentsRejected(layout: SchemaLayout, assignments: seq<Assignment>, e: TableError) {
    if forall k :: 0 <= k < |assignments| ==> Known(layout, assignments[k].0)
    then exists i: nat, k: nat ::
           FirstUnfit(layout, assignments, i, k) && e == Misfit(layout.columns[i], assignments[k].1)
    else exists k: nat :: FirstUnknown(layout, assignments, k) && e == ColumnNotFound(assignments[k].0)
  }

  lemma {:induction false} AssignError(layout: SchemaLayout, row: Row, assignments: seq<Assignment>, n: nat)
    requires |row| == |layout.columns| && n <= |assignments| && AssignUpTo(layout, row, assignments, n).Err?
    ensures exists k: nat :: FirstUnknown(layout, assignments, k) &&
              AssignUpTo(layout, row, assignments, n).error == ColumnNotFound(assignments[k].0)
    decreases n
  {
    hide Known;
    if AssignUpTo(layout, row, assignments, n - 1).Err? {
      AssignError(layout, row, assignments, n - 1);
    } else {
      AllKnownSoFar(layout, row, assignments, n - 1);
      KnownColumn(layout, assignments[n - 1].0);
      assert FirstUnknown(layout, assignments, n - 1);
    }
  }

  lemma {:induction false} AllKnownSoFar(layout: SchemaLayout, row: Row, assignments: seq<Assignment>, n: nat)
    requires |row| == |layout.columns| && n <= |assignments| && AssignUpTo(layout, row, assignments, n).Ok?
    ensures forall k :: 0 <= k < n ==> Known(layout, assignments[k].0)
  {
    if n > 0 {
      AllKnownSoFar(layout, row, assignments, n - 1);
      KnownColumn(layout, assignments[n - 1].0);
    }
  }

  /** The row to be encoded: each cell is the last value assigned to it, or a decoded one, which fits. */
  ghost predicate CellsFrom(layout: SchemaLayout, assignments: seq<Assignment>, before: Row, row: Row) {
    && |row| == |before| == |layout.columns|
    && (forall i, k: nat :: 0 <= i < |row| && LastTo(assignments, layout.columns[i].name, k) ==>
          row[i] == assignments[k].1)
    && (forall i :: 0 <= i < |row| && !Assigns(assignments, layout.columns[i].name) ==>
          row[i] == before[i] == TrimValue(row[i]) && ValueFits(layout.columns[i].columnType, row[i]))
  }

  lemma CellsAfter(layout: SchemaLayout, data: seq<byte>, assignments: seq<Assignment>)
    requires Tiles(layout) && InBounds(layout) && UniqueNames(layout) && |data| == layout.recordSize
    ensures var r := AssignUpTo(layout, DecodeRow(layout, data), assignments, |assignments|);
            && (r.Ok? <==> forall k :: 0 <= k < |assignments| ==> Known(layout, assignments[k].0))
            && (r.Ok? ==> CellsFrom(layout, assignments, DecodeRow(layout, data), r.value))
  {
    hide DecodeRow, Assigns, AssignUpTo, Known, ValueFits, UniqueNames;
    assert assignments[..|assignments|] == assignments;
    forall i | 0 <= i < |layout.columns|
      ensures var v := DecodeRow(layout, data)[i]; v == TrimValue(v) && ValueFits(layout.columns[i].columnType, v)
    {
      DecodedCell(layout, data, i);
    }
    forall i | 0 <= i < |layout.columns| {
      AssignedCells(layout, DecodeRow(layout, data), assignments, |assignments|, i);
    }
    AssignedCells(layout, DecodeRow(layout, data), assignments, |assignments|, 0);
  }

  lemma DecodedCell(layout: SchemaLayout, data: seq<byte>, i: nat)
    requires InBounds(layout) && |data| == layout.recordSize && i < |layout.columns|
    ensures var v := DecodeRow(layout, data)[i]; v == TrimValue(v) && ValueFits(layout.columns[i].columnType, v)
  {
    hide DecodeI32, DecodeU32, Trim;
    var field := Field(layout, i, data);
    if layout.columns[i].columnType.Char? {
      TrimmedText(field);
      TrimFixed(Trim(field));
    }
  }

  /** The new bytes of a record exist exactly if the assignments fit, and hold the row after them. */
  lemma UpdatedMeans(layout: SchemaLayout, data: seq<byte>, assignments: seq<Assignment>)
    requires Tiles(layout) && InBounds(layout) && UniqueNames(layout) && |data| == layout.recordSize
    ensures var r := UpdatedBytes(layout, data, assignments);
            && (r.Ok? <==> AssignmentsFit(layout, assignments))
            && (r.Ok? ==> RowAfter(layout, assignments, DecodeRow(layout, data), DecodeRow(layout, r.value)))
            && (r.Err? ==> AssignmentsRejected(layout, assignments, r.error))
  {
    hide DecodeRow, AssignUpTo, Known, EncodeRowSpec, Tiles, UniqueNames, CellsFrom, RowAfter, AllFit, RowRejected,
      LastTo, FirstUnfit, FirstUnknown, Misfit, ValueFits;
    var before := DecodeRow(layout, data);
    var u := AssignUpTo(layout, before, assignments, |assignments|);
    CellsAfter(layout, data, assignments);
    if u.Err? {
      AssignError(layout, before, assignments, |assignments|);
    } else {
      EncodedExactly(layout, u.value);
      FitExactly(layout, assignments, before, u.value);
      if AllFit(layout, u.value) {
        DecodeEncoded(layout, u.value);
        TrimmedAfter(layout, assignments, before, u.value);
      } else {
        assert RowRejected(layout, u.value, EncodeRowSpec(layout, u.value).error);
      }
    }
  }

  lemma TrimmedAfter(layout: SchemaLayout, assignments: seq<Assignment>, before: Row, row: Row)
    requires CellsFrom(layout, assignments, before, row)
    ensures RowAfter(layout, assignments, before, TrimRow(row))
  {
    hide LastTo, Assigns, ValueFits, TrimValue;
  }

  lemma FitExactly(layout: SchemaLayout, assignments: seq<Assignment>, before: Row, row: Row)
    requires forall k :: 0 <= k < |assignments| ==> Known(layout, assignments[k].0)
    requires CellsFrom(layout, assignments, before, row)
    ensures AllFit(layout, row) <==> AssignmentsFit(layout, assignments)
    ensures forall e :: RowRejected(layout, row, e) ==> AssignmentsRejected(layout, assignments, e)
  {
    hide Assigns, Known, ValueFits, Misfit;
    forall i: nat | MisfitAt(layout, row, i)
      ensures exists k: nat :: FirstUnfit(layout, assignments, i, k) && assignments[k].1 == row[i]
    {
      var k := LastExists(assignments, layout.columns[i].name);
      assert FirstUnfit(layout, assignments, i, k);
    }
    if !AllFit(layout, row) {
      FirstMisfit(layout, row, |row|);
    }
  }

  lemma {:induction false} FirstMisfit(layout: SchemaLayout, row: Row, n: nat)
    requires n <= |row| == |layout.columns|
    requires exists i :: 0 <= i < n && !ValueFits(layout.columns[i].columnType, row[i])
    ensures exists i: nat :: MisfitAt(layout, row, i)
  {
    hide ValueFits;
    if exists i :: 0 <= i < n - 1 && !ValueFits(layout.columns[i].columnType, row[i]) {
      FirstMisfit(layout, row, n - 1);
    } else {
      assert MisfitAt(layout, row, n - 1);
    }
  }

  /** The chosen rows hold what the assignments make of them, no other row changed, and the number
      reported is that of the chosen rows; or a row is chosen and the assignments do not fit, and nothing
      changed. */
  ghost predicate UpdatedRows(layout: SchemaLayout, m: R.RStore, chosen: set<Rid>, assignments: seq<Assignment>,
      t: R.RStore, r: Result<nat, TableError>)
    requires InBounds(layout)
  {
    match r
    case Err(e) =>
      t == m && chosen != {} && !AssignmentsFit(layout, assignments) && AssignmentsRejected(layout, assignments, e)
    case Ok(n) =>
      && n == |chosen| && (chosen != {} ==> AssignmentsFit(layout, assignments))
      && forall q ::
           var before, after := RowIn(layout, m, q), RowIn(layout, t, q);
           if q in chosen
           then before.Some? && after.Some? && RowAfter(layout, assignments, before.value, after.value)
           else after == before
  }

  ghost predicate RowsUpdated(layout: SchemaLayout, m: R.RStore, e: Option<Expr>, assignments: seq<Assignment>,
      t: R.RStore, r: Result<nat, TableError>)
    requires InBounds(layout)
  {
    if FilterOk(layout, e)
    then exists chosen :: ChosenAre(layout, m, e, chosen) && UpdatedRows(layout, m, chosen, assignments, t, r)
    else r.Err? && t == m
  }

  lemma UpdateMeans(layout: SchemaLayout, m: R.RStore, e: Option<Expr>, assignments: seq<Assignment>)
    requires TableOk(layout, m)
    ensures InBounds(layout)
    ensures var (t, r) := UpdateWhere(layout, m, e, assignments);
            RowsUpdated(layout, m, e, assignments, t, r)
  {
    hide TableOk, FilterOk, UpdateWhere, R.Lookup, Chosen, UpdatedBytes, Rewritten, AssignmentsFit, RowAfter,
      AssignmentsRejected, DecodeRow, CollectSpec;
    TableParts(layout, m);
    var probe := Zeros(layout.recordSize);
    UpdateIsAtomic(layout, m, e, assignments, probe);
    UpdatedMeans(layout, probe, assignments);
    var (t, r) := UpdateWhere(layout, m, e, assignments);
    if FilterOk(layout, e) {
      CollectedChosen(layout, m, e);
      UpdateCounts(layout, m, e, assignments);
      var chosen := RidSet(CollectSpec(layout, m, e).value);
      AnyChosen(layout, m, e, chosen);
      if r.Ok? {
        forall q ensures var before, after := RowIn(layout, m, q), RowIn(layout, t, q);
            if q in chosen
            then before.Some? && after.Some? && RowAfter(layout, assignments, before.value, after.value)
            else after == before
        {
          RowRewritten(layout, m, e, assignments, q);
        }
      }
      assert UpdatedRows(layout, m, chosen, assignments, t, r);
    }
  }

  lemma TableParts(layout: SchemaLayout, m: R.RStore)
    requires TableOk(layout, m)
    ensures Tiles(layout) && UniqueNames(layout) && InBounds(layout)
  {
    TilesInBounds(layout);
  }

  lemma UpdateCounts(layout: SchemaLayout, m: R.RStore, e: Option<Expr>, assignments: seq<Assignment>)
    requires TableOk(layout, m) && CursorOk(m, 1, 0) && CollectSpec(layout, m, e).Ok?
    ensures var r := UpdateWhere(layout, m, e, assignments).1;
            r.Ok? ==> r.value == |CollectSpec(layout, m, e).value|
  {
    hide Tiles, R.Inv, UniqueNames, OneUpdated, CollectSpec;
    CollectedSized(layout, m, e);
  }

  lemma AnyChosen(layout: SchemaLayout, m: R.RStore, e: Option<Expr>, chosen: set<Rid>)
    requires TableOk(layout, m) && InBounds(layout) && ChosenAre(layout, m, e, chosen)
    ensures SelectsAny(layout, m, e) <==> chosen != {}
  {
    hide TableOk, Chosen, Picked;
    forall q ensures Chosen(layout, m, e, q) <==> Picked(layout, m, e, q) {
      ChosenIsPicked(layout, m, e, q);
    }
    if chosen != {} {
      var q :| q in chosen;
      assert Picked(layout, m, e, q);
    }
  }

  lemma RowRewritten(layout: SchemaLayout, m: R.RStore, e: Option<Expr>, assignments: seq<Assignment>, q: Rid)
    requires TableOk(layout, m) && InBounds(layout)
    requires Chosen(layout, m, e, q) ==> AssignmentsFit(layout, assignments)
    ensures var before, d := RowIn(layout, m, q), Rewritten(layout, m, e, assignments, q);
            && (before.Some? <==> d.Some?)
            && (d.Some? ==>
                  && |d.value| == layout.recordSize
                  && var after := DecodeRow(layout, d.value);
                     if Chosen(layout, m, e, q) then RowAfter(layout, assignments, before.value, after)
                     else after == before.value)
  {
    hide R.Inv, Tiles, UniqueNames, R.Lookup, UpdatedBytes, HoldsOn, DecodeRow, AssignmentsFit, RowAfter;
    LookupSized(m, q);
    TilesInBounds(layout);
    if R.Lookup(m, q).Some? {
      UpdatedMeans(layout, R.Lookup(m, q).value, assignments);
    }
  }

  // ---- DELETE

  /** The chosen rows are gone, no other row changed, and the number reported is theirs. */
  ghost predicate DeletedRows(layout: SchemaLayout, m: R.RStore, chosen: set<Rid>, t: R.RStore,
      r: Result<nat, TableError>)
    requires InBounds(layout)
  {
    && r == Ok(|chosen|)
    && forall q :: RowIn(layout, t, q) == if q in chosen then None else RowIn(layout, m, q)
  }

  ghost predicate RowsDeleted(layout: SchemaLayout, m: R.RStore, e: Option<Expr>, t: R.RStore,
      r: Result<nat, TableError>)
    requires InBounds(layout)
  {
    if FilterOk(layout, e)
    then exists chosen :: ChosenAre(layout, m, e, chosen) && DeletedRows(layout, m, chosen, t, r)
    else r.Err? && t == m
  }

  lemma DeleteMeans(layout: SchemaLayout, m: R.RStore, e: Option<Expr>)
    requires TableOk(layout, m)
    ensures InBounds(layout)
    ensures var (t, r) := TableOps.DeleteWhere(layout, m, e);
            RowsDeleted(layout, m, e, t, r)
  {
    hide TableOk, FilterOk, TableOps.DeleteWhere, R.Lookup, Chosen, Picked, DecodeRow, CollectSpec;
    TableParts(layout, m);
    DeleteIsAtomic(layout, m, e);
    var (t, r) := TableOps.DeleteWhere(layout, m, e);
    if FilterOk(layout, e) {
      CollectedChosen(layout, m, e);
      DeleteCounts(layout, m, e);
      var chosen := RidSet(CollectSpec(layout, m, e).value);
      forall q ensures RowIn(layout, t, q) == if q in chosen then None else RowIn(layout, m, q) {
        ChosenIsPicked(layout, m, e, q);
      }
      assert DeletedRows(layout, m, chosen, t, r);
    }
  }

  lemma DeleteCounts(layout: SchemaLayout, m: R.RStore, e: Option<Expr>)
    requires TableOk(layout, m) && CursorOk(m, 1, 0) && CollectSpec(layout, m, e).Ok?
    ensures var r := TableOps.DeleteWhere(layout, m, e).1;
            r.Ok? ==> r.value == |CollectSpec(layout, m, e).value|
  {
    hide Tiles, R.Inv, UniqueNames, CollectSpec;
    CollectedSized(layout, m, e);
  }
}
