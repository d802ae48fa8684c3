/** Scanning a record file: every live record once, in page and slot order. */
module RecordScans {
  import opened Outcomes
  import opened Bytes
  import opened PageStore
  import opened RecordLayout
  import opened PoolUse
  import opened RecordFiles
  import R = RecordStores

  datatype Record = Record(rid: Rid, data: seq<byte>)

  type Predicate = seq<byte> -> Result<bool, RecordError>

  // ---- what a scan yields

  ghost predicate CursorOk(m: R.RStore, p: nat, i: nat) {
    |m.pages| < 0xFFFF_FFFF && 1 <= p <= |m.pages| + 1 && i < m.slots
  }

  function RecordsAt(m: R.RStore, p: PageId, i: u32): seq<Record> {
    var v := R.Lookup(m, Rid(p, i));
    if v.Some? then [Record(Rid(p, i), v.value)] else []
  }

  function Advanced(m: R.RStore, p: nat, i: nat): (nat, nat) {
    if i + 1 < m.slots then (p, i + 1) else (p + 1, 0)
  }

  /** The live records from cursor (p, i) on. */
  ghost function ScanFrom(m: R.RStore, p: nat, i: nat): seq<Record>
    requires CursorOk(m, p, i)
    decreases |m.pages| + 1 - p, m.slots - i
  {
    if p > |m.pages| then []
    else
      var next := Advanced(m, p, i);
      RecordsAt(m, p, i) + ScanFrom(m, next.0, next.1)
  }

  ghost function ScanAll(m: R.RStore): seq<Record>
    requires CursorOk(m, 1, 0)
  {
    ScanFrom(m, 1, 0)
  }

  predicate AtOrAfter(r: Rid, p: nat, i: nat) {
    r.page > p || (r.page == p && r.slot >= i)
  }

  /** From a cursor on, exactly the live records at or after it. */
  lemma {:induction false} ScanExact(m: R.RStore, p: nat, i: nat, x: Record)
    requires CursorOk(m, p, i)
    ensures x in ScanFrom(m, p, i) <==> AtOrAfter(x.rid, p, i) && R.Lookup(m, x.rid) == Some(x.data)
    decreases |m.pages| + 1 - p, m.slots - i
  {
    hide R.PageHolds;
    if p <= |m.pages| {
      var next := Advanced(m, p, i);
      ScanExact(m, next.0, next.1, x);
    }
  }

  /** In strictly increasing page and slot order, hence each once. */
  lemma {:induction false} ScanOrdered(m: R.RStore, p: nat, i: nat)
    requires CursorOk(m, p, i)
    ensures forall a, b :: 0 <= a < b < |ScanFrom(m, p, i)| ==>
              Before(ScanFrom(m, p, i)[a].rid, ScanFrom(m, p, i)[b].rid)
    decreases |m.pages| + 1 - p, m.slots - i
  {
    if p <= |m.pages| {
      var next := Advanced(m, p, i);
      var rest := ScanFrom(m, next.0, next.1);
      ScanOrdered(m, next.0, next.1);
      forall a | 0 <= a < |rest| ensures AtOrAfter(rest[a].rid, next.0, next.1) {
        ScanExact(m, next.0, next.1, rest[a]);
        assert rest[a] in rest;
      }
    }
  }

  /** A whole scan yields exactly the live records. */
  lemma ScanAllExact(m: R.RStore, x: Record)
    requires CursorOk(m, 1, 0)
    ensures x in ScanAll(m) <==> R.Lookup(m, x.rid) == Some(x.data)
  {
    ScanExact(m, 1, 0, x);
  }

  /** The records that satisfy the predicate, or its first error. */
  function Collect(recs: seq<Record>, pred: Predicate): Result<seq<Record>, RecordError>
    decreases |recs|
  {
    if recs == [] then Ok([])
    else
      var keep :- pred(recs[0].data);
      var rest :- Collect(recs[1..], pred);
      Ok((if keep then [recs[0]] else []) + rest)
  }

  function Prepend(x: Record, rest: Result<seq<Record>, RecordError>): Result<seq<Record>, RecordError> {
    match rest
    case Ok(xs) => Ok([x] + xs)
    case Err(e) => Err(e)
  }

  lemma CollectStep(x: Record, rest: seq<Record>, pred: Predicate)
    ensures Collect([x] + rest, pred) ==
            match pred(x.data)
            case Err(e) => Err(e)
            case Ok(keep) => if keep then Prepend(x, Collect(rest, pred)) else Collect(rest, pred)
  {
    assert ([x] + rest)[1..] == rest;
    if pred(x.data).Ok? && Collect(rest, pred).Ok? {
      assert [] + Collect(rest, pred).value == Collect(rest, pred).value;
    }
  }

  class RecordScan {
    const file: RecordFile
    const predicate_: Predicate
    var nextPage: PageId
    var nextSlot: u32

    ghost predicate Valid()
      reads this, file, file.pool
    {
      file.Valid() && CursorOk(file.Model(), nextPage, nextSlot)
    }

    ghost function Rest(): seq<Record>
      reads this, file, file.pool
      requires Valid()
    {
      ScanFrom(file.Model(), nextPage, nextSlot)
    }

    constructor (file: RecordFile, pred: Predicate)
      requires file.Valid()
      ensures this.file == file && predicate_ == pred
      ensures Valid() && CursorOk(file.Model(), 1, 0) && Rest() == ScanAll(file.Model())
    {
      this.file, predicate_ := file, pred;
      nextPage, nextSlot := 1, 0;
      new;
      FirstCursor(file.Model());
    }

    /** The next record that satisfies the predicate; records in between do not satisfy it. */
    method NextRecord() returns (r: Result<Option<Record>, RecordError>)
      requires Valid()
      modifies this, file.pool
      ensures Valid() && file.Model() == old(file.Model())
      ensures match r
              case Err(e) => Collect(old(Rest()), predicate_) == Err(e)
              case Ok(None) => Collect(old(Rest()), predicate_) == Ok([])
              case Ok(Some(x)) => Collect(old(Rest()), predicate_) == Prepend(x, Collect(Rest(), predicate_)) &&
                                  |Rest()| < |old(Rest())|
    {
      hide R.Inv, FileOk, StoreIn, Sequential, Layout, R.Lookup;
      file.StoreFields();
      while nextPage <= file.header.num
        invariant Valid() && file.Model() == old(file.Model()) && file.header == old(file.header)
        invariant Collect(old(Rest()), predicate_) == Collect(Rest(), predicate_)
        invariant |Rest()| <= |old(Rest())|
        decreases file.header.num - nextPage, file.header.slots - nextSlot
      {
        var pageId, slotId := nextPage, nextSlot;
        ghost var m, before := file.Model(), Rest();
        AdvanceCursor();
        var used := file.ReadRecordIfUsed(pageId, slotId);
        file.StoreFields();
        if used.None? {
          assert before == Rest();
          continue;
        }
        var record := Record(Rid(pageId, slotId), used.value);
        assert before == [record] + Rest();
        CollectStep(record, Rest(), predicate_);
        var keep := predicate_(record.data);
        if keep.Err? {
          return Err(keep.error);
        }
        if keep.value {
          return Ok(Some(record));
        }
      }
      file.StoreFields();
      return Ok(None);
    }

    method AdvanceCursor()
      requires Valid() && nextPage <= file.header.num
      modifies this
      ensures Valid()
      ensures (nextPage as nat, nextSlot as nat) == Advanced(file.Model(), old(nextPage), old(nextSlot))
    {
      file.StoreFields();
      if nextSlot + 1 < file.header.slots {
        nextSlot := nextSlot + 1;
      } else {
        nextPage := nextPage + 1;
        nextSlot := 0;
      }
    }
  }

  lemma FirstCursor(m: R.RStore)
    requires R.Inv(m)
    ensures CursorOk(m, 1, 0)
  {
  }

  /** Reads a scan to its end: all matching records in order, or the predicate's first error. */
  method CollectAll(file: RecordFile, pred: Predicate) returns (r: Result<seq<Record>, RecordError>)
    requires file.Valid()
    modifies file.pool
    ensures file.Valid() && file.Model() == old(file.Model())
    ensures CursorOk(file.Model(), 1, 0) && r == Collect(ScanAll(file.Model()), pred)
  {
    hide R.Inv, FileOk, StoreIn, Sequential, ScanFrom, Collect;
    var scan := new RecordScan(file, pred);
    r := ReadOut(scan);
  }

  method ReadOut(scan: RecordScan) returns (r: Result<seq<Record>, RecordError>)
    requires scan.Valid()
    modifies scan, scan.file.pool
    ensures scan.Valid() && scan.file.Model() == old(scan.file.Model())
    ensures r == Collect(old(scan.Rest()), scan.predicate_)
  {
    hide R.Inv, StoreIn, Sequential, ScanFrom, Collect, CursorOk, Joined, Prepend, Quiet, NumSlots, RawRHeader,
      PageAt, Layout;
    var records := [];
    ghost var all := Collect(scan.Rest(), scan.predicate_);
    var next := scan.NextRecord();
    if next.Ok? && next.value.Some? {
      JoinedNil(Prepend(next.value.value, Collect(scan.Rest(), scan.predicate_)));
    }
    while next.Ok? && next.value.Some?
      invariant scan.Valid() && scan.file.Model() == old(scan.file.Model())
      invariant match next
                case Err(e) => all == Err(e)
                case Ok(None) => all == Ok(records)
                case Ok(Some(x)) => all == Joined(records, Prepend(x, Collect(scan.Rest(), scan.predicate_)))
      decreases next.Ok? && next.value.Some?, |scan.Rest()|
    {
      var x := next.value.value;
      ghost var before, rest := records, Collect(scan.Rest(), scan.predicate_);
      JoinedPrepend(before, x, rest);
      records := records + [x];
      next := scan.NextRecord();
      JoinedCases(records, rest);
    }
    if next.Err? {
      return Err(next.error);
    }
    return Ok(records);
  }

  lemma JoinedNil(rest: Result<seq<Record>, RecordError>)
    ensures Joined([], rest) == rest
  {
    if rest.Ok? {
      assert [] + rest.value == rest.value;
    }
  }

  lemma JoinedCases(xs: seq<Record>, rest: Result<seq<Record>, RecordError>)
    ensures rest == Ok([]) ==> Joined(xs, rest) == Ok(xs)
    ensures rest.Err? ==> Joined(xs, rest) == rest
  {
    assert xs + [] == xs;
  }

  ghost function Joined(xs: seq<Record>, rest: Result<seq<Record>, RecordError>): Result<seq<Record>, RecordError> {
    match rest
    case Ok(ys) => Ok(xs + ys)
    case Err(e) => Err(e)
  }

  lemma JoinedPrepend(xs: seq<Record>, x: Record, rest: Result<seq<Record>, RecordError>)
    ensures Joined(xs, Prepend(x, rest)) == Joined(xs + [x], rest)
  {
    if rest.Ok? {
      assert xs + ([x] + rest.value) == (xs + [x]) + rest.value;
    }
  }
}
