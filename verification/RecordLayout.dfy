/** The bytes of a record page: a 12-byte header, a bitmap of free slots, then the slots. */
module RecordLayout {
  import opened Outcomes
  import opened Bytes
  import opened PageStore

  const RECORD_FILE_HEADER_SIZE := 16
  const RECORD_PAGE_HEADER_SIZE := 12
  const RECORD_PAGE_LIST_END: i32 := -1
  const RECORD_PAGE_FULL: i32 := -2

  datatype Rid = Rid(page: PageId, slot: u32)

  /** Page and slot order. */
  predicate Before(a: Rid, b: Rid) {
    a.page < b.page || (a.page == b.page && a.slot < b.slot)
  }

  datatype RecordError =
    | PoolFailure
    | InvalidRecordSize(size: nat)
    | RecordTooLarge(size: nat)
    | InvalidPredicate
    | PredicateOutOfBounds(offset: nat, length: nat, recordSize: nat)
    | InvalidRid(rid: Rid)
    | EmptySlot(rid: Rid)
    | SizeMismatch(expected: nat, actual: nat)
    | RecordCorrupted

  // ---- how many slots fit

  function BitmapBytes(slots: nat): nat {
    (slots + 7) / 8
  }

  function UsedBytes(slots: nat, size: nat): nat {
    RECORD_PAGE_HEADER_SIZE + BitmapBytes(slots) + slots * size
  }

  predicate Fits(slots: nat, size: nat) {
    UsedBytes(slots, size) <= PAGE_DATA_SIZE
  }

  /** The first fitting count at or below n, counting down; 0 if there is none. */
  function Descend(n: nat, size: nat): (r: nat)
    ensures r <= n && (r > 0 ==> Fits(r, size))
    ensures forall m :: r < m <= n ==> !Fits(m, size)
  {
    if n == 0 || Fits(n, size) then n else Descend(n - 1, size)
  }

  function SlotsPerPage(size: nat): Result<nat, RecordError> {
    if size == 0 then Err(InvalidRecordSize(size))
    else
      var n := Descend(PAGE_DATA_SIZE / size, size);
      if n == 0 then Err(RecordTooLarge(size)) else Ok(n)
  }

  lemma BeyondQuotient(m: nat, size: nat)
    requires size > 0 && m > PAGE_DATA_SIZE / size
    ensures m * size > PAGE_DATA_SIZE
  {
    assert m * size >= (PAGE_DATA_SIZE / size + 1) * size;
  }

  lemma FitsDownward(n: nat, m: nat, size: nat)
    requires m <= n && Fits(n, size)
    ensures Fits(m, size)
  {
    assert m * size <= n * size;
  }

  /** The slot count is the largest that fits; it fails exactly when not even one slot fits. */
  lemma SlotsPerPageExact(size: nat)
    ensures SlotsPerPage(size).Ok? <==> size > 0 && Fits(1, size)
    ensures SlotsPerPage(size).Ok? ==>
              && var n := SlotsPerPage(size).value;
              && n > 0 && Fits(n, size) && !Fits(n + 1, size)
              && forall m: nat :: Fits(m, size) <==> m <= n
    ensures SlotsPerPage(size).Err? ==>
              SlotsPerPage(size).error == if size == 0 then InvalidRecordSize(0) else RecordTooLarge(size)
  {
    if size > 0 {
      var n := Descend(PAGE_DATA_SIZE / size, size);
      forall m: nat | n < m ensures !Fits(m, size) {
        if m > PAGE_DATA_SIZE / size {
          BeyondQuotient(m, size);
        }
      }
      if n > 0 {
        forall m: nat | m <= n ensures Fits(m, size) {
          FitsDownward(n, m, size);
        }
      }
    }
  }

  method ComputeSlotsPerPage(size: nat) returns (r: Result<nat, RecordError>)
    ensures r == SlotsPerPage(size)
  {
    if size == 0 {
      return Err(InvalidRecordSize(size));
    }
    var slots := PAGE_DATA_SIZE / size;
    while slots > 0
      invariant slots >= 0 && Descend(slots, size) == Descend(PAGE_DATA_SIZE / size, size)
    {
      var bitmapSize := BitmapBytes(slots);
      var usedBytes := RECORD_PAGE_HEADER_SIZE + bitmapSize + slots * size;
      if usedBytes <= PAGE_DATA_SIZE {
        return Ok(slots);
      }
      slots := slots - 1;
    }
    return Err(RecordTooLarge(size));
  }

  // ---- where a slot lies

  predicate Layout(size: nat, slots: nat) {
    size > 0 && slots > 0 && Fits(slots, size)
  }

  lemma LayoutBounds(size: nat, slots: nat)
    requires Layout(size, slots)
    ensures slots < PAGE_DATA_SIZE && size < PAGE_DATA_SIZE
    ensures RECORD_PAGE_HEADER_SIZE + BitmapBytes(slots) < PAGE_DATA_SIZE
  {
    assert slots * size >= slots && slots * size >= size;
  }

  function RecordStart(slot: nat, size: nat, slots: nat): nat {
    RECORD_PAGE_HEADER_SIZE + BitmapBytes(slots) + slot * size
  }

  /** A slot's bytes lie within the page, after the bitmap. */
  lemma RecordInPage(slot: nat, size: nat, slots: nat)
    requires Layout(size, slots) && slot < slots
    ensures RECORD_PAGE_HEADER_SIZE + BitmapBytes(slots) <= RecordStart(slot, size, slots)
    ensures RecordStart(slot, size, slots) + size <= PAGE_DATA_SIZE
    ensures slot / 8 < BitmapBytes(slots)
  {
    assert (slot + 1) * size <= slots * size;
    assert (slot + 1) * size == slot * size + size;
  }

  /** Distinct slots do not overlap. */
  lemma RecordsDisjoint(a: nat, b: nat, size: nat, slots: nat)
    requires a < b
    ensures RecordStart(a, size, slots) + size <= RecordStart(b, size, slots)
  {
    assert (a + 1) * size <= b * size;
    assert (a + 1) * size == a * size + size;
  }

  // ---- reading a page

  function NextPage(d: Data): i32 {
    DecodeI32(d[0..4])
  }

  function NumSlots(d: Data): u32 {
    DecodeU32(d[4..8])
  }

  function NumFree(d: Data): u32 {
    DecodeU32(d[8..12])
  }

  function SlotByte(slot: nat): nat {
    RECORD_PAGE_HEADER_SIZE + slot / 8
  }

  predicate SlotIsFree(d: Data, slot: nat)
    requires SlotByte(slot) < PAGE_DATA_SIZE
  {
    Bit(d[SlotByte(slot)], slot % 8)
  }

  function RecordAt(d: Data, slot: nat, size: nat, slots: nat): seq<byte>
    requires RecordStart(slot, size, slots) + size <= PAGE_DATA_SIZE
  {
    d[RecordStart(slot, size, slots)..RecordStart(slot, size, slots) + size]
  }

  // ---- writing a page

  function EncodePageHeader(next: i32, slots: u32, free: u32): (s: seq<byte>)
    ensures |s| == RECORD_PAGE_HEADER_SIZE
  {
    EncodeI32(next) + EncodeU32(slots) + EncodeU32(free)
  }

  function PutPageHeader(d: Data, next: i32, slots: u32, free: u32): Data {
    Splice(d, 0, EncodePageHeader(next, slots, free))
  }

  function PutSlot(d: Data, slot: nat, free: bool): Data
    requires SlotByte(slot) < PAGE_DATA_SIZE
  {
    d[SlotByte(slot) := PutBit(d[SlotByte(slot)], slot % 8, free)]
  }

  function PutRecord(d: Data, slot: nat, size: nat, slots: nat, bytes: seq<byte>): Data
    requires |bytes| == size && RecordStart(slot, size, slots) + size <= PAGE_DATA_SIZE
  {
    Splice(d, RecordStart(slot, size, slots), bytes)
  }

  // ---- a page as a value

  datatype RPage = RPage(next: i32, count: u32, free: seq<bool>, recs: seq<seq<byte>>)

  function DecodePage(d: Data, size: nat, slots: nat): (p: RPage)
    requires Layout(size, slots)
    ensures |p.free| == slots && |p.recs| == slots
  {
    RPage(NextPage(d), NumFree(d),
          seq(slots, i requires 0 <= i < slots => RecordInPage(i, size, slots); SlotIsFree(d, i)),
          seq(slots, i requires 0 <= i < slots => RecordInPage(i, size, slots); RecordAt(d, i, size, slots)))
  }

  lemma HeaderParts(d: Data, next: i32, slots: u32, free: u32)
    ensures var e := PutPageHeader(d, next, slots, free);
            NextPage(e) == next && NumSlots(e) == slots && NumFree(e) == free
    ensures forall i :: RECORD_PAGE_HEADER_SIZE <= i < PAGE_DATA_SIZE ==>
              PutPageHeader(d, next, slots, free)[i] == d[i]
  {
    var e := PutPageHeader(d, next, slots, free);
    assert e[0..4] == EncodeI32(next);
    assert e[4..8] == EncodeU32(slots);
    assert e[8..12] == EncodeU32(free);
    I32RoundTrip(next);
    U32RoundTrip(slots);
    U32RoundTrip(free);
  }

  /** Rewriting the page header leaves bitmap and slots alone. */
  lemma DecodePutHeader(d: Data, size: nat, slots: nat, next: i32, num: u32, free: u32)
    requires Layout(size, slots)
    ensures var e := PutPageHeader(d, next, num, free);
            DecodePage(e, size, slots) == DecodePage(d, size, slots).(next := next, count := free) && NumSlots(e) == num
  {
    hide PutPageHeader, NextPage, NumSlots, NumFree, RecordStart;
    var e := PutPageHeader(d, next, num, free);
    HeaderParts(d, next, num, free);
    forall i: nat | i < slots
      ensures DecodePage(e, size, slots).free[i] == DecodePage(d, size, slots).free[i]
      ensures DecodePage(e, size, slots).recs[i] == DecodePage(d, size, slots).recs[i]
    {
      RecordInPage(i, size, slots);
      assert RecordAt(e, i, size, slots) == RecordAt(d, i, size, slots);
    }
    assert DecodePage(e, size, slots).free == DecodePage(d, size, slots).free;
    assert DecodePage(e, size, slots).recs == DecodePage(d, size, slots).recs;
  }

  /** Setting one slot bit changes that bit alone. */
  lemma DecodePutSlot(d: Data, size: nat, slots: nat, slot: nat, free: bool)
    requires Layout(size, slots) && slot < slots
    ensures SlotByte(slot) < PAGE_DATA_SIZE
    ensures var e := PutSlot(d, slot, free);
            && DecodePage(e, size, slots) == DecodePage(d, size, slots).(free :=
               DecodePage(d, size, slots).free[slot := free])
            && NumSlots(e) == NumSlots(d)
  {
    hide RecordStart, BitmapBytes, Bit, PutBit;
    RecordInPage(slot, size, slots);
    LayoutBounds(size, slots);
    var e := PutSlot(d, slot, free);
    SlotHeaderUntouched(d, slot, free);
    forall i: nat | i < slots
      ensures DecodePage(e, size, slots).free[i] == if i == slot then free else DecodePage(d, size, slots).free[i]
      ensures DecodePage(e, size, slots).recs[i] == DecodePage(d, size, slots).recs[i]
    {
      RecordInPage(i, size, slots);
      PutBitAt(d[SlotByte(slot)], slot % 8, free, i % 8);
      assert RecordAt(e, i, size, slots) == RecordAt(d, i, size, slots);
    }
    assert DecodePage(e, size, slots).free == DecodePage(d, size, slots).free[slot := free];
    assert DecodePage(e, size, slots).recs == DecodePage(d, size, slots).recs;
  }

  lemma SlotHeaderUntouched(d: Data, slot: nat, free: bool)
    requires SlotByte(slot) < PAGE_DATA_SIZE
    ensures var e := PutSlot(d, slot, free);
            NextPage(e) == NextPage(d) && NumSlots(e) == NumSlots(d) && NumFree(e) == NumFree(d)
  {
    var e := PutSlot(d, slot, free);
    assert e[0..4] == d[0..4] && e[4..8] == d[4..8] && e[8..12] == d[8..12];
  }

  /** Overwriting one slot changes that record alone. */
  lemma DecodePutRecord(d: Data, size: nat, slots: nat, slot: nat, bytes: seq<byte>)
    requires Layout(size, slots) && slot < slots && |bytes| == size
    ensures RecordStart(slot, size, slots) + size <= PAGE_DATA_SIZE
    ensures var e := PutRecord(d, slot, size, slots, bytes);
            && DecodePage(e, size, slots) == DecodePage(d, size, slots).(recs :=
               DecodePage(d, size, slots).recs[slot := bytes])
            && NumSlots(e) == NumSlots(d)
  {
    hide RecordStart, BitmapBytes, Bit, Splice;
    RecordInPage(slot, size, slots);
    var e, at := PutRecord(d, slot, size, slots, bytes), RecordStart(slot, size, slots);
    forall i: nat | i < slots
      ensures DecodePage(e, size, slots).free[i] == DecodePage(d, size, slots).free[i]
      ensures DecodePage(e, size, slots).recs[i] == if i == slot then bytes else DecodePage(d, size, slots).recs[i]
    {
      RecordInPage(i, size, slots);
      SpliceByte(d, at, bytes, SlotByte(i));
      RecordKept(d, size, slots, slot, bytes, i);
    }
    SpliceOther(d, at, bytes, 0, 4);
    SpliceOther(d, at, bytes, 4, 8);
    SpliceOther(d, at, bytes, 8, 12);
    assert DecodePage(e, size, slots).free == DecodePage(d, size, slots).free;
    assert DecodePage(e, size, slots).recs == DecodePage(d, size, slots).recs[slot := bytes];
  }

  lemma SpliceByte(s: seq<byte>, at: nat, part: seq<byte>, i: nat)
    requires at + |part| <= |s| && i < |s|
    ensures i < at || at + |part| <= i ==> Splice(s, at, part)[i] == s[i]
  {
  }

  lemma RecordKept(d: Data, size: nat, slots: nat, slot: nat, bytes: seq<byte>, i: nat)
    requires Layout(size, slots) && slot < slots && |bytes| == size && i < slots
    ensures RecordStart(slot, size, slots) + size <= PAGE_DATA_SIZE
    ensures RecordStart(i, size, slots) + size <= PAGE_DATA_SIZE
    ensures RecordAt(PutRecord(d, slot, size, slots, bytes), i, size, slots) ==
            if i == slot then bytes else RecordAt(d, i, size, slots)
  {
    hide RecordStart, BitmapBytes, Splice;
    RecordInPage(slot, size, slots);
    RecordInPage(i, size, slots);
    var at, lo := RecordStart(slot, size, slots), RecordStart(i, size, slots);
    if i < slot {
      RecordsDisjoint(i, slot, size, slots);
      SpliceOther(d, at, bytes, lo, lo + size);
    } else if slot < i {
      RecordsDisjoint(slot, i, size, slots);
      SpliceOther(d, at, bytes, lo, lo + size);
    } else {
      SpliceSame(d, at, bytes);
    }
  }

  // ---- a fresh page

  function Repeat<T>(n: nat, x: T): (s: seq<T>)
    ensures |s| == n && forall i :: 0 <= i < n ==> s[i] == x
  {
    seq(n, _ => x)
  }

  function FreshPage(size: nat, slots: nat): RPage
    requires slots < 0x1_0000_0000
  {
    RPage(RECORD_PAGE_LIST_END, slots, Repeat(slots, true), Repeat(slots, Zeros(size)))
  }

  function FreshBytes(slots: u32): Data {
    var header := EncodePageHeader(RECORD_PAGE_LIST_END, slots, slots);
    seq(PAGE_DATA_SIZE, i requires 0 <= i < PAGE_DATA_SIZE =>
      if i < RECORD_PAGE_HEADER_SIZE then header[i]
      else if i < RECORD_PAGE_HEADER_SIZE + BitmapBytes(slots) then 0xFF else 0)
  }

  /** A fresh page has every slot free and zeroed. */
  lemma DecodeFresh(size: nat, slots: u32)
    requires Layout(size, slots)
    ensures DecodePage(FreshBytes(slots), size, slots) == FreshPage(size, slots)
    ensures NumSlots(FreshBytes(slots)) == slots
  {
    hide Bit, RecordStart, BitmapBytes;
    var d := FreshBytes(slots);
    assert d[0..4] == EncodeI32(RECORD_PAGE_LIST_END);
    assert d[4..8] == EncodeU32(slots);
    assert d[8..12] == EncodeU32(slots);
    I32RoundTrip(RECORD_PAGE_LIST_END);
    U32RoundTrip(slots);
    forall i: nat | i < slots
      ensures DecodePage(d, size, slots).free[i]
      ensures DecodePage(d, size, slots).recs[i] == Zeros(size)
    {
      RecordInPage(i, size, slots);
      FullByte(i % 8);
      assert d[SlotByte(i)] == 0xFF;
      assert RecordAt(d, i, size, slots) == Zeros(size);
    }
    assert DecodePage(d, size, slots).free == Repeat(slots, true);
    assert DecodePage(d, size, slots).recs == Repeat(slots, Zeros(size));
  }

  /** Initialising a page in place; with a layout that fits it cannot fail. */
  method InitializePage(bytes: array<byte>, slots: u32, size: nat) returns (r: Result<(), RecordError>)
    requires bytes.Length == PAGE_DATA_SIZE && Layout(size, slots)
    modifies bytes
    ensures r == Ok(()) && bytes[..] == FreshBytes(slots)
  {
    LayoutBounds(size, slots);
    var header := EncodePageHeader(RECORD_PAGE_LIST_END, slots, slots);
    forall i | 0 <= i < bytes.Length {
      bytes[i] := 0;
    }
    forall i | 0 <= i < RECORD_PAGE_HEADER_SIZE {
      bytes[i] := header[i];
    }
    forall i | RECORD_PAGE_HEADER_SIZE <= i < RECORD_PAGE_HEADER_SIZE + BitmapBytes(slots) {
      bytes[i] := 0xFF;
    }
    var recordDataStart := RECORD_PAGE_HEADER_SIZE + BitmapBytes(slots);
    var usedBytes := recordDataStart + slots * size;
    if usedBytes > PAGE_DATA_SIZE {
      assert false;
    }
    return Ok(());
  }
}
