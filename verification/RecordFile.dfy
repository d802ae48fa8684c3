/** The record file: records in slotted pages, read and written through the buffer pool. */
module RecordFiles {
  import opened Outcomes
  import opened Bytes
  import opened PageStore
  import opened PoolStates
  import opened PoolSteps
  import opened PoolRuns
  import opened PoolUse
  import opened BufferPools
  import opened RecordLayout
  import R = RecordStores

  const HEADER_PAGE_ID: PageId := 0

  // ---- the file header

  datatype RHeader = RHeader(size: u32, slots: u32, first: i32, num: u32)

  function EncodeRHeader(h: RHeader): (s: seq<byte>)
    ensures |s| == RECORD_FILE_HEADER_SIZE
  {
    EncodeU32(h.size) + EncodeU32(h.slots) + EncodeI32(h.first) + EncodeU32(h.num)
  }

  function RawRHeader(s: seq<byte>): RHeader
    requires |s| >= RECORD_FILE_HEADER_SIZE
  {
    RHeader(DecodeU32(s[0..4]), DecodeU32(s[4..8]), DecodeI32(s[8..12]), DecodeU32(s[12..16]))
  }

  function ValidateRHeader(h: RHeader): Result<(), RecordError> {
    if h.size == 0 then Err(RecordCorrupted)
    else
      var expected :- SlotsPerPage(h.size);
      if h.slots != expected then Err(RecordCorrupted)
      else if h.first < RECORD_PAGE_LIST_END then Err(RecordCorrupted)
      else if h.first != RECORD_PAGE_LIST_END && AsU32(h.first) > h.num then Err(RecordCorrupted)
      else Ok(())
  }

  function DecodeRHeader(s: seq<byte>): Result<RHeader, RecordError>
    requires |s| >= RECORD_FILE_HEADER_SIZE
  {
    var _ :- ValidateRHeader(RawRHeader(s));
    Ok(RawRHeader(s))
  }

  lemma RHeaderRoundTrip(d: Data, h: RHeader)
    ensures RawRHeader(Splice(d, 0, EncodeRHeader(h))) == h
  {
    var e := Splice(d, 0, EncodeRHeader(h));
    assert e[0..4] == EncodeU32(h.size) && e[4..8] == EncodeU32(h.slots);
    assert e[8..12] == EncodeI32(h.first) && e[12..16] == EncodeU32(h.num);
    U32RoundTrip(h.size);
    U32RoundTrip(h.slots);
    I32RoundTrip(h.first);
    U32RoundTrip(h.num);
  }

  // ---- the record file inside the pool

  /** The page file hands out pages n, n + 1, ... in this order. */
  ghost predicate Sequential(store: Store, n: nat) {
    store.num == n + |store.chain| && forall i :: 0 <= i < |store.chain| ==> store.chain[i] == n + i
  }

  ghost function PageAt(s: State, id: FileId, p: PageId): Data {
    var v := ViewAt(s, Key(id, p));
    if v.Some? then v.value else Zeros(PAGE_DATA_SIZE)
  }

  ghost predicate FileOk(s: State, id: FileId, h: RHeader, headerDirty: bool) {
    && Quiet(s)
    && id in s.files
    && (forall p: PageId :: p <= h.num ==> ViewAt(s, Key(id, p)).Some?)
    && Layout(h.size, h.slots)
    && (forall p: PageId :: 1 <= p <= h.num ==> NumSlots(PageAt(s, id, p)) == h.slots)
    && (!headerDirty ==> RawRHeader(PageAt(s, id, HEADER_PAGE_ID)) == h)
  }

  ghost function StoreIn(s: State, id: FileId, h: RHeader): (r: R.RStore)
    requires Layout(h.size, h.slots)
    ensures |r.pages| == h.num
    ensures forall p: PageId :: 1 <= p <= h.num ==> r.pages[p - 1] == DecodePage(PageAt(s, id, p), h.size, h.slots)
  {
    R.RStore(h.size, h.slots, h.first,
             seq(h.num, i requires 0 <= i < h.num => DecodePage(PageAt(s, id, i + 1), h.size, h.slots)))
  }

  /** Pages 0 to num are stored. */
  lemma PagesStored(s: State, id: FileId, h: RHeader, headerDirty: bool, p: PageId)
    requires FileOk(s, id, h, headerDirty) && p <= h.num
    ensures Quiet(s) && Stored(s.files, Key(id, p)) && ViewAt(s, Key(id, p)) == Some(PageAt(s, id, p))
  {
    VisibleIsStored(s, Key(id, p));
  }

  /** The view after writing bytes e to page p of the file. */
  ghost predicate Wrote(s: State, t: State, id: FileId, p: PageId, e: Data) {
    forall k :: ViewAt(t, k) == if k == Key(id, p) then Some(e) else ViewAt(s, k)
  }

  lemma PageWritten(s: State, t: State, id: FileId, h: RHeader, headerDirty: bool, p: PageId, e: Data)
    requires FileOk(s, id, h, headerDirty) && 1 <= p <= h.num
    requires Quiet(t) && SameDims(s, t) && Wrote(s, t, id, p, e) && NumSlots(e) == h.slots
    ensures FileOk(t, id, h, headerDirty)
    ensures StoreIn(t, id, h) ==
              StoreIn(s, id, h).(pages := StoreIn(s, id, h).pages[p - 1 := DecodePage(e, h.size, h.slots)])
  {
    hide Quiet, NumSlots, DecodePage, RawRHeader, ViewAt;
    assert forall q: PageId :: PageAt(t, id, q) == if q == p then e else PageAt(s, id, q);
  }

  /** The header fields change only in memory. */
  lemma HeaderChanged(s: State, id: FileId, h: RHeader, headerDirty: bool, first: i32)
    requires FileOk(s, id, h, headerDirty)
    ensures FileOk(s, id, h.(first := first), true)
    ensures StoreIn(s, id, h.(first := first)) == StoreIn(s, id, h).(first := first)
  {
    hide Quiet, NumSlots, DecodePage, RawRHeader, ViewAt;
  }

  lemma HeaderWritten(s: State, t: State, id: FileId, h: RHeader, headerDirty: bool, e: Data)
    requires FileOk(s, id, h, headerDirty)
    requires Quiet(t) && SameDims(s, t) && Wrote(s, t, id, HEADER_PAGE_ID, e) && RawRHeader(e) == h
    ensures FileOk(t, id, h, false) && StoreIn(t, id, h) == StoreIn(s, id, h)
  {
    hide Quiet, NumSlots, DecodePage, RawRHeader, ViewAt;
    assert forall q: PageId :: PageAt(t, id, q) == if q == HEADER_PAGE_ID then e else PageAt(s, id, q);
  }

  lemma PageGrown(s: State, t: State, id: FileId, h: RHeader, headerDirty: bool, e: Data)
    requires FileOk(s, id, h, headerDirty) && h.num < 0xFFFF_FFFE
    requires Quiet(t) && id in t.files
    requires Wrote(s, t, id, h.num + 1, e) && NumSlots(e) == h.slots
    ensures var g := h.(num := h.num + 1, first := AsI32(h.num + 1));
            && FileOk(t, id, g, true)
            && StoreIn(t, id, g) == StoreIn(s, id, h).(first := AsI32(h.num + 1),
                                      pages := StoreIn(s, id, h).pages + [DecodePage(e, h.size, h.slots)])
  {
    hide Quiet, NumSlots, DecodePage, RawRHeader;
    assert forall q: PageId :: PageAt(t, id, q) == if q == h.num + 1 then e else PageAt(s, id, q);
  }

  lemma NextInOrder(s: State, id: FileId, n: nat)
    requires Quiet(s) && id in s.files && n < 0xFFFF_FFFF
    ensures Sequential(s.files[id], n) ==>
              && Allocate(s.files[id]).Ok? && Allocate(s.files[id]).value.1 == n
              && Sequential(Allocate(s.files[id]).value.0, n + 1)
  {
    hide Sequential, Allocate;
    FilesValid(s, id);
    if Sequential(s.files[id], n) {
      SequentialAllocates(s.files[id], n);
    }
  }

  /** The page files hand out the same pages from now on. */
  predicate SameChain(a: Store, b: Store) {
    a.num == b.num && a.chain == b.chain
  }

  lemma SameChainSequential(a: Store, b: Store, n: nat)
    requires Sequential(a, n) && SameChain(a, b)
    ensures Sequential(b, n)
  {
  }

  lemma WrotePage(s: State, t: State, id: FileId, p: PageId, e: Data)
    requires Wrote(s, t, id, p, e)
    ensures ViewAt(t, Key(id, p)) == Some(e) && PageAt(t, id, p) == e
  {
  }

  /** The next page handed out is none of the pages of the record file. */
  lemma NextPageUnused(s: State, id: FileId, h: RHeader, headerDirty: bool)
    requires FileOk(s, id, h, headerDirty) && Allocate(s.files[id]).Ok?
    ensures h.num < Allocate(s.files[id]).value.1 < 0xFFFF_FFFF
  {
    hide NumSlots, RawRHeader, Quiet, ViewAt;
    var p := Allocate(s.files[id]).value.1;
    FileKnown(s, id, h, headerDirty);
    FilesValid(s, id);
    AllocateFresh(s.files[id]);
    if p <= h.num {
      PagesStored(s, id, h, headerDirty, p);
    }
  }

  lemma EmptyIsSequential()
    ensures Valid(EMPTY_STORE) && Sequential(EMPTY_STORE, 0) && Allocate(EMPTY_STORE).Ok?
    ensures Allocate(EMPTY_STORE).value.1 == 0
  {
  }

  lemma SequentialAllocates(store: Store, n: nat)
    requires Valid(store) && Sequential(store, n) && n < 0xFFFF_FFFF
    ensures Allocate(store).Ok? && Allocate(store).value.1 == n && Sequential(Allocate(store).value.0, n + 1)
  {
  }

  /** The page handed out after k others. */
  function NthPage(store: Store, k: nat): Option<PageId>
    decreases k
  {
    match Allocate(store)
    case Err(_) => None
    case Ok((next, p)) => if k == 0 then Some(p) else NthPage(next, k - 1)
  }

  /** First the free chain, then page ids never used before. */
  function ChainThenNew(store: Store, k: nat): Option<PageId> {
    if k < |store.chain| then Some(store.chain[k])
    else if store.num + (k - |store.chain|) < 0xFFFF_FFFF then Some(store.num + (k - |store.chain|))
    else None
  }

  lemma {:induction false} NthPageIs(store: Store, k: nat)
    ensures NthPage(store, k) == ChainThenNew(store, k)
    decreases k
  {
    if k > 0 && Allocate(store).Ok? {
      NthPageIs(Allocate(store).value.0, k - 1);
    }
  }

  ghost predicate HandsOut(store: Store, n: nat, k: nat) {
    NthPage(store, k).Some? ==> NthPage(store, k).value == n + k
  }

  ghost predicate Ascending(chain: seq<PageId>, n: nat) {
    forall i :: 0 <= i < |chain| ==> chain[i] == n + i
  }

  /** A record file numbers its data pages itself, so it needs a page file that hands out pages in order:
      exactly one whose free chain is ascending and, unless every page id is taken, ends where the file
      ends. */
  lemma SequentialExact(store: Store, n: nat)
    ensures (forall k: nat :: HandsOut(store, n, k)) <==>
            Ascending(store.chain, n) && (store.num < 0xFFFF_FFFF ==> Sequential(store, n))
  {
    hide NthPage;
    if forall k: nat :: HandsOut(store, n, k) {
      assert HandsOut(store, n, |store.chain|);
      NthPageIs(store, |store.chain|);
      forall i | 0 <= i < |store.chain| ensures store.chain[i] == n + i {
        assert HandsOut(store, n, i);
        NthPageIs(store, i);
      }
    }
    if Ascending(store.chain, n) && (store.num < 0xFFFF_FFFF ==> Sequential(store, n)) {
      forall k: nat ensures HandsOut(store, n, k) {
        NthPageIs(store, k);
      }
    }
  }

  /** A page file that creation accepts but that is not in order: page 0 is free, page 1 is in use. */
  lemma AcceptedOutOfOrder()
    ensures var store := Store(2, [0], map[1 := Zeros(PAGE_DATA_SIZE)], false);
            Valid(store) && NthPage(store, 0) == Some(HEADER_PAGE_ID) && NthPage(store, 1) == Some(2)
  {
    NthPageIs(Store(2, [0], map[1 := Zeros(PAGE_DATA_SIZE)], false), 0);
    NthPageIs(Store(2, [0], map[1 := Zeros(PAGE_DATA_SIZE)], false), 1);
  }

  lemma SameViewIsOk(s: State, t: State, id: FileId, h: RHeader, headerDirty: bool)
    requires FileOk(s, id, h, headerDirty) && Quiet(t) && SameDims(s, t) && SameView(s, t)
    ensures FileOk(t, id, h, headerDirty) && StoreIn(t, id, h) == StoreIn(s, id, h)
  {
    hide Quiet, NumSlots, DecodePage, RawRHeader, ViewAt;
    assert forall q: PageId :: PageAt(t, id, q) == PageAt(s, id, q);
  }

  lemma HeldLive(s: State, g: Guard)
    requires Held(s, g)
    ensures Inv(s) && g in s.guards && g.frame < |s.cores| == |s.stamp|
  {
  }

  lemma FilesValid(s: State, id: FileId)
    requires Quiet(s) && id in s.files
    ensures Valid(s.files[id])
  {
  }

  lemma SequentialKept(s: State, t: State, id: FileId, n: nat)
    requires id in s.files && SameDims(s, t) && Sequential(s.files[id], n)
    ensures id in t.files && Sequential(t.files[id], n)
  {
  }

  lemma WroteThrough(s: State, t: State, u: State, id: FileId, p: PageId, e: Data)
    requires SameView(s, t) && SameDims(s, t) && SameDims(t, u) && Wrote(t, u, id, p, e)
    ensures Wrote(s, u, id, p, e) && SameDims(s, u)
  {
  }

  /** Data page p of the store is the decoded page of the file, whose header check cannot fail. */
  lemma PageInStore(s: State, id: FileId, h: RHeader, headerDirty: bool, p: PageId)
    requires FileOk(s, id, h, headerDirty) && 1 <= p <= h.num
    ensures Layout(h.size, h.slots)
    ensures StoreIn(s, id, h).pages[p - 1] == DecodePage(PageAt(s, id, p), h.size, h.slots)
    ensures NumSlots(PageAt(s, id, p)) == h.slots
  {
  }

  lemma DecodedHeader(d: Data, size: nat, slots: nat)
    requires Layout(size, slots)
    ensures DecodePage(d, size, slots).next == NextPage(d) && DecodePage(d, size, slots).count == NumFree(d)
  {
  }

  lemma SameDimsRefl(s: State)
    ensures SameDims(s, s)
  {
  }

  lemma SameThrough(s: State, t: State, u: State)
    requires SameView(s, t) && SameDims(s, t) && SameView(t, u) && SameDims(t, u)
    ensures SameView(s, u) && SameDims(s, u)
  {
  }

  /** A page of the file is opened and closed as it was. */
  lemma PageLeft(s: State, t: State, u: State, id: FileId, h: RHeader, headerDirty: bool)
    requires FileOk(s, id, h, headerDirty) && Quiet(u)
    requires SameView(s, t) && SameDims(s, t) && SameView(t, u) && SameDims(t, u)
    ensures FileOk(u, id, h, headerDirty) && StoreIn(u, id, h) == StoreIn(s, id, h)
    ensures id in s.files && id in u.files
    ensures Sequential(s.files[id], h.num + 1) ==> Sequential(u.files[id], h.num + 1)
  {
    hide Quiet, NumSlots, ViewAt;
    SameThrough(s, t, u);
    SameViewIsOk(s, u, id, h, headerDirty);
  }

  /** A data page of the file is opened, edited and closed. */
  lemma PageEdited(s: State, t: State, u: State, id: FileId, h: RHeader, headerDirty: bool, p: PageId, e: Data)
    requires FileOk(s, id, h, headerDirty) && 1 <= p <= h.num
    requires SameView(s, t) && SameDims(s, t)
    requires Quiet(u) && SameDims(t, u) && Wrote(t, u, id, p, e) && NumSlots(e) == h.slots
    ensures FileOk(u, id, h, headerDirty)
    ensures StoreIn(u, id, h) ==
              StoreIn(s, id, h).(pages := StoreIn(s, id, h).pages[p - 1 := DecodePage(e, h.size, h.slots)])
    ensures id in s.files && id in u.files
    ensures Sequential(s.files[id], h.num + 1) ==> Sequential(u.files[id], h.num + 1)
  {
    hide Quiet, NumSlots, DecodePage, ViewAt;
    WroteThrough(s, t, u, id, p, e);
    PageWritten(s, u, id, h, headerDirty, p, e);
  }

  lemma FileKnown(s: State, id: FileId, h: RHeader, headerDirty: bool)
    requires FileOk(s, id, h, headerDirty)
    ensures Quiet(s) && id in s.files
  {
  }

  lemma StoredPageValid(m: R.RStore, rid: Rid)
    requires R.Inv(m) && R.InRange(m, rid)
    ensures R.PageValid(m.pages[rid.page - 1], m.slots) && m.slots < 0xFFFF_FFFF
  {
    var chain :| R.Chained(m, chain);
    R.ChainedNext(m, chain, rid.page);
    LayoutBounds(m.size, m.slots);
  }

  // ---- the page edits of the operations, in bytes

  function FindFirstFreeSlot(d: Data, size: nat, slots: nat, from: nat): (r: Option<nat>)
    requires Layout(size, slots) && from <= slots
    ensures r == R.FirstFree(DecodePage(d, size, slots).free, from)
    decreases slots - from
  {
    if from == slots then None
    else
      RecordInPage(from, size, slots);
      if SlotIsFree(d, from) then Some(from) else FindFirstFreeSlot(d, size, slots, from + 1)
  }

  lemma InsertedPage(d: Data, size: nat, slots: u32, slot: nat, data: seq<byte>, next: i32, free: u32)
    requires Layout(size, slots) && slot < slots && |data| == size
    ensures SlotByte(slot) < PAGE_DATA_SIZE && RecordStart(slot, size, slots) + size <= PAGE_DATA_SIZE
    ensures forall on ::
              var e := PutPageHeader(PutRecord(PutSlot(d, slot, on), slot, size, slots, data), next, slots, free);
              var page := DecodePage(d, size, slots);
              && DecodePage(e, size, slots) == RPage(next, free, page.free[slot := on], page.recs[slot := data])
              && NumSlots(e) == slots
  {
    hide DecodePage, PutPageHeader, PutRecord, PutSlot, NumSlots, RecordStart;
    RecordInPage(slot, size, slots);
    LayoutBounds(size, slots);
    forall on
      ensures var e := PutPageHeader(PutRecord(PutSlot(d, slot, on), slot, size, slots, data), next, slots, free);
              var page := DecodePage(d, size, slots);
              && DecodePage(e, size, slots) == RPage(next, free, page.free[slot := on], page.recs[slot := data])
              && NumSlots(e) == slots
    {
      DecodePutSlot(d, size, slots, slot, on);
      DecodePutRecord(PutSlot(d, slot, on), size, slots, slot, data);
      DecodePutHeader(PutRecord(PutSlot(d, slot, on), slot, size, slots, data), size, slots, next, slots, free);
    }
  }

  // ---- what a store of the page file must hold

  /** The page file's own contents are a record file: header in page 0, then the data pages. */
  ghost predicate HoldsRecords(store: Store, m: R.RStore) {
    && Valid(store) && Layout(m.size, m.slots) && m.size < 0x1_0000_0000 && |m.pages| < 0xFFFF_FFFF
    && (forall p: PageId :: p <= |m.pages| ==> p in store.data)
    && RawRHeader(store.data[HEADER_PAGE_ID]) == RHeader(m.size, m.slots, m.first, |m.pages|)
    && (forall p: PageId :: 1 <= p <= |m.pages| ==>
          NumSlots(store.data[p]) == m.slots && DecodePage(store.data[p], m.size, m.slots) == m.pages[p - 1])
  }

  /** And the page file hands out the pages that follow in order. */
  ghost predicate Holds(store: Store, m: R.RStore) {
    HoldsRecords(store, m) && Sequential(store, |m.pages| + 1)
  }

  lemma ForcedHolds(s: State, t: State, id: FileId, h: RHeader)
    requires FileOk(s, id, h, false) && Quiet(t) && SameView(s, t) && SameDims(s, t)
    requires forall p: PageId :: StoredAt(t.files, Key(id, p)) == ViewAt(s, Key(id, p))
    ensures id in t.files && HoldsRecords(t.files[id], StoreIn(t, id, h))
  {
    hide NumSlots, DecodePage, RawRHeader, ViewAt, Quiet;
    FilesValid(t, id);
    SameViewIsOk(s, t, id, h, false);
    forall p: PageId | p <= h.num ensures p in t.files[id].data && t.files[id].data[p] == PageAt(t, id, p) {
      PagesStored(s, id, h, false, p);
      assert StoredAt(t.files, Key(id, p)) == ViewAt(s, Key(id, p));
    }
    assert h.num in t.files[id].data;
    assert StoreIn(t, id, h).size == h.size;
  }

  // ---- creating and opening

  /** A pool with one registered page file and no other. */
  lemma OneFile(capacity: nat, store: Store)
    requires Valid(store)
    ensures var (s, r) := RegisterFile(NewPool(capacity), store);
            && r == Ok(0) && Inv(s) && Coherent(s) && s.guards == multiset{} && |s.cores| == capacity
            && s.files == map[0 := store]
            && (forall p: PageId :: ViewAt(s, Key(0, p)) == if p in store.data then Some(store.data[p]) else None)
  {
    hide Inv, Coherent, ViewAt;
    RegisterInv(NewPool(capacity), store);
  }

  lemma CreatedOk(t: State, id: FileId, h: RHeader, m: R.RStore)
    requires Quiet(t) && id in t.files && Layout(h.size, h.slots) && h.num == 0
    requires ViewAt(t, Key(id, HEADER_PAGE_ID)).Some?
    requires m == R.RStore(h.size, h.slots, h.first, [])
    ensures FileOk(t, id, h, true) && StoreIn(t, id, h) == m
  {
  }

  lemma OpenedOk(s: State, t: State, store: Store, m: R.RStore)
    requires Quiet(t) && SameView(s, t) && 0 in t.files
    requires forall p: PageId :: ViewAt(s, Key(0, p)) == if p in store.data then Some(store.data[p]) else None
    requires HoldsRecords(store, m)
    ensures var h := RHeader(m.size, m.slots, m.first, |m.pages|);
            FileOk(t, 0, h, false) && StoreIn(t, 0, h) == m
  {
    hide Quiet, NumSlots, DecodePage, RawRHeader;
    var h := RHeader(m.size, m.slots, m.first, |m.pages|);
    forall p: PageId | p <= h.num
      ensures ViewAt(t, Key(0, p)) == Some(store.data[p]) && PageAt(t, 0, p) == store.data[p] {
      assert p in store.data;
    }
    assert StoreIn(t, 0, h).pages == m.pages;
  }

  /** The header of a record file in its invariant passes the check made on opening. */
  lemma HeaderPasses(m: R.RStore)
    requires R.Inv(m)
    ensures m.size < 0x1_0000_0000 && |m.pages| < 0x1_0000_0000
    ensures ValidateRHeader(RHeader(m.size, m.slots, m.first, |m.pages|)) == Ok(())
  {
    LayoutBounds(m.size, m.slots);
    var chain :| R.Chained(m, chain);
    R.ChainHead(m, chain);
  }

  class RecordFile {
    const pool: BufferPool
    const fileId: FileId
    var header: RHeader
    var headerDirty: bool

    ghost predicate Backed()
      reads this, pool
    {
      pool.Valid() && FileOk(pool.S(), fileId, header, headerDirty)
    }

    ghost function Model(): R.RStore
      reads this, pool
      requires Layout(header.size, header.slots)
    {
      StoreIn(pool.S(), fileId, header)
    }

    /** The file holds a record store in its invariant. */
    ghost predicate Ready()
      reads this, pool
    {
      Backed() && R.Inv(Model())
    }

    /** And it can grow: the page file hands out pages in order. */
    ghost predicate Valid()
      reads this, pool
    {
      Ready() && Sequential(pool.files[fileId], header.num + 1)
    }

    constructor Over(pool: BufferPool, fileId: FileId, header: RHeader, headerDirty: bool)
      ensures this.pool == pool && this.fileId == fileId && this.header == header && this.headerDirty == headerDirty
    {
      this.pool, this.fileId, this.header, this.headerDirty := pool, fileId, header, headerDirty;
    }

    // ---- one page at a time

    /** Takes a read guard on page p. */
    method OpenPage(p: PageId) returns (g: Guard, bytes: Data)
      requires Backed() && p <= header.num
      modifies pool
      ensures pool.Valid() && Held(pool.S(), g) && g.key == Key(fileId, p)
      ensures SameView(old(pool.S()), pool.S()) && SameDims(old(pool.S()), pool.S())
      ensures bytes == PageAt(old(pool.S()), fileId, p)
    {
      hide Quiet, Held, GetPage, Sequential, NumSlots, RawRHeader, SameDims;
      PagesStored(pool.S(), fileId, header, headerDirty, p);
      FetchOk(pool.S(), Key(fileId, p), false);
      var r := pool.GetPage(Key(fileId, p));
      assert r.Ok?;
      g := r.value;
      HeldLive(pool.S(), g);
      bytes := pool.ReadGuard(g);
    }

    /** Takes a write guard on page p. */
    method OpenPageMut(p: PageId) returns (g: Guard, bytes: Data)
      requires pool.Valid() && Quiet(pool.S()) && ViewAt(pool.S(), Key(fileId, p)).Some?
      modifies pool
      ensures pool.Valid() && Held(pool.S(), g) && g.key == Key(fileId, p) && g.write
      ensures SameView(old(pool.S()), pool.S()) && SameDims(old(pool.S()), pool.S())
      ensures bytes == PageAt(old(pool.S()), fileId, p)
    {
      hide Held, GetPage, Sequential, NumSlots, RawRHeader, SameDims, Inv, Coherent;
      VisibleIsStored(pool.S(), Key(fileId, p));
      FetchOk(pool.S(), Key(fileId, p), true);
      var r := pool.GetPageMut(Key(fileId, p));
      assert r.Ok?;
      g := r.value;
      HeldLive(pool.S(), g);
      bytes := pool.ReadGuard(g);
    }

    /** Drops the guard. */
    method ClosePage(g: Guard)
      requires pool.Valid() && Held(pool.S(), g)
      modifies pool
      ensures pool.Valid() && Quiet(pool.S())
      ensures SameView(old(pool.S()), pool.S()) && SameDims(old(pool.S()), pool.S())
    {
      hide Quiet, Held, SameDims, SameView, Unpinned, Inv;
      HeldLive(pool.S(), g);
      ReleaseOk(pool.S(), g);
      pool.DropGuard(g);
    }

    /** Writes the page through its guard and drops the guard. */
    method CommitPage(g: Guard, e: Data)
      requires pool.Valid() && Held(pool.S(), g) && g.write
      modifies pool
      ensures pool.Valid() && Quiet(pool.S())
      ensures SameDims(old(pool.S()), pool.S())
      ensures forall k :: ViewAt(pool.S(), k) == if k == g.key then Some(e) else ViewAt(old(pool.S()), k)
    {
      hide Quiet, Held, GuardWrite, ViewAt, Inv;
      HeldLive(pool.S(), g);
      StoreOk(pool.S(), g, e);
      pool.WriteGuard(g, e);
      ClosePage(g);
    }

    // ---- operations

    /** A page for a record of this length need not be added, or it would get the next page number. */
    ghost predicate InOrder(length: nat)
      reads this, pool
    {
      && fileId in pool.files
      && (length == header.size && header.first == RECORD_PAGE_LIST_END ==>
            Allocate(pool.files[fileId]).Ok? && Allocate(pool.files[fileId]).value.1 == header.num + 1)
    }

    /** On a page file that hands out pages in order this is the insert of the specification. Else, when
        a page has to be added, the record goes where its Rid does not lead, or no page is left. */
    method Insert(data: seq<byte>) returns (r: Result<Rid, RecordError>)
      requires Ready()
      modifies this, pool
      ensures pool.Valid()
      ensures old(InOrder(|data|)) ==> Inserted(old(Model()), data, r)
      ensures !old(InOrder(|data|)) ==> Astray(Allocate(old(pool.files)[fileId]), r)
      ensures !old(InOrder(|data|)) && r.Err? ==> Backed() && Model() == old(Model())
      ensures old(Valid()) ==> old(InOrder(|data|)) && Sequential(pool.files[fileId], header.num + 1)
    {
      hide FileOk, StoreIn, Sequential, R.Inv, R.Fill, R.Grown, R.FirstFree, Layout, Quiet, Inv, SameDims, Allocate,
        HeadFillable, Head;
      StoreFields();
      R.InvBound(Model());
      ValidInOrder(|data|);
      if |data| != header.size {
        return Err(SizeMismatch(header.size, |data|));
      }
      var space := ProvideSpace();
      if space.Err? {
        return Err(PoolFailure);
      }
      ghost var t := pool.S();
      var rid := FillSlot(data);
      if old(Valid()) {
        SequentialKept(t, pool.S(), fileId, header.num + 1);
      }
      return Ok(rid);
    }

    lemma ValidInOrder(length: nat)
      requires Ready()
      ensures fileId in pool.files && (Valid() ==> InOrder(length))
    {
      hide Sequential, Allocate, Quiet, PageStore.Valid, StoreIn, NumSlots, RawRHeader, ViewAt, Inv, R.Inv;
      R.InvBound(Model());
      StoreFields();
      NextInOrder(pool.S(), fileId, header.num + 1);
    }

    /** Adds a page if no page has a free slot. */
    method ProvideSpace() returns (r: Result<(), PageStoreError>)
      requires Ready()
      modifies this, pool
      ensures pool.Valid() && Quiet(pool.S()) && fileId in pool.files && Layout(header.size, header.slots)
      ensures header.size == old(header.size) && header.slots == old(header.slots)
      ensures r.Ok? ==> header.first != RECORD_PAGE_LIST_END && HeadFillable()
      ensures old(InOrder(header.size)) ==>
                && r.Ok? && Backed() && 1 <= AsU32(header.first) <= header.num
                && Model() == if old(header.first) == RECORD_PAGE_LIST_END then R.Grown(old(Model())) else old(Model())
      ensures !old(InOrder(header.size)) && Allocate(old(pool.files)[fileId]).Ok? ==>
                && r.Ok? && AsU32(header.first) == Allocate(old(pool.files)[fileId]).value.1 > header.num
                && R.FirstFree(Head().free, 0) == Some(0)
      ensures !old(InOrder(header.size)) && Allocate(old(pool.files)[fileId]).Err? ==>
                r.Err? && Backed() && Model() == old(Model())
      ensures old(Valid()) ==> Sequential(pool.files[fileId], header.num + 1)
    {
      hide FileOk, StoreIn, Sequential, R.Inv, R.Fill, R.Grown, R.FirstFree, Layout, Quiet, ViewAt, PageStore.Valid,
        Inv, SameDims, Allocate,
        DecodePage, NumSlots, PageAt, R.PageValid;
      StoreFields();
      R.InvBound(Model());
      ghost var m, s, valid := Model(), pool.S(), Valid();
      FileKnown(s, fileId, header, headerDirty);
      if header.first == RECORD_PAGE_LIST_END {
        if Allocate(s.files[fileId]).Ok? {
          NextPageUnused(s, fileId, header, headerDirty);
        }
        NextInOrder(s, fileId, header.num + 1);
        var grown := AllocateDataPage();
        if grown.Err? {
          return Err(grown.error);
        }
        R.FreshReady(header.size, header.slots);
        if valid {
          SameChainSequential(Allocate(s.files[fileId]).value.0, pool.files[fileId], header.num + 1);
        }
      } else {
        R.HeadReady(m);
        PageInStore(s, fileId, header, headerDirty, AsU32(header.first));
        PagesStored(s, fileId, header, headerDirty, AsU32(header.first));
      }
      return Ok(());
    }

    /** The outcome of the specification. */
    ghost predicate Inserted(m: R.RStore, data: seq<byte>, r: Result<Rid, RecordError>)
      reads this, pool
    {
      && Backed()
      && match R.Insert(m, data)
         case Ok(a) => r == Ok(a.1) && Model() == a.0
         case Err(e) => r == Err(e) && Model() == m
    }

    /** The record lies in slot 0 of a page beyond the page count. */
    ghost predicate Astray(next: Result<(Store, PageId), PageStoreError>, r: Result<Rid, RecordError>)
      reads this
    {
      if next.Ok? then r == Ok(Rid(next.value.1, 0)) && !RidInRange(r.value) else r == Err(PoolFailure)
    }

    lemma StoreFields()
      requires Backed()
      ensures Layout(header.size, header.slots) && fileId in pool.files
      ensures Model().size == header.size && Model().slots == header.slots
      ensures Model().first == header.first && |Model().pages| == header.num
    {
    }

    /** Adds the next page of the page file, initialised, at the head of the chain. */
    method AllocateDataPage() returns (r: Result<PageId, PageStoreError>)
      requires Backed() && header.num < 0xFFFF_FFFE
      modifies this, pool
      ensures pool.Valid() && Quiet(pool.S()) && fileId in pool.files && Layout(header.size, header.slots)
      ensures match Allocate(old(pool.files)[fileId])
              case Err(_) => r.Err? && header == old(header) && Backed() && Model() == old(Model())
              case Ok(a) => r == Ok(a.1) && header == old(header).(num := old(header).num + 1, first := AsI32(a.1)) &&
                            pool.files[fileId].num == a.0.num && pool.files[fileId].chain == a.0.chain
      ensures r.Ok? ==> HasPage(r.value, FreshPage(header.size, header.slots))
      ensures r.Ok? && r.value == old(header).num + 1 ==> Backed() && Model() == R.Grown(old(Model()))
    {
      hide R.Inv, NumSlots, RawRHeader, Quiet, DecodePage, Sequential, Layout, PageAt, ViewAt, FileOk, Wrote, Inv,
        FreshPage, Allocate,
        SameView, SameDims;
      StoreFields();
      FileKnown(pool.S(), fileId, header, headerDirty);
      ghost var s, h := pool.S(), header;
      ghost var bytes;
      var grown;
      grown, bytes := AllocateInitialized();
      if grown.Err? {
        SameViewIsOk(s, pool.S(), fileId, h, headerDirty);
        return Err(grown.error);
      }
      if grown.value == h.num + 1 {
        PageGrown(s, pool.S(), fileId, h, headerDirty, bytes);
      }
      WrotePage(s, pool.S(), fileId, grown.value, bytes);
      header := header.(num := header.num + 1, first := AsI32(grown.value));
      headerDirty := true;
      return Ok(grown.value);
    }

    /** A reader of page p sees bytes that decode to this page. */
    ghost predicate HasPage(p: PageId, page: RPage)
      reads this, pool
      requires Layout(header.size, header.slots)
    {
      && ViewAt(pool.S(), Key(fileId, p)).Some?
      && NumSlots(PageAt(pool.S(), fileId, p)) == header.slots
      && DecodePage(PageAt(pool.S(), fileId, p), header.size, header.slots) == page
    }

    /** Takes a page from the page file and initialises it. */
    method AllocateInitialized() returns (r: Result<PageId, PageStoreError>, ghost bytes: Data)
      requires pool.Valid() && Quiet(pool.S()) && fileId in pool.files && Layout(header.size, header.slots)
      modifies pool
      ensures pool.Valid() && Quiet(pool.S()) && fileId in pool.files
      ensures match Allocate(old(pool.files)[fileId])
              case Err(_) => r.Err? && SameView(old(pool.S()), pool.S()) && SameDims(old(pool.S()), pool.S())
              case Ok(a) => r == Ok(a.1) && Wrote(old(pool.S()), pool.S(), fileId, a.1, bytes) &&
                            pool.files[fileId].num == a.0.num && pool.files[fileId].chain == a.0.chain
      ensures NumSlots(bytes) == header.slots
      ensures DecodePage(bytes, header.size, header.slots) == FreshPage(header.size, header.slots)
    {
      hide NumSlots, RawRHeader, Quiet, Allocate, PoolSteps.AllocatePage, DecodePage, Held, PageStore.Valid,
        FreshBytes, Layout, PageAt, ViewAt, Inv;
      ghost var s := pool.S();
      var initialized := FreshPageBytes();
      DecodeFresh(header.size, header.slots);
      bytes := initialized;
      if Allocate(s.files[fileId]).Ok? {
        GrowOk(s, fileId);
      } else {
        GrowRefused(s, fileId);
      }
      var page := pool.AllocatePage(fileId);
      if page.Err? {
        return Err(Corrupted), bytes;
      }
      CommitPage(page.value, initialized);
      return Ok(page.value.key.page), bytes;
    }

    /** The bytes of an initialised page. */
    method FreshPageBytes() returns (bytes: Data)
      requires Layout(header.size, header.slots)
      ensures bytes == FreshBytes(header.slots)
    {
      var buffer := new byte[PAGE_DATA_SIZE](_ => 0);
      var _ := InitializePage(buffer, header.slots, header.size);
      bytes := buffer[..];
    }

    /** The rest of Insert: the first free slot of the page at the head of the chain. */
    method FillSlot(data: seq<byte>) returns (rid: Rid)
      requires pool.Valid() && Quiet(pool.S()) && fileId in pool.files && Layout(header.size, header.slots)
      requires header.first != RECORD_PAGE_LIST_END && |data| == header.size
      requires HeadFillable()
      modifies this, pool
      ensures pool.Valid() && SameDims(old(pool.S()), pool.S()) && header.num == old(header.num)
      ensures header.slots == old(header.slots)
      ensures rid.page == AsU32(old(header.first)) && R.FirstFree(old(Head()).free, 0) == Some(rid.slot)
      ensures old(Backed()) && 1 <= rid.page <= old(header.num) ==>
                Backed() && R.Fill(old(Model()), data) == Ok((Model(), rid))
    {
      hide FileOk, StoreIn, Held, Quiet, NumSlots, DecodePage, SameDims, R.FirstFree, PageAt, ViewAt, Inv;
      ghost var s, backed := pool.S(), Backed();
      var pageId := AsU32(header.first);
      HeadSeen();
      var page, bytes := OpenPageMut(pageId);
      ghost var t := pool.S();
      if backed && 1 <= pageId <= header.num {
        PageInStore(s, fileId, header, headerDirty, pageId);
      }
      var slot, next, free, edited := PlaceRecord(bytes, data);
      CommitPage(page, edited);
      WroteThrough(s, t, pool.S(), fileId, pageId, edited);
      if backed && 1 <= pageId <= header.num {
        PageWritten(s, pool.S(), fileId, header, headerDirty, pageId, edited);
        StoreFields();
      }
      if free == 0 {
        if backed && 1 <= pageId <= header.num {
          HeaderChanged(pool.S(), fileId, header, headerDirty, next);
        }
        header := header.(first := next);
        headerDirty := true;
      }
      rid := Rid(pageId, slot);
    }

    /** The page at the head of the chain. */
    ghost function Head(): RPage
      reads this, pool
      requires Layout(header.size, header.slots)
    {
      DecodePage(PageAt(pool.S(), fileId, AsU32(header.first)), header.size, header.slots)
    }

    ghost predicate HeadFillable()
      reads this, pool
      requires Layout(header.size, header.slots)
    {
      && ViewAt(pool.S(), Key(fileId, AsU32(header.first))).Some?
      && R.PageValid(Head(), header.slots) && Head().count > 0 && R.FirstFree(Head().free, 0).Some?
    }

    lemma HeadSeen()
      requires Layout(header.size, header.slots) && HeadFillable()
      ensures ViewAt(pool.S(), Key(fileId, AsU32(header.first))).Some?
      ensures R.FirstFree(Head().free, 0).Some? && Head().count > 0
    {
    }

    /** The bytes of the page with the record in its first free slot; `next` is the link it had. */
    method PlaceRecord(bytes: Data, data: seq<byte>) returns (slot: u32, next: i32, free: u32, edited: Data)
      requires Layout(header.size, header.slots) && |data| == header.size
      requires var page := DecodePage(bytes, header.size, header.slots);
               R.FirstFree(page.free, 0).Some? && page.count > 0
      ensures var page := DecodePage(bytes, header.size, header.slots);
              && R.FirstFree(page.free, 0) == Some(slot) && next == page.next && free == page.count - 1
              && DecodePage(edited, header.size, header.slots) ==
                 RPage(if free == 0 then RECORD_PAGE_FULL else next, free, page.free[slot := false],
                   page.recs[slot := data])
              && NumSlots(edited) == header.slots
    {
      hide DecodePage, PutPageHeader, PutRecord, PutSlot, NumSlots, NumFree, NextPage;
      DecodedHeader(bytes, header.size, header.slots);
      next, free := NextPage(bytes), NumFree(bytes);
      slot := FindFirstFreeSlot(bytes, header.size, header.slots, 0).value;
      InsertedPage(bytes, header.size, header.slots, slot, data,
        if free == 1 then RECORD_PAGE_FULL else next, free - 1);
      edited := PutSlot(bytes, slot, false);
      free := free - 1;
      edited := PutRecord(edited, slot, header.size, header.slots, data);
      edited := PutPageHeader(edited, if free == 0 then RECORD_PAGE_FULL else next, header.slots, free);
    }

    predicate RidInRange(rid: Rid)
      reads this
    {
      !(rid.page == HEADER_PAGE_ID || rid.page > header.num) && rid.slot < header.slots
    }

    method Get(rid: Rid) returns (r: Result<seq<byte>, RecordError>)
      requires Ready() || !RidInRange(rid)
      modifies pool
      ensures old(Ready()) ==> Ready() && Model() == old(Model()) && r == R.Get(Model(), rid)
      ensures old(Valid()) ==> Valid()
      ensures !RidInRange(rid) ==> r == Err(InvalidRid(rid))
    {
      hide FileOk, StoreIn, Sequential, Held, Quiet, NumSlots, SameDims, Layout, R.Inv, RecordStart, SlotIsFree,
        RecordAt, ViewAt, Inv,
        SameView, PageAt, DecodePage;
      if !RidInRange(rid) {
        if Ready() {
          StoreFields();
        }
        return Err(InvalidRid(rid));
      }
      StoreFields();
      ghost var s := pool.S();
      var page, bytes := OpenPage(rid.page);
      ghost var t := pool.S();
      PageInStore(s, fileId, header, headerDirty, rid.page);
      StoredPageValid(StoreIn(s, fileId, header), rid);
      var data := ReadSlot(bytes, rid.slot);
      ClosePage(page);
      PageLeft(s, t, pool.S(), fileId, header, headerDirty);
      return if data.None? then Err(EmptySlot(rid)) else Ok(data.value);
    }

    /** The record under a scan cursor inside the file, if its slot is used. */
    method ReadRecordIfUsed(pageId: PageId, slot: u32) returns (r: Option<seq<byte>>)
      requires Ready() && 1 <= pageId <= header.num && slot < header.slots
      modifies pool
      ensures old(Valid()) ==> Valid()
      ensures Ready() && Model() == old(Model()) && r == R.Lookup(Model(), Rid(pageId, slot))
    {
      R.GetIsLookup(Model(), Rid(pageId, slot));
      StoreFields();
      var got := Get(Rid(pageId, slot));
      return if got.Ok? then Some(got.value) else None;
    }

    /** The bytes of a used slot. */
    method ReadSlot(bytes: Data, slot: nat) returns (r: Option<seq<byte>>)
      requires Layout(header.size, header.slots) && slot < header.slots
      ensures var page := DecodePage(bytes, header.size, header.slots);
              r == if page.free[slot] then None else Some(page.recs[slot])
    {
      hide RecordStart;
      RecordInPage(slot, header.size, header.slots);
      if SlotIsFree(bytes, slot) {
        return None;
      }
      return Some(RecordAt(bytes, slot, header.size, header.slots));
    }

    method Update(rid: Rid, data: seq<byte>) returns (r: Result<(), RecordError>)
      requires Ready()
      modifies pool
      ensures Ready() && (old(Valid()) ==> Valid())
      ensures match R.Update(old(Model()), rid, data)
              case Ok(t) => r == Ok(()) && Model() == t
              case Err(e) => r == Err(e) && Model() == old(Model())
    {
      hide FileOk, StoreIn, Sequential, Held, Quiet, NumSlots, DecodePage, SameDims, PageAt, Layout, R.Inv, PutRecord,
        SlotIsFree, RecordStart, ViewAt, Inv;
      StoreFields();
      R.UpdateInv(Model(), rid, data);
      if |data| != header.size {
        return Err(SizeMismatch(header.size, |data|));
      }
      if !RidInRange(rid) {
        return Err(InvalidRid(rid));
      }
      ghost var s := pool.S();
      PagesStored(s, fileId, header, headerDirty, rid.page);
      var page, bytes := OpenPageMut(rid.page);
      ghost var t := pool.S();
      PageInStore(s, fileId, header, headerDirty, rid.page);
      StoredPageValid(StoreIn(s, fileId, header), rid);
      SlotInPage(bytes, rid.slot);
      if SlotIsFree(bytes, rid.slot) {
        ClosePage(page);
        PageLeft(s, t, pool.S(), fileId, header, headerDirty);
        return Err(EmptySlot(rid));
      }
      DecodePutRecord(bytes, header.size, header.slots, rid.slot, data);
      bytes := PutRecord(bytes, rid.slot, header.size, header.slots, data);
      CommitPage(page, bytes);
      PageEdited(s, t, pool.S(), fileId, header, headerDirty, rid.page, bytes);
      return Ok(());
    }

    lemma SlotInPage(bytes: Data, slot: nat)
      requires Layout(header.size, header.slots) && slot < header.slots
      ensures SlotByte(slot) < PAGE_DATA_SIZE
      ensures RecordStart(slot, header.size, header.slots) + header.size <= PAGE_DATA_SIZE
      ensures SlotIsFree(bytes, slot) == DecodePage(bytes, header.size, header.slots).free[slot]
    {
      RecordInPage(slot, header.size, header.slots);
    }

    method Delete(rid: Rid) returns (r: Result<(), RecordError>)
      requires Ready()
      modifies this, pool
      ensures Ready() && (old(Valid()) ==> Valid())
      ensures match R.Delete(old(Model()), rid)
              case Ok(t) => r == Ok(()) && Model() == t
              case Err(e) => r == Err(e) && Model() == old(Model())
    {
      hide FileOk, StoreIn, Sequential, Held, Quiet, NumSlots, DecodePage, SameDims, PageAt, Layout, R.Inv,
        SlotIsFree, RecordStart, ViewAt, Inv;
      StoreFields();
      R.DeleteInv(Model(), rid);
      R.GetIsLookup(Model(), rid);
      if !RidInRange(rid) {
        return Err(InvalidRid(rid));
      }
      ghost var s := pool.S();
      PagesStored(s, fileId, header, headerDirty, rid.page);
      var page, bytes := OpenPageMut(rid.page);
      ghost var t := pool.S();
      PageInStore(s, fileId, header, headerDirty, rid.page);
      StoredPageValid(StoreIn(s, fileId, header), rid);
      SlotInPage(bytes, rid.slot);
      if SlotIsFree(bytes, rid.slot) {
        ClosePage(page);
        PageLeft(s, t, pool.S(), fileId, header, headerDirty);
        return Err(EmptySlot(rid));
      }
      var wasFull, edited := ReleaseRecord(bytes, rid.slot);
      CommitPage(page, edited);
      PageEdited(s, t, pool.S(), fileId, header, headerDirty, rid.page, edited);
      if wasFull {
        HeaderChanged(pool.S(), fileId, header, headerDirty, AsI32(rid.page));
        header, headerDirty := header.(first := AsI32(rid.page)), true;
      }
      StoreFields();
      return Ok(());
    }

    /** The bytes of the page with one slot released, zeroed, and the page linked if it was full. */
    method ReleaseRecord(bytes: Data, slot: nat) returns (wasFull: bool, edited: Data)
      requires Layout(header.size, header.slots) && slot < header.slots
      requires DecodePage(bytes, header.size, header.slots).count <= header.slots < 0xFFFF_FFFF
      ensures var page := DecodePage(bytes, header.size, header.slots);
              && wasFull == (page.count == 0)
              && DecodePage(edited, header.size, header.slots) ==
                 RPage(if wasFull then header.first else page.next, page.count + 1,
                       page.free[slot := true], page.recs[slot := Zeros(header.size)])
              && NumSlots(edited) == header.slots
    {
      hide DecodePage, PutPageHeader, PutRecord, PutSlot, NumSlots, NumFree, NextPage;
      DecodedHeader(bytes, header.size, header.slots);
      var next, free := NextPage(bytes), NumFree(bytes);
      wasFull := free == 0;
      InsertedPage(bytes, header.size, header.slots, slot, Zeros(header.size),
        if wasFull then header.first else next, free + 1);
      edited := PutSlot(bytes, slot, true);
      edited := PutRecord(edited, slot, header.size, header.slots, Zeros(header.size));
      edited := PutPageHeader(edited, if wasFull then header.first else next, header.slots, free + 1);
    }

    // ---- the header and the whole file

    method PersistHeader()
      requires Backed()
      modifies this`headerDirty, pool
      ensures Backed() && !headerDirty && Model() == old(Model())
      ensures SameDims(old(pool.S()), pool.S())
    {
      hide FileOk, StoreIn, Sequential, Held, Quiet, NumSlots, SameDims, PageAt, Layout, EncodeRHeader, RawRHeader,
        ViewAt, Inv;
      StoreFields();
      if !headerDirty {
        SameDimsRefl(pool.S());
        return;
      }
      ghost var s := pool.S();
      PagesStored(s, fileId, header, headerDirty, HEADER_PAGE_ID);
      var page, bytes := OpenPageMut(HEADER_PAGE_ID);
      ghost var t := pool.S();
      RHeaderRoundTrip(bytes, header);
      bytes := Splice(bytes, 0, EncodeRHeader(header));
      CommitPage(page, bytes);
      WroteThrough(s, t, pool.S(), fileId, HEADER_PAGE_ID, bytes);
      HeaderWritten(s, pool.S(), fileId, header, headerDirty, bytes);
      headerDirty := false;
    }

    /** After a flush the page file is synced and alone holds the whole record file. */
    method Flush()
      requires Ready()
      modifies this`headerDirty, pool
      ensures Ready() && Model() == old(Model())
      ensures fileId in pool.files && pool.files[fileId].synced && HoldsRecords(pool.files[fileId], Model())
      ensures old(Valid()) ==> Valid() && Holds(pool.files[fileId], Model())
    {
      hide FileOk, StoreIn, Sequential, Quiet, SameDims, Layout, ViewAt, Inv, HoldsRecords, Holds, PoolSteps.ForceFile,
        StoredAt, R.Inv;
      ghost var valid := Valid();
      PersistHeader();
      ghost var s := pool.S();
      FileKnown(old(pool.S()), fileId, header, old(headerDirty));
      FileKnown(s, fileId, header, headerDirty);
      ForceOk(s, fileId);
      var r := pool.ForceFile(fileId, None);
      assert r.Ok?;
      SameViewIsOk(s, pool.S(), fileId, header, headerDirty);
      ForcedHolds(s, pool.S(), fileId, header);
      if valid {
        StoreFields();
        SequentialKept(old(pool.S()), s, fileId, header.num + 1);
        SequentialKept(s, pool.S(), fileId, header.num + 1);
        HoldsParts(pool.files[fileId], Model());
      }
    }

    // ---- creating and opening

    /** Creation succeeds exactly when the pool has a frame, the page file hands out page 0 and a record
        fits in a page; on a page file that hands out its pages in order, such as a new one, the result
        is the empty record file. */
    static method Create(pageFile: Store, capacity: nat, size: nat) returns (r: Result<RecordFile, RecordError>)
      requires PageStore.Valid(pageFile)
      ensures r.Ok? <==> capacity > 0 && Allocate(pageFile).Ok? && Allocate(pageFile).value.1 == HEADER_PAGE_ID &&
                         R.Create(size).Ok?
      ensures r.Ok? ==>
                fresh(r.value) && fresh(r.value.pool) && r.value.Backed() && r.value.Model() == R.Create(size).value
      ensures r.Ok? ==>
                r.value.fileId in r.value.pool.files &&
                SameChain(Allocate(pageFile).value.0, r.value.pool.files[r.value.fileId])
      ensures r.Ok? && Sequential(pageFile, 0) ==> r.value.Valid()
    {
      hide Inv, ViewAt, Quiet, Allocate, PageStore.Valid, SameDims, Layout, FileOk, StoreIn, Sequential;
      var pool := PoolOver(pageFile, capacity);
      var page := TakeHeaderPage(pool, pageFile);
      if page.Err? {
        return Err(page.error);
      }
      var slots := ComputeSlotsPerPage(size);
      if slots.Err? {
        return Err(slots.error);
      }
      LayoutFits(size);
      var header := RHeader(size, slots.value, RECORD_PAGE_LIST_END, 0);
      var file := new RecordFile.Over(pool, 0, header, true);
      CreatedOk(pool.S(), 0, header, R.Create(size).value);
      R.CreateInv(size);
      ghost var t := pool.S();
      file.PersistHeader();
      ChainKept(Allocate(pageFile).value.0, t, pool.S(), 0);
      if Sequential(pageFile, 0) {
        SequentialAllocates(pageFile, 0);
        SameChainSequential(Allocate(pageFile).value.0, pool.files[0], 1);
      }
      return Ok(file);
    }

    /** A new pool with the page file registered as file 0. */
    static method PoolOver(pageFile: Store, capacity: nat) returns (pool: BufferPool)
      requires PageStore.Valid(pageFile)
      ensures fresh(pool) && pool.Valid() && pool.S() == PoolSteps.RegisterFile(NewPool(capacity), pageFile).0
    {
      hide Inv, PageStore.Valid;
      OneFile(capacity, pageFile);
      pool := new BufferPool(capacity);
      var registered := pool.RegisterFile(pageFile);
      assert registered == Ok(0);
    }

    /** Allocates the header page, which must be page 0, and drops the guard. */
    static method TakeHeaderPage(pool: BufferPool, ghost pageFile: Store) returns (r: Result<(), RecordError>)
      requires PageStore.Valid(pageFile)
      requires pool.Valid() && Coherent(pool.S()) && pool.guards == multiset{} && pool.files == map[0 := pageFile]
      modifies pool
      ensures pool.Valid()
      ensures r.Ok? <==>
                old(|pool.S().cores|) > 0 && Allocate(pageFile).Ok? && Allocate(pageFile).value.1 == HEADER_PAGE_ID
      ensures r.Ok? ==>
                && Quiet(pool.S()) && 0 in pool.files && ViewAt(pool.S(), Key(0, HEADER_PAGE_ID)).Some?
                && SameChain(Allocate(pageFile).value.0, pool.files[0])
    {
      hide Inv, ViewAt, Coherent, Held, Allocate, PageStore.Valid, PoolSteps.AllocatePage, SameDims, Acquired;
      ghost var s := pool.S();
      FirstGrow(s, pageFile);
      var page := pool.AllocatePage(0);
      if page.Err? {
        return Err(PoolFailure);
      }
      ghost var t := pool.S();
      HeldLive(t, page.value);
      ReleaseOk(t, page.value);
      pool.DropGuard(page.value);
      ChainKept(Allocate(pageFile).value.0, t, pool.S(), 0);
      if page.value.key.page != HEADER_PAGE_ID {
        return Err(RecordCorrupted);
      }
      return Ok(());
    }

    /** Opening a page file that holds a record file in its invariant gives that record file. */
    static method Open(pageFile: Store, capacity: nat, ghost image: R.RStore)
      returns (r: Result<RecordFile, RecordError>)
      requires PageStore.Valid(pageFile)
      ensures r.Ok? <==> capacity > 0 && HEADER_PAGE_ID in pageFile.data &&
                         DecodeRHeader(pageFile.data[HEADER_PAGE_ID]).Ok? &&
                         RawRHeader(pageFile.data[HEADER_PAGE_ID]).num < pageFile.num
      ensures r.Ok? ==> fresh(r.value) && fresh(r.value.pool)
      ensures capacity > 0 && HoldsRecords(pageFile, image) && R.Inv(image) ==>
                && r.Ok? && r.value.Ready() && r.value.Model() == image
                && (Holds(pageFile, image) ==> r.value.Valid())
    {
      hide Inv, ViewAt, Quiet, Held, PageStore.Valid, SameDims, Layout, R.Inv, ValidateRHeader, RawRHeader, Holds,
        HoldsRecords, FileOk, StoreIn, RegisterFile, Sequential;
      HeaderPage(pageFile, image);
      if pageFile.num == 0 {
        return Err(RecordCorrupted);
      }
      OneFile(capacity, pageFile);
      var pool := PoolOver(pageFile, capacity);
      ghost var s := pool.S();
      var bytes := ReadHeaderPage(pool, pageFile);
      if bytes.Err? {
        return Err(bytes.error);
      }
      var header := DecodeRHeader(bytes.value);
      if header.Err? {
        return Err(header.error);
      }
      if header.value.num == 0xFFFF_FFFF || header.value.num + 1 > pageFile.num {
        return Err(RecordCorrupted);
      }
      var file := new RecordFile.Over(pool, 0, header.value, false);
      HoldsParts(pageFile, image);
      if HoldsRecords(pageFile, image) && R.Inv(image) {
        OpenedOk(s, pool.S(), pageFile, image);
        if Holds(pageFile, image) {
          SequentialKept(s, pool.S(), 0, header.value.num + 1);
        }
      }
      return Ok(file);
    }

    /** The bytes of page 0, read under a guard that is dropped again. */
    static method ReadHeaderPage(pool: BufferPool, ghost pageFile: Store) returns (r: Result<Data, RecordError>)
      requires pool.Valid() && Coherent(pool.S()) && pool.guards == multiset{} && pool.files == map[0 := pageFile]
      requires HEADER_PAGE_ID in pageFile.data ==>
                ViewAt(pool.S(), Key(0, HEADER_PAGE_ID)) == Some(pageFile.data[HEADER_PAGE_ID])
      modifies pool
      ensures pool.Valid()
      ensures r.Ok? <==> old(|pool.S().cores|) > 0 && HEADER_PAGE_ID in pageFile.data
      ensures r.Ok? ==>
                && r.value == pageFile.data[HEADER_PAGE_ID]
                && Quiet(pool.S()) && 0 in pool.files
                && SameView(old(pool.S()), pool.S()) && SameDims(old(pool.S()), pool.S())
    {
      hide Inv, ViewAt, Coherent, Held, GetPage, Acquired, Quiet, SameView, SameDims, PoolSteps.GetPage,
        PageStore.Valid;
      ghost var s := pool.S();
      OpenFetch(s, 0);
      var page := pool.GetPage(Key(0, HEADER_PAGE_ID));
      if page.Err? {
        return Err(PoolFailure);
      }
      ghost var t := pool.S();
      HeldLive(t, page.value);
      var bytes := pool.ReadGuard(page.value);
      ReleaseOk(t, page.value);
      pool.DropGuard(page.value);
      SameThrough(s, t, pool.S());
      return Ok(bytes);
    }
  }

  lemma LayoutFits(size: nat)
    requires SlotsPerPage(size).Ok?
    ensures Layout(size, SlotsPerPage(size).value) && size < 0x1_0000_0000 && SlotsPerPage(size).value < 0x1_0000_0000
    ensures R.Create(size).Ok?
  {
    SlotsPerPageExact(size);
    LayoutBounds(size, SlotsPerPage(size).value);
  }

  lemma FirstGrow(s: State, store: Store)
    requires Inv(s) && Coherent(s) && s.guards == multiset{} && s.files == map[0 := store]
    ensures var (t, r) := AllocatePage(s, 0);
            && (r.Ok? <==> |s.cores| > 0 && Allocate(store).Ok?)
            && (r.Ok? ==>
                  && r.value.key == Key(0, Allocate(store).value.1)
                  && Held(t, r.value) && 0 in t.files && ViewAt(t, r.value.key).Some?
                  && t.files[0].num == Allocate(store).value.0.num && t.files[0].chain == Allocate(store).value.0.chain)
  {
    hide Allocate, Held, ViewAt, Coherent, Acquired;
    PoolInvariants.AcquiredFails(s);
    if |s.cores| > 0 && Allocate(store).Ok? {
      GrowOk(s, 0);
    } else {
      AllocatePageResult(s, 0);
      AllocateOkIff(store);
    }
  }

  lemma ChainKept(store: Store, t: State, u: State, id: FileId)
    requires id in t.files && SameChain(store, t.files[id]) && SameDims(t, u)
    ensures id in u.files && SameChain(store, u.files[id])
  {
  }

  lemma HeaderPage(store: Store, m: R.RStore)
    requires Valid(store)
    ensures HEADER_PAGE_ID in store.data ==> store.num > 0
    ensures HoldsRecords(store, m) && R.Inv(m) ==>
              && Layout(m.size, m.slots)
              && HEADER_PAGE_ID in store.data && |m.pages| < store.num
              && RawRHeader(store.data[HEADER_PAGE_ID]) == RHeader(m.size, m.slots, m.first, |m.pages|)
              && DecodeRHeader(store.data[HEADER_PAGE_ID]).Ok?
  {
    if HoldsRecords(store, m) && R.Inv(m) {
      HeaderPasses(m);
      var last: PageId := |m.pages|;
      assert last in store.data;
    }
  }

  lemma HoldsParts(store: Store, m: R.RStore)
    ensures Holds(store, m) <==> HoldsRecords(store, m) && Sequential(store, |m.pages| + 1)
  {
  }

  lemma OpenFetch(s: State, id: FileId)
    requires Inv(s) && Coherent(s) && s.guards == multiset{} && id in s.files
    ensures var k := Key(id, HEADER_PAGE_ID);
            && (GetPage(s, k, false).1.Ok? <==> |s.cores| > 0 && HEADER_PAGE_ID in s.files[id].data)
            && (GetPage(s, k, false).1.Ok? ==>
                  && Held(GetPage(s, k, false).0, GetPage(s, k, false).1.value)
                  && GetPage(s, k, false).1.value.key == k
                  && SameView(s, GetPage(s, k, false).0) && SameDims(s, GetPage(s, k, false).0))
  {
    var k := Key(id, HEADER_PAGE_ID);
    GetPageResult(s, k, false);
    PoolInvariants.AcquiredFails(s);
    VisibleIsStored(s, k);
    if |s.cores| > 0 && Stored(s.files, k) {
      FetchOk(s, k, false);
      QuietAcquires(s);
    }
  }

  /** Creates a record file, inserts a first record and reads it back: on a page file that creation
      accepts this works exactly if the second page handed out is page 1. */
  method FirstRecordReadBack(pageFile: Store, capacity: nat, data: seq<byte>)
    returns (r: Result<seq<byte>, RecordError>)
    requires Valid(pageFile) && capacity > 0
    requires NthPage(pageFile, 0) == Some(HEADER_PAGE_ID) && R.Create(|data|).Ok?
    ensures r == match NthPage(pageFile, 1)
                 case None => Err(PoolFailure)
                 case Some(p) => if p == 1 then Ok(data) else Err(InvalidRid(Rid(p, 0)))
  {
    hide R.Inv, R.Insert, R.Get, Quiet, FileOk, StoreIn, Layout, PoolStates.Inv, R.Create, Valid, Allocate;
    SecondPage(pageFile);
    var file := RecordFile.Create(pageFile, capacity, |data|);
    ghost var empty := R.Create(|data|).value;
    FirstInsert(data);
    file.value.StoreFields();
    SameNext(Allocate(pageFile).value.0, file.value.pool.files[file.value.fileId]);
    var rid := file.value.Insert(data);
    if rid.Err? {
      return Err(rid.error);
    }
    r := file.value.Get(rid.value);
  }

  lemma SecondPage(store: Store)
    ensures NthPage(store, 0).Some? ==>
              && Allocate(store).Ok? && NthPage(store, 0) == Some(Allocate(store).value.1)
              && NthPage(store, 1) == NthPage(Allocate(store).value.0, 0)
  {
  }

  lemma SameNext(a: Store, b: Store)
    requires SameChain(a, b)
    ensures NthPage(a, 0) == if Allocate(b).Ok? then Some(Allocate(b).value.1) else None
  {
  }

  lemma FirstInsert(data: seq<byte>)
    requires R.Create(|data|).Ok?
    ensures var m := R.Create(|data|).value;
            && R.Inv(m) && m.size == |data| && m.first == RECORD_PAGE_LIST_END && m.pages == []
            && R.Insert(m, data).Ok? && R.Inv(R.Insert(m, data).value.0)
            && R.Get(R.Insert(m, data).value.0, R.Insert(m, data).value.1) == Ok(data)
  {
    hide R.Inv, R.Insert, R.Get;
    R.CreateInv(|data|);
    var m := R.Create(|data|).value;
    R.InsertInv(m, data);
    R.InsertBinds(m, data, R.Insert(m, data).value.1);
    R.GetIsLookup(R.Insert(m, data).value.0, R.Insert(m, data).value.1);
  }
}
