/** From the bytes of a device to the records: what a flush leaves behind and when it opens again. */
module Durability {
  import opened Outcomes
  import opened Bytes
  import opened PageStore
  import opened PageFiles
  import opened RecordLayout
  import opened RecordFiles
  import R = RecordStores

  /** What page p of the device holds as page data. */
  function PageData(disk: seq<byte>, p: PageId): Data
    requires PageOffset(p) + PAGE_SIZE <= |disk|
  {
    DataOf(DiskPage(disk, p))
  }

  /** The device is long enough for the pages that its two headers declare. */
  predicate HasRecords(disk: seq<byte>) {
    && PageOffset(0) + PAGE_SIZE <= |disk|
    && var h := RawRHeader(PageData(disk, HEADER_PAGE_ID));
       PageOffset(h.num) + PAGE_SIZE <= |disk| && Layout(h.size, h.slots)
  }

  /** The record store read from the device alone. */
  function RecordsOn(disk: seq<byte>): R.RStore
    requires HasRecords(disk)
  {
    var h := RawRHeader(PageData(disk, HEADER_PAGE_ID));
    R.RStore(h.size, h.slots, h.first,
             seq(h.num, i requires 0 <= i < h.num => DecodePage(PageData(disk, i + 1), h.size, h.slots)))
  }

  lemma StoredData(disk: seq<byte>, store: Store, p: PageId)
    requires Represents(disk, store) && p in store.data
    ensures p < store.num && PageOffset(p) + PAGE_SIZE <= |disk| && store.data[p] == PageData(disk, p)
  {
    var pages := EffectivePages(disk, None, Zeros(PAGE_SIZE), store.num);
    assert StoreOf(pages, store.chain, store.synced) == store;
    assert pages[p] == Effective(disk, None, Zeros(PAGE_SIZE), p);
  }

  /** The bytes of the device give the Rid map: header, chain and records are those of the store. */
  lemma DeviceGivesRecords(disk: seq<byte>, store: Store, m: R.RStore)
    requires Represents(disk, store) && Holds(store, m)
    ensures HasRecords(disk) && RecordsOn(disk) == m
  {
    hide DecodePage, NumSlots, RawRHeader, Represents, Layout;
    HeldPages(store, m);
    StoredData(disk, store, HEADER_PAGE_ID);
    forall p: PageId | p <= |m.pages|
      ensures PageOffset(p) + PAGE_SIZE <= |disk| && store.data[p] == PageData(disk, p) {
      StoredData(disk, store, p);
    }
    assert RecordsOn(disk).pages == m.pages;
  }

  lemma HeldPages(store: Store, m: R.RStore)
    requires Holds(store, m)
    ensures |m.pages| < 0xFFFF_FFFF && forall p: PageId :: p <= |m.pages| ==> p in store.data
  {
  }

  /** The page file under a record file can be opened again exactly if it has no free page or the first
      one, which follows the record file's own pages, is below 2^31. */
  lemma HoldsReopens(store: Store, m: R.RStore)
    requires Holds(store, m)
    ensures Reopenable(store) <==> store.chain == [] || |m.pages| + 1 < 0x8000_0000
  {
    assert store.chain != [] ==> store.chain[0] == |m.pages| + 1;
  }

  /** A flushed record file opens again, page file and record file, exactly if the page file has no free
      page or the first one is below 2^31. */
  lemma FlushedOpens(disk: seq<byte>, store: Store, m: R.RStore)
    requires Represents(disk, store) && Holds(store, m) && R.Inv(m)
    ensures (&& |disk| >= FILE_HEADER_SIZE && HeaderValid(RawHeader(disk))
             && PageOffset(0) + RawHeader(disk).num * PAGE_SIZE <= |disk|) <==>
            store.chain == [] || |m.pages| + 1 < 0x8000_0000
    ensures HEADER_PAGE_ID in store.data
    ensures DecodeRHeader(store.data[HEADER_PAGE_ID]) == Ok(RHeader(m.size, m.slots, m.first, |m.pages|))
    ensures RawRHeader(store.data[HEADER_PAGE_ID]).num < store.num
  {
    hide DecodePage, NumSlots, RawRHeader, Layout, R.Inv, DiskPage;
    HeldPages(store, m);
    HeaderPasses(m);
    var pages := EffectivePages(disk, None, Zeros(PAGE_SIZE), store.num);
    HeaderReopens(pages, LinkTo(store.chain, 0, FREE_LIST_END), store.chain, store.synced);
    HoldsReopens(store, m);
  }

  /** A device that holds a record file: opening the page file and then the record file over what that
      page file is proved to hold succeeds exactly if the free list's head is below 2^31, and gives the
      record file that was flushed. */
  method OpenDevice(io: MemoryPageIo, store: Store, capacity: nat, ghost m: R.RStore) returns (r: Option<RecordFile>)
    requires capacity > 0 && Represents(io.bytes, store) && HoldsRecords(store, m) && R.Inv(m)
    ensures r.Some? <==> Reopenable(store)
    ensures r.Some? ==> fresh(r.value) && r.value.Ready() && r.value.Model() == m
    ensures r.Some? && Holds(store, m) ==> r.value.Valid()
  {
    hide Represents, HoldsRecords, Sequential, R.Inv, Valid;
    SyncedHolds(store, m);
    var pages := PageFile.Open(io, store);
    if pages.Err? {
      return None;
    }
    var contents := store.(synced := true);
    assert pages.value.Abs() == contents;
    var file := RecordFile.Open(contents, capacity, m);
    return Some(file.value);
  }

  lemma SyncedHolds(store: Store, m: R.RStore)
    requires HoldsRecords(store, m)
    ensures Valid(store.(synced := true)) && HoldsRecords(store.(synced := true), m)
    ensures Holds(store, m) ==> Holds(store.(synced := true), m)
  {
  }
}
