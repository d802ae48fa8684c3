/** The page file: pages on a byte device, read through a one-page write-back cache. */
module PageFiles {
  import opened Outcomes
  import opened Bytes
  import opened PageStore

  type Page = s: seq<byte> | |s| == PAGE_SIZE witness Zeros(PAGE_SIZE)

  // ---- file header

  datatype FileHeader = FileHeader(firstFree: i32, num: u32)

  function EncodeHeader(h: FileHeader): (s: seq<byte>)
    ensures |s| == FILE_HEADER_SIZE
  {
    EncodeI32(h.firstFree) + EncodeU32(h.num) + Zeros(FILE_HEADER_SIZE - 8)
  }

  function RawHeader(s: seq<byte>): FileHeader
    requires |s| >= FILE_HEADER_SIZE
  {
    FileHeader(DecodeI32(s[0..4]), DecodeU32(s[4..8]))
  }

  predicate HeaderValid(h: FileHeader) {
    h.firstFree >= FREE_LIST_END && (h.firstFree != FREE_LIST_END ==> AsU32(h.firstFree) < h.num)
  }

  function DecodeHeader(s: seq<byte>): Result<FileHeader, PageStoreError>
    requires |s| >= FILE_HEADER_SIZE
  {
    if HeaderValid(RawHeader(s)) then Ok(RawHeader(s)) else Err(Corrupted)
  }

  lemma SameHeader(head: seq<byte>, disk: seq<byte>)
    requires |disk| >= FILE_HEADER_SIZE && head == disk[0..FILE_HEADER_SIZE]
    ensures RawHeader(head) == RawHeader(disk)
  {
    assert head[0..4] == disk[0..4];
    assert head[4..8] == disk[4..8];
  }

  lemma HeaderRoundTrip(h: FileHeader, rest: seq<byte>)
    ensures RawHeader(EncodeHeader(h) + rest) == h
  {
    var s := EncodeHeader(h) + rest;
    assert s[0..4] == EncodeI32(h.firstFree);
    assert s[4..8] == EncodeU32(h.num);
    I32RoundTrip(h.firstFree);
    U32RoundTrip(h.num);
  }

  // ---- pages on the device

  function PageOffset(p: PageId): (o: nat)
    ensures o + PAGE_SIZE < 0x1_0000_0000_0000_0000
  {
    FILE_HEADER_SIZE + p * PAGE_SIZE
  }

  function DiskPage(disk: seq<byte>, p: PageId): Page
    requires PageOffset(p) + PAGE_SIZE <= |disk|
  {
    disk[PageOffset(p)..PageOffset(p) + PAGE_SIZE]
  }

  /** What page p holds once the cache is taken into account. */
  function Effective(disk: seq<byte>, cached: Option<PageId>, page: Page, p: PageId): Page
    requires PageOffset(p) + PAGE_SIZE <= |disk|
  {
    if cached == Some(p) then page else DiskPage(disk, p)
  }

  ghost function EffectivePages(disk: seq<byte>, cached: Option<PageId>, page: Page, num: u32): (r: seq<Page>)
    requires PageOffset(0) + num * PAGE_SIZE <= |disk|
    ensures |r| == num
    ensures forall p: PageId :: p < num ==> r[p] == Effective(disk, cached, page, p)
  {
    seq(num, p requires 0 <= p < num => Effective(disk, cached, page, p))
  }

  function NextFree(page: Page): i32 {
    DecodeI32(page[0..PAGE_HEADER_SIZE])
  }

  function WithNext(page: Page, next: i32): Page {
    Splice(page, 0, EncodeI32(next))
  }

  function WithData(page: Page, d: Data): Page {
    Splice(page, PAGE_HEADER_SIZE, d)
  }

  function DataOf(page: Page): Data {
    page[PAGE_HEADER_SIZE..]
  }

  lemma PageParts(page: Page, next: i32, d: Data)
    ensures NextFree(WithNext(page, next)) == next && DataOf(WithNext(page, next)) == DataOf(page)
    ensures NextFree(WithData(page, d)) == NextFree(page) && DataOf(WithData(page, d)) == d
  {
    I32RoundTrip(next);
    assert WithNext(page, next)[0..4] == EncodeI32(next);
    assert DataOf(WithNext(page, next)) == DataOf(page);
    assert WithData(page, d)[0..4] == page[0..4];
    assert DataOf(WithData(page, d)) == d;
  }

  lemma BlankPage()
    ensures NextFree(WithNext(Zeros(PAGE_SIZE), PAGE_USED)) == PAGE_USED
    ensures DataOf(WithNext(Zeros(PAGE_SIZE), PAGE_USED)) == Zeros(PAGE_DATA_SIZE)
  {
    PageParts(Zeros(PAGE_SIZE), PAGE_USED, Zeros(PAGE_DATA_SIZE));
    assert DataOf(Zeros(PAGE_SIZE)) == Zeros(PAGE_DATA_SIZE);
  }

  /** Of all page ids only 2^32 - 2, threaded as a link, makes the page that carries it look used. */
  lemma AmbiguousLink(page: Page, p: PageId)
    ensures NextFree(WithNext(page, AsI32(p))) == PAGE_USED <==> p == LAST_PAGE_ID
  {
    PageParts(page, AsI32(p), DataOf(page));
  }

  // ---- the free list threaded through the page headers

  ghost predicate Threads(pages: seq<Page>, first: i32, chain: seq<PageId>) {
    && |pages| < 0x1_0000_0000
    && Distinct(chain)
    && first == LinkTo(chain, 0, FREE_LIST_END)
    && (forall i :: 0 <= i < |chain| ==> chain[i] < |pages|)
    && (forall j :: 1 <= j <= |chain| ==> NextFree(pages[chain[j - 1]]) == LinkTo(chain, j, FREE_LIST_END))
    && (forall i :: 1 <= i < |chain| ==> chain[i] != LAST_PAGE_ID)
    && (forall p: PageId :: p < |pages| && p !in chain ==> NextFree(pages[p]) == PAGE_USED)
  }

  ghost function StoreOf(pages: seq<Page>, chain: seq<PageId>, synced: bool): Store
    requires |pages| < 0x1_0000_0000
  {
    Store(|pages|, chain, map p: PageId | p < |pages| && p !in chain :: DataOf(pages[p]), synced)
  }

  lemma ThreadsValid(pages: seq<Page>, first: i32, chain: seq<PageId>, synced: bool)
    requires Threads(pages, first, chain)
    ensures Valid(StoreOf(pages, chain, synced))
  {
  }

  /** The link field tells exactly which pages are in use. */
  lemma UsedIff(pages: seq<Page>, first: i32, chain: seq<PageId>, synced: bool, p: PageId)
    requires Threads(pages, first, chain) && p < |pages|
    ensures NextFree(pages[p]) == PAGE_USED <==> p !in chain
    ensures p in StoreOf(pages, chain, synced).data <==> p !in chain
    ensures p !in chain ==> StoreOf(pages, chain, synced).data[p] == DataOf(pages[p])
  {
    if p in chain {
      var i :| 0 <= i < |chain| && chain[i] == p;
      assert NextFree(pages[chain[i + 1 - 1]]) == LinkTo(chain, i + 1, FREE_LIST_END);
    }
  }

  lemma OutOfRange(pages: seq<Page>, chain: seq<PageId>, synced: bool, p: PageId)
    requires |pages| < 0x1_0000_0000
    ensures p >= |pages| ==> p !in StoreOf(pages, chain, synced).data
    ensures StoreOf(pages, chain, synced).num == |pages|
  {
  }

  lemma HeadIff(pages: seq<Page>, first: i32, chain: seq<PageId>)
    requires Threads(pages, first, chain)
    ensures first == FREE_LIST_END <==> chain == []
    ensures chain != [] ==> AsU32(first) == chain[0] && chain[0] < |pages|
  {
    if chain != [] {
      assert chain[0] < |pages|;
    }
  }

  /** Reopening the flushed header succeeds exactly when the head of the list is below 2^31. */
  lemma HeaderReopens(pages: seq<Page>, first: i32, chain: seq<PageId>, synced: bool)
    requires Threads(pages, first, chain)
    ensures HeaderValid(FileHeader(first, |pages|)) <==> Reopenable(StoreOf(pages, chain, synced))
  {
    HeadIff(pages, first, chain);
  }

  lemma ThreadsPop(pages: seq<Page>, first: i32, chain: seq<PageId>, page: Page)
    requires Threads(pages, first, chain) && chain != []
    requires NextFree(page) == PAGE_USED
    ensures chain[0] !in chain[1..]
    ensures Threads(pages[chain[0] := page], NextFree(pages[chain[0]]), chain[1..])
  {
    hide NextFree;
    var p, rest, after := chain[0], chain[1..], pages[chain[0] := page];
    assert NextFree(pages[p]) == LinkTo(chain, 1, FREE_LIST_END) == LinkTo(rest, 0, FREE_LIST_END);
    forall j | 1 <= j <= |rest| ensures NextFree(after[rest[j - 1]]) == LinkTo(rest, j, FREE_LIST_END) {
      assert rest[j - 1] == chain[j] && chain[j] != chain[0];
      assert LinkTo(rest, j, FREE_LIST_END) == LinkTo(chain, j + 1, FREE_LIST_END);
    }
    forall q: PageId | q < |after| && q !in rest ensures NextFree(after[q]) == PAGE_USED {
      assert chain == [p] + rest;
      assert q != p ==> q !in chain;
    }
  }

  lemma ThreadsPush(pages: seq<Page>, first: i32, chain: seq<PageId>, p: PageId, page: Page)
    requires Threads(pages, first, chain) && p < |pages| && p !in chain
    requires chain != [] ==> chain[0] != LAST_PAGE_ID
    requires NextFree(page) == first
    ensures Threads(pages[p := page], AsI32(p), [p] + chain)
  {
    hide NextFree;
    var more, after := [p] + chain, pages[p := page];
    assert LinkTo(more, 1, FREE_LIST_END) == LinkTo(chain, 0, FREE_LIST_END);
    forall j | 2 <= j <= |more| ensures NextFree(after[more[j - 1]]) == LinkTo(more, j, FREE_LIST_END) {
      assert more[j - 1] == chain[j - 2] && chain[j - 2] in chain;
      assert LinkTo(more, j, FREE_LIST_END) == LinkTo(chain, j - 1, FREE_LIST_END);
    }
  }

  /** The page that dispose writes still reads as used, so that it could be disposed again, exactly if the
      page that was free first is 2^32 - 2. */
  lemma DisposedLooksUsed(pages: seq<Page>, first: i32, chain: seq<PageId>, p: PageId)
    requires Threads(pages, first, chain) && chain != [] && p < |pages| && p !in chain
    ensures NextFree(WithNext(WithData(pages[p], Zeros(PAGE_DATA_SIZE)), first)) == PAGE_USED <==>
              chain[0] == LAST_PAGE_ID
  {
    AmbiguousLink(WithData(pages[p], Zeros(PAGE_DATA_SIZE)), chain[0]);
  }

  /** Pages 0 to p with page p alone on the free list. */
  function OneFree(p: PageId): seq<Page> {
    var used: Page, last: Page := WithNext(Zeros(PAGE_SIZE), PAGE_USED), WithNext(Zeros(PAGE_SIZE), FREE_LIST_END);
    seq(p + 1, q => if q == p then last else used)
  }

  /** Any page id can head the free list; from 2^31 on the file cannot be opened again. */
  lemma HeadCanBe(p: PageId, synced: bool)
    requires p <= LAST_PAGE_ID
    ensures Threads(OneFree(p), AsI32(p), [p])
    ensures Reopenable(StoreOf(OneFree(p), [p], synced)) <==> p < 0x8000_0000
  {
    PageParts(Zeros(PAGE_SIZE), FREE_LIST_END, Zeros(PAGE_DATA_SIZE));
    PageParts(Zeros(PAGE_SIZE), PAGE_USED, Zeros(PAGE_DATA_SIZE));
  }

  lemma ThreadsWrite(pages: seq<Page>, first: i32, chain: seq<PageId>, p: PageId, page: Page)
    requires Threads(pages, first, chain) && p < |pages| && NextFree(page) == NextFree(pages[p])
    ensures Threads(pages[p := page], first, chain)
  {
  }

  lemma ThreadsAppend(pages: seq<Page>, first: i32, chain: seq<PageId>, page: Page)
    requires Threads(pages, first, chain) && |pages| < 0xFFFF_FFFF && NextFree(page) == PAGE_USED
    ensures Threads(pages + [page], first, chain)
  {
  }

  // ---- the same steps seen on the store

  lemma StorePop(pages: seq<Page>, first: i32, chain: seq<PageId>, synced: bool, page: Page)
    requires Threads(pages, first, chain) && chain != []
    requires DataOf(page) == Zeros(PAGE_DATA_SIZE)
    ensures Allocate(StoreOf(pages, chain, synced)) ==
            Ok((StoreOf(pages[chain[0] := page], chain[1..], false), chain[0]))
  {
    var p, rest := chain[0], chain[1..];
    var before, after := StoreOf(pages, chain, synced), StoreOf(pages[p := page], rest, false);
    assert chain == [p] + rest;
    assert p !in rest;
    assert after.data == before.data[p := Zeros(PAGE_DATA_SIZE)];
  }

  lemma StoreAppend(pages: seq<Page>, first: i32, chain: seq<PageId>, synced: bool, page: Page)
    requires Threads(pages, first, chain) && chain == [] && |pages| < 0xFFFF_FFFF
    requires DataOf(page) == Zeros(PAGE_DATA_SIZE)
    ensures Allocate(StoreOf(pages, chain, synced)) == Ok((StoreOf(pages + [page], chain, false), |pages|))
  {
    var before, after := StoreOf(pages, chain, synced), StoreOf(pages + [page], chain, false);
    assert after.data == before.data[|pages| := Zeros(PAGE_DATA_SIZE)];
  }

  lemma StorePush(pages: seq<Page>, chain: seq<PageId>, synced: bool, p: PageId, page: Page)
    requires p < |pages| < 0x1_0000_0000 && p !in chain
    ensures Dispose(StoreOf(pages, chain, synced), p) == Ok(StoreOf(pages[p := page], [p] + chain, false))
  {
    var before, after := StoreOf(pages, chain, synced), StoreOf(pages[p := page], [p] + chain, false);
    assert after.data == before.data - {p};
  }

  lemma StoreWrite(pages: seq<Page>, chain: seq<PageId>, synced: bool, p: PageId, page: Page)
    requires p < |pages| < 0x1_0000_0000 && p !in chain
    ensures Write(StoreOf(pages, chain, synced), p, DataOf(page)) ==
            Ok(StoreOf(pages[p := page], chain, false))
  {
    var before, after := StoreOf(pages, chain, synced), StoreOf(pages[p := page], chain, false);
    assert after.data == before.data[p := DataOf(page)];
  }

  // ---- the cache is invisible

  lemma FlushInvisible(disk: seq<byte>, p: PageId, page: Page, num: u32)
    requires PageOffset(0) + num * PAGE_SIZE <= |disk| && p < num
    ensures EffectivePages(Splice(disk, PageOffset(p), page), Some(p), page, num) ==
            EffectivePages(disk, Some(p), page, num)
    ensures DiskPage(Splice(disk, PageOffset(p), page), p) == page
    ensures RawHeader(Splice(disk, PageOffset(p), page)) == RawHeader(disk)
  {
    var after := Splice(disk, PageOffset(p), page);
    SpliceSame(disk, PageOffset(p), page);
    SpliceOther(disk, PageOffset(p), page, 0, 4);
    SpliceOther(disk, PageOffset(p), page, 4, 8);
    forall q: PageId | q < num && q != p ensures DiskPage(after, q) == DiskPage(disk, q) {
      SpliceOther(disk, PageOffset(p), page, PageOffset(q), PageOffset(q) + PAGE_SIZE);
    }
  }

  lemma LoadInvisible(disk: seq<byte>, cached: Option<PageId>, page: Page, q: PageId, num: u32)
    requires PageOffset(0) + num * PAGE_SIZE <= |disk| && q < num
    requires cached.Some? ==> cached.value < num && page == DiskPage(disk, cached.value)
    ensures EffectivePages(disk, Some(q), DiskPage(disk, q), num) == EffectivePages(disk, cached, page, num)
  {
  }

  lemma HeaderInvisible(disk: seq<byte>, h: FileHeader, cached: Option<PageId>, page: Page, num: u32)
    requires PageOffset(0) + num * PAGE_SIZE <= |disk|
    ensures EffectivePages(Splice(disk, 0, EncodeHeader(h)), cached, page, num) ==
            EffectivePages(disk, cached, page, num)
    ensures RawHeader(Splice(disk, 0, EncodeHeader(h))) == h
    ensures forall p: PageId :: p < num ==> DiskPage(Splice(disk, 0, EncodeHeader(h)), p) == DiskPage(disk, p)
  {
    var after := Splice(disk, 0, EncodeHeader(h));
    HeaderRoundTrip(h, disk[FILE_HEADER_SIZE..]);
    assert after == EncodeHeader(h) + disk[FILE_HEADER_SIZE..];
    forall q: PageId | q < num ensures DiskPage(after, q) == DiskPage(disk, q) {
      SpliceOther(disk, 0, EncodeHeader(h), PageOffset(q), PageOffset(q) + PAGE_SIZE);
    }
  }

  lemma CachedWrite(disk: seq<byte>, p: PageId, page: Page, after: Page, num: u32)
    requires PageOffset(0) + num * PAGE_SIZE <= |disk| && p < num
    ensures EffectivePages(disk, Some(p), after, num) == EffectivePages(disk, Some(p), page, num)[p := after]
  {
  }

  lemma AppendInvisible(disk: seq<byte>, cached: Option<PageId>, page: Page, blank: Page, num: u32)
    requires PageOffset(0) + num * PAGE_SIZE <= |disk| && num < 0xFFFF_FFFF
    requires cached.Some? ==> cached.value < num && page == DiskPage(disk, cached.value)
    ensures var longer := Resized(disk, PageOffset(0) + (num + 1) * PAGE_SIZE);
            EffectivePages(longer, Some(num), blank, num + 1) ==
            EffectivePages(disk, cached, page, num) + [blank]
  {
    var longer := Resized(disk, PageOffset(0) + (num + 1) * PAGE_SIZE);
    forall q: PageId | q < num ensures DiskPage(longer, q) == DiskPage(disk, q) {
    }
  }

  // ---- the device

  function Resized(s: seq<byte>, n: nat): (r: seq<byte>)
    ensures |r| == n
  {
    if n <= |s| then s[..n] else s + Zeros(n - |s|)
  }

  /** A byte device kept in memory. */
  class MemoryPageIo {
    var bytes: seq<byte>

    constructor ()
      ensures bytes == []
    {
      bytes := [];
    }

    method ReadExactAt(offset: nat, buf: array<byte>) returns (ok: bool)
      modifies buf
      ensures ok == (offset + buf.Length <= |bytes|)
      ensures buf[..] == if ok then bytes[offset..offset + buf.Length] else old(buf[..])
    {
      if offset + buf.Length > |bytes| {
        return false;
      }
      forall i | 0 <= i < buf.Length {
        buf[i] := bytes[offset + i];
      }
      return true;
    }

    method WriteAllAt(offset: nat, data: seq<byte>)
      modifies this
      ensures offset + |data| <= |old(bytes)| ==> bytes == Splice(old(bytes), offset, data)
      ensures offset + |data| > |old(bytes)| ==>
                bytes == Splice(Resized(old(bytes), offset + |data|), offset, data)
    {
      if offset + |data| > |bytes| {
        bytes := Resized(bytes, offset + |data|);
      }
      bytes := Splice(bytes, offset, data);
    }

    method SetLen(n: nat)
      modifies this
      ensures bytes == Resized(old(bytes), n)
    {
      bytes := Resized(bytes, n);
    }
  }

  /** The bytes hold the whole store: header, free list and pages. */
  ghost predicate Represents(disk: seq<byte>, s: Store) {
    && PageOffset(0) + s.num * PAGE_SIZE <= |disk|
    && RawHeader(disk) == FileHeader(LinkTo(s.chain, 0, FREE_LIST_END), s.num)
    && (var pages := EffectivePages(disk, None, Zeros(PAGE_SIZE), s.num);
        Threads(pages, LinkTo(s.chain, 0, FREE_LIST_END), s.chain) && StoreOf(pages, s.chain, s.synced) == s)
  }

  class PageFile {
    const io: MemoryPageIo
    const loaded: array<byte>
    var header: FileHeader
    var headerDirty: bool
    var loadedId: Option<PageId>
    var loadedDirty: bool
    ghost var chain: seq<PageId>
    ghost var synced: bool

    /** Cache and header agree with the device wherever they are not marked dirty. */
    ghost predicate Coherent()
      reads this, io, loaded
    {
      && loaded.Length == PAGE_SIZE
      && PageOffset(0) + header.num * PAGE_SIZE <= |io.bytes|
      && (loadedId.Some? ==> loadedId.value < header.num)
      && (loadedId.Some? && !loadedDirty ==> loaded[..] == DiskPage(io.bytes, loadedId.value))
      && (!headerDirty ==> RawHeader(io.bytes) == header)
    }

    ghost function Pages(): (r: seq<Page>)
      reads this, io, loaded
      requires Coherent()
      ensures |r| == header.num
    {
      EffectivePages(io.bytes, loadedId, loaded[..], header.num)
    }

    ghost predicate Valid()
      reads this, io, loaded
    {
      && Coherent()
      && Threads(Pages(), header.firstFree, chain)
      && (synced ==> !headerDirty && !(loadedId.Some? && loadedDirty))
    }

    ghost function Abs(): Store
      reads this, io, loaded
      requires Coherent()
    {
      StoreOf(Pages(), chain, synced)
    }

    /** A page write guard for p is live: p is loaded, marked dirty and in use. */
    ghost predicate Guarded(p: PageId)
      reads this, io, loaded
    {
      Valid() && loadedId == Some(p) && loadedDirty && !synced && p !in chain
    }

    constructor Create(io: MemoryPageIo)
      modifies io
      ensures Valid() && this.io == io && fresh(loaded)
      ensures Abs() == EMPTY_STORE && Represents(io.bytes, EMPTY_STORE)
    {
      this.io := io;
      loaded := new byte[PAGE_SIZE](_ => 0);
      header := FileHeader(FREE_LIST_END, 0);
      headerDirty, loadedId, loadedDirty := true, None, false;
      chain, synced := [], true;
      new;
      io.SetLen(FILE_HEADER_SIZE);
      FlushLoadedPage();
      FlushHeader();
      assert Abs().data == map[];
      assert StoreOf(EffectivePages(io.bytes, None, Zeros(PAGE_SIZE), 0), [], true).data == map[];
    }

    constructor Over(io: MemoryPageIo, header: FileHeader)
      ensures this.io == io && this.header == header && fresh(loaded) && loaded.Length == PAGE_SIZE
      ensures !headerDirty && loadedId == None && !loadedDirty
    {
      this.io := io;
      loaded := new byte[PAGE_SIZE](_ => 0);
      this.header := header;
      headerDirty, loadedId, loadedDirty := false, None, false;
      chain, synced := [], false;
    }

    /** Opening fails on a short device, an invalid header or missing pages. If the device holds a
        store `image`, opening succeeds exactly when the head of its free list is below 2^31, and
        the opened file is that store. */
    static method Open(io: MemoryPageIo, ghost image: Store) returns (r: Result<PageFile, PageStoreError>)
      ensures r.Ok? <==> |io.bytes| >= FILE_HEADER_SIZE && HeaderValid(RawHeader(io.bytes)) &&
                         PageOffset(0) + RawHeader(io.bytes).num * PAGE_SIZE <= |io.bytes|
      ensures r.Err? ==> r.error == Corrupted
      ensures r.Ok? ==> fresh(r.value) && fresh(r.value.loaded) && r.value.io == io && r.value.Coherent()
      ensures Represents(io.bytes, image) ==> (r.Ok? <==> Reopenable(image))
      ensures Represents(io.bytes, image) && r.Ok? ==>
                r.value.Valid() && r.value.Abs() == image.(synced := true)
    {
      ghost var pages := if Represents(io.bytes, image)
        then EffectivePages(io.bytes, None, Zeros(PAGE_SIZE), image.num) else [];
      if Represents(io.bytes, image) {
        HeaderReopens(pages, LinkTo(image.chain, 0, FREE_LIST_END), image.chain, image.synced);
      }
      if |io.bytes| < FILE_HEADER_SIZE {
        return Err(Corrupted);
      }
      var head := new byte[FILE_HEADER_SIZE](_ => 0);
      var _ := io.ReadExactAt(0, head);
      SameHeader(head[..], io.bytes);
      var header :- DecodeHeader(head[..]);
      if |io.bytes| < PageOffset(0) + header.num * PAGE_SIZE {
        return Err(Corrupted);
      }
      var file := new PageFile.Over(io, header);
      if Represents(io.bytes, image) {
        file.chain, file.synced := image.chain, true;
        assert file.Pages() == pages;
      }
      return Ok(file);
    }

    method AllocatePage() returns (r: Result<PageId, PageStoreError>)
      requires Valid()
      modifies this, io, loaded
      ensures Valid()
      ensures match Allocate(old(Abs()))
              case Ok(a) => r == Ok(a.1) && Abs() == a.0 && Guarded(a.1)
              case Err(e) => r == Err(e) && Abs() == old(Abs())
    {
      HeadIff(Pages(), header.firstFree, chain);
      if header.firstFree != FREE_LIST_END {
        var pageId := ReuseFirstFree();
        return Ok(pageId);
      } else {
        FlushLoadedPage();
        if header.num == 0xFFFF_FFFF {
          return Err(Corrupted);
        }
        var pageId := AppendPage();
        return Ok(pageId);
      }
    }

    /** The branch of AllocatePage that pops the free list. */
    method ReuseFirstFree() returns (pageId: PageId)
      requires Valid() && chain != []
      modifies this, io, loaded
      ensures Guarded(pageId) && Allocate(old(Abs())) == Ok((Abs(), pageId))
    {
      hide Threads, StoreOf, NextFree, WithNext, WithData, DataOf, EffectivePages, RawHeader, LinkTo;
      ghost var pages := Pages();
      HeadIff(pages, header.firstFree, chain);
      pageId := AsU32(header.firstFree);
      var _ := LoadPage(pageId);
      ghost var page := loaded[..];
      header := header.(firstFree := NextFree(loaded[..]));
      WriteCurrentPageHeader(PAGE_USED);
      FillData(Zeros(PAGE_DATA_SIZE));
      headerDirty, loadedDirty := true, true;
      ghost var blank: Page := loaded[..];
      PageParts(page, PAGE_USED, Zeros(PAGE_DATA_SIZE));
      PageParts(WithNext(page, PAGE_USED), PAGE_USED, Zeros(PAGE_DATA_SIZE));
      CachedWrite(io.bytes, pageId, page, blank, header.num);
      ThreadsPop(pages, old(header.firstFree), chain, blank);
      StorePop(pages, old(header.firstFree), chain, synced, blank);
      chain, synced := chain[1..], false;
    }

    method ClearLoaded()
      requires loaded.Length == PAGE_SIZE
      modifies loaded
      ensures loaded[..] == Zeros(PAGE_SIZE)
    {
      forall i | 0 <= i < PAGE_SIZE {
        loaded[i] := 0;
      }
    }

    /** The branch of AllocatePage that grows the file. */
    method AppendPage() returns (pageId: PageId)
      requires Valid() && chain == [] && header.num < 0xFFFF_FFFF && !(loadedId.Some? && loadedDirty)
      modifies this, io, loaded
      ensures Guarded(pageId) && Allocate(old(Abs())) == Ok((Abs(), pageId))
    {
      hide Threads, StoreOf, NextFree, WithNext, WithData, DataOf, EffectivePages, RawHeader, LinkTo;
      ghost var pages, page := Pages(), loaded[..];
      pageId := header.num;
      header := header.(num := header.num + 1);
      ghost var blank := WithNext(Zeros(PAGE_SIZE), PAGE_USED);
      AppendInvisible(io.bytes, loadedId, page, blank, pageId);
      io.SetLen(PageOffset(0) + header.num * PAGE_SIZE);
      ClearLoaded();
      loadedId := Some(pageId);
      WriteCurrentPageHeader(PAGE_USED);
      headerDirty, loadedDirty := true, true;
      BlankPage();
      ThreadsAppend(pages, header.firstFree, chain, blank);
      StoreAppend(pages, header.firstFree, chain, synced, blank);
      synced := false;
    }

    method ReadPage(pageId: PageId) returns (r: Result<Data, PageStoreError>)
      requires Valid()
      modifies this, io, loaded
      ensures Valid() && Abs() == old(Abs())
      ensures r == Read(old(Abs()), pageId)
    {
      var _ :- LoadPage(pageId);
      UsedIff(Pages(), header.firstFree, chain, synced, pageId);
      if NextFree(loaded[..]) != PAGE_USED {
        return Err(InvalidPageId(pageId));
      }
      return Ok(DataOf(loaded[..]));
    }

    /** Taking a page write guard; the data is overwritten through WriteGuard. */
    method WritePage(pageId: PageId) returns (r: Result<PageId, PageStoreError>)
      requires Valid()
      modifies this, io, loaded
      ensures Valid()
      ensures if pageId in old(Abs()).data
              then r == Ok(pageId) && Guarded(pageId) && Abs() == old(Abs()).(synced := false)
              else r == Err(InvalidPageId(pageId)) && Abs() == old(Abs())
    {
      var _ :- LoadPage(pageId);
      UsedIff(Pages(), header.firstFree, chain, synced, pageId);
      if NextFree(loaded[..]) != PAGE_USED {
        return Err(InvalidPageId(pageId));
      }
      loadedDirty := true;
      synced := false;
      return Ok(pageId);
    }

    /** Filling the page behind a live page write guard. */
    method WriteGuard(ghost pageId: PageId, d: Data)
      requires Guarded(pageId)
      modifies this, loaded
      ensures Guarded(pageId) && Write(old(Abs()), pageId, d) == Ok(Abs())
    {
      ghost var pages, page := Pages(), loaded[..];
      FillData(d);
      PageParts(page, PAGE_USED, d);
      CachedWrite(io.bytes, pageId, page, loaded[..], header.num);
      ThreadsWrite(pages, header.firstFree, chain, pageId, loaded[..]);
      StoreWrite(pages, chain, synced, pageId, loaded[..]);
    }

    /** Disposing a page. Page 2^32 - 2 must not be the head of the free list: as a 32-bit link it
        reads as PAGE_USED. */
    method DisposePage(pageId: PageId) returns (r: Result<(), PageStoreError>)
      requires Valid() && (chain != [] ==> chain[0] != LAST_PAGE_ID)
      modifies this, io, loaded
      ensures Valid()
      ensures match Dispose(old(Abs()), pageId)
              case Ok(t) => r == Ok(()) && Abs() == t
              case Err(e) => r == Err(e) && Abs() == old(Abs())
    {
      hide Threads, StoreOf, NextFree, WithNext, WithData, DataOf, EffectivePages, RawHeader, LinkTo;
      OutOfRange(Pages(), chain, synced, pageId);
      var _ :- LoadPage(pageId);
      UsedIff(Pages(), header.firstFree, chain, synced, pageId);
      if NextFree(loaded[..]) != PAGE_USED {
        return Err(PageAlreadyFree(pageId));
      }
      ghost var pages, page := Pages(), loaded[..];
      FillData(Zeros(PAGE_DATA_SIZE));
      WriteCurrentPageHeader(header.firstFree);
      PageParts(page, PAGE_USED, Zeros(PAGE_DATA_SIZE));
      PageParts(WithData(page, Zeros(PAGE_DATA_SIZE)), header.firstFree, Zeros(PAGE_DATA_SIZE));
      CachedWrite(io.bytes, pageId, page, loaded[..], header.num);
      ThreadsPush(pages, header.firstFree, chain, pageId, loaded[..]);
      StorePush(pages, chain, synced, pageId, loaded[..]);
      header := header.(firstFree := AsI32(pageId));
      headerDirty, loadedDirty := true, true;
      chain, synced := [pageId] + chain, false;
      return Ok(());
    }

    /** After a flush the device alone holds the whole store. */
    method Flush()
      requires Valid()
      modifies this, io
      ensures Valid() && Abs() == PageStore.Flush(old(Abs())) && Represents(io.bytes, Abs())
    {
      FlushLoadedPage();
      FlushHeader();
      synced := true;
      SyncedRepresents();
    }

    /** A synced file can be read back from the device alone. */
    lemma SyncedRepresents()
      requires Valid() && synced
      ensures Represents(io.bytes, Abs())
    {
      assert EffectivePages(io.bytes, None, Zeros(PAGE_SIZE), header.num) == Pages();
    }

    method FlushHeader()
      requires Coherent()
      modifies this`headerDirty, io
      ensures Coherent() && Pages() == old(Pages()) && !headerDirty
    {
      if !headerDirty {
        return;
      }
      HeaderInvisible(io.bytes, header, loadedId, loaded[..], header.num);
      io.WriteAllAt(0, EncodeHeader(header));
      headerDirty := false;
    }

    method FlushLoadedPage()
      requires Coherent()
      modifies this`loadedDirty, io
      ensures Coherent() && Pages() == old(Pages()) && !(loadedId.Some? && loadedDirty)
      ensures loadedDirty ==> old(loadedDirty)
      ensures |io.bytes| == old(|io.bytes|)
    {
      if loadedId.None? || !loadedDirty {
        return;
      }
      FlushInvisible(io.bytes, loadedId.value, loaded[..], header.num);
      io.WriteAllAt(PageOffset(loadedId.value), loaded[..]);
      loadedDirty := false;
    }

    method LoadPage(pageId: PageId) returns (r: Result<(), PageStoreError>)
      requires Coherent()
      modifies this`loadedId, this`loadedDirty, io, loaded
      ensures Coherent() && Pages() == old(Pages())
      ensures loadedId.Some? && loadedDirty ==> old(loadedId.Some? && loadedDirty)
      ensures if pageId < header.num then r.Ok? && loadedId == Some(pageId) && loaded[..] == Pages()[pageId]
              else r == Err(InvalidPageId(pageId)) && loadedId == old(loadedId)
    {
      if pageId >= header.num {
        return Err(InvalidPageId(pageId));
      }
      if loadedId == Some(pageId) {
        return Ok(());
      }
      FlushLoadedPage();
      LoadInvisible(io.bytes, loadedId, loaded[..], pageId, header.num);
      var _ := io.ReadExactAt(PageOffset(pageId), loaded);
      loadedId := Some(pageId);
      loadedDirty := false;
      return Ok(());
    }

    method WriteCurrentPageHeader(next: i32)
      requires loaded.Length == PAGE_SIZE
      modifies loaded
      ensures loaded[..] == WithNext(old(loaded[..]), next)
    {
      forall i | 0 <= i < PAGE_HEADER_SIZE {
        loaded[i] := EncodeI32(next)[i];
      }
    }

    method FillData(d: Data)
      requires loaded.Length == PAGE_SIZE
      modifies loaded
      ensures loaded[..] == WithData(old(loaded[..]), d)
    {
      forall i | 0 <= i < PAGE_DATA_SIZE {
        loaded[PAGE_HEADER_SIZE + i] := d[i];
      }
    }
  }

  /** Any run of operations on a page file has the effect of the same run on its store. */
  method Replay(file: PageFile, ops: seq<Op>)
    requires file.Valid() && Sound(file.Abs(), ops)
    modifies file, file.io, file.loaded
    ensures file.Valid() && file.Abs() == Run(old(file.Abs()), ops)
    decreases |ops|
  {
    if ops != [] {
      match ops[0] {
        case AllocateOp =>
          var _ := file.AllocatePage();
        case ReadOp(p) =>
          var _ := file.ReadPage(p);
        case WriteOp(p, d) =>
          var guard := file.WritePage(p);
          if guard.Ok? {
            file.WriteGuard(p, d);
          }
        case DisposeOp(p) =>
          var _ := file.DisposePage(p);
        case FlushOp =>
          file.Flush();
      }
      assert file.Abs() == Step(old(file.Abs()), ops[0]);
      Replay(file, ops[1..]);
    }
  }
}
