/** A record file as a value: pages of slots and a chain of the pages that have a free slot. */
module RecordStores {
  import opened Outcomes
  import opened Bytes
  import opened PageStore
  import opened RecordLayout

  /** Data page p is pages[p - 1]; page 0 holds the file header. */
  datatype RStore = RStore(size: nat, slots: u32, first: i32, pages: seq<RPage>)

  const MAX_DATA_PAGES := 0x7FFF_FFFF

  // ---- counting free slots

  function Count(free: seq<bool>): (n: nat)
    ensures n <= |free|
  {
    if free == [] then 0 else Count(free[..|free| - 1]) + if free[|free| - 1] then 1 else 0
  }

  lemma {:induction false} CountUpdate(free: seq<bool>, i: nat, b: bool)
    requires i < |free|
    ensures Count(free[i := b]) == Count(free) - (if free[i] then 1 else 0) + (if b then 1 else 0)
  {
    var n := |free| - 1;
    if i == n {
      assert free[i := b][..n] == free[..n];
    } else {
      assert free[i := b][..n] == free[..n][i := b];
      CountUpdate(free[..n], i, b);
    }
  }

  lemma {:induction false} CountZero(free: seq<bool>)
    ensures Count(free) == 0 <==> forall i :: 0 <= i < |free| ==> !free[i]
  {
    if free == [] {
    } else {
      CountZero(free[..|free| - 1]);
      assert forall i :: 0 <= i < |free| - 1 ==> free[..|free| - 1][i] == free[i];
    }
  }

  lemma {:induction false} CountAll(n: nat)
    ensures Count(Repeat(n, true)) == n
  {
    if n == 0 {
    } else {
      assert Repeat(n, true)[..n - 1] == Repeat(n - 1, true);
      CountAll(n - 1);
    }
  }

  function FirstFree(free: seq<bool>, from: nat): (r: Option<nat>)
    requires from <= |free|
    ensures r.Some? ==> from <= r.value < |free| && free[r.value] && forall i :: from <= i < r.value ==> !free[i]
    ensures r.None? ==> forall i :: from <= i < |free| ==> !free[i]
    decreases |free| - from
  {
    if from == |free| then None else if free[from] then Some(from) else FirstFree(free, from + 1)
  }

  // ---- operations

  predicate PageValid(p: RPage, slots: u32) {
    p.count <= slots && p.next >= RECORD_PAGE_FULL && |p.free| == slots == |p.recs|
  }

  function Create(size: nat): Result<RStore, RecordError> {
    var slots :- SlotsPerPage(size);
    if slots >= 0x1_0000_0000 then Err(RecordTooLarge(size))
    else Ok(RStore(size, slots, RECORD_PAGE_LIST_END, []))
  }

  function Grown(s: RStore): RStore
    requires |s.pages| < 0xFFFF_FFFE
  {
    s.(first := AsI32(|s.pages| + 1), pages := s.pages + [FreshPage(s.size, s.slots)])
  }

  function Insert(s: RStore, data: seq<byte>): Result<(RStore, Rid), RecordError> {
    if |data| != s.size then Err(SizeMismatch(s.size, |data|))
    else if s.first != RECORD_PAGE_LIST_END then Fill(s, data)
    else if |s.pages| >= 0xFFFF_FFFE then Err(PoolFailure)
    else Fill(Grown(s), data)
  }

  /** Takes the first free slot of the page at the head of the chain. */
  function Fill(s: RStore, data: seq<byte>): Result<(RStore, Rid), RecordError> {
    var p := AsU32(s.first);
    if p < 1 || p > |s.pages| then Err(PoolFailure)
    else
      var page := s.pages[p - 1];
      if !PageValid(page, s.slots) then Err(RecordCorrupted)
      else match FirstFree(page.free, 0)
        case None => Err(RecordCorrupted)
        case Some(slot) =>
          if page.count == 0 then Err(RecordCorrupted)
          else
            var full := page.count == 1;
            var filled := RPage(if full then RECORD_PAGE_FULL else page.next, page.count - 1,
                                page.free[slot := false], page.recs[slot := data]);
            Ok((s.(first := if full then page.next else s.first, pages := s.pages[p - 1 := filled]), Rid(p, slot)))
  }

  predicate InRange(s: RStore, rid: Rid) {
    1 <= rid.page <= |s.pages| && rid.slot < s.slots
  }

  function Get(s: RStore, rid: Rid): Result<seq<byte>, RecordError> {
    if !InRange(s, rid) then Err(InvalidRid(rid))
    else
      var page := s.pages[rid.page - 1];
      if !PageValid(page, s.slots) then Err(RecordCorrupted)
      else if page.free[rid.slot] then Err(EmptySlot(rid))
      else Ok(page.recs[rid.slot])
  }

  function Update(s: RStore, rid: Rid, data: seq<byte>): Result<RStore, RecordError> {
    if |data| != s.size then Err(SizeMismatch(s.size, |data|))
    else
      var _ :- Get(s, rid);
      var page := s.pages[rid.page - 1];
      Ok(s.(pages := s.pages[rid.page - 1 := page.(recs := page.recs[rid.slot := data])]))
  }

  function Delete(s: RStore, rid: Rid): Result<RStore, RecordError> {
    var _ :- Get(s, rid);
    var page := s.pages[rid.page - 1];
    if page.count == 0xFFFF_FFFF then Err(RecordCorrupted)
    else
      var wasFull := page.count == 0;
      var freed := RPage(if wasFull then s.first else page.next, page.count + 1,
                         page.free[rid.slot := true], page.recs[rid.slot := Zeros(s.size)]);
      Ok(s.(first := if wasFull then AsI32(rid.page) else s.first, pages := s.pages[rid.page - 1 := freed]))
  }

  // ---- the invariant

  ghost predicate PageShape(p: RPage, size: nat, slots: u32) {
    && |p.free| == slots == |p.recs|
    && (forall i :: 0 <= i < |p.recs| ==> |p.recs[i]| == size)
    && p.count == Count(p.free)
  }

  /** The slot count is the one computed from the record size. */
  predicate SlotsPerPageOf(s: RStore) {
    SlotsPerPage(s.size) == Ok(s.slots)
  }

  ghost predicate Shape(s: RStore) {
    && Layout(s.size, s.slots) && SlotsPerPageOf(s)
    && |s.pages| <= MAX_DATA_PAGES
    && (forall i :: 0 <= i < |s.pages| ==> PageShape(s.pages[i], s.size, s.slots))
  }

  /** The chain from `first` is acyclic and holds exactly the pages with a free slot; full pages
      carry the mark -2. */
  ghost predicate Chained(s: RStore, chain: seq<PageId>) {
    && Distinct(chain)
    && (forall i :: 0 <= i < |chain| ==> 1 <= chain[i] <= |s.pages|)
    && s.first == LinkTo(chain, 0, RECORD_PAGE_LIST_END)
    && (forall j :: 1 <= j <= |chain| ==> s.pages[chain[j - 1] - 1].next == LinkTo(chain, j, RECORD_PAGE_LIST_END))
    && (forall p: PageId :: 1 <= p <= |s.pages| ==> (p in chain <==> s.pages[p - 1].count > 0))
    && (forall p: PageId :: 1 <= p <= |s.pages| && p !in chain ==> s.pages[p - 1].next == RECORD_PAGE_FULL)
  }

  ghost predicate Inv(s: RStore) {
    Shape(s) && exists chain :: Chained(s, chain)
  }

  // ---- the meaning: a map from Rid to bytes

  function Lookup(s: RStore, rid: Rid): Option<seq<byte>> {
    if InRange(s, rid) && PageHolds(s.pages[rid.page - 1], rid.slot) then Some(s.pages[rid.page - 1].recs[rid.slot])
    else None
  }

  predicate HasFree(free: seq<bool>) {
    exists i :: 0 <= i < |free| && free[i]
  }

  predicate PageHolds(p: RPage, slot: nat) {
    slot < |p.free| && slot < |p.recs| && !p.free[slot]
  }

  lemma ChainedNext(s: RStore, chain: seq<PageId>, p: PageId)
    requires Shape(s) && Chained(s, chain) && 1 <= p <= |s.pages|
    ensures PageValid(s.pages[p - 1], s.slots)
    ensures p in chain <==> HasFree(s.pages[p - 1].free)
  {
    var page := s.pages[p - 1];
    assert PageShape(page, s.size, s.slots);
    CountZero(page.free);
    if p in chain {
      var i :| 0 <= i < |chain| && chain[i] == p;
      assert s.pages[chain[i + 1 - 1] - 1].next == LinkTo(chain, i + 1, RECORD_PAGE_LIST_END);
    }
  }

  /** get returns the bound bytes, EmptySlot for an unbound slot in range, InvalidRid out of range. */
  lemma GetIsLookup(s: RStore, rid: Rid)
    requires Inv(s)
    ensures Get(s, rid) == match Lookup(s, rid)
                           case Some(d) => Ok(d)
                           case None => Err(if InRange(s, rid) then EmptySlot(rid) else InvalidRid(rid))
  {
    var chain :| Chained(s, chain);
    if InRange(s, rid) {
      ChainedNext(s, chain, rid.page);
    }
  }

  lemma CreateInv(size: nat)
    ensures Create(size).Ok? <==> size > 0 && Fits(1, size)
    ensures Create(size).Ok? ==> Inv(Create(size).value) && forall r :: Lookup(Create(size).value, r) == None
  {
    SlotsPerPageExact(size);
    if Create(size).Ok? || (size > 0 && Fits(1, size)) {
      LayoutBounds(size, SlotsPerPage(size).value);
      assert Chained(RStore(size, SlotsPerPage(size).value, RECORD_PAGE_LIST_END, []), []);
    }
  }

  // ---- insert

  lemma GrownInv(s: RStore, chain: seq<PageId>)
    requires Shape(s) && Chained(s, chain) && s.first == RECORD_PAGE_LIST_END && |s.pages| < MAX_DATA_PAGES
    ensures chain == []
    ensures Shape(Grown(s)) && Chained(Grown(s), [|s.pages| + 1])
  {
    ChainHead(s, chain);
    var t, more: seq<PageId> := Grown(s), [|s.pages| + 1];
    CountAll(s.slots);
    assert forall i :: 0 <= i < |s.pages| ==> t.pages[i] == s.pages[i];
    assert LinkTo(more, 1, RECORD_PAGE_LIST_END) == RECORD_PAGE_LIST_END;
  }

  lemma ChainHead(s: RStore, chain: seq<PageId>)
    requires Shape(s) && Chained(s, chain)
    ensures s.first == RECORD_PAGE_LIST_END <==> chain == []
    ensures chain != [] ==> AsU32(s.first) == chain[0] && 1 <= chain[0] <= |s.pages| && s.pages[chain[0] - 1].count > 0
    ensures chain != [] ==> s.pages[chain[0] - 1].next == LinkTo(chain, 1, RECORD_PAGE_LIST_END)
  {
    if chain != [] {
      assert chain[0] in chain;
      assert s.pages[chain[1 - 1] - 1].next == LinkTo(chain, 1, RECORD_PAGE_LIST_END);
    }
  }

  lemma GrownLookup(s: RStore, rid: Rid)
    requires |s.pages| < 0xFFFF_FFFE
    ensures Lookup(Grown(s), rid) == Lookup(s, rid)
  {
  }

  /** Filling succeeds on every page of the chain and takes a slot that was free. */
  lemma FillOk(s: RStore, chain: seq<PageId>, data: seq<byte>)
    requires Shape(s) && Chained(s, chain) && chain != [] && |data| == s.size
    ensures Fill(s, data).Ok?
    ensures var rid := Fill(s, data).value.1;
            rid.page == chain[0] && InRange(s, rid) && |s.pages[rid.page - 1].free| == s.slots &&
              s.pages[rid.page - 1].free[rid.slot]
  {
    ChainHead(s, chain);
    ChainedNext(s, chain, chain[0]);
    var page := s.pages[chain[0] - 1];
    assert PageShape(page, s.size, s.slots);
    CountZero(page.free);
  }

  lemma FillShape(s: RStore, chain: seq<PageId>, data: seq<byte>)
    requires Shape(s) && Chained(s, chain) && chain != [] && |data| == s.size
    ensures Fill(s, data).Ok? && Shape(Fill(s, data).value.0)
  {
    hide Chained;
    FillOk(s, chain, data);
    var (t, rid) := Fill(s, data).value;
    var page := s.pages[rid.page - 1];
    assert PageShape(page, s.size, s.slots);
    CountUpdate(page.free, rid.slot, false);
    assert PageShape(t.pages[rid.page - 1], s.size, s.slots);
  }

  lemma FillChained(s: RStore, chain: seq<PageId>, data: seq<byte>)
    requires Shape(s) && Chained(s, chain) && chain != [] && |data| == s.size
    ensures Fill(s, data).Ok?
    ensures var t := Fill(s, data).value.0;
            Chained(t, if s.pages[Fill(s, data).value.1.page - 1].count == 1 then chain[1..] else chain)
  {
    FillOk(s, chain, data);
    ChainHead(s, chain);
    var (t, rid) := Fill(s, data).value;
    var p := rid.page;
    if s.pages[p - 1].count == 1 {
      PopChained(s, chain, t.pages[p - 1]);
    } else {
      SamePlaceChained(s, chain, p, t.pages[p - 1]);
    }
  }

  lemma PopChained(s: RStore, chain: seq<PageId>, page: RPage)
    requires Shape(s) && Chained(s, chain) && chain != []
    requires page.count == 0 && page.next == RECORD_PAGE_FULL
    ensures 1 <= chain[0] <= |s.pages|
    ensures Chained(s.(first := s.pages[chain[0] - 1].next, pages := s.pages[chain[0] - 1 := page]), chain[1..])
  {
    hide Shape;
    ChainHead(s, chain);
    var p, rest := chain[0], chain[1..];
    var t := s.(first := s.pages[p - 1].next, pages := s.pages[p - 1 := page]);
    forall q: PageId ensures q in rest <==> q in chain && q != p {
      RestMembers(chain, q);
    }
    assert LinkTo(rest, 0, RECORD_PAGE_LIST_END) == LinkTo(chain, 1, RECORD_PAGE_LIST_END);
    forall j | 1 <= j <= |rest| ensures t.pages[rest[j - 1] - 1].next == LinkTo(rest, j, RECORD_PAGE_LIST_END) {
      assert rest[j - 1] == chain[j] && chain[j] != chain[0];
      assert LinkTo(rest, j, RECORD_PAGE_LIST_END) == LinkTo(chain, j + 1, RECORD_PAGE_LIST_END);
      assert s.pages[chain[j + 1 - 1] - 1].next == LinkTo(chain, j + 1, RECORD_PAGE_LIST_END);
    }
    assert forall i :: 0 <= i < |rest| ==> rest[i] == chain[i + 1];
  }

  lemma RestMembers(chain: seq<PageId>, q: PageId)
    requires Distinct(chain) && chain != []
    ensures q in chain[1..] <==> q in chain && q != chain[0]
  {
    assert chain == [chain[0]] + chain[1..];
  }

  /** Rewriting a page that keeps its link and stays on its side of the chain. */
  lemma SamePlaceChained(s: RStore, chain: seq<PageId>, p: PageId, page: RPage)
    requires Chained(s, chain) && 1 <= p <= |s.pages|
    requires page.next == s.pages[p - 1].next && (page.count > 0 <==> s.pages[p - 1].count > 0)
    ensures Chained(s.(pages := s.pages[p - 1 := page]), chain)
  {
  }

  lemma PushChained(s: RStore, chain: seq<PageId>, p: PageId, page: RPage)
    requires Shape(s) && Chained(s, chain) && 1 <= p <= |s.pages| && s.pages[p - 1].count == 0
    requires page.count > 0 && page.next == s.first
    ensures Chained(s.(first := AsI32(p), pages := s.pages[p - 1 := page]), [p] + chain)
  {
    var more, t := [p] + chain, s.(first := AsI32(p), pages := s.pages[p - 1 := page]);
    assert LinkTo(more, 1, RECORD_PAGE_LIST_END) == LinkTo(chain, 0, RECORD_PAGE_LIST_END);
    assert p !in chain;
    forall j | 2 <= j <= |more| ensures t.pages[more[j - 1] - 1].next == LinkTo(more, j, RECORD_PAGE_LIST_END) {
      assert more[j - 1] == chain[j - 2] && chain[j - 2] in chain;
      assert LinkTo(more, j, RECORD_PAGE_LIST_END) == LinkTo(chain, j - 1, RECORD_PAGE_LIST_END);
    }
  }

  lemma FillLookup(s: RStore, chain: seq<PageId>, data: seq<byte>, r: Rid)
    requires Shape(s) && Chained(s, chain) && chain != [] && |data| == s.size
    ensures Fill(s, data).Ok?
    ensures var (t, rid) := Fill(s, data).value;
            Lookup(s, rid) == None && Lookup(t, r) == if r == rid then Some(data) else Lookup(s, r)
  {
    hide Chained, Count;
    FillOk(s, chain, data);
    var rid := Fill(s, data).value.1;
    assert PageShape(s.pages[rid.page - 1], s.size, s.slots);
  }

  /** Room for one more page, should the insert need one: page ids stay below 2^31. */
  predicate Roomy(s: RStore) {
    s.first == RECORD_PAGE_LIST_END ==> |s.pages| < MAX_DATA_PAGES
  }

  lemma FillKeepsInv(s: RStore, data: seq<byte>)
    requires Inv(s) && s.first != RECORD_PAGE_LIST_END && |data| == s.size
    ensures Fill(s, data).Ok? && Inv(Fill(s, data).value.0)
    ensures var rid := Fill(s, data).value.1;
            && rid.page == AsU32(s.first) && InRange(s, rid)
            && PageValid(s.pages[rid.page - 1], s.slots)
            && FirstFree(s.pages[rid.page - 1].free, 0) == Some(rid.slot)
            && s.pages[rid.page - 1].count > 0
  {
    hide Chained;
    var chain :| Chained(s, chain);
    ChainHead(s, chain);
    FillOk(s, chain, data);
    FillShape(s, chain, data);
    FillChained(s, chain, data);
  }

  /** Growing always leads to a page whose first slot is taken next. */
  lemma GrownFill(s: RStore, data: seq<byte>)
    requires Shape(s) && s.first == RECORD_PAGE_LIST_END && |data| == s.size
    ensures Fill(Grown(s), data).Ok?
    ensures var (t, rid) := Fill(Grown(s), data).value;
            && rid == Rid(|s.pages| + 1, 0) && |t.pages| == |s.pages| + 1 && t.size == s.size && t.slots == s.slots
            && t.first == (if s.slots == 1 then RECORD_PAGE_LIST_END else AsI32(|s.pages| + 1))
            && (forall r :: Lookup(t, r) == if r == rid then Some(data) else Lookup(s, r))
  {
    LayoutBounds(s.size, s.slots);
    var g := Grown(s);
    var page := g.pages[|s.pages|];
    assert page == FreshPage(s.size, s.slots);
    assert page.free[0] && FirstFree(page.free, 0) == Some(0);
    var (t, rid) := Fill(g, data).value;
    forall r ensures Lookup(t, r) == if r == rid then Some(data) else Lookup(s, r) {
      GrownLookup(s, r);
    }
  }

  lemma HeadReady(s: RStore)
    requires Inv(s) && s.first != RECORD_PAGE_LIST_END
    ensures var p := AsU32(s.first);
            && 1 <= p <= |s.pages| && PageValid(s.pages[p - 1], s.slots)
            && s.pages[p - 1].count > 0 && FirstFree(s.pages[p - 1].free, 0).Some?
  {
    hide Fill;
    FillKeepsInv(s, Zeros(s.size));
  }

  lemma FreshReady(size: nat, slots: u32)
    requires Layout(size, slots)
    ensures var page := FreshPage(size, slots);
            PageValid(page, slots) && page.count > 0 && FirstFree(page.free, 0) == Some(0)
  {
    LayoutBounds(size, slots);
    assert FreshPage(size, slots).free[0];
  }

  /** Insert fails only on a wrong length; it keeps the invariant exactly if it need not go beyond the
      last page id that fits in a link. */
  lemma InsertInv(s: RStore, data: seq<byte>)
    requires Inv(s)
    ensures Insert(s, data).Ok? <==> |data| == s.size
    ensures Insert(s, data).Ok? ==> (Inv(Insert(s, data).value.0) <==> Roomy(s))
  {
    hide Fill, Chained, Shape;
    var chain :| Chained(s, chain);
    if |data| == s.size {
      ChainHead(s, chain);
      if !Roomy(s) {
        ShapeBound(s);
        GrownFill(s, data);
        BeyondBound(Insert(s, data).value.0);
      } else if s.first == RECORD_PAGE_LIST_END {
        GrownInv(s, chain);
        FillShape(Grown(s), [|s.pages| + 1], data);
        FillChained(Grown(s), [|s.pages| + 1], data);
      } else {
        FillShape(s, chain, data);
        FillChained(s, chain, data);
      }
    }
  }

  lemma InvBound(s: RStore)
    requires Inv(s)
    ensures |s.pages| <= MAX_DATA_PAGES && Layout(s.size, s.slots)
  {
  }

  lemma ShapeBound(s: RStore)
    requires Shape(s)
    ensures |s.pages| <= MAX_DATA_PAGES
  {
  }

  lemma BeyondBound(s: RStore)
    requires |s.pages| > MAX_DATA_PAGES
    ensures !Inv(s)
  {
  }

  /** Insert binds a Rid that was not bound and changes no other Rid. */
  lemma InsertBinds(s: RStore, data: seq<byte>, r: Rid)
    requires Inv(s) && |data| == s.size
    ensures Insert(s, data).Ok?
    ensures var (t, rid) := Insert(s, data).value;
            && Lookup(s, rid) == None
            && InRange(t, rid)
            && Lookup(t, r) == if r == rid then Some(data) else Lookup(s, r)
  {
    hide Fill, Chained, Shape, Lookup;
    var chain :| Chained(s, chain);
    ChainHead(s, chain);
    if s.first == RECORD_PAGE_LIST_END {
      ShapeBound(s);
      GrownFill(s, data);
      FillRange(Grown(s), data);
      BeyondPages(s, Rid(|s.pages| + 1, 0));
    } else {
      FillLookup(s, chain, data, r);
      FillRange(s, data);
    }
  }

  /** Where an insert puts its record: the first free slot of the page at the head of the chain, or the
      first slot of a new page. */
  lemma InsertPlace(s: RStore, data: seq<byte>)
    requires Inv(s) && |data| == s.size
    ensures Insert(s, data).Ok?
    ensures var rid := Insert(s, data).value.1;
            && (s.first == RECORD_PAGE_LIST_END ==> rid == Rid(|s.pages| + 1, 0))
            && (s.first != RECORD_PAGE_LIST_END ==>
                  rid.page == AsU32(s.first) && forall j: u32 :: j < rid.slot ==> Lookup(s, Rid(rid.page, j)).Some?)
  {
    hide Chained, Count;
    InsertBinds(s, data, Rid(0, 0));
    var chain :| Chained(s, chain);
    ChainHead(s, chain);
    if s.first == RECORD_PAGE_LIST_END {
      ShapeBound(s);
      GrownFill(s, data);
    } else {
      assert PageShape(s.pages[AsU32(s.first) - 1], s.size, s.slots);
    }
  }

  lemma BeyondPages(s: RStore, rid: Rid)
    requires rid.page > |s.pages|
    ensures Lookup(s, rid) == None
  {
  }

  lemma FillRange(s: RStore, data: seq<byte>)
    ensures Fill(s, data).Ok? ==>
              && InRange(Fill(s, data).value.0, Fill(s, data).value.1)
              && |Fill(s, data).value.0.pages| == |s.pages|
              && Fill(s, data).value.0.size == s.size && Fill(s, data).value.0.slots == s.slots
  {
  }

  // ---- update and delete

  lemma UpdateInv(s: RStore, rid: Rid, data: seq<byte>)
    requires Inv(s)
    ensures Update(s, rid, data).Ok? <==> |data| == s.size && Lookup(s, rid).Some?
    ensures Update(s, rid, data).Ok? ==> Inv(Update(s, rid, data).value)
  {
    hide Chained, Count;
    GetIsLookup(s, rid);
    if Update(s, rid, data).Ok? {
      var chain :| Chained(s, chain);
      var t := Update(s, rid, data).value;
      SamePlaceChained(s, chain, rid.page, t.pages[rid.page - 1]);
      assert PageShape(s.pages[rid.page - 1], s.size, s.slots);
    }
  }

  /** Update rebinds its Rid alone. */
  lemma UpdateRebinds(s: RStore, rid: Rid, data: seq<byte>, r: Rid)
    requires Inv(s) && |data| == s.size && Lookup(s, rid).Some?
    ensures Update(s, rid, data).Ok?
    ensures Lookup(Update(s, rid, data).value, r) == if r == rid then Some(data) else Lookup(s, r)
  {
    hide Chained, Count;
    GetIsLookup(s, rid);
  }

  lemma DeleteInv(s: RStore, rid: Rid)
    requires Inv(s)
    ensures Delete(s, rid).Ok? <==> Lookup(s, rid).Some?
    ensures Delete(s, rid).Ok? ==> Inv(Delete(s, rid).value)
  {
    hide Chained, Count;
    GetIsLookup(s, rid);
    if Lookup(s, rid).Some? {
      var chain :| Chained(s, chain);
      var p, page := rid.page, s.pages[rid.page - 1];
      assert PageShape(page, s.size, s.slots);
      CountUpdate(page.free, rid.slot, true);
      var t := Delete(s, rid).value;
      assert PageShape(t.pages[p - 1], s.size, s.slots);
      if page.count == 0 {
        PushChained(s, chain, p, t.pages[p - 1]);
      } else {
        SamePlaceChained(s, chain, p, t.pages[p - 1]);
      }
    }
  }

  /** Delete unbinds its Rid alone. */
  lemma DeleteUnbinds(s: RStore, rid: Rid, r: Rid)
    requires Inv(s) && Lookup(s, rid).Some?
    ensures Delete(s, rid).Ok?
    ensures Lookup(Delete(s, rid).value, r) == if r == rid then None else Lookup(s, r)
  {
    hide Chained, Count;
    DeleteInv(s, rid);
  }

  lemma FullPageFirst(s: RStore, rid: Rid)
    requires Inv(s) && Lookup(s, rid).Some?
    requires forall j: u32 :: j < s.slots ==> Lookup(s, Rid(rid.page, j)).Some?
    ensures Delete(s, rid).Ok?
    ensures var t := Delete(s, rid).value;
            t.first != RECORD_PAGE_LIST_END && AsU32(t.first) == rid.page && t.slots == s.slots && t.size == s.size
  {
    hide Chained, Count;
    GetIsLookup(s, rid);
    var page := s.pages[rid.page - 1];
    assert PageShape(page, s.size, s.slots);
    forall j | 0 <= j < |page.free| ensures !page.free[j] {
      assert Lookup(s, Rid(rid.page, j)).Some?;
    }
    CountZero(page.free);
    assert rid.page <= MAX_DATA_PAGES by { InvBound(s); }
  }

  /** A record deleted from a full page leaves its Rid to the very next insert. */
  lemma FreedIsNext(s: RStore, rid: Rid, data: seq<byte>)
    requires Inv(s) && Lookup(s, rid).Some? && |data| == s.size
    requires forall j: u32 :: j < s.slots ==> Lookup(s, Rid(rid.page, j)).Some?
    ensures Delete(s, rid).Ok? && Insert(Delete(s, rid).value, data).Ok?
    ensures Insert(Delete(s, rid).value, data).value.1 == rid
  {
    hide Chained, Count, Shape;
    DeleteInv(s, rid);
    var t := Delete(s, rid).value;
    FullPageFirst(s, rid);
    InsertPlace(t, data);
    InsertBinds(t, data, rid);
    var got := Insert(t, data).value.1;
    DeleteUnbinds(s, rid, got);
    DeleteUnbinds(s, rid, rid);
    FillRange(t, data);
    assert Lookup(s, Rid(rid.page, got.slot)).Some?;
  }

  /** Why page ids must stay below 2^31: once the head of the chain has wrapped to a negative link, the
      first delete in a full page stores that link in the page, and the page is refused from then on. */
  lemma WrappedLinkCorrupts(s: RStore, rid: Rid, other: Rid)
    requires Get(s, rid).Ok? && s.pages[rid.page - 1].count == 0 && s.first < RECORD_PAGE_FULL
    requires InRange(s, other) && other.page == rid.page
    ensures Delete(s, rid).Ok? && Get(Delete(s, rid).value, other) == Err(RecordCorrupted)
  {
  }

  /** The insert that goes beyond the last page id leaves such a head, unless a page has one slot. */
  lemma BeyondWraps(s: RStore, data: seq<byte>)
    requires Inv(s) && !Roomy(s) && |data| == s.size
    ensures Insert(s, data).Ok? && (Insert(s, data).value.0.first < RECORD_PAGE_FULL <==> s.slots > 1)
  {
    hide Fill, Chained;
    GrownFill(s, data);
    LayoutBounds(s.size, s.slots);
  }

  /** The two together: with more than one slot to a page, once an insert has gone beyond the last page
      id, deleting any record that was there before makes its whole page refuse every call. */
  lemma BeyondCorrupts(s: RStore, data: seq<byte>, rid: Rid, other: Rid)
    requires Inv(s) && !Roomy(s) && |data| == s.size && s.slots > 1
    requires Lookup(s, rid).Some? && other.page == rid.page && other.slot < s.slots
    ensures Insert(s, data).Ok? && Delete(Insert(s, data).value.0, rid).Ok?
    ensures Get(Delete(Insert(s, data).value.0, rid).value, other) == Err(RecordCorrupted)
  {
    hide Chained;
    BeyondWraps(s, data);
    var t := Insert(s, data).value.0;
    var chain :| Chained(s, chain);
    ChainHead(s, chain);
    ChainedNext(s, chain, rid.page);
    FullHere(s, chain, rid.page);
    GrownFill(s, data);
    assert t.pages[rid.page - 1] == s.pages[rid.page - 1];
    WrappedLinkCorrupts(t, rid, other);
  }

  lemma FullHere(s: RStore, chain: seq<PageId>, p: PageId)
    requires Shape(s) && Chained(s, chain) && chain == [] && 1 <= p <= |s.pages|
    ensures s.pages[p - 1].count == 0
  {
    assert p !in chain;
  }

  /** A page with every slot in use. */
  function FullPage(size: nat, slots: nat): RPage {
    RPage(RECORD_PAGE_FULL, 0, Repeat(slots, false), Repeat(slots, Zeros(size)))
  }

  /** Such a store exists for every record size: as many full pages as have ids that fit in a link. */
  lemma BoundReached(size: nat)
    requires Create(size).Ok?
    ensures var s := RStore(size, Create(size).value.slots, RECORD_PAGE_LIST_END,
                            Repeat(MAX_DATA_PAGES, FullPage(size, Create(size).value.slots)));
            Inv(s) && !Roomy(s)
  {
    SlotsPerPageExact(size);
    var slots := Create(size).value.slots;
    LayoutBounds(size, slots);
    CountZero(Repeat(slots, false));
    var s := RStore(size, slots, RECORD_PAGE_LIST_END, Repeat(MAX_DATA_PAGES, FullPage(size, slots)));
    assert Chained(s, []);
  }
}
