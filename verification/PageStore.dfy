/** What a page file means: a map from the pages in use to their data, and the stack of disposed pages. */
module PageStore {
  import opened Outcomes
  import opened Bytes

  const PAGE_HEADER_SIZE := 4
  const PAGE_DATA_SIZE := 4092
  const PAGE_SIZE := 4096
  const FILE_HEADER_SIZE := 4096
  const FREE_LIST_END: i32 := -1
  const PAGE_USED: i32 := -2

  /** The largest id a page can have: as a 32-bit link it is indistinguishable from PAGE_USED. */
  const LAST_PAGE_ID: PageId := 0xFFFF_FFFE

  type PageId = u32
  type Data = s: seq<byte> | |s| == PAGE_DATA_SIZE witness Zeros(PAGE_DATA_SIZE)

  datatype PageStoreError =
    | InvalidPageId(pageId: PageId)
    | PageAlreadyFree(pageId: PageId)
    | Corrupted

  /** `chain` lists the disposed pages, the one to be reused next first; `synced` promises that the
      disk holds all of it. */
  datatype Store = Store(num: u32, chain: seq<PageId>, data: map<PageId, Data>, synced: bool)

  ghost predicate Distinct<T>(s: seq<T>) {
    forall i, j :: 0 <= i < j < |s| ==> s[i] != s[j]
  }

  lemma HeadMember<T>(s: seq<T>)
    ensures s != [] ==> s[0] in s
  {
  }

  /** The link that leads to chain[i]; `end` leads nowhere. */
  function LinkTo(chain: seq<PageId>, i: nat, end: i32): i32
    requires i <= |chain|
  {
    if i == |chain| then end else AsI32(chain[i])
  }

  ghost predicate Valid(s: Store) {
    && Distinct(s.chain)
    && (forall i :: 0 <= i < |s.chain| ==> s.chain[i] < s.num)
    && (forall i :: 1 <= i < |s.chain| ==> s.chain[i] != LAST_PAGE_ID)
    && (forall p: PageId :: p in s.data <==> p < s.num && p !in s.chain)
  }

  const EMPTY_STORE := Store(0, [], map[], true)

  // ---- operations

  function Allocate(s: Store): Result<(Store, PageId), PageStoreError> {
    if s.chain != [] then
      var p := s.chain[0];
      Ok((s.(chain := s.chain[1..], data := s.data[p := Zeros(PAGE_DATA_SIZE)], synced := false), p))
    else if s.num == 0xFFFF_FFFF then
      Err(Corrupted)
    else
      Ok((s.(num := s.num + 1, data := s.data[s.num := Zeros(PAGE_DATA_SIZE)], synced := false), s.num))
  }

  function Read(s: Store, p: PageId): Result<Data, PageStoreError> {
    if p in s.data then Ok(s.data[p]) else Err(InvalidPageId(p))
  }

  function Write(s: Store, p: PageId, d: Data): Result<Store, PageStoreError> {
    if p in s.data then Ok(s.(data := s.data[p := d], synced := false)) else Err(InvalidPageId(p))
  }

  function Dispose(s: Store, p: PageId): Result<Store, PageStoreError> {
    if p >= s.num then Err(InvalidPageId(p))
    else if p !in s.data then Err(PageAlreadyFree(p))
    else Ok(s.(chain := [p] + s.chain, data := s.data - {p}, synced := false))
  }

  function Flush(s: Store): Store {
    s.(synced := true)
  }

  /** The file header can be read back exactly when the head of the free list is below 2^31. */
  predicate Reopenable(s: Store) {
    s.chain == [] || s.chain[0] < 0x8000_0000
  }

  // ---- runs

  datatype Op = AllocateOp | ReadOp(p: PageId) | WriteOp(p: PageId, d: Data) | DisposeOp(p: PageId) | FlushOp

  function Step(s: Store, op: Op): Store {
    match op
    case AllocateOp => (match Allocate(s) case Ok(r) => r.0 case Err(_) => s)
    case ReadOp(_) => s
    case WriteOp(p, d) => (match Write(s, p, d) case Ok(t) => t case Err(_) => s)
    case DisposeOp(p) => (match Dispose(s, p) case Ok(t) => t case Err(_) => s)
    case FlushOp => Flush(s)
  }

  function Run(s: Store, ops: seq<Op>): Store
    decreases |ops|
  {
    if ops == [] then s else Run(Step(s, ops[0]), ops[1..])
  }

  /** No page is disposed on top of page 2^32 - 2. */
  predicate Sound(s: Store, ops: seq<Op>)
    decreases |ops|
  {
    ops == [] ||
    ((ops[0].DisposeOp? && s.chain != [] ==> s.chain[0] != LAST_PAGE_ID) && Sound(Step(s, ops[0]), ops[1..]))
  }

  lemma StepValid(s: Store, op: Op)
    requires Valid(s)
    requires op.DisposeOp? && s.chain != [] ==> s.chain[0] != LAST_PAGE_ID
    ensures Valid(Step(s, op))
  {
    if op.AllocateOp? && s.chain != [] {
      var t := Step(s, op);
      assert forall i :: 0 <= i < |t.chain| ==> t.chain[i] == s.chain[i + 1];
      forall p: PageId ensures p in t.chain <==> p in s.chain && p != s.chain[0] {
        if p in s.chain && p != s.chain[0] {
          var i :| 0 <= i < |s.chain| && s.chain[i] == p;
          assert t.chain[i - 1] == p;
        }
      }
    }
  }

  lemma {:induction false} RunValid(s: Store, ops: seq<Op>)
    requires Valid(s) && Sound(s, ops)
    ensures Valid(Run(s, ops))
    decreases |ops|
  {
    if ops == [] {
    } else {
      StepValid(s, ops[0]);
      RunValid(Step(s, ops[0]), ops[1..]);
    }
  }

  /** A page in use keeps its data over every run that neither writes nor disposes that page. */
  lemma {:induction false} RunKeepsPage(s: Store, ops: seq<Op>, p: PageId)
    requires Valid(s) && Sound(s, ops) && p in s.data
    requires forall i :: 0 <= i < |ops| ==> !(ops[i].WriteOp? && ops[i].p == p) && ops[i] != DisposeOp(p)
    ensures p in Run(s, ops).data && Run(s, ops).data[p] == s.data[p]
    decreases |ops|
  {
    if ops == [] {
    } else {
      StepValid(s, ops[0]);
      RunKeepsPage(Step(s, ops[0]), ops[1..], p);
    }
  }

  /** What one operation does to the contents of page p, or to whether it is in use. */
  function PageAfter(s: Store, op: Op, p: PageId, before: Option<Data>): Option<Data> {
    match op
    case AllocateOp => if Allocate(s).Ok? && Allocate(s).value.1 == p then Some(Zeros(PAGE_DATA_SIZE)) else before
    case WriteOp(q, d) => if q == p && before.Some? then Some(d) else before
    case DisposeOp(q) => if q == p then None else before
    case _ => before
  }

  /** The contents of page p after a run, told by the operations on it alone. */
  function PageTrack(s: Store, ops: seq<Op>, p: PageId, before: Option<Data>): Option<Data>
    decreases |ops|
  {
    if ops == [] then before else PageTrack(Step(s, ops[0]), ops[1..], p, PageAfter(s, ops[0], p, before))
  }

  function PageNow(s: Store, p: PageId): Option<Data> {
    match Read(s, p)
    case Ok(d) => Some(d)
    case Err(_) => None
  }

  /** Over every run a read returns what was last written to the page, zeros if nothing was since it was
      allocated, and fails exactly on pages not allocated since they were last disposed. */
  lemma {:induction false} RunReads(s: Store, ops: seq<Op>, p: PageId)
    requires Valid(s) && Sound(s, ops)
    ensures PageNow(Run(s, ops), p) == PageTrack(s, ops, p, PageNow(s, p))
    decreases |ops|
  {
    if ops == [] {
    } else {
      StepValid(s, ops[0]);
      StepReads(s, ops[0], p);
      RunReads(Step(s, ops[0]), ops[1..], p);
    }
  }

  lemma StepReads(s: Store, op: Op, p: PageId)
    requires Valid(s)
    ensures PageNow(Step(s, op), p) == PageAfter(s, op, p, PageNow(s, p))
  {
  }

  /** Allocation hands out a page that was not in use, zeroed, and touches no other page. */
  lemma AllocateFresh(s: Store)
    requires Valid(s) && Allocate(s).Ok?
    ensures var (t, p) := Allocate(s).value;
            && p !in s.data
            && t.data == s.data[p := Zeros(PAGE_DATA_SIZE)]
            && (s.chain == [] ==> p == s.num && t.num == s.num + 1)
            && (s.chain != [] ==> p == s.chain[0] && t.num == s.num)
  {
    if s.chain != [] {
      assert s.chain[0] in s.chain;
    }
  }

  /** Allocation fails only when no page is free and every page id is taken. */
  lemma AllocateOkIff(s: Store)
    ensures Allocate(s).Ok? <==> s.chain != [] || s.num < 0xFFFF_FFFF
    ensures Allocate(s).Err? ==> Allocate(s).error == Corrupted
  {
  }

  /** A disposed page is refused by read and write and cannot be disposed again. */
  lemma DisposedRejected(s: Store, p: PageId, d: Data)
    requires Valid(s) && Dispose(s, p).Ok?
    ensures var t := Dispose(s, p).value;
            && Read(t, p) == Err(InvalidPageId(p))
            && Write(t, p, d) == Err(InvalidPageId(p))
            && Dispose(t, p) == Err(PageAlreadyFree(p))
  {
  }

  function DisposeAll(s: Store, ps: seq<PageId>): Store
    decreases |ps|
  {
    if ps == [] then s else DisposeAll(Step(s, DisposeOp(ps[0])), ps[1..])
  }

  function AllocateMany(s: Store, n: nat): (r: (Store, seq<PageId>))
    ensures |r.1| <= n
    decreases n
  {
    if n == 0 then (s, [])
    else match Allocate(s)
      case Err(_) => (s, [])
      case Ok(a) => var (t, ids) := AllocateMany(a.0, n - 1); (t, [a.1] + ids)
  }

  lemma AllocateManySplit(s: Store, m: nat, n: nat)
    requires |AllocateMany(s, m).1| == m
    ensures AllocateMany(s, m + n) ==
            (AllocateMany(AllocateMany(s, m).0, n).0,
             AllocateMany(s, m).1 + AllocateMany(AllocateMany(s, m).0, n).1)
    decreases m
  {
    if m == 0 {
      assert [] + AllocateMany(s, n).1 == AllocateMany(s, n).1;
    } else {
      var a := Allocate(s).value;
      var first := AllocateMany(a.0, m - 1);
      AllocateManySplit(a.0, m - 1, n);
      assert AllocateMany(s, m + n).1 == [a.1] + AllocateMany(a.0, (m - 1) + n).1;
      assert [a.1] + (first.1 + AllocateMany(first.0, n).1) == ([a.1] + first.1) + AllocateMany(first.0, n).1;
    }
  }

  function Reversed<T>(s: seq<T>): (r: seq<T>)
    ensures |r| == |s|
  {
    if s == [] then [] else Reversed(s[1..]) + [s[0]]
  }

  /** Reuse is last-in first-out: disposing pages and allocating as many hands them back in reverse
      order and restores the free list. */
  lemma {:induction false} ReuseIsLifo(s: Store, ps: seq<PageId>)
    requires Distinct(ps) && forall i :: 0 <= i < |ps| ==> ps[i] in s.data
    requires forall p: PageId :: p in s.data ==> p < s.num
    ensures var (t, ids) := AllocateMany(DisposeAll(s, ps), |ps|);
            ids == Reversed(ps) && t.chain == s.chain && t.num == s.num
    decreases |ps|
  {
    if ps == [] {
    } else {
      var p, rest := ps[0], ps[1..];
      var d := Step(s, DisposeOp(p));
      assert d.chain == [p] + s.chain;
      ReuseIsLifo(d, rest);
      var mid := AllocateMany(DisposeAll(d, rest), |rest|);
      AllocateManySplit(DisposeAll(d, rest), |rest|, 1);
      var a := Allocate(mid.0).value;
      assert a.0.chain == s.chain;
      assert AllocateMany(a.0, 0) == (a.0, []);
      assert AllocateMany(mid.0, 1) == (a.0, [p] + []);
    }
  }
}
