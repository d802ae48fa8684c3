/** Runs of a record file: it is a map from Rid to bytes, and it never holds more pages than it needs. */
module RecordRuns {
  import opened Outcomes
  import opened Bytes
  import opened PageStore
  import opened RecordLayout
  import opened RecordStores

  // ---- the map

  ghost function LiveSet(s: RStore): set<Rid> {
    set p: PageId, i: u32 | 1 <= p <= |s.pages| && i < s.slots && PageHolds(s.pages[p - 1], i) :: Rid(p, i)
  }

  ghost function Live(s: RStore): map<Rid, seq<byte>> {
    map r | r in LiveSet(s) :: s.pages[r.page - 1].recs[r.slot]
  }

  lemma LiveIsLookup(s: RStore, r: Rid)
    ensures r in Live(s) <==> Lookup(s, r).Some?
    ensures r in Live(s) ==> Lookup(s, r) == Some(Live(s)[r])
    ensures r in Live(s) <==> r in LiveSet(s)
  {
  }

  datatype Op = InsertOp(data: seq<byte>) | GetOp(rid: Rid) | UpdateOp(rid: Rid, data: seq<byte>) | DeleteOp(rid: Rid)

  function Apply(s: RStore, op: Op): RStore {
    match op
    case InsertOp(d) => (match Insert(s, d) case Ok(r) => r.0 case Err(_) => s)
    case GetOp(_) => s
    case UpdateOp(rid, d) => (match Update(s, rid, d) case Ok(t) => t case Err(_) => s)
    case DeleteOp(rid) => (match Delete(s, rid) case Ok(t) => t case Err(_) => s)
  }

  /** The same operation on the map; an insert binds the Rid that the file chose. */
  ghost function MapStep(m: map<Rid, seq<byte>>, s: RStore, op: Op): map<Rid, seq<byte>> {
    match op
    case InsertOp(d) => if Insert(s, d).Ok? then m[Insert(s, d).value.1 := d] else m
    case GetOp(_) => m
    case UpdateOp(rid, d) => if rid in m && |d| == s.size then m[rid := d] else m
    case DeleteOp(rid) => m - {rid}
  }

  /** The operation does not add a page beyond the last page id that fits in a link. */
  predicate CanStep(s: RStore, op: Op) {
    op.InsertOp? && |op.data| == s.size ==> Roomy(s)
  }

  /** Exactly the operations that can step keep the invariant. */
  lemma ApplyInv(s: RStore, op: Op)
    requires Inv(s)
    ensures Inv(Apply(s, op)) <==> CanStep(s, op)
    ensures Apply(s, op).size == s.size && Apply(s, op).slots == s.slots
  {
    hide Inv;
    match op
    case InsertOp(d) =>
      InsertInv(s, d);
      InsertSizes(s, d);
    case GetOp(_) =>
    case UpdateOp(rid, d) =>
      UpdateInv(s, rid, d);
    case DeleteOp(rid) =>
      DeleteInv(s, rid);
  }

  lemma InsertSizes(s: RStore, d: seq<byte>)
    ensures Insert(s, d).Ok? ==>
              && Insert(s, d).value.0.size == s.size && Insert(s, d).value.0.slots == s.slots
              && |Insert(s, d).value.0.pages| == |s.pages| + (if s.first == RECORD_PAGE_LIST_END then 1 else 0)
  {
    FillRange(s, d);
    if |s.pages| < 0xFFFF_FFFE {
      FillRange(Grown(s), d);
    }
  }

  /** One operation on the file is the same operation on the map. */
  lemma ApplyRefines(s: RStore, op: Op)
    requires Inv(s)
    ensures Live(Apply(s, op)) == MapStep(Live(s), s, op)
    ensures op.InsertOp? && Insert(s, op.data).Ok? ==> Insert(s, op.data).value.1 !in Live(s)
  {
    hide Inv, Live, Lookup, Insert, Update, Delete;
    var t := Apply(s, op);
    forall r ensures Lookup(t, r) == if r in MapStep(Live(s), s, op) then Some(MapStep(Live(s), s, op)[r]) else None {
      LiveIsLookup(s, r);
      match op
      case InsertOp(d) =>
        InsertInv(s, d);
        if |d| == s.size {
          InsertBinds(s, d, r);
          LiveIsLookup(s, Insert(s, d).value.1);
        }
      case GetOp(_) =>
      case UpdateOp(rid, d) =>
        LiveIsLookup(s, rid);
        UpdateInv(s, rid, d);
        if Update(s, rid, d).Ok? {
          UpdateRebinds(s, rid, d, r);
        }
      case DeleteOp(rid) =>
        LiveIsLookup(s, rid);
        DeleteInv(s, rid);
        if Delete(s, rid).Ok? {
          DeleteUnbinds(s, rid, r);
        }
    }
    SameLive(t, MapStep(Live(s), s, op));
    if op.InsertOp? && Insert(s, op.data).Ok? {
      InsertInv(s, op.data);
      InsertBinds(s, op.data, Insert(s, op.data).value.1);
      LiveIsLookup(s, Insert(s, op.data).value.1);
    }
  }

  lemma SameLive(t: RStore, m: map<Rid, seq<byte>>)
    requires forall r :: Lookup(t, r) == if r in m then Some(m[r]) else None
    ensures Live(t) == m
  {
    hide Lookup, Live;
    forall r ensures r in Live(t) <==> r in m
      ensures r in m ==> r in Live(t) && Live(t)[r] == m[r] {
      LiveIsLookup(t, r);
    }
  }

  predicate RunFits(s: RStore, ops: seq<Op>)
    decreases |ops|
  {
    ops == [] || (CanStep(s, ops[0]) && RunFits(Apply(s, ops[0]), ops[1..]))
  }

  function Run(s: RStore, ops: seq<Op>): RStore
    decreases |ops|
  {
    if ops == [] then s else Run(Apply(s, ops[0]), ops[1..])
  }

  ghost function MapRun(m: map<Rid, seq<byte>>, s: RStore, ops: seq<Op>): map<Rid, seq<byte>>
    decreases |ops|
  {
    if ops == [] then m else MapRun(MapStep(m, s, ops[0]), Apply(s, ops[0]), ops[1..])
  }

  /** Over every run the file refines the map. */
  lemma {:induction false} RunRefines(s: RStore, ops: seq<Op>)
    requires Inv(s) && RunFits(s, ops)
    ensures Inv(Run(s, ops)) && Live(Run(s, ops)) == MapRun(Live(s), s, ops)
    decreases |ops|
  {
    hide Inv, Live, MapStep, Apply, CanStep;
    if ops == [] {
    } else {
      ApplyInv(s, ops[0]);
      ApplyRefines(s, ops[0]);
      RunRefines(Apply(s, ops[0]), ops[1..]);
    }
  }

  // ---- the space bound

  ghost function AllRids(n: nat, slots: nat): set<Rid>
    requires n < 0x1_0000_0000 && slots < 0x1_0000_0000
  {
    set p: PageId, i: u32 | 1 <= p <= n && i < slots :: Rid(p, i)
  }

  ghost function Row(p: PageId, slots: nat): set<Rid>
    requires slots < 0x1_0000_0000
  {
    set i: u32 | i < slots :: Rid(p, i)
  }

  lemma {:induction false} RowSize(p: PageId, slots: nat)
    requires slots < 0x1_0000_0000
    ensures |Row(p, slots)| == slots
  {
    if slots == 0 {
      assert Row(p, 0) == {};
    } else {
      RowSize(p, slots - 1);
      assert Row(p, slots) == Row(p, slots - 1) + {Rid(p, slots - 1)};
    }
  }

  lemma AllRidsSplit(n: nat, slots: nat)
    requires 0 < n < 0x1_0000_0000 && slots < 0x1_0000_0000
    ensures AllRids(n, slots) == AllRids(n - 1, slots) + Row(n, slots)
    ensures AllRids(n - 1, slots) !! Row(n, slots)
  {
  }

  lemma {:induction false} AllRidsSize(n: nat, slots: nat)
    requires n < 0x1_0000_0000 && slots < 0x1_0000_0000
    ensures |AllRids(n, slots)| == n * slots
  {
    if n == 0 {
      assert AllRids(0, slots) == {};
    } else {
      AllRidsSize(n - 1, slots);
      RowSize(n, slots);
      AllRidsSplit(n, slots);
      hide AllRids, Row;
      assert |AllRids(n - 1, slots) + Row(n, slots)| == |AllRids(n - 1, slots)| + |Row(n, slots)|;
      MulMonotone(n - 1, n, slots);
    }
  }

  lemma SubsetSize<T>(a: set<T>, b: set<T>)
    requires a <= b
    ensures |a| <= |b|
  {
    assert b == a + (b - a);
  }

  lemma LiveAtMostAll(s: RStore)
    requires Inv(s)
    ensures |LiveSet(s)| <= |s.pages| * s.slots
  {
    var n := |s.pages|;
    assert LiveSet(s) <= AllRids(n, s.slots);
    SubsetSize(LiveSet(s), AllRids(n, s.slots));
    AllRidsSize(n, s.slots);
  }

  /** When the chain is empty every slot of every page is in use. */
  lemma AllFull(s: RStore)
    requires Inv(s) && s.first == RECORD_PAGE_LIST_END
    ensures |LiveSet(s)| == |s.pages| * s.slots
  {
    hide Inv, LiveSet;
    PagesBound(s);
    var n := |s.pages|;
    forall r ensures r in LiveSet(s) <==> r in AllRids(n, s.slots) {
      InLiveSet(s, r);
      if r in AllRids(n, s.slots) {
        FullAt(s, r);
      }
    }
    assert LiveSet(s) == AllRids(n, s.slots);
    AllRidsSize(n, s.slots);
  }

  lemma InLiveSet(s: RStore, r: Rid)
    ensures r in LiveSet(s) <==> InRange(s, r) && PageHolds(s.pages[r.page - 1], r.slot)
  {
  }

  lemma FullAt(s: RStore, r: Rid)
    requires Inv(s) && s.first == RECORD_PAGE_LIST_END && InRange(s, r)
    ensures PageHolds(s.pages[r.page - 1], r.slot)
  {
    var chain :| Chained(s, chain);
    ChainHead(s, chain);
    ChainedNext(s, chain, r.page);
  }

  lemma PagesBound(s: RStore)
    requires Inv(s)
    ensures |s.pages| < 0x1_0000_0000 && s.slots > 0
  {
  }

  lemma ApplyLiveCount(s: RStore, op: Op)
    requires Inv(s) && CanStep(s, op)
    ensures |LiveSet(Apply(s, op))| <= |LiveSet(s)| + 1
    ensures op.InsertOp? && Insert(s, op.data).Ok? ==> |LiveSet(Apply(s, op))| == |LiveSet(s)| + 1
    ensures !op.InsertOp? ==> |LiveSet(Apply(s, op))| <= |LiveSet(s)|
  {
    hide Inv, Lookup, Apply, Insert, LiveSet;
    ApplyRefines(s, op);
    var a, b := LiveSet(s), LiveSet(Apply(s, op));
    assert Live(s).Keys == a by { LiveKeys(s); }
    assert Live(Apply(s, op)).Keys == b by { LiveKeys(Apply(s, op)); }
    match op
    case InsertOp(d) =>
      if Insert(s, d).Ok? {
        assert b == a + {Insert(s, d).value.1};
      }
    case GetOp(_) =>
    case UpdateOp(rid, d) =>
      assert b == a;
    case DeleteOp(rid) =>
      assert b == a - {rid};
      SubsetSize(b, a);
  }

  lemma LiveKeys(s: RStore)
    ensures Live(s).Keys == LiveSet(s)
  {
  }

  function Max(a: nat, b: nat): nat {
    if a < b then b else a
  }

  /** The largest number of records alive at any point of the run. */
  ghost function PeakLive(s: RStore, ops: seq<Op>): nat
    decreases |ops|
  {
    if ops == [] then |LiveSet(s)| else Max(|LiveSet(s)|, PeakLive(Apply(s, ops[0]), ops[1..]))
  }

  function CeilDiv(a: nat, b: nat): nat
    requires b > 0
  {
    (a + b - 1) / b
  }

  lemma CeilDivExact(a: nat, b: nat, n: nat)
    requires b > 0 && a <= n * b && (n > 0 ==> a > (n - 1) * b) && (n == 0 ==> a == 0)
    ensures CeilDiv(a, b) == n
  {
    if n > 0 {
      var q := CeilDiv(a, b);
      MulMonotone(n - 1, n, b);
      if q < n {
        MulMonotone(q + 1, n, b);
      } else if q > n {
        MulMonotone(n + 1, q, b);
      }
    }
  }

  lemma MulMonotone(x: nat, y: nat, b: nat)
    requires x <= y
    ensures x * b <= y * b && (x + 1) * b == x * b + b
  {
  }

  /** Just enough pages for `peak` records. */
  ghost predicate Tight(s: RStore, peak: nat) {
    var n := |s.pages|;
    && |LiveSet(s)| <= peak <= n * s.slots
    && (n > 0 ==> peak > (n - 1) * s.slots)
  }

  lemma ApplyTight(s: RStore, op: Op, peak: nat)
    requires Inv(s) && CanStep(s, op) && Tight(s, peak)
    ensures Tight(Apply(s, op), Max(peak, |LiveSet(Apply(s, op))|))
  {
    hide Inv, LiveSet;
    var t := Apply(s, op);
    ApplyInv(s, op);
    ApplyLiveCount(s, op);
    LiveAtMostAll(t);
    match op {
      case InsertOp(d) =>
        InsertSizes(s, d);
        if Insert(s, d).Ok? && s.first == RECORD_PAGE_LIST_END {
          AllFull(s);
          PagesBound(s);
          assert (|s.pages| + 1) * s.slots == |s.pages| * s.slots + s.slots;
        }
      case GetOp(_) =>
      case UpdateOp(_, _) =>
      case DeleteOp(_) =>
    }
  }

  lemma {:induction false} RunTight(s: RStore, ops: seq<Op>, peak: nat)
    requires Inv(s) && RunFits(s, ops) && Tight(s, peak)
    ensures Inv(Run(s, ops)) && Tight(Run(s, ops), Max(peak, PeakLive(s, ops)))
    ensures Run(s, ops).slots == s.slots
    decreases |ops|
  {
    hide Inv, LiveSet, Apply, CanStep;
    if ops == [] {
    } else {
      ApplyInv(s, ops[0]);
      ApplyTight(s, ops[0], peak);
      RunTight(Apply(s, ops[0]), ops[1..], Max(peak, |LiveSet(Apply(s, ops[0]))|));
      PeakAtLeastNow(Apply(s, ops[0]), ops[1..]);
    }
  }

  lemma PeakAtLeastNow(s: RStore, ops: seq<Op>)
    ensures PeakLive(s, ops) >= |LiveSet(s)|
  {
  }

  /** Which runs keep the file valid, as a caller can tell: those in which there are never more live
      records than the pages with ids below 2^31 hold. */
  lemma {:induction false} RunFitsExact(s: RStore, ops: seq<Op>)
    requires Inv(s)
    ensures RunFits(s, ops) <==> PeakLive(s, ops) <= MAX_DATA_PAGES * s.slots
    decreases |ops|
  {
    hide Inv, LiveSet, Apply, CanStep;
    LiveBound(s);
    if ops == [] {
    } else {
      ApplyInv(s, ops[0]);
      if CanStep(s, ops[0]) {
        RunFitsExact(Apply(s, ops[0]), ops[1..]);
      } else {
        BeyondPeak(s, ops[0]);
        PeakAtLeastNow(Apply(s, ops[0]), ops[1..]);
      }
    }
  }

  lemma LiveBound(s: RStore)
    requires Inv(s)
    ensures |LiveSet(s)| <= MAX_DATA_PAGES * s.slots
  {
    hide LiveSet;
    LiveAtMostAll(s);
    InvBound(s);
    MulBound(|s.pages|, MAX_DATA_PAGES, s.slots);
  }

  lemma MulBound(a: nat, b: nat, c: nat)
    requires a <= b
    ensures a * c <= b * c
  {
  }

  /** An insert beyond the bound finds every slot of every page in use. */
  lemma BeyondPeak(s: RStore, op: Op)
    requires Inv(s) && !CanStep(s, op)
    ensures |LiveSet(Apply(s, op))| > MAX_DATA_PAGES * s.slots
  {
    hide LiveSet, Inv, Insert;
    InvBound(s);
    AllFull(s);
    InsertInv(s, op.data);
    ApplyRefines(s, op);
    LiveKeys(s);
    LiveKeys(Apply(s, op));
    var rid := Insert(s, op.data).value.1;
    assert Live(Apply(s, op)).Keys == Live(s).Keys + {rid};
  }

  /** From a new file on, as long as there are never more live records than the pages with ids below
      2^31 hold, the file is the map that the operations describe, and the number of data pages is the
      peak number of live records divided by the slots of a page, rounded up. */
  lemma SpaceIsTight(size: nat, ops: seq<Op>)
    requires Create(size).Ok? && PeakLive(Create(size).value, ops) <= MAX_DATA_PAGES * Create(size).value.slots
    ensures var s := Create(size).value;
            && s.slots > 0 && |Run(s, ops).pages| == CeilDiv(PeakLive(s, ops), s.slots)
            && Inv(Run(s, ops)) && Live(Run(s, ops)) == MapRun(map[], s, ops)
  {
    var s := Create(size).value;
    CreateInv(size);
    RunFitsExact(s, ops);
    assert LiveSet(s) == {};
    LiveKeys(s);
    assert Live(s) == map[];
    RunTight(s, ops, 0);
    RunRefines(s, ops);
    var t := Run(s, ops);
    CeilDivExact(PeakLive(s, ops), s.slots, |t.pages|);
  }
}
