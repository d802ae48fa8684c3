/** Runs of the buffer pool: any interleaving of locked calls, guard writes and guard drops. */
module PoolRuns {
  import opened Outcomes
  import opened Bytes
  import opened PageStore
  import opened PoolStates
  import opened PoolInvariants
  import opened PoolSteps

  datatype Call =
    | Register(store: Store)
    | Get(key: Key, write: bool)
    | Grow(file: FileId)
    | Fill(guard: Guard, data: Data)
    | Drop(guard: Guard)
    | Force(file: FileId, page: Option<PageId>)
    | Evict(file: FileId)
    | Remove(file: FileId)

  /** What the callers can do at all: registered files are page files, and only live guards are used,
      only write guards for writing. */
  ghost predicate Possible(s: State, c: Call) {
    match c
    case Register(store) => Valid(store)
    case Fill(g, _) => g in s.guards && g.write
    case Drop(g) => g in s.guards
    case _ => true
  }

  ghost function Next(s: State, c: Call): State
    requires Inv(s) && Possible(s, c)
  {
    match c
    case Register(store) => RegisterFile(s, store).0
    case Get(k, write) => GetPage(s, k, write).0
    case Grow(file) => AllocatePage(s, file).0
    case Fill(g, d) => GuardedFrame(s, g); GuardWrite(s, g, d)
    case Drop(g) => GuardedFrame(s, g); Unpinned(s, g)
    case Force(file, page) => ForceFile(s, file, page).0
    case Evict(file) => FlushFile(s, file).0
    case Remove(file) => RemoveFile(s, file).0
  }

  /** The frame under a live guard keeps the guard's key and cannot be recycled or evicted. */
  lemma GuardedFrame(s: State, g: Guard)
    requires Inv(s) && g in s.guards
    ensures g.frame < |s.cores| && s.cores[g.frame].key == Some(g.key) && s.cores[g.frame].pins > 0
    ensures g.key in s.table && s.table[g.key] == g.frame
    ensures Recycled(s, g.frame) == Err(PoolCorrupted)
    ensures ViewAt(s, g.key) == Some(s.cores[g.frame].data)
  {
    hide Partition, Recency, FilesOk, HeldOk, IdleOk;
    UnpinnedPins(s.cores, s.guards, g);
  }

  /** The discipline that transparency needs: when a guard writes, its frame is still marked dirty.
      Which calls make it so is DisciplinedExact in module PoolDiscipline. */
  ghost predicate Disciplined(s: State, c: Call)
    requires Inv(s) && Possible(s, c)
  {
    c.Fill? ==> (GuardedFrame(s, c.guard); s.cores[c.guard.frame].dirty)
  }

  /** What a call does to the contents of key k, in terms of the call's outcome alone. */
  ghost function Effect(s: State, c: Call, k: Key, before: Option<Data>): Option<Data>
    requires Inv(s) && Possible(s, c)
  {
    match c
    case Register(store) =>
      if RegisterFile(s, store).1 == Ok(k.file) then (if k.page in store.data then Some(store.data[k.page]) else None)
      else before
    case Grow(file) =>
      var r := AllocatePage(s, file).1;
      if r.Ok? && r.value.key == k then Some(Zeros(PAGE_DATA_SIZE)) else before
    case Fill(g, d) => if g.key == k then Some(d) else before
    case Remove(file) => if RemoveFile(s, file).1.Ok? && k.file == file then None else before
    case _ => before
  }

  // ---- one step

  lemma FillInv(s: State, g: Guard, d: Data)
    requires Inv(s) && g in s.guards
    ensures g.frame < |s.cores| && Inv(GuardWrite(s, g, d))
  {
    hide Partition, Recency, FilesOk, HeldOk, IdleOk, TableOk, PinsOk;
    GuardedFrame(s, g);
    var c := s.cores[g.frame].(data := d);
    SameKeyKeeps(s, g.frame, c);
    AlikeKeeps(s.cores, s.cores[g.frame := c], s.table, s.guards);
  }

  lemma FillView(s: State, g: Guard, d: Data, k: Key)
    requires Inv(s) && g in s.guards
    ensures g.frame < |s.cores|
    ensures ViewAt(GuardWrite(s, g, d), k) == if g.key == k then Some(d) else ViewAt(s, k)
  {
    hide Partition, Recency, FilesOk, HeldOk, IdleOk, PinsOk;
    GuardedFrame(s, g);
  }

  /** The exact condition of a guard write: the pool stays transparent if and only if the frame is
      dirty, or the bytes written are the stored ones. */
  lemma FillCoherent(s: State, g: Guard, d: Data)
    requires Inv(s) && Coherent(s) && g in s.guards
    ensures g.frame < |s.cores|
    ensures Coherent(GuardWrite(s, g, d)) <==> s.cores[g.frame].dirty || StoredAt(s.files, g.key) == Some(d)
  {
    hide Partition, Recency, FilesOk, HeldOk, IdleOk, PinsOk, StoredAt;
    GuardedFrame(s, g);
    var t := GuardWrite(s, g, d);
    forall f | 0 <= f < |t.cores| && f != g.frame ensures CoreCoherent(t.cores[f], t.files) {
      assert CoreCoherent(s.cores[f], s.files);
    }
    assert Coherent(t) <==> CoreCoherent(t.cores[g.frame], t.files);
  }

  lemma UnpinnedView(s: State, g: Guard)
    requires Inv(s) && g in s.guards
    ensures g.frame < |s.cores|
    ensures forall k :: ViewAt(Unpinned(s, g), k) == ViewAt(s, k)
    ensures Coherent(s) ==> Coherent(Unpinned(s, g))
  {
    hide Partition, Recency, FilesOk, HeldOk, IdleOk, PinsOk, Without;
    GuardedFrame(s, g);
    var t := Unpinned(s, g);
    if Coherent(s) {
      forall f | 0 <= f < |t.cores| ensures CoreCoherent(t.cores[f], t.files) {
        assert CoreCoherent(s.cores[f], s.files);
      }
    }
  }

  lemma PinnedView(s: State, f: nat, k: Key, write: bool)
    requires Inv(s) && f < |s.cores|
    ensures forall q :: ViewAt(Pinned(s, f, k, write), q) == ViewAt(s, q)
    ensures Coherent(s) ==> Coherent(Pinned(s, f, k, write))
  {
    hide Partition, Recency, FilesOk, HeldOk, IdleOk, PinsOk, Without;
    var t := Pinned(s, f, k, write);
    if Coherent(s) {
      forall g | 0 <= g < |t.cores| ensures CoreCoherent(t.cores[g], t.files) {
        assert CoreCoherent(s.cores[g], s.files);
      }
    }
  }

  lemma InstalledView(s: State, f: nat, k: Key, d: Data, dirty: bool)
    requires Inv(s) && f < |s.cores| && s.cores[f].key.None? && k !in s.table
    requires StoredAt(s.files, k) == Some(d)
    ensures Installed(s, f, k, d, dirty).Ok?
    ensures forall q :: ViewAt(Installed(s, f, k, d, dirty).value, q) == ViewAt(s, q)
    ensures Coherent(s) ==> Coherent(Installed(s, f, k, d, dirty).value)
  {
    hide Partition, Recency, FilesOk, HeldOk, IdleOk, PinsOk, Without, StoredAt;
    var t := Installed(s, f, k, d, dirty).value;
    if Coherent(s) {
      forall g | 0 <= g < |t.cores| ensures CoreCoherent(t.cores[g], t.files) {
        assert CoreCoherent(s.cores[g], s.files);
      }
    }
  }

  /** Fetching a page, hit or miss, successful or not, changes nothing a reader can see. */
  lemma GetPageView(s: State, k: Key, write: bool)
    requires Inv(s) && Coherent(s)
    ensures Coherent(GetPage(s, k, write).0)
    ensures forall q :: ViewAt(GetPage(s, k, write).0, q) == ViewAt(s, q)
  {
    hide Installed, Pinned, Acquired, PageData, Partition, Recency, IdleOk, HeldOk, FilesOk, PinsOk, Stored, ViewAt,
      Coherent;
    if k in s.table {
      PinnedView(s, s.table[k], k, write);
    } else if Acquired(s).Ok? {
      AcquiredInv(s);
      AcquiredCoherent(s);
      AcquiredTable(s, k);
      var (t, f) := Acquired(s).value;
      PageDataStored(t.files, k);
      if PageData(t.files, k).Ok? {
        InstalledView(t, f, k, PageData(t.files, k).value, write);
      }
    }
  }

  /** Which of its errors get_page can return, and when. */
  lemma GetPageResult(s: State, k: Key, write: bool)
    requires Inv(s)
    ensures var (t, r) := GetPage(s, k, write);
            && (r.Ok? ==> r.value.key == k && r.value.write == write && r.value in t.guards &&
                          t.guards == s.guards + multiset{r.value})
            && (r.Err? ==> t.guards == s.guards)
            && (r.Ok? <==> k in s.table || (Stored(s.files, k) && Acquired(s).Ok?))
            && (r.Err? ==> r.error == NoFrameAvailable || r.error == UnknownFile(k.file) ||
                           r.error == PageStoreFailure(InvalidPageId(k.page)))
  {
    hide Installed, Acquired, Partition, Recency, IdleOk, FilesOk, PinsOk;
    AcquiredFails(s);
    if k in s.table {
      KeyView(s, s.table[k], k);
    } else if Acquired(s).Ok? {
      AcquiredInv(s);
      AcquiredTable(s, k);
      AcquiredStored(s, k);
      var (t, f) := Acquired(s).value;
      PageDataStored(t.files, k);
      if PageData(t.files, k).Ok? {
        InstalledGuards(t, f, k, PageData(t.files, k).value, write);
      }
    }
  }

  lemma InstalledGuards(s: State, f: nat, k: Key, d: Data, dirty: bool)
    requires f < |s.cores| == |s.stamp| && k !in s.table
    ensures Installed(s, f, k, d, dirty).Ok?
    ensures Installed(s, f, k, d, dirty).value.guards == s.guards + multiset{Guard(f, k, dirty)}
  {
  }

  lemma AcquiredStored(s: State, k: Key)
    requires Inv(s) && Acquired(s).Ok?
    ensures Stored(Acquired(s).value.0.files, k) <==> Stored(s.files, k)
  {
    hide Partition, Recency, IdleOk, HeldOk, FilesOk, PinsOk, Without, TableOk, Stored;
    if s.free == [] {
      var f := Victim(s.cores, s.order).value;
      VictimIsLeastRecent(s, f);
      FlushedFiles(s, f);
    }
  }

  /** Growing a file adds one zeroed key and changes nothing else. */
  lemma AllocatePageView(s: State, file: FileId)
    requires Inv(s) && Coherent(s)
    ensures var (t, r) := AllocatePage(s, file);
            && Coherent(t)
            && (r.Ok? ==> r.value.key.file == file && r.value.write && ViewAt(s, r.value.key) == None)
            && forall k ::
                 ViewAt(t, k) == if r.Ok? && r.value.key == k then Some(Zeros(PAGE_DATA_SIZE)) else ViewAt(s, k)
  {
    hide Installed, Acquired, Partition, Recency, IdleOk, PinsOk, Allocate, Valid, Coherent, ViewAt, FilesOk, HeldOk,
      TableOk;
    if Acquired(s).Ok? {
      AcquiredInv(s);
      AcquiredCoherent(s);
      var (t, f) := Acquired(s).value;
      if file in t.files && Allocate(t.files[file]).Ok? {
        GrownInv(t, file);
        GrownView(t, file);
        var (store, p) := Allocate(t.files[file]).value;
        InstalledView(t.(files := t.files[file := store]), f, Key(file, p), Zeros(PAGE_DATA_SIZE), true);
      }
    }
  }

  /** The files keep their page counts and free lists. */
  ghost predicate SameDims(s: State, t: State) {
    t.files.Keys == s.files.Keys && |t.cores| == |s.cores| &&
    forall id :: id in s.files ==> t.files[id].num == s.files[id].num && t.files[id].chain == s.files[id].chain
  }

  lemma FlushedDims(s: State, f: nat)
    requires Inv(s) && f < |s.cores|
    ensures Flushed(s, f).Ok? && SameDims(s, Flushed(s, f).value)
  {
    FlushedFiles(s, f);
  }

  lemma AcquiredDims(s: State)
    requires Inv(s) && Acquired(s).Ok?
    ensures SameDims(s, Acquired(s).value.0)
  {
    hide Partition, Recency, IdleOk, HeldOk, FilesOk, PinsOk, TableOk, Without, Flushed;
    if s.free == [] {
      var f := Victim(s.cores, s.order).value;
      VictimIsLeastRecent(s, f);
      FlushedDims(s, f);
    }
  }

  /** Which of its errors allocate_page can return, and when; a refused allocation leaves no guard, and
      no corruption is ever found in the pool. */
  lemma AllocatePageResult(s: State, file: FileId)
    requires Inv(s)
    ensures var (t, r) := AllocatePage(s, file);
            && (r.Ok? <==>
               Acquired(s).Ok? && file in s.files && (s.files[file].chain != [] || s.files[file].num < 0xFFFF_FFFF))
            && (r.Ok? ==> r.value.key.file == file && r.value.write && t.guards == s.guards + multiset{r.value})
            && (r.Err? ==> t.guards == s.guards && |t.cores| == |s.cores|)
            && (r.Err? ==> r.error == NoFrameAvailable || r.error == UnknownFile(file) ||
                           r.error == PageStoreFailure(PageStoreError.Corrupted))
  {
    hide Installed, Acquired, Partition, Recency, IdleOk, PinsOk, Valid;
    AcquiredFails(s);
    if Acquired(s).Ok? {
      AcquiredInv(s);
      AcquiredDims(s);
      var (t, f) := Acquired(s).value;
      if file in t.files && Allocate(t.files[file]).Ok? {
        GrownInv(t, file);
        var (store, p) := Allocate(t.files[file]).value;
        InstalledGuards(t.(files := t.files[file := store]), f, Key(file, p), Zeros(PAGE_DATA_SIZE), true);
      }
    }
  }

  lemma GrownView(t: State, file: FileId)
    requires Inv(t) && file in t.files && Allocate(t.files[file]).Ok?
    ensures var (store, p) := Allocate(t.files[file]).value;
            var u := t.(files := t.files[file := store]);
            && ViewAt(t, Key(file, p)) == None
            && StoredAt(u.files, Key(file, p)) == Some(Zeros(PAGE_DATA_SIZE))
            && (Coherent(t) ==> Coherent(u))
            && forall k :: ViewAt(u, k) == if k == Key(file, p) then Some(Zeros(PAGE_DATA_SIZE)) else ViewAt(t, k)
  {
    hide Partition, Recency, IdleOk, PinsOk, Allocate, Valid;
    AllocateStoreValid(t.files[file]);
    GrownInv(t, file);
    var (store, p) := Allocate(t.files[file]).value;
    var u := t.(files := t.files[file := store]);
    if Coherent(t) {
      forall f | 0 <= f < |u.cores| ensures CoreCoherent(u.cores[f], u.files) {
        assert CoreCoherent(t.cores[f], t.files);
        assert u.cores[f].key.Some? ==> Stored(t.files, u.cores[f].key.value);
      }
    }
  }

  lemma NextInv(s: State, c: Call)
    requires Inv(s) && Possible(s, c)
    ensures Inv(Next(s, c))
  {
    match c
    case Register(store) => RegisterInv(s, store);
    case Get(k, write) => GetPageInv(s, k, write);
    case Grow(file) => AllocatePageInv(s, file);
    case Fill(g, d) => FillInv(s, g, d);
    case Drop(g) => UnpinnedInv(s, g);
    case Force(file, page) => ForceInv(s, file, page);
    case Evict(file) => FlushFileInv(s, file);
    case Remove(file) => RemoveFileInv(s, file);
  }

  lemma NextView(s: State, c: Call, k: Key)
    requires Inv(s) && Coherent(s) && Possible(s, c) && Disciplined(s, c)
    ensures Coherent(Next(s, c))
    ensures ViewAt(Next(s, c), k) == Effect(s, c, k, ViewAt(s, k))
  {
    hide Inv, Coherent, ViewAt;
    match c
    case Register(store) => RegisterInv(s, store);
    case Get(q, write) => GetPageView(s, q, write);
    case Grow(file) => AllocatePageView(s, file);
    case Fill(g, d) => FillView(s, g, d, k); FillCoherent(s, g, d);
    case Drop(g) => UnpinnedView(s, g);
    case Force(file, page) => ForceInv(s, file, page);
    case Evict(file) => FlushFileInv(s, file);
    case Remove(file) => RemoveFileInv(s, file);
  }

  // ---- runs

  /** A pool just created, with every frame free and frame 0 on top of the free stack. */
  ghost function NewPool(capacity: nat): (s: State)
    ensures Inv(s) && Coherent(s)
  {
    var s := State(map[], 0, map[], seq(capacity, _ => Core(None, Zeros(PAGE_DATA_SIZE), false, 0)),
                   seq(capacity, i requires 0 <= i < capacity => capacity - 1 - i), [], seq(capacity, _ => 0), 0,
                     multiset{});
    assert forall f: nat :: f < capacity ==> f in s.free by {
      forall f: nat | f < capacity ensures f in s.free {
        assert s.free[capacity - 1 - f] == f;
      }
    }
    s
  }

  ghost predicate Feasible(s: State, calls: seq<Call>)
    requires Inv(s)
    decreases |calls|
  {
    calls == [] ||
    (Possible(s, calls[0]) && (NextInv(s, calls[0]); Feasible(Next(s, calls[0]), calls[1..])))
  }

  ghost function Run(s: State, calls: seq<Call>): State
    requires Inv(s) && Feasible(s, calls)
    decreases |calls|
  {
    if calls == [] then s else NextInv(s, calls[0]); Run(Next(s, calls[0]), calls[1..])
  }

  /** Every write through a guard happens while the frame is still dirty. */
  ghost predicate AllDisciplined(s: State, calls: seq<Call>)
    requires Inv(s) && Feasible(s, calls)
    decreases |calls|
  {
    calls == [] ||
    (Disciplined(s, calls[0]) && (NextInv(s, calls[0]); AllDisciplined(Next(s, calls[0]), calls[1..])))
  }

  /** The contents of key k after the run, computed from the calls' effects alone. */
  ghost function Track(s: State, calls: seq<Call>, k: Key, before: Option<Data>): Option<Data>
    requires Inv(s) && Feasible(s, calls)
    decreases |calls|
  {
    if calls == [] then before
    else NextInv(s, calls[0]); Track(Next(s, calls[0]), calls[1..], k, Effect(s, calls[0], k, before))
  }

  /** Frame structure and pin protocol hold after every run, in every interleaving. */
  lemma {:induction false} RunInv(s: State, calls: seq<Call>)
    requires Inv(s) && Feasible(s, calls)
    ensures Inv(Run(s, calls))
    decreases |calls|
  {
    if calls == [] {
    } else {
      NextInv(s, calls[0]);
      RunInv(Next(s, calls[0]), calls[1..]);
    }
  }

  /** Transparency: after every disciplined run a reader of key k sees what the calls' effects say;
      hits, misses, evictions, flushes and failed calls are invisible. */
  lemma {:induction false} RunView(s: State, calls: seq<Call>, k: Key)
    requires Inv(s) && Coherent(s) && Feasible(s, calls) && AllDisciplined(s, calls)
    ensures Coherent(Run(s, calls))
    ensures ViewAt(Run(s, calls), k) == Track(s, calls, k, ViewAt(s, k))
    decreases |calls|
  {
    hide Inv, Coherent, ViewAt, Effect, Next, Possible, Disciplined;
    if calls == [] {
    } else {
      NextInv(s, calls[0]);
      NextView(s, calls[0], k);
      RunView(Next(s, calls[0]), calls[1..], k);
    }
  }

  // ---- LRU

  /** With the free stack empty, the frame taken is the unpinned one least recently touched. */
  lemma AcquireTakesLeastRecent(s: State)
    requires Inv(s) && s.free == [] && Acquired(s).Ok?
    ensures var f := Acquired(s).value.1;
            && f < |s.cores| == |s.stamp| && s.cores[f].pins == 0
            && forall g :: 0 <= g < |s.cores| && g != f && s.cores[g].pins == 0 ==> s.stamp[f] < s.stamp[g]
  {
    hide Recency, TableOk, IdleOk, HeldOk, FilesOk, PinsOk, Flushed, Recycled, Touched;
    var f := Victim(s.cores, s.order).value;
    VictimIsLeastRecent(s, f);
    assert forall g: nat :: g < |s.cores| ==> g in s.order;
  }

  /** A touch makes a frame the most recent one and changes no other frame's time. */
  lemma TouchIsLatest(s: State, f: nat)
    requires Inv(s) && f in s.order
    ensures f < |s.stamp|
    ensures var t := Touched(s, f);
            && |t.stamp| == |s.stamp|
            && (forall g :: g in t.order && g != f ==> g < |s.stamp| && t.stamp[f] > t.stamp[g] == s.stamp[g])
  {
    hide TableOk, IdleOk, HeldOk, FilesOk, PinsOk;
    WithoutRecency(s.order, f, s.stamp, s.clock);
    forall g ensures g in Without(s.order, f) <==> g in s.order && g != f {
      WithoutIn(s.order, f, g);
    }
  }
}
