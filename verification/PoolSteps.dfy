/** The calls of the buffer pool as steps of the state machine, and what holds over every run. */
module PoolSteps {
  import opened Outcomes
  import opened Bytes
  import opened PageStore
  import opened PoolStates
  import opened PoolInvariants

  // ---- the calls

  function PageData(files: map<FileId, Store>, k: Key): Result<Data, PoolError> {
    if k.file !in files then Err(UnknownFile(k.file))
    else match Read(files[k.file], k.page)
      case Ok(d) => Ok(d)
      case Err(e) => Err(PageStoreFailure(e))
  }

  ghost function GetPage(s: State, k: Key, write: bool): (State, Result<Guard, PoolError>)
    requires Inv(s)
  {
    if k in s.table then
      (Pinned(s, s.table[k], k, write), Ok(Guard(s.table[k], k, write)))
    else match Acquired(s)
      case Err(e) => (s, Err(e))
      case Ok(a) =>
        AcquiredInv(s);
        match PageData(a.0.files, k)
        case Err(e) => (a.0, Err(e))
        case Ok(d) =>
          match Installed(a.0, a.1, k, d, write)
          case Err(e) => (a.0, Err(e))
          case Ok(t) => (t, Ok(Guard(a.1, k, write)))
  }

  ghost function AllocatePage(s: State, file: FileId): (State, Result<Guard, PoolError>)
    requires Inv(s)
  {
    match Acquired(s)
    case Err(e) => (s, Err(e))
    case Ok(a) =>
      AcquiredInv(s);
      if file !in a.0.files then (a.0, Err(UnknownFile(file)))
      else match Allocate(a.0.files[file])
        case Err(e) => (a.0, Err(PageStoreFailure(e)))
        case Ok(b) =>
          var t := a.0.(files := a.0.files[file := b.0]);
          match Installed(t, a.1, Key(file, b.1), Zeros(PAGE_DATA_SIZE), true)
          case Err(e) => (t, Err(e))
          case Ok(u) => (u, Ok(Guard(a.1, Key(file, b.1), true)))
  }

  predicate Matches(c: Core, file: FileId, page: Option<PageId>) {
    c.key.Some? && c.key.value.file == file && (page.None? || page == Some(c.key.value.page))
  }

  /** The frames below n that hold a page of the file (or just the one page), in frame order. */
  function Matching(cores: seq<Core>, file: FileId, page: Option<PageId>, n: nat): (r: seq<nat>)
    requires n <= |cores|
    ensures forall i :: 0 <= i < |r| ==> r[i] < n
  {
    if n == 0 then []
    else Matching(cores, file, page, n - 1) + if Matches(cores[n - 1], file, page) then [n - 1] else []
  }

  lemma {:induction false} MatchingExact(cores: seq<Core>, file: FileId, page: Option<PageId>, n: nat)
    requires n <= |cores|
    ensures Distinct(Matching(cores, file, page, n))
    ensures forall f: nat :: f in Matching(cores, file, page, n) <==> f < n && Matches(cores[f], file, page)
  {
    if n == 0 {
    } else {
      MatchingExact(cores, file, page, n - 1);
    }
  }

  function FlushAll(s: State, ids: seq<nat>): Result<State, PoolError>
    decreases |ids|
  {
    if ids == [] then Ok(s)
    else
      var t :- FlushAll(s, ids[..|ids| - 1]);
      var f := ids[|ids| - 1];
      if f < |t.cores| then Flushed(t, f) else Err(PoolCorrupted)
  }

  function FlushEvictAll(s: State, ids: seq<nat>): Result<State, PoolError>
    decreases |ids|
  {
    if ids == [] then Ok(s)
    else
      var t :- FlushEvictAll(s, ids[..|ids| - 1]);
      var f := ids[|ids| - 1];
      if f >= |t.cores| then Err(PoolCorrupted)
      else
        var u :- Flushed(t, f);
        Evicted(u, f)
  }

  function Synced(s: State, file: FileId): State
    requires file in s.files
  {
    s.(files := s.files[file := PageStore.Flush(s.files[file])])
  }

  /** The state is the pre-state whenever the call is refused at once; an error inside the loop is
      unreachable (ForceInv, FlushFileInv). */
  function ForceFile(s: State, file: FileId, page: Option<PageId>): (State, Result<(), PoolError>) {
    if file !in s.files then (s, Err(UnknownFile(file)))
    else match FlushAll(s, Matching(s.cores, file, page, |s.cores|))
      case Err(e) => (s, Err(e))
      case Ok(t) => if file in t.files then (Synced(t, file), Ok(())) else (t, Ok(()))
  }

  predicate PinnedOn(cores: seq<Core>, file: FileId) {
    exists f :: 0 <= f < |cores| && Matches(cores[f], file, None) && cores[f].pins > 0
  }

  function FlushFile(s: State, file: FileId): (State, Result<(), PoolError>) {
    if file !in s.files then (s, Err(UnknownFile(file)))
    else if PinnedOn(s.cores, file) then (s, Err(FileHasPinnedPages(file)))
    else match FlushEvictAll(s, Matching(s.cores, file, None, |s.cores|))
      case Err(e) => (s, Err(e))
      case Ok(t) => if file in t.files then (Synced(t, file), Ok(())) else (t, Ok(()))
  }

  function RemoveFile(s: State, file: FileId): (State, Result<Store, PoolError>) {
    var (t, r) := FlushFile(s, file);
    match r
    case Err(e) => (t, Err(e))
    case Ok(_) => if file in t.files then (t.(files := t.files - {file}), Ok(t.files[file]))
                  else (t, Err(UnknownFile(file)))
  }

  function RegisterFile(s: State, store: Store): (State, Result<FileId, PoolError>) {
    if s.nextFile == 0xFFFF_FFFF then (s, Err(PoolCorrupted))
    else (s.(files := s.files[s.nextFile := store], nextFile := s.nextFile + 1), Ok(s.nextFile))
  }

  /** Writing through a guard goes to the frame, outside the lock. */
  function GuardWrite(s: State, g: Guard, d: Data): State
    requires g.frame < |s.cores|
  {
    s.(cores := s.cores[g.frame := s.cores[g.frame].(data := d)])
  }

  // ---- the calls keep the invariant

  lemma GetPageInv(s: State, k: Key, write: bool)
    requires Inv(s)
    ensures Inv(GetPage(s, k, write).0)
  {
    hide Installed, Pinned, Acquired, PageData, Partition, Recency, IdleOk, HeldOk, FilesOk, PinsOk, Stored;
    if k in s.table {
      PinnedInv(s, s.table[k], k, write);
    } else if Acquired(s).Ok? {
      AcquiredInv(s);
      var (t, f) := Acquired(s).value;
      AcquiredTable(s, k);
      if PageData(t.files, k).Ok? {
        PageDataStored(t.files, k);
        InstalledInv(t, f, k, PageData(t.files, k).value, write);
      }
    }
  }

  lemma PageDataStored(files: map<FileId, Store>, k: Key)
    ensures PageData(files, k).Ok? <==> Stored(files, k)
    ensures PageData(files, k).Ok? ==> StoredAt(files, k) == Some(PageData(files, k).value)
  {
  }

  /** Acquiring never brings a key into the table. */
  lemma AcquiredTable(s: State, k: Key)
    requires Inv(s) && Acquired(s).Ok? && k !in s.table
    ensures k !in Acquired(s).value.0.table
  {
    hide Partition, Recency, IdleOk, HeldOk, FilesOk, PinsOk, Stored, Without, TableOk;
    if s.free == [] {
      var f := Victim(s.cores, s.order).value;
      VictimIsLeastRecent(s, f);
      FlushedFiles(s, f);
    }
  }

  lemma AllocateStoreValid(t: Store)
    requires Valid(t) && Allocate(t).Ok?
    ensures var (u, p) := Allocate(t).value;
            Valid(u) && p in u.data && p !in t.data && u.data == t.data[p := Zeros(PAGE_DATA_SIZE)]
  {
    StepValid(t, AllocateOp);
    AllocateFresh(t);
  }

  lemma AllocatePageInv(s: State, file: FileId)
    requires Inv(s)
    ensures Inv(AllocatePage(s, file).0)
  {
    hide Installed, Acquired, Partition, Recency, IdleOk, PinsOk, Valid, Allocate;
    if Acquired(s).Ok? {
      AcquiredInv(s);
      var (t, f) := Acquired(s).value;
      if file in t.files && Allocate(t.files[file]).Ok? {
        GrownInv(t, file);
        var (store, p) := Allocate(t.files[file]).value;
        InstalledInv(t.(files := t.files[file := store]), f, Key(file, p), Zeros(PAGE_DATA_SIZE), true);
      }
    }
  }

  lemma GrownInv(t: State, file: FileId)
    requires Inv(t) && file in t.files && Allocate(t.files[file]).Ok?
    ensures var (store, p) := Allocate(t.files[file]).value;
            var u := t.(files := t.files[file := store]);
            Inv(u) && Key(file, p) !in t.table && Stored(u.files, Key(file, p))
  {
    hide Partition, Recency, IdleOk, PinsOk, Valid, Allocate;
    AllocateStoreValid(t.files[file]);
    var (store, p) := Allocate(t.files[file]).value;
    assert !Stored(t.files, Key(file, p));
  }

  lemma {:induction false} FlushAllInv(s: State, ids: seq<nat>)
    requires Inv(s) && forall i :: 0 <= i < |ids| ==> ids[i] < |s.cores|
    ensures FlushAll(s, ids).Ok?
    ensures var t := FlushAll(s, ids).value;
            && Inv(t) && t.files.Keys == s.files.Keys
            && t == s.(files := t.files, cores := t.cores)
            && Alike(s.cores, t.cores)
            && (forall i :: 0 <= i < |ids| ==> !t.cores[ids[i]].dirty)
    decreases |ids|
  {
    hide Flushed, Inv;
    if ids == [] {
    } else {
      var rest, f := ids[..|ids| - 1], ids[|ids| - 1];
      FlushAllInv(s, rest);
      var t := FlushAll(s, rest).value;
      FlushedInv(t, f);
      FlushedFiles(t, f);
      assert forall i :: 0 <= i < |rest| ==> rest[i] == ids[i];
    }
  }

  lemma {:induction false} FlushAllView(s: State, ids: seq<nat>)
    requires Inv(s) && forall i :: 0 <= i < |ids| ==> ids[i] < |s.cores|
    ensures FlushAll(s, ids).Ok?
    ensures forall k :: ViewAt(FlushAll(s, ids).value, k) == ViewAt(s, k)
    ensures Coherent(s) ==> Coherent(FlushAll(s, ids).value)
    decreases |ids|
  {
    hide Flushed, Inv, ViewAt, Coherent;
    if ids == [] {
    } else {
      var rest, f := ids[..|ids| - 1], ids[|ids| - 1];
      FlushAllView(s, rest);
      FlushAllInv(s, rest);
      var t := FlushAll(s, rest).value;
      FlushedInv(t, f);
      FlushedCoherent(t, f);
      forall k ensures ViewAt(Flushed(t, f).value, k) == ViewAt(s, k) {
        FlushedView(t, f, k);
      }
    }
  }

  lemma SyncedInv(s: State, file: FileId)
    requires Inv(s) && file in s.files
    ensures Inv(Synced(s, file))
    ensures forall k :: StoredAt(Synced(s, file).files, k) == StoredAt(s.files, k)
    ensures forall k :: ViewAt(Synced(s, file), k) == ViewAt(s, k)
    ensures Coherent(s) ==> Coherent(Synced(s, file))
  {
    hide Partition, Recency, IdleOk, PinsOk, TableOk;
    var t := Synced(s, file);
    if Coherent(s) {
      forall f | 0 <= f < |t.cores| ensures CoreCoherent(t.cores[f], t.files) {
        assert CoreCoherent(s.cores[f], s.files);
      }
    }
  }

  /** Flushing and evicting unpinned frames frees exactly those frames, and no reader notices. */
  lemma {:induction false} FlushEvictAllInv(s: State, ids: seq<nat>)
    requires Inv(s) && Distinct(ids)
    requires forall i :: 0 <= i < |ids| ==> ids[i] < |s.cores| && s.cores[ids[i]].key.Some? && s.cores[ids[i]].pins == 0
    ensures FlushEvictAll(s, ids).Ok?
    ensures var t := FlushEvictAll(s, ids).value;
            && Inv(t) && |t.cores| == |s.cores| && t.files.Keys == s.files.Keys
            && t.guards == s.guards && t.nextFile == s.nextFile
            && (forall f :: 0 <= f < |s.cores| ==>
                  t.cores[f].pins == s.cores[f].pins && t.cores[f].key == if f in ids then None else s.cores[f].key)
            && t.free == s.free + ids
    decreases |ids|
  {
    hide Flushed, Evicted, Inv;
    if ids == [] {
    } else {
      var rest, f := ids[..|ids| - 1], ids[|ids| - 1];
      LastApart(ids);
      assert forall i :: 0 <= i < |rest| ==> rest[i] == ids[i];
      FlushEvictAllInv(s, rest);
      var t := FlushEvictAll(s, rest).value;
      FlushEvictInv(t, f);
      assert t.free + [f] == s.free + ids;
    }
  }

  lemma LastApart(ids: seq<nat>)
    requires Distinct(ids) && ids != []
    ensures var rest, f := ids[..|ids| - 1], ids[|ids| - 1];
            && Distinct(rest) && f !in rest && ids == rest + [f] && forall x :: x in ids <==> x in rest || x == f
  {
    var rest, f := ids[..|ids| - 1], ids[|ids| - 1];
    assert ids == rest + [f];
  }

  lemma FlushEvictInv(t: State, f: nat)
    requires Inv(t) && f < |t.cores| && t.cores[f].key.Some? && t.cores[f].pins == 0
    ensures Flushed(t, f).Ok? && Evicted(Flushed(t, f).value, f).Ok?
    ensures var v := Evicted(Flushed(t, f).value, f).value;
            && Inv(v) && |v.cores| == |t.cores| && v.files.Keys == t.files.Keys
            && v.guards == t.guards && v.nextFile == t.nextFile && v.free == t.free + [f]
            && (forall g :: 0 <= g < |t.cores| ==>
                  v.cores[g].pins == t.cores[g].pins && v.cores[g].key == if g == f then None else t.cores[g].key)
  {
    hide Partition, Recency, HeldOk, FilesOk, PinsOk, TableOk, Without, Flushed;
    FlushedInv(t, f);
    FlushedFiles(t, f);
    KeyedLinked(t, f);
    EvictedInv(Flushed(t, f).value, f);
  }

  lemma KeyedLinked(t: State, f: nat)
    requires Inv(t) && f < |t.cores| && t.cores[f].key.Some?
    ensures f in t.order && f !in t.free
  {
    hide Recency, HeldOk, FilesOk, PinsOk, TableOk;
  }

  lemma FlushEvictView(t: State, f: nat, k: Key)
    requires Inv(t) && f < |t.cores| && t.cores[f].key.Some? && t.cores[f].pins == 0
    requires CoreCoherent(t.cores[f], t.files)
    ensures Flushed(t, f).Ok? && Evicted(Flushed(t, f).value, f).Ok?
    ensures ViewAt(Evicted(Flushed(t, f).value, f).value, k) == ViewAt(t, k)
  {
    hide Partition, Recency, HeldOk, FilesOk, PinsOk, TableOk, IdleOk, Without, Flushed, StoredAt;
    FlushedInv(t, f);
    FlushedFiles(t, f);
    FlushedView(t, f, k);
    FlushedStored(t, f, k);
    RecycledView(Flushed(t, f).value, f, k);
    if t.cores[f].key == Some(k) {
      KeyView(t, f, k);
    }
  }

  lemma FlushEvictCoherent(t: State, f: nat)
    requires Inv(t) && f < |t.cores| && t.cores[f].key.Some? && t.cores[f].pins == 0 && Coherent(t)
    ensures Flushed(t, f).Ok? && Evicted(Flushed(t, f).value, f).Ok?
    ensures Coherent(Evicted(Flushed(t, f).value, f).value)
  {
    hide Inv, Flushed, Recycled, CoreCoherent;
    FlushedInv(t, f);
    FlushedFiles(t, f);
    FlushedCoherent(t, f);
    FlushEvictInv(t, f);
    RecycledCoherent(Flushed(t, f).value, f);
  }

  lemma {:induction false} FlushEvictAllView(s: State, ids: seq<nat>)
    requires Inv(s) && Distinct(ids) && Coherent(s)
    requires forall i :: 0 <= i < |ids| ==> ids[i] < |s.cores| && s.cores[ids[i]].key.Some? && s.cores[ids[i]].pins == 0
    ensures FlushEvictAll(s, ids).Ok? && Coherent(FlushEvictAll(s, ids).value)
    ensures forall k :: ViewAt(FlushEvictAll(s, ids).value, k) == ViewAt(s, k)
    decreases |ids|
  {
    hide Flushed, Evicted, Inv, ViewAt, CoreCoherent;
    if ids == [] {
    } else {
      var rest, f := ids[..|ids| - 1], ids[|ids| - 1];
      assert forall i :: 0 <= i < |rest| ==> rest[i] == ids[i];
      FlushEvictAllInv(s, rest);
      FlushEvictAllView(s, rest);
      var t := FlushEvictAll(s, rest).value;
      FlushEvictCoherent(t, f);
      FlushedFiles(t, f);
      forall k ensures ViewAt(Evicted(Flushed(t, f).value, f).value, k) == ViewAt(s, k) {
        FlushEvictView(t, f, k);
      }
    }
  }

  // ---- force, flush, remove, register

  /** force_file fails only on an unknown file, changes no key or pin and no reader's view; a later
      force of a whole file leaves the store equal to the view. */
  lemma ForceInv(s: State, file: FileId, page: Option<PageId>)
    requires Inv(s)
    ensures Inv(ForceFile(s, file, page).0)
    ensures ForceFile(s, file, page).1 == if file in s.files then Ok(()) else Err(UnknownFile(file))
    ensures forall k :: ViewAt(ForceFile(s, file, page).0, k) == ViewAt(s, k)
    ensures Coherent(s) ==> Coherent(ForceFile(s, file, page).0)
  {
    hide Inv, ViewAt, Coherent;
    var ids := Matching(s.cores, file, page, |s.cores|);
    if file in s.files {
      FlushAllInv(s, ids);
      FlushAllView(s, ids);
      SyncedInv(FlushAll(s, ids).value, file);
    }
  }

  lemma ForceClean(s: State, file: FileId, page: Option<PageId>, f: nat)
    requires Inv(s) && file in s.files && f < |s.cores| && Matches(s.cores[f], file, page)
    ensures var t := ForceFile(s, file, page).0;
            |t.cores| == |s.cores| && t.cores[f].key == s.cores[f].key && !t.cores[f].dirty
  {
    hide Inv;
    var ids := Matching(s.cores, file, page, |s.cores|);
    FlushAllInv(s, ids);
    MatchingExact(s.cores, file, page, |s.cores|);
    assert f in ids;
  }

  /** After forcing a file, or one page of it, the file is synced and the page forced, or every page, is
      stored as readers see it. */
  lemma ForceMakesDurable(s: State, file: FileId, page: Option<PageId>, p: PageId)
    requires Inv(s) && Coherent(s) && file in s.files && (page.None? || page == Some(p))
    ensures var t := ForceFile(s, file, page).0;
            && file in t.files && t.files[file].synced
            && StoredAt(t.files, Key(file, p)) == ViewAt(s, Key(file, p))
  {
    hide Partition, Recency, PinsOk, IdleOk, FilesOk;
    var k, t := Key(file, p), ForceFile(s, file, page).0;
    FlushAllInv(s, Matching(s.cores, file, page, |s.cores|));
    ForceInv(s, file, page);
    if k in t.table {
      var f := t.table[k];
      assert s.table == t.table;
      ForceClean(s, file, page, f);
      assert CoreCoherent(t.cores[f], t.files);
    }
  }

  lemma FlushFileInv(s: State, file: FileId)
    requires Inv(s)
    ensures Inv(FlushFile(s, file).0)
    ensures FlushFile(s, file).1 ==
            if file !in s.files then Err(UnknownFile(file))
            else if PinnedOn(s.cores, file) then Err(FileHasPinnedPages(file)) else Ok(())
    ensures var t := FlushFile(s, file).0;
            && t.files.Keys == s.files.Keys && t.guards == s.guards && t.nextFile == s.nextFile
            && (FlushFile(s, file).1.Ok? ==> forall f :: 0 <= f < |t.cores| ==> !Matches(t.cores[f], file, None))
    ensures Coherent(s) ==> Coherent(FlushFile(s, file).0)
    ensures Coherent(s) ==> forall k :: ViewAt(FlushFile(s, file).0, k) == ViewAt(s, k)
  {
    hide Inv, ViewAt, Coherent;
    if file in s.files && !PinnedOn(s.cores, file) {
      var ids := Matching(s.cores, file, None, |s.cores|);
      MatchingExact(s.cores, file, None, |s.cores|);
      assert forall i :: 0 <= i < |ids| ==> ids[i] in ids;
      FlushEvictAllInv(s, ids);
      if Coherent(s) {
        FlushEvictAllView(s, ids);
      }
      SyncedInv(FlushEvictAll(s, ids).value, file);
    }
  }

  /** flush_file and remove_file are refused exactly when a guard on the file is live. */
  lemma PinnedIffGuarded(s: State, file: FileId)
    requires Inv(s)
    ensures PinnedOn(s.cores, file) <==> exists g :: g in s.guards && g.key.file == file
  {
    hide Partition, Recency, IdleOk, FilesOk, TableOk, HeldOk;
    if PinnedOn(s.cores, file) {
      var f :| 0 <= f < |s.cores| && Matches(s.cores[f], file, None) && s.cores[f].pins > 0;
      var k := s.cores[f].key.value;
      assert Guard(f, k, true) in s.guards || Guard(f, k, false) in s.guards;
    }
    if g :| g in s.guards && g.key.file == file {
      UnpinnedPins(s.cores, s.guards, g);
      assert Matches(s.cores[g.frame], file, None);
    }
  }

  lemma RemoveFileInv(s: State, file: FileId)
    requires Inv(s)
    ensures Inv(RemoveFile(s, file).0)
    ensures RemoveFile(s, file).1.Ok? <==> FlushFile(s, file).1.Ok?
    ensures RemoveFile(s, file).1.Ok? ==> RemoveFile(s, file).0.files.Keys == s.files.Keys - {file}
    ensures Coherent(s) ==> Coherent(RemoveFile(s, file).0)
    ensures Coherent(s) ==>
              forall k :: ViewAt(RemoveFile(s, file).0, k) ==
                if RemoveFile(s, file).1.Ok? && k.file == file then None else ViewAt(s, k)
  {
    FlushFileInv(s, file);
    var t := FlushFile(s, file).0;
    if FlushFile(s, file).1.Ok? {
      DropFileInv(t, file);
    }
  }

  /** The page file that remove_file hands out is synced and holds every page as readers saw it. */
  lemma RemovedHolds(s: State, file: FileId, p: PageId)
    requires Inv(s) && Coherent(s) && RemoveFile(s, file).1.Ok?
    ensures var store := RemoveFile(s, file).1.value;
            && store.synced
            && ViewAt(s, Key(file, p)) == if p in store.data then Some(store.data[p]) else None
  {
    hide Inv, Coherent;
    FlushFileInv(s, file);
    var t := FlushFile(s, file).0;
    UncachedFile(t, file, p);
  }

  lemma UncachedFile(t: State, file: FileId, p: PageId)
    requires Inv(t) && file in t.files && forall f :: 0 <= f < |t.cores| ==> !Matches(t.cores[f], file, None)
    ensures ViewAt(t, Key(file, p)) == if p in t.files[file].data then Some(t.files[file].data[p]) else None
  {
    hide Partition, Recency, IdleOk, PinsOk, FilesOk, HeldOk;
  }

  lemma DropFileInv(t: State, file: FileId)
    requires Inv(t) && file in t.files
    requires forall f :: 0 <= f < |t.cores| ==> !Matches(t.cores[f], file, None)
    ensures var u := t.(files := t.files - {file});
            && Inv(u) && (Coherent(t) ==> Coherent(u))
            && forall k :: ViewAt(u, k) == if k.file == file then None else ViewAt(t, k)
  {
    hide Partition, Recency, IdleOk, PinsOk, Coherent, ViewAt, TableOk;
    DropFileView(t, file);
  }

  lemma DropFileView(t: State, file: FileId)
    requires Inv(t)
    requires forall f :: 0 <= f < |t.cores| ==> !Matches(t.cores[f], file, None)
    ensures var u := t.(files := t.files - {file});
            && (Coherent(t) ==> Coherent(u))
            && forall k :: ViewAt(u, k) == if k.file == file then None else ViewAt(t, k)
  {
    hide Partition, Recency, IdleOk, PinsOk, FilesOk, HeldOk;
    var u := t.(files := t.files - {file});
    if Coherent(t) {
      forall f | 0 <= f < |u.cores| ensures CoreCoherent(u.cores[f], u.files) {
        assert CoreCoherent(t.cores[f], t.files);
      }
    }
  }

  lemma RegisterInv(s: State, store: Store)
    requires Inv(s) && Valid(store)
    ensures Inv(RegisterFile(s, store).0)
    ensures RegisterFile(s, store).1 == if s.nextFile == 0xFFFF_FFFF then Err(PoolCorrupted) else Ok(s.nextFile)
    ensures Coherent(s) ==> Coherent(RegisterFile(s, store).0)
    ensures forall k :: ViewAt(RegisterFile(s, store).0, k) ==
              if RegisterFile(s, store).1 == Ok(k.file) then
                (if k.page in store.data then Some(store.data[k.page]) else None)
              else ViewAt(s, k)
  {
    hide Partition, Recency, IdleOk, PinsOk, Coherent, ViewAt, TableOk;
    RegisterView(s, store);
  }

  lemma RegisterView(s: State, store: Store)
    requires Inv(s)
    ensures Coherent(s) ==> Coherent(RegisterFile(s, store).0)
    ensures forall k :: ViewAt(RegisterFile(s, store).0, k) ==
              if RegisterFile(s, store).1 == Ok(k.file) then
                (if k.page in store.data then Some(store.data[k.page]) else None)
              else ViewAt(s, k)
  {
    hide Partition, Recency, IdleOk, PinsOk;
    var t := RegisterFile(s, store).0;
    assert s.nextFile !in s.files;
    if Coherent(s) {
      forall f | 0 <= f < |t.cores| ensures CoreCoherent(t.cores[f], t.files) {
        assert CoreCoherent(s.cores[f], s.files);
      }
    }
  }
}
