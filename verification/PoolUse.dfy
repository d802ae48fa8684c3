/** The buffer pool as a single caller uses it: one guard at a time, dropped before the next call. */
module PoolUse {
  import opened Outcomes
  import opened Bytes
  import opened PageStore
  import opened PoolStates
  import opened PoolInvariants
  import opened PoolSteps
  import opened PoolRuns

  /** No guard is live; the pool has at least one frame. */
  ghost predicate Quiet(s: State) {
    Inv(s) && Coherent(s) && s.guards == multiset{} && |s.cores| > 0
  }

  /** Exactly guard g is live, and if it may write, its frame is marked dirty. */
  ghost predicate Held(s: State, g: Guard) {
    Inv(s) && Coherent(s) && s.guards == multiset{g} && |s.cores| > 0 &&
    g.frame < |s.cores| && (g.write ==> s.cores[g.frame].dirty)
  }

  ghost predicate SameView(s: State, t: State) {
    forall k :: ViewAt(t, k) == ViewAt(s, k)
  }

  lemma {:induction false} FlushAllDims(s: State, ids: seq<nat>)
    requires Inv(s) && forall i :: 0 <= i < |ids| ==> ids[i] < |s.cores|
    ensures FlushAll(s, ids).Ok? && SameDims(s, FlushAll(s, ids).value)
    decreases |ids|
  {
    hide Flushed, Inv;
    if ids == [] {
    } else {
      var rest := ids[..|ids| - 1];
      assert forall i :: 0 <= i < |rest| ==> rest[i] == ids[i];
      FlushAllDims(s, rest);
      FlushAllInv(s, rest);
      FlushedDims(FlushAll(s, rest).value, ids[|ids| - 1]);
    }
  }

  /** A page is visible exactly when its file stores it. */
  lemma VisibleIsStored(s: State, k: Key)
    requires Inv(s)
    ensures ViewAt(s, k).Some? <==> Stored(s.files, k)
  {
  }

  lemma QuietAcquires(s: State)
    requires Quiet(s)
    ensures Acquired(s).Ok?
  {
    hide Partition, Recency, HeldOk, FilesOk, TableOk;
    AcquiredFails(s);
    assert s.cores[0].pins == 0;
  }

  /** Fetching a stored page from a quiet pool always succeeds and is invisible. */
  lemma FetchOk(s: State, k: Key, write: bool)
    requires Quiet(s) && Stored(s.files, k)
    ensures var (t, r) := GetPage(s, k, write);
            && r.Ok? && r.value.key == k && r.value.write == write
            && Held(t, r.value) && SameView(s, t) && SameDims(s, t)
  {
    QuietAcquires(s);
    GetPageResult(s, k, write);
    GetPageInv(s, k, write);
    GetPageView(s, k, write);
    FetchFrame(s, k, write);
  }

  lemma FetchFrame(s: State, k: Key, write: bool)
    requires Inv(s) && GetPage(s, k, write).1.Ok?
    ensures var (t, r) := GetPage(s, k, write);
            && SameDims(s, t)
            && r.value.frame < |t.cores| && (write ==> t.cores[r.value.frame].dirty)
  {
    hide Partition, Recency, IdleOk, HeldOk, FilesOk, PinsOk, Acquired, PageData;
    if k !in s.table {
      AcquiredDims(s);
      AcquiredInv(s);
    }
  }

  /** Writing through the live guard changes the view of its own key alone. */
  lemma StoreOk(s: State, g: Guard, d: Data)
    requires Held(s, g) && g.write
    ensures var t := GuardWrite(s, g, d);
            && Held(t, g) && SameDims(s, t)
            && forall k :: ViewAt(t, k) == if g.key == k then Some(d) else ViewAt(s, k)
  {
    hide Inv, ViewAt, Coherent;
    FillInv(s, g, d);
    FillCoherent(s, g, d);
    forall k ensures ViewAt(GuardWrite(s, g, d), k) == if g.key == k then Some(d) else ViewAt(s, k) {
      FillView(s, g, d, k);
    }
  }

  lemma ReleaseOk(s: State, g: Guard)
    requires Held(s, g)
    ensures g in s.guards && g.frame < |s.cores| == |s.stamp|
    ensures var t := Unpinned(s, g); Quiet(t) && SameView(s, t) && SameDims(s, t)
  {
    UnpinnedInv(s, g);
    UnpinnedView(s, g);
    hide Partition, Recency, IdleOk, HeldOk, FilesOk, PinsOk, TableOk, Coherent, ViewAt;
  }

  /** Growing a file by one page. */
  lemma GrowOk(s: State, file: FileId)
    requires Quiet(s) && file in s.files && Allocate(s.files[file]).Ok?
    ensures var (t, r) := AllocatePage(s, file);
            && r.Ok? && r.value.key == Key(file, Allocate(s.files[file]).value.1) && r.value.write
            && Held(t, r.value)
            && t.files.Keys == s.files.Keys && |t.cores| == |s.cores|
            && t.files[file].num == Allocate(s.files[file]).value.0.num
            && t.files[file].chain == Allocate(s.files[file]).value.0.chain
            && forall k :: ViewAt(t, k) == if k == r.value.key then Some(Zeros(PAGE_DATA_SIZE)) else ViewAt(s, k)
  {
    hide Partition, Recency, IdleOk, HeldOk, FilesOk, PinsOk, TableOk, Acquired, ViewAt, Coherent;
    QuietAcquires(s);
    AcquiredInv(s);
    AcquiredDims(s);
    AllocatePageInv(s, file);
    AllocatePageView(s, file);
    var (a, f) := Acquired(s).value;
    GrownInv(a, file);
  }

  /** A refused allocation leaves a quiet pool quiet and changes nothing a reader can see. */
  lemma GrowRefused(s: State, file: FileId)
    requires Quiet(s) && file in s.files && Allocate(s.files[file]).Err?
    ensures var (t, r) := AllocatePage(s, file);
            r.Err? && Quiet(t) && SameView(s, t) && SameDims(s, t)
  {
    hide Partition, Recency, IdleOk, HeldOk, FilesOk, PinsOk, TableOk, Acquired, ViewAt, Coherent;
    QuietAcquires(s);
    AcquiredInv(s);
    AcquiredDims(s);
    AllocatePageInv(s, file);
    AllocatePageView(s, file);
    AllocatePageResult(s, file);
    AllocateOkIff(s.files[file]);
  }

  /** Forcing a whole file of a quiet pool: invisible, and the store then holds what readers see. */
  lemma ForceOk(s: State, file: FileId)
    requires Quiet(s) && file in s.files
    ensures var (t, r) := ForceFile(s, file, None);
            && r == Ok(()) && Quiet(t) && SameView(s, t) && SameDims(s, t)
            && t.files[file].synced
            && (forall p: PageId :: StoredAt(t.files, Key(file, p)) == ViewAt(s, Key(file, p)))
  {
    hide Inv, ViewAt, Coherent, StoredAt;
    var ids := Matching(s.cores, file, None, |s.cores|);
    ForceInv(s, file, None);
    FlushAllInv(s, ids);
    FlushAllDims(s, ids);
    forall p: PageId ensures StoredAt(ForceFile(s, file, None).0.files, Key(file, p)) == ViewAt(s, Key(file, p)) {
      ForceMakesDurable(s, file, None, p);
    }
    ForceMakesDurable(s, file, None, 0);
  }
}
