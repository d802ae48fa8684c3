/** When writes through guards are safe, in terms of the calls alone, and a run in which one is not. */
module PoolDiscipline {
  import opened Outcomes
  import opened Bytes
  import opened PageStore
  import opened PoolStates
  import opened PoolInvariants
  import opened PoolSteps
  import opened PoolRuns

  // ---- what the calls do to a pinned frame

  /** The call forces the page of the key. */
  predicate Forces(c: Call, k: Key) {
    c.Force? && c.file == k.file && (c.page.None? || c.page == Some(k.page))
  }

  /** The call hands out a new write guard on the key. */
  ghost predicate HandsOutWrite(s: State, c: Call, k: Key)
    requires Inv(s)
  {
    match c
    case Get(q, write) => write && q == k && GetPage(s, q, true).1.Ok?
    case Grow(file) => AllocatePage(s, file).1.Ok? && AllocatePage(s, file).1.value.key == k
    case _ => false
  }

  ghost predicate PinnedKept(s: State, t: State) {
    |t.cores| == |s.cores| && forall h :: 0 <= h < |s.cores| && s.cores[h].pins > 0 ==> t.cores[h] == s.cores[h]
  }

  /** Acquiring takes an unpinned frame and touches no pinned one. */
  lemma AcquiredKeepsPinned(s: State)
    requires Inv(s) && Acquired(s).Ok?
    ensures PinnedKept(s, Acquired(s).value.0)
    ensures Acquired(s).value.1 < |s.cores| && s.cores[Acquired(s).value.1].pins == 0
  {
    hide Recency, FilesOk, PinsOk, TableOk, HeldOk, Without;
    AcquiredInv(s);
    if s.free != [] {
      assert s.free[|s.free| - 1] in s.free;
    } else {
      var f := Victim(s.cores, s.order).value;
      VictimIsLeastRecent(s, f);
      FlushedFiles(s, f);
    }
  }

  lemma {:induction false} FlushAllCores(s: State, ids: seq<nat>)
    requires Inv(s) && forall i :: 0 <= i < |ids| ==> ids[i] < |s.cores|
    ensures FlushAll(s, ids).Ok? && |FlushAll(s, ids).value.cores| == |s.cores|
    ensures forall h: nat :: h < |s.cores| ==>
              FlushAll(s, ids).value.cores[h] == if h in ids then s.cores[h].(dirty := false) else s.cores[h]
    decreases |ids|
  {
    hide Flushed, Inv;
    if ids == [] {
    } else {
      var rest, f := ids[..|ids| - 1], ids[|ids| - 1];
      assert forall i :: 0 <= i < |rest| ==> rest[i] == ids[i];
      assert ids == rest + [f];
      FlushAllCores(s, rest);
      FlushAllInv(s, rest);
      FlushedFiles(FlushAll(s, rest).value, f);
    }
  }

  /** Flushing and evicting touches no other frame, and no stored page but those of dirty frames. */
  lemma {:induction false} FlushEvictOthers(s: State, ids: seq<nat>)
    requires Inv(s) && Distinct(ids)
    requires forall i :: 0 <= i < |ids| ==> ids[i] < |s.cores| && s.cores[ids[i]].key.Some? && s.cores[ids[i]].pins == 0
    ensures FlushEvictAll(s, ids).Ok?
    ensures var t := FlushEvictAll(s, ids).value;
            && |t.cores| == |s.cores|
            && (forall h :: 0 <= h < |s.cores| && h !in ids ==> t.cores[h] == s.cores[h])
            && (forall k :: (forall h :: h in ids && s.cores[h].key == Some(k) ==> !s.cores[h].dirty) ==>
                  StoredAt(t.files, k) == StoredAt(s.files, k))
    decreases |ids|
  {
    hide Flushed, Evicted, Inv, StoredAt;
    if ids == [] {
    } else {
      var rest, f := ids[..|ids| - 1], ids[|ids| - 1];
      LastApart(ids);
      assert forall i :: 0 <= i < |rest| ==> rest[i] == ids[i];
      FlushEvictOthers(s, rest);
      FlushEvictAllInv(s, rest);
      FlushEvictOne(FlushEvictAll(s, rest).value, f);
    }
  }

  lemma FlushEvictOne(t: State, f: nat)
    requires Inv(t) && f < |t.cores| && t.cores[f].key.Some? && t.cores[f].pins == 0
    ensures Flushed(t, f).Ok? && Evicted(Flushed(t, f).value, f).Ok?
    ensures var u := Evicted(Flushed(t, f).value, f).value;
            && |u.cores| == |t.cores| && (forall h :: 0 <= h < |t.cores| && h != f ==> u.cores[h] == t.cores[h])
            && (forall k :: t.cores[f].key != Some(k) || !t.cores[f].dirty ==>
               StoredAt(u.files, k) == StoredAt(t.files, k))
  {
    hide Partition, Recency, PinsOk, TableOk, StoredAt, Flushed;
    FlushedFiles(t, f);
    forall k ensures StoredAt(Flushed(t, f).value.files, k) ==
        if t.cores[f].dirty && t.cores[f].key == Some(k) then Some(t.cores[f].data) else StoredAt(t.files, k) {
      FlushedStored(t, f, k);
    }
  }

  lemma FlushFileKeepsPinned(s: State, file: FileId)
    requires Inv(s)
    ensures PinnedKept(s, FlushFile(s, file).0)
  {
    hide Inv;
    if file in s.files && !PinnedOn(s.cores, file) {
      var ids := Matching(s.cores, file, None, |s.cores|);
      MatchingExact(s.cores, file, None, |s.cores|);
      assert forall i :: 0 <= i < |ids| ==> ids[i] in ids;
      FlushEvictOthers(s, ids);
    }
  }

  lemma ForceCores(s: State, file: FileId, page: Option<PageId>, h: nat)
    requires Inv(s) && file in s.files && h < |s.cores|
    ensures |ForceFile(s, file, page).0.cores| == |s.cores|
    ensures ForceFile(s, file, page).0.cores[h] ==
            if Matches(s.cores[h], file, page) then s.cores[h].(dirty := false) else s.cores[h]
  {
    hide Inv;
    var ids := Matching(s.cores, file, page, |s.cores|);
    MatchingExact(s.cores, file, page, |s.cores|);
    FlushAllCores(s, ids);
  }

  lemma GetPageDirty(s: State, k: Key, write: bool, g: Guard)
    requires Inv(s) && g in s.guards
    ensures var (t, r) := GetPage(s, k, write);
            && |t.cores| == |s.cores| && g.frame < |s.cores|
            && t.cores[g.frame].dirty == (s.cores[g.frame].dirty || (r.Ok? && write && k == g.key))
  {
    hide Partition, Recency, FilesOk, HeldOk, IdleOk, PinsOk, Acquired;
    GuardedFrame(s, g);
    if k !in s.table && Acquired(s).Ok? {
      AcquiredKeepsPinned(s);
      AcquiredInv(s);
      AcquiredTable(s, k);
    }
  }

  lemma AllocatePageDirty(s: State, file: FileId, g: Guard)
    requires Inv(s) && g in s.guards
    ensures var (t, r) := AllocatePage(s, file);
            && |t.cores| == |s.cores| && g.frame < |s.cores| && t.cores[g.frame].dirty == s.cores[g.frame].dirty
            && (r.Ok? ==> r.value.key != g.key)
  {
    hide Partition, Recency, FilesOk, HeldOk, IdleOk, PinsOk, Acquired, Allocate;
    GuardedFrame(s, g);
    if Acquired(s).Ok? {
      AcquiredKeepsPinned(s);
      AcquiredInv(s);
      AcquiredKeepsKey(s, g);
      var t := Acquired(s).value.0;
      if file in t.files && Allocate(t.files[file]).Ok? {
        GrownInv(t, file);
      }
    }
  }

  lemma AcquiredKeepsKey(s: State, g: Guard)
    requires Inv(s) && g in s.guards && Acquired(s).Ok?
    ensures g.key in Acquired(s).value.0.table
  {
    hide Acquired;
    AcquiredInv(s);
    GuardedFrame(Acquired(s).value.0, g);
  }

  /** While a guard is live, its frame is cleaned only by a force of its page and marked dirty only by a
      new write guard on its key. */
  lemma DirtyStep(s: State, c: Call, g: Guard)
    requires Inv(s) && Possible(s, c) && g in s.guards
    ensures var t := Next(s, c);
            && |t.cores| == |s.cores| && g.frame < |s.cores|
            && t.cores[g.frame].dirty == (HandsOutWrite(s, c, g.key) || (s.cores[g.frame].dirty && !Forces(c, g.key)))
  {
    hide Inv, GetPage, AllocatePage, ForceFile, FlushFile;
    GuardedFrame(s, g);
    match c
    case Register(store) =>
    case Get(k, write) => GetPageDirty(s, k, write, g);
    case Grow(file) => AllocatePageDirty(s, file, g);
    case Fill(h, d) => GuardedFrame(s, h);
    case Drop(h) => GuardedFrame(s, h);
    case Force(file, page) =>
      if file in s.files {
        ForceCores(s, file, page, g.frame);
      } else {
        GuardedFile(s, g, file, page);
      }
    case Evict(file) => FlushFileKeepsPinned(s, file);
    case Remove(file) => FlushFileKeepsPinned(s, file);
  }

  lemma GuardedFile(s: State, g: Guard, file: FileId, page: Option<PageId>)
    requires Inv(s) && g in s.guards
    ensures g.key.file in s.files
    ensures file !in s.files ==> ForceFile(s, file, page).0 == s
  {
    GuardedFrame(s, g);
  }

  // ---- the discipline as callers see it

  /** The keys forced since a write guard on them was last handed out. */
  ghost function ForcedAfter(s: State, c: Call, forced: iset<Key>): iset<Key>
    requires Inv(s)
  {
    iset k: Key | (k in forced || Forces(c, k)) && !HandsOutWrite(s, c, k)
  }

  /** No guard writes to a page that was forced since a write guard on it was last handed out. */
  ghost predicate NoStaleWrite(s: State, calls: seq<Call>, forced: iset<Key>)
    requires Inv(s) && Feasible(s, calls)
    decreases |calls|
  {
    calls == [] ||
    ((calls[0].Fill? ==> calls[0].guard.key !in forced) &&
     (NextInv(s, calls[0]); NoStaleWrite(Next(s, calls[0]), calls[1..], ForcedAfter(s, calls[0], forced))))
  }

  /** `forced` tells for each live write guard whether its frame is clean. */
  ghost predicate Tracks(s: State, forced: iset<Key>)
    requires Inv(s)
  {
    forall g :: g in s.guards && g.write ==> g.frame < |s.cores| && (s.cores[g.frame].dirty <==> g.key !in forced)
  }

  /** Guards come only from get_page, get_page_mut and allocate_page. */
  lemma NewGuards(s: State, c: Call, g: Guard)
    requires Inv(s) && Possible(s, c) && g in Next(s, c).guards && g !in s.guards && g.write
    ensures HandsOutWrite(s, c, g.key)
    ensures g.frame < |Next(s, c).cores| && Next(s, c).cores[g.frame].dirty
  {
    hide Inv, GetPage, AllocatePage, ForceFile, FlushFile;
    match c
    case Register(store) =>
    case Get(k, write) =>
      GetPageResult(s, k, write);
      NewGuardDirty(s, k, write);
    case Grow(file) =>
      AllocatePageResult(s, file);
      GrownGuardDirty(s, file);
    case Fill(h, d) =>
    case Drop(h) =>
    case Force(file, page) => FlushAllGuards(s, file, page);
    case Evict(file) => FlushFileInv(s, file);
    case Remove(file) => FlushFileInv(s, file);
  }

  lemma NewGuardDirty(s: State, k: Key, write: bool)
    requires Inv(s)
    ensures var (t, r) := GetPage(s, k, write);
            r.Ok? ==> r.value.frame < |t.cores| && (write ==> t.cores[r.value.frame].dirty)
  {
    hide Partition, Recency, FilesOk, HeldOk, IdleOk, PinsOk, Acquired;
    if k !in s.table && Acquired(s).Ok? {
      AcquiredInv(s);
    }
  }

  lemma GrownGuardDirty(s: State, file: FileId)
    requires Inv(s)
    ensures var (t, r) := AllocatePage(s, file);
            r.Ok? ==> r.value.frame < |t.cores| && t.cores[r.value.frame].dirty
  {
    hide Partition, Recency, FilesOk, HeldOk, IdleOk, PinsOk, Acquired, Allocate;
    if Acquired(s).Ok? {
      AcquiredInv(s);
    }
  }

  lemma FlushAllGuards(s: State, file: FileId, page: Option<PageId>)
    requires Inv(s)
    ensures ForceFile(s, file, page).0.guards == s.guards
  {
    hide Inv;
    FlushAllInv(s, Matching(s.cores, file, page, |s.cores|));
  }

  lemma TracksNext(s: State, c: Call, forced: iset<Key>)
    requires Inv(s) && Possible(s, c) && Tracks(s, forced)
    ensures Inv(Next(s, c)) && Tracks(Next(s, c), ForcedAfter(s, c, forced))
  {
    hide Inv, Next, Possible;
    NextInv(s, c);
    var t, after := Next(s, c), ForcedAfter(s, c, forced);
    forall g | g in t.guards && g.write
      ensures g.frame < |t.cores| && (t.cores[g.frame].dirty <==> g.key !in after)
    {
      if g in s.guards {
        DirtyStep(s, c, g);
      } else {
        NewGuards(s, c, g);
      }
    }
  }

  /** The private condition of transparency, that every write finds its frame dirty, holds exactly for
      the runs without a stale write. */
  lemma {:induction false} DisciplinedExact(s: State, calls: seq<Call>, forced: iset<Key>)
    requires Inv(s) && Feasible(s, calls) && Tracks(s, forced)
    ensures AllDisciplined(s, calls) <==> NoStaleWrite(s, calls, forced)
    decreases |calls|
  {
    hide Inv, Next, ForcedAfter;
    if calls == [] {
    } else {
      TracksNext(s, calls[0], forced);
      DisciplinedExact(Next(s, calls[0]), calls[1..], ForcedAfter(s, calls[0], forced));
    }
  }

  /** Transparency of a new pool: over every run in which no guard writes to a page forced since a write
      guard on it was last handed out, a reader of key k sees what the calls' effects say. */
  lemma TransparentRun(capacity: nat, calls: seq<Call>, k: Key)
    requires Feasible(NewPool(capacity), calls)
    requires NoStaleWrite(NewPool(capacity), calls, iset{})
    ensures Coherent(PoolRuns.Run(NewPool(capacity), calls))
    ensures ViewAt(PoolRuns.Run(NewPool(capacity), calls), k) == Track(NewPool(capacity), calls, k, None)
  {
    hide Inv, Feasible, NoStaleWrite, AllDisciplined, PoolRuns.Run, Track, NewPool, Coherent;
    NothingYet(capacity, k);
    DisciplinedExact(NewPool(capacity), calls, iset{});
    RunView(NewPool(capacity), calls, k);
  }

  lemma NothingYet(capacity: nat, k: Key)
    ensures NewPool(capacity).guards == multiset{} && ViewAt(NewPool(capacity), k) == None
  {
    hide Inv, Coherent;
  }

  // ---- a run that loses a write

  const FIRST_PAGE := Key(0, 0)

  const FIRST_GUARD := Guard(0, FIRST_PAGE, true)

  /** One frame: the guard writes after its page was forced and is dropped, then the frame is reused. */
  function LosingRun(d: Data): seq<Call> {
    [Register(EMPTY_STORE), Grow(0), Force(0, None), Fill(FIRST_GUARD, d), Drop(FIRST_GUARD), Grow(0)]
  }

  function PoolWith(file: Store, core: Core, stamp: nat, guards: multiset<Guard>): State {
    State(map[0 := file], 1, if core.key.Some? then map[core.key.value := 0] else map[],
      [core], [], [0], [stamp], stamp + 1, guards)
  }

  /** The file once page 0 is allocated, before and after the force. */
  function OnePage(synced: bool): Store {
    Store(1, [], map[0 := Zeros(PAGE_DATA_SIZE)], synced)
  }

  function Registered(): State {
    State(map[0 := EMPTY_STORE], 1, map[], [Core(None, Zeros(PAGE_DATA_SIZE), false, 0)], [0], [], [0], 0, multiset{})
  }

  function Frame(d: Data, dirty: bool, pins: nat): Core {
    Core(Some(FIRST_PAGE), d, dirty, pins)
  }

  function Grown(): State {
    PoolWith(OnePage(false), Frame(Zeros(PAGE_DATA_SIZE), true, 1), 1, multiset{FIRST_GUARD})
  }

  function Forced(): State {
    PoolWith(OnePage(true), Frame(Zeros(PAGE_DATA_SIZE), false, 1), 1, multiset{FIRST_GUARD})
  }

  function Written(d: Data): State {
    PoolWith(OnePage(true), Frame(d, false, 1), 1, multiset{FIRST_GUARD})
  }

  function Dropped(d: Data): State {
    PoolWith(OnePage(true), Frame(d, false, 0), 2, multiset{})
  }

  lemma OneLinked()
    ensures [0] + Without([], 0) == [0] && [0] + Without([0], 0) == [0]
  {
    WithoutAt([0], 0);
  }

  lemma StepRegister()
    ensures Inv(Registered()) && Next(NewPool(1), Register(EMPTY_STORE)) == Registered()
    ensures Effect(NewPool(1), Register(EMPTY_STORE), FIRST_PAGE, None) == None
  {
    hide Inv, Coherent;
    NextInv(NewPool(1), Register(EMPTY_STORE));
    var s := NewPool(1);
    assert s.files[0 := EMPTY_STORE] == map[0 := EMPTY_STORE];
    assert s.cores == Registered().cores && s.free == [0] && s.stamp == [0];
    assert RegisterFile(s, EMPTY_STORE).0 == Registered();
  }

  lemma GrowRegistered()
    requires Inv(Registered())
    ensures AllocatePage(Registered(), 0) == (Grown(), Ok(FIRST_GUARD))
  {
    hide Inv;
    OneLinked();
    var s := Registered();
    var a := State(map[0 := EMPTY_STORE], 1, map[], [Core(None, Zeros(PAGE_DATA_SIZE), false, 0)], [], [0], [0], 1,
      multiset{});
    assert Acquired(s) == Ok((a, 0)) by {
      assert s.free[..0] == [] && s.stamp[0 := 0] == [0];
    }
    assert Allocate(EMPTY_STORE) == Ok((OnePage(false), 0));
    var t := a.(files := map[0 := OnePage(false)]);
    assert a.files[0 := OnePage(false)] == t.files;
    var u := Installed(t, 0, FIRST_PAGE, Zeros(PAGE_DATA_SIZE), true).value;
    assert u.cores == Grown().cores && u.table == Grown().table && u.guards == Grown().guards;
    assert u.order == [0] && u.stamp == [1];
  }

  lemma StepGrow(s: State, t: State, file: FileId, g: Guard)
    requires Inv(s) && AllocatePage(s, file) == (t, Ok(g))
    ensures Inv(t) && Next(s, Grow(file)) == t
    ensures Effect(s, Grow(file), g.key, None) == Some(Zeros(PAGE_DATA_SIZE))
  {
    hide Inv, AllocatePage;
    NextInv(s, Grow(file));
  }

  lemma StepForce()
    requires Inv(Grown())
    ensures Inv(Forced()) && Next(Grown(), Force(0, None)) == Forced()
  {
    hide Inv;
    var s, t := Grown(), Forced();
    assert Matching(s.cores, 0, None, 0) == [];
    assert Matching(s.cores, 0, None, 1) == [0];
    assert [0][..0] == [];
    assert FlushAll(s, []) == Ok(s);
    assert s.files[0].data[0 := Zeros(PAGE_DATA_SIZE)] == s.files[0].data;
    assert s.cores[0 := t.cores[0]] == t.cores && s.files[0 := OnePage(true)] == t.files;
    assert Flushed(s, 0) == Ok(t);
    assert FlushAll(s, [0]) == Flushed(s, 0);
    assert t.files[0 := OnePage(true)] == t.files;
    NextInv(s, Force(0, None));
  }

  lemma StepFill(d: Data)
    requires Inv(Forced())
    ensures Inv(Written(d)) && Next(Forced(), Fill(FIRST_GUARD, d)) == Written(d)
  {
    hide Inv;
    assert Forced().cores[0 := Frame(d, false, 1)] == [Frame(d, false, 1)];
    NextInv(Forced(), Fill(FIRST_GUARD, d));
  }

  lemma StepDrop(d: Data)
    requires Inv(Written(d))
    ensures Inv(Dropped(d)) && Next(Written(d), Drop(FIRST_GUARD)) == Dropped(d)
  {
    hide Inv;
    OneLinked();
    NextInv(Written(d), Drop(FIRST_GUARD));
    var s := Written(d);
    assert s.cores[0 := Frame(d, false, 0)] == [Frame(d, false, 0)] && s.stamp[0 := 2] == [2];
    assert Unpinned(s, FIRST_GUARD) == Dropped(d);
  }

  lemma StepReuse(d: Data)
    requires Inv(Dropped(d))
    ensures Inv(Next(Dropped(d), Grow(0)))
    ensures ViewAt(Next(Dropped(d), Grow(0)), FIRST_PAGE) == Some(Zeros(PAGE_DATA_SIZE))
    ensures Effect(Dropped(d), Grow(0), FIRST_PAGE, Some(d)) == Some(d)
  {
    hide Inv;
    OneLinked();
    NextInv(Dropped(d), Grow(0));
  }

  /** One call at the front of a run. */
  lemma RunCons(s: State, c: Call, rest: seq<Call>, t: State, k: Key, before: Option<Data>)
    requires Inv(s) && Possible(s, c) && Next(s, c) == t && Inv(t) && Feasible(t, rest)
    ensures Feasible(s, [c] + rest)
    ensures PoolRuns.Run(s, [c] + rest) == PoolRuns.Run(t, rest)
    ensures Track(s, [c] + rest, k, before) == Track(t, rest, k, Effect(s, c, k, before))
  {
    hide Inv, Next, Effect, Possible;
    assert ([c] + rest)[1..] == rest;
  }

  /** Every call of the losing run is possible, and the page ends up with the bytes it had before the
      write, although the calls' effects say otherwise: the condition of TransparentRun is needed. */
  lemma LosingRunLoses(d: Data)
    ensures Feasible(NewPool(1), LosingRun(d))
    ensures ViewAt(PoolRuns.Run(NewPool(1), LosingRun(d)), FIRST_PAGE) == Some(Zeros(PAGE_DATA_SIZE))
    ensures Track(NewPool(1), LosingRun(d), FIRST_PAGE, None) == Some(d)
  {
    hide Inv, Coherent, Next, AllocatePage, ForceFile, ViewAt, NewPool, Registered, PoolRuns.Run, Feasible, Track,
      Effect;
    StepRegister();
    GrowRegistered();
    StepGrow(Registered(), Grown(), 0, FIRST_GUARD);
    var tail := LosingRun(d)[2..];
    LosingTail(d);
    RunCons(Registered(), Grow(0), tail, Grown(), FIRST_PAGE, None);
    RunCons(NewPool(1), Register(EMPTY_STORE), [Grow(0)] + tail, Registered(), FIRST_PAGE, None);
    assert LosingRun(d) == [Register(EMPTY_STORE)] + ([Grow(0)] + tail);
  }

  lemma LosingTail(d: Data)
    requires Inv(Grown())
    ensures Feasible(Grown(), LosingRun(d)[2..])
    ensures ViewAt(PoolRuns.Run(Grown(), LosingRun(d)[2..]), FIRST_PAGE) == Some(Zeros(PAGE_DATA_SIZE))
    ensures Track(Grown(), LosingRun(d)[2..], FIRST_PAGE, Some(Zeros(PAGE_DATA_SIZE))) == Some(d)
  {
    hide Inv, Coherent, Next, AllocatePage, ForceFile, ViewAt, PoolRuns.Run, Feasible, Track;
    StepForce();
    StepFill(d);
    StepDrop(d);
    StepReuse(d);
    var last := Next(Dropped(d), Grow(0));
    NoCalls(last, FIRST_PAGE, Some(d));
    RunCons(Dropped(d), Grow(0), [], last, FIRST_PAGE, Some(d));
    RunCons(Written(d), Drop(FIRST_GUARD), [Grow(0)] + [], Dropped(d), FIRST_PAGE, Some(d));
    RunCons(Forced(), Fill(FIRST_GUARD, d), [Drop(FIRST_GUARD)] + ([Grow(0)] + []), Written(d), FIRST_PAGE,
      Some(Zeros(PAGE_DATA_SIZE)));
    var rest := [Fill(FIRST_GUARD, d)] + ([Drop(FIRST_GUARD)] + ([Grow(0)] + []));
    RunCons(Grown(), Force(0, None), rest, Forced(), FIRST_PAGE, Some(Zeros(PAGE_DATA_SIZE)));
    assert LosingRun(d)[2..] == [Force(0, None)] + rest;
  }

  lemma NoCalls(s: State, k: Key, before: Option<Data>)
    requires Inv(s)
    ensures Feasible(s, []) && AllDisciplined(s, [])
    ensures PoolRuns.Run(s, []) == s && Track(s, [], k, before) == before
  {
  }

  /** The losing run writes to a page after it was forced. */
  lemma LosingRunIsStale(d: Data)
    requires d != Zeros(PAGE_DATA_SIZE)
    ensures Feasible(NewPool(1), LosingRun(d)) && !NoStaleWrite(NewPool(1), LosingRun(d), iset{})
  {
    hide Inv, Coherent, Feasible, NoStaleWrite, PoolRuns.Run, Track, ViewAt, NewPool, LosingRun;
    LosingRunLoses(d);
    if NoStaleWrite(NewPool(1), LosingRun(d), iset{}) {
      TransparentRun(1, LosingRun(d), FIRST_PAGE);
    }
  }
}
