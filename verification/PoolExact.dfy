/** Exactly which writes through guards keep the pool transparent, seen by what readers can find out. */
module PoolExact {
  import opened Outcomes
  import opened Bytes
  import opened PageStore
  import opened PoolStates
  import opened PoolInvariants
  import opened PoolSteps
  import opened PoolRuns
  import opened PoolDiscipline

  /** From here on, whatever happens, a reader of any key sees what the calls' effects say, as long as
      each write finds its frame dirty. */
  ghost predicate Transparent(s: State)
    requires Inv(s)
  {
    forall calls, k :: Feasible(s, calls) && AllDisciplined(s, calls) ==>
      ViewAt(PoolRuns.Run(s, calls), k) == Track(s, calls, k, ViewAt(s, k))
  }

  // ---- a frame whose loss is noticed

  /** The frame is clean but holds other bytes than the page file does for its key. */
  predicate Stale(s: State, f: nat) {
    && f < |s.cores| && s.cores[f].key.Some? && !s.cores[f].dirty
    && StoredAt(s.files, s.cores[f].key.value) != Some(s.cores[f].data)
  }

  /** No writing call. */
  ghost predicate Quietly(calls: seq<Call>) {
    forall i :: 0 <= i < |calls| ==> calls[i].Drop? || calls[i].Evict?
  }

  lemma QuietlyDisciplined(s: State, c: Call, rest: seq<Call>, k: Key, before: Option<Data>)
    requires Inv(s) && Possible(s, c) && (c.Drop? || c.Evict?) && Quietly(rest)
    requires Inv(Next(s, c)) && Feasible(Next(s, c), rest) && AllDisciplined(Next(s, c), rest)
    ensures Quietly([c] + rest) && Feasible(s, [c] + rest) && AllDisciplined(s, [c] + rest)
    ensures PoolRuns.Run(s, [c] + rest) == PoolRuns.Run(Next(s, c), rest)
    ensures Track(s, [c] + rest, k, before) == Track(Next(s, c), rest, k, before)
  {
    hide Inv, Next, Possible;
    assert ([c] + rest)[1..] == rest;
  }

  /** The frame is evicted: a reader of its key now sees the stored bytes. */
  lemma EvictShows(s: State, f: nat)
    requires Inv(s) && Stale(s, f) && s.guards == multiset{}
    ensures var k := s.cores[f].key.value;
            ViewAt(FlushFile(s, k.file).0, k) == StoredAt(s.files, k)
  {
    hide Inv, StoredAt, TableOk;
    var k := s.cores[f].key.value;
    KeptFile(s, f);
    PinnedIffGuarded(s, k.file);
    var ids := Matching(s.cores, k.file, None, |s.cores|);
    MatchingExact(s.cores, k.file, None, |s.cores|);
    assert forall i :: 0 <= i < |ids| ==> ids[i] in ids;
    OnlyFrame(s, f);
    FlushEvictAllInv(s, ids);
    FlushEvictOthers(s, ids);
    FlushFileInv(s, k.file);
    var t := FlushEvictAll(s, ids).value;
    assert StoredAt(t.files, k) == StoredAt(s.files, k);
    GoneKey(FlushFile(s, k.file).0, k);
    SyncedStored(t, k.file, k);
  }

  lemma KeptFile(s: State, f: nat)
    requires Inv(s) && f < |s.cores| && s.cores[f].key.Some?
    ensures s.cores[f].key.value.file in s.files
  {
  }

  lemma OnlyFrame(s: State, f: nat)
    requires Inv(s) && f < |s.cores| && s.cores[f].key.Some?
    ensures forall h :: 0 <= h < |s.cores| && s.cores[h].key == s.cores[f].key ==> h == f
  {
    hide Partition, Recency, FilesOk, HeldOk, IdleOk, PinsOk;
  }

  /** A key that no frame of the pool holds shows the stored page. */
  lemma GoneKey(t: State, k: Key)
    requires Inv(t) && forall h :: 0 <= h < |t.cores| ==> !Matches(t.cores[h], k.file, None)
    ensures ViewAt(t, k) == StoredAt(t.files, k)
  {
    hide Partition, Recency, FilesOk, HeldOk, IdleOk, PinsOk, StoredAt;
  }

  lemma SyncedStored(t: State, file: FileId, k: Key)
    requires file in t.files
    ensures StoredAt(Synced(t, file).files, k) == StoredAt(t.files, k)
  {
  }

  /** Dropping every guard and evicting the file shows a reader the bytes that the page file kept. */
  lemma {:induction false} StaleShows(s: State, f: nat) returns (calls: seq<Call>)
    requires Inv(s) && Stale(s, f)
    ensures Quietly(calls) && Feasible(s, calls) && AllDisciplined(s, calls)
    ensures var k := s.cores[f].key.value;
            && ViewAt(s, k) == Some(s.cores[f].data)
            && ViewAt(PoolRuns.Run(s, calls), k) == StoredAt(s.files, k)
            && Track(s, calls, k, ViewAt(s, k)) == ViewAt(s, k)
    decreases |s.guards|
  {
    hide Inv, StoredAt, PoolRuns.Run, Feasible, AllDisciplined, Track;
    var k := s.cores[f].key.value;
    KeyView(s, f, k);
    if s.guards == multiset{} {
      EvictShows(s, f);
      NextInv(s, Evict(k.file));
      var t := Next(s, Evict(k.file));
      NoCalls(t, k, ViewAt(s, k));
      QuietlyDisciplined(s, Evict(k.file), [], k, ViewAt(s, k));
      calls := [Evict(k.file)] + [];
    } else {
      var g :| g in s.guards;
      NextInv(s, Drop(g));
      GuardedFrame(s, g);
      var t := Next(s, Drop(g));
      DropKeeps(s, g, f);
      var rest := StaleShows(t, f);
      KeyView(t, f, k);
      QuietlyDisciplined(s, Drop(g), rest, k, ViewAt(s, k));
      calls := [Drop(g)] + rest;
    }
  }

  lemma DropKeeps(s: State, g: Guard, f: nat)
    requires Inv(s) && g in s.guards && f < |s.cores|
    ensures g.frame < |s.cores| == |s.stamp|
    ensures var t := Unpinned(s, g);
            && t.files == s.files && |t.cores| == |s.cores| && |t.guards| < |s.guards|
            && t.cores[f].(pins := 0) == s.cores[f].(pins := 0)
  {
    hide Partition, Recency, FilesOk, HeldOk, IdleOk, PinsOk, TableOk;
    GuardedFrame(s, g);
    assert |s.guards - multiset{g}| == |s.guards| - 1;
  }

  // ---- the exact conditions

  /** Readers can rely on the effects of all calls to come exactly if no clean frame differs from its
      stored page: the private condition is what they can find out. */
  lemma CoherentExact(s: State)
    requires Inv(s)
    ensures Coherent(s) <==> Transparent(s)
  {
    hide Inv, Feasible, AllDisciplined, PoolRuns.Run, Track, StoredAt, ViewAt;
    if Coherent(s) {
      forall calls, k | Feasible(s, calls) && AllDisciplined(s, calls)
        ensures ViewAt(PoolRuns.Run(s, calls), k) == Track(s, calls, k, ViewAt(s, k))
      {
        RunView(s, calls, k);
      }
    } else {
      var f: nat :| f < |s.cores| && !CoreCoherent(s.cores[f], s.files);
      var calls := StaleShows(s, f);
    }
  }

  /** The keys forced since a write guard on them was last handed out, after a whole run. */
  ghost function ForcedIn(s: State, calls: seq<Call>, forced: iset<Key>): iset<Key>
    requires Inv(s) && Feasible(s, calls)
    decreases |calls|
  {
    if calls == [] then forced
    else NextInv(s, calls[0]); ForcedIn(Next(s, calls[0]), calls[1..], ForcedAfter(s, calls[0], forced))
  }

  lemma {:induction false} TracksRun(s: State, calls: seq<Call>, forced: iset<Key>)
    requires Inv(s) && Feasible(s, calls) && Tracks(s, forced)
    ensures Inv(PoolRuns.Run(s, calls)) && Tracks(PoolRuns.Run(s, calls), ForcedIn(s, calls, forced))
    decreases |calls|
  {
    hide Inv, Next, ForcedAfter, Possible;
    if calls == [] {
    } else {
      TracksNext(s, calls[0], forced);
      TracksRun(Next(s, calls[0]), calls[1..], ForcedAfter(s, calls[0], forced));
    }
  }

  /** The same in callers' terms: `forced` are the keys forced since a write guard on them was last
      handed out. */
  ghost predicate SafeFrom(s: State, forced: iset<Key>)
    requires Inv(s)
  {
    forall calls, k :: Feasible(s, calls) && NoStaleWrite(s, calls, forced) ==>
      ViewAt(PoolRuns.Run(s, calls), k) == Track(s, calls, k, ViewAt(s, k))
  }

  lemma SafeIsTransparent(s: State, forced: iset<Key>)
    requires Inv(s) && Tracks(s, forced)
    ensures SafeFrom(s, forced) <==> Transparent(s)
  {
    hide Inv, Feasible, AllDisciplined, NoStaleWrite, PoolRuns.Run, Track, ViewAt, Tracks;
    forall calls | Feasible(s, calls)
      ensures AllDisciplined(s, calls) <==> NoStaleWrite(s, calls, forced)
    {
      DisciplinedExact(s, calls, forced);
    }
  }

  lemma FillForcesNothing(s: State, g: Guard, d: Data, forced: iset<Key>)
    requires Inv(s)
    ensures ForcedAfter(s, Fill(g, d), forced) == forced
  {
    hide Inv;
  }

  /** After any run of a new pool without a stale write, one more write through a live guard leaves all
      that can follow transparent exactly if its page was not forced since a write guard on it was last
      handed out, or the bytes are those a reader sees already. */
  lemma WriteExact(capacity: nat, calls: seq<Call>, g: Guard, d: Data)
    requires Feasible(NewPool(capacity), calls) && NoStaleWrite(NewPool(capacity), calls, iset{})
    requires g in PoolRuns.Run(NewPool(capacity), calls).guards && g.write
    ensures var s, forced := PoolRuns.Run(NewPool(capacity), calls), ForcedIn(NewPool(capacity), calls, iset{});
            && Inv(s) && Possible(s, Fill(g, d)) && Inv(Next(s, Fill(g, d)))
            && (SafeFrom(Next(s, Fill(g, d)), forced) <==> g.key !in forced || ViewAt(s, g.key) == Some(d))
  {
    hide Inv, Feasible, NoStaleWrite, PoolRuns.Run, Track, NewPool, Coherent, ForcedIn, Transparent, StoredAt,
      SafeFrom, ForcedAfter;
    NothingYet(capacity, g.key);
    TransparentRun(capacity, calls, g.key);
    TracksRun(NewPool(capacity), calls, iset{});
    var s, forced := PoolRuns.Run(NewPool(capacity), calls), ForcedIn(NewPool(capacity), calls, iset{});
    TracksNext(s, Fill(g, d), forced);
    FillForcesNothing(s, g, d, forced);
    GuardedFrame(s, g);
    FillCoherent(s, g, d);
    CoherentExact(Next(s, Fill(g, d)));
    SafeIsTransparent(Next(s, Fill(g, d)), forced);
    GuardCoherent(s, g);
  }

  lemma GuardCoherent(s: State, g: Guard)
    requires Inv(s) && Coherent(s) && g in s.guards
    ensures g.frame < |s.cores| && (!s.cores[g.frame].dirty ==> StoredAt(s.files, g.key) == ViewAt(s, g.key))
  {
    hide Inv, StoredAt;
    GuardedFrame(s, g);
    assert CoreCoherent(s.cores[g.frame], s.files);
  }

  // ---- where the discipline is needed

  /** Forcing a file under a live write guard, in a pool of any size and with any other guards, and then
      writing through the guard: readers see the write, but after some run without any further write
      they see the bytes from before. */
  lemma ForcedWriteIsLost(s: State, g: Guard, d: Data) returns (calls: seq<Call>)
    requires Inv(s) && Coherent(s) && g in s.guards && g.write && ViewAt(s, g.key) != Some(d)
    ensures var t := ForceFile(s, g.key.file, None).0;
            && Inv(t) && g in t.guards && g.frame < |t.cores|
            && var u := GuardWrite(t, g, d);
            && Inv(u) && ViewAt(u, g.key) == Some(d)
            && Quietly(calls) && Feasible(u, calls)
            && ViewAt(PoolRuns.Run(u, calls), g.key) == ViewAt(s, g.key)
  {
    hide Inv, ViewAt, ForceFile, StoredAt, PoolRuns.Run, Feasible, AllDisciplined, Track;
    ForceLeavesGuard(s, g);
    var t := ForceFile(s, g.key.file, None).0;
    FillInv(t, g, d);
    FillView(t, g, d, g.key);
    calls := StaleShows(GuardWrite(t, g, d), g.frame);
  }

  lemma ForceLeavesGuard(s: State, g: Guard)
    requires Inv(s) && Coherent(s) && g in s.guards
    ensures var t := ForceFile(s, g.key.file, None).0;
            && Inv(t) && t.guards == s.guards && |t.cores| == |s.cores|
            && g.frame < |t.cores| && t.cores[g.frame].key == Some(g.key) && !t.cores[g.frame].dirty
            && t.cores[g.frame].pins == s.cores[g.frame].pins
            && StoredAt(t.files, g.key) == ViewAt(s, g.key)
  {
    hide Partition, Recency, IdleOk, PinsOk, FilesOk;
    var file := g.key.file;
    GuardedFrame(s, g);
    ForceInv(s, file, None);
    FlushAllInv(s, Matching(s.cores, file, None, |s.cores|));
    ForceClean(s, file, None, g.frame);
    ForceMakesDurable(s, file, None, g.key.page);
  }
}
