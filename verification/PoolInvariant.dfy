/** Every building block of a pool step keeps the frame structure and what readers see. */
module PoolInvariants {
  import opened Outcomes
  import opened PageStore
  import opened PoolStates

  // ---- the partition into linked and free frames, and the recency order

  lemma PartitionTouch(n: nat, order: seq<nat>, free: seq<nat>, f: nat)
    requires Partition(n, order, free) && f in order
    ensures Partition(n, [f] + Without(order, f), free)
  {
    forall g: nat ensures g in [f] + Without(order, f) <==> g in order {
      WithoutIn(order, f, g);
    }
    WithoutIn(order, f, f);
    WithoutDistinct(order, f);
  }

  lemma PartitionPop(n: nat, order: seq<nat>, free: seq<nat>)
    requires Partition(n, order, free) && free != []
    ensures var f, rest := free[|free| - 1], free[..|free| - 1];
            f !in order && Without(order, f) == order && Partition(n, [f] + order, rest)
  {
    var f, rest := free[|free| - 1], free[..|free| - 1];
    assert f in free;
    WithoutAbsent(order, f);
    assert free == rest + [f];
    assert forall g :: g in rest ==> g in free;
  }

  lemma PartitionEvict(n: nat, order: seq<nat>, free: seq<nat>, f: nat)
    requires Partition(n, order, free) && f in order
    ensures Partition(n, Without(order, f), free + [f])
  {
    forall g: nat ensures g in Without(order, f) <==> g in order && g != f {
      WithoutIn(order, f, g);
    }
    WithoutDistinct(order, f);
  }

  lemma RecencyTouch(order: seq<nat>, stamp: seq<nat>, clock: nat, f: nat)
    requires Distinct(order) && Recency(order, stamp, clock) && f < |stamp|
    ensures Recency([f] + Without(order, f), stamp[f := clock], clock + 1)
  {
    var rest := Without(order, f);
    WithoutRecency(order, f, stamp, clock);
    forall i | 0 <= i < |rest| ensures rest[i] != f {
      WithoutIn(order, f, rest[i]);
      assert rest[i] in rest;
    }
  }

  lemma TouchedInv(s: State, f: nat)
    requires Inv(s) && f in s.order
    ensures Inv(Touched(s, f))
  {
    hide FilesOk, PinsOk, TableOk, HeldOk, IdleOk, Recency;
    PartitionTouch(|s.cores|, s.order, s.free, f);
    RecencyTouch(s.order, s.stamp, s.clock, f);
  }

  // ---- flushing

  /** The same keys and pin counts, frame by frame. */
  ghost predicate Alike(cores: seq<Core>, after: seq<Core>) {
    |cores| == |after| &&
    forall f :: 0 <= f < |cores| ==> after[f].key == cores[f].key && after[f].pins == cores[f].pins
  }

  lemma AlikeKeeps(cores: seq<Core>, after: seq<Core>, table: map<Key, nat>, guards: multiset<Guard>)
    requires Alike(cores, after) && TableOk(cores, table) && PinsOk(cores, guards)
    ensures TableOk(after, table) && PinsOk(after, guards)
  {
  }

  lemma WriteBack(t: Store, p: PageId, d: Data)
    requires Valid(t) && p in t.data
    ensures var u := PageStore.Flush(Write(t, p, d).value);
            Valid(u) && u.data == t.data[p := d] && u.data.Keys == t.data.Keys
  {
  }

  /** A flush stores the frame's bytes under its key and changes no other stored page. */
  lemma FlushedFiles(s: State, f: nat)
    requires Inv(s) && f < |s.cores|
    ensures Flushed(s, f).Ok?
    ensures var t := Flushed(s, f).value;
            && FilesOk(t.files, t.nextFile)
            && t.files.Keys == s.files.Keys
            && (forall k :: Stored(t.files, k) <==> Stored(s.files, k))
            && Alike(s.cores, t.cores)
            && t == s.(files := t.files, cores := t.cores)
            && t.cores == s.cores[f := s.cores[f].(dirty := false)]
  {
    hide Valid;
    if s.cores[f].dirty {
      var k := s.cores[f].key.value;
      assert Stored(s.files, k);
      WriteBack(s.files[k.file], k.page, s.cores[f].data);
    }
  }

  lemma FlushedStored(s: State, f: nat, k: Key)
    requires Inv(s) && f < |s.cores|
    ensures Flushed(s, f).Ok?
    ensures StoredAt(Flushed(s, f).value.files, k) ==
            if s.cores[f].dirty && s.cores[f].key == Some(k) then Some(s.cores[f].data) else StoredAt(s.files, k)
  {
    hide Valid, Partition, Recency, PinsOk, TableOk;
    if s.cores[f].dirty {
      var held := s.cores[f].key.value;
      assert Stored(s.files, held);
      WriteBack(s.files[held.file], held.page, s.cores[f].data);
    }
  }

  lemma FlushedInv(s: State, f: nat)
    requires Inv(s) && f < |s.cores|
    ensures Flushed(s, f).Ok? && Inv(Flushed(s, f).value)
  {
    hide Flushed, Valid, TableOk, PinsOk, Partition, Recency, FilesOk, Stored;
    FlushedFiles(s, f);
    AlikeKeeps(s.cores, Flushed(s, f).value.cores, s.table, s.guards);
  }

  /** Flushing a frame is invisible and leaves it equal to the stored page if it was dirty. */
  lemma FlushedView(s: State, f: nat, k: Key)
    requires Inv(s) && f < |s.cores|
    ensures Flushed(s, f).Ok?
    ensures ViewAt(Flushed(s, f).value, k) == ViewAt(s, k)
  {
    hide Flushed, Valid, StoredAt, Partition, Recency, PinsOk, FilesOk, IdleOk;
    FlushedFiles(s, f);
    FlushedStored(s, f, k);
  }

  lemma FlushedCoherent(s: State, f: nat)
    requires Inv(s) && f < |s.cores|
    ensures Flushed(s, f).Ok?
    ensures var t := Flushed(s, f).value;
            && !t.cores[f].dirty
            && (s.cores[f].dirty ==> CoreCoherent(t.cores[f], t.files))
            && (Coherent(s) ==> Coherent(t))
  {
    FlushedFiles(s, f);
    var t := Flushed(s, f).value;
    forall k ensures StoredAt(t.files, k) ==
        if s.cores[f].dirty && s.cores[f].key == Some(k) then Some(s.cores[f].data) else StoredAt(s.files, k) {
      FlushedStored(s, f, k);
    }
    hide Flushed, Valid, StoredAt, FilesOk, Partition, Recency, PinsOk;
    if Coherent(s) {
      forall g | 0 <= g < |t.cores| ensures CoreCoherent(t.cores[g], t.files) {
        assert CoreCoherent(s.cores[g], s.files);
        assert g != f ==> t.cores[g] == s.cores[g];
      }
    }
  }

  // ---- recycling

  /** An unpinned frame has no guard on it. */
  lemma NoGuardOnIdle(cores: seq<Core>, guards: multiset<Guard>, f: nat)
    requires PinsOk(cores, guards) && f < |cores| && cores[f].pins == 0
    ensures forall g :: g in guards ==> g.frame != f
  {
    forall g | g in guards ensures g.frame != f {
      assert cores[g.frame].key == Some(g.key);
      assert g == Guard(g.frame, g.key, true) || g == Guard(g.frame, g.key, false);
    }
  }

  lemma RecycledTable(cores: seq<Core>, table: map<Key, nat>, f: nat)
    requires TableOk(cores, table) && f < |cores|
    ensures TableOk(cores[f := cores[f].(key := None, dirty := false)],
                    if cores[f].key.Some? then table - {cores[f].key.value} else table)
  {
  }

  lemma RecycledParts(s: State, f: nat)
    requires Inv(s) && f < |s.cores| && s.cores[f].pins == 0
    ensures Recycled(s, f).Ok?
    ensures var t := Recycled(s, f).value;
            && TableOk(t.cores, t.table) && PinsOk(t.cores, t.guards) && HeldOk(t.cores, t.files)
            && IdleOk(t.cores, t.free)
  {
    hide Partition, Recency, FilesOk, Stored, TableOk;
    NoGuardOnIdle(s.cores, s.guards, f);
    RecycledTable(s.cores, s.table, f);
  }

  /** Recycling drops the frame's own bytes: only its key may be seen to change, back to the stored page. */
  lemma RecycledView(s: State, f: nat, k: Key)
    requires Inv(s) && f < |s.cores| && s.cores[f].pins == 0
    ensures Recycled(s, f).Ok?
    ensures ViewAt(Recycled(s, f).value, k) ==
            if s.cores[f].key == Some(k) then StoredAt(s.files, k) else ViewAt(s, k)
  {
    hide Partition, Recency, FilesOk, PinsOk, IdleOk, HeldOk, StoredAt, Without;
  }

  lemma RecycledCoherent(s: State, f: nat)
    requires f < |s.cores| && Coherent(s) && Recycled(s, f).Ok?
    ensures Coherent(Recycled(s, f).value)
  {
    var t := Recycled(s, f).value;
    forall g | 0 <= g < |t.cores| ensures CoreCoherent(t.cores[g], t.files) {
      assert CoreCoherent(s.cores[g], s.files);
    }
  }

  lemma EvictedInv(s: State, f: nat)
    requires Inv(s) && f in s.order && s.cores[f].pins == 0
    ensures Evicted(s, f).Ok? && Inv(Evicted(s, f).value)
  {
    hide Recency, FilesOk, PinsOk, TableOk, HeldOk;
    RecycledParts(s, f);
    PartitionEvict(|s.cores|, s.order, s.free, f);
    WithoutRecency(s.order, f, s.stamp, s.clock);
  }

  // ---- acquiring

  ghost predicate LastIdle(cores: seq<Core>, order: seq<nat>, i: nat)
    requires i < |order| && forall j :: 0 <= j < |order| ==> order[j] < |cores|
  {
    cores[order[i]].pins == 0 && forall j :: i < j < |order| ==> cores[order[j]].pins != 0
  }

  lemma {:induction false} VictimSpec(cores: seq<Core>, order: seq<nat>)
    requires forall i :: 0 <= i < |order| ==> order[i] < |cores|
    ensures var v := Victim(cores, order);
            && (v.None? <==> forall i :: 0 <= i < |order| ==> cores[order[i]].pins != 0)
            && (v.Some? ==> exists i :: 0 <= i < |order| && order[i] == v.value && LastIdle(cores, order, i))
  {
    if order == [] {
    } else {
      var rest := order[..|order| - 1];
      VictimSpec(cores, rest);
      if cores[order[|order| - 1]].pins == 0 {
        assert order[|order| - 1] == Victim(cores, order).value && LastIdle(cores, order, |order| - 1);
      } else if Victim(cores, rest).Some? {
        var i :| 0 <= i < |rest| && rest[i] == Victim(cores, rest).value && LastIdle(cores, rest, i);
        assert order[i] == Victim(cores, order).value && LastIdle(cores, order, i);
      }
    }
  }

  /** The victim is the unpinned linked frame whose last touch is oldest. */
  lemma VictimIsLeastRecent(s: State, f: nat)
    requires Inv(s) && Victim(s.cores, s.order) == Some(f)
    ensures f < |s.cores| && f in s.order && s.cores[f].pins == 0
    ensures forall g :: g in s.order && g != f && s.cores[g].pins == 0 ==> s.stamp[f] < s.stamp[g]
  {
    hide FilesOk, PinsOk, TableOk, HeldOk, IdleOk, Victim;
    VictimSpec(s.cores, s.order);
    var i :| 0 <= i < |s.order| && s.order[i] == f && LastIdle(s.cores, s.order, i);
    forall g | g in s.order && g != f && s.cores[g].pins == 0 ensures s.stamp[f] < s.stamp[g] {
      var j :| 0 <= j < |s.order| && s.order[j] == g;
      assert j < i;
    }
  }

  /** Acquiring fails exactly when no frame is free and every frame is pinned, and only with
      NoFrameAvailable. */
  lemma AcquiredFails(s: State)
    requires Inv(s)
    ensures Acquired(s).Err? <==> forall f :: 0 <= f < |s.cores| ==> s.cores[f].pins > 0
    ensures Acquired(s).Err? ==> Acquired(s).error == NoFrameAvailable
  {
    hide Recency, FilesOk, PinsOk, TableOk, HeldOk;
    if s.free != [] {
      assert s.free[|s.free| - 1] in s.free;
    } else {
      assert forall i :: 0 <= i < |s.order| ==> s.order[i] in s.order;
      VictimSpec(s.cores, s.order);
      var v := Victim(s.cores, s.order);
      if v.Some? {
        FlushedFiles(s, v.value);
      } else {
        forall f | 0 <= f < |s.cores| ensures s.cores[f].pins > 0 {
          assert f in s.order;
        }
      }
    }
  }

  /** An acquired frame is linked, unkeyed and unpinned, in a state that keeps the whole invariant:
      should the caller fail now, no frame is lost. */
  lemma AcquiredInv(s: State)
    requires Inv(s) && Acquired(s).Ok?
    ensures var (t, f) := Acquired(s).value;
            && Inv(t)
            && f in t.order && f < |t.cores| && t.cores[f].key.None?
            && t.guards == s.guards && t.nextFile == s.nextFile && t.files.Keys == s.files.Keys
            && |t.cores| == |s.cores|
  {
    hide FilesOk, PinsOk, TableOk, HeldOk, Recency;
    if s.free != [] {
      var f := s.free[|s.free| - 1];
      assert f in s.free;
      PartitionPop(|s.cores|, s.order, s.free);
      RecencyTouch(s.order, s.stamp, s.clock, f);
    } else {
      var f := Victim(s.cores, s.order).value;
      VictimIsLeastRecent(s, f);
      FlushedInv(s, f);
      FlushedFiles(s, f);
      RecycleTouch(Flushed(s, f).value, f);
    }
  }

  lemma RecycleTouch(s: State, f: nat)
    requires Inv(s) && f in s.order && s.cores[f].pins == 0
    ensures Recycled(s, f).Ok?
    ensures var t := Touched(Recycled(s, f).value, f);
            Inv(t) && f in t.order && t.cores[f].key.None?
  {
    hide FilesOk, PinsOk, TableOk, HeldOk, Recency;
    RecycledParts(s, f);
    PartitionTouch(|s.cores|, s.order, s.free, f);
    RecencyTouch(s.order, s.stamp, s.clock, f);
    WithoutIn(s.order, f, f);
    WithoutAbsent(Without(s.order, f), f);
  }

  /** What acquiring does to the view: at most the key of a clean victim falls back to its stored page. */
  lemma AcquiredView(s: State, k: Key)
    requires Inv(s) && Acquired(s).Ok?
    ensures var (t, f) := Acquired(s).value;
            ViewAt(t, k) == if DroppedKey(s) == Some(k) then StoredAt(s.files, k) else ViewAt(s, k)
  {
    hide FilesOk, PinsOk, TableOk, HeldOk, Recency, Without, StoredAt, IdleOk, Partition;
    if s.free == [] {
      var f := Victim(s.cores, s.order).value;
      VictimIsLeastRecent(s, f);
      FlushedInv(s, f);
      FlushedFiles(s, f);
      FlushedStored(s, f, k);
      FlushedView(s, f, k);
      RecycledView(Flushed(s, f).value, f, k);
      if s.cores[f].key == Some(k) {
        KeyView(s, f, k);
      }
    }
  }

  /** A keyed frame shows its own bytes. */
  lemma KeyView(s: State, f: nat, k: Key)
    requires Inv(s) && f < |s.cores| && s.cores[f].key == Some(k)
    ensures k in s.table && s.table[k] == f && ViewAt(s, k) == Some(s.cores[f].data)
  {
  }

  lemma AcquiredCoherent(s: State)
    requires Inv(s) && Coherent(s) && Acquired(s).Ok?
    ensures Coherent(Acquired(s).value.0)
    ensures forall k :: ViewAt(Acquired(s).value.0, k) == ViewAt(s, k)
  {
    hide FilesOk, PinsOk, TableOk, HeldOk, Recency, Without, StoredAt, IdleOk, Partition;
    if s.free == [] {
      var f := Victim(s.cores, s.order).value;
      VictimIsLeastRecent(s, f);
      assert CoreCoherent(s.cores[f], s.files);
      FlushedInv(s, f);
      FlushedCoherent(s, f);
      FlushedFiles(s, f);
      RecycledCoherent(Flushed(s, f).value, f);
    }
    forall k ensures ViewAt(Acquired(s).value.0, k) == ViewAt(s, k) {
      AcquiredView(s, k);
      if DroppedKey(s) == Some(k) {
        var f := Victim(s.cores, s.order).value;
        VictimIsLeastRecent(s, f);
        KeyView(s, f, k);
        assert CoreCoherent(s.cores[f], s.files);
      }
    }
  }

  // ---- installing, pinning, unpinning

  lemma InstalledInv(s: State, f: nat, k: Key, d: Data, dirty: bool)
    requires Inv(s) && f in s.order && f < |s.cores| && s.cores[f].key.None?
    requires Stored(s.files, k) && k !in s.table
    ensures Installed(s, f, k, d, dirty).Ok?
    ensures Inv(Installed(s, f, k, d, dirty).value)
  {
    hide FilesOk, Recency, TableOk, PinsOk, IdleOk, HeldOk, Partition, Without;
    TouchedKeeps(s, f);
    InstalledPins(s.cores, s.guards, s.table, f, k, d, dirty);
    InstalledKeeps(s, f, k, Core(Some(k), d, dirty, 1));
  }

  lemma InstalledKeeps(s: State, f: nat, k: Key, c: Core)
    requires Inv(s) && f in s.order && f < |s.cores| && s.cores[f].key.None?
    requires Stored(s.files, k) && k !in s.table && c.key == Some(k)
    ensures TableOk(s.cores[f := c], s.table[k := f])
    ensures HeldOk(s.cores[f := c], s.files)
    ensures IdleOk(s.cores[f := c], s.free)
  {
    hide FilesOk, Recency, PinsOk, Stored;
    assert f !in s.free;
  }

  lemma InstalledPins(cores: seq<Core>, guards: multiset<Guard>, table: map<Key, nat>, f: nat, k: Key, d: Data,
      dirty: bool)
    requires PinsOk(cores, guards) && TableOk(cores, table) && f < |cores| && cores[f].key.None? && k !in table
    ensures PinsOk(cores[f := Core(Some(k), d, dirty, 1)], guards + multiset{Guard(f, k, dirty)})
  {
    var after, more := cores[f := Core(Some(k), d, dirty, 1)], guards + multiset{Guard(f, k, dirty)};
    assert Guard(f, k, true) !in guards && Guard(f, k, false) !in guards;
    forall g | 0 <= g < |after| && after[g].key.Some?
      ensures after[g].pins == GuardsOn(more, g, after[g].key.value) {
      if g != f {
        assert cores[g].key.Some?;
      }
    }
  }

  lemma PinnedInv(s: State, f: nat, k: Key, write: bool)
    requires Inv(s) && f < |s.cores| && s.cores[f].key == Some(k)
    ensures Inv(Pinned(s, f, k, write))
  {
    hide FilesOk, Recency, HeldOk, TableOk, PinsOk, IdleOk, Partition;
    SameKeyKeeps(s, f, s.cores[f].(pins := s.cores[f].pins + 1, dirty := s.cores[f].dirty || write));
    PinnedPins(s.cores, s.guards, f, k, write);
    TouchedKeeps(s, f);
  }

  lemma TouchedKeeps(s: State, f: nat)
    requires Inv(s) && f in s.order
    ensures f < |s.cores|
    ensures Partition(|s.cores|, [f] + Without(s.order, f), s.free)
    ensures Recency([f] + Without(s.order, f), s.stamp[f := s.clock], s.clock + 1)
  {
    PartitionTouch(|s.cores|, s.order, s.free, f);
    RecencyTouch(s.order, s.stamp, s.clock, f);
  }

  lemma UnpinnedPins(cores: seq<Core>, guards: multiset<Guard>, g: Guard)
    requires PinsOk(cores, guards) && g in guards
    ensures g.frame < |cores| && cores[g.frame].pins > 0 && cores[g.frame].key == Some(g.key)
    ensures PinsOk(cores[g.frame := cores[g.frame].(pins := cores[g.frame].pins - 1)], guards - multiset{g})
  {
    assert g == Guard(g.frame, g.key, true) || g == Guard(g.frame, g.key, false);
  }

  lemma PinnedPins(cores: seq<Core>, guards: multiset<Guard>, f: nat, k: Key, write: bool)
    requires PinsOk(cores, guards) && f < |cores| && cores[f].key == Some(k)
    ensures PinsOk(cores[f := cores[f].(pins := cores[f].pins + 1, dirty := cores[f].dirty || write)],
                   guards + multiset{Guard(f, k, write)})
  {
  }

  /** Replacing a keyed frame's content, but not its key, keeps what depends on keys alone. */
  lemma SameKeyKeeps(s: State, f: nat, c: Core)
    requires Inv(s) && f < |s.cores| && s.cores[f].key.Some? && c.key == s.cores[f].key
    ensures f in s.order
    ensures TableOk(s.cores[f := c], s.table) && HeldOk(s.cores[f := c], s.files) && IdleOk(s.cores[f := c], s.free)
  {
    hide FilesOk, Recency, PinsOk;
  }

  lemma UnpinnedInv(s: State, g: Guard)
    requires Inv(s) && g in s.guards
    ensures g.frame < |s.cores| && s.cores[g.frame].pins > 0 && s.cores[g.frame].key == Some(g.key)
    ensures Inv(Unpinned(s, g))
  {
    hide FilesOk, Recency, HeldOk, TableOk, PinsOk, IdleOk, Partition, Without;
    UnpinnedPins(s.cores, s.guards, g);
    SameKeyKeeps(s, g.frame, s.cores[g.frame].(pins := s.cores[g.frame].pins - 1));
    TouchedKeeps(s, g.frame);
  }
}
