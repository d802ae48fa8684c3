/** The buffer pool: frames linked from most to least recently used, a page table, a free stack. */
module BufferPools {
  import opened Outcomes
  import opened Bytes
  import opened PageStore
  import opened PoolStates
  import opened PoolInvariants
  import opened PoolSteps
  import opened PoolRuns

  datatype Frame = Frame(key: Option<Key>, data: Data, dirty: bool, pins: nat, prev: Option<nat>, next: Option<nat>)

  function CoreOf(fr: Frame): Core {
    Core(fr.key, fr.data, fr.dirty, fr.pins)
  }

  function Cores(frames: seq<Frame>): (r: seq<Core>)
    ensures |r| == |frames|
    ensures forall i :: 0 <= i < |r| ==> r[i] == CoreOf(frames[i])
  {
    seq(|frames|, i requires 0 <= i < |frames| => CoreOf(frames[i]))
  }

  // ---- the intrusive list

  function At(order: seq<nat>, i: int): Option<nat> {
    if 0 <= i < |order| then Some(order[i]) else None
  }

  ghost predicate LinkedAt(frames: seq<Frame>, order: seq<nat>, i: int) {
    0 <= i < |order| && order[i] < |frames| &&
    frames[order[i]].prev == At(order, i - 1) && frames[order[i]].next == At(order, i + 1)
  }

  /** The frames' prev and next fields spell out `order`; frames outside it have no neighbours. */
  ghost predicate Linked(frames: seq<Frame>, order: seq<nat>, head: Option<nat>, tail: Option<nat>) {
    && Distinct(order)
    && (forall i :: 0 <= i < |order| ==> order[i] < |frames|)
    && (forall i {:trigger LinkedAt(frames, order, i)} :: 0 <= i < |order| ==> LinkedAt(frames, order, i))
    && (forall f: nat :: f < |frames| && f !in order ==> frames[f].prev.None? && frames[f].next.None?)
    && head == At(order, 0)
    && tail == At(order, |order| - 1)
  }

  lemma UpdateFrame(frames: seq<Frame>, order: seq<nat>, head: Option<nat>, tail: Option<nat>, f: nat, fr: Frame)
    requires f < |frames| && fr.prev == frames[f].prev && fr.next == frames[f].next
    ensures Cores(frames[f := fr]) == Cores(frames)[f := CoreOf(fr)]
    ensures Linked(frames, order, head, tail) ==> Linked(frames[f := fr], order, head, tail)
  {
    var after := frames[f := fr];
    if Linked(frames, order, head, tail) {
      forall i | 0 <= i < |order| ensures LinkedAt(after, order, i) {
        assert LinkedAt(frames, order, i);
      }
    }
  }

  /** `after` is `frames` with frame f spliced out of the list. */
  ghost predicate SplicedOut(frames: seq<Frame>, f: nat, after: seq<Frame>) {
    && |after| == |frames| && f < |frames|
    && after[f].prev == None && after[f].next == None
    && (forall g: nat :: g < |frames| && g != f ==>
          && after[g].prev == (if frames[f].next == Some(g) then frames[f].prev else frames[g].prev)
          && after[g].next == (if frames[f].prev == Some(g) then frames[f].next else frames[g].next))
  }

  /** The neighbours joined to each other, then f cut loose. */
  function Joined(frames: seq<Frame>, prev: Option<nat>, next: Option<nat>, f: nat): seq<Frame>
    requires f < |frames|
    requires (prev.Some? ==> prev.value < |frames|) && (next.Some? ==> next.value < |frames|)
  {
    var a := if prev.Some? then frames[prev.value := frames[prev.value].(next := next)] else frames;
    var b := if next.Some? then a[next.value := a[next.value].(prev := prev)] else a;
    b[f := b[f].(prev := None, next := None)]
  }

  lemma JoinedSplices(frames: seq<Frame>, f: nat)
    requires f < |frames|
    requires var prev, next := frames[f].prev, frames[f].next;
             && (prev.Some? ==> prev.value < |frames| && prev.value != f)
             && (next.Some? ==> next.value < |frames| && next.value != f)
             && (prev.Some? && next.Some? ==> prev != next)
    ensures var after := Joined(frames, frames[f].prev, frames[f].next, f);
            SplicedOut(frames, f, after) && Cores(after) == Cores(frames)
  {
    var prev, next := frames[f].prev, frames[f].next;
    var a := if prev.Some? then frames[prev.value := frames[prev.value].(next := next)] else frames;
    assert Cores(a) == Cores(frames);
  }

  lemma NeighboursOf(frames: seq<Frame>, order: seq<nat>, head: Option<nat>, tail: Option<nat>, i: nat)
    requires Linked(frames, order, head, tail) && i < |order|
    ensures order[i] < |frames|
    ensures var f := frames[order[i]];
            && f.prev == At(order, i - 1) && f.next == At(order, i + 1)
            && (f.prev.Some? ==> f.prev.value < |frames| && f.prev.value != order[i])
            && (f.next.Some? ==> f.next.value < |frames| && f.next.value != order[i])
            && (f.prev.Some? && f.next.Some? ==> f.prev != f.next)
            && (f.prev.None? <==> head == Some(order[i]))
            && (f.next.None? <==> tail == Some(order[i]))
            && (f.prev.None? <==> i == 0) && (f.next.None? <==> i == |order| - 1)
  {
    assert LinkedAt(frames, order, i);
  }

  lemma UnlinkInside(frames: seq<Frame>, order: seq<nat>, head: Option<nat>, tail: Option<nat>, i: nat,
                     after: seq<Frame>, j: nat)
    requires Linked(frames, order, head, tail) && i < |order| && SplicedOut(frames, order[i], after)
    requires j < |order| - 1
    ensures LinkedAt(after, order[..i] + order[i + 1..], j)
  {
    var rest, k := order[..i] + order[i + 1..], if j < i then j else j + 1;
    assert rest[j] == order[k];
    assert LinkedAt(frames, order, i) && LinkedAt(frames, order, k);
    assert At(rest, j - 1) == if k - 1 == i then At(order, i - 1) else At(order, k - 1);
    assert At(rest, j + 1) == if k + 1 == i then At(order, i + 1) else At(order, k + 1);
    assert k - 1 != i ==> frames[order[i]].next != Some(order[k]);
    assert k + 1 != i ==> frames[order[i]].prev != Some(order[k]);
  }

  lemma UnlinkOutside(frames: seq<Frame>, order: seq<nat>, head: Option<nat>, tail: Option<nat>, i: nat,
                      after: seq<Frame>, f: nat)
    requires Linked(frames, order, head, tail) && i < |order| && SplicedOut(frames, order[i], after)
    requires f < |after| && f !in order[..i] + order[i + 1..]
    ensures after[f].prev.None? && after[f].next.None?
  {
    if f != order[i] {
      NeighboursOf(frames, order, head, tail, i);
      assert order == order[..i] + [order[i]] + order[i + 1..];
      assert f !in order;
    }
  }

  lemma UnlinkKeeps(frames: seq<Frame>, order: seq<nat>, head: Option<nat>, tail: Option<nat>, i: nat,
                    after: seq<Frame>, first: Option<nat>, last: Option<nat>)
    requires Linked(frames, order, head, tail) && i < |order| && SplicedOut(frames, order[i], after)
    requires first == if frames[order[i]].prev == None then frames[order[i]].next else head
    requires last == if frames[order[i]].next == None then frames[order[i]].prev else tail
    ensures Linked(after, order[..i] + order[i + 1..], first, last)
  {
    hide SplicedOut, LinkedAt;
    var rest := order[..i] + order[i + 1..];
    NeighboursOf(frames, order, head, tail, i);
    forall j | 0 <= j < |rest| ensures LinkedAt(after, rest, j) {
      UnlinkInside(frames, order, head, tail, i, after, j);
    }
    forall f: nat | f < |after| && f !in rest ensures after[f].prev.None? && after[f].next.None? {
      UnlinkOutside(frames, order, head, tail, i, after, f);
    }
    assert |after| == |frames| by { SplicedLength(frames, order[i], after); }
  }

  lemma SplicedLength(frames: seq<Frame>, f: nat, after: seq<Frame>)
    requires SplicedOut(frames, f, after)
    ensures |after| == |frames|
  {
  }

  lemma CoresLength(frames: seq<Frame>)
    ensures |Cores(frames)| == |frames|
  {
  }

  lemma CoresAt(frames: seq<Frame>, f: nat)
    requires f < |frames|
    ensures |Cores(frames)| == |frames| && Cores(frames)[f] == CoreOf(frames[f])
  {
  }

  lemma TailOf(frames: seq<Frame>, order: seq<nat>, head: Option<nat>, tail: Option<nat>)
    requires Linked(frames, order, head, tail)
    ensures tail == At(order, |order| - 1)
  {
  }

  lemma FreeUnlinked(s: State)
    requires Inv(s) && s.free != []
    ensures var f := s.free[|s.free| - 1];
            f < |s.cores| && f !in s.order && Without(s.order, f) == s.order
  {
    hide Recency, TableOk, IdleOk, HeldOk, FilesOk, PinsOk;
    PartitionPop(|s.cores|, s.order, s.free);
  }

  lemma TableBound(s: State, k: Key)
    requires Inv(s) && k in s.table
    ensures s.table[k] < |s.cores| == |s.stamp| && s.cores[s.table[k]].key == Some(k)
  {
  }

  lemma MatchingEvictable(s: State, file: FileId)
    requires Inv(s) && !PinnedOn(s.cores, file)
    ensures var ids := Matching(s.cores, file, None, |s.cores|);
            && Distinct(ids)
            && forall i :: 0 <= i < |ids| ==>
               ids[i] < |s.cores| && s.cores[ids[i]].key.Some? && s.cores[ids[i]].pins == 0
  {
    hide Inv;
    var ids := Matching(s.cores, file, None, |s.cores|);
    MatchingExact(s.cores, file, None, |s.cores|);
    forall i | 0 <= i < |ids| ensures ids[i] < |s.cores| && s.cores[ids[i]].key.Some? && s.cores[ids[i]].pins == 0 {
      assert ids[i] in ids;
    }
  }

  lemma EvictablePrefix(s: State, ids: seq<nat>, i: nat)
    requires Inv(s) && Distinct(ids) && i < |ids|
    requires forall j :: 0 <= j < |ids| ==> ids[j] < |s.cores| && s.cores[ids[j]].key.Some? && s.cores[ids[j]].pins == 0
    ensures FlushEvictAll(s, ids[..i]).Ok?
    ensures var t := FlushEvictAll(s, ids[..i]).value;
            Inv(t) && |t.cores| == |s.cores| && t.cores[ids[i]].key.Some? && t.cores[ids[i]].pins == 0
  {
    hide Inv;
    FlushEvictAllInv(s, ids[..i]);
    assert ids[i] !in ids[..i];
  }

  /** Frame f put before the old head. */
  function Headed(frames: seq<Frame>, head: Option<nat>, f: nat): seq<Frame>
    requires f < |frames| && (head.Some? ==> head.value < |frames|)
  {
    var a := frames[f := frames[f].(prev := None, next := head)];
    if head.Some? then a[head.value := a[head.value].(prev := Some(f))] else a
  }

  lemma LinkHeadKeeps(frames: seq<Frame>, order: seq<nat>, head: Option<nat>, tail: Option<nat>, f: nat)
    requires Linked(frames, order, head, tail) && f < |frames| && f !in order
    ensures head.Some? ==> head.value < |frames|
    ensures Linked(Headed(frames, head, f), [f] + order, Some(f), if head == None then Some(f) else tail)
    ensures Cores(Headed(frames, head, f)) == Cores(frames)
  {
    var more, after := [f] + order, Headed(frames, head, f);
    forall j | 0 <= j < |more| ensures LinkedAt(after, more, j) {
      if j > 0 {
        assert LinkedAt(frames, order, j - 1);
      }
    }
  }

  class BufferPool {
    var files: map<FileId, Store>
    var nextFileId: FileId
    var pageTable: map<Key, nat>
    var frames: seq<Frame>
    var freeList: seq<nat>
    var mruHead: Option<nat>
    var lruTail: Option<nat>
    ghost var order: seq<nat>
    ghost var stamp: seq<nat>
    ghost var clock: nat
    ghost var guards: multiset<Guard>

    ghost function S(): State
      reads this
    {
      State(files, nextFileId, pageTable, Cores(frames), freeList, order, stamp, clock, guards)
    }

    ghost predicate Listed()
      reads this
    {
      Linked(frames, order, mruHead, lruTail)
    }

    ghost predicate Valid()
      reads this
    {
      Listed() && Inv(S())
    }

    constructor (capacity: nat)
      ensures Valid() && S() == NewPool(capacity)
    {
      files, nextFileId, pageTable := map[], 0, map[];
      frames := seq(capacity, _ => Frame(None, Zeros(PAGE_DATA_SIZE), false, 0, None, None));
      freeList := seq(capacity, i requires 0 <= i < capacity => capacity - 1 - i);
      mruHead, lruTail := None, None;
      order, stamp, clock, guards := [], seq(capacity, _ => 0), 0, multiset{};
      new;
      assert Cores(frames) == NewPool(capacity).cores;
    }

    // ---- the list

    method Unlink(f: nat)
      requires Listed() && f < |frames|
      modifies this`frames, this`mruHead, this`lruTail, this`order
      ensures Listed() && |frames| == old(|frames|)
      ensures S() == old(S()).(order := Without(old(order), f))
    {
      hide Linked, Cores, Without, SplicedOut;
      ghost var before := frames;
      var prev, next := frames[f].prev, frames[f].next;
      ghost var i := PlaceOf(f);
      JoinedSplices(frames, f);
      if prev.Some? {
        frames := frames[prev.value := frames[prev.value].(next := next)];
      } else if mruHead == Some(f) {
        mruHead := next;
      }
      if next.Some? {
        frames := frames[next.value := frames[next.value].(prev := prev)];
      } else if lruTail == Some(f) {
        lruTail := prev;
      }
      frames := frames[f := frames[f].(prev := None, next := None)];
      assert frames == Joined(before, prev, next, f);
      if 0 <= i {
        UnlinkKeeps(before, order, old(mruHead), old(lruTail), i, frames, mruHead, lruTail);
        order := order[..i] + order[i + 1..];
      } else {
        assert frames == before;
      }
    }

    /** Where f is in the list, or -1, with what its neighbours are. */
    ghost method PlaceOf(f: nat) returns (i: int)
      requires Listed() && f < |frames|
      ensures -1 <= i < |order|
      ensures i >= 0 ==> order[i] == f && Without(order, f) == order[..i] + order[i + 1..]
      ensures i < 0 ==> f !in order && Without(order, f) == order
      ensures var prev, next := frames[f].prev, frames[f].next;
              && (prev.Some? ==> prev.value < |frames| && prev.value != f)
              && (next.Some? ==> next.value < |frames| && next.value != f)
              && (prev.Some? && next.Some? ==> prev != next)
              && (i < 0 ==> prev.None? && next.None? && mruHead != Some(f) && lruTail != Some(f))
              && (i >= 0 ==> (prev.None? <==> mruHead == Some(f)) && (next.None? <==> lruTail == Some(f)))
    {
      if f in order {
        i :| 0 <= i < |order| && order[i] == f;
        NeighboursOf(frames, order, mruHead, lruTail, i);
        WithoutAt(order, i);
      } else {
        i := -1;
        WithoutAbsent(order, f);
      }
    }

    method LinkHead(f: nat)
      requires Listed() && f < |frames| && f !in order && f < |stamp|
      modifies this`frames, this`mruHead, this`lruTail, this`order, this`stamp, this`clock
      ensures Listed()
      ensures S() == old(S()).(order := [f] + old(order), stamp := old(stamp)[f := old(clock)], clock := old(clock) + 1)
    {
      hide Cores, Linked;
      ghost var before := frames;
      LinkHeadKeeps(frames, order, mruHead, lruTail, f);
      frames := frames[f := frames[f].(prev := None, next := mruHead)];
      if mruHead.Some? {
        frames := frames[mruHead.value := frames[mruHead.value].(prev := Some(f))];
      } else {
        lruTail := Some(f);
      }
      assert frames == Headed(before, mruHead, f);
      mruHead := Some(f);
      order := [f] + order;
      stamp, clock := stamp[f := clock], clock + 1;
    }

    method Touch(f: nat)
      requires Listed() && f < |frames| && f < |stamp|
      modifies this`frames, this`mruHead, this`lruTail, this`order, this`stamp, this`clock
      ensures Listed() && S() == Touched(old(S()), f)
    {
      WithoutIn(order, f, f);
      Unlink(f);
      LinkHead(f);
    }

    // ---- frames

    method FlushFrameIfDirty(f: nat) returns (r: Result<(), PoolError>)
      requires Listed() && f < |frames|
      modifies this`frames, this`files
      ensures Listed() && |frames| == old(|frames|)
      ensures match Flushed(old(S()), f)
              case Ok(t) => r == Ok(()) && S() == t
              case Err(e) => r == Err(e) && S() == old(S())
    {
      hide Linked, Cores;
      CoresAt(frames, f);
      if !frames[f].dirty {
        return Ok(());
      }
      if frames[f].key.None? {
        return Err(PoolCorrupted);
      }
      var key, data := frames[f].key.value, frames[f].data;
      if key.file !in files {
        return Err(UnknownFile(key.file));
      }
      var page := Write(files[key.file], key.page, data);
      if page.Err? {
        return Err(PageStoreFailure(page.error));
      }
      files := files[key.file := PageStore.Flush(page.value)];
      UpdateFrame(frames, order, mruHead, lruTail, f, frames[f].(dirty := false));
      frames := frames[f := frames[f].(dirty := false)];
      return Ok(());
    }

    method RecycleFrame(f: nat) returns (r: Result<(), PoolError>)
      requires Listed() && f < |frames|
      modifies this`frames, this`pageTable, this`mruHead, this`lruTail, this`order
      ensures Listed() && |frames| == old(|frames|)
      ensures match Recycled(old(S()), f)
              case Ok(t) => r == Ok(()) && S() == t
              case Err(e) => r == Err(e) && S() == old(S())
    {
      hide Linked, Cores, Without;
      CoresAt(frames, f);
      if frames[f].pins != 0 {
        return Err(PoolCorrupted);
      }
      if frames[f].key.Some? {
        pageTable := pageTable - {frames[f].key.value};
      }
      UpdateFrame(frames, order, mruHead, lruTail, f, frames[f].(key := None, dirty := false));
      frames := frames[f := frames[f].(key := None, dirty := false)];
      Unlink(f);
      return Ok(());
    }

    method EvictFrame(f: nat) returns (r: Result<(), PoolError>)
      requires Listed() && f < |frames|
      modifies this`frames, this`pageTable, this`mruHead, this`lruTail, this`order, this`freeList
      ensures Listed()
      ensures match Evicted(old(S()), f)
              case Ok(t) => r == Ok(()) && S() == t
              case Err(e) => r == Err(e) && S() == old(S())
    {
      hide Linked, Cores, Without;
      CoresAt(frames, f);
      if frames[f].pins != 0 {
        return Err(PoolCorrupted);
      }
      var recycled := RecycleFrame(f);
      assert recycled.Ok?;
      freeList := freeList + [f];
      return Ok(());
    }

    /** Pops a free frame, or walks the list backwards from the least recently used frame to the first
        one that is not pinned, flushes it and takes it over. */
    method AcquireFrame() returns (r: Result<nat, PoolError>)
      requires Valid()
      modifies this`frames, this`files, this`pageTable, this`mruHead, this`lruTail, this`order, this`freeList,
                this`stamp, this`clock
      ensures Valid()
      ensures match Acquired(old(S()))
              case Ok(a) => r == Ok(a.1) && S() == a.0
              case Err(e) => r == Err(e) && S() == old(S())
    {
      hide Linked, Cores, Partition, Recency, TableOk, IdleOk, HeldOk, FilesOk, PinsOk, Flushed, Recycled, Without;
      if freeList != [] {
        AcquiredInv(S());
        var f := freeList[|freeList| - 1];
        FreeUnlinked(S());
        freeList := freeList[..|freeList| - 1];
        LinkHead(f);
        return Ok(f);
      }
      var candidate := lruTail;
      ghost var i := |order| - 1;
      TailOf(frames, order, mruHead, lruTail);
      assert order[..i + 1] == order;
      while candidate.Some?
        invariant Listed() && S() == old(S())
        invariant -1 <= i < |order| && candidate == At(order, i)
        invariant Victim(Cores(frames), order) == Victim(Cores(frames), order[..i + 1])
        decreases i
      {
        var f := candidate.value;
        NeighboursOf(frames, order, mruHead, lruTail, i);
        CoresAt(frames, f);
        assert order[..i + 1][..i] == order[..i];
        if frames[f].pins == 0 {
          TakeOver(f);
          return Ok(f);
        }
        candidate := frames[f].prev;
        i := i - 1;
      }
      return Err(NoFrameAvailable);
    }

    /** The victim branch of AcquireFrame; neither the flush nor the recycling can fail. */
    method TakeOver(f: nat)
      requires Valid() && freeList == [] && Victim(Cores(frames), order) == Some(f) && f < |frames|
      modifies this`frames, this`files, this`pageTable, this`mruHead, this`lruTail, this`order, this`stamp, this`clock
      ensures Valid() && Acquired(old(S())) == Ok((S(), f))
    {
      hide Linked, Cores, Partition, Recency, TableOk, IdleOk, HeldOk, FilesOk, PinsOk, Without, Flushed, Recycled;
      VictimIsLeastRecent(S(), f);
      FlushedFiles(S(), f);
      FlushedInv(S(), f);
      var flushed := FlushFrameIfDirty(f);
      assert flushed.Ok?;
      RecycledParts(S(), f);
      var recycled := RecycleFrame(f);
      assert recycled.Ok?;
      Touch(f);
      AcquiredInv(old(S()));
    }

    method InstallFrame(f: nat, key: Key, data: Data, dirty: bool) returns (r: Result<(), PoolError>)
      requires Listed() && f < |frames| == |stamp|
      modifies this`frames, this`pageTable, this`mruHead, this`lruTail, this`order, this`stamp, this`clock, this`guards
      ensures Listed()
      ensures match Installed(old(S()), f, key, data, dirty)
              case Ok(t) => r == Ok(()) && S() == t
              case Err(e) => r == Err(e) && S() == old(S())
    {
      hide Linked, Cores, Without;
      if key in pageTable {
        return Err(PoolCorrupted);
      }
      var frame := frames[f].(key := Some(key), data := data, dirty := dirty, pins := 1);
      UpdateFrame(frames, order, mruHead, lruTail, f, frame);
      frames := frames[f := frame];
      pageTable := pageTable[key := f];
      guards := guards + multiset{Guard(f, key, dirty)};
      Touch(f);
      return Ok(());
    }

    /** One more guard on a cached page; for a write guard the caller marks the frame dirty. */
    method PinFrame(f: nat, ghost key: Key, ghost write: bool)
      requires Listed() && f < |frames| == |stamp|
      modifies this`frames, this`mruHead, this`lruTail, this`order, this`stamp, this`clock, this`guards
      ensures Listed()
      ensures S() == Pinned(old(S()), f, key, write).(cores := Pinned(old(S()), f, key, false).cores)
    {
      hide Linked, Cores, Without;
      CoresAt(frames, f);
      UpdateFrame(frames, order, mruHead, lruTail, f, frames[f].(pins := frames[f].pins + 1));
      frames := frames[f := frames[f].(pins := frames[f].pins + 1)];
      guards := guards + multiset{Guard(f, key, write)};
      Touch(f);
    }

    method UnpinFrame(f: nat, ghost g: Guard)
      requires Listed() && f == g.frame < |frames| == |stamp|
      modifies this`frames, this`mruHead, this`lruTail, this`order, this`stamp, this`clock, this`guards
      ensures Listed() && S() == Unpinned(old(S()), g)
    {
      hide Linked, Cores, Without;
      CoresAt(frames, f);
      guards := guards - multiset{g};
      if frames[f].pins == 0 {
        return;
      }
      UpdateFrame(frames, order, mruHead, lruTail, f, frames[f].(pins := frames[f].pins - 1));
      frames := frames[f := frames[f].(pins := frames[f].pins - 1)];
      if frames[f].pins == 0 {
        Touch(f);
      }
    }

    // ---- calls

    method RegisterFile(file: Store) returns (r: Result<FileId, PoolError>)
      requires Valid() && PageStore.Valid(file)
      modifies this`files, this`nextFileId
      ensures Valid() && (S(), r) == PoolSteps.RegisterFile(old(S()), file)
    {
      hide Linked, Cores, Inv, PageStore.Valid;
      RegisterInv(S(), file);
      if nextFileId == 0xFFFF_FFFF {
        return Err(PoolCorrupted);
      }
      var fileId := nextFileId;
      nextFileId := nextFileId + 1;
      files := files[fileId := file];
      return Ok(fileId);
    }

    method ReadPageData(key: Key) returns (r: Result<Data, PoolError>)
      ensures r == PageData(files, key)
    {
      if key.file !in files {
        return Err(UnknownFile(key.file));
      }
      var page := Read(files[key.file], key.page);
      if page.Err? {
        return Err(PageStoreFailure(page.error));
      }
      return Ok(page.value);
    }

    method GetPage(key: Key) returns (r: Result<Guard, PoolError>)
      requires Valid()
      modifies this
      ensures Valid() && (S(), r) == PoolSteps.GetPage(old(S()), key, false)
    {
      hide Linked, Cores, Partition, Recency, TableOk, IdleOk, HeldOk, FilesOk, PinsOk, Acquired, Installed, PageData;
      GetPageInv(S(), key, false);
      if key in pageTable {
        TableBound(S(), key);
        var f := pageTable[key];
        PinFrame(f, key, false);
        return Ok(Guard(f, key, false));
      }
      if Acquired(S()).Ok? {
        AcquiredInv(S());
      }
      var f :- AcquireFrame();
      var data :- ReadPageData(key);
      var _ :- InstallFrame(f, key, data, false);
      return Ok(Guard(f, key, false));
    }

    method GetPageMut(key: Key) returns (r: Result<Guard, PoolError>)
      requires Valid()
      modifies this
      ensures Valid() && (S(), r) == PoolSteps.GetPage(old(S()), key, true)
    {
      hide Linked, Cores, Partition, Recency, TableOk, IdleOk, HeldOk, FilesOk, PinsOk, Acquired, Installed, PageData;
      GetPageInv(S(), key, true);
      if key in pageTable {
        TableBound(S(), key);
        var f := pageTable[key];
        PinFrame(f, key, true);
        CoresAt(frames, f);
        UpdateFrame(frames, order, mruHead, lruTail, f, frames[f].(dirty := true));
        frames := frames[f := frames[f].(dirty := true)];
        assert Cores(frames) == Pinned(old(S()), f, key, true).cores;
        return Ok(Guard(f, key, true));
      }
      if Acquired(S()).Ok? {
        AcquiredInv(S());
      }
      var f :- AcquireFrame();
      var data :- ReadPageData(key);
      var _ :- InstallFrame(f, key, data, true);
      return Ok(Guard(f, key, true));
    }

    method AllocatePage(file: FileId) returns (r: Result<Guard, PoolError>)
      requires Valid()
      modifies this
      ensures Valid() && (S(), r) == PoolSteps.AllocatePage(old(S()), file)
    {
      hide Linked, Cores, Partition, Recency, TableOk, IdleOk, HeldOk, FilesOk, PinsOk, Acquired, Installed, Allocate;
      AllocatePageInv(S(), file);
      if Acquired(S()).Ok? {
        AcquiredInv(S());
      }
      var f :- AcquireFrame();
      var page :- AllocatePageId(file);
      var key := Key(file, page);
      var _ :- InstallFrame(f, key, Zeros(PAGE_DATA_SIZE), true);
      return Ok(Guard(f, key, true));
    }

    method AllocatePageId(file: FileId) returns (r: Result<PageId, PoolError>)
      modifies this`files
      ensures if file !in old(files) then r == Err(UnknownFile(file)) && files == old(files)
              else match Allocate(old(files)[file])
                case Err(e) => r == Err(PageStoreFailure(e)) && files == old(files)
                case Ok(a) => r == Ok(a.1) && files == old(files)[file := a.0]
    {
      hide Allocate;
      if file !in files {
        return Err(UnknownFile(file));
      }
      var page := Allocate(files[file]);
      if page.Err? {
        return Err(PageStoreFailure(page.error));
      }
      files := files[file := page.value.0];
      return Ok(page.value.1);
    }

    /** Reading through a live guard shows what every reader of that key sees. */
    method ReadGuard(g: Guard) returns (d: Data)
      requires Valid() && g in guards
      ensures Some(d) == ViewAt(S(), g.key)
    {
      GuardedFrame(S(), g);
      d := frames[g.frame].data;
    }

    method WriteGuard(g: Guard, d: Data)
      requires Valid() && g in guards && g.write
      modifies this`frames
      ensures Valid() && S() == Next(old(S()), Fill(g, d))
    {
      hide Linked, Cores, Partition, Recency, TableOk, IdleOk, HeldOk, FilesOk, PinsOk;
      GuardedFrame(S(), g);
      FillInv(S(), g, d);
      CoresAt(frames, g.frame);
      UpdateFrame(frames, order, mruHead, lruTail, g.frame, frames[g.frame].(data := d));
      frames := frames[g.frame := frames[g.frame].(data := d)];
    }

    method DropGuard(g: Guard)
      requires Valid() && g in guards
      modifies this
      ensures Valid() && S() == Next(old(S()), PoolRuns.Drop(g))
    {
      hide Linked, Cores, Partition, Recency, TableOk, IdleOk, HeldOk, FilesOk, PinsOk, Unpinned;
      GuardedFrame(S(), g);
      UnpinnedInv(S(), g);
      UnpinFrame(g.frame, g);
    }

    method ForceFile(file: FileId, page: Option<PageId>) returns (r: Result<(), PoolError>)
      requires Valid()
      modifies this`frames, this`files
      ensures Valid() && (S(), r) == PoolSteps.ForceFile(old(S()), file, page)
    {
      hide Linked, Cores, Inv, FlushAll;
      ForceInv(S(), file, page);
      if file !in files {
        return Err(UnknownFile(file));
      }
      CoresLength(frames);
      var matching := Matching(Cores(frames), file, page, |frames|);
      FlushFrames(matching);
      files := files[file := PageStore.Flush(files[file])];
      return Ok(());
    }

    /** The loop of ForceFile; no flush in it can fail. */
    method FlushFrames(matching: seq<nat>)
      requires Valid() && forall i :: 0 <= i < |matching| ==> matching[i] < |S().cores|
      modifies this`frames, this`files
      ensures Listed() && FlushAll(old(S()), matching) == Ok(S()) && files.Keys == old(files.Keys)
    {
      hide Linked, Cores, Inv, Flushed;
      ghost var s := S();
      assert matching[..|matching|] == matching;
      for i := 0 to |matching|
        invariant Listed() && FlushAll(s, matching[..i]) == Ok(S()) && files.Keys == s.files.Keys
      {
        assert matching[..i + 1][..i] == matching[..i];
        FlushAllInv(s, matching[..i]);
        FlushedFiles(S(), matching[i]);
        CoresLength(frames);
        var flushed := FlushFrameIfDirty(matching[i]);
        assert flushed.Ok?;
      }
    }

    method FlushFile(file: FileId) returns (r: Result<(), PoolError>)
      requires Valid()
      modifies this
      ensures Valid() && (S(), r) == PoolSteps.FlushFile(old(S()), file)
    {
      hide Linked, Cores, Inv, FlushEvictAll, PinnedOn;
      FlushFileInv(S(), file);
      if file !in files {
        return Err(UnknownFile(file));
      }
      if PinnedOn(Cores(frames), file) {
        return Err(FileHasPinnedPages(file));
      }
      CoresLength(frames);
      var matching := Matching(Cores(frames), file, None, |frames|);
      MatchingEvictable(S(), file);
      FlushAndEvictFrames(matching);
      files := files[file := PageStore.Flush(files[file])];
      return Ok(());
    }

    /** The loop of FlushFile. */
    method FlushAndEvictFrames(matching: seq<nat>)
      requires Valid() && Distinct(matching)
      requires forall i :: 0 <= i < |matching| ==>
                 matching[i] < |S().cores| && S().cores[matching[i]].key.Some? && S().cores[matching[i]].pins == 0
      modifies this`frames, this`files, this`pageTable, this`mruHead, this`lruTail, this`order, this`freeList
      ensures Listed() && FlushEvictAll(old(S()), matching) == Ok(S()) && files.Keys == old(files.Keys)
    {
      hide Linked, Cores, Inv, Flushed, Evicted;
      ghost var s := S();
      assert matching[..|matching|] == matching;
      for i := 0 to |matching|
        invariant Listed() && FlushEvictAll(s, matching[..i]) == Ok(S()) && files.Keys == s.files.Keys
      {
        assert matching[..i + 1][..i] == matching[..i];
        EvictablePrefix(s, matching, i);
        CoresLength(frames);
        FlushAndEvict(matching[i]);
      }
    }

    /** The loop body of FlushFile: on an unpinned cached frame neither step can fail. */
    method FlushAndEvict(f: nat)
      requires Valid() && f < |S().cores| && S().cores[f].key.Some? && S().cores[f].pins == 0
      modifies this`frames, this`files, this`pageTable, this`mruHead, this`lruTail, this`order, this`freeList
      ensures Listed() && files.Keys == old(files.Keys)
      ensures Flushed(old(S()), f).Ok? && f < |Flushed(old(S()), f).value.cores|
      ensures Evicted(Flushed(old(S()), f).value, f) == Ok(S())
    {
      hide Linked, Cores, Inv, Flushed, Evicted;
      FlushEvictInv(S(), f);
      FlushedFiles(S(), f);
      var flushed := FlushFrameIfDirty(f);
      assert flushed.Ok?;
      var evicted := EvictFrame(f);
      assert evicted.Ok?;
    }

    method RemoveFile(file: FileId) returns (r: Result<Store, PoolError>)
      requires Valid()
      modifies this
      ensures Valid() && (S(), r) == PoolSteps.RemoveFile(old(S()), file)
    {
      hide Linked, Cores, Inv, PoolSteps.FlushFile;
      RemoveFileInv(S(), file);
      var _ :- FlushFile(file);
      if file !in files {
        return Err(UnknownFile(file));
      }
      var store := files[file];
      files := files - {file};
      return Ok(store);
    }
  }
}
