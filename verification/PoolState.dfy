/** The buffer pool as a state machine: one step per locked call, guard write and guard drop. */
module PoolStates {
  import opened Outcomes
  import opened Bytes
  import opened PageStore

  type FileId = u32

  datatype Key = Key(file: FileId, page: PageId)

  datatype PoolError =
    | PageStoreFailure(error: PageStoreError)
    | UnknownFile(file: FileId)
    | FileHasPinnedPages(file: FileId)
    | NoFrameAvailable
    | PoolCorrupted

  /** A frame without its links. */
  datatype Core = Core(key: Option<Key>, data: Data, dirty: bool, pins: nat)

  /** A live page guard handed out by the pool. */
  datatype Guard = Guard(frame: nat, key: Key, write: bool)

  /** `order` lists the linked frames from most to least recently touched; `stamp` is the time of a
      frame's last touch; `guards` are the guards that are live. */
  datatype State = State(
    files: map<FileId, Store>,
    nextFile: u32,
    table: map<Key, nat>,
    cores: seq<Core>,
    free: seq<nat>,
    order: seq<nat>,
    stamp: seq<nat>,
    clock: nat,
    guards: multiset<Guard>)

  // ---- the invariant

  ghost predicate Partition(n: nat, order: seq<nat>, free: seq<nat>) {
    && Distinct(order) && Distinct(free)
    && (forall f :: f in order ==> f < n && f !in free)
    && (forall f :: f in free ==> f < n)
    && (forall f: nat :: f < n ==> f in order || f in free)
  }

  ghost predicate Recency(order: seq<nat>, stamp: seq<nat>, clock: nat) {
    && (forall i :: 0 <= i < |order| ==> order[i] < |stamp| && stamp[order[i]] < clock)
    && (forall i, j :: 0 <= i < j < |order| ==> stamp[order[i]] > stamp[order[j]])
  }

  /** The page table is the inverse of the frames' keys. */
  ghost predicate TableOk(cores: seq<Core>, table: map<Key, nat>) {
    && (forall k :: k in table ==> table[k] < |cores| && cores[table[k]].key == Some(k))
    && (forall f :: 0 <= f < |cores| && cores[f].key.Some? ==>
          cores[f].key.value in table && table[cores[f].key.value] == f)
  }

  ghost predicate IdleOk(cores: seq<Core>, free: seq<nat>) {
    && (forall f :: f in free ==> f < |cores| && cores[f].key.None?)
    && (forall f :: 0 <= f < |cores| && cores[f].key.None? ==> !cores[f].dirty && cores[f].pins == 0)
  }

  predicate Stored(files: map<FileId, Store>, k: Key) {
    k.file in files && k.page in files[k.file].data
  }

  ghost predicate HeldOk(cores: seq<Core>, files: map<FileId, Store>) {
    forall f :: 0 <= f < |cores| && cores[f].key.Some? ==> Stored(files, cores[f].key.value)
  }

  ghost predicate FilesOk(files: map<FileId, Store>, nextFile: u32) {
    forall id :: id in files ==> id < nextFile && Valid(files[id])
  }

  /** Every pin count is the number of live guards on the frame, and a guarded frame keeps the key. */
  ghost predicate PinsOk(cores: seq<Core>, guards: multiset<Guard>) {
    && (forall g :: g in guards ==> g.frame < |cores| && cores[g.frame].key == Some(g.key))
    && (forall f :: 0 <= f < |cores| && cores[f].key.Some? ==>
          cores[f].pins == GuardsOn(guards, f, cores[f].key.value))
  }

  function GuardsOn(guards: multiset<Guard>, f: nat, k: Key): nat {
    guards[Guard(f, k, true)] + guards[Guard(f, k, false)]
  }

  predicate Framed(s: State) {
    |s.stamp| == |s.cores| && forall i :: 0 <= i < |s.free| ==> s.free[i] < |s.cores|
  }

  ghost predicate Inv(s: State) {
    && Framed(s)
    && Partition(|s.cores|, s.order, s.free)
    && Recency(s.order, s.stamp, s.clock)
    && TableOk(s.cores, s.table)
    && IdleOk(s.cores, s.free)
    && HeldOk(s.cores, s.files)
    && FilesOk(s.files, s.nextFile)
    && PinsOk(s.cores, s.guards)
  }

  // ---- what readers see

  function StoredAt(files: map<FileId, Store>, k: Key): Option<Data> {
    if Stored(files, k) then Some(files[k.file].data[k.page]) else None
  }

  function ViewAt(s: State, k: Key): Option<Data> {
    if k in s.table && s.table[k] < |s.cores| then Some(s.cores[s.table[k]].data)
    else StoredAt(s.files, k)
  }

  /** A frame whose loss would not be noticed unless it is flushed first. */
  predicate CoreCoherent(c: Core, files: map<FileId, Store>) {
    c.key.Some? && !c.dirty ==> StoredAt(files, c.key.value) == Some(c.data)
  }

  ghost predicate Coherent(s: State) {
    forall f :: 0 <= f < |s.cores| ==> CoreCoherent(s.cores[f], s.files)
  }

  // ---- the LRU list

  function Without(s: seq<nat>, f: nat): seq<nat> {
    if s == [] then [] else if s[0] == f then Without(s[1..], f) else [s[0]] + Without(s[1..], f)
  }

  lemma {:induction false} WithoutAbsent(s: seq<nat>, f: nat)
    requires f !in s
    ensures Without(s, f) == s
  {
    if s == [] {
    } else {
      WithoutAbsent(s[1..], f);
      assert s == [s[0]] + s[1..];
    }
  }

  lemma {:induction false} WithoutAt(s: seq<nat>, i: nat)
    requires Distinct(s) && i < |s|
    ensures Without(s, s[i]) == s[..i] + s[i + 1..]
  {
    if i == 0 {
      WithoutAbsent(s[1..], s[0]);
      assert s[..0] + s[1..] == s[1..];
    } else {
      var t := s[1..];
      assert t[i - 1] == s[i];
      WithoutAt(t, i - 1);
      assert [s[0]] + (t[..i - 1] + t[i..]) == s[..i] + s[i + 1..];
    }
  }

  lemma {:induction false} WithoutIn(s: seq<nat>, f: nat, g: nat)
    ensures g in Without(s, f) <==> g in s && g != f
  {
    if s == [] {
    } else {
      WithoutIn(s[1..], f, g);
    }
  }

  lemma WithoutDistinct(s: seq<nat>, f: nat)
    requires Distinct(s)
    ensures Distinct(Without(s, f))
  {
    if f in s {
      var i :| 0 <= i < |s| && s[i] == f;
      WithoutAt(s, i);
    } else {
      WithoutAbsent(s, f);
    }
  }

  lemma WithoutRecency(s: seq<nat>, f: nat, stamp: seq<nat>, clock: nat)
    requires Distinct(s) && Recency(s, stamp, clock)
    ensures Recency(Without(s, f), stamp, clock)
  {
    if f in s {
      var i :| 0 <= i < |s| && s[i] == f;
      WithoutAt(s, i);
    } else {
      WithoutAbsent(s, f);
    }
  }

  // ---- building blocks of the steps

  function Touched(s: State, f: nat): State
    requires f < |s.stamp|
  {
    s.(order := [f] + Without(s.order, f), stamp := s.stamp[f := s.clock], clock := s.clock + 1)
  }

  function Flushed(s: State, f: nat): Result<State, PoolError>
    requires f < |s.cores|
  {
    var c := s.cores[f];
    if !c.dirty then Ok(s)
    else if c.key.None? then Err(PoolCorrupted)
    else
      var k := c.key.value;
      if k.file !in s.files then Err(UnknownFile(k.file))
      else match Write(s.files[k.file], k.page, c.data)
        case Err(e) => Err(PageStoreFailure(e))
        case Ok(t) => Ok(s.(files := s.files[k.file := PageStore.Flush(t)], cores := s.cores[f := c.(dirty := false)]))
  }

  /** The frame loses its key and leaves the LRU list. */
  function Recycled(s: State, f: nat): Result<State, PoolError>
    requires f < |s.cores|
  {
    var c := s.cores[f];
    if c.pins != 0 then Err(PoolCorrupted)
    else Ok(s.(table := if c.key.Some? then s.table - {c.key.value} else s.table,
               cores := s.cores[f := c.(key := None, dirty := false)],
               order := Without(s.order, f)))
  }

  function Evicted(s: State, f: nat): Result<State, PoolError>
    requires f < |s.cores|
  {
    var t :- Recycled(s, f);
    Ok(t.(free := t.free + [f]))
  }

  /** The least recently touched unpinned frame. */
  function Victim(cores: seq<Core>, order: seq<nat>): Option<nat> {
    if order == [] then None
    else
      var f := order[|order| - 1];
      if f < |cores| && cores[f].pins == 0 then Some(f) else Victim(cores, order[..|order| - 1])
  }

  function Acquired(s: State): Result<(State, nat), PoolError>
    requires Framed(s)
  {
    if s.free != [] then
      var f := s.free[|s.free| - 1];
      Ok((Touched(s.(free := s.free[..|s.free| - 1]), f), f))
    else match Victim(s.cores, s.order)
      case None => Err(NoFrameAvailable)
      case Some(f) =>
        VictimBound(s.cores, s.order);
        var t :- Flushed(s, f);
        var u :- Recycled(t, f);
        Ok((Touched(u, f), f))
  }

  lemma VictimBound(cores: seq<Core>, order: seq<nat>)
    ensures Victim(cores, order).Some? ==> Victim(cores, order).value < |cores|
  {
  }

  /** The key whose frame would be given up without a flush by the next acquisition. */
  function DroppedKey(s: State): Option<Key> {
    if s.free != [] then None
    else match Victim(s.cores, s.order)
      case None => None
      case Some(f) => if f < |s.cores| && !s.cores[f].dirty then s.cores[f].key else None
  }

  /** Binding an acquired frame to a key, with the first guard on it. */
  function Installed(s: State, f: nat, k: Key, d: Data, dirty: bool): Result<State, PoolError>
    requires f < |s.cores| == |s.stamp|
  {
    if k in s.table then Err(PoolCorrupted)
    else Ok(Touched(s.(cores := s.cores[f := Core(Some(k), d, dirty, 1)],
                       table := s.table[k := f],
                       guards := s.guards + multiset{Guard(f, k, dirty)}), f))
  }

  /** One more guard on the frame; a write guard marks it dirty. */
  function Pinned(s: State, f: nat, k: Key, write: bool): State
    requires f < |s.cores| == |s.stamp|
  {
    var c := s.cores[f];
    Touched(s.(cores := s.cores[f := c.(pins := c.pins + 1, dirty := c.dirty || write)],
               guards := s.guards + multiset{Guard(f, k, write)}), f)
  }

  function Unpinned(s: State, g: Guard): State
    requires g.frame < |s.cores| == |s.stamp|
  {
    var c := s.cores[g.frame];
    var t := s.(guards := s.guards - multiset{g});
    if c.pins == 0 then t
    else
      var u := t.(cores := s.cores[g.frame := c.(pins := c.pins - 1)]);
      if c.pins == 1 then Touched(u, g.frame) else u
  }
}
