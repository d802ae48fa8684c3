/** Which page the pool gives up, in terms of the calls: the one whose last use lies furthest back. */
module PoolRecency {
  import opened Outcomes
  import opened PageStore
  import opened PoolStates
  import opened PoolInvariants
  import opened PoolSteps
  import opened PoolRuns

  /** No other live guard is on the page. */
  ghost predicate LastGuard(s: State, g: Guard) {
    forall h :: h in s.guards - multiset{g} ==> h.key != g.key
  }

  /** A page is used when it is fetched or allocated and when the last guard on it is dropped. */
  ghost predicate Uses(s: State, c: Call, k: Key)
    requires Inv(s) && Possible(s, c)
  {
    match c
    case Get(q, write) => q == k && GetPage(s, q, write).1.Ok?
    case Grow(file) => AllocatePage(s, file).1.Ok? && AllocatePage(s, file).1.value.key == k
    case Drop(g) => g.key == k && LastGuard(s, g)
    case _ => false
  }

  /** The time of the last touch of the frame that holds the page. */
  function StampOf(s: State, k: Key): nat
    requires k in s.table && s.table[k] < |s.stamp|
  {
    s.stamp[s.table[k]]
  }

  predicate TableInside(s: State) {
    forall k :: k in s.table ==> s.table[k] < |s.stamp|
  }

  /** Pages cached in t, but k, were cached in s, in the same frame touched at the same time. */
  predicate KeptBut(s: State, t: State, k: Option<Key>) {
    && TableInside(s) && TableInside(t)
    && forall j :: j in t.table && k != Some(j) ==>
         j in s.table && t.table[j] == s.table[j] && StampOf(t, j) == StampOf(s, j)
  }

  /** The page was touched last of all. */
  predicate TouchedLast(t: State, k: Key) {
    k in t.table && t.table[k] < |t.stamp| && StampOf(t, k) + 1 == t.clock
  }

  lemma InvInside(s: State)
    requires Inv(s)
    ensures TableInside(s)
  {
    hide Partition, Recency, IdleOk, HeldOk, FilesOk, PinsOk;
  }

  lemma LastIsLatest(t: State, k: Key)
    requires Inv(t) && TouchedLast(t, k)
    ensures TableInside(t) && forall j :: j in t.table && j != k ==> StampOf(t, j) < StampOf(t, k)
  {
    hide HeldOk, FilesOk, PinsOk;
    InvInside(t);
    forall j | j in t.table && j != k ensures StampOf(t, j) < StampOf(t, k) {
      assert t.table[j] in t.order && t.table[k] in t.order;
      var a :| 0 <= a < |t.order| && t.order[a] == t.table[j];
      var b :| 0 <= b < |t.order| && t.order[b] == t.table[k];
      assert t.table[j] != t.table[k];
      assert a != b;
    }
  }

  // ---- the calls

  lemma AcquiredKept(s: State)
    requires Inv(s) && Acquired(s).Ok?
    ensures KeptBut(s, Acquired(s).value.0, None)
    ensures var (t, f) := Acquired(s).value; f < |t.cores| == |t.stamp| && forall j :: j in t.table ==> t.table[j] != f
  {
    hide Partition, Recency, IdleOk, HeldOk, FilesOk, PinsOk, Without, Flushed;
    InvInside(s);
    AcquiredInv(s);
    var (t, f) := Acquired(s).value;
    InvInside(t);
    if s.free == [] {
      VictimIsLeastRecent(s, f);
      FlushedFiles(s, f);
    }
  }

  lemma PinnedUses(s: State, k: Key, write: bool)
    requires TableInside(s) && k in s.table && s.table[k] < |s.cores| == |s.stamp|
    requires forall j :: j in s.table && j != k ==> s.table[j] != s.table[k]
    ensures var t := Pinned(s, s.table[k], k, write); KeptBut(s, t, Some(k)) && TouchedLast(t, k)
  {
    hide Without;
  }

  lemma InstalledUses(s: State, f: nat, k: Key, d: Data, dirty: bool)
    requires TableInside(s) && f < |s.cores| == |s.stamp| && forall j :: j in s.table ==> s.table[j] != f
    ensures var r := Installed(s, f, k, d, dirty); r.Ok? ==> KeptBut(s, r.value, Some(k)) && TouchedLast(r.value, k)
  {
    hide Without;
  }

  lemma KeptAlso(s: State, t: State, u: State, k: Option<Key>)
    requires KeptBut(s, t, None) && KeptBut(t, u, k)
    ensures KeptBut(s, u, k)
  {
  }

  lemma GetUses(s: State, k: Key, write: bool)
    requires Inv(s)
    ensures var (t, r) := GetPage(s, k, write);
            KeptBut(s, t, if r.Ok? then Some(k) else None) && (r.Ok? ==> TouchedLast(t, k))
  {
    hide Partition, Recency, IdleOk, HeldOk, FilesOk, PinsOk, TableOk, Acquired, PageData, Installed, Pinned,
      TouchedLast;
    InvInside(s);
    if k in s.table {
      HitFrame(s, k);
      PinnedUses(s, k, write);
    } else if Acquired(s).Ok? {
      AcquiredInv(s);
      AcquiredKept(s);
      var (t, f) := Acquired(s).value;
      if PageData(t.files, k).Ok? {
        InstalledUses(t, f, k, PageData(t.files, k).value, write);
        if Installed(t, f, k, PageData(t.files, k).value, write).Ok? {
          KeptAlso(s, t, GetPage(s, k, write).0, Some(k));
        }
      }
    }
  }

  lemma HitFrame(s: State, k: Key)
    requires Inv(s) && k in s.table
    ensures s.table[k] < |s.cores| == |s.stamp| && forall j :: j in s.table && j != k ==> s.table[j] != s.table[k]
  {
    hide Partition, Recency, IdleOk, HeldOk, FilesOk, PinsOk;
  }

  lemma GrowUses(s: State, file: FileId)
    requires Inv(s)
    ensures var (t, r) := AllocatePage(s, file);
            KeptBut(s, t, if r.Ok? then Some(r.value.key) else None) && (r.Ok? ==> TouchedLast(t, r.value.key))
  {
    hide Partition, Recency, IdleOk, HeldOk, FilesOk, PinsOk, Without, Acquired, Allocate;
    InvInside(s);
    if Acquired(s).Ok? {
      AcquiredInv(s);
      AcquiredKept(s);
    }
  }

  lemma LastGuardPins(s: State, g: Guard)
    requires Inv(s) && g in s.guards
    ensures g.frame < |s.cores| && (LastGuard(s, g) <==> s.cores[g.frame].pins == 1)
  {
    hide Partition, Recency, IdleOk, HeldOk, FilesOk;
    GuardedFrame(s, g);
    var rest := s.guards - multiset{g};
    forall h | h in rest && h.key == g.key
      ensures h == Guard(g.frame, g.key, true) || h == Guard(g.frame, g.key, false)
    {
      assert h in s.guards;
      GuardedFrame(s, h);
    }
    assert GuardsOn(s.guards, g.frame, g.key) == GuardsOn(rest, g.frame, g.key) + 1;
  }

  lemma DropUses(s: State, g: Guard)
    requires Inv(s) && g in s.guards
    ensures g.frame < |s.cores| == |s.stamp|
    ensures var t := Unpinned(s, g);
            KeptBut(s, t, if LastGuard(s, g) then Some(g.key) else None) && (LastGuard(s, g) ==> TouchedLast(t, g.key))
  {
    hide Partition, Recency, IdleOk, HeldOk, FilesOk, PinsOk, Without, LastGuard;
    GuardedFrame(s, g);
    LastGuardPins(s, g);
    InvInside(s);
  }

  lemma {:induction false} FlushAllKept(s: State, ids: seq<nat>)
    ensures FlushAll(s, ids).Ok? ==>
              var t := FlushAll(s, ids).value; t.table == s.table && t.stamp == s.stamp && t.clock == s.clock
    decreases |ids|
  {
    if ids != [] {
      FlushAllKept(s, ids[..|ids| - 1]);
    }
  }

  lemma {:induction false} FlushEvictKept(s: State, ids: seq<nat>)
    ensures FlushEvictAll(s, ids).Ok? ==>
              var t := FlushEvictAll(s, ids).value;
              && t.stamp == s.stamp && t.table.Keys <= s.table.Keys
              && forall k :: k in t.table ==> t.table[k] == s.table[k]
    decreases |ids|
  {
    if ids != [] {
      FlushEvictKept(s, ids[..|ids| - 1]);
    }
  }

  lemma EvictUses(s: State, file: FileId)
    requires TableInside(s)
    ensures KeptBut(s, FlushFile(s, file).0, None)
  {
    FlushEvictKept(s, Matching(s.cores, file, None, |s.cores|));
  }

  /** A used page was touched last; every other page that is cached after the call was cached before and
      was last touched when it was. */
  lemma UseStep(s: State, c: Call)
    requires Inv(s) && Possible(s, c)
    ensures forall k :: Uses(s, c, k) ==> TouchedLast(Next(s, c), k) && KeptBut(s, Next(s, c), Some(k))
    ensures (forall k :: !Uses(s, c, k)) ==> KeptBut(s, Next(s, c), None)
  {
    hide Inv, GetPage, AllocatePage, Unpinned, LastGuard, FlushAll, FlushEvictAll, Matching, KeptBut, TouchedLast,
      ForceFile, FlushFile;
    match c
    case Get(k, write) => GetUses(s, k, write); assert GetPage(s, k, write).1.Ok? ==> Uses(s, c, k);
    case Grow(file) =>
      GrowUses(s, file);
      var r := AllocatePage(s, file).1;
      assert r.Ok? ==> Uses(s, c, r.value.key);
    case Drop(g) => GuardedFrame(s, g); DropUses(s, g); assert LastGuard(s, g) ==> Uses(s, c, g.key);
    case _ => OtherUses(s, c);
  }

  lemma OtherUses(s: State, c: Call)
    requires Inv(s) && Possible(s, c) && !c.Get? && !c.Grow? && !c.Drop?
    ensures KeptBut(s, Next(s, c), None)
  {
    hide Inv, FlushAll, FlushEvictAll, Matching, FlushFile;
    InvInside(s);
    match c
    case Register(store) =>
    case Fill(g, d) => GuardedFrame(s, g);
    case Force(file, page) => FlushAllKept(s, Matching(s.cores, file, page, |s.cores|));
    case Evict(file) => EvictUses(s, file);
    case Remove(file) => EvictUses(s, file);
  }

  // ---- runs

  /** When each page was last used, if the call happens at time `now`. */
  ghost function UsesAfter(s: State, c: Call, times: imap<Key, nat>, now: nat): (r: imap<Key, nat>)
    requires Inv(s) && Possible(s, c) && forall k :: k in times
    ensures forall k :: k in r
  {
    imap k: Key :: if Uses(s, c, k) then now else times[k]
  }

  /** When each page was last used, after a run whose calls happen at times `now`, `now` + 1, ... */
  ghost function LastUses(s: State, calls: seq<Call>, times: imap<Key, nat>, now: nat): (r: imap<Key, nat>)
    requires Inv(s) && Feasible(s, calls) && forall k :: k in times
    ensures forall k :: k in r
    decreases |calls|
  {
    if calls == [] then times
    else
      NextInv(s, calls[0]);
      LastUses(Next(s, calls[0]), calls[1..], UsesAfter(s, calls[0], times, now), now + 1)
  }

  /** Cached pages were touched in the order of their last uses. */
  ghost predicate InOrder(s: State, times: imap<Key, nat>, now: nat) {
    && TableInside(s) && (forall k :: k in times)
    && (forall k :: k in s.table ==> times[k] < now)
    && (forall j, k :: j in s.table && k in s.table && j != k ==>
          (StampOf(s, j) < StampOf(s, k) <==> times[j] < times[k]))
  }

  lemma NextInOrder(s: State, c: Call, times: imap<Key, nat>, now: nat)
    requires Inv(s) && Possible(s, c) && InOrder(s, times, now)
    ensures InOrder(Next(s, c), UsesAfter(s, c, times, now), now + 1)
  {
    hide Inv, Next, Uses, Possible, InOrder, KeptBut;
    TimesTotal(s, times, now);
    NextInv(s, c);
    UseStep(s, c);
    if k :| Uses(s, c, k) {
      OneUse(s, c, k);
      LastIsLatest(Next(s, c), k);
      UsedInOrder(s, Next(s, c), k, times, now);
      assert UsesAfter(s, c, times, now) == times[k := now];
    } else {
      KeptInOrder(s, Next(s, c), times, now);
      assert UsesAfter(s, c, times, now) == times;
    }
  }

  lemma KeptInOrder(s: State, t: State, times: imap<Key, nat>, now: nat)
    requires InOrder(s, times, now) && KeptBut(s, t, None)
    ensures InOrder(t, times, now + 1)
  {
  }

  lemma UsedInOrder(s: State, t: State, k: Key, times: imap<Key, nat>, now: nat)
    requires InOrder(s, times, now) && KeptBut(s, t, Some(k)) && k in t.table
    requires forall j :: j in t.table && j != k ==> StampOf(t, j) < StampOf(t, k)
    ensures InOrder(t, times[k := now], now + 1)
  {
  }

  lemma OneUse(s: State, c: Call, k: Key)
    requires Inv(s) && Possible(s, c) && Uses(s, c, k)
    ensures forall j :: Uses(s, c, j) ==> j == k
  {
    hide Inv, GetPage, AllocatePage;
  }

  lemma {:induction false} RunInOrder(s: State, calls: seq<Call>, times: imap<Key, nat>, now: nat)
    requires Inv(s) && Feasible(s, calls) && InOrder(s, times, now)
    ensures Inv(PoolRuns.Run(s, calls))
    ensures InOrder(PoolRuns.Run(s, calls), LastUses(s, calls, times, now), now + |calls|)
    decreases |calls|
  {
    hide Inv, Next, Possible, InOrder, UsesAfter;
    assert forall k :: k in times by { TimesTotal(s, times, now); }
    if calls != [] {
      NextInv(s, calls[0]);
      NextInOrder(s, calls[0], times, now);
      RunInOrder(Next(s, calls[0]), calls[1..], UsesAfter(s, calls[0], times, now), now + 1);
    }
  }

  lemma TimesTotal(s: State, times: imap<Key, nat>, now: nat)
    requires InOrder(s, times, now)
    ensures forall k :: k in times
  {
  }

  ghost const NEVER: imap<Key, nat> := imap k: Key :: 0

  /** After every run of a new pool, the page given up for another one is, of all cached pages that no
      guard is on, the one whose last use lies furthest back. */
  lemma VictimLeastRecentlyUsed(capacity: nat, calls: seq<Call>, victim: Key, other: Key)
    requires Feasible(NewPool(capacity), calls)
    requires var s := PoolRuns.Run(NewPool(capacity), calls);
             && Framed(s) && s.free == [] && Acquired(s).Ok?
             && victim in s.table && victim !in Acquired(s).value.0.table
             && other in s.table && other != victim && (forall g :: g in s.guards ==> g.key != other)
    ensures LastUses(NewPool(capacity), calls, NEVER, 1)[victim] < LastUses(NewPool(capacity), calls, NEVER, 1)[other]
    ensures forall g :: g in PoolRuns.Run(NewPool(capacity), calls).guards ==> g.key != victim
  {
    hide Inv, Feasible, PoolRuns.Run, LastUses, NewPool, Acquired, InOrder;
    NewInOrder(capacity);
    RunInOrder(NewPool(capacity), calls, NEVER, 1);
    var s := PoolRuns.Run(NewPool(capacity), calls);
    VictimFrame(s, victim, other);
    OrderedPair(s, LastUses(NewPool(capacity), calls, NEVER, 1), 1 + |calls|, victim, other);
  }

  lemma NewInOrder(capacity: nat)
    ensures InOrder(NewPool(capacity), NEVER, 1)
  {
  }

  lemma OrderedPair(s: State, times: imap<Key, nat>, now: nat, j: Key, k: Key)
    requires InOrder(s, times, now) && j in s.table && k in s.table && j != k
    ensures TableInside(s) && j in times && k in times && (StampOf(s, j) < StampOf(s, k) <==> times[j] < times[k])
  {
  }

  lemma VictimFrame(s: State, victim: Key, other: Key)
    requires Inv(s) && s.free == [] && Acquired(s).Ok?
    requires victim in s.table && victim !in Acquired(s).value.0.table
    requires other in s.table && other != victim && (forall g :: g in s.guards ==> g.key != other)
    ensures TableInside(s) && StampOf(s, victim) < StampOf(s, other)
    ensures forall g :: g in s.guards ==> g.key != victim
  {
    hide Partition, Recency, IdleOk, HeldOk, FilesOk, Flushed, Without;
    InvInside(s);
    AcquireTakesLeastRecent(s);
    var f := Acquired(s).value.1;
    VictimIsLeastRecent(s, f);
    FlushedFiles(s, f);
    assert s.table[victim] == f;
    assert s.cores[s.table[other]].pins == 0 by { NoGuards(s, other); }
    forall g | g in s.guards ensures g.key != victim {
      GuardedFrame(s, g);
    }
  }

  lemma NoGuards(s: State, k: Key)
    requires Inv(s) && k in s.table && forall g :: g in s.guards ==> g.key != k
    ensures s.table[k] < |s.cores| && s.cores[s.table[k]].pins == 0
  {
    hide Partition, Recency, IdleOk, HeldOk, FilesOk;
  }
}
