/** Whole runs on a record file object, and what is found when it is opened again. */
module RecordReplay {
  import opened Outcomes
  import opened PageStore
  import opened RecordLayout
  import opened RecordFiles
  import R = RecordStores
  import RecordRuns
  import PoolStates

  /** One operation on the object is the operation of the specification. */
  method Perform(file: RecordFile, op: RecordRuns.Op)
    requires file.Valid() && RecordRuns.CanStep(file.Model(), op)
    modifies file, file.pool
    ensures file.Valid() && file.Model() == RecordRuns.Apply(old(file.Model()), op)
  {
    hide StoreIn, Layout, Sequential, R.Inv, R.Insert, R.Update, R.Delete, R.Get, PoolStates.Inv;
    RecordRuns.ApplyInv(file.Model(), op);
    match op
    case InsertOp(data) => var _ := file.Insert(data);
    case GetOp(rid) => var _ := file.Get(rid);
    case UpdateOp(rid, data) => var _ := file.Update(rid, data);
    case DeleteOp(rid) => var _ := file.Delete(rid);
  }

  /** Any run that never has more live records than the pages with ids below 2^31 hold leaves the record
      file that the specification gives, and so the map that the operations describe. */
  method Replay(file: RecordFile, ops: seq<RecordRuns.Op>)
    requires file.Valid()
    requires RecordRuns.PeakLive(file.Model(), ops) <= R.MAX_DATA_PAGES * file.Model().slots
    modifies file, file.pool
    ensures file.Valid() && file.Model() == RecordRuns.Run(old(file.Model()), ops)
    ensures RecordRuns.Live(file.Model()) ==
              RecordRuns.MapRun(RecordRuns.Live(old(file.Model())), old(file.Model()), ops)
  {
    hide StoreIn, Layout, Sequential, R.Inv, RecordRuns.Apply, RecordRuns.CanStep, PoolStates.Inv,
      RecordRuns.LiveSet, RecordRuns.Live;
    ghost var m := file.Model();
    RecordRuns.RunFitsExact(m, ops);
    RecordRuns.RunRefines(m, ops);
    assert ops[0..] == ops;
    for i := 0 to |ops|
      invariant file.Valid() && RecordRuns.RunFits(file.Model(), ops[i..])
      invariant RecordRuns.Run(file.Model(), ops[i..]) == RecordRuns.Run(m, ops)
    {
      assert ops[i..][0] == ops[i] && ops[i..][1..] == ops[i + 1..];
      Perform(file, ops[i]);
    }
  }

  /** A record file created in a new page file, worked on, flushed and opened again has the same header,
      the same free chain and the same records: those of the run. */
  method ReplayAndReopen(capacity: nat, size: nat, ops: seq<RecordRuns.Op>) returns (file: RecordFile)
    requires capacity > 0 && R.Create(size).Ok?
    requires RecordRuns.PeakLive(R.Create(size).value, ops) <= R.MAX_DATA_PAGES * R.Create(size).value.slots
    ensures file.Valid() && file.Model() == RecordRuns.Run(R.Create(size).value, ops)
  {
    hide StoreIn, Layout, Sequential, R.Inv, RecordRuns.Run, RecordRuns.PeakLive, PoolStates.Inv, R.Create,
      RecordRuns.Live, Holds, HoldsRecords, Valid, Allocate;
    EmptyIsSequential();
    var created := RecordFile.Create(EMPTY_STORE, capacity, size);
    Replay(created.value, ops);
    created.value.Flush();
    var pageFile := created.value.pool.files[created.value.fileId];
    HoldsParts(pageFile, created.value.Model());
    HoldsValid(pageFile, created.value.Model());
    var reopened := RecordFile.Open(pageFile, capacity, created.value.Model());
    return reopened.value;
  }

  lemma HoldsValid(store: Store, m: R.RStore)
    requires HoldsRecords(store, m)
    ensures Valid(store)
  {
  }
}
