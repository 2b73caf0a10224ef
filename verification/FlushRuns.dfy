/** Runs of the store with its snapshot file: what a clear dirty flag and a flush that
    returned nil mean (flush.go; database.go, flushToDisk). */
module FlushRuns {
  import opened Values
  import opened Replay
  import opened WriteOps
  import opened Transactions
  import opened Storage
  import Database

  datatype Store = Store(data: Data, file: Option<Bytes>, dirty: bool, version: nat)

  datatype Step =
    | RunBatch(ops: seq<Operation>)
    | Commit(changes: Changes)
    | Flush(fault: Fault)
    | SaveShared(fault: Fault)   // flushToDisk under the read lock
    | ClearFlag                  // flushToDisk after the lock is released

  ghost predicate Persisted(c: FileCodec, s: Store) {
    Database.Matches(c, Disk(s.file, None), s.data)
  }

  function Saved(c: FileCodec, s: Store, fault: Fault): Store {
    if fault.NoFault? && Encode(c, s.data).Some? then s.(file := Encode(c, s.data)) else s
  }

  /** Flush returns nil. */
  ghost predicate FlushReturnsNil(c: FileCodec, s: Store, fault: Fault) {
    !s.dirty || (fault.NoFault? && Encode(c, s.data).Some? && Persisted(c, Saved(c, s, fault)))
  }

  ghost function Next(c: FileCodec, s: Store, step: Step): Store {
    match step
    case RunBatch(ops) =>
      var changed := Successes(s.data, ops) > 0;
      Store(Effects(s.data, ops), s.file, s.dirty || changed, s.version + if changed then 1 else 0)
    case Commit(changes) => Store(ApplyChanges(s.data, changes), s.file, true, s.version + 1)
    case Flush(fault) =>
      if !s.dirty then s
      else Saved(c, s, fault).(dirty := !FlushReturnsNil(c, s, fault))
    case SaveShared(fault) => Saved(c, s, fault)
    case ClearFlag => s.(dirty := false)
  }

  ghost function Run(c: FileCodec, s: Store, steps: seq<Step>): Store {
    if |steps| == 0 then s else Next(c, Run(c, s, steps[..|steps| - 1]), steps[|steps| - 1])
  }

  /** A clear flag means the snapshot on disk loads and is the same JSON as the store. */
  ghost predicate CleanMeansPersisted(c: FileCodec, s: Store) {
    !s.dirty ==> Persisted(c, s)
  }

  predicate Verified(steps: seq<Step>) {
    forall i :: 0 <= i < |steps| ==> !steps[i].SaveShared? && !steps[i].ClearFlag?
  }

  lemma StepKeepsClean(c: FileCodec, s: Store, step: Step)
    requires CleanMeansPersisted(c, s) && !step.SaveShared? && !step.ClearFlag?
    ensures CleanMeansPersisted(c, Next(c, s, step))
  {
    if step.RunBatch? && Successes(s.data, step.ops) == 0 {
      NoSuccessNoChange(s.data, step.ops);
    }
  }

  /** Over every run of batches, commits and verified flushes the invariant holds, so a
      flush that returns nil, early exit included, leaves everything in the snapshot. No
      law of the codec is needed: the flush checks what it wrote. */
  lemma {:induction false} FlushedMeansPersisted(c: FileCodec, s: Store, steps: seq<Step>, fault: Fault)
    requires CleanMeansPersisted(c, s) && Verified(steps)
    ensures var n := Run(c, s, steps);
            && CleanMeansPersisted(c, n)
            && (FlushReturnsNil(c, n, fault) ==>
                  Persisted(c, Next(c, n, Flush(fault))) && !Next(c, n, Flush(fault)).dirty)
  {
    if |steps| > 0 {
      FlushedMeansPersisted(c, s, steps[..|steps| - 1], fault);
      StepKeepsClean(c, Run(c, s, steps[..|steps| - 1]), steps[|steps| - 1]);
    }
  }

  /** JSON tells these two stores apart: it does not where one holds an integer and the other
      the float of the same value. */
  ghost predicate ToldApart(c: FileCodec, a: Data, b: Data) {
    c.marshal(a).Some? && (c.marshal(a) == c.marshal(b) ==> a == b)
  }

  /** Persisted means what it should: if JSON tells what loads next from the live store, exactly
      that what loads next is the live store. */
  lemma PersistedIff(c: FileCodec, s: Store)
    requires Loaded(c, Disk(s.file, None)).Some? ==> ToldApart(c, Loaded(c, Disk(s.file, None)).value, s.data)
    ensures Persisted(c, s) <==> c.marshal(s.data).Some? && Loaded(c, Disk(s.file, None)) == Some(s.data)
  {
  }

  /** And a flush gets there: of a store that the codec keeps, it returns nil exactly when
      there was nothing to save or no system call failed, leaves the flag clear then, and as
      it was otherwise; after a save that worked, what loads is the store. */
  lemma FlushWorks(c: FileCodec, s: Store, fault: Fault)
    requires Keeps(c, s.data)
    ensures var n := Next(c, s, Flush(fault));
            && (FlushReturnsNil(c, s, fault) <==> !s.dirty || fault.NoFault?)
            && n.data == s.data && n.version == s.version
            && (n.dirty <==> s.dirty && !fault.NoFault?)
            && (s.dirty && fault.NoFault? ==> Loaded(c, Disk(n.file, None)) == Some(s.data))
            && (!s.dirty || !fault.NoFault? ==> n.file == s.file)
  {
    SavedLoads(c, s.data, None);
  }

  // The periodic save, which clears the flag after it has let go of the lock.

  /** This store, saved, loads back as the same JSON. Not every store does: an integer
      that a float64 does not hold comes back as another. */
  ghost predicate Faithful(c: FileCodec, data: Data) {
    Encode(c, data).Some? ==> Database.Matches(c, Disk(Encode(c, data), None), data)
  }

  predicate WritesOnly(steps: seq<Step>) {
    forall i :: 0 <= i < |steps| ==> steps[i].RunBatch? || steps[i].Commit?
  }

  lemma {:induction false} WritesKeepFile(c: FileCodec, s: Store, steps: seq<Step>)
    requires WritesOnly(steps)
    ensures var n := Run(c, s, steps);
            n.file == s.file && n.version >= s.version && (n.version == s.version ==> n.data == s.data)
  {
    if |steps| > 0 {
      var before := Run(c, s, steps[..|steps| - 1]);
      WritesKeepFile(c, s, steps[..|steps| - 1]);
      var last := steps[|steps| - 1];
      if last.RunBatch? && Successes(before.data, last.ops) == 0 {
        NoSuccessNoChange(before.data, last.ops);
      }
    }
  }

  /** A save, any writes that slip in before the flag is cleared, and the clearing: the
      invariant survives if and only if the writes left the JSON of the store as it was.
      Standing still is enough; an unchanged version says that they did. */
  lemma ClearFlagSafeIff(c: FileCodec, s: Store, between: seq<Step>)
    requires Faithful(c, s.data) && Encode(c, s.data).Some? && WritesOnly(between)
    ensures var n := Run(c, Next(c, s, SaveShared(NoFault)), between);
            && (CleanMeansPersisted(c, Next(c, n, ClearFlag)) <==> c.marshal(n.data) == c.marshal(s.data))
            && (n.version == s.version ==> CleanMeansPersisted(c, Next(c, n, ClearFlag)))
  {
    var saved := Next(c, s, SaveShared(NoFault));
    WritesKeepFile(c, saved, between);
  }

  const NewTable := Operation(OpCreate, "t", "", Nil, map[], true)

  /** It does not always survive: a table created between the save and the clearing is
      acknowledged, the flag is clear, the next flush returns nil at once, and the
      snapshot does not have the table. */
  lemma LostDirtyFlag(c: FileCodec)
    requires Faithful(c, map[]) && Encode(c, map[]).Some?
    requires c.marshal(map["t" := map[]]) != c.marshal(map[])
    ensures var s := Store(map[], None, true, 0);
            var n := Run(c, s, [SaveShared(NoFault), RunBatch([NewTable]), ClearFlag]);
            && "t" in n.data && !n.dirty
            && Replies(map[], [NewTable]) == [Done]
            && FlushReturnsNil(c, n, NoFault)
            && Next(c, n, Flush(NoFault)) == n
            && !Persisted(c, n)
  {
    var s := Store(map[], None, true, 0);
    var steps := [SaveShared(NoFault), RunBatch([NewTable]), ClearFlag];
    assert steps[..2] == [SaveShared(NoFault), RunBatch([NewTable])];
    assert steps[..2][..1] == [SaveShared(NoFault)];
    assert steps[..2][..1][..0] == [];
    assert [NewTable][..0] == [];
    var saved := Next(c, s, SaveShared(NoFault));
    var written := Next(c, saved, RunBatch([NewTable]));
    assert Effects(map[], [NewTable]) == map["t" := map[]];
    assert Run(c, s, steps[..2][..1]) == saved;
    assert Run(c, s, steps[..2]) == written;
    assert Run(c, s, steps) == Next(c, written, ClearFlag);
    assert Database.Matches(c, Disk(Encode(c, map[]), None), map[]);
  }

  // The database object takes these steps.

  ghost function StoreOf(db: Database.Database): Store
    reads db, db.engine
  {
    Store(db.data, db.engine.disk.file, db.dirty, db.version)
  }

  method BatchStep(db: Database.Database, ops: seq<Operation>)
    requires db.Valid()
    modifies db, db.log, db.manager`state, db.manager.objects
    ensures db.Valid() && StoreOf(db) == Next(db.engine.codec, old(StoreOf(db)), RunBatch(ops))
  {
    ghost var _ := db.ProcessBatch(ops);
  }

  method CommitStep(db: Database.Database, t: Transaction) returns (outcome: Database.CommitOutcome)
    requires db.Valid()
    modifies db`data, db`version, db`dirty, db.txManager, t`committed
    ensures db.Valid()
    ensures StoreOf(db) == if outcome.Applied?
            then Next(db.engine.codec, old(StoreOf(db)), Commit(t.changes)) else old(StoreOf(db))
  {
    outcome := db.CommitTransaction(t);
  }

  /** A flush that gets past its first two checks, the store being open and its pending
      operations done, is a step, and returns nil where the step says so. */
  method FlushStep(db: Database.Database, observed: seq<int>, fault: Fault) returns (ok: bool)
    requires db.Valid()
    modifies db`dirty, db.engine, db.log
    ensures db.Valid()
    ensures !db.closed && 0 in observed ==>
              && StoreOf(db) == Next(db.engine.codec, old(StoreOf(db)), Flush(fault))
              && ok == FlushReturnsNil(db.engine.codec, old(StoreOf(db)), fault)
    ensures db.closed || 0 !in observed ==> !ok && StoreOf(db) == old(StoreOf(db))
  {
    ok := db.Flush(observed, fault);
  }
}
