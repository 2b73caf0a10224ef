/** Runs of the store under batches and optimistic transactions: what the version counter
    and the commit check buy (database.go, BeginTransaction to CommitTransaction and the end
    of processBatch). */
module TxRuns {
  import opened Values
  import opened WriteOps
  import opened Transactions
  import Database

  /** What has changed the store so far, in order. A commit carries the transaction as it
      stood when it committed. */
  datatype Event = Batch(ops: seq<Operation>) | Commit(id: nat, txn: Txn)

  datatype Store = Store(data: Data, version: nat, txns: seq<Txn>, history: seq<Event>)

  datatype Step =
    | RunBatch(ops: seq<Operation>)
    | Begin
    | Change(id: nat, table: string, key: string, value: Value)
    | Rollback(id: nat)
    | TryCommit(id: nat)

  function Open(data: Data): Store {
    Store(data, 0, [], [])
  }

  function Bumped(version: nat, data: Data, ops: seq<Operation>): nat {
    version + if Successes(data, ops) > 0 then 1 else 0
  }

  function Next(s: Store, step: Step): Store {
    match step
    case RunBatch(ops) =>
      Store(Effects(s.data, ops), Bumped(s.version, s.data, ops), s.txns, s.history + [Batch(ops)])
    case Begin => s.(txns := s.txns + [Started(s.data, s.version)])
    case Change(id, table, key, value) =>
      if id < |s.txns| then s.(txns := s.txns[id := Record(s.txns[id], table, key, value)]) else s
    case Rollback(id) =>
      if id < |s.txns| then s.(txns := s.txns[id := MarkAborted(s.txns[id])]) else s
    case TryCommit(id) =>
      if id >= |s.txns| || s.txns[id].Finalized() then s
      else
        var t := s.txns[id];
        var spent := s.(txns := s.txns[id := MarkCommitted(t)]);
        if s.version != t.version then spent
        else Store(ApplyChanges(s.data, t.changes), s.version + 1, spent.txns, s.history + [Commit(id, t)])
  }

  function Run(s: Store, steps: seq<Step>): Store {
    if |steps| == 0 then s else Next(Run(s, steps[..|steps| - 1]), steps[|steps| - 1])
  }

  // Version pins data.

  lemma StepPins(s: Store, step: Step)
    ensures Next(s, step).version >= s.version
    ensures Next(s, step).version == s.version ==> Next(s, step).data == s.data
  {
    if step.RunBatch? && Successes(s.data, step.ops) == 0 {
      NoSuccessNoChange(s.data, step.ops);
    }
  }

  /** No ABA: along any run the version never goes down, and as long as it stands still
      the data do too, so two states of a run with equal versions hold equal data. */
  lemma {:induction false} VersionPinsData(s: Store, steps: seq<Step>)
    ensures Run(s, steps).version >= s.version
    ensures Run(s, steps).version == s.version ==> Run(s, steps).data == s.data
  {
    if |steps| > 0 {
      VersionPinsData(s, steps[..|steps| - 1]);
      StepPins(Run(s, steps[..|steps| - 1]), steps[|steps| - 1]);
    }
  }

  // Serial execution.

  function Perform(data: Data, e: Event): Data {
    match e
    case Batch(ops) => Effects(data, ops)
    case Commit(_, t) => ApplyChanges(data, t.changes)
  }

  function Serially(data: Data, history: seq<Event>): Data {
    if |history| == 0 then data else Perform(Serially(data, history[..|history| - 1]), history[|history| - 1])
  }

  /** A commit event matches the transaction it came from, and its snapshot is the state
      just before it in the history. */
  ghost predicate CommitSound(data0: Data, s: Store, p: nat)
    requires p < |s.history|
  {
    s.history[p].Commit? ==>
      var t := s.history[p].txn;
      && s.history[p].id < |s.txns|
      && s.txns[s.history[p].id] == MarkCommitted(t) && !t.Finalized()
      && t.version < s.version
      && t.snapshot == Serially(data0, s.history[..p])
  }

  ghost predicate Serializable(data0: Data, s: Store) {
    && s.data == Serially(data0, s.history)
    && (forall i :: 0 <= i < |s.txns| ==>
          s.txns[i].version <= s.version && (s.txns[i].version == s.version ==> s.txns[i].snapshot == s.data))
    && (forall p :: 0 <= p < |s.history| ==> CommitSound(data0, s, p))
    && (forall p, q :: 0 <= p < q < |s.history| && s.history[p].Commit? && s.history[q].Commit?
          ==> s.history[p].txn.version < s.history[q].txn.version)
  }

  lemma HistoryGrows(data0: Data, history: seq<Event>, e: Event)
    ensures Serially(data0, history + [e]) == Perform(Serially(data0, history), e)
    ensures forall p :: 0 <= p <= |history| ==> (history + [e])[..p] == history[..p]
  {
    assert (history + [e])[..|history|] == history;
  }

  lemma BatchStep(data0: Data, s: Store, ops: seq<Operation>)
    requires Serializable(data0, s)
    ensures Serializable(data0, Next(s, RunBatch(ops)))
  {
    var n := Next(s, RunBatch(ops));
    StepPins(s, RunBatch(ops));
    HistoryGrows(data0, s.history, Batch(ops));
    forall p | 0 <= p < |n.history|
      ensures CommitSound(data0, n, p)
    {
      if p < |s.history| { assert CommitSound(data0, s, p); }
    }
  }

  lemma CommitStep(data0: Data, s: Store, id: nat)
    requires Serializable(data0, s)
    ensures Serializable(data0, Next(s, TryCommit(id)))
  {
    var n := Next(s, TryCommit(id));
    if id < |s.txns| && !s.txns[id].Finalized() {
      var t := s.txns[id];
      HistoryGrows(data0, s.history, Commit(id, t));
      assert s.history[..|s.history|] == s.history;
      hide Effects, ApplyChanges, Serially;
      forall p | 0 <= p < |n.history|
        ensures CommitSound(data0, n, p)
      {
        if p < |s.history| { assert CommitSound(data0, s, p); }
      }
      if s.version == t.version {
        forall p | 0 <= p < |s.history| && s.history[p].Commit?
          ensures s.history[p].txn.version < t.version
        {
          assert CommitSound(data0, s, p);
        }
      }
    }
  }

  lemma QuietStep(data0: Data, s: Store, step: Step)
    requires Serializable(data0, s) && !step.RunBatch? && !step.TryCommit?
    ensures Serializable(data0, Next(s, step))
  {
    hide Serially;
    var n := Next(s, step);
    assert n.history == s.history && n.data == s.data && n.version == s.version;
    forall p | 0 <= p < |n.history|
      ensures CommitSound(data0, n, p)
    {
      assert CommitSound(data0, s, p);
    }
  }

  /** Over every run of batches, begins, changes, rollbacks and commits: the store is what
      its history does serially, every transaction that committed read exactly the state it
      was applied to, with the change set it ended with, and of the transactions that share
      a snapshot version at most one is in the history. */
  lemma {:induction false} RunIsSerializable(data0: Data, steps: seq<Step>)
    ensures Serializable(data0, Run(Open(data0), steps))
  {
    if |steps| > 0 {
      var last := steps[|steps| - 1];
      RunIsSerializable(data0, steps[..|steps| - 1]);
      var s := Run(Open(data0), steps[..|steps| - 1]);
      hide Serializable, Next;
      match last
      case RunBatch(ops) => BatchStep(data0, s, ops);
      case TryCommit(id) => CommitStep(data0, s, id);
      case _ => QuietStep(data0, s, last);
    }
  }

  /** A commit takes effect exactly when the transaction is still open and no change has
      been made since its snapshot; then the store still is its snapshot, and afterwards
      is that snapshot with the change set applied. */
  lemma CommitAppliesIff(data0: Data, steps: seq<Step>, id: nat)
    ensures var s := Run(Open(data0), steps);
            var n := Next(s, TryCommit(id));
            && (n.history != s.history <==> id < |s.txns| && !s.txns[id].Finalized() && s.txns[id].version == s.version)
            && (n.history != s.history ==>
                  s.data == s.txns[id].snapshot && n.data == ApplyChanges(s.txns[id].snapshot, s.txns[id].changes))
            && (n.history == s.history ==> n.data == s.data && n.version == s.version)
  {
    RunIsSerializable(data0, steps);
  }

  /** Once finalized, by a commit that applied, by one that met a conflict or by a rollback,
      a transaction never changes again and never enters the history again: a conflict
      cannot be retried with the same transaction. */
  lemma {:induction false} FinalizedForGood(s: Store, steps: seq<Step>, id: nat)
    requires id < |s.txns| && s.txns[id].Finalized()
    ensures var n := Run(s, steps);
            && id < |n.txns| && n.txns[id] == s.txns[id]
            && s.history <= n.history
            && forall p :: |s.history| <= p < |n.history| && n.history[p].Commit? ==> n.history[p].id != id
  {
    if |steps| > 0 {
      FinalizedForGood(s, steps[..|steps| - 1], id);
      hide Effects, ApplyChanges, Successes;
    }
  }

  // What a transaction gets done.

  /** What a transaction was last given for a cell, if anything; nil is a deletion. */
  function LastGiven(steps: seq<Step>, id: nat, table: string, key: string): Option<Value> {
    if |steps| == 0 then None
    else
      match steps[|steps| - 1]
      case Change(i, t, k, v) =>
        if i == id && t == table && k == key then Some(v) else LastGiven(steps[..|steps| - 1], id, table, key)
      case _ => LastGiven(steps[..|steps| - 1], id, table, key)
  }

  function TablesGiven(steps: seq<Step>, id: nat): set<string> {
    if |steps| == 0 then {}
    else
      TablesGiven(steps[..|steps| - 1], id) + TablesOf(steps[|steps| - 1], id)
  }

  function TablesOf(step: Step, id: nat): set<string> {
    if step.Change? && step.id == id then {step.table} else {}
  }

  /** As long as it is open, a transaction begun in s holds the store and the version of s,
      and for every cell what it was last given, whatever else has gone on. */
  lemma {:induction false} OpenHolds(s: Store, steps: seq<Step>)
    ensures var id := |s.txns|;
            var n := Run(Next(s, Begin), steps);
            id < |n.txns| && (!n.txns[id].Finalized() ==>
              && n.txns[id].snapshot == s.data && n.txns[id].version == s.version
              && n.txns[id].changes.Keys == TablesGiven(steps, id)
              && forall t, k :: Cell(n.txns[id].changes, t, k) == LastGiven(steps, id, t, k))
  {
    var id := |s.txns|;
    if |steps| > 0 {
      OpenHolds(s, steps[..|steps| - 1]);
      OneMoreStep(s, steps);
      hide Run, Next;
      ChangesHeld(Run(Next(s, Begin), steps[..|steps| - 1]), steps[|steps| - 1], id);
    }
  }

  lemma OneMoreStep(s: Store, steps: seq<Step>)
    requires |steps| > 0
    ensures Run(Next(s, Begin), steps) == Next(Run(Next(s, Begin), steps[..|steps| - 1]), steps[|steps| - 1])
  {
  }

  /** A step that leaves a transaction open leaves it as it is, but for a change made in it. */
  lemma ChangesHeld(s: Store, step: Step, id: nat)
    requires id < |s.txns|
    ensures var n := Next(s, step);
            id < |n.txns| && (!n.txns[id].Finalized() ==>
              && !s.txns[id].Finalized()
              && n.txns[id].snapshot == s.txns[id].snapshot && n.txns[id].version == s.txns[id].version
              && n.txns[id].changes.Keys == s.txns[id].changes.Keys + TablesOf(step, id)
              && forall t, k :: Cell(n.txns[id].changes, t, k) ==
                   if step.Change? && step.id == id && step.table == t && step.key == k then Some(step.value)
                   else Cell(s.txns[id].changes, t, k))
  {
    hide Effects, ApplyChanges, Successes;
  }

  /** With no conflict it commits. A transaction begun in s that is still open, with no
      change to the store since, commits: every cell it was given a value for holds the last
      one, or is gone if that was nil, every other is as it was, and its tables are there. */
  lemma OpenCommits(s: Store, steps: seq<Step>, table: string, key: string)
    ensures var id := |s.txns|;
            var n := Run(Next(s, Begin), steps);
            id < |n.txns| && (!n.txns[id].Finalized() && n.version == s.version ==>
              var c := Next(n, TryCommit(id));
              && |c.history| == |n.history| + 1 && c.version == n.version + 1 && c.txns[id].Finalized()
              && c.data.Keys == s.data.Keys + TablesGiven(steps, id)
              && Cell(c.data, table, key) ==
                 match LastGiven(steps, id, table, key)
                 case None => Cell(s.data, table, key)
                 case Some(v) => if v.Nil? then None else Some(v))
  {
    var id := |s.txns|;
    var n := Run(Next(s, Begin), steps);
    OpenHolds(s, steps);
    VersionPinsData(Next(s, Begin), steps);
    if !n.txns[id].Finalized() && n.version == s.version {
      ApplyChangesCell(n.data, n.txns[id].changes, table, key);
    }
  }

  /** A change that nobody comes between is committed. */
  lemma LoneCommit(s: Store, table: string, key: string, value: Value)
    requires !value.Nil?
    ensures var id := |s.txns|;
            var n := Run(Next(s, Begin), [Change(id, table, key, value)]);
            var c := Next(n, TryCommit(id));
            && |c.history| == |n.history| + 1 && Cell(c.data, table, key) == Some(value)
            && c.data == ApplyChanges(s.data, map[table := map[key := value]])
  {
    var id := |s.txns|;
    var steps := [Change(id, table, key, value)];
    assert steps[..0] == [];
    assert Run(Next(s, Begin), steps[..0]) == Next(s, Begin);
    OpenCommits(s, steps, table, key);
    var n := Run(Next(s, Begin), steps);
    assert n.txns[id].changes == map[table := map[key := value]];
  }

  /** Rolled back, an open transaction is finalized without a trace, and so does not commit. */
  lemma RolledBackForGood(s: Store, id: nat, steps: seq<Step>)
    requires id < |s.txns|
    ensures var n := Next(s, Rollback(id));
            && n.data == s.data && n.version == s.version && n.history == s.history && n.txns[id].Finalized()
            && Next(n, TryCommit(id)) == n
            && (!s.txns[id].Finalized() ==> n.txns[id].aborted && !n.txns[id].committed)
    ensures var n := Run(Next(s, Rollback(id)), steps);
            forall p :: |s.history| <= p < |n.history| && n.history[p].Commit? ==> n.history[p].id != id
  {
    FinalizedForGood(Next(s, Rollback(id)), steps, id);
  }

  // The database object takes these steps.

  /** The store of a database, with the transactions begun so far and what has changed it. */
  ghost function StoreOf(db: Database.Database, txns: seq<Transaction>, history: seq<Event>): Store
    reads db, txns
  {
    Store(db.data, db.version, seq(|txns|, i requires 0 <= i < |txns| reads txns => txns[i].State()), history)
  }

  predicate Distinct(txns: seq<Transaction>) {
    forall i, j :: 0 <= i < j < |txns| ==> txns[i] != txns[j]
  }

  method BatchTaken(db: Database.Database, txns: seq<Transaction>, ghost history: seq<Event>, ops: seq<Operation>)
    requires db.Valid()
    modifies db, db.log, db.manager`state, db.manager.objects
    ensures StoreOf(db, txns, history + [Batch(ops)]) == Next(old(StoreOf(db, txns, history)), RunBatch(ops))
  {
    ghost var _ := db.ProcessBatch(ops);
  }

  method BeginTaken(db: Database.Database, txns: seq<Transaction>, ghost history: seq<Event>) returns (t: Transaction)
    requires db.Valid() && Distinct(txns)
    modifies db.txManager
    ensures fresh(t) && Distinct(txns + [t])
    ensures StoreOf(db, txns + [t], history) == Next(old(StoreOf(db, txns, history)), Begin)
  {
    t := db.BeginTransaction();
  }

  method ChangeTaken(db: Database.Database, txns: seq<Transaction>, ghost history: seq<Event>,
                     id: nat, t: Transaction, table: string, key: string, value: Value)
    requires Distinct(txns) && id < |txns| && txns[id] == t
    modifies t`changes
    ensures StoreOf(db, txns, history) == Next(old(StoreOf(db, txns, history)), Change(id, table, key, value))
  {
    var _ := t.Write(table, key, value);
  }

  method RollbackTaken(db: Database.Database, txns: seq<Transaction>, ghost history: seq<Event>, id: nat,
                       t: Transaction)
    requires Distinct(txns) && id < |txns| && txns[id] == t
    modifies db.txManager, t`aborted
    ensures StoreOf(db, txns, history) == Next(old(StoreOf(db, txns, history)), Rollback(id))
  {
    var _ := db.txManager.Rollback(t);
  }

  method CommitTaken(db: Database.Database, txns: seq<Transaction>, ghost history: seq<Event>, id: nat, t: Transaction)
    returns (outcome: Database.CommitOutcome)
    requires db.Valid() && Distinct(txns) && id < |txns| && txns[id] == t
    modifies db`data, db`version, db`dirty, db.txManager, t`committed
    ensures var was := old(StoreOf(db, txns, history));
            StoreOf(db, txns, if outcome.Applied?
                    then history + [Commit(id, was.txns[id])] else history) == Next(was, TryCommit(id))
  {
    outcome := db.CommitTransaction(t);
  }

  /** One transaction with nobody else about, on the objects themselves. */
  method LoneTransaction(db: Database.Database, table: string, key: string, value: Value)
    returns (outcome: Database.CommitOutcome)
    requires db.Valid() && !value.Nil?
    modifies db`data, db`version, db`dirty, db.txManager
    ensures outcome.Applied? && Cell(db.data, table, key) == Some(value)
    ensures forall t, k :: (t, k) != (table, key) ==> Cell(db.data, t, k) == old(Cell(db.data, t, k))
    ensures db.version == old(db.version) + 1 && db.dirty
  {
    ghost var was := db.data;
    var t := db.BeginTransaction();
    var _ := t.Write(table, key, value);
    ghost var changes := t.changes;
    outcome := db.CommitTransaction(t);
    forall t, k
      ensures Cell(db.data, t, k) == if (t, k) == (table, key) then Some(value) else Cell(was, t, k)
    {
      ApplyChangesCell(was, changes, t, k);
    }
  }
}
