/** The database object: the write loop, recovery, transactions, index queries and the
    verified flush (database.go, flush.go). */
module Database {
  import opened Values
  import opened Replay
  import opened WriteOps
  import opened WriteLoop
  import opened SecondaryIndex
  import opened IndexManager
  import opened Transactions
  import opened Storage
  import opened Frames
  import WalPipeline
  import opened WalLog

  datatype CommitOutcome = Applied | AlreadyFinalized | Conflict(expected: nat, current: nat)

  /** The database at some moment. */
  datatype Moment = Moment(
    data: Data, log: WalPipeline.Wal, indexes: Indexes, replies: seq<Reply>, pendingOps: int,
    version: nat, dirty: bool, closed: bool)

  class Database {
    const engine: Engine
    const log: Log
    const manager: Manager
    const txManager: TxManager
    var data: Data
    var version: nat
    var dirty: bool
    var pendingOps: int
    var closed: bool
    /** What has been sent on the operations' reply channels, in order. */
    var replies: seq<Reply>

    /** The log is closed only after the write loop has ended. */
    ghost predicate Valid()
      reads log, manager, manager.objects
    {
      log.Valid() && manager.Valid() && !log.closed
    }

    constructor (engine: Engine, log: Log, fmt: Formatter, loaded: Data)
      requires log.Valid() && !log.closed
      ensures this.engine == engine && this.log == log
      ensures fresh(manager) && fresh(txManager) && manager.fmt == fmt && fresh(manager.objects)
      ensures Valid() && data == loaded && manager.state == map[]
      ensures version == 0 && !dirty && pendingOps == 0 && !closed && replies == []
    {
      this.engine, this.log, this.data := engine, log, loaded;
      manager := new Manager(fmt);
      txManager := new TxManager();
      version, dirty, pendingOps, closed, replies := 0, false, 0, false, [];
    }

    /** InitWithConfig: load the snapshot, open the log, and replay over the one what is
        read from the other. Nothing is opened if the snapshot cannot be loaded. */
    static method Init(codec: FileCodec, disk: Disk, cfg: WalPipeline.Config, logFile: Bytes, fmt: Formatter)
      returns (db: Database?)
      ensures db == null <==> Loaded(codec, disk).None?
      ensures disk.file.None? ==> db != null && db.data == Apply(map[], Scan(cfg.codec, logFile))
      ensures forall saved :: Keeps(codec, saved) && disk.file == Encode(codec, saved) ==>
                db != null && db.data == Apply(saved, Scan(cfg.codec, logFile))
      ensures db != null ==>
        && fresh(db) && fresh(db.log) && fresh(db.engine) && db.Valid()
        && db.data == Apply(Loaded(codec, disk).value, Scan(cfg.codec, logFile))
        && db.log.cfg == cfg && db.log.State() == WalPipeline.Opened(logFile)
        && db.engine.codec == codec && db.engine.disk == disk
        && db.manager.state == map[] && db.version == 0 && !db.dirty && !db.closed
        && db.pendingOps == 0 && db.replies == []
    {
      NothingSaved(codec, disk.tmp);
      forall saved | Keeps(codec, saved) && disk.file == Encode(codec, saved)
        ensures Loaded(codec, disk) == Some(saved)
      {
        SavedLoads(codec, saved, disk.tmp);
      }
      hide Keeps, Encode, Scan, Apply;
      var engine := new Engine(codec, disk);
      var loaded := engine.Load();
      if loaded.None? { return null; }
      var log := new Log(cfg, logFile);
      var entries := log.ReadBack();
      var recovered, _ := RecoverFromWAL(loaded.value, entries);
      db := new Database(engine, log, fmt, recovered);
    }

    /** One entry for the log, which is open and takes it before the timeout. */
    method AppendToLog(e: Entry)
      requires Valid()
      modifies log
      ensures Valid() && log.State() == WalPipeline.AppendAll(old(log.State()), [e])
    {
      var _ := log.Append(e, false);
    }

    method ApplyCreate(op: Operation) returns (reply: Reply)
      requires Valid() && Handled(op) && op.opType == OpCreate
      modifies this`data, log
      ensures Valid()
      ensures data == Effect(old(data), op) && reply == ReplyTo(old(data), op)
      ensures log.State() == WalPipeline.AppendAll(old(log.State()), EntriesOf(old(data), op, []))
    {
      if op.table in data {
        reply := TableExists;
      } else {
        data := data[op.table := map[]];
        reply := Done;
      }
      AppendToLog(Entry(OP_CREATE, op.table, "", Nil));
    }

    /** One cell written: the store, then every index of the table, then the log. */
    method WriteCell(table: string, key: string, value: Value)
      requires Valid() && table in data
      modifies this`data, log, manager`state, manager.objects
      ensures Valid()
      ensures data == WithTable(old(data), table, Put(old(data)[table], key, value))
      ensures log.State() == WalPipeline.AppendAll(old(log.State()), [Entry(OP_WRITE, table, key, value)])
      ensures manager.state == StepTable(old(manager.state), table,
                Refiling(manager.fmt, key, Lookup(old(data)[table], key), value))
    {
      hide StepTable, Refiling;
      var was := Lookup(data[table], key);
      data := data[table := Put(data[table], key, value)];
      manager.UpdateAllFields(table, key, was, value);
      AppendToLog(Entry(OP_WRITE, table, key, value));
    }

    method ApplyWrite(op: Operation) returns (reply: Reply)
      requires Valid() && Handled(op) && op.opType == OpWrite
      modifies this`data, log, manager`state, manager.objects
      ensures Valid()
      ensures data == Effect(old(data), op) && reply == ReplyTo(old(data), op)
      ensures log.State() == WalPipeline.AppendAll(old(log.State()), EntriesOf(old(data), op, []))
      ensures manager.state == IndexEffect(manager.fmt, old(manager.state), old(data), op, [])
    {
      if op.table in data {
        WriteCell(op.table, op.key, op.value);
        reply := Done;
      } else {
        reply := NoTable;
      }
    }

    method ApplyDelete(op: Operation) returns (reply: Reply)
      requires Valid() && Handled(op) && op.opType == OpDelete
      modifies this`data, log, manager`state, manager.objects
      ensures Valid()
      ensures data == Effect(old(data), op) && reply == ReplyTo(old(data), op)
      ensures log.State() == WalPipeline.AppendAll(old(log.State()), EntriesOf(old(data), op, []))
      ensures manager.state == IndexEffect(manager.fmt, old(manager.state), old(data), op, [])
    {
      if op.table in data {
        var was := Lookup(data[op.table], op.key);
        data := data[op.table := data[op.table] - {op.key}];
        manager.DeleteFromAllFields(op.table, op.key, was);
        AppendToLog(Entry(OP_DELETE, op.table, op.key, Nil));
        reply := Done;
      } else {
        reply := NoTable;
      }
    }

    /** The records are visited in whatever order the map yields them; order says which. */
    method ApplyBatch(op: Operation) returns (reply: Reply, ghost order: seq<string>)
      requires Valid() && Handled(op) && op.opType == OpBatch
      modifies this`data, log, manager`state, manager.objects
      ensures Valid() && OrderFits(op, order)
      ensures data == Effect(old(data), op) && reply == ReplyTo(old(data), op)
      ensures log.State() == WalPipeline.AppendAll(old(log.State()), EntriesOf(old(data), op, order))
      ensures manager.state == IndexEffect(manager.fmt, old(manager.state), old(data), op, order)
    {
      if op.table !in data {
        order := SomeOrder(op.records);
        return NoTable, order;
      }
      order := VisitRecords(op.table, op.records);
      AllVisited(op.records, order);
      reply := Done;
    }

    /** The loop over a batch's records, part way: the store, the log and the indexes show
        the records visited so far and nothing else. */
    ghost predicate PartVisited(data0: Data, log0: WalPipeline.Wal, state0: Indexes,
                                table: string, records: Table, order: seq<string>)
      requires table in data0
      reads this, log, manager, manager.objects
    {
      && Valid() && InRecords(order, records)
      && data == WithTable(data0, table, data0[table] + Visited(records, order))
      && log.State() == WalPipeline.AppendAll(log0, WriteEntries(table, records, order))
      && manager.state == RefileRecords(manager.fmt, state0, table, data0[table], records, order)
    }

    method VisitOne(ghost data0: Data, ghost log0: WalPipeline.Wal, ghost state0: Indexes,
                    table: string, records: Table, ghost order: seq<string>, key: string)
      requires table in data0 && key in records
      requires PartVisited(data0, log0, state0, table, records, order)
      modifies this`data, log, manager`state, manager.objects
      ensures PartVisited(data0, log0, state0, table, records, order + [key])
    {
      ghost var rows := data0[table];
      VisitNext(rows, records, order, key);
      OrderNext(manager.fmt, state0, table, rows, records, order, key);
      SetTwice(data0, table, rows + Visited(records, order), rows + Visited(records, order + [key]));
      hide StepTable, Refiling, Visited, Database.Valid, WithTable, InRecords, WriteEntries, RefileRecords;
      WriteCell(table, key, records[key]);
    }

    method VisitRecords(table: string, records: Table) returns (ghost order: seq<string>)
      requires Valid() && table in data
      modifies this`data, log, manager`state, manager.objects
      ensures IsOrderOf(order, records)
      ensures PartVisited(old(data), old(log.State()), old(manager.state), table, records, order)
    {
      order := [];
      var todo := records.Keys;
      ghost var data0, log0, state0 := data, log.State(), manager.state;
      NothingVisited(manager.fmt, state0, data, table, records);
      while todo != {}
        invariant todo <= records.Keys && IsOrderOf(order, records - todo)
        invariant PartVisited(data0, log0, state0, table, records, order)
        decreases todo
      {
        hide PartVisited, IsOrderOf;
        var key :| key in todo;
        OrderGrows(order, records, todo, key);
        VisitOne(data0, log0, state0, table, records, order, key);
        order, todo := order + [key], todo - {key};
      }
      assert records - todo == records;
    }

    /** One turn of the loop in processBatch. A nil operation, or one without a reply
        channel, is passed over without a reply and without being counted as done. */
    method ApplyOne(op: Operation) returns (counted: bool, ghost order: seq<string>)
      requires Valid()
      modifies this`data, this`replies, this`pendingOps, log, manager`state, manager.objects
      ensures Valid() && OrderFits(op, order)
      ensures counted == Counted(old(data), op)
      ensures data == Effect(old(data), op)
      ensures replies == old(replies) + if Handled(op) then [ReplyTo(old(data), op)] else []
      ensures pendingOps == old(pendingOps) - if Handled(op) then 1 else 0
      ensures log.State() == WalPipeline.AppendAll(old(log.State()), EntriesOf(old(data), op, order))
      ensures manager.state == IndexEffect(manager.fmt, old(manager.state), old(data), op, order)
    {
      order := [];
      counted := false;
      if op.NilOperation? { return; }
      if !op.hasReply {
        if op.opType.OpBatch? { order := SomeOrder(op.records); }
        return;
      }
      hide Database.Valid, ReplyTo, IndexEffect, EntriesOf, Effect;
      var reply;
      match op.opType {
        case OpCreate => reply := ApplyCreate(op); counted := true;
        case OpWrite => reply := ApplyWrite(op); counted := reply == Done;
        case OpDelete => reply := ApplyDelete(op); counted := reply == Done;
        case OpBatch => reply, order := ApplyBatch(op); counted := reply == Done;
        case OpUnknown => reply := UnknownOperation;
      }
      pendingOps := pendingOps - 1;
      replies := replies + [reply];
    }

    /** What holds once some operations have been carried out under the lock. */
    ghost predicate Progress(data0: Data, log0: WalPipeline.Wal, state0: Indexes, replies0: seq<Reply>,
                             pending0: int, ops: seq<Operation>, orders: seq<seq<string>>)
      reads this, log, manager, manager.objects
    {
      && Valid() && OrdersFit(ops, orders)
      && data == Effects(data0, ops)
      && replies == replies0 + Replies(data0, ops)
      && pendingOps == pending0 - |Replies(data0, ops)|
      && log.State() == WalPipeline.AppendAll(log0, Entries(data0, ops, orders))
      && manager.state == IndexEffects(manager.fmt, state0, data0, ops, orders)
    }

    method Advance(ghost data0: Data, ghost log0: WalPipeline.Wal, ghost state0: Indexes,
                   ghost replies0: seq<Reply>, ghost pending0: int,
                   ghost ops: seq<Operation>, ghost orders: seq<seq<string>>, op: Operation)
      returns (counted: bool, ghost orders': seq<seq<string>>)
      requires Progress(data0, log0, state0, replies0, pending0, ops, orders)
      modifies this`data, this`replies, this`pendingOps, log, manager`state, manager.objects
      ensures Progress(data0, log0, state0, replies0, pending0, ops + [op], orders')
      ensures Successes(data0, ops + [op]) == Successes(data0, ops) + if counted then 1 else 0
    {
      hide Effect, Effects, EntriesOf, Entries, IndexEffect, IndexEffects, ReplyTo, Replies, Successes, OrderFits,
        OrdersFit, Database.Valid, WriteOps.Counted;
      ghost var fmt, data1 := manager.fmt, data;
      ghost var order;
      counted, order := ApplyOne(op);
      orders' := orders + [order];
      Snoc(fmt, state0, data0, ops, orders, op, order);
      assert replies == replies0 + Replies(data0, ops + [op]);
      assert log.State() == WalPipeline.AppendAll(log0, Entries(data0, ops + [op], orders'));
    }

    /** The loop of processBatch. */
    method PerformAll(ops: seq<Operation>) returns (successCount: nat, ghost orders: seq<seq<string>>)
      requires Valid()
      modifies this`data, this`replies, this`pendingOps, log, manager`state, manager.objects
      ensures Progress(old(data), old(log.State()), old(manager.state), old(replies), old(pendingOps), ops, orders)
      ensures successCount == Successes(old(data), ops)
    {
      orders := [];
      ghost var data0, log0, state0, replies0, pending0 := data, log.State(), manager.state, replies, pendingOps;
      successCount := 0;
      var i := 0;
      while i < |ops|
        invariant 0 <= i <= |ops|
        invariant Progress(data0, log0, state0, replies0, pending0, ops[..i], orders)
        invariant successCount == Successes(data0, ops[..i])
      {
        var counted;
        counted, orders := Advance(data0, log0, state0, replies0, pending0, ops[..i], orders, ops[i]);
        assert ops[..i] + [ops[i]] == ops[..i + 1];
        successCount := successCount + if counted then 1 else 0;
        i := i + 1;
      }
      assert ops[..|ops|] == ops;
    }

    /** processBatch. Whatever succeeds, the version goes up by one and the store is dirty;
        if nothing does, neither changes. Indexes that agree with the store go on agreeing. */
    method ProcessBatch(ops: seq<Operation>) returns (ghost orders: seq<seq<string>>)
      requires Valid()
      modifies this, log, manager`state, manager.objects
      ensures Progress(old(data), old(log.State()), old(manager.state), old(replies), old(pendingOps), ops, orders)
      ensures version == old(version) + if Successes(old(data), ops) > 0 then 1 else 0
      ensures dirty == (old(dirty) || Successes(old(data), ops) > 0)
      ensures closed == old(closed)
      ensures old(AllAgree(manager.fmt, manager.state, data)) ==> AllAgree(manager.fmt, manager.state, data)
    {
      hide AllAgree, Effects, Entries, IndexEffects, Replies, Successes, Database.Valid, OrdersFit;
      ghost var data0, state0 := data, manager.state;
      var successCount;
      successCount, orders := PerformAll(ops);
      if AllAgree(manager.fmt, state0, data0) {
        IndexEffectsAgree(manager.fmt, state0, data0, ops, orders);
      }
      if successCount > 0 {
        version := version + 1;
        dirty := true;
      }
    }

    /** processWriteBuffer. The loop runs the batches that Loop says; however they are cut,
        what results is what the operations do one at a time in channel order. A tick leaves
        nothing waiting, and all that was received before it done; draining leaves less
        waiting than a batch; and the end of the loop leaves nothing. */
    method ProcessWriteBuffer(events: seq<Event>)
      returns (ghost done: seq<Operation>, ghost left: seq<Operation>, ghost orders: seq<seq<string>>)
      requires Valid()
      modifies this, log, manager`state, manager.objects
      ensures Progress(old(data), old(log.State()), old(manager.state), old(replies), old(pendingOps), done, orders)
      ensures done == AllOf(Loop(events).batches) && left == Loop(events).waiting
      ensures version == old(version) + Changing(old(data), Loop(events).batches)
      ensures done + left == Received(events)
      ensures Ends(events) || (|events| > 0 && events[|events| - 1].Tick?) ==> left == []
      ensures LastWhileDraining(events) ==> |left| < 50
      ensures forall i :: 0 <= i < |events| && events[i].Tick? ==> Received(events[..i]) <= done
      ensures version >= old(version) && (version == old(version) ==> data == old(data))
      ensures dirty == (old(dirty) || version > old(version)) && closed == old(closed)
    {
      ghost var start := Moment(data, log.State(), manager.state, replies, pendingOps, version, dirty, closed);
      var pending: seq<Operation> := [];
      done, left, orders := [], [], [];
      ghost var batches: seq<seq<Operation>> := [];
      assert LoopAt(events, 0, batches, pending, true);
      assert InLoop(start, events, 0, batches, pending, true, orders);
      hide InLoop, LoopAt, Loop, Received, Ends, Changing;
      var i, running := 0, true;
      while i < |events| && running
        invariant 0 <= i <= |events|
        invariant InLoop(start, events, i, batches, pending, running, orders)
      {
        batches, pending, running, orders := TakeEvent(start, events, i, batches, pending, orders);
        i := i + 1;
      }
      LoopDone(start, events, i, batches, pending, running, orders);
      done, left := AllOf(batches), pending;
    }

    /** What holds between two events: the loop is where Loop says, and all its batches have
        been carried out since the start. */
    ghost predicate InLoop(start: Moment, events: seq<Event>, i: nat, batches: seq<seq<Operation>>,
                           pending: seq<Operation>, running: bool, orders: seq<seq<string>>)
      reads this, log, manager, manager.objects
    {
      && LoopAt(events, i, batches, pending, running)
      && Progress(start.data, start.log, start.indexes, start.replies, start.pendingOps, AllOf(batches), orders)
      && version == start.version + Changing(start.data, batches)
      && (version == start.version ==> data == start.data)
      && dirty == (start.dirty || version > start.version) && closed == start.closed
    }

    lemma LoopDone(start: Moment, events: seq<Event>, i: nat, batches: seq<seq<Operation>>,
                   pending: seq<Operation>, running: bool, orders: seq<seq<string>>)
      requires InLoop(start, events, i, batches, pending, running, orders) && (running ==> i == |events|)
      ensures Progress(start.data, start.log, start.indexes, start.replies, start.pendingOps, AllOf(batches), orders)
      ensures batches == Loop(events).batches && pending == Loop(events).waiting
      ensures version == start.version + Changing(start.data, batches)
      ensures AllOf(batches) + pending == Received(events)
      ensures Ends(events) || (|events| > 0 && events[|events| - 1].Tick?) ==> pending == []
      ensures LastWhileDraining(events) ==> |pending| < 50
      ensures forall i :: 0 <= i < |events| && events[i].Tick? ==> Received(events[..i]) <= AllOf(batches)
      ensures version == start.version ==> data == start.data
      ensures dirty == (start.dirty || version > start.version) && closed == start.closed
    {
      hide Progress, Loop, AllOf, Received, Ends, Changing, LoopAt, LastWhileDraining;
      LoopAtEnd(events, i, batches, pending, running);
      LoopMeans(events);
    }

    /** One turn of the loop. */
    method TakeEvent(ghost start: Moment, events: seq<Event>, i: nat, ghost batches: seq<seq<Operation>>,
                     waiting: seq<Operation>, ghost orders: seq<seq<string>>)
      returns (ghost batches': seq<seq<Operation>>, pending: seq<Operation>, running: bool,
              ghost orders': seq<seq<string>>)
      requires i < |events| && InLoop(start, events, i, batches, waiting, true, orders)
      modifies this, log, manager`state, manager.objects
      ensures InLoop(start, events, i + 1, batches', pending, running, orders')
    {
      hide Progress, Loop, AllOf, Changing, LoopAt;
      LoopAtNext(events, i, batches, waiting);
      pending, running, batches', orders' := waiting, true, batches, orders;
      var runNow := false;
      match events[i] {
        case Got(op, draining) =>
          if !op.NilOperation? {
            pending := pending + [op];
            runNow := draining && |pending| >= BATCH_THRESHOLD;
          }
        case Tick => runNow := true;
        case _ => runNow, running := true, false;
      }
      if runNow {
        OneMoreBatch(batches, pending);
        ChangingGrows(start.data, batches, pending);
        ghost var done;
        done, orders' := RunBatch(start.data, start.log, start.indexes, start.replies, start.pendingOps,
                                  AllOf(batches), orders, pending);
        batches', pending := batches + [pending], [];
      }
    }

    /** One batch in the middle of a run. */
    method RunBatch(ghost data0: Data, ghost log0: WalPipeline.Wal, ghost state0: Indexes,
                    ghost replies0: seq<Reply>, ghost pending0: int,
                    ghost done: seq<Operation>, ghost orders: seq<seq<string>>, batch: seq<Operation>)
      returns (ghost done': seq<Operation>, ghost orders': seq<seq<string>>)
      requires Progress(data0, log0, state0, replies0, pending0, done, orders)
      modifies this, log, manager`state, manager.objects
      ensures Progress(data0, log0, state0, replies0, pending0, done', orders') && done' == done + batch
      ensures version == old(version) + if Successes(Effects(data0, done), batch) > 0 then 1 else 0
      ensures version == old(version) ==> data == old(data)
      ensures dirty == (old(dirty) || version > old(version)) && closed == old(closed)
    {
      hide Effects, Entries, IndexEffects, Replies, Successes, OrdersFit, Database.Valid;
      ghost var fmt, data1 := manager.fmt, data;
      ghost var more := ProcessBatch(batch);
      done', orders' := done + batch, orders + more;
      EffectsConcat(data0, done, batch);
      EntriesConcat(data0, done, batch, orders, more);
      IndexEffectsConcat(fmt, state0, data0, done, batch, orders, more);
      if Successes(data1, batch) == 0 { NoSuccessNoChange(data1, batch); }
      assert replies == replies0 + Replies(data0, done + batch);
      assert log.State() == WalPipeline.AppendAll(log0, Entries(data0, done + batch, orders'));
    }

    // Transactions.

    method BeginTransaction() returns (t: Transaction)
      requires Valid()
      modifies txManager
      ensures fresh(t) && t.State() == Started(data, version)
      ensures t.snapshot == data && t.snapshotVersion == version && t.changes == map[] && !t.committed && !t.aborted
      ensures txManager.counter == old(txManager.counter) + 1 && t.id == txManager.counter
    {
      t := txManager.Begin(data);
      t.snapshotVersion := version;
    }

    /** CommitTransaction. The manager finalizes the transaction first, so it is spent even
        when the version check then finds a conflict; only without one does its change set
        reach the store, whole, and raise the version. */
    method CommitTransaction(t: Transaction) returns (outcome: CommitOutcome)
      requires Valid()
      modifies this`data, this`version, this`dirty, txManager, t`committed
      ensures Valid()
      ensures outcome == if old(t.State()).Finalized() then AlreadyFinalized
                         else if old(version) != t.snapshotVersion then Conflict(t.snapshotVersion, old(version))
                         else Applied
      ensures t.State() == MarkCommitted(old(t.State()))
      ensures outcome.Applied? ==> data == ApplyChanges(old(data), t.changes) && version == old(version) + 1 && dirty
      ensures !outcome.Applied? ==> data == old(data) && version == old(version) && dirty == old(dirty)
      ensures txManager.committed == old(txManager.committed) + if outcome.AlreadyFinalized? then 0 else 1
    {
      var changes := txManager.Commit(t);
      if changes.None? { return AlreadyFinalized; }
      if version != t.snapshotVersion {
        return Conflict(t.snapshotVersion, version);
      }
      ApplyChangeSet(changes.value);
      version := version + 1;
      dirty := true;
      outcome := Applied;
    }

    method ApplyChangeSet(changes: Changes)
      modifies this`data
      ensures data == ApplyChanges(old(data), changes)
    {
      var todo := changes.Keys;
      NothingMerged(data, changes, map[], map[]);
      while todo != {}
        invariant todo <= changes.Keys
        invariant data == ApplyChanges(old(data), changes - todo)
        decreases todo
      {
        var table :| table in todo;
        ChangesStep(old(data), changes, todo, table);
        MergeRecords(table, changes[table]);
        todo := todo - {table};
      }
    }

    method MergeOne(table: string, key: string, value: Value)
      requires table in data
      modifies this`data
      ensures data == WithTable(old(data), table, ApplyRecord(old(data)[table], key, value))
    {
      if value.Nil? {
        data := data[table := data[table] - {key}];
      } else {
        data := data[table := Put(data[table], key, value)];
      }
    }

    method MergeRecords(table: string, records: Table)
      modifies this`data
      ensures data == WithTable(old(data), table, Merged(TableOf(old(data), table), records))
    {
      ghost var rows, data0 := TableOf(data, table), data;
      if table !in data {
        data := data[table := map[]];
      }
      var todo := records.Keys;
      NothingMerged(data, map[], rows, records);
      assert data == WithTable(data0, table, rows);
      hide Merged;
      while todo != {}
        invariant todo <= records.Keys
        invariant data == WithTable(data0, table, Merged(rows, records - todo))
        decreases todo
      {
        var key :| key in todo;
        MergedStep(rows, records, todo, key);
        SetTwice(data0, table, Merged(rows, records - todo), Merged(rows, records - (todo - {key})));
        hide ApplyRecord, WithTable;
        MergeOne(table, key, records[key]);
        todo := todo - {key};
      }
    }

    // Indexes.

    /** CreateIndex. The table is looked up under the read lock, but scanned after it has been
        released: seen is what the scan comes upon. The index agrees with the store, as the
        others do, if and only if every key is still filed where the scan found it. */
    method CreateIndex(table: string, field: string, seen: Table)
      requires Valid()
      modifies manager
      ensures Valid() && fresh(manager.objects - old(manager.objects))
      ensures table in manager.state && field in manager.state[table]
      ensures var known := table in old(manager.state) && field in old(manager.state)[table];
              old(AllAgree(manager.fmt, manager.state, data)) ==>
                (AllAgree(manager.fmt, manager.state, data) <==>
                 known || forall key ::
                   Filing(manager.fmt, field, seen, key) == Filing(manager.fmt, field, TableOf(data, table), key))
    {
      ghost var before := manager.state;
      manager.CreateIndex(table, field, seen);
      hide Agrees;
      if AllAgree(manager.fmt, before, data) && !(table in before && field in before[table]) {
        StaleScanAgreesIff(manager.fmt, field, manager.state[table][field], seen, TableOf(data, table));
        NewIndexAgreesIff(manager.fmt, before, data, table, field, manager.state[table][field]);
      }
    }

    /** QueryByIndex: the rows listed under the value that are still there. When the indexes
        agree with the store these are the rows a scan would find, each once. */
    method QueryByIndex(table: string, field: string, value: Tree)
      returns (r: Option<seq<Value>>, ghost keys: seq<string>)
      requires Valid()
      ensures r.None? <==> !(table in manager.state && field in manager.state[table])
      ensures r.Some? ==> r.value == Present(TableOf(data, table), keys)
      ensures r.Some? && AllAgree(manager.fmt, manager.state, data) ==>
                IsScan(manager.fmt, field, TableOf(data, table), FormatIndexValue(manager.fmt, value), keys, r.value)
      ensures r.Some? && AllAgree(manager.fmt, manager.state, data) ==>
                RowsOf(manager.fmt, field, value, TableOf(data, table), keys, r.value)
    {
      ghost var rows := TableOf(data, table);
      keys := [];
      var q := manager.Query(table, field, value);
      if !q.Keys? { return None, keys; }
      keys := q.keys;
      if AllAgree(manager.fmt, manager.state, data) {
        QueryIsScan(manager.fmt, field, manager.state[table][field], TableOf(data, table),
                    FormatIndexValue(manager.fmt, value), q.keys);
        ScanIsAnswer(manager.fmt, field, rows, value, q.keys, Present(rows, q.keys));
      }
      hide RowsOf, AllAgree, FormatIndexValue, IsScan;
      var results := [];
      if table in data {
        for i := 0 to |q.keys|
          invariant results == Present(data[table], q.keys[..i])
        {
          assert q.keys[..i + 1][..i] == q.keys[..i];
          if q.keys[i] in data[table] {
            results := results + [data[table][q.keys[i]]];
          }
        }
        assert q.keys[..|q.keys|] == q.keys;
      } else {
        NonePresent(q.keys);
      }
      r := Some(results);
    }

    // The verified flush.

    /** The snapshot on disk loads, and is the same JSON as the store. */
    ghost predicate DiskMatches()
      reads this, engine
    {
      Matches(engine.codec, engine.disk, data)
    }

    /** waitForPendingOps: observed is what the counter reads on each poll before the
        timeout or the shutdown. */
    method WaitForPendingOps(observed: seq<int>) returns (ok: bool)
      ensures ok <==> 0 in observed
    {
      var i := 0;
      while i < |observed|
        invariant 0 <= i <= |observed| && 0 !in observed[..i]
      {
        if observed[i] == 0 { return true; }
        i := i + 1;
      }
      ok := false;
    }

    /** Flush. nil means the snapshot has been read back and matches, or that there was
        nothing to save; the flag is lowered only in the first case. */
    method Flush(observed: seq<int>, fault: Fault) returns (ok: bool)
      requires Valid()
      modifies this`dirty, engine, log
      ensures Valid()
      ensures ok ==> !closed && 0 in observed
      ensures ok && old(dirty) ==> DiskMatches() && !dirty && log.State() == WalPipeline.Sync(old(log.State()))
      ensures ok && !old(dirty) ==> !dirty && engine.disk == old(engine.disk) && log.State() == old(log.State())
      ensures !ok ==> dirty == old(dirty) && log.State() == old(log.State())
      ensures engine.disk.file
              == if !closed && 0 in observed && old(dirty) && fault.NoFault? && Encode(engine.codec, data).Some?
                then Encode(engine.codec, data) else old(engine.disk.file)
      ensures ok == (!closed && 0 in observed
                     && (old(dirty) ==> fault.NoFault? && Encode(engine.codec, data).Some?
                                        && Matches(engine.codec, Disk(Encode(engine.codec, data), None), data)))
    {
      if closed { return false; }
      var drained := WaitForPendingOps(observed);
      if !drained { return false; }
      if !dirty { return true; }
      var saved := engine.Save(data, fault);
      if !saved { return false; }
      var verified := VerifyFlush();
      if !verified { return false; }
      var _ := log.Sync();
      dirty := false;
      ok := true;
    }

    method VerifyFlush() returns (ok: bool)
      ensures ok == DiskMatches()
    {
      var reloaded := engine.Load();
      if reloaded.None? { return false; }
      var a, b := engine.codec.marshal(data), engine.codec.marshal(reloaded.value);
      ok := a.Some? && b.Some? && a.value == b.value;
    }
  }

  /** The rows of the keys that are in the table, in the keys' order. */
  function Present(rows: Table, keys: seq<string>): seq<Value> {
    if |keys| == 0 then []
    else
      var last := keys[|keys| - 1];
      Present(rows, keys[..|keys| - 1]) + if last in rows then [rows[last]] else []
  }

  /** The keys are those, each once, whose field has the given text, and the results their rows. */
  ghost predicate IsScan(fmt: Formatter, field: string, rows: Table, text: string, keys: seq<string>,
                         results: seq<Value>) {
    && NoDuplicates(keys) && |results| == |keys|
    && (forall k :: k in keys <==> Found(fmt, field, rows, text, k))
    && (forall i :: 0 <= i < |keys| ==> keys[i] in rows && results[i] == rows[keys[i]])
  }

  /** The keys are those, each once, whose rows answer a query for the value, and the results
      their rows. */
  ghost predicate RowsOf(fmt: Formatter, field: string, value: Tree, rows: Table, keys: seq<string>,
                         results: seq<Value>) {
    && NoDuplicates(keys) && |results| == |keys|
    && (forall k :: k in keys <==> k in rows && Answers(fmt, field, value, rows[k]))
    && (forall i :: 0 <= i < |keys| ==> keys[i] in rows && results[i] == rows[keys[i]])
  }

  lemma ScanIsAnswer(fmt: Formatter, field: string, rows: Table, value: Tree, keys: seq<string>, results: seq<Value>)
    requires IsScan(fmt, field, rows, FormatIndexValue(fmt, value), keys, results)
    ensures RowsOf(fmt, field, value, rows, keys, results)
  {
    hide Answers, Found, FormatIndexValue;
    forall k
      ensures k in keys <==> k in rows && Answers(fmt, field, value, rows[k])
    {
      FoundIsAnswer(fmt, field, rows, value, k);
    }
  }

  lemma {:induction false} NonePresent(keys: seq<string>)
    ensures Present(map[], keys) == []
  {
    if |keys| > 0 { NonePresent(keys[..|keys| - 1]); }
  }

  lemma {:induction false} AllPresent(rows: Table, keys: seq<string>)
    requires forall i :: 0 <= i < |keys| ==> keys[i] in rows
    ensures |Present(rows, keys)| == |keys|
    ensures forall i :: 0 <= i < |keys| ==> Present(rows, keys)[i] == rows[keys[i]]
  {
    if |keys| > 0 { AllPresent(rows, keys[..|keys| - 1]); }
  }

  lemma QueryIsScan(fmt: Formatter, field: string, p: Postings, rows: Table, text: string, keys: seq<string>)
    requires Agrees(fmt, field, p, rows)
    requires keys == if text in p then p[text] else []
    ensures IsScan(fmt, field, rows, text, keys, Present(rows, keys))
  {
    assert forall k :: k in keys <==> Listed(p, text, k);
    assert forall k :: Listed(p, text, k) <==> Found(fmt, field, rows, text, k);
    assert forall i :: 0 <= i < |keys| ==> keys[i] in keys;
    AllPresent(rows, keys);
  }

  ghost predicate Matches(c: FileCodec, disk: Disk, data: Data) {
    var loaded := Loaded(c, disk);
    && loaded.Some?
    && c.marshal(data).Some?
    && c.marshal(loaded.value) == c.marshal(data)
  }

  /** One more operation, in each of the sequences that describe a run. */
  lemma Snoc(fmt: Formatter, state0: Indexes, data0: Data,
             ops: seq<Operation>, orders: seq<seq<string>>, op: Operation, order: seq<string>)
    requires OrdersFit(ops, orders) && OrderFits(op, order)
    ensures var data := Effects(data0, ops);
            && OrdersFit(ops + [op], orders + [order])
            && Effects(data0, ops + [op]) == Effect(data, op)
            && Replies(data0, ops + [op]) == Replies(data0, ops) + (if Handled(op) then [ReplyTo(data, op)] else [])
            && Successes(data0, ops + [op]) == Successes(data0, ops) + (if WriteOps.Counted(data, op) then 1 else 0)
            && Entries(data0, ops + [op], orders + [order]) == Entries(data0, ops, orders) + EntriesOf(data, op, order)
            && IndexEffects(fmt, state0, data0, ops + [op], orders + [order])
               == IndexEffect(fmt, IndexEffects(fmt, state0, data0, ops, orders), data, op, order)
  {
    hide Effect, EntriesOf, IndexEffect, ReplyTo, WriteOps.Counted, OrderFits;
    assert (ops + [op])[..|ops|] == ops && (orders + [order])[..|orders|] == orders;
  }

  lemma NothingVisited(fmt: Formatter, indexes: Indexes, data: Data, table: string, records: Table)
    requires table in data
    ensures InRecords([], records) && IsOrderOf([], map[])
    ensures WithTable(data, table, data[table] + Visited(records, [])) == data
    ensures WriteEntries(table, records, []) == []
    ensures RefileRecords(fmt, indexes, table, data[table], records, []) == indexes
    ensures records - records.Keys == map[]
  {
    assert data[table] + Visited(records, []) == data[table];
  }

  lemma OrderGrows(order: seq<string>, records: Table, todo: set<string>, key: string)
    requires todo <= records.Keys && key in todo && IsOrderOf(order, records - todo)
    ensures IsOrderOf(order + [key], records - (todo - {key}))
  {
  }

  lemma OrderNext(fmt: Formatter, indexes: Indexes, table: string, rows: Table, records: Table,
                  order: seq<string>, key: string)
    requires InRecords(order, records) && key in records
    ensures InRecords(order + [key], records)
    ensures WriteEntries(table, records, order + [key])
         == WriteEntries(table, records, order) + [Entry(OP_WRITE, table, key, records[key])]
    ensures RefileRecords(fmt, indexes, table, rows, records, order + [key])
         == StepTable(RefileRecords(fmt, indexes, table, rows, records, order), table,
                      Refiling(fmt, key, Lookup(rows + Visited(records, order), key), records[key]))
  {
    assert (order + [key])[..|order|] == order;
    hide StepTable, Refiling, Lookup, Visited;
  }

  ghost function SomeOrder(records: Table): (order: seq<string>)
    ensures IsOrderOf(order, records)
    decreases |records|
  {
    if records == map[] then []
    else
      var k :| k in records;
      SomeOrder(records - {k}) + [k]
  }
}
