/** The three mutexes of the write path, and why no number of threads can deadlock on them
    (database.go, flush.go, modules/wal/wal.go, modules/wal/wal_sync.go). No wait on a channel
    under one of them is without a timeout, so these are steps that can always be taken; what
    waits for a reply without one holds no mutex. */
module LockOrder {
  datatype Mutex = DataMutex | CloseMutex | BatchMutex

  /** dataMutex before closeMutex before batchMutex. */
  function Rank(m: Mutex): nat {
    match m
    case DataMutex => 0
    case CloseMutex => 1
    case BatchMutex => 2
  }

  datatype Instr = Lock(m: Mutex) | Unlock(m: Mutex) | Work

  type Code = seq<Instr>

  /** The mutexes held after running code, starting with those in held. */
  function HeldAfter(held: set<Mutex>, code: Code): set<Mutex>
    decreases |code|
  {
    if |code| == 0 then held else HeldAfter(HeldThen(held, code[0]), code[1..])
  }

  function HeldThen(held: set<Mutex>, i: Instr): set<Mutex> {
    match i
    case Lock(m) => held + {m}
    case Unlock(m) => held - {m}
    case Work => held
  }

  /** Code locks only above what it holds, and unlocks only what it holds. */
  predicate InOrder(held: set<Mutex>, code: Code)
    decreases |code|
  {
    |code| > 0 ==>
      && (code[0].Lock? ==> forall h :: h in held ==> Rank(h) < Rank(code[0].m))
      && (code[0].Unlock? ==> code[0].m in held)
      && InOrder(HeldThen(held, code[0]), code[1..])
  }

  lemma {:induction false} InOrderConcat(held: set<Mutex>, a: Code, b: Code)
    requires InOrder(held, a) && InOrder(HeldAfter(held, a), b)
    ensures InOrder(held, a + b) && HeldAfter(held, a + b) == HeldAfter(HeldAfter(held, a), b)
    decreases |a|
  {
    if |a| == 0 {
      assert a + b == b;
    } else {
      assert (a + b)[1..] == a[1..] + b;
      InOrderConcat(HeldThen(held, a[0]), a[1..], b);
    }
  }

  lemma OneInOrder(held: set<Mutex>, i: Instr)
    requires i.Lock? ==> forall h :: h in held ==> Rank(h) < Rank(i.m)
    requires i.Unlock? ==> i.m in held
    ensures InOrder(held, [i]) && HeldAfter(held, [i]) == HeldThen(held, i)
  {
    assert [i][1..] == [];
  }

  // What the operations run, with their early exits.

  datatype Task =
    | AppendTask(closed: bool)
    | BatchWriterTask(flushes: bool)
    | PeriodicSyncTask(closed: bool)
    | RotateTask(closed: bool)
    | SyncTask(closed: bool)
    | TruncateTask(closed: bool)
    | ProcessBatchTask(appends: nat)
    | CommitTask
    | FlushTask(early: bool, closed: bool)

  function FlushBatchCode(): Code {
    [Lock(BatchMutex), Work, Unlock(BatchMutex)]
  }

  function CheckClosed(): Code {
    [Lock(CloseMutex), Work, Unlock(CloseMutex)]
  }

  function AppendCode(closed: bool): Code {
    if closed then CheckClosed() else CheckClosed() + [Work]
  }

  function SyncCode(closed: bool): Code {
    if closed then CheckClosed() else CheckClosed() + ([Work] + FlushBatchCode())
  }

  function AppendsCode(n: nat): Code {
    if n == 0 then [] else AppendCode(false) + AppendsCode(n - 1)
  }

  function CodeOf(t: Task): Code {
    match t
    case AppendTask(closed) => AppendCode(closed)
    case BatchWriterTask(flushes) => FlushBatchCode() + if flushes then FlushBatchCode() else []
    case PeriodicSyncTask(closed) => SyncCode(closed)
    case RotateTask(closed) =>
      [Lock(CloseMutex)] + ((if closed then [] else FlushBatchCode()) + [Unlock(CloseMutex)])
    case SyncTask(closed) => SyncCode(closed)
    case TruncateTask(closed) =>
      [Lock(CloseMutex)] + ((if closed then [] else FlushBatchCode()) + [Unlock(CloseMutex)])
    case ProcessBatchTask(n) => [Lock(DataMutex)] + (AppendsCode(n) + [Unlock(DataMutex)])
    case CommitTask => [Lock(DataMutex)] + ([Work] + [Unlock(DataMutex)])
    case FlushTask(early, closed) =>
      [Lock(DataMutex)] + ((if early then [] else SyncCode(closed)) + [Unlock(DataMutex)])
  }

  lemma PartsInOrder(held: set<Mutex>, closed: bool)
    requires held <= {DataMutex}
    ensures InOrder(held, FlushBatchCode()) && HeldAfter(held, FlushBatchCode()) == held
    ensures InOrder(held, CheckClosed()) && HeldAfter(held, CheckClosed()) == held
    ensures InOrder(held, AppendCode(closed)) && HeldAfter(held, AppendCode(closed)) == held
    ensures InOrder(held, SyncCode(closed)) && HeldAfter(held, SyncCode(closed)) == held
  {
    OneInOrder(held + {BatchMutex}, Work);
    OneInOrder(held + {CloseMutex}, Work);
    Bracketed(held, BatchMutex, [Work]);
    assert FlushBatchCode() == [Lock(BatchMutex)] + ([Work] + [Unlock(BatchMutex)]);
    Bracketed(held, CloseMutex, [Work]);
    assert CheckClosed() == [Lock(CloseMutex)] + ([Work] + [Unlock(CloseMutex)]);
    OneInOrder(held, Work);
    InOrderConcat(held, CheckClosed(), [Work]);
    InOrderConcat(held, [Work], FlushBatchCode());
    InOrderConcat(held, CheckClosed(), [Work] + FlushBatchCode());
  }

  /** Code that gives back what it takes can be run inside a lower mutex. */
  lemma Bracketed(held: set<Mutex>, m: Mutex, inner: Code)
    requires m !in held && forall h :: h in held ==> Rank(h) < Rank(m)
    requires InOrder(held + {m}, inner) && HeldAfter(held + {m}, inner) == held + {m}
    ensures InOrder(held, [Lock(m)] + (inner + [Unlock(m)]))
    ensures HeldAfter(held, [Lock(m)] + (inner + [Unlock(m)])) == held
  {
    assert held + {m} - {m} == held;
    OneInOrder(held + {m}, Unlock(m));
    InOrderConcat(held + {m}, inner, [Unlock(m)]);
    OneInOrder(held, Lock(m));
    InOrderConcat(held, [Lock(m)], inner + [Unlock(m)]);
  }

  lemma {:induction false} AppendsInOrder(n: nat)
    ensures InOrder({DataMutex}, AppendsCode(n)) && HeldAfter({DataMutex}, AppendsCode(n)) == {DataMutex}
  {
    if n > 0 {
      AppendsInOrder(n - 1);
      PartsInOrder({DataMutex}, false);
      InOrderConcat({DataMutex}, AppendCode(false), AppendsCode(n - 1));
    }
  }

  /** Every operation of the write path, on every path through it, takes the mutexes in
      order and gives them all back: rotate and Truncate hold closeMutex around the batch,
      processBatch and Flush hold dataMutex around the log's own locking. */
  lemma TasksInOrder(t: Task)
    ensures InOrder({}, CodeOf(t)) && HeldAfter({}, CodeOf(t)) == {}
  {
    PartsInOrder({}, true);
    PartsInOrder({}, false);
    hide FlushBatchCode, CheckClosed, AppendCode, SyncCode, AppendsCode;
    match t
    case BatchWriterTask(flushes) =>
      InOrderConcat({}, FlushBatchCode(), if flushes then FlushBatchCode() else []);
    case RotateTask(closed) => UnderClose(closed);
    case TruncateTask(closed) => UnderClose(closed);
    case ProcessBatchTask(n) =>
      AppendsInOrder(n);
      assert {} + {DataMutex} == {DataMutex};
      Bracketed({}, DataMutex, AppendsCode(n));
    case CommitTask =>
      OneInOrder({} + {DataMutex}, Work);
      Bracketed({}, DataMutex, [Work]);
    case FlushTask(early, closed) =>
      PartsInOrder({DataMutex}, closed);
      assert {} + {DataMutex} == {DataMutex};
      Bracketed({}, DataMutex, if early then [] else SyncCode(closed));
    case _ =>
  }

  lemma UnderClose(closed: bool)
    ensures var inner := if closed then [] else FlushBatchCode();
            && InOrder({}, [Lock(CloseMutex)] + (inner + [Unlock(CloseMutex)]))
            && HeldAfter({}, [Lock(CloseMutex)] + (inner + [Unlock(CloseMutex)])) == {}
  {
    OneInOrder({CloseMutex} + {BatchMutex}, Work);
    Bracketed({CloseMutex}, BatchMutex, [Work]);
    assert FlushBatchCode() == [Lock(BatchMutex)] + ([Work] + [Unlock(BatchMutex)]);
    assert {} + {CloseMutex} == {CloseMutex};
    Bracketed({}, CloseMutex, if closed then [] else FlushBatchCode());
  }

  /** The mutexes held at each piece of work that code does, in order. */
  function WorkUnder(held: set<Mutex>, code: Code): seq<set<Mutex>>
    decreases |code|
  {
    if |code| == 0 then []
    else (if code[0].Work? then [held] else []) + WorkUnder(HeldThen(held, code[0]), code[1..])
  }

  lemma {:induction false} WorkConcat(held: set<Mutex>, a: Code, b: Code)
    ensures WorkUnder(held, a + b) == WorkUnder(held, a) + WorkUnder(HeldAfter(held, a), b)
    decreases |a|
  {
    if |a| == 0 {
      assert a + b == b;
    } else {
      hide HeldThen;
      assert (a + b)[1..] == a[1..] + b;
      var next, first := HeldThen(held, a[0]), if a[0].Work? then [held] else [];
      WorkConcat(next, a[1..], b);
      assert WorkUnder(held, a + b) == first + WorkUnder(next, a[1..] + b);
      assert HeldAfter(held, a) == HeldAfter(next, a[1..]);
    }
  }

  lemma OneWork(held: set<Mutex>)
    ensures WorkUnder(held, [Work]) == [held]
  {
    assert [Work][1..] == [];
  }

  /** The work of bracketed code is that of the inner code, one mutex further in. */
  lemma WorkInside(held: set<Mutex>, m: Mutex, inner: Code)
    ensures WorkUnder(held, [Lock(m)] + (inner + [Unlock(m)])) == WorkUnder(held + {m}, inner)
  {
    WorkConcat(held, [Lock(m)], inner + [Unlock(m)]);
    WorkConcat(held + {m}, inner, [Unlock(m)]);
    assert [Lock(m)][1..] == [] && [Unlock(m)][1..] == [];
  }

  /** What an entry's way into the log, and a sync, do under the mutexes held around them. */
  function AppendWork(held: set<Mutex>, closed: bool): seq<set<Mutex>> {
    [held + {CloseMutex}] + if closed then [] else [held]
  }

  function SyncWork(held: set<Mutex>, closed: bool): seq<set<Mutex>> {
    [held + {CloseMutex}] + if closed then [] else [held, held + {BatchMutex}]
  }

  /** The work of n appends on the open log, with dataMutex held throughout. */
  function AppendsWork(n: nat): seq<set<Mutex>> {
    if n == 0 then [] else AppendWork({DataMutex}, false) + AppendsWork(n - 1)
  }

  lemma PartsWork(held: set<Mutex>, closed: bool)
    requires held <= {DataMutex}
    ensures WorkUnder(held, FlushBatchCode()) == [held + {BatchMutex}]
    ensures WorkUnder(held, AppendCode(closed)) == AppendWork(held, closed)
    ensures WorkUnder(held, SyncCode(closed)) == SyncWork(held, closed)
  {
    OneWork(held + {BatchMutex});
    WorkInside(held, BatchMutex, [Work]);
    assert FlushBatchCode() == [Lock(BatchMutex)] + ([Work] + [Unlock(BatchMutex)]);
    OneWork(held + {CloseMutex});
    WorkInside(held, CloseMutex, [Work]);
    assert CheckClosed() == [Lock(CloseMutex)] + ([Work] + [Unlock(CloseMutex)]);
    PartsInOrder(held, closed);
    OneWork(held);
    OneInOrder(held, Work);
    WorkConcat(held, CheckClosed(), [Work]);
    WorkConcat(held, [Work], FlushBatchCode());
    WorkConcat(held, CheckClosed(), [Work] + FlushBatchCode());
  }

  lemma {:induction false} AppendsWorkIs(n: nat)
    ensures WorkUnder({DataMutex}, AppendsCode(n)) == AppendsWork(n)
  {
    if n > 0 {
      AppendsWorkIs(n - 1);
      PartsWork({DataMutex}, false);
      PartsInOrder({DataMutex}, false);
      hide WorkUnder, InOrder, HeldAfter, AppendCode;
      WorkConcat({DataMutex}, AppendCode(false), AppendsCode(n - 1));
    }
  }

  /** Each operation does its work, each piece of it under the mutexes that guard it: the batch
      is written under batchMutex, a commit and what a batch of n operations appends under
      dataMutex, and a rotation or truncation keeps the log open while it writes the batch. */
  lemma WorkIsGuarded(t: Task)
    ensures var work := WorkUnder({}, CodeOf(t));
            match t
            case AppendTask(closed) => work == AppendWork({}, closed)
            case BatchWriterTask(flushes) => work == [{BatchMutex}] + if flushes then [{BatchMutex}] else []
            case PeriodicSyncTask(closed) => work == SyncWork({}, closed)
            case RotateTask(closed) => work == if closed then [] else [{CloseMutex, BatchMutex}]
            case SyncTask(closed) => work == SyncWork({}, closed)
            case TruncateTask(closed) => work == if closed then [] else [{CloseMutex, BatchMutex}]
            case ProcessBatchTask(n) => work == AppendsWork(n)
            case CommitTask => work == [{DataMutex}]
            case FlushTask(early, closed) => work == if early then [] else SyncWork({DataMutex}, closed)
  {
    PartsWork({}, true);
    PartsWork({}, false);
    assert {} + {BatchMutex} == {BatchMutex} && {} + {DataMutex} == {DataMutex};
    hide FlushBatchCode, CheckClosed, AppendCode, SyncCode, AppendsCode;
    match t
    case BatchWriterTask(flushes) =>
      PartsInOrder({}, true);
      WorkConcat({}, FlushBatchCode(), if flushes then FlushBatchCode() else []);
    case RotateTask(closed) => WorkUnderClose(closed);
    case TruncateTask(closed) => WorkUnderClose(closed);
    case ProcessBatchTask(n) =>
      AppendsWorkIs(n);
      WorkInside({}, DataMutex, AppendsCode(n));
    case CommitTask =>
      OneWork({DataMutex});
      WorkInside({}, DataMutex, [Work]);
    case FlushTask(early, closed) =>
      PartsWork({DataMutex}, closed);
      WorkInside({}, DataMutex, if early then [] else SyncCode(closed));
    case _ =>
  }

  lemma WorkUnderClose(closed: bool)
    ensures WorkUnder({}, [Lock(CloseMutex)] + ((if closed then [] else FlushBatchCode()) + [Unlock(CloseMutex)])) ==
            if closed then [] else [{CloseMutex, BatchMutex}]
  {
    OneWork({CloseMutex} + {BatchMutex});
    WorkInside({CloseMutex}, BatchMutex, [Work]);
    assert FlushBatchCode() == [Lock(BatchMutex)] + ([Work] + [Unlock(BatchMutex)]);
    assert {} + {CloseMutex} == {CloseMutex} && {CloseMutex} + {BatchMutex} == {CloseMutex, BatchMutex};
    WorkInside({}, CloseMutex, if closed then [] else FlushBatchCode());
  }

  // Any number of threads.

  datatype Thread = Thread(held: set<Mutex>, rest: Code)

  predicate Blocked(ts: seq<Thread>, i: nat)
    requires i < |ts| && |ts[i].rest| > 0
  {
    ts[i].rest[0].Lock? && exists j :: 0 <= j < |ts| && ts[i].rest[0].m in ts[j].held
  }

  predicate Enabled(ts: seq<Thread>, i: nat) {
    i < |ts| && |ts[i].rest| > 0 && !Blocked(ts, i)
  }

  function StepThread(ts: seq<Thread>, i: nat): seq<Thread>
    requires Enabled(ts, i)
  {
    ts[i := Thread(HeldThen(ts[i].held, ts[i].rest[0]), ts[i].rest[1..])]
  }

  ghost predicate Sane(ts: seq<Thread>) {
    && (forall i :: 0 <= i < |ts| ==> InOrder(ts[i].held, ts[i].rest) && HeldAfter(ts[i].held, ts[i].rest) == {})
    && (forall i, j :: 0 <= i < j < |ts| ==> ts[i].held !! ts[j].held)
  }

  function Start(tasks: seq<Task>): seq<Thread> {
    seq(|tasks|, i requires 0 <= i < |tasks| => Thread({}, CodeOf(tasks[i])))
  }

  lemma StartSane(tasks: seq<Task>)
    ensures Sane(Start(tasks))
  {
    forall i | 0 <= i < |tasks|
      ensures InOrder({}, CodeOf(tasks[i])) && HeldAfter({}, CodeOf(tasks[i])) == {}
    {
      TasksInOrder(tasks[i]);
    }
  }

  /** No two threads ever hold the same mutex. */
  lemma StepSane(ts: seq<Thread>, i: nat)
    requires Sane(ts) && Enabled(ts, i)
    ensures Sane(StepThread(ts, i))
  {
  }

  /** A state some schedule reaches. */
  ghost predicate Reachable(ts: seq<Thread>, schedule: seq<nat>, us: seq<Thread>)
    decreases |schedule|
  {
    if |schedule| == 0 then us == ts
    else Enabled(ts, schedule[0]) && Reachable(StepThread(ts, schedule[0]), schedule[1..], us)
  }

  lemma {:induction false} ReachableSane(ts: seq<Thread>, schedule: seq<nat>, us: seq<Thread>)
    requires Sane(ts) && Reachable(ts, schedule, us)
    ensures Sane(us)
    decreases |schedule|
  {
    if |schedule| > 0 {
      StepSane(ts, schedule[0]);
      ReachableSane(StepThread(ts, schedule[0]), schedule[1..], us);
    }
  }

  ghost predicate Holds(ts: seq<Thread>, i: nat, m: Mutex) {
    i < |ts| && m in ts[i].held
  }

  /** Whoever holds the highest mutex that is held at all can take a step. */
  lemma TopHolderEnabled(ts: seq<Thread>, i: nat, m: Mutex)
    requires Sane(ts) && Holds(ts, i, m)
    requires forall j, n :: Holds(ts, j, n) ==> Rank(n) <= Rank(m)
    ensures Enabled(ts, i)
  {
    assert |ts[i].rest| > 0;
    if ts[i].rest[0].Lock? {
      var wanted := ts[i].rest[0].m;
      assert Rank(m) < Rank(wanted);
      forall k | 0 <= k < |ts|
        ensures wanted !in ts[k].held
      {
        assert Holds(ts, k, wanted) <==> wanted in ts[k].held;
      }
    }
  }

  /** No deadlock: while any thread has anything left to do, some thread can do it. */
  lemma SomeThreadEnabled(ts: seq<Thread>, i: nat) returns (j: nat)
    requires Sane(ts) && i < |ts| && |ts[i].rest| > 0
    ensures Enabled(ts, j)
  {
    if b :| Holds(ts, b, BatchMutex) {
      j := b;
      TopHolderEnabled(ts, b, BatchMutex);
    } else if c :| Holds(ts, c, CloseMutex) {
      j := c;
      TopHolderEnabled(ts, c, CloseMutex);
    } else if d :| Holds(ts, d, DataMutex) {
      j := d;
      TopHolderEnabled(ts, d, DataMutex);
    } else {
      j := i;
      if ts[i].rest[0].Lock? {
        var wanted := ts[i].rest[0].m;
        forall k | 0 <= k < |ts|
          ensures wanted !in ts[k].held
        {
          assert !Holds(ts, k, BatchMutex) && !Holds(ts, k, CloseMutex) && !Holds(ts, k, DataMutex);
          match wanted case DataMutex => case CloseMutex => case BatchMutex =>
        }
      }
    }
  }

  /** For any number of threads running any of the operations, in every state any schedule
      can reach, if a thread is unfinished or blocked then some thread can go on. */
  lemma DeadlockFree(tasks: seq<Task>, schedule: seq<nat>, ts: seq<Thread>, i: nat) returns (j: nat)
    requires Reachable(Start(tasks), schedule, ts)
    requires i < |ts| && |ts[i].rest| > 0
    ensures Enabled(ts, j)
  {
    StartSane(tasks);
    ReachableSane(Start(tasks), schedule, ts);
    j := SomeThreadEnabled(ts, i);
  }

  function Remaining(ts: seq<Thread>): nat {
    if |ts| == 0 then 0 else Remaining(ts[..|ts| - 1]) + |ts[|ts| - 1].rest|
  }

  lemma {:induction false} StepRemaining(ts: seq<Thread>, i: nat, t: Thread)
    requires i < |ts|
    ensures Remaining(ts[i := t]) == Remaining(ts) - |ts[i].rest| + |t.rest|
  {
    var last := |ts| - 1;
    if i < last {
      assert ts[i := t][..last] == ts[..last][i := t];
      StepRemaining(ts[..last], i, t);
    } else {
      assert ts[i := t][..last] == ts[..last];
    }
  }

  /** And from every such state all the threads can be run to their end. */
  lemma {:induction false} CanFinish(ts: seq<Thread>) returns (schedule: seq<nat>, us: seq<Thread>)
    requires Sane(ts)
    ensures Reachable(ts, schedule, us) && |us| == |ts|
    ensures forall i :: 0 <= i < |us| ==> us[i].rest == [] && us[i].held == {}
    decreases Remaining(ts)
  {
    if i :| 0 <= i < |ts| && |ts[i].rest| > 0 {
      var j := SomeThreadEnabled(ts, i);
      StepRemaining(ts, j, StepThread(ts, j)[j]);
      StepSane(ts, j);
      schedule, us := CanFinish(StepThread(ts, j));
      schedule := [j] + schedule;
    } else {
      schedule, us := [], ts;
    }
  }
}
