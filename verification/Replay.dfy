/** Log entries and their replay over a store (database.go, applyWALEntry and recoverFromWAL). */
module Replay {
  import opened Values

  const OP_CREATE: byte := 1
  const OP_WRITE: byte := 2
  const OP_DELETE: byte := 3

  datatype Entry = Entry(opType: byte, table: string, key: string, value: Value)

  function EnsureTable(data: Data, table: string): Data {
    if table in data then data else data[table := map[]]
  }

  function ApplyEntry(data: Data, e: Entry): Data {
    if e.opType == OP_CREATE then
      EnsureTable(data, e.table)
    else if e.opType == OP_WRITE then
      var d := EnsureTable(data, e.table);
      d[e.table := Put(d[e.table], e.key, e.value)]
    else if e.opType == OP_DELETE then
      if e.table in data then data[e.table := data[e.table] - {e.key}] else data
    else
      data
  }

  function Apply(data: Data, log: seq<Entry>): Data {
    if |log| == 0 then data else ApplyEntry(Apply(data, log[..|log| - 1]), log[|log| - 1])
  }

  // What a log does, said without replaying it.

  /** The tables an entry brings into being if they are missing. */
  function Makes(e: Entry): set<string> {
    if e.opType == OP_CREATE || e.opType == OP_WRITE then {e.table} else {}
  }

  function Created(log: seq<Entry>): set<string> {
    if |log| == 0 then {} else Created(log[..|log| - 1]) + Makes(log[|log| - 1])
  }

  predicate Touches(e: Entry, table: string, key: string) {
    (e.opType == OP_WRITE || e.opType == OP_DELETE) && e.table == table && e.key == key
  }

  /** What an entry leaves in the cell it touches. */
  function Outcome(e: Entry): Option<Value> {
    if e.opType == OP_WRITE then Some(e.value) else None
  }

  /** A log's net effect on a cell: None if no entry touches it, else what the last one leaves there. */
  function Net(log: seq<Entry>, table: string, key: string): Option<Option<Value>> {
    if |log| == 0 then None
    else
      var last := log[|log| - 1];
      if Touches(last, table, key) then Some(Outcome(last)) else Net(log[..|log| - 1], table, key)
  }

  lemma {:induction false} NetIsLastTouch(log: seq<Entry>, table: string, key: string, i: nat)
    requires i < |log| && Touches(log[i], table, key)
    requires forall j :: i < j < |log| ==> !Touches(log[j], table, key)
    ensures Net(log, table, key) == Some(Outcome(log[i]))
  {
    if i < |log| - 1 {
      assert !Touches(log[|log| - 1], table, key);
      NetIsLastTouch(log[..|log| - 1], table, key, i);
    }
  }

  lemma {:induction false} NetOfUntouched(log: seq<Entry>, table: string, key: string)
    ensures Net(log, table, key).None? <==> forall i :: 0 <= i < |log| ==> !Touches(log[i], table, key)
  {
    if |log| > 0 {
      var init := log[..|log| - 1];
      NetOfUntouched(init, table, key);
      assert forall i :: 0 <= i < |init| ==> init[i] == log[i];
    }
  }

  lemma {:induction false} CreatedIsUnion(log: seq<Entry>, table: string)
    ensures table in Created(log) <==> exists i :: 0 <= i < |log| && table in Makes(log[i])
  {
    if |log| > 0 {
      var init := log[..|log| - 1];
      CreatedIsUnion(init, table);
      assert forall i :: 0 <= i < |init| ==> init[i] == log[i];
      if i :| 0 <= i < |log| && table in Makes(log[i]) {
        if i < |init| { assert table in Makes(init[i]); }
      }
    }
  }

  lemma {:induction false} ReplayTables(data: Data, log: seq<Entry>)
    ensures Apply(data, log).Keys == data.Keys + Created(log)
  {
    if |log| > 0 {
      ReplayTables(data, log[..|log| - 1]);
    }
  }

  /** Replay overlays the log's net effect: a cell it touches gets what the last entry
      touching it leaves there, every other cell is left alone. */
  lemma {:induction false} ReplayCell(data: Data, log: seq<Entry>, table: string, key: string)
    ensures Cell(Apply(data, log), table, key) ==
            match Net(log, table, key) { case None => Cell(data, table, key) case Some(outcome) => outcome }
  {
    if |log| > 0 {
      var init, last := log[..|log| - 1], log[|log| - 1];
      ReplayCell(data, init, table, key);
      EntryCell(Apply(data, init), last, table, key);
    }
  }

  lemma EntryCell(data: Data, e: Entry, table: string, key: string)
    ensures Cell(ApplyEntry(data, e), table, key) ==
            if Touches(e, table, key) then Outcome(e) else Cell(data, table, key)
  {
  }

  lemma {:induction false} CreatedConcat(a: seq<Entry>, b: seq<Entry>)
    ensures Created(a + b) == Created(a) + Created(b)
  {
    if |b| == 0 {
      assert a + b == a;
    } else {
      assert (a + b)[..|a + b| - 1] == a + b[..|b| - 1];
      CreatedConcat(a, b[..|b| - 1]);
    }
  }

  /** The later log decides wherever it says anything. */
  lemma {:induction false} NetConcat(a: seq<Entry>, b: seq<Entry>, table: string, key: string)
    ensures Net(a + b, table, key) ==
            if Net(b, table, key).Some? then Net(b, table, key) else Net(a, table, key)
  {
    if |b| == 0 {
      assert a + b == a;
    } else {
      assert (a + b)[..|a + b| - 1] == a + b[..|b| - 1];
      NetConcat(a, b[..|b| - 1], table, key);
    }
  }

  lemma {:induction false} ApplyConcat(data: Data, a: seq<Entry>, b: seq<Entry>)
    ensures Apply(data, a + b) == Apply(Apply(data, a), b)
  {
    if |b| == 0 {
      assert a + b == a;
    } else {
      ApplyConcat(data, a, b[..|b| - 1]);
      assert (a + b)[..|a + b| - 1] == a + b[..|b| - 1];
    }
  }

  /** A store that holds the first n entries, replaying only what a rotation at r <= n
      left behind, ends where the full log ends. */
  lemma ReplayOverlap(data: Data, log: seq<Entry>, r: nat, n: nat)
    requires r <= n <= |log|
    ensures Apply(Apply(data, log[..n]), log[r..]) == Apply(data, log)
  {
    hide Apply, Created, Net;
    var left, right := Apply(Apply(data, log[..n]), log[r..]), Apply(data, log);
    var a, b, c := log[..r], log[r..n], log[n..];
    assert log[..n] == a + b && log[r..] == b + c && log == a + (b + c);
    ReplayTables(data, a + b);
    ReplayTables(Apply(data, a + b), b + c);
    ReplayTables(data, a + (b + c));
    CreatedConcat(a, b);
    CreatedConcat(b, c);
    CreatedConcat(a, b + c);
    forall t, k
      ensures Cell(left, t, k) == Cell(right, t, k)
    {
      ReplayCell(data, a + b, t, k);
      ReplayCell(Apply(data, a + b), b + c, t, k);
      ReplayCell(data, a + (b + c), t, k);
      NetConcat(a, b, t, k);
      NetConcat(b, c, t, k);
      NetConcat(a, b + c, t, k);
    }
    SameCells(left, right);
  }

  /** Replaying all of a log over a store that already holds its first n entries
      gives the same state as applying the log once. */
  lemma ReplayAbsorbsPrefix(data: Data, log: seq<Entry>, n: nat)
    requires n <= |log|
    ensures Apply(Apply(data, log[..n]), log) == Apply(data, log)
  {
    ReplayOverlap(data, log, 0, n);
    assert log[0..] == log;
  }

  lemma ReplayTwice(data: Data, log: seq<Entry>)
    ensures Apply(Apply(data, log), log) == Apply(data, log)
  {
    ReplayAbsorbsPrefix(data, log, |log|);
    assert log[..|log|] == log;
  }

  /** recoverFromWAL: the entries are applied in the order they were read. */
  method RecoverFromWAL(start: Data, entries: seq<Entry>) returns (data: Data, recovered: nat)
    ensures data == Apply(start, entries)
    ensures recovered == |entries|
  {
    data, recovered := start, 0;
    for i := 0 to |entries|
      invariant data == Apply(start, entries[..i])
      invariant recovered == i
    {
      var e := entries[i];
      assert entries[..i + 1][..i] == entries[..i];
      if e.opType == OP_CREATE {
        if e.table !in data {
          data := data[e.table := map[]];
        }
      } else if e.opType == OP_WRITE {
        if e.table !in data {
          data := data[e.table := map[]];
        }
        data := data[e.table := Put(data[e.table], e.key, e.value)];
      } else if e.opType == OP_DELETE {
        if e.table in data {
          data := data[e.table := data[e.table] - {e.key}];
        }
      }
      recovered := recovered + 1;
    }
    assert entries[..|entries|] == entries;
  }
}
