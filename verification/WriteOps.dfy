/** What each write operation means: its effect on the store, its reply and the
    log entries it appends (database.go, processBatch). */
module WriteOps {
  import opened Values
  import opened Replay

  datatype OpType = OpCreate | OpWrite | OpDelete | OpBatch | OpUnknown

  /** A queued operation. The loop skips a nil operation and one without a reply channel. */
  datatype Operation =
    | NilOperation
    | Operation(opType: OpType, table: string, key: string, value: Value, records: Table, hasReply: bool)

  datatype Reply = Done | TableExists | NoTable | UnknownOperation

  predicate Handled(op: Operation) {
    op.Operation? && op.hasReply
  }

  /** The operations counted as successes: a Create always is, even when the table exists. */
  predicate Counted(data: Data, op: Operation) {
    Handled(op) && match op.opType {
      case OpCreate => true
      case OpUnknown => false
      case _ => op.table in data
    }
  }

  function ReplyTo(data: Data, op: Operation): Reply
    requires Handled(op)
  {
    match op.opType
    case OpCreate => if op.table in data then TableExists else Done
    case OpUnknown => UnknownOperation
    case _ => if op.table in data then Done else NoTable
  }

  function Effect(data: Data, op: Operation): Data {
    if !Counted(data, op) then data
    else
      match op.opType
      case OpCreate => EnsureTable(data, op.table)
      case OpWrite => data[op.table := Put(data[op.table], op.key, op.value)]
      case OpDelete => data[op.table := data[op.table] - {op.key}]
      case OpBatch => data[op.table := data[op.table] + op.records]
      case OpUnknown => data
  }

  // What the replies mean.

  /** Whether the store n is data but for the cells of one table that the records name, and
      those are as the records say. */
  ghost predicate OnlyWritten(data: Data, n: Data, table: string, records: Table) {
    && n.Keys == data.Keys
    && forall t, k :: Cell(n, t, k) == if t == table && k in records then Some(records[k]) else Cell(data, t, k)
  }

  /** What a caller learns from a reply. A table is made exactly if it was not there; a write,
      a deletion or a batch is done exactly if its table is there, and then every cell it
      names holds what was asked for and no other has changed; and whenever the reply is not
      Done, it says why and the store is as it was. */
  lemma ReplyMeans(data: Data, op: Operation)
    requires Handled(op)
    ensures var r, n := ReplyTo(data, op), Effect(data, op);
            && (r != Done ==> n == data)
            && match op.opType {
                 case OpCreate =>
                   && r == (if op.table in data then TableExists else Done)
                   && n.Keys == data.Keys + {op.table} && (forall t, k :: Cell(n, t, k) == Cell(data, t, k))
                 case OpWrite =>
                   && r == (if op.table in data then Done else NoTable)
                   && (r == Done ==> OnlyWritten(data, n, op.table, map[op.key := op.value]))
                 case OpDelete =>
                   && r == (if op.table in data then Done else NoTable)
                   && (r == Done ==>
                         && n.Keys == data.Keys && Cell(n, op.table, op.key) == None
                         && forall t, k :: (t, k) != (op.table, op.key) ==> Cell(n, t, k) == Cell(data, t, k))
                 case OpBatch =>
                   && r == (if op.table in data then Done else NoTable)
                   && (r == Done ==> OnlyWritten(data, n, op.table, op.records))
                 case OpUnknown => r == UnknownOperation
               }
  {
  }

  /** A nil operation and one without a reply channel get no reply, do nothing and are not
      counted; of the others a Create always counts, the rest exactly when they are done. */
  lemma CountedMeans(data: Data, op: Operation)
    ensures op.NilOperation? || !op.hasReply ==>
              Effect(data, op) == data && !Counted(data, op) && Replies(data, [op]) == []
    ensures op.Operation? && op.hasReply ==>
              && Replies(data, [op]) == [ReplyTo(data, op)]
              && (Counted(data, op) <==> op.opType.OpCreate? || ReplyTo(data, op) == Done)
  {
    assert [op][..0] == [];
  }

  predicate InRecords(order: seq<string>, records: Table) {
    forall i :: 0 <= i < |order| ==> order[i] in records
  }

  /** An order in which Go may iterate over a map: every key once. */
  predicate IsOrderOf(order: seq<string>, records: Table) {
    && InRecords(order, records)
    && (forall k :: k in records ==> k in order)
    && (forall i, j :: 0 <= i < j < |order| ==> order[i] != order[j])
  }

  function WriteEntries(table: string, records: Table, order: seq<string>): (log: seq<Entry>)
    requires InRecords(order, records)
    ensures |log| == |order|
  {
    seq(|order|, i requires 0 <= i < |order| => Entry(OP_WRITE, table, order[i], records[order[i]]))
  }

  predicate OrderFits(op: Operation, order: seq<string>) {
    op.Operation? && op.opType.OpBatch? ==> IsOrderOf(order, op.records)
  }

  /** The entries an operation appends to the log; a duplicate Create appends one all the same. */
  function EntriesOf(data: Data, op: Operation, order: seq<string>): seq<Entry>
    requires OrderFits(op, order)
  {
    if !Counted(data, op) then []
    else
      match op.opType
      case OpCreate => [Entry(OP_CREATE, op.table, "", Nil)]
      case OpWrite => [Entry(OP_WRITE, op.table, op.key, op.value)]
      case OpDelete => [Entry(OP_DELETE, op.table, op.key, Nil)]
      case OpBatch => WriteEntries(op.table, op.records, order)
      case OpUnknown => []
  }

  /** What is counted is logged, a Create of a table that is there included, and nothing else
      is: one entry, or for a batch one for each key of its records. */
  lemma LoggedIff(data: Data, op: Operation, order: seq<string>)
    requires OrderFits(op, order)
    ensures var log := EntriesOf(data, op, order);
            && (log == [] <==> !Counted(data, op) || (op.opType.OpBatch? && op.records == map[]))
            && (forall i :: 0 <= i < |log| ==> log[i].table == op.table)
            && (forall i :: 0 <= i < |log| ==>
                  log[i].opType == if op.opType.OpCreate? then 1 else if op.opType.OpDelete? then 3 else 2)
            && (log != [] && !op.opType.OpBatch? ==> |log| == 1)
            && (log != [] && op.opType.OpBatch? ==> multiset(op.records.Keys) == multiset(Keys(log)))
  {
    if Counted(data, op) && op.opType.OpBatch? {
      assert Keys(EntriesOf(data, op, order)) == order;
      OrderIsKeys(order, op.records);
      assert |order| > 0 ==> order[0] in op.records;
      if op.records != map[] {
        var k :| k in op.records;
        assert k in order;
      }
    }
  }

  function Keys(log: seq<Entry>): seq<string> {
    seq(|log|, i requires 0 <= i < |log| => log[i].key)
  }

  lemma OrderIsKeys(order: seq<string>, records: Table)
    requires IsOrderOf(order, records)
    ensures multiset(records.Keys) == multiset(order)
  {
    forall k
      ensures multiset(records.Keys)[k] == multiset(order)[k]
    {
      OnceInOrder(order, k);
    }
  }

  lemma {:induction false} OnceInOrder(order: seq<string>, k: string)
    requires forall i, j :: 0 <= i < j < |order| ==> order[i] != order[j]
    ensures multiset(order)[k] == if k in order then 1 else 0
  {
    if |order| > 0 {
      var last := |order| - 1;
      OnceInOrder(order[..last], k);
      assert order == order[..last] + [order[last]];
    }
  }

  // Sequences of operations.

  function Effects(data: Data, ops: seq<Operation>): Data {
    if |ops| == 0 then data else Effect(Effects(data, ops[..|ops| - 1]), ops[|ops| - 1])
  }

  function Replies(data: Data, ops: seq<Operation>): seq<Reply> {
    if |ops| == 0 then []
    else
      var init, last := ops[..|ops| - 1], ops[|ops| - 1];
      Replies(data, init) + if Handled(last) then [ReplyTo(Effects(data, init), last)] else []
  }

  function Successes(data: Data, ops: seq<Operation>): nat {
    if |ops| == 0 then 0
    else
      var init, last := ops[..|ops| - 1], ops[|ops| - 1];
      Successes(data, init) + if Counted(Effects(data, init), last) then 1 else 0
  }

  predicate OrdersFit(ops: seq<Operation>, orders: seq<seq<string>>) {
    |orders| == |ops| && forall i :: 0 <= i < |ops| ==> OrderFits(ops[i], orders[i])
  }

  function Entries(data: Data, ops: seq<Operation>, orders: seq<seq<string>>): seq<Entry>
    requires OrdersFit(ops, orders)
  {
    if |ops| == 0 then []
    else
      var last := |ops| - 1;
      Entries(data, ops[..last], orders[..last]) + EntriesOf(Effects(data, ops[..last]), ops[last], orders[last])
  }

  /** The reply to an operation at the end of any sequence of others. */
  lemma LastReply(data: Data, ops: seq<Operation>, op: Operation)
    requires op.Operation? && op.hasReply
    ensures var before, replies := Effects(data, ops), Replies(data, ops + [op]);
            && Effects(data, ops + [op]) == Effect(before, op)
            && |replies| == |Replies(data, ops)| + 1 && replies[..|replies| - 1] == Replies(data, ops)
            && (replies[|replies| - 1] == Done <==>
                match op.opType {
                  case OpCreate => op.table !in before
                  case OpUnknown => false
                  case _ => op.table in before
                })
  {
    assert (ops + [op])[..|ops|] == ops;
    ReplyMeans(Effects(data, ops), op);
  }

  /** A sequence counts as a success, and so moves the version, if and only if one of its
      operations is a handled Create or was done. */
  lemma {:induction false} SuccessesIff(data: Data, ops: seq<Operation>)
    ensures Successes(data, ops) > 0 <==>
            exists i :: 0 <= i < |ops| && ops[i].Operation? && ops[i].hasReply
              && (ops[i].opType.OpCreate? || ReplyTo(Effects(data, ops[..i]), ops[i]) == Done)
  {
    if |ops| > 0 {
      var init, last := ops[..|ops| - 1], ops[|ops| - 1];
      SuccessesIff(data, init);
      CountedMeans(Effects(data, init), last);
      assert forall i :: 0 <= i < |init| ==> init[i] == ops[i] && init[..i] == ops[..i];
    }
  }

  // The log refines the store.

  /** The records whose keys have been visited. */
  function Visited(records: Table, order: seq<string>): Table {
    map k | k in records && k in order :: records[k]
  }

  lemma VisitNext(table: Table, records: Table, order: seq<string>, key: string)
    requires key in records
    ensures table + Visited(records, order + [key]) == Put(table + Visited(records, order), key, records[key])
  {
  }

  lemma {:induction false} WritesReplay(data: Data, table: string, records: Table, order: seq<string>)
    requires table in data
    requires InRecords(order, records)
    ensures Apply(data, WriteEntries(table, records, order)) == data[table := data[table] + Visited(records, order)]
  {
    var log := WriteEntries(table, records, order);
    if |order| == 0 {
      assert data[table] + Visited(records, order) == data[table];
      assert data[table := data[table]] == data;
    } else {
      var last := |order| - 1;
      WritesReplay(data, table, records, order[..last]);
      assert log[..last] == WriteEntries(table, records, order[..last]);
      assert order == order[..last] + [order[last]];
      VisitNext(data[table], records, order[..last], order[last]);
    }
  }

  /** One operation: replaying what it appended does what it did, whatever order a
      batch's map was iterated in, and nothing for a rejected duplicate Create. */
  lemma LogRefinesOperation(data: Data, op: Operation, order: seq<string>)
    requires OrderFits(op, order)
    ensures Apply(data, EntriesOf(data, op, order)) == Effect(data, op)
  {
    var log := EntriesOf(data, op, order);
    if Counted(data, op) {
      if op.opType.OpBatch? {
        WritesReplay(data, op.table, op.records, order);
        assert Visited(op.records, order) == op.records;
      } else {
        assert log[..0] == [];
        assert Apply(data, log) == ApplyEntry(Apply(data, log[..0]), log[0]);
      }
    }
  }

  /** Any run of operations: replaying the log over the initial data yields the live data. */
  lemma {:induction false} LogRefinesData(data: Data, ops: seq<Operation>, orders: seq<seq<string>>)
    requires OrdersFit(ops, orders)
    ensures Apply(data, Entries(data, ops, orders)) == Effects(data, ops)
  {
    if |ops| > 0 {
      var last := |ops| - 1;
      LogRefinesData(data, ops[..last], orders[..last]);
      var before := Effects(data, ops[..last]);
      LogRefinesOperation(before, ops[last], orders[last]);
      ApplyConcat(data, Entries(data, ops[..last], orders[..last]), EntriesOf(before, ops[last], orders[last]));
    }
  }

  // Cutting a stream of operations into batches.

  lemma {:induction false} EffectsConcat(data: Data, a: seq<Operation>, b: seq<Operation>)
    ensures Effects(data, a + b) == Effects(Effects(data, a), b)
    ensures Replies(data, a + b) == Replies(data, a) + Replies(Effects(data, a), b)
    ensures Successes(data, a + b) == Successes(data, a) + Successes(Effects(data, a), b)
  {
    if |b| == 0 {
      assert a + b == a;
    } else {
      assert (a + b)[..|a + b| - 1] == a + b[..|b| - 1];
      EffectsConcat(data, a, b[..|b| - 1]);
    }
  }

  lemma {:induction false} EntriesConcat(data: Data, a: seq<Operation>, b: seq<Operation>,
                                         x: seq<seq<string>>, y: seq<seq<string>>)
    requires OrdersFit(a, x) && OrdersFit(b, y)
    ensures OrdersFit(a + b, x + y)
    ensures Entries(data, a + b, x + y) == Entries(data, a, x) + Entries(Effects(data, a), b, y)
  {
    hide EntriesOf, Effects, OrderFits;
    if |b| == 0 {
      assert a + b == a && x + y == x;
      assert Effects(data, a) == Effects(data, a + b);
    } else {
      var last := |b| - 1;
      assert (a + b)[..|a + b| - 1] == a + b[..last];
      assert (x + y)[..|x + y| - 1] == x + y[..last];
      EntriesConcat(data, a, b[..last], x, y[..last]);
      EffectsConcat(data, a, b[..last]);
    }
  }

  /** A batch without a success changes nothing. */
  lemma {:induction false} NoSuccessNoChange(data: Data, ops: seq<Operation>)
    requires Successes(data, ops) == 0
    ensures Effects(data, ops) == data
  {
    if |ops| > 0 {
      NoSuccessNoChange(data, ops[..|ops| - 1]);
    }
  }
}
