/** Posting lists: what they hold, and how one write changes them (modules/index/manager.go). */
module SecondaryIndex {
  import opened Values
  import opened Replay
  import opened WriteOps

  /** field value as text -> keys */
  type Postings = map<string, seq<string>>

  /** table -> field -> postings */
  type Indexes = map<string, map<string, Postings>>

  /** The text of a value that is not nil; what fmt and reflection make of it. */
  type Formatter = Tree -> string

  /** extractFieldValue: a field of a map; nothing else the store holds has fields. */
  function ExtractFieldValue(v: Value, field: string): Option<Tree> {
    if v.Map? && field in v.fields then Some(v.fields[field]) else None
  }

  function FormatIndexValue(fmt: Formatter, v: Tree): string {
    if v.Nil? then "null" else fmt(v)
  }

  /** Where a stored value is filed: the text of its field, if it has that field. */
  function FiledUnder(fmt: Formatter, field: string, v: Value): Option<string> {
    match ExtractFieldValue(v, field)
    case None => None
    case Some(x) => Some(FormatIndexValue(fmt, x))
  }

  function RemoveFirst(keys: seq<string>, key: string): seq<string> {
    if |keys| == 0 then []
    else if keys[0] == key then keys[1..]
    else [keys[0]] + RemoveFirst(keys[1..], key)
  }

  function RemoveKey(p: Postings, text: string, key: string): Postings {
    if text !in p then p
    else if RemoveFirst(p[text], key) == [] then p - {text}
    else p[text := RemoveFirst(p[text], key)]
  }

  function AddKey(p: Postings, text: string, key: string): Postings {
    p[text := (if text in p then p[text] else []) + [key]]
  }

  /** DeleteFromIndex. */
  function Unfile(fmt: Formatter, field: string, p: Postings, key: string, v: Value): Postings {
    match FiledUnder(fmt, field, v)
    case None => p
    case Some(text) => RemoveKey(p, text, key)
  }

  function File(fmt: Formatter, field: string, p: Postings, key: string, v: Value): Postings {
    match FiledUnder(fmt, field, v)
    case None => p
    case Some(text) => AddKey(p, text, key)
  }

  /** UpdateIndex. */
  function Refile(fmt: Formatter, field: string, p: Postings, key: string, was: Value, now: Value): Postings {
    File(fmt, field, Unfile(fmt, field, p, key, was), key, now)
  }

  // Agreement with a scan of the table.

  predicate NoDuplicates(keys: seq<string>) {
    forall i, j :: 0 <= i < j < |keys| ==> keys[i] != keys[j]
  }

  predicate Listed(p: Postings, text: string, key: string) {
    text in p && key in p[text]
  }

  predicate Found(fmt: Formatter, field: string, table: Table, text: string, key: string) {
    key in table && FiledUnder(fmt, field, table[key]) == Some(text)
  }

  /** What a query for a value means, in terms of the row alone: the row is a map that has the
      field, and the field's text is the value's; nil reads as null on both sides. */
  ghost predicate Answers(fmt: Formatter, field: string, value: Tree, row: Tree) {
    row.Map? && field in row.fields &&
      var held := row.fields[field];
      (held.Nil? && value.Nil?) || (held.Nil? && !value.Nil? && fmt(value) == "null")
      || (!held.Nil? && value.Nil? && fmt(held) == "null")
      || (!held.Nil? && !value.Nil? && fmt(held) == fmt(value))
  }

  lemma FoundIsAnswer(fmt: Formatter, field: string, rows: Table, value: Tree, key: string)
    ensures Found(fmt, field, rows, FormatIndexValue(fmt, value), key)
            <==> key in rows && Answers(fmt, field, value, rows[key])
  {
  }

  /** An index cannot tell values apart that have the same text, as text that differs in case
      only has: a query for the one is answered by rows that hold the other, and only so. */
  lemma SameTextAnswersIff(fmt: Formatter, field: string, held: Tree, value: Tree)
    requires !held.Nil? && !value.Nil?
    ensures Answers(fmt, field, value, Map(map[field := held])) <==> fmt(held) == fmt(value)
  {
  }

  /** Every posting list is non-empty and duplicate-free, and lists exactly the keys that a
      scan of the table would find. */
  ghost predicate Agrees(fmt: Formatter, field: string, p: Postings, table: Table) {
    && (forall text :: text in p ==> |p[text]| > 0 && NoDuplicates(p[text]))
    && (forall text, key :: Listed(p, text, key) <==> Found(fmt, field, table, text, key))
  }

  lemma {:induction false} RemoveFirstOfUnique(keys: seq<string>, key: string)
    requires NoDuplicates(keys)
    ensures NoDuplicates(RemoveFirst(keys, key))
    ensures forall k :: k in RemoveFirst(keys, key) <==> k in keys && k != key
  {
    if |keys| > 0 {
      RemoveFirstOfUnique(keys[1..], key);
      assert keys == [keys[0]] + keys[1..];
      assert keys[0] !in keys[1..];
      var rest := RemoveFirst(keys[1..], key);
      assert forall j :: 0 <= j < |rest| ==> rest[j] in rest;
    }
  }

  /** What Go's map access yields for a missing key is nil. */
  function Lookup(table: Table, key: string): Value {
    if key in table then table[key] else Nil
  }

  lemma UnfileAgrees(fmt: Formatter, field: string, p: Postings, table: Table, key: string)
    requires Agrees(fmt, field, p, table)
    ensures Agrees(fmt, field, Unfile(fmt, field, p, key, Lookup(table, key)), table - {key})
  {
    var q := Unfile(fmt, field, p, key, Lookup(table, key));
    forall text | text in p
      ensures NoDuplicates(RemoveFirst(p[text], key))
      ensures forall k :: k in RemoveFirst(p[text], key) <==> k in p[text] && k != key
    {
      RemoveFirstOfUnique(p[text], key);
    }
    forall text, k
      ensures Listed(q, text, k) <==> Found(fmt, field, table - {key}, text, k)
    {
      assert Listed(p, text, k) <==> Found(fmt, field, table, text, k);
      assert Listed(p, text, key) <==> Found(fmt, field, table, text, key);
    }
  }

  lemma FileAgrees(fmt: Formatter, field: string, p: Postings, table: Table, key: string, v: Value)
    requires Agrees(fmt, field, p, table) && key !in table
    ensures Agrees(fmt, field, File(fmt, field, p, key, v), Put(table, key, v))
  {
    var q, t := File(fmt, field, p, key, v), Put(table, key, v);
    forall text, k
      ensures Listed(q, text, k) <==> Found(fmt, field, t, text, k)
    {
      assert Listed(p, text, k) <==> Found(fmt, field, table, text, k);
    }
    forall text | text in q
      ensures NoDuplicates(q[text])
    {
      assert Listed(p, text, key) <==> Found(fmt, field, table, text, key);
    }
  }

  /** One write keeps the index in agreement with the table. */
  lemma RefileAgrees(fmt: Formatter, field: string, p: Postings, table: Table, key: string, v: Value)
    requires Agrees(fmt, field, p, table)
    ensures Agrees(fmt, field, Refile(fmt, field, p, key, Lookup(table, key), v), Put(table, key, v))
  {
    hide Agrees, File, Unfile;
    UnfileAgrees(fmt, field, p, table, key);
    FileAgrees(fmt, field, Unfile(fmt, field, p, key, Lookup(table, key)), table - {key}, key, v);
    assert Put(table - {key}, key, v) == Put(table, key, v);
  }

  // Index creation does not hold the lock that writes hold.

  /** Where a scan of the table would file a key. */
  function Filing(fmt: Formatter, field: string, table: Table, key: string): Option<string> {
    if key in table then FiledUnder(fmt, field, table[key]) else None
  }

  /** An index built from rows that writes have since moved on from agrees with the table if
      and only if they left every key filed where the scan found it. */
  lemma StaleScanAgreesIff(fmt: Formatter, field: string, p: Postings, seen: Table, table: Table)
    requires Agrees(fmt, field, p, seen)
    ensures Agrees(fmt, field, p, table) <==>
            forall key :: Filing(fmt, field, seen, key) == Filing(fmt, field, table, key)
  {
    if forall key :: Filing(fmt, field, seen, key) == Filing(fmt, field, table, key) {
      forall text, key
        ensures Listed(p, text, key) <==> Found(fmt, field, table, text, key)
      {
        assert Listed(p, text, key) <==> Found(fmt, field, seen, text, key);
        assert Filing(fmt, field, seen, key) == Filing(fmt, field, table, key);
      }
    }
    if Agrees(fmt, field, p, table) {
      forall key
        ensures Filing(fmt, field, seen, key) == Filing(fmt, field, table, key)
      {
        forall text
          ensures Found(fmt, field, seen, text, key) <==> Found(fmt, field, table, text, key)
        {
          assert Listed(p, text, key) <==> Found(fmt, field, table, text, key);
        }
        var a, b := Filing(fmt, field, seen, key), Filing(fmt, field, table, key);
        if a.Some? { assert Found(fmt, field, seen, a.value, key); }
        if b.Some? { assert Found(fmt, field, table, b.value, key); }
      }
    }
  }

  lemma {:induction false} RemoveAbsent(keys: seq<string>, key: string)
    requires key !in keys
    ensures RemoveFirst(keys, key) == keys
  {
    if |keys| > 0 { RemoveAbsent(keys[1..], key); }
  }

  lemma RemoveUnlisted(p: Postings, text: string, key: string)
    requires !Listed(p, text, key) && (text in p ==> |p[text]| > 0)
    ensures RemoveKey(p, text, key) == p
  {
    if text in p { RemoveAbsent(p[text], key); }
  }

  /** An index created between a write to the table and that write's own index update has
      already filed the new row, and the update files it again. The index still agrees with
      the table if and only if the row has no such field, or had the same text in it before. */
  lemma LateRefileAgreesIff(fmt: Formatter, field: string, p: Postings, table: Table, key: string, was: Value)
    requires Agrees(fmt, field, p, table) && key in table
    ensures Agrees(fmt, field, Refile(fmt, field, p, key, was, table[key]), table) <==>
            FiledUnder(fmt, field, table[key]).None? || FiledUnder(fmt, field, was)
                    == FiledUnder(fmt, field, table[key])
  {
    var now, before := FiledUnder(fmt, field, table[key]), FiledUnder(fmt, field, was);
    forall text
      ensures Listed(p, text, key) <==> now == Some(text)
    {
      assert Listed(p, text, key) <==> Found(fmt, field, table, text, key);
    }
    if before == now {
      assert Refile(fmt, field, p, key, was, table[key]) == Refile(fmt, field, p, key, Lookup(table, key), table[key]);
      RefileAgrees(fmt, field, p, table, key, table[key]);
      assert Put(table, key, table[key]) == table;
    } else {
      if before.Some? { RemoveUnlisted(p, before.value, key); }
      assert Unfile(fmt, field, p, key, was) == p;
      if now.Some? {
        FiledTwice(p, now.value, key);
      }
    }
  }

  /** A delete's index update that comes late in the same way changes nothing. */
  lemma LateUnfileIsHarmless(fmt: Formatter, field: string, p: Postings, table: Table, key: string, was: Value)
    requires Agrees(fmt, field, p, table) && key !in table
    ensures Unfile(fmt, field, p, key, was) == p
  {
    var before := FiledUnder(fmt, field, was);
    if before.Some? {
      assert Listed(p, before.value, key) <==> Found(fmt, field, table, before.value, key);
      RemoveUnlisted(p, before.value, key);
    }
  }

  lemma FiledTwice(p: Postings, text: string, key: string)
    requires Listed(p, text, key)
    ensures text in AddKey(p, text, key) && !NoDuplicates(AddKey(p, text, key)[text])
  {
    var i :| 0 <= i < |p[text]| && p[text][i] == key;
    assert AddKey(p, text, key)[text][i] == AddKey(p, text, key)[text][|p[text]|];
  }

  /** Two agreeing indexes of the same table answer every query with the same keys. */
  lemma AgreementIsUnique(fmt: Formatter, field: string, p: Postings, q: Postings, table: Table, text: string)
    requires Agrees(fmt, field, p, table) && Agrees(fmt, field, q, table)
    ensures text in p <==> text in q
    ensures text in p ==> multiset(p[text]) == multiset(q[text])
  {
    forall k
      ensures Listed(p, text, k) <==> Listed(q, text, k)
    {
      assert Listed(p, text, k) <==> Found(fmt, field, table, text, k);
      assert Listed(q, text, k) <==> Found(fmt, field, table, text, k);
    }
    if text in p { assert Listed(p, text, p[text][0]); }
    if text in q { assert Listed(q, text, q[text][0]); }
    if text in p {
      forall k
        ensures multiset(p[text])[k] == multiset(q[text])[k]
      {
        CountOfUnique(p[text], k);
        CountOfUnique(q[text], k);
        assert Listed(p, text, k) <==> Listed(q, text, k);
      }
    }
  }

  lemma {:induction false} CountOfUnique(keys: seq<string>, key: string)
    requires NoDuplicates(keys)
    ensures multiset(keys)[key] == if key in keys then 1 else 0
  {
    if |keys| > 0 {
      CountOfUnique(keys[1..], key);
      assert keys == [keys[0]] + keys[1..];
    }
  }

  // All the indexes of a store, through one operation.

  function TableOf(data: Data, table: string): Table {
    if table in data then data[table] else map[]
  }

  ghost predicate AllAgree(fmt: Formatter, indexes: Indexes, data: Data) {
    forall t, f :: t in indexes && f in indexes[t] ==> Agrees(fmt, f, indexes[t][f], TableOf(data, t))
  }

  /** What a write does to one field's postings. */
  type FieldStep = (string, Postings) -> Postings

  function Refiling(fmt: Formatter, key: string, was: Value, now: Value): FieldStep {
    (field, p) => Refile(fmt, field, p, key, was, now)
  }

  function Unfiling(fmt: Formatter, key: string, was: Value): FieldStep {
    (field, p) => Unfile(fmt, field, p, key, was)
  }

  /** The indexes of one table once the fields in done have been visited. */
  function Stepped(row: map<string, Postings>, done: set<string>, step: FieldStep): map<string, Postings> {
    map f | f in row :: if f in done then step(f, row[f]) else row[f]
  }

  function StepTable(indexes: Indexes, table: string, step: FieldStep): Indexes {
    if table !in indexes then indexes
    else PartWay(indexes, table, indexes[table].Keys, step)
  }

  /** The indexes once the fields in done have been visited. */
  function PartWay(indexes: Indexes, table: string, done: set<string>, step: FieldStep): Indexes
    requires table in indexes
  {
    indexes[table := Stepped(indexes[table], done, step)]
  }

  lemma StepOne(indexes: Indexes, table: string, done: set<string>, step: FieldStep, field: string)
    requires table in indexes && field in indexes[table] && field !in done
    ensures var part := PartWay(indexes, table, done, step);
            && table in part && field in part[table] && part[table][field] == indexes[table][field]
            && PartWay(indexes, table, done + {field}, step)
               == part[table := part[table][field := step(field, part[table][field])]]
  {
    var row := indexes[table];
    assert Stepped(row, done + {field}, step) == Stepped(row, done, step)[field := step(field, row[field])];
  }

  lemma StepNone(indexes: Indexes, table: string, step: FieldStep)
    requires table in indexes
    ensures PartWay(indexes, table, {}, step) == indexes
  {
    assert Stepped(indexes[table], {}, step) == indexes[table];
  }

  function RefileRecords(fmt: Formatter, indexes: Indexes, table: string, rows: Table, records: Table,
                         order: seq<string>): Indexes
    requires InRecords(order, records)
  {
    if |order| == 0 then indexes
    else
      var last := |order| - 1;
      var before := RefileRecords(fmt, indexes, table, rows, records, order[..last]);
      StepTable(before, table, Refiling(fmt, order[last],
                Lookup(rows + Visited(records, order[..last]), order[last]), records[order[last]]))
  }

  /** What processBatch does to the indexes while it carries out one operation. */
  function IndexEffect(fmt: Formatter, indexes: Indexes, data: Data, op: Operation, order: seq<string>): Indexes
    requires OrderFits(op, order)
  {
    if !WriteOps.Counted(data, op) then indexes
    else
      match op.opType
      case OpWrite => StepTable(indexes, op.table, Refiling(fmt, op.key, Lookup(data[op.table], op.key), op.value))
      case OpDelete => StepTable(indexes, op.table, Unfiling(fmt, op.key, Lookup(data[op.table], op.key)))
      case OpBatch => RefileRecords(fmt, indexes, op.table, data[op.table], op.records, order)
      case _ => indexes
  }

  function IndexEffects(fmt: Formatter, indexes: Indexes, data: Data, ops: seq<Operation>,
                        orders: seq<seq<string>>): Indexes
    requires OrdersFit(ops, orders)
  {
    if |ops| == 0 then indexes
    else
      var last := |ops| - 1;
      IndexEffect(fmt, IndexEffects(fmt, indexes, data, ops[..last], orders[..last]),
                  Effects(data, ops[..last]), ops[last], orders[last])
  }

  lemma RefileTableAgrees(fmt: Formatter, indexes: Indexes, data: Data, table: string, key: string, v: Value)
    requires AllAgree(fmt, indexes, data) && table in data
    ensures AllAgree(fmt, StepTable(indexes, table, Refiling(fmt, key, Lookup(data[table], key), v)),
                     WithTable(data, table, Put(data[table], key, v)))
  {
    hide Agrees, Refile;
    if table in indexes {
      forall f | f in indexes[table]
        ensures Agrees(fmt, f, Refile(fmt, f, indexes[table][f], key, Lookup(data[table], key), v),
                       Put(data[table], key, v))
      {
        RefileAgrees(fmt, f, indexes[table][f], data[table], key, v);
      }
    }
  }

  lemma UnfileTableAgrees(fmt: Formatter, indexes: Indexes, data: Data, table: string, key: string)
    requires AllAgree(fmt, indexes, data) && table in data
    ensures AllAgree(fmt, StepTable(indexes, table, Unfiling(fmt, key, Lookup(data[table], key))),
                     WithTable(data, table, data[table] - {key}))
  {
    hide Agrees, Unfile;
    if table in indexes {
      forall f | f in indexes[table]
        ensures Agrees(fmt, f, Unfile(fmt, f, indexes[table][f], key, Lookup(data[table], key)), data[table] - {key})
      {
        UnfileAgrees(fmt, f, indexes[table][f], data[table], key);
      }
    }
  }

  lemma {:induction false} RefileRecordsAgrees(fmt: Formatter, indexes: Indexes, data: Data, table: string,
                                               records: Table, order: seq<string>)
    requires AllAgree(fmt, indexes, data) && table in data
    requires InRecords(order, records)
    ensures AllAgree(fmt, RefileRecords(fmt, indexes, table, data[table], records, order),
                     WithTable(data, table, data[table] + Visited(records, order)))
  {
    hide AllAgree, StepTable, Refiling, WithTable, InRecords;
    if |order| == 0 {
      assert data[table] + Visited(records, order) == data[table];
      SetTwice(data, table, data[table], data[table]);
    } else {
      var last := |order| - 1;
      InRecordsPrefix(order, records);
      var init, key := order[..last], order[last];
      RefileRecordsAgrees(fmt, indexes, data, table, records, init);
      var rows := data[table] + Visited(records, init);
      assert order == init + [key];
      VisitNext(data[table], records, init, key);
      hide Visited;
      var next := data[table] + Visited(records, order);
      SetTwice(data, table, rows, next);
      RefileTableAgrees(fmt, RefileRecords(fmt, indexes, table, data[table], records, init),
                        WithTable(data, table, rows), table, key, records[key]);
    }
  }

  lemma InRecordsPrefix(order: seq<string>, records: Table)
    requires InRecords(order, records) && |order| > 0
    ensures InRecords(order[..|order| - 1], records) && order[|order| - 1] in records
  {
  }

  lemma AllVisited(records: Table, order: seq<string>)
    requires IsOrderOf(order, records)
    ensures Visited(records, order) == records
    ensures InRecords(order, records)
  {
  }

  /** Every operation keeps every index in agreement with its table. */
  lemma IndexEffectAgrees(fmt: Formatter, indexes: Indexes, data: Data, op: Operation, order: seq<string>)
    requires OrderFits(op, order) && AllAgree(fmt, indexes, data)
    ensures AllAgree(fmt, IndexEffect(fmt, indexes, data, op, order), Effect(data, op))
  {
    hide Agrees, StepTable, RefileRecords, Refiling, Unfiling, FiledUnder, IsOrderOf;
    if WriteOps.Counted(data, op) {
      match op.opType
      case OpCreate =>
        assert forall t :: TableOf(EnsureTable(data, op.table), t) == TableOf(data, t);
      case OpWrite => RefileTableAgrees(fmt, indexes, data, op.table, op.key, op.value);
      case OpDelete => UnfileTableAgrees(fmt, indexes, data, op.table, op.key);
      case OpBatch =>
        AllVisited(op.records, order);
        RefileRecordsAgrees(fmt, indexes, data, op.table, op.records, order);
      case OpUnknown =>
    }
  }

  lemma {:induction false} IndexEffectsAgree(fmt: Formatter, indexes: Indexes, data: Data,
                                             ops: seq<Operation>, orders: seq<seq<string>>)
    requires OrdersFit(ops, orders) && AllAgree(fmt, indexes, data)
    ensures AllAgree(fmt, IndexEffects(fmt, indexes, data, ops, orders), Effects(data, ops))
  {
    hide AllAgree, IndexEffect, Effect;
    if |ops| > 0 {
      var last := |ops| - 1;
      IndexEffectsAgree(fmt, indexes, data, ops[..last], orders[..last]);
      IndexEffectAgrees(fmt, IndexEffects(fmt, indexes, data, ops[..last], orders[..last]),
                        Effects(data, ops[..last]), ops[last], orders[last]);
    }
  }

  lemma {:induction false} IndexEffectsConcat(fmt: Formatter, indexes: Indexes, data: Data,
      a: seq<Operation>, b: seq<Operation>, x: seq<seq<string>>, y: seq<seq<string>>)
    requires OrdersFit(a, x) && OrdersFit(b, y)
    ensures OrdersFit(a + b, x + y)
    ensures IndexEffects(fmt, indexes, data, a + b, x + y)
         == IndexEffects(fmt, IndexEffects(fmt, indexes, data, a, x), Effects(data, a), b, y)
  {
    hide IndexEffect, Effects;
    if |b| == 0 {
      assert a + b == a && x + y == x;
    } else {
      var last := |b| - 1;
      assert (a + b)[..|a + b| - 1] == a + b[..last];
      assert (x + y)[..|x + y| - 1] == x + y[..last];
      IndexEffectsConcat(fmt, indexes, data, a, b[..last], x, y[..last]);
      EffectsConcat(data, a, b[..last]);
    }
  }

  /** A new index joins the others in agreement if and only if it agrees itself. */
  lemma NewIndexAgreesIff(fmt: Formatter, indexes: Indexes, data: Data, table: string, field: string, p: Postings)
    requires AllAgree(fmt, indexes, data)
    ensures AllAgree(fmt, indexes[table := (if table in indexes then indexes[table] else map[])[field := p]], data)
            <==> Agrees(fmt, field, p, TableOf(data, table))
  {
    hide Agrees;
    var n := indexes[table := (if table in indexes then indexes[table] else map[])[field := p]];
    assert n[table][field] == p;
  }

  // Runs.

  /** A step of the store with its indexes. A new index may be filled in any order. */
  datatype Step = Operate(op: Operation, order: seq<string>) | Create(table: string, field: string)
          | Drop(table: string, field: string)

  datatype Indexed = Indexed(data: Data, indexes: Indexes)

  ghost predicate IsStep(fmt: Formatter, s: Indexed, step: Step, n: Indexed) {
    match step
    case Operate(op, order) =>
      && OrderFits(op, order)
      && n == Indexed(Effect(s.data, op), IndexEffect(fmt, s.indexes, s.data, op, order))
    case Create(t, f) =>
      var fields := if t in s.indexes then s.indexes[t] else map[];
      && n.data == s.data
      && if f in fields then n.indexes == s.indexes
         else exists p :: Agrees(fmt, f, p, TableOf(s.data, t)) && n.indexes == s.indexes[t := fields[f := p]]
    case Drop(t, f) =>
      && n.data == s.data
      && n.indexes == if t in s.indexes then s.indexes[t := s.indexes[t] - {f}] else s.indexes
  }

  /** In every state of every run of operations, index creations and drops, from a store
      without indexes, every index there is agrees with a scan of its table. */
  lemma {:induction false} EveryStateAgrees(fmt: Formatter, steps: seq<Step>, states: seq<Indexed>, i: nat)
    requires |states| == |steps| + 1 && i < |states| && states[0].indexes == map[]
    requires forall j :: 0 <= j < |steps| ==> IsStep(fmt, states[j], steps[j], states[j + 1])
    ensures AllAgree(fmt, states[i].indexes, states[i].data)
  {
    if i > 0 {
      EveryStateAgrees(fmt, steps, states, i - 1);
      var s, n := states[i - 1], states[i];
      assert IsStep(fmt, s, steps[i - 1], n);
      match steps[i - 1] {
        case Operate(op, order) => IndexEffectAgrees(fmt, s.indexes, s.data, op, order);
        case Create(t, f) =>
          hide Agrees;
          var fields := if t in s.indexes then s.indexes[t] else map[];
          if f !in fields {
            var p :| Agrees(fmt, f, p, TableOf(s.data, t)) && n.indexes == s.indexes[t := fields[f := p]];
            NewIndexAgreesIff(fmt, s.indexes, s.data, t, f, p);
          }
        case Drop(t, f) => hide Agrees;
      }
    }
  }
}
