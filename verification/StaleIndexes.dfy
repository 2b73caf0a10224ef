/** What leaves an index out of step with its table: index creation, which scans without the
    lock that writes hold (database.go, CreateIndex), and commits, which update no index. */
module StaleIndexes {
  import opened Values
  import opened WriteOps
  import opened SecondaryIndex
  import opened Transactions
  import Database

  // A write and its index update as two steps, with index creation free to come between.

  /** A write that has reached its table, which was as in before, but not yet the indexes;
      now is None for a deletion. late are the indexes created since. */
  datatype Due = Due(table: string, key: string, before: Table, now: Option<Value>, late: set<(string, string)>)

  datatype Racing = Racing(data: Data, indexes: Indexes, due: Option<Due>)

  datatype Step =
    | WriteRow(table: string, key: string, value: Value)
    | DeleteRow(table: string, key: string)
    | UpdateIndexes
    | Create(table: string, field: string, scanned: Postings)
    | Drop(table: string, field: string)

  function FieldsOf(indexes: Indexes, table: string): map<string, Postings> {
    if table in indexes then indexes[table] else map[]
  }

  /** There is one writer. Creation scans the table as it is; the scan may visit it in any order. */
  ghost predicate Allowed(fmt: Formatter, s: Racing, step: Step) {
    match step
    case WriteRow(t, _, _) => s.due.None? && t in s.data
    case DeleteRow(t, _) => s.due.None? && t in s.data
    case UpdateIndexes => s.due.Some?
    case Create(t, f, p) => Agrees(fmt, f, p, TableOf(s.data, t))
    case Drop(_, _) => true
  }

  function Updated(fmt: Formatter, indexes: Indexes, d: Due): Indexes {
    var was := Lookup(d.before, d.key);
    StepTable(indexes, d.table, match d.now case None => Unfiling(fmt, d.key, was)
                                            case Some(v) => Refiling(fmt, d.key, was, v))
  }

  function Late(due: Option<Due>, table: string, field: string): Option<Due> {
    match due
    case None => None
    case Some(d) => Some(d.(late := d.late + {(table, field)}))
  }

  function Next(fmt: Formatter, s: Racing, step: Step): Racing {
    match step
    case WriteRow(t, k, v) =>
      var rows := TableOf(s.data, t);
      s.(data := WithTable(s.data, t, Put(rows, k, v)), due := Some(Due(t, k, rows, Some(v), {})))
    case DeleteRow(t, k) =>
      var rows := TableOf(s.data, t);
      s.(data := WithTable(s.data, t, rows - {k}), due := Some(Due(t, k, rows, None, {})))
    case UpdateIndexes =>
      if s.due.None? then s else s.(indexes := Updated(fmt, s.indexes, s.due.value), due := None)
    case Create(t, f, p) =>
      if f in FieldsOf(s.indexes, t) then s
      else s.(indexes := s.indexes[t := FieldsOf(s.indexes, t)[f := p]], due := Late(s.due, t, f))
    case Drop(t, f) =>
      if t in s.indexes then s.(indexes := s.indexes[t := s.indexes[t] - {f}]) else s
  }

  /** What each index agrees with while a write is under way: the table as it was, unless it
      was created since. */
  function SeenBy(s: Racing, table: string, field: string): Table {
    match s.due
    case None => TableOf(s.data, table)
    case Some(d) => if table != d.table || (table, field) in d.late then TableOf(s.data, table) else d.before
  }

  ghost predicate InStep(fmt: Formatter, s: Racing) {
    && (forall t, f :: t in s.indexes && f in s.indexes[t] ==> Agrees(fmt, f, s.indexes[t][f], SeenBy(s, t, f)))
    && (s.due.Some? ==>
          var d := s.due.value;
          d.table in s.data && s.data[d.table]
                  == (match d.now case None => d.before - {d.key} case Some(v) => Put(d.before, d.key, v)))
  }

  /** The write under way will not be filed twice in an index created since: it is a deletion,
      or its row lacks the field, or has the text it had before. */
  ghost predicate NotTwice(fmt: Formatter, d: Due, field: string) {
    match d.now
    case None => true
    case Some(v) =>
      || FiledUnder(fmt, field, v).None?
      || FiledUnder(fmt, field, Lookup(d.before, d.key)) == FiledUnder(fmt, field, v)
  }

  ghost predicate NoneTwice(fmt: Formatter, s: Racing)
    requires s.due.Some?
  {
    var d := s.due.value;
    forall f :: f in FieldsOf(s.indexes, d.table) && (d.table, f) in d.late ==> NotTwice(fmt, d, f)
  }

  /** The update of one index. */
  lemma OneUpdateAgreesIff(fmt: Formatter, s: Racing, field: string)
    requires InStep(fmt, s) && s.due.Some? && field in FieldsOf(s.indexes, s.due.value.table)
    ensures var d := s.due.value;
            Agrees(fmt, field, Updated(fmt, s.indexes, d)[d.table][field], s.data[d.table])
            <==> (d.table, field) !in d.late || NotTwice(fmt, d, field)
  {
    hide Agrees, Refile, Unfile, FiledUnder;
    var d := s.due.value;
    var p, was := s.indexes[d.table][field], Lookup(d.before, d.key);
    assert Agrees(fmt, field, p, SeenBy(s, d.table, field));
    match d.now
    case None =>
      if (d.table, field) in d.late {
        LateUnfileIsHarmless(fmt, field, p, s.data[d.table], d.key, was);
      } else {
        UnfileAgrees(fmt, field, p, d.before, d.key);
      }
    case Some(v) =>
      if (d.table, field) in d.late {
        LateRefileAgreesIff(fmt, field, p, s.data[d.table], d.key, was);
      } else {
        RefileAgrees(fmt, field, p, d.before, d.key, v);
      }
  }

  /** When a write's index update is done, all indexes agree with the store if and only if
      none that was created since the write has filed its row twice. */
  lemma UpdateAgreesIff(fmt: Formatter, s: Racing)
    requires InStep(fmt, s) && s.due.Some?
    ensures var n := Next(fmt, s, UpdateIndexes);
            AllAgree(fmt, n.indexes, n.data) <==> NoneTwice(fmt, s)
  {
    hide Agrees, NotTwice;
    var d, n := s.due.value, Next(fmt, s, UpdateIndexes);
    forall f | f in FieldsOf(s.indexes, d.table)
      ensures Agrees(fmt, f, Updated(fmt, s.indexes, d)[d.table][f], s.data[d.table])
              <==> (d.table, f) !in d.late || NotTwice(fmt, d, f)
    {
      OneUpdateAgreesIff(fmt, s, f);
    }
    forall t, f | t != d.table && t in n.indexes && f in n.indexes[t]
      ensures Agrees(fmt, f, n.indexes[t][f], TableOf(n.data, t))
    {
      assert Agrees(fmt, f, s.indexes[t][f], SeenBy(s, t, f));
    }
  }

  lemma StepInStep(fmt: Formatter, s: Racing, step: Step)
    requires InStep(fmt, s) && Allowed(fmt, s, step)
    requires step.UpdateIndexes? ==> NoneTwice(fmt, s)
    ensures InStep(fmt, Next(fmt, s, step))
  {
    hide Agrees, NotTwice;
    var n := Next(fmt, s, step);
    match step
    case UpdateIndexes => UpdateAgreesIff(fmt, s);
    case WriteRow(t, k, v) => StillAgree(fmt, s, n);
    case DeleteRow(t, k) => StillAgree(fmt, s, n);
    case _ =>
  }

  /** A write that has just reached its table leaves the indexes where they were. */
  lemma StillAgree(fmt: Formatter, s: Racing, n: Racing)
    requires InStep(fmt, s) && s.due.None? && n.indexes == s.indexes && n.due.Some?
    requires n.due.value.before == TableOf(s.data, n.due.value.table) && n.due.value.late == {}
    requires forall t :: t != n.due.value.table ==> TableOf(n.data, t) == TableOf(s.data, t)
    ensures forall t, f :: t in n.indexes && f in n.indexes[t] ==> Agrees(fmt, f, n.indexes[t][f], SeenBy(n, t, f))
  {
    hide Agrees;
    forall t, f | t in n.indexes && f in n.indexes[t]
      ensures Agrees(fmt, f, n.indexes[t][f], SeenBy(n, t, f))
    {
      assert Agrees(fmt, f, s.indexes[t][f], SeenBy(s, t, f));
    }
  }

  /** Over every run of writes, index updates, creations and drops in which no update files a
      row twice, all indexes agree with the store whenever no write is under way. */
  lemma {:induction false} RunInStep(fmt: Formatter, steps: seq<Step>, states: seq<Racing>, i: nat)
    requires |states| == |steps| + 1 && i < |states| && states[0].indexes == map[] && states[0].due.None?
    requires forall j :: 0 <= j < |steps| ==>
               && Allowed(fmt, states[j], steps[j]) && states[j + 1] == Next(fmt, states[j], steps[j])
               && (steps[j].UpdateIndexes? ==> NoneTwice(fmt, states[j]))
    ensures InStep(fmt, states[i])
    ensures states[i].due.None? ==> AllAgree(fmt, states[i].indexes, states[i].data)
  {
    hide Agrees, Allowed, NoneTwice, Next;
    if i > 0 {
      RunInStep(fmt, steps, states, i - 1);
      assert Allowed(fmt, states[i - 1], steps[i - 1]);
      StepInStep(fmt, states[i - 1], steps[i - 1]);
    }
  }

  // The run that goes wrong.

  const Row: Value := Map(map["f" := Text([1])])

  const Empty := Racing(map["t" := map[]], map[], None)

  function RowText(fmt: Formatter): string {
    FormatIndexValue(fmt, Text([1]))
  }

  /** A row is written, an index on its field is created, and only then does the write update
      the indexes. */
  function Steps(fmt: Formatter): (steps: seq<Step>)
    ensures |steps| == 3
  {
    [WriteRow("t", "k", Row), Step.Create("t", "f", map[RowText(fmt) := ["k"]]), UpdateIndexes]
  }

  function Written(): Racing {
    Racing(map["t" := map["k" := Row]], map[], Some(Due("t", "k", map[], Some(Row), {})))
  }

  function Created(fmt: Formatter): Racing {
    Written().(indexes := map["t" := map["f" := map[RowText(fmt) := ["k"]]]],
               due := Some(Due("t", "k", map[], Some(Row), {("t", "f")})))
  }

  function Ended(fmt: Formatter): Racing {
    Racing(map["t" := map["k" := Row]], map["t" := map["f" := map[RowText(fmt) := ["k", "k"]]]], None)
  }

  lemma RaceGoes(fmt: Formatter)
    ensures Next(fmt, Empty, Steps(fmt)[0]) == Written()
    ensures Next(fmt, Written(), Steps(fmt)[1]) == Created(fmt)
    ensures Next(fmt, Created(fmt), Steps(fmt)[2]) == Ended(fmt)
  {
    var rows: Table := map["k" := Row];
    assert Put(map[], "k", Row) == rows;
    assert Next(fmt, Empty, Steps(fmt)[0]).data == map["t" := rows];
    var made := Next(fmt, Written(), Steps(fmt)[1]);
    assert made.due.value.late == {("t", "f")};
    assert made.indexes["t"] == Created(fmt).indexes["t"] && made.indexes == Created(fmt).indexes;
    FiledAgain(fmt);
    hide Refile;
    var indexes := Updated(fmt, Created(fmt).indexes, Created(fmt).due.value);
    assert indexes["t"] == map["f" := map[RowText(fmt) := ["k", "k"]]];
    assert indexes == Ended(fmt).indexes;
  }

  function States(fmt: Formatter): seq<Racing> {
    [Empty, Written(), Created(fmt), Ended(fmt)]
  }

  lemma RaceIsRun(fmt: Formatter)
    ensures forall j :: 0 <= j < 3 ==>
              && Allowed(fmt, States(fmt)[j], Steps(fmt)[j])
              && States(fmt)[j + 1] == Next(fmt, States(fmt)[j], Steps(fmt)[j])
  {
    RaceGoes(fmt);
    RaceAllowed(fmt);
    hide Next, Allowed, Written, Created, Ended;
    forall j | 0 <= j < 3
      ensures Allowed(fmt, States(fmt)[j], Steps(fmt)[j])
      ensures States(fmt)[j + 1] == Next(fmt, States(fmt)[j], Steps(fmt)[j])
    {
      if j == 0 { } else if j == 1 { } else { assert j == 2; }
    }
  }

  /** It ends with the row listed twice, and a query returns it twice. */
  lemma CreatedInBetween(fmt: Formatter)
    ensures forall j :: 0 <= j < 3 ==>
              && Allowed(fmt, States(fmt)[j], Steps(fmt)[j])
              && States(fmt)[j + 1] == Next(fmt, States(fmt)[j], Steps(fmt)[j])
    ensures var end := States(fmt)[3];
            && end.due.None? && !AllAgree(fmt, end.indexes, end.data)
            && Database.Present(TableOf(end.data, "t"), end.indexes["t"]["f"][RowText(fmt)]) == [Row, Row]
  {
    RaceIsRun(fmt);
    hide Next, Agrees, Allowed, NoDuplicates, Steps;
    var p := Ended(fmt).indexes["t"]["f"];
    TwiceIsTwice(["k", "k"]);
    DuplicatesDisagree(fmt, "f", p, TableOf(Ended(fmt).data, "t"), RowText(fmt));
    PresentTwice(TableOf(Ended(fmt).data, "t"), "k");
  }

  lemma PresentTwice(rows: Table, key: string)
    requires key in rows
    ensures Database.Present(rows, [key, key]) == [rows[key], rows[key]]
  {
    assert [key, key][..1] == [key] && [key][..0] == [];
    assert Database.Present(rows, [key]) == [rows[key]];
  }

  lemma RaceAllowed(fmt: Formatter)
    ensures Allowed(fmt, Empty, Steps(fmt)[0]) && Allowed(fmt, Written(), Steps(fmt)[1])
    ensures Allowed(fmt, Created(fmt), Steps(fmt)[2])
  {
    var scanned: Postings := map[RowText(fmt) := ["k"]];
    assert Agrees(fmt, "f", scanned, map["k" := Row]);
  }

  lemma TwiceIsTwice(keys: seq<string>)
    requires |keys| == 2 && keys[0] == keys[1]
    ensures !NoDuplicates(keys)
  {
  }

  lemma DuplicatesDisagree(fmt: Formatter, field: string, p: Postings, rows: Table, text: string)
    requires text in p && !NoDuplicates(p[text])
    ensures !Agrees(fmt, field, p, rows)
  {
  }

  lemma FiledAgain(fmt: Formatter)
    ensures var text := FormatIndexValue(fmt, Text([1]));
            Refile(fmt, "f", map[text := ["k"]], "k", Nil, Row) == map[text := ["k", "k"]]
  {
    var text := FormatIndexValue(fmt, Text([1]));
    assert FiledUnder(fmt, "f", Row) == Some(text) && FiledUnder(fmt, "f", Nil) == None;
    assert ["k"] + ["k"] == ["k", "k"];
  }

  // Commits.

  /** A commit updates no index: all that agreed with the store still do if and only if the
      commit left every key of every indexed field filed where it was. */
  lemma CommitAgreesIff(fmt: Formatter, indexes: Indexes, data: Data, changes: Changes)
    requires AllAgree(fmt, indexes, data)
    ensures var committed := ApplyChanges(data, changes);
            AllAgree(fmt, indexes, committed) <==>
            forall t, f, key :: t in indexes && f in indexes[t] ==>
              Filing(fmt, f, TableOf(data, t), key) == Filing(fmt, f, TableOf(committed, t), key)
  {
    hide Agrees, ApplyChanges, Filing;
    var committed := ApplyChanges(data, changes);
    forall t, f | t in indexes && f in indexes[t]
      ensures Agrees(fmt, f, indexes[t][f], TableOf(committed, t)) <==>
              forall key :: Filing(fmt, f, TableOf(data, t), key) == Filing(fmt, f, TableOf(committed, t), key)
    {
      StaleScanAgreesIff(fmt, f, indexes[t][f], TableOf(data, t), TableOf(committed, t));
    }
  }

  /** A committed row that the index does not know: a query for its text finds nothing. */
  lemma CommitNotIndexed(fmt: Formatter)
    ensures var text := FormatIndexValue(fmt, Text([1]));
            var indexes: Indexes := map["t" := map["f" := map[]]];
            var committed := ApplyChanges(map["t" := map[]], map["t" := map["k" := Row]]);
            && AllAgree(fmt, indexes, map["t" := map[]])
            && Found(fmt, "f", TableOf(committed, "t"), text, "k") && !Listed(indexes["t"]["f"], text, "k")
            && !AllAgree(fmt, indexes, committed)
  {
    var text := FormatIndexValue(fmt, Text([1]));
    var indexes: Indexes := map["t" := map["f" := map[]]];
    var committed := ApplyChanges(map["t" := map[]], map["t" := map["k" := Row]]);
    assert Found(fmt, "f", TableOf(committed, "t"), text, "k") && !Listed(indexes["t"]["f"], text, "k");
  }
}
