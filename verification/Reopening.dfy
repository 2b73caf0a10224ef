/** What reopening makes of a snapshot and a log, in terms of the history they share
    (database.go, loadWithRetry and recoverFromWAL). */
module Reopening {
  import opened Values
  import opened Replay
  import opened Transactions

  /** The store after the first n entries of a log. */
  function After(base: Data, log: seq<Entry>, n: nat): Data
    requires n <= |log|
  {
    Apply(base, log[..n])
  }

  /** What reopening makes of a snapshot taken after n entries and a log file that starts
      at entry r, because earlier ones were rotated away, and is readable up to entry m. */
  function Reopened(base: Data, log: seq<Entry>, r: nat, n: nat, m: nat): Data
    requires n <= |log| && r <= m <= |log|
  {
    Apply(After(base, log, n), log[r..m])
  }

  /** Cell by cell, whatever r, n and m are: a cell that the replayed entries touch has its
      value after m, every other cell its value after n; and the tables are those of the
      snapshot with those the replayed entries make. */
  lemma ReopenedCell(base: Data, log: seq<Entry>, r: nat, n: nat, m: nat, table: string, key: string)
    requires n <= |log| && r <= m <= |log|
    ensures Cell(Reopened(base, log, r, n, m), table, key) ==
            if Net(log[r..m], table, key).Some? then Cell(After(base, log, m), table, key)
            else Cell(After(base, log, n), table, key)
    ensures Reopened(base, log, r, n, m).Keys == After(base, log, n).Keys + Created(log[r..m])
  {
    hide Apply, Net, Created;
    ReplayCell(After(base, log, n), log[r..m], table, key);
    ReplayTables(After(base, log, n), log[r..m]);
    ReplayCell(base, log[..m], table, key);
    assert log[..m] == log[..r] + log[r..m];
    NetConcat(log[..r], log[r..m], table, key);
  }

  /** Exact recovery: the snapshot covers what was rotated away and is not ahead of the
      readable log. Then the store is the one after m entries. */
  lemma ReopenedExactly(base: Data, log: seq<Entry>, r: nat, n: nat, m: nat)
    requires r <= n <= m <= |log|
    ensures Reopened(base, log, r, n, m) == After(base, log, m)
  {
    ReplayOverlap(base, log[..m], r, n);
    assert log[..m][..n] == log[..n] && log[..m][r..] == log[r..m];
  }

  lemma CreatedPart(base: Data, log: seq<Entry>, r: nat, m: nat, n: nat)
    requires r <= m <= n <= |log|
    ensures Created(log[r..m]) <= After(base, log, n).Keys
  {
    hide Apply, Created;
    ReplayTables(base, log[..n]);
    assert log[..n] == log[..r] + (log[r..m] + log[m..n]);
    CreatedConcat(log[..r], log[r..m] + log[m..n]);
    CreatedConcat(log[r..m], log[m..n]);
  }

  /** A snapshot ahead of the readable log is not kept as it is: the older entries are
      replayed over it. It survives if and only if no cell they touch has changed since. */
  lemma SnapshotAheadSurvivesIff(base: Data, log: seq<Entry>, r: nat, n: nat, m: nat)
    requires r <= m < n <= |log|
    ensures Reopened(base, log, r, n, m) == After(base, log, n) <==>
            forall t, k :: Net(log[r..m], t, k).Some? ==>
              Cell(After(base, log, m), t, k) == Cell(After(base, log, n), t, k)
  {
    hide Apply, Net, Created;
    var reopened, ahead := Reopened(base, log, r, n, m), After(base, log, n);
    forall t, k
      ensures Cell(reopened, t, k) ==
              if Net(log[r..m], t, k).Some? then Cell(After(base, log, m), t, k) else Cell(ahead, t, k)
    {
      ReopenedCell(base, log, r, n, m, t, k);
    }
    ReopenedCell(base, log, r, n, m, "", "");
    CreatedPart(base, log, r, m, n);
    if forall t, k :: Net(log[r..m], t, k).Some? ==> Cell(After(base, log, m), t, k) == Cell(ahead, t, k) {
      SameCells(reopened, ahead);
    }
  }

  /** A rotation past the snapshot drops entries nobody replays. The state after m is
      recovered if and only if what was dropped is made good by what is left: every cell
      and table that the remaining entries do not settle is as the snapshot has it. */
  lemma RotatedPastSnapshotSafeIff(base: Data, log: seq<Entry>, r: nat, n: nat, m: nat)
    requires n < r <= m <= |log|
    ensures Reopened(base, log, r, n, m) == After(base, log, m) <==>
            && After(base, log, m).Keys == After(base, log, n).Keys + Created(log[r..m])
            && forall t, k :: Net(log[r..m], t, k).None? ==>
                 Cell(After(base, log, n), t, k) == Cell(After(base, log, r), t, k)
  {
    hide Apply, Net, Created;
    var reopened, wanted := Reopened(base, log, r, n, m), After(base, log, m);
    ReopenedCell(base, log, r, n, m, "", "");
    forall t, k
      ensures Cell(reopened, t, k) ==
              if Net(log[r..m], t, k).Some? then Cell(wanted, t, k) else Cell(After(base, log, n), t, k)
      ensures Net(log[r..m], t, k).None? ==> Cell(wanted, t, k) == Cell(After(base, log, r), t, k)
    {
      ReopenedCell(base, log, r, n, m, t, k);
      assert log[..m] == log[..r] + log[r..m];
      ApplyConcat(base, log[..r], log[r..m]);
      ReplayCell(After(base, log, r), log[r..m], t, k);
    }
    if && wanted.Keys == After(base, log, n).Keys + Created(log[r..m])
       && forall t, k :: Net(log[r..m], t, k).None?
               ==> Cell(After(base, log, n), t, k) == Cell(After(base, log, r), t, k) {
      SameCells(reopened, wanted);
    }
  }

  /** Replaying a log over any store whatever leaves it as it is if and only if the store has
      the tables that the log makes, and in every cell that the log touches what the last
      entry touching it leaves there. */
  lemma SurvivesReplayIff(data: Data, log: seq<Entry>)
    ensures Apply(data, log) == data <==>
            && Created(log) <= data.Keys
            && forall t, k :: Net(log, t, k).Some? ==> Cell(data, t, k) == Net(log, t, k).value
  {
    hide Apply, Net, Created;
    ReplayTables(data, log);
    forall t, k
      ensures Cell(Apply(data, log), t, k) ==
              if Net(log, t, k).Some? then Net(log, t, k).value else Cell(data, t, k)
    {
      ReplayCell(data, log, t, k);
    }
    if && Created(log) <= data.Keys
       && forall t, k :: Net(log, t, k).Some? ==> Cell(data, t, k) == Net(log, t, k).value {
      SameCells(Apply(data, log), data);
    }
  }

  /** A committed transaction is not in the log. Once saved, it survives the replay of a log
      if and only if it left the tables that the log makes in place, and every cell the log
      touches as the log leaves it; where the store before it had absorbed the log, if and
      only if it left every cell the log touches as it was. */
  lemma SavedCommitSurvivesIff(data: Data, changes: Changes, log: seq<Entry>)
    ensures var committed := ApplyChanges(data, changes);
            && (Apply(committed, log) == committed <==>
                && Created(log) <= data.Keys + changes.Keys
                && forall t, k :: Net(log, t, k).Some? ==> Cell(committed, t, k) == Net(log, t, k).value)
            && (Apply(data, log) == data ==>
                (Apply(committed, log) == committed <==>
                 forall t, k :: Net(log, t, k).Some? ==> Cell(committed, t, k) == Cell(data, t, k)))
  {
    hide Apply, Net, Created, ApplyChanges;
    ApplyChangesCell(data, changes, "", "");
    SurvivesReplayIff(ApplyChanges(data, changes), log);
    SurvivesReplayIff(data, log);
  }
}
