/** Optimistic transactions: their private change sets and how they end (modules/tx/manager.go). */
module Transactions {
  import opened Values
  import opened SecondaryIndex

  /** table -> key -> new value, where nil stands for a deletion. */
  type Changes = map<string, Table>

  datatype Txn = Txn(snapshot: Data, version: nat, changes: Changes, committed: bool, aborted: bool)
  {
    predicate Finalized() {
      committed || aborted
    }
  }

  function Started(snapshot: Data, version: nat): Txn {
    Txn(snapshot, version, map[], false, false)
  }

  /** Write, and Delete as a write of nil; a finalized transaction takes neither. */
  function Record(t: Txn, table: string, key: string, value: Value): Txn {
    if t.Finalized() then t
    else t.(changes := t.changes[table := Put(TableOf(t.changes, table), key, value)])
  }

  function MarkCommitted(t: Txn): Txn {
    if t.Finalized() then t else t.(committed := true)
  }

  function MarkAborted(t: Txn): Txn {
    if t.Finalized() then t else t.(aborted := true)
  }

  // Applying a change set.

  function ApplyRecord(table: Table, key: string, value: Value): Table {
    if value.Nil? then table - {key} else Put(table, key, value)
  }

  /** The rows of a table after the records of a change set. */
  function Merged(table: Table, records: Table): Table {
    map k | k in table.Keys + records.Keys && !(k in records && records[k].Nil?) ::
      if k in records then records[k] else table[k]
  }

  function ApplyChanges(data: Data, changes: Changes): Data {
    map t | t in data.Keys + changes.Keys ::
      if t in changes then Merged(TableOf(data, t), changes[t]) else data[t]
  }

  /** Cell by cell: a changed cell gets its new value, or goes if that is nil; no other
      cell moves; and every table named in the change set exists afterwards. */
  lemma ApplyChangesCell(data: Data, changes: Changes, table: string, key: string)
    ensures ApplyChanges(data, changes).Keys == data.Keys + changes.Keys
    ensures Cell(ApplyChanges(data, changes), table, key) ==
            match Cell(changes, table, key)
            case None => Cell(data, table, key)
            case Some(v) => if v.Nil? then None else Some(v)
  {
  }

  /** The loops of a commit, one record and one table at a time. */
  lemma MergedStep(table: Table, records: Table, todo: set<string>, key: string)
    requires key in todo && todo <= records.Keys
    ensures Merged(table, records - (todo - {key})) == ApplyRecord(Merged(table, records - todo), key, records[key])
  {
  }

  lemma ChangesStep(data: Data, changes: Changes, todo: set<string>, table: string)
    requires table in todo && todo <= changes.Keys
    ensures var part := ApplyChanges(data, changes - todo);
            ApplyChanges(data, changes - (todo - {table}))
              == WithTable(part, table, Merged(TableOf(part, table), changes[table]))
  {
  }

  lemma NothingMerged(data: Data, changes: Changes, table: Table, records: Table)
    ensures Merged(table, records - records.Keys) == table && records - {} == records
    ensures ApplyChanges(data, changes - changes.Keys) == data && changes - {} == changes
  {
    assert records - records.Keys == map[] && changes - changes.Keys == map[];
  }

  class Transaction {
    const id: nat
    const snapshot: Data
    var changes: Changes
    var committed: bool
    var aborted: bool
    var snapshotVersion: nat

    constructor (id: nat, snapshot: Data)
      ensures this.id == id && State() == Started(snapshot, 0)
    {
      this.id, this.snapshot := id, snapshot;
      changes, committed, aborted, snapshotVersion := map[], false, false, 0;
    }

    ghost function State(): Txn
      reads this
    {
      Txn(snapshot, snapshotVersion, changes, committed, aborted)
    }

    method Write(table: string, key: string, value: Value) returns (ok: bool)
      modifies this`changes
      ensures ok == !old(State()).Finalized()
      ensures State() == Record(old(State()), table, key, value)
      ensures ok ==> forall t, k ::
                Cell(changes, t, k) == if (t, k) == (table, key) then Some(value) else old(Cell(changes, t, k))
    {
      if committed || aborted { return false; }
      if table !in changes {
        changes := changes[table := map[]];
      }
      changes := changes[table := Put(changes[table], key, value)];
      ok := true;
    }

    method Delete(table: string, key: string) returns (ok: bool)
      modifies this`changes
      ensures ok == !old(State()).Finalized()
      ensures State() == Record(old(State()), table, key, Nil)
      ensures ok ==> forall t, k ::
                Cell(changes, t, k) == if (t, k) == (table, key) then Some(Nil) else old(Cell(changes, t, k))
    {
      if committed || aborted { return false; }
      if table !in changes {
        changes := changes[table := map[]];
      }
      changes := changes[table := Put(changes[table], key, Nil)];
      ok := true;
    }
  }

  class TxManager {
    var counter: nat
    var active: int
    var committed: nat
    var aborted: nat
    var transactions: set<nat>

    constructor ()
      ensures counter == 0 && active == 0 && committed == 0 && aborted == 0 && transactions == {}
    {
      counter, active, committed, aborted := 0, 0, 0, 0;
      transactions := {};
    }

    method Begin(snapshot: Data) returns (t: Transaction)
      modifies this
      ensures fresh(t) && t.State() == Started(snapshot, 0)
      ensures counter == old(counter) + 1 && t.id == counter
      ensures transactions == old(transactions) + {t.id} && active == old(active) + 1
      ensures committed == old(committed) && aborted == old(aborted)
    {
      counter := counter + 1;
      t := new Transaction(counter, snapshot);
      transactions, active := transactions + {t.id}, active + 1;
    }

    /** Marks the transaction committed and hands out its changes, before anything is
        known about conflicts. */
    method Commit(t: Transaction) returns (r: Option<Changes>)
      modifies this, t`committed
      ensures r == if old(t.State()).Finalized() then None else Some(t.changes)
      ensures t.State() == MarkCommitted(old(t.State())) && (r.Some? ==> t.committed)
      ensures counter == old(counter) && aborted == old(aborted)
      ensures r.None? ==> committed == old(committed) && active == old(active) && transactions == old(transactions)
      ensures r.Some? ==> committed == old(committed) + 1 && active == old(active) - 1
      ensures r.Some? ==> transactions == old(transactions) - {t.id}
    {
      if t.committed || t.aborted { return None; }
      t.committed := true;
      transactions, active, committed := transactions - {t.id}, active - 1, committed + 1;
      r := Some(t.changes);
    }

    method Rollback(t: Transaction) returns (ok: bool)
      modifies this, t`aborted
      ensures ok == !old(t.State()).Finalized()
      ensures t.State() == MarkAborted(old(t.State())) && (ok ==> t.aborted)
      ensures counter == old(counter) && committed == old(committed)
      ensures !ok ==> aborted == old(aborted) && active == old(active) && transactions == old(transactions)
      ensures ok ==> aborted == old(aborted) + 1 && active == old(active) - 1
      ensures ok ==> transactions == old(transactions) - {t.id}
    {
      if t.committed || t.aborted { return false; }
      t.aborted := true;
      transactions, active, aborted := transactions - {t.id}, active - 1, aborted + 1;
      ok := true;
    }
  }
}
