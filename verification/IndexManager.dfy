/** The index objects and the manager that owns them (modules/index/manager.go). */
module IndexManager {
  import opened Values
  import opened SecondaryIndex

  class Index {
    var data: Postings
    /** The one place this index is kept. */
    ghost const table: string
    ghost const field: string

    constructor (ghost table: string, ghost field: string)
      ensures data == map[] && this.table == table && this.field == field
    {
      data := map[];
      this.table, this.field := table, field;
    }

    /** Find the key, close the gap it leaves, and drop the list if that emptied it. */
    method Remove(text: string, key: string)
      modifies this
      ensures data == RemoveKey(old(data), text, key)
    {
      if text !in data { return; }
      var keys := data[text];
      var i := 0;
      while i < |keys| && keys[i] != key
        invariant 0 <= i <= |keys|
        invariant key !in keys[..i]
      {
        i := i + 1;
      }
      RemoveAt(keys, key, i);
      if i < |keys| {
        data := data[text := keys[..i] + keys[i + 1..]];
      }
      if data[text] == [] {
        data := data - {text};
      }
    }

    method Add(text: string, key: string)
      modifies this
      ensures data == AddKey(old(data), text, key)
    {
      var keys := if text in data then data[text] else [];
      data := data[text := keys + [key]];
    }

    /** The body of UpdateIndex once the index is found. */
    method Refile(fmt: Formatter, field: string, key: string, was: Value, now: Value)
      modifies this
      ensures data == SecondaryIndex.Refile(fmt, field, old(data), key, was, now)
    {
      if !was.Nil? {
        var text := FiledUnder(fmt, field, was);
        if text.Some? {
          Remove(text.value, key);
        }
      }
      if !now.Nil? {
        var text := FiledUnder(fmt, field, now);
        if text.Some? {
          Add(text.value, key);
        }
      }
    }

    /** The body of DeleteFromIndex once the index is found. */
    method Unfile(fmt: Formatter, field: string, key: string, was: Value)
      modifies this
      ensures data == SecondaryIndex.Unfile(fmt, field, old(data), key, was)
    {
      var text := FiledUnder(fmt, field, was);
      if text.Some? {
        Remove(text.value, key);
      }
    }
  }

  lemma {:induction false} RemoveAt(keys: seq<string>, key: string, i: nat)
    requires i <= |keys| && key !in keys[..i]
    requires i < |keys| ==> keys[i] == key
    ensures RemoveFirst(keys, key) == if i < |keys| then keys[..i] + keys[i + 1..] else keys
  {
    if i > 0 {
      assert keys[..i][0] == keys[0];
      assert keys[..i][1..] == keys[1..][..i - 1];
      RemoveAt(keys[1..], key, i - 1);
      assert keys == [keys[0]] + keys[1..];
    }
  }

  datatype QueryResult = NoIndexesForTable | NoIndexForField | Keys(keys: seq<string>)

  /** Each index object is kept in one place only, and state shows what it holds. */
  ghost predicate Consistent(indexes: map<string, map<string, Index>>, state: Indexes, objects: set<Index>)
    reads objects
  {
    && state.Keys == indexes.Keys
    && (forall t :: t in indexes ==> state[t].Keys == indexes[t].Keys)
    && (forall t, f :: t in indexes && f in indexes[t] ==>
          var idx := indexes[t][f];
          idx in objects && idx.table == t && idx.field == f && idx.data == state[t][f])
  }

  lemma OneMoreConsistent(indexes: map<string, map<string, Index>>, state: Indexes, objects: set<Index>,
                          table: string, field: string, idx: Index)
    requires Consistent(indexes, state, objects)
    requires idx.table == table && idx.field == field
    ensures var fields: map<string, Index> := if table in indexes then indexes[table] else map[];
            var was := if table in state then state[table] else map[];
            Consistent(indexes[table := fields[field := idx]], state[table := was[field := idx.data]], objects + {idx})
  {
  }

  /** The same, except perhaps for what one of the objects holds. */
  ghost predicate ConsistentBut(indexes: map<string, map<string, Index>>, state: Indexes, objects: set<Index>,
                                idx: Index)
    reads objects - {idx}
  {
    && state.Keys == indexes.Keys
    && (forall t :: t in indexes ==> state[t].Keys == indexes[t].Keys)
    && (forall t, f :: t in indexes && f in indexes[t] ==>
          var i := indexes[t][f];
          i in objects && i.table == t && i.field == f && (i != idx ==> i.data == state[t][f]))
  }

  lemma LeaveOut(indexes: map<string, map<string, Index>>, state: Indexes, objects: set<Index>, idx: Index)
    requires Consistent(indexes, state, objects)
    ensures ConsistentBut(indexes, state, objects, idx)
  {
  }

  lemma PutBack(indexes: map<string, map<string, Index>>, state: Indexes, objects: set<Index>, table: string,
                field: string)
    requires table in indexes && field in indexes[table]
    requires ConsistentBut(indexes, state, objects, indexes[table][field])
    ensures table in state
    ensures Consistent(indexes, state[table := state[table][field := indexes[table][field].data]], objects)
  {
  }

  class Manager {
    const fmt: Formatter
    var indexes: map<string, map<string, Index>>
    /** What the index objects hold, as a value. */
    ghost var state: Indexes

    ghost var objects: set<Index>

    ghost predicate Valid()
      reads this, objects
    {
      Consistent(indexes, state, objects)
    }

    constructor (fmt: Formatter)
      ensures this.fmt == fmt && Valid() && state == map[] && objects == {}
    {
      this.fmt := fmt;
      indexes, state, objects := map[], map[], {};
    }

    /** The scan that fills a new index. */
    method Build(ghost table: string, field: string, rows: Table) returns (idx: Index)
      ensures fresh(idx) && idx.table == table && idx.field == field
      ensures Agrees(fmt, field, idx.data, rows)
    {
      idx := new Index(table, field);
      var todo := rows.Keys;
      ghost var filed: Table := map[];
      while todo != {}
        invariant fresh(idx) && idx.table == table && idx.field == field
        invariant todo <= rows.Keys
        invariant filed.Keys == rows.Keys - todo && forall k :: k in filed ==> filed[k] == rows[k]
        invariant Agrees(fmt, field, idx.data, filed)
        decreases todo
      {
        var key :| key in todo;
        FileAgrees(fmt, field, idx.data, filed, key, rows[key]);
        hide Agrees;
        var text := FiledUnder(fmt, field, rows[key]);
        if text.Some? {
          idx.Add(text.value, key);
        }
        todo := todo - {key};
        filed := Put(filed, key, rows[key]);
      }
      assert filed == rows;
    }

    /** An index that exists is left alone; a new one agrees with the rows it was built
        from. No other index changes. */
    method CreateIndex(table: string, field: string, rows: Table)
      requires Valid()
      modifies this
      ensures Valid() && fresh(objects - old(objects))
      ensures var was := if table in old(state) then old(state)[table] else map[];
              && table in state && field in state[table]
              && (field in was ==> state == old(state))
              && (field !in was ==> state == old(state)[table := was[field := state[table][field]]])
              && (field !in was ==> Agrees(fmt, field, state[table][field], rows))
    {
      if table in indexes && field in indexes[table] { return; }
      var idx := Build(table, field, rows);
      hide Agrees, Manager.Valid;
      Install(table, field, idx);
    }

    method Install(table: string, field: string, idx: Index)
      requires Valid() && idx.table == table && idx.field == field
      modifies this
      ensures Valid() && objects == old(objects) + {idx}
      ensures state == old(state)[table := (if table in old(state)
              then old(state)[table] else map[])[field := idx.data]]
    {
      var fields: map<string, Index> := if table in indexes then indexes[table] else map[];
      ghost var was := if table in state then state[table] else map[];
      OneMoreConsistent(indexes, state, objects, table, field, idx);
      hide Consistent;
      indexes, objects := indexes[table := fields[field := idx]], objects + {idx};
      state := state[table := was[field := idx.data]];
    }

    method Query(table: string, field: string, value: Tree) returns (r: QueryResult)
      requires Valid()
      ensures table !in state ==> r == NoIndexesForTable
      ensures table in state && field !in state[table] ==> r == NoIndexForField
      ensures table in state && field in state[table] ==>
                var text, p := FormatIndexValue(fmt, value), state[table][field];
                r == Keys(if text in p then p[text] else [])
    {
      if table !in indexes { return NoIndexesForTable; }
      if field !in indexes[table] { return NoIndexForField; }
      var text := FormatIndexValue(fmt, value);
      var idx := indexes[table][field];
      r := Keys(if text in idx.data then idx.data[text] else []);
    }

    method UpdateIndex(table: string, field: string, key: string, was: Value, now: Value)
      requires Valid()
      modifies this`state, objects
      ensures Valid()
      ensures state == if table in old(state) && field in old(state)[table]
                then old(state)[table := old(state)[table][field :=
                       Refile(fmt, field, old(state)[table][field], key, was, now)]]
                else old(state)
    {
      if table !in indexes || field !in indexes[table] { return; }
      var idx := indexes[table][field];
      LeaveOut(indexes, state, objects, idx);
      hide SecondaryIndex.Refile, Consistent, ConsistentBut;
      idx.Refile(fmt, field, key, was, now);
      PutBack(indexes, state, objects, table, field);
      state := state[table := state[table][field := idx.data]];
    }

    method DeleteFromIndex(table: string, field: string, key: string, was: Value)
      requires Valid()
      modifies this`state, objects
      ensures Valid()
      ensures state == if table in old(state) && field in old(state)[table]
                then old(state)[table := old(state)[table][field :=
                       Unfile(fmt, field, old(state)[table][field], key, was)]]
                else old(state)
    {
      if table !in indexes || field !in indexes[table] { return; }
      var idx := indexes[table][field];
      LeaveOut(indexes, state, objects, idx);
      hide SecondaryIndex.Unfile, Consistent, ConsistentBut;
      idx.Unfile(fmt, field, key, was);
      PutBack(indexes, state, objects, table, field);
      state := state[table := state[table][field := idx.data]];
    }

    /** GetIndexedFields. */
    method IndexedFields(table: string) returns (fields: set<string>)
      requires Valid()
      ensures fields == if table in state then state[table].Keys else {}
    {
      fields := if table in indexes then indexes[table].Keys else {};
    }

    /** The loop over the indexed fields that follows a write in processBatch. */
    method UpdateAllFields(table: string, key: string, was: Value, now: Value)
      requires Valid()
      modifies this`state, objects
      ensures Valid()
      ensures state == StepTable(old(state), table, Refiling(fmt, key, was, now))
    {
      var fields := IndexedFields(table);
      if table in indexes {
        hide PartWay, Consistent;
        UpdateEach(table, fields, key, was, now);
      }
    }

    method UpdateEach(table: string, fields: set<string>, key: string, was: Value, now: Value)
      requires Valid() && table in state && fields == state[table].Keys
      modifies this`state, objects
      ensures Valid() && state == PartWay(old(state), table, fields, Refiling(fmt, key, was, now))
    {
      var todo := fields;
      ghost var before := state;
      ghost var step := Refiling(fmt, key, was, now);
      StepNone(state, table, step);
      assert fields - fields == {};
      hide Manager.Valid, Consistent, PartWay, SecondaryIndex.Refile, SecondaryIndex.Unfile;
      while todo != {}
        invariant Valid() && todo <= fields
        invariant state == PartWay(before, table, fields - todo, step)
        decreases todo
      {
        var field :| field in todo;
        StepOne(before, table, fields - todo, step, field);
        assert fields - (todo - {field}) == (fields - todo) + {field};
        UpdateIndex(table, field, key, was, now);
        todo := todo - {field};
      }
      assert fields - {} == fields;
    }

    /** The loop over the indexed fields that follows a delete in processBatch. */
    method DeleteFromAllFields(table: string, key: string, was: Value)
      requires Valid()
      modifies this`state, objects
      ensures Valid()
      ensures state == StepTable(old(state), table, Unfiling(fmt, key, was))
    {
      var fields := IndexedFields(table);
      if table in indexes {
        hide PartWay, Consistent;
        DeleteFromEach(table, fields, key, was);
      }
    }

    method DeleteFromEach(table: string, fields: set<string>, key: string, was: Value)
      requires Valid() && table in state && fields == state[table].Keys
      modifies this`state, objects
      ensures Valid() && state == PartWay(old(state), table, fields, Unfiling(fmt, key, was))
    {
      var todo := fields;
      ghost var before := state;
      ghost var step := Unfiling(fmt, key, was);
      StepNone(state, table, step);
      assert fields - fields == {};
      hide Manager.Valid, Consistent, PartWay, SecondaryIndex.Refile, SecondaryIndex.Unfile;
      while todo != {}
        invariant Valid() && todo <= fields
        invariant state == PartWay(before, table, fields - todo, step)
        decreases todo
      {
        var field :| field in todo;
        StepOne(before, table, fields - todo, step, field);
        assert fields - (todo - {field}) == (fields - todo) + {field};
        DeleteFromIndex(table, field, key, was);
        todo := todo - {field};
      }
      assert fields - {} == fields;
    }

    method DropIndex(table: string, field: string)
      requires Valid()
      modifies this
      ensures Valid() && objects == old(objects)
      ensures state == if table in old(state) then old(state)[table := old(state)[table] - {field}] else old(state)
    {
      if table in indexes {
        indexes := indexes[table := indexes[table] - {field}];
        state := state[table := state[table] - {field}];
      }
    }
  }
}
