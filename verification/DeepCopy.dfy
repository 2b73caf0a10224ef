/** Deep copies in the heap, and the snapshots made of them (database.go, deepCopyValue and
    createSnapshot). Here maps, lists and byte slices are objects that can be shared and
    changed; a value shows a tree when walking it from the root spells that tree out. */
module DeepCopy {
  import opened Values

  class MapObject {
    var entries: map<string, Any>

    constructor ()
      ensures entries == map[]
    {
      entries := map[];
    }
  }

  /** What an interface value holds: a scalar by value, or a reference. */
  datatype Any =
    | Scalar(v: Tree)
    | BlobRef(blob: array<byte>)
    | MapRef(m: MapObject)
    | ListRef(items: array<Any>)

  /** v spells out the tree t, and every object on the way is in reach. Parts may be shared. */
  ghost predicate Shows(v: Any, t: Tree, reach: set<object>)
    reads reach
    decreases t
  {
    match t
    case Blob(bytes) => v.BlobRef? && v.blob in reach && v.blob[..] == bytes
    case List(items) =>
      && v.ListRef? && v.items in reach && v.items.Length == |items|
      && forall i :: 0 <= i < |items| ==> Shows(v.items[i], items[i], reach)
    case Map(fields) =>
      && v.MapRef? && v.m in reach && v.m.entries.Keys == fields.Keys
      && forall k :: k in fields ==> Shows(v.m.entries[k], fields[k], reach)
    case _ => v == Scalar(t)
  }

  lemma {:induction false} WiderReach(v: Any, t: Tree, reach: set<object>, wider: set<object>)
    requires Shows(v, t, reach) && reach <= wider
    ensures Shows(v, t, wider)
    decreases t
  {
    match t
    case List(items) =>
      forall i | 0 <= i < |items| ensures Shows(v.items[i], items[i], wider) {
        WiderReach(v.items[i], items[i], reach, wider);
      }
    case Map(fields) =>
      forall k | k in fields ensures Shows(v.m.entries[k], fields[k], wider) {
        WiderReach(v.m.entries[k], fields[k], reach, wider);
      }
    case _ =>
  }

  /** The copy shows the same tree through objects that did not exist before. */
  method DeepCopyValue(v: Any, ghost t: Tree, ghost reach: set<object>) returns (c: Any, ghost made: set<object>)
    requires Shows(v, t, reach)
    ensures fresh(made) && Shows(c, t, made)
    decreases t, 1
  {
    match v
    case Scalar(_) => c, made := v, {};
    case BlobRef(blob) =>
      var copy := new byte[blob.Length](i => 0);
      forall i | 0 <= i < blob.Length {
        copy[i] := blob[i];
      }
      c, made := BlobRef(copy), {copy};
      assert copy[..] == blob[..];
    case MapRef(m) =>
      var copy;
      copy, made := CopyEntries(m, t.fields, reach);
      c := MapRef(copy);
    case ListRef(items) =>
      var copy;
      copy, made := CopyItems(items, t.items, reach);
      c := ListRef(copy);
  }

  /** The entries show the fields but for those still to do. */
  ghost predicate EntriesShow(entries: map<string, Any>, fields: map<string, Tree>, todo: set<string>,
                              reach: set<object>)
    reads reach
  {
    && entries.Keys == fields.Keys - todo
    && forall k :: k in entries ==> Shows(entries[k], fields[k], reach)
  }

  lemma OneMoreEntry(entries: map<string, Any>, fields: map<string, Tree>, todo: set<string>, key: string, child: Any,
                     kids: set<object>, more: set<object>)
    requires EntriesShow(entries, fields, todo, kids) && key in todo && key in fields && Shows(child, fields[key], more)
    ensures EntriesShow(entries[key := child], fields, todo - {key}, kids + more)
  {
    EntriesInWiderReach(entries, fields, todo, kids, kids + more);
    WiderReach(child, fields[key], more, kids + more);
    hide Shows;
  }

  lemma EntriesInWiderReach(entries: map<string, Any>, fields: map<string, Tree>, todo: set<string>,
                            reach: set<object>, wider: set<object>)
    requires EntriesShow(entries, fields, todo, reach) && reach <= wider
    ensures EntriesShow(entries, fields, todo, wider)
  {
    forall k | k in entries ensures Shows(entries[k], fields[k], wider) {
      WiderReach(entries[k], fields[k], reach, wider);
    }
  }

  method CopyEntries(m: MapObject, ghost fields: map<string, Tree>, ghost reach: set<object>)
    returns (copy: MapObject, ghost made: set<object>)
    requires Shows(MapRef(m), Map(fields), reach)
    ensures fresh(made) && Shows(MapRef(copy), Map(fields), made)
    decreases Map(fields), 0
  {
    copy := new MapObject();
    var todo := m.entries.Keys;
    ghost var kids: set<object> := {};
    assert EntriesShow(m.entries, fields, {}, reach) && EntriesShow(copy.entries, fields, todo, kids);
    while todo != {}
      invariant fresh(copy) && fresh(kids) && copy !in kids && m in reach
      invariant todo <= fields.Keys && EntriesShow(m.entries, fields, {}, reach)
      invariant EntriesShow(copy.entries, fields, todo, kids)
      decreases todo
    {
      var key :| key in todo;
      var child, more := DeepCopyValue(m.entries[key], fields[key], reach);
      OneMoreEntry(copy.entries, fields, todo, key, child, kids, more);
      hide Shows, EntriesShow;
      copy.entries := copy.entries[key := child];
      kids, todo := kids + more, todo - {key};
    }
    made := kids + {copy};
    EntriesInWiderReach(copy.entries, fields, {}, kids, made);
  }

  method CopyItems(items: array<Any>, ghost trees: seq<Tree>, ghost reach: set<object>)
    returns (copy: array<Any>, ghost made: set<object>)
    requires Shows(ListRef(items), List(trees), reach)
    ensures fresh(made) && Shows(ListRef(copy), List(trees), made)
    decreases List(trees), 0
  {
    copy := new Any[items.Length](i => Scalar(Nil));
    ghost var kids: set<object> := {};
    var i := 0;
    while i < items.Length
      invariant 0 <= i <= items.Length && fresh(copy) && fresh(kids) && copy !in kids
      invariant Shows(ListRef(items), List(trees), reach)
      invariant forall j :: 0 <= j < i ==> Shows(copy[j], trees[j], kids)
    {
      var child, more := DeepCopyValue(items[i], trees[i], reach);
      forall j | 0 <= j < i ensures Shows(copy[j], trees[j], kids + more) {
        WiderReach(copy[j], trees[j], kids, kids + more);
      }
      WiderReach(child, trees[i], more, kids + more);
      kids := kids + more;
      copy[i] := child;
      i := i + 1;
    }
    made := kids + {copy};
    forall j | 0 <= j < |trees| ensures Shows(copy[j], trees[j], made) {
      WiderReach(copy[j], trees[j], kids, made);
    }
  }

  // Snapshots of a whole store.

  ghost predicate ShowsStore(store: map<string, MapObject>, data: map<string, map<string, Tree>>, reach: set<object>)
    reads reach
  {
    && store.Keys == data.Keys
    && forall t :: t in data ==> Shows(MapRef(store[t]), Map(data[t]), reach)
  }

  /** createSnapshot: every table and every value copied. */
  method CreateSnapshot(store: map<string, MapObject>, ghost data: map<string, map<string, Tree>>,
                        ghost reach: set<object>)
    returns (snapshot: map<string, MapObject>, ghost made: set<object>)
    requires ShowsStore(store, data, reach)
    ensures fresh(made) && ShowsStore(snapshot, data, made)
  {
    hide Shows;
    snapshot, made := map[], {};
    var todo := store.Keys;
    while todo != {}
      invariant fresh(made) && todo <= store.Keys
      invariant snapshot.Keys == data.Keys - todo
      invariant ShowsStore(store, data, reach)
      invariant forall t :: t in snapshot ==> Shows(MapRef(snapshot[t]), Map(data[t]), made)
      decreases todo
    {
      var table :| table in todo;
      var copy, more := CopyEntries(store[table], data[table], reach);
      forall t | t in snapshot ensures Shows(MapRef(snapshot[t]), Map(data[t]), made + more) {
        WiderReach(MapRef(snapshot[t]), Map(data[t]), made, made + more);
      }
      WiderReach(MapRef(copy), Map(data[table]), more, made + more);
      made := made + more;
      snapshot := snapshot[table := copy];
      todo := todo - {table};
    }
  }

  /** Whatever later happens to objects outside the snapshot's own, the snapshot shows the
      data it was taken of. */
  twostate lemma SnapshotIsolated(snapshot: map<string, MapObject>, data: map<string, map<string, Tree>>,
                                  made: set<object>)
    requires old(ShowsStore(snapshot, data, made))
    requires forall o :: o in made ==> unchanged(o)
    ensures ShowsStore(snapshot, data, made)
  {
  }

  /** What that means for a transaction: begin, then overwrite any live map or byte at will;
      the live store need show nothing sensible any more, the snapshot shows what it did. */
  method SnapshotThenOverwrite(store: map<string, MapObject>, ghost data: map<string, map<string, Tree>>,
                               ghost reach: set<object>,
                               m: MapObject, entries: map<string, Any>, blob: array<byte>, i: nat, b: byte)
    returns (snapshot: map<string, MapObject>, ghost made: set<object>)
    requires ShowsStore(store, data, reach) && i < blob.Length
    modifies m, blob
    ensures fresh(made) && ShowsStore(snapshot, data, made)
    ensures m.entries == entries && blob[i] == b
  {
    snapshot, made := CreateSnapshot(store, data, reach);
    m.entries := entries;
    blob[i] := b;
  }
}
