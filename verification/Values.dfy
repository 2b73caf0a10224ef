/** Values held by the store, and the small datatypes the other modules share. */
module Values {
  type byte = x: int | 0 <= x < 256
  type Bytes = seq<byte>

  datatype Option<+T> = None | Some(value: T)

  /** Go's integer kinds. Every Go integer carries its kind at run time. */
  datatype IntKind =
    | KInt | KInt8 | KInt16 | KInt32 | KInt64
    | KUint | KUint8 | KUint16 | KUint32 | KUint64

  const TWO_63 := 0x8000_0000_0000_0000
  const TWO_64 := 0x1_0000_0000_0000_0000

  predicate Signed(kind: IntKind) {
    kind.KInt? || kind.KInt8? || kind.KInt16? || kind.KInt32? || kind.KInt64?
  }

  function MinOf(kind: IntKind): int {
    match kind
    case KInt8 => -0x80
    case KInt16 => -0x8000
    case KInt32 => -0x8000_0000
    case KInt => -TWO_63
    case KInt64 => -TWO_63
    case _ => 0
  }

  function MaxOf(kind: IntKind): int {
    match kind
    case KInt8 => 0x7f
    case KInt16 => 0x7fff
    case KInt32 => 0x7fff_ffff
    case KInt => TWO_63 - 1
    case KInt64 => TWO_63 - 1
    case KUint8 => 0xff
    case KUint16 => 0xffff
    case KUint32 => 0xffff_ffff
    case KUint => TWO_64 - 1
    case KUint64 => TWO_64 - 1
  }

  /** A value as the language builds it: a finite tree of primitives, byte slices, maps and lists. */
  datatype Tree =
    | Nil
    | Bool(b: bool)
    | Int(kind: IntKind, n: int)
    | Float(width: nat, r: real)
    | Text(chars: Bytes)
    | Blob(bytes: Bytes)
    | List(items: seq<Tree>)
    | Map(fields: map<string, Tree>)

  /** What Go's type system guarantees of an integer: it fits its kind. */
  predicate Fits(v: Tree) {
    v.Int? ==> MinOf(v.kind) <= v.n <= MaxOf(v.kind)
  }

  /** A stored value. */
  type Value = v: Tree | Fits(v) witness Nil

  type Table = map<string, Value>
  type Data = map<string, Table>

  function Put(t: Table, key: string, value: Value): Table {
    t[key := value]
  }

  function WithTable(data: Data, table: string, rows: Table): Data {
    data[table := rows]
  }

  lemma SetTwice(data: Data, table: string, first: Table, second: Table)
    ensures table in WithTable(data, table, first) && WithTable(data, table, first)[table] == first
    ensures WithTable(WithTable(data, table, first), table, second) == WithTable(data, table, second)
    ensures table in data ==> WithTable(data, table, data[table]) == data
  {
  }

  /** The content of one (table, key) cell, if there is one. */
  function Cell(data: Data, table: string, key: string): Option<Value> {
    if table in data && key in data[table] then Some(data[table][key]) else None
  }

  /** Two stores with the same tables and the same cells are the same store. */
  lemma SameCells(a: Data, b: Data)
    requires a.Keys == b.Keys
    requires forall t, k :: Cell(a, t, k) == Cell(b, t, k)
    ensures a == b
  {
    forall t | t in a
      ensures a[t] == b[t]
    {
      forall k
        ensures k in a[t] <==> k in b[t]
        ensures k in a[t] ==> a[t][k] == b[t][k]
      {
        assert Cell(a, t, k) == Cell(b, t, k);
      }
    }
  }
}
