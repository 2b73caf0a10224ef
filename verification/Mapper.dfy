/** Filling structs from JSON-shaped maps (modules/mapper/mapper.go), and what a struct that
    went through JSON reads back as. */
module Mapper {
  import opened Values

  /** A gonum number, known only by identity. */
  type Number = nat

  /** The library calls: gonum's text form and conversions, base64, and what the hardware makes
      of a float that is outside the integer range. */
  datatype Lib = Lib(
    newNumber: Bytes -> Option<Number>,
    numberText: Number -> Bytes,
    fromFloat: real -> Number,
    fromInt: int -> Number,
    base64: Bytes -> Bytes,
    outOfRange: real -> int)
  {
    /** gonum.New inverts the string form. */
    ghost predicate TextInverts() {
      forall n: Number :: newNumber(numberText(n)) == Some(n)
    }

    /** Padded base64, as section 4 of RFC 4648 has it: four characters for every three bytes begun. */
    ghost predicate Base64Lengths() {
      forall bytes :: |base64(bytes)| == 4 * ((|bytes| + 2) / 3)
    }
  }

  datatype Type =
    | TString
    | TBool
    | TInt(kind: IntKind)
    | TNumber                       // *gonum.Number
    | TBytes                        // []byte
    | TStruct(fields: seq<Field>)
    | TPointer(fields: seq<Field>)  // pointer to struct
    | TSlice(fields: seq<Field>)    // slice of struct
    | TSliceOfPointers(fields: seq<Field>)

  /** An exported field: its Go name, its json tag (empty if none) and its type. */
  datatype Field = Field(name: string, tag: string, typ: Type)

  datatype GoValue =
    | VString(chars: Bytes)
    | VBool(b: bool)
    | VInt(n: int)
    | VNumber(num: Option<Number>)
    | VBytes(bytes: Option<Bytes>)
    | VStruct(vals: seq<GoValue>)
    | VPointer(target: Option<seq<GoValue>>)
    | VSlice(elems: Option<seq<seq<GoValue>>>)
    | VSliceOfPointers(targets: Option<seq<Option<seq<GoValue>>>>)

  function BeforeComma(tag: string): string {
    if |tag| == 0 || tag[0] == ',' then "" else [tag[0]] + BeforeComma(tag[1..])
  }

  /** The key the mapper looks a field up under. */
  function KeyOf(f: Field): string {
    if f.tag != "" && f.tag != "-" then BeforeComma(f.tag) else f.name
  }

  /** The key encoding/json writes a field under, if it writes it at all. */
  function JsonKey(f: Field): Option<string> {
    if f.tag == "-" then None
    else if BeforeComma(f.tag) == "" then Some(f.name)
    else Some(BeforeComma(f.tag))
  }

  // Conversions.

  /** How many numbers an integer type has. */
  function Size(kind: IntKind): int {
    MaxOf(kind) - MinOf(kind) + 1
  }

  /** Go's conversion between integer widths keeps the low bits. */
  function Wrap(kind: IntKind, x: int): int {
    MinOf(kind) + (x - MinOf(kind)) % Size(kind)
  }

  function Truncate(r: real): int {
    if r >= 0.0 then r.Floor else -((-r).Floor)
  }

  /** The 64-bit kind that SetInt and SetUint take. */
  function Wide(kind: IntKind): IntKind {
    if Signed(kind) then KInt64 else KUint64
  }

  /** convertInt and convertUint. */
  function ConvertInt(lib: Lib, kind: IntKind, raw: Tree, was: int): int {
    match raw
    case Int(_, n) => Wrap(kind, Wrap(Wide(kind), n))
    case Float(_, r) =>
      var whole := Truncate(r);
      Wrap(kind, if MinOf(Wide(kind)) <= whole <= MaxOf(Wide(kind)) then whole
                 else Wrap(Wide(kind), lib.outOfRange(r)))
    case _ => was
  }

  function ParseNumber(lib: Lib, raw: Tree): Option<Number> {
    match raw
    case Text(s) => lib.newNumber(s)
    case Float(_, r) => Some(lib.fromFloat(r))
    case Int(kind, n) =>
      if kind.KInt? || kind.KInt64? || kind.KUint64? then Some(lib.fromInt(n)) else None
    case Map(fields) =>
      if "value" in fields && fields["value"].Text? then lib.newNumber(fields["value"].chars) else None
    case _ => None
  }

  /** Other kinds of number are not taken. */
  function ByteOf(lib: Lib, raw: Tree): Option<byte> {
    match raw
    case Int(kind, n) =>
      if kind.KUint8? || kind.KInt? then Some(n % 256) else None
    case Float(width, r) =>
      if width != 64 then None
      else Some(if 0 <= Truncate(r) < 256 then Truncate(r) else lib.outOfRange(r) % 256)
    case _ => None
  }

  function BytesOf(lib: Lib, items: seq<Tree>): Option<Bytes> {
    if |items| == 0 then Some([])
    else
      match BytesOf(lib, items[..|items| - 1])
      case None => None
      case Some(front) =>
        match ByteOf(lib, items[|items| - 1])
        case None => None
        case Some(b) => Some(front + [b])
  }

  function ConvertBytes(lib: Lib, raw: Tree, was: Option<Bytes>): Option<Bytes> {
    match raw
    case Blob(bs) => Some(bs)
    case Text(s) => Some(s)
    case List(items) => (match BytesOf(lib, items) case None => was case Some(bs) => Some(bs))
    case _ => was
  }

  /** What Go's types guarantee of a destination: each field holds a value of its type. */
  predicate ShapeOf(t: Type, v: GoValue)
    decreases t, 1
  {
    match t
    case TString => v.VString?
    case TBool => v.VBool?
    case TInt(_) => v.VInt?
    case TNumber => v.VNumber?
    case TBytes => v.VBytes?
    case TStruct(fields) => v.VStruct? && Shapes(fields, v.vals)
    case TPointer(_) => v.VPointer?
    case TSlice(_) => v.VSlice?
    case TSliceOfPointers(_) => v.VSliceOfPointers?
  }

  predicate Shapes(fields: seq<Field>, vals: seq<GoValue>)
    decreases fields, 0
  {
    |vals| == |fields| && forall i :: 0 <= i < |fields| ==> ShapeOf(fields[i].typ, vals[i])
  }

  function Zero(t: Type): (v: GoValue)
    ensures ShapeOf(t, v)
    decreases t, 1
  {
    match t
    case TString => VString([])
    case TBool => VBool(false)
    case TInt(_) => VInt(0)
    case TNumber => VNumber(None)
    case TBytes => VBytes(None)
    case TStruct(fields) => VStruct(Zeros(fields))
    case TPointer(_) => VPointer(None)
    case TSlice(_) => VSlice(None)
    case TSliceOfPointers(_) => VSliceOfPointers(None)
  }

  function Zeros(fields: seq<Field>): (vals: seq<GoValue>)
    ensures Shapes(fields, vals)
    decreases fields, 0
  {
    seq(|fields|, i requires 0 <= i < |fields| => Zero(fields[i].typ))
  }

  /** One field, given what the map holds under its key: a missing or nil value, or one of
      a shape the field cannot take, leaves it as it was. */
  function FieldFrom(lib: Lib, raw: Tree, t: Type, was: GoValue): (v: GoValue)
    requires ShapeOf(t, was)
    ensures ShapeOf(t, v)
    decreases raw, 1
  {
    match t
    case TString => if raw.Text? then VString(raw.chars) else was
    case TBool => if raw.Bool? then VBool(raw.b) else was
    case TInt(kind) => VInt(ConvertInt(lib, kind, raw, was.n))
    case TNumber => (match ParseNumber(lib, raw) case None => was case Some(n) => VNumber(Some(n)))
    case TBytes => VBytes(ConvertBytes(lib, raw, was.bytes))
    case TStruct(fields) => if raw.Map? then VStruct(StructFrom(lib, raw, fields, was.vals)) else was
    case TPointer(fields) => if raw.Map? then VPointer(Some(StructFrom(lib, raw, fields, Zeros(fields)))) else was
    case TSlice(fields) => if raw.List? then VSlice(Some(ElemsFrom(lib, raw, fields, |raw.items|))) else was
    case TSliceOfPointers(fields) =>
      if raw.List? then VSliceOfPointers(Some(Pointers(ElemsFrom(lib, raw, fields, |raw.items|)))) else was
  }

  function Pointers(elems: seq<seq<GoValue>>): seq<Option<seq<GoValue>>> {
    seq(|elems|, i requires 0 <= i < |elems| => Some(elems[i]))
  }

  function FieldAt(lib: Lib, raw: Tree, f: Field, was: GoValue): (v: GoValue)
    requires raw.Map? && ShapeOf(f.typ, was)
    ensures ShapeOf(f.typ, v)
    decreases raw, 0, 0
  {
    if KeyOf(f) !in raw.fields || raw.fields[KeyOf(f)].Nil? then was
    else FieldFrom(lib, raw.fields[KeyOf(f)], f.typ, was)
  }

  /** MapToStruct, field by field. */
  function StructFrom(lib: Lib, raw: Tree, fields: seq<Field>, was: seq<GoValue>): (vals: seq<GoValue>)
    requires raw.Map? && Shapes(fields, was)
    ensures Shapes(fields, vals)
    decreases raw, 0, 1
  {
    seq(|fields|, i requires 0 <= i < |fields| => FieldAt(lib, raw, fields[i], was[i]))
  }

  /** convertSliceStructSafe over the first n items: what is not a map is dropped. */
  function ElemsFrom(lib: Lib, raw: Tree, fields: seq<Field>, n: nat): seq<seq<GoValue>>
    requires raw.List? && n <= |raw.items|
    decreases raw, 0, n
  {
    if n == 0 then []
    else
      ElemsFrom(lib, raw, fields, n - 1)
      + if raw.items[n - 1].Map? then [StructFrom(lib, raw.items[n - 1], fields, Zeros(fields))] else []
  }

  // The loops.

  method SetField(lib: Lib, raw: Tree, t: Type, was: GoValue) returns (v: GoValue)
    requires ShapeOf(t, was)
    ensures v == FieldFrom(lib, raw, t, was)
    decreases raw, 1
  {
    v := was;
    match t {
      case TString => if raw.Text? { v := VString(raw.chars); }
      case TBool => if raw.Bool? { v := VBool(raw.b); }
      case TInt(kind) => v := VInt(ConvertInt(lib, kind, raw, was.n));
      case TNumber =>
        var n := ParseNumber(lib, raw);
        if n.Some? { v := VNumber(n); }
      case TBytes => v := VBytes(ConvertBytes(lib, raw, was.bytes));
      case TStruct(fields) =>
        if raw.Map? {
          var vals := MapToStruct(lib, raw, fields, was.vals);
          v := VStruct(vals);
        }
      case TPointer(fields) =>
        if raw.Map? {
          var vals := MapToStruct(lib, raw, fields, Zeros(fields));
          v := VPointer(Some(vals));
        }
      case TSlice(fields) =>
        if raw.List? {
          var elems := ConvertSlice(lib, raw, fields);
          v := VSlice(Some(elems));
        }
      case TSliceOfPointers(fields) =>
        if raw.List? {
          var elems := ConvertSlice(lib, raw, fields);
          v := VSliceOfPointers(Some(Pointers(elems)));
        }
    }
  }

  /** MapToStruct. */
  method MapToStruct(lib: Lib, raw: Tree, fields: seq<Field>, was: seq<GoValue>) returns (vals: seq<GoValue>)
    requires raw.Map? && Shapes(fields, was)
    ensures vals == StructFrom(lib, raw, fields, was)
    decreases raw, 0, 1
  {
    vals := was;
    var i := 0;
    while i < |fields|
      invariant 0 <= i <= |fields| && |vals| == |fields|
      invariant forall j :: i <= j < |fields| ==> vals[j] == was[j]
      invariant forall j :: 0 <= j < i ==> vals[j] == FieldAt(lib, raw, fields[j], was[j])
    {
      var f := fields[i];
      if KeyOf(f) in raw.fields && !raw.fields[KeyOf(f)].Nil? {
        var v := SetField(lib, raw.fields[KeyOf(f)], f.typ, vals[i]);
        vals := vals[i := v];
      }
      i := i + 1;
    }
  }

  /** convertSliceStructSafe. */
  method ConvertSlice(lib: Lib, raw: Tree, fields: seq<Field>) returns (elems: seq<seq<GoValue>>)
    requires raw.List?
    ensures elems == ElemsFrom(lib, raw, fields, |raw.items|)
    decreases raw, 0, 1
  {
    elems := [];
    var i := 0;
    while i < |raw.items|
      invariant 0 <= i <= |raw.items|
      invariant elems == ElemsFrom(lib, raw, fields, i)
    {
      if raw.items[i].Map? {
        var elem := MapToStruct(lib, raw.items[i], fields, Zeros(fields));
        elems := elems + [elem];
      }
      i := i + 1;
    }
  }

  // What the conversions mean.

  /** A tag is cut at its first comma. */
  lemma {:induction false} BeforeCommaIs(name: string, rest: string)
    requires ',' !in name
    ensures BeforeComma(name) == name && BeforeComma(name + "," + rest) == name
  {
    if |name| > 0 {
      BeforeCommaIs(name[1..], rest);
      assert (name + "," + rest)[1..] == name[1..] + "," + rest;
    } else {
      assert name + "," + rest == "," + rest;
    }
  }

  /** A field is looked up under the name its tag gives before the first comma, and without a
      tag, or with the tag "-", under its Go name. */
  lemma KeyIs(f: Field, name: string, rest: string)
    requires ',' !in name
    ensures f.tag == "" || f.tag == "-" ==> KeyOf(f) == f.name
    ensures f.tag == name + "," + rest ==> KeyOf(f) == name
    ensures f.tag == name && name != "" && name != "-" ==> KeyOf(f) == name
  {
    BeforeCommaIs(name, rest);
    assert (name + "," + rest)[|name|] == ',';
  }

  predicate InRange(kind: IntKind, x: int) {
    MinOf(kind) <= x <= MaxOf(kind)
  }

  lemma MultipleLeavesNothing(q: int, size: int)
    requires size > 0
    ensures size * q % size == 0
  {
    var rest := q - size * q / size;
    assert rest * size == size * q % size;
    assert rest >= 1 ==> rest * size >= size;
    assert rest <= -1 ==> rest * size < 0;
  }

  lemma SizeDividesWide(kind: IntKind) returns (c: int)
    ensures Size(kind) > 0 && Size(Wide(kind)) == Size(kind) * c
  {
    c := Size(Wide(kind)) / Size(kind);
  }

  lemma WrapTakesOff(kind: IntKind, n: int) returns (q: int)
    ensures Wrap(kind, n) == n - Size(kind) * q && InRange(kind, Wrap(kind, n))
  {
    q := (n - MinOf(kind)) / Size(kind);
  }

  /** The two conversions take off multiples of the 64-bit size and of the size itself. */
  lemma WrapsTo(kind: IntKind, n: int)
    ensures var m := Wrap(kind, Wrap(Wide(kind), n));
            InRange(kind, m) && (m - n) % Size(kind) == 0
  {
    hide *;
    var c := SizeDividesWide(kind);
    var q := WrapTakesOff(Wide(kind), n);
    var p := WrapTakesOff(kind, Wrap(Wide(kind), n));
    var size := Size(kind);
    var m := Wrap(kind, Wrap(Wide(kind), n));
    assert size * c * q == size * (c * q);
    assert m - n == size * (-p - c * q);
    MultipleLeavesNothing(-p - c * q, size);
  }

  /** A Go integer read into a field of another integer type: of the numbers that the type
      has, the one that differs from the source by a multiple of the type's size. */
  lemma IntsConvert(lib: Lib, kind: IntKind, from: IntKind, n: int, was: int)
    ensures var m := ConvertInt(lib, kind, Int(from, n), was);
            && InRange(kind, m) && (m - n) % Size(kind) == 0
            && (m == n <==> InRange(kind, n))
  {
    WrapsTo(kind, n);
    if InRange(kind, n) {
      Unwrapped(kind, n);
      Unwrapped(Wide(kind), n);
    }
    hide Wrap;
  }

  /** A float whose whole part the type has is cut towards zero, whatever its sign. */
  lemma FloatsConvert(lib: Lib, kind: IntKind, width: nat, r: real, was: int)
    requires MinOf(kind) as real - 1.0 < r < MaxOf(kind) as real + 1.0
    ensures var m := ConvertInt(lib, kind, Float(width, r), was);
            && InRange(kind, m)
            && (r >= 0.0 ==> 0.0 <= m as real <= r < m as real + 1.0)
            && (r <= 0.0 ==> m as real - 1.0 < r <= m as real <= 0.0)
  {
    var whole := Truncate(r);
    assert InRange(kind, whole);
    Unwrapped(kind, whole);
    hide Wrap;
  }

  /** One whose whole part only the 64-bit type has is cut like an integer after that. */
  lemma WideFloatsConvert(lib: Lib, kind: IntKind, width: nat, r: real, was: int)
    requires InRange(Wide(kind), Truncate(r))
    ensures var m := ConvertInt(lib, kind, Float(width, r), was);
            InRange(kind, m) && (m - Truncate(r)) % Size(kind) == 0
  {
    Unwrapped(Wide(kind), Truncate(r));
    WrapsTo(kind, Truncate(r));
    hide Wrap;
  }

  /** The shapes that a field of each type can take something from. */
  predicate Takes(t: Type, raw: Tree) {
    match t
    case TString => raw.Text?
    case TBool => raw.Bool?
    case TInt(_) => raw.Int? || raw.Float?
    case TNumber => raw.Text? || raw.Float? || raw.Int? || raw.Map?
    case TBytes => raw.Blob? || raw.Text? || raw.List?
    case TStruct(_) => raw.Map?
    case TPointer(_) => raw.Map?
    case TSlice(_) => raw.List?
    case TSliceOfPointers(_) => raw.List?
  }

  lemma OtherShapesKeep(lib: Lib, raw: Tree, t: Type, was: GoValue)
    requires ShapeOf(t, was) && !Takes(t, raw)
    ensures FieldFrom(lib, raw, t, was) == was
  {
  }

  /** All the shapes in which the mapper takes a number x: its text, a map with its text under
      "value", a float or one of three kinds of integer that gonum makes x of. */
  predicate ShapeOfNumber(lib: Lib, x: Number, raw: Tree) {
    || raw == Text(lib.numberText(x))
    || (raw.Map? && "value" in raw.fields && raw.fields["value"] == Text(lib.numberText(x)))
    || (raw.Float? && lib.fromFloat(raw.r) == x)
    || (raw.Int? && lib.fromInt(raw.n) == x && raw.kind in {KInt, KInt64, KUint64})
  }

  /** Each of these shapes reads as x, whatever the field held; and a field that takes a new
      number took it from a float, an integer or what gonum.New makes of a text. */
  lemma NumbersRead(lib: Lib, x: Number, raw: Tree, was: Option<Number>)
    requires lib.TextInverts()
    ensures ShapeOfNumber(lib, x, raw) ==> FieldFrom(lib, raw, TNumber, VNumber(was)) == VNumber(Some(x))
    ensures FieldFrom(lib, raw, TNumber, VNumber(was)) == VNumber(Some(x)) ==>
            || was == Some(x) || ShapeOfNumber(lib, x, raw)
            || (exists s :: lib.newNumber(s) == Some(x) && (raw
                    == Text(s) || (raw.Map? && "value" in raw.fields && raw.fields["value"] == Text(s))))
  {
  }

  /** What a list may hold to be taken for bytes. */
  predicate TakenForByte(item: Tree) {
    (item.Int? && item.kind in {KUint8, KInt}) || (item.Float? && item.width == 64)
  }

  /** A list is taken for a byte slice if and only if each of its items is one of these; then
      it has one byte for each item, the item itself wherever that is a byte, and the last
      eight bits of an integer that is not. */
  lemma {:induction false} BytesFromList(lib: Lib, items: seq<Tree>)
    ensures BytesOf(lib, items).Some? <==> forall i :: 0 <= i < |items| ==> TakenForByte(items[i])
    ensures BytesOf(lib, items).Some? ==>
            var bytes := BytesOf(lib, items).value;
            && |bytes| == |items|
            && (forall i :: 0 <= i < |items| && items[i].Int? ==> (items[i].n - bytes[i]) % 256 == 0)
            && (forall i :: 0 <= i < |items| && items[i].Float? && 0.0 <= items[i].r < 256.0 ==>
                  bytes[i] as real <= items[i].r < bytes[i] as real + 1.0)
  {
    if |items| > 0 {
      var last := |items| - 1;
      BytesFromList(lib, items[..last]);
      assert items[..last] + [items[last]] == items;
    }
  }

  /** A []byte field takes a byte slice and the bytes of a string as they are and a list as
      above, and is left as it was by a list with anything else in it. */
  lemma BytesRead(lib: Lib, raw: Tree, was: Option<Bytes>)
    ensures var v := FieldFrom(lib, raw, TBytes, VBytes(was));
            && (raw.Blob? ==> v == VBytes(Some(raw.bytes)))
            && (raw.Text? ==> v == VBytes(Some(raw.chars)))
            && (raw.List? ==> v == VBytes(if BytesOf(lib, raw.items).Some? then BytesOf(lib, raw.items) else was))
  {
  }

  /** A field depends on what is under its own key alone, and keeps what it holds, whatever
      that is, when its key is missing or holds nil. */
  lemma OwnKeyOnly(lib: Lib, a: Tree, b: Tree, fields: seq<Field>, was: seq<GoValue>, i: nat)
    requires a.Map? && b.Map? && Shapes(fields, was) && i < |fields|
    ensures KeyOf(fields[i]) !in a.fields || a.fields[KeyOf(fields[i])] == Nil ==>
            StructFrom(lib, a, fields, was)[i] == was[i]
    ensures KeyOf(fields[i]) in a.fields && KeyOf(fields[i]) in b.fields
            && a.fields[KeyOf(fields[i])] == b.fields[KeyOf(fields[i])] ==>
            StructFrom(lib, a, fields, was)[i] == StructFrom(lib, b, fields, was)[i]
  {
  }

  // What JSON makes of a struct.

  function ToJson(lib: Lib, t: Type, v: GoValue): Tree
    requires ShapeOf(t, v)
    decreases t, 1
  {
    match t
    case TString => Text(v.chars)
    case TBool => Bool(v.b)
    case TInt(_) => Float(64, v.n as real)
    case TNumber => if v.num.None? then Nil else Text(lib.numberText(v.num.value))
    case TBytes => if v.bytes.None? then Nil else Text(lib.base64(v.bytes.value))
    case TStruct(fields) => Map(StructJson(lib, fields, v.vals))
    case TPointer(fields) => PointerJson(lib, fields, v.target)
    case TSlice(fields) =>
      if v.elems.None? then Nil
      else List(seq(|v.elems.value|, i requires 0 <= i < |v.elems.value| => ElemJson(lib, fields, v.elems.value[i])))
    case TSliceOfPointers(fields) =>
      if v.targets.None? then Nil
      else
        List(seq(|v.targets.value|, i requires 0 <= i < |v.targets.value| =>
          PointerJson(lib, fields, v.targets.value[i])))
  }

  function PointerJson(lib: Lib, fields: seq<Field>, target: Option<seq<GoValue>>): Tree
    decreases fields, 2
  {
    if target.None? then Nil else ElemJson(lib, fields, target.value)
  }

  function ElemJson(lib: Lib, fields: seq<Field>, vals: seq<GoValue>): Tree
    decreases fields, 1
  {
    if Shapes(fields, vals) then Map(StructJson(lib, fields, vals)) else Nil
  }

  function StructJson(lib: Lib, fields: seq<Field>, vals: seq<GoValue>): map<string, Tree>
    requires Shapes(fields, vals)
    decreases fields, 0
  {
    if |fields| == 0 then map[]
    else
      var last := |fields| - 1;
      var front := StructJson(lib, fields[..last], vals[..last]);
      match JsonKey(fields[last])
      case None => front
      case Some(key) => front[key := ToJson(lib, fields[last].typ, vals[last])]
  }

  // Reading back.

  const EXACT := 0x20_0000_0000_0000

  /** Values that the theorem covers: integers in range of their type that a float64 holds
      exactly, no byte in a byte slice (JSON has base64 there), no nil pointers in slices, and at
      every level distinct keys that JSON and the mapper agree on. */
  ghost predicate Readable(lib: Lib, t: Type, v: GoValue)
    requires ShapeOf(t, v)
    decreases t, 1
  {
    match t
    case TInt(kind) => MinOf(kind) <= v.n <= MaxOf(kind) && -EXACT <= v.n <= EXACT
    case TBytes => v.bytes.Some? ==> v.bytes.value == []
    case TStruct(fields) => ReadableStruct(lib, fields, v.vals)
    case TPointer(fields) => v.target.Some? ==> ReadableStruct(lib, fields, v.target.value)
    case TSlice(fields) =>
      v.elems.Some? ==> forall i :: 0 <= i < |v.elems.value| ==> ReadableStruct(lib, fields, v.elems.value[i])
    case TSliceOfPointers(fields) =>
      v.targets.Some? ==> forall i :: 0 <= i < |v.targets.value| ==>
        v.targets.value[i].Some? && ReadableStruct(lib, fields, v.targets.value[i].value)
    case _ => true
  }

  ghost predicate ReadableStruct(lib: Lib, fields: seq<Field>, vals: seq<GoValue>)
    decreases fields, 0
  {
    && Shapes(fields, vals) && KeysAgree(fields)
    && forall i :: 0 <= i < |fields| ==> Readable(lib, fields[i].typ, vals[i])
  }

  predicate KeysAgree(fields: seq<Field>) {
    && (forall i :: 0 <= i < |fields| ==> JsonKey(fields[i]) == Some(KeyOf(fields[i])))
    && (forall i, j :: 0 <= i < j < |fields| ==> KeyOf(fields[i]) != KeyOf(fields[j]))
  }

  /** With agreed, distinct keys, each field's JSON is found under its own key. */
  lemma {:induction false} JsonOfField(lib: Lib, fields: seq<Field>, vals: seq<GoValue>, i: nat)
    requires Shapes(fields, vals) && KeysAgree(fields) && i < |fields|
    ensures var json := StructJson(lib, fields, vals);
            KeyOf(fields[i]) in json && json[KeyOf(fields[i])] == ToJson(lib, fields[i].typ, vals[i])
  {
    hide ToJson, KeyOf, JsonKey;
    var last := |fields| - 1;
    if i < last {
      JsonOfField(lib, fields[..last], vals[..last], i);
    }
  }

  /** What JSON leaves out as null: reading it keeps what the destination holds. */
  predicate Absent(v: GoValue) {
    match v
    case VNumber(num) => num.None?
    case VBytes(bytes) => bytes.None?
    case VPointer(target) => target.None?
    case VSlice(elems) => elems.None?
    case VSliceOfPointers(targets) => targets.None?
    case _ => false
  }

  /** The value v laid over a destination: only a struct that is a field itself is merged, all
      else replaces what was there unless it is absent. */
  function Over(t: Type, v: GoValue, was: GoValue): GoValue
    requires ShapeOf(t, v) && ShapeOf(t, was)
    decreases t, 1
  {
    match t
    case TStruct(fields) => VStruct(OverAll(fields, v.vals, was.vals))
    case _ => if Absent(v) then was else v
  }

  function OverAll(fields: seq<Field>, vals: seq<GoValue>, was: seq<GoValue>): seq<GoValue>
    requires Shapes(fields, vals) && Shapes(fields, was)
    decreases fields, 0
  {
    seq(|fields|, i requires 0 <= i < |fields| => Over(fields[i].typ, vals[i], was[i]))
  }

  lemma {:induction false} OverZero(t: Type, v: GoValue)
    requires ShapeOf(t, v)
    ensures Over(t, v, Zero(t)) == v
    decreases t
  {
    if t.TStruct? {
      forall i | 0 <= i < |t.fields|
        ensures Over(t.fields[i].typ, v.vals[i], Zero(t.fields[i].typ)) == v.vals[i]
      {
        OverZero(t.fields[i].typ, v.vals[i]);
      }
    }
  }

  /** Typed read-back. Whatever nesting of structs, pointers and slices a readable value has,
      the mapper rebuilds it from its JSON shape, into a zero struct. */
  lemma {:induction false} StructReadsBack(lib: Lib, fields: seq<Field>, vals: seq<GoValue>)
    requires lib.TextInverts() && lib.Base64Lengths() && ReadableStruct(lib, fields, vals)
    ensures StructFrom(lib, Map(StructJson(lib, fields, vals)), fields, Zeros(fields)) == vals
    decreases fields, 1
  {
    StructReadsOver(lib, fields, vals, Zeros(fields));
    forall i | 0 <= i < |fields|
      ensures Over(fields[i].typ, vals[i], Zero(fields[i].typ)) == vals[i]
    {
      OverZero(fields[i].typ, vals[i]);
    }
    assert OverAll(fields, vals, Zeros(fields)) == vals;
  }

  /** Into a struct that already holds something, the mapper lays the value over it. */
  lemma {:induction false} StructReadsOver(lib: Lib, fields: seq<Field>, vals: seq<GoValue>, was: seq<GoValue>)
    requires lib.TextInverts() && lib.Base64Lengths() && ReadableStruct(lib, fields, vals) && Shapes(fields, was)
    ensures StructFrom(lib, Map(StructJson(lib, fields, vals)), fields, was) == OverAll(fields, vals, was)
    decreases fields, 0
  {
    var raw := Map(StructJson(lib, fields, vals));
    forall i | 0 <= i < |fields|
      ensures FieldAt(lib, raw, fields[i], was[i]) == Over(fields[i].typ, vals[i], was[i])
    {
      JsonOfField(lib, fields, vals, i);
      FieldReadsOver(lib, fields[i].typ, vals[i], was[i]);
    }
  }

  /** One field: its JSON is null exactly where the value is absent. */
  lemma {:induction false} FieldReadsOver(lib: Lib, t: Type, v: GoValue, was: GoValue)
    requires lib.TextInverts() && lib.Base64Lengths() && ShapeOf(t, v) && Readable(lib, t, v) && ShapeOf(t, was)
    ensures ToJson(lib, t, v).Nil? ==> Over(t, v, was) == was
    ensures !ToJson(lib, t, v).Nil? ==> FieldFrom(lib, ToJson(lib, t, v), t, was) == Over(t, v, was)
    decreases t, 1
  {
    match t
    case TInt(kind) => IntReadsBack(lib, kind, v.n, was.n);
    case TStruct(fields) => StructReadsOver(lib, fields, v.vals, was.vals);
    case TPointer(fields) =>
      if v.target.Some? {
        PointerJsonIsMap(lib, fields, v.target);
        StructReadsBack(lib, fields, v.target.value);
      }
    case TSlice(fields) =>
      if v.elems.Some? {
        ElemsReadBack(lib, fields, v.elems.value, ToJson(lib, t, v), |v.elems.value|);
        assert v.elems.value[..|v.elems.value|] == v.elems.value;
      }
    case TSliceOfPointers(fields) =>
      if v.targets.Some? {
        var targets := v.targets.value;
        var elems := seq(|targets|, i requires 0 <= i < |targets| => targets[i].value);
        forall i | 0 <= i < |targets|
          ensures PointerJson(lib, fields, targets[i]) == ElemJson(lib, fields, elems[i])
        {
          PointerJsonIsMap(lib, fields, targets[i]);
        }
        ElemsReadBack(lib, fields, elems, ToJson(lib, t, v), |elems|);
        assert elems[..|elems|] == elems;
        assert Pointers(elems) == targets;
      }
    case _ =>
  }

  lemma PointerJsonIsMap(lib: Lib, fields: seq<Field>, target: Option<seq<GoValue>>)
    requires target.Some? && Shapes(fields, target.value)
    ensures PointerJson(lib, fields, target) == Map(StructJson(lib, fields, target.value))
    ensures PointerJson(lib, fields, target) == ElemJson(lib, fields, target.value)
  {
    assert ElemJson(lib, fields, target.value) == Map(StructJson(lib, fields, target.value));
  }

  lemma IntReadsBack(lib: Lib, kind: IntKind, n: int, was: int)
    requires MinOf(kind) <= n <= MaxOf(kind)
    ensures ConvertInt(lib, kind, Float(64, n as real), was) == n
  {
    assert Truncate(n as real) == n;
    Unwrapped(kind, n);
    hide Wrap, Truncate;
  }

  lemma Unwrapped(kind: IntKind, n: int)
    requires MinOf(kind) <= n <= MaxOf(kind)
    ensures Wrap(kind, n) == n && MinOf(Wide(kind)) <= n <= MaxOf(Wide(kind))
  {
    Remainder(n - MinOf(kind), MaxOf(kind) - MinOf(kind) + 1);
  }

  lemma Remainder(a: int, b: int)
    requires 0 <= a < b
    ensures a % b == a
  {
  }

  lemma {:induction false} ElemsReadBack(lib: Lib, fields: seq<Field>, elems: seq<seq<GoValue>>, raw: Tree, n: nat)
    requires lib.TextInverts() && lib.Base64Lengths() && raw.List? && n <= |elems| == |raw.items|
    requires forall i :: 0 <= i < |elems| ==> ReadableStruct(lib, fields, elems[i])
    requires forall i :: 0 <= i < |elems| ==> raw.items[i] == ElemJson(lib, fields, elems[i])
    ensures ElemsFrom(lib, raw, fields, n) == elems[..n]
    decreases fields, 2, n
  {
    if n > 0 {
      ElemsReadBack(lib, fields, elems, raw, n - 1);
      StructReadsBack(lib, fields, elems[n - 1]);
      assert elems[..n] == elems[..n - 1] + [elems[n - 1]];
    }
  }

  // What the theorem leaves out does not read back.

  /** The mapper looks a field up where JSON put it, unless its tag is "-" or names nothing
      before the comma; such a field is written under its Go name and looked up under "". */
  lemma KeysAgreeIff(f: Field)
    requires f.name != ""
    ensures JsonKey(f) == Some(KeyOf(f)) <==> f.tag != "-" && (f.tag == "" || BeforeComma(f.tag) != "")
  {
  }

  /** JSON writes bytes as base64 and the mapper takes the text for the bytes: only a slice
      without a byte in it reads back. */
  lemma BytesReadBackIff(lib: Lib, bytes: Bytes)
    requires lib.Base64Lengths()
    ensures var v := VBytes(Some(bytes));
            FieldFrom(lib, ToJson(lib, TBytes, v), TBytes, Zero(TBytes)) == v <==> bytes == []
  {
    var text := lib.base64(bytes);
    assert |text| == 4 * ((|bytes| + 2) / 3);
    if bytes == [] {
      assert text == bytes;
    } else {
      assert |text| > |bytes|;
    }
  }

  lemma {:induction false} DroppedItems(lib: Lib, raw: Tree, fields: seq<Field>, n: nat)
    requires raw.List? && n <= |raw.items|
    ensures |ElemsFrom(lib, raw, fields, n)| <= n
    ensures (exists i :: 0 <= i < n && !raw.items[i].Map?) ==> |ElemsFrom(lib, raw, fields, n)| < n
  {
    if n > 0 {
      DroppedItems(lib, raw, fields, n - 1);
    }
  }

  /** A nil pointer in a slice of pointers is dropped, and everything after it moves up. */
  lemma NilElementsReadBackIff(lib: Lib, fields: seq<Field>, targets: seq<Option<seq<GoValue>>>)
    requires lib.TextInverts() && lib.Base64Lengths()
    requires forall i :: 0 <= i < |targets| && targets[i].Some? ==> ReadableStruct(lib, fields, targets[i].value)
    ensures var t, v := TSliceOfPointers(fields), VSliceOfPointers(Some(targets));
            FieldFrom(lib, ToJson(lib, t, v), t, Zero(t)) == v <==> forall i :: 0 <= i < |targets| ==> targets[i].Some?
  {
    var t, v := TSliceOfPointers(fields), VSliceOfPointers(Some(targets));
    var raw := ToJson(lib, t, v);
    if i :| 0 <= i < |targets| && targets[i].None? {
      assert raw.items[i] == PointerJson(lib, fields, targets[i]) == Nil;
      DroppedItems(lib, raw, fields, |targets|);
    } else {
      FieldReadsOver(lib, t, v, Zero(t));
    }
  }
}
