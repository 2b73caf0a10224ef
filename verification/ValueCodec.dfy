/** The tagged value encoding used inside log records (modules/encoding/serialize.go). */
module ValueCodec {
  import opened Values

  const TAG_NIL: byte := 0
  const TAG_BYTES: byte := 1
  const TAG_STRING: byte := 2
  const TAG_INT: byte := 3
  const TAG_UINT: byte := 4
  const TAG_FLOAT: byte := 5
  const TAG_BOOL: byte := 6
  const TAG_JSON: byte := 7

  const MINUS: byte := 45
  const PLUS: byte := 43
  const ZERO: byte := 48

  /** The library calls: float text and JSON text. */
  datatype TextLib = TextLib(
    formatFloat: (real, nat) -> Bytes,
    parseFloat: Bytes -> Option<real>,
    marshal: Value -> Option<Bytes>,
    unmarshal: Bytes -> Option<Value>)
  {
    /** The libraries read back what they wrote, though not always as the same value. */
    ghost predicate Rereads() {
      && (forall r, w :: parseFloat(formatFloat(r, w)).Some?)
      && (forall v :: marshal(v).Some? ==> unmarshal(marshal(v).value).Some?)
    }
  }

  // Decimal text, as strconv writes and reads it.

  function Digits(n: nat): Bytes {
    if n < 10 then [ZERO + n] else Digits(n / 10) + [ZERO + n % 10]
  }

  function AppendInt(n: int): Bytes {
    if n < 0 then [MINUS] + Digits(-n) else Digits(n)
  }

  function ParseDigits(s: Bytes): Option<nat> {
    if |s| == 0 then None
    else
      var d := s[|s| - 1];
      if !(ZERO <= d < ZERO + 10) then None
      else if |s| == 1 then Some(d - ZERO)
      else
        match ParseDigits(s[..|s| - 1])
        case None => None
        case Some(high) => Some(high * 10 + (d - ZERO))
  }

  function ParseUint(s: Bytes): Option<nat> {
    match ParseDigits(s)
    case None => None
    case Some(n) => if n < TWO_64 then Some(n) else None
  }

  function ParseInt(s: Bytes): Option<int> {
    if |s| == 0 then None
    else
      var neg := s[0] == MINUS;
      match ParseUint(if s[0] == PLUS || neg then s[1..] else s)
      case None => None
      case Some(n) =>
        if !neg && n >= TWO_63 then None
        else if neg && n > TWO_63 then None
        else
          var magnitude: int := n;
          Some(if neg then -magnitude else magnitude)
  }

  function SerializeValue(lib: TextLib, v: Value): Option<Bytes> {
    match v
    case Nil => Some([TAG_NIL])
    case Blob(bs) => Some([TAG_BYTES] + bs)
    case Text(s) => Some([TAG_STRING] + s)
    case Int(kind, n) =>
      if Signed(kind) then Some([TAG_INT] + AppendInt(n)) else Some([TAG_UINT] + AppendInt(n))
    case Float(w, r) => Some([TAG_FLOAT] + lib.formatFloat(r, w))
    case Bool(b) => Some([TAG_BOOL, if b then 1 else 0])
    case _ =>
      match lib.marshal(v)
      case None => None
      case Some(text) => Some([TAG_JSON] + text)
  }

  function DeserializeValue(lib: TextLib, data: Bytes): Option<Value> {
    if |data| == 0 then Some(Nil)
    else
      var tag, payload := data[0], data[1..];
      if tag == TAG_NIL then Some(Nil)
      else if tag == TAG_BYTES then Some(Blob(payload))
      else if tag == TAG_STRING then Some(Text(payload))
      else if tag == TAG_INT then
        match ParseInt(payload)
        case None => None
        case Some(n) => Some(Int(KInt64, n))
      else if tag == TAG_UINT then
        match ParseUint(payload)
        case None => None
        case Some(n) => Some(Int(KUint64, n))
      else if tag == TAG_FLOAT then
        match lib.parseFloat(payload)
        case None => None
        case Some(r) => Some(Float(64, r))
      else if tag == TAG_BOOL then
        if |payload| == 0 then None else Some(Bool(payload[0] == 1))
      else if tag == TAG_JSON then lib.unmarshal(payload)
      else None
  }

  /** The room the encoder sets aside for an integer: one tag byte and the longest text. */
  function Capacity(kind: IntKind): nat {
    match kind
    case KInt8 => 5
    case KInt16 => 7
    case KInt32 => 12
    case KUint8 => 4
    case KUint16 => 6
    case KUint32 => 11
    case _ => 21
  }

  /** What a value becomes after one trip through the log: integers lose their
      width, floats become float64, and lists and maps become what JSON makes of them. */
  function Widen(lib: TextLib, v: Value): Option<Value> {
    match v
    case Int(kind, n) => Some(Int(if Signed(kind) then KInt64 else KUint64, n))
    case Float(w, r) =>
      (match lib.parseFloat(lib.formatFloat(r, w))
       case None => None
       case Some(q) => Some(Float(64, q)))
    case List(_) => Reread(lib, v)
    case Map(_) => Reread(lib, v)
    case _ => Some(v)
  }

  function Reread(lib: TextLib, v: Value): Option<Value> {
    match lib.marshal(v)
    case None => None
    case Some(text) => lib.unmarshal(text)
  }

  lemma {:induction false} DigitsRoundTrip(n: nat)
    ensures ParseDigits(Digits(n)) == Some(n)
    ensures forall i :: 0 <= i < |Digits(n)| ==> 48 <= Digits(n)[i] < 58
    decreases n
  {
    if n >= 10 {
      DigitsRoundTrip(n / 10);
      assert Digits(n)[..|Digits(n)| - 1] == Digits(n / 10);
    }
  }

  lemma IntRoundTrip(n: int)
    ensures -TWO_63 <= n < TWO_63 ==> ParseInt(AppendInt(n)) == Some(n)
    ensures 0 <= n < TWO_64 ==> ParseUint(AppendInt(n)) == Some(n)
    ensures AppendInt(n)[0] == 45 <==> n < 0
  {
    var digits := Digits(if n < 0 then -n else n);
    DigitsRoundTrip(if n < 0 then -n else n);
    assert digits != [] && ZERO <= digits[0] < ZERO + 10;
    hide Digits, ParseDigits;
    if n < 0 {
      assert ([MINUS] + digits)[0] == MINUS && ([MINUS] + digits)[1..] == digits;
    }
  }

  /** Only text that says an integer in range of the wire type is read as one: the text of any
      other is refused, and so is whatever is not decimal digits behind at most one sign. */
  lemma IntTextIff(n: int)
    ensures ParseInt(AppendInt(n)).Some? <==> -TWO_63 <= n < TWO_63
    ensures ParseUint(AppendInt(n)).Some? <==> 0 <= n < TWO_64
  {
    IntRoundTrip(n);
    var digits := Digits(if n < 0 then -n else n);
    DigitsRoundTrip(if n < 0 then -n else n);
    assert digits != [] && ZERO <= digits[0] < ZERO + 10;
    if n < 0 {
      assert ([MINUS] + digits)[0] == MINUS && ([MINUS] + digits)[1..] == digits;
      SignIsNoDigit(digits);
    }
    hide Digits, ParseDigits;
  }

  /** The text is decimal with the most significant digit first. */
  lemma {:induction false} DecimalPlaces(s: Bytes)
    requires |s| > 1 && ParseDigits(s[1..]).Some?
    ensures ParseDigits(s) ==
            if ZERO <= s[0] < ZERO + 10
            then Some((s[0] - ZERO) * Power10(|s| - 1) + ParseDigits(s[1..]).value) else None
  {
    var front, last := s[..|s| - 1], s[|s| - 1];
    assert s[1..][..|s| - 2] == front[1..];
    if |s| > 2 {
      DecimalPlaces(front);
      var d: int := s[0];
      assert (d - ZERO) * Power10(|s| - 2) * 10 == (d - ZERO) * Power10(|s| - 1);
    }
  }

  /** A signed integer is digits behind at most one sign, of either kind, within int64. */
  lemma ParseIntIff(digits: Bytes, n: int)
    requires ParseDigits(digits) == Some(n)
    ensures ParseInt(digits) == ParseInt([43] + digits) == if n < TWO_63 then Some(n) else None
    ensures ParseInt([45] + digits) == if n <= TWO_63 then Some(-n) else None
  {
    ParsedDigits(digits);
    Untag(PLUS, digits);
    Untag(MINUS, digits);
    hide ParseDigits;
  }

  /** Only JSON can refuse a value. */
  lemma SerializesIff(lib: TextLib, v: Value)
    ensures SerializeValue(lib, v).None? <==> (v.List? || v.Map?) && lib.marshal(v).None?
  {
  }

  lemma {:induction false} SignIsNoDigit(digits: Bytes)
    ensures ParseDigits([MINUS] + digits) == None
  {
    var s := [MINUS] + digits;
    if |digits| > 0 {
      assert s[..|s| - 1] == [MINUS] + digits[..|digits| - 1];
      SignIsNoDigit(digits[..|digits| - 1]);
    }
  }

  lemma {:induction false} ParsedDigits(s: Bytes)
    ensures ParseDigits(s).Some? <==> |s| > 0 && forall i :: 0 <= i < |s| ==> ZERO <= s[i] < ZERO + 10
  {
    if |s| > 1 {
      ParsedDigits(s[..|s| - 1]);
      assert forall i :: 0 <= i < |s| - 1 ==> s[..|s| - 1][i] == s[i];
    }
  }

  /** What is read: nothing as nil, a known tag as a value of its kind, and an unknown tag, a
      boolean without its byte and an integer out of range not at all. */
  lemma TagDecides(lib: TextLib, data: Bytes)
    ensures var v := DeserializeValue(lib, data);
            && (|data| == 0 ==> v == Some(Nil))
            && (|data| > 0 && data[0] > 7 ==> v.None?)
            && (|data| > 0 && data[0] == 0 ==> v == Some(Nil))
            && (|data| > 0 && data[0] == 1 ==> v == Some(Blob(data[1..])))
            && (|data| > 0 && data[0] == 2 ==> v == Some(Text(data[1..])))
            && (|data| > 0 && data[0] == 6 ==>
                  v == if |data| == 1 then None else Some(Bool(data[1] == 1)))
            && (|data| > 0 && data[0] in {3, 4} && v.Some? ==>
                  v.value.Int? && v.value.kind == if data[0] == 3 then KInt64 else KUint64)
            && (|data| > 0 && data[0] == 5 ==>
                  match lib.parseFloat(data[1..]) case None => v.None? case Some(r) => v == Some(Float(64, r)))
            && (|data| > 0 && data[0] == 7 ==> v == lib.unmarshal(data[1..]))
  {
  }

  /** Reading a tagged text depends only on the tag and the text after it. */
  lemma Untag(tag: byte, payload: Bytes)
    ensures ([tag] + payload)[0] == tag && ([tag] + payload)[1..] == payload
  {
  }

  /** Every value in range of its Go type reads back as its widened self. */
  lemma SerializeRoundTrip(lib: TextLib, v: Value)
    requires SerializeValue(lib, v).Some?
    ensures DeserializeValue(lib, SerializeValue(lib, v).value) == Widen(lib, v)
  {
    match v
    case Nil =>
    case Bool(_) =>
    case Int(kind, n) =>
      Untag(if Signed(kind) then TAG_INT else TAG_UINT, AppendInt(n));
      IntRoundTrip(n);
    case Float(w, r) => Untag(TAG_FLOAT, lib.formatFloat(r, w));
    case Text(s) => Untag(TAG_STRING, s);
    case Blob(bs) => Untag(TAG_BYTES, bs);
    case List(_) => Untag(TAG_JSON, lib.marshal(v).value);
    case Map(_) => Untag(TAG_JSON, lib.marshal(v).value);
  }

  /** Integers, strings, byte slices, booleans and nil come back with nothing lost but the width. */
  lemma ScalarsSurvive(lib: TextLib, v: Value)
    requires v.Nil? || v.Bool? || v.Int? || v.Text? || v.Blob?
    ensures SerializeValue(lib, v).Some?
    ensures var back := DeserializeValue(lib, SerializeValue(lib, v).value);
            && back.Some?
            && (v.Int? ==> back.value.Int? && back.value.n == v.n
                           && back.value.kind == if Signed(v.kind) then KInt64 else KUint64)
            && (!v.Int? ==> back.value == v)
  {
    SerializeRoundTrip(lib, v);
  }

  lemma {:induction false} DigitsLength(n: nat, places: nat)
    requires places > 0
    ensures |Digits(n)| <= places <==> n < Power10(places)
    decreases places
  {
    if n < 10 {
      Power10Grows(places);
    } else if places == 1 {
      assert |Digits(n / 10)| >= 1;
    } else {
      DigitsLength(n / 10, places - 1);
      assert n / 10 < Power10(places - 1) <==> n < 10 * Power10(places - 1);
    }
  }

  /** The value of a kind with the longest text. */
  function Extreme(kind: IntKind): int {
    if Signed(kind) then MinOf(kind) else MaxOf(kind)
  }

  /** No integer outgrows the buffer set aside for it, and at the extremes
      nothing of that buffer is left over. */
  lemma BufferNeverOutgrown(lib: TextLib, kind: IntKind, n: int)
    requires Fits(Int(kind, n))
    ensures |SerializeValue(lib, Int(kind, n)).value| <= Capacity(kind)
    ensures n == Extreme(kind) ==> |SerializeValue(lib, Int(kind, n)).value| == Capacity(kind)
  {
    var m := if n < 0 then -n else n;
    var room := Capacity(kind) - if Signed(kind) then 2 else 1;
    Powers();
    DigitsLength(m, room);
    if m >= Power10(room - 1) {
      DigitsLength(m, room - 1);
    }
  }

  lemma Powers()
    ensures Power10(2) == 100 && Power10(3) == 1000 && Power10(4) == 10000 && Power10(5) == 100000
    ensures Power10(9) == 1_000_000_000 && Power10(10) == 10_000_000_000
    ensures Power10(18) == 1_000_000_000_000_000_000
    ensures Power10(19) == 10_000_000_000_000_000_000
    ensures Power10(20) == 100_000_000_000_000_000_000
  {
    assert Power10(6) == 1_000_000;
    assert Power10(12) == 1_000_000_000_000;
    assert Power10(15) == 1_000_000_000_000_000;
  }

  function Power10(e: nat): nat {
    if e == 0 then 1 else 10 * Power10(e - 1)
  }

  lemma Power10Grows(e: nat)
    requires e > 0
    ensures Power10(e) >= 10
  {
    if e > 1 { Power10Grows(e - 1); }
  }
}
