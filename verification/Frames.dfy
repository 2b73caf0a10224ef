/** Log frames and the scanner that reads them back (modules/wal/wal.go, writeEntry, readEntry, ReadAll). */
module Frames {
  import opened Values
  import opened Replay
  import opened ValueCodec

  const MAX_ENTRY_SIZE := 10 * 1024 * 1024
  const HEADER_SIZE := 8
  const TWO_32 := 0x1_0000_0000

  type uint32 = x: int | 0 <= x < TWO_32

  /** The protobuf message inside a frame. */
  datatype Record = Record(opType: uint32, table: string, key: string, value: Bytes)

  /** The library calls: value text, protobuf together with encryption, and the checksum. */
  datatype LogCodec = LogCodec(
    text: TextLib,
    seal: Record -> Option<Bytes>,
    unseal: Bytes -> Option<Record>,
    checksum: Bytes -> uint32)
  {
    ghost predicate Lawful() {
      && text.Rereads()
      && forall r :: seal(r).Some? ==> unseal(seal(r).value) == Some(r)
    }
  }

  // Little-endian words.

  function PutUint32(n: uint32): Bytes {
    [n % 256, n / 256 % 256, n / 65536 % 256, n / 16777216 % 256]
  }

  function Uint32(b: Bytes): uint32
    requires |b| == 4
  {
    var (b0: int, b1: int, b2: int, b3: int) := (b[0], b[1], b[2], b[3]);
    b0 + 256 * b1 + 65536 * b2 + 16777216 * b3
  }

  lemma Uint32RoundTrip(n: uint32)
    ensures Uint32(PutUint32(n)) == n
  {
    var a, b, c := n / 256, n / 65536, n / 16777216;
    assert b == a / 256 && c == b / 256;
    assert n == 256 * a + n % 256 && a == 256 * b + a % 256 && b == 256 * c + b % 256 && c < 256;
  }

  lemma LowByte(n: int, high: int, low: byte)
    requires n == 256 * high + low
    ensures n / 256 == high && n % 256 == low
  {
  }

  /** The four bytes of a number, and no others, have it as their sum with these weights. */
  lemma LittleEndian(n: uint32, b: Bytes)
    requires |b| == 4
    ensures PutUint32(n) == b <==>
            n == b[0] as int + 0x100 * b[1] as int + 0x1_0000 * b[2] as int + 0x100_0000 * b[3] as int
  {
    Uint32RoundTrip(n);
    var (b0: int, b1: int, b2: int, b3: int) := (b[0], b[1], b[2], b[3]);
    if n == b0 + 0x100 * b1 + 0x1_0000 * b2 + 0x100_0000 * b3 {
      var (n1, n2) := (b1 + 256 * b2 + 65536 * b3, b2 + 256 * b3);
      LowByte(n, n1, b[0]);
      LowByte(n1, n2, b[1]);
      LowByte(n2, b3, b[2]);
    }
  }

  // Writing.

  /** The sealed bytes of an entry; None where writeEntry returns an error. */
  function Payload(c: LogCodec, e: Entry): Option<Bytes> {
    match (if e.value.Nil? then Some([]) else SerializeValue(c.text, e.value))
    case None => None
    case Some(valueBytes) =>
      match c.seal(Record(e.opType, e.table, e.key, valueBytes))
      case None => None
      case Some(data) => if |data| > MAX_ENTRY_SIZE then None else Some(data)
  }

  predicate Frameable(c: LogCodec, e: Entry) {
    Payload(c, e).Some?
  }

  /** An entry can be written if and only if JSON takes its value, sealing takes its record,
      and the sealed bytes, which are the payload then, are no more than ten megabytes. */
  lemma FrameableIff(c: LogCodec, e: Entry, data: Bytes)
    ensures Payload(c, e) == Some(data) <==>
            && |data| <= 10 * 1024 * 1024
            && exists text :: c.seal(Record(e.opType, e.table, e.key, text)) == Some(data)
                 && (if e.value.Nil? then text == [] else SerializeValue(c.text, e.value) == Some(text))
  {
  }

  predicate AllFrameable(c: LogCodec, es: seq<Entry>) {
    forall i :: 0 <= i < |es| ==> Frameable(c, es[i])
  }

  function FrameOf(c: LogCodec, data: Bytes): Bytes
    requires |data| <= MAX_ENTRY_SIZE
  {
    PutUint32(|data|) + PutUint32(c.checksum(data)) + data
  }

  function Frame(c: LogCodec, e: Entry): Bytes
    requires Frameable(c, e)
  {
    FrameOf(c, Payload(c, e).value)
  }

  function FrameAll(c: LogCodec, es: seq<Entry>): Bytes
    requires AllFrameable(c, es)
  {
    if |es| == 0 then [] else FrameAll(c, es[..|es| - 1]) + Frame(c, es[|es| - 1])
  }

  // Reading.

  function DecodeRecord(c: LogCodec, data: Bytes): Option<Entry> {
    match c.unseal(data)
    case None => None
    case Some(r) =>
      if |r.value| == 0 then Some(Entry(r.opType % 256, r.table, r.key, Nil))
      else
        match DeserializeValue(c.text, r.value)
        case None => None
        case Some(v) => Some(Entry(r.opType % 256, r.table, r.key, v))
  }

  /** Sealed bytes are read as an entry if and only if they unseal and, unless the record's
      value is empty, that value can be read. */
  lemma DecodesIff(c: LogCodec, data: Bytes, e: Entry)
    ensures DecodeRecord(c, data) == Some(e) <==>
            exists op: uint32, value :: c.unseal(data) == Some(Record(op, e.table, e.key, value))
              && e.opType == op % 256
              && (if value == [] then e.value == Nil else DeserializeValue(c.text, value) == Some(e.value))
  {
    if c.unseal(data).Some? {
      var r := c.unseal(data).value;
      assert Record(r.opType, r.table, r.key, r.value) == r;
    }
  }

  /** One turn of the scanner: the end, an error that consumed some bytes, or an entry. */
  datatype Read = Eof | Skip(consumed: nat) | Good(consumed: nat, entry: Entry)

  function ReadEntry(c: LogCodec, f: Bytes): (r: Read)
    ensures !r.Eof? ==> 0 < r.consumed <= |f|
  {
    if |f| == 0 then Eof
    else if |f| < HEADER_SIZE then Skip(|f|)
    else
      var length, sum := Uint32(f[0..4]), Uint32(f[4..8]);
      if length > MAX_ENTRY_SIZE then Skip(HEADER_SIZE)
      else if length > 0 && |f| == HEADER_SIZE then Eof
      else if |f| < HEADER_SIZE + length then Skip(|f|)
      else
        var data := f[HEADER_SIZE..HEADER_SIZE + length];
        if c.checksum(data) != sum then Skip(HEADER_SIZE + length)
        else
          match DecodeRecord(c, data)
          case None => Skip(HEADER_SIZE + length)
          case Some(e) => Good(HEADER_SIZE + length, e)
  }

  function Scan(c: LogCodec, f: Bytes): seq<Entry>
    decreases |f|
  {
    match ReadEntry(c, f)
    case Eof => []
    case Skip(n) => Scan(c, f[n..])
    case Good(n, e) => [e] + Scan(c, f[n..])
  }

  /** How many bytes the frame at the front takes up; None if the bytes end inside it. */
  function Extent(f: Bytes): (n: Option<nat>)
    ensures n.Some? ==> 0 < n.value <= |f|
  {
    if |f| < HEADER_SIZE then None
    else
      var length := Uint32(f[0..4]);
      if length > MAX_ENTRY_SIZE then Some(HEADER_SIZE)
      else if |f| < HEADER_SIZE + length then None
      else Some(HEADER_SIZE + length)
  }

  /** The bytes end where a frame ends. */
  predicate Aligned(f: Bytes)
    decreases |f|
  {
    |f| == 0 || (Extent(f).Some? && Aligned(f[Extent(f).value..]))
  }

  // The scanner, piece by piece.

  lemma ReadIsLocal(c: LogCodec, f: Bytes, g: Bytes)
    requires Extent(f).Some?
    ensures Extent(f + g) == Extent(f)
    ensures ReadEntry(c, f + g) == ReadEntry(c, f)
    ensures !ReadEntry(c, f).Eof? && ReadEntry(c, f).consumed == Extent(f).value
  {
    assert (f + g)[0..4] == f[0..4] && (f + g)[4..8] == f[4..8];
    var length := Uint32(f[0..4]);
    if length <= MAX_ENTRY_SIZE {
      assert (f + g)[HEADER_SIZE..HEADER_SIZE + length] == f[HEADER_SIZE..HEADER_SIZE + length];
    }
  }

  lemma TornReadsNothing(c: LogCodec, f: Bytes)
    requires Extent(f).None?
    ensures Scan(c, f) == []
  {
    if ReadEntry(c, f).Skip? {
      assert f[ReadEntry(c, f).consumed..] == [];
    }
  }

  lemma ScanNothing(c: LogCodec)
    ensures Scan(c, []) == [] && Aligned([])
  {
  }

  /** After an aligned file the scanner starts afresh: whatever follows is read as if it stood alone. */
  lemma {:induction false} ScanConcat(c: LogCodec, f: Bytes, g: Bytes)
    requires Aligned(f)
    ensures Scan(c, f + g) == Scan(c, f) + Scan(c, g)
    ensures Aligned(f + g) <==> Aligned(g)
    decreases |f|
  {
    ScanNothing(c);
    AlignedUnfold(f);
    hide ReadEntry, Extent, Scan, Aligned;
    if |f| == 0 {
      assert f + g == g;
    } else {
      ReadIsLocal(c, f, g);
      var n := Extent(f).value;
      assert (f + g)[n..] == f[n..] + g;
      ScanConcat(c, f[n..], g);
      ScanUnfold(c, f);
      ScanUnfold(c, f + g);
      AlignedUnfold(f + g);
    }
  }

  lemma AlignedUnfold(f: Bytes)
    ensures |f| > 0 ==> (Aligned(f) <==> Extent(f).Some? && Aligned(f[Extent(f).value..]))
  {
  }

  lemma WholeIsAligned(frame: Bytes)
    requires Extent(frame) == Some(|frame|)
    ensures Aligned(frame) && frame[|frame|..] == []
  {
  }

  lemma ScanUnfold(c: LogCodec, f: Bytes)
    requires Extent(f).Some?
    ensures Scan(c, f) ==
            (if ReadEntry(c, f).Good? then [ReadEntry(c, f).entry] else []) + Scan(c, f[Extent(f).value..])
  {
    ReadIsLocal(c, f, []);
  }

  /** Cutting any file short, anywhere, only ever loses a suffix of what was read from it. */
  lemma {:induction false} ScanOfPrefix(c: LogCodec, f: Bytes, k: nat)
    requires k <= |f|
    ensures Scan(c, f[..k]) <= Scan(c, f)
    decreases |f|
  {
    hide ReadEntry, Extent, Scan;
    var p := f[..k];
    assert f == p + f[k..];
    if Extent(p).None? {
      TornReadsNothing(c, p);
    } else {
      ReadIsLocal(c, p, f[k..]);
      var n := Extent(p).value;
      assert p[n..] == f[n..][..k - n];
      ScanOfPrefix(c, f[n..], k - n);
      ScanUnfold(c, p);
      ScanUnfold(c, f);
    }
  }

  // The round trip.

  /** An entry as recovery sees it: the value has been through the value codec. */
  function Survivor(c: LogCodec, e: Entry): Entry {
    match Widen(c.text, e.value)
    case None => e
    case Some(v) => e.(value := v)
  }

  function Survivors(c: LogCodec, es: seq<Entry>): (r: seq<Entry>)
    ensures |r| == |es|
  {
    seq(|es|, i requires 0 <= i < |es| => Survivor(c, es[i]))
  }

  lemma SurvivorsConcat(c: LogCodec, a: seq<Entry>, b: seq<Entry>)
    ensures Survivors(c, a + b) == Survivors(c, a) + Survivors(c, b)
  {
  }

  lemma PayloadDecodes(c: LogCodec, e: Entry)
    requires c.Lawful() && Frameable(c, e)
    ensures DecodeRecord(c, Payload(c, e).value) == Some(Survivor(c, e))
  {
    if !e.value.Nil? {
      SerializeRoundTrip(c.text, e.value);
    }
  }

  /** A frame, with anything after it, is read as the entry that was written. */
  lemma FrameReads(c: LogCodec, data: Bytes, sum: uint32, g: Bytes)
    requires |data| <= MAX_ENTRY_SIZE
    ensures var f := PutUint32(|data|) + PutUint32(sum) + data;
            && Extent(f) == Some(|f|)
            && Aligned(f)
            && ReadEntry(c, f + g) ==
               if c.checksum(data) == sum && DecodeRecord(c, data).Some?
               then Good(|f|, DecodeRecord(c, data).value) else Skip(|f|)
  {
    var f := PutUint32(|data|) + PutUint32(sum) + data;
    Uint32RoundTrip(|data|);
    Uint32RoundTrip(sum);
    assert f[0..4] == PutUint32(|data|) && f[4..8] == PutUint32(sum) && f[8..8 + |data|] == data;
    assert f[|f|..] == [];
    ReadIsLocal(c, f, g);
  }

  lemma FrameScans(c: LogCodec, e: Entry)
    requires c.Lawful() && Frameable(c, e)
    ensures Extent(Frame(c, e)) == Some(|Frame(c, e)|)
    ensures Aligned(Frame(c, e)) && Scan(c, Frame(c, e)) == [Survivor(c, e)]
  {
    var data := Payload(c, e).value;
    FrameReads(c, data, c.checksum(data), []);
    PayloadDecodes(c, e);
    assert Frame(c, e) + [] == Frame(c, e);
    assert Frame(c, e)[|Frame(c, e)|..] == [];
    ScanUnfold(c, Frame(c, e));
  }

  lemma {:induction false} FramesScan(c: LogCodec, es: seq<Entry>)
    requires c.Lawful() && AllFrameable(c, es)
    ensures Aligned(FrameAll(c, es))
    ensures Scan(c, FrameAll(c, es)) == Survivors(c, es)
  {
    hide Scan, Aligned, Frame, LogCodec.Lawful;
    ScanNothing(c);
    if |es| > 0 {
      var init, last := es[..|es| - 1], es[|es| - 1];
      FramesScan(c, init);
      FrameScans(c, last);
      ScanConcat(c, FrameAll(c, init), Frame(c, last));
      assert es == init + [last];
      assert Survivors(c, es) == Survivors(c, init) + [Survivor(c, last)];
    }
  }

  lemma {:induction false} FramesConcat(c: LogCodec, a: seq<Entry>, b: seq<Entry>)
    requires AllFrameable(c, a) && AllFrameable(c, b)
    ensures AllFrameable(c, a + b)
    ensures FrameAll(c, a + b) == FrameAll(c, a) + FrameAll(c, b)
  {
    hide Frame, Payload;
    if |b| == 0 {
      assert a + b == a;
    } else {
      assert (a + b)[..|a + b| - 1] == a + b[..|b| - 1];
      FramesConcat(c, a, b[..|b| - 1]);
    }
  }

  /** How many of the entries have their frames wholly inside the first k bytes. */
  function WholeFrames(c: LogCodec, es: seq<Entry>, k: nat): (m: nat)
    requires AllFrameable(c, es)
    ensures m <= |es|
  {
    if |es| == 0 || |FrameAll(c, es)| <= k then |es| else WholeFrames(c, es[..|es| - 1], k)
  }

  lemma {:induction false} WholeFramesFit(c: LogCodec, es: seq<Entry>, k: nat)
    requires AllFrameable(c, es)
    ensures var m := WholeFrames(c, es, k);
            && |FrameAll(c, es[..m])| <= k
            && (m < |es| ==> k < |FrameAll(c, es[..m + 1])|)
  {
    hide Frame, Frameable;
    assert es[..|es|] == es;
    if |es| > 0 && |FrameAll(c, es)| > k {
      var init := es[..|es| - 1];
      WholeFramesFit(c, init, k);
      var m := WholeFrames(c, init, k);
      assert init[..m] == es[..m];
      if m < |init| { assert init[..m + 1] == es[..m + 1]; }
    }
  }

  lemma {:induction false} WholeFramesGrow(c: LogCodec, es: seq<Entry>, j: nat, k: nat)
    requires AllFrameable(c, es) && j <= k
    ensures WholeFrames(c, es, j) <= WholeFrames(c, es, k)
  {
    hide FrameAll, Frameable;
    if |es| > 0 && |FrameAll(c, es)| > k { WholeFramesGrow(c, es[..|es| - 1], j, k); }
  }

  lemma WholeFramesAll(c: LogCodec, es: seq<Entry>, k: nat)
    requires AllFrameable(c, es) && |FrameAll(c, es)| <= k
    ensures WholeFrames(c, es, k) == |es|
  {
  }

  /** Torn tail. Of any byte prefix of a written log, exactly the entries whose frames
      lie wholly inside it are read, in order. */
  lemma TornTail(c: LogCodec, es: seq<Entry>, k: nat)
    requires c.Lawful() && AllFrameable(c, es) && k <= |FrameAll(c, es)|
    ensures Scan(c, FrameAll(c, es)[..k]) == Survivors(c, es[..WholeFrames(c, es, k)])
  {
    hide Scan, Aligned, Frame, LogCodec.Lawful, Survivor, Survivors, FrameAll, Frameable, WholeFrames;
    var m := WholeFrames(c, es, k);
    WholeFramesFit(c, es, k);
    var whole, rest := FrameAll(c, es[..m]), FrameAll(c, es[m..]);
    assert es == es[..m] + es[m..];
    FramesConcat(c, es[..m], es[m..]);
    var torn := rest[..k - |whole|];
    assert (whole + rest)[..k] == whole + torn;
    TornRest(c, es, m, k - |whole|);
    FramesScan(c, es[..m]);
    ScanConcat(c, whole, torn);
  }

  lemma TornRest(c: LogCodec, es: seq<Entry>, m: nat, j: nat)
    requires c.Lawful() && AllFrameable(c, es) && m <= |es| && j <= |FrameAll(c, es[m..])|
    requires m < |es| ==> |FrameAll(c, es[..m])| + j < |FrameAll(c, es[..m + 1])|
    ensures Scan(c, FrameAll(c, es[m..])[..j]) == []
  {
    hide Scan, Frame, LogCodec.Lawful;
    if m < |es| {
      assert es[..m + 1][..m] == es[..m];
      TornFrame(c, es[m..], j);
    } else {
      assert es[m..] == [];
      ScanNothing(c);
    }
  }

  /** A cut inside the first frame leaves nothing to read. */
  lemma TornFrame(c: LogCodec, es: seq<Entry>, k: nat)
    requires c.Lawful() && AllFrameable(c, es) && |es| > 0
    requires k < |Frame(c, es[0])|
    ensures k <= |FrameAll(c, es)| && Scan(c, FrameAll(c, es)[..k]) == []
  {
    hide Payload, FrameOf, PutUint32, DecodeRecord, LogCodec.Lawful, Survivor, Scan, ReadEntry, Extent;
    var frame := Frame(c, es[0]);
    assert FrameAll(c, es) == frame + FrameAll(c, es[1..]) by {
      assert es == [es[0]] + es[1..];
      FramesConcat(c, [es[0]], es[1..]);
      assert FrameAll(c, [es[0]]) == FrameAll(c, []) + frame by {
        assert [es[0]][..0] == [];
      }
    }
    assert FrameAll(c, es)[..k] == frame[..k];
    FrameScans(c, es[0]);
    PrefixOfFrameIsTorn(frame, k);
    TornReadsNothing(c, frame[..k]);
  }

  lemma PrefixOfFrameIsTorn(frame: Bytes, k: nat)
    requires Extent(frame) == Some(|frame|) && k < |frame|
    requires |frame| > HEADER_SIZE || k < HEADER_SIZE
    ensures Extent(frame[..k]).None?
  {
    if k >= HEADER_SIZE {
      assert frame[..k][0..4] == frame[0..4];
    }
  }

  // Damage.

  /** Locality. Replacing one frame's payload so that its checksum no longer matches
      loses that entry alone: every other entry is read, in order. */
  lemma CorruptFrameLosesOneEntry(c: LogCodec, es: seq<Entry>, i: nat, bad: Bytes)
    requires c.Lawful() && AllFrameable(c, es) && i < |es|
    requires |bad| == |Payload(c, es[i]).value|
    requires c.checksum(bad) != c.checksum(Payload(c, es[i]).value)
    ensures var frame := PutUint32(|bad|) + PutUint32(c.checksum(Payload(c, es[i]).value)) + bad;
            Scan(c, FrameAll(c, es[..i]) + (frame + FrameAll(c, es[i + 1..]))) == Survivors(c, es[..i] + es[i + 1..])
  {
    var sum := c.checksum(Payload(c, es[i]).value);
    assert Frameable(c, es[i]) && |bad| <= MAX_ENTRY_SIZE;
    FrameReads(c, bad, sum, []);
    var frame := PutUint32(|bad|) + PutUint32(sum) + bad;
    assert frame + [] == frame;
    hide FrameOf, Frame, FrameAll, LogCodec.Lawful, PutUint32, Payload;
    FramesScan(c, es[..i]);
    FramesScan(c, es[i + 1..]);
    SkippedFrame(c, FrameAll(c, es[..i]), frame, FrameAll(c, es[i + 1..]));
    SurvivorsConcat(c, es[..i], es[i + 1..]);
  }

  lemma SkippedFrame(c: LogCodec, before: Bytes, frame: Bytes, after: Bytes)
    requires Aligned(before) && Extent(frame) == Some(|frame|) && !ReadEntry(c, frame).Good?
    ensures Scan(c, before + (frame + after)) == Scan(c, before) + Scan(c, after)
  {
    hide Scan, ReadEntry, Extent, Aligned;
    WholeIsAligned(frame);
    ScanUnfold(c, frame);
    ScanNothing(c);
    ScanConcat(c, before, frame + after);
    ScanConcat(c, frame, after);
    assert Scan(c, frame) == [] && Scan(c, frame + after) == Scan(c, after);
  }

  /** Appending to an aligned file, every entry is read back after the old ones. */
  lemma AppendToAligned(c: LogCodec, f: Bytes, es: seq<Entry>)
    requires c.Lawful() && Aligned(f) && AllFrameable(c, es)
    ensures Aligned(f + FrameAll(c, es))
    ensures Scan(c, f + FrameAll(c, es)) == Scan(c, f) + Survivors(c, es)
  {
    FramesScan(c, es);
    ScanConcat(c, f, FrameAll(c, es));
  }

  // Appending behind a torn frame.

  /** What comes after the last whole frame of a file. */
  function Torn(f: Bytes): (t: Bytes)
    ensures Extent(t).None? && |t| <= |f|
    decreases |f|
  {
    if Extent(f).None? then f else Torn(f[Extent(f).value..])
  }

  /** Every file is an aligned part and a torn frame, and the torn frame is not read. */
  lemma {:induction false} SplitAtTear(c: LogCodec, f: Bytes)
    ensures var whole := f[..|f| - |Torn(f)|];
            && f == whole + Torn(f) && Aligned(whole)
            && Scan(c, f) == Scan(c, whole)
            && (Aligned(f) <==> Torn(f) == [])
    decreases |f|
  {
    hide ReadEntry, Scan, Extent;
    var t := Torn(f);
    if Extent(f).None? {
      TornReadsNothing(c, f);
      ScanNothing(c);
      assert f[..0] == [] && f == [] + f;
    } else {
      var n := Extent(f).value;
      var rest := f[n..];
      SplitAtTear(c, rest);
      var whole := f[..|f| - |t|];
      assert f == f[..n] + rest && whole == f[..n] + rest[..|rest| - |t|] && f == whole + t;
      FrontFrame(c, f);
      ScanConcat(c, f[..n], rest);
      ScanConcat(c, f[..n], rest[..|rest| - |t|]);
    }
  }

  lemma FrontFrame(c: LogCodec, f: Bytes)
    requires Extent(f).Some?
    ensures Extent(f[..Extent(f).value]) == Some(Extent(f).value) && Aligned(f[..Extent(f).value])
    ensures |Scan(c, f[..Extent(f).value])| <= 1
  {
    var n := Extent(f).value;
    var front := f[..n];
    assert front[0..4] == f[0..4];
    assert front[n..] == [];
    hide ReadEntry, Scan, Uint32;
    ScanUnfold(c, front);
    ScanNothing(c);
  }

  lemma TearIsInside(t: Bytes, g: Bytes)
    requires Extent(t).None? && Extent(t + g).Some?
    ensures |t| < Extent(t + g).value
  {
    if |t| >= HEADER_SIZE {
      assert (t + g)[0..4] == t[0..4];
    }
  }

  /** Appending to any file whatever. The log is reopened for append and never cut back, so
      the first bytes appended are taken for what the torn frame at its end is short of,
      header or payload. Until that is complete nothing new is read; then the frame so
      patched is read, or skipped, as one, and the scanner resumes in the middle of what
      was appended. */
  lemma ScanAfterTear(c: LogCodec, f: Bytes, g: Bytes)
    ensures var t := Torn(f);
            && (Extent(t + g).None? ==> Scan(c, f + g) == Scan(c, f))
            && (Extent(t + g).Some? ==>
                  var n := Extent(t + g).value;
                  && |t| < n <= |t| + |g| && |Scan(c, (t + g)[..n])| <= 1
                  && Scan(c, f + g) == Scan(c, f) + Scan(c, (t + g)[..n]) + Scan(c, g[n - |t|..]))
  {
    hide Scan, ReadEntry, Aligned, Extent, Torn;
    var t := Torn(f);
    var whole := f[..|f| - |t|];
    SplitAtTear(c, f);
    assert f + g == whole + (t + g);
    ScanConcat(c, whole, t + g);
    if Extent(t + g).None? {
      TornReadsNothing(c, t + g);
    } else {
      var n := Extent(t + g).value;
      TearIsInside(t, g);
      FrontFrame(c, t + g);
      assert t + g == (t + g)[..n] + g[n - |t|..];
      ScanConcat(c, (t + g)[..n], g[n - |t|..]);
      assert Scan(c, whole) + (Scan(c, (t + g)[..n]) + Scan(c, g[n - |t|..]))
          == Scan(c, whole) + Scan(c, (t + g)[..n]) + Scan(c, g[n - |t|..]);
    }
  }

  /** Whatever is appended is read as if it stood alone. */
  ghost predicate ReadsOn(c: LogCodec, f: Bytes) {
    forall g: Bytes :: Scan(c, f + g) == Scan(c, f) + Scan(c, g)
  }

  const SMALL_FRAME := 1024 * 1024

  /** Alignment is exactly what appending needs: behind any torn frame, be it one byte of a
      header, something can be appended that is not read as it should. The entry only has
      to exist; any that fits in a megabyte will do. */
  lemma AlignedIff(c: LogCodec, f: Bytes, e: Entry)
    requires c.Lawful() && Frameable(c, e) && |Frame(c, e)| <= SMALL_FRAME
    ensures Aligned(f) <==> ReadsOn(c, f)
  {
    hide Scan, Frame, Frameable, LogCodec.Lawful;
    if Aligned(f) {
      forall g: Bytes ensures Scan(c, f + g) == Scan(c, f) + Scan(c, g) {
        ScanConcat(c, f, g);
      }
    } else {
      SplitAtTear(c, f);
      var g := Unread(c, f, Frame(c, e));
      FrameScans(c, e);
      TearBreaksAppend(c, f, Frame(c, e));
      assert Scan(c, f + g) != Scan(c, f) + Scan(c, g);
    }
  }

  /** Bytes that announce a frame longer than what follows, and whose rest, once the first
      gap bytes are taken away, is skipped up to a whole frame. */
  function Decoy(gap: nat): Bytes {
    if gap > 4 then [1, 1, 128, 0] + seq(gap - 4, _ => 0) else [1, 1, 128, 0, 1, 1, 1, 1] + seq(gap, _ => 0)
  }

  /** Where the scanner would take up again behind t: 8 bytes of header, and the payload
      unless the header is to be skipped. */
  function Gap(t: Bytes): nat
    requires Extent(t).None?
  {
    if |t| < 4 || Uint32(t[0..4]) > MAX_ENTRY_SIZE then HEADER_SIZE - |t| else HEADER_SIZE + Uint32(t[0..4]) - |t|
  }

  /** What is appended to show it: the frame itself if the torn frame swallows it whole, else
      the frame behind a decoy. */
  function Unread(c: LogCodec, f: Bytes, frame: Bytes): Bytes {
    var gap := Gap(Torn(f));
    if |frame| < gap && |Torn(f)| >= 4 then frame else Decoy(gap) + frame
  }

  lemma DecoyHides(c: LogCodec, gap: nat, frame: Bytes)
    requires 0 < gap <= SMALL_FRAME && |frame| <= SMALL_FRAME && Aligned(frame)
    ensures Scan(c, Decoy(gap) + frame) == []
    ensures Scan(c, (Decoy(gap) + frame)[gap..]) == Scan(c, frame)
  {
    hide Scan, ReadEntry, Aligned;
    var g := Decoy(gap) + frame;
    assert g[0..4] == [1, 1, 128, 0];
    assert Extent(g).None?;
    TornReadsNothing(c, g);
    if gap > 4 {
      assert g[gap..] == frame;
    } else {
      var skipped := g[gap..gap + 8];
      assert skipped[0..4][3] == g[gap + 3] == 1;
      assert Extent(skipped) == Some(8);
      assert g[gap..] == skipped + frame;
      SkippedHeader(c, skipped);
      ScanConcat(c, skipped, frame);
    }
  }

  lemma SkippedHeader(c: LogCodec, h: Bytes)
    requires |h| == 8 && Uint32(h[0..4]) > MAX_ENTRY_SIZE
    ensures Aligned(h) && Scan(c, h) == []
  {
    assert h[8..] == [];
  }

  lemma TearBreaksAppend(c: LogCodec, f: Bytes, frame: Bytes)
    requires Torn(f) != [] && |frame| <= SMALL_FRAME && Aligned(frame) && |Scan(c, frame)| > 0
    ensures Scan(c, f + Unread(c, f, frame)) != Scan(c, f) + Scan(c, Unread(c, f, frame))
  {
    hide Scan, ReadEntry, Aligned, Decoy, Torn;
    var t, g := Torn(f), Unread(c, f, frame);
    var gap := Gap(t);
    ScanAfterTear(c, f, g);
    if |frame| < gap && |t| >= 4 {
      assert (t + g)[0..4] == t[0..4];
      assert Extent(t + g).None?;
    } else {
      DecoyHides(c, gap, frame);
      PatchedExtent(t, gap, frame);
      assert |Scan(c, g[gap..])| > 0;
    }
  }

  lemma PatchedExtent(t: Bytes, gap: nat, frame: Bytes)
    requires t != [] && Extent(t).None? && gap == Gap(t) && (gap <= |frame| || |t| < 4)
    ensures Extent(t + (Decoy(gap) + frame)) == Some(|t| + gap)
  {
    var g := t + (Decoy(gap) + frame);
    if |t| >= 4 {
      assert g[0..4] == t[0..4];
    } else {
      assert g[0..4][3] == Decoy(gap)[3 - |t|] >= 1;
    }
  }

  // The scanner as it runs.

  datatype ReadError = NoError | EndOfFile | UnexpectedEnd

  /** A reader over the bytes of one file. */
  class Reader {
    const data: Bytes
    var pos: nat

    ghost predicate Valid()
      reads this
    {
      pos <= |data|
    }

    function Rest(): Bytes
      reads this
      requires Valid()
    {
      data[pos..]
    }

    constructor (data: Bytes)
      ensures Valid() && Rest() == data
    {
      this.data := data;
      pos := 0;
    }

    /** io.ReadFull: all n bytes, or an error that has used up what there was. */
    method ReadFull(n: nat) returns (got: Bytes, err: ReadError)
      requires Valid()
      modifies this`pos
      ensures Valid()
      ensures err == if n <= |old(Rest())| then NoError
                     else if |old(Rest())| == 0 then EndOfFile else UnexpectedEnd
      ensures err == NoError ==> got == old(Rest())[..n] && Rest() == old(Rest())[n..]
      ensures err != NoError ==> Rest() == []
    {
      if n <= |data| - pos {
        got, err := data[pos..pos + n], NoError;
        pos := pos + n;
      } else {
        err := if pos == |data| then EndOfFile else UnexpectedEnd;
        got := data[pos..];
        pos := |data|;
      }
    }
  }

  datatype Scanned = End | Failed | Entered(entry: Entry)

  /** readEntry over a reader is ReadEntry over the bytes left in it. */
  method ReadEntryFrom(c: LogCodec, reader: Reader) returns (r: Scanned)
    requires reader.Valid()
    modifies reader`pos
    ensures reader.Valid()
    ensures match ReadEntry(c, old(reader.Rest()))
            case Eof => r == End
            case Skip(n) => r == Failed && reader.Rest() == old(reader.Rest())[n..]
            case Good(n, e) => r == Entered(e) && reader.Rest() == old(reader.Rest())[n..]
  {
    ghost var f := reader.Rest();
    var header, err := reader.ReadFull(HEADER_SIZE);
    if err == EndOfFile { return End; }
    if err == UnexpectedEnd { return Failed; }
    assert header[0..4] == f[0..4] && header[4..8] == f[4..8];
    var length, sum := Uint32(header[0..4]), Uint32(header[4..8]);
    if length > MAX_ENTRY_SIZE { return Failed; }
    var data;
    data, err := reader.ReadFull(length);
    if err == EndOfFile { return End; }
    if err == UnexpectedEnd { return Failed; }
    assert data == f[HEADER_SIZE..HEADER_SIZE + length];
    assert reader.Rest() == f[HEADER_SIZE + length..];
    if c.checksum(data) != sum { return Failed; }
    match DecodeRecord(c, data)
    case None => r := Failed;
    case Some(e) => r := Entered(e);
  }

  /** What has been read and what is still to be read are together the scan of the file. */
  ghost predicate ReadSoFar(c: LogCodec, file: Bytes, entries: seq<Entry>, rest: Bytes) {
    entries + Scan(c, rest) == Scan(c, file)
  }

  lemma ScanTurn(c: LogCodec, file: Bytes, entries: seq<Entry>, rest: Bytes)
    requires ReadSoFar(c, file, entries, rest)
    ensures var r := ReadEntry(c, rest);
            && (r.Eof? ==> entries == Scan(c, file))
            && (r.Skip? ==> ReadSoFar(c, file, entries, rest[r.consumed..]))
            && (r.Good? ==> ReadSoFar(c, file, entries + [r.entry], rest[r.consumed..]))
  {
    var r := ReadEntry(c, rest);
    if r.Good? {
      assert entries + ([r.entry] + Scan(c, rest[r.consumed..])) == entries + [r.entry] + Scan(c, rest[r.consumed..]);
    }
  }

  /** ReadAll: a missing file has no entries; otherwise keep reading, skipping what
      cannot be read, until the end. */
  method ReadAll(c: LogCodec, file: Option<Bytes>) returns (entries: seq<Entry>)
    ensures entries == if file.None? then [] else Scan(c, file.value)
  {
    if file.None? { return []; }
    var reader := new Reader(file.value);
    entries := [];
    assert ReadSoFar(c, file.value, entries, reader.Rest());
    hide ReadSoFar, Scan, ReadEntry, Reader.Valid, Reader.Rest;
    while true
      invariant fresh(reader) && reader.Valid()
      invariant ReadSoFar(c, file.value, entries, reader.Rest())
      decreases |reader.Rest()|
    {
      ScanTurn(c, file.value, entries, reader.Rest());
      var r := ReadEntryFrom(c, reader);
      match r {
        case End => return;
        case Failed =>
        case Entered(e) => entries := entries + [e];
      }
    }
  }
}
