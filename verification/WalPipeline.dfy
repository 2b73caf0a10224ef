/** The log's pipeline from Append to the disk (modules/wal/wal.go, modules/wal/wal_sync.go),
    as a machine whose steps are the critical sections of its workers. */
module WalPipeline {
  import opened Values
  import opened Replay
  import opened Frames
  import opened Subsequences

  const WRITER_SIZE := 256 * 1024

  datatype Config = Config(codec: LogCodec, maxSize: int, batchSize: nat, groupCommit: bool)

  /** Where every accepted entry is. `hand` is the one the batch writer has received and
      not yet put in the batch; `synced` is how much of the file has been fsynced. */
  datatype Wal = Wal(
    channel: seq<Entry>, hand: Option<Entry>, pending: seq<Entry>,
    writer: Bytes, file: Bytes, synced: nat,
    size: nat, entries: nat, flushes: nat, rotating: bool, closed: bool,
    past: History)

  /** What has become of the entries: the files moved away and the entries each of them took
      along, the entries framed into the current file, those a failed flush has dropped, and
      all that were ever accepted. */
  datatype History = History(
    rotated: seq<Bytes>, moved: seq<seq<Entry>>, framed: seq<Entry>, lost: seq<Entry>, accepted: seq<Entry>)

  // The buffered writer.

  datatype Output = Output(file: Bytes, writer: Bytes)

  /** bufio.Writer.Write: fill the buffer and spill it, or write through when it is empty. */
  function BufferedWrite(o: Output, p: Bytes): Output
    requires |o.writer| <= WRITER_SIZE
    decreases |p|, |o.writer|
  {
    var room := WRITER_SIZE - |o.writer|;
    if |p| <= room then Output(o.file, o.writer + p)
    else if |o.writer| == 0 then Output(o.file + p, [])
    else BufferedWrite(Output(o.file + (o.writer + p[..room]), []), p[room..])
  }

  lemma {:induction false} BufferedWriteKeepsBytes(o: Output, p: Bytes)
    requires |o.writer| <= WRITER_SIZE
    ensures var v := BufferedWrite(o, p);
            && v.file + v.writer == o.file + o.writer + p
            && o.file <= v.file
            && |v.writer| <= WRITER_SIZE
    decreases |p|, |o.writer|
  {
    var room := WRITER_SIZE - |o.writer|;
    if |p| <= room {
      assert o.file + (o.writer + p) == o.file + o.writer + p;
    } else if |o.writer| == 0 {
      assert o.file + p + [] == o.file + [] + p;
    } else {
      var spilled := o.file + (o.writer + p[..room]);
      var v := BufferedWrite(Output(spilled, []), p[room..]);
      assert BufferedWrite(o, p) == v;
      BufferedWriteKeepsBytes(Output(spilled, []), p[room..]);
      hide BufferedWrite;
      assert spilled + [] + p[room..] == o.file + o.writer + p by {
        assert p == p[..room] + p[room..];
      }
      assert o.file <= spilled;
    }
  }

  /** Nothing reaches the file as long as the buffer has room for it. */
  lemma SpillsIff(o: Output, p: Bytes)
    requires |o.writer| <= WRITER_SIZE
    ensures BufferedWrite(o, p).file == o.file <==> |o.writer| + |p| <= 256 * 1024
  {
    var room := WRITER_SIZE - |o.writer|;
    if 0 < |o.writer| && room < |p| {
      BufferedWriteKeepsBytes(Output(o.file + (o.writer + p[..room]), []), p[room..]);
    }
  }

  function FlushWriter(w: Wal): Wal {
    w.(file := w.file + w.writer, writer := [])
  }

  function SyncFile(w: Wal): Wal {
    w.(synced := |w.file|)
  }

  // The steps.

  function Append(w: Wal, e: Entry): Wal {
    if w.closed then w else w.(channel := w.channel + [e], past := w.past.(accepted := w.past.accepted + [e]))
  }

  /** Append for each entry of a sequence, on an open log. */
  function AppendAll(w: Wal, es: seq<Entry>): Wal {
    w.(channel := w.channel + es, past := w.past.(accepted := w.past.accepted + es))
  }

  lemma AppendAllConcat(w: Wal, a: seq<Entry>, b: seq<Entry>)
    ensures AppendAll(AppendAll(w, a), b) == AppendAll(w, a + b)
    ensures AppendAll(w, []) == w
    ensures AppendAll(w, a).closed == w.closed
    ensures forall e :: !w.closed ==> AppendAll(w, [e]) == Append(w, e)
  {
    assert w.channel + a + b == w.channel + (a + b) && w.past.accepted + a + b == w.past.accepted + (a + b);
    assert w.channel + [] == w.channel && w.past.accepted + [] == w.past.accepted;
  }

  function Take(w: Wal): Wal {
    if w.hand.None? && |w.channel| > 0 then w.(hand := Some(w.channel[0]), channel := w.channel[1..]) else w
  }

  function PutInBatch(w: Wal): Wal {
    if w.hand.Some? then w.(pending := w.pending + [w.hand.value], hand := None) else w
  }

  function WriteEntry(cfg: Config, w: Wal, e: Entry): Wal
    requires Frameable(cfg.codec, e) && |w.writer| <= WRITER_SIZE
  {
    var data := Payload(cfg.codec, e).value;
    var header := PutUint32(|data|) + PutUint32(cfg.codec.checksum(data));
    BufferedWriteKeepsBytes(Output(w.file, w.writer), header);
    var o := BufferedWrite(BufferedWrite(Output(w.file, w.writer), header), data);
    var size := w.size + HEADER_SIZE + |data|;
    w.(file := o.file, writer := o.writer, size := size, entries := w.entries + 1,
       rotating := w.rotating || size > cfg.maxSize, past := w.past.(framed := w.past.framed + [e]))
  }

  lemma WriteEntryAddsFrame(cfg: Config, w: Wal, e: Entry)
    requires Frameable(cfg.codec, e) && |w.writer| <= WRITER_SIZE
    ensures var v := WriteEntry(cfg, w, e);
            && v.file + v.writer == w.file + w.writer + Frame(cfg.codec, e)
            && w.file <= v.file
            && |v.writer| <= WRITER_SIZE
            && v.size == w.size + |Frame(cfg.codec, e)|
            && v.entries == w.entries + 1
            && v.rotating == (w.rotating || v.size > cfg.maxSize)
            && v == w.(file := v.file, writer := v.writer, size := v.size, entries := v.entries, rotating := v.rotating,
                       past := w.past.(framed := w.past.framed + [e]))
  {
    var data := Payload(cfg.codec, e).value;
    var header := PutUint32(|data|) + PutUint32(cfg.codec.checksum(data));
    BufferedWriteKeepsBytes(Output(w.file, w.writer), header);
    BufferedWriteKeepsBytes(BufferedWrite(Output(w.file, w.writer), header), data);
    hide BufferedWrite;
    assert w.file + w.writer + header + data == w.file + w.writer + (header + data);
  }

  /** How many entries are written before one fails: all of them if none does. */
  function Writable(c: LogCodec, batch: seq<Entry>): (n: nat)
    ensures n <= |batch| && AllFrameable(c, batch[..n])
    ensures n < |batch| ==> !Frameable(c, batch[n])
  {
    if |batch| == 0 || !Frameable(c, batch[0]) then 0
    else
      var n := 1 + Writable(c, batch[1..]);
      assert forall i :: 0 < i < n ==> batch[..n][i] == batch[1..][..n - 1][i - 1];
      n
  }

  function WriteEntries(cfg: Config, w: Wal, batch: seq<Entry>): (v: Wal)
    requires AllFrameable(cfg.codec, batch) && |w.writer| <= WRITER_SIZE
    ensures |v.writer| <= WRITER_SIZE
  {
    if |batch| == 0 then w
    else
      var u := WriteEntries(cfg, w, batch[..|batch| - 1]);
      WriteEntryAddsFrame(cfg, u, batch[|batch| - 1]);
      WriteEntry(cfg, u, batch[|batch| - 1])
  }

  function FinishFlush(cfg: Config, w: Wal): Wal {
    var u := FlushWriter(w).(flushes := w.flushes + 1);
    if cfg.groupCommit then SyncFile(u) else u
  }

  /** flushBatchLocked. The batch is taken first; if an entry cannot be written, the ones
      before it stay in the buffered writer and it and the ones after it are gone. */
  function FlushBatch(cfg: Config, w: Wal): Wal
    requires |w.writer| <= WRITER_SIZE
  {
    if |w.pending| == 0 then w
    else
      var n := Writable(cfg.codec, w.pending);
      var v := WriteEntries(cfg, w.(pending := [], past := w.past.(lost := w.past.lost + w.pending[n..])),
              w.pending[..n]);
      if n < |w.pending| then v else FinishFlush(cfg, v)
  }

  function Sync(w: Wal): Wal {
    if w.closed then w else SyncFile(FlushWriter(w))
  }

  // Where the accepted entries are.

  /** Between the hands of the workers: in the batch, in the hand, in the channel. */
  function InFlight(w: Wal): seq<Entry> {
    w.pending + (if w.hand.Some? then [w.hand.value] else []) + w.channel
  }

  function Flat(parts: seq<seq<Entry>>): seq<Entry> {
    if |parts| == 0 then [] else Flat(parts[..|parts| - 1]) + parts[|parts| - 1]
  }

  /** All that is somewhere, in order: in the rotated files, in the current one, in flight. */
  function Placed(w: Wal): seq<Entry> {
    Flat(w.past.moved) + w.past.framed + InFlight(w)
  }

  /** Close and rename the current file, and open an empty one in its place. */
  function MoveAway(w: Wal): Wal {
    w.(past := w.past.(rotated := w.past.rotated + [w.file], moved := w.past.moved + [w.past.framed], framed := []),
       file := [], writer := [], synced := 0, size := 0)
  }

  function Rotate(cfg: Config, w: Wal): Wal
    requires |w.writer| <= WRITER_SIZE
  {
    if w.closed || !w.rotating then w
    else
      var v := FlushBatch(cfg, w);
      if Writable(cfg.codec, w.pending) < |w.pending| then v else MoveAway(SyncFile(FlushWriter(v)))
  }

  /** A closed log takes nothing, and is neither synced nor rotated; an open one is rotated
      only when asked. */
  lemma OnlyWhenOpen(cfg: Config, w: Wal, e: Entry)
    requires |w.writer| <= WRITER_SIZE
    ensures w.closed ==> Append(w, e) == w && Sync(w) == w && Rotate(cfg, w) == w
    ensures !w.rotating ==> Rotate(cfg, w) == w
  {
  }

  datatype Step =
    | StepAppend(e: Entry)
    | StepTake
    | StepPut
    | StepFlushBatch
    | StepFlushWriter
    | StepSyncFile
    | StepSync
    | StepRotate
    | StepLowerFlag
    | StepClose

  function Next(cfg: Config, w: Wal, s: Step): Wal
    requires |w.writer| <= WRITER_SIZE
  {
    match s
    case StepAppend(e) => Append(w, e)
    case StepTake => Take(w)
    case StepPut => PutInBatch(w)
    case StepFlushBatch => FlushBatch(cfg, w)
    case StepFlushWriter => FlushWriter(w)
    case StepSyncFile => SyncFile(w)
    case StepSync => Sync(w)
    case StepRotate => Rotate(cfg, w)
    case StepLowerFlag => w.(rotating := false)
    case StepClose => w.(closed := true)
  }

  // Conservation.

  /** Bookkeeping that holds whatever is written. */
  ghost predicate Sized(w: Wal) {
    && |w.writer| <= WRITER_SIZE
    && w.size == |w.file| + |w.writer|
    && w.synced <= |w.file|
  }

  /** The files in the order they were begun, each with the frames of its own entries; the
      first continues the file that was there when the log was opened. */
  ghost predicate Laid(c: LogCodec, origin: Bytes, files: seq<Bytes>, parts: seq<seq<Entry>>) {
    && |files| == |parts| > 0
    && forall i :: 0 <= i < |files| ==>
         AllFrameable(c, parts[i]) && files[i] == (if i == 0 then origin else []) + FrameAll(c, parts[i])
  }

  /** Every accepted entry is somewhere in the pipeline or lost, once, and what is somewhere
      is there in order: the entries of the rotated files and of the current one as the bytes
      of their frames, behind whatever the log file held when it was opened, and then those
      in flight. Nothing is lost unless something was accepted that cannot be framed. */
  ghost predicate Conserved(cfg: Config, origin: Bytes, w: Wal) {
    && Sized(w)
    && Laid(cfg.codec, origin, w.past.rotated + [w.file + w.writer], w.past.moved + [w.past.framed])
    && Within(Placed(w), w.past.accepted)
    && multiset(w.past.accepted) == multiset(Placed(w)) + multiset(w.past.lost)
    && (AllFrameable(cfg.codec, w.past.accepted) ==> w.past.lost == [])
    && (w.past.rotated == [] ==> |origin| <= w.synced)
  }

  lemma NothingLost(cfg: Config, origin: Bytes, w: Wal)
    requires Conserved(cfg, origin, w)
    ensures |w.past.accepted| == |Placed(w)| + |w.past.lost|
    ensures w.past.lost == [] ==> w.past.accepted == Placed(w)
  {
    assert |multiset(w.past.accepted)| == |w.past.accepted|;
    WithinWhole(Placed(w), w.past.accepted);
  }

  lemma WriteEntriesAddFrames(cfg: Config, w: Wal, batch: seq<Entry>)
    requires AllFrameable(cfg.codec, batch) && |w.writer| <= WRITER_SIZE
    ensures var v := WriteEntries(cfg, w, batch);
            && v.file + v.writer == w.file + w.writer + FrameAll(cfg.codec, batch)
            && w.file <= v.file
            && v.size == w.size + |FrameAll(cfg.codec, batch)|
            && v.entries == w.entries + |batch|
            && v.rotating == (w.rotating || (|batch| > 0 && v.size > cfg.maxSize))
            && v == w.(file := v.file, writer := v.writer, size := v.size, entries := v.entries, rotating := v.rotating,
                       past := w.past.(framed := w.past.framed + batch))
  {
    hide Frame, Payload, WriteEntry;
    if |batch| > 0 {
      var init, last := batch[..|batch| - 1], batch[|batch| - 1];
      WriteEntriesAddFrames(cfg, w, init);
      var u := WriteEntries(cfg, w, init);
      WriteEntryAddsFrame(cfg, u, last);
      assert w.file + w.writer + FrameAll(cfg.codec, init) + Frame(cfg.codec, last)
          == w.file + w.writer + FrameAll(cfg.codec, batch);
      assert w.past.framed + init + [last] == w.past.framed + batch;
    }
  }

  /** What one flush does, exactly: the entries up to the first that cannot be written
      become frames, and that one and all after it are lost. */
  lemma FlushBatchExactly(cfg: Config, w: Wal)
    requires Sized(w)
    ensures var v, n := FlushBatch(cfg, w), Writable(cfg.codec, w.pending);
            && Sized(v)
            && v.pending == [] && v.channel == w.channel && v.hand == w.hand
            && v.closed == w.closed
            && v.past == w.past.(framed := w.past.framed + w.pending[..n], lost := w.past.lost + w.pending[n..])
            && v.file + v.writer == w.file + w.writer + FrameAll(cfg.codec, w.pending[..n])
            && w.file <= v.file && w.synced <= v.synced
            && v.entries == w.entries + n
            && v.rotating == (w.rotating || (n > 0 && v.size > cfg.maxSize))
            && (0 < n == |w.pending| ==>
                  && v.writer == [] && v.flushes == w.flushes + 1
                  && v.synced == (if cfg.groupCommit then |v.file| else w.synced))
            && (n < |w.pending| || n == 0 ==> v.flushes == w.flushes && v.synced == w.synced)
  {
    hide Frameable, BufferedWrite;
    if |w.pending| > 0 {
      var n := Writable(cfg.codec, w.pending);
      var u := w.(pending := [], past := w.past.(lost := w.past.lost + w.pending[n..]));
      WriteEntriesAddFrames(cfg, u, w.pending[..n]);
      hide WriteEntries, Writable, FrameAll;
      var v := WriteEntries(cfg, u, w.pending[..n]);
      assert FlushWriter(v).file + [] == v.file + v.writer;
    } else {
      assert w.pending[..0] == [] && w.pending[0..] == [];
      assert w.past.framed + [] == w.past.framed && w.past.lost + [] == w.past.lost;
      assert w.file + w.writer + [] == w.file + w.writer;
    }
  }

  lemma FlushWriterKeepsBytes(w: Wal)
    ensures FlushWriter(w).file + FlushWriter(w).writer == w.file + w.writer
  {
  }

  lemma AllWritable(c: LogCodec, batch: seq<Entry>)
    ensures Writable(c, batch) == |batch| <==> AllFrameable(c, batch)
  {
    var n := Writable(c, batch);
    if n == |batch| {
      assert batch[..n] == batch;
    }
  }

  /** Moving bytes from the writer to the file, or fsyncing, loses nothing. */
  lemma SameBytesConserve(cfg: Config, origin: Bytes, w: Wal, v: Wal)
    requires Conserved(cfg, origin, w) && Sized(v)
    requires v.file + v.writer == w.file + w.writer && w.synced <= v.synced
    requires v.past == w.past && InFlight(v) == InFlight(w)
    ensures Conserved(cfg, origin, v)
  {
    hide Laid, InFlight, Flat, Within, Frameable;
  }

  lemma AppendConserves(cfg: Config, origin: Bytes, w: Wal, e: Entry)
    requires Conserved(cfg, origin, w)
    ensures Conserved(cfg, origin, Append(w, e))
  {
    if !w.closed {
      var v := Append(w, e);
      AppendPlaces(w, e);
      hide Laid, Placed, Flat, Frameable, InFlight, Within;
      WithinBoth(Placed(w), w.past.accepted, [e]);
      if AllFrameable(cfg.codec, v.past.accepted) { PartsFrameable(cfg.codec, w.past.accepted, [e]); }
    }
  }

  lemma AppendPlaces(w: Wal, e: Entry)
    requires !w.closed
    ensures Placed(Append(w, e)) == Placed(w) + [e]
  {
    assert InFlight(Append(w, e)) == InFlight(w) + [e];
  }

  /** Framing more entries at the end of the last file. */
  lemma LaidGrows(c: LogCodec, origin: Bytes, files: seq<Bytes>, file: Bytes, parts: seq<seq<Entry>>,
                  part: seq<Entry>, more: seq<Entry>)
    requires Laid(c, origin, files + [file], parts + [part]) && AllFrameable(c, more)
    ensures Laid(c, origin, files + [file + FrameAll(c, more)], parts + [part + more])
  {
    hide FrameAll, Frameable;
    var last := |files|;
    assert (files + [file])[last] == file && (parts + [part])[last] == part;
    FramesConcat(c, part, more);
    var start := if last == 0 then origin else [];
    assert start + (FrameAll(c, part) + FrameAll(c, more)) == start + FrameAll(c, part) + FrameAll(c, more);
    forall i | 0 <= i < last
      ensures AllFrameable(c, parts[i]) && files[i] == (if i == 0 then origin else []) + FrameAll(c, parts[i])
    {
      assert (files + [file])[i] == files[i] && (parts + [part])[i] == parts[i];
    }
  }

  /** Moving the last file away and beginning an empty one. */
  lemma LaidMoves(c: LogCodec, origin: Bytes, files: seq<Bytes>, parts: seq<seq<Entry>>)
    requires Laid(c, origin, files, parts)
    ensures Laid(c, origin, files + [[]], parts + [[]])
  {
  }

  lemma FlushBatchConserves(cfg: Config, origin: Bytes, w: Wal)
    requires Conserved(cfg, origin, w)
    ensures Conserved(cfg, origin, FlushBatch(cfg, w))
  {
    hide FlushBatch, Laid, FrameAll, Frameable, Flat, Writable, Within, Placed;
    var v, n := FlushBatch(cfg, w), Writable(cfg.codec, w.pending);
    FlushBatchExactly(cfg, w);
    LaidGrows(cfg.codec, origin, w.past.rotated, w.file + w.writer, w.past.moved, w.past.framed, w.pending[..n]);
    FlushPlaces(w, v, n);
    if n < |w.pending| { SomeUnframeable(cfg, w, n); }
  }

  /** The framed part of the batch stays in its place, the rest of it is lost. */
  lemma FlushPlaces(w: Wal, v: Wal, n: nat)
    requires n <= |w.pending| && v.pending == [] && v.hand == w.hand && v.channel == w.channel
    requires v.past == w.past.(framed := w.past.framed + w.pending[..n], lost := w.past.lost + w.pending[n..])
    requires Within(Placed(w), w.past.accepted)
    requires multiset(w.past.accepted) == multiset(Placed(w)) + multiset(w.past.lost)
    ensures Within(Placed(v), v.past.accepted)
    ensures multiset(v.past.accepted) == multiset(Placed(v)) + multiset(v.past.lost)
  {
    assert InFlight(w) == w.pending[..n] + w.pending[n..] + InFlight(v);
    hide Flat, Within, InFlight;
    BatchPlaced(Flat(w.past.moved) + w.past.framed, w.pending[..n], w.pending[n..], InFlight(v), w.past.accepted,
            w.past.lost);
    assert Flat(w.past.moved) + w.past.framed + w.pending[..n] == Flat(w.past.moved) + (w.past.framed + w.pending[..n]);
  }

  lemma BatchPlaced(before: seq<Entry>, written: seq<Entry>, dropped: seq<Entry>, after: seq<Entry>,
                    accepted: seq<Entry>, lost: seq<Entry>)
    requires Within(before + (written + dropped + after), accepted)
    requires multiset(accepted) == multiset(before + (written + dropped + after)) + multiset(lost)
    ensures Within(before + written + after, accepted)
    ensures multiset(accepted) == multiset(before + written + after) + multiset(lost + dropped)
  {
    hide Within;
    var whole := before + written + dropped + after;
    assert before + (written + dropped + after) == whole;
    WithoutMiddle(before + written, dropped, after);
    WithinTransitive(before + written + after, whole, accepted);
    assert multiset(whole) == multiset(before + written + after) + multiset(dropped);
    assert multiset(lost + dropped) == multiset(lost) + multiset(dropped);
  }

  lemma SomeUnframeable(cfg: Config, w: Wal, n: nat)
    requires n < |w.pending| && !Frameable(cfg.codec, w.pending[n])
    requires multiset(w.past.accepted) == multiset(Placed(w)) + multiset(w.past.lost)
    ensures !AllFrameable(cfg.codec, w.past.accepted)
  {
    var e := w.pending[n];
    assert InFlight(w)[n] == e;
    assert Placed(w)[|Flat(w.past.moved) + w.past.framed| + n] == e;
    assert e in multiset(w.past.accepted);
    assert e in w.past.accepted;
    var i :| 0 <= i < |w.past.accepted| && w.past.accepted[i] == e;
    assert !Frameable(cfg.codec, w.past.accepted[i]);
  }

  lemma PartsFrameable(c: LogCodec, a: seq<Entry>, b: seq<Entry>)
    requires AllFrameable(c, a + b)
    ensures AllFrameable(c, a) && AllFrameable(c, b)
  {
    forall i | 0 <= i < |a| ensures Frameable(c, a[i]) { assert a[i] == (a + b)[i]; }
    forall i | 0 <= i < |b| ensures Frameable(c, b[i]) { assert b[i] == (a + b)[|a| + i]; }
  }

  lemma MoveAwayConserves(cfg: Config, origin: Bytes, w: Wal)
    requires Conserved(cfg, origin, w) && w.writer == []
    ensures Conserved(cfg, origin, MoveAway(w))
  {
    hide Laid, Within, Frameable;
    var v := MoveAway(w);
    assert v.past.moved[..|w.past.moved|] == w.past.moved;
    assert w.file + w.writer == w.file && v.file + v.writer == [];
    LaidMoves(cfg.codec, origin, w.past.rotated + [w.file], w.past.moved + [w.past.framed]);
    assert InFlight(v) == InFlight(w);
    hide InFlight;
    assert Placed(v) == Placed(w);
  }

  /** A rotation moves file, writer and batch away whole, unless an entry of the batch cannot
      be written; then it is a failed flush. */
  lemma RotateConserves(cfg: Config, origin: Bytes, w: Wal)
    requires Conserved(cfg, origin, w)
    ensures Conserved(cfg, origin, Rotate(cfg, w))
    ensures !w.closed && w.rotating && AllFrameable(cfg.codec, w.pending) ==>
              var v := Rotate(cfg, w);
              && v.past.rotated == w.past.rotated + [w.file + w.writer + FrameAll(cfg.codec, w.pending)]
              && v.past.moved == w.past.moved + [w.past.framed + w.pending] && v.past.framed == []
              && v.past.lost == w.past.lost
              && v.file == [] && v.writer == [] && v.size == 0 && v.pending == []
              && v.channel == w.channel && v.hand == w.hand && v.past.accepted == w.past.accepted
    ensures !w.closed && w.rotating && !AllFrameable(cfg.codec, w.pending) ==> Rotate(cfg, w) == FlushBatch(cfg, w)
  {
    hide FlushBatch, FrameAll, Frameable, Writable, Laid, Flat, Placed, Within;
    FlushBatchConserves(cfg, origin, w);
    AllWritable(cfg.codec, w.pending);
    if !w.closed && w.rotating && AllFrameable(cfg.codec, w.pending) {
      FlushBatchExactly(cfg, w);
      assert w.pending[..|w.pending|] == w.pending && w.past.lost + w.pending[|w.pending|..] == w.past.lost;
      var f := FlushBatch(cfg, w);
      var s := SyncFile(FlushWriter(f));
      assert s.file + s.writer == f.file + f.writer;
      SameBytesConserve(cfg, origin, f, s);
      hide Conserved;
      MoveAwayConserves(cfg, origin, s);
    }
  }

  /** One step, of any kind, conserves. */
  lemma NextConserves(cfg: Config, origin: Bytes, w: Wal, s: Step)
    requires Conserved(cfg, origin, w)
    ensures Conserved(cfg, origin, Next(cfg, w, s))
  {
    hide FlushBatch, Rotate, Conserved;
    match s
    case StepAppend(e) => AppendConserves(cfg, origin, w, e);
    case StepFlushBatch => FlushBatchConserves(cfg, origin, w);
    case StepRotate => RotateConserves(cfg, origin, w);
    case _ => QuietStepConserves(cfg, origin, w, s);
  }

  lemma QuietStepConserves(cfg: Config, origin: Bytes, w: Wal, s: Step)
    requires Conserved(cfg, origin, w)
    requires !s.StepAppend? && !s.StepFlushBatch? && !s.StepRotate?
    ensures Conserved(cfg, origin, Next(cfg, w, s))
  {
    QuietStepKeepsBytes(cfg, w, s);
    hide InFlight, Next, Laid, Flat;
    SameBytesConserve(cfg, origin, w, Next(cfg, w, s));
  }

  lemma QuietStepKeepsBytes(cfg: Config, w: Wal, s: Step)
    requires Sized(w) && !s.StepAppend? && !s.StepFlushBatch? && !s.StepRotate?
    ensures var v := Next(cfg, w, s);
            && Sized(v) && v.file + v.writer == w.file + w.writer && w.synced <= v.synced
            && v.past == w.past && InFlight(v) == InFlight(w)
  {
    hide FlushBatch, Rotate;
    FlushWriterKeepsBytes(w);
    assert InFlight(Next(cfg, w, s)) == InFlight(w);
  }

  // Runs.

  /** The log as New leaves it: the file is opened for append, whatever it holds. */
  function Opened(file: Bytes): Wal {
    Wal([], None, [], [], file, |file|, |file|, 0, 0, false, false, History([], [], [], [], []))
  }

  function Run(cfg: Config, w: Wal, steps: seq<Step>): (v: Wal)
    requires |w.writer| <= WRITER_SIZE
    ensures |v.writer| <= WRITER_SIZE
  {
    if |steps| == 0 then w
    else
      var u := Run(cfg, w, steps[..|steps| - 1]);
      NextKeepsWriter(cfg, u, steps[|steps| - 1]);
      Next(cfg, u, steps[|steps| - 1])
  }

  lemma NextKeepsWriter(cfg: Config, w: Wal, s: Step)
    requires |w.writer| <= WRITER_SIZE
    ensures |Next(cfg, w, s).writer| <= WRITER_SIZE
  {
  }

  lemma OpenedConserves(cfg: Config, origin: Bytes)
    ensures Conserved(cfg, origin, Opened(origin))
  {
    assert origin + [] == origin;
  }

  /** In every interleaving of the workers' steps, from a log opened on any file at all and
      whatever it is given: rotated files, current file and buffered writer hold what the
      file held and then the frames of the accepted entries, in order, up to those that
      batch, hand and channel hold, except for those that a failed flush has dropped; and
      size counts the bytes of the current file. */
  lemma {:induction false} RunConserves(cfg: Config, origin: Bytes, steps: seq<Step>)
    ensures Conserved(cfg, origin, Run(cfg, Opened(origin), steps))
    ensures AllBytes(cfg.codec, origin, Run(cfg, Opened(origin), steps))
  {
    if |steps| == 0 {
      OpenedConserves(cfg, origin);
    } else {
      var last := |steps| - 1;
      RunConserves(cfg, origin, steps[..last]);
      hide Conserved, Next;
      NextConserves(cfg, origin, Run(cfg, Opened(origin), steps[..last]), steps[last]);
    }
    AllBytesConserved(cfg, origin, Run(cfg, Opened(origin), steps));
  }

  // Getting there.

  /** The steps that take everything in flight to the disk: the hand, then the channel entry by
      entry, then a flush and a sync. */
  function DrainSteps(w: Wal): seq<Step> {
    Rounds(|w.channel|) + [StepFlushBatch, StepSync]
  }

  function Rounds(n: nat): seq<Step> {
    if n == 0 then [StepPut] else Rounds(n - 1) + [StepTake, StepPut]
  }

  lemma RunOne(cfg: Config, w: Wal, steps: seq<Step>, s: Step)
    requires |w.writer| <= WRITER_SIZE
    ensures Run(cfg, w, steps + [s]) == Next(cfg, Run(cfg, w, steps), s)
  {
    assert (steps + [s])[..|steps|] == steps;
  }

  lemma OneRound(cfg: Config, w: Wal, steps: seq<Step>, u: Wal)
    requires |w.writer| <= WRITER_SIZE && Run(cfg, w, steps) == u && u.hand.None? && |u.channel| > 0
    ensures Run(cfg, w, steps + [StepTake, StepPut]) ==
            u.(channel := u.channel[1..], pending := u.pending + [u.channel[0]])
  {
    RunOne(cfg, w, steps, StepTake);
    RunOne(cfg, w, steps + [StepTake], StepPut);
    assert steps + [StepTake] + [StepPut] == steps + [StepTake, StepPut];
  }

  lemma OneFurther(queue: seq<Entry>, batch: seq<Entry>, n: nat)
    requires 0 < n <= |queue|
    ensures queue[n - 1..][1..] == queue[n..]
    ensures batch + queue[..n - 1] + [queue[n - 1..][0]] == batch + queue[..n]
  {
  }

  /** After n rounds the hand is empty and the first n entries of the channel are in the batch. */
  lemma {:induction false} RoundsTake(cfg: Config, w: Wal, n: nat)
    requires |w.writer| <= WRITER_SIZE && n <= |w.channel|
    ensures var u := PutInBatch(w);
            Run(cfg, w, Rounds(n)) == u.(channel := u.channel[n..], pending := u.pending + u.channel[..n])
  {
    var u := PutInBatch(w);
    if n == 0 {
      RunOne(cfg, w, [], StepPut);
      assert [] + [StepPut] == [StepPut] && u.pending + [] == u.pending;
    } else {
      RoundsTake(cfg, w, n - 1);
      hide Run, PutInBatch;
      OneRound(cfg, w, Rounds(n - 1), Run(cfg, w, Rounds(n - 1)));
      OneFurther(u.channel, u.pending, n);
    }
  }

  lemma AllInBatch(cfg: Config, w: Wal)
    requires Sized(w)
    ensures var u := Run(cfg, w, Rounds(|w.channel|));
            && u == w.(hand := None, channel := [], pending := InFlight(w))
            && Run(cfg, w, DrainSteps(w)) == Sync(FlushBatch(cfg, u))
  {
    var steps := Rounds(|w.channel|);
    RoundsTake(cfg, w, |w.channel|);
    assert w.channel[..|w.channel|] == w.channel;
    assert w.pending + [] == w.pending;
    RunOne(cfg, w, steps, StepFlushBatch);
    RunOne(cfg, w, steps + [StepFlushBatch], StepSync);
    assert steps + [StepFlushBatch] + [StepSync] == DrainSteps(w);
  }

  /** The workers can always get everything to the disk: from any state of an open log, their
      steps lead to one with nothing in flight, every byte fsynced, and, if it can all be
      framed, all that was in flight framed behind what was. */
  lemma CanDrain(cfg: Config, w: Wal)
    requires Sized(w) && !w.closed
    ensures var v := Run(cfg, w, DrainSteps(w));
            && InFlight(v) == [] && v.writer == [] && v.synced == |v.file| && v.past.accepted == w.past.accepted
            && (AllFrameable(cfg.codec, InFlight(w)) ==>
                  && v.past.lost == w.past.lost && v.past.framed == w.past.framed + InFlight(w)
                  && v.file == w.file + w.writer + FrameAll(cfg.codec, InFlight(w)))
  {
    var u := Run(cfg, w, Rounds(|w.channel|));
    AllInBatch(cfg, w);
    hide Run, FlushBatch, Writable, FrameAll, InFlight, Sync, DrainSteps;
    FlushedAndSynced(cfg, u);
    AllWritable(cfg.codec, u.pending);
    assert u.pending[..|u.pending|] == u.pending && u.past.lost + u.pending[|u.pending|..] == u.past.lost;
  }

  lemma FlushedAndSynced(cfg: Config, w: Wal)
    requires Sized(w) && !w.closed && w.hand.None? && w.channel == []
    ensures var v, n := Sync(FlushBatch(cfg, w)), Writable(cfg.codec, w.pending);
            && InFlight(v) == [] && v.writer == [] && v.synced == |v.file|
            && v.past == w.past.(framed := w.past.framed + w.pending[..n], lost := w.past.lost + w.pending[n..])
            && v.file == w.file + w.writer + FrameAll(cfg.codec, w.pending[..n])
  {
    FlushBatchExactly(cfg, w);
    hide FlushBatch, Writable, FrameAll;
  }

  function Joined(files: seq<Bytes>): Bytes {
    if |files| == 0 then [] else Joined(files[..|files| - 1]) + files[|files| - 1]
  }

  /** All bytes ever written or buffered. As long as nothing has been lost they are those of
      all that was accepted and is not in flight. */
  ghost predicate AllBytes(c: LogCodec, origin: Bytes, w: Wal) {
    var there := Flat(w.past.moved) + w.past.framed;
    && AllFrameable(c, there)
    && Joined(w.past.rotated) + w.file + w.writer == origin + FrameAll(c, there)
    && (w.past.lost == [] ==> w.past.accepted == there + InFlight(w))
  }

  lemma {:induction false} LaidJoined(c: LogCodec, origin: Bytes, files: seq<Bytes>, parts: seq<seq<Entry>>)
    requires Laid(c, origin, files, parts)
    ensures AllFrameable(c, Flat(parts)) && Joined(files) == origin + FrameAll(c, Flat(parts))
  {
    hide FrameAll, Frameable;
    var last := |files| - 1;
    if last == 0 {
      assert Joined(files[..0]) + files[0] == files[0] && Flat(parts[..0]) + parts[0] == parts[0];
    } else {
      LaidJoined(c, origin, files[..last], parts[..last]);
      FramesConcat(c, Flat(parts[..last]), parts[last]);
      assert [] + FrameAll(c, parts[last]) == FrameAll(c, parts[last]);
      assert origin + FrameAll(c, Flat(parts[..last])) + FrameAll(c, parts[last])
          == origin + (FrameAll(c, Flat(parts[..last])) + FrameAll(c, parts[last]));
    }
  }

  lemma AllBytesConserved(cfg: Config, origin: Bytes, w: Wal)
    requires Conserved(cfg, origin, w)
    ensures AllBytes(cfg.codec, origin, w)
  {
    hide FrameAll, Frameable, InFlight, Laid, Within;
    var files, parts := w.past.rotated + [w.file + w.writer], w.past.moved + [w.past.framed];
    NothingLost(cfg, origin, w);
    LaidJoined(cfg.codec, origin, files, parts);
    assert files[..|w.past.rotated|] == w.past.rotated && parts[..|w.past.moved|] == w.past.moved;
    assert Joined(files) == Joined(w.past.rotated) + (w.file + w.writer);
    assert Joined(w.past.rotated) + (w.file + w.writer) == Joined(w.past.rotated) + w.file + w.writer;
  }

  // The same, read as recovery would read it.

  function ScanFiles(c: LogCodec, files: seq<Bytes>): seq<Entry> {
    if |files| == 0 then [] else ScanFiles(c, files[..|files| - 1]) + Scan(c, files[|files| - 1])
  }

  /** All the pipeline holds, rotated files included. */
  function Held(c: LogCodec, w: Wal): seq<Entry> {
    ScanFiles(c, w.past.rotated) + Scan(c, w.file + w.writer) + Survivors(c, InFlight(w))
  }

  lemma {:induction false} LaidScanned(c: LogCodec, origin: Bytes, files: seq<Bytes>, parts: seq<seq<Entry>>)
    requires c.Lawful() && Aligned(origin) && Laid(c, origin, files, parts)
    ensures ScanFiles(c, files) == Scan(c, origin) + Survivors(c, Flat(parts))
    ensures Aligned(files[|files| - 1])
  {
    hide FrameAll, Frameable, Scan, Aligned, Survivor, LogCodec.Lawful;
    var last := |files| - 1;
    if last == 0 {
      assert ScanFiles(c, files[..0]) + Scan(c, files[0]) == Scan(c, files[0]);
      assert Flat(parts[..0]) + parts[0] == parts[0];
      AppendToAligned(c, origin, parts[0]);
    } else {
      LaidScanned(c, origin, files[..last], parts[..last]);
      assert [] + FrameAll(c, parts[last]) == FrameAll(c, parts[last]);
      FramesScan(c, parts[last]);
      SurvivorsConcat(c, Flat(parts[..last]), parts[last]);
    }
  }

  /** From a log opened on an aligned file, everything accepted and not lost can be read,
      in order, from where it is. */
  lemma HeldIsAccepted(cfg: Config, origin: Bytes, w: Wal)
    requires cfg.codec.Lawful() && Aligned(origin) && Conserved(cfg, origin, w)
    ensures Held(cfg.codec, w) == Scan(cfg.codec, origin) + Survivors(cfg.codec, Placed(w))
    ensures w.past.lost == [] ==> Placed(w) == w.past.accepted
    ensures Aligned(w.file + w.writer)
  {
    hide FrameAll, Frameable, Scan, Aligned, Survivor, Survivors, LogCodec.Lawful, InFlight, Laid, Within;
    var c, files, parts := cfg.codec, w.past.rotated + [w.file + w.writer], w.past.moved + [w.past.framed];
    NothingLost(cfg, origin, w);
    LaidScanned(c, origin, files, parts);
    assert files[..|w.past.rotated|] == w.past.rotated && parts[..|w.past.moved|] == w.past.moved;
    SurvivorsConcat(c, Flat(parts), InFlight(w));
  }

  // What a flush, a sync and a crash guarantee, exactly.

  lemma FramedIsHeld(c: LogCodec, before: seq<Entry>, bytes: Bytes, batch: seq<Entry>, rest: seq<Entry>)
    requires c.Lawful() && Aligned(bytes) && AllFrameable(c, batch)
    ensures before + Scan(c, bytes + FrameAll(c, batch)) + Survivors(c, rest)
         == before + Scan(c, bytes) + Survivors(c, batch + rest)
  {
    AppendToAligned(c, bytes, batch);
    SurvivorsConcat(c, batch, rest);
  }

  /** A flush loses nothing if and only if every entry of the batch can be written: too large,
      unmarshalable or unserialisable values take the rest of their batch with them. On a
      file that ends where a frame ends, that is to say if and only if all that the pipeline
      holds can still be read. */
  lemma FlushKeepsAllIff(cfg: Config, w: Wal)
    requires Sized(w)
    ensures FlushBatch(cfg, w).past.lost == w.past.lost <==> AllFrameable(cfg.codec, w.pending)
    ensures cfg.codec.Lawful() && Aligned(w.file + w.writer) ==>
              (Held(cfg.codec, FlushBatch(cfg, w)) == Held(cfg.codec, w) <==> AllFrameable(cfg.codec, w.pending))
  {
    hide FlushBatch, Writable, Frameable, InFlight, Held, FrameAll, Aligned, LogCodec.Lawful;
    FlushBatchExactly(cfg, w);
    AllWritable(cfg.codec, w.pending);
    if cfg.codec.Lawful() && Aligned(w.file + w.writer) {
      FlushHoldsAllIff(cfg, w);
    }
  }

  lemma FlushHoldsAllIff(cfg: Config, w: Wal)
    requires cfg.codec.Lawful() && Sized(w) && Aligned(w.file + w.writer)
    ensures Held(cfg.codec, FlushBatch(cfg, w)) == Held(cfg.codec, w) <==> AllFrameable(cfg.codec, w.pending)
  {
    hide FlushBatch, Scan, Aligned, ScanFiles, Survivors, LogCodec.Lawful, FrameAll;
    var n := Writable(cfg.codec, w.pending);
    var v := FlushBatch(cfg, w);
    FlushBatchExactly(cfg, w);
    AllWritable(cfg.codec, w.pending);
    FramedIsHeld(cfg.codec, ScanFiles(cfg.codec, w.past.rotated), w.file + w.writer, w.pending[..n], InFlight(v));
    assert InFlight(w) == w.pending + InFlight(v);
    assert Held(cfg.codec, v) == ScanFiles(cfg.codec, w.past.rotated) + Scan(cfg.codec, w.file + w.writer)
                                 + Survivors(cfg.codec, w.pending[..n] + InFlight(v));
    if n == |w.pending| {
      assert w.pending[..n] == w.pending;
    }
  }

  lemma {:induction false} FramesTakeRoom(c: LogCodec, es: seq<Entry>)
    requires AllFrameable(c, es)
    ensures |FrameAll(c, es)| >= HEADER_SIZE * |es|
  {
    hide Payload;
    if |es| > 0 { FramesTakeRoom(c, es[..|es| - 1]); }
  }

  /** Sync makes every accepted entry durable if and only if none was still on its way and
      none has been lost: it flushes the writer and fsyncs the file, but leaves the batch,
      the hand and the channel where they are. Draining the channel is not enough. */
  lemma SyncDurableIff(cfg: Config, origin: Bytes, w: Wal)
    requires Conserved(cfg, origin, w) && !w.closed
    ensures var v := Sync(w);
            && AllFrameable(cfg.codec, w.past.accepted)
            && Joined(v.past.rotated) + v.file[..v.synced] == origin + FrameAll(cfg.codec, w.past.accepted)
            <==> w.pending == [] && w.hand.None? && w.channel == [] && w.past.lost == []
  {
    hide FrameAll, Frameable, Within, Laid;
    var v, there := Sync(w), Flat(w.past.moved) + w.past.framed;
    AllBytesConserved(cfg, origin, w);
    FlushWriterKeepsBytes(w);
    assert Joined(v.past.rotated) + v.file[..v.synced] == Joined(w.past.rotated) + w.file + w.writer;
    if AllFrameable(cfg.codec, w.past.accepted) {
      PartsFrameable(cfg.codec, there, InFlight(w));
      FramesConcat(cfg.codec, there, InFlight(w));
      FramesTakeRoom(cfg.codec, InFlight(w));
    }
    if InFlight(w) == [] { assert there + [] == there; }
  }

  /** And for a log opened on an aligned file the durable part then reads as everything accepted. */
  lemma SyncReadableIff(cfg: Config, origin: Bytes, w: Wal)
    requires cfg.codec.Lawful() && Aligned(origin) && Conserved(cfg, origin, w) && !w.closed
    ensures var v := Sync(w);
            ScanFiles(cfg.codec, v.past.rotated) + Scan(cfg.codec, v.file[..v.synced])
              == Scan(cfg.codec, origin) + Survivors(cfg.codec, w.past.accepted)
            <==> w.pending == [] && w.hand.None? && w.channel == [] && w.past.lost == []
  {
    HeldIsAccepted(cfg, origin, w);
    NothingLost(cfg, origin, w);
    var v := Sync(w);
    hide Scan, ScanFiles, Survivors, Conserved, Placed;
    FlushWriterKeepsBytes(w);
    assert v.file[..v.synced] == w.file + w.writer;
    var durable := ScanFiles(cfg.codec, v.past.rotated) + Scan(cfg.codec, v.file[..v.synced]);
    assert Held(cfg.codec, w) == durable + Survivors(cfg.codec, InFlight(w));
    assert |Held(cfg.codec, w)| == |durable| + |InFlight(w)|;
    if |InFlight(w)| == 0 {
      assert Survivors(cfg.codec, InFlight(w)) == [];
    }
  }

  // Crashes.

  /** All that may have reached the current file when a crash falls inside a step: a flush
      or a rotation may have got as far as writing the whole batch. */
  function MayReach(cfg: Config, w: Wal): Bytes
    requires |w.writer| <= WRITER_SIZE
  {
    FlushWriter(FlushBatch(cfg, w)).file
  }

  /** What the current file begins with: what was there when the log was opened, or nothing. */
  function Start(origin: Bytes, w: Wal): Bytes {
    if w.past.rotated == [] then origin else []
  }

  /** The entries of this log that are in the current file or may get there. */
  function Reaching(c: LogCodec, w: Wal): seq<Entry> {
    w.past.framed + w.pending[..Writable(c, w.pending)]
  }

  lemma MayReachIs(cfg: Config, origin: Bytes, w: Wal)
    requires Conserved(cfg, origin, w)
    ensures AllFrameable(cfg.codec, Reaching(cfg.codec, w))
    ensures MayReach(cfg, w) == Start(origin, w) + FrameAll(cfg.codec, Reaching(cfg.codec, w))
    ensures w.file <= MayReach(cfg, w)
    ensures Sized(w) && |Start(origin, w)| <= |w.file| && (w.past.rotated == [] ==> |Start(origin, w)| <= w.synced)
  {
    hide FlushBatch, FrameAll, Frameable, Flat, Writable, Within, InFlight;
    FlushBatchExactly(cfg, w);
    FlushBatchConserves(cfg, origin, w);
    FlushWriterKeepsBytes(FlushBatch(cfg, w));
    var v := FlushBatch(cfg, w);
    var files, parts := v.past.rotated + [v.file + v.writer], v.past.moved + [v.past.framed];
    var last := |v.past.rotated|;
    assert files[last] == v.file + v.writer && parts[last] == v.past.framed;
  }

  /** Of the current file a crash leaves the fsynced bytes and any further prefix of what
      may have reached it. That much is read back: from a file that was aligned when it was
      begun, exactly the entries of this log whose frames are whole; from one that was torn,
      what the scanner makes of them behind the torn frame. Nothing fsynced is missing. */
  lemma CrashReads(cfg: Config, origin: Bytes, w: Wal, k: nat)
    requires cfg.codec.Lawful() && Conserved(cfg, origin, w)
    requires w.synced <= k <= |MayReach(cfg, w)|
    ensures AllFrameable(cfg.codec, Reaching(cfg.codec, w))
    ensures var c, start, es := cfg.codec, Start(origin, w), Reaching(cfg.codec, w);
            var read, t := Scan(c, MayReach(cfg, w)[..k]), Torn(start);
            && |start| <= k <= |start| + |FrameAll(c, es)|
            && MayReach(cfg, w)[|start|..k] == FrameAll(c, es)[..k - |start|]
            && Scan(c, w.file[..w.synced]) <= read
            && (Aligned(start) ==> read == Scan(c, start) + Survivors(c, es[..WholeFrames(c, es, k - |start|)]))
            && var appended := MayReach(cfg, w)[|start|..k];
               && (Extent(t + appended).None? ==> read == Scan(c, start))
               && (Extent(t + appended).Some? ==>
                     var n := Extent(t + appended).value;
                     && |t| < n <= |t| + |appended| && |Scan(c, (t + appended)[..n])| <= 1
                     && read == Scan(c, start) + Scan(c, (t + appended)[..n]) + Scan(c, appended[n - |t|..]))
  {
    hide FlushBatch, MayReach, Scan, Aligned, FrameAll, Frameable, Survivors, Conserved, Reaching, WholeFrames,
      Extent, Torn, LogCodec.Lawful;
    var c, start, es := cfg.codec, Start(origin, w), Reaching(cfg.codec, w);
    MayReachIs(cfg, origin, w);
    var all := MayReach(cfg, w);
    var appended := FrameAll(c, es)[..k - |start|];
    assert all[..k] == start + appended && all[|start|..k] == appended;
    SyncedIsRead(c, all, w, k);
    ScanAfterTear(c, start, appended);
    if Aligned(start) {
      ScanConcat(c, start, appended);
      TornTail(c, es, k - |start|);
    }
  }

  lemma SyncedIsRead(c: LogCodec, all: Bytes, w: Wal, k: nat)
    requires w.file <= all && w.synced <= |w.file| && w.synced <= k <= |all|
    ensures Scan(c, w.file[..w.synced]) <= Scan(c, all[..k])
  {
    assert all[..k][..w.synced] == w.file[..w.synced];
    ScanOfPrefix(c, all[..k], w.synced);
  }
}
