/** The log object and its methods (modules/wal/wal.go, modules/wal/wal_sync.go). Each method
    takes the machine of WalPipeline through one step. */
module WalLog {
  import opened Values
  import opened Replay
  import opened Frames
  import opened WalPipeline

  const CHANNEL_SIZE := 1000

  datatype AppendResult = Queued | LogClosed | ChannelFull

  class Log {
    const cfg: Config
    var channel: seq<Entry>
    var hand: Option<Entry>
    var pending: seq<Entry>
    var writer: Bytes
    var file: Bytes
    var synced: nat
    var size: nat
    var entries: nat
    var flushes: nat
    var rotating: bool
    var closed: bool
    ghost var past: History

    ghost function State(): Wal
      reads this
    {
      Wal(channel, hand, pending, writer, file, synced, size, entries, flushes, rotating, closed, past)
    }

    ghost predicate Valid()
      reads this
    {
      |writer| <= WRITER_SIZE
    }

    /** New: open for append whatever file is there. */
    constructor (cfg: Config, existing: Bytes)
      ensures this.cfg == cfg && Valid() && State() == Opened(existing)
    {
      this.cfg := cfg;
      channel, hand, pending := [], None, [];
      writer, file, synced := [], existing, |existing|;
      size, entries, flushes := |existing|, 0, 0;
      rotating, closed := false, false;
      past := History([], [], [], [], []);
    }

    /** The send gives up after five seconds if the channel is still full. */
    method Append(e: Entry, timedOut: bool) returns (r: AppendResult)
      requires Valid() && (timedOut ==> |channel| >= CHANNEL_SIZE)
      modifies this
      ensures Valid() && r == if old(closed) then LogClosed else if timedOut then ChannelFull else Queued
      ensures State() == if r.Queued? then WalPipeline.Append(old(State()), e) else old(State())
    {
      if closed { return LogClosed; }
      if timedOut { return ChannelFull; }
      channel, past := channel + [e], past.(accepted := past.accepted + [e]);
      r := Queued;
    }

    /** The batch writer's receive: false when the channel is empty. */
    method Receive() returns (got: bool)
      requires Valid() && hand.None?
      modifies this
      ensures Valid() && got == (|old(channel)| > 0)
      ensures State() == Take(old(State()))
    {
      got := |channel| > 0;
      if got {
        hand, channel := Some(channel[0]), channel[1..];
      }
    }

    /** The batch writer's append under batchMutex; the result says whether to flush now. */
    method AddToBatch() returns (shouldFlush: bool)
      requires Valid() && hand.Some?
      modifies this
      ensures Valid() && shouldFlush == (|pending| >= cfg.batchSize)
      ensures State() == PutInBatch(old(State()))
    {
      pending, hand := pending + [hand.value], None;
      shouldFlush := |pending| >= cfg.batchSize;
    }

    /** bufio's Write loop. */
    method BufferedWrite(data: Bytes)
      requires Valid()
      modifies this`file, this`writer
      ensures Valid()
      ensures Output(file, writer) == WalPipeline.BufferedWrite(Output(old(file), old(writer)), data)
    {
      var p := data;
      while |p| > WRITER_SIZE - |writer|
        invariant Valid()
        invariant WalPipeline.BufferedWrite(Output(file, writer), p)
               == WalPipeline.BufferedWrite(Output(old(file), old(writer)), data)
        decreases |p|, |writer|
      {
        if |writer| == 0 {
          file, p := file + p, [];
          assert WalPipeline.BufferedWrite(Output(file, writer), []) == Output(file, writer) by {
            assert writer + [] == writer;
          }
        } else {
          var room := WRITER_SIZE - |writer|;
          writer, p := writer + p[..room], p[room..];
          file, writer := file + writer, [];
        }
      }
      writer := writer + p;
    }

    method WriteEntry(e: Entry) returns (ok: bool)
      requires Valid()
      modifies this
      ensures Valid() && ok == Frameable(cfg.codec, e)
      ensures State() == if ok then WalPipeline.WriteEntry(cfg, old(State()), e) else old(State())
    {
      hide WalPipeline.BufferedWrite, PutUint32;
      var sealed := Payload(cfg.codec, e);
      if sealed.None? { return false; }
      var data := sealed.value;
      BufferedWriteKeepsBytes(Output(file, writer), PutUint32(|data|) + PutUint32(cfg.codec.checksum(data)));
      BufferedWrite(PutUint32(|data|) + PutUint32(cfg.codec.checksum(data)));
      BufferedWrite(data);
      size, entries, past := size + HEADER_SIZE + |data|, entries + 1, past.(framed := past.framed + [e]);
      if size > cfg.maxSize {
        rotating := true;
      }
      ok := true;
    }

    method FlushWriter()
      requires Valid()
      modifies this`file, this`writer
      ensures Valid() && State() == WalPipeline.FlushWriter(old(State()))
    {
      file, writer := file + writer, [];
    }

    method SyncFile()
      requires Valid()
      modifies this`synced
      ensures Valid() && State() == WalPipeline.SyncFile(old(State()))
    {
      synced := |file|;
    }

    /** The loop of flushBatchLocked: stop at the first entry that cannot be written. */
    method WriteBatch(batch: seq<Entry>) returns (ok: bool)
      requires Valid()
      modifies this
      ensures Valid() && ok == (Writable(cfg.codec, batch) == |batch|)
      ensures State() == WriteEntries(cfg, old(State()), batch[..Writable(cfg.codec, batch)])
    {
      hide WalPipeline.WriteEntry, Payload;
      ok := true;
      var i := 0;
      while i < |batch| && ok
        invariant 0 <= i <= |batch| && Valid()
        invariant AllFrameable(cfg.codec, batch[..i])
        invariant State() == WriteEntries(cfg, old(State()), batch[..i])
        invariant !ok ==> i < |batch| && !Frameable(cfg.codec, batch[i])
        decreases |batch| - i, ok
      {
        ok := WriteEntry(batch[i]);
        if ok {
          assert batch[..i + 1][..i] == batch[..i];
          i := i + 1;
        }
      }
      WritableIs(cfg.codec, batch, i);
    }

    method FlushBatchLocked() returns (ok: bool)
      requires Valid()
      modifies this
      ensures Valid() && ok == (Writable(cfg.codec, old(pending)) == |old(pending)|)
      ensures State() == FlushBatch(cfg, old(State()))
    {
      if |pending| == 0 { return true; }
      hide Writable, WriteEntries, Frameable, WalPipeline.FinishFlush;
      var batch := pending;
      pending, past := [], past.(lost := past.lost + batch[Writable(cfg.codec, batch)..]);
      ok := WriteBatch(batch);
      if ok {
        FinishFlush();
      }
    }

    method FinishFlush()
      requires Valid()
      modifies this
      ensures Valid() && State() == WalPipeline.FinishFlush(cfg, old(State()))
    {
      FlushWriter();
      flushes := flushes + 1;
      if cfg.groupCommit {
        SyncFile();
      }
    }

    method Sync() returns (ok: bool)
      requires Valid()
      modifies this
      ensures Valid() && ok == !old(closed)
      ensures State() == WalPipeline.Sync(old(State()))
    {
      if closed { return false; }
      FlushWriter();
      SyncFile();
      ok := true;
    }

    method MoveAway()
      requires Valid()
      modifies this`past, this`file, this`writer, this`synced, this`size
      ensures Valid() && State() == WalPipeline.MoveAway(old(State()))
    {
      past := past.(rotated := past.rotated + [file], moved := past.moved + [past.framed], framed := []);
      file, writer, synced, size := [], [], 0, 0;
    }

    method RotateFile() returns (ok: bool)
      requires Valid() && rotating
      modifies this
      ensures Valid() && State() == Rotate(cfg, old(State()))
      ensures ok == (old(closed) || Writable(cfg.codec, old(pending)) == |old(pending)|)
    {
      if closed { return true; }
      hide FlushBatch, Writable, WalPipeline.FlushWriter, WalPipeline.SyncFile, WalPipeline.MoveAway;
      ok := FlushBatchLocked();
      if ok {
        FlushWriter();
        SyncFile();
        MoveAway();
      }
    }

    /** One turn of the rotation watcher: nothing unless the flag is up, and down it
        comes whether or not the rotation succeeded. */
    method RotationTurn()
      requires Valid()
      modifies this
      ensures Valid()
      ensures State() == Rotate(cfg, old(State())).(rotating := false)
    {
      if rotating {
        var _ := RotateFile();
        rotating := false;
      }
    }

    /** ReadAll of the current file. */
    method ReadBack() returns (read: seq<Entry>)
      ensures read == Scan(cfg.codec, file)
    {
      read := ReadAll(cfg.codec, Some(file));
    }
  }

  lemma WritableIs(c: LogCodec, batch: seq<Entry>, n: nat)
    requires n <= |batch| && AllFrameable(c, batch[..n])
    requires n < |batch| ==> !Frameable(c, batch[n])
    ensures Writable(c, batch) == n
  {
  }
}
