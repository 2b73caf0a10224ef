/** Runs of the crash machine that end in a loss: what the conditions of the exact theorems
    are there to exclude can be reached. */
module CrashFailures {
  import opened Values
  import opened Replay
  import opened WriteOps
  import opened Frames
  import opened WalPipeline
  import opened Storage
  import opened Transactions
  import opened Reopening
  import opened CrashRecovery

  function WriteText(chars: Bytes): Operation {
    Operation(OpWrite, "t", "k", Text(chars), map[], true)
  }

  function TextEntry(chars: Bytes): Entry {
    Entry(OP_WRITE, "t", "k", Text(chars))
  }

  /** A store whose one cell holds a text, or none. */
  function Holding(content: Option<Bytes>): Data {
    match content
    case None => map["t" := map[]]
    case Some(chars) => map["t" := map["k" := Text(chars)]]
  }

  lemma HoldingNext(content: Option<Bytes>, chars: Bytes)
    ensures Effect(Holding(content), WriteText(chars)) == Holding(Some(chars))
  {
    var rows := Holding(content)["t"];
    assert Put(rows, "k", Text(chars)) == map["k" := Text(chars)];
  }

  lemma PerformWrite(u: Setup, s: System, content: Option<Bytes>, chars: Bytes)
    requires s.data == Holding(content) && !s.wal.closed
    ensures Allowed(u, s, Perform(WriteText(chars), []))
    ensures NextSystem(u, s, Perform(WriteText(chars), [])) ==
            s.(data := Holding(Some(chars)), wal := Append(s.wal, TextEntry(chars)),
               deeds := s.deeds + [Journaled(TextEntry(chars))])
  {
    var es := [TextEntry(chars)];
    assert EntriesOf(s.data, WriteText(chars), []) == es;
    assert es[..0] == [];
    AppendAllConcat(s.wal, [], []);
    HoldingNext(content, chars);
  }

  /** A log that has taken one more entry, as far as its batch. */
  function Batched(w: Wal, e: Entry): Wal {
    w.(pending := w.pending + [e], past := w.past.(accepted := w.past.accepted + [e]))
  }

  function OneInBatch(origin: Bytes, e: Entry): Wal {
    Batched(Opened(origin), e)
  }

  function InBatch(s0: System, chars: Bytes): System {
    s0.(data := Holding(Some(chars)), wal := Batched(s0.wal, TextEntry(chars)),
        deeds := s0.deeds + [Journaled(TextEntry(chars))])
  }

  function ToBatch(chars: Bytes): seq<SystemStep> {
    [Perform(WriteText(chars), []), Log(StepTake), Log(StepPut)]
  }

  /** One step of a log worker. */
  lemma LogNext(u: Setup, z: System, steps: seq<SystemStep>, s: System, w: WalPipeline.Step)
    requires RunSystem(u, z, steps) == Some(s) && !w.StepAppend? && |s.wal.writer| <= WRITER_SIZE
    ensures RunSystem(u, z, steps + [Log(w)]) == Some(s.(wal := Next(u.cfg, s.wal, w)))
  {
    RunNext(u, z, steps, s, Log(w));
  }

  lemma ThroughTheHand(cfg: Config, w: Wal, e: Entry)
    requires w.channel == [] && w.hand == None && !w.closed && |w.writer| <= WRITER_SIZE
    ensures var v := Append(w, e);
            && |Next(cfg, v, StepTake).writer| <= WRITER_SIZE
            && Next(cfg, Next(cfg, v, StepTake), StepPut) == Batched(w, e)
  {
  }

  /** A write goes from the channel to the batch. */
  lemma WriteReachesBatch(u: Setup, z: System, steps: seq<SystemStep>, s0: System, content: Option<Bytes>, chars: Bytes)
    requires RunSystem(u, z, steps) == Some(s0) && s0.data == Holding(content)
    requires s0.wal.channel == [] && s0.wal.hand == None && !s0.wal.closed && |s0.wal.writer| <= WRITER_SIZE
    ensures RunSystem(u, z, steps + ToBatch(chars)) == Some(InBatch(s0, chars))
  {
    var write := Perform(WriteText(chars), []);
    PerformWrite(u, s0, content, chars);
    ThroughTheHand(u.cfg, s0.wal, TextEntry(chars));
    hide RunSystem, Next, Holding, Effect, EntriesOf, TextEntry, WriteText, Batched;
    RunNext(u, z, steps, s0, write);
    var s1 := NextSystem(u, s0, write);
    LogNext(u, z, steps + [write], s1, StepTake);
    LogNext(u, z, steps + [write] + [Log(StepTake)], s1.(wal := Next(u.cfg, s1.wal, StepTake)), StepPut);
    assert steps + [write] + [Log(StepTake)] + [Log(StepPut)] == steps + ToBatch(chars);
  }

  /** And from the batch to the file. */
  lemma FlushedOne(cfg: Config, origin: Bytes, e: Entry)
    requires Frameable(cfg.codec, e)
    ensures var w := OneInBatch(origin, e);
            var v := FlushBatch(cfg, w);
            && v.file == origin + Frame(cfg.codec, e) && v.writer == [] && v.pending == []
            && v.rotating == (|origin| + |Frame(cfg.codec, e)| > cfg.maxSize)
            && v.past.rotated == [] && v.channel == [] && v.hand == None && !v.closed
            && v.synced <= |v.file|
            && MayReach(cfg, w) == origin + Frame(cfg.codec, e)
  {
    hide Frame, Frameable, FrameAll, Writable, FlushBatch;
    var w := OneInBatch(origin, e);
    OneFrame(cfg.codec, e);
    assert w.pending == [e];
    FlushBatchExactly(cfg, w);
    assert origin + [] + Frame(cfg.codec, e) == origin + Frame(cfg.codec, e);
    var v := FlushBatch(cfg, w);
    assert v.file + [] == v.file;
    assert MayReach(cfg, w) == v.file + v.writer;
  }

  lemma OneFrame(c: LogCodec, e: Entry)
    requires Frameable(c, e)
    ensures Writable(c, [e]) == 1 && [e][..1] == [e]
    ensures FrameAll(c, [e]) == Frame(c, e)
  {
    AllWritable(c, [e]);
    assert [e][..0] == [];
  }

  function InFileNow(u: Setup, s0: System, chars: Bytes): System {
    InBatch(s0, chars).(wal := FlushBatch(u.cfg, OneInBatch(s0.origin, TextEntry(chars))))
  }

  /** The steps that take one write from the caller to the file. */
  function ToFile(chars: Bytes): seq<SystemStep> {
    ToBatch(chars) + [Log(StepFlushBatch)]
  }

  lemma WriteReachesFile(u: Setup, z: System, steps: seq<SystemStep>, s0: System, content: Option<Bytes>, chars: Bytes)
    requires RunSystem(u, z, steps) == Some(s0)
    requires s0.data == Holding(content) && s0.wal == Opened(s0.origin) && Frameable(u.cfg.codec, TextEntry(chars))
    ensures RunSystem(u, z, steps + ToFile(chars)) == Some(InFileNow(u, s0, chars))
  {
    WriteReachesBatch(u, z, steps, s0, content, chars);
    hide Frameable, RunSystem, FlushBatch, ToBatch;
    LogNext(u, z, steps + ToBatch(chars), InBatch(s0, chars), StepFlushBatch);
    assert steps + ToBatch(chars) + [Log(StepFlushBatch)] == steps + ToFile(chars);
  }

  lemma NothingToFlush(cfg: Config, w: Wal)
    requires w.pending == [] && w.writer == []
    ensures MayReach(cfg, w) == w.file
  {
    assert w.file + [] == w.file;
  }

  // The snapshot ahead of the log.

  /** The second write is still in the channel when the snapshot is saved. */
  function GetsAhead(): seq<SystemStep> {
    ToFile([1]) + [Perform(WriteText([2]), []), Save(NoFault)]
  }

  lemma AheadRun(u: Setup, s0: System)
    requires s0.data == Holding(None) && s0.wal == Opened([]) && s0.origin == []
    requires Frameable(u.cfg.codec, TextEntry([1])) && Frameable(u.cfg.codec, TextEntry([2]))
    requires Encode(u.files, Holding(Some([2]))).Some?
    ensures var end := RunSystem(u, s0, GetsAhead());
            && end.Some? && end.value.data == Holding(Some([2]))
            && end.value.file == Encode(u.files, Holding(Some([2])))
            && end.value.wal.file == Frame(u.cfg.codec, TextEntry([1]))
            && end.value.wal.pending == [] && end.value.wal.writer == [] && end.value.wal.synced <= |end.value.wal.file|
  {
    NoSteps(u, s0);
    WriteReachesFile(u, s0, [], s0, None, [1]);
    FlushedOne(u.cfg, [], TextEntry([1]));
    hide Frame, Scan, RunSystem, Frameable, Encode, FlushBatch, MayReach, Holding, ToFile;
    var s2 := InFileNow(u, s0, [1]);
    PerformWrite(u, s2, Some([1]), [2]);
    var steps, write := [] + ToFile([1]), Perform(WriteText([2]), []);
    RunNext(u, s0, steps, s2, write);
    RunNext(u, s0, steps + [write], NextSystem(u, s2, write), Save(NoFault));
    assert GetsAhead() == steps + [write] + [Save(NoFault)];
  }

  /** It regresses. The second write is acknowledged and is in the snapshot on disk; after a
      crash that loses not one byte of either file, reopening brings back the first. */
  lemma SnapshotAheadRegresses(u: Setup, file0: Option<Bytes>)
    requires u.cfg.codec.Lawful() && Loaded(u.files, Disk(file0, None)) == Some(Holding(None))
    requires Frameable(u.cfg.codec, TextEntry([1])) && Frameable(u.cfg.codec, TextEntry([2]))
    requires Encode(u.files, Holding(Some([2]))).Some? && Reloads(u.files, Holding(Some([2])))
    ensures exists s, k ::
              && Reached(u, file0, [], GetsAhead(), s) && CanCrash(u, s, k) && k == |s.wal.file|
              && s.data == Snapshot(u, s) == Holding(Some([2]))
              && Cell(AfterCrash(u, s, k), "t", "k") == Some(Text([1]))
  {
    ScanNothing(u.cfg.codec);
    var s0 := OpenSystem(u, file0, []);
    AheadRun(u, s0);
    var s := RunSystem(u, s0, GetsAhead()).value;
    hide Frame, Scan, RunSystem, Frameable, Encode, Apply, MayReach, GetsAhead, Holding;
    var k := |s.wal.file|;
    NothingToFlush(u.cfg, s.wal);
    assert s.wal.file[..k] == s.wal.file;
    assert CanCrash(u, s, k);
    Replays(u, s, k);
    ReadOne(u.cfg.codec, s.data, TextEntry([1]));
    assert Reached(u, file0, [], GetsAhead(), s);
  }

  /** Replaying one written frame. */
  lemma ReadOne(c: LogCodec, data: Data, e: Entry)
    requires c.Lawful() && Frameable(c, e) && e.opType == OP_WRITE && e.value.Text?
    ensures Cell(Apply(data, Scan(c, Frame(c, e))), e.table, e.key) == Some(e.value)
  {
    FrameScans(c, e);
    hide Frame, Scan, Frameable, Apply;
    assert Survivor(c, e) == e;
    ReplayCell(data, [e], e.table, e.key);
    NetIsLastTouch([e], e.table, e.key, 0);
  }

  // A crash that tears a frame, and the next life of the log.

  /** The first write is torn by a crash that leaves k bytes of its frame; the second, in the
      next life, is flushed and fsynced. */
  function TearsAndGoesOn(first: Bytes, second: Bytes, k: nat): seq<SystemStep> {
    TornLifeSteps(first, k) + ToFile(second) + [Log(StepSync)]
  }

  function TornLifeSteps(first: Bytes, k: nat): seq<SystemStep> {
    ToBatch(first) + [Crash(k)]
  }

  lemma TornLife(u: Setup, file0: Option<Bytes>, s0: System, first: Bytes, k: nat)
    requires Loaded(u.files, Disk(file0, None)) == Some(Holding(None))
    requires s0 == OpenSystem(u, file0, []) && s0.data == Holding(None)
    requires Frameable(u.cfg.codec, TextEntry(first))
    requires HEADER_SIZE <= k < |Frame(u.cfg.codec, TextEntry(first))|
    ensures RunSystem(u, s0, TornLifeSteps(first, k))
            == Some(OpenSystem(u, file0, Frame(u.cfg.codec, TextEntry(first))[..k]))
  {
    NoSteps(u, s0);
    WriteReachesBatch(u, s0, [], s0, None, first);
    FlushedOne(u.cfg, [], TextEntry(first));
    hide Frame, Scan, RunSystem, Frameable, FlushBatch, MayReach, Holding, Apply;
    var steps := [] + ToBatch(first);
    assert [] + Frame(u.cfg.codec, TextEntry(first)) == Frame(u.cfg.codec, TextEntry(first));
    RunNext(u, s0, steps, InBatch(s0, first), Crash(k));
    assert steps + [Crash(k)] == TornLifeSteps(first, k);
  }

  lemma NextLife(u: Setup, z: System, steps: seq<SystemStep>, s0: System, second: Bytes)
    requires RunSystem(u, z, steps) == Some(s0) && s0.data == Holding(None) && s0.wal == Opened(s0.origin)
    requires Frameable(u.cfg.codec, TextEntry(second))
    ensures var end := RunSystem(u, z, steps + ToFile(second) + [Log(StepSync)]);
            && end.Some? && end.value.data == Holding(Some(second)) && end.value.file == s0.file
            && end.value.wal.file == s0.origin + Frame(u.cfg.codec, TextEntry(second))
            && end.value.wal.synced == |end.value.wal.file| && end.value.wal.pending == [] && end.value.wal.writer == []
  {
    WriteReachesFile(u, z, steps, s0, None, second);
    FlushedOne(u.cfg, s0.origin, TextEntry(second));
    hide Frame, RunSystem, Frameable, FlushBatch, Holding, ToFile;
    var s2 := InFileNow(u, s0, second);
    RunNext(u, z, steps + ToFile(second), s2, Log(StepSync));
    assert s2.wal.file + [] == s2.wal.file;
  }

  lemma StillTorn(c: LogCodec, first: Entry, second: Entry, k: nat)
    requires c.Lawful() && Frameable(c, first) && Frameable(c, second)
    requires HEADER_SIZE <= k && k + |Frame(c, second)| < |Frame(c, first)|
    ensures Scan(c, Frame(c, first)[..k]) == [] && Scan(c, Frame(c, first)[..k] + Frame(c, second)) == []
  {
    FrameScans(c, first);
    hide Frame, Frameable, LogCodec.Lawful, ReadEntry, Scan;
    var torn, more := Frame(c, first)[..k], Frame(c, second);
    assert torn[0..4] == Frame(c, first)[0..4] == (torn + more)[0..4];
    assert Extent(torn).None? && Extent(torn + more).None?;
    TornReadsNothing(c, torn);
    TornReadsNothing(c, torn + more);
  }

  /** Fsynced entries are lost. The log is reopened for append with the torn frame still at
      its end; whatever is then written and fsynced, but is shorter than what that frame
      lacks, cannot be read back, though the next crash loses not one byte. */
  lemma TornReopenHidesSyncedEntries(u: Setup, file0: Option<Bytes>, first: Bytes, second: Bytes, k: nat)
    requires u.cfg.codec.Lawful() && Loaded(u.files, Disk(file0, None)) == Some(Holding(None))
    requires Frameable(u.cfg.codec, TextEntry(first)) && Frameable(u.cfg.codec, TextEntry(second))
    requires HEADER_SIZE <= k && k + |Frame(u.cfg.codec, TextEntry(second))| < |Frame(u.cfg.codec, TextEntry(first))|
    ensures exists s, j ::
              && Reached(u, file0, [], TearsAndGoesOn(first, second, k), s) && CanCrash(u, s, j)
              && s.data == Holding(Some(second)) && s.wal.synced == j == |s.wal.file|
              && AfterCrash(u, s, j) == Holding(None)
  {
    TearsRun(u, file0, first, second, k);
    StillTorn(u.cfg.codec, TextEntry(first), TextEntry(second), k);
    ScanNothing(u.cfg.codec);
    assert Apply(Holding(None), []) == Holding(None);
    var s := RunSystem(u, OpenSystem(u, file0, []), TearsAndGoesOn(first, second, k)).value;
    hide Frame, Scan, RunSystem, Frameable, Apply, MayReach, Holding, TearsAndGoesOn;
    var j := |s.wal.file|;
    NothingToFlush(u.cfg, s.wal);
    assert s.wal.file[..j] == s.wal.file;
    assert CanCrash(u, s, j);
    Replays(u, s, j);
    assert Reached(u, file0, [], TearsAndGoesOn(first, second, k), s);
  }

  lemma TearsRun(u: Setup, file0: Option<Bytes>, first: Bytes, second: Bytes, k: nat)
    requires u.cfg.codec.Lawful() && Loaded(u.files, Disk(file0, None)) == Some(Holding(None))
    requires Frameable(u.cfg.codec, TextEntry(first)) && Frameable(u.cfg.codec, TextEntry(second))
    requires HEADER_SIZE <= k && k + |Frame(u.cfg.codec, TextEntry(second))| < |Frame(u.cfg.codec, TextEntry(first))|
    ensures var end := RunSystem(u, OpenSystem(u, file0, []), TearsAndGoesOn(first, second, k));
            && end.Some? && end.value.data == Holding(Some(second)) && end.value.file == file0
            && end.value.wal.file == Frame(u.cfg.codec, TextEntry(first))[..k] + Frame(u.cfg.codec, TextEntry(second))
            && end.value.wal.synced == |end.value.wal.file| && end.value.wal.pending == [] && end.value.wal.writer == []
  {
    var c := u.cfg.codec;
    ScanNothing(c);
    StillTorn(c, TextEntry(first), TextEntry(second), k);
    assert Apply(Holding(None), []) == Holding(None);
    hide Frame, Scan, RunSystem, Frameable, Apply, Holding, ToFile, TornLifeSteps;
    var s0 := OpenSystem(u, file0, []);
    TornLife(u, file0, s0, first, k);
    NextLife(u, s0, TornLifeSteps(first, k), OpenSystem(u, file0, Frame(c, TextEntry(first))[..k]), second);
  }

  // A rotation past the snapshot.

  function RotatesAway(chars: Bytes): seq<SystemStep> {
    ToFile(chars) + [Log(StepRotate)]
  }

  lemma RotationRun(u: Setup, s0: System, chars: Bytes)
    requires s0.data == Holding(None) && s0.wal == Opened(s0.origin)
    requires Frameable(u.cfg.codec, TextEntry(chars))
    requires |s0.origin| + |Frame(u.cfg.codec, TextEntry(chars))| > u.cfg.maxSize
    ensures var end := RunSystem(u, s0, RotatesAway(chars));
            && end.Some? && end.value.data == Holding(Some(chars)) && end.value.file == s0.file
            && end.value.wal.past.rotated == [s0.origin + Frame(u.cfg.codec, TextEntry(chars))]
            && end.value.wal.file == [] && end.value.wal.pending == [] && end.value.wal.writer == []
            && end.value.wal.synced == 0
  {
    NoSteps(u, s0);
    WriteReachesFile(u, s0, [], s0, None, chars);
    FlushedOne(u.cfg, s0.origin, TextEntry(chars));
    var s1 := InFileNow(u, s0, chars);
    assert [] + ToFile(chars) == ToFile(chars);
    hide Frame, RunSystem, Frameable, FlushBatch, Holding, Rotate, ToFile, OneInBatch, TextEntry, InFileNow;
    RotatesIdle(u.cfg, s1.wal);
    assert [] + [s1.wal.file] == [s1.wal.file];
    LogNext(u, s0, ToFile(chars), s1, StepRotate);
  }

  lemma RotatesIdle(cfg: Config, w: Wal)
    requires w.pending == [] && w.writer == [] && w.rotating && !w.closed
    ensures var v := Rotate(cfg, w);
            && v.past.rotated == w.past.rotated + [w.file] && v.file == [] && v.writer == [] && v.pending == []
            && v.synced == 0
  {
    assert w.file + [] == w.file;
  }

  /** A rotation loses what the snapshot does not cover. An entry is flushed and fsynced, its
      file is full and is moved away, and no save has happened since: it is on disk, but
      reopening does not look there. */
  lemma RotationLosesSyncedEntries(u: Setup, file0: Option<Bytes>, origin: Bytes, chars: Bytes)
    requires u.cfg.codec.Lawful() && Loaded(u.files, Disk(file0, None)) == Some(Holding(None))
    requires Scan(u.cfg.codec, origin) == [] && Frameable(u.cfg.codec, TextEntry(chars))
    requires |origin| + |Frame(u.cfg.codec, TextEntry(chars))| > u.cfg.maxSize
    ensures exists s, k ::
              && Reached(u, file0, origin, RotatesAway(chars), s) && CanCrash(u, s, k) && k == |s.wal.file|
              && s.data == Holding(Some(chars)) && s.wal.past.rotated == [origin + Frame(u.cfg.codec, TextEntry(chars))]
              && AfterCrash(u, s, k) == Holding(None)
  {
    var s0 := OpenSystem(u, file0, origin);
    assert Apply(Holding(None), []) == Holding(None);
    RotationRun(u, s0, chars);
    var s := RunSystem(u, s0, RotatesAway(chars)).value;
    NothingToFlush(u.cfg, s.wal);
    ScanNothing(u.cfg.codec);
    hide Frame, Scan, RunSystem, Frameable, Apply, MayReach, Holding, RotatesAway;
    assert s.wal.file[..0] == [];
    assert CanCrash(u, s, 0);
    Replays(u, s, 0);
    assert Reached(u, file0, origin, RotatesAway(chars), s);
  }

  // A committed transaction, which is not in the log.

  /** A transaction commits and the store is saved. */
  function CommittedAndSaved(u: Setup, s: System, changes: Changes): System {
    NextSystem(u, NextSystem(u, s, Commit(changes)), Save(NoFault))
  }

  /** In any state whatever a transaction commits and the store is saved, in a form that loads
      as it was. What a crash then comes back as is that store if and only if the entries
      read back make no table that it lacks, and leave nothing in a cell that the commit has
      not left there: whatever is on its way, rotated, lost, torn or widened. */
  lemma CommitSurvivesCrashIff(u: Setup, s: System, changes: Changes, k: nat)
    requires Encode(u.files, ApplyChanges(s.data, changes)).Some? && Reloads(u.files, ApplyChanges(s.data, changes))
    requires CanCrash(u, CommittedAndSaved(u, s, changes), k)
    ensures var saved := CommittedAndSaved(u, s, changes);
            var committed, read := ApplyChanges(s.data, changes), ReadBack(u, saved, k);
            && saved.data == Snapshot(u, saved) == committed
            && (AfterCrash(u, saved, k) == committed <==>
                && Created(read) <= committed.Keys
                && forall t, key :: Net(read, t, key).Some? ==> Cell(committed, t, key) == Net(read, t, key).value)
  {
    hide Apply, Net, Created, ApplyChanges, MayReach, Scan, Encode;
    LiveSnapshotSurvivesIff(u, CommittedAndSaved(u, s, changes), k);
  }

  /** If it was the first commit and all of the log is read back as it was written, then if
      and only if the commit left every cell that the log touches as it was. */
  lemma CommitSurvivesWholeLogIff(u: Setup, s: System, changes: Changes, k: nat)
    requires Sound(u, s) && NoCommits(s.deeds)
    requires Encode(u.files, ApplyChanges(s.data, changes)).Some? && Reloads(u.files, ApplyChanges(s.data, changes))
    requires CanCrash(u, CommittedAndSaved(u, s, changes), k)
    requires ReadBack(u, CommittedAndSaved(u, s, changes), k) == Written(u, s)
    ensures var committed := ApplyChanges(s.data, changes);
            AfterCrash(u, CommittedAndSaved(u, s, changes), k) == committed <==>
            forall t, key :: Net(Written(u, s), t, key).Some? ==> Cell(committed, t, key) == Cell(s.data, t, key)
  {
    hide Apply, Net, Created, ApplyChanges, Sound, Scan, MayReach, Encode, Written, CommittedAndSaved, AfterCrash,
      CanCrash, Snapshot, ReadBack, Reloads, NoCommits;
    StoreAbsorbsLog(u, s, 0);
    assert Written(u, s)[0..] == Written(u, s);
    CommitSurvivesCrashIff(u, s, changes, k);
    Replays(u, CommittedAndSaved(u, s, changes), k);
    SavedCommitSurvivesIff(s.data, changes, Written(u, s));
  }

  lemma CommitRun(u: Setup, s0: System, steps: seq<SystemStep>, s: System, changes: Changes)
    requires RunSystem(u, s0, steps) == Some(s)
    ensures RunSystem(u, s0, steps + [Commit(changes), Save(NoFault)]) == Some(CommittedAndSaved(u, s, changes))
  {
    RunNext(u, s0, steps, s, Commit(changes));
    RunNext(u, s0, steps + [Commit(changes)], NextSystem(u, s, Commit(changes)), Save(NoFault));
    assert steps + [Commit(changes)] + [Save(NoFault)] == steps + [Commit(changes), Save(NoFault)];
  }

  const Overwrite: Changes := map["t" := map["k" := Text([2])]]

  function OverwritesAndSaves(): seq<SystemStep> {
    ToFile([1]) + [Commit(Overwrite), Save(NoFault)]
  }

  lemma OverwriteRun(u: Setup, s0: System)
    requires s0.data == Holding(None) && s0.wal == Opened([]) && s0.origin == []
    requires Frameable(u.cfg.codec, TextEntry([1])) && Encode(u.files, Holding(Some([2]))).Some?
    ensures var end := RunSystem(u, s0, OverwritesAndSaves());
            && end.Some? && end.value.data == Holding(Some([2]))
            && end.value.file == Encode(u.files, Holding(Some([2])))
            && end.value.wal.file == Frame(u.cfg.codec, TextEntry([1]))
            && end.value.wal.pending == [] && end.value.wal.writer == []
            && end.value.wal.synced <= |end.value.wal.file|
  {
    NoSteps(u, s0);
    WriteReachesFile(u, s0, [], s0, None, [1]);
    assert [] + ToFile([1]) == ToFile([1]);
    FlushedOne(u.cfg, [], TextEntry([1]));
    OverwriteHolds();
    hide Frame, RunSystem, Frameable, Encode, FlushBatch, ToFile, Holding, ApplyChanges;
    CommitRun(u, s0, ToFile([1]), InFileNow(u, s0, [1]), Overwrite);
    assert [] + Frame(u.cfg.codec, TextEntry([1])) == Frame(u.cfg.codec, TextEntry([1]));
  }

  /** It does not always: a cell that was written before the commit overwrote it comes back
      as it was, although the commit is in the snapshot on disk and not one byte is lost. */
  lemma SavedCommitLost(u: Setup, file0: Option<Bytes>)
    requires u.cfg.codec.Lawful() && Loaded(u.files, Disk(file0, None)) == Some(Holding(None))
    requires Frameable(u.cfg.codec, TextEntry([1]))
    requires Encode(u.files, Holding(Some([2]))).Some? && Reloads(u.files, Holding(Some([2])))
    ensures exists s, k ::
              && Reached(u, file0, [], OverwritesAndSaves(), s) && CanCrash(u, s, k) && k == |s.wal.file|
              && s.data == Snapshot(u, s) == Holding(Some([2]))
              && Cell(AfterCrash(u, s, k), "t", "k") == Some(Text([1]))
  {
    ScanNothing(u.cfg.codec);
    assert Apply(Holding(None), []) == Holding(None);
    var s0 := OpenSystem(u, file0, []);
    OverwriteRun(u, s0);
    var s := RunSystem(u, s0, OverwritesAndSaves()).value;
    hide Frame, Scan, RunSystem, Frameable, Encode, Apply, MayReach, OverwritesAndSaves, Holding;
    var k := |s.wal.file|;
    NothingToFlush(u.cfg, s.wal);
    assert s.wal.file[..k] == s.wal.file;
    assert CanCrash(u, s, k);
    Replays(u, s, k);
    ReadOne(u.cfg.codec, s.data, TextEntry([1]));
    assert Reached(u, file0, [], OverwritesAndSaves(), s);
  }

  lemma OverwriteHolds()
    ensures ApplyChanges(Holding(Some([1])), Overwrite) == Holding(Some([2]))
  {
    var rows := Holding(Some([1]))["t"];
    assert Merged(rows, Overwrite["t"]) == map["k" := Text([2])];
  }

  const Elsewhere: Changes := map["u" := map["j" := Text([3])]]

  /** Leaving the logged cells alone is not enough: with the snapshot ahead of the log, a
      commit to another table is saved, and the crash undoes a write that was saved with it. */
  lemma CommitElsewhereRegresses(u: Setup, file0: Option<Bytes>)
    requires u.cfg.codec.Lawful() && Loaded(u.files, Disk(file0, None)) == Some(Holding(None))
    requires Frameable(u.cfg.codec, TextEntry([1])) && Frameable(u.cfg.codec, TextEntry([2]))
    requires Encode(u.files, Holding(Some([2]))).Some?
    requires Encode(u.files, ApplyChanges(Holding(Some([2])), Elsewhere)).Some?
    requires Reloads(u.files, ApplyChanges(Holding(Some([2])), Elsewhere))
    ensures exists s, k ::
              && Reached(u, file0, [], GetsAhead() + [Commit(Elsewhere), Save(NoFault)], s)
              && CanCrash(u, s, k) && k == |s.wal.file| && s.data == Snapshot(u, s)
              && Cell(s.data, "t", "k") == Some(Text([2]))
              && Cell(AfterCrash(u, s, k), "t", "k") == Some(Text([1]))
  {
    ScanNothing(u.cfg.codec);
    var s0 := OpenSystem(u, file0, []);
    assert Apply(Holding(None), []) == Holding(None);
    AheadRun(u, s0);
    ApplyChangesCell(Holding(Some([2])), Elsewhere, "t", "k");
    var ahead := RunSystem(u, s0, GetsAhead()).value;
    assert Cell(ApplyChanges(ahead.data, Elsewhere), "t", "k") == Some(Text([2]));
    hide Frame, Scan, RunSystem, Frameable, Encode, Apply, MayReach, GetsAhead, Holding, ApplyChanges;
    CommitRun(u, s0, GetsAhead(), ahead, Elsewhere);
    var s := CommittedAndSaved(u, ahead, Elsewhere);
    var k := |s.wal.file|;
    NothingToFlush(u.cfg, s.wal);
    assert s.wal.file[..k] == s.wal.file;
    assert CanCrash(u, s, k);
    Replays(u, s, k);
    ReadOne(u.cfg.codec, s.data, TextEntry([1]));
    assert Reached(u, file0, [], GetsAhead() + [Commit(Elsewhere), Save(NoFault)], s);
  }

  // An entry that cannot be written.

  function FailsToFlush(bad: Bytes, good: Bytes): seq<SystemStep> {
    ToBatch(bad) + ToBatch(good) + [Log(StepFlushBatch), Log(StepSync)]
  }

  lemma NoneWritable(cfg: Config, w: Wal)
    requires |w.pending| > 0 && !Frameable(cfg.codec, w.pending[0]) && |w.writer| <= WRITER_SIZE
    ensures FlushBatch(cfg, w) == w.(pending := [], past := w.past.(lost := w.past.lost + w.pending))
  {
    assert Writable(cfg.codec, w.pending) == 0;
    assert w.pending[..0] == [] && w.pending[0..] == w.pending;
  }

  lemma FailsRun(u: Setup, s0: System, bad: Bytes, good: Bytes)
    requires s0.data == Holding(None) && s0.wal == Opened([])
    requires !Frameable(u.cfg.codec, TextEntry(bad))
    ensures var end := RunSystem(u, s0, FailsToFlush(bad, good));
            && end.Some? && end.value.data == Holding(Some(good)) && end.value.file == s0.file
            && end.value.wal.past.lost == [TextEntry(bad), TextEntry(good)] && InFlight(end.value.wal) == []
            && end.value.wal.file == [] && end.value.wal.writer == [] && end.value.wal.pending == []
            && end.value.wal.synced == 0
  {
    NoSteps(u, s0);
    WriteReachesBatch(u, s0, [], s0, None, bad);
    var s1 := InBatch(s0, bad);
    WriteReachesBatch(u, s0, [] + ToBatch(bad), s1, Some(bad), good);
    var s2 := InBatch(s1, good);
    assert s2.wal.pending == [TextEntry(bad), TextEntry(good)];
    NoneWritable(u.cfg, s2.wal);
    hide Frameable, RunSystem, Holding, ToBatch, FlushBatch, TextEntry;
    var so := [] + ToBatch(bad) + ToBatch(good);
    LogNext(u, s0, so, s2, StepFlushBatch);
    LogNext(u, s0, so + [Log(StepFlushBatch)], s2.(wal := FlushBatch(u.cfg, s2.wal)), StepSync);
    assert so + [Log(StepFlushBatch)] + [Log(StepSync)] == FailsToFlush(bad, good);
  }

  /** One entry that cannot be framed, too large for one, takes the next with it. Both writes
      were acknowledged and the log has been synced; reopening finds neither. */
  lemma FailedFlushLosesBatch(u: Setup, file0: Option<Bytes>, bad: Bytes, good: Bytes)
    requires u.cfg.codec.Lawful() && Loaded(u.files, Disk(file0, None)) == Some(Holding(None))
    requires !Frameable(u.cfg.codec, TextEntry(bad)) && Frameable(u.cfg.codec, TextEntry(good))
    ensures exists s, k ::
              && Reached(u, file0, [], FailsToFlush(bad, good), s) && CanCrash(u, s, k)
              && s.data == Holding(Some(good)) && s.wal.past.lost == [TextEntry(bad), TextEntry(good)]
              && InFlight(s.wal) == [] && s.wal.synced == k == |s.wal.file|
              && AfterCrash(u, s, k) == Holding(None)
  {
    ScanNothing(u.cfg.codec);
    assert Apply(Holding(None), []) == Holding(None);
    var s0 := OpenSystem(u, file0, []);
    FailsRun(u, s0, bad, good);
    var s := RunSystem(u, s0, FailsToFlush(bad, good)).value;
    hide Frameable, RunSystem, Holding, FailsToFlush, TextEntry, Apply, Scan, MayReach, InFlight;
    NothingToFlush(u.cfg, s.wal);
    assert s.wal.file[..0] == [];
    assert CanCrash(u, s, 0);
    Replays(u, s, 0);
    assert Reached(u, file0, [], FailsToFlush(bad, good), s);
  }
}
