/** The store, its snapshot file and its log together, through any number of crashes. */
module CrashRecovery {
  import opened Values
  import opened ValueCodec
  import opened Replay
  import opened WriteOps
  import opened Frames
  import opened WalPipeline
  import opened Storage
  import opened Transactions
  import opened Reopening

  /** What has been done to the store: an entry of the log, or a commit, which is not logged. */
  datatype Deed = Journaled(e: Entry) | Committed(changes: Changes)

  /** The live store, the snapshot file and the log; what the log file and the snapshot file
      were when the store was last opened; what has been done to it since; and how much of
      that the snapshot covers, if there has been a save since. */
  datatype System = System(
    data: Data, file: Option<Bytes>, wal: Wal,
    origin: Bytes, found: Option<Bytes>, deeds: seq<Deed>, saved: Option<nat>)

  datatype Setup = Setup(files: FileCodec, cfg: Config)

  datatype SystemStep =
    | Perform(op: Operation, order: seq<string>)
    | Log(step: WalPipeline.Step)
    | Commit(changes: Changes)
    | Save(fault: Fault)
    | Crash(k: nat)   // and InitWithConfig over what is left, k bytes of log

  /** InitWithConfig over a snapshot file that loads and an existing log file. */
  function OpenSystem(u: Setup, file: Option<Bytes>, logFile: Bytes): System
    requires Loaded(u.files, Disk(file, None)).Some?
  {
    var restored := Apply(Loaded(u.files, Disk(file, None)).value, Scan(u.cfg.codec, logFile));
    System(restored, file, Opened(logFile), logFile, file, [], None)
  }

  /** A crash leaves the snapshot file, and of the log file what was fsynced and any further
      prefix of what may have reached it. */
  predicate CanCrash(u: Setup, s: System, k: nat) {
    && |s.wal.writer| <= WRITER_SIZE
    && s.wal.synced <= k <= |MayReach(u.cfg, s.wal)|
    && Loaded(u.files, Disk(s.file, None)).Some?
  }

  /** Steps that the source allows: batches in some order of their map, nothing appended to
      the log except by an operation, commits of any change set, and a crash wherever the
      snapshot file can be loaded again. */
  predicate Allowed(u: Setup, s: System, step: SystemStep) {
    match step
    case Perform(op, order) => OrderFits(op, order) && !s.wal.closed
    case Log(w) => !w.StepAppend? && |s.wal.writer| <= WRITER_SIZE
    case Commit(_) => true
    case Save(_) => true
    case Crash(k) => CanCrash(u, s, k)
  }

  /** All entries of the log, as the program wrote them: those its file held when it was
      opened, then those accepted. */
  function Written(u: Setup, s: System): seq<Entry> {
    Scan(u.cfg.codec, s.origin) + s.wal.past.accepted
  }

  /** The entries this log has put, or is putting, in its current file. */
  function Current(u: Setup, s: System): seq<Entry> {
    Reaching(u.cfg.codec, s.wal)
  }

  /** Those that the log's files hold or are about to; and the same as they are read back. */
  function Logged(u: Setup, s: System): seq<Entry> {
    Scan(u.cfg.codec, s.origin) + (Flat(s.wal.past.moved) + Current(u, s))
  }

  function Kept(u: Setup, s: System): seq<Entry> {
    Scan(u.cfg.codec, s.origin) + Survivors(u.cfg.codec, Flat(s.wal.past.moved) + Current(u, s))
  }

  function Journaling(es: seq<Entry>): seq<Deed> {
    seq(|es|, i requires 0 <= i < |es| => Journaled(es[i]))
  }

  function NextSystem(u: Setup, s: System, step: SystemStep): System
    requires Allowed(u, s, step)
  {
    match step
    case Perform(op, order) =>
      var es := EntriesOf(s.data, op, order);
      s.(data := Effect(s.data, op), wal := AppendAll(s.wal, es), deeds := s.deeds + Journaling(es))
    case Log(w) => s.(wal := Next(u.cfg, s.wal, w))
    case Commit(changes) => s.(data := ApplyChanges(s.data, changes), deeds := s.deeds + [Committed(changes)])
    case Save(fault) =>
      if fault.NoFault? && Encode(u.files, s.data).Some?
      then s.(file := Encode(u.files, s.data), saved := Some(|s.deeds|))
      else s
    case Crash(k) => OpenSystem(u, s.file, MayReach(u.cfg, s.wal)[..k])
  }

  // The store as the sum of what has been done to it.

  function Done(data: Data, d: Deed): Data {
    match d
    case Journaled(e) => ApplyEntry(data, e)
    case Committed(changes) => ApplyChanges(data, changes)
  }

  function Told(data: Data, deeds: seq<Deed>): Data {
    if |deeds| == 0 then data else Done(Told(data, deeds[..|deeds| - 1]), deeds[|deeds| - 1])
  }

  /** The entries among the deeds. */
  function Journal(deeds: seq<Deed>): seq<Entry> {
    if |deeds| == 0 then []
    else
      var last := deeds[|deeds| - 1];
      Journal(deeds[..|deeds| - 1]) + if last.Journaled? then [last.e] else []
  }

  predicate NoCommits(deeds: seq<Deed>) {
    forall i :: 0 <= i < |deeds| ==> deeds[i].Journaled?
  }

  lemma {:induction false} ToldMore(data: Data, deeds: seq<Deed>, es: seq<Entry>)
    ensures Told(data, deeds + Journaling(es)) == Apply(Told(data, deeds), es)
    ensures Journal(deeds + Journaling(es)) == Journal(deeds) + es
  {
    hide Told, Journal, ApplyEntry;
    if |es| == 0 {
      assert deeds + Journaling(es) == deeds;
    } else {
      var last := |es| - 1;
      ToldMore(data, deeds, es[..last]);
      ToldOne(data, deeds + Journaling(es[..last]), Journaled(es[last]));
      assert deeds + Journaling(es[..last]) + [Journaled(es[last])] == deeds + Journaling(es);
      assert es == es[..last] + [es[last]];
    }
  }

  lemma ToldOne(data: Data, deeds: seq<Deed>, d: Deed)
    ensures Told(data, deeds + [d]) == Done(Told(data, deeds), d)
    ensures Journal(deeds + [d]) == Journal(deeds) + if d.Journaled? then [d.e] else []
  {
    assert (deeds + [d])[..|deeds|] == deeds;
  }

  /** Without commits the deeds are the journal. */
  lemma {:induction false} ToldIsReplay(data: Data, deeds: seq<Deed>)
    requires NoCommits(deeds)
    ensures Told(data, deeds) == Apply(data, Journal(deeds))
  {
    if |deeds| > 0 {
      var init, last := deeds[..|deeds| - 1], deeds[|deeds| - 1];
      ToldIsReplay(data, init);
      assert Journal(deeds) == Journal(init) + [last.e];
      assert Journal(deeds)[..|Journal(deeds)| - 1] == Journal(init);
    }
  }

  lemma {:induction false} JournalOfPrefix(deeds: seq<Deed>, p: nat)
    requires p <= |deeds|
    ensures Journal(deeds[..p]) <= Journal(deeds)
  {
    if p < |deeds| {
      JournalOfPrefix(deeds[..|deeds| - 1], p);
      assert deeds[..|deeds| - 1][..p] == deeds[..p];
    } else {
      assert deeds[..p] == deeds;
    }
  }

  /** The store that the last opening found in the snapshot file, and what it made of it. */
  function Base(u: Setup, s: System): Data {
    match Loaded(u.files, Disk(s.found, None))
    case None => map[]
    case Some(d) => d
  }

  function Restored(u: Setup, s: System): Data {
    Apply(Base(u, s), Scan(u.cfg.codec, s.origin))
  }

  /** The store that the snapshot file is of, and how many entries of the log, those of the
      old log file included, it covers. */
  function SavedStore(u: Setup, s: System): Data {
    match s.saved
    case None => Base(u, s)
    case Some(p) => if p <= |s.deeds| then Told(Restored(u, s), s.deeds[..p]) else map[]
  }

  function Covered(u: Setup, s: System): nat {
    match s.saved
    case None => 0
    case Some(p) => if p <= |s.deeds| then |Scan(u.cfg.codec, s.origin)| + |Journal(s.deeds[..p])| else 0
  }

  /** The snapshot file is the one the system was opened with, or the image of the store as
      it was at some point since. */
  ghost predicate SnapshotSound(u: Setup, s: System) {
    match s.saved
    case None => s.file == s.found
    case Some(p) => p <= |s.deeds| && s.file.Some? && s.file == Encode(u.files, SavedStore(u, s))
  }

  ghost predicate Sound(u: Setup, s: System) {
    && Loaded(u.files, Disk(s.found, None)).Some?
    && Conserved(u.cfg, s.origin, s.wal)
    && s.wal.past.accepted == Journal(s.deeds)
    && s.data == Told(Restored(u, s), s.deeds)
    && SnapshotSound(u, s)
  }

  lemma {:induction false} AppendAllConserves(cfg: Config, origin: Bytes, w: Wal, es: seq<Entry>)
    requires Conserved(cfg, origin, w) && !w.closed
    ensures Conserved(cfg, origin, AppendAll(w, es))
  {
    hide Conserved, AppendAll;
    AppendAllConcat(w, [], []);
    if |es| > 0 {
      var last := |es| - 1;
      AppendAllConserves(cfg, origin, w, es[..last]);
      AppendConserves(cfg, origin, AppendAll(w, es[..last]), es[last]);
      AppendAllConcat(w, es[..last], [es[last]]);
      AppendAllConcat(AppendAll(w, es[..last]), [], []);
      assert es[..last] + [es[last]] == es;
    }
  }

  /** More deeds leave the snapshot what it was. */
  lemma SnapshotStays(u: Setup, s: System, n: System)
    requires SnapshotSound(u, s) && s.deeds <= n.deeds
    requires n.file == s.file && n.found == s.found && n.origin == s.origin && n.saved == s.saved
    ensures SnapshotSound(u, n)
  {
    hide Told, Scan, Apply, Encode;
    if s.saved.Some? {
      assert n.deeds[..s.saved.value] == s.deeds[..s.saved.value];
    }
  }

  lemma PerformSound(u: Setup, s: System, op: Operation, order: seq<string>)
    requires Sound(u, s) && Allowed(u, s, Perform(op, order))
    ensures Sound(u, NextSystem(u, s, Perform(op, order)))
  {
    hide Conserved, EntriesOf, Effect, OrderFits, Scan, Apply, Told, Journal, SnapshotSound;
    var es := EntriesOf(s.data, op, order);
    AppendAllConserves(u.cfg, s.origin, s.wal, es);
    LogRefinesOperation(s.data, op, order);
    ToldMore(Restored(u, s), s.deeds, es);
    SnapshotStays(u, s, NextSystem(u, s, Perform(op, order)));
  }

  lemma CommitSound(u: Setup, s: System, changes: Changes)
    requires Sound(u, s)
    ensures Sound(u, NextSystem(u, s, Commit(changes)))
  {
    hide Conserved, Scan, Apply, Told, Journal, SnapshotSound;
    ToldOne(Restored(u, s), s.deeds, Committed(changes));
    assert Journal(s.deeds) + [] == Journal(s.deeds);
    SnapshotStays(u, s, NextSystem(u, s, Commit(changes)));
  }

  lemma NextKeepsAccepted(cfg: Config, w: Wal, step: WalPipeline.Step)
    requires Sized(w) && !step.StepAppend?
    ensures Next(cfg, w, step).past.accepted == w.past.accepted
  {
    hide FlushBatch;
    FlushBatchExactly(cfg, w);
  }

  lemma LogStepSound(u: Setup, s: System, w: WalPipeline.Step)
    requires Sound(u, s) && Allowed(u, s, Log(w))
    ensures Sound(u, NextSystem(u, s, Log(w)))
  {
    NextConserves(u.cfg, s.origin, s.wal, w);
    NextKeepsAccepted(u.cfg, s.wal, w);
    hide Conserved, Next, Apply, Scan, Told, Journal;
  }

  lemma OpenedSound(u: Setup, file: Option<Bytes>, logFile: Bytes)
    requires Loaded(u.files, Disk(file, None)).Some?
    ensures Sound(u, OpenSystem(u, file, logFile))
  {
    hide Conserved;
    OpenedConserves(u.cfg, logFile);
  }

  function RunSystem(u: Setup, s: System, steps: seq<SystemStep>): Option<System> {
    if |steps| == 0 then Some(s)
    else
      match RunSystem(u, s, steps[..|steps| - 1])
      case None => None
      case Some(before) =>
        if Allowed(u, before, steps[|steps| - 1]) then Some(NextSystem(u, before, steps[|steps| - 1])) else None
  }

  lemma NoSteps(u: Setup, s0: System)
    ensures RunSystem(u, s0, []) == Some(s0)
  {
  }

  lemma RunNext(u: Setup, s0: System, steps: seq<SystemStep>, s: System, step: SystemStep)
    requires RunSystem(u, s0, steps) == Some(s) && Allowed(u, s, step)
    ensures RunSystem(u, s0, steps + [step]) == Some(NextSystem(u, s, step))
  {
    assert (steps + [step])[..|steps|] == steps;
    hide NextSystem, Allowed;
  }

  /** In every state of every run, crashes and reopenings included, from any log file
      whatever: the log accounts for all its bytes and entries, its entries are those of what
      has been done to the store since it was opened, commits apart, the store is what all
      that has made of what was restored, and the snapshot file is the one that was found or
      the image of the store at some point since. */
  lemma {:induction false} RunIsSound(u: Setup, file0: Option<Bytes>, origin: Bytes, steps: seq<SystemStep>)
    requires Loaded(u.files, Disk(file0, None)).Some?
    requires RunSystem(u, OpenSystem(u, file0, origin), steps).Some?
    ensures Sound(u, RunSystem(u, OpenSystem(u, file0, origin), steps).value)
  {
    hide Sound, Allowed, NextSystem, OpenSystem;
    if |steps| == 0 {
      OpenedSound(u, file0, origin);
    } else {
      RunIsSound(u, file0, origin, steps[..|steps| - 1]);
      StepSound(u, RunSystem(u, OpenSystem(u, file0, origin), steps[..|steps| - 1]).value, steps[|steps| - 1]);
    }
  }

  lemma StepSound(u: Setup, s: System, step: SystemStep)
    requires Sound(u, s) && Allowed(u, s, step)
    ensures Sound(u, NextSystem(u, s, step))
  {
    match step
    case Perform(op, order) => PerformSound(u, s, op, order);
    case Log(w) => LogStepSound(u, s, w);
    case Commit(changes) => CommitSound(u, s, changes);
    case Save(_) =>
      hide Conserved, Scan;
      assert s.deeds[..|s.deeds|] == s.deeds;
    case Crash(k) => OpenedSound(u, s.file, MayReach(u.cfg, s.wal)[..k]);
  }

  function Performs(ops: seq<Operation>, orders: seq<seq<string>>): seq<SystemStep>
    requires |orders| == |ops|
  {
    seq(|ops|, i requires 0 <= i < |ops| => Perform(ops[i], orders[i]))
  }

  /** What Database.ProcessBatch promises of the store and the log is what the system does
      operation by operation, so its batches are runs of this machine. */
  lemma {:induction false} BatchIsRun(u: Setup, s: System, ops: seq<Operation>, orders: seq<seq<string>>)
    requires OrdersFit(ops, orders) && !s.wal.closed
    ensures RunSystem(u, s, Performs(ops, orders)) == Some(AfterBatch(s, ops, orders))
  {
    hide EntriesOf, Effect, OrderFits, AppendAll, RunSystem, Journaling;
    if |ops| == 0 {
      AppendAllConcat(s.wal, [], []);
      NothingJournaled();
      assert Entries(s.data, ops, orders) == [] && s.deeds + [] == s.deeds;
      assert Performs(ops, orders) == [];
      NoSteps(u, s);
    } else {
      var last := |ops| - 1;
      var before := Effects(s.data, ops[..last]);
      var init, es := Entries(s.data, ops[..last], orders[..last]), EntriesOf(before, ops[last], orders[last]);
      BatchIsRun(u, s, ops[..last], orders[..last]);
      AppendAllConcat(s.wal, init, es);
      JournalingConcat(s.deeds, init, es);
      RunNext(u, s, Performs(ops[..last], orders[..last]), AfterBatch(s, ops[..last], orders[..last]),
              Perform(ops[last], orders[last]));
      assert Performs(ops, orders) == Performs(ops[..last], orders[..last]) + [Perform(ops[last], orders[last])];
    }
  }

  function AfterBatch(s: System, ops: seq<Operation>, orders: seq<seq<string>>): System
    requires OrdersFit(ops, orders)
  {
    var es := Entries(s.data, ops, orders);
    s.(data := Effects(s.data, ops), wal := AppendAll(s.wal, es), deeds := s.deeds + Journaling(es))
  }

  lemma NothingJournaled()
    ensures Journaling([]) == []
  {
  }

  lemma JournalingConcat(deeds: seq<Deed>, a: seq<Entry>, b: seq<Entry>)
    ensures deeds + Journaling(a) + Journaling(b) == deeds + Journaling(a + b)
  {
  }

  // What a crash comes back as.

  /** The entries read back, and the store they make of the snapshot. */
  function ReadBack(u: Setup, s: System, k: nat): seq<Entry>
    requires CanCrash(u, s, k)
  {
    Scan(u.cfg.codec, MayReach(u.cfg, s.wal)[..k])
  }

  function Snapshot(u: Setup, s: System): Data
    requires Loaded(u.files, Disk(s.file, None)).Some?
  {
    Loaded(u.files, Disk(s.file, None)).value
  }

  function AfterCrash(u: Setup, s: System, k: nat): Data
    requires CanCrash(u, s, k)
  {
    NextSystem(u, s, Crash(k)).data
  }

  /** What the current log file began with, and what is left behind that. */
  function Front(s: System): Bytes {
    Start(s.origin, s.wal)
  }

  function Behind(u: Setup, s: System, k: nat): Bytes
    requires CanCrash(u, s, k)
  {
    if |Front(s)| <= k then MayReach(u.cfg, s.wal)[|Front(s)|..k] else []
  }

  /** The scanner does not read on in mid-frame: the current file was begun at the end of a
      frame, as every file after a rotation is, or what is left behind the torn frame does
      not make up for what it is short of. */
  predicate ReadsInStep(u: Setup, s: System, k: nat)
    requires CanCrash(u, s, k)
  {
    Aligned(Front(s)) || Extent(Torn(Front(s)) + Behind(u, s, k)).None?
  }

  /** Those of this log's entries that are read back. */
  function CurrentRead(u: Setup, s: System, k: nat): (es: seq<Entry>)
    requires CanCrash(u, s, k)
  {
    if Aligned(Front(s)) && AllFrameable(u.cfg.codec, Current(u, s)) && |Front(s)| <= k
    then Current(u, s)[..WholeFrames(u.cfg.codec, Current(u, s), k - |Front(s)|)]
    else []
  }

  /** Where in the log, rotated files and all, the entries read back start and end. */
  function From(u: Setup, s: System): nat {
    if s.wal.past.rotated == [] then 0 else |Scan(u.cfg.codec, s.origin)| + |Flat(s.wal.past.moved)|
  }

  function UpTo(u: Setup, s: System, k: nat): nat
    requires CanCrash(u, s, k)
  {
    From(u, s) + |Scan(u.cfg.codec, Front(s))| + |CurrentRead(u, s, k)|
  }

  /** What is read back. In step, it is a piece of the log; and if not, it is what the old
      log file held, at most one entry patched together over the tear, and what the scanner
      finds from there on. Nothing fsynced is missing. */
  ghost predicate ReadsExactly(u: Setup, s: System, k: nat)
    requires CanCrash(u, s, k)
  {
    var c, front, read := u.cfg.codec, Front(s), ReadBack(u, s, k);
    && s.wal.synced <= |s.wal.file|
    && Scan(c, s.wal.file[..s.wal.synced]) <= read
    && if ReadsInStep(u, s, k) then
         && From(u, s) <= UpTo(u, s, k) <= |Kept(u, s)|
         && read == Kept(u, s)[From(u, s)..UpTo(u, s, k)]
       else
         var torn, behind := Torn(front), Behind(u, s, k);
         var n := Extent(torn + behind).value;
         && s.wal.past.rotated == [] && |torn| < n && |Scan(c, (torn + behind)[..n])| <= 1
         && read == Scan(c, front) + Scan(c, (torn + behind)[..n]) + Scan(c, behind[n - |torn|..])
  }

  lemma ReadBackIs(u: Setup, s: System, k: nat)
    requires u.cfg.codec.Lawful() && Sound(u, s) && CanCrash(u, s, k)
    ensures ReadsExactly(u, s, k)
    ensures ReadsInStep(u, s, k) ==>
              && From(u, s) <= UpTo(u, s, k) <= |Logged(u, s)|
              && Logged(u, s)[From(u, s)..UpTo(u, s, k)] == Scan(u.cfg.codec, Front(s)) + CurrentRead(u, s, k)
              && ReadBack(u, s, k) == Scan(u.cfg.codec, Front(s)) + Survivors(u.cfg.codec, CurrentRead(u, s, k))
  {
    hide Scan, Aligned, Torn, Extent, Frameable, Survivor, WholeFrames, FrameAll, LogCodec.Lawful, MayReach, Apply,
      Flat, Reaching;
    CrashReads(u.cfg, s.origin, s.wal, k);
    ScanNothing(u.cfg.codec);
    if ReadsInStep(u, s, k) {
      var es := CurrentRead(u, s, k);
      assert Survivors(u.cfg.codec, []) == [];
      assert ReadBack(u, s, k) == Scan(u.cfg.codec, Front(s)) + Survivors(u.cfg.codec, es);
      WhereRead(u, s, es);
    }
  }

  /** The part of the log that the current file holds. */
  lemma WhereRead(u: Setup, s: System, es: seq<Entry>)
    requires Conserved(u.cfg, s.origin, s.wal) && es <= Current(u, s)
    ensures var prior := Scan(u.cfg.codec, Front(s));
            var r, m := From(u, s), From(u, s) + |prior| + |es|;
            && m <= |Logged(u, s)| == |Kept(u, s)|
            && Logged(u, s)[r..m] == prior + es
            && Kept(u, s)[r..m] == prior + Survivors(u.cfg.codec, es)
  {
    hide Scan, Frameable, Survivor, Survivors, FrameAll, Reaching, Placed;
    ScanNothing(u.cfg.codec);
    var others := Current(u, s)[|es|..];
    var moved := Flat(s.wal.past.moved);
    assert Current(u, s) == es + others;
    assert moved + Current(u, s) == moved + es + others;
    InTheMiddle(Scan(u.cfg.codec, s.origin), moved, es, others, u.cfg.codec);
  }

  /** As long as no flush has failed, that log is what was written, but for what is still on its way. */
  lemma LoggedIsWritten(u: Setup, s: System)
    requires Sound(u, s) && s.wal.past.lost == []
    ensures Logged(u, s) <= Written(u, s)
  {
    NothingLost(u.cfg, s.origin, s.wal);
    hide Scan, Frameable, Flat, Apply, Conserved, Writable;
    var w, n := s.wal, Writable(u.cfg.codec, s.wal.pending);
    var rest := InFlight(w)[n..];
    assert InFlight(w) == w.pending[..n] + rest;
    hide InFlight;
    OnTheWay(Scan(u.cfg.codec, s.origin), Flat(w.past.moved), w.past.framed, w.pending[..n], rest);
  }

  lemma OnTheWay(prior: seq<Entry>, moved: seq<Entry>, framed: seq<Entry>, next: seq<Entry>, rest: seq<Entry>)
    ensures prior + (moved + (framed + next)) <= prior + (moved + framed + (next + rest))
  {
    assert prior + (moved + framed + (next + rest)) == prior + (moved + (framed + next)) + rest;
  }

  lemma InTheMiddle(prior: seq<Entry>, before: seq<Entry>, es: seq<Entry>, after: seq<Entry>, c: LogCodec)
    ensures var all := prior + (before + es + after);
            var kept := prior + Survivors(c, before + es + after);
            var r, m := |prior| + |before|, |prior| + |before| + |es|;
            && all[r..m] == es && kept[r..m] == Survivors(c, es)
            && (before == [] ==> all[..m] == prior + es && kept[..m] == prior + Survivors(c, es))
  {
  }

  lemma ReadIsWritten(u: Setup, s: System, k: nat)
    requires u.cfg.codec.Lawful() && Sound(u, s) && CanCrash(u, s, k) && ReadsInStep(u, s, k) && s.wal.past.lost == []
    ensures From(u, s) <= UpTo(u, s, k) <= |Written(u, s)|
    ensures Written(u, s)[From(u, s)..UpTo(u, s, k)] == Scan(u.cfg.codec, Front(s)) + CurrentRead(u, s, k)
    ensures ReadBack(u, s, k) == Scan(u.cfg.codec, Front(s)) + Survivors(u.cfg.codec, CurrentRead(u, s, k))
  {
    ReadBackIs(u, s, k);
    LoggedIsWritten(u, s);
    hide Sound, CanCrash, ReadsInStep, Scan, Survivors, CurrentRead, From, UpTo, ReadBack, ReadsExactly, Written,
      Logged, Kept;
    SameSlice(Logged(u, s), Written(u, s), From(u, s), UpTo(u, s, k));
  }

  lemma SameSlice(a: seq<Entry>, b: seq<Entry>, r: nat, m: nat)
    requires a <= b && r <= m <= |a|
    ensures a[r..m] == b[r..m]
  {
  }

  /** What a crash in state s, leaving k bytes of log file, comes back as. */
  ghost predicate RecoversCell(u: Setup, s: System, k: nat, table: string, key: string)
    requires CanCrash(u, s, k)
  {
    var snapshot, read := Snapshot(u, s), ReadBack(u, s, k);
    && AfterCrash(u, s, k) == Apply(snapshot, read)
    && AfterCrash(u, s, k).Keys == snapshot.Keys + Created(read)
    && Cell(AfterCrash(u, s, k), table, key) ==
       (match Net(read, table, key)
        case None => Cell(snapshot, table, key)
        case Some(outcome) => outcome)
  }

  /** A state that some run of operations, log workers, saves, crashes and reopenings reaches
      from whatever log file there was at first. */
  ghost predicate Reached(u: Setup, file0: Option<Bytes>, origin: Bytes, steps: seq<SystemStep>, s: System) {
    && u.cfg.codec.Lawful() && Loaded(u.files, Disk(file0, None)).Some?
    && RunSystem(u, OpenSystem(u, file0, origin), steps) == Some(s)
  }

  /** End to end. Whatever the run, whatever crashes it has been through, whenever the next
      one falls and however much of the log file past the fsynced part that leaves:
      reopening replays what is read back over the snapshot, and nothing that was fsynced
      is missing from that. What is read back is exactly the kept entries from the last
      rotation up to the last whole frame. Only behind a torn frame that an earlier crash
      left, with no rotation since, is it less: nothing new as long as the gap is not
      filled, and then what the scanner makes of the bytes behind it. Each cell those
      entries touch gets what the last of them leaves there, every other cell and table is
      the snapshot's, which is the one last opened or the image of the store since. */
  lemma CrashRecoversCells(u: Setup, file0: Option<Bytes>, origin: Bytes, steps: seq<SystemStep>, s: System,
                           k: nat, table: string, key: string)
    requires Reached(u, file0, origin, steps, s) && CanCrash(u, s, k)
    ensures RecoversCell(u, s, k, table, key)
    ensures ReadsExactly(u, s, k)
    ensures SnapshotSound(u, s)
  {
    RunIsSound(u, file0, origin, steps);
    hide RunSystem, ReadsExactly, SnapshotSound, Conserved, RecoversCell, CanCrash;
    ReadBackIs(u, s, k);
    CellRecovered(u, s, k, table, key);
  }

  lemma CellRecovered(u: Setup, s: System, k: nat, table: string, key: string)
    requires CanCrash(u, s, k)
    ensures RecoversCell(u, s, k, table, key)
  {
    hide Apply, Net, Created, Scan, MayReach;
    ReplayCell(Snapshot(u, s), ReadBack(u, s, k), table, key);
    ReplayTables(Snapshot(u, s), ReadBack(u, s, k));
  }

  /** A cell's content once it has been through the log. */
  function Widened(c: LogCodec, content: Option<Value>): Option<Value> {
    match content
    case None => None
    case Some(v) => Some(match Widen(c.text, v) case None => v case Some(x) => x)
  }

  lemma {:induction false} NetOfSurvivors(c: LogCodec, es: seq<Entry>, table: string, key: string)
    ensures Net(Survivors(c, es), table, key) ==
            match Net(es, table, key) { case None => None case Some(outcome) => Some(Widened(c, outcome)) }
  {
    if |es| > 0 {
      var last := |es| - 1;
      NetOfSurvivors(c, es[..last], table, key);
      assert Survivors(c, es)[..last] == Survivors(c, es[..last]);
    }
  }

  /** Cell by cell in terms of the log, with no law about what the codecs keep. With n
      entries in the snapshot and r to m read back: a cell that this log's share of them
      touches has the widened value that m entries leave in it; one that only the old log
      file's share touches has the value that m entries leave in it; any other is the
      snapshot's. Where nothing has been committed and r <= n <= m, its value was the same
      after n, when the snapshot was saved, as after m. */
  lemma CrashRecoversWidened(u: Setup, file0: Option<Bytes>, origin: Bytes, steps: seq<SystemStep>, s: System,
                             k: nat, table: string, key: string)
    requires Reached(u, file0, origin, steps, s) && CanCrash(u, s, k) && ReadsInStep(u, s, k) && s.wal.past.lost == []
    ensures From(u, s) <= UpTo(u, s, k) <= |Written(u, s)| && Covered(u, s) <= |Written(u, s)|
    ensures Written(u, s)[From(u, s)..UpTo(u, s, k)] == Scan(u.cfg.codec, Front(s)) + CurrentRead(u, s, k)
    ensures AfterCrash(u, s, k).Keys == Snapshot(u, s).Keys + Created(Written(u, s)[From(u, s)..UpTo(u, s, k)])
    ensures ComesBack(u, s, From(u, s), UpTo(u, s, k), CurrentRead(u, s, k), AfterCrash(u, s, k), table, key)
  {
    RunIsSound(u, file0, origin, steps);
    CoveredIsWritten(u, s);
    ReadIsWritten(u, s, k);
    Replays(u, s, k);
    hide Covered, Sound, Logged, Conserved, RunSystem, Apply, Scan, Created, CurrentRead, From, UpTo, CanCrash,
      ReadsInStep, AfterCrash, Survivors, ComesBack, ReadBack, Snapshot, Front, Written;
    ReplayedCell(u, s, From(u, s), UpTo(u, s, k), CurrentRead(u, s, k), AfterCrash(u, s, k), table, key);
  }

  /** A cell of the store that comes back when entries r to m of the log have been replayed,
      the last of them, recent, this log's own. */
  ghost predicate ComesBack(u: Setup, s: System, r: nat, m: nat, recent: seq<Entry>, back: Data, table: string,
                            key: string)
    requires r <= m <= |Written(u, s)| && Covered(u, s) <= |Written(u, s)| && Loaded(u.files, Disk(s.file, None)).Some?
  {
    var base, log := Base(u, s), Written(u, s);
    if Net(recent, table, key).Some? then
      Cell(back, table, key) == Widened(u.cfg.codec, Cell(After(base, log, m), table, key))
    else if Net(log[r..m], table, key).Some? then
      Cell(back, table, key) == Cell(After(base, log, m), table, key)
    else
      && Cell(back, table, key) == Cell(Snapshot(u, s), table, key)
      && (NoCommits(s.deeds) && r <= Covered(u, s) <= m ==>
            Cell(After(base, log, Covered(u, s)), table, key) == Cell(After(base, log, m), table, key))
  }

  lemma ReplayedCell(u: Setup, s: System, r: nat, m: nat, recent: seq<Entry>, back: Data, table: string, key: string)
    requires r <= m <= |Written(u, s)| && Covered(u, s) <= |Written(u, s)| && Loaded(u.files, Disk(s.file, None)).Some?
    requires Written(u, s)[r..m] == Scan(u.cfg.codec, Front(s)) + recent
    requires back == Apply(Snapshot(u, s), Scan(u.cfg.codec, Front(s)) + Survivors(u.cfg.codec, recent))
    ensures back.Keys == Snapshot(u, s).Keys + Created(Written(u, s)[r..m])
    ensures ComesBack(u, s, r, m, recent, back, table, key)
  {
    hide Apply, Scan, Net, Created, Survivors, Widened, Written, Snapshot, Front, Base, Reopened, Covered;
    var c, base, log, prior := u.cfg.codec, Base(u, s), Written(u, s), Scan(u.cfg.codec, Front(s));
    ReplayCell(Snapshot(u, s), prior + Survivors(c, recent), table, key);
    ReplayTables(Snapshot(u, s), prior + Survivors(c, recent));
    CreatedOfSurvivors(c, recent);
    CreatedConcat(prior, recent);
    CreatedConcat(prior, Survivors(c, recent));
    NetConcat(prior, Survivors(c, recent), table, key);
    NetConcat(prior, recent, table, key);
    NetOfSurvivors(c, recent, table, key);
    AfterRead(base, log, r, m, table, key);
    var n := Covered(u, s);
    if r <= n <= m {
      ReopenedCell(base, log, r, n, m, table, key);
      ReopenedExactly(base, log, r, n, m);
    }
  }

  lemma {:induction false} CreatedOfSurvivors(c: LogCodec, es: seq<Entry>)
    ensures Created(Survivors(c, es)) == Created(es)
  {
    if |es| > 0 {
      var last := |es| - 1;
      CreatedOfSurvivors(c, es[..last]);
      assert Survivors(c, es)[..last] == Survivors(c, es[..last]);
    }
  }

  lemma AfterRead(base: Data, log: seq<Entry>, r: nat, m: nat, table: string, key: string)
    requires r <= m <= |log|
    ensures Net(log[r..m], table, key).Some? ==>
              Cell(After(base, log, m), table, key) == Net(log[r..m], table, key).value
  {
    hide Apply, Net;
    ReplayCell(base, log[..m], table, key);
    assert log[..m] == log[..r] + log[r..m];
    NetConcat(log[..r], log[r..m], table, key);
  }

  /** The file codec loads this store as it was saved, if it saves it at all. */
  ghost predicate Reloads(c: FileCodec, data: Data) {
    Encode(c, data).Some? ==> Loaded(c, Disk(Encode(c, data), None)) == Some(data)
  }

  /** And the store that was saved, if any was since the last opening. */
  ghost predicate SnapshotKept(u: Setup, s: System) {
    s.saved.Some? ==> Reloads(u.files, SavedStore(u, s))
  }

  /** Where nothing has been committed or lost, the file codec reloads the store that was
      saved, and the log keeps the entries that are read back as they were, the crash is
      exactly the reopening at r, n and m; and if the snapshot is no older than the last
      rotation and no newer than the readable log, what comes back is the store after m
      entries. */
  lemma CrashRecoversExactly(u: Setup, file0: Option<Bytes>, origin: Bytes, steps: seq<SystemStep>, s: System, k: nat)
    requires Reached(u, file0, origin, steps, s) && CanCrash(u, s, k) && ReadsInStep(u, s, k)
    requires NoCommits(s.deeds) && s.wal.past.lost == []
    requires SnapshotKept(u, s) && Survivors(u.cfg.codec, CurrentRead(u, s, k)) == CurrentRead(u, s, k)
    ensures ComesBackExactly(u, s, k)
  {
    RunIsSound(u, file0, origin, steps);
    SoundRecoversExactly(u, s, k);
  }

  ghost predicate ComesBackExactly(u: Setup, s: System, k: nat)
    requires CanCrash(u, s, k)
  {
    var base, log := Base(u, s), Written(u, s);
    var r, n, m := From(u, s), Covered(u, s), UpTo(u, s, k);
    && r <= m <= |log| && n <= |log|
    && Snapshot(u, s) == After(base, log, n)
    && AfterCrash(u, s, k) == Reopened(base, log, r, n, m)
    && (r <= n <= m ==> AfterCrash(u, s, k) == After(base, log, m))
  }

  lemma SoundRecoversExactly(u: Setup, s: System, k: nat)
    requires u.cfg.codec.Lawful() && Sound(u, s) && CanCrash(u, s, k) && ReadsInStep(u, s, k)
    requires NoCommits(s.deeds) && s.wal.past.lost == []
    requires SnapshotKept(u, s) && Survivors(u.cfg.codec, CurrentRead(u, s, k)) == CurrentRead(u, s, k)
    ensures ComesBackExactly(u, s, k)
  {
    LosslessRead(u, s, k);
    CoveredIsWritten(u, s);
    SnapshotIs(u, s);
    hide Sound, Conserved, Scan, Survivors, CurrentRead, From, UpTo, CanCrash, ReadsInStep, Apply, ReadBack,
      Snapshot, Base, Written, Covered, SnapshotKept, AfterCrash;
    if From(u, s) <= Covered(u, s) <= UpTo(u, s, k) {
      ReopenedExactly(Base(u, s), Written(u, s), From(u, s), Covered(u, s), UpTo(u, s, k));
    }
  }

  lemma CoveredIsWritten(u: Setup, s: System)
    requires Sound(u, s)
    ensures Covered(u, s) <= |Written(u, s)|
  {
    hide Scan, Conserved, Told, Journal;
    if s.saved.Some? { JournalOfPrefix(s.deeds, s.saved.value); }
  }

  lemma LosslessRead(u: Setup, s: System, k: nat)
    requires u.cfg.codec.Lawful() && Sound(u, s) && CanCrash(u, s, k) && ReadsInStep(u, s, k) && s.wal.past.lost == []
    requires Survivors(u.cfg.codec, CurrentRead(u, s, k)) == CurrentRead(u, s, k)
    ensures From(u, s) <= UpTo(u, s, k) <= |Written(u, s)|
    ensures AfterCrash(u, s, k) == Apply(Snapshot(u, s), Written(u, s)[From(u, s)..UpTo(u, s, k)])
  {
    ReadIsWritten(u, s, k);
    Replays(u, s, k);
    hide Logged, Sound, CanCrash, ReadsInStep, Scan, Survivors, CurrentRead, From, UpTo, ReadBack, Snapshot,
      AfterCrash, ReadsExactly, Written, Apply;
  }

  lemma Replays(u: Setup, s: System, k: nat)
    requires CanCrash(u, s, k)
    ensures AfterCrash(u, s, k) == Apply(Snapshot(u, s), ReadBack(u, s, k))
  {
    hide Apply, Scan, MayReach;
  }

  lemma SnapshotIs(u: Setup, s: System)
    requires Sound(u, s) && Loaded(u.files, Disk(s.file, None)).Some? && NoCommits(s.deeds) && SnapshotKept(u, s)
    ensures Covered(u, s) <= |Written(u, s)|
    ensures Snapshot(u, s) == After(Base(u, s), Written(u, s), Covered(u, s))
  {
    hide Conserved, SnapshotSound, Scan, Encode, Told, Journal, Written, Restored, NoCommits, Snapshot, SnapshotKept,
      Covered, SavedStore, After;
    CoveredIsWritten(u, s);
    SavedIsAfter(u, s);
    SnapshotIsSaved(u, s);
  }

  lemma SnapshotIsSaved(u: Setup, s: System)
    requires SnapshotSound(u, s) && Loaded(u.files, Disk(s.file, None)).Some? && SnapshotKept(u, s)
    ensures Snapshot(u, s) == SavedStore(u, s)
  {
    hide Scan, Encode, Told;
  }

  lemma SavedIsAfter(u: Setup, s: System)
    requires Sound(u, s) && NoCommits(s.deeds) && Covered(u, s) <= |Written(u, s)|
    ensures SavedStore(u, s) == After(Base(u, s), Written(u, s), Covered(u, s))
  {
    hide Conserved, Scan, Encode, Told, Journal, Written, Restored, NoCommits;
    if s.saved.Some? {
      ToldIsAfter(u, s, s.saved.value);
    } else {
      assert Written(u, s)[..0] == [];
    }
  }

  /** Without commits the store has been, at every point, what its log up to there makes. */
  lemma ToldIsAfter(u: Setup, s: System, p: nat)
    requires Sound(u, s) && NoCommits(s.deeds) && p <= |s.deeds|
    ensures |Scan(u.cfg.codec, s.origin)| + |Journal(s.deeds[..p])| <= |Written(u, s)|
    ensures Told(Restored(u, s), s.deeds[..p])
            == After(Base(u, s), Written(u, s), |Scan(u.cfg.codec, s.origin)| + |Journal(s.deeds[..p])|)
  {
    hide Conserved, Scan, Told, Journal, Apply, Base;
    var prior, journal := Scan(u.cfg.codec, s.origin), Journal(s.deeds[..p]);
    JournalOfPrefix(s.deeds, p);
    ToldIsReplay(Restored(u, s), s.deeds[..p]);
    ApplyConcat(Base(u, s), prior, journal);
    assert Written(u, s)[..|prior| + |journal|] == prior + journal;
  }

  /** As long as nothing has been committed, the store has absorbed its own log: replaying
      that, whole or from any point on, changes nothing. */
  lemma StoreAbsorbsLog(u: Setup, s: System, r: nat)
    requires Sound(u, s) && NoCommits(s.deeds) && r <= |Written(u, s)|
    ensures Apply(s.data, Written(u, s)[r..]) == s.data
  {
    StoreIsReplay(u, s);
    hide Apply, Sound, Base, Written;
    var log := Written(u, s);
    ReplayOverlap(Base(u, s), log, r, |log|);
    assert log[..|log|] == log;
  }

  lemma StoreIsReplay(u: Setup, s: System)
    requires Sound(u, s) && NoCommits(s.deeds)
    ensures s.data == Apply(Base(u, s), Written(u, s))
  {
    ToldIsReplay(Restored(u, s), s.deeds);
    hide Apply, Conserved, Scan, Told, Journal, Base;
    ApplyConcat(Base(u, s), Scan(u.cfg.codec, s.origin), s.wal.past.accepted);
  }

  /** A snapshot that is just the live store, commits included, survives a crash if and only
      if what is read back makes no table that it lacks, and leaves nothing in a cell that
      is not there already. */
  lemma LiveSnapshotSurvivesIff(u: Setup, s: System, k: nat)
    requires CanCrash(u, s, k) && Snapshot(u, s) == s.data
    ensures var read := ReadBack(u, s, k);
            AfterCrash(u, s, k) == s.data <==>
            && Created(read) <= s.data.Keys
            && forall t, key :: Net(read, t, key).Some? ==> Cell(s.data, t, key) == Net(read, t, key).value
  {
    Replays(u, s, k);
    SurvivesReplayIff(s.data, ReadBack(u, s, k));
  }

  // When every crash leaves enough of the log.

  lemma ReadMore(u: Setup, s: System, j: nat, k: nat)
    requires CanCrash(u, s, j) && CanCrash(u, s, k) && j <= k
    ensures UpTo(u, s, j) <= UpTo(u, s, k)
  {
    hide Aligned, Frameable, Scan, Reaching, MayReach, WholeFrames;
    if Aligned(Front(s)) && AllFrameable(u.cfg.codec, Current(u, s)) && |Front(s)| <= j {
      WholeFramesGrow(u.cfg.codec, Current(u, s), j - |Front(s)|, k - |Front(s)|);
    }
  }

  /** That no crash can leave the log short of the snapshot is decided by what has been
      fsynced alone. */
  lemma NeverShortIff(u: Setup, s: System)
    requires Sound(u, s) && Loaded(u.files, Disk(s.file, None)).Some?
    ensures CanCrash(u, s, s.wal.synced)
    ensures (forall k: nat :: CanCrash(u, s, k) ==> Covered(u, s) <= UpTo(u, s, k))
            <==> Covered(u, s) <= UpTo(u, s, s.wal.synced)
  {
    MayReachIs(u.cfg, s.origin, s.wal);
    hide Sound, Conserved, MayReach, Covered, UpTo;
    forall k: nat | CanCrash(u, s, k)
      ensures UpTo(u, s, s.wal.synced) <= UpTo(u, s, k)
    {
      ReadMore(u, s, s.wal.synced, k);
    }
  }

  /** The store saved and the log synced, as Flush does it. */
  function Flushed(u: Setup, s: System): System
    requires |s.wal.writer| <= WRITER_SIZE
  {
    var saved := NextSystem(u, s, Save(NoFault));
    NextSystem(u, saved, Log(StepSync))
  }

  lemma FlushedIs(u: Setup, s: System)
    requires Sound(u, s) && !s.wal.closed && Encode(u.files, s.data).Some?
    ensures var f := Flushed(u, s);
            && f == s.(file := Encode(u.files, s.data), saved := Some(|s.deeds|), wal := Sync(s.wal)) && Sound(u, f)
            && Covered(u, f) == |Written(u, f)| && SavedStore(u, f) == s.data
  {
    FlushedShape(u, s);
    FlushedSound(u, s);
    hide Sound, Sync, Encode, Covered, SavedStore, Flushed;
    JustSaved(u, Flushed(u, s));
  }

  lemma FlushedShape(u: Setup, s: System)
    requires |s.wal.writer| <= WRITER_SIZE && Encode(u.files, s.data).Some?
    ensures Flushed(u, s) == s.(file := Encode(u.files, s.data), saved := Some(|s.deeds|), wal := Sync(s.wal))
  {
    hide Encode;
  }

  lemma FlushedSound(u: Setup, s: System)
    requires Sound(u, s)
    ensures |s.wal.writer| <= WRITER_SIZE && Sound(u, Flushed(u, s))
  {
    StepSound(u, s, Save(NoFault));
    var saved := NextSystem(u, s, Save(NoFault));
    assert |saved.wal.writer| <= WRITER_SIZE;
    hide Sound, Conserved, Encode, Next;
    StepSound(u, saved, Log(StepSync));
  }

  lemma JustSaved(u: Setup, s: System)
    requires Sound(u, s) && s.saved == Some(|s.deeds|)
    ensures Covered(u, s) == |Written(u, s)| && SavedStore(u, s) == s.data
  {
    hide Conserved, Scan, Told, Journal, Apply, Base;
    assert s.deeds[..|s.deeds|] == s.deeds;
  }

  /** With nothing in flight or lost, and a log file begun at the end of a frame, a flush
      leaves no crash that reads short: all the snapshot covers is fsynced. */
  lemma FlushedNeverShort(u: Setup, s: System)
    requires Sound(u, s) && !s.wal.closed && InFlight(s.wal) == [] && s.wal.past.lost == [] && Aligned(Front(s))
    requires Encode(u.files, s.data).Some? && Loaded(u.files, Disk(Encode(u.files, s.data), None)).Some?
    ensures var f := Flushed(u, s);
            && Sound(u, f) && CanCrash(u, f, f.wal.synced)
            && Covered(u, f) == UpTo(u, f, f.wal.synced) == |Written(u, f)|
            && (forall k: nat :: CanCrash(u, f, k) ==> Covered(u, f) <= UpTo(u, f, k))
  {
    FlushedIs(u, s);
    hide Sound, Covered, UpTo, CanCrash, Encode, Flushed, Written, InFlight, Aligned;
    NeverShortIff(u, Flushed(u, s));
    AllRead(u, Flushed(u, s));
  }

  /** A file synced to its end, with nothing more on its way, is read to its end. */
  lemma AllRead(u: Setup, s: System)
    requires Sound(u, s) && CanCrash(u, s, s.wal.synced) && s.wal.synced == |s.wal.file| && s.wal.writer == []
    requires InFlight(s.wal) == [] && s.wal.past.lost == [] && Aligned(Front(s))
    ensures UpTo(u, s, s.wal.synced) == |Written(u, s)|
    ensures CurrentRead(u, s, s.wal.synced) == s.wal.past.framed
  {
    var c, w := u.cfg.codec, s.wal;
    MayReachIs(u.cfg, s.origin, w);
    NothingToReach(u.cfg, w);
    NothingElse(u.cfg, s.origin, w);
    ScanNothing(c);
    assert Reaching(c, w) == w.past.framed;
    hide Sound, Scan, Aligned, Frameable, FrameAll, MayReach, Reaching, InFlight, Flat, CanCrash;
    WholeFramesAll(c, Reaching(c, w), |w.file| - |Front(s)|);
  }

  lemma NothingElse(cfg: Config, origin: Bytes, w: Wal)
    requires Conserved(cfg, origin, w) && InFlight(w) == [] && w.past.lost == []
    ensures |w.past.accepted| == |Flat(w.past.moved)| + |w.past.framed|
    ensures w.past.rotated == [] ==> Flat(w.past.moved) == []
  {
    NothingLost(cfg, origin, w);
  }

  lemma NothingToReach(cfg: Config, w: Wal)
    requires InFlight(w) == [] && w.writer == []
    ensures w.pending == [] && MayReach(cfg, w) == w.file
  {
    assert w.file + [] == w.file;
  }

  /** So a crash after it brings back exactly the store that was flushed, if the codecs keep
      that store and its log's entries as they are. */
  lemma FlushedComesBack(u: Setup, s: System, k: nat)
    requires u.cfg.codec.Lawful() && Sound(u, s) && NoCommits(s.deeds) && Aligned(Front(s))
    requires !s.wal.closed && InFlight(s.wal) == [] && s.wal.past.lost == []
    requires Encode(u.files, s.data).Some? && Reloads(u.files, s.data) && CanCrash(u, Flushed(u, s), k)
    requires Survivors(u.cfg.codec, s.wal.past.framed) == s.wal.past.framed
    ensures AfterCrash(u, Flushed(u, s), k) == s.data
  {
    var f := Flushed(u, s);
    assert |s.wal.writer| <= WRITER_SIZE;
    hide Conserved, Told, Journal, Restored, Scan, Encode, MayReach;
    FlushedIs(u, s);
    FlushedWhole(u, s, k);
    hide Sound, Covered, CanCrash, Encode, Flushed, Written, InFlight, Aligned, Survivors, CurrentRead, SavedStore,
      From, UpTo, AfterCrash, Apply, Snapshot, NoCommits;
    AllRead(u, f);
    SoundRecoversExactly(u, f, k);
    StoreIsReplay(u, f);
    assert Written(u, f)[..|Written(u, f)|] == Written(u, f);
  }

  /** After it a crash can cut nothing off the log file. */
  lemma FlushedWhole(u: Setup, s: System, k: nat)
    requires |s.wal.writer| <= WRITER_SIZE && !s.wal.closed && InFlight(s.wal) == [] && Encode(u.files, s.data).Some?
    requires CanCrash(u, Flushed(u, s), k)
    ensures var f := Flushed(u, s);
            && k == f.wal.synced == |f.wal.file| && f.wal.writer == [] && InFlight(f.wal) == []
  {
    FlushedShape(u, s);
    NothingToReach(u.cfg, Sync(s.wal));
  }

  /** Every crash of the run has left a log file that ends where a frame ends. */
  predicate CutsAtFrames(u: Setup, s0: System, steps: seq<SystemStep>)
    requires RunSystem(u, s0, steps).Some?
  {
    |steps| > 0 ==>
      var init, last := steps[..|steps| - 1], steps[|steps| - 1];
      && CutsAtFrames(u, s0, init)
      && (last.Crash? ==> Aligned(RunSystem(u, s0, steps).value.origin))
  }

  /** Then no life of the store ever reads out of step, and the exact theorems hold of every
      one of its crashes. */
  lemma {:induction false} AllLivesInStep(u: Setup, file0: Option<Bytes>, origin: Bytes, steps: seq<SystemStep>, k: nat)
    requires Loaded(u.files, Disk(file0, None)).Some? && Aligned(origin)
    requires RunSystem(u, OpenSystem(u, file0, origin), steps).Some?
    requires CutsAtFrames(u, OpenSystem(u, file0, origin), steps)
    ensures var s := RunSystem(u, OpenSystem(u, file0, origin), steps).value;
            Aligned(s.origin) && (CanCrash(u, s, k) ==> ReadsInStep(u, s, k))
  {
    ScanNothing(u.cfg.codec);
    hide Aligned, CanCrash, Behind;
    if |steps| > 0 {
      AllLivesInStep(u, file0, origin, steps[..|steps| - 1], k);
    }
  }
}
