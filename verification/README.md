# PolarysDB: a verified model

PolarysDB is an in-memory table store (table, key, value) with one buffered writer, a binary
write-ahead log, an encrypted snapshot file, hash indexes and optimistic transactions. This
project models those parts in Dafny 4.11 and proves what holds between them: live store and
log, log bytes and entries, index and table, transaction snapshot and version, snapshot file
and dirty flag.

`dafny verify dfyconfig.toml` checks everything.

## How it is laid out

Where the program changes state in place, the model is a class whose methods are proved
against functions of the old state; the properties are then proved of those functions, over
whole runs where a run matters.

- `Values`, `ValueCodec`: stored values and their tagged encoding.
- `Replay`, `WriteOps`: what a log entry does, what an operation does, and why one refines the other.
- `Frames`: log frames, and the scanner as a loop over a reader.
- `Subsequences`: sequences inside others, for what is left of a log that has lost entries.
- `WalPipeline`, `WalLog`: the path from `Append` to the disk, as a machine of the workers'
  critical sections and as the log object that takes its steps.
- `SecondaryIndex`, `IndexManager`: posting lists, and the heap objects that hold them;
  `StaleIndexes`: what leaves them out of step with their tables.
- `Transactions`, `TxRuns`: change sets, and runs of batches and commits.
- `Storage`, `FlushRuns`: replacing the snapshot file, and runs of the dirty flag.
- `WriteLoop`: which batches the write loop cuts its stream into, whatever comes in.
- `Database`: the write loop, recovery, transactions, queries and the verified flush.
- `Reopening`: what a snapshot and a log make of each other, in terms of their common history.
- `CrashRecovery`: store, snapshot file and log together, through any number of crashes and
  reopenings; `CrashFailures`: runs of that machine that end in a loss.
- `DeepCopy`: deep copies and snapshots of objects in the heap.
- `LockOrder`: the three mutexes, for any number of threads.
- `Mapper`: filling structs from JSON-shaped maps.

Library calls are fields of a parameter (`TextLib`, `LogCodec`, `FileCodec`, `Lib`): JSON,
float text, protobuf with AES-GCM, CRC-32, gonum and base64. A law is assumed of one only where a
lemma's `requires` says so: `Lawful` and `Rereads` of the log's codecs, `TextInverts` and
`Base64Lengths` of the mapper's, and `Faithful`, `Reloads`, `Keeps` and `ToldApart` of the file
codec, these only for the stores at hand, since JSON does not keep every store. The checksum has
no law at all.

A crash may fall in any state of a run, in the middle of a flush or a rotation included: of the
log file it leaves what was fsynced and any further prefix of the bytes that may have been
written. Reopening is a step of the same run, so the theorems about runs are about all lives of
a store, and no assumption is made about the log file that the first of them finds.

## What turned out not to hold

Each of these has a lemma that says exactly when the expected property holds.

- A snapshot newer than the readable log is not kept: older entries are replayed over it. A
  write that is acknowledged and is in the snapshot on disk can come back with its previous
  value although no byte of either file was lost (`SnapshotAheadRegresses`). It is kept exactly
  when no cell the replayed entries touch has changed since (`SnapshotAheadSurvivesIff`).
- A crash that tears a frame leaves the torn bytes in the file, and the log is reopened for
  append behind them. What is written next is taken for what the torn frame lacks, header or
  payload (`ScanAfterTear`), so entries that were fsynced may be unreadable; a run of two lives
  shows it (`TornReopenHidesSyncedEntries`). What is appended is read as if it stood alone if
  and only if the file ends where a frame ends (`AlignedIff`). A rotation ends the damage: every
  later file is read exactly (`CrashReads`).
- `Sync` makes all accepted entries durable exactly when the batch, the batch writer's hand and
  the channel are empty and no flush has failed (`SyncDurableIff`). Its comment
  (modules/wal/wal_sync.go:13-15) and the README's "Drain buffer → flush writer → fsync"
  (README.md:385) promise more; the code does not flush the batch.
- A flush that meets an entry it cannot write drops that entry and the rest of the batch
  (`FlushBatchExactly`, `FlushKeepsAllIff`); writes that were acknowledged and synced are gone
  after a crash because of one too large for the log (`FailedFlushLosesBatch`).
- Rotation is harmless when the snapshot covers what was rotated away (`ReopenedExactly`);
  otherwise only under the condition of `RotatedPastSnapshotSafeIff`, and a run that has fsynced
  an entry and rotated it away before any save loses it (`RotationLosesSyncedEntries`).
- A flush saves the store before it syncs the log, and syncs only what has reached the writer.
  No crash reads short of the snapshot exactly when what is fsynced reaches as far as it does
  (`NeverShortIff`), as it does with nothing in flight (`FlushedNeverShort`, `FlushedComesBack`).
- A committed transaction is not logged. Saved, it survives a crash, of whatever state and
  wherever it cuts the log, exactly when the entries read back make no table that the store
  lacks and leave nothing in a cell that the commit has not left there
  (`CommitSurvivesCrashIff`). One that overwrote a logged cell is lost (`SavedCommitLost`); and
  leaving the logged cells alone helps only if the log is read back whole
  (`CommitSurvivesWholeLogIff`, `CommitElsewhereRegresses`).
- A commit that meets a conflict has already spent the transaction and counted it as committed
  (`Database.CommitTransaction`), so the error text's advice to retry cannot be followed with the
  same transaction (`FinalizedForGood`).
- The periodic save clears the dirty flag after releasing the lock; the flag then means what it
  should exactly when nothing slipped in between (`ClearFlagSafeIff`, `LostDirtyFlag`).
- `CreateIndex` scans the table after releasing the lock. The index agrees with the table exactly
  when writes have left every key filed where the scan found it (`StaleScanAgreesIff`). An index
  created between a write and that write's own index update files the row twice, unless the row
  lacks the field or kept its text (`LateRefileAgreesIff`, `UpdateAgreesIff`); in a run of just
  that, a query returns the row twice (`CreatedInBetween`).
- An index files text in lower case (modules/index/manager.go:303), so a query for one spelling
  is answered by rows that hold another: a row that has the field answers exactly if its text is
  the same (`SameTextAnswersIff`, `QueryByIndex`).
- A commit updates no index. All still agree exactly when it left every key of every indexed
  field filed where it was (`CommitAgreesIff`, `CommitNotIndexed`).
- The mapper takes a byte slice's base64 text for its bytes, so that only an empty one reads
  back (`BytesReadBackIff`), drops nil elements of a slice of pointers (`NilElementsReadBackIff`)
  and looks a field whose tag names nothing up under the empty key (`KeysAgreeIff`). The README
  also says that a source value that is already a `*gonum.Number` is cloned; the code assigns
  the pointer, and pointers are not JSON-shaped sources here.

## Model

| member | source | states |
|---|---|---|
| Replay.NetIsLastTouch | database.go:359-397 | a log's net effect on a cell is what the last entry touching it leaves there |
| Replay.NetOfUntouched | database.go:372-397 | the net effect is empty exactly when no entry touches the cell |
| Replay.CreatedIsUnion | database.go:376-388 | only Create and Write entries bring a table into being |
| Replay.ReplayTables | database.go:359-397 | replay adds exactly those tables and removes none |
| Replay.ReplayCell | database.go:359-397 | replay gives every touched cell the last outcome and leaves every other alone |
| Replay.ReplayOverlap | database.go:359-397 | a store holding n entries, replaying the log from r <= n, ends where the whole log ends |
| Replay.ReplayAbsorbsPrefix | database.go:359-397 | replaying all of a log over a state that already holds a prefix of it equals applying it once |
| Replay.ReplayTwice | database.go:359-397 | full replay is idempotent |
| Replay.RecoverFromWAL | database.go:348-397 | the recovery loop applies every entry in order and counts them |
| ValueCodec.SerializeRoundTrip | modules/encoding/serialize.go:22-167 | every value in range of its Go type deserialises to its widened self |
| ValueCodec.ScalarsSurvive | modules/encoding/serialize.go:22-167 | integers of every width keep their value, and strings, bytes, booleans and nil everything |
| ValueCodec.IntRoundTrip | modules/encoding/serialize.go:40-80 | the decimal text of any int64 or uint64, extremes included, parses back to it |
| ValueCodec.IntTextIff | modules/encoding/serialize.go:128-140 | decimal text is taken for an integer if and only if the wire type has it |
| ValueCodec.ParseIntIff | modules/encoding/serialize.go:128-133 | behind at most one sign, of either kind, digits are read as the number they say, up to the ends of int64 |
| ValueCodec.DecimalPlaces | modules/encoding/serialize.go:128-140 | the text is decimal, most significant digit first |
| ValueCodec.TagDecides | modules/encoding/serialize.go:109-167 | which tag reads as what: raw bytes and text, widened numbers, and what is not read at all |
| ValueCodec.SerializesIff | modules/encoding/serialize.go:22-107 | a value is refused if and only if it is a list or a map that JSON refuses |
| ValueCodec.BufferNeverOutgrown | modules/encoding/serialize.go:40-80 | no integer outgrows its pre-sized buffer, and the longest one fills it |
| Frames.Uint32RoundTrip | modules/wal/wal.go:292-295 | header words read back as written |
| Frames.LittleEndian | modules/wal/wal.go:292-295 | the four bytes of a word are those, and no others, whose little-endian weights sum to it |
| Frames.FrameableIff | modules/wal/wal.go:253-290 | an entry can be written if and only if JSON takes its value, sealing takes its record and the result is at most ten megabytes |
| Frames.DecodesIff | modules/wal/wal.go:460-493 | a payload reads as an entry if and only if it unseals to a record with its fields whose value, unless empty, can be read |
| Frames.ReadEntry | modules/wal/wal.go:418-458 | every turn that is not the end uses up at least one byte and no more than there are |
| Frames.FrameReads | modules/wal/wal.go:285-303 | a frame is read as its payload decodes, or skipped whole when checksum or decoding fails, whatever follows it |
| Frames.FramesScan | modules/wal/wal.go:285-303 | scanning the frames of a list of entries yields those entries |
| Frames.ScanConcat | modules/wal/wal.go:418-458 | after an aligned file the scanner reads what follows as if it stood alone |
| Frames.ScanOfPrefix | modules/wal/wal.go:418-458 | cutting any file short loses only a suffix of its entries |
| Frames.TornTail | modules/wal/wal.go:418-458 | of any byte prefix of a written log exactly the entries whose frames lie wholly in it are read, in order |
| Frames.WholeFramesFit | modules/wal/wal.go:418-458 | that number of entries is the one whose frames fit while one more does not |
| Frames.CorruptFrameLosesOneEntry | modules/wal/wal.go:418-458 | a payload whose checksum no longer matches loses that entry alone |
| Frames.AppendToAligned | modules/wal/wal.go:94-123 | entries appended to an aligned file are read back after the old ones |
| Frames.SplitAtTear | modules/wal/wal.go:418-458 | every file is an aligned part and a torn frame that is not read |
| Frames.ScanAfterTear | modules/wal/wal.go:94-123 | for any file and anything appended: nothing new is read until the torn frame is complete, then at most one patched frame, then whatever the scanner finds from there |
| Frames.AlignedIff | modules/wal/wal.go:94-123 | whatever is appended is read as if it stood alone if and only if the file ends where a frame ends |
| Frames.Reader.ReadFull | modules/wal/wal.go:434-452 | all the bytes asked for, or one of two errors that have used up the rest |
| Frames.ReadEntryFrom | modules/wal/wal.go:434-493 | the reader-based readEntry consumes and returns what ReadEntry says |
| Frames.ReadAll | modules/wal/wal.go:405-431 | the scanning loop ends on every file and returns its scan; a missing file has no entries |
| WriteOps.LogRefinesOperation | database.go:770-905 | replaying what an operation appended does what it did, in any order of a batch's map, and nothing for a duplicate Create |
| WriteOps.LogRefinesData | database.go:752-926 | replaying the log of any run of operations over the initial data yields the live data |
| WriteOps.ReplyMeans | database.go:766-917 | Done exactly if the table was missing, for a Create, or there, for the rest; then the cells named hold what was asked for and no other has changed; any other reply says why and leaves the store as it was |
| WriteOps.CountedMeans | database.go:760-917 | a handled Create always counts, the rest exactly when done; a skipped operation gets no reply and does nothing |
| WriteOps.LoggedIff | database.go:770-905 | what counts is logged, a duplicate Create included, and nothing else: one entry, or one for each key of a batch |
| WriteOps.LastReply | database.go:752-926 | after any operations whatever, the next is told Done exactly if its table is missing, for a Create, or there |
| WriteOps.SuccessesIff | database.go:919-922 | the version moves if and only if some operation was a handled Create or was done |
| WriteOps.EffectsConcat | database.go:744-961 | data, replies and success counts do not depend on where the stream is cut into batches |
| WriteOps.EntriesConcat | database.go:744-961 | nor do the log entries |
| WriteOps.NoSuccessNoChange | database.go:919-922 | a batch that leaves the version alone left the data alone |
| WalPipeline.BufferedWriteKeepsBytes | modules/wal/wal.go:297-303 | a buffered write adds its bytes at the end, spills only forward and stays within the buffer |
| WalPipeline.SpillsIff | modules/wal/wal.go:297-303 | the file grows if and only if the buffer has no room for the bytes |
| WalPipeline.WriteEntryAddsFrame | modules/wal/wal.go:253-317 | one entry adds exactly its frame, its size and, past the limit, the rotation flag |
| WalPipeline.FlushBatchExactly | modules/wal/wal.go:217-248 | a flush writes the frames up to the first entry that cannot be written and loses the rest of the batch; only if all was written is it counted, the writer emptied and, with group commit, the file fsynced |
| WalPipeline.FlushKeepsAllIff | modules/wal/wal.go:217-248 | a flush loses no entry if and only if all of the batch can be written; on a file that ends where a frame ends, if and only if all that is held can still be read |
| WalPipeline.RotateConserves | modules/wal/wal.go:504-551 | rotation moves file, writer and batch away whole and leaves hand and channel; with an entry that cannot be written it is just the failed flush |
| WalPipeline.OnlyWhenOpen | modules/wal/wal.go:504-514 | a closed log takes, syncs and rotates nothing, and an open one is rotated only when asked |
| WalPipeline.NextConserves | modules/wal/wal.go:139-402 | every step of every worker accounts for the accepted entries: each is somewhere or lost, once, and what is somewhere is in order |
| WalPipeline.RunConserves | modules/wal/wal.go:94-402 | so does every interleaving, from any log file and given any entries: rotated files, file and writer together are the old bytes and the frames of the accepted entries up to those in batch, hand and channel, but for those a failed flush dropped; without an unframeable entry none is; size counts the current bytes |
| WalPipeline.CanDrain | modules/wal/wal.go:159-248 | from every state of an open log the workers can take everything in flight to the disk: then all is fsynced and, if it can all be framed, framed in order behind what was |
| WalPipeline.AllBytesConserved | modules/wal/wal.go:139-402 | the conserved state in bytes: rotated files joined, file and writer, and the entries not yet among them |
| WalPipeline.HeldIsAccepted | modules/wal/wal.go:405-458 | from a log opened on an aligned file all that is accepted and not lost can be read, in order, from where it is |
| WalPipeline.SyncDurableIff | modules/wal/wal_sync.go:29-69 | Sync makes the frames of everything accepted durable if and only if nothing is on its way to the writer and nothing was lost |
| WalPipeline.SyncReadableIff | modules/wal/wal_sync.go:29-69 | and readable, from an aligned file, under the same condition |
| WalPipeline.CrashReads | modules/wal/wal.go:405-458 | what a crash leaves of the current file reads as exactly the whole frames of this log's entries, or behind a torn frame as the scanner makes of it; nothing fsynced is missing |
| WalLog.Log.constructor | modules/wal/wal.go:89-123 | the log opens over the existing file and counts its size |
| WalLog.Log.Append | modules/wal/wal.go:139-157 | an open log queues the entry, a closed one refuses it, and a channel that stays full is an error that leaves no trace |
| WalLog.Log.Receive | modules/wal/wal.go:169-175 | the batch writer takes the oldest queued entry |
| WalLog.Log.AddToBatch | modules/wal/wal.go:175-182 | the taken entry joins the batch, and the flush threshold is reported |
| WalLog.Log.WriteEntry | modules/wal/wal.go:253-317 | an entry is framed into the writer, or refused without a trace |
| WalLog.Log.FlushBatchLocked | modules/wal/wal.go:217-248 | the loop does what FlushBatch says and reports whether all was written |
| WalLog.Log.Sync | modules/wal/wal_sync.go:29-69 | writer flushed and file fsynced, unless closed |
| WalLog.Log.RotateFile | modules/wal/wal.go:504-573 | the rotation, with its early exits |
| WalLog.Log.RotationTurn | modules/wal/wal.go:388-401 | the watcher rotates only when asked and lowers the flag either way |
| SecondaryIndex.RefileAgrees | modules/index/manager.go:104-133 | one update keeps an index in agreement with a scan: lists non-empty, duplicate-free and exact |
| SecondaryIndex.UnfileAgrees | modules/index/manager.go:151-169 | so does one deletion |
| SecondaryIndex.AgreementIsUnique | modules/index/manager.go:42-57 | agreement determines every answer up to order |
| SecondaryIndex.FoundIsAnswer | modules/index/manager.go:225-304 | a key is filed under a value exactly when its row has the field with the same text, nil counting as null |
| SecondaryIndex.SameTextAnswersIff | modules/index/manager.go:268-304 | a row answers for another value if and only if the two have the same text |
| SecondaryIndex.IndexEffectAgrees | database.go:792-893 | every operation keeps all indexes in agreement with the store |
| SecondaryIndex.IndexEffectsAgree | database.go:757-926 | so does every run of processBatch |
| SecondaryIndex.EveryStateAgrees | modules/index/manager.go:30-182 | so does every state of every run of operations, index creations and drops |
| SecondaryIndex.StaleScanAgreesIff | database.go:631-645 | an index scanned from rows that have changed since agrees with the table if and only if every key is filed as it was |
| SecondaryIndex.LateRefileAgreesIff | database.go:792-803 | an index update that comes after the scan has seen its row keeps agreement if and only if the row lacks the field or kept its text |
| SecondaryIndex.LateUnfileIsHarmless | database.go:864-874 | a deletion's update that comes late changes nothing |
| StaleIndexes.UpdateAgreesIff | database.go:792-803 | when a write's index update is done, all indexes agree if and only if none created since the write has filed its row twice |
| StaleIndexes.RunInStep | modules/index/manager.go:30-134 | over every run of writes and index updates as separate steps, creations and drops, where no update files a row twice, all indexes agree whenever no write is under way |
| StaleIndexes.CreatedInBetween | database.go:631-670 | a run of write, creation and index update that ends with a query returning the row twice |
| StaleIndexes.CommitAgreesIff | database.go:724-739 | after a commit all indexes agree if and only if it left every key of every indexed field filed where it was |
| StaleIndexes.CommitNotIndexed | database.go:724-739 | a committed row that its index does not list |
| IndexManager.Index.Remove | modules/index/manager.go:111-121 | the first occurrence goes, the gap closes, an emptied list is deleted |
| IndexManager.Manager.CreateIndex | modules/index/manager.go:30-57 | an existing index is left alone; a new one agrees with the rows, in whatever order they come |
| IndexManager.Manager.Query | modules/index/manager.go:59-87 | two distinct errors, else the posting list of the formatted value |
| IndexManager.Manager.UpdateIndex | modules/index/manager.go:89-134 | only the named index changes, to its refiled self |
| IndexManager.Manager.DeleteFromIndex | modules/index/manager.go:136-170 | only the named index changes, to its unfiled self |
| IndexManager.Manager.UpdateAllFields | database.go:798-803 | the loop over indexed fields refiles the key in each, in any order |
| IndexManager.Manager.DropIndex | modules/index/manager.go:172-182 | the named index goes, the others stay |
| Transactions.ApplyChangesCell | database.go:725-736 | a changed cell gets its new value or goes if nil, no other cell moves, every named table exists |
| Transactions.Transaction.Write | modules/tx/manager.go:86-100 | the change is recorded, unless the transaction is finalized |
| Transactions.Transaction.Delete | modules/tx/manager.go:102-116 | a deletion is recorded as nil, unless finalized |
| Transactions.TxManager.Commit | modules/tx/manager.go:54-68 | an open transaction is marked, counted and hands out its changes; a finalized one is refused |
| Transactions.TxManager.Rollback | modules/tx/manager.go:70-84 | an open transaction is aborted and counted; a finalized one is refused |
| TxRuns.VersionPinsData | database.go:712-740 | along any run the version never falls, and equal versions mean equal data |
| TxRuns.RunIsSerializable | database.go:673-741 | the store is its history done serially; each committed transaction read the state it was applied to; snapshot versions of commits strictly increase |
| TxRuns.CommitAppliesIff | database.go:702-741 | a commit takes effect if and only if the transaction is open and the version unmoved; then its snapshot is the store and its change set is applied whole |
| TxRuns.FinalizedForGood | modules/tx/manager.go:54-68 | a finalized transaction never changes or commits again, after a conflict included |
| TxRuns.OpenHolds | modules/tx/manager.go:86-116 | along any run an open transaction has the snapshot and version it began with, and of every cell the value it was last given |
| TxRuns.OpenCommits | database.go:673-741 | as long as it is open and the version stands still its commit applies, and every cell becomes what was last given, or stays |
| TxRuns.LoneCommit | database.go:673-741 | begin, write, commit with nobody else: the value is in the store and nothing else has changed |
| TxRuns.RolledBackForGood | modules/tx/manager.go:70-84 | a rollback leaves the store alone, and no run commits that transaction afterwards |
| TxRuns.BatchTaken | database.go:752-926 | the database object's batches are steps of those runs |
| TxRuns.BeginTaken | database.go:673-700 | and so are its begins |
| TxRuns.ChangeTaken | modules/tx/manager.go:86-100 | and a transaction's writes |
| TxRuns.RollbackTaken | modules/tx/manager.go:70-84 | and rollbacks |
| TxRuns.CommitTaken | database.go:702-741 | and commits, applied, refused or in conflict |
| TxRuns.LoneTransaction | database.go:673-741 | and the database object does the same for a transaction that meets no conflict |
| Storage.OldOrNew | modules/storage/engine.go:43-81 | at every moment of a save the snapshot file is the old one or the new one whole, and what is not yet in place is a prefix of it in the temporary file |
| Storage.NothingSaved | modules/storage/engine.go:87-90 | without a snapshot file an empty store loads |
| Storage.SavedLoads | modules/storage/engine.go:43-120 | a store that JSON and the cipher keep loads as itself, from the ciphertext of its JSON |
| Storage.LoadsIff | modules/storage/engine.go:107-117 | a file loads as a store if and only if it decrypts to that store's JSON |
| Storage.Engine.Save | modules/storage/engine.go:43-81 | success leaves the encoded store, failure the old file, and a crash in between one of the two |
| Storage.Engine.Load | modules/storage/engine.go:83-120 | an empty store if there is no file, else what the file decodes to |
| Storage.Engine.SaveThenLoad | modules/storage/engine.go:43-120 | what was saved is what loads next; after a failed save, what would have loaded before |
| Database.Database.Init | database.go:219-278 | the opened store is the snapshot that was saved, or an empty store if there is none, with the readable log replayed over it; nothing opens if a snapshot does not load |
| Database.Database.ApplyOne | database.go:760-917 | one operation: store, reply, counter, log and indexes; skipped operations get no reply |
| Database.Database.ProcessBatch | database.go:752-926 | a batch does its operations in order; version and dirty flag move if and only if one succeeded; indexes that agree with the store go on agreeing |
| WriteLoop.LoopKeepsAll | database.go:926-961 | every operation received is in one batch or waiting, once and in order, and none waits when the loop has ended |
| WriteLoop.BatchRunsIff | database.go:926-961 | a batch runs exactly on a tick, at the end, and when draining has fifty; fewer than fifty wait while draining |
| WriteLoop.DoneByTick | database.go:956-957 | what was received before any tick is in the batches run by then, which later events only add to |
| WriteLoop.LoopMeans | database.go:926-961 | the same of the whole loop |
| Database.Database.ProcessWriteBuffer | database.go:744-961 | the loop runs the batches of WriteLoop; the result is that of the operations one at a time, each batch that changes anything raises the version, what came before a tick is done by it, and closing leaves none undone |
| Database.Database.BeginTransaction | database.go:673-700 | a new open transaction without changes, with the store and the version of the moment |
| Database.Database.CommitTransaction | database.go:702-741 | finalized, conflict or applied, and what each does to store, version and transaction |
| Database.Database.ApplyChangeSet | database.go:725-736 | the nested loops apply the change set, in any order of its maps |
| Database.Database.CreateIndex | database.go:631-645 | the new index exists, and all agree with the store if and only if every key is still filed where the scan found it |
| Database.Database.QueryByIndex | database.go:647-670 | the rows still present under the listed keys; with agreeing indexes exactly the rows that have the field with the text of the value, each once |
| Database.Database.WaitForPendingOps | flush.go:129-159 | nil exactly when some poll before the timeout read zero |
| Database.Database.Flush | flush.go:40-119 | exactly when it returns nil, what is on disk then and otherwise, and that errors leave the flag |
| Database.Database.VerifyFlush | flush.go:174-205 | true exactly when the file loads and is the same JSON as the store |
| FlushRuns.FlushedMeansPersisted | flush.go:40-119 | over every run of batches, commits and flushes a clear flag, and a flush returning nil, mean the snapshot holds the store |
| FlushRuns.PersistedIff | flush.go:174-205 | where JSON tells the two apart, the verification succeeds if and only if what loads next is the live store |
| FlushRuns.FlushWorks | flush.go:40-119 | of a store that the codec keeps a flush returns nil if and only if there was nothing to save or no call failed, and then what loads is the store |
| FlushRuns.ClearFlagSafeIff | database.go:1032-1050 | after a periodic save of a store that JSON keeps, the cleared flag is truthful if and only if the store's JSON did not change in between; an unmoved version is enough |
| FlushRuns.LostDirtyFlag | database.go:1032-1050 | a run where a table is acknowledged, the flag is clear, Flush returns nil and the snapshot lacks it |
| FlushRuns.BatchStep | database.go:752-926 | the database object's batches are steps of those runs |
| FlushRuns.CommitStep | database.go:702-741 | and its commits, where they apply |
| FlushRuns.FlushStep | flush.go:40-119 | and its flushes, which return nil where the runs say so |
| Reopening.ReopenedCell | database.go:220-247 | each cell has its value after m if a replayed entry touches it, else its value after n; tables are the union |
| Reopening.ReopenedExactly | modules/wal/wal.go:504-551 | with rotation r, snapshot n and readable log m, r <= n <= m recovers exactly the state after m |
| Reopening.SnapshotAheadSurvivesIff | database.go:220-247 | a snapshot ahead of the log survives if and only if no replayed cell has changed since |
| Reopening.RotatedPastSnapshotSafeIff | modules/wal/wal.go:504-551 | a rotation past the snapshot loses nothing if and only if the remaining entries make good what was dropped |
| Reopening.SurvivesReplayIff | database.go:348-397 | a log leaves a store as it is if and only if the store has the tables it makes and its outcome in every cell it touches |
| Reopening.SavedCommitSurvivesIff | database.go:724-739 | a saved commit survives the replay of a log if and only if it left the tables and cells as the log makes them; of a log the store had absorbed, if and only if it left every cell that the log touches as it was |
| CrashRecovery.BatchIsRun | database.go:752-926 | what ProcessBatch promises of store and log is a run of the crash machine |
| CrashRecovery.RunIsSound | database.go:702-926 | in every state of every run of operations, commits, log steps, saves and crashes, from any log file, the log accounts for all its bytes and entries, the store is what has been done to it since it was opened, and the snapshot file an image of it at some point since |
| CrashRecovery.CrashRecoversCells | modules/wal/wal.go:405-493 | for every run through any crashes and every further crash, exactly which entries are replayed over the snapshot and what each cell becomes; nothing fsynced is missing |
| CrashRecovery.CrashRecoversWidened | database.go:220-247 | as long as no flush has failed, with n entries in the snapshot and r to m read back, each cell is what m entries leave in it, widened if this log wrote it, or the snapshot's; without commits that is then unchanged from n to m |
| CrashRecovery.LoggedIsWritten | modules/wal/wal.go:217-248 | as long as no flush has failed, the log's files hold what was written, in order, up to what is still on its way |
| CrashRecovery.CrashRecoversExactly | database.go:348-397 | where moreover nothing was committed, the file codec reloads the saved store and the log kept the entries read, the crash is the reopening at r, n and m, and the state after m when r <= n <= m |
| CrashRecovery.AllLivesInStep | modules/wal/wal.go:94-123 | if every crash leaves a file that ends where a frame ends, every life reads its log in step |
| CrashRecovery.StoreAbsorbsLog | database.go:348-397 | as long as nothing was committed, replaying the log, from any entry on, over the store changes nothing |
| CrashRecovery.LiveSnapshotSurvivesIff | database.go:348-397 | a snapshot that is the live store, commits included, survives a crash if and only if what is read back makes no table it lacks and leaves nothing in a cell that is not there |
| CrashRecovery.NeverShortIff | flush.go:74-106 | no crash reads short of the snapshot if and only if what is fsynced reaches as far |
| CrashRecovery.FlushedNeverShort | flush.go:74-106 | after a save and a sync with nothing in flight or lost, none does |
| CrashRecovery.FlushedComesBack | flush.go:74-106 | and what comes back is exactly the store that was flushed |
| CrashFailures.TornReopenHidesSyncedEntries | modules/wal/wal.go:94-123 | a run of two lives in which an entry fsynced behind a torn frame is gone after a crash that loses no byte |
| CrashFailures.SnapshotAheadRegresses | flush.go:74-106 | a reachable state in which reopening undoes an acknowledged, saved write |
| CrashFailures.FailedFlushLosesBatch | modules/wal/wal.go:217-248 | a run in which an entry that cannot be framed takes an acknowledged, synced write with it |
| CrashFailures.RotationLosesSyncedEntries | modules/wal/wal.go:504-551 | a run that fsyncs an entry, rotates it away unsaved and does not get it back |
| CrashFailures.CommitSurvivesCrashIff | database.go:724-739 | in any state, a commit that is then saved survives any crash if and only if the entries read back make no table it lacks and leave nothing in a cell that it has not left there |
| CrashFailures.CommitSurvivesWholeLogIff | database.go:724-739 | a first commit, with all the log read back as written, if and only if it left every logged cell as it was |
| CrashFailures.CommitElsewhereRegresses | database.go:724-739 | a run in which a saved commit to another table does not keep an older write from coming back |
| CrashFailures.SavedCommitLost | database.go:724-739 | a run after which a commit over a logged cell, saved, comes back undone |
| DeepCopy.DeepCopyValue | database.go:1296-1321 | the copy shows the same tree through fresh objects |
| DeepCopy.CreateSnapshot | database.go:691-700 | the snapshot shows the same store through fresh objects |
| DeepCopy.SnapshotIsolated | database.go:691-700 | whatever happens to other objects, the snapshot shows what it was taken of |
| DeepCopy.SnapshotThenOverwrite | database.go:673-700 | a live map and a live byte slice overwritten after the snapshot leave it as it was |
| LockOrder.TasksInOrder | modules/wal/wal.go:502-530 | every operation of the write path takes the mutexes in order and gives them back |
| LockOrder.WorkIsGuarded | modules/wal/wal.go:502-573 | each operation does its work, each piece of it under the mutexes that guard it |
| LockOrder.DeadlockFree | modules/wal/wal.go:502-530 | for any number of threads, in every reachable state with an unfinished thread some thread can go on |
| LockOrder.CanFinish | modules/wal/wal.go:502-530 | and all of them can be run to their end |
| Mapper.MapToStruct | modules/mapper/mapper.go:46-160 | the loop sets each field from its key and leaves the others |
| Mapper.ConvertSlice | modules/mapper/mapper.go:162-207 | the loop keeps the items that are maps, in order |
| Mapper.StructReadsBack | modules/mapper/mapper.go:46-207 | a readable struct of any nesting is rebuilt from its JSON shape |
| Mapper.StructReadsOver | modules/mapper/mapper.go:46-207 | into a struct that holds something, the value is laid over it: struct fields are merged, null keeps what was there, all else is replaced |
| Mapper.OwnKeyOnly | modules/mapper/mapper.go:69-77 | a field depends on its own key alone and keeps what it holds if that is missing or nil |
| Mapper.OtherShapesKeep | modules/mapper/mapper.go:85-157 | and so it does for a value of a shape its type does not take |
| Mapper.KeyIs | modules/mapper/mapper.go:63-67 | the key is the tag up to its first comma, or the Go name without a tag |
| Mapper.IntsConvert | modules/mapper/mapper.go:223-305 | a Go integer becomes the one number of the field's type that differs from it by a multiple of the type's size: itself exactly if the type has it |
| Mapper.FloatsConvert | modules/mapper/mapper.go:223-305 | a float whose whole part the type has is cut towards zero |
| Mapper.WideFloatsConvert | modules/mapper/mapper.go:223-305 | and one whose whole part only the 64-bit type has is cut like an integer after that |
| Mapper.NumbersRead | modules/mapper/mapper.go:436-458 | every shape in which a number may come reads as that number, and a number is taken from no other |
| Mapper.BytesFromList | modules/mapper/mapper.go:357-381 | a list is taken for bytes if and only if each item is of the kinds taken for a byte, and then item by item |
| Mapper.BytesRead | modules/mapper/mapper.go:349-382 | bytes and text are taken as they are, a list if all of it can be |
| Mapper.KeysAgreeIff | modules/mapper/mapper.go:63-67 | when the mapper looks where JSON writes |
| Mapper.BytesReadBackIff | modules/mapper/mapper.go:349-357 | a byte slice reads back if and only if it is empty |
| Mapper.NilElementsReadBackIff | modules/mapper/mapper.go:172-204 | a slice of pointers reads back if and only if none is nil |

## Left out

- Log append failures inside processBatch (a shadowed error and a partial rollback): the log is open while the write loop runs and takes every entry before the timeout.
- `EnableWAL`, `EnableIndexes` and `EnableTransactions` set to false: the default configuration is modelled.
- `Import`, `ImportEncrypted`, `ChangeKey` and the reload of `fileOnChange`, which replace the store without the version or the indexes.
- `Truncate` as a step of the pipeline; its locking is in `LockOrder`. The races around `Close`, channel close and context cancellation.
- Failing system calls in the log (write, fsync, rename); the names of rotated files and their removal after thirty seconds, since `ReadAll` never reads them.
- An fsync that races with a rotation and reaches the old file: the sync step applies to the file of the moment.
- A killed process followed by a machine crash: what a log finds in its file when it is opened counts as on disk.
- Entry timestamps and transaction ids, which replay never reads; the random nonce of the cipher, so that sealing is a function.
- Counters beyond 64 bits: versions and sizes are unbounded.
- Floating point: reals stand in for floats, with NaN, infinities and rounding left to the codec parameters.
- Stored struct values: `extractFieldValue` on structs, Stringer and fixed-size arrays are behind the formatter parameter; values the deep copy sends through JSON.
- Reads in the middle of a batch or between an index query and its row lookup: each locked section is one step.
- Mapper fields of float, array, scalar-slice, embedded or unexported kind, `omitempty`, slices of `*gonum.Number`, tags with `,string`, and strings that are not valid UTF-8, which JSON does not keep.
- The metrics, backups, logging, key handling, timers and configuration paths.
- Database.Database.Flush: polls of the pending counter are a parameter, because other threads move it.
- CrashRecovery.CrashRecoversExactly: for crashes that read in step, logs that have lost nothing and stores without commits since they were opened; otherwise what is read need not be a piece of what was written, or the store not what the log makes, and `CrashRecoversCells` says what comes back.
- IndexManager.Manager.Query: the posting list is taken in one step, while modules/index/manager.go:76-85 copies it after releasing the index lock and an update shifts the same array in place, so that a query racing with an update may see a key twice or not at all.
- TxRuns.VersionPinsData: callers never change a map, list or byte slice after handing it to the store, nor one that a read or `QueryByIndex` (database.go:664) handed out; `Write` keeps the caller's own.
- Storage.OldOrNew: a rename counts as on disk when it returns; `atomicWrite` does not fsync the directory after it.
- Mapper.StructReadsBack: integers beyond 2^53 in absolute value are excluded, since JSON numbers come back as float64.
- WalPipeline.SyncDurableIff: says nothing about how long draining the channel may take.
