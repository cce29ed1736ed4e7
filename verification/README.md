# Verification of the vendored Redis core

A model, in Dafny, of the hard parts of the Redis 7.2.4 server vendored under `redis-7.2.4/`, with proofs of what
those parts are for. `dafny verify dfyconfig.toml` checks everything.

## What is modelled

- **Multi-part append-only persistence** (aof.c, bio.c). `AofStore` is the state machine of manifest, files, buffer
  and child over an abstract dataset; `AofInvariant` proves its runs, `AofExact` says what happens without their
  assumptions; `AofServer` is the server object whose methods make the steps. `AofLog`, `AofLogProofs` and `AofLoader`
  are the log in bytes: encoder, truncating loader, and what loading twice does. `AofFlush` is the write of the buffer
  with partial writes, `Bio` the worker lists, `AofSync` the interleaving of main thread and fsync worker,
  `AofRewrite` the chunked rewrite of a value.
- **CRC** (crc64.c, crc16.c, crcspeed.c). `CrcRegister` is the algebra for any polynomial, `Crc64` and `Crc16` the
  tables and readers, `Crc16Table` the literal table of crc16.c. Words are sequences of bits (`Words`).
- **ACL command rules** (acl.c, and sdssplitargs and sdscatrepr of sds.c). `AclRules` is the text and its
  splitting, `SdsRepr` the quoting that splitting undoes, `Acl` the operations and their meaning, `AclReplay` what
  replaying rebuilds, `AclExact` exactly when it does, `AclSelector` the object changed in place.
- **Blocked clients** (blocked.c, adlist.c). `AdList` is the doubly linked list on the heap with its iterators,
  `BlockIndex` and `Blocked` the index, counters and queues as a state machine, `BlockServe` the serving loop over its
  steps, `BlockedServer` the object whose methods make them.
- **Bit operations** (bitops.c). `BitString`, `Bitfield`, `Popcount`, `BitRange`, `BitPos`, `BitOp`.

Code that updates state step by step is a method with its loops, proved equal to a function of the old state; the laws
are lemmas about those functions and about runs.

## What the main theorems rest on

- Dataset and commands are abstract: `Semantics` says what a command does to the selected database, and the child
  process writes a snapshot that loads as the dataset of the moment of the fork.
- `AofInvariant.DiskReplaysToTruth`: a manifest is either installed, and then reported so, or not installed
  (`InstalledButFailed` is not among the steps), and a rewrite goes on only if the forced flush emptied the buffer.
  Both conditions are shown to be needed, see below. Runs start on an empty directory and persistence stays on.
  Flushes move whole log entries, and a crash keeps the closed files and any number of whole entries of the open one:
  that a file cut at any byte executes a prefix of its commands is `AofLogProofs.PrefixLoads`.
- `AofSync.PublishedIsDurable`: `Legal` steps (commands are not empty and move the replication offset, no partial
  write is taken back on a file opened without O_APPEND, a rewrite goes on with an empty buffer) and no failed fsync
  of the worker. A successful fsync makes durable what the file held when it began.
- `Blocked.AlwaysInv`: the steps are taken when the server can take them (`Enabled`): a client that is blocked is not
  blocked again or freed before it has been unblocked.
- ACL theorems: a well-formed command table (names in lower case, without bars, blanks or quotes; only a command
  without subcommands has first arguments; the reserved id is no command's).

## Where the code does not do what it is for

Each of these is a theorem with the exact condition.

- A first argument with a blank or a quote is accepted, but the text of the rules cannot carry it. A selector can be
  replayed from its rules exactly when no such argument was ever allowed (`AclExact.RunExact`,
  `AclExact.ReplayExact`). With a blank, describing the selector panics, unless something stands before the blank and
  what stands behind it is accepted and grants no command, such as `~*`, `allkeys` or `-get`: in that case the grant is
  lost silently (`AclExact.BlankExact`). Other patterns are refused there, as they come with length -1 (acl.c:217-222,
  760, 1066).
- A log cut inside a command of an open MULTI block, or inside an annotation outside one, loads; but what is appended
  afterwards can be lost at the next load. Nothing is lost exactly when the cut was safe (`AofLogProofs.ReloadExact`);
  after a cut annotation, exactly when the next thing written is not a command (`AofLogProofs.AnnotationCutExact`), so
  a server that writes annotations heals such a file; after a cut in the block, exactly when what is written runs the
  same inside it (`AofLogProofs.CommandCutExact`), so every command that is completed is lost.
- A file opened for truncation at aof.c:809 has no O_APPEND. After a short write that was taken back its position is
  beyond the end (`AofFlush.FlushStaysAtEnd`), and the next bytes that stay in the file leave a hole before them
  (`AofFlush.HoleFollows`). The log is whole exactly when that never happens (`AofFlush.RunConservesExactly`).
- A rewrite goes on when its forced flush failed. Once it commits, a restart is right exactly when no command was left
  in the buffer (`AofExact.RewriteNeedsEmptyBuffer`), and the published offset exactly when nothing was
  (`AofSync.RewriteHonestOnlyIfFlushed`). Before that, what was left runs in the wrong database unless it selects one
  first or follows database 0 (`AofExact.SwitchNeedsSelect`).
- A manifest that was renamed into place but reported as failed loses its base file exactly when the handler removes
  it (`AofExact.FailedReportNeedsNoUnlink`).
- Under policy `always` the published offset can go back: exactly when an fsync of the main thread overtakes a
  CLOSE_AOF job that is older than the last command (`AofSync.GoesBackExactlyIf`, `AofSync.AlwaysGoesBack`). The
  pending offset is replaced, not raised, at bio.c:275.
- BITFIELD SET with SAT stores the upper bound for a value below the range exactly when it is 2^63 or more below that
  bound (`Bitfield.SignedSet`). The comment at bitops.c:329-332 argues from values within the range only.

## Model

| member | source | states |
|---|---|---|
| AofInvariant.DiskReplaysToTruth | redis-7.2.4/src/aof.c:2425-2493 | In every run of commands, flushes, rewrite starts, child successes and failures, rename, link and manifest failures, history deletions and crashes that may cut the open file: loading what the on-disk manifest names succeeds, and then replaying the buffer gives the dataset in memory; after a crash memory is what the files, with the open one cut, hold |
| AofInvariant.CrashLosesASuffix | redis-7.2.4/src/aof.c:1649-1772 | Whatever a crash loses of the open file and the buffer, the commands that are left are the first ones, each in its database |
| AofInvariant.EveryCommandInItsDatabase | redis-7.2.4/src/aof.c:1320-1359 | For every sequence of (database, command) pairs and every placement of rewrites, replaying each file alone from database 0 runs every command fed so far, in order, in the database it was fed for |
| AofInvariant.ManifestRoundTrip | redis-7.2.4/src/aof.c:256-382 | Neither the duplicate-base nor the monotonicity check fires on a manifest this server wrote; reading it back gives the same base, INCR list and sequence numbers |
| AofInvariant.LoadsExactlyIf | redis-7.2.4/src/aof.c:256-382 | A manifest is accepted exactly if it has lines, positive numbers, at most one BASE line and INCR lines in increasing order; then BASE, HISTORY and INCR are the lines of their kind, in order, and the numbering goes on from the last |
| AofInvariant.BootsExactlyIf | redis-7.2.4/src/aof.c:1649-1772 | The server starts exactly if there is no manifest, or it is accepted and every BASE and INCR file it names exists and is of its type |
| AofInvariant.NumbersGrow | redis-7.2.4/src/aof.c:427-464 | BASE and INCR sequence numbers never go back, in any run, across restarts too |
| AofInvariant.SavedUnlessDirty | redis-7.2.4/src/aof.c:526-615 | In every run the manifest a restart reads is exactly the one in memory, unless that is marked as changed, which happens only if saving it without history has failed |
| AofInvariant.HistoryIsUnused | redis-7.2.4/src/aof.c:668-692 | No HISTORY file, the only kind that is deleted, is named as BASE or INCR |
| AofInvariant.DelHistoryRemoves | redis-7.2.4/src/aof.c:668-692 | When deletion is enabled, exactly those history files go whose unlink succeeds, no other file changes, and neither the manifest in memory nor the saved one names history any more |
| AofInvariant.RewriteLeaves | redis-7.2.4/src/aof.c:2582-2720 | A committed rewrite with every unlink succeeding leaves the snapshot as BASE, the open INCR file, and of the other files only those that no manifest named |
| AofInvariant.RewriteDoneKeeps | redis-7.2.4/src/aof.c:2582-2742 | Whatever fails in the done handler, the invariant behind the run theorem holds afterwards |
| AofInvariant.AbortLeaves | redis-7.2.4/src/aof.c:2618-2742 | A rewrite that does not commit changes nothing but the child, and leaves the new BASE file exactly if it was renamed and not removed again |
| AofInvariant.StartLeaves | redis-7.2.4/src/aof.c:2425-2493 | Starting a rewrite writes the given entries to the open file, makes an empty next file, switches to it only if its manifest was saved, and has a child, with the dataset of that moment, only if the fork succeeded too; while one is running nothing happens |
| AofInvariant.BootKeeps | redis-7.2.4/src/aof.c:713-768 | A restart from any files of a run succeeds, loads what they hold, and continues with the same base and INCR list |
| AofInvariant.StartMakes | redis-7.2.4/src/aof.c:713-758 | A start makes an INCR file if the manifest has none, and a BASE file with the dataset if it has neither, saves the manifest exactly then, and opens the last INCR file |
| AofExact.RewriteNeedsEmptyBuffer | redis-7.2.4/src/aof.c:2437-2444 | A rewrite whose forced flush leaves entries in the buffer, then any feeds, flushes, history deletions and refused starts, then a commit, whatever becomes of the history files: a restart finds the snapshot, the left-over commands again, and what was executed since; it agrees with memory, and the invariant holds again, exactly when no command was left over |
| AofExact.SwitchNeedsSelect | redis-7.2.4/src/aof.c:2430-2444 | Before the commit: right after the switch of the file a restart agrees with memory exactly when the left-over entries select a database before they run a command in it, or the one selected in front of them is 0 |
| AofExact.SnapshotIsLoaded | redis-7.2.4/src/aof.c:2618-2720 | A rewrite that commits, with any outcome of the deletion of history, makes a restart load the snapshot of the fork and then the open file |
| AofExact.FailedReportNeedsNoUnlink | redis-7.2.4/src/aof.c:2618-2700 | A manifest renamed into place but reported as failed (570-586): the restart fails exactly when the done handler then removed the new BASE file |
| AofExact.FailedReportOnOpenIsHarmless | redis-7.2.4/src/aof.c:790-853 | The same false report while a new INCR file is opened loses nothing |
| AofServer.ReadManifest | redis-7.2.4/src/aof.c:256-382 | The reading loop is LoadManifest on all lines: same result, same error for the first bad line |
| AofServer.ManifestText | redis-7.2.4/src/aof.c:192-220 | The text is BASE, then HISTORY, then INCR lines, in that order |
| AofServer.MarkRewrittenIncrAsHistory | redis-7.2.4/src/aof.c:492-522 | The loop from the tail turns every INCR file but the last into history, and nothing else |
| AofServer.LoadAppendOnlyFiles | redis-7.2.4/src/aof.c:1649-1772 | The loop loads the base, then every INCR file in order, each from database 0, or stops at the first missing file |
| AofServer.AofServer.FeedAppendOnlyFile | redis-7.2.4/src/aof.c:1320-1359 | SELECT when the database changed, then the command, at the end of the buffer |
| AofServer.AofServer.PersistManifest | redis-7.2.4/src/aof.c:598-608 | The manifest on disk after the call and what the caller is told, for the three outcomes: installed, failed, installed but reported as failed |
| AofServer.AofServer.OpenNewIncrAofForAppend | redis-7.2.4/src/aof.c:790-853 | The new state, for every outcome: file not created, manifest not saved, or the switch with the selected database forgotten |
| AofServer.AofServer.RewriteAppendOnlyFileBackground | redis-7.2.4/src/aof.c:2425-2493 | The new state, for every outcome of the forced flush, the new INCR file and the fork |
| AofServer.AofServer.DelHistoryFiles | redis-7.2.4/src/aof.c:668-692 | The HISTORY files go and the manifest is saved without them, unless deletion is disabled |
| AofServer.AofServer.BackgroundRewriteDoneHandler | redis-7.2.4/src/aof.c:2582-2742 | The new state, for every failure point: rename of the BASE file, manifest, child exit status |
| AofServer.AofServer.StartWith | redis-7.2.4/src/aof.c:713-768 | A missing base is written as a snapshot, a missing INCR file is made, and the manifest saved if it changed |
| AofServer.AofServer.Restart | redis-7.2.4/src/aof.c:1649-1772 | A restart is Boot: manifest, files, then what is missing; a failed load leaves the state alone |
| AofLog.CatGenericCommand | redis-7.2.4/src/aof.c:1268-1291 | The loop appends the length-prefixed encoding of the arguments, any bytes allowed |
| AofLogProofs.PrefixLoads | redis-7.2.4/src/aof.c:1395-1646 | Loading any byte prefix of a log never fails and executes exactly the commands wholly in it, in order, with each MULTI..EXEC block entirely or not at all |
| AofLogProofs.FullLogLoads | redis-7.2.4/src/aof.c:1395-1646 | A whole log decodes to the commands that were encoded, nothing is cut off, and timestamp annotations change nothing that is executed |
| AofLogProofs.ReadWhole | redis-7.2.4/src/aof.c:1469-1563 | An encoded command or annotation in front of any bytes is read back exactly |
| AofLogProofs.ReadCut | redis-7.2.4/src/aof.c:1469-1563 | A command cut short anywhere ends in an unexpected end of file; a cut annotation is skipped |
| AofLogProofs.DamageIsRefused | redis-7.2.4/src/aof.c:1486-1548 | A log with a wrong first byte, a command without arguments, a byte that starts no argument, or an unknown command behind whole items is refused, after exactly the committed commands before it |
| AofLogProofs.AtoiMeans | redis-7.2.4/src/aof.c:1495-1518 | The numbers of headers: white space, an optional sign, digits, and anything after them |
| AofLogProofs.EmptyHeader | redis-7.2.4/src/aof.c:1494 | A header without a number is an unexpected end of file exactly if its line never ends |
| AofLogProofs.TxIsCommitted | redis-7.2.4/src/aof.c:1549-1561 | Queueing after MULTI and running on EXEC executes the committed commands, and nothing of an open block |
| AofLogProofs.ReloadExact | redis-7.2.4/src/aof.c:1587-1626 | Load a cut log, append anything, load again: nothing is lost for whatever is appended, exactly when the cut falls between items, in a command outside MULTI, or in an annotation inside MULTI |
| AofLogProofs.AnnotationCutExact | redis-7.2.4/src/aof.c:1479-1484 | After a cut in an annotation outside MULTI, what is appended survives exactly when it does not begin with a command |
| AofLogProofs.CommandCutExact | redis-7.2.4/src/aof.c:1594-1626 | After a cut in a command of an open MULTI, what is appended survives exactly when it runs the same inside that block: without an EXEC, nothing or an unfinished block; with one, the block was empty and no MULTI comes before its EXEC |
| AofLogProofs.UnsafeCutExists | redis-7.2.4/src/aof.c:1548 | An input for the failing side of ReloadExact: one byte of a command after MULTI |
| AofLogProofs.ReopenedFile | redis-7.2.4/src/aof.c:1594-1626 | What the first load leaves of the file: valid_up_to, or the offset saved at MULTI |
| AofLoader.FGets | redis-7.2.4/src/aof.c:1479-1484 | The line that starts at an offset ends at its newline, at the buffer size, or at the end of the file |
| AofLoader.ReadArgument | redis-7.2.4/src/aof.c:1501-1530 | One bulk string is read as the stream function says, with the same error for every malformed or short input |
| AofLoader.ReadCommand | redis-7.2.4/src/aof.c:1469-1530 | One round of the loop is ReadNext at the current offset |
| AofLoader.LoadSingle | redis-7.2.4/src/aof.c:1395-1646 | The loading loop returns the status, executes the commands and leaves the file that Load says |
| AofFlush.RunConserves | redis-7.2.4/src/aof.c:1064-1266 | For every sequence of feeds, write outcomes, file switches and policy changes in which no flush leaves a hole: files followed by buffer equal everything fed, and the recorded sizes match the files |
| AofFlush.RunConservesExactly | redis-7.2.4/src/aof.c:1064-1266 | In every run that has not exited, files and buffer hold the stream at every moment exactly when no flush leaves a hole |
| AofFlush.FlushConserves | redis-7.2.4/src/aof.c:1148-1232 | One flush, whatever write, truncate and fsync return, on any file and under any policy: nothing is lost, doubled or inserted exactly when no bytes stay behind a position beyond the end; then the recorded size equals the file length also after a failed truncation, and an exit leaves a prefix of the stream |
| AofFlush.FlushStaysAtEnd | redis-7.2.4/src/aof.c:1170-1195 | The next write goes to the end of the file exactly when the file is in append mode or no partial write was taken back |
| AofFlush.HoleFollows | redis-7.2.4/src/aof.c:809-812 | A flush whose bytes do stay there leaves zeros up to the position, then those bytes, and a recorded size that is too small |
| AofFlush.PutThenTruncate | redis-7.2.4/src/aof.c:1179-1187 | Truncating after a write restores the bytes, and the position too exactly when the file is in append mode |
| AofFlush.FsyncAsked | redis-7.2.4/src/aof.c:1234-1266 | When a flush asks for an fsync and which one: in the worker exactly under everysec, with nothing left to write, in a new second, with no fsync in progress and not held back for a child; in the main thread exactly under always; it is then on record for the whole file |
| AofFlush.PostponedExactlyIf | redis-7.2.4/src/aof.c:1097-1116 | A flush is postponed exactly under everysec, unforced, with an fsync in progress, for less than two seconds; then it changes nothing but the start of the waiting |
| AofFlush.ExitsExactlyIf | redis-7.2.4/src/aof.c:1196-1203 | The process exits exactly when, under always, the write falls short or the fsync fails |
| AofFlush.AppendOnlyFile.AofWrite | redis-7.2.4/src/aof.c:1026-1043 | Whatever write(2) returns, the file receives exactly the first bytes of the buffer, once and in order, and the return value says how many |
| AofFlush.AcceptedIs | redis-7.2.4/src/aof.c:1026-1043 | Partial writes and interruptions are made up for: all bytes are taken unless a call fails before |
| AofFlush.AppendOnlyFile.WriteFellShort | redis-7.2.4/src/aof.c:1157-1217 | The state after a failed or short write: taken back or accounted for; exit under policy always |
| AofFlush.AppendOnlyFile.WriteOut | redis-7.2.4/src/aof.c:1148-1232 | The state after the write of the buffer, for every outcome |
| AofFlush.AppendOnlyFile.TryFsync | redis-7.2.4/src/aof.c:1234-1266 | Which fsync happens, if any, and what is recorded for it |
| AofFlush.AppendOnlyFile.FlushAppendOnlyFile | redis-7.2.4/src/aof.c:1064-1266 | The whole flush, with postponing and the empty-buffer case |
| AofFlush.AppendOnlyFile.OpenNewIncr | redis-7.2.4/src/aof.c:831-853 | The switch of the file: sizes and sync offset start again |
| AofFlush.OpenStartsAnew | redis-7.2.4/src/aof.c:831-853 | The switch keeps what was written and what is still to be written; the new file is empty, at its end, and counts as synced now |
| Bio.NonePending | redis-7.2.4/src/bio.c:303-311 | The counter of a type is zero exactly when no job of that type waits or runs |
| Bio.SubmitKeeps | redis-7.2.4/src/bio.c:152-160 | Submitting keeps every counter equal to the number of jobs of its type |
| Bio.FinishKeeps | redis-7.2.4/src/bio.c:279-298 | So does unlinking a processed job, and only its type is counted down |
| Bio.EmptyListCountsNothing | redis-7.2.4/src/bio.c:314-322 | A worker with an empty list is idle and none of its types is pending |
| Bio.BioPool.SubmitJob | redis-7.2.4/src/bio.c:152-160 | The job goes to the end of the one list its type belongs to |
| Bio.BioPool.PendingJobsOfType | redis-7.2.4/src/bio.c:303-311 | The number of jobs of the type in its worker's list |
| Bio.BioPool.FinishJob | redis-7.2.4/src/bio.c:205-300 | The head of the list goes, and is uncounted |
| Bio.BioPool.DrainWorker | redis-7.2.4/src/bio.c:314-322 | Afterwards nothing of any type of that worker is pending, and no other worker has moved |
| AofSync.PublishedIsDurable | redis-7.2.4/src/aof.c:1234-1266 | In every interleaving of the main thread and the AOF worker in which no worker fsync failed, every command up to the published offset is on disk, across switches of the INCR file and changes of policy |
| AofSync.EverySecPublishes | redis-7.2.4/src/aof.c:1256-1264 | Under everysec, after a flush with nothing left to write in a new second, once the worker has caught up and the server has published, every command executed before is published and on disk |
| AofSync.AlwaysPublishes | redis-7.2.4/src/aof.c:1241-1255 | Under always, after such a flush the next publishing covers every command executed before, and they are on disk |
| AofSync.PublishedNeverGoesBack | redis-7.2.4/src/server.c:1731-1735 | From the start of the server on, a published offset is never taken back in a run in which no fsync of the main thread overtakes a job submitted before the last command, also when fsyncs fail and rewrites leave bytes in the buffer |
| AofSync.EverySecNeverGoesBack | redis-7.2.4/src/aof.c:1248-1262 | In particular never while the policy is not always, also when fsyncs fail |
| AofSync.GoesBackExactlyIf | redis-7.2.4/src/aof.c:831-843 | After an fsync in the main thread, in a flush or in the forced flush of a rewrite, the worker can take the published offset back exactly when a job submitted before the last command is still queued; such a job is a CLOSE_AOF |
| AofSync.AlwaysGoesBack | redis-7.2.4/src/bio.c:249-277 | A run of eight legal steps under policy always in which the published offset goes from 2 to 1 |
| AofSync.RewriteHonestOnlyIfFlushed | redis-7.2.4/src/aof.c:2437-2453 | After a rewrite has switched the file, the worker has caught up and the server has published, the published offset is durable exactly when the forced flush emptied the buffer |
| AofSync.NextKeeps | redis-7.2.4/src/bio.c:228-299 | Every step of either thread keeps the invariant: each queued job promises no more than its file will hold when it is synced |
| AofRewrite.RewriteItems | redis-7.2.4/src/aof.c:1794-1832 | The emission loop writes exactly the encoded chunks: every header, written first, counts the bulk strings that follow it |
| AofRewrite.ReplayChunks | redis-7.2.4/src/aof.c:1836-1864 | Chunking does not matter: the commands do what one command with all items would do, whatever the key held |
| AofRewrite.ListRebuilt | redis-7.2.4/src/aof.c:1794-1832 | A list of any size comes back with its items in order |
| AofRewrite.SetRebuilt | redis-7.2.4/src/aof.c:1836-1864 | A set comes back, in whatever order it is iterated |
| AofRewrite.HashRebuilt | redis-7.2.4/src/aof.c:1974-2006 | A hash comes back, in whatever order it is iterated |
| AofRewrite.CommandsFit | redis-7.2.4/src/aof.c:1794-1832 | No command carries more than AOF_REWRITE_ITEMS_PER_CMD items, and none is empty |
| AofRewrite.CommandCount | redis-7.2.4/src/aof.c:1795-1830 | There are no more commands than the limit of 64 items needs |
| AofRewrite.RewriteLoads | redis-7.2.4/src/aof.c:1974-2006 | The emitted bytes, loaded by the loader on an empty key, give the value back |
| Crc64.CrcNative | redis-7.2.4/src/crcspeed.c:253-259 | crc64 by table, on either byte order, at any address, length and initial value, is the bit-by-bit _crc64 started from the reflection of the initial value |
| Crc64.CrcBitwise | redis-7.2.4/src/crc64.c:88-111 | The nested loops return the bit-by-bit CRC, reflected at the end |
| Crc64.CrcReflect | redis-7.2.4/src/crc64.c:69-78 | The loop reverses the 64 bits |
| Crc64.ReferenceIsRegister | redis-7.2.4/src/crc64.c:88-111 | The bit-by-bit CRC from the reflection of c is the reflected register started from c and fed byte by byte |
| Crc64.FastIsReference | redis-7.2.4/src/crc64.c:88-123 | The register that the table readers compute is the bit-by-bit CRC, and computing it in two chunks is computing it at once |
| Crc64.LittleInit | redis-7.2.4/src/crcspeed.c:33-50 | Table level k at byte n is the register after n and k zero bytes, for all 2048 entries |
| Crc64.ColumnIsEntry | redis-7.2.4/src/crcspeed.c:42-49 | The nesting recurrence gives that register at every level |
| Crc64.BigInit | redis-7.2.4/src/crcspeed.c:87-95 | Every entry of the big-endian table is the byte-reversed little-endian one |
| Crc64.Rev8 | redis-7.2.4/src/crcspeed.c:71-83 | The three exchanges reverse the eight bytes |
| Crc64.CrcLittle | redis-7.2.4/src/crcspeed.c:112-144 | The three loops return the register of the whole buffer, for every alignment |
| Crc64.CrcBig | redis-7.2.4/src/crcspeed.c:183-213 | The big-endian loops return the same register |
| CrcRegister.ShiftsXor | redis-7.2.4/src/crcspeed.c:112-144 | Shifting is linear over XOR, for any polynomial and any number of shifts |
| CrcRegister.CrcWord | redis-7.2.4/src/crcspeed.c:112-144 | A full-width block is XORed into the register and looked up byte by byte |
| CrcRegister.CrcAppend | redis-7.2.4/src/crcspeed.c:112-144 | A buffer fed in pieces gives the register of the whole |
| Crc16Table.TableIsShifts | redis-7.2.4/src/crc16.c:47-80 | Each of the 256 literals of crc16tab is its index shifted eight times by the polynomial |
| Crc16.ByteTableCrc | redis-7.2.4/src/crc16.c:82-88 | The byte-table loop returns the CRC-16 register of the buffer started from 0 |
| Crc16.Init16 | redis-7.2.4/src/crcspeed.c:52-68 | Seeded with that loop, table level k at byte n is the register after n and k zero bytes |
| Crc16.SliceCrc | redis-7.2.4/src/crcspeed.c:146-178 | crcspeed16little returns the same register, from any initial value, alignment and length |
| Crc16.AbsorbSum | redis-7.2.4/src/crcspeed.c:155-166 | Only the first two bytes of a block absorb a 16-bit register |
| AclExact.RunExact | redis-7.2.4/src/acl.c:733-786 | A fresh or any other reachable selector can be replayed from its rules at every moment of a run, accepted or refused operations alike, exactly when no operation of the run allows a first argument with a blank or a quote in it |
| AclExact.ReplayExact | redis-7.2.4/src/acl.c:596-604 | The same for one operation on any selector that such a run can reach |
| AclReplay.DescriptionRebuilds | redis-7.2.4/src/acl.c:733-786 | The description never panics on such a selector, and read back and applied to a selector in any state, with lengths or without, it gives the bitmap, the first arguments and the text of the rules |
| AclReplay.ReplayRebuilds | redis-7.2.4/src/acl.c:733-786 | Replaying the rules on +@all or -@all, as the reserved bit says, gives the bitmap, the first arguments and the text of the rules |
| AclReplay.DescribeNeverPanics | redis-7.2.4/src/acl.c:770-783 | After clean operations on a fresh selector the assertion on the rebuilt bitmap holds |
| AclExact.BlankExact | redis-7.2.4/src/acl.c:733-786 | With a blank in a first argument, whatever stands around it, the rules read back never rebuild the selector; describing it passes the assertion exactly when something stands before the blank and what stands behind it is accepted with length -1 and grants no command, and panics otherwise |
| AclReplay.SetSelectorApplies | redis-7.2.4/src/acl.c:1010-1180 | An operation about commands is accepted exactly when its rule means something, and decides exactly what the rule means |
| Acl.LookupMeans | redis-7.2.4/src/acl.c:881-887 | A name without a bar stands for that command, one with a bar for that subcommand, in any case, and nothing else is found |
| Acl.CategoryMeans | redis-7.2.4/src/acl.c:629-642 | A category stands for its commands with all their subcommands and for single subcommands in it |
| Acl.PatternAccepted | redis-7.2.4/src/acl.c:1029-1089 | A key or channel pattern is accepted exactly if it comes with its length, not everything is allowed already, its permission letters are R and W at most once each, and it has no blanks; no flag changes |
| Acl.FlagWords | redis-7.2.4/src/acl.c:1011-1024 | The flags for all keys and all channels follow the last word about them, and these words leave the commands alone |
| AclReplay.RemovedIsCovered | redis-7.2.4/src/acl.c:550-592 | A rule that is removed decides nothing that the new rule does not decide |
| AclReplay.FlagNeverLies | redis-7.2.4/src/acl.c:536-545 | The flag that lets a check skip the bitmap is set only while every bit is |
| AclRules.RemoveIsFilter | redis-7.2.4/src/acl.c:550-592 | Cutting matching rules out of the string in place is filtering the list of rules |
| AclRules.RemovesMeans | redis-7.2.4/src/acl.c:570-592 | A new rule replaces the rules with its name and those for something inside it, and no others |
| AclRules.RemoveCommandRule | redis-7.2.4/src/acl.c:550-592 | The loop over the string is that cutting |
| AclRules.ReadBack | redis-7.2.4/src/sds.c:1008-1116 | sdssplitargs gives the rules back exactly when none of them holds a blank or a quote |
| SdsRepr.LineSplits | redis-7.2.4/src/sds.c:912-936 | sdssplitargs undoes sdscatrepr: any list of byte strings comes back from the line of its quotations |
| SdsRepr.SplitQuoted | redis-7.2.4/src/sds.c:1008-1116 | A quotation in front of anything is one argument; without its closing quote, or with no white space behind it, the line is refused |
| AclSelector.AclSelector.Set | redis-7.2.4/src/acl.c:1010-1180 | ACLSetSelector, with the length of the operation or with -1, on the bit array, the flags, the string and the first arguments: the new state, or refused with the state unchanged |
| AclSelector.AclSelector.ChangeCommandPerm | redis-7.2.4/src/acl.c:608-621 | The bits of a command and all its subcommands, and its first arguments |
| AclSelector.AclSelector.SetCommandBitsForCategory | redis-7.2.4/src/acl.c:629-642 | The recursion sets the bits of everything in the category, in any order of the table |
| AclSelector.AclSelector.AddAllowedFirstArg | redis-7.2.4/src/acl.c:918-944 | The argument is added unless it is there in another case |
| AclSelector.AclSelector.UpdateCommandRules | redis-7.2.4/src/acl.c:596-604 | Matching rules go, the new rule is last, in lower case |
| AclSelector.AclSelector.SetCommandBit | redis-7.2.4/src/acl.c:536-545 | One bit; clearing it clears the flag |
| AclSelector.CommandIdTable.GetCommandID | redis-7.2.4/src/acl.c:1501-1526 | A name keeps its id in any case; different names have different ids; the reserved id is never given |
| AdList.List.LinkNodeHead | redis-7.2.4/src/adlist.c:103-114 | The node comes first; the chain, head, tail and length stay consistent |
| AdList.List.LinkNodeTail | redis-7.2.4/src/adlist.c:136-147 | The node comes last |
| AdList.List.InsertNode | redis-7.2.4/src/adlist.c:149-176 | The value comes right before or after the node |
| AdList.List.UnlinkNode | redis-7.2.4/src/adlist.c:192-206 | The node goes, and no other node moves |
| AdList.List.DelNode | redis-7.2.4/src/adlist.c:182-187 | The same, for deletion |
| AdList.List.RotateTailToHead | redis-7.2.4/src/adlist.c:361-373 | The last element comes first |
| AdList.List.RotateHeadToTail | redis-7.2.4/src/adlist.c:376-388 | The first element comes last |
| AdList.List.Join | redis-7.2.4/src/adlist.c:392-408 | The other list's elements follow, and that list is empty |
| AdList.List.Index | redis-7.2.4/src/adlist.c:346-358 | The node at the index from either end, or null |
| AdList.List.Dup | redis-7.2.4/src/adlist.c:276-310 | A new list with the same elements, sharing no node |
| AdList.List.SearchKey | redis-7.2.4/src/adlist.c:321-339 | The first node that matches, or null when none does |
| AdList.List.Clear | redis-7.2.4/src/adlist.c:57-72 | The list is empty |
| AdList.ListIter.Next | redis-7.2.4/src/adlist.c:255-266 | The node the iterator stood at; it then stands at its neighbour |
| AdList.Serve | redis-7.2.4/src/blocked.c:558-594 | On the pointers: the loop visits the elements present at entry, once and in order, whatever each visit unlinks of its own or appends, and leaves those who stayed followed by those who were appended |
| Blocked.AlwaysInv | redis-7.2.4/src/blocked.c:184-224 | In every reachable state lists, keys held, no-key counts, type counters, ready set and queues agree |
| Blocked.IndexMeans | redis-7.2.4/src/blocked.c:368-415 | A client holds a key exactly when it occurs in the key's list, and then it is blocked on keys; entries exist exactly while somebody waits; the no-key count is the number of waiting clients that want to know |
| BlockIndex.OccursOnce | redis-7.2.4/src/blocked.c:512-545 | It occurs once, and the stored node is that occurrence |
| BlockIndex.LinkAllKeeps | redis-7.2.4/src/blocked.c:368-415 | Blocking on any list of keys, repeated ones included, keeps the index good and adds exactly those keys |
| BlockIndex.UnlinkKeeps | redis-7.2.4/src/blocked.c:512-545 | Leaving any set of keys keeps the index good |
| Blocked.CountersUpdate | redis-7.2.4/src/blocked.c:88-99 | When the counters are moved from one type to another along with a client, they still count the clients of every type |
| Blocked.SignalIsQueued | redis-7.2.4/src/blocked.c:435-500 | After a signal for a key and a type of object for which somebody waits, or a module client for any type that can be waited for, the key is queued exactly once |
| Blocked.SignalQueuesOnlyIf | redis-7.2.4/src/blocked.c:452-500 | A signal queues a key exactly when somebody waits for it, who wants to know if it is gone, and somebody is blocked for this type of object |
| Blocked.ReadyUntilHandled | redis-7.2.4/src/blocked.c:315-359 | No other step forgets a signalled key |
| Blocked.HandledInOrder | redis-7.2.4/src/blocked.c:315-352 | Keys are handled in the order in which they became ready: in every run, those handled and then those still waiting are those signalled |
| Blocked.BlockMeans | redis-7.2.4/src/blocked.c:368-414 | A client blocked on keys waits for exactly those, in the given way, and nobody else changes |
| Blocked.UnblockMeans | redis-7.2.4/src/blocked.c:184-226 | An unblocked client is blocked no more, waits for no key, and is last in the list to resume exactly if asked for and not in it; everybody else keeps waiting |
| Blocked.WakeMeans | redis-7.2.4/src/blocked.c:625-675 | The same for a client woken for a key, whose command is about to run again |
| BlockServe.ServesTheWaiting | redis-7.2.4/src/blocked.c:558-594 | Over the server's own steps: every client waiting at entry is visited once, in the order of blocking, and nobody else; the next node is always still in the list |
| BlockedServer.BlockedServer.LinkKeys | redis-7.2.4/src/blocked.c:368-404 | The loop enters every key that is not held yet |
| BlockedServer.BlockedServer.BlockForKeys | redis-7.2.4/src/blocked.c:368-415 | The whole new state, with the invariant |
| BlockedServer.BlockedServer.MarkBlocked | redis-7.2.4/src/blocked.c:88-99 | Flags and counters |
| BlockedServer.BlockedServer.ReleaseBlockedEntry | redis-7.2.4/src/blocked.c:512-545 | One list is left, an empty entry goes, the no-key count is taken down and removed at zero |
| BlockedServer.BlockedServer.UnblockClientWaitingData | redis-7.2.4/src/blocked.c:419-433 | All lists are left, in any order, and all keys forgotten |
| BlockedServer.BlockedServer.Wake | redis-7.2.4/src/blocked.c:184-224 | The whole new state of unblockClient, with the invariant |
| BlockedServer.BlockedServer.WakeClientOnKey | redis-7.2.4/src/blocked.c:636-652 | The state when the pending command is about to run again |
| BlockedServer.BlockedServer.QueueForReprocessing | redis-7.2.4/src/blocked.c:173-180 | The client is queued unless it already is |
| BlockedServer.BlockedServer.SignalKeyAsReady | redis-7.2.4/src/blocked.c:452-499 | The whole new state, with the four early returns |
| BitPos.BitposCommand | redis-7.2.4/src/bitops.c:877-1003 | The least index in the byte or bit range that holds the bit; -1 when there is none with an explicit end; without an end a search for 0 answers the first bit behind the string |
| BitPos.RedisBitpos | redis-7.2.4/src/bitops.c:101-186 | Skipping words and bytes, at any alignment, does not change the least index |
| BitPos.ScanWord | redis-7.2.4/src/bitops.c:156-180 | The scan of a loaded word finds its first bit of the kind |
| BitPos.SearchRange | redis-7.2.4/src/bitops.c:953-1001 | Masking the first and last byte and searching in three parts is searching the bit range |
| BitRange.BitCount | redis-7.2.4/src/bitops.c:796-874 | The number of ones in the range, and 0 for empty ranges |
| BitRange.RangeSelects | redis-7.2.4/src/bitops.c:820-845 | A range selects exactly the bits whose byte, or which themselves, are at or after the start and at or before the end, counted from the end if negative, an end before the beginning meaning the first |
| BitRange.EmptyRange | redis-7.2.4/src/bitops.c:841-845 | A range is empty exactly when it selects no bit |
| BitRange.EdgesTakenBack | redis-7.2.4/src/bitops.c:856-874 | Whole bytes minus masked edges is the count of the bit range, also when both edges are one byte |
| Popcount.RedisPopcount | redis-7.2.4/src/bitops.c:40-92 | The number of ones of the buffer, for every length and alignment |
| Popcount.SevenWordsCount | redis-7.2.4/src/bitops.c:56-85 | The 28-byte step is the number of ones: no lane exceeds 255 and nothing wraps |
| Popcount.LanesHold | redis-7.2.4/src/bitops.c:78-84 | After n words no lane holds more than 8 n, and the lanes together hold the count |
| Popcount.TableCounts | redis-7.2.4/src/bitops.c:43 | Every entry of the 256-byte table is the number of ones of its index |
| BitOp.BitopCommand | redis-7.2.4/src/bitops.c:607-793 | The stored value is, at every byte below the longest length, the fold of all sources extended with zeros; NOT of several sources is refused; an empty result deletes |
| BitOp.ResultBits | redis-7.2.4/src/bitops.c:744-770 | That value is, at every bit, the operation over the bits of all sources |
| BitOp.LongestSource | redis-7.2.4/src/bitops.c:668-674 | The result is as long as the longest source |
| BitOp.WordActsOnBytes | redis-7.2.4/src/bitops.c:687-736 | An operation on 64-bit words acts on each byte of them |
| BitOp.FastPath | redis-7.2.4/src/bitops.c:675-740 | Four words at a time, the bytes done are those of the fold |
| BitOp.SettledStays | redis-7.2.4/src/bitops.c:748-766 | After a zero under AND or 0xff under OR the remaining sources cannot change the byte |
| Bitfield.SetUnsigned | redis-7.2.4/src/bitops.c:209-222 | The field holds the low bits of the value, and no other bit changes |
| Bitfield.GetUnsigned | redis-7.2.4/src/bitops.c:229-241 | The number the bits of the field make |
| Bitfield.GetSigned | redis-7.2.4/src/bitops.c:243-263 | The same, with the sign of the top bit |
| Bitfield.GetAfterSet | redis-7.2.4/src/bitops.c:209-241 | Writing then reading gives the value modulo 2^bits, and every other bit is unchanged |
| Bitfield.SignedRoundTrip | redis-7.2.4/src/bitops.c:224-263 | A signed value that fits comes back with its sign |
| Bitfield.SignedOverflow | redis-7.2.4/src/bitops.c:325-378 | From an in-range value, at widths 1 to 64: non-zero exactly when the sum leaves the range; WRAP the congruent value, SAT the nearer bound |
| Bitfield.UnsignedOverflow | redis-7.2.4/src/bitops.c:288-323 | The same, unsigned, at widths 1 to 63 |
| Bitfield.SignedSet | redis-7.2.4/src/bitops.c:325-378 | SET of any 64-bit value: the check and WRAP are right; SAT gives the upper bound for a value below the range exactly when it is 2^63 or more below the upper bound |
| Bitfield.UnsignedSet | redis-7.2.4/src/bitops.c:288-323 | SET unsigned: every value beyond the range, also a negative one, counts as too large |
| Bitfield.SignedIncrBy | redis-7.2.4/src/bitops.c:1136-1216 | INCRBY stores and replies the sum, the wrapped or the saturated value, or nothing under FAIL |
| Bitfield.UnsignedIncrBy | redis-7.2.4/src/bitops.c:1136-1216 | The same, unsigned |
| Bitfield.SignedSetStores | redis-7.2.4/src/bitops.c:1162-1178 | SET replies the old value and stores any value that fits; otherwise the wrapped value, a bound, or nothing and no reply |
| Bitfield.UnsignedSetStores | redis-7.2.4/src/bitops.c:1184-1210 | The same for unsigned fields |
| Bitfield.SignedAfter | redis-7.2.4/src/bitops.c:1172-1173 | What is stored is read back, and no other bit changes |
| Bitfield.UnsignedAfter | redis-7.2.4/src/bitops.c:1205-1206 | The same for unsigned fields |
| Bitfield.SignExtendIs | redis-7.2.4/src/bitops.c:243-263 | Sign extension gives the one number of the range congruent to the field |
| Bitfield.ApplySigned | redis-7.2.4/src/bitops.c:1136-1216 | SET or INCRBY on the string: the reply and every bit of the new string |
| Bitfield.ApplyUnsigned | redis-7.2.4/src/bitops.c:1136-1216 | The same, unsigned |
| Bitfield.Get | redis-7.2.4/src/bitops.c:1219-1250 | GET through the zero-padded window is reading the string extended with zeros without end |
| Bitfield.WindowBits | redis-7.2.4/src/bitops.c:1219-1250 | Nine bytes hold every bit of a field of up to 64 bits |

## Left out

- AclSelector.AclSelector.Set: key and channel operations are checked and set their flags, but the lists of patterns
  are not kept, so neither are their duplicates and permissions; clearselectors and the operations on users are not
  modelled.
- AclReplay.SetSelectorApplies: speaks of operations about commands; `Acl.SetSelector` says what the others do.
- AofServer.ReadManifest: lines arrive as parsed fields; comment lines, the limit on line length, the parsing of the
  six fields and its errors are not modelled.
- AofServer.LoadAppendOnlyFiles: files hold whole entries, so the statuses for truncated, empty and failed files and
  the rule for the last file are not modelled here; `AofLoader` and `AofLogProofs` treat one truncated file.
- AofInvariant.RewriteDoneKeeps: the handler's step with a manifest renamed but reported as failed is not a step of
  the runs; `AofExact.FailedReportNeedsNoUnlink` says what it does.
- AofInvariant.BootKeeps: the upgrade from a single old-style file, temporary files, and stopping or starting
  persistence at run time are not modelled.
- AofLoader.LoadSingle: aof-load-truncated is on; without it every truncation is a failure. The RDB preamble is not
  read.
- AofLogProofs.PrefixLoads: the numbers written fit the C types (`Fits`); commands are known to the command table.
- AofSync.PublishedIsDurable: EBADF and EINVAL from fsync count as success in the code; here a success is durable.
- AofFlush.AppendOnlyFile.AofWrite: a write(2) interrupted without end is cut off after the listed results.
- AofRewrite.RewriteItems: write errors of the rio layer; sorted sets, streams, modules and functions, and the integer
  and listpack encodings, whose elements arrive here as strings.
- Bio.BioPool.DrainWorker: the waiting is made by processing the list; the steps of the worker in between are in
  `AofSync`.
- BlockServe.ServesTheWaiting: whether a visited client is woken, which depends on the object now stored, is any
  choice of steps; module clients are visited but their own wake-up code is not modelled.
- BlockedServer.BlockedServer.WakeClientOnKey: ends where the pending command is executed again; that execution is
  further steps of the machine.
- Blocked.AlwaysInv: timeouts, WAIT, WAITAOF, shutdown and postponed clients only move their counters; their own lists
  and the table of timeouts are left out, and so is the termination of the loop over ready keys.
- BlockIndex.OccursOnce: lists are sequences of numbered nodes; pointers, heads and tails are in `AdList`.
- AclSelector.AclSelector.SetCommandBit: one boolean per bit instead of packed words.
- AclSelector.AclSelector.AddAllowedFirstArg: first arguments are a map from command ids, not an array of lists.
- AclRules.ReadBack: strings without the NUL character, which would end them in C.
- Bitfield.ApplySigned: the string has been grown before; parsing of types, offsets and overflow words is not
  modelled.
- BitOp.BitopCommand: wrong types, the reply, notification and replication; the variant without unaligned access.
- BitPos.BitposCommand: parsing of the arguments and the conversion of integer-encoded values.
- File names are values, not text; the dataset of a BASE file is an abstract snapshot.
- crcspeed16big and its tables, glob patterns, passwords, ACL files, and channel permissions.
- Latency sampling, logging, statistics, memory freeing and disk-space errors.
- The Rails application, the network layer, the event loop and the configuration table.
