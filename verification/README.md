# LevelDB and nanopb, modelled and proved

Two of the libraries that ship with the Firebase demo application carry real algorithms: LevelDB, the
log-structured key-value store, and nanopb, the Protocol Buffers codec.  This project models both and
proves what they are for.

**The store.**  Writes go through a leader/follower queue into a log and a skip-list memtable; memtables
are flushed to tables in seven levels; compactions merge tables and drop entries; reads search memtables
and levels.  The main result is that all of this refines one simple thing: a read returns the newest entry
at or below its sequence number in the whole write history.

| file | what it models |
|---|---|
| `DbFormat.dfy` | internal keys and their order, sorted lists, the meaning of a read |
| `Versions.dfy`, `Picking.dfy`, `CompactionPicking.dfy` | versions, the level-by-level search, choosing compaction inputs |
| `DropRules.dfy`, `Compacting.dfy`, `Edits.dfy` | the drop rules, the compaction loop, flush placement, moves and installs |
| `Engine.dfy`, `EngineSafety.dfy`, `Durability.dfy` | the store as a state machine, its invariant, what it reads over all runs, what crashes may take |
| `UnguardedCompactions.dfy`, `UnguardedRuns.dfy` | where two guards are missing, and runs that end badly without them |
| `DbImpl.dfy`, `Recovery.dfy`, `StoreReads.dfy` | the store as a class whose methods are proved to take the steps of that machine |
| `Iterators.dfy`, `DbIter.dfy`, `TwoLevel.dfy` | merging, user-key and two-level iterators as cursors on lists |
| `SkipList.dfy`, `SkipListReaders.dfy` | the skip list with single pointer stores, and searches that overlap them |
| `MemTables.dfy`, `Snapshots.dfy` | packed keys and entries, the snapshot ring |
| `WriteQueue.dfy`, `Scheduling.dfy` | the interleaved write queue, background scheduling |
| `LogFormat.dfy`, `LogWriter.dfy`, `LogReader.dfy` | the fragmented log |
| `Coding.dfy`, `BlockFormat.dfy`, `BlockReader.dfy` | varints, prefix-compressed blocks |
| `WriteBatches.dfy`, `VersionEdits.dfy`, `VersionBuilder.dfy`, `Manifest.dfy` | batches, manifest records, replay and recovery |

**The codec.**  `NanopbFormat.dfy` describes schemas, structs and wire bytes; `NanopbFields.dfy` the field
iterator; `NanopbEncode.dfy` and `NanopbDecode.dfy` the encoder and decoder over streams, proved against the
functions of `NanopbFormat.dfy` and `NanopbReads.dfy`; `NanopbRoundTrip.dfy` and `NanopbGuarantees.dfy` that
decoding undoes encoding, between versions of a type too, and that whatever is decoded can be encoded.
Wire formats are those of the Protocol Buffers Encoding guide, sections "Base 128 Varints" and "Signed
Integers".

`dafny verify dfyconfig.toml` checks everything.

## How the model reads the code

- User keys: the user comparator is any total order.  In the store's modules a user key is a real number,
  since any total order on a countable set embeds in the reals and nothing but the order is used;
  `MemTables.dfy` works on byte strings under an arbitrary total order.
- A table is a sorted list of entries with the true bounds of its first and last key; a file is a sequence
  of bytes; a checksum is any function with `unmask(mask(x)) == x`.
- What the outside decides is a parameter or a step of its own: file sizes, node heights, whether an
  operation on a file fails, when a thread runs, which suffix of each log a crash loses.
- Recovery is that of the default options: every surviving log becomes level-0 tables and a new log starts.
- The runs of `UnguardedRuns.dfy` count a table's bytes at the default options without compression: 24 bytes and
  the value for each entry, in blocks that are written out once they hold 4096 bytes.
- `std::upper_bound` over the insertion point of a builder and `std::sort` of level-0 files are a linear
  advance and an insertion sort.

## What the proofs found

- **A compaction can bring a deleted value back.**  `SetupOtherInputs` closes only the inputs of its own
  level under shared boundary user keys (`db/version_set.cc:1407`, `:1422`), while `IsBaseLevelForKey` looks
  only two levels down (`:1536`).  When a user key is split over two files of level+1 and only the first is
  picked, dropping a deletion exposes the older value in the second.  `DroppedDeletionResurrects` is a
  concrete pick and `DeletedKeyComesBack` a whole run from an empty store, in which a table reaches its maximum
  size with the deletion; `InstallKeepsReadsIff` says exactly when reads survive, and `ClosedPickIsSafe` gives a
  check on file metadata that is enough.
- **Flushing during a compaction is harmless for automatic compactions only.**  `DoCompactionWork` may flush
  between picking and installing (`db/db_impl.cc:907-918`).  Automatic picks leave no gap in their range, and
  then the flush placement rule keeps the new table away from the outputs (`CoveredPickIsSafe`).  A manual
  range compaction can leave a gap; `FlushIntoGapOverlaps` is a concrete case, `FlushedKeyIsHidden` a whole
  run after which the search misses a key that way, `InstallDisjointIff` the exact condition.
- **A crash can keep a later write and lose an earlier one.**  Switching memtables closes the old log without
  a sync (`db/db_impl.cc:1356-1361`), so until the flush both logs can lose their tails.  `SurvivesAsPrefixIff`
  says exactly when what survives is a prefix of the history, `LaterWriteSurvives` is a run whose crash keeps a
  synced write and loses the one before it.  What was synced itself stays for good (`SyncedWriteStays`).
- `VersionEdit::Clear` leaves the compaction pointers (`db/version_edit.cc:26-39`), so decoding into an edit
  that holds some puts them in front: `DecodesIntoClearedIff` is the exact condition, `DecodedTwiceDiffers` an
  input.
- A smallest snapshot equal to the largest sequence number would let the first drop rule drop everything
  (`KeptIffBelowMaximum`, `ValueLostAtMaximum`); the store's sequences stay below it.
- A writer without a batch that another leader absorbs returns without the memtable switch it asked for
  (`SwitchesForced`, `AbsorbedWriterForcesNoSwitch`), and a failed log write still uses up its sequence
  numbers (`SequencesUsedUp`, `FailedRecordUsesNumbers`); the queue's other results hold all the same.
- nanopb encodes a string that fills its buffer without a terminator but refuses to decode it
  (`pb_encode.c:890-898`, `pb_decode.c:1477-1496`): `DecodeRestores` has the exact condition,
  `FullStringDoesNotComeBack` an input.

## Model

| member | source | states |
|---|---|---|
| `EngineSafety.EveryReadIsNewest` | FirebaseDemo/Pods/leveldb-library/db/db_impl.cc:1100-1145 | In every state of every run of writes, failed writes, memtable switches, flushes, compactions that overlap with writes and flushes, trivial moves, snapshots, readers, file deletions and crashes, looking a key up in memtable, immutable memtable and tables at the last sequence or at any live snapshot gives the newest entry at or below it in the whole write history, deletions reading as absent.  Installs are not restricted; asked of each pick are two conditions on its file metadata that the code leaves unchecked: no gap in the inputs (true of all automatic picks) and no user key cut in two at the end of the level+1 inputs |
| `EngineSafety.GuardedRunIsHarmless` | FirebaseDemo/Pods/leveldb-library/db/version_set.cc:1403-1462 | Those two conditions at the pick are enough: whatever is written, flushed, snapshotted and collected until the install, it resurrects nothing and overlaps no flushed table |
| `EngineSafety.ReadsNewestWhileHarmless` | FirebaseDemo/Pods/leveldb-library/db/db_impl.cc:1100-1145 | The same read property for any run and any picks, in every state before the first install that resurrects a value or overlaps a flushed table |
| `EngineSafety.ViewReadsSame` | FirebaseDemo/Pods/leveldb-library/db/db_impl.cc:1060-1087 | Over a run: a reader that opened its view in one state and still holds it in a later one, with no crash between, reads there what a lookup found when it opened, however much its memtable has taken in and whatever was flushed, compacted and deleted since |
| `EngineSafety.RunKeepsInv` | FirebaseDemo/Pods/leveldb-library/db/db_impl.cc:535-566 | The store's invariant (history split into flushed, frozen and current part; the version refining the flushed part from a horizon on; logs, live tables and open readers accounted for) holds at every point of every run before the first harmful install |
| `EngineSafety.StepKeepsInv` | FirebaseDemo/Pods/leveldb-library/db/db_impl.cc:688-767 | Each single step keeps that invariant, an install if it resurrects nothing and overlaps no flushed table |
| `EngineSafety.StoredReadsHistory` | FirebaseDemo/Pods/leveldb-library/db/db_impl.cc:1100-1145 | Under the invariant a read of everything stored equals a plain scan of the write history, at any sequence from the horizon up |
| `EngineSafety.ViewReadsHistory` | FirebaseDemo/Pods/leveldb-library/db/db_impl.cc:1060-1087 | A reader that pinned a version and memtables earlier keeps reading the history at its sequence |
| `EngineSafety.WriteKeepsInv` | FirebaseDemo/Pods/leveldb-library/db/db_impl.cc:1208-1240 | Logging a batch and inserting it with consecutive sequence numbers keeps the invariant |
| `EngineSafety.FlushKeepsInv` | FirebaseDemo/Pods/leveldb-library/db/db_impl.cc:535-566 | Installing the immutable memtable as a table at any level the placement rule allows, and moving the log number up, keeps the invariant, also while a compaction is between picking and installing |
| `EngineSafety.InstallOutcome` | FirebaseDemo/Pods/leveldb-library/db/db_impl.cc:860-876 | Installing a compaction replaces the input entries by exactly the survivors of the drop rules, whatever was flushed meanwhile, and the version has all levels in order if and only if what was flushed kept clear of the outputs |
| `EngineSafety.InstallKeepsReadsIff` | FirebaseDemo/Pods/leveldb-library/db/db_impl.cc:906-999 | A compaction leaves every read of the version's entries at or above the smallest snapshot unchanged if and only if no dropped deletion still has an older value of its key among the entries that were not inputs (the boundary the picker leaves open at level+1) |
| `EngineSafety.ClosedPickIsSafe` | FirebaseDemo/Pods/leveldb-library/db/version_set.cc:1403-1462 | If no unpicked level+1 file begins with the user key that ends the last picked one, which file metadata shows at picking time, no dropped deletion can resurrect anything |
| `EngineSafety.CoveredPickIsSafe` | FirebaseDemo/Pods/leveldb-library/db/version_set.cc:1270-1322 | Inputs whose ranges leave no gap, as all automatically picked ones do, keep interleaved flushes clear of the outputs: the flush placement rule already keeps them apart |
| `EngineSafety.CollectKeepsInv` | FirebaseDemo/Pods/leveldb-library/db/db_impl.cc:223-278 | Deleting obsolete files keeps the invariant, every log numbered at or above the manifest's log number, every table of a version anyone can read, and every pending output |
| `EngineSafety.LogsHoldTheRest` | FirebaseDemo/Pods/leveldb-library/db/db_impl.cc:316-362 | Replaying, in order, the logs from the manifest's log number on gives exactly the entries of the history that no table holds yet |
| `EngineSafety.SurvivingReplay` | FirebaseDemo/Pods/leveldb-library/db/db_impl.cc:371-489 | After any suffix of what was not synced of the current log and of the older log still needed is lost, that replay gives, behind what the tables hold, the entries that are left of both |
| `EngineSafety.SurvivesAsPrefixIff` | FirebaseDemo/Pods/leveldb-library/db/db_impl.cc:1345-1366 | The survivors are the history cut off at one place if and only if the older log kept everything or the current one lost everything: a log is closed without a sync, so a later write can outlive an earlier one |
| `EngineSafety.RecoveryRefines` | FirebaseDemo/Pods/leveldb-library/db/db_impl.cc:371-489 | Tables written at level 0 from consecutive groups of replayed entries, added to the version of the manifest, answer like the surviving history |
| `EngineSafety.CrashKeepsInv` | FirebaseDemo/Pods/leveldb-library/db/db_impl.cc:280-369 | A crash that loses a suffix of each log not yet flushed, at most what was not synced, followed by recovery, re-establishes the whole invariant for the surviving history |
| `Durability.SyncedWriteStays` | FirebaseDemo/Pods/leveldb-library/db/db_impl.cc:1217-1225 | An entry in the log when it is synced is in the history of every later state of every run with guarded picks, whatever crashes lie between, and reading its key gives it or a later write of the key |
| `Durability.DurableStays` | FirebaseDemo/Pods/leveldb-library/db/db_impl.cc:280-369 | Over a run, entries in tables and in the synced parts of the logs only ever grow in number |
| `Durability.StepKeepsDurable` | FirebaseDemo/Pods/leveldb-library/db/db_impl.cc:1345-1366 | Each single step keeps them: a memtable switch that closes a log part synced, a flush, a crash |
| `Durability.OnlyDurableIsSafe` | FirebaseDemo/Pods/leveldb-library/db/db_impl.cc:371-489 | Nothing else is safe: a crash that leaves exactly these entries is possible in every state |
| `Durability.LaterWriteSurvives` | FirebaseDemo/Pods/leveldb-library/db/db_impl.cc:1345-1366 | A whole run from an empty store, two writes with a memtable switch between and the second synced, whose crash keeps the second write and loses the first |
| `EngineSafety.InstalledVersion` | FirebaseDemo/Pods/leveldb-library/db/version_set.cc:801-884 | What the version holds after an install, from file lists alone: the untouched entries plus the surviving inputs; all levels are in order if and only if files that came since the pick are apart from the outputs |
| `DbImpl.DBImpl.Get` | FirebaseDemo/Pods/leveldb-library/db/db_impl.cc:1100-1145 | The search through memtable, immutable memtable and levels returns what a scan of the whole write history returns at the snapshot or the last sequence |
| `DbImpl.DBImpl.NewIterator` | FirebaseDemo/Pods/leveldb-library/db/db_impl.cc:1147-1157 | The iterator over the merged memtables and tables lists a key with a value exactly when a Get at the same sequence finds that value |
| `DbImpl.DBImpl.Write` | FirebaseDemo/Pods/leveldb-library/db/db_impl.cc:1208-1240 | Assigns consecutive sequence numbers, logs, syncs the log if asked to, inserts; when the log write fails nothing is stored but the numbers are used up.  The new state is the specified one and the invariant holds |
| `DbImpl.DBImpl.SwitchMemTable` | FirebaseDemo/Pods/leveldb-library/db/db_impl.cc:1345-1366 | A full memtable becomes immutable and a new log starts; nothing stored or logged changes |
| `DbImpl.DBImpl.GetSnapshot` | FirebaseDemo/Pods/leveldb-library/db/db_impl.cc:1166-1169 | Pins the last sequence, so the drop horizon can no longer pass it |
| `DbImpl.DBImpl.ReleaseSnapshot` | FirebaseDemo/Pods/leveldb-library/db/db_impl.cc:1171-1175 | Forgets one snapshot and leaves the others |
| `DbImpl.DBImpl.Recover` | FirebaseDemo/Pods/leveldb-library/db/db_impl.cc:280-369 | Reopening after a crash that left any part of each log: the manifest's version plus level-0 tables replayed from the surviving logs, a new log above all of them; the state is the specified one and the whole invariant holds for the surviving history |
| `Recovery.RecoverLogFile` | FirebaseDemo/Pods/leveldb-library/db/db_impl.cc:371-489 | Every entry of a log ends up, in order, in exactly one table, wherever memtables fill up; table numbers ascend and the largest sequence is found |
| `Recovery.RecoverLogs` | FirebaseDemo/Pods/leveldb-library/db/db_impl.cc:348-368 | Reading all logs from the manifest's log number on in order covers exactly their concatenation, and later numbers pass all of theirs |
| `DbImpl.DBImpl.DeleteObsoleteFiles` | FirebaseDemo/Pods/leveldb-library/db/db_impl.cc:223-278 | What remains are the logs from the manifest's log number on and the live tables, and the invariant still holds |
| `DbImpl.DBImpl.WriteLevel0Table` | FirebaseDemo/Pods/leveldb-library/db/db_impl.cc:491-533 | The immutable memtable becomes one table at exactly the level the placement rule gives, or is dropped when empty: an enabled flush step of the state machine |
| `DbImpl.DBImpl.CompactMemTable` | FirebaseDemo/Pods/leveldb-library/db/db_impl.cc:535-566 | Flush and then deletion of obsolete files, as those two steps of the state machine |
| `DbImpl.DBImpl.MoveFile` | FirebaseDemo/Pods/leveldb-library/db/db_impl.cc:718-725 | A lone input moves one level down by an edit of the manifest only, an enabled move step; if its range met at most ten files' worth of bytes two levels down, merging it from its new level will read no more than that |
| `DbImpl.MovedFileMeets` | FirebaseDemo/Pods/leveldb-library/db/version_set.cc:1515-1523 | What a file just moved would have to be merged with is exactly what its range met two levels down before: the grandparents the move was decided by |
| `DbImpl.DBImpl.BeginCompaction` | FirebaseDemo/Pods/leveldb-library/db/db_impl.cc:878-899 | Fixes the inputs, the base version and the smallest snapshot a compaction works with |
| `DbImpl.DBImpl.OpenCompactionOutputFile` | FirebaseDemo/Pods/leveldb-library/db/db_impl.cc:786-805 | Each output gets a fresh number and is protected from deletion before it is in any version |
| `DbImpl.DBImpl.InstallCompactionResults` | FirebaseDemo/Pods/leveldb-library/db/db_impl.cc:860-876 | Installs with no check at all, as the code does: afterwards the version is in order exactly when what was flushed since the pick kept clear of the outputs, its entries read the same exactly when nothing resurrects, and with both the whole invariant holds |
| `DbImpl.DBImpl.RunCompaction` | FirebaseDemo/Pods/leveldb-library/db/db_impl.cc:878-1036 | A whole compaction: history, snapshots and last sequence untouched, the invariant kept unless a dropped deletion resurrects |
| `DbImpl.DBImpl.BackgroundCompaction` | FirebaseDemo/Pods/leveldb-library/db/db_impl.cc:688-767 | One background step, flush, move or compaction, manual or automatic: a waiting memtable is flushed, the pick is a valid one of the current version, and the invariant is kept unless the pick leaves a resurrectable value |
| `DbImpl.BuildVersion` | FirebaseDemo/Pods/leveldb-library/db/version_set.cc:801-884 | Applying one edit in a fresh builder gives exactly the version without the deleted and with the added files |
| `Compacting.DoCompactionWork` | FirebaseDemo/Pods/leveldb-library/db/db_impl.cc:906-999 | The loop's outputs concatenate to exactly the input without the dropped entries; each is a well-formed table with its true bounds and size, disjoint from the others and numbered in order; none had reached the maximum size before its last entry, and unless the grandparents are large each but the last has reached it |
| `Compacting.CutsAreFiles` | FirebaseDemo/Pods/leveldb-library/db/db_impl.cc:951-986 | Cutting a strictly sorted list into non-empty pieces at any points gives tables in disjoint order |
| `Compacting.CutIsUnique` | FirebaseDemo/Pods/leveldb-library/db/db_impl.cc:980-986 | That rule leaves no choice: the same entries can be cut by size into the same outputs only |
| `DropRules.KeptIsSurvivors` | FirebaseDemo/Pods/leveldb-library/db/db_impl.cc:929-967 | The order-dependent rules, driven by the last user key and sequence seen, keep exactly the entries that are not hidden by a newer one at or below the smallest snapshot and are not obsolete deletions at the base level, in order |
| `DropRules.KeptIffBelowMaximum` | FirebaseDemo/Pods/leveldb-library/db/db_impl.cc:929-967 | They keep exactly those if and only if the smallest snapshot is below the largest sequence number or none would survive: at that number every entry looks hidden |
| `DropRules.ValueLostAtMaximum` | FirebaseDemo/Pods/leveldb-library/db/db_impl.cc:942-946 | With the smallest snapshot at that number a single value, hidden by nothing, is dropped |
| `DropRules.ReadsKeptIff` | FirebaseDemo/Pods/leveldb-library/db/db_impl.cc:942-958 | Next to any entries left alone, compacting keeps every read at or above the smallest snapshot if and only if no key has its newest visible input dropped as an obsolete deletion while an older entry of it was left alone |
| `UnguardedCompactions.DroppedDeletionResurrects` | FirebaseDemo/Pods/leveldb-library/db/version_set.cc:1403-1447 | A concrete version and pick the code makes, with a user key split over two level+1 files, after which a deleted key reads as its old value |
| `UnguardedCompactions.FlushIntoGapOverlaps` | FirebaseDemo/Pods/leveldb-library/db/db_impl.cc:907-918 | A concrete manual pick with a gap, into which the placement rule flushes while the compaction runs: whatever version its install makes, the target level overlaps |
| `UnguardedRuns.DeletedKeyComesBack` | FirebaseDemo/Pods/leveldb-library/db/version_set.cc:1403-1447 | A whole run from an empty store of writes, a snapshot and three CompactRange calls, every table flushed to the level the rule gives, every compaction taking a whole level above the deepest one and cut by size at the default options, nothing crashing: a key is written and deleted, the deletion is the last word in the history, and the last state reads the deleted value |
| `UnguardedRuns.FlushedKeyIsHidden` | FirebaseDemo/Pods/leveldb-library/db/db_impl.cc:907-918 | A whole run of the same kind in which a flush during a manual compaction leaves two overlapping tables at one level: the newest entry of the flushed key in the tables is its value, and the search of the tables for the key finds nothing |
| `Edits.PickLevelForMemTableOutput` | FirebaseDemo/Pods/leveldb-library/db/version_set.cc:491-516 | The level chosen for a flush is exactly the rule's: 0 if level 0 meets the range, else as deep as it can sink, at most to level 2, while the next level does not meet it and the one below that meets it in at most ten files' worth of bytes; so it overlaps nothing at its level or above |
| `Edits.FlushKeepsVersionOk` | FirebaseDemo/Pods/leveldb-library/db/version_set.cc:491-516 | A flush placed by that rule keeps levels sorted and disjoint and every shallower entry of a key newer than every deeper one |
| `Edits.MoveKeepsVersionOk` | FirebaseDemo/Pods/leveldb-library/db/db_impl.cc:718-725 | A trivial move keeps the level invariant and the entries |
| `Edits.InstallKeepsVersionOk` | FirebaseDemo/Pods/leveldb-library/db/db_impl.cc:860-876 | A compaction install keeps the level invariant, also when tables were flushed since the pick |
| `Edits.InstallDisjointIff` | FirebaseDemo/Pods/leveldb-library/db/db_impl.cc:907-918 | The target level is sorted and disjoint after an install if and only if flushes since the pick kept clear of the outputs |
| `Edits.CoveredKeepsFlushesApart` | FirebaseDemo/Pods/leveldb-library/db/db_impl.cc:907-918 | Inputs without a gap make that condition hold for every flush the placement rule allows |
| `Edits.ClosedNeverResurrects` | FirebaseDemo/Pods/leveldb-library/db/version_set.cc:1403-1422 | With the level+1 inputs closed under shared boundary keys no dropped deletion exposes an older value |
| `Edits.FlushDoesNotExpose` | FirebaseDemo/Pods/leveldb-library/db/db_impl.cc:907-918 | Tables flushed while a compaction runs cannot turn a harmless drop into a harmful one |
| `Picking.GetOverlappingInputs` | FirebaseDemo/Pods/leveldb-library/db/version_set.cc:519-559 | Terminates although level 0 restarts the scan; at level 0 returns exactly the least set holding the overlapping files and closed under user-key overlap, at other levels exactly the overlapping files |
| `Picking.OverlapIsRun` | FirebaseDemo/Pods/leveldb-library/db/version_set.cc:519-559 | At a sorted level those files are one contiguous run |
| `Picking.SameCountSameFiles` | FirebaseDemo/Pods/leveldb-library/db/version_set.cc:1432-1436 | A wider range that overlaps equally many files overlaps the same files, so the code may compare counts |
| `CompactionPicking.AddBoundaryInputs` | FirebaseDemo/Pods/leveldb-library/db/version_set.cc:1326-1400 | Terminates, adds no file twice, and leaves no file of the level that starts after the final largest key with the same user key; a run stays a run |
| `CompactionPicking.VersionSet.SetupOtherInputs` | FirebaseDemo/Pods/leveldb-library/db/version_set.cc:1403-1462 | From any good starting files: the inputs become a valid pick containing them, gaps are not introduced, the grandparents are exactly the files the hull of all inputs meets two levels down, and the level's compaction pointer moves to the largest input key |
| `CompactionPicking.VersionSet.GrowInputs` | FirebaseDemo/Pods/leveldb-library/db/version_set.cc:1423-1447 | Growing keeps every level input, leaves the level+1 inputs the same set, adds at least one file and respects the byte limit |
| `CompactionPicking.VersionSet.PickCompaction` | FirebaseDemo/Pods/leveldb-library/db/version_set.cc:1270-1322 | A compaction is picked exactly when the score or a seek asks for one; it is a valid pick of the current version without gaps, at the level with the highest score |
| `CompactionPicking.VersionSet.CompactRange` | FirebaseDemo/Pods/leveldb-library/db/version_set.cc:1464-1495 | A manual range gives nothing exactly when no file of the level overlaps it, and otherwise a valid pick |
| `CompactionPicking.VersionSet.AppendVersion` | FirebaseDemo/Pods/leveldb-library/db/version_set.cc:784-799 | Once a version is current, a size-triggered compaction is due exactly when some level scores at least one |
| `CompactionPicking.BestLevel` | FirebaseDemo/Pods/leveldb-library/db/version_set.cc:1050-1086 | The level with the highest score, the shallowest on a tie; a level due for compaction is never empty |
| `CompactionPicking.Compaction.IsTrivialMove` | FirebaseDemo/Pods/leveldb-library/db/version_set.cc:1515-1523 | True exactly for a compaction of one file and nothing else whose range meets, in the input version, at most ten files' worth of bytes two levels down, so that a later merge from its new level stays cheap |
| `CompactionPicking.Compaction.IsBaseLevelForKey` | FirebaseDemo/Pods/leveldb-library/db/version_set.cc:1533-1552 | For any non-decreasing sequence of user keys the advancing per-level cursors answer like a scan of all files two and more levels down |
| `CompactionPicking.CursorDecides` | FirebaseDemo/Pods/leveldb-library/db/version_set.cc:1538-1547 | At a sorted level the first file that does not end before the key is the only one that can hold it |
| `CompactionPicking.Compaction.ShouldStopBefore` | FirebaseDemo/Pods/leveldb-library/db/version_set.cc:1554-1576 | Passes exactly the grandparents that end before the key and asks for a new output when the bytes passed since the last one exceed the limit |
| `Versions.FindFile` | FirebaseDemo/Pods/leveldb-library/db/version_set.cc:88-106 | Binary search ends where repeated halving ends, on any list; among files in order that is the first one whose largest key is not before the key |
| `Versions.SomeFileOverlapsRange` | FirebaseDemo/Pods/leveldb-library/db/version_set.cc:128-162 | True exactly when some file overlaps the user-key range, for sorted and for overlapping lists |
| `Versions.CollectLevel0` | FirebaseDemo/Pods/leveldb-library/db/version_set.cc:348-360 | Exactly the level-0 files whose range holds the key, newest number first |
| `Versions.CollectDeeper` | FirebaseDemo/Pods/leveldb-library/db/version_set.cc:361-382 | At most one file of a deeper level, and in a level in order it covers every visible entry of the key there |
| `Versions.FirstLevelDecides` | FirebaseDemo/Pods/leveldb-library/db/version_set.cc:326-421 | The first level with a visible entry of the key holds the newest one of the whole version |
| `Versions.SearchFindsNewest` | FirebaseDemo/Pods/leveldb-library/db/version_set.cc:326-421 | In a version in order the search from level 0 down, which looks at few of the files and stops at the first hit, finds the newest visible entry of all |
| `Versions.Get` | FirebaseDemo/Pods/leveldb-library/db/version_set.cc:326-421 | Level 0 newest file first, then one file per level, on any version: the result is what SearchFrom finds, and in a version in order the newest visible entry over all its files |
| `StoreReads.SearchOrderIsNewest` | FirebaseDemo/Pods/leveldb-library/db/db_impl.cc:1117-1133 | The first hit among memtable, immutable memtable and tables is the newest entry of the history |
| `StoreReads.IterationIsLookup` | FirebaseDemo/Pods/leveldb-library/db/db_impl.cc:1060-1087 | Over the merged children the live list at a sequence holds exactly the keys and values that lookups find |
| `StoreReads.StoreListsOk` | FirebaseDemo/Pods/leveldb-library/db/db_impl.cc:1060-1087 | The children of the internal iterator are strictly sorted, share no key, and together hold exactly what is stored |
| `StoreReads.InputsMerge` | FirebaseDemo/Pods/leveldb-library/db/version_set.cc:1237-1268 | The merged children of a compaction's input iterator are exactly the input entries in order |
| `DbFormat.LessIsTotalOrder` | FirebaseDemo/Pods/leveldb-library/db/dbformat.cc:51-67 | Increasing user key, then decreasing sequence and type, is a strict total order on internal keys |
| `DbFormat.LookupKeySplits` | FirebaseDemo/Pods/leveldb-library/db/dbformat.cc:121-138 | A lookup key sorts before exactly the entries a read at its sequence may return, and after all newer ones of its key |
| `Reads.SeekFindsNewest` | FirebaseDemo/Pods/leveldb-library/db/memtable.cc:100-134 | Seeking the lookup key in a sorted list lands on the newest visible entry of the key or shows there is none |
| `Reads.NewestOfUnion` | FirebaseDemo/Pods/leveldb-library/db/db_impl.cc:1117-1133 | Of two parts, one newer for the key, the newer decides as soon as it has a visible entry |
| `Reads.LookupIsRead` | FirebaseDemo/Pods/leveldb-library/db/db_impl.cc:1100-1145 | A backwards scan of the history and the newest entry of its set are the same read |
| `MemTables.ParseRoundTrip` | FirebaseDemo/Pods/leveldb-library/db/dbformat.h:165-175 | Parsing a packed internal key gives back user key, sequence and type |
| `MemTables.CompareIsOrder` | FirebaseDemo/Pods/leveldb-library/db/dbformat.cc:51-67 | Comparing packed keys orders what they stand for, under any total order of user keys, and is zero for equal keys only |
| `MemTables.SeekKeySplits` | FirebaseDemo/Pods/leveldb-library/db/dbformat.cc:121-138 | The packed lookup key splits the packed entries between newer ones of its key and those the sequence may see |
| `MemTables.MemTable.Add` | FirebaseDemo/Pods/leveldb-library/db/memtable.cc:75-98 | Encodes and inserts one entry at its place; every other entry stays |
| `MemTables.MemTable.Get` | FirebaseDemo/Pods/leveldb-library/db/memtable.cc:100-134 | The value of the newest entry the sequence sees, or that it is a deletion; false exactly when there is none |
| `Snapshots.SnapshotList.New` | FirebaseDemo/Pods/leveldb-library/db/snapshot.h:57-70 | Appends behind the newest; the ring stays linked both ways and in ascending order |
| `Snapshots.SnapshotList.Delete` | FirebaseDemo/Pods/leveldb-library/db/snapshot.h:79-86 | Unlinks just that snapshot, wherever it stands |
| `Snapshots.SnapshotList.Oldest` | FirebaseDemo/Pods/leveldb-library/db/snapshot.h:47-50 | No live snapshot has a smaller sequence number |
| `Snapshots.SnapshotList.Newest` | FirebaseDemo/Pods/leveldb-library/db/snapshot.h:51-54 | No live snapshot has a larger sequence number |
| `DbIter.LiveIsRead` | FirebaseDemo/Pods/leveldb-library/db/db_iter.cc:168-198 | The live list of a strictly sorted internal list holds a key and value exactly when a read at the sequence finds it |
| `DbIter.LiveAscends` | FirebaseDemo/Pods/leveldb-library/db/db_iter.cc:141-166 | The live list ascends strictly: every user key appears at most once |
| `DbIter.FirstVisibleIsNewest` | FirebaseDemo/Pods/leveldb-library/db/db_iter.cc:168-198 | The entry the iterator shows for a key is the newest visible one |
| `DbIter.DBIter.FindNextUserEntry` | FirebaseDemo/Pods/leveldb-library/db/db_iter.cc:168-198 | Stops at the first live entry that is not hidden, past hidden, invisible and deleted ones |
| `DbIter.DBIter.FindPrevUserEntry` | FirebaseDemo/Pods/leveldb-library/db/db_iter.cc:227-267 | Walking backwards from any place shows the last live key before it |
| `DbIter.DBIter.Next` | FirebaseDemo/Pods/leveldb-library/db/db_iter.cc:141-166 | Moves the cursor on the live list to the next key, in either direction of travel before |
| `DbIter.DBIter.Prev` | FirebaseDemo/Pods/leveldb-library/db/db_iter.cc:200-225 | Moves the cursor on the live list to the previous key, in either direction of travel before |
| `DbIter.DBIter.Seek` | FirebaseDemo/Pods/leveldb-library/db/db_iter.cc:269-281 | Moves to the first live key at or after the target |
| `DbIter.DBIter.SeekToFirst` | FirebaseDemo/Pods/leveldb-library/db/db_iter.cc:283-292 | Moves to the first live key |
| `DbIter.DBIter.SeekToLast` | FirebaseDemo/Pods/leveldb-library/db/db_iter.cc:294-299 | Moves to the last live key |
| `Merging.MergeAllIsSorted` | FirebaseDemo/Pods/leveldb-library/table/merger.cc:13-31 | Sorted lists with distinct keys merge into one strictly sorted list of exactly their entries |
| `Merging.SmallestIsNext` | FirebaseDemo/Pods/leveldb-library/table/merger.cc:148-161 | When all children stand at the same cut of the merged list, the smallest child is the next merged entry |
| `Merging.LargestIsPrevious` | FirebaseDemo/Pods/leveldb-library/table/merger.cc:163-176 | When all children stand before the same cut, the largest child is the previous merged entry |
| `Merging.TurnedForward` | FirebaseDemo/Pods/leveldb-library/table/merger.cc:58-76 | Turning forward puts every other child at its first entry after the current key |
| `Merging.MergingIterator.Next` | FirebaseDemo/Pods/leveldb-library/table/merger.cc:55-79 | Moves the cursor on the merged list forward, after a backward move too |
| `Merging.MergingIterator.Prev` | FirebaseDemo/Pods/leveldb-library/table/merger.cc:81-108 | Moves the cursor on the merged list backward, after a forward move too |
| `Merging.MergingIterator.Seek` | FirebaseDemo/Pods/leveldb-library/table/merger.cc:47-53 | Moves to the first merged entry at or after the target |
| `Merging.MergingIterator.SeekToFirst` | FirebaseDemo/Pods/leveldb-library/table/merger.cc:31-37 | Moves to the first merged entry |
| `Merging.MergingIterator.SeekToLast` | FirebaseDemo/Pods/leveldb-library/table/merger.cc:39-45 | Moves to the last merged entry |
| `TwoLevel.TwoLevelIterator.SkipEmptyDataBlocksForward` | FirebaseDemo/Pods/leveldb-library/table/two_level_iterator.cc:115-126 | Terminates at the next entry of the concatenation however many blocks are empty |
| `TwoLevel.TwoLevelIterator.SkipEmptyDataBlocksBackward` | FirebaseDemo/Pods/leveldb-library/table/two_level_iterator.cc:128-139 | Terminates at the previous entry of the concatenation however many blocks are empty |
| `TwoLevel.SeekInBlock` | FirebaseDemo/Pods/leveldb-library/table/two_level_iterator.cc:82-87 | Seeking in the block the index names is seeking in the concatenation of all blocks |
| `TwoLevel.TwoLevelIterator.InitDataBlock` | FirebaseDemo/Pods/leveldb-library/table/two_level_iterator.cc:146-165 | The data iterator is over the block under the index; one already there keeps its place |
| `TwoLevel.TwoLevelIterator.Next` | FirebaseDemo/Pods/leveldb-library/table/two_level_iterator.cc:103-107 | Moves the cursor on the concatenation forward |
| `TwoLevel.TwoLevelIterator.Prev` | FirebaseDemo/Pods/leveldb-library/table/two_level_iterator.cc:109-113 | Moves the cursor on the concatenation backward |
| `TwoLevel.TwoLevelIterator.Seek` | FirebaseDemo/Pods/leveldb-library/table/two_level_iterator.cc:82-87 | Moves to the first entry of the concatenation at or after the target |
| `TwoLevel.TwoLevelIterator.SeekToFirst` | FirebaseDemo/Pods/leveldb-library/table/two_level_iterator.cc:89-94 | Moves to the first entry of the concatenation |
| `TwoLevel.TwoLevelIterator.SeekToLast` | FirebaseDemo/Pods/leveldb-library/table/two_level_iterator.cc:96-101 | Moves to the last entry of the concatenation |
| `SkipLists.LevelsNest` | FirebaseDemo/Pods/leveldb-library/db/skiplist.h:145-179 | Every level lists a sublist of the level below |
| `SkipLists.Level0IsAll` | FirebaseDemo/Pods/leveldb-library/db/skiplist.h:145-179 | With every node linked at least once, level 0 lists all of them |
| `SkipLists.LevelIsChain` | FirebaseDemo/Pods/leveldb-library/db/skiplist.h:153-165 | Following a level's pointers from any place visits exactly that level's nodes in order |
| `SkipLists.SetNext` | FirebaseDemo/Pods/leveldb-library/db/skiplist.h:159-165 | A single release store that links a node at one more level leaves every pointer right for the larger set of links |
| `SkipLists.SkipList.FindGreaterOrEqual` | FirebaseDemo/Pods/leveldb-library/db/skiplist.h:260-281 | Terminates at the first node of a linear scan that is not before the key, with the last node before it at every level |
| `SkipLists.SkipList.FindLessThan` | FirebaseDemo/Pods/leveldb-library/db/skiplist.h:283-302 | Terminates at the last node before the key, or the head |
| `SkipLists.SkipList.FindLast` | FirebaseDemo/Pods/leveldb-library/db/skiplist.h:304-322 | Terminates at the last node, or the head of an empty list |
| `SkipLists.SkipList.Contains` | FirebaseDemo/Pods/leveldb-library/db/skiplist.h:370-378 | True exactly when the key is in the list |
| `SkipLists.SkipList.LinkLevel` | FirebaseDemo/Pods/leveldb-library/db/skiplist.h:358-364 | After each level's pair of stores the list is well formed; the entry appears with the first level and the contents do not change after it |
| `SkipLists.SkipList.Insert` | FirebaseDemo/Pods/leveldb-library/db/skiplist.h:336-368 | For any height from 1 to 12 the contents become the old ones with the entry at its sorted place |
| `SkipLists.Iterator.Next` | FirebaseDemo/Pods/leveldb-library/db/skiplist.h:206-210 | Moves the cursor on the contents forward |
| `SkipLists.Iterator.Prev` | FirebaseDemo/Pods/leveldb-library/db/skiplist.h:212-221 | Moves the cursor on the contents backward, by a search |
| `SkipLists.Iterator.Seek` | FirebaseDemo/Pods/leveldb-library/db/skiplist.h:223-226 | Moves to the first entry at or after the target |
| `SkipLists.Iterator.SeekToLast` | FirebaseDemo/Pods/leveldb-library/db/skiplist.h:233-239 | Moves to the last entry |
| `SkipListReaders.SearchIsAtomic` | FirebaseDemo/Pods/leveldb-library/db/skiplist.h:260-281 | A search whose loads see the list at ever later moments, with any stores of a writer between them, returns the first node not before the key in the list as it was at its last load |
| `SkipListReaders.SearchMissesNothing` | FirebaseDemo/Pods/leveldb-library/db/skiplist.h:260-281 | So nothing that was in the list when it began is missed |
| `SkipListReaders.LoadIsPointer` | FirebaseDemo/Pods/leveldb-library/db/skiplist.h:153-165 | What those loads are taken to see is what the pointers in memory hold between any two stores |
| `SkipListReaders.StoresGrow` | FirebaseDemo/Pods/leveldb-library/db/skiplist.h:358-364 | Each store of an insertion only adds to what can be found |
| `SkipListReaders.StaysStanding` | FirebaseDemo/Pods/leveldb-library/db/skiplist.h:260-281 | Every load of such a search reads a node that is in the list at that moment, linked at the level searched and before the key |
| `LogWriter.Writer.AddRecord` | FirebaseDemo/Pods/leveldb-library/db/log_writer.cc:34-82 | Whatever the record's length and the place in the block, the file grows by fragments that spell exactly that record behind the earlier ones |
| `LogWriter.Writer.EmitPhysicalRecord` | FirebaseDemo/Pods/leveldb-library/db/log_writer.cc:84-108 | Appends header and payload inside one block and keeps the block offset |
| `LogWriter.FragmentWritten` | FirebaseDemo/Pods/leveldb-library/db/log_writer.cc:46-80 | One more fragment completes the record or puts exactly its bytes under assembly |
| `LogWriter.EmptyFragmentEndsBlock` | FirebaseDemo/Pods/leveldb-library/db/log_writer.cc:46-66 | An empty fragment is only cut where a header exactly ends a block |
| `LogReader.HeaderIsGenuine` | FirebaseDemo/Pods/leveldb-library/db/log_reader.cc:217-249 | Away from a cut end, the header at the front of the buffer is the one written there, and its checksum matches |
| `LogReader.CutOffIsEnd` | FirebaseDemo/Pods/leveldb-library/db/log_reader.cc:220-236 | A record that goes on past the buffer of a file cut anywhere is the cut end, not damage |
| `LogReader.FragmentStep` | FirebaseDemo/Pods/leveldb-library/db/log_reader.cc:56-174 | Each fragment read completes the first pending record or goes under assembly |
| `LogReader.Reader.ReadPhysicalRecord` | FirebaseDemo/Pods/leveldb-library/db/log_reader.cc:189-271 | Returns the next fragment that lies wholly in the file, then the end of file, and reports nothing |
| `LogReader.Reader.TakeFragment` | FirebaseDemo/Pods/leveldb-library/db/log_reader.cc:77-171 | Out of step or damaged fragments are reported with the bytes given up; in step nothing is |
| `LogReader.Reader.ReadRecord` | FirebaseDemo/Pods/leveldb-library/db/log_reader.cc:56-174 | Returns the next record that lies wholly in the file, then none |
| `LogReader.WriteSessions` | FirebaseDemo/Pods/leveldb-library/db/log_writer.cc:23-32 | Records written in several sessions, each resuming at the end of the file, form one intact log |
| `LogFormat.InsideCompletes` | FirebaseDemo/Pods/leveldb-library/db/log_reader.cc:189-236 | The fragments wholly inside a prefix complete exactly the records wholly inside it |
| `LogReader.LogRoundTrip` | FirebaseDemo/Pods/leveldb-library/db/log_reader.cc:56-174 | Any records, empty ones included, written in any number of sessions come back in order; from any byte prefix come back exactly the records wholly inside, the file's fragments spelling each record with the place where it ends; neither reports corruption |
| `BlockFormat.BlockBuilder.Add` | FirebaseDemo/Pods/leveldb-library/table/block_builder.cc:72-106 | For any restart interval the block's pairs grow by the one added, stored with the longest shared prefix and restart points where they are due |
| `BlockFormat.BlockBuilder.Finish` | FirebaseDemo/Pods/leveldb-library/table/block_builder.cc:62-70 | The finished bytes are a well-formed block of exactly the pairs added |
| `BlockFormat.BlockBuilder.SharedLength` | FirebaseDemo/Pods/leveldb-library/table/block_builder.cc:79-90 | The shared length is the longest common prefix with the last key |
| `BlockReader.FastPathAgrees` | FirebaseDemo/Pods/leveldb-library/table/block.cc:54-72 | Reading three one-byte lengths gives what general varint decoding gives |
| `BlockReader.DecodesItem` | FirebaseDemo/Pods/leveldb-library/table/block.cc:54-72 | Decoding a stored entry gives its shared, unshared and value lengths |
| `BlockReader.FinishedOpens` | FirebaseDemo/Pods/leveldb-library/table/block.cc:19-39 | A finished block opens with its restart array where the builder put it |
| `BlockReader.BlockIter.ParseNextKey` | FirebaseDemo/Pods/leveldb-library/table/block.cc:224-251 | From the end of one entry it shows the next pair, or ends |
| `BlockReader.BlockIter.Next` | FirebaseDemo/Pods/leveldb-library/table/block.cc:137-140 | Moves to the next added pair |
| `BlockReader.BlockIter.Prev` | FirebaseDemo/Pods/leveldb-library/table/block.cc:142-161 | Moves to the previous added pair, through a restart point |
| `BlockReader.BlockIter.Seek` | FirebaseDemo/Pods/leveldb-library/table/block.cc:163-201 | Binary search over restart points and a scan end where a linear search for the first key at or after the target ends |
| `BlockReader.BlockIter.SeekToFirst` | FirebaseDemo/Pods/leveldb-library/table/block.cc:203-206 | Moves to the first added pair |
| `BlockReader.BlockIter.SeekToLast` | FirebaseDemo/Pods/leveldb-library/table/block.cc:208-213 | Moves to the last added pair |
| `BlockReader.FinishAndIterate` | FirebaseDemo/Pods/leveldb-library/table/block.cc:254-264 | A block that was just built iterates over exactly the pairs added to it |
| `WriteBatches.WriteBatch.Put` | FirebaseDemo/Pods/leveldb-library/db/write_batch.cc:98-103 | The bytes then encode one more operation; sequence unchanged, count one up |
| `WriteBatches.WriteBatch.Delete` | FirebaseDemo/Pods/leveldb-library/db/write_batch.cc:105-109 | The bytes then encode one more deletion |
| `WriteBatches.WriteBatch.Append` | FirebaseDemo/Pods/leveldb-library/db/write_batch.cc:144-148 | The operations of both, in order, under the destination's sequence number |
| `WriteBatches.WriteBatch.SetSequence` | FirebaseDemo/Pods/leveldb-library/db/write_batch.cc:94-96 | The header holds that sequence number and the operations stay |
| `WriteBatches.WriteBatch.Iterate` | FirebaseDemo/Pods/leveldb-library/db/write_batch.cc:42-80 | Hands over the operations in order up to the first byte that does not parse, with the status the code returns, a wrong count included; any batch built here is handed over whole |
| `WriteBatches.WriteBatch.InsertInto` | FirebaseDemo/Pods/leveldb-library/db/write_batch.cc:116-137 | Operation number i is inserted at the batch's sequence plus i, those before the damage of a damaged batch too |
| `WriteBatches.OpsRoundTrip` | FirebaseDemo/Pods/leveldb-library/db/write_batch.cc:42-80 | The encoding of any operations is handled as those operations, whatever stands behind it |
| `WriteBatches.ContentsRoundTrip` | FirebaseDemo/Pods/leveldb-library/db/write_batch.cc:42-80 | With header and count in place, a batch's bytes are handled as its operations with no damage |
| `WriteBatches.DamagedBatch` | FirebaseDemo/Pods/leveldb-library/db/write_batch.cc:42-80 | Behind any operations, bytes that do not parse are reported only after all of those were handed over; with nothing behind them only a wrong count is left to report |
| `VersionEdits.FieldRoundTrip` | FirebaseDemo/Pods/leveldb-library/db/version_edit.cc:107-205 | Each kind of field is read back from what was written, whatever follows it |
| `VersionEdits.EditRoundTrip` | FirebaseDemo/Pods/leveldb-library/db/version_edit.cc:41-85 | Any edit written and decoded into a fresh edit is the same edit |
| `VersionEdits.DecodesIntoClearedIff` | FirebaseDemo/Pods/leveldb-library/db/version_edit.cc:26-39 | Decoded into an edit used before, it is the same edit if and only if that one held no compaction pointers, which stay in front of the decoded ones; nothing else of it matters |
| `VersionEdits.DecodedTwiceDiffers` | FirebaseDemo/Pods/leveldb-library/db/version_edit.cc:26-39 | A concrete edit that, decoded twice into one object, has its compaction pointer twice |
| `VersionEdits.VersionEdit.EncodeTo` | FirebaseDemo/Pods/leveldb-library/db/version_edit.cc:41-85 | Writes exactly the fields of the edit, scalars first, then pointers, deletions and additions |
| `VersionEdits.VersionEdit.DecodeFrom` | FirebaseDemo/Pods/leveldb-library/db/version_edit.cc:107-205 | Succeeds exactly on a sequence of whole fields and applies them in order, keeping compaction pointers of before |
| `VersionEdits.VersionEdit.Clear` | FirebaseDemo/Pods/leveldb-library/db/version_edit.cc:26-39 | Forgets everything but the compaction pointers |
| `VersionBuilder.Builder.Apply` | FirebaseDemo/Pods/leveldb-library/db/version_set.cc:650-693 | Deletions and additions of one edit, an addition undoing a deletion of its number |
| `VersionBuilder.Builder.SaveTo` | FirebaseDemo/Pods/leveldb-library/db/version_set.cc:695-754 | Every level becomes, in order of smallest key, exactly the base and added files whose numbers are not deleted |
| `VersionBuilder.TracksStep` | FirebaseDemo/Pods/leveldb-library/db/version_set.cc:650-693 | A builder that stood for the version after some edits stands, after one more, for the next version |
| `VersionBuilder.ReplayEdits` | FirebaseDemo/Pods/leveldb-library/db/version_set.cc:924-1000 | Applying a whole sequence of edits in one builder equals applying them one version at a time |
| `VersionBuilder.SameFilesSameList` | FirebaseDemo/Pods/leveldb-library/db/version_set.cc:605-617 | A level in the builder's order is determined by the set of its files |
| `Manifest.WriteSnapshot` | FirebaseDemo/Pods/leveldb-library/db/version_set.cc:1088-1116 | One record with the comparator, every compaction pointer and every file of the version |
| `Manifest.SnapshotFollows` | FirebaseDemo/Pods/leveldb-library/db/version_set.cc:1088-1116 | Applied to no files that record makes exactly the version it describes |
| `Manifest.SnapshotChain` | FirebaseDemo/Pods/leveldb-library/db/version_set.cc:1088-1116 | Edits made since a version form, behind its snapshot, a chain from no files at all |
| `Manifest.Recover` | FirebaseDemo/Pods/leveldb-library/db/version_set.cc:886-1000 | Reading all records gives the last version of the chain and the counters last written; the first record that does not parse or names another comparator, damage reported by the log reader, or a missing counter fails the recovery |
| `Manifest.WrittenReads` | FirebaseDemo/Pods/leveldb-library/db/version_set.cc:924-960 | Records that were written for some edits are read as exactly those edits |
| `Manifest.SnapshotAndRecover` | FirebaseDemo/Pods/leveldb-library/db/version_set.cc:886-1000 | A manifest of a snapshot of the current version and the later edits recovers the version those edits lead to |
| `Manifest.LastEditDecides` | FirebaseDemo/Pods/leveldb-library/db/version_set.cc:801-831 | The last edit, which carries all counters, decides them |
| `WriteQueue.BuildBatchGroup` | FirebaseDemo/Pods/leveldb-library/db/db_impl.cc:1260-1306 | The group is the longest prefix of the queue the rules allow, and the result its operations in order |
| `WriteQueue.TryJoin` | FirebaseDemo/Pods/leveldb-library/db/db_impl.cc:1281-1302 | A sync write does not join a leader without sync, nor does one that makes the group too big |
| `WriteQueue.GroupIsUnique` | FirebaseDemo/Pods/leveldb-library/db/db_impl.cc:1260-1306 | The rules leave exactly one possible group for a queue |
| `WriteQueue.GroupStaysAtFront` | FirebaseDemo/Pods/leveldb-library/db/db_impl.cc:1196-1253 | Until its leader commits, a group stays the front of the queue, with its operations and sequence range, whoever arrives |
| `WriteQueue.StepKeepsInv` | FirebaseDemo/Pods/leveldb-library/db/db_impl.cc:1185-1258 | Arriving, building a group, logging, syncing, inserting one entry, committing, leaving and taking a snapshot each keep the queue's invariant |
| `WriteQueue.RunKeepsInv` | FirebaseDemo/Pods/leveldb-library/db/db_impl.cc:1185-1258 | So does every interleaving of them |
| `WriteQueue.EveryBatchOnceInOrder` | FirebaseDemo/Pods/leveldb-library/db/db_impl.cc:1185-1258 | Finished writers followed by waiting ones are the arrivals in order; the log holds the logged batches and the memtable the successful ones, each once and in queue order |
| `WriteQueue.SnapshotsSeeWholeBatches` | FirebaseDemo/Pods/leveldb-library/db/db_impl.cc:1208-1240 | No sequence number any reader was ever given cuts a batch's contiguous range in two |
| `WriteQueue.UnfinishedGroupIsInvisible` | FirebaseDemo/Pods/leveldb-library/db/db_impl.cc:1208-1240 | At the last sequence a reader sees exactly the groups already applied, never part of the one being inserted |
| `WriteQueue.SuccessfulSyncIsDurable` | FirebaseDemo/Pods/leveldb-library/db/db_impl.cc:1217-1233 | A successful write that asked for a sync is in the synced part of the log, whoever led its group |
| `WriteQueue.SequencesUsedUp` | FirebaseDemo/Pods/leveldb-library/db/db_impl.cc:1208-1240 | In every reachable state the last sequence number counts the applied operations and those of failed groups; it counts the applied ones alone if and only if no failed group had an operation |
| `WriteQueue.FailedRecordUsesNumbers` | FirebaseDemo/Pods/leveldb-library/db/db_impl.cc:1208-1240 | A concrete run: a log write fails, and the operation of the next write, the only one applied, has number 2 |
| `WriteQueue.SwitchesForced` | FirebaseDemo/Pods/leveldb-library/db/db_impl.cc:1199-1203 | In every reachable state each successful writer without a batch has had its memtable switch if and only if no group absorbed one |
| `WriteQueue.AbsorbedWriterForcesNoSwitch` | FirebaseDemo/Pods/leveldb-library/db/db_impl.cc:1199-1203 | A concrete run in which such a writer is absorbed and returns successfully without any switch |
| `Scheduling.Scheduler.MaybeScheduleCompaction` | FirebaseDemo/Pods/leveldb-library/db/db_impl.cc:648-663 | Afterwards a job is scheduled exactly if one was, or there is work and neither error nor shutdown; never two |
| `Scheduling.Scheduler.MakeRoomForWrite` | FirebaseDemo/Pods/leveldb-library/db/db_impl.cc:1310-1369 | A writer that has to wait has a job on its way to wake it; switching memtables schedules one; room is never given by force or with a full memtable |
| `Scheduling.Scheduler.RequestManual` | FirebaseDemo/Pods/leveldb-library/db/db_impl.cc:587-622 | A manual compaction request is on file and a job scheduled, or its thread waits for one that will wake it |
| `Scheduling.Scheduler.FinishJob` | FirebaseDemo/Pods/leveldb-library/db/db_impl.cc:669-686 | A finishing job wakes everybody, leaves a new one scheduled exactly if there is work left, and has taken off the request it served |
| `Scheduling.Scheduler.Install` | FirebaseDemo/Pods/leveldb-library/db/db_impl.cc:688-767 | Whatever version the running job installs, with or without the flush, due work stays scheduled |
| `Scheduling.Scheduler.UpdateStats` | FirebaseDemo/Pods/leveldb-library/db/db_impl.cc:1138-1140 | A read that makes a seek compaction due leaves a job scheduled |
| `Scheduling.Scheduler.RecordBackgroundError` | FirebaseDemo/Pods/leveldb-library/db/db_impl.cc:640-646 | The first error wakes everybody who waits |
| `Scheduling.Scheduler.Shutdown` | FirebaseDemo/Pods/leveldb-library/db/db_impl.cc:153-180 | The destructor waits exactly while a job is scheduled, and that job will wake it |
| `Scheduling.StoppedIsDue` | FirebaseDemo/Pods/leveldb-library/db/db_impl.cc:1349-1353 | Too many level-0 files to write on is also enough to be due for compaction, so a stopped writer never waits for nothing |
| `Scheduling.WaitersHaveAJob` | FirebaseDemo/Pods/leveldb-library/db/db_impl.cc:648-686 | In every state of every run there is at most one job; while somebody waits, or work may be done, there is one that can take its next step |
| `Scheduling.WaitsUntilWoken` | FirebaseDemo/Pods/leveldb-library/db/db_impl.cc:669-686 | Over a run a waiting thread sleeps on through exactly the steps that do not wake it, with a job on its way all that time; at the latest the end of that job wakes it |
| `Scheduling.JobDoesItsWork` | FirebaseDemo/Pods/leveldb-library/db/db_impl.cc:688-767 | A job that started with a memtable to flush, without error or shutdown, has flushed it by its end or an error is on record; one that started with a client's request and no memtable has taken the request off |
| `Scheduling.StepKeepsInv` | FirebaseDemo/Pods/leveldb-library/db/db_impl.cc:648-663 | Every critical section keeps it so that work that may be done is scheduled, at most once, and that whoever waits waits for a job |
| `Scheduling.Scheduler.Signal` | FirebaseDemo/Pods/leveldb-library/db/db_impl.cc:907-918 | A flush in the middle of a compaction wakes the writers before the job is over |
| `NanopbGuarantees.DecodeRestores` | FirebaseDemo/Pods/nanopb/pb_decode.c:925-1087 | For every message of every nested static schema: decoding its encoding succeeds exactly when every present string leaves room for its terminator, reads all bytes, and restores every present field (required, optional, proto3, packed and unpacked repeated, oneof, submessage), absent ones staying empty |
| `NanopbGuarantees.FullStringDoesNotComeBack` | FirebaseDemo/Pods/nanopb/pb_decode.c:1468-1501 | A concrete schema and struct whose string fills its buffer: it can be encoded, as four given bytes, and decoding those fails |
| `NanopbGuarantees.VersionsRoundTrip` | FirebaseDemo/Pods/nanopb/pb_decode.c:925-1087 | The same between two versions of a type at every depth: fields unknown to the reader are skipped, those not sent keep their defaults, and all others arrive |
| `NanopbGuarantees.DecodedCanBeEncoded` | FirebaseDemo/Pods/nanopb/pb_decode.c:406-480 | Whatever bytes are decoded, counts, byte arrays and strings stay within their storage, so the struct can be encoded again and decoding that restores it |
| `NanopbGuarantees.ReceivedArrives` | FirebaseDemo/Pods/nanopb/pb_decode.c:943-1021 | Field by field: what was sent is stored, a union holds the member that was sent, nothing else is touched |
| `NanopbRoundTrip.MessageBack` | FirebaseDemo/Pods/nanopb/pb_decode.c:925-1073 | The decoding loop on an encoded message of any compatible version gives the received struct with nothing left, or fails if a known string has no room |
| `NanopbRoundTrip.FieldsBack` | FirebaseDemo/Pods/nanopb/pb_decode.c:943-1021 | The loop over the encodings of the remaining fields, for any struct whose remaining fields are untouched |
| `NanopbRoundTrip.KnownField` | FirebaseDemo/Pods/nanopb/pb_decode.c:406-480 | Reading the encoding of one present field stores it and goes on with the rest |
| `NanopbRoundTrip.UnknownField` | FirebaseDemo/Pods/nanopb/pb_decode.c:957-986 | Reading the encoding of a field the reader does not know changes nothing |
| `NanopbRoundTrip.ScalarBack` | FirebaseDemo/Pods/nanopb/pb_decode.c:1262-1501 | Every scalar type reads back what it wrote, negative and narrow integers included |
| `NanopbRoundTrip.OctetsBack` | FirebaseDemo/Pods/nanopb/pb_decode.c:1468-1501 | A string without room for its terminator is encoded but not decoded; all others and byte arrays come back |
| `NanopbRoundTrip.RequiredSeen` | FirebaseDemo/Pods/nanopb/pb_decode.c:1012-1070 | The flags of all required fields that have one are set after an encoded message |
| `NanopbReads.Varint32Back` | FirebaseDemo/Pods/nanopb/pb_decode.c:187-247 | The 32-bit decoder with its sign-extension rule reads back every 32-bit value |
| `NanopbReads.LongLengthsRefused` | FirebaseDemo/Pods/nanopb/pb_decode.c:216-242 | Lengths and tags from 2^32 up to 2^63 are refused as overflow |
| `NanopbReads.VarintBack` | FirebaseDemo/Pods/nanopb/pb_decode.c:255-275 | The 64-bit decoder reads back every 64-bit value |
| `NanopbReads.StoreTyped` | FirebaseDemo/Pods/nanopb/pb_decode.c:406-480 | Storing a decoded member leaves every other field of the struct well typed, union members included |
| `NanopbReads.DefaultsAt` | FirebaseDemo/Pods/nanopb/pb_decode.c:836-919 | Setting defaults field by field gives each field its own default, whatever follows it |
| `NanopbFormat.AsSignedInverts` | FirebaseDemo/Pods/nanopb/pb_decode.c:1343-1346 | A signed value sent as a 64-bit varint is recovered by the 64-bit and, if it fits, the 32-bit cast |
| `NanopbFormat.ZigZagInverts` | FirebaseDemo/Pods/nanopb/pb_encode.c:630-639 | Zigzag coding is inverted by decoding and fits 64 bits exactly for 64-bit values |
| `NanopbFields.FieldIter.Next` | FirebaseDemo/Pods/nanopb/pb_common.c:20-76 | From the descriptors' relative offsets the iterator keeps the true offset of the field, inside unions and behind arrays too, counts required fields, and wraps round |
| `NanopbFields.FieldIter.Find` | FirebaseDemo/Pods/nanopb/pb_common.c:78-95 | From any position finds the field of a tag or returns to where it was, exactly when there is none |
| `NanopbFields.SharedOffsets` | FirebaseDemo/Pods/nanopb/pb_common.c:44-50 | Two fields lie at the same offset only as members of one union |
| `NanopbFields.RequiredIndicesDiffer` | FirebaseDemo/Pods/nanopb/pb_common.c:65-70 | No two required fields share an index |
| `NanopbEncode.Encode` | FirebaseDemo/Pods/nanopb/pb_encode.c:528-550 | Succeeds exactly when all present fields are encodable and the message fits, and then has put out exactly its encoding; encodable messages fail only for want of room, and a changed submessage size is never reported |
| `NanopbEncode.EncodeSubmessage` | FirebaseDemo/Pods/nanopb/pb_encode.c:717-765 | The counting pass finds exactly the bytes the writing pass puts out, so the size check at the end never fails |
| `NanopbEncode.EncodePackedArray` | FirebaseDemo/Pods/nanopb/pb_encode.c:164-205 | The size written before a packed array is the size of the items that follow |
| `NanopbEncode.EncodeArray` | FirebaseDemo/Pods/nanopb/pb_encode.c:147-236 | An array is refused exactly when it has more items than fit or one cannot be encoded |
| `NanopbEncode.EncodeBasicField` | FirebaseDemo/Pods/nanopb/pb_encode.c:341-426 | A field is put out exactly when it is present by its repetition rule |
| `NanopbEncode.CheckProto3Default` | FirebaseDemo/Pods/nanopb/pb_encode.c:240-337 | The zero check, recursive through submessages, is the one that decides presence |
| `NanopbEncode.GetEncodedSize` | FirebaseDemo/Pods/nanopb/pb_encode.c:567-576 | The size reported is the length of the encoding |
| `NanopbEncode.LongVarint` | FirebaseDemo/Pods/nanopb/pb_encode.c:619-625 | Ten bytes are enough, and they hold the base-128 code |
| `NanopbEncode.TextIsPrefix` | FirebaseDemo/Pods/nanopb/pb_encode.c:890-896 | The scan for the terminator measures the text before the first zero |
| `NanopbDecode.Decode` | FirebaseDemo/Pods/nanopb/pb_decode.c:1075-1087 | On any bytes: succeeds exactly when the specified reading does, with its struct and its unread rest, and takes no byte beyond the stream's limit |
| `NanopbDecode.DecodeNoInit` | FirebaseDemo/Pods/nanopb/pb_decode.c:925-1073 | The same from any well-typed struct, merging into it |
| `NanopbDecode.DecodeStaticField` | FirebaseDemo/Pods/nanopb/pb_decode.c:406-480 | Each repetition rule stores what is specified, packed and unpacked arrays within their size |
| `NanopbDecode.DecodeItem` | FirebaseDemo/Pods/nanopb/pb_decode.c:1318-1548 | Each type's decoder accepts exactly the values its member can hold |
| `NanopbDecode.DecodeSubmessage` | FirebaseDemo/Pods/nanopb/pb_decode.c:1503-1525 | A submessage is read within its own length and the stream resumes right behind it |
| `NanopbDecode.RequiredPresent` | FirebaseDemo/Pods/nanopb/pb_decode.c:1030-1070 | Accepts exactly when each of the first 64 required fields was seen |
| `NanopbDecode.SetToDefaults` | FirebaseDemo/Pods/nanopb/pb_decode.c:908-919 | Every field gets its default, submessages recursively |
| `NanopbDecode.IStream.DecodeVarint32Eof` | FirebaseDemo/Pods/nanopb/pb_decode.c:187-247 | Reads exactly a 32-bit varint or fails; the end of the stream is told apart |
| `NanopbDecode.IStream.DecodeVarint` | FirebaseDemo/Pods/nanopb/pb_decode.c:255-275 | Reads exactly a varint of at most ten bytes, reduced to 64 bits |
| `NanopbDecode.IStream.SkipField` | FirebaseDemo/Pods/nanopb/pb_decode.c:321-331 | Steps over exactly the data its wire type delimits |
| `NanopbDecode.IStream.MakeStringSubstream` | FirebaseDemo/Pods/nanopb/pb_decode.c:372-385 | A piece of the announced length, with the parent's rest behind it |
| `Coding.Varint64RoundTrip` | FirebaseDemo/Pods/nanopb/pb_encode.c:608-628 | Base-128 coding of 64-bit values is read back exactly, whatever follows |
| `Coding.StringRoundTrip` | FirebaseDemo/Pods/leveldb-library/db/version_edit.cc:87-95 | A length-prefixed string is read back exactly, whatever follows |

## Left out

- Everything but the two libraries: the application's Swift code, Firebase, Cosmos, IQKeyboardManager, GTMSessionFetcher and BoringSSL tables are user interface, wrappers or declarations.
- LevelDB's table.cc, table_builder.cc, cache, arena, Env and util/coding.cc are not part of this model; tables, files and fixed and variable-length integers enter by what they promise.
- repair.cc, dumpfile.cc, c.cc, filename.cc and filter_block.cc: lossy repair, printing, wrappers, names, and a filter that only saves work.
- Seek statistics, read sampling and compaction scores beyond the decision to compact, logging and debug strings.
- Corrupt internal keys in iterators, and I/O errors in the middle of a flush or an install: an operation either happens or fails as a whole.
- Memory ordering below single atomic stores, and reference counting except for which versions are live.
- The log reader's initial offset and resynchronization: every caller passes 0.
- Recovery that reuses the last log instead of writing level-0 tables.
- EngineSafety.EveryReadIsNewest: asks of each pick the two conditions the code does not check; that they cannot be dropped is DeletedKeyComesBack and FlushedKeyIsHidden.
- EngineSafety.StepKeepsInv: an install has to be harmless, which the code does not check; the two conditions are studied on their own in InstallKeepsReadsIff, ClosedPickIsSafe, CoveredPickIsSafe and InstallDisjointIff.
- EngineSafety.RunKeepsInv: ends at the first harmful install, after which the invariant can be false.
- DbImpl.DBImpl.Write: one writer at a time, the queue being WriteQueue.dfy, and a log write that fails leaves nothing a later recovery reads; a record whose sync failed is only in WriteQueue.dfy, where all later writes fail.
- UnguardedRuns.DeletedKeyComesBack: byte counts leave out prefix sharing, restart arrays, block trailers and the index; the entries are chosen so that counting these moves no cut.
- Durability.SyncedWriteStays: a sync is a step of its own here; that a write which asks for one is synced before it returns is WriteQueue.SuccessfulSyncIsDurable.
- DbImpl.DBImpl.RunCompaction: runs to its end before another method starts; writes and flushes that interleave with a compaction are steps of the state machine in Engine.dfy.
- DbImpl.DBImpl.BackgroundCompaction: runs to its end before another method starts, as RunCompaction does.
- DbImpl.DBImpl.GetSnapshot: the class keeps snapshots as a sequence of numbers; the linked list itself is Snapshots.dfy.
- Manifest.Recover: the edits that can be read must fit the version they are applied to, as all edits the store writes do; reading CURRENT and opening the file are not modelled.
- SkipListReaders.SearchIsAtomic: each load is one moment of one sequentially consistent memory.
- MemTables.MemTable.Add: keeps the entries as an ordered sequence, the skip list itself being SkipList.dfy; arena allocation is not modelled.
- Scheduling.Scheduler.MakeRoomForWrite: the one-millisecond delay of a write is only named as an outcome.
- WriteQueue.StepKeepsInv: waiting on condition variables is a writer's not moving; inserting into the memtable cannot fail.
- nanopb callbacks, extensions, fixed-count arrays, user-supplied streams, and pointer and malloc fields, with them the release of a union's old member.
- NanopbEncode.Encode: sizes are unbounded naturals, so a message whose encoding exceeds size_t is not modelled, and the struct's memory is a map from member offsets to values, not bytes with padding.
- NanopbDecode.DecodeNoInit: the struct is returned instead of updated in place, and the two words of seen flags are an array of 64 booleans.
- NanopbDecode.IStream.DecodeVarint32Eof: the bit position does not wrap, which shows only in varints of more than 36 bytes.
- NanopbGuarantees.DecodeRestores: messages whose encoding has 2^32 bytes or more, whose lengths the 32-bit length reader refuses (LongLengthsRefused), are outside it.
