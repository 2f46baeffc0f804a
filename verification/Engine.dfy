/**
  The whole store as a state machine: writes, memtable switches, flushes, compactions that run while
  writes and flushes go on, trivial moves, snapshots, readers holding old versions, garbage
  collection and crash recovery (db/db_impl.cc).

  `history` is what clients were told; the split `flushed` <= `frozen` says how much of it the
  tables and the immutable memtable account for.  `synced` entries of the current log, and `syncedOlder`
  of the log behind the immutable memtable, were synced and survive every crash.
*/
module Engine {
  import opened Base
  import opened DbFormat
  import opened Reads
  import opened Versions
  import opened Picking
  import opened CompactionPicking
  import opened DropRules
  import opened Edits
  import opened Compacting

  datatype Op = Op(key: UserKey, kind: Kind, value: Bytes)

  /** A compaction between picking its inputs and installing its outputs, with the mutex released. */
  datatype Pending = Pending(level: nat, base: Version, in0: Level, in1: Level, smallestSnapshot: SequenceNumber)

  /** What a reader holds on to: a version, the memtables of that moment and a sequence number. */
  datatype View = View(version: Version, memStart: nat, immStart: nat, sequence: SequenceNumber)

  datatype DB = DB(
    history: seq<Entry>,
    flushed: nat,
    frozen: nat,
    horizon: SequenceNumber,
    lastSequence: SequenceNumber,
    mem: seq<Entry>,
    imm: Option<seq<Entry>>,
    version: Version,
    snapshots: seq<SequenceNumber>,
    pending: Option<Pending>,
    views: seq<View>,
    logs: map<nat, seq<Entry>>,
    logfileNumber: nat,
    logNumber: nat,
    manifestSequence: SequenceNumber,
    nextFile: nat,
    manifestNextFile: nat,
    tables: set<nat>,
    pendingOutputs: set<nat>,
    synced: nat,
    syncedOlder: nat)

  datatype Step =
    | Write(ops: seq<Op>)
    | WriteFailed(count: nat)
    | SyncLog
    | SwitchMemTable(newLog: nat)
    | FlushEmpty
    | Flush(level: nat, file: FileMeta, w: Version)
    | BeginCompaction(level: nat, in0: Level, in1: Level)
    | OpenOutput(number: nat)
    | Install(input: seq<Entry>, outs: Level, w: Version)
    | AbortCompaction
    | TrivialMove(level: nat, file: FileMeta, w: Version)
    | TakeSnapshot
    | ReleaseSnapshot(index: nat)
    | OpenView(sequence: SequenceNumber)
    | CloseView(index: nat)
    | DeleteObsoleteFiles
    | CrashAndRecover(kept: nat, survived: nat, cuts: seq<nat>, files: Level, w: Version, newLog: nat)

  // ---------------------------------------------------------------- writes

  /** The entries a batch turns into: consecutive sequence numbers from `first`. */
  function Stamp(ops: seq<Op>, first: nat): seq<Entry>
    requires first + |ops| <= MAX_SEQUENCE
  {
    if ops == [] then []
    else [Entry(InternalKey(ops[0].key, first, ops[0].kind), ops[0].value)] + Stamp(ops[1..], first + 1)
  }

  lemma {:induction false} StampAt(ops: seq<Op>, first: nat)
    requires first + |ops| <= MAX_SEQUENCE
    ensures |Stamp(ops, first)| == |ops|
    ensures forall i | 0 <= i < |ops| ::
      Stamp(ops, first)[i] == Entry(InternalKey(ops[i].key, first + i, ops[i].kind), ops[i].value)
  {
    if ops != [] {
      StampAt(ops[1..], first + 1);
    }
  }

  function InsertAll(mem: seq<Entry>, es: seq<Entry>): seq<Entry>
    decreases |es|
  {
    if es == [] then mem else InsertAll(Insert(mem, es[0]), es[1..])
  }

  lemma {:induction false} InsertAllElems(mem: seq<Entry>, es: seq<Entry>)
    requires Sorted(mem)
    requires forall x, e | x in mem && e in es :: x.key.sequence < e.key.sequence
    requires IsHistory(es)
    ensures Sorted(InsertAll(mem, es))
    ensures Elems(InsertAll(mem, es)) == Elems(mem) + Elems(es)
    decreases |es|
  {
    if es != [] {
      InsertFirst(mem, es);
      InsertAllElems(Insert(mem, es[0]), es[1..]);
    }
  }

  lemma InsertFirst(mem: seq<Entry>, es: seq<Entry>)
    requires Sorted(mem) && es != [] && IsHistory(es)
    requires forall x, e | x in mem && e in es :: x.key.sequence < e.key.sequence
    ensures Sorted(Insert(mem, es[0]))
    ensures Elems(Insert(mem, es[0])) + Elems(es[1..]) == Elems(mem) + Elems(es)
    ensures forall x, e | x in Insert(mem, es[0]) && e in es[1..] :: x.key.sequence < e.key.sequence
    ensures IsHistory(es[1..])
  {
    var e, rest := es[0], es[1..];
    assert es == [e] + rest;
    InsertKeepsSorted(mem, e);
    assert forall x | x in Insert(mem, e) :: x in Elems(Insert(mem, e));
    forall y | y in rest
      ensures e.key.sequence < y.key.sequence && y in es
    {
      var j :| 0 <= j < |rest| && rest[j] == y;
      assert es[j + 1] == y;
    }
  }

  // ---------------------------------------------------------------- logs

  /** Replays the logs numbered from `n` up to `hi` in order. */
  function ReplayFrom(logs: map<nat, seq<Entry>>, n: nat, hi: nat): seq<Entry>
    decreases hi - n
  {
    if n >= hi then [] else (if n in logs then logs[n] else []) + ReplayFrom(logs, n + 1, hi)
  }

  lemma {:induction false} ReplayNothing(logs: map<nat, seq<Entry>>, n: nat, hi: nat)
    requires forall m | n <= m < hi :: m !in logs
    ensures ReplayFrom(logs, n, hi) == []
    decreases hi - n
  {
    if n < hi {
      ReplayNothing(logs, n + 1, hi);
    }
  }

  lemma {:induction false} ReplaySkips(logs: map<nat, seq<Entry>>, n: nat, m: nat, hi: nat)
    requires n <= m <= hi && forall i | n <= i < m :: i !in logs
    ensures ReplayFrom(logs, n, hi) == ReplayFrom(logs, m, hi)
    decreases m - n
  {
    if n < m {
      ReplaySkips(logs, n + 1, m, hi);
    }
  }

  function LogsFrom(logs: map<nat, seq<Entry>>, n: nat): map<nat, seq<Entry>> {
    map i | i in logs && i >= n :: logs[i]
  }

  function MaxSequence(es: seq<Entry>, floor: SequenceNumber): SequenceNumber {
    if es == [] then floor
    else
      var m := MaxSequence(es[..|es| - 1], floor);
      if es[|es| - 1].key.sequence > m then es[|es| - 1].key.sequence else m
  }

  // ---------------------------------------------------------------- steps

  function SmallestSnapshot(db: DB): SequenceNumber {
    if db.snapshots == [] then db.lastSequence else db.snapshots[0]
  }

  /** The table numbers still needed: outputs being written and the tables of every version someone can read. */
  function LiveTables(db: DB): set<nat> {
    LiveNumbers(db.pendingOutputs, db.version, db.views)
  }

  function LiveNumbers(pendingOutputs: set<nat>, current: Version, views: seq<View>): set<nat> {
    pendingOutputs + VersionNumbers(current) + set i, n | 0 <= i < |views| && n in VersionNumbers(views[i].version) :: n
  }

  function VersionNumbers(v: Version): set<nat> {
    set l, f | 0 <= l < NUM_LEVELS && f in v[l] :: f.number
  }

  /** Cut points that divide `n` log entries into consecutive non-empty groups. */
  predicate AreCuts(cuts: seq<nat>, n: nat) {
    && |cuts| >= 1 && cuts[0] == 0 && cuts[|cuts| - 1] == n
    && forall i, j | 0 <= i < j < |cuts| :: cuts[i] < cuts[j]
  }

  ghost predicate HoldsGroup(f: FileMeta, replay: seq<Entry>, cuts: seq<nat>, i: nat) {
    && i + 1 < |cuts| && cuts[i] <= cuts[i + 1] <= |replay|
    && FileOk(f) && Elems(f.entries) == Elems(replay[cuts[i]..cuts[i + 1]])
  }

  /** The level-0 tables recovery writes: one per group of replayed entries, numbered in order. */
  ghost predicate RecoveredFiles(files: Level, replay: seq<Entry>, cuts: seq<nat>, firstNumber: nat) {
    && AreCuts(cuts, |replay|) && |files| == |cuts| - 1
    && (forall i: nat | i < |files| :: HoldsGroup(files[i], replay, cuts, i) && files[i].number >= firstNumber)
    && (forall i, j | 0 <= i < j < |files| :: files[i].number < files[j].number)
  }

  /**
    `kept` entries of the older log that still counts, if there is one, and `survived` of the current one are on disk:
    at least what was synced of each.
  */
  predicate CanSurvive(db: DB, kept: nat, survived: nat) {
    && db.logfileNumber in db.logs && db.synced <= survived <= |db.logs[db.logfileNumber]|
    && (if db.logNumber == db.logfileNumber then kept == 0
        else db.logNumber in db.logs && db.syncedOlder <= kept <= |db.logs[db.logNumber]|)
  }

  function SurvivingLogs(db: DB, kept: nat, survived: nat): map<nat, seq<Entry>>
    requires CanSurvive(db, kept, survived)
  {
    var current := db.logs[db.logfileNumber][..survived];
    if db.logNumber == db.logfileNumber then db.logs[db.logfileNumber := current]
    else db.logs[db.logNumber := db.logs[db.logNumber][..kept]][db.logfileNumber := current]
  }

  /** What is left of the history: a gap where the older log lost its tail and the current one did not lose all. */
  function SurvivingHistory(h: seq<Entry>, flushed: nat, frozen: nat, kept: nat, survived: nat): seq<Entry>
    requires flushed + kept <= frozen && frozen + survived <= |h|
  {
    h[..flushed + kept] + h[frozen..frozen + survived]
  }

  ghost predicate CanWrite(db: DB, ops: seq<Op>) {
    db.lastSequence + |ops| < MAX_SEQUENCE && db.logfileNumber in db.logs
  }

  ghost predicate CanFlush(db: DB, level: nat, f: FileMeta, w: Version) {
    && db.imm.Some? && db.imm.value != []
    && FileOk(f) && f.entries == db.imm.value && f.number >= db.nextFile
    && level < NUM_LEVELS && FlushFits(db.version, level, f.smallest.user, f.largest.user)
    && Edited(db.version, {}, {(level, f)}, w)
  }

  ghost predicate CanMove(db: DB, level: nat, f: FileMeta, w: Version) {
    && db.pending == None && db.imm == None && ValidPick(db.version, level, [f], [])
    && Edited(db.version, {(level, f)}, {(level + 1, f)}, w)
  }

  ghost predicate CanRecover(db: DB, kept: nat, survived: nat, cuts: seq<nat>, files: Level, w: Version, newLog: nat) {
    && CanSurvive(db, kept, survived)
    && RecoveredFiles(files, ReplayFrom(SurvivingLogs(db, kept, survived), db.logNumber, db.nextFile), cuts, db.manifestNextFile)
    && newLog >= db.manifestNextFile && (forall f | f in files :: f.number < newLog)
    && (forall n | n in db.logs && n >= db.logNumber :: n < newLog)
    && Edited(db.version, {}, Placing(0, files), w)
  }

  ghost predicate Enabled(db: DB, step: Step) {
    match step
    case Write(ops) => CanWrite(db, ops)
    case WriteFailed(count) => db.lastSequence + count < MAX_SEQUENCE
    case SyncLog => db.logfileNumber in db.logs
    case SwitchMemTable(newLog) => db.imm == None && newLog >= db.nextFile
    case FlushEmpty => db.imm == Some([])
    case Flush(level, f, w) => CanFlush(db, level, f, w)
    case BeginCompaction(level, in0, in1) =>
      db.pending == None && db.imm == None && ValidPick(db.version, level, in0, in1)
    case OpenOutput(number) => db.pending.Some? && number >= db.nextFile
    case Install(input, outs, w) => db.pending.Some? && InstallEnabled(db, db.pending.value, input, outs, w)
    case AbortCompaction => db.pending.Some?
    case TrivialMove(level, f, w) => CanMove(db, level, f, w)
    case TakeSnapshot => true
    case ReleaseSnapshot(i) => i < |db.snapshots|
    case OpenView(s) => s == db.lastSequence || s in db.snapshots
    case CloseView(i) => i < |db.views|
    case DeleteObsoleteFiles => true
    case CrashAndRecover(kept, survived, cuts, files, w, newLog) => CanRecover(db, kept, survived, cuts, files, w, newLog)
  }

  /** Outputs made from the kept input entries; the source checks nothing else before it installs them. */
  ghost predicate InstallEnabled(db: DB, p: Pending, input: seq<Entry>, outs: Level, w: Version) {
    && p.level + 1 < NUM_LEVELS
    && Sorted(input) && Elems(input) == InputEntries(p.in0, p.in1)
    && OutputEntries(outs) == Kept(input, |input|, p.smallestSnapshot, p.base, p.level)
    && (forall o | o in outs :: FileOk(o) && o.number in db.pendingOutputs) && Disjoint(outs)
    && Edited(db.version, Taken(p.level, p.in0, p.in1), Placing(p.level + 1, outs), w)
  }

  /**
    What the source leaves unchecked when it installs: no dropped deletion resurrects an older value (G1),
    and flushes that went on meanwhile stayed clear of the outputs (G2).
  */
  ghost predicate Harmless(db: DB, step: Step) {
    step.Install? && db.pending.Some? ==>
      var p := db.pending.value;
      && p.level + 1 < NUM_LEVELS
      && NothingResurrects(db.version, p)
      && FlushesApart(p.base, db.version, p.level, step.outs)
  }

  /** What a picker can check on file metadata: no gap in the inputs, none of the next level's keys cut in two. */
  ghost predicate GuardedPick(db: DB, step: Step) {
    step.BeginCompaction? && step.level + 1 < NUM_LEVELS && step.in0 != [] ==>
      CoveredBy(step.in0 + step.in1) && NextLevelClosed(db.version, step.level, step.in1)
  }

  ghost predicate NothingResurrects(v: Version, p: Pending) {
    forall k: UserKey ::
      !Resurrects(RestEntries(v, p.level, p.in0, p.in1), InputEntries(p.in0, p.in1), p.smallestSnapshot, p.base, p.level, k)
  }

  /** Stamps the batch, logs it and inserts it into the memtable. */
  ghost function AfterWrite(db: DB, ops: seq<Op>): DB
    requires CanWrite(db, ops)
  {
    var es := Stamp(ops, db.lastSequence + 1);
    db.(history := db.history + es,
        lastSequence := db.lastSequence + |ops|,
        mem := InsertAll(db.mem, es),
        logs := db.logs[db.logfileNumber := db.logs[db.logfileNumber] + es])
  }

  /** The log write failed: nothing is stored, but the numbers are used up. */
  ghost function AfterWriteFailed(db: DB, count: nat): DB
    requires db.lastSequence + count < MAX_SEQUENCE
  {
    db.(lastSequence := db.lastSequence + count)
  }

  /** A write that asks for it syncs the whole current log; older logs stay as they are. */
  ghost function AfterSync(db: DB): DB
    requires db.logfileNumber in db.logs
  {
    db.(synced := |db.logs[db.logfileNumber]|)
  }

  ghost function AfterSwitch(db: DB, newLog: nat): DB {
    db.(imm := Some(db.mem), mem := [], frozen := |db.history|,
        logs := db.logs[newLog := []], logfileNumber := newLog, nextFile := newLog + 1,
        syncedOlder := db.synced, synced := 0)
  }

  ghost function AfterFlushEmpty(db: DB): DB {
    db.(imm := None, flushed := db.frozen, logNumber := db.logfileNumber, manifestSequence := db.lastSequence,
        manifestNextFile := db.nextFile, syncedOlder := 0)
  }

  ghost function AfterFlush(db: DB, f: FileMeta, w: Version): DB {
    db.(imm := None, flushed := db.frozen, version := w, logNumber := db.logfileNumber,
        manifestSequence := db.lastSequence, nextFile := f.number + 1, manifestNextFile := f.number + 1,
        tables := db.tables + {f.number}, syncedOlder := 0)
  }

  ghost function AfterBegin(db: DB, level: nat, in0: Level, in1: Level): DB {
    db.(pending := Some(Pending(level, db.version, in0, in1, SmallestSnapshot(db))), pendingOutputs := {})
  }

  ghost function AfterOpenOutput(db: DB, number: nat): DB {
    db.(pendingOutputs := db.pendingOutputs + {number}, tables := db.tables + {number}, nextFile := number + 1)
  }

  ghost function AfterInstall(db: DB, w: Version): DB
    requires db.pending.Some?
  {
    db.(version := w, pending := None, pendingOutputs := {}, horizon := db.pending.value.smallestSnapshot,
        manifestSequence := db.lastSequence, manifestNextFile := db.nextFile)
  }

  ghost function AfterMove(db: DB, w: Version): DB {
    db.(version := w, manifestSequence := db.lastSequence, manifestNextFile := db.nextFile)
  }

  ghost function AfterCollect(db: DB): DB {
    db.(logs := LogsFrom(db.logs, db.logNumber), tables := db.tables * LiveTables(db))
  }

  /**
    Reopening after logs lost their tails: surviving logs become level-0 tables, a new log starts.
    File numbers go on from what the manifest last recorded, above all surviving logs.
  */
  ghost function AfterRecover(db: DB, kept: nat, survived: nat, files: Level, w: Version, newLog: nat): DB
    requires CanSurvive(db, kept, survived)
  {
    var logs := SurvivingLogs(db, kept, survived);
    var last := MaxSequence(ReplayFrom(logs, db.logNumber, db.nextFile), db.manifestSequence);
    var history := if db.flushed + kept <= db.frozen && db.frozen + survived <= |db.history|
                   then SurvivingHistory(db.history, db.flushed, db.frozen, kept, survived) else db.history;
    db.(history := history, flushed := |history|, frozen := |history|,
        lastSequence := last, manifestSequence := last,
        mem := [], imm := None, version := w, snapshots := [], pending := None, views := [],
        logs := logs[newLog := []], logfileNumber := newLog, logNumber := newLog,
        nextFile := newLog + 1, manifestNextFile := newLog + 1,
        tables := db.tables + (set f | f in files :: f.number), pendingOutputs := {}, synced := 0, syncedOlder := 0)
  }

  ghost function Apply(db: DB, step: Step): DB
    requires Enabled(db, step)
  {
    match step
    case Write(ops) => AfterWrite(db, ops)
    case WriteFailed(count) => AfterWriteFailed(db, count)
    case SyncLog => AfterSync(db)
    case SwitchMemTable(newLog) => AfterSwitch(db, newLog)
    case FlushEmpty => AfterFlushEmpty(db)
    case Flush(level, f, w) => AfterFlush(db, f, w)
    case BeginCompaction(level, in0, in1) => AfterBegin(db, level, in0, in1)
    case OpenOutput(number) => AfterOpenOutput(db, number)
    case Install(input, outs, w) => AfterInstall(db, w)
    case AbortCompaction => db.(pending := None, pendingOutputs := {})
    case TrivialMove(level, f, w) => AfterMove(db, w)
    case TakeSnapshot => db.(snapshots := db.snapshots + [db.lastSequence])
    case ReleaseSnapshot(i) => db.(snapshots := db.snapshots[..i] + db.snapshots[i + 1..])
    case OpenView(s) => db.(views := db.views + [View(db.version, db.frozen, db.flushed, s)])
    case CloseView(i) => db.(views := db.views[..i] + db.views[i + 1..])
    case DeleteObsoleteFiles => AfterCollect(db)
    case CrashAndRecover(kept, survived, cuts, files, w, newLog) => AfterRecover(db, kept, survived, files, w, newLog)
  }

  // ---------------------------------------------------------------- invariant

  /** A version answers like the first `n` entries of the history, for every sequence from `floor` up. */
  ghost predicate Refines(v: Version, h: seq<Entry>, n: nat, floor: SequenceNumber) {
    && n <= |h|
    && VersionOk(v)
    && VersionEntries(v) <= Elems(h[..n])
    && ReadsKept(Elems(h[..n]), VersionEntries(v), floor)
  }

  ghost predicate HistoryOk(db: DB) {
    && IsHistory(db.history)
    && Split(db)
    && db.lastSequence < MAX_SEQUENCE
    && (forall e | e in db.history :: e.key.sequence <= db.lastSequence)
    && (forall e | e in db.history[..db.flushed] :: e.key.sequence <= db.manifestSequence)
    && db.manifestSequence <= db.lastSequence
  }

  ghost predicate Split(db: DB) {
    db.flushed <= db.frozen <= |db.history|
  }

  ghost predicate MemOk(db: DB)
    requires Split(db)
  {
    && Sorted(db.mem) && Elems(db.mem) == Elems(db.history[db.frozen..])
    && (db.imm == None ==> db.flushed == db.frozen)
    && (db.imm.Some? ==> Sorted(db.imm.value) && Elems(db.imm.value) == Elems(db.history[db.flushed..db.frozen]))
  }

  ghost predicate SnapshotsOk(db: DB) {
    && db.horizon <= db.manifestSequence
    && (forall i, j | 0 <= i < j < |db.snapshots| :: db.snapshots[i] <= db.snapshots[j])
    && (forall s | s in db.snapshots :: db.horizon <= s <= db.lastSequence)
  }

  ghost predicate PendingOk(db: DB) {
    db.pending.Some? ==>
      var p := db.pending.value;
      && VersionOk(p.base) && ValidPick(p.base, p.level, p.in0, p.in1)
      && FlushedSince(p.base, db.version)
      && db.horizon <= p.smallestSnapshot <= db.lastSequence
      && forall s | s in db.snapshots :: p.smallestSnapshot <= s
  }

  ghost predicate LogsOk(db: DB)
    requires Split(db)
  {
    && db.logfileNumber in db.logs && db.logs[db.logfileNumber] == db.history[db.frozen..]
    && (forall n | n in db.logs && n >= db.logNumber :: n == db.logNumber || n == db.logfileNumber)
    && (forall n | n in db.logs :: n < db.nextFile)
    && db.logNumber <= db.logfileNumber
    && (db.imm == None ==> db.logNumber == db.logfileNumber)
    && (db.imm.Some? ==> db.logNumber < db.logfileNumber && db.logNumber in db.logs
                         && db.logs[db.logNumber] == db.history[db.flushed..db.frozen])
  }

  ghost predicate SyncedOk(db: DB)
    requires Split(db)
  {
    db.flushed + db.syncedOlder <= db.frozen && db.frozen + db.synced <= |db.history|
  }

  ghost predicate FilesOk(db: DB) {
    && LiveTables(db) <= db.tables
    && (forall n | n in LiveTables(db) :: n < db.nextFile)
    && (forall n | n in VersionNumbers(db.version) :: n < db.manifestNextFile)
    && db.manifestNextFile <= db.nextFile
    && db.pendingOutputs !! VersionNumbers(db.version)
  }

  ghost predicate ViewOk(db: DB, view: View) {
    && view.immStart <= view.memStart <= |db.history|
    && Refines(view.version, db.history, view.immStart, view.sequence)
  }

  ghost predicate Inv(db: DB) {
    && HistoryOk(db)
    && MemOk(db)
    && Refines(db.version, db.history, db.flushed, db.horizon)
    && SnapshotsOk(db)
    && PendingOk(db)
    && LogsOk(db)
    && SyncedOk(db)
    && FilesOk(db)
    && forall view | view in db.views :: ViewOk(db, view)
  }
}
