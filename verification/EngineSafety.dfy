/**
  Every step keeps the invariant, so over every run each read at a live snapshot, at the latest
  sequence, or through a view opened earlier returns the newest entry of the write history.
*/
module EngineSafety {
  import opened Base
  import opened DbFormat
  import opened Reads
  import opened Versions
  import opened Picking
  import opened CompactionPicking
  import opened DropRules
  import opened Edits
  import opened Compacting
  import opened Engine

  // ---------------------------------------------------------------- reading the parts

  lemma UniqueSubset(S: set<Entry>, T: set<Entry>)
    requires UniqueSeqs(S) && T <= S
    ensures UniqueSeqs(T)
  {
  }

  lemma SlicesAreHistories(h: seq<Entry>, a: nat, b: nat)
    requires IsHistory(h) && a <= b <= |h|
    ensures IsHistory(h[..a]) && IsHistory(h[a..b])
  {
  }

  lemma SliceElems(h: seq<Entry>, a: nat, b: nat)
    requires a <= b <= |h|
    ensures Elems(h[..b]) == Elems(h[..a]) + Elems(h[a..b])
    ensures Elems(h[..b]) <= Elems(h)
  {
    assert h[..b] == h[..a] + h[a..b];
    forall e | e in h[..b]
      ensures e in h
    {
    }
  }

  lemma LaterSliceIsNewer(h: seq<Entry>, a: nat, b: nat)
    requires IsHistory(h) && a <= b <= |h|
    ensures forall d, e | d in Elems(h[a..b]) && e in Elems(h[..a]) :: d.key.sequence > e.key.sequence
  {
    forall d, e | d in h[a..b] && e in h[..a]
      ensures d.key.sequence > e.key.sequence
    {
      var i :| 0 <= i < a && h[i] == e;
      var j :| 0 <= j < b - a && h[a..b][j] == d;
      assert h[a + j] == d;
    }
  }

  lemma SlicesOfHistory(h: seq<Entry>, a: nat, b: nat)
    requires IsHistory(h) && a <= b <= |h|
    ensures IsHistory(h[..a]) && IsHistory(h[a..b])
    ensures Elems(h[..b]) == Elems(h[..a]) + Elems(h[a..b])
    ensures Elems(h[..b]) <= Elems(h)
    ensures forall d, e | d in Elems(h[a..b]) && e in Elems(h[..a]) :: d.key.sequence > e.key.sequence
  {
    SlicesAreHistories(h, a, b);
    SliceElems(h, a, b);
    LaterSliceIsNewer(h, a, b);
  }

  /** A good version for the first `n` entries together with the entries up to `m` reads like the first `m`. */
  lemma PartsRead(h: seq<Entry>, n: nat, m: nat, v: Version, floor: SequenceNumber, k: UserKey, s: SequenceNumber)
    requires IsHistory(h) && Refines(v, h, n, floor) && n <= m <= |h| && floor <= s
    ensures Read(Elems(h[n..m]) + VersionEntries(v), k, s) == Read(Elems(h[..m]), k, s)
    ensures UniqueSeqs(Elems(h[n..m]) + VersionEntries(v))
  {
    SlicesOfHistory(h, n, m);
    HistoryIsUnique(h);
    var tail, prefix := Elems(h[n..m]), Elems(h[..n]);
    UniqueSubset(Elems(h), tail + prefix);
    UniqueSubset(Elems(h), tail + VersionEntries(v));
    assert Elems(h[..m]) == tail + prefix;
    NewestOfUnion(tail, prefix, k, s);
    NewestOfUnion(tail, VersionEntries(v), k, s);
    assert Read(VersionEntries(v), k, s) == Read(prefix, k, s);
  }

  ghost function ImmEntries(db: DB): set<Entry> {
    match db.imm
    case None => {}
    case Some(es) => Elems(es)
  }

  /** Everything a read can find: memtable, immutable memtable, tables. */
  ghost function Stored(db: DB): set<Entry> {
    Elems(db.mem) + (ImmEntries(db) + VersionEntries(db.version))
  }

  lemma StoredIsTail(db: DB)
    requires HistoryOk(db) && MemOk(db)
    ensures Stored(db) == Elems(db.history[db.flushed..|db.history|]) + VersionEntries(db.version)
  {
    var h := db.history;
    assert h[db.flushed..|h|] == h[db.flushed..db.frozen] + h[db.frozen..];
    if db.imm == None {
      assert h[db.flushed..db.frozen] == [];
    }
  }

  /** Reading the store's parts at any sequence from the horizon up is looking the key up in the whole history. */
  lemma StoredReadsHistory(db: DB, k: UserKey, s: SequenceNumber)
    requires Inv(db) && db.horizon <= s
    ensures Read(Stored(db), k, s) == Lookup(db.history, k, s)
    ensures UniqueSeqs(Stored(db))
  {
    var h := db.history;
    StoredIsTail(db);
    PartsRead(h, db.flushed, |h|, db.version, db.horizon, k, s);
    assert h[..|h|] == h;
    LookupIsRead(h, k, s);
  }

  /**
    A view opened at an earlier state keeps answering for its sequence, however far the memtable it
    shares with the writers has grown since.
  */
  lemma ViewReadsHistory(db: DB, view: View, memEnd: nat, k: UserKey)
    requires Inv(db) && view in db.views
    requires view.memStart <= memEnd <= |db.history|
    requires forall e | e in db.history[memEnd..] :: e.key.sequence > view.sequence
    ensures Read(Elems(db.history[view.memStart..memEnd])
                 + (Elems(db.history[view.immStart..view.memStart]) + VersionEntries(view.version)), k, view.sequence)
         == Lookup(db.history, k, view.sequence)
  {
    var h, a, b, s := db.history, view.immStart, view.memStart, view.sequence;
    assert ViewOk(db, view);
    ViewPieces(h, a, b, memEnd, VersionEntries(view.version));
    PartsRead(h, a, memEnd, view.version, s, k, s);
    LookupIsRead(h, k, s);
    NewestIgnoresLater(h, memEnd, k, s);
  }

  lemma ViewPieces(h: seq<Entry>, a: nat, b: nat, c: nat, S: set<Entry>)
    requires a <= b <= c <= |h|
    ensures Elems(h[a..c]) + S == Elems(h[b..c]) + (Elems(h[a..b]) + S)
  {
    assert h[a..c] == h[a..b] + h[b..c];
  }

  lemma NewestIgnoresLater(h: seq<Entry>, n: nat, k: UserKey, s: SequenceNumber)
    requires IsHistory(h) && n <= |h|
    requires forall e | e in h[n..] :: e.key.sequence > s
    ensures Newest(Elems(h), k, s) == Newest(Elems(h[..n]), k, s)
  {
    assert h == h[..n] + h[n..];
    HistoryIsUnique(h);
    NewestOfSubset(Elems(h), Elems(h[..n]), k, s);
  }

  // ---------------------------------------------------------------- steps

  lemma AppendKeepsPrefix(h: seq<Entry>, es: seq<Entry>, n: nat)
    requires n <= |h|
    ensures (h + es)[..n] == h[..n] && (h + es)[n..] == h[n..] + es
  {
  }

  lemma AppendKeepsSlice(h: seq<Entry>, es: seq<Entry>, a: nat, b: nat)
    requires a <= b <= |h|
    ensures (h + es)[a..b] == h[a..b]
  {
  }

  lemma StampExtends(h: seq<Entry>, ops: seq<Op>, last: SequenceNumber)
    requires IsHistory(h) && last + |ops| < MAX_SEQUENCE
    requires forall e | e in h :: e.key.sequence <= last
    ensures IsHistory(h + Stamp(ops, last + 1)) && IsHistory(Stamp(ops, last + 1))
    ensures forall e | e in Stamp(ops, last + 1) :: last < e.key.sequence <= last + |ops|
  {
    StampAt(ops, last + 1);
    assert forall i | 0 <= i < |h| :: h[i] in h;
  }

  lemma WriteKeepsMem(h: seq<Entry>, n: nat, mem: seq<Entry>, es: seq<Entry>)
    requires n <= |h| && IsHistory(h + es) && IsHistory(es)
    requires Sorted(mem) && Elems(mem) == Elems(h[n..])
    requires forall d, e | d in h && e in es :: d.key.sequence < e.key.sequence
    ensures Sorted(InsertAll(mem, es)) && Elems(InsertAll(mem, es)) == Elems((h + es)[n..])
  {
    assert (h + es)[n..] == h[n..] + es;
    forall e | e in mem
      ensures e in h
    {
      assert e in Elems(mem);
    }
    InsertAllElems(mem, es);
  }

  lemma WriteKeepsViews(db: DB, es: seq<Entry>, db': DB)
    requires db'.history == db.history + es
    requires forall view | view in db.views :: ViewOk(db, view)
    ensures forall view | view in db.views :: ViewOk(db', view)
  {
    forall view | view in db.views
      ensures ViewOk(db', view)
    {
      assert ViewOk(db, view);
      AppendKeepsPrefix(db.history, es, view.immStart);
    }
  }

  lemma BoundGrows(h: seq<Entry>, es: seq<Entry>, last: nat, last': nat)
    requires last <= last' && (forall e | e in h :: e.key.sequence <= last) && forall e | e in es :: e.key.sequence <= last'
    ensures forall e | e in h + es :: e.key.sequence <= last'
  {
  }

  lemma WriteKeepsHistory(db: DB, ops: seq<Op>)
    requires HistoryOk(db) && CanWrite(db, ops)
    ensures HistoryOk(AfterWrite(db, ops))
  {
    hide Stamp, InsertAll, IsHistory;
    var es, h := Stamp(ops, db.lastSequence + 1), db.history;
    StampExtends(h, ops, db.lastSequence);
    BoundGrows(h, es, db.lastSequence, db.lastSequence + |ops|);
    AppendKeepsPrefix(h, es, db.flushed);
  }

  lemma StampedMem(h: seq<Entry>, n: nat, mem: seq<Entry>, ops: seq<Op>, last: SequenceNumber)
    requires n <= |h| && IsHistory(h) && last + |ops| < MAX_SEQUENCE
    requires forall e | e in h :: e.key.sequence <= last
    requires Sorted(mem) && Elems(mem) == Elems(h[n..])
    ensures Sorted(InsertAll(mem, Stamp(ops, last + 1)))
    ensures Elems(InsertAll(mem, Stamp(ops, last + 1))) == Elems((h + Stamp(ops, last + 1))[n..])
  {
    StampExtends(h, ops, last);
    WriteKeepsMem(h, n, mem, Stamp(ops, last + 1));
  }

  lemma WriteKeepsMemTable(db: DB, ops: seq<Op>)
    requires HistoryOk(db) && MemOk(db) && CanWrite(db, ops)
    ensures Sorted(AfterWrite(db, ops).mem)
    ensures Elems(AfterWrite(db, ops).mem) == Elems(AfterWrite(db, ops).history[db.frozen..])
  {
    StampedMem(db.history, db.frozen, db.mem, ops, db.lastSequence);
  }

  lemma WriteKeepsMemTables(db: DB, ops: seq<Op>)
    requires HistoryOk(db) && MemOk(db) && CanWrite(db, ops) && HistoryOk(AfterWrite(db, ops))
    ensures MemOk(AfterWrite(db, ops))
  {
    WriteKeepsMemTable(db, ops);
    AppendKeepsSlice(db.history, Stamp(ops, db.lastSequence + 1), db.flushed, db.frozen);
  }

  lemma SlicesAfterAppend(h: seq<Entry>, es: seq<Entry>, a: nat, b: nat)
    requires a <= b <= |h|
    ensures (h + es)[b..] == h[b..] + es
    ensures (h + es)[a..b] == h[a..b]
  {
  }

  lemma LogsGrow(db: DB, es: seq<Entry>, db': DB)
    requires Split(db) && LogsOk(db) && Split(db')
    requires db' == db.(history := db.history + es, lastSequence := db'.lastSequence, mem := db'.mem,
                        logs := db.logs[db.logfileNumber := db.logs[db.logfileNumber] + es])
    ensures LogsOk(db')
  {
    SlicesAfterAppend(db.history, es, db.flushed, db.frozen);
  }

  lemma WriteKeepsLogs(db: DB, ops: seq<Op>)
    requires Split(db) && LogsOk(db) && CanWrite(db, ops) && Split(AfterWrite(db, ops))
    ensures LogsOk(AfterWrite(db, ops))
  {
    LogsGrow(db, Stamp(ops, db.lastSequence + 1), AfterWrite(db, ops));
  }

  lemma WriteKeepsInv(db: DB, ops: seq<Op>)
    requires Inv(db) && CanWrite(db, ops)
    ensures Inv(AfterWrite(db, ops))
  {
    var es := Stamp(ops, db.lastSequence + 1);
    WriteKeepsHistory(db, ops);
    WriteKeepsMemTables(db, ops);
    WriteKeepsLogs(db, ops);
    AppendKeepsPrefix(db.history, es, db.flushed);
    WriteKeepsViews(db, es, AfterWrite(db, ops));
  }

  lemma WriteFailedKeepsInv(db: DB, count: nat)
    requires Inv(db) && db.lastSequence + count < MAX_SEQUENCE
    ensures Inv(AfterWriteFailed(db, count))
  {
    ViewsKept(db, AfterWriteFailed(db, count));
  }

  lemma SwitchKeepsInv(db: DB, newLog: nat)
    requires Inv(db) && db.imm == None && newLog >= db.nextFile
    ensures Inv(AfterSwitch(db, newLog))
  {
    var h := db.history;
    assert h[db.frozen..] == h[db.frozen..|h|];
    var db' := AfterSwitch(db, newLog);
    assert forall view | view in db'.views :: ViewOk(db, view);
  }

  lemma VersionNumbersOf(v: Version, gone: set<Placed>, added: set<Placed>, w: Version)
    requires Edited(v, gone, added, w)
    ensures VersionNumbers(w) <= VersionNumbers(v) + set p | p in added :: p.1.number
  {
    forall n | n in VersionNumbers(w)
      ensures n in VersionNumbers(v) + set p | p in added :: p.1.number
    {
      var l, f :| 0 <= l < NUM_LEVELS && f in w[l] && f.number == n;
      if (l, f) in added {
        assert (l, f).1.number == n;
      }
    }
  }

  lemma EmptyMemTableIsFlushed(db: DB)
    requires HistoryOk(db) && MemOk(db) && db.imm == Some([])
    ensures db.flushed == db.frozen
  {
    var slice := db.history[db.flushed..db.frozen];
    assert Elems(db.imm.value) == {};
    if slice != [] {
      FirstIsElem(slice);
    }
  }

  lemma FlushEmptyKeepsInv(db: DB)
    requires Inv(db) && db.imm == Some([])
    ensures Inv(AfterFlushEmpty(db))
  {
    EmptyMemTableIsFlushed(db);
    var db' := AfterFlushEmpty(db);
    assert HistoryOk(db') by {
      assert forall e | e in db.history[..db.frozen] :: e in db.history;
    }
    assert LogsOk(db');
    assert forall view | view in db'.views :: ViewOk(db, view);
  }

  /** The flushed file holds exactly the entries after those already in tables, all of them newer. */
  lemma FlushedFileIsNewer(db: DB, f: FileMeta)
    requires Inv(db) && db.imm == Some(f.entries)
    ensures EntriesNewer(f, VersionEntries(db.version))
    ensures UniqueSeqs(VersionEntries(db.version) + Elems(f.entries))
    ensures Elems(f.entries) == Elems(db.history[db.flushed..db.frozen])
  {
    SlicesOfHistory(db.history, db.flushed, db.frozen);
    HistoryIsUnique(db.history);
    UniqueSubset(Elems(db.history), VersionEntries(db.version) + Elems(f.entries));
    assert forall e | e in f.entries :: e in Elems(f.entries);
  }

  lemma FlushRefines(db: DB, level: nat, f: FileMeta, w: Version)
    requires Inv(db) && CanFlush(db, level, f, w)
    ensures Refines(w, db.history, db.frozen, db.horizon)
  {
    FlushedFileIsNewer(db, f);
    forall g | g in db.version[0]
      ensures g.number < f.number
    {
      assert g.number in VersionNumbers(db.version);
    }
    FlushKeepsVersionOk(db.version, level, f, w);
    FlushEntries(db.version, level, f, w);
    SlicesOfHistory(db.history, db.flushed, db.frozen);
    var tail := Elems(db.history[db.flushed..db.frozen]);
    assert VersionEntries(w) == tail + VersionEntries(db.version);
    forall k: UserKey, s: SequenceNumber | db.horizon <= s
      ensures Read(VersionEntries(w), k, s) == Read(Elems(db.history[..db.frozen]), k, s)
    {
      PartsRead(db.history, db.flushed, db.frozen, db.version, db.horizon, k, s);
    }
  }

  lemma FlushKeepsPending(base: Version, v: Version, level: nat, f: FileMeta, w: Version)
    requires FlushedSince(base, v) && level < NUM_LEVELS && Edited(v, {}, {(level, f)}, w)
    requires EntriesNewer(f, VersionEntries(v)) && FlushFits(v, level, f.smallest.user, f.largest.user)
    ensures FlushedSince(base, w)
  {
    if level > 0 {
      forall m, g | 0 <= m <= level && g in base[m]
        ensures !RangesMeet(g, f)
      {
        assert !Overlaps(g, Some(f.smallest.user), Some(f.largest.user));
      }
      assert MeetsNoneAbove(base, level, f);
    }
    forall e | e in VersionEntries(base)
      ensures e in VersionEntries(v)
    {
      var l, g := InVersion(base, e);
      FileInVersion(v, l, g, e);
    }
  }

  lemma FlushKeepsInv(db: DB, level: nat, f: FileMeta, w: Version)
    requires Inv(db) && CanFlush(db, level, f, w)
    ensures Inv(AfterFlush(db, f, w))
  {
    var db' := AfterFlush(db, f, w);
    FlushRefines(db, level, f, w);
    FlushKeepsFiles(db, level, f, w);
    assert PendingOk(db') by {
      FlushedFileIsNewer(db, f);
      if db.pending.Some? {
        FlushKeepsPending(db.pending.value.base, db.version, level, f, w);
      }
    }
    assert HistoryOk(db') by {
      assert forall e | e in db.history[..db.frozen] :: e in db.history;
    }
    assert LogsOk(db');
    assert forall view | view in db'.views :: ViewOk(db, view) && ViewOk(db', view);
  }

  lemma FlushKeepsFiles(db: DB, level: nat, f: FileMeta, w: Version)
    requires Inv(db) && CanFlush(db, level, f, w)
    ensures FilesOk(AfterFlush(db, f, w))
  {
    VersionNumbersOf(db.version, {}, {(level, f)}, w);
    assert forall n | n in db.pendingOutputs :: n in LiveTables(db);
  }

  lemma BeginKeepsInv(db: DB, level: nat, in0: Level, in1: Level)
    requires Inv(db) && db.pending == None && db.imm == None && ValidPick(db.version, level, in0, in1)
    ensures Inv(AfterBegin(db, level, in0, in1))
  {
    var db' := AfterBegin(db, level, in0, in1);
    assert FlushedSince(db.version, db.version);
    assert db.snapshots != [] ==> db.snapshots[0] in db.snapshots;
    assert forall view | view in db'.views :: ViewOk(db, view);
  }

  lemma OpenOutputKeepsInv(db: DB, number: nat)
    requires Inv(db) && db.pending.Some? && number >= db.nextFile
    ensures Inv(AfterOpenOutput(db, number))
  {
    var db' := AfterOpenOutput(db, number);
    assert forall view | view in db'.views :: ViewOk(db, view);
    assert forall n | n in VersionNumbers(db.version) :: n in LiveTables(db);
  }

  // ---------------------------------------------------------------- install

  lemma SurvivorsAreWritten(base: Version, level: nat, in0: Level, in1: Level, ss: SequenceNumber, input: seq<Entry>, outs: Level)
    requires ss < MAX_SEQUENCE && UniqueSeqs(Elems(input))
    requires Sorted(input) && Elems(input) == InputEntries(in0, in1)
    requires OutputEntries(outs) == Kept(input, |input|, ss, base, level)
    requires (forall o | o in outs :: FileOk(o)) && Disjoint(outs)
    ensures OutputsOk(in0, in1, outs)
    ensures LevelEntries(outs) == Survivors(InputEntries(in0, in1), ss, base, level)
  {
    KeptAll(input, ss, base, level);
    OutputElems(outs);
  }

  lemma InputsAreUnique(v: Version, level: nat, in0: Level, in1: Level)
    requires VersionOk(v) && level + 1 < NUM_LEVELS
    requires VersionEntries(v) == RestEntries(v, level, in0, in1) + InputEntries(in0, in1)
    ensures UniqueSeqs(InputEntries(in0, in1))
  {
    UniqueSubset(VersionEntries(v), InputEntries(in0, in1));
  }

  lemma OkIsDisjoint(v: Version, l: nat)
    requires 0 < l < NUM_LEVELS
    ensures VersionOk(v) ==> Disjoint(v[l])
  {
    if VersionOk(v) {
      LevelFacts(v, l);
    }
  }

  lemma InstalledVersion(base: Version, v: Version, level: nat, in0: Level, in1: Level, ss: SequenceNumber,
                         input: seq<Entry>, outs: Level, w: Version)
    requires VersionOk(base) && VersionOk(v) && FlushedSince(base, v) && ValidPick(base, level, in0, in1)
    requires ss < MAX_SEQUENCE && Sorted(input) && Elems(input) == InputEntries(in0, in1)
    requires OutputEntries(outs) == Kept(input, |input|, ss, base, level)
    requires (forall o | o in outs :: FileOk(o) && o !in v[level + 1]) && Disjoint(outs)
    requires Edited(v, Taken(level, in0, in1), Placing(level + 1, outs), w)
    ensures VersionOk(w) <==> FlushesApart(base, v, level, outs)
    ensures VersionEntries(v) == RestEntries(v, level, in0, in1) + InputEntries(in0, in1)
    ensures VersionEntries(w) == RestEntries(v, level, in0, in1) + Survivors(InputEntries(in0, in1), ss, base, level)
  {
    InputsInVersion(base, v, level, in0, in1);
    RestAndInputs(v, level, in0, in1);
    InputsAreUnique(v, level, in0, in1);
    SurvivorsAreWritten(base, level, in0, in1, ss, input, outs);
    hide Sorted, Kept, Survivors, ValidPick, FlushedSince, FlushesApart, UniqueSeqs, OutputsOk, Edited;
    InstallDisjointIff(base, v, level, in0, in1, outs, w);
    if FlushesApart(base, v, level, outs) {
      InstallKeepsVersionOk(base, v, level, in0, in1, outs, w);
    }
    OkIsDisjoint(w, level + 1);
    InstallEntries(v, level, in0, in1, outs, w);
  }

  /** Installing replaces the inputs by their survivors and keeps the level invariant. */
  lemma InstallOutcome(db: DB, p: Pending, input: seq<Entry>, outs: Level, w: Version)
    requires Inv(db) && db.pending == Some(p) && InstallEnabled(db, p, input, outs, w)
    ensures VersionOk(w) <==> FlushesApart(p.base, db.version, p.level, outs)
    ensures UniqueSeqs(RestEntries(db.version, p.level, p.in0, p.in1) + InputEntries(p.in0, p.in1))
    ensures VersionEntries(db.version) == RestEntries(db.version, p.level, p.in0, p.in1) + InputEntries(p.in0, p.in1)
    ensures VersionEntries(w) == RestEntries(db.version, p.level, p.in0, p.in1)
              + Survivors(InputEntries(p.in0, p.in1), p.smallestSnapshot, p.base, p.level)
  {
    OutputsAreNew(db, p, outs);
    InstalledVersion(p.base, db.version, p.level, p.in0, p.in1, p.smallestSnapshot, input, outs, w);
  }

  /**
    An install clear of what was flushed meanwhile leaves every read of the tables at or above the smallest
    snapshot alone if and only if no dropped deletion still has an older value of its key outside the inputs.
  */
  lemma InstallKeepsReadsIff(db: DB, p: Pending, input: seq<Entry>, outs: Level, w: Version)
    requires Inv(db) && db.pending == Some(p) && InstallEnabled(db, p, input, outs, w)
    ensures ReadsKept(VersionEntries(db.version), VersionEntries(w), p.smallestSnapshot)
       <==> NothingResurrects(db.version, p)
  {
    InstallOutcome(db, p, input, outs, w);
    ReadsKeptIff(RestEntries(db.version, p.level, p.in0, p.in1), InputEntries(p.in0, p.in1), p.smallestSnapshot, p.base, p.level);
  }

  /** The boundary guard a picker could check on file metadata alone is enough, whatever was flushed meanwhile. */
  lemma ClosedPickIsSafe(db: DB, p: Pending)
    requires Inv(db) && db.pending == Some(p) && NextLevelClosed(p.base, p.level, p.in1)
    ensures NothingResurrects(db.version, p)
  {
    forall k: UserKey
      ensures !Resurrects(RestEntries(db.version, p.level, p.in0, p.in1), InputEntries(p.in0, p.in1),
                          p.smallestSnapshot, p.base, p.level, k)
    {
      ClosedNeverResurrects(p.base, p.level, p.in0, p.in1, p.smallestSnapshot, k);
      FlushDoesNotExpose(p.base, db.version, p.level, p.in0, p.in1, p.smallestSnapshot, k);
    }
  }

  /** Inputs without a gap, as every automatically picked compaction has, need no guard against flushes. */
  lemma CoveredPickIsSafe(db: DB, p: Pending, input: seq<Entry>, outs: Level)
    requires Inv(db) && db.pending == Some(p) && CoveredBy(p.in0 + p.in1)
    requires Sorted(input) && Elems(input) == InputEntries(p.in0, p.in1)
    requires OutputEntries(outs) == Kept(input, |input|, p.smallestSnapshot, p.base, p.level)
    requires (forall o | o in outs :: FileOk(o)) && Disjoint(outs)
    ensures FlushesApart(p.base, db.version, p.level, outs)
  {
    InputsInVersion(p.base, db.version, p.level, p.in0, p.in1);
    RestAndInputs(db.version, p.level, p.in0, p.in1);
    UniqueSubset(VersionEntries(db.version), Elems(input));
    KeptAll(input, p.smallestSnapshot, p.base, p.level);
    OutputElems(outs);
    CoveredKeepsFlushesApart(p.base, db.version, p.level, p.in0, p.in1, outs);
  }

  lemma OutputsAreNew(db: DB, p: Pending, outs: Level)
    requires FilesOk(db) && p.level + 1 < NUM_LEVELS
    requires forall o | o in outs :: o.number in db.pendingOutputs
    ensures forall o | o in outs :: o !in db.version[p.level + 1]
  {
    assert forall f | f in db.version[p.level + 1] :: f.number in VersionNumbers(db.version);
  }

  lemma InstallRefines(db: DB, input: seq<Entry>, outs: Level, w: Version)
    requires Inv(db) && db.pending.Some? && InstallEnabled(db, db.pending.value, input, outs, w)
    requires Harmless(db, Install(input, outs, w))
    ensures Refines(w, db.history, db.flushed, db.pending.value.smallestSnapshot)
  {
    var p := db.pending.value;
    InstallOutcome(db, p, input, outs, w);
    forall k: UserKey, s: SequenceNumber | p.smallestSnapshot <= s
      ensures Read(VersionEntries(w), k, s) == Read(Elems(db.history[..db.flushed]), k, s)
    {
      InstallKeepsRead(db, p, w, k, s);
    }
  }

  lemma InstallKeepsRead(db: DB, p: Pending, w: Version, k: UserKey, s: SequenceNumber)
    requires Inv(db) && db.pending == Some(p) && p.smallestSnapshot <= s && NothingResurrects(db.version, p)
    requires UniqueSeqs(RestEntries(db.version, p.level, p.in0, p.in1) + InputEntries(p.in0, p.in1))
    requires VersionEntries(db.version) == RestEntries(db.version, p.level, p.in0, p.in1) + InputEntries(p.in0, p.in1)
    requires VersionEntries(w) == RestEntries(db.version, p.level, p.in0, p.in1)
              + Survivors(InputEntries(p.in0, p.in1), p.smallestSnapshot, p.base, p.level)
    ensures Read(VersionEntries(w), k, s) == Read(Elems(db.history[..db.flushed]), k, s)
  {
    var rest, inputs := RestEntries(db.version, p.level, p.in0, p.in1), InputEntries(p.in0, p.in1);
    SurvivorsKeepRead(rest, inputs, p.smallestSnapshot, p.base, p.level, k, s);
    assert Read(VersionEntries(db.version), k, s) == Read(Elems(db.history[..db.flushed]), k, s);
  }

  lemma InstallKeepsFiles(db: DB, level: nat, in0: Level, in1: Level, outs: Level, w: Version)
    requires FilesOk(db) && level + 1 < NUM_LEVELS
    requires forall o | o in outs :: o.number in db.pendingOutputs
    requires Edited(db.version, Taken(level, in0, in1), Placing(level + 1, outs), w)
    ensures FilesOk(db.(version := w, pendingOutputs := {}, manifestNextFile := db.nextFile))
  {
    var db' := db.(version := w, pendingOutputs := {}, manifestNextFile := db.nextFile);
    VersionNumbersOf(db.version, Taken(level, in0, in1), Placing(level + 1, outs), w);
    forall n | n in VersionNumbers(w)
      ensures n in LiveTables(db)
    {
      if n !in VersionNumbers(db.version) {
        var q :| q in Placing(level + 1, outs) && q.1.number == n;
      }
    }
    assert LiveTables(db') <= LiveTables(db);
  }

  lemma ViewsKept(db: DB, db': DB)
    requires db'.history == db.history && db'.views == db.views
    requires forall view | view in db.views :: ViewOk(db, view)
    ensures forall view | view in db'.views :: ViewOk(db', view)
  {
    assert forall view | view in db'.views :: ViewOk(db, view);
  }

  lemma InstallKeepsInv(db: DB, input: seq<Entry>, outs: Level, w: Version)
    requires Inv(db) && db.pending.Some? && InstallEnabled(db, db.pending.value, input, outs, w)
    requires Harmless(db, Install(input, outs, w))
    ensures Inv(AfterInstall(db, w))
  {
    var db' := AfterInstall(db, w);
    var p := db.pending.value;
    InstallRefines(db, input, outs, w);
    InstallKeepsFiles(db, p.level, p.in0, p.in1, outs, w);
    ViewsKept(db, db');
    assert LiveTables(db') == LiveTables(db.(version := w, pendingOutputs := {}));
    assert HistoryOk(db') && SnapshotsOk(db');
  }

  lemma AbortKeepsInv(db: DB)
    requires Inv(db) && db.pending.Some?
    ensures Inv(db.(pending := None, pendingOutputs := {}))
  {
    var db' := db.(pending := None, pendingOutputs := {});
    assert LiveTables(db') <= LiveTables(db);
    assert forall view | view in db'.views :: ViewOk(db, view);
  }

  lemma MovedNumbers(db: DB, level: nat, f: FileMeta, w: Version)
    requires CanMove(db, level, f, w)
    ensures VersionNumbers(w) <= VersionNumbers(db.version)
  {
    VersionNumbersOf(db.version, {(level, f)}, {(level + 1, f)}, w);
    assert f in [f] && f in db.version[level];
    assert f.number in VersionNumbers(db.version);
  }

  lemma MoveKeepsFiles(db: DB, level: nat, f: FileMeta, w: Version)
    requires FilesOk(db) && CanMove(db, level, f, w)
    ensures FilesOk(AfterMove(db, w))
  {
    MovedNumbers(db, level, f, w);
    assert LiveTables(AfterMove(db, w)) <= LiveTables(db);
    assert VersionNumbers(db.version) <= LiveTables(db);
  }

  lemma MoveRefines(db: DB, level: nat, f: FileMeta, w: Version)
    requires Inv(db) && CanMove(db, level, f, w)
    ensures Refines(w, db.history, db.flushed, db.horizon)
  {
    MoveKeepsVersionOk(db.version, level, f, w);
  }

  lemma MoveKeepsInv(db: DB, level: nat, f: FileMeta, w: Version)
    requires Inv(db) && CanMove(db, level, f, w)
    ensures Inv(AfterMove(db, w))
  {
    var db' := AfterMove(db, w);
    MoveRefines(db, level, f, w);
    MoveKeepsFiles(db, level, f, w);
    assert HistoryOk(db') && MemOk(db') && SnapshotsOk(db') && PendingOk(db') && LogsOk(db');
    ViewsKept(db, db');
  }

  // ---------------------------------------------------------------- snapshots, views, garbage

  lemma SnapshotKeepsInv(db: DB)
    requires Inv(db)
    ensures Inv(db.(snapshots := db.snapshots + [db.lastSequence]))
  {
    var db' := db.(snapshots := db.snapshots + [db.lastSequence]);
    assert forall i | 0 <= i < |db.snapshots| :: db.snapshots[i] in db.snapshots;
    assert forall view | view in db'.views :: ViewOk(db, view);
  }

  lemma ReleaseKeepsInv(db: DB, i: nat)
    requires Inv(db) && i < |db.snapshots|
    ensures Inv(db.(snapshots := db.snapshots[..i] + db.snapshots[i + 1..]))
  {
    var db' := db.(snapshots := db.snapshots[..i] + db.snapshots[i + 1..]);
    assert forall s | s in db'.snapshots :: s in db.snapshots;
    assert forall view | view in db'.views :: ViewOk(db, view);
  }

  lemma OpenViewKeepsInv(db: DB, s: SequenceNumber)
    requires Inv(db) && (s == db.lastSequence || s in db.snapshots)
    ensures Inv(db.(views := db.views + [View(db.version, db.frozen, db.flushed, s)]))
  {
    var db' := db.(views := db.views + [View(db.version, db.frozen, db.flushed, s)]);
    assert LiveTables(db') <= LiveTables(db);
    assert ViewOk(db, View(db.version, db.frozen, db.flushed, s));
    assert forall view | view in db'.views :: ViewOk(db, view);
  }

  lemma CloseViewKeepsInv(db: DB, i: nat)
    requires Inv(db) && i < |db.views|
    ensures Inv(db.(views := db.views[..i] + db.views[i + 1..]))
  {
    var db' := db.(views := db.views[..i] + db.views[i + 1..]);
    assert forall view | view in db'.views :: view in db.views;
    forall n | n in LiveTables(db')
      ensures n in LiveTables(db)
    {
      if n !in db.pendingOutputs && n !in VersionNumbers(db.version) {
        var j :| 0 <= j < |db'.views| && n in VersionNumbers(db'.views[j].version);
        assert db'.views[j] == db.views[if j < i then j else j + 1];
      }
    }
    assert forall view | view in db'.views :: ViewOk(db, view);
  }

  /** Garbage collection removes no log recovery would read, no table of a live version and no pending output. */
  lemma CollectKeepsInv(db: DB)
    requires Inv(db)
    ensures Inv(AfterCollect(db))
    ensures forall n | n in db.logs && n >= db.logNumber ::
              n in AfterCollect(db).logs && AfterCollect(db).logs[n] == db.logs[n]
    ensures LiveTables(db) <= AfterCollect(db).tables
  {
    var db' := AfterCollect(db);
    assert LiveTables(db') == LiveTables(db);
    assert forall view | view in db'.views :: ViewOk(db, view);
  }

  // ---------------------------------------------------------------- crash and recovery

  lemma LogsReplay(db: DB)
    requires Split(db) && LogsOk(db) && (db.imm == None ==> db.flushed == db.frozen)
    ensures ReplayFrom(db.logs, db.logNumber, db.nextFile) == db.history[db.flushed..]
  {
    ReplayOfTwo(db.logs, db.logNumber, db.logfileNumber, db.nextFile);
    var h := db.history;
    assert h[db.flushed..] == h[db.flushed..db.frozen] + h[db.frozen..];
  }

  /** The logs the manifest still refers to hold exactly the entries no table holds yet, in order. */
  lemma LogsHoldTheRest(db: DB)
    requires Inv(db)
    ensures ReplayFrom(db.logs, db.logNumber, db.nextFile) == db.history[db.flushed..]
  {
    LogsReplay(db);
  }

  lemma ReplayOfTwo(logs: map<nat, seq<Entry>>, a: nat, b: nat, hi: nat)
    requires a in logs && b in logs && a <= b < hi
    requires forall n | n in logs && n >= a :: n == a || n == b
    ensures ReplayFrom(logs, a, hi) == if a == b then logs[b] else logs[a] + logs[b]
  {
    ReplayNothing(logs, b + 1, hi);
    assert ReplayFrom(logs, b, hi) == logs[b] + [];
    assert logs[b] + [] == logs[b];
    if a < b {
      ReplaySkips(logs, a + 1, b, hi);
    }
  }

  /** What survives in the logs, behind what the tables hold, is the surviving history. */
  lemma SurvivingReplay(db: DB, kept: nat, survived: nat)
    requires Inv(db) && CanSurvive(db, kept, survived)
    ensures db.flushed + kept <= db.frozen && db.frozen + survived <= |db.history|
    ensures var h := SurvivingHistory(db.history, db.flushed, db.frozen, kept, survived);
            && |h| == db.flushed + kept + survived
            && ReplayFrom(SurvivingLogs(db, kept, survived), db.logNumber, db.nextFile) == h[db.flushed..]
  {
    var logs := SurvivingLogs(db, kept, survived);
    ReplayOfTwo(logs, db.logNumber, db.logfileNumber, db.nextFile);
    if db.imm == None {
      assert kept == 0;
    } else {
      assert logs[db.logNumber] == db.history[db.flushed..db.frozen][..kept];
    }
    SurvivingParts(db.history, db.flushed, db.frozen, kept, survived);
  }

  lemma SurvivingParts(h: seq<Entry>, flushed: nat, frozen: nat, kept: nat, survived: nat)
    requires flushed + kept <= frozen && frozen + survived <= |h|
    ensures SurvivingHistory(h, flushed, frozen, kept, survived)[..flushed] == h[..flushed]
    ensures SurvivingHistory(h, flushed, frozen, kept, survived)[flushed..]
         == h[flushed..frozen][..kept] + h[frozen..][..survived]
    ensures kept == 0 ==> SurvivingHistory(h, flushed, frozen, kept, survived)[flushed..] == h[frozen..][..survived]
  {
  }

  /** Whatever the logs lost, what survives is a history of writes that were made. */
  lemma SurvivingIsHistory(h: seq<Entry>, flushed: nat, frozen: nat, kept: nat, survived: nat)
    requires IsHistory(h) && flushed + kept <= frozen && frozen + survived <= |h|
    ensures IsHistory(SurvivingHistory(h, flushed, frozen, kept, survived))
    ensures Elems(SurvivingHistory(h, flushed, frozen, kept, survived)) <= Elems(h)
  {
    var h' := SurvivingHistory(h, flushed, frozen, kept, survived);
    forall i | 0 <= i < |h'|
      ensures h'[i] == h[if i < flushed + kept then i else i - (flushed + kept) + frozen]
    {
    }
    assert forall e | e in h' :: e in h;
  }

  /**
    No write survives one made before it that was lost, if and only if the older log kept everything or the
    current one lost everything: the older log is closed without a sync, so both can fail.
  */
  lemma SurvivesAsPrefixIff(h: seq<Entry>, flushed: nat, frozen: nat, kept: nat, survived: nat)
    requires IsHistory(h) && flushed + kept <= frozen && frozen + survived <= |h|
    ensures SurvivingHistory(h, flushed, frozen, kept, survived) <= h <==> flushed + kept == frozen || survived == 0
  {
    var h' := SurvivingHistory(h, flushed, frozen, kept, survived);
    if flushed + kept == frozen || survived == 0 {
      assert h' == h[..|h'|];
    } else {
      assert h'[flushed + kept] == h[frozen] && h[flushed + kept].key.sequence < h[frozen].key.sequence;
    }
  }

  lemma {:induction false} MaxSequenceBounds(es: seq<Entry>, floor: SequenceNumber)
    ensures floor <= MaxSequence(es, floor)
    ensures forall e | e in es :: e.key.sequence <= MaxSequence(es, floor)
    ensures MaxSequence(es, floor) == floor || exists e :: e in es && e.key.sequence == MaxSequence(es, floor)
  {
    if es != [] {
      var front, last := es[..|es| - 1], es[|es| - 1];
      MaxSequenceBounds(front, floor);
      assert es == front + [last];
    }
  }

  /** Recovered level-0 tables follow one another in age and come after everything already in the version. */
  lemma RecoverKeepsVersionOk(v: Version, files: Level, w: Version, S: set<Entry>)
    requires VersionOk(v) && Edited(v, {}, Placing(0, files), w)
    requires forall f | f in files :: FileOk(f) && EntriesNewer(f, VersionEntries(v))
    requires forall f, g | f in files && g in v[0] :: g.number < f.number
    requires forall f, g | f in files && g in files && f.number > g.number :: Newer(f, g)
    requires UniqueSeqs(S) && VersionEntries(w) <= S
    ensures VersionOk(w)
  {
    forall l | 0 <= l < NUM_LEVELS
      ensures LevelOk(w, l)
    {
      RecoverKeepsLevel(v, files, w, l);
    }
    forall l, m, f, g | 0 <= l < m < NUM_LEVELS && f in w[l] && g in w[m]
      ensures Newer(f, g)
    {
      if (l, f) in Placing(0, files) {
        NewerThanFile(f, v, m, g);
      }
    }
  }

  lemma RecoverKeepsLevel(v: Version, files: Level, w: Version, l: nat)
    requires VersionOk(v) && Edited(v, {}, Placing(0, files), w) && l < NUM_LEVELS
    requires forall f | f in files :: FileOk(f) && EntriesNewer(f, VersionEntries(v))
    requires forall f, g | f in files && g in v[0] :: g.number < f.number
    requires forall f, g | f in files && g in files && f.number > g.number :: Newer(f, g)
    ensures LevelOk(w, l)
  {
    LevelFacts(v, l);
    assert LevelOk(v, l);
    assert BySmallest(w[l]);
    if l == 0 {
      forall f, g | f in w[0] && g in w[0] && f.number > g.number
        ensures Newer(f, g)
      {
        if f in files && g in v[0] {
          NewerThanFile(f, v, 0, g);
        }
      }
    } else {
      assert forall f :: f in w[l] <==> f in v[l];
      DisjointIsOrdered(v[l]);
      DisjointIffApart(v[l]);
      DisjointIffApart(w[l]);
    }
  }

  lemma RecoverEntries(v: Version, files: Level, w: Version)
    requires Edited(v, {}, Placing(0, files), w)
    ensures VersionEntries(w) == VersionEntries(v) + LevelEntries(files)
  {
    forall e | e in VersionEntries(w)
      ensures e in VersionEntries(v) + LevelEntries(files)
    {
      var l, f := InVersion(w, e);
      if f in v[l] {
        FileInVersion(v, l, f, e);
      }
    }
    forall e | e in VersionEntries(v) + LevelEntries(files)
      ensures e in VersionEntries(w)
    {
      if f :| f in files && e in f.entries {
        assert (0, f) in Placing(0, files);
        FileInVersion(w, 0, f, e);
      } else {
        var l, f := InVersion(v, e);
        FileInVersion(w, l, f, e);
      }
    }
  }

  /** Consecutive groups of a list lose nothing. */
  lemma {:induction false} CutsCover(cuts: seq<nat>, n: nat, i: nat) returns (j: nat)
    requires AreCuts(cuts, n) && i < n
    ensures j + 1 < |cuts| && cuts[j] <= i < cuts[j + 1]
  {
    j := 0;
    while cuts[j + 1] <= i
      invariant j + 1 < |cuts| && cuts[j] <= i
      decreases |cuts| - j
    {
      j := j + 1;
    }
  }

  lemma RecoveredContents(files: Level, replay: seq<Entry>, cuts: seq<nat>, first: nat)
    requires RecoveredFiles(files, replay, cuts, first)
    ensures LevelEntries(files) == Elems(replay)
  {
    forall e | e in LevelEntries(files)
      ensures e in replay
    {
      var f :| f in files && e in f.entries;
      var i: nat :| i < |files| && files[i] == f;
      assert HoldsGroup(files[i], replay, cuts, i);
      assert e in Elems(f.entries);
    }
    forall e | e in replay
      ensures e in LevelEntries(files)
    {
      var p :| 0 <= p < |replay| && replay[p] == e;
      var j := CutsCover(cuts, |replay|, p);
      assert HoldsGroup(files[j], replay, cuts, j);
      assert replay[cuts[j]..cuts[j + 1]][p - cuts[j]] == e;
      assert e in Elems(files[j].entries);
    }
  }

  lemma PlaceInGroup(f: FileMeta, replay: seq<Entry>, cuts: seq<nat>, i: nat, d: Entry) returns (p: nat)
    requires HoldsGroup(f, replay, cuts, i) && d in f.entries
    ensures cuts[i] <= p < cuts[i + 1] && replay[p] == d
  {
    assert d in Elems(f.entries);
    var group := replay[cuts[i]..cuts[i + 1]];
    var q: nat :| q < |group| && group[q] == d;
    p := cuts[i] + q;
  }

  lemma RecoveredInAgeOrder(files: Level, replay: seq<Entry>, cuts: seq<nat>, first: nat, f: FileMeta, g: FileMeta)
    requires RecoveredFiles(files, replay, cuts, first) && IsHistory(replay)
    requires f in files && g in files && f.number > g.number
    ensures Newer(f, g)
  {
    var i: nat :| i < |files| && files[i] == f;
    var j: nat :| j < |files| && files[j] == g;
    assert j < i;
    assert HoldsGroup(files[i], replay, cuts, i) && HoldsGroup(files[j], replay, cuts, j);
    assert cuts[j + 1] <= cuts[i];
    forall d, e | d in f.entries && e in g.entries && d.key.user == e.key.user
      ensures d.key.sequence > e.key.sequence
    {
      var p := PlaceInGroup(f, replay, cuts, i, d);
      var q := PlaceInGroup(g, replay, cuts, j, e);
    }
  }

  lemma RecoveredVersionOk(h: seq<Entry>, n: nat, v: Version, horizon: SequenceNumber, cuts: seq<nat>, files: Level,
                           first: nat, w: Version)
    requires IsHistory(h) && Refines(v, h, n, horizon)
    requires RecoveredFiles(files, h[n..], cuts, first) && forall g | g in v[0] :: g.number < first
    requires Edited(v, {}, Placing(0, files), w)
    ensures VersionOk(w)
    ensures VersionEntries(w) == Elems(h[n..]) + VersionEntries(v)
  {
    assert h[n..|h|] == h[n..] && h[..|h|] == h;
    SlicesOfHistory(h, n, |h|);
    HistoryIsUnique(h);
    RecoveredContents(files, h[n..], cuts, first);
    RecoverEntries(v, files, w);
    forall f | f in files
      ensures FileOk(f) && f.number >= first && EntriesNewer(f, VersionEntries(v))
    {
      RecoveredFileIsNewer(h, n, v, cuts, files, first, f);
    }
    forall f, g | f in files && g in files && f.number > g.number
      ensures Newer(f, g)
    {
      RecoveredInAgeOrder(files, h[n..], cuts, first, f, g);
    }
    RecoverKeepsVersionOk(v, files, w, Elems(h));
  }

  /** With the recovered tables a version that answers like the first `n` entries answers like all that survived. */
  lemma RecoveryRefines(h: seq<Entry>, n: nat, v: Version, horizon: SequenceNumber, cuts: seq<nat>, files: Level,
                        first: nat, w: Version)
    requires IsHistory(h) && Refines(v, h, n, horizon)
    requires RecoveredFiles(files, h[n..], cuts, first) && forall g | g in v[0] :: g.number < first
    requires Edited(v, {}, Placing(0, files), w)
    ensures Refines(w, h, |h|, horizon)
  {
    RecoveredVersionOk(h, n, v, horizon, cuts, files, first, w);
    assert h[n..|h|] == h[n..] && h[..|h|] == h;
    SlicesOfHistory(h, n, |h|);
    forall k: UserKey, s: SequenceNumber | horizon <= s
      ensures Read(VersionEntries(w), k, s) == Read(Elems(h), k, s)
    {
      PartsRead(h, n, |h|, v, horizon, k, s);
    }
  }

  lemma RecoveredFileIsNewer(h: seq<Entry>, n: nat, v: Version, cuts: seq<nat>, files: Level, first: nat, f: FileMeta)
    requires IsHistory(h) && n <= |h| && VersionEntries(v) <= Elems(h[..n])
    requires RecoveredFiles(files, h[n..], cuts, first) && f in files
    ensures FileOk(f) && f.number >= first && EntriesNewer(f, VersionEntries(v))
  {
    assert h[n..|h|] == h[n..];
    LaterSliceIsNewer(h, n, |h|);
    var i: nat :| i < |files| && files[i] == f;
    assert HoldsGroup(files[i], h[n..], cuts, i);
    forall d | d in f.entries
      ensures d in Elems(h[n..])
    {
      assert d in Elems(f.entries);
      assert d in h[n..][cuts[i]..cuts[i + 1]];
    }
  }

  lemma CutHistory(h: seq<Entry>, n: nat, floor: SequenceNumber, bound: SequenceNumber)
    requires n <= |h| && floor <= bound
    requires (forall e | e in h[..n] :: e.key.sequence <= floor) && forall e | e in Elems(h) :: e.key.sequence <= bound
    ensures forall e | e in h :: e.key.sequence <= MaxSequence(h[n..], floor)
    ensures floor <= MaxSequence(h[n..], floor) <= bound
  {
    MaxSequenceBounds(h[n..], floor);
    assert h == h[..n] + h[n..];
    forall e | e in h[n..]
      ensures e in Elems(h)
    {
    }
  }

  /** A store that has only tables and an empty log. */
  ghost function Reopened(h: seq<Entry>, horizon: SequenceNumber, w: Version, last: SequenceNumber,
                          logs: map<nat, seq<Entry>>, newLog: nat, tables: set<nat>): DB {
    DB(h, |h|, |h|, horizon, last, [], None, w, [], None, [], logs, newLog, newLog, last, newLog + 1, newLog + 1, tables, {}, 0, 0)
  }

  lemma ReopenedIsOk(h: seq<Entry>, horizon: SequenceNumber, w: Version, last: SequenceNumber,
                     logs: map<nat, seq<Entry>>, newLog: nat, tables: set<nat>)
    requires IsHistory(h) && (forall e | e in h :: e.key.sequence <= last) && horizon <= last < MAX_SEQUENCE
    requires Refines(w, h, |h|, horizon)
    requires newLog in logs && logs[newLog] == [] && forall n | n in logs :: n <= newLog
    requires forall n | n in VersionNumbers(w) :: n < newLog && n in tables
    ensures Inv(Reopened(h, horizon, w, last, logs, newLog, tables))
  {
    var db := Reopened(h, horizon, w, last, logs, newLog, tables);
    assert h[..|h|] == h && h[|h|..] == [];
    assert LiveTables(db) == VersionNumbers(w);
  }

  /** What recovery makes of a crashed store. */
  lemma RecoveredState(db: DB, kept: nat, survived: nat, files: Level, w: Version, newLog: nat, last: SequenceNumber)
    requires Inv(db) && CanSurvive(db, kept, survived)
    requires last == MaxSequence(ReplayFrom(SurvivingLogs(db, kept, survived), db.logNumber, db.nextFile), db.manifestSequence)
    ensures db.flushed + kept <= db.frozen && db.frozen + survived <= |db.history|
    ensures AfterRecover(db, kept, survived, files, w, newLog)
         == Reopened(SurvivingHistory(db.history, db.flushed, db.frozen, kept, survived), db.horizon, w, last,
                     SurvivingLogs(db, kept, survived)[newLog := []], newLog, db.tables + set f | f in files :: f.number)
  {
    SurvivingReplay(db, kept, survived);
  }

  lemma SurvivingRefines(v: Version, h: seq<Entry>, flushed: nat, frozen: nat, kept: nat, survived: nat, floor: SequenceNumber)
    requires Refines(v, h, flushed, floor) && flushed + kept <= frozen && frozen + survived <= |h|
    ensures Refines(v, SurvivingHistory(h, flushed, frozen, kept, survived), flushed, floor)
  {
    SurvivingParts(h, flushed, frozen, kept, survived);
  }

  lemma Level0Numbers(db: DB)
    requires FilesOk(db)
    ensures forall g | g in db.version[0] :: g.number < db.manifestNextFile
  {
    assert forall g | g in db.version[0] :: g.number in VersionNumbers(db.version);
  }

  lemma CrashRefines(db: DB, kept: nat, survived: nat, cuts: seq<nat>, files: Level, w: Version, newLog: nat)
    requires Inv(db) && CanRecover(db, kept, survived, cuts, files, w, newLog)
    ensures db.flushed + kept <= db.frozen && db.frozen + survived <= |db.history|
    ensures var h := SurvivingHistory(db.history, db.flushed, db.frozen, kept, survived);
            IsHistory(h) && Refines(w, h, |h|, db.horizon)
  {
    var h := SurvivingHistory(db.history, db.flushed, db.frozen, kept, survived);
    SurvivingReplay(db, kept, survived);
    SurvivingIsHistory(db.history, db.flushed, db.frozen, kept, survived);
    SurvivingRefines(db.version, db.history, db.flushed, db.frozen, kept, survived, db.horizon);
    Level0Numbers(db);
    RecoveryRefines(h, db.flushed, db.version, db.horizon, cuts, files, db.manifestNextFile, w);
  }

  lemma CrashSequence(db: DB, kept: nat, survived: nat)
    requires Inv(db) && CanSurvive(db, kept, survived)
    ensures db.flushed + kept <= db.frozen && db.frozen + survived <= |db.history|
    ensures var h := SurvivingHistory(db.history, db.flushed, db.frozen, kept, survived);
            var last := MaxSequence(h[db.flushed..], db.manifestSequence);
            && (forall e | e in h :: e.key.sequence <= last) && db.manifestSequence <= last <= db.lastSequence
  {
    var h := SurvivingHistory(db.history, db.flushed, db.frozen, kept, survived);
    SurvivingReplay(db, kept, survived);
    SurvivingIsHistory(db.history, db.flushed, db.frozen, kept, survived);
    SurvivingParts(db.history, db.flushed, db.frozen, kept, survived);
    CutHistory(h, db.flushed, db.manifestSequence, db.lastSequence);
  }

  lemma CrashReopens(db: DB, kept: nat, survived: nat, cuts: seq<nat>, files: Level, w: Version, newLog: nat,
                     h: seq<Entry>, last: SequenceNumber)
    requires Inv(db) && CanRecover(db, kept, survived, cuts, files, w, newLog)
    requires IsHistory(h) && Refines(w, h, |h|, db.horizon)
    requires (forall e | e in h :: e.key.sequence <= last) && db.manifestSequence <= last <= db.lastSequence
    ensures Inv(Reopened(h, db.horizon, w, last, SurvivingLogs(db, kept, survived)[newLog := []], newLog,
                         db.tables + set f | f in files :: f.number))
  {
    RecoveredNumbers(db, files, w, newLog);
    var remaining := SurvivingLogs(db, kept, survived)[newLog := []];
    forall m | m in remaining
      ensures m <= newLog
    {
      SurvivingNumber(db, newLog, m);
    }
    ReopenedIsOk(h, db.horizon, w, last, remaining, newLog, db.tables + set f | f in files :: f.number);
  }

  lemma SameInv(a: DB, b: DB)
    requires a == b && Inv(b)
    ensures Inv(a)
  {
  }

  lemma CrashKeepsInv(db: DB, kept: nat, survived: nat, cuts: seq<nat>, files: Level, w: Version, newLog: nat)
    requires Inv(db) && CanRecover(db, kept, survived, cuts, files, w, newLog)
    ensures Inv(AfterRecover(db, kept, survived, files, w, newLog))
  {
    SurvivingReplay(db, kept, survived);
    var h := SurvivingHistory(db.history, db.flushed, db.frozen, kept, survived);
    var last := MaxSequence(h[db.flushed..], db.manifestSequence);
    RecoveredState(db, kept, survived, files, w, newLog, last);
    CrashRefines(db, kept, survived, cuts, files, w, newLog);
    CrashSequence(db, kept, survived);
    CrashReopens(db, kept, survived, cuts, files, w, newLog, h, last);
    SameInv(AfterRecover(db, kept, survived, files, w, newLog),
            Reopened(h, db.horizon, w, last, SurvivingLogs(db, kept, survived)[newLog := []], newLog,
                     db.tables + set f | f in files :: f.number));
  }

  lemma SurvivingNumber(db: DB, newLog: nat, n: nat)
    requires Split(db) && LogsOk(db) && (n in db.logs || n == newLog)
    requires forall m | m in db.logs && m >= db.logNumber :: m < newLog
    ensures n <= newLog
  {
    assert db.logNumber <= db.logfileNumber < newLog;
  }

  lemma RecoveredNumbers(db: DB, files: Level, w: Version, newLog: nat)
    requires FilesOk(db) && Edited(db.version, {}, Placing(0, files), w)
    requires newLog >= db.manifestNextFile && forall f | f in files :: f.number < newLog
    ensures forall n | n in VersionNumbers(w) :: n < newLog && n in db.tables + set f | f in files :: f.number
  {
    VersionNumbersOf(db.version, {}, Placing(0, files), w);
    forall n | n in VersionNumbers(w)
      ensures n < newLog && n in db.tables + set f | f in files :: f.number
    {
      if n !in VersionNumbers(db.version) {
        var p :| p in Placing(0, files) && p.1.number == n;
      } else {
        assert n in LiveTables(db);
      }
    }
  }

  // ---------------------------------------------------------------- runs

  lemma SyncKeepsInv(db: DB)
    requires Inv(db)
    ensures Inv(AfterSync(db))
  {
    assert LiveTables(AfterSync(db)) == LiveTables(db);
    assert forall view | view in db.views :: ViewOk(AfterSync(db), view);
  }

  lemma WriteStepKeepsInv(db: DB, step: Step)
    requires Inv(db) && Enabled(db, step) && (step.Write? || step.WriteFailed? || step.SyncLog?)
    ensures Inv(Apply(db, step))
  {
    if step.Write? {
      WriteKeepsInv(db, step.ops);
    } else if step.SyncLog? {
      SyncKeepsInv(db);
    } else {
      WriteFailedKeepsInv(db, step.count);
    }
  }

  lemma SnapshotStepKeepsInv(db: DB, step: Step)
    requires Inv(db) && Enabled(db, step) && (step.TakeSnapshot? || step.ReleaseSnapshot?)
    ensures Inv(Apply(db, step))
  {
    if step.TakeSnapshot? {
      SnapshotKeepsInv(db);
    } else {
      ReleaseKeepsInv(db, step.index);
    }
  }

  lemma ViewStepKeepsInv(db: DB, step: Step)
    requires Inv(db) && Enabled(db, step) && (step.OpenView? || step.CloseView?)
    ensures Inv(Apply(db, step))
  {
    if step.OpenView? {
      OpenViewKeepsInv(db, step.sequence);
    } else {
      CloseViewKeepsInv(db, step.index);
    }
  }

  lemma FlushStepKeepsInv(db: DB, step: Step)
    requires Inv(db) && Enabled(db, step)
    requires step.SwitchMemTable? || step.FlushEmpty? || step.Flush? || step.DeleteObsoleteFiles? || step.CrashAndRecover?
    ensures Inv(Apply(db, step))
  {
    match step {
      case SwitchMemTable(newLog) => SwitchKeepsInv(db, newLog);
      case FlushEmpty => FlushEmptyKeepsInv(db);
      case Flush(level, f, w) => FlushKeepsInv(db, level, f, w);
      case DeleteObsoleteFiles => CollectKeepsInv(db);
      case CrashAndRecover(kept, survived, cuts, files, w, newLog) =>
        CrashKeepsInv(db, kept, survived, cuts, files, w, newLog);
    }
  }

  lemma CompactionStepKeepsInv(db: DB, step: Step)
    requires Inv(db) && Enabled(db, step) && Harmless(db, step)
    requires step.BeginCompaction? || step.OpenOutput? || step.Install? || step.AbortCompaction? || step.TrivialMove?
    ensures Inv(Apply(db, step))
  {
    match step {
      case BeginCompaction(level, in0, in1) => BeginKeepsInv(db, level, in0, in1);
      case OpenOutput(number) => OpenOutputKeepsInv(db, number);
      case Install(input, outs, w) => InstallKeepsInv(db, input, outs, w);
      case AbortCompaction => AbortKeepsInv(db);
      case TrivialMove(level, f, w) => MoveKeepsInv(db, level, f, w);
    }
  }

  lemma StepKeepsInv(db: DB, step: Step)
    requires Inv(db) && Enabled(db, step) && Harmless(db, step)
    ensures Inv(Apply(db, step))
  {
    if step.Write? || step.WriteFailed? || step.SyncLog? {
      WriteStepKeepsInv(db, step);
    } else if step.TakeSnapshot? || step.ReleaseSnapshot? {
      SnapshotStepKeepsInv(db, step);
    } else if step.OpenView? || step.CloseView? {
      ViewStepKeepsInv(db, step);
    } else if step.BeginCompaction? || step.OpenOutput? || step.Install? || step.AbortCompaction? || step.TrivialMove? {
      CompactionStepKeepsInv(db, step);
    } else {
      FlushStepKeepsInv(db, step);
    }
  }

  const NO_FILES: Version := [[], [], [], [], [], [], []]

  /** A store just created: no data, one empty log. */
  function Created(log: nat): DB {
    DB([], 0, 0, 0, 0, [], None, NO_FILES, [], None, [], map[log := []], log, log, 0, log + 1, log + 1, {}, {}, 0, 0)
  }

  lemma NoFilesIsOk()
    ensures VersionEntries(NO_FILES) == {} && VersionNumbers(NO_FILES) == {} && VersionOk(NO_FILES)
  {
  }

  lemma CreatedIsOk(log: nat)
    ensures Inv(Created(log))
  {
    var db := Created(log);
    NoFilesIsOk();
    assert Elems(db.history[..0]) == {};
    assert db.history[..0] == [] && db.history[0..] == [];
    assert ReadsKept(Elems([]), VersionEntries(NO_FILES), 0);
  }

  /** `dbs` are the states of a run that takes `steps`. */
  ghost predicate IsRunOf(dbs: seq<DB>, steps: seq<Step>) {
    && |dbs| == |steps| + 1
    && (exists log :: dbs[0] == Created(log))
    && forall i | 0 <= i < |steps| :: Enabled(dbs[i], steps[i]) && dbs[i + 1] == Apply(dbs[i], steps[i])
  }

  /** None of the first `n` steps installs what the source should not have. */
  ghost predicate HarmlessUpTo(dbs: seq<DB>, steps: seq<Step>, n: nat) {
    n <= |steps| && n <= |dbs| && forall i | 0 <= i < n :: Harmless(dbs[i], steps[i])
  }

  lemma {:induction false} RunKeepsInv(dbs: seq<DB>, steps: seq<Step>, i: nat)
    requires IsRunOf(dbs, steps) && i < |dbs| && HarmlessUpTo(dbs, steps, i)
    ensures Inv(dbs[i])
  {
    if i == 0 {
      var log :| dbs[0] == Created(log);
      CreatedIsOk(log);
    } else {
      RunKeepsInv(dbs, steps, i - 1);
      StepKeepsInv(dbs[i - 1], steps[i - 1]);
    }
  }

  /** As long as no install was harmful, every read at a live snapshot or the latest sequence gives the newest entry. */
  lemma ReadsNewestWhileHarmless(dbs: seq<DB>, steps: seq<Step>, i: nat, k: UserKey, s: SequenceNumber)
    requires IsRunOf(dbs, steps) && i < |dbs| && HarmlessUpTo(dbs, steps, i)
    requires s == dbs[i].lastSequence || s in dbs[i].snapshots
    ensures Read(Stored(dbs[i]), k, s) == Lookup(dbs[i].history, k, s)
  {
    RunKeepsInv(dbs, steps, i);
    StoredReadsHistory(dbs[i], k, s);
  }

  // ---------------------------------------------------------------- guarded picks

  ghost predicate PicksGuarded(dbs: seq<DB>, steps: seq<Step>) {
    |dbs| == |steps| + 1 && forall i | 0 <= i < |steps| :: GuardedPick(dbs[i], steps[i])
  }

  /** The compaction under way was picked with the guards. */
  ghost predicate PendingGuarded(db: DB) {
    db.pending.Some? && db.pending.value.in0 != [] && db.pending.value.level + 1 < NUM_LEVELS ==>
      var p := db.pending.value;
      CoveredBy(p.in0 + p.in1) && NextLevelClosed(p.base, p.level, p.in1)
  }

  lemma StepKeepsGuarded(db: DB, step: Step)
    requires Enabled(db, step) && GuardedPick(db, step) && PendingGuarded(db)
    ensures PendingGuarded(Apply(db, step))
  {
  }

  lemma GuardedIsHarmless(db: DB, step: Step)
    requires Inv(db) && Enabled(db, step) && PendingGuarded(db)
    ensures Harmless(db, step)
  {
    if step.Install? {
      var p := db.pending.value;
      ClosedPickIsSafe(db, p);
      CoveredPickIsSafe(db, p, step.input, step.outs);
    }
  }

  lemma GuardedStep(db: DB, step: Step)
    requires Inv(db) && Enabled(db, step) && GuardedPick(db, step) && PendingGuarded(db)
    ensures Harmless(db, step) && PendingGuarded(Apply(db, step))
  {
    GuardedIsHarmless(db, step);
    StepKeepsGuarded(db, step);
  }

  lemma OneMoreHarmless(dbs: seq<DB>, steps: seq<Step>, n: nat)
    requires 0 < n <= |steps| && n <= |dbs| && HarmlessUpTo(dbs, steps, n - 1) && Harmless(dbs[n - 1], steps[n - 1])
    ensures HarmlessUpTo(dbs, steps, n)
  {
  }

  /** The two guards at the pick are enough: whatever goes on until the install, it does no harm. */
  lemma {:induction false} GuardedRunIsHarmless(dbs: seq<DB>, steps: seq<Step>, n: nat)
    requires IsRunOf(dbs, steps) && PicksGuarded(dbs, steps) && n <= |steps|
    ensures HarmlessUpTo(dbs, steps, n) && PendingGuarded(dbs[n])
  {
    if n == 0 {
      assert dbs[0].pending == None;
    } else {
      GuardedRunIsHarmless(dbs, steps, n - 1);
      RunKeepsInv(dbs, steps, n - 1);
      assert Enabled(dbs[n - 1], steps[n - 1]) && GuardedPick(dbs[n - 1], steps[n - 1]);
      GuardedStep(dbs[n - 1], steps[n - 1]);
      OneMoreHarmless(dbs, steps, n);
    }
  }

  /**
    The claim the store exists for: in every state of every run whose picks were guarded, reading any key at
    a live snapshot or at the latest sequence gives the newest entry in the whole write history.
  */
  lemma EveryReadIsNewest(dbs: seq<DB>, steps: seq<Step>, i: nat, k: UserKey, s: SequenceNumber)
    requires IsRunOf(dbs, steps) && PicksGuarded(dbs, steps) && i < |dbs|
    requires s == dbs[i].lastSequence || s in dbs[i].snapshots
    ensures Read(Stored(dbs[i]), k, s) == Lookup(dbs[i].history, k, s)
  {
    GuardedRunIsHarmless(dbs, steps, i);
    ReadsNewestWhileHarmless(dbs, steps, i, k, s);
  }

  // ---------------------------------------------------------------- views over a run

  ghost predicate NoCrash(steps: seq<Step>, j: nat, i: nat) {
    forall n | j <= n < i && n < |steps| :: !steps[n].CrashAndRecover?
  }

  ghost predicate AllLater(es: seq<Entry>, s: SequenceNumber) {
    forall e | e in es :: e.key.sequence > s
  }

  /** The history of `b` is that of `a` and then entries later than all there was. */
  ghost predicate Grown(a: DB, b: DB) {
    && a.history <= b.history && a.lastSequence <= b.lastSequence
    && AllLater(b.history[|a.history|..], a.lastSequence)
  }

  lemma OthersLeaveHistory(db: DB, step: Step)
    requires Enabled(db, step) && !step.Write? && !step.CrashAndRecover?
    ensures Apply(db, step).history == db.history && db.lastSequence <= Apply(db, step).lastSequence
  {
  }

  lemma WriteExtendsHistory(db: DB, ops: seq<Op>)
    requires CanWrite(db, ops)
    ensures Grown(db, AfterWrite(db, ops))
  {
    StampedIsLater(db.history, ops, db.lastSequence);
    GrownBy(db, AfterWrite(db, ops), Stamp(ops, db.lastSequence + 1));
  }

  lemma GrownBy(a: DB, b: DB, es: seq<Entry>)
    requires b.history == a.history + es && a.lastSequence <= b.lastSequence
    requires AllLater((a.history + es)[|a.history|..], a.lastSequence)
    ensures Grown(a, b)
  {
  }

  lemma StampedIsLater(h: seq<Entry>, ops: seq<Op>, last: SequenceNumber)
    requires last + |ops| < MAX_SEQUENCE
    ensures AllLater((h + Stamp(ops, last + 1))[|h|..], last)
  {
    StampAt(ops, last + 1);
    var es := Stamp(ops, last + 1);
    assert (h + es)[|h|..] == es;
  }

  lemma StepExtendsHistory(db: DB, step: Step)
    requires Enabled(db, step) && !step.CrashAndRecover?
    ensures Grown(db, Apply(db, step))
  {
    if step.Write? {
      WriteExtendsHistory(db, step.ops);
    } else {
      OthersLeaveHistory(db, step);
      assert db.history[|db.history|..] == [];
    }
  }

  lemma GrownOnward(a: DB, b: DB, c: DB)
    requires Grown(a, b) && Grown(b, c)
    ensures Grown(a, c)
  {
    assert c.history[|a.history|..] == b.history[|a.history|..] + c.history[|b.history|..];
  }

  /** Without a crash the history only grows. */
  lemma {:induction false} HistoryGrows(dbs: seq<DB>, steps: seq<Step>, j: nat, i: nat)
    requires IsRunOf(dbs, steps) && j <= i < |dbs| && NoCrash(steps, j, i)
    ensures Grown(dbs[j], dbs[i])
    decreases i
  {
    if j < i {
      HistoryGrows(dbs, steps, j, i - 1);
      assert Enabled(dbs[i - 1], steps[i - 1]) && dbs[i] == Apply(dbs[i - 1], steps[i - 1]);
      StepExtendsHistory(dbs[i - 1], steps[i - 1]);
      GrownOnward(dbs[j], dbs[i - 1], dbs[i]);
    }
  }

  lemma LookupIgnoresLater(h: seq<Entry>, h': seq<Entry>, k: UserKey, s: SequenceNumber)
    requires IsHistory(h') && h <= h' && AllLater(h'[|h|..], s)
    ensures Lookup(h', k, s) == Lookup(h, k, s)
  {
    assert h == h'[..|h|];
    SlicesAreHistories(h', |h|, |h'|);
    LookupIsRead(h, k, s);
    LookupIsRead(h', k, s);
    NewestIgnoresLater(h', |h|, k, s);
  }

  lemma LaterThanView(h: seq<Entry>, n: nat, m: nat, s: SequenceNumber)
    requires n <= m <= |h| && AllLater(h[n..], s)
    ensures AllLater(h[m..], s)
  {
    assert h[n..] == h[n..m] + h[m..];
  }

  /**
    A reader that opened its view in state `j` and still holds it in state `i` reads there what a lookup found
    in state `j`, however many writes, flushes, compactions and collections came between, and however much of
    them its memtable has taken in.
  */
  lemma ViewReadsSame(dbs: seq<DB>, steps: seq<Step>, j: nat, i: nat, view: View, memEnd: nat, k: UserKey)
    requires IsRunOf(dbs, steps) && PicksGuarded(dbs, steps) && j < i < |dbs| && NoCrash(steps, j, i)
    requires steps[j].OpenView? && view == View(dbs[j].version, dbs[j].frozen, dbs[j].flushed, steps[j].sequence)
    requires view in dbs[i].views && |dbs[j].history| <= memEnd <= |dbs[i].history|
    ensures view.immStart <= view.memStart <= memEnd
    ensures Read(Elems(dbs[i].history[view.memStart..memEnd])
                 + (Elems(dbs[i].history[view.immStart..view.memStart]) + VersionEntries(view.version)), k, view.sequence)
         == Lookup(dbs[j].history, k, view.sequence)
  {
    GuardedRunIsHarmless(dbs, steps, i);
    RunKeepsInv(dbs, steps, j);
    RunKeepsInv(dbs, steps, i);
    HistoryGrows(dbs, steps, j, i);
    var h, s := dbs[i].history, view.sequence;
    assert s <= dbs[j].lastSequence;
    LaterThanView(h, |dbs[j].history|, memEnd, s);
    ViewReadsHistory(dbs[i], view, memEnd, k);
    LookupIgnoresLater(dbs[j].history, h, k, s);
  }
}
