/**
  The database object: its methods take the steps of the engine, and its reads and iterators return
  what the write history says (db/db_impl.cc).
*/
module DbImpl {
  import opened Base
  import opened DbFormat
  import opened Reads
  import opened Versions
  import opened Picking
  import opened CompactionPicking
  import opened DropRules
  import opened Edits
  import opened Compacting
  import opened VersionBuilder
  import opened Engine
  import opened EngineSafety
  import opened Recovery
  import opened StoreReads
  import opened Merging
  import DbIter

  // ---------------------------------------------------------------- edits as steps

  ghost function NumbersOf(gone: set<Placed>): set<(nat, nat)> {
    set p | p in gone :: (p.0, p.1.number)
  }

  ghost function PlacedSet(added: seq<Placed>): set<Placed> {
    set p | p in added
  }

  /** With distinct numbers per level, deleting by number is deleting the file. */
  lemma FollowsIsEdited(v: Version, gone: set<Placed>, added: seq<Placed>, w: Version)
    requires forall l | 0 <= l < NUM_LEVELS :: NumbersDistinct(v[l]) && FreshFor(v[l], l, FileEdit(NumbersOf(gone), added))
    requires forall p | p in gone :: p.0 < NUM_LEVELS && p.1 in v[p.0]
    requires Follows(v, FileEdit(NumbersOf(gone), added), w)
    ensures Edited(v, gone, PlacedSet(added), w)
  {
    var edit := FileEdit(NumbersOf(gone), added);
    forall l, f | 0 <= l < NUM_LEVELS
      ensures f in w[l] <==> (f in v[l] && (l, f) !in gone) || (l, f) in PlacedSet(added)
    {
      DeletedMeansGone(v, gone, l, f);
    }
    forall l | 0 <= l < NUM_LEVELS
      ensures NumbersDistinct(w[l])
    {
      EditedNumbersDistinct(v, gone, added, w, l);
    }
  }

  lemma DeletedMeansGone(v: Version, gone: set<Placed>, l: nat, f: FileMeta)
    requires l < NUM_LEVELS && NumbersDistinct(v[l])
    requires forall p | p in gone :: p.0 < NUM_LEVELS && p.1 in v[p.0]
    ensures f in v[l] ==> ((l, f.number) in NumbersOf(gone) <==> (l, f) in gone)
  {
    if f in v[l] && (l, f.number) in NumbersOf(gone) {
      var p :| p in gone && p.0 == l && p.1.number == f.number;
      var i :| 0 <= i < |v[l]| && v[l][i] == f;
      var j :| 0 <= j < |v[l]| && v[l][j] == p.1;
      assert i == j;
    }
    if (l, f) in gone {
      assert (l, f.number) in NumbersOf(gone);
    }
  }

  lemma EditedNumbersDistinct(v: Version, gone: set<Placed>, added: seq<Placed>, w: Version, l: nat)
    requires l < NUM_LEVELS && NumbersDistinct(v[l]) && FreshFor(v[l], l, FileEdit(NumbersOf(gone), added))
    requires Follows(v, FileEdit(NumbersOf(gone), added), w)
    ensures NumbersDistinct(w[l])
  {
    forall i, j | 0 <= i < j < |w[l]|
      ensures w[l][i].number != w[l][j].number
    {
      var f, g := w[l][i], w[l][j];
      assert f in w[l] && g in w[l] && SortsBefore(f, g);
      assert BySmallest(w[l]);
      if f.number == g.number {
        SameNumberSameFile(v[l], l, added, NumbersOf(gone), f, g);
        assert false;
      }
    }
  }

  lemma SameNumberSameFile(files: Level, l: nat, added: seq<Placed>, deleted: set<(nat, nat)>, f: FileMeta, g: FileMeta)
    requires NumbersDistinct(files) && FreshFor(files, l, FileEdit(deleted, added))
    requires f in files || (l, f) in added
    requires g in files || (l, g) in added
    requires f.number == g.number
    ensures f == g
  {
    if f in files && g in files {
      var i :| 0 <= i < |files| && files[i] == f;
      var j :| 0 <= j < |files| && files[j] == g;
      assert i == j;
    } else if (l, f) in added && (l, g) in added {
      var i :| 0 <= i < |added| && added[i] == (l, f);
      var j :| 0 <= j < |added| && added[j] == (l, g);
      assert i == j;
    }
  }

  /** Applies one edit to a version with a builder of its own, as LogAndApply does. */
  method BuildVersion(v: Version, ghost gone: set<Placed>, deleted: set<(nat, nat)>, added: seq<Placed>) returns (w: Version)
    requires forall l | 0 <= l < NUM_LEVELS :: BySmallest(v[l]) && NumbersDistinct(v[l])
    requires forall p | p in gone :: p.0 < NUM_LEVELS && p.1 in v[p.0]
    requires forall p | p in added :: p.0 < NUM_LEVELS
    requires deleted == NumbersOf(gone)
    requires forall l | 0 <= l < NUM_LEVELS :: FreshFor(v[l], l, FileEdit(deleted, added))
    ensures Edited(v, gone, PlacedSet(added), w)
  {
    var edit := FileEdit(deleted, added);
    var b := new Builder(v);
    assert forall l | 0 <= l < NUM_LEVELS :: b.base[l] + b.added[l] == v[l];
    b.Apply(edit);
    w := b.SaveTo();
    assert Follows(v, edit, w);
    FollowsIsEdited(v, gone, added, w);
  }

  /** No two files anywhere in the version share a number. */
  predicate NumbersApart(v: Version) {
    forall l, m, f, g | 0 <= l < m < NUM_LEVELS && f in v[l] && g in v[m] :: f.number != g.number
  }

  lemma EditedKeepsNumbersApart(v: Version, gone: set<Placed>, added: set<Placed>, w: Version)
    requires NumbersApart(v) && Edited(v, gone, added, w)
    requires forall p, l, f | p in added && 0 <= l < NUM_LEVELS && f in v[l] && f.number == p.1.number :: (l, f) in gone
    requires forall p, q | p in added && q in added && p.1.number == q.1.number :: p == q
    ensures NumbersApart(w)
  {
    forall l, m, f, g | 0 <= l < m < NUM_LEVELS && f in w[l] && g in w[m]
      ensures f.number != g.number
    {
      if (l, f) in added && (m, g) in added {
        assert (l, f) != (m, g);
      }
    }
  }

  lemma CurrentIsOrdered(v: Version)
    requires VersionOk(v) && BySmallest(v[0])
    ensures forall l | 0 <= l < NUM_LEVELS :: BySmallest(v[l]) && NumbersDistinct(v[l])
  {
    forall l | 0 <= l < NUM_LEVELS
      ensures BySmallest(v[l]) && NumbersDistinct(v[l])
    {
      LevelFacts(v, l);
      if l > 0 {
        DisjointIsOrdered(v[l]);
      }
    }
  }

  lemma FilesAreNumbered(db: DB, l: nat, f: FileMeta)
    requires FilesOk(db) && l < NUM_LEVELS && f in db.version[l]
    ensures f.number < db.nextFile && f.number !in db.pendingOutputs
  {
    assert f.number in VersionNumbers(db.version);
    assert f.number in LiveTables(db);
  }

  /** The edit's additions are exactly the files, placed at the level. */
  lemma PlacedIsPlacing(level: nat, files: Level)
    ensures PlacedSet(PlacedAt(level, files)) == Placing(level, files)
    ensures forall p | p in PlacedAt(level, files) :: p.0 == level && p.1 in files
  {
    var added := PlacedAt(level, files);
    assert forall i | 0 <= i < |added| :: added[i] == (level, files[i]) && files[i] in files;
    forall p | p in Placing(level, files)
      ensures p in PlacedSet(added)
    {
      var i :| 0 <= i < |files| && files[i] == p.1;
      assert added[i] == p;
    }
  }

  /** Files with numbers the version does not use can be added at one level. */
  lemma NewFilesAreFresh(v: Version, deleted: set<(nat, nat)>, level: nat, files: Level)
    requires level < NUM_LEVELS && NumbersDistinct(files)
    requires forall f, l, g | f in files && 0 <= l < NUM_LEVELS && g in v[l] :: f.number != g.number
    ensures forall l | 0 <= l < NUM_LEVELS :: FreshFor(v[l], l, FileEdit(deleted, PlacedAt(level, files)))
  {
    var added := PlacedAt(level, files);
    PlacedIsPlacing(level, files);
    assert forall i | 0 <= i < |added| :: added[i].1 == files[i];
  }

  lemma OneFilePerNumber(files: Level, f: FileMeta, g: FileMeta)
    requires NumbersDistinct(files) && f in files && g in files && f.number == g.number
    ensures f == g
  {
    var i :| 0 <= i < |files| && files[i] == f;
    var j :| 0 <= j < |files| && files[j] == g;
  }

  lemma NewFilesFit(v: Version, gone: set<Placed>, deleted: set<(nat, nat)>, level: nat, files: Level, w: Version)
    requires NumbersApart(v) && level < NUM_LEVELS && NumbersDistinct(files)
    requires forall f, l, g | f in files && 0 <= l < NUM_LEVELS && g in v[l] :: f.number != g.number
    ensures forall l | 0 <= l < NUM_LEVELS :: FreshFor(v[l], l, FileEdit(deleted, PlacedAt(level, files)))
    ensures PlacedSet(PlacedAt(level, files)) == Placing(level, files)
    ensures Edited(v, gone, Placing(level, files), w) ==> NumbersApart(w)
  {
    hide FreshFor, NumbersDistinct, NumbersApart;
    NewFilesAreFresh(v, deleted, level, files);
    PlacedIsPlacing(level, files);
    forall p, q | p in Placing(level, files) && q in Placing(level, files) && p.1.number == q.1.number
      ensures p == q
    {
      OneFilePerNumber(files, p.1, q.1);
    }
    if Edited(v, gone, Placing(level, files), w) {
      hide Edited;
      EditedKeepsNumbersApart(v, gone, Placing(level, files), w);
    }
  }

  function PlacedAt(level: nat, files: Level): seq<Placed> {
    seq(|files|, i requires 0 <= i < |files| => (level, files[i]))
  }

  lemma MovedFileFits(v: Version, level: nat, f: FileMeta)
    requires NumbersApart(v) && level + 1 < NUM_LEVELS && f in v[level]
    ensures forall l | 0 <= l < NUM_LEVELS :: FreshFor(v[l], l, FileEdit({(level, f.number)}, [(level + 1, f)]))
    ensures NumbersOf({(level, f)}) == {(level, f.number)} && PlacedSet([(level + 1, f)]) == {(level + 1, f)}
  {
  }

  lemma MoveKeepsNumbersApart(v: Version, level: nat, f: FileMeta, w: Version)
    requires NumbersApart(v) && level + 1 < NUM_LEVELS && f in v[level] && NumbersDistinct(v[level])
    requires Edited(v, {(level, f)}, {(level + 1, f)}, w)
    ensures NumbersApart(w)
  {
    forall l, g | 0 <= l < NUM_LEVELS && g in v[l] && g.number == f.number
      ensures (l, g) == (level, f)
    {
    }
    EditedKeepsNumbersApart(v, {(level, f)}, {(level + 1, f)}, w);
  }

  /** What a file just moved would have to be merged with is what its range met two levels down before. */
  lemma MovedFileMeets(v: Version, level: nat, f: FileMeta, w: Version)
    requires level + 2 < NUM_LEVELS && Edited(v, {(level, f)}, {(level + 1, f)}, w)
    requires BySmallest(v[level + 2]) && NumbersDistinct(v[level + 2])
    ensures NextLevelInputs(w, level + 1, [f]) == OverlapFilter(v[level + 2], Some(f.smallest.user), Some(f.largest.user))
  {
    OwnRange(f);
    SameFilesSameList(v[level + 2], w[level + 2]);
  }

  method AddInputDeletions(level: nat, files: Level, deleted: set<(nat, nat)>) returns (r: set<(nat, nat)>)
    ensures r == deleted + set f | f in files :: (level, f.number)
  {
    r := deleted;
    for i := 0 to |files|
      invariant r == deleted + set f | f in files[..i] :: (level, f.number)
    {
      assert files[..i + 1] == files[..i] + [files[i]];
      r := r + {(level, files[i].number)};
    }
    assert files[..|files|] == files;
  }

  lemma TakenNumbers(level: nat, in0: Level, in1: Level)
    ensures NumbersOf(Taken(level, in0, in1))
         == (set f | f in in0 :: (level, f.number)) + set f | f in in1 :: (level + 1, f.number)
  {
    var gone := Taken(level, in0, in1);
    forall f | f in in0
      ensures (level, f.number) in NumbersOf(gone)
    {
      assert (level, f) in gone;
    }
    forall f | f in in1
      ensures (level + 1, f.number) in NumbersOf(gone)
    {
      assert (level + 1, f) in gone;
    }
  }

  /** A finished compaction: every output is a well-formed pending file and together they are the kept input. */
  ghost predicate OutputsReady(db: DB, p: Pending, input: seq<Entry>, outs: Level) {
    && p.level + 1 < NUM_LEVELS
    && Sorted(input) && Elems(input) == InputEntries(p.in0, p.in1)
    && OutputEntries(outs) == Kept(input, |input|, p.smallestSnapshot, p.base, p.level)
    && (forall o | o in outs :: FileOk(o) && o.number in db.pendingOutputs) && Disjoint(outs) && NumbersDistinct(outs)
  }

  lemma InputsStillThere(db: DB, p: Pending)
    requires Inv(db) && db.pending == Some(p) && p.level + 1 < NUM_LEVELS
    ensures (forall f | f in p.in0 :: f in db.version[p.level]) && (forall f | f in p.in1 :: f in db.version[p.level + 1])
  {
    InputsInVersion(p.base, db.version, p.level, p.in0, p.in1);
  }

  lemma NumberedAreDistinct(outs: Level, first: nat, next: nat)
    requires Numbered(outs, None, first, next)
    ensures NumbersDistinct(outs)
    ensures forall o | o in outs :: first <= o.number < first + |outs|
  {
  }

  lemma PendingFits(db: DB)
    requires Inv(db) && db.pending.Some?
    ensures var p := db.pending.value;
            VersionOk(p.base) && ValidPick(p.base, p.level, p.in0, p.in1) && p.level + 1 < NUM_LEVELS
            && p.smallestSnapshot < MAX_SEQUENCE
  {
  }

  lemma NothingFlushedSince(v: Version, level: nat)
    requires level + 1 < NUM_LEVELS
    ensures forall outs :: FlushesApart(v, v, level, outs)
  {
  }

  lemma SurvivorsAreHistory(db: DB, kept: nat, survived: nat)
    requires Inv(db) && CanSurvive(db, kept, survived)
    ensures IsHistory(ReplayFrom(SurvivingLogs(db, kept, survived), db.logNumber, db.nextFile))
    ensures db.logNumber <= db.nextFile && forall n | n in db.logs :: n < db.nextFile
  {
    SurvivingReplay(db, kept, survived);
    SurvivingIsHistory(db.history, db.flushed, db.frozen, kept, survived);
    var h := SurvivingHistory(db.history, db.flushed, db.frozen, kept, survived);
    assert h[db.flushed..|h|] == h[db.flushed..];
    SlicesAreHistories(h, db.flushed, |h|);
  }

  /** A version with more files at one level, all with numbers it does not use. */
  method AddFiles(v: Version, level: nat, files: Level, ghost bound: nat) returns (w: Version)
    requires VersionOk(v) && BySmallest(v[0]) && NumbersApart(v)
    requires level < NUM_LEVELS && NumbersDistinct(files)
    requires (forall n | n in VersionNumbers(v) :: n < bound) && forall f | f in files :: f.number >= bound
    ensures Edited(v, {}, Placing(level, files), w) && NumbersApart(w)
  {
    CurrentIsOrdered(v);
    forall l, g | 0 <= l < NUM_LEVELS && g in v[l]
      ensures g.number < bound
    {
      assert g.number in VersionNumbers(v);
    }
    NewFilesFit(v, {}, {}, level, files, v);
    assert NumbersOf({}) == {};
    w := BuildVersion(v, {}, {}, PlacedAt(level, files));
    NewFilesFit(v, {}, {}, level, files, w);
  }

  predicate AllIn(first: nat, n: nat, numbers: set<nat>) {
    forall m | first <= m < first + n :: m in numbers
  }

  lemma OneMoreIn(first: nat, n: nat, numbers: set<nat>)
    requires n > 0 && first in numbers && AllIn(first + 1, n - 1, numbers)
    ensures AllIn(first, n, numbers)
  {
  }

  /** A manual compaction request for part of one level's key range. */
  datatype Manual = Manual(level: nat, begin: Option<InternalKey>, end: Option<InternalKey>)

  // ---------------------------------------------------------------- the object

  class DBImpl {
    const versions: VersionSet
    var mem: seq<Entry>
    var imm: Option<seq<Entry>>
    var lastSequence: SequenceNumber
    var snapshots: seq<SequenceNumber>
    var views: seq<View>
    var logs: map<nat, seq<Entry>>
    var logfileNumber: nat
    var logNumber: nat
    var manifestSequence: SequenceNumber
    var nextFile: nat
    var manifestNextFile: nat
    var tables: set<nat>
    var pendingOutputs: set<nat>
    ghost var synced: nat
    ghost var syncedOlder: nat
    ghost var pending: Option<Pending>
    ghost var history: seq<Entry>
    ghost var flushed: nat
    ghost var frozen: nat
    ghost var horizon: SequenceNumber

    ghost function State(): DB
      reads this, versions
    {
      DB(history, flushed, frozen, horizon, lastSequence, mem, imm, versions.current, snapshots, pending, views,
         logs, logfileNumber, logNumber, manifestSequence, nextFile, manifestNextFile, tables, pendingOutputs, synced, syncedOlder)
    }

    ghost predicate Valid()
      reads this, versions
    {
      versions.Valid() && Inv(State()) && BySmallest(versions.current[0]) && NumbersApart(versions.current)
    }

    constructor (maxFileSize: nat, log: nat)
      ensures Valid() && fresh(versions) && State() == Created(log)
    {
      CreatedIsOk(log);
      versions := new VersionSet(maxFileSize, NO_FILES);
      mem, imm, lastSequence, snapshots, views := [], None, 0, [], [];
      logs, logfileNumber, logNumber, manifestSequence := map[log := []], log, log, 0;
      nextFile, manifestNextFile := log + 1, log + 1;
      tables, pendingOutputs := {}, {};
      pending, history, flushed, frozen, horizon := None, [], 0, 0, 0;
      synced, syncedOlder := 0, 0;
    }

    // -------------------------------------------------------------- recovery

    /** What is left of the logs: a prefix of the older one that still counts, if any, and of the current one. */
    method TruncatedLogs(kept: nat, survived: nat) returns (surviving: map<nat, seq<Entry>>)
      requires CanSurvive(State(), kept, survived)
      ensures surviving == SurvivingLogs(State(), kept, survived)
    {
      surviving := logs;
      if logNumber != logfileNumber {
        surviving := surviving[logNumber := logs[logNumber][..kept]];
      }
      surviving := surviving[logfileNumber := logs[logfileNumber][..survived]];
    }

    /** Replays what survived of the logs named by the manifest into level-0 tables. */
    method ReplaySurvivors(surviving: map<nat, seq<Entry>>, full: seq<Entry> -> bool, fileSize: seq<Entry> -> nat)
      returns (files: Level, newLog: nat, last: SequenceNumber, ghost cuts: seq<nat>)
      requires logNumber <= nextFile && IsHistory(ReplayFrom(surviving, logNumber, nextFile))
      requires forall n | n in surviving :: n < nextFile
      ensures RecoveredFiles(files, ReplayFrom(surviving, logNumber, nextFile), cuts, manifestNextFile)
      ensures newLog >= manifestNextFile && forall f | f in files :: f.number < newLog
      ensures forall n | n in surviving && n >= logNumber :: n < newLog
      ensures last == MaxSequence(ReplayFrom(surviving, logNumber, nextFile), manifestSequence)
    {
      var first := if manifestNextFile <= logNumber then logNumber + 1 else manifestNextFile;
      var maxSequence;
      files, newLog, maxSequence, cuts := RecoverLogs(surviving, logNumber, nextFile, first, full, fileSize);
      MaxFromFloor(ReplayFrom(surviving, logNumber, nextFile), manifestSequence);
      last := if manifestSequence < maxSequence then maxSequence else manifestSequence;
    }

    /**
      Reopens the store after a crash that left only `kept` entries of the older log and `survived` entries of the
      current one: what the manifest records is kept, the surviving logs become level-0 tables, and a new log starts.
    */
    method Recover(kept: nat, survived: nat, full: seq<Entry> -> bool, fileSize: seq<Entry> -> nat)
      returns (ghost cuts: seq<nat>, files: Level, w: Version, newLog: nat)
      requires Valid() && CanSurvive(State(), kept, survived)
      modifies this, versions
      ensures CanRecover(old(State()), kept, survived, cuts, files, w, newLog)
      ensures State() == AfterRecover(old(State()), kept, survived, files, w, newLog)
      ensures Valid()
    {
      ghost var db := State();
      var last;
      var surviving := TruncatedLogs(kept, survived);
      cuts, files, w, newLog, last := PlanRecovery(surviving, kept, survived, full, fileSize);
      CrashKeepsInv(db, kept, survived, cuts, files, w, newLog);
      RecoveredState(db, kept, survived, files, w, newLog, last);
      ghost var h := SurvivingHistory(history, flushed, frozen, kept, survived);
      Reset(h, w, last, surviving[newLog := []], newLog, tables + set f | f in files :: f.number);
      assert State() == AfterRecover(db, kept, survived, files, w, newLog);
    }

    /** The recovered tables, the version with them, and the next numbers. */
    method PlanRecovery(surviving: map<nat, seq<Entry>>, ghost kept: nat, ghost survived: nat,
                        full: seq<Entry> -> bool, fileSize: seq<Entry> -> nat)
      returns (ghost cuts: seq<nat>, files: Level, w: Version, newLog: nat, last: SequenceNumber)
      requires Valid() && CanSurvive(State(), kept, survived) && surviving == SurvivingLogs(State(), kept, survived)
      ensures CanRecover(State(), kept, survived, cuts, files, w, newLog) && BySmallest(w[0]) && NumbersApart(w)
      ensures last == MaxSequence(ReplayFrom(surviving, logNumber, nextFile), manifestSequence)
    {
      SurvivorsAreHistory(State(), kept, survived);
      files, newLog, last, cuts := ReplaySurvivors(surviving, full, fileSize);
      forall n | n in logs && n >= logNumber
        ensures n < newLog
      {
        assert n in surviving;
      }
      w := AddFiles(versions.current, 0, files, manifestNextFile);
    }

    /** A store that has only tables and an empty log. */
    method Reset(ghost h: seq<Entry>, w: Version, last: SequenceNumber, remaining: map<nat, seq<Entry>>, newLog: nat, found: set<nat>)
      requires versions.Valid() && VersionOk(w)
      modifies this, versions
      ensures versions.Valid() && versions.current == w && horizon == old(horizon)
      ensures history == h && flushed == frozen == |h| && lastSequence == manifestSequence == last
      ensures mem == [] && imm == None && snapshots == [] && views == [] && pending == None
      ensures logs == remaining && logfileNumber == logNumber == newLog && nextFile == manifestNextFile == newLog + 1
      ensures tables == found && pendingOutputs == {} && synced == syncedOlder == 0
    {
      Install(w);
      StartHistory(h, last);
      ForgetMemory();
      StartLog(remaining, newLog, found);
    }

    method StartHistory(ghost h: seq<Entry>, last: SequenceNumber)
      modifies `history, `flushed, `frozen, `lastSequence, `manifestSequence
      ensures history == h && flushed == frozen == |h| && lastSequence == manifestSequence == last
    {
      history, flushed, frozen := h, |h|, |h|;
      lastSequence, manifestSequence := last, last;
    }

    method ForgetMemory()
      modifies `mem, `imm, `snapshots, `views, `pending
      ensures mem == [] && imm == None && snapshots == [] && views == [] && pending == None
    {
      mem, imm, snapshots, views, pending := [], None, [], [], None;
    }

    method StartLog(remaining: map<nat, seq<Entry>>, newLog: nat, found: set<nat>)
      modifies `logs, `logfileNumber, `logNumber, `nextFile, `manifestNextFile, `tables, `pendingOutputs, `synced, `syncedOlder
      ensures logs == remaining && logfileNumber == logNumber == newLog && nextFile == manifestNextFile == newLog + 1
      ensures tables == found && pendingOutputs == {} && synced == syncedOlder == 0
    {
      logs, logfileNumber, logNumber := remaining, newLog, newLog;
      nextFile, manifestNextFile, tables, pendingOutputs := newLog + 1, newLog + 1, found, {};
      synced, syncedOlder := 0, 0;
    }

    // -------------------------------------------------------------- reads

    /** The newest value of the key at the snapshot, or at the latest sequence, in the whole write history. */
    method Get(k: UserKey, snapshot: Option<SequenceNumber>) returns (r: Option<Bytes>)
      requires Valid() && (snapshot.Some? ==> snapshot.value in snapshots)
      ensures r == Lookup(history, k, if snapshot.Some? then snapshot.value else lastSequence)
    {
      var s := if snapshot.Some? then snapshot.value else lastSequence;
      SearchOrderIsNewest(State(), k, s);
      var hit := MemTableGet(mem, k, s);
      if hit.Some? {
        return Meaning(hit);
      }
      if imm.Some? {
        hit := MemTableGet(imm.value, k, s);
        if hit.Some? {
          return Meaning(hit);
        }
      }
      r := Versions.Get(versions.current, k, s);
    }

    /** An iterator showing exactly the keys a Get at the same sequence would find. */
    method NewIterator(snapshot: Option<SequenceNumber>) returns (it: DbIter.DBIter)
      requires Valid() && (snapshot.Some? ==> snapshot.value in snapshots)
      ensures fresh(it) && it.Inv() && !it.View().Valid()
      ensures forall k, value :: (k, value) in it.View().list <==>
                Lookup(history, k, if snapshot.Some? then snapshot.value else lastSequence) == Some(value)
    {
      var s := if snapshot.Some? then snapshot.value else lastSequence;
      var lists := StoreLists(mem, imm, versions.current);
      StoreListsOk(State());
      it := new DbIter.DBIter(MergeAll(lists), s);
      forall k, value
        ensures (k, value) in it.View().list <==> Lookup(history, k, s) == Some(value)
      {
        IterationIsLookup(State(), s, k, value);
      }
    }

    // -------------------------------------------------------------- writes and snapshots

    /** Logs the batch, then inserts it into the memtable. */
    method LogAndInsert(es: seq<Entry>, last: SequenceNumber)
      requires logfileNumber in logs
      modifies this`history, this`logs, this`mem, this`lastSequence
      ensures State() == old(State()).(history := old(history) + es, lastSequence := last, mem := InsertAll(old(mem), es),
                                       logs := old(logs)[logfileNumber := old(logs)[logfileNumber] + es])
    {
      hide InsertAll;
      history := history + es;
      logs := logs[logfileNumber := logs[logfileNumber] + es];
      mem := InsertAll(mem, es);
      lastSequence := last;
    }

    /**
      Writes a batch, syncing the log if asked to, unless the log fails: then the numbers are used up and nothing
      else changes.
    */
    method Write(ops: seq<Op>, sync: bool, logOk: bool) returns (ok: bool)
      requires Valid() && CanWrite(State(), ops)
      modifies this
      ensures ok == logOk
      ensures State() == if !ok then AfterWriteFailed(old(State()), |ops|)
                         else if sync then AfterSync(AfterWrite(old(State()), ops))
                         else AfterWrite(old(State()), ops)
      ensures Valid()
    {
      hide Inv, Stamp, InsertAll, VersionSet.HintsOk, VersionOk;
      if logOk {
        WriteKeepsInv(State(), ops);
        LogAndInsert(Stamp(ops, lastSequence + 1), lastSequence + |ops|);
        if sync {
          SyncKeepsInv(State());
          synced := |logs[logfileNumber]|;
        }
      } else {
        WriteFailedKeepsInv(State(), |ops|);
        lastSequence := lastSequence + |ops|;
      }
      ok := logOk;
    }

    method SwitchMemTable()
      requires Valid() && imm == None
      modifies this
      ensures State() == AfterSwitch(old(State()), old(nextFile))
      ensures Valid()
    {
      hide Inv, VersionSet.HintsOk, VersionOk, NumbersApart, BySmallest;
      SwitchKeepsInv(State(), nextFile);
      logfileNumber, nextFile := nextFile, nextFile + 1;
      logs := logs[logfileNumber := []];
      imm, mem := Some(mem), [];
      frozen, syncedOlder, synced := |history|, synced, 0;
      assert State() == AfterSwitch(old(State()), old(nextFile));
    }

    method GetSnapshot() returns (s: SequenceNumber)
      requires Valid()
      modifies this`snapshots
      ensures State() == Apply(old(State()), TakeSnapshot) && s == lastSequence
      ensures Valid()
    {
      SnapshotKeepsInv(State());
      s := lastSequence;
      snapshots := snapshots + [s];
    }

    method ReleaseSnapshot(i: nat)
      requires Valid() && i < |snapshots|
      modifies this`snapshots
      ensures State() == Apply(old(State()), Step.ReleaseSnapshot(i))
      ensures Valid()
    {
      ReleaseKeepsInv(State(), i);
      snapshots := snapshots[..i] + snapshots[i + 1..];
    }

    // -------------------------------------------------------------- garbage collection

    static method AddLiveFiles(v: Version, live: set<nat>) returns (r: set<nat>)
      ensures r == live + VersionNumbers(v)
    {
      r := live;
      for l := 0 to NUM_LEVELS
        invariant r == live + set m, f | 0 <= m < l && f in v[m] :: f.number
      {
        for i := 0 to |v[l]|
          invariant r == live + (set m, f | 0 <= m < l && f in v[m] :: f.number) + set f | f in v[l][..i] :: f.number
        {
          assert v[l][..i + 1] == v[l][..i] + [v[l][i]];
          r := r + {v[l][i].number};
        }
        assert v[l][..|v[l]|] == v[l];
      }
    }

    /** Deletes every log below the manifest's log number and every table nobody can still need. */
    method DeleteObsoleteFiles()
      modifies this`logs, this`tables
      ensures State() == AfterCollect(old(State()))
      ensures old(Valid()) ==> Valid()
    {
      if Valid() {
        CollectKeepsInv(State());
      }
      var live := AddLiveFiles(versions.current, pendingOutputs);
      for i := 0 to |views|
        invariant live == pendingOutputs + VersionNumbers(versions.current)
                          + set j, n | 0 <= j < i && n in VersionNumbers(views[j].version) :: n
        invariant logs == old(logs) && tables == old(tables)
      {
        live := AddLiveFiles(views[i].version, live);
      }
      assert live == LiveTables(State());
      logs := LogsFrom(logs, logNumber);
      tables := tables * live;
      assert State() == AfterCollect(old(State()));
    }

    // -------------------------------------------------------------- background work

    /** Turns the immutable memtable into a table at the level picked for it, or just drops it when empty. */
    method WriteLevel0Table(fileSize: seq<Entry> -> nat) returns (ghost step: Step)
      requires Valid() && imm.Some?
      modifies this, versions
      ensures Enabled(old(State()), step) && (step.FlushEmpty? || (step.Flush? && step.file.number == old(nextFile)))
      ensures step.Flush? ==> IsFlushLevel(old(versions.current), step.level, step.file.smallest.user, step.file.largest.user,
                                           versions.maxFileSize)
      ensures State() == Apply(old(State()), step)
      ensures Valid()
    {
      hide Inv, CanFlush, VersionOk, VersionSet.HintsOk, IsFlushLevel, NumbersApart, BySmallest;
      if imm.value == [] {
        step := FlushEmpty;
        DropEmptyMemTable();
      } else {
        var level, f, w := FlushTable(fileSize);
        step := Flush(level, f, w);
      }
    }

    method FlushTable(fileSize: seq<Entry> -> nat) returns (level: nat, f: FileMeta, w: Version)
      requires Valid() && imm.Some? && imm.value != []
      modifies this, versions
      ensures CanFlush(old(State()), level, f, w) && f.number == old(nextFile)
      ensures IsFlushLevel(old(versions.current), level, f.smallest.user, f.largest.user, versions.maxFileSize)
      ensures State() == AfterFlush(old(State()), f, w)
      ensures Valid()
    {
      hide Inv, CanFlush, VersionOk, VersionSet.HintsOk, IsFlushLevel, NumbersApart, BySmallest;
      level, f, w := PlanFlush(fileSize);
      FlushKeepsInv(State(), level, f, w);
      InstallFlush(f, w);
    }

    /** The table of the immutable memtable, its level and the version with it. */
    method PlanFlush(fileSize: seq<Entry> -> nat) returns (level: nat, f: FileMeta, w: Version)
      requires Valid() && imm.Some? && imm.value != []
      ensures CanFlush(State(), level, f, w) && f.number == nextFile && BySmallest(w[0]) && NumbersApart(w)
      ensures IsFlushLevel(versions.current, level, f.smallest.user, f.largest.user, versions.maxFileSize)
    {
      f := BuildTable(imm.value, nextFile, fileSize);
      level := PickLevelForMemTableOutput(versions.current, f.smallest.user, f.largest.user, versions.maxFileSize);
      w := AddOneFile(level, f);
    }

    method DropEmptyMemTable()
      requires Valid() && imm == Some([])
      modifies this
      ensures State() == AfterFlushEmpty(old(State()))
      ensures Valid()
    {
      hide Inv, VersionSet.HintsOk, VersionOk, NumbersApart, BySmallest;
      FlushEmptyKeepsInv(State());
      imm, logNumber, manifestSequence, manifestNextFile := None, logfileNumber, lastSequence, nextFile;
      flushed, syncedOlder := frozen, 0;
      assert State() == AfterFlushEmpty(old(State()));
    }

    /** Makes `w` the current version. */
    method Install(w: Version)
      requires versions.HintsOk()
      modifies versions
      ensures versions.HintsOk() && versions.current == w
    {
      versions.AppendVersion(w);
    }

    method InstallFlush(f: FileMeta, w: Version)
      requires versions.Valid() && Inv(AfterFlush(State(), f, w)) && BySmallest(w[0]) && NumbersApart(w)
      modifies this, versions
      ensures State() == AfterFlush(old(State()), f, w)
      ensures Valid()
    {
      Install(w);
      RetireMemTable();
      RecordTable(f.number);
      assert State() == AfterFlush(old(State()), f, w);
    }

    method RetireMemTable()
      modifies `imm, `logNumber, `manifestSequence, `flushed, `syncedOlder
      ensures imm == None && logNumber == logfileNumber && manifestSequence == lastSequence && flushed == frozen
      ensures syncedOlder == 0
    {
      imm, logNumber, manifestSequence := None, logfileNumber, lastSequence;
      flushed, syncedOlder := frozen, 0;
    }

    method RecordTable(number: nat)
      modifies `nextFile, `manifestNextFile, `tables
      ensures nextFile == manifestNextFile == number + 1 && tables == old(tables) + {number}
    {
      nextFile, manifestNextFile, tables := number + 1, number + 1, tables + {number};
    }

    method AddOneFile(level: nat, f: FileMeta) returns (w: Version)
      requires Valid() && level < NUM_LEVELS && f.number >= nextFile
      ensures Edited(versions.current, {}, {(level, f)}, w) && NumbersApart(w)
    {
      forall n | n in VersionNumbers(versions.current)
        ensures n < nextFile
      {
        assert n in LiveTables(State());
      }
      w := AddFiles(versions.current, level, [f], nextFile);
      assert Placing(level, [f]) == {(level, f)} by { assert f in [f]; }
    }

    /** Flushes the immutable memtable and removes the files this makes obsolete. */
    method CompactMemTable(fileSize: seq<Entry> -> nat) returns (ghost step: Step)
      requires Valid() && imm.Some?
      modifies this, versions
      ensures Enabled(old(State()), step) && (step.FlushEmpty? || step.Flush?)
      ensures State() == AfterCollect(Apply(old(State()), step))
      ensures Valid() && imm == None
    {
      step := WriteLevel0Table(fileSize);
      DeleteObsoleteFiles();
    }

    /** Moves a compaction's only input file one level down without rewriting it. */
    method MoveFile(level: nat, f: FileMeta) returns (w: Version)
      requires Valid() && pending == None && imm == None && ValidPick(versions.current, level, [f], [])
      modifies this`manifestSequence, this`manifestNextFile, versions
      ensures State() == AfterMove(old(State()), w)
      ensures CanMove(old(State()), level, f, w)
      ensures versions.current == w && (level + 2 < NUM_LEVELS && CheapToMergeLater(old(versions.current), level, f, versions.maxFileSize)
                ==> TotalSize(NextLevelInputs(w, level + 1, [f])) <= 10 * versions.maxFileSize)
      ensures Valid()
    {
      w := BuildMoved(level, f);
      CurrentIsOrdered(versions.current);
      if level + 2 < NUM_LEVELS {
        MovedFileMeets(versions.current, level, f, w);
      }
      MoveKeepsInv(State(), level, f, w);
      InstallMove(w);
    }

    method BuildMoved(level: nat, f: FileMeta) returns (w: Version)
      requires Valid() && pending == None && imm == None && ValidPick(versions.current, level, [f], [])
      ensures CanMove(State(), level, f, w) && NumbersApart(w) && BySmallest(w[0])
    {
      assert f in [f] && f in versions.current[level];
      var v := versions.current;
      CurrentIsOrdered(v);
      MovedFileFits(v, level, f);
      w := BuildVersion(v, {(level, f)}, {(level, f.number)}, [(level + 1, f)]);
      MoveKeepsNumbersApart(v, level, f, w);
    }

    method InstallMove(w: Version)
      requires versions.Valid() && Inv(AfterMove(State(), w))
      requires BySmallest(w[0]) && NumbersApart(w)
      modifies this`manifestSequence, this`manifestNextFile, versions
      ensures State() == AfterMove(old(State()), w)
      ensures Valid()
    {
      Install(w);
      manifestSequence, manifestNextFile := lastSequence, nextFile;
    }

    method BeginCompaction(c: Compaction) returns (smallestSnapshot: SequenceNumber)
      requires Valid() && pending == None && imm == None
      requires c.inputVersion == versions.current && ValidPick(versions.current, c.level, c.inputs0, c.inputs1)
      modifies this`pending, this`pendingOutputs
      ensures State() == AfterBegin(old(State()), c.level, c.inputs0, c.inputs1)
      ensures pending == Some(Pending(c.level, c.inputVersion, c.inputs0, c.inputs1, smallestSnapshot))
      ensures Valid()
    {
      BeginKeepsInv(State(), c.level, c.inputs0, c.inputs1);
      smallestSnapshot := if snapshots == [] then lastSequence else snapshots[0];
      pending := Some(Pending(c.level, c.inputVersion, c.inputs0, c.inputs1, smallestSnapshot));
      pendingOutputs := {};
    }

    method OpenCompactionOutputFile() returns (number: nat)
      requires Valid() && pending.Some?
      modifies this`pendingOutputs, this`tables, this`nextFile
      ensures number == old(nextFile) && State() == AfterOpenOutput(old(State()), number)
      ensures nextFile == number + 1 && pendingOutputs == old(pendingOutputs) + {number}
      ensures Valid()
    {
      OpenOutputKeepsInv(State(), nextFile);
      number := nextFile;
      nextFile := nextFile + 1;
      pendingOutputs, tables := pendingOutputs + {number}, tables + {number};
    }

    /** The version the compaction's edit makes: inputs deleted, outputs added one level down. */
    method BuildInstalled(level: nat, in0: Level, in1: Level, outs: Level) returns (w: Version)
      requires Valid() && level + 1 < NUM_LEVELS && NumbersDistinct(outs)
      requires forall o | o in outs :: o.number in pendingOutputs
      requires (forall f | f in in0 :: f in versions.current[level]) && (forall f | f in in1 :: f in versions.current[level + 1])
      ensures Edited(versions.current, Taken(level, in0, in1), Placing(level + 1, outs), w) && NumbersApart(w)
    {
      var v := versions.current;
      ghost var gone := Taken(level, in0, in1);
      CurrentIsOrdered(v);
      forall o, l, g | o in outs && 0 <= l < NUM_LEVELS && g in v[l]
        ensures o.number != g.number
      {
        FilesAreNumbered(State(), l, g);
      }
      var deleted := AddInputDeletions(level, in0, {});
      deleted := AddInputDeletions(level + 1, in1, deleted);
      TakenNumbers(level, in0, in1);
      NewFilesFit(v, gone, deleted, level + 1, outs, v);
      w := BuildVersion(v, gone, deleted, PlacedAt(level + 1, outs));
      NewFilesFit(v, gone, deleted, level + 1, outs, w);
    }

    /**
      Installs as the source does, with no check.  The target level stays in order exactly when what was
      flushed meanwhile is apart from the outputs; the entries of the version give the same reads exactly
      when no dropped deletion resurrects an older value.  With both, everything the store promises is kept.
    */
    method InstallCompactionResults(ghost p: Pending, level: nat, in0: Level, in1: Level, ghost input: seq<Entry>, outs: Level)
      returns (w: Version)
      requires Valid() && pending == Some(p) && level == p.level && in0 == p.in0 && in1 == p.in1
      requires OutputsReady(State(), p, input, outs)
      modifies this, versions
      ensures State() == AfterInstall(old(State()), w)
      ensures versions.Valid() <==> FlushesApart(p.base, old(versions.current), level, outs)
      ensures ReadsKept(VersionEntries(old(versions.current)), VersionEntries(w), p.smallestSnapshot)
         <==> NothingResurrects(old(versions.current), p)
      ensures FlushesApart(p.base, old(versions.current), level, outs) && NothingResurrects(old(versions.current), p) ==> Valid()
    {
      hide Inv, ReadsKept, NothingResurrects, VersionEntries, FlushesApart, VersionOk, ValidPick, Kept, Sorted, VersionSet.HintsOk;
      InputsStillThere(State(), p);
      w := BuildInstalled(level, in0, in1, outs);
      InstallOutcome(State(), p, input, outs, w);
      InstallKeepsReadsIff(State(), p, input, outs, w);
      if FlushesApart(p.base, versions.current, level, outs) && NothingResurrects(versions.current, p) {
        InstallKeepsInv(State(), input, outs, w);
      }
      SwitchTo(w);
    }

    method SwitchTo(w: Version)
      requires versions.HintsOk() && BySmallest(w[0]) && NumbersApart(w) && pending.Some?
      modifies this, versions
      ensures State() == AfterInstall(old(State()), w)
      ensures versions.HintsOk() && versions.current == w
      ensures VersionOk(w) && old(Inv(AfterInstall(State(), w))) ==> Valid()
    {
      Install(w);
      horizon := pending.value.smallestSnapshot;
      pending, pendingOutputs, manifestSequence, manifestNextFile := None, {}, lastSequence, nextFile;
    }

    /** Opens the next `n` output files. */
    method OpenOutputs(n: nat)
      requires Valid() && pending.Some?
      modifies this`pendingOutputs, this`tables, this`nextFile
      ensures old(pendingOutputs) <= pendingOutputs
      ensures AllIn(old(nextFile), n, pendingOutputs)
      ensures Valid()
    {
      if n > 0 {
        var number := OpenCompactionOutputFile();
        OpenOutputs(n - 1);
        OneMoreIn(number, n, pendingOutputs);
      }
    }

    /** Runs the loop over the merged inputs; everything but the compaction's own cursors stays as it is. */
    method WriteOutputs(c: Compaction, ghost p: Pending, smallestSnapshot: SequenceNumber, sizes: TableSizes)
      returns (ghost input: seq<Entry>, outs: Level)
      requires Valid() && pending == Some(p) && p == Pending(c.level, c.inputVersion, c.inputs0, c.inputs1, smallestSnapshot)
      requires c.inputVersion == versions.current && c.Unstarted()
      modifies c, this`pendingOutputs, this`tables, this`nextFile
      ensures Valid() && OutputsReady(State(), p, input, outs)
      ensures p.level + 1 < NUM_LEVELS && FlushesApart(p.base, versions.current, p.level, outs)
    {
      hide NotFullYet, CutBySize, Kept, Sorted, UniqueSeqs, Inv, VersionOk, ValidPick, VersionSet.HintsOk;
      PendingFits(State());
      NothingFlushedSince(versions.current, c.level);
      var merged := CompactionInput(c.level, c.inputs0, c.inputs1);
      input := merged;
      var next;
      outs, next := DoCompactionWork(c, merged, smallestSnapshot, nextFile, sizes);
      NumberedAreDistinct(outs, nextFile, next);
      OpenOutputs(|outs|);
    }

    /** A whole compaction with nothing going on beside it. */
    method RunCompaction(c: Compaction, sizes: TableSizes) returns (ghost p: Pending)
      requires Valid() && pending == None && imm == None && c.Unstarted()
      requires c.inputVersion == versions.current && ValidPick(versions.current, c.level, c.inputs0, c.inputs1)
      modifies this, versions, c
      ensures p == Pending(c.level, old(versions.current), old(c.inputs0), old(c.inputs1), SmallestSnapshot(old(State())))
      ensures p.base == old(versions.current) && ValidPick(p.base, p.level, p.in0, p.in1)
      ensures history == old(history) && lastSequence == old(lastSequence) && snapshots == old(snapshots)
      ensures versions.Valid() && pending == None && imm == None
      ensures NothingResurrects(old(versions.current), p) ==> Valid()
    {
      hide Inv, VersionOk, ValidPick, NothingResurrects, FlushesApart, OutputsReady, VersionSet.HintsOk, ReadsKept;
      var level, in0, in1 := c.level, c.inputs0, c.inputs1;
      var smallestSnapshot := BeginCompaction(c);
      p := pending.value;
      ghost var input;
      var outs;
      input, outs := WriteOutputs(c, p, smallestSnapshot, sizes);
      var w := InstallCompactionResults(p, level, in0, in1, input, outs);
      DeleteObsoleteFiles();
    }

    method CompactionInput(level: nat, in0: Level, in1: Level) returns (input: seq<Entry>)
      requires VersionOk(versions.current) && ValidPick(versions.current, level, in0, in1)
      ensures Sorted(input) && UniqueSeqs(Elems(input)) && Elems(input) == InputEntries(in0, in1)
    {
      input := MergeAll(InputLists(level, in0, in1));
      InputsMerge(versions.current, level, in0, in1);
      RestAndInputs(versions.current, level, in0, in1);
      InputsAreUnique(versions.current, level, in0, in1);
    }

    /**
      One background step: flush if a memtable waits, otherwise pick and either move the file or compact.
      Nothing clients can see changes, unless an unguarded pick resurrects an older value.
    */
    method BackgroundCompaction(manual: Option<Manual>, sizes: TableSizes) returns (ghost pick: Option<Pending>)
      requires Valid() && pending == None && (manual.Some? ==> manual.value.level + 1 < NUM_LEVELS)
      modifies this, versions
      ensures history == old(history) && lastSequence == old(lastSequence) && snapshots == old(snapshots)
      ensures old(imm).Some? ==> imm == None && Valid()
      ensures pick.Some? ==> pick.value.base == old(versions.current)
                             && ValidPick(pick.value.base, pick.value.level, pick.value.in0, pick.value.in1)
      ensures (pick.Some? ==> NothingResurrects(old(versions.current), pick.value)) ==> Valid()
    {
      pick := None;
      if imm.Some? {
        ghost var step := CompactMemTable(sizes.finished);
      } else {
        pick := CompactTables(manual, sizes);
      }
    }

    method CompactTables(manual: Option<Manual>, sizes: TableSizes) returns (ghost pick: Option<Pending>)
      requires Valid() && pending == None && imm == None && (manual.Some? ==> manual.value.level + 1 < NUM_LEVELS)
      modifies this, versions
      ensures history == old(history) && lastSequence == old(lastSequence) && snapshots == old(snapshots)
      ensures pick.Some? ==> pick.value.base == old(versions.current)
                             && ValidPick(pick.value.base, pick.value.level, pick.value.in0, pick.value.in1)
      ensures (pick.Some? ==> NothingResurrects(old(versions.current), pick.value)) ==> Valid()
    {
      hide ValidPick, NothingResurrects, CheapToMergeLater, Valid, State;
      pick := None;
      var c := Pick(manual);
      if c == null {
        return;
      }
      var trivial := c.IsTrivialMove();
      if manual == None && trivial {
        assert c.inputs0 == [c.inputs0[0]];
        var w := MoveFile(c.level, c.inputs0[0]);
      } else {
        ghost var p := RunCompaction(c, sizes);
        pick := Some(p);
      }
    }

    method Pick(manual: Option<Manual>) returns (c: Compaction?)
      requires Valid() && (manual.Some? ==> manual.value.level + 1 < NUM_LEVELS)
      modifies versions
      ensures State() == old(State()) && versions.current == old(versions.current) && Valid()
      ensures c != null ==> fresh(c) && c.inputVersion == versions.current && c.Unstarted() && c.Prepared()
      ensures c != null ==> ValidPick(versions.current, c.level, c.inputs0, c.inputs1)
    {
      if manual.Some? {
        c := versions.CompactRange(manual.value.level, manual.value.begin, manual.value.end);
      } else {
        c := versions.PickCompaction();
      }
    }
  }
}
