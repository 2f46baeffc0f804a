/**
  The two inputs of UnguardedCompactions are reachable: runs of the store from its creation, every table
  placed where the source places it, that end in an install the source does not refuse.
*/
module UnguardedRuns {
  import opened Base
  import opened DbFormat
  import opened Reads
  import opened Versions
  import opened Picking
  import opened CompactionPicking
  import opened DropRules
  import opened Edits
  import opened Compacting
  import opened Engine
  import opened EngineSafety
  import opened UnguardedCompactions

  /** What CompactRange asks for without bounds: a whole level above the deepest with files, its bytes under the limit. */
  ghost predicate WholeLevel(v: Version, level: nat, in0: Level) {
    && (exists m | level < m < NUM_LEVELS :: v[m] != [])
    && in0 != [] && in0 == v[level] && TotalSize(in0[..|in0| - 1]) < MAX_FILE_SIZE
  }

  /** The outputs are cut by size alone, as always when there are few bytes at the level after the next. */
  ghost predicate CutAsInSource(p: Pending, outs: Level) {
    && (p.level + 2 < NUM_LEVELS ==> TotalSize(p.base[p.level + 2]) <= 10 * MAX_FILE_SIZE)
    && CutBySize(outs, WrittenBytes, MAX_FILE_SIZE)
    && forall o | o in outs :: o.size == TableBytes(o.entries)
  }

  /**
    The steps the source takes when its client writes, takes snapshots and calls CompactRange, from several
    threads and without bounds or for a range nothing meets, which only flushes: every table is flushed to the
    level the placement rule chooses, every compaction takes a whole level and is cut by size.  Nothing crashes
    and no file is moved.
  */
  ghost predicate AsInSource(db: DB, step: Step) {
    match step
    case CrashAndRecover(_, _, _, _, _, _) => false
    case TrivialMove(_, _, _) => false
    case Flush(level, f, _) =>
      && f.size == TableBytes(f.entries)
      && IsFlushLevel(db.version, level, f.smallest.user, f.largest.user, MAX_FILE_SIZE)
    case BeginCompaction(level, in0, _) => WholeLevel(db.version, level, in0)
    case Install(_, outs, _) => db.pending.Some? && CutAsInSource(db.pending.value, outs)
    case _ => true
  }

  ghost predicate IsSourceRun(dbs: seq<DB>, steps: seq<Step>) {
    IsRunOf(dbs, steps) && forall i | 0 <= i < |steps| :: AsInSource(dbs[i], steps[i])
  }

  lemma OneMoreStep(dbs: seq<DB>, steps: seq<Step>, step: Step)
    requires IsSourceRun(dbs, steps) && Enabled(dbs[|steps|], step) && AsInSource(dbs[|steps|], step)
    ensures IsSourceRun(dbs + [Apply(dbs[|steps|], step)], steps + [step])
    ensures HarmlessUpTo(dbs, steps, |steps|) && Harmless(dbs[|steps|], step) ==>
              HarmlessUpTo(dbs + [Apply(dbs[|steps|], step)], steps + [step], |steps| + 1)
    ensures HarmlessUpTo(dbs, steps, |steps|) ==> HarmlessUpTo(dbs + [Apply(dbs[|steps|], step)], steps + [step], |steps|)
  {
    var dbs', steps' := dbs + [Apply(dbs[|steps|], step)], steps + [step];
    forall i | 0 <= i < |steps'|
      ensures Enabled(dbs'[i], steps'[i]) && dbs'[i + 1] == Apply(dbs'[i], steps'[i]) && AsInSource(dbs'[i], steps'[i])
      ensures HarmlessUpTo(dbs, steps, |steps|) && (i < |steps| || Harmless(dbs[|steps|], step)) ==> Harmless(dbs'[i], steps'[i])
    {
      if i < |steps| {
        assert dbs'[i] == dbs[i] && dbs'[i + 1] == dbs[i + 1] && steps'[i] == steps[i];
      }
    }
    assert dbs'[0] == dbs[0];
  }

  // ---------------------------------------------------------------- what a state looks like

  datatype Shape = Shape(
    history: seq<Entry>,
    mem: seq<Entry>,
    version: Version,
    snapshots: seq<SequenceNumber>,
    pending: Option<Pending>,
    outputs: set<nat>,
    next: nat)

  ghost predicate Looks(db: DB, s: Shape) {
    && db.history == s.history && db.lastSequence == |s.history| && db.mem == s.mem && db.imm == None
    && db.version == s.version && db.snapshots == s.snapshots && db.pending == s.pending
    && db.pendingOutputs == s.outputs && db.nextFile == s.next
  }

  ghost predicate WellOrdered(v: Version) {
    forall l | 0 <= l < NUM_LEVELS :: BySmallest(v[l]) && NumbersDistinct(v[l])
  }

  /** A run with nothing harmful in it that ends in such a state. */
  ghost predicate Reaches(dbs: seq<DB>, steps: seq<Step>, s: Shape) {
    && IsSourceRun(dbs, steps) && HarmlessUpTo(dbs, steps, |steps|)
    && Looks(dbs[|steps|], s) && WellOrdered(s.version)
  }

  lemma ReachedIsOk(dbs: seq<DB>, steps: seq<Step>, s: Shape)
    requires Reaches(dbs, steps, s)
    ensures Inv(dbs[|steps|])
  {
    RunKeepsInv(dbs, steps, |steps|);
  }

  lemma ReachesNext(dbs: seq<DB>, steps: seq<Step>, s: Shape, step: Step, s': Shape) returns (dbs': seq<DB>, steps': seq<Step>)
    requires Reaches(dbs, steps, s) && Enabled(dbs[|steps|], step) && AsInSource(dbs[|steps|], step)
    requires Harmless(dbs[|steps|], step) && Looks(Apply(dbs[|steps|], step), s') && WellOrdered(s'.version)
    ensures Reaches(dbs', steps', s')
  {
    OneMoreStep(dbs, steps, step);
    dbs', steps' := dbs + [Apply(dbs[|steps|], step)], steps + [step];
  }

  lemma Start() returns (dbs: seq<DB>, steps: seq<Step>)
    ensures Reaches(dbs, steps, Shape([], [], NO_FILES, [], None, {}, 1))
  {
    dbs, steps := [Created(0)], [];
  }

  function Stamped(op: Op, n: nat): Entry
    requires n < MAX_SEQUENCE
  {
    Entry(InternalKey(op.key, n + 1, op.kind), op.value)
  }

  lemma Writes(dbs: seq<DB>, steps: seq<Step>, s: Shape, op: Op) returns (dbs': seq<DB>, steps': seq<Step>)
    requires Reaches(dbs, steps, s) && |s.history| + 1 < MAX_SEQUENCE
    ensures var e := Stamped(op, |s.history|);
            Reaches(dbs', steps', s.(history := s.history + [e], mem := Insert(s.mem, e)))
  {
    ReachedIsOk(dbs, steps, s);
    var db, e := dbs[|steps|], Stamped(op, |s.history|);
    OneStamped(db, op);
    dbs', steps' := ReachesNext(dbs, steps, s, Write([op]), s.(history := s.history + [e], mem := Insert(s.mem, e)));
  }

  lemma OneStamped(db: DB, op: Op)
    requires CanWrite(db, [op])
    ensures var e := Stamped(op, db.lastSequence);
            AfterWrite(db, [op]).history == db.history + [e] && AfterWrite(db, [op]).mem == Insert(db.mem, e)
  {
    var e := Stamped(op, db.lastSequence);
    assert [op][1..] == [] && Stamp([], db.lastSequence + 2) == [];
    assert Stamp([op], db.lastSequence + 1) == [e];
    assert [e][1..] == [];
    assert InsertAll(Insert(db.mem, e), []) == Insert(db.mem, e);
  }

  lemma Snaps(dbs: seq<DB>, steps: seq<Step>, s: Shape) returns (dbs': seq<DB>, steps': seq<Step>)
    requires Reaches(dbs, steps, s) && |s.history| < MAX_SEQUENCE
    ensures Reaches(dbs', steps', s.(snapshots := s.snapshots + [|s.history|]))
  {
    dbs', steps' := ReachesNext(dbs, steps, s, TakeSnapshot, s.(snapshots := s.snapshots + [|s.history|]));
  }

  lemma Releases(dbs: seq<DB>, steps: seq<Step>, s: Shape) returns (dbs': seq<DB>, steps': seq<Step>)
    requires Reaches(dbs, steps, s) && |s.snapshots| == 1
    ensures Reaches(dbs', steps', s.(snapshots := []))
  {
    assert s.snapshots[..0] + s.snapshots[1..] == [];
    dbs', steps' := ReachesNext(dbs, steps, s, ReleaseSnapshot(0), s.(snapshots := []));
  }

  /** The memtable is switched and flushed. */
  lemma Flushes(dbs: seq<DB>, steps: seq<Step>, s: Shape, level: nat, f: FileMeta, w: Version)
    returns (dbs': seq<DB>, steps': seq<Step>)
    requires Reaches(dbs, steps, s) && s.mem != []
    requires FileOk(f) && f.entries == s.mem && f.number == s.next + 1 && f.size == TableBytes(f.entries)
    requires IsFlushLevel(s.version, level, f.smallest.user, f.largest.user, MAX_FILE_SIZE)
    requires Edited(s.version, {}, {(level, f)}, w)
    ensures Reaches(dbs', steps', s.(mem := [], version := w, next := s.next + 2))
  {
    var db := dbs[|steps|];
    var db1 := AfterSwitch(db, s.next);
    OneMoreStep(dbs, steps, SwitchMemTable(s.next));
    var dbs1, steps1 := dbs + [db1], steps + [SwitchMemTable(s.next)];
    FlushLevelFits(s.version, level, f.smallest.user, f.largest.user, MAX_FILE_SIZE);
    OneMoreStep(dbs1, steps1, Flush(level, f, w));
    dbs', steps' := dbs1 + [AfterFlush(db1, f, w)], steps1 + [Flush(level, f, w)];
  }

  lemma Begins(dbs: seq<DB>, steps: seq<Step>, s: Shape, level: nat, in0: Level, in1: Level)
    returns (dbs': seq<DB>, steps': seq<Step>)
    requires Reaches(dbs, steps, s) && s.pending == None && ValidPick(s.version, level, in0, in1)
    requires |s.history| < MAX_SEQUENCE && WholeLevel(s.version, level, in0)
    ensures Reaches(dbs', steps',
              s.(pending := Some(Pending(level, s.version, in0, in1, if s.snapshots == [] then |s.history| else s.snapshots[0])),
                 outputs := {}))
  {
    dbs', steps' := ReachesNext(dbs, steps, s, BeginCompaction(level, in0, in1),
      s.(pending := Some(Pending(level, s.version, in0, in1, if s.snapshots == [] then |s.history| else s.snapshots[0])),
         outputs := {}));
  }

  lemma Opens(dbs: seq<DB>, steps: seq<Step>, s: Shape) returns (dbs': seq<DB>, steps': seq<Step>)
    requires Reaches(dbs, steps, s) && s.pending.Some?
    ensures Reaches(dbs', steps', s.(outputs := s.outputs + {s.next}, next := s.next + 1))
  {
    dbs', steps' := ReachesNext(dbs, steps, s, OpenOutput(s.next), s.(outputs := s.outputs + {s.next}, next := s.next + 1));
  }

  lemma Installs(dbs: seq<DB>, steps: seq<Step>, s: Shape, input: seq<Entry>, outs: Level, w: Version)
    returns (dbs': seq<DB>, steps': seq<Step>)
    requires Reaches(dbs, steps, s) && s.pending.Some? && s.pending.value.base == s.version
    requires InstallEnabled(dbs[|steps|], s.pending.value, input, outs, w)
    requires NextLevelClosed(s.version, s.pending.value.level, s.pending.value.in1) && CutAsInSource(s.pending.value, outs)
    ensures Reaches(dbs', steps', s.(pending := None, outputs := {}, version := w))
  {
    ReachedIsOk(dbs, steps, s);
    ClosedPickIsSafe(dbs[|steps|], s.pending.value);
    dbs', steps' := ReachesNext(dbs, steps, s, Install(input, outs, w), s.(pending := None, outputs := {}, version := w));
  }

  // ---------------------------------------------------------------- versions

  lemma AddsFile(v: Version, level: nat, f: FileMeta, files: Level, w: Version)
    requires WellOrdered(v) && level < NUM_LEVELS && w == v[level := files]
    requires forall g :: g in files <==> g in v[level] || g == f
    requires BySmallest(files) && NumbersDistinct(files)
    ensures Edited(v, {}, {(level, f)}, w) && WellOrdered(w)
  {
  }

  lemma ReplacesFiles(v: Version, level: nat, in0: Level, in1: Level, outs: Level, upper: Level, lower: Level, w: Version)
    requires WellOrdered(v) && level + 1 < NUM_LEVELS && w == v[level := upper][level + 1 := lower]
    requires forall g :: g in upper <==> g in v[level] && g !in in0
    requires forall g :: g in lower <==> (g in v[level + 1] && g !in in1) || g in outs
    requires BySmallest(upper) && NumbersDistinct(upper) && BySmallest(lower) && NumbersDistinct(lower)
    ensures Edited(v, Taken(level, in0, in1), Placing(level + 1, outs), w) && WellOrdered(w)
  {
  }

  lemma {:induction false} OverlapIsSmaller(files: Level, lo: Option<UserKey>, hi: Option<UserKey>)
    ensures TotalSize(OverlapFilter(files, lo, hi)) <= TotalSize(files)
    decreases |files|
  {
    if files != [] {
      var front, last := files[..|files| - 1], files[|files| - 1];
      OverlapIsSmaller(front, lo, hi);
      var kept := OverlapFilter(front, lo, hi);
      assert (kept + [last])[..|kept|] == kept;
    }
  }

  lemma Sinks(v: Version, l: nat, lo: UserKey, hi: UserKey)
    requires l + 2 < NUM_LEVELS && TotalSize(v[l + 2]) <= 10 * MAX_FILE_SIZE
    requires forall f | f in v[l + 1] :: !Overlaps(f, Some(lo), Some(hi))
    ensures MaySink(v, l, lo, hi, MAX_FILE_SIZE)
  {
    OverlapIsSmaller(v[l + 2], Some(lo), Some(hi));
  }

  /** Nothing down to level 2 meets the range: the memtable goes as deep as a flush may. */
  lemma SinksToTwo(v: Version, lo: UserKey, hi: UserKey)
    requires forall l, f | 0 <= l <= 2 && f in v[l] :: !Overlaps(f, Some(lo), Some(hi))
    requires TotalSize(v[2]) <= 10 * MAX_FILE_SIZE && TotalSize(v[3]) <= 10 * MAX_FILE_SIZE
    ensures IsFlushLevel(v, 2, lo, hi, MAX_FILE_SIZE)
  {
    Sinks(v, 0, lo, hi);
    Sinks(v, 1, lo, hi);
  }

  /** A file of level 2 meets the range and nothing above does. */
  lemma StaysAtOne(v: Version, lo: UserKey, hi: UserKey, f: FileMeta)
    requires forall l, g | 0 <= l <= 1 && g in v[l] :: !Overlaps(g, Some(lo), Some(hi))
    requires TotalSize(v[2]) <= 10 * MAX_FILE_SIZE && f in v[2] && Overlaps(f, Some(lo), Some(hi))
    ensures IsFlushLevel(v, 1, lo, hi, MAX_FILE_SIZE)
  {
    Sinks(v, 0, lo, hi);
  }

  lemma AddsFirst(v: Version, level: nat, f: FileMeta)
    requires WellOrdered(v) && level < NUM_LEVELS && v[level] == []
    ensures Edited(v, {}, {(level, f)}, v[level := [f]]) && WellOrdered(v[level := [f]])
  {
    AddsFile(v, level, f, [f], v[level := [f]]);
  }

  lemma AddsSecond(v: Version, level: nat, f: FileMeta, g: FileMeta)
    requires WellOrdered(v) && level < NUM_LEVELS && v[level] == [f]
    requires Less(f.largest, g.smallest) && Less(f.smallest, g.smallest) && f.number != g.number
    ensures Edited(v, {}, {(level, g)}, v[level := [f, g]]) && WellOrdered(v[level := [f, g]])
  {
    TwoInOrder(f, g);
    AddsFile(v, level, g, [f, g], v[level := [f, g]]);
  }

  lemma FewFiles(f: FileMeta, g: FileMeta)
    ensures TotalSize([]) == 0 && TotalSize([f]) == f.size && TotalSize([f, g]) == f.size + g.size
  {
    assert [f][..0] == [] && [f, g][..1] == [f];
  }

  // ---------------------------------------------------------------- G1: a deleted key comes back

  const WRITES_1 := [FIRST_PUT]
  const WRITES_2 := [FIRST_PUT, DELETED]
  const WRITES_3 := [FIRST_PUT, DELETED, DELETION]
  const WRITES_4 := [FIRST_PUT, DELETED, DELETION, SECOND_PUT]
  const WRITES_5 := [FIRST_PUT, DELETED, DELETION, SECOND_PUT, THIRD_PUT]

  const BELOW := FileOf(2, [FIRST_PUT])
  const FIRST := FileOf(4, [SECOND_PUT, DELETION, DELETED])
  const REWRITTEN := FileOf(9, [THIRD_PUT])
  const BELOW_ONLY: Version := [[], [], [BELOW], [], [], [], []]
  const ABOVE_BELOW: Version := [[], [FIRST], [BELOW], [], [], [], []]
  const SPLIT: Version := [[], [], [PICKED, LEFT_BEHIND], [], [], [], []]
  const RESURRECTED: Version := [[], [], [REWRITTEN, LEFT_BEHIND], [], [], [], []]

  function OpOf(e: Entry): Op { Op(e.key.user, e.key.kind, e.value) }

  /** The next write of a run. */
  lemma WritesEntry(dbs: seq<DB>, steps: seq<Step>, s: Shape, e: Entry, mem: seq<Entry>) returns (dbs': seq<DB>, steps': seq<Step>)
    requires Reaches(dbs, steps, s) && |s.history| + 1 < MAX_SEQUENCE
    requires e.key.sequence == |s.history| + 1 && mem == Insert(s.mem, e)
    ensures Reaches(dbs', steps', s.(history := s.history + [e], mem := mem))
  {
    dbs', steps' := Writes(dbs, steps, s, OpOf(e));
  }

  lemma NoFilesFacts()
    ensures WellOrdered(NO_FILES) && TotalSize([]) == 0
  {
  }

  lemma BelowPlaced()
    ensures FileOk(BELOW) && BELOW.size < MAX_FILE_SIZE && IsFlushLevel(NO_FILES, 2, 1.0, 1.0, MAX_FILE_SIZE)
    ensures Edited(NO_FILES, {}, {(2, BELOW)}, BELOW_ONLY) && WellOrdered(BELOW_ONLY)
  {
    OneEntryBytes(FIRST_PUT);
    NoFilesFacts();
    hide IsFlushLevel, Edited, WellOrdered, TotalSize, BlockBytes;
    SinksToTwo(NO_FILES, 1.0, 1.0);
    AddsFirst(NO_FILES, 2, BELOW);
    assert NO_FILES[2 := [BELOW]] == BELOW_ONLY;
  }

  lemma InsertsInFront(mem: seq<Entry>, e: Entry)
    requires mem == [] || Less(e.key, mem[0].key)
    ensures Insert(mem, e) == [e] + mem
  {
  }

  lemma FirstInserts()
    ensures Insert([], FIRST_PUT) == [FIRST_PUT]
    ensures Insert([], DELETED) == [DELETED]
    ensures Insert([DELETED], DELETION) == [DELETION, DELETED]
    ensures Insert([DELETION, DELETED], SECOND_PUT) == FIRST.entries
    ensures Insert([], THIRD_PUT) == UPPER.entries
  {
    hide Insert;
    InsertsInFront([], FIRST_PUT);
    InsertsInFront([], DELETED);
    InsertsInFront([DELETED], DELETION);
    InsertsInFront([DELETION, DELETED], SECOND_PUT);
    InsertsInFront([], THIRD_PUT);
    assert [DELETION] + [DELETED] == [DELETION, DELETED];
    assert [SECOND_PUT] + [DELETION, DELETED] == FIRST.entries;
  }

  lemma ReachesBelowOnly() returns (dbs: seq<DB>, steps: seq<Step>)
    ensures Reaches(dbs, steps, Shape(WRITES_1, [], BELOW_ONLY, [], None, {}, 3))
  {
    FirstInserts();
    BelowPlaced();
    hide Reaches, Insert, Edited, IsFlushLevel, WellOrdered;
    dbs, steps := Start();
    var s := Shape([], [], NO_FILES, [], None, {}, 1);
    dbs, steps := WritesEntry(dbs, steps, s, FIRST_PUT, [FIRST_PUT]);
    assert [] + [FIRST_PUT] == WRITES_1;
    s := s.(history := WRITES_1, mem := [FIRST_PUT]);
    dbs, steps := Flushes(dbs, steps, s, 2, BELOW, BELOW_ONLY);
  }

  /** Key 1 is written and flushed; key 2 is written, seen by a snapshot, and deleted; key 1 is written again. */
  lemma FirstWrites() returns (dbs: seq<DB>, steps: seq<Step>)
    ensures Reaches(dbs, steps, Shape(WRITES_4, FIRST.entries, BELOW_ONLY, [2], None, {}, 3))
  {
    FirstInserts();
    hide Reaches, Insert;
    dbs, steps := ReachesBelowOnly();
    var s := Shape(WRITES_1, [], BELOW_ONLY, [], None, {}, 3);
    dbs, steps := WritesEntry(dbs, steps, s, DELETED, [DELETED]);
    assert WRITES_1 + [DELETED] == WRITES_2;
    s := s.(history := WRITES_2, mem := [DELETED]);
    dbs, steps := Snaps(dbs, steps, s);
    assert s.snapshots + [|s.history|] == [2];
    s := s.(snapshots := [2]);
    dbs, steps := DeletesAndCovers(dbs, steps, s);
  }

  lemma DeletesAndCovers(dbs: seq<DB>, steps: seq<Step>, s: Shape) returns (dbs': seq<DB>, steps': seq<Step>)
    requires Reaches(dbs, steps, s) && s == Shape(WRITES_2, [DELETED], BELOW_ONLY, [2], None, {}, 3)
    ensures Reaches(dbs', steps', s.(history := WRITES_4, mem := FIRST.entries))
  {
    FirstInserts();
    hide Reaches, Insert, Less;
    dbs', steps' := WritesEntry(dbs, steps, s, DELETION, [DELETION, DELETED]);
    assert WRITES_2 + [DELETION] == WRITES_3;
    var s' := s.(history := WRITES_3, mem := [DELETION, DELETED]);
    dbs', steps' := WritesEntry(dbs', steps', s', SECOND_PUT, FIRST.entries);
    assert WRITES_3 + [SECOND_PUT] == WRITES_4;
  }

  lemma FirstFlush()
    requires WellOrdered(BELOW_ONLY)
    ensures FileOk(FIRST) && IsFlushLevel(BELOW_ONLY, 1, 1.0, 2.0, MAX_FILE_SIZE)
    ensures Edited(BELOW_ONLY, {}, {(1, FIRST)}, ABOVE_BELOW) && WellOrdered(ABOVE_BELOW)
  {
    FirstFileOk();
    BelowPlaced();
    FewFiles(BELOW, BELOW);
    hide IsFlushLevel, Edited, WellOrdered, TotalSize, BlockBytes, FileOk;
    StaysAtOne(BELOW_ONLY, 1.0, 2.0, BELOW);
    AddsFirst(BELOW_ONLY, 1, FIRST);
    assert BELOW_ONLY[1 := [FIRST]] == ABOVE_BELOW;
  }

  lemma FirstFileOk()
    ensures FileOk(FIRST)
  {
  }

  lemma FirstPick()
    ensures ValidPick(ABOVE_BELOW, 1, [FIRST], [BELOW]) && NextLevelClosed(ABOVE_BELOW, 1, [BELOW])
    ensures WholeLevel(ABOVE_BELOW, 1, [FIRST])
  {
    assert IsRun(ABOVE_BELOW[1], [FIRST], 0, 1);
    OwnRange(FIRST);
    assert FIRST in [FIRST] && BELOW in [BELOW];
    assert [BELOW][..0] == [] && OverlapFilter([], Some(1.0), Some(2.0)) == [];
    assert OverlapFilter([BELOW], Some(1.0), Some(2.0)) == [BELOW];
    assert ABOVE_BELOW[2] == [BELOW] && [FIRST][..0] == [];
  }

  const FIRST_INPUT := [SECOND_PUT, FIRST_PUT, DELETION, DELETED]

  /** The snapshot keeps both entries of key 2, and they end up in different tables. */
  lemma FirstKept()
    ensures Sorted(FIRST_INPUT) && Elems(FIRST_INPUT) == InputEntries([FIRST], [BELOW])
    ensures OutputEntries([PICKED, LEFT_BEHIND]) == Kept(FIRST_INPUT, 4, 2, ABOVE_BELOW, 1)
  {
    FirstSorted();
    hide Sorted, Less, Kept, InputEntries, Elems, OutputEntries;
    FirstElems();
    FirstNoneDropped();
    TwoOutputs(PICKED, LEFT_BEHIND);
    assert PICKED.entries + LEFT_BEHIND.entries == FIRST_INPUT;
  }

  lemma FirstSorted()
    ensures Sorted(FIRST_INPUT)
  {
  }

  lemma FirstElems()
    ensures Elems(FIRST_INPUT) == InputEntries([FIRST], [BELOW])
  {
    SoleFile(FIRST);
    SoleFile(BELOW);
    assert FIRST.entries == [SECOND_PUT, DELETION, DELETED] && BELOW.entries == [FIRST_PUT];
    assert Elems(FIRST_INPUT) == {SECOND_PUT, FIRST_PUT, DELETION, DELETED};
    assert Elems(FIRST.entries) == {SECOND_PUT, DELETION, DELETED} by {
      assert FIRST.entries[0] == SECOND_PUT && FIRST.entries[1] == DELETION && FIRST.entries[2] == DELETED;
    }
    SoleElem(FIRST_PUT);
  }

  lemma FirstNoneDropped()
    ensures Kept(FIRST_INPUT, 4, 2, ABOVE_BELOW, 1) == FIRST_INPUT
  {
    var input := FIRST_INPUT;
    assert !Drops(input, 0, 2, ABOVE_BELOW, 1) && !Drops(input, 1, 2, ABOVE_BELOW, 1);
    assert !Drops(input, 2, 2, ABOVE_BELOW, 1) && !Drops(input, 3, 2, ABOVE_BELOW, 1);
    assert Kept(input, 0, 2, ABOVE_BELOW, 1) == [];
    assert Kept(input, 1, 2, ABOVE_BELOW, 1) == [SECOND_PUT];
    assert Kept(input, 2, 2, ABOVE_BELOW, 1) == [SECOND_PUT, FIRST_PUT];
    assert Kept(input, 3, 2, ABOVE_BELOW, 1) == [SECOND_PUT, FIRST_PUT, DELETION];
  }

  lemma TwoOutputs(f: FileMeta, g: FileMeta)
    ensures OutputEntries([f]) == f.entries && OutputEntries([f, g]) == f.entries + g.entries
  {
    LastOutput([], f);
    LastOutput([f], g);
    assert [] + [f] == [f] && [f] + [g] == [f, g];
  }

  /** The deletion fills a block, with it the table reaches the maximum, and so its key is cut in two. */
  lemma FirstCut()
    ensures CutBySize([PICKED, LEFT_BEHIND], WrittenBytes, MAX_FILE_SIZE)
    ensures PICKED.size == MAX_FILE_SIZE + 128 && LEFT_BEHIND.size == 25
  {
    var es := PICKED.entries;
    PickedBytes();
    OneEntryBytes(DELETED);
    assert es[..1] == [SECOND_PUT] && es[..2] == [SECOND_PUT, FIRST_PUT];
    assert NotFullYet(PICKED.entries, WrittenBytes, MAX_FILE_SIZE);
    assert NotFullYet(LEFT_BEHIND.entries, WrittenBytes, MAX_FILE_SIZE);
  }

  lemma PickedBytes()
    ensures BlockBytes([SECOND_PUT]) == (MAX_FILE_SIZE - 3976, 0)
    ensures BlockBytes([SECOND_PUT, FIRST_PUT]) == (MAX_FILE_SIZE - 3976, 4080)
    ensures BlockBytes([SECOND_PUT, FIRST_PUT, DELETION]) == (MAX_FILE_SIZE + 128, 0)
  {
    NextEntryBytes([], SECOND_PUT);
    NextEntryBytes([SECOND_PUT], FIRST_PUT);
    NextEntryBytes([SECOND_PUT, FIRST_PUT], DELETION);
    assert [] + [SECOND_PUT] == [SECOND_PUT] && [SECOND_PUT] + [FIRST_PUT] == [SECOND_PUT, FIRST_PUT];
    assert [SECOND_PUT, FIRST_PUT] + [DELETION] == [SECOND_PUT, FIRST_PUT, DELETION];
  }

  lemma TwoInOrder(f: FileMeta, g: FileMeta)
    requires Less(f.largest, g.smallest) && Less(f.smallest, g.smallest) && f.number != g.number
    ensures Disjoint([f, g]) && BySmallest([f, g]) && NumbersDistinct([f, g])
    ensures forall h :: h in [f, g] <==> h == f || h == g
  {
    var files := [f, g];
    assert files[0] == f && files[1] == g;
  }

  lemma FirstInstall()
    requires WellOrdered(ABOVE_BELOW)
    ensures (forall o | o in [PICKED, LEFT_BEHIND] :: FileOk(o) && o.number in {5, 6}) && Disjoint([PICKED, LEFT_BEHIND])
    ensures Edited(ABOVE_BELOW, Taken(1, [FIRST], [BELOW]), Placing(2, [PICKED, LEFT_BEHIND]), SPLIT)
  {
    var outs := [PICKED, LEFT_BEHIND];
    SplitKeyFiles();
    TwoInOrder(PICKED, LEFT_BEHIND);
    assert ABOVE_BELOW[1 := []][2 := outs] == SPLIT;
    ReplacesFiles(ABOVE_BELOW, 1, [FIRST], [BELOW], outs, [], outs, SPLIT);
  }

  const FIRST_REQUEST := Pending(1, ABOVE_BELOW, [FIRST], [BELOW], 2)

  /** The first compaction, asked for while the snapshot is held. */
  lemma ReachesFirstRequest() returns (dbs: seq<DB>, steps: seq<Step>)
    ensures Reaches(dbs, steps, Shape(WRITES_4, [], ABOVE_BELOW, [2], Some(FIRST_REQUEST), {}, 5))
    ensures WellOrdered(ABOVE_BELOW)
  {
    dbs, steps := FirstWrites();
    var s := Shape(WRITES_4, FIRST.entries, BELOW_ONLY, [2], None, {}, 3);
    assert WellOrdered(BELOW_ONLY);
    FirstFlush();
    FirstPick();
    hide Reaches, Edited, IsFlushLevel, WellOrdered, WholeLevel, ValidPick, NextLevelClosed;
    dbs, steps := Flushes(dbs, steps, s, 1, FIRST, ABOVE_BELOW);
    s := s.(mem := [], version := ABOVE_BELOW, next := 5);
    dbs, steps := Begins(dbs, steps, s, 1, [FIRST], [BELOW]);
  }

  lemma FirstInstallEnabled(db: DB, s: Shape)
    requires Looks(db, s) && s == Shape(WRITES_4, [], ABOVE_BELOW, [2], Some(FIRST_REQUEST), {5, 6}, 7) && WellOrdered(ABOVE_BELOW)
    ensures InstallEnabled(db, FIRST_REQUEST, FIRST_INPUT, [PICKED, LEFT_BEHIND], SPLIT)
  {
    FirstKept();
    FirstInstall();
  }

  lemma FirstCutIsTheSource()
    ensures CutAsInSource(FIRST_REQUEST, [PICKED, LEFT_BEHIND])
  {
    FirstCut();
    FewFiles(BELOW, BELOW);
  }

  lemma ReachesSplit() returns (dbs: seq<DB>, steps: seq<Step>)
    ensures Reaches(dbs, steps, Shape(WRITES_4, [], SPLIT, [2], None, {}, 7))
  {
    dbs, steps := ReachesFirstRequest();
    var s := Shape(WRITES_4, [], ABOVE_BELOW, [2], Some(FIRST_REQUEST), {}, 5);
    hide WellOrdered, InstallEnabled, CutAsInSource, NextLevelClosed, ValidPick, IsSourceRun, HarmlessUpTo, WholeLevel;
    dbs, steps := Opens(dbs, steps, s);
    assert {} + {5} == {5} && {5} + {6} == {5, 6};
    dbs, steps := Opens(dbs, steps, s.(outputs := {5}, next := 6));
    s := s.(outputs := {5, 6}, next := 7);
    FirstPick();
    FirstInstallEnabled(dbs[|steps|], s);
    FirstCutIsTheSource();
    dbs, steps := Installs(dbs, steps, s, FIRST_INPUT, [PICKED, LEFT_BEHIND], SPLIT);
  }

  lemma SecondFlush()
    requires WellOrdered(SPLIT)
    ensures FileOk(UPPER) && IsFlushLevel(SPLIT, 1, 1.0, 1.0, MAX_FILE_SIZE)
    ensures Edited(SPLIT, {}, {(1, UPPER)}, SPLIT_KEY) && WellOrdered(SPLIT_KEY)
  {
    FirstCut();
    FewFiles(PICKED, LEFT_BEHIND);
    hide IsFlushLevel, Edited, WellOrdered, TotalSize, BlockBytes;
    StaysAtOne(SPLIT, 1.0, 1.0, PICKED);
    AddsFirst(SPLIT, 1, UPPER);
    assert SPLIT[1 := [UPPER]] == SPLIT_KEY;
  }

  /** A run of the source, nothing harmful in it, that reaches the version of the first input. */
  lemma ReachesSplitKey() returns (dbs: seq<DB>, steps: seq<Step>)
    ensures Reaches(dbs, steps, Shape(WRITES_5, [], SPLIT_KEY, [], None, {}, 9))
  {
    dbs, steps := ReachesSplit();
    var s := Shape(WRITES_4, [], SPLIT, [2], None, {}, 7);
    dbs, steps := Releases(dbs, steps, s);
    s := s.(snapshots := []);
    FirstInserts();
    dbs, steps := WritesEntry(dbs, steps, s, THIRD_PUT, UPPER.entries);
    assert WRITES_4 + [THIRD_PUT] == WRITES_5;
    s := s.(history := WRITES_5, mem := UPPER.entries);
    SecondFlush();
    dbs, steps := Flushes(dbs, steps, s, 1, UPPER, SPLIT_KEY);
  }

  const REQUESTED := Pending(1, SPLIT_KEY, [UPPER], [PICKED], 5)

  /** The second compaction before its install. */
  lemma ReachesUnguardedPick() returns (dbs: seq<DB>, steps: seq<Step>)
    ensures Reaches(dbs, steps, Shape(WRITES_5, [], SPLIT_KEY, [], Some(REQUESTED), {9}, 10))
  {
    dbs, steps := ReachesSplitKey();
    var s := Shape(WRITES_5, [], SPLIT_KEY, [], None, {}, 9);
    SplitKeyPick();
    assert SPLIT_KEY[2] != [] && SPLIT_KEY[1] == [UPPER] && [UPPER][..0] == [];
    dbs, steps := Begins(dbs, steps, s, 1, [UPPER], [PICKED]);
    s := s.(pending := Some(REQUESTED));
    dbs, steps := Opens(dbs, steps, s);
    assert {} + {9} == {9};
  }

  const SECOND_INPUT := [THIRD_PUT, SECOND_PUT, FIRST_PUT, DELETION]

  /** The older values of key 1 and the deletion of key 2 are dropped. */
  lemma SecondKept()
    ensures Sorted(SECOND_INPUT) && Elems(SECOND_INPUT) == InputEntries([UPPER], [PICKED])
    ensures OutputEntries([REWRITTEN]) == Kept(SECOND_INPUT, 4, 5, SPLIT_KEY, 1)
  {
    SecondSorted();
    hide Sorted, Less, InputEntries, OutputEntries, Drops;
    var input := SECOND_INPUT;
    SplitKeyParts();
    SecondDrops();
    assert Kept(input, 0, 5, SPLIT_KEY, 1) == [];
    assert Kept(input, 1, 5, SPLIT_KEY, 1) == [THIRD_PUT];
    assert Kept(input, 2, 5, SPLIT_KEY, 1) == [THIRD_PUT];
    assert Kept(input, 3, 5, SPLIT_KEY, 1) == [THIRD_PUT];
    TwoOutputs(REWRITTEN, REWRITTEN);
  }

  lemma SecondSorted()
    ensures Sorted(SECOND_INPUT) && Elems(SECOND_INPUT) == {THIRD_PUT, SECOND_PUT, FIRST_PUT, DELETION}
  {
  }

  lemma SecondDrops()
    ensures !Drops(SECOND_INPUT, 0, 5, SPLIT_KEY, 1) && Drops(SECOND_INPUT, 1, 5, SPLIT_KEY, 1)
    ensures Drops(SECOND_INPUT, 2, 5, SPLIT_KEY, 1) && Drops(SECOND_INPUT, 3, 5, SPLIT_KEY, 1)
  {
    KeyTwoIsBase();
  }

  lemma SecondInstall()
    requires WellOrdered(SPLIT_KEY)
    ensures FileOk(REWRITTEN) && Disjoint([REWRITTEN])
    ensures Edited(SPLIT_KEY, Taken(1, [UPPER], [PICKED]), Placing(2, [REWRITTEN]), RESURRECTED)
  {
    var lower := [REWRITTEN, LEFT_BEHIND];
    TwoInOrder(REWRITTEN, LEFT_BEHIND);
    assert SPLIT_KEY[1 := []][2 := lower] == RESURRECTED;
    ReplacesFiles(SPLIT_KEY, 1, [UPPER], [PICKED], [REWRITTEN], [], lower, RESURRECTED);
  }

  lemma SecondCut()
    ensures CutAsInSource(REQUESTED, [REWRITTEN])
  {
    FewFiles(REWRITTEN, REWRITTEN);
    assert NotFullYet(REWRITTEN.entries, WrittenBytes, MAX_FILE_SIZE);
  }

  /** Nothing but tables is left to read. */
  lemma OnlyTables(db: DB, s: Shape)
    requires Looks(db, s) && s.mem == []
    ensures Stored(db) == VersionEntries(s.version)
  {
    assert Elems([]) == {};
  }

  /**
    A run of the source from an empty store, without a crash: key 2 is written and deleted, its deletion is the
    last word on it, and still the last state of the run reads the deleted value.
  */
  lemma DeletedKeyComesBack() returns (dbs: seq<DB>, steps: seq<Step>)
    ensures IsSourceRun(dbs, steps) && steps != [] && HarmlessUpTo(dbs, steps, |steps| - 1)
    ensures var db := dbs[|steps|];
            && Lookup(db.history, 2.0, db.lastSequence) == None
            && Read(Stored(db), 2.0, db.lastSequence) == Some([1])
  {
    dbs, steps := ReachesUnguardedPick();
    var s := Shape(WRITES_5, [], SPLIT_KEY, [], Some(REQUESTED), {9}, 10);
    var db := dbs[|steps|];
    ReachedIsOk(dbs, steps, s);
    SecondInstallEnabled(db, s);
    InstallBringsBack(db, s);
    SecondCut();
    hide Read, Stored, Lookup, Inv, InstallEnabled, Enabled, IsSourceRun, HarmlessUpTo, CutAsInSource, AfterInstall, Looks, WellOrdered;
    dbs, steps := EndsWithInstall(dbs, steps, REQUESTED, SECOND_INPUT, [REWRITTEN], RESURRECTED);
  }

  /** A run with nothing harmful in it, and then an install, harmful or not. */
  lemma EndsWithInstall(dbs: seq<DB>, steps: seq<Step>, p: Pending, input: seq<Entry>, outs: Level, w: Version)
    returns (dbs': seq<DB>, steps': seq<Step>)
    requires IsSourceRun(dbs, steps) && HarmlessUpTo(dbs, steps, |steps|)
    requires dbs[|steps|].pending == Some(p) && CutAsInSource(p, outs)
    requires Enabled(dbs[|steps|], Install(input, outs, w))
    ensures IsSourceRun(dbs', steps') && steps' != [] && HarmlessUpTo(dbs', steps', |steps'| - 1)
    ensures dbs'[|steps'|] == AfterInstall(dbs[|steps|], w)
  {
    OneMoreStep(dbs, steps, Install(input, outs, w));
    dbs', steps' := dbs + [AfterInstall(dbs[|steps|], w)], steps + [Install(input, outs, w)];
  }

  lemma SecondInstallEnabled(db: DB, s: Shape)
    requires Looks(db, s) && s == Shape(WRITES_5, [], SPLIT_KEY, [], Some(REQUESTED), {9}, 10) && WellOrdered(SPLIT_KEY)
    ensures InstallEnabled(db, REQUESTED, SECOND_INPUT, [REWRITTEN], RESURRECTED)
    ensures Enabled(db, Install(SECOND_INPUT, [REWRITTEN], RESURRECTED))
  {
    SecondKept();
    SecondInstall();
  }

  lemma InstallBringsBack(db: DB, s: Shape)
    requires Inv(db) && Looks(db, s) && s == Shape(WRITES_5, [], SPLIT_KEY, [], Some(REQUESTED), {9}, 10)
    requires InstallEnabled(db, REQUESTED, SECOND_INPUT, [REWRITTEN], RESURRECTED)
    ensures var db' := AfterInstall(db, RESURRECTED);
            && Lookup(db'.history, 2.0, db'.lastSequence) == None
            && Read(Stored(db'), 2.0, db'.lastSequence) == Some([1])
  {
    var db' := AfterInstall(db, RESURRECTED);
    InstallOutcome(db, REQUESTED, SECOND_INPUT, [REWRITTEN], RESURRECTED);
    DroppedDeletionResurrects();
    OnlyTables(db, s);
    OnlyTables(db', s.(version := RESURRECTED, pending := None, outputs := {}));
    StoredReadsHistory(db, 2.0, 5);
  }

  // ---------------------------------------------------------------- G2: two tables of one level overlap

  const BELOW_1: Version := [[], [], [LOW_BELOW], [], [], [], []]
  const BELOW_2: Version := [[], [], [LOW_BELOW, HIGH_BELOW], [], [], [], []]
  const LOW_ONLY: Version := [[], [LOW], [LOW_BELOW, HIGH_BELOW], [], [], [], []]
  const OVERLAPPED: Version := [[], [], [MERGED, FLUSHED], [], [], [], []]

  function WriteOf(k: UserKey): Op { Op(k, Value, [1]) }

  /** One key is written and flushed to the level the rule chooses. */
  lemma WritesTable(dbs: seq<DB>, steps: seq<Step>, s: Shape, k: UserKey, level: nat, w: Version)
    returns (dbs': seq<DB>, steps': seq<Step>)
    requires Reaches(dbs, steps, s) && s.mem == [] && |s.history| + 1 < MAX_SEQUENCE
    requires IsFlushLevel(s.version, level, k, k, MAX_FILE_SIZE)
    requires Edited(s.version, {}, {(level, FileOf(s.next + 1, [Val(k, |s.history| + 1)]))}, w)
    ensures Reaches(dbs', steps', s.(history := s.history + [Val(k, |s.history| + 1)], version := w, next := s.next + 2))
  {
    var e := Val(k, |s.history| + 1);
    dbs', steps' := Writes(dbs, steps, s, WriteOf(k));
    assert Insert([], e) == [e];
    var s' := s.(history := s.history + [e], mem := [e]);
    dbs', steps' := Flushes(dbs', steps', s', level, FileOf(s.next + 1, [e]), w);
  }

  lemma SmallSizes()
    ensures TotalSize([LOW_BELOW]) == 25 && TotalSize([LOW_BELOW, HIGH_BELOW]) == 50 && TotalSize([LOW]) == 25
    ensures MERGED.size == 50
  {
    OneEntryBytes(Val(1.0, 1));
    OneEntryBytes(Val(5.0, 2));
    OneEntryBytes(Val(1.0, 3));
    NextEntryBytes([], Val(1.0, 3));
    NextEntryBytes([Val(1.0, 3)], Val(5.0, 4));
    assert [] + [Val(1.0, 3)] == [Val(1.0, 3)] && [Val(1.0, 3)] + [Val(5.0, 4)] == MERGED.entries;
    FewFiles(LOW_BELOW, HIGH_BELOW);
    FewFiles(LOW, LOW);
  }

  lemma PlacesLowBelow()
    ensures IsFlushLevel(NO_FILES, 2, 1.0, 1.0, MAX_FILE_SIZE) && Edited(NO_FILES, {}, {(2, LOW_BELOW)}, BELOW_1)
    ensures WellOrdered(BELOW_1)
  {
    NoFilesFacts();
    hide IsFlushLevel, Edited, WellOrdered, TotalSize;
    SinksToTwo(NO_FILES, 1.0, 1.0);
    AddsFirst(NO_FILES, 2, LOW_BELOW);
    assert NO_FILES[2 := [LOW_BELOW]] == BELOW_1;
  }

  lemma PlacesHighBelow()
    requires WellOrdered(BELOW_1)
    ensures IsFlushLevel(BELOW_1, 2, 5.0, 5.0, MAX_FILE_SIZE) && Edited(BELOW_1, {}, {(2, HIGH_BELOW)}, BELOW_2)
    ensures WellOrdered(BELOW_2)
  {
    SmallSizes();
    NoFilesFacts();
    hide IsFlushLevel, Edited, WellOrdered, TotalSize;
    SinksToTwo(BELOW_1, 5.0, 5.0);
    AddsSecond(BELOW_1, 2, LOW_BELOW, HIGH_BELOW);
    assert BELOW_1[2 := [LOW_BELOW, HIGH_BELOW]] == BELOW_2;
  }

  lemma PlacesLow()
    requires WellOrdered(BELOW_2)
    ensures IsFlushLevel(BELOW_2, 1, 1.0, 1.0, MAX_FILE_SIZE) && Edited(BELOW_2, {}, {(1, LOW)}, LOW_ONLY)
    ensures WellOrdered(LOW_ONLY)
  {
    SmallSizes();
    hide IsFlushLevel, Edited, WellOrdered, TotalSize;
    StaysAtOne(BELOW_2, 1.0, 1.0, LOW_BELOW);
    AddsFirst(BELOW_2, 1, LOW);
    assert BELOW_2[1 := [LOW]] == LOW_ONLY;
  }

  lemma PlacesHigh()
    requires WellOrdered(LOW_ONLY)
    ensures IsFlushLevel(LOW_ONLY, 1, 5.0, 5.0, MAX_FILE_SIZE) && Edited(LOW_ONLY, {}, {(1, HIGH)}, GAPPED)
    ensures WellOrdered(GAPPED)
  {
    SmallSizes();
    hide IsFlushLevel, Edited, WellOrdered, TotalSize;
    StaysAtOne(LOW_ONLY, 5.0, 5.0, HIGH_BELOW);
    AddsSecond(LOW_ONLY, 1, LOW, HIGH);
    assert LOW_ONLY[1 := [LOW, HIGH]] == GAPPED;
  }

  lemma PlacesFlushed()
    requires WellOrdered(GAPPED)
    ensures IsFlushLevel(GAPPED, 2, 3.0, 3.0, MAX_FILE_SIZE) && Edited(GAPPED, {}, {(2, FLUSHED)}, FLUSHED_INTO_GAP)
    ensures WellOrdered(FLUSHED_INTO_GAP)
  {
    SmallSizes();
    NoFilesFacts();
    FlushedInOrder();
    hide IsFlushLevel, Edited, WellOrdered, TotalSize, BySmallest, NumbersDistinct;
    SinksToTwo(GAPPED, 3.0, 3.0);
    assert GAPPED[2 := [LOW_BELOW, FLUSHED, HIGH_BELOW]] == FLUSHED_INTO_GAP;
    AddsFile(GAPPED, 2, FLUSHED, [LOW_BELOW, FLUSHED, HIGH_BELOW], FLUSHED_INTO_GAP);
  }

  lemma FlushedInOrder()
    ensures BySmallest([LOW_BELOW, FLUSHED, HIGH_BELOW]) && NumbersDistinct([LOW_BELOW, FLUSHED, HIGH_BELOW])
  {
    var files := [LOW_BELOW, FLUSHED, HIGH_BELOW];
    assert files[0] == LOW_BELOW && files[1] == FLUSHED && files[2] == HIGH_BELOW;
  }

  const BELOW_WRITES := [Val(1.0, 1), Val(5.0, 2)]
  const GAP_WRITES := [Val(1.0, 1), Val(5.0, 2), Val(1.0, 3), Val(5.0, 4)]

  lemma ReachesBelow() returns (dbs: seq<DB>, steps: seq<Step>)
    ensures Reaches(dbs, steps, Shape(BELOW_WRITES, [], BELOW_2, [], None, {}, 5))
  {
    hide Reaches, Edited, IsFlushLevel;
    dbs, steps := Start();
    var s := Shape([], [], NO_FILES, [], None, {}, 1);
    PlacesLowBelow();
    dbs, steps := WritesTable(dbs, steps, s, 1.0, 2, BELOW_1);
    assert [] + [Val(1.0, 1)] == [Val(1.0, 1)];
    s := s.(history := [Val(1.0, 1)], version := BELOW_1, next := 3);
    PlacesHighBelow();
    dbs, steps := WritesTable(dbs, steps, s, 5.0, 2, BELOW_2);
    assert [Val(1.0, 1)] + [Val(5.0, 2)] == BELOW_WRITES;
  }

  lemma ReachesGapped() returns (dbs: seq<DB>, steps: seq<Step>)
    ensures Reaches(dbs, steps, Shape(GAP_WRITES, [], GAPPED, [], None, {}, 9))
  {
    hide Reaches, Edited, IsFlushLevel;
    dbs, steps := ReachesBelow();
    var s := Shape(BELOW_WRITES, [], BELOW_2, [], None, {}, 5);
    PlacesLow();
    dbs, steps := WritesTable(dbs, steps, s, 1.0, 1, LOW_ONLY);
    s := s.(history := BELOW_WRITES + [Val(1.0, 3)], version := LOW_ONLY, next := 7);
    PlacesHigh();
    dbs, steps := WritesTable(dbs, steps, s, 5.0, 1, GAPPED);
    assert BELOW_WRITES + [Val(1.0, 3)] + [Val(5.0, 4)] == GAP_WRITES;
  }

  const MANUAL := Pending(1, GAPPED, [LOW, HIGH], [LOW_BELOW, HIGH_BELOW], 4)

  /** A manual compaction of the two files, and a write flushed into the gap before it installs. */
  lemma ReachesFlushedIntoGap() returns (dbs: seq<DB>, steps: seq<Step>)
    ensures Reaches(dbs, steps, Shape(GAP_WRITES + [Val(3.0, 5)], [], FLUSHED_INTO_GAP, [], Some(MANUAL), {11}, 12))
    ensures VersionOk(GAPPED) && VersionOk(FLUSHED_INTO_GAP)
  {
    dbs, steps := ReachesGapped();
    var s := Shape(GAP_WRITES, [], GAPPED, [], None, {}, 9);
    ReachedIsGood(dbs, steps, s);
    GappedPick();
    SmallSizes();
    assert [LOW, HIGH][..1] == [LOW] && GAPPED[2] != [] && WholeLevel(GAPPED, 1, [LOW, HIGH]);
    PlacesFlushed();
    hide Reaches, Edited, IsFlushLevel, WellOrdered, ValidPick, WholeLevel, VersionOk, TotalSize;
    dbs, steps := Begins(dbs, steps, s, 1, [LOW, HIGH], [LOW_BELOW, HIGH_BELOW]);
    s := s.(pending := Some(MANUAL));
    dbs, steps := WritesTable(dbs, steps, s, 3.0, 2, FLUSHED_INTO_GAP);
    s := s.(history := GAP_WRITES + [Val(3.0, 5)], version := FLUSHED_INTO_GAP, next := 11);
    dbs, steps := Opens(dbs, steps, s);
    assert {} + {11} == {11};
    ReachedIsGood(dbs, steps, s.(outputs := {11}, next := 12));
  }

  lemma ReachedIsGood(dbs: seq<DB>, steps: seq<Step>, s: Shape)
    requires Reaches(dbs, steps, s)
    ensures VersionOk(s.version) && WellOrdered(s.version)
  {
    ReachedIsOk(dbs, steps, s);
  }

  const GAP_INPUT := [Val(1.0, 3), Val(1.0, 1), Val(5.0, 4), Val(5.0, 2)]

  lemma GapInput()
    ensures Sorted(GAP_INPUT) && Elems(GAP_INPUT) == InputEntries([LOW, HIGH], [LOW_BELOW, HIGH_BELOW])
  {
    TwoFiles(LOW, HIGH);
    TwoFiles(LOW_BELOW, HIGH_BELOW);
    assert LOW.entries == [Val(1.0, 3)] && HIGH.entries == [Val(5.0, 4)];
    assert LOW_BELOW.entries == [Val(1.0, 1)] && HIGH_BELOW.entries == [Val(5.0, 2)];
    assert Elems(GAP_INPUT) == {Val(1.0, 3), Val(1.0, 1), Val(5.0, 4), Val(5.0, 2)};
    SoleElem(Val(1.0, 3));
    SoleElem(Val(5.0, 4));
    SoleElem(Val(1.0, 1));
    SoleElem(Val(5.0, 2));
  }

  lemma SoleElem(e: Entry)
    ensures Elems([e]) == {e}
  {
    assert e in [e];
  }

  lemma TwoFiles(f: FileMeta, g: FileMeta)
    ensures LevelEntries([f, g]) == Elems(f.entries) + Elems(g.entries)
  {
    assert f in [f, g] && g in [f, g];
  }

  lemma GapKept()
    ensures OutputEntries([MERGED]) == Kept(GAP_INPUT, 4, 4, GAPPED, 1)
  {
    var input := GAP_INPUT;
    assert !Drops(input, 0, 4, GAPPED, 1) && Drops(input, 1, 4, GAPPED, 1);
    assert !Drops(input, 2, 4, GAPPED, 1) && Drops(input, 3, 4, GAPPED, 1);
    assert Kept(input, 0, 4, GAPPED, 1) == [];
    assert Kept(input, 1, 4, GAPPED, 1) == [Val(1.0, 3)];
    assert Kept(input, 2, 4, GAPPED, 1) == [Val(1.0, 3)];
    assert Kept(input, 3, 4, GAPPED, 1) == [Val(1.0, 3), Val(5.0, 4)];
    assert Kept(input, 4, 4, GAPPED, 1) == [Val(1.0, 3), Val(5.0, 4)];
    TwoOutputs(MERGED, MERGED);
  }

  lemma GapInstall()
    requires WellOrdered(FLUSHED_INTO_GAP)
    ensures FileOk(MERGED) && Disjoint([MERGED])
    ensures Edited(FLUSHED_INTO_GAP, Taken(1, [LOW, HIGH], [LOW_BELOW, HIGH_BELOW]), Placing(2, [MERGED]), OVERLAPPED)
  {
    GappedFiles();
    var lower := [MERGED, FLUSHED];
    assert lower[0] == MERGED && lower[1] == FLUSHED;
    assert FLUSHED_INTO_GAP[1 := []][2 := lower] == OVERLAPPED;
    ReplacesFiles(FLUSHED_INTO_GAP, 1, [LOW, HIGH], [LOW_BELOW, HIGH_BELOW], [MERGED], [], lower, OVERLAPPED);
  }

  /**
    A run of the source from an empty store, without a crash, whose last state has two tables of level 2 overlap.
    The newest entry of key 3 in the tables is a value, and the search of the tables for it finds nothing.
  */
  lemma FlushedKeyIsHidden() returns (dbs: seq<DB>, steps: seq<Step>)
    ensures IsSourceRun(dbs, steps) && steps != [] && HarmlessUpTo(dbs, steps, |steps| - 1)
    ensures var db := dbs[|steps|];
            && db.lastSequence == 5 && db.mem == [] && db.imm == None && !Disjoint(db.version[2])
            && Lookup(db.history, 3.0, 5) == Read(VersionEntries(db.version), 3.0, 5) == Some([1])
            && SearchFrom(db.version, 0, 3.0, 5) == None
  {
    dbs, steps := ReachesFlushedIntoGap();
    var s := Shape(GAP_WRITES + [Val(3.0, 5)], [], FLUSHED_INTO_GAP, [], Some(MANUAL), {11}, 12);
    var db := dbs[|steps|];
    GapInstallEnabled(db, s);
    GapCut();
    OverlapHides();
    AfterGapInstall(db, s);
    hide Read, Lookup, Inv, Enabled, IsSourceRun, HarmlessUpTo, CutAsInSource, AfterInstall, Looks, WellOrdered, Disjoint,
         VersionEntries, SearchFrom, VersionOk, Edited;
    dbs, steps := EndsWithInstall(dbs, steps, MANUAL, GAP_INPUT, [MERGED], OVERLAPPED);
  }

  lemma AfterGapInstall(db: DB, s: Shape)
    requires Looks(db, s) && s == Shape(GAP_WRITES + [Val(3.0, 5)], [], FLUSHED_INTO_GAP, [], Some(MANUAL), {11}, 12)
    ensures var db' := AfterInstall(db, OVERLAPPED);
            db'.lastSequence == 5 && db'.mem == [] && db'.imm == None && db'.version == OVERLAPPED
            && db'.history == GAP_WRITES + [Val(3.0, 5)]
  {
  }

  lemma GapCut()
    ensures CutAsInSource(MANUAL, [MERGED])
  {
    SmallSizes();
    NoFilesFacts();
    var es := MERGED.entries;
    assert es[..1] == [Val(1.0, 3)];
    NextEntryBytes([], Val(1.0, 3));
    assert [] + [Val(1.0, 3)] == [Val(1.0, 3)];
    assert NotFullYet(MERGED.entries, WrittenBytes, MAX_FILE_SIZE);
  }

  lemma GapInstallEnabled(db: DB, s: Shape)
    requires Looks(db, s) && WellOrdered(FLUSHED_INTO_GAP)
    requires s == Shape(GAP_WRITES + [Val(3.0, 5)], [], FLUSHED_INTO_GAP, [], Some(MANUAL), {11}, 12)
    ensures Enabled(db, Install(GAP_INPUT, [MERGED], OVERLAPPED))
    ensures Edited(FLUSHED_INTO_GAP, Taken(1, [LOW, HIGH], [LOW_BELOW, HIGH_BELOW]), Placing(2, [MERGED]), OVERLAPPED)
  {
    GapInput();
    GapKept();
    GapInstall();
  }

  lemma OverlapHides()
    requires VersionOk(GAPPED) && VersionOk(FLUSHED_INTO_GAP)
    requires Edited(FLUSHED_INTO_GAP, Taken(1, [LOW, HIGH], [LOW_BELOW, HIGH_BELOW]), Placing(2, [MERGED]), OVERLAPPED)
    ensures !Disjoint(OVERLAPPED[2]) && Lookup(GAP_WRITES + [Val(3.0, 5)], 3.0, 5) == Some([1])
    ensures Read(VersionEntries(OVERLAPPED), 3.0, 5) == Some([1]) && SearchFrom(OVERLAPPED, 0, 3.0, 5) == None
  {
    FlushIntoGapOverlaps(OVERLAPPED);
    LastWriteIsRead(GAP_WRITES, Val(3.0, 5));
    OverlappedReads();
    hide VersionOk, Edited, Disjoint, Lookup, Read, VersionEntries;
    SearchMisses();
  }

  lemma OverlappedReads()
    ensures Read(VersionEntries(OVERLAPPED), 3.0, 5) == Some([1])
  {
    GappedContents();
    assert MERGED in OVERLAPPED[2] && FLUSHED in OVERLAPPED[2];
    assert FLUSHED.entries[0] == Val(3.0, 5) && MERGED.entries[0] == Val(1.0, 3) && MERGED.entries[1] == Val(5.0, 4);
    forall e | e in VersionEntries(OVERLAPPED)
      ensures e in {Val(1.0, 3), Val(5.0, 4), Val(3.0, 5)}
    {
      var l, f := InVersion(OVERLAPPED, e);
      assert l == 2 && (f == MERGED || f == FLUSHED);
    }
    assert Val(3.0, 5) in FLUSHED.entries;
    assert Val(3.0, 5) in LevelEntries(OVERLAPPED[2]);
    assert IsNewest(VersionEntries(OVERLAPPED), 3.0, 5, Val(3.0, 5));
    NewestIs(VersionEntries(OVERLAPPED), 3.0, 5, Val(3.0, 5));
  }

  /** The first table of level 2 to reach the key is the merged one, which begins before it and does not hold it. */
  lemma SearchMisses()
    ensures SearchFrom(OVERLAPPED, 0, 3.0, 5) == None
  {
    assert forall l | 0 <= l < NUM_LEVELS && l != 2 :: OVERLAPPED[l] == [];
    MergedIsSearched();
    forall l | 0 <= l < NUM_LEVELS
      ensures FirstHit(Candidates(OVERLAPPED[l], l, 3.0, 5), 3.0, 5) == None
    {
      if l != 2 {
        NothingToSearch(l);
      }
    }
    hide FirstHit, Candidates;
    NoLevelKnows(OVERLAPPED, 0, 3.0, 5);
  }

  lemma NothingToSearch(l: nat)
    ensures FirstHit(Candidates([], l, 3.0, 5), 3.0, 5) == None
  {
  }

  lemma MergedIsSearched()
    ensures FirstHit(Candidates([MERGED, FLUSHED], 2, 3.0, 5), 3.0, 5) == None
  {
    var key := LookupKey(3.0, 5);
    assert !Less(FLUSHED.largest, key) && !Less(MERGED.largest, key);
    assert FindBetween([MERGED, FLUSHED], key, 0, 1) == FindBetween([MERGED, FLUSHED], key, 0, 0) == 0;
    assert FindBetween([MERGED, FLUSHED], key, 0, 2) == 0;
    assert FileFor([MERGED, FLUSHED], 3.0, 5) == [MERGED];
    assert MERGED.entries == [Val(1.0, 3), Val(5.0, 4)] && MERGED.entries[1..] == [Val(5.0, 4)];
    assert Seek(MERGED.entries, key) == 1;
    assert [MERGED][1..] == [];
  }

  lemma {:induction false} NoLevelKnows(v: Version, l: nat, k: UserKey, s: SequenceNumber)
    requires l <= NUM_LEVELS && forall m | l <= m < NUM_LEVELS :: FirstHit(Candidates(v[m], m, k, s), k, s) == None
    ensures SearchFrom(v, l, k, s) == None
    decreases NUM_LEVELS - l
  {
    if l < NUM_LEVELS {
      NoLevelKnows(v, l + 1, k, s);
    }
  }

  lemma LastWriteIsRead(h: seq<Entry>, e: Entry)
    requires e.key.kind.Value?
    ensures Lookup(h + [e], e.key.user, e.key.sequence) == Some(e.value)
  {
    assert (h + [e])[..|h|] == h;
  }
}
