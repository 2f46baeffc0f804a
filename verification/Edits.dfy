/**
  Version edits and the level invariant: a flush, a trivial move and a compaction install each turn
  a good version into a good one, and the sets of entries they leave readable (db/version_set.cc, db/db_impl.cc).
*/
module Edits {
  import opened Base
  import opened DbFormat
  import opened Reads
  import opened Versions
  import opened Picking
  import opened CompactionPicking
  import opened DropRules

  type Placed = (nat, FileMeta)

  /** The order Builder keeps a level in: by smallest key, ties by file number. */
  predicate BySmallest(files: Level) {
    forall i, j | 0 <= i < j < |files| ::
      || Less(files[i].smallest, files[j].smallest)
      || (files[i].smallest == files[j].smallest && files[i].number < files[j].number)
  }

  /** `w` is `v` without the files `gone` and with the files `added`, each level in Builder's order. */
  ghost predicate Edited(v: Version, gone: set<Placed>, added: set<Placed>, w: Version) {
    && (forall l, f | 0 <= l < NUM_LEVELS :: f in w[l] <==> (f in v[l] && (l, f) !in gone) || (l, f) in added)
    && (forall l | 0 <= l < NUM_LEVELS :: BySmallest(w[l]) && NumbersDistinct(w[l]))
  }

  predicate Apart(f: FileMeta, g: FileMeta) {
    Less(f.largest, g.smallest) || Less(g.largest, f.smallest)
  }

  /** A level in Builder's order is sorted and disjoint exactly when its files are pairwise apart. */
  lemma DisjointIffApart(files: Level)
    requires forall f | f in files :: FileOk(f)
    requires BySmallest(files) && NumbersDistinct(files)
    ensures Disjoint(files) <==> forall f, g | f in files && g in files && f != g :: Apart(f, g)
  {
    forall i, j | 0 <= i < j < |files| && Apart(files[i], files[j])
      ensures Less(files[i].largest, files[j].smallest)
    {
      var f, g := files[i], files[j];
      assert f in files && g in files;
      EntryBounds(f, f.entries[0]);
      EntryBounds(g, g.entries[0]);
      LessIsTotalOrder(g.smallest, g.largest, f.smallest);
    }
  }

  ghost predicate EntriesNewer(f: FileMeta, S: set<Entry>) {
    forall d, e | d in f.entries && e in S && d.key.user == e.key.user :: d.key.sequence > e.key.sequence
  }

  lemma NewerThanFile(f: FileMeta, v: Version, l: nat, g: FileMeta)
    requires l < NUM_LEVELS && g in v[l] && EntriesNewer(f, VersionEntries(v))
    ensures Newer(f, g)
  {
    forall e | e in g.entries
      ensures e in VersionEntries(v)
    {
      assert e in LevelEntries(v[l]);
    }
  }

  lemma InVersion(v: Version, e: Entry) returns (l: nat, f: FileMeta)
    requires e in VersionEntries(v)
    ensures l < NUM_LEVELS && f in v[l] && e in f.entries
  {
    l :| l < NUM_LEVELS && e in LevelEntries(v[l]);
    f :| f in v[l] && e in f.entries;
  }

  lemma FileInVersion(v: Version, l: nat, f: FileMeta, e: Entry)
    requires l < NUM_LEVELS && f in v[l] && e in f.entries
    ensures e in VersionEntries(v)
  {
    assert e in LevelEntries(v[l]);
  }

  // ---------------------------------------------------------------- flush

  /** Where a flushed file may go: level 0, or as deep as neither that level nor any above it meets its range. */
  predicate FlushFits(v: Version, level: nat, lo: UserKey, hi: UserKey) {
    && level <= MAX_MEM_COMPACT_LEVEL
    && (level > 0 ==> forall l, f | 0 <= l <= level && f in v[l] :: !Overlaps(f, Some(lo), Some(hi)))
  }

  /** A memtable's range may sink from level `l` to the next: it meets nothing there and not too much below that. */
  predicate MaySink(v: Version, l: nat, lo: UserKey, hi: UserKey, maxFileSize: nat)
    requires l + 2 < NUM_LEVELS
  {
    && (forall f | f in v[l + 1] :: !Overlaps(f, Some(lo), Some(hi)))
    && TotalSize(OverlapFilter(v[l + 2], Some(lo), Some(hi))) <= 10 * maxFileSize
  }

  /** The level for a flushed file: 0 if level 0 meets its range, else as deep as it may sink, but at most to level 2. */
  predicate IsFlushLevel(v: Version, level: nat, lo: UserKey, hi: UserKey, maxFileSize: nat) {
    && level <= MAX_MEM_COMPACT_LEVEL
    && if exists f | f in v[0] :: Overlaps(f, Some(lo), Some(hi)) then level == 0
       else (forall l | 0 <= l < level :: MaySink(v, l, lo, hi, maxFileSize))
            && (level < MAX_MEM_COMPACT_LEVEL ==> !MaySink(v, level, lo, hi, maxFileSize))
  }

  /** The file then meets nothing at its level or above it. */
  lemma FlushLevelFits(v: Version, level: nat, lo: UserKey, hi: UserKey, maxFileSize: nat)
    requires IsFlushLevel(v, level, lo, hi, maxFileSize)
    ensures FlushFits(v, level, lo, hi)
  {
    forall l, f | level > 0 && 0 < l <= level && f in v[l]
      ensures !Overlaps(f, Some(lo), Some(hi))
    {
      assert MaySink(v, l - 1, lo, hi, maxFileSize);
    }
  }

  method PickLevelForMemTableOutput(v: Version, lo: UserKey, hi: UserKey, maxFileSize: nat) returns (level: nat)
    requires VersionOk(v)
    ensures IsFlushLevel(v, level, lo, hi, maxFileSize)
    ensures FlushFits(v, level, lo, hi)
  {
    level := 0;
    LevelFacts(v, 0);
    var overlap0 := SomeFileOverlapsRange(false, v[0], Some(lo), Some(hi));
    if !overlap0 {
      while level < MAX_MEM_COMPACT_LEVEL
        invariant level <= MAX_MEM_COMPACT_LEVEL
        invariant forall l | 0 <= l < level :: MaySink(v, l, lo, hi, maxFileSize)
      {
        var sinks := SinksFurther(v, level, lo, hi, maxFileSize);
        if !sinks {
          break;
        }
        level := level + 1;
      }
    }
    FlushLevelFits(v, level, lo, hi, maxFileSize);
  }

  method SinksFurther(v: Version, level: nat, lo: UserKey, hi: UserKey, maxFileSize: nat) returns (sinks: bool)
    requires VersionOk(v) && level < MAX_MEM_COMPACT_LEVEL
    ensures sinks == MaySink(v, level, lo, hi, maxFileSize)
  {
    LevelFacts(v, level + 1);
    var overlap := SomeFileOverlapsRange(true, v[level + 1], Some(lo), Some(hi));
    if overlap {
      return false;
    }
    LevelFacts(v, level + 2);
    var start := LookupKey(lo, MAX_SEQUENCE);
    var limit := InternalKey(hi, 0, Deletion);
    var overlaps, _, _ := GetOverlappingInputs(v, level + 2, Some(start), Some(limit));
    var sum := TotalFileSize(overlaps);
    sinks := sum <= 10 * maxFileSize;
  }

  lemma FlushEntries(v: Version, level: nat, f: FileMeta, w: Version)
    requires level < NUM_LEVELS && Edited(v, {}, {(level, f)}, w)
    ensures VersionEntries(w) == VersionEntries(v) + Elems(f.entries)
  {
    forall e | e in VersionEntries(w)
      ensures e in VersionEntries(v) + Elems(f.entries)
    {
      var l, g := InVersion(w, e);
      if (l, g) != (level, f) {
        FileInVersion(v, l, g, e);
      }
    }
    forall e | e in VersionEntries(v) + Elems(f.entries)
      ensures e in VersionEntries(w)
    {
      if e in VersionEntries(v) {
        var l, g := InVersion(v, e);
        FileInVersion(w, l, g, e);
      } else {
        FileInVersion(w, level, f, e);
      }
    }
  }

  lemma FlushKeepsVersionOk(v: Version, level: nat, f: FileMeta, w: Version)
    requires VersionOk(v) && level < NUM_LEVELS && Edited(v, {}, {(level, f)}, w)
    requires FileOk(f) && FlushFits(v, level, f.smallest.user, f.largest.user)
    requires EntriesNewer(f, VersionEntries(v))
    requires forall g | g in v[0] :: g.number < f.number
    requires UniqueSeqs(VersionEntries(v) + Elems(f.entries))
    ensures VersionOk(w)
  {
    FlushEntries(v, level, f, w);
    forall l | 0 <= l < NUM_LEVELS
      ensures LevelOk(w, l)
    {
      FlushKeepsLevel(v, level, f, w, l);
    }
    forall l, m, g, h | 0 <= l < m < NUM_LEVELS && g in w[l] && h in w[m]
      ensures Newer(g, h)
    {
      if (l, g) == (level, f) {
        NewerThanFile(f, v, m, h);
      } else if (m, h) == (level, f) {
        LevelFacts(v, l);
        assert !Overlaps(g, Some(f.smallest.user), Some(f.largest.user));
        ApartIsNewer(g, f);
      }
    }
  }

  lemma FlushKeepsLevel(v: Version, level: nat, f: FileMeta, w: Version, l: nat)
    requires VersionOk(v) && level < NUM_LEVELS && Edited(v, {}, {(level, f)}, w)
    requires FileOk(f) && FlushFits(v, level, f.smallest.user, f.largest.user)
    requires EntriesNewer(f, VersionEntries(v))
    requires forall g | g in v[0] :: g.number < f.number
    requires l < NUM_LEVELS
    ensures LevelOk(w, l)
  {
    LevelFacts(v, l);
    assert LevelOk(v, l);
    assert forall g | g in w[l] :: FileOk(g);
    assert BySmallest(w[l]);
    if l == 0 {
      forall g, h | g in w[0] && h in w[0] && g.number > h.number
        ensures Newer(g, h)
      {
        if (0, g) == (level, f) && h in v[0] {
          NewerThanFile(f, v, 0, h);
        }
      }
    } else {
      FlushedLevelDisjoint(v[l], w[l], f, l == level);
    }
  }

  lemma FlushedLevelDisjoint(files: Level, files': Level, f: FileMeta, here: bool)
    requires (forall g | g in files :: FileOk(g)) && Disjoint(files) && NumbersDistinct(files) && FileOk(f)
    requires BySmallest(files') && NumbersDistinct(files')
    requires forall g :: g in files' <==> g in files || (here && g == f)
    requires here ==> forall g | g in files :: !Overlaps(g, Some(f.smallest.user), Some(f.largest.user))
    ensures Disjoint(files')
  {
    DisjointIsOrdered(files);
    DisjointIffApart(files);
    forall g, h | g in files' && h in files' && g != h
      ensures Apart(g, h)
    {
      if here && (g == f || h == f) {
        assert !Overlaps(if g == f then h else g, Some(f.smallest.user), Some(f.largest.user));
      }
    }
    DisjointIffApart(files');
  }

  lemma DisjointIsOrdered(files: Level)
    requires forall f | f in files :: FileOk(f)
    requires Disjoint(files)
    ensures BySmallest(files)
  {
    forall i, j | 0 <= i < j < |files|
      ensures Less(files[i].smallest, files[j].smallest)
    {
      LargestIncreases(files, i, j);
    }
  }

  // ---------------------------------------------------------------- compaction install

  ghost function Placing(level: nat, files: Level): set<Placed> {
    set f | f in files :: (level, f)
  }

  ghost function Taken(level: nat, in0: Level, in1: Level): set<Placed> {
    Placing(level, in0) + Placing(level + 1, in1)
  }

  ghost function InputEntries(in0: Level, in1: Level): set<Entry> {
    LevelEntries(in0) + LevelEntries(in1)
  }

  /** What a version holds outside the compaction's inputs. */
  ghost function RestEntries(v: Version, level: nat, in0: Level, in1: Level): set<Entry> {
    set l, f, e | 0 <= l < NUM_LEVELS && f in v[l] && (l, f) !in Taken(level, in0, in1) && e in f.entries :: e
  }

  lemma RestAndInputs(v: Version, level: nat, in0: Level, in1: Level)
    requires level + 1 < NUM_LEVELS
    requires (forall f | f in in0 :: f in v[level]) && (forall f | f in in1 :: f in v[level + 1])
    ensures VersionEntries(v) == RestEntries(v, level, in0, in1) + InputEntries(in0, in1)
  {
    forall e | e in VersionEntries(v)
      ensures e in RestEntries(v, level, in0, in1) + InputEntries(in0, in1)
    {
      var l, f := InVersion(v, e);
      if (l, f) in Taken(level, in0, in1) {
        assert f in in0 || f in in1;
      }
    }
    forall e | e in InputEntries(in0, in1)
      ensures e in VersionEntries(v)
    {
      if f :| f in in0 && e in f.entries {
        FileInVersion(v, level, f, e);
      } else {
        var f :| f in in1 && e in f.entries;
        FileInVersion(v, level + 1, f, e);
      }
    }
    forall e | e in RestEntries(v, level, in0, in1)
      ensures e in VersionEntries(v)
    {
      var l, f :| 0 <= l < NUM_LEVELS && f in v[l] && (l, f) !in Taken(level, in0, in1) && e in f.entries;
      FileInVersion(v, l, f, e);
    }
  }

  /**
    `w` is `base` with nothing removed and only files added whose entries are newer than all of `base`,
    each placed no deeper than the files of `base` it meets.
  */
  ghost predicate FlushedSince(base: Version, w: Version) {
    && (forall l, f | 0 <= l < NUM_LEVELS && f in base[l] :: f in w[l])
    && (forall l, f | 0 <= l < NUM_LEVELS && f in w[l] && f !in base[l] :: EntriesNewer(f, VersionEntries(base)))
    && (forall l, f | 0 < l < NUM_LEVELS && f in w[l] && f !in base[l] :: MeetsNoneAbove(base, l, f))
  }

  ghost predicate MeetsNoneAbove(base: Version, l: nat, f: FileMeta)
    requires l < NUM_LEVELS
  {
    forall m, g | 0 <= m <= l && g in base[m] :: !RangesMeet(g, f)
  }

  lemma InstallEntries(w: Version, level: nat, in0: Level, in1: Level, outs: Level, w': Version)
    requires level + 1 < NUM_LEVELS
    requires Edited(w, Taken(level, in0, in1), Placing(level + 1, outs), w')
    ensures VersionEntries(w') == RestEntries(w, level, in0, in1) + LevelEntries(outs)
  {
    forall e | e in VersionEntries(w')
      ensures e in RestEntries(w, level, in0, in1) + LevelEntries(outs)
    {
      var l, f := InVersion(w', e);
    }
    forall e | e in RestEntries(w, level, in0, in1) + LevelEntries(outs)
      ensures e in VersionEntries(w')
    {
      if f :| f in outs && e in f.entries {
        assert (level + 1, f) in Placing(level + 1, outs);
        FileInVersion(w', level + 1, f, e);
      } else {
        var l, f :| 0 <= l < NUM_LEVELS && f in w[l] && (l, f) !in Taken(level, in0, in1) && e in f.entries;
        FileInVersion(w', l, f, e);
      }
    }
  }

  /** A next-level file that was not picked lies entirely before or entirely after every input. */
  lemma OutsideHull(v: Version, level: nat, in0: Level, in1: Level, g: FileMeta)
    requires VersionOk(v) && ValidPick(v, level, in0, in1)
    requires g in v[level + 1] && g !in in1
    ensures (forall x | x in in0 + in1 :: Less(g.largest, x.smallest))
         || (forall x | x in in0 + in1 :: Less(x.largest, g.smallest))
  {
    LevelFacts(v, level);
    LevelFacts(v, level + 1);
    SmallestKeyBounds(in0);
    LargestKeyBounds(in0);
    assert !Overlaps(g, Some(SmallestKey(in0).user), Some(LargestKey(in0).user));
    DisjointIsOrdered(v[level + 1]);
    DisjointIffApart(v[level + 1]);
    if g.largest.user < SmallestKey(in0).user {
      forall x | x in in0 + in1
        ensures Less(g.largest, x.smallest)
      {
        if x in in0 {
          assert !Less(x.smallest, SmallestKey(in0));
        } else {
          assert Apart(g, x);
        }
      }
    } else {
      forall x | x in in0 + in1
        ensures Less(x.largest, g.smallest)
      {
        if x in in0 {
          assert !Less(LargestKey(in0), x.largest);
        } else {
          assert Apart(g, x);
        }
      }
    }
  }

  /** Output files hold input entries only, and are in order. */
  ghost predicate OutputsOk(in0: Level, in1: Level, outs: Level) {
    && (forall o | o in outs :: FileOk(o))
    && Disjoint(outs)
    && LevelEntries(outs) <= InputEntries(in0, in1)
  }

  /** No file flushed to the target level during the compaction touches the range of an output. */
  ghost predicate FlushesApart(base: Version, w: Version, level: nat, outs: Level)
    requires level + 1 < NUM_LEVELS
  {
    forall g, o | g in w[level + 1] && g !in base[level + 1] && o in outs :: Apart(g, o)
  }

  lemma OutputApartFromRest(base: Version, level: nat, in0: Level, in1: Level, outs: Level, o: FileMeta, g: FileMeta)
    requires VersionOk(base) && ValidPick(base, level, in0, in1) && OutputsOk(in0, in1, outs)
    requires o in outs && g in base[level + 1] && g !in in1
    ensures Apart(o, g)
  {
    OutsideHull(base, level, in0, in1, g);
    var first, last := o.entries[0], o.entries[|o.entries| - 1];
    assert first in o.entries && last in o.entries;
    var x := OutputEntryIsInput(in0, in1, outs, o, first);
    var y := OutputEntryIsInput(in0, in1, outs, o, last);
    InputIsOk(base, level, in0, in1, x);
    InputIsOk(base, level, in0, in1, y);
    EntryBounds(x, first);
    EntryBounds(y, last);
    assert x in in0 + in1 && y in in0 + in1;
    LessIsTotalOrder(g.largest, x.smallest, first.key);
    LessIsTotalOrder(last.key, y.largest, g.smallest);
  }

  lemma InputIsOk(v: Version, level: nat, in0: Level, in1: Level, x: FileMeta)
    requires VersionOk(v) && ValidPick(v, level, in0, in1)
    requires x in in0 || x in in1
    ensures FileOk(x)
  {
    LevelFacts(v, level);
    LevelFacts(v, level + 1);
  }

  /**
    Inputs that leave no gap keep interleaved flushes clear of the outputs: a file that fits at the
    target level meets no input, so it cannot lie inside their hull.
  */
  lemma CoveredKeepsFlushesApart(base: Version, w: Version, level: nat, in0: Level, in1: Level, outs: Level)
    requires VersionOk(base) && VersionOk(w) && FlushedSince(base, w)
    requires ValidPick(base, level, in0, in1) && OutputsOk(in0, in1, outs)
    requires CoveredBy(in0 + in1)
    ensures FlushesApart(base, w, level, outs)
  {
    forall g, o | g in w[level + 1] && g !in base[level + 1] && o in outs
      ensures Apart(g, o)
    {
      LevelFacts(w, level + 1);
      OutputInHull(base, level, in0, in1, outs, o);
      assert MeetsNoneAbove(base, level + 1, g);
      var k := if g.smallest.user < o.smallest.user then o.smallest.user else g.smallest.user;
      if RangesMeet(g, o) {
        assert CoversKey(in0 + in1, k);
        var f :| f in in0 + in1 && f.smallest.user <= k <= f.largest.user;
        assert f in base[level] || f in base[level + 1];
        assert RangesMeet(f, g);
      }
    }
  }

  lemma OutputInHull(base: Version, level: nat, in0: Level, in1: Level, outs: Level, o: FileMeta)
    requires VersionOk(base) && ValidPick(base, level, in0, in1) && OutputsOk(in0, in1, outs) && o in outs
    ensures SmallestKey(in0 + in1).user <= o.smallest.user <= o.largest.user <= LargestKey(in0 + in1).user
  {
    var first, last := o.entries[0], o.entries[|o.entries| - 1];
    assert first in o.entries && last in o.entries;
    EntryBounds(o, first);
    OutputEntryInHull(base, level, in0, in1, outs, o, first);
    OutputEntryInHull(base, level, in0, in1, outs, o, last);
  }

  lemma OutputEntryInHull(base: Version, level: nat, in0: Level, in1: Level, outs: Level, o: FileMeta, e: Entry)
    requires VersionOk(base) && ValidPick(base, level, in0, in1) && OutputsOk(in0, in1, outs) && o in outs && e in o.entries
    ensures SmallestKey(in0 + in1).user <= e.key.user <= LargestKey(in0 + in1).user
  {
    var x := OutputEntryIsInput(in0, in1, outs, o, e);
    InputIsOk(base, level, in0, in1, x);
    EntryBounds(x, e);
    InHull(in0 + in1, x);
  }

  lemma InHull(files: Level, x: FileMeta)
    requires x in files
    ensures SmallestKey(files).user <= x.smallest.user && x.largest.user <= LargestKey(files).user
  {
    SmallestKeyBounds(files);
    LargestKeyBounds(files);
  }

  /** The target level stays sorted and disjoint if and only if interleaved flushes kept clear of the outputs. */
  lemma InstallDisjointIff(base: Version, w: Version, level: nat, in0: Level, in1: Level, outs: Level, w': Version)
    requires VersionOk(base) && VersionOk(w) && FlushedSince(base, w)
    requires ValidPick(base, level, in0, in1) && OutputsOk(in0, in1, outs)
    requires Edited(w, Taken(level, in0, in1), Placing(level + 1, outs), w')
    requires forall o | o in outs :: o !in w[level + 1]
    ensures Disjoint(w'[level + 1]) <==> FlushesApart(base, w, level, outs)
  {
    LevelFacts(w, level + 1);
    TargetFiles(w, level, in0, in1, outs, w');
    DisjointIffApart(w'[level + 1]);
    if FlushesApart(base, w, level, outs) {
      forall f, g | f in w'[level + 1] && g in w'[level + 1] && f != g
        ensures Apart(f, g)
      {
        TargetFilesApart(base, w, level, in0, in1, outs, f, g);
      }
    } else {
      var g, o :| g in w[level + 1] && g !in base[level + 1] && o in outs && !Apart(g, o);
      PickedFromBase(base, level, in0, in1, g);
      assert g in w'[level + 1] && o in w'[level + 1];
    }
  }

  lemma TargetFiles(w: Version, level: nat, in0: Level, in1: Level, outs: Level, w': Version)
    requires level + 1 < NUM_LEVELS && Edited(w, Taken(level, in0, in1), Placing(level + 1, outs), w')
    ensures forall f :: f in w'[level + 1] <==> f in outs || (f in w[level + 1] && f !in in1)
  {
    assert forall o | o in outs :: (level + 1, o) in Placing(level + 1, outs);
  }

  lemma TargetFilesApart(base: Version, w: Version, level: nat, in0: Level, in1: Level, outs: Level, f: FileMeta, g: FileMeta)
    requires VersionOk(base) && VersionOk(w)
    requires ValidPick(base, level, in0, in1) && OutputsOk(in0, in1, outs)
    requires FlushesApart(base, w, level, outs)
    requires f in outs || (f in w[level + 1] && f !in in1)
    requires g in outs || (g in w[level + 1] && g !in in1)
    requires f != g
    ensures Apart(f, g)
  {
    if f in outs && g in outs {
      OutputsApart(outs, f, g);
    } else if f in outs {
      OutputApart(base, w, level, in0, in1, outs, f, g);
    } else if g in outs {
      OutputApart(base, w, level, in0, in1, outs, g, f);
    } else {
      LevelFacts(w, level + 1);
      DisjointIsOrdered(w[level + 1]);
      DisjointIffApart(w[level + 1]);
    }
  }

  lemma PickedFromBase(base: Version, level: nat, in0: Level, in1: Level, g: FileMeta)
    requires ValidPick(base, level, in0, in1)
    ensures g in in1 ==> g in base[level + 1]
    ensures g in in0 ==> g in base[level]
  {
  }

  lemma OutputsApart(outs: Level, f: FileMeta, g: FileMeta)
    requires Disjoint(outs) && f in outs && g in outs && f != g
    ensures Apart(f, g)
  {
    var i :| 0 <= i < |outs| && outs[i] == f;
    var j :| 0 <= j < |outs| && outs[j] == g;
    assert i < j || j < i;
  }

  lemma OutputApart(base: Version, w: Version, level: nat, in0: Level, in1: Level, outs: Level, o: FileMeta, g: FileMeta)
    requires VersionOk(base) && ValidPick(base, level, in0, in1) && OutputsOk(in0, in1, outs)
    requires FlushesApart(base, w, level, outs)
    requires o in outs && g in w[level + 1] && g !in in1
    ensures Apart(o, g)
  {
    if g in base[level + 1] {
      OutputApartFromRest(base, level, in0, in1, outs, o, g);
    } else {
      assert Apart(g, o);
    }
  }

  lemma InstallKeepsVersionOk(base: Version, w: Version, level: nat, in0: Level, in1: Level, outs: Level, w': Version)
    requires VersionOk(base) && VersionOk(w) && FlushedSince(base, w)
    requires ValidPick(base, level, in0, in1) && OutputsOk(in0, in1, outs)
    requires Edited(w, Taken(level, in0, in1), Placing(level + 1, outs), w')
    requires forall o | o in outs :: o !in w[level + 1]
    requires FlushesApart(base, w, level, outs)
    ensures VersionOk(w')
  {
    InstallDisjointIff(base, w, level, in0, in1, outs, w');
    forall l | 0 <= l < NUM_LEVELS
      ensures LevelOk(w', l)
    {
      InstallKeepsLevel(base, w, level, in0, in1, outs, w', l);
    }
    forall l, m, f, g | 0 <= l < m < NUM_LEVELS && f in w'[l] && g in w'[m]
      ensures Newer(f, g)
    {
      if f in w[l] && (l, f) !in Taken(level, in0, in1) {
        if g in w[m] && (m, g) !in Taken(level, in0, in1) {
        } else {
          RestNewerThanOutput(base, w, level, in0, in1, outs, l, f, g);
        }
      } else {
        OutputNewerThanDeeper(base, w, level, in0, in1, outs, m, f, g);
      }
    }
    InstallEntries(w, level, in0, in1, outs, w');
    InputsInVersion(base, w, level, in0, in1);
    RestAndInputs(w, level, in0, in1);
  }

  lemma InputsInVersion(base: Version, w: Version, level: nat, in0: Level, in1: Level)
    requires FlushedSince(base, w) && ValidPick(base, level, in0, in1)
    ensures (forall f | f in in0 :: f in w[level]) && (forall f | f in in1 :: f in w[level + 1])
  {
  }

  lemma InstallKeepsLevel(base: Version, w: Version, level: nat, in0: Level, in1: Level, outs: Level, w': Version, l: nat)
    requires VersionOk(w) && level + 1 < NUM_LEVELS
    requires OutputsOk(in0, in1, outs)
    requires Edited(w, Taken(level, in0, in1), Placing(level + 1, outs), w')
    requires Disjoint(w'[level + 1])
    requires l < NUM_LEVELS
    ensures LevelOk(w', l)
  {
    LevelFacts(w, l);
    assert LevelOk(w, l);
    assert BySmallest(w'[l]);
    if l != level + 1 {
      assert forall f | f in w'[l] :: f in w[l];
      if l > 0 {
        DisjointIsOrdered(w[l]);
        DisjointIffApart(w[l]);
        DisjointIffApart(w'[l]);
      }
    }
  }

  lemma OutputEntryIsInput(in0: Level, in1: Level, outs: Level, o: FileMeta, e: Entry) returns (x: FileMeta)
    requires OutputsOk(in0, in1, outs) && o in outs && e in o.entries
    ensures (x in in0 || x in in1) && e in x.entries
  {
    assert e in LevelEntries(outs);
    x :| (x in in0 || x in in1) && e in x.entries;
  }

  lemma RestNewerThanOutput(base: Version, w: Version, level: nat, in0: Level, in1: Level, outs: Level,
                            l: nat, f: FileMeta, o: FileMeta)
    requires VersionOk(base) && VersionOk(w) && FlushedSince(base, w)
    requires ValidPick(base, level, in0, in1) && OutputsOk(in0, in1, outs)
    requires l <= level && f in w[l] && (l, f) !in Taken(level, in0, in1) && o in outs
    ensures Newer(f, o)
  {
    forall d, e | d in f.entries && e in o.entries && d.key.user == e.key.user
      ensures d.key.sequence > e.key.sequence
    {
      var x := OutputEntryIsInput(in0, in1, outs, o, e);
      if x in in1 {
        assert x in w[level + 1] && Newer(f, x);
      } else if l < level {
        assert x in w[level] && Newer(f, x);
      } else if f in base[level] {
        assert (level, f) !in Placing(level, in0);
        RemainderIsNewer(base, level, in0, in1, f, x);
      } else {
        FileInVersion(base, level, x, e);
        assert EntriesNewer(f, VersionEntries(base));
      }
    }
  }

  lemma OutputNewerThanDeeper(base: Version, w: Version, level: nat, in0: Level, in1: Level, outs: Level,
                              m: nat, o: FileMeta, g: FileMeta)
    requires VersionOk(w) && FlushedSince(base, w)
    requires ValidPick(base, level, in0, in1) && OutputsOk(in0, in1, outs)
    requires level + 1 < m < NUM_LEVELS && g in w[m] && o in outs
    ensures Newer(o, g)
  {
    forall d, e | d in o.entries && e in g.entries && d.key.user == e.key.user
      ensures d.key.sequence > e.key.sequence
    {
      var x := OutputEntryIsInput(in0, in1, outs, o, d);
      if x in in1 {
        assert x in w[level + 1] && Newer(x, g);
      } else {
        assert x in w[level] && Newer(x, g);
      }
    }
  }

  // ---------------------------------------------------------------- trivial move

  /** Moving the only input down one level, when nothing at the next level meets it, is an install of that file itself. */
  lemma MoveKeepsVersionOk(v: Version, level: nat, f: FileMeta, w: Version)
    requires VersionOk(v) && ValidPick(v, level, [f], [])
    requires Edited(v, {(level, f)}, {(level + 1, f)}, w)
    ensures VersionOk(w) && VersionEntries(w) == VersionEntries(v)
  {
    assert f in [f] && [f][0] == f;
    LevelFacts(v, level);
    assert Taken(level, [f], []) == {(level, f)};
    assert Placing(level + 1, [f]) == {(level + 1, f)};
    assert LevelEntries([f]) == InputEntries([f], []);
    assert OutputsOk([f], [], [f]);
    EntryBounds(f, f.entries[0]);
    assert Overlaps(f, Some(SmallestKey([f]).user), Some(LargestKey([f]).user));
    assert f !in v[level + 1];
    InstallKeepsVersionOk(v, v, level, [f], [], [f], w);
    InstallEntries(v, level, [f], [], [f], w);
    RestAndInputs(v, level, [f], []);
  }

  // ---------------------------------------------------------------- the boundary guard

  /**
    Guard G1: no unpicked next-level file begins with the user key that ends the last picked one.
    SetupOtherInputs closes only the upper level this way.
  */
  ghost predicate NextLevelClosed(v: Version, level: nat, in1: Level)
    requires level + 1 < NUM_LEVELS
  {
    in1 != [] ==> NoBoundary(v[level + 1], LargestKey(in1))
  }

  /** An entry left behind that is older than an input entry of its key sits in such an unpicked next-level file, or below. */
  lemma OlderRestIsBoundary(v: Version, level: nat, in0: Level, in1: Level, t: Entry, g: Entry, l: nat, f: FileMeta)
    requires VersionOk(v) && ValidPick(v, level, in0, in1)
    requires t in InputEntries(in0, in1) && g.key.user == t.key.user && g.key.sequence < t.key.sequence
    requires l < NUM_LEVELS && f in v[l] && (l, f) !in Taken(level, in0, in1) && g in f.entries
    ensures l > level
    ensures l == level + 1 ==> in1 != [] && IsBoundary(f, LargestKey(in1))
  {
    var x :| (x in in0 || x in in1) && t in x.entries;
    var m := if x in in0 then level else level + 1;
    assert x in v[m];
    if l == level && x in in0 {
      assert (level, f) !in Placing(level, in0);
      RemainderIsNewer(v, level, in0, in1, f, x);
    } else if l == level + 1 {
      assert (level + 1, f) !in Placing(level + 1, in1);
      UnpickedSharesKey(v, level, in0, in1, x, f, t, g);
    } else if l < m {
      ShallowerIsNewer(v, l, f, m, x);
    }
  }

  lemma ShallowerIsNewer(v: Version, l: nat, f: FileMeta, m: nat, g: FileMeta)
    requires Layered(v) && l < m < NUM_LEVELS && f in v[l] && g in v[m]
    ensures Newer(f, g)
  {
  }

  lemma UnpickedSharesKey(v: Version, level: nat, in0: Level, in1: Level, x: FileMeta, f: FileMeta, t: Entry, g: Entry)
    requires VersionOk(v) && ValidPick(v, level, in0, in1)
    requires (x in in0 || x in in1) && t in x.entries
    requires f in v[level + 1] && f !in in1 && g in f.entries
    requires g.key.user == t.key.user && g.key.sequence < t.key.sequence
    ensures in1 != [] && IsBoundary(f, LargestKey(in1))
  {
    LevelFacts(v, level);
    LevelFacts(v, level + 1);
    OutsideHull(v, level, in0, in1, f);
    EntryBounds(x, t);
    EntryBounds(f, g);
    assert x in in0 + in1;
    LessIsTotalOrder(g.key, f.largest, x.smallest);
    LessIsTotalOrder(g.key, x.smallest, t.key);
    assert Less(x.largest, f.smallest);
    SmallestKeyBounds(in0);
    LargestKeyBounds(in0);
    assert x in in1;
    LargestKeyBounds(in1);
    var top :| top in in1 && top.largest == LargestKey(in1);
    assert top in in0 + in1;
    assert Less(top.largest, f.smallest);
  }

  /** Under the boundary guard no dropped deletion can bring an older value back. */
  lemma ClosedNeverResurrects(v: Version, level: nat, in0: Level, in1: Level, ss: SequenceNumber, k: UserKey)
    requires VersionOk(v) && ValidPick(v, level, in0, in1)
    requires NextLevelClosed(v, level, in1)
    ensures !Resurrects(RestEntries(v, level, in0, in1), InputEntries(in0, in1), ss, v, level, k)
  {
    var rest, inputs := RestEntries(v, level, in0, in1), InputEntries(in0, in1);
    if Resurrects(rest, inputs, ss, v, level, k) {
      var t := Newest(rest + inputs, k, ss).value;
      var g := Newest(rest, k, t.key.sequence).value;
      RestAndInputs(v, level, in0, in1);
      assert g != t && g in VersionEntries(v) && t in VersionEntries(v);
      assert g.key.sequence < t.key.sequence;
      var l, f :| 0 <= l < NUM_LEVELS && f in v[l] && (l, f) !in Taken(level, in0, in1) && g in f.entries;
      OlderRestIsBoundary(v, level, in0, in1, t, g, l, f);
      LevelFacts(v, l);
      EntryBounds(f, g);
    }
  }

  /** Files flushed while a compaction runs cannot make one of its drops harmful: they hold only newer entries. */
  lemma FlushDoesNotExpose(base: Version, w: Version, level: nat, in0: Level, in1: Level, ss: SequenceNumber, k: UserKey)
    requires VersionOk(base) && VersionOk(w) && FlushedSince(base, w) && ValidPick(base, level, in0, in1)
    requires !Resurrects(RestEntries(base, level, in0, in1), InputEntries(in0, in1), ss, base, level, k)
    ensures !Resurrects(RestEntries(w, level, in0, in1), InputEntries(in0, in1), ss, base, level, k)
  {
    var rest, rest', inputs := RestEntries(base, level, in0, in1), RestEntries(w, level, in0, in1), InputEntries(in0, in1);
    RestAndInputs(base, level, in0, in1);
    InputsInVersion(base, w, level, in0, in1);
    RestAndInputs(w, level, in0, in1);
    if Resurrects(rest', inputs, ss, base, level, k) {
      var t := Newest(rest' + inputs, k, ss).value;
      RestGrows(base, w, level, in0, in1);
      assert IsNewest(rest + inputs, k, ss, t);
      NewestIs(rest + inputs, k, ss, t);
      NewestIsNone(rest, k, t.key.sequence);
      var g := Newest(rest', k, t.key.sequence).value;
      assert g in rest;
      assert IsNewest(rest, k, t.key.sequence, g);
      NewestIs(rest, k, t.key.sequence, g);
    }
  }

  lemma RestGrows(base: Version, w: Version, level: nat, in0: Level, in1: Level)
    requires FlushedSince(base, w) && ValidPick(base, level, in0, in1)
    ensures RestEntries(base, level, in0, in1) <= RestEntries(w, level, in0, in1)
    ensures forall d, e | d in RestEntries(w, level, in0, in1) && d !in RestEntries(base, level, in0, in1)
              && e in InputEntries(in0, in1) && d.key.user == e.key.user :: d.key.sequence > e.key.sequence
  {
    RestAndInputs(base, level, in0, in1);
    forall d, e | d in RestEntries(w, level, in0, in1) && d !in RestEntries(base, level, in0, in1)
      && e in InputEntries(in0, in1) && d.key.user == e.key.user
      ensures d.key.sequence > e.key.sequence
    {
      var l, f :| 0 <= l < NUM_LEVELS && f in w[l] && (l, f) !in Taken(level, in0, in1) && d in f.entries;
      assert f !in base[l];
      assert EntriesNewer(f, VersionEntries(base));
    }
  }
}
