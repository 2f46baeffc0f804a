/**
  Which files a compaction takes from its level and the next one, and the two facts the rest of the
  system needs from that choice: nothing left behind at the level is older than what moves down,
  and no file left at the next level lies inside the hull of what was taken (db/version_set.cc).
*/
module CompactionPicking {
  import opened Base
  import opened DbFormat
  import opened Reads
  import opened Versions
  import opened Picking

  // ---------------------------------------------------------------- key ranges

  function LargestKey(files: Level): InternalKey
    requires files != []
  {
    var n := |files| - 1;
    if n == 0 || Less(LargestKey(files[..n]), files[n].largest) then files[n].largest else LargestKey(files[..n])
  }

  function SmallestKey(files: Level): InternalKey
    requires files != []
  {
    var n := |files| - 1;
    if n == 0 || Less(files[n].smallest, SmallestKey(files[..n])) then files[n].smallest else SmallestKey(files[..n])
  }

  lemma {:induction false} LargestKeyBounds(files: Level)
    requires files != []
    ensures exists f :: f in files && f.largest == LargestKey(files)
    ensures forall f | f in files :: !Less(LargestKey(files), f.largest)
  {
    var n := |files| - 1;
    var front, last := files[..n], files[n];
    assert forall f | f in files :: f in front || f == last;
    assert last in files;
    if n > 0 {
      LargestKeyBounds(front);
      var g :| g in front && g.largest == LargestKey(front);
      assert g in files;
      forall f | f in front
        ensures !Less(LargestKey(files), f.largest)
      {
        LessIsTotalOrder(LargestKey(front), last.largest, f.largest);
      }
    }
  }

  lemma {:induction false} SmallestKeyBounds(files: Level)
    requires files != []
    ensures exists f :: f in files && f.smallest == SmallestKey(files)
    ensures forall f | f in files :: !Less(f.smallest, SmallestKey(files))
  {
    var n := |files| - 1;
    var front, last := files[..n], files[n];
    assert forall f | f in files :: f in front || f == last;
    assert last in files;
    if n > 0 {
      SmallestKeyBounds(front);
      var g :| g in front && g.smallest == SmallestKey(front);
      assert g in files;
      forall f | f in front
        ensures !Less(f.smallest, SmallestKey(files))
      {
        LessIsTotalOrder(f.smallest, last.smallest, SmallestKey(front));
      }
    }
  }

  method GetRange(inputs: Level) returns (smallest: InternalKey, largest: InternalKey)
    requires inputs != []
    ensures smallest == SmallestKey(inputs) && largest == LargestKey(inputs)
  {
    smallest, largest := inputs[0].smallest, inputs[0].largest;
    for i := 1 to |inputs|
      invariant smallest == SmallestKey(inputs[..i]) && largest == LargestKey(inputs[..i])
    {
      var f := inputs[i];
      assert inputs[..i + 1][..i] == inputs[..i];
      if Less(f.smallest, smallest) {
        smallest := f.smallest;
      }
      if Less(largest, f.largest) {
        largest := f.largest;
      }
    }
    assert inputs[..|inputs|] == inputs;
  }

  method GetRange2(inputs1: Level, inputs2: Level) returns (smallest: InternalKey, largest: InternalKey)
    requires inputs1 + inputs2 != []
    ensures smallest == SmallestKey(inputs1 + inputs2) && largest == LargestKey(inputs1 + inputs2)
  {
    smallest, largest := GetRange(inputs1 + inputs2);
  }

  function TotalSize(files: Level): nat {
    if files == [] then 0 else TotalSize(files[..|files| - 1]) + files[|files| - 1].size
  }

  method TotalFileSize(files: Level) returns (sum: nat)
    ensures sum == TotalSize(files)
  {
    sum := 0;
    for i := 0 to |files|
      invariant sum == TotalSize(files[..i])
    {
      assert files[..i + 1][..i] == files[..i];
      sum := sum + files[i].size;
    }
    assert files[..|files|] == files;
  }

  // ---------------------------------------------------------------- boundary files

  /** `f` starts after `key` but with the same user key. */
  predicate IsBoundary(f: FileMeta, key: InternalKey) {
    Less(key, f.smallest) && f.smallest.user == key.user
  }

  method FindSmallestBoundaryFile(levelFiles: Level, largestKey: InternalKey) returns (r: Option<FileMeta>)
    ensures r == None ==> forall f | f in levelFiles :: !IsBoundary(f, largestKey)
    ensures r.Some? ==> r.value in levelFiles && IsBoundary(r.value, largestKey)
    ensures r.Some? ==> forall f | f in levelFiles && IsBoundary(f, largestKey) :: !Less(f.smallest, r.value.smallest)
  {
    r := None;
    for i := 0 to |levelFiles|
      invariant r == None ==> forall f | f in levelFiles[..i] :: !IsBoundary(f, largestKey)
      invariant r.Some? ==> r.value in levelFiles && IsBoundary(r.value, largestKey)
      invariant r.Some? ==> forall f | f in levelFiles[..i] && IsBoundary(f, largestKey) :: !Less(f.smallest, r.value.smallest)
    {
      var f := levelFiles[i];
      assert levelFiles[..i + 1] == levelFiles[..i] + [f];
      if IsBoundary(f, largestKey) {
        if r == None || Less(f.smallest, r.value.smallest) {
          r := Some(f);
        }
      }
    }
    assert levelFiles[..|levelFiles|] == levelFiles;
  }

  function StartsAfter(files: Level, key: InternalKey): nat {
    if files == [] then 0
    else (if Less(key, files[0].smallest) then 1 else 0) + StartsAfter(files[1..], key)
  }

  lemma {:induction false} LaterKeyCountsFewer(files: Level, key: InternalKey, f: FileMeta, key': InternalKey)
    requires Less(key, f.smallest) && !Less(key', f.smallest)
    ensures StartsAfter(files, key') <= StartsAfter(files, key)
    ensures f in files ==> StartsAfter(files, key') < StartsAfter(files, key)
  {
    if files != [] {
      LaterKeyCountsFewer(files[1..], key, f, key');
      assert f in files ==> f == files[0] || f in files[1..];
    }
  }

  /** The files a call of AddBoundaryInputs appended: each one starts after everything before it. */
  ghost predicate Appended(before: Level, after: Level, levelFiles: Level) {
    && |before| <= |after| && after[..|before|] == before
    && (forall i | |before| <= i < |after| :: after[i] in levelFiles)
    && (forall i, j | 0 <= i < j < |after| && |before| <= j :: Less(after[i].largest, after[j].smallest))
  }

  ghost predicate CoversKey(files: Level, k: UserKey) {
    exists f :: f in files && f.smallest.user <= k <= f.largest.user
  }

  /** Every user key between the files' smallest and largest lies in the range of one of them. */
  ghost predicate CoveredBy(files: Level)
    requires files != []
  {
    forall k: UserKey | SmallestKey(files).user <= k <= LargestKey(files).user :: CoversKey(files, k)
  }

  /** Growing `before` to `after` leaves no gap above the old largest key and nothing below the old smallest. */
  ghost predicate GrowsUp(before: Level, after: Level)
    requires before != [] && after != []
  {
    && SmallestKey(after).user == SmallestKey(before).user
    && forall k: UserKey | LargestKey(before).user < k <= LargestKey(after).user :: CoversKey(after, k)
  }

  /**
    Follows the chain of files that begin with the user key the inputs end with.  No file is added
    twice, and afterwards no file of the level starts after the largest key with the same user key.
    Inputs that were the run [a, b) of a sorted level stay a run.
  */
  method AddBoundaryInputs(levelFiles: Level, compactionFiles: Level, ghost a: nat, ghost b: nat) returns (r: Level)
    requires forall f | f in levelFiles :: FileOk(f)
    requires forall f | f in compactionFiles :: f.smallest.user <= f.largest.user
    ensures Appended(compactionFiles, r, levelFiles)
    ensures compactionFiles != [] ==> r != [] && GrowsUp(compactionFiles, r)
    ensures r != [] ==> NoBoundary(levelFiles, LargestKey(r))
    ensures compactionFiles != [] && NoBoundary(levelFiles, LargestKey(compactionFiles)) ==> r == compactionFiles
    ensures Disjoint(levelFiles) && IsRun(levelFiles, compactionFiles, a, b)
        ==> IsRun(levelFiles, r, a, b + (|r| - |compactionFiles|))
  {
    r := compactionFiles;
    if compactionFiles == [] {
      return;
    }
    var smallest, largestKey := GetRange(compactionFiles);
    var continueSearching := true;
    while continueSearching
      invariant Growing(compactionFiles, r, levelFiles, a, b)
      invariant largestKey == LargestKey(r)
      invariant !continueSearching ==> NoBoundary(levelFiles, largestKey)
      decreases continueSearching, StartsAfter(levelFiles, largestKey)
    {
      var next := FindSmallestBoundaryFile(levelFiles, largestKey);
      if next.Some? {
        GrowingStep(compactionFiles, r, levelFiles, a, b, next.value);
        LaterKeyCountsFewer(levelFiles, largestKey, next.value, next.value.largest);
        r := r + [next.value];
        largestKey := next.value.largest;
      } else {
        continueSearching := false;
      }
    }
  }

  /** State of the boundary search: `r` grew out of `before` one boundary file at a time. */
  ghost predicate Growing(before: Level, r: Level, levelFiles: Level, a: nat, b: nat) {
    && Appended(before, r, levelFiles)
    && GrownInputs(before, r, levelFiles, a, b)
    && r != [] && GrowsUp(before, r)
    && forall f | f in r :: f.smallest.user <= f.largest.user
  }

  lemma GrowingStep(before: Level, r: Level, levelFiles: Level, a: nat, b: nat, f: FileMeta)
    requires Growing(before, r, levelFiles, a, b)
    requires forall g | g in levelFiles :: FileOk(g)
    requires f in levelFiles && IsBoundary(f, LargestKey(r))
    requires forall g | g in levelFiles && IsBoundary(g, LargestKey(r)) :: !Less(g.smallest, f.smallest)
    ensures Growing(before, r + [f], levelFiles, a, b)
    ensures LargestKey(r + [f]) == f.largest && !Less(f.largest, f.smallest)
  {
    BoundaryIsLarger(r, f);
    AppendOne(before, r, levelFiles, f);
    GrowOne(before, r, levelFiles, a, b, f);
    GrowUpOne(before, r, f);
  }

  ghost predicate GrownInputs(before: Level, after: Level, levelFiles: Level, a: nat, b: nat) {
    && before != [] && |before| <= |after|
    && (NoBoundary(levelFiles, LargestKey(before)) ==> after == before)
    && (Disjoint(levelFiles) && IsRun(levelFiles, before, a, b)
        ==> IsRun(levelFiles, after, a, b + (|after| - |before|)))
  }

  lemma GrowOne(before: Level, after: Level, levelFiles: Level, a: nat, b: nat, f: FileMeta)
    requires forall g | g in levelFiles :: FileOk(g)
    requires GrownInputs(before, after, levelFiles, a, b)
    requires f in levelFiles && IsBoundary(f, LargestKey(after))
    requires forall g | g in levelFiles && IsBoundary(g, LargestKey(after)) :: !Less(g.smallest, f.smallest)
    ensures GrownInputs(before, after + [f], levelFiles, a, b)
  {
    if Disjoint(levelFiles) && IsRun(levelFiles, before, a, b) {
      BoundaryFollowsRun(levelFiles, after, a, b + (|after| - |before|), f);
    }
  }

  lemma GrowUpOne(before: Level, after: Level, f: FileMeta)
    requires before != [] && after != [] && GrowsUp(before, after)
    requires (forall g | g in after :: g.smallest.user <= g.largest.user) && f.smallest.user <= f.largest.user
    requires f.smallest.user == LargestKey(after).user && LargestKey(after + [f]) == f.largest
    ensures GrowsUp(before, after + [f])
  {
    var grown := after + [f];
    assert grown[..|after|] == after;
    SmallestKeyBounds(after);
    LargestKeyBounds(after);
    assert after[0] in after;
    forall k: UserKey | LargestKey(before).user < k <= f.largest.user
      ensures CoversKey(grown, k)
    {
      if k <= LargestKey(after).user {
        assert CoversKey(after, k);
        var g :| g in after && g.smallest.user <= k <= g.largest.user;
        assert g in grown;
      } else {
        assert f in grown;
      }
    }
  }

  predicate NoBoundary(levelFiles: Level, key: InternalKey) {
    forall f | f in levelFiles :: !IsBoundary(f, key)
  }

  lemma AppendOne(before: Level, after: Level, levelFiles: Level, f: FileMeta)
    requires Appended(before, after, levelFiles) && f in levelFiles
    requires forall g | g in after :: Less(g.largest, f.smallest)
    ensures Appended(before, after + [f], levelFiles)
  {
  }

  lemma BoundaryIsLarger(r: Level, f: FileMeta)
    requires r != [] && FileOk(f) && IsBoundary(f, LargestKey(r))
    ensures LargestKey(r + [f]) == f.largest
    ensures !Less(f.largest, f.smallest)
    ensures forall g | g in r :: Less(g.largest, f.smallest)
  {
    assert (r + [f])[..|r|] == r;
    EntryBounds(f, f.entries[0]);
    LargestKeyBounds(r);
    LessIsTotalOrder(LargestKey(r), f.smallest, f.largest);
    forall g | g in r
      ensures Less(g.largest, f.smallest)
    {
      LessIsTotalOrder(LargestKey(r), g.largest, f.smallest);
    }
  }

  lemma {:induction false} RunEnds(files: Level, r: Level, a: nat, b: nat)
    requires forall f | f in files :: FileOk(f)
    requires Disjoint(files) && IsRun(files, r, a, b)
    ensures LargestKey(r) == files[b - 1].largest
    ensures SmallestKey(r) == files[a].smallest
    decreases b
  {
    if a + 1 < b {
      assert r[..|r| - 1] == files[a..b - 1];
      RunEnds(files, r[..|r| - 1], a, b - 1);
      LargestIncreases(files, b - 2, b - 1);
      LargestIncreases(files, a, b - 1);
    }
  }

  lemma BoundaryFollowsRun(files: Level, r: Level, a: nat, b: nat, f: FileMeta)
    requires forall g | g in files :: FileOk(g)
    requires Disjoint(files) && IsRun(files, r, a, b)
    requires f in files && IsBoundary(f, LargestKey(r))
    requires forall g | g in files && IsBoundary(g, LargestKey(r)) :: !Less(g.smallest, f.smallest)
    ensures IsRun(files, r + [f], a, b + 1)
  {
    RunEnds(files, r, a, b);
    var i :| 0 <= i < |files| && files[i] == f;
    BoundaryIndex(files, b, i);
    SliceExtends(files, a, b);
  }

  /** A file does not start behind the end of one that is not before it. */
  lemma NoBoundaryBefore(files: Level, b: nat, i: nat)
    requires forall g | g in files :: FileOk(g)
    requires Disjoint(files) && i < b <= |files|
    ensures !IsBoundary(files[i], files[b - 1].largest)
  {
    var f, last := files[i], files[b - 1];
    assert f in files && last in files;
    EntryBounds(f, f.entries[0]);
    EntryBounds(last, last.entries[0]);
    assert i < b - 1 ==> Less(f.largest, last.smallest);
  }

  lemma BoundaryIndex(files: Level, b: nat, i: nat)
    requires forall g | g in files :: FileOk(g)
    requires Disjoint(files) && 0 < b <= |files| && i < |files|
    requires IsBoundary(files[i], files[b - 1].largest)
    requires forall g | g in files && IsBoundary(g, files[b - 1].largest) :: !Less(g.smallest, files[i].smallest)
    ensures i == b
  {
    if i < b {
      NoBoundaryBefore(files, b, i);
    } else if i > b {
      assert files[b] in files;
      LargestIncreases(files, b, i);
    }
  }

  // ---------------------------------------------------------------- choosing the inputs

  ghost predicate ClosedAtLevel0(files: Level, sub: Level) {
    forall f, g | f in sub && g in files && RangesMeet(f, g) :: g in sub
  }

  ghost predicate IsSomeRun(files: Level, sub: Level) {
    exists a, b: nat :: IsRun(files, sub, a, b)
  }

  /** What the starting inputs of a compaction look like: a closed group at level 0, consecutive files deeper. */
  ghost predicate Seed(v: Version, level: nat, in0: Level) {
    && level + 1 < NUM_LEVELS
    && in0 != [] && NumbersDistinct(in0) && (forall f | f in in0 :: f in v[level])
    && (level == 0 ==> ClosedAtLevel0(v[0], in0))
    && (level > 0 ==> IsSomeRun(v[level], in0))
  }

  function NextLevelInputs(v: Version, level: nat, in0: Level): Level
    requires level + 1 < NUM_LEVELS && in0 != []
  {
    OverlapFilter(v[level + 1], Some(SmallestKey(in0).user), Some(LargestKey(in0).user))
  }

  /** The files two levels down that the hull of the inputs meets. */
  function Grandparents(v: Version, level: nat, in0: Level, in1: Level): Level
    requires level + 2 < NUM_LEVELS && in0 != []
  {
    OverlapFilter(v[level + 2], Some(SmallestKey(in0 + in1).user), Some(LargestKey(in0 + in1).user))
  }

  /** The inputs a compaction runs with. */
  ghost predicate ValidPick(v: Version, level: nat, in0: Level, in1: Level) {
    && Seed(v, level, in0)
    && NoBoundary(v[level], LargestKey(in0))
    && in1 == NextLevelInputs(v, level, in0)
  }

  /** No file two or more levels down has a range holding `k`. */
  ghost predicate IsBase(v: Version, level: nat, k: UserKey) {
    forall l, f | level + 2 <= l < NUM_LEVELS && f in v[l] :: !(f.smallest.user <= k <= f.largest.user)
  }

  /** Merging `f` from one level further down would read at most ten files' worth of the level below that. */
  ghost predicate CheapToMergeLater(v: Version, level: nat, f: FileMeta, maxFileSize: nat) {
    level + 2 < NUM_LEVELS ==>
      TotalSize(OverlapFilter(v[level + 2], Some(f.smallest.user), Some(f.largest.user))) <= 10 * maxFileSize
  }

  lemma OwnRange(f: FileMeta)
    ensures SmallestKey([f]) == f.smallest && LargestKey([f]) == f.largest
  {
  }

  class Compaction {
    const level: nat
    const inputVersion: Version
    const maxFileSize: nat
    var inputs0: Level
    var inputs1: Level
    var grandparents: Level
    var grandparentIndex: nat
    var seenKey: bool
    var overlappedBytes: nat
    var levelPtrs: seq<nat>

    constructor (maxFileSize: nat, level: nat, inputVersion: Version, inputs0: Level)
      ensures this.level == level && this.inputVersion == inputVersion && this.maxFileSize == maxFileSize
      ensures this.inputs0 == inputs0 && inputs1 == [] && grandparents == []
      ensures grandparentIndex == 0 && !seenKey && overlappedBytes == 0
      ensures levelPtrs == seq(NUM_LEVELS, _ => 0) && Unstarted()
    {
      this.maxFileSize, this.level, this.inputVersion := maxFileSize, level, inputVersion;
      this.inputs0, inputs1, grandparents := inputs0, [], [];
      grandparentIndex, seenKey, overlappedBytes := 0, false, 0;
      levelPtrs := seq(NUM_LEVELS, _ => 0);
    }

    /** No key has been looked at yet. */
    predicate Unstarted()
      reads this
    {
      && grandparentIndex == 0 && !seenKey && overlappedBytes == 0
      && |levelPtrs| == NUM_LEVELS && forall l | 0 <= l < NUM_LEVELS :: levelPtrs[l] == 0
    }

    /** The inputs are complete and the grandparents those they meet. */
    ghost predicate Prepared()
      reads this
    {
      && level + 1 < NUM_LEVELS && inputs0 != []
      && grandparents == if level + 2 < NUM_LEVELS then Grandparents(inputVersion, level, inputs0, inputs1) else []
    }

    /**
      A single file with nothing to merge it with is just moved, unless merging it from its new level later on
      would read too much: the files its range meets two levels down must not exceed ten files' worth.
    */
    method IsTrivialMove() returns (b: bool)
      requires Prepared()
      ensures b <==> exists f :: inputs0 == [f] && inputs1 == [] && CheapToMergeLater(inputVersion, level, f, maxFileSize)
    {
      var sum := TotalFileSize(grandparents);
      b := |inputs0| == 1 && |inputs1| == 0 && sum <= 10 * maxFileSize;
      if |inputs0| == 1 && inputs1 == [] {
        assert inputs0 == [inputs0[0]] && inputs0 + [] == [inputs0[0]];
        OwnRange(inputs0[0]);
        assert TotalSize([]) == 0;
      }
    }

    /** Every cursor has only passed files that end before `k`, so asking about `k` or later keys is sound. */
    ghost predicate CursorsBefore(k: UserKey)
      reads this
    {
      && |levelPtrs| == NUM_LEVELS
      && forall l | level + 2 <= l < NUM_LEVELS ::
           && levelPtrs[l] <= |inputVersion[l]|
           && forall i | 0 <= i < levelPtrs[l] :: inputVersion[l][i].largest.user < k
    }

    lemma CursorsStayBefore(k: UserKey, k': UserKey)
      requires CursorsBefore(k) && k <= k'
      ensures CursorsBefore(k')
    {
      assert forall l, i | level + 2 <= l < NUM_LEVELS && 0 <= i < levelPtrs[l] :: inputVersion[l][i].largest.user < k;
    }

    /** The advancing cursors give the same answer as a scan of all deeper levels. */
    method IsBaseLevelForKey(k: UserKey) returns (b: bool)
      requires level + 1 < NUM_LEVELS && VersionOk(inputVersion) && CursorsBefore(k)
      modifies this`levelPtrs
      ensures CursorsBefore(k)
      ensures b <==> IsBase(inputVersion, level, k)
    {
      for lvl := level + 2 to NUM_LEVELS
        invariant CursorsBefore(k)
        invariant forall l, f | level + 2 <= l < lvl && f in inputVersion[l] :: !(f.smallest.user <= k <= f.largest.user)
      {
        var inside := AdvanceCursor(lvl, k);
        if inside {
          return false;
        }
      }
      b := true;
    }

    method AdvanceCursor(lvl: nat, k: UserKey) returns (inside: bool)
      requires VersionOk(inputVersion) && CursorsBefore(k) && level + 2 <= lvl < NUM_LEVELS
      modifies this`levelPtrs
      ensures CursorsBefore(k)
      ensures inside <==> exists f :: f in inputVersion[lvl] && f.smallest.user <= k <= f.largest.user
    {
      LevelFacts(inputVersion, lvl);
      var files := inputVersion[lvl];
      while levelPtrs[lvl] < |files|
        invariant CursorsBefore(k)
        decreases |files| - levelPtrs[lvl]
      {
        var f := files[levelPtrs[lvl]];
        if k <= f.largest.user {
          inside := k >= f.smallest.user;
          CursorDecides(files, levelPtrs[lvl], k);
          return;
        }
        levelPtrs := levelPtrs[lvl := levelPtrs[lvl] + 1];
      }
      inside := false;
    }

    /** Scans grandparents up to the key and says when the current output overlaps too many of their bytes. */
    method ShouldStopBefore(key: InternalKey) returns (stop: bool)
      requires grandparentIndex <= |grandparents|
      modifies this`grandparentIndex, this`seenKey, this`overlappedBytes
      ensures seenKey
      ensures old(grandparentIndex) <= grandparentIndex <= |grandparents|
      ensures forall i | old(grandparentIndex) <= i < grandparentIndex :: Less(grandparents[i].largest, key)
      ensures grandparentIndex < |grandparents| ==> !Less(grandparents[grandparentIndex].largest, key)
      ensures var sum := old(overlappedBytes)
                + if old(seenKey) then TotalSize(grandparents[old(grandparentIndex)..grandparentIndex]) else 0;
              stop == (sum > 10 * maxFileSize) && overlappedBytes == if stop then 0 else sum
    {
      ghost var from := grandparentIndex;
      while grandparentIndex < |grandparents| && Less(grandparents[grandparentIndex].largest, key)
        invariant from <= grandparentIndex <= |grandparents| && seenKey == old(seenKey)
        invariant forall i | from <= i < grandparentIndex :: Less(grandparents[i].largest, key)
        invariant overlappedBytes == old(overlappedBytes)
                    + if seenKey then TotalSize(grandparents[from..grandparentIndex]) else 0
        decreases |grandparents| - grandparentIndex
      {
        SliceGrows(grandparents, from, grandparentIndex);
        if seenKey {
          overlappedBytes := overlappedBytes + grandparents[grandparentIndex].size;
        }
        grandparentIndex := grandparentIndex + 1;
      }
      seenKey := true;
      stop := overlappedBytes > 10 * maxFileSize;
      if stop {
        overlappedBytes := 0;
      }
    }
  }

  lemma SliceGrows(files: Level, a: nat, b: nat)
    requires a <= b < |files|
    ensures TotalSize(files[a..b + 1]) == TotalSize(files[a..b]) + files[b].size
  {
    var slice := files[a..b + 1];
    assert slice[..|slice| - 1] == files[a..b];
  }

  /** At a sorted level the first file not ending before `k` is the only one that can hold it. */
  lemma CursorDecides(files: Level, p: nat, k: UserKey)
    requires forall f | f in files :: FileOk(f)
    requires Disjoint(files) && p < |files| && k <= files[p].largest.user
    requires forall i | 0 <= i < p :: files[i].largest.user < k
    ensures files[p].smallest.user <= k <==> exists f :: f in files && f.smallest.user <= k <= f.largest.user
  {
    assert files[p] in files;
    if f :| f in files && f.smallest.user <= k <= f.largest.user {
      var i :| 0 <= i < |files| && files[i] == f;
      if p < i {
        LargestIncreases(files, p, i);
      }
    }
  }

  const L0_COMPACTION_TRIGGER := 4

  /** Bytes a level may hold before it is due for compaction: ten megabytes at level 1, ten times more each level down. */
  function MaxBytesForLevel(level: nat): (r: real)
    ensures r >= 10485760.0
  {
    if level <= 1 then 10.0 * 1048576.0 else 10.0 * MaxBytesForLevel(level - 1)
  }

  /** How full a level is: by file count at level 0, by bytes below. */
  function Score(v: Version, level: nat): real
    requires level < NUM_LEVELS
  {
    if level == 0 then |v[0]| as real / L0_COMPACTION_TRIGGER as real
    else TotalSize(v[level]) as real / MaxBytesForLevel(level)
  }

  /** The fullest level that can be compacted, the shallowest one on a tie. */
  method BestLevel(v: Version) returns (best: nat, score: real)
    ensures best < NUM_LEVELS - 1 && score == Score(v, best)
    ensures forall l | 0 <= l < NUM_LEVELS - 1 :: Score(v, l) <= score
    ensures forall l | 0 <= l < best :: Score(v, l) < score
    ensures score >= 1.0 ==> v[best] != []
  {
    best, score := 0, Score(v, 0);
    for level := 1 to NUM_LEVELS - 1
      invariant best < level && score == Score(v, best)
      invariant forall l | 0 <= l < level :: Score(v, l) <= score
      invariant forall l | 0 <= l < best :: Score(v, l) < score
    {
      var levelBytes := TotalFileSize(v[level]);
      var s := levelBytes as real / MaxBytesForLevel(level);
      if s > score {
        best, score := level, s;
      }
    }
  }

  class VersionSet {
    const maxFileSize: nat
    var current: Version
    var compactPointer: seq<Option<InternalKey>>
    var compactionScoreReached: bool
    var compactionLevel: nat
    var fileToCompact: Option<(nat, FileMeta)>

    ghost predicate Valid()
      reads this
    {
      VersionOk(current) && HintsOk()
    }

    /** What is remembered for picking names files of the current version. */
    ghost predicate HintsOk()
      reads this
    {
      && |compactPointer| == NUM_LEVELS
      && (compactionScoreReached ==> compactionLevel + 1 < NUM_LEVELS && current[compactionLevel] != [])
      && (fileToCompact.Some? ==>
            fileToCompact.value.0 + 1 < NUM_LEVELS && fileToCompact.value.1 in current[fileToCompact.value.0])
    }

    constructor (maxFileSize: nat, v: Version)
      requires VersionOk(v)
      ensures Valid() && current == v
    {
      this.maxFileSize := maxFileSize;
      current := v;
      compactPointer := seq(NUM_LEVELS, _ => None);
      compactionScoreReached, compactionLevel, fileToCompact := false, 0, None;
    }

    predicate NeedsCompaction()
      reads this
    {
      compactionScoreReached || fileToCompact.Some?
    }

    /** Makes `v` current with its compaction score worked out; seek statistics start afresh. */
    method AppendVersion(v: Version)
      requires HintsOk()
      modifies this
      ensures HintsOk() && current == v && compactPointer == old(compactPointer)
      ensures NeedsCompaction() <==> exists l | 0 <= l < NUM_LEVELS - 1 :: Score(v, l) >= 1.0
    {
      var best, score := BestLevel(v);
      current := v;
      compactionScoreReached, compactionLevel, fileToCompact := score >= 1.0, best, None;
    }

    /**
      Completes a compaction's inputs: boundary files of its level, every next-level file the range
      meets, and then more files of its level if that does not pull in more of the next one.
    */
    method SetupOtherInputs(c: Compaction)
      requires Valid() && Seed(current, c.level, c.inputs0) && c.inputVersion == current && c.grandparents == []
      modifies c`inputs0, c`inputs1, c`grandparents, this`compactPointer
      ensures Valid() && c.Prepared()
      ensures ValidPick(current, c.level, c.inputs0, c.inputs1)
      ensures forall f | f in old(c.inputs0) :: f in c.inputs0
      ensures old(CoveredBy(c.inputs0)) ==> CoveredBy(c.inputs0 + c.inputs1)
      ensures compactPointer == old(compactPointer)[c.level := Some(LargestKey(c.inputs0))]
    {
      var level := c.level;
      var in0, in1 := ChooseInputs(level, c.inputs0);
      c.inputs0, c.inputs1 := in0, in1;
      if level + 2 < NUM_LEVELS {
        LevelFacts(current, level + 2);
        var allStart, allLimit := GetRange2(in0, in1);
        var grand, _, _ := GetOverlappingInputs(current, level + 2, Some(allStart), Some(allLimit));
        c.grandparents := grand;
      }
      var smallest, largest := GetRange(in0);
      compactPointer := compactPointer[level := Some(largest)];
    }

    method ChooseInputs(level: nat, inputs: Level) returns (in0: Level, in1: Level)
      requires VersionOk(current) && Seed(current, level, inputs)
      ensures ValidPick(current, level, in0, in1)
      ensures forall f | f in inputs :: f in in0
      ensures CoveredBy(inputs) ==> CoveredBy(in0 + in1)
    {
      LevelFacts(current, level + 1);
      in0 := AddBoundary(level, inputs);
      BoundaryKeepsCovered(inputs, in0);
      var smallest, largest := GetRange(in0);
      ghost var lo, hi;
      in1, lo, hi := GetOverlappingInputs(current, level + 1, Some(smallest), Some(largest));
      var allStart, allLimit := GetRange2(in0, in1);
      NextLevelKeepsCovered(current, level, in0, in1);
      if in1 != [] {
        var expanded0, grown := GrowInputs(level, in0, in1, allStart, allLimit);
        if grown {
          in0 := expanded0;
        }
      }
    }

    method AddBoundary(level: nat, inputs: Level) returns (r: Level)
      requires VersionOk(current) && Seed(current, level, inputs)
      ensures Seed(current, level, r) && NoBoundary(current[level], LargestKey(r))
      ensures forall f | f in inputs :: f in r
      ensures GrowsUp(inputs, r)
    {
      LevelFacts(current, level);
      ghost var a: nat, b: nat := 0, 0;
      if level > 0 {
        a, b :| IsRun(current[level], inputs, a, b);
      } else {
        ClosedHasNoBoundary(current[0], inputs);
      }
      r := AddBoundaryInputs(current[level], inputs, a, b);
      BoundaryKeepsSeed(current, level, inputs, r, a, b);
    }

    /** The larger group of level files, taken only when the next-level files stay exactly the same. */
    method GrowInputs(level: nat, in0: Level, in1: Level, allStart: InternalKey, allLimit: InternalKey)
      returns (expanded0: Level, grown: bool)
      requires VersionOk(current) && ValidPick(current, level, in0, in1)
      requires allStart == SmallestKey(in0 + in1) && allLimit == LargestKey(in0 + in1)
      ensures grown ==> ValidPick(current, level, expanded0, in1)
      ensures forall f | f in in0 :: f in expanded0
      ensures expanded0 != [] && (CoveredBy(in0 + in1) ==> CoveredBy(expanded0 + in1))
      ensures grown ==> |expanded0| > |in0| && TotalSize(in1) + TotalSize(expanded0) < 25 * maxFileSize
    {
      hide NoBoundary, CoveredBy, TotalSize, SmallestKey, LargestKey, FileOk, OverlapFilter;
      expanded0 := ExpandLevelInputs(level, in0, in1, allStart, allLimit);
      var inputs1Size := TotalFileSize(in1);
      var expanded0Size := TotalFileSize(expanded0);
      grown := false;
      if |expanded0| > |in0| && inputs1Size + expanded0Size < 25 * maxFileSize {
        var newStart, newLimit := GetRange(expanded0);
        LevelFacts(current, level + 1);
        var expanded1, _, _ := GetOverlappingInputs(current, level + 1, Some(newStart), Some(newLimit));
        if |expanded1| == |in1| {
          WiderSameCount(current, level, in0, in1, expanded0);
          grown := true;
        }
      }
    }

    method ExpandLevelInputs(level: nat, in0: Level, in1: Level, allStart: InternalKey, allLimit: InternalKey)
      returns (expanded0: Level)
      requires VersionOk(current) && ValidPick(current, level, in0, in1)
      requires allStart == SmallestKey(in0 + in1) && allLimit == LargestKey(in0 + in1)
      ensures Seed(current, level, expanded0) && NoBoundary(current[level], LargestKey(expanded0))
      ensures forall f | f in in0 :: f in expanded0
      ensures CoveredBy(in0 + in1) ==> CoveredBy(expanded0 + in1)
    {
      LevelFacts(current, level);
      var overlapping, lo, hi := GetOverlappingInputs(current, level, Some(allStart), Some(allLimit));
      ExpansionOutcome(current, level, in0, in1, overlapping, lo, hi);
      expanded0 := AddBoundary(level, overlapping);
      if CoveredBy(in0 + in1) {
        GrowthKeepsCovered(in0, in1, overlapping, expanded0);
      }
    }

    /** Chooses by size first, then by seeks; resumes after the level's compaction pointer, wrapping around. */
    method PickCompaction() returns (c: Compaction?)
      requires Valid()
      modifies this`compactPointer
      ensures Valid()
      ensures c == null <==> !compactionScoreReached && fileToCompact == None
      ensures c != null ==> fresh(c) && c.inputVersion == current && ValidPick(current, c.level, c.inputs0, c.inputs1)
      ensures c != null ==> CoveredBy(c.inputs0 + c.inputs1) && c.Unstarted() && c.Prepared()
      ensures c != null && compactionScoreReached ==> c.level == compactionLevel
    {
      c := null;
      var level, picked;
      if compactionScoreReached {
        level := compactionLevel;
        picked := NextAfterPointer(current[level], compactPointer[level]);
      } else if fileToCompact.Some? {
        level := fileToCompact.value.0;
        picked := fileToCompact.value.1;
      } else {
        return;
      }
      var inputs := StartingInputs(level, picked);
      c := new Compaction(maxFileSize, level, current, inputs);
      SetupOtherInputs(c);
    }

    /** The picked file alone, or at level 0 every file its range drags in. */
    method StartingInputs(level: nat, picked: FileMeta) returns (inputs: Level)
      requires VersionOk(current) && level + 1 < NUM_LEVELS && picked in current[level]
      ensures Seed(current, level, inputs) && picked in inputs && CoveredBy(inputs)
    {
      LevelFacts(current, level);
      inputs := [picked];
      if level == 0 {
        var smallest, largest := GetRange(inputs);
        var overlapping, lo, hi := GetOverlappingInputs(current, 0, Some(smallest), Some(largest));
        LeastClosedIsSeed(current, picked, overlapping, lo, hi);
        OverlapCoversOutside(current, 0, overlapping, picked.smallest.user, picked.largest.user, lo, hi);
        assert forall k: UserKey | picked.smallest.user <= k <= picked.largest.user :: CoversKey(overlapping, k);
        inputs := overlapping;
      } else {
        SingleIsRun(current[level], picked);
        assert picked in inputs;
        assert forall k: UserKey | picked.smallest.user <= k <= picked.largest.user :: CoversKey(inputs, k);
      }
    }

    /** Keeps only as many files as it takes to reach one file's worth of data. */
    method LimitInputs(level: nat, inputs: Level) returns (r: Level)
      requires 0 < level < NUM_LEVELS && inputs != [] && IsSomeRun(current[level], inputs)
      ensures r != [] && r <= inputs && IsSomeRun(current[level], r)
      ensures TotalSize(r) < maxFileSize ==> r == inputs
      ensures TotalSize(r[..|r| - 1]) < maxFileSize || |r| == 1
    {
      ghost var a: nat, b: nat :| IsRun(current[level], inputs, a, b);
      r := inputs;
      var total := 0;
      for i := 0 to |inputs|
        invariant total == TotalSize(inputs[..i]) && (total < maxFileSize || i == 0)
      {
        assert inputs[..i + 1][..i] == inputs[..i];
        total := total + inputs[i].size;
        if total >= maxFileSize {
          r := inputs[..i + 1];
          assert IsRun(current[level], r, a, a + i + 1);
          return;
        }
      }
      assert inputs[..|inputs|] == inputs;
      assert inputs[..|inputs|][..|inputs| - 1] == inputs[..|inputs| - 1];
    }

    method NextAfterPointer(files: Level, pointer: Option<InternalKey>) returns (f: FileMeta)
      requires files != []
      ensures f in files
      ensures pointer == None ==> f == files[0]
      ensures forall p | pointer == Some(p) ::
        if exists g :: g in files && Less(p, g.largest) then Less(p, f.largest) else f == files[0]
    {
      for i := 0 to |files|
        invariant forall j | 0 <= j < i :: pointer.Some? && !Less(pointer.value, files[j].largest)
      {
        f := files[i];
        if pointer == None || Less(pointer.value, f.largest) {
          return;
        }
      }
      f := files[0];
    }

    /** A manual compaction of a key range: a prefix of the overlapping files, cut once it is large enough. */
    method CompactRange(level: nat, begin: Option<InternalKey>, end: Option<InternalKey>) returns (c: Compaction?)
      requires Valid() && level + 1 < NUM_LEVELS
      modifies this`compactPointer
      ensures Valid()
      ensures c == null <==> forall f | f in current[level] :: !Overlaps(f, UserOf(begin), UserOf(end))
      ensures c != null ==> fresh(c) && c.inputVersion == current && c.level == level
      ensures c != null ==> ValidPick(current, c.level, c.inputs0, c.inputs1) && c.Unstarted() && c.Prepared()
    {
      var inputs := RangeInputs(level, begin, end);
      if inputs == [] {
        return null;
      }
      c := new Compaction(maxFileSize, level, current, inputs);
      SetupOtherInputs(c);
    }

    method RangeInputs(level: nat, begin: Option<InternalKey>, end: Option<InternalKey>) returns (inputs: Level)
      requires VersionOk(current) && level + 1 < NUM_LEVELS
      ensures inputs == [] <==> forall f | f in current[level] :: !Overlaps(f, UserOf(begin), UserOf(end))
      ensures inputs != [] ==> Seed(current, level, inputs)
    {
      LevelFacts(current, level);
      ghost var lo, hi;
      inputs, lo, hi := GetOverlappingInputs(current, level, begin, end);
      OverlappingIsSeed(current, level, inputs, begin, end, lo, hi);
      if inputs != [] && level > 0 {
        var limited := LimitInputs(level, inputs);
        PrefixKeepsSeed(current, level, inputs, limited);
        inputs := limited;
      }
    }
  }

  /** A wider range that meets equally many next-level files meets the same ones. */
  lemma WiderSameCount(v: Version, level: nat, in0: Level, in1: Level, expanded0: Level)
    requires ValidPick(v, level, in0, in1)
    requires expanded0 != [] && forall f | f in in0 :: f in expanded0
    requires |NextLevelInputs(v, level, expanded0)| == |in1|
    ensures NextLevelInputs(v, level, expanded0) == in1
  {
    SupersetWidensRange(in0, expanded0);
    SameCountSameFiles(v[level + 1], Some(SmallestKey(in0).user), Some(LargestKey(in0).user),
                       Some(SmallestKey(expanded0).user), Some(LargestKey(expanded0).user));
  }

  lemma PrefixKeepsSeed(v: Version, level: nat, inputs: Level, r: Level)
    requires level > 0 && Seed(v, level, inputs) && r != [] && r <= inputs && IsSomeRun(v[level], r)
    ensures Seed(v, level, r)
  {
    assert forall i | 0 <= i < |r| :: r[i] == inputs[i];
  }

  lemma LevelFacts(v: Version, l: nat)
    requires VersionOk(v) && l < NUM_LEVELS
    ensures forall f | f in v[l] :: FileOk(f) && f.smallest.user <= f.largest.user
    ensures NumbersDistinct(v[l]) && (l > 0 ==> Disjoint(v[l]))
  {
    assert LevelOk(v, l);
    forall f | f in v[l]
      ensures f.smallest.user <= f.largest.user
    {
      EntryBounds(f, f.entries[0]);
    }
  }

  lemma BoundaryKeepsSeed(v: Version, level: nat, inputs: Level, r: Level, a: nat, b: nat)
    requires VersionOk(v) && Seed(v, level, inputs)
    requires Appended(inputs, r, v[level])
    requires level == 0 ==> r == inputs
    requires level > 0 ==> IsRun(v[level], r, a, b + (|r| - |inputs|))
    ensures Seed(v, level, r) && forall f | f in inputs :: f in r
  {
    LevelFacts(v, level);
    forall f | f in inputs
      ensures f in r
    {
      assert f in r[..|inputs|];
    }
    if level > 0 {
      assert forall i | 0 <= i < |r| :: r[i] == v[level][a + i];
    }
  }

  lemma ClosedHasNoBoundary(files: Level, sub: Level)
    requires forall f | f in files :: f.smallest.user <= f.largest.user
    requires sub != [] && (forall f | f in sub :: f in files && FileOk(f)) && ClosedAtLevel0(files, sub)
    ensures NoBoundary(files, LargestKey(sub))
  {
    LargestKeyBounds(sub);
    var top :| top in sub && top.largest == LargestKey(sub);
    forall g | g in files && IsBoundary(g, LargestKey(sub))
      ensures false
    {
      assert RangesMeet(top, g);
      EntryBounds(g, g.entries[0]);
    }
  }

  lemma SupersetWidensRange(sub: Level, sup: Level)
    requires sub != [] && sup != [] && forall f | f in sub :: f in sup
    ensures SmallestKey(sup).user <= SmallestKey(sub).user
    ensures LargestKey(sub).user <= LargestKey(sup).user
  {
    SmallestKeyBounds(sub);
    SmallestKeyBounds(sup);
    LargestKeyBounds(sub);
    LargestKeyBounds(sup);
  }

  lemma InputsOverlapHull(v: Version, level: nat, in0: Level, in1: Level)
    requires VersionOk(v) && ValidPick(v, level, in0, in1)
    ensures forall f | f in in0 ::
      f in v[level] && Overlaps(f, Some(SmallestKey(in0 + in1).user), Some(LargestKey(in0 + in1).user))
  {
    LevelFacts(v, level);
    SmallestKeyBounds(in0 + in1);
    LargestKeyBounds(in0 + in1);
    forall f | f in in0
      ensures Overlaps(f, Some(SmallestKey(in0 + in1).user), Some(LargestKey(in0 + in1).user))
    {
      assert f in in0 + in1;
    }
  }

  lemma OverlapIsSeed(v: Version, level: nat, in0: Level, overlapping: Level, start: UserKey, limit: UserKey,
                      lo: Option<UserKey>, hi: Option<UserKey>)
    requires VersionOk(v) && Seed(v, level, in0)
    requires forall f | f in in0 :: f in v[level] && Overlaps(f, Some(start), Some(limit))
    requires overlapping == OverlapFilter(v[level], lo, hi)
    requires level > 0 ==> lo == Some(start) && hi == Some(limit)
    requires level == 0 ==> ExactlyLeastClosed(overlapping, v[0], Some(start), Some(limit))
    ensures Seed(v, level, overlapping)
    ensures forall f | f in in0 :: f in overlapping
  {
    LevelFacts(v, level);
    FilterKeepsDistinct(v[level], lo, hi);
    assert in0[0] in in0;
    if level == 0 {
      assert OverlapClosed(FileSet(overlapping), v[0], Some(start), Some(limit));
      forall f | f in in0
        ensures f in overlapping
      {
        assert f in FileSet(overlapping);
      }
      forall f, g | f in overlapping && g in v[0] && RangesMeet(f, g)
        ensures g in overlapping
      {
        assert g in FileSet(overlapping);
      }
    } else {
      var a, b := OverlapIsRun(v[level], lo, hi);
      assert IsRun(v[level], overlapping, a, b);
    }
  }

  /** The level files meeting the hull of the inputs: a good starting group again, holding all of `in0`. */
  lemma ExpansionOutcome(v: Version, level: nat, in0: Level, in1: Level, overlapping: Level,
                         lo: Option<UserKey>, hi: Option<UserKey>)
    requires VersionOk(v) && ValidPick(v, level, in0, in1)
    requires overlapping == OverlapFilter(v[level], lo, hi)
    requires level > 0 ==> lo == Some(SmallestKey(in0 + in1).user) && hi == Some(LargestKey(in0 + in1).user)
    requires level == 0 ==>
      ExactlyLeastClosed(overlapping, v[0], Some(SmallestKey(in0 + in1).user), Some(LargestKey(in0 + in1).user))
    ensures Seed(v, level, overlapping)
    ensures forall f | f in in0 :: f in overlapping
    ensures CoversOutside(overlapping, SmallestKey(in0 + in1).user, LargestKey(in0 + in1).user)
    ensures SmallestKey(in0).user <= LargestKey(in0).user
  {
    var start, limit := SmallestKey(in0 + in1).user, LargestKey(in0 + in1).user;
    InputsOverlapHull(v, level, in0, in1);
    OverlapIsSeed(v, level, in0, overlapping, start, limit, lo, hi);
    HullIsOrdered(v, level, in0, in1);
    OverlapCoversOutside(v, level, overlapping, start, limit, lo, hi);
  }

  lemma HullIsOrdered(v: Version, level: nat, in0: Level, in1: Level)
    requires VersionOk(v) && ValidPick(v, level, in0, in1)
    ensures SmallestKey(in0).user <= LargestKey(in0).user
    ensures SmallestKey(in0 + in1).user <= LargestKey(in0 + in1).user
  {
    LevelFacts(v, level);
    SmallestKeyBounds(in0);
    LargestKeyBounds(in0);
    assert in0[0] in in0;
    HullHolds(in0, in1);
  }

  lemma LeastClosedIsSeed(v: Version, picked: FileMeta, overlapping: Level, lo: Option<UserKey>, hi: Option<UserKey>)
    requires VersionOk(v) && picked in v[0] && overlapping == OverlapFilter(v[0], lo, hi)
    requires ExactlyLeastClosed(overlapping, v[0], Some(picked.smallest.user), Some(picked.largest.user))
    ensures Seed(v, 0, overlapping) && picked in overlapping
  {
    LevelFacts(v, 0);
    FilterKeepsDistinct(v[0], lo, hi);
    assert picked in FileSet(overlapping);
    forall f, g | f in overlapping && g in v[0] && RangesMeet(f, g)
      ensures g in overlapping
    {
      assert f in FileSet(overlapping) && g in FileSet(overlapping);
    }
  }

  lemma SingleIsRun(files: Level, f: FileMeta)
    requires f in files
    ensures IsSomeRun(files, [f])
  {
    var i :| 0 <= i < |files| && files[i] == f;
    assert IsRun(files, [f], i, i + 1);
  }

  // ---------------------------------------------------------------- picks without gaps

  lemma BoundaryKeepsCovered(before: Level, after: Level)
    requires before != [] && after != [] && GrowsUp(before, after)
    requires forall f | f in before :: f in after
    ensures CoveredBy(before) ==> CoveredBy(after)
  {
    if CoveredBy(before) {
      forall k: UserKey | SmallestKey(after).user <= k <= LargestKey(after).user
        ensures CoversKey(after, k)
      {
        if k <= LargestKey(before).user {
          assert CoversKey(before, k);
        }
      }
    }
  }

  lemma ConcatRange(a: Level, b: Level, k: UserKey)
    requires a != [] && SmallestKey(a + b).user <= k <= LargestKey(a + b).user
    ensures k < SmallestKey(a).user ==> exists f :: f in b && f.smallest.user <= k
    ensures k > LargestKey(a).user ==> exists f :: f in b && k <= f.largest.user
  {
    SmallestKeyBounds(a + b);
    LargestKeyBounds(a + b);
    SmallestKeyBounds(a);
    LargestKeyBounds(a);
    var f :| f in a + b && f.smallest == SmallestKey(a + b);
    var g :| g in a + b && g.largest == LargestKey(a + b);
    assert f in a || f in b;
    assert g in a || g in b;
  }

  /** Next-level files meet the range of the inputs, so together they leave no gap. */
  lemma NextLevelKeepsCovered(v: Version, level: nat, in0: Level, in1: Level)
    requires VersionOk(v) && ValidPick(v, level, in0, in1)
    ensures CoveredBy(in0) ==> CoveredBy(in0 + in1)
  {
    LevelFacts(v, level + 1);
    if CoveredBy(in0) {
      forall k: UserKey | SmallestKey(in0 + in1).user <= k <= LargestKey(in0 + in1).user
        ensures CoversKey(in0 + in1, k)
      {
        ConcatRange(in0, in1, k);
        if SmallestKey(in0).user <= k <= LargestKey(in0).user {
          assert CoversKey(in0, k);
          var f :| f in in0 && f.smallest.user <= k <= f.largest.user;
          assert f in in0 + in1;
        } else if k < SmallestKey(in0).user {
          var f :| f in in1 && f.smallest.user <= k;
          assert f in in0 + in1;
        } else {
          var f :| f in in1 && k <= f.largest.user;
          assert f in in0 + in1;
        }
      }
    }
  }

  ghost predicate CoversOutside(files: Level, lo: UserKey, hi: UserKey)
    requires files != []
  {
    forall k: UserKey | SmallestKey(files).user <= k <= LargestKey(files).user && !(lo <= k <= hi) :: CoversKey(files, k)
  }

  lemma OverlapCoversOutside(v: Version, level: nat, overlapping: Level, start: UserKey, limit: UserKey,
                             lo: Option<UserKey>, hi: Option<UserKey>)
    requires VersionOk(v) && level < NUM_LEVELS && overlapping != [] && start <= limit
    requires overlapping == OverlapFilter(v[level], lo, hi)
    requires level > 0 ==> lo == Some(start) && hi == Some(limit)
    requires level == 0 ==> ExactlyLeastClosed(overlapping, v[0], Some(start), Some(limit))
    ensures CoversOutside(overlapping, start, limit)
  {
    LevelFacts(v, level);
    SmallestKeyBounds(overlapping);
    LargestKeyBounds(overlapping);
    var low :| low in overlapping && low.smallest == SmallestKey(overlapping);
    var high :| high in overlapping && high.largest == LargestKey(overlapping);
    forall k: UserKey | SmallestKey(overlapping).user <= k <= LargestKey(overlapping).user && !(start <= k <= limit)
      ensures CoversKey(overlapping, k)
    {
      if level > 0 {
        assert CoversKey(overlapping, k) by {
          assert k < start ==> low.smallest.user <= k <= low.largest.user;
          assert k > limit ==> high.smallest.user <= k <= high.largest.user;
        }
      } else if !CoversKey(overlapping, k) {
        if k > limit {
          GapSplitsAbove(v[0], overlapping, start, limit, k);
        } else {
          GapSplitsBelow(v[0], overlapping, start, limit, k);
        }
      }
    }
  }

  /** A gap above the range would split the least closed group, so there is none. */
  lemma GapSplitsAbove(files: Level, group: Level, lo: UserKey, hi: UserKey, k: UserKey)
    requires forall f | f in files :: f.smallest.user <= f.largest.user
    requires ExactlyLeastClosed(group, files, Some(lo), Some(hi))
    requires !CoversKey(group, k) && hi < k
    ensures forall f | f in group :: f.largest.user < k
  {
    var S := set f | f in group && f.largest.user < k;
    assert OverlapClosed(FileSet(group), files, Some(lo), Some(hi));
    forall f, g | f in files && f in S && g in files && RangesMeet(f, g)
      ensures g in S
    {
      assert f in FileSet(group) && g in FileSet(group);
    }
    forall f | f in files && Overlaps(f, Some(lo), Some(hi))
      ensures f in S
    {
      assert f in FileSet(group);
    }
    assert OverlapClosed(S, files, Some(lo), Some(hi));
  }

  lemma GapSplitsBelow(files: Level, group: Level, lo: UserKey, hi: UserKey, k: UserKey)
    requires forall f | f in files :: f.smallest.user <= f.largest.user
    requires ExactlyLeastClosed(group, files, Some(lo), Some(hi))
    requires !CoversKey(group, k) && k < lo
    ensures forall f | f in group :: k < f.smallest.user
  {
    var S := set f | f in group && k < f.smallest.user;
    assert OverlapClosed(FileSet(group), files, Some(lo), Some(hi));
    forall f, g | f in files && f in S && g in files && RangesMeet(f, g)
      ensures g in S
    {
      assert f in FileSet(group) && g in FileSet(group);
    }
    forall f | f in files && Overlaps(f, Some(lo), Some(hi))
      ensures f in S
    {
      assert f in FileSet(group);
    }
    assert OverlapClosed(S, files, Some(lo), Some(hi));
  }

  lemma GrowthKeepsCovered(in0: Level, in1: Level, overlapping: Level, expanded0: Level)
    requires in0 != [] && overlapping != [] && expanded0 != []
    requires SmallestKey(in0).user <= LargestKey(in0).user
    requires CoveredBy(in0 + in1)
    requires forall f | f in in0 :: f in overlapping
    requires forall f | f in overlapping :: f in expanded0
    requires CoversOutside(overlapping, SmallestKey(in0 + in1).user, LargestKey(in0 + in1).user)
    requires GrowsUp(overlapping, expanded0)
    ensures CoveredBy(expanded0 + in1)
  {
    forall k: UserKey | SmallestKey(expanded0 + in1).user <= k <= LargestKey(expanded0 + in1).user
      ensures CoversKey(expanded0 + in1, k)
    {
      if SmallestKey(in0 + in1).user <= k <= LargestKey(in0 + in1).user {
        assert CoversKey(in0 + in1, k);
        var f :| f in in0 + in1 && f.smallest.user <= k <= f.largest.user;
        assert f in expanded0 + in1;
      } else {
        OutsideHullInGroup(in0, in1, expanded0, k);
        if LargestKey(overlapping).user < k {
          assert CoversKey(expanded0, k);
        } else {
          assert CoversKey(overlapping, k);
        }
        var f :| f in expanded0 && f.smallest.user <= k <= f.largest.user;
        assert f in expanded0 + in1;
      }
    }
  }

  /** Outside the old hull but inside the new one means inside the new level's own range. */
  lemma OutsideHullInGroup(in0: Level, in1: Level, expanded0: Level, k: UserKey)
    requires in0 != [] && expanded0 != [] && forall f | f in in0 :: f in expanded0
    requires SmallestKey(in0).user <= LargestKey(in0).user
    requires SmallestKey(expanded0 + in1).user <= k <= LargestKey(expanded0 + in1).user
    requires !(SmallestKey(in0 + in1).user <= k <= LargestKey(in0 + in1).user)
    ensures SmallestKey(expanded0).user <= k <= LargestKey(expanded0).user
  {
    HullHolds(in0, in1);
    SupersetWidensRange(in0, expanded0);
    ConcatRange(expanded0, in1, k);
  }

  lemma HullHolds(in0: Level, in1: Level)
    requires in0 != []
    ensures forall f | f in in1 :: SmallestKey(in0 + in1).user <= f.smallest.user && f.largest.user <= LargestKey(in0 + in1).user
    ensures SmallestKey(in0 + in1).user <= SmallestKey(in0).user
    ensures LargestKey(in0).user <= LargestKey(in0 + in1).user
  {
    SmallestKeyBounds(in0 + in1);
    LargestKeyBounds(in0 + in1);
    SupersetWidensRange(in0, in0 + in1);
    assert forall f | f in in1 :: f in in0 + in1;
  }

  // ---------------------------------------------------------------- what a valid pick guarantees

  /** Whatever stays at the compaction's level is newer than what leaves it. */
  lemma RemainderIsNewer(v: Version, level: nat, in0: Level, in1: Level, g: FileMeta, f: FileMeta)
    requires VersionOk(v) && ValidPick(v, level, in0, in1)
    requires g in v[level] && g !in in0 && f in in0
    ensures Newer(g, f)
  {
    LevelFacts(v, level);
    if level == 0 {
      assert !RangesMeet(f, g);
      ApartIsNewer(g, f);
    } else {
      var a: nat, b: nat :| IsRun(v[level], in0, a, b);
      LevelIsUnique(v, level);
      RunRemainderIsNewer(v[level], in0, a, b, g, f);
    }
  }

  lemma RunRemainderIsNewer(files: Level, run: Level, a: nat, b: nat, g: FileMeta, f: FileMeta)
    requires forall x | x in files :: FileOk(x)
    requires Disjoint(files) && UniqueSeqs(LevelEntries(files))
    requires IsRun(files, run, a, b) && NoBoundary(files, LargestKey(run))
    requires g in files && g !in run && f in run
    ensures Newer(g, f)
  {
    RunEnds(files, run, a, b);
    var i := OutsideRun(files, run, a, b, g);
    var j := InsideRun(files, run, a, b, f);
    OutsideRunIsNewer(files, a, b, i, j);
  }

  lemma OutsideRun(files: Level, run: Level, a: nat, b: nat, g: FileMeta) returns (i: nat)
    requires IsRun(files, run, a, b) && g in files && g !in run
    ensures i < |files| && files[i] == g && !(a <= i < b)
  {
    i :| 0 <= i < |files| && files[i] == g;
    if a <= i < b {
      RunHolds(files, run, a, b, i);
    }
  }

  lemma InsideRun(files: Level, run: Level, a: nat, b: nat, f: FileMeta) returns (j: nat)
    requires IsRun(files, run, a, b) && f in run
    ensures a <= j < b && files[j] == f
  {
    var i :| 0 <= i < |run| && run[i] == f;
    j := a + i;
  }

  lemma OutsideRunIsNewer(files: Level, a: nat, b: nat, i: nat, j: nat)
    requires forall x | x in files :: FileOk(x)
    requires Disjoint(files) && UniqueSeqs(LevelEntries(files))
    requires a <= j < b <= |files| && NoBoundary(files, files[b - 1].largest)
    requires i < |files| && !(a <= i < b)
    ensures Newer(files[i], files[j])
  {
    if i < a {
      EarlierFileIsNewer(files, i, j);
    } else {
      FileAfterRunShares(files, b, j, i);
      assert files[i] in files && files[j] in files;
      ApartIsNewer(files[i], files[j]);
    }
  }

  lemma RunHolds(files: Level, run: Level, a: nat, b: nat, i: nat)
    requires IsRun(files, run, a, b) && a <= i < b
    ensures files[i] in run
  {
    assert run[i - a] == files[i];
  }

  lemma ApartIsNewer(f: FileMeta, g: FileMeta)
    requires FileOk(f) && FileOk(g) && !RangesMeet(f, g)
    ensures Newer(f, g)
  {
    forall d, e | d in f.entries && e in g.entries && d.key.user == e.key.user
      ensures false
    {
      EntryBounds(f, d);
      EntryBounds(g, e);
    }
  }

  lemma LevelIsUnique(v: Version, l: nat)
    requires VersionOk(v) && l < NUM_LEVELS
    ensures UniqueSeqs(LevelEntries(v[l]))
  {
    assert forall e | e in LevelEntries(v[l]) :: e in VersionEntries(v);
  }

  lemma EarlierFileIsNewer(files: Level, i: nat, j: nat)
    requires forall f | f in files :: FileOk(f)
    requires Disjoint(files) && i < j < |files|
    requires UniqueSeqs(LevelEntries(files))
    ensures Newer(files[i], files[j])
  {
    var f, g := files[i], files[j];
    assert f in files && g in files;
    forall d, e | d in f.entries && e in g.entries && d.key.user == e.key.user
      ensures d.key.sequence > e.key.sequence
    {
      EntryBounds(f, d);
      EntryBounds(g, e);
      LessIsTotalOrder(d.key, f.largest, g.smallest);
      LessIsTotalOrder(d.key, g.smallest, e.key);
      assert d in LevelEntries(files) && e in LevelEntries(files);
    }
  }

  lemma FileAfterRunShares(files: Level, b: nat, j: nat, i: nat)
    requires forall f | f in files :: FileOk(f)
    requires Disjoint(files) && j < b <= i < |files|
    requires NoBoundary(files, files[b - 1].largest)
    ensures files[j].largest.user < files[i].smallest.user
  {
    assert files[b] in files && files[i] in files && files[j] in files;
    assert Less(files[b - 1].largest, files[b].smallest);
    if b < i {
      LargestIncreases(files, b, i);
    }
    if j < b - 1 {
      LargestIncreases(files, j, b - 1);
    }
  }

  lemma OverlappingIsSeed(v: Version, level: nat, inputs: Level, begin: Option<InternalKey>, end: Option<InternalKey>,
                          lo: Option<UserKey>, hi: Option<UserKey>)
    requires VersionOk(v) && level + 1 < NUM_LEVELS
    requires inputs == OverlapFilter(v[level], lo, hi)
    requires level > 0 ==> lo == UserOf(begin) && hi == UserOf(end)
    requires level == 0 ==> ExactlyLeastClosed(inputs, v[0], UserOf(begin), UserOf(end))
    ensures inputs == [] <==> forall f | f in v[level] :: !Overlaps(f, UserOf(begin), UserOf(end))
    ensures inputs != [] ==> Seed(v, level, inputs)
  {
    LevelFacts(v, level);
    FilterKeepsDistinct(v[level], lo, hi);
    if level == 0 {
      var lo0, hi0 := UserOf(begin), UserOf(end);
      assert OverlapClosed(FileSet(inputs), v[0], lo0, hi0);
      if forall f | f in v[0] :: !Overlaps(f, lo0, hi0) {
        assert OverlapClosed({}, v[0], lo0, hi0);
      }
      if inputs != [] {
        assert inputs[0] in inputs;
      }
      forall f, g | f in inputs && g in v[0] && RangesMeet(f, g)
        ensures g in inputs
      {
        assert f in FileSet(inputs) && g in FileSet(inputs);
      }
    } else {
      var a, b := OverlapIsRun(v[level], lo, hi);
      if inputs != [] {
        assert IsRun(v[level], inputs, a, b);
        assert inputs[0] in inputs;
      }
    }
  }
}
