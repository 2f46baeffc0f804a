/**
  Choosing files: where a flushed memtable goes, which files overlap a range, and which files a
  compaction must take together (db/version_set.cc).
*/
module Picking {
  import opened Base
  import opened DbFormat
  import opened Reads
  import opened Versions

  // ---------------------------------------------------------------- overlapping inputs

  function OverlapFilter(files: Level, lo: Option<UserKey>, hi: Option<UserKey>): (r: Level)
    ensures forall f :: f in r <==> f in files && Overlaps(f, lo, hi)
  {
    if files == [] then []
    else
      assert files == files[..|files| - 1] + [files[|files| - 1]];
      var front := OverlapFilter(files[..|files| - 1], lo, hi);
      if Overlaps(files[|files| - 1], lo, hi) then front + [files[|files| - 1]] else front
  }

  predicate RangesMeet(f: FileMeta, g: FileMeta) {
    f.smallest.user <= g.largest.user && g.smallest.user <= f.largest.user
  }

  /** `S` holds every file meeting [lo, hi] and, with any file, every file whose range meets it. */
  ghost predicate OverlapClosed(S: set<FileMeta>, files: Level, lo: Option<UserKey>, hi: Option<UserKey>) {
    && (forall f | f in files && Overlaps(f, lo, hi) :: f in S)
    && (forall f, g | f in files && f in S && g in files && RangesMeet(f, g) :: g in S)
  }

  function StartsBefore(files: Level, lo: Option<UserKey>): nat {
    if files == [] || lo == None then 0
    else (if files[0].smallest.user < lo.value then 1 else 0) + StartsBefore(files[1..], lo)
  }

  function EndsAfter(files: Level, hi: Option<UserKey>): nat {
    if files == [] || hi == None then 0
    else (if files[0].largest.user > hi.value then 1 else 0) + EndsAfter(files[1..], hi)
  }

  lemma {:induction false} LowerStartCountsFewer(files: Level, lo: UserKey, f: FileMeta)
    requires f.smallest.user < lo
    ensures StartsBefore(files, Some(f.smallest.user)) <= StartsBefore(files, Some(lo))
    ensures f in files ==> StartsBefore(files, Some(f.smallest.user)) < StartsBefore(files, Some(lo))
  {
    if files != [] {
      LowerStartCountsFewer(files[1..], lo, f);
      assert f in files ==> f == files[0] || f in files[1..];
    }
  }

  lemma {:induction false} HigherEndCountsFewer(files: Level, hi: UserKey, f: FileMeta)
    requires f.largest.user > hi
    ensures EndsAfter(files, Some(f.largest.user)) <= EndsAfter(files, Some(hi))
    ensures f in files ==> EndsAfter(files, Some(f.largest.user)) < EndsAfter(files, Some(hi))
  {
    if files != [] {
      HigherEndCountsFewer(files[1..], hi, f);
      assert f in files ==> f == files[0] || f in files[1..];
    }
  }

  function UserOf(k: Option<InternalKey>): Option<UserKey> {
    match k
    case None => None
    case Some(key) => Some(key.user)
  }

  /** Every closed set already holds all files that meet the current search range. */
  ghost predicate Forced(files: Level, lo: Option<UserKey>, hi: Option<UserKey>,
                         lo': Option<UserKey>, hi': Option<UserKey>) {
    forall S: set<FileMeta> | OverlapClosed(S, files, lo, hi) ::
      forall f | f in files && Overlaps(f, lo', hi') :: f in S
  }

  lemma WideningStaysForced(files: Level, lo: Option<UserKey>, hi: Option<UserKey>,
                            lo': Option<UserKey>, hi': Option<UserKey>, f: FileMeta,
                            lo'': Option<UserKey>, hi'': Option<UserKey>)
    requires forall g | g in files :: g.smallest.user <= g.largest.user
    requires Forced(files, lo, hi, lo', hi')
    requires f in files && Overlaps(f, lo', hi')
    requires (hi'' == hi' && lo' != None && lo'' == Some(f.smallest.user) && f.smallest.user < lo'.value)
          || (lo'' == lo' && hi' != None && hi'' == Some(f.largest.user) && f.largest.user > hi'.value)
    ensures Forced(files, lo, hi, lo'', hi'')
  {
    forall S: set<FileMeta>, g | OverlapClosed(S, files, lo, hi) && g in files && Overlaps(g, lo'', hi'')
      ensures g in S
    {
      assert f in S;
      if !Overlaps(g, lo', hi') {
        assert RangesMeet(f, g);
      }
    }
  }

  ghost function FileSet(files: Level): set<FileMeta> {
    set f | f in files
  }

  ghost predicate ExactlyLeastClosed(inputs: Level, files: Level, lo: Option<UserKey>, hi: Option<UserKey>) {
    && OverlapClosed(FileSet(inputs), files, lo, hi)
    && (forall f | f in inputs :: f in files)
    && (forall S: set<FileMeta> | OverlapClosed(S, files, lo, hi) :: forall f | f in inputs :: f in S)
  }

  /** The first `i` files have been looked at with the range [lo', hi'] that [lo, hi] was widened to. */
  ghost predicate Scanning(files: Level, i: nat, inputs: Level, level0: bool, lo: Option<UserKey>, hi: Option<UserKey>,
                           lo': Option<UserKey>, hi': Option<UserKey>) {
    && i <= |files| && inputs == OverlapFilter(files[..i], lo', hi')
    && (!level0 ==> lo' == lo && hi' == hi)
    && (level0 ==> Forced(files, lo, hi, lo', hi') && forall f | f in inputs :: Within(f, lo', hi'))
    && forall f | f in files && Overlaps(f, lo, hi) :: Overlaps(f, lo', hi')
  }

  lemma ScanStarts(files: Level, level0: bool, lo: Option<UserKey>, hi: Option<UserKey>)
    ensures Scanning(files, 0, [], level0, lo, hi, lo, hi)
  {
  }

  lemma FilterOneMore(files: Level, i: nat, lo: Option<UserKey>, hi: Option<UserKey>)
    requires i < |files|
    ensures OverlapFilter(files[..i + 1], lo, hi)
         == OverlapFilter(files[..i], lo, hi) + if Overlaps(files[i], lo, hi) then [files[i]] else []
  {
    assert files[..i + 1][..i] == files[..i] && files[..i + 1][i] == files[i];
  }

  lemma ScanPasses(files: Level, i: nat, inputs: Level, level0: bool, lo: Option<UserKey>, hi: Option<UserKey>,
                   lo': Option<UserKey>, hi': Option<UserKey>)
    requires Scanning(files, i, inputs, level0, lo, hi, lo', hi') && i < |files|
    ensures !Overlaps(files[i], lo', hi') ==> Scanning(files, i + 1, inputs, level0, lo, hi, lo', hi')
    ensures Overlaps(files[i], lo', hi') && (level0 ==> Within(files[i], lo', hi')) ==>
              Scanning(files, i + 1, inputs + [files[i]], level0, lo, hi, lo', hi')
  {
    FilterOneMore(files, i, lo', hi');
  }

  lemma ScanWidens(files: Level, i: nat, inputs: Level, lo: Option<UserKey>, hi: Option<UserKey>,
                   lo': Option<UserKey>, hi': Option<UserKey>, lo'': Option<UserKey>, hi'': Option<UserKey>)
    requires Scanning(files, i, inputs, true, lo, hi, lo', hi') && i < |files| && Overlaps(files[i], lo', hi')
    requires forall g | g in files :: g.smallest.user <= g.largest.user
    requires (hi'' == hi' && lo' != None && lo'' == Some(files[i].smallest.user) && files[i].smallest.user < lo'.value)
          || (lo'' == lo' && hi' != None && hi'' == Some(files[i].largest.user) && files[i].largest.user > hi'.value)
    ensures Scanning(files, 0, [], true, lo, hi, lo'', hi'')
  {
    WideningStaysForced(files, lo, hi, lo', hi', files[i], lo'', hi'');
  }

  lemma ScannedIsLeastClosed(inputs: Level, files: Level, level0: bool, lo: Option<UserKey>, hi: Option<UserKey>,
                             lo': Option<UserKey>, hi': Option<UserKey>)
    requires Scanning(files, |files|, inputs, level0, lo, hi, lo', hi')
    requires forall f | f in files :: f.smallest.user <= f.largest.user
    ensures inputs == OverlapFilter(files, lo', hi')
    ensures level0 ==> ExactlyLeastClosed(inputs, files, lo, hi)
    ensures !level0 ==> lo' == lo && hi' == hi
  {
    assert files[..|files|] == files;
    assert forall f | f in inputs :: f in files && Overlaps(f, lo', hi');
  }

  /**
    All files of a level that overlap [begin, end].  At level 0 a file that sticks out of the range
    widens it and restarts the scan; `lo` and `hi` are the range the scan ended with.
  */
  method GetOverlappingInputs(v: Version, level: nat, begin: Option<InternalKey>, end: Option<InternalKey>)
    returns (inputs: Level, ghost lo: Option<UserKey>, ghost hi: Option<UserKey>)
    requires level < NUM_LEVELS
    requires forall f | f in v[level] :: f.smallest.user <= f.largest.user
    ensures inputs == OverlapFilter(v[level], lo, hi)
    ensures level > 0 ==> lo == UserOf(begin) && hi == UserOf(end)
    ensures level == 0 ==> ExactlyLeastClosed(inputs, v[0], UserOf(begin), UserOf(end))
  {
    hide Scanning, StartsBefore, EndsAfter, ExactlyLeastClosed, OverlapFilter;
    var files := v[level];
    var userBegin, userEnd := UserOf(begin), UserOf(end);
    ghost var from, upTo := userBegin, userEnd;
    inputs := [];
    var i := 0;
    ScanStarts(files, level == 0, from, upTo);
    while i < |files|
      invariant i <= |files| && Scanning(files, i, inputs, level == 0, from, upTo, userBegin, userEnd)
      decreases StartsBefore(files, userBegin) + EndsAfter(files, userEnd), |files| - i
    {
      var f := files[i];
      ScanPasses(files, i, inputs, level == 0, from, upTo, userBegin, userEnd);
      ghost var at, seen := i, inputs;
      i := i + 1;
      if Overlaps(f, userBegin, userEnd) {
        inputs := inputs + [f];
        if level == 0 {
          if userBegin.Some? && f.smallest.user < userBegin.value {
            LowerStartCountsFewer(files, userBegin.value, f);
            ScanWidens(files, at, seen, from, upTo, userBegin, userEnd, Some(f.smallest.user), userEnd);
            userBegin, inputs, i := Some(f.smallest.user), [], 0;
          } else if userEnd.Some? && f.largest.user > userEnd.value {
            HigherEndCountsFewer(files, userEnd.value, f);
            ScanWidens(files, at, seen, from, upTo, userBegin, userEnd, userBegin, Some(f.largest.user));
            userEnd, inputs, i := Some(f.largest.user), [], 0;
          }
        }
      }
    }
    ScannedIsLeastClosed(inputs, files, level == 0, from, upTo, userBegin, userEnd);
    lo, hi := userBegin, userEnd;
  }

  predicate Within(f: FileMeta, lo: Option<UserKey>, hi: Option<UserKey>) {
    && (lo.Some? ==> f.smallest.user >= lo.value)
    && (hi.Some? ==> f.largest.user <= hi.value)
  }

  /** Widening the range without catching more files catches the same files. */
  lemma {:induction false} SameCountSameFiles(files: Level, lo: Option<UserKey>, hi: Option<UserKey>,
                                              lo': Option<UserKey>, hi': Option<UserKey>)
    requires forall f | f in files && Overlaps(f, lo, hi) :: Overlaps(f, lo', hi')
    ensures |OverlapFilter(files, lo, hi)| <= |OverlapFilter(files, lo', hi')|
    ensures |OverlapFilter(files, lo, hi)| == |OverlapFilter(files, lo', hi')|
        ==> OverlapFilter(files, lo, hi) == OverlapFilter(files, lo', hi')
  {
    if files != [] {
      assert files == files[..|files| - 1] + [files[|files| - 1]];
      SameCountSameFiles(files[..|files| - 1], lo, hi, lo', hi');
      assert files[|files| - 1] in files;
    }
  }

  lemma {:induction false} FilterKeepsDistinct(files: Level, lo: Option<UserKey>, hi: Option<UserKey>)
    requires NumbersDistinct(files)
    ensures NumbersDistinct(OverlapFilter(files, lo, hi))
  {
    if files != [] {
      var front, last := files[..|files| - 1], files[|files| - 1];
      FilterKeepsDistinct(front, lo, hi);
      var kept := OverlapFilter(front, lo, hi);
      forall i | 0 <= i < |kept|
        ensures kept[i].number != last.number
      {
        assert kept[i] in kept;
        var j :| 0 <= j < |front| && front[j] == kept[i];
        assert files[j] == front[j];
      }
    }
  }

  // ---------------------------------------------------------------- runs of a sorted level

  ghost predicate IsRun(files: Level, sub: Level, a: nat, b: nat) {
    a < b <= |files| && sub == files[a..b]
  }

  /** At a sorted level the files overlapping a range are consecutive. */
  lemma {:induction false} OverlapIsRun(files: Level, lo: Option<UserKey>, hi: Option<UserKey>) returns (a: nat, b: nat)
    requires forall f | f in files :: FileOk(f)
    requires Disjoint(files)
    ensures a <= b <= |files| && OverlapFilter(files, lo, hi) == files[a..b]
  {
    if files == [] {
      a, b := 0, 0;
    } else {
      hide FileOk, OverlapFilter, Disjoint;
      var n := |files| - 1;
      PrefixOfLevel(files, n);
      a, b := OverlapIsRun(files[..n], lo, hi);
      SliceOfPrefix(files, n, a, b);
      a, b := RunGrows(files, lo, hi, a, b);
    }
  }

  lemma SliceOfPrefix(files: Level, n: nat, a: nat, b: nat)
    requires a <= b <= n <= |files|
    ensures files[..n][a..b] == files[a..b]
  {
  }

  /** A last file that overlaps is next to the run of those before it, or starts one. */
  lemma RunGrows(files: Level, lo: Option<UserKey>, hi: Option<UserKey>, a: nat, b: nat) returns (a': nat, b': nat)
    requires (forall f | f in files :: FileOk(f)) && Disjoint(files) && files != [] && a <= b < |files|
    requires OverlapFilter(files[..|files| - 1], lo, hi) == files[a..b]
    ensures a' <= b' <= |files| && OverlapFilter(files, lo, hi) == files[a'..b']
  {
    hide FileOk, OverlapFilter, Disjoint, Overlaps;
    var n := |files| - 1;
    FilterOneMore(files, n, lo, hi);
    assert files[..n + 1] == files;
    a', b' := a, b;
    if Overlaps(files[n], lo, hi) {
      if a == b {
        a', b' := n, n + 1;
      } else {
        RunReachesEnd(files, lo, hi, a, b);
        SliceExtends(files, a, n);
        b' := n + 1;
      }
    }
  }

  lemma SliceExtends(files: Level, a: nat, n: nat)
    requires a <= n < |files|
    ensures files[a..n] + [files[n]] == files[a..n + 1]
  {
  }

  lemma PrefixOfLevel(files: Level, n: nat)
    requires forall f | f in files :: FileOk(f)
    requires Disjoint(files) && n <= |files|
    ensures forall f | f in files[..n] :: FileOk(f)
    ensures Disjoint(files[..n])
  {
  }

  lemma RunReachesEnd(files: Level, lo: Option<UserKey>, hi: Option<UserKey>, a: nat, b: nat)
    requires forall f | f in files :: FileOk(f)
    requires Disjoint(files) && a < b < |files|
    requires OverlapFilter(files[..|files| - 1], lo, hi) == files[a..b]
    requires Overlaps(files[|files| - 1], lo, hi)
    ensures b == |files| - 1
  {
    hide FileOk, Less, OverlapFilter;
    if b < |files| - 1 {
      assert files[a] in files[a..b];
      LargestIncreases(files, a, b);
      LargestIncreases(files, b, |files| - 1);
      assert files[..|files| - 1][b] == files[b];
      assert files[b] in files[a..b];
      var j :| a <= j < b && files[j] == files[b];
      LargestIncreases(files, j, b);
    }
  }
}
