/**
  Versions: seven levels of table files, the invariant that makes level-by-level search correct,
  and the searches themselves (db/version_set.cc).
*/
module Versions {
  import opened Base
  import opened DbFormat
  import opened Reads

  const NUM_LEVELS := 7
  const MAX_MEM_COMPACT_LEVEL := 2

  /** A table file's metadata together with the sorted entries stored under its number. */
  datatype FileMeta = FileMeta(number: nat, size: nat, smallest: InternalKey, largest: InternalKey, entries: seq<Entry>)

  type Level = seq<FileMeta>

  type Version = v: seq<Level> | |v| == NUM_LEVELS witness [[], [], [], [], [], [], []]

  predicate FileOk(f: FileMeta) {
    && f.entries != [] && Sorted(f.entries)
    && f.smallest == f.entries[0].key
    && f.largest == f.entries[|f.entries| - 1].key
  }

  predicate Disjoint(files: Level) {
    forall i, j | 0 <= i < j < |files| :: Less(files[i].largest, files[j].smallest)
  }

  predicate NumbersDistinct(files: Level) {
    forall i, j | 0 <= i < j < |files| :: files[i].number != files[j].number
  }

  /** For every user key they share, all of `f`'s entries are newer than all of `g`'s. */
  ghost predicate Newer(f: FileMeta, g: FileMeta) {
    forall d, e | d in f.entries && e in g.entries && d.key.user == e.key.user :: d.key.sequence > e.key.sequence
  }

  ghost function LevelEntries(files: Level): set<Entry> {
    set f, e | f in files && e in f.entries :: e
  }

  ghost function VersionEntries(v: Version): set<Entry> {
    set l, e | 0 <= l < NUM_LEVELS && e in LevelEntries(v[l]) :: e
  }

  /** Level 0 may overlap but is ordered by file number; deeper levels are sorted and disjoint. */
  ghost predicate LevelOk(v: Version, l: nat)
    requires l < NUM_LEVELS
  {
    && (forall f | f in v[l] :: FileOk(f))
    && NumbersDistinct(v[l])
    && (l == 0 ==> forall f, g | f in v[0] && g in v[0] && f.number > g.number :: Newer(f, g))
    && (l > 0 ==> Disjoint(v[l]))
  }

  /** Entries never hop over newer ones: whatever a shallower level holds for a key is newer than anything deeper. */
  ghost predicate Layered(v: Version) {
    forall l, m, f, g | 0 <= l < m < NUM_LEVELS && f in v[l] && g in v[m] :: Newer(f, g)
  }

  ghost predicate VersionOk(v: Version) {
    && (forall l | 0 <= l < NUM_LEVELS :: LevelOk(v, l))
    && Layered(v)
    && UniqueSeqs(VersionEntries(v))
  }

  lemma EntryBounds(f: FileMeta, e: Entry)
    requires FileOk(f) && e in f.entries
    ensures !Less(e.key, f.smallest) && !Less(f.largest, e.key)
    ensures f.smallest.user <= e.key.user <= f.largest.user
  {
    var i :| 0 <= i < |f.entries| && f.entries[i] == e;
    assert i == 0 || Less(f.entries[0].key, f.entries[i].key);
    assert i == |f.entries| - 1 || Less(f.entries[i].key, f.entries[|f.entries| - 1].key);
  }

  /** Where the binary search between two places ends, in whatever order the files are. */
  function FindBetween(files: Level, key: InternalKey, left: nat, right: nat): (index: nat)
    requires left <= right <= |files|
    ensures left <= index <= right
    decreases right - left
  {
    if left == right then right
    else
      var mid := (left + right) / 2;
      if Less(files[mid].largest, key) then FindBetween(files, key, mid + 1, right) else FindBetween(files, key, left, mid)
  }

  /** Among files in order it ends at the first one whose largest key is at or after `key`. */
  lemma {:induction false} FindBetweenSplits(files: Level, key: InternalKey, left: nat, right: nat)
    requires (forall f | f in files :: FileOk(f)) && Disjoint(files) && left <= right <= |files|
    requires forall i | 0 <= i < left :: Less(files[i].largest, key)
    requires forall i | right <= i < |files| :: !Less(files[i].largest, key)
    ensures var index := FindBetween(files, key, left, right);
            && (forall i | 0 <= i < index :: Less(files[i].largest, key))
            && (forall i | index <= i < |files| :: !Less(files[i].largest, key))
    decreases right - left
  {
    if left < right {
      var mid := (left + right) / 2;
      LargestAround(files, key, mid);
      if Less(files[mid].largest, key) {
        FindBetweenSplits(files, key, mid + 1, right);
      } else {
        FindBetweenSplits(files, key, left, mid);
      }
    }
  }

  lemma LargestAround(files: Level, key: InternalKey, mid: nat)
    requires (forall f | f in files :: FileOk(f)) && Disjoint(files) && mid < |files|
    ensures Less(files[mid].largest, key) ==> forall i | 0 <= i < mid :: Less(files[i].largest, key)
    ensures !Less(files[mid].largest, key) ==> forall i | mid < i < |files| :: !Less(files[i].largest, key)
  {
    forall i | 0 <= i < |files| && i != mid
      ensures i < mid && Less(files[mid].largest, key) ==> Less(files[i].largest, key)
      ensures mid < i && !Less(files[mid].largest, key) ==> !Less(files[i].largest, key)
    {
      if i < mid {
        LargestIncreases(files, i, mid);
      } else {
        LargestIncreases(files, mid, i);
      }
      LessIsTotalOrder(files[i].largest, files[mid].largest, key);
      LessIsTotalOrder(files[mid].largest, files[i].largest, key);
    }
  }

  /** Binary search for the earliest file whose largest key is at or after `key`. */
  method FindFile(files: Level, key: InternalKey) returns (index: nat)
    ensures index <= |files| && index == FindBetween(files, key, 0, |files|)
    ensures (forall f | f in files :: FileOk(f)) && Disjoint(files) ==>
              && (forall i | 0 <= i < index :: Less(files[i].largest, key))
              && (forall i | index <= i < |files| :: !Less(files[i].largest, key))
  {
    var left, right := 0, |files|;
    while left < right
      invariant 0 <= left <= right <= |files|
      invariant FindBetween(files, key, left, right) == FindBetween(files, key, 0, |files|)
    {
      var mid := (left + right) / 2;
      if Less(files[mid].largest, key) {
        left := mid + 1;
      } else {
        right := mid;
      }
    }
    index := right;
    if (forall f | f in files :: FileOk(f)) && Disjoint(files) {
      FindBetweenSplits(files, key, 0, |files|);
    }
  }

  lemma LargestIncreases(files: Level, i: nat, j: nat)
    requires forall f | f in files :: FileOk(f)
    requires Disjoint(files) && i < j < |files|
    ensures Less(files[i].largest, files[j].largest)
    ensures Less(files[i].smallest, files[j].smallest)
  {
    var f, g := files[i], files[j];
    assert g in files && f in files;
    EntryBounds(g, g.entries[0]);
    EntryBounds(f, f.entries[0]);
    LessIsTotalOrder(f.largest, g.smallest, g.largest);
    LessIsTotalOrder(f.smallest, f.largest, g.smallest);
  }

  // ---------------------------------------------------------------- overlap

  predicate AfterFile(user: Option<UserKey>, f: FileMeta) {
    user.Some? && user.value > f.largest.user
  }

  predicate BeforeFile(user: Option<UserKey>, f: FileMeta) {
    user.Some? && user.value < f.smallest.user
  }

  /** The file's user-key range meets [lo, hi]; None stands for an open end. */
  predicate Overlaps(f: FileMeta, lo: Option<UserKey>, hi: Option<UserKey>) {
    !AfterFile(lo, f) && !BeforeFile(hi, f)
  }

  method SomeFileOverlapsRange(disjointSorted: bool, files: Level, lo: Option<UserKey>, hi: Option<UserKey>)
    returns (b: bool)
    requires forall f | f in files :: FileOk(f)
    requires disjointSorted ==> Disjoint(files)
    ensures b <==> exists f | f in files :: Overlaps(f, lo, hi)
  {
    if !disjointSorted {
      for i := 0 to |files|
        invariant forall j | 0 <= j < i :: !Overlaps(files[j], lo, hi)
      {
        var f := files[i];
        if AfterFile(lo, f) || BeforeFile(hi, f) {
        } else {
          assert f in files && Overlaps(f, lo, hi);
          return true;
        }
      }
      return false;
    }
    var index := 0;
    if lo.Some? {
      index := FindFile(files, LookupKey(lo.value, MAX_SEQUENCE));
    }
    forall i | 0 <= i < |files|
      ensures i < index <==> AfterFile(lo, files[i])
    {
      if lo.Some? {
        LookupKeySplits(files[i].largest, lo.value, MAX_SEQUENCE);
      }
    }
    if index >= |files| {
      return false;
    }
    b := !BeforeFile(hi, files[index]);
    forall i | index < i < |files|
      ensures files[index].smallest.user <= files[i].smallest.user
    {
      LargestIncreases(files, index, i);
    }
    assert files[index] in files;
  }

  // ---------------------------------------------------------------- lookup

  /** What a table's Get hands back: its first entry at or after the lookup key, if that has the right user key. */
  function TableGet(f: FileMeta, k: UserKey, s: SequenceNumber): Option<Entry> {
    var i := Seek(f.entries, LookupKey(k, s));
    if i < |f.entries| && f.entries[i].key.user == k then Some(f.entries[i]) else None
  }

  function InsertNewestFirst(files: Level, f: FileMeta): Level {
    if files == [] || f.number > files[0].number then [f] + files
    else [files[0]] + InsertNewestFirst(files[1..], f)
  }

  ghost predicate IsNewestFirst(files: Level) {
    forall i, j | 0 <= i < j < |files| :: files[i].number > files[j].number
  }

  lemma {:induction false} InsertNewestFirstKeeps(files: Level, f: FileMeta)
    ensures forall g :: g in InsertNewestFirst(files, f) <==> g == f || g in files
    ensures IsNewestFirst(files) && (forall g | g in files :: g.number != f.number) ==> IsNewestFirst(InsertNewestFirst(files, f))
  {
    if files != [] && f.number <= files[0].number {
      var rest := InsertNewestFirst(files[1..], f);
      InsertNewestFirstKeeps(files[1..], f);
      assert forall g :: g in files <==> g == files[0] || g in files[1..];
      assert forall j | 0 <= j < |rest| :: rest[j] in rest;
    }
  }

  /** The level-0 files whose range contains the key, sorted by number, newest first. */
  function NewestFirst(files: Level, k: UserKey): Level {
    if files == [] then []
    else
      var f, r := files[|files| - 1], NewestFirst(files[..|files| - 1], k);
      if k >= f.smallest.user && k <= f.largest.user then InsertNewestFirst(r, f) else r
  }

  lemma {:induction false} NewestFirstHolds(files: Level, k: UserKey)
    ensures forall f :: f in NewestFirst(files, k) <==> f in files && f.smallest.user <= k <= f.largest.user
    ensures NumbersDistinct(files) ==> IsNewestFirst(NewestFirst(files, k))
  {
    hide InsertNewestFirst;
    if files != [] {
      var front, f := files[..|files| - 1], files[|files| - 1];
      NewestFirstHolds(front, k);
      InsertNewestFirstKeeps(NewestFirst(front, k), f);
      assert files == front + [f];
    }
  }

  /** The level-0 files whose range contains the key, newest number first. */
  method CollectLevel0(files: Level, k: UserKey) returns (r: Level)
    ensures r == NewestFirst(files, k)
    ensures forall f :: f in r <==> f in files && f.smallest.user <= k <= f.largest.user
    ensures NumbersDistinct(files) ==> forall i, j | 0 <= i < j < |r| :: r[i].number > r[j].number
  {
    r := [];
    for i := 0 to |files|
      invariant r == NewestFirst(files[..i], k)
    {
      var f := files[i];
      assert files[..i + 1][..i] == files[..i];
      if k >= f.smallest.user && k <= f.largest.user {
        r := InsertNewestFirst(r, f);
      }
    }
    assert files[..|files|] == files;
    NewestFirstHolds(files, k);
  }

  /** No entry visible for `k` at `s` in these files is newer than the newest one in `f`. */
  ghost predicate Covers(f: FileMeta, files: Level, k: UserKey, s: SequenceNumber) {
    forall g, e | g in files && e in g.entries && Matches(e, k, s) ::
      var n := Newest(Elems(f.entries), k, s);
      n.Some? && n.value.key.sequence >= e.key.sequence
  }

  /** The one file of a deeper level that is searched: the first to reach the lookup key, unless it begins behind it. */
  function FileFor(files: Level, k: UserKey, s: SequenceNumber): Level {
    var index := FindBetween(files, LookupKey(k, s), 0, |files|);
    if index < |files| && k >= files[index].smallest.user then [files[index]] else []
  }

  /** At a sorted level, only that file can hold the newest visible entry. */
  lemma FileForCovers(files: Level, k: UserKey, s: SequenceNumber)
    requires (forall f | f in files :: FileOk(f)) && Disjoint(files)
    ensures FileFor(files, k, s) == [] ==> Newest(LevelEntries(files), k, s) == None
    ensures FileFor(files, k, s) != [] ==> Covers(FileFor(files, k, s)[0], files, k, s)
  {
    var index := FindBetween(files, LookupKey(k, s), 0, |files|);
    FindBetweenSplits(files, LookupKey(k, s), 0, |files|);
    forall f, e | f in files && e in f.entries && Matches(e, k, s)
      ensures FileFor(files, k, s) != []
      ensures var n := Newest(Elems(files[index].entries), k, s);
              n.Some? && n.value.key.sequence >= e.key.sequence
    {
      MatchIsInFoundFile(files, k, s, index, f, e);
    }
    NewestIsNone(LevelEntries(files), k, s);
  }

  method CollectDeeper(files: Level, k: UserKey, s: SequenceNumber) returns (r: Level)
    ensures r == FileFor(files, k, s) && |r| <= 1 && forall f | f in r :: f in files
    ensures (forall f | f in files :: FileOk(f)) && Disjoint(files) ==>
              if r == [] then Newest(LevelEntries(files), k, s) == None else Covers(r[0], files, k, s)
  {
    var index := FindFile(files, LookupKey(k, s));
    if index < |files| && k >= files[index].smallest.user {
      r := [files[index]];
    } else {
      r := [];
    }
    if (forall f | f in files :: FileOk(f)) && Disjoint(files) {
      FileForCovers(files, k, s);
    }
  }

  lemma MatchIsInFoundFile(files: Level, k: UserKey, s: SequenceNumber, index: nat, f: FileMeta, e: Entry)
    requires forall g | g in files :: FileOk(g)
    requires Disjoint(files) && index <= |files|
    requires forall i | 0 <= i < index :: Less(files[i].largest, LookupKey(k, s))
    requires forall i | index <= i < |files| :: !Less(files[i].largest, LookupKey(k, s))
    requires f in files && e in f.entries && Matches(e, k, s)
    ensures index < |files| && files[index].smallest.user <= k
    ensures var n := Newest(Elems(files[index].entries), k, s);
            n.Some? && n.value.key.sequence >= e.key.sequence
  {
    EntryBounds(f, e);
    LookupKeySplits(e.key, k, s);
    var i :| 0 <= i < |files| && files[i] == f;
    LessIsTotalOrder(e.key, f.largest, LookupKey(k, s));
    assert i >= index;
    if i > index {
      var g := files[index];
      assert g in files && Less(g.largest, f.smallest);
      var last := g.entries[|g.entries| - 1];
      LookupKeySplits(g.largest, k, s);
      EntryBounds(g, last);
      LessIsTotalOrder(g.largest, f.smallest, e.key);
      assert last in Elems(g.entries) && Matches(last, k, s);
      NewestExists(Elems(g.entries), k, s, last);
    } else {
      assert e in Elems(f.entries);
      NewestExists(Elems(f.entries), k, s, e);
    }
  }

  lemma FileIsUnique(v: Version, l: nat, f: FileMeta)
    requires UniqueSeqs(VersionEntries(v)) && l < NUM_LEVELS && f in v[l]
    ensures forall e | e in f.entries :: e in LevelEntries(v[l]) && e in VersionEntries(v)
    ensures UniqueSeqs(Elems(f.entries)) && UniqueSeqs(LevelEntries(v[l]))
  {
    forall e | e in LevelEntries(v[l])
      ensures e in VersionEntries(v)
    {
    }
  }

  ghost predicate IsFirstHit(files: Level, i: nat, k: UserKey, s: SequenceNumber, hit: Entry) {
    && i < |files|
    && Newest(Elems(files[i].entries), k, s) == Some(hit)
    && forall j | 0 <= j < i :: Newest(Elems(files[j].entries), k, s) == None
  }

  /** The first of the files that has an entry for the key decides. */
  function FirstHit(files: Level, k: UserKey, s: SequenceNumber): Option<Entry> {
    if files == [] then None
    else
      var hit := TableGet(files[0], k, s);
      if hit.Some? then hit else FirstHit(files[1..], k, s)
  }

  lemma TableGetIsNewest(f: FileMeta, k: UserKey, s: SequenceNumber)
    requires FileOk(f) && UniqueSeqs(Elems(f.entries))
    ensures TableGet(f, k, s) == Newest(Elems(f.entries), k, s)
  {
    SeekFindsNewest(f.entries, k, s);
  }

  lemma {:induction false} FirstHitIs(files: Level, k: UserKey, s: SequenceNumber)
    requires forall f | f in files :: FileOk(f) && UniqueSeqs(Elems(f.entries))
    ensures FirstHit(files, k, s) == None ==> forall f | f in files :: Newest(Elems(f.entries), k, s) == None
    ensures FirstHit(files, k, s).Some? ==> exists i: nat :: IsFirstHit(files, i, k, s, FirstHit(files, k, s).value)
  {
    hide FileOk, UniqueSeqs, Newest, Elems, TableGet;
    if files != [] {
      TableGetIsNewest(files[0], k, s);
      FirstHitIs(files[1..], k, s);
      if TableGet(files[0], k, s).Some? {
        assert IsFirstHit(files, 0, k, s, TableGet(files[0], k, s).value);
      } else {
        LaterHit(files, k, s);
      }
    }
  }

  lemma LaterHit(files: Level, k: UserKey, s: SequenceNumber)
    requires files != [] && Newest(Elems(files[0].entries), k, s) == None
    ensures forall i: nat, hit | IsFirstHit(files[1..], i, k, s, hit) :: IsFirstHit(files, i + 1, k, s, hit)
  {
    hide Newest, Elems;
  }

  /** Searches one level's candidate files in order and stops at the first that knows the key. */
  method SearchFiles(files: Level, k: UserKey, s: SequenceNumber) returns (r: Option<Entry>)
    ensures r == FirstHit(files, k, s)
  {
    for i := 0 to |files|
      invariant FirstHit(files[i..], k, s) == FirstHit(files, k, s)
    {
      var saver := TableGet(files[i], k, s);
      assert files[i..][1..] == files[i + 1..];
      if saver.Some? {
        return saver;
      }
    }
    r := None;
  }

  /** The files of a level that are searched for the key, in order. */
  function Candidates(files: Level, l: nat, k: UserKey, s: SequenceNumber): Level {
    if l == 0 then NewestFirst(files, k) else FileFor(files, k, s)
  }

  lemma Level0HitIsNewest(v: Version, k: UserKey, s: SequenceNumber)
    requires LevelOk(v, 0) && UniqueSeqs(VersionEntries(v))
    ensures FirstHit(NewestFirst(v[0], k), k, s) == Newest(LevelEntries(v[0]), k, s)
  {
    var files := NewestFirst(v[0], k);
    NewestFirstHolds(v[0], k);
    Level0CandidatesFit(v, k);
    LevelIsUnique(v, 0);
    hide FileOk, UniqueSeqs, Newest, Elems, LevelEntries, VersionEntries, FirstHit, NewestFirst, Newer, IsNewest;
    FirstHitIs(files, k, s);
    match FirstHit(files, k, s) {
      case Some(hit) =>
        var i: nat :| IsFirstHit(files, i, k, s, hit);
        FirstHitIsNewest(v[0], files, i, k, s, hit);
        NewestIs(LevelEntries(v[0]), k, s, hit);
      case None =>
        NoHitMeansNone(v[0], files, k, s);
    }
  }

  lemma Level0CandidatesFit(v: Version, k: UserKey)
    requires LevelOk(v, 0) && UniqueSeqs(VersionEntries(v))
    ensures forall f | f in NewestFirst(v[0], k) :: f in v[0] && FileOk(f) && UniqueSeqs(Elems(f.entries))
    ensures forall f, e | f in v[0] && e in f.entries && e.key.user == k :: f in NewestFirst(v[0], k)
  {
    NewestFirstHolds(v[0], k);
    forall f | f in v[0]
      ensures UniqueSeqs(Elems(f.entries))
    {
      FileIsUnique(v, 0, f);
    }
    forall f, e | f in v[0] && e in f.entries && e.key.user == k
      ensures f in NewestFirst(v[0], k)
    {
      EntryBounds(f, e);
    }
  }

  lemma LevelIsUnique(v: Version, l: nat)
    requires UniqueSeqs(VersionEntries(v)) && l < NUM_LEVELS
    ensures UniqueSeqs(LevelEntries(v[l]))
  {
    assert forall e | e in LevelEntries(v[l]) :: e in VersionEntries(v);
  }

  /** When no file that could hold the key has a visible entry of it, the level has none. */
  lemma NoHitMeansNone(level: Level, files: Level, k: UserKey, s: SequenceNumber)
    requires forall f, e | f in level && e in f.entries && e.key.user == k :: f in files
    requires forall f | f in files :: UniqueSeqs(Elems(f.entries)) && Newest(Elems(f.entries), k, s) == None
    requires UniqueSeqs(LevelEntries(level))
    ensures Newest(LevelEntries(level), k, s) == None
  {
    NewestIsNone(LevelEntries(level), k, s);
    forall f | f in files
      ensures forall e | e in Elems(f.entries) :: !Matches(e, k, s)
    {
      NewestIsNone(Elems(f.entries), k, s);
    }
  }

  lemma FirstHitIsNewest(level: Level, files: Level, i: nat, k: UserKey, s: SequenceNumber, hit: Entry)
    requires forall f, g | f in level && g in level && f.number > g.number :: Newer(f, g)
    requires forall f | f in files :: f in level
    requires forall a, b | 0 <= a < b < |files| :: files[a].number > files[b].number
    requires forall f, e | f in level && e in f.entries && e.key.user == k :: f in files
    requires IsFirstHit(files, i, k, s, hit)
    ensures IsNewest(LevelEntries(level), k, s, hit)
  {
    assert hit in files[i].entries && files[i] in level;
    forall x | x in LevelEntries(level) && Matches(x, k, s)
      ensures x.key.sequence <= hit.key.sequence
    {
      var f :| f in level && x in f.entries;
      var j :| 0 <= j < |files| && files[j] == f;
      if j > i {
        assert Newer(files[i], f);
      } else {
        assert x in Elems(files[j].entries);
        NewestIsNone(Elems(files[j].entries), k, s);
      }
    }
  }

  lemma DeeperHitIsNewest(v: Version, l: nat, k: UserKey, s: SequenceNumber)
    requires 0 < l < NUM_LEVELS && LevelOk(v, l) && UniqueSeqs(VersionEntries(v))
    ensures FirstHit(FileFor(v[l], k, s), k, s) == Newest(LevelEntries(v[l]), k, s)
  {
    var files := FileFor(v[l], k, s);
    FileForCovers(v[l], k, s);
    if files != [] {
      var f := files[0];
      FileIsUnique(v, l, f);
      SoleCandidateIsNewest(v[l], f, k, s);
      SeekFindsNewest(f.entries, k, s);
      assert files[1..] == [];
    }
  }

  lemma SoleCandidateIsNewest(level: Level, f: FileMeta, k: UserKey, s: SequenceNumber)
    requires f in level && Covers(f, level, k, s) && UniqueSeqs(LevelEntries(level))
    ensures Newest(LevelEntries(level), k, s) == Newest(Elems(f.entries), k, s)
  {
    NewestIsNone(LevelEntries(level), k, s);
    match Newest(Elems(f.entries), k, s)
    case None =>
    case Some(hit) =>
      assert hit in f.entries;
      assert IsNewest(LevelEntries(level), k, s, hit);
  }

  /** The search of a version from level `l` down: the first level that knows the key decides. */
  function SearchFrom(v: Version, l: nat, k: UserKey, s: SequenceNumber): Option<Entry>
    requires l <= NUM_LEVELS
    decreases NUM_LEVELS - l
  {
    if l == NUM_LEVELS then None
    else
      var hit := FirstHit(Candidates(v[l], l, k, s), k, s);
      if hit.Some? then hit else SearchFrom(v, l + 1, k, s)
  }

  /** In a good version the search finds the newest visible entry. */
  lemma {:induction false} SearchFindsNewest(v: Version, l: nat, k: UserKey, s: SequenceNumber)
    requires VersionOk(v) && l <= NUM_LEVELS
    requires forall m | 0 <= m < l :: Newest(LevelEntries(v[m]), k, s) == None
    ensures SearchFrom(v, l, k, s) == Newest(VersionEntries(v), k, s)
    decreases NUM_LEVELS - l
  {
    hide Newest, VersionEntries, LevelEntries, UniqueSeqs, Layered, LevelOk, FirstHit, NewestFirst, FileFor;
    if l == NUM_LEVELS {
      AllLevelsEmpty(v, k, s);
    } else {
      assert LevelOk(v, l);
      if l == 0 {
        Level0HitIsNewest(v, k, s);
      } else {
        DeeperHitIsNewest(v, l, k, s);
      }
      if FirstHit(Candidates(v[l], l, k, s), k, s).Some? {
        FirstLevelDecides(v, k, s, l);
      } else {
        SearchFindsNewest(v, l + 1, k, s);
      }
    }
  }

  /** Level-by-level search, stopping at the first level that has a visible entry for the key. */
  method Get(v: Version, k: UserKey, s: SequenceNumber) returns (r: Option<Bytes>)
    ensures r == Meaning(SearchFrom(v, 0, k, s))
    ensures VersionOk(v) ==> r == Read(VersionEntries(v), k, s)
  {
    if VersionOk(v) {
      SearchFindsNewest(v, 0, k, s);
    }
    var level := 0;
    while level < NUM_LEVELS
      invariant 0 <= level <= NUM_LEVELS
      invariant SearchFrom(v, level, k, s) == SearchFrom(v, 0, k, s)
    {
      var files;
      if level == 0 {
        files := CollectLevel0(v[level], k);
      } else {
        files := CollectDeeper(v[level], k, s);
      }
      var hit := SearchFiles(files, k, s);
      if hit.Some? {
        return Meaning(hit);
      }
      level := level + 1;
    }
    r := None;
  }

  lemma AllLevelsEmpty(v: Version, k: UserKey, s: SequenceNumber)
    requires forall l | 0 <= l < NUM_LEVELS :: Newest(LevelEntries(v[l]), k, s) == None
    ensures Newest(VersionEntries(v), k, s) == None
  {
    forall l | 0 <= l < NUM_LEVELS
      ensures forall e | e in LevelEntries(v[l]) :: !Matches(e, k, s)
    {
      NewestIsNone(LevelEntries(v[l]), k, s);
    }
    NewestIsNone(VersionEntries(v), k, s);
  }

  /** The shallowest level with a visible entry holds the newest visible entry of the whole version. */
  lemma FirstLevelDecides(v: Version, k: UserKey, s: SequenceNumber, level: nat)
    requires Layered(v) && UniqueSeqs(VersionEntries(v)) && level < NUM_LEVELS
    requires forall l | 0 <= l < level :: Newest(LevelEntries(v[l]), k, s) == None
    requires Newest(LevelEntries(v[level]), k, s).Some?
    ensures Newest(VersionEntries(v), k, s) == Newest(LevelEntries(v[level]), k, s)
  {
    var hit := Newest(LevelEntries(v[level]), k, s).value;
    var f :| f in v[level] && hit in f.entries;
    forall x | x in VersionEntries(v) && Matches(x, k, s)
      ensures x.key.sequence <= hit.key.sequence
    {
      var l :| 0 <= l < NUM_LEVELS && x in LevelEntries(v[l]);
      NewestIsNone(LevelEntries(v[l]), k, s);
      if l > level {
        var g :| g in v[l] && x in g.entries;
        assert Newer(f, g);
      }
    }
    assert hit in VersionEntries(v);
    assert IsNewest(VersionEntries(v), k, s, hit);
  }
}
