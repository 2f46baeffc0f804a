/**
  The store's parts as sorted lists: what a compaction merges, what an iterator over the database
  merges, and why reading them is looking a key up in the write history (db/db_impl.cc, db/version_set.cc).
*/
module StoreReads {
  import opened Base
  import opened DbFormat
  import opened Reads
  import opened Versions
  import opened Picking
  import opened CompactionPicking
  import opened DropRules
  import opened Edits
  import opened Engine
  import opened EngineSafety
  import opened Merging
  import opened TwoLevel
  import DbIter

  /** A memtable's Get: the first entry at or after the lookup key, if it has the right user key. */
  function MemTableGet(mem: seq<Entry>, k: UserKey, s: SequenceNumber): Option<Entry> {
    var i := Seek(mem, LookupKey(k, s));
    if i < |mem| && mem[i].key.user == k then Some(mem[i]) else None
  }

  // ---------------------------------------------------------------- compaction inputs as lists

  function Contents(files: Level): seq<seq<Entry>> {
    seq(|files|, i requires 0 <= i < |files| => files[i].entries)
  }

  /** The child lists of a compaction's input iterator: level-0 files one by one, deeper levels concatenated. */
  function InputLists(level: nat, in0: Level, in1: Level): seq<seq<Entry>> {
    (if level == 0 then Contents(in0) else [Flatten(Contents(in0))]) + [Flatten(Contents(in1))]
  }

  lemma {:induction false} FlattenFiles(files: Level)
    requires (forall f | f in files :: FileOk(f)) && Disjoint(files)
    ensures Sorted(Flatten(Contents(files)))
    ensures Elems(Flatten(Contents(files))) == LevelEntries(files)
  {
    if files != [] {
      var n := |files| - 1;
      PrefixOfLevel(files, n);
      FlattenFiles(files[..n]);
      assert Contents(files)[..n] == Contents(files[..n]);
      var flat := Flatten(Contents(files[..n]));
      FlattenOneMore(files, flat);
      assert Flatten(Contents(files)) == flat + files[n].entries;
    }
  }

  lemma PrefixOfLevel(files: Level, n: nat)
    requires (forall f | f in files :: FileOk(f)) && Disjoint(files) && n <= |files|
    ensures (forall f | f in files[..n] :: FileOk(f)) && Disjoint(files[..n])
  {
  }

  lemma FlattenOneMore(files: Level, flat: seq<Entry>)
    requires (forall f | f in files :: FileOk(f)) && Disjoint(files) && files != []
    requires Sorted(flat) && Elems(flat) == LevelEntries(files[..|files| - 1])
    ensures Sorted(flat + files[|files| - 1].entries)
    ensures Elems(flat + files[|files| - 1].entries) == LevelEntries(files)
  {
    var n := |files| - 1;
    var front, last := files[..n], files[n];
    assert files == front + [last];
    assert LevelEntries(files) == LevelEntries(front) + Elems(last.entries);
    if flat != [] {
      var e := flat[|flat| - 1];
      assert e in Elems(flat);
      var g :| g in front && e in g.entries;
      var i :| 0 <= i < n && files[i] == g;
      EntryBounds(g, e);
      LessIsTotalOrder(e.key, g.largest, last.smallest);
    }
    SortedConcat(flat, last.entries);
  }

  lemma RunIsDisjoint(files: Level, sub: Level)
    requires Disjoint(files) && IsSomeRun(files, sub)
    ensures Disjoint(sub)
  {
    var a: nat, b: nat :| IsRun(files, sub, a, b);
    assert forall i | 0 <= i < |sub| :: sub[i] == files[a + i];
  }

  lemma NextLevelIsDisjoint(v: Version, level: nat, in0: Level)
    requires VersionOk(v) && level + 1 < NUM_LEVELS && in0 != []
    ensures Disjoint(NextLevelInputs(v, level, in0))
    ensures forall f | f in NextLevelInputs(v, level, in0) :: FileOk(f)
  {
    LevelFacts(v, level + 1);
    var a, b := OverlapIsRun(v[level + 1], Some(SmallestKey(in0).user), Some(LargestKey(in0).user));
    var sub := v[level + 1][a..b];
    assert forall i | 0 <= i < |sub| :: sub[i] == v[level + 1][a + i];
  }

  /** Merging the child lists gives the input entries in order: what the compaction loop runs over. */
  lemma InputsMerge(v: Version, level: nat, in0: Level, in1: Level)
    requires VersionOk(v) && ValidPick(v, level, in0, in1)
    ensures Mergeable(InputLists(level, in0, in1))
    ensures Sorted(MergeAll(InputLists(level, in0, in1)))
    ensures Elems(MergeAll(InputLists(level, in0, in1))) == InputEntries(in0, in1)
  {
    LevelFacts(v, level);
    NextLevelIsDisjoint(v, level, in0);
    FlattenFiles(in1);
    if level == 0 {
      Level0Mergeable(v, in0, in1);
    } else {
      RunIsDisjoint(v[level], in0);
      FlattenFiles(in0);
      DeeperMergeable(v, level, in0, in1);
      assert InputLists(level, in0, in1) == [Flatten(Contents(in0)), Flatten(Contents(in1))];
    }
    MergeAllIsSorted(InputLists(level, in0, in1));
    ListsHoldInputs(level, in0, in1);
  }

  lemma DeeperMergeable(v: Version, level: nat, in0: Level, in1: Level)
    requires VersionOk(v) && ValidPick(v, level, in0, in1)
    requires Sorted(Flatten(Contents(in0))) && Elems(Flatten(Contents(in0))) == LevelEntries(in0)
    requires Sorted(Flatten(Contents(in1))) && Elems(Flatten(Contents(in1))) == LevelEntries(in1)
    ensures Mergeable([Flatten(Contents(in0)), Flatten(Contents(in1))])
  {
    LayersShareNoKey(v, level, in0, in1);
    DisjointElems(Flatten(Contents(in0)), Flatten(Contents(in1)), LevelEntries(in0), LevelEntries(in1));
  }

  lemma DisjointElems(a: seq<Entry>, b: seq<Entry>, S: set<Entry>, T: set<Entry>)
    requires Elems(a) == S && Elems(b) == T && forall d, e | d in S && e in T :: d.key != e.key
    ensures NoSharedKey(a, b)
  {
    assert forall x | x in a :: x in Elems(a);
    assert forall y | y in b :: y in Elems(b);
  }

  lemma LayersShareNoKey(v: Version, level: nat, in0: Level, in1: Level)
    requires VersionOk(v) && level + 1 < NUM_LEVELS
    requires (forall f | f in in0 :: f in v[level]) && (forall f | f in in1 :: f in v[level + 1])
    ensures forall d, e | d in LevelEntries(in0) && e in LevelEntries(in1) :: d.key != e.key
  {
    forall d, e | d in LevelEntries(in0) && e in LevelEntries(in1)
      ensures d.key != e.key
    {
      var f :| f in in0 && d in f.entries;
      var g :| g in in1 && e in g.entries;
      ShallowerIsNewer(v, level, f, level + 1, g);
    }
  }

  lemma Level0Mergeable(v: Version, in0: Level, in1: Level)
    requires VersionOk(v) && ValidPick(v, 0, in0, in1)
    requires Sorted(Flatten(Contents(in1))) && Elems(Flatten(Contents(in1))) == LevelEntries(in1)
    ensures Mergeable(Contents(in0) + [Flatten(Contents(in1))])
  {
    LevelFacts(v, 0);
    assert LevelOk(v, 0);
    hide Sorted, Less, Flatten, VersionOk;
    var lists := Contents(in0) + [Flatten(Contents(in1))];
    LayersShareNoKey(v, 0, in0, in1);
    forall i | 0 <= i < |lists|
      ensures Sorted(lists[i])
    {
      if i < |in0| {
        assert lists[i] == in0[i].entries && in0[i] in in0;
      }
    }
    forall i, j | 0 <= i < j < |lists|
      ensures NoSharedKey(lists[i], lists[j])
    {
      if j < |in0| {
        Level0FilesShareNoKey(v, in0, i, j);
      } else {
        var f := in0[i];
        assert f in in0 && forall e | e in f.entries :: e in LevelEntries(in0);
        assert forall y | y in lists[j] :: y in Elems(lists[j]);
      }
    }
  }

  lemma Level0FilesShareNoKey(v: Version, in0: Level, i: nat, j: nat)
    requires LevelOk(v, 0) && NumbersDistinct(in0) && i < j < |in0| && forall f | f in in0 :: f in v[0]
    ensures NoSharedKey(in0[i].entries, in0[j].entries)
  {
    assert in0[i] in in0 && in0[j] in in0;
    assert Newer(in0[i], in0[j]) || Newer(in0[j], in0[i]);
  }

  lemma ListsHoldInputs(level: nat, in0: Level, in1: Level)
    requires Elems(Flatten(Contents(in1))) == LevelEntries(in1)
    requires level > 0 ==> Elems(Flatten(Contents(in0))) == LevelEntries(in0)
    requires forall e: Entry :: e in MergeAll(InputLists(level, in0, in1)) <==>
               exists i :: 0 <= i < |InputLists(level, in0, in1)| && e in InputLists(level, in0, in1)[i]
    ensures Elems(MergeAll(InputLists(level, in0, in1))) == InputEntries(in0, in1)
  {
    var lists := InputLists(level, in0, in1);
    var n := |lists| - 1;
    assert lists[n] == Flatten(Contents(in1));
    forall e: Entry
      ensures e in MergeAll(lists) <==> e in InputEntries(in0, in1)
    {
      if e in MergeAll(lists) {
        var i :| 0 <= i < |lists| && e in lists[i];
        if i == n {
          assert e in Elems(lists[n]);
        } else if level == 0 {
          assert lists[i] == in0[i].entries && in0[i] in in0;
        } else {
          assert e in Elems(lists[0]);
        }
      }
      if e in LevelEntries(in1) {
        assert e in Elems(lists[n]) && e in lists[n];
      } else if e in LevelEntries(in0) {
        if level == 0 {
          var f :| f in in0 && e in f.entries;
          var i :| 0 <= i < |in0| && in0[i] == f;
          assert lists[i] == f.entries;
        } else {
          assert e in Elems(lists[0]) && e in lists[0];
        }
      }
    }
  }

  // ---------------------------------------------------------------- the store's parts as lists

  ghost function AllElems(lists: seq<seq<Entry>>): set<Entry> {
    set i, e | 0 <= i < |lists| && e in lists[i] :: e
  }

  lemma MergeableConcat(a: seq<seq<Entry>>, b: seq<seq<Entry>>)
    requires Mergeable(a) && Mergeable(b)
    requires forall d, e | d in AllElems(a) && e in AllElems(b) :: d.key != e.key
    ensures Mergeable(a + b) && AllElems(a + b) == AllElems(a) + AllElems(b)
  {
    var c := a + b;
    forall i, j | 0 <= i < j < |c|
      ensures NoSharedKey(c[i], c[j])
    {
      if i < |a| <= j {
        assert c[i] == a[i] && c[j] == b[j - |a|];
        assert forall x | x in a[i] :: x in AllElems(a);
        assert forall y | y in b[j - |a|] :: y in AllElems(b);
      }
    }
    forall e
      ensures e in AllElems(c) <==> e in AllElems(a) + AllElems(b)
    {
      if i :| 0 <= i < |a| && e in a[i] {
        assert e in c[i];
      }
      if i :| 0 <= i < |b| && e in b[i] {
        assert e in c[|a| + i];
      }
    }
  }

  lemma MergeableOne(es: seq<Entry>)
    requires Sorted(es)
    ensures Mergeable([es]) && AllElems([es]) == Elems(es)
  {
    assert [es][0] == es;
  }

  /** The iterators a version adds: every level-0 file, and one concatenation per non-empty deeper level. */
  function LevelLists(v: Version, l: nat): seq<seq<Entry>>
    requires l <= NUM_LEVELS
    decreases NUM_LEVELS - l
  {
    if l == NUM_LEVELS then []
    else (if v[l] == [] then [] else [Flatten(Contents(v[l]))]) + LevelLists(v, l + 1)
  }

  ghost function EntriesFrom(v: Version, l: nat): set<Entry> {
    set m, e | l <= m < NUM_LEVELS && e in LevelEntries(v[m]) :: e
  }

  lemma LevelAboveNewer(v: Version, l: nat)
    requires Layered(v) && l < NUM_LEVELS
    ensures forall d, e | d in LevelEntries(v[l]) && e in EntriesFrom(v, l + 1) :: d.key != e.key
    ensures EntriesFrom(v, l) == LevelEntries(v[l]) + EntriesFrom(v, l + 1)
  {
    forall d, e | d in LevelEntries(v[l]) && e in EntriesFrom(v, l + 1)
      ensures d.key != e.key
    {
      var f :| f in v[l] && d in f.entries;
      var m :| l + 1 <= m < NUM_LEVELS && e in LevelEntries(v[m]);
      var g :| g in v[m] && e in g.entries;
      ShallowerIsNewer(v, l, f, m, g);
    }
  }

  lemma {:induction false} LevelListsOk(v: Version, l: nat)
    requires VersionOk(v) && 1 <= l <= NUM_LEVELS
    ensures Mergeable(LevelLists(v, l)) && AllElems(LevelLists(v, l)) == EntriesFrom(v, l)
    decreases NUM_LEVELS - l
  {
    if l < NUM_LEVELS {
      LevelListsOk(v, l + 1);
      LevelAboveNewer(v, l);
      LevelFacts(v, l);
      hide VersionOk, Mergeable, Less, FileOk;
      if v[l] != [] {
        FlattenFiles(v[l]);
        MergeableOne(Flatten(Contents(v[l])));
        MergeableConcat([Flatten(Contents(v[l]))], LevelLists(v, l + 1));
      } else {
        assert [] + LevelLists(v, l + 1) == LevelLists(v, l + 1);
      }
    }
  }

  lemma Level0ListsOk(v: Version)
    requires VersionOk(v)
    ensures Mergeable(Contents(v[0])) && AllElems(Contents(v[0])) == LevelEntries(v[0])
  {
    LevelFacts(v, 0);
    assert LevelOk(v, 0);
    var lists := Contents(v[0]);
    forall i, j | 0 <= i < j < |lists|
      ensures NoSharedKey(lists[i], lists[j])
    {
      Level0FilesShareNoKey(v, v[0], i, j);
    }
    assert forall i | 0 <= i < |lists| :: lists[i] == v[0][i].entries && v[0][i] in v[0];
    forall e | e in LevelEntries(v[0])
      ensures e in AllElems(lists)
    {
      var f :| f in v[0] && e in f.entries;
      var i :| 0 <= i < |v[0]| && v[0][i] == f;
      assert e in lists[i];
    }
  }

  function VersionLists(v: Version): seq<seq<Entry>> {
    Contents(v[0]) + LevelLists(v, 1)
  }

  lemma VersionListsOk(v: Version)
    requires VersionOk(v)
    ensures Mergeable(VersionLists(v)) && AllElems(VersionLists(v)) == VersionEntries(v)
  {
    Level0ListsOk(v);
    LevelListsOk(v, 1);
    LevelAboveNewer(v, 0);
    MergeableConcat(Contents(v[0]), LevelLists(v, 1));
    assert EntriesFrom(v, 0) == VersionEntries(v);
  }

  lemma PartsAreApart(db: DB)
    requires Inv(db)
    ensures forall d, e | d in Elems(db.mem) && e in ImmEntries(db) + VersionEntries(db.version) :: d.key.sequence > e.key.sequence
    ensures forall d, e | d in ImmEntries(db) && e in VersionEntries(db.version) :: d.key.sequence > e.key.sequence
  {
    var h := db.history;
    SlicesOfHistory(h, db.frozen, |h|);
    SlicesOfHistory(h, db.flushed, db.frozen);
    assert h[db.frozen..|h|] == h[db.frozen..];
    assert Elems(h[..db.frozen]) == Elems(h[..db.flushed]) + Elems(h[db.flushed..db.frozen]);
  }

  /** What an iterator merges below the memtable: the immutable memtable, if any, and the tables. */
  function ListsBelow(imm: Option<seq<Entry>>, v: Version): seq<seq<Entry>> {
    (if imm.Some? then [imm.value] else []) + VersionLists(v)
  }

  /** Everything an iterator over the store merges. */
  function StoreLists(mem: seq<Entry>, imm: Option<seq<Entry>>, v: Version): seq<seq<Entry>> {
    [mem] + ListsBelow(imm, v)
  }

  lemma BelowListsOk(db: DB)
    requires Inv(db)
    ensures Mergeable(ListsBelow(db.imm, db.version))
    ensures AllElems(ListsBelow(db.imm, db.version)) == ImmEntries(db) + VersionEntries(db.version)
  {
    PartsAreApart(db);
    VersionListsOk(db.version);
    if db.imm.Some? {
      MergeableOne(db.imm.value);
      MergeableConcat([db.imm.value], VersionLists(db.version));
    } else {
      assert [] + VersionLists(db.version) == VersionLists(db.version);
    }
  }

  lemma MergedElems(lists: seq<seq<Entry>>)
    requires Mergeable(lists)
    ensures Sorted(MergeAll(lists)) && Elems(MergeAll(lists)) == AllElems(lists)
  {
    MergeAllIsSorted(lists);
  }

  lemma StoreListsOk(db: DB)
    requires Inv(db)
    ensures Mergeable(StoreLists(db.mem, db.imm, db.version))
    ensures Sorted(MergeAll(StoreLists(db.mem, db.imm, db.version)))
    ensures Elems(MergeAll(StoreLists(db.mem, db.imm, db.version))) == Stored(db)
  {
    PartsAreApart(db);
    BelowListsOk(db);
    MergeableOne(db.mem);
    MergeableConcat([db.mem], ListsBelow(db.imm, db.version));
    MergedElems(StoreLists(db.mem, db.imm, db.version));
  }

  /**
    Iterating is reading: over the merged parts of the store, the live list at `s` holds exactly the
    keys and values that lookups in the write history find.
  */
  lemma IterationIsLookup(db: DB, s: SequenceNumber, k: UserKey, value: Bytes)
    requires Inv(db) && db.horizon <= s
    ensures var list := MergeAll(StoreLists(db.mem, db.imm, db.version));
            Sorted(list) && ((k, value) in DbIter.Live(list, s, |list|) <==> Lookup(db.history, k, s) == Some(value))
  {
    var list := MergeAll(StoreLists(db.mem, db.imm, db.version));
    StoreListsOk(db);
    MergeAllIsSorted(StoreLists(db.mem, db.imm, db.version));
    StoredReadsHistory(db, k, s);
    DbIter.LiveIsRead(list, s, k, value);
  }

  lemma MemTablesAreSorted(db: DB)
    requires Inv(db)
    ensures Sorted(db.mem) && (db.imm.Some? ==> Sorted(db.imm.value))
  {
  }

  /** What the two memtables hold for a key is their newest entry for it. */
  lemma MemTablesGetNewest(db: DB, k: UserKey, s: SequenceNumber)
    requires Sorted(db.mem) && (db.imm.Some? ==> Sorted(db.imm.value)) && UniqueSeqs(Stored(db))
    ensures MemTableGet(db.mem, k, s) == Newest(Elems(db.mem), k, s)
    ensures (if db.imm.Some? then MemTableGet(db.imm.value, k, s) else None) == Newest(ImmEntries(db), k, s)
  {
    hide Newest, Sorted, UniqueSeqs, VersionEntries;
    UniqueSubset(Stored(db), Elems(db.mem));
    UniqueSubset(Stored(db), ImmEntries(db));
    SeekFindsNewest(db.mem, k, s);
    if db.imm.Some? {
      SeekFindsNewest(db.imm.value, k, s);
    } else {
      NewestIsNone(ImmEntries(db), k, s);
    }
  }

  /** Memtable first, then the immutable one, then the tables: the first hit is the newest entry. */
  lemma SearchOrderIsNewest(db: DB, k: UserKey, s: SequenceNumber)
    requires Inv(db) && db.horizon <= s
    ensures var m := MemTableGet(db.mem, k, s);
            var i := if db.imm.Some? then MemTableGet(db.imm.value, k, s) else None;
            Lookup(db.history, k, s)
              == Meaning(if m.Some? then m else if i.Some? then i else Newest(VersionEntries(db.version), k, s))
  {
    MemTablesAreSorted(db);
    hide Inv, Newest, Lookup, MemTableGet, UniqueSeqs, VersionEntries, Sorted;
    StoredReadsHistory(db, k, s);
    MemTablesGetNewest(db, k, s);
    PartsAreApart(db);
    UniqueSubset(Stored(db), ImmEntries(db) + VersionEntries(db.version));
    NewestOfUnion(Elems(db.mem), ImmEntries(db) + VersionEntries(db.version), k, s);
    NewestOfUnion(ImmEntries(db), VersionEntries(db.version), k, s);
  }
}
