/**
  The two guards a compaction needs and the source does not check, each with an input that goes
  wrong without it.
*/
module UnguardedCompactions {
  import opened Base
  import opened DbFormat
  import opened Reads
  import opened Versions
  import opened Picking
  import opened CompactionPicking
  import opened DropRules
  import opened Edits

  function Put(k: UserKey, s: SequenceNumber, value: Bytes): Entry { Entry(InternalKey(k, s, Value), value) }

  function Val(k: UserKey, s: SequenceNumber): Entry { Put(k, s, [1]) }

  function Del(k: UserKey, s: SequenceNumber): Entry { Entry(InternalKey(k, s, Deletion), []) }

  // ---------------------------------------------------------------- sizes

  /** The defaults of the options. */
  const MAX_FILE_SIZE: nat := 2097152
  const BLOCK_SIZE: nat := 4096

  /** What an entry adds to its data block: an eight-byte user key with its tag, three lengths, the value. */
  function EntryBytes(e: Entry): nat { 24 + |e.value| }

  /** The bytes of the blocks a table builder has written, uncompressed, and of its open one, written once it is full. */
  function BlockBytes(entries: seq<Entry>): (nat, nat) {
    if entries == [] then (0, 0)
    else
      var (written, open) := BlockBytes(entries[..|entries| - 1]);
      var more := open + EntryBytes(entries[|entries| - 1]);
      if more >= BLOCK_SIZE then (written + more, 0) else (written, more)
  }

  /** While a table is built only whole blocks count. */
  function WrittenBytes(entries: seq<Entry>): nat { BlockBytes(entries).0 }

  function TableBytes(entries: seq<Entry>): nat { BlockBytes(entries).0 + BlockBytes(entries).1 }

  lemma NextEntryBytes(entries: seq<Entry>, e: Entry)
    ensures BlockBytes([]) == (0, 0)
    ensures var (written, open) := BlockBytes(entries);
            BlockBytes(entries + [e])
              == if open + EntryBytes(e) >= BLOCK_SIZE then (written + open + EntryBytes(e), 0) else (written, open + EntryBytes(e))
  {
    assert (entries + [e])[..|entries|] == entries;
  }

  lemma OneEntryBytes(e: Entry)
    ensures TableBytes([e]) == EntryBytes(e)
  {
    NextEntryBytes([], e);
    assert [] + [e] == [e];
  }

  function FileOf(number: nat, entries: seq<Entry>): FileMeta
    requires entries != []
  {
    FileMeta(number, TableBytes(entries), entries[0].key, entries[|entries| - 1].key, entries)
  }

  // ---------------------------------------------------------------- G1

  /** A value that nearly fills a table, and one that nearly fills a block. */
  const BIG: Bytes := seq(MAX_FILE_SIZE - 4000, _ => 1)
  const MEDIUM: Bytes := seq(4056, _ => 1)

  const FIRST_PUT := Put(1.0, 1, MEDIUM)
  const SECOND_PUT := Put(1.0, 4, BIG)
  const THIRD_PUT := Val(1.0, 5)
  const DELETION := Del(2.0, 3)
  const DELETED := Val(2.0, 2)

  /** Level 1 holds one file; level 2 holds two files whose boundary splits the versions of key 2. */
  const UPPER := FileOf(8, [THIRD_PUT])
  const PICKED := FileOf(5, [SECOND_PUT, FIRST_PUT, DELETION])
  const LEFT_BEHIND := FileOf(6, [DELETED])
  const SPLIT_KEY: Version := [[], [UPPER], [PICKED, LEFT_BEHIND], [], [], [], []]

  lemma SplitKeyFiles()
    ensures forall l, f | 0 <= l < NUM_LEVELS && f in SPLIT_KEY[l] ::
              (l == 1 && f == UPPER) || (l == 2 && (f == PICKED || f == LEFT_BEHIND))
    ensures FileOk(UPPER) && FileOk(PICKED) && FileOk(LEFT_BEHIND)
  {
  }

  lemma SplitKeyContents()
    ensures forall e | e in UPPER.entries :: e == THIRD_PUT
    ensures forall e | e in PICKED.entries :: e == SECOND_PUT || e == FIRST_PUT || e == DELETION
    ensures forall e | e in LEFT_BEHIND.entries :: e == DELETED
  {
  }

  lemma SplitKeyIsGood()
    ensures VersionOk(SPLIT_KEY)
  {
    SplitKeyFiles();
    SplitKeyContents();
    SplitKeyUnique();
    hide VersionEntries, UniqueSeqs;
    assert SPLIT_KEY[2][0] == PICKED && SPLIT_KEY[2][1] == LEFT_BEHIND;
  }

  lemma SplitKeyUnique()
    ensures UniqueSeqs(VersionEntries(SPLIT_KEY))
  {
    SplitKeyFiles();
    SplitKeyContents();
    forall e | e in VersionEntries(SPLIT_KEY)
      ensures e in {THIRD_PUT, SECOND_PUT, FIRST_PUT, DELETION, DELETED}
    {
      var l, f := InVersion(SPLIT_KEY, e);
    }
  }

  lemma SplitKeyPick()
    ensures ValidPick(SPLIT_KEY, 1, [UPPER], [PICKED])
    ensures !NextLevelClosed(SPLIT_KEY, 1, [PICKED])
  {
    SplitKeyFiles();
    var files := SPLIT_KEY[2];
    assert IsRun(SPLIT_KEY[1], [UPPER], 0, 1);
    assert SmallestKey([UPPER]) == UPPER.smallest && LargestKey([UPPER]) == UPPER.largest;
    assert files[..1] == [PICKED] && files[..1][..0] == [];
    assert OverlapFilter([], Some(1.0), Some(1.0)) == [];
    assert OverlapFilter([PICKED], Some(1.0), Some(1.0)) == [PICKED];
    assert OverlapFilter(files, Some(1.0), Some(1.0)) == [PICKED];
    assert LargestKey([PICKED]) == PICKED.largest;
    assert LEFT_BEHIND in SPLIT_KEY[2] && IsBoundary(LEFT_BEHIND, PICKED.largest);
  }

  /** What the inputs of that pick hold for key 2 is a deletion, and the file left behind holds an older value. */
  lemma SplitKeyReads()
    ensures var rest, inputs := {DELETED}, {THIRD_PUT, SECOND_PUT, FIRST_PUT, DELETION};
            && UniqueSeqs(rest + inputs)
            && Newest(rest + inputs, 2.0, 5) == Some(DELETION)
            && Newest(rest, 2.0, 3) == Some(DELETED)
  {
    var rest, inputs := {DELETED}, {THIRD_PUT, SECOND_PUT, FIRST_PUT, DELETION};
    assert IsNewest(rest + inputs, 2.0, 5, DELETION);
    assert IsNewest(rest, 2.0, 3, DELETED);
    NewestIs(rest + inputs, 2.0, 5, DELETION);
    NewestIs(rest, 2.0, 3, DELETED);
  }

  /** Nothing below holds key 2, so its deletion may be dropped. */
  lemma KeyTwoIsBase()
    ensures IsBase(SPLIT_KEY, 1, 2.0)
  {
    SplitKeyFiles();
  }

  /**
    Without the boundary guard: the pick is one the source makes, the deletion of key 2 is dropped,
    and a read that found nothing now finds the value left in the next file.
  */
  lemma DroppedDeletionResurrects()
    ensures VersionOk(SPLIT_KEY) && ValidPick(SPLIT_KEY, 1, [UPPER], [PICKED])
    ensures var rest, inputs := RestEntries(SPLIT_KEY, 1, [UPPER], [PICKED]), InputEntries([UPPER], [PICKED]);
            && Read(rest + inputs, 2.0, 5) == None
            && Read(rest + Survivors(inputs, 5, SPLIT_KEY, 1), 2.0, 5) == Some([1])
            && !ReadsKept(rest + inputs, rest + Survivors(inputs, 5, SPLIT_KEY, 1), 5)
  {
    SplitKeyIsGood();
    SplitKeyPick();
    SplitKeyParts();
    SplitKeyReads();
    KeyTwoIsBase();
    var rest, inputs := {DELETED}, {THIRD_PUT, SECOND_PUT, FIRST_PUT, DELETION};
    OnlyRestIsLeft(rest, inputs, 5, SPLIT_KEY, 1, 2.0, 5, DELETION);
  }

  lemma SplitKeyParts()
    ensures RestEntries(SPLIT_KEY, 1, [UPPER], [PICKED]) == {DELETED}
    ensures InputEntries([UPPER], [PICKED]) == {THIRD_PUT, SECOND_PUT, FIRST_PUT, DELETION}
  {
    SplitKeyFiles();
    SplitKeyContents();
    assert LEFT_BEHIND in SPLIT_KEY[2] && (2, LEFT_BEHIND) !in Taken(1, [UPPER], [PICKED]);
    assert LEFT_BEHIND.entries[0] == DELETED && DELETED in LEFT_BEHIND.entries;
    assert (1, UPPER) in Taken(1, [UPPER], [PICKED]) && (2, PICKED) in Taken(1, [UPPER], [PICKED]);
    assert UPPER.entries[0] == THIRD_PUT && PICKED.entries[0] == SECOND_PUT && PICKED.entries[1] == FIRST_PUT;
    assert PICKED.entries[2] == DELETION && UPPER in [UPPER] && PICKED in [PICKED];
    SoleFile(UPPER);
    SoleFile(PICKED);
  }

  lemma SoleFile(f: FileMeta)
    ensures LevelEntries([f]) == Elems(f.entries)
  {
    assert f in [f];
  }

  // ---------------------------------------------------------------- G2

  /** A manual compaction of two level-1 files with a gap, and a memtable flushed into the gap at level 2. */
  const LOW_BELOW := FileOf(2, [Val(1.0, 1)])
  const HIGH_BELOW := FileOf(4, [Val(5.0, 2)])
  const LOW := FileOf(6, [Val(1.0, 3)])
  const HIGH := FileOf(8, [Val(5.0, 4)])
  const GAPPED: Version := [[], [LOW, HIGH], [LOW_BELOW, HIGH_BELOW], [], [], [], []]
  const FLUSHED := FileOf(10, [Val(3.0, 5)])
  const FLUSHED_INTO_GAP: Version := [[], [LOW, HIGH], [LOW_BELOW, FLUSHED, HIGH_BELOW], [], [], [], []]
  const MERGED := FileOf(11, [Val(1.0, 3), Val(5.0, 4)])

  lemma GappedFiles()
    ensures forall l, f | 0 <= l < NUM_LEVELS && f in GAPPED[l] ::
              (l == 1 && (f == LOW || f == HIGH)) || (l == 2 && (f == LOW_BELOW || f == HIGH_BELOW))
    ensures forall l, f | 0 <= l < NUM_LEVELS && f in FLUSHED_INTO_GAP[l] ::
              (l == 1 && (f == LOW || f == HIGH)) || (l == 2 && (f == LOW_BELOW || f == FLUSHED || f == HIGH_BELOW))
    ensures FileOk(LOW) && FileOk(HIGH) && FileOk(LOW_BELOW) && FileOk(HIGH_BELOW) && FileOk(FLUSHED) && FileOk(MERGED)
  {
    assert MERGED.entries == [Val(1.0, 3), Val(5.0, 4)];
  }

  lemma GappedContents()
    ensures forall e | e in LOW.entries :: e == Val(1.0, 3)
    ensures forall e | e in HIGH.entries :: e == Val(5.0, 4)
    ensures forall e | e in LOW_BELOW.entries :: e == Val(1.0, 1)
    ensures forall e | e in HIGH_BELOW.entries :: e == Val(5.0, 2)
    ensures forall e | e in FLUSHED.entries :: e == Val(3.0, 5)
    ensures forall e | e in MERGED.entries :: e == Val(1.0, 3) || e == Val(5.0, 4)
  {
  }

  lemma MergedIsOutput()
    ensures OutputsOk([LOW, HIGH], [LOW_BELOW, HIGH_BELOW], [MERGED])
  {
    GappedFiles();
    GappedContents();
    SoleFile(MERGED);
    assert LOW in [LOW, HIGH] && HIGH in [LOW, HIGH];
    assert LOW.entries[0] == Val(1.0, 3) && Val(1.0, 3) in LOW.entries;
    assert HIGH.entries[0] == Val(5.0, 4) && Val(5.0, 4) in HIGH.entries;
  }

  lemma GappedFilter()
    ensures OverlapFilter([LOW_BELOW, HIGH_BELOW], Some(1.0), Some(5.0)) == [LOW_BELOW, HIGH_BELOW]
  {
    var below := [LOW_BELOW, HIGH_BELOW];
    assert below[..1] == [LOW_BELOW] && [LOW_BELOW][..0] == [];
    assert OverlapFilter([], Some(1.0), Some(5.0)) == [];
    assert OverlapFilter([LOW_BELOW], Some(1.0), Some(5.0)) == [LOW_BELOW];
  }

  lemma GappedSeed()
    ensures Seed(GAPPED, 1, [LOW, HIGH]) && NoBoundary(GAPPED[1], LargestKey([LOW, HIGH]))
    ensures SmallestKey([LOW, HIGH]) == LOW.smallest && LargestKey([LOW, HIGH]) == HIGH.largest
  {
    assert IsRun(GAPPED[1], [LOW, HIGH], 0, 2);
    assert [LOW, HIGH][..1] == [LOW];
  }

  lemma GappedPick()
    ensures ValidPick(GAPPED, 1, [LOW, HIGH], [LOW_BELOW, HIGH_BELOW])
  {
    GappedSeed();
    GappedFilter();
    assert GAPPED[2] == [LOW_BELOW, HIGH_BELOW];
  }

  /** The placement rule puts a memtable of key 3 at the target level, inside the hull of the output. */
  lemma FlushedInsideOutput()
    ensures FlushFits(GAPPED, 2, 3.0, 3.0) && FlushedSince(GAPPED, FLUSHED_INTO_GAP)
    ensures !FlushesApart(GAPPED, FLUSHED_INTO_GAP, 1, [MERGED])
  {
    GappedFiles();
    FlushedSinceGapped();
    assert FLUSHED in FLUSHED_INTO_GAP[2] && MERGED in [MERGED] && !Apart(FLUSHED, MERGED);
  }

  /**
    Without the flush guard: with good versions before, whatever version installing that output makes,
    its target level overlaps.
  */
  lemma FlushIntoGapOverlaps(w: Version)
    requires VersionOk(GAPPED) && VersionOk(FLUSHED_INTO_GAP)
    requires Edited(FLUSHED_INTO_GAP, Taken(1, [LOW, HIGH], [LOW_BELOW, HIGH_BELOW]), Placing(2, [MERGED]), w)
    ensures !Disjoint(w[2])
  {
    GappedFiles();
    GappedPick();
    MergedIsOutput();
    FlushedInsideOutput();
    hide VersionOk, Edited, ValidPick, FlushedSince, FlushesApart, OutputsOk, FlushFits, FileOk, Disjoint;
    InstallDisjointIff(GAPPED, FLUSHED_INTO_GAP, 1, [LOW, HIGH], [LOW_BELOW, HIGH_BELOW], [MERGED], w);
  }

  lemma KeyThreeIsNew()
    ensures forall e | e in VersionEntries(GAPPED) :: e.key.user != 3.0
  {
    GappedFiles();
    GappedContents();
    forall e | e in VersionEntries(GAPPED)
      ensures e.key.user != 3.0
    {
      var l, f := InVersion(GAPPED, e);
    }
  }

  lemma FlushedSinceGapped()
    ensures FlushedSince(GAPPED, FLUSHED_INTO_GAP)
  {
    OnlyFlushedIsNew();
    FlushedIsNewer();
    FlushedMeetsNone();
    hide EntriesNewer, MeetsNoneAbove, VersionEntries;
  }

  lemma OnlyFlushedIsNew()
    ensures forall l, f | 0 <= l < NUM_LEVELS && f in GAPPED[l] :: f in FLUSHED_INTO_GAP[l]
    ensures forall l, f | 0 <= l < NUM_LEVELS && f in FLUSHED_INTO_GAP[l] && f !in GAPPED[l] :: l == 2 && f == FLUSHED
  {
    GappedFiles();
    assert LOW in GAPPED[1] && HIGH in GAPPED[1];
    assert LOW_BELOW in GAPPED[2] && HIGH_BELOW in GAPPED[2];
    assert LOW in FLUSHED_INTO_GAP[1] && HIGH in FLUSHED_INTO_GAP[1];
    assert LOW_BELOW in FLUSHED_INTO_GAP[2] && HIGH_BELOW in FLUSHED_INTO_GAP[2];
  }

  lemma FlushedIsNewer()
    ensures EntriesNewer(FLUSHED, VersionEntries(GAPPED))
  {
    KeyThreeIsNew();
    GappedContents();
    hide VersionEntries;
  }

  lemma FlushedMeetsNone()
    ensures MeetsNoneAbove(GAPPED, 2, FLUSHED)
  {
    GappedFiles();
  }
}
