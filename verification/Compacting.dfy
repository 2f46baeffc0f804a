/**
  The compaction loop: one pass over the merged inputs that decides entry by entry what to drop and
  cuts the rest into output files (db/db_impl.cc).
*/
module Compacting {
  import opened Base
  import opened DbFormat
  import opened Reads
  import opened Versions
  import opened CompactionPicking
  import opened DropRules

  ghost function OutputEntries(outs: Level): seq<Entry> {
    if outs == [] then [] else OutputEntries(outs[..|outs| - 1]) + outs[|outs| - 1].entries
  }

  predicate Shaped(o: FileMeta) {
    && o.entries != []
    && o.smallest == o.entries[0].key
    && o.largest == o.entries[|o.entries| - 1].key
  }

  lemma {:induction false} OutputElems(outs: Level)
    ensures LevelEntries(outs) == Elems(OutputEntries(outs))
  {
    if outs != [] {
      var front, last := outs[..|outs| - 1], outs[|outs| - 1];
      OutputElems(front);
      assert outs == front + [last];
      assert forall f :: f in outs <==> f in front || f == last;
      assert LevelEntries(outs) == LevelEntries(front) + Elems(last.entries);
    }
  }

  lemma SortedParts(a: seq<Entry>, b: seq<Entry>)
    requires Sorted(a + b)
    ensures Sorted(a) && Sorted(b)
    ensures forall x, y | x in a && y in b :: Less(x.key, y.key)
  {
    var c := a + b;
    assert forall i | 0 <= i < |a| :: c[i] == a[i];
    assert forall i | 0 <= i < |b| :: c[|a| + i] == b[i];
    forall x, y | x in a && y in b
      ensures Less(x.key, y.key)
    {
      var i :| 0 <= i < |a| && a[i] == x;
      var j :| 0 <= j < |b| && b[j] == y;
      assert c[i] == x && c[|a| + j] == y;
    }
  }

  /** Cutting a sorted list into non-empty pieces gives well-formed files in disjoint order. */
  lemma {:induction false} CutsAreFiles(outs: Level)
    requires Sorted(OutputEntries(outs)) && forall o | o in outs :: Shaped(o)
    ensures (forall o | o in outs :: FileOk(o)) && Disjoint(outs)
  {
    if outs != [] {
      var n := |outs| - 1;
      var front, last := outs[..n], outs[n];
      assert last in outs;
      assert forall o | o in front :: o in outs;
      SortedParts(OutputEntries(front), last.entries);
      CutsAreFiles(front);
      forall i | 0 <= i < n
        ensures FileOk(outs[i]) && Less(outs[i].largest, last.smallest)
      {
        assert front[i] == outs[i];
        CutBeforeLast(front, last, outs[i]);
      }
      DisjointPush(front, last);
      assert outs == front + [last];
    }
  }

  lemma CutBeforeLast(front: Level, last: FileMeta, o: FileMeta)
    requires Sorted(OutputEntries(front) + last.entries) && Shaped(last) && Shaped(o) && o in front
    ensures Less(o.largest, last.smallest)
  {
    SortedParts(OutputEntries(front), last.entries);
    OutputElems(front);
    var e := o.entries[|o.entries| - 1];
    assert e in o.entries;
    assert e in LevelEntries(front);
    assert last.entries[0] in last.entries;
  }

  lemma DisjointPush(front: Level, last: FileMeta)
    requires Disjoint(front) && forall i | 0 <= i < |front| :: Less(front[i].largest, last.smallest)
    ensures Disjoint(front + [last])
  {
  }

  // ---------------------------------------------------------------- where the outputs are cut

  /** A table is closed as soon as the bytes written for it reach the maximum: no proper prefix had. */
  ghost predicate NotFullBefore(entries: seq<Entry>, n: nat, soFar: seq<Entry> -> nat, max: nat)
    requires n <= |entries| + 1
  {
    forall m | 0 < m < n :: soFar(entries[..m]) < max
  }

  ghost predicate NotFullYet(entries: seq<Entry>, soFar: seq<Entry> -> nat, max: nat) {
    NotFullBefore(entries, |entries|, soFar, max)
  }

  /** The outputs are cut by size alone: each one but the last is full, and was not full an entry before. */
  ghost predicate CutBySize(outs: Level, soFar: seq<Entry> -> nat, max: nat) {
    && (forall o | o in outs :: NotFullYet(o.entries, soFar, max))
    && forall i | 0 <= i < |outs| - 1 :: soFar(outs[i].entries) >= max
  }

  lemma LastOutput(front: Level, o: FileMeta)
    ensures OutputEntries([]) == []
    ensures OutputEntries(front + [o]) == OutputEntries(front) + o.entries
  {
    assert (front + [o])[..|front|] == front;
  }

  lemma {:induction false} FirstOutput(outs: Level)
    requires outs != []
    ensures OutputEntries(outs) == outs[0].entries + OutputEntries(outs[1..])
  {
    hide OutputEntries;
    var n := |outs| - 1;
    LastOutput(outs[..n], outs[n]);
    assert outs == outs[..n] + [outs[n]];
    if n == 0 {
      assert outs[..0] == [] && outs[1..] == [];
    } else {
      var middle := outs[..n][1..];
      FirstOutput(outs[..n]);
      LastOutput(middle, outs[n]);
      assert outs[1..] == middle + [outs[n]];
      Regroup(outs[0].entries, OutputEntries(middle), outs[n].entries);
    }
  }

  lemma Regroup(a: seq<Entry>, b: seq<Entry>, c: seq<Entry>)
    ensures (a + b) + c == a + (b + c)
  {
  }

  /** The first of two size cuts of the same entries cannot be the shorter one. */
  lemma {:induction false} FirstCutIsLongest(a: Level, b: Level, soFar: seq<Entry> -> nat, max: nat)
    requires a != [] && b != [] && OutputEntries(a) == OutputEntries(b)
    requires (forall o | o in a :: Shaped(o)) && (forall o | o in b :: Shaped(o))
    requires CutBySize(a, soFar, max) && CutBySize(b, soFar, max)
    ensures |a[0].entries| >= |b[0].entries|
  {
    FirstOutput(a);
    FirstOutput(b);
    assert a[0] in a && b[0] in b;
    ShorterIsPrefix(a[0].entries, OutputEntries(a[1..]), b[0].entries, OutputEntries(b[1..]));
    assert |a| == 1 ==> a[1..] == [] && OutputEntries([]) == [];
  }

  lemma ShorterIsPrefix(a: seq<Entry>, afterA: seq<Entry>, b: seq<Entry>, afterB: seq<Entry>)
    requires a + afterA == b + afterB
    ensures |a| <= |b| ==> b[..|a|] == a
    ensures |a| == |b| ==> a == b && afterA == afterB
    ensures afterA == [] ==> |b| <= |a|
  {
    assert (a + afterA)[..|a|] == a && (b + afterB)[..|b|] == b;
    assert (a + afterA)[|a|..] == afterA && (b + afterB)[|b|..] == afterB;
  }

  lemma NoOutputs(outs: Level)
    requires forall o | o in outs :: Shaped(o)
    ensures outs == [] <==> OutputEntries(outs) == []
  {
    assert outs != [] ==> outs[|outs| - 1] in outs;
  }

  /** There is only one way to cut the entries by size. */
  lemma {:induction false} CutIsUnique(a: Level, b: Level, soFar: seq<Entry> -> nat, max: nat)
    requires OutputEntries(a) == OutputEntries(b)
    requires (forall o | o in a :: Shaped(o)) && (forall o | o in b :: Shaped(o))
    requires CutBySize(a, soFar, max) && CutBySize(b, soFar, max)
    ensures |a| == |b| && forall i | 0 <= i < |a| :: a[i].entries == b[i].entries
  {
    NoOutputs(a);
    NoOutputs(b);
    if a != [] {
      FirstOutput(a);
      FirstOutput(b);
      FirstCutIsLongest(a, b, soFar, max);
      FirstCutIsLongest(b, a, soFar, max);
      ShorterIsPrefix(a[0].entries, OutputEntries(a[1..]), b[0].entries, OutputEntries(b[1..]));
      forall i | 0 <= i < |a| - 2
        ensures soFar(a[1..][i].entries) >= max
      {
        assert a[1..][i] == a[i + 1];
      }
      forall i | 0 <= i < |b| - 2
        ensures soFar(b[1..][i].entries) >= max
      {
        assert b[1..][i] == b[i + 1];
      }
      CutIsUnique(a[1..], b[1..], soFar, max);
      forall i | 0 <= i < |a|
        ensures a[i].entries == b[i].entries
      {
        assert i > 0 ==> a[i] == a[1..][i - 1] && b[i] == b[1..][i - 1];
      }
    }
  }

  /** The table being written: entries so far with the smallest and largest key recorded as they arrive. */
  datatype TableBuilder = TableBuilder(number: nat, smallest: InternalKey, largest: InternalKey, entries: seq<Entry>)

  predicate Recorded(b: TableBuilder) {
    && b.entries != []
    && b.smallest == b.entries[0].key
    && b.largest == b.entries[|b.entries| - 1].key
  }

  function BuilderEntries(b: Option<TableBuilder>): seq<Entry> {
    match b
    case None => []
    case Some(x) => x.entries
  }

  method FinishOutput(outs: Level, b: TableBuilder, fileSize: seq<Entry> -> nat) returns (outs': Level)
    requires Recorded(b) && forall o | o in outs :: Shaped(o)
    ensures OutputEntries(outs') == OutputEntries(outs) + b.entries
    ensures |outs'| == |outs| + 1 && outs'[..|outs|] == outs && outs'[|outs|].number == b.number
    ensures outs'[|outs|].entries == b.entries && outs'[|outs|].size == fileSize(b.entries)
    ensures forall o | o in outs' :: Shaped(o)
  {
    outs' := outs + [FileMeta(b.number, fileSize(b.entries), b.smallest, b.largest, b.entries)];
    assert outs'[..|outs|] == outs;
  }

  method AddToBuilder(b: Option<TableBuilder>, nextFile: nat, e: Entry) returns (b': TableBuilder, nextFile': nat)
    requires b.Some? ==> Recorded(b.value)
    ensures Recorded(b') && b'.entries == BuilderEntries(b) + [e]
    ensures if b.Some? then b'.number == b.value.number && nextFile' == nextFile
            else b'.number == nextFile && nextFile' == nextFile + 1
  {
    if b == None {
      nextFile' := nextFile + 1;
      b' := TableBuilder(nextFile, e.key, e.key, [e]);
    } else {
      nextFile' := nextFile;
      b' := TableBuilder(b.value.number, b.value.smallest, e.key, b.value.entries + [e]);
    }
  }

  /** Numbers handed out in order to the finished files and the open one. */
  predicate Numbered(outs: Level, b: Option<TableBuilder>, first: nat, next: nat) {
    && (forall i | 0 <= i < |outs| :: outs[i].number == first + i)
    && (b.Some? ==> b.value.number == first + |outs|)
    && next == first + |outs| + (if b.Some? then 1 else 0)
  }

  /** The running variables before position `i`: the key just handled and its sequence number. */
  predicate Running(input: seq<Entry>, i: nat, currentUserKey: Option<UserKey>, lastSequenceForKey: SequenceNumber)
    requires i <= |input|
  {
    && currentUserKey == (if i == 0 then None else Some(input[i - 1].key.user))
    && (i > 0 ==> lastSequenceForKey == input[i - 1].key.sequence)
  }

  method DecideDrop(c: Compaction, ghost input: seq<Entry>, ghost i: nat, e: Entry, smallestSnapshot: SequenceNumber,
                    currentUserKey: Option<UserKey>, lastSequenceForKey: SequenceNumber) returns (drop: bool)
    requires c.level + 1 < NUM_LEVELS && VersionOk(c.inputVersion) && c.CursorsBefore(e.key.user)
    requires i < |input| && input[i] == e && Running(input, i, currentUserKey, lastSequenceForKey)
    modifies c`levelPtrs
    ensures c.CursorsBefore(e.key.user)
    ensures drop == Drops(input, i, smallestSnapshot, c.inputVersion, c.level)
  {
    var last := lastSequenceForKey;
    if currentUserKey != Some(e.key.user) {
      last := MAX_SEQUENCE;
    }
    drop := false;
    if last <= smallestSnapshot {
      drop := true;
    } else if e.key.kind == Deletion && e.key.sequence <= smallestSnapshot {
      drop := c.IsBaseLevelForKey(e.key.user);
    }
  }

  ghost predicate Writing(outs: Level, builder: Option<TableBuilder>, first: nat, next: nat, written: seq<Entry>) {
    && (builder.Some? ==> Recorded(builder.value))
    && (forall o | o in outs :: Shaped(o))
    && Numbered(outs, builder, first, next)
    && OutputEntries(outs) + BuilderEntries(builder) == written
  }

  /** The bytes a table builder has written after some entries, and the size of the table it finishes. */
  datatype TableSizes = TableSizes(soFar: seq<Entry> -> nat, finished: seq<Entry> -> nat)

  /** The finished outputs are full unless a cut came from the grandparents; the open table is not full yet. */
  ghost predicate Cutting(outs: Level, builder: Option<TableBuilder>, sizes: TableSizes, max: nat, stopped: bool) {
    && (forall o | o in outs ::
          o.size == sizes.finished(o.entries) && NotFullYet(o.entries, sizes.soFar, max))
    && (!stopped ==> forall o | o in outs :: sizes.soFar(o.entries) >= max)
    && (builder.Some? ==> NotFullBefore(builder.value.entries, |builder.value.entries| + 1, sizes.soFar, max))
  }

  method CloseOutput(outs: Level, builder: Option<TableBuilder>, sizes: TableSizes, ghost max: nat, ghost first: nat, ghost next: nat,
                     ghost written: seq<Entry>, ghost stopped: bool) returns (outs': Level)
    requires Writing(outs, builder, first, next, written) && Cutting(outs, None, sizes, max, stopped)
    requires builder.Some? ==> NotFullYet(builder.value.entries, sizes.soFar, max)
    ensures Writing(outs', None, first, next, written)
    ensures outs <= outs' && |outs'| <= |outs| + 1
    ensures Cutting(outs', None, sizes, max, true)
    ensures builder.Some? && sizes.soFar(builder.value.entries) >= max ==> Cutting(outs', None, sizes, max, stopped)
  {
    hide NotFullBefore, NotFullYet, Shaped;
    if builder == None {
      outs' := outs;
    } else {
      outs' := FinishOutput(outs, builder.value, sizes.finished);
      assert OutputEntries(outs') + [] == OutputEntries(outs');
      assert forall o | o in outs' :: o in outs || o == outs'[|outs|];
    }
  }

  method EmitEntry(c: Compaction, outs: Level, builder: Option<TableBuilder>, nextFile: nat, e: Entry,
                   sizes: TableSizes, ghost first: nat, ghost written: seq<Entry>, ghost stopped: bool)
    returns (outs': Level, builder': Option<TableBuilder>, nextFile': nat)
    requires Writing(outs, builder, first, nextFile, written) && Cutting(outs, builder, sizes, c.maxFileSize, stopped)
    ensures Writing(outs', builder', first, nextFile', written + [e])
    ensures Cutting(outs', builder', sizes, c.maxFileSize, stopped)
  {
    var b;
    b, nextFile' := AddToBuilder(builder, nextFile, e);
    outs', builder' := outs, Some(b);
    assert OutputEntries(outs) + (BuilderEntries(builder) + [e]) == written + [e];
    OneMoreEntry(BuilderEntries(builder), e, sizes.soFar, c.maxFileSize);
    if sizes.soFar(b.entries) >= c.maxFileSize {
      outs' := CloseOutput(outs', builder', sizes, c.maxFileSize, first, nextFile', written + [e], stopped);
      builder' := None;
    }
  }

  lemma OneMoreEntry(entries: seq<Entry>, e: Entry, soFar: seq<Entry> -> nat, max: nat)
    requires NotFullBefore(entries, |entries| + 1, soFar, max)
    ensures var more := entries + [e];
            && NotFullYet(more, soFar, max)
            && (soFar(more) < max ==> NotFullBefore(more, |more| + 1, soFar, max))
  {
    var more := entries + [e];
    forall m | 0 < m <= |entries|
      ensures soFar(more[..m]) < max
    {
      assert more[..m] == entries[..m];
    }
    assert more[..|more|] == more;
  }

  lemma {:induction false} PartOfTotal(files: Level, n: nat)
    requires n <= |files|
    ensures TotalSize(files[..n]) <= TotalSize(files)
    decreases |files|
  {
    if n == |files| {
      assert files[..n] == files;
    } else {
      PartOfTotal(files[..|files| - 1], n);
      assert files[..|files| - 1][..n] == files[..n];
    }
  }

  /** The bytes before a place are the bytes before an earlier place and those between. */
  lemma {:induction false} PassedBytes(files: Level, from: nat, to: nat)
    requires from <= to <= |files|
    ensures TotalSize(files[..to]) == TotalSize(files[..from]) + TotalSize(files[from..to])
  {
    if from == to {
      assert files[from..to] == [];
    } else {
      PassedBytes(files, from, to - 1);
      assert files[..to][..to - 1] == files[..to - 1];
      assert files[from..to][..to - 1 - from] == files[from..to - 1];
    }
  }

  /** One question of the loop whether to cut before a key: yes only if the grandparents are large. */
  method StopsBefore(c: Compaction, key: InternalKey) returns (stop: bool)
    requires c.grandparentIndex <= |c.grandparents|
    requires c.overlappedBytes <= TotalSize(c.grandparents[..c.grandparentIndex])
    modifies c`grandparentIndex, c`seenKey, c`overlappedBytes
    ensures c.grandparentIndex <= |c.grandparents|
    ensures c.overlappedBytes <= TotalSize(c.grandparents[..c.grandparentIndex])
    ensures stop ==> TotalSize(c.grandparents) > 10 * c.maxFileSize
  {
    ghost var from := c.grandparentIndex;
    stop := c.ShouldStopBefore(key);
    PassedBytes(c.grandparents, from, c.grandparentIndex);
    PartOfTotal(c.grandparents, c.grandparentIndex);
  }

  /**
    Runs over the merged input with the running variables of the source: the current user key and the
    sequence last seen for it.  The outputs concatenate to exactly the undropped input, each closed by the
    entry with which it reached the maximum size, or before a key with many grandparent bytes passed.
  */
  method DoCompactionWork(c: Compaction, input: seq<Entry>, smallestSnapshot: SequenceNumber, firstFile: nat,
                          sizes: TableSizes)
    returns (outs: Level, nextFile: nat)
    requires c.level + 1 < NUM_LEVELS && VersionOk(c.inputVersion) && smallestSnapshot < MAX_SEQUENCE
    requires Sorted(input) && UniqueSeqs(Elems(input))
    requires c.Unstarted()
    modifies c`levelPtrs, c`grandparentIndex, c`seenKey, c`overlappedBytes
    ensures OutputEntries(outs) == Kept(input, |input|, smallestSnapshot, c.inputVersion, c.level)
    ensures (forall o | o in outs :: FileOk(o)) && Disjoint(outs)
    ensures Numbered(outs, None, firstFile, nextFile)
    ensures forall o | o in outs ::
      o.size == sizes.finished(o.entries) && NotFullYet(o.entries, sizes.soFar, c.maxFileSize)
    ensures TotalSize(c.grandparents) <= 10 * c.maxFileSize ==> CutBySize(outs, sizes.soFar, c.maxFileSize)
  {
    hide VersionOk, UniqueSeqs, IsBase, Drops, NotFullBefore, NotFullYet, TotalSize, Recorded, Shaped;
    outs, nextFile := [], firstFile;
    var builder: Option<TableBuilder> := None;
    var currentUserKey: Option<UserKey> := None;
    var lastSequenceForKey: SequenceNumber := MAX_SEQUENCE;
    ghost var v, stopped := c.inputVersion, false;
    var i := 0;
    while i < |input|
      invariant 0 <= i <= |input|
      invariant c.grandparentIndex <= |c.grandparents|
      invariant c.overlappedBytes <= TotalSize(c.grandparents[..c.grandparentIndex])
      invariant stopped ==> TotalSize(c.grandparents) > 10 * c.maxFileSize
      invariant Running(input, i, currentUserKey, lastSequenceForKey)
      invariant i < |input| ==> c.CursorsBefore(input[i].key.user)
      invariant Writing(outs, builder, firstFile, nextFile, Kept(input, i, smallestSnapshot, v, c.level))
      invariant Cutting(outs, builder, sizes, c.maxFileSize, stopped)
    {
      var e := input[i];
      ghost var written := Kept(input, i, smallestSnapshot, v, c.level);
      var stop := StopsBefore(c, e.key);
      OpenIsNotFull(builder, sizes.soFar, c.maxFileSize);
      if stop && builder.Some? {
        outs := CloseOutput(outs, builder, sizes, c.maxFileSize, firstFile, nextFile, written, stopped);
        builder, stopped := None, true;
      }
      var drop := DecideDrop(c, input, i, e, smallestSnapshot, currentUserKey, lastSequenceForKey);
      currentUserKey, lastSequenceForKey := Some(e.key.user), e.key.sequence;
      if !drop {
        outs, builder, nextFile := EmitEntry(c, outs, builder, nextFile, e, sizes, firstFile, written, stopped);
      } else {
        assert written + [] == written;
      }
      i := i + 1;
      if i < |input| {
        assert Less(e.key, input[i].key);
        c.CursorsStayBefore(e.key.user, input[i].key.user);
      }
    }
    ghost var full := outs;
    OpenIsNotFull(builder, sizes.soFar, c.maxFileSize);
    outs := CloseOutput(outs, builder, sizes, c.maxFileSize, firstFile, nextFile,
                        Kept(input, |input|, smallestSnapshot, v, c.level), stopped);
    FullButLast(full, outs, sizes, c.maxFileSize, stopped);
    assert OutputEntries(outs) == OutputEntries(outs) + [];
    KeptAll(input, smallestSnapshot, v, c.level);
    CutsAreFiles(outs);
  }

  lemma OpenIsNotFull(builder: Option<TableBuilder>, soFar: seq<Entry> -> nat, max: nat)
    requires builder.Some? ==> NotFullBefore(builder.value.entries, |builder.value.entries| + 1, soFar, max)
    ensures builder.Some? ==> NotFullYet(builder.value.entries, soFar, max)
  {
  }

  lemma FullButLast(full: Level, outs: Level, sizes: TableSizes, max: nat, stopped: bool)
    requires Cutting(full, None, sizes, max, stopped) && Cutting(outs, None, sizes, max, true)
    requires full <= outs && |outs| <= |full| + 1
    ensures !stopped ==> CutBySize(outs, sizes.soFar, max)
  {
    assert forall i | 0 <= i < |outs| - 1 :: outs[i] == full[i] && full[i] in full;
  }
}
