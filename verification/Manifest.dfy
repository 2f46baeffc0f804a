/**
  The manifest (VersionSet::LogAndApply, WriteSnapshot and Recover in db/version_set.cc): a snapshot of a
  version followed by later edits, read back, rebuilds the version those edits lead to.
*/
module Manifest {
  import opened Base
  import opened DbFormat
  import opened Versions
  import opened Edits
  import opened VersionBuilder
  import opened VersionEdits

  /** How a file is described in a record, and what opening the described table gives. */
  datatype Tables = Tables(describe: FileMeta -> FileRecord, resolve: FileRecord -> FileMeta)

  ghost predicate Faithful(t: Tables, f: FileMeta) {
    t.resolve(t.describe(f)) == f && t.describe(f).number == f.number
  }

  function ResolveAll(t: Tables, fs: seq<Addition>): (r: seq<Placed>)
    ensures |r| == |fs|
  {
    seq(|fs|, i requires 0 <= i < |fs| => (fs[i].0, t.resolve(fs[i].1)))
  }

  /** What a decoded edit does to the files. */
  function ToFileEdit(t: Tables, e: Edit): FileEdit {
    FileEdit((set d | d in e.deletedFiles), ResolveAll(t, e.newFiles))
  }

  function ToFileEdits(t: Tables, es: seq<Edit>): (r: seq<FileEdit>)
    ensures |r| == |es|
  {
    seq(|es|, i requires 0 <= i < |es| => ToFileEdit(t, es[i]))
  }

  datatype Recovered = Recovered(
    version: Version, manifestFileNumber: nat, nextFileNumber: nat, lastSequence: nat, logNumber: nat, prevLogNumber: nat)

  /** The counters seen so far while reading a manifest. */
  datatype Counters = Counters(logNumber: Option<nat>, prevLogNumber: Option<nat>, nextFile: Option<nat>, lastSequence: Option<nat>)

  function Later(old': Option<nat>, new': Option<nat>): Option<nat> {
    if new'.Some? then new' else old'
  }

  function Count(c: Counters, e: Edit): Counters {
    Counters(Later(c.logNumber, e.logNumber), Later(c.prevLogNumber, e.prevLogNumber),
             Later(c.nextFile, e.nextFileNumber), Later(c.lastSequence, e.lastSequence))
  }

  function CountAll(es: seq<Edit>): Counters {
    if es == [] then Counters(None, None, None, None) else Count(CountAll(es[..|es| - 1]), es[|es| - 1])
  }

  predicate ComparatorOk(e: Edit, name: Bytes) {
    e.comparator == None || e.comparator == Some(name)
  }

  function Finish(c: Counters, v: Version): Option<Recovered> {
    if c.nextFile == None || c.logNumber == None || c.lastSequence == None then None
    else Some(Recovered(v, c.nextFile.value, c.nextFile.value + 1, c.lastSequence.value, c.logNumber.value,
                        if c.prevLogNumber.Some? then c.prevLogNumber.value else 0))
  }

  /** The edit a record holds, unless it does not parse or names another comparator. */
  function Decoded(record: Bytes, name: Bytes): Option<Edit> {
    match ParseFields(record)
    case None => None
    case Some(fields) =>
      var e := ApplyFields(FRESH, fields);
      if ComparatorOk(e, name) then Some(e) else None
  }

  /** The records up to the first one that cannot be used hold the edits `es`. */
  ghost predicate ReadsAs(records: seq<Bytes>, es: seq<Edit>, name: Bytes) {
    && |es| <= |records|
    && (forall i: nat | i < |es| :: HoldsEdit(records, es, i, name))
    && (|es| < |records| ==> Decoded(records[|es|], name) == None)
  }

  ghost predicate HoldsEdit(records: seq<Bytes>, es: seq<Edit>, i: nat, name: Bytes) {
    i < |records| && i < |es| && Decoded(records[i], name) == Some(es[i])
  }

  /** Those edits lead from `base` through the versions `vs`. */
  ghost predicate Genuine(records: seq<Bytes>, es: seq<Edit>, t: Tables, base: Version, vs: seq<Version>, name: Bytes) {
    && IsChain(vs, ToFileEdits(t, es)) && vs[0] == base
    && ReadsAs(records, es, name)
  }

  ghost predicate AllWritten(records: seq<Bytes>, es: seq<Edit>, name: Bytes) {
    |records| == |es| && forall i: nat | i < |es| :: WrittenAs(records, es, i, name)
  }

  ghost predicate WrittenAs(records: seq<Bytes>, es: seq<Edit>, i: nat, name: Bytes) {
    i < |records| && i < |es| && VersionEdits.EditOk(es[i]) && ComparatorOk(es[i], name)
    && records[i] == EncodeFields(FieldsOf(es[i]))
  }

  /** Records that were written hold what was written. */
  lemma WrittenReads(records: seq<Bytes>, es: seq<Edit>, name: Bytes)
    requires AllWritten(records, es, name)
    ensures ReadsAs(records, es, name)
  {
    forall i: nat | i < |es|
      ensures HoldsEdit(records, es, i, name)
    {
      assert WrittenAs(records, es, i, name);
      EditRoundTrip(es[i]);
    }
  }

  /**
    Applies the records of the manifest to one builder, then saves the version it holds.  The first record that
    cannot be used, or damage the log reader reports behind those it could read, fails the whole recovery.
  */
  method Recover(records: seq<Bytes>, damaged: bool, name: Bytes, t: Tables, base: Version, ghost es: seq<Edit>, ghost vs: seq<Version>)
    returns (r: Option<Recovered>)
    requires Genuine(records, es, t, base, vs, name)
    ensures r == if |es| < |records| || damaged then None else Finish(CountAll(es), vs[|es|])
  {
    var b := new Builder(base);
    StartsTracking(vs, ToFileEdits(t, es), b);
    var ok, c := ReplayRecords(records, name, t, b, es, vs);
    if !ok || damaged {
      return None;
    }
    var v := b.SaveTo();
    LastVersion(b, v, vs, ToFileEdits(t, es));
    r := Finish(c, v);
  }

  /** Applies record after record until one cannot be used, and takes down the counters. */
  method ReplayRecords(records: seq<Bytes>, name: Bytes, t: Tables, b: Builder, ghost es: seq<Edit>, ghost vs: seq<Version>)
    returns (ok: bool, c: Counters)
    requires ReadsAs(records, es, name) && IsChain(vs, ToFileEdits(t, es)) && Tracks(b, vs, ToFileEdits(t, es), 0)
    modifies b
    ensures ok <==> |es| == |records|
    ensures ok ==> Tracks(b, vs, ToFileEdits(t, es), |es|) && c == CountAll(es)
  {
    c := Counters(None, None, None, None);
    var i := 0;
    ok := true;
    while ok && i < |records|
      invariant i <= |es| && Tracks(b, vs, ToFileEdits(t, es), i) && c == CountAll(es[..i])
      invariant !ok ==> i == |es| < |records|
      decreases |records| - i, ok
    {
      var e := ReadEdit(records[i], name);
      ok := e.Some?;
      if ok {
        OneMoreEdit(records, es, i, name);
        assert es[..i + 1][..i] == es[..i];
        ApplyTracked(b, ToFileEdit(t, e.value), vs, ToFileEdits(t, es), i);
        c := Count(c, e.value);
        i := i + 1;
      } else {
        NoMoreEdits(records, es, i, name);
      }
    }
    AllEdits(records, es, i, ok, name);
  }

  lemma AllEdits(records: seq<Bytes>, es: seq<Edit>, i: nat, ok: bool, name: Bytes)
    requires ReadsAs(records, es, name) && i <= |es| && (ok ==> i == |records|) && (!ok ==> i == |es| < |records|)
    ensures ok <==> |es| == |records|
    ensures ok ==> i == |es| && es[..i] == es
  {
  }

  lemma OneMoreEdit(records: seq<Bytes>, es: seq<Edit>, i: nat, name: Bytes)
    requires ReadsAs(records, es, name) && i < |records| && i <= |es| && Decoded(records[i], name).Some?
    ensures i < |es| && Decoded(records[i], name) == Some(es[i])
  {
    if i < |es| {
      assert HoldsEdit(records, es, i, name);
    }
  }

  lemma NoMoreEdits(records: seq<Bytes>, es: seq<Edit>, i: nat, name: Bytes)
    requires ReadsAs(records, es, name) && i < |records| && i <= |es| && Decoded(records[i], name) == None
    ensures i == |es| < |records|
  {
    assert i < |es| ==> HoldsEdit(records, es, i, name);
  }

  /** Decodes one record into a fresh edit and checks the comparator's name. */
  method ReadEdit(record: Bytes, name: Bytes) returns (r: Option<Edit>)
    ensures r == Decoded(record, name)
  {
    var edit := new VersionEdit();
    var ok := edit.DecodeFrom(record);
    var e := edit.View();
    assert FRESH.(compactPointers := []) == FRESH;
    r := if ok && ComparatorOk(e, name) then Some(e) else None;
  }

  method ApplyTracked(b: Builder, edit: FileEdit, ghost vs: seq<Version>, ghost edits: seq<FileEdit>, ghost i: nat)
    requires IsChain(vs, edits) && i < |edits| && edit == edits[i] && Tracks(b, vs, edits, i)
    modifies b
    ensures Tracks(b, vs, edits, i + 1)
  {
    assert ChainLink(vs, edits, i);
    forall l | 0 <= l < NUM_LEVELS
      ensures FreshFor(b.base[l] + b.added[l], l, edits[i])
    {
      assert FreshFor(EverAt(vs[0][l], edits[..i], l), l, edits[i]);
    }
    ghost var added, deleted := b.added, b.deleted;
    b.Apply(edit);
    forall l, f | 0 <= l < NUM_LEVELS
      ensures f in b.base[l] + b.added[l] <==> f in EverAt(vs[0][l], edits[..i + 1], l)
      ensures f in vs[i + 1][l] <==> b.Holds(l, f)
    {
      TracksStep(vs, edits, i, l, f, added[l], deleted[l], b.added[l], b.deleted[l]);
    }
  }

  lemma LastVersion(b: Builder, v: Version, vs: seq<Version>, edits: seq<FileEdit>)
    requires IsChain(vs, edits) && Tracks(b, vs, edits, |edits|)
    requires forall l | 0 <= l < NUM_LEVELS :: BySmallest(v[l]) && forall f :: f in v[l] <==> b.Holds(l, f)
    ensures v == vs[|edits|]
  {
    forall l | 0 <= l < NUM_LEVELS
      ensures v[l] == vs[|edits|][l]
    {
      assert |edits| > 0 ==> ChainLink(vs, edits, |edits| - 1);
      SameFilesSameList(v[l], vs[|edits|][l]);
    }
  }

  // ---------------------------------------------------------------- snapshots of a version

  const EMPTY_VERSION: Version := [[], [], [], [], [], [], []]

  function AdditionsAt(t: Tables, l: nat, files: Level): (r: seq<Addition>)
    ensures |r| == |files|
  {
    seq(|files|, i requires 0 <= i < |files| => (l, t.describe(files[i])))
  }

  function AdditionsFrom(t: Tables, v: Version, l: nat): seq<Addition>
    requires l <= NUM_LEVELS
    decreases NUM_LEVELS - l
  {
    if l == NUM_LEVELS then [] else AdditionsAt(t, l, v[l]) + AdditionsFrom(t, v, l + 1)
  }

  function PlacedAt(l: nat, files: Level): (r: seq<Placed>)
    ensures |r| == |files|
  {
    seq(|files|, i requires 0 <= i < |files| => (l, files[i]))
  }

  function PlacedFrom(v: Version, l: nat): seq<Placed>
    requires l <= NUM_LEVELS
    decreases NUM_LEVELS - l
  {
    if l == NUM_LEVELS then [] else PlacedAt(l, v[l]) + PlacedFrom(v, l + 1)
  }

  function PointersFrom(pointers: seq<Option<Bytes>>, l: nat): seq<Pointer>
    requires l <= |pointers|
    decreases |pointers| - l
  {
    if l == |pointers| then []
    else (if pointers[l].Some? then [(l, pointers[l].value)] else []) + PointersFrom(pointers, l + 1)
  }

  function SnapshotEdit(t: Tables, v: Version, name: Bytes, pointers: seq<Option<Bytes>>): Edit {
    Edit(Some(name), None, None, None, None, PointersFrom(pointers, 0), [], AdditionsFrom(t, v, 0))
  }

  /** Writes one record that describes a whole version. */
  method WriteSnapshot(t: Tables, v: Version, name: Bytes, pointers: seq<Option<Bytes>>) returns (record: Bytes)
    ensures record == EncodeFields(FieldsOf(SnapshotEdit(t, v, name, pointers)))
  {
    var edit := new VersionEdit();
    edit.comparator := Some(name);
    AddPointers(edit, pointers);
    AddFiles(edit, t, v);
    assert edit.View() == SnapshotEdit(t, v, name, pointers);
    record := edit.EncodeTo();
  }

  method AddPointers(edit: VersionEdit, pointers: seq<Option<Bytes>>)
    modifies edit`compactPointers
    ensures edit.compactPointers == old(edit.compactPointers) + PointersFrom(pointers, 0)
  {
    for level := 0 to |pointers|
      invariant edit.compactPointers + PointersFrom(pointers, level) == old(edit.compactPointers) + PointersFrom(pointers, 0)
    {
      if pointers[level].Some? {
        edit.compactPointers := edit.compactPointers + [(level, pointers[level].value)];
      }
    }
    assert edit.compactPointers + [] == edit.compactPointers;
  }

  method AddFiles(edit: VersionEdit, t: Tables, v: Version)
    modifies edit`newFiles
    ensures edit.newFiles == old(edit.newFiles) + AdditionsFrom(t, v, 0)
  {
    hide AdditionsAt;
    for level := 0 to NUM_LEVELS
      invariant edit.newFiles + AdditionsFrom(t, v, level) == old(edit.newFiles) + AdditionsFrom(t, v, 0)
    {
      AddLevel(edit, t, level, v[level]);
    }
    assert edit.newFiles + [] == edit.newFiles;
  }

  method AddLevel(edit: VersionEdit, t: Tables, level: nat, files: Level)
    modifies edit`newFiles
    ensures edit.newFiles == old(edit.newFiles) + AdditionsAt(t, level, files)
  {
    for i := 0 to |files|
      invariant edit.newFiles == old(edit.newFiles) + AdditionsAt(t, level, files)[..i]
    {
      edit.AddFile(level, t.describe(files[i]));
    }
  }

  lemma {:induction false} ResolvedFrom(t: Tables, v: Version, l: nat)
    requires l <= NUM_LEVELS && forall m, f | 0 <= m < NUM_LEVELS && f in v[m] :: Faithful(t, f)
    ensures ResolveAll(t, AdditionsFrom(t, v, l)) == PlacedFrom(v, l)
    decreases NUM_LEVELS - l
  {
    if l < NUM_LEVELS {
      ResolvedFrom(t, v, l + 1);
      ResolvedAt(t, l, v[l]);
      assert ResolveAll(t, AdditionsAt(t, l, v[l]) + AdditionsFrom(t, v, l + 1))
          == ResolveAll(t, AdditionsAt(t, l, v[l])) + ResolveAll(t, AdditionsFrom(t, v, l + 1));
    }
  }

  lemma ResolvedAt(t: Tables, l: nat, files: Level)
    requires forall f | f in files :: Faithful(t, f)
    ensures ResolveAll(t, AdditionsAt(t, l, files)) == PlacedAt(l, files)
  {
    assert forall i | 0 <= i < |files| :: files[i] in files && Faithful(t, files[i]);
  }

  /** The placed files are exactly the version's, and no level repeats a number. */
  lemma {:induction false} PlacedMembers(v: Version, l: nat)
    requires l <= NUM_LEVELS
    ensures forall m: nat, f: FileMeta :: (m, f) in PlacedFrom(v, l) <==> l <= m < NUM_LEVELS && f in v[m]
    decreases NUM_LEVELS - l
  {
    if l < NUM_LEVELS {
      PlacedMembers(v, l + 1);
      PlacedAtMembers(l, v[l]);
    }
  }

  lemma PlacedAtMembers(l: nat, files: Level)
    ensures forall m: nat, f: FileMeta :: (m, f) in PlacedAt(l, files) <==> m == l && f in files
  {
    forall f | f in files
      ensures (l, f) in PlacedAt(l, files)
    {
      var i :| 0 <= i < |files| && files[i] == f;
      assert PlacedAt(l, files)[i] == (l, f);
    }
  }

  predicate ApartNumbers(ps: seq<(nat, FileMeta)>) {
    forall i, j | 0 <= i < j < |ps| && ps[i].0 == ps[j].0 :: ps[i].1.number != ps[j].1.number
  }

  lemma {:induction false} PlacedNumbers(v: Version, l: nat)
    requires l <= NUM_LEVELS && forall m | 0 <= m < NUM_LEVELS :: NumbersDistinct(v[m])
    ensures ApartNumbers(PlacedFrom(v, l))
    decreases NUM_LEVELS - l
  {
    if l < NUM_LEVELS {
      PlacedNumbers(v, l + 1);
      PlacedMembers(v, l + 1);
      var a, b := PlacedAt(l, v[l]), PlacedFrom(v, l + 1);
      var c: seq<Placed> := a + b;
      forall i: nat, j: nat | i < j < |c| && c[i].0 == c[j].0
        ensures c[i].1.number != c[j].1.number
      {
        if i < |a| <= j {
          assert (b[j - |a|].0, b[j - |a|].1) in b;
        }
      }
    }
  }

  ghost predicate Orderly(t: Tables, v: Version) {
    && (forall m, f | 0 <= m < NUM_LEVELS && f in v[m] :: Faithful(t, f))
    && (forall l | 0 <= l < NUM_LEVELS :: BySmallest(v[l]) && NumbersDistinct(v[l]))
  }

  lemma PlacedLevels(v: Version)
    ensures forall p | p in PlacedFrom(v, 0) :: p.0 < NUM_LEVELS && p.1 in v[p.0]
  {
    PlacedMembers(v, 0);
    forall p | p in PlacedFrom(v, 0)
      ensures p.0 < NUM_LEVELS && p.1 in v[p.0]
    {
      assert (p.0, p.1) in PlacedFrom(v, 0);
    }
  }

  lemma PlacedIsFresh(ps: seq<Placed>, l: nat)
    requires ApartNumbers(ps)
    ensures FreshFor([], l, FileEdit({}, ps))
  {
  }

  lemma PlacedFollows(v: Version, ps: seq<Placed>)
    requires forall l | 0 <= l < NUM_LEVELS :: BySmallest(v[l])
    requires forall m: nat, f: FileMeta :: (m, f) in ps <==> 0 <= m < NUM_LEVELS && f in v[m]
    ensures Follows(EMPTY_VERSION, FileEdit({}, ps), v)
  {
  }

  /** Adding all of a version's files to no files makes that version. */
  lemma PlacingAllFollows(v: Version)
    requires forall l | 0 <= l < NUM_LEVELS :: BySmallest(v[l]) && NumbersDistinct(v[l])
    ensures Follows(EMPTY_VERSION, FileEdit({}, PlacedFrom(v, 0)), v)
    ensures VersionBuilder.EditOk(FileEdit({}, PlacedFrom(v, 0)))
    ensures forall l | 0 <= l < NUM_LEVELS :: FreshFor([], l, FileEdit({}, PlacedFrom(v, 0)))
  {
    PlacedMembers(v, 0);
    PlacedFollows(v, PlacedFrom(v, 0));
    PlacedLevels(v);
    PlacedNumbers(v, 0);
    forall l | 0 <= l < NUM_LEVELS
      ensures FreshFor([], l, FileEdit({}, PlacedFrom(v, 0)))
    {
      PlacedIsFresh(PlacedFrom(v, 0), l);
    }
  }

  /** Applied to no files at all, a snapshot's edit makes exactly the version it describes. */
  lemma SnapshotFollows(t: Tables, v: Version, name: Bytes, pointers: seq<Option<Bytes>>)
    requires Orderly(t, v)
    ensures ToFileEdit(t, SnapshotEdit(t, v, name, pointers)) == FileEdit({}, PlacedFrom(v, 0))
    ensures Follows(EMPTY_VERSION, ToFileEdit(t, SnapshotEdit(t, v, name, pointers)), v)
  {
    ResolvedFrom(t, v, 0);
    PlacingAllFollows(v);
  }

  /** Everything a level ever held, counted from nothing plus the snapshot or from the snapshot's version. */
  lemma {:induction false} EverFromSnapshot(snapshot: FileEdit, files: Level, edits: seq<FileEdit>, l: nat)
    requires forall f :: f in files <==> (l, f) in snapshot.added
    ensures forall f :: f in EverAt([], [snapshot] + edits, l) <==> f in EverAt(files, edits, l)
  {
    if edits == [] {
      assert [snapshot] + edits == [snapshot] && [snapshot][..0] == [];
      AddedAtIsAdded(snapshot.added, l);
    } else {
      var n := |edits| - 1;
      EverFromSnapshot(snapshot, files, edits[..n], l);
      var all := [snapshot] + edits;
      assert all[..|all| - 1] == [snapshot] + edits[..n] && all[|all| - 1] == edits[n];
    }
  }

  lemma FirstLink(v: Version, edits: seq<FileEdit>, vs: seq<Version>)
    requires forall l | 0 <= l < NUM_LEVELS :: BySmallest(v[l]) && NumbersDistinct(v[l])
    requires vs != [] && vs[0] == v
    ensures ChainLink([EMPTY_VERSION] + vs, [FileEdit({}, PlacedFrom(v, 0))] + edits, 0)
  {
    PlacingAllFollows(v);
    hide Follows, PlacedFrom, FreshFor;
    assert ([FileEdit({}, PlacedFrom(v, 0))] + edits)[..0] == [];
  }

  lemma LaterFresh(v: Version, edits: seq<FileEdit>, vs: seq<Version>, i: nat, l: nat)
    requires i < |edits| && IsChain(vs, edits) && vs[0] == v && l < NUM_LEVELS
    ensures FreshFor(EverAt([], [FileEdit({}, PlacedFrom(v, 0))] + edits[..i], l), l, edits[i])
  {
    assert ChainLink(vs, edits, i);
    PlacedMembers(v, 0);
    EverFromSnapshot(FileEdit({}, PlacedFrom(v, 0)), v[l], edits[..i], l);
    assert FreshFor(EverAt(vs[0][l], edits[..i], l), l, edits[i]);
  }

  lemma LaterLink(v: Version, edits: seq<FileEdit>, vs: seq<Version>, i: nat)
    requires i < |edits| && IsChain(vs, edits) && vs[0] == v
    ensures ChainLink([EMPTY_VERSION] + vs, [FileEdit({}, PlacedFrom(v, 0))] + edits, i + 1)
  {
    hide FreshFor, Follows, EverAt, PlacedFrom;
    LaterAllFresh(v, edits, vs, i, [FileEdit({}, PlacedFrom(v, 0))] + edits);
    assert ChainLink(vs, edits, i);
    LinkShifts(vs, edits, i, [EMPTY_VERSION] + vs, [FileEdit({}, PlacedFrom(v, 0))] + edits);
  }

  lemma LaterAllFresh(v: Version, edits: seq<FileEdit>, vs: seq<Version>, i: nat, edits': seq<FileEdit>)
    requires i < |edits| && IsChain(vs, edits) && vs[0] == v && edits' == [FileEdit({}, PlacedFrom(v, 0))] + edits
    ensures forall l | 0 <= l < NUM_LEVELS :: FreshFor(EverAt(EMPTY_VERSION[l], edits'[..i + 1], l), l, edits[i])
  {
    PrefixOfCons(FileEdit({}, PlacedFrom(v, 0)), edits, i);
    forall l | 0 <= l < NUM_LEVELS
      ensures FreshFor(EverAt(EMPTY_VERSION[l], edits'[..i + 1], l), l, edits[i])
    {
      LaterFresh(v, edits, vs, i, l);
    }
  }

  lemma PrefixOfCons(first: FileEdit, edits: seq<FileEdit>, i: nat)
    requires i <= |edits|
    ensures ([first] + edits)[..i + 1] == [first] + edits[..i]
  {
  }

  lemma LinkShifts(vs: seq<Version>, edits: seq<FileEdit>, i: nat, vs': seq<Version>, edits': seq<FileEdit>)
    requires i < |edits| && i + 1 < |vs| && i + 1 < |edits'| && i + 2 < |vs'|
    requires VersionBuilder.EditOk(edits[i]) && Follows(vs[i], edits[i], vs[i + 1])
    requires edits'[i + 1] == edits[i] && vs'[i + 1] == vs[i] && vs'[i + 2] == vs[i + 1]
    requires forall l | 0 <= l < NUM_LEVELS :: FreshFor(EverAt(vs'[0][l], edits'[..i + 1], l), l, edits[i])
    ensures ChainLink(vs', edits', i + 1)
  {
  }

  /** A chain from a version is a chain from nothing once the version's snapshot goes first. */
  lemma SnapshotChain(v: Version, edits: seq<FileEdit>, vs: seq<Version>)
    requires forall l | 0 <= l < NUM_LEVELS :: BySmallest(v[l]) && NumbersDistinct(v[l])
    requires IsChain(vs, edits) && vs[0] == v
    ensures IsChain([EMPTY_VERSION] + vs, [FileEdit({}, PlacedFrom(v, 0))] + edits)
  {
    var vs', edits' := [EMPTY_VERSION] + vs, [FileEdit({}, PlacedFrom(v, 0))] + edits;
    forall i | 0 <= i < |edits'|
      ensures ChainLink(vs', edits', i)
    {
      if i == 0 {
        FirstLink(v, edits, vs);
      } else {
        LaterLink(v, edits, vs, i - 1);
      }
    }
    NothingIsOrdered();
  }

  lemma NothingIsOrdered()
    ensures forall l | 0 <= l < NUM_LEVELS :: BySmallest(EMPTY_VERSION[l])
  {
  }

  method EncodeEdits(edits: seq<Edit>, name: Bytes) returns (records: seq<Bytes>)
    requires forall e | e in edits :: VersionEdits.EditOk(e) && ComparatorOk(e, name)
    ensures AllWritten(records, edits, name)
  {
    records := [];
    for i := 0 to |edits|
      invariant |records| == i && forall j | 0 <= j < i :: records[j] == EncodeFields(FieldsOf(edits[j]))
    {
      records := records + [EncodeFields(FieldsOf(edits[i]))];
    }
    forall i: nat | i < |edits|
      ensures WrittenAs(records, edits, i, name)
    {
      assert edits[i] in edits;
    }
  }

  /**
    A manifest that starts with a snapshot of version `v` and goes on with the edits made since is
    recovered, from nothing, as the version those edits lead to, with the counters written last.
  */
  method SnapshotAndRecover(t: Tables, v: Version, name: Bytes, pointers: seq<Option<Bytes>>, edits: seq<Edit>, ghost vs: seq<Version>)
    returns (r: Option<Recovered>)
    requires Orderly(t, v) && IsChain(vs, ToFileEdits(t, edits)) && vs[0] == v
    requires VersionEdits.EditOk(SnapshotEdit(t, v, name, pointers))
    requires forall e | e in edits :: VersionEdits.EditOk(e) && ComparatorOk(e, name)
    ensures r == Finish(CountAll([SnapshotEdit(t, v, name, pointers)] + edits), vs[|edits|])
  {
    var snapshot := WriteSnapshot(t, v, name, pointers);
    var later := EncodeEdits(edits, name);
    SnapshotIsGenuine(t, v, name, pointers, edits, vs, snapshot, later);
    r := Recover([snapshot] + later, false, name, t, EMPTY_VERSION, [SnapshotEdit(t, v, name, pointers)] + edits, [EMPTY_VERSION] + vs);
  }

  lemma SnapshotIsGenuine(t: Tables, v: Version, name: Bytes, pointers: seq<Option<Bytes>>, edits: seq<Edit>, vs: seq<Version>,
                          snapshot: Bytes, later: seq<Bytes>)
    requires Orderly(t, v) && IsChain(vs, ToFileEdits(t, edits)) && vs[0] == v
    requires VersionEdits.EditOk(SnapshotEdit(t, v, name, pointers))
    requires snapshot == EncodeFields(FieldsOf(SnapshotEdit(t, v, name, pointers))) && AllWritten(later, edits, name)
    ensures Genuine([snapshot] + later, [SnapshotEdit(t, v, name, pointers)] + edits, t, EMPTY_VERSION, [EMPTY_VERSION] + vs, name)
  {
    var first := SnapshotEdit(t, v, name, pointers);
    var es := [first] + edits;
    SnapshotFollows(t, v, name, pointers);
    SnapshotChain(v, ToFileEdits(t, edits), vs);
    FileEditsOfCons(t, first, edits);
    WrittenCons(snapshot, later, first, edits, name);
    WrittenReads([snapshot] + later, es, name);
  }

  lemma WrittenCons(record: Bytes, later: seq<Bytes>, first: Edit, edits: seq<Edit>, name: Bytes)
    requires VersionEdits.EditOk(first) && ComparatorOk(first, name) && record == EncodeFields(FieldsOf(first))
    requires AllWritten(later, edits, name)
    ensures AllWritten([record] + later, [first] + edits, name)
  {
    forall i: nat | i < |[first] + edits|
      ensures WrittenAs([record] + later, [first] + edits, i, name)
    {
      if i > 0 {
        assert WrittenAs(later, edits, i - 1, name);
        WrittenLater(record, later, first, edits, i - 1, name);
      }
    }
  }

  lemma WrittenLater(record: Bytes, later: seq<Bytes>, first: Edit, edits: seq<Edit>, i: nat, name: Bytes)
    requires WrittenAs(later, edits, i, name)
    ensures WrittenAs([record] + later, [first] + edits, i + 1, name)
  {
  }

  lemma FileEditsOfCons(t: Tables, first: Edit, edits: seq<Edit>)
    ensures ToFileEdits(t, [first] + edits) == [ToFileEdit(t, first)] + ToFileEdits(t, edits)
  {
  }

  /** An edit written by LogAndApply carries all the counters, so the last one decides. */
  lemma LastEditDecides(es: seq<Edit>)
    requires es != []
    requires var e := es[|es| - 1]; e.logNumber.Some? && e.prevLogNumber.Some? && e.nextFileNumber.Some? && e.lastSequence.Some?
    ensures var e := es[|es| - 1];
            CountAll(es) == Counters(e.logNumber, e.prevLogNumber, e.nextFileNumber, e.lastSequence)
  {
  }
}
