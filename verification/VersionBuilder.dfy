/**
  Building versions from edits (VersionSet::Builder in db/version_set.cc): applying many edits in one
  builder gives the version that applying them one at a time would.
*/
module VersionBuilder {
  import opened Base
  import opened DbFormat
  import opened Versions
  import opened Edits

  /** What one edit does to the files: numbers deleted per level, files added per level. */
  datatype FileEdit = FileEdit(deleted: set<(nat, nat)>, added: seq<Placed>)

  predicate SortsBefore(f: FileMeta, g: FileMeta) {
    Less(f.smallest, g.smallest) || (f.smallest == g.smallest && f.number < g.number)
  }

  lemma SortsBeforeIsOrder(f: FileMeta, g: FileMeta, h: FileMeta)
    ensures SortsBefore(f, g) && SortsBefore(g, h) ==> SortsBefore(f, h)
    ensures !(SortsBefore(f, g) && SortsBefore(g, f))
    ensures f.number != g.number ==> SortsBefore(f, g) || SortsBefore(g, f)
  {
  }

  /** A list in builder order is determined by its members. */
  lemma {:induction false} SameFilesSameList(a: Level, b: Level)
    requires BySmallest(a) && BySmallest(b)
    requires forall f :: f in a <==> f in b
    ensures a == b
  {
    if a != [] {
      HeadIsMember(a);
    }
    if b != [] {
      HeadIsMember(b);
    }
    if a != [] && b != [] {
      assert a[0] in b && b[0] in a;
      HeadIsFirst(a, b[0]);
      HeadIsFirst(b, a[0]);
      assert a[0] == b[0];
      HeadIsAlone(a);
      HeadIsAlone(b);
      assert forall f :: f in a[1..] <==> f in a && f != a[0];
      assert forall f :: f in b[1..] <==> f in b && f != b[0];
      SameFilesSameList(a[1..], b[1..]);
      assert a == [a[0]] + a[1..] && b == [b[0]] + b[1..];
    }
  }

  lemma HeadIsMember(a: Level)
    requires a != []
    ensures a[0] in a
  {
  }

  lemma HeadIsFirst(a: Level, f: FileMeta)
    requires BySmallest(a) && f in a
    ensures f == a[0] || SortsBefore(a[0], f)
  {
  }

  lemma HeadIsAlone(a: Level)
    requires BySmallest(a) && a != []
    ensures a[0] !in a[1..]
    ensures forall f :: f in a <==> f == a[0] || f in a[1..]
  {
    assert a == [a[0]] + a[1..];
    assert forall i | 0 < i < |a| :: SortsBefore(a[0], a[i]);
  }

  /** Inserts into an ordered set; an element that compares equal is already there. */
  function InsertOrdered(files: Level, f: FileMeta): (r: Level)
    ensures forall g :: g in files ==> g in r
    ensures forall g :: g in r ==> g in files || g == f
  {
    if files == [] || SortsBefore(f, files[0]) then [f] + files
    else if SortsBefore(files[0], f) then
      assert forall g :: g in files <==> g == files[0] || g in files[1..];
      [files[0]] + InsertOrdered(files[1..], f)
    else files
  }

  lemma {:induction false} InsertOrderedKeeps(files: Level, f: FileMeta)
    requires BySmallest(files)
    ensures BySmallest(InsertOrdered(files, f))
    ensures (forall g | g in files :: g.number != f.number) ==> f in InsertOrdered(files, f)
  {
    if files != [] && !SortsBefore(f, files[0]) && SortsBefore(files[0], f) {
      var rest := InsertOrdered(files[1..], f);
      InsertOrderedKeeps(files[1..], f);
      forall i | 0 <= i < |rest|
        ensures SortsBefore(files[0], rest[i])
      {
        assert rest[i] in rest;
        assert rest[i] != f ==> rest[i] in files[1..];
      }
      assert InsertOrdered(files, f) == [files[0]] + rest;
    } else if files != [] && SortsBefore(f, files[0]) {
      forall i | 0 <= i < |files|
        ensures SortsBefore(f, files[i])
      {
        SortsBeforeIsOrder(f, files[0], files[i]);
      }
    } else if files != [] {
      assert files[0] in files;
      SortsBeforeIsOrder(f, files[0], f);
    }
  }

  // ---------------------------------------------------------------- what an edit means

  ghost predicate Survives(level: nat, f: FileMeta, edit: FileEdit) {
    (level, f.number) !in edit.deleted || (exists g :: (level, g) in edit.added && g.number == f.number)
  }

  /** `w` is the version one edit makes of `v`: each level in builder order with exactly the right files. */
  ghost predicate Follows(v: Version, edit: FileEdit, w: Version) {
    forall l | 0 <= l < NUM_LEVELS ::
      && BySmallest(w[l])
      && forall f :: f in w[l] <==> (f in v[l] || (l, f) in edit.added) && Survives(l, f, edit)
  }

  /** Added numbers are new to their level. */
  ghost predicate FreshFor(files: Level, level: nat, edit: FileEdit) {
    && (forall g, f | (level, g) in edit.added && f in files :: f.number != g.number)
    && (forall i, j | 0 <= i < j < |edit.added| && edit.added[i].0 == level && edit.added[j].0 == level ::
          edit.added[i].1.number != edit.added[j].1.number)
  }

  class Builder {
    const base: Version
    var deleted: seq<set<nat>>
    var added: seq<Level>

    ghost predicate Valid()
      reads this
    {
      && |deleted| == NUM_LEVELS && |added| == NUM_LEVELS
      && (forall l | 0 <= l < NUM_LEVELS :: BySmallest(base[l]) && BySmallest(added[l]))
      && (forall l, f, g | 0 <= l < NUM_LEVELS && f in base[l] && g in added[l] :: f.number != g.number)
    }

    /** The files the builder would save at a level. */
    ghost predicate Holds(l: nat, f: FileMeta)
      reads this
      requires Valid() && l < NUM_LEVELS
    {
      (f in base[l] || f in added[l]) && f.number !in deleted[l]
    }

    constructor (base: Version)
      requires forall l | 0 <= l < NUM_LEVELS :: BySmallest(base[l])
      ensures Valid() && this.base == base
      ensures forall l | 0 <= l < NUM_LEVELS :: deleted[l] == {} && added[l] == []
    {
      this.base := base;
      deleted := seq(NUM_LEVELS, _ => {});
      added := seq(NUM_LEVELS, _ => []);
    }

    method DeleteFiles(edit: FileEdit)
      requires Valid() && forall p | p in edit.deleted :: p.0 < NUM_LEVELS
      modifies this`deleted
      ensures Valid()
      ensures forall l | 0 <= l < NUM_LEVELS :: deleted[l] == old(deleted)[l] + set p | p in edit.deleted && p.0 == l :: p.1
    {
      var del := edit.deleted;
      while del != {}
        invariant del <= edit.deleted && |deleted| == NUM_LEVELS
        invariant forall l | 0 <= l < NUM_LEVELS ::
          deleted[l] == old(deleted)[l] + set p | p in edit.deleted && p !in del && p.0 == l :: p.1
        decreases del
      {
        var p :| p in del;
        deleted := deleted[p.0 := deleted[p.0] + {p.1}];
        del := del - {p};
      }
    }

    /** Applies an edit to the builder's state: deletions first, then additions, which undo deletions of their number. */
    method Apply(edit: FileEdit)
      requires Valid()
      requires forall p | p in edit.deleted :: p.0 < NUM_LEVELS
      requires forall p | p in edit.added :: p.0 < NUM_LEVELS
      requires forall l | 0 <= l < NUM_LEVELS :: FreshFor(base[l] + added[l], l, edit)
      modifies this
      ensures Valid()
      ensures forall l, f | 0 <= l < NUM_LEVELS :: f in added[l] <==> f in old(added)[l] || (l, f) in edit.added
      ensures forall l, n | 0 <= l < NUM_LEVELS ::
        n in deleted[l] <==> (n in old(deleted)[l] || (l, n) in edit.deleted)
                             && !exists g :: (l, g) in edit.added && g.number == n
    {
      DeleteFiles(edit);
      AddFiles(edit);
    }

    /** The next file to add shares its number with no file there. */
    static lemma NumberIsNew(base: Level, before: Level, added: Level, edit: FileEdit, i: nat,
                             deletedBefore: set<nat>, deleted: set<nat>)
      requires i < |edit.added| && FreshFor(base + before, edit.added[i].0, edit)
      requires AddedUpTo(edit, i, edit.added[i].0, before, added, deletedBefore, deleted)
      ensures forall g | g in base || g in added :: g.number != edit.added[i].1.number
    {
      var (level, f) := edit.added[i];
      assert (level, f) in edit.added;
      forall g | g in base || g in added
        ensures g.number != f.number
      {
        assert g in base + before || (level, g) in edit.added[..i];
      }
    }

    /** One level after the first `i` additions of an edit: they are in, and their numbers are no longer deleted. */
    static ghost predicate AddedUpTo(edit: FileEdit, i: nat, l: nat, before: Level, now: Level, deletedBefore: set<nat>, deletedNow: set<nat>)
      requires i <= |edit.added|
    {
      && (forall f :: f in now <==> f in before || (l, f) in edit.added[..i])
      && (forall n :: n in deletedNow <==> n in deletedBefore && !exists g :: (l, g) in edit.added[..i] && g.number == n)
    }

    static lemma OneMoreAdded(edit: FileEdit, i: nat, l: nat, before: Level, now: Level, next: Level,
                              deletedBefore: set<nat>, deletedNow: set<nat>)
      requires i < |edit.added| && AddedUpTo(edit, i, l, before, now, deletedBefore, deletedNow)
      requires forall g :: g in next <==> g in now || (l == edit.added[i].0 && g == edit.added[i].1)
      ensures AddedUpTo(edit, i + 1, l, before, next, deletedBefore,
                        if l == edit.added[i].0 then deletedNow - {edit.added[i].1.number} else deletedNow)
    {
      assert edit.added[..i + 1] == edit.added[..i] + [edit.added[i]];
      assert forall g :: (l, g) in edit.added[..i + 1] <==> (l, g) in edit.added[..i] || (l, g) == edit.added[i];
    }

    method AddFiles(edit: FileEdit)
      requires Valid() && forall p | p in edit.added :: p.0 < NUM_LEVELS
      requires forall l | 0 <= l < NUM_LEVELS :: FreshFor(base[l] + added[l], l, edit)
      modifies this
      ensures Valid()
      ensures forall l, f | 0 <= l < NUM_LEVELS :: f in added[l] <==> f in old(added)[l] || (l, f) in edit.added
      ensures forall l, n | 0 <= l < NUM_LEVELS ::
        n in deleted[l] <==> n in old(deleted)[l] && !exists g :: (l, g) in edit.added && g.number == n
    {
      hide FreshFor;
      for i := 0 to |edit.added|
        invariant Valid()
        invariant forall l | 0 <= l < NUM_LEVELS ::
          AddedUpTo(edit, i, l, old(added)[l], added[l], old(deleted)[l], deleted[l])
      {
        var (level, f) := edit.added[i];
        assert (level, f) in edit.added;
        NumberIsNew(base[level], old(added)[level], added[level], edit, i, old(deleted)[level], deleted[level]);
        ghost var had, gone := added, deleted;
        AddFile(level, f);
        forall l | 0 <= l < NUM_LEVELS
          ensures AddedUpTo(edit, i + 1, l, old(added)[l], added[l], old(deleted)[l], deleted[l])
        {
          OneMoreAdded(edit, i, l, old(added)[l], had[l], added[l], old(deleted)[l], gone[l]);
        }
      }
      assert edit.added[..|edit.added|] == edit.added;
    }

    method AddFile(level: nat, f: FileMeta)
      requires Valid() && level < NUM_LEVELS
      requires forall g | g in base[level] || g in added[level] :: g.number != f.number
      modifies this
      ensures Valid()
      ensures deleted == old(deleted)[level := old(deleted)[level] - {f.number}]
      ensures forall l, g | 0 <= l < NUM_LEVELS :: g in added[l] <==> g in old(added)[l] || (l == level && g == f)
    {
      InsertOrderedKeeps(added[level], f);
      deleted := deleted[level := deleted[level] - {f.number}];
      added := added[level := InsertOrdered(added[level], f)];
    }

    /** Merges the base files with the added ones, leaving out deleted numbers. */
    method SaveLevel(l: nat) returns (files: Level)
      requires Valid() && l < NUM_LEVELS
      ensures BySmallest(files)
      ensures forall f :: f in files <==> Holds(l, f)
    {
      var baseFiles, more := base[l], added[l];
      files := [];
      var b := 0;
      for i := 0 to |more|
        invariant 0 <= b <= |baseFiles|
        invariant Merged(files, baseFiles, b, more, i, deleted[l])
      {
        while b < |baseFiles| && !SortsBefore(more[i], baseFiles[b])
          invariant 0 <= b <= |baseFiles|
          invariant Merged(files, baseFiles, b, more, i, deleted[l])
        {
          assert baseFiles[b] in baseFiles && more[i] in more;
          TakeBase(files, baseFiles, b, more, i, deleted[l]);
          files := MaybeAddFile(files, deleted[l], baseFiles[b]);
          b := b + 1;
        }
        TakeAdded(files, baseFiles, b, more, i, deleted[l]);
        files := MaybeAddFile(files, deleted[l], more[i]);
      }
      while b < |baseFiles|
        invariant 0 <= b <= |baseFiles|
        invariant Merged(files, baseFiles, b, more, |more|, deleted[l])
      {
        TakeBase(files, baseFiles, b, more, |more|, deleted[l]);
        files := MaybeAddFile(files, deleted[l], baseFiles[b]);
        b := b + 1;
      }
      assert baseFiles[..|baseFiles|] == baseFiles && more[..|more|] == more;
    }

    method SaveTo() returns (v: Version)
      requires Valid()
      ensures forall l | 0 <= l < NUM_LEVELS :: BySmallest(v[l]) && forall f :: f in v[l] <==> Holds(l, f)
    {
      var levels: seq<Level> := [];
      for l := 0 to NUM_LEVELS
        invariant |levels| == l
        invariant forall m | 0 <= m < l :: BySmallest(levels[m]) && forall f :: f in levels[m] <==> Holds(m, f)
      {
        var files := SaveLevel(l);
        levels := levels + [files];
      }
      v := levels;
    }
  }

  function MaybeAddFile(files: Level, deleted: set<nat>, f: FileMeta): Level {
    if f.number in deleted then files else files + [f]
  }

  /** Loop state of the merge: everything taken is in order and sorts before everything still to come. */
  ghost predicate Merged(files: Level, baseFiles: Level, b: nat, more: Level, i: nat, deleted: set<nat>) {
    && b <= |baseFiles| && i <= |more|
    && BySmallest(files)
    && (forall f :: f in files <==> (f in baseFiles[..b] || f in more[..i]) && f.number !in deleted)
    && (forall f, j | f in files && b <= j < |baseFiles| :: SortsBefore(f, baseFiles[j]))
    && (forall f, j | f in files && i <= j < |more| :: SortsBefore(f, more[j]))
  }

  /** Adding a file that sorts after everything taken so far keeps the order. */
  lemma AddFileAtEnd(files: Level, deleted: set<nat>, f: FileMeta)
    requires BySmallest(files) && forall g | g in files :: SortsBefore(g, f)
    ensures BySmallest(MaybeAddFile(files, deleted, f))
    ensures forall g :: g in MaybeAddFile(files, deleted, f) <==> g in files || (g == f && f.number !in deleted)
  {
    assert forall i | 0 <= i < |files| :: files[i] in files;
  }

  lemma PrefixMembers(files: Level, b: nat)
    requires b < |files|
    ensures forall g :: g in files[..b + 1] <==> g in files[..b] || g == files[b]
  {
    assert files[..b + 1] == files[..b] + [files[b]];
  }

  /** `f` sorts before `g` and so before all that follows `g` in builder order. */
  lemma BeforeRest(f: FileMeta, files: Level, b: nat)
    requires BySmallest(files) && b < |files| && SortsBefore(f, files[b])
    ensures forall j | b <= j < |files| :: SortsBefore(f, files[j])
  {
    forall j | b <= j < |files|
      ensures SortsBefore(f, files[j])
    {
      SortsBeforeIsOrder(f, files[b], files[j]);
    }
  }

  lemma TakeBase(files: Level, baseFiles: Level, b: nat, more: Level, i: nat, deleted: set<nat>)
    requires Merged(files, baseFiles, b, more, i, deleted) && b < |baseFiles|
    requires BySmallest(baseFiles) && BySmallest(more)
    requires forall f, g | f in baseFiles && g in more :: f.number != g.number
    requires i < |more| ==> !SortsBefore(more[i], baseFiles[b])
    ensures Merged(MaybeAddFile(files, deleted, baseFiles[b]), baseFiles, b + 1, more, i, deleted)
  {
    var f := baseFiles[b];
    AddFileAtEnd(files, deleted, f);
    PrefixMembers(baseFiles, b);
    if i < |more| {
      assert f in baseFiles && more[i] in more;
      SortsBeforeIsOrder(f, more[i], f);
      BeforeRest(f, more, i);
    }
  }

  lemma TakeAdded(files: Level, baseFiles: Level, b: nat, more: Level, i: nat, deleted: set<nat>)
    requires Merged(files, baseFiles, b, more, i, deleted) && i < |more|
    requires BySmallest(baseFiles) && BySmallest(more)
    requires b < |baseFiles| ==> SortsBefore(more[i], baseFiles[b])
    ensures Merged(MaybeAddFile(files, deleted, more[i]), baseFiles, b, more, i + 1, deleted)
  {
    var f := more[i];
    AddFileAtEnd(files, deleted, f);
    PrefixMembers(more, i);
    if b < |baseFiles| {
      BeforeRest(f, baseFiles, b);
    }
  }

  // ---------------------------------------------------------------- many edits, one builder

  ghost predicate EditOk(edit: FileEdit) {
    && (forall p | p in edit.deleted :: p.0 < NUM_LEVELS)
    && (forall p | p in edit.added :: p.0 < NUM_LEVELS)
  }

  /** Versions `vs` follow one another through `edits`, every added number being new to its level in all versions so far. */
  ghost predicate IsChain(vs: seq<Version>, edits: seq<FileEdit>) {
    && |vs| == |edits| + 1
    && (forall l | 0 <= l < NUM_LEVELS :: BySmallest(vs[0][l]))
    && forall i | 0 <= i < |edits| :: ChainLink(vs, edits, i)
  }

  ghost predicate ChainLink(vs: seq<Version>, edits: seq<FileEdit>, i: nat)
    requires i < |edits| && i + 1 < |vs|
  {
    && EditOk(edits[i]) && Follows(vs[i], edits[i], vs[i + 1])
    && forall l | 0 <= l < NUM_LEVELS :: FreshFor(EverAt(vs[0][l], edits[..i], l), l, edits[i])
  }

  /** Every file a level ever held: the base files and all additions. */
  ghost function EverAt(files: Level, edits: seq<FileEdit>, l: nat): Level {
    if edits == [] then files
    else EverAt(files, edits[..|edits| - 1], l) + AddedAt(edits[|edits| - 1].added, l)
  }

  ghost function AddedAt(added: seq<Placed>, l: nat): Level {
    if added == [] then []
    else AddedAt(added[..|added| - 1], l) + if added[|added| - 1].0 == l then [added[|added| - 1].1] else []
  }

  lemma {:induction false} AddedAtIsAdded(added: seq<Placed>, l: nat)
    ensures forall f :: f in AddedAt(added, l) <==> (l, f) in added
  {
    if added != [] {
      AddedAtIsAdded(added[..|added| - 1], l);
      assert added == added[..|added| - 1] + [added[|added| - 1]];
    }
  }

  /** The builder has seen exactly the edits so far and would save exactly the current version. */
  ghost predicate Tracks(b: Builder, vs: seq<Version>, edits: seq<FileEdit>, i: nat)
    requires IsChain(vs, edits) && i <= |edits|
    reads b
  {
    && b.Valid() && b.base == vs[0]
    && (forall l, f | 0 <= l < NUM_LEVELS :: f in b.base[l] + b.added[l] <==> f in EverAt(vs[0][l], edits[..i], l))
    && (forall l, f | 0 <= l < NUM_LEVELS :: f in vs[i][l] <==> b.Holds(l, f))
  }

  /** One more edit applied to a builder that tracked the chain so far. */
  lemma TracksStep(vs: seq<Version>, edits: seq<FileEdit>, i: nat, l: nat, f: FileMeta,
                   added: Level, deleted: set<nat>, added': Level, deleted': set<nat>)
    requires IsChain(vs, edits) && i < |edits| && l < NUM_LEVELS
    requires f in vs[0][l] + added <==> f in EverAt(vs[0][l], edits[..i], l)
    requires f in vs[i][l] <==> (f in vs[0][l] || f in added) && f.number !in deleted
    requires f in added' <==> f in added || (l, f) in edits[i].added
    requires f.number in deleted' <==> (f.number in deleted || (l, f.number) in edits[i].deleted)
                                       && !exists g :: (l, g) in edits[i].added && g.number == f.number
    ensures f in vs[0][l] + added' <==> f in EverAt(vs[0][l], edits[..i + 1], l)
    ensures f in vs[i + 1][l] <==> (f in vs[0][l] || f in added') && f.number !in deleted'
  {
    assert ChainLink(vs, edits, i);
    assert edits[..i + 1][..i] == edits[..i];
    AddedAtIsAdded(edits[i].added, l);
    if f in vs[0][l] || f in added {
      assert f in EverAt(vs[0][l], edits[..i], l);
    }
  }

  lemma StartsTracking(vs: seq<Version>, edits: seq<FileEdit>, b: Builder)
    requires IsChain(vs, edits) && b.Valid() && b.base == vs[0]
    requires forall l | 0 <= l < NUM_LEVELS :: b.deleted[l] == {} && b.added[l] == []
    ensures Tracks(b, vs, edits, 0)
  {
    assert edits[..0] == [];
  }

  /** Replaying a sequence of edits in one builder, as recovery does, yields the last version of the chain. */
  method ReplayEdits(base: Version, edits: seq<FileEdit>, ghost vs: seq<Version>) returns (v: Version)
    requires IsChain(vs, edits) && vs[0] == base
    ensures v == vs[|edits|]
  {
    var b := new Builder(base);
    StartsTracking(vs, edits, b);
    for i := 0 to |edits|
      invariant fresh(b) && Tracks(b, vs, edits, i)
    {
      assert ChainLink(vs, edits, i);
      forall l | 0 <= l < NUM_LEVELS
        ensures FreshFor(b.base[l] + b.added[l], l, edits[i])
      {
        assert FreshFor(EverAt(vs[0][l], edits[..i], l), l, edits[i]);
      }
      ghost var added, deleted := b.added, b.deleted;
      b.Apply(edits[i]);
      forall l, f | 0 <= l < NUM_LEVELS
        ensures f in b.base[l] + b.added[l] <==> f in EverAt(vs[0][l], edits[..i + 1], l)
        ensures f in vs[i + 1][l] <==> b.Holds(l, f)
      {
        TracksStep(vs, edits, i, l, f, added[l], deleted[l], b.added[l], b.deleted[l]);
      }
    }
    v := b.SaveTo();
    forall l | 0 <= l < NUM_LEVELS
      ensures v[l] == vs[|edits|][l]
    {
      assert |edits| > 0 ==> ChainLink(vs, edits, |edits| - 1);
      SameFilesSameList(v[l], vs[|edits|][l]);
    }
  }
}
