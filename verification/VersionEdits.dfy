/**
  Manifest records (db/version_edit.cc): an edit written out and decoded into a fresh edit is the same edit.
*/
module VersionEdits {
  import opened Base
  import opened Coding

  const LEVELS: nat := 7

  const COMPARATOR: nat := 1
  const LOG_NUMBER: nat := 2
  const NEXT_FILE_NUMBER: nat := 3
  const LAST_SEQUENCE: nat := 4
  const COMPACT_POINTER: nat := 5
  const DELETED_FILE: nat := 6
  const NEW_FILE: nat := 7
  const PREV_LOG_NUMBER: nat := 9

  /** A file as the manifest describes it, with encoded internal keys. */
  datatype FileRecord = FileRecord(number: nat, size: nat, smallest: Bytes, largest: Bytes)

  datatype Field =
    | Comparator(name: Bytes)
    | LogNumber(n: nat)
    | PrevLogNumber(n: nat)
    | NextFileNumber(n: nat)
    | LastSequence(n: nat)
    | CompactPointer(level: nat, key: Bytes)
    | DeletedFile(level: nat, number: nat)
    | NewFile(level: nat, file: FileRecord)

  predicate Fits64(n: nat) { n < 0x1_0000_0000_0000_0000 }

  predicate FitsString(s: Bytes) { |s| < 0x1_0000_0000 }

  predicate FieldOk(f: Field) {
    match f
    case Comparator(name) => FitsString(name)
    case LogNumber(n) => Fits64(n)
    case PrevLogNumber(n) => Fits64(n)
    case NextFileNumber(n) => Fits64(n)
    case LastSequence(n) => Fits64(n)
    case CompactPointer(level, key) => level < LEVELS && FitsString(key)
    case DeletedFile(level, number) => level < LEVELS && Fits64(number)
    case NewFile(level, file) =>
      level < LEVELS && Fits64(file.number) && Fits64(file.size) && FitsString(file.smallest) && FitsString(file.largest)
  }

  /** What stands behind the tag. */
  function Body(f: Field): Bytes {
    match f
    case Comparator(name) => EncodeString(name)
    case LogNumber(n) => EncodeVarint(n)
    case PrevLogNumber(n) => EncodeVarint(n)
    case NextFileNumber(n) => EncodeVarint(n)
    case LastSequence(n) => EncodeVarint(n)
    case CompactPointer(level, key) => EncodeVarint(level) + EncodeString(key)
    case DeletedFile(level, number) => EncodeVarint(level) + EncodeVarint(number)
    case NewFile(level, file) => EncodeVarint(level) + EncodeFile(file)
  }

  function TagOf(f: Field): nat {
    match f
    case Comparator(_) => COMPARATOR
    case LogNumber(_) => LOG_NUMBER
    case PrevLogNumber(_) => PREV_LOG_NUMBER
    case NextFileNumber(_) => NEXT_FILE_NUMBER
    case LastSequence(_) => LAST_SEQUENCE
    case CompactPointer(_, _) => COMPACT_POINTER
    case DeletedFile(_, _) => DELETED_FILE
    case NewFile(_, _) => NEW_FILE
  }

  function EncodeField(f: Field): (b: Bytes)
    ensures b != []
  {
    EncodeVarint(TagOf(f)) + Body(f)
  }

  function EncodeFile(f: FileRecord): Bytes {
    EncodeVarint(f.number) + (EncodeVarint(f.size) + (EncodeString(f.smallest) + EncodeString(f.largest)))
  }

  // ---------------------------------------------------------------- parsing

  function GetVarint(b: Bytes, limit: nat): (r: Option<(nat, Bytes)>)
    ensures r.Some? ==> |r.value.1| < |b|
  {
    match DecodeVarint(b, limit)
    case None => None
    case Some(x) => Some((x.0, b[x.1..]))
  }

  function GetLevel(b: Bytes): (r: Option<(nat, Bytes)>)
    ensures r.Some? ==> |r.value.1| < |b|
  {
    match GetVarint(b, VARINT32_BYTES)
    case None => None
    case Some(x) => if x.0 < LEVELS then Some(x) else None
  }

  function GetFile(b: Bytes): (r: Option<(FileRecord, Bytes)>)
    ensures r.Some? ==> |r.value.1| < |b|
  {
    match GetVarint(b, VARINT64_BYTES)
    case None => None
    case Some(number) =>
      match GetVarint(number.1, VARINT64_BYTES)
      case None => None
      case Some(size) =>
        match DecodeString(size.1)
        case None => None
        case Some(smallest) =>
          match DecodeString(smallest.1)
          case None => None
          case Some(largest) => Some((FileRecord(number.0, size.0, smallest.0, largest.0), largest.1))
  }

  function GetBody(tag: nat, b: Bytes): (r: Option<(Field, Bytes)>)
    ensures r.Some? ==> |r.value.1| < |b|
  {
    if tag == COMPARATOR then
      match DecodeString(b)
      case None => None
      case Some(x) => Some((Comparator(x.0), x.1))
    else if tag in {LOG_NUMBER, PREV_LOG_NUMBER, NEXT_FILE_NUMBER, LAST_SEQUENCE} then
      match GetVarint(b, VARINT64_BYTES)
      case None => None
      case Some(x) => Some((NumberField(tag, x.0), x.1))
    else if tag in {COMPACT_POINTER, DELETED_FILE, NEW_FILE} then
      match GetLevel(b)
      case None => None
      case Some(x) => GetPlaced(tag, x.0, x.1)
    else None
  }

  function NumberField(tag: nat, n: nat): Field {
    if tag == LOG_NUMBER then LogNumber(n)
    else if tag == PREV_LOG_NUMBER then PrevLogNumber(n)
    else if tag == NEXT_FILE_NUMBER then NextFileNumber(n)
    else LastSequence(n)
  }

  function GetPlaced(tag: nat, level: nat, b: Bytes): (r: Option<(Field, Bytes)>)
    ensures r.Some? ==> |r.value.1| < |b|
  {
    if tag == COMPACT_POINTER then
      match DecodeString(b)
      case None => None
      case Some(x) => Some((CompactPointer(level, x.0), x.1))
    else if tag == DELETED_FILE then
      match GetVarint(b, VARINT64_BYTES)
      case None => None
      case Some(x) => Some((DeletedFile(level, x.0), x.1))
    else
      match GetFile(b)
      case None => None
      case Some(x) => Some((NewFile(level, x.0), x.1))
  }

  function GetField(b: Bytes): (r: Option<(Field, Bytes)>)
    ensures r.Some? ==> |r.value.1| < |b|
  {
    match GetVarint(b, VARINT32_BYTES)
    case None => None
    case Some(tag) => GetBody(tag.0, tag.1)
  }

  // ---------------------------------------------------------------- round trip of one field

  lemma VarintGets(n: nat, rest: Bytes, limit: nat)
    requires (limit == VARINT32_BYTES && n < 0x1_0000_0000) || (limit == VARINT64_BYTES && Fits64(n))
    ensures GetVarint(EncodeVarint(n) + rest, limit) == Some((n, rest))
  {
    if limit == VARINT32_BYTES {
      Varint32RoundTrip(n, rest);
    } else {
      Varint64RoundTrip(n, rest);
    }
    assert (EncodeVarint(n) + rest)[|EncodeVarint(n)|..] == rest;
  }

  lemma FileGets(f: FileRecord, rest: Bytes)
    requires Fits64(f.number) && Fits64(f.size) && FitsString(f.smallest) && FitsString(f.largest)
    ensures GetFile(EncodeFile(f) + rest) == Some((f, rest))
  {
    var largest := EncodeString(f.largest) + rest;
    var smallest := EncodeString(f.smallest) + largest;
    var size := EncodeVarint(f.size) + smallest;
    assert EncodeFile(f) + rest == EncodeVarint(f.number) + size;
    VarintGets(f.number, size, VARINT64_BYTES);
    VarintGets(f.size, smallest, VARINT64_BYTES);
    StringRoundTrip(f.smallest, largest);
    StringRoundTrip(f.largest, rest);
  }

  lemma LevelGets(level: nat, tail: Bytes, rest: Bytes)
    requires level < LEVELS
    ensures GetLevel(EncodeVarint(level) + tail + rest) == Some((level, tail + rest))
  {
    assert EncodeVarint(level) + tail + rest == EncodeVarint(level) + (tail + rest);
    VarintGets(level, tail + rest, VARINT32_BYTES);
  }

  lemma PointerGets(level: nat, key: Bytes, rest: Bytes)
    requires level < LEVELS && FitsString(key)
    ensures GetBody(COMPACT_POINTER, EncodeVarint(level) + EncodeString(key) + rest) == Some((CompactPointer(level, key), rest))
  {
    LevelGets(level, EncodeString(key), rest);
    StringRoundTrip(key, rest);
  }

  lemma DeletionGets(level: nat, number: nat, rest: Bytes)
    requires level < LEVELS && Fits64(number)
    ensures GetBody(DELETED_FILE, EncodeVarint(level) + EncodeVarint(number) + rest) == Some((DeletedFile(level, number), rest))
  {
    LevelGets(level, EncodeVarint(number), rest);
    VarintGets(number, rest, VARINT64_BYTES);
  }

  lemma AdditionGets(level: nat, file: FileRecord, rest: Bytes)
    requires FieldOk(NewFile(level, file))
    ensures GetBody(NEW_FILE, EncodeVarint(level) + EncodeFile(file) + rest) == Some((NewFile(level, file), rest))
  {
    LevelGets(level, EncodeFile(file), rest);
    FileGets(file, rest);
    PlacedFileGets(EncodeVarint(level) + EncodeFile(file) + rest, level, EncodeFile(file) + rest, file, rest);
  }

  lemma PlacedFileGets(b: Bytes, level: nat, b1: Bytes, file: FileRecord, rest: Bytes)
    requires GetLevel(b) == Some((level, b1)) && GetFile(b1) == Some((file, rest))
    ensures GetBody(NEW_FILE, b) == Some((NewFile(level, file), rest))
  {
    hide GetLevel, GetFile;
  }

  lemma BodyGets(f: Field, rest: Bytes)
    requires FieldOk(f)
    ensures GetBody(TagOf(f), Body(f) + rest) == Some((f, rest))
  {
    match f
    case Comparator(name) => StringRoundTrip(name, rest);
    case LogNumber(n) => VarintGets(n, rest, VARINT64_BYTES);
    case PrevLogNumber(n) => VarintGets(n, rest, VARINT64_BYTES);
    case NextFileNumber(n) => VarintGets(n, rest, VARINT64_BYTES);
    case LastSequence(n) => VarintGets(n, rest, VARINT64_BYTES);
    case CompactPointer(level, key) => PointerGets(level, key, rest);
    case DeletedFile(level, number) => DeletionGets(level, number, rest);
    case NewFile(level, file) => AdditionGets(level, file, rest);
  }

  lemma FieldRoundTrip(f: Field, rest: Bytes)
    requires FieldOk(f)
    ensures GetField(EncodeField(f) + rest) == Some((f, rest))
  {
    hide Body, GetBody, GetVarint, EncodeVarint, FieldOk;
    assert EncodeField(f) + rest == EncodeVarint(TagOf(f)) + (Body(f) + rest);
    VarintGets(TagOf(f), Body(f) + rest, VARINT32_BYTES);
    BodyGets(f, rest);
  }

  function EncodeFields(fs: seq<Field>): Bytes {
    if fs == [] then [] else EncodeField(fs[0]) + EncodeFields(fs[1..])
  }

  /** All fields of a record, or nothing if any of it does not parse. */
  function ParseFields(b: Bytes): Option<seq<Field>>
    decreases |b|
  {
    if b == [] then Some([])
    else
      match GetField(b)
      case None => None
      case Some(x) =>
        match ParseFields(x.1)
        case None => None
        case Some(fs) => Some([x.0] + fs)
  }

  lemma {:induction false} FieldsRoundTrip(fs: seq<Field>)
    requires forall f | f in fs :: FieldOk(f)
    ensures ParseFields(EncodeFields(fs)) == Some(fs)
  {
    if fs != [] {
      var first, rest := fs[0], fs[1..];
      FieldsRoundTrip(rest);
      FieldRoundTrip(first, EncodeFields(rest));
      ParseStep(EncodeField(first), EncodeFields(rest), first, rest);
      assert [first] + rest == fs;
    }
  }

  lemma ParseStep(a: Bytes, b: Bytes, f: Field, fs: seq<Field>)
    requires a != [] && GetField(a + b) == Some((f, b)) && ParseFields(b) == Some(fs)
    ensures ParseFields(a + b) == Some([f] + fs)
  {
  }

  // ---------------------------------------------------------------- edits

  type Pointer = (nat, Bytes)
  type Deletion = (nat, nat)
  type Addition = (nat, FileRecord)

  datatype Edit = Edit(
    comparator: Option<Bytes>,
    logNumber: Option<nat>,
    prevLogNumber: Option<nat>,
    nextFileNumber: Option<nat>,
    lastSequence: Option<nat>,
    compactPointers: seq<Pointer>,
    deletedFiles: seq<Deletion>,
    newFiles: seq<Addition>)

  const FRESH := Edit(None, None, None, None, None, [], [], [])

  predicate Smaller(a: Deletion, b: Deletion) {
    a.0 < b.0 || (a.0 == b.0 && a.1 < b.1)
  }

  /** The deleted files are an ordered set. */
  predicate Ordered(ds: seq<Deletion>) {
    forall i, j | 0 <= i < j < |ds| :: Smaller(ds[i], ds[j])
  }

  function InsertDeletion(ds: seq<Deletion>, d: Deletion): seq<Deletion> {
    if ds == [] then [d]
    else if Smaller(d, ds[0]) then [d] + ds
    else if d == ds[0] then ds
    else [ds[0]] + InsertDeletion(ds[1..], d)
  }

  lemma {:induction false} InsertLargest(ds: seq<Deletion>, d: Deletion)
    requires forall x | x in ds :: Smaller(x, d)
    ensures InsertDeletion(ds, d) == ds + [d]
  {
    if ds != [] {
      assert ds[0] in ds;
      InsertLargest(ds[1..], d);
      assert [ds[0]] + (ds[1..] + [d]) == ds + [d];
    }
  }

  /** What a decoded field does to the edit. */
  function ApplyField(e: Edit, f: Field): Edit {
    match f
    case Comparator(name) => e.(comparator := Some(name))
    case LogNumber(n) => e.(logNumber := Some(n))
    case PrevLogNumber(n) => e.(prevLogNumber := Some(n))
    case NextFileNumber(n) => e.(nextFileNumber := Some(n))
    case LastSequence(n) => e.(lastSequence := Some(n))
    case CompactPointer(level, key) => e.(compactPointers := e.compactPointers + [(level, key)])
    case DeletedFile(level, number) => e.(deletedFiles := InsertDeletion(e.deletedFiles, (level, number)))
    case NewFile(level, file) => e.(newFiles := e.newFiles + [(level, file)])
  }

  function ApplyFields(e: Edit, fs: seq<Field>): Edit
    decreases |fs|
  {
    if fs == [] then e else ApplyFields(ApplyField(e, fs[0]), fs[1..])
  }

  lemma {:induction false} ApplyConcat(e: Edit, a: seq<Field>, b: seq<Field>)
    ensures ApplyFields(e, a + b) == ApplyFields(ApplyFields(e, a), b)
    decreases |a|
  {
    if a == [] {
      assert a + b == b;
    } else {
      assert (a + b)[1..] == a[1..] + b;
      ApplyConcat(ApplyField(e, a[0]), a[1..], b);
    }
  }

  // ---------------------------------------------------------------- the fields of an edit, in file order

  function Scalars(e: Edit): seq<Field> {
    (if e.comparator.Some? then [Comparator(e.comparator.value)] else [])
    + (if e.logNumber.Some? then [LogNumber(e.logNumber.value)] else [])
    + (if e.prevLogNumber.Some? then [PrevLogNumber(e.prevLogNumber.value)] else [])
    + (if e.nextFileNumber.Some? then [NextFileNumber(e.nextFileNumber.value)] else [])
    + (if e.lastSequence.Some? then [LastSequence(e.lastSequence.value)] else [])
  }

  function PointerFields(ps: seq<Pointer>): seq<Field> {
    if ps == [] then [] else [CompactPointer(ps[0].0, ps[0].1)] + PointerFields(ps[1..])
  }

  function DeletionFields(ds: seq<Deletion>): seq<Field> {
    if ds == [] then [] else [DeletedFile(ds[0].0, ds[0].1)] + DeletionFields(ds[1..])
  }

  function AdditionFields(fs: seq<Addition>): seq<Field> {
    if fs == [] then [] else [NewFile(fs[0].0, fs[0].1)] + AdditionFields(fs[1..])
  }

  function FieldsOf(e: Edit): seq<Field> {
    Scalars(e) + (PointerFields(e.compactPointers) + (DeletionFields(e.deletedFiles) + AdditionFields(e.newFiles)))
  }

  predicate EditOk(e: Edit) {
    Ordered(e.deletedFiles) && forall f | f in FieldsOf(e) :: FieldOk(f)
  }

  lemma {:induction false} PointersApply(e: Edit, ps: seq<Pointer>)
    ensures ApplyFields(e, PointerFields(ps)) == e.(compactPointers := e.compactPointers + ps)
    decreases |ps|
  {
    if ps == [] {
      assert e.compactPointers + ps == e.compactPointers;
    } else {
      PointersApply(e.(compactPointers := e.compactPointers + [ps[0]]), ps[1..]);
      assert e.compactPointers + [ps[0]] + ps[1..] == e.compactPointers + ps;
    }
  }

  lemma {:induction false} DeletionsApply(e: Edit, ds: seq<Deletion>)
    requires Ordered(e.deletedFiles + ds)
    ensures ApplyFields(e, DeletionFields(ds)) == e.(deletedFiles := e.deletedFiles + ds)
    decreases |ds|
  {
    if ds == [] {
      assert e.deletedFiles + ds == e.deletedFiles;
    } else {
      var more := e.deletedFiles + [ds[0]];
      assert more + ds[1..] == e.deletedFiles + ds;
      LastIsLargest(e.deletedFiles, ds);
      InsertLargest(e.deletedFiles, ds[0]);
      DeletionsApply(e.(deletedFiles := more), ds[1..]);
    }
  }

  lemma LastIsLargest(a: seq<Deletion>, b: seq<Deletion>)
    requires Ordered(a + b) && b != []
    ensures forall x | x in a :: Smaller(x, b[0])
  {
    forall x | x in a
      ensures Smaller(x, b[0])
    {
      var i :| 0 <= i < |a| && a[i] == x;
      assert (a + b)[i] == x && (a + b)[|a|] == b[0];
    }
  }

  lemma {:induction false} AdditionsApply(e: Edit, fs: seq<Addition>)
    ensures ApplyFields(e, AdditionFields(fs)) == e.(newFiles := e.newFiles + fs)
    decreases |fs|
  {
    if fs == [] {
      assert e.newFiles + fs == e.newFiles;
    } else {
      AdditionsApply(e.(newFiles := e.newFiles + [fs[0]]), fs[1..]);
      assert e.newFiles + [fs[0]] + fs[1..] == e.newFiles + fs;
    }
  }

  lemma ScalarsApply(e: Edit)
    ensures ApplyFields(FRESH, Scalars(e)) == e.(compactPointers := [], deletedFiles := [], newFiles := [])
  {
    var a := if e.comparator.Some? then [Comparator(e.comparator.value)] else [];
    var b := if e.logNumber.Some? then [LogNumber(e.logNumber.value)] else [];
    var c := if e.prevLogNumber.Some? then [PrevLogNumber(e.prevLogNumber.value)] else [];
    var d := if e.nextFileNumber.Some? then [NextFileNumber(e.nextFileNumber.value)] else [];
    var l := if e.lastSequence.Some? then [LastSequence(e.lastSequence.value)] else [];
    ApplyConcat(FRESH, a + b + c + d, l);
    ApplyConcat(FRESH, a + b + c, d);
    ApplyConcat(FRESH, a + b, c);
    ApplyConcat(FRESH, a, b);
    OneApplies(FRESH, a);
    var e1 := FRESH.(comparator := e.comparator);
    OneApplies(e1, b);
    var e2 := e1.(logNumber := e.logNumber);
    OneApplies(e2, c);
    var e3 := e2.(prevLogNumber := e.prevLogNumber);
    OneApplies(e3, d);
    OneApplies(e3.(nextFileNumber := e.nextFileNumber), l);
  }

  lemma OneApplies(e: Edit, fs: seq<Field>)
    requires |fs| <= 1
    ensures ApplyFields(e, fs) == if fs == [] then e else ApplyField(e, fs[0])
  {
  }

  /** The fields of an edit, applied to a fresh one, make the same edit. */
  lemma FieldsRebuild(e: Edit)
    requires Ordered(e.deletedFiles)
    ensures ApplyFields(FRESH, FieldsOf(e)) == e
  {
    var scalars := e.(compactPointers := [], deletedFiles := [], newFiles := []);
    var pointers, deletions, additions :=
      PointerFields(e.compactPointers), DeletionFields(e.deletedFiles), AdditionFields(e.newFiles);
    ScalarsApply(e);
    ApplyConcat(FRESH, Scalars(e), pointers + (deletions + additions));
    ApplyConcat(scalars, pointers, deletions + additions);
    PointersApply(scalars, e.compactPointers);
    var e1 := scalars.(compactPointers := e.compactPointers);
    assert [] + e.compactPointers == e.compactPointers;
    ApplyConcat(e1, deletions, additions);
    assert [] + e.deletedFiles == e.deletedFiles;
    DeletionsApply(e1, e.deletedFiles);
    assert [] + e.newFiles == e.newFiles;
    AdditionsApply(e1.(deletedFiles := e.deletedFiles), e.newFiles);
  }

  /** An edit survives being written and decoded into a fresh edit. */
  lemma EditRoundTrip(e: Edit)
    requires EditOk(e)
    ensures ParseFields(EncodeFields(FieldsOf(e))) == Some(FieldsOf(e))
    ensures ApplyFields(FRESH, FieldsOf(e)) == e
  {
    FieldsRoundTrip(FieldsOf(e));
    FieldsRebuild(e);
  }

  // ---------------------------------------------------------------- decoding into an edit used before

  function WithPointers(ps: seq<Pointer>, e: Edit): Edit {
    e.(compactPointers := ps + e.compactPointers)
  }

  /** Compaction pointers present beforehand stay in front of all that is decoded, and matter to nothing else. */
  lemma {:induction false} PointersStayInFront(ps: seq<Pointer>, e: Edit, fs: seq<Field>)
    ensures ApplyFields(WithPointers(ps, e), fs) == WithPointers(ps, ApplyFields(e, fs))
    decreases |fs|
  {
    if fs != [] {
      PointersStayInFront(ps, ApplyField(e, fs[0]), fs[1..]);
      if fs[0].CompactPointer? {
        assert ps + e.compactPointers + [(fs[0].level, fs[0].key)] == ps + (e.compactPointers + [(fs[0].level, fs[0].key)]);
      }
    }
  }

  /** A cleared edit still has its compaction pointers: decoding into it restores the edit exactly if it had none. */
  lemma DecodesIntoClearedIff(e: Edit, ps: seq<Pointer>)
    requires EditOk(e)
    ensures ParseFields(EncodeFields(FieldsOf(e))) == Some(FieldsOf(e))
    ensures ApplyFields(FRESH.(compactPointers := ps), FieldsOf(e)) == e.(compactPointers := ps + e.compactPointers)
    ensures ApplyFields(FRESH.(compactPointers := ps), FieldsOf(e)) == e <==> ps == []
  {
    EditRoundTrip(e);
    PointersStayInFront(ps, FRESH, FieldsOf(e));
    assert ps + [] == ps;
    assert |ps + e.compactPointers| == |e.compactPointers| <==> ps == [];
    assert [] + e.compactPointers == e.compactPointers;
  }

  /** One edit decoded twice into the same object: the second time its compaction pointer is there twice. */
  lemma DecodedTwiceDiffers(key: Bytes)
    requires FitsString(key)
    ensures var e := FRESH.(compactPointers := [(1, key)]);
            && EditOk(e)
            && ApplyFields(FRESH, FieldsOf(e)) == e
            && ApplyFields(FRESH.(compactPointers := e.compactPointers), FieldsOf(e)).compactPointers == [(1, key), (1, key)]
  {
    var e := FRESH.(compactPointers := [(1, key)]);
    assert FieldsOf(e) == [CompactPointer(1, key)] by {
      assert PointerFields(e.compactPointers) == [CompactPointer(1, key)] + PointerFields(e.compactPointers[1..]);
    }
    DecodesIntoClearedIff(e, e.compactPointers);
    EditRoundTrip(e);
  }

  // ---------------------------------------------------------------- the object

  lemma {:induction false} EncodeConcat(a: seq<Field>, b: seq<Field>)
    ensures EncodeFields(a + b) == EncodeFields(a) + EncodeFields(b)
  {
    if a == [] {
      assert a + b == b;
    } else {
      assert (a + b)[1..] == a[1..] + b;
      EncodeConcat(a[1..], b);
    }
  }

  class VersionEdit {
    var comparator: Option<Bytes>
    var logNumber: Option<nat>
    var prevLogNumber: Option<nat>
    var nextFileNumber: Option<nat>
    var lastSequence: Option<nat>
    var compactPointers: seq<Pointer>
    var deletedFiles: seq<Deletion>
    var newFiles: seq<Addition>

    function View(): Edit
      reads this
    {
      Edit(comparator, logNumber, prevLogNumber, nextFileNumber, lastSequence, compactPointers, deletedFiles, newFiles)
    }

    constructor ()
      ensures View() == FRESH
    {
      comparator, logNumber, prevLogNumber, nextFileNumber, lastSequence := None, None, None, None, None;
      compactPointers, deletedFiles, newFiles := [], [], [];
    }

    /** Forgets everything but the compaction pointers, which the source leaves alone. */
    method Clear()
      modifies this
      ensures View() == FRESH.(compactPointers := old(compactPointers))
    {
      comparator, logNumber, prevLogNumber, nextFileNumber, lastSequence := None, None, None, None, None;
      deletedFiles, newFiles := [], [];
    }

    method DeleteFile(level: nat, number: nat)
      modifies this`deletedFiles
      ensures View() == ApplyField(old(View()), DeletedFile(level, number))
    {
      deletedFiles := InsertDeletion(deletedFiles, (level, number));
    }

    method AddFile(level: nat, file: FileRecord)
      modifies this`newFiles
      ensures View() == ApplyField(old(View()), NewFile(level, file))
    {
      newFiles := newFiles + [(level, file)];
    }

    method EncodeTo() returns (dst: Bytes)
      ensures dst == EncodeFields(FieldsOf(View()))
    {
      dst := EncodeFields(Scalars(View()));
      ghost var scalars := dst;
      for i := 0 to |compactPointers|
        invariant dst + EncodeFields(PointerFields(compactPointers[i..])) == scalars + EncodeFields(PointerFields(compactPointers))
      {
        var p := compactPointers[i];
        assert compactPointers[i..][1..] == compactPointers[i + 1..];
        AppendCode(dst, CompactPointer(p.0, p.1), PointerFields(compactPointers[i + 1..]));
        dst := dst + EncodeField(CompactPointer(p.0, p.1));
      }
      NothingLeft(dst, compactPointers);
      ghost var pointers := dst;
      for i := 0 to |deletedFiles|
        invariant dst + EncodeFields(DeletionFields(deletedFiles[i..])) == pointers + EncodeFields(DeletionFields(deletedFiles))
      {
        var d := deletedFiles[i];
        assert deletedFiles[i..][1..] == deletedFiles[i + 1..];
        AppendCode(dst, DeletedFile(d.0, d.1), DeletionFields(deletedFiles[i + 1..]));
        dst := dst + EncodeField(DeletedFile(d.0, d.1));
      }
      NothingLeft(dst, deletedFiles);
      ghost var deletions := dst;
      for i := 0 to |newFiles|
        invariant dst + EncodeFields(AdditionFields(newFiles[i..])) == deletions + EncodeFields(AdditionFields(newFiles))
      {
        var f := newFiles[i];
        assert newFiles[i..][1..] == newFiles[i + 1..];
        AppendCode(dst, NewFile(f.0, f.1), AdditionFields(newFiles[i + 1..]));
        dst := dst + EncodeField(NewFile(f.0, f.1));
      }
      NothingLeft(dst, newFiles);
      EncodedParts(View());
    }

    /** Parses field by field; on success the record's fields were applied in order to the cleared edit. */
    method DecodeFrom(src: Bytes) returns (ok: bool)
      modifies this
      ensures ok <==> ParseFields(src).Some?
      ensures ok ==> View() == ApplyFields(FRESH.(compactPointers := old(compactPointers)), ParseFields(src).value)
    {
      Clear();
      ghost var cleared := View();
      var input := src;
      ok := true;
      while ok && input != []
        invariant ok ==> (ParseFields(src).Some? <==> ParseFields(input).Some?)
        invariant ok && ParseFields(input).Some? ==>
                    ApplyFields(View(), ParseFields(input).value) == ApplyFields(cleared, ParseFields(src).value)
        invariant !ok ==> ParseFields(src) == None
        decreases |input|, ok
      {
        var field := GetField(input);
        if field == None {
          ok := false;
        } else {
          ParsedOne(input);
          Take(field.value.0);
          input := field.value.1;
        }
      }
    }

    method Take(f: Field)
      modifies this
      ensures View() == ApplyField(old(View()), f)
    {
      match f
      case Comparator(name) => comparator := Some(name);
      case LogNumber(n) => logNumber := Some(n);
      case PrevLogNumber(n) => prevLogNumber := Some(n);
      case NextFileNumber(n) => nextFileNumber := Some(n);
      case LastSequence(n) => lastSequence := Some(n);
      case CompactPointer(level, key) => compactPointers := compactPointers + [(level, key)];
      case DeletedFile(level, number) => DeleteFile(level, number);
      case NewFile(level, file) => AddFile(level, file);
    }
  }

  lemma ParsedOne(b: Bytes)
    requires b != [] && GetField(b).Some?
    ensures var x := GetField(b).value;
            && (ParseFields(b).Some? <==> ParseFields(x.1).Some?)
            && (ParseFields(b).Some? ==> ParseFields(b).value == [x.0] + ParseFields(x.1).value)
            && (forall e: Edit | ParseFields(b).Some? ::
                  ApplyFields(e, ParseFields(b).value) == ApplyFields(ApplyField(e, x.0), ParseFields(x.1).value))
  {
    var x := GetField(b).value;
    if ParseFields(b).Some? {
      var rest := ParseFields(x.1).value;
      assert ([x.0] + rest)[1..] == rest;
    }
  }

  lemma AppendCode(dst: Bytes, f: Field, rest: seq<Field>)
    ensures dst + EncodeFields([f] + rest) == dst + EncodeField(f) + EncodeFields(rest)
  {
    assert ([f] + rest)[1..] == rest;
  }

  lemma NothingLeft<T>(dst: Bytes, list: seq<T>)
    ensures list[|list|..] == [] && list[0..] == list && dst + [] == dst
  {
  }

  lemma EncodedParts(e: Edit)
    ensures EncodeFields(FieldsOf(e))
         == EncodeFields(Scalars(e)) + EncodeFields(PointerFields(e.compactPointers))
            + EncodeFields(DeletionFields(e.deletedFiles)) + EncodeFields(AdditionFields(e.newFiles))
  {
    var pointers, deletions, additions :=
      PointerFields(e.compactPointers), DeletionFields(e.deletedFiles), AdditionFields(e.newFiles);
    EncodeConcat(Scalars(e), pointers + (deletions + additions));
    EncodeConcat(pointers, deletions + additions);
    EncodeConcat(deletions, additions);
    Regroup(EncodeFields(Scalars(e)), EncodeFields(pointers), EncodeFields(deletions), EncodeFields(additions));
  }

  lemma Regroup(a: Bytes, b: Bytes, c: Bytes, d: Bytes)
    ensures a + (b + (c + d)) == a + b + c + d
  {
  }
}
