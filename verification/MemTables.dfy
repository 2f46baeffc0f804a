/**
  Internal keys as byte strings and the memtable's entries (db/dbformat.h, db/dbformat.cc,
  db/memtable.cc): how they are packed, how the comparator orders the packed forms, and what a lookup
  by packed key finds.  User keys are byte strings under any strict total order `before`.
*/
module MemTables {
  import opened Base
  import opened Coding
  import opened DbFormat

  type Order = (Bytes, Bytes) -> bool

  ghost predicate TotalOrder(before: Order) {
    && (forall a: Bytes, b: Bytes :: before(a, b) ==> !before(b, a))
    && (forall a: Bytes, b: Bytes, c: Bytes :: before(a, b) && before(b, c) ==> before(a, c))
    && (forall a: Bytes, b: Bytes :: before(a, b) || a == b || before(b, a))
  }

  // ---------------------------------------------------------------- packed keys

  datatype ParsedKey = ParsedKey(user: Bytes, sequence: SequenceNumber, kind: Kind)

  function Pack(sequence: SequenceNumber, kind: Kind): (n: nat)
    ensures n < 0x1_0000_0000_0000_0000
  {
    sequence * 256 + (if kind.Value? then 1 else 0)
  }

  lemma Unpacked(sequence: SequenceNumber, kind: Kind)
    ensures Pack(sequence, kind) / 256 == sequence
    ensures Pack(sequence, kind) % 256 == if kind.Value? then 1 else 0
  {
  }

  function KeyBytes(k: ParsedKey): (b: Bytes)
    ensures |b| == |k.user| + 8
  {
    k.user + EncodeFixed64(Pack(k.sequence, k.kind))
  }

  function ExtractUserKey(b: Bytes): Bytes
    requires |b| >= 8
  {
    b[..|b| - 8]
  }

  function TagOf(b: Bytes): nat
    requires |b| >= 8
  {
    DecodeFixed64(b[|b| - 8..])
  }

  /** A key of at least eight bytes whose type byte is known. */
  function ParseInternalKey(b: Bytes): Option<ParsedKey> {
    if |b| < 8 || TagOf(b) % 256 > 1 || TagOf(b) / 256 > MAX_SEQUENCE then None
    else Some(ParsedKey(ExtractUserKey(b), TagOf(b) / 256, if TagOf(b) % 256 == 1 then Value else Deletion))
  }

  lemma PackedParts(k: ParsedKey)
    ensures ExtractUserKey(KeyBytes(k)) == k.user && TagOf(KeyBytes(k)) == Pack(k.sequence, k.kind)
  {
    var n := Pack(k.sequence, k.kind);
    Fixed64RoundTrip(n);
    assert KeyBytes(k)[|k.user|..] == EncodeFixed64(n);
  }

  lemma ParseRoundTrip(k: ParsedKey)
    ensures ParseInternalKey(KeyBytes(k)) == Some(k)
  {
    PackedParts(k);
    Unpacked(k.sequence, k.kind);
  }

  /** InternalKeyComparator::Compare on packed keys. */
  function Compare(before: Order, a: Bytes, b: Bytes): int
    requires |a| >= 8 && |b| >= 8
  {
    if before(ExtractUserKey(a), ExtractUserKey(b)) then -1
    else if before(ExtractUserKey(b), ExtractUserKey(a)) then 1
    else if TagOf(a) > TagOf(b) then -1
    else if TagOf(a) < TagOf(b) then 1
    else 0
  }

  /** Increasing user key, then decreasing sequence number, then decreasing type. */
  predicate Precedes(before: Order, a: ParsedKey, b: ParsedKey) {
    || before(a.user, b.user)
    || (a.user == b.user && (a.sequence > b.sequence || (a.sequence == b.sequence && a.kind.Value? && b.kind.Deletion?)))
  }

  /** The order of the packed keys is that of what they stand for. */
  lemma CompareIsOrder(before: Order, a: ParsedKey, b: ParsedKey)
    requires TotalOrder(before)
    ensures Compare(before, KeyBytes(a), KeyBytes(b)) < 0 <==> Precedes(before, a, b)
    ensures Compare(before, KeyBytes(a), KeyBytes(b)) == 0 <==> a == b
    ensures Compare(before, KeyBytes(a), KeyBytes(b)) == -Compare(before, KeyBytes(b), KeyBytes(a))
  {
    PackedParts(a);
    PackedParts(b);
  }

  // ---------------------------------------------------------------- memtable entries

  datatype Item = Item(key: ParsedKey, value: Bytes)

  predicate Small(it: Item) {
    |it.key.user| + 8 < 0x1_0000_0000 && |it.value| < 0x1_0000_0000
  }

  function EntryBytes(it: Item): Bytes {
    EncodeString(KeyBytes(it.key)) + EncodeString(it.value)
  }

  /** GetLengthPrefixedSlice: the string and what lies behind it; lengths are trusted. */
  function Prefixed(b: Bytes): (Bytes, Bytes) {
    match DecodeString(b)
    case None => ([], [])
    case Some(r) => r
  }

  lemma EntryParts(it: Item)
    requires Small(it)
    ensures Prefixed(EntryBytes(it)) == (KeyBytes(it.key), EncodeString(it.value))
    ensures Prefixed(EncodeString(it.value)) == (it.value, [])
  {
    StringRoundTrip(KeyBytes(it.key), EncodeString(it.value));
    StringRoundTrip(it.value, []);
    assert EncodeString(it.value) + [] == EncodeString(it.value);
  }

  lemma EntryFields(it: Item)
    requires Small(it)
    ensures var (internalKey, rest) := Prefixed(EntryBytes(it));
      && |internalKey| >= 8 && ExtractUserKey(internalKey) == it.key.user
      && (TagOf(internalKey) % 256 == 1 <==> it.key.kind.Value?)
      && Prefixed(rest).0 == it.value
  {
    EntryParts(it);
    KindTells(it.key);
  }

  lemma KindTells(k: ParsedKey)
    ensures ExtractUserKey(KeyBytes(k)) == k.user
    ensures TagOf(KeyBytes(k)) % 256 == 1 <==> k.kind.Value?
  {
    PackedParts(k);
    Unpacked(k.sequence, k.kind);
  }

  /** The key by which a lookup seeks: it precedes just the entries it may see, and newer ones precede it. */
  function SeekKey(user: Bytes, s: SequenceNumber): ParsedKey {
    ParsedKey(user, s, Value)
  }

  predicate Visible(it: Item, user: Bytes, s: SequenceNumber) {
    it.key.user == user && it.key.sequence <= s
  }

  lemma SeekKeySplits(before: Order, k: ParsedKey, user: Bytes, s: SequenceNumber)
    requires TotalOrder(before)
    ensures Precedes(before, k, SeekKey(user, s)) <==> before(k.user, user) || (k.user == user && k.sequence > s)
  {
  }

  class MemTable {
    const before: Order
    /** The entries in the order the skip list keeps them. */
    var table: seq<Bytes>
    /** What they stand for. */
    ghost var items: seq<Item>

    ghost predicate Valid()
      reads this
    {
      TotalOrder(before) && StandFor(table, items) && SortedItems(before, items)
    }

    constructor (before: Order)
      requires TotalOrder(before)
      ensures Valid() && items == [] && this.before == before
    {
      this.before, table, items := before, [], [];
    }

    /** Where the skip list's search ends: at the first entry that is not before the target. */
    method FindGreaterOrEqual(target: Bytes, ghost key: ParsedKey) returns (i: nat)
      requires Valid() && Prefixed(target).0 == KeyBytes(key)
      ensures i <= |items|
      ensures forall j :: 0 <= j < i ==> Precedes(before, items[j].key, key)
      ensures forall j :: i <= j < |items| ==> !Precedes(before, items[j].key, key)
    {
      i := 0;
      while i < |table|
        invariant i <= |table|
        invariant forall j :: 0 <= j < i ==> Precedes(before, items[j].key, key)
      {
        EntryParts(items[i]);
        CompareIsOrder(before, items[i].key, key);
        if Compare(before, Prefixed(table[i]).0, Prefixed(target).0) >= 0 {
          NotBefore(before, items, i, key);
          return;
        }
        i := i + 1;
      }
    }

    /** Adds an entry whose key is not there yet; nothing else changes. */
    method Add(sequence: SequenceNumber, kind: Kind, key: Bytes, value: Bytes) returns (ghost i: nat)
      requires Valid() && Small(Item(ParsedKey(key, sequence, kind), value))
      requires forall it :: it in items ==> it.key != ParsedKey(key, sequence, kind)
      modifies this
      ensures Valid() && i <= |old(items)|
      ensures items == old(items)[..i] + [Item(ParsedKey(key, sequence, kind), value)] + old(items)[i..]
    {
      ghost var it := Item(ParsedKey(key, sequence, kind), value);
      var internalKey := key + EncodeFixed64(Pack(sequence, kind));
      var buf := EncodeString(internalKey) + EncodeString(value);
      EntryParts(it);
      var at := FindGreaterOrEqual(buf, it.key);
      InsertedInOrder(before, items, at, it);
      InsertedStands(table, items, at, buf, it);
      table := table[..at] + [buf] + table[at..];
      items := items[..at] + [it] + items[at..];
      i := at;
    }

    /**
      The newest entry of the user key that the sequence number sees: its value, or that it was deleted;
      `false` when there is none.
    */
    method Get(user: Bytes, s: SequenceNumber) returns (found: bool, value: Option<Bytes>)
      requires Valid() && |user| + 8 < 0x1_0000_0000
      ensures !found ==> forall it :: it in items ==> !Visible(it, user, s)
      ensures found ==> exists n :: n in items && NewestVisible(items, n, user, s)
                                    && value == if n.key.kind.Value? then Some(n.value) else None
    {
      var target := EncodeString(KeyBytes(SeekKey(user, s)));
      StringRoundTrip(KeyBytes(SeekKey(user, s)), []);
      assert target + [] == target;
      var i := FindGreaterOrEqual(target, SeekKey(user, s));
      SeekEnds(before, items, i, user, s);
      value := None;
      if i < |table| {
        EntryFields(items[i]);
        var (internalKey, rest) := Prefixed(table[i]);
        if ExtractUserKey(internalKey) == user {
          if TagOf(internalKey) % 256 == 1 {
            value := Some(Prefixed(rest).0);
          }
          return true, value;
        }
      }
      found := false;
    }
  }

  ghost predicate StandFor(table: seq<Bytes>, items: seq<Item>) {
    |items| == |table| && forall i :: 0 <= i < |items| ==> Small(items[i]) && table[i] == EntryBytes(items[i])
  }

  lemma InsertedStands(table: seq<Bytes>, items: seq<Item>, i: nat, b: Bytes, it: Item)
    requires StandFor(table, items) && i <= |items| && Small(it) && b == EntryBytes(it)
    ensures StandFor(table[..i] + [b] + table[i..], items[..i] + [it] + items[i..])
  {
  }

  ghost predicate SortedItems(before: Order, items: seq<Item>) {
    forall i, j :: 0 <= i < j < |items| ==> Precedes(before, items[i].key, items[j].key)
  }

  ghost predicate NewestVisible(items: seq<Item>, n: Item, user: Bytes, s: SequenceNumber) {
    Visible(n, user, s) && forall it :: it in items && Visible(it, user, s) ==> it.key.sequence <= n.key.sequence
  }

  lemma NotBefore(before: Order, items: seq<Item>, i: nat, key: ParsedKey)
    requires TotalOrder(before) && SortedItems(before, items) && i < |items| && !Precedes(before, items[i].key, key)
    ensures forall j :: i <= j < |items| ==> !Precedes(before, items[j].key, key)
  {
  }

  lemma InsertedInOrder(before: Order, items: seq<Item>, i: nat, it: Item)
    requires TotalOrder(before) && SortedItems(before, items) && i <= |items|
    requires forall j :: 0 <= j < i ==> Precedes(before, items[j].key, it.key)
    requires forall j :: i <= j < |items| ==> !Precedes(before, items[j].key, it.key)
    requires forall x :: x in items ==> x.key != it.key
    ensures SortedItems(before, items[..i] + [it] + items[i..])
  {
    forall j | i <= j < |items|
      ensures Precedes(before, it.key, items[j].key)
    {
      assert items[j] in items;
    }
  }

  /** Where the seek for a user key ends, its newest visible entry is, or there is none. */
  lemma SeekEnds(before: Order, items: seq<Item>, i: nat, user: Bytes, s: SequenceNumber)
    requires TotalOrder(before) && SortedItems(before, items) && i <= |items|
    requires forall j :: 0 <= j < i ==> Precedes(before, items[j].key, SeekKey(user, s))
    requires forall j :: i <= j < |items| ==> !Precedes(before, items[j].key, SeekKey(user, s))
    ensures if i < |items| && items[i].key.user == user then NewestVisible(items, items[i], user, s)
            else forall it :: it in items ==> !Visible(it, user, s)
  {
    NothingVisibleBefore(before, items, i, user, s);
    if i < |items| {
      if items[i].key.user == user {
        FirstIsNewest(before, items, i, user, s);
      } else {
        OtherKeyHidesAll(before, items, i, user, s);
      }
    }
  }

  lemma NothingVisibleBefore(before: Order, items: seq<Item>, i: nat, user: Bytes, s: SequenceNumber)
    requires TotalOrder(before) && i <= |items|
    requires forall j :: 0 <= j < i ==> Precedes(before, items[j].key, SeekKey(user, s))
    ensures forall j :: 0 <= j < i ==> !Visible(items[j], user, s)
  {
  }

  lemma FirstIsNewest(before: Order, items: seq<Item>, i: nat, user: Bytes, s: SequenceNumber)
    requires TotalOrder(before) && SortedItems(before, items) && i < |items|
    requires forall j :: 0 <= j < i ==> !Visible(items[j], user, s)
    requires items[i].key.user == user && !Precedes(before, items[i].key, SeekKey(user, s))
    ensures NewestVisible(items, items[i], user, s)
  {
  }

  lemma OtherKeyHidesAll(before: Order, items: seq<Item>, i: nat, user: Bytes, s: SequenceNumber)
    requires TotalOrder(before) && SortedItems(before, items) && i < |items|
    requires forall j :: 0 <= j < i ==> !Visible(items[j], user, s)
    requires items[i].key.user != user && !Precedes(before, items[i].key, SeekKey(user, s))
    ensures forall it :: it in items ==> !Visible(it, user, s)
  {
    forall j | i <= j < |items|
      ensures !Visible(items[j], user, s)
    {
      assert before(user, items[i].key.user);
    }
  }
}
