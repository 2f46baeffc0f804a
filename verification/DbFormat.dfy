/** Options, bytes and the other stock types shared by every module. */
module Base {
  datatype Option<+T> = None | Some(value: T)

  newtype byte = b: int | 0 <= b < 256

  type Bytes = seq<byte>
}

/**
  Internal keys and the order every component of the store relies on
  (db/dbformat.h, db/dbformat.cc), together with sorted entry lists.

  The user comparator is a caller-supplied total order on byte strings.  A total order on a
  countable set embeds in the reals, so a user key is represented by its image under such an
  embedding: nothing but the order is ever used.
*/
module DbFormat {
  import opened Base

  type UserKey = real

  const MAX_SEQUENCE := 0xFF_FFFF_FFFF_FFFF

  type SequenceNumber = n: nat | n <= MAX_SEQUENCE

  datatype Kind = Deletion | Value

  datatype InternalKey = InternalKey(user: UserKey, sequence: SequenceNumber, kind: Kind)

  datatype Entry = Entry(key: InternalKey, value: Bytes)

  /** The packed trailer: 56 bits of sequence number above 8 bits of type. */
  function Tag(k: InternalKey): nat {
    k.sequence * 256 + (if k.kind.Value? then 1 else 0)
  }

  /** Increasing user key, then decreasing (sequence, type). */
  predicate Less(a: InternalKey, b: InternalKey) {
    a.user < b.user || (a.user == b.user && Tag(a) > Tag(b))
  }

  /** The key that sorts just before every entry for `k` visible at sequence `s`. */
  function LookupKey(k: UserKey, s: SequenceNumber): InternalKey {
    InternalKey(k, s, Value)
  }

  lemma LessIsTotalOrder(a: InternalKey, b: InternalKey, c: InternalKey)
    ensures Less(a, b) && Less(b, c) ==> Less(a, c)
    ensures !(Less(a, b) && Less(b, a))
    ensures Less(a, b) || a == b || Less(b, a)
  {
  }

  /** An entry precedes the lookup key exactly when no read of `k` at `s` may return it or anything before it. */
  lemma LookupKeySplits(x: InternalKey, k: UserKey, s: SequenceNumber)
    ensures Less(x, LookupKey(k, s)) <==> x.user < k || (x.user == k && x.sequence > s)
  {
  }

  predicate Sorted(es: seq<Entry>) {
    forall i, j | 0 <= i < j < |es| :: Less(es[i].key, es[j].key)
  }

  ghost function Elems(es: seq<Entry>): set<Entry> {
    set e | e in es
  }

  lemma FirstIsElem(es: seq<Entry>)
    requires es != []
    ensures es[0] in Elems(es)
  {
  }

  /** A table's or memtable's seek: the first position whose key is at or after `key`. */
  function Seek(es: seq<Entry>, key: InternalKey): (i: nat)
    ensures i <= |es|
    ensures forall j | 0 <= j < i :: Less(es[j].key, key)
    ensures i < |es| ==> !Less(es[i].key, key)
  {
    if es == [] || !Less(es[0].key, key) then 0 else 1 + Seek(es[1..], key)
  }

  /** Inserts `e` before the first entry that is not smaller; the memtable's skip list as a list. */
  function Insert(es: seq<Entry>, e: Entry): (r: seq<Entry>)
    ensures |r| == |es| + 1
  {
    var i := Seek(es, e.key);
    es[..i] + [e] + es[i..]
  }

  lemma InsertKeepsSorted(es: seq<Entry>, e: Entry)
    requires Sorted(es)
    requires forall x | x in es :: x.key != e.key
    ensures Sorted(Insert(es, e))
    ensures Elems(Insert(es, e)) == Elems(es) + {e}
  {
    var i := Seek(es, e.key);
    var before, after := es[..i], es[i..];
    if i < |es| {
      assert es[i] in es;
      LessIsTotalOrder(es[i].key, e.key, e.key);
    }
    SortedConcat(before, [e]);
    SortedConcat(before + [e], after);
    InsertHasElems(es, i, e);
  }

  lemma SortedConcat(a: seq<Entry>, b: seq<Entry>)
    requires Sorted(a) && Sorted(b)
    requires a != [] && b != [] ==> Less(a[|a| - 1].key, b[0].key)
    ensures Sorted(a + b)
  {
    forall i, j | 0 <= i < j < |a + b|
      ensures Less((a + b)[i].key, (a + b)[j].key)
    {
      if i < |a| <= j {
        assert i == |a| - 1 || Less(a[i].key, a[|a| - 1].key);
        assert j == |a| || Less(b[0].key, b[j - |a|].key);
      }
    }
  }

  lemma InsertHasElems(es: seq<Entry>, i: nat, e: Entry)
    requires i <= |es|
    ensures Elems(es[..i] + [e] + es[i..]) == Elems(es) + {e}
  {
    var r := es[..i] + [e] + es[i..];
    assert r[i] == e;
    forall x | x in es
      ensures x in r
    {
      var j :| 0 <= j < |es| && es[j] == x;
      assert r[if j < i then j else j + 1] == x;
    }
  }
}

/**
  The one meaning every read path is compared with: among the entries for a user key whose
  sequence number does not exceed the snapshot, the newest one decides, and a deletion reads as absent.
*/
module Reads {
  import opened Base
  import opened DbFormat

  predicate Matches(e: Entry, k: UserKey, s: SequenceNumber) {
    e.key.user == k && e.key.sequence <= s
  }

  ghost predicate IsNewest(S: set<Entry>, k: UserKey, s: SequenceNumber, e: Entry) {
    && e in S && Matches(e, k, s)
    && forall x | x in S && Matches(x, k, s) :: x.key.sequence <= e.key.sequence
  }

  ghost function Newest(S: set<Entry>, k: UserKey, s: SequenceNumber): (r: Option<Entry>)
    ensures r.Some? ==> IsNewest(S, k, s, r.value)
  {
    if exists e :: IsNewest(S, k, s, e) then
      var e :| IsNewest(S, k, s, e);
      Some(e)
    else None
  }

  /** Sequence numbers identify entries: each is assigned once. */
  ghost predicate UniqueSeqs(S: set<Entry>) {
    forall a, b | a in S && b in S && a.key.sequence == b.key.sequence :: a == b
  }

  function Meaning(r: Option<Entry>): Option<Bytes> {
    match r
    case None => None
    case Some(e) => if e.key.kind.Value? then Some(e.value) else None
  }

  ghost function Read(S: set<Entry>, k: UserKey, s: SequenceNumber): Option<Bytes> {
    Meaning(Newest(S, k, s))
  }

  /** The specification in its plainest form: scan the write history from its newest entry down. */
  function Lookup(history: seq<Entry>, k: UserKey, s: SequenceNumber): Option<Bytes> {
    if history == [] then None
    else
      var last := history[|history| - 1];
      if Matches(last, k, s) then Meaning(Some(last))
      else Lookup(history[..|history| - 1], k, s)
  }

  /** The write history: sequence numbers strictly increase. */
  predicate IsHistory(h: seq<Entry>) {
    forall i, j | 0 <= i < j < |h| :: h[i].key.sequence < h[j].key.sequence
  }

  lemma {:induction false} NewestExists(S: set<Entry>, k: UserKey, s: SequenceNumber, x: Entry)
    requires x in S && Matches(x, k, s)
    ensures exists e :: IsNewest(S, k, s, e)
    decreases |S|
  {
    if y :| y in S && Matches(y, k, s) && y.key.sequence > x.key.sequence {
      var T := S - {x};
      NewestExists(T, k, s, y);
      var e :| IsNewest(T, k, s, e);
      assert IsNewest(S, k, s, e);
    } else {
      assert IsNewest(S, k, s, x);
    }
  }

  lemma NewestIs(S: set<Entry>, k: UserKey, s: SequenceNumber, e: Entry)
    requires UniqueSeqs(S) && IsNewest(S, k, s, e)
    ensures Newest(S, k, s) == Some(e)
  {
  }

  lemma NewestIsNone(S: set<Entry>, k: UserKey, s: SequenceNumber)
    ensures Newest(S, k, s) == None <==> forall e | e in S :: !Matches(e, k, s)
  {
    if e :| e in S && Matches(e, k, s) {
      NewestExists(S, k, s, e);
    }
  }

  /** A read of a union, when one part holds only newer entries for the key: that part decides if it has a match. */
  lemma NewestOfUnion(newer: set<Entry>, older: set<Entry>, k: UserKey, s: SequenceNumber)
    requires UniqueSeqs(newer + older)
    requires forall a, b | a in newer && b in older && a.key.user == b.key.user == k :: a.key.sequence > b.key.sequence
    ensures Newest(newer + older, k, s)
         == if Newest(newer, k, s).Some? then Newest(newer, k, s) else Newest(older, k, s)
  {
    NewestIsNone(newer, k, s);
    NewestIsNone(older, k, s);
    NewestIsNone(newer + older, k, s);
    match Newest(newer, k, s)
    case Some(e) =>
      assert IsNewest(newer + older, k, s, e);
    case None =>
      match Newest(older, k, s)
      case Some(e) => assert IsNewest(newer + older, k, s, e);
      case None =>
  }

  /** Removing entries that are not the newest, or the only newest when it is a deletion hiding nothing, keeps a read. */
  lemma NewestOfSubset(S: set<Entry>, T: set<Entry>, k: UserKey, s: SequenceNumber)
    requires T <= S && UniqueSeqs(S)
    requires Newest(S, k, s).Some? ==> Newest(S, k, s).value in T
    ensures Newest(T, k, s) == Newest(S, k, s)
  {
    NewestIsNone(S, k, s);
    NewestIsNone(T, k, s);
    if Newest(S, k, s).Some? {
      NewestIs(T, k, s, Newest(S, k, s).value);
    }
  }

  /** A seek for the lookup key in a sorted list lands on the newest visible entry, or proves there is none. */
  lemma SeekFindsNewest(es: seq<Entry>, k: UserKey, s: SequenceNumber)
    requires Sorted(es) && UniqueSeqs(Elems(es))
    ensures var i := Seek(es, LookupKey(k, s));
            Newest(Elems(es), k, s) == if i < |es| && es[i].key.user == k then Some(es[i]) else None
  {
    var i := Seek(es, LookupKey(k, s));
    forall j | 0 <= j < i
      ensures !Matches(es[j], k, s)
    {
      LookupKeySplits(es[j].key, k, s);
    }
    if i < |es| {
      LookupKeySplits(es[i].key, k, s);
    }
    if i < |es| && es[i].key.user == k {
      assert es[i] in Elems(es);
      assert IsNewest(Elems(es), k, s, es[i]);
    } else {
      NewestIsNone(Elems(es), k, s);
    }
  }

  lemma HistoryIsUnique(h: seq<Entry>)
    requires IsHistory(h)
    ensures UniqueSeqs(Elems(h))
  {
  }

  /** The plain scan and the set reading agree on every history. */
  lemma {:induction false} LookupIsRead(h: seq<Entry>, k: UserKey, s: SequenceNumber)
    requires IsHistory(h)
    ensures Lookup(h, k, s) == Read(Elems(h), k, s)
  {
    hide Newest;
    if h == [] {
      NewestIsNone(Elems(h), k, s);
    } else {
      var front, last := h[..|h| - 1], h[|h| - 1];
      LookupIsRead(front, k, s);
      AppendedIsNewest(front, last, k, s);
      assert h == front + [last];
    }
  }

  lemma AppendedIsNewest(front: seq<Entry>, last: Entry, k: UserKey, s: SequenceNumber)
    requires IsHistory(front + [last])
    ensures Newest(Elems(front + [last]), k, s)
         == if Matches(last, k, s) then Some(last) else Newest(Elems(front), k, s)
  {
    var h := front + [last];
    HistoryIsUnique(h);
    assert h[|front|] == last;
    assert forall i | 0 <= i < |front| :: h[i] == front[i];
    assert Elems(h) == {last} + Elems(front);
    NewestIsNone({last}, k, s);
    if Matches(last, k, s) {
      assert IsNewest({last}, k, s, last);
    }
    NewestOfUnion({last}, Elems(front), k, s);
  }
}
