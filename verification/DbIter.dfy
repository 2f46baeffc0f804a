/**
  The user-facing iterator: it walks the internal entries of the store in both directions and shows
  one entry per live user key (db/db_iter.cc).
*/
module DbIter {
  import opened Base
  import opened DbFormat
  import opened Reads
  import opened Cursors
  import opened Merging

  type Item = (UserKey, Bytes)

  // ---------------------------------------------------------------- the live list

  predicate IsVisible(list: seq<Entry>, s: SequenceNumber, p: nat)
    requires p < |list|
  {
    list[p].key.sequence <= s
  }

  /** Position `p` answers for its user key at sequence `s`: the first visible entry of that key, and not a deletion. */
  predicate IsLive(list: seq<Entry>, s: SequenceNumber, p: nat)
    requires p < |list|
  {
    && IsVisible(list, s, p) && list[p].key.kind.Value?
    && forall q | 0 <= q < p && list[q].key.user == list[p].key.user :: !IsVisible(list, s, q)
  }

  function ItemAt(list: seq<Entry>, p: nat): Item
    requires p < |list|
  {
    (list[p].key.user, list[p].value)
  }

  /** The items a reader at sequence `s` sees among the first `n` entries. */
  function Live(list: seq<Entry>, s: SequenceNumber, n: nat): seq<Item>
    requires n <= |list|
  {
    if n == 0 then [] else Live(list, s, n - 1) + if IsLive(list, s, n - 1) then [ItemAt(list, n - 1)] else []
  }

  function Rank(list: seq<Entry>, s: SequenceNumber, n: nat): nat
    requires n <= |list|
  {
    |Live(list, s, n)|
  }

  lemma {:induction false} LivePrefix(list: seq<Entry>, s: SequenceNumber, n: nat, m: nat)
    requires n <= m <= |list|
    ensures Live(list, s, n) <= Live(list, s, m)
    decreases m
  {
    if n < m {
      LivePrefix(list, s, n, m - 1);
    }
  }

  /** A live position's rank is its index in the live list. */
  lemma LiveIndex(list: seq<Entry>, s: SequenceNumber, p: nat)
    requires p < |list| && IsLive(list, s, p)
    ensures Rank(list, s, p + 1) == Rank(list, s, p) + 1
    ensures Rank(list, s, p) < Rank(list, s, |list|)
    ensures Live(list, s, |list|)[Rank(list, s, p)] == ItemAt(list, p)
  {
    LivePrefix(list, s, p + 1, |list|);
  }

  lemma {:induction false} NoLiveBetween(list: seq<Entry>, s: SequenceNumber, p: nat, q: nat)
    requires p <= q <= |list| && forall r | p <= r < q :: !IsLive(list, s, r)
    ensures Rank(list, s, q) == Rank(list, s, p)
    decreases q
  {
    if p < q {
      NoLiveBetween(list, s, p, q - 1);
    }
  }

  lemma OneLiveBetween(list: seq<Entry>, s: SequenceNumber, p: nat, q: nat, r: nat)
    requires p <= q < r <= |list| && IsLive(list, s, q)
    requires forall i | p <= i < r && i != q :: !IsLive(list, s, i)
    ensures Rank(list, s, q) == Rank(list, s, p) && Rank(list, s, r) == Rank(list, s, p) + 1
  {
    NoLiveBetween(list, s, p, q);
    LiveIndex(list, s, q);
    NoLiveBetween(list, s, q + 1, r);
  }

  /** First index of the live list whose key is at or after the target. */
  function SeekItem(items: seq<Item>, target: UserKey): (i: nat)
    ensures i <= |items|
    ensures forall j | 0 <= j < i :: items[j].0 < target
    ensures i < |items| ==> items[i].0 >= target
  {
    if items == [] || items[0].0 >= target then 0 else 1 + SeekItem(items[1..], target)
  }

  lemma {:induction false} LiveItems(list: seq<Entry>, s: SequenceNumber, n: nat, i: nat) returns (p: nat)
    requires n <= |list| && i < Rank(list, s, n)
    ensures p < n && IsLive(list, s, p) && Rank(list, s, p) == i && Live(list, s, n)[i] == ItemAt(list, p)
    decreases n
  {
    if i < Rank(list, s, n - 1) {
      p := LiveItems(list, s, n - 1, i);
    } else {
      p := n - 1;
    }
  }

  /** The live list ascends strictly: one item per user key. */
  lemma LiveAscends(list: seq<Entry>, s: SequenceNumber, i: nat, j: nat)
    requires Sorted(list) && i < j < Rank(list, s, |list|)
    ensures Live(list, s, |list|)[i].0 < Live(list, s, |list|)[j].0
  {
    var p := LiveItems(list, s, |list|, i);
    var q := LiveItems(list, s, |list|, j);
    if q <= p {
      LivePrefix(list, s, q, p);
    }
    assert Less(list[p].key, list[q].key);
  }

  /** The live list holds exactly the keys a read at `s` finds, with the values it finds. */
  lemma LiveIsRead(list: seq<Entry>, s: SequenceNumber, k: UserKey, value: Bytes)
    requires Sorted(list) && UniqueSeqs(Elems(list))
    ensures (k, value) in Live(list, s, |list|) <==> Read(Elems(list), k, s) == Some(value)
  {
    var live := Live(list, s, |list|);
    NewestIsNone(Elems(list), k, s);
    if (k, value) in live {
      var i :| 0 <= i < |live| && live[i] == (k, value);
      var p := LiveItems(list, s, |list|, i);
      FirstVisibleIsNewest(list, s, p);
    }
    if Read(Elems(list), k, s) == Some(value) {
      var e := Newest(Elems(list), k, s).value;
      var p :| 0 <= p < |list| && list[p] == e;
      forall q | 0 <= q < p && list[q].key.user == k
        ensures !IsVisible(list, s, q)
      {
        assert Less(list[q].key, list[p].key) && list[q] in Elems(list);
      }
      LiveIndex(list, s, p);
    }
  }

  lemma FirstVisibleIsNewest(list: seq<Entry>, s: SequenceNumber, p: nat)
    requires Sorted(list) && UniqueSeqs(Elems(list)) && p < |list| && IsLive(list, s, p)
    ensures Newest(Elems(list), list[p].key.user, s) == Some(list[p])
  {
    forall x | x in Elems(list) && Matches(x, list[p].key.user, s)
      ensures x.key.sequence <= list[p].key.sequence
    {
      var i :| 0 <= i < |list| && list[i] == x;
      assert i >= p;
      assert i > p ==> Less(list[p].key, list[i].key);
    }
    assert list[p] in Elems(list);
    assert IsNewest(Elems(list), list[p].key.user, s, list[p]);
  }

  // ---------------------------------------------------------------- the iterator

  class DBIter {
    const list: seq<Entry>
    const sequence: SequenceNumber
    var pos: nat
    var savedKey: Option<UserKey>
    var savedValue: Bytes
    var direction: Direction
    var valid: bool
    ghost var at: nat
    ghost var home: nat

    ghost predicate Inv()
      reads this
    {
      && Sorted(list) && pos <= |list|
      && (if !valid then at == Rank(list, sequence, |list|)
          else if direction == Forward then
            pos < |list| && IsLive(list, sequence, pos) && at == Rank(list, sequence, pos)
          else
            && home < |list| && IsLive(list, sequence, home) && at == Rank(list, sequence, home)
            && savedKey == Some(list[home].key.user) && savedValue == list[home].value
            && JustBefore(list, sequence, pos, home))
    }

    /** What the iterator looks like from outside: a cursor on the live list. */
    ghost function View(): Cursor<Item>
      reads this
    {
      Cursor(Live(list, sequence, |list|), at)
    }

    constructor (list: seq<Entry>, sequence: SequenceNumber)
      requires Sorted(list)
      ensures Inv() && this.list == list && this.sequence == sequence && !View().Valid()
    {
      this.list, this.sequence := list, sequence;
      pos, savedKey, savedValue, direction, valid := |list|, None, [], Forward, false;
      at, home := Rank(list, sequence, |list|), 0;
    }

    method Valid() returns (b: bool)
      requires Inv()
      ensures b == View().Valid()
    {
      b := valid;
      if valid {
        LiveIndex(list, sequence, if direction == Forward then pos else home);
      }
    }

    method KeyAndValue() returns (key: UserKey, value: Bytes)
      requires Inv() && View().Valid()
      ensures (key, value) == View().Current()
    {
      LiveIndex(list, sequence, if direction == Forward then pos else home);
      if direction == Forward {
        key, value := list[pos].key.user, list[pos].value;
      } else {
        key, value := savedKey.value, savedValue;
      }
    }

    /** Walks forward to the first live entry that is not hidden by `skip`. */
    method FindNextUserEntry(skipping: bool, skip: Option<UserKey>)
      requires Sorted(list) && pos < |list| && direction == Forward
      requires skipping ==> skip.Some?
      requires BeforeIsSkipped(list, sequence, pos, skipping, skip)
      requires skipping ==> VisibleFrom(list, sequence, pos, skip.value)
      modifies this`pos, this`savedKey, this`valid
      ensures old(pos) <= pos <= |list| && valid == (pos < |list|)
      ensures forall r | old(pos) <= r < pos :: !IsCandidate(list, sequence, r, skipping, skip)
      ensures valid ==> IsLive(list, sequence, pos) && IsCandidate(list, sequence, pos, skipping, skip)
    {
      hide IsLive, IsCandidate, Sorted, Walking, BeforeIsSkipped, VisibleFrom;
      var sk, key := skipping, skip;
      ghost var start := pos;
      WalkStarts(list, sequence, pos, skipping, skip);
      while pos < |list|
        invariant Walking(list, sequence, start, pos, sk, key, skipping, skip) && start <= pos <= |list|
        decreases |list| - pos
      {
        WalkSays(list, sequence, start, pos, sk, key, skipping, skip);
        var e := list[pos];
        if e.key.sequence <= sequence {
          match e.key.kind
          case Deletion =>
            WalkDeletion(list, sequence, start, pos, sk, key, skipping, skip);
            key, sk := Some(e.key.user), true;
          case Value =>
            if sk && e.key.user <= key.value {
              WalkHidden(list, sequence, start, pos, sk, key, skipping, skip);
            } else {
              WalkFound(list, sequence, start, pos, sk, key, skipping, skip);
              valid, savedKey := true, None;
              return;
            }
        } else {
          WalkInvisible(list, sequence, start, pos, sk, key, skipping, skip);
        }
        pos := pos + 1;
      }
      WalkSays(list, sequence, start, pos, sk, key, skipping, skip);
      savedKey, valid := None, false;
    }

    method Next()
      requires Inv() && View().Valid()
      modifies this
      ensures Inv() && View() == old(View()).Next()
    {
      LiveIndex(list, sequence, if direction == Forward then pos else home);
      ghost var from := if direction == Forward then pos else home;
      if direction == Reverse {
        direction := Forward;
        if pos == |list| {
          pos := 0;
        } else {
          pos := pos + 1;
        }
      } else {
        savedKey := Some(list[pos].key.user);
      }
      ghost var start := pos;
      EntriesBeforeAreSkipped(list, sequence, start, from);
      FindNextUserEntry(true, savedKey);
      NextLive(list, sequence, start, from, pos);
      at := at + 1;
    }

    /** Walks backwards to the largest live entry below `bound`, remembering the newest visible one of the key in hand. */
    method FindPrevUserEntry(ghost bound: nat)
      requires Sorted(list) && direction == Reverse && bound <= |list|
      requires pos == (if bound == 0 then |list| else bound - 1)
      modifies this
      ensures Inv()
      ensures at == (if Rank(list, sequence, bound) == 0 then Rank(list, sequence, |list|) else Rank(list, sequence, bound) - 1)
    {
      var valueType := Deletion;
      ghost var low := bound;
      while pos < |list|
        invariant direction == Reverse && low <= bound && pos == (if low == 0 then |list| else low - 1)
        invariant valueType == Deletion ==> forall r | low <= r < bound :: !IsLive(list, sequence, r)
        invariant valueType == Value ==> Holding(list, sequence, low, home, bound)
                                         && savedKey == Some(list[home].key.user) && savedValue == list[home].value
        decreases low
      {
        var e := list[pos];
        if e.key.sequence <= sequence {
          if valueType != Deletion && e.key.user < savedKey.value {
            break;
          }
          NewHolder(list, sequence, low, home, bound, valueType);
          valueType := e.key.kind;
          if valueType == Deletion {
            savedKey, savedValue := None, [];
          } else {
            savedKey, savedValue := Some(e.key.user), e.value;
            home := pos;
          }
        }
        low := low - 1;
        pos := if pos == 0 then |list| else pos - 1;
      }
      if valueType == Deletion {
        valid, savedKey, savedValue, direction := false, None, [], Forward;
        at := Rank(list, sequence, |list|);
        NoLiveBetween(list, sequence, 0, bound);
      } else {
        valid := true;
        HolderIsLive(list, sequence, low, home, bound);
        OneLiveBetween(list, sequence, home, home, bound);
        at := Rank(list, sequence, home);
      }
    }

    method Prev()
      requires Inv() && View().Valid()
      modifies this
      ensures Inv() && View() == old(View()).Prev()
    {
      LiveIndex(list, sequence, if direction == Forward then pos else home);
      ghost var bound: nat;
      if direction == Forward {
        savedKey := Some(list[pos].key.user);
        ghost var from := pos;
        bound := pos;
        while true
          invariant bound <= from < |list| && pos == bound && savedKey == Some(list[from].key.user)
          invariant forall r | bound <= r < from :: list[r].key.user == list[from].key.user
          decreases bound
        {
          if pos == 0 {
            pos := |list|;
            valid, savedKey, savedValue := false, None, [];
            SameKeyNotLive(list, sequence, 0, from);
            at := Rank(list, sequence, |list|);
            return;
          }
          pos := pos - 1;
          if list[pos].key.user < savedKey.value {
            break;
          }
          assert pos < from && Less(list[pos].key, list[from].key);
          bound := bound - 1;
        }
        SameKeyNotLive(list, sequence, bound, from);
        direction := Reverse;
      } else {
        bound := if pos == |list| then 0 else pos + 1;
        NoLiveBetween(list, sequence, bound, home);
      }
      FindPrevUserEntry(bound);
    }

    method Seek(target: UserKey)
      requires Inv()
      modifies this
      ensures Inv() && View() == old(View()).(pos := SeekItem(Live(list, sequence, |list|), target))
    {
      direction, savedValue := Forward, [];
      savedKey := None;
      pos := DbFormat.Seek(list, LookupKey(target, sequence));
      SeekSplitsLive(list, sequence, target);
      Settle();
    }

    method SeekToFirst()
      requires Inv()
      modifies this
      ensures Inv() && View() == old(View()).First()
    {
      direction, savedValue := Forward, [];
      pos := 0;
      Settle();
    }

    /** From a fresh inner position, shows the first live entry at or after it. */
    method Settle()
      requires Sorted(list) && pos <= |list| && direction == Forward
      requires BeforeIsSkipped(list, sequence, pos, false, savedKey)
      modifies this`pos, this`savedKey, this`valid, this`at
      ensures Inv() && at == old(Rank(list, sequence, pos))
    {
      ghost var start, key := pos, savedKey;
      if pos < |list| {
        FindNextUserEntry(false, savedKey);
      } else {
        valid := false;
      }
      forall r | start <= r < pos
        ensures !IsLive(list, sequence, r)
      {
        assert !IsCandidate(list, sequence, r, false, key);
      }
      NoLiveBetween(list, sequence, start, pos);
      at := Rank(list, sequence, pos);
    }

    method SeekToLast()
      requires Inv()
      modifies this
      ensures Inv() && View() == old(View()).Last()
    {
      direction, savedValue := Reverse, [];
      pos := if |list| == 0 then 0 else |list| - 1;
      FindPrevUserEntry(|list|);
    }
  }

  // ---------------------------------------------------------------- forward

  /** Reverse position: nothing visible between the inner position and the live entry at `home`. */
  ghost predicate JustBefore(list: seq<Entry>, s: SequenceNumber, pos: nat, home: nat)
    requires home < |list|
  {
    && pos <= |list|
    && (pos < |list| ==> pos < home && list[pos].key.user < list[home].key.user)
    && (forall r | (if pos == |list| then 0 else pos + 1) <= r < home :: !IsVisible(list, s, r))
  }

  predicate IsCandidate(list: seq<Entry>, s: SequenceNumber, r: nat, skipping: bool, skip: Option<UserKey>)
    requires r < |list| && (skipping ==> skip.Some?)
  {
    IsLive(list, s, r) && !(skipping && list[r].key.user <= skip.value)
  }

  /** Keys already answered for before position `p` are exactly those being skipped. */
  ghost predicate BeforeIsSkipped(list: seq<Entry>, s: SequenceNumber, p: nat, skipping: bool, skip: Option<UserKey>)
    requires p <= |list| && (skipping ==> skip.Some?)
  {
    forall r, t | 0 <= r < p <= t < |list| && IsVisible(list, s, r) && list[r].key.user == list[t].key.user ::
      skipping && list[t].key.user <= skip.value
  }

  /** Whatever is visible from position `p` on has a key at or after `k`. */
  ghost predicate VisibleFrom(list: seq<Entry>, s: SequenceNumber, p: nat, k: UserKey)
    requires p <= |list|
  {
    forall t | p <= t < |list| && IsVisible(list, s, t) :: list[t].key.user >= k
  }

  ghost predicate SeenKey(list: seq<Entry>, s: SequenceNumber, start: nat, p: nat, key: Option<UserKey>)
    requires p <= |list|
  {
    exists r :: start <= r < p && IsVisible(list, s, r) && key == Some(list[r].key.user)
  }

  /** Loop state of the forward walk that started at `start` with (skipping, skip) and now skips (sk, key). */
  ghost predicate Walking(list: seq<Entry>, s: SequenceNumber, start: nat, p: nat, sk: bool, key: Option<UserKey>,
                          skipping: bool, skip: Option<UserKey>) {
    && start <= p <= |list|
    && (sk ==> key.Some?) && (skipping ==> sk && skip.Some?)
    && (skipping ==> VisibleFrom(list, s, start, skip.value))
    && BeforeIsSkipped(list, s, p, sk, key)
    && (sk ==> VisibleFrom(list, s, p, key.value))
    && (sk ==> (skipping && key == skip) || SeenKey(list, s, start, p, key))
    && forall r | start <= r < p :: !IsCandidate(list, s, r, skipping, skip)
  }

  lemma WalkStarts(list: seq<Entry>, s: SequenceNumber, p: nat, skipping: bool, skip: Option<UserKey>)
    requires p <= |list| && (skipping ==> skip.Some?) && BeforeIsSkipped(list, s, p, skipping, skip)
    requires skipping ==> VisibleFrom(list, s, p, skip.value)
    ensures Walking(list, s, p, p, skipping, skip, skipping, skip)
  {
  }

  lemma WalkSays(list: seq<Entry>, s: SequenceNumber, start: nat, p: nat, sk: bool, key: Option<UserKey>,
                 skipping: bool, skip: Option<UserKey>)
    requires Walking(list, s, start, p, sk, key, skipping, skip)
    ensures (sk ==> key.Some?) && forall r | start <= r < p :: !IsCandidate(list, s, r, skipping, skip)
  {
  }

  lemma WalkInvisible(list: seq<Entry>, s: SequenceNumber, start: nat, p: nat, sk: bool, key: Option<UserKey>,
                      skipping: bool, skip: Option<UserKey>)
    requires Walking(list, s, start, p, sk, key, skipping, skip) && p < |list| && !IsVisible(list, s, p)
    ensures Walking(list, s, start, p + 1, sk, key, skipping, skip)
  {
  }

  lemma WalkDeletion(list: seq<Entry>, s: SequenceNumber, start: nat, p: nat, sk: bool, key: Option<UserKey>,
                     skipping: bool, skip: Option<UserKey>)
    requires Walking(list, s, start, p, sk, key, skipping, skip) && p < |list| && IsVisible(list, s, p)
    requires Sorted(list) && list[p].key.kind.Deletion?
    ensures Walking(list, s, start, p + 1, true, Some(list[p].key.user), skipping, skip)
  {
    forall t | p + 1 <= t < |list|
      ensures list[t].key.user >= list[p].key.user
    {
      assert Less(list[p].key, list[t].key);
    }
    forall r, t | 0 <= r < p + 1 <= t < |list| && IsVisible(list, s, r) && list[r].key.user == list[t].key.user
      ensures list[t].key.user <= list[p].key.user
    {
      if r < p {
        assert Less(list[r].key, list[p].key);
      }
    }
  }

  lemma WalkHidden(list: seq<Entry>, s: SequenceNumber, start: nat, p: nat, sk: bool, key: Option<UserKey>,
                   skipping: bool, skip: Option<UserKey>)
    requires Walking(list, s, start, p, sk, key, skipping, skip) && p < |list| && IsVisible(list, s, p)
    requires Sorted(list) && sk && list[p].key.user <= key.value
    ensures Walking(list, s, start, p + 1, sk, key, skipping, skip)
  {
    if SeenKey(list, s, start, p, key) {
      var r :| start <= r < p && IsVisible(list, s, r) && key == Some(list[r].key.user);
      assert Less(list[r].key, list[p].key);
    }
  }

  lemma WalkFound(list: seq<Entry>, s: SequenceNumber, start: nat, p: nat, sk: bool, key: Option<UserKey>,
                  skipping: bool, skip: Option<UserKey>)
    requires Walking(list, s, start, p, sk, key, skipping, skip) && p < |list| && IsVisible(list, s, p)
    requires list[p].key.kind.Value? && !(sk && list[p].key.user <= key.value)
    ensures IsLive(list, s, p) && IsCandidate(list, s, p, skipping, skip)
  {
    if SeenKey(list, s, start, p, key) {
      var r :| start <= r < p && IsVisible(list, s, r) && key == Some(list[r].key.user);
    }
  }

  lemma EntriesBeforeAreSkipped(list: seq<Entry>, s: SequenceNumber, start: nat, from: nat)
    requires Sorted(list) && start <= from < |list|
    requires forall r | start <= r < from :: !IsVisible(list, s, r)
    ensures BeforeIsSkipped(list, s, start, true, Some(list[from].key.user))
    ensures VisibleFrom(list, s, start, list[from].key.user)
  {
    forall t | start <= t < |list| && IsVisible(list, s, t)
      ensures list[t].key.user >= list[from].key.user
    {
      if t > from {
        assert Less(list[from].key, list[t].key);
      }
    }
    forall r, t | 0 <= r < start <= t < |list| && list[r].key.user == list[t].key.user
      ensures list[t].key.user <= list[from].key.user
    {
      assert r < from && Less(list[r].key, list[from].key);
    }
  }

  /** From the live entry at `from`, the next live entry is the first one with a larger key. */
  lemma NextLive(list: seq<Entry>, s: SequenceNumber, start: nat, from: nat, pos: nat)
    requires Sorted(list) && start <= from < |list| && IsLive(list, s, from)
    requires start <= pos <= |list| && forall r | start <= r < from :: !IsLive(list, s, r)
    requires forall r | start <= r < pos :: !IsCandidate(list, s, r, true, Some(list[from].key.user))
    requires pos < |list| ==> IsCandidate(list, s, pos, true, Some(list[from].key.user))
    ensures Rank(list, s, pos) == Rank(list, s, from) + 1
  {
    assert pos > from;
    forall r | start <= r < pos && r != from
      ensures !IsLive(list, s, r)
    {
      assert !IsCandidate(list, s, r, true, Some(list[from].key.user));
      if r > from {
        assert Less(list[from].key, list[r].key);
      }
    }
    OneLiveBetween(list, s, start, from, pos);
  }

  // ---------------------------------------------------------------- backward

  /** The entry at `home` is the newest visible one seen for its key while walking down to `low`. */
  ghost predicate Holding(list: seq<Entry>, s: SequenceNumber, low: nat, home: nat, bound: nat) {
    && low <= home < bound <= |list|
    && IsVisible(list, s, home) && list[home].key.kind.Value?
    && (forall r | low <= r < home :: !IsVisible(list, s, r))
    && (forall r | home < r < bound :: !IsLive(list, s, r))
  }

  /** Meeting a visible entry that does not end the walk: nothing above it can be live any more. */
  lemma NewHolder(list: seq<Entry>, s: SequenceNumber, low: nat, home: nat, bound: nat, valueType: Kind)
    requires Sorted(list) && 0 < low <= bound <= |list| && IsVisible(list, s, low - 1)
    requires valueType == Deletion ==> forall r | low <= r < bound :: !IsLive(list, s, r)
    requires valueType == Value ==> Holding(list, s, low, home, bound) && list[low - 1].key.user >= list[home].key.user
    ensures forall r | low <= r < bound :: !IsLive(list, s, r)
  {
    if valueType == Value {
      assert Less(list[low - 1].key, list[home].key);
    }
  }

  lemma HolderIsLive(list: seq<Entry>, s: SequenceNumber, low: nat, home: nat, bound: nat)
    requires Sorted(list) && Holding(list, s, low, home, bound)
    requires low > 0 ==> list[low - 1].key.user < list[home].key.user
    ensures IsLive(list, s, home)
  {
    forall q | 0 <= q < home && list[q].key.user == list[home].key.user
      ensures !IsVisible(list, s, q)
    {
    }
  }

  lemma SameKeyNotLive(list: seq<Entry>, s: SequenceNumber, bound: nat, from: nat)
    requires bound <= from < |list| && IsLive(list, s, from)
    requires forall r | bound <= r < from :: list[r].key.user == list[from].key.user
    ensures Rank(list, s, bound) == Rank(list, s, from)
  {
    NoLiveBetween(list, s, bound, from);
  }

  // ---------------------------------------------------------------- seek

  lemma SeekSplitsLive(list: seq<Entry>, s: SequenceNumber, target: UserKey)
    requires Sorted(list)
    ensures var p := Seek(list, LookupKey(target, s));
            && BeforeIsSkipped(list, s, p, false, None)
            && Rank(list, s, p) == SeekItem(Live(list, s, |list|), target)
  {
    var p := Seek(list, LookupKey(target, s));
    forall r | 0 <= r < |list|
      ensures r < p <==> list[r].key.user < target || (list[r].key.user == target && !IsVisible(list, s, r))
    {
      SeekBoundary(list, s, target, r);
    }
    RankOfSplit(list, s, target, p);
  }

  lemma SeekBoundary(list: seq<Entry>, s: SequenceNumber, target: UserKey, r: nat)
    requires Sorted(list) && r < |list|
    ensures r < Seek(list, LookupKey(target, s))
       <==> list[r].key.user < target || (list[r].key.user == target && !IsVisible(list, s, r))
  {
    var p := Seek(list, LookupKey(target, s));
    LookupKeySplits(list[r].key, target, s);
    if p < r {
      LessIsTotalOrder(list[p].key, list[r].key, LookupKey(target, s));
    }
  }

  lemma RankOfSplit(list: seq<Entry>, s: SequenceNumber, target: UserKey, p: nat)
    requires p <= |list|
    requires forall r | 0 <= r < p && IsVisible(list, s, r) :: list[r].key.user < target
    requires forall r | p <= r < |list| :: list[r].key.user >= target
    ensures Rank(list, s, p) == SeekItem(Live(list, s, |list|), target)
  {
    var live := Live(list, s, |list|);
    var i := SeekItem(live, target);
    LivePrefix(list, s, p, |list|);
    if i < Rank(list, s, p) {
      var q := LiveItems(list, s, p, i);
    } else if Rank(list, s, p) < i {
      var q := LiveItems(list, s, |list|, Rank(list, s, p));
      if q < p {
        LiveIndex(list, s, q);
        LivePrefix(list, s, q + 1, p);
      }
    }
  }
}
