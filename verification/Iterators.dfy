/**
  The simple cursor every iterator of the store is compared with: a list and a position, where the
  position one past the end stands for "not valid" on either side.
*/
module Cursors {
  datatype Cursor<T> = Cursor(list: seq<T>, pos: nat) {
    predicate Ok() { pos <= |list| }

    predicate Valid() { pos < |list| }

    function Current(): T
      requires Valid()
    {
      list[pos]
    }

    function Next(): Cursor<T>
      requires Valid()
    {
      this.(pos := pos + 1)
    }

    function Prev(): Cursor<T>
      requires Valid()
    {
      this.(pos := if pos == 0 then |list| else pos - 1)
    }

    function First(): Cursor<T> { this.(pos := 0) }

    function Last(): Cursor<T> { this.(pos := if |list| == 0 then 0 else |list| - 1) }
  }
}

/** Merging sorted lists of entries, and the iterator that does it lazily in both directions (table/merger.cc). */
module Merging {
  import opened Base
  import opened DbFormat
  import opened Reads
  import opened Cursors

  type Child = Cursor<Entry>

  function SeekTo(c: Child, target: InternalKey): Child {
    c.(pos := Seek(c.list, target))
  }

  // ---------------------------------------------------------------- the merged list

  function Merge(a: seq<Entry>, b: seq<Entry>): (r: seq<Entry>)
    ensures forall e :: e in r <==> e in a || e in b
  {
    if a == [] then b
    else if b == [] then a
    else if Less(b[0].key, a[0].key) then
      assert b == [b[0]] + b[1..];
      [b[0]] + Merge(a, b[1..])
    else
      assert a == [a[0]] + a[1..];
      [a[0]] + Merge(a[1..], b)
  }

  lemma {:induction false} MergeIsSorted(a: seq<Entry>, b: seq<Entry>)
    requires Sorted(a) && Sorted(b)
    requires forall x, y | x in a && y in b :: x.key != y.key
    ensures Sorted(Merge(a, b))
  {
    if a != [] && b != [] {
      assert a[0] in a && b[0] in b;
      if Less(b[0].key, a[0].key) {
        MergeIsSorted(a, b[1..]);
        HeadBelow(b, a);
        HeadThenRest(b[0], Merge(a, b[1..]));
      } else {
        MergeIsSorted(a[1..], b);
        HeadBelow(a, b);
        HeadThenRest(a[0], Merge(a[1..], b));
      }
    }
  }

  lemma HeadThenRest(first: Entry, rest: seq<Entry>)
    requires Sorted(rest) && forall e | e in rest :: Less(first.key, e.key)
    ensures Sorted([first] + rest)
  {
    if rest != [] {
      assert rest[0] in rest;
    }
    SortedConcat([first], rest);
  }

  lemma HeadBelow(a: seq<Entry>, b: seq<Entry>)
    requires Sorted(a) && Sorted(b) && a != [] && b != [] && Less(a[0].key, b[0].key)
    ensures forall e | e in a[1..] || e in b :: Less(a[0].key, e.key)
  {
    forall e | e in b
      ensures Less(a[0].key, e.key)
    {
      var i :| 0 <= i < |b| && b[i] == e;
      LessIsTotalOrder(a[0].key, b[0].key, e.key);
    }
  }

  function MergeAll(lists: seq<seq<Entry>>): seq<Entry> {
    if lists == [] then [] else Merge(MergeAll(lists[..|lists| - 1]), lists[|lists| - 1])
  }

  /** Sorted lists that share no key. */
  ghost predicate Mergeable(lists: seq<seq<Entry>>) {
    && (forall i | 0 <= i < |lists| :: Sorted(lists[i]))
    && (forall i, j | 0 <= i < j < |lists| :: NoSharedKey(lists[i], lists[j]))
  }

  predicate NoSharedKey(a: seq<Entry>, b: seq<Entry>) {
    forall x, y | x in a && y in b :: x.key != y.key
  }

  lemma {:induction false} MergeAllIsSorted(lists: seq<seq<Entry>>)
    requires Mergeable(lists)
    ensures Sorted(MergeAll(lists))
    ensures forall e :: e in MergeAll(lists) <==> exists i :: 0 <= i < |lists| && e in lists[i]
  {
    if lists != [] {
      hide Sorted;
      var n := |lists| - 1;
      MergeAllIsSorted(lists[..n]);
      forall x, y | x in MergeAll(lists[..n]) && y in lists[n]
        ensures x.key != y.key
      {
        var i :| 0 <= i < n && x in lists[..n][i];
        assert NoSharedKey(lists[i], lists[n]);
      }
      MergeIsSorted(MergeAll(lists[..n]), lists[n]);
      forall e
        ensures e in MergeAll(lists) <==> exists i :: 0 <= i < |lists| && e in lists[i]
      {
        if e in MergeAll(lists[..n]) {
          var i :| 0 <= i < n && e in lists[..n][i];
          assert e in lists[i];
        }
        if i :| 0 <= i < |lists| && e in lists[i] {
          assert i < n ==> lists[..n][i] == lists[i];
        }
      }
    }
  }

  // ---------------------------------------------------------------- positions

  /** How many entries of `list` come before position `n` of the merged list. */
  ghost function Cut(list: seq<Entry>, all: seq<Entry>, n: nat): nat {
    if n < |all| then Seek(list, all[n].key) else |list|
  }

  /** The position of the entry just before `cut`, or not valid. */
  function Back(list: seq<Entry>, cut: nat): nat {
    if cut == 0 then |list| else cut - 1
  }

  lemma SeekIsUnique(list: seq<Entry>, key: InternalKey, p: nat)
    requires p <= |list|
    requires forall j | 0 <= j < p :: Less(list[j].key, key)
    requires p < |list| ==> !Less(list[p].key, key)
    ensures Seek(list, key) == p
  {
  }

  /** Nothing of the merged list lies strictly between its entries `n` and `n + 1`. */
  lemma NothingBetween(all: seq<Entry>, e: Entry, n: nat)
    requires Sorted(all) && n < |all| && e in all
    ensures e == all[n] || Less(e.key, all[n].key) || Less(all[n].key, e.key)
    ensures (e == all[n] || Less(e.key, all[n].key)) <==> n + 1 == |all| || Less(e.key, all[n + 1].key)
  {
    var m :| 0 <= m < |all| && all[m] == e;
    if m > n + 1 {
      assert Less(all[n + 1].key, all[m].key) && Less(all[n].key, all[m].key);
    } else if m < n {
      assert Less(all[m].key, all[n].key);
      assert n + 1 < |all| ==> Less(all[m].key, all[n + 1].key);
    }
  }

  /** Moving one past `n` in the merged list moves the cut only in the list that owns entry `n`. */
  lemma CutMoves(list: seq<Entry>, all: seq<Entry>, n: nat)
    requires Sorted(list) && Sorted(all) && n < |all| && forall e | e in list :: e in all
    ensures Cut(list, all, n + 1) == Cut(list, all, n) + (if all[n] in list then 1 else 0)
    ensures all[n] in list ==> Cut(list, all, n) < |list| && list[Cut(list, all, n)] == all[n]
  {
    var p := Cut(list, all, n);
    if all[n] in list {
      var j :| 0 <= j < |list| && list[j] == all[n];
      SeekIsUnique(list, all[n].key, j);
    }
    var q := p + if all[n] in list then 1 else 0;
    if p < |list| {
      NothingBetween(all, list[p], n);
    }
    forall j | 0 <= j < q
      ensures n + 1 == |all| || Less(list[j].key, all[n + 1].key)
    {
      NothingBetween(all, list[j], n);
    }
    if q < |list| {
      NothingBetween(all, list[q], n);
      assert q == p + 1 ==> Less(list[p].key, list[q].key);
    }
    if n + 1 < |all| {
      SeekIsUnique(list, all[n + 1].key, q);
    }
  }

  datatype Direction = Forward | Reverse

  // ---------------------------------------------------------------- children

  ghost function ListsOf(cs: seq<Child>): seq<seq<Entry>> {
    seq(|cs|, i requires 0 <= i < |cs| => cs[i].list)
  }

  ghost predicate ChildrenOk(cs: seq<Child>, all: seq<Entry>) {
    && Mergeable(ListsOf(cs))
    && (forall i | 0 <= i < |cs| :: cs[i].Ok())
    && all == MergeAll(ListsOf(cs))
  }

  /** Every child stands at its first entry at or after merged position `n`. */
  ghost predicate SplitForward(cs: seq<Child>, all: seq<Entry>, n: nat) {
    forall i | 0 <= i < |cs| :: cs[i].pos == Cut(cs[i].list, all, n)
  }

  /** Every child stands at its last entry before merged position `n`. */
  ghost predicate SplitBackward(cs: seq<Child>, all: seq<Entry>, n: nat) {
    forall i | 0 <= i < |cs| :: cs[i].pos == Back(cs[i].list, Cut(cs[i].list, all, n))
  }

  lemma ChildFacts(cs: seq<Child>, all: seq<Entry>)
    requires ChildrenOk(cs, all)
    ensures Sorted(all)
    ensures forall i | 0 <= i < |cs| :: Sorted(cs[i].list) && forall e | e in cs[i].list :: e in all
    ensures forall e | e in all :: exists i :: 0 <= i < |cs| && e in cs[i].list
    ensures forall i, j | 0 <= i < j < |cs| :: NoSharedKey(cs[i].list, cs[j].list)
  {
    var lists := ListsOf(cs);
    MergeAllIsSorted(lists);
    assert forall i | 0 <= i < |cs| :: lists[i] == cs[i].list;
  }

  /** Only the child standing at a merged entry holds it. */
  lemma OwnerOnly(cs: seq<Child>, all: seq<Entry>, at: nat, cur: nat, i: nat)
    requires ChildrenOk(cs, all) && cur < |cs| && i < |cs| && at < |all|
    requires cs[cur].Valid() && cs[cur].Current() == all[at]
    ensures all[at] in cs[i].list <==> i == cur
    ensures i != cur ==> forall e | e in cs[i].list :: e.key != all[at].key
    ensures Sorted(all) && Sorted(cs[i].list) && forall e | e in cs[i].list :: e in all
    ensures i == cur ==> cs[i].pos == Cut(cs[i].list, all, at)
  {
    ChildFacts(cs, all);
    assert cs[cur].Current() in cs[cur].list;
    if i < cur {
      assert NoSharedKey(cs[i].list, cs[cur].list);
    } else if cur < i {
      assert NoSharedKey(cs[cur].list, cs[i].list);
    } else {
      SeekIsUnique(cs[i].list, all[at].key, cs[i].pos);
    }
  }

  ghost predicate IsSmallest(cs: seq<Child>, c: Option<nat>) {
    match c
    case None => forall i | 0 <= i < |cs| :: !cs[i].Valid()
    case Some(k) =>
      && k < |cs| && cs[k].Valid()
      && forall i | 0 <= i < |cs| && cs[i].Valid() :: !Less(cs[i].Current().key, cs[k].Current().key)
  }

  ghost predicate IsLargest(cs: seq<Child>, c: Option<nat>) {
    match c
    case None => forall i | 0 <= i < |cs| :: !cs[i].Valid()
    case Some(k) =>
      && k < |cs| && cs[k].Valid()
      && forall i | 0 <= i < |cs| && cs[i].Valid() :: !Less(cs[k].Current().key, cs[i].Current().key)
  }

  /** The child that holds merged entry `n`, and where. */
  lemma OwnerOf(cs: seq<Child>, all: seq<Entry>, n: nat) returns (i: nat)
    requires ChildrenOk(cs, all) && n < |all|
    ensures i < |cs| && Cut(cs[i].list, all, n) < |cs[i].list| && cs[i].list[Cut(cs[i].list, all, n)] == all[n]
    ensures Cut(cs[i].list, all, n + 1) == Cut(cs[i].list, all, n) + 1
  {
    ChildFacts(cs, all);
    i :| i < |cs| && all[n] in cs[i].list;
    CutMoves(cs[i].list, all, n);
  }

  /** Where a child's current entry stands in the merged list. */
  lemma PlaceOf(cs: seq<Child>, all: seq<Entry>, k: nat) returns (m: nat)
    requires ChildrenOk(cs, all) && k < |cs| && cs[k].Valid()
    ensures m < |all| && all[m] == cs[k].Current()
    ensures Sorted(all) && Sorted(cs[k].list)
  {
    ChildFacts(cs, all);
    assert cs[k].Current() in cs[k].list;
    m :| m < |all| && all[m] == cs[k].Current();
  }

  /** With all children cut at `n`, the smallest one is at merged entry `n`. */
  lemma SmallestIsNext(cs: seq<Child>, all: seq<Entry>, n: nat, c: Option<nat>)
    requires ChildrenOk(cs, all) && n <= |all| && SplitForward(cs, all, n) && IsSmallest(cs, c)
    ensures n == |all| ==> c == None
    ensures n < |all| ==> c.Some? && cs[c.value].Current() == all[n]
  {
    if n < |all| {
      var i := OwnerOf(cs, all, n);
      var m := PlaceOf(cs, all, c.value);
      assert !Less(all[m].key, all[n].key);
      assert !Less(all[n].key, all[m].key);
    }
  }

  /** With all children just before cut `n`, the largest one is at merged entry `n - 1`. */
  lemma LargestIsPrevious(cs: seq<Child>, all: seq<Entry>, n: nat, c: Option<nat>)
    requires ChildrenOk(cs, all) && n <= |all| && SplitBackward(cs, all, n) && IsLargest(cs, c)
    ensures n == 0 ==> c == None
    ensures n > 0 ==> c.Some? && cs[c.value].Current() == all[n - 1]
  {
    if n == 0 {
      ChildFacts(cs, all);
      forall i | 0 <= i < |cs|
        ensures !cs[i].Valid()
      {
        CutAtStart(cs[i].list, all);
      }
    } else {
      var i := OwnerOf(cs, all, n - 1);
      var m := PlaceOf(cs, all, c.value);
      assert !Less(all[m].key, all[n - 1].key);
      assert n < |all| ==> Less(all[m].key, all[n].key);
    }
  }

  /** The current child stands at merged entry `at` and the others just after or just before it. */
  ghost predicate Positioned(cs: seq<Child>, all: seq<Entry>, at: nat, current: Option<nat>, direction: Direction) {
    && at <= |all|
    && (current == None <==> at == |all|)
    && (current.Some? ==>
          && current.value < |cs| && cs[current.value].Valid()
          && cs[current.value].Current() == all[at]
          && (if direction == Forward then SplitForward(cs, all, at) else SplitBackward(cs, all, at + 1)))
  }

  lemma ForwardLanding(cs: seq<Child>, all: seq<Entry>, n: nat, c: Option<nat>)
    requires ChildrenOk(cs, all) && n <= |all| && SplitForward(cs, all, n) && IsSmallest(cs, c)
    ensures Positioned(cs, all, n, c, Forward)
  {
    SmallestIsNext(cs, all, n, c);
  }

  lemma BackwardLanding(cs: seq<Child>, all: seq<Entry>, n: nat, c: Option<nat>)
    requires ChildrenOk(cs, all) && n <= |all| && SplitBackward(cs, all, n) && IsLargest(cs, c)
    ensures Positioned(cs, all, if n == 0 then |all| else n - 1, c, Reverse)
  {
    LargestIsPrevious(cs, all, n, c);
    if n > 0 {
      assert SplitBackward(cs, all, n - 1 + 1);
    }
  }

  // ---------------------------------------------------------------- the iterator

  class MergingIterator {
    var children: seq<Child>
    var current: Option<nat>
    var direction: Direction
    ghost const all: seq<Entry>
    ghost var at: nat

    ghost predicate Inv()
      reads this
    {
      && ChildrenOk(children, all)
      && Positioned(children, all, at, current, direction)
    }

    /** What the iterator looks like from outside. */
    ghost function View(): Cursor<Entry>
      reads this
    {
      Cursor(all, at)
    }

    constructor (lists: seq<seq<Entry>>)
      requires Mergeable(lists)
      ensures Inv() && !View().Valid() && all == MergeAll(lists)
    {
      children := seq(|lists|, i requires 0 <= i < |lists| => Cursor(lists[i], |lists[i]|));
      current, direction := None, Forward;
      all := MergeAll(lists);
      at := |MergeAll(lists)|;
      new;
      assert ListsOf(children) == lists;
    }

    method Valid() returns (b: bool)
      requires Inv()
      ensures b == View().Valid()
    {
      b := current.Some?;
    }

    method Current() returns (e: Entry)
      requires Inv() && View().Valid()
      ensures e == View().Current()
    {
      e := children[current.value].Current();
    }

    /** The child with the smallest key among those still valid. */
    method FindSmallest()
      modifies this`current
      ensures IsSmallest(children, current)
    {
      var smallest: Option<nat> := None;
      for i := 0 to |children|
        invariant IsSmallest(children[..i], smallest)
      {
        assert children[..i + 1] == children[..i] + [children[i]];
        if children[i].Valid() {
          if smallest == None {
            smallest := Some(i);
          } else if Less(children[i].Current().key, children[smallest.value].Current().key) {
            smallest := Some(i);
          }
        }
      }
      assert children[..|children|] == children;
      current := smallest;
    }

    method FindLargest()
      modifies this`current
      ensures IsLargest(children, current)
    {
      var largest: Option<nat> := None;
      for i := |children| downto 0
        invariant largest == None ==> forall j | i <= j < |children| :: !children[j].Valid()
        invariant largest.Some? ==> largest.value < |children| && children[largest.value].Valid()
        invariant largest.Some? ==> forall j | i <= j < |children| && children[j].Valid() ::
                    !Less(children[largest.value].Current().key, children[j].Current().key)
      {
        if children[i].Valid() {
          if largest == None {
            largest := Some(i);
          } else if Less(children[largest.value].Current().key, children[i].Current().key) {
            largest := Some(i);
          }
        }
      }
      current := largest;
    }

    method SeekToFirst()
      requires Inv()
      modifies this
      ensures Inv() && View() == old(View()).First()
    {
      var cs := children;
      children := seq(|cs|, i requires 0 <= i < |cs| => cs[i].First());
      assert ListsOf(children) == ListsOf(cs);
      ChildFacts(cs, all);
      forall i | 0 <= i < |cs|
        ensures Cut(cs[i].list, all, 0) == 0
      {
        CutAtStart(cs[i].list, all);
      }
      direction := Forward;
      LandForward(0);
    }

    method SeekToLast()
      requires Inv()
      modifies this
      ensures Inv() && View() == old(View()).Last()
    {
      var cs := children;
      children := seq(|cs|, i requires 0 <= i < |cs| => cs[i].Last());
      assert ListsOf(children) == ListsOf(cs);
      assert SplitBackward(children, all, |all|);
      direction := Reverse;
      LandBackward(|all|);
    }

    method Seek(target: InternalKey)
      requires Inv()
      modifies this
      ensures Inv() && View() == SeekTo(old(View()), target)
    {
      var cs := children;
      children := seq(|cs|, i requires 0 <= i < |cs| => SeekTo(cs[i], target));
      assert ListsOf(children) == ListsOf(cs);
      ghost var n := DbFormat.Seek(all, target);
      ChildFacts(cs, all);
      forall i | 0 <= i < |cs|
        ensures Cut(cs[i].list, all, n) == DbFormat.Seek(cs[i].list, target)
      {
        CutAtSeek(cs[i].list, all, target);
      }
      direction := Forward;
      LandForward(n);
    }

    /** Steps forward; after moving backwards, first repositions every other child after the current key. */
    method Next()
      requires Inv() && View().Valid()
      modifies this
      ensures Inv() && View() == old(View()).Next()
    {
      if direction != Forward {
        FaceForward();
      }
      Advance(current.value);
      LandForward(at + 1);
    }

    method Advance(cur: nat)
      requires Inv() && current == Some(cur) && direction == Forward
      modifies this`children
      ensures ChildrenOk(children, all) && at < |all| && SplitForward(children, all, at + 1)
    {
      StepForward(children, all, at, cur);
      children := children[cur := children[cur].Next()];
    }

    method FaceForward()
      requires Inv() && View().Valid()
      modifies this`children, this`direction
      ensures Inv() && direction == Forward
    {
      TurnedForward(children, all, at, current.value);
      children := TurnForward(children, current.value);
      direction := Forward;
    }

    method FaceBackward()
      requires Inv() && View().Valid()
      modifies this`children, this`direction
      ensures Inv() && direction == Reverse
    {
      TurnedBackward(children, all, at, current.value);
      children := TurnBackward(children, current.value);
      direction := Reverse;
    }

    /** The smallest child decides; the merged position is cut `n`. */
    method LandForward(ghost n: nat)
      requires ChildrenOk(children, all) && n <= |all| && SplitForward(children, all, n) && direction == Forward
      modifies this`current, this`at
      ensures Inv() && at == n
    {
      FindSmallest();
      ForwardLanding(children, all, n, current);
      at := n;
    }

    /** Steps back; after moving forwards, first repositions every other child before the current key. */
    method Prev()
      requires Inv() && View().Valid()
      modifies this
      ensures Inv() && View() == old(View()).Prev()
    {
      if direction != Reverse {
        FaceBackward();
      }
      Retreat(current.value);
      LandBackward(at);
    }

    method Retreat(cur: nat)
      requires Inv() && current == Some(cur) && direction == Reverse
      modifies this`children
      ensures ChildrenOk(children, all) && at < |all| && SplitBackward(children, all, at)
    {
      StepBackward(children, all, at, cur);
      children := children[cur := children[cur].Prev()];
    }

    /** The largest child decides; the merged position is the one before cut `n`. */
    method LandBackward(ghost n: nat)
      requires ChildrenOk(children, all) && n <= |all| && SplitBackward(children, all, n) && direction == Reverse
      modifies this`current, this`at
      ensures Inv() && at == if n == 0 then |all| else n - 1
    {
      FindLargest();
      BackwardLanding(children, all, n, current);
      at := if n == 0 then |all| else n - 1;
    }
  }

  function TurnForward(cs: seq<Child>, cur: nat): (r: seq<Child>)
    requires cur < |cs| && cs[cur].Valid()
    ensures |r| == |cs|
  {
    var key := cs[cur].Current().key;
    seq(|cs|, i requires 0 <= i < |cs| =>
      if i == cur then cs[i]
      else
        var c := SeekTo(cs[i], key);
        if c.Valid() && c.Current().key == key then c.Next() else c)
  }

  function TurnBackward(cs: seq<Child>, cur: nat): (r: seq<Child>)
    requires cur < |cs| && cs[cur].Valid()
    ensures |r| == |cs|
  {
    var key := cs[cur].Current().key;
    seq(|cs|, i requires 0 <= i < |cs| =>
      if i == cur then cs[i]
      else
        var c := SeekTo(cs[i], key);
        if c.Valid() then c.Prev() else c.Last())
  }

  lemma TurnedForward(cs: seq<Child>, all: seq<Entry>, at: nat, cur: nat)
    requires ChildrenOk(cs, all) && cur < |cs| && at < |all| && cs[cur].Valid() && cs[cur].Current() == all[at]
    ensures ChildrenOk(TurnForward(cs, cur), all)
    ensures Positioned(TurnForward(cs, cur), all, at, Some(cur), Forward)
  {
    var r := TurnForward(cs, cur);
    assert ListsOf(r) == ListsOf(cs);
    forall i | 0 <= i < |cs|
      ensures r[i].pos == Cut(r[i].list, all, at)
    {
      OwnerOnly(cs, all, at, cur, i);
    }
  }

  lemma TurnedBackward(cs: seq<Child>, all: seq<Entry>, at: nat, cur: nat)
    requires ChildrenOk(cs, all) && cur < |cs| && at < |all| && cs[cur].Valid() && cs[cur].Current() == all[at]
    ensures ChildrenOk(TurnBackward(cs, cur), all)
    ensures Positioned(TurnBackward(cs, cur), all, at, Some(cur), Reverse)
  {
    var r := TurnBackward(cs, cur);
    assert ListsOf(r) == ListsOf(cs);
    forall i | 0 <= i < |cs|
      ensures r[i].pos == Back(r[i].list, Cut(r[i].list, all, at + 1))
    {
      OwnerOnly(cs, all, at, cur, i);
      CutMoves(cs[i].list, all, at);
    }
  }

  lemma StepForward(cs: seq<Child>, all: seq<Entry>, at: nat, cur: nat)
    requires ChildrenOk(cs, all) && at < |all| && Positioned(cs, all, at, Some(cur), Forward)
    ensures var r := cs[cur := cs[cur].Next()]; ChildrenOk(r, all) && SplitForward(r, all, at + 1)
  {
    var r := cs[cur := cs[cur].Next()];
    assert ListsOf(r) == ListsOf(cs);
    forall i | 0 <= i < |cs|
      ensures r[i].pos == Cut(r[i].list, all, at + 1)
    {
      OwnerOnly(cs, all, at, cur, i);
      CutMoves(cs[i].list, all, at);
    }
  }

  lemma StepBackward(cs: seq<Child>, all: seq<Entry>, at: nat, cur: nat)
    requires ChildrenOk(cs, all) && at < |all| && Positioned(cs, all, at, Some(cur), Reverse)
    ensures var r := cs[cur := cs[cur].Prev()]; ChildrenOk(r, all) && SplitBackward(r, all, at)
  {
    var r := cs[cur := cs[cur].Prev()];
    assert ListsOf(r) == ListsOf(cs);
    forall i | 0 <= i < |cs|
      ensures r[i].pos == Back(r[i].list, Cut(r[i].list, all, at))
    {
      OwnerOnly(cs, all, at, cur, i);
      CutMoves(cs[i].list, all, at);
    }
  }

  lemma CutAtStart(list: seq<Entry>, all: seq<Entry>)
    requires Sorted(all) && forall e | e in list :: e in all
    ensures Cut(list, all, 0) == 0
  {
    assert |list| == 0 || list[0] in list;
    if all != [] && list != [] {
      var m :| 0 <= m < |all| && all[m] == list[0];
      SeekIsUnique(list, all[0].key, 0);
    }
  }

  /** A merged entry sorts before the target exactly when it sorts before the entry the merged seek lands on. */
  lemma SeekLandsBetween(all: seq<Entry>, e: Entry, target: InternalKey)
    requires Sorted(all) && e in all
    ensures var n := Seek(all, target); Less(e.key, target) <==> n == |all| || Less(e.key, all[n].key)
  {
    var n := Seek(all, target);
    var m :| 0 <= m < |all| && all[m] == e;
    if n < |all| && n < m {
      assert Less(all[n].key, all[m].key);
      LessIsTotalOrder(all[n].key, all[m].key, target);
    } else if m < n && n < |all| {
      assert Less(all[m].key, all[n].key);
    }
  }

  lemma CutAtSeek(list: seq<Entry>, all: seq<Entry>, target: InternalKey)
    requires Sorted(all) && forall e | e in list :: e in all
    ensures Cut(list, all, Seek(all, target)) == Seek(list, target)
  {
    var n, p := Seek(all, target), Seek(list, target);
    forall j | 0 <= j < p
      ensures n == |all| || Less(list[j].key, all[n].key)
    {
      SeekLandsBetween(all, list[j], target);
    }
    if p < |list| {
      SeekLandsBetween(all, list[p], target);
    }
    if n < |all| {
      SeekIsUnique(list, all[n].key, p);
    }
  }
}
