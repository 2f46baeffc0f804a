/**
  Searches of the skip list that overlap an insertion (db/skiplist.h): a reader takes no lock, so every
  pointer it loads may come from a different moment.  What it finds is still what one atomic search at the
  moment of its last load would have found.
*/
module SkipListReaders {
  import opened Base
  import opened DbFormat
  import opened SkipLists

  /** The list between two stores: the nodes in order and at how many levels each can be found. */
  datatype Memory = Memory(ns: seq<Node>, linked: map<Node, nat>)

  ghost predicate MemoryOk(m: Memory) {
    AllIn(m.ns, m.linked) && Distinct(m.ns) && Sorted(EntriesOf(m.ns))
  }

  ghost predicate LinkedAt(m: Memory, n: Node, l: nat) {
    n in m.ns && n in m.linked && m.linked[n] > l
  }

  /** The writer only adds nodes and links: whatever can be found stays where it is. */
  ghost predicate Grows(a: Memory, b: Memory) {
    forall n, l: nat | n in a.ns && LinkedAt(a, n, l) :: LinkedAt(b, n, l)
  }

  ghost function PlaceOf(ns: seq<Node>, n: Node): (i: nat)
    requires n in ns
    ensures i < |ns| && ns[i] == n
  {
    if ns[0] == n then 0 else 1 + PlaceOf(ns[1..], n)
  }

  /** The pointer at level `l` of the node `x`, or of the head; null stands for that of a node not in the list. */
  ghost function Load(m: Memory, x: Node?, l: nat): Node?
    requires MemoryOk(m)
  {
    if x == null then First(m.ns, m.linked, l)
    else if x in m.ns then First(m.ns[PlaceOf(m.ns, x) + 1..], m.linked, l)
    else null
  }

  // ---------------------------------------------------------------- the list's stores and loads

  /** Between two stores the pointers in memory are these. */
  lemma LoadIsPointer(head: Node, m: Memory, x: Node?, l: nat)
    requires MemoryOk(m) && LinksOk(head, m.ns, m.linked) && l < MAX_HEIGHT
    requires x != null ==> LinkedAt(m, x, l)
    ensures var p := if x == null then head else x;
            l < |p.next| && p.next[l] == Load(m, x, l)
  {
    if x == null {
      assert HeadOk(head, m.ns, m.linked, l);
    } else {
      assert LinkOk(m.ns, m.linked, PlaceOf(m.ns, x), l);
    }
  }

  /** Putting a node nowhere linked into its place, and linking it at one more level, are such growth. */
  lemma StoresGrow(m: Memory, k: nat, n: Node)
    requires MemoryOk(m) && k <= |m.ns|
    ensures n !in m.ns ==> Grows(m, Memory(m.ns[..k] + [n] + m.ns[k..], m.linked[n := 0]))
    ensures n in m.ns ==> Grows(m, Memory(m.ns, m.linked[n := m.linked[n] + 1]))
  {
    if n !in m.ns {
      forall x, l: nat | x in m.ns && LinkedAt(m, x, l)
        ensures x in m.ns[..k] + [n] + m.ns[k..]
      {
        assert m.ns == m.ns[..k] + m.ns[k..];
      }
    }
  }

  // ---------------------------------------------------------------- a search

  ghost predicate GoesRight(y: Node?, key: InternalKey) {
    y != null && Less(y.entry.key, key)
  }

  /** One load of the search and what it does next. */
  ghost predicate SearchStep(m: Memory, x: Node?, l: nat, key: InternalKey, x': Node?, l': nat)
    requires MemoryOk(m)
  {
    if GoesRight(Load(m, x, l), key) then x' == Load(m, x, l) && l' == l else x' == x && l' + 1 == l
  }

  /**
    A search for `key`: load number `i` reads memory `ms[i]` from the place `xs[i]` at level `ls[i]`; the
    last load is at level 0 and returns.
  */
  ghost predicate IsSearch(ms: seq<Memory>, xs: seq<Node?>, ls: seq<nat>, key: InternalKey, result: Node?) {
    && |ms| == |xs| == |ls| && |ms| > 0 && xs[0] == null
    && (forall i | 0 <= i < |ms| :: MemoryOk(ms[i]))
    && (forall i | 0 <= i < |ms| - 1 :: Grows(ms[i], ms[i + 1]) && SearchStep(ms[i], xs[i], ls[i], key, xs[i + 1], ls[i + 1]))
    && (var last := |ms| - 1;
        ls[last] == 0 && result == Load(ms[last], xs[last], 0) && !GoesRight(result, key))
  }

  /** How many nodes lie at or before the place. */
  ghost function Behind(m: Memory, x: Node?): (start: nat)
    requires x != null ==> x in m.ns
    ensures start <= |m.ns|
  {
    if x == null then 0 else PlaceOf(m.ns, x) + 1
  }

  lemma LoadPosition(m: Memory, x: Node?, l: nat) returns (k: nat)
    requires MemoryOk(m) && (x != null ==> x in m.ns)
    ensures Behind(m, x) <= k <= |m.ns|
    ensures Load(m, x, l) == if k < |m.ns| then m.ns[k] else null
    ensures k < |m.ns| ==> LinkedAt(m, m.ns[k], l)
    ensures forall j | Behind(m, x) <= j < k :: !LinkedAt(m, m.ns[j], l)
  {
    hide First, Less, Sorted, Distinct;
    var start := Behind(m, x);
    assert m.ns[0..] == m.ns;
    var rest := m.ns[start..];
    var i := FirstFound(rest, m.linked, l);
    k := start + i;
    forall j | start <= j < k
      ensures !LinkedAt(m, m.ns[j], l)
    {
      assert rest[j - start] == m.ns[j];
    }
  }

  /** A node with a larger key than the one stood at lies behind it. */
  lemma LiesBehind(m: Memory, x: Node?, n: Node)
    requires MemoryOk(m) && (x != null ==> x in m.ns) && n in m.ns
    ensures (x == null || Less(x.entry.key, n.entry.key)) <==> Behind(m, x) <= PlaceOf(m.ns, n)
  {
    if x != null {
      var i, j := PlaceOf(m.ns, n), PlaceOf(m.ns, x);
      InOrder(m, i, j);
      InOrder(m, j, i);
      LessIsTotalOrder(x.entry.key, n.entry.key, x.entry.key);
    }
  }

  /** A load finds the first node of its level behind the place. */
  lemma LoadFinds(m: Memory, x: Node?, l: nat)
    requires MemoryOk(m) && (x != null ==> x in m.ns)
    ensures var y := Load(m, x, l);
            && (y != null ==> LinkedAt(m, y, l) && (x != null ==> Less(x.entry.key, y.entry.key)))
            && forall n | n in m.ns && LinkedAt(m, n, l) && (x == null || Less(x.entry.key, n.entry.key)) ::
                 y != null && !Less(n.entry.key, y.entry.key)
  {
    hide Less, MemoryOk;
    var k := LoadPosition(m, x, l);
    if k < |m.ns| && x != null {
      InOrder(m, PlaceOf(m.ns, x), k);
    }
    forall n | n in m.ns && LinkedAt(m, n, l) && (x == null || Less(x.entry.key, n.entry.key))
      ensures k < |m.ns| && !Less(n.entry.key, m.ns[k].entry.key)
    {
      LiesBehind(m, x, n);
      var i := PlaceOf(m.ns, n);
      InOrder(m, k, i);
      if k < |m.ns| {
        LessIsTotalOrder(m.ns[k].entry.key, n.entry.key, n.entry.key);
      }
    }
  }

  lemma InOrder(m: Memory, i: int, j: int)
    requires MemoryOk(m)
    ensures 0 <= i < j < |m.ns| ==> Less(m.ns[i].entry.key, m.ns[j].entry.key)
  {
    if 0 <= i < j < |m.ns| {
      var es := EntriesOf(m.ns);
      assert Less(es[i].key, es[j].key);
    }
  }

  /** The search stands at the head or at a smaller node that can be found at its level. */
  ghost predicate Standing(m: Memory, x: Node?, l: nat, key: InternalKey) {
    x != null ==> LinkedAt(m, x, l) && Less(x.entry.key, key)
  }

  /** So every load reads a node that is in the list at that moment. */
  lemma {:induction false} StaysStanding(ms: seq<Memory>, xs: seq<Node?>, ls: seq<nat>, key: InternalKey, result: Node?, i: nat)
    requires IsSearch(ms, xs, ls, key, result) && i < |ms|
    ensures Standing(ms[i], xs[i], ls[i], key)
  {
    if i > 0 {
      StaysStanding(ms, xs, ls, key, result, i - 1);
      assert Grows(ms[i - 1], ms[i]) && SearchStep(ms[i - 1], xs[i - 1], ls[i - 1], key, xs[i], ls[i]);
      StandsNext(ms[i - 1], ms[i], xs[i - 1], ls[i - 1], key, xs[i], ls[i]);
    }
  }

  lemma StandsNext(m: Memory, m': Memory, x: Node?, l: nat, key: InternalKey, x': Node?, l': nat)
    requires MemoryOk(m) && Grows(m, m')
    requires Standing(m, x, l, key) && SearchStep(m, x, l, key, x', l')
    ensures Standing(m', x', l', key)
  {
    LoadFinds(m, x, l);
    if x' != null {
      assert LinkedAt(m, x', l');
    }
  }

  lemma {:induction false} GrowsAlong(ms: seq<Memory>, i: nat, j: nat)
    requires i <= j < |ms| && forall n | 0 <= n < |ms| - 1 :: Grows(ms[n], ms[n + 1])
    ensures Grows(ms[i], ms[j])
    decreases j
  {
    if i < j {
      GrowsAlong(ms, i, j - 1);
      assert Grows(ms[j - 1], ms[j]);
    }
  }

  /**
    Whatever a writer stored between the loads, the search returns the first node not before the key in the list
    as it was at the last load, and null exactly if there was none.
  */
  lemma SearchIsAtomic(ms: seq<Memory>, xs: seq<Node?>, ls: seq<nat>, key: InternalKey, result: Node?)
    requires IsSearch(ms, xs, ls, key, result)
    ensures var m := ms[|ms| - 1];
            && (result != null ==> LinkedAt(m, result, 0) && !Less(result.entry.key, key))
            && forall n | n in m.ns && LinkedAt(m, n, 0) && !Less(n.entry.key, key) ::
                 result != null && !Less(n.entry.key, result.entry.key)
  {
    var last := |ms| - 1;
    var m, x := ms[last], xs[last];
    StaysStanding(ms, xs, ls, key, result, last);
    LoadFinds(m, x, 0);
    forall n | n in m.ns && LinkedAt(m, n, 0) && !Less(n.entry.key, key)
      ensures x == null || Less(x.entry.key, n.entry.key)
    {
      if x != null {
        LessIsTotalOrder(x.entry.key, key, n.entry.key);
        LessIsTotalOrder(x.entry.key, n.entry.key, key);
      }
    }
  }

  /** Nothing that was in the list when the search began is missed: the result is not behind it. */
  lemma SearchMissesNothing(ms: seq<Memory>, xs: seq<Node?>, ls: seq<nat>, key: InternalKey, result: Node?, n: Node)
    requires IsSearch(ms, xs, ls, key, result)
    requires LinkedAt(ms[0], n, 0) && !Less(n.entry.key, key)
    ensures result != null && !Less(n.entry.key, result.entry.key)
  {
    GrowsAlong(ms, 0, |ms| - 1);
    assert LinkedAt(ms[|ms| - 1], n, 0);
    SearchIsAtomic(ms, xs, ls, key, result);
  }
}
