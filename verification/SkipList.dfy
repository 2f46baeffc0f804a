/**
  The memtable's skip list (db/skiplist.h): nodes linked level by level while readers run.  The
  invariant holds after every single pointer store of an insertion, and the searches need nothing else.
*/
module SkipLists {
  import opened Base
  import opened DbFormat
  import opened Cursors
  import opened Merging

  const MAX_HEIGHT := 12

  class Node {
    const entry: Entry
    var next: seq<Node?>

    constructor (entry: Entry, height: nat)
      ensures this.entry == entry && next == seq(height, _ => null)
    {
      this.entry := entry;
      next := seq(height, _ => null);
    }
  }

  function EntriesOf(ns: seq<Node>): (es: seq<Entry>)
    ensures |es| == |ns|
  {
    seq(|ns|, i requires 0 <= i < |ns| => ns[i].entry)
  }

  // ---------------------------------------------------------------- levels

  /** The first node linked at level `l`; `linked` says at how many levels each node can be found. */
  ghost function First(ns: seq<Node>, linked: map<Node, nat>, l: nat): Node?
    requires forall n | n in ns :: n in linked
  {
    if ns == [] then null else if linked[ns[0]] > l then ns[0] else First(ns[1..], linked, l)
  }

  lemma {:induction false} FirstFound(ns: seq<Node>, linked: map<Node, nat>, l: nat) returns (k: nat)
    requires forall n | n in ns :: n in linked
    ensures k <= |ns| && First(ns, linked, l) == (if k < |ns| then ns[k] else null)
    ensures k < |ns| ==> linked[ns[k]] > l
    ensures forall j | 0 <= j < k :: linked[ns[j]] <= l
  {
    if ns == [] || linked[ns[0]] > l {
      k := 0;
    } else {
      var m := FirstFound(ns[1..], linked, l);
      k := m + 1;
      assert forall j | 1 <= j < |ns| :: ns[j] == ns[1..][j - 1];
    }
  }

  lemma FirstIs(ns: seq<Node>, linked: map<Node, nat>, l: nat, k: nat)
    requires (forall n | n in ns :: n in linked) && k <= |ns|
    requires k < |ns| ==> linked[ns[k]] > l
    requires forall j | 0 <= j < k :: linked[ns[j]] <= l
    ensures First(ns, linked, l) == if k < |ns| then ns[k] else null
  {
    var m := FirstFound(ns, linked, l);
  }

  /** The nodes of a level in order: a sublist of the level below, which is level 0's list of all nodes. */
  ghost function LevelList(ns: seq<Node>, linked: map<Node, nat>, l: nat): seq<Node>
    requires forall n | n in ns :: n in linked
  {
    if ns == [] then [] else (if linked[ns[0]] > l then [ns[0]] else []) + LevelList(ns[1..], linked, l)
  }

  ghost predicate IsSublist(a: seq<Node>, b: seq<Node>) {
    a == [] || (b != [] && (if a[0] == b[0] then IsSublist(a[1..], b[1..]) else IsSublist(a, b[1..])))
  }

  lemma {:induction false} LevelsNest(ns: seq<Node>, linked: map<Node, nat>, l: nat)
    requires (forall n | n in ns :: n in linked) && forall i, j | 0 <= i < j < |ns| :: ns[i] != ns[j]
    ensures IsSublist(LevelList(ns, linked, l + 1), LevelList(ns, linked, l))
  {
    if ns != [] {
      var upper, lower := LevelList(ns[1..], linked, l + 1), LevelList(ns[1..], linked, l);
      LevelsNest(ns[1..], linked, l);
      LevelMembers(ns[1..], linked, l + 1);
      assert [] + upper == upper && [] + lower == lower;
      if linked[ns[0]] > l {
        SublistCons(ns[0], upper, lower, linked[ns[0]] > l + 1);
      }
    }
  }

  lemma SublistCons(n: Node, a: seq<Node>, b: seq<Node>, both: bool)
    requires IsSublist(a, b) && n !in a
    ensures IsSublist((if both then [n] else []) + a, [n] + b)
  {
    assert ([n] + a)[1..] == a && ([n] + b)[1..] == b && [] + a == a;
  }

  lemma {:induction false} Level0IsAll(ns: seq<Node>, linked: map<Node, nat>)
    requires forall n | n in ns :: n in linked && linked[n] >= 1
    ensures LevelList(ns, linked, 0) == ns
  {
    if ns != [] {
      Level0IsAll(ns[1..], linked);
    }
  }

  lemma {:induction false} LevelMembers(ns: seq<Node>, linked: map<Node, nat>, l: nat)
    requires forall n | n in ns :: n in linked
    ensures forall n | n in LevelList(ns, linked, l) :: n in ns
  {
    if ns != [] {
      LevelMembers(ns[1..], linked, l);
    }
  }

  /** Following a level's links from any place visits exactly that level's nodes in order. */
  lemma {:induction false} LevelIsChain(ns: seq<Node>, linked: map<Node, nat>, l: nat) returns (k: nat)
    requires forall n | n in ns :: n in linked
    ensures k <= |ns| && (First(ns, linked, l) == null ==> LevelList(ns, linked, l) == [])
    ensures First(ns, linked, l) != null ==>
              k < |ns| && ns[k] == First(ns, linked, l) && LevelList(ns, linked, l) == [ns[k]] + LevelList(ns[k + 1..], linked, l)
  {
    if ns == [] {
      k := 0;
    } else if linked[ns[0]] > l {
      k := 0;
      assert ns[0 + 1..] == ns[1..];
    } else {
      var m := LevelIsChain(ns[1..], linked, l);
      k := m + 1;
      assert [] + LevelList(ns[1..], linked, l) == LevelList(ns[1..], linked, l);
      if m < |ns[1..]| {
        assert ns[k + 1..] == ns[1..][m + 1..];
      }
    }
  }

  ghost predicate AllIn(ns: seq<Node>, linked: map<Node, nat>) {
    forall n | n in ns :: n in linked
  }

  /** At every level it is linked at, a node points to the next node linked at that level. */
  ghost predicate LinkOk(ns: seq<Node>, linked: map<Node, nat>, i: nat, l: nat)
    requires AllIn(ns, linked)
    reads ns
  {
    i < |ns| ==> PointsOk(ns[i].next, ns, linked, i, l)
  }

  ghost predicate PointsOk(next: seq<Node?>, ns: seq<Node>, linked: map<Node, nat>, i: nat, l: nat)
    requires AllIn(ns, linked) && i < |ns|
  {
    l < linked[ns[i]] ==> l < |next| && next[l] == First(ns[i + 1..], linked, l)
  }

  ghost predicate HeadOk(head: Node, ns: seq<Node>, linked: map<Node, nat>, l: nat)
    requires AllIn(ns, linked)
    reads head
  {
    l < |head.next| && head.next[l] == First(ns, linked, l)
  }

  ghost predicate LinksOk(head: Node, ns: seq<Node>, linked: map<Node, nat>)
    reads head, ns
  {
    && AllIn(ns, linked)
    && |head.next| == MAX_HEIGHT
    && (forall l: nat | l < MAX_HEIGHT :: HeadOk(head, ns, linked, l))
    && (forall i: nat, l: nat | i < |ns| && l < MAX_HEIGHT :: LinkOk(ns, linked, i, l))
  }

  // ---------------------------------------------------------------- one more link

  lemma {:induction false} FirstSame(ns: seq<Node>, linked: map<Node, nat>, linked': map<Node, nat>, l: nat)
    requires AllIn(ns, linked) && AllIn(ns, linked')
    requires forall n | n in ns :: linked[n] > l <==> linked'[n] > l
    ensures First(ns, linked, l) == First(ns, linked', l)
  {
    if ns != [] {
      FirstSame(ns[1..], linked, linked', l);
    }
  }

  lemma {:induction false} FirstConcat(a: seq<Node>, b: seq<Node>, linked: map<Node, nat>, l: nat)
    requires AllIn(a, linked) && AllIn(b, linked)
    ensures First(a + b, linked, l) == if First(a, linked, l) != null then First(a, linked, l) else First(b, linked, l)
  {
    if a == [] {
      assert a + b == b;
    } else {
      assert (a + b)[1..] == a[1..] + b;
      FirstConcat(a[1..], b, linked, l);
    }
  }

  /** A node linked nowhere changes nothing about what comes first. */
  lemma FirstSkips(a: seq<Node>, n: Node, b: seq<Node>, linked: map<Node, nat>, l: nat)
    requires AllIn(a, linked) && AllIn(b, linked) && n !in a && n !in b
    ensures AllIn(a + [n] + b, linked[n := 0])
    ensures First(a + [n] + b, linked[n := 0], l) == First(a + b, linked, l)
  {
    var linked' := linked[n := 0];
    FirstSame(a, linked, linked', l);
    FirstSame(b, linked, linked', l);
    FirstConcat(a, b, linked, l);
    FirstConcat(a + [n], b, linked', l);
    FirstConcat(a, [n], linked', l);
  }

  ghost predicate Distinct(ns: seq<Node>) {
    forall i, j | 0 <= i < j < |ns| :: ns[i] != ns[j]
  }

  lemma DistinctAround(ns: seq<Node>, k: nat, start: nat)
    requires Distinct(ns) && k < |ns| && start <= |ns|
    ensures k < start ==> ns[k] !in ns[start..]
    ensures start <= k ==> ns[k] !in ns[start..k] && ns[k] !in ns[k + 1..]
    ensures start <= k ==> ns[start..] == ns[start..k] + ([ns[k]] + ns[k + 1..])
  {
  }

  /** Raising one node's link count by one shows it first to exactly those that see nothing before it at that level. */
  lemma FirstAfterLink(ns: seq<Node>, linked: map<Node, nat>, k: nat, start: nat, l: nat)
    requires AllIn(ns, linked) && Distinct(ns) && k < |ns| && start <= |ns|
    ensures var i := linked[ns[k]];
            First(ns[start..], linked[ns[k] := i + 1], l)
              == if l == i && start <= k && First(ns[start..k], linked, l) == null then ns[k] else First(ns[start..], linked, l)
  {
    var n := ns[k];
    var linked' := linked[n := linked[n] + 1];
    DistinctAround(ns, k, start);
    if start <= k && l == linked[n] {
      var a, b := ns[start..k], [n] + ns[k + 1..];
      FirstSame(a, linked, linked', l);
      FirstConcat(a, b, linked, l);
      FirstConcat(a, b, linked', l);
    } else {
      FirstSame(ns[start..], linked, linked', l);
    }
  }

  /** Between a level's last node before `k` and `k` itself nothing is linked, and before that node it is seen first. */
  lemma FirstBefore(ns: seq<Node>, linked: map<Node, nat>, at: nat, k: nat, j: nat, l: nat)
    requires AllIn(ns, linked) && at <= k < |ns| && First(ns[at..k], linked, l) == null
    requires at > 0 ==> linked[ns[at - 1]] > l
    ensures at <= j < k ==> linked[ns[j]] <= l
    ensures j < at ==> First(ns[j..k], linked, l) != null
  {
    if at <= j < k {
      var m := FirstFound(ns[at..k], linked, l);
      assert ns[at..k][j - at] == ns[j];
    }
    if j < at {
      var m := FirstFound(ns[j..k], linked, l);
      assert ns[j..k][at - 1 - j] == ns[at - 1];
    }
  }

  /** Seen from the head or from a node linked at level `m`: only the last one before `k` sees the change. */
  lemma SeenFrom(ns: seq<Node>, linked: map<Node, nat>, at: nat, k: nat, start: nat, m: nat)
    requires AllIn(ns, linked) && Distinct(ns) && at <= k < |ns| && start <= |ns|
    requires at > 0 ==> linked[ns[at - 1]] > linked[ns[k]]
    requires First(ns[at..k], linked, linked[ns[k]]) == null
    requires start > 0 ==> linked[ns[start - 1]] > m
    ensures First(ns[start..], linked[ns[k] := linked[ns[k]] + 1], m)
         == if m == linked[ns[k]] && start == at then ns[k] else First(ns[start..], linked, m)
  {
    FirstAfterLink(ns, linked, k, start, m);
    if start <= k {
      FirstBefore(ns, linked, at, k, start, linked[ns[k]]);
      if start > 0 {
        FirstBefore(ns, linked, at, k, start - 1, linked[ns[k]]);
      }
    }
  }

  /** What comes first after the gap before `k` comes first after `k`, as long as `k` is not linked there. */
  lemma PastUnlinked(ns: seq<Node>, linked: map<Node, nat>, at: nat, k: nat, l: nat)
    requires AllIn(ns, linked) && at <= k < |ns| && linked[ns[k]] <= l && First(ns[at..k], linked, l) == null
    ensures First(ns[at..], linked, l) == First(ns[k + 1..], linked, l)
  {
    assert ns[at..] == ns[at..k] + ([ns[k]] + ns[k + 1..]);
    FirstConcat(ns[at..k], [ns[k]] + ns[k + 1..], linked, l);
    assert ([ns[k]] + ns[k + 1..])[1..] == ns[k + 1..];
  }

  /** Adding a node linked nowhere leaves every link right. */
  lemma UnlinkedNodeFits(head: Node, ns: seq<Node>, linked: map<Node, nat>, k: nat, n: Node)
    requires LinksOk(head, ns, linked) && k <= |ns| && n !in ns
    ensures LinksOk(head, ns[..k] + [n] + ns[k..], linked[n := 0])
  {
    var ns', linked' := ns[..k] + [n] + ns[k..], linked[n := 0];
    assert ns == ns[..k] + ns[k..];
    forall l: nat | l < MAX_HEIGHT
      ensures HeadOk(head, ns', linked', l)
    {
      assert HeadOk(head, ns, linked, l);
      FirstSkips(ns[..k], n, ns[k..], linked, l);
    }
    forall i: nat, l: nat | i < |ns'| && l < MAX_HEIGHT
      ensures LinkOk(ns', linked', i, l)
    {
      if i < k {
        assert LinkOk(ns, linked, i, l);
        assert ns'[i + 1..] == ns[i + 1..k] + [n] + ns[k..];
        assert ns[i + 1..] == ns[i + 1..k] + ns[k..];
        FirstSkips(ns[i + 1..k], n, ns[k..], linked, l);
      } else if i > k {
        assert LinkOk(ns, linked, i - 1, l);
        assert ns'[i + 1..] == ns[i..];
        FirstSame(ns[i..], linked, linked', l);
      }
    }
  }

  /** The release store that makes `ns[k]` visible at one more level, after its own link there was set. */
  method SetNext(head: Node, p: Node, l: nat, n: Node, ghost ns: seq<Node>, ghost linked: map<Node, nat>, ghost at: nat, ghost k: nat)
    requires LinksOk(head, ns, linked) && Distinct(ns) && head !in ns
    requires at <= k < |ns| && n == ns[k] && l == linked[n] < MAX_HEIGHT && l < |n.next|
    requires p == (if at == 0 then head else ns[at - 1]) && (at > 0 ==> linked[p] > l)
    requires First(ns[at..k], linked, l) == null
    requires l < |p.next| && n.next[l] == p.next[l]
    modifies p
    ensures LinksOk(head, ns, linked[n := l + 1])
  {
    ghost var next := p.next[l];
    if at > 0 {
      assert LinkOk(ns, linked, at - 1, l);
    } else {
      assert HeadOk(head, ns, linked, l);
      assert ns[0..] == ns;
    }
    PastUnlinked(ns, linked, at, k, l);
    assert next == First(ns[k + 1..], linked, l);
    p.next := p.next[l := n];
    ghost var linked' := linked[n := l + 1];
    forall m: nat | m < MAX_HEIGHT
      ensures HeadOk(head, ns, linked', m)
    {
      assert old(HeadOk(head, ns, linked, m));
      assert ns[0..] == ns;
      SeenFrom(ns, linked, at, k, 0, m);
    }
    forall i: nat, m: nat | i < |ns| && m < MAX_HEIGHT
      ensures LinkOk(ns, linked', i, m)
    {
      assert old(LinkOk(ns, linked, i, m)) && ns[i] in ns;
      assert i + 1 == at || ns[i] != p;
      PointsAfter(old(ns[i].next), ns[i].next, l, ns, linked, at, k, i, m);
    }
  }

  /** One node's link after the store. */
  lemma PointsAfter(before: seq<Node?>, after: seq<Node?>, l: nat, ns: seq<Node>, linked: map<Node, nat>, at: nat, k: nat, i: nat, m: nat)
    requires AllIn(ns, linked) && Distinct(ns) && at <= k < |ns| && l == linked[ns[k]] && i < |ns|
    requires at > 0 ==> linked[ns[at - 1]] > l
    requires First(ns[at..k], linked, l) == null
    requires if i + 1 == at then l < |before| && after == before[l := ns[k]] else after == before
    requires i == k ==> l < |after| && after[l] == First(ns[k + 1..], linked, l)
    requires PointsOk(before, ns, linked, i, m)
    ensures PointsOk(after, ns, linked[ns[k] := l + 1], i, m)
  {
    if linked[ns[i]] > m {
      SeenFrom(ns, linked, at, k, i + 1, m);
    } else if i == k {
      FirstAfterLink(ns, linked, k, k + 1, m);
    }
  }

  // ---------------------------------------------------------------- the list

  class SkipList {
    const head: Node
    var maxHeight: nat
    ghost var nodes: seq<Node>
    ghost var linked: map<Node, nat>

    /** The entries in the list, in order. */
    ghost function Contents(): seq<Entry>
      reads this
    {
      EntriesOf(nodes)
    }

    ghost predicate Shape()
      reads this
    {
      ShapeOf(nodes, linked, maxHeight)
    }

    ghost predicate ShapeOf(nodes: seq<Node>, linked: map<Node, nat>, maxHeight: nat) {
      && 1 <= maxHeight <= MAX_HEIGHT
      && head !in nodes
      && (forall n | n in nodes :: n in linked && 1 <= linked[n] <= maxHeight)
      && (forall i, j | 0 <= i < j < |nodes| :: nodes[i] != nodes[j])
      && Sorted(EntriesOf(nodes))
    }

    ghost predicate Inv()
      reads this, head, nodes
    {
      Shape() && LinksOk(head, nodes, linked)
    }

    constructor ()
      ensures Inv() && Contents() == [] && fresh(head)
    {
      head := new Node(Entry(InternalKey(0.0, 0, Deletion), []), MAX_HEIGHT);
      maxHeight := 1;
      nodes, linked := [], map[];
    }

    /** The node a search stands at: the head, or node `at - 1`. */
    ghost predicate StandsAt(x: Node, at: nat)
      reads this
    {
      at <= |nodes| && x == if at == 0 then head else nodes[at - 1]
    }

    /** What the search reads at `x`: the next node of the level. */
    lemma NextIs(x: Node, at: nat, l: nat)
      requires Inv() && StandsAt(x, at) && l < MAX_HEIGHT
      requires at > 0 ==> linked[x] > l
      ensures l < |x.next| && x.next[l] == First(nodes[at..], linked, l)
    {
      if at > 0 {
        assert LinkOk(nodes, linked, at - 1, l);
      } else {
        assert nodes[0..] == nodes && HeadOk(head, nodes, linked, l);
      }
    }

    /** `p` is the last node linked at level `l` before position `idx`, or the head. */
    ghost predicate IsPrev(p: Node, at: nat, l: nat, idx: nat)
      requires Shape()
      reads this
    {
      && StandsAt(p, at) && at <= idx <= |nodes|
      && (at > 0 ==> linked[p] > l)
      && First(nodes[at..idx], linked, l) == null
    }

    /** Stepping right passes only smaller entries. */
    lemma RightStays(at: nat, l: nat, key: InternalKey) returns (k: nat)
      requires Shape() && at <= Seek(Contents(), key)
      requires First(nodes[at..], linked, l) != null && Less(First(nodes[at..], linked, l).entry.key, key)
      ensures at + k + 1 <= Seek(Contents(), key) && nodes[at + k] == First(nodes[at..], linked, l)
      ensures linked[nodes[at + k]] > l
    {
      k := FirstFound(nodes[at..], linked, l);
      assert Contents()[at + k] == nodes[at + k].entry;
      SeekSplits(Contents(), key, at + k);
    }

    /** Going down leaves nothing of this level between here and the key. */
    lemma DownSkipsNothing(at: nat, l: nat, key: InternalKey)
      requires Shape() && at <= Seek(Contents(), key)
      requires First(nodes[at..], linked, l) == null || !Less(First(nodes[at..], linked, l).entry.key, key)
      ensures First(nodes[at..Seek(Contents(), key)], linked, l) == null
    {
      var idx := Seek(Contents(), key);
      var k := FirstFound(nodes[at..], linked, l);
      assert at + k < |nodes| ==> Contents()[at + k] == nodes[at + k].entry;
      var between := nodes[at..idx];
      assert forall j | 0 <= j < |between| :: between[j] == nodes[at..][j];
      FirstIs(between, linked, l, |between|);
    }

    /** At level 0 every node is linked, so the next one is simply the next one. */
    lemma BottomIsAll(at: nat)
      requires Shape() && at <= |nodes|
      ensures First(nodes[at..], linked, 0) == if at < |nodes| then nodes[at] else null
    {
      assert at < |nodes| ==> nodes[at] in nodes && nodes[at..][0] == nodes[at];
    }

    /** The first node at or after the key, and for every level the last node before it. */
    method FindGreaterOrEqual(key: InternalKey) returns (r: Node?, prev: seq<Node>, ghost ats: seq<nat>)
      requires Inv()
      ensures var idx := Seek(Contents(), key); r == if idx < |nodes| then nodes[idx] else null
      ensures |prev| == |ats| == maxHeight
      ensures forall l: nat | l < maxHeight :: IsPrev(prev[l], ats[l], l, Seek(Contents(), key))
    {
      var x: Node, level: nat := head, maxHeight - 1;
      ghost var at: nat := 0;
      prev, ats := seq(maxHeight, _ => head), seq(maxHeight, _ => 0);
      while true
        invariant 0 <= level < maxHeight && StandsAt(x, at) && at <= Seek(Contents(), key)
        invariant at > 0 ==> linked[x] > level
        invariant |prev| == |ats| == maxHeight
        invariant forall l: nat | level < l < maxHeight :: IsPrev(prev[l], ats[l], l, Seek(Contents(), key))
        decreases level, |nodes| - at
      {
        NextIs(x, at, level);
        var next := x.next[level];
        if next != null && Less(next.entry.key, key) {
          ghost var k := RightStays(at, level, key);
          x, at := next, at + k + 1;
        } else {
          DownSkipsNothing(at, level, key);
          prev, ats := prev[level := x], ats[level := at];
          if level == 0 {
            BottomIsAll(at);
            AtBottom(at, key);
            return next, prev, ats;
          }
          level := level - 1;
        }
      }
    }

    /** Reaching level 0 with nothing between means standing right before the key's place. */
    lemma AtBottom(at: nat, key: InternalKey)
      requires Shape() && at <= Seek(Contents(), key) && First(nodes[at..Seek(Contents(), key)], linked, 0) == null
      ensures at == Seek(Contents(), key)
    {
      var between := nodes[at..Seek(Contents(), key)];
      assert forall n | n in between :: n in nodes;
      BottomFirst(between, linked);
    }

    /** The last node before the key, or the head. */
    method FindLessThan(key: InternalKey) returns (r: Node, ghost at: nat)
      requires Inv()
      ensures StandsAt(r, Seek(Contents(), key)) && at == Seek(Contents(), key)
    {
      var level: nat := maxHeight - 1;
      r, at := head, 0;
      while true
        invariant 0 <= level < maxHeight && StandsAt(r, at) && at <= Seek(Contents(), key)
        invariant at > 0 ==> linked[r] > level
        decreases level, |nodes| - at
      {
        NextIs(r, at, level);
        var next := r.next[level];
        if next == null || !Less(next.entry.key, key) {
          DownSkipsNothing(at, level, key);
          if level == 0 {
            AtBottom(at, key);
            return;
          }
          level := level - 1;
        } else {
          ghost var k := RightStays(at, level, key);
          r, at := next, at + k + 1;
        }
      }
    }

    /** The last node, or the head of an empty list. */
    method FindLast() returns (r: Node)
      requires Inv()
      ensures StandsAt(r, |nodes|)
    {
      var level: nat := maxHeight - 1;
      ghost var at: nat := 0;
      r := head;
      while true
        invariant 0 <= level < maxHeight && StandsAt(r, at)
        invariant at > 0 ==> linked[r] > level
        decreases level, |nodes| - at
      {
        NextIs(r, at, level);
        var next := r.next[level];
        ghost var k := FirstFound(nodes[at..], linked, level);
        if next == null {
          if level == 0 {
            BottomIsAll(at);
            return;
          }
          level := level - 1;
        } else {
          r, at := next, at + k + 1;
        }
      }
    }

    method Contains(key: InternalKey) returns (b: bool)
      requires Inv()
      ensures b <==> exists e :: e in Contents() && e.key == key
    {
      var x, _, _ := FindGreaterOrEqual(key);
      b := x != null && x.entry.key == key;
      SeekFindsKey(Contents(), key);
      assert x != null ==> Contents()[Seek(Contents(), key)] == x.entry;
    }

    /**
      Inserts an entry whose key is not in the list yet.  Every pointer store of the loop ends in a
      state in which searches are right: before the first one they see the old list, after it the new one.
    */
    method Insert(entry: Entry, height: nat)
      requires Inv() && 1 <= height <= MAX_HEIGHT
      requires forall e | e in Contents() :: e.key != entry.key
      modifies this, head, nodes
      ensures Inv() && Contents() == DbFormat.Insert(old(Contents()), entry)
    {
      hide LinksOk, Sorted, Less, DbFormat.Insert;
      var x, prev, ats := FindGreaterOrEqual(entry.key);
      ghost var k := Seek(Contents(), entry.key);
      prev, ats := RaiseHeight(height, prev, ats, k);
      var n := new Node(entry, height);
      ghost var ns: seq<Node>, lk: map<Node, nat> := nodes[..k] + [n] + nodes[k..], linked[n := 0];
      UnlinkedNodeFits(head, nodes, linked, k, n);
      StartsLinking(n, ns, lk, k, prev, ats, height);
      for i := 0 to height
        invariant fresh(n) && |n.next| == height <= maxHeight
        invariant Inv() && Linking(n, ns, lk, k, i, prev, ats, height)
        invariant i == 0 ==> AddsNode(n, ns, lk, k) && nodes == old(nodes)
        invariant i > 0 ==> Contents() == DbFormat.Insert(old(Contents()), entry)
      {
        lk := LinkLevel(n, ns, lk, k, i, prev, ats, height);
      }
    }

    /**
      Links the new node at one more level.  The first level makes the entry visible; the others only
      make it faster to find.
    */
    method LinkLevel(n: Node, ghost ns: seq<Node>, ghost lk: map<Node, nat>, ghost k: nat, i: nat,
                     prev: seq<Node>, ghost ats: seq<nat>, ghost height: nat) returns (ghost lk': map<Node, nat>)
      requires Inv() && Linking(n, ns, lk, k, i, prev, ats, height) && i < height <= maxHeight && |n.next| == height
      requires i == 0 ==> AddsNode(n, ns, lk, k)
      modifies this`nodes, this`linked, n, prev[i]
      ensures Inv() && Linking(n, ns, lk', k, i + 1, prev, ats, height) && |n.next| == height
      ensures Contents() == if i == 0 then DbFormat.Insert(old(Contents()), n.entry) else old(Contents())
    {
      hide LinksOk, Sorted, Less, DbFormat.Insert, ShapeOf;
      lk' := lk[n := i + 1];
      LinkedShape(n, ns, lk, k, i);
      assert Precedes(head, prev[i], ats[i], ns, lk, k, i);
      PrepareLink(n, ns, lk, k, i, prev[i], ats[i]);
      SetNext(head, prev[i], i, n, ns, lk, ats[i], k);
      NextLevelLinks(n, ns, lk, k, i, prev, ats, height);
      nodes, linked := ns, lk';
    }

    /** Linking the new node at one more level keeps the list's shape; the first level adds the entry. */
    lemma LinkedShape(n: Node, ns: seq<Node>, lk: map<Node, nat>, k: nat, i: nat)
      requires Shape() && k < |ns| && ns[k] == n && head != n && i < maxHeight
      requires if i == 0 then AddsNode(n, ns, lk, k) else nodes == ns && linked == lk
      ensures ShapeOf(ns, lk[n := i + 1], maxHeight)
      ensures EntriesOf(ns) == if i == 0 then DbFormat.Insert(Contents(), n.entry) else Contents()
    {
      hide Sorted, Less, DbFormat.Insert;
      if i == 0 {
        InsertedShape(nodes, k, n);
        InsertedNodes(nodes, k, n, ns);
      }
    }

    /** `ns` is the list with the new node at its sorted place. */
    ghost predicate AddsNode(n: Node, ns: seq<Node>, lk: map<Node, nat>, k: nat)
      reads this
    {
      && n !in nodes && k <= |nodes| && ns == nodes[..k] + [n] + nodes[k..] && lk == linked[n := 0]
      && k == Seek(Contents(), n.entry.key)
      && forall e | e in Contents() :: e.key != n.entry.key
    }

    /** A taller list starts its new levels at the head. */
    method RaiseHeight(height: nat, prev: seq<Node>, ghost ats: seq<nat>, ghost k: nat)
      returns (prev': seq<Node>, ghost ats': seq<nat>)
      requires Inv() && 1 <= height <= MAX_HEIGHT && k <= |nodes|
      requires |prev| == |ats| == maxHeight
      requires forall l: nat | l < maxHeight :: IsPrev(prev[l], ats[l], l, k)
      modifies this`maxHeight
      ensures Inv() && height <= maxHeight && |prev'| == |ats'| == maxHeight
      ensures forall l: nat | l < maxHeight :: IsPrev(prev'[l], ats'[l], l, k)
    {
      prev', ats' := prev, ats;
      if height > maxHeight {
        ghost var low := maxHeight;
        for i := maxHeight to height
          invariant Inv() && maxHeight == low && |prev'| == |ats'| == i
          invariant forall l: nat | l < i :: IsPrev(prev'[l], ats'[l], l, k)
        {
          NothingAbove(nodes[0..k], linked, i);
          prev', ats' := prev' + [head], ats' + [0];
        }
        maxHeight := height;
      }
    }

    /** The state of the linking loop before level `i`: `n` is linked at exactly the levels below. */
    ghost predicate Linking(n: Node, ns: seq<Node>, lk: map<Node, nat>, k: nat, i: nat, prev: seq<Node>, ats: seq<nat>, height: nat)
      reads this, head, ns
    {
      && LinksOk(head, ns, lk) && Distinct(ns) && head !in ns
      && k < |ns| && ns[k] == n && lk[n] == i <= height <= MAX_HEIGHT
      && (i > 0 ==> nodes == ns && linked == lk)
      && height <= |prev| && height <= |ats|
      && forall l: nat | i <= l < height :: Precedes(head, prev[l], ats[l], ns, lk, k, l)
    }

    lemma StartsLinking(n: Node, ns: seq<Node>, lk: map<Node, nat>, k: nat, prev: seq<Node>, ats: seq<nat>, height: nat)
      requires Inv() && k <= |nodes| && n !in nodes && n != head && height <= maxHeight <= MAX_HEIGHT
      requires ns == nodes[..k] + [n] + nodes[k..] && lk == linked[n := 0] && LinksOk(head, ns, lk)
      requires |prev| == |ats| == maxHeight && forall l: nat | l < maxHeight :: IsPrev(prev[l], ats[l], l, k)
      ensures Linking(n, ns, lk, k, 0, prev, ats, height)
    {
      forall l: nat | l < height
        ensures Precedes(head, prev[l], ats[l], ns, lk, k, l)
      {
        assert IsPrev(prev[l], ats[l], l, k);
        assert ns[ats[l]..k] == nodes[ats[l]..k];
        FirstSame(nodes[ats[l]..k], linked, lk, l);
      }
    }

    lemma NextLevelLinks(n: Node, ns: seq<Node>, lk: map<Node, nat>, k: nat, i: nat, prev: seq<Node>, ats: seq<nat>, height: nat)
      requires AllIn(ns, lk) && Distinct(ns) && k < |ns| && ns[k] == n && lk[n] == i
      requires i < height <= |prev| && height <= |ats|
      requires forall l: nat | i <= l < height :: Precedes(head, prev[l], ats[l], ns, lk, k, l)
      ensures forall l: nat | i < l < height :: Precedes(head, prev[l], ats[l], ns, lk[n := i + 1], k, l)
    {
      forall l: nat | i < l < height
        ensures Precedes(head, prev[l], ats[l], ns, lk[n := i + 1], k, l)
      {
        DistinctAround(ns, k, ats[l]);
        FirstSame(ns[ats[l]..k], lk, lk[n := i + 1], l);
      }
    }

    /** The new node's own link is set while nobody can reach it through this level. */
    method PrepareLink(n: Node, ghost ns: seq<Node>, ghost lk: map<Node, nat>, ghost k: nat, i: nat, p: Node, ghost at: nat)
      requires Inv() && LinksOk(head, ns, lk) && Distinct(ns) && head !in ns && k < |ns| && ns[k] == n && lk[n] == i < MAX_HEIGHT
      requires i < |n.next| && Precedes(head, p, at, ns, lk, k, i)
      requires if i == 0 then n !in nodes else nodes == ns && linked == lk
      modifies n
      ensures Inv() && LinksOk(head, ns, lk)
      ensures |n.next| == |old(n.next)| && i < |p.next| && n.next[i] == p.next[i]
    {
      if at > 0 {
        assert LinkOk(ns, lk, at - 1, i);
      } else {
        assert HeadOk(head, ns, lk, i);
      }
      n.next := n.next[i := p.next[i]];
      forall l: nat | l < MAX_HEIGHT
        ensures HeadOk(head, ns, lk, l)
      {
        assert old(HeadOk(head, ns, lk, l));
      }
      forall j: nat, l: nat | j < |ns| && l < MAX_HEIGHT
        ensures LinkOk(ns, lk, j, l)
      {
        assert old(LinkOk(ns, lk, j, l));
      }
    }
  }

  // ---------------------------------------------------------------- iterating

  class Iterator {
    const list: SkipList
    var node: Node?
    ghost var pos: nat

    ghost predicate Inv()
      reads this, list, list.head, list.nodes
    {
      list.Inv() && pos <= |list.nodes| && node == if pos < |list.nodes| then list.nodes[pos] else null
    }

    ghost function View(): Cursor<Entry>
      reads this, list
    {
      Cursor(list.Contents(), pos)
    }

    constructor (list: SkipList)
      requires list.Inv()
      ensures Inv() && !View().Valid() && this.list == list
    {
      this.list, node, pos := list, null, |list.nodes|;
    }

    method Next()
      requires Inv() && View().Valid()
      modifies this
      ensures Inv() && View() == old(View()).Next()
    {
      list.NextIs(node, pos + 1, 0);
      list.BottomIsAll(pos + 1);
      node, pos := node.next[0], pos + 1;
    }

    /** There are no backward links: stepping back is a search for the last node before this one's key. */
    method Prev()
      requires Inv() && View().Valid()
      modifies this
      ensures Inv() && View() == old(View()).Prev()
    {
      var before, _ := list.FindLessThan(node.entry.key);
      assert list.Contents()[pos] == node.entry;
      SeekIsPosition(list.Contents(), pos);
      node, pos := before, if pos == 0 then |list.nodes| else pos - 1;
      if node == list.head {
        node := null;
      }
    }

    method Seek(target: InternalKey)
      requires Inv()
      modifies this
      ensures Inv() && View() == SeekTo(old(View()), target)
    {
      var n, _, _ := list.FindGreaterOrEqual(target);
      node, pos := n, DbFormat.Seek(list.Contents(), target);
    }

    method SeekToFirst()
      requires Inv()
      modifies this
      ensures Inv() && View() == old(View()).First()
    {
      list.NextIs(list.head, 0, 0);
      list.BottomIsAll(0);
      node, pos := list.head.next[0], 0;
    }

    method SeekToLast()
      requires Inv()
      modifies this
      ensures Inv() && View() == old(View()).Last()
    {
      node := list.FindLast();
      pos := if |list.nodes| == 0 then 0 else |list.nodes| - 1;
      if node == list.head {
        node := null;
      }
    }
  }

  lemma SeekIsPosition(es: seq<Entry>, pos: nat)
    requires Sorted(es) && pos < |es|
    ensures Seek(es, es[pos].key) == pos
  {
    SeekSplits(es, es[pos].key, pos);
    LessIsTotalOrder(es[pos].key, es[pos].key, es[pos].key);
    if pos > 0 {
      SeekSplits(es, es[pos].key, pos - 1);
    }
  }

  /** `p` is where level `l` has to be cut to link node `k` in. */
  ghost predicate Precedes(head: Node, p: Node, at: nat, ns: seq<Node>, linked: map<Node, nat>, k: nat, l: nat) {
    && AllIn(ns, linked) && at <= k < |ns|
    && p == (if at == 0 then head else ns[at - 1])
    && (at > 0 ==> linked[p] > l)
    && First(ns[at..k], linked, l) == null
  }

  lemma NothingAbove(ns: seq<Node>, linked: map<Node, nat>, l: nat)
    requires forall n | n in ns :: n in linked && linked[n] <= l
    ensures First(ns, linked, l) == null
  {
    FirstIs(ns, linked, l, |ns|);
  }

  lemma InsertedNodes(nodes: seq<Node>, k: nat, n: Node, ns: seq<Node>)
    requires k <= |nodes| && ns == nodes[..k] + [n] + nodes[k..]
    ensures forall m | m in ns :: m in nodes || m == n
  {
  }

  /** The new node list holds the new entry where a sorted insertion puts it. */
  lemma InsertedShape(nodes: seq<Node>, k: nat, n: Node)
    requires Sorted(EntriesOf(nodes)) && Distinct(nodes) && n !in nodes
    requires k == Seek(EntriesOf(nodes), n.entry.key)
    requires forall e | e in EntriesOf(nodes) :: e.key != n.entry.key
    ensures EntriesOf(nodes[..k] + [n] + nodes[k..]) == DbFormat.Insert(EntriesOf(nodes), n.entry)
    ensures Sorted(EntriesOf(nodes[..k] + [n] + nodes[k..]))
  {
    InsertKeepsSorted(EntriesOf(nodes), n.entry);
    EntriesSplit(nodes, k, n);
  }

  lemma EntriesSplit(nodes: seq<Node>, k: nat, n: Node)
    requires k <= |nodes|
    ensures EntriesOf(nodes[..k] + [n] + nodes[k..]) == EntriesOf(nodes)[..k] + [n.entry] + EntriesOf(nodes)[k..]
  {
  }

  lemma BottomFirst(ns: seq<Node>, linked: map<Node, nat>)
    requires forall n | n in ns :: n in linked && linked[n] >= 1
    ensures ns != [] ==> First(ns, linked, 0) != null
  {
  }

  lemma SeekSplits(es: seq<Entry>, key: InternalKey, j: nat)
    requires Sorted(es) && j < |es|
    ensures Less(es[j].key, key) <==> j < Seek(es, key)
  {
    var i := Seek(es, key);
    if i < j {
      assert Less(es[i].key, es[j].key);
      LessIsTotalOrder(es[i].key, es[j].key, key);
    }
  }

  lemma SeekFindsKey(es: seq<Entry>, key: InternalKey)
    requires Sorted(es)
    ensures (exists e :: e in es && e.key == key) <==> Seek(es, key) < |es| && es[Seek(es, key)].key == key
  {
    var i := Seek(es, key);
    if e :| e in es && e.key == key {
      var j :| 0 <= j < |es| && es[j] == e;
      assert i <= j;
      assert !Less(es[i].key, es[j].key);
    }
  }
}
