/** The circular doubly linked list of live snapshots (db/snapshot.h). */
module Snapshots {
  import opened DbFormat

  class SnapshotImpl {
    const sequence: SequenceNumber
    var prev: SnapshotImpl?
    var next: SnapshotImpl?

    constructor (s: SequenceNumber)
      ensures sequence == s && prev == null && next == null
    {
      sequence, prev, next := s, null, null;
    }
  }

  ghost predicate JoinedAt(ring: seq<SnapshotImpl>, i: nat)
    requires i < |ring|
    reads ring
  {
    var after := if i + 1 < |ring| then ring[i + 1] else ring[0];
    ring[i].next == after && after.prev == ring[i]
  }

  ghost predicate Distinct(ring: seq<SnapshotImpl>) {
    forall i, j :: 0 <= i < j < |ring| ==> ring[i] != ring[j]
  }

  /** The nodes form one ring, linked both ways. */
  ghost predicate Linked(ring: seq<SnapshotImpl>)
    reads ring
  {
    Distinct(ring) && forall i :: 0 <= i < |ring| ==> JoinedAt(ring, i)
  }

  ghost predicate Ascending(nodes: seq<SnapshotImpl>) {
    forall i, j :: 0 <= i < j < |nodes| ==> nodes[i].sequence <= nodes[j].sequence
  }

  class SnapshotList {
    const head: SnapshotImpl
    /** The live snapshots, oldest first. */
    ghost var nodes: seq<SnapshotImpl>

    ghost predicate Valid()
      reads this, head, nodes
    {
      Linked([head] + nodes) && Ascending(nodes)
    }

    constructor ()
      ensures Valid() && nodes == [] && fresh(head)
    {
      head := new SnapshotImpl(0);
      nodes := [];
      new;
      head.prev, head.next := head, head;
    }

    predicate Empty()
      requires Valid()
      reads this, head, nodes
      ensures Empty() <==> nodes == []
    {
      assert JoinedAt([head] + nodes, 0);
      assert nodes != [] ==> ([head] + nodes)[1] == nodes[0];
      head.next == head
    }

    /** No live snapshot is older than this one. */
    method Oldest() returns (s: SnapshotImpl)
      requires Valid() && nodes != []
      ensures s in nodes && forall n :: n in nodes ==> s.sequence <= n.sequence
    {
      assert JoinedAt([head] + nodes, 0) && ([head] + nodes)[1] == nodes[0];
      s := head.next;
    }

    method Newest() returns (s: SnapshotImpl)
      requires Valid() && nodes != []
      ensures s == nodes[|nodes| - 1] && forall n :: n in nodes ==> n.sequence <= s.sequence
    {
      assert JoinedAt([head] + nodes, |nodes|) && ([head] + nodes)[|nodes|] == nodes[|nodes| - 1];
      s := head.prev;
    }

    /** Appends a snapshot, which must not be older than those already there. */
    method New(sequence: SequenceNumber) returns (s: SnapshotImpl)
      requires Valid() && forall n :: n in nodes ==> n.sequence <= sequence
      modifies this, head, nodes
      ensures Valid() && fresh(s) && s.sequence == sequence
      ensures nodes == old(nodes) + [s]
    {
      s := new SnapshotImpl(sequence);
      ghost var ring := [head] + nodes;
      assert JoinedAt(ring, |ring| - 1);
      s.next := head;
      s.prev := head.prev;
      s.prev.next := s;
      s.next.prev := s;
      nodes := nodes + [s];
      assert [head] + nodes == ring + [s];
      forall k | 0 <= k < |ring| + 1
        ensures JoinedAt(ring + [s], k)
      {
        assert k < |ring| - 1 ==> old(JoinedAt([head] + nodes, k));
      }
    }

    /** Unlinks a live snapshot; the others stay as they are. */
    method Delete(s: SnapshotImpl, ghost i: nat)
      requires Valid() && i < |nodes| && nodes[i] == s
      modifies this, head, nodes
      ensures Valid() && nodes == Without(old(nodes), i)
    {
      hide Without;
      ghost var ring := [head] + nodes;
      ghost var rest := Without(ring, i + 1);
      RingWithout(head, nodes, i);
      assert JoinedAt(ring, i) && JoinedAt(ring, i + 1) && ring[i + 1] == s;
      s.prev.next := s.next;
      s.next.prev := s.prev;
      nodes := Without(nodes, i);
      forall k | 0 <= k < |rest|
        ensures JoinedAt(rest, k)
      {
        WithoutAt(ring, i + 1, k);
        WithoutAt(ring, i + 1, if k + 1 < |rest| then k + 1 else 0);
        assert old(JoinedAt([head] + nodes, if k <= i then k else k + 1));
      }
    }
  }

  ghost function Without(nodes: seq<SnapshotImpl>, i: nat): (r: seq<SnapshotImpl>)
    requires i < |nodes|
    ensures |r| == |nodes| - 1
  {
    nodes[..i] + nodes[i + 1..]
  }

  lemma WithoutAt(nodes: seq<SnapshotImpl>, i: nat, k: nat)
    requires i < |nodes| && k < |nodes| - 1
    ensures Without(nodes, i)[k] == nodes[if k < i then k else k + 1]
  {
  }

  lemma RingWithout(head: SnapshotImpl, nodes: seq<SnapshotImpl>, i: nat)
    requires i < |nodes| && Distinct([head] + nodes) && Ascending(nodes)
    ensures [head] + Without(nodes, i) == Without([head] + nodes, i + 1)
    ensures Distinct([head] + Without(nodes, i)) && Ascending(Without(nodes, i))
  {
  }
}
