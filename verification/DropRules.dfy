/**
  What a compaction may forget.  The loop of DoCompactionWork drops an entry when a newer one for the
  same key is already visible to every snapshot, or when it is a deletion with nothing below it.
  This module says exactly when that keeps every read (db/db_impl.cc, db/version_set.cc).
*/
module DropRules {
  import opened Base
  import opened DbFormat
  import opened Reads
  import opened Versions
  import opened Picking
  import opened CompactionPicking

  /** Sequence of the entry just before position `i` if it has the same user key; the maximum otherwise. */
  function LastSequenceForKey(input: seq<Entry>, i: nat): SequenceNumber
    requires i < |input|
  {
    if i > 0 && input[i - 1].key.user == input[i].key.user then input[i - 1].key.sequence else MAX_SEQUENCE
  }

  ghost predicate Drops(input: seq<Entry>, i: nat, ss: SequenceNumber, v: Version, level: nat)
    requires i < |input|
  {
    var e := input[i].key;
    || LastSequenceForKey(input, i) <= ss
    || (e.kind.Deletion? && e.sequence <= ss && IsBase(v, level, e.user))
  }

  /** The first `n` input entries with the dropped ones left out. */
  ghost function Kept(input: seq<Entry>, n: nat, ss: SequenceNumber, v: Version, level: nat): seq<Entry>
    requires n <= |input|
  {
    if n == 0 then []
    else
      Kept(input, n - 1, ss, v, level) + if Drops(input, n - 1, ss, v, level) then [] else [input[n - 1]]
  }

  // ---------------------------------------------------------------- the rules without an order

  ghost predicate Hidden(S: set<Entry>, e: Entry, ss: SequenceNumber) {
    exists p :: p in S && p.key.user == e.key.user && e.key.sequence < p.key.sequence <= ss
  }

  ghost predicate Obsolete(e: Entry, ss: SequenceNumber, v: Version, level: nat) {
    e.key.kind.Deletion? && e.key.sequence <= ss && IsBase(v, level, e.key.user)
  }

  ghost function Survivors(S: set<Entry>, ss: SequenceNumber, v: Version, level: nat): set<Entry> {
    set e | e in S && !Hidden(S, e, ss) && !Obsolete(e, ss, v, level)
  }

  lemma DropsByPosition(input: seq<Entry>, i: nat, ss: SequenceNumber, v: Version, level: nat)
    requires Sorted(input) && UniqueSeqs(Elems(input)) && i < |input| && ss < MAX_SEQUENCE
    ensures Drops(input, i, ss, v, level)
       <==> Hidden(Elems(input), input[i], ss) || Obsolete(input[i], ss, v, level)
  {
    var e := input[i];
    if i > 0 && input[i - 1].key.user == e.key.user {
      var p := input[i - 1];
      assert Less(p.key, e.key) && p in Elems(input) && e in Elems(input);
      assert p.key.sequence > e.key.sequence;
    }
    if Hidden(Elems(input), e, ss) {
      var p :| p in Elems(input) && p.key.user == e.key.user && e.key.sequence < p.key.sequence <= ss;
      var j :| 0 <= j < |input| && input[j] == p;
      HiddenByPredecessor(input, j, i);
    }
  }

  lemma HiddenByPredecessor(input: seq<Entry>, j: nat, i: nat)
    requires Sorted(input) && i < |input| && j < |input|
    requires input[j].key.user == input[i].key.user && input[j].key.sequence > input[i].key.sequence
    ensures j < i && input[i - 1].key.user == input[i].key.user
    ensures input[i - 1].key.sequence <= input[j].key.sequence
  {
    if j < i - 1 {
      assert Less(input[j].key, input[i - 1].key) && Less(input[i - 1].key, input[i].key);
    }
  }

  /** The loop's order-dependent rules keep exactly the survivors, still in order. */
  lemma {:induction false} KeptIsSurvivors(input: seq<Entry>, n: nat, ss: SequenceNumber, v: Version, level: nat)
    requires Sorted(input) && UniqueSeqs(Elems(input)) && n <= |input| && ss < MAX_SEQUENCE
    ensures Sorted(Kept(input, n, ss, v, level))
    ensures forall e :: e in Kept(input, n, ss, v, level) <==>
                        (e in input[..n] && !Hidden(Elems(input), e, ss) && !Obsolete(e, ss, v, level))
  {
    hide Hidden, Obsolete, UniqueSeqs;
    if n > 0 {
      var i := n - 1;
      var front := Kept(input, i, ss, v, level);
      KeptIsSurvivors(input, i, ss, v, level);
      DropsByPosition(input, i, ss, v, level);
      assert input[..n] == input[..i] + [input[i]];
      forall e | e in front
        ensures Less(e.key, input[i].key)
      {
        var j :| 0 <= j < i && input[j] == e;
      }
      if !Drops(input, i, ss, v, level) {
        SortedConcat(front, [input[i]]);
      }
    }
  }

  lemma KeptAll(input: seq<Entry>, ss: SequenceNumber, v: Version, level: nat)
    requires Sorted(input) && UniqueSeqs(Elems(input)) && ss < MAX_SEQUENCE
    ensures Sorted(Kept(input, |input|, ss, v, level))
    ensures Elems(Kept(input, |input|, ss, v, level)) == Survivors(Elems(input), ss, v, level)
  {
    KeptIsSurvivors(input, |input|, ss, v, level);
    assert input[..|input|] == input;
  }

  /** A smallest snapshot at the largest sequence number makes every entry look hidden, the newest of a key too. */
  lemma {:induction false} NothingKeptAtMaximum(input: seq<Entry>, n: nat, v: Version, level: nat)
    requires n <= |input|
    ensures Kept(input, n, MAX_SEQUENCE, v, level) == []
  {
    if n > 0 {
      NothingKeptAtMaximum(input, n - 1, v, level);
      assert LastSequenceForKey(input, n - 1) <= MAX_SEQUENCE;
    }
  }

  /** The running rules keep the survivors exactly if the smallest snapshot is below the maximum, or none survive. */
  lemma KeptIffBelowMaximum(input: seq<Entry>, ss: SequenceNumber, v: Version, level: nat)
    requires Sorted(input) && UniqueSeqs(Elems(input))
    ensures Elems(Kept(input, |input|, ss, v, level)) == Survivors(Elems(input), ss, v, level)
       <==> ss < MAX_SEQUENCE || Survivors(Elems(input), ss, v, level) == {}
  {
    if ss < MAX_SEQUENCE {
      KeptAll(input, ss, v, level);
    } else {
      NothingKeptAtMaximum(input, |input|, v, level);
      assert Elems([]) == {};
    }
  }

  /** A single value in the store, compacted with that snapshot, is lost. */
  lemma ValueLostAtMaximum(e: Entry, v: Version, level: nat)
    requires e.key.kind.Value?
    ensures Kept([e], 1, MAX_SEQUENCE, v, level) == [] && Survivors(Elems([e]), MAX_SEQUENCE, v, level) == {e}
  {
    NothingKeptAtMaximum([e], 1, v, level);
    assert Elems([e]) == {e};
  }

  // ---------------------------------------------------------------- exactly when reads are kept

  /** A deletion is forgotten although an older value for its key stays behind among the `rest`. */
  ghost predicate Resurrects(rest: set<Entry>, inputs: set<Entry>, ss: SequenceNumber, v: Version, level: nat, k: UserKey) {
    var t := Newest(rest + inputs, k, ss);
    && t.Some? && t.value in inputs && t.value.key.kind.Deletion?
    && IsBase(v, level, k)
    && Read(rest, k, t.value.key.sequence).Some?
  }

  ghost predicate ReadsKept(before: set<Entry>, after: set<Entry>, ss: SequenceNumber) {
    forall k: UserKey, s: SequenceNumber | ss <= s :: Read(after, k, s) == Read(before, k, s)
  }

  lemma SurvivorsKeepRead(rest: set<Entry>, inputs: set<Entry>, ss: SequenceNumber, v: Version, level: nat,
                          k: UserKey, s: SequenceNumber)
    requires UniqueSeqs(rest + inputs) && ss <= s
    requires !Resurrects(rest, inputs, ss, v, level, k)
    ensures Read(rest + Survivors(inputs, ss, v, level), k, s) == Read(rest + inputs, k, s)
  {
    var before, after := rest + inputs, rest + Survivors(inputs, ss, v, level);
    NewestIsNone(before, k, s);
    match Newest(before, k, s)
    case None =>
      NewestOfSubset(before, after, k, s);
    case Some(n) =>
      if n in after {
        NewestOfSubset(before, after, k, s);
      } else {
        assert Obsolete(n, ss, v, level);
        assert IsNewest(before, k, ss, n);
        NewestIs(before, k, ss, n);
        OnlyRestIsLeft(rest, inputs, ss, v, level, k, s, n);
      }
  }

  /** Once the newest visible entry was dropped as obsolete, only entries outside the inputs can still answer. */
  lemma OnlyRestIsLeft(rest: set<Entry>, inputs: set<Entry>, ss: SequenceNumber, v: Version, level: nat,
                       k: UserKey, s: SequenceNumber, t: Entry)
    requires UniqueSeqs(rest + inputs) && ss <= s
    requires t in inputs && t !in rest && t.key.sequence <= ss
    requires Newest(rest + inputs, k, s) == Some(t)
    requires Obsolete(t, ss, v, level)
    ensures Newest(rest + Survivors(inputs, ss, v, level), k, s) == Newest(rest, k, t.key.sequence)
  {
    var after := rest + Survivors(inputs, ss, v, level);
    forall x | x in after && Matches(x, k, s)
      ensures x in rest && Matches(x, k, t.key.sequence)
    {
      assert x in rest + inputs;
    }
    NewestIsNone(rest, k, t.key.sequence);
    NewestIsNone(after, k, s);
    match Newest(rest, k, t.key.sequence)
    case Some(g) =>
      assert IsNewest(after, k, s, g);
      NewestIs(after, k, s, g);
    case None =>
  }

  /**
    Compacting `inputs` next to an untouched `rest` keeps every read at or above the smallest
    snapshot if and only if no dropped deletion still has an older value of its key in the rest.
  */
  lemma ReadsKeptIff(rest: set<Entry>, inputs: set<Entry>, ss: SequenceNumber, v: Version, level: nat)
    requires UniqueSeqs(rest + inputs)
    ensures ReadsKept(rest + inputs, rest + Survivors(inputs, ss, v, level), ss)
       <==> forall k: UserKey :: !Resurrects(rest, inputs, ss, v, level, k)
  {
    var before, after := rest + inputs, rest + Survivors(inputs, ss, v, level);
    if k: UserKey :| Resurrects(rest, inputs, ss, v, level, k) {
      var t := Newest(before, k, ss).value;
      NewestIsNone(rest, k, t.key.sequence);
      if t in rest {
        assert IsNewest(rest, k, t.key.sequence, t);
        NewestIs(rest, k, t.key.sequence, t);
        assert false;
      }
      OnlyRestIsLeft(rest, inputs, ss, v, level, k, ss, t);
      assert Read(after, k, ss) != Read(before, k, ss);
    } else {
      forall k: UserKey, s: SequenceNumber | ss <= s
        ensures Read(after, k, s) == Read(before, k, s)
      {
        SurvivorsKeepRead(rest, inputs, ss, v, level, k, s);
      }
    }
  }
}
