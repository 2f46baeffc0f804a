/**
  The block format: prefix-compressed entries with restart points (table/block_builder.cc, table/block.cc).
*/
module BlockFormat {
  import opened Base
  import opened Coding

  type Pair = (Bytes, Bytes)

  /** An entry of a block: where it starts, how many key bytes it shares with the one before, key and value. */
  datatype RawItem = RawItem(start: nat, shared: nat, key: Bytes, value: Bytes) {
    predicate Ok() {
      shared <= |key| && |key| < 0x1_0000_0000 && |value| < 0x1_0000_0000
    }

    function Head(): Bytes
      requires Ok()
    {
      EncodeVarint(shared) + EncodeVarint(|key| - shared) + EncodeVarint(|value|)
    }

    function Encoded(): Bytes
      requires Ok()
    {
      Head() + (key[shared..] + value)
    }

    function End(): nat
      requires Ok()
    {
      start + |Encoded()|
    }
  }

  type Item = it: RawItem | it.Ok() witness RawItem(0, 0, [], [])

  function EndOf(items: seq<Item>): nat {
    if items == [] then 0 else items[|items| - 1].End()
  }

  /** Where entry `i` starts, or where the entries end. */
  function StartOf(items: seq<Item>, i: nat): nat
    requires i <= |items|
  {
    if i < |items| then items[i].start else EndOf(items)
  }

  /** Entry `i` starts where the one before it ends and shares only what is there. */
  predicate Follows(items: seq<Item>, i: nat) {
    i < |items| ==>
      if i == 0 then items[i].start == 0 && items[i].shared == 0
      else items[i].start == items[i - 1].End() && SharedInHand(items[i], items[i - 1].key)
  }

  /** The key in hand starts with what the entry shares with its predecessor. */
  predicate SharedInHand(it: Item, key: Bytes) {
    it.shared <= |key| && key[..it.shared] == it.key[..it.shared]
  }

  ghost predicate ItemAt(buffer: Bytes, items: seq<Item>, i: nat) {
    && i < |items| && items[i].End() <= |buffer|
    && buffer[items[i].start..items[i].End()] == items[i].Encoded()
    && Follows(items, i)
  }

  ghost predicate BodyOk(buffer: Bytes, items: seq<Item>) {
    |buffer| == EndOf(items) && forall i: nat | i < |items| :: ItemAt(buffer, items, i)
  }

  /** Restart `j` points at entry `marks[j]`, which shares nothing; restarts are `interval` entries apart. */
  ghost predicate RestartAt(items: seq<Item>, restarts: seq<nat>, marks: seq<nat>, interval: nat, j: nat)
  {
    && j < |restarts| && j < |marks| && marks[j] <= |items|
    && restarts[j] == StartOf(items, marks[j])
    && (marks[j] < |items| ==> items[marks[j]].shared == 0)
    && (if j == 0 then marks[0] == 0 else marks[j] == marks[j - 1] + interval && marks[j] < |items|)
  }

  ghost predicate RestartsOk(items: seq<Item>, restarts: seq<nat>, marks: seq<nat>, interval: nat)
  {
    |restarts| == |marks| >= 1 && forall j: nat | j < |marks| :: RestartAt(items, restarts, marks, interval, j)
  }

  function PairsOf(items: seq<Item>): (ps: seq<Pair>)
    ensures |ps| == |items|
  {
    seq(|items|, i requires 0 <= i < |items| => (items[i].key, items[i].value))
  }

  // ---------------------------------------------------------------- growing a block

  lemma ItemExtends(buffer: Bytes, more: Bytes, items: seq<Item>, it: Item, i: nat)
    requires ItemAt(buffer, items, i)
    ensures ItemAt(buffer + more, items + [it], i)
  {
    var a, b := items[i].start, items[i].End();
    assert (buffer + more)[a..b] == buffer[a..b];
  }

  lemma AppendItem(buffer: Bytes, items: seq<Item>, it: Item)
    requires BodyOk(buffer, items) && it.start == |buffer|
    requires if items == [] then it.shared == 0 else SharedInHand(it, items[|items| - 1].key)
    ensures BodyOk(buffer + it.Encoded(), items + [it])
  {
    var items' := items + [it];
    forall i: nat | i < |items'|
      ensures ItemAt(buffer + it.Encoded(), items', i)
    {
      if i < |items| {
        ItemExtends(buffer, it.Encoded(), items, it, i);
      } else {
        assert items'[..i] == items;
        assert (buffer + it.Encoded())[|buffer|..|buffer| + |it.Encoded()|] == it.Encoded();
      }
    }
  }

  lemma RestartExtends(items: seq<Item>, restarts: seq<nat>, marks: seq<nat>, interval: nat, it: Item, j: nat)
    requires RestartAt(items, restarts, marks, interval, j)
    requires (items == [] ==> it.shared == 0) && it.start == EndOf(items)
    requires j < |marks| && (marks[j] < |items| || items == [])
    ensures RestartAt(items + [it], restarts, marks, interval, j)
  {
    assert (items + [it])[..marks[j]] == items[..marks[j]];
  }

  /** Adding an entry keeps the restart points, and one that shares nothing can become one. */
  lemma AppendKeepsRestarts(items: seq<Item>, restarts: seq<nat>, marks: seq<nat>, interval: nat, it: Item)
    requires RestartsOk(items, restarts, marks, interval)
    requires (items == [] ==> it.shared == 0 && |marks| == 1) && it.start == EndOf(items)
    ensures RestartsOk(items + [it], restarts, marks, interval)
    ensures items != [] && it.shared == 0 && |items| == marks[|marks| - 1] + interval ==>
              RestartsOk(items + [it], restarts + [EndOf(items)], marks + [|items|], interval)
  {
    forall j: nat | j < |marks|
      ensures RestartAt(items + [it], restarts, marks, interval, j)
    {
      MarkInside(items, restarts, marks, interval, j);
      RestartExtends(items, restarts, marks, interval, it, j);
    }
    if items != [] && it.shared == 0 && |items| == marks[|marks| - 1] + interval {
      var restarts', marks' := restarts + [EndOf(items)], marks + [|items|];
      forall j: nat | j < |marks'|
        ensures RestartAt(items + [it], restarts', marks', interval, j)
      {
        if j < |marks| {
          assert RestartAt(items + [it], restarts, marks, interval, j);
        } else {
          assert (items + [it])[..|items|] == items;
        }
      }
    }
  }

  lemma MarkInside(items: seq<Item>, restarts: seq<nat>, marks: seq<nat>, interval: nat, j: nat)
    requires RestartsOk(items, restarts, marks, interval) && j < |marks|
    requires items == [] ==> |marks| == 1
    ensures items != [] ==> marks[j] < |items|
    ensures items == [] ==> j == 0 && marks[j] == 0
    ensures RestartAt(items, restarts, marks, interval, j)
  {
    assert RestartAt(items, restarts, marks, interval, j);
  }

  // ---------------------------------------------------------------- the finished block

  predicate Small(restarts: seq<nat>) {
    forall j: nat | j < |restarts| :: restarts[j] < 0x1_0000_0000
  }

  function RestartArray(restarts: seq<nat>): Bytes
    requires Small(restarts)
  {
    if restarts == [] then [] else RestartArray(restarts[..|restarts| - 1]) + EncodeFixed32(restarts[|restarts| - 1])
  }

  lemma {:induction false} RestartArrayAt(restarts: seq<nat>, j: nat)
    requires Small(restarts) && j < |restarts|
    ensures |RestartArray(restarts)| == 4 * |restarts|
    ensures RestartArray(restarts)[4 * j..4 * j + 4] == EncodeFixed32(restarts[j])
  {
    var n := |restarts| - 1;
    if n == 0 {
      assert restarts[..0] == [];
    } else {
      RestartArrayAt(restarts[..n], if j < n then j else 0);
      if j < n {
        assert RestartArray(restarts)[4 * j..4 * j + 4] == RestartArray(restarts[..n])[4 * j..4 * j + 4];
      }
    }
  }

  /** A whole block: entries, the restart array, the number of restarts. */
  ghost predicate BlockOk(data: Bytes, items: seq<Item>, restarts: seq<nat>, marks: seq<nat>, interval: nat) {
    && RestartsOk(items, restarts, marks, interval)
    && Small(restarts) && |restarts| < 0x1_0000_0000
    && |data| < 0x1_0000_0000
    && EndOf(items) + 4 * |restarts| + 4 == |data|
    && BodyOk(data[..EndOf(items)], items)
    && data[EndOf(items)..|data| - 4] == RestartArray(restarts)
    && data[|data| - 4..] == EncodeFixed32(|restarts|)
    && (items == [] ==> |restarts| == 1)
  }

  /** Keys strictly ascend in the comparator's order. */
  ghost predicate Ascending(items: seq<Item>, less: (Bytes, Bytes) -> bool) {
    forall i: nat, j: nat | i < j < |items| :: Precedes(items, less, i, j)
  }

  ghost predicate Precedes(items: seq<Item>, less: (Bytes, Bytes) -> bool, i: nat, j: nat) {
    i < j < |items| ==> less(items[i].key, items[j].key)
  }

  ghost predicate Transitive(less: (Bytes, Bytes) -> bool) {
    forall a, b, c :: Chains(less, a, b, c)
  }

  predicate Chains(less: (Bytes, Bytes) -> bool, a: Bytes, b: Bytes, c: Bytes) {
    less(a, b) && less(b, c) ==> less(a, c)
  }

  class BlockBuilder {
    const interval: nat
    const less: (Bytes, Bytes) -> bool
    var buffer: Bytes
    var restarts: seq<nat>
    var counter: nat
    var finished: bool
    var lastKey: Bytes
    ghost var items: seq<Item>
    ghost var marks: seq<nat>

    /** The bytes so far and the restart points are those of the entries added. */
    ghost predicate Formatted()
      reads this
    {
      && interval >= 1 && BodyOk(buffer, items) && RestartsOk(items, restarts, marks, interval)
      && counter + marks[|marks| - 1] == |items| && counter <= interval
      && (items == [] ==> |marks| == 1)
    }

    ghost predicate Valid()
      reads this
    {
      && Formatted() && Transitive(less) && Ascending(items, less)
      && lastKey == (if items == [] then [] else items[|items| - 1].key)
    }

    constructor (interval: nat, less: (Bytes, Bytes) -> bool)
      requires interval >= 1 && Transitive(less)
      ensures Valid() && items == [] && !finished && this.interval == interval && this.less == less
    {
      this.interval, this.less := interval, less;
      buffer, restarts, counter, finished, lastKey := [], [0], 0, false, [];
      items, marks := [], [0];
      new;
      assert RestartAt(items, restarts, marks, interval, 0);
    }

    /** How many leading bytes the key shares with the last one. */
    method SharedLength(key: Bytes) returns (shared: nat)
      ensures shared <= |key| && shared <= |lastKey| && key[..shared] == lastKey[..shared]
      ensures shared < |key| && shared < |lastKey| ==> key[shared] != lastKey[shared]
    {
      var minLength := if |lastKey| < |key| then |lastKey| else |key|;
      shared := 0;
      while shared < minLength && lastKey[shared] == key[shared]
        invariant shared <= minLength && key[..shared] == lastKey[..shared]
      {
        shared := shared + 1;
      }
    }

    /** Appends one entry, whose key comes after all those added before. */
    method Add(key: Bytes, value: Bytes)
      requires Valid() && !finished && (items != [] ==> less(lastKey, key))
      requires |key| < 0x1_0000_0000 && |value| < 0x1_0000_0000
      modifies this
      ensures Valid() && !finished
      ensures PairsOf(items) == old(PairsOf(items)) + [(key, value)]
    {
      var shared := 0;
      if counter < interval {
        shared := SharedLength(key);
      }
      ghost var it := RawItem(|buffer|, shared, key, value);
      AppendAscending(items, it, less);
      Rejoins(lastKey, key, shared);
      PairsAppend(items, it);
      AppendEntry(it, shared, key, value);
      lastKey := lastKey[..shared] + key[shared..];
    }

    method AppendEntry(ghost it: Item, shared: nat, key: Bytes, value: Bytes)
      requires Formatted() && it == RawItem(|buffer|, shared, key, value) && (counter >= interval ==> shared == 0)
      requires if items == [] then shared == 0 else SharedInHand(it, items[|items| - 1].key)
      modifies this`buffer, this`restarts, this`counter, this`items, this`marks
      ensures items == old(items) + [it] && Formatted()
    {
      ghost var marked := AddMarks(it);
      AppendBytes(it, shared, key, value);
      items := items + [it];
      counter := counter + 1;
    }

    /** Starts a new restart region once `interval` entries were compressed against one another. */
    method AddMarks(ghost it: Item) returns (ghost marked: bool)
      requires Formatted() && it.start == |buffer| && (counter >= interval || items == [] ==> it.shared == 0)
      modifies this`restarts, this`counter, this`marks
      ensures RestartsOk(items + [it], restarts, marks, interval)
      ensures counter + marks[|marks| - 1] == |items| && counter < interval
      ensures marked <==> old(counter) >= interval
      ensures if marked then restarts == old(restarts) + [|buffer|] && counter == 0 else restarts == old(restarts) && counter == old(counter)
    {
      AppendKeepsRestarts(items, restarts, marks, interval, it);
      marked := counter >= interval;
      if counter >= interval {
        restarts := restarts + [|buffer|];
        counter := 0;
        marks := marks + [|items|];
      }
    }

    method AppendBytes(ghost it: Item, shared: nat, key: Bytes, value: Bytes)
      requires BodyOk(buffer, items) && it == RawItem(|buffer|, shared, key, value)
      requires if items == [] then shared == 0 else SharedInHand(it, items[|items| - 1].key)
      modifies this`buffer
      ensures buffer == old(buffer) + it.Encoded() && BodyOk(buffer, items + [it])
    {
      AppendItem(buffer, items, it);
      EncodedInPieces(buffer, it);
      buffer := buffer + EncodeVarint(shared) + EncodeVarint(|key| - shared) + EncodeVarint(|value|);
      buffer := buffer + key[shared..] + value;
    }

    /** Appends the restart array and its length. */
    method Finish() returns (data: Bytes)
      requires Valid() && !finished
      requires |buffer| + 4 * |restarts| + 4 < 0x1_0000_0000
      modifies this`buffer, this`finished
      ensures BlockOk(data, items, restarts, marks, interval)
    {
      ghost var body := buffer;
      RestartsInside(buffer, items, restarts, marks, interval);
      for i := 0 to |restarts|
        invariant Small(restarts[..i]) && buffer == body + RestartArray(restarts[..i])
      {
        assert restarts[..i + 1][..i] == restarts[..i];
        buffer := buffer + EncodeFixed32(restarts[i]);
      }
      assert restarts[..|restarts|] == restarts;
      RestartArrayAt(restarts, 0);
      buffer := buffer + EncodeFixed32(|restarts|);
      finished := true;
      data := buffer;
      FinishedBlock(body, restarts, data);
    }
  }

  lemma Rejoins(lastKey: Bytes, key: Bytes, shared: nat)
    requires shared <= |key| && shared <= |lastKey| && key[..shared] == lastKey[..shared]
    ensures lastKey[..shared] + key[shared..] == key
  {
  }

  lemma PairsAppend(items: seq<Item>, it: Item)
    ensures PairsOf(items + [it]) == PairsOf(items) + [(it.key, it.value)]
    ensures (items + [it])[|items|] == it && |items + [it]| == |items| + 1
  {
  }

  lemma EncodedInPieces(buffer: Bytes, it: Item)
    ensures buffer + EncodeVarint(it.shared) + EncodeVarint(|it.key| - it.shared) + EncodeVarint(|it.value|)
              + it.key[it.shared..] + it.value
         == buffer + it.Encoded()
  {
  }

  lemma AppendAscending(items: seq<Item>, it: Item, less: (Bytes, Bytes) -> bool)
    requires Ascending(items, less) && Transitive(less) && (items != [] ==> less(items[|items| - 1].key, it.key))
    ensures Ascending(items + [it], less)
  {
    forall i: nat, j: nat | i < j < |items + [it]|
      ensures Precedes(items + [it], less, i, j)
    {
      if j < |items| {
        assert Precedes(items, less, i, j);
      } else if i < |items| - 1 {
        assert Precedes(items, less, i, |items| - 1);
        assert Chains(less, items[i].key, items[|items| - 1].key, it.key);
      }
    }
  }

  lemma StartsInside(buffer: Bytes, items: seq<Item>, i: nat)
    requires BodyOk(buffer, items) && i <= |items|
    ensures StartOf(items, i) <= |buffer|
    ensures i < |items| ==> items[i].start == StartOf(items, i) < StartOf(items, i + 1)
  {
    if i < |items| {
      assert ItemAt(buffer, items, i);
    }
    if i + 1 < |items| {
      assert ItemAt(buffer, items, i + 1);
    }
  }

  lemma RestartsInside(buffer: Bytes, items: seq<Item>, restarts: seq<nat>, marks: seq<nat>, interval: nat)
    requires BodyOk(buffer, items) && RestartsOk(items, restarts, marks, interval) && |buffer| < 0x1_0000_0000
    ensures Small(restarts)
  {
    forall j: nat | j < |restarts|
      ensures restarts[j] < 0x1_0000_0000
    {
      assert RestartAt(items, restarts, marks, interval, j);
      StartsInside(buffer, items, marks[j]);
    }
  }

  lemma FinishedBlock(body: Bytes, restarts: seq<nat>, data: Bytes)
    requires Small(restarts) && |restarts| < 0x1_0000_0000
    requires data == body + RestartArray(restarts) + EncodeFixed32(|restarts|)
    ensures data[..|body|] == body
    ensures data[|body|..|data| - 4] == RestartArray(restarts) && data[|data| - 4..] == EncodeFixed32(|restarts|)
  {
  }
}
