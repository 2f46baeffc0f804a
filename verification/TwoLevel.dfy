/**
  The two-level iterator: an index over blocks and a cursor inside one block, with empty blocks
  skipped in either direction (table/two_level_iterator.cc).
*/
module TwoLevel {
  import opened Base
  import opened DbFormat
  import opened Reads
  import opened Cursors
  import opened Merging

  function Flatten(blocks: seq<seq<Entry>>): seq<Entry> {
    if blocks == [] then [] else Flatten(blocks[..|blocks| - 1]) + blocks[|blocks| - 1]
  }

  /** Position in the concatenation where block `i` starts. */
  function Offset(blocks: seq<seq<Entry>>, i: nat): nat
    requires i <= |blocks|
  {
    |Flatten(blocks[..i])|
  }

  lemma {:induction false} FlattenSplits(blocks: seq<seq<Entry>>, i: nat)
    requires i <= |blocks|
    ensures Flatten(blocks) == Flatten(blocks[..i]) + Flatten(blocks[i..])
    decreases |blocks|
  {
    var n := |blocks| - 1;
    if i == |blocks| {
      assert blocks[..i] == blocks && blocks[i..] == [];
    } else {
      FlattenSplits(blocks[..n], i);
      assert blocks[..n][..i] == blocks[..i];
      assert blocks[i..][..|blocks[i..]| - 1] == blocks[..n][i..];
    }
  }

  lemma BlockSplit(blocks: seq<seq<Entry>>, i: nat)
    requires i < |blocks|
    ensures Flatten(blocks[..i + 1]) == Flatten(blocks[..i]) + blocks[i]
    ensures Flatten(blocks) == Flatten(blocks[..i]) + blocks[i] + Flatten(blocks[i + 1..])
  {
    FlattenSplits(blocks, i + 1);
    var front := blocks[..i + 1];
    assert front[..|front| - 1] == blocks[..i];
  }

  /** Block `i` occupies its stretch of the concatenation. */
  lemma BlockAt(blocks: seq<seq<Entry>>, i: nat)
    requires i < |blocks|
    ensures Offset(blocks, i + 1) == Offset(blocks, i) + |blocks[i]|
    ensures Offset(blocks, i + 1) <= |Flatten(blocks)|
    ensures forall p | 0 <= p < |blocks[i]| :: Flatten(blocks)[Offset(blocks, i) + p] == blocks[i][p]
  {
    hide Flatten;
    BlockSplit(blocks, i);
    forall p | 0 <= p < |blocks[i]|
      ensures Flatten(blocks)[Offset(blocks, i) + p] == blocks[i][p]
    {
      MiddleItem(Flatten(blocks[..i]), blocks[i], Flatten(blocks[i + 1..]), p);
    }
  }

  lemma MiddleItem(a: seq<Entry>, b: seq<Entry>, c: seq<Entry>, p: nat)
    requires p < |b|
    ensures (a + b + c)[|a| + p] == b[p]
  {
  }

  lemma LastOffset(blocks: seq<seq<Entry>>)
    ensures Offset(blocks, |blocks|) == |Flatten(blocks)|
    ensures Offset(blocks, 0) == 0
  {
    assert blocks[..|blocks|] == blocks;
  }

  lemma {:induction false} OffsetsIncrease(blocks: seq<seq<Entry>>, i: nat, j: nat)
    requires i <= j <= |blocks|
    ensures Offset(blocks, i) <= Offset(blocks, j)
    decreases j
  {
    if i < j {
      OffsetsIncrease(blocks, i, j - 1);
      BlockAt(blocks, j - 1);
    }
  }

  /** The index key of a block is at or after everything in it and before everything in later blocks. */
  ghost predicate Indexed(blocks: seq<seq<Entry>>, index: seq<InternalKey>) {
    && |index| == |blocks|
    && Sorted(Flatten(blocks))
    && (forall i, e | 0 <= i < |blocks| && e in blocks[i] :: !Less(index[i], e.key))
    && (forall i, j, e | 0 <= i < j < |blocks| && e in blocks[j] :: Less(index[i], e.key))
    && (forall i, j | 0 <= i < j < |index| :: Less(index[i], index[j]))
  }

  /** The index iterator's seek: the first block whose index key is at or after the target. */
  function SeekIndex(index: seq<InternalKey>, target: InternalKey): (i: nat)
    ensures i <= |index|
    ensures forall j | 0 <= j < i :: Less(index[j], target)
    ensures i < |index| ==> !Less(index[i], target)
  {
    if index == [] || !Less(index[0], target) then 0 else 1 + SeekIndex(index[1..], target)
  }

  class TwoLevelIterator {
    const blocks: seq<seq<Entry>>
    const index: seq<InternalKey>
    var block: nat
    var data: Option<Cursor<Entry>>
    var handle: nat

    /** The data cursor, if any, runs over the block named by the remembered handle. */
    ghost predicate Sane()
      reads this
    {
      && Indexed(blocks, index) && block <= |blocks|
      && (data.Some? ==> handle < |blocks| && data.value.list == blocks[handle] && data.value.Ok())
      && (block < |blocks| ==> data.Some? && handle == block)
      && (block == |blocks| ==> data == None)
    }

    ghost predicate Inv()
      reads this
    {
      Sane() && (data == None || data.value.Valid())
    }

    /** What the iterator looks like from outside: a cursor on the concatenation. */
    ghost function View(): Cursor<Entry>
      reads this
      requires Inv()
    {
      Cursor(Flatten(blocks), if data == None then |Flatten(blocks)| else Offset(blocks, handle) + data.value.pos)
    }

    constructor (blocks: seq<seq<Entry>>, index: seq<InternalKey>)
      requires Indexed(blocks, index)
      ensures Inv() && this.blocks == blocks && this.index == index && !View().Valid()
    {
      this.blocks, this.index := blocks, index;
      block, data, handle := |blocks|, None, 0;
    }

    lemma ViewFacts()
      requires Inv()
      ensures data.Some? <==> View().Valid()
      ensures data.Some? ==> View().Current() == data.value.Current()
    {
      hide Flatten, Less;
      if data.Some? {
        BlockAt(blocks, handle);
      }
    }

    method Valid() returns (b: bool)
      requires Inv()
      ensures b == View().Valid()
    {
      ViewFacts();
      b := data.Some? && data.value.Valid();
    }

    method Current() returns (e: Entry)
      requires Inv() && View().Valid()
      ensures e == View().Current()
    {
      ViewFacts();
      e := data.value.Current();
    }

    /** Points the data cursor at the block under the index; a cursor already on that block is kept where it is. */
    method InitDataBlock()
      requires Indexed(blocks, index) && block <= |blocks|
      requires data.Some? ==> handle < |blocks| && data.value.list == blocks[handle] && data.value.Ok()
      modifies this`data, this`handle
      ensures Sane()
    {
      if block >= |blocks| {
        data := None;
      } else if data.Some? && handle == block {
      } else {
        data, handle := Some(Cursor(blocks[block], |blocks[block]|)), block;
      }
    }

    /** Ends at the first entry at or after concatenation position `p`, however many empty blocks lie between. */
    method SkipEmptyDataBlocksForward(ghost p: nat)
      requires Sane() && p <= |Flatten(blocks)|
      requires block == |blocks| ==> p == |Flatten(blocks)|
      requires block < |blocks| ==> p == Offset(blocks, block) + data.value.pos
      modifies this
      ensures Inv() && View().pos == p
    {
      LastOffset(blocks);
      while data == None || !data.value.Valid()
        invariant Sane()
        invariant block == |blocks| ==> p == |Flatten(blocks)|
        invariant block < |blocks| ==> p == Offset(blocks, block) + data.value.pos
        decreases |blocks| - block
      {
        if block >= |blocks| {
          data := None;
          return;
        }
        BlockAt(blocks, block);
        block := block + 1;
        InitDataBlock();
        if data.Some? {
          data := Some(data.value.First());
        }
      }
    }

    /** Ends at the last entry before concatenation position `p`. */
    method SkipEmptyDataBlocksBackward(ghost p: nat)
      requires Sane() && p <= |Flatten(blocks)|
      requires block == |blocks| ==> p == 0
      requires block < |blocks| ==> p == Offset(blocks, block) + if data.value.Valid() then data.value.pos + 1 else 0
      modifies this
      ensures Inv() && View().pos == if p == 0 then |Flatten(blocks)| else p - 1
    {
      while data == None || !data.value.Valid()
        invariant Sane()
        invariant block == |blocks| ==> p == 0
        invariant block < |blocks| ==> p == Offset(blocks, block) + if data.value.Valid() then data.value.pos + 1 else 0
        decreases if block == |blocks| then 0 else block + 1
      {
        if block >= |blocks| {
          data := None;
          return;
        }
        LastOffset(blocks);
        if block == 0 {
          block := |blocks|;
        } else {
          block := block - 1;
          BlockAt(blocks, block);
        }
        InitDataBlock();
        if data.Some? {
          data := Some(data.value.Last());
        }
      }
    }

    method SeekToFirst()
      requires Inv()
      modifies this
      ensures Inv() && View() == old(View()).First()
    {
      block := 0;
      InitDataBlock();
      if data.Some? {
        data := Some(data.value.First());
      }
      LastOffset(blocks);
      SkipEmptyDataBlocksForward(0);
    }

    method SeekToLast()
      requires Inv()
      modifies this
      ensures Inv() && View() == old(View()).Last()
    {
      block := if |blocks| == 0 then 0 else |blocks| - 1;
      InitDataBlock();
      if data.Some? {
        data := Some(data.value.Last());
      }
      LastOffset(blocks);
      if |blocks| > 0 {
        BlockAt(blocks, |blocks| - 1);
      }
      SkipEmptyDataBlocksBackward(|Flatten(blocks)|);
    }

    method Next()
      requires Inv() && View().Valid()
      modifies this
      ensures Inv() && View() == old(View()).Next()
    {
      ViewFacts();
      BlockAt(blocks, handle);
      ghost var p := View().pos + 1;
      data := Some(data.value.Next());
      SkipEmptyDataBlocksForward(p);
    }

    method Prev()
      requires Inv() && View().Valid()
      modifies this
      ensures Inv() && View() == old(View()).Prev()
    {
      ViewFacts();
      BlockAt(blocks, handle);
      ghost var p := View().pos;
      data := Some(data.value.Prev());
      SkipEmptyDataBlocksBackward(p);
    }

    method Seek(target: InternalKey)
      requires Inv()
      modifies this
      ensures Inv() && View() == SeekTo(old(View()), target)
    {
      block := SeekIndex(index, target);
      InitDataBlock();
      if data.Some? {
        data := Some(SeekTo(data.value, target));
      }
      SeekInBlock(blocks, index, target);
      LastOffset(blocks);
      SkipEmptyDataBlocksForward(DbFormat.Seek(Flatten(blocks), target));
    }
  }

  /** Seeking in the block the index names is seeking in the concatenation. */
  lemma SeekInBlock(blocks: seq<seq<Entry>>, index: seq<InternalKey>, target: InternalKey)
    requires Indexed(blocks, index)
    ensures var i := SeekIndex(index, target);
            Seek(Flatten(blocks), target) == Offset(blocks, i) + if i < |blocks| then Seek(blocks[i], target) else 0
    ensures Seek(Flatten(blocks), target) <= |Flatten(blocks)|
  {
    var i := SeekIndex(index, target);
    var all := Flatten(blocks);
    var p := Offset(blocks, i) + if i < |blocks| then Seek(blocks[i], target) else 0;
    LastOffset(blocks);
    FlattenSplits(blocks, i);
    forall j | 0 <= j < Offset(blocks, i)
      ensures Less(all[j].key, target)
    {
      var b, q := PlaceInBlocks(blocks[..i], j);
      assert blocks[b][q] in blocks[b];
      LessIsTotalOrder(all[j].key, index[b], target);
    }
    if i < |blocks| {
      BlockAt(blocks, i);
      forall j | 0 <= j < p
        ensures Less(all[j].key, target)
      {
        if j >= Offset(blocks, i) {
          assert all[j] == blocks[i][j - Offset(blocks, i)];
        }
      }
      if p < |all| {
        AfterSeekBlock(blocks, index, target, i, p);
      }
    }
    SeekIsUnique(all, target, p);
  }

  lemma {:induction false} PlaceInBlocks(blocks: seq<seq<Entry>>, j: nat) returns (b: nat, q: nat)
    requires j < |Flatten(blocks)|
    ensures b < |blocks| && q < |blocks[b]| && Flatten(blocks)[j] == blocks[b][q]
    ensures j == Offset(blocks, b) + q
  {
    var n := |blocks| - 1;
    if j < |Flatten(blocks[..n])| {
      b, q := PlaceInBlocks(blocks[..n], j);
      assert blocks[..n][..b] == blocks[..b];
    } else {
      b, q := n, j - |Flatten(blocks[..n])|;
    }
  }

  lemma AfterSeekBlock(blocks: seq<seq<Entry>>, index: seq<InternalKey>, target: InternalKey, i: nat, p: nat)
    requires Indexed(blocks, index) && i < |blocks| && !Less(index[i], target)
    requires p == Offset(blocks, i) + Seek(blocks[i], target) && p < |Flatten(blocks)|
    ensures !Less(Flatten(blocks)[p].key, target)
  {
    hide Flatten, Less, Seek;
    BlockAt(blocks, i);
    var b, q := PlaceInBlocks(blocks, p);
    if b < i {
      BlockAt(blocks, b);
      OffsetsIncrease(blocks, b + 1, i);
    } else if b == i {
      assert q == Seek(blocks[i], target);
      assert !Less(blocks[i][q].key, target);
    } else {
      assert blocks[b][q] in blocks[b];
      LessIsTotalOrder(index[i], blocks[b][q].key, target);
    }
  }
}
