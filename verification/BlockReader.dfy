/**
  Iterating a block (table/block.cc): whatever order of moves, the iterator of a finished block stands
  where a cursor on the added pairs would, and never sees damage.
*/
module BlockReader {
  import opened Base
  import opened Coding
  import opened BlockFormat
  import opened Cursors

  datatype EntryHeader = EntryHeader(shared: nat, nonShared: nat, valueLength: nat, size: nat)

  /** Decodes the three lengths at the front of an entry, with a fast path for one byte each. */
  function DecodeEntry(b: Bytes): Option<EntryHeader> {
    if |b| < 3 then None
    else
      var header :=
        if b[0] < 128 && b[1] < 128 && b[2] < 128 then Some(EntryHeader(b[0] as nat, b[1] as nat, b[2] as nat, 3))
        else DecodeLengths(b);
      match header
      case None => None
      case Some(h) =>
        if |b| < h.size || |b| - h.size < (h.nonShared + h.valueLength) % 0x1_0000_0000 then None else header
  }

  function DecodeLengths(b: Bytes): Option<EntryHeader> {
    match DecodeVarint(b, VARINT32_BYTES)
    case None => None
    case Some(x) =>
      match DecodeVarint(b[x.1..], VARINT32_BYTES)
      case None => None
      case Some(y) =>
        match DecodeVarint(b[x.1 + y.1..], VARINT32_BYTES)
        case None => None
        case Some(z) => Some(EntryHeader(x.0, y.0, z.0, x.1 + y.1 + z.1))
  }

  lemma ThreeLengths(b: Bytes, a: nat, i: nat, c: nat, j: nat, d: nat, k: nat)
    requires DecodeVarint(b, VARINT32_BYTES) == Some((a, i))
    requires DecodeVarint(b[i..], VARINT32_BYTES) == Some((c, j))
    requires i + j <= |b| && DecodeVarint(b[i + j..], VARINT32_BYTES) == Some((d, k))
    ensures DecodeLengths(b) == Some(EntryHeader(a, c, d, i + j + k))
  {
    hide DecodeVarint;
    assert b[i..][j..] == b[i + j..];
  }

  lemma LengthsRoundTrip(a: Word, b: Word, c: Word, rest: Bytes)
    ensures var code := EncodeVarint(a) + EncodeVarint(b) + EncodeVarint(c);
            DecodeLengths(code + rest) == Some(EntryHeader(a, b, c, |code|))
  {
    Varint32RoundTrip(a, EncodeVarint(b) + (EncodeVarint(c) + rest));
    Varint32RoundTrip(b, EncodeVarint(c) + rest);
    Varint32RoundTrip(c, rest);
    LengthsInRow(EncodeVarint(a), EncodeVarint(b), EncodeVarint(c), rest, a, b, c);
  }

  lemma LengthsInRow(x: Bytes, y: Bytes, z: Bytes, rest: Bytes, a: nat, b: nat, c: nat)
    requires DecodeVarint(x + (y + (z + rest)), VARINT32_BYTES) == Some((a, |x|))
    requires DecodeVarint(y + (z + rest), VARINT32_BYTES) == Some((b, |y|))
    requires DecodeVarint(z + rest, VARINT32_BYTES) == Some((c, |z|))
    ensures DecodeLengths(x + y + z + rest) == Some(EntryHeader(a, b, c, |x + y + z|))
  {
    Regroup(x, y, z, rest);
    ThreeLengths(x + y + z + rest, a, |x|, b, |y|, c, |z|);
  }

  lemma Regroup(x: Bytes, y: Bytes, z: Bytes, rest: Bytes)
    ensures x + y + z + rest == x + (y + (z + rest))
    ensures (x + y + z + rest)[|x|..] == y + (z + rest)
    ensures (x + y + z + rest)[|x| + |y|..] == z + rest
  {
  }

  lemma VarintHead(n: nat)
    ensures EncodeVarint(n)[0] < 128 <==> n < 128
    ensures n < 128 ==> EncodeVarint(n) == [n as byte]
  {
  }

  /** The fast path reads what the general one would. */
  lemma FastPathAgrees(a: nat, b: nat, c: nat, rest: Bytes)
    ensures var code := EncodeVarint(a) + EncodeVarint(b) + EncodeVarint(c) + rest;
            |code| >= 3 && (code[0] < 128 && code[1] < 128 && code[2] < 128 ==>
                              a == code[0] as nat && b == code[1] as nat && c == code[2] as nat
                              && |EncodeVarint(a) + EncodeVarint(b) + EncodeVarint(c)| == 3)
  {
    VarintHead(a);
    VarintHead(b);
    VarintHead(c);
    var x, y, z := EncodeVarint(a), EncodeVarint(b), EncodeVarint(c);
    var code := x + y + z + rest;
    assert code[0] == x[0];
    if |x| == 1 {
      assert code[1] == y[0];
      if |y| == 1 {
        assert code[2] == z[0];
      }
    }
  }

  /** Decoding at the start of an entry gives its lengths, and the key's own bytes and the value lie behind them. */
  lemma DecodesItem(it: Item, rest: Bytes)
    requires |it.Encoded()| < 0x1_0000_0000
    ensures DecodeEntry(it.Encoded() + rest) == Some(EntryHeader(it.shared, |it.key| - it.shared, |it.value|, |it.Head()|))
  {
    hide EncodeVarint, DecodeLengths;
    var b := it.Encoded() + rest;
    var tail := it.key[it.shared..] + it.value + rest;
    assert b == it.Head() + tail;
    LengthsRoundTrip(it.shared, |it.key| - it.shared, |it.value|, tail);
    FastPathAgrees(it.shared, |it.key| - it.shared, |it.value|, tail);
  }

  /** How a block is opened: too short or inconsistent, without restart points, or good to iterate. */
  datatype Opened = Bad | Empty | Good(restartOffset: nat, numRestarts: nat)

  function Open(data: Bytes): Opened {
    if |data| < 4 then Bad
    else
      var n := DecodeFixed32(data[|data| - 4..]);
      if n > (|data| - 4) / 4 then Bad
      else if n == 0 then Empty
      else Good(|data| - (1 + n) * 4, n)
  }

  /** A finished block opens with its restart array where the builder put it. */
  lemma FinishedOpens(data: Bytes, items: seq<Item>, restarts: seq<nat>, marks: seq<nat>, interval: nat)
    requires BlockOk(data, items, restarts, marks, interval)
    ensures Open(data) == Good(EndOf(items), |restarts|)
  {
    Fixed32RoundTrip(|restarts|);
  }

  /** The first entry not before the target. */
  function SeekIndex(items: seq<Item>, target: Bytes, less: (Bytes, Bytes) -> bool): (i: nat)
    ensures i <= |items|
  {
    if items == [] || !less(items[0].key, target) then 0 else 1 + SeekIndex(items[1..], target, less)
  }

  lemma {:induction false} SeekIndexIs(items: seq<Item>, target: Bytes, less: (Bytes, Bytes) -> bool, i: nat)
    requires i <= |items|
    requires forall j | 0 <= j < i :: less(items[j].key, target)
    requires i < |items| ==> !less(items[i].key, target)
    ensures SeekIndex(items, target, less) == i
  {
    if i > 0 {
      assert forall j | 0 <= j < i - 1 :: items[1..][j] == items[j + 1];
      SeekIndexIs(items[1..], target, less, i - 1);
    }
  }

  lemma SliceOfPrefix(data: Bytes, n: nat, a: nat, b: nat)
    requires a <= b <= n <= |data|
    ensures data[..n][a..b] == data[a..b] && data[a..n] == data[a..b] + data[b..n]
  {
  }

  lemma SliceOfSlice(data: Bytes, a: nat, b: nat, i: nat, j: nat)
    requires a <= b <= |data| && i <= j <= b - a
    ensures data[a..b][i..j] == data[a + i..a + j]
  {
    var l, r := data[a..b][i..j], data[a + i..a + j];
    forall k | 0 <= k < j - i
      ensures l[k] == r[k]
    {
      assert l[k] == data[a..b][i + k];
    }
  }

  class BlockIter {
    const data: Bytes
    const restarts: nat
    const numRestarts: nat
    const less: (Bytes, Bytes) -> bool
    var current: nat
    var restartIndex: nat
    var key: Bytes
    var valueStart: nat
    var valueSize: nat
    var corrupt: bool
    ghost const items: seq<Item>
    ghost const points: seq<nat>
    ghost const marks: seq<nat>
    ghost const interval: nat
    ghost var pos: nat

    ghost predicate Intact()
      reads this
    {
      && BlockOk(data, items, points, marks, interval)
      && restarts == EndOf(items) && numRestarts == |points|
      && Ascending(items, less) && Transitive(less)
    }

    /** The iterator shows entry `q`. */
    ghost predicate Shows(q: nat)
      reads this
    {
      && q < |items| && current == items[q].start && key == items[q].key
      && valueStart + valueSize == items[q].End() <= |data| && data[valueStart..valueStart + valueSize] == items[q].value
      && restartIndex < numRestarts
    }

    ghost predicate Inv()
      reads this
    {
      && Intact() && !corrupt && pos <= |items|
      && if pos < |items| then Shows(pos) else current == restarts
    }

    ghost function View(): Cursor<Pair>
      reads this
    {
      Cursor(PairsOf(items), pos)
    }

    /** Parsing may go on at entry `q`: the bytes before it are consumed and the key in hand has what it shares. */
    ghost predicate Ready(q: nat)
      reads this
    {
      && q <= |items| && valueStart + valueSize == StartOf(items, q) && restartIndex < numRestarts
      && (q < |items| ==> SharedInHand(items[q], key))
    }

    constructor (less: (Bytes, Bytes) -> bool, data: Bytes, ghost items: seq<Item>, ghost points: seq<nat>,
                 ghost marks: seq<nat>, ghost interval: nat)
      requires BlockOk(data, items, points, marks, interval) && Ascending(items, less) && Transitive(less)
      ensures Inv() && !View().Valid() && this.items == items
    {
      FinishedOpens(data, items, points, marks, interval);
      var block := Open(data);
      this.less, this.data, restarts, numRestarts := less, data, block.restartOffset, block.numRestarts;
      current, restartIndex, key, valueStart, valueSize, corrupt := block.restartOffset, block.numRestarts, [], 0, 0, false;
      this.items, this.points, this.marks, this.interval, pos := items, points, marks, interval, |items|;
    }

    function NextEntryOffset(): nat
      reads this
    {
      valueStart + valueSize
    }

    lemma PointIs(index: nat)
      requires Intact() && index < numRestarts
      ensures restarts + 4 * index + 4 <= |data|
      ensures DecodeFixed32(data[restarts + 4 * index..restarts + 4 * index + 4]) == points[index]
      ensures RestartAt(items, points, marks, interval, index)
    {
      RestartArrayAt(points, index);
      SliceOfSlice(data, restarts, |data| - 4, 4 * index, 4 * index + 4);
      Fixed32RoundTrip(points[index]);
      assert RestartAt(items, points, marks, interval, index);
    }

    method GetRestartPoint(index: nat) returns (offset: nat)
      requires Intact() && index < numRestarts
      ensures offset == points[index]
    {
      PointIs(index);
      offset := DecodeFixed32(data[restarts + 4 * index..restarts + 4 * index + 4]);
    }

    method SeekToRestartPoint(index: nat)
      requires Intact() && index < numRestarts
      modifies this`key, this`restartIndex, this`valueStart, this`valueSize
      ensures Ready(marks[index]) && restartIndex == index
    {
      key, restartIndex := [], index;
      var offset := GetRestartPoint(index);
      valueStart, valueSize := offset, 0;
      PointIs(index);
    }

    lemma ItemIs(q: nat)
      requires Intact() && q < |items|
      ensures ItemAt(data[..restarts], items, q)
      ensures items[q].start == StartOf(items, q) < StartOf(items, q + 1) == items[q].End() <= restarts
      ensures |items[q].Encoded()| < 0x1_0000_0000 && data[items[q].start..items[q].End()] == items[q].Encoded()
      ensures data[items[q].start..restarts] == items[q].Encoded() + data[items[q].End()..restarts]
    {
      var body := data[..restarts];
      assert ItemAt(body, items, q);
      assert q + 1 < |items| ==> ItemAt(body, items, q + 1);
      StartsInside(body, items, q);
      SliceOfPrefix(data, restarts, items[q].start, items[q].End());
    }

    /** What decoding at entry `q` finds. */
    lemma EntryIs(q: nat)
      requires Intact() && q < |items|
      ensures items[q].start < restarts && items[q].start == StartOf(items, q)
      ensures items[q].End() == StartOf(items, q + 1) <= |data|
      ensures var h := EntryHeader(items[q].shared, |items[q].key| - items[q].shared, |items[q].value|, |items[q].Head()|);
              var p := items[q].start + h.size;
              && DecodeEntry(data[items[q].start..restarts]) == Some(h)
              && p + h.nonShared + h.valueLength == items[q].End()
              && data[p..p + h.nonShared] == items[q].key[items[q].shared..]
              && data[p + h.nonShared..p + h.nonShared + h.valueLength] == items[q].value
    {
      ItemIs(q);
      DecodesItem(items[q], data[items[q].End()..restarts]);
      EntryParts(data, items[q]);
    }

    /** Shows the next entry, or becomes not valid behind the last one. */
    method ParseNextKey(ghost q: nat) returns (ok: bool)
      requires Intact() && !corrupt && Ready(q)
      modifies this
      ensures ok == (q < |items|) && pos == q && Inv()
      ensures ok ==> Ready(q + 1)
    {
      current := NextEntryOffset();
      pos := q;
      if q < |items| {
        EntryIs(q);
      } else {
        assert items[..q] == items;
      }
      if current >= restarts {
        current, restartIndex := restarts, numRestarts;
        return false;
      }
      ok := ParseAt(q);
    }

    method ParseAt(ghost q: nat) returns (ok: bool)
      requires Intact() && !corrupt && q < |items| && current == items[q].start && restartIndex < numRestarts
      requires SharedInHand(items[q], key)
      modifies this`current, this`restartIndex, this`key, this`valueStart, this`valueSize, this`corrupt
      ensures ok && !corrupt && Shows(q) && Ready(q + 1)
    {
      hide DecodeEntry;
      EntryIs(q);
      NextShares(q);
      SharedRejoins(items[q], key);
      ok := ParseEntry(DecodeEntry(data[current..restarts]));
    }

    /** Takes over the decoded entry at the current offset; anything that does not fit is damage. */
    method ParseEntry(header: Option<EntryHeader>) returns (ok: bool)
      requires Intact() && restartIndex < numRestarts
      requires header.Some? ==> current + header.value.size + header.value.nonShared + header.value.valueLength <= |data|
      modifies this`current, this`restartIndex, this`key, this`valueStart, this`valueSize, this`corrupt
      ensures ok <==> header.Some? && header.value.shared <= |old(key)|
      ensures !ok ==> corrupt && current == restarts
      ensures ok ==>
                var h := header.value; var p := current + h.size;
                && current == old(current) && corrupt == old(corrupt) && restartIndex < numRestarts
                && key == old(key)[..h.shared] + data[p..p + h.nonShared]
                && valueStart == p + h.nonShared && valueSize == h.valueLength
    {
      if header == None || |key| < header.value.shared {
        CorruptionError();
        return false;
      }
      var h := header.value;
      var p := current + h.size;
      key := key[..h.shared] + data[p..p + h.nonShared];
      valueStart, valueSize := p + h.nonShared, h.valueLength;
      AdvanceRestartIndex();
      ok := true;
    }

    /** Keeps the restart index in step with the current entry. */
    method AdvanceRestartIndex()
      requires Intact() && restartIndex < numRestarts
      modifies this`restartIndex
      ensures restartIndex < numRestarts && old(restartIndex) <= restartIndex
      ensures restartIndex + 1 < numRestarts ==> points[restartIndex + 1] >= current
      ensures forall j | old(restartIndex) < j <= restartIndex :: points[j] < current
    {
      while restartIndex + 1 < numRestarts
        invariant restartIndex < numRestarts && old(restartIndex) <= restartIndex
        invariant forall j | old(restartIndex) < j <= restartIndex :: points[j] < current
        decreases numRestarts - restartIndex
      {
        var next := GetRestartPoint(restartIndex + 1);
        if next >= current {
          return;
        }
        restartIndex := restartIndex + 1;
      }
    }

    lemma NextShares(q: nat)
      requires Intact() && q < |items|
      ensures q + 1 < |items| ==> SharedInHand(items[q + 1], items[q].key)
    {
      if q + 1 < |items| {
        ItemIs(q + 1);
      }
    }

    method SeekToFirst()
      requires Inv()
      modifies this
      ensures Inv() && View() == old(View()).First()
    {
      PointIs(0);
      SeekToRestartPoint(0);
      var ok := ParseNextKey(0);
    }

    method SeekToLast()
      requires Inv()
      modifies this
      ensures Inv() && View() == old(View()).Last()
    {
      PointIs(numRestarts - 1);
      SeekToRestartPoint(numRestarts - 1);
      SkipToEnd(marks[numRestarts - 1]);
    }

    /** Parses on until the entry in hand ends where the restart array begins. */
    method SkipToEnd(ghost from: nat)
      requires Intact() && !corrupt && Ready(from) && (from < |items| || items == [])
      modifies this
      ensures Inv() && pos == if items == [] then 0 else |items| - 1
    {
      ghost var q := from;
      var ok := ParseNextKey(q);
      while ok && NextEntryOffset() < restarts
        invariant Inv() && pos == q && ok == (q < |items|) && (ok ==> Ready(q + 1))
        invariant ok || items == []
        decreases |items| - q, ok
      {
        EndsBeforeRestarts(q + 1);
        ok := ParseNextKey(q + 1);
        q := q + 1;
      }
      if ok {
        LastEndsAtRestarts(q + 1);
      }
    }

    lemma EndsBeforeRestarts(q: nat)
      requires Intact() && q <= |items| && StartOf(items, q) < restarts
      ensures q < |items|
    {
    }

    lemma LastEndsAtRestarts(q: nat)
      requires Intact() && q <= |items| && StartOf(items, q) >= restarts
      ensures q == |items|
    {
      if q < |items| {
        ItemIs(q);
      }
    }

    method Next()
      requires Inv() && View().Valid()
      modifies this
      ensures Inv() && View() == old(View()).Next()
    {
      ItemIs(pos);
      NextShares(pos);
      var ok := ParseNextKey(pos + 1);
    }

    /** Entry starts ascend, so comparing offsets is comparing positions. */
    lemma {:induction false} OffsetsOrder(i: nat, j: nat)
      requires Intact() && i <= j <= |items|
      ensures StartOf(items, i) <= StartOf(items, j) && (i < j ==> StartOf(items, i) < StartOf(items, j))
      decreases j
    {
      if i < j {
        OffsetsOrder(i, j - 1);
        ItemIs(j - 1);
      }
    }

    /** Goes back to a restart point before the current entry and parses forward up to the entry just before it. */
    method Prev()
      requires Inv() && View().Valid()
      modifies this
      ensures Inv() && View() == old(View()).Prev()
    {
      var original := current;
      ghost var was := pos;
      var found := FindRestartBefore(original, was);
      if !found {
        current, restartIndex, pos := restarts, numRestarts, |items|;
        return;
      }
      ghost var from := marks[restartIndex];
      SeekToRestartPoint(restartIndex);
      ScanUpTo(from, original, was);
    }

    /** Moves the restart index back to a region that starts before the offset, if there is one. */
    method FindRestartBefore(original: nat, ghost was: nat) returns (found: bool)
      requires Intact() && restartIndex < numRestarts && was < |items| && original == StartOf(items, was)
      modifies this`restartIndex
      ensures found ==> restartIndex < numRestarts && marks[restartIndex] < was
      ensures !found ==> was == 0
    {
      var offset := GetRestartPoint(restartIndex);
      while offset >= original
        invariant restartIndex < numRestarts && offset == points[restartIndex]
        decreases restartIndex
      {
        PointIs(restartIndex);
        if restartIndex == 0 {
          OffsetsOrder(0, was);
          return false;
        }
        restartIndex := restartIndex - 1;
        offset := GetRestartPoint(restartIndex);
      }
      PointIs(restartIndex);
      if was <= marks[restartIndex] {
        OffsetsOrder(was, marks[restartIndex]);
      }
      found := true;
    }

    method ScanUpTo(ghost from: nat, original: nat, ghost was: nat)
      requires Intact() && !corrupt && Ready(from) && from < was < |items| && original == StartOf(items, was)
      modifies this
      ensures Inv() && pos == was - 1
    {
      ghost var q := from;
      var ok := ParseNextKey(q);
      while ok && NextEntryOffset() < original
        invariant Inv() && pos == q < was && ok && Ready(q + 1)
        decreases was - q
      {
        if was <= q + 1 {
          OffsetsOrder(was, q + 1);
        }
        ok := ParseNextKey(q + 1);
        q := q + 1;
      }
      if q + 1 < was {
        OffsetsOrder(q + 1, was);
      }
    }

    /** Whether the first key of a restart region is before the target; anything but a whole key there is damage. */
    method ProbeRestart(index: nat, target: Bytes) returns (ok: bool, before: bool)
      requires Intact() && !corrupt && index < numRestarts
      modifies this`current, this`restartIndex, this`corrupt, this`key, this`valueSize
      ensures marks[index] < |items| ==>
                ok && !corrupt && current == old(current) && (before <==> less(items[marks[index]].key, target))
    {
      hide DecodeEntry;
      PointIs(index);
      var offset := GetRestartPoint(index);
      ghost var q := marks[index];
      if q < |items| {
        EntryIs(q);
        WholeKey(items[q]);
      }
      StartsInside(data[..restarts], items, q);
      var header := DecodeEntry(data[offset..restarts]);
      if header == None || header.value.shared != 0
        || |data| < offset + header.value.size + header.value.nonShared {
        CorruptionError();
        return false, false;
      }
      var p := offset + header.value.size;
      before := less(data[p..p + header.value.nonShared], target);
      ok := true;
    }

    /** Binary search over the restart points, then a scan, for the first entry not before the target. */
    method Seek(target: Bytes)
      requires Inv()
      modifies this
      ensures Inv() && View().list == old(View()).list && View().pos == SeekIndex(items, target, less)
    {
      PointIs(0);
      var left, right, ok := 0, numRestarts - 1, true;
      while left < right && ok
        invariant 0 <= left <= right < numRestarts && ok && !corrupt
        invariant forall i | 0 <= i < marks[left] :: i < |items| && less(items[i].key, target)
        decreases right - left
      {
        var mid := (left + right + 1) / 2;
        PointIs(mid);
        var before;
        ok, before := ProbeRestart(mid, target);
        if before {
          RegionsBefore(marks[mid], target);
          left := mid;
        } else {
          right := mid - 1;
        }
      }
      if ok {
        PointIs(left);
        SeekToRestartPoint(left);
        ScanFrom(marks[left], target);
      }
    }

    lemma RegionsBefore(q: nat, target: Bytes)
      requires Intact() && q < |items| && less(items[q].key, target)
      ensures forall i | 0 <= i <= q :: less(items[i].key, target)
    {
      forall i | 0 <= i < q
        ensures less(items[i].key, target)
      {
        assert Precedes(items, less, i, q);
        assert Chains(less, items[i].key, items[q].key, target);
      }
    }

    method ScanFrom(ghost from: nat, target: Bytes)
      requires Intact() && !corrupt && Ready(from)
      requires forall i | 0 <= i < from :: i < |items| && less(items[i].key, target)
      modifies this
      ensures Inv() && pos == SeekIndex(items, target, less)
    {
      hide Ready, Intact;
      ghost var q := from;
      var ok := ParseNextKey(q);
      while ok && less(key, target)
        invariant Inv() && pos == q && ok == (q < |items|) && (ok ==> Ready(q + 1))
        invariant forall i | 0 <= i < q :: less(items[i].key, target)
        decreases |items| - q, ok
      {
        ok := ParseNextKey(q + 1);
        q := q + 1;
      }
      SeekIndexIs(items, target, less, q);
    }

    method CorruptionError()
      modifies this`current, this`restartIndex, this`corrupt, this`key, this`valueSize
      ensures corrupt && current == restarts
    {
      current, restartIndex, corrupt, key, valueSize := restarts, numRestarts, true, [], 0;
    }
  }

  lemma WholeKey(it: Item)
    requires it.shared == 0
    ensures it.key[it.shared..] == it.key
  {
  }

  lemma SharedRejoins(it: Item, key: Bytes)
    requires SharedInHand(it, key)
    ensures key[..it.shared] + it.key[it.shared..] == it.key
  {
  }

  /** Inside a stored entry the key's own bytes come right behind the lengths, then the value. */
  lemma EntryParts(data: Bytes, it: Item)
    requires it.End() <= |data| && data[it.start..it.End()] == it.Encoded()
    ensures var p, n := it.start + |it.Head()|, |it.key| - it.shared;
            && p + n + |it.value| == it.End()
            && data[p..p + n] == it.key[it.shared..]
            && data[p + n..p + n + |it.value|] == it.value
  {
    var p, n := it.start + |it.Head()|, |it.key| - it.shared;
    var code := it.Encoded();
    assert code[|it.Head()|..|it.Head()| + n] == it.key[it.shared..];
    assert code[|it.Head()| + n..|code|] == it.value;
    SliceOfSlice(data, it.start, it.End(), |it.Head()|, |it.Head()| + n);
    SliceOfSlice(data, it.start, it.End(), |it.Head()| + n, |code|);
  }

  /** A finished block iterates over exactly the pairs that were added, in order. */
  method FinishAndIterate(b: BlockBuilder) returns (it: BlockIter)
    requires b.Valid() && !b.finished && |b.buffer| + 4 * |b.restarts| + 4 < 0x1_0000_0000
    modifies b
    ensures fresh(it) && it.Inv() && it.View().list == PairsOf(old(b.items)) && !it.View().Valid()
  {
    var data := b.Finish();
    it := new BlockIter(b.less, data, b.items, b.restarts, b.marks, b.interval);
  }
}
