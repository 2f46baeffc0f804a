/** Appending records to a log file (db/log_writer.cc). */
module LogWriter {
  import opened Base
  import opened Coding
  import opened LogFormat

  lemma AppendOne(ps: seq<Piece>, p: Piece)
    ensures Assemble(ps + [p], None) == Assemble(ps, None) + Assemble([p], Scratch(ps, None))
    ensures Scratch(ps + [p], None) == NextScratch(p, Scratch(ps, None))
    ensures WellTyped(ps + [p], None) <==> WellTyped(ps, None) && WellTyped([p], Scratch(ps, None))
  {
    AssembleConcat(ps, [p], None);
  }

  /** The offset is the file length within its block, or a full block just before it wraps. */
  predicate OffsetOk(blockOffset: nat, length: nat) {
    blockOffset == length % BLOCK_SIZE || (blockOffset == BLOCK_SIZE && length % BLOCK_SIZE == 0)
  }

  lemma SwitchAligns(blockOffset: nat, length: nat)
    requires OffsetOk(blockOffset, length)
    ensures var leftover := BLOCK_SIZE - blockOffset;
            if leftover < HEADER_SIZE then Align(length) == length + leftover && Align(length) % BLOCK_SIZE == 0
            else Align(length) == length && blockOffset == length % BLOCK_SIZE
  {
  }

  lemma OffsetMoves(blockOffset: nat, length: nat, more: nat)
    requires blockOffset == length % BLOCK_SIZE && blockOffset + more <= BLOCK_SIZE
    ensures OffsetOk(blockOffset + more, length + more)
    ensures blockOffset + more == BLOCK_SIZE ==> (length + more) % BLOCK_SIZE == 0
  {
    var q := length / BLOCK_SIZE;
    assert length == q * BLOCK_SIZE + blockOffset;
    if blockOffset + more == BLOCK_SIZE {
      assert length + more == (q + 1) * BLOCK_SIZE;
    } else {
      assert (length + more) / BLOCK_SIZE == q;
    }
  }

  /** Between fragments: an intact file whose pieces end with what `scratch` holds of an unfinished record. */
  ghost predicate Spells(file: Bytes, crc: Checksum, ps: seq<Piece>, records: seq<Logged>, scratch: Option<Bytes>) {
    && Layout(file, crc, ps) && WellTyped(ps, None)
    && Scratch(ps, None) == scratch && Assemble(ps, None) == records
  }

  /** What one more fragment completes or leaves under assembly. */
  lemma FragmentSpells(ps: seq<Piece>, p: Piece, records: seq<Logged>, data: Bytes, ptr: nat, n: nat, begin: bool)
    requires WellTyped(ps, None) && Assemble(ps, None) == records && ptr + n <= |data|
    requires Scratch(ps, None) == if begin then None else Some(data[..ptr])
    requires begin ==> ptr == 0
    requires p.payload == data[ptr..ptr + n] && p.kind == KindOf(begin, ptr + n == |data|)
    ensures WellTyped(ps + [p], None)
    ensures Assemble(ps + [p], None) == if ptr + n == |data| then records + [Logged(p.End(), data)] else records
    ensures Scratch(ps + [p], None) == if ptr + n == |data| then None else Some(data[..ptr + n])
  {
    AppendOne(ps, p);
    assert data[..ptr] + data[ptr..ptr + n] == data[..ptr + n];
    assert data[..|data|] == data && data[0..ptr + n] == data[..ptr + n];
  }

  /** Writing the fragment keeps the file intact and completes the record or puts more of it under assembly. */
  lemma FragmentWritten(file: Bytes, pad: Bytes, crc: Checksum, ps: seq<Piece>, p: Piece, records: seq<Logged>,
                        data: Bytes, ptr: nat, n: nat, begin: bool)
    requires ptr + n <= |data| && (begin ==> ptr == 0)
    requires Spells(file, crc, ps, records, if begin then None else Some(data[..ptr]))
    requires Fits(p) && p.start == Align(|file|) && |pad| == p.start - |file|
    requires p.payload == data[ptr..ptr + n] && p.kind == KindOf(begin, ptr + n == |data|)
    ensures var file' := file + pad + Header(crc, p.kind, p.payload) + p.payload;
            if ptr + n == |data| then Spells(file', crc, ps + [p], records + [Logged(|file'|, data)], None)
            else Spells(file', crc, ps + [p], records, Some(data[..ptr + n]))
  {
    AppendPiece(file, crc, ps, pad, p);
    FragmentSpells(ps, p, records, data, ptr, n, begin);
  }

  /** An empty fragment is only cut at the very end of a block, so the next one starts a new block. */
  lemma EmptyFragmentEndsBlock(before: nat, after: nat, blockOffset: nat)
    requires after == Align(before) && blockOffset == after % BLOCK_SIZE && blockOffset + HEADER_SIZE == BLOCK_SIZE
    ensures (after + HEADER_SIZE) % BLOCK_SIZE == 0 && before % BLOCK_SIZE != 0
  {
    OffsetMoves(blockOffset, after, HEADER_SIZE);
  }

  lemma PadSplits(before: Bytes, after: Bytes)
    requires before <= after
    ensures after == before + after[|before|..]
  {
  }

  lemma PrefixOfPrefix(a: Bytes, b: Bytes, c: Bytes)
    requires a <= b <= c
    ensures a <= c
  {
  }

  function KindOf(begin: bool, end: bool): nat {
    if begin && end then FULL_TYPE
    else if begin then FIRST_TYPE
    else if end then LAST_TYPE
    else MIDDLE_TYPE
  }

  class Writer {
    const crc: Checksum
    var dest: Bytes
    var blockOffset: nat
    ghost var pieces: seq<Piece>
    ghost var records: seq<Logged>

    /** Between records: an intact file whose pieces spell exactly the records written so far. */
    ghost predicate Inv()
      reads this
    {
      OffsetOk(blockOffset, |dest|) && Spells(dest, crc, pieces, records, None)
    }

    /** A writer for a new file. */
    constructor (crc: Checksum)
      ensures Inv() && this.crc == crc && dest == [] && records == []
    {
      this.crc := crc;
      dest, blockOffset := [], 0;
      pieces, records := [], [];
    }

    /** A writer that goes on where an intact file ends. */
    constructor Reopen(crc: Checksum, file: Bytes, ghost pieces: seq<Piece>, ghost records: seq<Logged>)
      requires Spells(file, crc, pieces, records, None)
      ensures Inv() && this.crc == crc && dest == file && this.pieces == pieces && this.records == records
    {
      this.crc := crc;
      dest, blockOffset := file, |file| % BLOCK_SIZE;
      this.pieces, this.records := pieces, records;
    }

    /** Fills a block's trailer when no header fits in what is left of it. */
    method SwitchBlock()
      requires OffsetOk(blockOffset, |dest|)
      modifies this`dest, this`blockOffset
      ensures |dest| == Align(|old(dest)|) && old(dest) <= dest
      ensures blockOffset == |dest| % BLOCK_SIZE && blockOffset + HEADER_SIZE <= BLOCK_SIZE
    {
      SwitchAligns(blockOffset, |dest|);
      var leftover := BLOCK_SIZE - blockOffset;
      if leftover < HEADER_SIZE {
        if leftover > 0 {
          dest := dest + seq(leftover, _ => 0);
        }
        blockOffset := 0;
      }
    }

    method EmitPhysicalRecord(kind: nat, payload: Bytes)
      requires FULL_TYPE <= kind <= LAST_TYPE
      requires blockOffset == |dest| % BLOCK_SIZE && blockOffset + HEADER_SIZE + |payload| <= BLOCK_SIZE
      modifies this`dest, this`blockOffset
      ensures dest == old(dest) + Header(crc, kind, payload) + payload
      ensures OffsetOk(blockOffset, |dest|) && blockOffset == old(blockOffset) + HEADER_SIZE + |payload|
    {
      OffsetMoves(blockOffset, |dest|, HEADER_SIZE + |payload|);
      dest := dest + Header(crc, kind, payload);
      dest := dest + payload;
      blockOffset := blockOffset + HEADER_SIZE + |payload|;
    }

    /** While a record is being cut, the bytes before `ptr` are under assembly. */
    ghost predicate Cutting(data: Bytes, ptr: nat, begin: bool)
      reads this
    {
      && OffsetOk(blockOffset, |dest|) && ptr <= |data| && (begin ==> ptr == 0)
      && Spells(dest, crc, pieces, records, if begin then None else Some(data[..ptr]))
    }

    /** The last fragment is out; the record only remains to be counted. */
    ghost predicate Finished(data: Bytes)
      reads this
    {
      OffsetOk(blockOffset, |dest|) && Spells(dest, crc, pieces, records + [Logged(|dest|, data)], None)
    }

    /** Appends one logical record, cut into as many fragments as block boundaries demand. */
    method AddRecord(data: Bytes)
      requires Inv()
      modifies this
      ensures Inv() && old(dest) <= dest
      ensures records == old(records) + [Logged(|dest|, data)]
    {
      var ptr, begin, more := 0, true, true;
      while more
        invariant old(dest) <= dest && records == old(records)
        invariant if more then Cutting(data, ptr, begin) else Finished(data)
        decreases more, |data| - ptr, if |dest| % BLOCK_SIZE == 0 then 0 else 1
      {
        ptr, more := AddFragment(data, ptr, begin);
        begin := false;
      }
      records := records + [Logged(|dest|, data)];
    }

    /** Moves to where the next header fits and says how many of the `left` bytes fit behind it. */
    method FragmentLength(left: nat) returns (n: nat)
      requires OffsetOk(blockOffset, |dest|)
      modifies this`dest, this`blockOffset
      ensures old(dest) <= dest && |dest| == Align(|old(dest)|)
      ensures blockOffset == |dest| % BLOCK_SIZE && n <= left && blockOffset + HEADER_SIZE + n <= BLOCK_SIZE
      ensures n < left ==> blockOffset + HEADER_SIZE + n == BLOCK_SIZE
      ensures n == 0 && left > 0 ==> (|dest| + HEADER_SIZE) % BLOCK_SIZE == 0 && |old(dest)| % BLOCK_SIZE != 0
    {
      ghost var before := |dest|;
      SwitchBlock();
      var avail := BLOCK_SIZE - blockOffset - HEADER_SIZE;
      n := if left < avail then left else avail;
      if n == 0 && left > 0 {
        EmptyFragmentEndsBlock(before, |dest|, blockOffset);
      }
    }

    /** Cuts as much of the record as fits in the block, into a new block if no header fits in this one. */
    method AddFragment(data: Bytes, ptr: nat, begin: bool) returns (ptr': nat, more: bool)
      requires Cutting(data, ptr, begin)
      modifies this`dest, this`blockOffset, this`pieces
      ensures old(dest) <= dest && ptr <= ptr' <= |data|
      ensures more && ptr' == ptr ==> |dest| % BLOCK_SIZE == 0 && |old(dest)| % BLOCK_SIZE != 0
      ensures if more then Cutting(data, ptr', false) else Finished(data)
    {
      ghost var file := dest;
      var fragmentLength := FragmentLength(|data| - ptr);
      ghost var padded := dest;
      WriteFragment(file, data, ptr, fragmentLength, begin);
      PrefixOfPrefix(file, padded, dest);
      ptr' := ptr + fragmentLength;
      more := ptr' < |data|;
    }

    method WriteFragment(ghost file: Bytes, data: Bytes, ptr: nat, n: nat, begin: bool)
      requires ptr + n <= |data| && (begin ==> ptr == 0)
      requires Spells(file, crc, pieces, records, if begin then None else Some(data[..ptr]))
      requires file <= dest && |dest| == Align(|file|)
      requires blockOffset == |dest| % BLOCK_SIZE && blockOffset + HEADER_SIZE + n <= BLOCK_SIZE
      modifies this`dest, this`blockOffset, this`pieces
      ensures old(dest) <= dest && |dest| == |old(dest)| + HEADER_SIZE + n
      ensures if ptr + n < |data| then Cutting(data, ptr + n, false) else Finished(data)
    {
      var fragment := data[ptr..ptr + n];
      var kind := KindOf(begin, ptr + n == |data|);
      ghost var pad, p := dest[|file|..], Piece(|dest|, kind, fragment);
      PadSplits(file, dest);
      FragmentWritten(file, pad, crc, pieces, p, records, data, ptr, n, begin);
      EmitPhysicalRecord(kind, fragment);
      pieces := pieces + [p];
    }
  }
}
