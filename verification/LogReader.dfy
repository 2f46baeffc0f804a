/**
  Reading a log file back (db/log_reader.cc), from its beginning and without resyncing.  Any prefix of
  an intact file yields exactly the records wholly inside it and reports nothing.
*/
module LogReader {
  import opened Base
  import opened Coding
  import opened LogFormat
  import opened LogWriter

  const EOF: nat := LAST_TYPE + 1
  const BAD_RECORD: nat := LAST_TYPE + 2

  /** What the reader holds: bytes up to `end` were read, `buffer` is their unconsumed tail. */
  ghost predicate Buffered(file: Bytes, end: nat, buffer: Bytes, eof: bool) {
    && |buffer| <= end <= |file| && buffer == file[end - |buffer|..end]
    && (end - |buffer|) % BLOCK_SIZE + |buffer| <= BLOCK_SIZE
    && if eof then end == |file| else end % BLOCK_SIZE == 0
  }

  /** The next unread byte is where piece `next` starts, up to a trailer; or everything whole has been read. */
  ghost predicate Aligned(file: Bytes, end: nat, buffer: Bytes, eof: bool, ps: seq<Piece>, next: nat)
    requires |buffer| <= end
  {
    && next <= Inside(ps, |file|)
    && (|| Align(end - |buffer|) == Align(EndOf(ps[..next]))
        || (eof && buffer == [] && next == Inside(ps, |file|)))
  }

  ghost predicate Intact(file: Bytes, whole: Bytes, crc: Checksum, ps: seq<Piece>) {
    crc.Ok() && Layout(whole, crc, ps) && file <= whole
  }

  lemma TrailerSkipped(end: nat, left: nat)
    requires left <= end && end % BLOCK_SIZE == 0 && left < HEADER_SIZE
    ensures Align(end - left) == end && Align(end) == end
  {
    if left > 0 {
      var q := end / BLOCK_SIZE;
      assert end == q * BLOCK_SIZE;
      assert end - left == (q - 1) * BLOCK_SIZE + (BLOCK_SIZE - left);
      assert (end - left) % BLOCK_SIZE == BLOCK_SIZE - left;
    }
  }

  /** Reading the next block keeps the place. */
  lemma RefillKeeps(file: Bytes, end: nat, buffer: Bytes, end': nat, buffer': Bytes, ps: seq<Piece>, next: nat)
    requires Buffered(file, end, buffer, false) && |buffer| < HEADER_SIZE
    requires Aligned(file, end, buffer, false, ps, next)
    requires end' == (if |file| - end < BLOCK_SIZE then |file| else end + BLOCK_SIZE) && buffer' == file[end..end']
    ensures Buffered(file, end', buffer', |buffer'| < BLOCK_SIZE)
    ensures Aligned(file, end', buffer', |buffer'| < BLOCK_SIZE, ps, next)
  {
    TrailerSkipped(end, |buffer|);
  }

  /** With less than a header left at the end of the file, no whole piece remains. */
  lemma NothingLeft(file: Bytes, whole: Bytes, crc: Checksum, end: nat, buffer: Bytes, ps: seq<Piece>, next: nat)
    requires Intact(file, whole, crc, ps)
    requires Buffered(file, end, buffer, true) && |buffer| < HEADER_SIZE
    requires Aligned(file, end, buffer, true, ps, next)
    ensures next == Inside(ps, |file|)
  {
    if next < |ps| {
      assert InPlace(whole, crc, ps, next);
    }
  }

  lemma HeaderFields(crc: Checksum, p: Piece)
    requires Fits(p)
    ensures var h := Header(crc, p.kind, p.payload);
            && |h| == HEADER_SIZE
            && h[..4] == EncodeFixed32(crc.mask(crc.value([p.kind as byte] + p.payload)))
            && h[4] as nat + 256 * h[5] as nat == |p.payload| && h[6] as nat == p.kind
  {
  }

  /** Bytes of the buffer are bytes of the stored piece. */
  lemma BufferHoldsPiece(file: Bytes, whole: Bytes, crc: Checksum, end: nat, buffer: Bytes, p: Piece)
    requires file <= whole && Stored(whole, crc, p)
    requires |buffer| <= end <= |file| && buffer == file[end - |buffer|..end] && p.start == end - |buffer|
    requires |buffer| >= HEADER_SIZE
    ensures buffer[..HEADER_SIZE] == Header(crc, p.kind, p.payload)
    ensures HEADER_SIZE + |p.payload| <= |buffer| ==> buffer[HEADER_SIZE..HEADER_SIZE + |p.payload|] == p.payload
  {
    var body := Header(crc, p.kind, p.payload) + p.payload;
    HeaderFields(crc, p);
    assert whole[p.start..p.End()] == body;
    forall i | 0 <= i < |buffer| && i < |body|
      ensures buffer[i] == body[i]
    {
      assert buffer[i] == file[p.start + i] == whole[p.start + i];
      assert whole[p.start..p.End()][i] == whole[p.start + i];
    }
    assert body[..HEADER_SIZE] == Header(crc, p.kind, p.payload);
    assert buffer[..HEADER_SIZE] == body[..HEADER_SIZE];
    if HEADER_SIZE + |p.payload| <= |buffer| {
      assert body[HEADER_SIZE..] == p.payload;
      assert buffer[HEADER_SIZE..HEADER_SIZE + |p.payload|] == body[HEADER_SIZE..];
    }
  }

  /** With a header's worth of bytes buffered, the next piece starts right there. */
  lemma PieceIsNext(file: Bytes, whole: Bytes, crc: Checksum, end: nat, buffer: Bytes, eof: bool, ps: seq<Piece>, next: nat)
    requires Intact(file, whole, crc, ps)
    requires Buffered(file, end, buffer, eof) && |buffer| >= HEADER_SIZE
    requires Aligned(file, end, buffer, eof, ps, next)
    ensures next < |ps| && ps[next].start == end - |buffer| && Stored(whole, crc, ps[next])
  {
    var pos := end - |buffer|;
    assert Align(pos) == pos;
    assert ps[..|ps|] == ps;
    if next < |ps| {
      assert InPlace(whole, crc, ps, next);
    }
  }

  /** A piece that goes on past the buffer is cut off by the end of the file. */
  lemma CutOffIsEnd(file: Bytes, end: nat, buffer: Bytes, eof: bool, ps: seq<Piece>, next: nat)
    requires Buffered(file, end, buffer, eof) && buffer != [] && next < |ps| && next <= Inside(ps, |file|)
    requires Fits(ps[next]) && ps[next].start == end - |buffer|
    requires HEADER_SIZE + |ps[next].payload| > |buffer|
    ensures eof && next == Inside(ps, |file|)
    ensures Buffered(file, end, [], eof) && Aligned(file, end, [], eof, ps, next)
  {
    if !eof {
      BlockEnds(end, |buffer|);
    }
  }

  lemma BlockEnds(end: nat, n: nat)
    requires 0 < n <= end && end % BLOCK_SIZE == 0 && (end - n) % BLOCK_SIZE + n <= BLOCK_SIZE
    ensures (end - n) % BLOCK_SIZE + n == BLOCK_SIZE
  {
    var q, r := (end - n) / BLOCK_SIZE, (end - n) % BLOCK_SIZE;
    assert end == q * BLOCK_SIZE + r + n;
  }

  /** Consuming a whole piece moves on to the next one. */
  lemma ConsumeKeeps(file: Bytes, end: nat, buffer: Bytes, eof: bool, ps: seq<Piece>, next: nat)
    requires Buffered(file, end, buffer, eof) && next < |ps| && next <= Inside(ps, |file|)
    requires Fits(ps[next]) && ps[next].start == end - |buffer|
    requires HEADER_SIZE + |ps[next].payload| <= |buffer|
    ensures next < Inside(ps, |file|)
    ensures Buffered(file, end, buffer[HEADER_SIZE + |ps[next].payload|..], eof)
    ensures Aligned(file, end, buffer[HEADER_SIZE + |ps[next].payload|..], eof, ps, next + 1)
  {
    hide Buffered, Fits, Aligned, Align, EndOf, Inside;
    var n := HEADER_SIZE + |ps[next].payload|;
    BufferedEnds(file, end, buffer, eof);
    PieceIsInside(ps, next, |file|);
    ConsumedIsBuffered(file, end, buffer, eof, n);
    AlignAfter(ps, next, end, |buffer[n..]|);
    AlignedBehind(file, end, buffer[n..], eof, ps, next + 1);
  }

  lemma BufferedEnds(file: Bytes, end: nat, buffer: Bytes, eof: bool)
    requires Buffered(file, end, buffer, eof)
    ensures |buffer| <= end <= |file|
  {
  }

  lemma PieceIsInside(ps: seq<Piece>, next: nat, limit: nat)
    requires next < |ps| && next <= Inside(ps, limit) && ps[next].End() <= limit
    ensures next < Inside(ps, limit)
  {
    var k := Inside(ps, limit);
    assert k < |ps| ==> ps[k].End() > limit;
  }

  lemma AlignedBehind(file: Bytes, end: nat, buffer: Bytes, eof: bool, ps: seq<Piece>, next: nat)
    requires |buffer| <= end && next <= Inside(ps, |file|) && Align(end - |buffer|) == Align(EndOf(ps[..next]))
    ensures Aligned(file, end, buffer, eof, ps, next)
  {
  }

  lemma AlignAfter(ps: seq<Piece>, next: nat, end: nat, left: nat)
    requires next < |ps| && left <= end && end - left == ps[next].End()
    ensures Align(end - left) == Align(EndOf(ps[..next + 1]))
  {
    EndOfPrefix(ps, next);
  }

  lemma ConsumedIsBuffered(file: Bytes, end: nat, buffer: Bytes, eof: bool, n: nat)
    requires Buffered(file, end, buffer, eof) && n <= |buffer|
    ensures Buffered(file, end, buffer[n..], eof)
  {
    ConsumeInBlock(end - |buffer|, n, |buffer|);
    assert buffer[n..] == file[end - |buffer| + n..end];
  }

  lemma EndOfPrefix(ps: seq<Piece>, next: nat)
    requires next < |ps|
    ensures EndOf(ps[..next + 1]) == ps[next].End()
  {
  }

  lemma ConsumeInBlock(pos: nat, n: nat, total: nat)
    requires n <= total && pos % BLOCK_SIZE + total <= BLOCK_SIZE
    ensures (pos + n) % BLOCK_SIZE + (total - n) <= BLOCK_SIZE
  {
    var q, r := pos / BLOCK_SIZE, pos % BLOCK_SIZE;
    assert pos + n == q * BLOCK_SIZE + (r + n);
    if r + n < BLOCK_SIZE {
      assert (pos + n) / BLOCK_SIZE == q;
    } else {
      assert pos + n == (q + 1) * BLOCK_SIZE;
    }
  }

  lemma ChecksumMatches(crc: Checksum, p: Piece, buffer: Bytes)
    requires crc.Ok() && Fits(p) && |buffer| >= HEADER_SIZE + |p.payload|
    requires buffer[..HEADER_SIZE] == Header(crc, p.kind, p.payload)
    requires buffer[HEADER_SIZE..HEADER_SIZE + |p.payload|] == p.payload
    ensures crc.unmask(DecodeFixed32(buffer[..4])) == crc.value(buffer[6..HEADER_SIZE + |p.payload|])
  {
    HeaderFields(crc, p);
    assert buffer[..4] == buffer[..HEADER_SIZE][..4];
    assert buffer[6] == buffer[..HEADER_SIZE][6];
    assert buffer[6..HEADER_SIZE + |p.payload|] == [p.kind as byte] + p.payload;
    Fixed32RoundTrip(crc.mask(crc.value([p.kind as byte] + p.payload)));
  }

  function LengthField(buffer: Bytes): nat
    requires |buffer| >= HEADER_SIZE
  {
    buffer[4] as nat + 256 * buffer[5] as nat
  }

  /** What the header at the front of the buffer says is what was written there. */
  lemma HeaderIsGenuine(file: Bytes, whole: Bytes, crc: Checksum, end: nat, buffer: Bytes, eof: bool, ps: seq<Piece>, next: nat)
    requires Intact(file, whole, crc, ps)
    requires Buffered(file, end, buffer, eof) && |buffer| >= HEADER_SIZE
    requires Aligned(file, end, buffer, eof, ps, next)
    ensures next < |ps| && Fits(ps[next]) && ps[next].start == end - |buffer|
    ensures LengthField(buffer) == |ps[next].payload| && buffer[6] as nat == ps[next].kind
    ensures var n := HEADER_SIZE + LengthField(buffer);
            n <= |buffer| ==> buffer[HEADER_SIZE..n] == ps[next].payload
                              && crc.unmask(DecodeFixed32(buffer[..4])) == crc.value(buffer[6..n])
  {
    PieceIsNext(file, whole, crc, end, buffer, eof, ps, next);
    var p := ps[next];
    BufferHoldsPiece(file, whole, crc, end, buffer, p);
    HeaderFields(crc, p);
    var h := Header(crc, p.kind, p.payload);
    assert buffer[4] == h[4] && buffer[5] == h[5] && buffer[6] == h[6] by {
      assert buffer[..HEADER_SIZE] == h;
    }
    if HEADER_SIZE + |p.payload| <= |buffer| {
      ChecksumMatches(crc, p, buffer);
    }
  }

  // ---------------------------------------------------------------- the reader

  /** Pieces the file holds whole and the reader has not consumed. */
  function Rest(ps: seq<Piece>, next: nat, limit: nat): seq<Piece>
    requires next <= Inside(ps, limit)
  {
    ps[next..Inside(ps, limit)]
  }

  lemma RestStep(ps: seq<Piece>, next: nat, limit: nat)
    requires next < Inside(ps, limit)
    ensures Rest(ps, next, limit) != [] && Rest(ps, next, limit)[0] == ps[next]
    ensures Rest(ps, next, limit)[1..] == Rest(ps, next + 1, limit)
  {
  }

  lemma PrefixIsWellTyped(ps: seq<Piece>, k: nat)
    requires WellTyped(ps, None) && k <= |ps|
    ensures WellTyped(ps[..k], None)
  {
    assert ps == ps[..k] + ps[k..];
    AssembleConcat(ps[..k], ps[k..], None);
  }

  class Reader {
    const crc: Checksum
    const checksum: bool
    const file: Bytes
    var endOfBuffer: nat
    var buffer: Bytes
    var eof: bool
    var reports: seq<nat>
    ghost const whole: Bytes
    ghost const pieces: seq<Piece>
    ghost var next: nat

    /** The reader is somewhere in a prefix of an intact file. */
    ghost predicate InFile()
      reads this
    {
      && Intact(file, whole, crc, pieces)
      && Buffered(file, endOfBuffer, buffer, eof)
      && Aligned(file, endOfBuffer, buffer, eof, pieces, next)
    }

    ghost predicate Inv()
      reads this
    {
      InFile() && WellTyped(Rest(pieces, next, |file|), None)
    }

    /** The records wholly inside the file that have not been read yet. */
    ghost function Pending(): seq<Logged>
      requires InFile()
      reads this
    {
      Assemble(Rest(pieces, next, |file|), None)
    }

    constructor (crc: Checksum, checksum: bool, file: Bytes, ghost whole: Bytes, ghost pieces: seq<Piece>, ghost records: seq<Logged>)
      requires crc.Ok() && Spells(whole, crc, pieces, records, None) && file <= whole
      ensures Inv() && reports == [] && Pending() == UpTo(records, |file|)
    {
      this.crc, this.checksum, this.file := crc, checksum, file;
      endOfBuffer, buffer, eof, reports := 0, [], false, [];
      this.whole, this.pieces, next := whole, pieces, 0;
      new;
      PrefixIsWellTyped(pieces, Inside(pieces, |file|));
      AscendingEnds(whole, crc, pieces);
      InsideCompletes(pieces, None, |file|);
      assert pieces[..0] == [];
      assert Rest(pieces, 0, |file|) == pieces[..Inside(pieces, |file|)];
    }

    method ReportCorruption(bytes: nat)
      modifies this`reports
      ensures reports == old(reports) + [bytes]
    {
      reports := reports + [bytes];
    }

    /** Reads the next block when less than a header is left of this one. */
    method Refill()
      requires InFile() && |buffer| < HEADER_SIZE && !eof
      modifies this`endOfBuffer, this`buffer, this`eof
      ensures InFile() && (eof || |buffer| == BLOCK_SIZE)
    {
      var end := if |file| - endOfBuffer < BLOCK_SIZE then |file| else endOfBuffer + BLOCK_SIZE;
      RefillKeeps(file, endOfBuffer, buffer, end, file[endOfBuffer..end], pieces, next);
      buffer, endOfBuffer := file[endOfBuffer..end], end;
      eof := |buffer| < BLOCK_SIZE;
    }

    /** Buffers a header's worth of bytes, skipping a trailer, unless the file is exhausted. */
    method FillBuffer() returns (ok: bool)
      requires InFile()
      modifies this`endOfBuffer, this`buffer, this`eof
      ensures InFile()
      ensures if ok then |buffer| >= HEADER_SIZE else next == Inside(pieces, |file|)
    {
      while |buffer| < HEADER_SIZE
        invariant InFile()
        decreases if |buffer| >= HEADER_SIZE then 0 else if eof then 1 else 2
      {
        if !eof {
          Refill();
        } else {
          NothingLeft(file, whole, crc, endOfBuffer, buffer, pieces, next);
          buffer := [];
          return false;
        }
      }
      ok := true;
    }

    /** The type and payload of the next physical record, the end of the file, or a sign of damage. */
    method ReadPhysicalRecord() returns (kind: nat, fragment: Bytes)
      requires InFile()
      modifies this`endOfBuffer, this`buffer, this`eof, this`reports, this`next
      ensures InFile() && reports == old(reports)
      ensures old(next) < Inside(pieces, |file|) ==>
                next == old(next) + 1 && kind == pieces[old(next)].kind && fragment == pieces[old(next)].payload
      ensures old(next) == Inside(pieces, |file|) ==> next == old(next) && kind == EOF
    {
      var ok := FillBuffer();
      if !ok {
        return EOF, [];
      }
      kind, fragment := ParseRecord();
    }

    method ParseRecord() returns (kind: nat, fragment: Bytes)
      requires InFile() && |buffer| >= HEADER_SIZE
      modifies this`buffer, this`reports, this`next
      ensures reports == old(reports)
      ensures old(next) < Inside(pieces, |file|) ==>
                next == old(next) + 1 && kind == pieces[old(next)].kind && fragment == pieces[old(next)].payload
      ensures old(next) == Inside(pieces, |file|) ==> next == old(next) && kind == EOF
      ensures InFile()
    {
      HeaderIsGenuine(file, whole, crc, endOfBuffer, buffer, eof, pieces, next);
      kind, fragment := ParseHeader();
    }

    /** Acts on a header known to be the one the next piece was written with. */
    method ParseHeader() returns (kind: nat, fragment: Bytes)
      requires Buffered(file, endOfBuffer, buffer, eof) && |buffer| >= HEADER_SIZE && next <= Inside(pieces, |file|)
      requires next < |pieces| && Fits(pieces[next]) && pieces[next].start == endOfBuffer - |buffer|
      requires LengthField(buffer) == |pieces[next].payload| && buffer[6] as nat == pieces[next].kind
      requires var n := HEADER_SIZE + LengthField(buffer);
               n <= |buffer| ==> buffer[HEADER_SIZE..n] == pieces[next].payload
                                 && crc.unmask(DecodeFixed32(buffer[..4])) == crc.value(buffer[6..n])
      modifies this`buffer, this`reports, this`next
      ensures reports == old(reports)
      ensures old(next) < Inside(pieces, |file|) ==>
                next == old(next) + 1 && kind == pieces[old(next)].kind && fragment == pieces[old(next)].payload
      ensures old(next) == Inside(pieces, |file|) ==> next == old(next) && kind == EOF
      ensures Buffered(file, endOfBuffer, buffer, eof)
      ensures Aligned(file, endOfBuffer, buffer, eof, pieces, next)
    {
      hide Inside, LengthField, DecodeFixed32, Aligned, Buffered;
      kind, fragment := buffer[6] as nat, [];
      var length := LengthField(buffer);
      if HEADER_SIZE + length > |buffer| {
        CutOffIsEnd(file, endOfBuffer, buffer, eof, pieces, next);
        kind := DropBuffer();
      } else {
        var damaged := IsDamaged(kind, length);
        if damaged {
          kind := BAD_RECORD;
        } else {
          fragment := Consume(length);
        }
      }
    }

    method Consume(length: nat) returns (fragment: Bytes)
      requires Buffered(file, endOfBuffer, buffer, eof) && next < |pieces| && next <= Inside(pieces, |file|)
      requires Fits(pieces[next]) && pieces[next].start == endOfBuffer - |buffer|
      requires length == |pieces[next].payload| && HEADER_SIZE + length <= |buffer|
      modifies this`buffer, this`next
      ensures next == old(next) + 1 && fragment == old(buffer)[HEADER_SIZE..HEADER_SIZE + length]
      ensures old(next) < Inside(pieces, |file|)
      ensures Buffered(file, endOfBuffer, buffer, eof) && Aligned(file, endOfBuffer, buffer, eof, pieces, next)
    {
      ConsumeKeeps(file, endOfBuffer, buffer, eof, pieces, next);
      fragment := buffer[HEADER_SIZE..HEADER_SIZE + length];
      buffer := buffer[HEADER_SIZE + length..];
      next := next + 1;
    }

    /** A record that goes on past the buffer: the writer died here if the file ends here, damage otherwise. */
    method DropBuffer() returns (kind: nat)
      modifies this`buffer, this`reports
      ensures buffer == []
      ensures if eof then kind == EOF && reports == old(reports)
              else kind == BAD_RECORD && reports == old(reports) + [|old(buffer)|]
    {
      var dropSize := |buffer|;
      buffer, kind := [], EOF;
      if !eof {
        ReportCorruption(dropSize);
        kind := BAD_RECORD;
      }
    }

    /** A zeroed region or a checksum that does not match; either way the rest of the buffer goes. */
    method IsDamaged(kind: nat, length: nat) returns (damaged: bool)
      requires HEADER_SIZE + length <= |buffer|
      modifies this`buffer, this`reports
      ensures damaged <==>
                || (kind == ZERO_TYPE && length == 0)
                || (checksum && crc.unmask(DecodeFixed32(old(buffer)[..4])) != crc.value(old(buffer)[6..HEADER_SIZE + length]))
      ensures buffer == if damaged then [] else old(buffer)
      ensures reports == if !damaged || (kind == ZERO_TYPE && length == 0) then old(reports) else old(reports) + [|old(buffer)|]
    {
      if kind == ZERO_TYPE && length == 0 {
        buffer := [];
        return true;
      }
      if checksum {
        var expected := crc.unmask(DecodeFixed32(buffer[..4]));
        var actual := crc.value(buffer[6..HEADER_SIZE + length]);
        if actual != expected {
          var dropSize := |buffer|;
          buffer := [];
          ReportCorruption(dropSize);
          return true;
        }
      }
      damaged := false;
    }

    /**
      What one physical record does to the record under assembly.  In step with the writer it starts,
      extends or completes it; out of step, or damaged, the bytes given up are reported.
    */
    method TakeFragment(kind: nat, fragment: Bytes, inFragmentedRecord: bool, scratch: Bytes)
      returns (record: Option<Bytes>, inFragmentedRecord': bool, scratch': Bytes)
      modifies this`reports
      ensures var p, open := Piece(0, kind, fragment), Under(inFragmentedRecord, scratch);
              && (WellTyped([p], open) ==> reports == old(reports))
              && (record.Some? <==> Assemble([p], open) != [])
              && (record.Some? ==> record.value == Assemble([p], open)[0].data)
              && (kind != MIDDLE_TYPE && kind != LAST_TYPE && record == None
                  ==> Under(inFragmentedRecord', scratch') == NextScratch(p, open))
              && (kind == MIDDLE_TYPE ==> Under(inFragmentedRecord', scratch') == NextScratch(p, open))
              && (kind == LAST_TYPE && record == None ==> !inFragmentedRecord' && |reports| == |old(reports)| + 1)
              && (kind == BAD_RECORD && inFragmentedRecord ==> reports == old(reports) + [|scratch|])
      ensures old(reports) <= reports
    {
      record, inFragmentedRecord', scratch' := None, inFragmentedRecord, scratch;
      if kind == FULL_TYPE {
        if inFragmentedRecord && scratch != [] {
          ReportCorruption(|scratch|);
        }
        record := Some(fragment);
      } else if kind == FIRST_TYPE {
        if inFragmentedRecord && scratch != [] {
          ReportCorruption(|scratch|);
        }
        scratch', inFragmentedRecord' := fragment, true;
      } else if kind == MIDDLE_TYPE {
        if !inFragmentedRecord {
          ReportCorruption(|fragment|);
        } else {
          scratch' := scratch + fragment;
        }
      } else if kind == LAST_TYPE {
        if !inFragmentedRecord {
          ReportCorruption(|fragment|);
        } else {
          record := Some(scratch + fragment);
        }
      } else if kind == BAD_RECORD {
        if inFragmentedRecord {
          ReportCorruption(|scratch|);
          scratch', inFragmentedRecord' := [], false;
        }
      } else {
        ReportCorruption(|fragment| + if inFragmentedRecord then |scratch| else 0);
        scratch', inFragmentedRecord' := [], false;
      }
    }

    /** The next logical record put together from its fragments, or None at the end of the file. */
    method ReadRecord() returns (record: Option<Bytes>)
      requires Inv()
      modifies this`endOfBuffer, this`buffer, this`eof, this`reports, this`next
      ensures reports == old(reports) && InFile()
      ensures if old(Pending()) == [] then record == None && Pending() == []
              else record == Some(old(Pending())[0].data) && Pending() == old(Pending())[1..]
      ensures Inv()
    {
      var scratch: Bytes, inFragmentedRecord, ended := [], false, false;
      ghost var pending := Pending();
      record := None;
      while record == None && !ended
        invariant InFile() && reports == old(reports)
        invariant Outcome(Rest(pieces, next, |file|), Under(inFragmentedRecord, scratch), pending, ended, record)
        decreases Inside(pieces, |file|) - next, !ended
      {
        ended, record, inFragmentedRecord, scratch := ReadFragment(inFragmentedRecord, scratch, pending);
      }
    }

    method ReadFragment(inFragmentedRecord: bool, scratch: Bytes, ghost pending: seq<Logged>)
      returns (ended: bool, record: Option<Bytes>, inFragmentedRecord': bool, scratch': Bytes)
      requires InFile() && Assembling(Rest(pieces, next, |file|), Under(inFragmentedRecord, scratch), pending)
      modifies this`endOfBuffer, this`buffer, this`eof, this`reports, this`next
      ensures reports == old(reports) && (if ended then next == old(next) else next == old(next) + 1)
      ensures InFile()
      ensures Outcome(Rest(pieces, next, |file|), Under(inFragmentedRecord', scratch'), pending, ended, record)
    {
      ghost var at := next;
      var kind, fragment := ReadPhysicalRecord();
      if kind == EOF {
        EndOfPending(pieces, at, |file|, Under(inFragmentedRecord, scratch), pending);
        return true, None, false, [];
      }
      FragmentStep(pieces, at, |file|, Under(inFragmentedRecord, scratch), pending);
      ended := false;
      record, inFragmentedRecord', scratch' := TakeFragment(kind, fragment, inFragmentedRecord, scratch);
    }
  }

  /** How far reading one record has come: at the end of the file, with the record in hand, or in the middle of it. */
  ghost predicate Outcome(rest: seq<Piece>, scratch: Option<Bytes>, pending: seq<Logged>, ended: bool, record: Option<Bytes>) {
    match record
    case Some(data) => !ended && pending != [] && data == pending[0].data && Assembling(rest, None, pending[1..])
    case None => if ended then pending == [] && rest == [] else Assembling(rest, scratch, pending)
  }

  /** One piece of the rest: it completes the first pending record or goes under assembly. */
  lemma FragmentStep(ps: seq<Piece>, next: nat, limit: nat, scratch: Option<Bytes>, pending: seq<Logged>)
    requires next < Inside(ps, limit) && Assembling(Rest(ps, next, limit), scratch, pending)
    ensures var p := Piece(0, ps[next].kind, ps[next].payload);
            && WellTyped([p], scratch)
            && (Assemble([p], scratch) == [] ==> Assembling(Rest(ps, next + 1, limit), NextScratch(p, scratch), pending))
            && (Assemble([p], scratch) != [] ==> pending != [] && pending[0].data == Assemble([p], scratch)[0].data
                                                 && Assembling(Rest(ps, next + 1, limit), None, pending[1..]))
  {
    RestStep(ps, next, limit);
    var p := Piece(0, ps[next].kind, ps[next].payload);
    assert [p][1..] == [] && Assemble([], NextScratch(p, scratch)) == [];
    var rest := Assemble(Rest(ps, next + 1, limit), NextScratch(ps[next], scratch));
    assert [] + rest == rest;
    assert pending == rest || pending[1..] == rest;
  }

  lemma EndOfPending(ps: seq<Piece>, next: nat, limit: nat, scratch: Option<Bytes>, pending: seq<Logged>)
    requires next == Inside(ps, limit) && Assembling(Rest(ps, next, limit), scratch, pending)
    ensures pending == [] && Rest(ps, next, limit) == []
  {
    assert Rest(ps, next, limit) == [];
  }

  function Under(inFragmentedRecord: bool, scratch: Bytes): Option<Bytes> {
    if inFragmentedRecord then Some(scratch) else None
  }

  /** The pieces still to come finish the record under assembly and then spell the pending ones. */
  ghost predicate Assembling(rest: seq<Piece>, scratch: Option<Bytes>, pending: seq<Logged>) {
    WellTyped(rest, scratch) && Assemble(rest, scratch) == pending
  }

  // ---------------------------------------------------------------- round trips

  /** Writes the records of several sessions, each with a writer opened where the last one stopped. */
  method WriteSessions(crc: Checksum, sessions: seq<seq<Bytes>>)
    returns (file: Bytes, ghost pieces: seq<Piece>, ghost records: seq<Logged>)
    ensures Spells(file, crc, pieces, records, None)
    ensures DataOf(records) == Joined(sessions)
    ensures forall r | r in records :: r.end <= |file|
  {
    file, pieces, records := [], [], [];
    for i := 0 to |sessions|
      invariant Spells(file, crc, pieces, records, None)
      invariant DataOf(records) == Joined(sessions[..i])
      invariant forall r | r in records :: r.end <= |file|
    {
      assert sessions[..i + 1][..i] == sessions[..i];
      ghost var before := records;
      file, pieces, records := WriteSession(crc, file, pieces, records, sessions[i]);
    }
    assert sessions[..|sessions|] == sessions;
  }

  method WriteSession(crc: Checksum, file0: Bytes, ghost pieces0: seq<Piece>, ghost records0: seq<Logged>, session: seq<Bytes>)
    returns (file: Bytes, ghost pieces: seq<Piece>, ghost records: seq<Logged>)
    requires Spells(file0, crc, pieces0, records0, None) && forall r | r in records0 :: r.end <= |file0|
    ensures Spells(file, crc, pieces, records, None) && file0 <= file
    ensures DataOf(records) == DataOf(records0) + session
    ensures forall r | r in records :: r.end <= |file|
  {
    var w := new Writer.Reopen(crc, file0, pieces0, records0);
    assert session[..0] == [];
    for i := 0 to |session|
      invariant fresh(w) && w.Inv() && w.crc == crc && file0 <= w.dest
      invariant DataOf(w.records) == DataOf(records0) + session[..i]
      invariant forall r | r in w.records :: r.end <= |w.dest|
    {
      ghost var before := w.records;
      w.AddRecord(session[i]);
      OneMoreRecord(before, Logged(|w.dest|, session[i]), records0, session, i);
    }
    assert session[..|session|] == session;
    file, pieces, records := w.dest, w.pieces, w.records;
  }

  lemma OneMoreRecord(before: seq<Logged>, r: Logged, records0: seq<Logged>, session: seq<Bytes>, i: nat)
    requires i < |session| && r.data == session[i] && DataOf(before) == DataOf(records0) + session[..i]
    ensures DataOf(before + [r]) == DataOf(records0) + session[..i + 1]
  {
    assert DataOf(before + [r]) == DataOf(before) + [r.data];
    assert session[..i + 1] == session[..i] + [session[i]];
  }

  function DataOf(records: seq<Logged>): seq<Bytes> {
    seq(|records|, i requires 0 <= i < |records| => records[i].data)
  }

  function Joined(sessions: seq<seq<Bytes>>): seq<Bytes> {
    if sessions == [] then [] else Joined(sessions[..|sessions| - 1]) + sessions[|sessions| - 1]
  }

  /** Reads a file to its end. */
  method ReadAll(crc: Checksum, checksum: bool, file: Bytes, ghost whole: Bytes, ghost pieces: seq<Piece>, ghost records: seq<Logged>)
    returns (data: seq<Bytes>, reports: seq<nat>)
    requires crc.Ok() && Spells(whole, crc, pieces, records, None) && file <= whole
    ensures data == DataOf(UpTo(records, |file|)) && reports == []
  {
    var r := new Reader(crc, checksum, file, whole, pieces, records);
    data := [];
    ghost var inside, pending := UpTo(records, |file|), r.Pending();
    var record := r.ReadRecord();
    ReadOneMore([], inside, pending, record, r.Pending());
    while record.Some?
      invariant fresh(r) && r.Inv() && r.reports == []
      invariant ReadSoFar(data, record, r.Pending(), inside)
      decreases |r.Pending()|, record.Some?
    {
      data := data + [record.value];
      pending := r.Pending();
      record := r.ReadRecord();
      ReadOneMore(data, inside, pending, record, r.Pending());
    }
    reports := r.reports;
  }

  ghost predicate ReadSoFar(data: seq<Bytes>, record: Option<Bytes>, pending: seq<Logged>, all: seq<Logged>) {
    match record
    case Some(value) => data + [value] + DataOf(pending) == DataOf(all)
    case None => data == DataOf(all) && pending == []
  }

  lemma ReadOneMore(data: seq<Bytes>, all: seq<Logged>, pending: seq<Logged>, record: Option<Bytes>, pending': seq<Logged>)
    requires data + DataOf(pending) == DataOf(all)
    requires if pending == [] then record == None && pending' == []
             else record == Some(pending[0].data) && pending' == pending[1..]
    ensures ReadSoFar(data, record, pending', all)
  {
    if pending != [] {
      assert DataOf(pending) == [pending[0].data] + DataOf(pending[1..]);
      assert data + [pending[0].data] + DataOf(pending[1..]) == data + ([pending[0].data] + DataOf(pending[1..]));
    }
  }

  lemma {:induction false} UpToAll(records: seq<Logged>, limit: nat)
    requires forall r | r in records :: r.end <= limit
    ensures UpTo(records, limit) == records
  {
    if records != [] {
      assert records[0] in records;
      UpToAll(records[1..], limit);
    }
  }

  /**
    Whatever was written in any number of sessions comes back from the whole file, and from any prefix
    of it come back exactly the records wholly inside; neither reports damage. The pieces are all of the
    file, and they spell the records with their ends.
  */
  method LogRoundTrip(crc: Checksum, checksum: bool, sessions: seq<seq<Bytes>>, cut: nat)
    returns (file: Bytes, ghost pieces: seq<Piece>, ghost records: seq<Logged>,
             all: seq<Bytes>, some: seq<Bytes>, reports: seq<nat>)
    requires crc.Ok()
    ensures Spells(file, crc, pieces, records, None)
    ensures DataOf(records) == Joined(sessions) == all
    ensures cut <= |file| ==> some == DataOf(UpTo(records, cut))
    ensures reports == []
  {
    file, pieces, records := WriteSessions(crc, sessions);
    UpToAll(records, |file|);
    all, reports := ReadAll(crc, checksum, file, file, pieces, records);
    some := [];
    if cut <= |file| {
      var more;
      some, more := ReadAll(crc, checksum, file[..cut], file, pieces, records);
      reports := reports + more;
    }
  }
}
