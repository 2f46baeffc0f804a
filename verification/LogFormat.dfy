/**
  The log file format: records cut into fragments that never cross a block boundary (db/log_format.h).

  A checksum is any function of the type byte and payload whose stored form can be undone.
*/
module LogFormat {
  import opened Base
  import opened Coding

  const BLOCK_SIZE: nat := 32768
  const HEADER_SIZE: nat := 7

  const ZERO_TYPE: nat := 0
  const FULL_TYPE: nat := 1
  const FIRST_TYPE: nat := 2
  const MIDDLE_TYPE: nat := 3
  const LAST_TYPE: nat := 4

  datatype Checksum = Checksum(value: Bytes -> Word, mask: Word -> Word, unmask: Word -> Word) {
    ghost predicate Ok() {
      forall w: Word :: unmask(mask(w)) == w
    }
  }

  function Header(crc: Checksum, kind: nat, payload: Bytes): Bytes
    requires kind <= LAST_TYPE && |payload| < 65536
  {
    EncodeFixed32(crc.mask(crc.value([kind as byte] + payload)))
      + [(|payload| % 256) as byte, (|payload| / 256) as byte, kind as byte]
  }

  // ---------------------------------------------------------------- layout of an intact file

  /** A physical record: where its header starts, its type and its payload. */
  datatype Piece = Piece(start: nat, kind: nat, payload: Bytes) {
    function End(): nat { start + HEADER_SIZE + |payload| }
  }

  /** Where the next physical record may start: a header is never split over two blocks. */
  function Align(p: nat): (r: nat)
    ensures p <= r < p + HEADER_SIZE && r % BLOCK_SIZE + HEADER_SIZE <= BLOCK_SIZE
  {
    var leftover := BLOCK_SIZE - p % BLOCK_SIZE;
    if leftover < HEADER_SIZE then p + leftover else p
  }

  predicate Fits(p: Piece) {
    && FULL_TYPE <= p.kind <= LAST_TYPE
    && p.start % BLOCK_SIZE + HEADER_SIZE + |p.payload| <= BLOCK_SIZE
  }

  function EndOf(ps: seq<Piece>): nat {
    if ps == [] then 0 else ps[|ps| - 1].End()
  }

  ghost predicate Stored(file: Bytes, crc: Checksum, p: Piece) {
    Fits(p) && p.End() <= |file| && file[p.start..p.End()] == Header(crc, p.kind, p.payload) + p.payload
  }

  ghost predicate Layout(file: Bytes, crc: Checksum, ps: seq<Piece>) {
    |file| == EndOf(ps) && forall i: nat | i < |ps| :: InPlace(file, crc, ps, i)
  }

  /** Piece `i` is stored where the one before it lets it start. */
  ghost predicate InPlace(file: Bytes, crc: Checksum, ps: seq<Piece>, i: nat) {
    i < |ps| && Stored(file, crc, ps[i]) && ps[i].start == Align(EndOf(ps[..i]))
  }

  lemma StoredExtends(file: Bytes, more: Bytes, crc: Checksum, p: Piece)
    requires Stored(file, crc, p)
    ensures Stored(file + more, crc, p)
  {
    assert (file + more)[p.start..p.End()] == file[p.start..p.End()];
  }

  lemma StoredAtEnd(file: Bytes, crc: Checksum, p: Piece)
    requires Fits(p) && p.start == |file|
    ensures Stored(file + (Header(crc, p.kind, p.payload) + p.payload), crc, p)
  {
    var body := Header(crc, p.kind, p.payload) + p.payload;
    assert (file + body)[|file|..|file| + |body|] == body;
  }

  lemma AppendPiece(file: Bytes, crc: Checksum, ps: seq<Piece>, pad: Bytes, p: Piece)
    requires Layout(file, crc, ps) && Fits(p)
    requires p.start == Align(|file|) && |pad| == p.start - |file|
    ensures Layout(file + pad + Header(crc, p.kind, p.payload) + p.payload, crc, ps + [p])
  {
    var body := Header(crc, p.kind, p.payload) + p.payload;
    var file' := file + pad + body;
    assert file + pad + Header(crc, p.kind, p.payload) + p.payload == file';
    StoredAtEnd(file + pad, crc, p);
    forall i: nat | i < |ps + [p]|
      ensures InPlace(file', crc, ps + [p], i)
    {
      assert (ps + [p])[..i] == ps[..i];
      if i < |ps| {
        assert InPlace(file, crc, ps, i);
        StoredExtends(file, pad, crc, ps[i]);
        StoredExtends(file + pad, body, crc, ps[i]);
      } else {
        assert ps[..i] == ps;
      }
    }
  }

  lemma {:induction false} EndsIncrease(file: Bytes, crc: Checksum, ps: seq<Piece>, i: nat, j: nat)
    requires Layout(file, crc, ps) && i < j < |ps|
    ensures ps[i].End() <= ps[j].start < ps[j].End()
    decreases j
  {
    assert InPlace(file, crc, ps, j);
    if i < j - 1 {
      EndsIncrease(file, crc, ps, i, j - 1);
    }
  }

  lemma AscendingEnds(file: Bytes, crc: Checksum, ps: seq<Piece>)
    requires Layout(file, crc, ps)
    ensures EndsAscend(ps)
  {
    forall i, j | 0 <= i < j < |ps|
      ensures ps[i].End() < ps[j].End()
    {
      EndsIncrease(file, crc, ps, i, j);
    }
  }

  // ---------------------------------------------------------------- logical records

  /** A logical record and the file length just after it was written. */
  datatype Logged = Logged(end: nat, data: Bytes)

  /** The record under assembly after the pieces. */
  function Scratch(ps: seq<Piece>, scratch: Option<Bytes>): Option<Bytes> {
    if ps == [] then scratch
    else Scratch(ps[1..], NextScratch(ps[0], scratch))
  }

  function NextScratch(p: Piece, scratch: Option<Bytes>): Option<Bytes> {
    if p.kind == FIRST_TYPE then Some(p.payload)
    else if p.kind == MIDDLE_TYPE && scratch.Some? then Some(scratch.value + p.payload)
    else None
  }

  /** The record a piece completes, if any. */
  function Completed(p: Piece, scratch: Option<Bytes>): seq<Logged> {
    if p.kind == FULL_TYPE then [Logged(p.End(), p.payload)]
    else if p.kind == LAST_TYPE && scratch.Some? then [Logged(p.End(), scratch.value + p.payload)]
    else []
  }

  /** The logical records the pieces complete, starting with `scratch` under assembly. */
  function Assemble(ps: seq<Piece>, scratch: Option<Bytes>): seq<Logged> {
    if ps == [] then [] else Completed(ps[0], scratch) + Assemble(ps[1..], NextScratch(ps[0], scratch))
  }

  /** Fragments follow one another as the types say. */
  predicate WellTyped(ps: seq<Piece>, scratch: Option<Bytes>) {
    ps != [] ==>
      && (if scratch.Some? then ps[0].kind in {MIDDLE_TYPE, LAST_TYPE} else ps[0].kind in {FULL_TYPE, FIRST_TYPE})
      && WellTyped(ps[1..], NextScratch(ps[0], scratch))
  }

  lemma {:induction false} AssembleConcat(ps: seq<Piece>, qs: seq<Piece>, scratch: Option<Bytes>)
    ensures Assemble(ps + qs, scratch) == Assemble(ps, scratch) + Assemble(qs, Scratch(ps, scratch))
    ensures Scratch(ps + qs, scratch) == Scratch(qs, Scratch(ps, scratch))
    ensures WellTyped(ps + qs, scratch) <==> WellTyped(ps, scratch) && WellTyped(qs, Scratch(ps, scratch))
  {
    if ps == [] {
      assert ps + qs == qs;
    } else {
      var next := NextScratch(ps[0], scratch);
      assert (ps + qs)[1..] == ps[1..] + qs;
      AssembleConcat(ps[1..], qs, next);
      var a, b, c := Completed(ps[0], scratch), Assemble(ps[1..], next), Assemble(qs, Scratch(ps[1..], next));
      assert a + (b + c) == (a + b) + c;
    }
  }

  /** The records that end at or before `limit`. */
  function UpTo(records: seq<Logged>, limit: nat): seq<Logged> {
    if records == [] || records[0].end > limit then [] else [records[0]] + UpTo(records[1..], limit)
  }

  /** How many pieces lie wholly within the first `limit` bytes. */
  function Inside(ps: seq<Piece>, limit: nat): (k: nat)
    ensures k <= |ps|
    ensures forall i | 0 <= i < k :: ps[i].End() <= limit
    ensures k < |ps| ==> ps[k].End() > limit
  {
    if ps == [] || ps[0].End() > limit then 0 else 1 + Inside(ps[1..], limit)
  }

  predicate EndsAscend(ps: seq<Piece>) {
    forall i, j | 0 <= i < j < |ps| :: ps[i].End() < ps[j].End()
  }

  lemma {:induction false} LateRecords(ps: seq<Piece>, scratch: Option<Bytes>, limit: nat)
    requires forall i | 0 <= i < |ps| :: ps[i].End() > limit
    ensures UpTo(Assemble(ps, scratch), limit) == []
  {
    if ps != [] {
      var rest := Assemble(ps[1..], NextScratch(ps[0], scratch));
      LateRecords(ps[1..], NextScratch(ps[0], scratch), limit);
      assert Assemble(ps, scratch) == rest || Assemble(ps, scratch)[0].end == ps[0].End();
    }
  }

  lemma UpToFirst(r: Logged, rest: seq<Logged>, limit: nat)
    ensures UpTo([r] + rest, limit) == if r.end > limit then [] else [r] + UpTo(rest, limit)
  {
    assert ([r] + rest)[1..] == rest;
  }

  lemma InsideFirst(ps: seq<Piece>, limit: nat)
    requires ps != [] && ps[0].End() <= limit
    ensures Inside(ps, limit) == 1 + Inside(ps[1..], limit)
    ensures ps[..Inside(ps, limit)] != [] && ps[..Inside(ps, limit)][0] == ps[0]
    ensures ps[..Inside(ps, limit)][1..] == ps[1..][..Inside(ps[1..], limit)]
  {
  }

  /** The pieces wholly inside a prefix complete exactly the records wholly inside it. */
  lemma {:induction false} InsideCompletes(ps: seq<Piece>, scratch: Option<Bytes>, limit: nat)
    requires EndsAscend(ps)
    ensures Assemble(ps[..Inside(ps, limit)], scratch) == UpTo(Assemble(ps, scratch), limit)
  {
    if ps == [] {
    } else if ps[0].End() > limit {
      LateRecords(ps, scratch, limit);
      assert ps[..0] == [];
    } else {
      hide UpTo, NextScratch;
      InsideFirst(ps, limit);
      var next := NextScratch(ps[0], scratch);
      InsideCompletes(ps[1..], next, limit);
      var rest := Assemble(ps[1..], next);
      assert [] + rest == rest;
      if ps[0].kind == FULL_TYPE {
        UpToFirst(Logged(ps[0].End(), ps[0].payload), rest, limit);
      } else if ps[0].kind == LAST_TYPE && scratch.Some? {
        UpToFirst(Logged(ps[0].End(), scratch.value + ps[0].payload), rest, limit);
      }
    }
  }
}
