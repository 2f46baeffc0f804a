/** Output streams and the encoder with its two passes over a submessage (pb_encode.c). */
module NanopbEncode {
  import opened Base
  import Coding
  import opened NanopbFormat
  import opened NanopbFields

  datatype Complaint = StreamFull | ArrayTooLong | BytesTooLong | InvalidDataSize | SubmessageSizeChanged

  // ---------------------------------------------------------------- what a stream has taken

  /** A stream without a callback only counts. */
  datatype Sink = Sink(writing: bool, maxSize: nat, state: Bytes, bytesWritten: nat)

  predicate Fits(s: Sink, count: nat) {
    s.writing ==> s.bytesWritten + count <= s.maxSize
  }

  function Put(s: Sink, out: Bytes): Sink {
    s.(state := if s.writing then s.state + out else s.state, bytesWritten := s.bytesWritten + |out|)
  }

  /**
    One encoding step: it succeeds exactly when the data is encodable and its bytes fit, and has then
    put out those bytes; encodable data is refused only for want of room.
  */
  ghost predicate Outcome(ok: bool, encodable: bool, out: Bytes, before: Sink, after: Sink,
                          error: Option<Complaint>, complaint: Option<Complaint>) {
    && (ok <==> encodable && Fits(before, |out|))
    && (ok ==> after == Put(before, out))
    && after.writing == before.writing && after.maxSize == before.maxSize
    && Fits(after, 0)
    && (!ok && encodable ==> complaint == Some(StreamFull))
    && Quiet(error, complaint)
  }

  lemma PutTwice(s: Sink, a: Bytes, b: Bytes)
    ensures Put(Put(s, a), b) == Put(s, a + b)
    ensures Fits(s, |a + b|) ==> Fits(s, |a|)
    ensures Fits(Put(s, a), |b|) <==> Fits(s, |a + b|)
  {
    Coding.Associative(s.state, a, b);
  }

  /** The loop of pb_encode_varint after `done`: `v` is left of `value`, or only the last high bit must go. */
  ghost predicate Coded(done: Bytes, v: nat, value: nat) {
    if v > 0 then Coding.EncodeVarint(value) == done + Coding.EncodeVarint(v)
    else
      && |done| > 0 && done[|done| - 1] >= 128
      && Coding.EncodeVarint(value) == done[..|done| - 1] + [done[|done| - 1] - 128]
  }

  /** `v` is what `i` groups of seven bits leave of `value`. */
  ghost predicate Remaining(v: nat, i: nat, value: nat) {
    v * Coding.Pow128(i) <= value
  }

  lemma TenBytesAreEnough(v: nat, i: nat, value: nat)
    requires v > 0 && Remaining(v, i, value) && value < U64 && i <= 10
    ensures i < 10
    ensures Remaining(v / 128, i + 1, value)
  {
    var p := Coding.Pow128(i);
    assert v / 128 * (128 * p) == v / 128 * 128 * p;
    Scaled(v / 128 * 128, v, p);
    if i == 10 {
      assert Coding.Pow128(5) == 128 * (128 * (128 * (128 * 128)));
      assert p == 128 * (128 * (128 * (128 * (128 * Coding.Pow128(5)))));
      Scaled(1, v, p);
    }
  }

  lemma CodedFurther(done: Bytes, v: nat, value: nat)
    requires v > 0 && Coded(done, v, value)
    ensures Coded(done + [(v % 128 + 128) as byte], v / 128, value)
  {
    var b := (v % 128 + 128) as byte;
    if v < 128 {
      assert (done + [b])[..|done|] == done;
    } else {
      Coding.Associative(done, [b], Coding.EncodeVarint(v / 128));
    }
  }

  /** Values above 0x7F fill part of a ten-byte buffer, least significant bits first. */
  method LongVarint(value: nat) returns (buffer: array<byte>, i: nat)
    requires 0x7F < value < U64
    ensures i <= buffer.Length == 10 && buffer[..i] == Coding.EncodeVarint(value)
  {
    buffer := new byte[10];
    i := 0;
    var v := value;
    while v > 0
      invariant v >= 0 && Remaining(v, i, value) && i <= 10
      invariant Coded(buffer[..i], v, value)
      decreases v
    {
      TenBytesAreEnough(v, i, value);
      CodedFurther(buffer[..i], v, value);
      buffer[i] := (v % 128 + 128) as byte;
      i := i + 1;
      v := v / 128;
      assert buffer[..i] == buffer[..i - 1] + [buffer[i - 1]];
    }
    ghost var code := buffer[..i];
    buffer[i - 1] := buffer[i - 1] - 128;
    assert buffer[..i] == code[..i - 1] + [code[i - 1] - 128];
  }

  class OStream {
    /** Is there a callback to hand the bytes to? */
    var writing: bool
    /** What the callback has been given. */
    var state: Bytes
    var maxSize: nat
    var bytesWritten: nat
    var errmsg: Option<Complaint>

    ghost function Sunk(): Sink
      reads this
    {
      Sink(writing, maxSize, state, bytesWritten)
    }

    ghost predicate Valid()
      reads this
    {
      Fits(Sunk(), 0)
    }

    /** PB_OSTREAM_SIZING. */
    constructor Sizing()
      ensures Valid() && Sunk() == Sink(false, 0, [], 0) && errmsg == None
    {
      writing, maxSize, state, bytesWritten, errmsg := false, 0, [], 0, None;
    }

    constructor FromBuffer(bufSize: nat)
      ensures Valid() && Sunk() == Sink(true, bufSize, [], 0) && errmsg == None
    {
      writing, maxSize, state, bytesWritten, errmsg := true, bufSize, [], 0, None;
    }

    method Write(buf: Bytes) returns (ok: bool)
      requires Valid()
      modifies `state, `bytesWritten, `errmsg
      ensures Outcome(ok, true, buf, old(Sunk()), Sunk(), old(errmsg), errmsg)
    {
      if |buf| > 0 && writing {
        if bytesWritten + |buf| > maxSize {
          errmsg := Some(StreamFull);
          return false;
        }
        state := state + buf;
      }
      bytesWritten := bytesWritten + |buf|;
      ok := true;
    }

    /** Counts bytes that are not at hand. */
    method Skip(count: nat)
      requires !writing
      modifies `bytesWritten
      ensures bytesWritten == old(bytesWritten) + count
    {
      bytesWritten := bytesWritten + count;
    }

    method EncodeVarint(value: nat) returns (ok: bool)
      requires Valid() && value < U64
      modifies `state, `bytesWritten, `errmsg
      ensures Outcome(ok, true, Coding.EncodeVarint(value), old(Sunk()), Sunk(), old(errmsg), errmsg)
    {
      if value <= 0x7F {
        ok := Write([value as byte]);
        return;
      }
      var buffer, count := LongVarint(value);
      ok := Write(buffer[..count]);
    }

    method EncodeSvarint(value: int) returns (ok: bool)
      requires Valid() && InSigned(8, value)
      modifies `state, `bytesWritten, `errmsg
      ensures Outcome(ok, true, Coding.EncodeVarint(ZigZag(value)), old(Sunk()), Sunk(), old(errmsg), errmsg)
    {
      var doubled := AsUnsigned(value) * 2 % U64;
      var zigzagged := if value < 0 then U64 - 1 - doubled else doubled;
      assert zigzagged == ZigZag(value);
      ok := EncodeVarint(zigzagged);
    }

    method EncodeTag(wireType: WireType, fieldNumber: nat) returns (ok: bool)
      requires Valid() && fieldNumber < 0x1_0000_0000
      modifies `state, `bytesWritten, `errmsg
      ensures Outcome(ok, true, TagBytes(wireType, fieldNumber), old(Sunk()), Sunk(), old(errmsg), errmsg)
    {
      ok := EncodeVarint(8 * fieldNumber + WireCode(wireType));
    }

    method EncodeTagForField(f: Field) returns (ok: bool)
      requires Valid() && f.tag < 0x1_0000_0000
      modifies `state, `bytesWritten, `errmsg
      ensures Outcome(ok, true, TagBytes(WireOf(f.ltype), f.tag), old(Sunk()), Sunk(), old(errmsg), errmsg)
    {
      var wireType :=
        match f.ltype
        case Bool => VarintWire
        case Varint(_) => VarintWire
        case Uvarint(_) => VarintWire
        case Svarint(_) => VarintWire
        case Fixed32 => Wire32Bit
        case Fixed64 => Wire64Bit
        case _ => StringWire;
      ok := EncodeTag(wireType, f.tag);
    }

    method EncodeString(buffer: Bytes) returns (ok: bool)
      requires Valid() && |buffer| < U64
      modifies `state, `bytesWritten, `errmsg
      ensures Outcome(ok, true, Coding.EncodeString(buffer), old(Sunk()), Sunk(), old(errmsg), errmsg)
    {
      PutTwice(Sunk(), Coding.EncodeVarint(|buffer|), buffer);
      ok := EncodeVarint(|buffer|);
      if !ok {
        return;
      }
      ok := Write(buffer);
    }
  }

  lemma Scaled(a: nat, b: nat, p: nat)
    requires a <= b
    ensures a * p <= b * p
  {
  }

  // ---------------------------------------------------------------- lengths

  lemma {:induction false} TextIsPrefix(b: Bytes, room: nat, size: nat)
    requires size <= |b| && size <= room
    requires forall k :: 0 <= k < size ==> b[k] != 0
    requires size == room || size == |b| || b[size] == 0
    ensures Text(b, room) == b[..size]
    decreases size
  {
    if size > 0 {
      TextIsPrefix(b[1..], room - 1, size - 1);
      assert b[..size] == [b[0]] + b[1..][..size - 1];
    }
  }

  /** Items of a fixed-size type take that size each. */
  lemma {:induction false} FixedSizes(t: LType, items: seq<Value>)
    requires t.Fixed32? || t.Fixed64?
    requires AllTyped(t, items)
    ensures |PackedBytes(t, items)| == DataSize(t) * |items| && AllEncodable(t, items)
  {
    if items != [] {
      FixedSizes(t, items[1..]);
      assert |ValueBytes(t, items[0])| == DataSize(t);
    }
  }

  /** Taking item `i` off the front of what is left of a packed array. */
  lemma NextPacked(t: LType, items: seq<Value>, i: nat)
    requires AllTyped(t, items)
    requires i < |items|
    ensures PackedBytes(t, items[i..]) == ValueBytes(t, items[i]) + PackedBytes(t, items[i + 1..])
    ensures AllEncodable(t, items[i..]) <==> Encodable(t, items[i]) && AllEncodable(t, items[i + 1..])
  {
    var left := items[i..];
    assert left[1..] == items[i + 1..];
    assert AllEncodable(t, left) <==> Encodable(t, left[0]) && AllEncodable(t, left[1..]);
  }

  /** The same for an array that is not packed. */
  lemma NextTagged(t: LType, tag: nat, items: seq<Value>, i: nat)
    requires AllTyped(t, items)
    requires i < |items|
    ensures TaggedBytes(t, tag, items[i..])
         == TagBytes(WireOf(t), tag) + ValueBytes(t, items[i]) + TaggedBytes(t, tag, items[i + 1..])
    ensures AllEncodable(t, items[i..]) <==> Encodable(t, items[i]) && AllEncodable(t, items[i + 1..])
  {
    var left := items[i..];
    assert left[1..] == items[i + 1..];
    assert AllEncodable(t, left) <==> Encodable(t, left[0]) && AllEncodable(t, left[1..]);
  }

  // ---------------------------------------------------------------- proto3 defaults

  method CheckProto3Default(f: Field, s: Slot) returns (isDefault: bool)
    requires TypeOk(f.ltype) && SlotTyped(f, s)
    ensures isDefault <==> IsDefault(f, s)
    decreases f, 1
  {
    match f.htype
    case Required => return false;
    case Repeated(_) => return |s.items| == 0;
    case OneOf => return s.which == 0;
    case Optional => return !s.has;
    case Singular =>
      match f.ltype
      case Bool => return !s.value.b;
      case Submessage(sub, _) => isDefault := CheckSubmessageDefault(sub, s.value.slots);
      case BytesArray(_) => return |s.value.bytes| == 0;
      case CString(_) => return |s.value.bytes| == 0 || s.value.bytes[0] == 0;
      case FixedLengthBytes(size) => return size == 0;
      case _ => return s.value.n == 0;
  }

  method CheckSubmessageDefault(sub: MessageType, m: Message) returns (isDefault: bool)
    requires SchemaOk(sub) && WellTyped(sub, m)
    ensures isDefault <==> AllDefault(sub, m)
    decreases sub
  {
    var iter := new FieldIter(sub);
    var more := iter.Begin();
    while more
      invariant iter.Valid() && (more ==> iter.pos < |sub.fields|)
      invariant more ==> forall i :: 0 <= i < iter.pos ==> IsDefault(sub.fields[i], m[sub.fields[i].at])
      invariant !more ==> AllDefault(sub, m)
      decreases if more then |sub.fields| - iter.pos else 0
    {
      var current := CheckProto3Default(sub.fields[iter.pos], m[iter.pData]);
      if !current {
        return false;
      }
      more := iter.Next();
    }
    return true;
  }

  // ---------------------------------------------------------------- the two passes

  /** One item, by the encoder of its type. */
  method EncodeItem(stream: OStream, t: LType, v: Value) returns (ok: bool)
    requires stream.Valid() && TypeOk(t) && HasType(t, v)
    requires |ValueBytes(t, v)| < U64
    modifies stream
    ensures Outcome(ok, Encodable(t, v), ValueBytes(t, v), old(stream.Sunk()), stream.Sunk(),
                    old(stream.errmsg), stream.errmsg)
    decreases t, 1
  {
    match t
    case Bool =>
      ok := stream.EncodeVarint(if v.b then 1 else 0);
    case Varint(width) =>
      ok := EncodeSized(stream, width, AsUnsigned(v.n));
    case Uvarint(width) =>
      ok := EncodeSized(stream, width, v.n);
    case Svarint(width) =>
      if !ValidWidth(width) {
        stream.errmsg := Some(InvalidDataSize);
        return false;
      }
      ok := stream.EncodeSvarint(v.n);
    case Fixed32 =>
      ok := stream.Write(Coding.EncodeFixed32(v.n));
    case Fixed64 =>
      ok := stream.Write(Coding.EncodeFixed64(v.n));
    case BytesArray(capacity) =>
      if BYTES_HEADER + |v.bytes| > capacity {
        stream.errmsg := Some(BytesTooLong);
        return false;
      }
      ok := stream.EncodeString(v.bytes);
    case CString(room) =>
      var size := 0;
      while size < room && size < |v.bytes| && v.bytes[size] != 0
        invariant size <= room && size <= |v.bytes|
        invariant forall k :: 0 <= k < size ==> v.bytes[k] != 0
        invariant stream.Sunk() == old(stream.Sunk()) && stream.errmsg == old(stream.errmsg)
      {
        size := size + 1;
      }
      TextIsPrefix(v.bytes, room, size);
      ok := stream.EncodeString(v.bytes[..size]);
    case Submessage(sub, _) =>
      ok := EncodeSubmessage(stream, sub, v.slots);
    case FixedLengthBytes(_) =>
      ok := stream.EncodeString(v.bytes);
  }

  /** A plain varint from a member of `width` bytes. */
  method EncodeSized(stream: OStream, width: nat, value: nat) returns (ok: bool)
    requires stream.Valid() && value < U64
    modifies stream
    ensures Outcome(ok, ValidWidth(width), Coding.EncodeVarint(value), old(stream.Sunk()), stream.Sunk(),
                    old(stream.errmsg), stream.errmsg)
  {
    if width == 1 || width == 2 || width == 4 || width == 8 {
      ok := stream.EncodeVarint(value);
    } else {
      stream.errmsg := Some(InvalidDataSize);
      ok := false;
    }
  }

  /** Closes a submessage: did the second pass write what the first one counted? */
  method CheckSize(stream: OStream, written: nat, size: nat, status: bool) returns (ok: bool)
    modifies stream`errmsg
    ensures written == size ==> ok == status && stream.errmsg == old(stream.errmsg)
    ensures written != size ==> !ok && stream.errmsg == Some(SubmessageSizeChanged)
  {
    if written != size {
      stream.errmsg := Some(SubmessageSizeChanged);
      return false;
    }
    ok := status;
  }

  /** The length, found by a pass that only counts, and then the message. */
  method EncodeSubmessage(stream: OStream, sub: MessageType, m: Message) returns (ok: bool)
    requires stream.Valid() && SchemaOk(sub) && WellTyped(sub, m)
    requires |Coding.EncodeString(MessageBytes(sub, m))| < U64
    modifies stream
    ensures Outcome(ok, MessageEncodable(sub, m), Coding.EncodeString(MessageBytes(sub, m)),
                    old(stream.Sunk()), stream.Sunk(), old(stream.errmsg), stream.errmsg)
    decreases sub, |sub.fields| + 2
  {
    ghost var out := MessageBytes(sub, m);
    var substream := new OStream.Sizing();
    ok := Encode(substream, sub, m);
    if !ok {
      stream.errmsg := substream.errmsg;
      return false;
    }
    var size := substream.bytesWritten;
    PutTwice(stream.Sunk(), Coding.EncodeVarint(size), out);
    ok := stream.EncodeVarint(size);
    if !ok {
      return;
    }
    if !stream.writing {
      stream.Skip(size);
      return true;
    }
    if stream.bytesWritten + size > stream.maxSize {
      stream.errmsg := Some(StreamFull);
      return false;
    }
    substream.writing, substream.state := stream.writing, stream.state;
    substream.maxSize, substream.bytesWritten, substream.errmsg := size, 0, None;
    var status := Encode(substream, sub, m);
    stream.bytesWritten := stream.bytesWritten + substream.bytesWritten;
    stream.state := substream.state;
    stream.errmsg := substream.errmsg;
    ok := CheckSize(stream, substream.bytesWritten, size, status);
  }

  /** Every item of a packed array. */
  method EncodePackedItems(stream: OStream, t: LType, items: seq<Value>) returns (ok: bool)
    requires stream.Valid() && TypeOk(t) && AllTyped(t, items)
    requires |PackedBytes(t, items)| < U64
    modifies stream
    ensures Outcome(ok, AllEncodable(t, items), PackedBytes(t, items), old(stream.Sunk()), stream.Sunk(),
                    old(stream.errmsg), stream.errmsg)
    decreases t, 2
  {
    var i := 0;
    assert items[0..] == items;
    ghost var s0, error := stream.Sunk(), stream.errmsg;
    assert PackedSoFar(t, items, 0, s0, error, s0, error);
    while i < |items|
      invariant i <= |items| && stream.Valid()
      invariant PackedSoFar(t, items, i, s0, error, stream.Sunk(), stream.errmsg)
    {
      ghost var s1, e1 := stream.Sunk(), stream.errmsg;
      NextPacked(t, items, i);
      ok := EncodeItem(stream, t, items[i]);
      AdvancePacked(t, items, i, s0, error, s1, e1, ok, stream.Sunk(), stream.errmsg);
      if !ok {
        return;
      }
      i := i + 1;
    }
    Finish(s0, PackedBytes(t, items), error, stream.Sunk(), stream.errmsg);
    return true;
  }

  /** Items before `i` are encodable and put out, the rest is still to come. */
  ghost predicate PackedSoFar(t: LType, items: seq<Value>, i: nat, s0: Sink, error: Option<Complaint>,
                              s: Sink, complaint: Option<Complaint>)
    requires AllTyped(t, items) && i <= |items|
  {
    && Progress(s0, PackedBytes(t, items), s, PackedBytes(t, items[i..]))
    && |PackedBytes(t, items[i..])| < U64
    && (AllEncodable(t, items) <==> AllEncodable(t, items[i..]))
    && Quiet(error, complaint)
  }

  lemma AdvancePacked(t: LType, items: seq<Value>, i: nat, s0: Sink, error: Option<Complaint>,
                      s: Sink, before: Option<Complaint>, ok: bool, after: Sink, complaint: Option<Complaint>)
    requires AllTyped(t, items) && i < |items| && PackedSoFar(t, items, i, s0, error, s, before)
    requires Outcome(ok, Encodable(t, items[i]), ValueBytes(t, items[i]), s, after, before, complaint)
    ensures ok ==> PackedSoFar(t, items, i + 1, s0, error, after, complaint)
    ensures !ok ==> Outcome(false, AllEncodable(t, items), PackedBytes(t, items), s0, after, error, complaint)
  {
    NextPacked(t, items, i);
    Advance(s0, PackedBytes(t, items), AllEncodable(t, items), error, s, ValueBytes(t, items[i]),
            Encodable(t, items[i]), PackedBytes(t, items[i + 1..]), ok, after, before, complaint);
  }

  /** Of `whole`, put out from `s0` on, exactly `left` remains to be put out in state `s`. */
  ghost predicate Progress(s0: Sink, whole: Bytes, s: Sink, left: Bytes) {
    && Put(s, left) == Put(s0, whole)
    && (Fits(s, |left|) <==> Fits(s0, |whole|))
    && s.writing == s0.writing && s.maxSize == s0.maxSize
  }

  /** No complaint about a changed size appears that was not there before. */
  predicate Quiet(error: Option<Complaint>, complaint: Option<Complaint>) {
    complaint == Some(SubmessageSizeChanged) ==> error == Some(SubmessageSizeChanged)
  }

  /** A step that puts out `a` of what remains leaves `b`; one that fails makes the whole fail. */
  lemma Advance(s0: Sink, whole: Bytes, encodable: bool, error: Option<Complaint>,
                s: Sink, a: Bytes, here: bool, b: Bytes, ok: bool, after: Sink,
                before: Option<Complaint>, complaint: Option<Complaint>)
    requires Progress(s0, whole, s, a + b)
    requires Outcome(ok, here, a, s, after, before, complaint)
    requires encodable ==> here
    requires Quiet(error, before)
    ensures Quiet(error, complaint)
    ensures ok ==> Progress(s0, whole, after, b)
    ensures !ok ==> Outcome(false, encodable, whole, s0, after, error, complaint)
  {
    PutTwice(s, a, b);
  }

  lemma Finish(s0: Sink, whole: Bytes, error: Option<Complaint>, s: Sink, complaint: Option<Complaint>)
    requires Progress(s0, whole, s, []) && Fits(s, 0) && Quiet(error, complaint)
    ensures Outcome(true, true, whole, s0, s, error, complaint)
  {
    assert Put(s, []) == s;
  }

  /** Every item of an array that cannot be packed, each behind its tag. */
  method EncodeTaggedItems(stream: OStream, f: Field, items: seq<Value>) returns (ok: bool)
    requires stream.Valid() && TypeOk(f.ltype) && f.tag < 0x2000_0000
    requires AllTyped(f.ltype, items)
    requires |TaggedBytes(f.ltype, f.tag, items)| < U64
    modifies stream
    ensures Outcome(ok, AllEncodable(f.ltype, items), TaggedBytes(f.ltype, f.tag, items),
                    old(stream.Sunk()), stream.Sunk(), old(stream.errmsg), stream.errmsg)
    decreases f.ltype, 3
  {
    hide ValueBytes, Encodable, HasType, TagBytes, TypeOk;
    var t := f.ltype;
    var i := 0;
    assert items[0..] == items;
    ghost var s0, error, whole := stream.Sunk(), stream.errmsg, TaggedBytes(t, f.tag, items);
    while i < |items|
      invariant i <= |items| && stream.Valid()
      invariant Progress(s0, whole, stream.Sunk(), TaggedBytes(t, f.tag, items[i..]))
      invariant AllEncodable(t, items) <==> AllEncodable(t, items[i..])
      invariant Quiet(error, stream.errmsg)
      invariant |TaggedBytes(t, f.tag, items[i..])| < U64
    {
      NextTagged(t, f.tag, items, i);
      ghost var s1, e1 := stream.Sunk(), stream.errmsg;
      ghost var piece := TagBytes(WireOf(t), f.tag) + ValueBytes(t, items[i]);
      ok := EncodeTagged(stream, f, items[i]);
      Advance(s0, whole, AllEncodable(t, items), error, s1, piece, Encodable(t, items[i]),
              TaggedBytes(t, f.tag, items[i + 1..]), ok, stream.Sunk(), e1, stream.errmsg);
      if !ok {
        return;
      }
      i := i + 1;
    }
    Finish(s0, whole, error, stream.Sunk(), stream.errmsg);
    return true;
  }

  /** The tag of the field and one value. */
  method EncodeTagged(stream: OStream, f: Field, v: Value) returns (ok: bool)
    requires stream.Valid() && TypeOk(f.ltype) && f.tag < 0x2000_0000 && HasType(f.ltype, v)
    requires |TagBytes(WireOf(f.ltype), f.tag) + ValueBytes(f.ltype, v)| < U64
    modifies stream
    ensures Outcome(ok, Encodable(f.ltype, v), TagBytes(WireOf(f.ltype), f.tag) + ValueBytes(f.ltype, v),
                    old(stream.Sunk()), stream.Sunk(), old(stream.errmsg), stream.errmsg)
    decreases f.ltype, 2
  {
    PutTwice(stream.Sunk(), TagBytes(WireOf(f.ltype), f.tag), ValueBytes(f.ltype, v));
    ok := stream.EncodeTagForField(f);
    if !ok {
      return;
    }
    ok := EncodeItem(stream, f.ltype, v);
  }

  method EncodeArray(stream: OStream, f: Field, items: seq<Value>) returns (ok: bool)
    requires stream.Valid() && TypeOk(f.ltype) && f.tag < 0x2000_0000 && f.htype.Repeated?
    requires AllTyped(f.ltype, items)
    requires |ArrayBytes(f.ltype, f.tag, items)| < U64
    modifies stream
    ensures Outcome(ok, |items| == 0 || (|items| <= f.htype.arraySize && AllEncodable(f.ltype, items)),
                    ArrayBytes(f.ltype, f.tag, items), old(stream.Sunk()), stream.Sunk(),
                    old(stream.errmsg), stream.errmsg)
    decreases f, 2
  {
    if |items| == 0 {
      return true;
    }
    if |items| > f.htype.arraySize {
      stream.errmsg := Some(ArrayTooLong);
      return false;
    }
    if Packable(f.ltype) {
      ok := EncodePackedArray(stream, f, items);
    } else {
      ok := EncodeTaggedItems(stream, f, items);
    }
  }

  /** The tag, the size of all items together, and the items. */
  method EncodePackedArray(stream: OStream, f: Field, items: seq<Value>) returns (ok: bool)
    requires stream.Valid() && TypeOk(f.ltype) && f.tag < 0x2000_0000 && Packable(f.ltype)
    requires AllTyped(f.ltype, items)
    requires |TagBytes(StringWire, f.tag) + Coding.EncodeString(PackedBytes(f.ltype, items))| < U64
    modifies stream
    ensures Outcome(ok, AllEncodable(f.ltype, items),
                    TagBytes(StringWire, f.tag) + Coding.EncodeString(PackedBytes(f.ltype, items)),
                    old(stream.Sunk()), stream.Sunk(), old(stream.errmsg), stream.errmsg)
    decreases f, 1
  {
    ghost var out := PackedBytes(f.ltype, items);
    PutTwice(stream.Sunk(), TagBytes(StringWire, f.tag), Coding.EncodeString(out));
    ok := stream.EncodeTag(StringWire, f.tag);
    if !ok {
      return;
    }
    var counted, size := PackedSize(f.ltype, items);
    if !counted {
      return false;
    }
    PutTwice(stream.Sunk(), Coding.EncodeVarint(size), out);
    ok := stream.EncodeVarint(size);
    if !ok {
      return;
    }
    if !stream.writing {
      stream.Skip(size);
      return true;
    }
    ok := EncodePackedItems(stream, f.ltype, items);
  }

  /** The size of a packed array: known for fixed-size items, otherwise found by a pass that only counts. */
  method PackedSize(t: LType, items: seq<Value>) returns (ok: bool, size: nat)
    requires TypeOk(t) && AllTyped(t, items)
    requires |PackedBytes(t, items)| < U64
    ensures ok <==> AllEncodable(t, items)
    ensures ok ==> size == |PackedBytes(t, items)|
    decreases t, 3
  {
    if t.Fixed32? || t.Fixed64? {
      FixedSizes(t, items);
      return true, (if t.Fixed32? then 4 else 8) * |items|;
    }
    var sizestream := new OStream.Sizing();
    ok := EncodePackedItems(sizestream, t, items);
    size := sizestream.bytesWritten;
  }

  // ---------------------------------------------------------------- fields and messages

  method EncodeBasicField(stream: OStream, f: Field, s: Slot) returns (ok: bool)
    requires stream.Valid() && TypeOk(f.ltype) && f.tag < 0x2000_0000 && SlotTyped(f, s)
    requires |FieldBytes(f, s)| < U64
    modifies stream
    ensures Outcome(ok, FieldEncodable(f, s), FieldBytes(f, s), old(stream.Sunk()), stream.Sunk(),
                    old(stream.errmsg), stream.errmsg)
    decreases f, 3
  {
    var implicitHas := true;
    if f.htype.Singular? {
      implicitHas := CheckProto3Default(f, s);
      implicitHas := !implicitHas;
    }
    match f.htype
    case Required =>
      ok := EncodeTagged(stream, f, s.value);
    case Optional =>
      if !s.has {
        return true;
      }
      ok := EncodeTagged(stream, f, s.value);
    case Singular =>
      if !implicitHas {
        return true;
      }
      ok := EncodeTagged(stream, f, s.value);
    case Repeated(_) =>
      ok := EncodeArray(stream, f, s.items);
    case OneOf =>
      if s.which != f.tag {
        return true;
      }
      ok := EncodeTagged(stream, f, s.content);
  }

  /**
    Encodes the struct field by field: succeeds exactly when every present field is encodable and the
    whole message fits, and then has put out its encoding; a sizing stream has counted as many bytes
    as a writing one takes.
  */
  method Encode(stream: OStream, mt: MessageType, m: Message) returns (ok: bool)
    requires stream.Valid() && SchemaOk(mt) && WellTyped(mt, m)
    requires |MessageBytes(mt, m)| < U64
    modifies stream
    ensures Outcome(ok, MessageEncodable(mt, m), MessageBytes(mt, m), old(stream.Sunk()), stream.Sunk(),
                    old(stream.errmsg), stream.errmsg)
    decreases mt, |mt.fields| + 1
  {
    hide ValueBytes, IsZero, Encodable, HasType, FieldBytes, FieldEncodable;
    var iter := new FieldIter(mt);
    var more := iter.Begin();
    ghost var s0, error := stream.Sunk(), stream.errmsg;
    assert FieldsSoFar(mt, m, 0, s0, error, s0, error);
    while more
      invariant iter.Valid() && iter.start == mt && fresh(iter) && stream.Valid()
      invariant more ==> iter.pos < |mt.fields|
      invariant FieldsSoFar(mt, m, if more then iter.pos else |mt.fields|, s0, error, stream.Sunk(), stream.errmsg)
      decreases if more then |mt.fields| - iter.pos else 0
    {
      ghost var i, s1, e1 := iter.pos, stream.Sunk(), stream.errmsg;
      var f, s := mt.fields[iter.pos], m[iter.pData];
      ok := EncodeBasicField(stream, f, s);
      AdvanceField(mt, m, i, s0, error, s1, e1, ok, stream.Sunk(), stream.errmsg);
      if !ok {
        return;
      }
      more := iter.Next();
    }
    Finish(s0, MessageBytes(mt, m), error, stream.Sunk(), stream.errmsg);
    return true;
  }

  /** Fields before `i` are encodable and put out, the rest is still to come. */
  ghost predicate FieldsSoFar(mt: MessageType, m: Message, i: nat, s0: Sink, error: Option<Complaint>,
                              s: Sink, complaint: Option<Complaint>)
    requires WellTyped(mt, m) && i <= |mt.fields|
  {
    && Progress(s0, MessageBytes(mt, m), s, FieldsBytes(mt, m, i))
    && |FieldsBytes(mt, m, i)| < U64
    && EncodableUpTo(mt, m, i)
    && Quiet(error, complaint)
  }

  lemma AdvanceField(mt: MessageType, m: Message, i: nat, s0: Sink, error: Option<Complaint>,
                     s: Sink, before: Option<Complaint>, ok: bool, after: Sink, complaint: Option<Complaint>)
    requires WellTyped(mt, m) && i < |mt.fields| && FieldsSoFar(mt, m, i, s0, error, s, before)
    requires var f := mt.fields[i];
      Outcome(ok, FieldEncodable(f, m[f.at]), FieldBytes(f, m[f.at]), s, after, before, complaint)
    ensures ok ==> FieldsSoFar(mt, m, i + 1, s0, error, after, complaint)
    ensures !ok ==> Outcome(false, MessageEncodable(mt, m), MessageBytes(mt, m), s0, after, error, complaint)
  {
    var f := mt.fields[i];
    Advance(s0, MessageBytes(mt, m), MessageEncodable(mt, m), error, s, FieldBytes(f, m[f.at]),
            FieldEncodable(f, m[f.at]), FieldsBytes(mt, m, i + 1), ok, after, before, complaint);
  }

  ghost predicate EncodableUpTo(mt: MessageType, m: Message, n: nat)
    requires WellTyped(mt, m) && n <= |mt.fields|
  {
    forall i :: 0 <= i < n ==> FieldEncodable(mt.fields[i], m[mt.fields[i].at])
  }

  /** The size a message takes, without writing it. */
  method GetEncodedSize(mt: MessageType, m: Message) returns (ok: bool, size: nat)
    requires SchemaOk(mt) && WellTyped(mt, m) && |MessageBytes(mt, m)| < U64
    ensures ok <==> MessageEncodable(mt, m)
    ensures ok ==> size == |MessageBytes(mt, m)|
  {
    var stream := new OStream.Sizing();
    ok := Encode(stream, mt, m);
    size := stream.bytesWritten;
  }
}
