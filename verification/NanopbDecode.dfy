/** Input streams and the decoder (pb_decode.c), proved to read exactly what NanopbReads says. */
module NanopbDecode {
  import opened Base
  import Coding
  import opened NanopbFormat
  import opened NanopbFields
  import opened NanopbReads

  /**
    One read of a stream: it succeeds exactly when the bytes it may use hold what is specified, has then
    used up just those, and never takes any that were not its own.
  */
  ghost predicate Reads<X>(ok: bool, x: X, spec: Option<(X, Bytes)>, left: Bytes, beyond: Bytes, beyondBefore: Bytes) {
    && (ok <==> spec.Some?)
    && (ok ==> spec == Some((x, left)) && beyond == beyondBefore)
    && |beyond| >= |beyondBefore|
  }

  class IStream {
    /** The unread bytes of the underlying buffer, of which `bytesLeft` may be read through this stream. */
    var state: Bytes
    var bytesLeft: nat

    ghost predicate Valid()
      reads this
    {
      bytesLeft <= |state|
    }

    ghost function Left(): Bytes
      requires Valid()
      reads this
    {
      state[..bytesLeft]
    }

    ghost function Beyond(): Bytes
      requires Valid()
      reads this
    {
      state[bytesLeft..]
    }

    constructor FromBuffer(buf: Bytes)
      ensures Valid() && state == buf && Left() == buf && Beyond() == []
    {
      state, bytesLeft := buf, |buf|;
    }

    constructor Limited(rest: Bytes, size: nat)
      requires size <= |rest|
      ensures Valid() && state == rest && bytesLeft == size
    {
      state, bytesLeft := rest, size;
    }

    method Read(count: nat) returns (ok: bool, buf: Bytes)
      requires Valid()
      modifies this
      ensures Valid() && Reads(ok, buf, Take(old(Left()), count), Left(), Beyond(), old(Beyond()))
    {
      if bytesLeft < count {
        return false, [];
      }
      buf := state[..count];
      ghost var left, beyond := Left(), Beyond();
      state := state[count..];
      bytesLeft := bytesLeft - count;
      assert buf == left[..count];
      assert state[..bytesLeft] == left[count..];
      assert state[bytesLeft..] == beyond;
      ok := true;
    }

    method ReadByte() returns (ok: bool, b: byte)
      requires Valid()
      modifies this
      ensures Valid() && (ok <==> old(Left()) != [])
      ensures ok ==> old(Left()) == [b] + Left() && Beyond() == old(Beyond())
      ensures !ok ==> Left() == old(Left()) && Beyond() == old(Beyond())
    {
      if bytesLeft == 0 {
        return false, 0;
      }
      ghost var left, beyond := Left(), Beyond();
      b := state[0];
      state := state[1..];
      bytesLeft := bytesLeft - 1;
      assert state[..bytesLeft] == left[1..];
      assert state[bytesLeft..] == beyond;
      ok := true;
    }

    /** Tags and lengths; `eof` tells that there was not even a first byte. */
    method DecodeVarint32Eof() returns (ok: bool, dest: nat, eof: bool)
      requires Valid()
      modifies this
      ensures Valid() && Reads(ok, dest, ReadVarint32(old(Left())), Left(), Beyond(), old(Beyond()))
      ensures eof <==> old(Left()) == []
    {
      dest, eof := 0, false;
      ghost var spec := ReadVarint32(Left());
      var b: byte;
      ok, b := ReadByte();
      if !ok {
        eof := bytesLeft == 0;
        return;
      }
      assert spec == if b < 128 then Some((b as nat, Left())) else Varint32Rest(Left(), b as nat % 128, 7);
      if b < 128 {
        dest := b as nat;
        return;
      }
      var bitpos: nat := 7;
      var result: nat := b as nat % 128;
      while true
        invariant Valid() && Beyond() == old(Beyond()) && !eof && 7 <= bitpos && result < 0x1_0000_0000
        invariant spec == Varint32Rest(Left(), result, bitpos)
        decreases bytesLeft
      {
        ghost var left := Left();
        ok, b := ReadByte();
        if !ok {
          return;
        }
        assert left[0] == b && left[1..] == Left();
        if bitpos >= 32 {
          var signExtension: byte := if bitpos < 63 then 0xFF else 0x01;
          if b % 128 != 0 && (result < 0x8000_0000 || b != signExtension) {
            return false, 0, false;
          }
        } else {
          result := (result + b as nat % 128 * Coding.Pow128(bitpos / 7)) % 0x1_0000_0000;
        }
        bitpos := bitpos + 7;
        if b < 128 {
          break;
        }
      }
      if bitpos == 35 && b / 16 != 0 {
        return false, 0, false;
      }
      dest := result;
    }

    method DecodeVarint32() returns (ok: bool, dest: nat)
      requires Valid()
      modifies this
      ensures Valid() && Reads(ok, dest, ReadVarint32(old(Left())), Left(), Beyond(), old(Beyond()))
    {
      var eof;
      ok, dest, eof := DecodeVarint32Eof();
    }

    /** The number and wire type of the next field; a zero key ends the message like the end of the stream. */
    method DecodeTag() returns (ok: bool, wireType: nat, tag: nat, eof: bool)
      requires Valid()
      modifies this
      ensures Valid() && |Beyond()| >= |old(Beyond())|
      ensures var key := ReadVarint32(old(Left()));
        && (ok <==> key.Some? && key.value.0 != 0)
        && (ok ==> tag == key.value.0 / 8 && wireType == key.value.0 % 8)
        && (key.Some? ==> Left() == key.value.1 && Beyond() == old(Beyond()))
        && (eof <==> old(Left()) == [] || (key.Some? && key.value.0 == 0))
    {
      var temp;
      wireType, tag := 0, 0;
      ok, temp, eof := DecodeVarint32Eof();
      if !ok {
        return;
      }
      if temp == 0 {
        eof := true;
        ok := false;
        return;
      }
      tag, wireType := temp / 8, temp % 8;
    }

    /** Values of up to 64 bits. */
    method DecodeVarint() returns (ok: bool, dest: nat)
      requires Valid()
      modifies this
      ensures Valid() && Reads(ok, dest, ReadVarint(old(Left())), Left(), Beyond(), old(Beyond()))
      ensures dest < U64
    {
      hide Gathering, ReadVarint, Group;
      dest := 0;
      ghost var all := Left();
      ghost var sum: nat, k: nat := 0, 0;
      StartsGathering(all);
      var bitpos: nat := 0;
      var b: byte;
      while true
        invariant Valid() && Beyond() == old(Beyond()) && k <= 10 && bitpos == 7 * k
        invariant dest == sum % U64 && Gathering(all, Left(), k, sum)
        decreases bytesLeft
      {
        NoMore(all, Left(), k, sum);
        if bitpos >= 64 {
          return false, dest;
        }
        ghost var left := Left();
        ok, b := ReadByte();
        if !ok {
          return;
        }
        GatherOne(all, left, k, sum, b, Left());
        ModuloAdds(sum, Group(b, k));
        sum := sum + Group(b, k);
        dest := (dest + Group(b, bitpos / 7)) % U64;
        k := k + 1;
        bitpos := bitpos + 7;
        if b < 128 {
          break;
        }
      }
    }

    method SkipVarint() returns (ok: bool)
      requires Valid()
      modifies this
      ensures Valid() && |Beyond()| >= |old(Beyond())| && (ok <==> NanopbReads.SkipVarint(old(Left())).Some?)
      ensures ok ==> NanopbReads.SkipVarint(old(Left())) == Some(Left()) && Beyond() == old(Beyond())
    {
      ghost var spec := NanopbReads.SkipVarint(Left());
      var b: byte;
      while true
        invariant Valid() && Beyond() == old(Beyond())
        invariant spec == NanopbReads.SkipVarint(Left())
        decreases bytesLeft
      {
        ghost var left := Left();
        ok, b := ReadByte();
        if !ok {
          return;
        }
        assert left[0] == b && left[1..] == Left();
        if b < 128 {
          break;
        }
      }
    }

    method SkipString() returns (ok: bool)
      requires Valid()
      modifies this
      ensures Valid() && |Beyond()| >= |old(Beyond())| && (ok <==> ReadString(old(Left())).Some?)
      ensures ok ==> ReadString(old(Left())).value.1 == Left() && Beyond() == old(Beyond())
    {
      var length;
      ok, length := DecodeVarint32();
      if !ok {
        return;
      }
      var buf;
      ok, buf := Read(length);
    }

    method SkipField(wireType: nat) returns (ok: bool)
      requires Valid()
      modifies this
      ensures Valid() && |Beyond()| >= |old(Beyond())| && (ok <==> Skip(wireType, old(Left())).Some?)
      ensures ok ==> Skip(wireType, old(Left())) == Some(Left()) && Beyond() == old(Beyond())
    {
      var buf;
      if wireType == 0 {
        ok := SkipVarint();
      } else if wireType == 1 {
        ok, buf := Read(8);
      } else if wireType == 2 {
        ok := SkipString();
      } else if wireType == 5 {
        ok, buf := Read(4);
      } else {
        ok := false;
      }
    }

    /** A stream over the next length-delimited piece; this one resumes behind it when that is closed. */
    method MakeStringSubstream() returns (ok: bool, substream: IStream)
      requires Valid()
      modifies this
      ensures Valid() && fresh(substream) && substream.Valid()
      ensures ok <==> ReadString(old(Left())).Some?
      ensures ok ==>
        var (piece, rest) := ReadString(old(Left())).value;
        substream.Left() == piece && substream.Beyond() == rest + old(Beyond()) && bytesLeft == |rest|
        && state == substream.state
      ensures !ok ==> |Beyond()| >= |old(Beyond())|
    {
      var size;
      ok, size := DecodeVarint32();
      if !ok || bytesLeft < size {
        substream := new IStream.Limited(state, 0);
        return false, substream;
      }
      ghost var left, beyond := Left(), Beyond();
      substream := new IStream.Limited(state, size);
      assert substream.Left() == left[..size];
      assert substream.Beyond() == left[size..] + beyond;
      bytesLeft := bytesLeft - size;
    }

    /** Passes over what is left of the piece. */
    method CloseStringSubstream(substream: IStream)
      requires substream != this && substream.Valid() && bytesLeft <= |substream.Beyond()|
      modifies this, substream
      ensures Valid() && state == old(substream.Beyond()) && bytesLeft == old(bytesLeft)
    {
      if substream.bytesLeft > 0 {
        assert Take(substream.Left(), substream.bytesLeft).Some?;
        var ok, buf := substream.Read(substream.bytesLeft);
      }
      assert substream.Left() == [] ==> substream.state == substream.Beyond();
      state := substream.state;
    }
  }

  /** After `k` bytes of `all` the rest `left` is to be read, and `sum` has been gathered. */
  ghost predicate Gathering(all: Bytes, left: Bytes, k: nat, sum: nat)
    requires k <= 10
  {
    && k <= |all| && left == all[k..]
    && Coding.DecodeVarint(all, 10)
       == match Coding.DecodeVarint(left, 10 - k)
          case None => None
          case Some(v) => Some((sum + Coding.Pow128(k) * v.0, k + v.1))
  }

  lemma StartsGathering(all: Bytes)
    ensures Gathering(all, all, 0, 0)
  {
    assert all[0..] == all;
  }

  /** The bits a byte adds as group `k`. */
  function Group(b: byte, k: nat): nat {
    b as nat % 128 * Coding.Pow128(k)
  }

  lemma NoMore(all: Bytes, left: Bytes, k: nat, sum: nat)
    requires k <= 10 && Gathering(all, left, k, sum)
    ensures k == 10 || left == [] ==> ReadVarint(all) == None
  {
  }

  lemma GatherOne(all: Bytes, left: Bytes, k: nat, sum: nat, b: byte, rest: Bytes)
    requires k < 10 && Gathering(all, left, k, sum) && left == [b] + rest
    ensures b >= 128 ==> Gathering(all, rest, k + 1, sum + Group(b, k))
    ensures b < 128 ==> ReadVarint(all) == Some(((sum + Group(b, k)) % U64, rest))
  {
    FirstByte(left, 10 - k, b, rest);
    assert rest == all[k..][1..];
    var low, p := b as nat % 128, Coding.Pow128(k);
    if b >= 128 && Coding.DecodeVarint(rest, 9 - k).Some? {
      Distribute(sum, p, low, Coding.DecodeVarint(rest, 9 - k).value.0);
    }
    Distribute(sum, p, low, 0);
  }

  lemma FirstByte(left: Bytes, limit: nat, b: byte, rest: Bytes)
    requires limit > 0 && left == [b] + rest
    ensures Coding.DecodeVarint(left, limit)
         == if b < 128 then Some((b as nat % 128, 1))
            else match Coding.DecodeVarint(rest, limit - 1)
                 case None => None
                 case Some(v) => Some((b as nat % 128 + 128 * v.0, 1 + v.1))
  {
    assert left[1..] == rest && left[0] == b;
  }

  lemma Distribute(sum: nat, p: nat, low: nat, v: nat)
    ensures sum + p * (low + 128 * v) == sum + low * p + 128 * p * v
  {
  }

  lemma ModuloAdds(sum: nat, x: nat)
    ensures (sum % U64 + x) % U64 == (sum + x) % U64
  {
  }

  // ---------------------------------------------------------------- default values

  method ZeroOf(t: LType) returns (v: Value)
    requires TypeOk(t)
    ensures v == ZeroValue(t)
    decreases t, 0
  {
    match t
    case Bool => v := Flag(false);
    case BytesArray(_) => v := Octets([]);
    case CString(_) => v := Octets([]);
    case FixedLengthBytes(n) => v := Octets(seq(n, _ => 0));
    case Submessage(sub, _) =>
      var m := SetToDefaults(sub);
      v := Record(m);
    case _ => v := Number(0);
  }

  method FieldSetToDefault(f: Field) returns (s: Slot)
    requires FieldOk(f)
    ensures s == DefaultSlot(f)
    decreases f
  {
    match f.htype
    case Repeated(_) => s := Items([]);
    case OneOf => s := Union(0, Flag(false));
    case _ =>
      var v := InitialValue(f.ltype, f.initial);
      s := Single(false, v);
  }

  method InitialValue(t: LType, initial: Option<Value>) returns (v: Value)
    requires TypeOk(t)
    ensures v == if initial.Some? then initial.value else ZeroValue(t)
    decreases t, 1
  {
    match initial
    case Some(value) => v := value;
    case None => v := ZeroOf(t);
  }

  /** Walks over the fields and initializes each, submessages recursively. */
  method SetToDefaults(mt: MessageType) returns (m: Message)
    requires SchemaOk(mt)
    ensures m == Defaults(mt)
    decreases mt, 1
  {
    SchemaParts(mt);
    hide LaidOut, Numbered, FieldOk, SchemaOk;
    m := map[];
    var iter := new FieldIter(mt);
    var more := iter.Begin();
    while more
      invariant iter.Valid() && (more ==> iter.pos < |mt.fields|)
      invariant m == DefaultsUpTo(mt, if more then iter.pos else |mt.fields|)
      decreases if more then |mt.fields| - iter.pos else 0
    {
      var s := FieldSetToDefault(mt.fields[iter.pos]);
      m := m[iter.pData := s];
      more := iter.Next();
    }
  }

  lemma SchemaParts(mt: MessageType)
    requires SchemaOk(mt)
    ensures LaidOut(mt) && Numbered(mt) && forall i :: 0 <= i < |mt.fields| ==> FieldOk(mt.fields[i])
  {
  }

  // ---------------------------------------------------------------- one value

  /** A signed value cast to a member of `width` bytes. */
  function Cast(i: int, width: nat): int
    requires -0x8000_0000_0000_0000 <= i < 0x8000_0000_0000_0000
  {
    AsSigned(AsUnsigned(i), Half(width))
  }

  lemma CastFits(i: int, width: nat)
    requires -0x8000_0000_0000_0000 <= i < 0x8000_0000_0000_0000 && ValidWidth(width)
    ensures Cast(i, width) == i <==> InSigned(width, i)
  {
    if i < 0 {
      match width
      case 1 => Wraps8(i);
      case 2 => Wraps16(i);
      case 4 => Wraps32(i);
      case _ =>
    }
  }

  lemma Wraps8(i: int)
    requires -0x8000_0000_0000_0000 <= i < 0
    ensures -0x80 <= i ==> (U64 + i) % 0x100 == 0x100 + i
  {
    assert U64 + i == 0x100 * 0xFF_FFFF_FFFF_FFFF + (0x100 + i);
  }

  lemma Wraps16(i: int)
    requires -0x8000_0000_0000_0000 <= i < 0
    ensures -0x8000 <= i ==> (U64 + i) % 0x1_0000 == 0x1_0000 + i
  {
    assert U64 + i == 0x1_0000 * 0xFFFF_FFFF_FFFF + (0x1_0000 + i);
  }

  lemma Wraps32(i: int)
    requires -0x8000_0000_0000_0000 <= i < 0
    ensures -0x8000_0000 <= i ==> (U64 + i) % 0x1_0000_0000 == 0x1_0000_0000 + i
  {
    assert U64 + i == 0x1_0000_0000 * 0xFFFF_FFFF + (0x1_0000_0000 + i);
  }

  /** Stores `i` in a member of `width` bytes unless that changes it. */
  method StoreSigned(width: nat, i: int) returns (ok: bool, v: Value)
    requires -0x8000_0000_0000_0000 <= i < 0x8000_0000_0000_0000
    ensures ok <==> ToSigned(width, i).Some?
    ensures ok ==> Some(v) == ToSigned(width, i)
  {
    v := Number(i);
    if width != 1 && width != 2 && width != 4 && width != 8 {
      return false, v;
    }
    CastFits(i, width);
    var clamped := Cast(i, width);
    ok := clamped == i;
  }

  method StoreUnsigned(width: nat, u: nat) returns (ok: bool, v: Value)
    requires u < U64
    ensures ok <==> ReadUnsigned(width, u).Some?
    ensures ok ==> Some(v) == ReadUnsigned(width, u)
  {
    v := Number(u);
    if width != 1 && width != 2 && width != 4 && width != 8 {
      return false, v;
    }
    var clamped := u % (2 * Half(width));
    ok := clamped == u;
  }

  method DecodeInteger(stream: IStream, t: LType) returns (ok: bool, v: Value)
    requires stream.Valid() && (t.Varint? || t.Uvarint? || t.Svarint?)
    modifies stream
    ensures stream.Valid()
    ensures Reads(ok, v, ReadInteger(t, old(stream.Left())), stream.Left(), stream.Beyond(), old(stream.Beyond()))
  {
    var u;
    v := Number(0);
    ok, u := stream.DecodeVarint();
    if !ok {
      return;
    }
    match t
    case Varint(width) =>
      var svalue := if width == 8 then AsSigned(u, 0x8000_0000_0000_0000) else AsSigned(u, 0x8000_0000);
      ok, v := StoreSigned(width, svalue);
    case Uvarint(width) =>
      ok, v := StoreUnsigned(width, u);
    case Svarint(width) =>
      var shifted: int := u / 2;
      var svalue := if u % 2 == 1 then -shifted - 1 else shifted;
      ok, v := StoreSigned(width, svalue);
  }

  method DecodeOctets(stream: IStream, t: LType) returns (ok: bool, v: Value)
    requires stream.Valid() && (t.BytesArray? || t.CString? || t.FixedLengthBytes?)
    modifies stream
    ensures stream.Valid()
    ensures Reads(ok, v, ReadOctets(t, old(stream.Left())), stream.Left(), stream.Beyond(), old(stream.Beyond()))
  {
    hide HasType;
    var size, data;
    v := Octets([]);
    ok, size := stream.DecodeVarint32();
    if !ok {
      return;
    }
    match t {
      case BytesArray(capacity) =>
        if BYTES_HEADER + size > capacity {
          return false, v;
        }
      case CString(room) =>
        var allocSize := (size + 1) % 0x1_0000_0000;
        if allocSize < size || allocSize > room {
          return false, v;
        }
      case FixedLengthBytes(exactly) =>
        if size == 0 {
          v := Octets(seq(exactly, _ => 0));
          return;
        }
        if size != exactly {
          return false, v;
        }
    }
    ok, data := stream.Read(size);
    v := Octets(data);
  }

  /** One item, by the decoder of its type, into the value that is there. */
  method DecodeItem(stream: IStream, t: LType, into: Value) returns (ok: bool, v: Value)
    requires stream.Valid() && TypeOk(t) && HasType(t, into)
    modifies stream
    ensures stream.Valid()
    ensures Reads(ok, v, ReadValue(t, into, old(stream.Left())), stream.Left(), stream.Beyond(), old(stream.Beyond()))
    decreases t, 0
  {
    v := into;
    match t {
      case Bool =>
        var u;
        ok, u := stream.DecodeVarint32();
        v := Flag(u != 0);
      case Fixed32 =>
        var data;
        ok, data := stream.Read(4);
        if ok {
          v := Number(Coding.DecodeFixed32(data));
        }
      case Fixed64 =>
        var data;
        ok, data := stream.Read(8);
        if ok {
          v := Number(Coding.DecodeFixed64(data));
        }
      case Submessage(sub, _) =>
        var m;
        ok, m := DecodeSubmessage(stream, sub, into.slots);
        v := Record(m);
      case BytesArray(_) => ok, v := DecodeOctets(stream, t);
      case CString(_) => ok, v := DecodeOctets(stream, t);
      case FixedLengthBytes(_) => ok, v := DecodeOctets(stream, t);
      case Varint(_) => ok, v := DecodeInteger(stream, t);
      case Uvarint(_) => ok, v := DecodeInteger(stream, t);
      case Svarint(_) => ok, v := DecodeInteger(stream, t);
    }
  }

  /** A submessage takes a length and a stream of its own. */
  ghost function ReadSubmessage(sub: MessageType, m: Message, b: Bytes): Option<(Message, Bytes)>
    requires SchemaOk(sub) && WellTyped(sub, m)
  {
    match ReadString(b)
    case None => None
    case Some(d) =>
      match DecodeFields(sub, m, d.0)
      case None => None
      case Some(x) => Some((x.0, d.1))
  }

  method DecodeSubmessage(stream: IStream, sub: MessageType, m: Message) returns (ok: bool, d: Message)
    requires stream.Valid() && SchemaOk(sub) && WellTyped(sub, m)
    modifies stream
    ensures stream.Valid()
    ensures Reads(ok, d, ReadSubmessage(sub, m, old(stream.Left())), stream.Left(), stream.Beyond(), old(stream.Beyond()))
    decreases sub, 3
  {
    d := m;
    var substream;
    ok, substream := stream.MakeStringSubstream();
    if !ok {
      return;
    }
    ghost var (piece, rest) := ReadString(old(stream.Left())).value;
    ghost var beyond := substream.Beyond();
    ok, d := DecodeNoInit(substream, sub, m);
    stream.CloseStringSubstream(substream);
    if ok {
      assert stream.state == rest + old(stream.Beyond());
      assert stream.Left() == rest && stream.Beyond() == old(stream.Beyond());
    }
  }

  // ---------------------------------------------------------------- one field

  method DecodePackedItems(substream: IStream, t: LType, arraySize: nat, items: seq<Value>)
    returns (status: bool, res: seq<Value>)
    requires substream.Valid() && Packable(t) && AllTyped(t, items)
    modifies substream
    ensures substream.Valid() && |substream.Beyond()| >= |old(substream.Beyond())|
    ensures status && substream.bytesLeft == 0 <==> ReadPacked(t, arraySize, items, old(substream.Left())).Some?
    ensures status && substream.bytesLeft == 0 ==>
              Some(res) == ReadPacked(t, arraySize, items, old(substream.Left()))
              && substream.Beyond() == old(substream.Beyond())
    decreases t, 1
  {
    status, res := true, items;
    ghost var spec := ReadPacked(t, arraySize, items, substream.Left());
    while substream.bytesLeft > 0 && |res| < arraySize
      invariant substream.Valid() && AllTyped(t, res) && substream.Beyond() == old(substream.Beyond())
      invariant spec == ReadPacked(t, arraySize, res, substream.Left())
      decreases substream.bytesLeft
    {
      ghost var left := substream.Left();
      var zero := ZeroOf(t);
      var ok, v := DecodeItem(substream, t, zero);
      if !ok {
        status := false;
        break;
      }
      AppendTyped(t, res, v);
      res := res + [v];
    }
  }

  method DecodeStaticField(stream: IStream, wireType: nat, f: Field, s: Slot) returns (ok: bool, res: Slot)
    requires stream.Valid() && FieldOk(f) && SlotTyped(f, s)
    modifies stream
    ensures stream.Valid()
    ensures Reads(ok, res, ReadSlot(f, wireType, s, old(stream.Left())), stream.Left(), stream.Beyond(), old(stream.Beyond()))
    decreases f, 0
  {
    res := s;
    var v;
    ZeroTyped(f.ltype);
    match f.htype
    case Required =>
      ok, v := DecodeItem(stream, f.ltype, s.value);
      res := Single(s.has, v);
    case Singular =>
      ok, v := DecodeItem(stream, f.ltype, s.value);
      res := Single(s.has, v);
    case Optional =>
      res := Single(true, s.value);
      ok, v := DecodeItem(stream, f.ltype, s.value);
      res := Single(true, v);
    case Repeated(arraySize) =>
      if wireType == WireCode(StringWire) && Packable(f.ltype) {
        ok, res := DecodePackedField(stream, f, s);
        return;
      }
      if |s.items| >= arraySize {
        return false, s;
      }
      var zero := ZeroOf(f.ltype);
      ok, v := DecodeItem(stream, f.ltype, zero);
      res := Items(s.items + [v]);
    case OneOf =>
      var zero := ZeroOf(f.ltype);
      ok, v := DecodeItem(stream, f.ltype, zero);
      res := Union(f.tag, v);
  }

  method DecodePackedField(stream: IStream, f: Field, s: Slot) returns (ok: bool, res: Slot)
    requires stream.Valid() && FieldOk(f) && SlotTyped(f, s) && f.htype.Repeated? && Packable(f.ltype)
    modifies stream
    ensures stream.Valid()
    ensures Reads(ok, res, ReadSlot(f, WireCode(StringWire), s, old(stream.Left())),
                  stream.Left(), stream.Beyond(), old(stream.Beyond()))
    decreases f.ltype, 2
  {
    res := s;
    var substream;
    ok, substream := stream.MakeStringSubstream();
    if !ok {
      return;
    }
    ghost var (piece, rest) := ReadString(old(stream.Left())).value;
    var status, items := DecodePackedItems(substream, f.ltype, f.htype.arraySize, s.items);
    if substream.bytesLeft != 0 {
      return false, s;
    }
    stream.CloseStringSubstream(substream);
    if status {
      assert stream.state == rest + old(stream.Beyond());
      assert stream.Left() == rest && stream.Beyond() == old(stream.Beyond());
    }
    return status, Items(items);
  }

  /** The flags of the required fields seen so far. */
  ghost predicate Marked(flags: seq<bool>, seen: set<nat>) {
    |flags| == MAX_REQUIRED_FIELDS && forall k :: 0 <= k < MAX_REQUIRED_FIELDS ==> (flags[k] <==> k in seen)
  }

  /** The field of this tag, wherever the iterator stands, is decoded; an unknown one is skipped. */
  method DecodeTagged(stream: IStream, iter: FieldIter, fieldsSeen: array<bool>, m: Message,
                      tag: nat, wireType: nat, ghost key: nat, ghost seen: set<nat>)
    returns (ok: bool, res: Message, ghost after: set<nat>)
    requires stream.Valid() && iter.Valid() && SchemaOk(iter.start) && WellTyped(iter.start, m)
    requires Marked(fieldsSeen[..], seen) && tag == key / 8 && wireType == key % 8
    modifies stream, iter`pos, iter`requiredFieldIndex, iter`pData, fieldsSeen
    ensures stream.Valid() && iter.Valid() && |stream.Beyond()| >= |old(stream.Beyond())|
    ensures var r := ReadField(iter.start, m, seen, key, old(stream.Left()));
      && (ok <==> r.Some?)
      && (ok ==> r == Some(Decoded(res, after, stream.Left())) && stream.Beyond() == old(stream.Beyond())
                 && Marked(fieldsSeen[..], after))
    decreases iter.start, 1
  {
    res, after := m, seen;
    var mt := iter.start;
    ghost var n := IndexOf(mt, tag, 0);
    var found := iter.Find(tag);
    if !found {
      ok := stream.SkipField(wireType);
      return;
    }
    if iter.pos == |mt.fields| {
      var u;
      ok, u := stream.DecodeVarint32();
      return;
    }
    assert n == Some(iter.pos) by {
      SameTag(mt, iter.pos, n);
    }
    var f := mt.fields[iter.pos];
    assert FieldOk(f);
    if f.htype.Required? && iter.requiredFieldIndex < MAX_REQUIRED_FIELDS {
      fieldsSeen[iter.requiredFieldIndex] := true;
      after := seen + {iter.requiredFieldIndex};
    }
    var s;
    ok, s := DecodeStaticField(stream, wireType, f, m[iter.pData]);
    if ok {
      res := m[iter.pData := s];
    }
  }

  lemma SameTag(mt: MessageType, pos: nat, n: Option<nat>)
    requires Numbered(mt) && pos < |mt.fields| && n == IndexOf(mt, mt.fields[pos].tag, 0)
    ensures n == Some(pos)
  {
  }

  lemma FirstIsTagged(mt: MessageType)
    requires Numbered(mt)
    ensures mt.fields != [] ==> mt.fields[0].tag != 0
  {
  }

  /** The count so far is that of the fields before `last`, which is required or not. */
  ghost predicate Counted(mt: MessageType, last: nat, count: nat, lastRequired: bool) {
    last < |mt.fields| && count == RequiredBefore(mt, last) && lastRequired == mt.fields[last].htype.Required?
  }

  lemma CountedAll(mt: MessageType, count: nat, lastRequired: bool)
    requires mt.fields != [] ==> Counted(mt, |mt.fields| - 1, count, lastRequired)
    requires mt.fields == [] ==> count == 0
    ensures RequiredBefore(mt, |mt.fields|) == count + if mt.fields != [] && lastRequired then 1 else 0
  {
  }

  /** Walks the iterator past the last field to count the required ones. */
  method CountRequired(iter: FieldIter) returns (count: nat)
    requires iter.Valid()
    modifies iter`pos, iter`requiredFieldIndex, iter`pData
    ensures count == RequiredBefore(iter.start, |iter.start.fields|)
  {
    FirstIsTagged(iter.start);
    hide LaidOut, Numbered;
    var mt := iter.start;
    count := iter.requiredFieldIndex;
    var lastRequired := iter.pos == |mt.fields| || mt.fields[iter.pos].htype.Required?;
    assert mt.fields != [] ==> Counted(mt, iter.pos, count, lastRequired);
    hide RequiredBefore, Counted;
    var more := iter.Next();
    while more
      invariant iter.Valid() && mt == iter.start
      invariant if more then 0 < iter.pos < |mt.fields| else iter.pos == 0
      invariant mt.fields == [] ==> count == 0 && !more
      invariant mt.fields != [] ==> Counted(mt, if more then iter.pos - 1 else |mt.fields| - 1, count, lastRequired)
      decreases if more then |mt.fields| - iter.pos else 0
    {
      count := iter.requiredFieldIndex;
      lastRequired := mt.fields[iter.pos].htype.Required?;
      NowCounted(mt, iter.pos, count);
      more := iter.Next();
    }
    CountedAll(mt, count, lastRequired);
    if lastRequired && iter.Tag() != 0 {
      count := count + 1;
    }
  }

  lemma NowCounted(mt: MessageType, last: nat, count: nat)
    requires last < |mt.fields| && count == RequiredBefore(mt, last)
    ensures Counted(mt, last, count, mt.fields[last].htype.Required?)
  {
  }

  /** Looks for the flag of every required field that has one. */
  method RequiredPresent(iter: FieldIter, fieldsSeen: array<bool>, ghost seen: set<nat>) returns (ok: bool)
    requires iter.Valid() && Marked(fieldsSeen[..], seen)
    modifies iter`pos, iter`requiredFieldIndex, iter`pData
    ensures ok <==> AllSeen(iter.start, seen)
  {
    var reqFieldCount := CountRequired(iter);
    if reqFieldCount > MAX_REQUIRED_FIELDS {
      reqFieldCount := MAX_REQUIRED_FIELDS;
    }
    ghost var flags := fieldsSeen[..];
    for i := 0 to reqFieldCount
      invariant fieldsSeen[..] == flags && forall k :: 0 <= k < i ==> flags[k]
    {
      assert flags[i] == fieldsSeen[i];
      if !fieldsSeen[i] {
        return false;
      }
    }
    return true;
  }

  /** Decodes into the struct as it is: fields that do not occur keep their values, submessages are merged. */
  method DecodeNoInit(stream: IStream, mt: MessageType, dest: Message) returns (ok: bool, m: Message)
    requires stream.Valid() && SchemaOk(mt) && WellTyped(mt, dest)
    modifies stream
    ensures stream.Valid()
    ensures Reads(ok, m, DecodeFields(mt, dest, old(stream.Left())), stream.Left(), stream.Beyond(), old(stream.Beyond()))
    decreases mt, 2
  {
    m := dest;
    ghost var spec := ReadFields(mt, dest, {}, stream.Left());
    ghost var seen: set<nat> := {};
    var fieldsSeen := new bool[MAX_REQUIRED_FIELDS](_ => false);
    assert Marked(fieldsSeen[..], seen);
    var iter := new FieldIter(mt);
    var _ := iter.Begin();
    while stream.bytesLeft > 0
      invariant stream.Valid() && iter.Valid() && WellTyped(mt, m)
      invariant stream.Beyond() == old(stream.Beyond())
      invariant Marked(fieldsSeen[..], seen)
      invariant spec == ReadFields(mt, m, seen, stream.Left())
      decreases stream.bytesLeft
    {
      ghost var left := stream.Left();
      var some, wireType, tag, eof := stream.DecodeTag();
      if !some {
        if eof {
          break;
        }
        return false, m;
      }
      ok, m, seen := DecodeTagged(stream, iter, fieldsSeen, m, tag, wireType, ReadVarint32(left).value.0, seen);
      if !ok {
        return;
      }
    }
    assert spec == Some(Decoded(m, seen, stream.Left()));
    ok := RequiredPresent(iter, fieldsSeen, seen);
  }

  /** Decodes into a struct set to defaults. */
  method Decode(stream: IStream, mt: MessageType) returns (ok: bool, m: Message)
    requires stream.Valid() && SchemaOk(mt)
    modifies stream
    ensures stream.Valid()
    ensures Reads(ok, m, NanopbReads.Decode(mt, old(stream.Left())), stream.Left(), stream.Beyond(), old(stream.Beyond()))
  {
    m := SetToDefaults(mt);
    DefaultsTyped(mt);
    ok, m := DecodeNoInit(stream, mt, m);
  }
}
