/**
  What the decoder makes of any bytes (pb_decode.c): default values, wire values, and the loop over
  the fields of a message.
*/
module NanopbReads {
  import opened Base
  import opened Coding
  import opened NanopbFormat
  import opened NanopbFields

  // ---------------------------------------------------------------- defaults

  ghost function ZeroValue(t: LType): (v: Value)
    decreases t
  {
    match t
    case Bool => Flag(false)
    case Varint(_) => Number(0)
    case Uvarint(_) => Number(0)
    case Svarint(_) => Number(0)
    case Fixed32 => Number(0)
    case Fixed64 => Number(0)
    case BytesArray(_) => Octets([])
    case CString(_) => Octets([])
    case Submessage(sub, _) => Record(Defaults(sub))
    case FixedLengthBytes(n) => Octets(seq(n, _ => 0))
  }

  /** A union that holds nothing has an arbitrary content, here always the same. */
  ghost function DefaultSlot(f: Field): Slot
    decreases f
  {
    match f.htype
    case Repeated(_) => Items([])
    case OneOf => Union(0, Flag(false))
    case _ => Single(false, if f.initial.Some? then f.initial.value else ZeroValue(f.ltype))
  }

  ghost function DefaultsUpTo(mt: MessageType, n: nat): Message
    requires n <= |mt.fields|
    decreases mt, n
  {
    if n == 0 then map[]
    else DefaultsUpTo(mt, n - 1)[mt.fields[n - 1].at := DefaultSlot(mt.fields[n - 1])]
  }

  /** pb_message_set_to_defaults. */
  ghost function Defaults(mt: MessageType): Message
    decreases mt, |mt.fields| + 1
  {
    DefaultsUpTo(mt, |mt.fields|)
  }

  lemma {:induction false} DefaultsAt(mt: MessageType, n: nat, i: nat)
    requires LaidOut(mt) && i < n <= |mt.fields|
    ensures mt.fields[i].at in DefaultsUpTo(mt, n)
    ensures DefaultsUpTo(mt, n)[mt.fields[i].at] == DefaultSlot(mt.fields[i])
  {
    if i < n - 1 {
      DefaultsAt(mt, n - 1, i);
      SharedOffsets(mt, i, n - 1);
    }
  }

  lemma {:induction false} ZeroTyped(t: LType)
    requires TypeOk(t)
    ensures HasType(t, ZeroValue(t))
    decreases t
  {
    if t.Submessage? {
      DefaultsTyped(t.sub);
    }
  }

  lemma {:induction false} DefaultsTyped(mt: MessageType)
    requires SchemaOk(mt)
    ensures WellTyped(mt, Defaults(mt))
    decreases mt
  {
    forall i | 0 <= i < |mt.fields|
      ensures mt.fields[i].at in Defaults(mt) && SlotTyped(mt.fields[i], Defaults(mt)[mt.fields[i].at])
    {
      DefaultsAt(mt, |mt.fields|, i);
      ZeroTyped(mt.fields[i].ltype);
      assert FieldOk(mt.fields[i]);
    }
  }

  // ---------------------------------------------------------------- wire values

  /** A 64-bit varint of at most ten bytes; bits beyond the 64th are lost. */
  function ReadVarint(b: Bytes): (r: Option<(nat, Bytes)>)
    ensures r.Some? ==> r.value.0 < U64 && |r.value.1| < |b|
  {
    match DecodeVarint(b, VARINT64_BYTES)
    case None => None
    case Some(v) => Some((v.0 % U64, b[v.1..]))
  }

  /**
    What follows the first byte of a 32-bit varint: bits up to the 32nd are gathered, later groups must be
    zero or extend a sign, and a fifth byte that ends the varint must not exceed four bits.
  */
  function Varint32Rest(b: Bytes, result: nat, bitpos: nat): (r: Option<(nat, Bytes)>)
    requires result < 0x1_0000_0000
    ensures r.Some? ==> r.value.0 < 0x1_0000_0000 && |r.value.1| < |b|
    decreases |b|
  {
    if b == [] then None
    else if bitpos >= 32 then
      var signExtension: byte := if bitpos < 63 then 0xFF else 0x01;
      if b[0] % 128 != 0 && (result < 0x8000_0000 || b[0] != signExtension) then None
      else if b[0] >= 128 then Varint32Rest(b[1..], result, bitpos + 7)
      else Some((result, b[1..]))
    else
      var gathered := (result + b[0] as nat % 128 * Pow128(bitpos / 7)) % 0x1_0000_0000;
      if b[0] >= 128 then Varint32Rest(b[1..], gathered, bitpos + 7)
      else if bitpos == 28 && b[0] >= 16 then None
      else Some((gathered, b[1..]))
  }

  function ReadVarint32(b: Bytes): (r: Option<(nat, Bytes)>)
    ensures r.Some? ==> r.value.0 < 0x1_0000_0000 && |r.value.1| < |b|
  {
    if b == [] then None
    else if b[0] < 128 then Some((b[0] as nat, b[1..]))
    else Varint32Rest(b[1..], b[0] as nat % 128, 7)
  }

  /** The next `n` bytes and what follows them. */
  function Take(b: Bytes, n: nat): (r: Option<(Bytes, Bytes)>)
    ensures r.Some? ==> |r.value.0| == n && b == r.value.0 + r.value.1
  {
    if n > |b| then None else Some((b[..n], b[n..]))
  }

  /** A length and as many bytes. */
  function ReadString(b: Bytes): (r: Option<(Bytes, Bytes)>)
    ensures r.Some? ==> |r.value.1| < |b| && |r.value.0| < 0x1_0000_0000
  {
    match ReadVarint32(b)
    case None => None
    case Some(size) => Take(size.1, size.0)
  }

  function SkipVarint(b: Bytes): (r: Option<Bytes>)
    ensures r.Some? ==> |r.value| < |b|
    decreases |b|
  {
    if b == [] then None else if b[0] >= 128 then SkipVarint(b[1..]) else Some(b[1..])
  }

  /** The data of a field nobody knows; the wire type tells where it ends. */
  function Skip(wire: nat, b: Bytes): (r: Option<Bytes>)
    ensures r.Some? ==> |r.value| <= |b|
  {
    if wire == WireCode(VarintWire) then SkipVarint(b)
    else
      var data :=
        if wire == WireCode(Wire64Bit) then Take(b, 8)
        else if wire == WireCode(StringWire) then ReadString(b)
        else if wire == WireCode(Wire32Bit) then Take(b, 4)
        else None;
      match data
      case None => None
      case Some(d) => Some(d.1)
  }

  // ---------------------------------------------------------------- values of a type

  /** A member of `width` bytes takes a value only if its type can hold it. */
  function ToSigned(width: nat, i: int): (r: Option<Value>)
    ensures r.Some? ==> r.value.Number? && InSigned(width, r.value.n)
  {
    if ValidWidth(width) && InSigned(width, i) then Some(Number(i)) else None
  }

  /** Members of up to 32 bits see only the low 32 bits of what was read. */
  function ReadSigned(width: nat, u: nat): Option<Value> {
    ToSigned(width, AsSigned(u, if width == 8 then 0x8000_0000_0000_0000 else 0x8000_0000))
  }

  function ReadUnsigned(width: nat, u: nat): Option<Value> {
    if ValidWidth(width) && InUnsigned(width, u) then Some(Number(u)) else None
  }

  /** The value a field of an integer type gets from what its wire format holds. */
  function FromVarint(t: LType, u: nat): (r: Option<Value>)
    requires (t.Varint? || t.Uvarint? || t.Svarint?) && u < U64
  {
    match t
    case Varint(width) => ReadSigned(width, u)
    case Uvarint(width) => ReadUnsigned(width, u)
    case Svarint(width) => ToSigned(width, UnZigZag(u))
  }

  /** The bytes a byte array, string or fixed array accepts. */
  function FromBytes(t: LType, b: Bytes): Option<Value>
    requires t.BytesArray? || t.CString? || t.FixedLengthBytes?
  {
    match t
    case BytesArray(capacity) => if BYTES_HEADER + |b| > capacity then None else Some(Octets(b))
    case CString(room) => if |b| + 1 > room || |b| + 1 >= 0x1_0000_0000 then None else Some(Octets(b))
    case FixedLengthBytes(n) =>
      if b == [] then Some(Octets(seq(n, _ => 0))) else if |b| != n then None else Some(Octets(b))
  }

  /** One value of type `t`; a submessage is read into the one that is there. */
  ghost function ReadValue(t: LType, into: Value, b: Bytes): (r: Option<(Value, Bytes)>)
    requires TypeOk(t) && HasType(t, into)
    ensures r.Some? ==> HasType(t, r.value.0) && |r.value.1| < |b|
    decreases t, 0
  {
    match t
    case Bool =>
      (match ReadVarint32(b)
       case None => None
       case Some(u) => Some((Flag(u.0 != 0), u.1)))
    case Fixed32 =>
      (match Take(b, 4)
       case None => None
       case Some(d) => Some((Number(DecodeFixed32(d.0)), d.1)))
    case Fixed64 =>
      (match Take(b, 8)
       case None => None
       case Some(d) => Some((Number(DecodeFixed64(d.0)), d.1)))
    case Submessage(sub, _) =>
      (match ReadString(b)
       case None => None
       case Some(d) =>
         match DecodeFields(sub, into.slots, d.0)
         case None => None
         case Some(m) => Some((Record(m.0), d.1)))
    case BytesArray(_) => ReadOctets(t, b)
    case CString(_) => ReadOctets(t, b)
    case FixedLengthBytes(_) => ReadOctets(t, b)
    case Varint(_) => ReadInteger(t, b)
    case Uvarint(_) => ReadInteger(t, b)
    case Svarint(_) => ReadInteger(t, b)
  }

  ghost function ReadOctets(t: LType, b: Bytes): (r: Option<(Value, Bytes)>)
    requires t.BytesArray? || t.CString? || t.FixedLengthBytes?
    ensures r.Some? ==> HasType(t, r.value.0) && |r.value.1| < |b|
  {
    match ReadString(b)
    case None => None
    case Some(d) =>
      match FromBytes(t, d.0)
      case None => None
      case Some(v) => Some((v, d.1))
  }

  ghost function ReadInteger(t: LType, b: Bytes): (r: Option<(Value, Bytes)>)
    requires t.Varint? || t.Uvarint? || t.Svarint?
    ensures r.Some? ==> HasType(t, r.value.0) && |r.value.1| < |b|
  {
    match ReadVarint(b)
    case None => None
    case Some(u) =>
      match FromVarint(t, u.0)
      case None => None
      case Some(v) => Some((v, u.1))
  }

  lemma AppendTyped(t: LType, items: seq<Value>, v: Value)
    requires AllTyped(t, items) && HasType(t, v)
    ensures AllTyped(t, items + [v])
  {
    forall k | 0 <= k < |items| + 1
      ensures HasType(t, (items + [v])[k])
    {
      if k < |items| {
        assert (items + [v])[k] == items[k];
      }
    }
  }

  /** Items up to the end of a packed array, as long as there is room for them. */
  ghost function ReadPacked(t: LType, arraySize: nat, items: seq<Value>, b: Bytes): (r: Option<seq<Value>>)
    requires Packable(t) && AllTyped(t, items)
    ensures r.Some? ==> AllTyped(t, r.value)
    decreases t, 1, |b|
  {
    if b == [] then Some(items)
    else if |items| >= arraySize then None
    else
      match ReadValue(t, ZeroValue(t), b)
      case None => None
      case Some(v) =>
        AppendTyped(t, items, v.0);
        ReadPacked(t, arraySize, items + [v.0], v.1)
  }

  // ---------------------------------------------------------------- fields

  /** decode_static_field on the slot of the field. */
  ghost function ReadSlot(f: Field, wire: nat, s: Slot, b: Bytes): (r: Option<(Slot, Bytes)>)
    requires TypeOk(f.ltype) && SlotTyped(f, s)
    ensures r.Some? ==> SlotTyped(f, r.value.0) && |r.value.1| <= |b|
    decreases f
  {
    ZeroTyped(f.ltype);
    match f.htype
    case Repeated(arraySize) =>
      if wire == WireCode(StringWire) && Packable(f.ltype) then
        match ReadString(b)
        case None => None
        case Some(d) =>
          match ReadPacked(f.ltype, arraySize, s.items, d.0)
          case None => None
          case Some(items) => Some((Items(items), d.1))
      else if |s.items| >= arraySize then None
      else
        (match ReadValue(f.ltype, ZeroValue(f.ltype), b)
         case None => None
         case Some(v) =>
           AppendTyped(f.ltype, s.items, v.0);
           Some((Items(s.items + [v.0]), v.1)))
    case OneOf =>
      (match ReadValue(f.ltype, ZeroValue(f.ltype), b)
       case None => None
       case Some(v) => Some((Union(f.tag, v.0), v.1)))
    case _ =>
      (match ReadValue(f.ltype, s.value, b)
       case None => None
       case Some(v) => Some((Single(s.has || f.htype.Optional?, v.0), v.1)))
  }

  /** Storing a slot of field `i` leaves the struct well typed: who shares the offset is of the same union. */
  lemma StoreTyped(mt: MessageType, m: Message, i: nat, s: Slot)
    requires SchemaOk(mt) && WellTyped(mt, m) && i < |mt.fields|
    requires SlotTyped(mt.fields[i], s)
    requires mt.fields[i].htype.OneOf? ==> s.which == mt.fields[i].tag
    ensures WellTyped(mt, m[mt.fields[i].at := s])
  {
    forall j | 0 <= j < |mt.fields|
      ensures mt.fields[j].at in m && SlotTyped(mt.fields[j], m[mt.fields[i].at := s][mt.fields[j].at])
    {
      if i < j {
        SharedOffsets(mt, i, j);
      } else if j < i {
        SharedOffsets(mt, j, i);
      }
    }
  }

  const MAX_REQUIRED_FIELDS: nat := 64

  /** The required fields a message of this type is checked for. */
  function Counted(mt: MessageType): nat {
    var n := RequiredBefore(mt, |mt.fields|);
    if n > MAX_REQUIRED_FIELDS then MAX_REQUIRED_FIELDS else n
  }

  function Mark(mt: MessageType, i: nat, seen: set<nat>): set<nat>
    requires i < |mt.fields|
  {
    if mt.fields[i].htype.Required? && RequiredBefore(mt, i) < MAX_REQUIRED_FIELDS
    then seen + {RequiredBefore(mt, i)} else seen
  }

  ghost predicate AllSeen(mt: MessageType, seen: set<nat>) {
    forall k :: 0 <= k < Counted(mt) ==> k in seen
  }

  /** The number of the field with this tag, from `i` on. */
  function IndexOf(mt: MessageType, tag: nat, i: nat): (r: Option<nat>)
    requires i <= |mt.fields|
    ensures r.Some? ==> i <= r.value < |mt.fields| && mt.fields[r.value].tag == tag
    ensures r.None? ==> forall j :: i <= j < |mt.fields| ==> mt.fields[j].tag != tag
    decreases |mt.fields| - i
  {
    if i == |mt.fields| then None
    else if mt.fields[i].tag == tag then Some(i)
    else IndexOf(mt, tag, i + 1)
  }

  datatype Decoded = Decoded(message: Message, seen: set<nat>, rest: Bytes)

  /**
    One round of the loop in pb_decode_noinit: the field of the key is stored, an unknown one skipped.
    In a message without fields the terminating descriptor, of tag 0, is taken for a required boolean.
  */
  ghost function ReadField(mt: MessageType, m: Message, seen: set<nat>, key: nat, b: Bytes): (r: Option<Decoded>)
    requires SchemaOk(mt) && WellTyped(mt, m)
    ensures r.Some? ==> WellTyped(mt, r.value.message) && |r.value.rest| <= |b|
    decreases mt, 0
  {
    match IndexOf(mt, key / 8, 0)
    case Some(i) =>
      var f := mt.fields[i];
      assert FieldOk(f);
      (match ReadSlot(f, key % 8, m[f.at], b)
       case None => None
       case Some(s) =>
         StoreTyped(mt, m, i, s.0);
         Some(Decoded(m[f.at := s.0], Mark(mt, i, seen), s.1)))
    case None =>
      if key / 8 == 0 && mt.fields == [] then
        match ReadVarint32(b)
        case None => None
        case Some(u) => Some(Decoded(m, seen, u.1))
      else
        match Skip(key % 8, b)
        case None => None
        case Some(rest) => Some(Decoded(m, seen, rest))
  }

  /** The whole loop; a zero key ends the message early. */
  ghost function ReadFields(mt: MessageType, m: Message, seen: set<nat>, b: Bytes): (r: Option<Decoded>)
    requires SchemaOk(mt) && WellTyped(mt, m)
    ensures r.Some? ==> WellTyped(mt, r.value.message) && |r.value.rest| <= |b|
    decreases mt, 1, |b|
  {
    if b == [] then Some(Decoded(m, seen, b))
    else
      match ReadVarint32(b)
      case None => None
      case Some(key) =>
        if key.0 == 0 then Some(Decoded(m, seen, key.1))
        else
          match ReadField(mt, m, seen, key.0, key.1)
          case None => None
          case Some(d) => ReadFields(mt, d.message, d.seen, d.rest)
  }

  /** pb_decode_noinit: what the struct becomes and what of the bytes is left unread. */
  ghost function DecodeFields(mt: MessageType, m: Message, b: Bytes): (r: Option<(Message, Bytes)>)
    requires SchemaOk(mt) && WellTyped(mt, m)
    ensures r.Some? ==> WellTyped(mt, r.value.0)
    decreases mt, 2
  {
    match ReadFields(mt, m, {}, b)
    case None => None
    case Some(d) => if AllSeen(mt, d.seen) then Some((d.message, d.rest)) else None
  }

  /** pb_decode. */
  ghost function Decode(mt: MessageType, b: Bytes): (r: Option<(Message, Bytes)>)
    requires SchemaOk(mt)
    ensures r.Some? ==> WellTyped(mt, r.value.0)
  {
    DefaultsTyped(mt);
    DecodeFields(mt, Defaults(mt), b)
  }

  // ---------------------------------------------------------------- reading what was written

  /** After `7 * k` bits have been gathered in `result`, the code of `v` adds its bits above them. */
  lemma {:induction false} Varint32RestBack(v: nat, k: nat, result: nat, rest: Bytes)
    requires 1 <= k <= 4 && result < Pow128(k) && result + v * Pow128(k) < 0x1_0000_0000
    ensures Varint32Rest(EncodeVarint(v) + rest, result, 7 * k) == Some((result + v * Pow128(k), rest))
    decreases v
  {
    FourGroups(v, k, result);
    if v < 128 {
      CodeEnds(v, rest);
      hide Pow128, Varint32Rest, EncodeVarint;
      RestEnds(v, k, result, EncodeVarint(v) + rest, rest);
    } else {
      var low, high, p := v % 128, v / 128, Pow128(k);
      CodeGoesOn(v, rest);
      GroupsAddUp(v, low, high, p);
      GroupBound(result, low, k);
      NextPower(k);
      hide Pow128, Varint32Rest, EncodeVarint;
      Varint32RestBack(high, k + 1, result + low * p, rest);
      RestGoesOn(low, k, result, EncodeVarint(v) + rest, EncodeVarint(high) + rest);
    }
  }

  lemma NextPower(k: nat)
    ensures Pow128(k + 1) == 128 * Pow128(k)
  {
  }

  /** A value of more than one group starts before the last of them, and its last group stays below 16. */
  lemma FourGroups(v: nat, k: nat, result: nat)
    requires 1 <= k <= 4 && result + v * Pow128(k) < 0x1_0000_0000
    ensures v >= 128 ==> k < 4
    ensures k == 4 ==> v < 16
  {
    assert Pow128(1) == 128 && Pow128(2) == 0x4000 && Pow128(3) == 0x20_0000 && Pow128(4) == 0x1000_0000;
  }

  lemma FirstByte(x: byte, a: Bytes, rest: Bytes)
    ensures ([x] + a + rest)[0] == x && ([x] + a + rest)[1..] == a + rest
    ensures ([x] + rest)[0] == x && ([x] + rest)[1..] == rest
  {
  }

  lemma CodeEnds(v: nat, rest: Bytes)
    requires v < 128
    ensures (EncodeVarint(v) + rest)[0] == v as byte && (EncodeVarint(v) + rest)[1..] == rest
  {
    assert EncodeVarint(v) == [v as byte];
    hide EncodeVarint;
    FirstByte(v as byte, [], rest);
  }

  lemma CodeGoesOn(v: nat, rest: Bytes)
    requires v >= 128
    ensures (EncodeVarint(v) + rest)[0] as nat == v % 128 + 128
    ensures (EncodeVarint(v) + rest)[1..] == EncodeVarint(v / 128) + rest
  {
    assert EncodeVarint(v) == [(v % 128 + 128) as byte] + EncodeVarint(v / 128);
    hide EncodeVarint;
    FirstByte((v % 128 + 128) as byte, EncodeVarint(v / 128), rest);
  }

  lemma RestEnds(v: nat, k: nat, result: nat, code: Bytes, rest: Bytes)
    requires v < 128 && 1 <= k <= 4 && result + v * Pow128(k) < 0x1_0000_0000 && (k == 4 ==> v < 16)
    requires code != [] && code[0] as nat == v && code[1..] == rest && result < 0x1_0000_0000
    ensures Varint32Rest(code, result, 7 * k) == Some((result + v * Pow128(k), rest))
  {
    assert code[0] as nat % 128 == v && 7 * k / 7 == k;
    hide Pow128, Varint32Rest;
    RestStops(code, result, 7 * k, v, Pow128(k));
  }

  lemma RestStops(code: Bytes, result: nat, bitpos: nat, v: nat, p: nat)
    requires code != [] && code[0] as nat == v < 128 && bitpos < 32 && Pow128(bitpos / 7) == p && (bitpos == 28 ==> v < 16)
    requires result < 0x1_0000_0000 && result + v * p < 0x1_0000_0000
    ensures Varint32Rest(code, result, bitpos) == Some((result + v * p, code[1..]))
  {
    hide Pow128;
    ModSmall(result + v * p);
  }

  lemma RestGoesOn(low: nat, k: nat, result: nat, code: Bytes, rest: Bytes)
    requires low < 128 && 1 <= k < 4 && result + low * Pow128(k) < 0x1_0000_0000
    requires code != [] && code[0] as nat == low + 128 && code[1..] == rest && result < 0x1_0000_0000
    ensures Varint32Rest(code, result, 7 * k) == Varint32Rest(rest, result + low * Pow128(k), 7 * (k + 1))
  {
    assert code[0] as nat % 128 == low && 7 * k / 7 == k && 7 * (k + 1) == 7 * k + 7;
    hide Pow128, Varint32Rest;
    RestStep(code, result, 7 * k, low, Pow128(k));
  }

  lemma RestStep(code: Bytes, result: nat, bitpos: nat, low: nat, p: nat)
    requires code != [] && code[0] >= 128 && code[0] as nat % 128 == low && bitpos < 32 && Pow128(bitpos / 7) == p
    requires result < 0x1_0000_0000 && result + low * p < 0x1_0000_0000
    ensures Varint32Rest(code, result, bitpos) == Varint32Rest(code[1..], result + low * p, bitpos + 7)
  {
    hide Pow128;
    ModSmall(result + low * p);
  }

  lemma ModSmall(n: nat)
    requires n < 0x1_0000_0000
    ensures n % 0x1_0000_0000 == n
  {
  }

  lemma GroupsAddUp(v: nat, low: nat, high: nat, p: nat)
    requires v == low + 128 * high
    ensures v * p == low * p + high * (128 * p)
    ensures low * p <= v * p
  {
  }

  lemma GroupBound(result: nat, low: nat, k: nat)
    requires result < Pow128(k) && low < 128
    ensures result + low * Pow128(k) < Pow128(k + 1)
  {
    GroupScaled(low, Pow128(k));
  }

  lemma GroupScaled(low: nat, p: nat)
    requires low < 128
    ensures low * p <= 127 * p
  {
  }

  lemma Varint32Back(v: nat, rest: Bytes)
    requires v < 0x1_0000_0000
    ensures ReadVarint32(EncodeVarint(v) + rest) == Some((v, rest))
  {
    assert Pow128(1) == 128;
    hide EncodeVarint, Varint32Rest, Pow128;
    var code := EncodeVarint(v) + rest;
    if v < 128 {
      CodeEnds(v, rest);
    } else {
      CodeGoesOn(v, rest);
      assert code[0] as nat % 128 == v % 128;
      Varint32RestBack(v / 128, 1, v % 128, rest);
    }
  }

  lemma VarintBack(v: nat, rest: Bytes)
    requires v < U64
    ensures ReadVarint(EncodeVarint(v) + rest) == Some((v, rest))
  {
    Varint64RoundTrip(v, rest);
    assert (EncodeVarint(v) + rest)[|EncodeVarint(v)|..] == rest;
  }

  lemma {:induction false} SkipVarintBack(v: nat, rest: Bytes)
    ensures SkipVarint(EncodeVarint(v) + rest) == Some(rest)
  {
    var code := EncodeVarint(v) + rest;
    if v < 128 {
      assert code[1..] == rest;
    } else {
      assert code[1..] == EncodeVarint(v / 128) + rest;
      SkipVarintBack(v / 128, rest);
    }
  }

  lemma TakeBack(a: Bytes, rest: Bytes)
    ensures Take(a + rest, |a|) == Some((a, rest))
  {
    assert (a + rest)[..|a|] == a && (a + rest)[|a|..] == rest;
  }

  lemma StringBack(s: Bytes, rest: Bytes)
    requires |s| < 0x1_0000_0000
    ensures ReadString(EncodeString(s) + rest) == Some((s, rest))
  {
    Associative(EncodeVarint(|s|), s, rest);
    Varint32Back(|s|, s + rest);
    TakeBack(s, rest);
  }

  /** What of a value below 2^63 lies above its lowest `7 * k` bits is below this. */
  function Above(k: nat): nat
    decreases 8 - k
  {
    if k >= 8 then 0x80 else 0x80 * Above(k + 1)
  }

  /** Groups beyond the fifth must be zero or extend a sign, and only the tenth can both extend it and end. */
  lemma {:induction false} LaterGroupsRefused(v: nat, k: nat, result: nat, rest: Bytes)
    requires 5 <= k <= 8 && result < 0x1_0000_0000 && 0 < v < Above(k)
    ensures Varint32Rest(EncodeVarint(v) + rest, result, 7 * k) == None
    decreases v
  {
    var code := EncodeVarint(v) + rest;
    if v < 128 {
      assert code[0] == v as byte;
    } else {
      assert k < 8 && v / 128 < Above(k + 1);
      assert code[1..] == EncodeVarint(v / 128) + rest;
      LaterGroupsRefused(v / 128, k + 1, result, rest);
    }
  }

  /** The least of the values that take up more than 32 bits together with `7 * k` lower ones. */
  function Least(k: nat): nat {
    if k == 1 then 0x200_0000 else if k == 2 then 0x4_0000 else if k == 3 then 0x800 else 0x10
  }

  lemma {:induction false} TooLongRefused(v: nat, k: nat, result: nat, rest: Bytes)
    requires 1 <= k <= 4 && result < 0x1_0000_0000 && Least(k) <= v < Above(k)
    ensures Varint32Rest(EncodeVarint(v) + rest, result, 7 * k) == None
    decreases v
  {
    var code := EncodeVarint(v) + rest;
    if v < 128 {
      assert code[0] == v as byte && k == 4;
    } else {
      assert v / 128 < Above(k + 1);
      assert code[1..] == EncodeVarint(v / 128) + rest;
      var gathered := (result + code[0] as nat % 128 * Pow128(7 * k / 7)) % 0x1_0000_0000;
      if k == 4 {
        LaterGroupsRefused(v / 128, 5, gathered, rest);
      } else {
        TooLongRefused(v / 128, k + 1, gathered, rest);
      }
    }
  }

  /** Lengths from 2^32 up to 2^63 are reported as an overflow. */
  lemma LongLengthsRefused(v: nat, rest: Bytes)
    requires 0x1_0000_0000 <= v < 0x8000_0000_0000_0000
    ensures ReadVarint32(EncodeVarint(v) + rest) == None
  {
    var code := EncodeVarint(v) + rest;
    assert Above(5) == 0x1000_0000;
    assert Above(3) == 0x400_0000_0000;
    assert Above(1) == 0x100_0000_0000_0000;
    assert code[0] as nat % 128 == v % 128 && code[1..] == EncodeVarint(v / 128) + rest;
    TooLongRefused(v / 128, 1, v % 128, rest);
  }
}
