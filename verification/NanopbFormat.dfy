/**
  Message descriptors, message structs and the bytes a struct stands for on the wire
  (pb.h, and the encoders of pb_encode.c as functions).
*/
module NanopbFormat {
  import opened Base
  import opened Coding

  const U64 := 0x1_0000_0000_0000_0000

  // ---------------------------------------------------------------- descriptors

  /** How one item is stored and encoded; sizes are the bytes it takes in the struct. */
  datatype LType =
    | Bool
    | Varint(width: nat)
    | Uvarint(width: nat)
    | Svarint(width: nat)
    | Fixed32
    | Fixed64
    | BytesArray(capacity: nat)
    | CString(room: nat)
    | Submessage(sub: MessageType, structSize: nat)
    | FixedLengthBytes(exactly: nat)

  /** `Optional` has a has_ flag, `Singular` (proto3) has none, the members of a `OneOf` share storage. */
  datatype HType = Required | Optional | Singular | Repeated(arraySize: nat) | OneOf

  /** `at` is the offset of the member in its struct; `initial` the default value, zeros when there is none. */
  datatype Field = Field(tag: nat, ltype: LType, htype: HType, at: nat, initial: Option<Value>)

  /** The array of field descriptors, without the terminating one of tag 0. */
  datatype MessageType = MessageType(fields: seq<Field>)

  datatype WireType = VarintWire | Wire64Bit | StringWire | Wire32Bit

  function WireCode(w: WireType): nat {
    match w
    case VarintWire => 0
    case Wire64Bit => 1
    case StringWire => 2
    case Wire32Bit => 5
  }

  /** PB_LTYPE(type) <= PB_LTYPE_LAST_PACKABLE. */
  predicate Packable(t: LType) {
    t.Bool? || t.Varint? || t.Uvarint? || t.Svarint? || t.Fixed32? || t.Fixed64?
  }

  function WireOf(t: LType): WireType {
    match t
    case Bool => VarintWire
    case Varint(_) => VarintWire
    case Uvarint(_) => VarintWire
    case Svarint(_) => VarintWire
    case Fixed32 => Wire32Bit
    case Fixed64 => Wire64Bit
    case BytesArray(_) => StringWire
    case CString(_) => StringWire
    case Submessage(_, _) => StringWire
    case FixedLengthBytes(_) => StringWire
  }

  function DataSize(t: LType): nat {
    match t
    case Bool => 1
    case Varint(n) => n
    case Uvarint(n) => n
    case Svarint(n) => n
    case Fixed32 => 4
    case Fixed64 => 8
    case BytesArray(n) => n
    case CString(n) => n
    case Submessage(_, n) => n
    case FixedLengthBytes(n) => n
  }

  // ---------------------------------------------------------------- structs

  /** A `CString` holds what its buffer has before the last terminator; a `BytesArray` its `size` bytes. */
  datatype Value = Flag(b: bool) | Number(n: int) | Octets(bytes: Bytes) | Record(slots: Message)

  /** What lies at one offset: a member with its has_ flag, an array with its count, a union with its which_ tag. */
  datatype Slot = Single(has: bool, value: Value) | Items(items: seq<Value>) | Union(which: nat, content: Value)

  type Message = map<nat, Slot>

  /** Twice this many integers fit in `width` bytes. */
  function Half(width: nat): (h: int)
    ensures 0x80 <= h <= 0x8000_0000_0000_0000
  {
    if width == 1 then 0x80
    else if width == 2 then 0x8000
    else if width == 4 then 0x8000_0000
    else 0x8000_0000_0000_0000
  }

  /** The sizes an integer member may have; any other is reported as "invalid data_size". */
  predicate ValidWidth(width: nat) {
    width == 1 || width == 2 || width == 4 || width == 8
  }

  predicate InSigned(width: nat, i: int) {
    -Half(width) <= i < Half(width)
  }

  predicate InUnsigned(width: nat, i: int) {
    0 <= i < 2 * Half(width)
  }

  /** What the C type of a member of type `t` can hold. */
  ghost predicate HasType(t: LType, v: Value)
    decreases t, 0
  {
    match t
    case Bool => v.Flag?
    case Varint(n) => v.Number? && InSigned(n, v.n)
    case Uvarint(n) => v.Number? && InUnsigned(n, v.n)
    case Svarint(n) => v.Number? && InSigned(n, v.n)
    case Fixed32 => v.Number? && 0 <= v.n < 0x1_0000_0000
    case Fixed64 => v.Number? && 0 <= v.n < U64
    case BytesArray(_) => v.Octets?
    case CString(n) => v.Octets? && |v.bytes| <= n
    case Submessage(sub, _) => v.Record? && WellTyped(sub, v.slots)
    case FixedLengthBytes(n) => v.Octets? && |v.bytes| == n
  }

  ghost predicate AllTyped(t: LType, items: seq<Value>)
    decreases t, 1
  {
    forall k :: 0 <= k < |items| ==> HasType(t, items[k])
  }

  ghost predicate SlotTyped(f: Field, s: Slot)
    decreases f
  {
    match f.htype
    case Repeated(_) => s.Items? && AllTyped(f.ltype, s.items)
    case OneOf => s.Union? && (s.which == f.tag ==> HasType(f.ltype, s.content))
    case _ => s.Single? && HasType(f.ltype, s.value)
  }

  ghost predicate WellTyped(mt: MessageType, m: Message)
    decreases mt
  {
    forall i :: 0 <= i < |mt.fields| ==> mt.fields[i].at in m && SlotTyped(mt.fields[i], m[mt.fields[i].at])
  }

  // ---------------------------------------------------------------- numbers on the wire

  /** A signed value cast to uint64_t. */
  function AsUnsigned(i: int): nat
    requires -U64 <= i < U64
  {
    if i < 0 then i + U64 else i
  }

  /** A uint64_t cast to a signed type of `2 * half` values. */
  function AsSigned(u: nat, half: nat): int
    requires half > 0
  {
    var low := u % (2 * half);
    if low < half then low else low - 2 * half
  }

  lemma AsSignedInverts(i: int)
    requires -0x8000_0000_0000_0000 <= i < 0x8000_0000_0000_0000
    ensures AsSigned(AsUnsigned(i), 0x8000_0000_0000_0000) == i
    ensures -0x8000_0000 <= i < 0x8000_0000 ==> AsSigned(AsUnsigned(i), 0x8000_0000) == i
  {
    if i < 0 && -0x8000_0000 <= i {
      assert AsUnsigned(i) == 0x1_0000_0000 * 0xFFFF_FFFF + (0x1_0000_0000 + i);
    }
  }

  /** Small magnitudes to small codes: 0, -1, 1, -2, ... to 0, 1, 2, 3, ... */
  function ZigZag(i: int): nat {
    if i < 0 then -2 * i - 1 else 2 * i
  }

  function UnZigZag(u: nat): int {
    if u % 2 == 1 then -(u / 2) - 1 else u / 2
  }

  lemma ZigZagInverts(i: int)
    ensures UnZigZag(ZigZag(i)) == i
    ensures -0x8000_0000_0000_0000 <= i < 0x8000_0000_0000_0000 <==> ZigZag(i) < U64
  {
  }

  // ---------------------------------------------------------------- the encoding

  /** What a C string of at most `room` bytes holds: everything before the first zero. */
  function Text(b: Bytes, room: nat): (t: Bytes)
    ensures |t| <= |b| && |t| <= room
    decreases |b|
  {
    if room == 0 || b == [] || b[0] == 0 then [] else [b[0]] + Text(b[1..], room - 1)
  }

  /** Bytes the header of a pb_bytes_array_t takes when pb_size_t is uint32_t. */
  const BYTES_HEADER: nat := 4

  function TagBytes(w: WireType, tag: nat): Bytes {
    EncodeVarint(8 * tag + WireCode(w))
  }

  ghost function ValueBytes(t: LType, v: Value): Bytes
    requires HasType(t, v)
    decreases t, 0
  {
    match t
    case Bool => EncodeVarint(if v.b then 1 else 0)
    case Varint(_) => EncodeVarint(AsUnsigned(v.n))
    case Uvarint(_) => EncodeVarint(v.n)
    case Svarint(_) => EncodeVarint(ZigZag(v.n))
    case Fixed32 => EncodeFixed32(v.n)
    case Fixed64 => EncodeFixed64(v.n)
    case BytesArray(_) => EncodeString(v.bytes)
    case CString(n) => EncodeString(Text(v.bytes, n))
    case Submessage(sub, _) => EncodeString(MessageBytes(sub, v.slots))
    case FixedLengthBytes(_) => EncodeString(v.bytes)
  }

  /** The items of a packed array, one after the other. */
  ghost function PackedBytes(t: LType, items: seq<Value>): Bytes
    requires AllTyped(t, items)
    decreases t, |items| + 1
  {
    if items == [] then [] else ValueBytes(t, items[0]) + PackedBytes(t, items[1..])
  }

  /** The items of an unpacked array, each behind the tag. */
  ghost function TaggedBytes(t: LType, tag: nat, items: seq<Value>): Bytes
    requires AllTyped(t, items)
    decreases t, |items| + 1
  {
    if items == [] then [] else TagBytes(WireOf(t), tag) + ValueBytes(t, items[0]) + TaggedBytes(t, tag, items[1..])
  }

  ghost function ArrayBytes(t: LType, tag: nat, items: seq<Value>): Bytes
    requires AllTyped(t, items)
    decreases t, |items| + 2
  {
    if items == [] then []
    else if Packable(t) then TagBytes(StringWire, tag) + EncodeString(PackedBytes(t, items))
    else TaggedBytes(t, tag, items)
  }

  /** Is there anything to encode: the has_ flag, the which_ tag, a non-zero proto3 value, or no condition. */
  ghost predicate Present(f: Field, s: Slot)
    requires SlotTyped(f, s)
    decreases f, 0
  {
    match f.htype
    case Required => true
    case Optional => s.has
    case Singular => !IsZero(f.ltype, s.value)
    case Repeated(_) => s.items != []
    case OneOf => s.which == f.tag
  }

  /** pb_check_proto3_default_value on the data of a field without a has_ flag. */
  ghost predicate IsZero(t: LType, v: Value)
    requires HasType(t, v)
    decreases t
  {
    match t
    case Bool => !v.b
    case Varint(_) => v.n == 0
    case Uvarint(_) => v.n == 0
    case Svarint(_) => v.n == 0
    case Fixed32 => v.n == 0
    case Fixed64 => v.n == 0
    case BytesArray(_) => v.bytes == []
    case CString(_) => v.bytes == [] || v.bytes[0] == 0
    case Submessage(sub, _) => AllDefault(sub, v.slots)
    case FixedLengthBytes(n) => n == 0
  }

  /** The same check on a field of a submessage. */
  ghost predicate IsDefault(f: Field, s: Slot)
    requires SlotTyped(f, s)
    decreases f, 0
  {
    match f.htype
    case Required => false
    case Optional => !s.has
    case Singular => IsZero(f.ltype, s.value)
    case Repeated(_) => s.items == []
    case OneOf => s.which == 0
  }

  ghost predicate AllDefault(mt: MessageType, m: Message)
    requires WellTyped(mt, m)
    decreases mt
  {
    forall i :: 0 <= i < |mt.fields| ==> IsDefault(mt.fields[i], m[mt.fields[i].at])
  }

  ghost function FieldBytes(f: Field, s: Slot): Bytes
    requires SlotTyped(f, s)
    decreases f, 1
  {
    if !Present(f, s) then []
    else
      match f.htype
      case Repeated(_) => ArrayBytes(f.ltype, f.tag, s.items)
      case OneOf => TagBytes(WireOf(f.ltype), f.tag) + ValueBytes(f.ltype, s.content)
      case _ => TagBytes(WireOf(f.ltype), f.tag) + ValueBytes(f.ltype, s.value)
  }

  /** The fields from number `i` on, in the order of the descriptors. */
  ghost function FieldsBytes(mt: MessageType, m: Message, i: nat): Bytes
    requires WellTyped(mt, m) && i <= |mt.fields|
    decreases mt, |mt.fields| - i
  {
    if i == |mt.fields| then []
    else FieldBytes(mt.fields[i], m[mt.fields[i].at]) + FieldsBytes(mt, m, i + 1)
  }

  ghost function MessageBytes(mt: MessageType, m: Message): Bytes
    requires WellTyped(mt, m)
    decreases mt, |mt.fields| + 1
  {
    FieldsBytes(mt, m, 0)
  }

  // ---------------------------------------------------------------- what the encoder refuses

  /** Integers of a supported size and byte arrays within their allocation, at every depth. */
  ghost predicate Encodable(t: LType, v: Value)
    requires HasType(t, v)
    decreases t, 0
  {
    match t
    case Varint(n) => ValidWidth(n)
    case Uvarint(n) => ValidWidth(n)
    case Svarint(n) => ValidWidth(n)
    case BytesArray(n) => BYTES_HEADER + |v.bytes| <= n
    case Submessage(sub, _) => MessageEncodable(sub, v.slots)
    case _ => true
  }

  ghost predicate AllEncodable(t: LType, items: seq<Value>)
    requires AllTyped(t, items)
    decreases t, 1
  {
    forall k :: 0 <= k < |items| ==> Encodable(t, items[k])
  }

  /** A present field also keeps its array count within the array. */
  ghost predicate FieldEncodable(f: Field, s: Slot)
    requires SlotTyped(f, s)
    decreases f
  {
    Present(f, s) ==>
      match f.htype
      case Repeated(n) => |s.items| <= n && AllEncodable(f.ltype, s.items)
      case OneOf => Encodable(f.ltype, s.content)
      case _ => Encodable(f.ltype, s.value)
  }

  ghost predicate MessageEncodable(mt: MessageType, m: Message)
    requires WellTyped(mt, m)
    decreases mt
  {
    forall i :: 0 <= i < |mt.fields| ==> FieldEncodable(mt.fields[i], m[mt.fields[i].at])
  }
}
