/**
  Decoding what was encoded.  The reader may use another version of the message type than the writer:
  it skips fields it does not know and keeps the defaults of those that were not sent.
*/
module NanopbRoundTrip {
  import opened Base
  import opened Coding
  import opened NanopbFormat
  import opened NanopbFields
  import opened NanopbReads

  const WORD: nat := 0x1_0000_0000

  // ---------------------------------------------------------------- versions of a type

  ghost predicate CompatType(r: LType, w: LType)
    decreases w
  {
    if r.Submessage? && w.Submessage? then Compatible(r.sub, w.sub) else r == w
  }

  ghost predicate CompatField(g: Field, f: Field)
    decreases f
  {
    g.tag == f.tag ==> g.htype == f.htype && CompatType(g.ltype, f.ltype)
  }

  /** Fields of one number agree, the reader requires nothing the writer does not know, and unions stay together. */
  ghost predicate Compatible(r: MessageType, w: MessageType)
    decreases w
  {
    && (forall i, j :: 0 <= i < |w.fields| && 0 <= j < |r.fields| ==> CompatField(r.fields[j], w.fields[i]))
    && (forall j :: 0 <= j < |r.fields| && r.fields[j].htype.Required? ==> HasTag(w, r.fields[j].tag))
    && (forall j, k :: 0 <= j < k < |r.fields| && r.fields[j].at == r.fields[k].at ==>
          SameUnion(w, r.fields[j].tag, r.fields[k].tag))
  }

  ghost predicate SameUnion(w: MessageType, tag1: nat, tag2: nat) {
    forall i, k :: 0 <= i < |w.fields| && 0 <= k < |w.fields| && w.fields[i].tag == tag1 && w.fields[k].tag == tag2 ==>
      w.fields[i].at == w.fields[k].at
  }

  // ---------------------------------------------------------------- what the reader gets

  ghost function ReceivedValue(r: LType, w: LType, v: Value): Value
    requires CompatType(r, w) && TypeOk(r) && TypeOk(w) && HasType(w, v)
    decreases w, 0
  {
    match w
    case CString(room) => Octets(Text(v.bytes, room))
    case Submessage(sub, _) => Record(Received(r.sub, sub, v.slots))
    case _ => v
  }

  /** A string needs room for its terminator; everything else the encoder accepts the decoder does too. */
  ghost predicate Accepts(r: LType, w: LType, v: Value)
    requires CompatType(r, w) && TypeOk(r) && TypeOk(w) && HasType(w, v)
    decreases w, 0
  {
    match w
    case CString(room) => |Text(v.bytes, room)| < room
    case Submessage(sub, _) => AcceptsFields(r.sub, sub, v.slots, 0)
    case _ => true
  }

  ghost function ReceivedItems(r: LType, w: LType, items: seq<Value>): (res: seq<Value>)
    requires CompatType(r, w) && TypeOk(r) && TypeOk(w) && AllTyped(w, items)
    ensures |res| == |items|
    decreases w, |items| + 1
  {
    if items == [] then [] else [ReceivedValue(r, w, items[0])] + ReceivedItems(r, w, items[1..])
  }

  ghost predicate AcceptsItems(r: LType, w: LType, items: seq<Value>)
    requires CompatType(r, w) && TypeOk(r) && TypeOk(w) && AllTyped(w, items)
    decreases w, |items| + 1
  {
    items == [] || (Accepts(r, w, items[0]) && AcceptsItems(r, w, items[1..]))
  }

  ghost predicate Pair(g: Field, f: Field) {
    g.tag == f.tag && CompatField(g, f) && FieldOk(g) && FieldOk(f)
  }

  ghost function ReceivedSlot(g: Field, f: Field, s: Slot): Slot
    requires Pair(g, f) && SlotTyped(f, s) && Present(f, s)
    decreases f
  {
    match f.htype
    case Repeated(_) => Items(ReceivedItems(g.ltype, f.ltype, s.items))
    case OneOf => Union(f.tag, ReceivedValue(g.ltype, f.ltype, s.content))
    case _ => Single(f.htype.Optional?, ReceivedValue(g.ltype, f.ltype, s.value))
  }

  ghost predicate AcceptsSlot(g: Field, f: Field, s: Slot)
    requires Pair(g, f) && SlotTyped(f, s) && Present(f, s)
    decreases f
  {
    match f.htype
    case Repeated(_) => AcceptsItems(g.ltype, f.ltype, s.items)
    case OneOf => Accepts(g.ltype, f.ltype, s.content)
    case _ => Accepts(g.ltype, f.ltype, s.value)
  }

  ghost predicate Versions(r: MessageType, w: MessageType, m: Message) {
    SchemaOk(r) && SchemaOk(w) && Compatible(r, w) && WellTyped(w, m)
  }

  /** The pair of descriptors for field `i` of the writer, if the reader knows it. */
  lemma PairOf(r: MessageType, w: MessageType, m: Message, i: nat)
    requires Versions(r, w, m) && i < |w.fields|
    ensures var j := IndexOf(r, w.fields[i].tag, 0);
      j.Some? ==> Pair(r.fields[j.value], w.fields[i])
    ensures SlotTyped(w.fields[i], m[w.fields[i].at])
  {
    var j := IndexOf(r, w.fields[i].tag, 0);
    if j.Some? {
      assert CompatField(r.fields[j.value], w.fields[i]);
      assert FieldOk(r.fields[j.value]) && FieldOk(w.fields[i]);
    }
  }

  /** The reader's struct after the fields of the writer from number `i` on. */
  ghost function ReceivedFrom(r: MessageType, w: MessageType, m: Message, i: nat, d: Message): Message
    requires Versions(r, w, m) && i <= |w.fields|
    decreases w, |w.fields| - i
  {
    if i == |w.fields| then d
    else
      PairOf(r, w, m, i);
      var f := w.fields[i];
      var j := IndexOf(r, f.tag, 0);
      var next := if j.None? || !Present(f, m[f.at]) then d
                  else d[r.fields[j.value].at := ReceivedSlot(r.fields[j.value], f, m[f.at])];
      ReceivedFrom(r, w, m, i + 1, next)
  }

  ghost function Received(r: MessageType, w: MessageType, m: Message): Message
    requires Versions(r, w, m)
    decreases w, |w.fields| + 1
  {
    ReceivedFrom(r, w, m, 0, Defaults(r))
  }

  ghost predicate AcceptsFields(r: MessageType, w: MessageType, m: Message, i: nat)
    requires Versions(r, w, m) && i <= |w.fields|
    decreases w, |w.fields| - i
  {
    i == |w.fields| ||
    (PairOf(r, w, m, i);
     var f := w.fields[i];
     var j := IndexOf(r, f.tag, 0);
     && (j.None? || !Present(f, m[f.at]) || AcceptsSlot(r.fields[j.value], f, m[f.at]))
     && AcceptsFields(r, w, m, i + 1))
  }

  // ---------------------------------------------------------------- one value

  lemma IntegerBack(t: LType, v: Value, rest: Bytes)
    requires (t.Varint? || t.Uvarint? || t.Svarint?) && HasType(t, v) && Encodable(t, v)
    ensures ReadInteger(t, ValueBytes(t, v) + rest) == Some((v, rest))
  {
    match t
    case Varint(_) =>
      AsSignedInverts(v.n);
      VarintBack(AsUnsigned(v.n), rest);
    case Uvarint(_) =>
      VarintBack(v.n, rest);
    case Svarint(_) =>
      ZigZagInverts(v.n);
      VarintBack(ZigZag(v.n), rest);
  }

  /** Bytes go through whole; a string up to its first zero, if the terminator has room. */
  lemma OctetsBack(t: LType, v: Value, rest: Bytes)
    requires (t.BytesArray? || t.CString? || t.FixedLengthBytes?) && HasType(t, v) && Encodable(t, v)
    requires |ValueBytes(t, v)| < WORD
    ensures t.CString? && |Text(v.bytes, t.room)| == t.room ==> ReadOctets(t, ValueBytes(t, v) + rest) == None
    ensures t.CString? && |Text(v.bytes, t.room)| < t.room ==>
              ReadOctets(t, ValueBytes(t, v) + rest) == Some((Octets(Text(v.bytes, t.room)), rest))
    ensures !t.CString? ==> ReadOctets(t, ValueBytes(t, v) + rest) == Some((v, rest))
  {
    var b := if t.CString? then Text(v.bytes, t.room) else v.bytes;
    assert ValueBytes(t, v) == EncodeString(b);
    StringBack(b, rest);
    if t.FixedLengthBytes? && b == [] {
      assert seq(t.exactly, _ => 0) == b;
    }
  }

  lemma ScalarBack(t: LType, into: Value, v: Value, rest: Bytes)
    requires !t.Submessage? && HasType(t, into) && HasType(t, v) && Encodable(t, v)
    requires |ValueBytes(t, v)| < WORD
    ensures TypeOk(t)
    ensures ReadValue(t, into, ValueBytes(t, v) + rest)
         == if Accepts(t, t, v) then Some((ReceivedValue(t, t, v), rest)) else None
  {
    match t
    case Bool =>
      Varint32Back(if v.b then 1 else 0, rest);
    case Fixed32 =>
      Fixed32RoundTrip(v.n);
      TakeBack(EncodeFixed32(v.n), rest);
    case Fixed64 =>
      Fixed64RoundTrip(v.n);
      TakeBack(EncodeFixed64(v.n), rest);
    case BytesArray(_) => OctetsBack(t, v, rest);
    case CString(_) => OctetsBack(t, v, rest);
    case FixedLengthBytes(_) => OctetsBack(t, v, rest);
    case Varint(_) => IntegerBack(t, v, rest);
    case Uvarint(_) => IntegerBack(t, v, rest);
    case Svarint(_) => IntegerBack(t, v, rest);
  }

  lemma {:induction false} PackedBack(t: LType, arraySize: nat, prev: seq<Value>, items: seq<Value>)
    requires Packable(t) && AllTyped(t, prev) && AllTyped(t, items) && AllEncodable(t, items)
    requires |prev| + |items| <= arraySize && |PackedBytes(t, items)| < WORD
    ensures ReadPacked(t, arraySize, prev, PackedBytes(t, items)) == Some(prev + items)
    decreases |items|
  {
    hide HasType, ValueBytes, Encodable;
    if items == [] {
      assert prev + items == prev;
    } else {
      var v, rest := items[0], PackedBytes(t, items[1..]);
      ScalarBack(t, ZeroValue(t), v, rest);
      AppendTyped(t, prev, v);
      PackedBack(t, arraySize, prev + [v], items[1..]);
      assert prev + [v] + items[1..] == prev + items;
    }
  }

  /** A reader that does not know the field steps over one value of it. */
  lemma SkipBack(t: LType, v: Value, rest: Bytes)
    requires HasType(t, v) && |ValueBytes(t, v)| < WORD
    ensures Skip(WireCode(WireOf(t)), ValueBytes(t, v) + rest) == Some(rest)
  {
    match t
    case Bool => SkipVarintBack(if v.b then 1 else 0, rest);
    case Varint(_) => SkipVarintBack(AsUnsigned(v.n), rest);
    case Uvarint(_) => SkipVarintBack(v.n, rest);
    case Svarint(_) => SkipVarintBack(ZigZag(v.n), rest);
    case Fixed32 => TakeBack(EncodeFixed32(v.n), rest);
    case Fixed64 => TakeBack(EncodeFixed64(v.n), rest);
    case BytesArray(_) => StringBack(v.bytes, rest);
    case CString(n) => StringBack(Text(v.bytes, n), rest);
    case Submessage(sub, _) => StringBack(MessageBytes(sub, v.slots), rest);
    case FixedLengthBytes(_) => StringBack(v.bytes, rest);
  }

  // ---------------------------------------------------------------- one field

  /** What the decoding loop makes of the rest once a field has been dealt with. */
  ghost function Continue(r: MessageType, x: Option<Decoded>): Option<Decoded>
    requires SchemaOk(r) && (x.Some? ==> WellTyped(r, x.value.message))
  {
    match x
    case None => None
    case Some(d) => ReadFields(r, d.message, d.seen, d.rest)
  }

  lemma KeyStep(r: MessageType, d: Message, seen: set<nat>, wire: WireType, tag: nat, b: Bytes)
    requires SchemaOk(r) && WellTyped(r, d) && 0 < tag < 0x2000_0000
    ensures (8 * tag + WireCode(wire)) / 8 == tag && (8 * tag + WireCode(wire)) % 8 == WireCode(wire)
    ensures ReadFields(r, d, seen, TagBytes(wire, tag) + b)
         == Continue(r, ReadField(r, d, seen, 8 * tag + WireCode(wire), b))
  {
    hide ReadFields, ReadField, Continue, SchemaOk, WellTyped;
    KeyParts(tag, WireCode(wire));
    OneRound(r, d, seen, 8 * tag + WireCode(wire), b);
  }

  lemma OneRound(r: MessageType, d: Message, seen: set<nat>, key: nat, b: Bytes)
    requires SchemaOk(r) && WellTyped(r, d) && 0 < key < WORD
    ensures ReadFields(r, d, seen, EncodeVarint(key) + b) == Continue(r, ReadField(r, d, seen, key, b))
  {
    Varint32Back(key, b);
  }

  lemma KeyParts(tag: nat, code: nat)
    requires code < 8
    ensures (8 * tag + code) / 8 == tag && (8 * tag + code) % 8 == code
  {
  }

  lemma UnknownValue(r: MessageType, d: Message, seen: set<nat>, tag: nat, t: LType, v: Value, rest: Bytes)
    requires SchemaOk(r) && WellTyped(r, d) && 0 < tag < 0x2000_0000 && IndexOf(r, tag, 0).None?
    requires HasType(t, v) && |ValueBytes(t, v)| < WORD
    ensures ReadFields(r, d, seen, TagBytes(WireOf(t), tag) + ValueBytes(t, v) + rest) == ReadFields(r, d, seen, rest)
  {
    Associative(TagBytes(WireOf(t), tag), ValueBytes(t, v), rest);
    KeyStep(r, d, seen, WireOf(t), tag, ValueBytes(t, v) + rest);
    SkipBack(t, v, rest);
  }

  lemma UnknownString(r: MessageType, d: Message, seen: set<nat>, tag: nat, data: Bytes, rest: Bytes)
    requires SchemaOk(r) && WellTyped(r, d) && 0 < tag < 0x2000_0000 && IndexOf(r, tag, 0).None?
    requires |data| < WORD
    ensures ReadFields(r, d, seen, TagBytes(StringWire, tag) + EncodeString(data) + rest) == ReadFields(r, d, seen, rest)
  {
    Associative(TagBytes(StringWire, tag), EncodeString(data), rest);
    KeyStep(r, d, seen, StringWire, tag, EncodeString(data) + rest);
    StringBack(data, rest);
  }

  lemma {:induction false} UnknownTagged(r: MessageType, d: Message, seen: set<nat>, tag: nat, t: LType,
                                         items: seq<Value>, rest: Bytes)
    requires SchemaOk(r) && WellTyped(r, d) && 0 < tag < 0x2000_0000 && IndexOf(r, tag, 0).None?
    requires AllTyped(t, items) && |TaggedBytes(t, tag, items)| < WORD
    ensures ReadFields(r, d, seen, TaggedBytes(t, tag, items) + rest) == ReadFields(r, d, seen, rest)
    decreases |items|
  {
    if items == [] {
      assert TaggedBytes(t, tag, items) + rest == rest;
    } else {
      var first, more := TagBytes(WireOf(t), tag) + ValueBytes(t, items[0]), TaggedBytes(t, tag, items[1..]);
      Associative(first, more, rest);
      UnknownValue(r, d, seen, tag, t, items[0], more + rest);
      UnknownTagged(r, d, seen, tag, t, items[1..], rest);
    }
  }

  /** The reader's struct is `d`, `g` its field `j`, and `f` the writer's field of the same number. */
  ghost predicate Known(r: MessageType, d: Message, j: nat, f: Field) {
    && SchemaOk(r) && WellTyped(r, d) && j < |r.fields|
    && IndexOf(r, f.tag, 0) == Some(j)
    && Pair(r.fields[j], f)
  }

  /** Reading `b` stores `s` in field `j` and goes on with `rest`, or fails if the reader does not accept it. */
  ghost predicate Stores(r: MessageType, d: Message, j: nat, seen: set<nat>, b: Bytes, accepted: bool, s: Slot, rest: Bytes)
    requires SchemaOk(r) && WellTyped(r, d) && j < |r.fields|
  {
    if accepted then
      && WellTyped(r, d[r.fields[j].at := s])
      && ReadFields(r, d, seen, b) == ReadFields(r, d[r.fields[j].at := s], Mark(r, j, seen), rest)
    else ReadFields(r, d, seen, b) == None
  }

  /** The slot that decode_static_field makes of a known field's data is stored, and the loop goes on. */
  lemma SlotStored(r: MessageType, d: Message, seen: set<nat>, j: nat, f: Field, wire: WireType, b: Bytes,
                   accepted: bool, s: Slot, rest: Bytes)
    requires Known(r, d, j, f)
    requires ReadSlot(r.fields[j], WireCode(wire), d[r.fields[j].at], b) == if accepted then Some((s, rest)) else None
    requires accepted && f.htype.OneOf? ==> s.Union? && s.which == f.tag
    ensures Stores(r, d, j, seen, TagBytes(wire, f.tag) + b, accepted, s, rest)
  {
    KeyStep(r, d, seen, wire, f.tag, b);
    if accepted {
      StoreTyped(r, d, j, s);
    }
  }

  lemma SlotPacked(g: Field, items: seq<Value>, rest: Bytes)
    requires g.htype.Repeated? && Packable(g.ltype) && |items| <= g.htype.arraySize
    requires AllTyped(g.ltype, items) && AllEncodable(g.ltype, items) && |PackedBytes(g.ltype, items)| < WORD
    ensures ReadSlot(g, WireCode(StringWire), Items([]), EncodeString(PackedBytes(g.ltype, items)) + rest)
         == Some((Items(items), rest))
  {
    StringBack(PackedBytes(g.ltype, items), rest);
    PackedBack(g.ltype, g.htype.arraySize, [], items);
    assert [] + items == items;
  }

  lemma KnownPacked(r: MessageType, d: Message, seen: set<nat>, j: nat, f: Field, items: seq<Value>, rest: Bytes)
    requires Known(r, d, j, f) && f.htype.Repeated? && Packable(f.ltype)
    requires d[r.fields[j].at] == Items([])
    requires AllTyped(f.ltype, items) && AllEncodable(f.ltype, items) && |items| <= f.htype.arraySize
    requires |PackedBytes(f.ltype, items)| < WORD
    ensures Stores(r, d, j, seen, TagBytes(StringWire, f.tag) + EncodeString(PackedBytes(f.ltype, items)) + rest,
                   true, Items(items), rest)
  {
    var data := PackedBytes(f.ltype, items);
    Associative(TagBytes(StringWire, f.tag), EncodeString(data), rest);
    assert CompatType(r.fields[j].ltype, f.ltype);
    SlotPacked(r.fields[j], items, rest);
    SlotStored(r, d, seen, j, f, StringWire, EncodeString(data) + rest, true, Items(items), rest);
  }

  /** What of an array that is not packed has arrived after one more value. */
  ghost function Arrived(g: Field, f: Field, cur: Slot, v: Value): Slot
    requires Pair(g, f) && HasType(f.ltype, v)
    requires f.htype.Repeated? ==> cur.Items?
  {
    match f.htype
    case Repeated(_) => Items(cur.items + [ReceivedValue(g.ltype, f.ltype, v)])
    case OneOf => Union(f.tag, ReceivedValue(g.ltype, f.ltype, v))
    case _ => Single(f.htype.Optional?, ReceivedValue(g.ltype, f.ltype, v))
  }

  /** May one more value of the field be read into `cur`? */
  predicate Ready(g: Field, cur: Slot) {
    match g.htype
    case Repeated(n) => !Packable(g.ltype) && cur.Items? && |cur.items| < n
    case OneOf => true
    case _ => cur.Single? && !cur.has && (g.ltype.Submessage? ==> cur.value.Record?)
  }

  ghost predicate Untouched(g: Field, cur: Slot) {
    g.htype.Repeated? || g.htype.OneOf? || cur == DefaultSlot(g)
  }

  lemma {:induction false} ValueBack(r: LType, w: LType, into: Value, v: Value, rest: Bytes)
    requires CompatType(r, w) && TypeOk(r) && TypeOk(w) && HasType(r, into) && HasType(w, v)
    requires r.Submessage? ==> into == ZeroValue(r)
    requires Encodable(w, v) && |ValueBytes(w, v)| < WORD
    ensures ReadValue(r, into, ValueBytes(w, v) + rest)
         == if Accepts(r, w, v) then Some((ReceivedValue(r, w, v), rest)) else None
    decreases w, 0
  {
    if w.Submessage? {
      var b := MessageBytes(w.sub, v.slots);
      StringBack(b, rest);
      MessageBack(r.sub, w.sub, v.slots);
    } else {
      ScalarBack(w, into, v, rest);
    }
  }

  lemma {:induction false} KnownValue(r: MessageType, d: Message, seen: set<nat>, j: nat, f: Field, v: Value, rest: Bytes)
    requires Known(r, d, j, f)
    requires Ready(r.fields[j], d[r.fields[j].at]) && Untouched(r.fields[j], d[r.fields[j].at])
    requires HasType(f.ltype, v) && Encodable(f.ltype, v) && |ValueBytes(f.ltype, v)| < WORD
    ensures Stores(r, d, j, seen, TagBytes(WireOf(f.ltype), f.tag) + ValueBytes(f.ltype, v) + rest,
                   Accepts(r.fields[j].ltype, f.ltype, v), Arrived(r.fields[j], f, d[r.fields[j].at], v), rest)
    decreases f.ltype, 1
  {
    var g := r.fields[j];
    var wire, data := WireOf(f.ltype), ValueBytes(f.ltype, v) + rest;
    Associative(TagBytes(wire, f.tag), ValueBytes(f.ltype, v), rest);
    ZeroTyped(g.ltype);
    var into := if g.htype.Repeated? || g.htype.OneOf? then ZeroValue(g.ltype) else d[g.at].value;
    ValueBack(g.ltype, f.ltype, into, v, rest);
    SlotStored(r, d, seen, j, f, wire, data, Accepts(g.ltype, f.ltype, v), Arrived(g, f, d[g.at], v), rest);
  }

  lemma {:induction false} MessageBack(r: MessageType, w: MessageType, m: Message)
    requires Versions(r, w, m) && MessageEncodable(w, m) && |MessageBytes(w, m)| < WORD
    ensures WellTyped(r, Defaults(r))
    ensures DecodeFields(r, Defaults(r), MessageBytes(w, m))
         == if AcceptsFields(r, w, m, 0) then Some((Received(r, w, m), [])) else None
    decreases w, |w.fields| + 2
  {
    DefaultsTyped(r);
    assert AllUntouched(r, w, 0, Defaults(r)) by {
      forall j | 0 <= j < |r.fields|
        ensures r.fields[j].at in Defaults(r) && Defaults(r)[r.fields[j].at] == DefaultSlot(r.fields[j])
      {
        DefaultsAt(r, |r.fields|, j);
      }
    }
    FieldsBack(r, w, m, 0, Defaults(r), {});
    RequiredSeen(r, w, m);
  }

  /** The fields the writer has yet to send still have their defaults. */
  ghost predicate AllUntouched(r: MessageType, w: MessageType, i: nat, d: Message)
    requires i <= |w.fields|
  {
    forall k, j :: i <= k < |w.fields| && 0 <= j < |r.fields| && r.fields[j].tag == w.fields[k].tag ==>
      r.fields[j].at in d && (r.fields[j].htype.OneOf? || d[r.fields[j].at] == DefaultSlot(r.fields[j]))
  }

  /** The reader's struct after field `i` of the writer. */
  ghost function Next(r: MessageType, w: MessageType, m: Message, i: nat, d: Message): Message
    requires Versions(r, w, m) && i < |w.fields|
  {
    PairOf(r, w, m, i);
    var f := w.fields[i];
    var j := IndexOf(r, f.tag, 0);
    if j.None? || !Present(f, m[f.at]) then d
    else d[r.fields[j.value].at := ReceivedSlot(r.fields[j.value], f, m[f.at])]
  }

  ghost function NextSeen(r: MessageType, w: MessageType, m: Message, i: nat, seen: set<nat>): set<nat>
    requires Versions(r, w, m) && i < |w.fields|
  {
    PairOf(r, w, m, i);
    var f := w.fields[i];
    var j := IndexOf(r, f.tag, 0);
    if j.None? || !Present(f, m[f.at]) then seen else Mark(r, j.value, seen)
  }

  ghost function SeenFrom(r: MessageType, w: MessageType, m: Message, i: nat, seen: set<nat>): set<nat>
    requires Versions(r, w, m) && i <= |w.fields|
    decreases |w.fields| - i
  {
    if i == |w.fields| then seen else SeenFrom(r, w, m, i + 1, NextSeen(r, w, m, i, seen))
  }

  lemma NextUntouched(r: MessageType, w: MessageType, m: Message, i: nat, d: Message)
    requires Versions(r, w, m) && i < |w.fields| && AllUntouched(r, w, i, d)
    ensures AllUntouched(r, w, i + 1, Next(r, w, m, i, d))
  {
    var n := IndexOf(r, w.fields[i].tag, 0);
    forall k, j | i + 1 <= k < |w.fields| && 0 <= j < |r.fields| && r.fields[j].tag == w.fields[k].tag
      ensures r.fields[j].at in Next(r, w, m, i, d)
      ensures r.fields[j].htype.OneOf? || Next(r, w, m, i, d)[r.fields[j].at] == DefaultSlot(r.fields[j])
    {
      assert w.fields[i].tag != w.fields[k].tag;
      if n.Some? && j < n.value {
        SharedOffsets(r, j, n.value);
      } else if n.Some? && n.value < j {
        SharedOffsets(r, n.value, j);
      }
    }
  }

  lemma {:induction false} KnownTagged(r: MessageType, d: Message, seen: set<nat>, j: nat, f: Field,
                                       items: seq<Value>, rest: Bytes)
    requires Known(r, d, j, f) && f.htype.Repeated? && !Packable(f.ltype)
    requires d[r.fields[j].at].Items? && |d[r.fields[j].at].items| + |items| <= f.htype.arraySize
    requires AllTyped(f.ltype, items) && AllEncodable(f.ltype, items) && |TaggedBytes(f.ltype, f.tag, items)| < WORD
    ensures items != [] ==>
      Stores(r, d, j, seen, TaggedBytes(f.ltype, f.tag, items) + rest, AcceptsItems(r.fields[j].ltype, f.ltype, items),
             Items(d[r.fields[j].at].items + ReceivedItems(r.fields[j].ltype, f.ltype, items)), rest)
    decreases f.ltype, |items| + 2
  {
    if items != [] {
      var g := r.fields[j];
      var prev := d[g.at].items;
      var first, more := TagBytes(WireOf(f.ltype), f.tag) + ValueBytes(f.ltype, items[0]), TaggedBytes(f.ltype, f.tag, items[1..]);
      Associative(first, more, rest);
      assert TaggedBytes(f.ltype, f.tag, items) + rest == first + (more + rest);
      assert CompatType(g.ltype, f.ltype) && !Packable(g.ltype);
      assert AcceptsItems(g.ltype, f.ltype, items)
        <==> Accepts(g.ltype, f.ltype, items[0]) && AcceptsItems(g.ltype, f.ltype, items[1..]);
      KnownValue(r, d, seen, j, f, items[0], more + rest);
      if Accepts(g.ltype, f.ltype, items[0]) {
        var v := ReceivedValue(g.ltype, f.ltype, items[0]);
        ItemsArrive(g.ltype, f.ltype, prev, items);
        if items[1..] == [] {
          assert more + rest == rest;
        } else {
          KnownTagged(r, d[g.at := Items(prev + [v])], seen, j, f, items[1..], rest);
          StoresTwice(r, d, j, seen, first + (more + rest), Items(prev + [v]), more + rest,
                      AcceptsItems(g.ltype, f.ltype, items[1..]),
                      Items(prev + [v] + ReceivedItems(g.ltype, f.ltype, items[1..])), rest);
        }
      }
    }
  }

  lemma ItemsArrive(r: LType, w: LType, prev: seq<Value>, items: seq<Value>)
    requires CompatType(r, w) && TypeOk(r) && TypeOk(w) && AllTyped(w, items) && items != []
    ensures var v := ReceivedValue(r, w, items[0]);
      && prev + [v] + ReceivedItems(r, w, items[1..]) == prev + ReceivedItems(r, w, items)
      && (items[1..] == [] ==> prev + [v] == prev + ReceivedItems(r, w, items))
  {
    Regroup(prev, [ReceivedValue(r, w, items[0])], ReceivedItems(r, w, items[1..]));
  }

  lemma Regroup(a: seq<Value>, b: seq<Value>, c: seq<Value>)
    ensures a + b + c == a + (b + c)
    ensures c == [] ==> a + b == a + (b + c)
    ensures a == [] ==> a + b == b
  {
  }

  /** An item stored behind those already there. */
  lemma StoresTwice(r: MessageType, d: Message, j: nat, seen: set<nat>, b: Bytes, s1: Slot, b1: Bytes,
                    accepted: bool, s2: Slot, rest: Bytes)
    requires SchemaOk(r) && WellTyped(r, d) && j < |r.fields| && !r.fields[j].htype.Required?
    requires Stores(r, d, j, seen, b, true, s1, b1)
    requires Stores(r, d[r.fields[j].at := s1], j, seen, b1, accepted, s2, rest)
    ensures Stores(r, d, j, seen, b, accepted, s2, rest)
  {
    assert d[r.fields[j].at := s1][r.fields[j].at := s2] == d[r.fields[j].at := s2];
  }

  /** Items of packable types arrive as they are. */
  lemma {:induction false} PackableArrive(t: LType, items: seq<Value>)
    requires Packable(t) && AllTyped(t, items)
    ensures TypeOk(t) && AcceptsItems(t, t, items) && ReceivedItems(t, t, items) == items
    decreases |items|
  {
    if items != [] {
      PackableArrive(t, items[1..]);
      assert items == [items[0]] + items[1..];
    }
  }

  lemma {:induction false} KnownArray(r: MessageType, d: Message, seen: set<nat>, j: nat, f: Field,
                                      items: seq<Value>, rest: Bytes)
    requires Known(r, d, j, f) && f.htype.Repeated? && d[r.fields[j].at] == Items([])
    requires AllTyped(f.ltype, items) && items != [] && AllEncodable(f.ltype, items)
    requires |items| <= f.htype.arraySize && |ArrayBytes(f.ltype, f.tag, items)| < WORD
    ensures Stores(r, d, j, seen, ArrayBytes(f.ltype, f.tag, items) + rest,
                   AcceptsItems(r.fields[j].ltype, f.ltype, items),
                   Items(ReceivedItems(r.fields[j].ltype, f.ltype, items)), rest)
    decreases f, 0
  {
    assert CompatType(r.fields[j].ltype, f.ltype);
    if Packable(f.ltype) {
      assert r.fields[j].ltype == f.ltype;
      PackableArrive(f.ltype, items);
      KnownPacked(r, d, seen, j, f, items, rest);
    } else {
      KnownTagged(r, d, seen, j, f, items, rest);
      Regroup([], ReceivedItems(r.fields[j].ltype, f.ltype, items), []);
    }
  }

  /** A present field that is not an array is its tag and its value. */
  lemma OneValue(g: Field, f: Field, s: Slot, cur: Slot, v: Value)
    requires Pair(g, f) && !f.htype.Repeated? && SlotTyped(f, s) && Present(f, s)
    requires v == if f.htype.OneOf? then s.content else s.value
    ensures FieldBytes(f, s) == TagBytes(WireOf(f.ltype), f.tag) + ValueBytes(f.ltype, v)
    ensures AcceptsSlot(g, f, s) <==> Accepts(g.ltype, f.ltype, v)
    ensures ReceivedSlot(g, f, s) == Arrived(g, f, cur, v)
  {
  }

  /** One present field the reader knows. */
  lemma {:induction false} KnownField(r: MessageType, d: Message, seen: set<nat>, j: nat, f: Field, s: Slot, rest: Bytes)
    requires Known(r, d, j, f) && SlotTyped(f, s) && Present(f, s) && FieldEncodable(f, s)
    requires f.htype.OneOf? || d[r.fields[j].at] == DefaultSlot(r.fields[j])
    requires |FieldBytes(f, s)| < WORD
    ensures Stores(r, d, j, seen, FieldBytes(f, s) + rest, AcceptsSlot(r.fields[j], f, s),
                   ReceivedSlot(r.fields[j], f, s), rest)
    decreases f, 1
  {
    var g := r.fields[j];
    match f.htype
    case Repeated(_) =>
      KnownArray(r, d, seen, j, f, s.items, rest);
    case OneOf =>
      OneValue(g, f, s, d[g.at], s.content);
      KnownValue(r, d, seen, j, f, s.content, rest);
    case _ =>
      OneValue(g, f, s, d[g.at], s.value);
      KnownValue(r, d, seen, j, f, s.value, rest);
  }

  lemma UnknownField(r: MessageType, d: Message, seen: set<nat>, f: Field, s: Slot, rest: Bytes)
    requires SchemaOk(r) && WellTyped(r, d) && 0 < f.tag < 0x2000_0000 && IndexOf(r, f.tag, 0).None?
    requires SlotTyped(f, s) && Present(f, s) && |FieldBytes(f, s)| < WORD
    ensures ReadFields(r, d, seen, FieldBytes(f, s) + rest) == ReadFields(r, d, seen, rest)
  {
    match f.htype
    case Repeated(_) =>
      if Packable(f.ltype) {
        UnknownString(r, d, seen, f.tag, PackedBytes(f.ltype, s.items), rest);
      } else {
        UnknownTagged(r, d, seen, f.tag, f.ltype, s.items, rest);
      }
    case OneOf => UnknownValue(r, d, seen, f.tag, f.ltype, s.content, rest);
    case _ => UnknownValue(r, d, seen, f.tag, f.ltype, s.value, rest);
  }

  /** The fields of the writer from number `i` on, one after the other. */
  lemma {:induction false} FieldsBack(r: MessageType, w: MessageType, m: Message, i: nat, d: Message, seen: set<nat>)
    requires Versions(r, w, m) && MessageEncodable(w, m) && i <= |w.fields|
    requires WellTyped(r, d) && AllUntouched(r, w, i, d)
    requires |FieldsBytes(w, m, i)| < WORD
    ensures ReadFields(r, d, seen, FieldsBytes(w, m, i))
         == if AcceptsFields(r, w, m, i)
            then Some(Decoded(ReceivedFrom(r, w, m, i, d), SeenFrom(r, w, m, i, seen), [])) else None
    decreases w, |w.fields| - i
  {
    if i < |w.fields| {
      var f := w.fields[i];
      var s := m[f.at];
      var rest := FieldsBytes(w, m, i + 1);
      PairOf(r, w, m, i);
      var j := IndexOf(r, f.tag, 0);
      NextUntouched(r, w, m, i, d);
      if !Present(f, s) {
        assert FieldBytes(f, s) + rest == rest;
        FieldsBack(r, w, m, i + 1, d, seen);
      } else if j.None? {
        UnknownField(r, d, seen, f, s, rest);
        FieldsBack(r, w, m, i + 1, d, seen);
      } else {
        KnownField(r, d, seen, j.value, f, s, rest);
        if AcceptsSlot(r.fields[j.value], f, s) {
          FieldsBack(r, w, m, i + 1, Next(r, w, m, i, d), Mark(r, j.value, seen));
        }
      }
    }
  }

  /** A required field of the reader is known and required to the writer too, so it was sent. */
  lemma RequiredSeen(r: MessageType, w: MessageType, m: Message)
    requires Versions(r, w, m)
    ensures AllSeen(r, SeenFrom(r, w, m, 0, {}))
  {
    forall k | 0 <= k < Counted(r)
      ensures k in SeenFrom(r, w, m, 0, {})
    {
      var j := WithRequiredIndex(r, |r.fields|, k);
      assert HasTag(w, r.fields[j].tag);
      var i :| 0 <= i < |w.fields| && w.fields[i].tag == r.fields[j].tag;
      SentIsSeen(r, w, m, 0, i, j, {});
    }
  }

  lemma {:induction false} WithRequiredIndex(r: MessageType, n: nat, k: nat) returns (j: nat)
    requires n <= |r.fields| && k < RequiredBefore(r, n)
    ensures j < n && r.fields[j].htype.Required? && RequiredBefore(r, j) == k
  {
    if RequiredBefore(r, n - 1) == k {
      j := n - 1;
    } else {
      j := WithRequiredIndex(r, n - 1, k);
    }
  }

  lemma {:induction false} SeenGrows(r: MessageType, w: MessageType, m: Message, i: nat, seen: set<nat>)
    requires Versions(r, w, m) && i <= |w.fields|
    ensures seen <= SeenFrom(r, w, m, i, seen)
    decreases |w.fields| - i
  {
    if i < |w.fields| {
      SeenGrows(r, w, m, i + 1, NextSeen(r, w, m, i, seen));
    }
  }

  lemma {:induction false} SentIsSeen(r: MessageType, w: MessageType, m: Message, n: nat, i: nat, j: nat, seen: set<nat>)
    requires Versions(r, w, m) && n <= i < |w.fields| && j < |r.fields|
    requires r.fields[j].htype.Required? && w.fields[i].tag == r.fields[j].tag
    requires RequiredBefore(r, j) < MAX_REQUIRED_FIELDS
    ensures RequiredBefore(r, j) in SeenFrom(r, w, m, n, seen)
    decreases i - n
  {
    var after := NextSeen(r, w, m, n, seen);
    if n < i {
      SentIsSeen(r, w, m, n + 1, i, j, after);
    } else {
      assert CompatField(r.fields[j], w.fields[i]);
      SeenGrows(r, w, m, n + 1, after);
    }
  }
}
