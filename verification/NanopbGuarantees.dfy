/**
  The promises of the codec: a message comes back field by field, from another version of its type too,
  and what has been decoded from any bytes can be encoded again.
*/
module NanopbGuarantees {
  import opened Base
  import opened Coding
  import opened NanopbFormat
  import opened NanopbFields
  import opened NanopbReads
  import opened NanopbRoundTrip

  // ---------------------------------------------------------------- field by field

  /** Does the writer send a value for field `j` of the reader with its field `k`? */
  ghost predicate Sends(w: MessageType, m: Message, k: nat, tag: nat)
    requires WellTyped(w, m) && k < |w.fields|
  {
    w.fields[k].tag == tag && Present(w.fields[k], m[w.fields[k].at])
  }

  /** Nothing from field `i` on is stored at the offset of the reader's field `j`. */
  ghost predicate LeftAlone(r: MessageType, w: MessageType, m: Message, i: nat, j: nat)
    requires WellTyped(w, m) && j < |r.fields|
  {
    forall k, n :: i <= k < |w.fields| && 0 <= n < |r.fields| && Sends(w, m, k, r.fields[n].tag) ==>
      r.fields[n].at != r.fields[j].at
  }

  lemma {:induction false} StaysPut(r: MessageType, w: MessageType, m: Message, i: nat, d: Message, j: nat)
    requires Versions(r, w, m) && i <= |w.fields| && j < |r.fields| && r.fields[j].at in d
    requires LeftAlone(r, w, m, i, j)
    ensures r.fields[j].at in ReceivedFrom(r, w, m, i, d)
    ensures ReceivedFrom(r, w, m, i, d)[r.fields[j].at] == d[r.fields[j].at]
    decreases |w.fields| - i
  {
    if i < |w.fields| {
      var n := IndexOf(r, w.fields[i].tag, 0);
      if n.Some? && Present(w.fields[i], m[w.fields[i].at]) {
        assert Sends(w, m, i, r.fields[n.value].tag);
      }
      StaysPut(r, w, m, i + 1, Next(r, w, m, i, d), j);
    }
  }

  lemma {:induction false} IndexOfTag(mt: MessageType, j: nat, i: nat)
    requires Numbered(mt) && i <= j < |mt.fields|
    ensures IndexOf(mt, mt.fields[j].tag, i) == Some(j)
    decreases j - i
  {
    if i < j {
      IndexOfTag(mt, j, i + 1);
    }
  }

  /** Fields that share storage at the reader share it at the writer. */
  lemma UnionTogether(r: MessageType, w: MessageType, j: nat, n: nat, i: nat, k: nat)
    requires SchemaOk(r) && SchemaOk(w) && Compatible(r, w)
    requires j < n < |r.fields| && r.fields[j].at == r.fields[n].at
    requires i < |w.fields| && w.fields[i].tag == r.fields[j].tag
    requires k < |w.fields| && w.fields[k].tag == r.fields[n].tag
    ensures w.fields[i].at == w.fields[k].at && w.fields[i].htype.OneOf? && w.fields[k].htype.OneOf?
  {
    SharedOffsets(r, j, n);
    assert SameUnion(w, r.fields[j].tag, r.fields[n].tag);
    assert CompatField(r.fields[j], w.fields[i]) && CompatField(r.fields[n], w.fields[k]);
  }

  /** Once field `k` has been sent, nothing after it is stored over it: the writer's unions hold one member. */
  lemma SentOnce(r: MessageType, w: MessageType, m: Message, k: nat, j: nat)
    requires Versions(r, w, m) && j < |r.fields| && k < |w.fields| && Sends(w, m, k, r.fields[j].tag)
    ensures LeftAlone(r, w, m, k + 1, j)
  {
    forall k', n | k + 1 <= k' < |w.fields| && 0 <= n < |r.fields| && Sends(w, m, k', r.fields[n].tag)
      ensures r.fields[n].at != r.fields[j].at
    {
      assert w.fields[k].tag != w.fields[k'].tag;
      if r.fields[n].at == r.fields[j].at {
        UnionTogether(r, w, if n < j then n else j, if n < j then j else n, if n < j then k' else k, if n < j then k else k');
      }
    }
  }

  lemma {:induction false} SentArrives(r: MessageType, w: MessageType, m: Message, i: nat, d: Message, j: nat, k: nat)
    requires Versions(r, w, m) && i <= k < |w.fields| && j < |r.fields| && Sends(w, m, k, r.fields[j].tag)
    ensures Pair(r.fields[j], w.fields[k])
    ensures r.fields[j].at in ReceivedFrom(r, w, m, i, d)
    ensures ReceivedFrom(r, w, m, i, d)[r.fields[j].at]
         == ReceivedSlot(r.fields[j], w.fields[k], m[w.fields[k].at])
    decreases k - i
  {
    if i < k {
      SentArrives(r, w, m, i + 1, Next(r, w, m, i, d), j, k);
    } else {
      IndexOfTag(r, j, 0);
      PairOf(r, w, m, k);
      SentOnce(r, w, m, k, j);
      StaysPut(r, w, m, k + 1, Next(r, w, m, k, d), j);
    }
  }

  /** A slot in which field `g` has nothing. */
  ghost predicate Empty(g: Field, s: Slot) {
    if g.htype.OneOf? then s.Union? && s.which != g.tag else s == DefaultSlot(g)
  }

  lemma {:induction false} NothingArrives(r: MessageType, w: MessageType, m: Message, i: nat, d: Message, j: nat)
    requires Versions(r, w, m) && i <= |w.fields| && j < |r.fields|
    requires forall k :: i <= k < |w.fields| ==> !Sends(w, m, k, r.fields[j].tag)
    requires r.fields[j].at in d && Empty(r.fields[j], d[r.fields[j].at])
    ensures r.fields[j].at in ReceivedFrom(r, w, m, i, d)
    ensures Empty(r.fields[j], ReceivedFrom(r, w, m, i, d)[r.fields[j].at])
    decreases |w.fields| - i
  {
    if i < |w.fields| {
      var n := IndexOf(r, w.fields[i].tag, 0);
      assert !Sends(w, m, i, r.fields[j].tag);
      PairOf(r, w, m, i);
      if n.Some? && n.value != j && r.fields[n.value].at == r.fields[j].at {
        SharedOffsets(r, if n.value < j then n.value else j, if n.value < j then j else n.value);
        assert r.fields[n.value].tag != r.fields[j].tag;
      }
      NothingArrives(r, w, m, i + 1, Next(r, w, m, i, d), j);
    }
  }

  /**
    A reader with any compatible version of the type: it gets every value that was sent for one of its
    fields, and every other field is empty.
  */
  ghost predicate Arrives(r: MessageType, w: MessageType, m: Message, d: Message)
    requires Versions(r, w, m)
  {
    forall j :: 0 <= j < |r.fields| ==> ArrivesAt(r, w, m, d, j)
  }

  ghost predicate ArrivesAt(r: MessageType, w: MessageType, m: Message, d: Message, j: nat)
    requires Versions(r, w, m) && j < |r.fields|
  {
    var g := r.fields[j];
    && g.at in d
    && (forall k :: 0 <= k < |w.fields| && Sends(w, m, k, g.tag) ==>
          Pair(g, w.fields[k]) && d[g.at] == ReceivedSlot(g, w.fields[k], m[w.fields[k].at]))
    && ((forall k :: 0 <= k < |w.fields| ==> !Sends(w, m, k, g.tag)) ==> Empty(g, d[g.at]))
  }

  lemma ReceivedArrives(r: MessageType, w: MessageType, m: Message)
    requires Versions(r, w, m)
    ensures Arrives(r, w, m, Received(r, w, m))
  {
    var d := Received(r, w, m);
    forall j | 0 <= j < |r.fields|
      ensures ArrivesAt(r, w, m, d, j)
    {
      var g := r.fields[j];
      DefaultsAt(r, |r.fields|, j);
      if k :| 0 <= k < |w.fields| && Sends(w, m, k, g.tag) {
        forall k | 0 <= k < |w.fields| && Sends(w, m, k, g.tag)
          ensures g.at in d && Pair(g, w.fields[k]) && d[g.at] == ReceivedSlot(g, w.fields[k], m[w.fields[k].at])
        {
          SentArrives(r, w, m, 0, Defaults(r), j, k);
        }
      } else {
        assert g.tag > 0;
        NothingArrives(r, w, m, 0, Defaults(r), j);
      }
    }
  }

  /**
    Decoding with version `r` of a type what was encoded with version `w` leaves nothing unread, and
    succeeds exactly when the reader has room for the terminators of the strings it knows.
  */
  lemma VersionsRoundTrip(r: MessageType, w: MessageType, m: Message)
    requires Versions(r, w, m) && MessageEncodable(w, m) && |MessageBytes(w, m)| < WORD
    ensures var d := Decode(r, MessageBytes(w, m));
      if AcceptsFields(r, w, m, 0) then d.Some? && d.value.1 == [] && Arrives(r, w, m, d.value.0) else d == None
  {
    MessageBack(r, w, m);
    ReceivedArrives(r, w, m);
  }

  // ---------------------------------------------------------------- the same type on both sides

  lemma {:induction false} TypeItself(t: LType)
    requires TypeOk(t)
    ensures CompatType(t, t)
    decreases t
  {
    if t.Submessage? {
      SameVersion(t.sub);
    }
  }

  lemma {:induction false} SameVersion(mt: MessageType)
    requires SchemaOk(mt)
    ensures Compatible(mt, mt)
    decreases mt
  {
    forall i, j | 0 <= i < |mt.fields| && 0 <= j < |mt.fields|
      ensures CompatField(mt.fields[j], mt.fields[i])
    {
      if i == j {
        assert FieldOk(mt.fields[i]);
        TypeItself(mt.fields[i].ltype);
      }
    }
    forall j, k | 0 <= j < k < |mt.fields| && mt.fields[j].at == mt.fields[k].at
      ensures SameUnion(mt, mt.fields[j].tag, mt.fields[k].tag)
    {
      forall i, n | 0 <= i < |mt.fields| && 0 <= n < |mt.fields|
                    && mt.fields[i].tag == mt.fields[j].tag && mt.fields[n].tag == mt.fields[k].tag
        ensures mt.fields[i].at == mt.fields[n].at
      {
        TagTellsField(mt, i, j);
        TagTellsField(mt, n, k);
      }
    }
  }

  lemma TagTellsField(mt: MessageType, i: nat, j: nat)
    requires Numbered(mt) && i < |mt.fields| && j < |mt.fields| && mt.fields[i].tag == mt.fields[j].tag
    ensures i == j
  {
  }

  /** Every string that is present, at every depth, leaves room for its terminator. */
  ghost predicate Terminated(t: LType, v: Value)
    requires HasType(t, v)
    decreases t, 0
  {
    match t
    case CString(room) => |Text(v.bytes, room)| < room
    case Submessage(sub, _) => MessageTerminated(sub, v.slots)
    case _ => true
  }

  ghost predicate AllTerminated(t: LType, items: seq<Value>)
    requires AllTyped(t, items)
    decreases t, 1
  {
    forall k :: 0 <= k < |items| ==> Terminated(t, items[k])
  }

  ghost predicate FieldTerminated(f: Field, s: Slot)
    requires SlotTyped(f, s)
    decreases f
  {
    Present(f, s) ==>
      match f.htype
      case Repeated(_) => AllTerminated(f.ltype, s.items)
      case OneOf => Terminated(f.ltype, s.content)
      case _ => Terminated(f.ltype, s.value)
  }

  ghost predicate MessageTerminated(mt: MessageType, m: Message)
    requires WellTyped(mt, m)
    decreases mt
  {
    forall i :: 0 <= i < |mt.fields| ==> FieldTerminated(mt.fields[i], m[mt.fields[i].at])
  }

  lemma {:induction false} AcceptsTerminated(t: LType, v: Value)
    requires TypeOk(t) && HasType(t, v)
    ensures CompatType(t, t) && (Accepts(t, t, v) <==> Terminated(t, v))
    decreases t, 0
  {
    TypeItself(t);
    if t.Submessage? {
      AcceptsTerminatedFields(t.sub, v.slots, 0);
    }
  }

  lemma {:induction false} AcceptsTerminatedItems(t: LType, items: seq<Value>)
    requires TypeOk(t) && AllTyped(t, items)
    ensures CompatType(t, t) && (AcceptsItems(t, t, items) <==> AllTerminated(t, items))
    decreases t, |items| + 1
  {
    TypeItself(t);
    if items != [] {
      AcceptsTerminated(t, items[0]);
      AcceptsTerminatedItems(t, items[1..]);
      assert AllTerminated(t, items) <==> Terminated(t, items[0]) && AllTerminated(t, items[1..]);
    }
  }

  lemma {:induction false} AcceptsTerminatedFields(mt: MessageType, m: Message, i: nat)
    requires SchemaOk(mt) && WellTyped(mt, m) && i <= |mt.fields|
    ensures Compatible(mt, mt)
    ensures AcceptsFields(mt, mt, m, i)
       <==> forall k :: i <= k < |mt.fields| ==> FieldTerminated(mt.fields[k], m[mt.fields[k].at])
    decreases mt, |mt.fields| - i
  {
    SameVersion(mt);
    if i < |mt.fields| {
      var f := mt.fields[i];
      var s := m[f.at];
      PairOf(mt, mt, m, i);
      IndexOfTag(mt, i, 0);
      if Present(f, s) {
        match f.htype
        case Repeated(_) => AcceptsTerminatedItems(f.ltype, s.items);
        case OneOf => AcceptsTerminated(f.ltype, s.content);
        case _ => AcceptsTerminated(f.ltype, s.value);
      }
      AcceptsTerminatedFields(mt, m, i + 1);
    }
  }

  // ---------------------------------------------------------------- what "restored" means

  /** `x` is what `v` was: a string the same text, a submessage the same fields, all else the same value. */
  ghost predicate RestoredValue(t: LType, v: Value, x: Value)
    requires HasType(t, v) && HasType(t, x)
    decreases t, 0
  {
    match t
    case CString(room) => x == Octets(Text(v.bytes, room))
    case Submessage(sub, _) => Restored(sub, v.slots, x.slots)
    case _ => x == v
  }

  ghost predicate AllRestored(t: LType, items: seq<Value>, xs: seq<Value>)
    requires AllTyped(t, items) && AllTyped(t, xs) && |xs| == |items|
    decreases t, 1
  {
    forall k :: 0 <= k < |items| ==> RestoredValue(t, items[k], xs[k])
  }

  /** A present field holds the same again, an absent one nothing. */
  ghost predicate RestoredField(f: Field, s: Slot, x: Slot)
    requires SlotTyped(f, s) && SlotTyped(f, x)
    decreases f
  {
    if !Present(f, s) then Empty(f, x)
    else
      match f.htype
      case Repeated(_) => |x.items| == |s.items| && AllRestored(f.ltype, s.items, x.items)
      case OneOf => x.which == f.tag && RestoredValue(f.ltype, s.content, x.content)
      case Optional => x.has && RestoredValue(f.ltype, s.value, x.value)
      case Required => RestoredValue(f.ltype, s.value, x.value)
      case Singular => RestoredValue(f.ltype, s.value, x.value)
  }

  ghost predicate Restored(mt: MessageType, m: Message, d: Message)
    requires WellTyped(mt, m) && WellTyped(mt, d)
    decreases mt
  {
    forall i :: 0 <= i < |mt.fields| ==> RestoredField(mt.fields[i], m[mt.fields[i].at], d[mt.fields[i].at])
  }

  lemma {:induction false} ValueRestored(t: LType, v: Value)
    requires TypeOk(t) && HasType(t, v)
    ensures CompatType(t, t) && HasType(t, ReceivedValue(t, t, v)) && RestoredValue(t, v, ReceivedValue(t, t, v))
    decreases t, 0
  {
    TypeItself(t);
    if t.Submessage? {
      MessageRestored(t.sub, v.slots);
    }
  }

  lemma {:induction false} ItemsRestored(t: LType, items: seq<Value>)
    requires TypeOk(t) && AllTyped(t, items)
    ensures CompatType(t, t) && AllTyped(t, ReceivedItems(t, t, items))
    ensures AllRestored(t, items, ReceivedItems(t, t, items))
    decreases t, |items| + 1
  {
    TypeItself(t);
    if items != [] {
      ValueRestored(t, items[0]);
      ItemsRestored(t, items[1..]);
      var xs := ReceivedItems(t, t, items);
      forall k | 0 <= k < |items|
        ensures HasType(t, xs[k]) && RestoredValue(t, items[k], xs[k])
      {
        if k > 0 {
          assert items[k] == items[1..][k - 1] && xs[k] == xs[1..][k - 1];
        }
      }
    }
  }

  lemma {:induction false} FieldRestored(f: Field, s: Slot)
    requires FieldOk(f) && SlotTyped(f, s) && Present(f, s)
    ensures Pair(f, f) && SlotTyped(f, ReceivedSlot(f, f, s)) && RestoredField(f, s, ReceivedSlot(f, f, s))
    decreases f
  {
    TypeItself(f.ltype);
    match f.htype
    case Repeated(_) => ItemsRestored(f.ltype, s.items);
    case OneOf => ValueRestored(f.ltype, s.content);
    case _ => ValueRestored(f.ltype, s.value);
  }

  lemma {:induction false} MessageRestored(mt: MessageType, m: Message)
    requires SchemaOk(mt) && WellTyped(mt, m)
    ensures Compatible(mt, mt) && WellTyped(mt, Received(mt, mt, m)) && Restored(mt, m, Received(mt, mt, m))
    decreases mt
  {
    SameVersion(mt);
    ReceivedArrives(mt, mt, m);
    var d := Received(mt, mt, m);
    forall i | 0 <= i < |mt.fields|
      ensures mt.fields[i].at in d && SlotTyped(mt.fields[i], d[mt.fields[i].at])
      ensures RestoredField(mt.fields[i], m[mt.fields[i].at], d[mt.fields[i].at])
    {
      var f := mt.fields[i];
      assert FieldOk(f);
      assert ArrivesAt(mt, mt, m, d, i);
      if Present(f, m[f.at]) {
        assert Sends(mt, m, i, f.tag);
        FieldRestored(f, m[f.at]);
      } else {
        forall k | 0 <= k < |mt.fields|
          ensures !Sends(mt, m, k, f.tag)
        {
          if mt.fields[k].tag == f.tag {
            TagTellsField(mt, i, k);
          }
        }
        DefaultsTyped(mt);
        DefaultsAt(mt, |mt.fields|, i);
      }
    }
  }

  /**
    Decoding an encoded message succeeds exactly when every present string has room for its terminator
    (the encoder does without one), reads all of it, and restores every field.
  */
  lemma DecodeRestores(mt: MessageType, m: Message)
    requires SchemaOk(mt) && WellTyped(mt, m) && MessageEncodable(mt, m) && |MessageBytes(mt, m)| < WORD
    ensures var d := Decode(mt, MessageBytes(mt, m));
      if MessageTerminated(mt, m) then d.Some? && d.value.1 == [] && Restored(mt, m, d.value.0) else d == None
  {
    SameVersion(mt);
    MessageBack(mt, mt, m);
    AcceptsTerminatedFields(mt, m, 0);
    MessageRestored(mt, m);
  }

  /** A message of one string of two bytes, and that string full to the last byte. */
  const NAME_FIELD := Field(1, CString(2), Required, 0, None)
  const NAME_MESSAGE := MessageType([NAME_FIELD])
  const FULL_NAME: Message := map[0 := Single(true, Octets([65, 66]))]

  lemma NameSchemaOk()
    ensures SchemaOk(NAME_MESSAGE) && WellTyped(NAME_MESSAGE, FULL_NAME)
    ensures MessageEncodable(NAME_MESSAGE, FULL_NAME) && !MessageTerminated(NAME_MESSAGE, FULL_NAME)
  {
    assert NAME_MESSAGE.fields[0] == NAME_FIELD;
    assert HasType(CString(2), Octets([65, 66]));
    assert Text([66], 1) == [66] && Text([65, 66], 2) == [65, 66];
    assert !Terminated(CString(2), Octets([65, 66]));
    assert Present(NAME_FIELD, FULL_NAME[0]) && !FieldTerminated(NAME_FIELD, FULL_NAME[0]);
    NotAllTerminated(NAME_MESSAGE, FULL_NAME, 0);
  }

  lemma NotAllTerminated(mt: MessageType, m: Message, i: nat)
    requires WellTyped(mt, m) && i < |mt.fields| && !FieldTerminated(mt.fields[i], m[mt.fields[i].at])
    ensures !MessageTerminated(mt, m)
  {
  }

  lemma FullNameBytes()
    requires WellTyped(NAME_MESSAGE, FULL_NAME)
    ensures MessageBytes(NAME_MESSAGE, FULL_NAME) == [10, 2, 65, 66]
  {
    assert Text([66], 1) == [66] && Text([65, 66], 2) == [65, 66];
    assert ValueBytes(CString(2), Octets([65, 66])) == [2, 65, 66];
    assert TagBytes(StringWire, 1) == [10];
    assert FieldBytes(NAME_FIELD, FULL_NAME[0]) == [10] + [2, 65, 66] == [10, 2, 65, 66];
    OnlyField(NAME_MESSAGE, FULL_NAME);
  }

  lemma OnlyField(mt: MessageType, m: Message)
    requires WellTyped(mt, m) && |mt.fields| == 1
    ensures MessageBytes(mt, m) == FieldBytes(mt.fields[0], m[mt.fields[0].at])
  {
    assert FieldsBytes(mt, m, 1) == [];
  }

  /** The encoder takes a string that fills its buffer, but the decoder refuses what the encoder made of it. */
  lemma FullStringDoesNotComeBack()
    ensures SchemaOk(NAME_MESSAGE) && WellTyped(NAME_MESSAGE, FULL_NAME) && MessageEncodable(NAME_MESSAGE, FULL_NAME)
    ensures MessageBytes(NAME_MESSAGE, FULL_NAME) == [10, 2, 65, 66] && Decode(NAME_MESSAGE, [10, 2, 65, 66]) == None
  {
    NameSchemaOk();
    FullNameBytes();
    DecodeRestores(NAME_MESSAGE, FULL_NAME);
  }

  // ---------------------------------------------------------------- any bytes at all

  /** The storage of a value is within bounds, and a string is terminated. */
  ghost predicate Within(t: LType, v: Value)
    requires HasType(t, v)
    decreases t, 0
  {
    match t
    case Varint(n) => ValidWidth(n)
    case Uvarint(n) => ValidWidth(n)
    case Svarint(n) => ValidWidth(n)
    case BytesArray(n) => BYTES_HEADER + |v.bytes| <= n
    case CString(room) => |v.bytes| < room
    case Submessage(sub, _) => MessageWithin(sub, v.slots)
    case _ => true
  }

  ghost predicate AllWithin(t: LType, items: seq<Value>)
    requires AllTyped(t, items)
    decreases t, 1
  {
    forall k :: 0 <= k < |items| ==> Within(t, items[k])
  }

  ghost predicate FieldWithin(f: Field, s: Slot)
    requires SlotTyped(f, s)
    decreases f
  {
    match f.htype
    case Repeated(n) => |s.items| <= n && AllWithin(f.ltype, s.items)
    case OneOf => s.which == f.tag ==> Within(f.ltype, s.content)
    case _ => Within(f.ltype, s.value)
  }

  ghost predicate MessageWithin(mt: MessageType, m: Message)
    requires WellTyped(mt, m)
    decreases mt
  {
    forall i :: 0 <= i < |mt.fields| ==> FieldWithin(mt.fields[i], m[mt.fields[i].at])
  }

  /** Members are large enough for an empty value and for their defaults. */
  ghost predicate RoomyType(t: LType)
    decreases t
  {
    match t
    case Varint(n) => ValidWidth(n)
    case Uvarint(n) => ValidWidth(n)
    case Svarint(n) => ValidWidth(n)
    case BytesArray(n) => BYTES_HEADER <= n
    case CString(room) => room > 0
    case Submessage(sub, _) => Roomy(sub)
    case _ => true
  }

  ghost predicate RoomyField(f: Field)
    requires FieldOk(f)
    decreases f
  {
    RoomyType(f.ltype) && (f.initial.Some? ==> Within(f.ltype, f.initial.value))
  }

  ghost predicate Roomy(mt: MessageType)
    decreases mt
  {
    forall i :: 0 <= i < |mt.fields| ==> FieldOk(mt.fields[i]) && RoomyField(mt.fields[i])
  }

  lemma {:induction false} ZeroWithin(t: LType)
    requires TypeOk(t) && RoomyType(t)
    ensures HasType(t, ZeroValue(t)) && Within(t, ZeroValue(t))
    decreases t
  {
    ZeroTyped(t);
    if t.Submessage? {
      DefaultsWithin(t.sub);
    }
  }

  lemma {:induction false} DefaultsWithin(mt: MessageType)
    requires SchemaOk(mt) && Roomy(mt)
    ensures WellTyped(mt, Defaults(mt)) && MessageWithin(mt, Defaults(mt))
    decreases mt
  {
    DefaultsTyped(mt);
    forall i | 0 <= i < |mt.fields|
      ensures FieldWithin(mt.fields[i], Defaults(mt)[mt.fields[i].at])
    {
      DefaultsAt(mt, |mt.fields|, i);
      ZeroWithin(mt.fields[i].ltype);
    }
  }

  lemma {:induction false} ReadValueWithin(t: LType, into: Value, b: Bytes)
    requires TypeOk(t) && RoomyType(t) && HasType(t, into) && Within(t, into)
    ensures var v := ReadValue(t, into, b);
      v.Some? ==> Within(t, v.value.0)
    decreases t, 0
  {
    if t.Submessage? && ReadString(b).Some? {
      ReadFieldsWithin(t.sub, into.slots, {}, ReadString(b).value.0);
    }
  }

  lemma {:induction false} ReadPackedWithin(t: LType, arraySize: nat, items: seq<Value>, b: Bytes)
    requires Packable(t) && RoomyType(t) && AllTyped(t, items) && AllWithin(t, items) && |items| <= arraySize
    ensures var r := ReadPacked(t, arraySize, items, b);
      r.Some? ==> AllWithin(t, r.value) && |r.value| <= arraySize
    decreases |b|
  {
    if b != [] && |items| < arraySize {
      var v := ReadValue(t, ZeroValue(t), b);
      if v.Some? {
        AppendWithin(t, items, v.value.0);
        ReadPackedWithin(t, arraySize, items + [v.value.0], v.value.1);
      }
    }
  }

  lemma AppendWithin(t: LType, items: seq<Value>, v: Value)
    requires AllTyped(t, items) && HasType(t, v) && AllWithin(t, items) && Within(t, v)
    ensures AllTyped(t, items + [v]) && AllWithin(t, items + [v])
  {
    AppendTyped(t, items, v);
    forall k | 0 <= k < |items| + 1
      ensures Within(t, (items + [v])[k])
    {
      if k < |items| {
        assert (items + [v])[k] == items[k];
      }
    }
  }

  lemma {:induction false} ReadSlotWithin(f: Field, wire: nat, s: Slot, b: Bytes)
    requires FieldOk(f) && RoomyField(f) && SlotTyped(f, s) && FieldWithin(f, s)
    ensures var r := ReadSlot(f, wire, s, b);
      r.Some? ==> FieldWithin(f, r.value.0)
    decreases f
  {
    ZeroWithin(f.ltype);
    ReadValueWithin(f.ltype, ZeroValue(f.ltype), b);
    match f.htype
    case Repeated(n) =>
      var v := ReadValue(f.ltype, ZeroValue(f.ltype), b);
      if wire == WireCode(StringWire) && Packable(f.ltype) {
        if ReadString(b).Some? {
          ReadPackedWithin(f.ltype, n, s.items, ReadString(b).value.0);
        }
      } else if v.Some? {
        AppendWithin(f.ltype, s.items, v.value.0);
      }
    case OneOf =>
    case _ =>
      ReadValueWithin(f.ltype, s.value, b);
  }

  lemma {:induction false} ReadFieldWithin(mt: MessageType, m: Message, seen: set<nat>, key: nat, b: Bytes)
    requires SchemaOk(mt) && Roomy(mt) && WellTyped(mt, m) && MessageWithin(mt, m)
    ensures var r := ReadField(mt, m, seen, key, b);
      r.Some? ==> MessageWithin(mt, r.value.message)
    decreases mt, 0
  {
    var n := IndexOf(mt, key / 8, 0);
    var r := ReadField(mt, m, seen, key, b);
    if n.Some? && r.Some? {
      var f := mt.fields[n.value];
      ReadSlotWithin(f, key % 8, m[f.at], b);
      forall i | 0 <= i < |mt.fields|
        ensures FieldWithin(mt.fields[i], r.value.message[mt.fields[i].at])
      {
        if i < n.value {
          SharedOffsets(mt, i, n.value);
        } else if n.value < i {
          SharedOffsets(mt, n.value, i);
        }
      }
    }
  }

  lemma {:induction false} ReadFieldsWithin(mt: MessageType, m: Message, seen: set<nat>, b: Bytes)
    requires SchemaOk(mt) && Roomy(mt) && WellTyped(mt, m) && MessageWithin(mt, m)
    ensures var r := ReadFields(mt, m, seen, b);
      r.Some? ==> MessageWithin(mt, r.value.message)
    decreases mt, 1, |b|
  {
    if b != [] && ReadVarint32(b).Some? && ReadVarint32(b).value.0 != 0 {
      var (key, rest) := ReadVarint32(b).value;
      ReadFieldWithin(mt, m, seen, key, rest);
      var d := ReadField(mt, m, seen, key, rest);
      if d.Some? {
        ReadFieldsWithin(mt, d.value.message, d.value.seen, d.value.rest);
      }
    }
  }

  lemma {:induction false} ValueWithinEncodes(t: LType, v: Value)
    requires HasType(t, v) && Within(t, v)
    ensures Encodable(t, v) && Terminated(t, v)
    decreases t, 0
  {
    if t.Submessage? {
      WithinEncodes(t.sub, v.slots);
    }
  }

  lemma {:induction false} ItemsWithinEncode(t: LType, items: seq<Value>)
    requires AllTyped(t, items) && AllWithin(t, items)
    ensures AllEncodable(t, items) && AllTerminated(t, items)
    decreases t, 1
  {
    forall k | 0 <= k < |items|
      ensures HasType(t, items[k]) && Encodable(t, items[k]) && Terminated(t, items[k])
    {
      ValueWithinEncodes(t, items[k]);
    }
  }

  lemma {:induction false} WithinEncodes(mt: MessageType, m: Message)
    requires WellTyped(mt, m) && MessageWithin(mt, m)
    ensures MessageEncodable(mt, m) && MessageTerminated(mt, m)
    decreases mt
  {
    forall i | 0 <= i < |mt.fields|
      ensures FieldEncodable(mt.fields[i], m[mt.fields[i].at])
      ensures FieldTerminated(mt.fields[i], m[mt.fields[i].at])
    {
      var f := mt.fields[i];
      var s := m[f.at];
      if Present(f, s) {
        match f.htype
        case Repeated(_) =>
          ItemsWithinEncode(f.ltype, s.items);
        case OneOf => ValueWithinEncodes(f.ltype, s.content);
        case _ => ValueWithinEncodes(f.ltype, s.value);
      }
    }
  }

  /**
    Whatever bytes were decoded, unknown fields, repeated ones and foreign encoders included: the struct
    is within its bounds, so it can be encoded, and decoding that restores it.
  */
  lemma DecodedCanBeEncoded(mt: MessageType, b: Bytes)
    requires SchemaOk(mt) && Roomy(mt) && Decode(mt, b).Some?
    ensures var m := Decode(mt, b).value.0;
      && MessageWithin(mt, m)
      && MessageEncodable(mt, m)
      && (|MessageBytes(mt, m)| < WORD ==>
            var d := Decode(mt, MessageBytes(mt, m));
            d.Some? && d.value.1 == [] && Restored(mt, m, d.value.0))
  {
    DefaultsWithin(mt);
    ReadFieldsWithin(mt, Defaults(mt), {}, b);
    var m := Decode(mt, b).value.0;
    WithinEncodes(mt, m);
    if |MessageBytes(mt, m)| < WORD {
      DecodeRestores(mt, m);
    }
  }
}
