/** The iterator over the fields of a struct (pb_common.c). */
module NanopbFields {
  import opened Base
  import opened NanopbFormat

  const PB_SIZE_MAX: nat := 0xFFFF_FFFF

  // ---------------------------------------------------------------- layout

  /** What a member occupies: an array takes the room of all its entries. */
  function MemberSize(f: Field): nat {
    if f.htype.Repeated? then DataSize(f.ltype) * f.htype.arraySize else DataSize(f.ltype)
  }

  /** Do these neighbours share the storage of one union? */
  predicate UnionMates(a: Field, b: Field) {
    a.htype.OneOf? && b.htype.OneOf? && a.at == b.at
  }

  /** Members lie in the order of their descriptors without overlap, except within a union. */
  ghost predicate LaidOut(mt: MessageType) {
    && (forall i :: 0 <= i < |mt.fields| ==> mt.fields[i].at < PB_SIZE_MAX && MemberSize(mt.fields[i]) > 0)
    && (forall i :: 0 < i < |mt.fields| ==>
          UnionMates(mt.fields[i - 1], mt.fields[i])
          || mt.fields[i - 1].at + MemberSize(mt.fields[i - 1]) <= mt.fields[i].at)
  }

  /** Field numbers are positive and unique, and fit a 32-bit key beside the wire type. */
  ghost predicate Numbered(mt: MessageType) {
    && (forall i :: 0 <= i < |mt.fields| ==> 0 < mt.fields[i].tag < 0x2000_0000)
    && (forall i, j :: 0 <= i < j < |mt.fields| ==> mt.fields[i].tag != mt.fields[j].tag)
  }

  /** Descriptors as the generator makes them, at every depth. */
  ghost predicate SchemaOk(mt: MessageType)
    decreases mt
  {
    LaidOut(mt) && Numbered(mt) && forall i :: 0 <= i < |mt.fields| ==> FieldOk(mt.fields[i])
  }

  /** A default value has the type of the field; submessages and proto3 fields have none of their own. */
  ghost predicate FieldOk(f: Field)
    decreases f
  {
    && TypeOk(f.ltype)
    && (f.initial.Some? ==> !f.ltype.Submessage? && !f.htype.Singular? && HasType(f.ltype, f.initial.value))
  }

  ghost predicate TypeOk(t: LType)
    decreases t
  {
    t.Submessage? ==> SchemaOk(t.sub)
  }

  /** The data_offset the descriptor macros compute for field `i`. */
  function DataOffset(mt: MessageType, i: nat): int
    requires i < |mt.fields|
  {
    if i == 0 then mt.fields[0].at
    else if UnionMates(mt.fields[i - 1], mt.fields[i]) then PB_SIZE_MAX
    else mt.fields[i].at - mt.fields[i - 1].at - MemberSize(mt.fields[i - 1])
  }

  function RequiredBefore(mt: MessageType, i: nat): (n: nat)
    requires i <= |mt.fields|
    ensures n <= i
  {
    if i == 0 then 0
    else RequiredBefore(mt, i - 1) + (if mt.fields[i - 1].htype.Required? then 1 else 0)
  }

  /** Two fields lie at the same offset only as members of one union. */
  lemma {:induction false} SharedOffsets(mt: MessageType, i: nat, j: nat)
    requires LaidOut(mt) && i < j < |mt.fields|
    ensures mt.fields[i].at <= mt.fields[j].at
    ensures mt.fields[i].at == mt.fields[j].at ==> mt.fields[i].htype.OneOf? && mt.fields[j].htype.OneOf?
    decreases j - i
  {
    assert UnionMates(mt.fields[j - 1], mt.fields[j])
        || mt.fields[j - 1].at + MemberSize(mt.fields[j - 1]) <= mt.fields[j].at;
    if i < j - 1 {
      SharedOffsets(mt, i, j - 1);
    }
  }

  /** Distinct required fields have distinct indices. */
  lemma {:induction false} RequiredIndicesDiffer(mt: MessageType, i: nat, j: nat)
    requires i < j <= |mt.fields| && mt.fields[i].htype.Required?
    ensures RequiredBefore(mt, i) < RequiredBefore(mt, j)
    decreases j - i
  {
    if i < j - 1 {
      RequiredIndicesDiffer(mt, i, j - 1);
    }
  }

  ghost predicate HasTag(mt: MessageType, tag: nat) {
    exists i :: 0 <= i < |mt.fields| && mt.fields[i].tag == tag
  }

  /** Does a walk from `first` that wraps round come past `i` before it reaches `pos`? */
  predicate Between(first: nat, i: nat, pos: nat) {
    if first <= pos then first <= i < pos else first <= i || i < pos
  }

  // ---------------------------------------------------------------- the iterator

  class FieldIter {
    const start: MessageType
    /** Number of the field, or of the terminating descriptor when there are no fields. */
    var pos: nat
    var requiredFieldIndex: nat
    /** Offset of the field's data from the start of the struct. */
    var pData: int

    ghost predicate Valid()
      reads this
    {
      && LaidOut(start) && Numbered(start)
      && (if start.fields == [] then pos == 0 else pos < |start.fields|)
      && requiredFieldIndex == RequiredBefore(start, pos)
      && (pos < |start.fields| ==> pData == start.fields[pos].at)
    }

    constructor (mt: MessageType)
      requires LaidOut(mt) && Numbered(mt)
      ensures Valid() && start == mt && pos == 0
    {
      start := mt;
      pos, requiredFieldIndex := 0, 0;
      pData := if mt.fields == [] then 0 else DataOffset(mt, 0);
    }

    /** The tag of the current descriptor; the terminating one has tag 0. */
    function Tag(): nat
      requires pos <= |start.fields|
      reads this
    {
      if pos == |start.fields| then 0 else start.fields[pos].tag
    }

    method Begin() returns (ok: bool)
      requires LaidOut(start) && Numbered(start)
      modifies `pos, `requiredFieldIndex, `pData
      ensures Valid() && pos == 0
      ensures ok <==> start.fields != []
    {
      pos, requiredFieldIndex := 0, 0;
      pData := if start.fields == [] then 0 else DataOffset(start, 0);
      ok := Tag() != 0;
    }

    /** On to the next field; past the last one back to the first, and `false`. */
    method Next() returns (ok: bool)
      requires Valid()
      modifies `pos, `requiredFieldIndex, `pData
      ensures Valid()
      ensures ok <==> old(pos) + 1 < |start.fields|
      ensures pos == if ok then old(pos) + 1 else 0
    {
      if Tag() == 0 {
        return false;
      }
      var prevField := start.fields[pos];
      pos := pos + 1;
      if Tag() == 0 {
        var _ := Begin();
        return false;
      }
      var prevSize := DataSize(prevField.ltype);
      var field := start.fields[pos];
      assert UnionMates(prevField, field) || prevField.at + MemberSize(prevField) <= field.at;
      if prevField.htype.OneOf? && field.htype.OneOf? && DataOffset(start, pos) == PB_SIZE_MAX {
        return true;
      } else if prevField.htype.Repeated? {
        prevSize := prevSize * prevField.htype.arraySize;
      }
      if prevField.htype.Required? {
        requiredFieldIndex := requiredFieldIndex + 1;
      }
      pData := pData + prevSize + DataOffset(start, pos);
      ok := true;
    }

    /** Steps forward, wrapping round once if need be, to the field of this tag. */
    method Find(tag: nat) returns (ok: bool)
      requires Valid()
      modifies `pos, `requiredFieldIndex, `pData
      ensures Valid()
      ensures ok ==> Tag() == tag
      ensures ok <==> HasTag(start, tag) || (start.fields == [] && tag == 0)
      ensures !ok ==> pos == old(pos)
    {
      var first := pos;
      ghost var n := |start.fields|;
      while true
        invariant Valid() && n == |start.fields| && first == old(pos)
        invariant forall i :: 0 <= i < n && Between(first, i, pos) ==> start.fields[i].tag != tag
        decreases if first <= pos then n - pos + first else first - pos
      {
        if Tag() == tag {
          return true;
        }
        var _ := Next();
        if pos == first {
          break;
        }
      }
      return false;
    }
  }
}
