/**
  Write batches (db/write_batch.cc): operations appended to one byte string behind a twelve-byte header
  that is patched in place.  Whatever was put together, iterating yields exactly the operations.
*/
module WriteBatches {
  import opened Base
  import opened Coding

  const HEADER: nat := 12
  const DELETION_TAG: nat := 0
  const VALUE_TAG: nat := 1

  datatype BatchOp = Put(key: Bytes, value: Bytes) | Delete(key: Bytes)

  predicate OpOk(op: BatchOp) {
    |op.key| < 0x1_0000_0000 && (op.Put? ==> |op.value| < 0x1_0000_0000)
  }

  function TagOf(op: BatchOp): byte {
    if op.Put? then VALUE_TAG as byte else DELETION_TAG as byte
  }

  function Body(op: BatchOp): Bytes {
    match op
    case Put(key, value) => EncodeString(key) + EncodeString(value)
    case Delete(key) => EncodeString(key)
  }

  function EncodeOp(op: BatchOp): (b: Bytes)
    ensures b != []
  {
    [TagOf(op)] + Body(op)
  }

  function EncodeOps(ops: seq<BatchOp>): Bytes {
    if ops == [] then [] else EncodeOp(ops[0]) + EncodeOps(ops[1..])
  }

  /** The next operation and what follows it. */
  function ParseOp(b: Bytes): (r: Option<(BatchOp, Bytes)>)
    ensures r.Some? ==> |r.value.1| < |b|
  {
    if b == [] then None
    else if b[0] as nat == VALUE_TAG then
      match DecodeString(b[1..])
      case None => None
      case Some(key) =>
        match DecodeString(key.1)
        case None => None
        case Some(value) => Some((Put(key.0, value.0), value.1))
    else if b[0] as nat == DELETION_TAG then
      match DecodeString(b[1..])
      case None => None
      case Some(key) => Some((Delete(key.0), key.1))
    else None
  }

  lemma AfterTag(tag: byte, x: Bytes, rest: Bytes)
    ensures ([tag] + x + rest)[0] == tag && ([tag] + x + rest)[1..] == x + rest
  {
  }

  lemma ParsePut(b: Bytes, key: Bytes, b1: Bytes, value: Bytes, rest: Bytes)
    requires b != [] && b[0] as nat == VALUE_TAG && DecodeString(b[1..]) == Some((key, b1)) && DecodeString(b1) == Some((value, rest))
    ensures ParseOp(b) == Some((Put(key, value), rest))
  {
  }

  lemma OpRoundTrip(op: BatchOp, rest: Bytes)
    requires OpOk(op)
    ensures ParseOp(EncodeOp(op) + rest) == Some((op, rest))
  {
    match op
    case Put(key, value) =>
      AfterTag(VALUE_TAG as byte, EncodeString(key) + EncodeString(value), rest);
      Associative(EncodeString(key), EncodeString(value), rest);
      StringRoundTrip(key, EncodeString(value) + rest);
      StringRoundTrip(value, rest);
      ParsePut(EncodeOp(op) + rest, key, EncodeString(value) + rest, value, rest);
    case Delete(key) =>
      AfterTag(DELETION_TAG as byte, EncodeString(key), rest);
      StringRoundTrip(key, rest);
  }

  lemma {:induction false} OpsConcat(a: seq<BatchOp>, b: seq<BatchOp>)
    ensures EncodeOps(a + b) == EncodeOps(a) + EncodeOps(b)
  {
    if a == [] {
      assert a + b == b;
    } else {
      assert (a + b)[1..] == a[1..] + b;
      OpsConcat(a[1..], b);
      Associative(EncodeOp(a[0]), EncodeOps(a[1..]), EncodeOps(b));
    }
  }

  lemma OneMoreOp(ops: seq<BatchOp>, op: BatchOp)
    ensures EncodeOps(ops + [op]) == EncodeOps(ops) + EncodeOp(op)
  {
    OpsConcat(ops, [op]);
    assert [op][1..] == [] && EncodeOp(op) + [] == EncodeOp(op);
  }

  class WriteBatch {
    var rep: Bytes
    ghost var ops: seq<BatchOp>

    ghost predicate Valid()
      reads this
    {
      && |rep| >= HEADER && |ops| < 0x1_0000_0000
      && rep[8..12] == EncodeFixed32(|ops|)
      && rep[HEADER..] == EncodeOps(ops)
      && forall op | op in ops :: OpOk(op)
    }

    constructor ()
      ensures Valid() && ops == []
    {
      rep := seq(HEADER, _ => 0);
      ops := [];
    }

    method Clear()
      modifies this
      ensures Valid() && ops == []
    {
      rep := seq(HEADER, _ => 0);
      ops := [];
    }

    method Count() returns (n: nat)
      requires Valid()
      ensures n == |ops|
    {
      Fixed32RoundTrip(|ops|);
      n := DecodeFixed32(rep[8..12]);
    }

    method SetCount(n: Word)
      requires |rep| >= HEADER
      modifies this`rep
      ensures |rep| == |old(rep)| && rep[8..12] == EncodeFixed32(n)
      ensures rep[..8] == old(rep)[..8] && rep[HEADER..] == old(rep)[HEADER..]
    {
      rep := rep[..8] + EncodeFixed32(n) + rep[HEADER..];
    }

    method SetSequence(n: nat)
      requires Valid() && n < 0x1_0000_0000_0000_0000
      modifies this`rep
      ensures Valid() && DecodeFixed64(rep[..8]) == n
    {
      Fixed64RoundTrip(n);
      var code := EncodeFixed64(n);
      ghost var before := rep;
      rep := code + rep[8..];
      assert rep[..8] == code && rep[8..12] == before[8..12] && rep[HEADER..] == before[HEADER..];
    }

    method Put(key: Bytes, value: Bytes)
      requires Valid() && |ops| + 1 < 0x1_0000_0000 && OpOk(BatchOp.Put(key, value))
      modifies this
      ensures Valid() && ops == old(ops) + [BatchOp.Put(key, value)] && rep[..8] == old(rep)[..8]
    {
      Associative([VALUE_TAG as byte], EncodeString(key), EncodeString(value));
      AppendCode([VALUE_TAG as byte] + EncodeString(key) + EncodeString(value), BatchOp.Put(key, value));
    }

    method Delete(key: Bytes)
      requires Valid() && |ops| + 1 < 0x1_0000_0000 && OpOk(BatchOp.Delete(key))
      modifies this
      ensures Valid() && ops == old(ops) + [BatchOp.Delete(key)] && rep[..8] == old(rep)[..8]
    {
      AppendCode([DELETION_TAG as byte] + EncodeString(key), BatchOp.Delete(key));
    }

    /** Counts one more operation and appends its bytes. */
    method AppendCode(code: Bytes, ghost op: BatchOp)
      requires Valid() && |ops| + 1 < 0x1_0000_0000 && OpOk(op) && code == EncodeOp(op)
      modifies this
      ensures Valid() && ops == old(ops) + [op] && rep[..8] == old(rep)[..8]
    {
      var n := Count();
      SetCount(n + 1);
      TailGrows(rep, code);
      rep := rep + code;
      OneMoreOp(ops, op);
      ops := ops + [op];
    }

    method Append(source: WriteBatch)
      requires Valid() && source.Valid() && source != this && |ops| + |source.ops| < 0x1_0000_0000
      modifies this
      ensures Valid() && ops == old(ops) + source.ops && rep[..8] == old(rep)[..8]
    {
      hide EncodeOps;
      var n := Count();
      var m := source.Count();
      SetCount(n + m);
      TailGrows(rep, source.rep[HEADER..]);
      rep := rep + source.rep[HEADER..];
      OpsConcat(ops, source.ops);
      ops := ops + source.ops;
    }

    /**
      Hands the operations to the handler one after the other until the bytes end or do not parse, and then
      checks the count; a batch put together here is never damaged.
    */
    method Iterate() returns (r: Iteration)
      ensures r == Iterated(rep)
      ensures Valid() ==> r == Iteration(ops, Ok)
    {
      if Valid() {
        ContentsRoundTrip(rep, ops);
      }
      if |rep| < HEADER {
        return Iteration([], TooSmall);
      }
      r := HandleAll(rep[HEADER..]);
      if r.status == Ok && |r.handled| != DecodeFixed32(rep[8..12]) {
        r := r.(status := WrongCount);
      }
    }

    /**
      The entries a memtable gets: consecutive sequence numbers in batch order.  What a damaged batch holds
      before the damage is inserted although the call fails.
    */
    method InsertInto() returns (r: seq<(nat, BatchOp)>, status: Status)
      ensures status == Iterated(rep).status && |r| == |Iterated(rep).handled|
      ensures forall i | 0 <= i < |r| :: r[i] == (DecodeFixed64(rep[..8]) + i, Iterated(rep).handled[i])
      ensures Valid() ==> status == Ok && Iterated(rep).handled == ops
    {
      var all := Iterate();
      status := all.status;
      if |rep| < HEADER {
        return [], status;
      }
      r := StampFrom(DecodeFixed64(rep[..8]), all.handled);
    }
  }

  /** The inserter's running sequence number. */
  method StampFrom(first: nat, ops: seq<BatchOp>) returns (r: seq<(nat, BatchOp)>)
    ensures |r| == |ops| && forall i | 0 <= i < |r| :: r[i] == (first + i, ops[i])
  {
    var sequence := first;
    r := [];
    for i := 0 to |ops|
      invariant |r| == i && sequence == first + i && forall j | 0 <= j < i :: r[j] == (first + j, ops[j])
    {
      r := r + [(sequence, ops[i])];
      sequence := sequence + 1;
    }
  }

  // ---------------------------------------------------------------- iterating

  datatype Status = Ok | TooSmall | BadPut | BadDelete | UnknownTag | WrongCount

  /** The operations handed to the handler, and how iterating ended. */
  datatype Iteration = Iteration(handled: seq<BatchOp>, status: Status)

  /** What is wrong with bytes whose first operation does not parse. */
  function DamageOf(b: Bytes): Status
    requires b != []
  {
    if b[0] as nat == VALUE_TAG then BadPut else if b[0] as nat == DELETION_TAG then BadDelete else UnknownTag
  }

  /** Operation after operation until nothing is left or something is damaged. */
  function Handle(b: Bytes): Iteration {
    if b == [] then Iteration([], Ok)
    else
      match ParseOp(b)
      case None => Iteration([], DamageOf(b))
      case Some(x) => Behind([x.0], Handle(x.1))
  }

  function Behind(handled: seq<BatchOp>, rest: Iteration): Iteration {
    Iteration(handled + rest.handled, rest.status)
  }

  /** What iterating over a batch's bytes comes to. */
  function Iterated(rep: Bytes): Iteration {
    if |rep| < HEADER then Iteration([], TooSmall)
    else Counted(Handle(rep[HEADER..]), DecodeFixed32(rep[8..12]))
  }

  /** With nothing else wrong, the operations must be as many as the header says. */
  function Counted(all: Iteration, count: nat): Iteration {
    if all.status == Ok && |all.handled| != count then all.(status := WrongCount) else all
  }

  /** Encoded operations are handled one by one, whatever stands behind them. */
  lemma {:induction false} OpsRoundTrip(ops: seq<BatchOp>, rest: Bytes)
    requires forall op | op in ops :: OpOk(op)
    ensures Handle(EncodeOps(ops) + rest) == Behind(ops, Handle(rest))
  {
    hide EncodeOp, ParseOp, Behind, OpOk;
    if ops == [] {
      assert EncodeOps(ops) + rest == rest;
      BehindNothing(Handle(rest));
    } else {
      var first, tail := ops[0], ops[1..];
      Associative(EncodeOp(first), EncodeOps(tail), rest);
      OpRoundTrip(first, EncodeOps(tail) + rest);
      OpsRoundTrip(tail, rest);
      HandledFirst(EncodeOp(first), EncodeOps(tail) + rest, first);
      BehindBoth([first], tail, Handle(rest));
      assert [first] + tail == ops;
    }
  }

  lemma HandledFirst(a: Bytes, b: Bytes, op: BatchOp)
    requires a != [] && ParseOp(a + b) == Some((op, b))
    ensures Handle(a + b) == Behind([op], Handle(b))
  {
  }

  lemma ContentsRoundTrip(rep: Bytes, ops: seq<BatchOp>)
    requires |rep| >= HEADER && |ops| < 0x1_0000_0000 && rep[8..12] == EncodeFixed32(|ops|)
    requires rep[HEADER..] == EncodeOps(ops) && forall op | op in ops :: OpOk(op)
    ensures Iterated(rep) == Iteration(ops, Ok)
  {
    OpsRoundTrip(ops, []);
    assert EncodeOps(ops) + [] == EncodeOps(ops) && ops + [] == ops;
    Fixed32RoundTrip(|ops|);
  }

  function StatusOf(junk: Bytes): Status {
    if junk != [] then DamageOf(junk) else Ok
  }

  lemma DamagedBytes(ops: seq<BatchOp>, junk: Bytes)
    requires (junk != [] ==> ParseOp(junk) == None) && forall op | op in ops :: OpOk(op)
    ensures Handle(EncodeOps(ops) + junk) == Iteration(ops, StatusOf(junk))
  {
    OpsRoundTrip(ops, junk);
    HandlesNothing(junk);
    OnlyThese(ops, Handle(junk));
  }

  /**
    Damage behind some operations: all of them have been handed over before it is reported.  With nothing
    behind them only a wrong count is left to report.
  */
  lemma DamagedBatch(rep: Bytes, ops: seq<BatchOp>, junk: Bytes)
    requires |rep| >= HEADER && rep[HEADER..] == EncodeOps(ops) + junk && forall op | op in ops :: OpOk(op)
    requires junk != [] ==> ParseOp(junk) == None
    ensures Iterated(rep) == Counted(Iteration(ops, StatusOf(junk)), DecodeFixed32(rep[8..12]))
  {
    DamagedBytes(ops, junk);
  }

  lemma OnlyThese(ops: seq<BatchOp>, rest: Iteration)
    requires rest.handled == []
    ensures Behind(ops, rest) == Iteration(ops, rest.status)
  {
    assert ops + [] == ops;
  }

  lemma HandlesNothing(junk: Bytes)
    requires junk != [] ==> ParseOp(junk) == None
    ensures Handle(junk) == Iteration([], StatusOf(junk))
  {
  }

  /** Handles operation after operation. */
  method HandleAll(b: Bytes) returns (r: Iteration)
    ensures r == Handle(b)
  {
    var input, handled: seq<BatchOp>, status := b, [], Ok;
    BehindNothing(Handle(b));
    while status == Ok && input != []
      invariant Handle(b) == if status == Ok then Behind(handled, Handle(input)) else Iteration(handled, status)
      decreases |input|, status == Ok
    {
      var op := ParseOp(input);
      if op == None {
        status := DamageOf(input);
        assert handled + [] == handled;
      } else {
        BehindBoth(handled, [op.value.0], Handle(op.value.1));
        handled, input := handled + [op.value.0], op.value.1;
      }
    }
    assert handled + [] == handled;
    r := Iteration(handled, status);
  }

  lemma BehindNothing(rest: Iteration)
    ensures Behind([], rest) == rest
  {
    assert [] + rest.handled == rest.handled;
  }

  lemma BehindBoth(a: seq<BatchOp>, b: seq<BatchOp>, rest: Iteration)
    ensures Behind(a, Behind(b, rest)) == Behind(a + b, rest)
  {
    assert a + (b + rest.handled) == (a + b) + rest.handled;
  }

  lemma TailGrows(rep: Bytes, more: Bytes)
    requires |rep| >= HEADER
    ensures (rep + more)[HEADER..] == rep[HEADER..] + more
    ensures (rep + more)[8..12] == rep[8..12] && (rep + more)[..8] == rep[..8]
  {
  }
}
