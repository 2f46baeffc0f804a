/**
  The write queue (DBImpl::Write, BuildBatchGroup in db/db_impl.cc): writers line up, the front one
  logs and inserts a whole group with the mutex released, then finishes exactly that group.
*/
module WriteQueue {
  import opened Base
  import opened DbFormat
  import Engine

  type Op = Engine.Op

  const SMALL_WRITE := 131072
  const MAX_GROUP := 1048576

  /** A queued write; no batch means the caller only waits for earlier writes. */
  datatype Writer = Writer(batch: Option<seq<Op>>, byteSize: nat, sync: bool)

  function BatchOf(w: Writer): seq<Op> {
    if w.batch.Some? then w.batch.value else []
  }

  function OpsOf(ws: seq<Writer>): seq<Op> {
    if ws == [] then [] else OpsOf(ws[..|ws| - 1]) + BatchOf(ws[|ws| - 1])
  }

  function SizeOf(ws: seq<Writer>): nat {
    if ws == [] then 0
    else SizeOf(ws[..|ws| - 1]) + if ws[|ws| - 1].batch.Some? then ws[|ws| - 1].byteSize else 0
  }

  // ---------------------------------------------------------------- the group of the front writer

  function MaxSize(first: nat): nat {
    if first <= SMALL_WRITE then first + SMALL_WRITE else MAX_GROUP
  }

  /** Writer `i` may join the group of the writers before it. */
  predicate MayJoin(ws: seq<Writer>, i: nat)
    requires 0 < i < |ws|
  {
    && (ws[i].sync ==> ws[0].sync)
    && (ws[i].batch.Some? ==> SizeOf(ws[..i + 1]) <= MaxSize(ws[0].byteSize))
  }

  /** The longest prefix of the queue in which everyone may join. */
  ghost predicate IsGroup(ws: seq<Writer>, n: nat) {
    && 1 <= n <= |ws|
    && (forall i | 1 <= i < n :: MayJoin(ws, i))
    && (n < |ws| ==> !MayJoin(ws, n))
  }

  lemma GroupIsUnique(ws: seq<Writer>, m: nat, n: nat)
    requires IsGroup(ws, m) && IsGroup(ws, n)
    ensures m == n
  {
  }

  lemma OneMoreWriter(ws: seq<Writer>, n: nat)
    requires n < |ws|
    ensures OpsOf(ws[..n + 1]) == OpsOf(ws[..n]) + BatchOf(ws[n])
    ensures SizeOf(ws[..n + 1]) == SizeOf(ws[..n]) + if ws[n].batch.Some? then ws[n].byteSize else 0
    ensures ws[n].batch == None ==> OpsOf(ws[..n + 1]) == OpsOf(ws[..n])
  {
    assert ws[..n + 1][..n] == ws[..n];
    assert OpsOf(ws[..n]) + [] == OpsOf(ws[..n]);
  }

  /** The operations and the size collected from the first `n` writers. */
  predicate Collected(ws: seq<Writer>, n: nat, result: seq<Op>, size: nat) {
    n <= |ws| && result == OpsOf(ws[..n]) && size == SizeOf(ws[..n])
  }

  lemma CollectFirst(ws: seq<Writer>)
    requires ws != [] && ws[0].batch.Some?
    ensures Collected(ws, 1, ws[0].batch.value, ws[0].byteSize)
  {
    OneMoreWriter(ws, 0);
    assert ws[..0] == [] && OpsOf([]) == [];
    assert [] + ws[0].batch.value == ws[0].batch.value;
  }

  lemma CollectOne(ws: seq<Writer>, n: nat, result: seq<Op>, size: nat)
    requires n < |ws| && Collected(ws, n, result, size)
    ensures ws[n].batch.Some? ==> Collected(ws, n + 1, result + ws[n].batch.value, size + ws[n].byteSize)
    ensures ws[n].batch == None ==> Collected(ws, n + 1, result, size)
  {
    OneMoreWriter(ws, n);
  }

  /** Lets the next writer into the group unless it wants a sync the leader does not, or makes the group too big. */
  method TryJoin(writers: seq<Writer>, n: nat, ghost result: seq<Op>, size: nat, maxSize: nat) returns (joins: bool, size': nat)
    requires 0 < n < |writers| && Collected(writers, n, result, size) && maxSize == MaxSize(writers[0].byteSize)
    ensures joins <==> MayJoin(writers, n)
    ensures joins ==> size' == if writers[n].batch.Some? then size + writers[n].byteSize else size
  {
    var w := writers[n];
    OneMoreWriter(writers, n);
    joins, size' := !(w.sync && !writers[0].sync), size;
    if joins && w.batch.Some? {
      size' := size + w.byteSize;
      joins := size' <= maxSize;
    }
  }

  /** Collects the batches of the group behind the front writer, whose own batch stays untouched. */
  method BuildBatchGroup(writers: seq<Writer>) returns (count: nat, result: seq<Op>)
    requires writers != [] && writers[0].batch.Some?
    ensures IsGroup(writers, count)
    ensures result == OpsOf(writers[..count])
  {
    hide OpsOf, SizeOf, Collected;
    var first := writers[0];
    result := first.batch.value;
    var size: nat := first.byteSize;
    var maxSize := MAX_GROUP;
    if size <= SMALL_WRITE {
      maxSize := size + SMALL_WRITE;
    }
    count := 1;
    CollectFirst(writers);
    while count < |writers|
      invariant 1 <= count <= |writers| && Collected(writers, count, result, size)
      invariant forall i | 1 <= i < count :: MayJoin(writers, i)
    {
      var joins, size' := TryJoin(writers, count, result, size, maxSize);
      if !joins {
        break;
      }
      CollectOne(writers, count, result, size);
      size := size';
      if writers[count].batch.Some? {
        result := result + writers[count].batch.value;
      }
      count := count + 1;
    }
    CollectedAll(writers, count, result, size);
  }

  lemma CollectedAll(ws: seq<Writer>, n: nat, result: seq<Op>, size: nat)
    requires Collected(ws, n, result, size)
    ensures n <= |ws| && result == OpsOf(ws[..n])
  {
  }

  // ---------------------------------------------------------------- state

  datatype Stage = Built | Logged | LogFailed | Synced | SyncFailed

  /** What the front writer works on while the mutex is released: the first `count` writers' ops, from sequence `first`. */
  datatype Group = Group(count: nat, ops: seq<Op>, first: nat, sync: bool, stage: Stage, inserted: nat)

  datatype Record = Record(first: nat, ops: seq<Op>) {
    function Next(): nat { first + |ops| }
  }

  /** Where a batch ended up in the log. */
  datatype Place = Place(record: nat, offset: nat)

  /** How a writer left the queue: in a group, or alone at its front. */
  datatype Done = Done(writer: Writer, ok: bool, place: Option<Place>, grouped: bool)

  datatype Stamped = Stamped(sequence: nat, op: Op)

  datatype Queue = Queue(
    arrived: seq<Writer>,
    waiting: seq<Writer>,
    finished: seq<Done>,
    group: Option<Group>,
    log: seq<Record>,
    synced: nat,
    applied: seq<Record>,
    memtable: seq<Stamped>,
    lastSequence: nat,
    bgError: bool,
    exposed: set<nat>,
    switches: nat)

  datatype Step =
    | Arrive(writer: Writer)
    | FailAtFront
    | PassNull
    | Build(count: nat)
    | AddRecord(ok: bool)
    | Sync(ok: bool)
    | InsertNext
    | Commit
    | TakeSnapshot

  function StampOps(first: nat, ops: seq<Op>): (r: seq<Stamped>)
    ensures |r| == |ops|
  {
    seq(|ops|, i requires 0 <= i < |ops| => Stamped(first + i, ops[i]))
  }

  function StampAll(rs: seq<Record>): seq<Stamped> {
    if rs == [] then [] else StampAll(rs[..|rs| - 1]) + StampOps(rs[|rs| - 1].first, rs[|rs| - 1].ops)
  }

  function OpsIn(rs: seq<Record>): seq<Op> {
    if rs == [] then [] else OpsIn(rs[..|rs| - 1]) + rs[|rs| - 1].ops
  }

  predicate Inserting(g: Group) {
    g.stage == Synced || (g.stage == Logged && !g.sync)
  }

  predicate Succeeded(g: Group) {
    Inserting(g) && g.inserted == |g.ops|
  }

  predicate InLog(g: Group) {
    g.stage in {Logged, Synced, SyncFailed}
  }

  /** The group's writers leave the queue with one status and, if logged, with their place in the log. */
  function Finish(ws: seq<Writer>, ok: bool, record: Option<nat>): seq<Done> {
    if ws == [] then []
    else
      var front := ws[..|ws| - 1];
      Finish(front, ok, record)
      + [Done(ws[|ws| - 1], ok, if record.Some? then Some(Place(record.value, |OpsOf(front)|)) else None, true)]
  }

  ghost predicate Enabled(q: Queue, step: Step) {
    match step
    case Arrive(w) => true
    case FailAtFront => q.waiting != [] && q.group == None
    case PassNull => q.waiting != [] && q.group == None && q.waiting[0].batch == None && !q.bgError
    case Build(n) => q.waiting != [] && q.group == None && q.waiting[0].batch.Some? && !q.bgError && IsGroup(q.waiting, n)
    case AddRecord(ok) => q.group.Some? && q.group.value.stage == Built
    case Sync(ok) => q.group.Some? && q.group.value.stage == Logged && q.group.value.sync
    case InsertNext => q.group.Some? && Inserting(q.group.value) && q.group.value.inserted < |q.group.value.ops|
    case Commit => q.group.Some? && (Succeeded(q.group.value) || q.group.value.stage in {LogFailed, SyncFailed})
    case TakeSnapshot => true
  }

  /** The log record a group went into, if it went into the log. */
  function RecordOf(g: Group, log: seq<Record>): (r: Option<nat>)
    ensures r.Some? ==> InLog(g) && r.value + 1 == |log|
  {
    if InLog(g) && |log| > 0 then Some(|log| - 1) else None
  }

  ghost function AfterCommit(q: Queue): Queue
    requires q.group.Some? && q.group.value.count <= |q.waiting|
  {
    var g := q.group.value;
    q.(waiting := q.waiting[g.count..],
       finished := q.finished + Finish(q.waiting[..g.count], Succeeded(g), RecordOf(g, q.log)),
       group := None,
       applied := if Succeeded(g) then q.applied + [Record(g.first, g.ops)] else q.applied,
       lastSequence := q.lastSequence + |g.ops|,
       bgError := q.bgError || g.stage == SyncFailed)
  }

  ghost function Apply(q: Queue, step: Step): Queue
    requires Enabled(q, step)
  {
    match step
    case Arrive(w) => q.(arrived := q.arrived + [w], waiting := q.waiting + [w])
    case FailAtFront => q.(waiting := q.waiting[1..], finished := q.finished + [Done(q.waiting[0], false, None, false)])
    case PassNull =>
      q.(waiting := q.waiting[1..], finished := q.finished + [Done(q.waiting[0], true, None, false)],
         switches := q.switches + 1)
    case Build(n) =>
      q.(group := Some(Group(n, OpsOf(q.waiting[..n]), q.lastSequence + 1, q.waiting[0].sync, Built, 0)))
    case AddRecord(ok) =>
      var g := q.group.value;
      if ok then q.(log := q.log + [Record(g.first, g.ops)], group := Some(g.(stage := Logged)))
      else q.(group := Some(g.(stage := LogFailed)))
    case Sync(ok) =>
      var g := q.group.value;
      if ok then q.(synced := |q.log|, group := Some(g.(stage := Synced)))
      else q.(group := Some(g.(stage := SyncFailed)))
    case InsertNext =>
      var g := q.group.value;
      q.(memtable := q.memtable + [Stamped(g.first + g.inserted, g.ops[g.inserted])],
         group := Some(g.(inserted := g.inserted + 1)))
    case Commit => if q.group.value.count <= |q.waiting| then AfterCommit(q) else q
    case TakeSnapshot => q.(exposed := q.exposed + {q.lastSequence})
  }

  const EMPTY := Queue([], [], [], None, [], 0, [], [], 0, false, {}, 0)

  // ---------------------------------------------------------------- invariant

  /** The group in progress is the front of the queue, numbered right after the last visible sequence. */
  ghost predicate GroupOk(q: Queue) {
    q.group.Some? ==>
      var g := q.group.value;
      && 1 <= g.count <= |q.waiting|
      && g.ops == OpsOf(q.waiting[..g.count])
      && g.first == q.lastSequence + 1
      && g.sync == q.waiting[0].sync
      && (forall i | 0 <= i < g.count && q.waiting[i].sync :: g.sync)
      && g.inserted <= |g.ops| && (g.inserted > 0 ==> Inserting(g))
      && (InLog(g) ==> q.log != [] && q.log[|q.log| - 1] == Record(g.first, g.ops))
      && (g.stage == Synced ==> g.sync && q.synced == |q.log|)
      && (g.stage == SyncFailed ==> g.sync)
  }

  function WritersOf(ds: seq<Done>): seq<Writer> {
    if ds == [] then [] else WritersOf(ds[..|ds| - 1]) + [ds[|ds| - 1].writer]
  }

  /** The writers whose batch reached the log, in order. */
  function LoggedOnes(ds: seq<Done>): seq<Writer> {
    if ds == [] then []
    else LoggedOnes(ds[..|ds| - 1]) + if ds[|ds| - 1].place.Some? then [ds[|ds| - 1].writer] else []
  }

  function SuccessfulOnes(ds: seq<Done>): seq<Writer> {
    if ds == [] then []
    else SuccessfulOnes(ds[..|ds| - 1]) + if ds[|ds| - 1].ok then [ds[|ds| - 1].writer] else []
  }

  /** The writers whose group failed. */
  function LostOnes(ds: seq<Done>): seq<Writer> {
    if ds == [] then []
    else LostOnes(ds[..|ds| - 1])
         + if ds[|ds| - 1].grouped && !ds[|ds| - 1].ok then [ds[|ds| - 1].writer] else []
  }

  /** The writers without a batch that reached the front themselves and passed. */
  function ForcedOnes(ds: seq<Done>): seq<Writer> {
    if ds == [] then []
    else ForcedOnes(ds[..|ds| - 1])
         + if !ds[|ds| - 1].grouped && ds[|ds| - 1].ok then [ds[|ds| - 1].writer] else []
  }

  /** Record ranges follow one another without touching, and all but one in progress are visible. */
  ghost predicate RangesOk(rs: seq<Record>, bound: nat) {
    && (forall i: nat, j: nat | i < j < |rs| :: Before(rs, i, j))
    && (forall r | r in rs :: 1 <= r.first && r.Next() <= bound)
  }

  predicate Before(rs: seq<Record>, i: nat, j: nat) {
    i < j < |rs| ==> rs[i].Next() <= rs[j].first
  }

  ghost predicate PlaceOk(d: Done, log: seq<Record>, synced: nat, applied: seq<Record>) {
    && (d.place == None ==> !d.ok || d.writer.batch == None)
    && (d.place.Some? ==> d.grouped)
    && (d.place.Some? ==>
          var p := d.place.value;
          && p.record < |log| && p.offset + |BatchOf(d.writer)| <= |log[p.record].ops|
          && log[p.record].ops[p.offset..p.offset + |BatchOf(d.writer)|] == BatchOf(d.writer)
          && (d.ok ==> log[p.record] in applied)
          && (d.ok && d.writer.sync ==> p.record < synced))
  }

  /** A snapshot never falls strictly inside a record's range. */
  ghost predicate Apart(s: nat, r: Record) {
    s < r.first || s + 1 >= r.Next()
  }

  function PendingOps(q: Queue): seq<Op> {
    if q.group.Some? && InLog(q.group.value) then q.group.value.ops else []
  }

  function PartlyInserted(q: Queue): seq<Stamped>
    requires q.group.Some? ==> q.group.value.inserted <= |q.group.value.ops|
  {
    if q.group.Some? then StampOps(q.group.value.first, q.group.value.ops)[..q.group.value.inserted] else []
  }

  /** Nobody overtakes anybody: the finished writers, then the waiting ones, are all arrivals in order. */
  ghost predicate OrderOk(q: Queue) {
    q.arrived == WritersOf(q.finished) + q.waiting
  }

  /** The log is the logged batches in queue order, each once. */
  ghost predicate LogOk(q: Queue) {
    && OpsIn(q.log) == OpsOf(LoggedOnes(q.finished)) + PendingOps(q)
    && RangesOk(q.log, q.lastSequence + 1 + |PendingOps(q)|)
    && q.synced <= |q.log|
  }

  /** What was applied is the successful batches in queue order, each once. */
  ghost predicate AppliedOk(q: Queue) {
    && OpsIn(q.applied) == OpsOf(SuccessfulOnes(q.finished))
    && RangesOk(q.applied, q.lastSequence + 1)
    && forall r | r in q.applied :: r in q.log
  }

  /** Every batch of a finished group has used up its numbers, and every writer that passed alone one memtable. */
  ghost predicate CountsOk(q: Queue) {
    && q.lastSequence == |OpsOf(SuccessfulOnes(q.finished))| + |OpsOf(LostOnes(q.finished))|
    && q.switches == |ForcedOnes(q.finished)|
  }

  ghost predicate PlacesOk(q: Queue) {
    forall d | d in q.finished :: PlaceOk(d, q.log, q.synced, q.applied)
  }

  /** The memtable holds the applied groups and what the group in progress has inserted so far. */
  predicate MemTableOk(q: Queue)
    requires q.group.Some? ==> q.group.value.inserted <= |q.group.value.ops|
  {
    q.memtable == StampAll(q.applied) + PartlyInserted(q)
  }

  ghost predicate ExposedOk(q: Queue) {
    && (forall s | s in q.exposed :: s <= q.lastSequence)
    && (forall s, r | s in q.exposed && r in q.log :: Apart(s, r))
  }

  ghost predicate Inv(q: Queue) {
    && GroupOk(q)
    && OrderOk(q)
    && LogOk(q)
    && AppliedOk(q)
    && MemTableOk(q)
    && PlacesOk(q)
    && ExposedOk(q)
    && CountsOk(q)
  }

  // ---------------------------------------------------------------- lists

  lemma Associative<T>(a: seq<T>, b: seq<T>, c: seq<T>)
    ensures (a + b) + c == a + (b + c)
  {
  }

  lemma SplitAt<T>(s: seq<T>, n: nat)
    requires n <= |s|
    ensures s == s[..n] + s[n..]
  {
  }

  lemma {:induction false} OpsOfConcat(a: seq<Writer>, b: seq<Writer>)
    ensures OpsOf(a + b) == OpsOf(a) + OpsOf(b)
  {
    if b == [] {
      assert a + b == a;
    } else {
      assert (a + b)[..|a + b| - 1] == a + b[..|b| - 1];
      OpsOfConcat(a, b[..|b| - 1]);
    }
  }

  lemma FinishedConcat(a: seq<Done>, b: seq<Done>)
    ensures WritersOf(a + b) == WritersOf(a) + WritersOf(b)
    ensures LoggedOnes(a + b) == LoggedOnes(a) + LoggedOnes(b)
    ensures SuccessfulOnes(a + b) == SuccessfulOnes(a) + SuccessfulOnes(b)
  {
    WritersConcat(a, b);
    LoggedConcat(a, b);
    SuccessfulConcat(a, b);
  }

  lemma FrontOfConcat<T>(a: seq<T>, b: seq<T>)
    requires b != []
    ensures (a + b)[..|a + b| - 1] == a + b[..|b| - 1] && (a + b)[|a + b| - 1] == b[|b| - 1]
  {
  }

  lemma {:induction false} WritersConcat(a: seq<Done>, b: seq<Done>)
    ensures WritersOf(a + b) == WritersOf(a) + WritersOf(b)
  {
    if b == [] {
      assert a + b == a;
    } else {
      FrontOfConcat(a, b);
      WritersConcat(a, b[..|b| - 1]);
    }
  }

  lemma {:induction false} LoggedConcat(a: seq<Done>, b: seq<Done>)
    ensures LoggedOnes(a + b) == LoggedOnes(a) + LoggedOnes(b)
  {
    if b == [] {
      assert a + b == a;
    } else {
      FrontOfConcat(a, b);
      LoggedConcat(a, b[..|b| - 1]);
    }
  }

  lemma {:induction false} SuccessfulConcat(a: seq<Done>, b: seq<Done>)
    ensures SuccessfulOnes(a + b) == SuccessfulOnes(a) + SuccessfulOnes(b)
  {
    if b == [] {
      assert a + b == a;
    } else {
      FrontOfConcat(a, b);
      SuccessfulConcat(a, b[..|b| - 1]);
    }
  }

  lemma {:induction false} CountsConcat(a: seq<Done>, b: seq<Done>)
    ensures LostOnes(a + b) == LostOnes(a) + LostOnes(b)
    ensures ForcedOnes(a + b) == ForcedOnes(a) + ForcedOnes(b)
  {
    if b == [] {
      assert a + b == a;
    } else {
      assert (a + b)[..|a + b| - 1] == a + b[..|b| - 1];
      CountsConcat(a, b[..|b| - 1]);
    }
  }

  lemma CountOneMore(ds: seq<Done>, d: Done)
    ensures LostOnes(ds + [d]) == LostOnes(ds) + if d.grouped && !d.ok then [d.writer] else []
    ensures ForcedOnes(ds + [d]) == ForcedOnes(ds) + if !d.grouped && d.ok then [d.writer] else []
  {
    assert (ds + [d])[..|ds|] == ds;
  }

  lemma {:induction false} CountGroup(ws: seq<Writer>, ok: bool, record: Option<nat>)
    ensures LostOnes(Finish(ws, ok, record)) == if ok then [] else ws
    ensures ForcedOnes(Finish(ws, ok, record)) == []
  {
    if ws != [] {
      var front, last := ws[..|ws| - 1], ws[|ws| - 1];
      var place := if record.Some? then Some(Place(record.value, |OpsOf(front)|)) else None;
      CountGroup(front, ok, record);
      CountOneMore(Finish(front, ok, record), Done(last, ok, place, true));
      FrontOrNothing(ws, !ok);
    }
  }

  lemma OneMoreDone(ds: seq<Done>, d: Done)
    ensures WritersOf(ds + [d]) == WritersOf(ds) + [d.writer]
    ensures LoggedOnes(ds + [d]) == LoggedOnes(ds) + if d.place.Some? then [d.writer] else []
    ensures SuccessfulOnes(ds + [d]) == SuccessfulOnes(ds) + if d.ok then [d.writer] else []
  {
    assert (ds + [d])[..|ds|] == ds;
  }

  /** Finishing a group finishes each of its writers once, in order, all with the same status. */
  lemma {:induction false} FinishedGroup(ws: seq<Writer>, ok: bool, record: Option<nat>)
    ensures WritersOf(Finish(ws, ok, record)) == ws
    ensures LoggedOnes(Finish(ws, ok, record)) == if record.Some? then ws else []
    ensures SuccessfulOnes(Finish(ws, ok, record)) == if ok then ws else []
  {
    if ws != [] {
      var front, last := ws[..|ws| - 1], ws[|ws| - 1];
      var place := if record.Some? then Some(Place(record.value, |OpsOf(front)|)) else None;
      FinishedGroup(front, ok, record);
      OneMoreDone(Finish(front, ok, record), Done(last, ok, place, true));
      FrontOrNothing(ws, true);
      FrontOrNothing(ws, ok);
      FrontOrNothing(ws, record.Some?);
    }
  }

  lemma FrontOrNothing(ws: seq<Writer>, all: bool)
    requires ws != []
    ensures (if all then ws[..|ws| - 1] else []) + (if all then [ws[|ws| - 1]] else []) == if all then ws else []
  {
  }

  /** Inside the group's record every batch occupies its own stretch. */
  lemma {:induction false} GroupPlaces(ws: seq<Writer>, ok: bool, record: nat, ops: seq<Op>, d: Done)
    requires OpsOf(ws) <= ops && d in Finish(ws, ok, Some(record))
    ensures d.ok == ok && d.grouped && d.writer in ws && d.place.Some? && d.place.value.record == record
    ensures var at := d.place.value.offset; var n := |BatchOf(d.writer)|;
            at + n <= |ops| && ops[at..at + n] == BatchOf(d.writer)
  {
    var front, last := ws[..|ws| - 1], ws[|ws| - 1];
    if d in Finish(front, ok, Some(record)) {
      GroupPlaces(front, ok, record, ops, d);
    } else {
      var at := |OpsOf(front)|;
      assert ops[at..at + |BatchOf(last)|] == OpsOf(ws)[at..at + |BatchOf(last)|];
    }
  }

  lemma {:induction false} UnplacedGroup(ws: seq<Writer>, ok: bool, d: Done)
    requires d in Finish(ws, ok, None)
    ensures d.ok == ok && d.writer in ws && d.place == None
  {
    var front := ws[..|ws| - 1];
    if d in Finish(front, ok, None) {
      UnplacedGroup(front, ok, d);
    }
  }

  lemma AppendRecord(rs: seq<Record>, r: Record)
    ensures OpsIn(rs + [r]) == OpsIn(rs) + r.ops
    ensures StampAll(rs + [r]) == StampAll(rs) + StampOps(r.first, r.ops)
  {
    assert (rs + [r])[..|rs|] == rs;
  }

  lemma AppendRange(rs: seq<Record>, r: Record)
    requires RangesOk(rs, r.first) && r.first >= 1
    ensures RangesOk(rs + [r], r.Next())
  {
    forall i: nat, j: nat | i < j < |rs + [r]|
      ensures Before(rs + [r], i, j)
    {
      assert rs[i] in rs;
      assert j < |rs| ==> Before(rs, i, j);
    }
  }

  lemma PlacesGrow(ds: seq<Done>, log: seq<Record>, synced: nat, applied: seq<Record>, log': seq<Record>, synced': nat, applied': seq<Record>)
    requires forall d | d in ds :: PlaceOk(d, log, synced, applied)
    requires log <= log' && synced <= synced' && applied <= applied'
    ensures forall d | d in ds :: PlaceOk(d, log', synced', applied')
  {
    forall d | d in ds
      ensures PlaceOk(d, log', synced', applied')
    {
      assert PlaceOk(d, log, synced, applied);
    }
  }

  // ---------------------------------------------------------------- steps

  /** A step that only touches the group keeps what the invariant says of everything else. */
  lemma OnlyTheGroup(q: Queue, q': Queue)
    requires Inv(q) && GroupOk(q') && MemTableOk(q') && PendingOps(q') == PendingOps(q)
    requires q' == q.(group := q'.group, memtable := q'.memtable)
    ensures Inv(q')
  {
    assert OrderOk(q') && LogOk(q') && AppliedOk(q') && PlacesOk(q') && ExposedOk(q') && CountsOk(q');
  }

  lemma ArriveKeepsGroup(q: Queue, w: Writer)
    requires GroupOk(q)
    ensures GroupOk(Apply(q, Arrive(w)))
  {
    if q.group.Some? {
      assert (q.waiting + [w])[..q.group.value.count] == q.waiting[..q.group.value.count];
    }
  }

  lemma ArriveKeepsInv(q: Queue, w: Writer)
    requires Inv(q)
    ensures Inv(Apply(q, Arrive(w)))
  {
    var q' := Apply(q, Arrive(w));
    ArriveKeepsGroup(q, w);
    Associative(WritersOf(q.finished), q.waiting, [w]);
    assert PartlyInserted(q') == PartlyInserted(q) && PendingOps(q') == PendingOps(q);
    assert OrderOk(q') && LogOk(q') && AppliedOk(q') && MemTableOk(q') && PlacesOk(q') && ExposedOk(q') && CountsOk(q');
  }

  /** The queue after its front writer left it alone. */
  function Left(q: Queue, ok: bool): Queue
    requires q.waiting != []
  {
    q.(waiting := q.waiting[1..], finished := q.finished + [Done(q.waiting[0], ok, None, false)],
       switches := q.switches + if ok then 1 else 0)
  }

  lemma LeaveAlone(q: Queue, ok: bool)
    requires Inv(q) && q.waiting != [] && q.group == None && (ok ==> q.waiting[0].batch == None)
    ensures Inv(Left(q, ok))
  {
    var d := Done(q.waiting[0], ok, None, false);
    var q' := Left(q, ok);
    LeaveLists(q.finished, d);
    LeaveKeepsOrder(q, d);
    LeaveKeepsPlaces(q, d);
    LeaveKeepsCounts(q, ok);
    assert GroupOk(q') && LogOk(q') && AppliedOk(q') && MemTableOk(q') && ExposedOk(q');
  }

  lemma LeaveKeepsCounts(q: Queue, ok: bool)
    requires CountsOk(q) && q.waiting != [] && (ok ==> q.waiting[0].batch == None)
    ensures CountsOk(Left(q, ok))
  {
    var d := Done(q.waiting[0], ok, None, false);
    LeaveLists(q.finished, d);
    CountOneMore(q.finished, d);
    WithNothing(LostOnes(q.finished));
  }

  lemma LeaveKeepsOrder(q: Queue, d: Done)
    requires OrderOk(q) && q.waiting != [] && d.writer == q.waiting[0]
    ensures q.arrived == WritersOf(q.finished + [d]) + q.waiting[1..]
  {
    OneMoreDone(q.finished, d);
    SplitAt(q.waiting, 1);
    Associative(WritersOf(q.finished), [d.writer], q.waiting[1..]);
    assert q.waiting[..1] == [d.writer];
  }

  lemma LeaveKeepsPlaces(q: Queue, d: Done)
    requires PlacesOk(q) && d.place == None && (d.ok ==> d.writer.batch == None)
    ensures PlacesOk(q.(waiting := q.waiting, finished := q.finished + [d]))
  {
    assert forall x | x in q.finished + [d] :: x in q.finished || x == d;
  }

  lemma LeaveLists(ds: seq<Done>, d: Done)
    requires d.place == None && (d.ok ==> d.writer.batch == None)
    ensures WritersOf(ds + [d]) == WritersOf(ds) + [d.writer]
    ensures LoggedOnes(ds + [d]) == LoggedOnes(ds)
    ensures OpsOf(SuccessfulOnes(ds + [d])) == OpsOf(SuccessfulOnes(ds))
  {
    assert (ds + [d])[..|ds|] == ds;
    assert LoggedOnes(ds) + [] == LoggedOnes(ds) && SuccessfulOnes(ds) + [] == SuccessfulOnes(ds);
    if d.ok {
      var all := SuccessfulOnes(ds) + [d.writer];
      assert all[..|all| - 1] == SuccessfulOnes(ds);
      assert OpsOf(SuccessfulOnes(ds)) + [] == OpsOf(SuccessfulOnes(ds));
    }
  }

  lemma BuildKeepsInv(q: Queue, n: nat)
    requires Inv(q) && Enabled(q, Build(n))
    ensures Inv(Apply(q, Build(n)))
  {
    forall i | 0 <= i < n && q.waiting[i].sync
      ensures q.waiting[0].sync
    {
      if i > 0 {
        assert MayJoin(q.waiting, i);
      }
    }
    OnlyTheGroup(q, Apply(q, Build(n)));
  }

  lemma AddRecordKeepsInv(q: Queue, ok: bool)
    requires Inv(q) && Enabled(q, AddRecord(ok))
    ensures Inv(Apply(q, AddRecord(ok)))
  {
    var q', g := Apply(q, AddRecord(ok)), q.group.value;
    assert PartlyInserted(q') == PartlyInserted(q);
    if ok {
      AddRecordKeepsLog(q);
      NewRecordApart(q.log, Record(g.first, g.ops), q.exposed, q.lastSequence);
      PlacesGrow(q.finished, q.log, q.synced, q.applied, q.log + [Record(g.first, g.ops)], q.synced, q.applied);
    } else {
      assert PendingOps(q') == PendingOps(q);
    }
  }

  lemma AddRecordKeepsLog(q: Queue)
    requires GroupOk(q) && LogOk(q) && Enabled(q, AddRecord(true))
    ensures LogOk(Apply(q, AddRecord(true)))
  {
    hide OpsOf, LoggedOnes, OpsIn, RangesOk;
    LogExtends(q.log, OpsOf(LoggedOnes(q.finished)), Record(q.group.value.first, q.group.value.ops));
  }

  lemma LogExtends(log: seq<Record>, logged: seq<Op>, r: Record)
    requires OpsIn(log) == logged + [] && RangesOk(log, r.first) && r.first >= 1
    ensures OpsIn(log + [r]) == logged + r.ops && RangesOk(log + [r], r.Next())
  {
    AppendRecord(log, r);
    AppendRange(log, r);
    WithNothing(logged);
  }

  lemma NewRecordApart(log: seq<Record>, r: Record, exposed: set<nat>, last: nat)
    requires r.first == last + 1 && forall s | s in exposed :: s <= last
    requires forall s, x | s in exposed && x in log :: Apart(s, x)
    ensures forall s, x | s in exposed && x in log + [r] :: Apart(s, x)
    ensures forall x | x in log :: x in log + [r]
  {
  }

  lemma WithNothing<T>(s: seq<T>)
    ensures s + [] == s
  {
  }

  lemma SyncKeepsInv(q: Queue, ok: bool)
    requires Inv(q) && Enabled(q, Sync(ok))
    ensures Inv(Apply(q, Sync(ok)))
  {
    hide PlaceOk, Apart, OpsOf, LoggedOnes, SuccessfulOnes, RangesOk;
    var q' := Apply(q, Sync(ok));
    assert PartlyInserted(q') == PartlyInserted(q) && PendingOps(q') == PendingOps(q);
    PlacesGrow(q.finished, q.log, q.synced, q.applied, q.log, if ok then |q.log| else q.synced, q.applied);
  }

  lemma InsertKeepsGroup(q: Queue)
    requires GroupOk(q) && Enabled(q, InsertNext)
    ensures GroupOk(Apply(q, InsertNext))
  {
  }

  lemma InsertKeepsMemTable(q: Queue)
    requires GroupOk(q) && MemTableOk(q) && Enabled(q, InsertNext)
    ensures MemTableOk(Apply(q, InsertNext))
  {
    var g := q.group.value;
    InsertStamped(q.memtable, StampAll(q.applied), g.first, g.ops, g.inserted);
  }

  lemma InsertStamped(memtable: seq<Stamped>, front: seq<Stamped>, first: nat, ops: seq<Op>, n: nat)
    requires n < |ops| && memtable == front + StampOps(first, ops)[..n]
    ensures memtable + [Stamped(first + n, ops[n])] == front + StampOps(first, ops)[..n + 1]
  {
    OneMoreInserted(first, ops, n);
    Associative(front, StampOps(first, ops)[..n], [Stamped(first + n, ops[n])]);
  }

  lemma InsertKeepsInv(q: Queue)
    requires Inv(q) && Enabled(q, InsertNext)
    ensures Inv(Apply(q, InsertNext))
  {
    InsertKeepsGroup(q);
    InsertKeepsMemTable(q);
    OnlyTheGroup(q, Apply(q, InsertNext));
  }

  lemma OneMoreInserted(first: nat, ops: seq<Op>, n: nat)
    requires n < |ops|
    ensures StampOps(first, ops)[..n + 1] == StampOps(first, ops)[..n] + [Stamped(first + n, ops[n])]
  {
  }

  lemma CommitKeepsOrder(q: Queue)
    requires GroupOk(q) && OrderOk(q) && Enabled(q, Commit)
    ensures OrderOk(AfterCommit(q))
  {
    var g := q.group.value;
    var ws := q.waiting[..g.count];
    FinishedConcat(q.finished, Finish(ws, Succeeded(g), RecordOf(g, q.log)));
    FinishedGroup(ws, Succeeded(g), RecordOf(g, q.log));
    Associative(WritersOf(q.finished), ws, q.waiting[g.count..]);
    SplitAt(q.waiting, g.count);
  }

  /** What finishing a group adds to the logged and to the successful batches. */
  lemma FinishedOps(ds: seq<Done>, ws: seq<Writer>, ok: bool, record: Option<nat>)
    ensures OpsOf(LoggedOnes(ds + Finish(ws, ok, record)))
         == OpsOf(LoggedOnes(ds)) + if record.Some? then OpsOf(ws) else []
    ensures OpsOf(SuccessfulOnes(ds + Finish(ws, ok, record)))
         == OpsOf(SuccessfulOnes(ds)) + if ok then OpsOf(ws) else []
  {
    FinishedConcat(ds, Finish(ws, ok, record));
    FinishedGroup(ws, ok, record);
    OpsOfConcat(LoggedOnes(ds), LoggedOnes(Finish(ws, ok, record)));
    OpsOfConcat(SuccessfulOnes(ds), SuccessfulOnes(Finish(ws, ok, record)));
  }

  lemma RangesGrow(rs: seq<Record>, bound: nat, bound': nat)
    requires RangesOk(rs, bound) && bound <= bound'
    ensures RangesOk(rs, bound')
  {
  }

  lemma CommitKeepsLog(q: Queue)
    requires GroupOk(q) && LogOk(q) && Enabled(q, Commit)
    ensures LogOk(AfterCommit(q))
  {
    var g := q.group.value;
    FinishedOps(q.finished, q.waiting[..g.count], Succeeded(g), RecordOf(g, q.log));
    RangesGrow(q.log, q.lastSequence + 1 + |PendingOps(q)|, q.lastSequence + |g.ops| + 1);
    WithNothing(OpsOf(LoggedOnes(q.finished)) + PendingOps(q));
    assert RecordOf(g, q.log).Some? <==> InLog(g);
  }

  lemma CommitKeepsApplied(q: Queue)
    requires GroupOk(q) && LogOk(q) && AppliedOk(q) && Enabled(q, Commit)
    ensures AppliedOk(AfterCommit(q))
  {
    var g := q.group.value;
    var r := Record(g.first, g.ops);
    FinishedOps(q.finished, q.waiting[..g.count], Succeeded(g), RecordOf(g, q.log));
    if Succeeded(g) {
      AppendRecord(q.applied, r);
      AppendRange(q.applied, r);
    } else {
      RangesGrow(q.applied, q.lastSequence + 1, q.lastSequence + |g.ops| + 1);
      WithNothing(OpsOf(SuccessfulOnes(q.finished)));
    }
  }

  lemma CommitKeepsPlaces(q: Queue)
    requires Inv(q) && Enabled(q, Commit)
    ensures PlacesOk(AfterCommit(q))
  {
    var g := q.group.value;
    var ws := q.waiting[..g.count];
    var applied' := AfterCommit(q).applied;
    PlacesGrow(q.finished, q.log, q.synced, q.applied, q.log, q.synced, applied');
    forall d | d in Finish(ws, Succeeded(g), RecordOf(g, q.log))
      ensures PlaceOk(d, q.log, q.synced, applied')
    {
      FinishedPlaceOk(q, d);
    }
  }

  lemma FinishedPlaceOk(q: Queue, d: Done)
    requires GroupOk(q) && Enabled(q, Commit)
    requires d in Finish(q.waiting[..q.group.value.count], Succeeded(q.group.value), RecordOf(q.group.value, q.log))
    ensures PlaceOk(d, q.log, q.synced, AfterCommit(q).applied)
  {
    var g := q.group.value;
    if InLog(g) {
      GroupPlaces(q.waiting[..g.count], Succeeded(g), |q.log| - 1, g.ops, d);
    } else {
      UnplacedGroup(q.waiting[..g.count], Succeeded(g), d);
    }
  }

  lemma CommitKeepsMemTable(q: Queue)
    requires GroupOk(q) && Enabled(q, Commit) && MemTableOk(q)
    ensures MemTableOk(AfterCommit(q))
  {
    var g := q.group.value;
    if Succeeded(g) {
      WholeGroupStamped(q.memtable, q.applied, g.first, g.ops);
    } else {
      assert g.inserted == 0;
      WholeOrNone(StampOps(g.first, g.ops));
    }
  }

  lemma WholeGroupStamped(memtable: seq<Stamped>, applied: seq<Record>, first: nat, ops: seq<Op>)
    requires memtable == StampAll(applied) + StampOps(first, ops)[..|ops|]
    ensures memtable == StampAll(applied + [Record(first, ops)]) + []
  {
    WholeOrNone(StampOps(first, ops));
    AppendRecord(applied, Record(first, ops));
    WithNothing(StampAll(applied + [Record(first, ops)]));
  }

  lemma WholeOrNone<T>(s: seq<T>)
    ensures s[..|s|] == s && s[..0] == []
  {
  }

  lemma CommitKeepsCounts(q: Queue)
    requires GroupOk(q) && CountsOk(q) && Enabled(q, Commit)
    ensures CountsOk(AfterCommit(q))
  {
    var g := q.group.value;
    var ws, ok, record := q.waiting[..g.count], Succeeded(g), RecordOf(g, q.log);
    FinishedOps(q.finished, ws, ok, record);
    CountsConcat(q.finished, Finish(ws, ok, record));
    CountGroup(ws, ok, record);
    OpsOfConcat(LostOnes(q.finished), if ok then [] else ws);
  }

  lemma CommitKeepsExposed(q: Queue)
    requires ExposedOk(q) && Enabled(q, Commit) && q.group.value.count <= |q.waiting|
    ensures ExposedOk(AfterCommit(q))
  {
    var q' := AfterCommit(q);
    assert q'.log == q.log && q'.exposed == q.exposed;
  }

  lemma CommitKeepsInv(q: Queue)
    requires Inv(q) && Enabled(q, Commit)
    ensures Inv(AfterCommit(q))
  {
    CommitKeepsOrder(q);
    CommitKeepsLog(q);
    CommitKeepsApplied(q);
    CommitKeepsPlaces(q);
    CommitKeepsMemTable(q);
    CommitKeepsExposed(q);
    CommitKeepsCounts(q);
    assert GroupOk(AfterCommit(q));
  }

  lemma LastSequenceApart(q: Queue, r: Record)
    requires GroupOk(q) && LogOk(q) && r in q.log
    ensures Apart(q.lastSequence, r)
  {
    if q.group.Some? && InLog(q.group.value) {
      var i: nat :| i < |q.log| && q.log[i] == r;
      assert Before(q.log, i, |q.log| - 1);
    }
  }

  lemma SnapshotApart(q: Queue, q': Queue)
    requires ExposedOk(q) && q' == q.(exposed := q.exposed + {q.lastSequence})
    requires forall r | r in q.log :: Apart(q.lastSequence, r)
    ensures ExposedOk(q')
  {
  }

  lemma SameButExposed(q: Queue, q': Queue)
    requires Inv(q) && q' == q.(exposed := q'.exposed) && ExposedOk(q')
    ensures Inv(q')
  {
    assert GroupOk(q') && OrderOk(q') && LogOk(q') && AppliedOk(q') && MemTableOk(q') && PlacesOk(q') && CountsOk(q');
  }

  lemma SnapshotKeepsInv(q: Queue)
    requires Inv(q)
    ensures Inv(Apply(q, TakeSnapshot))
  {
    forall r | r in q.log
      ensures Apart(q.lastSequence, r)
    {
      LastSequenceApart(q, r);
    }
    var q' := Apply(q, TakeSnapshot);
    assert ExposedOk(q') by {
      SnapshotApart(q, q');
    }
    SameButExposed(q, q');
  }

  lemma StepKeepsInv(q: Queue, step: Step)
    requires Inv(q) && Enabled(q, step)
    ensures Inv(Apply(q, step))
  {
    hide GroupOk, OrderOk, LogOk, AppliedOk, MemTableOk, PlacesOk, ExposedOk, CountsOk, OpsOf;
    match step
    case Arrive(w) => ArriveKeepsInv(q, w);
    case FailAtFront => LeaveAlone(q, false);
    case PassNull => LeaveAlone(q, true);
    case Build(n) => BuildKeepsInv(q, n);
    case AddRecord(ok) => AddRecordKeepsInv(q, ok);
    case Sync(ok) => SyncKeepsInv(q, ok);
    case InsertNext => InsertKeepsInv(q);
    case Commit => CommitKeepsInv(q);
    case TakeSnapshot => SnapshotKeepsInv(q);
  }

  // ---------------------------------------------------------------- runs

  lemma EmptyIsOk()
    ensures Inv(EMPTY)
  {
    assert OpsOf([]) == [] && OpsIn([]) == [] && StampAll([]) == [];
  }

  ghost predicate IsRunOf(qs: seq<Queue>, steps: seq<Step>) {
    && |qs| == |steps| + 1 && qs[0] == EMPTY
    && forall i | 0 <= i < |steps| :: Enabled(qs[i], steps[i]) && qs[i + 1] == Apply(qs[i], steps[i])
  }

  lemma {:induction false} RunKeepsInv(qs: seq<Queue>, steps: seq<Step>, i: nat)
    requires IsRunOf(qs, steps) && i < |qs|
    ensures Inv(qs[i])
  {
    if i == 0 {
      EmptyIsOk();
    } else {
      RunKeepsInv(qs, steps, i - 1);
      StepKeepsInv(qs[i - 1], steps[i - 1]);
    }
  }

  /** Until it commits, a group stays the front of the queue whoever arrives: only the front writer logs and inserts. */
  lemma GroupStaysAtFront(q: Queue, step: Step)
    requires GroupOk(q) && Enabled(q, step) && q.group.Some? && step != Commit
    ensures var q' := Apply(q, step);
            && q'.group.Some? && q'.group.value.count == q.group.value.count
            && q'.waiting[..q'.group.value.count] == q.waiting[..q.group.value.count]
            && q'.group.value.ops == q.group.value.ops && q'.group.value.first == q.group.value.first
            && q'.lastSequence == q.lastSequence
  {
    hide OpsOf, AfterCommit, IsGroup;
    if step.Arrive? {
      assert (q.waiting + [step.writer])[..q.group.value.count] == q.waiting[..q.group.value.count];
    }
  }

  /**
    In every reachable state: no arrival is lost, repeated or overtaken; the log is the logged batches
    and the memtable the successful ones, each exactly once and in queue order.
  */
  lemma EveryBatchOnceInOrder(qs: seq<Queue>, steps: seq<Step>, i: nat)
    requires IsRunOf(qs, steps) && i < |qs|
    ensures var q := qs[i];
            && WritersOf(q.finished) + q.waiting == q.arrived
            && OpsIn(q.log) == OpsOf(LoggedOnes(q.finished)) + PendingOps(q)
            && OpsIn(q.applied) == OpsOf(SuccessfulOnes(q.finished))
            && (q.group == None ==> q.memtable == StampAll(q.applied))
  {
    RunKeepsInv(qs, steps, i);
    assert StampAll(qs[i].applied) + [] == StampAll(qs[i].applied);
  }

  /** A batch occupies one contiguous stretch of sequence numbers that no snapshot ever taken cuts in two. */
  lemma SnapshotsSeeWholeBatches(qs: seq<Queue>, steps: seq<Step>, i: nat, d: Done, s: nat)
    requires IsRunOf(qs, steps) && i < |qs|
    requires d in qs[i].finished && d.place.Some? && s in qs[i].exposed
    ensures var p := d.place.value;
            && p.record < |qs[i].log|
            && (var first := qs[i].log[p.record].first + p.offset;
                s < first || first + |BatchOf(d.writer)| <= s + 1)
  {
    RunKeepsInv(qs, steps, i);
    assert PlaceOk(d, qs[i].log, qs[i].synced, qs[i].applied);
    assert qs[i].log[d.place.value.record] in qs[i].log;
    assert Apart(s, qs[i].log[d.place.value.record]);
  }

  /** What a reader at the last sequence can see of the memtable are exactly the applied groups, never the one being inserted. */
  lemma UnfinishedGroupIsInvisible(qs: seq<Queue>, steps: seq<Step>, i: nat, e: Stamped)
    requires IsRunOf(qs, steps) && i < |qs| && e in qs[i].memtable
    ensures e.sequence <= qs[i].lastSequence <==> e in StampAll(qs[i].applied)
  {
    RunKeepsInv(qs, steps, i);
    var q := qs[i];
    if e in StampAll(q.applied) {
      AppliedIsVisible(q.applied, q.lastSequence + 1, e);
    }
    if e in PartlyInserted(q) {
      assert e.sequence >= q.group.value.first;
    }
  }

  lemma {:induction false} AppliedIsVisible(rs: seq<Record>, bound: nat, e: Stamped)
    requires (forall r | r in rs :: r.Next() <= bound) && e in StampAll(rs)
    ensures e.sequence < bound
  {
    var front, last := rs[..|rs| - 1], rs[|rs| - 1];
    assert last in rs;
    if e in StampAll(front) {
      assert forall r | r in front :: r in rs;
      AppliedIsVisible(front, bound, e);
    }
  }

  /** A write that asked for it and succeeded is in the synced part of the log. */
  lemma SuccessfulSyncIsDurable(qs: seq<Queue>, steps: seq<Step>, i: nat, d: Done)
    requires IsRunOf(qs, steps) && i < |qs|
    requires d in qs[i].finished && d.ok && d.writer.sync && d.writer.batch.Some?
    ensures d.place.Some? && d.place.value.record < qs[i].synced
  {
    RunKeepsInv(qs, steps, i);
    assert PlaceOk(d, qs[i].log, qs[i].synced, qs[i].applied);
  }

  // ---------------------------------------------------------------- numbers used up, memtables not switched

  /**
    In every reachable state the last sequence number counts the applied operations plus those of the groups
    that failed: every number up to it belongs to an applied operation exactly if no failed group had any.
  */
  lemma SequencesUsedUp(qs: seq<Queue>, steps: seq<Step>, i: nat)
    requires IsRunOf(qs, steps) && i < |qs|
    ensures var q := qs[i];
            && q.lastSequence == |OpsIn(q.applied)| + |OpsOf(LostOnes(q.finished))|
            && (q.lastSequence == |OpsIn(q.applied)| <==> OpsOf(LostOnes(q.finished)) == [])
  {
    RunKeepsInv(qs, steps, i);
  }

  ghost predicate Takes(q: Queue, step: Step, q': Queue) {
    Enabled(q, step) && q' == Apply(q, step)
  }

  predicate Idle(q: Queue) {
    q.group == None && q.waiting == [] && !q.bgError
  }

  lemma ArriveAndBuild(q: Queue, w: Writer, op: Op) returns (q1: Queue, q2: Queue)
    requires Idle(q) && w.batch == Some([op]) && !w.sync
    ensures Takes(q, Arrive(w), q1) && Takes(q1, Build(1), q2)
    ensures q2 == q.(arrived := q.arrived + [w], waiting := [w],
                     group := Some(Group(1, [op], q.lastSequence + 1, false, Built, 0)))
  {
    q1 := q.(arrived := q.arrived + [w], waiting := [w]);
    assert OpsOf([]) == [] && [w][..1] == [w];
    assert OpsOf([w]) == [op] by {
      OneMoreWriter([w], 0);
    }
    q2 := q1.(group := Some(Group(1, [op], q.lastSequence + 1, false, Built, 0)));
  }

  lemma FinishOne(w: Writer, ok: bool, record: Option<nat>)
    ensures Finish([w], ok, record) == [Done(w, ok, if record.Some? then Some(Place(record.value, 0)) else None, true)]
    ensures [w][..1] == [w] && [w][1..] == []
  {
    assert [w][..0] == [] && OpsOf([]) == [];
  }

  /** A write of one operation whose log write fails. */
  lemma FailingWrite(q: Queue, w: Writer, op: Op) returns (q1: Queue, q2: Queue, q3: Queue, q4: Queue)
    requires Idle(q) && w.batch == Some([op]) && !w.sync
    ensures Takes(q, Arrive(w), q1) && Takes(q1, Build(1), q2) && Takes(q2, AddRecord(false), q3) && Takes(q3, Commit, q4)
    ensures Idle(q4) && q4.lastSequence == q.lastSequence + 1 && q4.memtable == q.memtable
  {
    q1, q2 := ArriveAndBuild(q, w, op);
    q3 := Apply(q2, AddRecord(false));
    FinishOne(w, false, None);
    q4 := AfterCommit(q3);
  }

  /** A write of one operation that goes well. */
  lemma GoodWrite(q: Queue, w: Writer, op: Op) returns (q1: Queue, q2: Queue, q3: Queue, q4: Queue, q5: Queue)
    requires Idle(q) && w.batch == Some([op]) && !w.sync
    ensures Takes(q, Arrive(w), q1) && Takes(q1, Build(1), q2) && Takes(q2, AddRecord(true), q3)
    ensures Takes(q3, InsertNext, q4) && Takes(q4, Commit, q5)
    ensures q5.lastSequence == q.lastSequence + 1 && q5.memtable == q.memtable + [Stamped(q.lastSequence + 1, op)]
  {
    q1, q2 := ArriveAndBuild(q, w, op);
    q3 := Apply(q2, AddRecord(true));
    q4 := Apply(q3, InsertNext);
    q5 := AfterCommit(q4);
  }

  lemma OneMoreStep(qs: seq<Queue>, steps: seq<Step>, step: Step, q: Queue) returns (qs': seq<Queue>, steps': seq<Step>)
    requires IsRunOf(qs, steps) && Takes(qs[|steps|], step, q)
    ensures steps' == steps + [step] && IsRunOf(qs', steps') && qs'[|steps'|] == q
  {
    qs', steps' := qs + [q], steps + [step];
    forall i | 0 <= i < |steps'|
      ensures Takes(qs'[i], steps'[i], qs'[i + 1])
    {
      if i < |steps| {
        assert qs'[i] == qs[i] && qs'[i + 1] == qs[i + 1] && steps'[i] == steps[i];
      }
    }
  }

  /** A log write that fails leaves a gap: the operation of the next write, the only one applied, has number 2. */
  lemma FailedRecordUsesNumbers(op: Op) returns (qs: seq<Queue>, steps: seq<Step>)
    ensures IsRunOf(qs, steps) && steps != []
    ensures qs[|steps|].memtable == [Stamped(2, op)] && qs[|steps|].lastSequence == 2
  {
    var w := Writer(Some([op]), 1, false);
    qs, steps := [EMPTY], [];
    var q1, q2, q3, q4 := FailingWrite(EMPTY, w, op);
    var q5, q6, q7, q8, q9 := GoodWrite(q4, w, op);
    qs, steps := OneMoreStep(qs, steps, Arrive(w), q1);
    qs, steps := OneMoreStep(qs, steps, Build(1), q2);
    qs, steps := OneMoreStep(qs, steps, AddRecord(false), q3);
    qs, steps := OneMoreStep(qs, steps, Commit, q4);
    qs, steps := OneMoreStep(qs, steps, Arrive(w), q5);
    qs, steps := OneMoreStep(qs, steps, Build(1), q6);
    qs, steps := OneMoreStep(qs, steps, AddRecord(true), q7);
    qs, steps := OneMoreStep(qs, steps, InsertNext, q8);
    qs, steps := OneMoreStep(qs, steps, Commit, q9);
  }

  /** A writer without a batch that a group absorbs returns successfully without any memtable having been switched. */
  lemma AbsorbedWriterForcesNoSwitch(op: Op) returns (qs: seq<Queue>, steps: seq<Step>, d: Done)
    ensures IsRunOf(qs, steps) && d.writer.batch == None && d.ok
    ensures d in qs[|steps|].finished && qs[|steps|].switches == 0
  {
    var w, v := Writer(Some([op]), 1, false), Writer(None, 0, false);
    qs, steps := [EMPTY], [];
    var q1, q2, q3 := ArriveAndBuildTwo(w, v, op);
    var q4, q5, q6 := FinishTwo(q3, w, v, op);
    qs, steps := OneMoreStep(qs, steps, Arrive(w), q1);
    qs, steps := OneMoreStep(qs, steps, Arrive(v), q2);
    qs, steps := OneMoreStep(qs, steps, Build(2), q3);
    qs, steps := OneMoreStep(qs, steps, AddRecord(true), q4);
    qs, steps := OneMoreStep(qs, steps, InsertNext, q5);
    qs, steps := OneMoreStep(qs, steps, Commit, q6);
    d := q6.finished[1];
  }

  lemma ArriveAndBuildTwo(w: Writer, v: Writer, op: Op) returns (q1: Queue, q2: Queue, q3: Queue)
    requires w.batch == Some([op]) && !w.sync && v.batch == None && !v.sync
    ensures Takes(EMPTY, Arrive(w), q1) && Takes(q1, Arrive(v), q2) && Takes(q2, Build(2), q3)
    ensures q3 == EMPTY.(arrived := [w, v], waiting := [w, v], group := Some(Group(2, [op], 1, false, Built, 0)))
  {
    q1 := EMPTY.(arrived := [w], waiting := [w]);
    q2 := EMPTY.(arrived := [w, v], waiting := [w, v]);
    assert [w] + [v] == [w, v];
    GroupOfTwo(w, v, op);
    q3 := q2.(group := Some(Group(2, [op], 1, false, Built, 0)));
  }

  lemma FinishTwo(q3: Queue, w: Writer, v: Writer, op: Op) returns (q4: Queue, q5: Queue, q6: Queue)
    requires w.batch == Some([op]) && !w.sync && v.batch == None && !v.sync
    requires q3 == EMPTY.(arrived := [w, v], waiting := [w, v], group := Some(Group(2, [op], 1, false, Built, 0)))
    ensures Takes(q3, AddRecord(true), q4) && Takes(q4, InsertNext, q5) && Takes(q5, Commit, q6)
    ensures |q6.finished| == 2 && q6.finished[1] == Done(v, true, Some(Place(0, 1)), true) && q6.switches == 0
  {
    q4 := Apply(q3, AddRecord(true));
    q5 := Apply(q4, InsertNext);
    GroupOfTwo(w, v, op);
    q6 := AfterCommit(q5);
  }

  lemma GroupOfTwo(w: Writer, v: Writer, op: Op)
    requires w.batch == Some([op]) && v.batch == None && !v.sync
    ensures IsGroup([w, v], 2) && [w, v][..2] == [w, v] && [w, v][2..] == []
    ensures OpsOf([w, v]) == [op]
    ensures Finish([w, v], true, Some(0)) == [Done(w, true, Some(Place(0, 0)), true), Done(v, true, Some(Place(0, 1)), true)]
  {
    assert [w, v][..1] == [w] && [w][..0] == [] && OpsOf([]) == [];
    OneMoreWriter([w, v], 0);
    OneMoreWriter([w, v], 1);
    FinishOne(w, true, Some(0));
  }

  /**
    A writer without a batch asks for a fresh memtable. In every reachable state there was one switch for each
    that reached the front itself, so all of them got one exactly if no group absorbed any.
  */
  lemma SwitchesForced(qs: seq<Queue>, steps: seq<Step>, i: nat)
    requires IsRunOf(qs, steps) && i < |qs|
    ensures qs[i].switches == |ForcedOnes(qs[i].finished)|
    ensures qs[i].switches == |PassedNulls(qs[i].finished)| <==>
              forall d | d in qs[i].finished && d.ok && d.writer.batch == None :: !d.grouped
  {
    RunKeepsInv(qs, steps, i);
    forall d | d in qs[i].finished && d.ok && !d.grouped
      ensures d.writer.batch == None
    {
      assert PlaceOk(d, qs[i].log, qs[i].synced, qs[i].applied);
    }
    ForcedAmongNulls(qs[i].finished);
  }

  /** The writers without a batch that returned successfully. */
  function PassedNulls(ds: seq<Done>): seq<Writer> {
    if ds == [] then []
    else PassedNulls(ds[..|ds| - 1])
         + if ds[|ds| - 1].ok && ds[|ds| - 1].writer.batch == None then [ds[|ds| - 1].writer] else []
  }

  lemma {:induction false} ForcedAmongNulls(ds: seq<Done>)
    requires forall d | d in ds && d.ok && !d.grouped :: d.writer.batch == None
    ensures |ForcedOnes(ds)| <= |PassedNulls(ds)|
    ensures |ForcedOnes(ds)| == |PassedNulls(ds)| <==> forall d | d in ds && d.ok && d.writer.batch == None :: !d.grouped
  {
    if ds != [] {
      var front, last := ds[..|ds| - 1], ds[|ds| - 1];
      ForcedAmongNulls(front);
      assert forall d :: d in ds <==> d in front || d == last;
    }
  }
}
