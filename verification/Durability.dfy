/**
  What a crash may take.  Each log loses any suffix of what was not synced (db/db_impl.cc): everything synced
  or flushed stays for good, and nothing else is safe, whatever was written after it.
*/
module Durability {
  import opened Base
  import opened DbFormat
  import opened Reads
  import opened Versions
  import opened Edits
  import opened Engine
  import opened EngineSafety

  /** The entries no crash can take: those in tables and the synced parts of the two logs. */
  ghost function Durable(db: DB): set<Entry>
    requires Split(db) && SyncedOk(db)
  {
    Elems(db.history[..db.flushed + db.syncedOlder]) + Elems(db.history[db.frozen..db.frozen + db.synced])
  }

  lemma LogParts(db: DB)
    requires Inv(db)
    ensures Split(db) && SyncedOk(db) && LogsOk(db)
    ensures db.imm == None ==> db.flushed == db.frozen
  {
  }

  lemma SurvivingElems(h: seq<Entry>, flushed: nat, frozen: nat, kept: nat, survived: nat)
    requires flushed + kept <= frozen && frozen + survived <= |h|
    ensures Elems(SurvivingHistory(h, flushed, frozen, kept, survived))
         == Elems(h[..flushed + kept]) + Elems(h[frozen..frozen + survived])
  {
  }

  lemma SyncedCanSurvive(db: DB)
    requires Inv(db)
    ensures CanSurvive(db, db.syncedOlder, db.synced)
  {
  }

  /** A crash that leaves just the synced parts of the logs can happen, and it leaves just these entries. */
  lemma OnlyDurableIsSafe(db: DB)
    requires Inv(db)
    ensures CanSurvive(db, db.syncedOlder, db.synced)
    ensures Elems(SurvivingHistory(db.history, db.flushed, db.frozen, db.syncedOlder, db.synced)) == Durable(db)
  {
    hide Inv, Elems, SurvivingHistory, CanSurvive, LogsOk;
    SyncedCanSurvive(db);
    LogParts(db);
    SurvivingElems(db.history, db.flushed, db.frozen, db.syncedOlder, db.synced);
  }

  // ---------------------------------------------------------------- durable entries stay

  /** A part of a list holds a part of the entries. */
  lemma PartOf(h: seq<Entry>, a: nat, b: nat, c: nat, d: nat)
    requires c <= a <= b <= d <= |h|
    ensures Elems(h[a..b]) <= Elems(h[c..d])
  {
    forall e | e in h[a..b]
      ensures e in h[c..d]
    {
      var i :| 0 <= i < b - a && h[a..b][i] == e;
      assert h[c..d][a - c + i] == e;
    }
  }

  /** Two neighbouring parts make one. */
  lemma PartsJoin(h: seq<Entry>, a: nat, b: nat)
    requires a <= b <= |h|
    ensures Elems(h[..b]) == Elems(h[..a]) + Elems(h[a..b])
  {
    assert h[..b] == h[..a] + h[a..b];
  }

  /** Growing at the end leaves every part as it was. */
  lemma PartsStay(h: seq<Entry>, es: seq<Entry>, a: nat, b: nat)
    requires a <= b <= |h|
    ensures (h + es)[a..b] == h[a..b] && (h + es)[..b] == h[..b]
  {
  }

  lemma GrowthKeepsDurable(db: DB, es: seq<Entry>, db': DB)
    requires Split(db) && SyncedOk(db) && db'.history == db.history + es
    requires db'.flushed == db.flushed && db'.frozen == db.frozen && db'.synced == db.synced && db'.syncedOlder == db.syncedOlder
    ensures SyncedOk(db') && Durable(db) == Durable(db')
  {
    hide Elems;
    PartsStay(db.history, es, 0, db.flushed + db.syncedOlder);
    PartsStay(db.history, es, db.frozen, db.frozen + db.synced);
  }

  lemma SyncKeepsDurable(db: DB)
    requires Split(db) && SyncedOk(db) && LogsOk(db)
    ensures SyncedOk(AfterSync(db)) && Durable(db) <= Durable(AfterSync(db))
    ensures Elems(db.logs[db.logfileNumber]) <= Durable(AfterSync(db))
  {
    hide Elems;
    PartOf(db.history, db.frozen, db.frozen + db.synced, db.frozen, |db.history|);
    assert db.history[db.frozen..|db.history|] == db.history[db.frozen..];
  }

  lemma SwitchKeepsDurable(db: DB, newLog: nat)
    requires Split(db) && SyncedOk(db) && db.flushed == db.frozen
    ensures SyncedOk(AfterSwitch(db, newLog)) && Durable(db) <= Durable(AfterSwitch(db, newLog))
  {
    hide Elems;
    PartsJoin(db.history, db.frozen, db.frozen + db.synced);
  }

  lemma FlushKeepsDurable(db: DB, db': DB)
    requires Split(db) && SyncedOk(db) && Split(db') && SyncedOk(db')
    requires db'.history == db.history && db'.frozen == db.frozen && db'.synced == db.synced
    requires db'.flushed == db.frozen && db'.syncedOlder == 0
    ensures Durable(db) <= Durable(db')
  {
    hide Elems;
    PartOf(db.history, 0, db.flushed + db.syncedOlder, 0, db.frozen);
  }

  lemma CrashKeepsDurable(db: DB, kept: nat, survived: nat, db': DB)
    requires Split(db) && SyncedOk(db) && Split(db') && SyncedOk(db')
    requires db.flushed + db.syncedOlder <= db.flushed + kept <= db.frozen
    requires db.frozen + db.synced <= db.frozen + survived <= |db.history|
    requires db'.history == SurvivingHistory(db.history, db.flushed, db.frozen, kept, survived) && db'.flushed == |db'.history|
    ensures Durable(db) <= Durable(db')
  {
    hide Elems, SurvivingHistory;
    var h := db.history;
    PartOf(h, 0, db.flushed + db.syncedOlder, 0, db.flushed + kept);
    PartOf(h, db.frozen, db.frozen + db.synced, db.frozen, db.frozen + survived);
    SurvivingElems(h, db.flushed, db.frozen, kept, survived);
    assert h[0..db.flushed + kept] == h[..db.flushed + kept] && h[0..db.flushed + db.syncedOlder] == h[..db.flushed + db.syncedOlder];
    assert db'.history[..db'.flushed + db'.syncedOlder] == db'.history;
  }

  lemma CrashStepKeepsDurable(db: DB, step: Step)
    requires Inv(db) && Enabled(db, step) && step.CrashAndRecover? && Inv(Apply(db, step))
    ensures Durable(db) <= Durable(Apply(db, step))
  {
    hide Inv, Durable;
    LogParts(db);
    LogParts(Apply(db, step));
    SurvivingReplay(db, step.kept, step.survived);
    CrashKeepsDurable(db, step.kept, step.survived, Apply(db, step));
  }

  lemma StepKeepsDurable(db: DB, step: Step)
    requires Inv(db) && Enabled(db, step) && Inv(Apply(db, step))
    ensures Durable(db) <= Durable(Apply(db, step))
  {
    hide Inv, Durable, CanFlush, CanMove, CanRecover, InstallEnabled, Edited, LogsOk, Elems;
    var db' := Apply(db, step);
    LogParts(db);
    LogParts(db');
    match step {
      case Write(ops) => GrowthKeepsDurable(db, Stamp(ops, db.lastSequence + 1), db');
      case SyncLog => SyncKeepsDurable(db);
      case SwitchMemTable(newLog) => SwitchKeepsDurable(db, newLog);
      case FlushEmpty => FlushKeepsDurable(db, db');
      case Flush(level, f, w) => FlushKeepsDurable(db, db');
      case CrashAndRecover(kept, survived, cuts, files, w, newLog) => CrashStepKeepsDurable(db, step);
      case _ => OthersKeepDurable(db, step);
    }
  }

  /** The steps that touch neither the history nor the logs. */
  lemma OthersKeepDurable(db: DB, step: Step)
    requires Split(db) && SyncedOk(db) && Enabled(db, step)
    requires !step.Write? && !step.SyncLog? && !step.SwitchMemTable? && !step.FlushEmpty? && !step.Flush? && !step.CrashAndRecover?
    ensures var db' := Apply(db, step);
            Split(db') && SyncedOk(db') && Durable(db) == Durable(db')
  {
    hide Durable;
    SamePartsSameDurable(db, Apply(db, step));
  }

  lemma SamePartsSameDurable(a: DB, b: DB)
    requires Split(a) && SyncedOk(a) && a.history == b.history && a.flushed == b.flushed && a.frozen == b.frozen
    requires a.synced == b.synced && a.syncedOlder == b.syncedOlder
    ensures Durable(a) == Durable(b)
  {
  }

  lemma {:induction false} DurableStays(dbs: seq<DB>, steps: seq<Step>, j: nat, i: nat)
    requires IsRunOf(dbs, steps) && j <= i < |dbs| && HarmlessUpTo(dbs, steps, i)
    ensures Inv(dbs[j]) && Inv(dbs[i]) && Durable(dbs[j]) <= Durable(dbs[i])
    decreases i - j
  {
    hide Inv, Durable, Enabled, Apply, Harmless;
    RunKeepsInv(dbs, steps, j);
    RunKeepsInv(dbs, steps, i);
    if j < i {
      DurableStays(dbs, steps, j, i - 1);
      assert Enabled(dbs[i - 1], steps[i - 1]) && dbs[i] == Apply(dbs[i - 1], steps[i - 1]);
      StepKeepsDurable(dbs[i - 1], steps[i - 1]);
    }
  }

  lemma DurableIsHistory(db: DB, e: Entry)
    requires Inv(db) && e in Durable(db)
    ensures e in db.history
  {
  }

  /** What is in the history is read, or a later write of its key is. */
  lemma HistoryIsRead(db: DB, e: Entry) returns (d: Entry)
    requires Inv(db) && e in db.history
    ensures d in db.history && d.key.user == e.key.user && d.key.sequence >= e.key.sequence
    ensures Read(Stored(db), e.key.user, db.lastSequence) == Meaning(Some(d))
  {
    var k, s, S := e.key.user, db.lastSequence, Elems(db.history);
    assert e in S && Matches(e, k, s);
    NewestExists(S, k, s, e);
    d :| IsNewest(S, k, s, d);
    HistoryIsUnique(db.history);
    NewestIs(S, k, s, d);
    StoredReadsHistory(db, k, s);
    LookupIsRead(db.history, k, s);
  }

  /**
    A write synced at step `j` is there in every later state of every run whose picks were guarded, whatever
    crashes lie between, and a read of its key gives it or a later write.
  */
  lemma SyncedWriteStays(dbs: seq<DB>, steps: seq<Step>, j: nat, i: nat, e: Entry) returns (d: Entry)
    requires IsRunOf(dbs, steps) && PicksGuarded(dbs, steps) && j < i < |dbs|
    requires steps[j] == SyncLog && dbs[j].logfileNumber in dbs[j].logs && e in dbs[j].logs[dbs[j].logfileNumber]
    ensures e in dbs[i].history
    ensures d in dbs[i].history && d.key.user == e.key.user && d.key.sequence >= e.key.sequence
    ensures Read(Stored(dbs[i]), e.key.user, dbs[i].lastSequence) == Meaning(Some(d))
  {
    hide Inv, Durable, Read, Stored, Harmless, GuardedPick, LogsOk;
    GuardedRunIsHarmless(dbs, steps, i);
    assert Enabled(dbs[j], SyncLog) && dbs[j + 1] == AfterSync(dbs[j]);
    RunKeepsInv(dbs, steps, j);
    LogParts(dbs[j]);
    SyncKeepsDurable(dbs[j]);
    DurableStays(dbs, steps, j + 1, i);
    assert e in Elems(dbs[j].logs[dbs[j].logfileNumber]);
    DurableIsHistory(dbs[i], e);
    d := HistoryIsRead(dbs[i], e);
  }

  // ---------------------------------------------------------------- a later write survives an earlier one

  const FIRST := Entry(InternalKey(1.0, 1, Value), [1])
  const SECOND := Entry(InternalKey(2.0, 2, Value), [1])
  const TABLE := FileMeta(1, 1, SECOND.key, SECOND.key, [SECOND])
  const WITH_TABLE: Version := [[TABLE], [], [], [], [], [], []]

  const STARTED := Created(0)
  const WROTE_FIRST := STARTED.(history := [FIRST], lastSequence := 1, mem := [FIRST], logs := map[0 := [FIRST]])
  const SWITCHED := WROTE_FIRST.(frozen := 1, mem := [], imm := Some([FIRST]), logs := map[0 := [FIRST], 1 := []],
                                 logfileNumber := 1, nextFile := 2)
  const WROTE_SECOND := SWITCHED.(history := [FIRST, SECOND], lastSequence := 2, mem := [SECOND],
                                  logs := map[0 := [FIRST], 1 := [SECOND]])
  const SYNCED_SECOND := WROTE_SECOND.(synced := 1)

  lemma OneWrite(db: DB, op: Op)
    requires CanWrite(db, [op]) && db.mem == []
    ensures var e := Entry(InternalKey(op.key, db.lastSequence + 1, op.kind), op.value);
            AfterWrite(db, [op]) == db.(history := db.history + [e], lastSequence := db.lastSequence + 1, mem := [e],
                                        logs := db.logs[db.logfileNumber := db.logs[db.logfileNumber] + [e]])
  {
    var e := Entry(InternalKey(op.key, db.lastSequence + 1, op.kind), op.value);
    assert [op][1..] == [] && Stamp([], db.lastSequence + 2) == [];
    assert Stamp([op], db.lastSequence + 1) == [e];
    assert [e][1..] == [] && Insert([], e) == [e];
    assert InsertAll(Insert([], e), []) == [e];
  }

  const WRITE_FIRST := Write([Op(1.0, Value, [1])])
  const WRITE_SECOND := Write([Op(2.0, Value, [1])])
  const CRASH := CrashAndRecover(0, 1, [0, 1], [TABLE], WITH_TABLE, 2)

  lemma FirstSteps()
    ensures Enabled(STARTED, WRITE_FIRST) && Apply(STARTED, WRITE_FIRST) == WROTE_FIRST
    ensures Enabled(WROTE_FIRST, SwitchMemTable(1)) && Apply(WROTE_FIRST, SwitchMemTable(1)) == SWITCHED
    ensures Enabled(SWITCHED, WRITE_SECOND) && Apply(SWITCHED, WRITE_SECOND) == WROTE_SECOND
    ensures Enabled(WROTE_SECOND, SyncLog) && Apply(WROTE_SECOND, SyncLog) == SYNCED_SECOND
  {
    OneWrite(STARTED, Op(1.0, Value, [1]));
    OneWrite(SWITCHED, Op(2.0, Value, [1]));
    assert [] + [FIRST] == [FIRST] && [] + [SECOND] == [SECOND] && [FIRST] + [SECOND] == [FIRST, SECOND];
    assert map[0 := [FIRST]][1 := []] == map[0 := [FIRST], 1 := []];
    assert map[0 := [FIRST], 1 := []][1 := [SECOND]] == map[0 := [FIRST], 1 := [SECOND]];
  }

  lemma LogsLeft()
    ensures CanSurvive(SYNCED_SECOND, 0, 1) && SurvivingLogs(SYNCED_SECOND, 0, 1) == map[0 := [], 1 := [SECOND]]
    ensures ReplayFrom(map[0 := [], 1 := [SECOND]], 0, 2) == [SECOND]
    ensures SurvivingHistory([FIRST, SECOND], 0, 1, 0, 1) == [SECOND]
  {
    assert [SECOND][..1] == [SECOND] && [FIRST][..0] == [];
    var logs := map[0 := [], 1 := [SECOND]];
    assert ReplayFrom(logs, 2, 2) == [];
    assert ReplayFrom(logs, 1, 2) == [SECOND];
  }

  lemma CrashEnabled()
    ensures Enabled(SYNCED_SECOND, CRASH) && Apply(SYNCED_SECOND, CRASH).history == [SECOND]
  {
    LogsLeft();
    assert [SECOND][0..1] == [SECOND];
    assert HoldsGroup(TABLE, [SECOND], [0, 1], 0);
    assert (0, TABLE) in Placing(0, [TABLE]) && TABLE in [TABLE];
  }

  lemma OnlySecondIsRead()
    ensures Lookup([SECOND], 1.0, 2) == None && Lookup([SECOND], 2.0, 2) == Some([1])
  {
    assert [SECOND][..0] == [];
  }

  /**
    A run of the store whose crash keeps the second write, which was synced, and loses the first, which was in
    the log closed before it without a sync.
  */
  lemma LaterWriteSurvives() returns (dbs: seq<DB>, steps: seq<Step>)
    ensures IsRunOf(dbs, steps) && |steps| == 5 && steps[4].CrashAndRecover?
    ensures dbs[4].history == [FIRST, SECOND] && dbs[5].history == [SECOND]
    ensures Lookup(dbs[5].history, 1.0, 2) == None && Lookup(dbs[5].history, 2.0, 2) == Some([1])
  {
    FirstSteps();
    CrashEnabled();
    OnlySecondIsRead();
    hide Enabled, Apply, Lookup;
    steps := [WRITE_FIRST, SwitchMemTable(1), WRITE_SECOND, SyncLog, CRASH];
    dbs := [STARTED, WROTE_FIRST, SWITCHED, WROTE_SECOND, SYNCED_SECOND, Apply(SYNCED_SECOND, CRASH)];
    assert dbs[0] == Created(0);
  }
}
