/**
  Replaying the logs that survived a crash into level-0 tables (DBImpl::Recover and RecoverLogFile in
  db/db_impl.cc).
*/
module Recovery {
  import opened Base
  import opened DbFormat
  import opened Reads
  import opened Versions
  import opened Engine

  /** The entries of a memtable as a table file. */
  method BuildTable(es: seq<Entry>, number: nat, fileSize: seq<Entry> -> nat) returns (f: FileMeta)
    requires es != [] && Sorted(es)
    ensures FileOk(f) && f.number == number && f.entries == es
  {
    f := FileMeta(number, fileSize(es), es[0].key, es[|es| - 1].key, es);
  }

  /** Of the entries `read` so far those before the last cut are in tables, the others in `mem`. */
  ghost predicate Recovering(files: Level, read: seq<Entry>, cuts: seq<nat>, first: nat, next: nat, mem: seq<Entry>) {
    && |cuts| >= 1 && cuts[0] == 0 && cuts[|cuts| - 1] <= |read|
    && (forall i, j | 0 <= i < j < |cuts| :: cuts[i] < cuts[j])
    && |files| == |cuts| - 1 && first <= next
    && (forall i: nat | i < |files| :: HoldsGroup(files[i], read, cuts, i) && first <= files[i].number < next)
    && (forall i, j | 0 <= i < j < |files| :: files[i].number < files[j].number)
    && Sorted(mem) && Elems(mem) == Elems(read[cuts[|cuts| - 1]..])
  }

  lemma NothingPending(files: Level, read: seq<Entry>, cuts: seq<nat>, first: nat, next: nat)
    requires Recovering(files, read, cuts, first, next, [])
    ensures cuts[|cuts| - 1] == |read|
    ensures RecoveredFiles(files, read, cuts, first)
    ensures forall f | f in files :: f.number < next
  {
    var left := read[cuts[|cuts| - 1]..];
    if left != [] {
      FirstIsElem(left);
    }
  }

  lemma GroupStays(f: FileMeta, read: seq<Entry>, e: Entry, cuts: seq<nat>, i: nat)
    requires HoldsGroup(f, read, cuts, i)
    ensures HoldsGroup(f, read + [e], cuts, i)
  {
    assert (read + [e])[cuts[i]..cuts[i + 1]] == read[cuts[i]..cuts[i + 1]];
  }

  lemma ElemsAppend(es: seq<Entry>, e: Entry)
    ensures Elems(es + [e]) == Elems(es) + {e}
  {
    forall x | x in Elems(es) + {e}
      ensures x in es + [e]
    {
      if x == e {
        assert (es + [e])[|es|] == e;
      } else {
        var i :| 0 <= i < |es| && es[i] == x;
        assert (es + [e])[i] == x;
      }
    }
  }

  /** One more entry goes into the memtable. */
  lemma TakesEntry(files: Level, read: seq<Entry>, cuts: seq<nat>, first: nat, next: nat, mem: seq<Entry>, e: Entry)
    requires Recovering(files, read, cuts, first, next, mem) && IsHistory(read + [e])
    ensures Recovering(files, read + [e], cuts, first, next, Insert(mem, e))
  {
    var p := cuts[|cuts| - 1];
    forall i: nat | i < |files|
      ensures HoldsGroup(files[i], read + [e], cuts, i)
    {
      GroupStays(files[i], read, e, cuts, i);
    }
    forall x | x in mem
      ensures x.key != e.key
    {
      assert x in Elems(mem);
      var j :| 0 <= j < |read[p..]| && read[p..][j] == x;
      assert (read + [e])[p + j] == x && (read + [e])[|read|] == e;
    }
    InsertKeepsSorted(mem, e);
    ElemsAppend(read[p..], e);
    assert (read + [e])[p..] == read[p..] + [e];
  }

  /** The memtable becomes the next table. */
  lemma CutsTable(files: Level, read: seq<Entry>, cuts: seq<nat>, first: nat, next: nat, mem: seq<Entry>, f: FileMeta)
    requires Recovering(files, read, cuts, first, next, mem) && mem != []
    requires FileOk(f) && f.number == next && f.entries == mem
    ensures Recovering(files + [f], read, cuts + [|read|], first, next + 1, [])
  {
    var p := cuts[|cuts| - 1];
    assert mem[0] in Elems(mem);
    assert read[p..] != [];
    var cuts' := cuts + [|read|];
    forall i: nat | i < |files| + 1
      ensures HoldsGroup((files + [f])[i], read, cuts', i)
    {
      if i < |files| {
        assert HoldsGroup(files[i], read, cuts, i);
        assert cuts'[i] == cuts[i] && cuts'[i + 1] == cuts[i + 1];
      } else {
        assert cuts'[i] == p && cuts'[i + 1] == |read|;
        assert read[p..|read|] == read[p..];
      }
    }
    assert read[|read|..] == [];
  }

  /** What has been read is in tables or in the memtable, and its largest sequence number is known. */
  ghost predicate HaveRead(files: Level, read: seq<Entry>, cuts: seq<nat>, first: nat, next: nat, mem: seq<Entry>,
                           maxSequence: SequenceNumber) {
    Recovering(files, read, cuts, first, next, mem) && maxSequence == MaxSequence(read, 0)
  }

  lemma ReadsEntry(files: Level, read: seq<Entry>, cuts: seq<nat>, first: nat, next: nat, mem: seq<Entry>,
                   maxSequence: SequenceNumber, e: Entry)
    requires HaveRead(files, read, cuts, first, next, mem, maxSequence) && IsHistory(read + [e])
    ensures HaveRead(files, read + [e], cuts, first, next, Insert(mem, e),
                     if e.key.sequence > maxSequence then e.key.sequence else maxSequence)
  {
    TakesEntry(files, read, cuts, first, next, mem, e);
    assert (read + [e])[..|read|] == read;
  }

  lemma NextOfLog(read: seq<Entry>, log: seq<Entry>, i: nat)
    requires i < |log| && IsHistory(read + log)
    ensures read + log[..i + 1] == read + log[..i] + [log[i]]
    ensures IsHistory(read + log[..i] + [log[i]])
  {
    var after := read + log[..i + 1];
    assert after == (read + log)[..|after|];
  }

  lemma WholeLog(read: seq<Entry>, log: seq<Entry>)
    ensures read + log[..0] == read && read + log[..|log|] == read + log
  {
  }

  /**
    Reads one log: its entries are inserted one after the other into a memtable, which becomes a table
    whenever it is full and at the end.
  */
  method RecoverLogFile(log: seq<Entry>, files: Level, number: nat, maxSequence: SequenceNumber,
                        full: seq<Entry> -> bool, fileSize: seq<Entry> -> nat,
                        ghost read: seq<Entry>, ghost cuts: seq<nat>, ghost first: nat)
    returns (files': Level, number': nat, maxSequence': SequenceNumber, ghost cuts': seq<nat>)
    requires HaveRead(files, read, cuts, first, number, [], maxSequence) && IsHistory(read + log)
    ensures HaveRead(files', read + log, cuts', first, number', [], maxSequence') && number' >= number
  {
    files', number', maxSequence', cuts' := files, number, maxSequence, cuts;
    var mem: seq<Entry> := [];
    WholeLog(read, log);
    for i := 0 to |log|
      invariant HaveRead(files', read + log[..i], cuts', first, number', mem, maxSequence') && number' >= number
    {
      NextOfLog(read, log, i);
      ReadsEntry(files', read + log[..i], cuts', first, number', mem, maxSequence', log[i]);
      mem := Insert(mem, log[i]);
      if log[i].key.sequence > maxSequence' {
        maxSequence' := log[i].key.sequence;
      }
      if full(mem) {
        files', number', cuts' :=
          CutTable(files', number', mem, maxSequence', fileSize, read + log[..i + 1], cuts', first);
        mem := [];
      }
    }
    if mem != [] {
      files', number', cuts' := CutTable(files', number', mem, maxSequence', fileSize, read + log, cuts', first);
    }
  }

  /** Writes the memtable out as the next table. */
  method CutTable(files: Level, number: nat, mem: seq<Entry>, ghost maxSequence: SequenceNumber, fileSize: seq<Entry> -> nat,
                  ghost read: seq<Entry>, ghost cuts: seq<nat>, ghost first: nat)
    returns (files': Level, number': nat, ghost cuts': seq<nat>)
    requires HaveRead(files, read, cuts, first, number, mem, maxSequence) && mem != []
    ensures HaveRead(files', read, cuts', first, number', [], maxSequence) && number' == number + 1
  {
    var f := BuildTable(mem, number, fileSize);
    CutsTable(files, read, cuts, first, number, mem, f);
    files', number', cuts' := files + [f], number + 1, cuts + [|read|];
  }

  lemma ReplayStep(logs: map<nat, seq<Entry>>, a: nat, hi: nat)
    requires a < hi
    ensures ReplayFrom(logs, a, hi) == LogAt(logs, a) + ReplayFrom(logs, a + 1, hi)
  {
  }

  lemma Regroup(a: seq<Entry>, b: seq<Entry>, c: seq<Entry>)
    ensures a + (b + c) == a + b + c
  {
  }

  lemma {:induction false} ReplaySplits(logs: map<nat, seq<Entry>>, a: nat, n: nat, hi: nat)
    requires a <= n <= hi
    ensures ReplayFrom(logs, a, hi) == ReplayFrom(logs, a, n) + ReplayFrom(logs, n, hi)
    decreases n - a
  {
    if a < n {
      ReplaySplits(logs, a + 1, n, hi);
      ReplayStep(logs, a, n);
      ReplayStep(logs, a, hi);
      hide ReplayFrom;
      Regroup(LogAt(logs, a), ReplayFrom(logs, a + 1, n), ReplayFrom(logs, n, hi));
    } else {
      assert ReplayFrom(logs, a, n) == [];
      assert [] + ReplayFrom(logs, n, hi) == ReplayFrom(logs, n, hi);
    }
  }

  function LogAt(logs: map<nat, seq<Entry>>, n: nat): seq<Entry> {
    if n in logs then logs[n] else []
  }

  /** One more log is read after those before it. */
  lemma NextLog(logs: map<nat, seq<Entry>>, a: nat, n: nat, hi: nat)
    requires a <= n < hi && IsHistory(ReplayFrom(logs, a, hi))
    ensures ReplayFrom(logs, a, n + 1) == ReplayFrom(logs, a, n) + LogAt(logs, n)
    ensures IsHistory(ReplayFrom(logs, a, n + 1))
  {
    ReplaySplits(logs, a, n, n + 1);
    ReplaySplits(logs, a, n + 1, hi);
    var log := LogAt(logs, n);
    assert ReplayFrom(logs, n + 1, n + 1) == [];
    assert ReplayFrom(logs, n, n + 1) == log + [];
    assert log + [] == log;
    PrefixIsHistory(ReplayFrom(logs, a, n + 1), ReplayFrom(logs, n + 1, hi));
  }

  lemma PrefixIsHistory(a: seq<Entry>, b: seq<Entry>)
    requires IsHistory(a + b)
    ensures IsHistory(a)
  {
    forall i, j | 0 <= i < j < |a|
      ensures a[i].key.sequence < a[j].key.sequence
    {
      assert (a + b)[i] == a[i] && (a + b)[j] == a[j];
    }
  }

  /** All logs from `minLog` up to `n` have been read. */
  ghost predicate LogsRead(logs: map<nat, seq<Entry>>, minLog: nat, n: nat, files: Level, cuts: seq<nat>, first: nat,
                           number: nat, maxSequence: SequenceNumber) {
    && HaveRead(files, ReplayFrom(logs, minLog, n), cuts, first, number, [], maxSequence)
    && forall m | m in logs && minLog <= m < n :: m < number
  }

  lemma NothingRead(logs: map<nat, seq<Entry>>, minLog: nat, first: nat)
    ensures LogsRead(logs, minLog, minLog, [], [0], first, first, 0)
  {
    assert ReplayFrom(logs, minLog, minLog) == [];
  }

  lemma AllRead(logs: map<nat, seq<Entry>>, minLog: nat, hi: nat, files: Level, cuts: seq<nat>, first: nat,
                number: nat, maxSequence: SequenceNumber)
    requires LogsRead(logs, minLog, hi, files, cuts, first, number, maxSequence)
    ensures RecoveredFiles(files, ReplayFrom(logs, minLog, hi), cuts, first)
    ensures number >= first && forall f | f in files :: f.number < number
    ensures forall n | n in logs && minLog <= n < hi :: n < number
    ensures maxSequence == MaxSequence(ReplayFrom(logs, minLog, hi), 0)
  {
    NothingPending(files, ReplayFrom(logs, minLog, hi), cuts, first, number);
  }

  /** Later numbers pass every log read. */
  lemma PassLog(logs: map<nat, seq<Entry>>, minLog: nat, n: nat, files: Level, cuts: seq<nat>, first: nat,
                number: nat, maxSequence: SequenceNumber, number': nat)
    requires HaveRead(files, ReplayFrom(logs, minLog, n + 1), cuts, first, number, [], maxSequence)
    requires number <= number' && (n in logs ==> n < number') && forall m | m in logs && minLog <= m < n :: m < number
    ensures LogsRead(logs, minLog, n + 1, files, cuts, first, number', maxSequence)
  {
  }

  /** Reads log `n` if there is one, and has later numbers pass it. */
  method RecoverNext(logs: map<nat, seq<Entry>>, n: nat, files: Level, number: nat, maxSequence: SequenceNumber,
                     full: seq<Entry> -> bool, fileSize: seq<Entry> -> nat,
                     ghost minLog: nat, ghost hi: nat, ghost cuts: seq<nat>, ghost first: nat)
    returns (files': Level, number': nat, maxSequence': SequenceNumber, ghost cuts': seq<nat>)
    requires minLog <= n < hi && IsHistory(ReplayFrom(logs, minLog, hi))
    requires LogsRead(logs, minLog, n, files, cuts, first, number, maxSequence)
    ensures LogsRead(logs, minLog, n + 1, files', cuts', first, number', maxSequence')
  {
    files', number', maxSequence', cuts' := files, number, maxSequence, cuts;
    NextLog(logs, minLog, n, hi);
    ghost var read := ReplayFrom(logs, minLog, n);
    ghost var reached := number;
    if n in logs {
      files', number', maxSequence', cuts' :=
        RecoverLogFile(logs[n], files, number, maxSequence, full, fileSize, read, cuts, first);
      reached := number';
      if number' <= n {
        number' := n + 1;
      }
    } else {
      assert read + [] == read;
    }
    PassLog(logs, minLog, n, files', cuts', first, reached, maxSequence', number');
  }

  /** Reads the logs in the order of their numbers. */
  method ReadLogs(logs: map<nat, seq<Entry>>, minLog: nat, hi: nat, first: nat,
                  full: seq<Entry> -> bool, fileSize: seq<Entry> -> nat)
    returns (files: Level, number: nat, maxSequence: SequenceNumber, ghost cuts: seq<nat>)
    requires minLog <= hi && IsHistory(ReplayFrom(logs, minLog, hi))
    ensures LogsRead(logs, minLog, hi, files, cuts, first, number, maxSequence)
  {
    hide HaveRead;
    files, number, maxSequence, cuts := [], first, 0, [0];
    NothingRead(logs, minLog, first);
    for n := minLog to hi
      invariant LogsRead(logs, minLog, n, files, cuts, first, number, maxSequence)
    {
      files, number, maxSequence, cuts :=
        RecoverNext(logs, n, files, number, maxSequence, full, fileSize, minLog, hi, cuts, first);
    }
  }

  /** Reads every log from `minLog` on; new numbers stay above theirs. */
  method RecoverLogs(logs: map<nat, seq<Entry>>, minLog: nat, hi: nat, first: nat,
                     full: seq<Entry> -> bool, fileSize: seq<Entry> -> nat)
    returns (files: Level, number: nat, maxSequence: SequenceNumber, ghost cuts: seq<nat>)
    requires minLog <= hi && IsHistory(ReplayFrom(logs, minLog, hi))
    ensures RecoveredFiles(files, ReplayFrom(logs, minLog, hi), cuts, first)
    ensures number >= first && forall f | f in files :: f.number < number
    ensures forall n | n in logs && minLog <= n < hi :: n < number
    ensures maxSequence == MaxSequence(ReplayFrom(logs, minLog, hi), 0)
  {
    files, number, maxSequence, cuts := ReadLogs(logs, minLog, hi, first, full, fileSize);
    AllRead(logs, minLog, hi, files, cuts, first, number, maxSequence);
  }

  /** The largest sequence number of the logs or of the manifest. */
  lemma {:induction false} MaxFromFloor(es: seq<Entry>, floor: SequenceNumber)
    ensures MaxSequence(es, floor) == if MaxSequence(es, 0) > floor then MaxSequence(es, 0) else floor
    decreases |es|
  {
    if es != [] {
      MaxFromFloor(es[..|es| - 1], floor);
    }
  }
}
