/**
  When background work is scheduled (db/db_impl.cc): each method is one critical section under the
  mutex, so what holds between methods holds whenever the mutex is free.  Work to do implies a job on
  its way, there is never more than one, and whoever waits is woken by it.
*/
module Scheduling {
  import opened Base
  import opened DbFormat
  import opened Versions
  import opened CompactionPicking

  const L0_SLOWDOWN_WRITES_TRIGGER := 8
  const L0_STOP_WRITES_TRIGGER := 12

  /** How one pass through the loop of MakeRoomForWrite ends. */
  datatype Outcome = Failed | Delay | Room | Wait | NoFile | Switched

  ghost predicate Due(v: Version) {
    exists l | 0 <= l < NUM_LEVELS - 1 :: Score(v, l) >= 1.0
  }

  /** Too many level-0 files to write on is more than enough to compact. */
  lemma StoppedIsDue(v: Version)
    requires |v[0]| >= L0_STOP_WRITES_TRIGGER
    ensures Due(v)
  {
    assert Score(v, 0) >= 1.0;
  }

  // ---------------------------------------------------------------- critical sections

  /** What the job being run has found to do and not done yet: nothing, the flush, the client's request, its own pick. */
  datatype Job = Waiting | Idle | Flushing | Serving | Picking

  datatype State = State(
    scheduled: bool,
    outstanding: nat,
    job: Job,
    imm: bool,
    manual: Option<nat>,
    version: Version,
    scoreReached: bool,
    seekCompaction: bool,
    bgError: bool,
    shuttingDown: bool,
    waiting: set<nat>)
  {
    predicate WorkToDo() {
      imm || manual.Some? || scoreReached || seekCompaction
    }

    predicate MaySchedule() {
      WorkToDo() && !bgError && !shuttingDown
    }

    predicate Running() {
      job != Waiting
    }

    /** What a job that starts now does: the memtable comes first, then the client's request. */
    function NextJob(): Job {
      if shuttingDown || bgError then Idle
      else if imm then Flushing
      else if manual.Some? then Serving
      else Picking
    }
  }

  datatype Step =
    | MakeRoom(w: nat, force: bool, allowDelay: bool, full: bool, newFileOk: bool)
    | ChargeSeek
    | RequestManual(w: nat)
    | CancelManual(w: nat)
    | StartJob
    | Install(v: Version, flushed: bool)
    | SignalAll
    | FinishJob
    | RecordError
    | Shutdown(w: nat)

  /** Hands a job to the environment if there is none, there is work, and neither an error nor a shutdown forbids it. */
  function MaybeScheduled(s: State): State {
    if !s.scheduled && s.MaySchedule() then s.(scheduled := true, outstanding := s.outstanding + 1) else s
  }

  /** The job has just ended; a request it served is over, whether done or to be filed again for the rest. */
  function Finished(s: State): State {
    s.(manual := if s.job == Serving then None else s.manual, job := Waiting, waiting := {}, scheduled := false,
       outstanding := if s.outstanding > 0 then s.outstanding - 1 else 0)
  }

  /** How one pass of MakeRoomForWrite ends. */
  function RoomOutcome(s: State, force: bool, allowDelay: bool, full: bool, newFileOk: bool): Outcome {
    if s.bgError then Failed
    else if allowDelay && |s.version[0]| >= L0_SLOWDOWN_WRITES_TRIGGER then Delay
    else if !force && !full then Room
    else if s.imm || |s.version[0]| >= L0_STOP_WRITES_TRIGGER then Wait
    else if !newFileOk then NoFile
    else Switched
  }

  predicate Enabled(s: State, step: Step) {
    match step
    case MakeRoom(_, _, _, _, _) => !s.shuttingDown
    case ChargeSeek => true
    case RequestManual(w) => !s.shuttingDown && !s.bgError
    case CancelManual(w) => s.manual == Some(w) && (s.shuttingDown || s.bgError)
    case StartJob => s.outstanding == 1 && !s.Running()
    case Install(_, flushed) => s.Running() && (flushed ==> s.imm)
    case SignalAll => s.Running()
    case FinishJob => s.Running() && (s.job == Flushing ==> s.bgError)
    case RecordError => true
    case Shutdown(_) => true
  }

  ghost function Apply(s: State, step: Step): State
    requires Enabled(s, step)
  {
    match step
    case MakeRoom(w, force, allowDelay, full, newFileOk) =>
      (match RoomOutcome(s, force, allowDelay, full, newFileOk)
       case Wait => s.(waiting := s.waiting + {w})
       case Switched => MaybeScheduled(s.(imm := true))
       case _ => s)
    case ChargeSeek => MaybeScheduled(s.(seekCompaction := true))
    case RequestManual(w) =>
      if s.manual == None then MaybeScheduled(s.(manual := Some(w))) else s.(waiting := s.waiting + {w})
    case CancelManual(w) => s.(manual := None)
    case StartJob => s.(job := s.NextJob())
    case Install(v, flushed) =>
      s.(version := v, scoreReached := Due(v), seekCompaction := false, imm := s.imm && !flushed,
         job := if flushed && s.job == Flushing then Idle else s.job)
    case SignalAll => s.(waiting := {})
    case FinishJob => MaybeScheduled(Finished(s))
    case RecordError => if s.bgError then s else s.(bgError := true, waiting := {})
    case Shutdown(w) => s.(shuttingDown := true, waiting := if s.scheduled then s.waiting + {w} else s.waiting)
  }

  /** Holds throughout: the flag mirrors the one job handed to the environment, and whoever waits, waits for it. */
  ghost predicate Steady(s: State) {
    && s.outstanding == (if s.scheduled then 1 else 0)
    && (s.Running() ==> s.scheduled)
    && (s.job == Flushing ==> s.imm)
    && (s.scoreReached <==> Due(s.version))
    && (s.waiting != {} ==> s.scheduled)
  }

  /** Holds whenever the mutex is free: work that may be scheduled is. */
  ghost predicate Inv(s: State) {
    Steady(s) && (s.MaySchedule() ==> s.scheduled)
  }

  lemma ScheduledIsOk(s: State)
    requires Steady(s)
    ensures Inv(MaybeScheduled(s))
  {
  }

  lemma StepKeepsInv(s: State, step: Step)
    requires Inv(s) && Enabled(s, step)
    ensures Inv(Apply(s, step))
  {
    match step {
      case MakeRoom(w, force, allowDelay, full, newFileOk) =>
        if |s.version[0]| >= L0_STOP_WRITES_TRIGGER {
          StoppedIsDue(s.version);
        }
      case FinishJob => ScheduledIsOk(Finished(s));
      case _ =>
    }
  }

  // ---------------------------------------------------------------- runs

  /** A store just opened. */
  ghost function Opened(v: Version): State {
    MaybeScheduled(State(false, 0, Waiting, false, None, v, Due(v), false, false, false, {}))
  }

  ghost predicate IsRunOf(states: seq<State>, steps: seq<Step>) {
    && |states| == |steps| + 1
    && states[0] == Opened(states[0].version)
    && forall i | 0 <= i < |steps| :: Enabled(states[i], steps[i]) && states[i + 1] == Apply(states[i], steps[i])
  }

  lemma {:induction false} RunKeepsInv(states: seq<State>, steps: seq<Step>, i: nat)
    requires IsRunOf(states, steps) && i < |states|
    ensures Inv(states[i])
  {
    if i == 0 {
      ScheduledIsOk(State(false, 0, Waiting, false, None, states[0].version, Due(states[0].version), false, false, false, {}));
    } else {
      RunKeepsInv(states, steps, i - 1);
      StepKeepsInv(states[i - 1], steps[i - 1]);
    }
  }

  /**
    In every reachable state there is at most one job; while somebody waits there is one, which can take its
    next step; and work that may be done has one.
  */
  lemma WaitersHaveAJob(states: seq<State>, steps: seq<Step>, i: nat)
    requires IsRunOf(states, steps) && i < |states|
    ensures states[i].outstanding <= 1
    ensures states[i].waiting != {} || states[i].MaySchedule() ==>
              && states[i].outstanding == 1
              && (|| Enabled(states[i], StartJob) || Enabled(states[i], FinishJob)
                  || (states[i].job == Flushing && Enabled(states[i], Install(states[i].version, true))))
  {
    RunKeepsInv(states, steps, i);
  }

  /** The steps that wake whoever waits: the end of the job, the job's signal after a flush, the first error. */
  predicate Wakes(s: State, step: Step) {
    step.FinishJob? || step.SignalAll? || (step.RecordError? && !s.bgError)
  }

  lemma WokenIff(s: State, step: Step, w: nat)
    requires Enabled(s, step) && w in s.waiting
    ensures w !in Apply(s, step).waiting <==> Wakes(s, step)
    ensures Wakes(s, step) ==> Apply(s, step).waiting == {}
  {
    hide Due;
    match step {
      case MakeRoom(x, force, allowDelay, full, newFileOk) =>
        assert w in s.waiting + {x};
      case RequestManual(x) =>
        assert w in s.waiting + {x};
      case _ =>
    }
  }

  /**
    A thread that waits sleeps on through exactly the steps that are not meant to wake it, and all that time the
    same job is on its way: at the latest the end of that job wakes it.
  */
  lemma {:induction false} WaitsUntilWoken(states: seq<State>, steps: seq<Step>, i: nat, j: nat, w: nat)
    requires IsRunOf(states, steps) && i <= j < |states| && w in states[i].waiting
    requires forall n | i <= n < j :: !Wakes(states[n], steps[n])
    ensures w in states[j].waiting && states[j].scheduled && states[j].outstanding == 1
    ensures j < |steps| ==> (w !in states[j + 1].waiting <==> Wakes(states[j], steps[j]))
    decreases j
  {
    if i < j {
      WaitsUntilWoken(states, steps, i, j - 1, w);
    }
    RunKeepsInv(states, steps, j);
    if j < |steps| {
      WokenIff(states[j], steps[j], w);
    }
  }

  // ---------------------------------------------------------------- what a job has done by its end

  /** `steps[i]` starts a job and it is still running before step `j`. */
  ghost predicate JobFrom(steps: seq<Step>, i: nat, j: nat) {
    && i < j <= |steps| && steps[i] == StartJob
    && forall n | i < n < j :: !steps[n].FinishJob?
  }

  ghost predicate FlushedBetween(steps: seq<Step>, i: nat, j: nat) {
    exists n :: i < n < j && n < |steps| && steps[n].Install? && steps[n].flushed
  }

  lemma JobGoesOn(s: State, step: Step)
    requires Enabled(s, step) && s.Running() && !step.FinishJob?
    ensures var s' := Apply(s, step);
            && s'.Running()
            && (s.job == Flushing ==> s'.job == Flushing || (step.Install? && step.flushed))
            && (s.job == Serving ==> s'.job == Serving)
  {
    hide Due, RoomOutcome;
  }

  lemma {:induction false} StillOwes(states: seq<State>, steps: seq<Step>, i: nat, j: nat)
    requires IsRunOf(states, steps) && JobFrom(steps, i, j)
    ensures |states| == |steps| + 1 && states[j].Running()
    ensures states[i].NextJob() == Flushing ==> states[j].job == Flushing || FlushedBetween(steps, i, j)
    ensures states[i].NextJob() == Serving ==> states[j].job == Serving
    decreases j
  {
    hide IsRunOf, Enabled, Apply, FlushedBetween;
    StepOfRun(states, steps, j - 1);
    var s, step := states[j - 1], steps[j - 1];
    if i + 1 == j {
      StartedJob(s);
    } else {
      StillOwes(states, steps, i, j - 1);
      JobGoesOn(s, step);
      FlushedSooner(steps, i, j);
    }
  }

  lemma StepOfRun(states: seq<State>, steps: seq<Step>, n: nat)
    requires IsRunOf(states, steps) && n < |steps|
    ensures |states| == |steps| + 1 && Enabled(states[n], steps[n]) && states[n + 1] == Apply(states[n], steps[n])
  {
  }

  lemma StartedJob(s: State)
    requires Enabled(s, StartJob)
    ensures Apply(s, StartJob).job == s.NextJob() && Apply(s, StartJob).Running()
  {
  }

  lemma FlushedSooner(steps: seq<Step>, i: nat, j: nat)
    requires i + 1 < j <= |steps|
    ensures FlushedBetween(steps, i, j)
       <==> FlushedBetween(steps, i, j - 1) || (steps[j - 1].Install? && steps[j - 1].flushed)
  {
  }

  /**
    A job that started with a memtable to flush, without an error or a shutdown, has flushed it by its end unless
    an error is on record; one that started with a client's request and no memtable has taken the request off.
  */
  lemma JobDoesItsWork(states: seq<State>, steps: seq<Step>, i: nat, j: nat)
    requires IsRunOf(states, steps) && JobFrom(steps, i, j) && j < |steps| && steps[j] == FinishJob
    requires !states[i].bgError && !states[i].shuttingDown
    ensures states[i].imm ==> states[j + 1].bgError || FlushedBetween(steps, i, j)
    ensures !states[i].imm && states[i].manual.Some? ==> states[j + 1].manual == None
  {
    hide IsRunOf;
    StillOwes(states, steps, i, j);
    StepOfRun(states, steps, j);
  }

  // ---------------------------------------------------------------- the object

  class Scheduler {
    var scheduled: bool
    var outstanding: nat
    var job: Job
    var imm: bool
    var manual: Option<nat>
    var version: Version
    var scoreReached: bool
    var seekCompaction: bool
    var bgError: bool
    var shuttingDown: bool
    var waiting: set<nat>

    function View(): State
      reads this
    {
      State(scheduled, outstanding, job, imm, manual, version, scoreReached, seekCompaction, bgError, shuttingDown, waiting)
    }

    /** A store that has just been opened schedules whatever recovery left to do. */
    constructor (v: Version)
      ensures View() == Opened(v) && Inv(View())
    {
      scheduled, outstanding, job, imm, manual := false, 0, Waiting, false, None;
      seekCompaction, bgError, shuttingDown, waiting := false, false, false, {};
      version := v;
      new;
      var best, score := BestLevel(v);
      scoreReached := score >= 1.0;
      ScheduledIsOk(View());
      MaybeScheduleCompaction();
    }

    method MaybeScheduleCompaction()
      modifies this`scheduled, this`outstanding
      ensures View() == MaybeScheduled(old(View()))
      ensures scheduled <==> old(scheduled) || View().MaySchedule()
    {
      if scheduled {
      } else if shuttingDown {
      } else if bgError {
      } else if !imm && manual == None && !scoreReached && !seekCompaction {
      } else {
        scheduled := true;
        outstanding := outstanding + 1;
      }
    }

    /**
      One pass of MakeRoomForWrite by writer `w`: whoever has to wait waits for a job that is on its
      way, and switching memtables schedules one.
    */
    method MakeRoomForWrite(w: nat, force: bool, allowDelay: bool, full: bool, newFileOk: bool) returns (outcome: Outcome)
      requires Inv(View()) && !shuttingDown
      modifies this`imm, this`waiting, this`scheduled, this`outstanding
      ensures View() == Apply(old(View()), MakeRoom(w, force, allowDelay, full, newFileOk)) && Inv(View())
      ensures outcome == Wait ==> w in waiting && scheduled && outstanding == 1
      ensures outcome == Switched ==> imm && !old(imm) && scheduled
      ensures outcome == Room ==> !force && !full
      ensures outcome == Failed <==> bgError
      ensures outcome != Switched ==> imm == old(imm) && scheduled == old(scheduled)
      ensures outcome != Wait ==> waiting == old(waiting)
    {
      StepKeepsInv(View(), MakeRoom(w, force, allowDelay, full, newFileOk));
      if bgError {
        return Failed;
      } else if allowDelay && |version[0]| >= L0_SLOWDOWN_WRITES_TRIGGER {
        return Delay;
      } else if !force && !full {
        return Room;
      } else if imm {
        waiting := waiting + {w};
        return Wait;
      } else if |version[0]| >= L0_STOP_WRITES_TRIGGER {
        waiting := waiting + {w};
        return Wait;
      } else if !newFileOk {
        return NoFile;
      } else {
        imm := true;
        MaybeScheduleCompaction();
        return Switched;
      }
    }

    /** A read used up a file's allowed seeks. */
    method UpdateStats()
      requires Inv(View())
      modifies this`seekCompaction, this`scheduled, this`outstanding
      ensures View() == Apply(old(View()), ChargeSeek) && Inv(View())
    {
      StepKeepsInv(View(), ChargeSeek);
      seekCompaction := true;
      MaybeScheduleCompaction();
    }

    /** One pass of the manual compaction loop by thread `w`: register the request or wait for the job in progress. */
    method RequestManual(w: nat) returns (waits: bool)
      requires Inv(View()) && !shuttingDown && !bgError
      modifies this`manual, this`waiting, this`scheduled, this`outstanding
      ensures View() == Apply(old(View()), Step.RequestManual(w)) && Inv(View())
      ensures manual.Some? && scheduled && (waits <==> old(manual).Some?)
      ensures waits ==> w in waiting && outstanding == 1
    {
      StepKeepsInv(View(), Step.RequestManual(w));
      waits := manual.Some?;
      if manual == None {
        manual := Some(w);
        MaybeScheduleCompaction();
      } else {
        waiting := waiting + {w};
      }
    }

    /** A thread that gives up early takes its request back. */
    method CancelManual(w: nat)
      requires Inv(View()) && manual == Some(w) && (shuttingDown || bgError)
      modifies this`manual
      ensures View() == Apply(old(View()), Step.CancelManual(w)) && Inv(View())
    {
      manual := None;
    }

    /** The environment runs the job; from here on it may release the mutex at any time. */
    method StartJob()
      requires Inv(View()) && outstanding == 1 && job == Waiting
      modifies this`job
      ensures View() == Apply(old(View()), Step.StartJob) && Inv(View())
    {
      if shuttingDown {
        job := Idle;
      } else if bgError {
        job := Idle;
      } else if imm {
        job := Flushing;
      } else if manual.Some? {
        job := Serving;
      } else {
        job := Picking;
      }
    }

    /** The job installs a version, having flushed the immutable memtable or not. */
    method Install(v: Version, flushed: bool)
      requires Inv(View()) && job != Waiting && (flushed ==> imm)
      modifies this`version, this`scoreReached, this`seekCompaction, this`imm, this`job
      ensures View() == Apply(old(View()), Step.Install(v, flushed)) && Inv(View())
    {
      var best, score := BestLevel(v);
      version, scoreReached, seekCompaction := v, score >= 1.0, false;
      if flushed {
        imm := false;
        job := if job == Flushing then Idle else job;
      }
    }

    /** In the middle of a compaction, after a flush: writers may have room again. */
    method Signal()
      requires Inv(View()) && job != Waiting
      modifies this`waiting
      ensures View() == Apply(old(View()), SignalAll) && Inv(View())
    {
      waiting := {};
    }

    /** The job is over: it reschedules itself if there is more to do, and wakes everybody who waits. */
    method FinishJob()
      requires Inv(View()) && job != Waiting && (job == Flushing ==> bgError)
      modifies this
      ensures View() == Apply(old(View()), Step.FinishJob) && Inv(View())
      ensures waiting == {} && job == Waiting && (scheduled <==> View().MaySchedule())
      ensures old(job) == Serving ==> manual == None
    {
      hide Due;
      StepKeepsInv(View(), Step.FinishJob);
      if job == Serving {
        manual := None;
      }
      job := Waiting;
      waiting := {};
      scheduled := false;
      outstanding := outstanding - 1;
      MaybeScheduleCompaction();
    }

    /** An error stops all further work and wakes everybody to see it. */
    method RecordBackgroundError()
      requires Inv(View())
      modifies this`bgError, this`waiting
      ensures View() == Apply(old(View()), RecordError) && Inv(View())
      ensures bgError && (!old(bgError) ==> waiting == {})
    {
      if !bgError {
        bgError := true;
        waiting := {};
      }
    }

    /** Nothing is scheduled any more once shutdown has begun; the destructor waits for the job in flight. */
    method Shutdown(w: nat) returns (waits: bool)
      requires Inv(View())
      modifies this`shuttingDown, this`waiting
      ensures View() == Apply(old(View()), Step.Shutdown(w)) && Inv(View())
      ensures shuttingDown && (waits <==> scheduled)
      ensures waits ==> w in waiting && outstanding == 1
    {
      shuttingDown := true;
      waits := scheduled;
      if scheduled {
        waiting := waiting + {w};
      }
    }
  }
}
