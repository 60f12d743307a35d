/** The agent, its worker thread, its disk and the server, one atomic step at a time. */
module AgentProtocol {
  import opened Basics
  import opened JsonText
  import opened JsonReading
  import opened PendingFile
  import opened Backoff

  datatype Worker = NoThread | Working(job: Bytes) | Stored(job: Bytes) | Finished(job: Bytes)

  /** Where the loop thread stands between two effects others can see. */
  datatype Pc = Rest | Took(o: JobOutcome) | Acked(job: Bytes) | Accepted(job: Bytes)

  datatype Reply = Ok | Conflict | Refused

  datatype State = State(
    worker: Worker,
    running: bool,
    collected: bool,
    outcome: JobOutcome,
    runningJobId: Bytes,
    jobStartedAt: Bytes,
    accepts: bool,
    attempts: nat,
    nextAttemptAt: int,
    pc: Pc,
    disk: Option<Bytes>)

  const NoOutcome: JobOutcome := JobOutcome([], false, 0.0, [], [])

  /** A process that has just started. */
  function Boot(disk: Option<Bytes>): State {
    State(NoThread, false, true, NoOutcome, [], [], true, 0, 0, Rest, disk)
  }

  datatype Step =
    | WorkerStores(o: JobOutcome)
    | WorkerExits
    | Take
    | Save(finishedAt: Bytes)
    | Attempt(now: int, reply: Reply)
    | Clear
    | Snapshot(accepts: bool)
    | Accept(job: Bytes, startedAt: Bytes, ok: bool)
    | Start
    | Crash

  /** The undelivered result on disk, as `loadPendingResult` sees it. */
  function PendingOn(lib: Library, disk: Option<Bytes>): Option<Saved> {
    if disk.None? then None else Load(lib.scan, disk.value)
  }

  predicate Enabled(lib: Library, s: State, step: Step) {
    match step
    case WorkerStores(o) => s.worker.Working? && o.jobId == s.worker.job
    case WorkerExits => s.worker.Stored?
    case Take => s.pc.Rest? && s.runningJobId != [] && !s.running && !s.collected && s.worker.Finished?
    case Save(_) => s.pc.Took?
    case Attempt(now, _) => s.pc.Rest? && PendingOn(lib, s.disk).Some? && now >= s.nextAttemptAt
    case Clear => s.pc.Acked?
    case Snapshot(_) => s.pc.Rest?
    case Accept(job, _, _) =>
      s.pc.Rest? && job != [] && s.runningJobId == [] && !s.running && s.accepts && PendingOn(lib, s.disk).None?
    case Start => s.pc.Accepted?
    case Crash => true
  }

  function Apply(lib: Library, s: State, step: Step): State
    requires Enabled(lib, s, step)
  {
    match step
    case WorkerStores(o) => s.(worker := Stored(s.worker.job), outcome := o)
    case WorkerExits => s.(worker := Finished(s.worker.job), running := false)
    case Take => s.(worker := NoThread, collected := true, pc := Took(s.outcome))
    case Save(finishedAt) =>
      s.(disk := Some(FileText(lib.fraction, Saved(s.pc.o, s.jobStartedAt, finishedAt))),
         runningJobId := [], jobStartedAt := [], attempts := 0, nextAttemptAt := 0, pc := Rest)
    case Attempt(now, reply) =>
      if reply.Refused? then s.(attempts := s.attempts + 1, nextAttemptAt := now + Delay(s.attempts))
      else s.(pc := Acked(PendingOn(lib, s.disk).value.outcome.jobId))
    case Clear => s.(disk := None, attempts := 0, nextAttemptAt := 0, pc := Rest)
    case Snapshot(accepts) => s.(accepts := accepts)
    case Accept(job, startedAt, ok) =>
      if ok then s.(runningJobId := job, jobStartedAt := startedAt, pc := Accepted(job)) else s
    case Start =>
      if s.running then s.(pc := Rest)
      else s.(worker := Working(s.pc.job), running := true, collected := false, pc := Rest)
    case Crash => Boot(s.disk)
  }

  /** What holds whenever nothing is half done. */
  predicate Inv(lib: Library, s: State) {
    && (s.running <==> s.worker.Working? || s.worker.Stored?)
    && (s.worker.NoThread? <==> s.collected)
    && (!s.worker.NoThread? ==> s.worker.job == s.runningJobId && s.pc.Rest?)
    && (s.worker.Stored? || s.worker.Finished? ==> s.outcome.jobId == s.worker.job)
    && (s.pc.Rest? && s.runningJobId != [] ==> !s.collected)
    && (!s.worker.NoThread? ==> s.runningJobId != [])
    && (s.pc.Took? ==> s.runningJobId != [] && s.pc.o.jobId == s.runningJobId)
    && (s.pc.Accepted? ==> s.runningJobId != [] && s.pc.job == s.runningJobId)
    && (s.runningJobId != [] ==> PendingOn(lib, s.disk).None?)
    && (s.pc.Acked? ==> PendingOn(lib, s.disk).Some? && s.pc.job == PendingOn(lib, s.disk).value.outcome.jobId)
  }

  /** Every step of every participant keeps the invariant. */
  lemma {:induction false} StepInv(lib: Library, s: State, step: Step)
    requires Inv(lib, s) && Enabled(lib, s, step)
    ensures Inv(lib, Apply(lib, s, step))
  {
    PendingHasJob(lib, s.disk);
  }

  lemma {:induction false} PendingHasJob(lib: Library, disk: Option<Bytes>)
    ensures PendingOn(lib, disk).Some? ==> PendingOn(lib, disk).value.outcome.jobId != []
  {
  }

  // ---- the life of a job ----------------------------------------------------------------------------

  /** How a job looks from outside. */
  datatype Phase =
    | Idle
    | Assigned(job: Bytes)
    | Started(job: Bytes)
    | Done(job: Bytes)
    | Undelivered(job: Bytes)
    | Recorded(job: Bytes)

  function PhaseOf(lib: Library, s: State): Phase {
    match s.pc
    case Accepted(job) => Phase.Assigned(job)
    case Took(o) => Phase.Done(o.jobId)
    case Acked(job) => Recorded(job)
    case Rest =>
      if s.runningJobId != [] then Started(s.runningJobId)
      else if PendingOn(lib, s.disk).Some? then Undelivered(PendingOn(lib, s.disk).value.outcome.jobId)
      else Idle
  }

  /** One job at a time, through every stage, lost only to a crash before it is on disk or to a file nothing can
      read. */
  predicate Lives(p: Phase, step: Step, p': Phase) {
    match step
    case WorkerStores(o) => p == Started(o.jobId) && p' == p
    case WorkerExits => p.Started? && p' == p
    case Take => p.Started? && p' == Phase.Done(p.job)
    case Save(_) => p.Done? && (p' == Undelivered(p.job) || p' == Idle)
    case Attempt(_, reply) => p.Undelivered? && p' == if reply.Refused? then p else Recorded(p.job)
    case Clear => p.Recorded? && p' == Idle
    case Snapshot(_) => p' == p
    case Accept(job, _, ok) => p.Idle? && p' == if ok then Phase.Assigned(job) else Idle
    case Start => p.Assigned? && p' == Started(p.job)
    case Crash => p' == if p.Undelivered? || p.Recorded? then Undelivered(p.job) else Idle
  }

  /** A result that has just been written is pending exactly when its file is no longer than the parser accepts and its
      running time does not overflow on reading. */
  lemma {:induction false} SavedIsPending(lib: Library, o: JobOutcome, startedAt: Bytes, finishedAt: Bytes)
    requires Sound(lib) && o.jobId != []
    ensures var s := Saved(o, startedAt, finishedAt);
      var text := FileText(lib.fraction, s);
      PendingOn(lib, Some(text)) ==
        if |text| <= MaxInput && Rounds(lib, o.runtime) then Some(AfterRound(lib, s)) else None
  {
    LoadsRounded(lib, Saved(o, startedAt, finishedAt));
  }

  /** The agent refines that life cycle. */
  lemma {:induction false} StepLives(lib: Library, s: State, step: Step)
    requires Sound(lib) && Inv(lib, s) && Enabled(lib, s, step)
    ensures Lives(PhaseOf(lib, s), step, PhaseOf(lib, Apply(lib, s, step)))
  {
    PendingHasJob(lib, s.disk);
    if step.Save? {
      SavedIsPending(lib, s.pc.o, s.jobStartedAt, step.finishedAt);
    }
  }

  // ---- whole runs -----------------------------------------------------------------------------------

  /** The state after the steps, if each was possible when it was taken. */
  function Run(lib: Library, s: State, steps: seq<Step>): Option<State> {
    if steps == [] then Some(s)
    else
      match Run(lib, s, steps[..|steps| - 1])
      case None => None
      case Some(t) => if Enabled(lib, t, steps[|steps| - 1]) then Some(Apply(lib, t, steps[|steps| - 1])) else None
  }

  lemma {:induction false} RunAppend(lib: Library, s: State, steps: seq<Step>, step: Step)
    requires Run(lib, s, steps).Some? && Enabled(lib, Run(lib, s, steps).value, step)
    ensures Run(lib, s, steps + [step]) == Some(Apply(lib, Run(lib, s, steps).value, step))
  {
    assert (steps + [step])[..|steps|] == steps;
  }

  lemma {:induction false} RunPrefix(lib: Library, s: State, steps: seq<Step>, i: nat)
    requires Run(lib, s, steps).Some? && i <= |steps|
    ensures Run(lib, s, steps[..i]).Some?
    ensures i < |steps| ==> Enabled(lib, Run(lib, s, steps[..i]).value, steps[i])
    ensures i < |steps| ==> Run(lib, s, steps[..i + 1]) == Some(Apply(lib, Run(lib, s, steps[..i]).value, steps[i]))
    decreases |steps|
  {
    if i == |steps| {
      assert steps[..i] == steps;
    } else {
      var n := |steps| - 1;
      if i < n {
        RunPrefix(lib, s, steps[..n], i);
        assert steps[..n][..i] == steps[..i] && steps[..n][..i + 1] == steps[..i + 1];
      } else {
        assert steps[..i + 1] == steps;
      }
    }
  }

  /** What holds at boot holds after any run. */
  lemma {:induction false} RunInv(lib: Library, disk: Option<Bytes>, steps: seq<Step>)
    requires Run(lib, Boot(disk), steps).Some?
    ensures Inv(lib, Run(lib, Boot(disk), steps).value)
  {
    if steps != [] {
      var n := |steps| - 1;
      RunInv(lib, disk, steps[..n]);
      StepInv(lib, Run(lib, Boot(disk), steps[..n]).value, steps[n]);
    }
  }

  /** The executor is handed a job only while it is idle and its last outcome has been collected. */
  lemma {:induction false} StartFindsIdle(lib: Library, disk: Option<Bytes>, steps: seq<Step>)
    requires Run(lib, Boot(disk), steps + [Start]).Some?
    ensures var s := Run(lib, Boot(disk), steps).value;
      Run(lib, Boot(disk), steps).Some? && !s.running && s.collected && s.worker.NoThread?
        && s.runningJobId == s.pc.job != []
    ensures Run(lib, Boot(disk), steps + [Start]).value.worker == Working(Run(lib, Boot(disk), steps).value.pc.job)
  {
    assert (steps + [Start])[..|steps|] == steps;
    RunInv(lib, disk, steps);
  }

  /** The outcome taken is the running job's own. */
  lemma {:induction false} TakesOwnOutcome(lib: Library, disk: Option<Bytes>, steps: seq<Step>)
    requires Run(lib, Boot(disk), steps + [Take]).Some?
    ensures Run(lib, Boot(disk), steps).Some?
    ensures Run(lib, Boot(disk), steps + [Take]).value.pc.o.jobId == Run(lib, Boot(disk), steps).value.runningJobId
  {
    assert (steps + [Take])[..|steps|] == steps;
    RunInv(lib, disk, steps);
  }

  /** Waiting for the worker thread never blocks the loop: once the flag is down, only the thread's exit is left. */
  lemma {:induction false} JoinFindsFinished(lib: Library, disk: Option<Bytes>, steps: seq<Step>)
    requires Run(lib, Boot(disk), steps).Some?
    ensures var s := Run(lib, Boot(disk), steps).value;
      (s.running ==> s.runningJobId != []) && (!s.running && !s.worker.NoThread? ==> s.worker.Finished?)
  {
    RunInv(lib, disk, steps);
  }

  /** A readable result leaves the disk, or is replaced there, only after the server acknowledged that very job. */
  lemma {:induction false} ResultStaysUntilAcknowledged(lib: Library, disk: Option<Bytes>, steps: seq<Step>, step: Step)
    requires Run(lib, Boot(disk), steps + [step]).Some?
    ensures Run(lib, Boot(disk), steps).Some?
    ensures var s, s' := Run(lib, Boot(disk), steps).value, Run(lib, Boot(disk), steps + [step]).value;
      PendingOn(lib, s.disk).Some? ==>
        !s.running && s.worker.NoThread?
          && (s'.disk != s.disk ==> step.Clear? && s.pc == Acked(PendingOn(lib, s.disk).value.outcome.jobId))
  {
    assert (steps + [step])[..|steps|] == steps;
    RunInv(lib, disk, steps);
  }

  /** The loop stands behind an acknowledgement only if the step before was the server's answer for that job. */
  lemma {:induction false} AcknowledgedByServer(lib: Library, disk: Option<Bytes>, steps: seq<Step>)
    requires steps != [] && Run(lib, Boot(disk), steps).Some? && Run(lib, Boot(disk), steps).value.pc.Acked?
    ensures var n := |steps| - 1;
      Run(lib, Boot(disk), steps[..n]).Some? && steps[n].Attempt? && !steps[n].reply.Refused?
      && PendingOn(lib, Run(lib, Boot(disk), steps[..n]).value.disk).Some?
      && PendingOn(lib, Run(lib, Boot(disk), steps[..n]).value.disk).value.outcome.jobId ==
         Run(lib, Boot(disk), steps).value.pc.job
  {
    var n := |steps| - 1;
    RunInv(lib, disk, steps[..n]);
  }

  /** The server's latest word on taking jobs: yes until it has answered, and again after a restart. */
  function LastAnswer(steps: seq<Step>): bool {
    if steps == [] then true
    else
      match steps[|steps| - 1]
      case Snapshot(accepts) => accepts
      case Crash => true
      case _ => LastAnswer(steps[..|steps| - 1])
  }

  lemma {:induction false} AnswersHeeded(lib: Library, disk: Option<Bytes>, steps: seq<Step>)
    requires Run(lib, Boot(disk), steps).Some?
    ensures Run(lib, Boot(disk), steps).value.accepts == LastAnswer(steps)
  {
    if steps != [] {
      AnswersHeeded(lib, disk, steps[..|steps| - 1]);
    }
  }

  /** A job is asked for only while the server's latest answer allows it, with no other job in hand and no readable
      result on disk. */
  lemma {:induction false} JobsOnlyOnRequest(
    lib: Library, disk: Option<Bytes>, steps: seq<Step>, job: Bytes, startedAt: Bytes, ok: bool)
    requires Run(lib, Boot(disk), steps + [Accept(job, startedAt, ok)]).Some?
    ensures LastAnswer(steps) && Run(lib, Boot(disk), steps).Some?
    ensures PhaseOf(lib, Run(lib, Boot(disk), steps).value) == Idle
  {
    assert (steps + [Accept(job, startedAt, ok)])[..|steps|] == steps;
    AnswersHeeded(lib, disk, steps);
  }

  // ---- the ledger of jobs ---------------------------------------------------------------------------

  /** Over a run: jobs accepted, results delivered, jobs a crash took, results written that nothing can read;
      and jobs started, outcomes taken, running jobs a crash took. */
  datatype Ledger = Ledger(accepted: nat, delivered: nat, lost: nat, unreadable: nat, started: nat, taken: nat,
                           killed: nat)

  function Booked(lib: Library, l: Ledger, s: State, step: Step): Ledger
    requires Enabled(lib, s, step)
  {
    match step
    case Accept(_, _, ok) => if ok then l.(accepted := l.accepted + 1) else l
    case Clear => l.(delivered := l.delivered + 1)
    case Start => l.(started := l.started + 1)
    case Take => l.(taken := l.taken + 1)
    case Crash =>
      var p := PhaseOf(lib, s);
      l.(lost := l.lost + (if p.Assigned? || p.Started? || p.Done? then 1 else 0),
         killed := l.killed + (if p.Started? then 1 else 0))
    case Save(_) => if PendingOn(lib, Apply(lib, s, step).disk).None? then l.(unreadable := l.unreadable + 1) else l
    case _ => l
  }

  function Books(lib: Library, s: State, steps: seq<Step>): Ledger
    requires Run(lib, s, steps).Some?
  {
    if steps == [] then Ledger(0, 0, 0, 0, 0, 0, 0)
    else
      var before := steps[..|steps| - 1];
      Booked(lib, Books(lib, s, before), Run(lib, s, before).value, steps[|steps| - 1])
  }

  function InHand(p: Phase): nat { if p.Idle? then 0 else 1 }

  function UnderWay(p: Phase): nat { if p.Started? then 1 else 0 }

  /** Every job ever accepted, and a result found at boot, is delivered, in hand, taken by a crash, or written
      unreadably; and every job started has its outcome taken once, unless it is still under way or a crash took it. */
  lemma {:induction false} JobsConserved(lib: Library, disk: Option<Bytes>, steps: seq<Step>)
    requires Sound(lib) && Run(lib, Boot(disk), steps).Some?
    ensures var l := Books(lib, Boot(disk), steps);
      InHand(PhaseOf(lib, Boot(disk))) + l.accepted
        == l.delivered + l.lost + l.unreadable + InHand(PhaseOf(lib, Run(lib, Boot(disk), steps).value))
      && l.started == l.taken + l.killed + UnderWay(PhaseOf(lib, Run(lib, Boot(disk), steps).value))
  {
    if steps != [] {
      var before, step := steps[..|steps| - 1], steps[|steps| - 1];
      JobsConserved(lib, disk, before);
      RunInv(lib, disk, before);
      OneStepConserves(lib, Books(lib, Boot(disk), before), Run(lib, Boot(disk), before).value, step);
    }
  }

  lemma {:induction false} OneStepConserves(lib: Library, l: Ledger, s: State, step: Step)
    requires Sound(lib) && Inv(lib, s) && Enabled(lib, s, step)
    ensures var l', p, p' := Booked(lib, l, s, step), PhaseOf(lib, s), PhaseOf(lib, Apply(lib, s, step));
      && l'.accepted - l.accepted + InHand(p) ==
         (l'.delivered - l.delivered) + (l'.lost - l.lost) + (l'.unreadable - l.unreadable) + InHand(p')
      && l'.started - l.started + UnderWay(p) == (l'.taken - l.taken) + (l'.killed - l.killed) + UnderWay(p')
  {
    StepLives(lib, s, step);
  }

  // ---- the spacing of attempts ----------------------------------------------------------------------

  /** Refusals in a row, in this process, of the result now on disk. */
  function Failures(steps: seq<Step>): nat {
    if steps == [] then 0
    else
      var step := steps[|steps| - 1];
      if step.Save? || step.Clear? || step.Crash? then 0
      else Failures(steps[..|steps| - 1]) + (if step.Attempt? && step.reply.Refused? then 1 else 0)
  }

  lemma {:induction false} FailuresCounted(lib: Library, disk: Option<Bytes>, steps: seq<Step>)
    requires Run(lib, Boot(disk), steps).Some?
    ensures Run(lib, Boot(disk), steps).value.attempts == Failures(steps)
  {
    if steps != [] {
      FailuresCounted(lib, disk, steps[..|steps| - 1]);
    }
  }

  /** No crash and no attempt strictly between the two steps. */
  predicate Quiet(steps: seq<Step>, i: nat, j: nat)
    requires j <= |steps|
  {
    forall k :: i < k && k < j ==> !steps[k].Crash? && !steps[k].Attempt?
  }

  /** While a result is pending, nothing but an attempt or a crash touches it or its waiting time. */
  lemma {:induction false} WaitsOn(lib: Library, s: State, step: Step)
    requires Inv(lib, s) && s.pc.Rest? && PendingOn(lib, s.disk).Some? && Enabled(lib, s, step)
    requires !step.Crash? && !step.Attempt?
    ensures var t := Apply(lib, s, step); t.nextAttemptAt == s.nextAttemptAt && t.disk == s.disk && t.pc.Rest?
  {
  }

  lemma {:induction false} AfterRefusal(lib: Library, s: State, step: Step)
    requires Inv(lib, s) && Enabled(lib, s, step) && step.Attempt? && step.reply.Refused?
    ensures var t := Apply(lib, s, step);
      t.nextAttemptAt == step.now + Delay(s.attempts) && t.disk == s.disk && t.pc.Rest? && PendingOn(lib, t.disk).Some?
  {
  }

  /** The state a run has reached before its step `i`, and what its step does there. */
  lemma {:induction false} StepOfRun(lib: Library, disk: Option<Bytes>, steps: seq<Step>, i: nat) returns (s: State)
    requires Run(lib, Boot(disk), steps).Some? && i < |steps|
    ensures Run(lib, Boot(disk), steps[..i]) == Some(s) && Inv(lib, s) && Enabled(lib, s, steps[i])
    ensures Run(lib, Boot(disk), steps[..i + 1]) == Some(Apply(lib, s, steps[i]))
  {
    RunPrefix(lib, Boot(disk), steps, i);
    RunInv(lib, disk, steps[..i]);
    s := Run(lib, Boot(disk), steps[..i]).value;
  }

  lemma {:induction false} StillWaiting(lib: Library, disk: Option<Bytes>, steps: seq<Step>, i: nat, j: nat, s: State,
                                        t: State)
    requires Run(lib, Boot(disk), steps).Some? && i < j <= |steps| && Quiet(steps, i, j)
    requires steps[i].Attempt? && steps[i].reply.Refused?
    requires Run(lib, Boot(disk), steps[..i]) == Some(s) && Run(lib, Boot(disk), steps[..j]) == Some(t)
    ensures t.nextAttemptAt == steps[i].now + Delay(s.attempts) && t.disk == s.disk
    ensures t.pc.Rest? && PendingOn(lib, t.disk).Some?
    decreases j - i
  {
    var u := StepOfRun(lib, disk, steps, j - 1);
    if j == i + 1 {
      AfterRefusal(lib, s, steps[i]);
    } else {
      StillWaiting(lib, disk, steps, i, j - 1, s, u);
      WaitsOn(lib, u, steps[j - 1]);
    }
  }

  /** After the k-th refusal in a row the next attempt, for the same result, is at least min(60, 2^(k+1)) seconds
      later. */
  lemma {:induction false} AttemptsSpaced(lib: Library, disk: Option<Bytes>, steps: seq<Step>, i: nat, j: nat)
    requires Run(lib, Boot(disk), steps).Some? && i < j < |steps| && Quiet(steps, i, j)
    requires steps[i].Attempt? && steps[i].reply.Refused? && steps[j].Attempt?
    ensures steps[j].now >= steps[i].now + Delay(Failures(steps[..i]))
    ensures Run(lib, Boot(disk), steps[..i]).Some? && Run(lib, Boot(disk), steps[..j]).Some?
    ensures Run(lib, Boot(disk), steps[..j]).value.disk == Run(lib, Boot(disk), steps[..i]).value.disk
  {
    var s := StepOfRun(lib, disk, steps, i);
    var t := StepOfRun(lib, disk, steps, j);
    StillWaiting(lib, disk, steps, i, j, s, t);
    FailuresCounted(lib, disk, steps[..i]);
  }

  // ---- a result nothing can read --------------------------------------------------------------------

  /** One job from the server's offer to its result on disk. */
  function OneJob(job: Bytes, startedAt: Bytes, o: JobOutcome, finishedAt: Bytes): seq<Step> {
    [Accept(job, startedAt, true), Start, WorkerStores(o), WorkerExits, Take, Save(finishedAt)]
  }

  lemma {:induction false} OneJobRuns(lib: Library, s: State, steps: seq<Step>, disk: Option<Bytes>, job: Bytes,
                                      startedAt: Bytes,
                                      o: JobOutcome, finishedAt: Bytes)
    requires Run(lib, Boot(disk), steps) == Some(s)
    requires s.pc.Rest? && s.runningJobId == [] && !s.running && s.accepts && PendingOn(lib, s.disk).None?
    requires job != [] && o.jobId == job
    ensures var r := Run(lib, Boot(disk), steps + OneJob(job, startedAt, o, finishedAt));
      && r.Some? && r.value.pc.Rest? && r.value.runningJobId == [] && !r.value.running && r.value.accepts
      && r.value.disk == Some(FileText(lib.fraction, Saved(o, startedAt, finishedAt)))
  {
    var todo := OneJob(job, startedAt, o, finishedAt);
    assert steps + todo == steps + [todo[0]] + [todo[1]] + [todo[2]] + [todo[3]] + [todo[4]] + [todo[5]];
    RunAppend(lib, Boot(disk), steps, todo[0]);
    RunAppend(lib, Boot(disk), steps + [todo[0]], todo[1]);
    RunAppend(lib, Boot(disk), steps + [todo[0]] + [todo[1]], todo[2]);
    RunAppend(lib, Boot(disk), steps + [todo[0]] + [todo[1]] + [todo[2]], todo[3]);
    RunAppend(lib, Boot(disk), steps + [todo[0]] + [todo[1]] + [todo[2]] + [todo[3]], todo[4]);
    RunAppend(lib, Boot(disk), steps + [todo[0]] + [todo[1]] + [todo[2]] + [todo[3]] + [todo[4]], todo[5]);
  }

  /** With any library: a first job whose result is a mebibyte or more is never offered to the server, and the next
      job's result takes its place on disk. */
  lemma {:induction false} LongResultReplaced(lib: Library, first: JobOutcome, second: JobOutcome, a: Bytes, b: Bytes,
                                              c: Bytes, d: Bytes)
    requires first.jobId != [] && second.jobId != [] && |first.resultJson| >= MaxInput
    ensures var written := Run(lib, Boot(None), OneJob(first.jobId, a, first, b));
      && written.Some? && written.value.disk == Some(FileText(lib.fraction, Saved(first, a, b)))
      && PendingOn(lib, written.value.disk) == None
      && forall now, reply :: !Enabled(lib, written.value, Attempt(now, reply))
    ensures var replaced := Run(lib, Boot(None), OneJob(first.jobId, a, first, b) + OneJob(second.jobId, c, second, d));
      replaced.Some? && replaced.value.disk == Some(FileText(lib.fraction, Saved(second, c, d)))
  {
    var one := OneJob(first.jobId, a, first, b);
    assert [] + one == one;
    OneJobRuns(lib, Boot(None), [], None, first.jobId, a, first, b);
    LongResultNotLoaded(lib.scan, lib.fraction, Saved(first, a, b));
    OneJobRuns(lib, Run(lib, Boot(None), one).value, one, None, second.jobId, c, second, d);
  }
}
