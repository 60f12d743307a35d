/** The agent's loop and its job executor, as objects whose every visible effect is a step of the protocol. */
module Agent {
  import opened Basics
  import opened JsonText
  import opened PendingFile
  import opened Backoff
  import opened AgentProtocol

  /** The path the pending result is kept under; it outlives the process. */
  class Disk {
    var file: Option<Bytes>

    constructor (file: Option<Bytes>)
      ensures this.file == file
    {
      this.file := file;
    }
  }

  /** Runs one job at a time on a worker thread. */
  class ThreadedExecutor {
    var worker: Worker
    var running: bool
    var collected: bool
    var outcome: JobOutcome

    constructor ()
      ensures worker == NoThread && !running && collected && outcome == NoOutcome
    {
      worker, running, collected, outcome := NoThread, false, true, NoOutcome;
    }

    /** The next thing the worker thread does; `o` is what the job comes to, under the job's own id. */
    method WorkerStep(o: JobOutcome)
      modifies this
      ensures collected == old(collected)
      ensures old(worker.Working?) ==>
        worker == Stored(old(worker).job) && outcome == o.(jobId := old(worker).job) && running == old(running)
      ensures old(worker.Stored?) ==> worker == Finished(old(worker).job) && !running && outcome == old(outcome)
      ensures old(!worker.Working? && !worker.Stored?) ==>
        worker == old(worker) && outcome == old(outcome) && running == old(running)
    {
      match worker {
        case Working(job) =>
          outcome := o.(jobId := job);
          worker := Stored(job);
        case Stored(job) =>
          running := false;
          worker := Finished(job);
        case _ =>
      }
    }

    method Start(job: Bytes)
      modifies this
      ensures old(running) ==> worker == old(worker) && running && collected == old(collected)
      ensures !old(running) ==> worker == Working(job) && running && !collected
      ensures outcome == old(outcome)
    {
      if running {
        return;
      }
      running := true;
      collected := false;
      worker := Working(job);
    }

    /** True at most once for each started job: the thread is joined and its outcome handed over. */
    method TakeOutcome() returns (taken: bool, out: JobOutcome)
      modifies this
      ensures taken <==> old(!running && !collected && !worker.NoThread?)
      ensures running == old(running) && outcome == old(outcome)
      ensures taken ==> out == outcome && collected && worker == NoThread
      ensures !taken ==> collected == old(collected) && worker == old(worker)
    {
      out := NoOutcome;
      if running || collected {
        return false, out;
      }
      if worker.NoThread? {
        return false, out;
      }
      worker := NoThread;
      out := outcome;
      collected := true;
      taken := true;
    }
  }

  datatype Assignment = Nothing | Offer(job: Bytes)

  datatype SnapshotReply = AuthRejected | Unreachable | Reply(accepts: bool, interval: int, assignment: Assignment)

  datatype TickOutcome = Continue | Rejected

  /** All that the outside contributes to one pass: how far the worker gets between the agent's reads, clocks, and
      answers. */
  datatype World = World(
    pauses: seq<seq<JobOutcome>>,
    finishedAt: Bytes,
    startedAt: Bytes,
    clocks: seq<int>,
    answers: seq<Reply>,
    snapshot: SnapshotReply,
    acceptOk: bool)

  function Pause(w: World, i: nat): seq<JobOutcome> { if i < |w.pauses| then w.pauses[i] else [] }

  function Clock(w: World, i: nat): int { if i < |w.clocks| then w.clocks[i] else 0 }

  function Answer(w: World, i: nat): Reply { if i < |w.answers| then w.answers[i] else Refused }

  /** What the worker thread does during a pause. */
  function WorkerSteps(worker: Worker, doings: seq<JobOutcome>): seq<Step>
    decreases |doings|
  {
    if doings == [] then []
    else
      match worker
      case Working(job) => [WorkerStores(doings[0].(jobId := job))] + WorkerSteps(Stored(job), doings[1..])
      case Stored(job) => [WorkerExits] + WorkerSteps(Finished(job), doings[1..])
      case _ => []
  }

  /** Where the thread stands after a pause. */
  function WorkerAfter(worker: Worker, doings: seq<JobOutcome>): Worker
    decreases |doings|
  {
    if doings == [] then worker
    else
      match worker
      case Working(job) => WorkerAfter(Stored(job), doings[1..])
      case Stored(job) => WorkerAfter(Finished(job), doings[1..])
      case _ => worker
  }

  /** The outcome on hand after a pause. */
  function OutcomeAfter(worker: Worker, outcome: JobOutcome, doings: seq<JobOutcome>): JobOutcome {
    if worker.Working? && doings != [] then doings[0].(jobId := worker.job) else outcome
  }

  /** One round of reporting: nothing, a refused attempt, or an attempt the server records. */
  function ReportSteps(pending: Option<Saved>, notBefore: int, now: int, answer: Reply): seq<Step> {
    if pending.None? || now < notBefore then []
    else if answer.Refused? then [Attempt(now, answer)]
    else [Attempt(now, answer), Clear]
  }

  class AgentLoop {
    const lib: Library
    const executor: ThreadedExecutor
    const disk: Disk
    var intervalSeconds: int
    var acceptsJobs: bool
    var runningJobId: Bytes
    var jobStartedAt: Bytes
    var pendingAttempts: nat
    var nextPendingAttemptAt: int
    /** What was on disk when the process started, and every step since. */
    ghost const found: Option<Bytes>
    ghost var steps: seq<Step>

    /** A process that starts on whatever an earlier one left on disk. */
    constructor (lib: Library, disk: Disk)
      ensures this.lib == lib && this.disk == disk && found == disk.file && steps == []
      ensures Valid() && fresh(executor)
    {
      this.lib, this.disk, this.found := lib, disk, disk.file;
      executor := new ThreadedExecutor();
      intervalSeconds, acceptsJobs, runningJobId, jobStartedAt := 10, true, [], [];
      pendingAttempts, nextPendingAttemptAt, steps := 0, 0, [];
    }

    /** The protocol state the fields stand for. */
    ghost function Abstract(pc: Pc): State
      reads this, executor, disk
    {
      State(executor.worker, executor.running, executor.collected, executor.outcome, runningJobId, jobStartedAt,
            acceptsJobs, pendingAttempts, nextPendingAttemptAt, pc, disk.file)
    }

    /** The steps so far are a run of the protocol and have led to where the fields are. */
    ghost predicate Follows(pc: Pc)
      reads this, executor, disk
    {
      Run(lib, Boot(found), steps) == Some(Abstract(pc)) && MinInterval <= intervalSeconds <= MaxInterval
    }

    ghost predicate Valid()
      reads this, executor, disk
    {
      Follows(Rest)
    }

    /** The worker thread runs on while the agent looks elsewhere. */
    method Elapse(doings: seq<JobOutcome>)
      requires Valid()
      modifies executor, this`steps
      ensures Valid() && steps == old(steps) + WorkerSteps(old(executor.worker), doings)
      ensures executor.worker == WorkerAfter(old(executor.worker), doings)
      ensures executor.outcome == OutcomeAfter(old(executor.worker), old(executor.outcome), doings)
    {
      ghost var all := WorkerSteps(executor.worker, doings);
      assert doings[0..] == doings;
      for i := 0 to |doings|
        invariant Valid()
        invariant steps + WorkerSteps(executor.worker, doings[i..]) == old(steps) + all
        invariant WorkerAfter(executor.worker, doings[i..]) == WorkerAfter(old(executor.worker), doings)
        invariant OutcomeAfter(executor.worker, executor.outcome, doings[i..]) ==
          OutcomeAfter(old(executor.worker), old(executor.outcome), doings)
      {
        ghost var before, was := Abstract(Rest), steps;
        assert doings[i..][0] == doings[i] && doings[i..][1..] == doings[i + 1..];
        executor.WorkerStep(doings[i]);
        if before.worker.Working? {
          Record(before, WorkerStores(doings[i].(jobId := before.worker.job)), Rest);
        } else if before.worker.Stored? {
          Record(before, WorkerExits, Rest);
        }
        assert was + WorkerSteps(before.worker, doings[i..]) == steps + WorkerSteps(executor.worker, doings[i + 1..]);
      }
    }

    /** What has just happened goes on record as a step. */
    ghost method Record(before: State, step: Step, pc: Pc)
      requires Run(lib, Boot(found), steps) == Some(before) && Enabled(lib, before, step)
      requires Apply(lib, before, step) == Abstract(pc)
      requires MinInterval <= intervalSeconds <= MaxInterval
      modifies this`steps
      ensures Follows(pc) && steps == old(steps) + [step]
    {
      RunAppend(lib, Boot(found), steps, step);
      steps := steps + [step];
    }

    /** The pending result on disk, if it can be read. */
    method LoadPendingResult() returns (s: Option<Saved>)
      ensures s == PendingOn(lib, disk.file)
    {
      if disk.file.None? {
        return None;
      }
      s := Load(lib.scan, disk.file.value);
    }

    method ClearPendingResult(ghost job: Bytes)
      requires Follows(Acked(job))
      modifies this`steps, this`pendingAttempts, this`nextPendingAttemptAt, disk
      ensures Valid() && steps == old(steps) + [Clear]
    {
      ghost var before := Abstract(Acked(job));
      disk.file := None;
      pendingAttempts, nextPendingAttemptAt := 0, 0;
      Record(before, Clear, Rest);
    }

    method ReportPendingIfAny(now: int, answer: Reply)
      requires Valid()
      modifies this`steps, this`pendingAttempts, this`nextPendingAttemptAt, disk
      ensures Valid()
      ensures steps == old(steps) + ReportSteps(PendingOn(lib, old(disk.file)), old(nextPendingAttemptAt), now, answer)
    {
      var pending := LoadPendingResult();
      if pending.None? || now < nextPendingAttemptAt {
        return;
      }
      ghost var before := Abstract(Rest);
      if !answer.Refused? {
        Record(before, Attempt(now, answer), Acked(pending.value.outcome.jobId));
        ClearPendingResult(pending.value.outcome.jobId);
        return;
      }
      var delay := ResultBackoffSeconds(pendingAttempts);
      pendingAttempts := pendingAttempts + 1;
      nextPendingAttemptAt := now + delay;
      Record(before, Attempt(now, answer), Rest);
    }

    /** Disk first, then everything that says a job is running. */
    method SavePendingResult(o: JobOutcome, finishedAt: Bytes)
      requires Follows(Took(o))
      modifies this`steps, this`runningJobId, this`jobStartedAt, this`pendingAttempts, this`nextPendingAttemptAt, disk
      ensures Valid() && steps == old(steps) + [Step.Save(finishedAt)]
      ensures disk.file == Some(FileText(lib.fraction, Saved(o, old(jobStartedAt), finishedAt)))
      ensures runningJobId == [] && nextPendingAttemptAt == 0
    {
      ghost var before := Abstract(Took(o));
      disk.file := Some(FileText(lib.fraction, Saved(o, jobStartedAt, finishedAt)));
      runningJobId, jobStartedAt := [], [];
      pendingAttempts, nextPendingAttemptAt := 0, 0;
      Record(before, Step.Save(finishedAt), Rest);
    }

    /** The running job's outcome, if its thread is done. */
    method TakeFinished() returns (taken: bool, o: JobOutcome)
      requires Valid() && runningJobId != []
      modifies this`steps, executor
      ensures taken <==> old(executor.worker).Finished?
      ensures taken ==> Follows(Took(o)) && steps == old(steps) + [Take] && o == old(executor.outcome)
      ensures !taken ==> Valid() && steps == old(steps)
    {
      RunInv(lib, found, steps);
      ghost var before := Abstract(Rest);
      taken, o := executor.TakeOutcome();
      if taken {
        Record(before, Take, Took(o));
      }
    }

    method CollectFinishedJob(w: World)
      requires Valid()
      modifies this, executor, disk
      ensures Valid() && intervalSeconds == old(intervalSeconds) && acceptsJobs == old(acceptsJobs)
      ensures old(runningJobId) == [] ==>
        steps == old(steps) && disk.file == old(disk.file) && runningJobId == []
          && nextPendingAttemptAt == old(nextPendingAttemptAt)
      ensures old(runningJobId) != [] ==>
        Collected(old(steps), old(executor.worker), old(executor.outcome), old(runningJobId), old(jobStartedAt), w)
    {
      if runningJobId == [] {
        return;
      }
      ghost var job, startedAt := runningJobId, jobStartedAt;
      Elapse(Pause(w, 0));
      var taken, outcome := TakeFinished();
      if !taken {
        return;
      }
      SavePendingResult(outcome, w.finishedAt);
      ReportPendingIfAny(Clock(w, 0), Answer(w, 0));
    }

    /** What collecting comes to while a job is in hand: nothing but the worker's own steps, or the job's result taken,
        saved and offered at once. */
    ghost predicate Collected(was: seq<Step>, worker: Worker, outcome: JobOutcome, job: Bytes, startedAt: Bytes,
                              w: World)
      reads this
    {
      var during := WorkerSteps(worker, Pause(w, 0));
      if !WorkerAfter(worker, Pause(w, 0)).Finished? then runningJobId == job && steps == was + during
      else
        var text := FileText(lib.fraction, Saved(OutcomeAfter(worker, outcome, Pause(w, 0)), startedAt, w.finishedAt));
        && runningJobId == []
        && steps == was + during + [Take] + [Step.Save(w.finishedAt)]
           + ReportSteps(PendingOn(lib, Some(text)), 0, Clock(w, 0), Answer(w, 0))
    }

    /** Is there a job in hand, or a thread still at work? */
    method Busy() returns (b: bool)
      ensures b <==> runningJobId != [] || executor.running
    {
      b := runningJobId != [] || executor.running;
    }

    method StartJob(job: Bytes)
      requires Follows(Accepted(job))
      modifies this`steps, executor
      ensures Valid() && steps == old(steps) + [Step.Start] && executor.worker == Working(job)
    {
      RunInv(lib, found, steps);
      ghost var before := Abstract(Accepted(job));
      executor.Start(job);
      Record(before, Step.Start, Rest);
    }

    method MaybeTakeJob(job: Bytes, w: World)
      requires Valid() && job != []
      modifies this, executor
      ensures Valid() && acceptsJobs == old(acceptsJobs) && intervalSeconds == old(intervalSeconds)
      ensures old(runningJobId) != [] ==>
        runningJobId == old(runningJobId) && steps == old(steps) + WorkerSteps(old(executor.worker), Pause(w, 2))
      ensures old(runningJobId) == [] && (!acceptsJobs || PendingOn(lib, disk.file).Some?) ==>
        runningJobId == [] && steps == old(steps)
      ensures old(runningJobId) == [] && acceptsJobs && PendingOn(lib, disk.file).None? ==>
        if w.acceptOk then
          runningJobId == job && jobStartedAt == w.startedAt && executor.worker == Working(job)
          && steps == old(steps) + [Accept(job, w.startedAt, true)] + [Step.Start]
        else runningJobId == [] && steps == old(steps) + [Accept(job, w.startedAt, false)]
    {
      RunInv(lib, found, steps);
      Elapse(Pause(w, 2));
      var busy := Busy();
      if busy || !acceptsJobs {
        return;
      }
      var pending := LoadPendingResult();
      if pending.Some? {
        return;
      }
      ghost var before := Abstract(Rest);
      if !w.acceptOk {
        Record(before, Accept(job, w.startedAt, false), Rest);
        return;
      }
      runningJobId, jobStartedAt := job, w.startedAt;
      Record(before, Accept(job, w.startedAt, true), Accepted(job));
      StartJob(job);
    }

    method ActOnReply(accepts: bool, interval: int, assignment: Assignment, w: World)
      requires Valid()
      modifies this, executor
      ensures Valid() && acceptsJobs == accepts && intervalSeconds == ClampSnapshotInterval(interval)
      ensures old(steps) + [Snapshot(accepts)] <= steps
      ensures
        old(runningJobId) == [] && accepts && PendingOn(lib, disk.file).None? && assignment.Offer?
        && assignment.job != [] && w.acceptOk ==>
        runningJobId == assignment.job && executor.worker == Working(assignment.job)
      ensures
        old(runningJobId) != [] || !accepts || PendingOn(lib, disk.file).Some? || !assignment.Offer?
        || assignment.job == [] || !w.acceptOk ==>
        runningJobId == old(runningJobId)
    {
      ghost var before := Abstract(Rest);
      acceptsJobs := accepts;
      intervalSeconds := ClampSnapshotInterval(interval);
      Record(before, Snapshot(accepts), Rest);
      if assignment.Offer? && assignment.job != [] {
        MaybeTakeJob(assignment.job, w);
      }
    }

    /** The first half of a pass: what is finished is saved, what is saved is offered to the server. */
    method CollectAndReport(w: World)
      requires Valid()
      modifies this, executor, disk
      ensures Valid() && old(steps) <= steps && intervalSeconds == old(intervalSeconds)
      ensures acceptsJobs == old(acceptsJobs)
      ensures old(runningJobId != [] && executor.worker.Finished?) ==>
        old(steps) + [Take] + [Step.Save(w.finishedAt)] <= steps
      ensures old(runningJobId) == [] ==> runningJobId == []
      ensures old(runningJobId) == [] ==>
        steps == old(steps)
          + ReportSteps(PendingOn(lib, old(disk.file)), old(nextPendingAttemptAt), Clock(w, 1), Answer(w, 1))
    {
      ghost var worker := executor.worker;
      CollectFinishedJob(w);
      ghost var collected := steps;
      assert worker.Finished? ==> WorkerSteps(worker, Pause(w, 0)) == [] && WorkerAfter(worker, Pause(w, 0)) == worker;
      ReportPendingIfAny(Clock(w, 1), Answer(w, 1));
      assert collected <= steps;
    }

    /** The second half: the snapshot and what its answer asks for. */
    method SendSnapshot(w: World) returns (r: TickOutcome)
      requires Valid()
      modifies this, executor
      ensures Valid() && old(steps) <= steps
      ensures r.Rejected? <==> w.snapshot.AuthRejected?
      ensures
        if w.snapshot.Reply? then
          acceptsJobs == w.snapshot.accepts && intervalSeconds == ClampSnapshotInterval(w.snapshot.interval)
        else acceptsJobs == old(acceptsJobs) && intervalSeconds == old(intervalSeconds)
      ensures old(runningJobId) == [] && PendingOn(lib, disk.file).None? && Granted(w) ==>
        runningJobId == w.snapshot.assignment.job && executor.worker == Working(w.snapshot.assignment.job)
      ensures old(runningJobId) != [] || PendingOn(lib, disk.file).Some? || !Granted(w) ==>
        runningJobId == old(runningJobId)
    {
      Elapse(Pause(w, 1));
      match w.snapshot {
        case AuthRejected =>
          return Rejected;
        case Unreachable =>
          return Continue;
        case Reply(accepts, interval, assignment) =>
          ActOnReply(accepts, interval, assignment, w);
          return Continue;
      }
    }

    /** One pass of the loop. */
    method Tick(w: World) returns (r: TickOutcome)
      requires Valid()
      modifies this, executor, disk
      ensures Valid() && old(steps) <= steps
      ensures r.Rejected? <==> w.snapshot.AuthRejected?
      ensures
        if w.snapshot.Reply? then
          acceptsJobs == w.snapshot.accepts && intervalSeconds == ClampSnapshotInterval(w.snapshot.interval)
        else acceptsJobs == old(acceptsJobs) && intervalSeconds == old(intervalSeconds)
      // a job that has finished is collected and saved first of all
      ensures old(runningJobId != [] && executor.worker.Finished?) ==>
        old(steps) + [Take] + [Step.Save(w.finishedAt)] <= steps
      // a result whose waiting time is over is offered to the server
      ensures old(runningJobId) == [] ==>
        old(steps)
          + ReportSteps(PendingOn(lib, old(disk.file)), old(nextPendingAttemptAt), Clock(w, 1), Answer(w, 1))
        <= steps
      // an idle node with nothing left undelivered takes the job it is offered and granted, and no other
      ensures old(runningJobId) == [] ==>
        if PendingOn(lib, disk.file).None? && Granted(w)
        then runningJobId == w.snapshot.assignment.job && executor.worker == Working(w.snapshot.assignment.job)
        else runningJobId == []
    {
      CollectAndReport(w);
      r := SendSnapshot(w);
    }
  }

  /** The server takes work in, offers a job and lets this node have it. */
  predicate Granted(w: World) {
    w.snapshot.Reply? && w.snapshot.accepts && w.snapshot.assignment.Offer? && w.snapshot.assignment.job != []
      && w.acceptOk
  }
}
