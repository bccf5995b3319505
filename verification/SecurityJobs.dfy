/** The manager of background scan jobs; each method is one block of code that holds the lock. */
module SecurityJobs {
  import opened Wrappers
  import opened ScanContracts
  import opened Campaigns
  import opened JobMachine
  import opened JobRuns

  datatype JobFault = AlreadyRunning | NotFound | WriteFailed

  class SecurityJobManager {
    var jobs: map<JobId, Job>
    var cancelEvents: map<JobId, bool>
    var activeJobId: Option<JobId>
    var rows: map<JobId, Job>
    ghost var lives: map<JobId, Life>

    ghost function Abs(): State
      reads this
    {
      State(jobs, cancelEvents, activeJobId, rows, lives)
    }

    ghost predicate Valid()
      reads this
    {
      Inv(Abs())
    }

    /** Open the database of an earlier process and record its unfinished jobs as interrupted. */
    constructor (stored: map<JobId, Job>, now: int)
      ensures Valid() && Abs() == Opened(stored, now)
    {
      jobs, cancelEvents, activeJobId, lives := map[], map[], None, map[];
      rows := Recovered(stored, now);
    }

    /** Write the row of a job; the database may refuse. */
    method Persist(id: JobId) returns (written: bool)
      requires id in jobs
      modifies this`rows
      ensures rows == if written then old(rows)[id := jobs[id]] else old(rows)
    {
      written := *;
      if written {
        rows := rows[id := jobs[id]];
      }
    }

    method Start(id: JobId) returns (fault: Option<JobFault>, ghost written: bool)
      requires Valid() && id !in jobs && id !in rows
      modifies this
      ensures Valid() && Abs() == Step(old(Abs()), Event.Start(id, written))
      ensures fault == Some(AlreadyRunning) <==> exists other :: old(Abs()).Unfinished(other)
      ensures fault == None ==> Abs().Unfinished(id) && jobs[id].state.Queued? && activeJobId == Some(id)
      ensures fault == Some(WriteFailed) ==> Abs().Unfinished(id) && lives[id].stage.Lost?
      ensures fault == Some(AlreadyRunning) ==> Abs() == old(Abs())
    {
      hide Inv;
      RefusedIffUnfinished(Abs());
      StepKeepsInv(Abs(), Event.Start(id, true));
      StepKeepsInv(Abs(), Event.Start(id, false));
      if activeJobId.Some? && activeJobId.value in jobs && !jobs[activeJobId.value].state.IsFinal() {
        return Some(AlreadyRunning), true;
      }
      jobs := jobs[id := NEW_JOB];
      cancelEvents := cancelEvents[id := false];
      activeJobId := Some(id);
      var done := Persist(id);
      lives := lives[id := Life(if done then Spawned else Lost, false, None)];
      return if done then None else Some(WriteFailed), done;
    }

    /** The first block of the thread. */
    method Begin(id: JobId, now: int) returns (ghost written: bool)
      requires Valid() && id in lives && lives[id].stage.Spawned?
      modifies this
      ensures Valid() && Abs() == Step(old(Abs()), Event.Begin(id, now, written))
      ensures id in jobs && jobs[id].state.Running? && jobs[id].startedAt == Some(now) && Abs().Unfinished(id)
      ensures cancelEvents == old(cancelEvents)
    {
      hide Inv;
      InvKeys(Abs());
      StepKeepsInv(Abs(), Event.Begin(id, now, true));
      StepKeepsInv(Abs(), Event.Begin(id, now, false));
      jobs := jobs[id := jobs[id].(state := Running, startedAt := Some(now))];
      var done := Persist(id);
      lives := lives[id := lives[id].(stage := if done then InRunner else Lost)];
      written := done;
    }

    /** A progress report of the runner. */
    method Progress(id: JobId, counts: Counts)
      requires Valid() && id in lives && lives[id].stage.InRunner?
      modifies this`jobs
      ensures Valid() && Abs() == Step(old(Abs()), Event.Progress(id, counts))
      ensures id in old(jobs) && id in jobs && jobs[id] == old(jobs)[id].(counts := counts) && Abs().Unfinished(id)
    {
      hide Inv;
      InvKeys(Abs());
      InvOf(Abs(), id);
      StepKeepsInv(Abs(), Event.Progress(id, counts));
      jobs := jobs[id := jobs[id].(counts := counts)];
    }

    method Cancel(id: JobId) returns (r: Result<Job, JobFault>)
      requires Valid()
      modifies this
      ensures Valid() && Abs() == Step(old(Abs()), Event.Cancel(id))
      ensures r == if id in old(jobs) then Success(jobs[id]) else Failure(NotFound)
      ensures old(Abs()).Unfinished(id) ==> jobs[id].state.Cancelling? && cancelEvents[id]
    {
      hide Inv;
      InvKeys(Abs());
      StepKeepsInv(Abs(), Event.Cancel(id));
      if id !in jobs {
        return Failure(NotFound);
      }
      if !jobs[id].state.IsFinal() {
        InvOf(Abs(), id);
        cancelEvents := cancelEvents[id := true];
        jobs := jobs[id := jobs[id].(state := Cancelling)];
        lives := lives[id := lives[id].(cancelAccepted := true)];
      }
      return Success(jobs[id]);
    }

    /** The block after the runner returned, or raised. */
    method Finish(id: JobId, outcome: Outcome)
      requires Valid() && id in lives && lives[id].stage.InRunner?
      modifies this
      ensures Valid() && Abs() == Step(old(Abs()), Event.Finish(id, outcome))
      ensures id in jobs && jobs[id].state.IsFinal() && ReflectsOutcome(jobs[id], lives[id])
      ensures forall other :: !Abs().Unfinished(other)
    {
      hide Inv;
      InvKeys(Abs());
      InvOf(Abs(), id);
      StepKeepsInv(Abs(), Event.Finish(id, outcome));
      forall other | Abs().Unfinished(other) ensures other == id {
        InvOf(Abs(), other);
      }
      var job := jobs[id];
      match outcome {
        case Returned(status, verdict, counts, error) =>
          job := job.(verdict := verdict, counts := counts, error := error,
                      state := if status.Some? && status.value.IsFinal() then status.value else JobFailed);
          if cancelEvents[id] && !job.state.JobCompleted? {
            job := job.(state := JobCancelled, error := Some(CancelledByUser));
          }
        case Raised =>
          job := job.(state := JobFailed, verdict := Unknown, error := Some(RunnerFailed));
      }
      jobs := jobs[id := job];
      lives := lives[id := lives[id].(stage := Ended, outcome := Some(outcome))];
      assert forall other :: Abs().Unfinished(other) ==> other != id && old(Abs()).Unfinished(other);
    }

    /** The last block of the thread. */
    method Cleanup(id: JobId, now: int) returns (ghost written: bool)
      requires Valid() && id in lives && lives[id].stage.Ended?
      modifies this
      ensures Valid() && Abs() == Step(old(Abs()), Event.Cleanup(id, now, written))
      ensures id in jobs && id in rows && written ==> rows[id] == jobs[id] && activeJobId != Some(id)
      ensures forall newer :: old(Abs()).Unfinished(newer) ==>
                activeJobId == Some(newer) && jobs[newer] == old(jobs)[newer] && newer in cancelEvents
    {
      hide Inv;
      InvKeys(Abs());
      StepKeepsInv(Abs(), Event.Cleanup(id, now, true));
      StepKeepsInv(Abs(), Event.Cleanup(id, now, false));
      forall newer | Abs().Unfinished(newer)
        ensures activeJobId == Some(newer) && newer != id && newer in cancelEvents
      {
        InvOf(Abs(), newer);
        CleanupSparesNewerJob(Abs(), id, newer, now, true);
      }
      jobs := jobs[id := jobs[id].(finishedAt := Some(now))];
      var done := Persist(id);
      if done {
        if activeJobId == Some(id) {
          activeJobId := None;
        }
        cancelEvents := cancelEvents - {id};
      }
      lives := lives[id := lives[id].(stage := Gone)];
      written := done;
    }

    /** Ask every job to stop, as the worker shuts down. */
    method Close()
      requires Valid()
      modifies this`cancelEvents
      ensures Valid() && Abs() == Step(old(Abs()), Event.Close)
      ensures forall id :: Abs().Unfinished(id) ==> id in cancelEvents && cancelEvents[id]
    {
      hide Inv;
      StepKeepsInv(Abs(), Event.Close);
      forall id | Abs().Unfinished(id) ensures id in cancelEvents {
        InvOf(Abs(), id);
      }
      var ids := cancelEvents.Keys;
      ghost var before := cancelEvents;
      while ids != {}
        invariant ids <= before.Keys == cancelEvents.Keys
        invariant forall id <- before :: cancelEvents[id] == (if id in ids then before[id] else true)
        decreases |ids|
      {
        var id :| id in ids;
        cancelEvents := cancelEvents[id := true];
        ids := ids - {id};
      }
      assert cancelEvents == AllSignalled(before);
    }
  }
}
