/** Background scan jobs: what each block of code that holds the lock does to the shared state, and
    what every interleaving of those blocks keeps. */
module JobMachine {
  import opened Wrappers
  import opened ScanContracts
  import opened Campaigns

  type JobId = string

  datatype JobState = Queued | Running | Cancelling | JobCompleted | JobPartial | JobCancelled | JobFailed {
    predicate IsFinal() {
      JobCompleted? || JobPartial? || JobCancelled? || JobFailed?
    }
  }

  datatype JobError = CancelledByUser | RunnerFailed | Interrupted | Told(code: string)

  datatype Job = Job(
    state: JobState,
    verdict: Verdict,
    counts: Counts,
    error: Option<JobError>,
    startedAt: Option<int>,
    finishedAt: Option<int>)

  const NEW_JOB := Job(Queued, Unknown, NO_COUNTS, None, None, None)

  /** What the runner of a job came back with. */
  datatype Outcome =
    | Returned(status: Option<JobState>, verdict: Verdict, counts: Counts, error: Option<JobError>)
    | Raised

  /** Where the thread of a job is: started, inside the runner, past the block that sets the final
      state, or finished; `Lost` when there is no thread although the job was created. */
  datatype Stage = Spawned | InRunner | Ended | Gone | Lost

  /** Bookkeeping that the program does not keep. */
  datatype Life = Life(stage: Stage, cancelAccepted: bool, outcome: Option<Outcome>)

  datatype State = State(
    jobs: map<JobId, Job>,
    signals: map<JobId, bool>,
    active: Option<JobId>,
    rows: map<JobId, Job>,
    lives: map<JobId, Life>)
  {
    predicate Unfinished(id: JobId) {
      id in jobs && !jobs[id].state.IsFinal()
    }
  }

  const EMPTY := State(map[], map[], None, map[], map[])

  /** The blocks that run under the lock. A flag tells whether the write to the database succeeded. */
  datatype Event =
    | Start(id: JobId, written: bool)
    | Begin(id: JobId, now: int, written: bool)
    | Progress(id: JobId, counts: Counts)
    | Cancel(id: JobId)
    | Finish(id: JobId, outcome: Outcome)
    | Cleanup(id: JobId, now: int, written: bool)
    | Close
    | Restart(now: int)

  // ----- the blocks -----

  predicate IsBusy(s: State) {
    s.active.Some? && s.Unfinished(s.active.value)
  }

  /** `INSERT OR REPLACE` of one row. */
  function Written(s: State, id: JobId, written: bool): State
    requires id in s.jobs
  {
    if written then s.(rows := s.rows[id := s.jobs[id]]) else s
  }

  function AtStage(s: State, id: JobId, stage: Stage): State {
    if id in s.lives then s.(lives := s.lives[id := s.lives[id].(stage := stage)]) else s
  }

  /** The job is registered before its row is written and its thread is started. */
  function Started(s: State, id: JobId, written: bool): State {
    var created := s.(
      jobs := s.jobs[id := NEW_JOB], signals := s.signals[id := false], active := Some(id),
      lives := s.lives[id := Life(if written then Spawned else Lost, false, None)]);
    Written(created, id, written)
  }

  function Begun(s: State, id: JobId, now: int, written: bool): State
    requires id in s.jobs
  {
    var running := s.(jobs := s.jobs[id := s.jobs[id].(state := Running, startedAt := Some(now))]);
    AtStage(Written(running, id, written), id, if written then InRunner else Lost)
  }

  function CancelAsked(s: State, id: JobId): State
    requires s.Unfinished(id)
  {
    s.(signals := s.signals[id := true],
       jobs := s.jobs[id := s.jobs[id].(state := Cancelling)],
       lives := if id in s.lives then s.lives[id := s.lives[id].(cancelAccepted := true)] else s.lives)
  }

  function FinalJob(job: Job, outcome: Outcome, signalled: bool): Job {
    match outcome
    case Raised => job.(state := JobFailed, verdict := Unknown, error := Some(RunnerFailed))
    case Returned(status, verdict, counts, error) =>
      var state := if status.Some? && status.value.IsFinal() then status.value else JobFailed;
      var told := job.(state := state, verdict := verdict, counts := counts, error := error);
      if signalled && !state.JobCompleted? then
        told.(state := JobCancelled, error := Some(CancelledByUser))
      else told
  }

  function Finished(s: State, id: JobId, outcome: Outcome): State
    requires id in s.jobs && id in s.signals
  {
    var ended := s.(jobs := s.jobs[id := FinalJob(s.jobs[id], outcome, s.signals[id])]);
    ended.(lives := if id in s.lives
                    then s.lives[id := s.lives[id].(stage := Ended, outcome := Some(outcome))]
                    else s.lives)
  }

  /** A failed write leaves the slot and the signal as they are. */
  function CleanedUp(s: State, id: JobId, now: int, written: bool): State
    requires id in s.jobs
  {
    var stamped := s.(jobs := s.jobs[id := s.jobs[id].(finishedAt := Some(now))]);
    if !written then AtStage(stamped, id, Gone)
    else
      AtStage(
        Written(stamped, id, true).(
          active := if s.active == Some(id) then None else s.active,
          signals := s.signals - {id}),
        id, Gone)
  }

  function AllSignalled(signals: map<JobId, bool>): map<JobId, bool> {
    map id | id in signals :: true
  }

  /** On startup every stored job that was not final is recorded as interrupted. */
  function Recovered(rows: map<JobId, Job>, now: int): map<JobId, Job> {
    map id | id in rows ::
      if rows[id].state.IsFinal() then rows[id]
      else rows[id].(state := JobFailed, verdict := Unknown, error := Some(Interrupted), finishedAt := Some(now))
  }

  /** Whether the program can be at the beginning of this block. */
  predicate Enabled(s: State, event: Event) {
    match event
    case Start(id, _) => id !in s.jobs && id !in s.rows
    case Begin(id, _, _) => id in s.lives && s.lives[id].stage.Spawned?
    case Progress(id, _) => id in s.lives && s.lives[id].stage.InRunner?
    case Finish(id, _) => id in s.lives && s.lives[id].stage.InRunner?
    case Cleanup(id, _, _) => id in s.lives && s.lives[id].stage.Ended?
    case _ => true
  }

  function Step(s: State, event: Event): State
    requires Inv(s) && Enabled(s, event)
  {
    match event
    case Start(id, written) => if IsBusy(s) then s else Started(s, id, written)
    case Begin(id, now, written) => Begun(s, id, now, written)
    case Progress(id, counts) => s.(jobs := s.jobs[id := s.jobs[id].(counts := counts)])
    case Cancel(id) => if s.Unfinished(id) then CancelAsked(s, id) else s
    case Finish(id, outcome) => Finished(s, id, outcome)
    case Cleanup(id, now, written) => CleanedUp(s, id, now, written)
    case Close => s.(signals := AllSignalled(s.signals))
    case Restart(now) => EMPTY.(rows := Recovered(s.rows, now))
  }

  // ----- the invariant -----

  ghost predicate JobInv(s: State, id: JobId)
    requires id in s.jobs && id in s.lives
  {
    var job, life := s.jobs[id], s.lives[id];
    && (!job.state.IsFinal() ==> s.active == Some(id) && id in s.signals && life.outcome.None?)
    && (life.cancelAccepted && id in s.signals ==> s.signals[id])
    && match life.stage
       case Spawned => job.state.Queued? || job.state.Cancelling?
       case InRunner => job.state.Running? || job.state.Cancelling?
       case Lost => !job.state.IsFinal()
       case _ => job.state.IsFinal() && life.outcome.Some? && ReflectsOutcome(job, life)
  }

  /** The state that a runner's status stands for; anything that is not final counts as a failure. */
  predicate StandsFor(status: Option<JobState>, state: JobState) {
    if status in {Some(JobCompleted), Some(JobPartial), Some(JobCancelled), Some(JobFailed)}
    then status == Some(state) else state.JobFailed?
  }

  /** A final job shows what its runner came back with, and honours an accepted cancellation. */
  predicate ReflectsOutcome(job: Job, life: Life)
    requires life.outcome.Some?
  {
    match life.outcome.value
    case Raised => job.state.JobFailed? && job.verdict.Unknown? && job.error == Some(RunnerFailed)
    case Returned(status, verdict, counts, error) =>
      && job.verdict == verdict && job.counts == counts
      && (job.state.JobCompleted? <==> status == Some(JobCompleted))
      && (|| (StandsFor(status, job.state) && job.error == error)
          || (job.state.JobCancelled? && job.error == Some(CancelledByUser)))
      && (life.cancelAccepted && !job.state.JobCompleted? ==>
            job.state.JobCancelled? && job.error == Some(CancelledByUser))
  }

  /** The database is never ahead of the job: a final row shows the final state of the job. */
  ghost predicate RowInv(s: State, id: JobId)
    requires id in s.rows
  {
    && !s.rows[id].state.Cancelling?
    && (id in s.jobs && s.rows[id].state.IsFinal() ==>
          s.jobs[id].state == s.rows[id].state && s.jobs[id].verdict == s.rows[id].verdict
          && s.jobs[id].counts == s.rows[id].counts)
    && (id !in s.jobs ==> s.rows[id].state.IsFinal())
  }

  ghost predicate Inv(s: State) {
    && s.lives.Keys == s.jobs.Keys
    && s.signals.Keys <= s.jobs.Keys
    && (s.active.Some? ==> s.active.value in s.jobs)
    && (forall id <- s.jobs :: JobInv(s, id))
    && (forall id <- s.rows :: RowInv(s, id))
    && (forall id <- s.jobs :: s.lives[id].stage.Ended? ==> id in s.signals)
  }
}
