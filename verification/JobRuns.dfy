/** Theorems about every interleaving of the blocks of the job manager. */
module JobRuns {
  import opened Wrappers
  import opened ScanContracts
  import opened Campaigns
  import opened JobMachine

  // ----- every block keeps the invariant -----

  /** A block that touches one job leaves the conditions on all others alone. */
  lemma OthersKeepInv(s: State, t: State, id: JobId)
    requires Inv(s)
    requires t.jobs.Keys == s.jobs.Keys + {id} && t.lives.Keys == t.jobs.Keys
    requires s.signals.Keys - {id} <= t.signals.Keys <= t.jobs.Keys
    requires t.active.Some? ==> t.active.value in t.jobs
    requires t.active == s.active || s.active == Some(id) || (s.active.Some? ==> !s.Unfinished(s.active.value))
    requires s.rows.Keys <= t.rows.Keys <= s.rows.Keys + {id}
    requires forall other <- s.jobs :: other != id ==>
               t.jobs[other] == s.jobs[other] && t.lives[other] == s.lives[other]
    requires forall other <- s.signals :: other != id ==> t.signals[other] == s.signals[other]
    requires forall other <- t.signals :: other != id ==> other in s.signals
    requires forall other <- s.rows :: other != id ==> t.rows[other] == s.rows[other]
    requires JobInv(t, id) && (id in t.rows ==> RowInv(t, id))
    requires t.lives[id].stage.Ended? ==> id in t.signals
    ensures Inv(t)
  {
    hide JobInv, RowInv;
    forall other <- t.jobs ensures JobInv(t, other) {
      if other != id {
        JobInvCarriesOver(s, t, id, other);
      }
    }
    forall other <- t.rows ensures RowInv(t, other) {
      if other != id {
        RowInvCarriesOver(s, t, other);
      }
    }
  }

  lemma JobInvCarriesOver(s: State, t: State, id: JobId, other: JobId)
    requires other != id && other in s.jobs && other in t.jobs && other in s.lives && other in t.lives
    requires t.jobs[other] == s.jobs[other] && t.lives[other] == s.lives[other]
    requires other in s.signals <==> other in t.signals
    requires other in s.signals ==> t.signals[other] == s.signals[other]
    requires t.active == s.active || s.active == Some(id) || (s.active.Some? ==> !s.Unfinished(s.active.value))
    requires JobInv(s, other)
    ensures JobInv(t, other)
  {
  }

  lemma RowInvCarriesOver(s: State, t: State, other: JobId)
    requires other in s.rows && other in t.rows && t.rows[other] == s.rows[other]
    requires other in s.jobs <==> other in t.jobs
    requires other in s.jobs ==> t.jobs[other] == s.jobs[other]
    requires RowInv(s, other)
    ensures RowInv(t, other)
  {
  }

  lemma StartKeepsInv(s: State, id: JobId, written: bool)
    requires Inv(s) && Enabled(s, Start(id, written)) && !IsBusy(s)
    ensures Inv(Started(s, id, written))
  {
    hide Inv, ReflectsOutcome;
    InvKeys(s);
    OthersKeepInv(s, Started(s, id, written), id);
  }

  lemma InvKeys(s: State)
    requires Inv(s)
    ensures s.lives.Keys == s.jobs.Keys && s.signals.Keys <= s.jobs.Keys
    ensures s.active.Some? ==> s.active.value in s.jobs
  {
  }

  lemma InvOf(s: State, id: JobId)
    requires Inv(s) && id in s.jobs
    ensures id in s.lives && JobInv(s, id) && (id in s.rows ==> RowInv(s, id))
    ensures s.lives[id].stage.Ended? ==> id in s.signals
  {
  }

  lemma BeginKeepsInv(s: State, id: JobId, now: int, written: bool)
    requires Inv(s) && Enabled(s, Begin(id, now, written))
    ensures id in s.jobs && Inv(Begun(s, id, now, written))
  {
    hide Inv, ReflectsOutcome;
    InvKeys(s);
    InvOf(s, id);
    OthersKeepInv(s, Begun(s, id, now, written), id);
  }

  lemma ProgressKeepsInv(s: State, id: JobId, counts: Counts)
    requires Inv(s) && Enabled(s, Progress(id, counts))
    ensures id in s.jobs && Inv(s.(jobs := s.jobs[id := s.jobs[id].(counts := counts)]))
  {
    hide Inv, ReflectsOutcome;
    InvKeys(s);
    InvOf(s, id);
    OthersKeepInv(s, s.(jobs := s.jobs[id := s.jobs[id].(counts := counts)]), id);
  }

  lemma CancelKeepsInv(s: State, id: JobId)
    requires Inv(s) && s.Unfinished(id)
    ensures Inv(CancelAsked(s, id))
  {
    hide Inv, ReflectsOutcome;
    InvKeys(s);
    InvOf(s, id);
    OthersKeepInv(s, CancelAsked(s, id), id);
  }

  lemma FinalJobReflects(job: Job, life: Life, outcome: Outcome, signalled: bool)
    requires life.outcome == Some(outcome) && (life.cancelAccepted ==> signalled)
    ensures ReflectsOutcome(FinalJob(job, outcome, signalled), life)
    ensures FinalJob(job, outcome, signalled).state.IsFinal()
  {
  }

  lemma FinishKeepsInv(s: State, id: JobId, outcome: Outcome)
    requires Inv(s) && Enabled(s, Finish(id, outcome))
    ensures id in s.jobs && id in s.signals && Inv(Finished(s, id, outcome))
  {
    hide Inv, ReflectsOutcome, FinalJob, JobState.IsFinal;
    InvKeys(s);
    InvOf(s, id);
    RunningIsUnfinished(s, id);
    FinalJobReflects(s.jobs[id], s.lives[id].(stage := Ended, outcome := Some(outcome)), outcome, s.signals[id]);
    OthersKeepInv(s, Finished(s, id, outcome), id);
  }

  lemma RunningIsUnfinished(s: State, id: JobId)
    requires id in s.jobs && id in s.lives && JobInv(s, id) && s.lives[id].stage.InRunner?
    ensures !s.jobs[id].state.IsFinal() && id in s.signals
  {
  }

  lemma StampKeepsOutcome(job: Job, life: Life, now: int, stage: Stage)
    requires life.outcome.Some? && ReflectsOutcome(job, life)
    ensures ReflectsOutcome(job.(finishedAt := Some(now)), life.(stage := stage))
  {
  }

  lemma CleanupKeepsInv(s: State, id: JobId, now: int, written: bool)
    requires Inv(s) && Enabled(s, Cleanup(id, now, written))
    ensures id in s.jobs && Inv(CleanedUp(s, id, now, written))
  {
    hide Inv, ReflectsOutcome;
    InvKeys(s);
    InvOf(s, id);
    StampKeepsOutcome(s.jobs[id], s.lives[id], now, Gone);
    OthersKeepInv(s, CleanedUp(s, id, now, written), id);
  }

  lemma CloseKeepsInv(s: State)
    requires Inv(s)
    ensures Inv(s.(signals := AllSignalled(s.signals)))
  {
    var t := s.(signals := AllSignalled(s.signals));
    forall id <- t.jobs ensures JobInv(t, id) {
      assert JobInv(s, id);
    }
    forall id <- t.rows ensures RowInv(t, id) {
      assert RowInv(s, id);
    }
  }

  lemma StepKeepsInv(s: State, event: Event)
    requires Inv(s) && Enabled(s, event)
    ensures Inv(Step(s, event))
  {
    hide Inv, Started, Begun, CancelAsked, Finished, CleanedUp, Recovered;
    match event
    case Start(id, written) => if !IsBusy(s) { StartKeepsInv(s, id, written); }
    case Begin(id, now, written) => BeginKeepsInv(s, id, now, written);
    case Progress(id, counts) => ProgressKeepsInv(s, id, counts);
    case Cancel(id) => if s.Unfinished(id) { CancelKeepsInv(s, id); }
    case Finish(id, outcome) => FinishKeepsInv(s, id, outcome);
    case Cleanup(id, now, written) => CleanupKeepsInv(s, id, now, written);
    case Close => CloseKeepsInv(s);
    case Restart(now) => RestartHasInv(s, now);
  }

  lemma RestartHasInv(s: State, now: int)
    ensures Inv(EMPTY.(rows := Recovered(s.rows, now)))
  {
  }

  // ----- runs -----

  ghost predicate Legal(s: State, events: seq<Event>)
    requires Inv(s)
    decreases |events|
  {
    events == [] || (Enabled(s, events[0])
                     && (StepKeepsInv(s, events[0]); Legal(Step(s, events[0]), events[1..])))
  }

  ghost function Run(s: State, events: seq<Event>): (t: State)
    requires Inv(s) && Legal(s, events)
    ensures Inv(t)
    decreases |events|
  {
    if events == [] then s
    else
      StepKeepsInv(s, events[0]);
      Run(Step(s, events[0]), events[1..])
  }

  ghost predicate NoRestart(events: seq<Event>) {
    forall e <- events :: !e.Restart?
  }

  ghost predicate AllWritten(events: seq<Event>) {
    forall e <- events :: (e.Start? || e.Begin? ==> e.written)
  }

  /** A manager that has just been opened on a database. */
  function Opened(rows: map<JobId, Job>, now: int): (s: State)
    ensures Inv(s)
  {
    EMPTY.(rows := Recovered(rows, now))
  }

  // ----- one job at a time -----

  /** In every run at most one job is not final, and it is the active one. */
  lemma AtMostOneUnfinished(rows: map<JobId, Job>, now: int, events: seq<Event>)
    requires Legal(Opened(rows, now), events)
    ensures var s := Run(Opened(rows, now), events);
            forall a, b :: s.Unfinished(a) && s.Unfinished(b) ==> a == b && s.active == Some(a)
  {
    hide Inv;
    var s := Run(Opened(rows, now), events);
    forall a, b | s.Unfinished(a) && s.Unfinished(b) ensures a == b && s.active == Some(a) {
      InvOf(s, a);
      InvOf(s, b);
    }
  }

  /** A new job is refused exactly while some job is not final. */
  lemma RefusedIffUnfinished(s: State)
    requires Inv(s)
    ensures IsBusy(s) <==> exists id :: s.Unfinished(id)
  {
    forall id | s.Unfinished(id) ensures IsBusy(s) {
      InvOf(s, id);
    }
  }

  /** Cleaning up after an old job never clears the slot of a job started in the meantime. */
  lemma CleanupSparesNewerJob(s: State, older: JobId, newer: JobId, now: int, written: bool)
    requires Inv(s) && Enabled(s, Cleanup(older, now, written)) && s.Unfinished(newer)
    ensures Step(s, Cleanup(older, now, written)).active == Some(newer)
    ensures Step(s, Cleanup(older, now, written)).jobs[newer] == s.jobs[newer]
    ensures newer in Step(s, Cleanup(older, now, written)).signals
  {
    InvOf(s, older);
    InvOf(s, newer);
  }

  // ----- final states -----

  ghost predicate SameResult(a: Job, b: Job) {
    a.state == b.state && a.verdict == b.verdict && a.counts == b.counts && a.error == b.error
  }

  lemma FinalAfterStep(s: State, event: Event, id: JobId)
    requires Inv(s) && Enabled(s, event) && !event.Restart? && id in s.jobs && s.jobs[id].state.IsFinal()
    ensures id in Step(s, event).jobs && SameResult(Step(s, event).jobs[id], s.jobs[id])
  {
    hide Inv, ReflectsOutcome, AllSignalled;
    InvKeys(s);
    InvOf(s, id);
  }

  /** Final states are absorbing: as long as the process lives, a final job keeps its result. */
  lemma {:induction false} FinalIsForever(s: State, events: seq<Event>, id: JobId)
    requires Inv(s) && Legal(s, events) && NoRestart(events)
    requires id in s.jobs && s.jobs[id].state.IsFinal()
    ensures id in Run(s, events).jobs && SameResult(Run(s, events).jobs[id], s.jobs[id])
    decreases |events|
  {
    hide Inv, Step;
    if events != [] {
      FinalAfterStep(s, events[0], id);
      StepKeepsInv(s, events[0]);
      FinalIsForever(Step(s, events[0]), events[1..], id);
    }
  }

  lemma RowAfterStep(s: State, event: Event, id: JobId)
    requires Inv(s) && Enabled(s, event) && id in s.rows && s.rows[id].state.IsFinal()
    ensures id in Step(s, event).rows
    ensures var t := Step(s, event).rows[id];
            t.state == s.rows[id].state && t.verdict == s.rows[id].verdict && t.counts == s.rows[id].counts
  {
    hide Inv, ReflectsOutcome, AllSignalled;
    InvKeys(s);
    RowOf(s, id);
    if id in s.jobs {
      InvOf(s, id);
    }
  }

  lemma RowOf(s: State, id: JobId)
    requires Inv(s) && id in s.rows
    ensures RowInv(s, id)
  {
  }

  /** A final result in the database survives everything, restarts included. */
  lemma {:induction false} StoredResultIsForever(s: State, events: seq<Event>, id: JobId)
    requires Inv(s) && Legal(s, events) && id in s.rows && s.rows[id].state.IsFinal()
    ensures id in Run(s, events).rows
    ensures var t := Run(s, events).rows[id];
            t.state == s.rows[id].state && t.verdict == s.rows[id].verdict && t.counts == s.rows[id].counts
    decreases |events|
  {
    hide Inv, Step;
    if events != [] {
      RowAfterStep(s, events[0], id);
      StepKeepsInv(s, events[0]);
      StoredResultIsForever(Step(s, events[0]), events[1..], id);
    }
  }

  /** After a restart no stored job is left unfinished; the ones that were are recorded as failed. */
  lemma RestartFinishesEveryRow(s: State, now: int, id: JobId)
    requires Inv(s) && id in s.rows
    ensures var t := Step(s, Restart(now)).rows[id];
            && t.state.IsFinal()
            && (if s.rows[id].state.IsFinal() then t == s.rows[id]
                else t.state.JobFailed? && t.verdict.Unknown? && t.error == Some(Interrupted))
  {
  }

  // ----- cancellation -----

  lemma AcceptedAfterStep(s: State, event: Event, id: JobId)
    requires Inv(s) && Enabled(s, event) && !event.Restart?
    requires id in s.lives && s.lives[id].cancelAccepted
    ensures id in Step(s, event).lives && Step(s, event).lives[id].cancelAccepted
  {
    hide Inv, ReflectsOutcome, AllSignalled;
    InvKeys(s);
  }

  lemma {:induction false} AcceptedStays(s: State, events: seq<Event>, id: JobId)
    requires Inv(s) && Legal(s, events) && NoRestart(events)
    requires id in s.lives && s.lives[id].cancelAccepted
    ensures id in Run(s, events).lives && Run(s, events).lives[id].cancelAccepted
    decreases |events|
  {
    hide Inv, Step;
    if events != [] {
      AcceptedAfterStep(s, events[0], id);
      StepKeepsInv(s, events[0]);
      AcceptedStays(Step(s, events[0]), events[1..], id);
    }
  }

  /** Whatever happens after a cancellation was accepted, the job can only end cancelled, completed
      by a runner that said so, or failed because its runner raised; it never ends partial. */
  lemma AcceptedCancelIsHonoured(s: State, id: JobId, events: seq<Event>)
    requires Inv(s) && Legal(s, events) && NoRestart(events)
    requires s.Unfinished(id) && events != [] && events[0] == Cancel(id)
    ensures var t := Run(s, events);
            && id in t.jobs && id in t.lives
            && (t.jobs[id].state.IsFinal() ==>
                  && t.lives[id].outcome.Some?
                  && match t.lives[id].outcome.value
                     case Raised => t.jobs[id].state.JobFailed?
                     case Returned(status, _, _, _) =>
                       t.jobs[id].state == if status == Some(JobCompleted) then JobCompleted else JobCancelled)
  {
    hide Inv;
    InvOf(s, id);
    StepKeepsInv(s, events[0]);
    AcceptedStays(Step(s, events[0]), events[1..], id);
    var t := Run(s, events);
    InvKeys(t);
    InvOf(t, id);
  }

  /** A finished job shows what its runner reported: it is completed only if the runner said so, and
      then with the verdict and the counters the runner gave. */
  lemma ResultIsTheRunners(s: State, id: JobId)
    requires Inv(s) && id in s.jobs && s.jobs[id].state.IsFinal()
    ensures id in s.lives && s.lives[id].outcome.Some?
    ensures s.jobs[id].state.JobCompleted? ==>
              && s.lives[id].outcome.value.Returned? && s.lives[id].outcome.value.status == Some(JobCompleted)
    ensures !s.jobs[id].verdict.Unknown? ==>
              && s.lives[id].outcome.value.Returned?
              && s.jobs[id].verdict == s.lives[id].outcome.value.verdict
              && s.jobs[id].counts == s.lives[id].outcome.value.counts
  {
    InvOf(s, id);
  }

  // ----- lost jobs -----

  lemma LostAfterStep(s: State, event: Event, id: JobId)
    requires Inv(s) && Enabled(s, event) && !event.Restart? && id in s.lives && s.lives[id].stage.Lost?
    ensures id in Step(s, event).lives && Step(s, event).lives[id].stage.Lost?
    ensures event.Start? ==> Step(s, event) == s
  {
    hide Inv;
    InvKeys(s);
    InvOf(s, id);
  }

  /** A job whose first or second write to the database fails never ends, and no other job can be
      started until the process is restarted. */
  lemma {:induction false} LostJobBlocksForever(s: State, events: seq<Event>, id: JobId)
    requires Inv(s) && Legal(s, events) && NoRestart(events) && id in s.lives && s.lives[id].stage.Lost?
    ensures var t := Run(s, events); t.Unfinished(id) && IsBusy(t) && t.jobs.Keys == s.jobs.Keys
    decreases |events|
  {
    hide Inv, Step;
    if events == [] {
      InvKeys(s);
      InvOf(s, id);
    } else {
      LostAfterStep(s, events[0], id);
      StepKeepsInv(s, events[0]);
      JobsAfterStep(s, events[0]);
      LostJobBlocksForever(Step(s, events[0]), events[1..], id);
    }
  }

  lemma JobsAfterStep(s: State, event: Event)
    requires Inv(s) && Enabled(s, event) && !event.Restart?
    ensures event.Start? || Step(s, event).jobs.Keys == s.jobs.Keys
  {
    hide Inv, FinalJob, AllSignalled, Recovered, ReflectsOutcome;
    InvKeys(s);
  }

  ghost predicate NoneLost(s: State) {
    forall id <- s.lives :: !s.lives[id].stage.Lost?
  }

  /** A job is lost only by a failed write of its own. */
  lemma LostByFailedWrite(s: State, event: Event, id: JobId)
    requires Inv(s) && Enabled(s, event)
    requires id in Step(s, event).lives && Step(s, event).lives[id].stage.Lost?
    ensures (id in s.lives && s.lives[id].stage.Lost?)
            || ((event.Start? || event.Begin?) && event.id == id && !event.written)
  {
    hide Inv, FinalJob, AllSignalled, Recovered, ReflectsOutcome;
    InvKeys(s);
  }

  lemma NoneLostAfterStep(s: State, event: Event)
    requires Inv(s) && Enabled(s, event) && NoneLost(s) && AllWritten([event])
    ensures NoneLost(Step(s, event))
  {
    hide Inv, Step;
    assert event in [event];
    forall id <- Step(s, event).lives ensures !Step(s, event).lives[id].stage.Lost? {
      if Step(s, event).lives[id].stage.Lost? {
        LostByFailedWrite(s, event, id);
      }
    }
  }

  /** Without failed writes no job is lost: every unfinished job has a thread that will move it on. */
  lemma {:induction false} WrittenJobsAreNotLost(s: State, events: seq<Event>)
    requires Inv(s) && Legal(s, events) && NoneLost(s) && AllWritten(events)
    ensures NoneLost(Run(s, events))
    ensures forall id :: Run(s, events).Unfinished(id) ==>
              id in Run(s, events).lives
              && (Run(s, events).lives[id].stage.Spawned? || Run(s, events).lives[id].stage.InRunner?)
    decreases |events|
  {
    hide Inv, Step;
    if events == [] {
      forall id | s.Unfinished(id)
        ensures id in s.lives && (s.lives[id].stage.Spawned? || s.lives[id].stage.InRunner?)
      {
        InvOf(s, id);
      }
    } else {
      assert AllWritten([events[0]]) && AllWritten(events[1..]);
      NoneLostAfterStep(s, events[0]);
      StepKeepsInv(s, events[0]);
      WrittenJobsAreNotLost(Step(s, events[0]), events[1..]);
    }
  }

  // ----- what the blocks make of their job -----

  /** What its own block makes of a job. */
  predicate Makes(job: Job, made: Job, event: Event, signalled: bool) {
    match event
    case Begin(_, now, _) => made == job.(state := Running, startedAt := Some(now))
    case Progress(_, counts) => made == job.(counts := counts)
    case Cancel(_) => made == if job.state.IsFinal() then job else job.(state := Cancelling)
    case Finish(_, outcome) => FinishMakes(job, made, outcome, signalled)
    case Cleanup(_, now, _) => made == job.(finishedAt := Some(now))
    case _ => true
  }

  /** A job whose cancel event is set ends cancelled by its user unless its runner completed it. */
  predicate FinishMakes(job: Job, made: Job, outcome: Outcome, signalled: bool) {
    match outcome
    case Raised => made == job.(state := JobFailed, verdict := Unknown, error := Some(RunnerFailed))
    case Returned(status, verdict, counts, error) =>
      && made == job.(verdict := verdict, counts := counts, state := made.state, error := made.error)
      && if signalled && status != Some(JobCompleted) then
           made.state.JobCancelled? && made.error == Some(CancelledByUser)
         else StandsFor(status, made.state) && made.error == error
  }

  lemma StepMakes(s: State, event: Event)
    requires Inv(s) && Enabled(s, event)
    requires event.Begin? || event.Progress? || event.Cancel? || event.Finish? || event.Cleanup?
    ensures event.id in s.jobs ==>
              && event.id in Step(s, event).jobs
              && Makes(s.jobs[event.id], Step(s, event).jobs[event.id], event,
                       event.id in s.signals && s.signals[event.id])
    ensures !event.Cancel? ==> event.id in s.jobs
  {
    hide Inv;
    InvKeys(s);
    if event.id in s.jobs {
      InvOf(s, event.id);
    }
  }

  /** A new job is queued, with nothing counted; its row says the same if it could be written. */
  lemma StartMakes(s: State, id: JobId, written: bool)
    requires Inv(s) && Enabled(s, Start(id, written)) && !IsBusy(s)
    ensures var t, job := Step(s, Start(id, written)), Job(Queued, Unknown, Counts(0, 0, 0, 0, 0), None, None, None);
            && t.jobs == s.jobs[id := job] && t.active == Some(id) && id in t.signals && !t.signals[id]
            && t.rows == if written then s.rows[id := job] else s.rows
  {
  }

  /** What is written is the job as it is; a block that does not write leaves the rows alone. */
  lemma RowsAfterStep(s: State, event: Event)
    requires Inv(s) && Enabled(s, event) && !event.Start? && !event.Restart?
    ensures if (event.Begin? || event.Cleanup?) && event.written then
              event.id in Step(s, event).jobs
              && Step(s, event).rows == s.rows[event.id := Step(s, event).jobs[event.id]]
            else Step(s, event).rows == s.rows
  {
    hide Inv, FinalJob, AllSignalled;
    InvKeys(s);
  }

  /** A cancel event is set by a cancellation of its own job or by closing, and is gone after a written
      cleanup. */
  lemma SignalsAfterStep(s: State, event: Event, id: JobId)
    requires Inv(s) && Enabled(s, event) && !event.Start? && !event.Restart? && id in s.signals
    ensures id !in Step(s, event).signals <==> event.Cleanup? && event.written && event.id == id
    ensures id in Step(s, event).signals ==>
              (Step(s, event).signals[id] <==>
               s.signals[id] || event.Close? || (event == Cancel(id) && s.Unfinished(id)))
  {
    hide FinalJob;
  }

  /** The slot is given up by a written cleanup of the job that holds it, and by nothing else. */
  lemma SlotAfterStep(s: State, event: Event)
    requires Inv(s) && Enabled(s, event) && !event.Start? && !event.Restart?
    ensures Step(s, event).active ==
              if event.Cleanup? && event.written && s.active == Some(event.id) then None else s.active
  {
    hide FinalJob, AllSignalled;
  }

  /** After a restart no job is known; a row that was final is as it was, and any other is failed as
      interrupted with its counters. */
  lemma RestartMakes(s: State, now: int)
    requires Inv(s)
    ensures Step(s, Restart(now)).jobs == map[] && Step(s, Restart(now)).rows.Keys == s.rows.Keys
    ensures forall id <- s.rows ::
              Step(s, Restart(now)).rows[id] ==
              if s.rows[id].state in {JobCompleted, JobPartial, JobCancelled, JobFailed} then s.rows[id]
              else s.rows[id].(state := JobFailed, verdict := Unknown, error := Some(Interrupted),
                               finishedAt := Some(now))
  {
  }
}
