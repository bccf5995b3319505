/** The software manager: a store of tasks, updated call by call. */
module SoftwareManager {
  import opened Wrappers
  import opened SoftwareTasks
  import opened SoftwareProgress
  import opened SoftwareMachine
  import opened SoftwareSafety
  import opened SoftwareRuns
  import opened SoftwareOutcomes

  type TaskId = string

  function TaskOf(r: Result<Entry, ManagerError>): Result<Task, ManagerError> {
    if r.Success? then Success(r.value.task) else Failure(r.error)
  }

  /** If a change was requested for the task, no earlier change of it is live any more; a removal
      never becomes an installation. */
  ghost predicate StartsAlone(e: Entry, u: Entry, a: Answers) {
    && u.task.action == e.task.action
    && (u.ledger.starts != e.ledger.starts ==>
          && u.ledger.starts == e.ledger.starts + 1
          && u.ledger.live <= if a.start.Started? then {a.start.change} else {})
  }

  lemma AloneAfter(e: Entry, event: Event)
    requires Inv(e) && SaneEvent(event)
    ensures StartsAlone(e, Step(e, event), event.a)
  {
    hide Step, Inv;
    if Step(e, event).ledger.starts != e.ledger.starts {
      StartsWithNoneLive(e, event);
    }
    ActionNeverChanges(e, event);
  }

  lemma StopAsksFor(t: Task, stop: Option<Code>, now: int)
    ensures PausedByUser(StopRequested(t, User, Pausing, stop, now))
    ensures StopRequested(t, Reason.Cancel, Canceling, stop, now).state.Canceling?
  {
  }

  lemma PauseStays(e: Entry, event: Event)
    requires Inv(e) && PausedByUser(e.task) && event.BySystem()
    ensures Step(e, event).ledger.starts == e.ledger.starts
    ensures PausedByUser(Step(e, event).task) || Step(e, event).task.state.Completed?
  {
    hide Step;
    SystemKeepsUserPause(e, event);
  }

  class Manager {
    var store: map<TaskId, Task>
    ghost var ledgers: map<TaskId, Ledger>

    ghost predicate Valid()
      reads this
    {
      && store.Keys == ledgers.Keys
      && forall id :: id in store ==> Inv(Entry(store[id], ledgers[id]))
    }

    ghost predicate Known(id: TaskId)
      reads this
    {
      id in store && id in ledgers
    }

    ghost function EntryOf(id: TaskId): Entry
      requires Known(id)
      reads this
    {
      Entry(store[id], ledgers[id])
    }

    /** Task `id` is now `e`; all other tasks are as they were. */
    twostate predicate OnlyBecame(id: TaskId, e: Entry)
      reads this
    {
      store == old(store)[id := e.task] && ledgers == old(ledgers)[id := e.ledger]
    }

    constructor ()
      ensures Valid() && store == map[]
    {
      store := map[];
      ledgers := map[];
    }

    method Prepare(id: TaskId, action: Action, now: int) returns (t: Task)
      requires Valid() && id !in store
      modifies this
      ensures Valid() && OnlyBecame(id, Prepared(action, now)) && t == NewTask(action, now)
    {
      t := NewTask(action, now);
      store := store[id := t];
      ledgers := ledgers[id := NEW_LEDGER];
      PreparedIsInv(action, now);
    }

    // ----- saving, starting, stopping -----

    method Save(id: TaskId, t: Task, now: int) returns (saved: Task)
      requires Known(id)
      modifies `store
      ensures saved == Saved(t, now) && store == old(store)[id := saved]
    {
      saved := t.(updatedAt := now);
      store := store[id := saved];
    }

    method ScheduleRetry(id: TaskId, code: Code, now: int) returns (t: Task)
      requires Known(id)
      modifies this
      ensures OnlyBecame(id, RetryScheduled(old(EntryOf(id)), code, now)) && t == store[id]
    {
      t := store[id].(nextRetryAt := None, speed := None, eta := None);
      var count := t.retryCount + 1;
      if count > MAX_RETRIES {
        t := Save(id, t.(state := Interrupted, phase := InterruptedPhase, reason := Some(RetryLimit),
                         autoResume := false, error := Some("automatic_retry_exhausted")), now);
        return;
      }
      ledgers := ledgers[id := ledgers[id].(scheduledAt := now)];
      t := Save(id, t.(state := RetryWait, phase := RetryPhase, reason := Some(Retry), autoResume := true,
                       retryCount := count, nextRetryAt := Some(now + RetryDelay(count)),
                       error := Some(code)), now);
    }

    method Start(id: TaskId, a: Answers) returns (t: Task)
      requires Known(id)
      modifies this
      ensures OnlyBecame(id, StartTask(old(EntryOf(id)), a)) && t == store[id]
    {
      hide RetryScheduled;
      t := store[id];
      ledgers := ledgers[id := ledgers[id].(starts := ledgers[id].starts + 1)];
      match a.start {
        case StartRefused(code, retryable) =>
          if t.action.Install? && retryable {
            t := ScheduleRetry(id, code, a.now);
          } else {
            t := Save(id, t.(state := Failed, phase := FailedPhase, error := Some(code)), a.now);
          }
        case Started(change) =>
          ledgers := ledgers[id := ledgers[id].(live := ledgers[id].live + {change})];
          var percent := Max(0, if t.percent.Some? then t.percent.value else 0);
          t := Save(id, t.(state := Running, phase := Queued, percent := Some(percent),
                           change := Some(change), speed := None, eta := None, reason := None,
                           autoResume := false, nextRetryAt := None, lastProgressAt := Some(a.now),
                           notify := false, error := None), a.now);
      }
    }

    method RequestStop(id: TaskId, reason: Reason, target: State, a: Answers) returns (t: Task)
      requires Known(id)
      modifies `store
      ensures store == old(store)[id := StopRequested(old(store[id]), reason, target, a.stop, a.now)]
      ensures t == store[id]
    {
      var phase := if reason.Offline? then NetworkPhase
                   else if target.Canceling? then CancelingPhase else PausingPhase;
      t := Save(id, store[id].(state := target, phase := phase, reason := Some(reason),
                               autoResume := reason.Offline? || reason.Retry?, nextRetryAt := None,
                               speed := None, eta := None, error := None), a.now);
      if a.stop.Some? {
        t := Save(id, t.(state := if reason.Cancel? then Canceling else Pausing,
                         phase := if reason.Cancel? then CancelPending else PausePending,
                         error := a.stop), a.now);
      }
    }

    method DeliverNotification(id: TaskId, delivered: bool, now: int) returns (t: Task)
      requires Known(id)
      modifies `store
      ensures store == old(store)[id := Delivered(old(store[id]), delivered, now)] && t == store[id]
    {
      t := store[id];
      if t.notify && delivered {
        t := Save(id, t.(notify := false), now);
      }
    }

    // ----- calls of the user -----

    method Confirm(id: TaskId, a: Answers) returns (r: Result<Task, ManagerError>)
      requires Valid() && SaneAnswers(a)
      modifies this
      ensures Valid()
      ensures id !in old(store) ==> r == Failure(TaskNotFound) && unchanged(this)
      ensures id in old(store) ==>
                && OnlyBecame(id, Step(old(EntryOf(id)), Event.Confirm(a)))
                && r == TaskOf(Confirmed(old(EntryOf(id)), a))
      ensures id in old(store) ==> StartsAlone(old(EntryOf(id)), EntryOf(id), a)
      ensures id in old(store) ==> Makes(old(store[id]), store[id], Event.Confirm(a))
    {
      hide StartTask, Inv, StartsAlone, Makes;
      if id !in store { return Failure(TaskNotFound); }
      StepKeepsInv(EntryOf(id), Event.Confirm(a));
      StepMakes(EntryOf(id), Event.Confirm(a));
      AloneAfter(EntryOf(id), Event.Confirm(a));
      var t := store[id];
      if !t.state.AwaitingConfirmation? { return Failure(TaskNotAwaitingConfirmation); }
      ledgers := ledgers[id := ledgers[id].(confirmations := ledgers[id].confirmations + 1)];
      if t.action.Remove? {
        t := Save(id, t.(state := AwaitingFinalConfirmation, phase := FinalConfirmation), a.now);
      } else if a.gate == Some(false) {
        t := Save(id, t.(state := WaitingForNetwork, phase := NetworkPhase, reason := Some(Offline),
                         autoResume := true, percent := Some(0), lastProgressAt := Some(a.now)), a.now);
      } else {
        t := Start(id, a);
      }
      return Success(t);
    }

    method ConfirmRemoval(id: TaskId, a: Answers) returns (r: Result<Task, ManagerError>)
      requires Valid() && SaneAnswers(a)
      modifies this
      ensures Valid()
      ensures id !in old(store) ==> r == Failure(TaskNotFound) && unchanged(this)
      ensures id in old(store) ==>
                && OnlyBecame(id, Step(old(EntryOf(id)), Event.ConfirmRemoval(a)))
                && r == TaskOf(RemovalConfirmed(old(EntryOf(id)), a))
      ensures id in old(store) ==> StartsAlone(old(EntryOf(id)), EntryOf(id), a)
      ensures id in old(store) ==> Makes(old(store[id]), store[id], Event.ConfirmRemoval(a))
    {
      hide StartTask, Inv, StartsAlone, Makes;
      if id !in store { return Failure(TaskNotFound); }
      StepKeepsInv(EntryOf(id), Event.ConfirmRemoval(a));
      StepMakes(EntryOf(id), Event.ConfirmRemoval(a));
      AloneAfter(EntryOf(id), Event.ConfirmRemoval(a));
      var t := store[id];
      if !t.action.Remove? || !t.state.AwaitingFinalConfirmation? {
        return Failure(TaskNotAwaitingFinalRemovalConfirmation);
      }
      ledgers := ledgers[id := ledgers[id].(confirmations := ledgers[id].confirmations + 1)];
      t := Start(id, a);
      return Success(t);
    }

    method Pause(id: TaskId, a: Answers) returns (r: Result<Task, ManagerError>)
      requires Valid() && SaneAnswers(a)
      modifies this
      ensures Valid()
      ensures id !in old(store) ==> r == Failure(TaskNotFound) && unchanged(this)
      ensures id in old(store) ==>
                && OnlyBecame(id, Step(old(EntryOf(id)), Event.Pause(a)))
                && r == TaskOf(PauseRequested(old(EntryOf(id)), a))
      ensures r.Success? ==> PausedByUser(store[id]) && ledgers == old(ledgers)
      ensures id in old(store) ==> Makes(old(store[id]), store[id], Event.Pause(a))
    {
      hide StopRequested, Inv, Makes;
      if id !in store { return Failure(TaskNotFound); }
      StepKeepsInv(EntryOf(id), Event.Pause(a));
      StepMakes(EntryOf(id), Event.Pause(a));
      StopAsksFor(store[id], a.stop, a.now);
      var t := store[id];
      if !t.action.Install? { return Failure(TaskCannotPause); }
      if t.state.WaitingForNetwork? || t.state.RetryWait? || t.state.Interrupted? {
        t := Save(id, t.(state := Paused, phase := PausedPhase, reason := Some(User), autoResume := false,
                         nextRetryAt := None, speed := None, eta := None, error := None), a.now);
      } else if t.state.Pausing? && t.reason != Some(User) {
        t := Save(id, t.(reason := Some(User), autoResume := false, nextRetryAt := None), a.now);
      } else if t.state.Recovering? && t.change.Some?
                && (t.phase.Queued? || t.phase.Downloading? || t.phase.PausePending?) {
        t := RequestStop(id, User, Pausing, a);
      } else if !t.CanPause() || t.change.None? {
        return Failure(TaskCannotPause);
      } else {
        t := RequestStop(id, User, Pausing, a);
      }
      return Success(t);
    }

    method Resume(id: TaskId, a: Answers) returns (r: Result<Task, ManagerError>)
      requires Valid() && SaneAnswers(a)
      modifies this
      ensures Valid()
      ensures id !in old(store) ==> r == Failure(TaskNotFound) && unchanged(this)
      ensures id in old(store) ==>
                && OnlyBecame(id, Step(old(EntryOf(id)), Event.Resume(a)))
                && r == TaskOf(ResumeRequested(old(EntryOf(id)), a))
      ensures id in old(store) ==> StartsAlone(old(EntryOf(id)), EntryOf(id), a)
      ensures id in old(store) ==> Makes(old(store[id]), store[id], Event.Resume(a))
    {
      hide StartTask, Inv, StartsAlone, Makes;
      if id !in store { return Failure(TaskNotFound); }
      StepKeepsInv(EntryOf(id), Event.Resume(a));
      StepMakes(EntryOf(id), Event.Resume(a));
      AloneAfter(EntryOf(id), Event.Resume(a));
      var t := store[id];
      if !t.CanResume() { return Failure(TaskCannotResume); }
      if a.gate == Some(false) {
        t := Save(id, t.(state := WaitingForNetwork, phase := NetworkPhase, reason := Some(Offline),
                         autoResume := true, nextRetryAt := None, speed := None, eta := None,
                         error := None), a.now);
      } else {
        t := Start(id, a);
      }
      return Success(t);
    }

    method Cancel(id: TaskId, a: Answers) returns (r: Result<Task, ManagerError>)
      requires Valid() && SaneAnswers(a)
      modifies this
      ensures Valid()
      ensures id !in old(store) ==> r == Failure(TaskNotFound) && unchanged(this)
      ensures id in old(store) ==>
                && OnlyBecame(id, Step(old(EntryOf(id)), Event.Cancel(a)))
                && r == TaskOf(CancelRequested(old(EntryOf(id)), a))
      ensures r.Success? ==> (store[id].state.Canceling? || store[id].state.Canceled?) && ledgers == old(ledgers)
      ensures id in old(store) ==> (r.Failure? <==> old(store[id]).Terminal())
      ensures id in old(store) ==> Makes(old(store[id]), store[id], Event.Cancel(a))
    {
      hide StopRequested, Inv, Makes;
      if id !in store { return Failure(TaskNotFound); }
      StepKeepsInv(EntryOf(id), Event.Cancel(a));
      StepMakes(EntryOf(id), Event.Cancel(a));
      StopAsksFor(store[id], a.stop, a.now);
      var t := store[id];
      if !t.CanCancel() { return Failure(TaskCannotCancel); }
      if !t.OwnsChange() || t.change.None? {
        t := Save(id, t.(state := Canceled, phase := CanceledPhase, reason := Some(Reason.Cancel),
                         autoResume := false, nextRetryAt := None, speed := None, eta := None,
                         error := None), a.now);
      } else {
        t := RequestStop(id, Reason.Cancel, Canceling, a);
      }
      return Success(t);
    }

    // ----- polling -----

    method SaveProgress(id: TaskId, p: Progress, a: Answers) returns (t: Task)
      requires Known(id)
      modifies this
      ensures OnlyBecame(id, ProgressSaved(old(EntryOf(id)), p, a)) && t == store[id]
    {
      hide DownloadMetrics, MonotonicPercent;
      t := store[id];
      var percent := MonotonicPercent(t, p.percent);
      var metrics := DownloadMetrics(t, p, a.now);
      var moved := MadeProgress(t, percent, metrics.downloaded);
      var state := ReportedState(p);
      var ended := state.Completed? || state.Failed? || state.Canceled?;
      ledgers := ledgers[id := ledgers[id].(retryStarts := if moved then 0 else ledgers[id].retryStarts)];
      t := Save(id, t.(
        state := state, phase := p.phase, percent := percent,
        downloaded := metrics.downloaded, total := metrics.total, speed := metrics.speed,
        eta := metrics.eta,
        lastProgressAt := if moved || t.lastProgressAt.None? then Some(a.now) else t.lastProgressAt,
        retryCount := if moved then 0 else t.retryCount,
        nextRetryAt := if moved then None else t.nextRetryAt,
        reason := if p.state.StillRunning? then None else t.reason,
        autoResume := if ended then false else t.autoResume,
        notify := t.notify || (t.action.Install? && !t.state.Completed? && p.state.NowCompleted?),
        error := p.error), a.now);
    }

    method ApplyProgress(id: TaskId, p: Progress, a: Answers) returns (t: Task)
      requires Known(id)
      modifies this
      ensures OnlyBecame(id, ProgressApplied(old(EntryOf(id)), p, a)) && t == store[id]
    {
      hide RetryScheduled, StopRequested, Delivered, ProgressSaved;
      t := store[id];
      var broken := t.action.Install? && (p.state.NowFailed? || p.state.NowInterrupted?);
      if broken && a.apply == Some(false) {
        t := Save(id, t.(state := WaitingForNetwork, phase := NetworkPhase, reason := Some(Offline),
                         autoResume := true, nextRetryAt := None, speed := None, eta := None,
                         error := p.error), a.now);
        return;
      }
      if broken && (p.state.NowInterrupted? || p.retryable)
         && (t.phase.Queued? || t.phase.Downloading? || t.phase.RecoveringPhase?) {
        t := ScheduleRetry(id, if p.error.Some? then p.error.value else "change_interrupted", a.now);
        return;
      }
      t := SaveProgress(id, p, a);
      if t.action.Install? && t.state.Running? && (t.phase.Queued? || t.phase.Downloading?)
         && IsStalled(t, a.now) {
        t := RequestStop(id, Retry, Pausing, a);
        return;
      }
      t := DeliverNotification(id, a.delivered, a.now);
    }

    method RefreshPausing(id: TaskId, p: Progress, a: Answers) returns (t: Task)
      requires Known(id)
      modifies this
      ensures OnlyBecame(id, PausingRefreshed(old(EntryOf(id)), p, a)) && t == store[id]
    {
      hide RetryScheduled, ProgressApplied, MonotonicPercent;
      t := store[id];
      if p.state.NowCompleted? {
        t := ApplyProgress(id, p, a);
      } else if p.state.StillRunning? {
        t := Save(id, t.(percent := MonotonicPercent(t, p.percent), error := p.error), a.now);
      } else if t.reason == Some(User) {
        t := Save(id, t.(state := Paused, phase := PausedPhase, autoResume := false,
                         speed := None, eta := None, error := None), a.now);
      } else if t.reason == Some(Offline) {
        t := Save(id, t.(state := WaitingForNetwork, phase := NetworkPhase, autoResume := true,
                         speed := None, eta := None, error := None), a.now);
      } else {
        t := ScheduleRetry(id, if p.error.Some? then p.error.value else "change_interrupted", a.now);
      }
    }

    method RefreshCanceling(id: TaskId, p: Progress, a: Answers) returns (t: Task)
      requires Known(id)
      modifies this
      ensures OnlyBecame(id, CancelingRefreshed(old(EntryOf(id)), p, a)) && t == store[id]
    {
      hide ProgressApplied;
      t := store[id];
      if p.state.NowCompleted? {
        t := ApplyProgress(id, p, a);
      } else if !p.state.StillRunning? {
        t := Save(id, t.(state := Canceled, phase := CanceledPhase, reason := Some(Reason.Cancel),
                         autoResume := false, nextRetryAt := None, speed := None, eta := None,
                         error := None), a.now);
      }
    }

    method RefreshKnown(id: TaskId, a: Answers) returns (t: Task)
      requires Known(id)
      modifies this
      ensures OnlyBecame(id, Refreshed(old(EntryOf(id)), a)) && t == store[id]
    {
      hide StopRequested, ProgressApplied, PausingRefreshed, CancelingRefreshed, Delivered;
      t := store[id];
      if !t.OwnsChange() || t.change.None? {
        t := DeliverNotification(id, a.delivered, a.now);
        return;
      }
      if t.action.Install? && (t.state.Running? || t.state.Recovering?)
         && (t.phase.Queued? || t.phase.Downloading?) && a.gate == Some(false) {
        t := RequestStop(id, Offline, Pausing, a);
        return;
      }
      match a.progress {
        case Unreachable(code) =>
          t := Save(id, t.(
            state := if t.state.Pausing? || t.state.Canceling? then t.state else Recovering,
            reason := if t.reason.Some? then t.reason
                      else if a.lost == Some(false) then Some(Offline) else None,
            autoResume := t.autoResume || a.lostAgain == Some(false),
            error := Some(code)), a.now);
        case Reported(p) =>
          if p.Over() {
            ledgers := ledgers[id := ledgers[id].(live := ledgers[id].live - {t.change.value})];
          }
          if t.state.Canceling? {
            t := RefreshCanceling(id, p, a);
          } else if t.state.Pausing? {
            t := RefreshPausing(id, p, a);
          } else {
            t := ApplyProgress(id, p, a);
          }
      }
    }

    method Refresh(id: TaskId, a: Answers) returns (r: Result<Task, ManagerError>)
      requires Valid() && SaneAnswers(a)
      modifies this
      ensures Valid()
      ensures id !in old(store) ==> r == Failure(TaskNotFound) && unchanged(this)
      ensures id in old(store) ==>
                && OnlyBecame(id, Step(old(EntryOf(id)), Event.Refresh(a)))
                && r == Success(store[id])
      ensures id in old(store) ==>
                && ledgers[id].starts == old(ledgers[id].starts) && NeverFalls(old(store[id]), store[id].percent)
                && (old(store[id]).Terminal() ==> store[id].state == old(store[id]).state)
      ensures id in old(store) ==> Makes(old(store[id]), store[id], Event.Refresh(a))
    {
      hide Refreshed, Inv, Makes;
      if id !in store { return Failure(TaskNotFound); }
      StepKeepsInv(EntryOf(id), Event.Refresh(a));
      StepMakes(EntryOf(id), Event.Refresh(a));
      RefreshNeverStarts(EntryOf(id), a);
      PercentNeverFalls(EntryOf(id), Event.Refresh(a));
      if store[id].Terminal() {
        TerminalIsFinal(EntryOf(id), Event.Refresh(a));
      }
      var t := RefreshKnown(id, a);
      return Success(t);
    }

    method StartIfDue(id: TaskId, a: Answers) returns (t: Task)
      requires Known(id)
      modifies this
      ensures OnlyBecame(id, Woken(old(EntryOf(id)), a)) && t == store[id]
    {
      hide StartTask;
      t := store[id];
      if t.action.Install? && t.autoResume && t.state.WaitingForNetwork? && a.wake == Some(true) {
        t := Start(id, a);
      } else if t.action.Install? && t.autoResume && t.state.RetryWait? && a.wake != Some(false)
                && IsDue(t, a.now) {
        ledgers := ledgers[id := ledgers[id].(retryStarts := ledgers[id].retryStarts + 1)];
        t := Start(id, a);
      }
    }

    method ReconcileOne(id: TaskId, a: Answers) returns (t: Task)
      requires Known(id)
      modifies this
      ensures OnlyBecame(id, Reconciled(old(EntryOf(id)), a)) && t == store[id]
    {
      hide Refreshed, Woken, Delivered;
      t := store[id];
      if t.OwnsChange() {
        t := RefreshKnown(id, a);
      }
      t := StartIfDue(id, a);
      t := DeliverNotification(id, a.delivered, a.now);
    }

    /** The polling loop: every stored task is reconciled once, with its own answers. */
    method ReconcileAll(answers: TaskId -> Answers)
      requires Valid() && forall id :: SaneAnswers(answers(id))
      modifies this
      ensures Valid() && store.Keys == old(store.Keys)
      ensures forall id :: id in store ==>
                EntryOf(id) == Step(old(EntryOf(id)), Event.Reconcile(answers(id)))
      ensures forall id :: id in store ==> Makes(old(store[id]), store[id], Event.Reconcile(answers(id)))
      ensures forall id :: id in store ==> StartsAlone(old(EntryOf(id)), EntryOf(id), answers(id))
      ensures forall id :: id in store && PausedByUser(old(store[id])) ==>
                ledgers[id].starts == old(ledgers[id].starts)
                && (PausedByUser(store[id]) || store[id].state.Completed?)
    {
      hide Inv, Reconciled, StartsAlone, Makes;
      var pending := store.Keys;
      while pending != {}
        invariant Valid() && store.Keys == old(store.Keys) && pending <= store.Keys
        invariant forall id :: id in pending ==> EntryOf(id) == old(EntryOf(id))
        invariant forall id :: id in store && id !in pending ==>
                    EntryOf(id) == Step(old(EntryOf(id)), Event.Reconcile(answers(id)))
      {
        var id :| id in pending;
        pending := pending - {id};
        StepKeepsInv(EntryOf(id), Event.Reconcile(answers(id)));
        var t := ReconcileOne(id, answers(id));
      }
      hide Step;
      forall id | id in store ensures StartsAlone(old(EntryOf(id)), EntryOf(id), answers(id)) {
        AloneAfter(old(EntryOf(id)), Event.Reconcile(answers(id)));
      }
      forall id | id in store ensures Makes(old(store[id]), store[id], Event.Reconcile(answers(id))) {
        StepMakes(old(EntryOf(id)), Event.Reconcile(answers(id)));
      }
      forall id | id in store && PausedByUser(old(store[id]))
        ensures ledgers[id].starts == old(ledgers[id].starts)
        ensures PausedByUser(store[id]) || store[id].state.Completed?
      {
        PauseStays(old(EntryOf(id)), Event.Reconcile(answers(id)));
      }
    }

    method AcknowledgeNotification(id: TaskId, now: int) returns (r: Result<Task, ManagerError>)
      requires Valid()
      modifies this
      ensures Valid()
      ensures id !in old(store) ==> r == Failure(TaskNotFound) && unchanged(this)
      ensures id in old(store) ==>
                OnlyBecame(id, Acknowledged(old(EntryOf(id)), now)) && r == Success(store[id])
    {
      hide Inv;
      if id !in store { return Failure(TaskNotFound); }
      DeliveryKeepsInv(EntryOf(id), true, now);
      var t := DeliverNotification(id, true, now);
      return Success(t);
    }
  }
}
