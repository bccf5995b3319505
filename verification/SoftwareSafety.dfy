/** What holds in every run of a task: of user calls, polls, network changes and backend answers. */
module SoftwareSafety {
  import opened Wrappers
  import opened SoftwareTasks
  import opened SoftwareProgress
  import opened SoftwareMachine

  ghost predicate SaneEvent(event: Event) {
    SaneAnswers(event.a)
  }

  // ----- the invariant -----

  /** The only change that may be live is the recorded one, and only in a state that owns it. */
  ghost predicate OwnsItsChange(e: Entry) {
    forall c :: c in e.ledger.live ==> e.task.OwnsChange() && e.task.change == Some(c)
  }

  ghost predicate RetriesBounded(e: Entry) {
    && e.task.retryCount <= MAX_RETRIES
    && e.ledger.retryStarts + (if e.task.state.RetryWait? then 1 else 0) <= e.task.retryCount
    && (e.task.state.RetryWait? ==>
          e.task.retryCount >= 1
          && e.task.nextRetryAt == Some(e.ledger.scheduledAt + RetryDelay(e.task.retryCount)))
  }

  /** Confirmations come before starts, in order; a removal is started once, after two of them. */
  ghost predicate ConfirmedInOrder(e: Entry) {
    match e.task.state
    case AwaitingConfirmation =>
      e.ledger.confirmations == 0 && e.ledger.starts == 0 && e.task.percent.None?
    case AwaitingFinalConfirmation =>
      e.task.action.Remove? && e.ledger.confirmations == 1 && e.ledger.starts == 0
    case _ =>
      if e.task.action.Remove? then
        e.ledger.starts <= 1 && (e.ledger.starts == 1 ==> e.ledger.confirmations == 2)
        && (e.task.state.Canceled? || e.ledger.starts == 1)
      else e.ledger.confirmations == 1 || e.task.state.Canceled?
  }

  /** Only installations are paused, wait for the network or are retried. */
  ghost predicate RemovalsNeverWait(e: Entry) {
    (e.task.state.Pausing? || e.task.state.Paused? || e.task.state.WaitingForNetwork?
     || e.task.state.RetryWait?) ==> e.task.action.Install?
  }

  ghost predicate Displayed(e: Entry) {
    && PercentRange(e.task.percent) && PositiveSpeed(e.task.speed)
    && (e.task.notify ==> e.task.state.Completed? && e.task.action.Install?)
  }

  ghost predicate Inv(e: Entry) {
    && OwnsItsChange(e) && RetriesBounded(e) && ConfirmedInOrder(e)
    && RemovalsNeverWait(e) && Displayed(e)
  }

  lemma PreparedIsInv(action: Action, now: int)
    ensures Inv(Prepared(action, now))
  {
  }

  // ----- the pieces keep the invariant -----

  /** A task about to be started or to wait for a retry: no change of its own is live. */
  ghost predicate Ready(e: Entry) {
    && e.ledger.live == {}
    && e.task.retryCount <= MAX_RETRIES && e.ledger.retryStarts <= e.task.retryCount
    && PercentRange(e.task.percent) && PositiveSpeed(e.task.speed) && !e.task.notify
    && (if e.task.action.Remove? then
          e.ledger.starts == 0 && e.ledger.confirmations == 2
        else e.ledger.confirmations == 1)
  }

  lemma RetryKeepsInv(e: Entry, code: Code, now: int)
    requires Ready(e) && e.task.action.Install?
    ensures Inv(RetryScheduled(e, code, now))
  {
  }

  lemma StartKeepsInv(e: Entry, a: Answers)
    requires Ready(e)
    ensures Inv(StartTask(e, a))
    ensures StartTask(e, a).ledger.live <= if a.start.Started? then {a.start.change} else {}
  {
    if a.start.StartRefused? && e.task.action.Install? && a.start.retryable {
      RetryKeepsInv(e.(ledger := e.ledger.(starts := e.ledger.starts + 1)), a.start.code, a.now);
    }
  }

  lemma StopKeepsInv(e: Entry, reason: Reason, target: State, stop: Option<Code>, now: int)
    requires Inv(e) && e.task.OwnsChange()
    requires if reason.Cancel? then target.Canceling? else target.Pausing? && e.task.action.Install?
    ensures Inv(e.(task := StopRequested(e.task, reason, target, stop, now)))
  {
  }

  lemma DeliveryKeepsInv(e: Entry, delivered: bool, now: int)
    requires Inv(e)
    ensures Inv(e.(task := Delivered(e.task, delivered, now)))
  {
  }

  lemma SavingKeepsInv(e: Entry, p: Progress, a: Answers)
    requires Inv(e) && e.task.OwnsChange() && PercentRange(p.percent)
    requires p.Over() ==> e.ledger.live == {}
    ensures Inv(ProgressSaved(e, p, a))
    ensures ProgressSaved(e, p, a).task.action == e.task.action
  {
    hide DownloadMetrics, MonotonicPercent;
    MonotonicPercentNeverFalls(e.task, p.percent);
    MetricsKeepSpeedPositive(e.task, p, a.now);
  }

  lemma ProgressKeepsInv(e: Entry, p: Progress, a: Answers)
    requires Inv(e) && e.task.OwnsChange() && PercentRange(p.percent)
    requires p.Over() ==> e.ledger.live == {}
    ensures Inv(ProgressApplied(e, p, a))
  {
    hide ProgressSaved, StopRequested, Delivered, RetryScheduled;
    SavingKeepsInv(e, p, a);
    var saved := ProgressSaved(e, p, a);
    if e.task.action.Install? && (p.state.NowFailed? || p.state.NowInterrupted?) {
      RetryKeepsInv(e, if p.error.Some? then p.error.value else "change_interrupted", a.now);
    }
    if saved.task.state.Running? && saved.task.action.Install? {
      StopKeepsInv(saved, Retry, Pausing, a.stop, a.now);
    }
    DeliveryKeepsInv(saved, a.delivered, a.now);
  }

  lemma PolledKeepsInv(e: Entry, p: Progress)
    requires Inv(e) && e.task.change.Some?
    ensures Inv(Polled(e, p))
    ensures p.Over() ==> Polled(e, p).ledger.live == {}
  {
  }

  lemma PausingKeepsInv(e: Entry, p: Progress, a: Answers)
    requires Inv(e) && e.task.state.Pausing? && PercentRange(p.percent)
    requires p.Over() ==> e.ledger.live == {}
    ensures Inv(PausingRefreshed(e, p, a))
  {
    hide ProgressApplied, RetryScheduled, MonotonicPercent;
    ProgressKeepsInv(e, p, a);
    MonotonicPercentNeverFalls(e.task, p.percent);
    if p.Over() {
      RetryKeepsInv(e, if p.error.Some? then p.error.value else "change_interrupted", a.now);
    }
  }

  lemma CancelingKeepsInv(e: Entry, p: Progress, a: Answers)
    requires Inv(e) && e.task.state.Canceling? && PercentRange(p.percent)
    requires p.Over() ==> e.ledger.live == {}
    ensures Inv(CancelingRefreshed(e, p, a))
  {
    hide ProgressApplied;
    ProgressKeepsInv(e, p, a);
  }

  lemma LossKeepsInv(e: Entry, code: Code, a: Answers)
    requires Inv(e) && e.task.OwnsChange()
    ensures Inv(e.(task := BackendLost(e.task, code, a)))
  {
  }

  lemma RefreshKeepsInv(e: Entry, a: Answers)
    requires Inv(e) && SaneAnswers(a)
    ensures Inv(Refreshed(e, a))
  {
    hide Inv, StopRequested, Delivered, ProgressApplied, Polled, PausingRefreshed, CancelingRefreshed,
         BackendLost;
    var t := e.task;
    DeliveryKeepsInv(e, a.delivered, a.now);
    if t.OwnsChange() && t.change.Some? {
      if t.action.Install? { StopKeepsInv(e, Offline, Pausing, a.stop, a.now); }
      match a.progress {
        case Unreachable(code) => LossKeepsInv(e, code, a);
        case Reported(p) =>
          PolledKeepsInv(e, p);
          PolledOnlyEnds(e, p);
          if t.state.Canceling? {
            CancelingKeepsInv(Polled(e, p), p, a);
          } else if t.state.Pausing? {
            PausingKeepsInv(Polled(e, p), p, a);
          } else {
            ProgressKeepsInv(Polled(e, p), p, a);
          }
      }
    }
  }

  lemma PolledOnlyEnds(e: Entry, p: Progress)
    ensures Polled(e, p).task == e.task
    ensures Polled(e, p).ledger == e.ledger.(live := Polled(e, p).ledger.live)
    ensures Polled(e, p).ledger.live <= e.ledger.live
  {
  }

  lemma ReconcileKeepsInv(e: Entry, a: Answers)
    requires Inv(e) && SaneAnswers(a)
    ensures Inv(Reconciled(e, a))
  {
    hide Refreshed, StartTask, Delivered;
    RefreshKeepsInv(e, a);
    var e := if e.task.OwnsChange() then Refreshed(e, a) else e;
    var t := e.task;
    if t.state.WaitingForNetwork? && t.action.Install? {
      StartKeepsInv(e, a);
      DeliveryKeepsInv(StartTask(e, a), a.delivered, a.now);
    }
    if t.state.RetryWait? {
      var counted := e.(ledger := e.ledger.(retryStarts := e.ledger.retryStarts + 1));
      StartKeepsInv(counted, a);
      DeliveryKeepsInv(StartTask(counted, a), a.delivered, a.now);
    }
    DeliveryKeepsInv(e, a.delivered, a.now);
  }

  lemma UserCallKeepsInv(e: Entry, event: Event)
    requires Inv(e) && SaneEvent(event) && !event.BySystem()
    ensures Inv(Step(e, event))
  {
    hide StartTask, StopRequested, Refreshed, Reconciled, Delivered;
    match event {
      case Confirm(a) =>
        if e.task.state.AwaitingConfirmation? && e.task.action.Install? {
          StartKeepsInv(e.(ledger := e.ledger.(confirmations := 1)), a);
        }
      case ConfirmRemoval(a) =>
        if e.task.state.AwaitingFinalConfirmation? {
          StartKeepsInv(e.(ledger := e.ledger.(confirmations := 2)), a);
        }
      case Resume(a) =>
        if e.task.CanResume() { StartKeepsInv(e, a); }
      case Pause(a) =>
        if e.task.OwnsChange() && e.task.action.Install? { StopKeepsInv(e, User, Pausing, a.stop, a.now); }
      case Cancel(a) =>
        if e.task.OwnsChange() { StopKeepsInv(e, Reason.Cancel, Canceling, a.stop, a.now); }
      case _ =>
    }
  }

  /** Every event keeps the invariant, whatever the outside answers. */
  lemma StepKeepsInv(e: Entry, event: Event)
    requires Inv(e) && SaneEvent(event)
    ensures Inv(Step(e, event))
  {
    hide Inv, Confirmed, RemovalConfirmed, PauseRequested, ResumeRequested, CancelRequested,
         Refreshed, Reconciled;
    match event {
      case Refresh(a) => RefreshKeepsInv(e, a);
      case Reconcile(a) => ReconcileKeepsInv(e, a);
      case Acknowledge(a) => DeliveryKeepsInv(e, true, a.now);
      case _ => UserCallKeepsInv(e, event);
    }
  }
}
