/** Theorems about all runs of a task. */
module SoftwareRuns {
  import opened Wrappers
  import opened SoftwareTasks
  import opened SoftwareProgress
  import opened SoftwareMachine
  import opened SoftwareSafety

  ghost predicate SaneEvents(events: seq<Event>) {
    forall i :: 0 <= i < |events| ==> SaneEvent(events[i])
  }

  lemma {:induction false} RunKeepsInv(e: Entry, events: seq<Event>)
    requires Inv(e) && SaneEvents(events)
    ensures Inv(Run(e, events))
    decreases |events|
  {
    hide Inv, Step;
    if events != [] {
      StepKeepsInv(e, events[0]);
      RunKeepsInv(Step(e, events[0]), events[1..]);
    }
  }

  // ----- one live change -----

  /** In every run a task has at most one live change, and only in a state that owns it. */
  lemma NeverTwoLiveChanges(action: Action, now: int, events: seq<Event>)
    requires SaneEvents(events)
    ensures var e := Run(Prepared(action, now), events);
            |e.ledger.live| <= 1 && (e.ledger.live != {} ==> e.task.OwnsChange())
  {
    RunKeepsInv(Prepared(action, now), events);
    var e := Run(Prepared(action, now), events);
    if e.ledger.live != {} {
      var c :| c in e.ledger.live;
      assert e.ledger.live == {c};
    }
  }

  lemma StartLeaves(e: Entry, a: Answers)
    requires e.ledger.live == {}
    ensures StartTask(e, a).ledger.live <= if a.start.Started? then {a.start.change} else {}
    ensures StartTask(e, a).ledger.starts == e.ledger.starts + 1
  {
  }

  lemma RefreshNeverStarts(e: Entry, a: Answers)
    ensures Refreshed(e, a).ledger.starts == e.ledger.starts
  {
    hide StopRequested, Delivered, Updated, MonotonicPercent;
  }

  /** A change is requested only when no earlier change of the task is live: afterwards at most the
      new change is. */
  lemma StartsWithNoneLive(e: Entry, event: Event)
    requires Inv(e) && SaneEvent(event)
    requires Step(e, event).ledger.starts != e.ledger.starts
    ensures Step(e, event).ledger.live <= if event.a.start.Started? then {event.a.start.change} else {}
    ensures Step(e, event).ledger.starts == e.ledger.starts + 1
  {
    hide StartTask, Refreshed, Delivered, StopRequested;
    var a := event.a;
    match event {
      case Confirm(a) => StartLeaves(e.(ledger := e.ledger.(confirmations := e.ledger.confirmations + 1)), a);
      case ConfirmRemoval(a) =>
        StartLeaves(e.(ledger := e.ledger.(confirmations := e.ledger.confirmations + 1)), a);
      case Resume(a) => StartLeaves(e, a);
      case Refresh(a) => RefreshNeverStarts(e, a);
      case Reconcile(a) =>
        RefreshNeverStarts(e, a);
        RefreshKeepsInv(e, a);
        var e1 := if e.task.OwnsChange() then Refreshed(e, a) else e;
        if e1.task.state.WaitingForNetwork? {
          StartLeaves(e1, a);
        } else if e1.task.state.RetryWait? {
          StartLeaves(e1.(ledger := e1.ledger.(retryStarts := e1.ledger.retryStarts + 1)), a);
        }
      case _ =>
    }
  }

  // ----- pausing and ending -----

  /** The user asked for a pause, which has taken effect or is under way. */
  predicate PausedByUser(t: Task) {
    (t.state.Paused? || t.state.Pausing?) && t.reason == Some(User)
  }

  /** The system never lifts a pause of the user: it only completes a change that was completing. */
  lemma SystemKeepsUserPause(e: Entry, event: Event)
    requires PausedByUser(e.task) && event.BySystem() && !e.task.notify
    ensures Step(e, event).ledger.starts == e.ledger.starts
    ensures PausedByUser(Step(e, event).task) || Step(e, event).task.state.Completed?
  {
    hide Refreshed, StartTask;
    if event.Refresh? || event.Reconcile? {
      RefreshKeepsUserPause(e, event.a);
    }
  }

  lemma RefreshKeepsUserPause(e: Entry, a: Answers)
    requires PausedByUser(e.task) && !e.task.notify
    ensures Refreshed(e, a).ledger.starts == e.ledger.starts
    ensures PausedByUser(Refreshed(e, a).task) || Refreshed(e, a).task.state.Completed?
  {
    hide MonotonicPercent, DownloadMetrics, StopRequested, StartTask;
  }

  ghost predicate AllBySystem(events: seq<Event>) {
    forall i :: 0 <= i < |events| ==> events[i].BySystem()
  }

  /** However long the system polls, and whatever the network does, a task paused by the user is
      never started again; it stays paused unless the change completes. */
  lemma {:induction false} UserPauseIsNeverLifted(e: Entry, events: seq<Event>)
    requires Inv(e) && SaneEvents(events) && AllBySystem(events)
    requires PausedByUser(e.task) || e.task.state.Completed?
    ensures Run(e, events).ledger.starts == e.ledger.starts
    ensures PausedByUser(Run(e, events).task) || Run(e, events).task.state.Completed?
    decreases |events|
  {
    hide Step;
    if events != [] {
      StepKeepsInv(e, events[0]);
      if PausedByUser(e.task) {
        SystemKeepsUserPause(e, events[0]);
      } else {
        TerminalIsFinal(e, events[0]);
      }
      UserPauseIsNeverLifted(Step(e, events[0]), events[1..]);
    }
  }

  /** Completed, failed and canceled tasks never change state and are never started. */
  lemma TerminalIsFinal(e: Entry, event: Event)
    requires e.task.Terminal()
    ensures Step(e, event).task.state == e.task.state
    ensures Step(e, event).ledger.starts == e.ledger.starts
  {
  }

  /** A cancellation that was accepted ends in canceled or completed. */
  lemma CancelingEndsCanceledOrCompleted(e: Entry, event: Event)
    requires e.task.state.Canceling? && !e.task.notify
    ensures var s := Step(e, event).task.state;
            s.Canceling? || s.Canceled? || s.Completed?
  {
    hide MonotonicPercent, DownloadMetrics, StartTask;
  }

  lemma {:induction false} CancelIsNeverLost(e: Entry, events: seq<Event>)
    requires Inv(e) && SaneEvents(events)
    requires e.task.state.Canceling? || e.task.state.Canceled? || e.task.state.Completed?
    ensures var s := Run(e, events).task.state; s.Canceling? || s.Canceled? || s.Completed?
    decreases |events|
  {
    hide Step;
    if events != [] {
      StepKeepsInv(e, events[0]);
      if e.task.state.Canceling? {
        CancelingEndsCanceledOrCompleted(e, events[0]);
      } else {
        TerminalIsFinal(e, events[0]);
      }
      CancelIsNeverLost(Step(e, events[0]), events[1..]);
    }
  }

  // ----- removals and retries -----

  lemma ProgressBasics(e: Entry, p: Progress, a: Answers)
    ensures ProgressApplied(e, p, a).task.action == e.task.action
    ensures NeverFalls(e.task, ProgressApplied(e, p, a).task.percent)
  {
    hide DownloadMetrics, MonotonicPercent;
    MonotonicPercentNeverFalls(e.task, p.percent);
  }

  lemma StopBasics(t: Task, reason: Reason, target: State, stop: Option<Code>, now: int)
    ensures StopRequested(t, reason, target, stop, now).percent == t.percent
    ensures StopRequested(t, reason, target, stop, now).action == t.action
  {
  }

  lemma RefreshBasics(e: Entry, a: Answers)
    ensures Refreshed(e, a).task.action == e.task.action
    ensures NeverFalls(e.task, Refreshed(e, a).task.percent)
  {
    hide MonotonicPercent, StopRequested, ProgressApplied;
    StopBasics(e.task, Offline, Pausing, a.stop, a.now);
    if a.progress.Reported? {
      var p := a.progress.progress;
      PolledOnlyEnds(e, p);
      ProgressBasics(Polled(e, p), p, a);
      MonotonicPercentNeverFalls(e.task, p.percent);
    }
  }

  lemma StartBasics(e: Entry, a: Answers)
    ensures StartTask(e, a).task.action == e.task.action
    ensures PercentRange(e.task.percent) && e.task.percent.Some? ==>
              StartTask(e, a).task.percent == e.task.percent
  {
  }

  lemma ActionNeverChanges(e: Entry, event: Event)
    ensures Step(e, event).task.action == e.task.action
  {
    hide Refreshed, StartTask, StopRequested;
    var a := event.a;
    RefreshBasics(e, a);
    match event {
      case Confirm(a) => StartBasics(e.(ledger := e.ledger.(confirmations := e.ledger.confirmations + 1)), a);
      case ConfirmRemoval(a) =>
        StartBasics(e.(ledger := e.ledger.(confirmations := e.ledger.confirmations + 1)), a);
      case Resume(a) => StartBasics(e, a);
      case Reconcile(a) =>
        var e1 := if e.task.OwnsChange() then Refreshed(e, a) else e;
        StartBasics(e1, a);
        StartBasics(e1.(ledger := e1.ledger.(retryStarts := e1.ledger.retryStarts + 1)), a);
      case Pause(a) => StopBasics(e.task, User, Pausing, a.stop, a.now);
      case Cancel(a) => StopBasics(e.task, Reason.Cancel, Canceling, a.stop, a.now);
      case _ =>
    }
  }

  lemma {:induction false} RunKeepsAction(e: Entry, events: seq<Event>)
    ensures Run(e, events).task.action == e.task.action
    decreases |events|
  {
    hide Step;
    if events != [] {
      ActionNeverChanges(e, events[0]);
      RunKeepsAction(Step(e, events[0]), events[1..]);
    }
  }

  /** A removal is requested at most once per task, and only after both confirmations. */
  lemma RemovalStartsOnceAfterBothConfirmations(now: int, events: seq<Event>)
    requires SaneEvents(events)
    ensures var ledger := Run(Prepared(Remove, now), events).ledger;
            ledger.starts <= 1 && (ledger.starts == 1 ==> ledger.confirmations == 2)
  {
    RunKeepsInv(Prepared(Remove, now), events);
    RunKeepsAction(Prepared(Remove, now), events);
  }

  /** Between two observed advances there are at most eight automatic starts out of `retry_wait`. */
  lemma RetriesAreBounded(action: Action, now: int, events: seq<Event>)
    requires SaneEvents(events)
    ensures var e := Run(Prepared(action, now), events);
            e.task.retryCount <= MAX_RETRIES && e.ledger.retryStarts <= MAX_RETRIES
  {
    RunKeepsInv(Prepared(action, now), events);
  }

  /** No automatic retry is made before the delay that was scheduled for it has passed. */
  lemma RetriesWaitForTheirDelay(e: Entry, a: Answers)
    requires Inv(e) && e.task.state.RetryWait?
    requires Reconciled(e, a).ledger.starts != e.ledger.starts
    ensures a.now >= e.ledger.scheduledAt + RetryDelay(e.task.retryCount)
  {
  }

  // ----- the shown percentage -----

  /** From one step to the next the shown percentage never falls, except from a premature 100. */
  lemma PercentNeverFalls(e: Entry, event: Event)
    requires Inv(e) && SaneEvent(event)
    ensures NeverFalls(e.task, Step(e, event).task.percent)
  {
    hide Refreshed, StartTask, StopRequested;
    var a := event.a;
    RefreshBasics(e, a);
    match event {
      case ConfirmRemoval(a) =>
        StartBasics(e.(ledger := e.ledger.(confirmations := e.ledger.confirmations + 1)), a);
      case Resume(a) => StartBasics(e, a);
      case Reconcile(a) =>
        RefreshKeepsInv(e, a);
        var e1 := if e.task.OwnsChange() then Refreshed(e, a) else e;
        StartBasics(e1, a);
        StartBasics(e1.(ledger := e1.ledger.(retryStarts := e1.ledger.retryStarts + 1)), a);
      case Pause(a) => StopBasics(e.task, User, Pausing, a.stop, a.now);
      case Cancel(a) => StopBasics(e.task, Reason.Cancel, Canceling, a.stop, a.now);
      case _ =>
    }
  }
}
