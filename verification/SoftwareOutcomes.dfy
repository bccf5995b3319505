/** What each call makes of a task, state by state: how polls settle it, when it is started, and what
    the user's calls achieve. */
module SoftwareOutcomes {
  import opened Wrappers
  import opened SoftwareTasks
  import opened SoftwareProgress
  import opened SoftwareMachine

  const TRIES: nat := 8

  /** Seconds to wait before each automatic retry. */
  const DELAYS: seq<int> := [5, 15, 30, 60, 120, 300, 300, 300]

  // ----- the states a task comes to -----

  /** What is known about the transfer, and the change it belongs to, stay as they are. */
  predicate SameTransfer(t: Task, u: Task) {
    && u.action == t.action && u.change == t.change && u.percent == t.percent
    && u.downloaded == t.downloaded && u.total == t.total && u.lastProgressAt == t.lastProgressAt
    && u.notify == t.notify
  }

  /** No speed and no remaining time are shown. */
  predicate IsIdle(u: Task) {
    u.speed.None? && u.eta.None?
  }

  /** One more retry is scheduled, or the user has to step in because all were used up. */
  predicate RetriesOrGivesUp(t: Task, u: Task, code: Code, now: int) {
    && SameTransfer(t, u) && IsIdle(u) && u.updatedAt == now
    && if t.retryCount < TRIES then
         && u.state.RetryWait? && u.phase.RetryPhase? && u.reason == Some(Retry) && u.autoResume
         && u.retryCount == t.retryCount + 1 && u.error == Some(code)
         && u.nextRetryAt == Some(now + DELAYS[t.retryCount] * 1_000_000)
       else
         && u.state.Interrupted? && u.phase.InterruptedPhase? && u.reason == Some(RetryLimit) && !u.autoResume
         && u.retryCount == t.retryCount && u.error == Some("automatic_retry_exhausted") && u.nextRetryAt.None?
  }

  /** The task waits for the network, to go on by itself when it is back. */
  predicate WaitsForNetwork(t: Task, u: Task, error: Option<Code>, now: int) {
    && SameTransfer(t, u) && IsIdle(u) && u.updatedAt == now && u.retryCount == t.retryCount
    && u.state.WaitingForNetwork? && u.phase.NetworkPhase? && u.reason == Some(Offline) && u.autoResume
    && u.error == error
  }

  predicate IsPaused(t: Task, u: Task, now: int) {
    && SameTransfer(t, u) && IsIdle(u) && u.updatedAt == now && u.retryCount == t.retryCount
    && u.state.Paused? && u.phase.PausedPhase? && u.reason == Some(User) && !u.autoResume && u.error.None?
  }

  predicate IsCanceled(t: Task, u: Task, now: int) {
    && SameTransfer(t, u) && IsIdle(u) && u.updatedAt == now && u.retryCount == t.retryCount
    && u.state.Canceled? && u.phase.CanceledPhase? && u.reason == Some(Reason.Cancel) && !u.autoResume
    && u.nextRetryAt.None? && u.error.None?
  }

  /** The backend was asked to stop the change, which may have been refused. */
  predicate IsAskedToStop(t: Task, u: Task, reason: Reason, a: Answers) {
    && SameTransfer(t, u) && IsIdle(u) && u.updatedAt == a.now && u.retryCount == t.retryCount
    && u.nextRetryAt.None? && u.reason == Some(reason) && u.error == a.stop
    && u.state == (if reason == Reason.Cancel then Canceling else Pausing)
    && (u.autoResume <==> reason == Offline || reason == Retry)
    && u.phase == if reason == Reason.Cancel then (if a.stop.Some? then CancelPending else CancelingPhase)
                  else if a.stop.Some? then PausePending
                  else if reason == Offline then NetworkPhase else PausingPhase
  }

  predicate HasPhaseOfDownload(t: Task) {
    t.phase.Queued? || t.phase.Downloading?
  }

  // ----- progress and the end of a change -----

  /** The percentage or the bytes have risen. */
  predicate HasRisen(t: Task, u: Task, p: Progress) {
    || (u.percent.Some? && (t.percent.None? || u.percent.value > t.percent.value))
    || (p.downloaded.Some? && (t.downloaded.None? || p.downloaded.value > t.downloaded.value))
  }

  /** The task shows the reported progress. Retries are counted anew once something has risen, and the
      completion of an installation is to be told to the user. */
  predicate Follows(t: Task, u: Task, p: Progress, a: Answers) {
    && u.action == t.action && u.change == t.change && u.phase == p.phase && u.error == p.error
    && u.percent == MonotonicPercent(t, p.percent)
    && Metrics(u.downloaded, u.total, u.speed, u.eta) == DownloadMetrics(t, p, a.now)
    && u.lastProgressAt == (if HasRisen(t, u, p) || t.lastProgressAt.None? then Some(a.now) else t.lastProgressAt)
    && u.retryCount == (if HasRisen(t, u, p) then 0 else t.retryCount)
    && u.nextRetryAt == (if HasRisen(t, u, p) then None else t.nextRetryAt)
    && u.updatedAt == a.now
    && (u.notify <==> (t.notify || (t.action.Install? && p.state.NowCompleted? && !t.state.Completed?)) && !a.delivered)
    && match p.state
       case StillRunning => u.state.Running? && u.reason.None? && (u.autoResume <==> t.autoResume)
       case NowCompleted => u.state.Completed? && u.reason == t.reason && !u.autoResume
       case NowFailed => u.state.Failed? && u.reason == t.reason && !u.autoResume
       case NowInterrupted => u.state.Interrupted? && u.reason == t.reason && (u.autoResume <==> t.autoResume)
       case NowCanceled => u.state.Canceled? && u.reason == t.reason && !u.autoResume
  }

  /** The reason to be given for a change that broke. */
  function BreakCode(p: Progress): Code {
    if p.error.Some? then p.error.value else "change_interrupted"
  }

  /** What a reported end makes of a task. A task that is being canceled is canceled unless the change
      completed. One that is being paused is paused, waits for the network or is retried, by the reason
      for the pause. Any other takes the end over, except that an installation that broke waits for the
      network or, if it broke before installing, is retried. */
  predicate TakesEnd(t: Task, u: Task, p: Progress, a: Answers) {
    if p.state.NowCompleted? then Follows(t, u, p, a)
    else if t.state.Canceling? then IsCanceled(t, u, a.now)
    else if t.state.Pausing? then
      match t.reason
      case Some(User) => IsPaused(t, u, a.now)
      case Some(Offline) => WaitsForNetwork(t, u, None, a.now)
      case _ => RetriesOrGivesUp(t, u, BreakCode(p), a.now)
    else if t.action.Install? && !p.state.NowCanceled? && a.apply == Some(false) then
      WaitsForNetwork(t, u, p.error, a.now) && u.nextRetryAt.None?
    else if t.action.Install? && (p.state.NowInterrupted? || (p.state.NowFailed? && p.retryable))
            && (HasPhaseOfDownload(t) || t.phase.RecoveringPhase?) then
      RetriesOrGivesUp(t, u, BreakCode(p), a.now)
    else Follows(t, u, p, a)
  }

  /** A change that is still running leaves a canceling or pausing task as it is. Any other follows it, and
      is stopped to be retried if it has not moved for five minutes before installing. */
  ghost predicate GoesOn(t: Task, u: Task, p: Progress, a: Answers) {
    if t.state.Canceling? then u == t
    else if t.state.Pausing? then
      u == t.(percent := MonotonicPercent(t, p.percent), error := p.error, updatedAt := a.now)
    else
      exists v: Task :: Follows(t, v, p, a.(delivered := false)) &&
        if t.action.Install? && HasPhaseOfDownload(v)
           && v.lastProgressAt.Some? && a.now - v.lastProgressAt.value >= 300_000_000 then
          IsAskedToStop(v, u, Retry, a)
        else u == v.(notify := v.notify && !a.delivered)
  }

  /** What polling makes of a task. */
  ghost predicate PollOutcome(t: Task, u: Task, a: Answers) {
    if !(t.state in {Running, Recovering, Pausing, Canceling}) || t.change.None? then
      Notified(t, u, a.delivered)
    else if t.action.Install? && (t.state.Running? || t.state.Recovering?) && HasPhaseOfDownload(t)
            && a.gate == Some(false) then
      IsAskedToStop(t, u, Offline, a)
    else
      match a.progress
      case Unreachable(code) =>
        u == t.(state := if t.state.Pausing? || t.state.Canceling? then t.state else Recovering,
                reason := if t.reason.None? && a.lost == Some(false) then Some(Offline) else t.reason,
                autoResume := t.autoResume || a.lostAgain == Some(false), error := Some(code), updatedAt := a.now)
      case Reported(p) => if p.state.StillRunning? then GoesOn(t, u, p, a) else TakesEnd(t, u, p, a)
  }

  /** A task is as it was, but its notification may have been delivered. */
  predicate Notified(t: Task, u: Task, delivered: bool) {
    u == t.(notify := t.notify && !delivered, updatedAt := u.updatedAt)
    && (u.notify == t.notify ==> u == t)
  }

  lemma RetryOutcome(e: Entry, code: Code, now: int)
    ensures RetriesOrGivesUp(e.task, RetryScheduled(e, code, now).task, code, now)
  {
  }

  lemma StopRequestOutcome(t: Task, reason: Reason, a: Answers)
    requires reason != RetryLimit
    ensures var target := if reason == Reason.Cancel then Canceling else Pausing;
            IsAskedToStop(t, StopRequested(t, reason, target, a.stop, a.now), reason, a)
  {
  }

  lemma SavedOutcome(e: Entry, p: Progress, a: Answers)
    ensures Follows(e.task, ProgressSaved(e, p, a).task, p, a.(delivered := false))
    ensures Follows(e.task, Delivered(ProgressSaved(e, p, a).task, a.delivered, a.now), p, a)
  {
    hide MonotonicPercent, DownloadMetrics;
    MetricsKeepBytes(e.task, p, a.now);
  }

  lemma RunningOutcome(e: Entry, p: Progress, a: Answers)
    requires (e.task.state.Running? || e.task.state.Recovering?) && p.state.StillRunning?
    ensures GoesOn(e.task, ProgressApplied(e, p, a).task, p, a)
  {
    hide ProgressSaved, RetryScheduled, MonotonicPercent, DownloadMetrics, StopRequested, IsAskedToStop;
    SavedOutcome(e, p, a);
    var v := ProgressSaved(e, p, a).task;
    StopRequestOutcome(v, Retry, a);
    assert Follows(e.task, v, p, a.(delivered := false));
  }

  lemma EndOutcome(e: Entry, p: Progress, a: Answers)
    requires e.task.state.Running? || e.task.state.Recovering? || p.state.NowCompleted?
    requires !p.state.StillRunning?
    ensures TakesEnd(e.task, ProgressApplied(e, p, a).task, p, a)
  {
    hide ProgressSaved, RetryScheduled, RetriesOrGivesUp, StopRequested, Delivered, MonotonicPercent, DownloadMetrics;
    SavedOutcome(e, p, a);
    SavedIsOver(e, p, a);
    RetryOutcome(e, BreakCode(p), a.now);
  }

  lemma SavedIsOver(e: Entry, p: Progress, a: Answers)
    requires !p.state.StillRunning?
    ensures !ProgressSaved(e, p, a).task.state.Running?
  {
    hide MonotonicPercent, DownloadMetrics;
  }

  lemma MetricsKeepBytes(t: Task, p: Progress, now: int)
    ensures DownloadMetrics(t, p, now).downloaded == p.downloaded
    ensures DownloadMetrics(t, p, now).total == p.total
  {
  }

  /** Polling settles a task as the reported end calls for, in every state. */
  lemma RefreshOutcome(e: Entry, a: Answers)
    ensures PollOutcome(e.task, Refreshed(e, a).task, a)
  {
    hide MonotonicPercent, DownloadMetrics, RetryScheduled, ProgressApplied, TakesEnd, GoesOn, StopRequested,
         IsAskedToStop;
    StopRequestOutcome(e.task, Offline, a);
    if a.progress.Reported? {
      var p, seen := a.progress.progress, Polled(e, a.progress.progress);
      StopOutcome(seen, p, a);
      if !p.state.StillRunning? && (e.task.state.Running? || e.task.state.Recovering? || p.state.NowCompleted?) {
        EndOutcome(seen, p, a);
      } else if e.task.state.Running? || e.task.state.Recovering? {
        RunningOutcome(seen, p, a);
      }
    }
  }

  lemma StopOutcome(e: Entry, p: Progress, a: Answers)
    ensures e.task.state.Canceling? && !p.state.NowCompleted? ==>
              var u := CancelingRefreshed(e, p, a).task;
              if p.state.StillRunning? then GoesOn(e.task, u, p, a) else TakesEnd(e.task, u, p, a)
    ensures e.task.state.Pausing? && !p.state.NowCompleted? ==>
              var u := PausingRefreshed(e, p, a).task;
              if p.state.StillRunning? then GoesOn(e.task, u, p, a) else TakesEnd(e.task, u, p, a)
  {
    hide MonotonicPercent, DownloadMetrics, RetryScheduled, ProgressApplied, RetriesOrGivesUp;
    RetryOutcome(e, BreakCode(p), a.now);
  }

  /** A reported end never leaves a task in a state that owns a change. */
  lemma EndReleases(t: Task, u: Task, p: Progress, a: Answers)
    requires TakesEnd(t, u, p, a) && !p.state.StillRunning?
    ensures !u.OwnsChange()
  {
  }

  // ----- starts -----

  /** A request for a change makes the task run it; a refusal fails the task, or has an installation
      try again if the backend may grant it later. */
  predicate StartOutcome(t: Task, u: Task, a: Answers) {
    match a.start
    case Started(change) =>
      && u.state.Running? && u.phase.Queued? && u.change == Some(change) && !u.autoResume && u.reason.None?
      && u.lastProgressAt == Some(a.now) && u.updatedAt == a.now && u.error.None? && !u.notify && IsIdle(u)
      && u.nextRetryAt.None?
      && u.percent == Some(if t.percent.Some? && t.percent.value > 0 then t.percent.value else 0)
      && u.action == t.action && u.downloaded == t.downloaded && u.total == t.total && u.retryCount == t.retryCount
    case StartRefused(code, retryable) =>
      if t.action.Install? && retryable then RetriesOrGivesUp(t, u, code, a.now)
      else u == t.(state := Failed, phase := FailedPhase, error := Some(code), updatedAt := a.now)
  }

  lemma StartIsOutcome(e: Entry, a: Answers)
    ensures StartOutcome(e.task, StartTask(e, a).task, a)
    ensures StartTask(e, a).ledger.starts == e.ledger.starts + 1
  {
    hide RetryScheduled, RetriesOrGivesUp;
    if a.start.StartRefused? {
      RetryOutcome(e.(ledger := e.ledger.(starts := e.ledger.starts + 1)), a.start.code, a.now);
      RetryStartsNothing(e.(ledger := e.ledger.(starts := e.ledger.starts + 1)), a.start.code, a.now);
    }
  }

  lemma RetryStartsNothing(e: Entry, code: Code, now: int)
    ensures RetryScheduled(e, code, now).ledger.starts == e.ledger.starts
  {
  }

  /** An installation that waits is to be started on its own: the network is back, or it is not known to
      be away and the retry is due. */
  predicate IsToStart(t: Task, a: Answers) {
    && t.action.Install? && t.autoResume
    && ((t.state.WaitingForNetwork? && a.wake == Some(true))
        || (t.state.RetryWait? && a.wake != Some(false)
            && (t.nextRetryAt.None? || t.nextRetryAt.value <= a.now)))
  }

  /** A polled task is started if it is to start, and its notification may be delivered. */
  ghost predicate StartedOrNot(t: Task, u: Task, a: Answers) {
    if IsToStart(t, a) then exists v: Task :: StartOutcome(t, v, a) && Notified(v, u, a.delivered)
    else Notified(t, u, a.delivered)
  }

  /** Reconciling polls a task that owns a change, and then starts it exactly if it is to start. */
  lemma ReconcileOutcome(e: Entry, a: Answers)
    ensures var t := if e.task.OwnsChange() then Refreshed(e, a).task else e.task;
            && StartedOrNot(t, Reconciled(e, a).task, a)
            && Reconciled(e, a).ledger.starts == e.ledger.starts + if IsToStart(t, a) then 1 else 0
  {
    hide Refreshed, StartTask, StartOutcome, Notified;
    PollStartsNothing(e, a);
    var seen := if e.task.OwnsChange() then Refreshed(e, a) else e;
    var counted := seen.(ledger := seen.ledger.(retryStarts := seen.ledger.retryStarts + 1));
    var woken := Woken(seen, a);
    StartIsOutcome(seen, a);
    StartIsOutcome(counted, a);
    DeliveryNotifies(woken.task, a.delivered, a.now);
    assert IsToStart(seen.task, a) ==>
             StartOutcome(seen.task, woken.task, a) && Notified(woken.task, Reconciled(e, a).task, a.delivered);
  }

  lemma DeliveryNotifies(t: Task, delivered: bool, now: int)
    ensures Notified(t, Delivered(t, delivered, now), delivered)
  {
  }

  lemma PollStartsNothing(e: Entry, a: Answers)
    ensures Refreshed(e, a).ledger.starts == e.ledger.starts
  {
    hide StopRequested, Delivered, Updated, MonotonicPercent;
  }

  // ----- calls of the user -----

  /** A confirmed installation starts, or waits for a network that is away; a removal has to be
      confirmed once more. */
  predicate ConfirmMakes(t: Task, u: Task, a: Answers) {
    if !t.state.AwaitingConfirmation? then u == t
    else if t.action.Remove? then
      u == t.(state := AwaitingFinalConfirmation, phase := FinalConfirmation, updatedAt := a.now)
    else if a.gate == Some(false) then
      u == t.(state := WaitingForNetwork, phase := NetworkPhase, reason := Some(Offline), autoResume := true,
              percent := Some(0), lastProgressAt := Some(a.now), updatedAt := a.now)
    else StartOutcome(t, u, a)
  }

  /** An installation can be paused while it waits, while it is being paused for another reason, and
      before it installs. */
  predicate CanBePaused(t: Task) {
    && t.action.Install?
    && (|| t.state in {WaitingForNetwork, RetryWait, Interrupted}
        || (t.state.Pausing? && t.reason != Some(User))
        || (t.state.Recovering? && t.change.Some? && (HasPhaseOfDownload(t) || t.phase.PausePending?))
        || (t.state.Running? && t.change.Some? && HasPhaseOfDownload(t)))
  }

  predicate PauseMakes(t: Task, u: Task, a: Answers) {
    if !CanBePaused(t) then u == t
    else if t.state in {WaitingForNetwork, RetryWait, Interrupted} then
      IsPaused(t, u, a.now) && u.nextRetryAt.None?
    else if t.state.Pausing? then
      u == t.(reason := Some(User), autoResume := false, nextRetryAt := None, updatedAt := a.now)
    else IsAskedToStop(t, u, User, a)
  }

  predicate CanBeResumed(t: Task) {
    t.action.Install? && t.state in {Paused, Interrupted, RetryWait}
  }

  predicate ResumeMakes(t: Task, u: Task, a: Answers) {
    if !CanBeResumed(t) then u == t
    else if a.gate == Some(false) then WaitsForNetwork(t, u, None, a.now) && u.nextRetryAt.None?
    else StartOutcome(t, u, a)
  }

  /** Every task that has not ended can be canceled; one that owns a change waits for its end. */
  predicate CancelMakes(t: Task, u: Task, a: Answers) {
    if t.state in {Completed, Failed, Canceled} then u == t
    else if t.state in {Running, Recovering, Pausing, Canceling} && t.change.Some? then
      IsAskedToStop(t, u, Reason.Cancel, a)
    else IsCanceled(t, u, a.now)
  }

  predicate CanBeConfirmed(t: Task, removal: bool) {
    if removal then t.state.AwaitingFinalConfirmation? && t.action.Remove? else t.state.AwaitingConfirmation?
  }

  lemma ConfirmOutcome(e: Entry, a: Answers)
    ensures Confirmed(e, a).Success? <==> CanBeConfirmed(e.task, false)
    ensures ConfirmMakes(e.task, Step(e, Confirm(a)).task, a)
  {
    hide StartTask, StartOutcome;
    StartIsOutcome(e.(ledger := e.ledger.(confirmations := e.ledger.confirmations + 1)), a);
  }

  lemma RemovalOutcome(e: Entry, a: Answers)
    ensures RemovalConfirmed(e, a).Success? <==> CanBeConfirmed(e.task, true)
    ensures RemovalConfirmed(e, a).Success? ==> StartOutcome(e.task, RemovalConfirmed(e, a).value.task, a)
  {
    hide StartTask, StartOutcome;
    StartIsOutcome(e.(ledger := e.ledger.(confirmations := e.ledger.confirmations + 1)), a);
  }

  lemma PauseOutcome(e: Entry, a: Answers)
    ensures PauseRequested(e, a).Success? <==> CanBePaused(e.task)
    ensures PauseMakes(e.task, Step(e, Pause(a)).task, a)
  {
  }

  lemma ResumeOutcome(e: Entry, a: Answers)
    ensures ResumeRequested(e, a).Success? <==> CanBeResumed(e.task)
    ensures ResumeMakes(e.task, Step(e, Resume(a)).task, a)
  {
    hide StartTask, StartOutcome;
    StartIsOutcome(e, a);
  }

  lemma CancelOutcome(e: Entry, a: Answers)
    ensures CancelRequested(e, a).Success? <==> !(e.task.state in {Completed, Failed, Canceled})
    ensures CancelMakes(e.task, Step(e, Event.Cancel(a)).task, a)
  {
  }

  // ----- all calls together -----

  ghost predicate ReconcileMakes(t: Task, u: Task, a: Answers) {
    exists polled: Task ::
      (if t.OwnsChange() then PollOutcome(t, polled, a) else polled == t) && StartedOrNot(polled, u, a)
  }

  /** What an event makes of a task; a refused call leaves it as it is. */
  ghost predicate Makes(t: Task, u: Task, event: Event) {
    match event
    case Confirm(a) => ConfirmMakes(t, u, a)
    case ConfirmRemoval(a) =>
      if CanBeConfirmed(t, true) then StartOutcome(t, u, a) else u == t
    case Pause(a) => PauseMakes(t, u, a)
    case Resume(a) => ResumeMakes(t, u, a)
    case Cancel(a) => CancelMakes(t, u, a)
    case Refresh(a) => PollOutcome(t, u, a)
    case Reconcile(a) => ReconcileMakes(t, u, a)
    case Acknowledge(_) => Notified(t, u, true)
  }

  lemma StepMakes(e: Entry, event: Event)
    ensures Makes(e.task, Step(e, event).task, event)
  {
    hide StartOutcome, StartTask, Refreshed, PollOutcome, Reconciled, Confirmed, RemovalConfirmed,
         PauseRequested, ResumeRequested, CancelRequested, CanBePaused, WaitsForNetwork, IsToStart, CanBeResumed,
         StartedOrNot;
    match event {
      case Confirm(a) => ConfirmOutcome(e, a);
      case ConfirmRemoval(a) => RemovalOutcome(e, a);
      case Pause(a) => PauseOutcome(e, a);
      case Resume(a) => ResumeOutcome(e, a);
      case Cancel(a) => CancelOutcome(e, a);
      case Refresh(a) => RefreshOutcome(e, a);
      case Reconcile(a) =>
        RefreshOutcome(e, a);
        ReconcileOutcome(e, a);
        var polled := if e.task.OwnsChange() then Refreshed(e, a).task else e.task;
        assert StartedOrNot(polled, Step(e, event).task, a);
      case Acknowledge(a) =>
    }
  }

  /** A new task awaits confirmation, and nothing has happened to it yet. */
  lemma NewTaskIsUntouched(action: Action, now: int)
    ensures var t := NewTask(action, now);
            && t.action == action && t.state.AwaitingConfirmation? && t.phase.Planning? && t.updatedAt == now
            && t.percent.None? && t.change.None? && t.downloaded.None? && t.total.None? && t.speed.None?
            && t.eta.None? && t.reason.None? && t.nextRetryAt.None? && t.lastProgressAt.None? && t.error.None?
            && !t.notify && !t.autoResume && t.retryCount == 0
    ensures var e := Prepared(action, now);
            e.task == NewTask(action, now) && e.ledger == Ledger({}, 0, 0, 0, e.ledger.scheduledAt)
  {
  }

  // ----- the bookkeeping -----

  /** The call asks the backend for a new change. */
  predicate AsksToStart(t: Task, event: Event) {
    match event
    case Confirm(a) => t.state.AwaitingConfirmation? && t.action.Install? && a.gate != Some(false)
    case ConfirmRemoval(_) => CanBeConfirmed(t, true)
    case Resume(a) => CanBeResumed(t) && a.gate != Some(false)
    case _ => false
  }

  function NewChange(a: Answers): set<ChangeId> {
    if a.start.Started? then {a.start.change} else {}
  }

  /** The bookkeeping counts every request for a change and every confirmation, and adds each change
      that the backend grants. */
  lemma LedgerCountsCalls(e: Entry, event: Event)
    requires !event.BySystem()
    ensures var l, m := e.ledger, Step(e, event).ledger;
            && m.starts == l.starts + (if AsksToStart(e.task, event) then 1 else 0)
            && m.live == l.live + (if AsksToStart(e.task, event) then NewChange(event.a) else {})
            && m.confirmations ==
               l.confirmations + (if (event.Confirm? && CanBeConfirmed(e.task, false))
                                     || (event.ConfirmRemoval? && CanBeConfirmed(e.task, true)) then 1 else 0)
  {
  }

  /** The poll reaches the backend, which reports the end of the change. */
  predicate SeesEnd(t: Task, a: Answers) {
    && t.state in {Running, Recovering, Pausing, Canceling} && t.change.Some?
    && !(t.action.Install? && (t.state.Running? || t.state.Recovering?) && HasPhaseOfDownload(t)
         && a.gate == Some(false))
    && a.progress.Reported? && !a.progress.progress.state.StillRunning?
  }

  /** A poll takes a change off the live ones exactly when its end is reported. */
  lemma LedgerCountsPolls(e: Entry, a: Answers)
    ensures var l, m := e.ledger, Refreshed(e, a).ledger;
            && m.starts == l.starts && m.confirmations == l.confirmations
            && m.live == l.live - (if SeesEnd(e.task, a) then {e.task.change.value} else {})
  {
    hide StopRequested, Delivered, Updated, MonotonicPercent;
  }

  /** Reconciling polls, and counts the automatic start that may follow, as a retry if it left the wait
      for one. */
  lemma LedgerCountsReconciling(e: Entry, a: Answers)
    ensures var seen := if e.task.OwnsChange() then Refreshed(e, a) else e;
            var m := Reconciled(e, a).ledger;
            if IsToStart(seen.task, a) then
              && m.starts == seen.ledger.starts + 1 && m.live == seen.ledger.live + NewChange(a)
              && m.retryStarts == seen.ledger.retryStarts + (if seen.task.state.RetryWait? then 1 else 0)
            else m == seen.ledger
  {
    hide Refreshed;
  }

  /** Retries are counted anew only after a poll that saw the percentage or the bytes rise. */
  lemma RetriesCountedAnew(e: Entry, a: Answers)
    requires Refreshed(e, a).ledger.retryStarts != e.ledger.retryStarts
    ensures a.progress.Reported?
    ensures var t, p := e.task, a.progress.progress;
            || (p.percent.Some? && (t.percent.None? || p.percent.value > t.percent.value))
            || (p.downloaded.Some? && (t.downloaded.None? || p.downloaded.value > t.downloaded.value))
  {
    hide StopRequested, Delivered, DownloadMetrics;
    if a.progress.Reported? {
      MetricsKeepBytes(e.task, a.progress.progress, a.now);
    }
  }
}
