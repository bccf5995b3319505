/** What each call of the software manager does to one task, and to the changes it owns. */
module SoftwareMachine {
  import opened Wrappers
  import opened SoftwareTasks
  import opened SoftwareProgress

  datatype ManagerError =
    | TaskNotFound | TaskNotAwaitingConfirmation | TaskNotAwaitingFinalRemovalConfirmation
    | TaskCannotPause | TaskCannotResume | TaskCannotCancel

  /** Bookkeeping that the program does not keep: the changes of the task that are not known to be
      over, how often it was confirmed and started, how many of the starts left `retry_wait`
      automatically since progress was last observed, and when the last retry was scheduled. */
  datatype Ledger = Ledger(
    live: set<ChangeId>,
    confirmations: nat,
    starts: nat,
    retryStarts: nat,
    scheduledAt: int)

  datatype Entry = Entry(task: Task, ledger: Ledger)

  const NEW_LEDGER := Ledger({}, 0, 0, 0, 0)

  function NewTask(action: Action, now: int): Task {
    Task(action, AwaitingConfirmation, Planning, None, None, now, None, None, None, None, false,
         None, false, 0, None, None, None)
  }

  function Prepared(action: Action, now: int): Entry {
    Entry(NewTask(action, now), NEW_LEDGER)
  }

  // ----- pieces -----

  function Saved(t: Task, now: int): Task {
    t.(updatedAt := now)
  }

  function Idle(t: Task): Task {
    t.(nextRetryAt := None, speed := None, eta := None)
  }

  function RetryScheduled(e: Entry, code: Code, now: int): Entry {
    if e.task.retryCount + 1 > MAX_RETRIES then
      e.(task := Saved(Idle(e.task).(
           state := Interrupted, phase := InterruptedPhase, reason := Some(RetryLimit),
           autoResume := false, error := Some("automatic_retry_exhausted")), now))
    else
      var count := e.task.retryCount + 1;
      Entry(
        Saved(Idle(e.task).(
          state := RetryWait, phase := RetryPhase, reason := Some(Retry), autoResume := true,
          retryCount := count, nextRetryAt := Some(now + RetryDelay(count)), error := Some(code)), now),
        e.ledger.(scheduledAt := now))
  }

  function StartedTask(t: Task, change: ChangeId, now: int): Task {
    Saved(Idle(t).(
      state := Running, phase := Queued, percent := Some(Max(0, if t.percent.Some? then t.percent.value else 0)),
      change := Some(change), reason := None, autoResume := false, lastProgressAt := Some(now),
      notify := false, error := None), now)
  }

  /** Ask the backend for a new change. */
  function StartTask(e: Entry, a: Answers): Entry {
    match a.start
    case Started(change) =>
      Entry(StartedTask(e.task, change, a.now),
            e.ledger.(live := e.ledger.live + {change}, starts := e.ledger.starts + 1))
    case StartRefused(code, retryable) =>
      var asked := e.(ledger := e.ledger.(starts := e.ledger.starts + 1));
      if e.task.action.Install? && retryable then RetryScheduled(asked, code, a.now)
      else
        asked.(task := Saved(e.task.(state := Failed, phase := FailedPhase, error := Some(code)), a.now))
  }

  /** Ask the backend to abort the change; the change stays live until the backend says otherwise. */
  function StopRequested(t: Task, reason: Reason, target: State, stop: Option<Code>, now: int): Task {
    var asked := Saved(Idle(t).(
      state := target,
      phase := if reason.Offline? then NetworkPhase
               else if target.Canceling? then CancelingPhase else PausingPhase,
      reason := Some(reason), autoResume := reason.Offline? || reason.Retry?, error := None), now);
    if stop.None? then asked
    else if reason.Cancel? then
      Saved(asked.(state := Canceling, phase := CancelPending, error := stop), now)
    else Saved(asked.(state := Pausing, phase := PausePending, error := stop), now)
  }

  function Delivered(t: Task, delivered: bool, now: int): Task {
    if t.notify && delivered then Saved(t.(notify := false), now) else t
  }

  function IsStalled(t: Task, now: int): bool {
    t.lastProgressAt.Some? && now - t.lastProgressAt.value >= STALLED_SECONDS * SECOND
  }

  function ReportedState(p: Progress): State {
    match p.state
    case StillRunning => Running
    case NowCompleted => Completed
    case NowFailed => Failed
    case NowInterrupted => Interrupted
    case NowCanceled => Canceled
  }

  function MadeProgress(t: Task, percent: Option<int>, downloaded: Option<int>): bool {
    (percent.Some? && (t.percent.None? || percent.value > t.percent.value))
    || (downloaded.Some? && (t.downloaded.None? || downloaded.value > t.downloaded.value))
  }

  function Updated(t: Task, p: Progress, now: int): Task {
    var percent := MonotonicPercent(t, p.percent);
    var metrics := DownloadMetrics(t, p, now);
    var moved := MadeProgress(t, percent, metrics.downloaded);
    var state := ReportedState(p);
    Saved(t.(
      state := state, phase := p.phase, percent := percent,
      downloaded := metrics.downloaded, total := metrics.total, speed := metrics.speed, eta := metrics.eta,
      lastProgressAt := if moved || t.lastProgressAt.None? then Some(now) else t.lastProgressAt,
      retryCount := if moved then 0 else t.retryCount,
      nextRetryAt := if moved then None else t.nextRetryAt,
      reason := if p.state.StillRunning? then None else t.reason,
      autoResume := if state.Completed? || state.Failed? || state.Canceled? then false else t.autoResume,
      notify := t.notify || (t.action.Install? && !t.state.Completed? && p.state.NowCompleted?),
      error := p.error), now)
  }

  function ProgressSaved(e: Entry, p: Progress, a: Answers): Entry {
    var u := Updated(e.task, p, a.now);
    var moved := MadeProgress(e.task, u.percent, u.downloaded);
    Entry(u, e.ledger.(retryStarts := if moved then 0 else e.ledger.retryStarts))
  }

  function ProgressApplied(e: Entry, p: Progress, a: Answers): Entry {
    var t := e.task;
    var broken := t.action.Install? && (p.state.NowFailed? || p.state.NowInterrupted?);
    if broken && a.apply == Some(false) then
      e.(task := Saved(Idle(t).(
           state := WaitingForNetwork, phase := NetworkPhase, reason := Some(Offline),
           autoResume := true, error := p.error), a.now))
    else if broken && (p.state.NowInterrupted? || p.retryable)
            && (t.phase.Queued? || t.phase.Downloading? || t.phase.RecoveringPhase?) then
      RetryScheduled(e, if p.error.Some? then p.error.value else "change_interrupted", a.now)
    else
      var saved := ProgressSaved(e, p, a);
      var u := saved.task;
      if u.action.Install? && u.state.Running? && (u.phase.Queued? || u.phase.Downloading?)
         && IsStalled(u, a.now) then
        saved.(task := StopRequested(u, Retry, Pausing, a.stop, a.now))
      else saved.(task := Delivered(u, a.delivered, a.now))
  }

  function PausingRefreshed(e: Entry, p: Progress, a: Answers): Entry {
    var t := e.task;
    match p.state
    case NowCompleted => ProgressApplied(e, p, a)
    case StillRunning =>
      e.(task := Saved(t.(percent := MonotonicPercent(t, p.percent), error := p.error), a.now))
    case _ =>
      if t.reason == Some(User) then
        e.(task := Saved(t.(state := Paused, phase := PausedPhase, autoResume := false,
                            speed := None, eta := None, error := None), a.now))
      else if t.reason == Some(Offline) then
        e.(task := Saved(t.(state := WaitingForNetwork, phase := NetworkPhase, autoResume := true,
                            speed := None, eta := None, error := None), a.now))
      else RetryScheduled(e, if p.error.Some? then p.error.value else "change_interrupted", a.now)
  }

  function CancelingRefreshed(e: Entry, p: Progress, a: Answers): Entry {
    match p.state
    case NowCompleted => ProgressApplied(e, p, a)
    case StillRunning => e
    case _ => e.(task := CanceledTask(e.task, a.now))
  }

  function CanceledTask(t: Task, now: int): Task {
    Saved(Idle(t).(state := Canceled, phase := CanceledPhase, reason := Some(Reason.Cancel),
                   autoResume := false, error := None), now)
  }

  function BackendLost(t: Task, code: Code, a: Answers): Task {
    Saved(t.(
      state := if t.state.Pausing? || t.state.Canceling? then t.state else Recovering,
      reason := if t.reason.Some? then t.reason else if a.lost == Some(false) then Some(Offline) else None,
      autoResume := t.autoResume || a.lostAgain == Some(false),
      error := Some(code)), a.now)
  }

  // ----- the calls -----

  function Confirmed(e: Entry, a: Answers): Result<Entry, ManagerError> {
    if !e.task.state.AwaitingConfirmation? then Failure(TaskNotAwaitingConfirmation)
    else
      var e := e.(ledger := e.ledger.(confirmations := e.ledger.confirmations + 1));
      if e.task.action.Remove? then
        Success(e.(task := Saved(e.task.(state := AwaitingFinalConfirmation, phase := FinalConfirmation), a.now)))
      else if a.gate == Some(false) then
        Success(e.(task := Saved(e.task.(
          state := WaitingForNetwork, phase := NetworkPhase, reason := Some(Offline), autoResume := true,
          percent := Some(0), lastProgressAt := Some(a.now)), a.now)))
      else Success(StartTask(e, a))
  }

  function RemovalConfirmed(e: Entry, a: Answers): Result<Entry, ManagerError> {
    if !e.task.action.Remove? || !e.task.state.AwaitingFinalConfirmation? then
      Failure(TaskNotAwaitingFinalRemovalConfirmation)
    else Success(StartTask(e.(ledger := e.ledger.(confirmations := e.ledger.confirmations + 1)), a))
  }

  function PauseRequested(e: Entry, a: Answers): Result<Entry, ManagerError> {
    var t := e.task;
    if !t.action.Install? then Failure(TaskCannotPause)
    else if t.state.WaitingForNetwork? || t.state.RetryWait? || t.state.Interrupted? then
      Success(e.(task := Saved(Idle(t).(state := Paused, phase := PausedPhase, reason := Some(User),
                                        autoResume := false, error := None), a.now)))
    else if t.state.Pausing? && t.reason != Some(User) then
      Success(e.(task := Saved(t.(reason := Some(User), autoResume := false, nextRetryAt := None), a.now)))
    else if t.state.Recovering? && t.change.Some?
            && (t.phase.Queued? || t.phase.Downloading? || t.phase.PausePending?) then
      Success(e.(task := StopRequested(t, User, Pausing, a.stop, a.now)))
    else if !t.CanPause() || t.change.None? then Failure(TaskCannotPause)
    else Success(e.(task := StopRequested(t, User, Pausing, a.stop, a.now)))
  }

  function ResumeRequested(e: Entry, a: Answers): Result<Entry, ManagerError> {
    if !e.task.CanResume() then Failure(TaskCannotResume)
    else if a.gate == Some(false) then
      Success(e.(task := Saved(Idle(e.task).(
        state := WaitingForNetwork, phase := NetworkPhase, reason := Some(Offline), autoResume := true,
        error := None), a.now)))
    else Success(StartTask(e, a))
  }

  function CancelRequested(e: Entry, a: Answers): Result<Entry, ManagerError> {
    var t := e.task;
    if !t.CanCancel() then Failure(TaskCannotCancel)
    else if !t.OwnsChange() || t.change.None? then Success(e.(task := CanceledTask(t, a.now)))
    else Success(e.(task := StopRequested(t, Reason.Cancel, Canceling, a.stop, a.now)))
  }

  /** A poll removes the change from the live ones once the backend reports it over. */
  function Polled(e: Entry, p: Progress): Entry {
    if p.Over() && e.task.change.Some? then
      e.(ledger := e.ledger.(live := e.ledger.live - {e.task.change.value}))
    else e
  }

  function Refreshed(e: Entry, a: Answers): Entry {
    var t := e.task;
    if !t.OwnsChange() || t.change.None? then e.(task := Delivered(t, a.delivered, a.now))
    else if t.action.Install? && (t.state.Running? || t.state.Recovering?)
            && (t.phase.Queued? || t.phase.Downloading?) && a.gate == Some(false) then
      e.(task := StopRequested(t, Offline, Pausing, a.stop, a.now))
    else
      match a.progress
      case Unreachable(code) => e.(task := BackendLost(t, code, a))
      case Reported(p) =>
        var seen := Polled(e, p);
        if t.state.Canceling? then CancelingRefreshed(seen, p, a)
        else if t.state.Pausing? then PausingRefreshed(seen, p, a)
        else ProgressApplied(seen, p, a)
  }

  function IsDue(t: Task, now: int): bool {
    t.nextRetryAt.Some? ==> now >= t.nextRetryAt.value
  }

  /** Start a waiting installation on its own: when the network is back, or its retry is due. */
  function Woken(e: Entry, a: Answers): Entry {
    var t := e.task;
    if t.action.Install? && t.autoResume && t.state.WaitingForNetwork? && a.wake == Some(true) then
      StartTask(e, a)
    else if t.action.Install? && t.autoResume && t.state.RetryWait? && a.wake != Some(false)
            && IsDue(t, a.now) then
      StartTask(e.(ledger := e.ledger.(retryStarts := e.ledger.retryStarts + 1)), a)
    else e
  }

  /** One task of the polling loop. */
  function Reconciled(e: Entry, a: Answers): Entry {
    var woken := Woken(if e.task.OwnsChange() then Refreshed(e, a) else e, a);
    woken.(task := Delivered(woken.task, a.delivered, a.now))
  }

  function Acknowledged(e: Entry, now: int): Entry {
    e.(task := Delivered(e.task, true, now))
  }

  // ----- events on one task -----

  datatype Event =
    | Confirm(a: Answers) | ConfirmRemoval(a: Answers) | Pause(a: Answers) | Resume(a: Answers)
    | Cancel(a: Answers) | Refresh(a: Answers) | Reconcile(a: Answers) | Acknowledge(a: Answers)
  {
    /** Polling by the system, as opposed to a call of the user. */
    predicate BySystem() {
      Refresh? || Reconcile? || Acknowledge?
    }
  }

  function OrUnchanged(e: Entry, r: Result<Entry, ManagerError>): Entry {
    if r.Success? then r.value else e
  }

  /** A refused call changes nothing. */
  function Step(e: Entry, event: Event): Entry {
    match event
    case Confirm(a) => OrUnchanged(e, Confirmed(e, a))
    case ConfirmRemoval(a) => OrUnchanged(e, RemovalConfirmed(e, a))
    case Pause(a) => OrUnchanged(e, PauseRequested(e, a))
    case Resume(a) => OrUnchanged(e, ResumeRequested(e, a))
    case Cancel(a) => OrUnchanged(e, CancelRequested(e, a))
    case Refresh(a) => Refreshed(e, a)
    case Reconcile(a) => Reconciled(e, a)
    case Acknowledge(a) => Acknowledged(e, a.now)
  }

  function Run(e: Entry, events: seq<Event>): Entry
    decreases |events|
  {
    if events == [] then e else Run(Step(e, events[0]), events[1..])
  }
}
