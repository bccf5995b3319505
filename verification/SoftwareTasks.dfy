/** Installation and removal tasks, and the answers of the package backend, the network and the clock. */
module SoftwareTasks {
  import opened Wrappers

  type ChangeId = nat
  type Code = string

  datatype Action = Install | Remove

  datatype State =
    | AwaitingConfirmation | AwaitingFinalConfirmation
    | Running | Recovering | Pausing | Canceling
    | Paused | Interrupted | WaitingForNetwork | RetryWait
    | Completed | Failed | Canceled

  datatype Phase =
    | Planning | FinalConfirmation | Queued | Downloading | Installing | Removing | Working
    | PausingPhase | CancelingPhase | PausePending | CancelPending | RecoveringPhase
    | PausedPhase | InterruptedPhase | NetworkPhase | RetryPhase
    | CompletedPhase | FailedPhase | CanceledPhase

  datatype Reason = User | Offline | Retry | Cancel | RetryLimit

  /** Times are microseconds on the clock of the machine. */
  datatype Task = Task(
    action: Action,
    state: State,
    phase: Phase,
    percent: Option<int>,
    change: Option<ChangeId>,
    updatedAt: int,
    downloaded: Option<int>,
    total: Option<int>,
    speed: Option<int>,
    eta: Option<int>,
    notify: bool,
    reason: Option<Reason>,
    autoResume: bool,
    retryCount: nat,
    nextRetryAt: Option<int>,
    lastProgressAt: Option<int>,
    error: Option<Code>)
  {
    predicate Terminal() {
      state.Completed? || state.Failed? || state.Canceled?
    }

    /** States in which the task may own a change that is still live in the backend. */
    predicate OwnsChange() {
      state.Running? || state.Recovering? || state.Pausing? || state.Canceling?
    }

    predicate CanPause() {
      action.Install? &&
      (state.WaitingForNetwork? || state.RetryWait?
       || (state.Pausing? && reason != Some(User))
       || (state.Running? && (phase.Queued? || phase.Downloading?)))
    }

    predicate CanResume() {
      action.Install? && (state.Paused? || state.Interrupted? || state.RetryWait?)
    }

    predicate CanCancel() {
      !Terminal()
    }
  }

  // ----- answers from outside -----

  type Net = Option<bool>

  datatype StartAnswer = Started(change: ChangeId) | StartRefused(code: Code, retryable: bool)

  datatype ProgressState = StillRunning | NowCompleted | NowFailed | NowInterrupted | NowCanceled

  datatype Progress = Progress(
    state: ProgressState,
    phase: Phase,
    percent: Option<int>,
    error: Option<Code>,
    retryable: bool,
    downloaded: Option<int>,
    total: Option<int>)
  {
    /** A change that is reported in one of these states is over. */
    predicate Over() {
      !state.StillRunning?
    }
  }

  datatype ProgressAnswer = Reported(progress: Progress) | Unreachable(code: Code)

  /** Everything one call may learn from outside. Each network probe may answer differently. */
  datatype Answers = Answers(
    now: int,
    gate: Net,
    lost: Net,
    lostAgain: Net,
    apply: Net,
    wake: Net,
    start: StartAnswer,
    stop: Option<Code>,
    progress: ProgressAnswer,
    delivered: bool)

  ghost predicate PercentRange(percent: Option<int>) {
    percent.Some? ==> 0 <= percent.value <= 100
  }

  /** The backend reports percentages between 0 and 100. */
  ghost predicate SaneAnswers(a: Answers) {
    a.progress.Reported? ==> PercentRange(a.progress.progress.percent)
  }

  const SECOND := 1_000_000
  const STALLED_SECONDS := 300
  const MAX_RETRIES := 8

  function RetryDelay(retryCount: int): int
    requires 1 <= retryCount <= MAX_RETRIES
  {
    [5, 15, 30, 60, 120, 300, 300, 300][retryCount - 1] * SECOND
  }
}
