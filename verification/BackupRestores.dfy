/** Restoring one backup: preparation, confirmation, reinstallation, and the theorems about all runs. */
module BackupRestores {
  import opened Wrappers
  import T = SoftwareTasks
  import opened Backups

  /** Bookkeeping that the program does not keep: preparations so far, and calls of
      `restore_snapshot` so far and since the last preparation. */
  datatype Ledger = Ledger(preparations: nat, calls: nat, callsSince: nat)

  const NEW_LEDGER := Ledger(0, 0, 0)

  datatype Entry = Entry(record: Record, ledger: Ledger)

  datatype InstallState = InstallCompleted | InstallFailed | InstallCanceled | InstallOther

  type RestoreAnswer = Result<T.ChangeId, T.Code>

  datatype BackupError = UnknownBackup | NotAvailable | NotAwaitingRestore

  // ----- the calls -----

  function Prepared(e: Entry): Result<Entry, BackupError> {
    if !e.record.state.Available? then Failure(NotAvailable)
    else
      Success(Entry(e.record.(state := AwaitingRestore, error := None),
                    Ledger(e.ledger.preparations + 1, e.ledger.calls, 0)))
  }

  /** `restore_snapshot` is called, and its answer recorded. */
  function Asked(e: Entry, answer: RestoreAnswer, refused: Record): Entry {
    var counted := e.ledger.(calls := e.ledger.calls + 1, callsSince := e.ledger.callsSince + 1);
    match answer
    case Success(change) =>
      Entry(e.record.(state := Restoring, restoreChange := Some(change), error := None), counted)
    case Failure(code) => Entry(refused.(state := Available, error := Some(code)), counted)
  }

  function Confirmed(e: Entry, answer: RestoreAnswer): Result<Entry, BackupError> {
    if !e.record.state.AwaitingRestore? then Failure(NotAwaitingRestore)
    else Success(Asked(e, answer, e.record))
  }

  function ReinstallBegun(e: Entry, task: string): Result<Entry, BackupError> {
    if !e.record.state.AwaitingRestore? then Failure(NotAwaitingRestore)
    else
      Success(e.(record := e.record.(state := Reinstalling, restoreTask := Some(task),
                                     restoreChange := None, error := None)))
  }

  function PreparationCancelled(e: Entry, code: T.Code): Entry {
    if e.record.state.AwaitingRestore? then e.(record := e.record.(state := Available, error := Some(code)))
    else e
  }

  function ReinstallContinued(e: Entry, install: InstallState, answer: RestoreAnswer): Entry {
    if !e.record.state.Reinstalling? then e
    else
      match install
      case InstallOther => e
      case InstallCompleted =>
        Asked(e, answer, e.record.(restoreTask := None))
      case _ =>
        e.(record := e.record.(state := Available, restoreTask := None, error := Some("restore_reinstall_failed")))
  }

  function Refreshed(e: Entry, answer: T.ProgressAnswer, now: int): Entry {
    if !e.record.state.Restoring? || e.record.restoreChange.None? then e
    else
      match answer
      case Unreachable(code) => e.(record := e.record.(error := Some(code)))
      case Reported(p) =>
        match p.state
        case StillRunning => e
        case NowCompleted =>
          e.(record := e.record.(state := Restored, lastRestoredAt := Some(now), restoreChange := None, error := None))
        case _ =>
          e.(record := e.record.(state := Available, restoreChange := None,
               error := Some(if p.error.Some? then p.error.value else "snapshot_restore_failed")))
  }

  datatype Event =
    | Prepare
    | Confirm(answer: RestoreAnswer)
    | BeginReinstall(task: string)
    | CancelPreparation(code: T.Code)
    | ContinueReinstall(install: InstallState, answer: RestoreAnswer)
    | Refresh(progress: T.ProgressAnswer, now: int)
    | Sync(context: Context, id: BackupId, store: Store, snapshots: seq<Snapshot>)

  function OrUnchanged(e: Entry, r: Result<Entry, BackupError>): Entry {
    if r.Success? then r.value else e
  }

  /** Synchronizing gives the record of this backup whatever the whole store says. */
  ghost predicate Applies(e: Entry, event: Event) {
    event.Sync? ==> event.id in event.store && event.store[event.id] == e.record
  }

  function Step(e: Entry, event: Event): Entry {
    match event
    case Prepare => OrUnchanged(e, Prepared(e))
    case Confirm(answer) => OrUnchanged(e, Confirmed(e, answer))
    case BeginReinstall(task) => OrUnchanged(e, ReinstallBegun(e, task))
    case CancelPreparation(code) => PreparationCancelled(e, code)
    case ContinueReinstall(install, answer) => ReinstallContinued(e, install, answer)
    case Refresh(progress, now) => Refreshed(e, progress, now)
    case Sync(context, id, store, snapshots) =>
      var synced := context.Synced(store, snapshots);
      if id in synced then e.(record := synced[id]) else e
  }

  // ----- what a call makes of a record -----

  /** The daemon accepted the request, or refused it. */
  predicate AnswerMakes(r: Record, u: Record, answer: RestoreAnswer) {
    match answer
    case Success(change) => u == r.(state := Restoring, restoreChange := Some(change), error := None)
    case Failure(code) => u == r.(state := Available, error := Some(code), restoreTask := u.restoreTask)
  }

  /** What each call makes of a record; out of turn it leaves the record as it is. */
  predicate Makes(r: Record, u: Record, event: Event) {
    match event
    case Prepare =>
      u == if r.state.Available? then r.(state := AwaitingRestore, error := None) else r
    case Confirm(answer) =>
      if r.state.AwaitingRestore? then AnswerMakes(r, u, answer) && u.restoreTask == r.restoreTask else u == r
    case BeginReinstall(task) =>
      if r.state.AwaitingRestore? then
        u == r.(state := Reinstalling, restoreTask := Some(task), restoreChange := None, error := None)
      else u == r
    case CancelPreparation(code) =>
      u == if r.state.AwaitingRestore? then r.(state := Available, error := Some(code)) else r
    case ContinueReinstall(install, answer) =>
      if !r.state.Reinstalling? || install.InstallOther? then u == r
      else if install.InstallCompleted? then
        AnswerMakes(r, u, answer) && (u.state.Available? ==> u.restoreTask.None?)
      else u == r.(state := Available, restoreTask := None, error := Some("restore_reinstall_failed"))
    case Refresh(progress, now) =>
      if !r.state.Restoring? || r.restoreChange.None? then u == r
      else if progress.Unreachable? then u == r.(error := Some(progress.code))
      else if progress.progress.state.StillRunning? then u == r
      else if progress.progress.state.NowCompleted? then
        u == r.(state := Restored, restoreChange := None, error := None, lastRestoredAt := Some(now))
      else
        u == r.(state := Available, restoreChange := None,
                error := Some(if progress.progress.error.Some? then progress.progress.error.value
                              else "snapshot_restore_failed"))
    case Sync(_, _, _, _) => true
  }

  lemma StepMakes(e: Entry, event: Event)
    ensures Makes(e.record, Step(e, event).record, event)
  {
    hide Context.Synced;
  }

  /** The call asks the daemon to restore. */
  predicate AsksDaemon(r: Record, event: Event) {
    || (event.Confirm? && r.state.AwaitingRestore?)
    || (event.ContinueReinstall? && r.state.Reinstalling? && event.install.InstallCompleted?)
  }

  /** The bookkeeping counts every preparation and every request, no more and no less. */
  lemma LedgerCounts(e: Entry, event: Event)
    ensures var prepares := event.Prepare? && e.record.state.Available?;
            Step(e, event).ledger ==
              Ledger(e.ledger.preparations + if prepares then 1 else 0,
                     e.ledger.calls + if AsksDaemon(e.record, event) then 1 else 0,
                     if prepares then 0 else e.ledger.callsSince + if AsksDaemon(e.record, event) then 1 else 0)
  {
    hide Context.Synced;
  }

  // ----- the invariant -----

  ghost predicate Inv(e: Entry) {
    && e.ledger.callsSince <= 1
    && e.ledger.calls <= e.ledger.preparations
    && (e.record.state.AwaitingRestore? || e.record.state.Reinstalling? ==>
          e.ledger.callsSince == 0 && e.ledger.calls < e.ledger.preparations)
    && (e.record.state.Restoring? ==> e.record.restoreChange.Some?)
    && (e.record.state.Reinstalling? ==> e.record.restoreTask.Some?)
  }

  /** A record as synchronizing first creates it. */
  ghost predicate IsNew(e: Entry) {
    e.ledger == NEW_LEDGER && !e.record.state.InFlight()
  }

  lemma StepKeepsInv(e: Entry, event: Event)
    requires Inv(e) && Applies(e, event)
    ensures Inv(Step(e, event))
  {
    hide Context.Synced;
    if event.Sync? {
      event.context.SyncKeepsRestores(event.store, event.snapshots, event.id);
    }
  }

  ghost predicate Legal(e: Entry, events: seq<Event>)
    decreases |events|
  {
    events == [] || (Applies(e, events[0]) && Legal(Step(e, events[0]), events[1..]))
  }

  function Run(e: Entry, events: seq<Event>): Entry
    decreases |events|
  {
    if events == [] then e else Run(Step(e, events[0]), events[1..])
  }

  lemma {:induction false} RunKeepsInv(e: Entry, events: seq<Event>)
    requires Inv(e) && Legal(e, events)
    ensures Inv(Run(e, events))
    decreases |events|
  {
    hide Inv, Step;
    if events != [] {
      StepKeepsInv(e, events[0]);
      RunKeepsInv(Step(e, events[0]), events[1..]);
    }
  }

  /** In every run the daemon is asked at most once per preparation to restore the snapshot. */
  lemma OneRestorePerPreparation(e: Entry, events: seq<Event>)
    requires IsNew(e) && Legal(e, events)
    ensures var t := Run(e, events);
            t.ledger.calls <= t.ledger.preparations && t.ledger.callsSince <= 1
  {
    RunKeepsInv(e, events);
  }

  /** The daemon is asked only when the user confirms a preparation, or the installation that was
      begun for it is complete; and not a second time before the next preparation. */
  lemma CalledOnlyWhenCleared(e: Entry, event: Event)
    requires Inv(e) && Applies(e, event) && Step(e, event).ledger.calls != e.ledger.calls
    ensures e.ledger.callsSince == 0 && Step(e, event).ledger.callsSince == 1
    ensures (event.Confirm? && e.record.state.AwaitingRestore?)
            || (event.ContinueReinstall? && e.record.state.Reinstalling? && event.install.InstallCompleted?)
  {
    hide Context.Synced;
  }

  /** A restore that is under way can always be followed: its change is known, so refreshing settles
      it as soon as the daemon says how it ended. */
  lemma RestoringIsNeverStuck(e: Entry, p: T.Progress, now: int)
    requires Inv(e) && e.record.state.Restoring? && !p.state.StillRunning?
    ensures var t := Step(e, Refresh(T.Reported(p), now)).record;
            && t.state == (if p.state.NowCompleted? then Restored else Available)
            && t.restoreChange.None?
            && (p.state.NowCompleted? ==> t.lastRestoredAt == Some(now) && t.error.None?)
            && (!p.state.NowCompleted? ==> t.lastRestoredAt == e.record.lastRestoredAt && t.error.Some?)
  {
  }

  lemma RestoredAfterStep(e: Entry, event: Event)
    requires e.record.state.Restored? && Applies(e, event)
    ensures Step(e, event).record.state.Restored? && Step(e, event).ledger == e.ledger
    ensures Step(e, event).record.lastRestoredAt == e.record.lastRestoredAt
  {
    hide Context.Synced;
    if event.Sync? {
      event.context.SyncKeepsRestores(event.store, event.snapshots, event.id);
    }
  }

  /** A restored backup stays restored: no later call or synchronization changes that. */
  lemma {:induction false} RestoredIsFinal(e: Entry, events: seq<Event>)
    requires e.record.state.Restored? && Legal(e, events)
    ensures Run(e, events).record.state.Restored? && Run(e, events).ledger == e.ledger
    ensures Run(e, events).record.lastRestoredAt == e.record.lastRestoredAt
    decreases |events|
  {
    hide Step;
    if events != [] {
      RestoredAfterStep(e, events[0]);
      RestoredIsFinal(Step(e, events[0]), events[1..]);
    }
  }
}
