/** The manager of application backups. */
module BackupManagers {
  import opened Wrappers
  import T = SoftwareTasks
  import opened Backups
  import opened BackupRestores

  class BackupManager {
    const catalogue: map<string, string>
    const retention: int
    var store: Store
    ghost var ledgers: map<BackupId, Ledger>

    ghost predicate Valid()
      reads this
    {
      store.Keys == ledgers.Keys && forall id <- store :: Inv(Abs(id))
    }

    ghost function Abs(id: BackupId): Entry
      requires id in store && id in ledgers
      reads this
    {
      Entry(store[id], ledgers[id])
    }

    /** One backup made this step; every other one is untouched. */
    twostate predicate OnlyStepped(id: BackupId, event: Event)
      requires old(Valid()) && Valid() && old(id in store)
      reads this
    {
      && store.Keys == old(store.Keys)
      && Abs(id) == Step(old(Abs(id)), event)
      && forall other <- store :: other != id ==> Abs(other) == old(Abs(other))
    }

    constructor (catalogue: map<string, string>, retention: int)
      ensures Valid() && store == map[] && this.catalogue == catalogue && this.retention == retention
    {
      this.catalogue, this.retention := catalogue, retention;
      store, ledgers := map[], map[];
    }

    function ContextAt(package: Option<string>, now: int): Context {
      Context(catalogue, retention, package, now)
    }

    method Save(id: BackupId, record: Record, ghost ledger: Ledger)
      requires Valid() && Inv(Entry(record, ledger))
      modifies this
      ensures Valid() && store == old(store)[id := record] && ledgers == old(ledgers)[id := ledger]
    {
      hide Inv;
      assert forall other <- store :: Inv(Abs(other));
      store := store[id := record];
      ledgers := ledgers[id := ledger];
    }

    /** Bring the records up to date with the snapshots that the daemon lists. An unreadable time
        ends the call after the earlier snapshots were saved. */
    method Sync(package: Option<string>, snapshots: seq<Snapshot>, now: int) returns (finished: bool)
      requires Valid()
      modifies this
      ensures Valid()
      ensures finished <==> ContextAt(package, now).Readable(snapshots)
      ensures finished ==> store == ContextAt(package, now).Synced(old(store), snapshots)
      ensures forall id <- old(store) :: id in store
                && ContextAt(package, now).SameRestore(old(store)[id], store[id]) && ledgers[id] == old(ledgers)[id]
    {
      hide Inv;
      var context := ContextAt(package, now);
      for i := 0 to |snapshots|
        invariant Valid() && store == context.Merged(old(store), snapshots[..i])
        invariant context.Readable(snapshots[..i])
        invariant forall id <- old(store) :: id in ledgers && ledgers[id] == old(ledgers)[id]
      {
        var s := snapshots[i];
        assert snapshots[..i + 1][..i] == snapshots[..i];
        if context.Known(s) {
          if s.createdAt.None? {
            assert s in snapshots;
            forall id <- old(store)
              ensures id in store && context.SameRestore(old(store)[id], store[id])
            {
              context.MergedKeepsRestores(old(store), snapshots[..i], id);
            }
            return false;
          }
          var listed := context.Listed(store, s);
          ghost var ledger := if s.id in ledgers then ledgers[s.id] else NEW_LEDGER;
          ListedHasInv(context, s, ledger);
          Save(s.id, listed, ledger);
        }
      }
      assert snapshots[..|snapshots|] == snapshots;
      ghost var merged := store;
      forall id <- old(store)
        ensures id in merged && id in context.Synced(old(store), snapshots)
                && context.SameRestore(old(store)[id], context.Synced(old(store), snapshots)[id])
      {
        context.SyncKeepsRestores(old(store), snapshots, id);
      }
      SweepMissing(context, snapshots);
      return true;
    }

    lemma ListedHasInv(context: Context, s: Snapshot, ledger: Ledger)
      requires Valid() && context.Known(s) && s.createdAt.Some?
      requires ledger == if s.id in ledgers then ledgers[s.id] else NEW_LEDGER
      ensures Inv(Entry(context.Listed(store, s), ledger))
    {
      if s.id in store {
        assert Inv(Abs(s.id));
      }
    }

    /** Mark the records whose snapshots are gone. */
    method SweepMissing(context: Context, snapshots: seq<Snapshot>)
      requires Valid()
      modifies this
      ensures Valid() && store == context.Swept(old(store), snapshots) && ledgers == old(ledgers)
    {
      hide Inv, Context.Seen, Context.Concerns, Context.Missing;
      ghost var before := store;
      var rest := store.Keys;
      while rest != {}
        invariant Valid() && rest <= before.Keys == store.Keys && ledgers == old(ledgers)
        invariant forall id <- rest :: store[id] == before[id]
        invariant forall id <- before :: id !in rest ==>
                    store[id] == if context.Concerns(id) && !context.Seen(snapshots, id)
                                 then context.Missing(before[id]) else before[id]
        decreases |rest|
      {
        var id :| id in rest;
        if context.Concerns(id) && !context.Seen(snapshots, id) {
          assert Inv(Abs(id));
          MissingHasInv(context, Abs(id));
          Save(id, context.Missing(store[id]), ledgers[id]);
        }
        rest := rest - {id};
      }
      assert store == context.Swept(before, snapshots);
    }

    lemma MissingHasInv(context: Context, e: Entry)
      requires Inv(e)
      ensures Inv(e.(record := context.Missing(e.record)))
    {
    }

    method PrepareRestore(id: BackupId) returns (r: Result<Record, BackupError>)
      requires Valid()
      modifies this
      ensures Valid()
      ensures r.Failure? ==> store == old(store) && ledgers == old(ledgers)
      ensures id !in old(store) ==> r == Failure(UnknownBackup)
      ensures id in old(store) ==>
                OnlyStepped(id, Prepare)
                && (r.Success? <==> old(store)[id].state.Available?)
                && (r.Success? ==> r.value == store[id])
      ensures id in old(store) ==> Makes(old(store)[id], store[id], Prepare)
    {
      hide Inv, Makes;
      if id in store { StepMakes(Abs(id), Prepare); }
      if id !in store {
        return Failure(UnknownBackup);
      }
      var backup := store[id];
      if !backup.state.Available? {
        return Failure(NotAvailable);
      }
      StepKeepsInv(Abs(id), Prepare);
      ghost var stepped := Step(Abs(id), Prepare);
      Save(id, backup.(state := AwaitingRestore, error := None), stepped.ledger);
      return Success(store[id]);
    }

    /** Confirm the restore; `answer` is what the daemon says to the request. */
    method ConfirmRestore(id: BackupId, answer: RestoreAnswer) returns (r: Result<Record, BackupError>)
      requires Valid()
      modifies this
      ensures Valid()
      ensures r.Failure? ==> store == old(store) && ledgers == old(ledgers)
      ensures id !in old(store) ==> r == Failure(UnknownBackup)
      ensures id in old(store) ==>
                OnlyStepped(id, Confirm(answer))
                && (r.Success? <==> old(store)[id].state.AwaitingRestore?)
      ensures id in old(store) ==> Makes(old(store)[id], store[id], Confirm(answer))
    {
      hide Inv, Makes;
      if id in store { StepMakes(Abs(id), Confirm(answer)); }
      if id !in store {
        return Failure(UnknownBackup);
      }
      var backup := store[id];
      if !backup.state.AwaitingRestore? {
        return Failure(NotAwaitingRestore);
      }
      StepKeepsInv(Abs(id), Confirm(answer));
      ghost var stepped := Step(Abs(id), Confirm(answer));
      match answer {
        case Failure(code) =>
          Save(id, backup.(state := Available, error := Some(code)), stepped.ledger);
        case Success(change) =>
          Save(id, backup.(state := Restoring, restoreChange := Some(change), error := None), stepped.ledger);
      }
      return Success(store[id]);
    }

    method BeginReinstall(id: BackupId, task: string) returns (r: Result<Record, BackupError>)
      requires Valid()
      modifies this
      ensures Valid()
      ensures r.Failure? ==> store == old(store) && ledgers == old(ledgers)
      ensures id !in old(store) ==> r == Failure(UnknownBackup)
      ensures id in old(store) ==>
                OnlyStepped(id, Event.BeginReinstall(task))
                && (r.Success? <==> old(store)[id].state.AwaitingRestore?)
      ensures id in old(store) ==> Makes(old(store)[id], store[id], Event.BeginReinstall(task))
    {
      hide Inv, Makes;
      if id in store { StepMakes(Abs(id), Event.BeginReinstall(task)); }
      if id !in store {
        return Failure(UnknownBackup);
      }
      var backup := store[id];
      if !backup.state.AwaitingRestore? {
        return Failure(NotAwaitingRestore);
      }
      StepKeepsInv(Abs(id), Event.BeginReinstall(task));
      Save(id, backup.(state := Reinstalling, restoreTask := Some(task), restoreChange := None, error := None),
           ledgers[id]);
      return Success(store[id]);
    }

    method CancelRestorePreparation(id: BackupId, code: T.Code) returns (r: Result<Record, BackupError>)
      requires Valid()
      modifies this
      ensures Valid()
      ensures id !in old(store) ==> r == Failure(UnknownBackup) && store == old(store)
      ensures id in old(store) ==> OnlyStepped(id, CancelPreparation(code)) && r == Success(store[id])
      ensures id in old(store) ==> Makes(old(store)[id], store[id], CancelPreparation(code))
    {
      hide Inv, Makes;
      if id in store { StepMakes(Abs(id), CancelPreparation(code)); }
      if id !in store {
        return Failure(UnknownBackup);
      }
      var backup := store[id];
      if backup.state.AwaitingRestore? {
        StepKeepsInv(Abs(id), CancelPreparation(code));
        Save(id, backup.(state := Available, error := Some(code)), ledgers[id]);
      }
      return Success(store[id]);
    }

    /** Go on once the state of the reinstallation is known; the daemon is asked only if it is complete. */
    method ContinueReinstall(id: BackupId, install: InstallState, answer: RestoreAnswer)
      returns (r: Result<Record, BackupError>)
      requires Valid()
      modifies this
      ensures Valid()
      ensures id !in old(store) ==> r == Failure(UnknownBackup) && store == old(store)
      ensures id in old(store) ==>
                OnlyStepped(id, Event.ContinueReinstall(install, answer)) && r == Success(store[id])
      ensures id in old(store) ==> Makes(old(store)[id], store[id], Event.ContinueReinstall(install, answer))
    {
      hide Inv, Makes;
      if id in store { StepMakes(Abs(id), Event.ContinueReinstall(install, answer)); }
      if id !in store {
        return Failure(UnknownBackup);
      }
      var backup := store[id];
      ghost var event := Event.ContinueReinstall(install, answer);
      StepKeepsInv(Abs(id), event);
      ghost var stepped := Step(Abs(id), event);
      if backup.state.Reinstalling? {
        if install.InstallFailed? || install.InstallCanceled? {
          Save(id, backup.(state := Available, restoreTask := None, error := Some("restore_reinstall_failed")),
               ledgers[id]);
        } else if install.InstallCompleted? {
          match answer {
            case Failure(code) =>
              Save(id, backup.(state := Available, restoreTask := None, error := Some(code)), stepped.ledger);
            case Success(change) =>
              Save(id, backup.(state := Restoring, restoreChange := Some(change), error := None), stepped.ledger);
          }
        }
      }
      return Success(store[id]);
    }

    method RefreshRestore(id: BackupId, progress: T.ProgressAnswer, now: int) returns (r: Result<Record, BackupError>)
      requires Valid()
      modifies this
      ensures Valid()
      ensures id !in old(store) ==> r == Failure(UnknownBackup) && store == old(store)
      ensures id in old(store) ==> OnlyStepped(id, Refresh(progress, now)) && r == Success(store[id])
      ensures id in old(store) ==> Makes(old(store)[id], store[id], Refresh(progress, now))
    {
      hide Inv, Makes;
      if id in store { StepMakes(Abs(id), Refresh(progress, now)); }
      if id !in store {
        return Failure(UnknownBackup);
      }
      var backup := store[id];
      StepKeepsInv(Abs(id), Refresh(progress, now));
      if backup.state.Restoring? && backup.restoreChange.Some? {
        match progress {
          case Unreachable(code) =>
            Save(id, backup.(error := Some(code)), ledgers[id]);
          case Reported(p) =>
            match p.state {
              case NowCompleted =>
                Save(id, backup.(state := Restored, lastRestoredAt := Some(now), restoreChange := None, error := None),
                     ledgers[id]);
              case StillRunning =>
              case _ =>
                Save(id, backup.(state := Available, restoreChange := None,
                                 error := Some(if p.error.Some? then p.error.value else "snapshot_restore_failed")),
                     ledgers[id]);
            }
        }
      }
      return Success(store[id]);
    }
  }
}
