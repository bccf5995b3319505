/** Backups of applications: what synchronizing with the package daemon and restoring do to a record. */
module Backups {
  import opened Wrappers
  import T = SoftwareTasks

  datatype BackupId = BackupId(set_: nat, package: string)

  datatype BackupState = Available | AwaitingRestore | Reinstalling | Restoring | Restored | Expired | Unavailable {
    /** A restore is under way. */
    predicate InFlight() {
      AwaitingRestore? || Reinstalling? || Restoring?
    }

    /** States that synchronizing leaves alone. */
    predicate Kept() {
      InFlight() || Restored?
    }
  }

  /** Times are microseconds. */
  datatype Record = Record(
    application: string,
    createdAt: int,
    expiresAt: Option<int>,
    size: Option<int>,
    state: BackupState,
    restoreTask: Option<string>,
    restoreChange: Option<T.ChangeId>,
    lastRestoredAt: Option<int>,
    error: Option<T.Code>)

  type Store = map<BackupId, Record>

  /** A snapshot that the daemon lists; its time may be unreadable. */
  datatype Snapshot = Snapshot(id: BackupId, createdAt: Option<int>, size: Option<int>, automatic: bool)

  function RemainingSeconds(expiresAt: Option<int>, now: int): (r: Option<nat>) {
    match expiresAt
    case None => None
    case Some(at) => Some(if at <= now then 0 else (at - now) / T.SECOND)
  }

  /** Catalogue, retention and the clock, fixed during one call. */
  datatype Context = Context(catalogue: map<string, string>, retention: int, package: Option<string>, now: int)
  {
    predicate Known(s: Snapshot) {
      s.id.package in catalogue
    }

    /** The record of a snapshot; what is known about a restore is carried over. */
    function Listed(store: Store, s: Snapshot): Record
      requires Known(s) && s.createdAt.Some?
    {
      var expires := if s.automatic then Some(s.createdAt.value + retention) else None;
      var listed := Record(catalogue[s.id.package], s.createdAt.value, expires, s.size,
                          Available, None, None, None, None);
      if s.id !in store then listed
      else
        var current := store[s.id];
        listed.(state := if current.state.Kept() then current.state else Available,
               restoreTask := current.restoreTask, restoreChange := current.restoreChange,
               lastRestoredAt := current.lastRestoredAt, error := current.error)
    }

    /** After the snapshots were saved one by one. */
    function Merged(store: Store, snapshots: seq<Snapshot>): Store {
      if snapshots == [] then store
      else
        var before, s := Merged(store, snapshots[..|snapshots| - 1]), snapshots[|snapshots| - 1];
        if Known(s) && s.createdAt.Some? then before[s.id := Listed(before, s)] else before
    }

    predicate Seen(snapshots: seq<Snapshot>, id: BackupId) {
      exists s <- snapshots :: Known(s) && s.id == id
    }

    predicate Concerns(id: BackupId) {
      package.None? || id.package == package.value
    }

    /** A record whose snapshot is no longer listed. */
    function Missing(r: Record): Record {
      if r.state.Kept() then r
      else r.(state := if RemainingSeconds(r.expiresAt, now) == Some(0) then Expired else Unavailable)
    }

    function Swept(store: Store, snapshots: seq<Snapshot>): Store {
      map id | id in store ::
        if Concerns(id) && !Seen(snapshots, id) then Missing(store[id]) else store[id]
    }

    function Synced(store: Store, snapshots: seq<Snapshot>): Store {
      Swept(Merged(store, snapshots), snapshots)
    }

    /** All times of known packages can be read. */
    ghost predicate Readable(snapshots: seq<Snapshot>) {
      forall s <- snapshots :: Known(s) ==> s.createdAt.Some?
    }

    // ----- synchronizing keeps restores -----

    ghost predicate SameRestore(a: Record, b: Record) {
      && a.restoreTask == b.restoreTask && a.restoreChange == b.restoreChange
      && a.lastRestoredAt == b.lastRestoredAt && a.error == b.error
      && (a.state.Kept() || b.state.Kept() ==> a.state == b.state)
    }

    lemma {:induction false} MergedKeepsRestores(store: Store, snapshots: seq<Snapshot>, id: BackupId)
      requires id in store
      ensures id in Merged(store, snapshots) && SameRestore(store[id], Merged(store, snapshots)[id])
    {
      if snapshots != [] {
        MergedKeepsRestores(store, snapshots[..|snapshots| - 1], id);
      }
    }

    /** Synchronizing forgets no record and never touches a restore: neither the state of a record
        that is in flight or restored nor any of its restore fields. */
    lemma SyncKeepsRestores(store: Store, snapshots: seq<Snapshot>, id: BackupId)
      requires id in store
      ensures id in Synced(store, snapshots) && SameRestore(store[id], Synced(store, snapshots)[id])
    {
      MergedKeepsRestores(store, snapshots, id);
    }

    // ----- what synchronizing makes of a record -----

    /** The record says what this snapshot says. An automatic one expires when its retention is over; a
        restore that is under way or done is left alone, and every other record is available. */
    ghost predicate Shows(r: Record, s: Snapshot, store: Store) {
      && s.id.package in catalogue && r.application == catalogue[s.id.package]
      && s.createdAt == Some(r.createdAt) && r.size == s.size
      && r.expiresAt == (if s.automatic then Some(r.createdAt + retention) else None)
      && if s.id in store then
           && SameRestore(store[s.id], r)
           && r.state == (if store[s.id].state in {AwaitingRestore, Reinstalling, Restoring, Restored}
                          then store[s.id].state else Available)
         else
           r.state.Available? && r.restoreTask.None? && r.restoreChange.None? && r.lastRestoredAt.None? && r.error.None?
    }

    /** The last snapshot of this backup that the daemon lists. */
    ghost predicate LastListed(snapshots: seq<Snapshot>, id: BackupId, i: nat) {
      && i < |snapshots| && snapshots[i].id == id && snapshots[i].id.package in catalogue
      && forall j :: i < j < |snapshots| ==> !(snapshots[j].id == id && snapshots[j].id.package in catalogue)
    }

    lemma {:induction false} MergedShows(store: Store, snapshots: seq<Snapshot>, i: nat)
      requires Readable(snapshots) && i < |snapshots| && LastListed(snapshots, snapshots[i].id, i)
      ensures snapshots[i].id in Merged(store, snapshots)
      ensures Shows(Merged(store, snapshots)[snapshots[i].id], snapshots[i], store)
    {
      var rest, last := snapshots[..|snapshots| - 1], snapshots[|snapshots| - 1];
      var id := snapshots[i].id;
      assert snapshots == rest + [last];
      if i == |snapshots| - 1 {
        LastListing(store, rest, last);
        if id in store {
          MergedKeepsRestores(store, rest, id);
        } else {
          MergedFresh(store, rest, id);
        }
      } else {
        assert rest[i] == snapshots[i];
        MergedShows(store, rest, i);
      }
    }

    lemma {:induction false} MergedFresh(store: Store, snapshots: seq<Snapshot>, id: BackupId)
      requires id !in store
      ensures id in Merged(store, snapshots) ==>
                var r := Merged(store, snapshots)[id];
                r.state.Available? && r.restoreTask.None? && r.restoreChange.None? && r.lastRestoredAt.None?
                && r.error.None?
    {
      if snapshots != [] {
        MergedFresh(store, snapshots[..|snapshots| - 1], id);
      }
    }

    /** After synchronizing, a record whose backup is listed shows its last listing. */
    lemma SyncShowsListed(store: Store, snapshots: seq<Snapshot>, i: nat)
      requires Readable(snapshots) && i < |snapshots| && LastListed(snapshots, snapshots[i].id, i)
      ensures snapshots[i].id in Synced(store, snapshots)
      ensures Shows(Synced(store, snapshots)[snapshots[i].id], snapshots[i], store)
    {
      hide Shows, Merged;
      MergedShows(store, snapshots, i);
      assert Seen(snapshots, snapshots[i].id);
    }

    /** A record that is no longer listed, and that the call concerns, is expired if less than a second
        of its time is left, and else unavailable, unless its restore is under way or done. Nothing else
        about it changes, and nothing at all about a record of another package. */
    lemma SyncMarksMissing(store: Store, snapshots: seq<Snapshot>, id: BackupId)
      requires id in store && forall s <- snapshots :: !(s.id == id && s.id.package in catalogue)
      ensures id in Synced(store, snapshots)
      ensures var r, u := store[id], Synced(store, snapshots)[id];
              && u == r.(state := u.state)
              && u.state ==
                 if r.state in {AwaitingRestore, Reinstalling, Restoring, Restored}
                    || (package.Some? && package.value != id.package) then r.state
                 else if r.expiresAt.Some? && r.expiresAt.value - now < 1_000_000 then Expired
                 else Unavailable
    {
      MergedLeavesUnseen(store, snapshots, id);
    }

    // ----- synchronizing twice changes nothing -----

    lemma {:induction false} MergedLeavesUnseen(store: Store, snapshots: seq<Snapshot>, id: BackupId)
      requires !Seen(snapshots, id)
      ensures id in store <==> id in Merged(store, snapshots)
      ensures id in store ==> Merged(store, snapshots)[id] == store[id]
    {
      if snapshots != [] {
        var rest, s := snapshots[..|snapshots| - 1], snapshots[|snapshots| - 1];
        assert snapshots == rest + [s];
        MergedLeavesUnseen(store, rest, id);
      }
    }

    lemma {:induction false} MergedKeys(store: Store, snapshots: seq<Snapshot>, id: BackupId)
      requires Readable(snapshots)
      ensures id in Merged(store, snapshots) <==> id in store || Seen(snapshots, id)
    {
      if snapshots != [] {
        var rest, s := snapshots[..|snapshots| - 1], snapshots[|snapshots| - 1];
        assert snapshots == rest + [s];
        MergedKeys(store, rest, id);
      }
    }

    lemma {:induction false} MergedAgain(store: Store, again: Store, snapshots: seq<Snapshot>, id: BackupId)
      requires Readable(snapshots) && Seen(snapshots, id) && id in again
      requires id in Merged(store, snapshots) && SameRestore(Merged(store, snapshots)[id], again[id])
      ensures id in Merged(again, snapshots) && Merged(again, snapshots)[id] == Merged(store, snapshots)[id]
    {
      var rest, s := snapshots[..|snapshots| - 1], snapshots[|snapshots| - 1];
      assert snapshots == rest + [s];
      if s.id == id && Known(s) {
        MergedKeepsRestores(again, rest, id);
        LastListing(store, rest, s);
        LastListing(again, rest, s);
      } else {
        MergedAgain(store, again, rest, id);
      }
    }

    lemma LastListing(store: Store, rest: seq<Snapshot>, s: Snapshot)
      requires Known(s) && s.createdAt.Some?
      ensures Merged(store, rest + [s]) == Merged(store, rest)[s.id := Listed(Merged(store, rest), s)]
    {
      assert (rest + [s])[..|rest + [s]| - 1] == rest;
    }

    /** For the same snapshots and the same time, synchronizing again changes nothing. */
    lemma SyncIsIdempotent(store: Store, snapshots: seq<Snapshot>)
      requires Readable(snapshots)
      ensures Synced(Synced(store, snapshots), snapshots) == Synced(store, snapshots)
    {
      hide Merged, Seen, Readable;
      var once := Synced(store, snapshots);
      var merged, again := Merged(store, snapshots), Merged(once, snapshots);
      forall id
        ensures id in Swept(again, snapshots) <==> id in once
        ensures id in once ==> Swept(again, snapshots)[id] == once[id]
      {
        MergedKeys(store, snapshots, id);
        MergedKeys(once, snapshots, id);
        if id in once {
          if Seen(snapshots, id) {
            MergedAgain(store, once, snapshots, id);
          } else {
            MergedLeavesUnseen(once, snapshots, id);
          }
        }
      }
      assert Swept(again, snapshots) == once;
    }
  }
}
