/** Preparing, committing, cancelling and restoring quarantined files. */
module QuarantineManagers {
  import opened Wrappers
  import opened PatternSearch
  import opened Quarantine
  import opened QuarantineRuns

  /** A call is refused, runs to its end, or ends with an error in its exception handler. */
  datatype CallResult = Refused | Done | Stopped

  /** The file is in place and unchanged, and nothing that leads to the move was refused. */
  predicate Takes(s: State, id: Id, a: CommitAnswers)
    requires id in s.records
  {
    var r := s.records[id];
    && r.place in s.originals && s.digest(s.originals[r.place].bytes) == r.sha256
    && a.reachable && a.scan.Exact? && a.move.Moved?
  }

  /** The place is free, and nothing that leads to the move back was refused. */
  predicate GivesBack(s: State, id: Id, a: RestoreAnswers)
    requires id in s.records
  {
    s.records[id].place !in s.originals && a.reachable && a.check.Exact? && a.move
  }

  /** How a commit that is not cut ends: quarantined with the finding resolved exactly when the file
      was there unchanged and every operation was granted, stuck exactly when its undo was refused,
      and otherwise failed with the file in its place. */
  ghost predicate CommitEnd(s: State, t: State, id: Id, a: CommitAnswers)
    requires id in s.records
  {
    var r := s.records[id];
    && (t.In(id, Quarantined) <==> Takes(s, id, a) && a.rehash.Exact? && a.protect)
    && (t.In(id, Committing) <==> CommitSticks(s, id, a))
    && (t.In(id, Failed) <==> !t.In(id, Quarantined) && !t.In(id, Committing))
    && (t.In(id, Failed) ==> FileStays(s, t, id, r.place))
    && (t.In(id, Quarantined) ==> t.records[id].error.None?)
    && (t.In(id, Failed) ==>
          && (Takes(s, id, a) ==> t.records[id].error == Some(VerificationFailed))
          && (!Takes(s, id, a) ==> t.records[id].error == CommitObstacle(s, id, a)))
    && (t.In(id, Quarantined) ==> r.finding in t.findings && !t.findings[r.finding].active)
  }

  /** How a restore that is not cut ends: restored with the finding active exactly when the place was
      free and every operation was granted, and otherwise quarantined, with the object unless it slips. */
  ghost predicate RestoreEnd(s: State, t: State, id: Id, a: RestoreAnswers)
    requires id in s.records
  {
    var r := s.records[id];
    && (t.In(id, Restored) <==> GivesBack(s, id, a) && a.setMode && a.rehash.Exact?)
    && (t.In(id, Quarantined) <==> !t.In(id, Restored))
    && (id in t.objects <==> !t.In(id, Restored) && !RestoreSlips(s, id, a))
    && (t.In(id, Restored) ==> r.finding in t.findings && t.findings[r.finding].active)
    && (t.In(id, Restored) ==> t.records[id].error.None?)
    && (t.In(id, Quarantined) ==>
          t.records[id].error ==
          if !GivesBack(s, id, a) then RestoreObstacle(s, id, a)
          else if RestoreSlips(s, id, a) then Some(RestoreMoveFailed)
          else Some(RestoreVerificationFailed))
  }

  lemma CommitEnds(s: State, id: Id, a: CommitAnswers)
    requires Inv(s) && s.In(id, AwaitingConfirmation)
    ensures CommitEnd(s, Step(s, Commit(id, a, None)), id, a)
  {
    hide VerifyTrail, FileStays, OnlyOwn;
    RecordOf(s, id);
    CommitPoints(s, id, a);
    AfterIsOnTheWay(s, CommitTrail(s, id, a), None);
    OwnRecord(s, Step(s, Commit(id, a, None)), id);
    CommitSecures(s, id, a, None);
    if CommitObstacle(s, id, a).None? {
      var moved := MovedOut(Marked(s, id, Committing, None), id, s.records[id].place);
      VerifyEnds(moved, id, a);
    }
  }

  lemma VerifyEnds(t: State, id: Id, a: CommitAnswers)
    requires t.In(id, Committing) && id in t.objects
    requires t.digest(t.objects[id].bytes) == t.records[id].sha256
    ensures var trail := VerifyTrail(t, id, a);
            var end := ([t] + trail)[|trail|];
            && (end.In(id, Quarantined) <==> a.rehash.Exact? && a.protect)
            && (end.In(id, Quarantined) ==> end.records[id].error.None?)
            && (end.In(id, Failed) ==> end.records[id].error == Some(VerificationFailed))
            && (end.In(id, Committing) <==>
                !(a.rehash.Exact? && a.protect) && !(a.rehash.Misread? && a.back) && !(a.handlerBack && a.resetMode))
  {
  }

  lemma RestoreEnds(s: State, id: Id, a: RestoreAnswers)
    requires Inv(s) && s.In(id, Quarantined) && id in s.objects
    ensures RestoreEnd(s, Step(s, Restore(id, a, None)), id, a)
  {
    hide ReleaseTrail;
    RecordOf(s, id);
    RestorePoints(s, id, a);
    RestoreGivesBack(s, id, a, None);
    if RestoreObstacle(s, id, a).None? {
      ReleaseEnds(MovedBack(Marked(s, id, Restoring, None), id, s.records[id].place), id, a);
    }
  }

  lemma ReleaseEnds(t: State, id: Id, a: RestoreAnswers)
    requires t.In(id, Restoring) && id !in t.objects && t.records[id].place in t.originals
    requires t.digest(t.originals[t.records[id].place].bytes) == t.records[id].sha256
    ensures var trail := ReleaseTrail(t, id, a);
            var end := trail[|trail| - 1];
            && (end.In(id, Restored) <==> a.setMode && a.rehash.Exact?)
            && (end.In(id, Quarantined) <==> !end.In(id, Restored))
            && (id in end.objects <==> a.setMode && a.rehash.Misread? && a.moveAgain)
            && end.records[id].error ==
               if end.In(id, Restored) then None
               else if id in end.objects then Some(RestoreVerificationFailed) else Some(RestoreMoveFailed)
  {
  }

  /** `trail` records the state after each operation that changed something: a call that is cut
      short leaves one of these states behind. */
  class QuarantineManager {
    const digest: seq<Byte> -> string
    var originals: map<Place, FileData>
    var objects: map<Id, FileData>
    var records: map<Id, Record>
    var findings: map<int, Finding>
    ghost var trail: seq<State>

    ghost function Abs(): State
      reads this
    {
      State(digest, originals, objects, records, findings)
    }

    ghost predicate Valid()
      reads this
    {
      Inv(Abs())
    }

    /** Open a store that earlier processes left behind. */
    constructor (digest: seq<Byte> -> string, originals: map<Place, FileData>, objects: map<Id, FileData>,
                 records: map<Id, Record>, findings: map<int, Finding>)
      requires Inv(State(digest, originals, objects, records, findings))
      ensures Valid() && trail == []
      ensures Abs() == Step(State(digest, originals, objects, records, findings), Reopen)
      ensures forall id <- records ::
                && id in this.records
                && this.records[id] ==
                   if records[id].state.AwaitingConfirmation?
                   then records[id].(state := Cancelled, error := Some(ConfirmationInterrupted)) else records[id]
    {
      this.digest, this.originals, this.objects, this.findings := digest, originals, objects, findings;
      this.records := Interrupted(records);
      trail := [];
      new;
      StepKeepsInv(State(digest, originals, objects, records, findings), Reopen);
    }

    // ----- operations of the system -----

    method MoveOut(id: Id, place: Place)
      requires place in originals
      modifies this`originals, this`objects, this`trail
      ensures Abs() == MovedOut(old(Abs()), id, place) && trail == old(trail) + [Abs()]
    {
      objects := objects[id := originals[place]];
      originals := originals - {place};
      trail := trail + [Abs()];
    }

    method MoveBack(id: Id, place: Place)
      requires id in objects
      modifies this`originals, this`objects, this`trail
      ensures Abs() == MovedBack(old(Abs()), id, place) && trail == old(trail) + [Abs()]
    {
      originals := originals[place := objects[id]];
      objects := objects - {id};
      trail := trail + [Abs()];
    }

    method SetObjectMode(id: Id, mode: nat)
      requires id in objects
      modifies this`objects, this`trail
      ensures Abs() == ObjectMode(old(Abs()), id, mode) && trail == old(trail) + [Abs()]
    {
      objects := objects[id := objects[id].(mode := mode)];
      trail := trail + [Abs()];
    }

    method SetOriginalMode(place: Place, mode: nat)
      requires place in originals
      modifies this`originals, this`trail
      ensures Abs() == OriginalMode(old(Abs()), place, mode) && trail == old(trail) + [Abs()]
    {
      originals := originals[place := originals[place].(mode := mode)];
      trail := trail + [Abs()];
    }

    method SetState(id: Id, state: RecordState, error: Option<RecordError>)
      requires id in records
      modifies this`records, this`trail
      ensures Abs() == Marked(old(Abs()), id, state, error) && trail == old(trail) + [Abs()]
    {
      records := records[id := records[id].(state := state, error := error)];
      trail := trail + [Abs()];
    }

    method SetFinding(finding: int, active: bool)
      requires finding in findings
      modifies this`findings, this`trail
      ensures Abs() == FindingSet(old(Abs()), finding, active) && trail == old(trail) + [Abs()]
    {
      findings := findings[finding := findings[finding].(active := active)];
      trail := trail + [Abs()];
    }

    // ----- the calls -----

    /** Offer the file of an active finding for quarantine. */
    method Prepare(finding: int, id: Id, a: PrepareAnswers) returns (r: CallResult)
      requires Valid()
      modifies this`records
      ensures Valid() && Abs() == Step(old(Abs()), Event.Prepare(finding, id, a)) && !r.Stopped?
      ensures r.Done? <==>
                && id !in old(records) && finding in findings && findings[finding].active
                && findings[finding].place in originals && a.reachable && a.malware && a.scan.Exact?
                && digest(originals[findings[finding].place].bytes) == findings[finding].sha256
      ensures !r.Done? ==> records == old(records)
      ensures r.Done? ==>
                id in records && records[id].state.AwaitingConfirmation? && records[id].error.None?
                && records[id].finding == finding
      ensures r.Done? ==>
                var place := records[id].place;
                && records == old(records)[id := records[id]] && id !in objects
                && place in originals && records[id].mode == originals[place].mode
                && digest(originals[place].bytes) == records[id].sha256
                && finding in findings && findings[finding] == Finding(place, records[id].sha256, true)
    {
      ghost var s := Abs();
      StepKeepsInv(s, Event.Prepare(finding, id, a));
      RecordOf(s, id);
      if finding !in findings || !findings[finding].active {
        return Refused;
      }
      var f := findings[finding];
      if f.place !in originals || !a.reachable || !a.malware {
        return Refused;
      }
      var scanned := Compared(digest, originals[f.place], f.sha256, a.scan);
      if !scanned.Matches? || id in records {
        return Refused;
      }
      records := records[id := Record(finding, f.place, f.sha256, originals[f.place].mode,
                                      AwaitingConfirmation, None)];
      return Done;
    }

    method Cancel(id: Id) returns (r: CallResult)
      requires Valid()
      modifies this`records, this`trail
      ensures Valid() && Abs() == Step(old(Abs()), Event.Cancel(id)) && !r.Stopped?
      ensures r.Done? <==> old(Abs()).In(id, AwaitingConfirmation)
      ensures r.Done? <==> Abs() != old(Abs())
      ensures records == if r.Done? then old(records)[id := old(records)[id].(state := Cancelled, error := None)]
                         else old(records)
    {
      StepKeepsInv(Abs(), Event.Cancel(id));
      if id !in records || !records[id].state.AwaitingConfirmation? {
        return Refused;
      }
      SetState(id, Cancelled, None);
      return Done;
    }

    /** Move the file into its object. */
    method Commit(id: Id, a: CommitAnswers) returns (r: CallResult)
      requires Valid()
      modifies this
      ensures Valid() && Abs() == Step(old(Abs()), Event.Commit(id, a, None))
      ensures r.Refused? <==> !old(Abs()).In(id, AwaitingConfirmation)
      ensures trail == old(trail) + if r.Refused? then [] else CommitTrail(old(Abs()), id, a)
      ensures r.Stopped? <==> !r.Refused? && Abs().In(id, Committing)
      ensures !r.Refused? ==> CommitEnd(old(Abs()), Abs(), id, a)
    {
      hide Inv, VerifyTrail, CommitEnd;
      ghost var s := Abs();
      StepKeepsInv(s, Event.Commit(id, a, None));
      if id !in records || !records[id].state.AwaitingConfirmation? {
        return Refused;
      }
      CommitEnds(s, id, a);
      RecordOf(s, id);
      var record := records[id];
      SetState(id, Committing, None);
      var error := WhyNotMovedOut(id, a);
      if error.Some? {
        SetState(id, Failed, error);
        r := Done;
      } else {
        MoveOut(id, record.place);
        r := VerifyAndSecure(id, a);
      }
    }

    /** The checks and the answer to the move of a commit. */
    method WhyNotMovedOut(id: Id, a: CommitAnswers) returns (error: Option<RecordError>)
      requires id in records
      ensures error == CommitObstacle(Abs(), id, a)
      ensures error.None? <==> Takes(Abs(), id, a) && id !in objects
      ensures var r := records[id];
              var there := r.place in originals && a.reachable;
              var same := there && a.scan.Exact? && digest(originals[r.place].bytes) == r.sha256;
              && (error == Some(SourceUnavailable) <==> !there)
              && (error == Some(AssetChanged) <==> there && !same)
              && (error == Some(DestinationExists) <==> same && id in objects)
              && (error == Some(CrossDevice) <==> same && id !in objects && a.move.AcrossDevices?)
              && (error == Some(MoveFailed) <==> same && id !in objects && a.move.NotMoved?)
    {
      var record := records[id];
      if record.place !in originals || !a.reachable {
        return Some(SourceUnavailable);
      }
      var scanned := Compared(digest, originals[record.place], record.sha256, a.scan);
      if !scanned.Matches? {
        return Some(AssetChanged);
      }
      if id in objects {
        return Some(DestinationExists);
      }
      match a.move
      case Moved => return None;
      case AcrossDevices => return Some(CrossDevice);
      case NotMoved => return Some(MoveFailed);
    }

    /** Check the object, protect it, and record it as quarantined. */
    method VerifyAndSecure(id: Id, a: CommitAnswers) returns (r: CallResult)
      requires Abs().In(id, Committing) && records[id].finding in findings
      requires id in objects && records[id].place !in originals
      modifies this
      ensures trail == old(trail) + VerifyTrail(old(Abs()), id, a)
      ensures Abs() == ([old(Abs())] + VerifyTrail(old(Abs()), id, a))[|trail| - |old(trail)|]
      ensures r == if Abs().In(id, Committing) then Stopped else Done
    {
      hide HandlerTrail;
      var record := records[id];
      var hashed := Compared(digest, objects[id], record.sha256, a.rehash);
      if hashed.Matches? && a.protect {
        SetObjectMode(id, PRIVATE_MODE);
        SetState(id, Quarantined, None);
        SetFinding(record.finding, false);
        r := Done;
      } else if hashed.Differs? && a.back {
        MoveBack(id, record.place);
        SetState(id, Failed, Some(VerificationFailed));
        r := Done;
      } else {
        r := GiveUp(id, a);
      }
    }

    /** Undo the move after an operation was refused. */
    method GiveUp(id: Id, a: CommitAnswers) returns (r: CallResult)
      requires Abs().In(id, Committing) && id in objects && records[id].place !in originals
      modifies this
      ensures trail == old(trail) + HandlerTrail(old(Abs()), id, a)
      ensures Abs() == ([old(Abs())] + HandlerTrail(old(Abs()), id, a))[|trail| - |old(trail)|]
      ensures r == if Abs().In(id, Committing) then Stopped else Done
    {
      var record := records[id];
      if !a.handlerBack {
        return Stopped;
      }
      MoveBack(id, record.place);
      if !a.resetMode {
        return Stopped;
      }
      SetOriginalMode(record.place, record.mode);
      SetState(id, Failed, Some(VerificationFailed));
      return Done;
    }

    /** Move the object back to its place. */
    method Restore(id: Id, a: RestoreAnswers) returns (r: CallResult)
      requires Valid()
      modifies this
      ensures Valid() && Abs() == Step(old(Abs()), Event.Restore(id, a, None)) && !r.Stopped?
      ensures r.Refused? <==> !old(Abs()).In(id, Quarantined)
      ensures trail == old(trail) + if r.Refused? then [] else RestoreTrail(old(Abs()), id, a)
      ensures r.Done? && id in old(objects) ==> RestoreEnd(old(Abs()), Abs(), id, a)
    {
      hide Inv, ReleaseTrail, RestoreEnd;
      ghost var s := Abs();
      StepKeepsInv(s, Event.Restore(id, a, None));
      if id !in records || !records[id].state.Quarantined? {
        return Refused;
      }
      if id in objects {
        RestoreEnds(s, id, a);
      }
      RecordOf(s, id);
      var record := records[id];
      SetState(id, Restoring, None);
      var error := WhyNotMovedBack(id, a);
      if error.Some? {
        SetState(id, Quarantined, error);
      } else {
        MoveBack(id, record.place);
        VerifyAndRelease(id, a);
      }
      r := Done;
    }

    /** The checks and the answer to the move of a restore. */
    method WhyNotMovedBack(id: Id, a: RestoreAnswers) returns (error: Option<RecordError>)
      requires id in records
      ensures error == RestoreObstacle(Abs(), id, a)
      ensures error.None? <==>
              GivesBack(Abs(), id, a) && id in objects && digest(objects[id].bytes) == records[id].sha256
      ensures var free := a.reachable && records[id].place !in originals;
              && (error == Some(RestoreDestinationUnavailable) <==> !a.reachable)
              && (error == Some(RestoreDestinationExists) <==> a.reachable && records[id].place in originals)
              && (error == Some(ObjectChanged) <==>
                  && free && id in objects
                  && (a.check.Misread? || (a.check.Exact? && digest(objects[id].bytes) != records[id].sha256)))
              && (error == Some(RestoreMoveFailed) <==>
                  && free
                  && (|| id !in objects || a.check.Unreadable?
                      || (a.check.Exact? && digest(objects[id].bytes) == records[id].sha256 && !a.move)))
    {
      var record := records[id];
      if !a.reachable {
        return Some(RestoreDestinationUnavailable);
      }
      if record.place in originals {
        return Some(RestoreDestinationExists);
      }
      if id !in objects {
        return Some(RestoreMoveFailed);
      }
      match Compared(digest, objects[id], record.sha256, a.check)
      case NotRead => return Some(RestoreMoveFailed);
      case Differs => return Some(ObjectChanged);
      case Matches => return if a.move then None else Some(RestoreMoveFailed);
    }

    /** Give the file its mode back, check it, and record it as restored. If it cannot be verified
        it returns to its object only when its hash differs; the record says quarantined anyway. */
    method VerifyAndRelease(id: Id, a: RestoreAnswers)
      requires Abs().In(id, Restoring) && records[id].finding in findings
      requires id !in objects && records[id].place in originals
      modifies this
      ensures trail == old(trail) + ReleaseTrail(old(Abs()), id, a)
      ensures Abs() == trail[|trail| - 1]
    {
      var record := records[id];
      if !a.setMode {
        SetState(id, Quarantined, Some(RestoreMoveFailed));
        return;
      }
      SetOriginalMode(record.place, record.mode);
      var hashed := Compared(digest, originals[record.place], record.sha256, a.rehash);
      if hashed.Matches? {
        SetState(id, Restored, None);
        SetFinding(record.finding, true);
      } else if hashed.Differs? && a.moveAgain {
        MoveOut(id, record.place);
        SetState(id, Quarantined, Some(RestoreVerificationFailed));
      } else {
        SetState(id, Quarantined, Some(RestoreMoveFailed));
      }
    }
  }
}
