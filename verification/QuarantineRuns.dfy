/** Theorems about every sequence of quarantine calls, whatever the system answers to their
    operations and wherever they are cut short. */
module QuarantineRuns {
  import opened Wrappers
  import opened Quarantine

  // ----- every state on the way of a call -----

  /** One call has changed one record's state and error, and the files that this record concerns. */
  ghost predicate OnlyOwn(s: State, t: State, id: Id) {
    && id in s.records && id in t.records
    && t.records == s.records[id := t.records[id]]
    && t.records[id] == s.records[id].(state := t.records[id].state, error := t.records[id].error)
    && t.digest == s.digest && t.findings.Keys == s.findings.Keys
    && t.originals - {s.records[id].place} == s.originals - {s.records[id].place}
    && t.objects - {id} == s.objects - {id}
  }

  ghost predicate FileStays(s: State, t: State, id: Id, place: Place) {
    && (place in s.originals <==> place in t.originals) && (id in s.objects <==> id in t.objects)
    && (place in s.originals ==> SameFile(s.originals[place], t.originals[place]))
    && (id in s.objects ==> SameFile(s.objects[id], t.objects[id]))
  }

  ghost predicate HasMovedOut(s: State, t: State, id: Id, place: Place) {
    && place in s.originals && id !in s.objects && place !in t.originals && id in t.objects
    && SameFile(s.originals[place], t.objects[id])
  }

  ghost predicate HasMovedBack(s: State, t: State, id: Id, place: Place) {
    HasMovedOut(t, s, id, place)
  }

  /** Where a commit can be after one of its operations. */
  ghost predicate CommitPoint(s: State, t: State, id: Id) {
    && OnlyOwn(s, t, id)
    && var r := s.records[id];
       match t.records[id].state
       case Committing => FileStays(s, t, id, r.place) || HasMovedOut(s, t, id, r.place)
       case Failed => FileStays(s, t, id, r.place)
       case Quarantined => HasMovedOut(s, t, id, r.place) && s.digest(s.originals[r.place].bytes) == r.sha256
       case _ => false
  }

  /** Where a restore can be after one of its operations. */
  ghost predicate RestorePoint(s: State, t: State, id: Id) {
    && OnlyOwn(s, t, id)
    && var r := s.records[id];
       match t.records[id].state
       case Restoring => FileStays(s, t, id, r.place) || HasMovedBack(s, t, id, r.place)
       case Quarantined => FileStays(s, t, id, r.place) || HasMovedBack(s, t, id, r.place)
       case Restored => HasMovedBack(s, t, id, r.place)
       case _ => false
  }

  lemma OwnRecord(s: State, t: State, id: Id)
    requires id in s.records
    ensures OnlyOwn(s, s, id)
    ensures OnlyOwn(s, t, id) ==>
              t.digest == s.digest && id in t.records
              && t.records[id] == s.records[id].(state := t.records[id].state, error := t.records[id].error)
  {
  }

  lemma OwnOperation(s: State, t: State, id: Id)
    requires OnlyOwn(s, t, id)
    ensures forall state, error :: OnlyOwn(s, Marked(t, id, state, error), id)
    ensures forall finding, active :: OnlyOwn(s, FindingSet(t, finding, active), id)
    ensures forall mode :: id in t.objects ==> OnlyOwn(s, ObjectMode(t, id, mode), id)
    ensures forall mode :: s.records[id].place in t.originals ==>
                             OnlyOwn(s, OriginalMode(t, s.records[id].place, mode), id)
  {
  }

  lemma OwnMove(s: State, t: State, id: Id)
    requires OnlyOwn(s, t, id)
    ensures s.records[id].place in t.originals ==> OnlyOwn(s, MovedOut(t, id, s.records[id].place), id)
    ensures id in t.objects ==> OnlyOwn(s, MovedBack(t, id, s.records[id].place), id)
  {
    var place := s.records[id].place;
    if place in t.originals {
      var u := MovedOut(t, id, place);
      assert u.originals - {place} == t.originals - {place};
      assert u.objects - {id} == t.objects - {id};
    }
    if id in t.objects {
      var u := MovedBack(t, id, place);
      assert u.originals - {place} == t.originals - {place};
      assert u.objects - {id} == t.objects - {id};
    }
  }

  lemma CommitPoints(s: State, id: Id, a: CommitAnswers)
    requires s.In(id, AwaitingConfirmation)
    ensures forall t <- CommitTrail(s, id, a) :: CommitPoint(s, t, id)
  {
    hide OnlyOwn;
    var r := s.records[id];
    var claimed := Marked(s, id, Committing, None);
    OwnRecord(s, s, id);
    OwnOperation(s, s, id);
    OwnOperation(s, claimed, id);
    if CommitObstacle(s, id, a).None? {
      OwnMove(s, claimed, id);
      VerifyPoints(s, MovedOut(claimed, id, r.place), id, a);
    }
  }

  lemma VerifyPoints(s: State, t: State, id: Id, a: CommitAnswers)
    requires id in s.records && t.In(id, Committing)
    requires OnlyOwn(s, t, id) && HasMovedOut(s, t, id, s.records[id].place)
    requires s.digest(s.originals[s.records[id].place].bytes) == s.records[id].sha256
    ensures forall u <- VerifyTrail(t, id, a) :: CommitPoint(s, u, id)
  {
    hide OnlyOwn;
    var r := t.records[id];
    OwnRecord(s, t, id);
    OwnOperation(s, t, id);
    OwnMove(s, t, id);
    var hashed := Compared(t.digest, t.objects[id], r.sha256, a.rehash);
    if hashed.Matches? && a.protect {
      var protected := ObjectMode(t, id, PRIVATE_MODE);
      var quarantined := Marked(protected, id, Quarantined, None);
      OwnOperation(s, protected, id);
      OwnOperation(s, quarantined, id);
    } else {
      var returned := MovedBack(t, id, r.place);
      OwnOperation(s, returned, id);
      OwnOperation(s, OriginalMode(returned, r.place, r.mode), id);
    }
  }

  lemma RestorePoints(s: State, id: Id, a: RestoreAnswers)
    requires s.In(id, Quarantined)
    ensures forall t <- RestoreTrail(s, id, a) :: RestorePoint(s, t, id)
  {
    hide OnlyOwn;
    var claimed := Marked(s, id, Restoring, None);
    OwnRecord(s, s, id);
    OwnOperation(s, s, id);
    OwnOperation(s, claimed, id);
    if RestoreObstacle(s, id, a).None? {
      OwnMove(s, claimed, id);
      ReleasePoints(s, MovedBack(claimed, id, s.records[id].place), id, a);
    }
  }

  lemma ReleasePoints(s: State, t: State, id: Id, a: RestoreAnswers)
    requires id in s.records && t.In(id, Restoring)
    requires OnlyOwn(s, t, id) && HasMovedBack(s, t, id, s.records[id].place)
    ensures t.records[id].place == s.records[id].place
    ensures forall u <- ReleaseTrail(t, id, a) :: RestorePoint(s, u, id)
  {
    hide OnlyOwn, RecheckTrail;
    OwnRecord(s, t, id);
    OwnOperation(s, t, id);
    if a.setMode {
      RecheckPoints(s, OriginalMode(t, t.records[id].place, t.records[id].mode), id, a);
    }
  }

  lemma RecheckPoints(s: State, t: State, id: Id, a: RestoreAnswers)
    requires id in s.records && t.In(id, Restoring)
    requires OnlyOwn(s, t, id) && HasMovedBack(s, t, id, s.records[id].place)
    ensures t.records[id].place == s.records[id].place
    ensures forall u <- RecheckTrail(t, id, a) :: RestorePoint(s, u, id)
  {
    hide OnlyOwn;
    OwnRecord(s, t, id);
    OwnOperation(s, t, id);
    if Compared(t.digest, t.originals[t.records[id].place], t.records[id].sha256, a.rehash).Matches? {
      OwnOperation(s, Marked(t, id, Restored, None), id);
    } else {
      OwnMove(s, t, id);
      OwnOperation(s, MovedOut(t, id, t.records[id].place), id);
    }
  }

  // ----- the invariant -----

  lemma RecordOf(s: State, id: Id)
    requires Inv(s)
    ensures id in s.records ==> RecordInv(s, id)
    ensures id in s.objects ==> id in s.records
  {
  }

  lemma OwnKeepsInv(s: State, t: State, id: Id)
    requires Inv(s) && OnlyOwn(s, t, id) && RecordInv(t, id)
    ensures Inv(t)
  {
    forall other <- t.records ensures RecordInv(t, other) {
      if other != id {
        OtherObject(s, t, id, other);
        assert RecordInv(s, other);
      }
    }
    forall o <- t.objects ensures o in t.records {
      if o != id {
        OtherObject(s, t, id, o);
      }
    }
  }

  lemma OtherObject(s: State, t: State, id: Id, other: Id)
    requires OnlyOwn(s, t, id) && other != id
    ensures other in s.objects <==> other in t.objects
    ensures other in s.objects ==> s.objects[other] == t.objects[other]
  {
    assert other in s.objects <==> other in s.objects - {id};
    assert other in t.objects <==> other in t.objects - {id};
    assert other in s.objects ==> (s.objects - {id})[other] == s.objects[other];
    assert other in t.objects ==> (t.objects - {id})[other] == t.objects[other];
  }

  lemma OtherPlace(s: State, t: State, id: Id, other: Place)
    requires OnlyOwn(s, t, id) && other != s.records[id].place
    ensures other in s.originals <==> other in t.originals
    ensures other in s.originals ==> s.originals[other] == t.originals[other]
  {
    var place := s.records[id].place;
    assert other in s.originals <==> other in s.originals - {place};
    assert other in t.originals <==> other in t.originals - {place};
    assert other in s.originals ==> (s.originals - {place})[other] == s.originals[other];
    assert other in t.originals ==> (t.originals - {place})[other] == t.originals[other];
  }

  /** The state in which a call ends is one on its way, or the one before it. */
  lemma AfterIsOnTheWay(s: State, trail: seq<State>, cut: Option<nat>)
    requires trail != []
    ensures After(s, trail, cut) in trail || (After(s, trail, cut) == s && cut == Some(0))
  {
  }

  lemma CallInv(s: State, t: State, id: Id)
    requires Inv(s) && id in s.records
    requires (s.In(id, AwaitingConfirmation) && CommitPoint(s, t, id))
             || (s.In(id, Quarantined) && RestorePoint(s, t, id))
    ensures Inv(t)
  {
    hide Inv;
    RecordOf(s, id);
    OwnKeepsInv(s, t, id);
  }

  /** The event is a commit or a restore that is not refused. */
  predicate Runs(s: State, e: Event) {
    (e.Commit? && s.In(e.id, AwaitingConfirmation)) || (e.Restore? && s.In(e.id, Quarantined))
  }

  /** What a call cut at any point has done. */
  lemma CallPoint(s: State, e: Event)
    requires Runs(s, e)
    ensures var t := Step(s, e);
            t == s || (if e.Commit? then CommitPoint(s, t, e.id) else RestorePoint(s, t, e.id))
  {
    hide CommitTrail, RestoreTrail, CommitPoint, RestorePoint, After;
    if e.Commit? {
      CommitPoints(s, e.id, e.committing);
      AfterIsOnTheWay(s, CommitTrail(s, e.id, e.committing), e.cut);
    } else {
      RestorePoints(s, e.id, e.restoring);
      AfterIsOnTheWay(s, RestoreTrail(s, e.id, e.restoring), e.cut);
    }
  }

  lemma StepKeepsInv(s: State, e: Event)
    requires Inv(s)
    ensures Inv(Step(s, e))
  {
    hide CommitTrail, RestoreTrail, CommitPoint, RestorePoint, After, PreparedRecord;
    var t := Step(s, e);
    if Runs(s, e) {
      CallPoint(s, e);
      if t != s {
        CallInv(s, t, e.id);
      }
    } else {
      SimpleStepKeepsInv(s, e);
    }
  }

  lemma SimpleStepKeepsInv(s: State, e: Event)
    requires Inv(s) && !Runs(s, e)
    ensures Inv(Step(s, e))
  {
    var t := Step(s, e);
    forall id <- t.records ensures RecordInv(t, id) {
      if id in s.records {
        assert RecordInv(s, id);
      }
    }
  }

  lemma {:induction false} RunKeepsInv(s: State, events: seq<Event>, i: nat)
    requires Inv(s) && i <= |events|
    ensures Inv(At(s, events, i))
  {
    hide Inv, Step;
    if i > 0 {
      RunKeepsInv(s, events, i - 1);
      StepKeepsInv(At(s, events, i - 1), events[i - 1]);
    }
  }

  // ----- a quarantined record and its object -----

  lemma VerifyBreaksIff(t: State, id: Id, a: CommitAnswers)
    requires t.In(id, Committing) && id in t.objects
    requires t.digest(t.objects[id].bytes) == t.records[id].sha256
    ensures var trail := VerifyTrail(t, id, a);
            if (a.rehash.Exact? && a.protect) || (a.rehash.Misread? && a.back) then
              |trail| >= 2 && trail[0].Broken(id) && forall k: nat | 1 <= k < |trail| :: !trail[k].Broken(id)
            else if a.handlerBack && a.resetMode then
              |trail| == 3 && trail[0].Broken(id) && trail[1].Broken(id) && !trail[2].Broken(id)
            else forall u <- trail :: u.Broken(id)
  {
  }

  lemma CommitBreaksIff(s: State, id: Id, a: CommitAnswers, cut: Option<nat>)
    requires s.In(id, AwaitingConfirmation)
    ensures After(s, CommitTrail(s, id, a), cut).Broken(id) <==> Breaks(s, Commit(id, a, cut))
  {
    hide VerifyTrail;
    if CommitObstacle(s, id, a).None? {
      VerifyBreaksIff(MovedOut(Marked(s, id, Committing, None), id, s.records[id].place), id, a);
    }
  }

  lemma ReleaseBreaksIff(t: State, id: Id, a: RestoreAnswers)
    requires t.In(id, Restoring) && id !in t.objects && t.records[id].place in t.originals
    requires t.digest(t.originals[t.records[id].place].bytes) == t.records[id].sha256
    ensures var trail := ReleaseTrail(t, id, a);
            if !a.setMode || a.rehash.Unreadable? || (a.rehash.Misread? && !a.moveAgain) then
              |trail| == (if a.setMode then 2 else 1) && forall u <- trail :: u.Broken(id)
            else
              var settled: nat := if a.rehash.Misread? then 2 else 1;
              && |trail| == 3 && (forall k: nat | k < settled :: trail[k].Broken(id))
              && forall k: nat | settled <= k < 3 :: !trail[k].Broken(id)
  {
  }

  lemma RestoreBreaksIff(s: State, id: Id, a: RestoreAnswers, cut: Option<nat>)
    requires s.In(id, Quarantined) && id in s.objects
    requires s.digest(s.objects[id].bytes) == s.records[id].sha256
    ensures After(s, RestoreTrail(s, id, a), cut).Broken(id) <==> Breaks(s, Restore(id, a, cut))
  {
    hide ReleaseTrail;
    if RestoreObstacle(s, id, a).None? {
      ReleaseBreaksIff(MovedBack(Marked(s, id, Restoring, None), id, s.records[id].place), id, a);
    }
  }

  /** Between calls the original places and the findings are what the outside makes of them; objects and
      records stay. Reopening cancels what awaited confirmation, and touches no file. */
  lemma OutsideMakes(s: State, e: Event)
    requires e.Outside? || e.Reopen?
    ensures var t := Step(s, e);
            && t.digest == s.digest && t.objects == s.objects && t.records.Keys == s.records.Keys
            && (e.Outside? ==> t.originals == e.originals && t.records == s.records)
            && (e.Outside? ==> t.findings.Keys == s.findings.Keys + e.findings.Keys)
            && (e.Outside? ==> forall f <- t.findings ::
                  t.findings[f] == if f in e.findings then e.findings[f] else s.findings[f])
            && (e.Reopen? ==> t.originals == s.originals && t.findings == s.findings)
            && (e.Reopen? ==> forall id <- s.records ::
                  t.records[id] ==
                  if s.records[id].state == AwaitingConfirmation
                  then s.records[id].(state := Cancelled, error := Some(ConfirmationInterrupted)) else s.records[id])
  {
  }

  // ----- records over time -----

  /** Only these two states are ever left again. */
  predicate MayChange(state: RecordState) {
    state.AwaitingConfirmation? || state.Quarantined?
  }

  predicate Concerns(e: Event, id: Id) {
    e.Reopen? || ((e.Prepare? || e.Cancel? || e.Commit? || e.Restore?) && e.id == id)
  }

  lemma OtherRecord(s: State, e: Event, id: Id)
    requires id in s.records && !Concerns(e, id)
    ensures var t := Step(s, e);
            && id in t.records && t.records[id] == s.records[id]
            && (id in s.objects <==> id in t.objects) && (id in s.objects ==> t.objects[id] == s.objects[id])
  {
    hide CommitTrail, RestoreTrail, After;
    if Runs(s, e) {
      CallPoint(s, e);
      if Step(s, e) != s {
        OtherObject(s, Step(s, e), e.id, id);
      }
    }
  }

  lemma OwnStep(s: State, e: Event, id: Id)
    requires id in s.records && Concerns(e, id)
    ensures var t := Step(s, e);
            && id in t.records
            && t.records[id] == s.records[id].(state := t.records[id].state, error := t.records[id].error)
            && (!MayChange(s.records[id].state) ==> t.records[id] == s.records[id])
            && (t.In(id, AwaitingConfirmation) ==> s.In(id, AwaitingConfirmation))
            && (!s.In(id, AwaitingConfirmation) && id in t.objects ==>
                  id in s.objects && SameFile(s.objects[id], t.objects[id]))
  {
    hide CommitTrail, RestoreTrail, After;
    if Runs(s, e) {
      CallPoint(s, e);
    }
  }

  lemma RecordAfterStep(s: State, e: Event, id: Id)
    requires id in s.records
    ensures var t := Step(s, e);
            && id in t.records
            && t.records[id] == s.records[id].(state := t.records[id].state, error := t.records[id].error)
            && (!MayChange(s.records[id].state) ==> t.records[id] == s.records[id])
            && (t.In(id, AwaitingConfirmation) ==> s.In(id, AwaitingConfirmation))
            && (!s.In(id, AwaitingConfirmation) && id in t.objects ==>
                  id in s.objects && SameFile(s.objects[id], t.objects[id]))
  {
    hide Step;
    if Concerns(e, id) {
      OwnStep(s, e, id);
    } else {
      OtherRecord(s, e, id);
    }
  }

  /** Cancelled, failed and restored records never change again, and neither does a record whose
      call was cut short: no later call picks it up. */
  lemma {:induction false} EndStatesAreForever(s: State, events: seq<Event>, i: nat, j: nat, id: Id)
    requires i <= j <= |events|
    requires id in At(s, events, i).records && !MayChange(At(s, events, i).records[id].state)
    ensures id in At(s, events, j).records && At(s, events, j).records[id] == At(s, events, i).records[id]
    decreases j
  {
    hide Step;
    if i < j {
      EndStatesAreForever(s, events, i, j - 1, id);
      RecordAfterStep(At(s, events, j - 1), events[j - 1], id);
    }
  }

  /** A record is claimed for its commit at most once: it never awaits confirmation again. What it
      says about its file never changes, and neither does the file in its object. */
  lemma {:induction false} ClaimedOnce(s: State, events: seq<Event>, i: nat, j: nat, id: Id)
    requires i <= j <= |events| && id in At(s, events, i).records
    ensures var t, u := At(s, events, i), At(s, events, j);
            && id in u.records
            && u.records[id] == t.records[id].(state := u.records[id].state, error := u.records[id].error)
            && (!t.In(id, AwaitingConfirmation) ==>
                  && !u.In(id, AwaitingConfirmation)
                  && (id in u.objects ==> id in t.objects && SameFile(t.objects[id], u.objects[id])))
    decreases j
  {
    hide Step;
    if i < j {
      ClaimedOnce(s, events, i, j - 1, id);
      RecordAfterStep(At(s, events, j - 1), events[j - 1], id);
    }
  }

  // ----- a quarantined record and its object, over runs -----

  lemma OwnBreaksIff(s: State, e: Event, id: Id)
    requires Clean(s) && id in s.records && Concerns(e, id)
    ensures Step(s, e).Broken(id) <==> Breaks(s, e)
  {
    hide CommitTrail, RestoreTrail, After, CommitSticks, RestoreSlips, CommitSettles, RestoreSettles;
    RecordOf(s, id);
    if Runs(s, e) {
      if e.Commit? {
        CommitBreaksIff(s, id, e.committing, e.cut);
      } else {
        RestoreBreaksIff(s, id, e.restoring, e.cut);
      }
    }
  }

  /** One event leaves every record settled and in agreement with its object exactly unless it
      breaks its own record. */
  lemma StepIsCleanIff(s: State, e: Event)
    requires Clean(s)
    ensures Clean(Step(s, e)) <==> !Breaks(s, e)
  {
    var t := Step(s, e);
    StepKeepsInv(s, e);
    if Breaks(s, e) {
      OwnBreaksIff(s, e, e.id);
      OwnStep(s, e, e.id);
    } else {
      forall id <- t.records ensures !t.Broken(id) {
        hide Breaks, CommitTrail, RestoreTrail, After;
        if id in s.records && Concerns(e, id) {
          OwnBreaksIff(s, e, id);
        } else if id in s.records {
          OtherRecord(s, e, id);
        } else if Runs(s, e) {
          CallPoint(s, e);
        }
      }
    }
  }

  lemma BrokenStaysBroken(s: State, e: Event, id: Id)
    requires s.Broken(id)
    ensures Step(s, e).Broken(id)
  {
    if !Concerns(e, id) {
      hide *;
      OtherRecord(s, e, id);
      OthersBrokenAlike(s, Step(s, e), id);
    }
  }

  lemma OthersBrokenAlike(s: State, t: State, id: Id)
    requires id in s.records && id in t.records && t.records[id] == s.records[id]
    requires id in s.objects <==> id in t.objects
    ensures s.Broken(id) <==> t.Broken(id)
  {
  }

  /** A broken record stays broken for good: it is never restored, and no later call repairs it. */
  lemma {:induction false} BrokenIsForever(s: State, events: seq<Event>, i: nat, j: nat, id: Id)
    requires i <= j <= |events| && At(s, events, i).Broken(id)
    ensures At(s, events, j).Broken(id) && !At(s, events, j).In(id, Restored)
    decreases j
  {
    hide Step;
    if i < j {
      BrokenIsForever(s, events, i, j - 1, id);
      BrokenStaysBroken(At(s, events, j - 1), events[j - 1], id);
    }
  }

  /** After any run every record is settled and agrees with its object exactly if no event of the
      run broke its record. */
  lemma {:induction false} RunIsCleanIff(s: State, events: seq<Event>, i: nat)
    requires Clean(s) && i <= |events|
    ensures Clean(At(s, events, i)) <==> forall k: nat | k < i :: !Breaks(At(s, events, k), events[k])
  {
    hide Step, Breaks, Inv;
    if i > 0 {
      RunIsCleanIff(s, events, i - 1);
      var before := At(s, events, i - 1);
      if Clean(before) {
        StepIsCleanIff(before, events[i - 1]);
      } else {
        RunKeepsInv(s, events, i - 1);
        NotCleanStays(before, events[i - 1]);
      }
    }
  }

  lemma NotCleanStays(s: State, e: Event)
    requires Inv(s) && !Clean(s)
    ensures !Clean(Step(s, e))
  {
    hide Inv, Step;
    var id :| id in s.records && s.Broken(id);
    BrokenStaysBroken(s, e, id);
  }

  /** In a run in which nothing was refused, misread or cut short, a record says quarantined exactly
      when its object exists, and the object has the recorded hash. */
  lemma QuarantinedIffObject(s: State, events: seq<Event>, id: Id)
    requires Clean(s) && forall e <- events :: e.Smooth()
    ensures var t := At(s, events, |events|);
            && !t.InTransit(id)
            && (t.In(id, Quarantined) <==> id in t.objects)
            && (id in t.objects ==> t.digest(t.objects[id].bytes) == t.records[id].sha256)
  {
    var t := At(s, events, |events|);
    forall k: nat | k < |events| ensures !Breaks(At(s, events, k), events[k]) {
      assert events[k].Smooth();
    }
    RunIsCleanIff(s, events, |events|);
    RecordOf(t, id);
    assert id in t.records ==> !t.Broken(id);
  }

  /** A restore that runs to its end leaves a quarantined record without its object exactly if the
      file was moved back and the change of mode was refused, or the file could not be read again,
      or it differed and moving it once more was refused. */
  lemma RestoreSlipsIff(s: State, id: Id, a: RestoreAnswers)
    requires Inv(s) && s.In(id, Quarantined) && id in s.objects
    ensures var t := Step(s, Restore(id, a, None));
            (t.In(id, Quarantined) && id !in t.objects) <==>
            (&& s.records[id].place !in s.originals && a.reachable && a.check.Exact? && a.move
             && (!a.setMode || a.rehash.Unreadable? || (a.rehash.Misread? && !a.moveAgain)))
  {
    RecordOf(s, id);
  }

  /** One refused change of mode is enough. */
  lemma RefusedModeChangeSlips()
    ensures exists s: State, id, a: RestoreAnswers ::
              && Clean(s) && !a.setMode && a.(setMode := true).Granted()
              && var t := Step(s, Restore(id, a, None));
                 t.In(id, Quarantined) && id !in t.objects && t.records[id].place in t.originals
  {
    var id, place := "a", Place("home", "x");
    var file := FileData(1, [7], PRIVATE_MODE);
    var record := Record(1, place, "d", 420, Quarantined, None);
    var s := State(bytes => "d", map[], map[id := file], map[id := record], map[1 := Finding(place, "d", false)]);
    var a := RestoreAnswers(true, Exact, true, false, Exact, true);
    assert RecordInv(s, id);
    assert !s.Broken(id);
    assert Clean(s);
    RestoreSlipsIff(s, id, a);
    CallPoint(s, Restore(id, a, None));
  }

  // ----- every file stays in exactly one place -----

  datatype Spot = AtPlace(place: Place) | InObject(id: Id)

  predicate Holds(s: State, spot: Spot, file: FileData) {
    match spot
    case AtPlace(p) => p in s.originals && SameFile(s.originals[p], file)
    case InObject(o) => o in s.objects && SameFile(s.objects[o], file)
  }

  ghost predicate HeldOnce(s: State, file: FileData) {
    exists spot :: Holds(s, spot, file) && forall other :: Holds(s, other, file) ==> other == spot
  }

  /** Where a file is found after a call that moved one file out or back. */
  function Exchange(spot: Spot, id: Id, place: Place): Spot {
    if spot == AtPlace(place) then InObject(id)
    else if spot == InObject(id) then AtPlace(place)
    else spot
  }

  ghost predicate MovedEitherWay(s: State, t: State, id: Id, place: Place) {
    HasMovedOut(s, t, id, place) || HasMovedBack(s, t, id, place)
  }

  lemma CallMovesAtMostOne(s: State, e: Event)
    requires Runs(s, e) && Step(s, e) != s
    ensures var t, place := Step(s, e), s.records[e.id].place;
            OnlyOwn(s, t, e.id) && (FileStays(s, t, e.id, place) || MovedEitherWay(s, t, e.id, place))
  {
    hide Step, OnlyOwn, HasMovedOut, FileStays;
    CallPoint(s, e);
  }

  lemma SpotsAfterCall(s: State, t: State, id: Id, spot: Spot, file: FileData)
    requires OnlyOwn(s, t, id)
    requires FileStays(s, t, id, s.records[id].place) || MovedEitherWay(s, t, id, s.records[id].place)
    ensures var place := s.records[id].place;
            Holds(t, spot, file) <==>
            Holds(s, if FileStays(s, t, id, place) then spot else Exchange(spot, id, place), file)
  {
    match spot
    case AtPlace(p) =>
      if p != s.records[id].place {
        OtherPlace(s, t, id, p);
      }
    case InObject(o) =>
      if o != id {
        OtherObject(s, t, id, o);
      }
  }

  /** Whatever a call does and wherever it is cut short, a file that was in exactly one place is in
      exactly one place afterwards, with the same bytes: nothing is lost, doubled or overwritten. */
  lemma FilesStayInOnePlace(s: State, e: Event, file: FileData)
    requires !e.Outside? && HeldOnce(s, file)
    ensures HeldOnce(Step(s, e), file)
  {
    hide Holds, Step;
    var t := Step(s, e);
    var spot :| Holds(s, spot, file) && forall other :: Holds(s, other, file) ==> other == spot;
    if Runs(s, e) && t != s {
      hide OnlyOwn, HasMovedOut, FileStays;
      CallMovesAtMostOne(s, e);
      var id := e.id;
      var place := s.records[id].place;
      var now := if FileStays(s, t, id, place) then spot else Exchange(spot, id, place);
      SpotsAfterCall(s, t, id, now, file);
      assert Exchange(Exchange(spot, id, place), id, place) == spot;
      forall other | Holds(t, other, file) ensures other == now {
        SpotsAfterCall(s, t, id, other, file);
        assert Exchange(Exchange(other, id, place), id, place) == other;
      }
    } else {
      forall other ensures Holds(t, other, file) <==> Holds(s, other, file) {
        SpotsElsewhere(s, e, other, file);
      }
    }
  }

  lemma SpotsElsewhere(s: State, e: Event, spot: Spot, file: FileData)
    requires !e.Outside? && (Runs(s, e) ==> Step(s, e) == s)
    ensures Holds(Step(s, e), spot, file) <==> Holds(s, spot, file)
  {
    hide CommitTrail, RestoreTrail, After, PreparedRecord;
  }

  // ----- the round trip -----

  /** How many operations a commit or a restore makes before it touches the finding. */
  const FINDING_LAST: nat := 4

  ghost predicate SetsFinding(s: State, t: State, finding: int, active: bool, cut: Option<nat>) {
    t.findings == if cut == Some(FINDING_LAST) then s.findings else FindingSet(s, finding, active).findings
  }

  ghost predicate HasSecured(s: State, t: State, id: Id, cut: Option<nat>)
    requires id in s.records
  {
    var r := s.records[id];
    && r.place in s.originals && s.digest(s.originals[r.place].bytes) == r.sha256
    && t.originals == s.originals - {r.place}
    && t.objects == s.objects[id := s.originals[r.place].(mode := PRIVATE_MODE)]
    && SetsFinding(s, t, r.finding, false, cut)
  }

  ghost predicate HasGivenBack(s: State, t: State, id: Id, cut: Option<nat>)
    requires id in s.records
  {
    var r := s.records[id];
    && r.place !in s.originals && id in s.objects
    && t.originals == s.originals[r.place := s.objects[id].(mode := r.mode)]
    && t.objects == s.objects - {id}
    && SetsFinding(s, t, r.finding, true, cut)
  }

  lemma VerifySecures(t: State, id: Id, a: CommitAnswers)
    requires t.In(id, Committing) && id in t.objects
    ensures var trail := VerifyTrail(t, id, a);
            forall k: nat | k < |trail| && trail[k].In(id, Quarantined) ::
              && 1 <= k <= 2 && |trail| == 3
              && trail[k].originals == t.originals
              && trail[k].objects == t.objects[id := t.objects[id].(mode := PRIVATE_MODE)]
              && trail[k].findings ==
                 if k == 1 then t.findings else FindingSet(t, t.records[id].finding, false).findings
  {
  }

  lemma CommitSecures(s: State, id: Id, a: CommitAnswers, cut: Option<nat>)
    requires s.In(id, AwaitingConfirmation)
    ensures var t := After(s, CommitTrail(s, id, a), cut);
            t.In(id, Quarantined) ==> HasSecured(s, t, id, cut)
  {
    hide VerifyTrail;
    if CommitObstacle(s, id, a).None? {
      VerifySecures(MovedOut(Marked(s, id, Committing, None), id, s.records[id].place), id, a);
    }
  }

  lemma ReleaseGivesBack(t: State, id: Id, a: RestoreAnswers)
    requires t.In(id, Restoring) && t.records[id].place in t.originals
    ensures var trail, r := ReleaseTrail(t, id, a), t.records[id];
            forall k: nat | k < |trail| && trail[k].In(id, Restored) ::
              && 1 <= k <= 2 && |trail| == 3
              && trail[k].originals == t.originals[r.place := t.originals[r.place].(mode := r.mode)]
              && trail[k].objects == t.objects
              && trail[k].findings == if k == 1 then t.findings else FindingSet(t, r.finding, true).findings
  {
  }

  lemma RestoreGivesBack(s: State, id: Id, a: RestoreAnswers, cut: Option<nat>)
    requires s.In(id, Quarantined)
    ensures var t := After(s, RestoreTrail(s, id, a), cut);
            t.In(id, Restored) ==> HasGivenBack(s, t, id, cut)
  {
    hide ReleaseTrail;
    if RestoreObstacle(s, id, a).None? {
      ReleaseGivesBack(MovedBack(Marked(s, id, Restoring, None), id, s.records[id].place), id, a);
    }
  }

  lemma SecuredByCommit(s: State, e: Event, id: Id)
    requires s.In(id, AwaitingConfirmation) && Step(s, e).In(id, Quarantined)
    ensures e.Commit? && e.id == id && HasSecured(s, Step(s, e), id, e.cut)
  {
    hide CommitTrail, RestoreTrail, After, HasSecured, PreparedRecord;
    if Concerns(e, id) {
      if e.Commit? {
        CommitSecures(s, id, e.committing, e.cut);
      }
    } else {
      OtherRecord(s, e, id);
    }
  }

  lemma RestoredByRestore(s: State, e: Event, id: Id)
    requires s.In(id, Quarantined) && Step(s, e).In(id, Restored)
    ensures e.Restore? && e.id == id && HasGivenBack(s, Step(s, e), id, e.cut)
  {
    hide CommitTrail, RestoreTrail, After, HasGivenBack, PreparedRecord;
    if Concerns(e, id) {
      if e.Restore? {
        RestoreGivesBack(s, id, e.restoring, e.cut);
      }
    } else {
      OtherRecord(s, e, id);
    }
  }

  lemma PreparedByPrepare(s: State, e: Event, id: Id)
    requires id !in s.records && id in Step(s, e).records
    ensures e.Prepare? && e.id == id && Step(s, e).In(id, AwaitingConfirmation)
    ensures var r := Step(s, e).records[id];
            && r.finding in s.findings && s.findings[r.finding] == Finding(r.place, r.sha256, true)
            && r.place in s.originals && s.originals[r.place].mode == r.mode
            && s.digest(s.originals[r.place].bytes) == r.sha256
  {
    hide CommitTrail, RestoreTrail, After;
    if Runs(s, e) {
      CallPoint(s, e);
    }
  }

  /** A preparation makes a record exactly for an active finding whose file is there, unchanged, and found to
      be malware again. */
  lemma PreparesIff(s: State, finding: int, id: Id, a: PrepareAnswers)
    requires id !in s.records
    ensures id in Step(s, Prepare(finding, id, a)).records <==>
              && finding in s.findings && s.findings[finding].active
              && var f := s.findings[finding];
                 && f.place in s.originals && a.reachable && a.malware && a.scan.Exact?
                 && s.digest(s.originals[f.place].bytes) == f.sha256
  {
  }

  /** A file that was prepared, committed and restored has the bytes it had when it was committed
      and the mode it had when it was prepared. Its finding is active again unless the restore was
      cut exactly between marking the record and activating the finding. */
  lemma RoundTrip(s: State, events: seq<Event>, p: nat, i: nat, j: nat, id: Id)
    requires Inv(s) && p < i < j < |events|
    requires id !in At(s, events, p).records && id in At(s, events, p + 1).records
    requires At(s, events, i).In(id, AwaitingConfirmation) && At(s, events, i + 1).In(id, Quarantined)
    requires At(s, events, j).In(id, Quarantined) && At(s, events, j + 1).In(id, Restored)
    ensures var r := At(s, events, i).records[id];
            && r.place in At(s, events, p).originals && r.place in At(s, events, i).originals
            && r.place in At(s, events, j + 1).originals
            && SameFile(At(s, events, j + 1).originals[r.place], At(s, events, i).originals[r.place])
            && At(s, events, j + 1).originals[r.place].mode == At(s, events, p).originals[r.place].mode
            && id !in At(s, events, j + 1).objects
            && r.finding in At(s, events, j).findings && r.finding in At(s, events, j + 1).findings
            && events[j].Restore?
            && At(s, events, j + 1).findings[r.finding].active ==
               (events[j].cut != Some(FINDING_LAST) || At(s, events, j).findings[r.finding].active)
  {
    hide Step, Inv;
    PreparedByPrepare(At(s, events, p), events[p], id);
    ClaimedOnce(s, events, p + 1, i, id);
    SecuredByCommit(At(s, events, i), events[i], id);
    ClaimedOnce(s, events, i, i + 1, id);
    ClaimedOnce(s, events, i + 1, j, id);
    RunKeepsInv(s, events, j);
    RecordOf(At(s, events, j), id);
    RestoredByRestore(At(s, events, j), events[j], id);
  }
}
