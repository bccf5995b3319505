/** Quarantine records and the files they stand for: the operations of each call, one by one, with
    the answers the system gives to them. */
module Quarantine {
  import opened Wrappers
  import opened PatternSearch

  type Id = string

  /** Where a scanned file lives: a resource and a path below its root. */
  datatype Place = Place(resource: string, path: string)

  datatype FileData = FileData(inode: nat, bytes: seq<Byte>, mode: nat)

  const PRIVATE_MODE: nat := 384 // 0o600

  datatype RecordState =
    | AwaitingConfirmation | Cancelled | Committing | Quarantined | Restoring | Restored | Failed

  datatype RecordError =
    | ConfirmationInterrupted | SourceUnavailable | AssetChanged | DestinationExists | CrossDevice
    | MoveFailed | VerificationFailed | RestoreDestinationUnavailable | RestoreDestinationExists
    | ObjectChanged | RestoreVerificationFailed | RestoreMoveFailed

  datatype Record = Record(
    finding: int, place: Place, sha256: string, mode: nat, state: RecordState, error: Option<RecordError>)

  datatype Finding = Finding(place: Place, sha256: string, active: bool)

  /** The files at their original places and in the object directory, the records and the findings. */
  datatype State = State(
    digest: seq<Byte> -> string,
    originals: map<Place, FileData>,
    objects: map<Id, FileData>,
    records: map<Id, Record>,
    findings: map<int, Finding>)
  {
    predicate In(id: Id, state: RecordState) {
      id in records && records[id].state == state
    }

    predicate InTransit(id: Id) {
      In(id, Committing) || In(id, Restoring)
    }

    /** A call that stopped half way, or a quarantined record without its object. */
    predicate Broken(id: Id) {
      InTransit(id) || (In(id, Quarantined) && id !in objects)
    }
  }

  predicate SameFile(a: FileData, b: FileData) {
    a.inode == b.inode && a.bytes == b.bytes
  }

  // ----- single operations -----

  function MovedOut(s: State, id: Id, place: Place): State
    requires place in s.originals
  {
    s.(originals := s.originals - {place}, objects := s.objects[id := s.originals[place]])
  }

  function MovedBack(s: State, id: Id, place: Place): State
    requires id in s.objects
  {
    s.(originals := s.originals[place := s.objects[id]], objects := s.objects - {id})
  }

  function ObjectMode(s: State, id: Id, mode: nat): State
    requires id in s.objects
  {
    s.(objects := s.objects[id := s.objects[id].(mode := mode)])
  }

  function OriginalMode(s: State, place: Place, mode: nat): State
    requires place in s.originals
  {
    s.(originals := s.originals[place := s.originals[place].(mode := mode)])
  }

  /** The record has a new state and error. */
  function Marked(s: State, id: Id, state: RecordState, error: Option<RecordError>): State
    requires id in s.records
  {
    s.(records := s.records[id := s.records[id].(state := state, error := error)])
  }

  function FindingSet(s: State, finding: int, active: bool): State {
    if finding in s.findings
    then s.(findings := s.findings[finding := s.findings[finding].(active := active)])
    else s
  }

  // ----- answers of the system -----

  /** What reading a file gives: its content, something else, or an error. */
  datatype Reading = Exact | Misread | Unreadable

  datatype MoveAnswer = Moved | AcrossDevices | NotMoved

  datatype HashOutcome = Matches | Differs | NotRead

  /** The hash of a file compared with the recorded one. */
  function Compared(digest: seq<Byte> -> string, file: FileData, expected: string, reading: Reading): HashOutcome {
    match reading
    case Exact => if digest(file.bytes) == expected then Matches else Differs
    case Misread => Differs
    case Unreadable => NotRead
  }

  /** How the operations of a preparation are answered; `malware` is the verdict of the scan. */
  datatype PrepareAnswers = PrepareAnswers(reachable: bool, scan: Reading, malware: bool)

  /** How the operations of a commit are answered. `back` is the move back after a differing hash,
      `handlerBack` and `resetMode` are what the exception handler does. */
  datatype CommitAnswers = CommitAnswers(
    reachable: bool, scan: Reading, move: MoveAnswer, rehash: Reading, protect: bool,
    back: bool, handlerBack: bool, resetMode: bool)
  {
    predicate Granted() {
      reachable && scan.Exact? && move.Moved? && rehash.Exact? && protect && back && handlerBack && resetMode
    }
  }

  /** How the operations of a restore are answered. */
  datatype RestoreAnswers = RestoreAnswers(
    reachable: bool, check: Reading, move: bool, setMode: bool, rehash: Reading, moveAgain: bool)
  {
    predicate Granted() {
      reachable && check.Exact? && move && setMode && rehash.Exact? && moveAgain
    }
  }

  // ----- the calls, as the states after each of their operations -----

  /** Why the file is not moved into quarantine. */
  function CommitObstacle(s: State, id: Id, a: CommitAnswers): Option<RecordError>
    requires id in s.records
  {
    var r := s.records[id];
    if r.place !in s.originals || !a.reachable then Some(SourceUnavailable)
    else if !Compared(s.digest, s.originals[r.place], r.sha256, a.scan).Matches? then Some(AssetChanged)
    else if id in s.objects then Some(DestinationExists)
    else
      match a.move
      case Moved => None
      case AcrossDevices => Some(CrossDevice)
      case NotMoved => Some(MoveFailed)
  }

  function CommitTrail(s: State, id: Id, a: CommitAnswers): (trail: seq<State>)
    requires id in s.records
    ensures trail != []
  {
    var claimed := Marked(s, id, Committing, None);
    var obstacle := CommitObstacle(s, id, a);
    if obstacle.Some? then [claimed, Marked(claimed, id, Failed, obstacle)]
    else
      var moved := MovedOut(claimed, id, s.records[id].place);
      [claimed, moved] + VerifyTrail(moved, id, a)
  }

  /** The file is in its object: check it, protect it, and record it as quarantined. */
  function VerifyTrail(s: State, id: Id, a: CommitAnswers): seq<State>
    requires id in s.records && id in s.objects
  {
    var r := s.records[id];
    var hashed := Compared(s.digest, s.objects[id], r.sha256, a.rehash);
    if hashed.Matches? && a.protect then
      var protected := ObjectMode(s, id, PRIVATE_MODE);
      var quarantined := Marked(protected, id, Quarantined, None);
      [protected, quarantined, FindingSet(quarantined, r.finding, false)]
    else if hashed.Differs? && a.back then
      var returned := MovedBack(s, id, r.place);
      [returned, Marked(returned, id, Failed, Some(VerificationFailed))]
    else HandlerTrail(s, id, a)
  }

  /** The exception handler of a commit; an error in it ends the call. */
  function HandlerTrail(s: State, id: Id, a: CommitAnswers): seq<State>
    requires id in s.records && id in s.objects
  {
    var r := s.records[id];
    if !a.handlerBack then []
    else
      var returned := MovedBack(s, id, r.place);
      if !a.resetMode then [returned]
      else
        var moded := OriginalMode(returned, r.place, r.mode);
        [returned, moded, Marked(moded, id, Failed, Some(VerificationFailed))]
  }

  /** Why the file is not moved back. */
  function RestoreObstacle(s: State, id: Id, a: RestoreAnswers): Option<RecordError>
    requires id in s.records
  {
    var r := s.records[id];
    if !a.reachable then Some(RestoreDestinationUnavailable)
    else if r.place in s.originals then Some(RestoreDestinationExists)
    else if id !in s.objects then Some(RestoreMoveFailed)
    else
      match Compared(s.digest, s.objects[id], r.sha256, a.check)
      case NotRead => Some(RestoreMoveFailed)
      case Differs => Some(ObjectChanged)
      case Matches => if a.move then None else Some(RestoreMoveFailed)
  }

  function RestoreTrail(s: State, id: Id, a: RestoreAnswers): (trail: seq<State>)
    requires id in s.records
    ensures trail != []
  {
    var claimed := Marked(s, id, Restoring, None);
    var obstacle := RestoreObstacle(s, id, a);
    if obstacle.Some? then [claimed, Marked(claimed, id, Quarantined, obstacle)]
    else
      var returned := MovedBack(claimed, id, s.records[id].place);
      [claimed, returned] + ReleaseTrail(returned, id, a)
  }

  /** The file is back at its place: give it its mode, check it, and record it as restored. */
  function ReleaseTrail(s: State, id: Id, a: RestoreAnswers): (trail: seq<State>)
    requires id in s.records && s.records[id].place in s.originals
    ensures trail != []
  {
    var r := s.records[id];
    if !a.setMode then [Marked(s, id, Quarantined, Some(RestoreMoveFailed))]
    else
      var moded := OriginalMode(s, r.place, r.mode);
      [moded] + RecheckTrail(moded, id, a)
  }

  function RecheckTrail(s: State, id: Id, a: RestoreAnswers): (trail: seq<State>)
    requires id in s.records && s.records[id].place in s.originals
    ensures trail != []
  {
    var r := s.records[id];
    var hashed := Compared(s.digest, s.originals[r.place], r.sha256, a.rehash);
    if hashed.Matches? then
      var restored := Marked(s, id, Restored, None);
      [restored, FindingSet(restored, r.finding, true)]
    else if hashed.Differs? && a.moveAgain then
      var kept := MovedOut(s, id, r.place);
      [kept, Marked(kept, id, Quarantined, Some(RestoreVerificationFailed))]
    else [Marked(s, id, Quarantined, Some(RestoreMoveFailed))]
  }

  /** The fresh record of an active finding whose file is in place and unchanged. */
  function PreparedRecord(s: State, finding: int, a: PrepareAnswers): Option<Record> {
    if finding !in s.findings || !s.findings[finding].active then None
    else
      var f := s.findings[finding];
      if f.place !in s.originals || !a.reachable || !a.malware then None
      else if !Compared(s.digest, s.originals[f.place], f.sha256, a.scan).Matches? then None
      else Some(Record(finding, f.place, f.sha256, s.originals[f.place].mode, AwaitingConfirmation, None))
  }

  /** Opening the store cancels what awaited confirmation. */
  function Interrupted(records: map<Id, Record>): map<Id, Record> {
    map id | id in records ::
      if records[id].state.AwaitingConfirmation?
      then records[id].(state := Cancelled, error := Some(ConfirmationInterrupted))
      else records[id]
  }

  // ----- runs -----

  /** What can happen to the store. A call with `cut == Some(k)` ends after its first `k`
      operations, by a crash or an exception that no handler catches. Between calls anything may
      happen to the original places and to the findings, except that no finding disappears. */
  datatype Event =
    | Prepare(finding: int, id: Id, preparing: PrepareAnswers)
    | Cancel(id: Id)
    | Commit(id: Id, committing: CommitAnswers, cut: Option<nat>)
    | Restore(id: Id, restoring: RestoreAnswers, cut: Option<nat>)
    | Reopen
    | Outside(originals: map<Place, FileData>, findings: map<int, Finding>)
  {
    /** Nothing was refused, misread or cut short. */
    predicate Smooth() {
      (Commit? ==> committing.Granted() && cut.None?) && (Restore? ==> restoring.Granted() && cut.None?)
    }
  }

  function After(s: State, trail: seq<State>, cut: Option<nat>): State
    requires trail != []
  {
    if cut.None? || |trail| <= cut.value then trail[|trail| - 1]
    else if cut.value == 0 then s
    else trail[cut.value - 1]
  }

  function Step(s: State, e: Event): State {
    match e
    case Prepare(finding, id, a) =>
      var prepared := PreparedRecord(s, finding, a);
      if id in s.records || prepared.None? then s else s.(records := s.records[id := prepared.value])
    case Cancel(id) => if s.In(id, AwaitingConfirmation) then Marked(s, id, Cancelled, None) else s
    case Commit(id, a, cut) => if s.In(id, AwaitingConfirmation) then After(s, CommitTrail(s, id, a), cut) else s
    case Restore(id, a, cut) => if s.In(id, Quarantined) then After(s, RestoreTrail(s, id, a), cut) else s
    case Reopen => s.(records := Interrupted(s.records))
    case Outside(originals, findings) => s.(originals := originals, findings := s.findings + findings)
  }

  /** The state after the first `i` events. */
  function At(s: State, events: seq<Event>, i: nat): State
    requires i <= |events|
  {
    if i == 0 then s else Step(At(s, events, i - 1), events[i - 1])
  }

  // ----- the invariant -----

  ghost predicate RecordInv(s: State, id: Id)
    requires id in s.records
  {
    var r := s.records[id];
    && r.finding in s.findings
    && match r.state
       case Quarantined => id in s.objects ==> s.digest(s.objects[id].bytes) == r.sha256
       case Committing => true
       case Restoring => true
       case _ => id !in s.objects
  }

  ghost predicate Inv(s: State) {
    (forall id <- s.records :: RecordInv(s, id)) && s.objects.Keys <= s.records.Keys
  }

  /** Every record is settled, and says quarantined exactly when its object exists. */
  ghost predicate Clean(s: State) {
    Inv(s) && forall id <- s.records :: !s.Broken(id)
  }

  // ----- when a call leaves its record broken -----

  /** The file was moved out, could not be verified or protected, and was not put back in order. */
  predicate CommitSticks(s: State, id: Id, a: CommitAnswers)
    requires id in s.records
  {
    && CommitObstacle(s, id, a).None?
    && !(a.rehash.Exact? && a.protect)
    && !(a.rehash.Misread? && a.back)
    && !(a.handlerBack && a.resetMode)
  }

  /** The file was moved back, but not found in order, and was not moved to its object again. */
  predicate RestoreSlips(s: State, id: Id, a: RestoreAnswers)
    requires id in s.records
  {
    && RestoreObstacle(s, id, a).None?
    && (!a.setMode || a.rehash.Unreadable? || (a.rehash.Misread? && !a.moveAgain))
  }

  /** How many operations a commit that does not stick makes until its record is settled. */
  function CommitSettles(s: State, id: Id, a: CommitAnswers): nat
    requires id in s.records
  {
    if CommitObstacle(s, id, a).Some? then 2
    else if (a.rehash.Exact? && a.protect) || (a.rehash.Misread? && a.back) then 4
    else 5
  }

  /** How many operations a restore that does not slip makes until its record is settled. */
  function RestoreSettles(s: State, id: Id, a: RestoreAnswers): nat
    requires id in s.records
  {
    if RestoreObstacle(s, id, a).Some? then 2
    else if a.rehash.Misread? && a.moveAgain then 5
    else 4
  }

  predicate Breaks(s: State, e: Event) {
    match e
    case Commit(id, a, cut) =>
      && s.In(id, AwaitingConfirmation) && cut != Some(0)
      && (CommitSticks(s, id, a) || (cut.Some? && cut.value < CommitSettles(s, id, a)))
    case Restore(id, a, cut) =>
      && s.In(id, Quarantined) && cut != Some(0)
      && (RestoreSlips(s, id, a) || (cut.Some? && cut.value < RestoreSettles(s, id, a)))
    case _ => false
  }
}
