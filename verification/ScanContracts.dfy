/** The public result of one file scan, and the conditions its constructor checks. */
module ScanContracts {
  import opened Wrappers
  import opened Sorting

  const MAX_OBSERVATIONS: nat := 8

  datatype ErrorCode =
    | InvalidResourceId | InvalidRelativePath | ResourceNotAvailable | ResourceNotAccessible
    | ProtectedPath | NotRegularFile | FileTooLarge | ScanTimeout | ScanIoError
    | FileChangedDuringScan | DetectorUnavailable | DetectorTimeout | DetectorProtocolError
    | DetectorIdentityRejected

  datatype Severity = Low | Medium | High | Critical

  /** In the alphabetical order of the names they stand for. */
  datatype MatchedBy = ByteSignatures | Clamd | Sha256Signatures

  datatype Observation = Observation(detector: MatchedBy, rule: string, classification: string, severity: Severity)

  datatype DetectorState = DetectorCompleted | DetectorFailed | DetectorMissing

  datatype DetectorStatus = DetectorStatus(
    detector: string, version: string, state: DetectorState, reason: Option<ErrorCode>)
  {
    predicate IsConsistent() {
      detector in {"local-signatures", "clamd"} && (state.DetectorCompleted? <==> reason.None?)
    }
  }

  datatype Status = Completed | Partial | Rejected | Failed

  datatype Verdict = MalwareDetected | NoThreatDetected | Unknown

  datatype ScanResult = ScanResult(
    resourceId: string,
    relativePath: string,
    status: Status,
    verdict: Verdict,
    error: Option<ErrorCode>,
    sha256: Option<string>,
    size: Option<nat>,
    observations: seq<Observation>,
    detectors: seq<DetectorStatus>)
  {
    predicate AllCompleted() {
      forall d <- detectors :: d.state.DetectorCompleted?
    }

    /** What the constructor demands of every result. */
    predicate IsConsistent() {
      && |resourceId| <= 64 && |relativePath| <= 1024
      && |observations| <= MAX_OBSERVATIONS && |detectors| <= 8
      && (forall d <- detectors :: d.IsConsistent())
      && (forall i, j :: 0 <= i < j < |detectors| ==> detectors[i].detector != detectors[j].detector)
      && (detectors != [] ==> detectors[0].detector == "local-signatures")
      && match status
         case Completed =>
           && !verdict.Unknown? && error.None? && sha256.Some? && size.Some?
           && (verdict.MalwareDetected? <==> observations != [])
           && detectors != [] && AllCompleted()
         case Partial =>
           && !verdict.NoThreatDetected? && error.Some? && sha256.Some? && size.Some?
           && detectors != [] && !AllCompleted()
           && (exists d <- detectors :: d.reason == error)
           && (verdict.MalwareDetected? <==> observations != [])
         case _ =>
           && verdict.Unknown? && error.Some? && sha256.None? && size.None?
           && observations == [] && detectors == []
    }
  }

  function RejectedResult(error: ErrorCode, resourceId: string, path: string): (r: ScanResult)
    ensures |resourceId| <= 64 && |path| <= 1024 ==> r.IsConsistent()
  {
    ScanResult(resourceId, path, Rejected, Unknown, Some(error), None, None, [], [])
  }

  function FailedResult(error: ErrorCode, resourceId: string, path: string): (r: ScanResult)
    ensures |resourceId| <= 64 && |path| <= 1024 ==> r.IsConsistent()
  {
    ScanResult(resourceId, path, Failed, Unknown, Some(error), None, None, [], [])
  }

  // ----- the order of observations -----

  /** Code point order of strings, a prefix first. */
  predicate StringLe(a: string, b: string) {
    a == [] || (b != [] && (a[0] < b[0] || (a[0] == b[0] && StringLe(a[1..], b[1..]))))
  }

  lemma {:induction false} StringLeIsTotal(a: string, b: string)
    ensures StringLe(a, b) || StringLe(b, a)
    ensures StringLe(a, b) && StringLe(b, a) ==> a == b
  {
    if a != [] && b != [] {
      StringLeIsTotal(a[1..], b[1..]);
      assert a == [a[0]] + a[1..] && b == [b[0]] + b[1..];
    }
  }

  lemma {:induction false} StringLeIsTransitive(a: string, b: string, c: string)
    requires StringLe(a, b) && StringLe(b, c)
    ensures StringLe(a, c)
  {
    if a != [] && a[0] == b[0] == c[0] {
      StringLeIsTransitive(a[1..], b[1..], c[1..]);
    }
  }

  function Rank(d: MatchedBy): int {
    match d
    case ByteSignatures => 0
    case Clamd => 1
    case Sha256Signatures => 2
  }

  /** How a detector is written in a result. */
  function NameOf(d: MatchedBy): string {
    match d
    case ByteSignatures => "byte-signature"
    case Clamd => "clamd"
    case Sha256Signatures => "sha256-signature"
  }

  /** Detectors are ordered by their names. */
  lemma RankIsByName(a: MatchedBy, b: MatchedBy)
    ensures Rank(a) <= Rank(b) <==> StringLe(NameOf(a), NameOf(b))
  {
    StringLeIsTotal(NameOf(a), NameOf(b));
    assert NameOf(ByteSignatures)[0] == 'b' && NameOf(Clamd)[0] == 'c' && NameOf(Sha256Signatures)[0] == 's';
  }

  /** First by detector, then by rule. */
  predicate InOrder(x: Observation, y: Observation) {
    Rank(x.detector) < Rank(y.detector)
    || (Rank(x.detector) == Rank(y.detector) && StringLe(x.rule, y.rule))
  }

  lemma InOrderIsOrder()
    ensures IsOrder(InOrder)
  {
    forall x, y ensures InOrder(x, y) || InOrder(y, x) {
      StringLeIsTotal(x.rule, y.rule);
    }
    forall x, y, z | InOrder(x, y) && InOrder(y, z) ensures InOrder(x, z) {
      if Rank(x.detector) == Rank(y.detector) == Rank(z.detector) {
        StringLeIsTransitive(x.rule, y.rule, z.rule);
      }
    }
  }
}
