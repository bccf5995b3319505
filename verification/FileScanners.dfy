/** The bounded scanner of one file: signatures, streaming detectors and the assembled result. */
module FileScanners {
  import opened Wrappers
  import opened Sorting
  import opened PatternSearch
  import opened ScanContracts
  import opened ScanScopes

  datatype HashSignature = HashSignature(rule: string, sha256: string, classification: string, severity: Severity)

  datatype BytePattern = BytePattern(rule: string, pattern: seq<Byte>, classification: string, severity: Severity)

  datatype Signatures = Signatures(hashes: seq<HashSignature>, patterns: seq<BytePattern>, version: string) {
    /** What the constructor of the signature database demands. */
    ghost predicate Valid() {
      && (forall s <- patterns :: 1 <= |s.pattern| <= 256)
      && (forall i, j :: 0 <= i < j < |patterns| ==> patterns[i].rule != patterns[j].rule)
    }
  }

  // ----- external detectors -----

  datatype Fault = Told(reason: ErrorCode, unavailable: bool) | Crashed

  /** An external detector, with the answers it is going to give: whether it starts, the first block
      it refuses, and what it reports in the end. */
  datatype Detector = Detector(
    name: string,
    version: string,
    begins: Option<Fault>,
    refusesBlock: nat,
    refusal: Option<Fault>,
    report: Result<seq<Observation>, Fault>)
  {
    /** What went wrong by the time `blocks` blocks have been offered. */
    function FaultBy(blocks: nat): Option<Fault> {
      if begins.Some? then begins
      else if refusesBlock < blocks then refusal
      else None
    }

    /** The answer to one more block. */
    function RefusalOf(block: nat): Option<Fault> {
      if block == refusesBlock then refusal else None
    }

    function Outcome(blocks: nat): Result<seq<Observation>, Fault> {
      if FaultBy(blocks).Some? then Failure(FaultBy(blocks).value) else report
    }

    function FailedStatus(fault: Fault): (s: DetectorStatus)
      ensures s.detector == name && !s.state.DetectorCompleted? && s.reason.Some?
    {
      match fault
      case Told(reason, unavailable) =>
        DetectorStatus(name, version, if unavailable then DetectorMissing else DetectorFailed, Some(reason))
      case Crashed => DetectorStatus(name, version, DetectorFailed, Some(DetectorProtocolError))
    }

    function CompletedStatus(): DetectorStatus {
      DetectorStatus(name, version, DetectorCompleted, None)
    }

    function FinalStatus(blocks: nat): (s: DetectorStatus) {
      match Outcome(blocks)
      case Success(_) => CompletedStatus()
      case Failure(fault) => FailedStatus(fault)
    }
  }

  /** A detector is completed exactly if it began, accepted every block and gave its report. Else its status
      gives the first thing that went wrong: unavailable or failed with the reason it told, or failed with
      a protocol error if it crashed. */
  lemma FinalStatusIs(d: Detector, blocks: nat)
    ensures var s := d.FinalStatus(blocks);
            var refused := d.refusal.Some? && d.refusesBlock < blocks;
            && s.detector == d.name && s.version == d.version
            && (s.state.DetectorCompleted? <==> d.begins.None? && !refused && d.report.Success?)
            && (s.state.DetectorCompleted? ==> s.reason.None?)
            && (!s.state.DetectorCompleted? ==>
                  var fault := if d.begins.Some? then d.begins.value
                               else if refused then d.refusal.value else d.report.error;
                  if fault.Crashed? then s.state.DetectorFailed? && s.reason == Some(DetectorProtocolError)
                  else s.reason == Some(fault.reason) && (s.state.DetectorMissing? <==> fault.unavailable))
  {
  }

  ghost predicate DistinctNames(detectors: seq<Detector>) {
    forall i, j :: 0 <= i < j < |detectors| ==> detectors[i].name != detectors[j].name
  }

  /** What the scanner demands of its external detectors. */
  ghost predicate ValidDetectors(detectors: seq<Detector>) {
    DistinctNames(detectors) && forall d <- detectors :: d.name == "clamd"
  }

  lemma AtMostOneDetector(detectors: seq<Detector>)
    requires ValidDetectors(detectors)
    ensures |detectors| <= 1
  {
    assert |detectors| > 1 ==> detectors[0].name == detectors[1].name;
  }

  lemma NamesDiffer(detectors: seq<Detector>, d: Detector, e: Detector)
    requires DistinctNames(detectors) && d in detectors && e in detectors && d != e
    ensures d.name != e.name
  {
  }

  lemma NameIsNew(detectors: seq<Detector>, i: nat)
    requires DistinctNames(detectors) && i < |detectors|
    ensures forall d <- detectors[..i] :: d.name != detectors[i].name
  {
    forall d <- detectors[..i] ensures d.name != detectors[i].name {
      var j :| 0 <= j < i && detectors[j] == d;
    }
  }

  function Survivors(detectors: seq<Detector>, blocks: nat): seq<Detector> {
    if detectors == [] then []
    else
      var rest := Survivors(detectors[..|detectors| - 1], blocks);
      var d := detectors[|detectors| - 1];
      if d.FaultBy(blocks).None? then rest + [d] else rest
  }

  function Findings(detectors: seq<Detector>, blocks: nat): seq<Observation> {
    if detectors == [] then []
    else
      var outcome := detectors[|detectors| - 1].Outcome(blocks);
      Findings(detectors[..|detectors| - 1], blocks)
      + if outcome.Success? then outcome.value else []
  }

  /** The recorded status of a detector: its failure, if it has failed, and none otherwise. */
  ghost predicate HasStatus(d: Detector, statuses: map<string, DetectorStatus>, blocks: nat) {
    match d.FaultBy(blocks)
    case None => d.name !in statuses
    case Some(fault) => d.name in statuses && statuses[d.name] == d.FailedStatus(fault)
  }

  ghost predicate Recorded(detectors: seq<Detector>, statuses: map<string, DetectorStatus>, blocks: nat) {
    forall d <- detectors :: HasStatus(d, statuses, blocks)
  }

  lemma {:induction false} SurvivorsStand(detectors: seq<Detector>, blocks: nat)
    ensures forall d :: d in Survivors(detectors, blocks) <==> d in detectors && d.FaultBy(blocks).None?
  {
    if detectors != [] {
      var rest, d := detectors[..|detectors| - 1], detectors[|detectors| - 1];
      SurvivorsStand(rest, blocks);
      assert detectors == rest + [d];
    }
  }

  /** Who survives one block more: those among the survivors that accept it. */
  lemma {:induction false} SurvivorsOfSurvivors(detectors: seq<Detector>, blocks: nat)
    ensures Survivors(Survivors(detectors, blocks), blocks + 1) == Survivors(detectors, blocks + 1)
  {
    if detectors != [] {
      var rest, d := detectors[..|detectors| - 1], detectors[|detectors| - 1];
      SurvivorsOfSurvivors(rest, blocks);
      var s := Survivors(rest, blocks);
      if d.FaultBy(blocks).None? {
        assert (s + [d])[..|s + [d]| - 1] == s;
      }
    }
  }

  /** The survivors of the whole stream report exactly what all detectors found. */
  lemma {:induction false} FindingsOfSurvivors(detectors: seq<Detector>, blocks: nat)
    ensures Findings(Survivors(detectors, blocks), blocks) == Findings(detectors, blocks)
  {
    if detectors != [] {
      var rest, d := detectors[..|detectors| - 1], detectors[|detectors| - 1];
      FindingsOfSurvivors(rest, blocks);
      var s := Survivors(rest, blocks);
      if d.FaultBy(blocks).None? {
        assert (s + [d])[..|s + [d]| - 1] == s;
      }
    }
  }

  lemma OneMoreBegun(detectors: seq<Detector>, i: nat,
                     before: map<string, DetectorStatus>, after: map<string, DetectorStatus>)
    requires DistinctNames(detectors) && i < |detectors| && Recorded(detectors[..i], before, 0)
    requires detectors[i].name !in before
    requires match detectors[i].begins
             case None => after == before
             case Some(fault) => after == before[detectors[i].name := detectors[i].FailedStatus(fault)]
    ensures Recorded(detectors[..i + 1], after, 0)
  {
    NameIsNew(detectors, i);
    forall d <- detectors[..i + 1] ensures HasStatus(d, after, 0) {
      assert d == detectors[i] || d in detectors[..i];
    }
  }

  method BeginSessions(detectors: seq<Detector>)
    returns (active: seq<Detector>, statuses: map<string, DetectorStatus>)
    requires DistinctNames(detectors)
    ensures active == Survivors(detectors, 0) && Recorded(detectors, statuses, 0)
  {
    active, statuses := [], map[];
    for i := 0 to |detectors|
      invariant active == Survivors(detectors[..i], 0)
      invariant Recorded(detectors[..i], statuses, 0)
      invariant forall j :: i <= j < |detectors| ==> detectors[j].name !in statuses
    {
      var detector := detectors[i];
      assert detectors[..i + 1][..i] == detectors[..i];
      ghost var before := statuses;
      match detector.begins {
        case None => active := active + [detector];
        case Some(fault) => statuses := statuses[detector.name := detector.FailedStatus(fault)];
      }
      OneMoreBegun(detectors, i, before, statuses);
    }
    assert detectors[..|detectors|] == detectors;
  }

  /** `active.remove(...)`: drop the first such entry. */
  function Without(active: seq<Detector>, d: Detector): seq<Detector> {
    if active == [] then []
    else if active[0] == d then active[1..]
    else [active[0]] + Without(active[1..], d)
  }

  lemma {:induction false} WithoutNext(kept: seq<Detector>, d: Detector, rest: seq<Detector>)
    requires d !in kept
    ensures Without(kept + [d] + rest, d) == kept + rest
  {
    if kept == [] {
      assert kept + [d] + rest == [d] + rest;
      assert kept + rest == rest;
    } else {
      WithoutNext(kept[1..], d, rest);
      assert (kept + [d] + rest)[1..] == kept[1..] + [d] + rest;
      assert kept + rest == [kept[0]] + (kept[1..] + rest);
    }
  }

  lemma {:induction false} SurvivorsAreDistinct(detectors: seq<Detector>, blocks: nat)
    requires DistinctNames(detectors)
    ensures DistinctNames(Survivors(detectors, blocks))
  {
    if detectors != [] {
      var rest, d := detectors[..|detectors| - 1], detectors[|detectors| - 1];
      SurvivorsAreDistinct(rest, blocks);
      SurvivorsStand(rest, blocks);
      NameIsNew(detectors, |detectors| - 1);
      var kept := Survivors(rest, blocks);
      forall i | 0 <= i < |kept| ensures kept[i].name != d.name {
        assert kept[i] in rest;
      }
    }
  }

  lemma SurvivorsOfNone(none: seq<Detector>, blocks: nat)
    requires none == []
    ensures Survivors(none, blocks) == []
  {
  }

  lemma SurvivorsOfOneMore(detectors: seq<Detector>, i: nat, blocks: nat)
    requires i < |detectors|
    ensures Survivors(detectors[..i + 1], blocks) ==
              Survivors(detectors[..i], blocks)
              + if detectors[i].FaultBy(blocks).None? then [detectors[i]] else []
  {
    assert detectors[..i + 1][..i] == detectors[..i];
  }

  lemma FaultOfOneMore(d: Detector, block: nat)
    ensures d.FaultBy(block + 1) ==
              if d.FaultBy(block).Some? then d.FaultBy(block) else d.RefusalOf(block)
  {
  }

  /** The statuses after the first `i` open sessions were offered block number `block`. */
  ghost predicate Offered(detectors: seq<Detector>, active: seq<Detector>,
                          statuses: map<string, DetectorStatus>, i: nat, block: nat)
    requires i <= |active|
  {
    forall d <- detectors :: HasStatus(d, statuses, if d in active[i..] then block else block + 1)
  }

  lemma StatusOfOneMore(d: Detector, statuses: map<string, DetectorStatus>, block: nat)
    requires HasStatus(d, statuses, block)
    requires d.FaultBy(block).Some? || d.RefusalOf(block).None?
    ensures HasStatus(d, statuses, block + 1)
  {
  }

  lemma NoneOffered(detectors: seq<Detector>, statuses: map<string, DetectorStatus>, block: nat)
    requires Recorded(detectors, statuses, block)
    ensures Offered(detectors, Survivors(detectors, block), statuses, 0, block)
  {
    hide HasStatus, Detector.FaultBy, Detector.RefusalOf;
    SurvivorsStand(detectors, block);
    forall d <- detectors | d !in Survivors(detectors, block) {
      StatusOfOneMore(d, statuses, block);
    }
  }

  /** An accepted block changes no status, a refused one only that of the session that refuses. */
  lemma OneMoreOffered(detectors: seq<Detector>, active: seq<Detector>, i: nat,
                       before: map<string, DetectorStatus>, after: map<string, DetectorStatus>, block: nat)
    requires DistinctNames(detectors) && DistinctNames(active) && i < |active|
    requires active[i] in detectors && active[i].FaultBy(block).None?
    requires Offered(detectors, active, before, i, block)
    requires match active[i].RefusalOf(block)
             case None => after == before
             case Some(fault) => after == before[active[i].name := active[i].FailedStatus(fault)]
    ensures Offered(detectors, active, after, i + 1, block)
  {
    hide DistinctNames;
    var session := active[i];
    Distinct(active);
    forall d <- detectors
      ensures HasStatus(d, after, if d in active[i + 1..] then block else block + 1)
    {
      assert active[i..] == [session] + active[i + 1..];
      if d == session {
        assert session in active[i..];
        FaultOfOneMore(session, block);
      } else {
        NamesDiffer(detectors, d, session);
      }
    }
  }

  lemma Distinct(active: seq<Detector>)
    requires DistinctNames(active)
    ensures forall i, j :: 0 <= i < |active| && 0 <= j < |active| && i != j ==> active[i] != active[j]
  {
  }

  lemma AllOffered(detectors: seq<Detector>, active: seq<Detector>,
                   statuses: map<string, DetectorStatus>, block: nat)
    requires Offered(detectors, active, statuses, |active|, block)
    ensures Recorded(detectors, statuses, block + 1)
  {
  }

  /** Offering a block to one more session removes the session if it refuses, and no other. */
  lemma OfferToOne(active: seq<Detector>, i: nat, block: nat)
    requires i < |active| && DistinctNames(active) && active[i].FaultBy(block).None?
    ensures var now := Survivors(active[..i], block + 1) + active[i..];
            Survivors(active[..i + 1], block + 1) + active[i + 1..]
              == if active[i].RefusalOf(block).Some? then Without(now, active[i]) else now
  {
    hide Survivors, Without, Detector.FaultBy, Detector.RefusalOf;
    var session, kept, rest := active[i], Survivors(active[..i], block + 1), active[i + 1..];
    SurvivorsStand(active[..i], block + 1);
    SurvivorsOfOneMore(active, i, block + 1);
    FaultOfOneMore(session, block);
    assert active[i..] == [session] + rest;
    assert kept + ([session] + rest) == kept + [session] + rest;
    WithoutNext(kept, session, rest);
  }

  /** Offer block number `block` to every session that is still open. */
  method FeedSessions(detectors: seq<Detector>, active: seq<Detector>,
                      statuses: map<string, DetectorStatus>, block: nat)
    returns (open: seq<Detector>, known: map<string, DetectorStatus>)
    requires DistinctNames(detectors)
    requires active == Survivors(detectors, block) && Recorded(detectors, statuses, block)
    ensures open == Survivors(detectors, block + 1) && Recorded(detectors, known, block + 1)
  {
    hide DistinctNames, HasStatus, Recorded, Offered, Survivors, Without, Detector.FaultBy,
      Detector.RefusalOf, Detector.FailedStatus;
    open, known := active, statuses;
    SurvivorsAreDistinct(detectors, block);
    SurvivorsStand(detectors, block);
    NoneOffered(detectors, statuses, block);
    SurvivorsOfNone(active[..0], block + 1);
    for i := 0 to |active|
      invariant open == Survivors(active[..i], block + 1) + active[i..]
      invariant Offered(detectors, active, known, i, block)
    {
      var session := active[i];
      assert session in active;
      ghost var before := known;
      OfferToOne(active, i, block);
      var refused := session.RefusalOf(block);
      if refused.Some? {
        open := Without(open, session);
        known := known[session.name := session.FailedStatus(refused.value)];
      }
      OneMoreOffered(detectors, active, i, before, known, block);
    }
    AllOffered(detectors, active, known, block);
    assert active[..|active|] == active;
    SurvivorsOfSurvivors(detectors, block);
  }

  /** The statuses after the first `i` open sessions were asked for their reports. */
  ghost predicate Settled(detectors: seq<Detector>, active: seq<Detector>,
                          statuses: map<string, DetectorStatus>, i: nat, blocks: nat)
    requires i <= |active|
  {
    forall d <- detectors :: d !in active[i..] ==> d.name in statuses && statuses[d.name] == d.FinalStatus(blocks)
  }

  lemma OthersAreSettled(detectors: seq<Detector>, statuses: map<string, DetectorStatus>, blocks: nat)
    requires Recorded(detectors, statuses, blocks)
    ensures Settled(detectors, Survivors(detectors, blocks), statuses, 0, blocks)
  {
    hide Survivors, Detector.FaultBy, Detector.FailedStatus;
    SurvivorsStand(detectors, blocks);
  }

  lemma AllSettled(detectors: seq<Detector>, active: seq<Detector>,
                   statuses: map<string, DetectorStatus>, blocks: nat)
    requires Settled(detectors, active, statuses, |active|, blocks)
    ensures forall d <- detectors :: d.name in statuses && statuses[d.name] == d.FinalStatus(blocks)
  {
  }

  lemma NothingFound(none: seq<Detector>, blocks: nat)
    requires none == []
    ensures Findings(none, blocks) == []
  {
  }

  /** One more report gives its session its final status and leaves all others alone. */
  lemma OneMoreSettled(detectors: seq<Detector>, active: seq<Detector>, i: nat,
                       before: map<string, DetectorStatus>, after: map<string, DetectorStatus>, blocks: nat)
    requires DistinctNames(detectors) && i < |active|
    requires active[i] in detectors && active[i].FaultBy(blocks).None?
    requires Settled(detectors, active, before, i, blocks)
    requires after == before[active[i].name :=
               match active[i].report
               case Success(_) => active[i].CompletedStatus()
               case Failure(fault) => active[i].FailedStatus(fault)]
    ensures Settled(detectors, active, after, i + 1, blocks)
    ensures Findings(active[..i + 1], blocks) ==
              Findings(active[..i], blocks)
              + if active[i].report.Success? then active[i].report.value else []
  {
    hide DistinctNames, Detector.FaultBy, Detector.FailedStatus;
    var session := active[i];
    assert active[..i + 1][..i] == active[..i];
    assert active[i..] == [session] + active[i + 1..];
    forall d <- detectors | d !in active[i + 1..]
      ensures d.name in after && after[d.name] == d.FinalStatus(blocks)
    {
      if d != session {
        NamesDiffer(detectors, d, session);
      }
    }
  }

  /** Ask every open session for its report. */
  method FinishSessions(detectors: seq<Detector>, active: seq<Detector>,
                        statuses: map<string, DetectorStatus>, blocks: nat)
    returns (found: seq<Observation>, known: map<string, DetectorStatus>)
    requires DistinctNames(detectors)
    requires active == Survivors(detectors, blocks) && Recorded(detectors, statuses, blocks)
    ensures found == Findings(detectors, blocks)
    ensures forall d <- detectors :: d.name in known && known[d.name] == d.FinalStatus(blocks)
  {
    hide DistinctNames, Settled, Recorded, Survivors, Findings, Detector.FinalStatus, Detector.FailedStatus,
      Detector.CompletedStatus;
    found, known := [], statuses;
    SurvivorsAreDistinct(detectors, blocks);
    SurvivorsStand(detectors, blocks);
    OthersAreSettled(detectors, statuses, blocks);
    NothingFound(active[..0], blocks);
    for i := 0 to |active|
      invariant found == Findings(active[..i], blocks)
      invariant Settled(detectors, active, known, i, blocks)
    {
      var session := active[i];
      assert session in active;
      ghost var before := known;
      match session.report {
        case Success(reported) =>
          found := found + reported;
          known := known[session.name := session.CompletedStatus()];
        case Failure(fault) =>
          known := known[session.name := session.FailedStatus(fault)];
      }
      OneMoreSettled(detectors, active, i, before, known, blocks);
    }
    AllSettled(detectors, active, known, blocks);
    assert active[..|active|] == active;
    FindingsOfSurvivors(detectors, blocks);
  }

  // ----- local signatures -----

  function LongestPattern(patterns: seq<BytePattern>): (n: nat)
    ensures n >= 1
    ensures forall s <- patterns :: |s.pattern| <= n
  {
    if patterns == [] then 1
    else
      var rest := LongestPattern(patterns[1..]);
      assert patterns == [patterns[0]] + patterns[1..];
      if |patterns[0].pattern| > rest then |patterns[0].pattern| else rest
  }

  function HashMatch(s: HashSignature): Observation {
    Observation(Sha256Signatures, s.rule, s.classification, s.severity)
  }

  function PatternMatch(s: BytePattern): Observation {
    Observation(ByteSignatures, s.rule, s.classification, s.severity)
  }

  /** The hash signatures whose digest is `sha256`, in their order. */
  function HashMatches(hashes: seq<HashSignature>, sha256: string): seq<Observation> {
    if hashes == [] then []
    else
      var s := hashes[|hashes| - 1];
      HashMatches(hashes[..|hashes| - 1], sha256) + if s.sha256 == sha256 then [HashMatch(s)] else []
  }

  /** The byte signatures whose pattern occurs anywhere in the content, in their order. */
  function PatternMatches(patterns: seq<BytePattern>, content: seq<Byte>): seq<Observation> {
    if patterns == [] then []
    else
      var s := patterns[|patterns| - 1];
      PatternMatches(patterns[..|patterns| - 1], content)
      + if Occurs(s.pattern, content) then [PatternMatch(s)] else []
  }

  /** Everything the local signatures say about a content. */
  function LocalMatches(signatures: Signatures, sha256: string, content: seq<Byte>): seq<Observation> {
    HashMatches(signatures.hashes, sha256) + PatternMatches(signatures.patterns, content)
  }

  lemma {:induction false} NoLocalMatchIff(signatures: Signatures, sha256: string, content: seq<Byte>)
    ensures LocalMatches(signatures, sha256, content) == [] <==>
              && (forall s <- signatures.hashes :: s.sha256 != sha256)
              && (forall s <- signatures.patterns :: !Occurs(s.pattern, content))
    decreases |signatures.hashes| + |signatures.patterns|
  {
    hide Occurs;
    var Signatures(hashes, patterns, version) := signatures;
    if hashes != [] {
      NoLocalMatchIff(Signatures(hashes[..|hashes| - 1], patterns, version), sha256, content);
      assert hashes == hashes[..|hashes| - 1] + [hashes[|hashes| - 1]];
    } else if patterns != [] {
      NoLocalMatchIff(Signatures(hashes, patterns[..|patterns| - 1], version), sha256, content);
      assert patterns == patterns[..|patterns| - 1] + [patterns[|patterns| - 1]];
    }
  }

  /** An observation is a local match exactly if it is that of a hash signature with this digest, or of a byte
      signature whose pattern occurs. */
  lemma {:induction false} LocalMatchesIff(signatures: Signatures, sha256: string, content: seq<Byte>, o: Observation)
    ensures o in LocalMatches(signatures, sha256, content) <==>
              || (exists s <- signatures.hashes ::
                    s.sha256 == sha256 && o == Observation(Sha256Signatures, s.rule, s.classification, s.severity))
              || (exists s <- signatures.patterns ::
                    Occurs(s.pattern, content)
                    && o == Observation(ByteSignatures, s.rule, s.classification, s.severity))
    decreases |signatures.hashes| + |signatures.patterns|
  {
    hide Occurs;
    var Signatures(hashes, patterns, version) := signatures;
    if hashes != [] {
      LocalMatchesIff(Signatures(hashes[..|hashes| - 1], patterns, version), sha256, content, o);
      assert hashes == hashes[..|hashes| - 1] + [hashes[|hashes| - 1]];
    } else if patterns != [] {
      LocalMatchesIff(Signatures(hashes, patterns[..|patterns| - 1], version), sha256, content, o);
      assert patterns == patterns[..|patterns| - 1] + [patterns[|patterns| - 1]];
    }
  }

  /** The rules recorded so far are those whose pattern occurs in what was seen. */
  ghost predicate Matched(patterns: seq<BytePattern>, rules: set<string>, seen: seq<Byte>) {
    forall s <- patterns :: s.rule in rules <==> Occurs(s.pattern, seen)
  }

  lemma NothingMatchedYet(signatures: Signatures)
    requires signatures.Valid()
    ensures Matched(signatures.patterns, {}, [])
  {
  }

  method MatchWindow(signatures: Signatures, rules: set<string>, window: seq<Byte>,
                     ghost seen: seq<Byte>, ghost block: seq<Byte>, ghost n: nat)
    returns (matched: set<string>)
    requires signatures.Valid() && forall s <- signatures.patterns :: |s.pattern| <= n + 1
    requires Matched(signatures.patterns, rules, seen) && window == Tail(seen, n) + block
    ensures Matched(signatures.patterns, matched, seen + block)
  {
    hide Occurs;
    var patterns := signatures.patterns;
    matched := rules;
    for i := 0 to |patterns|
      invariant forall j :: 0 <= j < i ==>
                  (patterns[j].rule in matched <==> Occurs(patterns[j].pattern, seen + block))
      invariant forall j :: i <= j < |patterns| ==>
                  (patterns[j].rule in matched <==> Occurs(patterns[j].pattern, seen))
    {
      WindowSuffices(patterns[i].pattern, seen, block, n);
      if patterns[i].rule !in matched && Occurs(patterns[i].pattern, window) {
        matched := matched + {patterns[i].rule};
      }
    }
  }

  method LocalObservations(signatures: Signatures, sha256: string, matched: set<string>,
                           ghost content: seq<Byte>)
    returns (found: seq<Observation>)
    requires signatures.Valid() && Matched(signatures.patterns, matched, content)
    ensures found == Take(Sort(LocalMatches(signatures, sha256, content), InOrder), MAX_OBSERVATIONS)
  {
    hide Occurs, InOrder;
    var hashes, patterns := signatures.hashes, signatures.patterns;
    found := [];
    for i := 0 to |hashes|
      invariant found == HashMatches(hashes[..i], sha256)
    {
      assert hashes[..i + 1][..i] == hashes[..i];
      if hashes[i].sha256 == sha256 {
        found := found + [HashMatch(hashes[i])];
      }
    }
    assert hashes[..|hashes|] == hashes;
    for i := 0 to |patterns|
      invariant found == HashMatches(hashes, sha256) + PatternMatches(patterns[..i], content)
    {
      assert patterns[..i + 1][..i] == patterns[..i];
      if patterns[i].rule in matched {
        found := found + [PatternMatch(patterns[i])];
      }
    }
    assert patterns[..|patterns|] == patterns;
    found := Take(Sort(found, InOrder), MAX_OBSERVATIONS);
  }

  lemma AssembledIsConsistent(r: ScanResult, incomplete: Option<DetectorStatus>)
    requires |r.resourceId| <= 64 && |r.relativePath| <= 1024 && |r.observations| <= MAX_OBSERVATIONS
    requires 1 <= |r.detectors| <= 2 && r.detectors[0].detector == "local-signatures"
    requires forall i :: 0 <= i < |r.detectors| ==> r.detectors[i].IsConsistent()
    requires |r.detectors| == 2 ==> r.detectors[1].detector == "clamd"
    requires incomplete == FirstIncomplete(r.detectors)
    requires r.status == if incomplete.Some? then Partial else Completed
    requires r.verdict == if r.observations != [] then MalwareDetected
                          else if incomplete.Some? then Unknown else NoThreatDetected
    requires r.error == if incomplete.Some? then incomplete.value.reason else None
    requires r.sha256.Some? && r.size.Some?
    ensures r.IsConsistent()
  {
    if incomplete.Some? {
      assert incomplete.value in r.detectors && incomplete.value.IsConsistent();
    }
  }

  // ----- one file -----

  function FirstIncomplete(all: seq<DetectorStatus>): (r: Option<DetectorStatus>)
    ensures r.None? <==> forall d <- all :: d.state.DetectorCompleted?
    ensures r.Some? ==> r.value in all && !r.value.state.DetectorCompleted?
  {
    if all == [] then None
    else if !all[0].state.DetectorCompleted? then Some(all[0])
    else
      assert all == [all[0]] + all[1..];
      FirstIncomplete(all[1..])
  }

  datatype Identity = Identity(device: nat, inode: nat, size: nat, modified: int)

  /** What the operating system answers about a path; `content` is what reading to the end yields. */
  datatype File =
    | Unreachable
    | NotAFile
    | CannotOpen
    | Opened(regular: bool, identity: Identity, content: seq<Byte>)

  /** How clock and operating system answer during one scan: whether the deadline has passed before
      read `k` and whether that read fails, how many bytes it is granted, and what the file is found
      to be in the end. */
  datatype Conditions = Conditions(
    late: nat -> bool, broken: nat -> bool, granted: nat -> nat, identityAfter: Option<Identity>)
  {
    function Trouble(k: nat): Option<ErrorCode> {
      if late(k) then Some(ScanTimeout) else if broken(k) then Some(ScanIoError) else None
    }
  }

  datatype Scanner = Scanner(
    roots: set<string>,
    exclusions: map<string, seq<string>>,
    signatures: Signatures,
    detectors: seq<Detector>,
    maxFileBytes: nat,
    chunkBytes: nat,
    digest: seq<Byte> -> string)
  {
    ghost predicate Valid() {
      signatures.Valid() && ValidDetectors(detectors) && maxFileBytes >= 1 && chunkBytes >= 1
    }

    /** Everything that all detectors have to say about the content. */
    ghost function AllMatches(content: seq<Byte>, blocks: nat): seq<Observation> {
      LocalMatches(signatures, digest(content), content) + Findings(detectors, blocks)
    }

    /** A result that covers the whole content: the measurements, the eight first observations in
        order, and one status for each detector. */
    ghost predicate Covers(r: ScanResult, content: seq<Byte>, blocks: nat) {
      && (r.status.Completed? || r.status.Partial?)
      && r.sha256 == Some(digest(content)) && r.size == Some(|content|)
      && r.observations == Take(Sort(AllMatches(content, blocks), InOrder), MAX_OBSERVATIONS)
      && |r.detectors| == 1 + |detectors|
      && r.detectors[0] == DetectorStatus("local-signatures", signatures.version, DetectorCompleted, None)
      && forall i :: 0 <= i < |detectors| ==> r.detectors[1 + i] == detectors[i].FinalStatus(blocks)
    }

    /** The status of the local signatures, and those of the external detectors in their order. */
    function StatusList(known: map<string, DetectorStatus>): seq<DetectorStatus>
      requires forall d <- detectors :: d.name in known
    {
      [DetectorStatus("local-signatures", signatures.version, DetectorCompleted, None)]
      + seq(|detectors|, i requires 0 <= i < |detectors| => known[detectors[i].name])
    }

    lemma StatusListIsConsistent(known: map<string, DetectorStatus>, blocks: nat)
      requires ValidDetectors(detectors)
      requires forall d <- detectors :: d.name in known && known[d.name] == d.FinalStatus(blocks)
      ensures var all := StatusList(known);
              && 1 <= |all| <= 2
              && all[0] == DetectorStatus("local-signatures", signatures.version, DetectorCompleted, None)
              && |all| == 1 + |detectors|
              && (|all| == 2 ==> all[1].detector == "clamd")
              && (forall i :: 0 <= i < |all| ==> all[i].IsConsistent())
              && (forall i :: 0 <= i < |detectors| ==> all[1 + i] == detectors[i].FinalStatus(blocks))
    {
      AtMostOneDetector(detectors);
    }

    /** Finish the sessions and assemble the result. */
    method Report(resourceId: string, path: string, content: seq<Byte>, matched: set<string>,
                  active: seq<Detector>, statuses: map<string, DetectorStatus>, blocks: nat)
      returns (r: ScanResult)
      requires Valid() && |resourceId| <= 64 && |path| <= 1024
      requires Matched(signatures.patterns, matched, content)
      requires active == Survivors(detectors, blocks) && Recorded(detectors, statuses, blocks)
      ensures r.IsConsistent() && Covers(r, content, blocks) && !r.status.Rejected?
    {
      hide ScanResult.IsConsistent, ScanResult.AllCompleted, DetectorStatus.IsConsistent, StatusList,
        FirstIncomplete, DistinctNames, Signatures.Valid, Detector.FinalStatus, Matched, Recorded,
        Survivors, Findings, LocalMatches, InOrder, Sort;
      var found, known := FinishSessions(detectors, active, statuses, blocks);
      var sha256 := digest(content);
      var local := LocalObservations(signatures, sha256, matched, content);
      var observations := Take(Sort(local + found, InOrder), MAX_OBSERVATIONS);
      AtMostOneDetector(detectors);
      InOrderIsOrder();
      EarlyCutIsHarmless(LocalMatches(signatures, sha256, content), found, MAX_OBSERVATIONS, InOrder);
      var all := StatusList(known);
      StatusListIsConsistent(known, blocks);
      var incomplete := FirstIncomplete(all);
      r := ScanResult(
        resourceId, path,
        if incomplete.Some? then Partial else Completed,
        if observations != [] then MalwareDetected
        else if incomplete.Some? then Unknown else NoThreatDetected,
        if incomplete.Some? then incomplete.value.reason else None,
        Some(sha256), Some(|content|), observations, all);
      AssembledIsConsistent(r, incomplete);
    }

    // ----- reading -----

    /** How many bytes the first `k` reads have delivered; nothing is read beyond the bound. */
    function TotalAfter(content: seq<Byte>, c: Conditions, k: nat): (total: nat)
      requires chunkBytes >= 1
      ensures total <= |content| && total <= maxFileBytes + 1
    {
      if k == 0 then 0
      else
        var before := TotalAfter(content, c, k - 1);
        if before > maxFileBytes then before
        else
          before + |NextBlock(content[before..], c.granted(k - 1), Smaller(chunkBytes, maxFileBytes - before + 1))|
    }

    /** Read `k` meets no trouble, delivers something and stays within the bound. */
    predicate GoesOn(content: seq<Byte>, c: Conditions, k: nat)
      requires chunkBytes >= 1
    {
      && c.Trouble(k).None? && TotalAfter(content, c, k) < |content|
      && TotalAfter(content, c, k + 1) <= maxFileBytes
    }

    /** Read `k` is made. */
    ghost predicate Reached(content: seq<Byte>, c: Conditions, k: nat)
      requires chunkBytes >= 1
    {
      forall j :: 0 <= j < k ==> GoesOn(content, c, j)
    }

    /** Read `k` is the last: it meets trouble, it finds the end, or it exceeds the bound. */
    ghost predicate EndsAt(content: seq<Byte>, c: Conditions, k: nat)
      requires chunkBytes >= 1
    {
      Reached(content, c, k) && !GoesOn(content, c, k)
    }

    lemma LastReadIsUnique(content: seq<Byte>, c: Conditions, k: nat, l: nat)
      requires chunkBytes >= 1 && EndsAt(content, c, k) && EndsAt(content, c, l)
      ensures k == l
    {
    }

    /** A scan that meets no trouble reads to the end, or to the first byte beyond the bound. */
    lemma BytesReadInTheEnd(content: seq<Byte>, c: Conditions, k: nat)
      requires chunkBytes >= 1 && EndsAt(content, c, k) && c.Trouble(k).None?
      ensures TotalAfter(content, c, k) == |content| <==> |content| <= maxFileBytes
      ensures k <= |content|
    {
      hide TotalAfter, Conditions.Trouble;
      NextRead(content, c, k);
      ReadsDeliver(content, c, k);
    }

    lemma BlockIsNext(content: seq<Byte>, total: nat, block: seq<Byte>)
      requires total <= |content| && block <= content[total..]
      ensures total + |block| <= |content| && content[..total] + block == content[..total + |block|]
      ensures block == [] <==> content[..total + |block|] == content[..total]
    {
    }

    lemma {:induction false} ReadsDeliver(content: seq<Byte>, c: Conditions, k: nat)
      requires chunkBytes >= 1 && Reached(content, c, k)
      ensures k <= TotalAfter(content, c, k) <= maxFileBytes
    {
      hide TotalAfter, Conditions.Trouble;
      NothingReadYet(content, c);
      if k > 0 {
        ReadsDeliver(content, c, k - 1);
        NextRead(content, c, k - 1);
        assert GoesOn(content, c, k - 1);
      }
    }

    lemma NothingReadYet(content: seq<Byte>, c: Conditions)
      requires chunkBytes >= 1
      ensures TotalAfter(content, c, 0) == 0
    {
    }

    lemma NextRead(content: seq<Byte>, c: Conditions, k: nat)
      requires chunkBytes >= 1
      ensures var before, after := TotalAfter(content, c, k), TotalAfter(content, c, k + 1);
              && before <= after
              && (before <= maxFileBytes && before < |content| ==> before < after)
              && (before <= maxFileBytes ==>
                    after - before ==
                    |NextBlock(content[before..], c.granted(k), Smaller(chunkBytes, maxFileBytes - before + 1))|)
    {
    }

    /** Why a scan whose last read is `k` fails, if it does. */
    function Failure(file: File, c: Conditions, k: nat): Option<ErrorCode>
      requires chunkBytes >= 1 && file.Opened?
    {
      if c.Trouble(k).Some? then c.Trouble(k)
      else if TotalAfter(file.content, c, k) < |file.content| then None
      else if c.identityAfter.None? then Some(ScanIoError)
      else if c.identityAfter.value != file.identity || |file.content| != c.identityAfter.value.size then
        Some(FileChangedDuringScan)
      else None
    }

    /** What the scan of a file that was reached answers; `k` is its last read. */
    ghost predicate IsScanOf(r: ScanResult, resourceId: string, path: string, file: File, c: Conditions, k: nat)
      requires chunkBytes >= 1
    {
      match file
      case Unreachable => r == RejectedResult(ResourceNotAccessible, resourceId, path)
      case NotAFile => r == RejectedResult(NotRegularFile, resourceId, path)
      case CannotOpen => r == FailedResult(ScanIoError, resourceId, path)
      case Opened(regular, identity, content) =>
        if !regular then r == RejectedResult(NotRegularFile, resourceId, path)
        else if identity.size > maxFileBytes then r == RejectedResult(FileTooLarge, resourceId, path)
        else
          && EndsAt(content, c, k)
          && match Failure(file, c, k)
             case Some(error) => r == FailedResult(error, resourceId, path)
             case None =>
               if |content| > maxFileBytes then r == RejectedResult(FileTooLarge, resourceId, path)
               else Covers(r, content, k)
    }

    /** The loop state after `count` reads. */
    ghost predicate HasRead(content: seq<Byte>, c: Conditions, count: nat, total: nat, digested: seq<Byte>)
      requires chunkBytes >= 1
    {
      && Reached(content, c, count) && total == TotalAfter(content, c, count) <= maxFileBytes
      && total <= |content| && digested == content[..total]
    }

    lemma OneMoreRead(content: seq<Byte>, c: Conditions, count: nat, total: nat, digested: seq<Byte>,
                      block: seq<Byte>)
      requires chunkBytes >= 1 && HasRead(content, c, count, total, digested) && c.Trouble(count).None?
      requires block == NextBlock(content[total..], c.granted(count), Smaller(chunkBytes, maxFileBytes - total + 1))
      ensures block == [] ==> EndsAt(content, c, count) && digested == content
      ensures block != [] && total + |block| > maxFileBytes ==> EndsAt(content, c, count) && |content| > maxFileBytes
      ensures block != [] && total + |block| <= maxFileBytes ==>
                HasRead(content, c, count + 1, total + |block|, digested + block)
    {
      hide TotalAfter, Conditions.Trouble;
      NextRead(content, c, count);
      BlockIsNext(content, total, block);
      if block != [] && total + |block| <= maxFileBytes {
        ReachedOneMore(content, c, count);
      }
    }

    lemma ReachedOneMore(content: seq<Byte>, c: Conditions, k: nat)
      requires chunkBytes >= 1 && Reached(content, c, k) && c.Trouble(k).None?
      requires TotalAfter(content, c, k) < |content| && TotalAfter(content, c, k + 1) <= maxFileBytes
      ensures Reached(content, c, k + 1)
    {
      hide TotalAfter, Conditions.Trouble;
    }

    /** Read the file to its end in blocks of any size, feeding every block to every detector. */
    method ScanOpenFile(resourceId: string, path: string, file: File, c: Conditions)
      returns (r: ScanResult, ghost last: nat, ghost bytesRead: nat)
      requires Valid() && (file.Opened? || file.CannotOpen?)
      requires |resourceId| <= 64 && |path| <= 1024
      ensures r.IsConsistent() && IsScanOf(r, resourceId, path, file, c, last)
      ensures bytesRead <= maxFileBytes + 1
      ensures r.status.Completed? || r.status.Partial? ==>
                c.identityAfter == Some(file.identity) && |file.content| == file.identity.size
    {
      hide ScanResult.IsConsistent, Covers, DistinctNames, Matched, Recorded, HasStatus, Survivors, Tail,
        EndsAt, HasRead, TotalAfter;
      last, bytesRead := 0, 0;
      if file.CannotOpen? {
        return FailedResult(ScanIoError, resourceId, path), last, bytesRead;
      }
      if !file.regular {
        return RejectedResult(NotRegularFile, resourceId, path), last, bytesRead;
      }
      if file.identity.size > maxFileBytes {
        return RejectedResult(FileTooLarge, resourceId, path), last, bytesRead;
      }
      ghost var content := file.content;
      var digested, overlap, total, count := [], [], 0, 0;
      var matched: set<string> := {};
      var active, statuses := BeginSessions(detectors);
      var longest := LongestPattern(signatures.patterns);
      NothingMatchedYet(signatures);
      NothingRead(content, c);
      while true
        invariant HasRead(content, c, count, total, digested) && bytesRead == total
        invariant overlap == Tail(digested, longest - 1)
        invariant Matched(signatures.patterns, matched, digested)
        invariant active == Survivors(detectors, count) && Recorded(detectors, statuses, count)
        decreases |content| - total
      {
        last := count;
        ReadSoFar(content, c, count, total, digested);
        if c.late(count) {
          return FailedResult(ScanTimeout, resourceId, path), last, bytesRead;
        }
        if c.broken(count) {
          return FailedResult(ScanIoError, resourceId, path), last, bytesRead;
        }
        var block := NextBlock(file.content[total..], c.granted(count), Smaller(chunkBytes, maxFileBytes - total + 1));
        OneMoreRead(content, c, count, total, digested, block);
        if block == [] {
          break;
        }
        total := total + |block|;
        bytesRead := total;
        if total > maxFileBytes {
          return RejectedResult(FileTooLarge, resourceId, path), last, bytesRead;
        }
        ghost var seen := digested;
        digested := digested + block;
        active, statuses := FeedSessions(detectors, active, statuses, count);
        count := count + 1;
        var window := overlap + block;
        matched := MatchWindow(signatures, matched, window, seen, block, longest - 1);
        TailOfWindow(seen, block, longest - 1);
        overlap := if longest > 1 then Tail(window, longest - 1) else [];
        ReadSoFar(content, c, count, total, digested);
      }
      if c.identityAfter.None? {
        return FailedResult(ScanIoError, resourceId, path), last, bytesRead;
      }
      if c.identityAfter.value != file.identity || total != c.identityAfter.value.size {
        return FailedResult(FileChangedDuringScan, resourceId, path), last, bytesRead;
      }
      r := Report(resourceId, path, digested, matched, active, statuses, count);
    }

    lemma NothingRead(content: seq<Byte>, c: Conditions)
      requires chunkBytes >= 1
      ensures HasRead(content, c, 0, 0, [])
    {
    }

    lemma ReadSoFar(content: seq<Byte>, c: Conditions, count: nat, total: nat, digested: seq<Byte>)
      requires chunkBytes >= 1 && HasRead(content, c, count, total, digested)
      ensures total == TotalAfter(content, c, count) == |digested| <= |content| && total <= maxFileBytes
      ensures digested == content[..total]
      ensures c.Trouble(count).Some? ==> EndsAt(content, c, count)
    {
    }

    /** The scan of a file fails exactly on these answers. */
    ghost predicate Fails(file: File, c: Conditions)
      requires chunkBytes >= 1
    {
      file.CannotOpen?
      || (file.Opened? && file.regular && file.identity.size <= maxFileBytes
          && exists k :: EndsAt(file.content, c, k) && Failure(file, c, k).Some?)
    }

    lemma FailsIff(r: ScanResult, resourceId: string, path: string, file: File, c: Conditions, k: nat)
      requires chunkBytes >= 1 && IsScanOf(r, resourceId, path, file, c, k)
      ensures r.status.Failed? <==> Fails(file, c)
    {
      hide EndsAt;
      if Fails(file, c) && file.Opened? {
        var l :| EndsAt(file.content, c, l) && Failure(file, c, l).Some?;
        LastReadIsUnique(file.content, c, k, l);
      }
    }

    /** Which refusal the scan of a file gives, and when it covers the file. */
    lemma RefusalsIff(r: ScanResult, resourceId: string, path: string, file: File, c: Conditions, k: nat)
      requires chunkBytes >= 1 && IsScanOf(r, resourceId, path, file, c, k)
      ensures r.status.Rejected? ==> r.error in {Some(ResourceNotAccessible), Some(NotRegularFile), Some(FileTooLarge)}
      ensures IsRefusal(r, ResourceNotAccessible) <==> file.Unreachable?
      ensures IsRefusal(r, NotRegularFile) <==> file.NotAFile? || (file.Opened? && !file.regular)
      ensures IsRefusal(r, FileTooLarge) <==>
                && file.Opened? && file.regular
                && (file.identity.size > maxFileBytes || (|file.content| > maxFileBytes && !r.status.Failed?))
      ensures r.status.Completed? || r.status.Partial? ==> file.Opened? && Covers(r, file.content, k)
    {
      hide EndsAt, Failure;
    }

    /** All reads up to read `k` are in time and granted. */
    ghost predicate Smooth(c: Conditions, k: nat) {
      forall j :: 0 <= j <= k ==> !c.late(j) && !c.broken(j)
    }

    /** The file is what it was when it was opened, and as long as what was read. */
    ghost predicate Unchanged(file: File, c: Conditions) {
      file.Opened? && c.identityAfter == Some(file.identity) && |file.content| == file.identity.size
    }

    /** The scan of a regular file whose announced size is within the bound, with `k` its last read. */
    ghost predicate IsRead(file: File) {
      file.Opened? && file.regular && file.identity.size <= maxFileBytes
    }

    /** Which failure a scan reports, in terms of its answers: a timeout if the deadline had passed at
        its last read; an I/O error if the file could not be opened, that read failed, or the final
        status could not be had; a change if that status differs. A file that is covered has not changed. */
    lemma FailuresIff(r: ScanResult, resourceId: string, path: string, file: File, c: Conditions, k: nat)
      requires chunkBytes >= 1 && IsScanOf(r, resourceId, path, file, c, k)
      ensures r.error == Some(ScanTimeout) && r.status.Failed? <==> IsRead(file) && c.late(k)
      ensures r.error == Some(FileChangedDuringScan) && r.status.Failed? <==>
                && IsRead(file) && |file.content| <= maxFileBytes && Smooth(c, k)
                && c.identityAfter.Some?
                && (c.identityAfter.value != file.identity || |file.content| != c.identityAfter.value.size)
      ensures r.error == Some(ScanIoError) && r.status.Failed? <==>
                || file.CannotOpen?
                || (IsRead(file) && !c.late(k) && c.broken(k))
                || (IsRead(file) && |file.content| <= maxFileBytes && Smooth(c, k) && c.identityAfter.None?)
      ensures r.status.Completed? || r.status.Partial? <==>
                IsRead(file) && |file.content| <= maxFileBytes && Smooth(c, k) && Unchanged(file, c)
      ensures r.status.Failed? ==> r.error in {Some(ScanTimeout), Some(ScanIoError), Some(FileChangedDuringScan)}
    {
      hide TotalAfter;
      if IsRead(file) {
        forall j | 0 <= j < k ensures !c.late(j) && !c.broken(j) {
          assert GoesOn(file.content, c, j);
        }
        assert Smooth(c, k) <==> c.Trouble(k).None?;
        if c.Trouble(k).None? {
          BytesReadInTheEnd(file.content, c, k);
        }
      }
    }

    /** With a clock, reads and a writer that cause no trouble, the scan of a regular file within the
        bound covers its content. */
    lemma UndisturbedScanCovers(r: ScanResult, resourceId: string, path: string, file: File, c: Conditions, k: nat)
      requires chunkBytes >= 1 && IsScanOf(r, resourceId, path, file, c, k)
      requires file.Opened? && file.regular && |file.content| == file.identity.size <= maxFileBytes
      requires c.identityAfter == Some(file.identity)
      requires forall j :: 0 <= j <= |file.content| ==> c.Trouble(j).None?
      ensures Covers(r, file.content, k)
    {
      hide TotalAfter, Covers;
      ReadsDeliver(file.content, c, k);
      assert c.Trouble(k).None?;
    }

    /** How `Scan` answers: refusals first, and otherwise the scan of the file at the path. */
    ghost predicate Answers(r: ScanResult, resourceId: string, relativePath: string, file: File, c: Conditions,
                            k: nat)
      requires chunkBytes >= 1
    {
      if !IsResourceId(resourceId) then
        r == RejectedResult(InvalidResourceId, "", NormalizeRelativePath(relativePath))
      else if resourceId !in roots then
        r == RejectedResult(ResourceNotAvailable, resourceId, NormalizeRelativePath(relativePath))
      else if NormalizeRelativePath(relativePath) == "" then r == RejectedResult(InvalidRelativePath, resourceId, "")
      else if IsExcludedText(relativePath, Exclusions(resourceId)) then
        r == RejectedResult(ProtectedPath, resourceId, relativePath)
      else IsScanOf(r, resourceId, relativePath, file, c, k)
    }

    /** Scan one file below a provisioned root; `find` is what the operating system has at the path. */
    method Scan(resourceId: string, relativePath: string, find: (string, string) -> File, c: Conditions)
      returns (r: ScanResult, ghost last: nat)
      requires Valid() && forall root <- roots :: IsResourceId(root)
      ensures r.IsConsistent() && Answers(r, resourceId, relativePath, find(resourceId, relativePath), c, last)
      ensures IsRefusal(r, InvalidResourceId) <==> !IsResourceId(resourceId)
      ensures IsRefusal(r, ResourceNotAvailable) <==> IsResourceId(resourceId) && resourceId !in roots
      ensures IsRefusal(r, InvalidRelativePath) <==> resourceId in roots && NormalizeRelativePath(relativePath) == ""
      ensures IsRefusal(r, ProtectedPath) <==>
                && resourceId in roots && NormalizeRelativePath(relativePath) != ""
                && IsExcludedText(relativePath, Exclusions(resourceId))
      ensures resourceId in roots && NormalizeRelativePath(relativePath) != ""
              && !IsExcludedText(relativePath, Exclusions(resourceId)) ==>
                var file := find(resourceId, relativePath);
                && NormalizeRelativePath(relativePath) == relativePath
                && (IsRefusal(r, ResourceNotAccessible) <==> file.Unreachable?)
                && (IsRefusal(r, NotRegularFile) <==> file.NotAFile? || (file.Opened? && !file.regular))
                && (IsRefusal(r, FileTooLarge) <==>
                    && file.Opened? && file.regular
                    && (file.identity.size > maxFileBytes || (|file.content| > maxFileBytes && !r.status.Failed?)))
                && (r.status.Failed? <==> Fails(file, c))
                && (r.status.Completed? || r.status.Partial? ==>
                      && file.Opened? && Covers(r, file.content, last)
                      && c.identityAfter == Some(file.identity) && |file.content| == file.identity.size)
                // Why it fails, in terms of clock, reads and final status.
                && (r.status.Failed? && r.error == Some(ScanTimeout) <==> IsRead(file) && c.late(last))
                && (r.status.Failed? && r.error == Some(FileChangedDuringScan) <==>
                    && IsRead(file) && |file.content| <= maxFileBytes && Smooth(c, last)
                    && c.identityAfter.Some?
                    && (c.identityAfter.value != file.identity || |file.content| != c.identityAfter.value.size))
                && (r.status.Failed? && r.error == Some(ScanIoError) <==>
                    || file.CannotOpen?
                    || (IsRead(file) && !c.late(last) && c.broken(last))
                    || (IsRead(file) && |file.content| <= maxFileBytes && Smooth(c, last) && c.identityAfter.None?))
    {
      hide ScanResult.IsConsistent, Covers, Valid, IsExcludedText, NormalizeRelativePath, Fails, EndsAt, Failure,
        Smooth, IsRead;
      StartsValid();
      var normalized := NormalizeRelativePath(relativePath);
      NormalizedIsItself(relativePath);
      last := 0;
      if !IsResourceId(resourceId) {
        return RejectedResult(InvalidResourceId, "", normalized), last;
      }
      if resourceId !in roots {
        return RejectedResult(ResourceNotAvailable, resourceId, normalized), last;
      }
      if normalized == "" {
        return RejectedResult(InvalidRelativePath, resourceId, ""), last;
      }
      if IsExcludedText(normalized, Exclusions(resourceId)) {
        return RejectedResult(ProtectedPath, resourceId, normalized), last;
      }
      var file := find(resourceId, normalized);
      match file {
        case Unreachable => r := RejectedResult(ResourceNotAccessible, resourceId, normalized);
        case NotAFile => r := RejectedResult(NotRegularFile, resourceId, normalized);
        case _ =>
          ghost var bytesRead;
          r, last, bytesRead := ScanOpenFile(resourceId, normalized, file, c);
      }
      FailsIff(r, resourceId, normalized, file, c, last);
      RefusalsIff(r, resourceId, normalized, file, c, last);
      FailuresIff(r, resourceId, normalized, file, c, last);
    }

    lemma StartsValid()
      requires Valid()
      ensures chunkBytes >= 1
    {
    }

    /** Only a covered file is found free of threats. */
    lemma NoThreatCovers(r: ScanResult, resourceId: string, relativePath: string, file: File, c: Conditions, k: nat)
      requires chunkBytes >= 1 && Answers(r, resourceId, relativePath, file, c, k) && r.verdict.NoThreatDetected?
      ensures resourceId in roots && NormalizeRelativePath(relativePath) != ""
      ensures !IsExcludedText(relativePath, Exclusions(resourceId))
      ensures file.Opened? && file.regular && |file.content| <= maxFileBytes && Covers(r, file.content, k)
    {
      hide Covers, EndsAt, TotalAfter, IsExcludedText, NormalizeRelativePath;
    }

    function Exclusions(resourceId: string): seq<string> {
      if resourceId in exclusions then exclusions[resourceId] else []
    }

    // ----- what the verdict means -----

    lemma CoverageDecidesVerdict(r: ScanResult, content: seq<Byte>, blocks: nat)
      requires Valid() && r.IsConsistent() && Covers(r, content, blocks)
      ensures r.verdict.MalwareDetected? <==> AllMatches(content, blocks) != []
      ensures r.status.Completed? <==> forall d <- detectors :: d.Outcome(blocks).Success?
    {
      hide LocalMatches, Findings, InOrder;
      InOrderIsOrder();
      SortSorts(AllMatches(content, blocks), InOrder);
      forall i | 0 <= i < |detectors|
        ensures r.detectors[1 + i].state.DetectorCompleted? <==> detectors[i].Outcome(blocks).Success?
      {
      }
      if r.AllCompleted() {
        forall d <- detectors ensures d.Outcome(blocks).Success? {
          var i :| 0 <= i < |detectors| && detectors[i] == d;
          assert r.detectors[1 + i] in r.detectors;
        }
      } else {
        var i :| 0 <= i < |r.detectors| && !r.detectors[i].state.DetectorCompleted?;
        assert !detectors[i - 1].Outcome(blocks).Success?;
      }
    }

    /** A covering result answers "no threat" exactly when no hash signature has the digest of the
        content, no pattern occurs anywhere in it, and every external detector ran to its end and
        found nothing. */
    lemma NoThreatIff(r: ScanResult, content: seq<Byte>, blocks: nat)
      requires Valid() && r.IsConsistent() && Covers(r, content, blocks)
      ensures r.verdict.NoThreatDetected? <==>
                && (forall s <- signatures.hashes :: s.sha256 != digest(content))
                && (forall s <- signatures.patterns :: !Occurs(s.pattern, content))
                && (forall d <- detectors :: d.Outcome(blocks) == Success([]))
    {
      CoverageDecidesVerdict(r, content, blocks);
      NoLocalMatchIff(signatures, digest(content), content);
      NoFindingIff(detectors, blocks);
    }
  }

  const RESOURCE_START := "abcdefghijklmnopqrstuvwxyz"
  const RESOURCE_CHARACTERS := "abcdefghijklmnopqrstuvwxyz0123456789_.-"

  predicate IsResourceId(id: string) {
    1 <= |id| <= 64 && id[0] in RESOURCE_START && forall c <- id :: c in RESOURCE_CHARACTERS
  }

  /** A resource is named by 1 to 64 lower-case letters, digits, underscores, dots and hyphens, with a letter
      first. */
  lemma ResourceIdIff(id: string)
    ensures IsResourceId(id) <==>
              && 0 < |id| < 65 && 'a' <= id[0] <= 'z'
              && forall i :: 0 <= i < |id| ==>
                   'a' <= id[i] <= 'z' || '0' <= id[i] <= '9' || id[i] == '_' || id[i] == '.' || id[i] == '-'
  {
    forall c ensures c in RESOURCE_START <==> 'a' <= c <= 'z' {
      LetterAt(c);
    }
    forall c ensures c in RESOURCE_CHARACTERS <==>
      'a' <= c <= 'z' || '0' <= c <= '9' || c == '_' || c == '.' || c == '-'
    {
      CharacterAt(c);
    }
    assert forall i :: 0 <= i < |id| ==> id[i] in id;
  }

  lemma LetterAt(c: char)
    ensures c in RESOURCE_START <==> 'a' <= c <= 'z'
  {
    if 'a' <= c <= 'z' {
      assert RESOURCE_START[(c - 'a') as int] == c;
    }
  }

  lemma CharacterAt(c: char)
    ensures c in RESOURCE_CHARACTERS <==>
              'a' <= c <= 'z' || '0' <= c <= '9' || c == '_' || c == '.' || c == '-'
  {
    LetterAt(c);
    OtherAt(c);
    assert RESOURCE_CHARACTERS == RESOURCE_START + "0123456789_.-";
  }

  lemma OtherAt(c: char)
    ensures c in "0123456789_.-" <==> '0' <= c <= '9' || c == '_' || c == '.' || c == '-'
  {
    var others := "0123456789_.-";
    if '0' <= c <= '9' {
      assert others[(c - '0') as int] == c;
    } else {
      assert others[10] == '_' && others[11] == '.' && others[12] == '-';
    }
  }

  lemma {:induction false} NoFindingIff(detectors: seq<Detector>, blocks: nat)
    ensures Findings(detectors, blocks) == [] <==>
              forall d <- detectors :: d.Outcome(blocks).Success? ==> d.Outcome(blocks) == Success([])
  {
    if detectors != [] {
      var rest, d := detectors[..|detectors| - 1], detectors[|detectors| - 1];
      NoFindingIff(rest, blocks);
      assert detectors == rest + [d];
    }
  }

  predicate IsRefusal(r: ScanResult, error: ErrorCode) {
    r.status.Rejected? && r.error == Some(error)
  }

  /** A read of at most `limit` bytes yields between one and `limit` of them, or none at the end. */
  function NextBlock(rest: seq<Byte>, granted: nat, limit: nat): (block: seq<Byte>)
    requires limit > 0
    ensures block <= rest && |block| <= limit && (block == [] <==> rest == [])
  {
    var size := if granted == 0 then 1 else Smaller(granted, limit);
    rest[..Smaller(size, |rest|)]
  }

  function Smaller(a: nat, b: nat): nat {
    if a < b then a else b
  }
}
