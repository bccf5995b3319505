/** Quick and full scan campaigns over one resource, and jobs over several scopes. */
module Campaigns {
  import opened Wrappers
  import opened Sorting
  import opened ScanContracts
  import opened ScanScopes
  import opened Candidates
  import opened CandidateFiles
  import opened VisitedDirectories

  const MAX_RETURNED_FINDING_IDS: nat := 64

  const ENTRIES_PER_FILE: nat := 8

  datatype Profile = Profile(maxFiles: nat, maxTotalBytes: nat, maxDepth: nat)

  datatype Counts = Counts(files: nat, bytes: nat, threats: nat, unknown: nat, skipped: nat) {
    predicate AtMost(other: Counts) {
      files <= other.files && bytes <= other.bytes && threats <= other.threats
      && unknown <= other.unknown && skipped <= other.skipped
    }

    function Plus(other: Counts): Counts {
      Counts(files + other.files, bytes + other.bytes, threats + other.threats,
             unknown + other.unknown, skipped + other.skipped)
    }
  }

  const NO_COUNTS := Counts(0, 0, 0, 0, 0)

  ghost predicate NeverFalls(reports: seq<Counts>) {
    forall i, j :: 0 <= i < j < |reports| ==> reports[i].AtMost(reports[j])
  }

  ghost predicate Within(reports: seq<Counts>, c: Counts) {
    NeverFalls(reports) && forall report <- reports :: report.AtMost(c)
  }

  lemma OneMoreReport(reports: seq<Counts>, before: Counts, after: Counts)
    requires Within(reports, before) && before.AtMost(after)
    ensures Within(reports, after) && Within(reports + [after], after)
  {
  }

  datatype CampaignStatus = CampaignCompleted | CampaignPartial | CampaignCancelled | CampaignRejected

  datatype CampaignError =
    | ResourceUnknown | InvalidScanMode | DirectoryNotAvailable | ProtectedDirectory
    | ProfileLimitReached | ScanCancelled | ScanIncomplete

  datatype CampaignResult = CampaignResult(
    status: CampaignStatus,
    verdict: Verdict,
    error: Option<CampaignError>,
    counts: Counts,
    findingIds: seq<int>)
  {
    /** How verdict, status and counters of a campaign hang together. */
    predicate IsConsistent() {
      && (verdict.MalwareDetected? <==> counts.threats > 0)
      && (verdict.NoThreatDetected? <==> status.CampaignCompleted? && counts.threats == 0)
      && (status.CampaignCompleted? ==> counts.unknown == 0 && error.None?)
      && (!status.CampaignCompleted? ==> error.Some?)
      && |findingIds| <= MAX_RETURNED_FINDING_IDS
    }
  }

  function RejectedCampaign(error: CampaignError): (r: CampaignResult)
    ensures r.IsConsistent()
  {
    CampaignResult(CampaignRejected, Unknown, Some(error), NO_COUNTS, [])
  }

  /** The result that the counters call for. */
  function Conclude(counts: Counts, ids: seq<int>, cancelled: bool, limited: bool): (r: CampaignResult)
    ensures |ids| <= MAX_RETURNED_FINDING_IDS ==> r.IsConsistent()
    ensures r.counts == counts && r.findingIds == ids && !r.status.CampaignRejected?
    ensures r.status.CampaignCancelled? <==> cancelled
    ensures r.verdict.NoThreatDetected? <==>
              !cancelled && !limited && counts.threats == 0 && counts.unknown == 0
    ensures r.verdict.MalwareDetected? <==> counts.threats > 0
    ensures r.error.None? || r.error.value in {ProfileLimitReached, ScanCancelled, ScanIncomplete}
    ensures r.error == Some(ProfileLimitReached) <==> limited
    ensures r.error == Some(ScanCancelled) <==> cancelled && !limited
    ensures r.status.CampaignCompleted? <==> !cancelled && !limited && counts.unknown == 0
    ensures r.error == Some(ScanIncomplete) <==> !cancelled && !limited && counts.unknown > 0
    ensures r.verdict.Unknown? <==> counts.threats == 0 && !r.status.CampaignCompleted?
  {
    var status := if cancelled then CampaignCancelled
                  else if limited || counts.unknown > 0 then CampaignPartial
                  else CampaignCompleted;
    CampaignResult(
      status,
      if counts.threats > 0 then MalwareDetected
      else if !status.CampaignCompleted? then Unknown else NoThreatDetected,
      if limited then Some(ProfileLimitReached)
      else if cancelled then Some(ScanCancelled)
      else if counts.unknown > 0 then Some(ScanIncomplete) else None,
      counts, ids)
  }

  /** Why the loop over the candidates ended. */
  datatype Stop = RanThrough | WasCancelled | Limited

  /** The answers of clock and user during one campaign: whether it is cancelled before candidate `i`,
      and whether the deadline has passed when that candidate could be scanned. */
  datatype CampaignClock = CampaignClock(walk: WalkClock, cancelled: nat -> bool, late: nat -> bool)

  /** Something about a candidate that is counted. */
  datatype Aspect = Scanned | FoundMalware | LeftUnknown | NotScanned

  /** One campaign; `scan` and `record` are the scanner and the store of findings it delegates to. */
  datatype Campaign = Campaign(
    profile: Profile,
    prefix: string,
    walk: Walk,
    scan: string -> ScanResult,
    record: ScanResult -> seq<int>)
  {
    ghost predicate Valid() {
      && walk.maxDepth == profile.maxDepth && walk.maxEntries == profile.maxFiles * ENTRIES_PER_FILE
      && forall path :: scan(path).IsConsistent()
    }

    function CandidatePath(path: seq<Name>): string {
      if prefix == "" then Join(path) else prefix + "/" + Join(path)
    }

    function ScanOf(y: Yield): ScanResult
      requires y.File?
    {
      scan(CandidatePath(y.path))
    }

    // ----- what the counters stand for -----

    function Counted(c: Counts, y: Yield): Counts {
      match y
      case LimitReached => c
      case Skipped => c.(unknown := c.unknown + 1, skipped := c.skipped + 1)
      case File(_, _) =>
        var r := ScanOf(y);
        Counts(
          c.files + 1,
          c.bytes + (if r.size.Some? then r.size.value else 0),
          c.threats + (if r.verdict.MalwareDetected? then 1 else 0),
          c.unknown + (if r.verdict.Unknown? then 1 else 0),
          c.skipped + (if r.status.Rejected? then 1 else 0))
    }

    /** The counters after the first candidates were dealt with. */
    function Tally(ys: seq<Yield>): Counts {
      if ys == [] then NO_COUNTS else Counted(Tally(ys[..|ys| - 1]), ys[|ys| - 1])
    }

    /** All findings recorded for the first candidates. */
    function Recorded(ys: seq<Yield>): seq<int> {
      if ys == [] then []
      else
        var last := ys[|ys| - 1];
        Recorded(ys[..|ys| - 1])
        + if last.File? && ScanOf(last).verdict.MalwareDetected? then record(ScanOf(last)) else []
    }

    predicate HasRoom(c: Counts, y: Yield) {
      y.File? ==> c.files < profile.maxFiles && c.bytes + y.size <= profile.maxTotalBytes
    }

    /** Each file among the first candidates was admitted by the bounds when its turn came. */
    ghost predicate Admitted(ys: seq<Yield>) {
      forall i :: 0 <= i < |ys| ==> HasRoom(Tally(ys[..i]), ys[i])
    }

    ghost predicate AllClean(ys: seq<Yield>) {
      forall y <- ys :: y.File? && ScanOf(y).verdict.NoThreatDetected?
    }

    ghost predicate SomeMalware(ys: seq<Yield>) {
      exists y <- ys :: y.File? && ScanOf(y).verdict.MalwareDetected?
    }

    lemma NothingDealt()
      ensures Tally([]) == NO_COUNTS && Recorded([]) == [] && AllClean([]) && Within([], NO_COUNTS)
      ensures !SomeMalware([])
    {
    }

    lemma OneMoreDealt(ys: seq<Yield>, y: Yield)
      ensures Tally(ys + [y]) == Counted(Tally(ys), y)
      ensures Recorded(ys + [y]) ==
                Recorded(ys) + if y.File? && ScanOf(y).verdict.MalwareDetected? then record(ScanOf(y)) else []
      ensures AllClean(ys + [y]) <==> AllClean(ys) && y.File? && ScanOf(y).verdict.NoThreatDetected?
      ensures SomeMalware(ys + [y]) <==> SomeMalware(ys) || (y.File? && ScanOf(y).verdict.MalwareDetected?)
    {
      hide Counted, ScanOf;
      var more := ys + [y];
      assert more[..|more| - 1] == ys;
      assert y in more && forall x <- ys :: x in more;
    }

    lemma CountersRise(c: Counts, y: Yield)
      ensures c.AtMost(Counted(c, y))
      ensures Counted(c, y).files <= c.files + 1
      ensures y.Skipped? ==> Counted(c, y) == c.(unknown := c.unknown + 1, skipped := c.skipped + 1)
      ensures !y.LimitReached? ==>
                (Counted(c, y).threats == 0 && Counted(c, y).unknown == 0 <==>
                 c.threats == 0 && c.unknown == 0 && y.File? && ScanOf(y).verdict.NoThreatDetected?)
      ensures Counted(c, y).threats > 0 <==>
                c.threats > 0 || (y.File? && ScanOf(y).verdict.MalwareDetected?)
    {
      hide CandidatePath;
    }

    lemma NeverALimit(d: Dir)
      requires d.depth <= walk.maxDepth
      ensures LimitReached !in walk.Yields(walk.Visits(d))
    {
      NoLimitAmong(walk.Visits(d));
    }

    lemma {:induction false} NoLimitAmong(visits: seq<Dir>)
      ensures LimitReached !in walk.Yields(visits)
    {
      hide Walk.Visit;
      if visits != [] {
        NoLimitIn(visits[0]);
        NoLimitAmong(visits[1..]);
      }
    }

    lemma NoLimitIn(d: Dir)
      ensures LimitReached !in walk.Visit(d)
    {
      hide Walk.Excluded, Ordered, Walk.YieldsOf;
      if d.listing.Listed? {
        InYieldsOf(walk, d.path, Ordered(d.listing.entries), LimitReached);
      }
    }

    lemma RoomForOne(c: Counts, y: Yield)
      ensures !y.File? ==> HasRoom(c, y)
      ensures y.File? && HasRoom(c, y) ==> c.files < profile.maxFiles
    {
    }

    lemma IdsOfOneMore(ids: seq<int>, found: seq<int>)
      ensures Take(ids, MAX_RETURNED_FINDING_IDS)
                + Take(found, MAX_RETURNED_FINDING_IDS - |Take(ids, MAX_RETURNED_FINDING_IDS)|)
              == Take(ids + found, MAX_RETURNED_FINDING_IDS)
    {
    }

    // ----- the run -----

    /** What the loop does when it comes to candidate `i`: end, or deal with it. */
    function StopAt(ys: seq<Yield>, i: nat, clock: CampaignClock): Option<Stop>
      requires i < |ys|
    {
      if clock.cancelled(i) then Some(WasCancelled)
      else
        match ys[i]
        case LimitReached => Some(Limited)
        case File(_, _) => if clock.late(i) || !HasRoom(Tally(ys[..i]), ys[i]) then Some(Limited) else None
        case Skipped => None
    }

    /** The loop ends after the first `n` candidates, for this reason. */
    ghost predicate EndsAfter(ys: seq<Yield>, n: nat, clock: CampaignClock, stop: Stop) {
      && n <= |ys|
      && (forall i :: 0 <= i < n ==> StopAt(ys, i, clock).None?)
      && if n < |ys| then StopAt(ys, n, clock) == Some(stop) else stop == RanThrough
    }

    /** The loop deals with exactly these candidates and ends for this reason. */
    ghost predicate Deals(start: Listing, clock: CampaignClock, dealt: seq<Yield>, stop: Stop) {
      exists ys :: walk.Produces(start, clock.walk, ys) && |dealt| <= |ys| && dealt == ys[..|dealt|]
        && EndsAfter(ys, |dealt|, clock, stop)
    }

    /** The result of a campaign: counters and findings of the candidates it dealt with, and the
        conclusion that they and the reason for its end call for. */
    ghost predicate IsResult(start: Listing, clock: CampaignClock, r: CampaignResult) {
      exists dealt, stop :: Deals(start, clock, dealt, stop) && ResultsFrom(dealt, stop, r)
    }

    ghost predicate ResultsFrom(dealt: seq<Yield>, stop: Stop, r: CampaignResult) {
      r == Conclude(Tally(dealt), Take(Recorded(dealt), MAX_RETURNED_FINDING_IDS), stop.WasCancelled?, stop.Limited?)
    }

    /** Which candidates a campaign deals with, and why it ends, is determined by listing and clock. */
    lemma DealsOnce(start: Listing, clock: CampaignClock, a: seq<Yield>, s: Stop, b: seq<Yield>, t: Stop)
      requires Deals(start, clock, a, s) && Deals(start, clock, b, t)
      ensures a == b && s == t
    {
      hide Walk.Produces, StopAt;
      var ys: seq<Yield> :| walk.Produces(start, clock.walk, ys) && |a| <= |ys| && a == ys[..|a|]
                && EndsAfter(ys, |a|, clock, s);
      var zs: seq<Yield> :| walk.Produces(start, clock.walk, zs) && |b| <= |zs| && b == zs[..|b|]
                && EndsAfter(zs, |b|, clock, t);
      walk.ProducesOnce(start, clock.walk, ys, zs);
      assert |a| == |b|;
    }

    /** The candidates dealt with were admitted, and are a part of the walk, all of it if the loop ran
        through. */
    lemma DealtIsPart(start: Listing, clock: CampaignClock, dealt: seq<Yield>, stop: Stop)
      requires Deals(start, clock, dealt, stop)
      ensures dealt <= walk.Yields(walk.Visits(Dir([], start, 0))) && Admitted(dealt)
      ensures stop.RanThrough? ==> dealt == walk.Yields(walk.Visits(Dir([], start, 0)))
    {
      hide Walk.Produces, Walk.Yields, Walk.Visits, HasRoom, Tally;
      var all := walk.Yields(walk.Visits(Dir([], start, 0)));
      var ys: seq<Yield> :| walk.Produces(start, clock.walk, ys) && |dealt| <= |ys| && dealt == ys[..|dealt|]
                && EndsAfter(ys, |dealt|, clock, stop);
      walk.ProducesPart(start, clock.walk, ys);
      NeverALimit(Dir([], start, 0));
      forall i | 0 <= i < |dealt| ensures HasRoom(Tally(dealt[..i]), dealt[i]) && !ys[i].LimitReached? {
        assert dealt[..i] == ys[..i] && StopAt(ys, i, clock).None?;
        RoomForOne(Tally(ys[..i]), ys[i]);
      }
      PartWithoutMark(all, ys, |dealt|);
    }

    lemma PartWithoutMark(all: seq<Yield>, ys: seq<Yield>, n: nat)
      requires ys == all || exists done :: done <= all && ys == done + [LimitReached]
      requires n <= |ys| && LimitReached !in all && forall i :: 0 <= i < n ==> !ys[i].LimitReached?
      ensures ys[..n] <= all && (n == |ys| ==> ys == all)
    {
      if ys != all {
        var done :| done <= all && ys == done + [LimitReached];
        assert ys[|done|] == LimitReached;
      }
    }

    // ----- counting candidates one by one -----

    /** What is counted: files, files found to be malware, candidates that remain unknown, and candidates
        that were passed over or refused. */
    predicate Has(y: Yield, aspect: Aspect) {
      match aspect
      case Scanned => y.File?
      case FoundMalware => y.File? && ScanOf(y).verdict.MalwareDetected?
      case LeftUnknown => y.Skipped? || (y.File? && ScanOf(y).verdict.Unknown?)
      case NotScanned => y.Skipped? || (y.File? && ScanOf(y).status.Rejected?)
    }

    /** How many of the candidates have it. */
    ghost function Number(ys: seq<Yield>, aspect: Aspect): nat {
      |set i | 0 <= i < |ys| && Has(ys[i], aspect)|
    }

    lemma OneMoreCounted(ys: seq<Yield>, y: Yield, aspect: Aspect)
      ensures Number(ys + [y], aspect) == Number(ys, aspect) + if Has(y, aspect) then 1 else 0
    {
      hide Has;
      var more := ys + [y];
      var before := set i | 0 <= i < |ys| && Has(ys[i], aspect);
      var after := set i | 0 <= i < |more| && Has(more[i], aspect);
      assert after == before + if Has(y, aspect) then {|ys|} else {};
    }

    /** What all scans measured, the first candidate first. */
    function MeasuredBytes(ys: seq<Yield>): nat {
      if ys == [] then 0 else Measured(ys[0]) + MeasuredBytes(ys[1..])
    }

    lemma {:induction false} MeasuredBytesOfOneMore(ys: seq<Yield>, y: Yield)
      ensures MeasuredBytes(ys + [y]) == MeasuredBytes(ys) + Measured(y)
    {
      hide Measured;
      if ys == [] {
        assert ys + [y] == [y] + [];
      } else {
        MeasuredBytesOfOneMore(ys[1..], y);
        assert (ys + [y])[1..] == ys[1..] + [y];
      }
    }

    /** The counters stand for these numbers. */
    lemma {:induction false} TallyCounts(ys: seq<Yield>)
      requires forall y <- ys :: !y.LimitReached?
      ensures Tally(ys) ==
                Counts(Number(ys, Scanned), MeasuredBytes(ys), Number(ys, FoundMalware), Number(ys, LeftUnknown),
                       Number(ys, NotScanned))
    {
      hide Tally, Number, ScanOf;
      if ys == [] {
        NothingDealt();
        NothingCounted(ys, Scanned);
        NothingCounted(ys, FoundMalware);
        NothingCounted(ys, LeftUnknown);
        NothingCounted(ys, NotScanned);
      } else {
        var front, last := ys[..|ys| - 1], ys[|ys| - 1];
        assert ys == front + [last];
        assert !last.LimitReached?;
        TallyCounts(front);
        OneMoreDealt(front, last);
        OneMoreCounted(front, last, Scanned);
        OneMoreCounted(front, last, FoundMalware);
        OneMoreCounted(front, last, LeftUnknown);
        OneMoreCounted(front, last, NotScanned);
        MeasuredBytesOfOneMore(front, last);
      }
    }

    lemma NothingCounted(ys: seq<Yield>, aspect: Aspect)
      ensures ys == [] ==> Number(ys, aspect) == 0
    {
      var positions := set i | 0 <= i < |ys| && Has(ys[i], aspect);
      assert forall i <- positions :: 0 <= i < |ys|;
      assert ys == [] ==> positions == {};
    }

    /** What the counters of the candidates dealt with say about them. */
    lemma {:induction false} TallyMeans(ys: seq<Yield>)
      requires forall y <- ys :: !y.LimitReached?
      ensures Tally(ys).threats == 0 && Tally(ys).unknown == 0 <==> AllClean(ys)
      ensures Tally(ys).threats > 0 <==> SomeMalware(ys)
      ensures Tally(ys).files <= |ys|
    {
      hide Tally, Counted, AllClean, SomeMalware, ScanOf, Counts.AtMost;
      NothingDealt();
      if ys != [] {
        var front, last := ys[..|ys| - 1], ys[|ys| - 1];
        assert ys == front + [last];
        TallyMeans(front);
        OneMoreDealt(front, last);
        CountersRise(Tally(front), last);
      }
    }

    /** What a verdict says about the candidates dealt with. */
    lemma VerdictMeans(start: Listing, clock: CampaignClock, dealt: seq<Yield>, stop: Stop, r: CampaignResult)
      requires Deals(start, clock, dealt, stop) && ResultsFrom(dealt, stop, r)
      ensures r.verdict.NoThreatDetected? <==> stop.RanThrough? && AllClean(dealt)
      ensures r.verdict.MalwareDetected? <==> SomeMalware(dealt)
    {
      hide Tally, AllClean, SomeMalware, Walk.Yields, Walk.Visits, Deals, Admitted, Recorded;
      DealtIsPart(start, clock, dealt, stop);
      NeverALimit(Dir([], start, 0));
      assert forall y <- dealt :: y in walk.Yields(walk.Visits(Dir([], start, 0)));
      TallyMeans(dealt);
    }

    /** With its root excluded a campaign scans nothing, and still finds no threat exactly if it runs
        through and its root can be listed and shows no link and no entry without status. */
    lemma ExcludedRootScansNothing(start: Listing, clock: CampaignClock, dealt: seq<Yield>, stop: Stop,
                                   r: CampaignResult)
      requires Deals(start, clock, dealt, stop) && ResultsFrom(dealt, stop, r) && [] in walk.exclusions
      ensures forall y <- dealt :: !y.File?
      ensures r.verdict.NoThreatDetected? <==>
                stop.RanThrough? && start.Listed? && forall e <- start.entries :: IsQuiet(e)
    {
      hide Tally, Walk.Yields, Walk.Visits, Deals, Admitted, Recorded, ResultsFrom;
      DealtIsPart(start, clock, dealt, stop);
      ExcludedRootYieldsNoFile(walk, start);
      VerdictMeans(start, clock, dealt, stop, r);
      var all := walk.Yields(walk.Visits(Dir([], start, 0)));
      assert forall y <- dealt :: y in all;
      assert all != [] ==> all[0] in all;
    }

    /** Scan the candidates one by one. */
    method Run(start: Listing, clock: CampaignClock)
      returns (r: CampaignResult, reports: seq<Counts>, ghost stop: Stop, ghost dealt: seq<Yield>)
      requires Valid()
      ensures r.IsConsistent() && !r.status.CampaignRejected?
      ensures Deals(start, clock, dealt, stop) && ResultsFrom(dealt, stop, r)
      ensures dealt <= walk.Yields(walk.Visits(Dir([], start, 0))) && Admitted(dealt)
      ensures stop.RanThrough? ==> dealt == walk.Yields(walk.Visits(Dir([], start, 0)))
      ensures r.status.CampaignCancelled? <==> stop.WasCancelled?
      ensures r.error == Some(ProfileLimitReached) <==> stop.Limited?
      ensures r.error.None? || r.error.value in {ProfileLimitReached, ScanCancelled, ScanIncomplete}
      ensures r.verdict.NoThreatDetected? <==> stop.RanThrough? && AllClean(dealt)
      ensures r.verdict.MalwareDetected? <==> SomeMalware(dealt)
      ensures r.counts ==
                Counts(Number(dealt, Scanned), MeasuredBytes(dealt), Number(dealt, FoundMalware),
                       Number(dealt, LeftUnknown), Number(dealt, NotScanned))
      ensures Number(dealt, Scanned) <= profile.maxFiles
      ensures r.counts.files <= profile.maxFiles
      ensures Within(reports, r.counts)
    {
      hide Walk.Produces, Tally, Counted, Recorded, AllClean, SomeMalware, HasRoom,
        ScanResult.IsConsistent, CandidatePath, ScanOf, Within, StopAt,
        Counts.AtMost, Admitted, Conclude, CampaignResult.IsConsistent, Walk.Yields, Walk.Visits, Number,
        MeasuredBytes, Has;
      var candidates := walk.Enumerate(start, clock.walk);
      var counts, ids := NO_COUNTS, [];
      reports, dealt := [], [];
      var cancelled, limited := false, false;
      NothingDealt();
      var i := 0;
      while i < |candidates|
        invariant i <= |candidates| && !cancelled && !limited
        invariant dealt == candidates[..i]
        invariant forall j :: 0 <= j < i ==> StopAt(candidates, j, clock).None?
        invariant counts == Tally(dealt) && ids == Take(Recorded(dealt), MAX_RETURNED_FINDING_IDS)
        invariant counts.files <= profile.maxFiles
        invariant Within(reports, counts)
      {
        var y := candidates[i];
        Decide(candidates, i, clock);
        if clock.cancelled(i) {
          cancelled := true;
          break;
        }
        if y.LimitReached? {
          limited := true;
          break;
        }
        if y.File? && (clock.late(i) || !HasRoom(counts, y)) {
          limited := true;
          break;
        }
        RoomForOne(counts, y);
        OneMoreDealt(dealt, y);
        CountersRise(counts, y);
        OneMoreReport(reports, counts, Counted(counts, y));
        ghost var before := dealt;
        dealt := dealt + [y];
        if y.Skipped? {
          counts := counts.(unknown := counts.unknown + 1, skipped := counts.skipped + 1);
        } else {
          counts := Counted(counts, y);
          reports := reports + [counts];
          var result := ScanOf(y);
          if result.verdict.MalwareDetected? {
            IdsOfOneMore(Recorded(before), record(result));
            ids := ids + Take(record(result), MAX_RETURNED_FINDING_IDS - |ids|);
          }
        }
        i := i + 1;
      }
      stop := if cancelled then WasCancelled else if limited then Limited else RanThrough;
      assert EndsAfter(candidates, |dealt|, clock, stop);
      DealtIsPart(start, clock, dealt, stop);
      r := Conclude(counts, ids, cancelled, limited);
      VerdictMeans(start, clock, dealt, stop, r);
      NoLimitAmongDealt(start, clock, dealt, stop);
      TallyCounts(dealt);
    }

    lemma NoLimitAmongDealt(start: Listing, clock: CampaignClock, dealt: seq<Yield>, stop: Stop)
      requires Deals(start, clock, dealt, stop)
      ensures forall y <- dealt :: !y.LimitReached?
    {
      hide Walk.Yields, Walk.Visits, Deals, Admitted;
      DealtIsPart(start, clock, dealt, stop);
      NeverALimit(Dir([], start, 0));
      assert forall y <- dealt :: y in walk.Yields(walk.Visits(Dir([], start, 0)));
    }

    lemma Decide(ys: seq<Yield>, i: nat, clock: CampaignClock)
      requires i < |ys|
      ensures StopAt(ys, i, clock) ==
                if clock.cancelled(i) then Some(WasCancelled)
                else if ys[i].LimitReached? then Some(Limited)
                else if ys[i].File? && (clock.late(i) || !HasRoom(Tally(ys[..i]), ys[i])) then Some(Limited)
                else None
    {
      hide HasRoom, Tally;
    }

    /** A campaign that is never cancelled nor late is limited exactly by an entry bound or by a file
        for which there is no room. */
    lemma LimitedByBoundsOnly(start: Listing, clock: CampaignClock, dealt: seq<Yield>, stop: Stop)
      requires Deals(start, clock, dealt, stop)
      requires forall i :: !clock.cancelled(i) && !clock.late(i)
      requires (forall v :: !clock.walk.atDirectory(v)) && (forall n :: !clock.walk.atEntry(n))
      requires walk.EntriesSeen(walk.Visits(Dir([], start, 0))) <= walk.maxEntries
      ensures var all := walk.Yields(walk.Visits(Dir([], start, 0)));
              && !stop.WasCancelled?
              && (stop.Limited? <==> |dealt| < |all|)
              && (stop.Limited? ==> !HasRoom(Tally(dealt), all[|dealt|]))
    {
      hide Walk.Produces, Walk.Yields, Walk.Visits, Walk.EntriesSeen, HasRoom, Tally;
      var ys: seq<Yield> :| walk.Produces(start, clock.walk, ys) && |dealt| <= |ys| && dealt == ys[..|dealt|]
                && EndsAfter(ys, |dealt|, clock, stop);
      walk.UncutWalkYieldsAll(start, clock.walk, ys);
      NeverALimit(Dir([], start, 0));
    }

    /** The campaign scans some file as malware before it ends. */
    ghost predicate MeetsMalware(start: Listing, clock: CampaignClock) {
      exists dealt, stop :: Deals(start, clock, dealt, stop) && SomeMalware(dealt)
    }

    lemma MeetsMalwareIff(start: Listing, clock: CampaignClock, dealt: seq<Yield>, stop: Stop)
      requires Deals(start, clock, dealt, stop)
      ensures MeetsMalware(start, clock) <==> SomeMalware(dealt)
    {
      hide Deals, SomeMalware;
      if MeetsMalware(start, clock) {
        var other, reason :| Deals(start, clock, other, reason) && SomeMalware(other);
        DealsOnce(start, clock, dealt, stop, other, reason);
      }
    }

    // ----- bounds and coverage -----

    /** After a run that found no threat, every file that the walk had to enumerate was scanned and
        found clean. */
    lemma NoThreatCoversEveryCandidate(start: Listing, dealt: seq<Yield>, rel: seq<Name>, size: nat)
      requires ProperListing(start) && dealt == walk.Yields(walk.Visits(Dir([], start, 0))) && AllClean(dealt)
      requires IsCandidate(walk, Dir([], start, 0), rel, size)
      ensures scan(CandidatePath(rel)).verdict.NoThreatDetected?
    {
      hide Walk.Yields, Walk.Visits, IsCandidate;
      assert [] + rel == rel;
      EnumeratesExactlyCandidates(walk, Dir([], start, 0), rel, size);
      assert ScanOf(File(rel, size)).verdict.NoThreatDetected?;
    }

    lemma NoneSkipped(ys: seq<Yield>)
      ensures AllClean(ys) ==> Skipped !in ys
    {
    }

    /** After a run that found no threat, every directory that the walk had to visit was listed to its
        end and showed nothing that had to be passed over. */
    lemma NoThreatPassesOverNothing(start: Listing, dealt: seq<Yield>, d: Dir)
      requires dealt == walk.Yields(walk.Visits(Dir([], start, 0))) && AllClean(dealt)
      requires Visited(walk, Dir([], start, 0), d)
      ensures !PassesOver(walk, d)
    {
      hide Walk.Yields, Walk.Visits, PassesOver, Visited, AllClean;
      SkipsIff(walk, start);
      NoneSkipped(dealt);
    }

    /** How many bytes the scan of a candidate measured. */
    function Measured(y: Yield): nat {
      if y.File? && ScanOf(y).size.Some? then ScanOf(y).size.value else 0
    }

    /** The scan of candidate `i` measured more than there was room for. */
    ghost predicate Overshoots(ys: seq<Yield>, i: nat) {
      i < |ys| && ys[i].File? && Tally(ys[..i]).bytes + Measured(ys[i]) > profile.maxTotalBytes
    }

    /** A campaign exceeds its byte bound exactly if the last file it scanned measured more than there
        was room for, and then by no more than that file had grown since it was listed. */
    lemma {:induction false} OverTheByteBoundIff(ys: seq<Yield>)
      requires Admitted(ys)
      ensures Tally(ys).bytes > profile.maxTotalBytes <==> exists i: nat :: Overshoots(ys, i)
      ensures forall i: nat :: Overshoots(ys, i) ==>
                && (forall j :: i < j < |ys| ==> !ys[j].File?)
                && Tally(ys).bytes - profile.maxTotalBytes <= Measured(ys[i]) - ys[i].size
    {
      hide Admitted, Tally, Measured;
      NothingDealt();
      if ys != [] {
        var front, last := ys[..|ys| - 1], |ys| - 1;
        LastWasAdmitted(ys);
        OverTheByteBoundIff(front);
        BytesOfOneMore(ys);
        assert forall i :: 0 <= i <= last ==> front[..i] == ys[..i];
        assert forall i: nat :: i < last ==> (Overshoots(ys, i) <==> Overshoots(front, i));
        assert ys[..last] == front;
        if ys[last].File? {
          assert forall i: nat :: !Overshoots(front, i);
          assert Overshoots(ys, last) <==> Tally(ys).bytes > profile.maxTotalBytes;
        }
      }
    }

    lemma BytesOfOneMore(ys: seq<Yield>)
      requires ys != []
      ensures Tally(ys).bytes == Tally(ys[..|ys| - 1]).bytes + Measured(ys[|ys| - 1])
      ensures !ys[|ys| - 1].File? ==> Measured(ys[|ys| - 1]) == 0
    {
      hide ScanOf;
    }

    /** When no scan measures more than the listing announced, the byte bound is kept. */
    lemma BytesStayBounded(ys: seq<Yield>)
      requires Admitted(ys)
      requires forall y <- ys :: y.File? ==> Measured(y) <= y.size
      ensures Tally(ys).bytes <= profile.maxTotalBytes
    {
      hide Admitted, Tally, Measured;
      OverTheByteBoundIff(ys);
      forall i: nat ensures !Overshoots(ys, i) {
        if i < |ys| && ys[i].File? {
          assert ys[i] in ys;
          AdmittedAt(ys, i);
        }
      }
    }

    lemma AdmittedAt(ys: seq<Yield>, i: nat)
      requires Admitted(ys) && i < |ys|
      ensures HasRoom(Tally(ys[..i]), ys[i])
    {
    }

    lemma LastWasAdmitted(ys: seq<Yield>)
      requires Admitted(ys) && ys != []
      ensures Admitted(ys[..|ys| - 1]) && HasRoom(Tally(ys[..|ys| - 1]), ys[|ys| - 1])
    {
      hide HasRoom, Tally;
      assert forall i :: 0 <= i < |ys| - 1 ==> ys[..|ys| - 1][..i] == ys[..i];
    }
  }

  /** A file that grows between its listing and its scan can take a campaign over its byte bound. */
  lemma BytesBoundNeedsStableSizes()
    ensures exists c: Campaign, y: Yield ::
              c.Valid() && c.Admitted([y]) && c.Tally([y]).bytes > c.profile.maxTotalBytes
  {
    var clean := ScanResult("home", "a", Completed, NoThreatDetected, None, Some("d"), Some(2), [],
                            [DetectorStatus("local-signatures", "v1", DetectorCompleted, None)]);
    var c := Campaign(Profile(1, 1, 0), "", Walk([], [], 0, ENTRIES_PER_FILE), path => clean, result => []);
    var y := File(["a"], 1);
    assert clean.IsConsistent();
    assert [y][..0] == [];
    assert c.Tally([y]) == c.Counted(NO_COUNTS, y);
    assert c.HasRoom(c.Tally([]), y);
    assert c.Admitted([y]);
  }

  // ----- requests -----

  /** Where a campaign starts below the resource root, as components and as text. */
  function StartOf(relativePath: string): Option<(seq<Name>, string)> {
    if |relativePath| > 1024 then None
    else if relativePath == "" || relativePath == "." then Some(([], ""))
    else if relativePath[0] == '/' then None
    else
      var parts := PathParts(Split(relativePath));
      if ".." in parts then None else Some((parts, AsPosix(parts)))
  }

  /** A request is accepted exactly if its path has at most 1024 characters, is relative, and does not go up.
      Its components are proper names, those of the text but for empty ones and single dots. */
  lemma StartOfIff(relativePath: string)
    ensures StartOf(relativePath).Some? <==>
              && |relativePath| < 1025 && !("/" <= relativePath) && ".." !in Split(relativePath)
    ensures StartOf(relativePath).Some? ==>
              var base := StartOf(relativePath).value.0;
              && AreNames(base)
              && forall part :: part in base <==> part in Split(relativePath) && part != "" && part != "."
  {
    JoinOfSplit(relativePath);
    PathPartsAreProper(Split(relativePath));
    PathPartsKeepNames(Split(relativePath), "..");
    forall part ensures part in PathParts(Split(relativePath)) <==>
      part in Split(relativePath) && part != "" && part != "."
    {
      PathPartsKeepNames(Split(relativePath), part);
    }
    SplitOfName("");
    SplitOfName(".");
  }

  /** A campaign hands every file to the scanner under its path below the resource root, unless it was
      started at a text like `./` that names the root without being empty or a single dot. */
  lemma CandidatePathIsBelowRootIff(c: Campaign, relativePath: string, rel: seq<Name>)
    requires StartOf(relativePath) == Some((c.walk.base, c.prefix)) && rel != []
    ensures c.CandidatePath(rel) == Join(c.walk.base + rel) <==> c.prefix != "."
  {
    var base := c.walk.base;
    if base == [] {
      assert base + rel == rel;
      assert c.prefix == "." ==> |c.CandidatePath(rel)| > |Join(rel)|;
    } else {
      PathPartsAreProper(Split(relativePath));
      assert base[0] in PathParts(Split(relativePath)) && base[0] <= Join(base);
      assert |base| == 1 ==> Join(base) == base[0];
      assert |base| > 1 ==> |Join(base)| >= |base[0]| + 1;
      JoinOfConcat(base, rel);
    }
  }

  /** Started at `./`, a campaign finds the files of the resource root but names each of them in a way
      that the scanner refuses. */
  lemma DotSlashCampaignScansNothing(rel: seq<Name>)
    requires rel != []
    ensures StartOf("./") == Some(([], "."))
    ensures NormalizeRelativePath("." + "/" + Join(rel)) == ""
  {
    SplitOfNameAndRest(".", "");
    assert "./" == "." + "/" + "";
    assert Split("./") == [".", ""];
    assert PathParts([".", ""]) == PathParts([""]) == [];
    SplitOfNameAndRest(".", Join(rel));
    var parts := Split("." + "/" + Join(rel));
    assert parts[0] == "." && parts[0] in parts;
  }

  /** The campaign scanner of a worker. `directory` is what the operating system has at a directory
      below a resource root, reached without passing a link. */
  datatype CampaignScanner = CampaignScanner(
    roots: set<string>,
    exclusions: map<string, seq<seq<Name>>>,
    profiles: map<string, Profile>,
    scan: (string, string) -> ScanResult,
    record: ScanResult -> seq<int>,
    directory: (string, seq<Name>) -> Option<Listing>)
  {
    ghost predicate Valid() {
      forall resource, path :: scan(resource, path).IsConsistent()
    }

    function ExclusionsOf(resource: string): seq<seq<Name>> {
      if resource in exclusions then exclusions[resource] else []
    }

    function CampaignFor(resource: string, profile: Profile, base: seq<Name>, prefix: string): Campaign {
      Campaign(profile, prefix,
               Walk(base, ExclusionsOf(resource), profile.maxDepth, profile.maxFiles * ENTRIES_PER_FILE),
               path => scan(resource, path), record)
    }

    /** The scope can be scanned, and every file in it that has to be enumerated is clean. */
    ghost predicate CleanScope(resource: string, mode: string, relativePath: string) {
      && resource in roots && mode in profiles
      && match StartOf(relativePath)
         case None => false
         case Some(start) => CleanBelow(resource, profiles[mode], start.0, start.1)
    }

    ghost predicate CleanBelow(resource: string, profile: Profile, base: seq<Name>, prefix: string) {
      match directory(resource, base)
      case None => false
      case Some(listing) =>
        var campaign := CampaignFor(resource, profile, base, prefix);
        ProperListing(listing) ==>
          forall rel, size :: IsCandidate(campaign.walk, Dir([], listing, 0), rel, size) ==>
            scan(resource, campaign.CandidatePath(rel)).verdict.NoThreatDetected?
    }

    /** What a request answers: a refusal, or the result of the campaign it describes. */
    ghost predicate IsResultOf(resource: string, mode: string, relativePath: string, clock: CampaignClock,
                               r: CampaignResult)
    {
      if resource !in roots then r == RejectedCampaign(ResourceUnknown)
      else if mode !in profiles then r == RejectedCampaign(InvalidScanMode)
      else
        match StartOf(relativePath)
        case None => r == RejectedCampaign(DirectoryNotAvailable)
        case Some(start) =>
          match directory(resource, start.0)
          case None => r == RejectedCampaign(DirectoryNotAvailable)
          case Some(listing) =>
            if start.1 != "" && IsExcludedText(start.1, Texts(ExclusionsOf(resource))) then
              r == RejectedCampaign(ProtectedDirectory)
            else CampaignFor(resource, profiles[mode], start.0, start.1).IsResult(listing, clock, r)
    }

    /** The campaign scans some file as malware before it ends. */
    ghost predicate MeetsMalware(resource: string, mode: string, relativePath: string, clock: CampaignClock) {
      && resource in roots && mode in profiles
      && match StartOf(relativePath)
         case None => false
         case Some(start) =>
           && (start.1 == "" || !IsExcludedText(start.1, Texts(ExclusionsOf(resource))))
           && match directory(resource, start.0)
              case None => false
              case Some(listing) =>
                CampaignFor(resource, profiles[mode], start.0, start.1).MeetsMalware(listing, clock)
    }

    /** No threat means that every file of the scope that has to be enumerated was scanned clean. */
    lemma NoThreatIsClean(resource: string, mode: string, relativePath: string, clock: CampaignClock,
                          r: CampaignResult)
      requires IsResultOf(resource, mode, relativePath, clock, r) && r.verdict.NoThreatDetected?
      ensures CleanScope(resource, mode, relativePath)
    {
      hide Walk.Yields, Walk.Visits, IsExcludedText, StartOf, IsCandidate, ProperListing, Campaign.Deals,
        Campaign.ResultsFrom, Campaign.AllClean, Campaign.CandidatePath;
      var (base, prefix) := StartOf(relativePath).value;
      var listing := directory(resource, base).value;
      var campaign := CampaignFor(resource, profiles[mode], base, prefix);
      var dealt, stop :| campaign.Deals(listing, clock, dealt, stop) && campaign.ResultsFrom(dealt, stop, r);
      campaign.VerdictMeans(listing, clock, dealt, stop, r);
      campaign.DealtIsPart(listing, clock, dealt, stop);
      if ProperListing(listing) {
        forall rel, size | IsCandidate(campaign.walk, Dir([], listing, 0), rel, size)
          ensures scan(resource, campaign.CandidatePath(rel)).verdict.NoThreatDetected?
        {
          campaign.NoThreatCoversEveryCandidate(listing, dealt, rel, size);
        }
      }
    }

    method Start(resource: string, mode: string, relativePath: string, clock: CampaignClock)
      returns (r: CampaignResult, reports: seq<Counts>)
      requires Valid()
      ensures r.IsConsistent() && Within(reports, r.counts)
      ensures IsResultOf(resource, mode, relativePath, clock, r)
      ensures r.verdict.MalwareDetected? <==> MeetsMalware(resource, mode, relativePath, clock)
      ensures r.error == Some(ResourceUnknown) <==> resource !in roots
      ensures r.error == Some(InvalidScanMode) <==> resource in roots && mode !in profiles
      ensures r.error == Some(DirectoryNotAvailable) <==>
                && resource in roots && mode in profiles
                && (StartOf(relativePath).None? || directory(resource, StartOf(relativePath).value.0).None?)
      ensures r.error == Some(ProtectedDirectory) <==>
                && resource in roots && mode in profiles && StartOf(relativePath).Some?
                && directory(resource, StartOf(relativePath).value.0).Some?
                && StartOf(relativePath).value.1 != ""
                && IsExcludedText(StartOf(relativePath).value.1, Texts(ExclusionsOf(resource)))
      ensures r.status.CampaignRejected? <==>
                && r.error.Some?
                && r.error.value in {ResourceUnknown, InvalidScanMode, DirectoryNotAvailable, ProtectedDirectory}
      ensures r.verdict.NoThreatDetected? ==> CleanScope(resource, mode, relativePath)
      ensures resource in roots && mode in profiles ==> r.counts.files <= profiles[mode].maxFiles
    {
      hide Walk.Yields, Walk.Visits, IsExcludedText, Within, StartOf, IsCandidate, ProperListing, Campaign.Deals,
        Campaign.ResultsFrom, Campaign.MeetsMalware, CampaignResult.IsConsistent, Campaign.Admitted;
      reports := [];
      NothingReported();
      if resource !in roots {
        return RejectedCampaign(ResourceUnknown), reports;
      }
      if mode !in profiles {
        return RejectedCampaign(InvalidScanMode), reports;
      }
      var start := StartOf(relativePath);
      if start.None? || directory(resource, start.value.0).None? {
        return RejectedCampaign(DirectoryNotAvailable), reports;
      }
      var (base, prefix) := start.value;
      if prefix != "" && IsExcludedText(prefix, Texts(ExclusionsOf(resource))) {
        return RejectedCampaign(ProtectedDirectory), reports;
      }
      var campaign := CampaignFor(resource, profiles[mode], base, prefix);
      var listing := directory(resource, base).value;
      ghost var stop, dealt;
      r, reports, stop, dealt := campaign.Run(listing, clock);
      campaign.MeetsMalwareIff(listing, clock, dealt, stop);
      assert campaign.IsResult(listing, clock, r);
      if r.verdict.NoThreatDetected? {
        NoThreatIsClean(resource, mode, relativePath, clock, r);
      }
    }

    // ----- jobs over several scopes -----

    /** Each result is that of the scope in its place. */
    ghost predicate JobSoFar(mode: string, scopes: seq<(string, string)>, clocks: nat -> CampaignClock,
                             results: seq<CampaignResult>)
    {
      && |results| <= |scopes|
      && forall j :: 0 <= j < |results| ==> IsScopeResult(mode, scopes[j], clocks(j), results[j])
    }

    ghost predicate IsScopeResult(mode: string, scope: (string, string), clock: CampaignClock, r: CampaignResult) {
      && IsResultOf(scope.0, mode, scope.1, clock, r)
      && (r.verdict.MalwareDetected? <==> MeetsMalware(scope.0, mode, scope.1, clock))
      && (r.verdict.NoThreatDetected? ==> CleanScope(scope.0, mode, scope.1))
    }

    lemma NoScopeYet(mode: string, scopes: seq<(string, string)>, clocks: nat -> CampaignClock)
      ensures JobSoFar(mode, scopes, clocks, [])
    {
    }

    lemma OneMoreScope(mode: string, scopes: seq<(string, string)>, clocks: nat -> CampaignClock,
                       results: seq<CampaignResult>, r: CampaignResult)
      requires JobSoFar(mode, scopes, clocks, results) && |results| < |scopes|
      requires IsScopeResult(mode, scopes[|results|], clocks(|results|), r)
      ensures JobSoFar(mode, scopes, clocks, results + [r])
    {
      hide IsScopeResult;
    }

    lemma JobIsDone(mode: string, scopes: seq<(string, string)>, clocks: nat -> CampaignClock,
                    results: seq<CampaignResult>)
      requires JobSoFar(mode, scopes, clocks, results)
      ensures forall j :: 0 <= j < |results| ==>
                IsResultOf(scopes[j].0, mode, scopes[j].1, clocks(j), results[j])
      ensures (exists c <- results :: c.verdict.MalwareDetected?) <==>
              exists j :: 0 <= j < |results| && MeetsMalware(scopes[j].0, mode, scopes[j].1, clocks(j))
      ensures |results| == |scopes| && (forall c <- results :: c.verdict.NoThreatDetected?) ==>
                forall scope <- scopes :: CleanScope(scope.0, mode, scope.1)
    {
      hide IsResultOf, MeetsMalware, CleanScope;
      forall scope <- scopes
        | |results| == |scopes| && forall c <- results :: c.verdict.NoThreatDetected?
        ensures CleanScope(scope.0, mode, scope.1)
      {
        var j :| 0 <= j < |scopes| && scopes[j] == scope;
        assert results[j].verdict.NoThreatDetected?;
      }
      forall c <- results | c.verdict.MalwareDetected?
        ensures exists j :: 0 <= j < |results| && MeetsMalware(scopes[j].0, mode, scopes[j].1, clocks(j))
      {
        var j :| 0 <= j < |results| && results[j] == c;
        assert MeetsMalware(scopes[j].0, mode, scopes[j].1, clocks(j));
      }
    }

    /** Run one campaign per scope, adding up the counters; a cancelled campaign ends the job. */
    method RunJob(mode: string, scopes: seq<(string, string)>, clocks: nat -> CampaignClock)
      returns (r: JobResult, reports: seq<Counts>, ghost results: seq<CampaignResult>)
      requires Valid()
      ensures r.counts == Sum(results) && Within(reports, r.counts)
      // One result for each scope, in order, up to the first that was cancelled.
      ensures |results| <= |scopes|
      ensures forall j :: 0 <= j < |results| ==>
                IsResultOf(scopes[j].0, mode, scopes[j].1, clocks(j), results[j])
      ensures forall j :: 0 <= j < |results| - 1 ==> !results[j].status.CampaignCancelled?
      ensures |results| < |scopes| ==> results != [] && results[|results| - 1].status.CampaignCancelled?
      ensures r.verdict.MalwareDetected? <==>
                exists j :: 0 <= j < |results| && MeetsMalware(scopes[j].0, mode, scopes[j].1, clocks(j))
      ensures r.verdict.NoThreatDetected? <==>
                |results| == |scopes| && forall c <- results :: c.verdict.NoThreatDetected?
      ensures r.verdict.NoThreatDetected? ==>
                forall scope <- scopes :: CleanScope(scope.0, mode, scope.1)
      ensures r.verdict.MalwareDetected? <==> exists c <- results :: c.verdict.MalwareDetected?
      ensures r.status.CampaignCompleted? <==>
                |results| == |scopes| && forall c <- results :: c.status.CampaignCompleted?
      ensures r.status.CampaignCancelled? <==> exists c <- results :: c.status.CampaignCancelled?
      ensures r.error == LastError(results) && (r.error.None? <==> r.status.CampaignCompleted?)
    {
      hide CleanScope, Within, Sum, Shifted, AddUp, Counts.Plus, CampaignResult.IsConsistent, LastError, IsResultOf,
        MeetsMalware, JobSoFar;
      NoScopeYet(mode, scopes, clocks);
      var totals, status, error := NO_COUNTS, CampaignCompleted, None;
      reports, results := [], [];
      NothingReported();
      NothingAddedUp();
      var i := 0;
      while i < |scopes|
        invariant i <= |scopes| && |results| == i
        invariant totals == Sum(results) && Within(reports, totals)
        invariant AddUp(results, totals)
        invariant error == LastError(results) && (error.None? <==> status.CampaignCompleted?)
        invariant status == if forall c <- results :: c.status.CampaignCompleted?
                            then CampaignCompleted else CampaignPartial
        invariant forall c <- results :: !c.status.CampaignCancelled?
        invariant JobSoFar(mode, scopes, clocks, results)
      {
        var base := totals;
        var campaign, progress := Start(scopes[i].0, mode, scopes[i].1, clocks(i));
        OneMoreResult(results, totals, campaign);
        OneMoreScope(mode, scopes, clocks, results, campaign);
        ScopedReports(reports, base, progress, campaign.counts);
        results := results + [campaign];
        totals := totals.Plus(campaign.counts);
        reports := reports + Shifted(progress, base) + [totals];
        i := i + 1;
        if campaign.status.CampaignCancelled? {
          status, error := CampaignCancelled, Some(ScanCancelled);
          break;
        }
        if !campaign.status.CampaignCompleted? {
          status := CampaignPartial;
          error := if campaign.error.Some? then campaign.error else Some(ScanIncomplete);
        }
      }
      AddUpDecides(results, totals);
      JobIsDone(mode, scopes, clocks, results);
      r := JobResult(
        status,
        if totals.threats > 0 then MalwareDetected
        else if !status.CampaignCompleted? || totals.unknown > 0 then Unknown else NoThreatDetected,
        totals, error);
    }
  }

  datatype JobResult = JobResult(
    status: CampaignStatus, verdict: Verdict, counts: Counts, error: Option<CampaignError>)

  /** The error of the last scope that did not run to its end. */
  function LastError(results: seq<CampaignResult>): Option<CampaignError> {
    if results == [] then None
    else
      var last := results[|results| - 1];
      if last.status.CampaignCompleted? then LastError(results[..|results| - 1])
      else if last.status.CampaignCancelled? then Some(ScanCancelled)
      else if last.error.Some? then last.error
      else Some(ScanIncomplete)
  }

  function Sum(results: seq<CampaignResult>): Counts {
    if results == [] then NO_COUNTS
    else Sum(results[..|results| - 1]).Plus(results[|results| - 1].counts)
  }

  /** The reports of one scope, on top of what the earlier scopes counted. */
  function Shifted(reports: seq<Counts>, base: Counts): (s: seq<Counts>)
    ensures |s| == |reports|
  {
    seq(|reports|, i requires 0 <= i < |reports| => base.Plus(reports[i]))
  }

  lemma NothingReported()
    ensures Within([], NO_COUNTS)
  {
  }

  ghost predicate AddUp(results: seq<CampaignResult>, totals: Counts) {
    && (forall c <- results :: c.IsConsistent())
    && (totals.threats > 0 <==> exists c <- results :: c.verdict.MalwareDetected?)
    && (totals.unknown > 0 ==> exists c <- results :: !c.status.CampaignCompleted?)
  }

  lemma NothingAddedUp()
    ensures AddUp([], NO_COUNTS) && Sum([]) == NO_COUNTS && LastError([]) == None
  {
  }

  lemma AddUpDecides(results: seq<CampaignResult>, totals: Counts)
    requires AddUp(results, totals)
    ensures totals.threats > 0 <==> exists c <- results :: c.verdict.MalwareDetected?
    ensures (forall c <- results :: c.verdict.NoThreatDetected?) <==>
              totals.threats == 0 && totals.unknown == 0 && forall c <- results :: c.status.CampaignCompleted?
  {
  }

  lemma OneMoreResult(results: seq<CampaignResult>, totals: Counts, c: CampaignResult)
    requires AddUp(results, totals) && totals == Sum(results) && c.IsConsistent()
    ensures AddUp(results + [c], totals.Plus(c.counts)) && Sum(results + [c]) == totals.Plus(c.counts)
    ensures LastError(results + [c]) ==
              if c.status.CampaignCompleted? then LastError(results)
              else if c.status.CampaignCancelled? then Some(ScanCancelled)
              else if c.error.Some? then c.error else Some(ScanIncomplete)
  {
    var more := results + [c];
    assert more[..|more| - 1] == results;
    assert c in more;
    assert forall d <- results :: d in more;
  }

  lemma ScopedReports(reports: seq<Counts>, base: Counts, progress: seq<Counts>, counts: Counts)
    requires Within(reports, base) && Within(progress, counts)
    ensures Within(reports + Shifted(progress, base) + [base.Plus(counts)], base.Plus(counts))
  {
    ShiftedStaysWithin(progress, base, counts);
    ConcatStaysWithin(reports, base, Shifted(progress, base), base.Plus(counts));
    OneMoreReport(reports + Shifted(progress, base), base.Plus(counts), base.Plus(counts));
  }

  lemma ShiftedStaysWithin(progress: seq<Counts>, base: Counts, counts: Counts)
    requires Within(progress, counts)
    ensures Within(Shifted(progress, base), base.Plus(counts))
    ensures forall report <- Shifted(progress, base) :: base.AtMost(report)
    ensures base.AtMost(base.Plus(counts))
  {
    forall i, j | 0 <= i < j < |progress|
      ensures Shifted(progress, base)[i].AtMost(Shifted(progress, base)[j])
    {
      assert progress[i].AtMost(progress[j]);
    }
    forall i | 0 <= i < |progress| ensures Shifted(progress, base)[i].AtMost(base.Plus(counts)) {
      assert progress[i].AtMost(counts);
    }
  }

  lemma ConcatStaysWithin(a: seq<Counts>, m: Counts, b: seq<Counts>, n: Counts)
    requires Within(a, m) && Within(b, n) && m.AtMost(n) && forall report <- b :: m.AtMost(report)
    ensures Within(a + b, n)
  {
    var all := a + b;
    forall i, j | 0 <= i < j < |all| ensures all[i].AtMost(all[j]) {
      if i < |a| <= j {
        assert all[i] in a && all[j] in b;
        assert all[i].AtMost(m) && m.AtMost(all[j]);
      }
    }
    forall report <- all ensures report.AtMost(n) {
      if report in a {
        assert report.AtMost(m);
      }
    }
  }
}
