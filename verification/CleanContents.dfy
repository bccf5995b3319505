/** What a campaign that finds no threat says about the contents of files, when the scanner that it
    delegates to is the bounded scanner of one file. */
module CleanContents {
  import opened ScanScopes
  import opened PatternSearch
  import Candidates
  import CandidateFiles
  import FileScanners
  import Campaigns

  type Find = (string, string) -> FileScanners.File

  /** Every scan of the campaign is an answer of this scanner, under some conditions of its own. */
  ghost predicate ScansWith(campaigns: Campaigns.CampaignScanner, scanner: FileScanners.Scanner, find: Find) {
    && scanner.Valid() && campaigns.Valid()
    && forall resource, path ::
         exists c, k :: scanner.Answers(campaigns.scan(resource, path), resource, path, find(resource, path), c, k)
  }

  /** No signature of the scanner matches the content. */
  ghost predicate IsClean(scanner: FileScanners.Scanner, content: seq<Byte>) {
    && (forall s <- scanner.signatures.hashes :: s.sha256 != scanner.digest(content))
    && (forall s <- scanner.signatures.patterns :: !Occurs(s.pattern, content))
  }

  /** A file that was scanned free of threats is a regular file whose content matches no signature, and
      its path was acceptable. */
  lemma CleanScanMeansCleanContent(campaigns: Campaigns.CampaignScanner, scanner: FileScanners.Scanner, find: Find,
                                   resource: string, path: string)
    requires ScansWith(campaigns, scanner, find) && campaigns.scan(resource, path).verdict.NoThreatDetected?
    ensures NormalizeRelativePath(path) != ""
    ensures find(resource, path).Opened? && find(resource, path).regular
    ensures IsClean(scanner, find(resource, path).content)
    // The scan found it unchanged in the end.
    ensures exists c: FileScanners.Conditions, k ::
              && scanner.Answers(campaigns.scan(resource, path), resource, path, find(resource, path), c, k)
              && c.identityAfter.Some? && c.identityAfter.value == find(resource, path).identity
    ensures |find(resource, path).content| == find(resource, path).identity.size
  {
    var r, file := campaigns.scan(resource, path), find(resource, path);
    var c, k :| scanner.Answers(r, resource, path, file, c, k);
    scanner.NoThreatCovers(r, resource, path, file, c, k);
    scanner.NoThreatIff(r, file.content, k);
    scanner.FailuresIff(r, resource, path, file, c, k);
  }

  /** After a campaign that found no threat, every file that it had to enumerate is a regular file
      whose content matches no signature anywhere. */
  lemma NoThreatMeansCleanContents(campaigns: Campaigns.CampaignScanner, scanner: FileScanners.Scanner, find: Find,
                                   resource: string, mode: string, relativePath: string,
                                   clock: Campaigns.CampaignClock, r: Campaigns.CampaignResult,
                                   listing: Candidates.Listing, rel: seq<Name>, size: nat)
    requires ScansWith(campaigns, scanner, find)
    requires campaigns.IsResultOf(resource, mode, relativePath, clock, r) && r.verdict.NoThreatDetected?
    requires Campaigns.StartOf(relativePath).Some?
    requires var base := Campaigns.StartOf(relativePath).value.0;
             && campaigns.directory(resource, base).Some? && campaigns.directory(resource, base).value == listing
             && Candidates.ProperListing(listing) && mode in campaigns.profiles
             && CandidateFiles.IsCandidate(
                  campaigns.CampaignFor(resource, campaigns.profiles[mode], base,
                                        Campaigns.StartOf(relativePath).value.1).walk,
                  Candidates.Dir([], listing, 0), rel, size)
    ensures var base := Campaigns.StartOf(relativePath).value.0;
            var file := find(resource, Join(base + rel));
            file.Opened? && file.regular && IsClean(scanner, file.content)
  {
    hide IsClean, ScansWith, Campaigns.StartOf, CandidateFiles.IsCandidate;
    var (base, prefix) := Campaigns.StartOf(relativePath).value;
    var campaign := campaigns.CampaignFor(resource, campaigns.profiles[mode], base, prefix);
    campaigns.NoThreatIsClean(resource, mode, relativePath, clock, r);
    HasAName(campaign.walk, listing, rel, size);
    CleanScanMeansCleanContent(campaigns, scanner, find, resource, campaign.CandidatePath(rel));
    if prefix == "." {
      Campaigns.DotSlashCampaignScansNothing(rel);
      assert false;
    }
    Campaigns.CandidatePathIsBelowRootIff(campaign, relativePath, rel);
  }

  lemma HasAName(w: Candidates.Walk, listing: Candidates.Listing, rel: seq<Name>, size: nat)
    requires CandidateFiles.IsCandidate(w, Candidates.Dir([], listing, 0), rel, size)
    ensures rel != []
  {
  }
}
