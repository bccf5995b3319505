/** Which directories a walk visits, and which entries it passes over without a look inside. */
module VisitedDirectories {
  import opened Wrappers
  import opened ScanScopes
  import opened Candidates
  import opened CandidateFiles

  ghost predicate Visited(w: Walk, d: Dir, c: Dir)
    requires d.depth <= w.maxDepth
  {
    c in w.Visits(d)
  }

  /** A directory that the walk has to visit, by its path below `d`. */
  ghost predicate IsSubdirectory(w: Walk, d: Dir, rel: seq<Name>, listing: Listing) {
    && rel != [] && d.depth + |rel| <= w.maxDepth
    && Lookup(d.listing, rel) == Some(Directory(listing))
    && !w.Excluded(d.path + rel)
  }

  lemma {:induction false} InVisitsOfAll(w: Walk, ds: seq<Dir>, depth: nat, c: Dir)
    requires forall d <- ds :: d.depth == depth <= w.maxDepth
    ensures c in w.VisitsOfAll(ds, depth) <==> exists d <- ds :: Visited(w, d, c)
  {
    hide Walk.Visits;
    if ds != [] {
      assert ds == [ds[0]] + ds[1..];
      InVisitsOfAll(w, ds[1..], depth, c);
      assert Visited(w, ds[0], c) <==> c in w.Visits(ds[0]);
      assert w.VisitsOfAll(ds, depth) == w.Visits(ds[0]) + w.VisitsOfAll(ds[1..], depth);
    }
  }

  lemma VisitedIff(w: Walk, d: Dir, c: Dir)
    requires d.depth <= w.maxDepth
    ensures Visited(w, d, c) <==> c == d || exists k <- w.Children(d) :: Visited(w, k, c)
  {
    hide Walk.Visits, Walk.VisitsOfAll, Walk.Children;
    w.FirstVisit(d);
    InVisitsOfAll(w, w.Children(d), d.depth + 1, c);
  }

  lemma {:induction false} VisitedLiesBelow(w: Walk, d: Dir, c: Dir)
    requires d.depth <= w.maxDepth && Visited(w, d, c)
    ensures d.path <= c.path && (c.path == d.path ==> c == d)
    decreases w.maxDepth - d.depth
  {
    hide Visited, Walk.Children;
    VisitedIff(w, d, c);
    if c != d {
      var k :| k in w.Children(d) && Visited(w, k, c);
      InChildren(w, d, k);
      VisitedLiesBelow(w, k, c);
    }
  }

  /** Below the directory where it starts, a walk visits exactly the directories within the depth bound
      that can be reached through listable directories and lie outside the exclusions. */
  lemma {:induction false} VisitsExactlySubdirectories(w: Walk, d: Dir, rel: seq<Name>, listing: Listing)
    requires d.depth <= w.maxDepth && ProperListing(d.listing) && rel != []
    ensures Visited(w, d, Dir(d.path + rel, listing, d.depth + |rel|)) <==> IsSubdirectory(w, d, rel, listing)
    decreases |rel|
  {
    hide Visited, Walk.Children, Walk.Excluded;
    var c := Dir(d.path + rel, listing, d.depth + |rel|);
    VisitedIff(w, d, c);
    if d.listing.BrokenOff? {
      forall k | k in w.Children(d) ensures false {
        InChildren(w, d, k);
      }
    } else {
      if Visited(w, d, c) {
        VisitedIsSubdirectory(w, d, rel, listing);
      }
      if IsSubdirectory(w, d, rel, listing) {
        SubdirectoryIsVisited(w, d, rel, listing);
      }
    }
  }

  lemma VisitedIsSubdirectory(w: Walk, d: Dir, rel: seq<Name>, listing: Listing)
    requires d.depth <= w.maxDepth && ProperListing(d.listing) && d.listing.Listed? && rel != []
    requires Visited(w, d, Dir(d.path + rel, listing, d.depth + |rel|))
    ensures IsSubdirectory(w, d, rel, listing)
    decreases |rel|, 0
  {
    hide Visited, Walk.Children, Walk.Excluded;
    var c := Dir(d.path + rel, listing, d.depth + |rel|);
    VisitedIff(w, d, c);
    var k :| k in w.Children(d) && Visited(w, k, c);
    InChildren(w, d, k);
    VisitedLiesBelow(w, k, c);
    var e :| e in d.listing.entries && e.kind == Directory(k.listing) && k.path == d.path + [e.name];
    assert e.name == k.path[|d.path|] == c.path[|d.path|] == rel[0];
    NamedIff(d.listing.entries, rel[0], e.kind);
    assert c.path == k.path + rel[1..];
    if |rel| == 1 {
      assert c.path == k.path;
      assert rel == [rel[0]];
    } else {
      VisitsExactlySubdirectories(w, k, rel[1..], listing);
    }
  }

  lemma SubdirectoryIsVisited(w: Walk, d: Dir, rel: seq<Name>, listing: Listing)
    requires d.depth <= w.maxDepth && ProperListing(d.listing) && d.listing.Listed?
    requires IsSubdirectory(w, d, rel, listing)
    ensures Visited(w, d, Dir(d.path + rel, listing, d.depth + |rel|))
    decreases |rel|, 0
  {
    hide Visited, Walk.Children, Walk.Excluded;
    var c := Dir(d.path + rel, listing, d.depth + |rel|);
    var kind := Named(d.listing.entries, rel[0]).value;
    NamedIff(d.listing.entries, rel[0], kind);
    var k := Dir(d.path + [rel[0]], kind.listing, d.depth + 1);
    assert c.path == k.path + rel[1..];
    ExcludedBelow(w, k.path, rel[1..]);
    InChildren(w, d, k);
    VisitedIff(w, d, c);
    VisitedIff(w, k, c);
    if |rel| == 1 {
      assert c == k;
    } else {
      VisitsExactlySubdirectories(w, k, rel[1..], listing);
    }
  }

  // ----- entries that are passed over -----

  /** Something in the directory cannot be judged: its listing breaks off, or an entry is a link, a
      junction outside the exclusions, or has no status. */
  predicate PassesOver(w: Walk, d: Dir) {
    match d.listing
    case BrokenOff(_) => true
    case Listed(entries) =>
      exists e <- entries ::
        || e.kind.NoStat? || e.kind.Link?
        || (e.kind.Junction? && !IsExcludedPath(w.base + d.path + [e.name], w.exclusions))
  }

  lemma InVisitSkipped(w: Walk, d: Dir)
    ensures Skipped in w.Visit(d) <==> PassesOver(w, d)
  {
    hide Walk.YieldsOf, Ordered;
    if d.listing.Listed? {
      InYieldsOf(w, d.path, Ordered(d.listing.entries), Skipped);
      OrderedIsPermutation(d.listing.entries);
      forall e: Entry ensures w.base + (d.path + [e.name]) == w.base + d.path + [e.name] {
      }
    }
  }

  lemma {:induction false} InYields(w: Walk, visits: seq<Dir>, y: Yield)
    ensures y in w.Yields(visits) <==> exists v <- visits :: y in w.Visit(v)
  {
    hide Walk.Visit;
    if visits != [] {
      InYields(w, visits[1..], y);
      assert visits == [visits[0]] + visits[1..];
    }
  }

  /** A walk marks something as passed over exactly if that happens in a directory it visits. */
  lemma SkipsIff(w: Walk, listing: Listing)
    ensures Enumerated(w, Dir([], listing, 0), Skipped) <==>
              exists d :: Visited(w, Dir([], listing, 0), d) && PassesOver(w, d)
  {
    hide Walk.Visits, Walk.Visit, Walk.Yields, PassesOver;
    var visits := w.Visits(Dir([], listing, 0));
    InYields(w, visits, Skipped);
    forall v <- visits ensures Skipped in w.Visit(v) <==> PassesOver(w, v) {
      InVisitSkipped(w, v);
    }
  }
}
