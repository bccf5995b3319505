/** Which files a walk enumerates: exactly the ones that the directory tree, the depth bound and the
    exclusions call for, each of them once. */
module CandidateFiles {
  import opened Wrappers
  import opened ScanScopes
  import opened Candidates

  function Named(entries: seq<Entry>, name: Name): Option<Kind> {
    if entries == [] then None
    else if entries[0].name == name then Some(entries[0].kind)
    else Named(entries[1..], name)
  }

  /** What a path leads to, through directories that can be listed. */
  function Lookup(listing: Listing, path: seq<Name>): Option<Kind>
    decreases |path|
  {
    if path == [] || listing.BrokenOff? then None
    else
      match Named(listing.entries, path[0])
      case None => None
      case Some(kind) =>
        if |path| == 1 then Some(kind)
        else if kind.Directory? then Lookup(kind.listing, path[1..])
        else None
  }

  /** A file that the walk has to enumerate, by its path below `d`. */
  ghost predicate IsCandidate(w: Walk, d: Dir, rel: seq<Name>, size: nat) {
    && rel != [] && d.depth + |rel| - 1 <= w.maxDepth
    && Lookup(d.listing, rel) == Some(Regular(size))
    && !w.Excluded(d.path + rel)
  }

  ghost predicate Enumerated(w: Walk, d: Dir, y: Yield)
    requires d.depth <= w.maxDepth
  {
    y in w.Yields(w.Visits(d))
  }

  // ----- entries -----

  lemma {:induction false} NamedIff(entries: seq<Entry>, name: Name, kind: Kind)
    requires forall i, j :: 0 <= i < j < |entries| ==> entries[i].name != entries[j].name
    ensures Named(entries, name) == Some(kind) <==> Entry(name, kind) in entries
  {
    if entries != [] {
      NamedIff(entries[1..], name, kind);
      assert entries == [entries[0]] + entries[1..];
    }
  }

  lemma {:induction false} InYieldsOf(w: Walk, path: seq<Name>, entries: seq<Entry>, y: Yield)
    ensures y in w.YieldsOf(path, entries) <==> exists e <- entries :: y in w.YieldOf(path, e)
  {
    hide Walk.YieldOf;
    if entries != [] {
      var rest, last := entries[..|entries| - 1], entries[|entries| - 1];
      InYieldsOf(w, path, rest, y);
      assert entries == rest + [last];
    }
  }

  lemma {:induction false} InChildrenAmong(w: Walk, d: Dir, entries: seq<Entry>, c: Dir)
    ensures c in w.ChildrenAmong(d, entries) <==> exists e <- entries :: c in w.ChildOf(d, e)
  {
    hide Walk.ChildOf;
    if entries != [] {
      var rest, last := entries[..|entries| - 1], entries[|entries| - 1];
      InChildrenAmong(w, d, rest, c);
      assert entries == rest + [last];
    }
  }

  lemma InVisit(w: Walk, d: Dir, path: seq<Name>, size: nat)
    ensures File(path, size) in w.Visit(d) <==>
              d.listing.Listed? && !w.Excluded(path)
              && exists e <- d.listing.entries :: e.kind == Regular(size) && path == d.path + [e.name]
  {
    hide Walk.YieldsOf, Walk.Excluded, Ordered;
    if d.listing.Listed? {
      InYieldsOf(w, d.path, Ordered(d.listing.entries), File(path, size));
      OrderedIsPermutation(d.listing.entries);
    }
  }

  lemma InChildren(w: Walk, d: Dir, c: Dir)
    ensures c in w.Children(d) <==>
              d.listing.Listed? && d.depth < w.maxDepth && !w.Excluded(c.path) && c.depth == d.depth + 1
              && exists e <- d.listing.entries :: e.kind == Directory(c.listing) && c.path == d.path + [e.name]
  {
    hide Walk.ChildrenAmong, Walk.Excluded, Ordered;
    if d.listing.Listed? {
      InChildrenAmong(w, d, Ordered(d.listing.entries), c);
      OrderedIsPermutation(d.listing.entries);
    }
  }

  // ----- the walk, one directory at a time -----

  lemma {:induction false} InYieldsOfAll(w: Walk, ds: seq<Dir>, depth: nat, y: Yield)
    requires forall d <- ds :: d.depth == depth <= w.maxDepth
    ensures y in w.Yields(w.VisitsOfAll(ds, depth)) <==> exists d <- ds :: Enumerated(w, d, y)
  {
    hide Walk.Visits, Walk.Visit;
    if ds != [] {
      assert ds == [ds[0]] + ds[1..];
      var first, rest := w.Visits(ds[0]), w.VisitsOfAll(ds[1..], depth);
      InYieldsOfAll(w, ds[1..], depth, y);
      w.YieldsOfConcat(first, rest);
      assert w.VisitsOfAll(ds, depth) == first + rest;
      assert Enumerated(w, ds[0], y) <==> y in w.Yields(first);
      assert (exists d <- ds :: Enumerated(w, d, y)) <==>
             Enumerated(w, ds[0], y) || exists d <- ds[1..] :: Enumerated(w, d, y);
    }
  }

  lemma YieldsOfVisits(w: Walk, d: Dir)
    requires d.depth <= w.maxDepth
    ensures w.Yields(w.Visits(d)) == w.Visit(d) + w.Yields(w.VisitsOfAll(w.Children(d), d.depth + 1))
  {
    hide Walk.Visits, Walk.VisitsOfAll, Walk.Children, Walk.Visit;
    w.FirstVisit(d);
    var rest := w.VisitsOfAll(w.Children(d), d.depth + 1);
    assert ([d] + rest)[1..] == rest;
  }

  lemma EnumeratedIff(w: Walk, d: Dir, y: Yield)
    requires d.depth <= w.maxDepth
    ensures Enumerated(w, d, y) <==> y in w.Visit(d) || exists c <- w.Children(d) :: Enumerated(w, c, y)
  {
    hide Walk.Visits, Walk.VisitsOfAll, Walk.Children, Walk.Visit, Walk.Yields;
    YieldsOfVisits(w, d);
    InYieldsOfAll(w, w.Children(d), d.depth + 1, y);
  }

  lemma {:induction false} EnumeratedLiesBelow(w: Walk, d: Dir, path: seq<Name>, size: nat)
    requires d.depth <= w.maxDepth && Enumerated(w, d, File(path, size))
    ensures d.path < path
    decreases w.maxDepth - d.depth
  {
    hide Walk.Visit, Walk.Children, Enumerated;
    EnumeratedIff(w, d, File(path, size));
    InVisit(w, d, path, size);
    if File(path, size) !in w.Visit(d) {
      var c :| c in w.Children(d) && Enumerated(w, c, File(path, size));
      InChildren(w, d, c);
      EnumeratedLiesBelow(w, c, path, size);
    }
  }

  /** The walk enumerates exactly the regular files within the depth bound that can be reached
      through listable directories and lie outside the exclusions. */
  lemma {:induction false} EnumeratesExactlyCandidates(w: Walk, d: Dir, rel: seq<Name>, size: nat)
    requires d.depth <= w.maxDepth && ProperListing(d.listing)
    ensures Enumerated(w, d, File(d.path + rel, size)) <==> IsCandidate(w, d, rel, size)
    decreases |rel|
  {
    hide Enumerated, Walk.Visit, Walk.Children, Walk.Excluded;
    var path := d.path + rel;
    EnumeratedIff(w, d, File(path, size));
    InVisit(w, d, path, size);
    if rel == [] {
      if Enumerated(w, d, File(path, size)) {
        EnumeratedLiesBelow(w, d, path, size);
      }
    } else if d.listing.BrokenOff? {
      forall c | c in w.Children(d) ensures false {
        InChildren(w, d, c);
      }
    } else if |rel| == 1 {
      assert rel == [rel[0]];
      OneName(w, d, rel[0], size);
    } else {
      DeeperPath(w, d, rel, size);
    }
  }

  lemma OneName(w: Walk, d: Dir, name: Name, size: nat)
    requires d.depth <= w.maxDepth && ProperListing(d.listing) && d.listing.Listed?
    ensures Enumerated(w, d, File(d.path + [name], size)) <==> IsCandidate(w, d, [name], size)
  {
    hide Enumerated, Walk.Visit, Walk.Children, Walk.Excluded;
    var path := d.path + [name];
    EnumeratedIff(w, d, File(path, size));
    InVisit(w, d, path, size);
    NamedIff(d.listing.entries, name, Regular(size));
    forall c | c in w.Children(d) ensures !Enumerated(w, c, File(path, size)) {
      InChildren(w, d, c);
      if Enumerated(w, c, File(path, size)) {
        EnumeratedLiesBelow(w, c, path, size);
      }
    }
    forall e | e in d.listing.entries && d.path + [e.name] == path ensures e.name == name {
      assert e.name == (d.path + [e.name])[|d.path|] == path[|d.path|];
    }
  }

  lemma DeeperPath(w: Walk, d: Dir, rel: seq<Name>, size: nat)
    requires d.depth <= w.maxDepth && ProperListing(d.listing) && d.listing.Listed? && |rel| > 1
    ensures Enumerated(w, d, File(d.path + rel, size)) <==> IsCandidate(w, d, rel, size)
    decreases |rel|, 0
  {
    hide Enumerated, Walk.Visit, Walk.Children, Walk.Excluded;
    var path := d.path + rel;
    EnumeratedIff(w, d, File(path, size));
    InVisit(w, d, path, size);
    if Enumerated(w, d, File(path, size)) {
      var c :| c in w.Children(d) && Enumerated(w, c, File(path, size));
      InChildren(w, d, c);
      EnumeratedLiesBelow(w, c, path, size);
      var e :| e in d.listing.entries && e.kind == Directory(c.listing) && c.path == d.path + [e.name];
      assert e.name == c.path[|d.path|] == path[|d.path|] == rel[0];
      NamedIff(d.listing.entries, rel[0], e.kind);
      assert path == c.path + rel[1..];
      EnumeratesExactlyCandidates(w, c, rel[1..], size);
    }
    if IsCandidate(w, d, rel, size) {
      var kind := Named(d.listing.entries, rel[0]).value;
      NamedIff(d.listing.entries, rel[0], kind);
      var c := Dir(d.path + [rel[0]], kind.listing, d.depth + 1);
      assert path == c.path + rel[1..];
      ExcludedBelow(w, c.path, rel[1..]);
      InChildren(w, d, c);
      EnumeratesExactlyCandidates(w, c, rel[1..], size);
    }
  }

  lemma ExcludedBelow(w: Walk, path: seq<Name>, rest: seq<Name>)
    ensures w.Excluded(path) ==> w.Excluded(path + rest)
  {
    assert w.base + (path + rest) == (w.base + path) + rest;
  }

  // ----- each file once -----

  ghost predicate NoRepeats(ys: seq<Yield>) {
    forall i, j :: 0 <= i < j < |ys| && ys[i].File? && ys[j].File? ==> ys[i].path != ys[j].path
  }

  ghost predicate NoCommonFile(a: seq<Yield>, b: seq<Yield>) {
    forall y, z :: y in a && z in b && y.File? && z.File? ==> y.path != z.path
  }

  ghost predicate NamesApart(entries: seq<Entry>) {
    forall i, j :: 0 <= i < j < |entries| ==> entries[i].name != entries[j].name
  }

  ghost predicate Siblings(parent: Dir, ds: seq<Dir>) {
    && (forall d <- ds :: |d.path| == |parent.path| + 1 && d.depth == parent.depth + 1 && ProperListing(d.listing))
    && (forall i, j :: 0 <= i < j < |ds| ==> ds[i].path != ds[j].path)
  }

  lemma {:induction false} VisitHasNoRepeats(w: Walk, path: seq<Name>, entries: seq<Entry>)
    requires NamesApart(entries)
    ensures NoRepeats(w.YieldsOf(path, entries))
    ensures forall y <- w.YieldsOf(path, entries) :: y.File? ==>
              exists e <- entries :: y.path == path + [e.name]
  {
    hide Walk.Excluded;
    if entries != [] {
      var rest, last := entries[..|entries| - 1], entries[|entries| - 1];
      VisitHasNoRepeats(w, path, rest);
      assert entries == rest + [last];
      forall e | e in rest ensures path + [e.name] != path + [last.name] {
        assert (path + [e.name])[|path|] == e.name && (path + [last.name])[|path|] == last.name;
      }
    }
  }

  lemma {:induction false} ChildrenAreSiblings(w: Walk, d: Dir, entries: seq<Entry>)
    requires NamesApart(entries)
    requires forall e <- entries :: e.kind.Directory? ==> ProperListing(e.kind.listing)
    ensures Siblings(d, w.ChildrenAmong(d, entries))
    ensures forall c <- w.ChildrenAmong(d, entries) :: exists e <- entries :: c.path == d.path + [e.name]
  {
    hide Walk.Excluded, ProperListing;
    if entries != [] {
      var rest, last := entries[..|entries| - 1], entries[|entries| - 1];
      assert entries == rest + [last];
      ChildrenAreSiblings(w, d, rest);
      forall e | e in rest ensures d.path + [e.name] != d.path + [last.name] {
        assert (d.path + [e.name])[|d.path|] == e.name && (d.path + [last.name])[|d.path|] == last.name;
      }
    }
  }

  /** No file is enumerated twice. */
  lemma {:induction false} EnumeratesEachOnce(w: Walk, d: Dir)
    requires d.depth <= w.maxDepth && ProperListing(d.listing)
    ensures NoRepeats(w.Yields(w.Visits(d)))
    decreases w.maxDepth - d.depth, 1
  {
    hide Walk.Visits, Walk.VisitsOfAll, Walk.YieldsOf, Walk.ChildrenAmong, Ordered;
    YieldsOfVisits(w, d);
    var children := w.Children(d);
    var below := w.Yields(w.VisitsOfAll(children, d.depth + 1));
    if d.listing.Listed? {
      OrderedKeepsNamesApart(d.listing.entries);
      OrderedIsPermutation(d.listing.entries);
      VisitHasNoRepeats(w, d.path, Ordered(d.listing.entries));
      ChildrenAreSiblings(w, d, Ordered(d.listing.entries));
    }
    assert children != [] ==> children[0].depth == d.depth + 1;
    SiblingsShareNothing(w, d, children);
    forall y, z | y in w.Visit(d) && z in below && y.File? && z.File? ensures y.path != z.path {
      InYieldsOfAll(w, children, d.depth + 1, z);
      var c :| c in children && Enumerated(w, c, z);
      EnumeratedLiesBelow(w, c, z.path, z.size);
      InVisit(w, d, y.path, y.size);
    }
    ConcatHasNoRepeats(w.Visit(d), below);
  }

  lemma {:induction false} SiblingsShareNothing(w: Walk, d: Dir, ds: seq<Dir>)
    requires d.depth <= w.maxDepth && (ds != [] ==> d.depth < w.maxDepth)
    requires Siblings(d, ds)
    ensures NoRepeats(w.Yields(w.VisitsOfAll(ds, d.depth + 1)))
    decreases w.maxDepth - d.depth, 0, |ds|
  {
    hide Walk.Visits, Walk.Visit, ProperListing;
    if ds != [] {
      var first, rest := w.Visits(ds[0]), w.VisitsOfAll(ds[1..], d.depth + 1);
      assert ds == [ds[0]] + ds[1..];
      assert w.VisitsOfAll(ds, d.depth + 1) == first + rest;
      EnumeratesEachOnce(w, ds[0]);
      SiblingsShareNothing(w, d, ds[1..]);
      forall y, z | y in w.Yields(first) && z in w.Yields(rest) && y.File? && z.File?
        ensures y.path != z.path
      {
        EnumeratedLiesBelow(w, ds[0], y.path, y.size);
        InYieldsOfAll(w, ds[1..], d.depth + 1, z);
        var c :| c in ds[1..] && Enumerated(w, c, z);
        EnumeratedLiesBelow(w, c, z.path, z.size);
        PrefixesDiffer(ds[0].path, c.path, y.path, z.path);
      }
      w.YieldsOfConcat(first, rest);
      assert NoCommonFile(w.Yields(first), w.Yields(rest));
      ConcatHasNoRepeats(w.Yields(first), w.Yields(rest));
    }
  }

  lemma PrefixesDiffer(a: seq<Name>, b: seq<Name>, p: seq<Name>, q: seq<Name>)
    requires a <= p && b <= q && |a| == |b| && a != b
    ensures p != q
  {
    assert p[..|a|] == a && q[..|b|] == b;
  }

  lemma ConcatHasNoRepeats(a: seq<Yield>, b: seq<Yield>)
    requires NoRepeats(a) && NoRepeats(b) && NoCommonFile(a, b)
    ensures NoRepeats(a + b)
  {
  }

  // ----- enumerated files are never refused as protected -----

  lemma {:induction false} LookupHasNames(listing: Listing, path: seq<Name>)
    requires ProperListing(listing) && Lookup(listing, path).Some?
    ensures AreNames(path)
    decreases |path|
  {
    NamedIff(listing.entries, path[0], Named(listing.entries, path[0]).value);
    assert path == [path[0]] + path[1..];
    if |path| > 1 {
      LookupHasNames(Named(listing.entries, path[0]).value.listing, path[1..]);
    }
  }

  /** The scanner's exclusion test never refuses a file that the walk hands to it. */
  lemma EnumeratedIsNeverProtected(w: Walk, listing: Listing, rel: seq<Name>, size: nat)
    requires ProperListing(listing) && AreNames(w.base) && forall e <- w.exclusions :: AreNames(e)
    requires Enumerated(w, Dir([], listing, 0), File(rel, size))
    ensures rel != [] && !IsExcludedText(Join(w.base + rel), Texts(w.exclusions))
  {
    var root := Dir([], listing, 0);
    assert [] + rel == rel;
    EnumeratesExactlyCandidates(w, root, rel, size);
    LookupHasNames(listing, rel);
    ExclusionTestsAgreeIff(w.base + rel, w.exclusions);
  }

  /** The scanner refuses an enumerated file as an invalid path exactly for these characters and for
      its length. */
  lemma EnumeratedIsInvalidIff(w: Walk, listing: Listing, rel: seq<Name>, size: nat)
    requires ProperListing(listing) && AreNames(w.base)
    requires Enumerated(w, Dir([], listing, 0), File(rel, size))
    ensures rel != []
    ensures var path := Join(w.base + rel);
            NormalizeRelativePath(path) == "" <==>
              '\\' in path || '\0' in path || ':' in (w.base + rel)[0] || |path| > 1024
  {
    var root := Dir([], listing, 0);
    assert [] + rel == rel;
    EnumeratesExactlyCandidates(w, root, rel, size);
    LookupHasNames(listing, rel);
    var names := w.base + rel;
    SplitOfJoin(names);
    NormalizedIsItself(Join(names));
    assert IsName(names[0]) && names[0] <= Join(names);
  }

  // ----- a walk whose own root is excluded -----

  /** The walk passes over the entry without a trace. */
  predicate IsQuiet(e: Entry) {
    !e.kind.NoStat? && !e.kind.Link?
  }

  /** With the root excluded a walk enumerates no file. It yields nothing at all exactly if the root
      can be listed and shows no link and no entry without status. */
  lemma ExcludedRootYieldsNoFile(w: Walk, listing: Listing)
    requires [] in w.exclusions
    ensures var ys := w.Yields(w.Visits(Dir([], listing, 0)));
            && (forall y <- ys :: y.Skipped?)
            && (ys == [] <==> listing.Listed? && forall e <- listing.entries :: IsQuiet(e))
  {
    hide Walk.Visits, Ordered;
    var root := Dir([], listing, 0);
    w.FirstVisit(root);
    assert forall path: seq<Name> :: [] <= w.base + path;
    assert forall path :: w.Excluded(path);
    if listing.Listed? {
      OrderedIsPermutation(listing.entries);
      NothingBelowExcluded(w, root, Ordered(listing.entries));
    }
    assert w.Children(root) == [];
    assert w.Yields([root]) == w.Visit(root) + w.Yields([]);
    assert [root] + [] == [root];
  }

  lemma {:induction false} NothingBelowExcluded(w: Walk, d: Dir, entries: seq<Entry>)
    requires forall path :: w.Excluded(path)
    ensures w.ChildrenAmong(d, entries) == []
    ensures forall y <- w.YieldsOf(d.path, entries) :: y.Skipped?
    ensures w.YieldsOf(d.path, entries) == [] <==> forall e <- entries :: IsQuiet(e)
  {
    hide Walk.Excluded;
    if entries != [] {
      var rest, last := entries[..|entries| - 1], entries[|entries| - 1];
      NothingBelowExcluded(w, d, rest);
      assert entries == rest + [last];
      assert w.Excluded(d.path + [last.name]);
      assert w.YieldOf(d.path, last) == if IsQuiet(last) then [] else [Skipped];
    }
  }
}
