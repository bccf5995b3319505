/** The bounded walk that enumerates the files of a scan campaign. */
module Candidates {
  import opened Sorting
  import opened ScanContracts
  import opened ScanScopes

  /** A directory as listing it shows it; a listing may break off after some entries. */
  datatype Listing = Listed(entries: seq<Entry>) | BrokenOff(seen: nat)

  datatype Entry = Entry(name: Name, kind: Kind)

  datatype Kind = NoStat | Link | Junction | Regular(size: nat) | Directory(listing: Listing) | Special

  datatype Yield = File(path: seq<Name>, size: nat) | Skipped | LimitReached

  /** A directory to visit; its path is relative to the directory where the walk starts. */
  datatype Dir = Dir(path: seq<Name>, listing: Listing, depth: nat)

  predicate ByName(x: Entry, y: Entry) {
    StringLe(x.name, y.name)
  }

  /** The entries in name order. */
  function Ordered(entries: seq<Entry>): seq<Entry> {
    Sort(entries, ByName)
  }

  /** Directories in which every entry has a proper name of its own. */
  ghost predicate ProperListing(listing: Listing) {
    listing.Listed? ==>
      && (forall e <- listing.entries :: IsName(e.name)
                && (e.kind.Directory? ==> ProperListing(e.kind.listing)))
      && (forall i, j :: 0 <= i < j < |listing.entries| ==> listing.entries[i].name != listing.entries[j].name)
  }

  lemma OrderedIsPermutation(entries: seq<Entry>)
    ensures multiset(Ordered(entries)) == multiset(entries)
    ensures |Ordered(entries)| == |entries|
    ensures forall e :: e in Ordered(entries) <==> e in entries
    ensures Sorted(Ordered(entries), ByName)
  {
    forall x: Entry, y: Entry ensures ByName(x, y) || ByName(y, x) {
      StringLeIsTotal(x.name, y.name);
    }
    forall x: Entry, y: Entry, z: Entry | ByName(x, y) && ByName(y, z) ensures ByName(x, z) {
      StringLeIsTransitive(x.name, y.name, z.name);
    }
    SortSorts(entries, ByName);
    forall e ensures e in Ordered(entries) <==> e in entries {
      assert e in multiset(Ordered(entries)) <==> e in multiset(entries);
    }
  }

  lemma OrderedKeepsNamesApart(entries: seq<Entry>)
    requires forall i, j :: 0 <= i < j < |entries| ==> entries[i].name != entries[j].name
    ensures forall i, j :: 0 <= i < j < |Ordered(entries)| ==> Ordered(entries)[i].name != Ordered(entries)[j].name
  {
    OrderedIsPermutation(entries);
    var ordered := Ordered(entries);
    forall i, j | 0 <= i < j < |ordered| ensures ordered[i].name != ordered[j].name {
      TwiceInSequence(ordered, i, j);
      if ordered[i].name == ordered[j].name {
        assert ordered[i] in entries && ordered[j] in entries;
        assert ordered[i] == ordered[j];
        OnceInSequence(entries, ordered[i]);
      }
    }
  }

  lemma TwiceInSequence<T>(s: seq<T>, i: nat, j: nat)
    requires i < j < |s|
    ensures s[i] == s[j] ==> multiset(s)[s[i]] >= 2
  {
    assert s == s[..j] + s[j..];
    assert s[i] in s[..j] && s[j] in s[j..];
  }

  lemma {:induction false} OnceInSequence(entries: seq<Entry>, e: Entry)
    requires forall i, j :: 0 <= i < j < |entries| ==> entries[i].name != entries[j].name
    ensures multiset(entries)[e] <= 1
  {
    if entries != [] {
      OnceInSequence(entries[1..], e);
      assert entries == [entries[0]] + entries[1..];
      if e == entries[0] {
        assert e !in entries[1..];
      }
    }
  }

  /** How many entries a listing delivers. */
  function SeenIn(listing: Listing): nat {
    match listing
    case Listed(entries) => |entries|
    case BrokenOff(seen) => seen
  }

  /** Whether the deadline has passed when the walk comes to its `v`-th directory, and when it has seen
      `n` entries. */
  datatype WalkClock = WalkClock(atDirectory: nat -> bool, atEntry: nat -> bool)

  /** One bounded walk; `base` leads from the resource root to the directory where it starts. */
  datatype Walk = Walk(base: seq<Name>, exclusions: seq<seq<Name>>, maxDepth: nat, maxEntries: nat)
  {
    predicate Excluded(path: seq<Name>) {
      IsExcludedPath(base + path, exclusions)
    }

    // ----- the specification: a directory's files in name order, then its subdirectories -----

    function YieldOf(path: seq<Name>, e: Entry): seq<Yield> {
      if e.kind.NoStat? || e.kind.Link? then [Skipped]
      else if Excluded(path + [e.name]) then []
      else if e.kind.Junction? then [Skipped]
      else if e.kind.Regular? then [File(path + [e.name], e.kind.size)]
      else []
    }

    function YieldsOf(path: seq<Name>, entries: seq<Entry>): seq<Yield> {
      if entries == [] then []
      else
        YieldsOf(path, entries[..|entries| - 1]) + YieldOf(path, entries[|entries| - 1])
    }

    function ChildOf(d: Dir, e: Entry): seq<Dir> {
      if e.kind.Directory? && !Excluded(d.path + [e.name]) && d.depth < maxDepth
      then [Dir(d.path + [e.name], e.kind.listing, d.depth + 1)]
      else []
    }

    function ChildrenAmong(d: Dir, entries: seq<Entry>): (children: seq<Dir>)
      ensures forall c <- children :: c.depth == d.depth + 1 <= maxDepth
    {
      if entries == [] then []
      else ChildrenAmong(d, entries[..|entries| - 1]) + ChildOf(d, entries[|entries| - 1])
    }

    function Children(d: Dir): (children: seq<Dir>)
      ensures forall c <- children :: c.depth == d.depth + 1 <= maxDepth
    {
      if d.listing.BrokenOff? then [] else ChildrenAmong(d, Ordered(d.listing.entries))
    }

    /** What visiting one directory contributes. */
    function Visit(d: Dir): seq<Yield> {
      if d.listing.BrokenOff? then [Skipped] else YieldsOf(d.path, Ordered(d.listing.entries))
    }

    /** The directories in the order in which they are visited. */
    function Visits(d: Dir): (visits: seq<Dir>)
      requires d.depth <= maxDepth
      decreases maxDepth - d.depth, 0
    {
      [d] + VisitsOfAll(Children(d), d.depth + 1)
    }

    function VisitsOfAll(ds: seq<Dir>, depth: nat): seq<Dir>
      requires forall d <- ds :: d.depth == depth <= maxDepth
      decreases maxDepth - depth, |ds|
    {
      if ds == [] then [] else Visits(ds[0]) + VisitsOfAll(ds[1..], depth)
    }

    function Yields(visits: seq<Dir>): seq<Yield> {
      if visits == [] then [] else Visit(visits[0]) + Yields(visits[1..])
    }

    function EntriesSeen(visits: seq<Dir>): nat {
      if visits == [] then 0
      else
        SeenIn(visits[0].listing) + EntriesSeen(visits[1..])
    }

    /** Entry number `n` is beyond the bound, or the deadline has passed when it is seen. */
    predicate Stops(clock: WalkClock, n: nat) {
      n > maxEntries || clock.atEntry(n)
    }

    /** The walk ends in directory number `v`. */
    ghost predicate CutIn(visits: seq<Dir>, v: nat, clock: WalkClock)
      requires v < |visits|
    {
      var before := EntriesSeen(visits[..v]);
      clock.atDirectory(v) || exists n | before < n <= before + SeenIn(visits[v].listing) :: Stops(clock, n)
    }

    /** The walk ends after its first `v` directories. */
    ghost predicate EndsAfter(visits: seq<Dir>, v: nat, clock: WalkClock) {
      && v <= |visits|
      && (forall w :: 0 <= w < v ==> !CutIn(visits, w, clock))
      && (v < |visits| ==> CutIn(visits, v, clock))
    }

    /** What the walk produces: the yields of the directories it has finished, and a mark if it was
        cut short. */
    ghost predicate Produces(start: Listing, clock: WalkClock, ys: seq<Yield>) {
      var visits := Visits(Dir([], start, 0));
      exists v: nat ::
        EndsAfter(visits, v, clock) && ys == Yields(visits[..v]) + if v < |visits| then [LimitReached] else []
    }

    // ----- the walk itself -----

    /** The directories still to be visited, the next one last. */
    function VisitsOfStack(pending: seq<Dir>): seq<Dir>
      requires forall d <- pending :: d.depth <= maxDepth
    {
      if pending == [] then []
      else Visits(pending[|pending| - 1]) + VisitsOfStack(pending[..|pending| - 1])
    }

    lemma YieldsOfFirst(d: Dir, rest: seq<Dir>)
      ensures Yields([d] + rest) == Visit(d) + Yields(rest)
    {
      hide Visit;
      assert ([d] + rest)[1..] == rest;
    }

    lemma {:induction false} YieldsOfConcat(a: seq<Dir>, b: seq<Dir>)
      ensures Yields(a + b) == Yields(a) + Yields(b)
    {
      hide *;
      if a == [] {
        NoYields();
        NothingBefore(b, Yields(b));
      } else {
        YieldsOfConcat(a[1..], b);
        YieldsOfFirst(a[0], a[1..]);
        YieldsOfFirst(a[0], a[1..] + b);
        FirstOfConcat(a, b);
        Associative(Visit(a[0]), Yields(a[1..]), Yields(b));
      }
    }

    lemma NothingBefore(b: seq<Dir>, ys: seq<Yield>)
      ensures [] + b == b && [] + ys == ys
    {
    }

    lemma FirstOfConcat(a: seq<Dir>, b: seq<Dir>)
      requires a != []
      ensures a == [a[0]] + a[1..] && a + b == [a[0]] + (a[1..] + b)
    {
    }

    lemma Associative(x: seq<Yield>, y: seq<Yield>, z: seq<Yield>)
      ensures x + (y + z) == (x + y) + z
    {
    }

    lemma NoYields()
      ensures Yields([]) == []
    {
    }

    lemma {:induction false} EntriesOfConcat(a: seq<Dir>, b: seq<Dir>)
      ensures EntriesSeen(a + b) == EntriesSeen(a) + EntriesSeen(b)
    {
      hide SeenIn;
      if a == [] {
        assert a + b == b;
      } else {
        EntriesOfConcat(a[1..], b);
        assert (a + b)[1..] == a[1..] + b;
      }
    }

    function Reversed(ds: seq<Dir>): (r: seq<Dir>)
      ensures |r| == |ds| && forall d <- r :: d in ds
    {
      if ds == [] then []
      else
        assert ds == [ds[0]] + ds[1..];
        Reversed(ds[1..]) + [ds[0]]
    }

    lemma TopOfStack(pending: seq<Dir>)
      requires pending != [] && forall d <- pending :: d.depth <= maxDepth
      ensures VisitsOfStack(pending) ==
                Visits(pending[|pending| - 1]) + VisitsOfStack(pending[..|pending| - 1])
    {
      hide Visits;
    }

    lemma FirstVisit(d: Dir)
      requires d.depth <= maxDepth
      ensures Visits(d) == [d] + VisitsOfAll(Children(d), d.depth + 1)
    {
      hide VisitsOfAll, Children;
    }

    /** Pushing the children in reverse order makes the stack deliver them in name order. */
    lemma {:induction false} PushedInReverse(pending: seq<Dir>, ds: seq<Dir>, depth: nat)
      requires forall d <- pending :: d.depth <= maxDepth
      requires forall d <- ds :: d.depth == depth <= maxDepth
      ensures VisitsOfStack(pending + Reversed(ds)) == VisitsOfAll(ds, depth) + VisitsOfStack(pending)
    {
      hide Visits, Children, VisitsOfStack;
      if ds == [] {
        assert pending + Reversed(ds) == pending;
      } else {
        PushedInReverse(pending, ds[1..], depth);
        var stack := pending + Reversed(ds);
        assert stack[..|stack| - 1] == pending + Reversed(ds[1..]);
        TopOfStack(stack);
      }
    }

    /** Visiting the top of the stack and pushing its children leaves the same visits to be made. */
    lemma VisitsOfTop(pending: seq<Dir>)
      requires pending != [] && forall d <- pending :: d.depth <= maxDepth
      ensures var top, below := pending[|pending| - 1], pending[..|pending| - 1];
              VisitsOfStack(pending) == [top] + VisitsOfStack(below + Reversed(Children(top)))
    {
      hide *;
      var top, below := pending[|pending| - 1], pending[..|pending| - 1];
      var inside, after := VisitsOfAll(Children(top), top.depth + 1), VisitsOfStack(below);
      PushedInReverse(below, Children(top), top.depth + 1);
      TopOfStack(pending);
      FirstVisit(top);
      Regroup(top, inside, after);
    }

    lemma Regroup(first: Dir, inside: seq<Dir>, after: seq<Dir>)
      ensures ([first] + inside) + after == [first] + (inside + after)
    {
    }

    lemma DoneAndNext(done: seq<Dir>, top: Dir, rest: seq<Dir>)
      ensures (done + ([top] + rest))[..|done|] == done && (done + ([top] + rest))[|done|] == top
      ensures EntriesSeen(done + ([top] + rest)) >= EntriesSeen(done) + SeenIn(top.listing)
      ensures Yields(done + [top]) == Yields(done) + Visit(top)
      ensures EntriesSeen(done + [top]) == EntriesSeen(done) + SeenIn(top.listing)
    {
      YieldsOfConcat(done, [top]);
      EntriesOfConcat(done, [top] + rest);
      EntriesOfConcat(done, [top]);
      assert ([top] + rest)[1..] == rest;
      assert Yields([top]) == Visit(top) + [];
    }

    /** List a directory, counting entries against bound and deadline. */
    method CountEntries(listing: Listing, before: nat, clock: WalkClock) returns (visited: nat, within: bool)
      ensures within <==> forall n :: before < n <= before + SeenIn(listing) ==> !Stops(clock, n)
      ensures within ==> visited == before + SeenIn(listing)
    {
      visited, within := before, true;
      for i := 0 to SeenIn(listing)
        invariant visited == before + i
        invariant forall n :: before < n <= visited ==> !Stops(clock, n)
      {
        visited := visited + 1;
        if visited > maxEntries || clock.atEntry(visited) {
          assert Stops(clock, visited);
          return visited, false;
        }
      }
    }

    method VisitEntries(d: Dir, entries: seq<Entry>) returns (found: seq<Yield>, directories: seq<Dir>)
      requires d.depth <= maxDepth
      ensures found == YieldsOf(d.path, entries) && directories == ChildrenAmong(d, entries)
    {
      hide Excluded;
      found, directories := [], [];
      for i := 0 to |entries|
        invariant found == YieldsOf(d.path, entries[..i])
        invariant directories == ChildrenAmong(d, entries[..i])
      {
        assert entries[..i + 1][..i] == entries[..i];
        var e := entries[i];
        if e.kind.NoStat? {
          found := found + [Skipped];
        } else if e.kind.Link? {
          found := found + [Skipped];
        } else if !Excluded(d.path + [e.name]) {
          if e.kind.Junction? {
            found := found + [Skipped];
          } else if e.kind.Regular? {
            found := found + [File(d.path + [e.name], e.kind.size)];
          } else if e.kind.Directory? && d.depth < maxDepth {
            directories := directories + [Dir(d.path + [e.name], e.kind.listing, d.depth + 1)];
          }
        }
      }
      assert entries[..|entries|] == entries;
    }

    /** The directories on the stack lead to the visits that are still to be made. */
    ghost predicate OnStack(all: seq<Dir>, done: seq<Dir>, pending: seq<Dir>) {
      (forall d <- pending :: d.depth <= maxDepth) && done + VisitsOfStack(pending) == all
    }

    lemma NextOnStack(all: seq<Dir>, done: seq<Dir>, pending: seq<Dir>)
      requires OnStack(all, done, pending) && pending != []
      ensures var top := pending[|pending| - 1];
              && top.depth <= maxDepth
              && |done| < |all| && all[..|done|] == done && all[|done|] == top
              && OnStack(all, done + [top], pending[..|pending| - 1] + Reversed(Children(top)))
              && Yields(done + [top]) == Yields(done) + Visit(top)
              && EntriesSeen(done + [top]) == EntriesSeen(done) + SeenIn(top.listing)
    {
      hide Visits, VisitsOfAll, VisitsOfStack, Yields, EntriesSeen, Children, Visit;
      var top, below := pending[|pending| - 1], pending[..|pending| - 1];
      assert top in pending && top.depth <= maxDepth;
      VisitsOfTop(pending);
      var rest := VisitsOfStack(below + Reversed(Children(top)));
      DoneAndNext(done, top, rest);
      assert done + ([top] + rest) == (done + [top]) + rest;
    }

    /** Enumerate with an explicit stack. */
    method Enumerate(start: Listing, clock: WalkClock) returns (produced: seq<Yield>)
      ensures Produces(start, clock, produced)
    {
      hide Visits, VisitsOfAll, VisitsOfStack, Yields, EntriesSeen, Children, ChildrenAmong, YieldsOf, CutIn, Stops,
        EndsAfter, Produces, UncutSoFar, OnStack, Visit, Reversed;
      produced := [];
      var pending, visited, begun := [Dir([], start, 0)], 0, 0;
      ghost var all, done := Visits(Dir([], start, 0)), [];
      FirstOnStack(Dir([], start, 0));
      NothingCutYet(all, clock);
      while pending != []
        invariant OnStack(all, done, pending)
        invariant produced == Yields(done) && visited == EntriesSeen(done) && begun == |done|
        invariant UncutSoFar(all, |done|, clock)
        decreases |all| - |done|
      {
        var top := pending[|pending| - 1];
        NextOnStack(all, done, pending);
        CutHere(all, done, top, clock);
        if clock.atDirectory(begun) {
          EndsHere(start, clock, done, produced + [LimitReached]);
          return produced + [LimitReached];
        }
        pending := pending[..|pending| - 1];
        var within;
        visited, within := CountEntries(top.listing, visited, clock);
        if !within {
          EndsHere(start, clock, done, produced + [LimitReached]);
          return produced + [LimitReached];
        }
        VisitAndChildren(top);
        match top.listing {
          case BrokenOff(_) =>
            produced := produced + [Skipped];
            assert pending + Reversed([]) == pending by { NothingReversed(); }
          case Listed(entries) =>
            var found, directories := VisitEntries(top, Ordered(entries));
            produced := produced + found;
            pending := pending + Reversed(directories);
        }
        OneMoreUncut(all, |done|, clock);
        begun := begun + 1;
        done := done + [top];
      }
      NothingOnStack(all, done, pending);
      EndsHere(start, clock, done, produced);
    }

    lemma NothingReversed()
      ensures Reversed([]) == []
    {
    }

    ghost predicate UncutSoFar(visits: seq<Dir>, v: nat, clock: WalkClock) {
      v <= |visits| && forall w :: 0 <= w < v ==> !CutIn(visits, w, clock)
    }

    lemma NothingCutYet(visits: seq<Dir>, clock: WalkClock)
      ensures UncutSoFar(visits, 0, clock)
    {
    }

    lemma OneMoreUncut(visits: seq<Dir>, v: nat, clock: WalkClock)
      requires UncutSoFar(visits, v, clock) && v < |visits| && !CutIn(visits, v, clock)
      ensures UncutSoFar(visits, v + 1, clock)
    {
      hide CutIn;
    }

    lemma EndsHere(start: Listing, clock: WalkClock, done: seq<Dir>, produced: seq<Yield>)
      requires var visits := Visits(Dir([], start, 0));
               && UncutSoFar(visits, |done|, clock) && visits[..|done|] == done
               && (|done| < |visits| ==> CutIn(visits, |done|, clock))
               && produced == if |done| < |visits| then Yields(done) + [LimitReached] else Yields(done)
      ensures Produces(start, clock, produced)
    {
      hide CutIn, Visits, Yields;
      var visits := Visits(Dir([], start, 0));
      assert EndsAfter(visits, |done|, clock);
      assert Yields(done) + [] == Yields(done);
    }

    /** The program counts its directories: the one it is in is directory number `|done|`. */
    lemma CutHere(all: seq<Dir>, done: seq<Dir>, top: Dir, clock: WalkClock)
      requires |done| < |all| && all[..|done|] == done && all[|done|] == top
      ensures CutIn(all, |done|, clock) <==>
                clock.atDirectory(|done|)
                || !forall n :: EntriesSeen(done) < n <= EntriesSeen(done) + SeenIn(top.listing) ==> !Stops(clock, n)
    {
      hide Stops, EntriesSeen;
    }

    /** A walk is not cut short if it stays within the bound and the deadline never passes. */
    lemma UncutWalkYieldsAll(start: Listing, clock: WalkClock, ys: seq<Yield>)
      requires Produces(start, clock, ys) && EntriesSeen(Visits(Dir([], start, 0))) <= maxEntries
      requires (forall v :: !clock.atDirectory(v)) && (forall n :: !clock.atEntry(n))
      ensures ys == Yields(Visits(Dir([], start, 0)))
    {
      hide *;
      var visits := Visits(Dir([], start, 0));
      var v := WalkStaysWithinBounds(start, clock, ys);
      if v < |visits| {
        SeenUpTo(visits, v);
        assert false;
      }
      assert visits[..|visits|] == visits;
    }

    lemma SeenUpTo(visits: seq<Dir>, v: nat)
      requires v < |visits|
      ensures EntriesSeen(visits) >= EntriesSeen(visits[..v]) + SeenIn(visits[v].listing)
    {
      hide EntriesSeen, Yields;
      assert visits == visits[..v] + ([visits[v]] + visits[v + 1..]);
      DoneAndNext(visits[..v], visits[v], visits[v + 1..]);
    }

    /** What a walk produces is a part of the full enumeration, and a mark if it was cut short. */
    lemma ProducesPart(start: Listing, clock: WalkClock, ys: seq<Yield>)
      requires Produces(start, clock, ys)
      ensures var all := Yields(Visits(Dir([], start, 0)));
              ys == all || exists done :: done <= all && ys == done + [LimitReached]
    {
      hide Visits, Yields, CutIn;
      var visits := Visits(Dir([], start, 0));
      var v: nat :| EndsAfter(visits, v, clock)
                    && ys == Yields(visits[..v]) + if v < |visits| then [LimitReached] else [];
      assert visits == visits[..v] + visits[v..];
      YieldsOfConcat(visits[..v], visits[v..]);
      assert v == |visits| ==> visits[..v] == visits;
    }

    /** A walk stays within its bound and its time: the directories it finishes have no more entries than the
        bound allows, none of them was begun and no entry seen after the deadline; and it is cut short only
        by one of these. */
    lemma WalkStaysWithinBounds(start: Listing, clock: WalkClock, ys: seq<Yield>) returns (v: nat)
      requires Produces(start, clock, ys)
      ensures var visits := Visits(Dir([], start, 0));
              && v <= |visits| && ys == Yields(visits[..v]) + (if v < |visits| then [LimitReached] else [])
              && EntriesSeen(visits[..v]) <= maxEntries
              && (forall w :: 0 <= w < v ==> !clock.atDirectory(w))
              && (forall n :: 0 < n <= EntriesSeen(visits[..v]) ==> !clock.atEntry(n))
              && (v < |visits| ==>
                    || clock.atDirectory(v)
                    || EntriesSeen(visits[..v]) + SeenIn(visits[v].listing) > maxEntries
                    || exists n :: EntriesSeen(visits[..v]) < n <= EntriesSeen(visits[..v]) + SeenIn(visits[v].listing)
                                   && clock.atEntry(n))
    {
      hide Visits, Yields, EntriesSeen;
      var visits := Visits(Dir([], start, 0));
      v :| EndsAfter(visits, v, clock) && ys == Yields(visits[..v]) + if v < |visits| then [LimitReached] else [];
      UncutIsWithinBounds(visits, v, clock);
    }

    lemma {:induction false} UncutIsWithinBounds(visits: seq<Dir>, v: nat, clock: WalkClock)
      requires v <= |visits| && forall w :: 0 <= w < v ==> !CutIn(visits, w, clock)
      ensures EntriesSeen(visits[..v]) <= maxEntries
      ensures forall w :: 0 <= w < v ==> !clock.atDirectory(w)
      ensures forall n :: 0 < n <= EntriesSeen(visits[..v]) ==> !clock.atEntry(n)
    {
      hide EntriesSeen;
      NothingSeen();
      assert visits[..0] == [];
      if v > 0 {
        UncutIsWithinBounds(visits, v - 1, clock);
        var before, top := visits[..v - 1], visits[v - 1];
        assert visits[..v] == before + ([top] + []);
        DoneAndNext(before, top, []);
        assert !CutIn(visits, v - 1, clock);
        assert visits[..v] == before + [top];
        forall n | EntriesSeen(before) < n <= EntriesSeen(before) + SeenIn(top.listing) ensures !Stops(clock, n) {
        }
        assert EntriesSeen(visits[..v]) > maxEntries ==> Stops(clock, EntriesSeen(visits[..v]));
        forall n | 0 < n <= EntriesSeen(visits[..v]) ensures !clock.atEntry(n) {
          if n > EntriesSeen(before) {
            assert !Stops(clock, n);
          }
        }
      }
    }

    lemma NothingSeen()
      ensures EntriesSeen([]) == 0
    {
    }

    /** What a walk produces is determined by listing and clock. */
    lemma ProducesOnce(start: Listing, clock: WalkClock, a: seq<Yield>, b: seq<Yield>)
      requires Produces(start, clock, a) && Produces(start, clock, b)
      ensures a == b
    {
      hide Visits, Yields, CutIn;
      var visits := Visits(Dir([], start, 0));
      var v: nat :| EndsAfter(visits, v, clock)
                    && a == Yields(visits[..v]) + if v < |visits| then [LimitReached] else [];
      var w: nat :| EndsAfter(visits, w, clock)
                    && b == Yields(visits[..w]) + if w < |visits| then [LimitReached] else [];
      assert v == w;
    }

    lemma FirstOnStack(d: Dir)
      requires d.depth <= maxDepth
      ensures OnStack(Visits(d), [], [d]) && Yields([]) == [] && EntriesSeen([]) == 0
    {
      assert [d][..0] == [];
      assert VisitsOfStack([d]) == Visits(d) + [];
    }

    lemma NothingOnStack(all: seq<Dir>, done: seq<Dir>, pending: seq<Dir>)
      requires OnStack(all, done, pending) && pending == []
      ensures done == all == all[..|done|]
    {
    }

    lemma VisitAndChildren(d: Dir)
      ensures Visit(d) == if d.listing.BrokenOff? then [Skipped] else YieldsOf(d.path, Ordered(d.listing.entries))
      ensures Children(d) == if d.listing.BrokenOff? then [] else ChildrenAmong(d, Ordered(d.listing.entries))
    {
    }
  }
}
