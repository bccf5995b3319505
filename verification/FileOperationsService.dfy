/** The service that prepares, commits and cancels file-operation plans. */
module FileOperationsService {
  import opened Wrappers
  import opened FileTree
  import opened MoveSequences
  import opened FileSystems
  import opened TargetNames
  import opened FileOperations
  import opened Trash

  datatype PlanState = Prepared | Committing | Committed | Cancelled | Failed

  datatype Output = CreatedOne | MovedCount(count: nat) | RenamedTo(name: Name) | TrashedCount(count: nat)

  datatype SelectionError =
    | SizeOutOfBounds | OutsideAllowedRoots | UnsafeComponent | ItemUnavailable | DuplicateItem

  function SourcesOf(operation: Operation): seq<Snapshot> {
    match operation
    case CreateDirectory(_, _) => []
    case MoveResults(sources, _, _, _) => sources
    case RenameItem(source, _, _) => [source]
    case TrashResults(sources) => sources
  }

  ghost predicate NoDuplicates(paths: seq<Path>) {
    forall i, j :: 0 <= i < j < |paths| ==> paths[i] != paths[j]
  }

  /** Every selected item is still what it was when the plan was prepared. */
  predicate SelectionUnchanged(t: Tree, sources: seq<Snapshot>) {
    forall i :: 0 <= i < |sources| ==>
      sources[i].path in t && t[sources[i].path] == sources[i].node
  }

  function DestinationOf(operation: Operation): Option<Destination> {
    match operation
    case CreateDirectory(destination, _) => Some(destination)
    case MoveResults(_, destination, _, _) => Some(destination)
    case _ => None
  }

  /** The operation reaches the root of a role, and that root is no longer a directory. */
  predicate MeetsMissingRoot(operation: Operation, t: Tree) {
    && DestinationOf(operation).Some? && RootMissing(t, DestinationOf(operation).value)
    && SelectionUnchanged(t, SourcesOf(operation))
  }

  /** A directory to be made on a desktop that has disappeared. */
  lemma RootCanBeMissing()
    ensures exists operation: Operation, t: Tree :: WellFormed(t) && MeetsMissingRoot(operation, t)
  {
    var t: Tree := map[[] := Dir(0)];
    var operation := CreateDirectory(Role(["Desktop"]), "new");
    assert WellFormed(t) && MeetsMissingRoot(operation, t);
  }

  /** Neither the path nor a directory that it goes through is a link. */
  ghost predicate NoLinkAbove(t: Tree, p: Path) {
    forall a :: a <= p && a in t ==> !t[a].Link?
  }

  lemma NoLinkAboveIff(t: Tree, p: Path)
    ensures NoLinkAbove(t, p) <==> !LinkOnTheWay(t, p)
  {
    if LinkOnTheWay(t, p) {
      var k :| 0 <= k <= |p| && p[..k] in t && t[p[..k]].Link?;
      assert p[..k] <= p;
    }
    forall a | a <= p && a in t && t[a].Link? ensures LinkOnTheWay(t, p) {
      assert a == p[..|a|];
    }
  }

  // ----- roots -----

  /** How many of the first `k` destination roots contain the path. */
  function ContainingRoots(roots: seq<Path>, p: Path, k: nat): nat
    requires k <= |roots|
  {
    if k == 0 then 0 else ContainingRoots(roots, p, k - 1) + if roots[k - 1] <= p then 1 else 0
  }

  /** The path lies in one root, and in no other. */
  predicate IsAllowed(roots: seq<Path>, p: Path) {
    ContainingRoots(roots, p, |roots|) == 1
  }

  /** What the service demands of its configuration: different roots do not contain one another, and
      the trash is neither a root nor inside one. */
  predicate RootsAreSafe(roots: seq<Path>, trash: Path) {
    && (forall i, j :: 0 <= i < |roots| && 0 <= j < |roots| && roots[i] != roots[j] ==> !(roots[i] <= roots[j]))
    && (forall i :: 0 <= i < |roots| ==> !(roots[i] <= trash))
  }

  /** No root lies in the metadata directory of the trash. */
  predicate NoRootInMetadata(roots: seq<Path>, trash: Path) {
    forall i :: 0 <= i < |roots| ==> !(InfoDirectory(trash) <= roots[i])
  }

  lemma {:induction false} SomeRootContains(roots: seq<Path>, p: Path, k: nat)
    requires k <= |roots| && ContainingRoots(roots, p, k) > 0
    ensures exists i :: 0 <= i < k && roots[i] <= p
  {
    if !(roots[k - 1] <= p) {
      SomeRootContains(roots, p, k - 1);
    }
  }

  lemma {:induction false} OnlyRootCounts(roots: seq<Path>, p: Path, i: nat, k: nat)
    requires i < k <= |roots| && roots[i] <= p
    requires forall j :: 0 <= j < k && j != i ==> !(roots[j] <= p)
    ensures ContainingRoots(roots, p, k) == 1
  {
    if i == k - 1 {
      NoRootCounts(roots, p, i);
    } else {
      OnlyRootCounts(roots, p, i, k - 1);
    }
  }

  lemma {:induction false} NoRootCounts(roots: seq<Path>, p: Path, k: nat)
    requires k <= |roots| && forall j :: 0 <= j < k ==> !(roots[j] <= p)
    ensures ContainingRoots(roots, p, k) == 0
  {
    if k > 0 {
      NoRootCounts(roots, p, k - 1);
    }
  }

  /** One root is at or above the path, and no other. */
  ghost predicate LiesInOneRoot(roots: seq<Path>, p: Path) {
    exists i :: 0 <= i < |roots| && roots[i] <= p && forall j :: 0 <= j < |roots| && j != i ==> !(roots[j] <= p)
  }

  lemma {:induction false} RootsCountUp(roots: seq<Path>, p: Path, i: nat, j: nat, k: nat)
    requires i < j < k <= |roots| && roots[i] <= p && roots[j] <= p
    ensures ContainingRoots(roots, p, k) > 1
  {
    if j == k - 1 {
      ContainsOne(roots, p, i, j);
    } else {
      RootsCountUp(roots, p, i, j, k - 1);
    }
  }

  lemma {:induction false} ContainsOne(roots: seq<Path>, p: Path, i: nat, k: nat)
    requires i < k <= |roots| && roots[i] <= p
    ensures ContainingRoots(roots, p, k) > 0
  {
    if i < k - 1 {
      ContainsOne(roots, p, i, k - 1);
    }
  }

  lemma IsAllowedIff(roots: seq<Path>, p: Path)
    ensures IsAllowed(roots, p) <==> LiesInOneRoot(roots, p)
  {
    if IsAllowed(roots, p) {
      SomeRootContains(roots, p, |roots|);
      var i :| 0 <= i < |roots| && roots[i] <= p;
      forall j | 0 <= j < |roots| && j != i ensures !(roots[j] <= p) {
        if roots[j] <= p {
          RootsCountUp(roots, p, if i < j then i else j, if i < j then j else i, |roots|);
        }
      }
    }
    if LiesInOneRoot(roots, p) {
      var i :| 0 <= i < |roots| && roots[i] <= p && forall j :: 0 <= j < |roots| && j != i ==> !(roots[j] <= p);
      OnlyRootCounts(roots, p, i, |roots|);
    }
  }

  /** Every allowed item is apart from the metadata of the trash exactly when no root lies in there. */
  lemma AllowedItemsAreApartIff(roots: seq<Path>, trash: Path)
    requires RootsAreSafe(roots, trash)
    requires forall i, j :: 0 <= i < j < |roots| ==> roots[i] != roots[j]
    ensures NoRootInMetadata(roots, trash) <==>
              forall p :: IsAllowed(roots, p) ==> ApartFromInfo(trash, [p])
  {
    if NoRootInMetadata(roots, trash) {
      forall p | IsAllowed(roots, p) ensures ApartFromInfo(trash, [p]) {
        AllowedItemIsApart(roots, trash, p);
      }
    } else {
      var i :| 0 <= i < |roots| && InfoDirectory(trash) <= roots[i];
      forall j | 0 <= j < |roots| && j != i ensures !(roots[j] <= roots[i]) {
      }
      OnlyRootCounts(roots, roots[i], i, |roots|);
      assert [roots[i]][0] == roots[i];
      assert !ApartFromInfo(trash, [roots[i]]);
    }
  }

  lemma AllowedItemIsApart(roots: seq<Path>, trash: Path, p: Path)
    requires RootsAreSafe(roots, trash) && NoRootInMetadata(roots, trash) && IsAllowed(roots, p)
    ensures !(p <= InfoDirectory(trash)) && !(InfoDirectory(trash) <= p)
  {
    SomeRootContains(roots, p, |roots|);
    var i :| 0 <= i < |roots| && roots[i] <= p;
    OnOneBranch(roots[i], InfoDirectory(trash), p);
    PrefixOfInfo(roots[i], trash);
  }

  lemma OnOneBranch(a: Path, b: Path, p: Path)
    requires a <= p
    ensures p <= b || b <= p ==> a <= b || b <= a
  {
    assert a == p[..|a|] && (b <= p ==> b == p[..|b|]);
  }

  lemma PrefixOfInfo(a: Path, trash: Path)
    ensures a <= InfoDirectory(trash) ==> a == InfoDirectory(trash) || a <= trash
  {
  }

  class Plan {
    const operation: Operation
    const expiresAt: int
    var state: PlanState
    var error: Option<ErrorCode>

    constructor (operation: Operation, expiresAt: int)
      ensures this.operation == operation && this.expiresAt == expiresAt
      ensures state == Prepared && error == None
    {
      this.operation := operation;
      this.expiresAt := expiresAt;
      state := Prepared;
      error := None;
    }
  }

  class Service {
    const fs: FileSystem
    const roots: seq<Path>
    const trash: Path
    const timeToLive: nat
    const maxItems: nat
    var plans: map<string, Plan>

    /** A selection as `Prepare` accepts it. */
    ghost predicate IsSelection(sources: seq<Snapshot>) {
      && NoDuplicates(Paths(sources))
      && forall i :: 0 <= i < |sources| ==> sources[i].path != [] && IsAllowed(roots, sources[i].path)
    }

    /** A trusted destination lies in one root. This is checked when a plan is prepared, and stays so. */
    ghost predicate DestinationIsAllowed(operation: Operation) {
      match DestinationOf(operation)
      case Some(Trusted(path)) => LiesInOneRoot(roots, path)
      case _ => true
    }

    ghost predicate Valid()
      reads this, fs, plans.Values
    {
      && fs.Valid() && RootsAreSafe(roots, trash) && NoRootInMetadata(roots, trash)
      && (forall id :: id in plans ==>
            IsSelection(SourcesOf(plans[id].operation)) && DestinationIsAllowed(plans[id].operation))
      && (forall a, b :: a in plans && b in plans && a != b ==> plans[a] != plans[b])
    }

    constructor (fs: FileSystem, roots: seq<Path>, trash: Path, timeToLive: nat, maxItems: nat)
      requires fs.Valid() && RootsAreSafe(roots, trash) && NoRootInMetadata(roots, trash)
      ensures Valid() && this.fs == fs && this.roots == roots && this.trash == trash && plans == map[]
    {
      this.fs := fs;
      this.roots := roots;
      this.trash := trash;
      this.timeToLive := timeToLive;
      this.maxItems := maxItems;
      plans := map[];
    }

    /** Why the single path of a selection is refused, if it is. */
    function Refusal(t: Tree, p: Path): Option<SelectionError> {
      if !IsAllowed(roots, p) then Some(OutsideAllowedRoots)
      else if LinkOnTheWay(t, p) then Some(UnsafeComponent)
      else if p !in t then Some(ItemUnavailable)
      else None
    }

    /** Which refusal a path meets: outside the roots, through a link, or not there. */
    lemma RefusalIff(t: Tree, p: Path)
      ensures Refusal(t, p) == Some(OutsideAllowedRoots) <==> !LiesInOneRoot(roots, p)
      ensures Refusal(t, p) == Some(UnsafeComponent) <==> LiesInOneRoot(roots, p) && !NoLinkAbove(t, p)
      ensures Refusal(t, p) == Some(ItemUnavailable) <==>
                LiesInOneRoot(roots, p) && NoLinkAbove(t, p) && p !in t
      ensures Refusal(t, p).None? <==> LiesInOneRoot(roots, p) && NoLinkAbove(t, p) && p in t
    {
      IsAllowedIff(roots, p);
      NoLinkAboveIff(t, p);
    }

    /** Snapshot the paths that a selection resolves to. */
    method Selection(paths: seq<Path>) returns (r: Result<seq<Snapshot>, SelectionError>)
      requires Valid()
      ensures r.Success? <==>
                && 1 <= |paths| <= maxItems && NoDuplicates(paths)
                && forall i :: 0 <= i < |paths| ==> Refusal(fs.tree, paths[i]).None?
      ensures r.Success? ==> Paths(r.value) == paths && SelectionUnchanged(fs.tree, r.value)
      ensures r.Success? ==>
                |r.value| == |paths|
                && forall i :: 0 <= i < |paths| ==>
                     paths[i] in fs.tree && r.value[i] == Snapshot(paths[i], fs.tree[paths[i]])
      ensures r.Success? && [] !in paths ==> IsSelection(r.value)
      ensures r == Failure(SizeOutOfBounds) <==> !(1 <= |paths| <= maxItems)
      ensures r.Failure? && r.error != SizeOutOfBounds && r.error != DuplicateItem ==>
                exists i :: 0 <= i < |paths| && Refusal(fs.tree, paths[i]) == Some(r.error)
                            && forall j :: 0 <= j < i ==> Refusal(fs.tree, paths[j]).None?
      ensures r == Failure(DuplicateItem) <==>
                && 1 <= |paths| <= maxItems && !NoDuplicates(paths)
                && forall i :: 0 <= i < |paths| ==> Refusal(fs.tree, paths[i]).None?
      // A selection is accepted only within the roots, without a link on the way, and of what exists.
      ensures r.Success? <==>
                && 1 <= |paths| <= maxItems && NoDuplicates(paths)
                && forall i :: 0 <= i < |paths| ==>
                     LiesInOneRoot(roots, paths[i]) && NoLinkAbove(fs.tree, paths[i]) && paths[i] in fs.tree
    {
      hide Valid, IsAllowed, LiesInOneRoot, NoLinkAbove, LinkOnTheWay;
      forall i | 0 <= i < |paths| ensures Refusal(fs.tree, paths[i]).None? <==>
        LiesInOneRoot(roots, paths[i]) && NoLinkAbove(fs.tree, paths[i]) && paths[i] in fs.tree
      {
        RefusalIff(fs.tree, paths[i]);
      }
      if !(1 <= |paths| <= maxItems) {
        return Failure(SizeOutOfBounds);
      }
      var snapshots: seq<Snapshot> := [];
      for k := 0 to |paths|
        invariant |snapshots| == k && SelectionUnchanged(fs.tree, snapshots)
        invariant forall i :: 0 <= i < k ==> snapshots[i].path == paths[i] && Refusal(fs.tree, paths[i]).None?
      {
        var p := paths[k];
        var refusal := Refusal(fs.tree, p);
        if refusal.Some? {
          return Failure(refusal.value);
        }
        snapshots := snapshots + [Snapshot(p, fs.tree[p])];
      }
      assert Paths(snapshots) == paths;
      var seen: set<Path> := {};
      for k := 0 to |paths|
        invariant seen == set i | 0 <= i < k :: paths[i]
        invariant forall i, j :: 0 <= i < j < k ==> paths[i] != paths[j]
      {
        if paths[k] in seen {
          return Failure(DuplicateItem);
        }
        seen := seen + {paths[k]};
      }
      return Success(snapshots);
    }

    /** Why the destination of an operation is refused when it is prepared, if it is. A role must be
        there; any other directory must lie in one root and be reached without a link. */
    function DestinationRefusal(t: Tree, operation: Operation): Option<ErrorCode> {
      match DestinationOf(operation)
      case None => None
      case Some(Role(path)) => if IsDirectory(t, path) then None else Some(UnsafeDestinationRoot)
      case Some(Trusted(path)) =>
        if !IsAllowed(roots, path) then Some(SelectionOutsideAllowedRoots)
        else if LinkOnTheWay(t, path) then Some(UnsafePathComponent)
        else if !IsDirectory(t, path) then Some(DestinationIsNotDirectory)
        else None
    }

    /** Why the destination of an operation is refused, if it is, in terms of tree and roots. */
    ghost predicate DestinationAnswer(t: Tree, operation: Operation, error: Option<ErrorCode>) {
      match operation
      case RenameItem(_, _, _) => error.None?
      case TrashResults(_) => error.None?
      case CreateDirectory(destination, _) => PlaceAnswer(t, destination, error)
      case MoveResults(_, destination, _, _) => PlaceAnswer(t, destination, error)
    }

    ghost predicate PlaceAnswer(t: Tree, destination: Destination, error: Option<ErrorCode>) {
      match destination
      case Role(path) => error == if IsDirectory(t, path) then None else Some(UnsafeDestinationRoot)
      case Trusted(path) =>
        && (error == Some(SelectionOutsideAllowedRoots) <==> !LiesInOneRoot(roots, path))
        && (error == Some(UnsafePathComponent) <==> LiesInOneRoot(roots, path) && !NoLinkAbove(t, path))
        && (error == Some(DestinationIsNotDirectory) <==>
            LiesInOneRoot(roots, path) && NoLinkAbove(t, path) && !IsDirectory(t, path))
        && (error.None? <==> LiesInOneRoot(roots, path) && NoLinkAbove(t, path) && IsDirectory(t, path))
    }

    lemma DestinationRefusalIff(t: Tree, operation: Operation)
      ensures DestinationAnswer(t, operation, DestinationRefusal(t, operation))
    {
      hide LiesInOneRoot, NoLinkAbove, IsAllowed, LinkOnTheWay;
      if DestinationOf(operation).Some? {
        IsAllowedIff(roots, DestinationOf(operation).value.path);
        NoLinkAboveIff(t, DestinationOf(operation).value.path);
      }
    }

    lemma DestinationIsAllowedIff(t: Tree, operation: Operation)
      ensures DestinationRefusal(t, operation).None? ==> DestinationIsAllowed(operation)
    {
      hide LiesInOneRoot, IsAllowed, LinkOnTheWay;
      if DestinationOf(operation).Some? {
        IsAllowedIff(roots, DestinationOf(operation).value.path);
      }
    }

    method Prepare(id: string, operation: Operation, now: int) returns (r: Result<Plan, ErrorCode>)
      requires Valid() && id !in plans && IsSelection(SourcesOf(operation))
      modifies this
      ensures Valid()
      ensures match DestinationRefusal(fs.tree, operation)
              case Some(error) => r == Failure(error) && plans == old(plans)
              case None =>
                && r.Success? && fresh(r.value) && plans == old(plans)[id := r.value]
                && r.value.state == Prepared && r.value.operation == operation
                && r.value.expiresAt == now + timeToLive
      ensures DestinationAnswer(fs.tree, operation, if r.Failure? then Some(r.error) else None)
    {
      hide DestinationAnswer, DestinationRefusal, IsSelection, RootsAreSafe, NoRootInMetadata;
      DestinationRefusalIff(fs.tree, operation);
      DestinationIsAllowedIff(fs.tree, operation);
      var refusal := DestinationRefusal(fs.tree, operation);
      if refusal.Some? {
        return Failure(refusal.value);
      }
      var plan := new Plan(operation, now + timeToLive);
      plans := plans[id := plan];
      return Success(plan);
    }

    method Cancel(id: string) returns (error: Option<ErrorCode>)
      requires Valid()
      modifies if id in plans then {plans[id]} else {}
      ensures Valid()
      ensures error == Some(PlanNotFound) <==> id !in plans
      ensures id in plans ==>
                && (error.None? <==> old(plans[id].state) == Prepared)
                && plans[id].state == if error.None? then Cancelled else old(plans[id].state)
    {
      if id !in plans {
        return Some(PlanNotFound);
      }
      var plan := plans[id];
      if plan.state != Prepared {
        return Some(PlanNotPrepared);
      }
      plan.state := Cancelled;
      return None;
    }

    /** The inputs on which an operation succeeds if nothing is refused to it. */
    ghost predicate CanExecute(operation: Operation, t: Tree) {
      && SelectionUnchanged(t, SourcesOf(operation)) && HaveNames(Paths(SourcesOf(operation)))
      && match operation
         case CreateDirectory(destination, name) =>
           IsDirectory(t, destination.path) && destination.path + [name] !in t
         case MoveResults(sources, destination, directory, policy) =>
           CanMove(t, Paths(sources), destination, directory, policy)
         case RenameItem(source, newName, policy) => source.path != [] && CanRename(t, source.path, newName, policy)
         case TrashResults(sources) => CanTrashSelection(t, trash, Paths(sources))
    }

    /** Execute the operation of a plan on a selection that is still unchanged. */
    method Execute(operation: Operation, describe: Path -> string) returns (r: Result<Output, ErrorCode>)
      requires Valid() && IsSelection(SourcesOf(operation))
      modifies fs
      ensures fs.Valid()
      ensures !SelectionUnchanged(old(fs.tree), SourcesOf(operation)) ==>
                r == Failure(SelectionChanged) && fs.tree == old(fs.tree) && fs.faults == old(fs.faults)
      // Nothing is done unless every selected item is still there, and the same as when it was selected.
      ensures (exists s <- SourcesOf(operation) :: !(s.path in old(fs.tree) && old(fs.tree)[s.path] == s.node)) ==>
                r == Failure(SelectionChanged) && fs.tree == old(fs.tree)
      ensures r == Failure(UnsafeDestinationRoot) <==> MeetsMissingRoot(operation, old(fs.tree))
      ensures r.Failure? ==>
                FailedSafely(operation, old(fs.tree), old(fs.faults), fs.tree, fs.faults, describe, r.error)
      ensures r.Success? ==> Completed(operation, old(fs.tree), fs.tree, describe)
      ensures fs.faults == old(fs.faults) ==> (r.Success? <==> CanExecute(operation, old(fs.tree)))
    {
      hide MoveCompleted, ContentAfterFailedRollback, InfoFilesAre, AllDescribed, OnlyAddsTrashDirectories, SameContent,
           IsFirstFree, IsFreeMove, Renamed, MetadataBeside, HalfWritten, IsAllowed, RootsAreSafe, NoRootInMetadata,
           ApartFromInfo, NamedBy, LeavesContainer, CanOpen, ShareName, CanMove, CanRename, CanTrashSelection,
           IsPlan, NamingFails, IsStored,
           SelectionUnchanged, IsSelection, AllPresent;
      ChangedIff(fs.tree, SourcesOf(operation));
      if operation.CreateDirectory? {
        NothingSelected(fs.tree);
        var error := ExecuteCreateDirectory(fs, operation.destination, operation.directoryName);
        return if error.None? then Success(CreatedOne) else Failure(error.value);
      }
      if !SelectionUnchanged(fs.tree, SourcesOf(operation)) {
        UnchangedIsSafe(operation, fs.tree, fs.faults, describe);
        return Failure(SelectionChanged);
      }
      SelectionIsPresent(fs.tree, SourcesOf(operation));
      match operation {
        case MoveResults(sources, destination, directory, policy) =>
          var moved := ExecuteMove(fs, Paths(sources), destination, directory, policy);
          return if moved.Success? then Success(MovedCount(moved.value)) else Failure(moved.error);
        case RenameItem(source, newName, policy) =>
          assert [source][0] == source;
          var renamed := ExecuteRename(fs, source.path, newName, policy);
          return if renamed.Success? then Success(RenamedTo(BaseName(renamed.value)))
                 else Failure(renamed.error);
        case TrashResults(sources) =>
          SelectionIsApart(sources);
          ghost var loopTree, ms, extra;
          var trashed;
          trashed, loopTree, ms, extra := ExecuteTrash(fs, Paths(sources), trash, describe);
          return if trashed.Success? then Success(TrashedCount(trashed.value))
                 else Failure(trashed.error);
      }
    }

    lemma ChangedIff(t: Tree, sources: seq<Snapshot>)
      ensures SelectionUnchanged(t, sources) <==> forall s <- sources :: s.path in t && t[s.path] == s.node
    {
      if SelectionUnchanged(t, sources) {
        forall s <- sources ensures s.path in t && t[s.path] == s.node {
          var i :| 0 <= i < |sources| && sources[i] == s;
        }
      }
    }

    lemma NothingSelected(t: Tree)
      ensures SelectionUnchanged(t, []) && HaveNames(Paths([]))
    {
    }

    lemma SelectionIsPresent(t: Tree, sources: seq<Snapshot>)
      requires SelectionUnchanged(t, sources) && IsSelection(sources)
      ensures AllPresent(t, Paths(sources)) && HaveNames(Paths(sources))
    {
    }

    lemma SelectionIsApart(sources: seq<Snapshot>)
      requires RootsAreSafe(roots, trash) && NoRootInMetadata(roots, trash) && IsSelection(sources)
      ensures ApartFromInfo(trash, Paths(sources))
    {
      hide RootsAreSafe, NoRootInMetadata, IsAllowed;
      forall i | 0 <= i < |sources|
        ensures !(sources[i].path <= InfoDirectory(trash)) && !(InfoDirectory(trash) <= sources[i].path)
      {
        AllowedItemIsApart(roots, trash, sources[i].path);
      }
    }

    lemma UnchangedIsSafe(operation: Operation, t: Tree, faults: Faults, describe: Path -> string)
      requires !operation.CreateDirectory?
      ensures FailedSafely(operation, t, faults, t, faults, describe, SelectionChanged)
    {
      hide TrashLosesNothing, TrashUndone, LeavesContainer;
      NothingUndone(t, trash, Paths(SourcesOf(operation)), describe);
    }

    /** What a failed operation leaves behind. */
    ghost predicate FailedSafely(operation: Operation, s: Tree, before: Faults, t: Tree, after: Faults,
                                 describe: Path -> string, error: ErrorCode) {
      match operation
      case CreateDirectory(_, _) => t == s
      case RenameItem(_, _, _) => t == s
      case MoveResults(sources, destination, directory, policy) =>
        if error == RollbackFailed then
          after.renames > before.renames && ContentAfterFailedRollback(s, t, Container(destination, directory))
        else
          && OnlyAddsDirectory(s, t, Container(destination, directory))
          && (!error.Naming? && after.removals == before.removals ==> t == s)
          && (after == before && error != SelectionChanged && HaveNames(Paths(sources)) ==>
                (t != s <==> LeavesContainer(s, Paths(sources), destination, directory, policy)))
      case TrashResults(sources) =>
        && TrashLosesNothing(s, t, trash)
        && (if error == RollbackFailed then after.renames > before.renames
            else after.removals == before.removals ==>
                   TrashUndone(s, t, trash, Paths(sources), describe, after.partialWrites == before.partialWrites))
    }

    /** What a completed operation has done. */
    ghost predicate Completed(operation: Operation, s: Tree, t: Tree, describe: Path -> string) {
      match operation
      case CreateDirectory(destination, name) =>
        OnlyAddsDirectory(s, t, destination.path + [name]) && t != s
      case RenameItem(source, newName, policy) =>
        exists target ::
          && source.path != [] && target != [] && Parent(target) == Parent(source.path)
          && IsFirstFree(s, Parent(source.path) + [newName], policy, Success(target))
          && IsFreeMove(s, Move(source.path, target)) && t == Renamed(s, Move(source.path, target))
      case MoveResults(sources, destination, directory, policy) =>
        MoveCompleted(s, t, Container(destination, directory), Paths(sources), policy)
      case TrashResults(sources) => TrashCompleted(s, t, trash, Paths(sources), describe)
    }

    /** Commit a prepared plan. A plan leaves the prepared state for good at its first commit, and stays
        committing exactly when it meets a missing root. */
    method Commit(id: string, now: int, describe: Path -> string) returns (r: Result<Output, ErrorCode>)
      requires Valid()
      modifies fs, if id in plans then {plans[id]} else {}
      ensures Valid()
      ensures id !in plans ==> r == Failure(PlanNotFound)
      ensures id in plans && old(plans[id].state) != Prepared ==>
                r == Failure(PlanNotPrepared) && plans[id].state == old(plans[id].state)
      ensures id !in plans || old(plans[id].state) != Prepared ==> fs.tree == old(fs.tree)
      ensures id in plans && old(plans[id].state) == Prepared && now > plans[id].expiresAt ==>
                && r == Failure(PlanExpired) && fs.tree == old(fs.tree)
                && plans[id].state == Failed && plans[id].error == Some(PlanExpired)
      ensures id in plans && old(plans[id].state) == Prepared && now <= plans[id].expiresAt ==>
                && (plans[id].state == Committing <==> MeetsMissingRoot(plans[id].operation, old(fs.tree)))
                && (plans[id].state == Committed <==> r.Success?)
                && (plans[id].state == Failed ==> r.Failure? && plans[id].error == Some(r.error))
                && if r.Success? then Completed(plans[id].operation, old(fs.tree), fs.tree, describe)
                   else FailedSafely(plans[id].operation, old(fs.tree), old(fs.faults), fs.tree, fs.faults,
                                     describe, r.error)
      ensures id in plans && (exists s <- SourcesOf(plans[id].operation) ::
                                !(s.path in old(fs.tree) && old(fs.tree)[s.path] == s.node)) ==>
                r.Failure? && fs.tree == old(fs.tree)
      // A prepared plan in time, to which nothing is refused, is committed exactly for these inputs.
      ensures id in plans && old(plans[id].state) == Prepared && now <= plans[id].expiresAt
              && fs.faults == old(fs.faults) ==>
                (r.Success? <==> CanExecute(plans[id].operation, old(fs.tree)))
      ensures id in plans ==> plans[id].state != Prepared
    {
      hide FailedSafely, Completed, MeetsMissingRoot, CanExecute, DestinationIsAllowed, IsSelection, LiesInOneRoot,
        RootsAreSafe, NoRootInMetadata, IsAllowed;
      if id !in plans {
        return Failure(PlanNotFound);
      }
      var plan := plans[id];
      if plan.state != Prepared {
        return Failure(PlanNotPrepared);
      }
      if now > plan.expiresAt {
        plan.state := Failed;
        plan.error := Some(PlanExpired);
        return Failure(PlanExpired);
      }
      plan.state := Committing;
      r := Execute(plan.operation, describe);
      if r.Success? {
        plan.state := Committed;
      } else if r.error != UnsafeDestinationRoot {
        plan.state := Failed;
        plan.error := Some(r.error);
      }
    }
  }
}
