/** Prepared file operations: moving, renaming and trashing a selection, with rollback. */
module FileOperations {
  import opened Wrappers
  import opened FileTree
  import opened MoveSequences
  import opened FileSystems
  import opened TargetNames

  datatype ErrorCode =
    | PlanNotFound | PlanNotPrepared | PlanExpired | SelectionChanged
    | SelectionOutsideAllowedRoots | UnsafeDestinationRoot | UnsafePathComponent
    | DestinationIsNotDirectory | UnsafeTrashDirectory | DestinationInsideSource | RenameIsNoop
    | TrashMetadataExists | CrossDeviceMoveUnsupported | MoveFailed | TrashFailed
    | FilesystemOperationFailed | RollbackFailed | Naming(naming: NamingError)

  /** A selected item with the identity that was seen when the plan was prepared. */
  datatype Snapshot = Snapshot(path: Path, node: Node)

  /** A destination root of a fixed role, or a trusted directory below one. */
  datatype Destination = Role(path: Path) | Trusted(path: Path)

  datatype Operation =
    | CreateDirectory(destination: Destination, directoryName: Name)
    | MoveResults(sources: seq<Snapshot>, destination: Destination, directory: Option<Name>,
                  policy: ConflictPolicy)
    | RenameItem(source: Snapshot, newName: Name, policy: ConflictPolicy)
    | TrashResults(sources: seq<Snapshot>)

  function Paths(sources: seq<Snapshot>): (ps: seq<Path>)
    ensures |ps| == |sources| && forall i :: 0 <= i < |ps| ==> ps[i] == sources[i].path
  {
    if sources == [] then [] else Paths(Front(sources)) + [Last(sources).path]
  }

  function Moves(sources: seq<Path>, targets: seq<Path>): (ms: seq<Move>)
    requires |sources| == |targets|
    ensures |ms| == |sources|
    ensures forall i :: 0 <= i < |ms| ==> ms[i] == Move(sources[i], targets[i])
  {
    if sources == [] then []
    else Moves(Front(sources), Front(targets)) + [Move(Last(sources), Last(targets))]
  }

  /** Some selected item lies inside an item that is moved before it. */
  ghost predicate ItemInsideEarlierItem(sources: seq<Path>) {
    exists i, j :: 0 <= i < j < |sources| && sources[i] <= sources[j]
  }

  /** `ms` moves exactly the given items, in order. */
  ghost predicate MovesThese(ms: seq<Move>, sources: seq<Path>) {
    |ms| == |sources| && forall i :: 0 <= i < |ms| ==> ms[i].src == sources[i]
  }

  lemma NestingIffEarlierAncestor(ms: seq<Move>, sources: seq<Path>)
    requires MovesThese(ms, sources)
    ensures NoEarlierAncestor(ms) <==> !ItemInsideEarlierItem(sources)
  {
  }

  /** `t` is `s`, possibly with the new directory `p`. */
  ghost predicate OnlyAddsDirectory(s: Tree, t: Tree, p: Path) {
    t == s || (p !in s && IsDirectory(t, p) && t == s[p := t[p]])
  }

  // ----- renaming steps and their rollback -----

  ghost predicate OnlyRenamesRefused(before: Faults, after: Faults) {
    after == before.(renames := after.renames) && after.renames >= before.renames
  }

  method AtomicMove(fs: FileSystem, m: Move) returns (error: Option<ErrorCode>)
    requires fs.Valid()
    modifies fs
    ensures fs.Valid()
    ensures error.None? ==> IsFreeMove(old(fs.tree), m) && fs.tree == Renamed(old(fs.tree), m)
    ensures error.Some? ==> fs.tree == old(fs.tree)
    ensures error == Some(Naming(DestinationExists)) <==> m.dst in old(fs.tree)
    ensures error.Some? && m.dst !in old(fs.tree) ==>
              IsMoveError(error.value)
    ensures fs.faults == old(fs.faults).(renames := old(fs.faults.renames) +
              if IsFreeMove(old(fs.tree), m) && error.Some? then 1 else 0)
    ensures error == Some(CrossDeviceMoveUnsupported) ==> fs.faults != old(fs.faults)
  {
    if m.dst in fs.tree {
      return Some(Naming(DestinationExists));
    }
    var outcome := fs.Replace(m);
    match outcome {
      case Moved => error := None;
      case CrossDevice => error := Some(CrossDeviceMoveUnsupported);
      case MoveRefused => error := Some(MoveFailed);
    }
  }

  /** Undo the done moves in reverse order, carrying on after a failure. If the moves led here from
      a known tree, then without failure that tree is restored; with failures nothing is lost or
      overwritten, and a rename was refused. */
  method RollbackMoves(fs: FileSystem, ghost start: Option<Tree>, moved: seq<Move>)
    returns (failed: bool)
    requires fs.Valid()
    requires start.Some? ==> WellFormed(start.value) && Reached(start.value, fs.tree, moved)
    modifies fs
    ensures fs.Valid() && OnlyRenamesRefused(old(fs.faults), fs.faults)
    ensures start.Some? && !failed ==> fs.tree == start.value && fs.faults == old(fs.faults)
    ensures start.Some? && failed ==> SameContent(start.value, fs.tree) && fs.faults != old(fs.faults)
  {
    hide SameContent, AllFree, RunMoves, Renamed;
    failed := false;
    ghost var done := moved;
    var i := |moved|;
    assert moved[..i] == moved;
    while i > 0
      invariant 0 <= i <= |moved| && fs.Valid()
      invariant OnlyRenamesRefused(old(fs.faults), fs.faults)
      invariant start.Some? ==> Reached(start.value, fs.tree, done)
      invariant start.Some? && !failed ==>
                  fs.tree == RunMoves(start.value, moved[..i]) && fs.faults == old(fs.faults)
      invariant start.Some? && failed ==> fs.faults != old(fs.faults)
    {
      i := i - 1;
      var back := Move(moved[i].dst, moved[i].src);
      if start.Some? {
        UndoStep(start.value, moved, i);
      }
      var error := AtomicMove(fs, back);
      if error.Some? {
        failed := true;
      } else if start.Some? {
        AppendFreeMove(start.value, done, back);
        done := done + [back];
      }
    }
    if start.Some? {
      RunNoMoves(start.value, moved[..0]);
      FreeMovesKeepContent(start.value, done);
    }
  }

  /** Why the loop of a plan may stop after the moves `moved`. */
  lemma WhereAPlanStops(t: Tree, u: Tree, container: Path, ms: seq<Move>, moved: seq<Move>)
    requires WellFormed(t) && IsPlan(t, container, ms) && moved <= ms && Reached(t, u, moved)
    ensures moved < ms ==> ms[|moved|].dst !in u
    ensures moved < ms && !IsFreeMove(u, ms[|moved|]) ==> !NoEarlierAncestor(ms)
    ensures moved == ms ==> NoEarlierAncestor(ms)
  {
    hide RunMoves, NoEarlierAncestor, IsPlan, CanReplace, WellFormed;
    PlanSucceedsIff(t, container, ms);
    if moved < ms {
      var next := ms[..|moved| + 1];
      assert Front(next) == ms[..|moved|] == moved && Last(next) == ms[|moved|];
      PlanUpTo(t, container, ms, |moved| + 1);
      NextMove(t, container, next);
      if AllFree(t, ms) {
        AllFreePrefix(t, ms, |next|);
      }
    }
  }

  /** What a single rename reports when its target was free. */
  predicate IsMoveError(code: ErrorCode) {
    code.CrossDeviceMoveUnsupported? || code.MoveFailed?
  }

  /** The loop of renames, up to the first error. */
  method MoveUntilError(fs: FileSystem, ms: seq<Move>)
    returns (error: Option<ErrorCode>, moved: seq<Move>)
    requires fs.Valid()
    modifies fs
    ensures fs.Valid()
    ensures moved <= ms && (error.None? <==> moved == ms)
    ensures Reached(old(fs.tree), fs.tree, moved)
    ensures error.Some? ==>
              if ms[|moved|].dst in fs.tree then error.value == Naming(DestinationExists)
              else IsMoveError(error.value)
    ensures OnlyRenamesRefused(old(fs.faults), fs.faults)
    ensures error == Some(CrossDeviceMoveUnsupported) ==> fs.faults != old(fs.faults)
    ensures error.Some? && IsFreeMove(fs.tree, ms[|moved|]) ==> fs.faults != old(fs.faults)
    ensures error.None? ==> fs.faults == old(fs.faults)
  {
    ghost var start := fs.tree;
    moved := [];
    while |moved| < |ms|
      invariant moved <= ms && fs.Valid()
      invariant Reached(start, fs.tree, moved)
      invariant fs.faults == old(fs.faults)
    {
      var m := ms[|moved|];
      error := AtomicMove(fs, m);
      if error.Some? {
        return;
      }
      AppendFreeMove(start, moved, m);
      PrefixOneMore(ms, moved);
      moved := moved + [m];
    }
    return None, moved;
  }

  /** The error to report after an attempt to roll back: the original one if that succeeded. */
  method RecoverFrom(fs: FileSystem, ghost start: Option<Tree>, moved: seq<Move>, error: ErrorCode)
    returns (reported: ErrorCode)
    requires fs.Valid() && !error.RollbackFailed?
    requires start.Some? ==> WellFormed(start.value) && Reached(start.value, fs.tree, moved)
    modifies fs
    ensures fs.Valid() && OnlyRenamesRefused(old(fs.faults), fs.faults)
    ensures reported == error || reported == RollbackFailed
    ensures start.Some? && reported == error ==>
              fs.tree == start.value && fs.faults == old(fs.faults)
    ensures start.Some? && reported == RollbackFailed ==>
              SameContent(start.value, fs.tree) && fs.faults != old(fs.faults)
  {
    hide SameContent, AllFree, RunMoves;
    var failed := RollbackMoves(fs, start, moved);
    reported := if failed then RollbackFailed else error;
  }

  /** The move loop: all items reach their targets, or the tree is restored, or the rollback is
      reported as failed. Free of refusals, it succeeds exactly when no item lies in an earlier one. */
  method MoveAll(fs: FileSystem, container: Path, ms: seq<Move>) returns (error: Option<ErrorCode>)
    requires fs.Valid() && IsPlan(fs.tree, container, ms)
    modifies fs
    ensures fs.Valid()
    ensures error.None? ==> Reached(old(fs.tree), fs.tree, ms)
    ensures error.Some? && error.value != RollbackFailed ==>
              fs.tree == old(fs.tree) && IsMoveError(error.value)
    ensures error == Some(RollbackFailed) ==> SameContent(old(fs.tree), fs.tree)
    ensures OnlyRenamesRefused(old(fs.faults), fs.faults)
    ensures error == Some(RollbackFailed) || error == Some(CrossDeviceMoveUnsupported) ==>
              fs.faults != old(fs.faults)
    ensures fs.faults == old(fs.faults) ==> (error.None? <==> NoEarlierAncestor(ms))
  {
    hide SameContent, AllFree, RunMoves, IsPlan, NoEarlierAncestor;
    ghost var start := fs.tree;
    var moved;
    error, moved := MoveUntilError(fs, ms);
    WhereAPlanStops(start, fs.tree, container, ms, moved);
    if error.Some? {
      var reported := RecoverFrom(fs, Some(start), moved, error.value);
      error := Some(reported);
    }
  }

  // ----- the four operations -----

  /** Errors raised before any item is touched. */
  predicate IsSetupError(code: ErrorCode) {
    !code.RollbackFailed? && !code.MoveFailed? && !code.Naming?
  }

  /** The destination is the root of a role and that root is not a directory. */
  predicate RootMissing(t: Tree, destination: Destination) {
    destination.Role? && !IsDirectory(t, destination.path)
  }

  method SafeDestination(fs: FileSystem, destination: Destination) returns (error: Option<ErrorCode>)
    requires fs.Valid()
    ensures error.None? <==> IsDirectory(fs.tree, destination.path)
    ensures error == Some(UnsafeDestinationRoot) <==> RootMissing(fs.tree, destination)
    ensures error.Some? ==> IsSetupError(error.value)
  {
    if destination.Role? {
      return if IsDirectory(fs.tree, destination.path) then None else Some(UnsafeDestinationRoot);
    }
    error := RequireSafeDirectory(fs, destination.path);
  }

  /** The path, or a directory that it goes through, is a link. */
  predicate LinkOnTheWay(t: Tree, p: Path) {
    exists k | 0 <= k <= |p| :: p[..k] in t && t[p[..k]].Link?
  }

  method RequireSafeDirectory(fs: FileSystem, p: Path) returns (error: Option<ErrorCode>)
    requires fs.Valid()
    ensures error.None? <==> IsDirectory(fs.tree, p)
    ensures error.Some? ==>
              error.value == if LinkOnTheWay(fs.tree, p) then UnsafePathComponent else DestinationIsNotDirectory
  {
    for k := 0 to |p| + 1
      invariant forall j :: 0 <= j < k ==> !(p[..j] in fs.tree && fs.tree[p[..j]].Link?)
    {
      if p[..k] in fs.tree && fs.tree[p[..k]].Link? {
        NothingBelowLink(fs.tree, p, k);
        return Some(UnsafePathComponent);
      }
    }
    return if IsDirectory(fs.tree, p) then None else Some(DestinationIsNotDirectory);
  }

  lemma {:induction false} NothingBelowLink(t: Tree, p: Path, k: nat)
    requires WellFormed(t) && k <= |p| && p[..k] in t && t[p[..k]].Link?
    ensures !IsDirectory(t, p)
    decreases |p|
  {
    if k < |p| && p in t {
      assert Parent(p)[..k] == p[..k];
      NothingBelowLink(t, Parent(p), k);
    }
    assert p[..|p|] == p;
  }

  method ExecuteCreateDirectory(fs: FileSystem, destination: Destination, name: Name)
    returns (error: Option<ErrorCode>)
    requires fs.Valid()
    modifies fs
    ensures fs.Valid()
    ensures error.Some? ==> fs.tree == old(fs.tree) && error.value != RollbackFailed
    ensures error == Some(UnsafeDestinationRoot) <==> RootMissing(old(fs.tree), destination)
    ensures fs.faults == old(fs.faults) ==>
              (error.None? <==> IsDirectory(old(fs.tree), destination.path)
                                && destination.path + [name] !in old(fs.tree))
    ensures error.None? ==>
              var p := destination.path + [name];
              p !in old(fs.tree) && IsDirectory(fs.tree, p) && fs.tree == old(fs.tree)[p := fs.tree[p]]
  {
    error := SafeDestination(fs, destination);
    if error.Some? { return; }
    var target := destination.path + [name];
    if target in fs.tree {
      return Some(Naming(DestinationExists));
    }
    var made := fs.MakeDirectory(target);
    return if made then None else Some(FilesystemOperationFailed);
  }

  /** The name is free, or a numbered form of it is and may be used. */
  ghost predicate CanRename(t: Tree, source: Path, newName: Name, policy: ConflictPolicy)
    requires source != []
  {
    var target := Parent(source) + [newName];
    target !in t || (policy.Rename? && !Exhausted(t, target))
  }

  lemma FirstFreeIff(t: Tree, path: Path, policy: ConflictPolicy, r: Result<Path, NamingError>)
    requires path != [] && IsFirstFree(t, path, policy, r)
    ensures r.Success? <==> path !in t || (policy.Rename? && !Exhausted(t, path))
  {
  }

  /** A rename either moves the whole item to a free name beside it or changes nothing. The answer
      `rename_is_noop` never occurs: a free target cannot be the source itself. */
  method ExecuteRename(fs: FileSystem, source: Path, newName: Name, policy: ConflictPolicy)
    returns (r: Result<Path, ErrorCode>)
    requires fs.Valid() && source in fs.tree && source != []
    modifies fs
    ensures fs.Valid()
    ensures r.Failure? ==> fs.tree == old(fs.tree) && r.error != RollbackFailed && r.error != RenameIsNoop
    ensures r.Failure? ==> r.error.Naming? || IsMoveError(r.error)
    ensures fs.faults == old(fs.faults) ==> (r.Success? <==> CanRename(old(fs.tree), source, newName, policy))
    ensures r.Failure? && r.error.Naming? <==> !CanRename(old(fs.tree), source, newName, policy)
    ensures policy.Rename? && |EntriesIn(old(fs.tree), Parent(source))| <= MAX_ORDINAL ==>
              !(r.Failure? && r.error.Naming?)
    ensures r.Success? ==>
              && IsFreeMove(old(fs.tree), Move(source, r.value))
              && fs.tree == Renamed(old(fs.tree), Move(source, r.value))
              && r.value != [] && Parent(r.value) == Parent(source)
              && IsFirstFree(old(fs.tree), Parent(source) + [newName], policy, Success(r.value))
  {
    var planned := AvailableTarget(fs.tree, Parent(source) + [newName], policy);
    FirstFreeIff(fs.tree, Parent(source) + [newName], policy, planned);
    FirstFreeIsBeside(fs.tree, Parent(source) + [newName], policy, planned);
    if planned.Failure? {
      return Failure(Naming(planned.error));
    }
    if planned.value == source {
      return Failure(RenameIsNoop);
    }
    var error := AtomicMove(fs, Move(source, planned.value));
    return if error.None? then Success(planned.value) else Failure(error.value);
  }

  function Container(destination: Destination, directory: Option<Name>): Path {
    if directory.Some? then destination.path + [directory.value] else destination.path
  }

  /** `t` is reached from `s` by moving the sources, in order, to planned targets in the container. */
  ghost predicate MovedAsPlanned(s: Tree, t: Tree, container: Path, sources: seq<Path>,
                                 policy: ConflictPolicy, ms: seq<Move>) {
    MovesThese(ms, sources) && IsPlan(s, container, ms) && NamedBy(s, container, policy, ms) && Reached(s, t, ms)
  }

  ghost predicate MoveCompleted(s: Tree, t: Tree, container: Path, sources: seq<Path>, policy: ConflictPolicy) {
    exists loopTree: Tree, ms: seq<Move> ::
      OnlyAddsDirectory(s, loopTree, container)
      && MovedAsPlanned(loopTree, t, container, sources, policy, ms)
  }

  /** After a completed move every node is at its landing path: the first selected item that
      contained it took it along, and everything else is where it was. */
  lemma CompletedMoveLands(s: Tree, t: Tree, container: Path, sources: seq<Path>,
                           policy: ConflictPolicy, ms: seq<Move>)
    requires WellFormed(s) && MovedAsPlanned(s, t, container, sources, policy, ms)
    ensures Landed(s, t, ms)
    ensures !ItemInsideEarlierItem(sources)
  {
    RunLands(s, container, ms);
    PlanSucceedsIff(s, container, ms);
    NestingIffEarlierAncestor(ms, sources);
  }

  ghost predicate ContentAfterFailedRollback(s: Tree, t: Tree, container: Path) {
    exists loopTree: Tree :: OnlyAddsDirectory(s, loopTree, container) && SameContent(loopTree, t)
  }

  ghost predicate AllPresent(t: Tree, paths: seq<Path>) {
    forall i :: 0 <= i < |paths| ==> paths[i] in t && paths[i] != []
  }

  method FirstTargetInsideSource(sources: seq<Path>, targets: seq<Path>) returns (inside: bool)
    requires |sources| == |targets|
    ensures inside <==> exists i :: 0 <= i < |sources| && sources[i] <= targets[i]
  {
    inside := false;
    for i := 0 to |sources|
      invariant !inside && forall j :: 0 <= j < i ==> !(sources[j] <= targets[j])
    {
      if sources[i] <= targets[i] {
        return true;
      }
    }
  }

  ghost predicate OnlyMakesRefused(before: Faults, after: Faults) {
    after == before.(makes := after.makes) && after.makes >= before.makes
  }

  /** The container is a directory or can be made. */
  predicate CanOpen(t: Tree, destination: Destination, directory: Option<Name>) {
    && IsDirectory(t, destination.path)
    && (Container(destination, directory) in t ==> IsDirectory(t, Container(destination, directory)))
  }

  method OpenContainer(fs: FileSystem, destination: Destination, directory: Option<Name>)
    returns (error: Option<ErrorCode>, created: bool)
    requires fs.Valid()
    modifies fs
    ensures fs.Valid() && OnlyMakesRefused(old(fs.faults), fs.faults)
    ensures error.Some? ==> fs.tree == old(fs.tree) && IsSetupError(error.value)
    ensures error == Some(UnsafeDestinationRoot) <==> RootMissing(old(fs.tree), destination)
    ensures error.None? <==>
              CanOpen(old(fs.tree), destination, directory) && fs.faults.makes == old(fs.faults.makes)
    ensures error.None? || Container(destination, directory) in old(fs.tree) ==> fs.faults == old(fs.faults)
    ensures error.None? ==>
              var container := Container(destination, directory);
              && IsDirectory(fs.tree, container) && (created <==> container !in old(fs.tree))
              && if created then
                   IsEmptyDirectory(fs.tree, container)
                   && container != [] && fs.tree == old(fs.tree)[container := fs.tree[container]]
                 else fs.tree == old(fs.tree)
  {
    created := false;
    error := SafeDestination(fs, destination);
    if error.Some? || directory.None? {
      return;
    }
    var container := destination.path + [directory.value];
    if container in fs.tree {
      error := RequireSafeDirectory(fs, container);
      return;
    }
    NothingBelowAbsent(fs.tree, container);
    created := fs.MakeDirectory(container);
    if !created {
      error := Some(FilesystemOperationFailed);
    }
  }

  lemma PlannedTargetsMakeAPlan(t: Tree, container: Path, sources: seq<Path>, targets: seq<Path>)
    requires IsDirectory(t, container) && AllPresent(t, sources)
    requires |sources| == |targets| && GoodTargets(t, container, targets)
    requires forall i :: 0 <= i < |sources| ==> !(sources[i] <= targets[i])
    ensures IsPlan(t, container, Moves(sources, targets))
  {
  }

  lemma PlannedNames(t: Tree, sources: seq<Path>, targets: seq<Path>, container: Path, policy: ConflictPolicy)
    requires HaveNames(sources) && |sources| == |targets| && Named(t, sources, container, policy, targets)
    ensures NamedBy(t, container, policy, Moves(sources, targets))
  {
    hide Named;
    var ms := Moves(sources, targets);
    assert Origins(ms) == sources;
    assert Targets(ms) == targets;
  }

  /** Some selected item is the container or contains it. */
  ghost predicate ContainsContainer(sources: seq<Path>, container: Path) {
    exists i :: 0 <= i < |sources| && sources[i] <= container
  }

  lemma InsideSourceContainsContainer(t: Tree, sources: seq<Path>, targets: seq<Path>, container: Path)
    requires AllPresent(t, sources) && |sources| == |targets| && GoodTargets(t, container, targets)
    requires exists i :: 0 <= i < |sources| && sources[i] <= targets[i]
    ensures ContainsContainer(sources, container)
  {
    var i :| 0 <= i < |sources| && sources[i] <= targets[i];
    PrefixOfParent(sources[i], targets[i]);
  }

  /** Name the targets and reject a selection that would be moved into itself. */
  method PlanMoves(t: Tree, sources: seq<Path>, container: Path, policy: ConflictPolicy)
    returns (r: Result<seq<Move>, ErrorCode>)
    requires AllPresent(t, sources) && IsDirectory(t, container)
    ensures r.Success? ==>
              && MovesThese(r.value, sources) && IsPlan(t, container, r.value)
              && NamedBy(t, container, policy, r.value)
    ensures r.Failure? && r.error.Naming? <==> NamingFails(t, sources, container, policy)
    ensures r == Failure(DestinationInsideSource) <==>
              !NamingFails(t, sources, container, policy) && ContainsContainer(sources, container)
    ensures r.Failure? ==> r.error.Naming? || r.error.DestinationInsideSource?
  {
    hide NamingFails, Named, NamedBy;
    var planned := TargetsForSources(t, sources, container, policy);
    if planned.Failure? {
      return Failure(Naming(planned.error));
    }
    var inside := FirstTargetInsideSource(sources, planned.value);
    if inside {
      InsideSourceContainsContainer(t, sources, planned.value, container);
      return Failure(DestinationInsideSource);
    }
    PlannedTargetsMakeAPlan(t, container, sources, planned.value);
    PlannedNames(t, sources, planned.value, container, policy);
    return Success(Moves(sources, planned.value));
  }

  predicate IsNamingError(error: Option<ErrorCode>) {
    error.Some? && error.value.Naming?
  }

  /** Fill an open container. A naming error or a rollback failure leaves a new container in place. */
  method MoveInto(fs: FileSystem, sources: seq<Path>, container: Path, created: bool,
                  policy: ConflictPolicy)
    returns (error: Option<ErrorCode>, ghost ms: seq<Move>)
    requires fs.Valid() && AllPresent(fs.tree, sources) && IsDirectory(fs.tree, container)
    requires created ==> container != [] && IsEmptyDirectory(fs.tree, container)
    modifies fs
    ensures fs.Valid() && fs.faults.removals >= old(fs.faults.removals)
    ensures fs.faults.makes == old(fs.faults.makes)
    ensures error != Some(UnsafeDestinationRoot)
    ensures error.None? ==> MovedAsPlanned(old(fs.tree), fs.tree, container, sources, policy, ms)
    ensures IsNamingError(error) ==> fs.tree == old(fs.tree)
    ensures IsNamingError(error) <==> NamingFails(old(fs.tree), sources, container, policy)
    // If no operation is refused, the move succeeds exactly for these inputs.
    ensures fs.faults == old(fs.faults) ==>
              (error.None? <==>
                && !NamingFails(old(fs.tree), sources, container, policy)
                && !ContainsContainer(sources, container) && !ItemInsideEarlierItem(sources))
    ensures error.Some? && !error.value.Naming? && error.value != RollbackFailed ==>
              if created && fs.faults.removals == old(fs.faults.removals) then
                fs.tree == old(fs.tree) - {container}
              else fs.tree == old(fs.tree)
    ensures error == Some(RollbackFailed) ==>
              fs.faults.renames > old(fs.faults.renames) && SameContent(old(fs.tree), fs.tree)
    ensures error == Some(MoveFailed) && fs.faults.renames == old(fs.faults.renames) ==>
              ItemInsideEarlierItem(sources)
  {
    hide SameContent, AllFree, RunMoves, IsPlan, NoEarlierAncestor, ItemInsideEarlierItem, NamedBy,
         NamingFails, ContainsContainer;
    ms := [];
    var planned := PlanMoves(fs.tree, sources, container, policy);
    if planned.Failure? {
      error := Some(planned.error);
      if created && planned.error.DestinationInsideSource? {
        var removed := fs.RemoveDirectory(container);
        if !removed {
          error := Some(FilesystemOperationFailed);
        }
      }
      return;
    }
    ms := planned.value;
    NestingIffEarlierAncestor(ms, sources);
    error := MoveAll(fs, container, planned.value);
    if error.Some? && error.value != RollbackFailed && created {
      var removed := fs.RemoveDirectory(container);
    }
  }

  /** The container can be opened, every item gets a name in it, and no item contains it or lies in an
      item that is moved before. */
  ghost predicate CanMove(t: Tree, sources: seq<Path>, destination: Destination,
                          directory: Option<Name>, policy: ConflictPolicy)
    requires HaveNames(sources)
  {
    && CanOpen(t, destination, directory)
    && !NamingFails(t, sources, Container(destination, directory), policy)
    && !ContainsContainer(sources, Container(destination, directory))
    && !ItemInsideEarlierItem(sources)
  }

  /** Naming in a new container is naming where nothing is. */
  lemma NamingInNewContainer(s: Tree, t: Tree, sources: seq<Path>, container: Path, policy: ConflictPolicy)
    requires WellFormed(s) && HaveNames(sources) && container !in s && IsEmptyDirectory(t, container)
    ensures NamingFails(s, sources, container, policy) <==> policy.Fail? && ShareName(sources)
    ensures NamingFails(t, sources, container, policy) <==> policy.Fail? && ShareName(sources)
  {
    hide NamingFails, ShareName;
    NamingInEmptyDirectory(s, sources, container, policy);
    NamingInEmptyDirectory(t, sources, container, policy);
  }

  /** The input on which a move gives up after it made its container: the container is new and can be
      made, and two items of the same name are to keep their names. */
  ghost predicate LeavesContainer(t: Tree, sources: seq<Path>, destination: Destination,
                                  directory: Option<Name>, policy: ConflictPolicy)
    requires HaveNames(sources)
  {
    && Container(destination, directory) !in t && CanOpen(t, destination, directory)
    && policy.Fail? && ShareName(sources)
  }

  /** Move a selection into a container that may have to be made first. */
  method ExecuteMove(fs: FileSystem, sources: seq<Path>, destination: Destination,
                     directory: Option<Name>, policy: ConflictPolicy)
    returns (r: Result<nat, ErrorCode>)
    requires fs.Valid() && AllPresent(fs.tree, sources)
    modifies fs
    ensures fs.Valid()
    ensures r.Success? ==>
              && r.value == |sources|
              && MoveCompleted(old(fs.tree), fs.tree, Container(destination, directory), sources, policy)
    ensures r == Failure(UnsafeDestinationRoot) <==> RootMissing(old(fs.tree), destination)
    // Failure without `rollback_failed`: nothing changed but perhaps for the new container.
    ensures r.Failure? && r.error != RollbackFailed ==>
              OnlyAddsDirectory(old(fs.tree), fs.tree, Container(destination, directory))
    // If no operation is refused, the move succeeds exactly for these inputs.
    ensures fs.faults == old(fs.faults) ==>
              (r.Success? <==> CanMove(old(fs.tree), sources, destination, directory, policy))
    ensures fs.faults.makes == old(fs.faults.makes) ==>
              (r.Failure? && r.error.Naming? <==>
                && CanOpen(old(fs.tree), destination, directory)
                && NamingFails(old(fs.tree), sources, Container(destination, directory), policy))
    ensures policy.Rename? && |EntriesIn(old(fs.tree), Container(destination, directory))| <= MAX_ORDINAL ==>
              !(r.Failure? && r.error.Naming?)
    // A failed move to which no operation was refused leaves a new container behind exactly then.
    ensures r.Failure? && fs.faults == old(fs.faults) ==>
              (fs.tree != old(fs.tree) <==> LeavesContainer(old(fs.tree), sources, destination, directory, policy))
    ensures r.Failure? && r.error.Naming? ==>
              (fs.tree == old(fs.tree) <==> Container(destination, directory) in old(fs.tree))
    ensures r.Failure? && r.error != RollbackFailed && !r.error.Naming? ==>
              (fs.faults.removals == old(fs.faults.removals) ==> fs.tree == old(fs.tree))
    // A failed rollback loses nothing, and is the operating system's doing.
    ensures r == Failure(RollbackFailed) ==>
              && fs.faults.renames > old(fs.faults.renames)
              && ContentAfterFailedRollback(old(fs.tree), fs.tree, Container(destination, directory))
    // The loop of renames fails without a refusal only for an item inside an earlier item.
    ensures r == Failure(MoveFailed) && fs.faults.renames == old(fs.faults.renames) ==>
              ItemInsideEarlierItem(sources)
  {
    hide AllFree, RunMoves, IsPlan, SameContent, ItemInsideEarlierItem, MovedAsPlanned, NamingFails,
         ShareName, ContainsContainer;
    ghost var start := fs.tree;
    var container := Container(destination, directory);
    if |EntriesIn(start, container)| <= MAX_ORDINAL { RenamingFindsNames(start, sources, container); }
    var error, created := OpenContainer(fs, destination, directory);
    if error.Some? {
      return Failure(error.value);
    }
    ghost var loopTree := fs.tree;
    if created {
      RemovingTheAddedRestores(start, container, loopTree[container]);
      NamingInNewContainer(start, loopTree, sources, container, policy);
    }
    ghost var ms: seq<Move>;
    error, ms := MoveInto(fs, sources, container, created, policy);
    if error.Some? {
      return Failure(error.value);
    }
    return Success(|sources|);
  }

  lemma RemovingTheAddedRestores(t: Tree, p: Path, n: Node)
    requires p !in t
    ensures t[p := n] - {p} == t
  {
  }
}
