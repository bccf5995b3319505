/** Moving a selection to the desktop trash: `files/` holds the items, `info/` one metadata file each. */
module Trash {
  import opened Wrappers
  import opened FileTree
  import opened MoveSequences
  import opened FileSystems
  import opened TargetNames
  import opened FileOperations

  function FilesDirectory(trash: Path): Path {
    trash + ["files"]
  }

  function InfoDirectory(trash: Path): Path {
    trash + ["info"]
  }

  function InfoPath(trash: Path, target: Path): (p: Path)
    requires target != []
    ensures p != [] && Parent(p) == InfoDirectory(trash)
  {
    InfoDirectory(trash) + [BaseName(target) + ".trashinfo"]
  }

  // ----- files that no move touches -----

  /** The move neither takes `f` along nor lands on or above it. */
  ghost predicate Avoids(m: Move, f: Path) {
    !(m.src <= f) && !(m.dst <= f)
  }

  ghost predicate AllAvoid(ms: seq<Move>, f: Path) {
    forall i :: 0 <= i < |ms| ==> Avoids(ms[i], f)
  }

  lemma RenameBesideFile(t: Tree, m: Move, f: Path, n: Node)
    requires WellFormed(t) && f !in t && n.File? && Avoids(m, f)
    ensures f !in Renamed(t, m) && Renamed(t[f := n], m) == Renamed(t, m)[f := n]
    ensures IsFreeMove(t[f := n], m) <==> IsFreeMove(t, m)
  {
    NothingBelowAbsent(t, f);
    var left, right := Renamed(t[f := n], m), Renamed(t, m)[f := n];
    forall q
      ensures q in left <==> q in right
      ensures q in left ==> left[q] == right[q]
    {
      if m.dst <= q {
        assert m.src <= Origin(m, q);
      }
    }
  }

  /** A file beside the moves may be added before or after them: the result is the same. */
  lemma {:induction false} RunBesideFile(t: Tree, ms: seq<Move>, f: Path, n: Node)
    requires WellFormed(t) && f !in t && n.File? && AllAvoid(ms, f)
    ensures AllFree(t[f := n], ms) <==> AllFree(t, ms)
    ensures AllFree(t, ms) ==>
              f !in RunMoves(t, ms) && RunMoves(t[f := n], ms) == RunMoves(t, ms)[f := n]
  {
    hide Renamed, CanReplace;
    if ms != [] {
      RunBesideFile(t, Front(ms), f, n);
      if AllFree(t, Front(ms)) {
        RunKeepsWellFormed(t, Front(ms));
        assert Avoids(ms[|ms| - 1], f);
        RenameBesideFile(RunMoves(t, Front(ms)), Last(ms), f, n);
      }
    }
  }

  lemma {:induction false} AvoidedStays(t: Tree, ms: seq<Move>, q: Path)
    requires AllAvoid(ms, q)
    ensures q in RunMoves(t, ms) <==> q in t
    ensures q in t ==> RunMoves(t, ms)[q] == t[q]
  {
    if ms != [] {
      assert Avoids(ms[|ms| - 1], q);
      AvoidedStays(t, Front(ms), q);
    }
  }

  // ----- the metadata files of a run -----

  /** `t` is reached from `start` by the moves, with the metadata files `extra` beside them. */
  ghost predicate TrashState(start: Tree, extra: Tree, t: Tree, moved: seq<Move>) {
    && (forall f :: f in extra ==> f !in start && extra[f].File? && AllAvoid(moved, f))
    && WellFormed(start + extra)
    && Reached(start + extra, t, moved)
  }

  lemma AddInfoFile(start: Tree, extra: Tree, t: Tree, moved: seq<Move>, f: Path, n: Node)
    requires TrashState(start, extra, t, moved) && AllAvoid(moved, f) && n.File?
    requires f != [] && f !in t && IsDirectory(t, Parent(f))
    ensures f !in start && f !in extra && TrashState(start, extra[f := n], t[f := n], moved)
  {
    hide RunMoves, AllFree, WellFormed;
    var base := start + extra;
    AvoidedStays(base, moved, f);
    ParentAvoided(moved, f);
    AvoidedStays(base, moved, Parent(f));
    AddingLeafKeepsWellFormed(base, f, n);
    RunBesideFile(base, moved, f, n);
    assert start + extra[f := n] == base[f := n];
  }

  lemma ParentAvoided(ms: seq<Move>, f: Path)
    requires f != [] && AllAvoid(ms, f)
    ensures AllAvoid(ms, Parent(f))
  {
    forall i | 0 <= i < |ms| ensures Avoids(ms[i], Parent(f)) {
      assert Avoids(ms[i], f);
      assert Parent(f) <= f;
    }
  }

  lemma RemoveInfoFile(start: Tree, extra: Tree, t: Tree, moved: seq<Move>, f: Path)
    requires TrashState(start, extra, t, moved) && f in extra
    ensures f in t && t[f].File? && TrashState(start, extra - {f}, t - {f}, moved)
  {
    hide RunMoves, AllFree;
    var base := start + (extra - {f});
    var n := extra[f];
    assert base[f := n] == start + extra;
    assert f != [];
    RemovingLeafKeepsWellFormed(start + extra, f);
    assert (start + extra) - {f} == base;
    RunBesideFile(base, moved, f, n);
    assert RunMoves(base, moved)[f := n] - {f} == RunMoves(base, moved);
  }

  lemma TrashMoved(start: Tree, extra: Tree, t: Tree, moved: seq<Move>, m: Move)
    requires TrashState(start, extra, t, moved) && IsFreeMove(t, m)
    requires forall f :: f in extra ==> Avoids(m, f)
    ensures TrashState(start, extra, Renamed(t, m), moved + [m])
  {
    hide RunMoves, AllFree, Renamed, CanReplace, WellFormed;
    AppendFreeMove(start + extra, moved, m);
    forall f | f in extra ensures AllAvoid(moved + [m], f) {
    }
  }

  /** Where the trash sits relative to the selection: no item contains the metadata directory or
      lies in it, and every target is directly in the directory of trashed files. */
  ghost predicate Apart(trash: Path, ms: seq<Move>) {
    forall i :: 0 <= i < |ms| ==>
      && !(ms[i].src <= InfoDirectory(trash)) && !(InfoDirectory(trash) <= ms[i].src)
      && ms[i].dst != [] && Parent(ms[i].dst) == FilesDirectory(trash)
  }

  lemma InfoFilesAvoided(trash: Path, ms: seq<Move>, f: Path)
    requires Apart(trash, ms) && f != [] && Parent(f) == InfoDirectory(trash)
    ensures AllAvoid(ms, f)
  {
    forall i | 0 <= i < |ms| ensures Avoids(ms[i], f) {
      var m := ms[i];
      if m.src <= f && m.src != f { PrefixOfParent(m.src, f); }
      assert FilesDirectory(trash)[|trash|] != InfoDirectory(trash)[|trash|];
      assert |m.dst| == |f|;
    }
  }

  // ----- the loop -----

  /** Whether the metadata file of the last item exists: written, or created and left half-written. */
  ghost predicate InfoCreated(before: Faults, after: Faults, error: Option<ErrorCode>) {
    error.None? || after.partialWrites > before.partialWrites
  }

  ghost predicate WriteFaultsOnly(before: Faults, after: Faults) {
    && after.removals == before.removals && after.makes == before.makes
    && before.writes <= after.writes
    && before.partialWrites <= after.partialWrites
    && before.renames <= after.renames
  }

  /** Errors of the loop. */
  predicate IsTrashError(code: ErrorCode) {
    code.CrossDeviceMoveUnsupported? || code.TrashFailed? || code.TrashMetadataExists? || code.Naming?
  }

  /** Move one item, then write its metadata. */
  method TrashOne(fs: FileSystem, trash: Path, m: Move, describe: Path -> string)
    returns (error: Option<ErrorCode>, moved: bool)
    requires fs.Valid() && m.dst != []
    modifies fs
    ensures fs.Valid() && WriteFaultsOnly(old(fs.faults), fs.faults)
    ensures error.Some? ==> IsTrashError(error.value)
    ensures fs.faults == old(fs.faults) ==>
              var u, f := Renamed(old(fs.tree), m), InfoPath(trash, m.dst);
              (error.None? <==> IsFreeMove(old(fs.tree), m) && f !in u && IsDirectory(u, Parent(f)))
    ensures !moved ==> error.Some? && fs.tree == old(fs.tree)
                       && fs.faults.partialWrites == old(fs.faults.partialWrites)
    ensures moved ==> IsFreeMove(old(fs.tree), m)
    ensures moved ==>
              var u, f := Renamed(old(fs.tree), m), InfoPath(trash, m.dst);
              if InfoCreated(old(fs.faults), fs.faults, error) then
                && f !in u && IsDirectory(u, Parent(f))
                && f in fs.tree && fs.tree[f].File? && fs.tree == u[f := fs.tree[f]]
              else fs.tree == u
    ensures error.None? ==>
              && moved && fs.faults == old(fs.faults)
              && fs.tree[InfoPath(trash, m.dst)].bytes == describe(m.src)
    ensures moved && error.Some? && InfoCreated(old(fs.faults), fs.faults, error) ==>
              fs.tree[InfoPath(trash, m.dst)].bytes < describe(m.src)
  {
    error := AtomicMove(fs, m);
    moved := error.None?;
    if !moved {
      error := if error.value.MoveFailed? then Some(TrashFailed) else error;
      return;
    }
    var outcome := fs.CreateFile(InfoPath(trash, m.dst), describe(m.src));
    error :=
      match outcome
      case Written => None
      case AlreadyExists => Some(TrashMetadataExists)
      case WriteRefused => Some(TrashFailed)
      case PartlyWritten => Some(TrashFailed);
  }

  ghost predicate Described(extra: Tree, trash: Path, m: Move, describe: Path -> string)
    requires m.dst != []
  {
    && InfoPath(trash, m.dst) in extra && extra[InfoPath(trash, m.dst)].File?
    && extra[InfoPath(trash, m.dst)].bytes == describe(m.src)
  }

  ghost predicate HaveTargets(ms: seq<Move>) {
    forall i :: 0 <= i < |ms| ==> ms[i].dst != []
  }

  /** The paths of the metadata files of the given moves. */
  function InfoPaths(trash: Path, ms: seq<Move>): (ps: seq<Path>)
    requires HaveTargets(ms)
    ensures |ps| == |ms| && forall i :: 0 <= i < |ms| ==> ps[i] == InfoPath(trash, ms[i].dst)
  {
    if ms == [] then [] else InfoPaths(trash, Front(ms)) + [InfoPath(trash, Last(ms).dst)]
  }

  lemma TrashedOneMore(start: Tree, extra: Tree, t: Tree, u: Tree, moved: seq<Move>, trash: Path,
                       ms: seq<Move>, created: bool)
    returns (extra': Tree)
    requires Apart(trash, ms) && moved < ms && TrashState(start, extra, t, moved)
    requires forall f :: f in extra ==> f != [] && Parent(f) == InfoDirectory(trash)
    requires IsFreeMove(t, ms[|moved|])
    requires var f := InfoPath(trash, ms[|moved|].dst);
             if created then
               && f !in Renamed(t, ms[|moved|]) && IsDirectory(Renamed(t, ms[|moved|]), Parent(f))
               && f in u && u[f].File? && u == Renamed(t, ms[|moved|])[f := u[f]]
             else u == Renamed(t, ms[|moved|])
    ensures TrashState(start, extra', u, moved + [ms[|moved|]])
    ensures var f := InfoPath(trash, ms[|moved|].dst);
            if created then f !in extra && f in u && extra' == extra[f := u[f]] else extra' == extra
  {
    hide TrashState, Renamed, CanReplace;
    var m := ms[|moved|];
    forall f | f in extra ensures Avoids(m, f) {
      InfoFilesAvoided(trash, ms, f);
    }
    TrashMoved(start, extra, t, moved, m);
    extra' := extra;
    if created {
      var f := InfoPath(trash, m.dst);
      InfoFilesAvoided(trash, ms, f);
      PrefixOneMore(ms, moved);
      AddInfoFile(start, extra, Renamed(t, m), moved + [m], f, u[f]);
      extra' := extra[f := u[f]];
    }
  }

  /** The files `extra` are the listed ones and the `leftover` ones, all in the metadata directory. */
  ghost predicate InfoFilesAre(extra: Tree, trash: Path, listed: seq<Path>, leftover: set<Path>) {
    && (forall f :: f in extra <==> f in listed || f in leftover)
    && (forall f :: f in leftover ==> f !in listed)
    && (forall i, j :: 0 <= i < j < |listed| ==> listed[i] != listed[j])
    && (forall f :: f in extra ==> f != [] && Parent(f) == InfoDirectory(trash))
  }

  /** The metadata files of the first `k` moves describe their items. */
  ghost predicate AllDescribed(extra: Tree, trash: Path, ms: seq<Move>, k: nat, describe: Path -> string)
    requires HaveTargets(ms) && k <= |ms|
  {
    forall i :: 0 <= i < k ==> Described(extra, trash, ms[i], describe)
  }

  /** No item's metadata file would take the place of an existing one. */
  ghost predicate NoMetadataTaken(t: Tree, trash: Path, ms: seq<Move>)
    requires HaveTargets(ms)
  {
    forall i :: 0 <= i < |ms| ==> InfoPath(trash, ms[i].dst) !in t
  }

  /** The selection can be trashed: the items are planned into `files/`, none lies in an earlier one,
      and no metadata name is taken. */
  ghost predicate CanTrash(t: Tree, trash: Path, ms: seq<Move>)
    requires HaveTargets(ms)
  {
    && IsPlan(t, FilesDirectory(trash), ms) && IsDirectory(t, InfoDirectory(trash))
    && NoEarlierAncestor(ms) && NoMetadataTaken(t, trash, ms)
  }

  lemma PlanBesideInfo(start: Tree, extra: Tree, trash: Path, ms: seq<Move>)
    requires IsPlan(start, FilesDirectory(trash), ms)
    requires forall f :: f in extra ==> f != [] && Parent(f) == InfoDirectory(trash)
    ensures IsPlan(start + extra, FilesDirectory(trash), ms)
  {
    var files := FilesDirectory(trash);
    assert Parent(files) == trash && |trash| != |InfoDirectory(trash)|;
    assert files[|trash|] != InfoDirectory(trash)[|trash|];
    forall i | 0 <= i < |ms| ensures ms[i].dst !in extra {
      assert Parent(ms[i].dst) == files;
    }
  }

  lemma InfoPathsDiffer(trash: Path, p: Path, q: Path)
    requires p != [] && q != [] && Parent(p) == Parent(q) && p != q
    ensures InfoPath(trash, p) != InfoPath(trash, q)
  {
    var a, b := BaseName(p), BaseName(q);
    assert p == Parent(p) + [a] && q == Parent(q) + [b];
    assert InfoPath(trash, p)[|trash| + 1] == a + ".trashinfo";
    assert InfoPath(trash, q)[|trash| + 1] == b + ".trashinfo";
    assert (a + ".trashinfo")[..|a + ".trashinfo"| - 10] == a;
    assert (b + ".trashinfo")[..|b + ".trashinfo"| - 10] == b;
  }

  /** In a selection that can be trashed nothing stands in the way of the next item. */
  lemma NextItemGoesThrough(start: Tree, extra: Tree, t: Tree, moved: seq<Move>, listed: seq<Path>,
                            trash: Path, ms: seq<Move>)
    requires HaveTargets(ms) && Apart(trash, ms) && CanTrash(start, trash, ms)
    requires moved < ms && TrashState(start, extra, t, moved) && InfoFilesAre(extra, trash, listed, {})
    requires |listed| == |moved| && forall i :: 0 <= i < |moved| ==> listed[i] == InfoPath(trash, ms[i].dst)
    ensures var m := ms[|moved|];
            var u, f := Renamed(t, m), InfoPath(trash, m.dst);
            IsFreeMove(t, m) && f !in u && IsDirectory(u, Parent(f))
  {
    hide AllFree, RunMoves, Renamed, CanReplace, WellFormed, NoEarlierAncestor;
    var m, base := ms[|moved|], start + extra;
    var f := InfoPath(trash, m.dst);
    PlanBesideInfo(start, extra, trash, ms);
    WhereAPlanStops(base, t, FilesDirectory(trash), ms, moved);
    AppendFreeMove(base, moved, m);
    PrefixOneMore(ms, moved);
    InfoFilesAvoided(trash, ms, f);
    ParentAvoided(ms, f);
    AvoidedStays(base, moved + [m], f);
    AvoidedStays(base, moved + [m], Parent(f));
    forall j | 0 <= j < |moved| ensures listed[j] != f {
      InfoPathsDiffer(trash, ms[j].dst, m.dst);
    }
    assert Parent(f) !in extra by {
      assert Parent(InfoDirectory(trash)) == trash && |trash| != |InfoDirectory(trash)|;
    }
  }

  /** A selection that was trashed could be. */
  lemma TrashedCouldBe(start: Tree, extra: Tree, t: Tree, trash: Path, ms: seq<Move>, describe: Path -> string)
    requires HaveTargets(ms) && Apart(trash, ms) && TrashState(start, extra, t, ms)
    requires IsPlan(start, FilesDirectory(trash), ms)
    requires forall f :: f in extra ==> f != [] && Parent(f) == InfoDirectory(trash)
    requires AllDescribed(extra, trash, ms, |ms|, describe)
    ensures NoEarlierAncestor(ms) && NoMetadataTaken(start, trash, ms)
  {
    hide AllFree, RunMoves, IsPlan, NoEarlierAncestor;
    PlanBesideInfo(start, extra, trash, ms);
    PlanSucceedsIff(start + extra, FilesDirectory(trash), ms);
    forall i | 0 <= i < |ms| ensures InfoPath(trash, ms[i].dst) !in start {
      assert Described(extra, trash, ms[i], describe);
    }
  }

  ghost predicate NoneIntoItself(ms: seq<Move>) {
    forall i :: 0 <= i < |ms| ==> !(ms[i].src <= ms[i].dst)
  }

  lemma TrashedNoneIntoItself(start: Tree, extra: Tree, t: Tree, ms: seq<Move>)
    requires TrashState(start, extra, t, ms)
    ensures NoneIntoItself(ms)
  {
    hide RunMoves;
    forall i | 0 <= i < |ms| ensures !(ms[i].src <= ms[i].dst) {
      AllFreePrefix(start + extra, ms, i + 1);
      assert Last(ms[..i + 1]) == ms[i];
    }
  }

  /** What is left of the metadata: at most one file, whose writing broke off. */
  ghost predicate HalfWritten(extra: Tree, trash: Path, ms: seq<Move>, describe: Path -> string)
    requires HaveTargets(ms)
  {
    && (forall f, g :: f in extra && g in extra ==> f == g)
    && forall f :: f in extra ==>
         exists i :: 0 <= i < |ms| && f == InfoPath(trash, ms[i].dst)
                     && extra[f].File? && extra[f].bytes < describe(ms[i].src)
  }

  /** One more item in the trash: with its metadata listed, left over half-written, or not created. */
  lemma OneMoreTrashed(start: Tree, extra: Tree, t: Tree, u: Tree, moved: seq<Move>, listed: seq<Path>,
                       trash: Path, ms: seq<Move>, describe: Path -> string, created: bool)
    returns (extra': Tree)
    requires HaveTargets(ms) && Apart(trash, ms) && moved < ms && TrashState(start, extra, t, moved)
    requires InfoFilesAre(extra, trash, listed, {}) && AllDescribed(extra, trash, ms, |moved|, describe)
    requires IsFreeMove(t, ms[|moved|])
    requires var f := InfoPath(trash, ms[|moved|].dst);
             if created then
               && f !in Renamed(t, ms[|moved|]) && IsDirectory(Renamed(t, ms[|moved|]), Parent(f))
               && f in u && u[f].File? && u == Renamed(t, ms[|moved|])[f := u[f]]
             else u == Renamed(t, ms[|moved|])
    ensures TrashState(start, extra', u, moved + [ms[|moved|]])
    ensures var f := InfoPath(trash, ms[|moved|].dst);
            && InfoFilesAre(extra', trash, listed, if created then {f} else {})
            && (created ==> InfoFilesAre(extra', trash, listed + [f], {}))
            && (created ==> f in extra' && extra'[f] == u[f])
            && (created && u[f].bytes == describe(ms[|moved|].src) ==>
                  AllDescribed(extra', trash, ms, |moved| + 1, describe))
  {
    hide TrashState, Renamed, CanReplace, Apart;
    extra' := TrashedOneMore(start, extra, t, u, moved, trash, ms, created);
  }

  function Only(extra: Tree, kept: set<Path>): Tree {
    map f | f in extra && f in kept :: extra[f]
  }

  lemma NothingLeftOver(extra: Tree, trash: Path, ms: seq<Move>, describe: Path -> string)
    requires HaveTargets(ms)
    ensures HalfWritten(Only(extra, {}), trash, ms, describe)
  {
  }

  lemma OneLeftOver(extra: Tree, trash: Path, ms: seq<Move>, i: nat, describe: Path -> string)
    requires HaveTargets(ms) && i < |ms|
    requires var f := InfoPath(trash, ms[i].dst);
             f in extra ==> extra[f].File? && extra[f].bytes < describe(ms[i].src)
    ensures HalfWritten(Only(extra, {InfoPath(trash, ms[i].dst)}), trash, ms, describe)
  {
  }

  /** The loop of the trash, up to the first error. A half-written metadata file is left over, unlisted. */
  method TrashUntilError(fs: FileSystem, trash: Path, ms: seq<Move>, describe: Path -> string)
    returns (error: Option<ErrorCode>, moved: seq<Move>, infoPaths: seq<Path>,
             ghost extra: Tree, ghost leftover: set<Path>)
    requires fs.Valid() && HaveTargets(ms)
    modifies fs
    ensures fs.Valid() && WriteFaultsOnly(old(fs.faults), fs.faults)
    ensures error.None? ==> moved == ms && leftover == {} && infoPaths == InfoPaths(trash, ms)
    ensures error.Some? ==> IsTrashError(error.value)
    ensures leftover == {} <==> fs.faults.partialWrites == old(fs.faults.partialWrites)
    ensures leftover == {} || exists f :: leftover == {f}
    ensures Apart(trash, ms) && IsDirectory(old(fs.tree), InfoDirectory(trash))
            && IsPlan(old(fs.tree), FilesDirectory(trash), ms) && fs.faults == old(fs.faults) ==>
              (error.None? <==> CanTrash(old(fs.tree), trash, ms))
    ensures error.None? && Apart(trash, ms) ==> NoneIntoItself(ms)
    ensures Apart(trash, ms) ==>
              && TrashState(old(fs.tree), extra, fs.tree, moved)
              && InfoFilesAre(extra, trash, infoPaths, leftover)
              && (error.None? ==> AllDescribed(extra, trash, ms, |ms|, describe))
              && HalfWritten(Only(extra, leftover), trash, ms, describe)
  {
    hide CanTrash, NoMetadataTaken, IsPlan, HalfWritten, NoneIntoItself, NoEarlierAncestor,
         TrashState, InfoFilesAre, AllDescribed, WellFormed, Renamed, CanReplace, Apart, RunMoves, AllFree;
    ghost var start := fs.tree;
    moved, infoPaths, extra, leftover := [], [], map[], {};
    StartOfTrash(start, trash, ms, describe);
    NothingLeftOver(extra, trash, ms, describe);
    while |moved| < |ms|
      invariant fs.Valid() && moved <= ms && leftover == {} && |infoPaths| == |moved|
      invariant forall i :: 0 <= i < |moved| ==> infoPaths[i] == InfoPath(trash, ms[i].dst)
      invariant fs.faults == old(fs.faults)
      invariant Apart(trash, ms) ==>
                  && TrashState(start, extra, fs.tree, moved) && InfoFilesAre(extra, trash, infoPaths, {})
                  && AllDescribed(extra, trash, ms, |moved|, describe)
    {
      var m := ms[|moved|];
      ghost var before, faults, k := fs.tree, fs.faults, |moved|;
      if Apart(trash, ms) && CanTrash(start, trash, ms) {
        NextItemGoesThrough(start, extra, before, moved, infoPaths, trash, ms);
      }
      var done;
      error, done := TrashOne(fs, trash, m, describe);
      if done {
        PrefixOneMore(ms, moved);
        if Apart(trash, ms) {
          extra := OneMoreTrashed(start, extra, before, fs.tree, moved, infoPaths, trash, ms, describe,
                                  InfoCreated(faults, fs.faults, error));
        }
        moved := moved + [m];
      }
      if error.Some? {
        if fs.faults.partialWrites > faults.partialWrites {
          leftover := {InfoPath(trash, m.dst)};
          if Apart(trash, ms) { OneLeftOver(extra, trash, ms, k, describe); }
        } else {
          NothingLeftOver(extra, trash, ms, describe);
        }
        return;
      }
      infoPaths := infoPaths + [InfoPath(trash, m.dst)];
    }
    assert moved == ms;
    if Apart(trash, ms) {
      TrashedNoneIntoItself(start, extra, fs.tree, ms);
      if IsDirectory(start, InfoDirectory(trash)) && IsPlan(start, FilesDirectory(trash), ms) {
        AllTrashed(start, extra, fs.tree, trash, ms, infoPaths, describe);
      }
    }
    NothingLeftOver(extra, trash, ms, describe);
    return None, moved, infoPaths, extra, leftover;
  }

  lemma AllTrashed(start: Tree, extra: Tree, t: Tree, trash: Path, ms: seq<Move>, listed: seq<Path>,
                   describe: Path -> string)
    requires HaveTargets(ms) && Apart(trash, ms) && TrashState(start, extra, t, ms)
    requires IsPlan(start, FilesDirectory(trash), ms) && IsDirectory(start, InfoDirectory(trash))
    requires InfoFilesAre(extra, trash, listed, {}) && AllDescribed(extra, trash, ms, |ms|, describe)
    ensures CanTrash(start, trash, ms)
  {
    hide TrashState, Apart, AllDescribed, IsPlan, NoEarlierAncestor, NoMetadataTaken;
    TrashedCouldBe(start, extra, t, trash, ms, describe);
  }

  lemma StartOfTrash(t: Tree, trash: Path, ms: seq<Move>, describe: Path -> string)
    requires WellFormed(t) && HaveTargets(ms)
    ensures TrashState(t, map[], t, []) && InfoFilesAre(map[], trash, [], {})
    ensures AllDescribed(map[], trash, ms, 0, describe)
  {
    assert t + map[] == t;
  }

  /** Unlink the listed metadata files; stop at the first refusal. */
  method RemoveInfoFiles(fs: FileSystem, trash: Path, infoPaths: seq<Path>, ghost apart: bool,
                         ghost start: Tree, ghost extra: Tree, ghost moved: seq<Move>,
                         ghost leftover: set<Path>)
    returns (done: bool, ghost rest: Tree)
    requires fs.Valid()
    requires apart ==> TrashState(start, extra, fs.tree, moved)
                       && InfoFilesAre(extra, trash, infoPaths, leftover)
    modifies fs
    ensures fs.Valid() && fs.faults.partialWrites == old(fs.faults.partialWrites)
    ensures fs.faults == old(fs.faults).(removals := fs.faults.removals)
    ensures fs.faults.removals >= old(fs.faults.removals)
    ensures apart ==> TrashState(start, rest, fs.tree, moved)
    ensures forall f :: f in rest ==> f in extra && rest[f] == extra[f]
    ensures apart && done ==> rest == Only(extra, leftover)
    ensures done ==> fs.faults.removals == old(fs.faults.removals)
    ensures apart && !done ==> fs.faults.removals > old(fs.faults.removals)
  {
    hide TrashState, RunMoves, AllFree;
    rest := extra;
    for i := 0 to |infoPaths|
      invariant fs.Valid() && fs.faults.partialWrites == old(fs.faults.partialWrites)
      invariant fs.faults == old(fs.faults)
      invariant forall f :: f in rest ==> f in extra && rest[f] == extra[f]
      invariant apart ==> TrashState(start, rest, fs.tree, moved)
      invariant apart ==> forall f :: f in rest <==> f in infoPaths[i..] || f in leftover
    {
      var p := infoPaths[i];
      assert infoPaths[i..] == [p] + infoPaths[i + 1..];
      if apart {
        RemoveInfoFile(start, rest, fs.tree, moved, p);
      }
      done := fs.Unlink(p);
      if !done {
        return;
      }
      rest := rest - {p};
    }
    done := true;
    if apart { assert rest == Only(extra, leftover); }
  }

  // ----- the operation -----

  /** `t` is `s`, possibly with directories of the trash made. */
  ghost predicate OnlyAddsTrashDirectories(s: Tree, t: Tree, trash: Path) {
    && (forall p :: p in s ==> p in t && t[p] == s[p])
    && (forall p :: p in t ==>
          p in s || (t[p].Dir? && (p == trash || p == FilesDirectory(trash) || p == InfoDirectory(trash))))
  }

  /** The path is a directory, or is free in one. */
  predicate CanBeDirectory(t: Tree, p: Path) {
    if p in t then t[p].Dir? else p != [] && IsDirectory(t, Parent(p))
  }

  /** The directories of the trash are there or can be made. */
  predicate CanOpenTrash(t: Tree, trash: Path) {
    && CanBeDirectory(t, trash)
    && (FilesDirectory(trash) in t ==> t[FilesDirectory(trash)].Dir?)
    && (InfoDirectory(trash) in t ==> t[InfoDirectory(trash)].Dir?)
  }

  method EnsurePrivateDirectory(fs: FileSystem, p: Path) returns (error: Option<ErrorCode>)
    requires fs.Valid()
    modifies fs
    ensures fs.Valid() && OnlyMakesRefused(old(fs.faults), fs.faults)
    ensures fs.faults == old(fs.faults) ==> (error.None? <==> CanBeDirectory(old(fs.tree), p))
    ensures OnlyAddsDirectory(old(fs.tree), fs.tree, p)
    ensures error.None? <==> IsDirectory(fs.tree, p)
    ensures error.Some? ==> error.value.UnsafeTrashDirectory? || error.value.FilesystemOperationFailed?
  {
    if p in fs.tree {
      return if fs.tree[p].Dir? then None else Some(UnsafeTrashDirectory);
    }
    var made := fs.MakeDirectory(p);
    return if made then None else Some(FilesystemOperationFailed);
  }

  method OpenTrash(fs: FileSystem, trash: Path) returns (error: Option<ErrorCode>)
    requires fs.Valid()
    modifies fs
    ensures fs.Valid() && OnlyMakesRefused(old(fs.faults), fs.faults)
    ensures fs.faults == old(fs.faults) ==> (error.None? <==> CanOpenTrash(old(fs.tree), trash))
    ensures OnlyAddsTrashDirectories(old(fs.tree), fs.tree, trash)
    ensures error.None? ==>
              IsDirectory(fs.tree, FilesDirectory(trash)) && IsDirectory(fs.tree, InfoDirectory(trash))
    ensures error.Some? ==> error.value.UnsafeTrashDirectory? || error.value.FilesystemOperationFailed?
  {
    error := EnsurePrivateDirectory(fs, trash);
    if error.Some? { return; }
    error := EnsurePrivateDirectory(fs, FilesDirectory(trash));
    if error.Some? { return; }
    error := EnsurePrivateDirectory(fs, InfoDirectory(trash));
  }

  /** No selected item contains the metadata directory or lies in it. */
  ghost predicate ApartFromInfo(trash: Path, sources: seq<Path>) {
    forall i :: 0 <= i < |sources| ==>
      !(sources[i] <= InfoDirectory(trash)) && !(InfoDirectory(trash) <= sources[i])
  }

  method PlanTrash(t: Tree, sources: seq<Path>, trash: Path) returns (r: Result<seq<Move>, ErrorCode>)
    requires AllPresent(t, sources) && IsDirectory(t, FilesDirectory(trash))
    ensures r.Success? ==> MovesThese(r.value, sources) && HaveTargets(r.value)
    ensures r.Success? && ApartFromInfo(trash, sources) ==> Apart(trash, r.value)
    ensures r.Success? ==> NamedBy(t, FilesDirectory(trash), Rename, r.value)
    ensures r.Success? ==>
              if ContainsContainer(sources, FilesDirectory(trash)) then !NoneIntoItself(r.value)
              else IsPlan(t, FilesDirectory(trash), r.value)
    ensures r.Failure? <==> NamingFails(t, sources, FilesDirectory(trash), Rename)
    ensures r.Failure? ==> r.error.Naming?
  {
    hide NamingFails, Named, NamedBy, IsPlan, ContainsContainer, NoneIntoItself, GoodTargets;
    var files := FilesDirectory(trash);
    var planned := TargetsForSources(t, sources, files, Rename);
    if planned.Failure? {
      return Failure(Naming(planned.error));
    }
    PlannedForTrash(t, sources, planned.value, files);
    PlannedNames(t, sources, planned.value, files, Rename);
    TargetsLieIn(t, planned.value, files);
    return Success(Moves(sources, planned.value));
  }

  lemma TargetsLieIn(t: Tree, targets: seq<Path>, files: Path)
    requires GoodTargets(t, files, targets)
    ensures forall i :: 0 <= i < |targets| ==> targets[i] != [] && Parent(targets[i]) == files
  {
  }

  lemma PlannedForTrash(t: Tree, sources: seq<Path>, targets: seq<Path>, files: Path)
    requires AllPresent(t, sources) && IsDirectory(t, files)
    requires |sources| == |targets| && GoodTargets(t, files, targets)
    ensures if ContainsContainer(sources, files) then !NoneIntoItself(Moves(sources, targets))
            else IsPlan(t, files, Moves(sources, targets))
  {
    hide IsPlan;
    if ContainsContainer(sources, files) {
      var i :| 0 <= i < |sources| && sources[i] <= files;
      assert files == Parent(targets[i]) && Moves(sources, targets)[i] == Move(sources[i], targets[i]);
    } else {
      forall i | 0 <= i < |sources| ensures !(sources[i] <= targets[i]) {
        if sources[i] <= targets[i] {
          InsideSourceContainsContainer(t, sources, targets, files);
        }
      }
      PlannedTargetsMakeAPlan(t, files, sources, targets);
    }
  }

  /** `extra` holds new files in the metadata directory of the trash, and nothing else. */
  ghost predicate MetadataBeside(t: Tree, extra: Tree, trash: Path) {
    forall f :: f in extra ==> f !in t && f != [] && Parent(f) == InfoDirectory(trash) && extra[f].File?
  }

  lemma StateIsBeside(start: Tree, extra: Tree, t: Tree, moved: seq<Move>, trash: Path)
    requires TrashState(start, extra, t, moved)
    requires forall f :: f in extra ==> f != [] && Parent(f) == InfoDirectory(trash)
    ensures MetadataBeside(start, extra, trash)
  {
  }

  lemma InfoFilesLieInInfo(extra: Tree, trash: Path, listed: seq<Path>, leftover: set<Path>)
    requires InfoFilesAre(extra, trash, listed, leftover)
    ensures forall f :: f in extra ==> f != [] && Parent(f) == InfoDirectory(trash)
    ensures Only(extra, leftover) == map[] <==> leftover == {}
  {
    if leftover != {} {
      var f :| f in leftover;
      assert f in Only(extra, leftover);
    }
  }

  /** Every item gets a metadata file under a free name. */
  ghost predicate MetadataFree(t: Tree, trash: Path, sources: seq<Path>)
    requires HaveNames(sources)
  {
    forall targets: seq<Path> ::
      |targets| == |sources| && Named(t, sources, FilesDirectory(trash), Rename, targets) ==>
        forall i :: 0 <= i < |targets| ==> targets[i] != [] && InfoPath(trash, targets[i]) !in t
  }

  /** The trash can be opened, every item gets a name and a metadata name in it, and no item contains
      it or lies in an item that is moved before. */
  ghost predicate CanTrashSelection(t: Tree, trash: Path, sources: seq<Path>)
    requires HaveNames(sources)
  {
    && CanOpenTrash(t, trash)
    && !NamingFails(t, sources, FilesDirectory(trash), Rename)
    && !ContainsContainer(sources, FilesDirectory(trash)) && !ItemInsideEarlierItem(sources)
    && MetadataFree(t, trash, sources)
  }

  /** Opening the trash makes no difference to names in its directories. */
  lemma TrashDirectoriesHoldTheSame(s: Tree, t: Tree, trash: Path)
    requires OnlyAddsTrashDirectories(s, t, trash)
    ensures SameNamesIn(s, t, FilesDirectory(trash)) && SameNamesIn(s, t, InfoDirectory(trash))
  {
    forall q | q != [] && (Parent(q) == FilesDirectory(trash) || Parent(q) == InfoDirectory(trash))
      ensures q in s <==> q in t
    {
      assert |q| == |trash| + 2;
    }
  }

  lemma NamingBesideTrash(s: Tree, t: Tree, sources: seq<Path>, trash: Path)
    requires OnlyAddsTrashDirectories(s, t, trash) && HaveNames(sources)
    ensures NamingFails(s, sources, FilesDirectory(trash), Rename) <==>
              NamingFails(t, sources, FilesDirectory(trash), Rename)
  {
    hide NamingFails, OnlyAddsTrashDirectories;
    var files := FilesDirectory(trash);
    TrashDirectoriesHoldTheSame(s, t, trash);
    if NamingFails(s, sources, files, Rename) {
      NamingFailsAgrees(s, t, sources, files, Rename);
    } else if NamingFails(t, sources, files, Rename) {
      NamingFailsAgrees(t, s, sources, files, Rename);
    }
  }

  lemma MetadataFreeIff(s: Tree, t: Tree, sources: seq<Path>, trash: Path, ms: seq<Move>)
    requires OnlyAddsTrashDirectories(s, t, trash) && HaveNames(sources)
    requires MovesThese(ms, sources) && HaveTargets(ms) && NamedBy(t, FilesDirectory(trash), Rename, ms)
    ensures MetadataFree(s, trash, sources) <==> NoMetadataTaken(t, trash, ms)
  {
    hide Named, OnlyAddsTrashDirectories;
    var files := FilesDirectory(trash);
    var targets := Targets(ms);
    assert Origins(ms) == sources;
    TrashDirectoriesHoldTheSame(s, t, trash);
    NamedAgrees(t, s, sources, files, Rename, targets);
    forall other: seq<Path> | |other| == |sources| && Named(s, sources, files, Rename, other)
      ensures other == targets
    {
      NamedIsUnique(s, sources, files, Rename, other, targets, |sources|);
    }
    forall i | 0 <= i < |ms| ensures InfoPath(trash, ms[i].dst) in s <==> InfoPath(trash, ms[i].dst) in t {
      InfoPathLies(trash, ms[i].dst);
    }
    assert forall i :: 0 <= i < |ms| ==> targets[i] == ms[i].dst;
    assert forall i :: 0 <= i < |ms| ==> (InfoPath(trash, targets[i]) in s <==> InfoPath(trash, ms[i].dst) in t);
    assert MetadataFree(s, trash, sources) <==> forall i :: 0 <= i < |targets| ==> InfoPath(trash, targets[i]) !in s;
  }

  lemma InfoPathLies(trash: Path, target: Path)
    requires target != []
    ensures InfoPath(trash, target) != [] && Parent(InfoPath(trash, target)) == InfoDirectory(trash)
  {
  }

  /** The item is in `files/`, and `info/` has a file of the same name plus `.trashinfo` about it. */
  ghost predicate IsStored(extra: Tree, trash: Path, m: Move, about: string) {
    && |m.dst| == |trash| + 2 && m.dst[..|trash| + 1] == trash + ["files"]
    && var info := trash + ["info", m.dst[|trash| + 1] + ".trashinfo"];
       info in extra && extra[info].File? && extra[info].bytes == about
  }

  lemma TrashedIsStored(t: Tree, extra: Tree, trash: Path, ms: seq<Move>, describe: Path -> string)
    requires HaveTargets(ms) && IsPlan(t, FilesDirectory(trash), ms)
    requires AllDescribed(extra, trash, ms, |ms|, describe)
    ensures forall m <- ms :: IsStored(extra, trash, m, describe(m.src))
  {
    forall i | 0 <= i < |ms| ensures IsStored(extra, trash, ms[i], describe(ms[i].src)) {
      var m := ms[i];
      assert Parent(m.dst) == trash + ["files"] && Described(extra, trash, m, describe);
      assert InfoPath(trash, m.dst) == trash + ["info", m.dst[|trash| + 1] + ".trashinfo"];
    }
  }

  /** Trash a selection. With `loopTree` the tree after the trash directories were opened:
      on success all items are in `files/` and `extra` holds exactly one metadata file per item, all of
      them new; on failure the loop's tree is restored, up to one half-written metadata file, unless a
      removal was refused or `rollback_failed` is reported, and in no case is anything lost. */
  method ExecuteTrash(fs: FileSystem, sources: seq<Path>, trash: Path, describe: Path -> string)
    returns (r: Result<nat, ErrorCode>, ghost loopTree: Tree, ghost ms: seq<Move>, ghost extra: Tree)
    requires fs.Valid() && AllPresent(fs.tree, sources)
    modifies fs
    ensures fs.Valid() && OnlyAddsTrashDirectories(old(fs.tree), loopTree, trash)
    ensures r.Failure? ==> r.error != UnsafeDestinationRoot
    ensures HaveTargets(ms) && (ms == [] || MovesThese(ms, sources))
    ensures ApartFromInfo(trash, sources) ==>
              MetadataBeside(loopTree, extra, trash) && SameContent(loopTree + extra, fs.tree)
    ensures r.Success? ==>
              && r.value == |sources| && MovesThese(ms, sources)
              && NamedBy(loopTree, FilesDirectory(trash), Rename, ms)
    ensures r.Success? && ApartFromInfo(trash, sources) ==>
              && IsPlan(loopTree, FilesDirectory(trash), ms)
              && Reached(loopTree + extra, fs.tree, ms)
              && InfoFilesAre(extra, trash, InfoPaths(trash, ms), {})
              && AllDescribed(extra, trash, ms, |ms|, describe)
              && forall m <- ms :: IsStored(extra, trash, m, describe(m.src))
    ensures ApartFromInfo(trash, sources) && r.Failure? && fs.faults.removals == old(fs.faults.removals) ==>
              && HalfWritten(extra, trash, ms, describe)
              && (extra == map[] <==> fs.faults.partialWrites == old(fs.faults.partialWrites))
              && (r.error != RollbackFailed ==> fs.tree == loopTree + extra)
    ensures ApartFromInfo(trash, sources) && r == Failure(RollbackFailed) ==>
              fs.faults.renames > old(fs.faults.renames) && fs.faults.removals == old(fs.faults.removals)
    // If no operation is refused, trashing succeeds exactly for these inputs.
    ensures ApartFromInfo(trash, sources) && fs.faults == old(fs.faults) ==>
              (r.Success? <==> CanTrashSelection(old(fs.tree), trash, sources))
  {
    hide TrashState, RunMoves, AllFree, SameContent, Apart, ApartFromInfo, InfoFilesAre, AllDescribed,
         OnlyAddsTrashDirectories, AllPresent, IsPlan, NoEarlierAncestor, ItemInsideEarlierItem,
         NoMetadataTaken, NamingFails, ContainsContainer, MetadataBeside, HalfWritten, NoneIntoItself,
         CanOpenTrash, NamedBy, MetadataFree, IsStored;
    ghost var apart := ApartFromInfo(trash, sources);
    ghost var before := fs.tree;
    var error := OpenTrash(fs, trash);
    loopTree, ms, extra := fs.tree, [], map[];
    NothingTrashed(fs.tree);
    NothingBeside(fs.tree, trash, describe);
    if error.Some? {
      r := Failure(error.value);
      return;
    }
    StillPresent(before, fs.tree, trash, sources);
    NamingBesideTrash(before, fs.tree, sources, trash);
    var planned := PlanTrash(fs.tree, sources, trash);
    if planned.Failure? {
      r := Failure(planned.error);
      return;
    }
    ms := planned.value;
    NestingIffEarlierAncestor(ms, sources);
    MetadataFreeIff(before, fs.tree, sources, trash, ms);
    var moved, infoPaths;
    ghost var leftover;
    error, moved, infoPaths, extra, leftover := TrashUntilError(fs, trash, planned.value, describe);
    if apart { InfoFilesLieInInfo(extra, trash, infoPaths, leftover); }
    if error.None? {
      if apart {
        TrashKeepsContent(loopTree, extra, fs.tree, moved);
        StateIsBeside(loopTree, extra, fs.tree, moved, trash);
        TrashedIsStored(loopTree, extra, trash, ms, describe);
      }
      return Success(|sources|), loopTree, ms, extra;
    }
    var done;
    done, extra := RemoveInfoFiles(fs, trash, infoPaths, apart, loopTree, extra, moved, leftover);
    if apart {
      TrashKeepsContent(loopTree, extra, fs.tree, moved);
      StateIsBeside(loopTree, extra, fs.tree, moved, trash);
    }
    if !done {
      return Failure(FilesystemOperationFailed), loopTree, ms, extra;
    }
    var reported := RecoverFrom(fs, if apart then Some(loopTree + extra) else None, moved, error.value);
    if apart && reported == error.value {
      SameContentReflexive(fs.tree);
    }
    return Failure(reported), loopTree, ms, extra;
  }

  lemma NothingBeside(t: Tree, trash: Path, describe: Path -> string)
    ensures MetadataBeside(t, map[], trash) && HalfWritten(map[], trash, [], describe)
  {
  }

  lemma NothingTrashed(t: Tree)
    ensures t + map[] == t && SameContent(t + map[], t)
  {
    assert t + map[] == t;
    SameContentReflexive(t);
  }

  lemma StillPresent(s: Tree, t: Tree, trash: Path, paths: seq<Path>)
    requires AllPresent(s, paths) && OnlyAddsTrashDirectories(s, t, trash)
    ensures AllPresent(t, paths)
  {
  }

  lemma TrashKeepsContent(start: Tree, extra: Tree, t: Tree, moved: seq<Move>)
    requires TrashState(start, extra, t, moved)
    ensures WellFormed(start + extra) && Reached(start + extra, t, moved)
    ensures SameContent(start + extra, t)
  {
    FreeMovesKeepContent(start + extra, moved);
  }

  /** Every node that existed before is still there; only directories of the trash and new metadata
      files have come in addition. */
  ghost predicate TrashLosesNothing(s: Tree, t: Tree, trash: Path) {
    exists loopTree: Tree, extra: Tree ::
      && OnlyAddsTrashDirectories(s, loopTree, trash) && MetadataBeside(loopTree, extra, trash)
      && SameContent(loopTree + extra, t)
  }

  /** The tree is as before, but for directories of the trash and at most one half-written metadata
      file; `whole` excludes that file. */
  ghost predicate TrashUndone(s: Tree, t: Tree, trash: Path, sources: seq<Path>, describe: Path -> string,
                              whole: bool) {
    exists loopTree: Tree, ms: seq<Move>, extra: Tree ::
      && OnlyAddsTrashDirectories(s, loopTree, trash) && MetadataBeside(loopTree, extra, trash)
      && HaveTargets(ms) && (ms == [] || MovesThese(ms, sources))
      && HalfWritten(extra, trash, ms, describe) && (extra == map[] <==> whole)
      && t == loopTree + extra
  }

  lemma NothingUndone(t: Tree, trash: Path, sources: seq<Path>, describe: Path -> string)
    ensures TrashLosesNothing(t, t, trash) && TrashUndone(t, t, trash, sources, describe, true)
  {
    hide SameContent;
    var loopTree, ms: seq<Move>, extra: Tree := t, [], map[];
    NothingTrashed(t);
    NothingBeside(t, trash, describe);
    assert OnlyAddsTrashDirectories(t, loopTree, trash) && MetadataBeside(loopTree, extra, trash)
           && HaveTargets(ms) && HalfWritten(extra, trash, ms, describe) && t == loopTree + extra;
    assert SameContent(loopTree + extra, t);
  }

  /** All items are in `files/`, with exactly one new metadata file each in `info/`, named after the
      item's target and describing its original path. */
  ghost predicate TrashCompleted(s: Tree, t: Tree, trash: Path, sources: seq<Path>, describe: Path -> string) {
    exists loopTree: Tree, ms: seq<Move>, extra: Tree ::
      && OnlyAddsTrashDirectories(s, loopTree, trash) && MetadataBeside(loopTree, extra, trash)
      && MovesThese(ms, sources) && HaveTargets(ms)
      && NamedBy(loopTree, FilesDirectory(trash), Rename, ms) && IsPlan(loopTree, FilesDirectory(trash), ms)
      && Reached(loopTree + extra, t, ms)
      && InfoFilesAre(extra, trash, InfoPaths(trash, ms), {})
      && AllDescribed(extra, trash, ms, |ms|, describe)
      && forall m <- ms :: IsStored(extra, trash, m, describe(m.src))
  }

  /** Undoing the rename of an item beside a metadata file gives back the tree before, with the file. */
  lemma UndoBesideFile(t: Tree, m: Move, f: Path, n: Node)
    requires WellFormed(t) && IsFreeMove(t, m) && f !in t && n.File? && Avoids(m, f)
    ensures f !in Renamed(t, m)
    ensures var written := Renamed(t, m)[f := n];
            IsFreeMove(written, Move(m.dst, m.src)) && Renamed(written, Move(m.dst, m.src)) == t[f := n]
  {
    hide Renamed, CanReplace;
    RenameBesideFile(t, m, f, n);
    RenameInverse(t, m);
    RenameBesideFile(Renamed(t, m), Move(m.dst, m.src), f, n);
  }

  /** A metadata file that was created but not written is unknown to the rollback and stays behind:
      trashing `/a` into `/T` with a failing write gives back `/a` and leaves `/T/info/a.trashinfo`. */
  lemma HalfWrittenInfoStaysBehind() returns (start: Tree, m: Move)
    ensures WellFormed(start) && IsFreeMove(start, m)
    ensures var info := InfoPath(["T"], m.dst);
            var written := Renamed(start, m)[info := File(0, "")];
            && info !in Renamed(start, m) && IsFreeMove(written, Move(m.dst, m.src))
            && Renamed(written, Move(m.dst, m.src)) == start[info := File(0, "")]
            && info !in start
  {
    start := map[[] := Dir(0), ["a"] := File(0, "x"), ["T"] := Dir(0),
                 ["T", "files"] := Dir(0), ["T", "info"] := Dir(0)];
    m := Move(["a"], ["T", "files", "a"]);
    var info := InfoPath(["T"], m.dst);
    assert Parent(["T", "info"]) == ["T"] && Parent(["T", "files"]) == ["T"];
    assert Parent(["T"]) == [] && Parent(["a"]) == [] && Parent(m.dst) == ["T", "files"];
    assert info[0] == "T" && "T"[0] != m.src[0][0];
    assert info[1] == "info" && "info"[0] != m.dst[1][0];
    UndoBesideFile(start, m, info, File(0, ""));
  }
}
