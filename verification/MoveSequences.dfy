/** Sequences of renames: running them, rolling them back, and where everything ends up. */
module MoveSequences {
  import opened FileTree

  function Front<T>(s: seq<T>): seq<T>
    requires s != []
  {
    s[..|s| - 1]
  }

  function Last<T>(s: seq<T>): T
    requires s != []
  {
    s[|s| - 1]
  }

  lemma PrefixOneMore<T>(s: seq<T>, p: seq<T>)
    requires p < s
    ensures p + [s[|p|]] <= s
  {
  }

  function RunMoves(t: Tree, ms: seq<Move>): Tree {
    if ms == [] then t else Renamed(RunMoves(t, Front(ms)), Last(ms))
  }

  ghost predicate IsFreeMove(t: Tree, m: Move) {
    CanReplace(t, m) && m.dst !in t
  }

  /** Every rename of the sequence is possible and lands on a free name when its turn comes. */
  ghost predicate AllFree(t: Tree, ms: seq<Move>) {
    ms == [] || (AllFree(t, Front(ms)) && IsFreeMove(RunMoves(t, Front(ms)), Last(ms)))
  }

  lemma RunNoMoves(t: Tree, ms: seq<Move>)
    requires |ms| == 0
    ensures RunMoves(t, ms) == t
  {
  }

  /** `u` is reached from `t` by free moves. */
  ghost predicate Reached(t: Tree, u: Tree, ms: seq<Move>) {
    AllFree(t, ms) && u == RunMoves(t, ms)
  }

  lemma {:induction false} RunKeepsWellFormed(t: Tree, ms: seq<Move>)
    requires WellFormed(t) && AllFree(t, ms)
    ensures WellFormed(RunMoves(t, ms))
  {
    if ms != [] {
      RunKeepsWellFormed(t, Front(ms));
      RenamedKeepsWellFormed(RunMoves(t, Front(ms)), Last(ms));
    }
  }

  lemma {:induction false} AllFreePrefix(t: Tree, ms: seq<Move>, k: nat)
    requires AllFree(t, ms) && k <= |ms|
    ensures AllFree(t, ms[..k])
  {
    if k < |ms| {
      assert Front(ms)[..k] == ms[..k];
      AllFreePrefix(t, Front(ms), k);
    } else {
      assert ms[..k] == ms;
    }
  }

  lemma AppendFreeMove(t: Tree, ms: seq<Move>, m: Move)
    requires AllFree(t, ms) && IsFreeMove(RunMoves(t, ms), m)
    ensures AllFree(t, ms + [m]) && RunMoves(t, ms + [m]) == Renamed(RunMoves(t, ms), m)
  {
    assert Front(ms + [m]) == ms;
  }

  // ----- rolling back -----

  /** Undoing the last of the first `i + 1` moves is possible and gives the state after `i` moves. */
  lemma UndoStep(t: Tree, ms: seq<Move>, i: nat)
    requires WellFormed(t) && AllFree(t, ms) && i < |ms|
    ensures IsFreeMove(RunMoves(t, ms[..i + 1]), Move(ms[i].dst, ms[i].src))
    ensures Renamed(RunMoves(t, ms[..i + 1]), Move(ms[i].dst, ms[i].src)) == RunMoves(t, ms[..i])
  {
    hide Renamed, CanReplace, WellFormed;
    AllFreePrefix(t, ms, i + 1);
    assert Front(ms[..i + 1]) == ms[..i];
    RunKeepsWellFormed(t, ms[..i]);
    RenameInverse(RunMoves(t, ms[..i]), ms[i]);
  }

  /** Undo the moves in reverse order. */
  function RolledBack(t: Tree, ms: seq<Move>): Tree
    decreases |ms|
  {
    if ms == [] then t
    else RolledBack(Renamed(t, Move(Last(ms).dst, Last(ms).src)), Front(ms))
  }

  /** Reverse-order rollback is the exact inverse, whatever nesting the moved items have. */
  lemma {:induction false} RollbackRestores(t: Tree, ms: seq<Move>)
    requires WellFormed(t) && AllFree(t, ms)
    ensures RolledBack(RunMoves(t, ms), ms) == t
  {
    hide Renamed, CanReplace, WellFormed;
    if ms != [] {
      var before := RunMoves(t, Front(ms));
      RunKeepsWellFormed(t, Front(ms));
      RenameInverse(before, Last(ms));
      RollbackRestores(t, Front(ms));
    }
  }

  // ----- nothing is lost or overwritten -----

  /** Where the moves take a node, and where the node found at a path came from. */
  function Forth(ms: seq<Move>, p: Path): Path {
    if ms == [] then p else Relocate(Last(ms), Forth(Front(ms), p))
  }

  function Back(ms: seq<Move>, q: Path): Path {
    if ms == [] then q else Back(Front(ms), Before(Last(ms), q))
  }

  /** `Forth` and `Back` are mutually inverse and carry every node of `t` to the same node of `u`:
      no node is lost, copied or overwritten, and none appears. */
  ghost predicate Relabelled(t: Tree, u: Tree, ms: seq<Move>) {
    && (forall p :: p in t ==>
          Forth(ms, p) in u && u[Forth(ms, p)] == t[p] && Back(ms, Forth(ms, p)) == p)
    && (forall q :: q in u ==> Back(ms, q) in t && Forth(ms, Back(ms, q)) == q)
  }

  /** `u` holds exactly the nodes of `t`, possibly at other paths. */
  ghost predicate SameContent(t: Tree, u: Tree) {
    exists ms :: Relabelled(t, u, ms)
  }

  /** Renames to free names, in any number, keep the content. */
  lemma {:induction false} FreeMovesLoseNothing(t: Tree, ms: seq<Move>)
    requires WellFormed(t) && AllFree(t, ms)
    ensures Relabelled(t, RunMoves(t, ms), ms)
  {
    if ms != [] {
      var u, m := RunMoves(t, Front(ms)), Last(ms);
      FreeMovesLoseNothing(t, Front(ms));
      RunKeepsWellFormed(t, Front(ms));
      NothingBelowAbsent(u, m.dst);
      forall p | p in t
        ensures Forth(ms, p) in Renamed(u, m) && Renamed(u, m)[Forth(ms, p)] == t[p]
        ensures Back(ms, Forth(ms, p)) == p
      {
        RelocateArrives(u, m, Forth(Front(ms), p));
      }
      forall q | q in Renamed(u, m)
        ensures Back(ms, q) in t && Forth(ms, Back(ms, q)) == q
      {
        RelocateBefore(u, m, q);
      }
    }
  }

  lemma SameContentReflexive(t: Tree)
    ensures SameContent(t, t)
  {
    assert Relabelled(t, t, []);
  }

  lemma FreeMovesKeepContent(t: Tree, ms: seq<Move>)
    requires WellFormed(t) && AllFree(t, ms)
    ensures SameContent(t, RunMoves(t, ms))
  {
    hide RunMoves, AllFree, Relabelled;
    FreeMovesLoseNothing(t, ms);
  }

  lemma RelocateBefore(t: Tree, m: Move, q: Path)
    requires q in Renamed(t, m)
    ensures Before(m, q) in t && Relocate(m, Before(m, q)) == q
  {
    if m.dst <= q { OriginRelocates(m, q); }
  }

  lemma RelocateArrives(t: Tree, m: Move, p: Path)
    requires p in t && IsFreeMove(t, m)
    requires forall q :: q in t ==> !(m.dst <= q)
    ensures Relocate(m, p) in Renamed(t, m) && Renamed(t, m)[Relocate(m, p)] == t[p]
    ensures m.dst <= Relocate(m, p) <==> m.src <= p
    ensures m.src <= p ==> Origin(m, Relocate(m, p)) == p
  {
    if m.src <= p {
      assert Origin(m, Relocate(m, p)) == p;
    }
  }

  lemma OriginRelocates(m: Move, q: Path)
    requires m.dst <= q
    ensures m.src <= Origin(m, q) && Relocate(m, Origin(m, q)) == q
  {
    assert Origin(m, q)[|m.src|..] == q[|m.dst|..];
  }

  // ----- where everything ends up -----

  /** The final path of `p`: the first selected item that contains `p` takes it along. */
  function Landing(ms: seq<Move>, p: Path): Path {
    if ms == [] then p
    else if ms[0].src <= p then Relocate(ms[0], p)
    else Landing(ms[1..], p)
  }

  ghost predicate Selected(ms: seq<Move>, p: Path) {
    exists i :: 0 <= i < |ms| && ms[i].src <= p
  }

  lemma {:induction false} LandingAppend(ms: seq<Move>, m: Move, p: Path)
    ensures Landing(ms + [m], p) == if Selected(ms, p) then Landing(ms, p) else Relocate(m, p)
  {
    if ms == [] {
    } else if ms[0].src <= p {
    } else {
      assert (ms + [m])[1..] == ms[1..] + [m];
      LandingAppend(ms[1..], m, p);
      assert forall i :: 0 < i < |ms| ==> ms[i] == ms[1..][i - 1];
    }
  }

  lemma {:induction false} LandingOfSelected(ms: seq<Move>, p: Path) returns (i: nat)
    requires Selected(ms, p)
    ensures i < |ms| && ms[i].src <= p && Landing(ms, p) == Relocate(ms[i], p)
    ensures ms[i].dst <= Landing(ms, p)
  {
    if ms[0].src <= p {
      i := 0;
    } else {
      assert forall i :: 0 < i < |ms| ==> ms[i] == ms[1..][i - 1];
      i := LandingOfSelected(ms[1..], p);
      i := i + 1;
    }
  }

  lemma {:induction false} LandingOfUnselected(ms: seq<Move>, p: Path)
    requires !Selected(ms, p)
    ensures Landing(ms, p) == p
  {
    if ms != [] {
      assert forall i :: 0 < i < |ms| ==> ms[i] == ms[1..][i - 1];
      LandingOfUnselected(ms[1..], p);
    }
  }

  /** An existing item that does not contain the container, to be moved to a free name directly
      inside the container. */
  ghost predicate IsPlanned(t: Tree, container: Path, m: Move) {
    && m.src in t && m.src != [] && !(m.src <= container)
    && m.dst != [] && Parent(m.dst) == container && m.dst !in t
  }

  ghost predicate IsPlan(t: Tree, container: Path, ms: seq<Move>) {
    && IsDirectory(t, container)
    && (forall i :: 0 <= i < |ms| ==> IsPlanned(t, container, ms[i]))
    && (forall i, j :: 0 <= i < j < |ms| ==> ms[i].dst != ms[j].dst)
  }

  ghost predicate LandsIn(t: Tree, u: Tree, ms: seq<Move>, p: Path) {
    Landing(ms, p) in u && (p in t ==> u[Landing(ms, p)] == t[p])
  }

  ghost predicate ComesFrom(t: Tree, ms: seq<Move>, q: Path) {
    exists p :: p in t && Landing(ms, p) == q
  }

  /** `u` consists of the nodes of `t`, each at its landing path. */
  ghost predicate Landed(t: Tree, u: Tree, ms: seq<Move>) {
    && (forall p :: p in t ==> LandsIn(t, u, ms, p))
    && (forall q :: q in u ==> ComesFrom(t, ms, q))
  }

  /** Whatever lies in a target is outside every source: checking target i against source i alone
      keeps every target out of every source. */
  lemma SourceOutsideTargets(t: Tree, container: Path, target: Move, other: Move, p: Path)
    requires WellFormed(t) && IsPlanned(t, container, target) && IsPlanned(t, container, other)
    requires target.dst <= p
    ensures !(other.src <= p)
  {
    var s, d := other.src, target.dst;
    if s <= p && |s| > |container| {
      assert d <= s;
      AncestorsAreDirectories(t, s, d);
    }
  }

  lemma LandingStep(t: Tree, container: Path, ms: seq<Move>, p: Path)
    requires WellFormed(t) && IsPlan(t, container, ms) && ms != []
    ensures Landing(ms, p) == Relocate(Last(ms), Landing(Front(ms), p))
  {
    var front, m := Front(ms), Last(ms);
    assert ms == front + [m];
    LandingAppend(front, m, p);
    if Selected(front, p) {
      var i := LandingOfSelected(front, p);
      assert front[i] == ms[i];
      SourceOutsideTargets(t, container, ms[i], m, Landing(front, p));
    } else {
      LandingOfUnselected(front, p);
    }
  }

  lemma LandOneMore(t: Tree, container: Path, u: Tree, ms: seq<Move>, p: Path)
    requires WellFormed(t) && IsPlan(t, container, ms) && ms != []
    requires WellFormed(u) && LandsIn(t, u, Front(ms), p) && IsFreeMove(u, Last(ms))
    ensures LandsIn(t, Renamed(u, Last(ms)), ms, p)
  {
    NothingBelowAbsent(u, Last(ms).dst);
    LandingStep(t, container, ms, p);
    RelocateArrives(u, Last(ms), Landing(Front(ms), p));
  }

  lemma ComeOneMore(t: Tree, container: Path, u: Tree, ms: seq<Move>, q: Path)
    requires WellFormed(t) && IsPlan(t, container, ms) && ms != []
    requires Landed(t, u, Front(ms)) && q in Renamed(u, Last(ms))
    ensures ComesFrom(t, ms, q)
  {
    var m := Last(ms);
    if m.dst <= q { OriginRelocates(m, q); }
    assert ComesFrom(t, Front(ms), Before(m, q));
    var p :| p in t && Landing(Front(ms), p) == Before(m, q);
    LandingStep(t, container, ms, p);
  }

  lemma PlanPrefix(t: Tree, container: Path, ms: seq<Move>)
    requires IsPlan(t, container, ms) && ms != []
    ensures IsPlan(t, container, Front(ms))
  {
  }

  lemma PlanUpTo(t: Tree, container: Path, ms: seq<Move>, k: nat)
    requires IsPlan(t, container, ms) && k <= |ms|
    ensures IsPlan(t, container, ms[..k])
  {
  }

  lemma {:induction false} RunLands(t: Tree, container: Path, ms: seq<Move>)
    requires WellFormed(t) && IsPlan(t, container, ms) && AllFree(t, ms)
    ensures Landed(t, RunMoves(t, ms), ms)
  {
    hide Renamed, CanReplace, WellFormed, IsPlan;
    if ms == [] {
      forall q | q in t ensures LandsIn(t, t, ms, q) && ComesFrom(t, ms, q) {
        assert Landing(ms, q) == q;
      }
    } else {
      var u := RunMoves(t, Front(ms));
      PlanPrefix(t, container, ms);
      RunLands(t, container, Front(ms));
      RunKeepsWellFormed(t, Front(ms));
      forall p | p in t ensures LandsIn(t, Renamed(u, Last(ms)), ms, p) {
        LandOneMore(t, container, u, ms, p);
      }
      forall q | q in Renamed(u, Last(ms)) ensures ComesFrom(t, ms, q) {
        ComeOneMore(t, container, u, ms, q);
      }
    }
  }

  // ----- when a plan goes through -----

  /** An original path still holds its node exactly until a selected item takes it along. */
  lemma StaysIff(t: Tree, container: Path, ms: seq<Move>, q: Path)
    requires WellFormed(t) && IsPlan(t, container, ms) && AllFree(t, ms) && q in t
    ensures q in RunMoves(t, ms) <==> !Selected(ms, q)
    ensures !Selected(ms, q) ==> RunMoves(t, ms)[q] == t[q]
  {
    var u := RunMoves(t, ms);
    RunLands(t, container, ms);
    assert LandsIn(t, u, ms, q);
    if !Selected(ms, q) {
      LandingOfUnselected(ms, q);
    } else if q in u {
      assert ComesFrom(t, ms, q);
      var p :| p in t && Landing(ms, p) == q;
      if Selected(ms, p) {
        var i := LandingOfSelected(ms, p);
        assert IsPlanned(t, container, ms[i]);
        AncestorsAreDirectories(t, q, ms[i].dst);
      } else {
        LandingOfUnselected(ms, p);
      }
    }
  }

  lemma NothingLandsOnLaterTarget(t: Tree, container: Path, ms: seq<Move>, p: Path)
    requires WellFormed(t) && IsPlan(t, container, ms) && ms != [] && p in t
    ensures Landing(Front(ms), p) != Last(ms).dst
  {
    var front := Front(ms);
    assert IsPlanned(t, container, ms[|ms| - 1]);
    if Selected(front, p) {
      var i := LandingOfSelected(front, p);
      assert front[i] == ms[i] && IsPlanned(t, container, ms[i]);
    } else {
      LandingOfUnselected(front, p);
    }
  }

  /** A planned target never becomes occupied. */
  lemma TargetStaysFree(t: Tree, container: Path, ms: seq<Move>)
    requires WellFormed(t) && IsPlan(t, container, ms) && ms != [] && AllFree(t, Front(ms))
    ensures Last(ms).dst !in RunMoves(t, Front(ms))
  {
    RunLands(t, container, Front(ms));
    if Last(ms).dst in RunMoves(t, Front(ms)) {
      assert ComesFrom(t, Front(ms), Last(ms).dst);
      var p :| p in t && Landing(Front(ms), p) == Last(ms).dst;
      NothingLandsOnLaterTarget(t, container, ms, p);
    }
  }

  /** The next rename is possible exactly when its source has not moved already. */
  lemma NextMove(t: Tree, container: Path, ms: seq<Move>)
    requires WellFormed(t) && IsPlan(t, container, ms) && ms != [] && AllFree(t, Front(ms))
    ensures Last(ms).dst !in RunMoves(t, Front(ms))
    ensures CanReplace(RunMoves(t, Front(ms)), Last(ms)) <==> !Selected(Front(ms), Last(ms).src)
  {
    var front, m := Front(ms), Last(ms);
    assert IsPlanned(t, container, ms[|ms| - 1]);
    TargetStaysFree(t, container, ms);
    StaysIff(t, container, front, m.src);
    assert !Selected(front, container) by {
      assert forall i :: 0 <= i < |front| ==> front[i] == ms[i] && IsPlanned(t, container, ms[i]);
    }
    StaysIff(t, container, front, container);
    if m.src <= m.dst {
      PrefixOfParent(m.src, m.dst);
    }
  }

  /** No selected item lies inside an item selected earlier. */
  ghost predicate NoEarlierAncestor(ms: seq<Move>) {
    forall i, j :: 0 <= i < j < |ms| ==> !(ms[i].src <= ms[j].src)
  }

  /** The whole plan goes through exactly when every nested item comes before the item that
      contains it. */
  lemma {:induction false} PlanSucceedsIff(t: Tree, container: Path, ms: seq<Move>)
    requires WellFormed(t) && IsPlan(t, container, ms)
    ensures AllFree(t, ms) <==> NoEarlierAncestor(ms)
  {
    hide CanReplace, RunMoves, WellFormed;
    if ms != [] {
      var front := Front(ms);
      PlanSucceedsIff(t, container, front);
      assert forall i :: 0 <= i < |front| ==> front[i] == ms[i];
      if AllFree(t, front) {
        NextMove(t, container, ms);
      }
    }
  }
}
