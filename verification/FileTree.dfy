/** A filesystem as a map from paths to nodes, and the algebra of renames on it.
    A path is the sequence of its component names; a rename rewrites the prefix of a whole subtree. */
module FileTree {

  type Name = string
  type Path = seq<Name>

  /** `stamp` stands for the identity and metadata that a stat call reports. */
  datatype Node = Dir(stamp: nat) | File(stamp: nat, bytes: string) | Link(stamp: nat)

  type Tree = map<Path, Node>

  datatype Move = Move(src: Path, dst: Path)

  function Parent(p: Path): Path
    requires p != []
  {
    p[..|p| - 1]
  }

  lemma PrefixOfParent(a: Path, p: Path)
    requires a <= p && a != p
    ensures a <= Parent(p)
  {
  }

  predicate IsDirectory(t: Tree, p: Path) {
    p in t && t[p].Dir?
  }

  ghost predicate WellFormed(t: Tree) {
    && IsDirectory(t, [])
    && forall p {:trigger Parent(p)} :: p in t && p != [] ==> IsDirectory(t, Parent(p))
  }

  /** Every strict ancestor of an existing path is an existing directory. */
  lemma {:induction false} AncestorsAreDirectories(t: Tree, p: Path, a: Path)
    requires WellFormed(t) && p in t && a <= p
    ensures a in t
    ensures a != p ==> t[a].Dir?
    decreases |p|
  {
    if a != p {
      assert IsDirectory(t, Parent(p));
      AncestorsAreDirectories(t, Parent(p), a);
    }
  }

  /** Nothing exists below a path that does not exist. */
  lemma NothingBelowAbsent(t: Tree, a: Path)
    requires WellFormed(t) && a !in t
    ensures forall p :: p in t ==> !(a <= p)
  {
    forall p | p in t ensures !(a <= p) {
      if a <= p {
        AncestorsAreDirectories(t, p, a);
      }
    }
  }

  // ----- one rename -----

  predicate IsEmptyDirectory(t: Tree, p: Path) {
    IsDirectory(t, p) && forall q {:trigger Parent(q)} :: q in t && q != [] ==> Parent(q) != p
  }

  /** When the operating system can carry out `os.replace(src, dst)`. */
  predicate CanReplace(t: Tree, m: Move) {
    && m.src in t && m.src != [] && m.dst != []
    && IsDirectory(t, Parent(m.dst))
    && !(m.src <= m.dst)
    && (m.dst in t ==>
          if t[m.src].Dir? then IsEmptyDirectory(t, m.dst) else !t[m.dst].Dir?)
  }

  function Relocate(m: Move, p: Path): Path {
    if m.src <= p then m.dst + p[|m.src|..] else p
  }

  /** The path that a rename to `dst` brings to `q`. */
  function Origin(m: Move, q: Path): Path
    requires m.dst <= q
  {
    m.src + q[|m.dst|..]
  }

  /** The path whose node is found at `q` after the rename. */
  function Before(m: Move, q: Path): Path {
    if m.dst <= q then Origin(m, q) else q
  }

  ghost predicate Occupied(t: Tree, m: Move, q: Path) {
    Before(m, q) in t && (m.dst <= q || !(m.src <= q))
  }

  /** The paths that exist after the rename. */
  function RenamedKeys(t: Tree, m: Move): (s: set<Path>)
    ensures forall q :: q in s <==> Occupied(t, m, q)
  {
    var kept := set p | p in t && !(m.src <= p) && !(m.dst <= p);
    var arriving := set p | p in t && m.src <= p :: m.dst + p[|m.src|..];
    assert forall q :: q in kept + arriving <==> Occupied(t, m, q) by {
      forall q | q in arriving ensures Occupied(t, m, q) {
        var p :| p in t && m.src <= p && q == m.dst + p[|m.src|..];
        assert q[|m.dst|..] == p[|m.src|..];
        assert Origin(m, q) == p;
      }
      forall q | m.dst <= q && Origin(m, q) in t ensures q in arriving {
        var p := Origin(m, q);
        assert p[|m.src|..] == q[|m.dst|..];
        assert q == m.dst + p[|m.src|..];
      }
    }
    kept + arriving
  }

  /** The tree after `os.replace(src, dst)`: whatever was at or below `dst` is gone,
      and the whole subtree of `src` now hangs from `dst`. */
  function Renamed(t: Tree, m: Move): Tree {
    map q | q in RenamedKeys(t, m) :: t[Before(m, q)]
  }

  lemma RenamedKeepsWellFormed(t: Tree, m: Move)
    requires WellFormed(t) && CanReplace(t, m)
    ensures WellFormed(Renamed(t, m))
  {
    var u := Renamed(t, m);
    forall p | p in u && p != []
      ensures IsDirectory(u, Parent(p))
    {
      var a := Parent(p);
      if m.dst <= p {
        if p != m.dst {
          assert m.dst <= a;
          assert Parent(Origin(m, p)) == Origin(m, a);
        }
      } else {
        assert IsDirectory(t, a);
        assert a <= p;
      }
    }
  }

  /** Renaming to a free name and back is the identity, and the way back is open. */
  lemma RenameInverse(t: Tree, m: Move)
    requires WellFormed(t) && CanReplace(t, m) && m.dst !in t
    ensures WellFormed(Renamed(t, m))
    ensures CanReplace(Renamed(t, m), Move(m.dst, m.src)) && m.src !in Renamed(t, m)
    ensures Renamed(Renamed(t, m), Move(m.dst, m.src)) == t
  {
    RenamedKeepsWellFormed(t, m);
    NothingBelowAbsent(t, m.dst);
    WayBackIsOpen(t, m);
    BackEverywhere(t, Renamed(t, m), Renamed(Renamed(t, m), Move(m.dst, m.src)), m);
  }

  lemma BackEverywhere(t: Tree, u: Tree, v: Tree, m: Move)
    requires u == Renamed(t, m) && v == Renamed(u, Move(m.dst, m.src))
    requires !(m.src <= m.dst) && !(m.dst <= m.src)
    requires forall p :: p in t ==> !(m.dst <= p)
    ensures v == t
  {
    hide Renamed;
    forall q
      ensures q in v <==> q in t
      ensures q in t ==> v[q] == t[q]
    {
      BackAt(t, u, m, q);
    }
  }

  lemma BackAt(t: Tree, u: Tree, m: Move, q: Path)
    requires u == Renamed(t, m) && !(m.src <= m.dst) && !(m.dst <= m.src)
    requires forall p :: p in t ==> !(m.dst <= p)
    ensures q in Renamed(u, Move(m.dst, m.src)) <==> q in t
    ensures q in t ==> Renamed(u, Move(m.dst, m.src))[q] == t[q]
  {
    if m.src <= q {
      assert Origin(m, Origin(Move(m.dst, m.src), q)) == q;
    }
  }

  lemma WayBackIsOpen(t: Tree, m: Move)
    requires WellFormed(t) && CanReplace(t, m) && m.dst !in t
    ensures CanReplace(Renamed(t, m), Move(m.dst, m.src)) && m.src !in Renamed(t, m)
  {
    NothingBelowAbsent(t, m.dst);
    assert Origin(m, m.dst) == m.src;
    assert IsDirectory(t, Parent(m.src));
    assert Parent(m.src) <= m.src && |Parent(m.src)| < |m.src|;
  }

  // ----- leaves -----

  lemma AddingLeafKeepsWellFormed(t: Tree, p: Path, n: Node)
    requires WellFormed(t) && p != [] && p !in t && IsDirectory(t, Parent(p))
    ensures WellFormed(t[p := n])
  {
  }

  lemma RemovingLeafKeepsWellFormed(t: Tree, p: Path)
    requires WellFormed(t) && p != [] && p in t
    requires !t[p].Dir? || IsEmptyDirectory(t, p)
    ensures WellFormed(t - {p})
  {
  }
}
