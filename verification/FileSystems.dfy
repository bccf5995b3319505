/** The operating system's file operations. Each one may refuse for reasons of its own;
    the ghost field `faults` counts the refusals that the state of the tree does not explain. */
module FileSystems {
  import opened FileTree

  datatype MoveOutcome = Moved | CrossDevice | MoveRefused

  datatype WriteOutcome = Written | AlreadyExists | WriteRefused | PartlyWritten

  /** How often an operation was refused that the state of the tree allowed, and how often a file
      was created whose content could not be written. */
  datatype Faults = Faults(renames: nat, removals: nat, makes: nat, writes: nat, partialWrites: nat)

  class FileSystem {
    var tree: Tree
    ghost var faults: Faults

    ghost predicate Valid()
      reads this
    {
      WellFormed(tree)
    }

    method Replace(m: Move) returns (outcome: MoveOutcome)
      requires Valid()
      modifies this
      ensures Valid()
      ensures outcome.Moved? ==> CanReplace(old(tree), m) && tree == Renamed(old(tree), m)
      ensures !outcome.Moved? ==> tree == old(tree)
      ensures faults == old(faults).(renames :=
                old(faults.renames) + if CanReplace(old(tree), m) && !outcome.Moved? then 1 else 0)
      ensures outcome.CrossDevice? ==> CanReplace(old(tree), m)
    {
      if !CanReplace(tree, m) {
        return MoveRefused;
      }
      outcome := *;
      if outcome.Moved? {
        RenamedKeepsWellFormed(tree, m);
        tree := Renamed(tree, m);
      } else {
        faults := faults.(renames := faults.renames + 1);
      }
    }

    method MakeDirectory(p: Path) returns (made: bool)
      requires Valid()
      modifies this
      ensures Valid()
      ensures made ==> p !in old(tree) && p != [] && IsDirectory(old(tree), Parent(p))
      ensures faults == old(faults).(makes := old(faults.makes) +
                if p !in old(tree) && p != [] && IsDirectory(old(tree), Parent(p)) && !made then 1 else 0)
      ensures made ==> IsDirectory(tree, p) && tree == old(tree)[p := tree[p]]
      ensures !made ==> tree == old(tree)
    {
      if p == [] || p in tree || !IsDirectory(tree, Parent(p)) {
        return false;
      }
      var stamp: nat := *;
      made := *;
      if made {
        AddingLeafKeepsWellFormed(tree, p, Dir(stamp));
        tree := tree[p := Dir(stamp)];
      } else {
        faults := faults.(makes := faults.makes + 1);
      }
    }

    method RemoveDirectory(p: Path) returns (removed: bool)
      requires Valid()
      modifies this
      ensures Valid()
      ensures removed ==> p != [] && IsEmptyDirectory(old(tree), p) && tree == old(tree) - {p}
      ensures !removed ==> tree == old(tree)
      ensures faults == old(faults).(removals := old(faults.removals) +
                if p != [] && IsEmptyDirectory(old(tree), p) && !removed then 1 else 0)
    {
      if p == [] || !IsEmptyDirectory(tree, p) {
        return false;
      }
      removed := *;
      if removed {
        RemovingLeafKeepsWellFormed(tree, p);
        tree := tree - {p};
      } else {
        faults := faults.(removals := faults.removals + 1);
      }
    }

    /** `unlink(missing_ok=True)`. */
    method Unlink(p: Path) returns (done: bool)
      requires Valid()
      modifies this
      ensures Valid()
      ensures done ==> tree == old(tree) - {p}
      ensures !done ==> tree == old(tree)
      ensures faults == old(faults).(removals := old(faults.removals) +
                if (p in old(tree) ==> !old(tree)[p].Dir?) && !done then 1 else 0)
    {
      if p in tree && tree[p].Dir? {
        return false;
      }
      done := *;
      if !done {
        faults := faults.(removals := faults.removals + 1);
      } else if p in tree {
        RemovingLeafKeepsWellFormed(tree, p);
        tree := tree - {p};
      }
    }

    /** Open for exclusive creation, then write. The write may fail after the file was created. */
    method CreateFile(p: Path, bytes: string) returns (outcome: WriteOutcome)
      requires Valid()
      modifies this
      ensures Valid()
      ensures outcome.AlreadyExists? ==> p in old(tree)
      ensures outcome.Written? || outcome.PartlyWritten? ==>
                p !in old(tree) && p != [] && IsDirectory(old(tree), Parent(p))
                && p in tree && tree[p].File? && tree == old(tree)[p := tree[p]]
      ensures outcome.Written? ==> tree[p].bytes == bytes
      ensures outcome.PartlyWritten? ==> tree[p].bytes < bytes
      ensures outcome.AlreadyExists? || outcome.WriteRefused? ==> tree == old(tree)
      ensures faults == old(faults).(
                partialWrites := old(faults.partialWrites) + (if outcome.PartlyWritten? then 1 else 0),
                writes := old(faults.writes) +
                  if p !in old(tree) && p != [] && IsDirectory(old(tree), Parent(p)) && outcome.WriteRefused?
                  then 1 else 0)
    {
      if p in tree {
        return AlreadyExists;
      }
      if p == [] || !IsDirectory(tree, Parent(p)) {
        return WriteRefused;
      }
      var granted: bool, stamp: nat, written: nat := *, *, *;
      if !granted {
        faults := faults.(writes := faults.writes + 1);
        return WriteRefused;
      }
      var content := if written < |bytes| then bytes[..written] else bytes;
      AddingLeafKeepsWellFormed(tree, p, File(stamp, content));
      tree := tree[p := File(stamp, content)];
      if written < |bytes| {
        faults := faults.(partialWrites := faults.partialWrites + 1);
        return PartlyWritten;
      }
      return Written;
    }
  }
}
