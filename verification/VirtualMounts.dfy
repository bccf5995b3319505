/** The lab's mount table: virtual paths, physical paths, and the way between them. */
module VirtualMounts {
  import opened Wrappers
  import opened Sorting
  import opened ScanScopes

  datatype Volume = Volume(id: string, physicalRoot: seq<Name>, virtualRoot: seq<Name>)

  predicate DeeperFirst(x: Volume, y: Volume) {
    |x.virtualRoot| >= |y.virtualRoot|
  }

  /** No two volumes share a mount point. */
  ghost predicate DistinctMounts(volumes: seq<Volume>) {
    forall i, j :: 0 <= i < j < |volumes| ==> volumes[i].virtualRoot != volumes[j].virtualRoot
  }

  /** No volume is stored inside another one. */
  ghost predicate DisjointStorage(volumes: seq<Volume>) {
    forall i, j :: 0 <= i < |volumes| && 0 <= j < |volumes| && i != j ==>
      !(volumes[i].physicalRoot <= volumes[j].physicalRoot)
  }

  // ----- the two directions -----

  /** The first volume, in the given order, that is mounted at or above the path. */
  function MountOf(volumes: seq<Volume>, path: seq<Name>): Option<Volume> {
    if volumes == [] then None
    else if volumes[0].virtualRoot <= path then Some(volumes[0])
    else MountOf(volumes[1..], path)
  }

  /** The first volume, in the given order, whose storage contains the path. */
  function OwnerOf(volumes: seq<Volume>, path: seq<Name>): Option<Volume> {
    if volumes == [] then None
    else if volumes[0].physicalRoot <= path then Some(volumes[0])
    else OwnerOf(volumes[1..], path)
  }

  function ToPhysical(volumes: seq<Volume>, path: seq<Name>): Option<seq<Name>> {
    match MountOf(Sort(volumes, DeeperFirst), path)
    case None => None
    case Some(v) => if v.virtualRoot <= path then Some(v.physicalRoot + path[|v.virtualRoot|..]) else None
  }

  function ToVirtual(volumes: seq<Volume>, path: seq<Name>): Option<seq<Name>> {
    match OwnerOf(volumes, path)
    case None => None
    case Some(v) => if v.physicalRoot <= path then Some(v.virtualRoot + path[|v.physicalRoot|..]) else None
  }

  lemma {:induction false} MountOfSkips(volumes: seq<Volume>, path: seq<Name>, i: nat)
    requires i <= |volumes| && forall j :: 0 <= j < i ==> !(volumes[j].virtualRoot <= path)
    ensures MountOf(volumes, path) == MountOf(volumes[i..], path)
  {
    if i > 0 {
      MountOfSkips(volumes[1..], path, i - 1);
      assert volumes[1..][i - 1..] == volumes[i..];
    }
  }

  lemma {:induction false} OwnerOfSkips(volumes: seq<Volume>, path: seq<Name>, i: nat)
    requires i <= |volumes| && forall j :: 0 <= j < i ==> !(volumes[j].physicalRoot <= path)
    ensures OwnerOf(volumes, path) == OwnerOf(volumes[i..], path)
  {
    if i > 0 {
      OwnerOfSkips(volumes[1..], path, i - 1);
      assert volumes[1..][i - 1..] == volumes[i..];
    }
  }

  method VirtualPath(volumes: seq<Volume>, physical: seq<Name>) returns (r: Option<seq<Name>>)
    ensures r == ToVirtual(volumes, physical)
  {
    for i := 0 to |volumes|
      invariant forall j :: 0 <= j < i ==> !(volumes[j].physicalRoot <= physical)
    {
      var volume := volumes[i];
      if volume.physicalRoot <= physical {
        OwnerOfSkips(volumes, physical, i);
        return Some(volume.virtualRoot + physical[|volume.physicalRoot|..]);
      }
    }
    OwnerOfSkips(volumes, physical, |volumes|);
    return None;
  }

  /** More specific mount points win: the volumes are tried from the deepest mount point up. */
  method PhysicalPath(volumes: seq<Volume>, path: seq<Name>) returns (r: Option<seq<Name>>)
    ensures r == ToPhysical(volumes, path)
  {
    var ordered := Sort(volumes, DeeperFirst);
    for i := 0 to |ordered|
      invariant forall j :: 0 <= j < i ==> !(ordered[j].virtualRoot <= path)
    {
      var volume := ordered[i];
      if volume.virtualRoot <= path {
        MountOfSkips(ordered, path, i);
        return Some(volume.physicalRoot + path[|volume.virtualRoot|..]);
      }
    }
    MountOfSkips(ordered, path, |ordered|);
    return None;
  }

  // ----- the deepest mount -----

  lemma OrderedVolumes(volumes: seq<Volume>)
    ensures var ordered := Sort(volumes, DeeperFirst);
            && Sorted(ordered, DeeperFirst)
            && forall v :: v in ordered <==> v in volumes
  {
    assert IsOrder(DeeperFirst);
    SortSorts(volumes, DeeperFirst);
    forall v ensures v in Sort(volumes, DeeperFirst) <==> v in volumes {
      assert v in multiset(Sort(volumes, DeeperFirst)) <==> v in multiset(volumes);
    }
  }

  lemma {:induction false} FirstOfSortedIsDeepest(ordered: seq<Volume>, path: seq<Name>)
    requires Sorted(ordered, DeeperFirst)
    ensures match MountOf(ordered, path)
            case None => forall v <- ordered :: !(v.virtualRoot <= path)
            case Some(m) =>
              && m in ordered && m.virtualRoot <= path
              && forall v <- ordered :: v.virtualRoot <= path ==> |v.virtualRoot| <= |m.virtualRoot|
  {
    if ordered != [] {
      assert ordered == [ordered[0]] + ordered[1..];
      FirstOfSortedIsDeepest(ordered[1..], path);
      assert forall j :: 0 < j < |ordered| ==> DeeperFirst(ordered[0], ordered[j]);
    }
  }

  /** A virtual path resolves exactly when some volume is mounted at or above it, and then in the
      volume with the deepest such mount point. */
  lemma DeepestMountWins(volumes: seq<Volume>, path: seq<Name>)
    ensures match ToPhysical(volumes, path)
            case None => forall v <- volumes :: !(v.virtualRoot <= path)
            case Some(physical) =>
              exists m <- volumes ::
                && m.virtualRoot <= path && physical == m.physicalRoot + path[|m.virtualRoot|..]
                && MountOf(Sort(volumes, DeeperFirst), path) == Some(m)
                && forall v <- volumes :: v.virtualRoot <= path ==> |v.virtualRoot| <= |m.virtualRoot|
  {
    OrderedVolumes(volumes);
    FirstOfSortedIsDeepest(Sort(volumes, DeeperFirst), path);
  }

  lemma {:induction false} OwnerIsOnlyOne(volumes: seq<Volume>, owner: Volume, path: seq<Name>)
    requires DisjointStorage(volumes) && owner in volumes && owner.physicalRoot <= path
    ensures OwnerOf(volumes, path) == Some(owner)
  {
    if volumes[0].physicalRoot <= path {
      var i :| 0 <= i < |volumes| && volumes[i] == owner;
      var first := volumes[0].physicalRoot;
      assert first == path[..|first|] && owner.physicalRoot == path[..|owner.physicalRoot|];
      assert first <= owner.physicalRoot || owner.physicalRoot <= first;
    } else {
      assert volumes == [volumes[0]] + volumes[1..];
      assert forall i :: 0 <= i < |volumes| - 1 ==> volumes[1..][i] == volumes[i + 1];
      OwnerIsOnlyOne(volumes[1..], owner, path);
    }
  }

  // ----- the way there and back -----

  lemma {:induction false} OwnerExists(volumes: seq<Volume>, v: Volume, path: seq<Name>)
    requires v in volumes && v.physicalRoot <= path
    ensures OwnerOf(volumes, path).Some?
  {
    if !(volumes[0].physicalRoot <= path) {
      assert volumes == [volumes[0]] + volumes[1..];
      OwnerExists(volumes[1..], v, path);
    }
  }

  /** A path that is renamed from below one root to below another, where both roots are on it. */
  lemma Rerooted(from: seq<Name>, to: seq<Name>, rest: seq<Name>, other: seq<Name>, otherTo: seq<Name>)
    requires other <= from + rest
    ensures other <= from ==>
              (otherTo + (from + rest)[|other|..] == to + rest <==> to == otherTo + from[|other|..])
    ensures from <= other ==>
              (otherTo + (from + rest)[|other|..] == to + rest <==> otherTo == to + other[|from|..])
    ensures from <= other || other <= from
  {
    var whole := from + rest;
    assert from == whole[..|from|] && other == whole[..|other|];
    if other <= from {
      var extra := from[|other|..];
      assert whole[|other|..] == extra + rest;
      SameEnd(otherTo + extra, to, rest);
      assert otherTo + (extra + rest) == (otherTo + extra) + rest;
    } else {
      var extra, end := other[|from|..], whole[|other|..];
      assert rest == extra + end;
      SameEnd(otherTo, to + extra, end);
      assert to + rest == (to + extra) + end;
    }
  }

  lemma SameEnd(a: seq<Name>, b: seq<Name>, rest: seq<Name>)
    ensures a + rest == b + rest <==> a == b
  {
    assert a == (a + rest)[..|a|] && b == (b + rest)[..|b|];
    assert |a + rest| == |b + rest| ==> |a| == |b|;
  }

  /** A virtual path that resolves in `m` comes back exactly when the first listed volume whose
      storage contains its file shows the storage of `m` where `m` is mounted. */
  lemma RoundTripIff(volumes: seq<Volume>, path: seq<Name>, m: Volume)
    requires MountOf(Sort(volumes, DeeperFirst), path) == Some(m)
    ensures ToPhysical(volumes, path).Some? && OwnerOf(volumes, ToPhysical(volumes, path).value).Some?
    ensures var physical := ToPhysical(volumes, path).value;
            var o := OwnerOf(volumes, physical).value;
            ToVirtual(volumes, physical) == Some(path) <==>
            o.physicalRoot <= m.physicalRoot && m.virtualRoot == o.virtualRoot + m.physicalRoot[|o.physicalRoot|..]
  {
    DeepestMountWins(volumes, path);
    OrderedVolumes(volumes);
    FirstOfSortedIsDeepest(Sort(volumes, DeeperFirst), path);
    var rest := path[|m.virtualRoot|..];
    assert path == m.virtualRoot + rest;
    var physical := m.physicalRoot + rest;
    OwnerExists(volumes, m, physical);
    OwnerOwns(volumes, physical);
    var o := OwnerOf(volumes, physical).value;
    Rerooted(m.physicalRoot, m.virtualRoot, rest, o.physicalRoot, o.virtualRoot);
    assert ToVirtual(volumes, physical) == Some(path) ==> o.virtualRoot <= path;
  }

  /** If no volume is stored inside another one, every virtual path that resolves comes back. */
  lemma RoundTrip(volumes: seq<Volume>, path: seq<Name>)
    requires DisjointStorage(volumes) && ToPhysical(volumes, path).Some?
    ensures ToVirtual(volumes, ToPhysical(volumes, path).value) == Some(path)
  {
    DeepestMountWins(volumes, path);
    var m := MountOf(Sort(volumes, DeeperFirst), path).value;
    RoundTripIff(volumes, path, m);
    OwnerIsOnlyOne(volumes, m, ToPhysical(volumes, path).value);
  }

  /** A physical path that `owner` contains comes back exactly when the volume in which its virtual
      path resolves stores what is at that mount point inside the owner, at the same place. */
  lemma ReverseTripIff(volumes: seq<Volume>, physical: seq<Name>, owner: Volume)
    requires OwnerOf(volumes, physical) == Some(owner)
    ensures ToVirtual(volumes, physical).Some?
    ensures MountOf(Sort(volumes, DeeperFirst), ToVirtual(volumes, physical).value).Some?
    ensures var path := ToVirtual(volumes, physical).value;
            var m := MountOf(Sort(volumes, DeeperFirst), path).value;
            && owner.virtualRoot <= m.virtualRoot
            && (ToPhysical(volumes, path) == Some(physical) <==>
                m.physicalRoot == owner.physicalRoot + m.virtualRoot[|owner.virtualRoot|..])
  {
    OwnerOwns(volumes, physical);
    var path := ToVirtual(volumes, physical).value;
    var rest := physical[|owner.physicalRoot|..];
    assert physical == owner.physicalRoot + rest && path == owner.virtualRoot + rest;
    DeepestMountWins(volumes, path);
    OrderedVolumes(volumes);
    FirstOfSortedIsDeepest(Sort(volumes, DeeperFirst), path);
    var m := MountOf(Sort(volumes, DeeperFirst), path).value;
    Rerooted(owner.virtualRoot, owner.physicalRoot, rest, m.virtualRoot, m.physicalRoot);
  }

  /** If no volume is stored inside another one and mount points differ, what does not come back is
      exactly what a mount between the owner's mount point and the file hides. */
  lemma ReverseTripUnlessHidden(volumes: seq<Volume>, physical: seq<Name>)
    requires DisjointStorage(volumes) && DistinctMounts(volumes) && OwnerOf(volumes, physical).Some?
    ensures ToVirtual(volumes, physical).Some?
    ensures var owner, path := OwnerOf(volumes, physical).value, ToVirtual(volumes, physical).value;
            ToPhysical(volumes, path) == Some(physical) <==>
            !exists v <- volumes :: owner.virtualRoot < v.virtualRoot <= path
  {
    var owner := OwnerOf(volumes, physical).value;
    OwnerOwns(volumes, physical);
    ReverseTripIff(volumes, physical, owner);
    var path := ToVirtual(volumes, physical).value;
    DeepestMountWins(volumes, path);
    var m := MountOf(Sort(volumes, DeeperFirst), path).value;
    if m.virtualRoot == owner.virtualRoot {
      SameMount(volumes, m, owner);
    } else if ToPhysical(volumes, path) == Some(physical) {
      assert m.physicalRoot <= physical;
      OwnerIsOnlyOne(volumes, m, physical);
    }
  }

  lemma {:induction false} OwnerOwns(volumes: seq<Volume>, path: seq<Name>)
    ensures OwnerOf(volumes, path).Some? ==>
              OwnerOf(volumes, path).value in volumes && OwnerOf(volumes, path).value.physicalRoot <= path
  {
    if volumes != [] {
      OwnerOwns(volumes[1..], path);
      assert volumes == [volumes[0]] + volumes[1..];
    }
  }

  lemma SameMount(volumes: seq<Volume>, a: Volume, b: Volume)
    requires DistinctMounts(volumes) && a in volumes && b in volumes && a.virtualRoot == b.virtualRoot
    ensures a == b
  {
  }

  /** Storage of one volume inside that of another breaks the round trip. */
  lemma NestedStorageBreaksRoundTrip()
    ensures exists volumes: seq<Volume>, path: seq<Name> ::
              && DistinctMounts(volumes) && ToPhysical(volumes, path).Some?
              && ToVirtual(volumes, ToPhysical(volumes, path).value) != Some(path)
  {
    var outer := Volume("a", ["a"], ["x"]);
    var inner := Volume("a/b", ["a", "b"], ["y"]);
    var volumes, path: seq<Name> := [outer, inner], ["y"];
    OrderedVolumes(volumes);
    DeepestMountWins(volumes, path);
    assert inner in volumes && inner.virtualRoot <= path;
    assert !(outer.virtualRoot <= path) by {
      assert outer.virtualRoot[0] != path[0];
    }
    var physical := ToPhysical(volumes, path).value;
    assert physical == ["a", "b"];
    assert outer.physicalRoot <= physical;
    assert OwnerOf(volumes, physical) == Some(outer);
    assert ToVirtual(volumes, physical).value[0] == "x";
  }
}
