/**
 What the search for the directory of a path finds when a name on the way is missing
 (library/lite-fs/lite-fs.cxx:160-176).
 */
module LiteFsLookup {
  import opened Options
  import opened Strings
  import opened LiteFsFormat
  import opened LiteFsWriter
  import opened LiteFsTree
  import opened LiteFsReader
  import opened LiteFsRoundTrip
  import opened LiteFsPaths

  // The directory that the names lead to if every one of them is there.
  function WalkAll(disk: Disk, t: Table, names: seq<string>, parentId: nat): Option<nat>
    decreases |names|
  {
    if names == [] then Some(parentId)
    else
      match FindChild(disk, t, parentId, names[0], false, 0)
      case None => None
      case Some(j) => WalkAll(disk, t, names[1..], ReadDescriptor(disk, t, j).value.id)
  }

  // The names that are found on the way.
  function Present(disk: Disk, t: Table, names: seq<string>, parentId: nat): seq<string>
    decreases |names|
  {
    if names == [] then []
    else
      match FindChild(disk, t, parentId, names[0], false, 0)
      case None => Present(disk, t, names[1..], parentId)
      case Some(j) => [names[0]] + Present(disk, t, names[1..], ReadDescriptor(disk, t, j).value.id)
  }

  lemma {:induction false} PresentIsAllIff(disk: Disk, t: Table, names: seq<string>, parentId: nat)
    ensures |Present(disk, t, names, parentId)| <= |names|
    ensures WalkAll(disk, t, names, parentId).Some? <==> |Present(disk, t, names, parentId)| == |names|
    ensures WalkAll(disk, t, names, parentId).Some? ==> Present(disk, t, names, parentId) == names
    decreases |names|
  {
    hide FindChild;
    if names != [] {
      assert names == [names[0]] + names[1..];
      match FindChild(disk, t, parentId, names[0], false, 0)
      case None => PresentIsAllIff(disk, t, names[1..], parentId);
      case Some(j) => PresentIsAllIff(disk, t, names[1..], ReadDescriptor(disk, t, j).value.id);
    }
  }

  // Once a name has been found, the search goes where the names that are there lead.
  lemma {:induction false} SearchSkips(disk: Disk, t: Table, names: seq<string>, parentId: nat)
    ensures FindParent(disk, t, names, parentId, true).Some?
    ensures WalkAll(disk, t, Present(disk, t, names, parentId), parentId) == FindParent(disk, t, names, parentId, true)
    decreases |names|
  {
    hide FindChild;
    if names != [] {
      match FindChild(disk, t, parentId, names[0], false, 0)
      case None => SearchSkips(disk, t, names[1..], parentId);
      case Some(j) =>
        var id := ReadDescriptor(disk, t, j).value.id;
        SearchSkips(disk, t, names[1..], id);
        assert ([names[0]] + Present(disk, t, names[1..], id))[1..] == Present(disk, t, names[1..], id);
    }
  }

  // So it fails exactly if the first name is missing, and otherwise passes over all that are missing.
  lemma SearchIgnoresMissing(disk: Disk, t: Table, names: seq<string>)
    ensures FindParent(disk, t, names, 0, false).None?
      <==> names != [] && FindChild(disk, t, 0, names[0], false, 0).None?
    ensures FindParent(disk, t, names, 0, false).Some? ==>
      FindParent(disk, t, names, 0, false) == WalkAll(disk, t, Present(disk, t, names, 0), 0)
    ensures WalkAll(disk, t, names, 0).Some? ==> FindParent(disk, t, names, 0, false) == WalkAll(disk, t, names, 0)
  {
    hide FindChild;
    SearchSkips(disk, t, names, 0);
    PresentIsAllIff(disk, t, names, 0);
  }

  // ---- missing names behind a chain of objects ----

  lemma {:induction false} SkipOne(disk: Disk, t: Table, names: seq<string>, missing: string, rest: seq<string>,
                                   parentId: nat, found: bool)
    requires names != [] || found
    requires
      var p := FindParent(disk, t, names, parentId, found);
      p.Some? ==> FindChild(disk, t, p.value, missing, false, 0).None?
    ensures FindParent(disk, t, names + [missing] + rest, parentId, found)
      == FindParent(disk, t, names + rest, parentId, found)
    decreases |names|
  {
    hide FindChild;
    if names == [] {
      assert ([] + [missing] + rest)[1..] == rest && [] + rest == rest;
    } else {
      assert (names + [missing] + rest)[1..] == names[1..] + [missing] + rest;
      assert (names + rest)[1..] == names[1..] + rest;
      match FindChild(disk, t, parentId, names[0], false, 0)
      case Some(j) => SkipOne(disk, t, names[1..], missing, rest, ReadDescriptor(disk, t, j).value.id, true);
      case None =>
        if found {
          SkipOne(disk, t, names[1..], missing, rest, parentId, true);
        }
    }
  }

  // A name that is not in a directory is passed over behind it, wherever the directory is.
  lemma MissingNameIsPassedOver(disk: Disk, t: Table, objects: seq<FileSystemObject>, chain: seq<nat>,
                                missing: string, names: seq<string>, directoryOnly: bool)
    requires Holds(disk, t, objects) && IsChain(objects, chain)
    requires forall i :: 0 <= i < |chain| ==> NoLookalike(objects, chain[i])
    requires !HasEntry(objects, objects[chain[|chain| - 1]].id, missing)
    requires names != []
    ensures LocateObject(disk, t, NamesIn(objects, chain) + [missing] + names, directoryOnly)
      == LocateObject(disk, t, NamesIn(objects, chain) + names, directoryOnly)
  {
    hide CString, FindParent, FindChild, IsChain, NoLookalike, Holds, HasEntry;
    LastInBounds(objects, chain);
    var path, n := NamesIn(objects, chain), |names|;
    ChainLeadsTo(disk, t, objects, chain);
    MissingIsNotFound(disk, t, objects, objects[chain[|chain| - 1]].id, missing);
    SkipOne(disk, t, path, missing, names[..n - 1], 0, false);
    var long, short := path + [missing] + names, path + names;
    assert long[..|long| - 1] == path + [missing] + names[..n - 1] && long[|long| - 1] == names[n - 1];
    assert short[..|short| - 1] == path + names[..n - 1] && short[|short| - 1] == names[n - 1];
  }

  // Directory `id` has an entry that passes for that name.
  ghost predicate HasEntry(objects: seq<FileSystemObject>, id: nat, name: string) {
    exists j :: 0 <= j < |objects| && objects[j].parentId == id && SameName(name, objects[j].name)
  }

  lemma MissingIsNotFound(disk: Disk, t: Table, objects: seq<FileSystemObject>, id: nat, missing: string)
    requires Holds(disk, t, objects)
    ensures FindChild(disk, t, id, missing, false, 0).None? <==> !HasEntry(objects, id, missing)
  {
    hide CString;
    forall j | 0 <= j < |objects|
      ensures Matches(ReadDescriptor(disk, t, j), id, missing, false)
        <==> objects[j].parentId == id && SameName(missing, objects[j].name)
    {
      assert Entry(disk, t, objects, j);
    }
  }

  lemma ChainLeadsTo(disk: Disk, t: Table, objects: seq<FileSystemObject>, chain: seq<nat>)
    requires Holds(disk, t, objects) && IsChain(objects, chain)
    requires forall i :: 0 <= i < |chain| ==> NoLookalike(objects, chain[i])
    ensures FindParent(disk, t, NamesIn(objects, chain), 0, false) == Some(objects[chain[|chain| - 1]].id)
  {
    hide CString, FindParent, FindChild, NoLookalike, Entry;
    ChainResolves(disk, t, objects, chain);
    var names := NamesIn(objects, chain);
    var n := |names|;
    assert names == names[..n - 1] + [names[n - 1]];
    FindParentSnoc(disk, t, names[..n - 1], names[n - 1], 0, false);
    DescriptorId(disk, t, objects, chain[n - 1]);
  }

  lemma DescriptorId(disk: Disk, t: Table, objects: seq<FileSystemObject>, k: nat)
    requires Holds(disk, t, objects) && k < |objects|
    ensures ReadDescriptor(disk, t, k).Some? && ReadDescriptor(disk, t, k).value.id == objects[k].id
  {
    hide CString;
    assert Entry(disk, t, objects, k);
  }

  // ---- which paths are safe to look up ----

  // What a path leads to if every name in it has to be there.
  function LocateExactly(disk: Disk, names: seq<string>, directoryOnly: bool): Location {
    match GetFsHeader(disk)
    case None => Missing
    case Some(h) =>
      if names == [] then Root(ReadablePartitions(disk, h, 0))
      else
        match FindPartition(disk, h, names[0], 0)
        case None => Missing
        case Some(i) =>
          match TableOf(disk, h, i)
          case None => Missing
          case Some(t) =>
            if |names| == 1 then Top(i, t)
            else
              match ExactObject(disk, t, names[1..], directoryOnly)
              case None => Missing
              case Some(j) => Object(i, t, j)
  }

  function ExactObject(disk: Disk, t: Table, names: seq<string>, directoryOnly: bool): Option<nat>
    requires names != []
  {
    match WalkAll(disk, t, names[..|names| - 1], 0)
    case None => None
    case Some(parentId) => FindChild(disk, t, parentId, names[|names| - 1], directoryOnly, 0)
  }

  // The search never misses what is there; it only finds too much.
  lemma ExactIsLocated(disk: Disk, names: seq<string>, directoryOnly: bool)
    ensures
      var exact := LocateExactly(disk, names, directoryOnly);
      exact != Missing ==> Locate(disk, names, directoryOnly) == exact
    ensures |names| <= 3 ==> Locate(disk, names, directoryOnly) == LocateExactly(disk, names, directoryOnly)
  {
    hide FindPartition, FindParent, FindChild, WalkAll, Present;
    forall t: Table | |names| >= 2
      ensures
        var exact := ExactObject(disk, t, names[1..], directoryOnly);
        exact.Some? || |names| <= 3 ==> LocateObject(disk, t, names[1..], directoryOnly) == exact
    {
      ExactObjectIsFound(disk, t, names[1..], directoryOnly);
    }
  }

  lemma ExactObjectIsFound(disk: Disk, t: Table, names: seq<string>, directoryOnly: bool)
    requires names != []
    ensures
      var exact := ExactObject(disk, t, names, directoryOnly);
      exact.Some? || |names| <= 2 ==> LocateObject(disk, t, names, directoryOnly) == exact
  {
    hide FindChild, FindParent, WalkAll, Present;
    var path := names[..|names| - 1];
    SearchIgnoresMissing(disk, t, path);
    if |names| <= 2 {
      ShortSearch(disk, t, path);
    }
  }

  lemma ShortSearch(disk: Disk, t: Table, names: seq<string>)
    requires |names| <= 1
    ensures FindParent(disk, t, names, 0, false) == WalkAll(disk, t, names, 0)
  {
  }

  // ---- the smallest tree on which a longer path is not safe ----

  // A directory "ab" with an empty directory "cd" in it.
  function SmallTree(): Entries {
    Directory("ab", Directory("cd", Nil, Nil), Nil)
  }

  function SmallObjects(): seq<FileSystemObject> {
    [FileSystemObject(1, 0, "ab", [], 1, true), FileSystemObject(2, 1, "cd", [], 0, true)]
  }

  function SmallImage(): seq<Sector> {
    [HeaderSector(PartitionHeader(PartitionName("pq"), 2, 0, 0)),
     DescriptorSector(DescriptorFor(SmallObjects(), 0, 0)), DescriptorSector(DescriptorFor(SmallObjects(), 1, 0)),
     OtherSector]
  }

  function SmallDisk(): Disk {
    Disk(
      [OtherSector, FsHeaderSector(FsHeader("LITEFS", 1, [1] + seq(61, _ => 0)))] + SmallImage(),
      (s: Sector) => if s.FsHeaderSector? then s.fsHeader else FsHeader("", 0, []),
      (s: Sector) => if s.HeaderSector? then s.header else PartitionHeader("", 0, 0, 0),
      (s: Sector) => if s.DescriptorSector? then s.descriptor else ObjectDescriptor("", 0, 0, FileType, 0, 0, 0, 0),
      (s: Sector) => if s.ChunkSector? && s.chunk.Fits() then s.chunk else DataChunk(seq(504, _ => 0), 0))
  }

  lemma SmallWalk()
    ensures Walk(SmallTree(), 1, 0) == SmallObjects()
  {
    var inner := Directory("cd", Nil, Nil);
    var cd := FileSystemObject(2, 1, "cd", [], 0, true);
    assert Walk(Nil, 3, 2) == [] && Walk(Nil, 3, 1) == [] && Walk(Nil, 3, 0) == [];
    assert Walk(inner, 2, 1) == [cd];
    assert ChildCount([cd], 1) == 1;
  }

  lemma SmallIsFaithful()
    ensures SmallDisk().Faithful()
  {
    hide PartitionName, DescriptorFor;
  }

  lemma SmallIsPartition()
    ensures IsPartition(SmallImage(), "pq", SmallObjects(), 0) && |SmallImage()| == 4
  {
    hide PartitionName, DescriptorFor, TakenSectors;
    var objects := SmallObjects();
    assert ChunkStart(objects, 0) == 4 && ChunkStart(objects, 1) == 4 && ChunkStart(objects, 2) == 4;
  }

  // The host writes the small tree like this.
  lemma SmallIsMounted()
    ensures SmallObjects() == Walk(SmallTree(), 1, 0)
    ensures Mounted(SmallDisk(), 0, "pq", SmallObjects(), 0, SmallImage()) && Base(SmallDisk(), 0) == 2
  {
    hide Disk.Faithful, IsPartition, SmallImage, Walk;
    var disk := SmallDisk();
    SmallWalk();
    SmallIsFaithful();
    SmallIsPartition();
    assert disk.sectors[1] == FsHeaderSector(FsHeader("LITEFS", 1, [1] + seq(61, _ => 0)));
    SmallIsPlaced();
    assert FieldsFit("pq", SmallObjects(), 0);
  }

  lemma SmallIsPlaced()
    ensures Placed(SmallDisk(), 2, SmallImage())
  {
    hide SmallImage;
  }

  lemma SmallPartitionIsFound()
    ensures GetFsHeader(SmallDisk()).Some? && PartitionLba(GetFsHeader(SmallDisk()).value, 0).Some?
    ensures FindPartition(SmallDisk(), GetFsHeader(SmallDisk()).value, "pq", 0) == Some(0)
    ensures TableOf(SmallDisk(), GetFsHeader(SmallDisk()).value, 0) == Some(Table(3, 2))
    ensures Holds(SmallDisk(), Table(3, 2), SmallObjects())
  {
    hide Mounted, SmallImage, SmallDisk, Holds, GetFsHeader, TableOf, Base;
    var disk, objects := SmallDisk(), SmallObjects();
    SmallIsMounted();
    FaithfulWhenMounted(disk, 0, "pq", objects, 0, SmallImage());
    MountedTable(disk, 0, "pq", objects, 0, SmallImage());
    MountedHolds(disk, 0, "pq", objects, 0, SmallImage());
    PartitionFoundIff(disk, GetFsHeader(disk).value, 0, "pq", 0);
  }

  function Absent(n: nat): seq<string> {
    seq(n, _ => "zz")
  }

  // However many directories are missing below "ab", the search ends in it.
  lemma SmallSearch(disk: Disk, t: Table, n: nat)
    requires Holds(disk, t, SmallObjects()) && n > 0
    ensures FindParent(disk, t, ["ab"] + Absent(n), 0, false) == Some(1)
    ensures WalkAll(disk, t, ["ab"] + Absent(n), 0).None?
    ensures FindChild(disk, t, 1, "cd", false, 0) == Some(1)
  {
    hide CString, FindChild;
    var objects := SmallObjects();
    FoundIffNoLookalike(disk, t, objects, 0);
    FoundIffNoLookalike(disk, t, objects, 1);
    DescriptorId(disk, t, objects, 0);
    MissingIsNotFound(disk, t, objects, 1, "zz");
    assert (["ab"] + Absent(n))[1..] == Absent(n);
    AbsentIsSkipped(disk, t, n);
  }

  lemma {:induction false} AbsentIsSkipped(disk: Disk, t: Table, n: nat)
    requires FindChild(disk, t, 1, "zz", false, 0).None?
    ensures FindParent(disk, t, Absent(n), 1, true) == Some(1)
    ensures n > 0 ==> WalkAll(disk, t, Absent(n), 1).None?
    decreases n
  {
    hide FindChild;
    if n > 0 {
      assert Absent(n)[1..] == Absent(n - 1);
      AbsentIsSkipped(disk, t, n - 1);
    }
  }

  ghost predicate SearchIsExact(disk: Disk, t: Table, names: seq<string>) {
    FindParent(disk, t, names, 0, false) == WalkAll(disk, t, names, 0)
  }

  // The search for a directory is right on every disk exactly for paths of at most one directory.
  lemma SearchIsExactIff(n: nat)
    ensures (forall disk: Disk, t, names :: disk.Faithful() && |names| == n ==> SearchIsExact(disk, t, names))
      <==> n <= 1
  {
    hide Disk.Faithful, SearchIsExact, SmallDisk;
    if n <= 1 {
      forall disk: Disk, t, names | disk.Faithful() && |names| == n ensures SearchIsExact(disk, t, names) {
        OneNameIsExact(disk, t, names);
      }
    } else {
      SmallIsFaithful();
      LongSearch(n - 1);
    }
  }

  lemma OneNameIsExact(disk: Disk, t: Table, names: seq<string>)
    requires |names| <= 1
    ensures SearchIsExact(disk, t, names)
  {
    hide FindParent, WalkAll;
    ShortSearch(disk, t, names);
  }

  lemma LongSearch(n: nat)
    requires n > 0
    ensures |["ab"] + Absent(n)| == n + 1 && !SearchIsExact(SmallDisk(), Table(3, 2), ["ab"] + Absent(n))
  {
    hide Holds, FindParent, WalkAll, FindChild, SmallDisk, GetFsHeader, TableOf, FindPartition;
    SmallPartitionIsFound();
    SmallSearch(SmallDisk(), Table(3, 2), n);
  }

  // A path that is found although `n` of its directories are missing.
  function LongNames(n: nat): seq<string> {
    ["pq", "ab"] + Absent(n) + ["cd"]
  }

  lemma LongPath(n: nat)
    ensures NamesOf(Join(LongNames(n), '/')) == LongNames(n) && |LongNames(n)| == n + 3
  {
    hide Parts, Join, Leading, Texts;
    assert AreNames(LongNames(n), '/');
    SplitJoin(LongNames(n), '/');
  }

  lemma LongPathIsFound(n: nat)
    requires n > 0
    ensures Locate(SmallDisk(), LongNames(n), false).Object?
    ensures LocateExactly(SmallDisk(), LongNames(n), false) == Missing
  {
    hide LocateObject, ExactObject, SmallDisk, GetFsHeader, TableOf, FindPartition, Absent, Holds, Locate,
      LocateExactly, LongNames, SmallObjects;
    var disk, names := SmallDisk(), LongNames(n);
    SmallPartitionIsFound();
    LongNamesAre(n);
    LongObjectIsFound(disk, Table(3, 2), n);
    FoundTooMuch(disk, GetFsHeader(disk).value, Table(3, 2), names);
  }

  lemma LongNamesAre(n: nat)
    ensures |LongNames(n)| >= 2 && LongNames(n)[0] == "pq" && LongNames(n)[1..] == ["ab"] + Absent(n) + ["cd"]
  {
    hide Absent;
  }

  lemma FoundTooMuch(disk: Disk, h: FsHeader, t: Table, names: seq<string>)
    requires GetFsHeader(disk) == Some(h) && |names| >= 2
    requires FindPartition(disk, h, names[0], 0) == Some(0) && TableOf(disk, h, 0) == Some(t)
    requires LocateObject(disk, t, names[1..], false).Some? && ExactObject(disk, t, names[1..], false).None?
    ensures Locate(disk, names, false).Object? && LocateExactly(disk, names, false) == Missing
  {
    hide LocateObject, ExactObject, GetFsHeader, TableOf, FindPartition;
  }

  lemma LongObjectIsFound(disk: Disk, t: Table, n: nat)
    requires Holds(disk, t, SmallObjects()) && n > 0
    ensures LocateObject(disk, t, ["ab"] + Absent(n) + ["cd"], false) == Some(1)
    ensures ExactObject(disk, t, ["ab"] + Absent(n) + ["cd"], false).None?
  {
    hide Holds, FindParent, WalkAll, FindChild, Absent;
    SmallSearch(disk, t, n);
    var rest := ["ab"] + Absent(n);
    assert (rest + ["cd"])[..|rest|] == rest;
  }

  ghost predicate PathIsExact(disk: Disk, path: string, directoryOnly: bool) {
    Locate(disk, NamesOf(path), directoryOnly) == LocateExactly(disk, NamesOf(path), directoryOnly)
  }

  // So a path leads on every disk only where it should exactly if it has at most three parts:
  // the partition, one directory and the object.
  lemma PathsAreExactIff(n: nat)
    ensures
      (forall disk: Disk, path, directoryOnly :: disk.Faithful() && |NamesOf(path)| == n ==>
        PathIsExact(disk, path, directoryOnly))
      <==> n <= 3
  {
    hide Disk.Faithful, NamesOf, PathIsExact, SmallDisk;
    if n <= 3 {
      forall disk: Disk, path, directoryOnly | disk.Faithful() && |NamesOf(path)| == n
        ensures PathIsExact(disk, path, directoryOnly)
      {
        ShortPathIsExact(disk, path, directoryOnly);
      }
    } else {
      SmallIsFaithful();
      LongPathIsNotExact(n - 3);
    }
  }

  lemma ShortPathIsExact(disk: Disk, path: string, directoryOnly: bool)
    requires |NamesOf(path)| <= 3
    ensures PathIsExact(disk, path, directoryOnly)
  {
    hide NamesOf, Locate, LocateExactly;
    ExactIsLocated(disk, NamesOf(path), directoryOnly);
  }

  lemma LongPathIsNotExact(n: nat)
    requires n > 0
    ensures |NamesOf(Join(LongNames(n), '/'))| == n + 3 && !PathIsExact(SmallDisk(), Join(LongNames(n), '/'), false)
  {
    hide NamesOf, Locate, LocateExactly, SmallDisk, LongNames, Join;
    LongPath(n);
    LongPathIsFound(n);
  }
}
