/** Which paths lead where on a partition that the host has written. */
module LiteFsPaths {
  import opened Options
  import opened Strings
  import opened LiteFsFormat
  import opened LiteFsWriter
  import opened LiteFsTree
  import opened LiteFsReader
  import opened LiteFsRoundTrip

  // A table that reads as the descriptors of the objects.
  ghost predicate Holds(disk: Disk, t: Table, objects: seq<FileSystemObject>) {
    t.count == |objects| && forall k :: 0 <= k < |objects| ==> Entry(disk, t, objects, k)
  }

  ghost predicate Entry(disk: Disk, t: Table, objects: seq<FileSystemObject>, k: int) {
    0 <= k < |objects| ==>
      var d := ReadDescriptor(disk, t, k);
      && d.Some? && d.value.id == objects[k].id && d.value.parentId == objects[k].parentId
      && d.value.unalignedSize == objects[k].fileSize
      && d.value.objectType == (if objects[k].directory then DirectoryType else FileType)
      && CString(d.value.name) == objects[k].name
  }

  lemma MountedHolds(disk: Disk, i: nat, name: string, objects: seq<FileSystemObject>, attributes: nat,
                     image: seq<Sector>)
    requires Mounted(disk, i, name, objects, attributes, image)
    ensures GetFsHeader(disk).Some? && PartitionLba(GetFsHeader(disk).value, i).Some?
    ensures Holds(disk, Table(Base(disk, i) + 1, |objects|), objects)
  {
    hide Mounted, CString;
    FaithfulWhenMounted(disk, i, name, objects, attributes, image);
    var t := Table(Base(disk, i) + 1, |objects|);
    forall k | 0 <= k < |objects| ensures Entry(disk, t, objects, k) {
      MountedDescriptor(disk, i, name, objects, attributes, image, k);
    }
  }

  // ---- chains of objects ----

  // Each object of the chain has the one before it as its parent.
  ghost predicate IsChain(objects: seq<FileSystemObject>, chain: seq<nat>) {
    && chain != []
    && (forall i :: 0 <= i < |chain| ==> chain[i] < |objects|)
    && objects[chain[0]].parentId == 0
    && forall i :: 0 < i < |chain| ==> LinkedTo(objects, chain, i)
  }

  ghost predicate LinkedTo(objects: seq<FileSystemObject>, chain: seq<nat>, i: int)
    requires forall k :: 0 <= k < |chain| ==> chain[k] < |objects|
  {
    0 < i < |chain| ==> objects[chain[i]].parentId == objects[chain[i - 1]].id
  }

  function NamesIn(objects: seq<FileSystemObject>, chain: seq<nat>): (names: seq<string>)
    requires forall i :: 0 <= i < |chain| ==> chain[i] < |objects|
    ensures |names| == |chain| && forall i :: 0 <= i < |chain| ==> names[i] == objects[chain[i]].name
  {
    seq(|chain|, i requires 0 <= i < |chain| => objects[chain[i]].name)
  }

  // No sibling that comes earlier in the table passes for object `k`.
  ghost predicate NoLookalike(objects: seq<FileSystemObject>, k: nat)
    requires k < |objects|
  {
    forall j :: 0 <= j < k && objects[j].parentId == objects[k].parentId ==> !SameName(objects[k].name, objects[j].name)
  }

  // The names of the chain lead to its last object.
  ghost predicate Resolves(disk: Disk, t: Table, objects: seq<FileSystemObject>, chain: seq<nat>)
    requires IsChain(objects, chain)
  {
    LocateObject(disk, t, NamesIn(objects, chain), false) == Some(chain[|chain| - 1])
  }

  lemma FoundIffNoLookalike(disk: Disk, t: Table, objects: seq<FileSystemObject>, k: nat)
    requires Holds(disk, t, objects) && k < |objects|
    ensures FindChild(disk, t, objects[k].parentId, objects[k].name, false, 0) == Some(k) <==> NoLookalike(objects, k)
  {
    hide CString;
    var o := objects[k];
    assert Entry(disk, t, objects, k);
    forall j | 0 <= j < |objects|
      ensures Matches(ReadDescriptor(disk, t, j), o.parentId, o.name, false)
        <==> objects[j].parentId == o.parentId && SameName(o.name, objects[j].name)
    {
      assert Entry(disk, t, objects, j);
    }
  }

  // One name more.
  lemma {:induction false} FindParentSnoc(disk: Disk, t: Table, names: seq<string>, name: string, parentId: nat,
                                          found: bool)
    ensures
      var r := FindParent(disk, t, names, parentId, found);
      r.Some? ==>
        var j := FindChild(disk, t, r.value, name, false, 0);
        j.Some? ==>
          && ReadDescriptor(disk, t, j.value).Some?
          && FindParent(disk, t, names + [name], parentId, found) == Some(ReadDescriptor(disk, t, j.value).value.id)
    decreases |names|
  {
    hide FindChild;
    if names == [] {
      assert ([] + [name])[1..] == [];
    } else {
      assert (names + [name])[1..] == names[1..] + [name];
      match FindChild(disk, t, parentId, names[0], false, 0)
      case Some(j) => FindParentSnoc(disk, t, names[1..], name, ReadDescriptor(disk, t, j).value.id, true);
      case None =>
        if found {
          FindParentSnoc(disk, t, names[1..], name, parentId, true);
        }
    }
  }

  lemma ChainPrefix(objects: seq<FileSystemObject>, chain: seq<nat>)
    requires IsChain(objects, chain) && |chain| > 1
    ensures IsChain(objects, chain[..|chain| - 1])
    ensures NamesIn(objects, chain)[..|chain| - 1] == NamesIn(objects, chain[..|chain| - 1])
    ensures objects[chain[|chain| - 1]].parentId == objects[chain[|chain| - 2]].id
  {
    var prefix := chain[..|chain| - 1];
    forall i | 0 < i < |prefix| ensures LinkedTo(objects, prefix, i) {
      assert LinkedTo(objects, chain, i);
    }
    assert LinkedTo(objects, chain, |chain| - 1);
  }

  // If the directory is found, the search for its object starts in it.
  lemma ParentFound(disk: Disk, t: Table, objects: seq<FileSystemObject>, chain: seq<nat>)
    requires Holds(disk, t, objects) && IsChain(objects, chain)
    requires |chain| > 1 ==> IsChain(objects, chain[..|chain| - 1]) && Resolves(disk, t, objects, chain[..|chain| - 1])
    ensures
      var names := NamesIn(objects, chain);
      FindParent(disk, t, names[..|names| - 1], 0, false) == Some(objects[chain[|chain| - 1]].parentId)
  {
    hide CString, FindChild, FindParent;
    var names := NamesIn(objects, chain);
    if |chain| == 1 {
      FindNothing(disk, t, names[..0]);
    } else {
      ChainPrefix(objects, chain);
      var prefix := names[..|names| - 1];
      var n := |prefix|;
      assert prefix == prefix[..n - 1] + [prefix[n - 1]];
      FindParentSnoc(disk, t, prefix[..n - 1], prefix[n - 1], 0, false);
      assert Entry(disk, t, objects, chain[n - 1]);
    }
  }

  lemma FindNothing(disk: Disk, t: Table, names: seq<string>)
    requires names == []
    ensures FindParent(disk, t, names, 0, false) == Some(0)
  {
  }

  // Given its directory, an object is found exactly if no earlier sibling passes for it.
  lemma ResolvesIff(disk: Disk, t: Table, objects: seq<FileSystemObject>, chain: seq<nat>)
    requires Holds(disk, t, objects) && IsChain(objects, chain)
    requires |chain| > 1 ==> IsChain(objects, chain[..|chain| - 1]) && Resolves(disk, t, objects, chain[..|chain| - 1])
    ensures Resolves(disk, t, objects, chain) <==> NoLookalike(objects, chain[|chain| - 1])
  {
    hide CString, FindParent, FindChild;
    ParentFound(disk, t, objects, chain);
    FoundIffNoLookalike(disk, t, objects, chain[|chain| - 1]);
  }

  lemma {:induction false} ChainResolves(disk: Disk, t: Table, objects: seq<FileSystemObject>, chain: seq<nat>)
    requires Holds(disk, t, objects) && IsChain(objects, chain)
    requires forall i :: 0 <= i < |chain| ==> NoLookalike(objects, chain[i])
    ensures Resolves(disk, t, objects, chain)
    decreases |chain|
  {
    if |chain| > 1 {
      ChainPrefix(objects, chain);
      ChainResolves(disk, t, objects, chain[..|chain| - 1]);
    }
    ResolvesIff(disk, t, objects, chain);
  }

  // An object that some chain leads to.
  ghost predicate Reachable(objects: seq<FileSystemObject>, k: nat) {
    exists chain :: IsChain(objects, chain) && chain[|chain| - 1] == k
  }

  // Every object is found by its path exactly if no reachable object has an earlier look-alike.
  lemma EveryPathResolvesIff(disk: Disk, t: Table, objects: seq<FileSystemObject>)
    requires Holds(disk, t, objects)
    ensures (forall chain :: IsChain(objects, chain) ==> Resolves(disk, t, objects, chain))
      <==> (forall k :: 0 <= k < |objects| && Reachable(objects, k) ==> NoLookalike(objects, k))
  {
    hide Holds, IsChain, Resolves, Reachable, NoLookalike;
    if forall chain :: IsChain(objects, chain) ==> Resolves(disk, t, objects, chain) {
      forall k | 0 <= k < |objects| && Reachable(objects, k) ensures NoLookalike(objects, k) {
        ResolvedHasNoLookalike(disk, t, objects, k);
      }
    }
    if forall k :: 0 <= k < |objects| && Reachable(objects, k) ==> NoLookalike(objects, k) {
      forall chain | IsChain(objects, chain) ensures Resolves(disk, t, objects, chain) {
        AllOnChainResolve(disk, t, objects, chain);
      }
    }
  }

  lemma ResolvedHasNoLookalike(disk: Disk, t: Table, objects: seq<FileSystemObject>, k: nat)
    requires Holds(disk, t, objects) && k < |objects| && Reachable(objects, k)
    requires forall chain :: IsChain(objects, chain) ==> Resolves(disk, t, objects, chain)
    ensures NoLookalike(objects, k)
  {
    hide Holds, Resolves, NoLookalike, LinkedTo;
    var chain :| IsChain(objects, chain) && chain[|chain| - 1] == k;
    if |chain| > 1 {
      ChainPrefix(objects, chain);
    }
    ResolvesIff(disk, t, objects, chain);
  }

  lemma AllOnChainResolve(disk: Disk, t: Table, objects: seq<FileSystemObject>, chain: seq<nat>)
    requires Holds(disk, t, objects) && IsChain(objects, chain)
    requires forall k :: 0 <= k < |objects| && Reachable(objects, k) ==> NoLookalike(objects, k)
    ensures Resolves(disk, t, objects, chain)
  {
    hide Holds, Resolves, NoLookalike;
    forall i | 0 <= i < |chain| ensures NoLookalike(objects, chain[i]) {
      ChainUpTo(objects, chain, i);
      assert Reachable(objects, chain[i]);
    }
    ChainResolves(disk, t, objects, chain);
  }

  lemma ChainUpTo(objects: seq<FileSystemObject>, chain: seq<nat>, i: nat)
    requires IsChain(objects, chain) && i < |chain|
    ensures IsChain(objects, chain[..i + 1]) && chain[..i + 1][i] == chain[i]
  {
    var prefix := chain[..i + 1];
    forall k | 0 < k < |prefix| ensures LinkedTo(objects, prefix, k) {
      assert LinkedTo(objects, chain, k);
    }
  }

  // Every object of a host's tree can be reached.
  lemma {:induction false} TreeIsReachable(objects: seq<FileSystemObject>, startId: nat, k: nat)
    requires Closed(objects, startId, 0) && k < |objects|
    ensures Reachable(objects, k)
    decreases k
  {
    if objects[k].parentId == 0 {
      assert IsChain(objects, [k]);
    } else {
      var j :| 0 <= j < k && objects[j].id == objects[k].parentId;
      TreeIsReachable(objects, startId, j);
      var chain :| IsChain(objects, chain) && chain[|chain| - 1] == j;
      ChainExtends(objects, chain, k);
    }
  }

  lemma ChainExtends(objects: seq<FileSystemObject>, chain: seq<nat>, k: nat)
    requires IsChain(objects, chain) && k < |objects| && objects[k].parentId == objects[chain[|chain| - 1]].id
    ensures Reachable(objects, k)
  {
    var longer := chain + [k];
    forall i | 0 < i < |longer| ensures LinkedTo(objects, longer, i) {
      assert i < |chain| ==> LinkedTo(objects, chain, i);
    }
    assert IsChain(objects, longer) && longer[|longer| - 1] == k;
  }

  // So on the partition of a host's tree, every path leads to its object exactly if no object has
  // an earlier look-alike.
  lemma TreePathsResolveIff(disk: Disk, t: Table, objects: seq<FileSystemObject>, e: Entries)
    requires Holds(disk, t, objects) && objects == Walk(e, 1, 0)
    ensures (forall chain :: IsChain(objects, chain) ==> Resolves(disk, t, objects, chain))
      <==> (forall k :: 0 <= k < |objects| ==> NoLookalike(objects, k))
  {
    hide Walk, NoLookalike, Resolves, IsChain, Holds;
    WalkIsClosed(e, 1, 0);
    EveryPathResolvesIff(disk, t, objects);
    forall k | 0 <= k < |objects| ensures Reachable(objects, k) {
      TreeIsReachable(objects, 1, k);
    }
  }

  // Siblings with different names pass for each other only if their names have the same odd length.
  lemma DistinctSiblings(objects: seq<FileSystemObject>, k: nat)
    requires k < |objects|
    requires forall j :: 0 <= j < k && objects[j].parentId == objects[k].parentId ==> objects[j].name != objects[k].name
    ensures NoLookalike(objects, k) <==>
      forall j :: 0 <= j < k && objects[j].parentId == objects[k].parentId ==>
        |objects[j].name| % 2 == 0 || |objects[j].name| != |objects[k].name|
  {
  }

  // Looking for a directory only makes the search find it sooner.
  lemma DirectoryFound(disk: Disk, t: Table, objects: seq<FileSystemObject>, chain: seq<nat>)
    requires Holds(disk, t, objects) && IsChain(objects, chain) && objects[chain[|chain| - 1]].directory
    requires forall c :: 0 <= c < |chain| ==> NoLookalike(objects, chain[c])
    ensures LocateObject(disk, t, NamesIn(objects, chain), true) == Some(chain[|chain| - 1])
  {
    hide CString, FindParent;
    var k := chain[|chain| - 1];
    if |chain| > 1 {
      ChainPrefix(objects, chain);
      ChainResolves(disk, t, objects, chain[..|chain| - 1]);
    }
    ParentFound(disk, t, objects, chain);
    assert Entry(disk, t, objects, k);
    forall j | 0 <= j < k ensures !Matches(ReadDescriptor(disk, t, j), objects[k].parentId, objects[k].name, true) {
      assert Entry(disk, t, objects, j);
    }
  }

  // ---- partitions ----

  // A partition is found by its name exactly if the ones before it can be read and do not pass for it.
  lemma {:induction false} PartitionFoundIff(disk: Disk, h: FsHeader, i: nat, name: string, from: nat)
    requires i < h.partitionsCount && from <= i
    requires GetPartitionHeader(disk, i).Some? && HeaderName(GetPartitionHeader(disk, i).value) == name
    ensures FindPartition(disk, h, name, from) == Some(i) <==>
      forall j :: from <= j < i ==>
        GetPartitionHeader(disk, j).Some? && !SameName(name, HeaderName(GetPartitionHeader(disk, j).value))
    decreases i - from
  {
    hide CString, GetPartitionHeader;
    if from < i {
      PartitionFoundIff(disk, h, i, name, from + 1);
    }
  }

  // ---- from a path to the bytes of a file ----

  function PathOf(name: string, objects: seq<FileSystemObject>, chain: seq<nat>): string
    requires forall i :: 0 <= i < |chain| ==> chain[i] < |objects|
  {
    Join([name] + NamesIn(objects, chain), '/')
  }

  lemma PathSplits(name: string, objects: seq<FileSystemObject>, chain: seq<nat>)
    requires forall i :: 0 <= i < |chain| ==> chain[i] < |objects|
    requires AreNames([name] + NamesIn(objects, chain), '/')
    ensures NamesOf(PathOf(name, objects, chain)) == [name] + NamesIn(objects, chain)
  {
    hide AreNames, Parts, Join;
    SplitJoin([name] + NamesIn(objects, chain), '/');
  }

  // The path of an object on a mounted partition leads to its descriptor.
  lemma PathResolves(disk: Disk, i: nat, name: string, objects: seq<FileSystemObject>, attributes: nat,
                     image: seq<Sector>, chain: seq<nat>)
    requires Mounted(disk, i, name, objects, attributes, image) && IsChain(objects, chain)
    requires AreNames([name] + NamesIn(objects, chain), '/')
    requires GetFsHeader(disk).Some? && FindPartition(disk, GetFsHeader(disk).value, name, 0) == Some(i)
    requires forall c :: 0 <= c < |chain| ==> NoLookalike(objects, chain[c])
    ensures PartitionLba(GetFsHeader(disk).value, i).Some?
    ensures Locate(disk, NamesOf(PathOf(name, objects, chain)), false)
      == Object(i, Table(Base(disk, i) + 1, |objects|), chain[|chain| - 1])
    ensures ReadDescriptor(disk, Table(Base(disk, i) + 1, |objects|), chain[|chain| - 1])
      == Some(DescriptorFor(objects, chain[|chain| - 1], attributes))
  {
    hide Mounted, AreNames, FindPartition, CString, NamesOf;
    MountedHolds(disk, i, name, objects, attributes, image);
    MountedTable(disk, i, name, objects, attributes, image);
    MountedDescriptor(disk, i, name, objects, attributes, image, chain[|chain| - 1]);
    PathSplits(name, objects, chain);
    ChainResolves(disk, Table(Base(disk, i) + 1, |objects|), objects, chain);
    assert ([name] + NamesIn(objects, chain))[1..] == NamesIn(objects, chain);
  }

  lemma DirectoryResolves(disk: Disk, i: nat, name: string, objects: seq<FileSystemObject>, attributes: nat,
                          image: seq<Sector>, chain: seq<nat>)
    requires Mounted(disk, i, name, objects, attributes, image) && IsChain(objects, chain)
    requires AreNames([name] + NamesIn(objects, chain), '/') && objects[chain[|chain| - 1]].directory
    requires GetFsHeader(disk).Some? && FindPartition(disk, GetFsHeader(disk).value, name, 0) == Some(i)
    requires forall c :: 0 <= c < |chain| ==> NoLookalike(objects, chain[c])
    ensures PartitionLba(GetFsHeader(disk).value, i).Some?
    ensures
      var t := Table(Base(disk, i) + 1, |objects|);
      && Holds(disk, t, objects)
      && Locate(disk, NamesOf(PathOf(name, objects, chain)), true) == Object(i, t, chain[|chain| - 1])
  {
    hide Mounted, AreNames, FindPartition, CString, NamesOf;
    MountedHolds(disk, i, name, objects, attributes, image);
    MountedTable(disk, i, name, objects, attributes, image);
    PathSplits(name, objects, chain);
    DirectoryFound(disk, Table(Base(disk, i) + 1, |objects|), objects, chain);
    assert ([name] + NamesIn(objects, chain))[1..] == NamesIn(objects, chain);
  }

  // Reading a file by its path, from a chunk boundary on, delivers what the host stored.
  method ReadStoredFile(disk: Disk, i: nat, name: string, objects: seq<FileSystemObject>, ghost attributes: nat,
                        ghost image: seq<Sector>, chain: seq<nat>, offset: nat, bytesCount: nat)
    returns (ok: bool, buffer: seq<Byte>)
    requires Mounted(disk, i, name, objects, attributes, image) && IsChain(objects, chain)
    requires AreNames([name] + NamesIn(objects, chain), '/')
    requires GetFsHeader(disk).Some? && FindPartition(disk, GetFsHeader(disk).value, name, 0) == Some(i)
    requires forall c :: 0 <= c < |chain| ==> NoLookalike(objects, chain[c])
    requires !objects[chain[|chain| - 1]].directory
    requires offset % 504 == 0 && offset <= |objects[chain[|chain| - 1]].data| && offset < 0x1_0000_0000
    requires IsU64(offset + bytesCount)
    ensures ok
    // Zero asks for the rest of the file.  Whole chunks are copied, with zeros behind the file's end.
    ensures
      var file := objects[chain[|chain| - 1]].data;
      var n := if bytesCount == 0 || offset + bytesCount > |file| then |file| - offset else bytesCount;
      && |buffer| == (n + 503) / 504 * 504 && buffer[..n] == file[offset..offset + n]
      && forall x :: 0 <= x < |buffer| ==> buffer[x] == if offset + x < |file| then file[offset + x] else 0
  {
    hide Mounted, AreNames, FindPartition, Locate, FileBytes, NamesOf, PathOf, IsChain, NoLookalike;
    LastInBounds(objects, chain);
    FaithfulWhenMounted(disk, i, name, objects, attributes, image);
    PathResolves(disk, i, name, objects, attributes, image, chain);
    FileRoundTrip(disk, i, name, objects, attributes, image, chain[|chain| - 1], offset, bytesCount);
    ok, buffer := ReadFile(disk, PathOf(name, objects, chain), offset, bytesCount);
  }

  lemma LastInBounds(objects: seq<FileSystemObject>, chain: seq<nat>)
    requires IsChain(objects, chain)
    ensures chain != [] && forall i :: 0 <= i < |chain| ==> chain[i] < |objects|
  {
  }
}
