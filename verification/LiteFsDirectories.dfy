/** The resumable directory iterator (library/lite-fs/lite-fs.cxx:187-314). */
module LiteFsDirectories {
  import opened Options
  import opened LiteFsFormat
  import opened LiteFsWriter
  import opened LiteFsTree
  import opened LiteFsReader
  import opened LiteFsRoundTrip
  import opened LiteFsPaths
  import opened Strings

  const WRONG_INDEX: nat := 0xFFFF_FFFF

  datatype ObjectInformation = ObjectInformation(name: string, objectType: ObjectType, attributes: nat, size: nat)

  function InformationOf(d: ObjectDescriptor): ObjectInformation {
    ObjectInformation(CString(d.name), d.objectType, d.attributes, d.unalignedSize)
  }

  // What the iterator tells about the children with the given indices.
  function Listing(disk: Disk, t: Table, children: seq<nat>): (r: seq<ObjectInformation>)
    requires forall i :: 0 <= i < |children| ==> ReadDescriptor(disk, t, children[i]).Some?
    ensures |r| == |children|
    ensures forall i :: 0 <= i < |r| ==> r[i] == InformationOf(ReadDescriptor(disk, t, children[i]).value)
  {
    seq(|children|, i requires 0 <= i < |children| => InformationOf(ReadDescriptor(disk, t, children[i]).value))
  }

  lemma {:induction false} ChildrenAreReadable(disk: Disk, t: Table, id: nat, j: nat)
    ensures forall i :: 0 <= i < |Children(disk, t, id, j)| ==> IsChild(disk, t, id, Children(disk, t, id, j)[i])
    decreases t.count - j
  {
    if j < t.count {
      ChildrenAreReadable(disk, t, id, j + 1);
    }
  }

  // They come in the order of the table, each once, and none is left out.
  lemma {:induction false} ChildrenAreOrdered(disk: Disk, t: Table, id: nat, j: nat)
    ensures
      var r := Children(disk, t, id, j);
      && (forall i, k :: 0 <= i < k < |r| ==> r[i] < r[k])
      && forall k :: k in r <==> j <= k < t.count && IsChild(disk, t, id, k)
    decreases t.count - j
  {
    hide IsChild;
    if j < t.count {
      ChildrenAreOrdered(disk, t, id, j + 1);
    }
  }

  // Entries that are not children make no difference.
  lemma {:induction false} ChildrenFrom(disk: Disk, t: Table, id: nat, j: nat, k: nat)
    requires j <= k && forall i :: j <= i < k && i < t.count ==> !IsChild(disk, t, id, i)
    ensures Children(disk, t, id, j) == Children(disk, t, id, k)
    decreases k - j
  {
    if j < k {
      ChildrenFrom(disk, t, id, j + 1, k);
    }
  }

  // The next child is the first in order.
  lemma NextChild(disk: Disk, t: Table, id: nat, j: nat, k: nat)
    requires j <= k < t.count && IsChild(disk, t, id, k) && forall i :: j <= i < k ==> !IsChild(disk, t, id, i)
    ensures Children(disk, t, id, j) == [k] + Children(disk, t, id, k + 1)
  {
    ChildrenFrom(disk, t, id, j, k);
  }

  lemma NoChild(disk: Disk, t: Table, id: nat, j: nat)
    requires forall i :: j <= i < t.count ==> !IsChild(disk, t, id, i)
    ensures Children(disk, t, id, j) == []
  {
    ChildrenFrom(disk, t, id, j, if j <= t.count then t.count else j);
  }

  // The file system has a partition `i`, and its header can be read.
  predicate IsPartitionAt(disk: Disk, i: nat) {
    GetFsHeader(disk).Some? && i < GetFsHeader(disk).value.partitionsCount && GetPartitionHeader(disk, i).Some?
  }

  // Partitions are shown as system directories, all with the same size.
  function PartitionInformation(disk: Disk, i: nat): ObjectInformation
    requires IsPartitionAt(disk, i)
  {
    ObjectInformation(HeaderName(GetPartitionHeader(disk, i).value), DirectoryType, 1,
                      GetFsHeader(disk).value.partitionsCount)
  }

  class DirectoryIterator {
    var partitionIndex: nat
    var directoryId: nat
    var sectorOffset: int
    var objectsLeft: nat

    constructor ()
    {
    }

    // The children that are still to come, in order.
    ghost function Remaining(disk: Disk, t: Table): seq<nat>
      requires sectorOffset + 1 >= t.first
      reads this
    {
      Children(disk, t, directoryId, sectorOffset + 1 - t.first)
    }

    // The iterator is in the table of a partition, and counts what is still to come.
    ghost predicate Iterating(disk: Disk, t: Table)
      reads this
    {
      && GetFsHeader(disk).Some? && TableOf(disk, GetFsHeader(disk).value, partitionIndex) == Some(t)
      && partitionIndex != WRONG_INDEX && sectorOffset + 1 >= t.first
      && objectsLeft == |Remaining(disk, t)|
    }

    method CreateDirectoryIterator(disk: Disk, path: string) returns (ok: bool)
      modifies this
      ensures match Locate(disk, NamesOf(path), true)
        case Missing => !ok
        case Root(_) => ok && AtRoot() && sectorOffset == 1 && objectsLeft == 0
        case Top(i, t) =>
          && ok && partitionIndex == i && directoryId == 0 && sectorOffset == t.first - 1
          && objectsLeft == |Children(disk, t, 0, 0)|
          && (i != WRONG_INDEX ==> Iterating(disk, t) && Remaining(disk, t) == Children(disk, t, 0, 0))
        case Object(i, t, j) =>
          && ok && ReadDescriptor(disk, t, j).Some? && sectorOffset == t.first + j
          && directoryId == ReadDescriptor(disk, t, j).value.id
          && objectsLeft == ReadDescriptor(disk, t, j).value.unalignedSize
          && partitionIndex == i
          && GetFsHeader(disk).Some? && TableOf(disk, GetFsHeader(disk).value, i) == Some(t)
    {
      hide NamesOf, FindPartition, FindParent, FindChild, Children, CString, Locate, TableOf;
      var where := Find(disk, path, true);
      match where {
        case Missing => ok := false;
        case Root(_) =>
          partitionIndex, directoryId, sectorOffset, objectsLeft := WRONG_INDEX, WRONG_INDEX, 1, 0;
          ok := true;
        case Top(i, t) =>
          LocatedHasHeader(disk, NamesOf(path), true);
          var count := CountTop(disk, t);
          partitionIndex, directoryId, sectorOffset, objectsLeft := i, 0, t.first - 1, count;
          ok := true;
        case Object(i, t, j) =>
          LocatedIsReadable(disk, NamesOf(path), true);
          var d := ReadDescriptor(disk, t, j).value;
          partitionIndex, directoryId, sectorOffset, objectsLeft := i, d.id, t.first + j, d.unalignedSize;
          ok := true;
      }
    }

    // In the root of the file system, `objectsLeft` counts upwards instead: it is the next partition.
    ghost predicate AtRoot() reads this {
      partitionIndex == WRONG_INDEX && directoryId == WRONG_INDEX
    }

    // Nothing is changed unless there is something to tell.
    method GetNextObjectInformation(disk: Disk, ghost t: Table)
      returns (ok: bool, information: Option<ObjectInformation>)
      modifies this
      ensures directoryId == old(directoryId) && partitionIndex == old(partitionIndex)
      ensures ok == information.Some?
      ensures !ok ==> sectorOffset == old(sectorOffset) && objectsLeft == old(objectsLeft)
      // In the root, the next partition, if it can be read.
      ensures partitionIndex == WRONG_INDEX ==>
        && sectorOffset == old(sectorOffset) && objectsLeft == old(objectsLeft) + (if ok then 1 else 0)
        && (ok <==> AtRoot() && IsPartitionAt(disk, old(objectsLeft)))
        && (ok ==> information.value == PartitionInformation(disk, old(objectsLeft)))
      // In a partition, while objects are left to count, the next entry of the directory among as many
      // sectors behind the current place as the partition has entries.
      ensures partitionIndex != WRONG_INDEX && ok ==>
        && old(objectsLeft) > 0 && objectsLeft == old(objectsLeft) - 1
        && old(sectorOffset) < sectorOffset <= old(sectorOffset) + EntriesOf(disk, partitionIndex)
        && IsEntryOf(disk, sectorOffset, directoryId)
        && (forall k :: old(sectorOffset) < k < sectorOffset ==> !IsEntryOf(disk, k, directoryId))
        && information.value == InformationOf(disk.asDescriptor(disk.Read(sectorOffset).value))
      ensures partitionIndex != WRONG_INDEX && !ok ==>
        || objectsLeft == 0
        || forall k :: sectorOffset < k <= sectorOffset + EntriesOf(disk, partitionIndex) ==>
             !IsEntryOf(disk, k, directoryId)
      // So an iterator that counts right gives the next child in the order of the table, and nothing
      // exactly if none is left.
      ensures old(Iterating(disk, t)) ==> Iterating(disk, t)
      ensures old(Iterating(disk, t)) && old(Remaining(disk, t)) == [] ==> !ok
      ensures old(Iterating(disk, t)) && old(Remaining(disk, t)) != [] ==>
        && ok && Remaining(disk, t) == old(Remaining(disk, t))[1..]
        && ReadDescriptor(disk, t, old(Remaining(disk, t))[0]).Some?
        && information.value == InformationOf(ReadDescriptor(disk, t, old(Remaining(disk, t))[0]).value)
    {
      if objectsLeft == 0 && partitionIndex != WRONG_INDEX {
        return false, None;
      }
      if partitionIndex == WRONG_INDEX {
        if directoryId != WRONG_INDEX {
          return false, None;
        }
        var h := GetFsHeader(disk);
        if h.None? || objectsLeft >= h.value.partitionsCount {
          return false, None;
        }
        var p := GetPartitionHeader(disk, objectsLeft);
        if p.None? {
          return false, None;
        }
        objectsLeft := objectsLeft + 1;
        return true, Some(ObjectInformation(HeaderName(p.value), DirectoryType, 1, h.value.partitionsCount));
      }
      ok, information := GetNextObject(disk, t);
    }

    method GetNextObject(disk: Disk, ghost t: Table) returns (ok: bool, information: Option<ObjectInformation>)
      requires partitionIndex != WRONG_INDEX && objectsLeft > 0
      modifies this`sectorOffset, this`objectsLeft
      ensures ok == information.Some?
      ensures !ok ==> sectorOffset == old(sectorOffset) && objectsLeft == old(objectsLeft)
      ensures ok ==>
        && objectsLeft == old(objectsLeft) - 1
        && old(sectorOffset) < sectorOffset <= old(sectorOffset) + EntriesOf(disk, partitionIndex)
        && IsEntryOf(disk, sectorOffset, directoryId)
        && (forall k :: old(sectorOffset) < k < sectorOffset ==> !IsEntryOf(disk, k, directoryId))
        && information.value == InformationOf(disk.asDescriptor(disk.Read(sectorOffset).value))
      ensures !ok ==>
        forall k :: sectorOffset < k <= sectorOffset + EntriesOf(disk, partitionIndex) ==>
          !IsEntryOf(disk, k, directoryId)
      ensures old(Iterating(disk, t)) ==>
        && ok && Iterating(disk, t) && Remaining(disk, t) == old(Remaining(disk, t))[1..]
        && ReadDescriptor(disk, t, old(Remaining(disk, t))[0]).Some?
        && information.value == InformationOf(ReadDescriptor(disk, t, old(Remaining(disk, t))[0]).value)
    {
      hide TableOf, IsEntryOf, Children, GetPartitionHeader, InformationOf, ReadDescriptor, GetFsHeader;
      TableHasHeader(disk, partitionIndex, t);
      var header := GetPartitionHeader(disk, partitionIndex);
      if header.None? {
        return false, None;
      }
      var from := sectorOffset;
      var lba := NextEntry(disk, directoryId, from, header.value.entriesCount);
      if from + 1 >= t.first {
        NextIsChild(disk, t, directoryId, from, header.value.entriesCount, lba);
      }
      if lba.None? {
        return false, None;
      }
      EntryIsThere(disk, lba.value, directoryId);
      sectorOffset := lba.value;
      objectsLeft := objectsLeft - 1;
      ok, information := true, Some(InformationOf(disk.asDescriptor(disk.Read(lba.value).value)));
    }
  }

  function EntriesOf(disk: Disk, partition: nat): nat {
    match GetPartitionHeader(disk, partition)
    case None => 0
    case Some(h) => h.entriesCount
  }

  // The descriptor in that sector names the directory as its parent.
  predicate IsEntryOf(disk: Disk, lba: int, id: nat) {
    var s := disk.Read(lba);
    s.Some? && disk.asDescriptor(s.value).parentId == id
  }

  // The scan for the next entry; it may look past the end of the table, but not while a child is left.
  method NextEntry(disk: Disk, id: nat, sectorOffset: int, entriesCount: nat) returns (r: Option<int>)
    ensures r.Some? ==>
      && sectorOffset < r.value <= sectorOffset + entriesCount && IsEntryOf(disk, r.value, id)
      && forall k :: sectorOffset < k < r.value ==> !IsEntryOf(disk, k, id)
    ensures r.None? ==> forall k :: sectorOffset < k <= sectorOffset + entriesCount ==> !IsEntryOf(disk, k, id)
  {
    for i := 0 to entriesCount
      invariant forall k :: sectorOffset < k < sectorOffset + 1 + i ==> !IsEntryOf(disk, k, id)
    {
      var s := disk.Read(sectorOffset + 1 + i);
      if s.Some? && disk.asDescriptor(s.value).parentId == id {
        return Some(sectorOffset + 1 + i);
      }
    }
    r := None;
  }

  lemma EntryIsThere(disk: Disk, lba: int, id: nat)
    requires IsEntryOf(disk, lba, id)
    ensures disk.Read(lba).Some?
  {
  }

  lemma TableHasHeader(disk: Disk, i: nat, t: Table)
    ensures GetFsHeader(disk).Some? && TableOf(disk, GetFsHeader(disk).value, i) == Some(t) ==>
      GetPartitionHeader(disk, i).Some? && GetPartitionHeader(disk, i).value.entriesCount == t.count
  {
  }

  lemma NextIsChild(disk: Disk, t: Table, id: nat, sectorOffset: int, entriesCount: nat, r: Option<int>)
    requires sectorOffset + 1 >= t.first
    requires r.Some? ==>
      && sectorOffset < r.value && IsEntryOf(disk, r.value, id)
      && forall k :: sectorOffset < k < r.value ==> !IsEntryOf(disk, k, id)
    requires r.None? ==> forall k :: sectorOffset < k <= sectorOffset + entriesCount ==> !IsEntryOf(disk, k, id)
    ensures
      var rest := Children(disk, t, id, sectorOffset + 1 - t.first);
      entriesCount >= t.count && rest != [] ==>
        && r.Some? && t.first + rest[0] == r.value
        && rest[1..] == Children(disk, t, id, r.value + 1 - t.first)
        && ReadDescriptor(disk, t, rest[0]) == Some(disk.asDescriptor(disk.Read(r.value).value))
  {
    hide Children;
    var from := sectorOffset + 1 - t.first;
    assert forall k :: IsChild(disk, t, id, k) <==> IsEntryOf(disk, t.first + k, id);
    if r.None? {
      if entriesCount >= t.count {
        NoChild(disk, t, id, from);
      }
    } else if Children(disk, t, id, from) != [] {
      FirstOfRest(disk, t, id, from, r.value - t.first);
    }
  }

  lemma FirstOfRest(disk: Disk, t: Table, id: nat, j: nat, k: nat)
    requires j <= k && IsChild(disk, t, id, k) && forall i :: j <= i < k ==> !IsChild(disk, t, id, i)
    requires Children(disk, t, id, j) != []
    ensures k < t.count && Children(disk, t, id, j) == [k] + Children(disk, t, id, k + 1)
  {
    if k >= t.count {
      NoChild(disk, t, id, j);
    } else {
      NextChild(disk, t, id, j, k);
    }
  }

  // Going through a directory, as the shell does.
  method ListDirectory(disk: Disk, it: DirectoryIterator, ghost t: Table) returns (listing: seq<ObjectInformation>)
    requires it.Iterating(disk, t)
    modifies it
    ensures it.Iterating(disk, t) && it.objectsLeft == 0
    ensures forall i :: 0 <= i < |old(it.Remaining(disk, t))| ==>
      ReadDescriptor(disk, t, old(it.Remaining(disk, t))[i]).Some?
    ensures listing == Listing(disk, t, old(it.Remaining(disk, t)))
  {
    hide Children, CString;
    listing := [];
    ghost var all := it.Remaining(disk, t);
    ChildrenAreReadable(disk, t, it.directoryId, it.sectorOffset + 1 - t.first);
    while true
      invariant it.Iterating(disk, t) && !it.AtRoot()
      invariant |listing| <= |all| && it.Remaining(disk, t) == all[|listing|..]
      invariant forall i :: 0 <= i < |listing| ==> listing[i] == InformationOf(ReadDescriptor(disk, t, all[i]).value)
      decreases |all| - |listing|
    {
      var ok, information := it.GetNextObjectInformation(disk, t);
      if !ok {
        break;
      }
      listing := listing + [information.value];
    }
  }

  // Going through the root gives the partitions in order, each with its own name, up to the first
  // one that cannot be read.
  method ListRoot(disk: Disk) returns (ok: bool, listing: seq<ObjectInformation>)
    ensures ok <==> GetFsHeader(disk).Some?
    ensures ok ==>
      var count := GetFsHeader(disk).value.partitionsCount;
      && |listing| <= count && (|listing| < count ==> GetPartitionHeader(disk, |listing|).None?)
      && forall i :: 0 <= i < |listing| ==>
           && GetPartitionHeader(disk, i).Some?
           && listing[i]
              == ObjectInformation(HeaderName(GetPartitionHeader(disk, i).value), DirectoryType, 1, count)
    // A partition that the host has written has the name that it was given.
    ensures forall i: nat, name, objects, attributes, image ::
      Mounted(disk, i, name, objects, attributes, image) && i < |listing| ==> listing[i].name == name
  {
    hide Mounted, GetPartitionHeader, GetFsHeader, NamesOf;
    listing := [];
    RootPath(disk);
    var it := new DirectoryIterator();
    ok := it.CreateDirectoryIterator(disk, "/");
    if !ok {
      return;
    }
    ghost var t := Table(0, 0);
    var count := GetFsHeader(disk).value.partitionsCount;
    while true
      invariant it.AtRoot() && it.objectsLeft == |listing| <= count
      invariant forall i :: 0 <= i < |listing| ==>
        IsPartitionAt(disk, i) && listing[i] == PartitionInformation(disk, i)
      decreases count - |listing|
    {
      var more, information := it.GetNextObjectInformation(disk, t);
      if !more {
        break;
      }
      listing := listing + [information.value];
    }
    forall i | 0 <= i < |listing|
      ensures GetPartitionHeader(disk, i).Some?
      ensures listing[i] == ObjectInformation(HeaderName(GetPartitionHeader(disk, i).value), DirectoryType, 1, count)
    {
      assert IsPartitionAt(disk, i);
    }
    forall i: nat, name, objects, attributes, image |
      Mounted(disk, i, name, objects, attributes, image) && i < |listing|
      ensures listing[i].name == name
    {
      MountedTable(disk, i, name, objects, attributes, image);
    }
  }

  lemma RootPath(disk: Disk)
    ensures NamesOf("/") == []
    ensures Locate(disk, NamesOf("/"), true)
      == match GetFsHeader(disk) case None => Missing case Some(h) => Root(ReadablePartitions(disk, h, 0))
  {
    assert Leading("/"[1..], '/') == 0;
    assert Leading("/", '/') == 1;
  }

  // ---- directories that the host has written ----

  lemma {:induction false} CountIsLength(disk: Disk, t: Table, objects: seq<FileSystemObject>, id: nat, j: nat)
    requires Holds(disk, t, objects) && j <= |objects|
    ensures |Children(disk, t, id, j)| == ChildCount(objects[j..], id)
    decreases |objects| - j
  {
    hide CString;
    if j < |objects| {
      assert Entry(disk, t, objects, j);
      CountIsLength(disk, t, objects, id, j + 1);
    }
  }

  // The children of object `k` are exactly the objects that name it as their parent.
  lemma {:induction false} ChildrenAre(disk: Disk, t: Table, objects: seq<FileSystemObject>, id: nat, j: nat, k: nat)
    requires Holds(disk, t, objects) && k < |objects|
    ensures k in Children(disk, t, id, j) <==> j <= k && objects[k].parentId == id
    decreases |objects| - j
  {
    hide CString;
    if j < |objects| {
      assert Entry(disk, t, objects, j);
      ChildrenAre(disk, t, objects, id, j + 1, k);
    }
  }

  // An iterator that has just been made for a directory of a tree with unique numbers counts right,
  // and has all entries of the directory before it.
  lemma FreshIterator(disk: Disk, t: Table, objects: seq<FileSystemObject>, e: Entries, k: nat)
    requires Holds(disk, t, objects) && objects == Walk(e, 1, 0) && Numbered(e)
    requires k < |objects| && objects[k].directory
    ensures ReadDescriptor(disk, t, k).Some? && ReadDescriptor(disk, t, k).value.id == objects[k].id
    ensures
      var all := Children(disk, t, objects[k].id, 0);
      && ReadDescriptor(disk, t, k).value.unalignedSize == |all| && Children(disk, t, objects[k].id, k + 1) == all
  {
    hide CString, Walk, Children;
    UniqueIdsIff(e, 1, 0);
    WalkIsConsistent(e, 1, 0);
    assert ConsistentAt(objects, k) && Entry(disk, t, objects, k);
    CountIsLength(disk, t, objects, objects[k].id, 0);
    assert objects[0..] == objects;
    forall i | 0 <= i < k + 1 && i < t.count ensures !IsChild(disk, t, objects[k].id, i) {
      assert Entry(disk, t, objects, i);
    }
    ChildrenFrom(disk, t, objects[k].id, 0, k + 1);
  }

  // At the top, too, there are as many objects as the host's directory has entries.
  lemma FreshTop(disk: Disk, t: Table, objects: seq<FileSystemObject>, e: Entries)
    requires Holds(disk, t, objects) && objects == Walk(e, 1, 0)
    ensures |Children(disk, t, 0, 0)| == Length(e)
  {
    CountIsLength(disk, t, objects, 0, 0);
    assert objects[0..] == objects;
    TopCount(e, 1, 0);
  }

  // From the host's tree to a listing: going through a directory by its path gives every one of its
  // entries once, in the order of the table.
  method ListStoredDirectory(disk: Disk, i: nat, name: string, objects: seq<FileSystemObject>, ghost attributes: nat,
                             ghost image: seq<Sector>, ghost e: Entries, chain: seq<nat>)
    returns (listing: seq<ObjectInformation>, ghost children: seq<nat>)
    requires Mounted(disk, i, name, objects, attributes, image) && objects == Walk(e, 1, 0) && Numbered(e)
    requires IsChain(objects, chain) && AreNames([name] + NamesIn(objects, chain), '/')
    requires GetFsHeader(disk).Some? && FindPartition(disk, GetFsHeader(disk).value, name, 0) == Some(i)
    requires i != WRONG_INDEX
    requires forall c :: 0 <= c < |chain| ==> NoLookalike(objects, chain[c])
    requires objects[chain[|chain| - 1]].directory
    ensures |listing| == objects[chain[|chain| - 1]].fileSize
    ensures IsListing(objects, attributes, objects[chain[|chain| - 1]].id, children, listing)
  {
    hide Mounted, AreNames, FindPartition, NamesOf, PathOf, IsChain, NoLookalike, Walk, Numbered, Children,
      CString, Holds, Locate, TableOf, IsListing, InformationOf;
    LastInBounds(objects, chain);
    DirectoryResolves(disk, i, name, objects, attributes, image, chain);
    var k := chain[|chain| - 1];
    ghost var t := Table(Base(disk, i) + 1, |objects|);
    FreshIterator(disk, t, objects, e, k);
    FileSizeRead(disk, t, objects, k);
    var it := new DirectoryIterator();
    var ok := it.CreateDirectoryIterator(disk, PathOf(name, objects, chain));
    listing := ListDirectory(disk, it, t);
    children := Children(disk, t, objects[k].id, 0);
    ListingIsHosts(disk, i, name, objects, attributes, image, objects[k].id);
  }

  lemma FileSizeRead(disk: Disk, t: Table, objects: seq<FileSystemObject>, k: nat)
    requires Holds(disk, t, objects) && k < |objects|
    ensures ReadDescriptor(disk, t, k).Some? && ReadDescriptor(disk, t, k).value.unalignedSize == objects[k].fileSize
  {
    hide CString;
    assert Entry(disk, t, objects, k);
  }

  // The same for the top of a partition, whatever the numbers of the objects.
  method ListStoredTop(disk: Disk, i: nat, name: string, objects: seq<FileSystemObject>, ghost attributes: nat,
                       ghost image: seq<Sector>, ghost e: Entries)
    returns (listing: seq<ObjectInformation>, ghost children: seq<nat>)
    requires Mounted(disk, i, name, objects, attributes, image) && objects == Walk(e, 1, 0)
    requires AreNames([name], '/')
    requires GetFsHeader(disk).Some? && FindPartition(disk, GetFsHeader(disk).value, name, 0) == Some(i)
    requires i != WRONG_INDEX
    ensures |listing| == Length(e)
    ensures IsListing(objects, attributes, 0, children, listing)
  {
    hide Mounted, AreNames, FindPartition, NamesOf, PathOf, Walk, Children, CString, Holds, Locate, TableOf, IsListing,
      InformationOf;
    ghost var t := Table(Base(disk, i) + 1, |objects|);
    TopResolves(disk, i, name, objects, attributes, image);
    FreshTop(disk, t, objects, e);
    var it := new DirectoryIterator();
    var ok := it.CreateDirectoryIterator(disk, PathOf(name, objects, []));
    listing := ListDirectory(disk, it, t);
    children := Children(disk, t, 0, 0);
    ListingIsHosts(disk, i, name, objects, attributes, image, 0);
  }

  lemma TopResolves(disk: Disk, i: nat, name: string, objects: seq<FileSystemObject>, attributes: nat,
                    image: seq<Sector>)
    requires Mounted(disk, i, name, objects, attributes, image) && AreNames([name], '/')
    requires GetFsHeader(disk).Some? && FindPartition(disk, GetFsHeader(disk).value, name, 0) == Some(i)
    ensures PartitionLba(GetFsHeader(disk).value, i).Some?
    ensures
      var t := Table(Base(disk, i) + 1, |objects|);
      Holds(disk, t, objects) && Locate(disk, NamesOf(PathOf(name, objects, [])), true) == Top(i, t)
  {
    hide Mounted, AreNames, FindPartition, CString, NamesOf, Holds;
    MountedHolds(disk, i, name, objects, attributes, image);
    MountedTable(disk, i, name, objects, attributes, image);
    assert [name] + NamesIn(objects, []) == [name];
    PathSplits(name, objects, []);
  }

  // The objects of directory `id`, each once and in the host's order.
  ghost predicate IsListing(objects: seq<FileSystemObject>, attributes: nat, id: nat, children: seq<nat>,
                            listing: seq<ObjectInformation>) {
    && (forall k: nat :: k in children <==> k < |objects| && objects[k].parentId == id)
    && (forall c, e :: 0 <= c < e < |children| ==> children[c] < children[e])
    && |listing| == |children|
    && forall c :: 0 <= c < |children| ==>
         && children[c] < |objects|
         && var o := objects[children[c]];
            listing[c]
              == ObjectInformation(o.name, if o.directory then DirectoryType else FileType, attributes, o.fileSize)
  }

  lemma ListingIsHosts(disk: Disk, i: nat, name: string, objects: seq<FileSystemObject>, attributes: nat,
                       image: seq<Sector>, id: nat)
    requires Mounted(disk, i, name, objects, attributes, image)
    ensures GetFsHeader(disk).Some? && PartitionLba(GetFsHeader(disk).value, i).Some?
    ensures
      var t := Table(Base(disk, i) + 1, |objects|);
      var children := Children(disk, t, id, 0);
      && (forall c :: 0 <= c < |children| ==> ReadDescriptor(disk, t, children[c]).Some?)
      && IsListing(objects, attributes, id, children, Listing(disk, t, children))
  {
    hide Mounted, Children, CString, EntryName;
    FaithfulWhenMounted(disk, i, name, objects, attributes, image);
    MountedHolds(disk, i, name, objects, attributes, image);
    var t := Table(Base(disk, i) + 1, |objects|);
    var children := Children(disk, t, id, 0);
    ChildrenAreReadable(disk, t, id, 0);
    ChildrenAreOrdered(disk, t, id, 0);
    forall k | 0 <= k < |objects| ensures k in children <==> objects[k].parentId == id {
      ChildrenAre(disk, t, objects, id, 0, k);
    }
    forall c | 0 <= c < |children|
      ensures ReadDescriptor(disk, t, children[c]).Some?
      ensures
        var o := objects[children[c]];
        InformationOf(ReadDescriptor(disk, t, children[c]).value)
          == ObjectInformation(o.name, if o.directory then DirectoryType else FileType, attributes, o.fileSize)
    {
      MountedDescriptor(disk, i, name, objects, attributes, image, children[c]);
    }
  }
}
