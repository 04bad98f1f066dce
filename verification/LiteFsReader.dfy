/** The kernel-side reader of LiteFS disks (library/lite-fs/lite-fs.cxx). */
module LiteFsReader {
  import opened Options
  import opened Strings
  import opened LiteFsFormat

  // ---- headers ----

  function GetFsHeader(disk: Disk): Option<FsHeader> {
    if 1 >= |disk.sectors| then None
    else
      var h := disk.asFsHeader(disk.sectors[1]);
      if h.signature == "LITEFS" then Some(h) else None
  }

  // A file system is there exactly if sector 1 has the signature.
  lemma FsHeaderRead(disk: Disk, h: FsHeader)
    requires disk.Faithful() && |disk.sectors| > 1 && disk.sectors[1] == FsHeaderSector(h) && h.Fits()
    ensures GetFsHeader(disk) == if h.signature == "LITEFS" then Some(h) else None
  {
  }

  // Where a partition starts; a header has room for 62.
  function PartitionLba(h: FsHeader, i: nat): Option<int> {
    if i < h.partitionsCount && i < |h.partitions| then Some(1 + h.partitions[i]) else None
  }

  function GetPartitionHeader(disk: Disk, i: nat): Option<PartitionHeader> {
    match GetFsHeader(disk)
    case None => None
    case Some(h) =>
      match PartitionLba(h, i)
      case None => None
      case Some(lba) =>
        match disk.Read(lba)
        case None => None
        case Some(s) => Some(disk.asHeader(s))
  }

  // A partition starts as many sectors behind the file system's header as that says.
  lemma PartitionHeaderRead(disk: Disk, h: FsHeader, i: nat, p: PartitionHeader)
    requires disk.Faithful() && GetFsHeader(disk) == Some(h) && i < h.partitionsCount && i < |h.partitions|
    requires 0 <= 1 + h.partitions[i] < |disk.sectors|
    requires disk.sectors[1 + h.partitions[i]] == HeaderSector(p) && p.Fits()
    ensures GetPartitionHeader(disk, i) == Some(p)
    ensures TableOf(disk, h, i) == Some(Table(2 + h.partitions[i], p.entriesCount))
  {
  }

  predicate IsPartitionNamed(disk: Disk, i: nat, name: string) {
    var p := GetPartitionHeader(disk, i);
    p.Some? && SameName(name, HeaderName(p.value))
  }

  // The first partition of that name, up to the first one that cannot be read.
  function FindPartition(disk: Disk, h: FsHeader, name: string, i: nat): (r: Option<nat>)
    ensures r.Some? ==> i <= r.value < h.partitionsCount && IsPartitionNamed(disk, r.value, name)
    ensures r.Some? ==>
      forall j :: i <= j < r.value ==> GetPartitionHeader(disk, j).Some? && !IsPartitionNamed(disk, j, name)
    ensures r.None? ==>
      forall j :: i <= j < h.partitionsCount && IsPartitionNamed(disk, j, name) ==>
        exists k :: i <= k < j && GetPartitionHeader(disk, k).None?
    decreases h.partitionsCount - i
  {
    if i >= h.partitionsCount then None
    else
      match GetPartitionHeader(disk, i)
      case None => None
      case Some(p) => if SameName(name, HeaderName(p)) then Some(i) else FindPartition(disk, h, name, i + 1)
  }

  method GetPartitionIndex(disk: Disk, h: FsHeader, name: string) returns (r: Option<nat>)
    ensures r == FindPartition(disk, h, name, 0)
  {
    var i := 0;
    while i < h.partitionsCount
      invariant i <= h.partitionsCount
      invariant FindPartition(disk, h, name, 0) == FindPartition(disk, h, name, i)
    {
      var p := GetPartitionHeader(disk, i);
      if p.None? {
        return None;
      }
      var equal := Equals(name, HeaderName(p.value));
      if equal {
        return Some(i);
      }
      i := i + 1;
    }
    r := None;
  }

  // ---- objects ----

  // The descriptors of a partition.
  datatype Table = Table(first: int, count: nat)

  function ReadDescriptor(disk: Disk, t: Table, j: nat): Option<ObjectDescriptor> {
    match disk.Read(t.first + j)
    case None => None
    case Some(s) => Some(disk.asDescriptor(s))
  }

  predicate Matches(d: Option<ObjectDescriptor>, parentId: nat, name: string, directoryOnly: bool) {
    && d.Some? && d.value.parentId == parentId
    && (directoryOnly ==> d.value.objectType == DirectoryType)
    && SameName(name, CString(d.value.name))
  }

  // The first object of that parent and name.
  function FindChild(disk: Disk, t: Table, parentId: nat, name: string, directoryOnly: bool, j: nat): (r: Option<nat>)
    ensures r.Some? ==>
      j <= r.value < t.count && Matches(ReadDescriptor(disk, t, r.value), parentId, name, directoryOnly)
    ensures r.Some? ==>
      forall i :: j <= i < r.value ==> !Matches(ReadDescriptor(disk, t, i), parentId, name, directoryOnly)
    ensures r.None? ==>
      forall i :: j <= i < t.count ==> !Matches(ReadDescriptor(disk, t, i), parentId, name, directoryOnly)
    decreases t.count - j
  {
    if j >= t.count then None
    else if Matches(ReadDescriptor(disk, t, j), parentId, name, directoryOnly) then Some(j)
    else FindChild(disk, t, parentId, name, directoryOnly, j + 1)
  }

  method SearchTable(disk: Disk, t: Table, parentId: nat, name: string, directoryOnly: bool) returns (r: Option<nat>)
    ensures r == FindChild(disk, t, parentId, name, directoryOnly, 0)
  {
    var j := 0;
    while j < t.count
      invariant j <= t.count
      invariant FindChild(disk, t, parentId, name, directoryOnly, 0)
        == FindChild(disk, t, parentId, name, directoryOnly, j)
    {
      var d := ReadDescriptor(disk, t, j);
      if d.Some? && d.value.parentId == parentId && (directoryOnly ==> d.value.objectType == DirectoryType) {
        var equal := Equals(name, CString(d.value.name));
        if equal {
          return Some(j);
        }
      }
      j := j + 1;
    }
    r := None;
  }

  // The directory that a sequence of names leads to.  Once a name has been found, one that is
  // missing later is passed over.
  function FindParent(disk: Disk, t: Table, names: seq<string>, parentId: nat, found: bool): Option<nat>
    decreases |names|
  {
    if names == [] then Some(parentId)
    else
      match FindChild(disk, t, parentId, names[0], false, 0)
      case Some(j) => FindParent(disk, t, names[1..], ReadDescriptor(disk, t, j).value.id, true)
      case None => if found then FindParent(disk, t, names[1..], parentId, true) else None
  }

  method WalkNames(disk: Disk, t: Table, names: seq<string>) returns (r: Option<nat>)
    ensures r == FindParent(disk, t, names, 0, false)
  {
    var parentId, objectFound := 0, false;
    assert names[0..] == names;
    for i := 0 to |names|
      invariant FindParent(disk, t, names, 0, false) == FindParent(disk, t, names[i..], parentId, objectFound)
    {
      var j := SearchTable(disk, t, parentId, names[i], false);
      assert names[i..][1..] == names[i + 1..];
      if j.Some? {
        objectFound := true;
        parentId := ReadDescriptor(disk, t, j.value).value.id;
      }
      if !objectFound {
        return None;
      }
    }
    r := Some(parentId);
  }

  // ---- paths ----

  datatype Location =
    | Missing
    | Root(partitions: nat)
    | Top(partition: nat, table: Table)
    | Object(partition: nat, table: Table, index: nat)

  function TableOf(disk: Disk, h: FsHeader, i: nat): Option<Table> {
    match GetPartitionHeader(disk, i)
    case None => None
    case Some(p) =>
      match PartitionLba(h, i)
      case None => None
      case Some(lba) => Some(Table(lba + 1, p.entriesCount))
  }

  // Partitions whose header can be read.
  function ReadablePartitions(disk: Disk, h: FsHeader, i: nat): nat
    decreases h.partitionsCount - i
  {
    if i >= h.partitionsCount then 0
    else (if GetPartitionHeader(disk, i).Some? then 1 else 0) + ReadablePartitions(disk, h, i + 1)
  }

  // They, from the `i`th on.
  ghost function Readable(disk: Disk, h: FsHeader, i: nat): set<nat> {
    set k: nat | i <= k < h.partitionsCount && GetPartitionHeader(disk, k).Some?
  }

  lemma ReadableStep(disk: Disk, h: FsHeader, i: nat)
    ensures i >= h.partitionsCount ==> Readable(disk, h, i) == {}
    ensures i < h.partitionsCount ==>
      && i !in Readable(disk, h, i + 1)
      && Readable(disk, h, i) == Readable(disk, h, i + 1) + if GetPartitionHeader(disk, i).Some? then {i} else {}
  {
  }

  lemma {:induction false} ReadablePartitionsAre(disk: Disk, h: FsHeader, i: nat)
    ensures ReadablePartitions(disk, h, i) == |Readable(disk, h, i)|
    decreases h.partitionsCount - i
  {
    hide Readable, GetPartitionHeader;
    ReadableStep(disk, h, i);
    if i < h.partitionsCount {
      ReadablePartitionsAre(disk, h, i + 1);
    }
  }

  // What a path of these names leads to.
  function Locate(disk: Disk, names: seq<string>, directoryOnly: bool): Location {
    match GetFsHeader(disk)
    case None => Missing
    case Some(h) =>
      if names == [] then Root(ReadablePartitions(disk, h, 0))
      else
        match FindPartition(disk, h, names[0], 0)
        case None => Missing
        case Some(i) =>
          match TableOf(disk, h, i)
          case None => Missing
          case Some(t) =>
            if |names| == 1 then Top(i, t)
            else
              match LocateObject(disk, t, names[1..], directoryOnly)
              case None => Missing
              case Some(j) => Object(i, t, j)
  }

  function LocateObject(disk: Disk, t: Table, names: seq<string>, directoryOnly: bool): Option<nat>
    requires names != []
  {
    match FindParent(disk, t, names[..|names| - 1], 0, false)
    case None => None
    case Some(parentId) => FindChild(disk, t, parentId, names[|names| - 1], directoryOnly, 0)
  }

  // The names in a path.
  method PathNames(path: string) returns (names: seq<string>)
    ensures names == NamesOf(path)
  {
    var parts := Split(path, '/');
    PartsInBounds(path, '/', Leading(path, '/'));
    names := [];
    for i := 0 to |parts|
      invariant |names| == i && forall k :: 0 <= k < i ==>
        names[k] == GetSubString(path, parts[k].startOffset, parts[k].length)
    {
      names := names + [GetSubString(path, parts[i].startOffset, parts[i].length)];
    }
  }

  function NamesOf(path: string): seq<string> {
    PartsInBounds(path, '/', Leading(path, '/'));
    Texts(path, Parts(path, '/', Leading(path, '/')))
  }

  // An empty part between two delimiters stands for all of the path behind it.
  lemma NameAt(path: string, i: nat)
    ensures |NamesOf(path)| == |Parts(path, '/', Leading(path, '/'))|
    ensures i < |NamesOf(path)| ==>
      var part := Parts(path, '/', Leading(path, '/'))[i];
      && part.startOffset + part.length <= |path|
      && NamesOf(path)[i]
         == path[part.startOffset..if part.length == 0 then |path| else part.startOffset + part.length]
  {
    PartsInBounds(path, '/', Leading(path, '/'));
  }

  // The search that every operation on a path begins with.
  method Find(disk: Disk, path: string, directoryOnly: bool) returns (r: Location)
    ensures r == Locate(disk, NamesOf(path), directoryOnly)
  {
    hide NamesOf, FindPartition, FindParent, FindChild;
    var h := GetFsHeader(disk);
    if h.None? {
      return Missing;
    }
    var names := PathNames(path);
    if names == [] {
      var count := CountPartitions(disk, h.value);
      return Root(count);
    }
    var i := GetPartitionIndex(disk, h.value, names[0]);
    if i.None? {
      return Missing;
    }
    var t := TableOf(disk, h.value, i.value);
    if t.None? {
      return Missing;
    }
    if |names| == 1 {
      return Top(i.value, t.value);
    }
    var rest := names[1..];
    var parentId := WalkNames(disk, t.value, rest[..|rest| - 1]);
    if parentId.None? {
      return Missing;
    }
    var j := SearchTable(disk, t.value, parentId.value, rest[|rest| - 1], directoryOnly);
    r := if j.None? then Missing else Object(i.value, t.value, j.value);
  }

  method CountPartitions(disk: Disk, h: FsHeader) returns (count: nat)
    ensures count == ReadablePartitions(disk, h, 0)
  {
    count := 0;
    for i := 0 to h.partitionsCount
      invariant count + ReadablePartitions(disk, h, i) == ReadablePartitions(disk, h, 0)
    {
      if GetPartitionHeader(disk, i).Some? {
        count := count + 1;
      }
    }
  }

  // The objects of a partition that name `id` as their parent, from the `j`th on, in order.
  function Children(disk: Disk, t: Table, id: nat, j: nat): (r: seq<nat>)
    ensures forall i :: 0 <= i < |r| ==> j <= r[i] < t.count
    decreases t.count - j
  {
    if j >= t.count then []
    else if IsChild(disk, t, id, j) then [j] + Children(disk, t, id, j + 1)
    else Children(disk, t, id, j + 1)
  }

  predicate IsChild(disk: Disk, t: Table, id: nat, j: nat) {
    var d := ReadDescriptor(disk, t, j);
    d.Some? && d.value.parentId == id
  }

  method CountTop(disk: Disk, t: Table) returns (count: nat)
    ensures count == |Children(disk, t, 0, 0)|
  {
    count := 0;
    for j := 0 to t.count
      invariant count + |Children(disk, t, 0, j)| == |Children(disk, t, 0, 0)|
    {
      var d := ReadDescriptor(disk, t, j);
      if d.Some? && d.value.parentId == 0 {
        count := count + 1;
      }
    }
  }

  // What GetObjectDescriptor fills in.
  datatype Description =
    | NotFound
    | RootDirectory(partitions: nat)
    | PartitionDirectory(name: string, objects: nat)
    | Described(descriptor: ObjectDescriptor)

  predicate Describes(disk: Disk, where: Location, r: Description) {
    match where
    case Missing => r == NotFound
    case Root(n) => r == RootDirectory(n)
    case Top(i, t) =>
      && GetPartitionHeader(disk, i).Some?
      && r == PartitionDirectory(HeaderName(GetPartitionHeader(disk, i).value), |Children(disk, t, 0, 0)|)
    case Object(_, t, j) => ReadDescriptor(disk, t, j).Some? && r == Described(ReadDescriptor(disk, t, j).value)
  }

  method GetObjectDescriptor(disk: Disk, path: string) returns (r: Description)
    ensures Describes(disk, Locate(disk, NamesOf(path), false), r)
  {
    hide NamesOf, FindPartition, FindParent, Children;
    var where := Find(disk, path, false);
    match where {
      case Missing => r := NotFound;
      case Root(n) => r := RootDirectory(n);
      case Top(i, t) =>
        LocatedHasHeader(disk, NamesOf(path), false);
        var count := CountTop(disk, t);
        r := PartitionDirectory(HeaderName(GetPartitionHeader(disk, i).value), count);
      case Object(_, t, j) =>
        LocatedIsReadable(disk, NamesOf(path), false);
        r := Described(ReadDescriptor(disk, t, j).value);
    }
  }

  lemma LocatedHasHeader(disk: Disk, names: seq<string>, directoryOnly: bool)
    requires Locate(disk, names, directoryOnly).Top?
    ensures
      var where := Locate(disk, names, directoryOnly);
      && GetPartitionHeader(disk, where.partition).Some?
      && GetFsHeader(disk).Some? && TableOf(disk, GetFsHeader(disk).value, where.partition) == Some(where.table)
  {
  }

  lemma LocatedIsReadable(disk: Disk, names: seq<string>, directoryOnly: bool)
    requires Locate(disk, names, directoryOnly).Object?
    ensures
      var where := Locate(disk, names, directoryOnly);
      && where.index < where.table.count && ReadDescriptor(disk, where.table, where.index).Some?
      && (directoryOnly ==> ReadDescriptor(disk, where.table, where.index).value.objectType == DirectoryType)
      && GetFsHeader(disk).Some? && TableOf(disk, GetFsHeader(disk).value, where.partition) == Some(where.table)
  {
  }

  // ---- reading a file ----

  // The sector of the chunk that is `n` links further.
  function Follow(disk: Disk, lba: int, n: nat): Option<int>
    decreases n
  {
    if n == 0 then Some(lba)
    else
      match disk.Read(lba)
      case None => None
      case Some(s) => Follow(disk, lba + disk.asChunk(s).nextOffset, n - 1)
  }

  // What is copied for `bytesCount` bytes from a chunk on.  The first chunk is entered at
  // `offset`: that shortens what is copied from it, but the copy always starts with its first
  // byte.  Whole chunks are copied, so there may be more than was asked for.
  function Chain(disk: Disk, lba: int, offset: nat, bytesCount: nat): (r: Option<seq<Byte>>)
    requires offset < 504 && disk.Faithful()
    decreases bytesCount
  {
    if bytesCount == 0 then Some([])
    else
      match disk.Read(lba)
      case None => None
      case Some(s) =>
        var chunk := disk.asChunk(s);
        var length := 504 - offset;
        match Chain(disk, lba + chunk.nextOffset, 0, if bytesCount > length then bytesCount - length else 0)
        case None => None
        case Some(rest) => Some(chunk.data[..length] + rest)
  }

  // Zero asks for as many bytes as the file has.
  function Wanted(size: nat, bytesCount: nat): nat {
    if bytesCount == 0 then size else bytesCount
  }

  // How many bytes a request for `bytesCount` bytes at `offset` is for, in 64 bits.
  function Clip(size: nat, offset: nat, bytesCount: nat): nat {
    var end := (offset + Wanted(size, bytesCount)) % 0x1_0000_0000_0000_0000;
    if end > size then (size - offset) % 0x1_0000_0000_0000_0000 else Wanted(size, bytesCount)
  }

  // What ReadFile copies from the file with the given descriptor.  The chunk where the copying
  // starts is found with the lower 32 bits of the offset.
  function FileBytes(disk: Disk, lba: int, d: ObjectDescriptor, offset: nat, bytesCount: nat): Option<seq<Byte>>
    requires disk.Faithful()
  {
    var at := offset % 0x1_0000_0000;
    if at / 504 >= d.takenSectors then None
    else
      match Follow(disk, lba + d.firstDataChunkOffset, at / 504)
      case None => None
      case Some(start) => Chain(disk, start, at % 504, Clip(d.unalignedSize, offset, bytesCount))
  }

  // Only an object can be read, and what is read are the bytes of its chunks.
  ghost predicate Delivers(disk: Disk, where: Location, offset: nat, bytesCount: nat, ok: bool, buffer: seq<Byte>)
    requires disk.Faithful()
  {
    match where
    case Object(_, t, j) =>
      && ReadDescriptor(disk, t, j).Some?
      && var bytes := FileBytes(disk, t.first + j, ReadDescriptor(disk, t, j).value, offset, bytesCount);
         ok == bytes.Some? && (ok ==> buffer == bytes.value)
    case _ => !ok && buffer == []
  }

  // On failure, part of the buffer may have been written.
  method ReadFile(disk: Disk, path: string, offset: nat, bytesCount: nat) returns (ok: bool, buffer: seq<Byte>)
    requires disk.Faithful() && IsU64(offset) && IsU64(bytesCount)
    ensures Delivers(disk, Locate(disk, NamesOf(path), false), offset, bytesCount, ok, buffer)
  {
    hide NamesOf, FindPartition, FindParent, FindChild, FileBytes;
    buffer := [];
    var where := Find(disk, path, false);
    if !where.Object? {
      return false, [];
    }
    LocatedIsReadable(disk, NamesOf(path), false);
    var d := ReadDescriptor(disk, where.table, where.index).value;
    ok, buffer := ReadObject(disk, where.table.first + where.index, d, offset, bytesCount);
  }

  // The part of ReadFile behind the search.
  method ReadObject(disk: Disk, lba: int, d: ObjectDescriptor, offset: nat, bytesCount: nat)
    returns (ok: bool, buffer: seq<Byte>)
    requires disk.Faithful() && IsU64(offset) && IsU64(bytesCount)
    ensures
      var bytes := FileBytes(disk, lba, d, offset, bytesCount);
      ok == bytes.Some? && (ok ==> buffer == bytes.value)
  {
    hide Chain, Follow;
    OffsetInChunk(offset);
    var left := if bytesCount == 0 then d.unalignedSize else bytesCount;
    if (offset + left) % 0x1_0000_0000_0000_0000 > d.unalignedSize {
      left := (d.unalignedSize - offset) % 0x1_0000_0000_0000_0000;
    }
    var startDataChunkIndex := offset % 0x1_0000_0000 / 504;
    if startDataChunkIndex >= d.takenSectors {
      return false, [];
    }
    var start := SkipChunks(disk, lba + d.firstDataChunkOffset, startDataChunkIndex);
    if start.None? {
      return false, [];
    }
    ok, buffer := CopyChunks(disk, start.value, (offset - startDataChunkIndex * 504) % 0x1_0000_0000, left);
  }

  lemma OffsetInChunk(offset: nat)
    ensures (offset - offset % 0x1_0000_0000 / 504 * 504) % 0x1_0000_0000 == offset % 0x1_0000_0000 % 504
  {
    var at := offset % 0x1_0000_0000;
    assert at - at / 504 * 504 == at % 504;
    assert offset - at / 504 * 504 == offset / 0x1_0000_0000 * 0x1_0000_0000 + at % 504;
  }

  method SkipChunks(disk: Disk, first: int, count: nat) returns (r: Option<int>)
    ensures r == Follow(disk, first, count)
  {
    var dataChunkLba := first;
    for i := 0 to count
      invariant Follow(disk, first, count) == Follow(disk, dataChunkLba, count - i)
    {
      var s := disk.Read(dataChunkLba);
      if s.None? {
        return None;
      }
      dataChunkLba := dataChunkLba + disk.asChunk(s.value).nextOffset;
    }
    r := Some(dataChunkLba);
  }

  lemma ChunkHasData(disk: Disk, s: Sector)
    requires disk.Faithful()
    ensures |disk.asChunk(s).data| == 504
  {
  }

  lemma ChainOf(disk: Disk, lba: int, offset: nat, left: nat, s: Sector, length: nat, next: int, rest: nat)
    requires disk.Faithful() && offset < 504 && left > 0 && disk.Read(lba) == Some(s)
    requires length == 504 - offset && |disk.asChunk(s).data| == 504 && next == lba + disk.asChunk(s).nextOffset
    requires rest == if left > length then left - length else 0
    ensures
      var r := Chain(disk, next, 0, rest);
      Chain(disk, lba, offset, left) == if r.None? then None else Some(disk.asChunk(s).data[..length] + r.value)
  {
  }

  lemma ChainEnds(disk: Disk, lba: int, offset: nat, left: nat)
    requires disk.Faithful() && offset < 504
    ensures left == 0 ==> Chain(disk, lba, offset, left) == Some([])
    ensures left > 0 && disk.Read(lba).None? ==> Chain(disk, lba, offset, left).None?
  {
  }

  // What is left to copy completes what has been copied to the whole.
  ghost predicate Completes(whole: Option<seq<Byte>>, done: seq<Byte>, left: Option<seq<Byte>>) {
    whole.Some? == left.Some? && (whole.Some? ==> whole.value == done + left.value)
  }

  lemma CompletesStep(whole: Option<seq<Byte>>, done: seq<Byte>, left: Option<seq<Byte>>, more: seq<Byte>,
                      rest: Option<seq<Byte>>)
    requires Completes(whole, done, left) && left == if rest.None? then None else Some(more + rest.value)
    ensures Completes(whole, done + more, rest)
  {
    if rest.Some? {
      assert done + (more + rest.value) == done + more + rest.value;
    }
  }

  lemma CompletesStart(whole: Option<seq<Byte>>)
    ensures Completes(whole, [], whole)
  {
    if whole.Some? {
      assert [] + whole.value == whole.value;
    }
  }

  method CopyChunks(disk: Disk, first: int, firstOffset: nat, bytesCount: nat) returns (ok: bool, buffer: seq<Byte>)
    requires disk.Faithful() && firstOffset < 504
    ensures ok == Chain(disk, first, firstOffset, bytesCount).Some?
    ensures ok ==> buffer == Chain(disk, first, firstOffset, bytesCount).value
  {
    hide Chain, Completes, Disk.Faithful;
    buffer := [];
    var dataChunkLba, offset: nat, left: nat := first, firstOffset, bytesCount;
    ghost var whole := Chain(disk, first, firstOffset, bytesCount);
    CompletesStart(whole);
    while left > 0
      invariant offset < 504 && Completes(whole, buffer, Chain(disk, dataChunkLba, offset, left))
    {
      var s := disk.Read(dataChunkLba);
      if s.None? {
        ChainEnds(disk, dataChunkLba, offset, left);
        Completed(whole, buffer, None);
        return false, buffer;
      }
      var chunk := disk.asChunk(s.value);
      ChunkHasData(disk, s.value);
      var lenValue := 504 - offset;
      ghost var before, copied, here, at, was := buffer, chunk.data[..lenValue], dataChunkLba, offset, left;
      buffer := buffer + chunk.data[..lenValue];
      left := if left > lenValue then left - lenValue else 0;
      dataChunkLba := dataChunkLba + chunk.nextOffset;
      offset := 0;
      ChainOf(disk, here, at, was, s.value, lenValue, dataChunkLba, left);
      CompletesStep(whole, before, Chain(disk, here, at, was), copied, Chain(disk, dataChunkLba, 0, left));
    }
    ok := true;
    ChainEnds(disk, dataChunkLba, offset, left);
    Completed(whole, buffer, Some([]));
  }

  lemma Completed(whole: Option<seq<Byte>>, done: seq<Byte>, left: Option<seq<Byte>>)
    requires Completes(whole, done, left)
    ensures left.None? ==> whole.None?
    ensures left == Some([]) ==> whole == Some(done)
  {
    if left == Some([]) {
      assert done + [] == done;
    }
  }
}
