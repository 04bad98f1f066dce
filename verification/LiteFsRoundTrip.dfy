/** What the kernel reads is what the host has written. */
module LiteFsRoundTrip {
  import opened Options
  import opened LiteFsFormat
  import opened LiteFsWriter
  import opened LiteFsReader

  // ---- the data of a file ----

  // The chunks of `file` start at sector `start`.
  ghost predicate HasChunks(disk: Disk, start: nat, file: seq<Byte>) {
    forall c :: 0 <= c < TakenSectors(|file|) ==> ChunkAt(disk, start, file, c)
  }

  ghost predicate ChunkAt(disk: Disk, start: nat, file: seq<Byte>, c: int) {
    0 <= c && disk.Read(start + c).Some? && IsChunk(file, c, disk.asChunk(disk.Read(start + c).value))
  }

  // Byte `x` of what is copied for a request at `offset`.
  function Copied(file: seq<Byte>, offset: nat, x: nat): Byte {
    var at := offset % 0x1_0000_0000;
    Padded(file, if x < 504 - at % 504 then at - at % 504 + x else at + x)
  }

  lemma {:induction false} FollowChunks(disk: Disk, start: nat, file: seq<Byte>, c: nat, n: nat)
    requires HasChunks(disk, start, file) && (c + n) * 504 <= |file|
    ensures Follow(disk, start + c, n) == Some(start + c + n)
    decreases n
  {
    if n > 0 {
      ChunksHoldTheFile(|file|);
      assert ChunkAt(disk, start, file, c);
      FollowChunks(disk, start, file, c + 1, n - 1);
    }
  }

  lemma {:induction false} ChainCopies(disk: Disk, start: nat, file: seq<Byte>, c: nat, offset: nat, bytesCount: nat)
    requires disk.Faithful() && HasChunks(disk, start, file) && offset < 504
    requires c * 504 + offset + bytesCount <= |file|
    ensures
      var r := Chain(disk, start + c, offset, bytesCount);
      && r.Some? && |r.value| == (if bytesCount == 0 then 0 else (offset + bytesCount + 503) / 504 * 504 - offset)
      && forall x :: 0 <= x < |r.value| ==>
           r.value[x] == Padded(file, c * 504 + (if x < 504 - offset then x else offset + x))
    decreases bytesCount
  {
    if bytesCount > 0 {
      ChunksHoldTheFile(|file|);
      assert ChunkAt(disk, start, file, c);
      WholeChunks(offset, bytesCount);
      if bytesCount > 504 - offset {
        ChainCopies(disk, start, file, c + 1, 0, bytesCount - (504 - offset));
      }
    }
  }

  lemma WholeChunks(offset: nat, bytesCount: nat)
    requires offset < 504 && bytesCount > 0
    ensures bytesCount <= 504 - offset ==> (offset + bytesCount + 503) / 504 == 1
    ensures bytesCount > 504 - offset ==>
      (offset + bytesCount + 503) / 504 == 1 + (bytesCount - (504 - offset) + 503) / 504
  {
  }

  // What is asked for lies within the file exactly if its end, before it is cut, does not wrap.  It
  // is then all that the file has from the offset on, or the number of bytes given.
  lemma ClippedInsideIff(size: nat, offset: nat, bytesCount: nat)
    requires IsU64(size) && IsU64(offset) && IsU64(bytesCount)
    ensures offset + Clip(size, offset, bytesCount) <= size
      <==> offset <= size && IsU64(offset + if bytesCount == 0 then size else bytesCount)
    ensures offset + Clip(size, offset, bytesCount) <= size ==>
      Clip(size, offset, bytesCount)
        == if bytesCount == 0 || offset + bytesCount > size then size - offset else bytesCount
  {
  }

  // The reader copies `Copied`, and as many bytes as whole chunks have, to the last one asked for.
  lemma FileBytesAreCopied(disk: Disk, lba: int, d: ObjectDescriptor, file: seq<Byte>, offset: nat, bytesCount: nat)
    requires disk.Faithful() && 0 <= lba + d.firstDataChunkOffset
    requires HasChunks(disk, lba + d.firstDataChunkOffset, file)
    requires d.unalignedSize == |file| && d.takenSectors == TakenSectors(|file|)
    requires offset + Clip(|file|, offset, bytesCount) <= |file|
    ensures
      var n, r := Clip(|file|, offset, bytesCount), FileBytes(disk, lba, d, offset, bytesCount);
      && r.Some? && n <= |r.value|
      && (offset % 504 == 0 && offset < 0x1_0000_0000 ==> |r.value| == (n + 503) / 504 * 504)
      && forall x :: 0 <= x < |r.value| ==> r.value[x] == Copied(file, offset, x)
  {
    hide Clip, Chain, Follow, HasChunks, Disk.Faithful, Padded, TakenSectors, Copied;
    var at, n := offset % 0x1_0000_0000, Clip(|file|, offset, bytesCount);
    assert at <= offset && at == at / 504 * 504 + at % 504;
    ChunksHoldTheFile(|file|);
    FollowChunks(disk, lba + d.firstDataChunkOffset, file, 0, at / 504);
    ChainCopies(disk, lba + d.firstDataChunkOffset, file, at / 504, at % 504, n);
    forall x: nat
      ensures Copied(file, offset, x) == Padded(file, at / 504 * 504 + if x < 504 - at % 504 then x else at % 504 + x)
    {
      CopiedAt(file, offset, x);
    }
  }

  lemma CopiedAt(file: seq<Byte>, offset: nat, x: nat)
    ensures
      var at := offset % 0x1_0000_0000;
      Copied(file, offset, x) == Padded(file, at / 504 * 504 + if x < 504 - at % 504 then x else at % 504 + x)
  {
    hide Padded;
    var at := offset % 0x1_0000_0000;
    assert at == at / 504 * 504 + at % 504;
  }

  // That is the file's contents, for all files of a size, exactly when the offset is that of a chunk
  // and has 32 bits.
  lemma OffsetWorksIff(size: nat, offset: nat, n: nat)
    requires offset + n <= size
    ensures
      (forall file: seq<Byte> :: |file| == size ==>
        forall x :: 0 <= x < n ==> Copied(file, offset, x) == file[offset + x])
      <==> (offset % 504 == 0 && offset < 0x1_0000_0000) || n == 0
  {
    if (offset % 504 != 0 || offset >= 0x1_0000_0000) && n > 0 {
      var file: seq<Byte> := seq(size, i => if i == offset then 1 else 0);
      assert |file| == size && Copied(file, offset, 0) == 0 && file[offset + 0] == 1;
    }
  }

  // ---- a partition on a disk ----

  // Names are short enough, and numbers are those of the host's 64-bit fields.
  ghost predicate FieldsFit(name: string, objects: seq<FileSystemObject>, attributes: nat) {
    && |name| < 0x20 && '\0' !in name && IsU64(attributes)
    && forall k :: 0 <= k < |objects| ==> ObjectFits(objects[k])
  }

  ghost predicate ObjectFits(o: FileSystemObject) {
    && |o.name| < 0x100 && '\0' !in o.name
    && IsU64(o.id) && IsU64(o.parentId) && IsU64(o.fileSize)
  }

  // Partition `i` of the disk holds the image that was generated for the objects.
  ghost predicate Mounted(disk: Disk, i: nat, name: string, objects: seq<FileSystemObject>, attributes: nat,
                          image: seq<Sector>) {
    && disk.Faithful() && GetFsHeader(disk).Some?
    && PartitionLba(GetFsHeader(disk).value, i).Some? && Base(disk, i) >= 0
    && Placed(disk, Base(disk, i), image) && IsPartition(image, name, objects, attributes)
    && (forall k :: 0 <= k < |objects| ==> WellSized(objects[k]))
    && FieldsFit(name, objects, attributes)
  }

  // Its first sector.
  function Base(disk: Disk, i: nat): int
    requires GetFsHeader(disk).Some? && PartitionLba(GetFsHeader(disk).value, i).Some?
  {
    1 + GetFsHeader(disk).value.partitions[i]
  }

  lemma ReadPlaced(disk: Disk, base: nat, image: seq<Sector>, i: nat)
    requires disk.Faithful() && Placed(disk, base, image) && i < |image|
    ensures disk.Read(base + i) == Some(image[i])
  {
    assert disk.sectors[base + i] == image[i];
  }

  lemma MountedTable(disk: Disk, i: nat, name: string, objects: seq<FileSystemObject>, attributes: nat,
                     image: seq<Sector>)
    requires Mounted(disk, i, name, objects, attributes, image)
    ensures TableOf(disk, GetFsHeader(disk).value, i) == Some(Table(Base(disk, i) + 1, |objects|))
    ensures GetPartitionHeader(disk, i).Some? && HeaderName(GetPartitionHeader(disk, i).value) == name
  {
    ReadPlaced(disk, Base(disk, i), image, 0);
    PartitionNameKeptIff(name, |objects|);
  }

  lemma MountedDescriptor(disk: Disk, i: nat, name: string, objects: seq<FileSystemObject>, attributes: nat,
                          image: seq<Sector>, k: nat)
    requires Mounted(disk, i, name, objects, attributes, image) && k < |objects|
    ensures ReadDescriptor(disk, Table(Base(disk, i) + 1, |objects|), k) == Some(DescriptorFor(objects, k, attributes))
    ensures CString(DescriptorFor(objects, k, attributes).name) == objects[k].name
  {
    ReadPlaced(disk, Base(disk, i), image, k + 1);
    assert ObjectFits(objects[k]);
    EntryNameKeptIff(objects[k].name);
    DescriptorFits(objects, k, attributes, |image|);
  }

  // What the host writes fits its fields.
  lemma DescriptorFits(objects: seq<FileSystemObject>, k: nat, attributes: nat, size: nat)
    requires k < |objects| && ObjectFits(objects[k]) && IsU64(attributes)
    requires ChunkStart(objects, |objects|) <= size <= 0x1_0000_0000
    ensures DescriptorFor(objects, k, attributes).Fits()
  {
    ChunkStartMonotone(objects, 0, k);
    ChunkStartMonotone(objects, k + 1, |objects|);
  }

  lemma MountedFile(disk: Disk, i: nat, name: string, objects: seq<FileSystemObject>, attributes: nat,
                    image: seq<Sector>, k: nat)
    requires Mounted(disk, i, name, objects, attributes, image) && k < |objects| && !objects[k].directory
    ensures
      var d := DescriptorFor(objects, k, attributes);
      var lba := Base(disk, i) + 1 + k;
      && d.unalignedSize == |objects[k].data| && d.takenSectors == TakenSectors(|objects[k].data|)
      && 0 <= lba + d.firstDataChunkOffset && HasChunks(disk, lba + d.firstDataChunkOffset, objects[k].data)
  {
    var file, start := objects[k].data, ChunkStart(objects, k);
    assert WellSized(objects[k]) && HasFile(image, objects, k);
    var first := Base(disk, i) + start;
    forall c | 0 <= c < TakenSectors(|file|) ensures ChunkAt(disk, first, file, c) {
      assert HasChunk(image, start, file, c);
      ReadPlaced(disk, Base(disk, i), image, start + c);
    }
  }

  // A file on a disk is shorter than 2^41 bytes.
  lemma MountedSize(disk: Disk, i: nat, name: string, objects: seq<FileSystemObject>, attributes: nat,
                    image: seq<Sector>, k: nat)
    requires Mounted(disk, i, name, objects, attributes, image) && k < |objects| && !objects[k].directory
    ensures |objects[k].data| < 0x200_0000_0000
  {
    assert WellSized(objects[k]) && HasFile(image, objects, k);
    ChunksHoldTheFile(|objects[k].data|);
    ChunkStartMonotone(objects, 0, k);
  }

  // Reading any part of a file from a chunk boundary on gives that part of the file.
  lemma FileRoundTrip(disk: Disk, i: nat, name: string, objects: seq<FileSystemObject>, attributes: nat,
                      image: seq<Sector>, k: nat, offset: nat, bytesCount: nat)
    requires Mounted(disk, i, name, objects, attributes, image) && k < |objects| && !objects[k].directory
    requires offset <= |objects[k].data| && offset % 504 == 0 && offset < 0x1_0000_0000
    requires IsU64(offset + bytesCount)
    ensures DescriptorFor(objects, k, attributes).unalignedSize == |objects[k].data|
    ensures
      var file := objects[k].data;
      var n := if bytesCount == 0 || offset + bytesCount > |file| then |file| - offset else bytesCount;
      var r := FileBytes(disk, Base(disk, i) + 1 + k, DescriptorFor(objects, k, attributes), offset, bytesCount);
      && r.Some? && |r.value| == (n + 503) / 504 * 504 && r.value[..n] == file[offset..offset + n]
      && forall x :: 0 <= x < |r.value| ==> r.value[x] == if offset + x < |file| then file[offset + x] else 0
  {
    hide Mounted, FileBytes, HasChunks, Copied, Clip, DescriptorFor;
    var d := DescriptorFor(objects, k, attributes);
    FaithfulWhenMounted(disk, i, name, objects, attributes, image);
    MountedFile(disk, i, name, objects, attributes, image, k);
    MountedSize(disk, i, name, objects, attributes, image, k);
    ClippedInsideIff(|objects[k].data|, offset, bytesCount);
    FileBytesAreCopied(disk, Base(disk, i) + 1 + k, d, objects[k].data, offset, bytesCount);
    CopiedFromBoundary(objects[k].data, offset);
  }

  lemma CopiedFromBoundary(file: seq<Byte>, offset: nat)
    requires offset % 504 == 0 && offset < 0x1_0000_0000
    ensures forall x: nat :: Copied(file, offset, x) == if offset + x < |file| then file[offset + x] else 0
  {
  }

  lemma FaithfulWhenMounted(disk: Disk, i: nat, name: string, objects: seq<FileSystemObject>, attributes: nat,
                            image: seq<Sector>)
    requires Mounted(disk, i, name, objects, attributes, image)
    ensures disk.Faithful() && GetFsHeader(disk).Some? && PartitionLba(GetFsHeader(disk).value, i).Some?
  {
  }
}
