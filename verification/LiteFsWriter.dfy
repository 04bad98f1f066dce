/** The host-side generator of partition images (utils/lite-fs/source/lite-fs.cxx:115-213, 237-251). */
module LiteFsWriter {
  import opened LiteFsFormat

  datatype FileSystemObject = FileSystemObject(
    id: nat, parentId: nat, name: string, data: seq<Byte>, fileSize: nat, directory: bool)

  // For a file, the size is that of its data; for a directory, it is the number of its entries.
  predicate WellSized(o: FileSystemObject) {
    o.directory || |o.data| == o.fileSize
  }

  // Always moves to the next multiple; the host's `size_t` does not wrap here.
  function AlignUp(value: nat, alignment: nat): nat
    requires alignment > 0
  {
    value - value % alignment + alignment
  }

  // ---- the layout ----

  // The data sectors of a file: room for its data and eight more bytes, and always one more.
  function TakenSectors(size: nat): nat {
    AlignUp(size + 8, 504) / 504
  }

  function SectorsOf(o: FileSystemObject): nat {
    if o.directory then 0 else TakenSectors(o.fileSize)
  }

  // The sector where the data of object `k` starts: behind the header, the descriptors and one
  // sector that alignment leaves unused.
  function ChunkStart(objects: seq<FileSystemObject>, k: nat): nat
    requires k <= |objects|
  {
    if k == 0 then |objects| + 2 else ChunkStart(objects, k - 1) + SectorsOf(objects[k - 1])
  }

  function Padded(file: seq<Byte>, i: nat): Byte {
    if i < |file| then file[i] else 0
  }

  // Chunk `c` of a file: full chunks lead to the next sector, the others lead nowhere.
  ghost predicate IsChunk(file: seq<Byte>, c: nat, chunk: DataChunk) {
    && |chunk.data| == 504
    && (forall x :: 0 <= x < 504 ==> chunk.data[x] == Padded(file, c * 504 + x))
    && chunk.nextOffset == if (c + 1) * 504 <= |file| then 1 else 0
  }

  function DescriptorFor(objects: seq<FileSystemObject>, k: nat, attributes: nat): ObjectDescriptor
    requires k < |objects|
  {
    var o := objects[k];
    ObjectDescriptor(
      EntryName(o.name), o.id, o.parentId, if o.directory then DirectoryType else FileType, attributes, o.fileSize,
      SectorsOf(o), if o.directory then 0 else ChunkStart(objects, k) - (k + 1))
  }

  // The chunks of object `k` in the image.
  ghost predicate HasFile(image: seq<Sector>, objects: seq<FileSystemObject>, k: nat)
    requires k < |objects|
  {
    !objects[k].directory ==>
      && ChunkStart(objects, k + 1) <= |image|
      && forall c :: 0 <= c < SectorsOf(objects[k]) ==> HasChunk(image, ChunkStart(objects, k), objects[k].data, c)
  }

  ghost predicate HasChunk(image: seq<Sector>, start: nat, file: seq<Byte>, c: int) {
    && 0 <= c && start + c < |image|
    && image[start + c].ChunkSector? && IsChunk(file, c, image[start + c].chunk)
  }

  ghost predicate IsPartition(image: seq<Sector>, name: string, objects: seq<FileSystemObject>, attributes: nat) {
    && |image| == ChunkStart(objects, |objects|)
    && |image| >= |objects| + 2
    && image[0] == HeaderSector(PartitionHeader(PartitionName(name), |objects|, 0, 0))
    && (forall k :: 0 <= k < |objects| ==> image[k + 1] == DescriptorSector(DescriptorFor(objects, k, attributes)))
    && (forall k :: 0 <= k < |objects| ==> HasFile(image, objects, k))
  }

  lemma {:induction false} ChunkStartMonotone(objects: seq<FileSystemObject>, i: nat, k: nat)
    requires i <= k <= |objects|
    ensures |objects| + 2 <= ChunkStart(objects, i) <= ChunkStart(objects, k)
    decreases k
  {
    if i < k {
      ChunkStartMonotone(objects, i, k - 1);
    } else if k > 0 {
      ChunkStartMonotone(objects, k - 1, k - 1);
    }
  }

  // The data of different files is in different sectors.
  lemma ChunkRunsAreDisjoint(objects: seq<FileSystemObject>, i: nat, k: nat, c: nat, e: nat)
    requires i < |objects| && k < |objects| && i != k
    requires c < SectorsOf(objects[i]) && e < SectorsOf(objects[k])
    ensures ChunkStart(objects, i) + c != ChunkStart(objects, k) + e
    ensures |objects| + 2 <= ChunkStart(objects, i) + c < ChunkStart(objects, |objects|)
  {
    ChunkStartMonotone(objects, i + 1, |objects|);
    ChunkStartMonotone(objects, 0, i);
    if i < k {
      ChunkStartMonotone(objects, i + 1, k);
    } else {
      ChunkStartMonotone(objects, k + 1, i);
    }
  }

  // Every byte of a file has a chunk, and the chunk after the last byte ends the chain.
  lemma ChunksHoldTheFile(size: nat)
    ensures TakenSectors(size) == (size + 8) / 504 + 1
    ensures size / 504 < TakenSectors(size) <= size / 504 + 2
  {
  }

  // ---- the writer ----

  // A bigger array with the old contents; the rest is whatever was behind the old array.
  method ReallocateArray(memory: seq<Sector>, newSize: nat) returns (r: seq<Sector>)
    requires |memory| <= newSize
    ensures |r| == newSize && memory <= r
  {
    ghost var blank := seq(newSize - |memory|, _ => OtherSector);
    assert |memory + blank| == newSize && memory <= memory + blank;
    r :| |r| == newSize && memory <= r;
  }

  // The state of the loop over the objects: the first `k` are written.
  ghost predicate Written(image: seq<Sector>, name: string, objects: seq<FileSystemObject>, attributes: nat, k: nat)
    requires k <= |objects|
  {
    && |image| == ChunkStart(objects, k) && |image| >= |objects| + 2
    && image[0] == HeaderSector(PartitionHeader(PartitionName(name), |objects|, 0, 0))
    && (forall i :: 0 <= i < k ==> image[i + 1] == DescriptorSector(DescriptorFor(objects, i, attributes)))
    && (forall i :: 0 <= i < k ==> HasFile(image, objects, i))
  }

  lemma WrittenStep(image: seq<Sector>, next: seq<Sector>, name: string, objects: seq<FileSystemObject>,
                    attributes: nat, k: nat)
    requires k < |objects| && Written(image, name, objects, attributes, k)
    requires |next| == ChunkStart(objects, k + 1) && |image| <= |next|
    requires forall j :: 0 <= j < |image| && j != k + 1 ==> next[j] == image[j]
    requires next[k + 1] == DescriptorSector(DescriptorFor(objects, k, attributes))
    requires HasFile(next, objects, k)
    ensures Written(next, name, objects, attributes, k + 1)
  {
    hide IsChunk, SectorsOf, DescriptorFor;
    forall i | 0 <= i < k + 1 ensures HasFile(next, objects, i) {
      if i < k {
        FileKept(image, next, objects, i, k);
      }
    }
  }

  lemma FileKept(image: seq<Sector>, next: seq<Sector>, objects: seq<FileSystemObject>, i: nat, k: nat)
    requires i < k < |objects| && HasFile(image, objects, i) && |image| <= |next|
    requires forall j :: 0 <= j < |image| && j != k + 1 ==> next[j] == image[j]
    ensures HasFile(next, objects, i)
  {
    hide IsChunk, SectorsOf;
    ChunkStartMonotone(objects, 0, i);
    forall c | 0 <= c < SectorsOf(objects[i]) && !objects[i].directory
      ensures HasChunk(next, ChunkStart(objects, i), objects[i].data, c)
    {
      assert HasChunk(image, ChunkStart(objects, i), objects[i].data, c);
    }
  }

  // Data chunks of one file, from sector `first` on.
  method WriteChunks(image: seq<Sector>, first: nat, file: seq<Byte>, taken: nat) returns (r: seq<Sector>)
    requires taken == TakenSectors(|file|) && |image| == first + taken
    ensures |r| == |image| && r[..first] == image[..first]
    ensures forall c :: 0 <= c < taken ==> HasChunk(r, first, file, c)
  {
    hide TakenSectors, IsChunk;
    r := image;
    var left: nat, at: nat := |file|, 0;
    ghost var past := false;
    for i := 0 to taken
      invariant |r| == |image| && r[..first] == image[..first]
      invariant if past then left == 0 && at == 0 && i * 504 > |file| else at == i * 504 && left == |file| - i * 504
      invariant forall c :: 0 <= c < i ==> HasChunk(r, first, file, c)
    {
      var chunk: DataChunk;
      if left >= 504 {
        chunk := DataChunk(file[at..at + 504], 1);
        FullChunk(file, i, chunk);
        at, left := at + 504, left - 504;
      } else {
        var data := seq(504, x requires 0 <= x < 504 => if x < left then file[at + x] else 0);
        chunk := DataChunk(data, 0);
        LastChunk(file, i, at, left, chunk);
        at, left, past := 0, 0, true;
      }
      assert IsChunk(file, i, chunk);
      ghost var before := r;
      r := r[first + i := ChunkSector(chunk)];
      forall c | 0 <= c < i + 1 ensures HasChunk(r, first, file, c) {
        assert c < i ==> HasChunk(before, first, file, c);
      }
    }
  }

  lemma FullChunk(file: seq<Byte>, i: nat, chunk: DataChunk)
    requires (i + 1) * 504 <= |file| && chunk == DataChunk(file[i * 504..i * 504 + 504], 1)
    ensures IsChunk(file, i, chunk)
  {
  }

  lemma LastChunk(file: seq<Byte>, i: nat, at: nat, left: nat, chunk: DataChunk)
    requires left < 504 && chunk.nextOffset == 0 && |chunk.data| == 504 && at + left <= |file|
    requires forall x :: 0 <= x < 504 ==> chunk.data[x] == if x < left then file[at + x] else 0
    requires (at == i * 504 && left == |file| - at) || (left == 0 && i * 504 > |file|)
    ensures IsChunk(file, i, chunk)
  {
  }

  // The image holds every object: a descriptor each, in order, and the data of the files behind.
  method GeneratePartition(name: string, objects: seq<FileSystemObject>, attributes: nat) returns (data: seq<Sector>)
    requires forall k :: 0 <= k < |objects| ==> WellSized(objects[k])
    ensures IsPartition(data, name, objects, attributes)
  {
    hide TakenSectors, IsChunk, HasFile, Written;
    data := ReallocateArray([], 1);
    data := data[0 := HeaderSector(PartitionHeader(PartitionName(name), |objects|, 0, 0))];
    var descriptorsAlignedSize := AlignUp(|objects| * 0x200, 0x200);
    data := ReallocateArray(data, (0x200 + descriptorsAlignedSize) / 0x200);
    var dataChunkOffset: nat, descriptorOffset: nat := 0x200 + descriptorsAlignedSize, 0x200;
    WrittenStart(data, name, objects, attributes);
    for k := 0 to |objects|
      invariant Written(data, name, objects, attributes, k)
      invariant descriptorsAlignedSize == (|objects| + 1) * 0x200
      invariant dataChunkOffset == ChunkStart(objects, k) * 0x200 && descriptorOffset == (k + 1) * 0x200
    {
      data, dataChunkOffset := WriteObject(data, name, objects, attributes, k, descriptorsAlignedSize,
                                           descriptorOffset, dataChunkOffset);
      descriptorOffset := descriptorOffset + 0x200;
    }
    WrittenEnd(data, name, objects, attributes);
  }

  lemma WrittenStart(image: seq<Sector>, name: string, objects: seq<FileSystemObject>, attributes: nat)
    requires |image| == |objects| + 2 && image[0] == HeaderSector(PartitionHeader(PartitionName(name), |objects|, 0, 0))
    ensures Written(image, name, objects, attributes, 0)
  {
  }

  lemma WrittenEnd(image: seq<Sector>, name: string, objects: seq<FileSystemObject>, attributes: nat)
    requires Written(image, name, objects, attributes, |objects|)
    ensures IsPartition(image, name, objects, attributes)
  {
  }

  lemma WrittenInBounds(image: seq<Sector>, name: string, objects: seq<FileSystemObject>, attributes: nat, k: nat)
    requires k <= |objects| && Written(image, name, objects, attributes, k)
    ensures |image| == ChunkStart(objects, k) && |image| >= |objects| + 2
  {
  }

  lemma NextStart(objects: seq<FileSystemObject>, k: nat)
    requires k < |objects|
    ensures ChunkStart(objects, k + 1) == ChunkStart(objects, k) + SectorsOf(objects[k])
    ensures ChunkStart(objects, k) >= |objects| + 2
  {
    ChunkStartMonotone(objects, 0, k);
  }

  // One round of that loop: the descriptor, and for a file its data.
  method WriteObject(image: seq<Sector>, ghost name: string, objects: seq<FileSystemObject>, attributes: nat, k: nat,
                     descriptorsAlignedSize: nat, descriptorOffset: nat, chunkOffset: nat)
    returns (data: seq<Sector>, dataChunkOffset: nat)
    requires k < |objects| && WellSized(objects[k]) && Written(image, name, objects, attributes, k)
    requires descriptorsAlignedSize == (|objects| + 1) * 0x200 && descriptorOffset == (k + 1) * 0x200
    requires chunkOffset == ChunkStart(objects, k) * 0x200
    ensures Written(data, name, objects, attributes, k + 1) && dataChunkOffset == ChunkStart(objects, k + 1) * 0x200
  {
    hide TakenSectors, IsChunk, HasFile, Written, HasChunk, EntryName, ChunkStart;
    NextStart(objects, k);
    WrittenInBounds(image, name, objects, attributes, k);
    var entry := objects[k];
    var descriptor := ObjectDescriptor(
      EntryName(entry.name), entry.id, entry.parentId, if entry.directory then DirectoryType else FileType,
      attributes, entry.fileSize, 0, 0);
    dataChunkOffset := chunkOffset;
    if entry.directory {
      data := image[descriptorOffset / 0x200 := DescriptorSector(descriptor)];
      DirectoryNeedsNoData(data, objects, k);
    } else {
      var taken := AlignUp(entry.fileSize + 8, 504) / 504;
      var first := (descriptorsAlignedSize - descriptorOffset) / 0x200 + (chunkOffset - descriptorsAlignedSize) / 0x200;
      assert first == ChunkStart(objects, k) - (k + 1);
      descriptor := descriptor.(takenSectors := taken, firstDataChunkOffset := first);
      TakenOf(entry.fileSize);
      data := image[descriptorOffset / 0x200 := DescriptorSector(descriptor)];
      ghost var described := data;
      data := ReallocateArray(data, chunkOffset / 0x200 + taken);
      data := WriteChunks(data, chunkOffset / 0x200, entry.data, taken);
      assert forall j :: 0 <= j < |image| ==> data[j] == data[..|image|][j] == described[j];
      FileIsThere(data, objects, k);
      dataChunkOffset := dataChunkOffset + taken * 0x200;
    }
    WrittenStep(image, data, name, objects, attributes, k);
  }

  lemma TakenOf(size: nat)
    ensures TakenSectors(size) == AlignUp(size + 8, 504) / 504
  {
  }

  lemma DirectoryNeedsNoData(image: seq<Sector>, objects: seq<FileSystemObject>, k: nat)
    requires k < |objects| && objects[k].directory
    ensures HasFile(image, objects, k)
  {
  }

  lemma FileIsThere(image: seq<Sector>, objects: seq<FileSystemObject>, k: nat)
    requires k < |objects| && |image| == ChunkStart(objects, k + 1)
    requires forall c :: 0 <= c < SectorsOf(objects[k]) ==> HasChunk(image, ChunkStart(objects, k), objects[k].data, c)
    ensures HasFile(image, objects, k)
  {
  }
}
