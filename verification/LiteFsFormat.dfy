/**
 The on-disk structures that the LiteFS writer and reader share (library/lite-fs/lite-fs.hxx).

 Every structure fills one sector of 0x200 bytes, so a disk is a sequence of sectors.  What a
 reader makes of a sector of another kind depends on its bytes; `Disk` leaves that open.
 */
module LiteFsFormat {
  import opened Options

  type Byte = bv8

  datatype ObjectType = FileType | DirectoryType

  predicate IsU64(n: int) {
    0 <= n < 0x1_0000_0000_0000_0000
  }

  predicate IsI64(n: int) {
    -0x8000_0000_0000_0000 <= n < 0x8000_0000_0000_0000
  }

  datatype ObjectDescriptor = ObjectDescriptor(
    name: seq<char>, id: nat, parentId: nat, objectType: ObjectType, attributes: nat,
    unalignedSize: nat, takenSectors: nat, firstDataChunkOffset: int)
  {
    predicate Fits() {
      && |name| == 0x100 && IsU64(id) && IsU64(parentId) && IsU64(attributes)
      && IsU64(unalignedSize) && IsU64(takenSectors) && IsI64(firstDataChunkOffset)
    }
  }

  datatype DataChunk = DataChunk(data: seq<Byte>, nextOffset: int) {
    predicate Fits() {
      |data| == 504 && IsI64(nextOffset)
    }
  }

  datatype PartitionHeader = PartitionHeader(name: seq<char>, entriesCount: nat, usedSectors: nat, maxSectors: nat) {
    predicate Fits() {
      |name| == 0x20 && IsU64(entriesCount) && IsU64(usedSectors) && IsU64(maxSectors)
    }
  }

  datatype FsHeader = FsHeader(signature: string, partitionsCount: nat, partitions: seq<int>) {
    predicate Fits() {
      && |signature| == 6 && IsU64(partitionsCount) && |partitions| == 62
      && forall i :: 0 <= i < |partitions| ==> IsI64(partitions[i])
    }
  }

  datatype Sector =
    | FsHeaderSector(fsHeader: FsHeader)
    | HeaderSector(header: PartitionHeader)
    | DescriptorSector(descriptor: ObjectDescriptor)
    | ChunkSector(chunk: DataChunk)
    | OtherSector

  datatype Disk = Disk(
    sectors: seq<Sector>,
    asFsHeader: Sector -> FsHeader,
    asHeader: Sector -> PartitionHeader,
    asDescriptor: Sector -> ObjectDescriptor,
    asChunk: Sector -> DataChunk)
  {
    // A structure that fits its sector reads back as it was written.  Sector numbers are 32 bits wide.
    ghost predicate Faithful() {
      && |sectors| <= 0x1_0000_0000
      && (forall h: FsHeader :: h.Fits() ==> asFsHeader(FsHeaderSector(h)) == h)
      && (forall h: PartitionHeader :: h.Fits() ==> asHeader(HeaderSector(h)) == h)
      && (forall d: ObjectDescriptor :: d.Fits() ==> asDescriptor(DescriptorSector(d)) == d)
      && (forall c: DataChunk :: c.Fits() ==> asChunk(ChunkSector(c)) == c)
      && (forall s :: |asChunk(s).data| == 504)
    }

    // One sector; the number is cut to 32 bits, and there is nothing behind the last sector.
    function Read(lba: int): Option<Sector> {
      var i := lba % 0x1_0000_0000;
      if i < |sectors| then Some(sectors[i]) else None
    }
  }

  // Sectors [base, base + |image|) of the disk hold the image.
  ghost predicate Placed(disk: Disk, base: nat, image: seq<Sector>) {
    && base + |image| <= |disk.sectors|
    && forall i :: 0 <= i < |image| ==> disk.sectors[base + i] == image[i]
  }

  // A name field holds the name up to the first zero.
  function CString(field: seq<char>): (name: string)
    ensures '\0' !in name
    ensures name <= field && (name == field || field[|name|] == '\0')
  {
    if field == [] || field[0] == '\0' then "" else [field[0]] + CString(field[1..])
  }

  function Zeros(n: nat): (s: seq<char>)
    ensures |s| == n && forall i :: 0 <= i < n ==> s[i] == '\0'
  {
    seq(n, _ => '\0')
  }

  // An entry's name is cut to 255 characters.
  function EntryName(name: string): (field: seq<char>)
    ensures |field| == 0x100
  {
    if |name| >= 0x100 then name[..0xff] + ['\0'] else name + Zeros(0x100 - |name|)
  }

  // A partition's name is cut to 32 characters, and is not terminated then: the zero that should
  // end it is written into the next field, which is filled later.
  function PartitionName(name: string): (field: seq<char>)
    ensures |field| == 0x20
  {
    if |name| >= 0x20 then name[..0x20] else name + Zeros(0x20 - |name|)
  }

  // The bytes of a 64-bit number in memory.
  function NumberBytes(n: nat, count: nat): (bytes: seq<char>)
    ensures |bytes| == count
  {
    if count == 0 then [] else [(n % 0x100) as char] + NumberBytes(n / 0x100, count - 1)
  }

  // The number that such bytes stand for, the lowest one first.
  function NumberOf(bytes: seq<char>): nat {
    if bytes == [] then 0 else bytes[0] as int + 0x100 * NumberOf(bytes[1..])
  }

  lemma {:induction false} NumberIsStored(n: nat, count: nat)
    requires n < Limit(count)
    ensures NumberOf(NumberBytes(n, count)) == n
  {
    if count > 0 {
      NumberIsStored(n / 0x100, count - 1);
      assert NumberBytes(n, count)[1..] == NumberBytes(n / 0x100, count - 1);
    }
  }

  // How many numbers fit into so many bytes.
  function Limit(count: nat): nat {
    if count == 0 then 1 else 0x100 * Limit(count - 1)
  }

  // The name that a reader sees: it reads on into the counts until there is a zero.
  function HeaderName(p: PartitionHeader): (name: string)
    ensures '\0' !in name
  {
    CString(p.name + NumberBytes(p.entriesCount, 8) + NumberBytes(p.usedSectors, 8) + NumberBytes(p.maxSectors, 8))
  }

  lemma {:induction false} CStringOf(name: string, rest: seq<char>)
    requires '\0' !in name && (rest == [] || rest[0] == '\0')
    ensures CString(name + rest) == name
  {
    if name != "" {
      assert (name + rest)[1..] == name[1..] + rest;
      CStringOf(name[1..], rest);
    }
  }

  // Only a name that fits is read back as it is; of a longer one the first 255 characters are.
  lemma EntryNameKeptIff(name: string)
    requires '\0' !in name
    ensures CString(EntryName(name)) == name <==> |name| < 0x100
    ensures |name| >= 0x100 ==> CString(EntryName(name)) == name[..0xff]
  {
    if |name| < 0x100 {
      CStringOf(name, Zeros(0x100 - |name|));
    } else {
      CStringOf(name[..0xff], ['\0']);
    }
  }

  // A partition's name is read back as it is if it fits.  A longer one is read back exactly if its
  // rest happens to be what the number of entries looks like.
  lemma PartitionNameKeptIff(name: string, entries: nat)
    requires '\0' !in name && IsU64(entries)
    ensures HeaderName(PartitionHeader(PartitionName(name), entries, 0, 0)) == name
      <==> |name| < 0x20 || name[0x20..] == CString(NumberBytes(entries, 8))
    ensures |name| >= 0x20 ==>
      HeaderName(PartitionHeader(PartitionName(name), entries, 0, 0)) == name[..0x20] + CString(NumberBytes(entries, 8))
  {
    hide NumberBytes, CString, PartitionName;
    var counts := NumberBytes(entries, 8) + (NumberBytes(0, 8) + NumberBytes(0, 8));
    HeaderText(PartitionName(name), entries, counts);
    if |name| < 0x20 {
      ShortName(name, counts);
    } else {
      ZeroBytes();
      CStringBefore(NumberBytes(entries, 8), NumberBytes(0, 8) + NumberBytes(0, 8));
      LongName(name, counts);
    }
  }

  lemma HeaderText(field: seq<char>, entries: nat, counts: seq<char>)
    requires counts == NumberBytes(entries, 8) + (NumberBytes(0, 8) + NumberBytes(0, 8))
    ensures HeaderName(PartitionHeader(field, entries, 0, 0)) == CString(field + counts)
  {
    hide NumberBytes, CString;
    var e, z := NumberBytes(entries, 8), NumberBytes(0, 8);
    assert field + e + z + z == field + (e + (z + z));
  }

  lemma ShortName(name: string, counts: seq<char>)
    requires '\0' !in name && |name| < 0x20
    ensures CString(PartitionName(name) + counts) == name
  {
    hide CString;
    var zeros := Zeros(0x20 - |name|);
    assert name + zeros + counts == name + (zeros + counts);
    CStringOf(name, zeros + counts);
  }

  lemma LongName(name: string, counts: seq<char>)
    requires '\0' !in name && |name| >= 0x20
    ensures CString(PartitionName(name) + counts) == name <==> name[0x20..] == CString(counts)
    ensures CString(PartitionName(name) + counts) == name[..0x20] + CString(counts)
  {
    hide CString;
    CStringAfter(name[..0x20], counts);
    var text := name[..0x20] + CString(counts);
    assert text[0x20..] == CString(counts) && text[..0x20] == name[..0x20];
    assert name == name[..0x20] + name[0x20..];
  }

  lemma {:induction false} CStringAfter(text: string, rest: seq<char>)
    requires '\0' !in text
    ensures CString(text + rest) == text + CString(rest)
    decreases |text|
  {
    if text == "" {
      assert "" + rest == rest;
    } else {
      assert (text + rest)[1..] == text[1..] + rest;
      CStringAfter(text[1..], rest);
      assert text == [text[0]] + text[1..];
    }
  }

  lemma {:induction false} CStringBefore(field: seq<char>, rest: seq<char>)
    requires rest != [] && rest[0] == '\0'
    ensures CString(field + rest) == CString(field)
    decreases |field|
  {
    if field == [] {
      assert [] + rest == rest;
    } else {
      assert (field + rest)[1..] == field[1..] + rest;
      CStringBefore(field[1..], rest);
    }
  }

  lemma ZeroBytes()
    ensures NumberBytes(0, 8)[0] == '\0'
  {
  }
}
