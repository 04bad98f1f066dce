/** What the page tables mean to a reader of memory (library/vmm/vmm.cxx:433-446). */
module Translation {
  import opened Align
  import opened Frames
  import opened Regions
  import opened Paging
  import opened Blocks
  import opened VirtualMemory

  // The code follows both entries without looking at their marks.
  function GetPhysicalAddress(m: Memory, d: nat, virtAddress: nat): nat
    requires IsMemory(m) && d < 0x10_0000 && IsU32(virtAddress)
  {
    var absoluteVirtPageIndex := virtAddress / 0x1000;
    var tableIndex := absoluteVirtPageIndex / 0x400;
    var pageIndex := absoluteVirtPageIndex - tableIndex * 0x400;
    var table := m[d][tableIndex].page;
    assert IsPage(m[d]);
    m[table][pageIndex].page * 0x1000 + virtAddress % 0x1000
  }

  // The four bytes of a word, lowest first.
  function Value(w: Word): (value: nat)
    ensures w.page < 0x10_0000 ==> IsU32(value)
  {
    w.page * 0x1000 + (if w.flags.isAllocated then 0x800 else 0) + (if w.flags.isClosing then 0x400 else 0)
    + (if w.flags.isBusy then 0x200 else 0) + w.flags.attributes as int
  }

  function PhysicalWord(m: Memory, address: nat): Word
    requires IsMemory(m) && IsU32(address)
  {
    assert IsPage(m[address / 0x1000]);
    m[address / 0x1000][address % 0x1000 / 4]
  }

  function Shift(value: nat, byte: nat): nat {
    if byte == 0 then value
    else if byte == 1 then value / 0x100
    else if byte == 2 then value / 0x1_0000
    else value / 0x100_0000
  }

  function PhysicalByte(m: Memory, address: nat): (b: nat)
    requires IsMemory(m) && IsU32(address)
    ensures b < 0x100
  {
    Shift(Value(PhysicalWord(m, address)), address % 4) % 0x100
  }

  lemma TranslatedInBounds(m: Memory, d: nat, a: nat)
    requires IsMemory(m) && d < 0x10_0000 && IsU32(a)
    ensures IsU32(GetPhysicalAddress(m, d, a))
  {
    assert IsPage(m[d]);
    assert IsPage(m[m[d][a / 0x1000 / 0x400].page]);
  }

  function ReadByte(m: Memory, d: nat, a: nat): (b: nat)
    requires IsMemory(m) && d < 0x10_0000 && IsU32(a)
    ensures b < 0x100
  {
    TranslatedInBounds(m, d, a);
    PhysicalByte(m, GetPhysicalAddress(m, d, a))
  }

  function ReadWord(m: Memory, d: nat, a: nat): (w: nat)
    requires IsMemory(m) && d < 0x10_0000 && IsU32(a)
    ensures IsU32(w)
  {
    TranslatedInBounds(m, d, a);
    assert IsPage(m[GetPhysicalAddress(m, d, a) / 0x1000]);
    Value(PhysicalWord(m, GetPhysicalAddress(m, d, a)))
  }

  // The number that four bytes stand for, the lowest one first.
  function LowestFirst(m: Memory, d: nat, a: nat): nat
    requires IsMemory(m) && d < 0x10_0000 && IsU32(a + 3)
  {
    ReadByte(m, d, a) + 0x100 * ReadByte(m, d, a + 1) + 0x1_0000 * ReadByte(m, d, a + 2)
    + 0x100_0000 * ReadByte(m, d, a + 3)
  }

  lemma WordBytes(m: Memory, d: nat, a: nat)
    requires IsMemory(m) && d < 0x10_0000 && a % 4 == 0 && IsU32(a + 3)
    ensures ReadWord(m, d, a) == LowestFirst(m, d, a)
  {
    hide GetPhysicalAddress, PhysicalWord, Value, Shift;
    TranslatedInBounds(m, d, a);
    var value := ReadWord(m, d, a);
    ByteOfWord(m, d, a, 0);
    ByteOfWord(m, d, a, 1);
    ByteOfWord(m, d, a, 2);
    ByteOfWord(m, d, a, 3);
    FourBytes(value);
  }

  lemma ByteOfWord(m: Memory, d: nat, a: nat, k: nat)
    requires IsMemory(m) && d < 0x10_0000 && a % 4 == 0 && IsU32(a + 3) && k < 4
    ensures ReadByte(m, d, a + k) == Shift(ReadWord(m, d, a), k) % 0x100
  {
    hide GetPhysicalAddress, Value, Shift;
    TranslatedInBounds(m, d, a);
    TranslatedInBounds(m, d, a + k);
    NextInPage(m, d, a, k);
    InWord(GetPhysicalAddress(m, d, a), k);
  }

  lemma NextInPage(m: Memory, d: nat, a: nat, k: nat)
    requires IsMemory(m) && d < 0x10_0000 && a % 4 == 0 && IsU32(a + 3) && k < 4
    ensures GetPhysicalAddress(m, d, a + k) == GetPhysicalAddress(m, d, a) + k
    ensures GetPhysicalAddress(m, d, a) % 4 == 0
  {
    InWord(a, k);
    assert IsPage(m[d]);
    WordIn(m[m[d][a / 0x1000 / 0x400].page][a / 0x1000 % 0x400].page, a % 0x1000);
  }

  lemma InWord(a: nat, k: nat)
    requires a % 4 == 0 && k < 4
    ensures (a + k) / 0x1000 == a / 0x1000 && (a + k) % 0x1000 == a % 0x1000 + k && a % 0x1000 % 4 == 0
    ensures (a + k) % 0x1000 / 4 == a % 0x1000 / 4 && (a + k) % 4 == k
  {
    WordPlace(a);
    var q, w := a / 0x1000, a % 0x1000 / 4;
    assert a == q * 0x1000 + 4 * w;
    ByteInPage(q, 4 * w + k);
    ByteInWord(w, k);
    ByteInWord(q * 0x400 + w, k);
  }

  lemma FourBytes(value: nat)
    requires IsU32(value)
    ensures value == Shift(value, 0) % 0x100 + 0x100 * (Shift(value, 1) % 0x100) + 0x1_0000 * (Shift(value, 2) % 0x100)
      + 0x100_0000 * (Shift(value, 3) % 0x100)
  {
    var q1, q2, q3 := value / 0x100, value / 0x1_0000, value / 0x100_0000;
    assert value == 0x100 * q1 + value % 0x100;
    assert q2 == q1 / 0x100 && q1 == 0x100 * q2 + q1 % 0x100;
    assert q3 == q2 / 0x100 && q2 == 0x100 * q3 + q2 % 0x100;
  }

  // ---- refinement ----

  // Where there is a table, the two levels are the flat page map.
  lemma AddressIsFlat(m: Memory, d: nat, a: nat)
    requires IsMemory(m) && d < 0x10_0000 && IsU32(a) && m[d][a / 0x1000 / 0x400].Allocated()
    ensures GetPhysicalAddress(m, d, a) == Flat(m, d, a / 0x1000).page * 0x1000 + a % 0x1000
  {
    var v := a / 0x1000;
    assert v - v / 0x400 * 0x400 == v % 0x400;
  }

  lemma BusyHasTable(m: Memory, d: nat, v: nat)
    requires IsMemory(m) && d < 0x10_0000 && v < 0x10_0000 && Flat(m, d, v).Busy()
    ensures m[d][v / 0x400].Allocated()
  {
  }

  // Any byte of a mapped range is at the physical base plus its offset, whatever tables it is in.
  lemma MappedAddress(m: Memory, o: Owners, n: Memory, o': Owners, d: nat, lo: nat, hi: nat, physAddress: nat,
                      flags: Flags, a: nat)
    requires IsMemory(m) && IsMemory(n) && IsU32(physAddress)
    requires MapDone(m, o, n, o', d, lo, hi, physAddress / 0x1000, flags)
    requires lo * 0x1000 <= a < hi * 0x1000
    ensures IsU32(a)
    ensures GetPhysicalAddress(n, d, a) == (physAddress / 0x1000 * 0x1000 + (a - lo * 0x1000)) % 0x1_0000_0000
  {
    var v := a / 0x1000;
    assert lo <= v < hi;
    var w := MapWord(Flat(m, d, v), physAddress / 0x1000 + (v - lo), flags);
    assert Flat(n, d, v) == w && w.Busy();
    BusyHasTable(n, d, v);
    AddressIsFlat(n, d, a);
    PageModulo(physAddress / 0x1000 + (v - lo), a % 0x1000);
  }

  lemma PageModulo(p: nat, offset: nat)
    requires offset < 0x1000
    ensures p % 0x10_0000 * 0x1000 + offset == (p * 0x1000 + offset) % 0x1_0000_0000
  {
    assert p == p / 0x10_0000 * 0x10_0000 + p % 0x10_0000;
    assert p * 0x1000 + offset == p / 0x10_0000 * 0x1_0000_0000 + (p % 0x10_0000 * 0x1000 + offset);
  }

  // An entry that was free has the given attributes, and is busy without a block of its own.
  lemma MappedEntry(m: Memory, o: Owners, n: Memory, o': Owners, d: nat, lo: nat, hi: nat, physIndex: nat,
                    flags: Flags, v: nat)
    requires IsMemory(m) && IsMemory(n) && MapDone(m, o, n, o', d, lo, hi, physIndex, flags) && flags.Plain()
    requires lo <= v < hi && Flat(m, d, v) == ZERO
    ensures Flat(n, d, v) == Word(Flags(flags.attributes, true, false, false), (physIndex + (v - lo)) % 0x10_0000)
  {
    assert (0 as bv9) | flags.attributes == flags.attributes;
  }

  // The two pages that a new directory maps are its own, at their own addresses.
  lemma NewDirectoryAddress(m: Memory, o: Owners, n: Memory, o': Owners, r: nat, a: nat)
    requires IsMemory(m) && IsMemory(n) && DirectoryDone(m, o, n, o', r) && a < 0x2000
    ensures GetPhysicalAddress(n, r / 0x1000, a) == (r + a) % 0x1_0000_0000
  {
    var d, v := r / 0x1000, a / 0x1000;
    assert Flat(n, d, v).Busy();
    BusyHasTable(n, d, v);
    AddressIsFlat(n, d, a);
    PageModulo(d + v, a % 0x1000);
  }

  // Mapping a range leaves every other translation in use alone, in all directories.
  lemma OtherAddressesUnchanged(m: Memory, o: Owners, n: Memory, o': Owners, d: nat, lo: nat, hi: nat, e: nat, a: nat)
    requires IsMemory(m) && IsMemory(n) && SameBut(m, o, n, o', d, lo, hi) && IsDirectory(o, e) && IsU32(a)
    requires Flat(m, e, a / 0x1000).Busy() && (e != d || !(lo <= a / 0x1000 < hi))
    ensures GetPhysicalAddress(n, e, a) == GetPhysicalAddress(m, e, a)
  {
    BusyHasTable(m, e, a / 0x1000);
    BusyHasTable(n, e, a / 0x1000);
    AddressIsFlat(m, e, a);
    AddressIsFlat(n, e, a);
  }

  // Pages with equal contents read the same, byte by byte.
  lemma SamePageSameBytes(m: Memory, d: nat, v: nat, n: Memory, e: nat, u: nat, k: nat)
    requires IsMemory(m) && IsMemory(n) && d < 0x10_0000 && e < 0x10_0000 && v < 0x10_0000 && u < 0x10_0000
    requires k < 0x1000
    requires Flat(m, d, v).Busy() && Flat(n, e, u).Busy()
    requires Flat(m, d, v).page < 0x10_0000 && Flat(n, e, u).page < 0x10_0000
    requires m[Flat(m, d, v).page] == n[Flat(n, e, u).page]
    ensures ReadByte(m, d, v * 0x1000 + k) == ReadByte(n, e, u * 0x1000 + k)
    ensures k % 4 == 0 ==> ReadWord(m, d, v * 0x1000 + k) == ReadWord(n, e, u * 0x1000 + k)
  {
    hide GetPhysicalAddress, Flat, Value, Shift;
    PageByte(m, d, v, k);
    PageByte(n, e, u, k);
  }

  // Where a byte of a page in use is.
  lemma PageByte(m: Memory, d: nat, v: nat, k: nat)
    requires IsMemory(m) && d < 0x10_0000 && v < 0x10_0000 && k < 0x1000
    requires Flat(m, d, v).Busy() && Flat(m, d, v).page < 0x10_0000
    ensures
      var words := m[Flat(m, d, v).page];
      && |words| == 0x400
      && ReadByte(m, d, v * 0x1000 + k) == Shift(Value(words[k / 4]), k % 4) % 0x100
      && ReadWord(m, d, v * 0x1000 + k) == Value(words[k / 4])
  {
    hide GetPhysicalAddress, Flat, Value, Shift;
    BusyHasTable(m, d, v);
    AddressIsFlat(m, d, v * 0x1000 + k);
    WordIn(v, k);
    WordIn(Flat(m, d, v).page, k);
    assert IsPage(m[Flat(m, d, v).page]);
  }

  lemma WordIn(p: nat, k: nat)
    requires k < 0x1000
    ensures (p * 0x1000 + k) / 0x1000 == p && (p * 0x1000 + k) % 0x1000 == k && (p * 0x1000 + k) % 4 == k % 4
  {
    ByteInPage(p, k);
    WordPlace(p * 0x1000 + k);
  }

  // ---- ownership ----

  // In every state of the manager, exactly the live blocks are in use, each by one owner.
  lemma EveryBlockHasOneOwner(m: Memory, owners: Owners, regions: seq<Region>, tables: seq<Table>, p: nat)
    requires Coherent(m, owners, regions, tables)
    ensures p in Live(tables) <==> exists a :: Uses(m, owners, a, p)
    ensures forall a, b :: Uses(m, owners, a, p) && Uses(m, owners, b, p) ==> a == b
  {
    if p in Live(tables) {
      assert Uses(m, owners, owners[p], p);
    }
    forall a | Uses(m, owners, a, p) ensures p in owners && owners[p] == a {
      OwnersAreDistinct(m, owners, a, a, p);
    }
  }

  // Page `p` is one of those of the block that `a` uses.
  ghost predicate HasPage(m: Memory, owners: Owners, tables: seq<Table>, a: Owner, p: nat)
    requires IsMemory(m)
  {
    exists q: nat :: Uses(m, owners, a, q) && BlockHas(tables, q, p)
  }

  // The same for every frame, not only for the first of each block: a frame is busy exactly if some
  // directory, table or page, or somebody else, has it, and only one of them does.
  lemma EveryFrameHasOneOwner(m: Memory, owners: Owners, regions: seq<Region>, tables: seq<Table>, i: nat, k: nat)
    requires Coherent(m, owners, regions, tables) && InTables(tables, i, k)
    ensures
      var p := tables[i][k].address / 0x1000;
      && (tables[i][k].busy <==> exists a :: HasPage(m, owners, tables, a, p))
      && forall a, b :: HasPage(m, owners, tables, a, p) && HasPage(m, owners, tables, b, p) ==> a == b
  {
    hide Uses, IsFrameBlock, IsBusyPage, Tidy, Owned, BlockHas;
    var p := tables[i][k].address / 0x1000;
    CoherentBlocks(m, owners, regions, tables, p);
    BusyPageOf(tables, i, k);
    forall q: nat ensures q in owners ==> Uses(m, owners, owners[q], q)
      ensures forall a :: Uses(m, owners, a, q) ==> q in owners && owners[q] == a
    {
      UsedIff(m, owners, regions, tables, q);
    }
    if q: nat :| q in owners && BlockHas(tables, q, p) {
      assert HasPage(m, owners, tables, owners[q], p);
    }
  }

  lemma UsedIff(m: Memory, owners: Owners, regions: seq<Region>, tables: seq<Table>, p: int)
    requires Coherent(m, owners, regions, tables)
    ensures p in owners ==> p >= 0 && Uses(m, owners, owners[p], p)
    ensures forall a :: Uses(m, owners, a, p) ==> p in owners && owners[p] == a
  {
    forall a | Uses(m, owners, a, p) ensures p in owners && owners[p] == a {
      OwnersAreDistinct(m, owners, a, a, p);
    }
  }

  lemma BusyPageOf(v: seq<Table>, i: nat, k: nat)
    requires DistinctPages(v) && InTables(v, i, k)
    ensures v[i][k].busy <==> IsBusyPage(v, v[i][k].address / 0x1000)
  {
    if IsBusyPage(v, v[i][k].address / 0x1000) {
      var m, j :| InTables(v, m, j) && v[m][j].busy && v[m][j].address / 0x1000 == v[i][k].address / 0x1000;
      SamePageSameDescriptor(v, m, j, i, k);
    }
  }

  // ---- the life of a block ----

  // An allocation adds the pages of its range and tables, nothing else.
  lemma NewOwners(m: Memory, o: Owners, n: Memory, o': Owners, d: nat, lo: nat, hi: nat, p: int)
    requires IsMemory(m) && IsMemory(n) && Owned(m, o) && Owned(n, o') && Grows(m, o, n, o', d, lo, hi)
    requires p in o' && p !in o
    ensures o'[p].TableAt? || InRange(o'[p], d, lo, hi)
  {
    assert Uses(n, o', o'[p], p);
    assert IsForeign(o, p) <==> IsForeign(o', p);
  }

  // Freeing a block by its first page takes exactly the block: all translations are as before
  // the allocation, and of what was handed out only tables are still owned.
  lemma FreeingTheBlock(m: Memory, o: Owners, n: Memory, o': Owners, k: Memory, o'': Owners, d: nat, lo: nat,
                        hi: nat, flags: Flags)
    requires IsMemory(m) && IsMemory(n) && IsMemory(k)
    requires Owned(m, o) && Owned(n, o') && IsDirectory(o, d)
    requires BlockDone(m, o, n, o', d, lo, hi, flags)
    ensures Scan(n, d, lo).Some?
    ensures FreeDone(n, o', k, o'', d, lo, Scan(n, d, lo).value + 1) ==>
      && Scan(n, d, lo).value + 1 == hi
      && (forall e, v :: IsDirectory(o, e) && 0 <= v < 0x10_0000 ==> Flat(k, e, v) == Flat(m, e, v))
      && (forall p :: p in o ==> p in o'' && o''[p] == o[p])
      && (forall p :: p in o'' && p !in o ==> o''[p].TableAt?)
      && (forall p :: p in o && o[p].HoldsData() && 0 <= p < 0x10_0000 ==> k[p] == m[p])
  {
    hide Flat, Uses, Owned, Scan, SameBut, IsBlock;
    BlockDoneIsBlock(m, o, n, o', d, lo, hi, flags);
    ScanFindsEnd(n, d, lo, lo, hi);
    if FreeDone(n, o', k, o'', d, lo, hi) {
      FreeUndoesBlock(m, o, n, o', k, o'', d, lo, hi, flags);
      forall p | p in o'' && p !in o ensures o''[p].TableAt? {
        NewOwners(m, o, n, o', d, lo, hi, p);
      }
    }
  }
}
