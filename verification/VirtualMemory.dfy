/** The virtual memory manager (library/vmm/vmm.cxx), on top of the physical one. */
module VirtualMemory {
  import opened Align
  import opened Frames
  import opened Regions
  import opened FrameLayout
  import opened PhysicalMemory
  import opened Paging
  import opened Blocks
  import opened PageSearch
  import opened Options

  // A table count that wraps around leaves nothing to walk.
  lemma WrappedEnd(tableIndex: nat, tablesCount: nat)
    requires IsU32(tableIndex) && IsU32(tablesCount)
    ensures
      var end := ToU32(tableIndex + tablesCount);
      if IsU32(tableIndex + tablesCount) then end == tableIndex + tablesCount else end < tableIndex
  {
  }

  // The manager's own blocks have two frames, as requests for one page's worth of bytes get.
  ghost predicate TwoFrameBlocks(owners: Owners, v: seq<Table>) {
    forall i, j :: InTables(v, i, j) && v[i][j].busyCount > 0 && v[i][j].busyCount != 2 ==>
      IsForeign(owners, v[i][j].address / 0x1000)
  }

  lemma TwoFramesKept(owners: Owners, v: seq<Table>, i: nat, j: nat)
    requires TwoFrameBlocks(owners, v) && i < |v| && j < |v[i]|
    ensures TwoFrameBlocks(owners, v[i := Occupy(v[i], j, 2)])
    ensures TwoFrameBlocks(owners, v[i := Release(v[i], j)])
  {
    TwoFramesWith(owners, v, i, Occupy(v[i], j, 2));
    TwoFramesWith(owners, v, i, Release(v[i], j));
  }

  lemma TwoFramesWith(owners: Owners, v: seq<Table>, i: nat, t: Table)
    requires TwoFrameBlocks(owners, v) && i < |v| && |t| == |v[i]|
    requires forall k :: 0 <= k < |t| ==>
      && t[k].address == v[i][k].address
      && (t[k].busyCount == v[i][k].busyCount || t[k].busyCount == 0 || t[k].busyCount == 2)
    ensures TwoFrameBlocks(owners, v[i := t])
  {
    var w := v[i := t];
    forall m, k | InTables(w, m, k) && w[m][k].busyCount > 0 && w[m][k].busyCount != 2
      ensures IsForeign(owners, w[m][k].address / 0x1000)
    {
      assert InTables(v, m, k);
    }
  }

  // The frame tables are sound, and their live blocks are exactly those with an owner.
  ghost predicate Accounted(owners: Owners, regions: seq<Region>, tables: seq<Table>) {
    SoundTables(regions, tables) && Live(tables) == owners.Keys && TwoFrameBlocks(owners, tables)
  }

  // So are they but for the block at `page`, which has no owner yet.
  ghost predicate AccountedBut(owners: Owners, regions: seq<Region>, tables: seq<Table>, page: nat) {
    && SoundTables(regions, tables) && page !in owners
    && Live(tables) == owners.Keys + {page} && TwoFrameBlocks(owners, tables)
  }

  lemma OwnerRecorded(owners: Owners, regions: seq<Region>, tables: seq<Table>, page: nat, owner: Owner)
    requires AccountedBut(owners, regions, tables, page)
    ensures Accounted(owners[page := owner], regions, tables)
  {
    hide SoundTables, Live;
    var newOwners := owners[page := owner];
    forall i, j | InTables(tables, i, j) && tables[i][j].busyCount > 0 && tables[i][j].busyCount != 2
      ensures IsForeign(newOwners, tables[i][j].address / 0x1000)
    {
      assert IsForeign(owners, tables[i][j].address / 0x1000);
    }
  }

  lemma OwnerRemoved(owners: Owners, regions: seq<Region>, tables: seq<Table>, page: int)
    requires SoundTables(regions, tables) && TwoFrameBlocks(owners, tables) && Live(tables) == owners.Keys - {page}
    ensures Accounted(owners - {page}, regions, tables)
  {
    var newOwners := owners - {page};
    forall i, j | InTables(tables, i, j) && tables[i][j].busyCount > 0 && tables[i][j].busyCount != 2
      ensures IsForeign(newOwners, tables[i][j].address / 0x1000)
    {
      assert tables[i][j].address / 0x1000 in Live(tables);
    }
  }

  // Physical memory, its frame tables and the owners of its blocks agree.
  ghost predicate Coherent(m: Memory, owners: Owners, regions: seq<Region>, tables: seq<Table>) {
    IsMemory(m) && Owned(m, owners) && Tidy(m, owners) && Accounted(owners, regions, tables)
  }

  lemma CoherentParts(m: Memory, owners: Owners, regions: seq<Region>, tables: seq<Table>)
    requires Coherent(m, owners, regions, tables)
    ensures IsMemory(m) && Owned(m, owners) && Tidy(m, owners)
  {
  }

  lemma CoherentTables(m: Memory, owners: Owners, regions: seq<Region>, tables: seq<Table>)
    requires Coherent(m, owners, regions, tables)
    ensures SoundTables(regions, tables) && Live(tables) == owners.Keys && TwoFrameBlocks(owners, tables)
  {
  }

  // All owned blocks are frames of the physical manager.
  ghost predicate Framed(regions: seq<Region>, owners: Owners) {
    forall p :: p in owners ==> IsFramePage(regions, p)
  }

  lemma CoherentFrames(m: Memory, owners: Owners, regions: seq<Region>, tables: seq<Table>)
    requires Coherent(m, owners, regions, tables)
    ensures Framed(regions, owners)
  {
    forall p | p in owners ensures IsFramePage(regions, p) {
      assert p in Live(tables);
      LivePagesAreFrames(regions, tables, p);
    }
  }

  // Every block of the manager is two frames of its own, and all frames that are handed out are
  // those of owned blocks.
  lemma CoherentBlocks(m: Memory, owners: Owners, regions: seq<Region>, tables: seq<Table>, p: nat)
    requires Coherent(m, owners, regions, tables)
    ensures p in owners && !owners[p].Foreign? ==> IsFrameBlock(tables, p) && p + 1 !in owners
    ensures IsBusyPage(tables, p) <==> exists q: nat :: q in owners && BlockHas(tables, q, p)
    ensures forall q: nat, r: nat :: BlockHas(tables, q, p) && BlockHas(tables, r, p) ==> q == r
  {
    hide Owned, Tidy, BlockHas, IsBusyPage, AllRuns, DistinctPages, Consecutive;
    if p in owners && !owners[p].Foreign? {
      OwnBlock(owners, tables, p);
      SecondPageNotLive(tables, p);
    }
    BusyPageIff(tables, p);
    forall q: nat, r: nat | BlockHas(tables, q, p) && BlockHas(tables, r, p) ensures q == r {
      OneBlockPerPage(tables, q, r, p);
    }
  }

  lemma OwnBlock(owners: Owners, v: seq<Table>, p: nat)
    requires AllRuns(v) && DistinctPages(v) && Consecutive(v) && TwoFrameBlocks(owners, v)
    requires p in Live(v) && !IsForeign(owners, p)
    ensures IsFrameBlock(v, p)
  {
    var i, j :| 0 <= i < |v| && 0 <= j < |v[i]| && v[i][j].busyCount > 0 && v[i][j].address / 0x1000 == p;
    assert InTables(v, i, j) && PageAligned(v[i][j].address);
    LiveIsBlock(v, i, j, p);
  }

  lemma StaysCoherent(m: Memory, owners: Owners, n: Memory, regions: seq<Region>, tables: seq<Table>)
    requires Coherent(m, owners, regions, tables)
    requires IsMemory(n) && Owned(n, owners) && Tidy(n, owners)
    ensures Coherent(n, owners, regions, tables)
  {
  }

  // The physical manager has just handed out the block at `page`, which nothing uses yet.
  ghost predicate Allotted(m: Memory, owners: Owners, regions: seq<Region>, tables: seq<Table>, page: nat) {
    && IsMemory(m) && Owned(m, owners) && Tidy(m, owners)
    && 0 < page < 0x10_0000 && AccountedBut(owners, regions, tables, page)
  }

  lemma NotOwnedYet(owners: Owners, regions: seq<Region>, tables: seq<Table>, page: nat)
    requires AccountedBut(owners, regions, tables, page)
    ensures page !in owners
  {
  }

  lemma TableAdded(m: Memory, owners: Owners, d: nat, t: nat, page: nat, flags: Flags, regions: seq<Region>,
                   tables: seq<Table>)
    requires Allotted(m, owners, regions, tables, page)
    requires IsDirectory(owners, d) && t < 0x400 && !m[d][t].Allocated()
    ensures page < 0x10_0000
    ensures
      var entry := Word(NewFlags(m[d][t].flags, flags), page);
      var n, newOwners := SetWord(SetPage(m, page, ZeroPage()), d, t, entry), owners[page := TableAt(d, t)];
      && Coherent(n, newOwners, regions, tables) && IsDirectory(newOwners, d) && n[d][t].Allocated()
      && Grows(m, owners, n, newOwners, d, 0, 0) && TablesBut(m, owners, n, d, t, t + 1, flags)
  {
    hide AccountedBut, Accounted, ZeroPage;
    NotOwnedYet(owners, regions, tables, page);
    OwnerRecorded(owners, regions, tables, page, TableAt(d, t));
    TableStep(m, owners, d, t, page, NewFlags(m[d][t].flags, flags));
  }

  lemma PagePlaced(m: Memory, owners: Owners, d: nat, t: nat, r: nat, page: nat, flags: Flags,
                   regions: seq<Region>, tables: seq<Table>) returns (n: Memory, newOwners: Owners)
    requires Allotted(m, owners, regions, tables, page)
    requires IsDirectory(owners, d) && t < 0x400 && m[d][t].Allocated() && r < 0x400
    requires flags.isBusy && !Flat(m, d, t * 0x400 + r).Allocated()
    ensures
      var p := m[d][t].page;
      p < 0x10_0000 && page < 0x10_0000 && n == SetWord(m, p, r, Word(NewFlags(m[p][r].flags, flags), page))
    ensures IsMemory(n) && Coherent(n, newOwners, regions, tables) && IsDirectory(newOwners, d)
    ensures AllocDone(m, owners, n, newOwners, d, t * 0x400 + r, t * 0x400 + r + 1, flags)
    ensures TablesBut(m, owners, n, d, 0, 0)
  {
    hide AccountedBut, Accounted, Owned, Tidy, SameBut, AllocDone, TablesBut, Flat;
    PageOf(t, r);
    NotOwnedYet(owners, regions, tables, page);
    EntryOf(m, d, t, r);
    n, newOwners := AllocOne(m, owners, d, t * 0x400 + r, page, flags);
    OwnerRecorded(owners, regions, tables, page, PageAt(d, t * 0x400 + r));
  }

  lemma EntryOf(m: Memory, d: nat, t: nat, r: nat)
    requires IsMemory(m) && d < 0x10_0000 && t < 0x400 && r < 0x400 && m[d][t].Allocated()
    ensures m[d][t].page < 0x10_0000 && Flat(m, d, t * 0x400 + r) == m[m[d][t].page][r]
  {
    PageOf(t, r);
    assert IsPage(m[d]);
  }

  // A block has been given back, or there was none to give back.
  lemma BlockReturned(m: Memory, owners: Owners, n: Memory, newOwners: Owners, regions: seq<Region>,
                      tables: seq<Table>, newTables: seq<Table>, word: Word)
    requires Coherent(m, owners, regions, tables)
    requires SoundTables(regions, newTables) && TwoFrameBlocks(owners, newTables)
    requires IsMemory(n) && Owned(n, newOwners) && Tidy(n, newOwners)
    requires newOwners == if word.Allocated() then owners - {word.page} else owners
    requires Live(newTables) == if word.Allocated() then Live(tables) - {word.page} else Live(tables)
    ensures Coherent(n, newOwners, regions, newTables)
  {
    hide SoundTables, Live, TwoFrameBlocks, Owned, Tidy;
    if word.Allocated() {
      OwnerRemoved(owners, regions, newTables, word.page);
    }
  }

  // Blocks of somebody else, by their first pages.
  ghost function AllForeign(v: seq<Table>): Owners {
    map p: int | p in Live(v) :: Foreign(p)
  }

  lemma ForeignFromStart(m: Memory, regions: seq<Region>, tables: seq<Table>)
    requires IsMemory(m) && SoundTables(regions, tables)
    ensures Coherent(m, AllForeign(tables), regions, tables)
  {
    hide ShapedTables, AllRuns, Consecutive, OwnFrames;
    var owners := AllForeign(tables);
    forall i, j | InTables(tables, i, j) && tables[i][j].busyCount > 0
      ensures IsForeign(owners, tables[i][j].address / 0x1000)
    {
      LiveIff(tables, i, j);
    }
    forall p | p in Live(tables) ensures 0 <= p < 0x10_0000 {
      LivePageAddress(tables, p);
    }
    assert owners.Keys == Live(tables);
  }

  lemma ForeignTaken(m: Memory, owners: Owners, regions: seq<Region>, v: seq<Table>, i: nat, j: nat, n: nat,
                     tables: seq<Table>)
    requires Coherent(m, owners, regions, v) && i < |v| && j < |v[i]| && tables == v[i := Occupy(v[i], j, n)]
    requires SoundTables(regions, tables)
    requires Live(tables) == Live(v) + {v[i][j].address / 0x1000} && v[i][j].address / 0x1000 !in Live(v)
    ensures
      var p := v[i][j].address / 0x1000;
      p !in owners && Coherent(m, owners[p := Foreign(p)], regions, tables)
  {
    hide Owned, Tidy, Live, ShapedTables, AllRuns, Consecutive, OwnFrames, TwoFrameBlocks;
    var p := v[i][j].address / 0x1000;
    assert InTables(v, i, j) && PageAligned(v[i][j].address);
    ForeignOwned(m, owners, p);
    ForeignFits(owners, v, i, j, n);
  }

  lemma ForeignFits(owners: Owners, v: seq<Table>, i: nat, j: nat, n: nat)
    requires TwoFrameBlocks(owners, v) && i < |v| && j < |v[i]|
    ensures
      var p := v[i][j].address / 0x1000;
      TwoFrameBlocks(owners[p := Foreign(p)], v[i := Occupy(v[i], j, n)])
  {
    var p := v[i][j].address / 0x1000;
    var newOwners, w := owners[p := Foreign(p)], v[i := Occupy(v[i], j, n)];
    forall a, b | InTables(w, a, b) && w[a][b].busyCount > 0 && w[a][b].busyCount != 2
      ensures IsForeign(newOwners, w[a][b].address / 0x1000)
    {
      assert InTables(v, a, b);
      assert (a == i && b == j) || w[a][b].busyCount == v[a][b].busyCount;
      assert w[a][b].address == v[a][b].address;
    }
  }

  lemma ForeignOwned(m: Memory, owners: Owners, p: nat)
    requires IsMemory(m) && Owned(m, owners) && Tidy(m, owners) && p !in owners && p < 0x10_0000
    ensures Owned(m, owners[p := Foreign(p)]) && Tidy(m, owners[p := Foreign(p)])
  {
  }

  lemma ForeignReturned(m: Memory, owners: Owners, regions: seq<Region>, v: seq<Table>, i: nat, j: nat,
                        tables: seq<Table>)
    requires Coherent(m, owners, regions, v) && i < |v| && j < |v[i]| && tables == v[i := Release(v[i], j)]
    requires SoundTables(regions, tables) && IsForeign(owners, v[i][j].address / 0x1000)
    requires Live(tables) == Live(v) - {v[i][j].address / 0x1000}
    ensures Coherent(m, owners - {v[i][j].address / 0x1000}, regions, tables)
  {
    hide Owned, Tidy, Live, SoundTables, TwoFrameBlocks, Release;
    var p := v[i][j].address / 0x1000;
    ForeignGone(m, owners, p);
    TwoFramesKept(owners, v, i, j);
    OwnerRemoved(owners, regions, tables, p);
  }

  lemma ForeignGone(m: Memory, owners: Owners, p: int)
    requires IsMemory(m) && Owned(m, owners) && Tidy(m, owners) && IsForeign(owners, p)
    ensures Owned(m, owners - {p}) && Tidy(m, owners - {p})
  {
    assert Uses(m, owners, owners[p], p);
  }

  // Directory `r` is new; its first two translations are those of its own two pages, and all
  // others are blank.  Nothing else has changed.
  ghost predicate DirectoryDone(m: Memory, o: Owners, n: Memory, o': Owners, r: nat)
    requires IsMemory(m) && IsMemory(n)
  {
    && PageAligned(r) && r / 0x1000 !in o && IsDirectory(o', r / 0x1000) && Extends(o, o')
    && (forall e :: IsDirectory(o', e) <==> e == r / 0x1000 || IsDirectory(o, e))
    && (forall p :: IsForeign(o', p) <==> IsForeign(o, p))
    && (forall e, v :: IsDirectory(o, e) && 0 <= v < 0x10_0000 ==> Flat(n, e, v) == Flat(m, e, v))
    && (forall q :: q in o && o[q].HoldsData() && 0 <= q < 0x10_0000 ==> n[q] == m[q])
    && (forall q :: 0 <= q < 0x10_0000 && q !in o' ==> n[q] == m[q])
    && (forall e, t :: IsDirectory(o, e) && 0 <= t < 0x400 ==> n[e][t] == m[e][t])
    && (forall v :: 0 <= v < 0x10_0000 ==>
          Flat(n, r / 0x1000, v) ==
            if v < 2 then Word(Flags(3, true, false, false), (r / 0x1000 + v) % 0x10_0000) else ZERO)
    && n[r / 0x1000][0].flags == Flags(3, false, false, true)
    && (forall t :: 0 < t < 0x400 ==> n[r / 0x1000][t] == ZERO)
  }

  lemma NewDirectoryTables(m: Memory, o: Owners, n: Memory, o': Owners, r: nat)
    requires IsMemory(m) && IsMemory(n) && DirectoryDone(m, o, n, o', r)
    ensures TablesPresent(m, o) ==> TablesPresent(n, o')
  {
    hide Flat;
  }

  lemma DirectoryAdded(m: Memory, owners: Owners, page: nat, regions: seq<Region>, tables: seq<Table>)
    requires Allotted(m, owners, regions, tables, page)
    ensures page < 0x10_0000
    ensures
      var n, newOwners := SetPage(m, page, ZeroPage()), owners[page := DirectoryAt(page)];
      && Coherent(n, newOwners, regions, tables) && IsDirectory(newOwners, page) && n[page] == ZeroPage()
      && BlankAdded(m, owners, n, newOwners, page)
  {
    hide AccountedBut, Accounted;
    NotOwnedYet(owners, regions, tables, page);
    OwnerRecorded(owners, regions, tables, page, DirectoryAt(page));
    DirectoryStep(m, owners, page);
  }

  ghost predicate BlankAdded(m: Memory, o: Owners, n: Memory, o': Owners, page: nat)
    requires IsMemory(m) && IsMemory(n)
  {
    && page < 0x10_0000 && page !in o && o' == o[page := DirectoryAt(page)]
    && (forall e, v :: IsDirectory(o, e) && 0 <= v < 0x10_0000 ==> Flat(n, e, v) == Flat(m, e, v))
    && (forall e :: IsDirectory(o, e) ==> n[e] == m[e])
    && (forall v :: 0 <= v < 0x10_0000 ==> Flat(n, page, v) == ZERO)
    && (forall q :: q in o && o[q].HoldsData() && 0 <= q < 0x10_0000 ==> n[q] == m[q])
    && (forall q :: 0 <= q < 0x10_0000 && q !in o' ==> n[q] == m[q])
    && n[page] == ZeroPage()
  }

  lemma BlankDirectory(m: Memory, d: nat)
    requires IsMemory(m) && d < 0x10_0000 && m[d] == ZeroPage()
    ensures NoneAllocated(m, d, 0, 2) && MissingTables(m, d, 0, EndTable(0, 2)) == 1 && EndPage(0, 2) == 2
    ensures EndTable(0, 2) == 1
  {
  }

  lemma DirectoryMapped(m: Memory, o: Owners, n: Memory, o': Owners, k: Memory, o'': Owners, r: nat)
    requires IsMemory(m) && IsMemory(n) && IsMemory(k) && PageAligned(r) && BlankAdded(m, o, n, o', r / 0x1000)
    requires MapDone(n, o', k, o'', r / 0x1000, 0, 2, r / 0x1000, PRESENT_WRITABLE)
    requires TablesBut(n, o', k, r / 0x1000, 0, 1)
    ensures DirectoryDone(m, o, k, o'', r)
  {
    hide Flat, TablesBut;
    var d := r / 0x1000;
    assert IsDirectory(o', d);
    assert forall e :: IsDirectory(o', e) <==> e == d || IsDirectory(o, e);
    SelfMapped(n, o', k, o'', d);
    FirstTableGained(n, o', k, d);
    OthersTables(o, n, o', k, d);
  }

  lemma SelfMapped(n: Memory, o: Owners, k: Memory, o': Owners, d: nat)
    requires IsMemory(n) && IsMemory(k) && IsDirectory(o, d) && MapDone(n, o, k, o', d, 0, 2, d, PRESENT_WRITABLE)
    requires forall v :: 0 <= v < 0x10_0000 ==> Flat(n, d, v) == ZERO
    ensures forall v :: 0 <= v < 0x10_0000 ==>
      Flat(k, d, v) == if v < 2 then Word(Flags(3, true, false, false), (d + v) % 0x10_0000) else ZERO
  {
    hide Flat;
    assert (0 as bv9) | 3 == 3;
  }

  lemma OthersTables(o: Owners, n: Memory, o': Owners, k: Memory, d: nat)
    requires IsMemory(n) && IsMemory(k) && d !in o && o' == o[d := DirectoryAt(d)]
    requires TablesBut(n, o', k, d, 0, 1)
    ensures forall e, t :: IsDirectory(o, e) && 0 <= t < 0x400 ==> k[e][t] == n[e][t]
  {
    forall e, t | IsDirectory(o, e) && 0 <= t < 0x400 ensures k[e][t] == n[e][t] {
      assert IsDirectory(o', e);
    }
  }

  lemma FirstTableGained(n: Memory, o: Owners, k: Memory, d: nat)
    requires IsMemory(n) && IsMemory(k) && IsDirectory(o, d) && n[d] == ZeroPage()
    requires TablesBut(n, o, k, d, 0, 1) && Flat(k, d, 0).Busy()
    ensures k[d][0].flags == Flags(3, false, false, true)
    ensures forall t :: 0 < t < 0x400 ==> k[d][t] == ZERO
  {
    assert n[d][0] == ZERO;
    BlankGains(n[d][0], k[d][0], PRESENT_WRITABLE);
  }

  lemma DirectoryOwned(m: Memory, o: Owners, n: Memory, o': Owners, r: nat)
    requires IsMemory(m) && IsMemory(n) && DirectoryDone(m, o, n, o', r)
    ensures IsDirectory(o', r / 0x1000) && r / 0x1000 in o'
  {
  }

  class Vmm {
    const pmm: Pmm
    var mem: Memory
    ghost var owners: Owners

    ghost predicate Valid()
      reads this, pmm
    {
      IsMemory(mem) && Coherent(mem, owners, pmm.regions, pmm.tables)
    }

    // Starts on sound physical memory, whatever its contents; what has been handed out is foreign.
    constructor (p: Pmm, memory: Memory)
      requires p.Sound() && IsMemory(memory)
      ensures pmm == p && mem == memory && owners == AllForeign(p.tables)
      ensures Valid()
    {
      ForeignFromStart(memory, p.regions, p.tables);
      pmm, mem, owners := p, memory, AllForeign(p.tables);
    }

    // The physical manager serves somebody else, as it does the scheduler.
    method AllocateForeign(count: nat) returns (r: nat)
      requires Valid() && count < 0xFFFF_F000
      modifies this`owners, pmm`tables
      ensures Valid()
      ensures r == 0 ==> owners == old(owners) && pmm.tables == old(pmm.tables)
      ensures r != 0 ==>
        && PageAligned(r) && r / 0x1000 !in old(owners)
        && owners == old(owners)[r / 0x1000 := Foreign(r / 0x1000)]
    {
      hide Owned, Tidy, ShapedTables, AllRuns, DistinctPages, Consecutive, OwnFrames, Live, Occupy;
      FramesForRequest(count);
      ghost var before, n := pmm.tables, FramesFor(count);
      r := pmm.AllocatePhysicalMemory(count);
      match FindFit(before, 0, n) {
        case None =>
        case Some((i, j)) =>
          ForeignTaken(mem, owners, pmm.regions, before, i, j, n, pmm.tables);
          owners := owners[r / 0x1000 := Foreign(r / 0x1000)];
      }
    }

    method FreeForeign(memory: nat)
      requires Valid() && PageAligned(memory) && IsForeign(owners, memory / 0x1000)
      modifies this`owners, pmm`tables
      ensures Valid() && owners == old(owners) - {memory / 0x1000}
    {
      hide Owned, Tidy, ShapedTables, AllRuns, DistinctPages, Consecutive, OwnFrames, Live, Release;
      ghost var before := pmm.tables;
      var freed := pmm.FreePhysicalMemory(memory);
      match FindAddress(before, 0, memory) {
        case None =>
        case Some((i, j)) => ForeignReturned(mem, owners, pmm.regions, before, i, j, pmm.tables);
      }
      owners := owners - {memory / 0x1000};
    }

    // A request for one page's worth of bytes; the address is zero when memory has run out.
    method AllocateBlock() returns (r: nat)
      requires Valid()
      modifies pmm`tables
      ensures r == 0 <==> old(Left(pmm.tables)) == 0
      ensures r == 0 ==> Valid() && Left(pmm.tables) == 0
      ensures r != 0 ==>
        && PageAligned(r) && Allotted(mem, owners, pmm.regions, pmm.tables, r / 0x1000)
        && Left(pmm.tables) == old(Left(pmm.tables)) - 1
    {
      assert FramesFor(0x1000) == 2;
      ghost var before := pmm.tables;
      r := pmm.AllocatePhysicalMemory(0x1000);
      match FindFit(before, 0, 2) {
        case None =>
        case Some((i, j)) => TwoFramesKept(owners, before, i, j);
      }
      if r == 0 {
        RequestServed(pmm.tables, 0, 2);
      }
    }

    method CreateTables(d: nat, tableIndex: nat, tablesCount: nat, flags: Flags) returns (createdCount: nat)
      requires Valid() && IsDirectory(owners, d)
      requires IsU32(tableIndex) && IsU32(tablesCount)
      modifies this`mem, this`owners, pmm`tables
      ensures Valid()
      ensures Grows(old(mem), old(owners), mem, owners, d, 0, 0)
      ensures TablesBut(old(mem), old(owners), mem, d, tableIndex, tableIndex + tablesCount, flags)
      ensures createdCount <= old(Left(pmm.tables)) && Left(pmm.tables) == old(Left(pmm.tables)) - createdCount
      // All tables are there, unless memory has run out.
      ensures tableIndex + tablesCount <= 0x400 ==>
        || Left(pmm.tables) == 0
        || (&& Complete(mem, d, tableIndex, tableIndex + tablesCount)
            && createdCount == MissingTables(old(mem), d, tableIndex, tableIndex + tablesCount))
      ensures tableIndex + tablesCount > 0x400 ==> createdCount == 0 && mem == old(mem) && owners == old(owners)
      // A new table has the flags that were asked for.
      ensures forall t :: 0 <= t < 0x400 && old(mem)[d][t] == ZERO && mem[d][t] != ZERO ==>
        && tableIndex <= t < tableIndex + tablesCount
        && mem[d][t].flags == Flags(flags.attributes, flags.isBusy, flags.isClosing, true)
      ensures flags == Flags(3, false, false, false) && old(TablesPresent(mem, owners)) ==> TablesPresent(mem, owners)
    {
      hide Coherent, Grows, TablesBut, Complete, Left, MissingTables, ToU32, TablesPresent;
      ghost var before, had := mem, owners;
      var end := ToU32(tableIndex + tablesCount);
      WrappedEnd(tableIndex, tablesCount);
      if end > 0x400 || end < tableIndex {
        GrowsRefl(mem, owners, d);
        NoTableAdded(mem, owners, d, tableIndex, tableIndex + tablesCount, flags);
        return 0;
      }
      createdCount := CreateRange(d, tableIndex, end, flags);
      NewTableFlags(before, had, mem, d, tableIndex, end, flags);
      if flags == PRESENT_WRITABLE {
        GrowsKeepsDirectories(before, had, mem, owners, d);
        TablesStayPresent(before, had, mem, owners, d, tableIndex, end);
      }
    }

    // The loop over the tables, up to one behind the last.
    method CreateRange(d: nat, tableIndex: nat, end: nat, flags: Flags) returns (createdCount: nat)
      requires Valid() && IsDirectory(owners, d) && tableIndex <= end <= 0x400
      modifies this`mem, this`owners, pmm`tables
      ensures Valid()
      ensures Grows(old(mem), old(owners), mem, owners, d, 0, 0)
      ensures TablesBut(old(mem), old(owners), mem, d, tableIndex, end, flags)
      ensures createdCount <= old(Left(pmm.tables)) && Left(pmm.tables) == old(Left(pmm.tables)) - createdCount
      ensures
        || Left(pmm.tables) == 0
        || (Complete(mem, d, tableIndex, end) && createdCount == MissingTables(old(mem), d, tableIndex, end))
    {
      hide TablesMade, Grows, TablesBut, Complete, Coherent, Left;
      createdCount := 0;
      var curTableIndex := tableIndex;
      ghost var before, had := mem, owners;
      TablesMadeStart(mem, owners, d, tableIndex, end, flags);
      while curTableIndex < end
        invariant tableIndex <= curTableIndex <= end
        invariant Valid() && IsDirectory(owners, d)
        invariant TablesMade(before, had, mem, owners, d, tableIndex, curTableIndex, end, createdCount, flags)
        invariant Left(pmm.tables) + createdCount == old(Left(pmm.tables))
      {
        TablesMadeInBounds(before, had, mem, owners, d, tableIndex, curTableIndex, end, createdCount, flags);
        if !mem[d][curTableIndex].Allocated() {
          ghost var now, have := mem, owners;
          var created := CreateTable(d, curTableIndex, flags);
          if !created {
            TablesMadeEnd(before, had, mem, owners, d, tableIndex, curTableIndex, end, createdCount, flags);
            return;
          }
          TablesMadeStep(before, had, now, have, mem, owners, d, tableIndex, curTableIndex, end, createdCount, flags);
          createdCount := createdCount + 1;
        } else {
          TablesMadeSkip(before, had, mem, owners, d, tableIndex, curTableIndex, end, createdCount, flags);
        }
        curTableIndex := curTableIndex + 1;
      }
      TablesMadeEnd(before, had, mem, owners, d, tableIndex, curTableIndex, end, createdCount, flags);
    }

    // One table; it fails only when memory has run out.
    method CreateTable(d: nat, t: nat, flags: Flags) returns (created: bool)
      requires Valid() && IsDirectory(owners, d) && t < 0x400 && !mem[d][t].Allocated()
      modifies this`mem, this`owners, pmm`tables
      ensures Valid() && IsDirectory(owners, d)
      ensures Grows(old(mem), old(owners), mem, owners, d, 0, 0)
      ensures TablesBut(old(mem), old(owners), mem, d, t, t + 1, flags)
      ensures created <==> old(Left(pmm.tables)) > 0
      ensures created ==> mem[d][t].Allocated() && Left(pmm.tables) == old(Left(pmm.tables)) - 1
      ensures !created ==> mem == old(mem) && owners == old(owners) && Left(pmm.tables) == 0
    {
      hide Coherent, Allotted, Grows, TablesBut, Left;
      GrowsRefl(mem, owners, d);
      NoTableAdded(mem, owners, d, t, t + 1, flags);
      var data := AllocateBlock();
      if data == 0 {
        return false;
      }
      AddTable(d, t, data / 0x1000, flags);
      created := true;
    }

    // Blanks the new table and enters it in the directory.
    method AddTable(d: nat, t: nat, page: nat, flags: Flags)
      requires IsMemory(mem) && Allotted(mem, owners, pmm.regions, pmm.tables, page)
      requires IsDirectory(owners, d) && t < 0x400 && !mem[d][t].Allocated()
      modifies this`mem, this`owners
      ensures Valid() && IsDirectory(owners, d) && mem[d][t].Allocated()
      ensures Grows(old(mem), old(owners), mem, owners, d, 0, 0)
      ensures TablesBut(old(mem), old(owners), mem, d, t, t + 1, flags)
    {
      hide Allotted, Coherent, Grows, TablesBut;
      var entryFlags := mem[d][t].flags.(isAllocated := true).Or(flags);
      TableAdded(mem, owners, d, t, page, flags, pmm.regions, pmm.tables);
      mem := SetPage(mem, page, ZeroPage());
      mem := SetWord(mem, d, t, Word(entryFlags, page));
      owners := owners[page := TableAt(d, t)];
    }

    // What the walks below do when they come to a directory entry without a table.
    method EnsureTable(d: nat, t: nat, ghost end: nat)
      requires Valid() && IsDirectory(owners, d) && t < end <= 0x400
      requires Left(pmm.tables) >= MissingTables(mem, d, t, end)
      modifies this`mem, this`owners, pmm`tables
      ensures Valid() && IsDirectory(owners, d) && mem[d][t].Allocated()
      ensures Grows(old(mem), old(owners), mem, owners, d, 0, 0)
      ensures TablesBut(old(mem), old(owners), mem, d, t, t + 1)
      ensures Left(pmm.tables) - MissingTables(mem, d, t + 1, end)
        == old(Left(pmm.tables)) - MissingTables(old(mem), d, t, end)
    {
      ghost var now, have := mem, owners;
      NothingDone(mem, owners, d, t);
      hide Owned, Tidy, Grows, TablesBut;
      if !mem[d][t].Allocated() {
        var created := CreateTable(d, t, PRESENT_WRITABLE);
        OneMoreTable(now, have, mem, d, t, end);
      }
    }

    // Maps consecutive physical pages; a range that runs past the last table is cut there.
    method MapPages(d: nat, pageIndex: nat, physAddress: nat, countPages: nat, flags: Flags) returns (ok: bool)
      requires Valid() && IsDirectory(owners, d)
      requires IsU32(pageIndex) && IsU32(physAddress) && IsU32(countPages)
      requires flags.Plain() && NoneAllocated(mem, d, pageIndex, pageIndex + countPages)
      requires Left(pmm.tables) >= MissingTables(mem, d, pageIndex / 0x400, EndTable(pageIndex, countPages))
      modifies this`mem, this`owners, pmm`tables
      ensures Valid() && IsDirectory(owners, d)
      ensures ok <==> pageIndex <= 0x100_0000
      ensures pageIndex < 0x10_0000 ==>
        var end := if pageIndex + countPages <= 0x10_0000 then pageIndex + countPages else 0x10_0000;
        && MapDone(old(mem), old(owners), mem, owners, d, pageIndex, end, physAddress / 0x1000, flags)
        && TablesBut(old(mem), old(owners), mem, d, pageIndex / 0x400, EndTable(pageIndex, countPages))
        && Left(pmm.tables) == old(Left(pmm.tables))
          - MissingTables(old(mem), d, pageIndex / 0x400, EndTable(pageIndex, countPages))
      ensures pageIndex >= 0x10_0000 ==> mem == old(mem) && owners == old(owners) && pmm.tables == old(pmm.tables)
      ensures old(TablesPresent(mem, owners)) ==> TablesPresent(mem, owners)
    {
      hide Coherent, MapDone, TablesBut, NoneAllocated, MissingTables, Left, EndTable, EndPage, TablesPresent;
      if pageIndex > 0x100_0000 {
        return false;
      }
      if pageIndex / 0x400 < 0x400 {
        ghost var before, had := mem, owners;
        MapRange(d, pageIndex, physAddress / 0x1000, countPages, flags);
        WalkBounds(pageIndex, countPages);
        MapKeepsDirectories(before, had, mem, owners, d, pageIndex, EndPage(pageIndex, countPages),
                            physAddress / 0x1000, flags);
        TablesStayPresent(before, had, mem, owners, d, pageIndex / 0x400, EndTable(pageIndex, countPages));
      }
      ok := true;
    }

    // The walk over the tables.
    method MapRange(d: nat, pageIndex: nat, firstPhysIndex: nat, countPages: nat, flags: Flags)
      requires Valid() && IsDirectory(owners, d)
      requires pageIndex < 0x10_0000 && flags.Plain() && NoneAllocated(mem, d, pageIndex, pageIndex + countPages)
      requires Left(pmm.tables) >= MissingTables(mem, d, pageIndex / 0x400, EndTable(pageIndex, countPages))
      modifies this`mem, this`owners, pmm`tables
      ensures Valid() && IsDirectory(owners, d)
      ensures MapDone(old(mem), old(owners), mem, owners, d, pageIndex, EndPage(pageIndex, countPages), firstPhysIndex,
                      flags)
      ensures TablesBut(old(mem), old(owners), mem, d, pageIndex / 0x400, EndTable(pageIndex, countPages))
      ensures Left(pmm.tables) == old(Left(pmm.tables))
        - MissingTables(old(mem), d, pageIndex / 0x400, EndTable(pageIndex, countPages))
    {
      hide Walk, Coherent, MapDone, TablesBut, NoneAllocated, MissingTables, Left, EndTable, EndPage, Place;
      var tableIndex: nat := pageIndex / 0x400;
      var relativePageIndex: nat := pageIndex - tableIndex * 0x400;
      var physIndex: nat, count: nat := firstPhysIndex, countPages;
      ghost var task := MapTask(mem, owners, d, pageIndex, countPages, firstPhysIndex, flags);
      ghost var budget := Left(pmm.tables) - MissingTables(mem, d, tableIndex, EndTable(pageIndex, countPages));
      WalkStart(task);
      PlaceStart(pageIndex, countPages);
      while tableIndex < 0x400 && count > 0
        invariant tableIndex <= 0x400 && count <= countPages
        invariant Place(pageIndex, countPages, tableIndex, relativePageIndex, count)
        invariant physIndex == firstPhysIndex + (countPages - count)
        invariant Valid() && IsDirectory(owners, d)
        invariant Walk(task, mem, owners, tableIndex, countPages - count)
        invariant Left(pmm.tables) - MissingTables(mem, d, tableIndex, EndTable(pageIndex, countPages)) == budget
        decreases 0x400 - tableIndex
      {
        physIndex, count := MapStretch(task, d, tableIndex, relativePageIndex, physIndex, count, flags);
        relativePageIndex := 0;
        tableIndex := tableIndex + 1;
      }
      WalkEnd(task, mem, owners, tableIndex, relativePageIndex, count);
    }

    // One round of that walk: the table is made if need be, and its part of the range is mapped.
    method MapStretch(ghost task: MapTask, d: nat, tableIndex: nat, relativePageIndex: nat, physIndex: nat,
                      count: nat, flags: Flags)
      returns (newPhysIndex: nat, newCount: nat)
      requires Valid() && IsDirectory(owners, d) && task.d == d && task.flags == flags && flags.Plain()
      requires Place(task.lo, task.count, tableIndex, relativePageIndex, count) && tableIndex < 0x400 && count > 0
      requires physIndex == task.physIndex + (task.count - count)
      requires Walk(task, mem, owners, tableIndex, task.count - count)
      requires Left(pmm.tables) >= MissingTables(mem, d, tableIndex, EndTable(task.lo, task.count))
      modifies this`mem, this`owners, pmm`tables
      ensures Valid() && IsDirectory(owners, d)
      ensures newCount <= task.count && newPhysIndex == task.physIndex + (task.count - newCount)
      ensures Place(task.lo, task.count, tableIndex + 1, 0, newCount)
      ensures Walk(task, mem, owners, tableIndex + 1, task.count - newCount)
      ensures Left(pmm.tables) - MissingTables(mem, d, tableIndex + 1, EndTable(task.lo, task.count))
        == old(Left(pmm.tables)) - MissingTables(old(mem), d, tableIndex, EndTable(task.lo, task.count))
    {
      hide Walk, Coherent, MapDone, TablesBut, Grows, NoneAllocated, MissingTables, Left, EndTable;
      ghost var now, have := mem, owners;
      EnsureTable(d, tableIndex, EndTable(task.lo, task.count));
      WalkTable(task, now, have, mem, owners, tableIndex, task.count - count);
      ghost var ready := mem;
      newPhysIndex, newCount := MapInTable(d, tableIndex, relativePageIndex, physIndex, count, flags);
      WalkStretch(task, ready, owners, mem, tableIndex + 1, task.count - count, task.count - newCount);
      PlaceNext(task.lo, task.count, tableIndex, relativePageIndex, count, newCount);
    }

    // The part of a range that lies in one table.
    method MapInTable(d: nat, t: nat, relPageIndex: nat, firstPhysIndex: nat, countPages: nat, flags: Flags)
      returns (physIndex: nat, count: nat)
      requires Valid() && IsDirectory(owners, d) && t < 0x400 && mem[d][t].Allocated() && relPageIndex < 0x400
      requires flags.Plain()
      requires NoneAllocated(mem, d, t * 0x400 + relPageIndex, t * 0x400 + relPageIndex + countPages)
      modifies this`mem
      ensures Valid()
      ensures count == if countPages <= 0x400 - relPageIndex then 0 else countPages - (0x400 - relPageIndex)
      ensures physIndex == firstPhysIndex + (countPages - count)
      ensures
        var v := t * 0x400 + relPageIndex;
        MapDone(old(mem), owners, mem, owners, d, v, v + (countPages - count), firstPhysIndex, flags)
      ensures TablesBut(old(mem), owners, mem, d, 0, 0)
    {
      hide Stretch, Coherent, Owned, Tidy, NoneAllocated, MapDone, TablesBut, MapWord, SetWord;
      physIndex, count := firstPhysIndex, countPages;
      var relativePageIndex := relPageIndex;
      var table := mem[d][t].page;
      ghost var before, lo, end := mem, t * 0x400 + relPageIndex, t * 0x400 + relPageIndex + countPages;
      ghost var v := lo;
      CoherentParts(mem, owners, pmm.regions, pmm.tables);
      StretchStart(mem, owners, d, lo, end, physIndex, flags);
      while relativePageIndex < 0x400 && count > 0
        invariant relativePageIndex <= 0x400
        invariant v == t * 0x400 + relativePageIndex && v + count == end && physIndex == firstPhysIndex + (v - lo)
        invariant lo <= v && IsMemory(mem)
        invariant Stretch(before, owners, mem, d, lo, v, end, firstPhysIndex, flags)
      {
        PageOf(t, relativePageIndex);
        ghost var next := StretchStep(before, owners, mem, d, t, lo, v, end, firstPhysIndex, flags);
        var word := mem[table][relativePageIndex];
        mem := SetWord(mem, table, relativePageIndex, MapWord(word, physIndex, flags));
        physIndex, v := physIndex + 1, v + 1;
        relativePageIndex, count := relativePageIndex + 1, count - 1;
      }
      StretchEnd(before, owners, mem, d, lo, v, end, firstPhysIndex, flags);
      StaysCoherent(before, owners, mem, pmm.regions, pmm.tables);
    }

    // ---- allocating pages ----

    // Gives entry `r` of table `t` a physical block; it fails only when memory has run out.
    method PlacePage(d: nat, t: nat, r: nat, flags: Flags) returns (ok: bool)
      requires Valid() && IsDirectory(owners, d) && t < 0x400 && mem[d][t].Allocated() && r < 0x400
      requires flags.isBusy && !Flat(mem, d, t * 0x400 + r).Allocated()
      modifies this`mem, this`owners, pmm`tables
      ensures Valid() && IsDirectory(owners, d)
      ensures TablesBut(old(mem), old(owners), mem, d, 0, 0)
      ensures ok <==> old(Left(pmm.tables)) > 0
      ensures ok ==> Left(pmm.tables) == old(Left(pmm.tables)) - 1
      ensures ok ==> AllocDone(old(mem), old(owners), mem, owners, d, t * 0x400 + r, t * 0x400 + r + 1, flags)
      ensures !ok ==> mem == old(mem) && owners == old(owners)
    {
      hide Coherent, Allotted, TablesBut, AllocDone, Left, NewFlags;
      PageOf(t, r);
      NothingDone(mem, owners, d, 0);
      var data := AllocateBlock();
      if data == 0 {
        return false;
      }
      ghost var next, newOwners := PagePlaced(mem, owners, d, t, r, data / 0x1000, flags, pmm.regions, pmm.tables);
      var table := mem[d][t].page;
      var word := mem[table][r];
      mem := SetWord(mem, table, r, Word(NewFlags(word.flags, flags), data / 0x1000));
      owners := newOwners;
      ok := true;
    }

    // The loops of CreatePages (`keep`: an entry that has a block keeps it) and of
    // AllocateVirtualMemory, which takes the range as it finds it.
    method FillPages(d: nat, pageIndex: nat, pagesCount: nat, flags: Flags, keep: bool)
      requires Valid() && IsDirectory(owners, d)
      requires pageIndex < 0x10_0000 && flags.isBusy
      requires keep || NoneAllocated(mem, d, pageIndex, pageIndex + pagesCount)
      requires Left(pmm.tables)
        >= MissingTables(mem, d, pageIndex / 0x400, EndTable(pageIndex, pagesCount)) + pagesCount
      modifies this`mem, this`owners, pmm`tables
      ensures Valid() && IsDirectory(owners, d)
      ensures AllocDone(old(mem), old(owners), mem, owners, d, pageIndex, EndPage(pageIndex, pagesCount), flags)
      ensures TablesBut(old(mem), old(owners), mem, d, pageIndex / 0x400, EndTable(pageIndex, pagesCount))
      ensures Left(pmm.tables) >= old(Left(pmm.tables))
        - MissingTables(old(mem), d, pageIndex / 0x400, EndTable(pageIndex, pagesCount)) - pagesCount
    {
      hide Fill, Coherent, AllocDone, TablesBut, NoneAllocated, MissingTables, Left, EndTable, EndPage, Place;
      var tableIndex: nat := pageIndex / 0x400;
      var relPageIndex: nat := pageIndex - tableIndex * 0x400;
      var left: nat := pagesCount;
      ghost var task := FillTask(mem, owners, d, pageIndex, pagesCount, flags);
      ghost var missing := MissingTables(mem, d, tableIndex, EndTable(pageIndex, pagesCount));
      ghost var budget := Left(pmm.tables) - missing - pagesCount;
      FillStart(task);
      PlaceStart(pageIndex, pagesCount);
      while tableIndex < 0x400 && left > 0
        invariant tableIndex <= 0x400 && left <= pagesCount
        invariant Place(pageIndex, pagesCount, tableIndex, relPageIndex, left)
        invariant Valid() && IsDirectory(owners, d)
        invariant Fill(task, mem, owners, tableIndex, pagesCount - left)
        invariant Left(pmm.tables) - MissingTables(mem, d, tableIndex, EndTable(pageIndex, pagesCount)) >= budget + left
        decreases 0x400 - tableIndex
      {
        left := FillStretchOf(task, d, tableIndex, relPageIndex, left, flags, keep);
        relPageIndex := 0;
        tableIndex := tableIndex + 1;
      }
      FillEnd(task, mem, owners, tableIndex, relPageIndex, left);
    }

    // One round of that walk.
    method FillStretchOf(ghost task: FillTask, d: nat, tableIndex: nat, relPageIndex: nat, count: nat, flags: Flags,
                         keep: bool)
      returns (left: nat)
      requires Valid() && IsDirectory(owners, d) && task.d == d && task.flags == flags && flags.isBusy
      requires Place(task.lo, task.count, tableIndex, relPageIndex, count) && tableIndex < 0x400 && count > 0
      requires Fill(task, mem, owners, tableIndex, task.count - count)
      requires keep || (IsMemory(task.m) && NoneAllocated(task.m, d, task.lo, task.lo + task.count))
      requires Left(pmm.tables) >= MissingTables(mem, d, tableIndex, EndTable(task.lo, task.count)) + count
      modifies this`mem, this`owners, pmm`tables
      ensures Valid() && IsDirectory(owners, d)
      ensures left <= task.count && Place(task.lo, task.count, tableIndex + 1, 0, left)
      ensures Fill(task, mem, owners, tableIndex + 1, task.count - left)
      ensures Left(pmm.tables) - MissingTables(mem, d, tableIndex + 1, EndTable(task.lo, task.count)) - left
        >= old(Left(pmm.tables)) - MissingTables(old(mem), d, tableIndex, EndTable(task.lo, task.count)) - count
    {
      hide Fill, Coherent, AllocDone, TablesBut, Grows, NoneAllocated, MissingTables, Left, EndTable;
      ghost var now, have := mem, owners;
      EnsureTable(d, tableIndex, EndTable(task.lo, task.count));
      FillTable(task, now, have, mem, owners, tableIndex, task.count - count);
      if !keep {
        FillAhead(task, mem, owners, tableIndex + 1, task.count - count);
      }
      ghost var ready, ours := mem, owners;
      left := FillInTable(d, tableIndex, relPageIndex, count, flags, keep);
      FillStretch(task, ready, ours, mem, owners, tableIndex + 1, task.count - count, task.count - left);
      PlaceNext(task.lo, task.count, tableIndex, relPageIndex, count, left);
    }

    // The part of the range that lies in one table.
    method FillInTable(d: nat, t: nat, relPageIndex: nat, pagesCount: nat, flags: Flags, keep: bool) returns (left: nat)
      requires Valid() && IsDirectory(owners, d) && t < 0x400 && mem[d][t].Allocated() && relPageIndex < 0x400
      requires flags.isBusy
      requires keep || NoneAllocated(mem, d, t * 0x400 + relPageIndex, t * 0x400 + relPageIndex + pagesCount)
      requires Left(pmm.tables) >= pagesCount
      modifies this`mem, this`owners, pmm`tables
      ensures Valid() && IsDirectory(owners, d)
      ensures left == if pagesCount <= 0x400 - relPageIndex then 0 else pagesCount - (0x400 - relPageIndex)
      ensures
        var v := t * 0x400 + relPageIndex;
        AllocDone(old(mem), old(owners), mem, owners, d, v, v + (pagesCount - left), flags)
      ensures TablesBut(old(mem), old(owners), mem, d, 0, 0)
      ensures Left(pmm.tables) - left >= old(Left(pmm.tables)) - pagesCount
    {
      hide Filled, Coherent, AllocDone, TablesBut, NoneAllocated, Left;
      left := pagesCount;
      var pageIndex: nat := relPageIndex;
      ghost var before, had, lo := mem, owners, t * 0x400 + relPageIndex;
      ghost var budget := Left(pmm.tables) - pagesCount;
      FilledStart(mem, owners, d, lo, lo + pagesCount, flags, keep);
      while pageIndex < 0x400 && left > 0
        invariant pageIndex <= 0x400 && left + (pageIndex - relPageIndex) == pagesCount
        invariant Valid() && IsDirectory(owners, d)
        invariant Filled(before, had, mem, owners, d, lo, t * 0x400 + pageIndex, lo + pagesCount, flags, keep)
        invariant Left(pmm.tables) - left >= budget
      {
        ghost var now, have, v := mem, owners, t * 0x400 + pageIndex;
        PageOf(t, pageIndex);
        FilledHere(before, had, mem, owners, d, t, lo, v, lo + pagesCount, flags, keep);
        if !keep || !mem[mem[d][t].page][pageIndex].Allocated() {
          var ok := PlacePage(d, t, pageIndex, flags);
          FilledStep(before, had, now, have, mem, owners, d, lo, v, lo + pagesCount, flags, keep);
        } else {
          FilledKeep(before, had, mem, owners, d, lo, v, lo + pagesCount, flags, keep);
        }
        pageIndex, left := pageIndex + 1, left - 1;
      }
      FilledEnd(before, had, mem, owners, d, lo, t * 0x400 + pageIndex, lo + pagesCount, flags, keep);
    }

    // A page that already has a block keeps it; the marks of the others are `flags`.
    method CreatePages(d: nat, pageIndex: nat, pagesCount: nat, flags: Flags) returns (ok: bool)
      requires Valid() && IsDirectory(owners, d) && IsU32(pageIndex) && IsU32(pagesCount) && flags.isBusy
      requires Left(pmm.tables)
        >= MissingTables(mem, d, pageIndex / 0x400, EndTable(pageIndex, pagesCount)) + pagesCount
      modifies this`mem, this`owners, pmm`tables
      ensures Valid() && IsDirectory(owners, d)
      ensures ok <==> ToU32(pageIndex + pagesCount) <= 0x40_0000
      ensures ok && pageIndex < 0x10_0000 ==>
        var end := if pageIndex + pagesCount <= 0x10_0000 then pageIndex + pagesCount else 0x10_0000;
        && AllocDone(old(mem), old(owners), mem, owners, d, pageIndex, end, flags)
        && TablesBut(old(mem), old(owners), mem, d, pageIndex / 0x400, EndTable(pageIndex, pagesCount))
        && Left(pmm.tables) >= old(Left(pmm.tables))
          - MissingTables(old(mem), d, pageIndex / 0x400, EndTable(pageIndex, pagesCount)) - pagesCount
      ensures !ok || pageIndex >= 0x10_0000 ==>
        mem == old(mem) && owners == old(owners) && pmm.tables == old(pmm.tables)
      ensures old(TablesPresent(mem, owners)) ==> TablesPresent(mem, owners)
    {
      hide Coherent, AllocDone, TablesBut, NoneAllocated, MissingTables, Left, EndTable, EndPage, TablesPresent;
      if ToU32(pageIndex + pagesCount) > 0x1000 * 0x400 {
        return false;
      }
      if pageIndex / 0x400 < 0x400 {
        ghost var before, had := mem, owners;
        FillPages(d, pageIndex, pagesCount, flags, true);
        WalkBounds(pageIndex, pagesCount);
        AllocKeepsDirectories(before, had, mem, owners, d, pageIndex, EndPage(pageIndex, pagesCount), flags);
        TablesStayPresent(before, had, mem, owners, d, pageIndex / 0x400, EndTable(pageIndex, pagesCount));
      }
      ok := true;
    }

    // ---- allocating a block at a given page ----

    // The inner loop of the check: up to the first busy entry of one table.
    method CheckTable(d: nat, t: nat, relPageIndex: nat, pagesCount: nat) returns (r: nat, left: nat, busy: bool)
      requires IsMemory(mem) && d < 0x10_0000 && t < 0x400 && mem[d][t].Allocated() && relPageIndex < 0x400
      ensures relPageIndex <= r <= 0x400 && left + (r - relPageIndex) == pagesCount
      ensures left == CheckLeft(mem, d, t, relPageIndex, pagesCount)
      ensures forall v :: t * 0x400 + relPageIndex <= v < t * 0x400 + r ==> !Flat(mem, d, v).Busy()
      ensures busy || left == 0 || r == 0x400
      ensures busy ==> r < 0x400 && left > 0 && Flat(mem, d, t * 0x400 + r).Busy()
    {
      r, left := relPageIndex, pagesCount;
      var table := mem[d][t].page;
      while r < 0x400 && left > 0
        invariant relPageIndex <= r <= 0x400 && left + (r - relPageIndex) == pagesCount
        invariant CheckLeft(mem, d, t, r, left) == CheckLeft(mem, d, t, relPageIndex, pagesCount)
        invariant forall v :: t * 0x400 + relPageIndex <= v < t * 0x400 + r ==> !Flat(mem, d, v).Busy()
        decreases left
      {
        PageOf(t, r);
        assert IsPage(mem[d]);
        if mem[table][r].Busy() {
          return r, left, true;
        }
        r, left := r + 1, left - 1;
      }
      busy := false;
    }

    // One round of the check; the tables it needs are made, and stay even when it fails.
    method CheckRound(d: nat, t: nat, relPageIndex: nat, pagesCount: nat) returns (r: nat, left: nat, busy: bool)
      requires Valid() && IsDirectory(owners, d) && t < 0x400 && relPageIndex < 0x400
      requires mem[d][t].Allocated() || Left(pmm.tables) > 0
      modifies this`mem, this`owners, pmm`tables
      ensures Valid() && IsDirectory(owners, d) && mem[d][t].Allocated()
      ensures Grows(old(mem), old(owners), mem, owners, d, 0, 0) && TablesBut(old(mem), old(owners), mem, d, t, t + 1)
      ensures Left(pmm.tables) == old(Left(pmm.tables)) - if old(mem[d][t].Allocated()) then 0 else 1
      ensures relPageIndex <= r <= 0x400 && left + (r - relPageIndex) == pagesCount
      ensures left == CheckLeft(mem, d, t, relPageIndex, pagesCount)
      ensures forall v :: t * 0x400 + relPageIndex <= v < t * 0x400 + r ==> !Flat(mem, d, v).Busy()
      ensures busy || left == 0 || r == 0x400
      ensures busy ==> r < 0x400 && left > 0 && Flat(mem, d, t * 0x400 + r).Busy()
    {
      NothingDone(mem, owners, d, t);
      hide Coherent, Grows, TablesBut, Left;
      if !mem[d][t].Allocated() {
        var created := CreateTable(d, t, PRESENT_WRITABLE);
      }
      r, left, busy := CheckTable(d, t, relPageIndex, pagesCount);
    }

    // The check that all pages of a range are free.  It goes on to the next table after a busy page.
    method CheckRange(d: nat, pageIndex: nat, pagesCount: nat) returns (free: bool, tableIndex: nat, relPageIndex: nat)
      requires Valid() && IsDirectory(owners, d) && pagesCount > 0
      requires pageIndex < 0x10_0000 ==>
        Left(pmm.tables) >= TablesToCheck(mem, d, pageIndex, pagesCount)
      modifies this`mem, this`owners, pmm`tables
      ensures Valid() && IsDirectory(owners, d)
      ensures Grows(old(mem), old(owners), mem, owners, d, 0, 0)
      ensures free <==> RangeFree(old(mem), d, pageIndex, pageIndex + pagesCount)
      ensures free ==> tableIndex < 0x400 && 0 < relPageIndex <= 0x400
      ensures free ==> tableIndex * 0x400 + relPageIndex == pageIndex + pagesCount
      ensures TablesBut(old(mem), old(owners), mem, d, 0, 0x400)
      ensures free ==> MissingTables(mem, d, pageIndex / 0x400, EndTable(pageIndex, pagesCount)) == 0
      ensures pageIndex < 0x10_0000 ==>
        Left(pmm.tables) + TablesToCheck(old(mem), d, pageIndex, pagesCount) >= old(Left(pmm.tables))
    {
      hide Check, Coherent, Grows, TablesBut, Left, RangeFree, CheckTables, CheckLeft, MissingTables, EndTable;
      tableIndex := pageIndex / 0x400;
      relPageIndex := pageIndex - tableIndex * 0x400;
      if pageIndex >= 0x10_0000 {
        NothingDone(mem, owners, d, 0);
        NoRoom(mem, d, pageIndex, pagesCount);
        return false, tableIndex, relPageIndex;
      }
      var freePages, left := true, pagesCount;
      ghost var before, had := mem, owners;
      ghost var budget := Left(pmm.tables) - CheckTables(mem, d, tableIndex, relPageIndex, pagesCount);
      CheckStart(mem, owners, d, pageIndex, pagesCount);
      while tableIndex < 0x400 && left > 0
        invariant tableIndex <= 0x400 && relPageIndex < 0x400 && left > 0
        invariant Valid() && IsDirectory(owners, d)
        invariant Check(before, had, mem, owners, d, pageIndex, pagesCount, tableIndex, relPageIndex, left, freePages)
        invariant Left(pmm.tables) >= budget + CheckTables(before, d, tableIndex, relPageIndex, left)
        decreases 0x400 - tableIndex
      {
        ghost var now, have, r, count := mem, owners, relPageIndex, left;
        CheckCost(before, had, mem, owners, d, pageIndex, pagesCount, tableIndex, relPageIndex, left, freePages);
        var busy: bool;
        relPageIndex, left, busy := CheckRound(d, tableIndex, relPageIndex, left);
        CheckSpent(before, had, now, have, mem, owners, d, pageIndex, pagesCount, tableIndex, r, count, freePages);
        CheckStep(before, had, now, have, mem, owners, d, pageIndex, pagesCount, tableIndex, r, count, freePages,
                  relPageIndex, left, busy);
        if busy {
          freePages := false;
        }
        if left == 0 {
          CheckEnd(before, had, mem, owners, d, pageIndex, pagesCount, tableIndex, relPageIndex, freePages);
          return freePages, tableIndex, relPageIndex;
        }
        relPageIndex := 0;
        tableIndex := tableIndex + 1;
      }
      CheckFails(before, had, mem, owners, d, pageIndex, pagesCount, relPageIndex, left, freePages);
      free := false;
    }

    // The pages are given blocks, and the last one is marked.
    method TakeRange(d: nat, pageIndex: nat, pagesCount: nat, flags: Flags, t: nat, r: nat, ghost m: Memory,
                     ghost o: Owners)
      requires Valid() && IsDirectory(owners, d) && IsMemory(m) && IsDirectory(o, d) && Tidy(m, o)
      requires pagesCount > 0 && RangeFree(m, d, pageIndex, pageIndex + pagesCount) && Grows(m, o, mem, owners, d, 0, 0)
      requires t < 0x400 && 0 < r <= 0x400 && t * 0x400 + r == pageIndex + pagesCount
      requires flags.Plain() && flags.isBusy
      requires MissingTables(mem, d, pageIndex / 0x400, EndTable(pageIndex, pagesCount)) == 0
      requires Left(pmm.tables) >= pagesCount
      modifies this`mem, this`owners, pmm`tables
      ensures Valid() && IsDirectory(owners, d)
      ensures BlockDone(m, o, mem, owners, d, pageIndex, pageIndex + pagesCount, flags)
      ensures TablesBut(old(mem), old(owners), mem, d, 0, 0x400)
      ensures Left(pmm.tables) >= old(Left(pmm.tables)) - pagesCount
    {
      hide Coherent, AllocDone, BlockDone, RangeFree, Tidy, Owned, Grows, TablesBut, MissingTables, Left;
      ghost var hi := pageIndex + pagesCount;
      RangeInBounds(m, d, pageIndex, hi);
      ghost var now, have := mem, owners;
      var created := CreatePages(d, pageIndex, pagesCount, flags);
      AllocNothing(m, o, now, have, d, pageIndex, flags);
      AllocChain(m, o, now, have, mem, owners, d, pageIndex, pageIndex, hi, flags);
      ghost var filled, ours := mem, owners;
      MarkLast(d, t, r - 1, pageIndex, hi, flags, m, o);
      AllocKeepsDirectories(now, have, filled, ours, d, pageIndex, hi, flags);
      TablesWithin(now, have, filled, d, pageIndex / 0x400, EndTable(pageIndex, pagesCount));
      TablesWithin(filled, ours, mem, d, 0, 0);
      TablesAgain(now, have, filled, ours, mem, d, 0, 0x400);
    }

    // The closing mark on the last entry of a range.
    method MarkLast(d: nat, t: nat, r: nat, ghost lo: nat, ghost hi: nat, ghost flags: Flags, ghost m: Memory,
                    ghost o: Owners)
      requires Valid() && IsDirectory(owners, d) && IsMemory(m) && IsDirectory(o, d) && Tidy(m, o)
      requires t < 0x400 && r < 0x400 && lo < hi == t * 0x400 + r + 1 && RangeFree(m, d, lo, hi)
      requires flags.Plain() && flags.isBusy && AllocDone(m, o, mem, owners, d, lo, hi, flags)
      modifies this`mem
      ensures Valid() && BlockDone(m, o, mem, owners, d, lo, hi, flags)
      ensures TablesBut(old(mem), owners, mem, d, 0, 0)
    {
      hide Coherent, AllocDone, BlockDone, RangeFree, Tidy, Owned, Grows, TablesBut;
      PageOf(t, r);
      CoherentParts(mem, owners, pmm.regions, pmm.tables);
      ghost var before := mem;
      ghost var next := CloseBlock(m, o, mem, owners, d, lo, hi, flags);
      var table := mem[d][t].page;
      var word := mem[table][r];
      mem := SetWord(mem, table, r, word.(flags := word.flags.(isClosing := true)));
      StaysCoherent(before, owners, mem, pmm.regions, pmm.tables);
    }

    // Succeeds exactly when the whole range exists and is free, and makes one block of it.  A
    // refused call leaves all translations alone, but the tables it has made on the way stay.
    method AllocateVirtualMemoryToPage(d: nat, pageIndex: nat, bytesCount: nat, flags: Flags) returns (ok: bool)
      requires Valid() && IsDirectory(owners, d) && IsU32(pageIndex) && bytesCount < 0xFFFF_F000 && flags.Plain()
      requires pageIndex < 0x10_0000 ==>
        Left(pmm.tables) >= TablesToCheck(mem, d, pageIndex, FramesFor(bytesCount)) + FramesFor(bytesCount)
      modifies this`mem, this`owners, pmm`tables
      ensures Valid() && IsDirectory(owners, d)
      ensures ok <==> RangeFree(old(mem), d, pageIndex, pageIndex + FramesFor(bytesCount))
      ensures ok ==>
        && pageIndex < 0x10_0000
        && BlockDone(old(mem), old(owners), mem, owners, d, pageIndex, pageIndex + FramesFor(bytesCount), flags)
        && Left(pmm.tables) + TablesToCheck(old(mem), d, pageIndex, FramesFor(bytesCount)) + FramesFor(bytesCount)
          >= old(Left(pmm.tables))
      ensures !ok ==> Grows(old(mem), old(owners), mem, owners, d, 0, 0)
      ensures !ok && pageIndex < 0x10_0000 ==>
        Left(pmm.tables) + TablesToCheck(old(mem), d, pageIndex, FramesFor(bytesCount)) >= old(Left(pmm.tables))
      ensures TablesBut(old(mem), old(owners), mem, d, 0, 0x400)
      ensures old(TablesPresent(mem, owners)) ==> TablesPresent(mem, owners)
    {
      hide Coherent, BlockDone, RangeFree, Tidy, Owned, Grows, TablesBut, MissingTables, Left, CheckTables, EndTable,
        TablesPresent;
      FramesForRequest(bytesCount);
      var pagesCount := FramesFor(bytesCount);
      ghost var before, had := mem, owners;
      CoherentParts(mem, owners, pmm.regions, pmm.tables);
      var free, t, r := CheckRange(d, pageIndex, pagesCount);
      GrowsKeepsDirectories(before, had, mem, owners, d);
      TablesStayPresent(before, had, mem, owners, d, 0, 0x400);
      if !free {
        return false;
      }
      RangeInBounds(before, d, pageIndex, pageIndex + pagesCount);
      ghost var now, have := mem, owners;
      TakeRange(d, pageIndex, pagesCount, flags.(isBusy := true), t, r, before, had);
      BlockFlags(before, had, mem, owners, d, pageIndex, pageIndex + pagesCount, flags);
      TablesAgain(before, had, now, have, mem, d, 0, 0x400);
      BlockKeepsDirectories(before, had, mem, owners, d, pageIndex, pageIndex + pagesCount, flags);
      TablesStayPresent(before, had, mem, owners, d, 0, 0x400);
      ok := true;
    }

    // ---- freeing ----

    // The address of the block's first byte goes back to the physical manager.
    method ReturnBlock(page: nat)
      requires Valid() && page in Live(pmm.tables)
      modifies pmm`tables
      ensures SoundTables(pmm.regions, pmm.tables) && Live(pmm.tables) == old(Live(pmm.tables)) - {page}
      ensures TwoFrameBlocks(owners, pmm.tables)
    {
      hide Coherent, ShapedTables, AllRuns, DistinctPages, Consecutive, Live, FindAddress, Release, TwoFrameBlocks;
      CoherentTables(mem, owners, pmm.regions, pmm.tables);
      LivePageAddress(pmm.tables, page);
      match FindAddress(pmm.tables, 0, page * 0x1000) {
        case None =>
        case Some((i, j)) => TwoFramesKept(owners, pmm.tables, i, j);
      }
      var freed := pmm.FreePhysicalMemory(page * 0x1000);
    }

    method FreePage(d: nat, t: nat, r: nat, ghost m: Memory, ghost o: Owners, ghost lo: nat, ghost end: nat)
      requires Valid() && t < end <= 0x400 && r < 0x400 && lo <= t * 0x400 + r
      requires Freed(m, o, mem, owners, d, lo, t * 0x400 + r, end)
      modifies this`mem, this`owners, pmm`tables
      ensures Valid() && Freed(m, o, mem, owners, d, lo, t * 0x400 + r + 1, end)
    {
      hide Coherent, Freed, SoundTables, Owned, Tidy, Live;
      PageOf(t, r);
      CoherentParts(mem, owners, pmm.regions, pmm.tables);
      ghost var now, have, before := mem, owners, pmm.tables;
      ghost var next, newOwners := FreedStep(m, o, mem, owners, d, lo, t * 0x400 + r, end);
      CoherentTables(mem, owners, pmm.regions, pmm.tables);
      var table := mem[d][t].page;
      var word := mem[table][r];
      if word.Allocated() {
        ReturnBlock(word.page);
      }
      mem := SetWord(mem, table, r, ZERO);
      owners := newOwners;
      BlockReturned(now, have, mem, owners, pmm.regions, before, pmm.tables, word);
    }

    // All tables of the range must be there; the code does not look.
    method FreePages(d: nat, pageIndex: nat, pagesCount: nat) returns (ok: bool)
      requires Valid() && IsDirectory(owners, d) && IsU32(pageIndex) && IsU32(pagesCount)
      requires pageIndex < 0x10_0000 ==> Complete(mem, d, pageIndex / 0x400, EndTable(pageIndex, pagesCount))
      modifies this`mem, this`owners, pmm`tables
      ensures Valid()
      ensures ok <==> ToU32(pageIndex + pagesCount) <= 0x40_0000
      ensures ok && pageIndex < 0x10_0000 ==>
        var end := if pageIndex + pagesCount <= 0x10_0000 then pageIndex + pagesCount else 0x10_0000;
        FreeDone(old(mem), old(owners), mem, owners, d, pageIndex, end)
      ensures !ok || pageIndex >= 0x10_0000 ==>
        mem == old(mem) && owners == old(owners) && pmm.tables == old(pmm.tables)
      ensures old(TablesPresent(mem, owners)) ==> TablesPresent(mem, owners)
    {
      hide Coherent, Freed, Owned, Tidy, Complete, EndTable, EndPage, Place, FreeDone, TablesPresent;
      if ToU32(pageIndex + pagesCount) > 0x1000 * 0x400 {
        return false;
      }
      var tableIndex: nat := pageIndex / 0x400;
      var relPageIndex: nat, left: nat := pageIndex - tableIndex * 0x400, pagesCount;
      if pageIndex >= 0x10_0000 {
        return true;
      }
      ghost var m, o, end := mem, owners, EndTable(pageIndex, pagesCount);
      CoherentParts(mem, owners, pmm.regions, pmm.tables);
      FreedStart(mem, owners, d, pageIndex, end);
      PlaceStart(pageIndex, pagesCount);
      while tableIndex < 0x400 && left > 0
        invariant tableIndex <= 0x400 && left <= pagesCount
        invariant Place(pageIndex, pagesCount, tableIndex, relPageIndex, left)
        invariant Valid() && Freed(m, o, mem, owners, d, pageIndex, pageIndex + (pagesCount - left), end)
        decreases 0x400 - tableIndex
      {
        PlaceHere(pageIndex, pagesCount, tableIndex, relPageIndex, left);
        ghost var r, count := relPageIndex, left;
        while relPageIndex < 0x400 && left > 0
          invariant r <= relPageIndex <= 0x400 && left + (relPageIndex - r) == count
          invariant Valid() && Freed(m, o, mem, owners, d, pageIndex, pageIndex + (pagesCount - left), end)
          decreases left
        {
          FreePage(d, tableIndex, relPageIndex, m, o, pageIndex, end);
          relPageIndex, left := relPageIndex + 1, left - 1;
        }
        PlaceNext(pageIndex, pagesCount, tableIndex, r, count, left);
        relPageIndex := 0;
        tableIndex := tableIndex + 1;
      }
      PlaceEnd(pageIndex, pagesCount, tableIndex, relPageIndex, left);
      FreedEnd(m, o, mem, owners, d, pageIndex, pageIndex + (pagesCount - left), end);
      WalkBounds(pageIndex, pagesCount);
      FreeKeepsTables(m, o, mem, owners, d, pageIndex, pageIndex + (pagesCount - left));
      ok := true;
    }

    // The walk to the closing mark.
    method FindClosing(d: nat, pageIndex: nat) returns (closed: bool, remPagesCount: nat)
      requires IsMemory(mem) && d < 0x10_0000
      ensures closed <==> Scan(mem, d, pageIndex).Some?
      ensures closed ==> remPagesCount > 0 && Scan(mem, d, pageIndex) == Some(pageIndex + remPagesCount - 1)
    {
      hide Scan, Flat;
      remPagesCount := 0;
      var tableIndex: nat := pageIndex / 0x400;
      var relPageIndex: nat := pageIndex - tableIndex * 0x400;
      while tableIndex < 0x400
        invariant tableIndex * 0x400 + relPageIndex == pageIndex + remPagesCount && relPageIndex < 0x400
        invariant Scan(mem, d, pageIndex) == Scan(mem, d, tableIndex * 0x400 + relPageIndex)
        decreases 0x400 - tableIndex
      {
        if !mem[d][tableIndex].Allocated() {
          ScanStops(mem, d, tableIndex, relPageIndex);
          return false, remPagesCount;
        }
        var table := mem[d][tableIndex].page;
        while relPageIndex < 0x400
          invariant relPageIndex <= 0x400
          invariant tableIndex * 0x400 + relPageIndex == pageIndex + remPagesCount
          invariant Scan(mem, d, pageIndex) == Scan(mem, d, tableIndex * 0x400 + relPageIndex)
        {
          ScanAt(mem, d, tableIndex, relPageIndex);
          if mem[table][relPageIndex].Closing() {
            return true, remPagesCount + 1;
          }
          relPageIndex, remPagesCount := relPageIndex + 1, remPagesCount + 1;
        }
        relPageIndex := 0;
        tableIndex := tableIndex + 1;
      }
      ScanEnds(mem, d, tableIndex * 0x400 + relPageIndex);
      closed := false;
    }

    // Frees everything from the page of `memory` to the next closing mark; without one, nothing.
    method FreeVirtualMemory(d: nat, memory: nat) returns (ok: bool)
      requires Valid() && IsDirectory(owners, d) && IsU32(memory)
      modifies this`mem, this`owners, pmm`tables
      ensures Valid()
      ensures match Scan(old(mem), d, memory / 0x1000)
        case None => !ok && mem == old(mem) && owners == old(owners) && pmm.tables == old(pmm.tables)
        case Some(c) => ok && FreeDone(old(mem), old(owners), mem, owners, d, memory / 0x1000, c + 1)
      ensures old(TablesPresent(mem, owners)) ==> TablesPresent(mem, owners)
    {
      hide Coherent, FreeDone, Scan, TablesPresent;
      var pageIndex := memory / 0x1000;
      var closed, remPagesCount := FindClosing(d, pageIndex);
      if !closed {
        return false;
      }
      ScannedTables(mem, d, pageIndex, remPagesCount);
      ok := FreePages(d, pageIndex, remPagesCount);
    }

    // ---- allocating a block anywhere ----

    // The loops that fill a free range, and the mark.
    method FillBlock(d: nat, pageIndex: nat, pagesCount: nat, flags: Flags)
      requires Valid() && IsDirectory(owners, d) && flags.Plain() && flags.isBusy
      requires pagesCount > 0 && RangeFree(mem, d, pageIndex, pageIndex + pagesCount)
      requires Left(pmm.tables) >= pagesCount + pagesCount / 0x400 + 2
      modifies this`mem, this`owners, pmm`tables
      ensures Valid() && IsDirectory(owners, d)
      ensures BlockDone(old(mem), old(owners), mem, owners, d, pageIndex, pageIndex + pagesCount, flags)
      ensures TablesBut(old(mem), old(owners), mem, d, pageIndex / 0x400, EndTable(pageIndex, pagesCount))
      ensures Left(pmm.tables) + pagesCount + pagesCount / 0x400 + 2 >= old(Left(pmm.tables))
      ensures old(TablesPresent(mem, owners)) ==> TablesPresent(mem, owners)
    {
      hide Coherent, AllocDone, BlockDone, RangeFree, Tidy, Owned, Grows, TablesBut, MissingTables, Left,
        NoneAllocated, EndTable, EndPage, TablesPresent;
      ghost var before, had := mem, owners;
      CoherentParts(mem, owners, pmm.regions, pmm.tables);
      RangeInBounds(mem, d, pageIndex, pageIndex + pagesCount);
      FreeHasNoBlocks(mem, owners, d, pageIndex, pageIndex + pagesCount);
      TablesForRange(mem, d, pageIndex, pagesCount);
      FillPages(d, pageIndex, pagesCount, flags, false);
      AllocKeepsDirectories(before, had, mem, owners, d, pageIndex, pageIndex + pagesCount, flags);
      ghost var filled := mem;
      var last := pageIndex + pagesCount - 1;
      MarkLast(d, last / 0x400, last % 0x400, pageIndex, pageIndex + pagesCount, flags, before, had);
      TablesKept(before, had, filled, owners, mem, d, pageIndex / 0x400, EndTable(pageIndex, pagesCount), 0);
      TablesStayPresent(before, had, mem, owners, d, pageIndex / 0x400, EndTable(pageIndex, pagesCount));
    }

    // The first match of the search becomes a block; the address of its first byte is returned.
    // There is nothing to return when the search matches nowhere.
    method AllocateVirtualMemory(d: nat, bytesCount: nat, flags: Flags) returns (r: nat)
      requires Valid() && IsDirectory(owners, d) && bytesCount < 0xFFFF_F000 && flags.Plain()
      requires SearchIsSound(mem, d, FramesFor(bytesCount))
      requires Left(pmm.tables) >= FramesFor(bytesCount) + FramesFor(bytesCount) / 0x400 + 2
      modifies this`mem, this`owners, pmm`tables
      ensures Valid() && IsDirectory(owners, d)
      ensures r == WRONG_INDEX ==> mem == old(mem) && owners == old(owners) && pmm.tables == old(pmm.tables)
      ensures r == WRONG_INDEX <==> forall index :: !IsFirst(old(mem), d, index, FramesFor(bytesCount))
      ensures r != WRONG_INDEX ==>
        && r % 0x1000 == 0 && r < 0x1_0000_0000
        && IsFirst(old(mem), d, r / 0x1000, FramesFor(bytesCount))
        && BlockDone(old(mem), old(owners), mem, owners, d, r / 0x1000, r / 0x1000 + FramesFor(bytesCount), flags)
        && TablesBut(old(mem), old(owners), mem, d, r / 0x1000 / 0x400, EndTable(r / 0x1000, FramesFor(bytesCount)))
        && Left(pmm.tables) + FramesFor(bytesCount) + FramesFor(bytesCount) / 0x400 + 2 >= old(Left(pmm.tables))
      ensures old(TablesPresent(mem, owners)) ==> TablesPresent(mem, owners)
    {
      hide Coherent, BlockDone, RangeFree, Tidy, Owned, Grows, TablesBut, Left, Probe, TablesPresent;
      FramesForRequest(bytesCount);
      var pagesCount := FramesFor(bytesCount);
      var freePagesBlockIndex := FindFreePagesBlockPageIndex(mem, d, pagesCount);
      if freePagesBlockIndex == WRONG_INDEX {
        return WRONG_INDEX;
      }
      assert IsFirst(mem, d, freePagesBlockIndex, pagesCount);
      ghost var before, had := mem, owners;
      FillBlock(d, freePagesBlockIndex, pagesCount, flags.(isBusy := true));
      BlockFlags(before, had, mem, owners, d, freePagesBlockIndex, freePagesBlockIndex + pagesCount, flags);
      r := freePagesBlockIndex * 0x1000;
    }

    // ---- directories ----

    // A new directory maps itself: the two pages of its block, at their own addresses.
    method CreateDirectory() returns (r: nat)
      requires Valid() && Left(pmm.tables) != 1
      modifies this`mem, this`owners, pmm`tables
      ensures Valid()
      ensures r == 0 <==> old(Left(pmm.tables)) == 0
      ensures r == 0 ==> mem == old(mem) && owners == old(owners)
      ensures r != 0 ==>
        DirectoryDone(old(mem), old(owners), mem, owners, r) && Left(pmm.tables) == old(Left(pmm.tables)) - 2
      // Both pages that it maps are its own block.
      ensures r != 0 ==> IsFrameBlock(pmm.tables, r / 0x1000)
      ensures old(TablesPresent(mem, owners)) ==> TablesPresent(mem, owners)
    {
      hide Coherent, Allotted, Owned, Tidy, SameBut, TablesBut, MissingTables, Left, MapDone, NoneAllocated,
        EndPage, EndTable, DirectoryDone, IsFrameBlock, TablesPresent;
      ghost var before, had := mem, owners;
      r := AllocateBlock();
      if r == 0 {
        return 0;
      }
      var dir := r / 0x1000;
      DirectoryAdded(mem, owners, dir, pmm.regions, pmm.tables);
      mem := SetPage(mem, dir, ZeroPage());
      owners := owners[dir := DirectoryAt(dir)];
      ghost var blank, have := mem, owners;
      BlankDirectory(mem, dir);
      var ok := MapPages(dir, 0, r, FramesFor(0x1000), PRESENT_WRITABLE);
      DirectoryMapped(before, had, blank, have, mem, owners, r);
      DirectoryOwned(before, had, mem, owners, r);
      NewDirectoryTables(before, had, mem, owners, r);
      CoherentBlocks(mem, owners, pmm.regions, pmm.tables, dir);
    }
  }

  lemma PageOf(t: nat, r: nat)
    requires r < 0x400
    ensures (t * 0x400 + r) / 0x400 == t && (t * 0x400 + r) % 0x400 == r
  {
  }
}
