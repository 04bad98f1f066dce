/** When the search for free pages can be relied on (library/vmm/vmm.cxx:211-253), over all states of the manager. */
module SearchDefects {
  import opened Align
  import opened Regions
  import opened Frames
  import opened FrameLayout
  import opened PhysicalMemory
  import opened Paging
  import opened Blocks
  import opened PageSearch
  import opened VirtualMemory

  // ---- every directory has its first table ----

  // CreateDirectory makes it, and nothing takes a table away.
  ghost predicate HasFirstTables(m: Memory, owners: Owners)
    requires IsMemory(m)
  {
    forall d :: IsDirectory(owners, d) ==> m[d][0].Allocated()
  }

  lemma FirstTablesStay(m: Memory, o: Owners, n: Memory, o': Owners)
    requires IsMemory(m) && IsMemory(n) && Owned(m, o) && Owned(n, o') && HasFirstTables(m, o)
    requires forall d :: IsDirectory(o', d) ==> IsDirectory(o, d) || n[d][0].Allocated()
    requires forall p :: p in o && o[p].TableAt? ==> p in o' && o'[p] == o[p]
    ensures HasFirstTables(n, o')
  {
    forall d | IsDirectory(o', d) ensures n[d][0].Allocated() {
      if IsDirectory(o, d) {
        var p := m[d][0].page;
        assert o[p] == TableAt(d, 0) && o'[p] == TableAt(d, 0);
        assert Uses(n, o', o'[p], p);
      }
    }
  }

  // Everything that allocates or maps.
  lemma GrowingKeepsFirstTables(m: Memory, o: Owners, n: Memory, o': Owners, d: nat, lo: int, hi: int)
    requires IsMemory(m) && IsMemory(n) && Owned(m, o) && Owned(n, o') && HasFirstTables(m, o)
    requires Grows(m, o, n, o', d, lo, hi)
    ensures HasFirstTables(n, o')
  {
    FirstTablesStay(m, o, n, o');
  }

  lemma FreeingKeepsFirstTables(m: Memory, o: Owners, n: Memory, o': Owners, d: nat, lo: nat, hi: nat)
    requires IsMemory(m) && IsMemory(n) && Owned(m, o) && Owned(n, o') && HasFirstTables(m, o)
    requires FreeDone(m, o, n, o', d, lo, hi)
    ensures HasFirstTables(n, o')
  {
    FirstTablesStay(m, o, n, o');
  }

  lemma NewDirectoryHasFirstTable(m: Memory, o: Owners, n: Memory, o': Owners, r: nat)
    requires IsMemory(m) && IsMemory(n) && Owned(m, o) && Owned(n, o') && HasFirstTables(m, o)
    requires DirectoryDone(m, o, n, o', r)
    ensures HasFirstTables(n, o')
  {
    assert Flat(n, r / 0x1000, 0).Busy();
    assert n[r / 0x1000][0 / 0x400].Allocated();
    FirstTablesStay(m, o, n, o');
  }

  // ---- the counts for which the search is sound ----

  // A state that the manager can be in, and one of its directories.
  ghost predicate IsState(m: Memory, owners: Owners, d: nat) {
    && IsMemory(m) && IsDirectory(owners, d) && HasFirstTables(m, owners)
    && exists regions, tables :: Coherent(m, owners, regions, tables)
  }

  // For `count` pages the search never returns anything but a free block.
  ghost predicate AlwaysSound(count: nat) {
    forall m: Memory, owners, d: nat :: IsState(m, owners, d) ==> SearchIsSound(m, d, count)
  }

  // So it is for one page, and for a count that leaves at most one page of an address space; for
  // every count in between some directory makes it return pages that are in use.
  lemma AlwaysSoundIff(count: nat)
    ensures AlwaysSound(count) <==> count < 2 || count >= 0xF_FFFF
  {
    if count < 2 || count >= 0xF_FFFF {
      forall m: Memory, owners, d: nat | IsState(m, owners, d) ensures SearchIsSound(m, d, count) {
        StateIsSound(m, owners, d, count);
      }
    } else {
      var m, owners, d := UnsoundState(count);
    }
  }

  lemma StateIsSound(m: Memory, owners: Owners, d: nat, count: nat)
    requires IsState(m, owners, d) && (count < 2 || count >= 0xF_FFFF)
    ensures SearchIsSound(m, d, count)
  {
    hide RangeFree, Probe, Coherent;
    forall index | IsFirst(m, d, index, count) ensures RangeFree(m, d, index, index + count) {
      FirstIsSound(m, d, index, count);
    }
  }

  lemma UnsoundState(count: nat) returns (m: Memory, owners: Owners, d: nat)
    requires 2 <= count < 0xF_FFFF
    ensures IsState(m, owners, d) && !SearchIsSound(m, d, count)
  {
    hide IsFirst, RangeFree, Flat, Coherent, HasFirstTables, CrowdedMemory, SparseMemory, Crowded, Sparse;
    d := 8;
    if count <= 0x400 {
      m, owners := CrowdedMemory(), TablesInRow(1025);
      CrowdedIsWitness();
      WitnessIsState(m, 1025);
      LastPageOfEachTable(m, d, count);
    } else {
      m, owners := SparseMemory(), TablesInRow(3);
      SparseIsWitness();
      WitnessIsState(m, 3);
      BusyPageBehindTable(m, d, count);
    }
  }

  // ---- physical memory with `k` blocks in a row ----

  function Room(): seq<Region> {
    [Region(0x1000, 0x80_B000, REGION_USABLE)]
  }

  // The frames begin at page 8, and each block has two.
  function Pairs(k: nat): (t: Table)
    ensures |t| == 2050
    ensures forall j :: 0 <= j < |t| ==>
      t[j] == Frame(0x8000 + j * 0x1000, if IsHead(k, j) then 2 else 0, j < 2 * k)
  {
    seq(2050, j requires 0 <= j => Frame(0x8000 + j * 0x1000, if IsHead(k, j) then 2 else 0, j < 2 * k))
  }

  predicate IsHead(k: nat, j: nat) {
    j < 2 * k && j % 2 == 0
  }

  lemma HeadAndTail(k: nat, j: nat)
    ensures IsHead(k, j) ==> j + 2 <= 2 * k && !IsHead(k, j + 1)
    ensures j < 2 * k && !IsHead(k, j) ==> j > 0 && IsHead(k, j - 1)
  {
  }

  lemma RoomLayout()
    ensures GetRegionFramesCount(Room()[0]) == 2050 && FirstFrame(Room()[0]) == 0x8000
  {
    RoomCount();
    assert AlignUp(ToU32(2050 * 12), 0x1000) == 0x7000;
  }

  lemma RoomCount()
    ensures GetRegionFramesCount(Room()[0]) == 2050
  {
    assert AlignDown(0x80_B000, 0x1000) == 0x80_A000;
    assert AlignUp(0x1000 + 12, 0x1000) == 0x2000;
    assert 0x80_A000 / (0x1000 + 12) == 2051;
  }

  lemma RoomHasFrames()
    ensures TableOf(Room()[0]) == Pairs(0)
  {
    hide FirstFrame, GetRegionFramesCount;
    var r := Room()[0];
    RoomLayout();
    forall j | 0 <= j < 2050 ensures FrameAddress(r, j) == 0x8000 + j * 0x1000 {
    }
  }

  lemma PairsAreRuns(k: nat)
    requires k <= 1025
    ensures Runs(Pairs(k))
  {
    hide Pairs, IsHead, RunHas;
    var t := Pairs(k);
    forall j | 0 <= j < |t| ensures t[j].busy <==> exists i :: 0 <= i <= j && RunHas(t, i, j) {
      BusyInPair(k, j);
    }
    forall j | 0 <= j < |t| ensures j + t[j].busyCount <= |t| {
      HeadAndTail(k, j);
    }
    forall i, j | 0 <= i < j < |t| && RunHas(t, i, j) ensures t[j].busyCount == 0 {
      TailHasNoCount(k, i, j);
    }
  }

  lemma TailHasNoCount(k: nat, i: nat, j: nat)
    requires k <= 1025 && i < j < 2050 && RunHas(Pairs(k), i, j)
    ensures Pairs(k)[j].busyCount == 0
  {
    hide Pairs, IsHead;
    HeadAndTail(k, i);
  }

  lemma BusyInPair(k: nat, j: nat)
    requires k <= 1025 && j < 2050
    ensures Pairs(k)[j].busy <==> exists i :: 0 <= i <= j && RunHas(Pairs(k), i, j)
  {
    hide Pairs, IsHead;
    var t := Pairs(k);
    HeadAndTail(k, j);
    if t[j].busy {
      assert RunHas(t, if IsHead(k, j) then j else j - 1, j);
    }
    if i :| 0 <= i <= j && RunHas(t, i, j) {
      HeadAndTail(k, i);
    }
  }

  lemma PairsAreSound(k: nat)
    requires k <= 1025
    ensures SoundTables(Room(), [Pairs(k)])
  {
    hide Runs;
    RoomHasFrames();
    PairsAreRuns(k);
    var v := [Pairs(k)];
    assert TablesOf(Room())[0] == Pairs(0);
    forall i, j | InTables(v, i, j) ensures PageAligned(v[i][j].address) {
      assert v[i][j].address == 0x8000 + j * 0x1000;
    }
  }

  // The owners of those blocks: a directory and `k - 1` tables.
  function TablesInRow(k: nat): Owners {
    map p | 8 <= p < 8 + 2 * k && p % 2 == 0 :: OwnerInRow(p)
  }

  function OwnerInRow(p: int): Owner {
    if p == 8 then DirectoryAt(8) else TableAt(8, (p - 10) / 2)
  }

  lemma PairsAreOwned(k: nat)
    requires k <= 1025
    ensures Accounted(TablesInRow(k), Room(), [Pairs(k)])
  {
    hide SoundTables;
    PairsAreSound(k);
    var v := [Pairs(k)];
    forall p ensures p in Live(v) <==> p in TablesInRow(k) {
      if p in TablesInRow(k) {
        assert InTables(v, 0, p - 8) && v[0][p - 8].busyCount > 0 && v[0][p - 8].address / 0x1000 == p;
      }
      if p in Live(v) {
        var j :| 0 <= j < |v[0]| && v[0][j].busyCount > 0 && v[0][j].address / 0x1000 == p;
      }
    }
    assert Live(v) == TablesInRow(k).Keys;
  }

  // Memory where page 8 is a directory with `k - 1` tables, whose entries are blank or in use.
  ghost predicate IsWitness(m: Memory, k: nat) {
    && IsMemory(m) && 2 <= k <= 1025
    && (forall t :: 0 <= t < 0x400 ==> m[8][t] == if t < k - 1 then TableEntry(t) else ZERO)
    && forall v :: 0 <= v < 0x10_0000 ==> Flat(m, 8, v) == ZERO || Flat(m, 8, v) == IN_USE
  }

  const IN_USE: Word := Word(Flags(0, true, false, false), 0)

  function TableEntry(t: nat): Word {
    Word(Flags(0, false, false, true), 10 + 2 * t)
  }

  lemma WitnessIsState(m: Memory, k: nat)
    requires IsWitness(m, k)
    ensures IsState(m, TablesInRow(k), 8)
  {
    hide Accounted, Pairs, Room;
    var owners := TablesInRow(k);
    PairsAreOwned(k);
    assert forall d :: IsDirectory(owners, d) <==> d == 8;
    forall p | p in owners ensures Uses(m, owners, owners[p], p) {
      assert p > 8 ==> m[8][(p - 10) / 2] == TableEntry((p - 10) / 2);
    }
    forall t | 0 <= t < 0x400 && m[8][t].Allocated()
      ensures m[8][t].page in owners && owners[m[8][t].page] == TableAt(8, t)
    {
    }
    assert Owned(m, owners) && Tidy(m, owners);
    assert Coherent(m, owners, Room(), [Pairs(k)]);
  }

  // ---- all tables are there, and only the last page of each is free ----

  ghost predicate Crowded(m: Memory, d: nat)
    requires IsMemory(m) && d < 0x10_0000
  {
    CrowdedUpTo(m, d, 0x400)
  }

  ghost predicate CrowdedUpTo(m: Memory, d: nat, tables: nat)
    requires IsMemory(m) && d < 0x10_0000 && tables <= 0x400
  {
    && (forall t :: 0 <= t < tables ==> m[d][t].Allocated())
    && forall v :: 0 <= v < tables * 0x400 ==> (Flat(m, d, v).Busy() <==> v % 0x400 != 0x3ff)
  }

  lemma {:induction false} CrowdedProbe(m: Memory, d: nat, t: nat, left: nat)
    requires IsMemory(m) && d < 0x10_0000 && Crowded(m, d) && t + left <= 0x400
    ensures Probe(m, d, t, 0x3ff, left)
    decreases left
  {
    if left > 0 {
      var v := t * 0x400 + 0x3ff;
      assert v / 0x400 == t && v % 0x400 == 0x3ff;
      CrowdedProbe(m, d, t + 1, left - 1);
    }
  }

  // The probe goes from one last page to the next, and takes them for neighbours.
  lemma LastPageOfEachTable(m: Memory, d: nat, count: nat)
    requires IsMemory(m) && d < 0x10_0000 && Crowded(m, d) && 2 <= count <= 0x400
    ensures IsFirst(m, d, 0x3ff, count) && !RangeFree(m, d, 0x3ff, 0x3ff + count)
  {
    hide Flat;
    CrowdedProbe(m, d, 0, count);
    assert 0x3ff / 0x400 == 0 && 0x3ff % 0x400 == 0x3ff;
    forall q | 0 <= q < 0x3ff ensures !Probe(m, d, q / 0x400, q % 0x400, count) {
      assert Flat(m, d, q).Busy() && q / 0x400 * 0x400 + q % 0x400 == q;
    }
    assert Flat(m, d, 0x400).Busy();
  }

  function CrowdedMemory(): Memory {
    seq(0x10_0000, p requires 0 <= p => CrowdedPage(p))
  }

  function CrowdedPage(p: nat): seq<Word> {
    seq(0x400, i requires 0 <= i => if p == 8 then TableEntry(i) else if i == 0x3ff then ZERO else IN_USE)
  }

  lemma CrowdedFlat(v: nat)
    requires v < 0x10_0000
    ensures IsMemory(CrowdedMemory())
    ensures Flat(CrowdedMemory(), 8, v) == if v % 0x400 == 0x3ff then ZERO else IN_USE
    ensures CrowdedMemory()[8][v / 0x400] == TableEntry(v / 0x400)
  {
    var m := CrowdedMemory();
    assert m[8] == CrowdedPage(8);
    assert m[10 + 2 * (v / 0x400)] == CrowdedPage(10 + 2 * (v / 0x400));
  }

  lemma CrowdedIsWitness()
    ensures IsWitness(CrowdedMemory(), 1025) && Crowded(CrowdedMemory(), 8)
  {
    hide Flat, CrowdedPage;
    var m := CrowdedMemory();
    CrowdedFlat(0);
    forall t | 0 <= t < 0x400 ensures m[8][t] == TableEntry(t) {
      CrowdedFlat(t * 0x400);
    }
    forall v | 0 <= v < 0x10_0000 ensures Flat(m, 8, v) == if v % 0x400 == 0x3ff then ZERO else IN_USE {
      CrowdedFlat(v);
    }
  }

  // ---- two tables, and only the first page of the second is in use ----

  ghost predicate Sparse(m: Memory, d: nat)
    requires IsMemory(m) && d < 0x10_0000
  {
    && (forall t :: 0 <= t < 0x400 ==> (m[d][t].Allocated() <==> t < 2))
    && forall v :: 0 <= v < 0x10_0000 ==> (Flat(m, d, v).Busy() <==> v == 0x400)
  }

  lemma {:induction false} MissingProbe(m: Memory, d: nat, t: nat, j: nat, left: nat)
    requires IsMemory(m) && d < 0x10_0000 && Sparse(m, d)
    requires 2 <= t <= 0x400 && j < 0x400 && left <= (0x400 - t) * 0x400
    ensures Probe(m, d, t, j, left)
    decreases 0x400 - t
  {
    if left > 0x400 {
      MissingProbe(m, d, t + 1, j, left - 0x400);
    }
  }

  // The probe that begins with the second page passes over the one in use.
  lemma BusyPageBehindTable(m: Memory, d: nat, count: nat)
    requires IsMemory(m) && d < 0x10_0000 && Sparse(m, d) && 0x400 < count < 0xF_FFFF
    ensures IsFirst(m, d, 1, count) && !RangeFree(m, d, 1, 1 + count)
  {
    hide Flat;
    assert Flat(m, d, 0x400).Busy();
    assert !Probe(m, d, 0, 0, count) by {
      assert !EntriesFree(m, d, 1, 0, 1);
    }
    if count - 0x3ff > 0x3ff {
      MissingProbe(m, d, 2, 1, count - 0x7fe);
    }
    assert Probe(m, d, 1, 1, count - 0x3ff);
    assert 1 / 0x400 == 0 && 1 % 0x400 == 1 && 0 / 0x400 == 0 && 0 % 0x400 == 0;
  }

  function SparseMemory(): Memory {
    seq(0x10_0000, p requires 0 <= p => SparsePage(p))
  }

  function SparsePage(p: nat): seq<Word> {
    seq(0x400, i requires 0 <= i =>
      if p == 8 && i < 2 then TableEntry(i) else if p == 12 && i == 0 then IN_USE else ZERO)
  }

  lemma SparseIsWitness()
    ensures IsWitness(SparseMemory(), 3) && Sparse(SparseMemory(), 8)
  {
    var m := SparseMemory();
    assert m[8] == SparsePage(8) && m[10] == SparsePage(10) && m[12] == SparsePage(12);
    forall v | 0 <= v < 0x10_0000 ensures Flat(m, 8, v) == if v == 0x400 then IN_USE else ZERO {
    }
  }

  // ---- the manager's own operations lead there ----

  // From any state with enough memory, a new directory that is used like this is one of those.
  method LeadToBusyPages(v: Vmm, count: nat) returns (d: nat, index: nat)
    requires v.Valid() && 2 <= count < 0xF_FFFF && Left(v.pmm.tables) >= 0x402
    modifies v`mem, v`owners, v.pmm`tables
    ensures v.Valid() && IsDirectory(v.owners, d)
    ensures IsFirst(v.mem, d, index, count) && !RangeFree(v.mem, d, index, index + count)
  {
    hide Coherent, DirectoryDone, Crowded, Sparse, Left, Flat, IsFirst, RangeFree;
    ghost var m, o := v.mem, v.owners;
    var directory := v.CreateDirectory();
    d := directory / 0x1000;
    FreshDirectory(m, o, v.mem, v.owners, directory);
    if count <= 0x400 {
      FillAllTables(v, d);
      LastPageOfEachTable(v.mem, d, count);
      index := 0x3ff;
    } else {
      UseSecondTable(v, d);
      BusyPageBehindTable(v.mem, d, count);
      index := 1;
    }
  }

  // A directory with only its first table, and nothing allocated.
  ghost predicate IsFresh(m: Memory, d: nat)
    requires IsMemory(m) && d < 0x10_0000
  {
    && (forall t :: 0 <= t < 0x400 ==> (m[d][t].Allocated() <==> t == 0))
    && forall v :: 0 <= v < 0x10_0000 ==> !Flat(m, d, v).Allocated() && (Flat(m, d, v).Busy() <==> v < 2)
  }

  lemma FreshDirectory(m: Memory, o: Owners, n: Memory, o': Owners, r: nat)
    requires IsMemory(m) && IsMemory(n) && DirectoryDone(m, o, n, o', r)
    ensures IsDirectory(o', r / 0x1000) && IsFresh(n, r / 0x1000)
  {
    var d := r / 0x1000;
    forall v | 0 <= v < 0x10_0000 ensures !Flat(n, d, v).Allocated() && (Flat(n, d, v).Busy() <==> v < 2) {
    }
    assert Flat(n, d, 0).Busy();
    assert n[d][0 / 0x400].Allocated();
  }

  // All pages but the last of each table are mapped.
  method FillAllTables(v: Vmm, d: nat)
    requires v.Valid() && IsDirectory(v.owners, d) && IsFresh(v.mem, d) && Left(v.pmm.tables) >= 0x400
    modifies v`mem, v`owners, v.pmm`tables
    ensures v.Valid() && IsDirectory(v.owners, d) && Crowded(v.mem, d)
  {
    hide Coherent, Left, Flat, IsFresh, CrowdedUpTo, FreeAhead, MissingTables, EndTable, EndPage, NoneAllocated,
      MapDone, TablesBut;
    FreshIsAhead(v.mem, d);
    for t := 0 to 0x400
      invariant v.Valid() && IsDirectory(v.owners, d) && Left(v.pmm.tables) >= 0x400 - t
      invariant CrowdedUpTo(v.mem, d, t) && FreeAhead(v.mem, d, t)
    {
      ghost var m, o := v.mem, v.owners;
      TableAhead(m, d, t);
      var ok := v.MapPages(d, t * 0x400, 0, 0x3ff, PRESENT_WRITABLE);
      TableCrowded(m, o, v.mem, v.owners, d, t);
    }
  }

  // From table `t` on no entry is allocated, and only two of them can be in use.
  ghost predicate FreeAhead(m: Memory, d: nat, t: nat)
    requires IsMemory(m) && d < 0x10_0000
  {
    forall v :: t * 0x400 <= v < 0x10_0000 ==>
      !Flat(m, d, v).Allocated() && (Flat(m, d, v).Busy() ==> v < 2)
  }

  lemma FreshIsAhead(m: Memory, d: nat)
    requires IsMemory(m) && d < 0x10_0000 && IsFresh(m, d)
    ensures CrowdedUpTo(m, d, 0) && FreeAhead(m, d, 0)
  {
  }

  lemma TableAhead(m: Memory, d: nat, t: nat)
    requires IsMemory(m) && d < 0x10_0000 && t < 0x400 && FreeAhead(m, d, t)
    ensures NoneAllocated(m, d, t * 0x400, t * 0x400 + 0x3ff)
    ensures t * 0x400 / 0x400 == t && EndTable(t * 0x400, 0x3ff) == t + 1
    ensures EndPage(t * 0x400, 0x3ff) == t * 0x400 + 0x3ff
    ensures MissingTables(m, d, t, t + 1) <= 1
  {
    assert MissingTables(m, d, t + 1, t + 1) == 0;
  }

  lemma TableCrowded(m: Memory, o: Owners, n: Memory, o': Owners, d: nat, t: nat)
    requires IsMemory(m) && IsMemory(n) && IsDirectory(o, d) && t < 0x400
    requires CrowdedUpTo(m, d, t) && FreeAhead(m, d, t)
    requires MapDone(m, o, n, o', d, t * 0x400, t * 0x400 + 0x3ff, 0, PRESENT_WRITABLE)
    requires TablesBut(m, o, n, d, t, t + 1)
    ensures CrowdedUpTo(n, d, t + 1) && FreeAhead(n, d, t + 1)
  {
    forall v | 0 <= v < 0x10_0000 && !(t * 0x400 <= v < t * 0x400 + 0x3ff) ensures Flat(n, d, v) == Flat(m, d, v) {
    }
    forall v | 0 <= v < (t + 1) * 0x400 ensures Flat(n, d, v).Busy() <==> v % 0x400 != 0x3ff {
      assert v >= t * 0x400 ==> v % 0x400 == v - t * 0x400;
    }
    assert Flat(n, d, t * 0x400).Busy();
    assert n[d][t * 0x400 / 0x400].Allocated();
  }

  // The first pages are given back, and one page of the second table is mapped.
  method UseSecondTable(v: Vmm, d: nat)
    requires v.Valid() && IsDirectory(v.owners, d) && IsFresh(v.mem, d) && Left(v.pmm.tables) >= 1
    modifies v`mem, v`owners, v.pmm`tables
    ensures v.Valid() && IsDirectory(v.owners, d) && Sparse(v.mem, d)
  {
    hide Coherent, Left, Flat, MissingTables, EndTable, EndPage, NoneAllocated, MapDone, FreeDone, TablesBut, Complete;
    ghost var m, o := v.mem, v.owners;
    FirstTableThere(m, d);
    var ok := v.MapPages(d, 0x400, 0, 1, PRESENT_WRITABLE);
    ghost var n, o' := v.mem, v.owners;
    SecondTableUsed(m, o, n, o', d);
    var freed := v.FreePages(d, 0, 2);
    FirstPagesFreed(n, o', v.mem, v.owners, d);
  }

  lemma FirstTableThere(m: Memory, d: nat)
    requires IsMemory(m) && d < 0x10_0000 && IsFresh(m, d)
    ensures NoneAllocated(m, d, 0x400, 0x401) && MissingTables(m, d, 1, 2) <= 1
    ensures EndTable(0, 2) == 1 && EndPage(0, 2) == 2 && EndTable(0x400, 1) == 2 && EndPage(0x400, 1) == 0x401
  {
    assert MissingTables(m, d, 2, 2) == 0;
  }

  // Two tables, in use are the first pages of each.
  ghost predicate IsMapped(m: Memory, d: nat)
    requires IsMemory(m) && d < 0x10_0000
  {
    && (forall t :: 0 <= t < 0x400 ==> (m[d][t].Allocated() <==> t < 2))
    && forall v :: 0 <= v < 0x10_0000 ==> (Flat(m, d, v).Busy() <==> v < 2 || v == 0x400)
  }

  lemma SecondTableUsed(m: Memory, o: Owners, n: Memory, o': Owners, d: nat)
    requires IsMemory(m) && IsMemory(n) && IsDirectory(o, d) && IsFresh(m, d)
    requires MapDone(m, o, n, o', d, 0x400, 0x401, 0, PRESENT_WRITABLE) && TablesBut(m, o, n, d, 1, 2)
    ensures IsMapped(n, d) && Complete(n, d, 0, 1)
  {
    forall v | 0 <= v < 0x10_0000 && v != 0x400 ensures Flat(n, d, v) == Flat(m, d, v) {
    }
    assert Flat(n, d, 0x400).Busy();
    assert n[d][0x400 / 0x400].Allocated();
  }

  lemma FirstPagesFreed(m: Memory, o: Owners, n: Memory, o': Owners, d: nat)
    requires IsMemory(m) && IsMemory(n) && IsDirectory(o, d) && IsMapped(m, d) && FreeDone(m, o, n, o', d, 0, 2)
    ensures IsDirectory(o', d) && Sparse(n, d)
  {
    hide Flat;
    forall v | 0 <= v < 0x10_0000 ensures Flat(n, d, v) == if v < 2 then ZERO else Flat(m, d, v) {
    }
  }
}
