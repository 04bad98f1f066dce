/** The physical memory manager (library/pmm/pmm.cxx): boot-time setup and the frame allocator. */
module PhysicalMemory {
  import opened Align
  import opened Options
  import opened Regions
  import opened Frames
  import opened FrameLayout
  import RegionPasses

  // The first descriptor that stands for `address`.
  function FindAddress(v: seq<Table>, i: nat, address: nat): (r: Option<(nat, nat)>)
    ensures r.Some? ==>
      var (m, j) := r.value;
      i <= m < |v| && j < |v[m]| && v[m][j].address == address
    ensures r.None? ==> forall m, j :: i <= m < |v| && 0 <= j < |v[m]| ==> v[m][j].address != address
    decreases |v| - i
  {
    if i >= |v| then None
    else
      match FindAddressIn(v[i], 0, address)
      case Some(j) => Some((i, j))
      case None => FindAddress(v, i + 1, address)
  }

  function FindAddressIn(t: Table, j: nat, address: nat): (r: Option<nat>)
    ensures r.Some? ==> j <= r.value < |t| && t[r.value].address == address
    ensures r.None? ==> forall k :: j <= k < |t| ==> t[k].address != address
    decreases |t| - j
  {
    if j >= |t| then None
    else if t[j].address == address then Some(j)
    else FindAddressIn(t, j + 1, address)
  }

  // The length of the block that `memory` heads, in frames; zero when it heads none.
  function BlockLength(v: seq<Table>, memory: nat): nat {
    match FindAddress(v, 0, memory)
    case None => 0
    case Some((m, k)) => v[m][k].busyCount
  }

  // There is room, and `memory` heads a block or is the very frame that the new block starts at;
  // in that last case the result is free again.
  predicate CanMove(v: seq<Table>, memory: nat, count: nat)
    requires IsU32(count)
  {
    && FindFit(v, 0, FramesFor(count)).Some?
    && (BlockLength(v, memory) > 0 || FindAddress(v, 0, memory) == FindFit(v, 0, FramesFor(count)))
  }

  predicate SameBytes(a: seq<int>, i: nat, b: seq<int>, j: nat, count: nat) {
    i + count <= |a| && j + count <= |b| && a[i..i + count] == b[j..j + count]
  }

  ghost predicate SameElsewhere(ram: seq<int>, newRam: seq<int>, at: nat, count: nat) {
    |newRam| == |ram| && forall y :: 0 <= y < |ram| && !(at <= y < at + count) ==> newRam[y] == ram[y]
  }

  // Only the place that first fit would choose may have been written to.
  ghost predicate OnlyNewBlock(v: seq<Table>, count: nat, ram: seq<int>, newRam: seq<int>)
    requires IsU32(count)
  {
    match FindFit(v, 0, FramesFor(count))
    case None => newRam == ram
    case Some((i, j)) => SameElsewhere(ram, newRam, v[i][j].address, count)
  }

  // Where the new block is, and the tables when the old one is gone.
  ghost function Moved(v: seq<Table>, memory: nat, count: nat): Option<(nat, seq<Table>)>
    requires IsU32(count)
  {
    match FindFit(v, 0, FramesFor(count))
    case None => None
    case Some((i, j)) =>
      var w := v[i := Occupy(v[i], j, FramesFor(count))];
      match FindAddress(w, 0, memory)
      case None => None
      case Some((m, k)) => Some((v[i][j].address, w[m := Release(w[m], k)]))
  }

  // Frames of a table follow each other page by page and end within 4 GiB.
  ghost predicate Consecutive(v: seq<Table>) {
    forall i, j :: 0 <= i < |v| && 0 <= j < |v[i]| ==>
      v[i][j].address == v[i][0].address + j * 0x1000 && v[i][j].address + 0x1000 <= 0x1_0000_0000
  }

  ghost predicate AllRuns(v: seq<Table>) {
    forall i :: 0 <= i < |v| ==> Runs(v[i])
  }

  ghost predicate ShapedTables(regions: seq<Region>, tables: seq<Table>) {
    && |tables| == |regions|
    && forall i :: 0 <= i < |tables| ==>
        |tables[i]| == if regions[i].Usable() then GetRegionFramesCount(regions[i]) else 0
  }

  // Holds from boot on when the usable regions are disjoint and none is two pages long.
  ghost predicate SoundTables(regions: seq<Region>, tables: seq<Table>) {
    && ShapedTables(regions, tables) && AllRuns(tables) && DistinctPages(tables) && Consecutive(tables)
    && OwnFrames(regions, tables)
  }

  // The frames are those that were laid at boot.
  ghost predicate OwnFrames(regions: seq<Region>, tables: seq<Table>) {
    SameAddresses(TablesOf(regions), tables)
  }

  // Some frame of the regions is page `p`.
  ghost predicate IsFramePage(regions: seq<Region>, p: int) {
    exists i, j :: InTables(TablesOf(regions), i, j) && TablesOf(regions)[i][j].address / 0x1000 == p
  }

  // No other page is ever handed out.
  lemma LivePagesAreFrames(regions: seq<Region>, tables: seq<Table>, p: nat)
    requires SoundTables(regions, tables) && p in Live(tables)
    ensures IsFramePage(regions, p)
  {
    var i, j :| 0 <= i < |tables| && 0 <= j < |tables[i]| && tables[i][j].busyCount > 0
                && tables[i][j].address / 0x1000 == p;
    assert InTables(TablesOf(regions), i, j);
  }

  // A page is handed out exactly if it is one of the pages of a live block.
  lemma BusyPageIff(v: seq<Table>, p: nat)
    requires AllRuns(v) && DistinctPages(v) && Consecutive(v)
    ensures IsBusyPage(v, p) <==> exists q: nat :: q in Live(v) && BlockHas(v, q, p)
  {
    if IsBusyPage(v, p) {
      var q := BusyIsInBlock(v, p);
    }
    if q: nat :| q in Live(v) && BlockHas(v, q, p) {
      BlockIsBusy(v, q, p);
    }
  }

  lemma BusyIsInBlock(v: seq<Table>, p: nat) returns (q: nat)
    requires AllRuns(v) && DistinctPages(v) && Consecutive(v) && IsBusyPage(v, p)
    ensures q in Live(v) && BlockHas(v, q, p)
  {
    var i, k :| InTables(v, i, k) && v[i][k].busy && v[i][k].address / 0x1000 == p;
    assert Runs(v[i]);
    var j :| 0 <= j <= k && RunHas(v[i], j, k);
    assert InTables(v, i, j);
    LiveIff(v, i, j);
    assert v[i][k].address == v[i][0].address + k * 0x1000 && v[i][j].address == v[i][0].address + j * 0x1000;
    q := v[i][j].address / 0x1000;
    assert HeadedAt(v, i, j, q, p);
  }

  lemma BlockIsBusy(v: seq<Table>, q: nat, p: nat)
    requires AllRuns(v) && Consecutive(v) && BlockHas(v, q, p)
    ensures IsBusyPage(v, p)
  {
    var i, j :| HeadedAt(v, i, j, q, p);
    assert Runs(v[i]);
    var k := j + (p - q);
    RunIsBusy(v[i], j, p - q);
    assert v[i][k].address == v[i][0].address + k * 0x1000 && v[i][j].address == v[i][0].address + j * 0x1000;
    assert InTables(v, i, k);
  }

  // Two blocks that have a page in common are the same.
  lemma OneBlockPerPage(v: seq<Table>, q: nat, r: nat, p: nat)
    requires AllRuns(v) && DistinctPages(v) && Consecutive(v) && BlockHas(v, q, p) && BlockHas(v, r, p)
    ensures q == r
  {
    var i, j :| HeadedAt(v, i, j, q, p);
    var m, l :| HeadedAt(v, m, l, r, p);
    assert Runs(v[i]) && Runs(v[m]);
    var k, n := j + (p - q), l + (p - r);
    assert v[i][k].address == v[i][0].address + k * 0x1000 && v[i][j].address == v[i][0].address + j * 0x1000;
    assert v[m][n].address == v[m][0].address + n * 0x1000 && v[m][l].address == v[m][0].address + l * 0x1000;
    assert InTables(v, i, k) && InTables(v, m, n);
    SamePageSameDescriptor(v, i, k, m, n);
    assert RunHas(v[i], j, k) && RunHas(v[i], l, k);
    RunsAreDisjoint(v[i], j, l, k);
  }

  // A live block of two frames is two frames in a row.
  lemma LiveIsBlock(v: seq<Table>, i: nat, j: nat, p: nat)
    requires AllRuns(v) && Consecutive(v)
    requires InTables(v, i, j) && v[i][j].address == p * 0x1000 && v[i][j].busyCount == 2
    ensures IsFrameBlock(v, p)
  {
    assert Runs(v[i]);
    RunIsBusy(v[i], j, 0);
    RunIsBusy(v[i], j, 1);
    assert RunHas(v[i], j, j + 1);
    assert v[i][j].address == v[i][0].address + j * 0x1000;
    assert v[i][j + 1].address == v[i][0].address + (j + 1) * 0x1000;
    assert BlockAtFrame(v, i, j, p);
  }

  // The second page of a block is not the first of another one.
  lemma SecondPageNotLive(v: seq<Table>, p: nat)
    requires DistinctPages(v) && IsFrameBlock(v, p)
    ensures p + 1 !in Live(v)
  {
    var i, j :| BlockAtFrame(v, i, j, p);
    assert InTables(v, i, j + 1);
    LiveIff(v, i, j + 1);
  }

  // ---- the descriptor table itself ----

  // What is cut out of the regions for `count` region descriptors at `tableAddress`.  It begins at
  // the next page, so the first bytes of the table are not cut out.
  function OwnTable(tableAddress: nat, count: nat): Region
    requires IsU32(tableAddress) && count < 0x100_0000
  {
    Region(AlignUp(tableAddress, 0x1000),
           (AlignUp(ToU32(tableAddress + (count + 2) * 20), 0x1000) - tableAddress) % 0x1_0000_0000,
           REGION_RESERVED)
  }

  // No frame and no frame descriptor of the region is at the bytes [from, from + size).
  predicate Spares(region: Region, from: nat, size: nat) {
    var n := GetRegionFramesCount(region);
    region.Usable() && n > 0 ==> FirstFrame(region) + n * 0x1000 <= from || from + size <= region.address
  }

  ghost predicate AllSpare(regions: seq<Region>, from: nat, size: nat) {
    forall k :: 0 <= k < |regions| ==> Spares(regions[k], from, size)
  }

  // The table is safe all the same, with room for two more descriptors: a region that ends in its
  // first page leaves that page unused.
  lemma TableIsSpared(tableAddress: nat, count: nat, r: Region)
    requires IsU32(tableAddress) && count < 0x100_0000 && tableAddress + (count + 2) * 20 <= 0x1_0000_0000
    requires r.Usable() && (r.length > 0 ==> r.End() <= 0x1_0000_0000)
    requires forall x :: r.Has(x) ==> !OwnTable(tableAddress, count).Has(x)
    requires AlignRegion(r).length != 0x2000
    ensures Spares(AlignRegion(r), tableAddress, (count + 2) * 20)
  {
    hide AlignRegion, FirstFrame, OwnTable, GetRegionFramesCount;
    var own, a := OwnTable(tableAddress, count), AlignRegion(r);
    AlignShrinks(r);
    if GetRegionFramesCount(a) > 0 && a.Usable() {
      HasFrames(r);
      SparePage(a);
      OwnTablePlace(tableAddress, count);
      if own.address > tableAddress {
        NothingShared(r, own);
      }
    }
  }

  lemma NothingShared(a: Region, b: Region)
    requires a.length > 0 && b.length > 0 && forall x :: a.Has(x) ==> !b.Has(x)
    ensures a.End() <= b.address || b.End() <= a.address
  {
    assert a.Has(a.address) && a.Has(b.address) <==> a.address <= b.address < a.End();
  }

  lemma HasFrames(r: Region)
    requires GetRegionFramesCount(AlignRegion(r)) > 0
    ensures r.length > 0 && AlignRegion(r).length > 0
  {
  }

  // Up to a page more than the table takes is cut out, and its first bytes are not.
  lemma OwnTablePlace(tableAddress: nat, count: nat)
    requires IsU32(tableAddress) && count < 0x100_0000 && tableAddress + (count + 2) * 20 <= 0x1_0000_0000
    ensures
      var own := OwnTable(tableAddress, count);
      if tableAddress >= 0xFFFF_F000 then own.address == 0
      else
        && own.length > 0 && tableAddress < own.address <= tableAddress + 0x1000
        && tableAddress + (count + 2) * 20 < own.End() <= tableAddress + (count + 2) * 20 + 0x2000
  {
    hide AlignUp;
    var end := tableAddress + (count + 2) * 20;
    AlignUpIsNextPage(tableAddress);
    AlignUpIsNextPage(ToU32(end));
    assert end == 0x1_0000_0000 ==> ToU32(end) == 0;
    assert end < 0x1_0000_0000 ==> ToU32(end) == end;
  }

  lemma OwnTableIsSpared(tableAddress: nat, count: nat, s: seq<Region>, t: seq<Region>, regions: seq<Region>)
    requires IsU32(tableAddress) && count < 0x100_0000 && tableAddress + (count + 2) * 20 <= 0x1_0000_0000
    requires forall x :: x in Bytes(s) ==> 0 <= x < 0x1_0000_0000
    requires IsCut(s, [OwnTable(tableAddress, count)], t) && regions == Compact(AlignEach(t))
    requires NoTwoPageRegion(regions)
    ensures AllSpare(regions, tableAddress, (count + 2) * 20)
  {
    hide OwnTable, Spares, AlignRegion, Compact;
    forall k | 0 <= k < |regions| ensures Spares(regions[k], tableAddress, (count + 2) * 20) {
      if regions[k].Usable() {
        CompactKeepsFrames(AlignEach(t), regions[k]);
        assert regions[k] in regions;
        var i :| 0 <= i < |t| && regions[k] == AlignRegion(t[i]);
        AlignKeepsKind(t[i]);
        CutRegionPlace(s, OwnTable(tableAddress, count), t, i);
        TableIsSpared(tableAddress, count, t[i]);
      } else {
        UnusableSpares(regions[k], tableAddress, (count + 2) * 20);
      }
    }
  }

  lemma AlignKeepsKind(r: Region)
    ensures AlignRegion(r).kind == r.kind
  {
  }

  lemma UnusableSpares(r: Region, from: nat, size: nat)
    requires !r.Usable()
    ensures Spares(r, from, size)
  {
  }

  lemma TakenByOne(own: Region, x: int)
    requires own.Has(x)
    ensures x in TakenBytes([own])
  {
    assert [own][0].Has(x);
  }

  lemma CutRegionPlace(s: seq<Region>, own: Region, t: seq<Region>, i: nat)
    requires IsCut(s, [own], t) && i < |t| && t[i].Usable()
    requires forall x :: x in Bytes(s) ==> 0 <= x < 0x1_0000_0000
    ensures t[i].length > 0 ==> t[i].End() <= 0x1_0000_0000
    ensures forall x :: t[i].Has(x) ==> !own.Has(x)
  {
    forall x | t[i].Has(x) ensures !own.Has(x) && 0 <= x < 0x1_0000_0000 {
      assert x in Bytes(t);
      if own.Has(x) {
        TakenByOne(own, x);
      }
    }
    if t[i].length > 0 {
      assert t[i].Has(t[i].End() - 1);
    }
  }

  // How many more one-page requests, of two frames each, will be served.
  ghost function Left(tables: seq<Table>): nat {
    ServableFrom(tables, 0, 2)
  }

  class Pmm {
    // The descriptor table as boot left it, and the frame table of each of its regions.
    var regions: seq<Region>
    var tables: seq<Table>

    ghost predicate Shaped()
      reads this
    {
      ShapedTables(regions, tables)
    }

    ghost predicate Valid()
      reads this
    {
      Shaped() && AllRuns(tables)
    }

    ghost predicate Sound()
      reads this
    {
      SoundTables(regions, tables)
    }

    ghost function LivePages(): set<nat>
      reads this
    {
      Live(tables)
    }

    ghost function PagesLeft(): nat
      reads this
    {
      Left(tables)
    }

    // ---- boot ----

    constructor Initialize(descriptors: array<Region>, tableAddress: nat, count: nat)
      requires count <= descriptors.Length && AllRepresentable(descriptors[..count])
      requires IsU32(tableAddress) && count < 0x100_0000
      requires Potential(descriptors[..count], [OwnTable(tableAddress, count)]) <= descriptors.Length
      requires forall x :: x in Bytes(descriptors[..count]) ==> 0 <= x < 0x1_0000_0000
      modifies descriptors
      ensures Valid() && UsableAligned(regions)
      ensures tables == TablesOf(regions)
      ensures LaidFrom(old(descriptors[..count]), [OwnTable(tableAddress, count)], regions)
      ensures Bytes(regions) <= Bytes(old(descriptors[..count])) - TakenBytes([OwnTable(tableAddress, count)])
      ensures Disjoint(old(descriptors[..count])) ==> Disjoint(regions)
      ensures Disjoint(regions) && NoTwoPageRegion(regions) ==> Sound()
      ensures LivePages() == {}
      ensures tableAddress + (count + 2) * 20 <= 0x1_0000_0000 && NoTwoPageRegion(regions) ==>
        AllSpare(regions, tableAddress, (count + 2) * 20)
    {
      hide Potential, AllSpare, IsCut, Bytes, TakenBytes, Disjoint, UsableAligned, NoTwoPageRegion, TablesOf, Compact,
        AlignEach, LaidFrom;
      regions := [];
      tables := [];
      new;
      ghost var raw := descriptors[..count];
      var n := RegionPasses.RemoveExtraRegions(descriptors, count, [OwnTable(tableAddress, count)]);
      ghost var cut := descriptors[..n];
      AlignAll(descriptors, n);
      n := CompactRegions(descriptors, n);
      regions := descriptors[..n];
      RegionsLaid(raw, [OwnTable(tableAddress, count)], cut, regions);
      if tableAddress + (count + 2) * 20 <= 0x1_0000_0000 && NoTwoPageRegion(regions) {
        OwnTableIsSpared(tableAddress, count, raw, cut, regions);
      }
      LayTables();
      FreshTables(regions);
    }

    method LayTables()
      requires tables == []
      modifies this`tables
      ensures Shaped() && tables == TablesOf(regions)
    {
      for i := 0 to |regions|
        invariant tables == TablesOf(regions[..i])
      {
        var table := LayTable(regions[i]);
        tables := tables + [table];
      }
      assert regions[..|regions|] == regions;
    }

    // ---- allocation ----

    method AllocatePhysicalMemory(count: nat) returns (r: nat)
      requires Valid() && IsU32(count)
      // A request that wraps to no frames writes to the first descriptor of a usable region.
      requires FramesFor(count) == 0 ==> forall i :: 0 <= i < |regions| && regions[i].Usable() ==> |tables[i]| > 0
      modifies this`tables
      ensures Shaped()
      ensures match FindFit(old(tables), 0, FramesFor(count))
        case None => r == 0 && tables == old(tables)
        case Some((i, j)) =>
          && r == old(tables)[i][j].address
          && tables == old(tables)[i := Occupy(old(tables)[i], j, FramesFor(count))]
      ensures FramesFor(count) > 0 ==> Valid()
      ensures FramesFor(count) > 0 && old(Sound()) ==>
        && Sound()
        && (r == 0 <==> FindFit(old(tables), 0, FramesFor(count)).None?)
        && (r == 0 ==> LivePages() == old(LivePages()))
        && (r != 0 ==> PageAligned(r) && r / 0x1000 !in old(LivePages())
                       && LivePages() == old(LivePages()) + {r / 0x1000})
      ensures FramesFor(count) == 2 && old(Sound()) ==>
        && (r == 0 <==> old(PagesLeft()) == 0)
        && (r != 0 ==> PagesLeft() == old(PagesLeft()) - 1)
    {
      ghost var before := tables;
      var n := FramesFor(count);
      r := FirstFit(n);
      if n > 0 {
        RequestServed(before, 0, n);
        match FindFit(before, 0, n)
        case None =>
        case Some((i, j)) => AllocationFacts(before, i, j, n);
      }
    }

    // The search and the marking, for a request of `n` frames.
    method FirstFit(n: nat) returns (r: nat)
      requires Shaped()
      requires n == 0 ==> forall i :: 0 <= i < |regions| && regions[i].Usable() ==> |tables[i]| > 0
      modifies this`tables
      ensures Shaped()
      ensures match FindFit(old(tables), 0, n)
        case None => r == 0 && tables == old(tables)
        case Some((i, j)) =>
          && r == old(tables)[i][j].address
          && tables == old(tables)[i := Occupy(old(tables)[i], j, n)]
    {
      for i := 0 to |regions|
        invariant tables == old(tables)
        invariant FindFit(tables, 0, n) == FindFit(tables, i, n)
      {
        if regions[i].Usable() {
          var framesCount := GetRegionFramesCount(regions[i]);
          if n <= framesCount {
            var j := 0;
            while j + n <= framesCount
              invariant tables == old(tables)
              invariant n == 0 ==> j == 0
              invariant FindInTable(tables[i], 0, n) == FindInTable(tables[i], j, n)
            {
              var framesFree := FramesFree(tables[i], j, n);
              if framesFree {
                MarkBusy(i, j, n);
                return tables[i][j].address;
              }
              j := j + 1;
            }
          }
        }
      }
      r := 0;
    }

    method MarkBusy(i: nat, j: nat, n: nat)
      requires i < |tables| && j < |tables[i]| && j + n <= |tables[i]|
      modifies this`tables
      ensures tables == old(tables)[i := Occupy(old(tables)[i], j, n)]
    {
      ghost var before := tables[i];
      SetFrame(i, j, tables[i][j].(busyCount := n));
      for k := j to j + n
        invariant |tables| == |old(tables)| && |tables[i]| == |before|
        invariant tables == old(tables)[i := tables[i]]
        invariant forall m :: 0 <= m < |before| ==>
          tables[i][m] == Frame(before[m].address, if m == j then n else before[m].busyCount,
                                before[m].busy || j <= m < k)
      {
        SetFrame(i, k, tables[i][k].(busy := true));
      }
      assert tables[i] == Occupy(before, j, n);
    }

    method MarkFree(i: nat, j: nat)
      requires i < |tables| && j < |tables[i]| && j + tables[i][j].busyCount <= |tables[i]|
      modifies this`tables
      ensures tables == old(tables)[i := Release(old(tables)[i], j)]
    {
      ghost var before := tables[i];
      var framesCount := tables[i][j].busyCount;
      SetFrame(i, j, tables[i][j].(busyCount := 0));
      for k := j to j + framesCount
        invariant |tables| == |old(tables)| && |tables[i]| == |before|
        invariant tables == old(tables)[i := tables[i]]
        invariant forall m :: 0 <= m < |before| ==>
          tables[i][m] == Frame(before[m].address, if m == j then 0 else before[m].busyCount,
                                before[m].busy && !(j <= m < k))
      {
        SetFrame(i, k, tables[i][k].(busy := false));
      }
      assert tables[i] == Release(before, j);
    }

    method SetFrame(i: nat, k: nat, frame: Frame)
      requires i < |tables| && k < |tables[i]|
      modifies this`tables
      ensures tables == old(tables)[i := old(tables)[i][k := frame]]
    {
      tables := tables[i := tables[i][k := frame]];
    }

    // Allocates a new block, copies `count` bytes to it and frees the old one.  The contents of
    // physical memory, byte by byte, come in as `ram` and go out as `newRam`.
    method ReallocatePhysicalMemory(ram: seq<int>, memory: nat, count: nat) returns (r: nat, newRam: seq<int>)
      requires Sound() && IsU32(memory) && count < 0xFFFF_F000
      requires |ram| == 0x1_0000_0000 && memory + count <= 0x1_0000_0000
      modifies this`tables
      ensures Sound()
      ensures r != 0 <==> CanMove(old(tables), memory, count)
      ensures r == 0 ==> tables == old(tables)
      ensures r != 0 ==> Moved(old(tables), memory, count) == Some((r, tables))
      ensures r != 0 ==>
        && LivePages() == old(LivePages()) + {r / 0x1000} - {memory / 0x1000}
        && r / 0x1000 !in old(LivePages())
      // Every byte of the old block that was asked for is in the new one.
      ensures r != 0 ==> SameBytes(newRam, r, ram, memory, Min(count, BlockLength(old(tables), memory) * 0x1000))
      // Nothing outside the new block is written to.
      ensures OnlyNewBlock(old(tables), count, ram, newRam)
    {
      ghost var before := tables;
      RequestFits(before, count, memory);
      r := AllocatePhysicalMemory(count);
      if r == 0 {
        newRam := ram;
      } else {
        r, newRam := CopyAndFree(before, ram, memory, count, r);
      }
    }

    // The rest of a reallocation: the bytes are copied, and the old block goes or else the new one.
    method CopyAndFree(ghost before: seq<Table>, ram: seq<int>, memory: nat, count: nat, r: nat)
      returns (moved: nat, newRam: seq<int>)
      requires Sound() && count < 0xFFFF_F000
      requires MoveReady(before, count, memory) && FindFit(before, 0, FramesFor(count)).Some?
      requires
        var (i, j) := FindFit(before, 0, FramesFor(count)).value;
        tables == before[i := Occupy(before[i], j, FramesFor(count))] && r == before[i][j].address != 0
      requires |ram| == 0x1_0000_0000 && memory + count <= |ram|
      modifies this`tables
      ensures Sound()
      ensures moved == if CanMove(before, memory, count) then r else 0
      ensures moved == 0 ==> tables == before
      ensures moved != 0 ==> LivePages() == old(LivePages()) - {memory / 0x1000}
      ensures moved != 0 ==> Moved(before, memory, count) == Some((r, tables))
      ensures SameElsewhere(ram, newRam, r, count)
      ensures SameBytes(newRam, r, ram, memory, Min(count, BlockLength(before, memory) * 0x1000))
    {
      hide Runs, DistinctPages, Consecutive, FindFit, FindAddress, Live;
      ghost var n := FramesFor(count);
      ghost var (i, j) := FindFit(before, 0, n).value;
      newRam := CopyForward(ram, r, memory, count, Min(count, BlockLength(before, memory) * 0x1000));
      AfterAllocation(before, i, j, n, memory);
      AfterAllocation(before, i, j, n, r);
      var freed := FreePhysicalMemory(memory);
      if freed == 0 {
        var _ := FreePhysicalMemory(r);
        return 0, newRam;
      }
      return r, newRam;
    }

    // Frees the block that `memory` heads; any other address frees nothing.
    method FreePhysicalMemory(memory: nat) returns (freed: nat)
      requires Valid()
      modifies this`tables
      ensures Valid()
      ensures match FindAddress(old(tables), 0, memory)
        case None => freed == 0 && tables == old(tables)
        case Some((i, j)) =>
          && freed == old(tables)[i][j].busyCount
          && tables == old(tables)[i := Release(old(tables)[i], j)]
      ensures freed == 0 ==> tables == old(tables)
      ensures old(Sound()) ==>
        && Sound()
        && LivePages() == (if PageAligned(memory) then old(LivePages()) - {memory / 0x1000} else old(LivePages()))
        && (freed > 0 <==> PageAligned(memory) && memory / 0x1000 in old(LivePages()))
    {
      ghost var before := tables;
      freed := ReleaseFirst(memory);
      match FindAddress(before, 0, memory)
      case Some((i, j)) => ReleaseFacts(before, i, j);
      case None =>
        if DistinctPages(before) && PageAligned(memory) {
          UnknownPageNotLive(before, memory);
        }
    }

    method ReleaseFirst(memory: nat) returns (freed: nat)
      requires Valid()
      modifies this`tables
      ensures Shaped()
      ensures match FindAddress(old(tables), 0, memory)
        case None => freed == 0 && tables == old(tables)
        case Some((i, j)) =>
          && freed == old(tables)[i][j].busyCount
          && tables == old(tables)[i := Release(old(tables)[i], j)]
    {
      for i := 0 to |regions|
        invariant tables == old(tables)
        invariant FindAddress(tables, 0, memory) == FindAddress(tables, i, memory)
      {
        if regions[i].Usable() {
          for j := 0 to GetRegionFramesCount(regions[i])
            invariant tables == old(tables)
            invariant FindAddressIn(tables[i], 0, memory) == FindAddressIn(tables[i], j, memory)
          {
            if tables[i][j].address == memory {
              freed := tables[i][j].busyCount;
              assert Runs(tables[i]);
              MarkFree(i, j);
              return;
            }
          }
        }
      }
      freed := 0;
    }
  }

  // ---- steps of the loops ----

  function Min(a: nat, b: nat): nat {
    if a < b then a else b
  }

  lemma ToU32Adds(a: nat, b: nat)
    ensures ToU32(ToU32(a) + b) == ToU32(a + b)
  {
    assert a == 0x1_0000_0000 * (a / 0x1_0000_0000) + a % 0x1_0000_0000;
    assert (a + b) % 0x1_0000_0000 == (a % 0x1_0000_0000 + b + 0x1_0000_0000 * (a / 0x1_0000_0000)) % 0x1_0000_0000;
  }

  method LayTable(region: Region) returns (table: Table)
    ensures table == TableOf(region)
  {
    table := [];
    var framesCount := if region.Usable() then GetRegionFramesCount(region) else 0;
    var frameAddress := FirstFrame(region);
    for j := 0 to framesCount
      invariant frameAddress == FrameAddress(region, j)
      invariant |table| == j
      invariant forall k :: 0 <= k < j ==> table[k] == Frame(FrameAddress(region, k), 0, false)
    {
      table := table + [Frame(frameAddress, 0, false)];
      ToU32Adds(FirstFrame(region) + j * 0x1000, 0x1000);
      frameAddress := ToU32(frameAddress + 0x1000);
    }
  }

  method AlignAll(a: array<Region>, count: nat)
    requires count <= a.Length
    modifies a
    ensures forall i :: 0 <= i < count ==> a[i] == AlignRegion(old(a[i]))
    ensures a[..count] == AlignEach(old(a[..count]))
  {
    for i := 0 to count
      invariant forall k :: 0 <= k < i ==> a[k] == AlignRegion(old(a[k]))
      invariant forall k :: i <= k < count ==> a[k] == old(a[k])
    {
      a[i] := Region(AlignUp(ToU32(a[i].address), 0x1000), a[i].length, a[i].kind);
      a[i] := Region(a[i].address, AlignDown(ToU32(a[i].length), 0x1000), a[i].kind);
    }
  }

  function CompactProgress(s: seq<Region>, i: nat): seq<Region> {
    if i <= |s| then s[..i] + Compact(s[i..]) else s
  }

  lemma CompactDrop(s: seq<Region>, i: nat, t: seq<Region>)
    requires i < |s| && GetRegionFramesCount(s[i]) == 0
    requires t == s[..i] + s[i + 1..]
    ensures CompactProgress(t, i + 1) == CompactProgress(s, i)
  {
    var here := s[i..];
    assert here[0] == s[i];
    if |here| == 1 {
      assert t == s[..i] + [];
    } else {
      assert here[1] == s[i + 1] && here[2..] == s[i + 2..];
      assert t[..i + 1] == s[..i] + [s[i + 1]];
      assert t[i + 1..] == s[i + 2..];
      assert CompactProgress(s, i) == s[..i] + ([s[i + 1]] + Compact(s[i + 2..]));
    }
  }

  lemma CompactStay(s: seq<Region>, i: nat)
    requires i < |s| && GetRegionFramesCount(s[i]) != 0
    ensures CompactProgress(s, i + 1) == CompactProgress(s, i)
  {
    var here := s[i..];
    assert here[0] == s[i] && here[1..] == s[i + 1..];
    assert s[..i + 1] == s[..i] + [s[i]];
    assert CompactProgress(s, i) == s[..i] + ([s[i]] + Compact(s[i + 1..]));
  }

  method CompactRegions(a: array<Region>, count: nat) returns (newCount: nat)
    requires count <= a.Length
    modifies a
    ensures newCount <= count && a[..newCount] == Compact(old(a[..count]))
  {
    hide CompactProgress, Compact, GetRegionFramesCount;
    newCount := count;
    ghost var table := a[..count];
    var i: nat := 0;
    CompactStart(table);
    while i < newCount
      invariant newCount <= count && i <= newCount + 1
      invariant table == a[..newCount]
      invariant CompactProgress(table, i) == Compact(old(a[..count]))
      decreases newCount + 1 - i
    {
      ghost var before := table;
      if GetRegionFramesCount(a[i]) == 0 {
        assert before[..i] == a[..i] && before[i + 1..] == a[i + 1..newCount];
        RegionPasses.CloseSlot(a, i, newCount);
        newCount := newCount - 1;
        table := a[..newCount];
        CompactDrop(before, i, table);
      } else {
        CompactStay(before, i);
      }
      i := i + 1;
    }
    CompactEnd(table, i);
  }

  lemma CompactStart(s: seq<Region>)
    ensures CompactProgress(s, 0) == Compact(s)
  {
    assert s[..0] == [] && s[0..] == s;
  }

  lemma CompactEnd(s: seq<Region>, i: nat)
    requires i >= |s|
    ensures CompactProgress(s, i) == s
  {
    if i == |s| {
      assert s[i..] == [] && s[..i] == s;
    }
  }

  method FramesFree(t: Table, j: nat, n: nat) returns (framesFree: bool)
    requires j < |t| && j + n <= |t|
    ensures framesFree <==> Fits(t, j, n)
  {
    for k := j to j + n
      invariant forall m :: j <= m < k ==> !t[m].busy
    {
      if t[k].busy {
        return false;
      }
    }
    framesFree := true;
  }

  // A forward copy is exact for the leading bytes that lie outside the destination.
  method CopyForward(ram: seq<int>, destination: nat, source: nat, count: nat, ghost clear: nat)
    returns (newRam: seq<int>)
    requires destination + count <= |ram| && source + count <= |ram| && clear <= count
    requires source + clear <= destination || destination + count <= source || clear == 0
    ensures SameElsewhere(ram, newRam, destination, count)
    ensures SameBytes(newRam, destination, ram, source, clear)
  {
    newRam := ram;
    for i := 0 to count
      invariant |newRam| == |ram|
      invariant forall y :: 0 <= y < |ram| && !(destination <= y < destination + count) ==> newRam[y] == ram[y]
      invariant forall y :: destination <= y < destination + i && y < destination + clear ==>
        newRam[y] == ram[source + (y - destination)]
    {
      newRam := newRam[destination + i := newRam[source + i]];
    }
  }

  // ---- facts about one step ----

  // Alignment and compaction only take bytes away.
  lemma AlignFacts(s: seq<Region>, t: seq<Region>)
    requires |t| == |s| && forall i :: 0 <= i < |s| ==> t[i] == AlignRegion(s[i])
    requires forall x :: x in Bytes(s) ==> 0 <= x < 0x1_0000_0000
    ensures UsableAligned(t) && Bytes(t) <= Bytes(s)
    ensures Disjoint(s) ==> Disjoint(t)
  {
    forall i | 0 <= i < |s| && s[i].Usable()
      ensures Aligned(t[i])
      ensures t[i].length > 0 ==> s[i].address <= t[i].address && t[i].End() <= s[i].End()
    {
      if s[i].length > 0 {
        assert s[i].Has(s[i].End() - 1);
        assert s[i].End() - 1 in Bytes(s);
      }
      AlignShrinks(s[i]);
    }
    forall x | x in Bytes(t) ensures x in Bytes(s) {
      var k :| 0 <= k < |t| && t[k].Usable() && t[k].Has(x);
      assert s[k].Usable() && s[k].Has(x);
    }
    if Disjoint(s) {
      forall i, j | 0 <= i < j < |t| && t[i].Usable() && t[j].Usable() ensures Apart(t[i], t[j]) {
        assert Apart(s[i], s[j]);
      }
    }
  }

  lemma CompactFacts(s: seq<Region>)
    requires UsableAligned(s)
    ensures UsableAligned(Compact(s)) && Bytes(Compact(s)) <= Bytes(s)
    ensures Disjoint(s) ==> Disjoint(Compact(s))
  {
    forall r | r in Compact(s) ensures r in s {
      CompactKeepsFrames(s, r);
    }
    forall k | 0 <= k < |Compact(s)| && Compact(s)[k].Usable() ensures Aligned(Compact(s)[k]) {
      assert Compact(s)[k] in s;
    }
    forall x | x in Bytes(Compact(s)) ensures x in Bytes(s) {
      CoversMember(Compact(s), x);
      CoversMember(s, x);
    }
    if Disjoint(s) {
      CompactStaysDisjoint(s);
    }
  }

  lemma RegionsLaid(raw: seq<Region>, extra: seq<Region>, cut: seq<Region>, regions: seq<Region>)
    requires AllRepresentable(cut) && Bytes(cut) == Bytes(raw) - TakenBytes(extra)
    requires Disjoint(raw) ==> Disjoint(cut)
    requires forall x :: x in Bytes(raw) ==> 0 <= x < 0x1_0000_0000
    requires regions == Compact(AlignEach(cut))
    ensures IsCut(raw, extra, cut)
    ensures LaidFrom(raw, extra, regions) && UsableAligned(regions)
    ensures Bytes(regions) <= Bytes(raw) - TakenBytes(extra)
    ensures Disjoint(raw) ==> Disjoint(regions)
  {
    hide Disjoint, UsableAligned, Compact;
    assert IsCut(raw, extra, cut);
    AlignFacts(cut, AlignEach(cut));
    CompactFacts(AlignEach(cut));
  }

  lemma FreshTables(s: seq<Region>)
    ensures AllRuns(TablesOf(s)) && Live(TablesOf(s)) == {}
    ensures UsableAligned(s) && Disjoint(s) && NoTwoPageRegion(s) ==>
      DistinctPages(TablesOf(s)) && Consecutive(TablesOf(s))
    ensures OwnFrames(s, TablesOf(s))
  {
    var v: seq<Table> := TablesOf(s);
    forall i | 0 <= i < |v| ensures Runs(v[i]) {
      FreshTableRuns(s[i]);
    }
    if UsableAligned(s) && Disjoint(s) && NoTwoPageRegion(s) {
      TablesHaveDistinctPages(s);
      forall i, j | 0 <= i < |v| && 0 <= j < |v[i]|
        ensures v[i][j].address == v[i][0].address + j * 0x1000 && v[i][j].address + 0x1000 <= 0x1_0000_0000
      {
        FramePlace(s[i], 0);
        FramePlace(s[i], j);
      }
    }
  }

  lemma AllocationFacts(v: seq<Table>, i: nat, j: nat, n: nat)
    requires AllRuns(v) && FindFit(v, 0, n) == Some((i, j))
    ensures
      var w, page := v[i := Occupy(v[i], j, n)], v[i][j].address / 0x1000;
      && (Consecutive(v) ==> Consecutive(w))
      && (n > 0 ==>
            && AllRuns(w)
            && ServableFrom(w, 0, n) == ServableFrom(v, 0, n) - 1
            && (DistinctPages(v) ==> DistinctPages(w) && page !in Live(v) && Live(w) == Live(v) + {page}))
      && forall regions :: OwnFrames(regions, v) ==> OwnFrames(regions, w)
  {
    hide TablesOf;
    if n > 0 {
      OccupyKeepsRuns(v[i], j, n);
      RequestServed(v, 0, n);
      if DistinctPages(v) {
        LiveGrows(v, i, j, n);
      }
    }
  }

  lemma ReleaseFacts(v: seq<Table>, i: nat, j: nat)
    requires AllRuns(v) && i < |v| && j < |v[i]|
    ensures
      var w, page := v[i := Release(v[i], j)], v[i][j].address / 0x1000;
      && AllRuns(w)
      && (Consecutive(v) ==> Consecutive(w))
      && (v[i][j].busyCount == 0 ==> w == v)
      && (DistinctPages(v) ==>
            && DistinctPages(w) && Live(w) == Live(v) - {page}
            && (v[i][j].busyCount > 0 <==> page in Live(v)))
      && forall regions :: OwnFrames(regions, v) ==> OwnFrames(regions, w)
  {
    hide TablesOf;
    ReleaseKeepsRuns(v[i], j);
    if v[i][j].busyCount == 0 {
      assert Release(v[i], j) == v[i];
    }
    if DistinctPages(v) {
      LiveShrinks(v, i, j);
      LiveIff(v, i, j);
    }
  }

  lemma UnknownPageNotLive(v: seq<Table>, memory: nat)
    requires DistinctPages(v) && PageAligned(memory) && FindAddress(v, 0, memory).None?
    ensures memory / 0x1000 !in Live(v)
  {
    forall i, j | 0 <= i < |v| && 0 <= j < |v[i]|
      ensures v[i][j].address / 0x1000 != memory / 0x1000
    {
      assert PageAligned(v[i][j].address);
      assert v[i][j].address != memory;
    }
  }

  lemma SameButOne(v: seq<Table>, w: seq<Table>, i: nat, t: Table)
    requires i < |v| == |w| && w[i] == t && forall q :: 0 <= q < |v| && q != i ==> w[q] == v[q]
    ensures w == v[i := t]
  {
  }

  // What the copy into a new block of `count` bytes may rely on.
  ghost predicate MoveReady(v: seq<Table>, count: nat, memory: nat)
    requires IsU32(count)
  {
    && AllRuns(v) && DistinctPages(v) && FramesFor(count) > 0
    && match FindFit(v, 0, FramesFor(count))
       case None => true
       case Some((i, j)) =>
         var r := v[i][j].address;
         var kept := Min(count, BlockLength(v, memory) * 0x1000);
         && r + count <= 0x1_0000_0000
         && (memory + kept <= r || r + count <= memory || kept == 0)
  }

  lemma RequestFits(v: seq<Table>, count: nat, memory: nat)
    requires AllRuns(v) && DistinctPages(v) && Consecutive(v)
    requires count < 0xFFFF_F000
    ensures MoveReady(v, count, memory)
  {
    FramesForRequest(count);
    match FindFit(v, 0, FramesFor(count))
    case None =>
    case Some((i, j)) => NewBlockApart(v, i, j, FramesFor(count), memory);
  }

  lemma BlockLengthIff(v: seq<Table>, memory: nat)
    requires DistinctPages(v)
    ensures BlockLength(v, memory) > 0 <==> memory % 0x1000 == 0 && memory / 0x1000 in Live(v)
  {
    match FindAddress(v, 0, memory)
    case Some((m, k)) =>
      assert InTables(v, m, k) && PageAligned(v[m][k].address);
      LiveIff(v, m, k);
    case None =>
      if memory % 0x1000 == 0 && memory / 0x1000 in Live(v) {
        LivePageAddress(v, memory / 0x1000);
        UnknownPageNotLive(v, memory);
      }
  }

  // A block can be moved exactly if there is room and `memory` is the start of a live block, or of
  // the frames that the new block takes.
  lemma MoveIff(v: seq<Table>, memory: nat, count: nat)
    requires DistinctPages(v) && IsU32(count)
    ensures
      var fit := FindFit(v, 0, FramesFor(count));
      CanMove(v, memory, count) <==>
        && fit.Some?
        && (memory == v[fit.value.0][fit.value.1].address || (memory % 0x1000 == 0 && memory / 0x1000 in Live(v)))
  {
    hide Live, FindFit, FindAddress;
    BlockLengthIff(v, memory);
    var fit := FindFit(v, 0, FramesFor(count));
    if fit.Some? && memory == v[fit.value.0][fit.value.1].address {
      AddressFound(v, fit.value.0, fit.value.1);
    }
  }

  lemma AddressFound(v: seq<Table>, i: nat, j: nat)
    requires DistinctPages(v) && i < |v| && j < |v[i]|
    ensures FindAddress(v, 0, v[i][j].address) == Some((i, j))
  {
    var (m, k) := FindAddress(v, 0, v[i][j].address).value;
    assert InTables(v, i, j) && InTables(v, m, k) && SamePage(v, i, j, m, k);
  }

  // Whatever byte of the old block was asked for is in the new one.
  lemma CopiedBytes(v: seq<Table>, ram: seq<int>, memory: nat, newRam: seq<int>, r: nat, count: nat)
    requires DistinctPages(v) && IsU32(count) && CanMove(v, memory, count)
    requires memory + count <= |ram| && r + count <= |newRam|
    requires SameBytes(newRam, r, ram, memory, Min(count, BlockLength(v, memory) * 0x1000))
    ensures forall x :: memory <= x < memory + count && BlockHas(v, memory / 0x1000, x / 0x1000) ==>
      newRam[r + (x - memory)] == ram[x]
  {
    hide FindFit, FindAddress;
    forall x | memory <= x < memory + count && BlockHas(v, memory / 0x1000, x / 0x1000)
      ensures newRam[r + (x - memory)] == ram[x]
    {
      var kept := Min(count, BlockLength(v, memory) * 0x1000);
      var i, j :| HeadedAt(v, i, j, memory / 0x1000, x / 0x1000);
      AddressFound(v, i, j);
      MovedIsAligned(v, memory, count);
      assert x - memory < kept;
      assert newRam[r..r + kept][x - memory] == ram[memory..memory + kept][x - memory];
    }
  }

  lemma MovedIsAligned(v: seq<Table>, memory: nat, count: nat)
    requires DistinctPages(v) && IsU32(count) && CanMove(v, memory, count)
    ensures memory % 0x1000 == 0
  {
    var (m, k) := FindAddress(v, 0, memory).value;
    assert InTables(v, m, k) && PageAligned(v[m][k].address);
  }

  // A new block ends within 4 GiB and does not overlap the block that `memory` heads.
  lemma NewBlockApart(v: seq<Table>, i: nat, j: nat, n: nat, memory: nat)
    requires AllRuns(v) && DistinctPages(v) && Consecutive(v)
    requires i < |v| && Fits(v[i], j, n) && n > 0
    ensures v[i][j].address + n * 0x1000 <= 0x1_0000_0000
    ensures
      var c := BlockLength(v, memory);
      c == 0 || v[i][j].address + n * 0x1000 <= memory || memory + c * 0x1000 <= v[i][j].address
  {
    assert v[i][j + n - 1].address + 0x1000 <= 0x1_0000_0000;
    assert v[i][j].address == v[i][0].address + j * 0x1000;
    if BlockLength(v, memory) > 0 {
      var (m, k) := FindAddress(v, 0, memory).value;
      BlocksApart(v, i, j, n, m, k);
    }
  }

  // Looking an address up after an allocation finds the same descriptor; releasing the new
  // block gives the old tables back.
  lemma AfterAllocation(v: seq<Table>, i: nat, j: nat, n: nat, memory: nat)
    requires AllRuns(v) && DistinctPages(v) && i < |v| && Fits(v[i], j, n) && n > 0
    ensures
      var w := v[i := Occupy(v[i], j, n)];
      && FindAddress(w, 0, memory) == FindAddress(v, 0, memory)
      && (FindAddress(v, 0, memory).Some? ==>
            (BlockLength(w, memory) > 0 <==>
              BlockLength(v, memory) > 0 || FindAddress(v, 0, memory).value == (i, j)))
      && (memory == v[i][j].address ==> FindAddress(v, 0, memory) == Some((i, j)))
      && w[i := Release(w[i], j)] == v
  {
    var w := v[i := Occupy(v[i], j, n)];
    SameAddressesFound(v, w, 0, memory);
    if memory == v[i][j].address {
      var (m, k) := FindAddress(v, 0, memory).value;
      assert InTables(v, i, j) && InTables(v, m, k) && SamePage(v, i, j, m, k);
    }
    ReleaseUndoesOccupy(v[i], j, n);
    SameButOne(w, v, i, v[i]);
  }

  // A block about to be allocated does not overlap a block that is live.
  lemma BlocksApart(v: seq<Table>, i: nat, j: nat, n: nat, m: nat, k: nat)
    requires AllRuns(v) && DistinctPages(v) && Consecutive(v)
    requires i < |v| && Fits(v[i], j, n) && n > 0
    requires m < |v| && k < |v[m]|
    ensures
      var c := v[m][k].busyCount;
      c == 0 || v[i][j].address + n * 0x1000 <= v[m][k].address || v[m][k].address + c * 0x1000 <= v[i][j].address
  {
    var c := v[m][k].busyCount;
    var a, b := v[i][j].address, v[m][k].address;
    if c > 0 {
      assert Runs(v[m]) && k + c <= |v[m]|;
      if a <= b < a + n * 0x1000 {
        var q := PagesBetween(a, b, n);
        SamePageSameFrame(v, i, j, q, m, k);
        RunIsBusy(v[m], k, 0);
      } else if b <= a < b + c * 0x1000 {
        var q := PagesBetween(b, a, c);
        SamePageSameFrame(v, m, k, q, i, j);
        RunIsBusy(v[m], k, q);
      }
    }
  }

  lemma RunIsBusy(t: Table, k: nat, q: nat)
    requires Runs(t) && k < |t| && q < t[k].busyCount
    ensures k + q < |t| && t[k + q].busy
  {
    assert RunHas(t, k, k + q);
  }

  lemma PagesBetween(a: nat, b: nat, n: nat) returns (q: nat)
    requires a % 0x1000 == 0 && b % 0x1000 == 0 && a <= b < a + n * 0x1000
    ensures b == a + q * 0x1000 && q < n
  {
    q := (b - a) / 0x1000;
  }

  lemma SamePageSameFrame(v: seq<Table>, i: nat, j: nat, q: nat, m: nat, k: nat)
    requires DistinctPages(v) && Consecutive(v)
    requires i < |v| && j + q < |v[i]| && m < |v| && k < |v[m]|
    requires v[m][k].address == v[i][j].address + q * 0x1000
    ensures i == m && j + q == k
  {
    assert v[i][j + q].address == v[i][0].address + (j + q) * 0x1000;
    assert v[i][j].address == v[i][0].address + j * 0x1000;
    assert InTables(v, i, j + q) && InTables(v, m, k) && SamePage(v, i, j + q, m, k);
  }

  lemma {:induction false} SameAddressesFound(v: seq<Table>, w: seq<Table>, i: nat, address: nat)
    requires SameAddresses(v, w)
    ensures FindAddress(v, i, address) == FindAddress(w, i, address)
    decreases |v| - i
  {
    if i < |v| {
      SameAddressFoundIn(v[i], w[i], 0, address);
      SameAddressesFound(v, w, i + 1, address);
    }
  }

  lemma {:induction false} SameAddressFoundIn(t: Table, u: Table, j: nat, address: nat)
    requires |t| == |u| && forall k :: 0 <= k < |t| ==> t[k].address == u[k].address
    ensures FindAddressIn(t, j, address) == FindAddressIn(u, j, address)
    decreases |t| - j
  {
    if j < |t| {
      SameAddressFoundIn(t, u, j + 1, address);
    }
  }
}
