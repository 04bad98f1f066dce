/**
 From a descriptor table to frame tables (library/pmm/pmm.cxx:10-52, 262-269).

 A frame table lies at the start of its region; the frames follow on the next page.  A frame
 descriptor takes 12 bytes, a region descriptor 20.
 */
module FrameLayout {
  import opened Align
  import opened Regions
  import opened Frames

  function ToU32(value: nat): nat {
    value % 0x1_0000_0000
  }

  // The last subtraction is modulo 2^32.
  function GetRegionFramesCount(region: Region): nat {
    if region.length < AlignUp(0x1000 + 12, 0x1000) then 0
    else (AlignDown(ToU32(region.length), 0x1000) / (0x1000 + 12) - 1) % 0x1_0000_0000
  }

  function AlignRegion(region: Region): Region {
    Region(AlignUp(ToU32(region.address), 0x1000), AlignDown(ToU32(region.length), 0x1000), region.kind)
  }

  function AlignEach(s: seq<Region>): seq<Region> {
    seq(|s|, i requires 0 <= i < |s| => AlignRegion(s[i]))
  }

  function FirstFrame(region: Region): nat {
    ToU32(ToU32(region.address) + AlignUp(ToU32(GetRegionFramesCount(region) * 12), 0x1000))
  }

  function FrameAddress(region: Region, j: nat): nat {
    ToU32(FirstFrame(region) + j * 0x1000)
  }

  function TableOf(region: Region): seq<Frame> {
    if region.Usable() then
      seq(GetRegionFramesCount(region), j requires 0 <= j => Frame(FrameAddress(region, j), 0, false))
    else []
  }

  // What alignment leaves of a region that the 32-bit casts do not truncate.
  predicate Aligned(region: Region) {
    && region.address % 0x1000 == 0 && region.length % 0x1000 == 0
    && region.length < 0x1_0000_0000
    && (region.length > 0 ==> 0 < region.address && region.End() <= 0x1_0000_0000)
  }

  // The table and the frames behind it stay inside the region.
  predicate FramesFit(region: Region) {
    var n := GetRegionFramesCount(region);
    n == 0 || AlignUp(ToU32(n * 12), 0x1000) + n * 0x1000 <= region.length
  }

  // Alignment only gives bytes away, although it moves an aligned start up as well.
  lemma AlignShrinks(region: Region)
    requires region.length > 0 ==> region.End() <= 0x1_0000_0000
    ensures Aligned(AlignRegion(region))
    ensures AlignRegion(region).length > 0 ==>
      region.address <= AlignRegion(region).address && AlignRegion(region).End() <= region.End()
  {
    var r := AlignRegion(region);
    AlignUpIsNextPage(ToU32(region.address));
    AlignDownLosesAPage(ToU32(region.length));
    if r.length > 0 {
      assert 0x2000 <= ToU32(region.length) == region.length;
      assert region.address <= 0x1_0000_0000 - 0x2000;
    }
  }

  // The start moves up to the next page and the length loses between one and two pages.  Less than
  // two pages are lost whole, and so are 4 GiB, which the cast truncates.
  lemma AlignmentLoss(region: Region)
    requires region.End() <= 0x1_0000_0000
    ensures
      var r := AlignRegion(region);
      && r.kind == region.kind
      && if region.length < 0x2000 || region.length == 0x1_0000_0000 then r.length == 0 else
           && r.address % 0x1000 == 0 && region.address < r.address <= region.address + 0x1000
           && r.length % 0x1000 == 0 && region.length - 0x2000 < r.length <= region.length - 0x1000
  {
    AlignUpIsNextPage(ToU32(region.address));
    AlignDownLosesAPage(ToU32(region.length));
  }

  // The frame count of an aligned region is sound exactly when its length is not two pages:
  // that length makes the subtraction wrap around.
  lemma FramesFitIff(region: Region)
    requires Aligned(region)
    ensures FramesFit(region) <==> region.length != 0x2000
    ensures region.length == 0x2000 ==> GetRegionFramesCount(region) == 0x1_0000_0000 - 1
  {
    hide AlignUp, AlignDown, GetRegionFramesCount;
    FramesCounted(region);
    if region.length >= 0x3000 {
      SpareBytes(region.length - 0x1000, GetRegionFramesCount(region));
    } else if region.length == 0x2000 {
      TooManyFrames();
    }
  }

  lemma FramesCounted(region: Region)
    requires Aligned(region)
    ensures region.length < 0x2000 ==> GetRegionFramesCount(region) == 0
    ensures region.length == 0x2000 ==> GetRegionFramesCount(region) == 0x1_0000_0000 - 1
    ensures region.length > 0x2000 ==>
      region.length >= 0x3000 && GetRegionFramesCount(region) == ((region.length - 0x1000) / 4108 - 1) % 0x1_0000_0000
  {
    AlignDownLosesAPage(region.length);
  }

  // Frames and their descriptors take all the room there is but for one frame, its descriptor, and
  // the page that the alignment of the length gives up a second time.
  lemma FramesUseTheRoom(region: Region)
    requires Aligned(region) && region.length >= 0x3000
    ensures
      var n := GetRegionFramesCount(region);
      (n + 1) * (0x1000 + 12) <= region.length - 0x1000 < (n + 2) * (0x1000 + 12)
  {
    hide AlignUp, AlignDown, GetRegionFramesCount;
    FramesCounted(region);
    WholeAndRest(region.length - 0x1000);
  }

  lemma WholeAndRest(whole: nat)
    requires 0x2000 <= whole < 0x1_0000_0000
    ensures
      var n := (whole / 4108 - 1) % 0x1_0000_0000;
      (n + 1) * 4108 <= whole < (n + 2) * 4108
  {
    assert (whole / 4108 - 1) % 0x1_0000_0000 == whole / 4108 - 1;
  }

  lemma TooManyFrames()
    ensures AlignUp(ToU32(0xFFFF_FFFF * 12), 0x1000) + 0xFFFF_FFFF * 0x1000 > 0x2000
  {
  }

  // The raw lengths that end in that wrap-around.
  lemma AlignedToTwoPagesIff(region: Region)
    requires region.length < 0x1_0000_0000
    ensures AlignRegion(region).length == 0x2000 <==> 0x3000 <= region.length < 0x4000
  {
    AlignDownLosesAPage(region.length);
  }

  // The frames start on the next page boundary above the frame descriptors and end inside the region.
  lemma FirstFramePlace(region: Region)
    requires Aligned(region) && region.length != 0x2000 && GetRegionFramesCount(region) > 0
    ensures
      var n := GetRegionFramesCount(region);
      && FirstFrame(region) % 0x1000 == 0
      && FirstFrame(region) - 0x1000 <= region.address + n * 12 < FirstFrame(region)
      && FirstFrame(region) + n * 0x1000 <= region.End() <= 0x1_0000_0000
  {
    FramesFitIff(region);
    var n := GetRegionFramesCount(region);
    FirstFrameSum(region.address, region.length, n);
  }

  // The count leaves a page at the end of the region unused.
  lemma SparePage(region: Region)
    requires Aligned(region) && region.length != 0x2000 && GetRegionFramesCount(region) > 0
    ensures
      var n := GetRegionFramesCount(region);
      && region.address + n * 12 <= FirstFrame(region)
      && FirstFrame(region) + n * 0x1000 <= region.End() - 0x1000
  {
    hide AlignUp, AlignDown, GetRegionFramesCount;
    var n := GetRegionFramesCount(region);
    FramesCounted(region);
    SpareBytes(region.length - 0x1000, n);
    FirstFrameSum(region.address, region.length - 0x1000, n);
  }

  lemma SpareBytes(whole: nat, n: nat)
    requires 0x2000 <= whole < 0x1_0000_0000 && n == (whole / 4108 - 1) % 0x1_0000_0000
    ensures n == 0 || AlignUp(ToU32(n * 12), 0x1000) + n * 0x1000 <= whole
    ensures n < 0x10_0000
  {
    assert n == whole / 4108 - 1;
    AlignUpIsNextPage(n * 12);
  }

  lemma FirstFrameSum(address: nat, length: nat, n: nat)
    requires address % 0x1000 == 0 && address + length <= 0x1_0000_0000 && 0 < n < 0x10_0000
    requires AlignUp(ToU32(n * 12), 0x1000) + n * 0x1000 <= length
    ensures
      var first := ToU32(ToU32(address) + AlignUp(ToU32(n * 12), 0x1000));
      && first % 0x1000 == 0
      && first - 0x1000 <= address + n * 12 < first
      && first + n * 0x1000 <= address + length
  {
    hide AlignUp;
    assert ToU32(n * 12) == n * 12 < 0xFFFF_F000;
    AlignUpIsNextPage(n * 12);
    var table := AlignUp(n * 12, 0x1000);
    AlignedSum(address, table);
    assert ToU32(address) == address && ToU32(address + table) == address + table;
  }

  lemma AlignedSum(x: nat, y: nat)
    requires x % 0x1000 == 0 && y % 0x1000 == 0
    ensures (x + y) % 0x1000 == 0
  {
    assert x + y == 0x1000 * (x / 0x1000 + y / 0x1000);
  }

  // Every frame of a sound table is a whole page of the region, behind the frame descriptors.
  lemma FramePlace(region: Region, j: nat)
    requires Aligned(region) && region.length != 0x2000 && j < GetRegionFramesCount(region)
    ensures FrameAddress(region, j) == FirstFrame(region) + j * 0x1000
    ensures region.address + GetRegionFramesCount(region) * 12 <= FrameAddress(region, j)
    ensures FrameAddress(region, j) + 0x1000 <= region.End()
    ensures PageAligned(FrameAddress(region, j))
  {
    hide FirstFrame, GetRegionFramesCount, AlignUp, AlignDown;
    var n := GetRegionFramesCount(region);
    FirstFramePlace(region);
    AlignedSum(FirstFrame(region), j * 0x1000);
    NthPage(FirstFrame(region), j, n);
  }

  lemma NthPage(first: nat, j: nat, n: nat)
    requires j < n && first + n * 0x1000 <= 0x1_0000_0000
    ensures ToU32(first + j * 0x1000) == first + j * 0x1000 <= first + n * 0x1000 - 0x1000
  {
  }

  // ---- compaction ----

  // The walk drops a region without frames and then steps past the one moved into its place.
  function Compact(s: seq<Region>): seq<Region> {
    if s == [] then []
    else if GetRegionFramesCount(s[0]) == 0 then
      if |s| == 1 then [] else [s[1]] + Compact(s[2..])
    else [s[0]] + Compact(s[1..])
  }

  // Nothing is added, and every region that has frames stays.
  lemma {:induction false} CompactKeepsFrames(s: seq<Region>, r: Region)
    ensures r in Compact(s) ==> r in s
    ensures r in s && GetRegionFramesCount(r) != 0 ==> r in Compact(s)
  {
    if s != [] {
      if GetRegionFramesCount(s[0]) != 0 {
        CompactKeepsFrames(s[1..], r);
        assert r in s <==> r == s[0] || r in s[1..];
      } else if |s| > 1 {
        CompactKeepsFrames(s[2..], r);
        assert r in s <==> r == s[0] || r == s[1] || r in s[2..];
      }
    }
  }

  function WithFrames(s: seq<Region>): seq<Region> {
    if s == [] then []
    else (if GetRegionFramesCount(s[0]) != 0 then [s[0]] else []) + WithFrames(s[1..])
  }

  // The regions with frames stay in their order, each as often as it was there, and a table of such
  // regions stays as it is.
  lemma {:induction false} CompactKeepsOrder(s: seq<Region>)
    ensures WithFrames(Compact(s)) == WithFrames(s)
    ensures WithFrames(s) == s ==> Compact(s) == s
  {
    hide GetRegionFramesCount;
    WithFramesLength(s);
    if s != [] {
      WithFramesLength(s[1..]);
      if GetRegionFramesCount(s[0]) != 0 {
        CompactKeepsOrder(s[1..]);
        assert Compact(s)[1..] == Compact(s[1..]);
      } else if |s| > 1 {
        CompactKeepsOrder(s[2..]);
        assert s[1..][0] == s[1] && s[1..][1..] == s[2..];
        assert Compact(s)[1..] == Compact(s[2..]);
      }
    }
  }

  lemma {:induction false} WithFramesLength(s: seq<Region>)
    ensures |WithFrames(s)| <= |s|
  {
    if s != [] {
      WithFramesLength(s[1..]);
    }
  }

  lemma {:induction false} CompactStaysDisjoint(s: seq<Region>)
    requires Disjoint(s)
    ensures Disjoint(Compact(s))
  {
    if s != [] {
      var skip := if GetRegionFramesCount(s[0]) == 0 then 1 else 0;
      if skip < |s| {
        var first, rest := s[skip], s[skip + 1..];
        assert forall i :: 0 <= i < |rest| ==> rest[i] == s[skip + 1 + i];
        CompactStaysDisjoint(rest);
        var t := Compact(rest);
        assert Compact(s) == [first] + t;
        forall k | 0 <= k < |t| && first.Usable() && t[k].Usable() ensures Apart(first, t[k]) {
          CompactKeepsFrames(rest, t[k]);
          var m :| 0 <= m < |rest| && rest[m] == t[k];
          assert s[skip + 1 + m] == t[k];
        }
      }
    }
  }

  // `t` is what cutting the extra regions out of `s` may leave.
  ghost predicate IsCut(s: seq<Region>, extra: seq<Region>, t: seq<Region>) {
    AllRepresentable(t) && Bytes(t) == Bytes(s) - TakenBytes(extra)
  }

  // The regions come from such a table by alignment and compaction, and by nothing else.
  ghost predicate LaidFrom(s: seq<Region>, extra: seq<Region>, regions: seq<Region>) {
    exists t :: IsCut(s, extra, t) && regions == Compact(AlignEach(t))
  }

  // ---- the tables of a whole descriptor table ----

  // No usable region has the length whose frame count wraps around.
  ghost predicate NoTwoPageRegion(s: seq<Region>) {
    forall k :: 0 <= k < |s| && s[k].Usable() ==> s[k].length != 0x2000
  }

  ghost predicate UsableAligned(s: seq<Region>) {
    forall k :: 0 <= k < |s| && s[k].Usable() ==> Aligned(s[k])
  }

  function TablesOf(s: seq<Region>): (v: seq<Table>)
    ensures |v| == |s|
  {
    seq(|s|, i requires 0 <= i < |s| => TableOf(s[i]))
  }

  lemma FreshTableRuns(region: Region)
    ensures Runs(TableOf(region))
  {
  }

  // The descriptors that boot writes: as many as were counted, for pages in a row, all free.
  lemma FreshTableIs(region: Region, j: nat)
    requires Aligned(region) && region.length != 0x2000 && region.Usable() && j < GetRegionFramesCount(region)
    ensures |TableOf(region)| == GetRegionFramesCount(region)
    ensures TableOf(region)[j] == Frame(FirstFrame(region) + j * 0x1000, 0, false)
  {
    hide FirstFrame, GetRegionFramesCount;
    FramePlace(region, j);
  }

  // Disjoint regions give every frame a page of its own.
  lemma TablesHaveDistinctPages(s: seq<Region>)
    requires UsableAligned(s) && Disjoint(s) && NoTwoPageRegion(s)
    ensures DistinctPages(TablesOf(s))
  {
    var v: seq<Table> := TablesOf(s);
    forall i, j | 0 <= i < |v| && 0 <= j < |v[i]| ensures PageAligned(v[i][j].address) {
      FramePlace(s[i], j);
    }
    forall i, j, m, k | 0 <= i < |v| && 0 <= j < |v[i]| && 0 <= m < |v| && 0 <= k < |v[m]|
                        && v[i][j].address == v[m][k].address
      ensures i == m && j == k
    {
      if i == m {
        FramePlace(s[i], j);
        FramePlace(s[i], k);
      } else {
        FramesApart(s[i], j, s[m], k);
      }
    }
  }

  lemma FramesApart(a: Region, j: nat, b: Region, k: nat)
    requires Apart(a, b) || Apart(b, a)
    requires Aligned(a) && a.length != 0x2000 && j < GetRegionFramesCount(a)
    requires Aligned(b) && b.length != 0x2000 && k < GetRegionFramesCount(b)
    ensures FrameAddress(a, j) != FrameAddress(b, k)
  {
    FramePlace(a, j);
    FramePlace(b, k);
  }

  // Every byte of a frame is a byte of its region.
  lemma FrameBytesInRegions(s: seq<Region>, i: nat, j: nat, x: int)
    requires i < |s| && UsableAligned(s) && s[i].length != 0x2000
    requires j < |TableOf(s[i])| && 0 <= x - TableOf(s[i])[j].address < 0x1000
    ensures x in Bytes(s)
  {
    FramePlace(s[i], j);
    assert s[i].Has(x);
  }
}
