/** From the firmware's memory map to the frame allocator (kernel/kernel.cxx:21-36). */
module Boot {
  import opened Align
  import opened Regions
  import opened Frames
  import opened FrameLayout
  import opened RegionPasses
  import opened PhysicalMemory

  // IVT and BDA, the kernel image, video memory and BIOS, ISA hole.
  function ExtraRegions(kernelBegin: nat, kernelSize: nat): seq<Region> {
    [Region(0, 0x500, REGION_RESERVED),
     Region(kernelBegin, kernelSize, REGION_RESERVED),
     Region(0x80000, 0x80000, REGION_RESERVED),
     Region(0xF00000, 0x100000, REGION_RESERVED)]
  }

  // The bytes that are set aside whatever the firmware says.
  lemma ExtraBytesAre(kernelBegin: nat, kernelSize: nat, x: int)
    ensures Taken(ExtraRegions(kernelBegin, kernelSize), x) <==>
      || 0 <= x < 0x500 || kernelBegin <= x < kernelBegin + kernelSize
      || 0x8_0000 <= x < 0x10_0000 || 0xF0_0000 <= x < 0x100_0000
  {
    var s := ExtraRegions(kernelBegin, kernelSize);
    assert Taken(s, x) <==> s[0].Has(x) || s[1].Has(x) || s[2].Has(x) || s[3].Has(x);
  }

  lemma {:induction false} HolesAtMost(r: Region, extra: seq<Region>)
    ensures Holes(r, extra) <= |extra|
  {
    if extra != [] {
      HolesAtMost(r, extra[1..]);
    }
  }

  lemma OneFactorMore(n: nat, k: nat)
    ensures (n + 1) * k == n * k + k
  {
  }

  lemma {:induction false} PotentialAtMost(s: seq<Region>, extra: seq<Region>)
    ensures Potential(s, extra) <= |s| * (1 + |extra|)
  {
    if s != [] {
      HolesAtMost(s[0], extra);
      PotentialAtMost(s[1..], extra);
      OneFactorMore(|s[1..]|, 1 + |extra|);
    }
  }

  // The guard of the first pass is not deceived by a sum that wraps.
  ghost predicate NoLengthWraps(raw: seq<Region>) {
    forall r :: r in raw && LooksBelow4G(r) ==> r.length <= 0x1_0000_0000
  }

  // Where the kept part of the map ends, when no length wraps around the guard.
  lemma KeptMapBelow4G(raw: seq<Region>)
    requires NoLengthWraps(raw)
    ensures forall r :: r in Below4G(raw) ==> r.End() <= 0x1_0000_0000
    ensures forall x :: x in Bytes(Below4G(raw)) ==> 0 <= x < 0x1_0000_0000 && x in Bytes(raw)
  {
    forall r | r in Below4G(raw) ensures r in raw && r.End() <= 0x1_0000_0000 {
      KeptMembers(raw, r);
      KeptEndsBelow4GIff(r);
    }
    forall x | x in Bytes(Below4G(raw)) ensures 0 <= x < 0x1_0000_0000 && x in Bytes(raw) {
      CoversMember(Below4G(raw), x);
      CoversMember(raw, x);
    }
  }

  // What the three passes over the firmware's map make of it.
  ghost predicate IsPrepared(raw: seq<Region>, s: seq<Region>) {
    exists sorted :: IsSorted(Below4G(raw), sorted) && s == MergeSimilar(sorted)
  }

  ghost predicate IsSorted(s: seq<Region>, sorted: seq<Region>) {
    SortedByAddress(sorted) && SameOrder(s, sorted)
  }

  // No address occurs more than twice in the firmware's map.
  ghost predicate AtMostTwoAlike(raw: seq<Region>) {
    forall address: nat :: |At(raw, address)| <= 2
  }

  // Of the descriptors below 4 GiB with this address, descriptor `k` is the last one.
  ghost predicate IsLastAlike(raw: seq<Region>, k: int, address: nat) {
    && 0 <= k < |raw| && EndsBelow4G(raw[k]) && raw[k].address == address
    && forall m :: k < m < |raw| && EndsBelow4G(raw[m]) ==> raw[m].address != address
  }

  // Descriptor `k` is the last one below 4 GiB with its address, and all of them are usable.
  ghost predicate Survives(raw: seq<Region>, k: int) {
    && 0 <= k < |raw| && IsLastAlike(raw, k, raw[k].address)
    && forall r :: r in raw && EndsBelow4G(r) && r.address == raw[k].address ==> r.Usable()
  }

  ghost predicate SurvivingByte(raw: seq<Region>, x: int) {
    exists k :: Survives(raw, k) && raw[k].Has(x)
  }

  lemma NoneKept(address: nat)
    ensures At(Below4G([]), address) == []
  {
  }

  lemma LastKeptAt(init: seq<Region>, last: Region, address: nat)
    requires LooksBelow4G(last) ==> last.length <= 0x1_0000_0000
    ensures |At(init + [last], address)| == |At(init, address)| + if last.address == address then 1 else 0
    ensures At(Below4G(init + [last]), address)
      == At(Below4G(init), address) + if EndsBelow4G(last) && last.address == address then [last] else []
  {
    hide At, LooksBelow4G, EndsBelow4G;
    AtConcat(init, [last], address);
    AtConcat(Below4G(init), [last], address);
    AtSingle(last, address);
    LooksBelow4GIff(last);
    assert (init + [last])[..|init|] == init;
    assert Below4G(init) + [] == Below4G(init);
  }

  // Position -1 stands for none.
  lemma {:induction false} LastAlike(raw: seq<Region>, address: nat) returns (k: int)
    requires NoLengthWraps(raw)
    ensures |At(Below4G(raw), address)| <= |At(raw, address)|
    ensures
      var here := At(Below4G(raw), address);
      if here == [] then forall r :: r in raw && EndsBelow4G(r) ==> r.address != address
      else IsLastAlike(raw, k, address) && here[|here| - 1] == raw[k]
  {
    hide At, LooksBelow4G, EndsBelow4G, Below4G;
    k := -1;
    if raw == [] {
      NoneKept(address);
    } else {
      var init, last := raw[..|raw| - 1], raw[|raw| - 1];
      assert raw == init + [last];
      k := LastAlike(init, address);
      LastKeptAt(init, last, address);
      if EndsBelow4G(last) && last.address == address {
        k := |raw| - 1;
      }
    }
  }

  lemma OneIsLast(raw: seq<Region>, k: int, m: int, address: nat)
    requires IsLastAlike(raw, k, address) && IsLastAlike(raw, m, address)
    ensures k == m
  {
  }

  // After merging, the descriptors that survive are usable, and no others.
  lemma PreparedBytesAre(raw: seq<Region>, sorted: seq<Region>, x: int)
    requires NoLengthWraps(raw) && AtMostTwoAlike(raw) && IsSorted(Below4G(raw), sorted)
    ensures Covers(MergeSimilar(sorted), x) <==> SurvivingByte(raw, x)
  {
    var merged := MergeSimilar(sorted);
    CoversMember(merged, x);
    if Covers(merged, x) {
      var m :| m in merged && m.Usable() && m.Has(x);
      var k := MergedIsLast(raw, sorted, m);
    }
    if k :| Survives(raw, k) && raw[k].Has(x) {
      EveryAddressStays(sorted, raw[k].address);
      var l := LastAlike(raw, raw[k].address);
      KeptAt(raw, raw[k].address, raw[k]);
      var m := At(merged, raw[k].address)[0];
      AtMember(merged, raw[k].address, m);
      var n := MergedIsLast(raw, sorted, m);
      OneIsLast(raw, k, n, raw[k].address);
    }
  }

  lemma KeptAt(raw: seq<Region>, address: nat, r: Region)
    requires NoLengthWraps(raw)
    ensures r in At(Below4G(raw), address) <==> r in raw && EndsBelow4G(r) && r.address == address
  {
    AtMember(Below4G(raw), address, r);
    KeptMembers(raw, r);
    if r in raw {
      LooksBelow4GIff(r);
    }
  }

  lemma MergedIsLast(raw: seq<Region>, sorted: seq<Region>, m: Region) returns (k: int)
    requires NoLengthWraps(raw) && AtMostTwoAlike(raw) && IsSorted(Below4G(raw), sorted)
    requires m in MergeSimilar(sorted)
    ensures IsLastAlike(raw, k, m.address)
    ensures m.Usable() <==> Survives(raw, k)
    ensures m.Usable() ==> m == raw[k]
  {
    hide At, Below4G, MergeSimilar, EndsBelow4G;
    k := LastAlike(raw, m.address);
    UsableAfterMergeIff(sorted, m);
    forall r ensures r in At(sorted, m.address) <==> r in raw && EndsBelow4G(r) && r.address == m.address {
      KeptAt(raw, m.address, r);
    }
  }

  // The regions are what is left of the map after all passes; none of them loses more.  `cut` is
  // the table that the manager starts with.
  ghost predicate BootedFrom(raw: seq<Region>, extra: seq<Region>, cut: seq<Region>, tableAddress: nat,
                             regions: seq<Region>) {
    && (exists s :: IsPrepared(raw, s) && IsCut(s, extra, cut))
    && IsU32(tableAddress) && |cut| < 0x100_0000 && LaidFrom(cut, [OwnTable(tableAddress, |cut|)], regions)
  }

  method InitializeMemory(table: array<Region>, tableAddress: nat, rawCount: nat, kernelBegin: nat, kernelSize: nat)
    returns (pmm: Pmm, ghost cut: seq<Region>)
    requires IsU32(tableAddress) && kernelBegin + kernelSize <= 0x1_0000_0000
    // Room for the splits: the code writes behind the table's end without asking.
    requires 10 * rawCount <= table.Length && rawCount < 0x10_0000
    requires NoLengthWraps(table[..rawCount])
    modifies table
    ensures fresh(pmm) && pmm.Valid() && pmm.LivePages() == {}
    ensures pmm.tables == TablesOf(pmm.regions) && UsableAligned(pmm.regions)
    ensures BootedFrom(old(table[..rawCount]), ExtraRegions(kernelBegin, kernelSize), cut, tableAddress, pmm.regions)
    ensures Bytes(pmm.regions) <= Bytes(old(table[..rawCount])) - TakenBytes(ExtraRegions(kernelBegin, kernelSize))
    // Where two descriptors have the same address, one that is not usable has its way.
    ensures AtMostTwoAlike(old(table[..rawCount])) ==> forall x :: x in Bytes(cut) <==>
      SurvivingByte(old(table[..rawCount]), x) && !Taken(ExtraRegions(kernelBegin, kernelSize), x)
    ensures forall x :: x in Bytes(pmm.regions) ==> x in Bytes(cut)
    ensures Disjoint(old(table[..rawCount])) && NoTwoPageRegion(pmm.regions) ==> pmm.Sound()
    // The descriptor table itself is never handed out.
    ensures tableAddress + (|cut| + 2) * 20 <= 0x1_0000_0000 && NoTwoPageRegion(pmm.regions) ==>
      AllSpare(pmm.regions, tableAddress, (|cut| + 2) * 20)
  {
    hide Potential, Disjoint, Bytes, TakenBytes, UsableAligned, NoTwoPageRegion, IsPrepared, IsCut, LaidFrom,
      BootedFrom, OwnTable, AllSpare;
    ghost var raw, extra := table[..rawCount], ExtraRegions(kernelBegin, kernelSize);
    var count := PrepareTable(table, rawCount);
    ghost var prepared := table[..count];
    PotentialTimes(prepared, extra);
    count := RemoveExtraRegions(table, count, ExtraRegions(kernelBegin, kernelSize));
    cut := table[..count];
    PotentialTimes(cut, [OwnTable(tableAddress, count)]);
    KeptBytes(raw, prepared, extra, cut);
    pmm := new Pmm.Initialize(table, tableAddress, count);
    BootIsComplete(raw, prepared, extra, cut, tableAddress, pmm.regions);
    CutBytesAre(raw, prepared, extra, cut);
  }

  lemma PotentialTimes(s: seq<Region>, extra: seq<Region>)
    ensures |extra| == 4 ==> Potential(s, extra) <= 5 * |s|
    ensures |extra| == 1 ==> Potential(s, extra) <= 2 * |s|
  {
    PotentialAtMost(s, extra);
  }

  lemma KeptBytes(raw: seq<Region>, prepared: seq<Region>, extra: seq<Region>, cut: seq<Region>)
    requires Bytes(prepared) <= Bytes(raw) && AllRepresentable(cut) && Bytes(cut) == Bytes(prepared) - TakenBytes(extra)
    requires forall x :: x in Bytes(prepared) ==> 0 <= x < 0x1_0000_0000
    ensures IsCut(prepared, extra, cut) && Bytes(cut) <= Bytes(raw) - TakenBytes(extra)
    ensures forall x :: x in Bytes(cut) ==> 0 <= x < 0x1_0000_0000
  {
  }

  lemma BootIsComplete(raw: seq<Region>, prepared: seq<Region>, extra: seq<Region>, cut: seq<Region>, tableAddress: nat,
                       regions: seq<Region>)
    requires IsPrepared(raw, prepared) && IsCut(prepared, extra, cut) && Bytes(cut) <= Bytes(raw) - TakenBytes(extra)
    requires IsU32(tableAddress) && |cut| < 0x100_0000 && LaidFrom(cut, [OwnTable(tableAddress, |cut|)], regions)
    requires Bytes(regions) <= Bytes(cut) - TakenBytes([OwnTable(tableAddress, |cut|)])
    ensures BootedFrom(raw, extra, cut, tableAddress, regions)
    ensures Bytes(regions) <= Bytes(raw) - TakenBytes(extra)
    ensures forall x :: x in Bytes(regions) ==> x in Bytes(cut)
  {
  }

  // Exactly the bytes that survive and are not set aside get into the table that is laid out.
  lemma CutBytesAre(raw: seq<Region>, prepared: seq<Region>, extra: seq<Region>, cut: seq<Region>)
    requires NoLengthWraps(raw) && IsPrepared(raw, prepared) && IsCut(prepared, extra, cut)
    ensures AtMostTwoAlike(raw) ==> forall x :: x in Bytes(cut) <==> SurvivingByte(raw, x) && !Taken(extra, x)
  {
    hide AtMostTwoAlike, NoLengthWraps, SurvivingByte, Taken, Covers, MergeSimilar, Below4G, IsSorted;
    if AtMostTwoAlike(raw) {
      var sorted :| IsSorted(Below4G(raw), sorted) && prepared == MergeSimilar(sorted);
      forall x ensures x in Bytes(cut) <==> SurvivingByte(raw, x) && !Taken(extra, x) {
        PreparedBytesAre(raw, sorted, x);
        assert x in Bytes(prepared) <==> Covers(prepared, x);
        assert x in TakenBytes(extra) <==> Taken(extra, x);
      }
    }
  }

  // The three passes before any region is cut.
  method PrepareTable(table: array<Region>, rawCount: nat) returns (count: nat)
    requires rawCount <= table.Length
    requires NoLengthWraps(table[..rawCount])
    modifies table
    ensures count <= rawCount
    ensures IsPrepared(old(table[..rawCount]), table[..count])
    ensures AllRepresentable(table[..count])
    ensures Bytes(table[..count]) <= Bytes(old(table[..rawCount]))
    ensures forall x :: x in Bytes(table[..count]) ==> 0 <= x < 0x1_0000_0000
    ensures Disjoint(old(table[..rawCount])) ==> Disjoint(table[..count])
  {
    ghost var raw := table[..rawCount];
    KeptMapBelow4G(raw);
    if Disjoint(raw) {
      KeptStaysDisjoint(raw);
    }
    hide Disjoint, Bytes, Below4G;
    count := TweakRegionDescriptors(table, table, rawCount);
    ghost var kept := table[..count];
    SortRegionDescriptors(table, count);
    ghost var sorted := table[..count];
    MergedFacts(kept, sorted);
    assert IsSorted(kept, sorted);
    count := RemoveSimilarRegionDescriptors(table, count);
  }

  lemma MergedFacts(kept: seq<Region>, sorted: seq<Region>)
    requires Rearranged(kept, sorted) && Bytes(sorted) == Bytes(kept)
    requires forall r :: r in kept ==> r.End() <= 0x1_0000_0000
    ensures AllRepresentable(MergeSimilar(sorted)) && Bytes(MergeSimilar(sorted)) <= Bytes(kept)
    ensures Disjoint(kept) ==> Disjoint(MergeSimilar(sorted))
  {
    MergeSelects(sorted);
    if Disjoint(kept) {
      MergeStaysDisjoint(sorted);
    }
    PermutationIsRepresentable(kept, sorted, MergeSimilar(sorted));
  }

  lemma PermutationIsRepresentable(kept: seq<Region>, sorted: seq<Region>, merged: seq<Region>)
    requires multiset(kept) == multiset(sorted) && forall r :: r in merged ==> r in sorted
    requires forall r :: r in kept ==> r.End() <= 0x1_0000_0000
    ensures AllRepresentable(merged)
  {
    forall k | 0 <= k < |merged| ensures merged[k].Representable() {
      assert merged[k] in merged;
      assert merged[k] in multiset(sorted);
      assert merged[k] in kept;
    }
  }

  // Every byte of every frame handed out after boot was usable in the firmware's map and lies in
  // no extra region, and the frame is behind the descriptors of its own region's frames.
  lemma EveryFrameIsUsableMemory(raw: seq<Region>, extra: seq<Region>, regions: seq<Region>, i: nat, j: nat, x: int)
    requires UsableAligned(regions) && Bytes(regions) <= Bytes(raw) - TakenBytes(extra)
    requires i < |regions| && regions[i].length != 0x2000 && j < |TablesOf(regions)[i]|
    requires 0 <= x - TablesOf(regions)[i][j].address < 0x1000
    ensures Covers(raw, x) && !Taken(extra, x)
    ensures PageAligned(TablesOf(regions)[i][j].address)
    ensures regions[i].address + |TablesOf(regions)[i]| * 12 <= x
  {
    FramePlace(regions[i], j);
    FrameBytesInRegions(regions, i, j, x);
    assert x in Bytes(raw) && x !in TakenBytes(extra);
  }
}
