/** The passes that rewrite a descriptor table in place (library/pmm/pmm.cxx:141-243). */
module RegionPasses {
  import opened Regions

  // Makes room for one descriptor after `i`, which is left in both places.
  method OpenSlot(a: array<Region>, i: nat, count: nat)
    requires i < count < a.Length
    modifies a
    ensures a[..count + 1] == old(a[..i + 1]) + old(a[i..count])
  {
    var k := count;
    while k > i
      invariant i <= k <= count
      invariant forall m :: 0 <= m <= k && m < count ==> a[m] == old(a[m])
      invariant forall m :: k < m <= count ==> a[m] == old(a[m - 1])
    {
      a[k] := a[k - 1];
      k := k - 1;
    }
    ghost var left, right := old(a[..i + 1]), old(a[i..count]);
    forall m | 0 <= m < count + 1 ensures a[m] == (left + right)[m] {
      assert m > i ==> (left + right)[m] == right[m - i - 1];
    }
  }

  // The part of descriptor `i` behind a hole gets a descriptor of its own.
  method Split(a: array<Region>, i: nat, count: nat, entryStart: nat, entryEnd: nat)
    requires i < count < a.Length
    requires a[i].address <= entryStart && entryEnd <= a[i].End()
    modifies a
    ensures
      var region := old(a[i]);
      a[..count + 1] == old(a[..i])
        + [region.(length := entryStart - region.address), Region(entryEnd, region.End() - entryEnd, region.kind)]
        + old(a[i + 1..count])
  {
    var myStart, myEnd := a[i].address, a[i].End();
    ghost var region, left, right := a[i], a[..i], a[i + 1..count];
    ghost var first, second :=
      region.(length := entryStart - myStart), Region(entryEnd, myEnd - entryEnd, region.kind);
    assert a[..i + 1] == left + [region] && a[i..count] == [region] + right;
    OpenSlot(a, i, count);
    ghost var apart := a[..count + 1];
    TwoPlaces(left, region, right, first, second);
    assert apart[i] == region;
    a[i + 1] := Region(entryEnd, myEnd - entryEnd, a[i].kind);
    a[i] := a[i].(length := entryStart - myStart);
    assert a[..count + 1] == apart[i + 1 := second][i := first];
  }

  lemma TwoPlaces(left: seq<Region>, region: Region, right: seq<Region>, first: Region, second: Region)
    ensures
      var apart := (left + [region]) + ([region] + right);
      apart[|left| + 1 := second][|left| := first] == left + [first, second] + right
  {
  }

  // One pass of the inner loop: descriptor `i` gives way to the pieces left of it.
  method CutAt(a: array<Region>, i: nat, count: nat, extra: Region) returns (newCount: nat)
    requires i < count <= a.Length
    requires a[i].Representable() && extra.Representable()
    requires count - 1 + |Cut(a[i], extra)| <= a.Length
    modifies a
    ensures newCount == count - 1 + |Cut(old(a[i]), extra)|
    ensures a[..newCount] == old(a[..i]) + Cut(old(a[i]), extra) + old(a[i + 1..count])
  {
    newCount := count;
    ghost var region, left, right := a[i], a[..i], a[i + 1..count];
    if extra.length != 0 {
      var overlapType := GetRegionOverlapType(a[i], extra);
      var myStart, myEnd := a[i].address, a[i].End();
      var entryStart, entryEnd := extra.address, extra.End();
      if overlapType == OverlapStart {
        a[i] := a[i].(length := a[i].length - (entryEnd - myStart), address := entryEnd);
      } else if overlapType == OverlapEnd {
        a[i] := a[i].(length := entryStart - myStart);
      } else if overlapType == OverlapInside {
        Split(a, i, count, entryStart, entryEnd);
        return count + 1;
      } else if overlapType == OverlapOutside {
        a[i] := a[i].(kind := REGION_RESERVED);
      }
    }
    ThreeRuns(a[..newCount], left, a[i], right);
  }

  lemma ThreeRuns(s: seq<Region>, left: seq<Region>, region: Region, right: seq<Region>)
    requires |s| == |left| + 1 + |right| && s[..|left|] == left && s[|left|] == region && s[|left| + 1..] == right
    ensures s == left + [region] + right
  {
  }

  // `t` has the same bytes as `s` outside the extra regions and no new ones.
  ghost predicate Trimmed(s: seq<Region>, t: seq<Region>, extra: seq<Region>) {
    && AllRepresentable(t)
    && Bytes(t) - TakenBytes(extra) == Bytes(s) - TakenBytes(extra)
    && Bytes(t) <= Bytes(s)
    && (Disjoint(s) ==> Disjoint(t))
  }

  // Cuts at and behind descriptor `i` only, and no more descriptors than `s` had room for.
  ghost predicate CutDown(s: seq<Region>, t: seq<Region>, i: nat, extra: seq<Region>)
    requires i <= |s|
  {
    && i <= |t| && t[..i] == s[..i]
    && Potential(t[i..], extra) <= Potential(s[i..], extra)
    && Trimmed(s, t, extra)
  }

  // Exact set subtraction on a table that grows while it is walked.
  method RemoveExtraRegions(a: array<Region>, count: nat, extra: seq<Region>) returns (newCount: nat)
    requires count <= a.Length
    requires AllRepresentable(a[..count]) && AllRepresentable(extra)
    requires Potential(a[..count], extra) <= a.Length
    modifies a
    ensures newCount <= Potential(old(a[..count]), extra) <= a.Length
    ensures AllRepresentable(a[..newCount])
    ensures Bytes(a[..newCount]) == Bytes(old(a[..count])) - TakenBytes(extra)
    ensures Disjoint(old(a[..count])) ==> Disjoint(a[..newCount])
  {
    hide Potential, Bytes, TakenBytes, Disjoint, CutDown, Trimmed, Cleared;
    newCount := count;
    ghost var initial := a[..count];
    PotentialBoundsLength(initial, extra);
    ghost var table := initial;
    var i := 0;
    ClearedStart(initial, extra);
    while i < newCount
      invariant 0 <= i <= newCount <= a.Length
      invariant table == a[..newCount]
      invariant Cleared(initial, table, i, extra)
      decreases Potential(table[i..], extra)
    {
      ghost var before := table;
      ClearedMeans(initial, table, i, extra);
      if a[i].Usable() {
        newCount := CutByAll(a, i, newCount, extra);
        table := a[..newCount];
      } else {
        CutStart(table, i, extra);
        ReservedHasNoBytes(a[i]);
      }
      assert table[i] == a[i];
      ClearedStep(initial, before, table, i, extra);
      i := i + 1;
      ClearedMeans(initial, table, i, extra);
    }
    ClearedMeans(initial, table, i, extra);
    assert table[..i] == table;
    TrimmedMeans(initial, table, extra);
  }

  // The state of that loop: the first `i` descriptors have no byte of any extra region.
  ghost predicate Cleared(initial: seq<Region>, table: seq<Region>, i: nat, extra: seq<Region>) {
    && i <= |table| && i + Potential(table[i..], extra) <= Potential(initial, extra)
    && Trimmed(initial, table, extra)
    && Bytes(table[..i]) !! TakenBytes(extra)
  }

  lemma ClearedStart(s: seq<Region>, extra: seq<Region>)
    requires AllRepresentable(s)
    ensures Cleared(s, s, 0, extra)
  {
    assert s[0..] == s;
  }

  lemma ClearedMeans(initial: seq<Region>, table: seq<Region>, i: nat, extra: seq<Region>)
    requires Cleared(initial, table, i, extra)
    ensures i <= |table| && |table| <= i + Potential(table[i..], extra) <= Potential(initial, extra)
    ensures AllRepresentable(table) && Trimmed(initial, table, extra) && Bytes(table[..i]) !! TakenBytes(extra)
  {
    PotentialBoundsLength(table[i..], extra);
  }

  // Descriptor `i` is clear now too.
  lemma ClearedStep(initial: seq<Region>, before: seq<Region>, table: seq<Region>, i: nat, extra: seq<Region>)
    requires Cleared(initial, before, i, extra) && i < |before| && i < |table|
    requires CutDown(before, table, i, extra) && Bytes([table[i]]) !! TakenBytes(extra)
    ensures Cleared(initial, table, i + 1, extra)
    ensures Potential(table[i + 1..], extra) < Potential(before[i..], extra)
  {
    hide Bytes, TakenBytes, Disjoint;
    assert table[..i + 1] == before[..i] + [table[i]];
    BytesConcat(before[..i], [table[i]]);
    assert table[i..][1..] == table[i + 1..] && table[i..] != [];
  }

  lemma TrimmedMeans(s: seq<Region>, t: seq<Region>, extra: seq<Region>)
    requires Trimmed(s, t, extra) && Bytes(t) !! TakenBytes(extra)
    ensures AllRepresentable(t) && Bytes(t) == Bytes(s) - TakenBytes(extra) && (Disjoint(s) ==> Disjoint(t))
  {
    hide Bytes, TakenBytes, Disjoint;
  }

  lemma ReservedHasNoBytes(region: Region)
    requires !region.Usable()
    ensures Bytes([region]) == iset{}
  {
  }

  // The inner loop: all extra regions are cut out of descriptor `i`; pieces split off on the
  // way land behind it and wait for their own turn.
  method CutByAll(a: array<Region>, i: nat, count: nat, extra: seq<Region>) returns (newCount: nat)
    requires i < count <= a.Length
    requires AllRepresentable(a[..count]) && AllRepresentable(extra)
    requires i + Potential(a[..count][i..], extra) <= a.Length
    modifies a
    ensures i < newCount <= a.Length
    ensures CutDown(old(a[..count]), a[..newCount], i, extra)
    ensures Bytes([a[i]]) !! TakenBytes(extra)
  {
    hide Potential, Bytes, TakenBytes, Disjoint;
    newCount := count;
    ghost var initial := a[..count];
    ghost var table := initial;
    var j := 0;
    CutStart(initial, i, extra);
    while j < |extra|
      invariant 0 <= j <= |extra|
      invariant i < newCount <= a.Length
      invariant table == a[..newCount]
      invariant CutDown(initial, table, i, extra)
      invariant Bytes([table[i]]) !! TakenBytes(extra[..j])
    {
      ghost var before := table;
      table := CutStep(initial, table, i, extra, j);
      assert |table| == newCount - 1 + |Cut(before[i], extra[j])|;
      newCount := CutAt(a, i, newCount, extra[j]);
      j := j + 1;
    }
    assert extra[..j] == extra;
  }

  lemma CutStart(s: seq<Region>, i: nat, extra: seq<Region>)
    requires i < |s| && AllRepresentable(s)
    ensures CutDown(s, s, i, extra) && Bytes([s[i]]) !! TakenBytes(extra[..0])
  {
  }

  // One more cut of descriptor `i`, by extra[j].
  lemma CutStep(initial: seq<Region>, s: seq<Region>, i: nat, extra: seq<Region>, j: nat) returns (t: seq<Region>)
    requires i < |s| && i < |initial| && j < |extra|
    requires AllRepresentable(extra) && CutDown(initial, s, i, extra)
    ensures t == s[..i] + Cut(s[i], extra[j]) + s[i + 1..]
    ensures CutDown(initial, t, i, extra)
    ensures |t| <= i + Potential(initial[i..], extra)
    ensures Bytes([s[i]]) !! TakenBytes(extra[..j]) ==> Bytes([t[i]]) !! TakenBytes(extra[..j + 1])
  {
    hide Potential, Bytes, TakenBytes, Disjoint;
    var left, region, right := s[..i], s[i], s[i + 1..];
    var cut := Cut(region, extra[j]);
    t := left + cut + right;
    assert s == left + [region] + right;
    CutIsSubtraction(region, extra[j]);
    CutStepBytes(left, region, right, extra, j);
    CutStepPotential(region, right, extra, j);
    assert t[i..] == cut + right && s[i..] == [region] + right;
    PotentialBoundsLength(t[i..], extra);
    if Disjoint(s) {
      SpliceStaysDisjoint(left, region, right, extra[j]);
    }
  }

  lemma CutStepBytes(left: seq<Region>, region: Region, right: seq<Region>, extra: seq<Region>, j: nat)
    requires j < |extra| && region.Representable() && extra[j].Representable()
    ensures
      var cut := Cut(region, extra[j]);
      && Bytes(left + cut + right) - TakenBytes(extra) == Bytes(left + [region] + right) - TakenBytes(extra)
      && Bytes(left + cut + right) <= Bytes(left + [region] + right)
      && (Bytes([region]) !! TakenBytes(extra[..j]) ==> Bytes([cut[0]]) !! TakenBytes(extra[..j + 1]))
  {
    hide Cut, Covers, Taken;
    var cut := Cut(region, extra[j]);
    CutShape(region, extra[j]);
    CutIsSubtraction(region, extra[j]);
    BytesSplice(left, cut, right);
    BytesSplice(left, [region], right);
    TakenMember(extra, j);
    assert cut == [cut[0]] + cut[1..];
    BytesConcat([cut[0]], cut[1..]);
  }

  lemma CutStepPotential(region: Region, right: seq<Region>, extra: seq<Region>, j: nat)
    requires j < |extra| && region.Representable() && extra[j].Representable()
    ensures Potential(Cut(region, extra[j]) + right, extra) <= Potential([region] + right, extra)
  {
    PotentialConcat(Cut(region, extra[j]), right, extra);
    PotentialConcat([region], right, extra);
    CutKeepsPotential(region, extra, j);
    assert Potential([region], extra) == 1 + Holes(region, extra) + Potential([], extra);
  }

  lemma TakenMember(extra: seq<Region>, j: nat)
    requires j < |extra|
    ensures TakenBytes([extra[j]]) <= TakenBytes(extra)
    ensures TakenBytes(extra[..j + 1]) == TakenBytes(extra[..j]) + TakenBytes([extra[j]])
  {
    forall x ensures Taken(extra[..j + 1], x) <==> Taken(extra[..j], x) || Taken([extra[j]], x) {
      if Taken(extra[..j], x) {
        var k :| 0 <= k < j && extra[..j][k].Has(x);
        assert extra[..j + 1][k].Has(x);
      }
      if Taken([extra[j]], x) {
        assert [extra[j]][0].Has(x);
        assert extra[..j + 1][j].Has(x);
      }
      if Taken(extra[..j + 1], x) {
        var k :| 0 <= k < j + 1 && extra[..j + 1][k].Has(x);
        if k < j {
          assert extra[..j][k].Has(x);
        } else {
          assert [extra[j]][0].Has(x);
        }
      }
    }
    forall x | Taken([extra[j]], x) ensures Taken(extra, x) {
      assert [extra[j]][0].Has(x);
      assert extra[j].Has(x);
    }
  }

  // ---- raw table to sorted table ----

  // The code's guard, with its sum taken modulo 2^64.
  predicate LooksBelow4G(r: Region) {
    r.address < 0x1_0000_0000 && r.End() % 0x1_0000_0000_0000_0000 <= 0x1_0000_0000
  }

  function Below4G(s: seq<Region>): seq<Region> {
    if s == [] then []
    else Below4G(s[..|s| - 1]) + (if LooksBelow4G(s[|s| - 1]) then [s[|s| - 1]] else [])
  }

  // A kept descriptor really ends below 4 GiB exactly when its length alone would fit there:
  // an end that wrapped around 2^64 passes the guard too.
  lemma KeptEndsBelow4GIff(r: Region)
    requires r.length < 0x1_0000_0000_0000_0000 && LooksBelow4G(r)
    ensures r.End() <= 0x1_0000_0000 <==> r.length <= 0x1_0000_0000
  {
    if r.length <= 0x1_0000_0000 {
      assert r.End() < 0x1_0000_0000_0000_0000;
    }
  }

  lemma {:induction false} KeptMembers(s: seq<Region>, r: Region)
    ensures r in Below4G(s) <==> r in s && LooksBelow4G(r)
  {
    if s != [] {
      KeptMembers(s[..|s| - 1], r);
      assert r in s <==> r in s[..|s| - 1] || r == s[|s| - 1];
    }
  }

  // A descriptor whose exact end is no more than 4 GiB.
  predicate EndsBelow4G(r: Region) {
    r.address < 0x1_0000_0000 && r.End() <= 0x1_0000_0000
  }

  lemma LooksBelow4GIff(r: Region)
    requires r.Representable() || (LooksBelow4G(r) ==> r.length <= 0x1_0000_0000)
    ensures LooksBelow4G(r) <==> EndsBelow4G(r)
  {
    if r.Representable() {
      assert r.End() % 0x1_0000_0000_0000_0000 == r.End();
    }
  }

  lemma Below4GUnfold(s: seq<Region>, r: Region)
    ensures Below4G(s + [r]) == Below4G(s) + if LooksBelow4G(r) then [r] else []
  {
    assert (s + [r])[..|s|] == s;
  }

  // The table is filtered place by place, so the kept descriptors stay in order.
  lemma {:induction false} KeptInOrder(s: seq<Region>, t: seq<Region>)
    ensures Below4G(s + t) == Below4G(s) + Below4G(t)
    decreases |t|
  {
    hide Below4G, LooksBelow4G;
    if t == [] {
      NothingKept();
      assert s + t == s;
    } else {
      var init, last := t[..|t| - 1], t[|t| - 1];
      KeptInOrder(s, init);
      assert t == init + [last] && s + t == (s + init) + [last];
      Below4GUnfold(s + init, last);
      Below4GUnfold(init, last);
      ThreeParts(Below4G(s), Below4G(init), if LooksBelow4G(last) then [last] else []);
    }
  }

  lemma NothingKept()
    ensures Below4G([]) == []
  {
  }

  // Of a descriptor whose end does not wrap, it is clear when it is kept.
  lemma KeptAlone(r: Region)
    requires r.Representable()
    ensures Below4G([r]) == if EndsBelow4G(r) then [r] else []
  {
    LooksBelow4GIff(r);
    Below4GUnfold([], r);
    assert [] + [r] == [r];
  }

  lemma {:induction false} KeptStaysDisjoint(s: seq<Region>)
    requires Disjoint(s)
    ensures Disjoint(Below4G(s))
  {
    if s != [] {
      var init, last := s[..|s| - 1], s[|s| - 1];
      KeptStaysDisjoint(init);
      var kept := Below4G(init);
      forall k | 0 <= k < |kept| && kept[k].Usable() && last.Usable() ensures Apart(kept[k], last) {
        KeptMembers(init, kept[k]);
        var m :| 0 <= m < |init| && init[m] == kept[k];
        assert s[m] == kept[k];
      }
    }
  }

  // The kernel passes the same table as destination and source.
  method TweakRegionDescriptors(destination: array<Region>, source: array<Region>, rawCount: nat) returns (count: nat)
    requires rawCount <= source.Length && rawCount <= destination.Length
    modifies destination
    ensures count <= rawCount
    ensures destination[..count] == Below4G(old(source[..rawCount]))
  {
    count := 0;
    for i := 0 to rawCount
      invariant count <= i
      invariant destination[..count] == Below4G(old(source[..i]))
      invariant forall m :: i <= m < rawCount ==> source[m] == old(source[m])
    {
      assert old(source[..i + 1])[..i] == old(source[..i]);
      if LooksBelow4G(source[i]) {
        destination[count] := source[i];
        count := count + 1;
      }
    }
  }

  // The descriptors at one address, in table order.
  function At(s: seq<Region>, address: nat): seq<Region> {
    if s == [] then []
    else OneAt(s[0], address) + At(s[1..], address)
  }

  lemma {:induction false} AtMember(s: seq<Region>, address: nat, r: Region)
    ensures r in At(s, address) <==> r in s && r.address == address
  {
    if s != [] {
      AtMember(s[1..], address, r);
      assert r in s <==> r == s[0] || r in s[1..];
    }
  }

  function OneAt(r: Region, address: nat): seq<Region> {
    if r.address == address then [r] else []
  }

  lemma AtUnfold(s: seq<Region>, address: nat)
    ensures At(s, address) == if s == [] then [] else OneAt(s[0], address) + At(s[1..], address)
  {
  }

  lemma {:induction false} AtConcat(s: seq<Region>, t: seq<Region>, address: nat)
    ensures At(s + t, address) == At(s, address) + At(t, address)
  {
    hide At, OneAt;
    AtUnfold(s, address);
    if s == [] {
      assert s + t == t;
    } else {
      AtConcat(s[1..], t, address);
      AtUnfold(s + t, address);
      assert (s + t)[1..] == s[1..] + t;
      ThreeParts(OneAt(s[0], address), At(s[1..], address), At(t, address));
    }
  }

  lemma ThreeParts(a: seq<Region>, b: seq<Region>, c: seq<Region>)
    ensures a + (b + c) == a + b + c
  {
  }

  // No descriptor has passed another one with the same address.
  ghost predicate SameOrder(s: seq<Region>, t: seq<Region>) {
    forall address: nat :: At(t, address) == At(s, address)
  }

  lemma SwapKeepsOrder(s: seq<Region>, j: nat)
    requires j + 1 < |s| && s[j].address != s[j + 1].address
    ensures SameOrder(s, s[j := s[j + 1]][j + 1 := s[j]])
  {
    hide At;
    var t := s[j := s[j + 1]][j + 1 := s[j]];
    var left, x, y, right := s[..j], s[j], s[j + 1], s[j + 2..];
    assert s == left + [x, y] + right && t == left + [y, x] + right;
    forall address: nat ensures At(t, address) == At(s, address) {
      AtConcat(left + [x, y], right, address);
      AtConcat(left, [x, y], address);
      AtConcat(left + [y, x], right, address);
      AtConcat(left, [y, x], address);
      AtPair(x, y, address);
    }
  }

  lemma AtPair(x: Region, y: Region, address: nat)
    requires x.address != y.address
    ensures At([x, y], address) == At([y, x], address)
  {
    AtConcat([x], [y], address);
    AtConcat([y], [x], address);
    AtSingle(x, address);
    AtSingle(y, address);
    assert [x] + [y] == [x, y] && [y] + [x] == [y, x];
  }

  lemma AtSingle(r: Region, address: nat)
    ensures At([r], address) == if r.address == address then [r] else []
  {
    assert [r][1..] == [];
  }

  ghost predicate SortedByAddress(s: seq<Region>) {
    forall p, q :: 0 <= p < q < |s| ==> s[p].address <= s[q].address
  }

  lemma SwapStaysDisjoint(s: seq<Region>, j: nat)
    requires j + 1 < |s| && Disjoint(s)
    ensures Disjoint(s[j := s[j + 1]][j + 1 := s[j]])
  {
    var t := s[j := s[j + 1]][j + 1 := s[j]];
    forall p, q | 0 <= p < q < |t| && t[p].Usable() && t[q].Usable() ensures Apart(t[p], t[q]) {
      var p' := if p == j then j + 1 else if p == j + 1 then j else p;
      var q' := if q == j then j + 1 else if q == j + 1 then j else q;
      assert t[p] == s[p'] && t[q] == s[q'];
      if p' < q' {
        assert Apart(s[p'], s[q']);
      } else {
        assert Apart(s[q'], s[p']);
      }
    }
  }

  lemma PermutationKeepsBytes(s: seq<Region>, t: seq<Region>)
    requires multiset(s) == multiset(t)
    ensures Bytes(s) == Bytes(t)
  {
    assert forall r :: r in s <==> r in multiset(s);
    assert forall r :: r in t <==> r in multiset(t);
    forall x ensures Covers(s, x) <==> Covers(t, x) {
      CoversMember(s, x);
      CoversMember(t, x);
    }
  }

  ghost predicate Rearranged(s: seq<Region>, t: seq<Region>) {
    && multiset(s) == multiset(t)
    && (Disjoint(s) ==> Disjoint(t))
  }

  method SwapNeighbours(a: array<Region>, j: nat, count: nat)
    requires j + 1 < count <= a.Length
    modifies a
    ensures a[..count] == old(a[..count])[j := old(a[j + 1])][j + 1 := old(a[j])]
    ensures Rearranged(old(a[..count]), a[..count])
    ensures old(a[j].address != a[j + 1].address) ==> SameOrder(old(a[..count]), a[..count])
  {
    hide SameOrder;
    ghost var before := a[..count];
    if before[j].address != before[j + 1].address {
      SwapKeepsOrder(before, j);
    }
    if Disjoint(before) {
      SwapStaysDisjoint(before, j);
    }
    var tmp := a[j];
    a[j] := a[j + 1];
    a[j + 1] := tmp;
    assert a[..count] == before[j := before[j + 1]][j + 1 := before[j]];
  }

  // Everything from `from` on is sorted and no smaller than what comes before it.
  ghost predicate SortedFrom(s: seq<Region>, from: int) {
    forall p, q :: 0 <= p < q < |s| && from <= q ==> s[p].address <= s[q].address
  }

  ghost predicate LargestAt(s: seq<Region>, j: nat) {
    j < |s| && forall p :: 0 <= p < j ==> s[p].address <= s[j].address
  }

  method SortRegionDescriptors(a: array<Region>, count: nat)
    requires count <= a.Length
    modifies a
    ensures SortedByAddress(a[..count])
    ensures Rearranged(old(a[..count]), a[..count])
    ensures SameOrder(old(a[..count]), a[..count])
    ensures Bytes(a[..count]) == Bytes(old(a[..count]))
  {
    ghost var initial := a[..count];
    if count == 0 {
      return;
    }
    for i := 0 to count - 1
      invariant Rearranged(initial, a[..count])
      invariant SameOrder(initial, a[..count])
      invariant SortedFrom(a[..count], count - i)
    {
      BubbleUp(a, count, count - i - 1);
    }
    PermutationKeepsBytes(a[..count], initial);
  }

  // The inner loop carries the largest of the first `last` + 1 descriptors to position `last`.
  method BubbleUp(a: array<Region>, count: nat, last: nat)
    requires last < count <= a.Length
    requires SortedFrom(a[..count], last + 1)
    modifies a
    ensures Rearranged(old(a[..count]), a[..count]) && SameOrder(old(a[..count]), a[..count])
    ensures SortedFrom(a[..count], last)
  {
    hide Rearranged, SameOrder, SortedFrom, LargestAt;
    ghost var table := a[..count];
    LargestStart(table);
    for j := 0 to last
      invariant table == a[..count]
      invariant Rearranged(old(a[..count]), table) && SameOrder(old(a[..count]), table)
      invariant SortedFrom(table, last + 1)
      invariant LargestAt(table, j)
    {
      LargestStep(table, j, last);
      if a[j].address > a[j + 1].address {
        SwapNeighbours(a, j, count);
        RearrangedAgain(old(a[..count]), table, a[..count]);
      }
      table := a[..count];
    }
    LargestEnd(table, last);
  }

  lemma LargestStart(s: seq<Region>)
    requires s != []
    ensures LargestAt(s, 0) && Rearranged(s, s) && SameOrder(s, s)
  {
  }

  lemma RearrangedAgain(s: seq<Region>, t: seq<Region>, u: seq<Region>)
    requires Rearranged(s, t) && Rearranged(t, u) && SameOrder(s, t) && SameOrder(t, u)
    ensures Rearranged(s, u) && SameOrder(s, u)
  {
  }

  lemma LargestStep(s: seq<Region>, j: nat, last: nat)
    requires j < last < |s| && SortedFrom(s, last + 1) && LargestAt(s, j)
    ensures s[j].address <= s[j + 1].address ==> LargestAt(s, j + 1)
    ensures
      var t := s[j := s[j + 1]][j + 1 := s[j]];
      s[j].address > s[j + 1].address ==> SortedFrom(t, last + 1) && LargestAt(t, j + 1)
  {
  }

  lemma LargestEnd(s: seq<Region>, last: nat)
    requires last < |s| && SortedFrom(s, last + 1) && LargestAt(s, last)
    ensures SortedFrom(s, last)
  {
  }

  // ---- descriptors with the same address ----

  // Takes out descriptor `i`, as the code's forward copy over itself does.
  method CloseSlot(a: array<Region>, i: nat, count: nat)
    requires i < count <= a.Length
    modifies a
    ensures a[..count - 1] == old(a[..i]) + old(a[i + 1..count])
  {
    for k := i to count - 1
      invariant forall m :: 0 <= m < i ==> a[m] == old(a[m])
      invariant forall m :: i <= m < k ==> a[m] == old(a[m + 1])
      invariant forall m :: k <= m < count ==> a[m] == old(a[m])
    {
      a[k] := a[k + 1];
    }
    ghost var left, right := old(a[..i]), old(a[i + 1..count]);
    forall m | 0 <= m < count - 1 ensures a[m] == (left + right)[m] {
      assert m >= i ==> (left + right)[m] == right[m - i];
    }
  }

  function Merge(x: Region, y: Region): Region {
    if x.kind == y.kind && x.length < y.length then x.(length := y.length)
    else if x.Usable() then y else x
  }

  // After a merge the walk steps past the merged descriptor.
  function MergeSimilar(s: seq<Region>): seq<Region> {
    if |s| < 2 then s
    else if s[0].address == s[1].address then [Merge(s[0], s[1])] + MergeSimilar(s[2..])
    else [s[0]] + MergeSimilar(s[1..])
  }

  function MergeStep(s: seq<Region>): nat
    requires |s| >= 2
  {
    if s[0].address == s[1].address then 2 else 1
  }

  // Each result is one of the table's own descriptors, so no byte becomes usable by merging.
  lemma {:induction false} MergeSelects(s: seq<Region>)
    ensures |MergeSimilar(s)| <= |s|
    ensures forall r :: r in MergeSimilar(s) ==> r in s
    ensures Bytes(MergeSimilar(s)) <= Bytes(s)
  {
    if |s| >= 2 {
      var rest := s[MergeStep(s)..];
      MergeSelects(rest);
      assert forall r :: r in rest ==> r in s;
    }
    forall x | Covers(MergeSimilar(s), x) ensures Covers(s, x) {
      CoversMember(MergeSimilar(s), x);
      CoversMember(s, x);
    }
  }

  ghost predicate ApartFromAll(r: Region, s: seq<Region>) {
    forall q :: q in s && r.Usable() && q.Usable() ==> Apart(r, q)
  }

  lemma DisjointSplit(first: Region, rest: seq<Region>)
    ensures Disjoint([first] + rest) <==> Disjoint(rest) && ApartFromAll(first, rest)
  {
    var s := [first] + rest;
    assert s[0] == first && forall k :: 0 <= k < |rest| ==> s[k + 1] == rest[k];
    if Disjoint(s) {
      forall i, j | 0 <= i < j < |rest| && rest[i].Usable() && rest[j].Usable() ensures Apart(rest[i], rest[j]) {
        assert Apart(s[i + 1], s[j + 1]);
      }
      forall q | q in rest && first.Usable() && q.Usable() ensures Apart(first, q) {
        var k :| 0 <= k < |rest| && rest[k] == q;
        assert Apart(s[0], s[k + 1]);
      }
    }
    if Disjoint(rest) && ApartFromAll(first, rest) {
      forall i, j | 0 <= i < j < |s| && s[i].Usable() && s[j].Usable() ensures Apart(s[i], s[j]) {
        assert s[j] == rest[j - 1];
        if i > 0 {
          assert s[i] == rest[i - 1];
        } else {
          assert rest[j - 1] in rest;
        }
      }
    }
  }

  // The descriptor that a step of the walk leaves behind.
  function MergeHead(s: seq<Region>): Region
    requires |s| >= 2
  {
    if s[0].address == s[1].address then Merge(s[0], s[1]) else s[0]
  }

  lemma MergeUnfold(s: seq<Region>)
    requires |s| >= 2
    ensures MergeSimilar(s) == [MergeHead(s)] + MergeSimilar(s[MergeStep(s)..])
  {
  }

  lemma HeadApart(s: seq<Region>)
    requires |s| >= 2 && Disjoint(s)
    ensures Disjoint(s[MergeStep(s)..]) && ApartFromAll(MergeHead(s), s[MergeStep(s)..])
  {
    hide Disjoint, Apart;
    var rest := s[1..];
    assert s == [s[0]] + rest;
    assert rest[0] == s[1] && rest[1..] == s[2..];
    assert rest == [rest[0]] + rest[1..];
    DisjointSplit(s[0], rest);
    DisjointSplit(rest[0], rest[1..]);
  }

  lemma {:induction false} MergeStaysDisjoint(s: seq<Region>)
    requires Disjoint(s)
    ensures Disjoint(MergeSimilar(s))
  {
    hide Disjoint, Apart, Bytes, MergeHead;
    if |s| >= 2 {
      var rest := s[MergeStep(s)..];
      MergeUnfold(s);
      HeadApart(s);
      MergeStaysDisjoint(rest);
      MergeSelects(rest);
      DisjointSplit(MergeHead(s), MergeSimilar(rest));
    }
  }

  // Neighbours differ in address; so do descriptors two apart.
  predicate NoSimilar(s: seq<Region>) {
    |s| < 2 || (s[0].address != s[1].address && NoSimilar(s[1..]))
  }

  predicate NoTriple(s: seq<Region>) {
    |s| < 3 || (s[0].address != s[2].address && NoTriple(s[1..]))
  }

  // In a sorted table every duplicate goes, unless some address occurs three times.
  lemma {:induction false} MergeLeavesNoSimilarIff(s: seq<Region>)
    requires SortedByAddress(s)
    ensures NoSimilar(MergeSimilar(s)) <==> NoTriple(s)
    ensures s != [] ==> MergeSimilar(s) != [] && MergeSimilar(s)[0].address == s[0].address
  {
    if |s| >= 2 {
      var rest := s[MergeStep(s)..];
      MergeLeavesNoSimilarIff(rest);
      assert MergeSimilar(s)[1..] == MergeSimilar(rest);
      assert rest != [] ==> rest[0] == s[MergeStep(s)];
      assert s[1..][1..] == s[2..];
      if |s| >= 4 {
        assert s[1..][2] == s[3];
      }
    }
  }

  lemma {:induction false} NoneAtSmaller(s: seq<Region>, address: nat)
    requires SortedByAddress(s) && (s != [] ==> address < s[0].address)
    ensures At(s, address) == []
  {
    if s != [] {
      NoneAtSmaller(s[1..], address);
    }
  }

  // Of two descriptors with the same address the second one survives if the first is usable, and
  // otherwise the first one, with the larger length if their kinds agree.
  predicate Survivor(x: Region, y: Region, m: Region) {
    if x.Usable() then m == y
    else if x.kind != y.kind then m == x
    else m == x.(length := if x.length < y.length then y.length else x.length)
  }

  // What is left at an address that at most two descriptors have.
  ghost predicate SurvivesOf(here: seq<Region>, left: seq<Region>) {
    if |here| == 2 then |left| == 1 && Survivor(here[0], here[1], left[0]) else left == here
  }

  lemma {:induction false} SurvivorAt(s: seq<Region>, address: nat)
    requires SortedByAddress(s) && |At(s, address)| <= 2
    ensures SurvivesOf(At(s, address), At(MergeSimilar(s), address))
  {
    hide At, MergeSimilar, Merge, SortedByAddress;
    if |s| >= 2 {
      var head, rest := s[..MergeStep(s)], s[MergeStep(s)..];
      MergeUnfold(s);
      AtConcat([MergeHead(s)], MergeSimilar(rest), address);
      AtSingle(MergeHead(s), address);
      HeadAt(s, address);
      SurvivorAt(rest, address);
      if s[0].address == address {
        RestAt(s, address);
        assert At(s, address) == head;
        HeadSurvives(s);
      }
    } else {
      ShortMerge(s);
    }
  }

  lemma ShortMerge(s: seq<Region>)
    requires |s| < 2
    ensures MergeSimilar(s) == s
    ensures forall address: nat :: |At(s, address)| < 2
  {
    forall address: nat ensures |At(s, address)| < 2 {
      if s != [] {
        AtSingle(s[0], address);
        assert s == [s[0]];
      }
    }
  }

  lemma HeadSurvives(s: seq<Region>)
    requires |s| >= 2
    ensures SurvivesOf(s[..MergeStep(s)], [MergeHead(s)])
    ensures MergeHead(s).address == s[0].address
  {
  }

  // The first part of the table that a step looks at has all of its own address.
  lemma RestAt(s: seq<Region>, address: nat)
    requires |s| >= 2 && SortedByAddress(s) && s[0].address == address && |At(s, address)| <= 2
    ensures At(s[MergeStep(s)..], address) == []
  {
    HeadAt(s, address);
    if MergeStep(s) == 1 {
      NoneAtSmaller(s[1..], address);
    }
  }

  lemma HeadAt(s: seq<Region>, address: nat)
    requires |s| >= 2
    ensures At(s, address) == At(s[..MergeStep(s)], address) + At(s[MergeStep(s)..], address)
    ensures At(s[..MergeStep(s)], address) == if s[0].address == address then s[..MergeStep(s)] else []
    ensures SortedByAddress(s) ==> SortedByAddress(s[MergeStep(s)..])
    ensures MergeHead(s).address == s[0].address
  {
    var head := s[..MergeStep(s)];
    assert s == head + s[MergeStep(s)..];
    AtConcat(head, s[MergeStep(s)..], address);
    AtSingle(s[0], address);
    if MergeStep(s) == 2 {
      assert head == [s[0]] + [s[1]];
      AtConcat([s[0]], [s[1]], address);
      AtSingle(s[1], address);
    } else {
      assert head == [s[0]];
    }
  }

  // Where at most two descriptors have the same address, the one that is left is usable exactly if
  // all of them were, and it is the last of them if it is.
  lemma UsableAfterMergeIff(s: seq<Region>, m: Region)
    requires SortedByAddress(s) && |At(s, m.address)| <= 2 && m in MergeSimilar(s)
    ensures m.Usable() <==> forall r :: r in At(s, m.address) ==> r.Usable()
    ensures At(s, m.address) != []
    ensures m.Usable() ==> m == At(s, m.address)[|At(s, m.address)| - 1]
  {
    hide At, MergeSimilar;
    var here, left := At(s, m.address), At(MergeSimilar(s), m.address);
    SurvivorAt(s, m.address);
    AtMember(MergeSimilar(s), m.address, m);
    assert here != [] && m == left[0];
    assert forall r :: r in here ==> exists k :: 0 <= k < |here| && here[k] == r;
    assert here[0] in here && here[|here| - 1] in here;
  }

  // No address is lost.
  lemma {:induction false} EveryAddressStays(s: seq<Region>, address: nat)
    ensures At(MergeSimilar(s), address) == [] <==> At(s, address) == []
  {
    hide At, MergeSimilar, Merge;
    if |s| >= 2 {
      MergeUnfold(s);
      AtConcat([MergeHead(s)], MergeSimilar(s[MergeStep(s)..]), address);
      AtSingle(MergeHead(s), address);
      HeadAt(s, address);
      EveryAddressStays(s[MergeStep(s)..], address);
    } else {
      ShortMerge(s);
    }
  }

  // What the walk makes of the table once it has passed descriptor `i`.
  function Progress(s: seq<Region>, i: nat): seq<Region>
    requires i <= |s|
  {
    s[..i] + MergeSimilar(s[i..])
  }

  function MergedAt(s: seq<Region>, i: nat): (t: seq<Region>)
    requires i + 1 < |s|
    ensures |t| == |s| - 1
  {
    s[..i] + [Merge(s[i], s[i + 1])] + s[i + 2..]
  }

  lemma ProgressStart(s: seq<Region>)
    ensures Progress(s, 0) == MergeSimilar(s)
  {
    assert s[..0] == [] && s[0..] == s;
  }

  lemma ProgressEnd(s: seq<Region>, i: nat)
    requires i <= |s| <= i + 1
    ensures Progress(s, i) == s
  {
    assert |s[i..]| <= 1 && s == s[..i] + s[i..];
  }

  lemma ProgressMerge(s: seq<Region>, i: nat, t: seq<Region>)
    requires i + 1 < |s| && s[i].address == s[i + 1].address
    requires t == MergedAt(s, i)
    ensures Progress(t, i + 1) == Progress(s, i)
  {
    assert s[i..][2..] == s[i + 2..] && s[i..][0] == s[i] && s[i..][1] == s[i + 1];
    assert t[..i + 1] == s[..i] + [Merge(s[i], s[i + 1])];
    assert t[i + 1..] == s[i + 2..];
  }

  lemma ProgressSkip(s: seq<Region>, i: nat)
    requires i + 1 < |s| && s[i].address != s[i + 1].address
    ensures Progress(s, i + 1) == Progress(s, i)
  {
    var done, here, rest := s[..i], s[i..], MergeSimilar(s[i + 1..]);
    assert here[1..] == s[i + 1..] && here[0] == s[i] && here[1] == s[i + 1];
    assert MergeSimilar(here) == [s[i]] + rest;
    assert s[..i + 1] == done + [s[i]];
    assert (done + [s[i]]) + rest == done + ([s[i]] + rest);
  }

  method RemoveSimilarRegionDescriptors(a: array<Region>, count: nat) returns (newCount: nat)
    requires count <= a.Length
    modifies a
    ensures newCount <= count
    ensures a[..newCount] == MergeSimilar(old(a[..count]))
  {
    hide Progress, MergeSimilar, MergedAt;
    newCount := count;
    ghost var table := a[..count];
    ProgressStart(table);
    if count == 0 {
      ProgressEnd(table, 0);
      return;
    }
    var i: nat := 0;
    while i < newCount - 1
      invariant i <= newCount <= count && 0 < newCount
      invariant table == a[..newCount]
      invariant Progress(table, i) == MergeSimilar(old(a[..count]))
      decreases newCount - i
    {
      ghost var before := table;
      if a[i].address == a[i + 1].address {
        newCount := MergeAt(a, i, newCount);
        table := a[..newCount];
        ProgressMerge(before, i, table);
      } else {
        ProgressSkip(before, i);
      }
      i := i + 1;
    }
    ProgressEnd(table, i);
  }

  method MergeAt(a: array<Region>, i: nat, count: nat) returns (newCount: nat)
    requires i + 1 < count <= a.Length
    modifies a
    ensures newCount == count - 1
    ensures a[..newCount] == MergedAt(old(a[..count]), i)
  {
    ghost var left, right := a[..i], a[i + 2..count];
    assert a[..count][..i] == left && a[..count][i + 2..] == right;
    if a[i].kind == a[i + 1].kind && a[i].length < a[i + 1].length {
      a[i] := a[i].(length := a[i + 1].length);
    } else if a[i].Usable() {
      a[i] := a[i + 1];
    }
    assert a[..i + 1] == left + [a[i]] && a[i + 2..count] == right;
    CloseSlot(a, i + 1, count);
    newCount := count - 1;
  }
}
