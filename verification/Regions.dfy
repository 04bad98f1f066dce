/**
 Memory region descriptors and the bytes they cover (library/pmm/pmm.hxx).

 Descriptors hold 64-bit addresses and lengths.  The passes that cut, sort and merge them
 are in RegionPasses; this module has the types, the overlap classification and the meaning
 of a descriptor table as a set of bytes.
 */
module Regions {

  const REGION_USABLE: nat := 1
  const REGION_RESERVED: nat := 2
  const REGION_RECLAIMABLE: nat := 3

  datatype Region = Region(address: nat, length: nat, kind: nat) {
    predicate Usable() {
      kind == REGION_USABLE || kind == REGION_RECLAIMABLE
    }

    // The exact end; the code adds the two fields modulo 2^64.
    function End(): nat {
      address + length
    }

    predicate Representable() {
      End() < 0x1_0000_0000_0000_0000
    }

    predicate Has(x: int) {
      address <= x < End()
    }
  }

  datatype Overlap = NoOverlap | OverlapStart | OverlapEnd | OverlapInside | OverlapOutside

  function GetRegionOverlapType(region: Region, other: Region): Overlap
  {
    var overlapEnd := other.End() % 0x1_0000_0000_0000_0000;
    var regionEnd := region.End() % 0x1_0000_0000_0000_0000;
    if other.address <= region.address && overlapEnd > region.address && overlapEnd < regionEnd then OverlapStart
    else if other.address < regionEnd && other.address > region.address && overlapEnd >= regionEnd then OverlapEnd
    else if other.address >= region.address && overlapEnd <= regionEnd then OverlapInside
    else if other.address <= region.address && overlapEnd >= regionEnd then OverlapOutside
    else NoOverlap
  }

  // What one pass of the inner loop puts in place of `region` on account of `extra`.
  function Cut(region: Region, extra: Region): seq<Region>
    requires region.Representable() && extra.Representable()
  {
    if extra.length == 0 then [region] else
    match GetRegionOverlapType(region, extra)
    case OverlapStart => [Region(extra.End(), region.length - (extra.End() - region.address), region.kind)]
    case OverlapEnd => [Region(region.address, extra.address - region.address, region.kind)]
    case OverlapInside =>
      [Region(region.address, extra.address - region.address, region.kind),
       Region(extra.End(), region.End() - extra.End(), region.kind)]
    case OverlapOutside => [region.(kind := REGION_RESERVED)]
    case NoOverlap => [region]
  }

  ghost predicate AllRepresentable(s: seq<Region>) {
    forall k :: 0 <= k < |s| ==> s[k].Representable()
  }

  // Some usable or reclaimable descriptor of the table covers byte `x`.
  ghost predicate Covers(s: seq<Region>, x: int) {
    exists k :: 0 <= k < |s| && s[k].Usable() && s[k].Has(x)
  }

  ghost function Bytes(s: seq<Region>): iset<int> {
    iset x | Covers(s, x)
  }

  // The bytes of a table of extra regions, whatever their types.
  ghost predicate Taken(extra: seq<Region>, x: int) {
    exists k :: 0 <= k < |extra| && extra[k].Has(x)
  }

  ghost function TakenBytes(extra: seq<Region>): iset<int> {
    iset x | Taken(extra, x)
  }

  // No byte is covered by two usable descriptors.
  ghost predicate Disjoint(s: seq<Region>) {
    forall i, j :: 0 <= i < j < |s| && s[i].Usable() && s[j].Usable() ==> Apart(s[i], s[j])
  }

  predicate Apart(a: Region, b: Region) {
    a.length == 0 || b.length == 0 || a.End() <= b.address || b.End() <= a.address
  }

  lemma BytesConcat(a: seq<Region>, b: seq<Region>)
    ensures Bytes(a + b) == Bytes(a) + Bytes(b)
  {
    forall x ensures x in Bytes(a + b) <==> x in Bytes(a) || x in Bytes(b) {
      if k :| 0 <= k < |a| && a[k].Usable() && a[k].Has(x) {
        assert (a + b)[k] == a[k];
      }
      if k :| 0 <= k < |b| && b[k].Usable() && b[k].Has(x) {
        assert (a + b)[|a| + k] == b[k];
      }
    }
  }

  lemma BytesSplice(a: seq<Region>, m: seq<Region>, b: seq<Region>)
    ensures Bytes(a + m + b) == Bytes(a) + Bytes(m) + Bytes(b)
  {
    BytesConcat(a + m, b);
    BytesConcat(a, m);
  }

  // The pieces of a cut have exactly the region's bytes that the extra region does not have;
  // a region that the extra covers whole loses its usable type instead of its bytes.
  lemma CutPieces(region: Region, extra: Region, x: int)
    requires region.Representable() && extra.Representable()
    ensures AllRepresentable(Cut(region, extra))
    ensures forall piece :: piece in Cut(region, extra) ==> piece.Usable() ==> region.Usable()
    ensures region.Usable() ==>
      ((exists piece :: piece in Cut(region, extra) && piece.Usable() && piece.Has(x))
        <==> region.Has(x) && !extra.Has(x))
  {
    assert extra.End() % 0x1_0000_0000_0000_0000 == extra.End();
    assert region.End() % 0x1_0000_0000_0000_0000 == region.End();
    var cut := Cut(region, extra);
    if region.Usable() {
      assert cut[0] in cut && cut[|cut| - 1] in cut;
      assert cut[0].Usable() && (cut[0].Has(x) || cut[|cut| - 1].Has(x)) <==> region.Has(x) && !extra.Has(x);
    }
  }

  lemma CoversMember(s: seq<Region>, x: int)
    ensures Covers(s, x) <==> exists r :: r in s && r.Usable() && r.Has(x)
  {
    if r :| r in s && r.Usable() && r.Has(x) {
      var k :| 0 <= k < |s| && s[k] == r;
    }
  }

  // One cut removes exactly the bytes of the extra region and adds none.
  lemma CutIsSubtraction(region: Region, extra: Region)
    requires region.Representable() && extra.Representable()
    ensures AllRepresentable(Cut(region, extra))
    ensures Bytes(Cut(region, extra)) == Bytes([region]) - TakenBytes([extra])
  {
    CutPieces(region, extra, 0);
    var cut := Cut(region, extra);
    forall x ensures Covers(cut, x) <==> Covers([region], x) && !Taken([extra], x) {
      CutPieces(region, extra, x);
      CoversMember(cut, x);
      CoversMember([region], x);
      assert region in [region];
      assert Taken([extra], x) <==> extra.Has(x) by {
        assert [extra][0] == extra;
      }
    }
  }

  predicate Within(piece: Region, region: Region) {
    piece.length == 0 || (region.address <= piece.address && piece.End() <= region.End())
  }

  // One piece lies within the region, and two are what is left of it beside the hole.
  lemma CutShape(region: Region, extra: Region)
    requires region.Representable() && extra.Representable()
    ensures
      var cut := Cut(region, extra);
      && 1 <= |cut| <= 2 && (|cut| == 1 ==> Within(cut[0], region))
      && (|cut| == 2 ==>
            && cut[0].address == region.address && cut[0].End() == extra.address
            && Inside(extra, region) && cut[1].address == extra.End() && cut[1].End() == region.End())
  {
    assert extra.End() % 0x1_0000_0000_0000_0000 == extra.End();
    assert region.End() % 0x1_0000_0000_0000_0000 == region.End();
  }

  // The pieces of a cut stay apart from everything the region was apart from, and from each other.
  lemma CutStaysApart(region: Region, extra: Region, other: Region)
    requires region.Representable() && extra.Representable()
    requires Apart(region, other)
    ensures forall piece :: piece in Cut(region, extra) ==> Apart(piece, other) && Apart(other, piece)
    ensures |Cut(region, extra)| == 2 ==> Apart(Cut(region, extra)[0], Cut(region, extra)[1])
  {
    hide Cut;
    CutShape(region, extra);
    forall piece | piece in Cut(region, extra) ensures Apart(piece, other) && Apart(other, piece) {
      WithinApart(piece, region, other);
    }
  }

  lemma WithinApart(piece: Region, region: Region, other: Region)
    requires Within(piece, region) && Apart(region, other)
    ensures Apart(piece, other) && Apart(other, piece)
  {
  }

  lemma SpliceStaysDisjoint(a: seq<Region>, region: Region, b: seq<Region>, extra: Region)
    requires region.Representable() && extra.Representable()
    requires Disjoint(a + [region] + b)
    ensures Disjoint(a + Cut(region, extra) + b)
  {
    hide Cut, Apart;
    CutShape(region, extra);
    CutPieces(region, extra, 0);
    var before, after := a + [region] + b, a + Cut(region, extra) + b;
    var grow := |Cut(region, extra)| - 1;
    forall i, j | 0 <= i < j < |after| && after[i].Usable() && after[j].Usable()
      ensures Apart(after[i], after[j])
    {
      // `Origin` of an index of `after` is the index of `before` it came from.
      var i', j' := Origin(|a|, grow, i), Origin(|a|, grow, j);
      assert before[|a|] == region;
      assert i' != |a| ==> after[i] == before[i'];
      assert j' != |a| ==> after[j] == before[j'];
      if i' < j' {
        assert before[i'].Usable() && before[j'].Usable();
        assert Apart(before[i'], before[j']);
        if i' == |a| {
          CutStaysApart(region, extra, before[j']);
        } else if j' == |a| {
          ApartEither(before[i'], region);
          CutStaysApart(region, extra, before[i']);
        }
      } else {
        assert after[i] == Cut(region, extra)[0] && after[j] == Cut(region, extra)[1];
        EmptyIsApart(region);
        CutStaysApart(region, extra, Region(0, 0, 0));
      }
    }
  }

  lemma ApartEither(a: Region, b: Region)
    ensures Apart(a, b) <==> Apart(b, a)
  {
  }

  lemma EmptyIsApart(region: Region)
    ensures Apart(region, Region(0, 0, 0))
  {
  }

  function Origin(at: nat, grow: nat, i: nat): nat
    requires grow <= 1
  {
    if i <= at then i else i - grow
  }

  // ---- how many descriptors a table can grow to ----

  // The extra regions that are not empty and lie inside `region`.
  function Holes(region: Region, extra: seq<Region>): nat {
    if extra == [] then 0
    else (if Inside(extra[0], region) then 1 else 0) + Holes(region, extra[1..])
  }

  predicate Inside(extra: Region, region: Region) {
    0 < extra.length && region.address <= extra.address && extra.End() <= region.End()
  }

  // Every descriptor stands for itself and for the splits it can still undergo.
  function Potential(s: seq<Region>, extra: seq<Region>): nat {
    if s == [] then 0 else 1 + Holes(s[0], extra) + Potential(s[1..], extra)
  }

  lemma {:induction false} PotentialConcat(a: seq<Region>, b: seq<Region>, extra: seq<Region>)
    ensures Potential(a + b, extra) == Potential(a, extra) + Potential(b, extra)
  {
    if a == [] {
      assert a + b == b;
    } else {
      assert (a + b)[1..] == a[1..] + b;
      PotentialConcat(a[1..], b, extra);
    }
  }

  lemma {:induction false} PotentialBoundsLength(s: seq<Region>, extra: seq<Region>)
    ensures |s| <= Potential(s, extra)
  {
    if s != [] {
      PotentialBoundsLength(s[1..], extra);
    }
  }

  lemma {:induction false} HolesShrink(small: Region, region: Region, extra: seq<Region>)
    requires small.length == 0 || (region.address <= small.address && small.End() <= region.End())
    ensures Holes(small, extra) <= Holes(region, extra)
  {
    if extra != [] {
      HolesShrink(small, region, extra[1..]);
    }
  }

  // A hole of the region can lie in one of two separate pieces, and the hole between them in neither.
  lemma {:induction false} HolesOfPieces(left: Region, right: Region, region: Region, gap: Region, extra: seq<Region>)
    requires left.address == region.address && left.End() == gap.address
    requires Inside(gap, region)
    requires right.address == gap.End() && right.End() == region.End()
    ensures Holes(left, extra) + Holes(right, extra) + (if gap in extra then 1 else 0) <= Holes(region, extra)
  {
    if extra != [] {
      HolesOfPieces(left, right, region, gap, extra[1..]);
      assert gap in extra <==> gap == extra[0] || gap in extra[1..];
    }
  }

  // No cut raises the potential, although a split adds a descriptor.
  lemma CutKeepsPotential(region: Region, extra: seq<Region>, j: nat)
    requires j < |extra| && region.Representable() && extra[j].Representable()
    ensures Potential(Cut(region, extra[j]), extra) <= 1 + Holes(region, extra)
  {
    hide Cut, Holes;
    var e := extra[j];
    var cut := Cut(region, e);
    CutShape(region, e);
    if |cut| == 1 {
      assert Potential(cut, extra) == 1 + Holes(cut[0], extra) + Potential([], extra);
      HolesShrink(cut[0], region, extra);
    } else {
      assert cut[1..] == [cut[1]];
      assert Potential(cut[1..], extra) == 1 + Holes(cut[1], extra) + Potential([], extra);
      HolesOfPieces(cut[0], cut[1], region, e, extra);
    }
  }
}
