/** The search for a free run of virtual pages (library/vmm/vmm.cxx:211-253). */
module PageSearch {
  import opened Align
  import opened Paging
  import opened Blocks

  const WRONG_INDEX: nat := 0xFFFF_FFFF

  // No entry [j, upTo) of table `t` is Busy.
  predicate EntriesFree(m: Memory, d: nat, t: nat, j: nat, upTo: nat)
    requires IsMemory(m) && d < 0x10_0000 && t < 0x400 && upTo <= 0x400
  {
    forall v :: t * 0x400 + j <= v < t * 0x400 + upTo ==> !Flat(m, d, v).Busy()
  }

  // What the two inner loops accept: in every table with entries they look from `j` on, and a
  // missing table counts for 0x400 pages wherever the run enters it.
  predicate Probe(m: Memory, d: nat, t: nat, j: nat, left: nat)
    requires IsMemory(m) && d < 0x10_0000 && j < 0x400
    decreases 0x400 - t
  {
    if left == 0 then true
    else if t >= 0x400 then false
    else if m[d][t].Allocated() then
      if j + left <= 0x400 then EntriesFree(m, d, t, j, j + left)
      else EntriesFree(m, d, t, j, 0x400) && Probe(m, d, t + 1, j, left - (0x400 - j))
    else if left > 0x400 then Probe(m, d, t + 1, j, left - 0x400)
    else true
  }

  method FindFreePagesBlockPageIndex(m: Memory, d: nat, pagesCount: nat) returns (index: nat)
    requires IsMemory(m) && d < 0x10_0000
    // The first position that the probe accepts, or none.
    ensures index == WRONG_INDEX ==> forall q :: 0 <= q < 0x10_0000 ==> !Probe(m, d, q / 0x400, q % 0x400, pagesCount)
    ensures index != WRONG_INDEX ==>
      && index < 0x10_0000 && Probe(m, d, index / 0x400, index % 0x400, pagesCount)
      && forall q :: 0 <= q < index ==> !Probe(m, d, q / 0x400, q % 0x400, pagesCount)
  {
    if pagesCount > 0x100_0000 {
      forall q | 0 <= q < 0x10_0000 ensures !Probe(m, d, q / 0x400, q % 0x400, pagesCount) {
        if Probe(m, d, q / 0x400, q % 0x400, pagesCount) {
          ProbeNeedsRoom(m, d, q / 0x400, q % 0x400, pagesCount);
        }
      }
      return WRONG_INDEX;
    }
    for i := 0 to 0x400
      invariant forall q :: 0 <= q < i * 0x400 ==> !Probe(m, d, q / 0x400, q % 0x400, pagesCount)
    {
      for j := 0 to 0x400
        invariant forall q :: 0 <= q < i * 0x400 + j ==> !Probe(m, d, q / 0x400, q % 0x400, pagesCount)
      {
        var found := ProbeFrom(m, d, i, j, pagesCount);
        assert (i * 0x400 + j) / 0x400 == i && (i * 0x400 + j) % 0x400 == j;
        if found {
          return i * 0x400 + j;
        }
      }
    }
    index := WRONG_INDEX;
  }

  // The two inner loops.
  method ProbeFrom(m: Memory, d: nat, i: nat, j: nat, pagesCount: nat) returns (found: bool)
    requires IsMemory(m) && d < 0x10_0000 && i < 0x400 && j < 0x400
    ensures found <==> Probe(m, d, i, j, pagesCount)
  {
    var freePages: bool, tmpPagesCount: nat, tableIndex := true, pagesCount, i;
    while tableIndex < 0x400 && tmpPagesCount > 0
      invariant i <= tableIndex <= 0x400
      invariant freePages && (Probe(m, d, i, j, pagesCount) <==> Probe(m, d, tableIndex, j, tmpPagesCount))
      decreases 0x400 - tableIndex
    {
      ghost var before := tmpPagesCount;
      if m[d][tableIndex].Allocated() {
        freePages, tmpPagesCount := ScanTable(m, d, tableIndex, j, tmpPagesCount);
      } else if tmpPagesCount > 0x400 {
        tmpPagesCount := tmpPagesCount - 0x400;
      } else {
        tmpPagesCount := 0;
      }
      assert freePages ==> (Probe(m, d, tableIndex, j, before)
                            <==> tmpPagesCount == 0 || Probe(m, d, tableIndex + 1, j, tmpPagesCount));
      if !freePages || tmpPagesCount == 0 {
        break;
      }
      tableIndex := tableIndex + 1;
    }
    found := freePages && tmpPagesCount == 0;
  }

  method ScanTable(m: Memory, d: nat, t: nat, j: nat, pagesCount: nat) returns (freePages: bool, left: nat)
    requires IsMemory(m) && d < 0x10_0000 && t < 0x400 && j < 0x400 && pagesCount > 0 && m[d][t].Allocated()
    ensures freePages <==> EntriesFree(m, d, t, j, if j + pagesCount <= 0x400 then j + pagesCount else 0x400)
    ensures freePages ==> left == if j + pagesCount <= 0x400 then 0 else pagesCount - (0x400 - j)
  {
    var entries := m[d][t].page;
    left := pagesCount;
    var pageIndex := j;
    while pageIndex < 0x400 && left > 0
      invariant j <= pageIndex <= 0x400 && left + (pageIndex - j) == pagesCount
      invariant forall v :: t * 0x400 + j <= v < t * 0x400 + pageIndex ==> !Flat(m, d, v).Busy()
    {
      var v := t * 0x400 + pageIndex;
      assert v / 0x400 == t && v % 0x400 == pageIndex;
      assert IsPage(m[d]) && Flat(m, d, v) == m[entries][pageIndex];
      if m[entries][pageIndex].Busy() {
        return false, left;
      }
      pageIndex, left := pageIndex + 1, left - 1;
    }
    freePages := true;
  }

  // ---- what the answer is worth ----

  lemma {:induction false} ProbeNeedsRoom(m: Memory, d: nat, t: nat, j: nat, left: nat)
    requires IsMemory(m) && d < 0x10_0000 && j < 0x400 && t <= 0x400 && Probe(m, d, t, j, left)
    ensures left <= (0x400 - t) * 0x400
    decreases 0x400 - t
  {
    if left > 0 && t < 0x400 {
      if m[d][t].Allocated() {
        if j + left > 0x400 {
          ProbeNeedsRoom(m, d, t + 1, j, left - (0x400 - j));
        }
      } else if left > 0x400 {
        ProbeNeedsRoom(m, d, t + 1, j, left - 0x400);
      }
    }
  }

  // Where the two inner loops look for page `x` of a run that starts at entry `j` of table `t`: every
  // table is entered at `j` again.
  predicate LooksFree(m: Memory, d: nat, t: nat, j: nat, x: nat)
    requires IsMemory(m) && d < 0x10_0000 && j < 0x400
  {
    var table, entry := t + x / (0x400 - j), j + x % (0x400 - j);
    table < 0x400 && !Flat(m, d, table * 0x400 + entry).Busy()
  }

  // With all tables there, a position is accepted exactly if those pages are free.
  lemma {:induction false} ProbeLooksAt(m: Memory, d: nat, t: nat, j: nat, left: nat)
    requires IsMemory(m) && d < 0x10_0000 && j < 0x400 && t <= 0x400
    requires forall u :: t <= u < 0x400 ==> m[d][u].Allocated()
    ensures Probe(m, d, t, j, left) <==> forall x: nat :: x < left ==> LooksFree(m, d, t, j, x)
    decreases 0x400 - t
  {
    hide Flat;
    var w := 0x400 - j;
    if left > 0 {
      if t == 0x400 {
        assert !LooksFree(m, d, t, j, 0);
      } else {
        var here := if left <= w then left else w;
        FirstTableLooks(m, d, t, j, here);
        if left > w {
          var next := t + 1;
          ProbeLooksAt(m, d, next, j, left - w);
          forall x: nat | w <= x < left ensures LooksFree(m, d, t, j, x) <==> LooksFree(m, d, next, j, x - w) {
            OneTableOn(x, w);
          }
          if forall x: nat :: x < left ==> LooksFree(m, d, t, j, x) {
            forall x: nat | x < left - w ensures LooksFree(m, d, next, j, x) {
              OneTableOn(x + w, w);
              assert LooksFree(m, d, t, j, x + w);
            }
          }
        }
      }
    }
  }

  lemma FirstTableLooks(m: Memory, d: nat, t: nat, j: nat, here: nat)
    requires IsMemory(m) && d < 0x10_0000 && j < 0x400 && t < 0x400 && here <= 0x400 - j
    ensures EntriesFree(m, d, t, j, j + here) <==> forall x: nat :: x < here ==> LooksFree(m, d, t, j, x)
  {
    hide Flat;
    forall x: nat | x < here ensures LooksFree(m, d, t, j, x) <==> !Flat(m, d, t * 0x400 + j + x).Busy() {
      WithinOne(x, 0x400 - j);
    }
    if forall x: nat :: x < here ==> LooksFree(m, d, t, j, x) {
      forall v | t * 0x400 + j <= v < t * 0x400 + (j + here) ensures !Flat(m, d, v).Busy() {
        assert LooksFree(m, d, t, j, v - (t * 0x400 + j));
      }
    }
  }

  lemma WithinOne(x: nat, w: nat)
    requires x < w
    ensures x / w == 0 && x % w == x
  {
  }

  lemma OneTableOn(x: nat, w: nat)
    requires 0 < w <= x
    ensures (x - w) / w == x / w - 1 && (x - w) % w == x % w
  {
    var q, r := (x - w) / w, (x - w) % w;
    assert x - w == q * w + r;
    assert (q + 1) * w == q * w + w;
    Remainder(q + 1, w, r);
  }

  // From a table's first entry the probe is exact, however many tables the run crosses.
  lemma {:induction false} ProbeFromTableStart(m: Memory, d: nat, t: nat, left: nat)
    requires IsMemory(m) && d < 0x10_0000 && t <= 0x400
    ensures Probe(m, d, t, 0, left) <==> left == 0 || RangeFree(m, d, t * 0x400, t * 0x400 + left)
    decreases 0x400 - t
  {
    if left > 0 && t < 0x400 {
      var lo := t * 0x400;
      if m[d][t].Allocated() {
        if left > 0x400 {
          ProbeFromTableStart(m, d, t + 1, left - 0x400);
          assert RangeFree(m, d, lo, lo + left) <==>
            EntriesFree(m, d, t, 0, 0x400) && RangeFree(m, d, lo + 0x400, lo + left);
        }
      } else {
        MissingTableFree(m, d, t);
        if left > 0x400 {
          ProbeFromTableStart(m, d, t + 1, left - 0x400);
          assert RangeFree(m, d, lo, lo + left) <==> RangeFree(m, d, lo + 0x400, lo + left);
        }
      }
    }
  }

  lemma MissingTableFree(m: Memory, d: nat, t: nat)
    requires IsMemory(m) && d < 0x10_0000 && t < 0x400 && !m[d][t].Allocated()
    ensures forall v :: t * 0x400 <= v < (t + 1) * 0x400 ==> !Flat(m, d, v).Busy()
  {
    forall v | t * 0x400 <= v < (t + 1) * 0x400 ensures !Flat(m, d, v).Busy() {
      assert v / 0x400 == t;
    }
  }

  // So the block is free when it starts a table or stays inside one.
  lemma ProbeIsSoundWithin(m: Memory, d: nat, index: nat, count: nat)
    requires IsMemory(m) && d < 0x10_0000 && index < 0x10_0000
    requires Probe(m, d, index / 0x400, index % 0x400, count)
    requires index % 0x400 == 0 || index % 0x400 + count <= 0x400
    ensures count == 0 || RangeFree(m, d, index, index + count)
  {
    var t := index / 0x400;
    if index % 0x400 == 0 {
      ProbeFromTableStart(m, d, t, count);
    } else if count > 0 && !m[d][t].Allocated() {
      MissingTableFree(m, d, t);
    }
  }

  // The search does not miss a free run inside one table, whoever else it finds first.
  lemma ProbeIsCompleteWithin(m: Memory, d: nat, index: nat, count: nat)
    requires IsMemory(m) && d < 0x10_0000 && index < 0x10_0000
    requires index % 0x400 + count <= 0x400 && RangeFree(m, d, index, index + count)
    ensures Probe(m, d, index / 0x400, index % 0x400, count)
  {
  }

  // ---- where it goes wrong ----

  ghost predicate IsFirst(m: Memory, d: int, index: int, count: nat) {
    && IsMemory(m) && 0 <= d < 0x10_0000 && 0 <= index < 0x10_0000
    && Probe(m, d, index / 0x400, index % 0x400, count)
    && forall q :: 0 <= q < index ==> !Probe(m, d, q / 0x400, q % 0x400, count)
  }

  // Whatever the search returns for `count` pages of this directory is free.
  ghost predicate SearchIsSound(m: Memory, d: nat, count: nat)
    requires IsMemory(m) && d < 0x10_0000
  {
    forall index :: IsFirst(m, d, index, count) ==> RangeFree(m, d, index, index + count)
  }

  // It is if the first match starts a table or stays within one.
  lemma SoundWithin(m: Memory, d: nat, count: nat)
    requires IsMemory(m) && d < 0x10_0000 && count > 0
    requires forall index :: IsFirst(m, d, index, count) ==> index % 0x400 == 0 || index % 0x400 + count <= 0x400
    ensures SearchIsSound(m, d, count)
  {
    forall index | IsFirst(m, d, index, count) ensures RangeFree(m, d, index, index + count) {
      ProbeIsSoundWithin(m, d, index, count);
    }
  }

  // A free run within one table is enough for the search to find something.
  lemma FreeRunIsFound(m: Memory, d: nat, index: nat, count: nat)
    requires IsMemory(m) && d < 0x10_0000 && index < 0x10_0000 && count > 0
    requires index % 0x400 + count <= 0x400 && RangeFree(m, d, index, index + count)
    ensures exists first :: first <= index && IsFirst(m, d, first, count)
  {
    ProbeIsCompleteWithin(m, d, index, count);
    FirstUpTo(m, d, index, count);
  }

  lemma {:induction false} FirstUpTo(m: Memory, d: nat, index: nat, count: nat)
    requires IsMemory(m) && d < 0x10_0000 && index < 0x10_0000
    requires Probe(m, d, index / 0x400, index % 0x400, count)
    ensures exists first :: first <= index && IsFirst(m, d, first, count)
  {
    if q :| 0 <= q < index && Probe(m, d, q / 0x400, q % 0x400, count) {
      FirstUpTo(m, d, q, count);
    } else {
      assert IsFirst(m, d, index, count);
    }
  }

  // For one page, and for a count that only an address space with at most one page in use can hold,
  // the search is sound; for the last count, the first table must be there.
  lemma FirstIsSound(m: Memory, d: nat, index: nat, count: nat)
    requires IsFirst(m, d, index, count)
    requires count < 2 || count >= 0x10_0000 || (count == 0xF_FFFF && m[d][0].Allocated())
    ensures RangeFree(m, d, index, index + count)
  {
    ProbeNeedsRoom(m, d, index / 0x400, index % 0x400, count);
    if index == 1 && count == 0xF_FFFF {
      AllButFirstProbe(m, d);
    } else {
      if count >= 0xF_FFFF {
        WholeSpaceStarts(m, d, index, count);
      }
      ProbeIsSoundWithin(m, d, index, count);
    }
  }

  lemma WholeSpaceStarts(m: Memory, d: nat, index: nat, count: nat)
    requires IsFirst(m, d, index, count) && count >= 0xF_FFFF && (index == 1 ==> count > 0xF_FFFF)
    requires count == 0xF_FFFF ==> m[d][0].Allocated()
    ensures index == 0
  {
    hide Probe;
    ProbeNeedsRoom(m, d, index / 0x400, index % 0x400, count);
    assert index / 0x400 == 0 && 0 / 0x400 == 0 && 0 % 0x400 == 0;
    if count >= 0x10_0000 {
      WholeSpaceProbe(m, d, 0, index, count);
    } else if index > 1 {
      RestNeedsRoom(m, d, index, count);
    }
  }

  lemma RestNeedsRoom(m: Memory, d: nat, j: nat, count: nat)
    requires IsMemory(m) && d < 0x10_0000 && m[d][0].Allocated() && j < 0x400 && count > 0x400
    requires Probe(m, d, 0, j, count)
    ensures count <= 0x10_0000 - j
  {
    ProbeNeedsRoom(m, d, 1, j, count - (0x400 - j));
  }

  lemma AllButFirstProbe(m: Memory, d: nat)
    requires IsMemory(m) && d < 0x10_0000 && m[d][0].Allocated() && Probe(m, d, 0, 1, 0xF_FFFF)
    ensures RangeFree(m, d, 1, 0x10_0000)
  {
    WholeSpaceProbe(m, d, 1, 1, 0xF_FC00);
    ProbeFromTableStart(m, d, 1, 0xF_FC00);
    assert EntriesFree(m, d, 0, 1, 0x400);
  }

  // A run that needs every page there is cannot lose any to a later start.
  lemma {:induction false} WholeSpaceProbe(m: Memory, d: nat, t: nat, j: nat, left: nat)
    requires IsMemory(m) && d < 0x10_0000 && j < 0x400 && t <= 0x400 && left == (0x400 - t) * 0x400
    requires Probe(m, d, t, j, left)
    ensures Probe(m, d, t, 0, left)
    decreases 0x400 - t
  {
    if t < 0x400 && j > 0 {
      if m[d][t].Allocated() {
        ProbeNeedsRoom(m, d, t + 1, j, left - (0x400 - j));
      } else if left > 0x400 {
        WholeSpaceProbe(m, d, t + 1, j, left - 0x400);
      }
    }
  }
}
