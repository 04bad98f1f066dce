/**
 Frame tables and what an allocation does to them (library/pmm/pmm.cxx:58-139).

 A region's frame table has one descriptor per frame.  An allocated block is a run of BUSY
 frames whose first descriptor, the head, holds the length of the run.
 */
module Frames {
  import opened Options

  datatype Frame = Frame(address: nat, busyCount: nat, busy: bool)

  type Table = seq<Frame>

  // Frame `k` lies in the run that starts at `j`.
  predicate RunHas(t: Table, j: nat, k: nat)
    requires j < |t|
  {
    j <= k < j + t[j].busyCount
  }

  // The allocator's invariant: runs end inside the table and do not overlap, only heads have
  // a count, and a frame is BUSY exactly when it lies in a run.
  ghost predicate Runs(t: Table) {
    && (forall j :: 0 <= j < |t| ==> j + t[j].busyCount <= |t|)
    && (forall j, k :: 0 <= j < k < |t| && RunHas(t, j, k) ==> t[k].busyCount == 0)
    && (forall k :: 0 <= k < |t| ==> (t[k].busy <==> exists j :: 0 <= j <= k && RunHas(t, j, k)))
  }

  predicate Fits(t: Table, j: nat, n: nat) {
    j < |t| && j + n <= |t| && forall k :: j <= k < j + n ==> !t[k].busy
  }

  function Occupy(t: Table, j: nat, n: nat): (r: Table)
    ensures |r| == |t|
  {
    seq(|t|, k requires 0 <= k < |t| =>
      Frame(t[k].address, if k == j then n else t[k].busyCount, t[k].busy || j <= k < j + n))
  }

  function Release(t: Table, j: nat): (r: Table)
    requires j < |t|
    ensures |r| == |t|
  {
    seq(|t|, k requires 0 <= k < |t| =>
      Frame(t[k].address, if k == j then 0 else t[k].busyCount, t[k].busy && !RunHas(t, j, k)))
  }

  lemma OccupyKeepsRuns(t: Table, j: nat, n: nat)
    requires Runs(t) && Fits(t, j, n) && n > 0
    ensures Runs(Occupy(t, j, n))
  {
    var r := Occupy(t, j, n);
    FreeFrameHasNoRun(t, j);
    forall i, k | 0 <= i < k < |r| && RunHas(r, i, k) ensures r[k].busyCount == 0 {
      if i == j {
        FreeFrameHasNoRun(t, k);
      } else {
        assert RunHas(t, i, k);
        assert t[k].busy;
      }
    }
    forall k | 0 <= k < |r| ensures r[k].busy <==> exists i :: 0 <= i <= k && RunHas(r, i, k) {
      if t[k].busy {
        var i :| 0 <= i <= k && RunHas(t, i, k);
        assert RunHas(r, i, k);
      } else if j <= k < j + n {
        assert RunHas(r, j, k);
      } else if i :| 0 <= i <= k && RunHas(r, i, k) {
        assert i != j && RunHas(t, i, k);
      }
    }
  }

  // No run starts at or passes over a free frame.
  lemma FreeFrameHasNoRun(t: Table, k: nat)
    requires Runs(t) && k < |t| && !t[k].busy
    ensures t[k].busyCount == 0
    ensures forall j :: 0 <= j <= k ==> !RunHas(t, j, k)
  {
    if t[k].busyCount > 0 {
      assert RunHas(t, k, k);
    }
  }

  // A request that wraps around to zero frames clears the count of the first frame it probes,
  // whatever that frame is; the table survives exactly when that frame heads no block.
  lemma EmptyRequestKeepsRunsIff(t: Table)
    requires Runs(t) && |t| > 0
    ensures Fits(t, 0, 0)
    ensures Runs(Occupy(t, 0, 0)) <==> t[0].busyCount == 0
  {
    var r := Occupy(t, 0, 0);
    if t[0].busyCount == 0 {
      assert r == t;
    } else {
      assert RunHas(t, 0, 0) && r[0].busy;
      assert forall j :: 0 <= j <= 0 ==> !RunHas(r, j, 0);
    }
  }

  // Freeing through any descriptor, head or not, keeps the invariant.
  lemma ReleaseKeepsRuns(t: Table, j: nat)
    requires Runs(t) && j < |t|
    ensures Runs(Release(t, j))
  {
    var r := Release(t, j);
    forall i, k | 0 <= i < k < |r| && RunHas(r, i, k) ensures r[k].busyCount == 0 {
      assert i != j && RunHas(t, i, k);
    }
    forall k | 0 <= k < |r| ensures r[k].busy <==> exists i :: 0 <= i <= k && RunHas(r, i, k) {
      if r[k].busy {
        var i :| 0 <= i <= k && RunHas(t, i, k);
        assert RunHas(r, i, k);
      }
      if i :| 0 <= i <= k && RunHas(r, i, k) {
        assert i != j && RunHas(t, i, k);
        if RunHas(t, j, k) {
          RunsAreDisjoint(t, i, j, k);
        }
      }
    }
  }

  lemma RunsAreDisjoint(t: Table, i: nat, j: nat, k: nat)
    requires Runs(t) && k < |t| && i <= k && j <= k
    requires RunHas(t, i, k) && RunHas(t, j, k)
    ensures i == j
  {
    if i < j {
      assert RunHas(t, i, j);
    } else if j < i {
      assert RunHas(t, j, i);
    }
  }

  // Freeing what was just allocated restores the table exactly.
  lemma ReleaseUndoesOccupy(t: Table, j: nat, n: nat)
    requires Runs(t) && Fits(t, j, n)
    requires n > 0
    ensures Release(Occupy(t, j, n), j) == t
  {
    FreeFrameHasNoRun(t, j);
    var r := Release(Occupy(t, j, n), j);
    forall k | 0 <= k < |t| ensures r[k] == t[k] {
    }
  }

  // ---- first fit ----

  function FindInTable(t: Table, j: nat, n: nat): (r: Option<nat>)
    ensures r.Some? ==> j <= r.value && Fits(t, r.value, n)
    ensures r.Some? ==> forall i :: j <= i < r.value ==> !Fits(t, i, n)
    ensures r.None? ==> forall i :: j <= i ==> !Fits(t, i, n)
    decreases |t| - j
  {
    if j >= |t| then None
    else if Fits(t, j, n) then Some(j)
    else FindInTable(t, j + 1, n)
  }

  // The earliest position in the earliest table, or none when no table has room.
  function FindFit(v: seq<Table>, i: nat, n: nat): (r: Option<(nat, nat)>)
    ensures r.Some? ==>
      var (m, j) := r.value;
      && i <= m < |v| && Fits(v[m], j, n)
      && (forall k :: 0 <= k < j ==> !Fits(v[m], k, n))
      && (forall q, k: nat :: i <= q < m ==> !Fits(v[q], k, n))
    ensures r.None? ==> forall q, k: nat :: i <= q < |v| ==> !Fits(v[q], k, n)
    decreases |v| - i
  {
    if i >= |v| then None
    else
      match FindInTable(v[i], 0, n)
      case Some(j) => Some((i, j))
      case None => FindFit(v, i + 1, n)
  }

  // ---- how many more requests of the same size can be served ----

  // Blocks of `n` frames cut greedily from the left, from frame `j` on.
  function Servable(t: Table, j: nat, n: nat): nat
    requires n > 0
    decreases |t| - j
  {
    if j + n > |t| then 0
    else if Fits(t, j, n) then 1 + Servable(t, j + n, n)
    else Servable(t, j + 1, n)
  }

  lemma {:induction false} ServableLooksAhead(t: Table, u: Table, j: nat, n: nat)
    requires n > 0 && |t| == |u| && forall k :: j <= k < |t| ==> t[k].busy == u[k].busy
    ensures Servable(t, j, n) == Servable(u, j, n)
    decreases |t| - j
  {
    if j + n <= |t| {
      assert Fits(t, j, n) <==> Fits(u, j, n);
      ServableLooksAhead(t, u, if Fits(t, j, n) then j + n else j + 1, n);
    }
  }

  lemma {:induction false} ServableSkipsBusy(t: Table, j: nat, upTo: nat, n: nat)
    requires n > 0 && j <= upTo <= |t| && forall k :: j <= k < upTo ==> t[k].busy
    ensures Servable(t, j, n) == Servable(t, upTo, n)
    decreases upTo - j
  {
    if j < upTo {
      assert !Fits(t, j, n) by {
        assert t[j].busy;
      }
      ServableSkipsBusy(t, j + 1, upTo, n);
      if j + n > |t| {
        assert upTo + n > |t|;
      }
    }
  }

  // First fit takes exactly one block from the greedy count, so a request fails only at zero.
  lemma {:induction false} FirstFitServes(t: Table, j: nat, n: nat)
    requires n > 0
    ensures FindInTable(t, j, n).None? <==> Servable(t, j, n) == 0
    ensures FindInTable(t, j, n).Some? ==>
      Servable(Occupy(t, FindInTable(t, j, n).value, n), j, n) == Servable(t, j, n) - 1
    decreases |t| - j
  {
    if j + n > |t| {
      assert forall i :: j <= i ==> !Fits(t, i, n);
    } else if Fits(t, j, n) {
      var u := Occupy(t, j, n);
      ServableSkipsBusy(u, j, j + n, n);
      ServableLooksAhead(t, u, j + n, n);
    } else {
      FirstFitServes(t, j + 1, n);
      if FindInTable(t, j, n).Some? {
        var u := Occupy(t, FindInTable(t, j, n).value, n);
        assert !Fits(u, j, n) by {
          var k :| j <= k < j + n && t[k].busy;
          assert u[k].busy;
        }
      }
    }
  }

  function ServableFrom(v: seq<Table>, i: nat, n: nat): nat
    requires n > 0
    decreases |v| - i
  {
    if i >= |v| then 0 else Servable(v[i], 0, n) + ServableFrom(v, i + 1, n)
  }

  lemma {:induction false} ServableFromSame(v: seq<Table>, w: seq<Table>, i: nat, n: nat)
    requires n > 0 && |v| == |w| && forall q :: i <= q < |v| ==> v[q] == w[q]
    ensures ServableFrom(v, i, n) == ServableFrom(w, i, n)
    decreases |v| - i
  {
    if i < |v| {
      ServableFromSame(v, w, i + 1, n);
    }
  }

  // A request of `n` frames is refused exactly when the count is zero, and uses up one otherwise.
  lemma {:induction false} RequestServed(v: seq<Table>, i: nat, n: nat)
    requires n > 0
    ensures FindFit(v, i, n).None? <==> ServableFrom(v, i, n) == 0
    ensures FindFit(v, i, n).Some? ==>
      var (m, j) := FindFit(v, i, n).value;
      ServableFrom(v[m := Occupy(v[m], j, n)], i, n) == ServableFrom(v, i, n) - 1
    decreases |v| - i
  {
    if i < |v| {
      FirstFitServes(v[i], 0, n);
      if FindInTable(v[i], 0, n).Some? {
        ServableFromSame(v, v[i := Occupy(v[i], FindInTable(v[i], 0, n).value, n)], i + 1, n);
      } else {
        RequestServed(v, i + 1, n);
      }
    }
  }

  // ---- live blocks ----

  predicate PageAligned(address: nat) {
    address % 0x1000 == 0 && 0 < address < 0x1_0000_0000
  }

  predicate InTables(v: seq<Table>, i: int, j: int) {
    0 <= i < |v| && 0 <= j < |v[i]|
  }

  predicate SamePage(v: seq<Table>, i: int, j: int, m: int, k: int)
    requires InTables(v, i, j) && InTables(v, m, k)
  {
    v[i][j].address == v[m][k].address
  }

  // Frames are whole pages above page zero, and no two descriptors stand for the same page.
  ghost predicate DistinctPages(v: seq<Table>) {
    && (forall i, j :: InTables(v, i, j) ==> PageAligned(v[i][j].address))
    && (forall i, j, m, k {:trigger SamePage(v, i, j, m, k)} ::
          (InTables(v, i, j) && InTables(v, m, k) && SamePage(v, i, j, m, k)) ==> i == m && j == k)
  }

  // The first page of every allocated block.
  ghost function Live(v: seq<Table>): set<nat> {
    set i, j | 0 <= i < |v| && 0 <= j < |v[i]| && v[i][j].busyCount > 0 :: v[i][j].address / 0x1000
  }

  ghost predicate SameAddresses(v: seq<Table>, w: seq<Table>) {
    |v| == |w| && forall i :: 0 <= i < |v| ==>
      |v[i]| == |w[i]| && forall j :: 0 <= j < |v[i]| ==> v[i][j].address == w[i][j].address
  }

  lemma DistinctPagesKept(v: seq<Table>, w: seq<Table>)
    requires DistinctPages(v) && SameAddresses(v, w)
    ensures DistinctPages(w)
  {
    forall i, j, m, k | InTables(w, i, j) && InTables(w, m, k) && SamePage(w, i, j, m, k) ensures i == m && j == k {
      assert InTables(v, i, j) && InTables(v, m, k) && SamePage(v, i, j, m, k);
    }
    forall i, j | InTables(w, i, j) ensures PageAligned(w[i][j].address) {
      assert InTables(v, i, j);
    }
  }

  // Addresses that round to the same page belong to the same descriptor.
  lemma SamePageSameDescriptor(v: seq<Table>, i: nat, j: nat, m: nat, k: nat)
    requires DistinctPages(v) && InTables(v, i, j) && InTables(v, m, k)
    requires v[i][j].address / 0x1000 == v[m][k].address / 0x1000
    ensures i == m && j == k
  {
    assert PageAligned(v[i][j].address) && PageAligned(v[m][k].address);
    assert SamePage(v, i, j, m, k);
  }

  lemma LiveIff(v: seq<Table>, i: nat, j: nat)
    requires DistinctPages(v) && i < |v| && j < |v[i]|
    ensures v[i][j].address / 0x1000 in Live(v) <==> v[i][j].busyCount > 0
  {
    if v[i][j].address / 0x1000 in Live(v) {
      var m, k :| 0 <= m < |v| && 0 <= k < |v[m]| && v[m][k].busyCount > 0
                  && v[m][k].address / 0x1000 == v[i][j].address / 0x1000;
      SamePageSameDescriptor(v, m, k, i, j);
    }
  }

  lemma LivePageAddress(v: seq<Table>, page: nat)
    requires DistinctPages(v) && page in Live(v)
    ensures PageAligned(page * 0x1000)
  {
    var m, k :| 0 <= m < |v| && 0 <= k < |v[m]| && v[m][k].busyCount > 0 && v[m][k].address / 0x1000 == page;
    assert InTables(v, m, k);
  }

  lemma LiveGrows(v: seq<Table>, i: nat, j: nat, n: nat)
    requires DistinctPages(v) && i < |v| && Runs(v[i]) && Fits(v[i], j, n) && n > 0
    ensures
      var w, page := v[i := Occupy(v[i], j, n)], v[i][j].address / 0x1000;
      DistinctPages(w) && page !in Live(v) && Live(w) == Live(v) + {page}
  {
    var w, page := v[i := Occupy(v[i], j, n)], v[i][j].address / 0x1000;
    DistinctPagesKept(v, w);
    FreeFrameHasNoRun(v[i], j);
    LiveIff(v, i, j);
    forall p ensures p in Live(w) <==> p in Live(v) || p == page {
      if p in Live(w) && p != page {
        var m, k :| 0 <= m < |w| && 0 <= k < |w[m]| && w[m][k].busyCount > 0 && w[m][k].address / 0x1000 == p;
        assert v[m][k].busyCount > 0 && v[m][k].address == w[m][k].address;
      }
      if p in Live(v) {
        var m, k :| 0 <= m < |v| && 0 <= k < |v[m]| && v[m][k].busyCount > 0 && v[m][k].address / 0x1000 == p;
        assert w[m][k].busyCount > 0 && v[m][k].address == w[m][k].address;
      }
      assert w[i][j].busyCount > 0;
    }
  }

  lemma LiveShrinks(v: seq<Table>, i: nat, j: nat)
    requires DistinctPages(v) && i < |v| && j < |v[i]|
    ensures
      var w, page := v[i := Release(v[i], j)], v[i][j].address / 0x1000;
      DistinctPages(w) && Live(w) == Live(v) - {page}
  {
    var w, page := v[i := Release(v[i], j)], v[i][j].address / 0x1000;
    DistinctPagesKept(v, w);
    LiveIff(w, i, j);
    forall p ensures p in Live(w) <==> p in Live(v) && p != page {
      if p in Live(w) {
        var m, k :| 0 <= m < |w| && 0 <= k < |w[m]| && w[m][k].busyCount > 0 && w[m][k].address / 0x1000 == p;
        assert v[m][k].busyCount > 0 && v[m][k].address == w[m][k].address;
      }
      if p in Live(v) && p != page {
        var m, k :| 0 <= m < |v| && 0 <= k < |v[m]| && v[m][k].busyCount > 0 && v[m][k].address / 0x1000 == p;
        assert w[m][k].busyCount > 0 && v[m][k].address == w[m][k].address;
      }
    }
  }

  // ---- the pages of a block ----

  // Frame `j` of table `i` heads the block that starts at page `q`, and the block has page `p`.
  predicate HeadedAt(v: seq<Table>, i: int, j: int, q: int, p: int) {
    InTables(v, i, j) && v[i][j].address == q * 0x1000 && q <= p < q + v[i][j].busyCount
  }

  // The block that starts at page `q` has page `p`.
  ghost predicate BlockHas(v: seq<Table>, q: int, p: int) {
    exists i, j :: HeadedAt(v, i, j, q, p)
  }

  // Frames `j` and `j + 1` of table `i` are the block at page `p`.
  predicate BlockAtFrame(v: seq<Table>, i: int, j: int, p: int) {
    && InTables(v, i, j) && InTables(v, i, j + 1) && v[i][j].busy && v[i][j + 1].busy
    && v[i][j].address == p * 0x1000 && v[i][j + 1].address == (p + 1) * 0x1000
    && v[i][j].busyCount == 2 && v[i][j + 1].busyCount == 0
  }

  // Pages `p` and `p + 1` are the frames of one block.
  ghost predicate IsFrameBlock(v: seq<Table>, p: int) {
    exists i, j :: BlockAtFrame(v, i, j, p)
  }

  // Page `p` is a frame that is handed out.
  ghost predicate IsBusyPage(v: seq<Table>, p: int) {
    exists i, j :: InTables(v, i, j) && v[i][j].busy && v[i][j].address / 0x1000 == p
  }
}
