/** The loader of executable images (library/format/lef/lef.cxx:4-48). */
module Loader {
  import opened Align
  import opened FrameLayout
  import opened Options
  import opened PhysicalBytes
  import opened PhysicalMemory
  import opened Regions
  import opened Paging
  import opened Blocks
  import opened VirtualMemory
  import opened Translation
  import opened Threads

  // The header fields in use, at their byte offsets in the image.
  function StackSize(m: Memory, d: nat, data: nat): nat
    requires IsMemory(m) && d < 0x10_0000 && IsU32(data + 0x1f)
  {
    ReadWord(m, d, data + 4)
  }

  function BaseAddress(m: Memory, d: nat, data: nat): nat
    requires IsMemory(m) && d < 0x10_0000 && IsU32(data + 0x1f)
  {
    ReadWord(m, d, data + 8)
  }

  function FileSize(m: Memory, d: nat, data: nat): nat
    requires IsMemory(m) && d < 0x10_0000 && IsU32(data + 0x1f)
  {
    ReadWord(m, d, data + 12)
  }

  function EntryPointOffset(m: Memory, d: nat, data: nat): nat
    requires IsMemory(m) && d < 0x10_0000 && IsU32(data + 0x1f)
  {
    ReadWord(m, d, data + 16)
  }

  // The fields follow the four bytes of the signature, each of four bytes with the lowest one first.
  lemma HeaderFields(m: Memory, d: nat, data: nat)
    requires IsMemory(m) && d < 0x10_0000 && IsU32(data + 0x1f) && data % 4 == 0
    ensures StackSize(m, d, data) == LowestFirst(m, d, data + 4)
    ensures BaseAddress(m, d, data) == LowestFirst(m, d, data + 8)
    ensures FileSize(m, d, data) == LowestFirst(m, d, data + 12)
    ensures EntryPointOffset(m, d, data) == LowestFirst(m, d, data + 16)
  {
    hide ReadWord, ReadByte;
    WordBytes(m, d, data + 4);
    WordBytes(m, d, data + 8);
    WordBytes(m, d, data + 12);
    WordBytes(m, d, data + 16);
  }

  // Every second call for a page takes two pages, so an odd count leaves one more in use.
  function PagesTaken(pagesCount: nat): nat {
    pagesCount + pagesCount % 2
  }

  // Page `p` is not about to be handed out: it is a data page, or not a frame at all.
  ghost predicate Steady(o: Owners, regions: seq<Region>, p: int) {
    0 <= p < 0x10_0000 && if p in o then o[p].HoldsData() else !IsFramePage(regions, p)
  }

  // Pages [s, s + count) of directory `d` are mapped to such pages.
  ghost predicate IsSource(m: Memory, o: Owners, regions: seq<Region>, d: nat, s: nat, count: nat)
    requires IsMemory(m) && d < 0x10_0000
  {
    s + count <= 0x10_0000
    && forall v :: s <= v < s + count ==> Flat(m, d, v).Busy() && Steady(o, regions, Flat(m, d, v).page)
  }

  // The byte at `a` + `x` of directory `d` is the byte at `b` + `x` of directory `e` in another state.
  predicate SameByte(m: Memory, d: nat, a: nat, n: Memory, e: nat, b: nat, x: int)
    requires IsMemory(m) && IsMemory(n) && d < 0x10_0000 && e < 0x10_0000
  {
    0 <= x && IsU32(a + x) && IsU32(b + x) && ReadByte(m, d, a + x) == ReadByte(n, e, b + x)
  }

  ghost predicate UserPages(m: Memory, d: nat, lo: nat, hi: nat)
    requires IsMemory(m) && d < 0x10_0000
  {
    hi <= 0x10_0000 && forall v :: lo <= v < hi ==>
      Flat(m, d, v).Allocated() && Flat(m, d, v).Busy() && Flat(m, d, v).flags.attributes == 7
  }

  // ---- the state of the copying loop ----

  datatype Job = Job(m: Memory, o: Owners, regions: seq<Region>, source: nat, dir: nat, s: nat, b: nat, count: nat)

  // Pages [0, i) of the image are copied and pages [0, taken) have blocks; the rest of the target
  // is still free.  Source and all other pages of the new directory are as they were.
  ghost predicate Loading(j: Job, n: Memory, o': Owners, i: nat, taken: nat) {
    && IsMemory(j.m) && IsMemory(n) && IsDirectory(j.o, j.source) && IsDirectory(j.o, j.dir) && j.source != j.dir
    && Owned(j.m, j.o) && Owned(n, o') && Framed(j.regions, o')
    && IsSource(j.m, j.o, j.regions, j.source, j.s, j.count)
    && i <= taken <= PagesTaken(j.count) && j.b + PagesTaken(j.count) <= 0x10_0000
    && Extends(j.o, o') && SameDirectories(j.o, o')
    && (forall e, v :: IsDirectory(j.o, e) && e != j.dir && 0 <= v < 0x10_0000 ==> Flat(n, e, v) == Flat(j.m, e, v))
    && (forall q :: q in j.o && j.o[q].HoldsData() && 0 <= q < 0x10_0000 ==> n[q] == j.m[q])
    && (forall q :: 0 <= q < 0x10_0000 && q !in o' ==> n[q] == j.m[q])
    && (forall v :: j.b <= v < j.b + taken ==>
          && Flat(n, j.dir, v).Allocated() && Flat(n, j.dir, v).Busy() && Flat(n, j.dir, v).page !in j.o
          && Flat(n, j.dir, v).flags.attributes == USER_WRITABLE.attributes
          && 0 <= Flat(n, j.dir, v).page < 0x10_0000)
    && RangeFree(j.m, j.dir, j.b, j.b + PagesTaken(j.count))
    && (forall v :: 0 <= v < 0x10_0000 && !(j.b <= v < j.b + taken) ==> Flat(n, j.dir, v) == Flat(j.m, j.dir, v))
    && (forall u :: 0 <= u < i && u < j.count ==> PageCopied(j, n, u))
  }

  // Page `u` of the image reads as in the source.
  ghost predicate PageCopied(j: Job, n: Memory, u: int)
    requires IsMemory(j.m) && IsMemory(n) && j.source < 0x10_0000 && j.dir < 0x10_0000
    requires 0 <= u && j.s + u < 0x10_0000 && j.b + u < 0x10_0000
  {
    var from, to := Flat(j.m, j.source, j.s + u).page, Flat(n, j.dir, j.b + u).page;
    0 <= from < 0x10_0000 && 0 <= to < 0x10_0000 && n[to] == j.m[from]
  }

  lemma LoadingStart(j: Job)
    requires IsMemory(j.m) && IsDirectory(j.o, j.source) && IsDirectory(j.o, j.dir) && j.source != j.dir
    requires Owned(j.m, j.o) && Framed(j.regions, j.o) && IsSource(j.m, j.o, j.regions, j.source, j.s, j.count)
    requires RangeFree(j.m, j.dir, j.b, j.b + PagesTaken(j.count))
    ensures Loading(j, j.m, j.o, 0, 0)
  {
  }

  // A call on an even page succeeds, a call on an odd page is refused.
  lemma CallOutcome(j: Job, n: Memory, o': Owners, i: nat, taken: nat)
    requires Loading(j, n, o', i, taken) && i < j.count && taken == PagesTaken(i)
    ensures j.dir < 0x10_0000 && j.b + i < 0x10_0000
    ensures RangeFree(n, j.dir, j.b + i, j.b + i + 2) <==> i % 2 == 0
  {
    hide Flat, Owned, IsSource, Framed, Extends, SameDirectories, PageCopied;
    if i % 2 == 1 {
      assert Flat(n, j.dir, j.b + i).Busy();
    } else {
      forall v | j.b + i <= v < j.b + i + 2 ensures !Flat(n, j.dir, v).Busy() {
        assert Flat(n, j.dir, v) == Flat(j.m, j.dir, v);
      }
    }
  }

  lemma LoadingTakes(j: Job, n: Memory, o': Owners, k: Memory, o'': Owners, i: nat)
    requires Loading(j, n, o', i, i) && i < j.count && i % 2 == 0
    requires IsMemory(k) && Owned(k, o'') && Framed(j.regions, o'')
    requires BlockDone(n, o', k, o'', j.dir, j.b + i, j.b + i + 2, USER_WRITABLE)
    ensures Loading(j, k, o'', i, i + 2)
  {
    hide Owned, Steady, Framed, PageCopied, Flat, RangeFree;
    forall v | j.b <= v < j.b + i + 2
      ensures Flat(k, j.dir, v).Allocated() && Flat(k, j.dir, v).Busy() && Flat(k, j.dir, v).page !in j.o
      ensures Flat(k, j.dir, v).flags.attributes == USER_WRITABLE.attributes
      ensures 0 <= Flat(k, j.dir, v).page < 0x10_0000
    {
      PageTaken(j, n, o', k, o'', i, v);
    }
    forall v | 0 <= v < 0x10_0000 && !(j.b <= v < j.b + i + 2) ensures Flat(k, j.dir, v) == Flat(j.m, j.dir, v) {
      assert Flat(k, j.dir, v) == Flat(n, j.dir, v);
    }
    forall u | 0 <= u < i && u < j.count ensures PageCopied(j, k, u) {
      CopyKept(j, n, o', k, o'', i, i, u, j.b + i, j.b + i + 2);
    }
  }

  // A page of the target has got a block of its own.
  lemma PageTaken(j: Job, n: Memory, o': Owners, k: Memory, o'': Owners, i: nat, v: nat)
    requires Loading(j, n, o', i, i) && j.b <= v < j.b + i + 2 <= 0x10_0000
    requires IsMemory(k) && Owned(k, o'') && BlockDone(n, o', k, o'', j.dir, j.b + i, j.b + i + 2, USER_WRITABLE)
    ensures j.dir < 0x10_0000
    ensures Flat(k, j.dir, v).Allocated() && Flat(k, j.dir, v).Busy() && Flat(k, j.dir, v).page !in j.o
    ensures Flat(k, j.dir, v).flags.attributes == USER_WRITABLE.attributes
    ensures 0 <= Flat(k, j.dir, v).page < 0x10_0000
  {
    hide Steady, Framed, PageCopied, RangeFree, Uses;
    if v < j.b + i {
      assert Flat(k, j.dir, v) == Flat(n, j.dir, v);
    } else {
      assert Flat(k, j.dir, v).page in o'';
    }
  }

  lemma LoadingRefused(j: Job, n: Memory, o': Owners, k: Memory, o'': Owners, i: nat, taken: nat)
    requires Loading(j, n, o', i, taken)
    requires IsMemory(k) && Owned(k, o'') && Framed(j.regions, o'') && Grows(n, o', k, o'', j.dir, 0, 0)
    ensures Loading(j, k, o'', i, taken)
  {
    hide Owned, Framed, IsSource, RangeFree, Uses, Flat;
    LoadingFits(j, n, o', i, taken);
    forall v | 0 <= v < 0x10_0000 ensures Flat(k, j.dir, v) == Flat(n, j.dir, v) {
    }
    forall u | 0 <= u < i && u < j.count ensures PageCopied(j, k, u) {
      CopyKept(j, n, o', k, o'', i, taken, u, 0, 0);
    }
  }

  lemma CopyKept(j: Job, n: Memory, o': Owners, k: Memory, o'': Owners, i: nat, taken: nat, u: nat, lo: nat, hi: nat)
    requires Loading(j, n, o', i, taken) && u < i && u < j.count
    requires IsMemory(k) && Grows(n, o', k, o'', j.dir, lo, hi) && (j.b + u < lo || hi <= lo)
    ensures PageCopied(j, k, u)
  {
    var v := j.b + u;
    assert PageCopied(j, n, u);
    assert Flat(k, j.dir, v) == Flat(n, j.dir, v);
    assert o'[Flat(n, j.dir, v).page] == PageAt(j.dir, v);
  }

  // Where the next page is copied from and to.
  lemma CopyPlaces(j: Job, n: Memory, o': Owners, i: nat, taken: nat) returns (from: nat, to: nat)
    requires Loading(j, n, o', i, taken) && i < taken && i < j.count
    ensures j.s + i < 0x10_0000 && j.b + i < 0x10_0000 && j.source < 0x10_0000 && j.dir < 0x10_0000
    ensures from < 0x10_0000 && to < 0x10_0000 && from != to && to in o' && o'[to] == PageAt(j.dir, j.b + i)
    ensures to !in j.o && n[from] == j.m[from] && Owned(n, o') && IsPage(n[from])
    ensures Flat(n, j.source, j.s + i).Busy() && Flat(n, j.source, j.s + i).page == from
    ensures Flat(j.m, j.source, j.s + i).page == from
    ensures Flat(n, j.dir, j.b + i).Busy() && Flat(n, j.dir, j.b + i).page == to
  {
    to := Flat(n, j.dir, j.b + i).page;
    assert Flat(n, j.source, j.s + i) == Flat(j.m, j.source, j.s + i);
    from := Flat(n, j.source, j.s + i).page;
    assert Steady(j.o, j.regions, from);
    assert from in j.o || from !in o';
  }

  lemma LoadingCopies(j: Job, n: Memory, o': Owners, i: nat, taken: nat, from: nat, to: nat)
    requires Loading(j, n, o', i, taken) && i < taken && i < j.count && Tidy(n, o')
    requires from < 0x10_0000 && to < 0x10_0000 && from != to && to in o' && o'[to] == PageAt(j.dir, j.b + i)
    requires j.source < 0x10_0000 && j.dir < 0x10_0000 && to !in j.o && n[from] == j.m[from] && IsPage(n[from])
    requires Flat(j.m, j.source, j.s + i).page == from && Flat(n, j.dir, j.b + i).page == to
    ensures
      var k := SetPage(n, to, n[from]);
      && Owned(k, o') && Tidy(k, o') && Loading(j, k, o', i + 1, taken)
      && (TablesPresent(n, o') ==> TablesPresent(k, o'))
  {
    hide Loading, Owned, Tidy, Flat, TablesPresent;
    LoadingOwned(j, n, o', i, taken);
    DataStep(n, o', to, n[from]);
    SameTablesPresent(n, SetPage(n, to, n[from]), o');
    CopyLoading(j, n, o', SetPage(n, to, n[from]), i, taken, from, to);
  }

  lemma LoadingOwned(j: Job, n: Memory, o': Owners, i: nat, taken: nat)
    requires Loading(j, n, o', i, taken)
    ensures IsMemory(n) && Owned(n, o')
  {
  }

  lemma CopyLoading(j: Job, n: Memory, o': Owners, k: Memory, i: nat, taken: nat, from: nat, to: nat)
    requires Loading(j, n, o', i, taken) && i < taken && i < j.count
    requires from < 0x10_0000 && to < 0x10_0000 && from != to && to in o' && o'[to] == PageAt(j.dir, j.b + i)
    requires to !in j.o && n[from] == j.m[from] && IsPage(n[from]) && k == SetPage(n, to, n[from])
    requires j.source < 0x10_0000 && j.dir < 0x10_0000
    requires Flat(j.m, j.source, j.s + i).page == from && Flat(n, j.dir, j.b + i).page == to
    requires IsMemory(k) && Owned(k, o')
    requires forall e, v :: IsDirectory(o', e) && 0 <= v < 0x10_0000 ==> Flat(k, e, v) == Flat(n, e, v)
    ensures Loading(j, k, o', i + 1, taken)
  {
    hide Owned, Flat, Steady, Framed, RangeFree, PageCopied;
    assert IsDirectory(o', j.dir);
    forall u | 0 <= u < i + 1 && u < j.count ensures PageCopied(j, k, u) {
      if u < i {
        CopyElsewhere(j, n, o', k, i, taken, u, to);
      } else {
        CopyHere(j, n, k, i, from, to);
      }
    }
  }

  lemma CopyElsewhere(j: Job, n: Memory, o': Owners, k: Memory, i: nat, taken: nat, u: nat, to: nat)
    requires Loading(j, n, o', i, taken) && u < i && u < j.count && i < taken && i < j.count
    requires to in o' && o'[to] == PageAt(j.dir, j.b + i)
    requires IsMemory(k) && (forall p :: 0 <= p < 0x10_0000 && p != to ==> k[p] == n[p])
    requires Flat(k, j.dir, j.b + u) == Flat(n, j.dir, j.b + u)
    ensures PageCopied(j, k, u)
  {
    hide Steady, Framed, RangeFree, Uses;
    assert PageCopied(j, n, u);
    assert Flat(n, j.dir, j.b + u).Allocated();
    assert o'[Flat(n, j.dir, j.b + u).page] == PageAt(j.dir, j.b + u);
  }

  lemma CopyHere(j: Job, n: Memory, k: Memory, i: nat, from: nat, to: nat)
    requires IsMemory(j.m) && IsMemory(n) && IsMemory(k) && j.source < 0x10_0000 && j.dir < 0x10_0000
    requires j.s + i < 0x10_0000 && j.b + i < 0x10_0000 && from < 0x10_0000 && to < 0x10_0000
    requires Flat(j.m, j.source, j.s + i).page == from && Flat(k, j.dir, j.b + i).page == to && k[to] == j.m[from]
    ensures PageCopied(j, k, i)
  {
  }

  lemma LoadedPage(j: Job, n: Memory, o': Owners, taken: nat, u: nat)
    requires Loading(j, n, o', j.count, taken) && u < j.count
    ensures j.source < 0x10_0000 && j.dir < 0x10_0000 && j.s + u < 0x10_0000 && j.b + u < 0x10_0000 && IsMemory(n)
    ensures IsMemory(j.m)
    ensures Flat(j.m, j.source, j.s + u).Busy() && Flat(n, j.dir, j.b + u).Busy()
    ensures PageCopied(j, n, u)
  {
  }

  // In the end every byte of the image reads through the new directory as in the source.
  lemma LoadedBytes(j: Job, n: Memory, o': Owners, taken: nat, k: nat)
    requires Loading(j, n, o', j.count, taken) && k < j.count * 0x1000
    ensures IsMemory(n) && IsMemory(j.m) && j.source < 0x10_0000 && j.dir < 0x10_0000
    ensures IsU32(j.b * 0x1000 + k) && IsU32(j.s * 0x1000 + k)
    ensures ReadByte(n, j.dir, j.b * 0x1000 + k) == ReadByte(j.m, j.source, j.s * 0x1000 + k)
  {
    hide Loading, ReadByte, Flat;
    var u := k / 0x1000;
    LoadedPage(j, n, o', taken, u);
    SamePageSameBytes(n, j.dir, j.b + u, j.m, j.source, j.s + u, k % 0x1000);
    assert k == u * 0x1000 + k % 0x1000;
  }

  // ---- the methods ----

  // Copies one page, word by word (MemoryUtils::Copy).
  method CopyPage(v: Vmm, destPhysAddr: nat, sourcePhysAddr: nat)
    requires IsMemory(v.mem) && IsU32(destPhysAddr) && IsU32(sourcePhysAddr)
    requires destPhysAddr % 0x1000 == 0 && sourcePhysAddr % 0x1000 == 0 && destPhysAddr != sourcePhysAddr
    modifies v`mem
    ensures IsMemory(v.mem) && IsPage(old(v.mem)[sourcePhysAddr / 0x1000])
    ensures v.mem == SetPage(old(v.mem), destPhysAddr / 0x1000, old(v.mem)[sourcePhysAddr / 0x1000])
  {
    hide PartCopied, SetWord;
    var to, from := destPhysAddr / 0x1000, sourcePhysAddr / 0x1000;
    ghost var before := v.mem;
    var i := 0;
    CopyStart(before, to, from);
    while i < 0x400
      invariant i <= 0x400 && IsMemory(v.mem)
      invariant v.mem == before[to := PartCopied(before, to, from, i)]
    {
      CopyWord(before, to, from, i);
      v.mem := SetWord(v.mem, to, i, v.mem[from][i]);
      i := i + 1;
    }
    CopyEnd(before, to, from);
  }

  lemma CopyStart(m: Memory, to: nat, from: nat)
    requires IsMemory(m) && to < 0x10_0000 && from < 0x10_0000
    ensures m == m[to := PartCopied(m, to, from, 0)] && IsPage(m[from]) && IsPage(m[to])
  {
    assert PartCopied(m, to, from, 0) == m[to];
  }

  lemma CopyWord(m: Memory, to: nat, from: nat, i: nat)
    requires IsMemory(m) && to < 0x10_0000 && from < 0x10_0000 && to != from && i < 0x400
    ensures
      var n := m[to := PartCopied(m, to, from, i)];
      IsMemory(n) ==>
        && IsPage(n[from]) && |n[from]| == 0x400
        && SetWord(n, to, i, n[from][i]) == m[to := PartCopied(m, to, from, i + 1)]
  {
    var n := m[to := PartCopied(m, to, from, i)];
    assert PartCopied(m, to, from, i)[i := m[from][i]] == PartCopied(m, to, from, i + 1);
  }

  lemma CopyEnd(m: Memory, to: nat, from: nat)
    requires IsMemory(m) && to < 0x10_0000 && from < 0x10_0000
    ensures PartCopied(m, to, from, 0x400) == m[from]
  {
  }

  // The first `i` words have been copied.
  ghost function PartCopied(m: Memory, to: nat, from: nat, i: nat): seq<Word>
    requires IsMemory(m) && to < 0x10_0000 && from < 0x10_0000 && i <= 0x400
  {
    assert IsPage(m[to]) && IsPage(m[from]);
    m[from][..i] + m[to][i..]
  }

  // The block for a page; a page that has one already is refused, and keeps it.
  method TakePage(v: Vmm, dir: nat, destAddress: nat, ghost j: Job, ghost i: nat)
    requires v.Valid() && IsDirectory(v.owners, dir) && dir == j.dir && i < j.count
    requires Loading(j, v.mem, v.owners, i, PagesTaken(i)) && destAddress == (j.b + i) * 0x1000
    requires j.regions == v.pmm.regions
    requires Left(v.pmm.tables) >= 4
    modifies v`mem, v`owners, v.pmm`tables
    ensures v.Valid() && IsDirectory(v.owners, dir)
    ensures Loading(j, v.mem, v.owners, i, PagesTaken(i + 1))
    ensures Left(v.pmm.tables) + 4 >= old(Left(v.pmm.tables))
    ensures old(TablesPresent(v.mem, v.owners)) ==> TablesPresent(v.mem, v.owners)
  {
    hide Coherent, Loading, BlockDone, RangeFree, Grows, Left, CheckTables, Framed, TablesPresent, TablesBut;
    FramesForRequest(0x1000);
    CallOutcome(j, v.mem, v.owners, i, PagesTaken(i));
    CheckCreatesFew(v.mem, dir, (j.b + i) / 0x400, (j.b + i) % 0x400, 2);
    ghost var now, have := v.mem, v.owners;
    var taken := v.AllocateVirtualMemoryToPage(dir, destAddress / 0x1000, 0x1000, USER_WRITABLE);
    CoherentParts(v.mem, v.owners, v.pmm.regions, v.pmm.tables);
    CoherentFrames(v.mem, v.owners, v.pmm.regions, v.pmm.tables);
    if taken {
      LoadingTakes(j, now, have, v.mem, v.owners, i);
    } else {
      LoadingRefused(j, now, have, v.mem, v.owners, i, PagesTaken(i));
    }
  }

  // One page of the image.
  method LoadPage(v: Vmm, selected: nat, dir: nat, sourceAddress: nat, destAddress: nat, ghost j: Job, ghost i: nat)
    requires v.Valid() && IsDirectory(v.owners, dir) && dir == j.dir && selected == j.source && i < j.count
    requires Loading(j, v.mem, v.owners, i, PagesTaken(i))
    requires destAddress == (j.b + i) * 0x1000 && sourceAddress == (j.s + i) * 0x1000 && j.regions == v.pmm.regions
    requires Left(v.pmm.tables) >= 4
    modifies v`mem, v`owners, v.pmm`tables
    ensures v.Valid() && IsDirectory(v.owners, dir)
    ensures Loading(j, v.mem, v.owners, i + 1, PagesTaken(i + 1))
    ensures Left(v.pmm.tables) + 4 >= old(Left(v.pmm.tables))
    ensures old(TablesPresent(v.mem, v.owners)) ==> TablesPresent(v.mem, v.owners)
  {
    hide Coherent, Loading, Left, GetPhysicalAddress, SetPage, Owned, Tidy, Flat, IsMemory, TablesPresent;
    TakePage(v, dir, destAddress, j, i);
    ghost var now := v.mem;
    ghost var from, to := CopyPlaces(j, v.mem, v.owners, i, PagesTaken(i + 1));
    BusyHasTable(v.mem, selected, j.s + i);
    BusyHasTable(v.mem, dir, j.b + i);
    AddressIsFlat(v.mem, selected, sourceAddress);
    AddressIsFlat(v.mem, dir, destAddress);
    var sourcePhysAddr := GetPhysicalAddress(v.mem, selected, sourceAddress);
    var destPhysAddr := GetPhysicalAddress(v.mem, dir, destAddress);
    CoherentParts(v.mem, v.owners, v.pmm.regions, v.pmm.tables);
    LoadingCopies(j, v.mem, v.owners, i, PagesTaken(i + 1), from, to);
    CopyPage(v, destPhysAddr, sourcePhysAddr);
    StaysCoherent(now, v.owners, v.mem, v.pmm.regions, v.pmm.tables);
  }

  lemma HeaderKept(m: Memory, o: Owners, n: Memory, o': Owners, regions: seq<Region>, dir: nat, selected: nat,
                   data: nat, count: nat)
    requires IsMemory(m) && IsMemory(n) && OthersKept(m, o, n, o', dir) && IsDirectory(o, selected)
    requires Framed(regions, o')
    requires IsU32(data + 0x1f) && data % 0x1000 == 0 && count > 0
    requires IsSource(m, o, regions, selected, data / 0x1000, count)
    ensures BaseAddress(n, selected, data) == BaseAddress(m, selected, data)
    ensures FileSize(n, selected, data) == FileSize(m, selected, data)
  {
    hide ReadWord, ReadByte;
    SourceKept(m, o, n, o', regions, dir, selected, data / 0x1000, count, data / 0x1000);
    SamePageSameBytes(m, selected, data / 0x1000, n, selected, data / 0x1000, 8);
    SamePageSameBytes(m, selected, data / 0x1000, n, selected, data / 0x1000, 12);
  }

  lemma SourceKept(m: Memory, o: Owners, n: Memory, o': Owners, regions: seq<Region>, dir: nat, selected: nat, s: nat,
                   count: nat, v: nat)
    requires IsMemory(m) && IsMemory(n) && OthersKept(m, o, n, o', dir) && IsDirectory(o, selected)
    requires Framed(regions, o')
    requires IsSource(m, o, regions, selected, s, count) && s <= v < s + count
    ensures Flat(m, selected, v).Busy() && Flat(n, selected, v) == Flat(m, selected, v)
    ensures Flat(m, selected, v).page < 0x10_0000 && n[Flat(m, selected, v).page] == m[Flat(m, selected, v).page]
    ensures Steady(o', regions, Flat(m, selected, v).page)
  {
    var p := Flat(m, selected, v).page;
    assert Steady(o, regions, p);
  }

  // The thread's address space has been made; now the image can be loaded.
  lemma LoadingReady(m: Memory, o: Owners, n: Memory, o': Owners, regions: seq<Region>, dir: nat, selected: nat,
                     s: nat, b: nat, count: nat, a: nat)
    requires IsMemory(m) && IsMemory(n) && OthersKept(m, o, n, o', dir) && IsDirectory(o, selected)
    requires IsDirectory(o', dir)
    requires Owned(n, o') && Framed(regions, o') && IsSource(m, o, regions, selected, s, count)
    requires FreeFrom(n, dir, a) && a <= b && b + PagesTaken(count) <= 0x10_0000
    ensures Loading(Job(n, o', regions, selected, dir, s, b, count), n, o', 0, 0)
  {
    hide Steady, Flat;
    forall v | s <= v < s + count
      ensures Flat(n, selected, v).Busy() && Steady(o', regions, Flat(n, selected, v).page)
    {
      SourceKept(m, o, n, o', regions, dir, selected, s, count, v);
    }
    LoadingStart(Job(n, o', regions, selected, dir, s, b, count));
  }

  lemma StackAndPathStay(j: Job, n: Memory, o': Owners, taken: nat, stackSize: nat)
    requires Loading(j, n, o', j.count, taken) && stackSize < 0xFFFF_C000 && ThreadPages(stackSize) <= j.b
    requires HasStackAndPath(j.m, j.dir, stackSize)
    ensures HasStackAndPath(n, j.dir, stackSize)
  {
  }

  lemma LoadedApart(m: Memory, o: Owners, j: Job, k: Memory, o'': Owners, i: nat, taken: nat)
    requires IsMemory(m) && IsMemory(j.m) && IsMemory(k) && OthersKept(m, o, j.m, j.o, j.dir)
    requires Loading(j, k, o'', i, taken)
    ensures OthersKept(m, o, k, o'', j.dir)
  {
  }

  // The image's bytes, as they were before the thread was made.
  lemma LoadedImage(m: Memory, o: Owners, j: Job, k: Memory, o'': Owners, taken: nat, fileSize: nat)
    requires IsMemory(m) && IsMemory(j.m) && OthersKept(m, o, j.m, j.o, j.dir) && Loading(j, k, o'', j.count, taken)
    requires IsDirectory(o, j.source) && Framed(j.regions, j.o) && IsSource(m, o, j.regions, j.source, j.s, j.count)
    requires fileSize <= j.count * 0x1000
    ensures IsMemory(k) && j.dir < 0x10_0000
    ensures forall x :: 0 <= x < fileSize ==> SameByte(k, j.dir, j.b * 0x1000, m, j.source, j.s * 0x1000, x)
  {
    hide Loading, OthersKept, ReadByte, IsSource, Owned, Framed;
    LoadingInBounds(j, k, o'', j.count, taken);
    forall x | 0 <= x < fileSize ensures SameByte(k, j.dir, j.b * 0x1000, m, j.source, j.s * 0x1000, x) {
      LoadedBytes(j, k, o'', taken, x);
      SourceByteKept(m, o, j, x);
    }
  }

  lemma SourceByteKept(m: Memory, o: Owners, j: Job, x: nat)
    requires IsMemory(m) && IsMemory(j.m) && OthersKept(m, o, j.m, j.o, j.dir) && IsDirectory(o, j.source)
    requires Framed(j.regions, j.o) && IsSource(m, o, j.regions, j.source, j.s, j.count) && x < j.count * 0x1000
    ensures IsU32(j.s * 0x1000 + x)
    ensures ReadByte(j.m, j.source, j.s * 0x1000 + x) == ReadByte(m, j.source, j.s * 0x1000 + x)
  {
    hide ReadByte, Flat, OthersKept, Framed, Steady;
    var v := j.s + x / 0x1000;
    SourceKept(m, o, j.m, j.o, j.regions, j.dir, j.source, j.s, j.count, v);
    SamePageSameBytes(m, j.source, v, j.m, j.source, v, x % 0x1000);
    assert j.s * 0x1000 + x == v * 0x1000 + x % 0x1000;
  }

  lemma LoadingInBounds(j: Job, n: Memory, o': Owners, i: nat, taken: nat)
    requires Loading(j, n, o', i, taken)
    ensures IsMemory(n) && j.dir < 0x10_0000 && j.source < 0x10_0000 && IsMemory(j.m)
    ensures UserPages(n, j.dir, j.b, j.b + taken)
  {
  }

  // Loads an image of page-aligned base from page-aligned memory of the selected directory.
  method LoadProgram(v: Vmm, selected: nat, data: nat, dataSeg: nat, codeSeg: nat, flagsRegister: nat, suspended: bool)
    returns (thread: Thread)
    requires v.Valid() && IsDirectory(v.owners, selected) && data % 0x1000 == 0 && IsU32(data + 0x1f)
    requires StackSize(v.mem, selected, data) < 0xFFFF_C000 && FileSize(v.mem, selected, data) < 0xFFFF_F000
    requires IsSource(v.mem, v.owners, v.pmm.regions, selected, data / 0x1000,
                      FramesFor(FileSize(v.mem, selected, data)))
    requires BaseAddress(v.mem, selected, data) % 0x1000 == 0
    // The target does not overlap what the thread's own blocks take.
    requires BaseAddress(v.mem, selected, data) / 0x1000 >= ThreadPages(StackSize(v.mem, selected, data))
    requires
      var pagesCount := FramesFor(FileSize(v.mem, selected, data));
      BaseAddress(v.mem, selected, data) / 0x1000 + PagesTaken(pagesCount) <= 0x10_0000
    requires Left(v.pmm.tables)
      >= ThreadBudget(StackSize(v.mem, selected, data)) + 4 * FramesFor(FileSize(v.mem, selected, data))
    modifies v`mem, v`owners, v.pmm`tables
    ensures v.Valid() && IsDirectory(v.owners, thread.pagingDirectory / 0x1000)
    // Every byte of the file can be read through the new directory.
    ensures
      var base, dir := old(BaseAddress(v.mem, selected, data)), thread.pagingDirectory / 0x1000;
      forall x :: 0 <= x < old(FileSize(v.mem, selected, data)) ==>
        SameByte(v.mem, dir, base, old(v.mem), selected, data, x)
    // The stack and the path are there, too.
    ensures HasStackAndPath(v.mem, thread.pagingDirectory / 0x1000, old(StackSize(v.mem, selected, data)))
    // No other directory has changed, and no page that was in use.
    ensures OthersKept(old(v.mem), old(v.owners), v.mem, v.owners, thread.pagingDirectory / 0x1000)
    ensures
      var entryPoint := ToU32(old(BaseAddress(v.mem, selected, data)) + old(EntryPointOffset(v.mem, selected, data)));
      var stackSize := old(StackSize(v.mem, selected, data));
      thread == Thread(
        if suspended then Suspended else ReadyToRun, 0, 100, 0, thread.pagingDirectory,
        Registers(dataSeg, dataSeg, dataSeg, dataSeg, 0, 0, 0x2000 + stackSize - 4, 0x2000 + stackSize - 4,
                  0, 0, 0, 0, entryPoint, codeSeg, flagsRegister),
        0, (2 + FramesFor(stackSize)) * 0x1000)
    // The entries of the file's pages carry the user bit.
    ensures
      var b := old(BaseAddress(v.mem, selected, data)) / 0x1000;
      UserPages(v.mem, thread.pagingDirectory / 0x1000, b,
                b + PagesTaken(FramesFor(old(FileSize(v.mem, selected, data)))))
    ensures old(TablesPresent(v.mem, v.owners)) ==> TablesPresent(v.mem, v.owners)
  {
    hide Coherent, OthersKept, Loading, FreeFrom, Left, ReadByte, ReadWord, IsSource, Framed, Owned, Tidy, Grows,
      SameByte, UserPages, HasStackAndPath, TablesPresent;
    ghost var m, o := v.mem, v.owners;
    ghost var stackSize, fileSize := StackSize(m, selected, data), FileSize(m, selected, data);
    CoherentParts(m, o, v.pmm.regions, v.pmm.tables);
    FramesForRequest(fileSize);
    var entryPoint := ToU32(BaseAddress(v.mem, selected, data) + EntryPointOffset(v.mem, selected, data));
    thread := Threads.CreateThread(v, suspended, entryPoint, StackSize(v.mem, selected, data), dataSeg, codeSeg,
                                   flagsRegister);
    var dir := thread.pagingDirectory / 0x1000;
    CoherentParts(v.mem, v.owners, v.pmm.regions, v.pmm.tables);
    CoherentFrames(v.mem, v.owners, v.pmm.regions, v.pmm.tables);
    HeaderKept(m, o, v.mem, v.owners, v.pmm.regions, dir, selected, data, FramesFor(fileSize));
    var pagesCount := FramesFor(FileSize(v.mem, selected, data));
    var destAddress, sourceAddress := BaseAddress(v.mem, selected, data), data;
    ghost var j := Job(v.mem, v.owners, v.pmm.regions, selected, dir, data / 0x1000, destAddress / 0x1000, pagesCount);
    LoadingReady(m, o, v.mem, v.owners, v.pmm.regions, dir, selected, data / 0x1000, destAddress / 0x1000, pagesCount,
                 ThreadPages(stackSize));
    LoadImage(v, selected, dir, sourceAddress, destAddress, pagesCount, j);
    LoadedApart(m, o, j, v.mem, v.owners, pagesCount, PagesTaken(pagesCount));
    LoadingInBounds(j, v.mem, v.owners, pagesCount, PagesTaken(pagesCount));
    StackAndPathStay(j, v.mem, v.owners, PagesTaken(pagesCount), stackSize);
    LoadedImage(m, o, j, v.mem, v.owners, PagesTaken(pagesCount), fileSize);
  }

  // ---- the current path ----

  // The bytes of a text and the zero that ends it, as the directory's thread reads them.
  ghost predicate HasText(m: Memory, d: nat, address: nat, text: seq<nat>)
    requires IsMemory(m) && d < 0x10_0000
  {
    address + |text| < 0x1_0000_0000
    && forall i :: 0 <= i <= |text| ==> ReadByte(m, d, address + i) == if i < |text| then text[i] else 0
  }

  // Only the contents of one page in use have changed, that of page `v` of directory `d`.
  ghost predicate PageWritten(m: Memory, o: Owners, n: Memory, d: nat, v: nat)
    requires IsMemory(m) && IsMemory(n) && d < 0x10_0000 && v < 0x10_0000
  {
    && Flat(m, d, v).Allocated() && 0 <= Flat(m, d, v).page < 0x10_0000
    && (forall e, u :: IsDirectory(o, e) && 0 <= u < 0x10_0000 ==> Flat(n, e, u) == Flat(m, e, u))
    && forall p :: 0 <= p < 0x10_0000 && p != Flat(m, d, v).page ==> n[p] == m[p]
  }

  // The text goes to the physical address of the page.
  method WritePath(v: Vmm, dir: nat, page: nat, text: seq<nat>)
    requires v.Valid() && IsDirectory(v.owners, dir) && page < 0x10_0000
    requires Flat(v.mem, dir, page).Allocated() && Flat(v.mem, dir, page).Busy()
    requires AreBytes(text) && |text| < 0x1000
    modifies v`mem
    ensures v.Valid() && PageWritten(old(v.mem), v.owners, v.mem, dir, page)
    ensures HasText(v.mem, dir, page * 0x1000, text)
    ensures old(TablesPresent(v.mem, v.owners)) ==> TablesPresent(v.mem, v.owners)
  {
    hide Coherent, Owned, Tidy, HasText, PageWritten, Flat, GetPhysicalAddress, StoreBytes, AreBytes, TablesPresent;
    ghost var m := v.mem;
    CoherentParts(m, v.owners, v.pmm.regions, v.pmm.tables);
    PagePlace(m, v.owners, dir, page, 0);
    TextBytes(text);
    var physAddress := GetPhysicalAddress(v.mem, dir, page * 0x1000);
    v.mem := Copy(v.mem, physAddress, text + [0]);
    TextStored(m, v.owners, dir, page, text, v.mem);
    StaysCoherent(m, v.owners, v.mem, v.pmm.regions, v.pmm.tables);
  }

  lemma TextBytes(text: seq<nat>)
    requires AreBytes(text)
    ensures AreBytes(text + [0])
  {
  }

  lemma PagePlace(m: Memory, o: Owners, d: nat, v: nat, i: nat)
    requires IsMemory(m) && Owned(m, o) && IsDirectory(o, d) && v < 0x10_0000 && i < 0x1000
    requires Flat(m, d, v).Allocated() && Flat(m, d, v).Busy()
    ensures
      var q := Flat(m, d, v).page;
      && q in o && o[q] == PageAt(d, v) && 0 <= q < 0x10_0000
      && GetPhysicalAddress(m, d, v * 0x1000 + i) == q * 0x1000 + i
  {
    hide GetPhysicalAddress, Uses;
    OwnerOfPage(m, o, d, v);
    assert (v * 0x1000 + i) / 0x1000 == v && (v * 0x1000 + i) % 0x1000 == i;
    BusyHasTable(m, d, v);
    AddressIsFlat(m, d, v * 0x1000 + i);
  }

  lemma OwnerOfPage(m: Memory, o: Owners, d: nat, v: nat)
    requires IsMemory(m) && Owned(m, o) && IsDirectory(o, d) && v < 0x10_0000 && Flat(m, d, v).Allocated()
    ensures
      var q := Flat(m, d, v).page;
      q in o && o[q] == PageAt(d, v) && 0 <= q < 0x10_0000
  {
  }

  lemma TextStored(m: Memory, o: Owners, d: nat, v: nat, text: seq<nat>, n: Memory)
    requires IsMemory(m) && IsMemory(n) && Owned(m, o) && Tidy(m, o) && IsDirectory(o, d) && v < 0x10_0000
    requires Flat(m, d, v).Allocated() && Flat(m, d, v).Busy() && Flat(m, d, v).page < 0x10_0000
    requires AreBytes(text + [0]) && |text| < 0x1000
    requires n == StoreBytes(m, Flat(m, d, v).page * 0x1000, text + [0])
    ensures Owned(n, o) && Tidy(n, o) && PageWritten(m, o, n, d, v) && HasText(n, d, v * 0x1000, text)
    ensures TablesPresent(m, o) ==> TablesPresent(n, o)
  {
    hide Owned, Tidy, Flat, GetPhysicalAddress, StoreBytes, AreBytes, PhysicalByte, TablesPresent;
    var q := Flat(m, d, v).page;
    OwnerOfPage(m, o, d, v);
    StoredInPage(m, q * 0x1000, text + [0], q);
    DataStep(m, o, q, n[q]);
    SameTablesPresent(m, n, o);
    forall i | 0 <= i <= |text| ensures ReadByte(n, d, v * 0x1000 + i) == if i < |text| then text[i] else 0 {
      PagePlace(n, o, d, v, i);
      StoredBytes(m, q * 0x1000, text + [0], q * 0x1000 + i);
    }
  }

  // What the thread already had is still there.
  lemma PathWritten(m: Memory, o: Owners, n: Memory, o': Owners, k: Memory, dir: nat, page: nat, stackSize: nat,
                    lo: nat, hi: nat)
    requires IsMemory(m) && IsMemory(n) && IsMemory(k) && Owned(m, o) && Owned(n, o') && IsDirectory(o', dir)
    requires OthersKept(m, o, n, o', dir) && stackSize < 0xFFFF_C000 && HasStackAndPath(n, dir, stackSize)
    requires UserPages(n, dir, lo, hi) && page < 0x10_0000 && PageWritten(n, o', k, dir, page)
    ensures OthersKept(m, o, k, o', dir) && HasStackAndPath(k, dir, stackSize) && UserPages(k, dir, lo, hi)
  {
    hide Tidy;
    var q := Flat(n, dir, page).page;
    assert o'[q] == PageAt(dir, page);
    assert q !in o;
  }

  lemma BytesKept(n: Memory, o: Owners, k: Memory, dir: nat, page: nat, lo: nat, hi: nat, m: Memory, source: nat,
                  data: nat, x: nat)
    requires IsMemory(m) && IsMemory(n) && IsMemory(k) && Owned(n, o) && IsDirectory(o, dir) && source < 0x10_0000
    requires page < 0x10_0000 && PageWritten(n, o, k, dir, page) && page < lo && UserPages(n, dir, lo, hi)
    requires SameByte(n, dir, lo * 0x1000, m, source, data, x) && lo + x / 0x1000 < hi
    ensures SameByte(k, dir, lo * 0x1000, m, source, data, x)
  {
    hide ReadByte, Tidy;
    var u := lo + x / 0x1000;
    assert o[Flat(n, dir, u).page] == PageAt(dir, u) && o[Flat(n, dir, page).page] == PageAt(dir, page);
    SamePageSameBytes(n, dir, u, k, dir, u, x % 0x1000);
    assert lo * 0x1000 + x == u * 0x1000 + x % 0x1000;
  }

  // The whole: the image, and the current path if there is one.
  method CreateThread(v: Vmm, selected: nat, data: nat, dataSeg: nat, codeSeg: nat, flagsRegister: nat,
                      curPath: Option<seq<nat>>, suspended: bool)
    returns (thread: Thread)
    requires v.Valid() && IsDirectory(v.owners, selected) && data % 0x1000 == 0 && IsU32(data + 0x1f)
    requires StackSize(v.mem, selected, data) < 0xFFFF_C000 && FileSize(v.mem, selected, data) < 0xFFFF_F000
    requires IsSource(v.mem, v.owners, v.pmm.regions, selected, data / 0x1000,
                      FramesFor(FileSize(v.mem, selected, data)))
    requires BaseAddress(v.mem, selected, data) % 0x1000 == 0
    requires BaseAddress(v.mem, selected, data) / 0x1000 >= ThreadPages(StackSize(v.mem, selected, data))
    requires
      var pagesCount := FramesFor(FileSize(v.mem, selected, data));
      BaseAddress(v.mem, selected, data) / 0x1000 + PagesTaken(pagesCount) <= 0x10_0000
    requires Left(v.pmm.tables)
      >= ThreadBudget(StackSize(v.mem, selected, data)) + 4 * FramesFor(FileSize(v.mem, selected, data))
    requires curPath.Some? ==> AreBytes(curPath.value) && |curPath.value| < 0x1000
    modifies v`mem, v`owners, v.pmm`tables
    ensures v.Valid() && IsDirectory(v.owners, thread.pagingDirectory / 0x1000)
    // Every byte of the file and of the path can be read through the new directory.
    ensures
      var base, dir := old(BaseAddress(v.mem, selected, data)), thread.pagingDirectory / 0x1000;
      forall x :: 0 <= x < old(FileSize(v.mem, selected, data)) ==>
        SameByte(v.mem, dir, base, old(v.mem), selected, data, x)
    ensures curPath.Some? ==>
      HasText(v.mem, thread.pagingDirectory / 0x1000, thread.currentPath, curPath.value)
    // The stack and the path are there; no other directory has changed, and no page that was in use.
    ensures HasStackAndPath(v.mem, thread.pagingDirectory / 0x1000, old(StackSize(v.mem, selected, data)))
    ensures OthersKept(old(v.mem), old(v.owners), v.mem, v.owners, thread.pagingDirectory / 0x1000)
    ensures
      var entryPoint := ToU32(old(BaseAddress(v.mem, selected, data)) + old(EntryPointOffset(v.mem, selected, data)));
      var stackSize := old(StackSize(v.mem, selected, data));
      thread == Thread(
        if suspended then Suspended else ReadyToRun, 0, 100, 0, thread.pagingDirectory,
        Registers(dataSeg, dataSeg, dataSeg, dataSeg, 0, 0, 0x2000 + stackSize - 4, 0x2000 + stackSize - 4,
                  0, 0, 0, 0, entryPoint, codeSeg, flagsRegister),
        0, (2 + FramesFor(stackSize)) * 0x1000)
    ensures
      var b := old(BaseAddress(v.mem, selected, data)) / 0x1000;
      UserPages(v.mem, thread.pagingDirectory / 0x1000, b,
                b + PagesTaken(FramesFor(old(FileSize(v.mem, selected, data)))))
    ensures old(TablesPresent(v.mem, v.owners)) ==> TablesPresent(v.mem, v.owners)
  {
    hide Coherent, OthersKept, Left, ReadByte, ReadWord, IsSource, Framed, Owned, Tidy, SameByte, UserPages, HasText,
      HasStackAndPath, PageWritten, Flat, AreBytes, TablesPresent;
    ghost var m, o, stackSize, fileSize :=
      v.mem, v.owners, StackSize(v.mem, selected, data), FileSize(v.mem, selected, data);
    ghost var base := BaseAddress(v.mem, selected, data);
    CoherentParts(m, o, v.pmm.regions, v.pmm.tables);
    FramesForRequest(fileSize);
    thread := LoadProgram(v, selected, data, dataSeg, codeSeg, flagsRegister, suspended);
    if curPath.Some? {
      ghost var n := v.mem;
      var dir := thread.pagingDirectory / 0x1000;
      var page := thread.currentPath / 0x1000;
      CoherentParts(n, v.owners, v.pmm.regions, v.pmm.tables);
      PathIsThere(n, dir, stackSize);
      WritePath(v, dir, page, curPath.value);
      ghost var b, taken := base / 0x1000, PagesTaken(FramesFor(fileSize));
      PathWritten(m, o, n, v.owners, v.mem, dir, page, stackSize, b, b + taken);
      forall x | 0 <= x < fileSize ensures SameByte(v.mem, dir, base, m, selected, data, x) {
        BytesKept(n, v.owners, v.mem, dir, page, b, b + taken, m, selected, data, x);
      }
    }
  }

  lemma PathIsThere(m: Memory, d: nat, stackSize: nat)
    requires IsMemory(m) && d < 0x10_0000 && stackSize < 0xFFFF_C000 && HasStackAndPath(m, d, stackSize)
    ensures 2 + FramesFor(stackSize) + 1 < 0x10_0000
    ensures
      var entry := Flat(m, d, 2 + FramesFor(stackSize));
      entry.Allocated() && entry.Busy()
  {
    FramesForRequest(0x1000);
  }

  // The loop over the pages.
  method LoadImage(v: Vmm, selected: nat, dir: nat, source: nat, dest: nat, pagesCount: nat, ghost j: Job)
    requires v.Valid() && IsDirectory(v.owners, dir) && dir == j.dir && selected == j.source && pagesCount == j.count
    requires Loading(j, v.mem, v.owners, 0, 0) && dest == j.b * 0x1000 && source == j.s * 0x1000
    requires j.regions == v.pmm.regions && pagesCount > 0 && Left(v.pmm.tables) >= 4 * pagesCount
    modifies v`mem, v`owners, v.pmm`tables
    ensures v.Valid() && IsDirectory(v.owners, dir)
    ensures Loading(j, v.mem, v.owners, pagesCount, PagesTaken(pagesCount))
    ensures old(TablesPresent(v.mem, v.owners)) ==> TablesPresent(v.mem, v.owners)
  {
    hide Coherent, Loading, Left, TablesPresent;
    LoadingFits(j, v.mem, v.owners, 0, 0);
    var destAddress, sourceAddress := dest, source;
    for i := 0 to pagesCount
      invariant v.Valid() && IsDirectory(v.owners, dir)
      invariant Loading(j, v.mem, v.owners, i, PagesTaken(i))
      invariant destAddress == ToU32((j.b + i) * 0x1000) && sourceAddress == ToU32((j.s + i) * 0x1000)
      invariant Left(v.pmm.tables) >= 4 * (pagesCount - i)
      invariant old(TablesPresent(v.mem, v.owners)) ==> TablesPresent(v.mem, v.owners)
    {
      LoadPage(v, selected, dir, sourceAddress, destAddress, j, i);
      sourceAddress := ToU32(sourceAddress + 0x1000);
      destAddress := ToU32(destAddress + 0x1000);
    }
  }

  lemma LoadingFits(j: Job, n: Memory, o': Owners, i: nat, taken: nat)
    requires Loading(j, n, o', i, taken)
    ensures j.b + j.count <= 0x10_0000 && j.s + j.count <= 0x10_0000
  {
  }
}
