/** What allocating and freeing a block of virtual pages does to memory and owners. */
module Blocks {
  import opened Paging
  import opened Options

  // Entry `v` of `n` is as it was if it had a block, and otherwise has one that nobody owned.
  ghost predicate PageDone(m: Memory, o: Owners, n: Memory, d: nat, v: nat, flags: Flags)
    requires IsMemory(m) && IsMemory(n) && d < 0x10_0000 && v < 0x10_0000
  {
    if Flat(m, d, v).Allocated() then Flat(n, d, v) == Flat(m, d, v)
    else Gained(Flat(m, d, v), Flat(n, d, v), flags) && Flat(n, d, v).page !in o
  }

  ghost predicate AllocDone(m: Memory, o: Owners, n: Memory, o': Owners, d: nat, lo: nat, hi: nat, flags: Flags)
    requires IsMemory(m) && IsMemory(n)
  {
    && d < 0x10_0000 && lo <= hi && (lo < hi ==> hi <= 0x10_0000)
    && Grows(m, o, n, o', d, lo, hi)
    && forall v :: lo <= v < hi ==> PageDone(m, o, n, d, v, flags)
  }

  lemma AllocNothing(n: Memory, o: Owners, k: Memory, o': Owners, d: nat, lo: nat, flags: Flags)
    requires IsMemory(n) && IsMemory(k) && d < 0x10_0000 && Grows(n, o, k, o', d, 0, 0)
    ensures AllocDone(n, o, k, o', d, lo, lo, flags)
  {
  }

  // Two stretches, one after the other; tables may appear in between.
  lemma AllocChain(m: Memory, o: Owners, n: Memory, o': Owners, k: Memory, o'': Owners,
                   d: nat, lo: nat, v: nat, hi: nat, flags: Flags)
    requires IsMemory(m) && IsMemory(n) && IsMemory(k) && IsDirectory(o, d) && IsDirectory(o', d)
    requires AllocDone(m, o, n, o', d, lo, v, flags) && AllocDone(n, o', k, o'', d, v, hi, flags)
    ensures AllocDone(m, o, k, o'', d, lo, hi, flags)
  {
    SameButTransitive(m, o, n, o', k, o'', d, lo, v, v, hi);
    forall u | lo <= u < hi ensures PageDone(m, o, k, d, u, flags) {
      if u < v {
        assert Flat(k, d, u) == Flat(n, d, u) && PageDone(m, o, n, d, u, flags);
      } else {
        assert Flat(n, d, u) == Flat(m, d, u) && PageDone(n, o', k, d, u, flags);
      }
    }
  }

  lemma AllocKeepsDirectories(m: Memory, o: Owners, n: Memory, o': Owners, d: nat, lo: nat, v: nat, flags: Flags)
    requires IsMemory(m) && IsMemory(n) && AllocDone(m, o, n, o', d, lo, v, flags)
    ensures SameDirectories(o, o')
  {
  }

  // One entry is given the block at `page`.
  lemma AllocOne(m: Memory, o: Owners, d: nat, v: nat, page: nat, flags: Flags) returns (k: Memory, o': Owners)
    requires IsMemory(m) && Owned(m, o) && Tidy(m, o) && IsDirectory(o, d)
    requires v < 0x10_0000 && m[d][v / 0x400].Allocated() && !Flat(m, d, v).Allocated()
    requires page < 0x10_0000 && page !in o && flags.isBusy
    ensures
      var p := m[d][v / 0x400].page;
      p < 0x10_0000 && k == SetWord(m, p, v % 0x400, Word(NewFlags(m[p][v % 0x400].flags, flags), page))
    ensures o' == o[page := PageAt(d, v)]
    ensures Owned(k, o') && Tidy(k, o') && IsDirectory(o', d)
    ensures AllocDone(m, o, k, o', d, v, v + 1, flags) && TablesBut(m, o, k, d, 0, 0)
  {
    hide Owned, Tidy, SameBut, AllocDone, TablesBut, Flat;
    TableEntry(m, d, v);
    var p, w := m[d][v / 0x400].page, Word(NewFlags(Flat(m, d, v).flags, flags), page);
    k, o' := SetWord(m, p, v % 0x400, w), o[page := PageAt(d, v)];
    EntryStep(m, o, d, v, w);
    NewPageStep(m, o, d, v, w);
    AllocOneDone(m, o, k, d, v, page, flags);
    ClosedTables(m, o, k, d);
  }

  lemma TableEntry(m: Memory, d: nat, v: nat)
    requires IsMemory(m) && d < 0x10_0000 && v < 0x10_0000 && m[d][v / 0x400].Allocated()
    ensures m[d][v / 0x400].page < 0x10_0000 && Flat(m, d, v) == m[m[d][v / 0x400].page][v % 0x400]
  {
    assert IsPage(m[d]);
  }

  lemma AllocOneDone(m: Memory, o: Owners, k: Memory, d: nat, v: nat, page: nat, flags: Flags)
    requires IsMemory(m) && IsMemory(k) && d < 0x10_0000 && v < 0x10_0000 && page !in o
    requires SameBut(m, o, k, o[page := PageAt(d, v)], d, v, v + 1)
    requires !Flat(m, d, v).Allocated() && Flat(k, d, v) == Word(NewFlags(Flat(m, d, v).flags, flags), page)
    ensures AllocDone(m, o, k, o[page := PageAt(d, v)], d, v, v + 1, flags)
  {
    hide SameBut, Flat;
    assert PageDone(m, o, k, d, v, flags);
  }

  // ---- the walk over several tables ----

  datatype FillTask = FillTask(m: Memory, o: Owners, d: nat, lo: nat, count: nat, flags: Flags)

  ghost predicate Fill(s: FillTask, n: Memory, o': Owners, t: nat, done: nat) {
    && IsMemory(s.m) && IsMemory(n) && IsDirectory(s.o, s.d) && IsDirectory(o', s.d)
    && s.flags.isBusy && done <= s.count && s.lo / 0x400 <= t
    && AllocDone(s.m, s.o, n, o', s.d, s.lo, s.lo + done, s.flags)
    && TablesBut(s.m, s.o, n, s.d, s.lo / 0x400, t)
  }

  lemma FillStart(s: FillTask)
    requires IsMemory(s.m) && IsDirectory(s.o, s.d) && s.lo < 0x10_0000 && s.flags.isBusy
    ensures Fill(s, s.m, s.o, s.lo / 0x400, 0)
  {
  }

  lemma FillTable(s: FillTask, n: Memory, o': Owners, k: Memory, o'': Owners, t: nat, done: nat)
    requires Fill(s, n, o', t, done)
    requires IsMemory(k) && IsDirectory(o'', s.d) && Grows(n, o', k, o'', s.d, 0, 0)
    requires TablesBut(n, o', k, s.d, t, t + 1)
    ensures Fill(s, k, o'', t + 1, done)
  {
    AllocNothing(n, o', k, o'', s.d, s.lo + done, s.flags);
    AllocChain(s.m, s.o, n, o', k, o'', s.d, s.lo, s.lo + done, s.lo + done, s.flags);
    TablesTransitive(s.m, s.o, n, o', k, s.d, s.lo / 0x400, t);
  }

  lemma FillStretch(s: FillTask, n: Memory, o': Owners, k: Memory, o'': Owners, t: nat, done: nat, newDone: nat)
    requires Fill(s, n, o', t, done) && done <= newDone <= s.count
    requires IsMemory(k) && IsDirectory(o'', s.d) && TablesBut(n, o', k, s.d, 0, 0)
    requires AllocDone(n, o', k, o'', s.d, s.lo + done, s.lo + newDone, s.flags)
    ensures Fill(s, k, o'', t, newDone)
    ensures forall end :: 0 <= end <= 0x400 ==> MissingTables(k, s.d, t, end) == MissingTables(n, s.d, t, end)
  {
    AllocChain(s.m, s.o, n, o', k, o'', s.d, s.lo, s.lo + done, s.lo + newDone, s.flags);
    TablesKept(s.m, s.o, n, o', k, s.d, s.lo / 0x400, t, 0);
    forall end | 0 <= end <= 0x400 ensures MissingTables(k, s.d, t, end) == MissingTables(n, s.d, t, end) {
      MissingTablesSame(n, k, s.d, t, end);
    }
  }

  lemma FillEnd(s: FillTask, n: Memory, o': Owners, t: nat, r: nat, left: nat)
    requires left <= s.count && Fill(s, n, o', t, s.count - left)
    requires Place(s.lo, s.count, t, r, left) && (t == 0x400 || left == 0)
    ensures AllocDone(s.m, s.o, n, o', s.d, s.lo, EndPage(s.lo, s.count), s.flags)
    ensures TablesBut(s.m, s.o, n, s.d, s.lo / 0x400, EndTable(s.lo, s.count))
    ensures MissingTables(n, s.d, t, EndTable(s.lo, s.count)) == 0
  {
    PlaceEnd(s.lo, s.count, t, r, left);
  }

  // ---- a finished block ----

  // Pages [lo, hi) were blank and are one block now: each has its own new physical block, and
  // only the last one carries the closing mark.
  ghost predicate BlockDone(m: Memory, o: Owners, n: Memory, o': Owners, d: nat, lo: nat, hi: nat, flags: Flags)
    requires IsMemory(m) && IsMemory(n)
  {
    && d < 0x10_0000 && lo < hi <= 0x10_0000
    && Grows(m, o, n, o', d, lo, hi)
    && forall v :: lo <= v < hi ==>
        && Flat(m, d, v) == ZERO
        && Flat(n, d, v).flags == Flags(flags.attributes, true, v == hi - 1, true)
        && Flat(n, d, v).page !in o
  }

  // All entries of [lo, hi) are free.
  ghost predicate RangeFree(m: Memory, d: nat, lo: nat, hi: nat)
    requires IsMemory(m) && d < 0x10_0000
  {
    hi <= 0x10_0000 && forall v :: lo <= v < hi ==> !Flat(m, d, v).Busy()
  }

  lemma RangeInBounds(m: Memory, d: nat, lo: nat, hi: nat)
    requires lo <= hi && IsMemory(m) && d < 0x10_0000 && RangeFree(m, d, lo, hi)
    ensures hi <= 0x10_0000 && EndPage(lo, hi - lo) == hi
  {
  }

  // The manager sets the Busy mark itself.
  lemma BlockFlags(m: Memory, o: Owners, n: Memory, o': Owners, d: nat, lo: nat, hi: nat, flags: Flags)
    requires IsMemory(m) && IsMemory(n) && BlockDone(m, o, n, o', d, lo, hi, flags.(isBusy := true))
    ensures BlockDone(m, o, n, o', d, lo, hi, flags)
  {
  }

  lemma BlockKeepsDirectories(m: Memory, o: Owners, n: Memory, o': Owners, d: nat, lo: nat, hi: nat, flags: Flags)
    requires IsMemory(m) && IsMemory(n) && BlockDone(m, o, n, o', d, lo, hi, flags)
    ensures SameDirectories(o, o')
  {
  }

  // A blank range has no blocks of its own.
  lemma FreeHasNoBlocks(m: Memory, o: Owners, d: nat, lo: nat, hi: nat)
    requires IsMemory(m) && IsDirectory(o, d) && Tidy(m, o) && RangeFree(m, d, lo, hi)
    ensures NoneAllocated(m, d, lo, hi)
  {
  }

  // A range of `count` pages cannot need more new tables than it touches.
  lemma TablesForRange(m: Memory, d: nat, lo: nat, count: nat)
    requires IsMemory(m) && d < 0x10_0000 && lo < 0x10_0000
    ensures MissingTables(m, d, lo / 0x400, EndTable(lo, count)) <= count / 0x400 + 2
  {
    MissingAtMost(m, d, lo / 0x400, EndTable(lo, count));
  }

  lemma {:induction false} MissingAtMost(m: Memory, d: nat, lo: int, hi: int)
    requires IsMemory(m) && d < 0x10_0000 && 0 <= lo && hi <= 0x400
    ensures MissingTables(m, d, lo, hi) <= if lo <= hi then hi - lo else 0
    decreases hi - lo
  {
    if lo < hi {
      MissingAtMost(m, d, lo + 1, hi);
    }
  }

  // Marking the last entry of a freshly allocated range makes it a block.
  lemma CloseBlock(m: Memory, o: Owners, n: Memory, o': Owners, d: nat, lo: nat, hi: nat, flags: Flags)
    returns (k: Memory)
    requires IsMemory(m) && IsMemory(n) && Tidy(m, o) && Owned(n, o') && Tidy(n, o')
    requires IsDirectory(o, d) && IsDirectory(o', d) && lo < hi && RangeFree(m, d, lo, hi)
    requires flags.Plain() && flags.isBusy && AllocDone(m, o, n, o', d, lo, hi, flags)
    ensures
      var v := hi - 1;
      var p := n[d][v / 0x400].page;
      && n[d][v / 0x400].Allocated() && p < 0x10_0000
      && k == SetWord(n, p, v % 0x400, n[p][v % 0x400].(flags := n[p][v % 0x400].flags.(isClosing := true)))
    ensures Owned(k, o') && Tidy(k, o') && BlockDone(m, o, k, o', d, lo, hi, flags)
    ensures TablesBut(n, o', k, d, 0, 0)
  {
    hide Owned, Tidy, SameBut, AllocDone, BlockDone, RangeFree, TablesBut, Flat;
    var v := hi - 1;
    FilledEntry(m, o, n, o', d, lo, hi, flags, v);
    EntryIsWord(n, d, v);
    var p := n[d][v / 0x400].page;
    var w := n[p][v % 0x400].(flags := n[p][v % 0x400].flags.(isClosing := true));
    k := SetWord(n, p, v % 0x400, w);
    CloseStep(n, o', d, v, w);
    EntryStep(n, o', d, v, w);
    ClosedTables(n, o', k, d);
    ClosedBlock(m, o, n, o', k, d, lo, hi, flags);
  }

  // What a filled entry of a free range looks like.
  lemma FilledEntry(m: Memory, o: Owners, n: Memory, o': Owners, d: nat, lo: nat, hi: nat, flags: Flags, v: nat)
    requires IsMemory(m) && IsMemory(n) && Tidy(m, o) && IsDirectory(o, d) && RangeFree(m, d, lo, hi)
    requires flags.Plain() && flags.isBusy && AllocDone(m, o, n, o', d, lo, hi, flags) && lo <= v < hi
    ensures v < 0x10_0000 && Flat(m, d, v) == ZERO
    ensures Flat(n, d, v).flags == Flags(flags.attributes, true, false, true) && Flat(n, d, v).page !in o
  {
    hide Flat, Grows;
    assert PageDone(m, o, n, d, v, flags) && Flat(m, d, v) == ZERO;
    BlankGains(Flat(m, d, v), Flat(n, d, v), flags);
  }

  lemma EntryIsWord(m: Memory, d: nat, v: nat)
    requires IsMemory(m) && d < 0x10_0000 && v < 0x10_0000 && Flat(m, d, v).Allocated()
    ensures m[d][v / 0x400].Allocated() && m[d][v / 0x400].page < 0x10_0000
    ensures Flat(m, d, v) == m[m[d][v / 0x400].page][v % 0x400]
    ensures Flat(m, d, v).page < 0x10_0000
  {
    assert IsPage(m[d]);
    assert IsPage(m[m[d][v / 0x400].page]);
  }

  lemma ClosedTables(n: Memory, o: Owners, k: Memory, d: nat)
    requires IsMemory(n) && IsMemory(k)
    requires forall e, t :: IsDirectory(o, e) && 0 <= t < 0x400 ==> k[e][t] == n[e][t]
    ensures TablesBut(n, o, k, d, 0, 0)
  {
  }

  lemma ClosedBlock(m: Memory, o: Owners, n: Memory, o': Owners, k: Memory, d: nat, lo: nat, hi: nat, flags: Flags)
    requires IsMemory(m) && IsMemory(n) && IsMemory(k) && Tidy(m, o) && IsDirectory(o, d) && IsDirectory(o', d)
    requires lo < hi && RangeFree(m, d, lo, hi)
    requires flags.Plain() && flags.isBusy && AllocDone(m, o, n, o', d, lo, hi, flags)
    requires SameBut(n, o', k, o', d, hi - 1, hi)
    requires hi <= 0x10_0000 ==>
      var w := Flat(n, d, hi - 1);
      Flat(k, d, hi - 1) == w.(flags := w.flags.(isClosing := true))
    ensures BlockDone(m, o, k, o', d, lo, hi, flags)
  {
    hide Owned, Tidy, RangeFree, Flat;
    SameButTransitive(m, o, n, o', k, o', d, lo, hi, hi - 1, hi);
    forall u | lo <= u < hi
      ensures Flat(m, d, u) == ZERO
      ensures Flat(k, d, u).flags == Flags(flags.attributes, true, u == hi - 1, true)
      ensures Flat(k, d, u).page !in o
    {
      FilledEntry(m, o, n, o', d, lo, hi, flags, u);
      assert u < hi - 1 ==> Flat(k, d, u) == Flat(n, d, u);
    }
  }

  // ---- freeing ----

  // Pages [lo, hi) are blank, and exactly the blocks they had are gone.
  ghost predicate FreeDone(m: Memory, o: Owners, n: Memory, o': Owners, d: nat, lo: nat, hi: nat)
    requires IsMemory(m) && IsMemory(n)
  {
    && d < 0x10_0000 && lo <= hi && (lo < hi ==> hi <= 0x10_0000)
    && SameBut(m, o, n, o', d, lo, hi) && TablesBut(m, o, n, d, 0, 0)
    && (forall v :: lo <= v < hi ==> Flat(n, d, v) == ZERO)
    && (forall p :: p in o' ==> p in o && o'[p] == o[p])
    && (forall p :: p in o ==> (p !in o' <==> InRange(o[p], d, lo, hi)))
  }

  lemma FreeKeepsTables(m: Memory, o: Owners, n: Memory, o': Owners, d: nat, lo: nat, hi: nat)
    requires IsMemory(m) && IsMemory(n) && FreeDone(m, o, n, o', d, lo, hi)
    ensures TablesPresent(m, o) ==> TablesPresent(n, o')
  {
    TablesStayPresent(m, o, n, o', d, 0, 0);
  }

  predicate InRange(owner: Owner, d: nat, lo: int, hi: int) {
    owner.PageAt? && owner.d == d && lo <= owner.v < hi
  }

  // One more entry is blanked; `o'` is what its block leaves behind.
  lemma FreeOne(m: Memory, o: Owners, n: Memory, o': Owners, d: nat, lo: nat, v: nat) returns (k: Memory, o'': Owners)
    requires IsMemory(m) && IsMemory(n) && FreeDone(m, o, n, o', d, lo, v)
    requires Owned(m, o) && Owned(n, o') && Tidy(n, o') && IsDirectory(o, d) && IsDirectory(o', d)
    requires lo <= v < 0x10_0000 && n[d][v / 0x400].Allocated()
    ensures n[d][v / 0x400].page < 0x10_0000 && k == SetWord(n, n[d][v / 0x400].page, v % 0x400, ZERO)
    ensures o'' == if Flat(n, d, v).Allocated() then o' - {Flat(n, d, v).page} else o'
    ensures Flat(n, d, v) == Flat(m, d, v)
    ensures Flat(n, d, v).Allocated() ==> Flat(n, d, v).page in o'
    ensures Owned(k, o'') && Tidy(k, o'') && IsDirectory(o'', d) && FreeDone(m, o, k, o'', d, lo, v + 1)
  {
    assert IsPage(n[d]);
    k := SetWord(n, n[d][v / 0x400].page, v % 0x400, ZERO);
    o'' := if Flat(n, d, v).Allocated() then o' - {Flat(n, d, v).page} else o';
    EntryStep(n, o', d, v, ZERO);
    ClearStep(n, o', d, v);
    FreeSame(m, o, n, o', k, o'', d, lo, v);
    forall p | p in o ensures p !in o'' <==> InRange(o[p], d, lo, v + 1) {
      FreeOwner(m, o, n, o', d, lo, v, p);
    }
  }

  lemma FreeSame(m: Memory, o: Owners, n: Memory, o': Owners, k: Memory, o'': Owners, d: nat, lo: nat, v: nat)
    requires IsMemory(m) && IsMemory(n) && IsMemory(k) && lo <= v
    requires SameBut(m, o, n, o', d, lo, v) && TablesBut(m, o, n, d, 0, 0)
    requires SameBut(n, o', k, o'', d, v, v + 1) && forall p :: p in o' ==> p in o
    requires forall e, t :: IsDirectory(o', e) && 0 <= t < 0x400 ==> k[e][t] == n[e][t]
    requires forall q :: q in o' && !o'[q].TableAt? && 0 <= q < 0x10_0000 ==> k[q] == n[q]
    requires forall p :: p in o && o[p].HoldsData() && 0 <= p < 0x10_0000 ==> k[p] == n[p]
    ensures SameBut(m, o, k, o'', d, lo, v + 1) && TablesBut(m, o, k, d, 0, 0)
  {
  }

  // Whether the block at `p` is still owned after entry `v`, too, has been blanked.
  lemma FreeOwner(m: Memory, o: Owners, n: Memory, o': Owners, d: nat, lo: nat, v: nat, p: int)
    requires IsMemory(m) && IsMemory(n) && FreeDone(m, o, n, o', d, lo, v)
    requires Owned(m, o) && Owned(n, o') && IsDirectory(o, d) && IsDirectory(o', d) && v < 0x10_0000
    requires p in o
    ensures
      var gone := Flat(n, d, v).Allocated() && p == Flat(n, d, v).page;
      (p !in o' || gone) <==> InRange(o[p], d, lo, v + 1)
  {
    if p in o' {
      assert Uses(n, o', o'[p], p);
      if o[p] == PageAt(d, v) {
        assert Flat(n, d, v).page == p;
      }
    }
  }

  lemma BlankOwnsNothing(m: Memory, o: Owners, d: nat, lo: nat, hi: nat, p: int)
    requires IsMemory(m) && Owned(m, o) && d < 0x10_0000 && hi <= 0x10_0000 && p in o
    requires forall v :: lo <= v < hi ==> Flat(m, d, v) == ZERO
    ensures !InRange(o[p], d, lo, hi)
  {
    assert Uses(m, o, o[p], p);
  }

  // The state of the loops that free pages: entry `v` is next.
  ghost predicate Freed(m: Memory, o: Owners, n: Memory, o': Owners, d: nat, lo: nat, v: nat, end: nat) {
    && IsMemory(m) && IsMemory(n) && IsDirectory(o, d) && IsDirectory(o', d) && Owned(m, o)
    && FreeDone(m, o, n, o', d, lo, v) && Complete(m, d, lo / 0x400, end)
  }

  lemma FreedStart(m: Memory, o: Owners, d: nat, lo: nat, end: nat)
    requires IsMemory(m) && IsDirectory(o, d) && Owned(m, o) && Complete(m, d, lo / 0x400, end)
    ensures Freed(m, o, m, o, d, lo, lo, end)
  {
  }

  lemma FreedStep(m: Memory, o: Owners, n: Memory, o': Owners, d: nat, lo: nat, v: nat, end: nat) returns (k: Memory,
                  o'': Owners)
    requires Freed(m, o, n, o', d, lo, v, end) && lo <= v < 0x10_0000 && v / 0x400 < end
    requires Owned(n, o') && Tidy(n, o')
    ensures IsMemory(n) && d < 0x10_0000
    ensures n[d][v / 0x400].page < 0x10_0000 && k == SetWord(n, n[d][v / 0x400].page, v % 0x400, ZERO)
    ensures Flat(n, d, v) == n[n[d][v / 0x400].page][v % 0x400] && Flat(n, d, v).page < 0x10_0000
    ensures o'' == if Flat(n, d, v).Allocated() then o' - {Flat(n, d, v).page} else o'
    ensures Flat(n, d, v).Allocated() ==> Flat(n, d, v).page in o'
    ensures Owned(k, o'') && Tidy(k, o'') && Freed(m, o, k, o'', d, lo, v + 1, end)
  {
    DirectoryKept(m, o, n, d, v / 0x400);
    assert IsPage(n[d]) && IsPage(n[n[d][v / 0x400].page]);
    k, o'' := FreeOne(m, o, n, o', d, lo, v);
  }

  lemma FreedEnd(m: Memory, o: Owners, n: Memory, o': Owners, d: nat, lo: nat, v: nat, end: nat)
    requires Freed(m, o, n, o', d, lo, v, end)
    ensures IsMemory(m) && IsMemory(n) && FreeDone(m, o, n, o', d, lo, v)
  {
  }

  // Freeing a block undoes its allocation: every translation is what it was before, and what
  // is left of the new blocks are tables.
  lemma FreeUndoesBlock(m: Memory, o: Owners, n: Memory, o': Owners, k: Memory, o'': Owners, d: nat, lo: nat,
                        hi: nat, flags: Flags)
    requires IsMemory(m) && IsMemory(n) && IsMemory(k)
    requires Owned(m, o) && IsDirectory(o, d)
    requires BlockDone(m, o, n, o', d, lo, hi, flags) && FreeDone(n, o', k, o'', d, lo, hi)
    ensures forall e, v :: IsDirectory(o, e) && 0 <= v < 0x10_0000 ==> Flat(k, e, v) == Flat(m, e, v)
    ensures forall p :: p in o ==> p in o'' && o''[p] == o[p]
    ensures forall p :: p in o && o[p].HoldsData() && 0 <= p < 0x10_0000 ==> k[p] == m[p]
  {
    forall p | p in o ensures p in o'' {
      BlankOwnsNothing(m, o, d, lo, hi, p);
    }
  }

  // ---- finding the end of a block ----

  // The first closing mark from `v` on, as far as there are tables.
  function Scan(m: Memory, d: nat, v: nat): (c: Option<nat>)
    requires IsMemory(m) && d < 0x10_0000
    ensures c.Some? ==> v <= c.value < 0x10_0000 && forall u :: v <= u <= c.value ==> m[d][u / 0x400].Allocated()
    decreases 0x10_0000 - v
  {
    if v >= 0x10_0000 || !m[d][v / 0x400].Allocated() then None
    else if Flat(m, d, v).Closing() then Some(v)
    else Scan(m, d, v + 1)
  }

  // It ends at `c` exactly if `c` has the first mark from `v` on and there are tables up to it.
  lemma {:induction false} ScanIff(m: Memory, d: nat, v: nat, c: nat)
    requires IsMemory(m) && d < 0x10_0000
    ensures Scan(m, d, v) == Some(c) <==>
      && v <= c < 0x10_0000 && Flat(m, d, c).Closing()
      && forall u :: v <= u <= c ==> m[d][u / 0x400].Allocated() && (Flat(m, d, u).Closing() ==> u == c)
    decreases 0x10_0000 - v
  {
    if v < 0x10_0000 && m[d][v / 0x400].Allocated() && !Flat(m, d, v).Closing() {
      ScanIff(m, d, v + 1, c);
    }
  }

  // One entry of the scan.
  lemma ScanAt(m: Memory, d: nat, t: nat, r: nat)
    requires IsMemory(m) && d < 0x10_0000 && t < 0x400 && r < 0x400 && m[d][t].Allocated()
    ensures m[d][t].page < 0x10_0000
    ensures
      var v := t * 0x400 + r;
      Scan(m, d, v) == if m[m[d][t].page][r].Closing() then Some(v) else Scan(m, d, v + 1)
  {
    assert IsPage(m[d]) && (t * 0x400 + r) / 0x400 == t && (t * 0x400 + r) % 0x400 == r;
  }

  lemma ScanEnds(m: Memory, d: nat, v: nat)
    requires IsMemory(m) && d < 0x10_0000 && v >= 0x10_0000
    ensures Scan(m, d, v).None?
  {
  }

  lemma ScanStops(m: Memory, d: nat, t: nat, r: nat)
    requires IsMemory(m) && d < 0x10_0000 && t < 0x400 && r < 0x400 && !m[d][t].Allocated()
    ensures Scan(m, d, t * 0x400 + r).None?
  {
    assert (t * 0x400 + r) / 0x400 == t;
  }

  // A scan that ends has only seen tables that are there.
  lemma ScannedTables(m: Memory, d: nat, v: nat, count: nat)
    requires IsMemory(m) && d < 0x10_0000 && count > 0 && Scan(m, d, v) == Some(v + count - 1)
    ensures v + count <= 0x10_0000 && EndPage(v, count) == v + count
    ensures Complete(m, d, v / 0x400, EndTable(v, count))
  {
    forall t | v / 0x400 <= t < EndTable(v, count) ensures m[d][t].Allocated() {
      var u := if t == v / 0x400 then v else t * 0x400;
      assert v <= u <= v + count - 1 && u / 0x400 == t;
    }
  }

  // A block: entries with physical blocks of their own, of which only the last is marked.
  ghost predicate IsBlock(m: Memory, d: nat, lo: nat, hi: nat)
    requires IsMemory(m) && d < 0x10_0000
  {
    lo < hi <= 0x10_0000
    && forall v :: lo <= v < hi ==> Flat(m, d, v).Allocated() && (Flat(m, d, v).Closing() <==> v == hi - 1)
  }

  lemma {:induction false} ScanFindsEnd(m: Memory, d: nat, lo: nat, v: nat, hi: nat)
    requires IsMemory(m) && d < 0x10_0000 && IsBlock(m, d, lo, hi) && lo <= v < hi
    ensures Scan(m, d, v) == Some(hi - 1)
    decreases hi - v
  {
    assert Flat(m, d, v).Allocated();
    if v < hi - 1 {
      ScanFindsEnd(m, d, lo, v + 1, hi);
    }
  }

  lemma BlockDoneIsBlock(m: Memory, o: Owners, n: Memory, o': Owners, d: nat, lo: nat, hi: nat, flags: Flags)
    requires IsMemory(m) && IsMemory(n) && BlockDone(m, o, n, o', d, lo, hi, flags)
    ensures IsBlock(n, d, lo, hi)
  {
  }

  // A block stays one as long as its translations stay.
  lemma BlockStays(m: Memory, o: Owners, n: Memory, o': Owners, d: nat, lo: nat, hi: nat, e: nat, from: int, to: int)
    requires IsMemory(m) && IsMemory(n) && IsDirectory(o, d) && IsBlock(m, d, lo, hi)
    requires SameBut(m, o, n, o', e, from, to) && (e != d || to <= lo || hi <= from)
    ensures IsBlock(n, d, lo, hi)
  {
  }

  // ---- the check before an allocation at a given page ----

  // What is left of the pages to check after table `t`, from entry `r` on: it stops at a busy one.
  function CheckLeft(m: Memory, d: nat, t: nat, r: nat, left: nat): (rest: nat)
    requires IsMemory(m) && d < 0x10_0000 && t < 0x400 && r <= 0x400
    ensures rest <= left
    decreases 0x400 - r
  {
    if left == 0 || r == 0x400 || Flat(m, d, t * 0x400 + r).Busy() then left
    else CheckLeft(m, d, t, r + 1, left - 1)
  }

  // The tables that the check creates on its way; it goes on after a busy page.
  function CheckTables(m: Memory, d: nat, t: nat, r: nat, left: nat): nat
    requires IsMemory(m) && d < 0x10_0000 && r <= 0x400
    decreases 0x400 - t
  {
    if left == 0 || t >= 0x400 then 0
    else (if m[d][t].Allocated() then 0 else 1) + CheckTables(m, d, t + 1, 0, CheckLeft(m, d, t, r, left))
  }

  function TablesToCheck(m: Memory, d: nat, lo: nat, count: nat): nat
    requires IsMemory(m) && d < 0x10_0000
  {
    CheckTables(m, d, lo / 0x400, lo % 0x400, count)
  }

  lemma {:induction false} CheckLeftSame(m: Memory, n: Memory, d: nat, t: nat, r: nat, left: nat)
    requires IsMemory(m) && IsMemory(n) && d < 0x10_0000 && t < 0x400 && r <= 0x400
    requires forall v :: 0 <= v < 0x10_0000 ==> Flat(m, d, v) == Flat(n, d, v)
    ensures CheckLeft(m, d, t, r, left) == CheckLeft(n, d, t, r, left)
    decreases 0x400 - r
  {
    if left > 0 && r < 0x400 {
      CheckLeftSame(m, n, d, t, r + 1, left - 1);
    }
  }

  // A missing table is blank, so it uses up all it can of what is left.
  lemma {:induction false} CheckLeftMissing(m: Memory, d: nat, t: nat, r: nat, left: nat)
    requires IsMemory(m) && d < 0x10_0000 && t < 0x400 && r <= 0x400 && !m[d][t].Allocated()
    ensures CheckLeft(m, d, t, r, left) == if left <= 0x400 - r then 0 else left - (0x400 - r)
    decreases 0x400 - r
  {
    if left > 0 && r < 0x400 {
      assert (t * 0x400 + r) / 0x400 == t;
      CheckLeftMissing(m, d, t, r + 1, left - 1);
    }
  }

  // So a check of no more pages than one table has creates at most two.
  lemma {:induction false} CheckCreatesFew(m: Memory, d: nat, t: nat, r: nat, left: nat)
    requires IsMemory(m) && d < 0x10_0000 && r <= 0x400 && left <= 0x400
    ensures CheckTables(m, d, t, r, left) <= if r == 0 then 1 else 2
    decreases 0x400 - t
  {
    if left > 0 && t < 0x400 {
      CheckCreatesFew(m, d, t + 1, 0, CheckLeft(m, d, t, r, left));
      if !m[d][t].Allocated() {
        CheckLeftMissing(m, d, t, r, left);
      }
    }
  }

  // The state of the check: table `t` is next.  While `free` holds it stands at entry `r`.
  ghost predicate Check(m: Memory, o: Owners, n: Memory, o': Owners, d: nat, lo: nat, count: nat,
                        t: nat, r: nat, left: nat, free: bool) {
    && IsMemory(m) && IsMemory(n) && IsDirectory(o, d) && IsDirectory(o', d) && t <= 0x400
    && Grows(m, o, n, o', d, 0, 0) && TablesBut(m, o, n, d, lo / 0x400, t)
    && r <= 0x400 && left <= count && lo / 0x400 <= t
    && (free ==> left > 0 ==> t * 0x400 + r == lo + (count - left) && (t == 0x400 ==> r == 0))
    && (free ==> (forall v :: lo <= v < lo + (count - left) ==> v < 0x10_0000 && !Flat(m, d, v).Busy())
                 && Complete(n, d, lo / 0x400, t))
    && (!free ==> !RangeFree(m, d, lo, lo + count))
  }

  lemma CheckStart(m: Memory, o: Owners, d: nat, lo: nat, count: nat)
    requires IsMemory(m) && IsDirectory(o, d) && lo < 0x10_0000
    ensures Check(m, o, m, o, d, lo, count, lo / 0x400, lo - lo / 0x400 * 0x400, count, true)
  {
  }

  // Table `t` has been checked; `stop` is the entry where the inner loop ended.
  lemma CheckStep(m: Memory, o: Owners, n: Memory, o': Owners, k: Memory, o'': Owners, d: nat, lo: nat, count: nat,
                  t: nat, r: nat, left: nat, free: bool, stop: nat, rest: nat, busy: bool)
    requires Check(m, o, n, o', d, lo, count, t, r, left, free) && t < 0x400 && left > 0
    requires IsMemory(k) && IsDirectory(o'', d) && k[d][t].Allocated()
    requires Grows(n, o', k, o'', d, 0, 0) && TablesBut(n, o', k, d, t, t + 1)
    requires r <= stop <= 0x400 && rest + (stop - r) == left && (busy || rest == 0 || stop == 0x400)
    requires forall v :: t * 0x400 + r <= v < t * 0x400 + stop ==> !Flat(k, d, v).Busy()
    requires busy ==> stop < 0x400 && rest > 0 && Flat(k, d, t * 0x400 + stop).Busy()
    ensures free && !busy ==> forall v :: lo <= v < lo + (count - rest) ==> !Flat(m, d, v).Busy()
    ensures Check(m, o, k, o'', d, lo, count, t + 1, 0, rest, free && !busy)
    ensures free && !busy && rest == 0 ==> t * 0x400 + stop == lo + count && RangeFree(m, d, lo, lo + count)
  {
    GrowsTransitive(m, o, n, o', k, o'', d);
    TablesTransitive(m, o, n, o', k, d, lo / 0x400, t);
    if free {
      CompleteExtends(n, o', k, d, lo / 0x400, t);
      if busy {
        var v := t * 0x400 + stop;
        assert lo <= v < lo + count;
        assert Flat(m, d, v) == Flat(k, d, v);
      } else {
        forall v | lo <= v < lo + (count - rest) ensures v < 0x10_0000 && !Flat(m, d, v).Busy() {
          if v >= t * 0x400 + r {
            assert Flat(m, d, v) == Flat(k, d, v);
          }
        }
      }
    }
  }

  lemma NoRoom(m: Memory, d: nat, lo: nat, count: nat)
    requires IsMemory(m) && d < 0x10_0000 && lo >= 0x10_0000 && count > 0
    ensures !RangeFree(m, d, lo, lo + count)
  {
  }

  // What is to pay for table `t`.
  lemma CheckCost(m: Memory, o: Owners, n: Memory, o': Owners, d: nat, lo: nat, count: nat, t: nat, r: nat,
                  left: nat, free: bool)
    requires Check(m, o, n, o', d, lo, count, t, r, left, free) && t < 0x400 && left > 0
    ensures IsMemory(m) && d < 0x10_0000 && r <= 0x400 && m[d][t] == n[d][t]
    ensures CheckTables(m, d, t, r, left)
      == (if n[d][t].Allocated() then 0 else 1) + CheckTables(m, d, t + 1, 0, CheckLeft(m, d, t, r, left))
  {
  }

  lemma CheckSpent(m: Memory, o: Owners, n: Memory, o': Owners, k: Memory, o'': Owners,
                   d: nat, lo: nat, count: nat, t: nat, r: nat, left: nat, free: bool)
    requires Check(m, o, n, o', d, lo, count, t, r, left, free) && t < 0x400
    requires IsMemory(k) && Grows(n, o', k, o'', d, 0, 0)
    ensures IsMemory(m) && d < 0x10_0000 && r <= 0x400
    ensures CheckLeft(k, d, t, r, left) == CheckLeft(m, d, t, r, left)
  {
    CheckLeftSame(m, k, d, t, r, left);
  }

  lemma CheckEnd(m: Memory, o: Owners, n: Memory, o': Owners, d: nat, lo: nat, count: nat, t: nat, stop: nat,
                 free: bool)
    requires count > 0 && t < 0x400 && Check(m, o, n, o', d, lo, count, t + 1, 0, 0, free)
    requires free ==> t * 0x400 + stop == lo + count && 0 < stop <= 0x400
    ensures IsMemory(m) && IsMemory(n) && d < 0x10_0000 && Grows(m, o, n, o', d, 0, 0)
    ensures !free ==> !RangeFree(m, d, lo, lo + count)
    ensures free ==> RangeFree(m, d, lo, lo + count)
    ensures TablesBut(m, o, n, d, 0, 0x400)
    ensures free ==> MissingTables(n, d, lo / 0x400, EndTable(lo, count)) == 0
  {
    TablesWithin(m, o, n, d, lo / 0x400, t + 1);
    if free {
      assert EndTable(lo, count) == t + 1;
      NoneMissing(n, d, lo / 0x400, t + 1);
    }
  }

  lemma {:induction false} NoneMissing(m: Memory, d: nat, lo: nat, hi: nat)
    requires IsMemory(m) && d < 0x10_0000 && Complete(m, d, lo, hi)
    ensures MissingTables(m, d, lo, hi) == 0
    decreases hi - lo
  {
    if lo < hi {
      NoneMissing(m, d, lo + 1, hi);
    }
  }

  lemma CheckFails(m: Memory, o: Owners, n: Memory, o': Owners, d: nat, lo: nat, count: nat, r: nat, left: nat,
                   free: bool)
    requires Check(m, o, n, o', d, lo, count, 0x400, r, left, free) && left > 0
    ensures IsMemory(m) && IsMemory(n) && d < 0x10_0000 && Grows(m, o, n, o', d, 0, 0)
    ensures TablesBut(m, o, n, d, 0, 0x400)
    ensures !RangeFree(m, d, lo, lo + count)
  {
    TablesWithin(m, o, n, d, lo / 0x400, 0x400);
  }

  // ---- filling entries of one table ----

  ghost predicate Filled(m: Memory, o: Owners, n: Memory, o': Owners, d: nat, lo: nat, v: nat, end: nat,
                         flags: Flags, keep: bool) {
    && IsMemory(m) && IsMemory(n) && IsDirectory(o, d) && IsDirectory(o', d)
    && AllocDone(m, o, n, o', d, lo, v, flags) && TablesBut(m, o, n, d, 0, 0)
    && (keep || NoneAllocated(n, d, v, end))
  }

  lemma FilledStart(m: Memory, o: Owners, d: nat, lo: nat, end: nat, flags: Flags, keep: bool)
    requires IsMemory(m) && IsDirectory(o, d) && (keep || NoneAllocated(m, d, lo, end))
    ensures Filled(m, o, m, o, d, lo, lo, end, flags, keep)
  {
  }

  lemma FilledHere(m: Memory, o: Owners, n: Memory, o': Owners, d: nat, t: nat, lo: nat, v: nat, end: nat,
                   flags: Flags, keep: bool)
    requires Filled(m, o, n, o', d, lo, v, end, flags, keep)
    requires t < 0x400 && v / 0x400 == t && v < end && m[d][t].Allocated()
    ensures n[d][t] == m[d][t] && n[d][t].page < 0x10_0000
    ensures Flat(n, d, v) == n[n[d][t].page][v % 0x400]
    ensures !keep ==> !Flat(n, d, v).Allocated()
  {
    DirectoryKept(m, o, n, d, t);
    assert IsPage(n[d]);
  }

  lemma FilledStep(m: Memory, o: Owners, n: Memory, o': Owners, k: Memory, o'': Owners,
                   d: nat, lo: nat, v: nat, end: nat, flags: Flags, keep: bool)
    requires Filled(m, o, n, o', d, lo, v, end, flags, keep)
    requires IsMemory(k) && IsDirectory(o'', d) && TablesBut(n, o', k, d, 0, 0)
    requires AllocDone(n, o', k, o'', d, v, v + 1, flags)
    ensures Filled(m, o, k, o'', d, lo, v + 1, end, flags, keep)
  {
    AllocChain(m, o, n, o', k, o'', d, lo, v, v + 1, flags);
    AllocKeepsDirectories(m, o, n, o', d, lo, v, flags);
    TablesKept(m, o, n, o', k, d, 0, 0, 0);
    if !keep {
      forall u | v + 1 <= u < end && u < 0x10_0000 ensures !Flat(k, d, u).Allocated() {
        assert Flat(k, d, u) == Flat(n, d, u);
      }
    }
  }

  lemma FilledKeep(m: Memory, o: Owners, n: Memory, o': Owners, d: nat, lo: nat, v: nat, end: nat, flags: Flags,
                   keep: bool)
    requires Filled(m, o, n, o', d, lo, v, end, flags, keep) && keep && lo <= v < 0x10_0000
    requires Flat(n, d, v).Allocated()
    ensures Filled(m, o, n, o', d, lo, v + 1, end, flags, keep)
  {
    assert Flat(m, d, v) == Flat(n, d, v);
  }

  lemma FilledEnd(m: Memory, o: Owners, n: Memory, o': Owners, d: nat, lo: nat, v: nat, end: nat, flags: Flags,
                  keep: bool)
    requires Filled(m, o, n, o', d, lo, v, end, flags, keep)
    ensures AllocDone(m, o, n, o', d, lo, v, flags) && TablesBut(m, o, n, d, 0, 0)
  {
  }

  lemma FillAhead(s: FillTask, n: Memory, o': Owners, t: nat, done: nat)
    requires Fill(s, n, o', t, done) && NoneAllocated(s.m, s.d, s.lo, s.lo + s.count)
    ensures NoneAllocated(n, s.d, s.lo + done, s.lo + s.count)
  {
    forall u | s.lo + done <= u < s.lo + s.count && u < 0x10_0000 ensures !Flat(n, s.d, u).Allocated() {
      assert Flat(n, s.d, u) == Flat(s.m, s.d, u);
    }
  }
}
