/**
 Two-level page tables in physical memory (library/vmm/vmm.hxx).

 Memory is a sequence of 0x1000-byte pages of 0x400 words.  A word has the layout of a directory
 or table entry: 12 flag bits and a 20-bit page index.  `Flat` is what the two levels mean:
 one entry per virtual page.
 */
module Paging {

  // The low 12 bits of an entry: the nine that the processor defines or reserves, then the
  // three that the kernel uses for itself.
  datatype Flags = Flags(attributes: bv9, isBusy: bool, isClosing: bool, isAllocated: bool) {
    function Or(other: Flags): Flags {
      Flags(attributes | other.attributes, isBusy || other.isBusy, isClosing || other.isClosing,
            isAllocated || other.isAllocated)
    }

    // What callers pass: the block marks are for the manager to set.
    predicate Plain() {
      !isClosing && !isAllocated
    }
  }

  const NO_FLAGS: Flags := Flags(0, false, false, false)
  // PRESENT | READ_WRITE
  const PRESENT_WRITABLE: Flags := Flags(3, false, false, false)

  datatype Word = Word(flags: Flags, page: nat) {
    predicate Busy() { flags.isBusy }
    predicate Closing() { flags.isClosing }
    predicate Allocated() { flags.isAllocated }
  }

  const ZERO: Word := Word(NO_FLAGS, 0)

  type Memory = seq<seq<Word>>

  ghost predicate IsMemory(m: Memory) {
    && |m| == 0x10_0000
    && forall p :: 0 <= p < |m| ==> IsPage(m[p])
  }

  ghost predicate IsPage(words: seq<Word>) {
    |words| == 0x400 && forall i :: 0 <= i < |words| ==> words[i].page < 0x10_0000
  }

  function ZeroPage(): (p: seq<Word>)
    ensures IsPage(p) && forall i :: 0 <= i < |p| ==> p[i] == ZERO
  {
    seq(0x400, _ => ZERO)
  }

  // The table entry for virtual page `v`; nothing where the directory has no table.
  function Flat(m: Memory, d: nat, v: nat): Word
    requires IsMemory(m) && d < 0x10_0000 && v < 0x10_0000
  {
    var entry := m[d][v / 0x400];
    if entry.Allocated() then m[entry.page][v % 0x400] else ZERO
  }

  function SetWord(m: Memory, p: nat, i: nat, w: Word): (r: Memory)
    requires IsMemory(m) && p < 0x10_0000 && i < 0x400 && w.page < 0x10_0000
    ensures IsMemory(r)
  {
    m[p := m[p][i := w]]
  }

  function SetPage(m: Memory, p: nat, words: seq<Word>): (r: Memory)
    requires IsMemory(m) && p < 0x10_0000 && IsPage(words)
    ensures IsMemory(r)
  {
    m[p := words]
  }

  // ---- ownership ----

  // What a block of physical memory is in use for.  A foreign block has been handed out to somebody
  // else than the virtual memory manager, which leaves it alone.
  datatype Owner = DirectoryAt(d: int) | TableAt(d: int, t: int) | PageAt(d: int, v: int) | Foreign(p: int) {
    // No paging structure, but contents that somebody relies on.
    predicate HoldsData() {
      PageAt? || Foreign?
    }
  }

  // The owner of each live block, by the block's first page.
  type Owners = map<int, Owner>

  ghost predicate IsDirectory(owners: Owners, d: int) {
    0 <= d < 0x10_0000 && d in owners && owners[d] == DirectoryAt(d)
  }

  predicate IsForeign(owners: Owners, p: int) {
    p in owners && owners[p].Foreign?
  }

  // `o` uses the block at page `p`.
  ghost predicate Uses(m: Memory, owners: Owners, o: Owner, p: int)
    requires IsMemory(m)
  {
    match o
    case DirectoryAt(d) => d == p && IsDirectory(owners, d)
    case TableAt(d, t) => IsDirectory(owners, d) && 0 <= t < 0x400 && m[d][t].Allocated() && m[d][t].page == p
    case PageAt(d, v) =>
      IsDirectory(owners, d) && 0 <= v < 0x10_0000 && Flat(m, d, v).Allocated() && Flat(m, d, v).page == p
    case Foreign(q) => q == p && q in owners && owners[q] == Foreign(q)
  }

  // Every recorded owner uses its block, and every allocated table and page is recorded as the
  // owner of the block it points to.  So no two of them share a block.
  ghost predicate Owned(m: Memory, owners: Owners)
    requires IsMemory(m)
  {
    && (forall p :: p in owners ==> 0 <= p < 0x10_0000 && Uses(m, owners, owners[p], p))
    && (forall d, t :: IsDirectory(owners, d) && 0 <= t < 0x400 && m[d][t].Allocated() ==>
          m[d][t].page in owners && owners[m[d][t].page] == TableAt(d, t))
    && (forall d, v :: IsDirectory(owners, d) && 0 <= v < 0x10_0000 && Flat(m, d, v).Allocated() ==>
          Flat(m, d, v).page in owners && owners[Flat(m, d, v).page] == PageAt(d, v))
  }

  // An entry that is not Busy is blank; Allocated entries are Busy.
  ghost predicate Tidy(m: Memory, owners: Owners)
    requires IsMemory(m)
  {
    forall d, v :: IsDirectory(owners, d) && 0 <= v < 0x10_0000 && !Flat(m, d, v).Busy() ==> Flat(m, d, v) == ZERO
  }

  // The manager has the same directories, and others have the same blocks.
  ghost predicate SameDirectories(owners: Owners, newOwners: Owners) {
    && (forall d :: IsDirectory(owners, d) <==> IsDirectory(newOwners, d))
    && (forall p :: IsForeign(owners, p) <==> IsForeign(newOwners, p))
  }

  // All translations but those of directory `d` in [lo, hi) are the same, and so are the
  // contents of all data pages that stay in use and of all pages that nobody owns.
  ghost predicate SameBut(m: Memory, owners: Owners, n: Memory, newOwners: Owners, d: nat, lo: int, hi: int)
    requires IsMemory(m) && IsMemory(n)
  {
    && SameDirectories(owners, newOwners)
    && (forall e, v :: IsDirectory(owners, e) && 0 <= v < 0x10_0000 && !(e == d && lo <= v < hi) ==>
          Flat(n, e, v) == Flat(m, e, v))
    && (forall p :: p in owners && owners[p].HoldsData() && 0 <= p < 0x10_0000 ==> n[p] == m[p])
    && (forall p :: 0 <= p < 0x10_0000 && p !in owners && p !in newOwners ==> n[p] == m[p])
  }

  lemma SameButTransitive(m: Memory, o: Owners, n: Memory, o': Owners, k: Memory, o'': Owners,
                          d: nat, lo: int, hi: int, lo': int, hi': int)
    requires IsMemory(m) && IsMemory(n) && IsMemory(k)
    requires SameBut(m, o, n, o', d, lo, hi) && SameBut(n, o', k, o'', d, lo', hi')
    requires forall p :: p in o && o[p].HoldsData() ==> p in o' && o'[p] == o[p]
    requires forall p :: p in o' ==> p in o''
    ensures SameBut(m, o, k, o'', d, if lo <= lo' then lo else lo', if hi >= hi' then hi else hi')
  {
  }

  // ---- single steps ----

  // A fresh block becomes a directory.
  lemma DirectoryStep(m: Memory, owners: Owners, p: nat)
    requires IsMemory(m) && Owned(m, owners) && Tidy(m, owners)
    requires p < 0x10_0000 && p !in owners
    ensures
      var n, newOwners := SetPage(m, p, ZeroPage()), owners[p := DirectoryAt(p)];
      && Owned(n, newOwners) && Tidy(n, newOwners)
      && (forall e, v :: IsDirectory(owners, e) && 0 <= v < 0x10_0000 ==> Flat(n, e, v) == Flat(m, e, v))
      && (forall v :: 0 <= v < 0x10_0000 ==> Flat(n, p, v) == ZERO)
      && (forall e :: IsDirectory(newOwners, e) <==> e == p || IsDirectory(owners, e))
      && (forall q :: q in owners && owners[q].HoldsData() ==> n[q] == m[q])
  {
    var n, newOwners := SetPage(m, p, ZeroPage()), owners[p := DirectoryAt(p)];
    forall e, v | IsDirectory(owners, e) && 0 <= v < 0x10_0000 ensures Flat(n, e, v) == Flat(m, e, v) {
      assert m[e][v / 0x400].Allocated() ==> m[e][v / 0x400].page in owners;
    }
    forall v | 0 <= v < 0x10_0000 ensures Flat(n, p, v) == ZERO {
    }
  }

  // A fresh block becomes table `t` of directory `d`: no translation changes.
  lemma TableStep(m: Memory, owners: Owners, d: nat, t: nat, p: nat, flags: Flags)
    requires IsMemory(m) && Owned(m, owners) && Tidy(m, owners)
    requires IsDirectory(owners, d) && t < 0x400 && !m[d][t].Allocated()
    requires p < 0x10_0000 && p !in owners && flags.isAllocated
    ensures
      var n, newOwners := SetWord(SetPage(m, p, ZeroPage()), d, t, Word(flags, p)), owners[p := TableAt(d, t)];
      && Owned(n, newOwners) && Tidy(n, newOwners)
      && SameBut(m, owners, n, newOwners, d, 0, 0)
  {
    hide Flat, ZeroPage;
    TableChangesNothing(m, owners, d, t, p, flags);
  }

  lemma TableChangesNothing(m: Memory, owners: Owners, d: nat, t: nat, p: nat, flags: Flags)
    requires IsMemory(m) && Owned(m, owners) && Tidy(m, owners)
    requires IsDirectory(owners, d) && t < 0x400 && !m[d][t].Allocated()
    requires p < 0x10_0000 && p !in owners && flags.isAllocated
    ensures
      var n := SetWord(SetPage(m, p, ZeroPage()), d, t, Word(flags, p));
      forall e, v :: IsDirectory(owners, e) && 0 <= v < 0x10_0000 ==> Flat(n, e, v) == Flat(m, e, v)
  {
    var n := SetWord(SetPage(m, p, ZeroPage()), d, t, Word(flags, p));
    forall e, v | IsDirectory(owners, e) && 0 <= v < 0x10_0000 ensures Flat(n, e, v) == Flat(m, e, v) {
      assert m[e][v / 0x400].Allocated() ==> m[e][v / 0x400].page in owners;
    }
  }

  // Rewriting one table entry changes one translation of one directory.
  lemma EntryStep(m: Memory, owners: Owners, d: nat, v: nat, w: Word)
    requires IsMemory(m) && Owned(m, owners)
    requires IsDirectory(owners, d) && v < 0x10_0000 && m[d][v / 0x400].Allocated() && w.page < 0x10_0000
    ensures
      var n := SetWord(m, m[d][v / 0x400].page, v % 0x400, w);
      && (forall e, t :: IsDirectory(owners, e) && 0 <= t < 0x400 ==> n[e][t] == m[e][t])
      && (forall e, u :: IsDirectory(owners, e) && 0 <= u < 0x10_0000 ==>
            Flat(n, e, u) == if e == d && u == v then w else Flat(m, e, u))
      && (forall q :: q in owners && !owners[q].TableAt? ==> n[q] == m[q])
      && (forall q :: 0 <= q < 0x10_0000 && q !in owners ==> n[q] == m[q])
  {
    var p := m[d][v / 0x400].page;
    var n := SetWord(m, p, v % 0x400, w);
    assert owners[p] == TableAt(d, v / 0x400);
    forall e, u | IsDirectory(owners, e) && 0 <= u < 0x10_0000
      ensures Flat(n, e, u) == if e == d && u == v then w else Flat(m, e, u)
    {
      if m[e][u / 0x400].Allocated() {
        assert owners[m[e][u / 0x400].page] == TableAt(e, u / 0x400);
        assert u == u / 0x400 * 0x400 + u % 0x400 && v == v / 0x400 * 0x400 + v % 0x400;
      }
    }
  }

  // What EntryStep says about the memory afterwards.
  ghost predicate EntryChanged(m: Memory, owners: Owners, n: Memory, d: nat, v: nat, w: Word)
    requires IsMemory(m) && IsMemory(n)
  {
    && (forall e, t :: IsDirectory(owners, e) && 0 <= t < 0x400 ==> n[e][t] == m[e][t])
    && (forall e, u :: IsDirectory(owners, e) && 0 <= u < 0x10_0000 ==>
          Flat(n, e, u) == if e == d && u == v then w else Flat(m, e, u))
    && (forall q :: q in owners && !owners[q].TableAt? && 0 <= q < 0x10_0000 ==> n[q] == m[q])
    && (forall q :: 0 <= q < 0x10_0000 && q !in owners ==> n[q] == m[q])
  }

  // The entry takes a fresh block.
  lemma NewPageStep(m: Memory, owners: Owners, d: nat, v: nat, w: Word)
    requires IsMemory(m) && Owned(m, owners) && Tidy(m, owners)
    requires IsDirectory(owners, d) && v < 0x10_0000 && m[d][v / 0x400].Allocated() && w.page < 0x10_0000
    requires !Flat(m, d, v).Allocated() && w.Allocated() && w.Busy() && w.page !in owners
    ensures
      var n, newOwners := SetWord(m, m[d][v / 0x400].page, v % 0x400, w), owners[w.page := PageAt(d, v)];
      Owned(n, newOwners) && Tidy(n, newOwners) && SameBut(m, owners, n, newOwners, d, v, v + 1)
  {
    hide Owned, Tidy, SameBut, Flat;
    EntryStep(m, owners, d, v, w);
    var n := SetWord(m, m[d][v / 0x400].page, v % 0x400, w);
    NewPageOwned(m, owners, n, d, v, w);
    NewPageSame(m, owners, n, d, v, w);
  }

  lemma NewPageOwned(m: Memory, owners: Owners, n: Memory, d: nat, v: nat, w: Word)
    requires IsMemory(m) && IsMemory(n) && Owned(m, owners) && EntryChanged(m, owners, n, d, v, w)
    requires IsDirectory(owners, d) && v < 0x10_0000
    requires !Flat(m, d, v).Allocated() && w.Allocated() && w.page < 0x10_0000 && w.page !in owners
    ensures Owned(n, owners[w.page := PageAt(d, v)])
  {
    hide Flat, Uses;
    var newOwners := owners[w.page := PageAt(d, v)];
    assert forall e :: IsDirectory(newOwners, e) <==> IsDirectory(owners, e);
    forall p | p in newOwners ensures 0 <= p < 0x10_0000 && Uses(n, newOwners, newOwners[p], p) {
      if p == w.page {
        NewPageUses(m, owners, n, d, v, w);
      } else {
        assert Uses(m, owners, owners[p], p);
        UsesAnother(m, owners, owners[p], d, v, p);
        OldOwnerUses(m, owners, n, newOwners, d, v, w, p);
      }
    }
  }

  lemma NewPageUses(m: Memory, owners: Owners, n: Memory, d: nat, v: nat, w: Word)
    requires IsMemory(m) && IsMemory(n) && EntryChanged(m, owners, n, d, v, w)
    requires IsDirectory(owners, d) && v < 0x10_0000 && w.Allocated() && w.page !in owners
    ensures Uses(n, owners[w.page := PageAt(d, v)], PageAt(d, v), w.page)
  {
    hide Flat;
  }

  // Another owner goes on using its block, if it is not the old entry's.
  lemma OldOwnerUses(m: Memory, owners: Owners, n: Memory, newOwners: Owners, d: nat, v: nat, w: Word, p: int)
    requires IsMemory(m) && IsMemory(n) && EntryChanged(m, owners, n, d, v, w)
    requires p in owners && p in newOwners && newOwners[p] == owners[p] && Uses(m, owners, owners[p], p)
    requires forall e :: IsDirectory(newOwners, e) <==> IsDirectory(owners, e)
    requires owners[p] != PageAt(d, v)
    ensures Uses(n, newOwners, owners[p], p)
  {
    hide Flat;
  }

  lemma NewPageSame(m: Memory, owners: Owners, n: Memory, d: nat, v: nat, w: Word)
    requires IsMemory(m) && IsMemory(n) && Tidy(m, owners) && EntryChanged(m, owners, n, d, v, w)
    requires IsDirectory(owners, d) && v < 0x10_0000 && w.Busy() && w.page !in owners
    ensures
      var newOwners := owners[w.page := PageAt(d, v)];
      Tidy(n, newOwners) && SameBut(m, owners, n, newOwners, d, v, v + 1)
  {
    hide Flat, Owned, Uses;
    var newOwners := owners[w.page := PageAt(d, v)];
    assert SameDirectories(owners, newOwners);
  }

  // Neither the old nor the new entry owns a block.
  lemma MapStep(m: Memory, owners: Owners, d: nat, v: nat, w: Word)
    requires IsMemory(m) && Owned(m, owners) && Tidy(m, owners)
    requires IsDirectory(owners, d) && v < 0x10_0000 && m[d][v / 0x400].Allocated() && w.page < 0x10_0000
    requires !Flat(m, d, v).Allocated() && !w.Allocated() && w.Busy()
    ensures
      var n := SetWord(m, m[d][v / 0x400].page, v % 0x400, w);
      Owned(n, owners) && Tidy(n, owners) && SameBut(m, owners, n, owners, d, v, v + 1)
  {
    hide Owned, Tidy, SameBut, Flat;
    EntryStep(m, owners, d, v, w);
    var n := SetWord(m, m[d][v / 0x400].page, v % 0x400, w);
    MapOwned(m, owners, n, d, v, w);
    MapSame(m, owners, n, d, v, w);
  }

  lemma MapOwned(m: Memory, owners: Owners, n: Memory, d: nat, v: nat, w: Word)
    requires IsMemory(m) && IsMemory(n) && Owned(m, owners) && EntryChanged(m, owners, n, d, v, w)
    requires IsDirectory(owners, d) && v < 0x10_0000 && !Flat(m, d, v).Allocated() && !w.Allocated()
    ensures Owned(n, owners)
  {
    hide Flat, Uses;
    forall p | p in owners ensures 0 <= p < 0x10_0000 && Uses(n, owners, owners[p], p) {
      assert Uses(m, owners, owners[p], p);
      UsesAnother(m, owners, owners[p], d, v, p);
      OldOwnerUses(m, owners, n, owners, d, v, w, p);
    }
  }

  lemma UsesAnother(m: Memory, owners: Owners, o: Owner, d: nat, v: nat, p: int)
    requires IsMemory(m) && d < 0x10_0000 && v < 0x10_0000 && !Flat(m, d, v).Allocated() && Uses(m, owners, o, p)
    ensures o != PageAt(d, v)
  {
  }

  lemma MapSame(m: Memory, owners: Owners, n: Memory, d: nat, v: nat, w: Word)
    requires IsMemory(m) && IsMemory(n) && Tidy(m, owners) && EntryChanged(m, owners, n, d, v, w)
    requires IsDirectory(owners, d) && v < 0x10_0000 && (w.Busy() || w == ZERO)
    ensures Tidy(n, owners) && SameBut(m, owners, n, owners, d, v, v + 1)
  {
    hide Flat, Owned, Uses;
  }

  // An entry is blanked, and its block, if it has one, loses its owner.
  lemma ClearStep(m: Memory, owners: Owners, d: nat, v: nat)
    requires IsMemory(m) && Owned(m, owners) && Tidy(m, owners)
    requires IsDirectory(owners, d) && v < 0x10_0000 && m[d][v / 0x400].Allocated()
    ensures
      var n := SetWord(m, m[d][v / 0x400].page, v % 0x400, ZERO);
      var newOwners := if Flat(m, d, v).Allocated() then owners - {Flat(m, d, v).page} else owners;
      Owned(n, newOwners) && Tidy(n, newOwners) && SameBut(m, owners, n, newOwners, d, v, v + 1)
  {
    hide Owned, Tidy, SameBut, Flat;
    EntryStep(m, owners, d, v, ZERO);
    var n := SetWord(m, m[d][v / 0x400].page, v % 0x400, ZERO);
    if Flat(m, d, v).Allocated() {
      ClearOwned(m, owners, n, d, v);
      ClearSame(m, owners, n, d, v);
    } else {
      MapOwned(m, owners, n, d, v, ZERO);
      MapSame(m, owners, n, d, v, ZERO);
    }
  }

  lemma ClearOwned(m: Memory, owners: Owners, n: Memory, d: nat, v: nat)
    requires IsMemory(m) && IsMemory(n) && Owned(m, owners) && EntryChanged(m, owners, n, d, v, ZERO)
    requires IsDirectory(owners, d) && v < 0x10_0000 && Flat(m, d, v).Allocated()
    ensures Owned(n, owners - {Flat(m, d, v).page})
  {
    hide Flat, Uses;
    var q := Flat(m, d, v).page;
    var newOwners := owners - {q};
    assert owners[q] == PageAt(d, v);
    assert forall e :: IsDirectory(newOwners, e) <==> IsDirectory(owners, e);
    forall p | p in newOwners ensures 0 <= p < 0x10_0000 && Uses(n, newOwners, newOwners[p], p) {
      assert Uses(m, owners, owners[p], p);
      UsesOther(m, owners, owners[p], d, v, p);
      OldOwnerUses(m, owners, n, newOwners, d, v, ZERO, p);
    }
  }

  lemma UsesOther(m: Memory, owners: Owners, o: Owner, d: nat, v: nat, p: int)
    requires IsMemory(m) && d < 0x10_0000 && v < 0x10_0000 && Uses(m, owners, o, p) && p != Flat(m, d, v).page
    ensures o != PageAt(d, v)
  {
  }

  lemma ClearSame(m: Memory, owners: Owners, n: Memory, d: nat, v: nat)
    requires IsMemory(m) && IsMemory(n) && Owned(m, owners) && Tidy(m, owners)
    requires IsDirectory(owners, d) && v < 0x10_0000 && Flat(m, d, v).Allocated()
    requires EntryChanged(m, owners, n, d, v, ZERO)
    ensures
      var newOwners := owners - {Flat(m, d, v).page};
      Tidy(n, newOwners) && SameBut(m, owners, n, newOwners, d, v, v + 1)
  {
    hide Flat, Uses;
    var newOwners := owners - {Flat(m, d, v).page};
    assert owners[Flat(m, d, v).page] == PageAt(d, v);
    assert SameDirectories(owners, newOwners);
  }

  // The last entry of a block is marked.
  lemma CloseStep(m: Memory, owners: Owners, d: nat, v: nat, w: Word)
    requires IsMemory(m) && Owned(m, owners) && Tidy(m, owners)
    requires IsDirectory(owners, d) && v < 0x10_0000 && m[d][v / 0x400].Allocated()
    requires Flat(m, d, v).Allocated() && w == Flat(m, d, v).(flags := Flat(m, d, v).flags.(isClosing := true))
    requires Flat(m, d, v).Busy()
    ensures w.page < 0x10_0000
    ensures
      var n := SetWord(m, m[d][v / 0x400].page, v % 0x400, w);
      Owned(n, owners) && Tidy(n, owners) && SameBut(m, owners, n, owners, d, v, v + 1)
  {
    assert Flat(m, d, v) == m[m[d][v / 0x400].page][v % 0x400];
    EntryStep(m, owners, d, v, w);
  }

  // Writing to a data page changes no translation and no other page in use.
  lemma DataStep(m: Memory, owners: Owners, q: nat, words: seq<Word>)
    requires IsMemory(m) && Owned(m, owners) && Tidy(m, owners)
    requires q in owners && owners[q].HoldsData() && q < 0x10_0000 && IsPage(words)
    ensures
      var n := SetPage(m, q, words);
      && Owned(n, owners) && Tidy(n, owners)
      && (forall e, v :: IsDirectory(owners, e) && 0 <= v < 0x10_0000 ==> Flat(n, e, v) == Flat(m, e, v))
      && (forall e, t :: IsDirectory(owners, e) && 0 <= t < 0x400 ==> n[e][t] == m[e][t])
  {
    var n := SetPage(m, q, words);
    forall e, v | IsDirectory(owners, e) && 0 <= v < 0x10_0000 ensures Flat(n, e, v) == Flat(m, e, v) {
      assert m[e][v / 0x400].Allocated() ==> owners[m[e][v / 0x400].page] == TableAt(e, v / 0x400);
    }
  }

  // Mapping over an allocated page strands its block: nothing uses it any more.
  lemma MapOverAllocatedStrands(m: Memory, owners: Owners, d: nat, v: nat, w: Word, o: Owner)
    requires IsMemory(m) && Owned(m, owners)
    requires IsDirectory(owners, d) && v < 0x10_0000 && m[d][v / 0x400].Allocated() && w.page < 0x10_0000
    requires Flat(m, d, v).Allocated() && w.page != Flat(m, d, v).page
    ensures !Uses(SetWord(m, m[d][v / 0x400].page, v % 0x400, w), owners, o, Flat(m, d, v).page)
  {
    var q := Flat(m, d, v).page;
    EntryStep(m, owners, d, v, w);
    assert owners[q] == PageAt(d, v);
  }

  // So mapping one entry keeps the ownership exactly if the entry has no block, or is mapped to its own.
  lemma MapKeepsOwnershipIff(m: Memory, owners: Owners, d: nat, v: nat, physIndex: nat, flags: Flags)
    requires IsMemory(m) && Owned(m, owners) && Tidy(m, owners) && flags.Plain()
    requires IsDirectory(owners, d) && v < 0x10_0000 && m[d][v / 0x400].Allocated()
    ensures
      var w := MapWord(Flat(m, d, v), physIndex, flags);
      var n := SetWord(m, m[d][v / 0x400].page, v % 0x400, w);
      Owned(n, owners) <==> !Flat(m, d, v).Allocated() || w.page == Flat(m, d, v).page
  {
    hide Uses, Tidy;
    var w := MapWord(Flat(m, d, v), physIndex, flags);
    if !Flat(m, d, v).Allocated() {
      MapStep(m, owners, d, v, w);
    } else if w.page == Flat(m, d, v).page {
      RemapStep(m, owners, d, v, w);
    } else {
      MapOverAllocatedStrands(m, owners, d, v, w, owners[Flat(m, d, v).page]);
    }
  }

  // The marks of an entry change, but not its block.
  lemma RemapStep(m: Memory, owners: Owners, d: nat, v: nat, w: Word)
    requires IsMemory(m) && Owned(m, owners)
    requires IsDirectory(owners, d) && v < 0x10_0000 && m[d][v / 0x400].Allocated() && w.page < 0x10_0000
    requires Flat(m, d, v).Allocated() && w.Allocated() && w.page == Flat(m, d, v).page
    ensures Owned(SetWord(m, m[d][v / 0x400].page, v % 0x400, w), owners)
  {
    EntryStep(m, owners, d, v, w);
  }

  // Two owners never use the same block.
  lemma OwnersAreDistinct(m: Memory, owners: Owners, a: Owner, b: Owner, p: int)
    requires IsMemory(m) && Owned(m, owners)
    requires Uses(m, owners, a, p) && Uses(m, owners, b, p)
    ensures a == b && p in owners && owners[p] == a
  {
  }

  // ---- tables that are still missing ----

  function MissingTables(m: Memory, d: nat, lo: int, hi: int): nat
    requires IsMemory(m) && d < 0x10_0000 && 0 <= lo && hi <= 0x400
    decreases hi - lo
  {
    if lo >= hi then 0 else (if m[d][lo].Allocated() then 0 else 1) + MissingTables(m, d, lo + 1, hi)
  }

  // They are counted.
  ghost function Missing(m: Memory, d: nat, lo: int, hi: int): set<int>
    requires IsMemory(m) && d < 0x10_0000 && 0 <= lo && hi <= 0x400
  {
    set t: int | lo <= t < hi && !m[d][t].Allocated()
  }

  lemma MissingStep(m: Memory, d: nat, lo: int, hi: int)
    requires IsMemory(m) && d < 0x10_0000 && 0 <= lo && hi <= 0x400
    ensures lo >= hi ==> Missing(m, d, lo, hi) == {}
    ensures lo < hi ==>
      && lo !in Missing(m, d, lo + 1, hi)
      && Missing(m, d, lo, hi) == Missing(m, d, lo + 1, hi) + if m[d][lo].Allocated() then {} else {lo}
  {
  }

  lemma {:induction false} MissingTablesAre(m: Memory, d: nat, lo: int, hi: int)
    requires IsMemory(m) && d < 0x10_0000 && 0 <= lo && hi <= 0x400
    ensures MissingTables(m, d, lo, hi) == |Missing(m, d, lo, hi)|
    decreases hi - lo
  {
    hide Missing;
    MissingStep(m, d, lo, hi);
    if lo < hi {
      MissingTablesAre(m, d, lo + 1, hi);
    }
  }

  lemma {:induction false} MissingTablesSame(m: Memory, n: Memory, d: nat, lo: int, hi: int)
    requires IsMemory(m) && IsMemory(n) && d < 0x10_0000 && 0 <= lo && hi <= 0x400
    requires forall t :: lo <= t < hi ==> m[d][t] == n[d][t]
    ensures MissingTables(m, d, lo, hi) == MissingTables(n, d, lo, hi)
    decreases hi - lo
  {
    if lo < hi {
      MissingTablesSame(m, n, d, lo + 1, hi);
    }
  }

  // ---- what an operation leaves alone ----

  // No block loses its owner.
  ghost predicate Extends(owners: Owners, newOwners: Owners) {
    forall p :: p in owners ==> p in newOwners && newOwners[p] == owners[p]
  }

  // The flags of an entry that has just been given a block.
  function NewFlags(before: Flags, flags: Flags): Flags {
    before.(isAllocated := true).Or(flags)
  }

  // Directory entries change only in directory `d`, for tables in [lo, hi), and only by gaining a
  // table, with the given flags.
  ghost predicate TablesBut(m: Memory, owners: Owners, n: Memory, d: nat, lo: int, hi: int,
                            flags: Flags := PRESENT_WRITABLE)
    requires IsMemory(m) && IsMemory(n)
  {
    forall e, t :: IsDirectory(owners, e) && 0 <= t < 0x400 ==>
      n[e][t] == m[e][t] || (e == d && lo <= t < hi && Gained(m[e][t], n[e][t], flags))
  }

  // An entry that had no block has one; its flags are those it had and the given ones.
  predicate Gained(before: Word, after: Word, flags: Flags) {
    && !before.Allocated()
    && after.flags == Flags(before.flags.attributes | flags.attributes, before.Busy() || flags.isBusy,
                            before.Closing() || flags.isClosing, true)
  }

  // Every directory entry is blank, or stands for a table that is present and writable.
  ghost predicate TablesPresent(m: Memory, owners: Owners)
    requires IsMemory(m)
  {
    forall d, t :: IsDirectory(owners, d) && 0 <= t < 0x400 ==>
      m[d][t] == Word(Flags(0, false, false, false), 0) || m[d][t].flags == Flags(3, false, false, true)
  }

  // Tables that the manager makes for itself keep it so.
  lemma TablesStayPresent(m: Memory, o: Owners, n: Memory, o': Owners, d: nat, lo: int, hi: int)
    requires IsMemory(m) && IsMemory(n) && SameDirectories(o, o') && TablesBut(m, o, n, d, lo, hi)
    ensures TablesPresent(m, o) ==> TablesPresent(n, o')
  {
    if TablesPresent(m, o) {
      forall e, t | IsDirectory(o', e) && 0 <= t < 0x400
        ensures n[e][t] == Word(Flags(0, false, false, false), 0) || n[e][t].flags == Flags(3, false, false, true)
      {
        assert IsDirectory(o, e);
        if n[e][t] != m[e][t] {
          BlankGains(m[e][t], n[e][t], PRESENT_WRITABLE);
        }
      }
    }
  }

  lemma SameTablesPresent(m: Memory, n: Memory, owners: Owners)
    requires IsMemory(m) && IsMemory(n)
    requires forall d, t :: IsDirectory(owners, d) && 0 <= t < 0x400 ==> n[d][t] == m[d][t]
    ensures TablesPresent(m, owners) ==> TablesPresent(n, owners)
  {
  }

  // What a blank entry becomes that is given a block.
  lemma BlankGains(before: Word, after: Word, flags: Flags)
    requires before == ZERO && Gained(before, after, flags)
    ensures after.flags == Flags(flags.attributes, flags.isBusy, flags.isClosing, true)
  {
    assert (0 as bv9) | flags.attributes == flags.attributes;
  }

  lemma NewTableFlags(m: Memory, o: Owners, n: Memory, d: nat, lo: int, hi: int, flags: Flags)
    requires IsMemory(m) && IsMemory(n) && IsDirectory(o, d) && TablesBut(m, o, n, d, lo, hi, flags)
    ensures forall t :: 0 <= t < 0x400 && m[d][t] == ZERO && n[d][t] != ZERO ==>
      lo <= t < hi && n[d][t].flags == Flags(flags.attributes, flags.isBusy, flags.isClosing, true)
  {
    forall t | 0 <= t < 0x400 && m[d][t] == ZERO && n[d][t] != ZERO
      ensures lo <= t < hi && n[d][t].flags == Flags(flags.attributes, flags.isBusy, flags.isClosing, true)
    {
      BlankGains(m[d][t], n[d][t], flags);
    }
  }

  // Two changes of directory `d`, one after the other.
  lemma TablesAgain(m: Memory, o: Owners, n: Memory, o': Owners, k: Memory, d: nat, lo: int, hi: int)
    requires IsMemory(m) && IsMemory(n) && IsMemory(k) && SameDirectories(o, o')
    requires TablesBut(m, o, n, d, lo, hi) && TablesBut(n, o', k, d, lo, hi)
    ensures TablesBut(m, o, k, d, lo, hi)
  {
  }

  lemma TablesWithin(m: Memory, o: Owners, n: Memory, d: nat, lo: int, hi: int)
    requires IsMemory(m) && IsMemory(n) && TablesBut(m, o, n, d, lo, hi) && 0 <= lo && hi <= 0x400
    ensures TablesBut(m, o, n, d, 0, 0x400)
  {
  }

  // An operation that hands out blocks but takes none back, and changes the translations of
  // directory `d` in [lo, hi) only.
  ghost predicate Grows(m: Memory, owners: Owners, n: Memory, newOwners: Owners, d: nat, lo: int, hi: int)
    requires IsMemory(m) && IsMemory(n)
  {
    SameBut(m, owners, n, newOwners, d, lo, hi) && Extends(owners, newOwners)
  }

  lemma GrowsRefl(m: Memory, owners: Owners, d: nat)
    requires IsMemory(m)
    ensures Grows(m, owners, m, owners, d, 0, 0)
  {
  }

  lemma GrowsKeepsDirectories(m: Memory, o: Owners, n: Memory, o': Owners, d: nat)
    requires IsMemory(m) && IsMemory(n) && Grows(m, o, n, o', d, 0, 0)
    ensures SameDirectories(o, o')
  {
  }

  lemma NoTableAdded(m: Memory, owners: Owners, d: nat, lo: int, hi: int, flags: Flags)
    requires IsMemory(m) && d < 0x10_0000
    ensures TablesBut(m, owners, m, d, lo, hi, flags)
  {
  }

  lemma GrowsTransitive(m: Memory, o: Owners, n: Memory, o': Owners, k: Memory, o'': Owners, d: nat)
    requires IsMemory(m) && IsMemory(n) && IsMemory(k)
    requires Grows(m, o, n, o', d, 0, 0) && Grows(n, o', k, o'', d, 0, 0)
    ensures Grows(m, o, k, o'', d, 0, 0) && SameDirectories(o, o') && SameDirectories(o, o'')
  {
    SameButTransitive(m, o, n, o', k, o'', d, 0, 0, 0, 0);
  }

  lemma TablesTransitive(m: Memory, o: Owners, n: Memory, o': Owners, k: Memory, d: nat, lo: int, mid: int,
                         flags: Flags := PRESENT_WRITABLE)
    requires IsMemory(m) && IsMemory(n) && IsMemory(k) && lo <= mid
    requires SameDirectories(o, o')
    requires TablesBut(m, o, n, d, lo, mid, flags) && TablesBut(n, o', k, d, mid, mid + 1, flags)
    ensures TablesBut(m, o, k, d, lo, mid + 1, flags)
  {
  }

  lemma OneMoreTable(m: Memory, o: Owners, n: Memory, d: nat, t: nat, end: nat, flags: Flags := PRESENT_WRITABLE)
    requires IsMemory(m) && IsMemory(n) && IsDirectory(o, d) && t < end <= 0x400
    requires TablesBut(m, o, n, d, t, t + 1, flags) && !m[d][t].Allocated()
    ensures MissingTables(m, d, t, end) == 1 + MissingTables(n, d, t + 1, end)
  {
    MissingTablesSame(m, n, d, t + 1, end);
  }

  // All tables of [lo, hi) are there.
  ghost predicate Complete(m: Memory, d: nat, lo: int, hi: int)
    requires IsMemory(m) && d < 0x10_0000
  {
    0 <= lo && hi <= 0x400 && forall t :: lo <= t < hi ==> m[d][t].Allocated()
  }

  lemma NothingDone(m: Memory, owners: Owners, d: nat, lo: nat)
    requires IsMemory(m) && d < 0x10_0000 && lo <= 0x400
    ensures Grows(m, owners, m, owners, d, 0, 0)
    ensures forall hi, flags :: TablesBut(m, owners, m, d, lo, hi, flags)
    ensures Complete(m, d, lo, lo)
  {
  }

  lemma CompleteExtends(m: Memory, o: Owners, n: Memory, d: nat, lo: int, hi: int, flags: Flags := PRESENT_WRITABLE)
    requires IsMemory(m) && IsMemory(n) && IsDirectory(o, d) && hi < 0x400
    requires Complete(m, d, lo, hi) && TablesBut(m, o, n, d, hi, hi + 1, flags)
    requires lo <= hi && n[d][hi].Allocated()
    ensures Complete(n, d, lo, hi + 1)
  {
  }

  // ---- mapping a range ----

  function MapWord(before: Word, physIndex: nat, flags: Flags): (w: Word)
    ensures w.page < 0x10_0000
  {
    Word(before.flags.(isBusy := true).Or(flags), physIndex % 0x10_0000)
  }

  // The entries of [lo, hi) map consecutive physical pages from `physIndex` on.
  ghost predicate MapDone(m: Memory, o: Owners, n: Memory, o': Owners, d: nat, lo: nat, hi: nat, physIndex: nat,
                          flags: Flags)
    requires IsMemory(m) && IsMemory(n)
  {
    && d < 0x10_0000 && lo <= hi && (lo < hi ==> hi <= 0x10_0000)
    && Grows(m, o, n, o', d, lo, hi)
    && forall v :: lo <= v < hi ==> Flat(n, d, v) == MapWord(Flat(m, d, v), physIndex + (v - lo), flags)
  }

  // No entry of [lo, hi) has a block of its own.
  ghost predicate NoneAllocated(m: Memory, d: nat, lo: nat, hi: nat)
    requires IsMemory(m) && d < 0x10_0000
  {
    forall v :: lo <= v < hi && v < 0x10_0000 ==> !Flat(m, d, v).Allocated()
  }

  lemma MapStart(m: Memory, o: Owners, d: nat, lo: nat, physIndex: nat, flags: Flags)
    requires IsMemory(m) && d < 0x10_0000
    ensures MapDone(m, o, m, o, d, lo, lo, physIndex, flags)
  {
  }

  lemma MapOne(m: Memory, o: Owners, n: Memory, o': Owners, d: nat, lo: nat, v: nat, physIndex: nat, flags: Flags)
    returns (k: Memory)
    requires IsMemory(m) && IsMemory(n) && MapDone(m, o, n, o', d, lo, v, physIndex, flags)
    requires Owned(n, o') && Tidy(n, o') && IsDirectory(o, d) && IsDirectory(o', d)
    requires v < 0x10_0000 && n[d][v / 0x400].Allocated() && NoneAllocated(m, d, lo, v + 1) && flags.Plain()
    ensures
      var p := n[d][v / 0x400].page;
      p < 0x10_0000 && k == SetWord(n, p, v % 0x400, MapWord(n[p][v % 0x400], physIndex + (v - lo), flags))
    ensures Owned(k, o') && Tidy(k, o') && MapDone(m, o, k, o', d, lo, v + 1, physIndex, flags)
    ensures TablesBut(n, o', k, d, 0, 0)
  {
    assert IsPage(n[d]) && Flat(n, d, v) == Flat(m, d, v);
    var p, w := n[d][v / 0x400].page, MapWord(Flat(n, d, v), physIndex + (v - lo), flags);
    k := SetWord(n, p, v % 0x400, w);
    EntryStep(n, o', d, v, w);
    MapStep(n, o', d, v, w);
    SameButTransitive(m, o, n, o', k, o', d, lo, v, v, v + 1);
  }

  lemma MapKeepsDirectories(m: Memory, o: Owners, n: Memory, o': Owners, d: nat, lo: nat, v: nat, physIndex: nat,
                            flags: Flags)
    requires IsMemory(m) && IsMemory(n) && MapDone(m, o, n, o', d, lo, v, physIndex, flags)
    ensures SameDirectories(o, o')
  {
  }

  // Two stretches, one after the other; tables may appear in between.
  lemma MapChain(m: Memory, o: Owners, n: Memory, o': Owners, k: Memory, o'': Owners,
                 d: nat, lo: nat, v: nat, hi: nat, physIndex: nat, flags: Flags)
    requires IsMemory(m) && IsMemory(n) && IsMemory(k) && IsDirectory(o, d) && IsDirectory(o', d)
    requires MapDone(m, o, n, o', d, lo, v, physIndex, flags)
    requires MapDone(n, o', k, o'', d, v, hi, physIndex + (v - lo), flags)
    ensures MapDone(m, o, k, o'', d, lo, hi, physIndex, flags)
  {
    SameButTransitive(m, o, n, o', k, o'', d, lo, v, v, hi);
    forall u | lo <= u < hi ensures Flat(k, d, u) == MapWord(Flat(m, d, u), physIndex + (u - lo), flags) {
      if u < v {
        assert Flat(k, d, u) == Flat(n, d, u);
      } else {
        assert Flat(n, d, u) == Flat(m, d, u);
      }
    }
  }

  lemma MapNothing(n: Memory, o: Owners, k: Memory, o': Owners, d: nat, lo: nat, physIndex: nat, flags: Flags)
    requires IsMemory(n) && IsMemory(k) && d < 0x10_0000 && Grows(n, o, k, o', d, 0, 0)
    ensures MapDone(n, o, k, o', d, lo, lo, physIndex, flags)
  {
  }

  // What is left of a range is still free of blocks.
  lemma NoneAllocatedAhead(m: Memory, o: Owners, n: Memory, o': Owners, d: nat, lo: nat, v: nat, hi: nat,
                           physIndex: nat, flags: Flags)
    requires IsMemory(m) && IsMemory(n) && IsDirectory(o, d)
    requires MapDone(m, o, n, o', d, lo, v, physIndex, flags) && NoneAllocated(m, d, lo, hi)
    ensures NoneAllocated(n, d, v, hi)
  {
    forall u | v <= u < hi && u < 0x10_0000 ensures !Flat(n, d, u).Allocated() {
      assert Flat(n, d, u) == Flat(m, d, u);
    }
  }

  lemma NoneAllocatedPart(m: Memory, d: nat, lo: nat, hi: nat, lo': nat, hi': nat)
    requires IsMemory(m) && d < 0x10_0000 && lo <= lo' && hi' <= hi && NoneAllocated(m, d, lo, hi)
    ensures NoneAllocated(m, d, lo', hi')
  {
  }

  // Entries of tables changed, directories did not.
  lemma TablesKept(m: Memory, o: Owners, n: Memory, o': Owners, k: Memory, d: nat, lo: int, hi: int, end: int)
    requires IsMemory(m) && IsMemory(n) && IsMemory(k) && IsDirectory(o', d) && SameDirectories(o, o')
    requires TablesBut(m, o, n, d, lo, hi) && TablesBut(n, o', k, d, 0, 0) && 0 <= hi && end <= 0x400
    ensures TablesBut(m, o, k, d, lo, hi)
    ensures MissingTables(k, d, hi, end) == MissingTables(n, d, hi, end)
  {
    MissingTablesSame(n, k, d, hi, end);
  }

  lemma MapRefl(owners: Owners)
    ensures SameDirectories(owners, owners)
  {
  }

  lemma DirectoryKept(m: Memory, o: Owners, n: Memory, d: nat, t: nat)
    requires IsMemory(m) && IsMemory(n) && IsDirectory(o, d) && t < 0x400 && TablesBut(m, o, n, d, 0, 0)
    ensures n[d][t] == m[d][t]
  {
  }

  // ---- the state of a walk, as its loop sees it ----

  // Tables [lo, cur) are there, `created` of them new; what is missing up to `end` is still missing.
  ghost predicate TablesMade(m: Memory, o: Owners, n: Memory, o': Owners, d: nat, lo: nat, cur: nat, end: nat,
                             created: nat, flags: Flags) {
    && IsMemory(m) && IsMemory(n) && IsDirectory(o, d) && IsDirectory(o', d) && lo <= cur <= end <= 0x400
    && Grows(m, o, n, o', d, 0, 0) && TablesBut(m, o, n, d, lo, cur, flags) && Complete(n, d, lo, cur)
    && created + MissingTables(n, d, cur, end) == MissingTables(m, d, lo, end)
  }

  lemma TablesMadeStart(m: Memory, o: Owners, d: nat, lo: nat, end: nat, flags: Flags)
    requires IsMemory(m) && IsDirectory(o, d) && lo <= end <= 0x400
    ensures TablesMade(m, o, m, o, d, lo, lo, end, 0, flags)
  {
  }

  lemma TablesMadeSkip(m: Memory, o: Owners, n: Memory, o': Owners, d: nat, lo: nat, cur: nat, end: nat, created: nat,
                       flags: Flags)
    requires TablesMade(m, o, n, o', d, lo, cur, end, created, flags) && cur < end && n[d][cur].Allocated()
    ensures TablesMade(m, o, n, o', d, lo, cur + 1, end, created, flags)
  {
  }

  lemma TablesMadeStep(m: Memory, o: Owners, n: Memory, o': Owners, k: Memory, o'': Owners,
                       d: nat, lo: nat, cur: nat, end: nat, created: nat, flags: Flags)
    requires TablesMade(m, o, n, o', d, lo, cur, end, created, flags) && cur < end && !n[d][cur].Allocated()
    requires IsMemory(k) && IsDirectory(o'', d) && k[d][cur].Allocated()
    requires Grows(n, o', k, o'', d, 0, 0) && TablesBut(n, o', k, d, cur, cur + 1, flags)
    ensures TablesMade(m, o, k, o'', d, lo, cur + 1, end, created + 1, flags)
  {
    GrowsTransitive(m, o, n, o', k, o'', d);
    TablesTransitive(m, o, n, o', k, d, lo, cur, flags);
    OneMoreTable(n, o', k, d, cur, end, flags);
    CompleteExtends(n, o', k, d, lo, cur, flags);
  }

  lemma TablesMadeEnd(m: Memory, o: Owners, n: Memory, o': Owners, d: nat, lo: nat, cur: nat, end: nat, created: nat,
                      flags: Flags)
    requires TablesMade(m, o, n, o', d, lo, cur, end, created, flags)
    ensures Grows(m, o, n, o', d, 0, 0) && TablesBut(m, o, n, d, lo, end, flags)
    ensures cur == end ==> Complete(n, d, lo, end) && created == MissingTables(m, d, lo, end)
  {
  }

  // A stretch of one table is mapped; no directory entry changed.
  ghost predicate Stretch(m: Memory, o: Owners, n: Memory, d: nat, lo: nat, hi: nat, end: nat, physIndex: nat,
                          flags: Flags) {
    && IsMemory(m) && IsMemory(n) && IsDirectory(o, d) && lo <= hi
    && Owned(n, o) && Tidy(n, o)
    && MapDone(m, o, n, o, d, lo, hi, physIndex, flags) && TablesBut(m, o, n, d, 0, 0)
    && NoneAllocated(n, d, hi, end)
  }

  lemma StretchStart(m: Memory, o: Owners, d: nat, lo: nat, end: nat, physIndex: nat, flags: Flags)
    requires IsMemory(m) && IsDirectory(o, d) && Owned(m, o) && Tidy(m, o) && NoneAllocated(m, d, lo, end)
    ensures Stretch(m, o, m, d, lo, lo, end, physIndex, flags)
  {
  }

  lemma StretchStep(m: Memory, o: Owners, n: Memory, d: nat, t: nat, lo: nat, v: nat, end: nat, physIndex: nat,
                    flags: Flags)
    returns (k: Memory)
    requires Stretch(m, o, n, d, lo, v, end, physIndex, flags) && flags.Plain()
    requires t < 0x400 && v / 0x400 == t && v < end && m[d][t].Allocated()
    ensures
      var p := m[d][t].page;
      p < 0x10_0000 && k == SetWord(n, p, v % 0x400, MapWord(n[p][v % 0x400], physIndex + (v - lo), flags))
    ensures Stretch(m, o, k, d, lo, v + 1, end, physIndex, flags)
  {
    hide MapDone, TablesBut, NoneAllocated, Owned, Tidy, Flat, SameDirectories, MapWord;
    DirectoryKept(m, o, n, d, t);
    MapStart(n, o, d, v, physIndex + (v - lo), flags);
    NoneAllocatedPart(n, d, v, end, v, v + 1);
    k := MapOne(n, o, n, o, d, v, v, physIndex + (v - lo), flags);
    MapRefl(o);
    MapChain(m, o, n, o, k, o, d, lo, v, v + 1, physIndex, flags);
    TablesKept(m, o, n, o, k, d, 0, 0, 0);
    NoneAllocatedAhead(n, o, k, o, d, v, v + 1, end, physIndex + (v - lo), flags);
  }

  lemma StretchEnd(m: Memory, o: Owners, n: Memory, d: nat, lo: nat, v: nat, end: nat, physIndex: nat, flags: Flags)
    requires Stretch(m, o, n, d, lo, v, end, physIndex, flags)
    ensures Owned(n, o) && Tidy(n, o)
    ensures MapDone(m, o, n, o, d, lo, v, physIndex, flags) && TablesBut(m, o, n, d, 0, 0)
  {
  }

  lemma TablesMadeInBounds(m: Memory, o: Owners, n: Memory, o': Owners, d: nat, lo: nat, cur: nat, end: nat,
                           created: nat, flags: Flags)
    requires TablesMade(m, o, n, o', d, lo, cur, end, created, flags)
    ensures IsMemory(n) && IsDirectory(o', d) && d < 0x10_0000
  {
  }

  // ---- a walk over several tables ----

  // A request to map `count` pages from page `lo` of directory `d` on, and the state it found.
  datatype MapTask = MapTask(m: Memory, o: Owners, d: nat, lo: nat, count: nat, physIndex: nat, flags: Flags)

  // One table behind the last one that `count` pages from `lo` on reach.
  function EndTable(lo: nat, count: nat): (end: nat)
    ensures end <= 0x400
  {
    var end := (lo + count + 0x3ff) / 0x400;
    if end > 0x400 then 0x400 else if count > 0 then end else if lo / 0x400 <= 0x400 then lo / 0x400 else 0x400
  }

  function EndPage(lo: nat, count: nat): nat {
    if lo + count <= 0x10_0000 then lo + count else 0x10_0000
  }

  // The range is cut at 4 GiB, and its last table is that of its last page.
  lemma WalkBounds(lo: nat, count: nat)
    requires lo < 0x10_0000
    ensures EndPage(lo, count) == if lo + count <= 0x10_0000 then lo + count else 0x10_0000
    ensures count == 0 ==> EndTable(lo, count) == lo / 0x400
    ensures count > 0 ==> EndTable(lo, count) == (EndPage(lo, count) - 1) / 0x400 + 1
  {
  }

  // Table `t`, entry `r` is where a walk stands that has `left` of its `count` pages to go.
  predicate Place(lo: nat, count: nat, t: nat, r: nat, left: nat) {
    && t <= 0x400 && left <= count && lo / 0x400 <= t
    && (left > 0 ==> t * 0x400 + r == lo + (count - left) && r < 0x400 && (t == 0x400 ==> r == 0))
    && (left > 0 && t < 0x400 ==> t < EndTable(lo, count))
    && (left == 0 ==> t == EndTable(lo, count) && lo + count <= 0x10_0000)
  }

  lemma PlaceStart(lo: nat, count: nat)
    requires lo < 0x10_0000
    ensures Place(lo, count, lo / 0x400, lo - lo / 0x400 * 0x400, count)
  {
  }

  lemma PlaceHere(lo: nat, count: nat, t: nat, r: nat, left: nat)
    requires Place(lo, count, t, r, left) && left > 0 && t < 0x400
    ensures r < 0x400 && t * 0x400 + r == lo + (count - left) && t < EndTable(lo, count) <= 0x400
  {
  }

  lemma PlaceNext(lo: nat, count: nat, t: nat, r: nat, left: nat, newLeft: nat)
    requires Place(lo, count, t, r, left) && left > 0 && t < 0x400
    requires newLeft == if left <= 0x400 - r then 0 else left - (0x400 - r)
    ensures Place(lo, count, t + 1, 0, newLeft)
  {
  }

  lemma PlaceEnd(lo: nat, count: nat, t: nat, r: nat, left: nat)
    requires Place(lo, count, t, r, left) && (t == 0x400 || left == 0)
    ensures t == EndTable(lo, count) && lo + (count - left) == EndPage(lo, count)
  {
  }

  ghost predicate Walk(s: MapTask, n: Memory, o': Owners, t: nat, done: nat) {
    && IsMemory(s.m) && IsMemory(n) && IsDirectory(s.o, s.d) && IsDirectory(o', s.d)
    && s.flags.Plain() && NoneAllocated(s.m, s.d, s.lo, s.lo + s.count) && done <= s.count && s.lo / 0x400 <= t
    && MapDone(s.m, s.o, n, o', s.d, s.lo, s.lo + done, s.physIndex, s.flags)
    && TablesBut(s.m, s.o, n, s.d, s.lo / 0x400, t)
  }

  lemma WalkStart(s: MapTask)
    requires IsMemory(s.m) && IsDirectory(s.o, s.d) && s.lo < 0x10_0000
    requires s.flags.Plain() && NoneAllocated(s.m, s.d, s.lo, s.lo + s.count)
    ensures Walk(s, s.m, s.o, s.lo / 0x400, 0)
  {
  }

  // A table may have appeared where the walk goes on.
  lemma WalkTable(s: MapTask, n: Memory, o': Owners, k: Memory, o'': Owners, t: nat, done: nat)
    requires Walk(s, n, o', t, done)
    requires IsMemory(k) && IsDirectory(o'', s.d) && Grows(n, o', k, o'', s.d, 0, 0)
    requires TablesBut(n, o', k, s.d, t, t + 1)
    ensures Walk(s, k, o'', t + 1, done)
    ensures NoneAllocated(k, s.d, s.lo + done, s.lo + s.count)
  {
    MapNothing(n, o', k, o'', s.d, s.lo + done, s.physIndex + done, s.flags);
    MapChain(s.m, s.o, n, o', k, o'', s.d, s.lo, s.lo + done, s.lo + done, s.physIndex, s.flags);
    TablesTransitive(s.m, s.o, n, o', k, s.d, s.lo / 0x400, t);
    NoneAllocatedAhead(s.m, s.o, k, o'', s.d, s.lo, s.lo + done, s.lo + s.count, s.physIndex, s.flags);
  }

  // The part of the range that lies in one table has been mapped.
  lemma WalkStretch(s: MapTask, n: Memory, o': Owners, k: Memory, t: nat, done: nat, newDone: nat)
    requires Walk(s, n, o', t, done) && done <= newDone <= s.count
    requires IsMemory(k) && TablesBut(n, o', k, s.d, 0, 0)
    requires MapDone(n, o', k, o', s.d, s.lo + done, s.lo + newDone, s.physIndex + done, s.flags)
    ensures Walk(s, k, o', t, newDone)
    ensures forall end :: 0 <= end <= 0x400 ==> MissingTables(k, s.d, t, end) == MissingTables(n, s.d, t, end)
  {
    hide MapDone, TablesBut, NoneAllocated, MissingTables, SameDirectories;
    MapKeepsDirectories(s.m, s.o, n, o', s.d, s.lo, s.lo + done, s.physIndex, s.flags);
    MapChain(s.m, s.o, n, o', k, o', s.d, s.lo, s.lo + done, s.lo + newDone, s.physIndex, s.flags);
    TablesKept(s.m, s.o, n, o', k, s.d, s.lo / 0x400, t, 0);
    forall end | 0 <= end <= 0x400 ensures MissingTables(k, s.d, t, end) == MissingTables(n, s.d, t, end) {
      TablesKept(s.m, s.o, n, o', k, s.d, s.lo / 0x400, t, end);
    }
  }

  lemma WalkEnd(s: MapTask, n: Memory, o': Owners, t: nat, r: nat, left: nat)
    requires left <= s.count && Walk(s, n, o', t, s.count - left)
    requires Place(s.lo, s.count, t, r, left) && (t == 0x400 || left == 0)
    ensures MapDone(s.m, s.o, n, o', s.d, s.lo, EndPage(s.lo, s.count), s.physIndex, s.flags)
    ensures TablesBut(s.m, s.o, n, s.d, s.lo / 0x400, EndTable(s.lo, s.count))
    ensures MissingTables(n, s.d, t, EndTable(s.lo, s.count)) == 0
  {
    PlaceEnd(s.lo, s.count, t, r, left);
  }
}
