/** Threads and how they are made (library/scheduler/scheduler.hxx, scheduler.cxx:31-66). */
module Threads {
  import opened Align
  import opened Frames
  import opened PhysicalMemory
  import opened Paging
  import opened Blocks
  import opened PageSearch
  import opened VirtualMemory

  datatype State = Running | ReadyToRun | Sleeping | Suspended

  datatype Registers = Registers(
    gSegment: nat, fSegment: nat, extraSegment: nat, dataSegment: nat,
    destinationIndex: nat, sourceIndex: nat, basePointer: nat, stackPointer: nat,
    base: nat, data: nat, counter: nat, accumulator: nat,
    instructionPointer: nat, codeSegment: nat, flags: nat)

  datatype Thread = Thread(
    state: State, sleepTicksCount: nat, ticksBeforeSwitch: nat, workedTicks: nat, pagingDirectory: nat,
    registers: Registers, next: nat, currentPath: nat)

  // PRESENT | READ_WRITE | USER
  const USER_WRITABLE: Flags := Flags(7, false, false, false)

  // ---- the address space of a new thread ----

  // All pages below `a` are in use, all others are free, and there are no tables beyond.
  ghost predicate FreeFrom(m: Memory, d: nat, a: nat)
    requires IsMemory(m) && d < 0x10_0000
  {
    && (forall v :: 0 <= v < a && v < 0x10_0000 ==> Flat(m, d, v).Busy())
    && (forall v :: a <= v < 0x10_0000 ==> !Flat(m, d, v).Busy())
    && (forall t :: 0 <= t < 0x400 && t > a / 0x400 ==> !m[d][t].Allocated())
  }

  lemma {:induction false} ProbeMissing(m: Memory, d: nat, t: nat, j: nat, left: nat)
    requires IsMemory(m) && d < 0x10_0000 && t <= 0x400 && j < 0x400 && left <= (0x400 - t) * 0x400
    requires forall u :: t <= u < 0x400 ==> !m[d][u].Allocated()
    ensures Probe(m, d, t, j, left)
    decreases 0x400 - t
  {
    if left > 0x400 {
      ProbeMissing(m, d, t + 1, j, left - 0x400);
    }
  }

  // The first free page is in a table that is there, or starts one.
  lemma NoTableInside(m: Memory, d: nat, a: nat)
    requires IsMemory(m) && d < 0x10_0000 && FreeFrom(m, d, a) && a < 0x10_0000 && !m[d][a / 0x400].Allocated()
    ensures a % 0x400 == 0
  {
    var before := if a > 0 then a - 1 else 0;
    assert before / 0x400 == a / 0x400 ==> !Flat(m, d, before).Busy();
  }

  lemma ProbeAtEnd(m: Memory, d: nat, a: nat, count: nat)
    requires IsMemory(m) && d < 0x10_0000 && FreeFrom(m, d, a) && count > 0 && a + count <= 0x10_0000
    ensures Probe(m, d, a / 0x400, a % 0x400, count)
  {
    var t, j := a / 0x400, a % 0x400;
    if m[d][t].Allocated() {
      if j + count > 0x400 {
        ProbeMissing(m, d, t + 1, j, count - (0x400 - j));
      }
    } else {
      NoTableInside(m, d, a);
      ProbeMissing(m, d, t, j, count);
    }
  }

  // So the search finds the first free page, and nothing but free pages.
  lemma FirstFreePage(m: Memory, d: nat, a: nat, count: nat)
    requires IsMemory(m) && d < 0x10_0000 && FreeFrom(m, d, a) && count > 0 && a + count <= 0x10_0000
    ensures SearchIsSound(m, d, count)
    ensures forall index :: IsFirst(m, d, index, count) <==> index == a
  {
    ProbeAtEnd(m, d, a, count);
    forall q | 0 <= q < a ensures !Probe(m, d, q / 0x400, q % 0x400, count) {
      assert Flat(m, d, q).Busy();
      BusyStopsProbe(m, d, q, count);
    }
    assert IsFirst(m, d, a, count);
  }

  lemma BusyStopsProbe(m: Memory, d: nat, q: nat, count: nat)
    requires IsMemory(m) && d < 0x10_0000 && q < 0x10_0000 && count > 0 && Flat(m, d, q).Busy()
    ensures !Probe(m, d, q / 0x400, q % 0x400, count)
  {
    var t, j := q / 0x400, q % 0x400;
    assert q == t * 0x400 + j;
    assert !EntriesFree(m, d, t, j, if j + count <= 0x400 then j + count else 0x400);
  }

  lemma BlockAtEnd(m: Memory, o: Owners, n: Memory, o': Owners, d: nat, a: nat, count: nat, flags: Flags)
    requires IsMemory(m) && IsMemory(n) && IsDirectory(o, d) && FreeFrom(m, d, a)
    requires BlockDone(m, o, n, o', d, a, a + count, flags) && TablesBut(m, o, n, d, a / 0x400, EndTable(a, count))
    ensures FreeFrom(n, d, a + count)
  {
    forall v | 0 <= v < a + count && v < 0x10_0000 ensures Flat(n, d, v).Busy() {
      if v < a {
        assert Flat(n, d, v) == Flat(m, d, v);
      }
    }
    forall v | a + count <= v < 0x10_0000 ensures !Flat(n, d, v).Busy() {
      assert Flat(n, d, v) == Flat(m, d, v);
    }
    forall t | 0 <= t < 0x400 && t > (a + count) / 0x400 ensures !n[d][t].Allocated() {
      assert n[d][t] == m[d][t];
    }
  }

  // Pages [lo, hi) are one block with these attributes.
  ghost predicate BlockAt(m: Memory, d: nat, lo: nat, hi: nat, flags: Flags)
    requires IsMemory(m) && d < 0x10_0000
  {
    && hi <= 0x10_0000
    && forall v :: lo <= v < hi ==> Flat(m, d, v).flags == Flags(flags.attributes, true, v == hi - 1, true)
  }

  lemma BlocksStay(m: Memory, o: Owners, n: Memory, o': Owners, d: nat, lo: nat, hi: nat, from: nat, to: nat,
                   flags: Flags)
    requires IsMemory(m) && IsMemory(n) && IsDirectory(o, d) && BlockAt(m, d, lo, hi, flags)
    requires Grows(m, o, n, o', d, from, to) && (hi <= from || to <= lo)
    ensures BlockAt(n, d, lo, hi, flags)
  {
  }

  lemma NewBlockAt(m: Memory, o: Owners, n: Memory, o': Owners, d: nat, lo: nat, hi: nat, flags: Flags)
    requires IsMemory(m) && IsMemory(n) && BlockDone(m, o, n, o', d, lo, hi, flags)
    ensures BlockAt(n, d, lo, hi, flags) && Grows(m, o, n, o', d, lo, hi)
  {
  }

  // Everything that was there before directory `d` is as it was.
  ghost predicate OthersKept(m: Memory, o: Owners, n: Memory, o': Owners, d: nat)
    requires IsMemory(m) && IsMemory(n)
  {
    && d !in o && Extends(o, o') && (forall p :: IsForeign(o', p) <==> IsForeign(o, p))
    && (forall e, v :: IsDirectory(o, e) && 0 <= v < 0x10_0000 ==> Flat(n, e, v) == Flat(m, e, v))
    && (forall q :: q in o && o[q].HoldsData() && 0 <= q < 0x10_0000 ==> n[q] == m[q])
    && (forall q :: 0 <= q < 0x10_0000 && q !in o' ==> n[q] == m[q])
  }

  lemma DirectoryApart(m: Memory, o: Owners, n: Memory, o': Owners, r: nat)
    requires IsMemory(m) && IsMemory(n) && DirectoryDone(m, o, n, o', r)
    ensures OthersKept(m, o, n, o', r / 0x1000) && IsDirectory(o', r / 0x1000) && FreeFrom(n, r / 0x1000, 2)
  {
  }

  lemma StaysApart(m: Memory, o: Owners, n: Memory, o': Owners, k: Memory, o'': Owners, d: nat, lo: nat, hi: nat,
                   flags: Flags)
    requires IsMemory(m) && IsMemory(n) && IsMemory(k) && OthersKept(m, o, n, o', d)
    requires BlockDone(n, o', k, o'', d, lo, hi, flags)
    ensures OthersKept(m, o, k, o'', d)
  {
  }

  // The pages that a new thread uses: two for its directory, its stack, and two for its path.
  function ThreadPages(stackSize: nat): nat
    requires stackSize < 0xFFFF_C000
  {
    2 + FramesFor(stackSize) + 2
  }

  // What its blocks and tables take from the physical manager.
  function ThreadBudget(stackSize: nat): nat
    requires stackSize < 0xFFFF_C000
  {
    FramesFor(stackSize) + FramesFor(stackSize) / 0x400 + 8
  }

  // One block of the new address space, right behind the last one.
  method AddBlock(v: Vmm, d: nat, bytesCount: nat, flags: Flags, ghost a: nat, ghost m: Memory, ghost o: Owners)
    returns (r: nat)
    requires v.Valid() && IsDirectory(v.owners, d) && bytesCount < 0xFFFF_F000 && flags.Plain()
    requires IsMemory(m) && OthersKept(m, o, v.mem, v.owners, d)
    requires FreeFrom(v.mem, d, a) && a + FramesFor(bytesCount) <= 0x10_0000
    requires Left(v.pmm.tables) >= FramesFor(bytesCount) + FramesFor(bytesCount) / 0x400 + 2
    modifies v`mem, v`owners, v.pmm`tables
    ensures v.Valid() && IsDirectory(v.owners, d) && OthersKept(m, o, v.mem, v.owners, d)
    ensures r == a * 0x1000 && FreeFrom(v.mem, d, a + FramesFor(bytesCount))
    ensures BlockAt(v.mem, d, a, a + FramesFor(bytesCount), flags)
    ensures Grows(old(v.mem), old(v.owners), v.mem, v.owners, d, a, a + FramesFor(bytesCount))
    ensures Left(v.pmm.tables) + FramesFor(bytesCount) + FramesFor(bytesCount) / 0x400 + 2 >= old(Left(v.pmm.tables))
    ensures old(TablesPresent(v.mem, v.owners)) ==> TablesPresent(v.mem, v.owners)
  {
    hide Coherent, BlockDone, BlockAt, Grows, OthersKept, FreeFrom, TablesBut, Left, SearchIsSound, IsFirst, EndTable,
      TablesPresent;
    FramesForRequest(bytesCount);
    ghost var now, have := v.mem, v.owners;
    FirstFreePage(v.mem, d, a, FramesFor(bytesCount));
    r := v.AllocateVirtualMemory(d, bytesCount, flags);
    assert IsFirst(now, d, a, FramesFor(bytesCount));
    NewBlockAt(now, have, v.mem, v.owners, d, a, a + FramesFor(bytesCount), flags);
    BlockAtEnd(now, have, v.mem, v.owners, d, a, FramesFor(bytesCount), flags);
    StaysApart(m, o, now, have, v.mem, v.owners, d, a, a + FramesFor(bytesCount), flags);
  }

  // The entries of the stack carry the user bit, those of the path do not.
  ghost predicate HasStackAndPath(m: Memory, d: nat, stackSize: nat)
    requires IsMemory(m) && d < 0x10_0000 && stackSize < 0xFFFF_C000
  {
    var top := 2 + FramesFor(stackSize);
    && BlockAt(m, d, 2, top, Flags(7, false, false, false))
    && BlockAt(m, d, top, top + 2, Flags(3, false, false, false))
  }

  // No table of a directory does: the page entries of stack and image carry a bit that the processor
  // asks for in both levels.
  lemma TablesLackUserBit(m: Memory, o: Owners, d: nat, v: nat)
    requires IsMemory(m) && TablesPresent(m, o) && IsDirectory(o, d) && v < 0x10_0000 && Flat(m, d, v).Busy()
    ensures m[d][v / 0x400].flags.attributes & 7 == 3
  {
    assert m[d][v / 0x400].flags == Flags(3, false, false, true);
    assert (3 as bv9) & 7 == 3;
  }

  // The word that a new thread's stack pointer is at lies on its stack exactly if the stack can hold
  // it; otherwise it begins in the directory's own second page.  What is behind it is on the stack.
  lemma StackWordIff(stackSize: nat, stackPointer: nat)
    requires stackSize < 0xFFFF_C000 && stackPointer + 4 == 0x2000 + stackSize
    ensures stackSize >= 4 <==> 2 <= stackPointer / 0x1000 && (stackPointer + 3) / 0x1000 < 2 + FramesFor(stackSize)
    ensures stackSize < 4 ==> stackPointer / 0x1000 == 1
    ensures 2 <= (stackPointer + 4) / 0x1000 < 2 + FramesFor(stackSize)
  {
    FramesForRequest(stackSize);
  }

  // The stack of a new thread starts at its third page, and its path follows.
  method CreateThread(v: Vmm, suspended: bool, entryPoint: nat, stackSize: nat, dataSeg: nat, codeSeg: nat,
                      flagsRegister: nat)
    returns (thread: Thread)
    requires v.Valid() && stackSize < 0xFFFF_C000
    requires Left(v.pmm.tables) >= ThreadBudget(stackSize)
    modifies v`mem, v`owners, v.pmm`tables
    ensures v.Valid() && PageAligned(thread.pagingDirectory)
    ensures IsDirectory(v.owners, thread.pagingDirectory / 0x1000)
    ensures OthersKept(old(v.mem), old(v.owners), v.mem, v.owners, thread.pagingDirectory / 0x1000)
    ensures FreeFrom(v.mem, thread.pagingDirectory / 0x1000, ThreadPages(stackSize))
    ensures Left(v.pmm.tables) + ThreadBudget(stackSize) >= old(Left(v.pmm.tables))
    // It has its full count of ticks, the segments, entry point and flags that were asked for, and a
    // stack pointer four bytes below the end of its stack.
    ensures thread == Thread(
      if suspended then Suspended else ReadyToRun, 0, 100, 0, thread.pagingDirectory,
      Registers(dataSeg, dataSeg, dataSeg, dataSeg, 0, 0, 0x2000 + stackSize - 4, 0x2000 + stackSize - 4,
                0, 0, 0, 0, entryPoint, codeSeg, flagsRegister),
      0, (2 + FramesFor(stackSize)) * 0x1000)
    ensures HasStackAndPath(v.mem, thread.pagingDirectory / 0x1000, stackSize)
    ensures old(TablesPresent(v.mem, v.owners)) ==> TablesPresent(v.mem, v.owners)
  {
    hide Coherent, OthersKept, FreeFrom, Left, DirectoryDone, BlockAt, Grows, TablesPresent;
    FramesForRequest(stackSize);
    FramesForRequest(0x1000);
    ghost var m, o := v.mem, v.owners;
    var directory := v.CreateDirectory();
    var d := directory / 0x1000;
    DirectoryApart(m, o, v.mem, v.owners, directory);
    DirectoryAddress(m, o, v.mem, v.owners, directory);
    var stack := AddBlock(v, d, stackSize, USER_WRITABLE, 2, m, o);
    var stackPointer := (stack + stackSize + 0xFFFF_FFFC) % 0x1_0000_0000;
    ghost var now, have := v.mem, v.owners;
    var path := AddBlock(v, d, 0x1000, PRESENT_WRITABLE, 2 + FramesFor(stackSize), m, o);
    BlocksStay(now, have, v.mem, v.owners, d, 2, 2 + FramesFor(stackSize), 2 + FramesFor(stackSize),
               4 + FramesFor(stackSize), USER_WRITABLE);
    thread := Thread(
      if suspended then Suspended else ReadyToRun, 0, 100, 0, directory,
      Registers(dataSeg, dataSeg, dataSeg, dataSeg, 0, 0, stackPointer, stackPointer, 0, 0, 0, 0, entryPoint, codeSeg,
                flagsRegister),
      0, path);
  }

  lemma DirectoryAddress(m: Memory, o: Owners, n: Memory, o': Owners, r: nat)
    requires IsMemory(m) && IsMemory(n) && DirectoryDone(m, o, n, o', r)
    ensures PageAligned(r)
  {
  }
}
