/** The scheduler's state and the code that changes it (library/scheduler/sheduler.asm, scheduler.cxx). */
module SchedulerState {
  import opened Align
  import opened FrameLayout
  import opened Threads
  import opened Scheduling

  class Scheduler {
    var threads: seq<Thread>
    var base: nat
    var capacity: nat
    var current: nat
    var ticks: nat
    var enabled: bool

    // The processor, and the stack words in memory, by directory and address.
    var cpu: Registers
    var cr3: nat
    var memory: map<(nat, nat), nat>

    // The current thread has left the array, and the processor still works for it.
    ghost var leaving: bool

    constructor (registers: Registers, directory: nat)
      requires IsU32(registers.stackPointer)
      ensures threads == [] && base == 0 && capacity == 0 && enabled
      ensures Valid()
    {
      threads, base, capacity, current, ticks, enabled := [], 0, 0, 0, 0, true;
      cpu, cr3, memory := registers, directory, map[];
      leaving := false;
    }

    ghost function State(): System
      reads this
    {
      System(threads, base, current, ticks, enabled, cpu, cr3, leaving)
    }

    // Before the first run there is no current thread.
    ghost predicate Valid()
      reads this
    {
      && |threads| <= capacity && IsU32(cpu.stackPointer)
      && (threads == [] || Ring(threads, base))
      && forall i :: 0 <= i < |threads| ==> IsU32(threads[i].registers.stackPointer)
    }

    ghost predicate Running()
      reads this
    {
      Valid() && InRing(State())
    }

    // Only the three words under the two stack pointers may have changed.
    ghost predicate StacksKept(before: map<(nat, nat), nat>, directory: nat, stackPointer: nat)
      reads this
    {
      forall d, a ::
        && (d, a) in before
        && !UnderStack(d, a, directory, stackPointer) && !UnderStack(d, a, cr3, cpu.stackPointer) ==>
        (d, a) in memory && memory[(d, a)] == before[(d, a)]
    }

    method Push(value: nat)
      requires IsU32(cpu.stackPointer)
      modifies this`cpu, this`memory
      ensures cpu == old(cpu).(stackPointer := Below(old(cpu).stackPointer, 4))
      ensures memory == old(memory)[(cr3, cpu.stackPointer) := value]
    {
      cpu := cpu.(stackPointer := Below(cpu.stackPointer, 4));
      memory := memory[(cr3, cpu.stackPointer) := value];
    }

    method Pop() returns (value: nat)
      requires IsU32(cpu.stackPointer) && (cr3, cpu.stackPointer) in memory
      modifies this`cpu
      ensures cpu == old(cpu).(stackPointer := ToU32(old(cpu).stackPointer + 4))
      ensures value == memory[(cr3, old(cpu).stackPointer)]
    {
      value := memory[(cr3, cpu.stackPointer)];
      cpu := cpu.(stackPointer := ToU32(cpu.stackPointer + 4));
    }

    // The three words of an interrupt frame.
    method PushFrame(flags: nat, codeSegment: nat, instructionPointer: nat)
      requires IsU32(cpu.stackPointer)
      modifies this`cpu, this`memory
      ensures cpu == old(cpu).(stackPointer := Below(old(cpu).stackPointer, 12))
      ensures IsFrame(memory, cr3, cpu.stackPointer, flags, codeSegment, instructionPointer)
      ensures forall d, a :: (d, a) in old(memory) && !UnderStack(d, a, cr3, old(cpu).stackPointer) ==>
        (d, a) in memory && memory[(d, a)] == old(memory)[(d, a)]
    {
      hide Below, ToU32;
      StackSteps(cpu.stackPointer);
      Push(flags);
      Push(codeSegment);
      Push(instructionPointer);
    }

    // The end of an interrupt handler: the registers are those of the thread again.
    method Iret(ghost was: Registers)
      requires IsU32(was.stackPointer) && cpu == Entered(was, cpu)
      requires IsFrame(memory, cr3, cpu.stackPointer, was.flags, was.codeSegment, was.instructionPointer)
      modifies this`cpu
      ensures cpu == was
    {
      hide Below, ToU32;
      StackSteps(was.stackPointer);
      BelowIsU32(was.stackPointer);
      var instructionPointer := Pop();
      var codeSegment := Pop();
      var flags := Pop();
      cpu := cpu.(flags := flags, codeSegment := codeSegment, instructionPointer := instructionPointer);
    }

    // ---- switching ----

    // The processor takes over the context of thread `k`; its instruction pointer, code segment and
    // flags go to the thread's own stack, for the end of the handler to pick up.
    method Load(k: nat)
      requires k < |threads| && IsU32(threads[k].registers.stackPointer)
      modifies this`cpu, this`cr3, this`memory
      ensures cr3 == threads[k].pagingDirectory
      ensures cpu.(accumulator := threads[k].registers.accumulator) == Entered(threads[k].registers, old(cpu))
      ensures IsFrame(memory, cr3, cpu.stackPointer,
                      threads[k].registers.flags, threads[k].registers.codeSegment,
                      threads[k].registers.instructionPointer)
      ensures forall d, a :: (d, a) in old(memory) && !UnderStack(d, a, cr3, threads[k].registers.stackPointer) ==>
        (d, a) in memory && memory[(d, a)] == old(memory)[(d, a)]
    {
      hide Below, ToU32;
      cr3 := threads[k].pagingDirectory;
      var r := threads[k].registers;
      cpu := cpu.(counter := r.counter, data := r.data, base := r.base, basePointer := r.basePointer,
                  stackPointer := r.stackPointer, sourceIndex := r.sourceIndex, destinationIndex := r.destinationIndex,
                  dataSegment := r.dataSegment, extraSegment := r.extraSegment, fSegment := r.fSegment,
                  gSegment := r.gSegment);
      PushFrame(r.flags, r.codeSegment, r.instructionPointer);
    }

    // The context of the interrupted thread goes to its record.
    method Save(i: nat, accumulator: nat, ghost was: Registers)
      requires i < |threads| && IsU32(was.stackPointer) && cpu == Entered(was, cpu) && accumulator == was.accumulator
      requires IsFrame(memory, cr3, cpu.stackPointer, was.flags, was.codeSegment, was.instructionPointer)
      modifies this`threads, this`cpu
      ensures threads == old(threads)[i := old(threads)[i].(registers := was)]
      ensures cpu == old(cpu).(stackPointer := was.stackPointer)
    {
      hide Below, ToU32;
      StackSteps(was.stackPointer);
      BelowIsU32(was.stackPointer);
      var saved := threads[i].registers.(
        gSegment := cpu.gSegment, fSegment := cpu.fSegment, extraSegment := cpu.extraSegment,
        dataSegment := cpu.dataSegment,
        destinationIndex := cpu.destinationIndex, sourceIndex := cpu.sourceIndex, basePointer := cpu.basePointer,
        stackPointer := ToU32(cpu.stackPointer + 12), base := cpu.base, data := cpu.data, counter := cpu.counter);
      var instructionPointer := Pop();
      var codeSegment := Pop();
      var flags := Pop();
      saved := saved.(instructionPointer := instructionPointer, codeSegment := codeSegment, flags := flags,
                      accumulator := accumulator);
      threads := threads[i := threads[i].(registers := saved)];
    }

    // ---- the timer interrupt ----

    method Tick()
      requires Running()
      modifies this
      ensures Running() && State() == Ticked(old(State())) && capacity == old(capacity)
      ensures StacksKept(old(memory), old(cr3), old(cpu).stackPointer)
    {
      hide Ring, Below, ToU32, Ticked, IsFrame, Entered;
      ghost var s := State();
      TickedInRing(s);
      TickedWords(s);
      TickedMeans(s);
      EnterHandler();
      ticks := (ticks + 1) % 0x1_0000_0000;
      var accumulator := cpu.accumulator;
      if enabled {
        accumulator := Charge(accumulator, s);
      }
      SameHandler(Ticked(s).cpu, cpu, accumulator);
      cpu := cpu.(accumulator := accumulator);
      Iret(Ticked(s).cpu);
    }

    // The processor itself pushes the frame, and goes on with the handler.
    method EnterHandler()
      requires IsU32(cpu.stackPointer)
      modifies this`cpu, this`memory
      ensures cpu == Entered(old(cpu), cpu) && cpu.accumulator == old(cpu).accumulator
      ensures IsFrame(memory, cr3, cpu.stackPointer, old(cpu).flags, old(cpu).codeSegment, old(cpu).instructionPointer)
      ensures forall d, a :: (d, a) in old(memory) && !UnderStack(d, a, cr3, old(cpu).stackPointer) ==>
        (d, a) in memory && memory[(d, a)] == old(memory)[(d, a)]
    {
      hide Below, ToU32;
      PushFrame(cpu.flags, cpu.codeSegment, cpu.instructionPointer);
      cpu := cpu.(flags := 0, codeSegment := 8, instructionPointer := 0);
    }

    // The part that is skipped while switching is turned off.
    method Charge(accumulator: nat, ghost s: System) returns (newAccumulator: nat)
      requires InRing(s) && s.enabled && threads == s.threads && base == s.base
      requires current == s.current && cr3 == s.cr3 && leaving == s.leaving
      requires Words(s) && cpu == Entered(s.cpu, cpu) && accumulator == s.cpu.accumulator
      requires IsFrame(memory, cr3, cpu.stackPointer, s.cpu.flags, s.cpu.codeSegment, s.cpu.instructionPointer)
      modifies this`threads, this`current, this`cpu, this`cr3, this`memory, this`leaving
      ensures Goes(Ticked(s), newAccumulator) && ElsewhereKept(old(memory), Ticked(s))
    {
      hide Ring, Below, ToU32, IsFrame;
      newAccumulator := accumulator;
      var i := IndexAt(base, current);
      threads := threads[i := threads[i].(workedTicks := (threads[i].workedTicks + 1) % 0x1_0000_0000)];
      if threads[i].ticksBeforeSwitch != 0 {
        threads := threads[i := threads[i].(ticksBeforeSwitch := threads[i].ticksBeforeSwitch - 1)];
      } else {
        newAccumulator := Preempt(i, accumulator, s);
      }
    }

    // The handler is about to return to the thread that goes on in state `t`.
    ghost predicate Goes(t: System, accumulator: nat)
      reads this
    {
      && Words(t) && threads == t.threads && current == t.current && cr3 == t.cr3 && leaving == t.leaving
      && accumulator == t.cpu.accumulator && cpu.(accumulator := accumulator) == Entered(t.cpu, cpu)
      && IsFrame(memory, cr3, cpu.stackPointer, t.cpu.flags, t.cpu.codeSegment, t.cpu.instructionPointer)
    }

    ghost predicate ElsewhereKept(before: map<(nat, nat), nat>, t: System)
      reads this
    {
      forall d, a :: (d, a) in before && !UnderStack(d, a, t.cr3, t.cpu.stackPointer) ==>
        (d, a) in memory && memory[(d, a)] == before[(d, a)]
    }

    // The thread that has been charged is saved, and the next one goes on.
    method Preempt(i: nat, accumulator: nat, ghost s: System) returns (newAccumulator: nat)
      requires InRing(s) && s.enabled && i == Index(s) && base == s.base && s.threads[i].ticksBeforeSwitch == 0
      requires threads == s.threads[i := s.threads[i].(workedTicks := (s.threads[i].workedTicks + 1) % 0x1_0000_0000)]
      requires current == s.current && cr3 == s.cr3 && leaving == s.leaving
      requires Words(s) && cpu == Entered(s.cpu, cpu) && accumulator == s.cpu.accumulator
      requires IsFrame(memory, cr3, cpu.stackPointer, s.cpu.flags, s.cpu.codeSegment, s.cpu.instructionPointer)
      modifies this`threads, this`current, this`cpu, this`cr3, this`memory, this`leaving
      ensures Goes(Ticked(s), newAccumulator) && ElsewhereKept(old(memory), Ticked(s))
    {
      hide Ring, Below, ToU32, IsFrame;
      NextInRing(s);
      Save(i, accumulator, s.cpu);
      threads := threads[i := threads[i].(state := ReadyToRun, ticksBeforeSwitch := 100)];
      current := threads[i].next;
      var k := IndexAt(base, current);
      newAccumulator := threads[k].registers.accumulator;
      Load(k);
      leaving := false;
    }

    // ---- switching without an interrupt ----

    method SwitchThreadNext()
      requires Valid() && OnRing(State())
      modifies this`current, this`cpu, this`cr3, this`memory, this`leaving
      ensures Running() && State() == Switched(old(State()))
    {
      hide Ring, Below, ToU32;
      ghost var s := State();
      NextInRing(s);
      var i := IndexAt(base, current);
      current := threads[i].next;
      var k := IndexAt(base, current);
      Load(k);
      cpu := cpu.(accumulator := threads[k].registers.accumulator);
      Iret(threads[k].registers);
      leaving := false;
      SwitchedInRing(s);
    }

    method Run(timerTicks: nat)
      requires Valid() && threads != [] && IsU32(timerTicks)
      modifies this
      ensures Running() && ticks == timerTicks
      ensures State() == Started(old(State()), timerTicks)
    {
      IndexOfAddress(base, 0);
      ticks := timerTicks;
      current := base;
      SwitchThreadNext();
    }

    // ---- the array of threads ----

    // `newArray` is where the physical manager puts the bigger array, or zero.  If the array moves,
    // the links in it go on pointing to where it was.
    method AddThread(thread: Thread, newArray: nat)
      requires Valid() && IsU32(thread.registers.stackPointer)
      modifies this`threads, this`base, this`capacity
      ensures Valid() <==>
        |old(threads)| < old(capacity) || newArray == 0 || newArray == old(base) || |old(threads)| <= 1
      ensures |old(threads)| < old(capacity) ==> base == old(base) && capacity == old(capacity)
      // The record at the end is the given one but for its link, and of those before it only the
      // last one's link changes.
      ensures |old(threads)| < old(capacity) || newArray != 0 ==>
        var n := |old(threads)|;
        && |threads| == n + 1 && threads[n] == thread.(next := base)
        && (n > 0 ==> threads[n - 1] == old(threads)[n - 1].(next := base + 88 * n))
        && forall i :: 0 <= i < n - 1 ==> threads[i] == old(threads)[i]
      ensures |old(threads)| >= old(capacity) && newArray != 0 ==> base == newArray && capacity == old(capacity) + 10
      ensures |old(threads)| >= old(capacity) && newArray == 0 ==>
        threads == old(threads) && base == old(base) && capacity == old(capacity)
      ensures old(Running()) && base == old(base) && threads != old(threads) ==>
        State() == Step(old(State()), Add(thread))
    {
      if |threads| >= capacity {
        if newArray == 0 {
          return;
        }
        base := newArray;
        capacity := capacity + 10;
      }
      if threads == [] {
        AddingKeepsRing(threads, base, thread);
      } else {
        MovingKeepsRingIff(threads, old(base), base, thread);
      }
      ghost var before := threads;
      var n := |threads|;
      if n > 0 {
        threads := threads[n - 1 := threads[n - 1].(next := AddressAt(base, n))];
      }
      threads := threads + [thread.(next := base)];
      assert threads == Added(before, base, thread);
      AddedIs(before, base, thread);
    }

    // The first thread cannot be removed.  Interrupts are off while the array is closed up, but on
    // again before the switch; here none comes in between.
    method RemoveCurrentThread()
      requires Running()
      modifies this
      ensures Running()
      ensures State()
        == if old(Index(State())) == 0 then old(State()) else Step(Step(old(State()), Leave), Scheduling.Switch)
    {
      hide Ring, Below, ToU32;
      ghost var s := State();
      var left := LeaveArray();
      if left {
        StepStaysInRing(s, Leave);
        SwitchThreadNext();
      }
    }

    // The part with interrupts off.
    method LeaveArray() returns (left: bool)
      requires Running()
      modifies this`threads, this`current, this`leaving
      ensures Running() && State() == Step(old(State()), Leave)
      ensures left <==> old(Index(State())) > 0
    {
      hide Ring, Below, ToU32;
      left := current > base;
      if left {
        ghost var s := State();
        var k := IndexAt(base, current);
        CloseGap(k);
        current := base;
        leaving := true;
        LeftInRing(s);
      }
    }

    method CloseGap(k: nat)
      requires 0 < k < |threads|
      modifies this`threads
      ensures threads == Removed(old(threads), base, k)
    {
      hide Shifted, Removed;
      ghost var before := threads;
      var count := |threads| - 1;
      ShiftedStart(threads, base, k);
      for i := k to count
        invariant threads == Shifted(before, base, k, i)
      {
        ShiftedStep(before, base, k, i);
        threads := threads[i := threads[i + 1]];
        threads := threads[i := threads[i].(next := AddressAt(base, i + 1))];
      }
      ShiftedEnd(before, base, k);
      threads := threads[..count];
      threads := threads[count - 1 := threads[count - 1].(next := base)];
    }

    method SetTaskSwitching(on: bool)
      modifies this`enabled
      ensures enabled == on
    {
      enabled := on;
    }
  }

  function Below(stackPointer: nat, bytes: nat): (a: nat)
    requires IsU32(stackPointer) && bytes <= 12
    ensures IsU32(a) && ToU32(a + bytes) == stackPointer
  {
    if stackPointer >= bytes then stackPointer - bytes else stackPointer + 0x1_0000_0000 - bytes
  }

  lemma StackSteps(sp: nat)
    requires IsU32(sp)
    ensures Below(Below(sp, 4), 4) == Below(sp, 8) && Below(Below(sp, 8), 4) == Below(sp, 12)
    ensures ToU32(Below(sp, 12) + 4) == Below(sp, 8) && ToU32(Below(sp, 12) + 8) == Below(sp, 4)
    ensures ToU32(ToU32(ToU32(Below(sp, 12) + 4) + 4) + 4) == sp && ToU32(Below(sp, 12) + 12) == sp
    ensures Below(sp, 4) != Below(sp, 8) && Below(sp, 4) != Below(sp, 12) && Below(sp, 8) != Below(sp, 12)
  {
  }

  // The processor in the handler of an interrupt that came while its registers were `r`: it has
  // pushed three of them, and has those of the handler instead.
  function Entered(r: Registers, handler: Registers): Registers
    requires IsU32(r.stackPointer)
  {
    r.(stackPointer := Below(r.stackPointer, 12), flags := handler.flags, codeSegment := handler.codeSegment,
       instructionPointer := handler.instructionPointer)
  }

  lemma SameHandler(r: Registers, handler: Registers, accumulator: nat)
    requires IsU32(r.stackPointer)
    ensures Entered(r, handler.(accumulator := accumulator)) == Entered(r, handler)
  {
  }

  lemma BelowIsU32(sp: nat)
    requires IsU32(sp)
    ensures IsU32(ToU32(Below(sp, 12) + 4)) && IsU32(ToU32(ToU32(Below(sp, 12) + 4) + 4))
    ensures ToU32(ToU32(Below(sp, 12) + 4) + 4) == ToU32(Below(sp, 12) + 8)
  {
  }

  // Stack pointers are 32 bits wide.
  ghost predicate Words(s: System) {
    IsU32(s.cpu.stackPointer) && forall i :: 0 <= i < |s.threads| ==> IsU32(s.threads[i].registers.stackPointer)
  }

  lemma TickedWords(s: System)
    requires InRing(s) && Words(s)
    ensures Words(Ticked(s))
  {
  }

  // What a tick leaves alone, and all that it does while switching is off.
  lemma TickedMeans(s: System)
    requires InRing(s)
    ensures Ticked(s).ticks == (s.ticks + 1) % 0x1_0000_0000 && Ticked(s).enabled == s.enabled
    ensures !s.enabled ==> Ticked(s) == s.(ticks := (s.ticks + 1) % 0x1_0000_0000)
  {
  }

  lemma NextInRing(s: System)
    requires OnRing(s)
    ensures s.threads[Index(s)].next == AddressAt(s.base, NextIndex(Index(s), |s.threads|))
    ensures IndexAt(s.base, s.threads[Index(s)].next) == NextIndex(Index(s), |s.threads|)
  {
  }

  predicate UnderStack(d: nat, a: nat, directory: nat, stackPointer: nat) {
    d == directory && IsU32(stackPointer)
    && (a == Below(stackPointer, 4) || a == Below(stackPointer, 8) || a == Below(stackPointer, 12))
  }

  // The words at the stack pointer are what an interrupt has pushed.
  predicate IsFrame(memory: map<(nat, nat), nat>, d: nat, sp: nat, flags: nat, codeSegment: nat,
                    instructionPointer: nat) {
    && (d, sp) in memory && memory[(d, sp)] == instructionPointer
    && (d, ToU32(sp + 4)) in memory && memory[(d, ToU32(sp + 4))] == codeSegment
    && (d, ToU32(sp + 8)) in memory && memory[(d, ToU32(sp + 8))] == flags
  }
}
