/**
 What the scheduler does to threads and to the processor (library/scheduler/sheduler.asm,
 scheduler.cxx), as steps on values.  A thread takes 88 bytes of the array at `base`.
 */
module Scheduling {
  import opened Align
  import opened Options
  import opened Threads

  // `leaving` means that the processor still works for a thread that has left the array.
  datatype System = System(
    threads: seq<Thread>, base: nat, current: nat, ticks: nat, enabled: bool, cpu: Registers, cr3: nat, leaving: bool)

  function AddressAt(base: nat, i: nat): nat {
    base + 88 * i
  }

  function IndexAt(base: nat, address: nat): nat {
    if address < base then 0 else (address - base) / 88
  }

  function Index(s: System): nat {
    IndexAt(s.base, s.current)
  }

  lemma IndexOfAddress(base: nat, i: nat)
    ensures IndexAt(base, AddressAt(base, i)) == i
  {
  }

  // Each thread leads to the one behind it, and the last one to the first.
  ghost predicate Ring(threads: seq<Thread>, base: nat) {
    && threads != []
    && forall i :: 0 <= i < |threads| ==> threads[i].next == AddressAt(base, NextIndex(i, |threads|))
  }

  function NextIndex(i: nat, n: nat): (k: nat)
    ensures i < n ==> k < n && k == (i + 1) % n
  {
    if i + 1 < n then i + 1 else 0
  }

  // The current thread is one of the ring.
  ghost predicate OnRing(s: System) {
    Ring(s.threads, s.base) && Index(s) < |s.threads| && s.current == AddressAt(s.base, Index(s))
  }

  // And its directory is selected; after a thread has left, the first one is called current already.
  ghost predicate InRing(s: System) {
    OnRing(s) && if s.leaving then Index(s) == 0 else s.cr3 == s.threads[Index(s)].pagingDirectory
  }

  // ---- the steps ----

  // The processor goes on with thread `k` as it was saved.
  function Resumed(s: System, k: nat): System
    requires k < |s.threads|
  {
    s.(current := AddressAt(s.base, k), cpu := s.threads[k].registers, cr3 := s.threads[k].pagingDirectory,
       leaving := false)
  }

  // A timer interrupt.  The thread is preempted by the tick that finds its count at zero.
  function Ticked(s: System): System
    requires InRing(s)
  {
    var t := s.(ticks := (s.ticks + 1) % 0x1_0000_0000);
    if !s.enabled then t
    else
      var i := Index(s);
      var me := s.threads[i].(workedTicks := (s.threads[i].workedTicks + 1) % 0x1_0000_0000);
      if me.ticksBeforeSwitch != 0 then
        t.(threads := s.threads[i := me.(ticksBeforeSwitch := me.ticksBeforeSwitch - 1)])
      else
        var saved := me.(registers := s.cpu, state := ReadyToRun, ticksBeforeSwitch := 100);
        Resumed(t.(threads := s.threads[i := saved]), NextIndex(i, |s.threads|))
  }

  // A voluntary switch goes on with the next thread, and saves nothing.
  function Switched(s: System): System
    requires OnRing(s)
  {
    Resumed(s, NextIndex(Index(s), |s.threads|))
  }

  // The current thread leaves the array; the switch to the next one follows, with interrupts on.
  function Left(s: System): System
    requires InRing(s) && Index(s) > 0
  {
    s.(threads := Removed(s.threads, s.base, Index(s)), current := s.base, leaving := true)
  }

  lemma LeftInRing(s: System)
    requires InRing(s) && Index(s) > 0
    ensures InRing(Left(s)) && |Left(s).threads| == |s.threads| - 1 && Left(s).base == s.base
  {
    RemovingKeepsRing(s.threads, s.base, Index(s));
    IndexOfAddress(s.base, 0);
  }

  // Between interrupts the current thread computes; switching may be turned off and on, threads
  // come to the end of the array while there is room in it, and the current one may leave or give
  // the processor away.
  datatype Event =
    | Tick
    | Compute(registers: Registers)
    | SetSwitching(on: bool)
    | Add(thread: Thread)
    | Leave
    | Switch

  function Step(s: System, e: Event): System
    requires InRing(s)
  {
    match e
    case Tick => Ticked(s)
    case Compute(r) => s.(cpu := r)
    case SetSwitching(on) => s.(enabled := on)
    case Add(thread) => s.(threads := Added(s.threads, s.base, thread))
    case Leave => if Index(s) == 0 then s else Left(s)
    case Switch => Switched(s)
  }

  // Events that leave the array of threads as long as it is.
  predicate SameThreads(e: Event) {
    !e.Add? && !e.Leave?
  }

  lemma StepStaysInRing(s: System, e: Event)
    requires InRing(s)
    ensures InRing(Step(s, e)) && Step(s, e).base == s.base
    ensures SameThreads(e) ==> |Step(s, e).threads| == |s.threads|
  {
    hide Ticked, Switched, Left, Added;
    match e
    case Tick => TickedRing(s);
    case Switch => SwitchedInRing(s);
    case Add(thread) =>
      AddedIs(s.threads, s.base, thread);
      AddingKeepsRing(s.threads, s.base, thread);
    case Leave =>
      if Index(s) > 0 {
        LeftInRing(s);
      }
    case _ =>
  }

  lemma TickedRing(s: System)
    requires InRing(s)
    ensures InRing(Ticked(s)) && |Ticked(s).threads| == |s.threads| && Ticked(s).base == s.base
  {
    hide Ticked;
    TickedIs(s);
    var r := Ticked(s);
    IndexOfAddress(s.base, (Index(s) + 1) % |s.threads|);
    forall k | 0 <= k < |r.threads| ensures r.threads[k].next == s.threads[k].next {
    }
  }

  lemma TickedInRing(s: System)
    requires InRing(s)
    ensures InRing(Ticked(s)) && |Ticked(s).threads| == |s.threads| && Ticked(s).base == s.base
  {
    StepStaysInRing(s, Tick);
  }

  function After(s: System, events: seq<Event>): (r: System)
    requires InRing(s)
    ensures InRing(r) && r.base == s.base
    ensures (forall i :: 0 <= i < |events| ==> IsUndisturbed(events[i])) ==> |r.threads| == |s.threads|
    decreases |events|
  {
    if events == [] then s
    else
      StepStaysInRing(s, events[0]);
      After(Step(s, events[0]), events[1..])
  }

  // ---- what a step changes ----

  // A tick charges the current thread and leaves the records of all others alone.  If the thread's
  // count is at zero, its context is saved and the thread behind it goes on in its own address space.
  lemma TickedIs(s: System)
    requires InRing(s)
    ensures
      var n, i, r := |s.threads|, Index(s), Ticked(s);
      var me, preempted := s.threads[i], s.enabled && s.threads[i].ticksBeforeSwitch == 0;
      && r.ticks == (s.ticks + 1) % 0x1_0000_0000 && r.enabled == s.enabled && r.base == s.base && |r.threads| == n
      && (forall k :: 0 <= k < n && (k != i || !s.enabled) ==> r.threads[k] == s.threads[k])
      && (s.enabled ==>
            r.threads[i] == Thread(
              if preempted then ReadyToRun else me.state, me.sleepTicksCount,
              if preempted then 100 else me.ticksBeforeSwitch - 1, (me.workedTicks + 1) % 0x1_0000_0000,
              me.pagingDirectory, if preempted then s.cpu else me.registers, me.next, me.currentPath))
      && if preempted then
           var k := (i + 1) % n;
           && r.current == s.base + 88 * k && !r.leaving
           && r.cpu == r.threads[k].registers && r.cr3 == s.threads[k].pagingDirectory
         else r.current == s.current && r.leaving == s.leaving && r.cpu == s.cpu && r.cr3 == s.cr3
  {
    hide Ring;
    assert NextIndex(Index(s), |s.threads|) == (Index(s) + 1) % |s.threads|;
  }

  // From any place the next thread goes on, as it was saved and in its own address space.
  lemma SwitchedIs(s: System)
    requires OnRing(s)
    ensures
      var k, r := (Index(s) + 1) % |s.threads|, Switched(s);
      && Index(r) == k && r.current == s.base + 88 * k && !r.leaving
      && r.cpu == s.threads[k].registers && r.cr3 == s.threads[k].pagingDirectory
      && r.threads == s.threads && r.base == s.base && r.ticks == s.ticks && r.enabled == s.enabled
  {
    IndexOfAddress(s.base, NextIndex(Index(s), |s.threads|));
  }

  // The threads behind the one that leaves move up, and nothing but links changes in their records.
  lemma LeftIs(s: System)
    requires InRing(s) && Index(s) > 0
    ensures
      var n, r := |s.threads| - 1, Left(s);
      && |r.threads| == n && r.leaving && r.current == s.base
      && (forall i :: 0 <= i < n ==>
            r.threads[i] == s.threads[if i < Index(s) then i else i + 1].(next := s.base + 88 * ((i + 1) % n)))
      && r.base == s.base && r.ticks == s.ticks && r.enabled == s.enabled && r.cpu == s.cpu && r.cr3 == s.cr3
  {
    RemovingKeepsRing(s.threads, s.base, Index(s));
  }

  // A new thread's record is the given one but for the link to the first thread, and of the others
  // only the last one's link changes.
  lemma AddedIs(threads: seq<Thread>, base: nat, thread: Thread)
    ensures
      var n, r := |threads|, Added(threads, base, thread);
      && |r| == n + 1 && r[n] == thread.(next := base)
      && (n > 0 ==> r[n - 1] == threads[n - 1].(next := base + 88 * n))
      && forall i :: 0 <= i < n - 1 ==> r[i] == threads[i]
  {
  }

  // ---- every thread has a processor of its own ----

  // The processor works for thread `i`.
  predicate Works(s: System, i: nat) {
    i == Index(s) && !s.leaving
  }

  // The context of thread `i`: in the processor while it has it, in its record otherwise.
  function Context(s: System, i: nat): Registers
    requires i < |s.threads|
  {
    if Works(s, i) then s.cpu else s.threads[i].registers
  }

  // Where thread `i` is after an event; nowhere if it has left.
  function PlaceAfter(s: System, e: Event, i: nat): Option<nat> {
    if e.Leave? && Index(s) > 0 then
      if i < Index(s) then Some(i) else if i == Index(s) then None else Some(i - 1)
    else Some(i)
  }

  // Where it is after a run, and the context that it gave itself last, if it did.
  function Followed(s: System, events: seq<Event>, i: nat, context: Registers): Option<(nat, Registers)>
    requires InRing(s)
    decreases |events|
  {
    if events == [] then Some((i, context))
    else
      var e := events[0];
      match PlaceAfter(s, e, i)
      case None => None
      case Some(k) =>
        StepStaysInRing(s, e);
        Followed(Step(s, e), events[1..], k, if e.Compute? && Works(s, i) then e.registers else context)
  }

  // The event leaves the context of thread `i` alone, unless the thread computes it itself.
  ghost predicate KeepsContext(s: System, e: Event, i: nat)
    requires InRing(s)
  {
    PlaceAfter(s, e, i).Some? ==>
      var k := PlaceAfter(s, e, i).value;
      && i < |s.threads| && k < |Step(s, e).threads|
      && Context(Step(s, e), k) == if e.Compute? && Works(s, i) then e.registers else Context(s, i)
  }

  // A tick that finds the count at zero switches.
  predicate Preempts(s: System)
    requires Index(s) < |s.threads|
  {
    s.enabled && s.threads[Index(s)].ticksBeforeSwitch == 0
  }

  // When no context is lost.  A tick between leaving and the switch saves what the leaving thread
  // did for the first one; a switch that is not the end of leaving saves nothing.
  predicate LosesNothing(s: System, e: Event)
    requires Index(s) < |s.threads|
  {
    match e
    case Tick => s.leaving && Preempts(s) ==> s.cpu == s.threads[Index(s)].registers
    case Switch => s.leaving || s.cpu == s.threads[Index(s)].registers
    case _ => true
  }

  // A tick changes no context, exactly unless it comes at the wrong moment of a removal.
  lemma TickKeepsContextsIff(s: System)
    requires InRing(s)
    ensures |Ticked(s).threads| == |s.threads|
    ensures (forall i :: 0 <= i < |s.threads| ==> Context(Ticked(s), i) == Context(s, i))
      <==> LosesNothing(s, Tick)
  {
    var i, k := Index(s), NextIndex(Index(s), |s.threads|);
    IndexOfAddress(s.base, k);
    if s.leaving && Preempts(s) {
      assert Context(s, i) == s.threads[i].registers && Context(Ticked(s), i) == s.cpu;
    }
  }

  // Nor does a voluntary switch, exactly if it ends a removal or the context is saved already.
  lemma SwitchKeepsContextsIff(s: System)
    requires InRing(s)
    ensures |Switched(s).threads| == |s.threads|
    ensures (forall i :: 0 <= i < |s.threads| ==> Context(Switched(s), i) == Context(s, i))
      <==> LosesNothing(s, Switch)
  {
    var i := Index(s);
    IndexOfAddress(s.base, NextIndex(i, |s.threads|));
    assert Context(Switched(s), i) == s.threads[i].registers;
  }

  // A new thread begins with the context it was made with; the others keep theirs.
  lemma AddingKeepsContexts(s: System, thread: Thread, i: nat)
    requires InRing(s) && i <= |s.threads|
    ensures |Step(s, Add(thread)).threads| == |s.threads| + 1
    ensures Context(Step(s, Add(thread)), i) == if i < |s.threads| then Context(s, i) else thread.registers
  {
  }

  // The others keep theirs when one leaves.
  lemma LeavingKeepsContexts(s: System, i: nat)
    requires InRing(s) && i < |s.threads|
    ensures KeepsContext(s, Leave, i)
  {
    if Index(s) > 0 {
      LeftInRing(s);
    }
  }

  // So a step keeps all contexts exactly if it is none of those that lose one.
  lemma StepKeepsContextsIff(s: System, e: Event)
    requires InRing(s)
    ensures (forall i :: 0 <= i < |s.threads| ==> KeepsContext(s, e, i)) <==> LosesNothing(s, e)
  {
    hide InRing, Context, LosesNothing;
    match e
    case Tick =>
      TickKeepsContextsIff(s);
      KeepsAll(s, Tick);
    case Switch =>
      SwitchKeepsContextsIff(s);
      KeepsAll(s, Switch);
    case _ => QuietStep(s, e);
  }

  lemma KeepsAll(s: System, e: Event)
    requires InRing(s) && (e == Tick || e == Switch) && |Step(s, e).threads| == |s.threads|
    ensures (forall i :: 0 <= i < |s.threads| ==> KeepsContext(s, e, i))
      <==> forall i :: 0 <= i < |s.threads| ==> Context(Step(s, e), i) == Context(s, i)
  {
    hide InRing, Context, Step;
    forall i | 0 <= i < |s.threads| ensures KeepsContext(s, e, i) <==> Context(Step(s, e), i) == Context(s, i) {
    }
  }

  lemma QuietStep(s: System, e: Event)
    requires InRing(s) && e != Tick && e != Switch
    ensures LosesNothing(s, e) && forall i :: 0 <= i < |s.threads| ==> KeepsContext(s, e, i)
  {
    forall i | 0 <= i < |s.threads| ensures KeepsContext(s, e, i) {
      match e
      case Add(thread) => AddingKeepsContexts(s, thread, i);
      case Leave => LeavingKeepsContexts(s, i);
      case _ =>
    }
  }

  predicate RunLosesNothing(s: System, events: seq<Event>)
    requires InRing(s)
    decreases |events|
  {
    events == [] || (
      StepStaysInRing(s, events[0]);
      LosesNothing(s, events[0]) && RunLosesNothing(Step(s, events[0]), events[1..]))
  }

  // In every run without such a step, with threads coming and going, a thread goes on with exactly
  // the context that it had when it was preempted, or with the one that it was created with.
  lemma {:induction false} ContextsArePreserved(s: System, events: seq<Event>, i: nat)
    requires InRing(s) && i < |s.threads| && RunLosesNothing(s, events)
    ensures
      var found := Followed(s, events, i, Context(s, i));
      found.Some? ==>
        var (k, context) := found.value;
        k < |After(s, events).threads| && Context(After(s, events), k) == context
    decreases |events|
  {
    hide InRing, Context, Step, LosesNothing;
    if events != [] {
      var e := events[0];
      StepStaysInRing(s, e);
      StepKeepsContextsIff(s, e);
      assert KeepsContext(s, e, i);
      match PlaceAfter(s, e, i)
      case None =>
      case Some(k) => ContextsArePreserved(Step(s, e), events[1..], k);
    }
  }

  // The part of a thread's record that no step changes, and the address space it runs in.
  ghost predicate KeepsSpace(s: System, i: nat, r: System, k: nat) {
    && i < |s.threads| && k < |r.threads|
    && r.threads[k].pagingDirectory == s.threads[i].pagingDirectory
    && r.threads[k].currentPath == s.threads[i].currentPath
    && r.threads[k].sleepTicksCount == s.threads[i].sleepTicksCount
    && (Works(r, k) ==> r.cr3 == s.threads[i].pagingDirectory)
  }

  lemma StepKeepsSpace(s: System, e: Event, i: nat)
    requires InRing(s) && i < |s.threads|
    ensures PlaceAfter(s, e, i).Some? ==> KeepsSpace(s, i, Step(s, e), PlaceAfter(s, e, i).value)
  {
    hide Ticked, Switched, Left, Added, Ring;
    StepStaysInRing(s, e);
    match e
    case Tick => TickKeepsSpace(s, i);
    case Leave =>
      if Index(s) > 0 {
        if i != Index(s) {
          LeavingKeepsSpace(s, i);
        }
      }
    case Switch => SwitchedIs(s);
    case Add(thread) => AddedIs(s.threads, s.base, thread);
    case _ =>
  }

  lemma TickKeepsSpace(s: System, i: nat)
    requires InRing(s) && i < |s.threads|
    ensures KeepsSpace(s, i, Ticked(s), i)
  {
    hide Ticked, Ring;
    TickedIs(s);
    IndexOfAddress(s.base, (Index(s) + 1) % |s.threads|);
  }

  lemma LeavingKeepsSpace(s: System, i: nat)
    requires InRing(s) && Index(s) > 0 && i < |s.threads| && i != Index(s)
    ensures KeepsSpace(s, i, Left(s), if i < Index(s) then i else i - 1)
  {
    hide Left, Ring;
    LeftIs(s);
  }

  // In every run, with threads coming and going, a thread keeps the directory it was created with,
  // and whenever the processor works for it, that directory is selected.
  lemma {:induction false} SpacesAreKept(s: System, events: seq<Event>, i: nat, context: Registers)
    requires InRing(s) && i < |s.threads|
    ensures
      var found := Followed(s, events, i, context);
      found.Some? ==> KeepsSpace(s, i, After(s, events), found.value.0)
    decreases |events|
  {
    hide Step, PlaceAfter;
    if events != [] {
      var e := events[0];
      StepStaysInRing(s, e);
      StepKeepsSpace(s, e, i);
      match PlaceAfter(s, e, i)
      case None =>
      case Some(k) =>
        SpacesAreKept(Step(s, e), events[1..], k, if e.Compute? && Works(s, i) then e.registers else context);
    }
  }

  // So a thread that is added runs with its own registers, in its own address space.
  lemma NewThreadRuns(s: System, thread: Thread, events: seq<Event>)
    requires InRing(s)
    ensures InRing(Step(s, Add(thread)))
    ensures RunLosesNothing(Step(s, Add(thread)), events) ==>
      var added := Step(s, Add(thread));
      var r, found := After(added, events), Followed(added, events, |s.threads|, thread.registers);
      found.Some? ==>
        var (k, context) := found.value;
        && k < |r.threads| && r.threads[k].pagingDirectory == thread.pagingDirectory
        && Context(r, k) == context && (Works(r, k) ==> r.cpu == context && r.cr3 == thread.pagingDirectory)
  {
    hide InRing, Step, After, Followed, Added;
    var added := Step(s, Add(thread));
    StepStaysInRing(s, Add(thread));
    AddStep(s, thread);
    AddingKeepsContexts(s, thread, |s.threads|);
    if RunLosesNothing(added, events) {
      ContextsArePreserved(added, events, |s.threads|);
      SpacesAreKept(added, events, |s.threads|, thread.registers);
    }
  }

  lemma AddStep(s: System, thread: Thread)
    requires InRing(s)
    ensures Step(s, Add(thread)).threads == Added(s.threads, s.base, thread)
    ensures Added(s.threads, s.base, thread)[|s.threads|].pagingDirectory == thread.pagingDirectory
  {
    AddedIs(s.threads, s.base, thread);
  }

  // Every thread that leaves is switched away from at once, and there is no other switch.
  predicate IsPrompt(s: System, events: seq<Event>)
    requires InRing(s)
    decreases |events|
  {
    events == [] || (
      StepStaysInRing(s, events[0]);
      var t := Step(s, events[0]);
      if t.leaving then
        |events| > 1 && events[1] == Switch && (StepStaysInRing(t, Switch); IsPrompt(Step(t, Switch), events[2..]))
      else events[0] != Switch && IsPrompt(t, events[1..]))
  }

  // Such a run loses nothing, whatever ticks there are.
  lemma {:induction false} PromptRunLosesNothing(s: System, events: seq<Event>)
    requires InRing(s) && !s.leaving && IsPrompt(s, events)
    ensures RunLosesNothing(s, events)
    decreases |events|
  {
    hide InRing;
    if events != [] {
      StepStaysInRing(s, events[0]);
      var t := Step(s, events[0]);
      if t.leaving {
        StepStaysInRing(t, Switch);
        PromptRunLosesNothing(Step(t, Switch), events[2..]);
        assert events[1..][1..] == events[2..];
      } else {
        PromptRunLosesNothing(t, events[1..]);
      }
    }
  }

  // Threads never change places with each other: of two, the one that came first stays first.
  lemma {:induction false} ThreadsStayApart(s: System, events: seq<Event>, i: nat, k: nat, a: Registers, b: Registers)
    requires InRing(s) && i < k
    ensures Followed(s, events, i, a).Some? && Followed(s, events, k, b).Some? ==>
      Followed(s, events, i, a).value.0 < Followed(s, events, k, b).value.0
    decreases |events|
  {
    hide InRing, Step;
    if events != [] {
      var e := events[0];
      StepStaysInRing(s, e);
      if PlaceAfter(s, e, i).Some? && PlaceAfter(s, e, k).Some? {
        ThreadsStayApart(Step(s, e), events[1..], PlaceAfter(s, e, i).value, PlaceAfter(s, e, k).value,
                         if e.Compute? && Works(s, i) then e.registers else a,
                         if e.Compute? && Works(s, k) then e.registers else b);
      }
    }
  }

  // ---- fairness ----

  // No thread comes, leaves or gives the processor away.
  predicate IsUndisturbed(e: Event) {
    e.Tick? || e.Compute? || e.SetSwitching?
  }

  // The number of ticks in `events` that find switching turned on.
  function EnabledTicks(enabled: bool, events: seq<Event>): nat
    decreases |events|
  {
    if events == [] then 0
    else
      match events[0]
      case Tick => (if enabled then 1 else 0) + EnabledTicks(enabled, events[1..])
      case Compute(_) => EnabledTicks(enabled, events[1..])
      case SetSwitching(on) => EnabledTicks(on, events[1..])
      case _ => EnabledTicks(enabled, events[1..])
  }

  // How often thread `i` of `n` has been charged with a tick after `t` of them: whole rounds, and
  // its part of the last one.  The second thread comes first.
  function Worked(i: nat, n: nat, t: nat): nat
    requires i < n
  {
    var place, rounds, slot := PlaceOf(i, n), t / 101 / n, t / 101 % n;
    101 * rounds + (if place < slot then 101 else if place == slot then t % 101 else 0)
  }

  function PlaceOf(i: nat, n: nat): (p: nat)
    requires i < n
    ensures p < n
  {
    if i > 0 then i - 1 else n - 1
  }

  // The thread that has the processor in slot `q`.
  function Holder(q: nat, n: nat): (i: nat)
    requires n > 0
    ensures i < n
  {
    NextIndex(q % n, n)
  }

  lemma HolderIs(q: nat, n: nat)
    requires n > 0
    ensures Holder(q, n) == (1 + q) % n && PlaceOf(Holder(q, n), n) == q % n
  {
    NextSlot(q, n);
  }

  // The state after `t` ticks with switching on, of threads that started with a full count.
  ghost predicate Fair(s: System, t: nat) {
    var n := |s.threads|;
    && InRing(s) && !s.leaving
    && Index(s) == Holder(t / 101, n)
    && (forall i :: 0 <= i < n ==> s.threads[i].ticksBeforeSwitch == if i == Index(s) then 100 - t % 101 else 100)
    && (forall i :: 0 <= i < n ==> s.threads[i].workedTicks == Worked(i, n, t) % 0x1_0000_0000)
  }

  // One more tick is charged to the thread that holds the slot.
  lemma WorkedStep(i: nat, n: nat, t: nat)
    requires i < n
    ensures Worked(i, n, t + 1) == Worked(i, n, t) + if i == Holder(t / 101, n) then 1 else 0
  {
    var q, r := t / 101, t % 101;
    HolderIs(q, n);
    if r < 100 {
      assert (t + 1) / 101 == q && (t + 1) % 101 == r + 1;
    } else {
      assert (t + 1) / 101 == q + 1 && (t + 1) % 101 == 0;
      NextSlot(q, n);
    }
    SamePlace(i, Holder(q, n), n);
  }

  lemma SamePlace(i: nat, k: nat, n: nat)
    requires i < n && k < n
    ensures PlaceOf(i, n) == PlaceOf(k, n) <==> i == k
  {
  }

  lemma NextSlot(q: nat, n: nat)
    requires n > 0
    ensures if q % n + 1 < n then (q + 1) / n == q / n && (q + 1) % n == q % n + 1
            else (q + 1) / n == q / n + 1 && (q + 1) % n == 0
  {
    var a, r := q / n, q % n;
    Division(q, n);
    if r + 1 < n {
      Remainder(a, n, r + 1);
    } else {
      OneMore(a, n);
      Remainder(a + 1, n, 0);
    }
  }

  lemma Division(q: nat, n: nat)
    requires n > 0
    ensures q == q / n * n + q % n && q % n < n
  {
  }

  lemma OneMore(a: nat, n: nat)
    ensures (a + 1) * n == a * n + n
  {
  }

  lemma FairTick(s: System, t: nat)
    requires Fair(s, t) && s.enabled
    ensures Fair(Ticked(s), t + 1)
  {
    hide Worked, Holder;
    var n, i := |s.threads|, Index(s);
    IndexOfAddress(s.base, NextIndex(i, n));
    forall k | 0 <= k < n ensures Ticked(s).threads[k].workedTicks == Worked(k, n, t + 1) % 0x1_0000_0000 {
      WorkedStep(k, n, t);
      WrappedSuccessor(Worked(k, n, t));
    }
    HolderAfter(t, n);
    StepStaysInRing(s, Tick);
  }

  lemma WrappedSuccessor(w: nat)
    ensures (w % 0x1_0000_0000 + 1) % 0x1_0000_0000 == (w + 1) % 0x1_0000_0000
  {
  }

  lemma HolderAfter(t: nat, n: nat)
    requires n > 0
    ensures if t % 101 == 100 then (t + 1) % 101 == 0 && Holder((t + 1) / 101, n) == NextIndex(Holder(t / 101, n), n)
            else (t + 1) % 101 == t % 101 + 1 && Holder((t + 1) / 101, n) == Holder(t / 101, n)
  {
    if t % 101 == 100 {
      assert (t + 1) / 101 == t / 101 + 1;
      NextSlot(t / 101, n);
    } else {
      assert (t + 1) / 101 == t / 101;
    }
  }

  // The closed form: it depends on the number of ticks with switching on, and on nothing else.
  lemma {:induction false} ClosedForm(s: System, t: nat, events: seq<Event>)
    requires Fair(s, t) && forall i :: 0 <= i < |events| ==> IsUndisturbed(events[i])
    ensures Fair(After(s, events), t + EnabledTicks(s.enabled, events))
    decreases |events|
  {
    hide Fair, Ticked, InRing;
    if events != [] {
      var e := events[0];
      FairStep(s, t, e);
      ClosedForm(Step(s, e), if e == Tick && s.enabled then t + 1 else t, events[1..]);
    }
  }

  lemma FairStep(s: System, t: nat, e: Event)
    requires Fair(s, t) && IsUndisturbed(e)
    ensures InRing(s) && Fair(Step(s, e), if e == Tick && s.enabled then t + 1 else t)
    ensures Step(s, e).enabled == if e.SetSwitching? then e.on else s.enabled
  {
    hide Worked, Holder;
    if e == Tick && s.enabled {
      FairTick(s, t);
    }
  }

  function Ticks(events: seq<Event>): nat {
    if events == [] then 0 else (if events[0] == Tick then 1 else 0) + Ticks(events[1..])
  }

  // However many ticks come while switching is off, the current thread keeps the processor, and
  // only the global count goes on.
  lemma {:induction false} DisabledTicks(s: System, events: seq<Event>)
    requires InRing(s) && !s.enabled
    requires forall i :: 0 <= i < |events| ==> events[i].Tick? || events[i].Compute?
    ensures
      var r := After(s, events);
      && r.threads == s.threads && r.current == s.current && r.cr3 == s.cr3 && !r.enabled && r.leaving == s.leaving
      && r.ticks % 0x1_0000_0000 == (s.ticks + Ticks(events)) % 0x1_0000_0000
    decreases |events|
  {
    if events != [] {
      StepStaysInRing(s, events[0]);
      DisabledTicks(Step(s, events[0]), events[1..]);
      TicksAdd(s.ticks, if events[0] == Tick then 1 else 0, Ticks(events[1..]));
    }
  }

  lemma TicksAdd(ticks: nat, one: nat, more: nat)
    ensures ((ticks + one) % 0x1_0000_0000 + more) % 0x1_0000_0000 == (ticks + (one + more)) % 0x1_0000_0000
    ensures (ticks + one + more) % 0x1_0000_0000 == (ticks + (one + more)) % 0x1_0000_0000
  {
  }

  function Total(n: nat, t: nat, i: nat): nat
    requires i <= n
    decreases i
  {
    if i == 0 then 0 else Total(n, t, i - 1) + Worked(i - 1, n, t)
  }

  lemma {:induction false} TotalStep(n: nat, t: nat, i: nat)
    requires i <= n && n > 0
    ensures Total(n, t + 1, i) == Total(n, t, i) + if Holder(t / 101, n) < i then 1 else 0
    decreases i
  {
    if i > 0 {
      TotalStep(n, t, i - 1);
      WorkedStep(i - 1, n, t);
    }
  }

  lemma {:induction false} NothingWorked(n: nat, i: nat)
    requires i <= n && n > 0
    ensures Total(n, 0, i) == 0
    decreases i
  {
    if i > 0 {
      NothingWorked(n, i - 1);
      Remainder(0, n, 0);
    }
  }

  // Every tick is charged to one thread, and no thread gets more than one slot ahead of another.
  lemma {:induction false} TicksAreShared(n: nat, t: nat)
    requires n > 0
    ensures Total(n, t, n) == t
    ensures forall i, k :: 0 <= i < n && 0 <= k < n ==> Worked(i, n, t) <= Worked(k, n, t) + 101
  {
    if t == 0 {
      NothingWorked(n, n);
    } else {
      TicksAreShared(n, t - 1);
      TotalStep(n, t - 1, n);
    }
  }

  // ---- starting ----

  lemma SwitchedInRing(s: System)
    requires OnRing(s)
    ensures InRing(Switched(s)) && Switched(s).threads == s.threads && Switched(s).base == s.base
  {
    IndexOfAddress(s.base, NextIndex(Index(s), |s.threads|));
  }

  // The first run begins with a voluntary switch from the first thread.
  function Started(s: System, ticks: nat): (r: System)
    requires Ring(s.threads, s.base)
    ensures InRing(r) && r.threads == s.threads && r.enabled == s.enabled
  {
    IndexOfAddress(s.base, 0);
    SwitchedInRing(s.(current := s.base, ticks := ticks));
    Switched(s.(current := s.base, ticks := ticks))
  }

  // Starting with fresh threads, every run shares the processor fairly.
  lemma StartIsFair(s: System, ticks: nat)
    requires Ring(s.threads, s.base)
    requires forall i :: 0 <= i < |s.threads| ==> s.threads[i].ticksBeforeSwitch == 100 && s.threads[i].workedTicks == 0
    ensures Fair(Started(s, ticks), 0)
    ensures Started(s, ticks).ticks == ticks && Started(s, ticks).cpu == s.threads[1 % |s.threads|].registers
    ensures Started(s, ticks).cr3 == s.threads[1 % |s.threads|].pagingDirectory
  {
    var n, first := |s.threads|, s.(current := s.base, ticks := ticks);
    IndexOfAddress(s.base, 0);
    SwitchedInRing(first);
    IndexOfAddress(s.base, NextIndex(0, n));
    Remainder(0, n, 0);
    forall i | 0 <= i < n ensures Worked(i, n, 0) == 0 {
    }
  }

  // Any run of fresh threads, in full: who has the processor, how much each has been charged with,
  // that this adds up, and that nobody is more than a slot ahead.
  lemma FairSchedule(s: System, ticks: nat, events: seq<Event>)
    requires Ring(s.threads, s.base)
    requires forall i :: 0 <= i < |s.threads| ==> s.threads[i].ticksBeforeSwitch == 100 && s.threads[i].workedTicks == 0
    requires forall i :: 0 <= i < |events| ==> IsUndisturbed(events[i])
    ensures
      var n, r, t := |s.threads|, After(Started(s, ticks), events), EnabledTicks(s.enabled, events);
      && Index(r) == (1 + t / 101) % n
      && (forall i :: 0 <= i < n ==> r.threads[i].workedTicks == Worked(i, n, t) % 0x1_0000_0000)
      && Total(n, t, n) == t
      && forall i, k :: 0 <= i < n && 0 <= k < n ==> Worked(i, n, t) <= Worked(k, n, t) + 101
  {
    hide Worked, Total, Fair, After, EnabledTicks, Started;
    var n, t := |s.threads|, EnabledTicks(s.enabled, events);
    StartIsFair(s, ticks);
    ClosedForm(Started(s, ticks), 0, events);
    FairMeans(After(Started(s, ticks), events), n, t);
    TicksAreShared(n, t);
  }

  lemma FairMeans(s: System, n: nat, t: nat)
    requires Fair(s, t) && n == |s.threads| > 0
    ensures Index(s) == (1 + t / 101) % n
    ensures forall i :: 0 <= i < n ==> s.threads[i].workedTicks == Worked(i, n, t) % 0x1_0000_0000
  {
    hide Worked;
    HolderIs(t / 101, n);
  }

  // ---- adding and removing threads ----

  // The array with one more thread at its end.
  function Added(threads: seq<Thread>, base: nat, thread: Thread): (r: seq<Thread>)
    ensures |r| == |threads| + 1
  {
    var linked :=
      if threads == [] then []
      else threads[|threads| - 1 := threads[|threads| - 1].(next := AddressAt(base, |threads|))];
    linked + [thread.(next := base)]
  }

  lemma AddingKeepsRing(threads: seq<Thread>, base: nat, thread: Thread)
    requires threads == [] || Ring(threads, base)
    ensures Ring(Added(threads, base, thread), base)
  {
  }

  // When the array moves, the links inside it go on pointing to where it was.
  lemma MovingKeepsRingIff(threads: seq<Thread>, base: nat, newBase: nat, thread: Thread)
    requires Ring(threads, base)
    ensures Ring(Added(threads, newBase, thread), newBase) <==> newBase == base || |threads| == 1
  {
    var r := Added(threads, newBase, thread);
    if newBase == base {
      AddingKeepsRing(threads, base, thread);
    } else if |threads| > 1 {
      assert r[0].next == AddressAt(base, 1) != AddressAt(newBase, 1);
    }
  }

  // The array without thread `k`; the ones behind it move up.
  function Removed(threads: seq<Thread>, base: nat, k: nat): (r: seq<Thread>)
    requires 0 < k < |threads|
    ensures |r| == |threads| - 1
    ensures forall i :: 0 <= i < |r| ==> r[i] == threads[Source(k, i)].(next := r[i].next)
  {
    var n := |threads| - 1;
    seq(n, i requires 0 <= i < n =>
      if i == n - 1 then threads[Source(k, i)].(next := base)
      else if i < k then threads[i]
      else threads[i + 1].(next := AddressAt(base, i + 1)))
  }

  // Where the thread that is `i`th without thread `k` was before.
  function Source(k: nat, i: nat): nat {
    if i < k then i else i + 1
  }

  lemma RemovingKeepsRing(threads: seq<Thread>, base: nat, k: nat)
    requires Ring(threads, base) && 0 < k < |threads|
    ensures Ring(Removed(threads, base, k), base)
  {
  }

  // What is left after the current thread has removed itself, if no interrupt comes in between:
  // the processor goes on with the thread behind the first one.
  function WithoutCurrent(s: System): System
    requires InRing(s) && Index(s) > 0
  {
    LeftInRing(s);
    Switched(Left(s))
  }

  // The others keep their contexts.
  lemma RemovalKeepsContexts(s: System, i: nat)
    requires InRing(s) && Index(s) > 0 && i < |s.threads| - 1
    ensures InRing(WithoutCurrent(s)) && |WithoutCurrent(s).threads| == |s.threads| - 1
    ensures Context(WithoutCurrent(s), i) == Context(s, Source(Index(s), i))
  {
    LeftInRing(s);
    RemovingKeepsRing(s.threads, s.base, Index(s));
    SwitchedInRing(Left(s));
    IndexOfAddress(s.base, NextIndex(0, |s.threads| - 1));
  }

  // One step of the removal loop has been done for the threads from `k` to `i`.
  function Shifted(threads: seq<Thread>, base: nat, k: nat, i: nat): (r: seq<Thread>)
    requires k <= i < |threads|
    ensures |r| == |threads|
  {
    seq(|threads|, j requires 0 <= j < |threads| =>
      if k <= j < i then threads[j + 1].(next := AddressAt(base, j + 1)) else threads[j])
  }

  lemma ShiftedStep(threads: seq<Thread>, base: nat, k: nat, i: nat)
    requires k <= i < |threads| - 1
    ensures Shifted(threads, base, k, i)[i := Shifted(threads, base, k, i)[i + 1].(next := AddressAt(base, i + 1))]
      == Shifted(threads, base, k, i + 1)
  {
  }

  lemma ShiftedStart(threads: seq<Thread>, base: nat, k: nat)
    requires k < |threads|
    ensures Shifted(threads, base, k, k) == threads
  {
  }

  lemma ShiftedEnd(threads: seq<Thread>, base: nat, k: nat)
    requires 0 < k < |threads|
    ensures
      var n := |threads| - 1;
      var r := Shifted(threads, base, k, n);
      r[..n][n - 1 := r[n - 1].(next := base)] == Removed(threads, base, k)
  {
  }
}
