/** Safety of the interrupt monitor over every interleaving. */
module IrqInvariant {
  import opened MachineInts
  import opened IrqSteps

  /** What the sixteen vectors can hold before the monitor starts: a handler or 0:0. */
  predicate Genuine(originals: seq<Handler>) {
    |originals| == IRQ_COUNT && forall i | 0 <= i < IRQ_COUNT :: !originals[i].Monitor?
  }

  /** Which vectors the monitor owns at this point of the foreground. */
  predicate Owned(s: State, i: nat) {
    match s.fg
    case InstallSave(k) => i < k
    case InstallSet(k) => i < k
    case InstallMark => true
    case Uninstall(k) => i >= k
    case UninstallMark => false
    case _ => s.installed
  }

  predicate FlagFits(s: State) {
    match s.fg
    case InstallSave(k) => k <= IRQ_COUNT && !s.installed
    case InstallSet(k) => k < IRQ_COUNT && !s.installed
    case InstallMark => !s.installed
    case Uninstall(k) => k <= IRQ_COUNT && s.installed
    case UninstallMark => s.installed
    case _ => true
  }

  /** An owned vector points at the monitor and its genuine handler is saved; any other is original.
      A vector that was null may stay on the monitor and be saved from there. */
  ghost predicate HookOk(s: State, originals: seq<Handler>, i: nat)
    requires Sized(s) && Genuine(originals) && i < IRQ_COUNT
  {
    if originals[i] == Null then
      && (Owned(s, i) ==> s.vectors[i] == Monitor(i))
      && (s.vectors[i] == Null || s.vectors[i] == Monitor(i))
      && (s.saved[i] == Null || s.saved[i] == Monitor(i))
    else
      && s.vectors[i] == (if Owned(s, i) then Monitor(i) else originals[i])
      && (Owned(s, i) || s.fg == InstallSet(i) || s.installed ==> s.saved[i] == originals[i])
  }

  ghost predicate HooksOk(s: State, originals: seq<Handler>)
    requires Sized(s) && Genuine(originals)
  {
    FlagFits(s) && forall i | 0 <= i < IRQ_COUNT :: HookOk(s, originals, i)
  }

  predicate Critical(fg: Foreground) { fg.InstallSave? || fg.InstallSet? || fg.Uninstall? || fg.Clear? }

  /** Only the innermost frame can be inside the monitor, with interrupts off; every frame that still
      has to chain has its handler saved, unless there was none. */
  ghost predicate StackOk(s: State, originals: seq<Handler>)
    requires Sized(s) && Genuine(originals)
  {
    && (Critical(s.fg) ==> s.stack == [] && !s.interrupts)
    && (forall k | 0 <= k < |s.stack| :: s.stack[k].irq < IRQ_COUNT)
    && (forall k | 0 <= k < |s.stack| - 1 :: s.stack[k].phase == InOriginal)
    && (s.stack != [] && !TopInOriginal(s) ==>
          var top := s.stack[|s.stack| - 1].irq;
          !s.interrupts && (originals[top].Original? ==> s.saved[top] == originals[top]))
  }

  predicate TopAt(s: State, i: nat, phase: Phase) {
    s.stack != [] && s.stack[|s.stack| - 1] == Frame(i, phase)
  }

  /** The unbounded tallies against the machine's 32-bit arrays, for one IRQ. */
  ghost predicate CountersOk(s: State, i: nat)
    requires Sized(s) && i < IRQ_COUNT
  {
    var t := s.tally[i];
    && t.clearedAt <= t.counted
    && s.counts[i] == Trunc32(t.counted - t.clearedAt)
    && t.delivered == t.counted + (if TopAt(s, i, Counting) then 1 else 0)
    && t.counted == t.chained + (if TopAt(s, i, Chaining) then 1 else 0)
    && t.sampled == (if s.fg.SampleLast? && s.fg.i == i then s.fg.current else s.last[i]) + TWO32 * t.borrows
  }

  ghost predicate Inv(s: State, originals: seq<Handler>) {
    && Sized(s) && Genuine(originals)
    && HooksOk(s, originals)
    && StackOk(s, originals)
    && forall i | 0 <= i < IRQ_COUNT :: CountersOk(s, i)
  }

  lemma StartInv(originals: seq<Handler>)
    requires Genuine(originals)
    ensures Inv(Start(originals), originals)
  {
  }

  lemma BeginInv(s: State, originals: seq<Handler>, e: Event)
    requires Inv(s, originals) && s.stack == [] && s.fg == Idle
    ensures Inv(Begin(s, e), originals)
  {
    var n := Begin(s, e);
    forall i | 0 <= i < IRQ_COUNT
      ensures HookOk(n, originals, i) && CountersOk(n, i)
    {
      assert HookOk(s, originals, i) && CountersOk(s, i);
    }
  }

  lemma HooksInv(s: State, originals: seq<Handler>)
    requires Inv(s, originals) && s.stack == [] && Hooking(s.fg)
    ensures Inv(AdvanceHooks(s), originals)
  {
    var n := AdvanceHooks(s);
    HooksAdvance(s, originals);
    hide HookOk, HooksOk, FlagFits, StackOk, Trunc32, Owned;
    forall i | 0 <= i < IRQ_COUNT
      ensures CountersOk(n, i)
    {
      assert CountersOk(s, i);
    }
  }

  lemma HooksAdvance(s: State, originals: seq<Handler>)
    requires Sized(s) && Genuine(originals) && HooksOk(s, originals) && StackOk(s, originals)
    requires s.stack == [] && Hooking(s.fg)
    ensures HooksOk(AdvanceHooks(s), originals) && StackOk(AdvanceHooks(s), originals)
  {
    var n := AdvanceHooks(s);
    forall i | 0 <= i < IRQ_COUNT
      ensures HookOk(n, originals, i)
    {
      assert HookOk(s, originals, i);
    }
  }

  lemma CountersInv(s: State, originals: seq<Handler>)
    requires Inv(s, originals) && s.stack == [] && !Hooking(s.fg)
    ensures Inv(AdvanceCounters(s), originals)
  {
    var n := AdvanceCounters(s);
    CountersLeaveHooks(s, originals);
    forall i | 0 <= i < IRQ_COUNT
      ensures CountersOk(n, i)
    {
      CountersAdvance(s, i);
    }
  }

  lemma CountersLeaveHooks(s: State, originals: seq<Handler>)
    requires Sized(s) && Genuine(originals) && HooksOk(s, originals) && StackOk(s, originals)
    requires s.stack == [] && !Hooking(s.fg)
    ensures HooksOk(AdvanceCounters(s), originals) && StackOk(AdvanceCounters(s), originals)
  {
    CountersFrame(s);
    hide AdvanceCounters;
    forall i | 0 <= i < IRQ_COUNT
      ensures HookOk(AdvanceCounters(s), originals, i)
    {
      assert HookOk(s, originals, i);
    }
  }

  /** Sampling and clearing leave the hooks alone, and interrupts off where they were. */
  lemma CountersFrame(s: State)
    requires Sized(s) && !Hooking(s.fg)
    ensures var n := AdvanceCounters(s);
      && n.vectors == s.vectors && n.saved == s.saved && n.installed == s.installed && n.stack == s.stack
      && !Hooking(n.fg) && (Critical(n.fg) ==> Critical(s.fg) && n.interrupts == s.interrupts)
  {
    hide Halves, Diff32;
  }

  lemma CountersAdvance(s: State, i: nat)
    requires Sized(s) && i < IRQ_COUNT && CountersOk(s, i) && s.stack == []
    ensures CountersOk(AdvanceCounters(s), i)
  {
    hide Halves, Diff32, Trunc32;
    if s.fg.SampleRate? && s.fg.i == i {
      Borrow(s.fg.current, s.last[i]);
    }
    assert Trunc32(0) == 0;
  }

  /** An unsigned difference is the signed one, plus 2^32 when it borrows. */
  lemma Borrow(current: U32, last: U32)
    ensures Diff32(current, last) == current - last + (if current < last then TWO32 else 0)
  {
  }

  lemma TakeInv(s: State, originals: seq<Handler>, irq: nat)
    requires Inv(s, originals) && s.interrupts && irq < IRQ_COUNT
    ensures Inv(Take(s, irq), originals)
  {
    TakeHooks(s, originals, irq);
    hide HookOk, HooksOk, StackOk, CountersOk, TopInOriginal, Take;
    forall i | 0 <= i < IRQ_COUNT
      ensures CountersOk(Take(s, irq), i)
    {
      TakeCounters(s, irq, i);
    }
  }

  lemma TakeCounters(s: State, irq: nat, i: nat)
    requires Sized(s) && irq < IRQ_COUNT && i < IRQ_COUNT && CountersOk(s, i)
    requires s.vectors[irq].Monitor? ==> s.vectors[irq].irq == irq
    requires s.stack == [] || TopInOriginal(s)
    ensures CountersOk(Take(s, irq), i)
  {
    hide Trunc32;
  }

  lemma TakeHooks(s: State, originals: seq<Handler>, irq: nat)
    requires Inv(s, originals) && s.interrupts && irq < IRQ_COUNT
    ensures HooksOk(Take(s, irq), originals) && StackOk(Take(s, irq), originals)
    ensures s.vectors[irq].Monitor? ==> s.vectors[irq].irq == irq
    ensures s.stack == [] || TopInOriginal(s)
  {
    hide CountersOk;
    assert HookOk(s, originals, irq);
    TakeLeavesHooks(s, originals, irq);
  }

  lemma TakeLeavesHooks(s: State, originals: seq<Handler>, irq: nat)
    requires Sized(s) && Genuine(originals) && HooksOk(s, originals) && irq < IRQ_COUNT
    ensures HooksOk(Take(s, irq), originals)
  {
    forall i | 0 <= i < IRQ_COUNT
      ensures HookOk(Take(s, irq), originals, i)
    {
      assert HookOk(s, originals, i);
    }
  }

  lemma HandleInv(s: State, originals: seq<Handler>)
    requires Inv(s, originals) && s.stack != []
    ensures Inv(HandleTop(s), originals)
  {
    var n := HandleTop(s);
    HandleHooks(s, originals);
    forall i | 0 <= i < IRQ_COUNT
      ensures CountersOk(n, i)
    {
      assert CountersOk(s, i);
      HandleCounters(s, i);
    }
  }

  lemma HandleHooks(s: State, originals: seq<Handler>)
    requires Inv(s, originals) && s.stack != []
    ensures HooksOk(HandleTop(s), originals) && StackOk(HandleTop(s), originals)
  {
    hide CountersOk, Inc32;
    forall i | 0 <= i < IRQ_COUNT
      ensures HookOk(HandleTop(s), originals, i)
    {
      assert HookOk(s, originals, i);
    }
  }

  lemma HandleCounters(s: State, i: nat)
    requires Sized(s) && s.stack != [] && i < IRQ_COUNT && CountersOk(s, i)
    ensures CountersOk(HandleTop(s), i)
  {
    hide Inc32, Trunc32;
    if s.stack[|s.stack| - 1].irq == i { HandleOwn(s, i); } else { HandleOther(s, i); }
  }

  lemma HandleOwn(s: State, i: nat)
    requires Sized(s) && s.stack != [] && i < IRQ_COUNT && CountersOk(s, i) && s.stack[|s.stack| - 1].irq == i
    ensures CountersOk(HandleTop(s), i)
  {
    hide Inc32, Trunc32;
    IncrementCounted(s.tally[i].counted, s.tally[i].clearedAt);
    var n := HandleTop(s);
    match s.stack[|s.stack| - 1].phase
    case Counting => assert n.stack[|n.stack| - 1] == Frame(i, Chaining);
    case Chaining => if s.saved[i].Original? { assert n.stack[|n.stack| - 1] == Frame(i, InOriginal); }
    case InOriginal =>
  }

  lemma HandleOther(s: State, i: nat)
    requires Sized(s) && s.stack != [] && i < IRQ_COUNT && CountersOk(s, i) && s.stack[|s.stack| - 1].irq != i
    ensures CountersOk(HandleTop(s), i)
  {
    hide Inc32, Trunc32;
    var n := HandleTop(s);
    assert n.stack != [] && n.stack[|n.stack| - 1].irq == s.stack[|s.stack| - 1].irq;
  }

  lemma IncrementCounted(counted: nat, clearedAt: nat)
    requires clearedAt <= counted
    ensures Inc32(Trunc32(counted - clearedAt)) == Trunc32(counted + 1 - clearedAt)
  {
  }

  lemma ReturnInv(s: State, originals: seq<Handler>, e: Event)
    requires Inv(s, originals) && TopInOriginal(s) && e in {HandlerEnables, HandlerDisables, HandlerReturns}
    ensures Inv(Step(s, e), originals)
  {
    ReturnHooks(s, originals, e);
    hide HookOk, HooksOk, StackOk, CountersOk, Step;
    forall i | 0 <= i < IRQ_COUNT
      ensures CountersOk(Step(s, e), i)
    {
      ReturnCounters(s, e, i);
    }
  }

  lemma ReturnHooks(s: State, originals: seq<Handler>, e: Event)
    requires Inv(s, originals) && TopInOriginal(s) && e in {HandlerEnables, HandlerDisables, HandlerReturns}
    ensures HooksOk(Step(s, e), originals) && StackOk(Step(s, e), originals)
  {
    hide CountersOk;
    forall i | 0 <= i < IRQ_COUNT
      ensures HookOk(Step(s, e), originals, i)
    {
      assert HookOk(s, originals, i);
    }
    hide HookOk;
  }

  lemma ReturnCounters(s: State, e: Event, i: nat)
    requires Sized(s) && i < IRQ_COUNT && CountersOk(s, i)
    requires TopInOriginal(s) && e in {HandlerEnables, HandlerDisables, HandlerReturns}
    requires forall k | 0 <= k < |s.stack| - 1 :: s.stack[k].phase == InOriginal
    ensures CountersOk(Step(s, e), i)
  {
    hide Trunc32;
  }

  /** Every event keeps the invariant. */
  lemma StepInv(s: State, originals: seq<Handler>, e: Event)
    requires Inv(s, originals)
    ensures Inv(Step(s, e), originals)
  {
    match e
    case Deliver(irq) => if s.interrupts && irq < IRQ_COUNT { TakeInv(s, originals, irq); }
    case Handle => if s.stack != [] { HandleInv(s, originals); }
    case HandlerEnables => if TopInOriginal(s) { ReturnInv(s, originals, e); }
    case HandlerDisables => if TopInOriginal(s) { ReturnInv(s, originals, e); }
    case HandlerReturns => if TopInOriginal(s) { ReturnInv(s, originals, e); }
    case Advance =>
      if s.stack == [] {
        if Hooking(s.fg) { HooksInv(s, originals); } else { CountersInv(s, originals); }
      }
    case _ => if s.stack == [] && s.fg == Idle { BeginInv(s, originals, e); }
  }

  lemma {:induction false} RunInv(s: State, originals: seq<Handler>, events: seq<Event>)
    requires Inv(s, originals)
    ensures Inv(Run(s, events), originals)
    decreases |events|
  {
    if events != [] {
      hide Step, Inv;
      StepInv(s, originals, events[0]);
      InvSized(s, originals);
      RunInv(Step(s, events[0]), originals, events[1..]);
    }
  }

  lemma InvSized(s: State, originals: seq<Handler>)
    requires Inv(s, originals)
    ensures Sized(s)
  {
  }

  // ----- what the invariant means

  /** In every interleaving, a vector that points at a monitor handler has its genuine previous handler
      saved, and every other vector is what it was. A vector that was null is null or the monitor's,
      and nothing but null or the monitor's own handler is ever saved for it. */
  lemma HookedVectorsAreSaved(originals: seq<Handler>, events: seq<Event>, i: nat)
    requires Genuine(originals) && i < IRQ_COUNT
    ensures var s := Run(Start(originals), events);
      && (originals[i] != Null ==> s.vectors[i] == originals[i] || (s.vectors[i] == Monitor(i) && s.saved[i] == originals[i]))
      && (originals[i] == Null ==> s.vectors[i] in {Null, Monitor(i)} && s.saved[i] in {Null, Monitor(i)})
  {
    StartInv(originals);
    RunInv(Start(originals), originals, events);
    hide Run;
    assert HookOk(Run(Start(originals), events), originals, i);
  }

  /** Every interrupt that entered the monitor has been counted once and chained once to the original
      handler by the time the foreground runs again. */
  lemma DeliveredCountedChained(originals: seq<Handler>, events: seq<Event>, i: nat)
    requires Genuine(originals) && i < IRQ_COUNT
    ensures var s := Run(Start(originals), events);
      var t := s.tally[i];
      && t.chained <= t.counted <= t.delivered <= t.chained + 1
      && (s.stack == [] || TopInOriginal(s) ==> t.delivered == t.counted == t.chained)
  {
    StartInv(originals);
    RunInv(Start(originals), originals, events);
    assert CountersOk(Run(Start(originals), events), i);
    hide Run;
  }

  /** The interrupts of IRQ i counted since the last clear. */
  function SinceClear(s: State, i: nat): int
    requires Sized(s) && i < IRQ_COUNT
  {
    s.tally[i].counted - s.tally[i].clearedAt
  }

  /** A truncated count with 2^32 for every borrow, against the count itself. */
  lemma WrapAccount(since: nat, borrows: nat)
    ensures Trunc32(since) + TWO32 * borrows == since + TWO32 * (borrows - since / TWO32)
    ensures Trunc32(since) + TWO32 * borrows == since <==> borrows == since / TWO32
  {
    assert since == since / TWO32 * TWO32 + Trunc32(since);
  }

  /** Between clears, whatever is torn or wraps: the sampled rates add up to last_counts plus 2^32 for
      every sample that read less than the one before. With the unsampled rest they are exactly the
      interrupts counted since the clear if and only if the counter wrapped as often as a sample
      borrowed; modulo 2^32 they always are. */
  lemma RatesAddUp(originals: seq<Handler>, events: seq<Event>, i: nat)
    requires Genuine(originals) && i < IRQ_COUNT
    ensures var s := Run(Start(originals), events);
      var t := s.tally[i];
      (s.fg.SampleLast? ==> s.fg.i != i) ==>
        var accounted := t.sampled + s.counts[i] as int - s.last[i];
        && t.sampled == s.last[i] + TWO32 * t.borrows
        && SinceClear(s, i) >= 0
        && accounted == SinceClear(s, i) + TWO32 * (t.borrows - SinceClear(s, i) / TWO32)
        && (accounted == SinceClear(s, i) <==> t.borrows == SinceClear(s, i) / TWO32)
  {
    StartInv(originals);
    RunInv(Start(originals), originals, events);
    hide Run;
    var s := Run(Start(originals), events);
    assert CountersOk(s, i);
    WrapAccount(SinceClear(s, i), s.tally[i].borrows);
    hide Trunc32, Inv, HookOk, HooksOk, StackOk;
  }

  /** Any history that ends uninstalled has put back every original handler there was, however often the
      monitor was installed on the way. */
  lemma UninstalledIsRestored(originals: seq<Handler>, events: seq<Event>)
    requires Genuine(originals)
    ensures var s := Run(Start(originals), events);
      s.fg == Idle && !s.installed ==>
        && (forall i | 0 <= i < IRQ_COUNT && originals[i] != Null :: s.vectors[i] == originals[i])
        && (s.vectors == originals <==> forall i | 0 <= i < IRQ_COUNT && originals[i] == Null :: s.vectors[i] == Null)
  {
    StartInv(originals);
    RunInv(Start(originals), originals, events);
    hide Run;
    var s := Run(Start(originals), events);
    if s.fg == Idle && !s.installed {
      forall i | 0 <= i < IRQ_COUNT && originals[i] != Null
        ensures s.vectors[i] == originals[i]
      {
        assert HookOk(s, originals, i);
      }
    }
  }

  /** Once the vector of an IRQ that had no handler points at the monitor, no event moves it. */
  lemma NullStaysHookedStep(s: State, originals: seq<Handler>, e: Event, i: nat)
    requires Inv(s, originals) && i < IRQ_COUNT && originals[i] == Null && s.vectors[i] == Monitor(i)
    ensures Step(s, e).vectors[i] == Monitor(i)
  {
    assert HookOk(s, originals, i);
    hide CountersOk, Inc32, Halves, Diff32, Trunc32;
  }

  lemma {:induction false} NullStaysHooked(s: State, originals: seq<Handler>, events: seq<Event>, i: nat)
    requires Inv(s, originals) && i < IRQ_COUNT && originals[i] == Null
    requires Sized(s) && s.vectors[i] == Monitor(i)
    ensures Run(s, events).vectors[i] == Monitor(i)
    decreases |events|
  {
    if events != [] {
      hide Step, Inv;
      NullStaysHookedStep(s, originals, events[0], i);
      StepInv(s, originals, events[0]);
      NullStaysHooked(Step(s, events[0]), originals, events[1..], i);
    }
  }

  lemma InstalledHooks(s: State, originals: seq<Handler>, i: nat)
    requires Inv(s, originals) && s.installed && s.fg == Idle && i < IRQ_COUNT
    ensures s.vectors[i] == Monitor(i)
  {
    assert HookOk(s, originals, i);
  }

  /** In every interleaving: a history that had the monitor installed and ends uninstalled has all sixteen
      vectors back exactly when none of them was null before the monitor started. */
  lemma RestoredAfterUseIffNoNull(originals: seq<Handler>, before: seq<Event>, after: seq<Event>)
    requires Genuine(originals)
    requires var m := Run(Start(originals), before); m.installed && m.fg == Idle
    requires var s := Run(Start(originals), before + after); s.fg == Idle && !s.installed
    ensures Run(Start(originals), before + after).vectors == originals
       <==> forall i | 0 <= i < IRQ_COUNT :: originals[i] != Null
  {
    hide Run, Start, Inv;
    StartInv(originals);
    RunInv(Start(originals), originals, before);
    RunConcat(Start(originals), before, after);
    UninstalledIsRestored(originals, before + after);
    var m := Run(Start(originals), before);
    forall i | 0 <= i < IRQ_COUNT && originals[i] == Null
      ensures Run(Start(originals), before + after).vectors[i] == Monitor(i)
    {
      InstalledHooks(m, originals, i);
      NullStaysHooked(m, originals, after, i);
    }
  }

  // ----- control going astray

  /** Only interrupts whose vector held a handler are in progress, and control has not gone astray. */
  ghost predicate Sound(s: State, originals: seq<Handler>)
    requires Genuine(originals)
  {
    !s.fault && forall k | 0 <= k < |s.stack| :: s.stack[k].irq < IRQ_COUNT && originals[s.stack[k].irq].Original?
  }

  /** The hardware raises an IRQ whose vector was null at the start. */
  predicate RaisesNull(e: Event, originals: seq<Handler>)
    requires Genuine(originals)
  {
    e.Deliver? && e.irq < IRQ_COUNT && originals[e.irq] == Null
  }

  lemma SoundStep(s: State, originals: seq<Handler>, e: Event)
    requires Inv(s, originals) && Sound(s, originals) && !RaisesNull(e, originals)
    ensures Sound(Step(s, e), originals)
  {
    hide AdvanceHooks, AdvanceCounters, CountersOk, Inc32;
    if e.Deliver? && e.irq < IRQ_COUNT {
      assert HookOk(s, originals, e.irq);
    } else if e == Advance {
      AdvanceKeepsStack(s);
    }
  }

  lemma AdvanceKeepsStack(s: State)
    requires Sized(s)
    ensures AdvanceHooks(s).stack == s.stack && AdvanceHooks(s).fault == s.fault
    ensures AdvanceCounters(s).stack == s.stack && AdvanceCounters(s).fault == s.fault
  {
  }

  lemma {:induction false} SoundRun(s: State, originals: seq<Handler>, events: seq<Event>)
    requires Inv(s, originals) && Sound(s, originals)
    requires forall e | e in events :: !RaisesNull(e, originals)
    ensures Sound(Run(s, events), originals)
    decreases |events|
  {
    if events != [] {
      hide Step, Inv, Sound, RaisesNull;
      assert events[0] in events;
      StepInv(s, originals, events[0]);
      InvSized(s, originals);
      SoundStep(s, originals, events[0]);
      SoundRun(Step(s, events[0]), originals, events[1..]);
    }
  }

  /** No handler ever chains to the monitor or to 0:0, and none is entered there, unless the hardware
      raises an IRQ whose vector was null when the monitor started. */
  lemma FaultNeedsNull(originals: seq<Handler>, events: seq<Event>)
    requires Genuine(originals) && Run(Start(originals), events).fault
    ensures exists e | e in events :: RaisesNull(e, originals)
  {
    hide Run;
    StartInv(originals);
    if forall e | e in events :: !RaisesNull(e, originals) {
      SoundRun(Start(originals), originals, events);
      assert false;
    }
  }

  lemma NullTaken(s: State, originals: seq<Handler>, i: nat)
    requires Inv(s, originals) && i < IRQ_COUNT && originals[i] == Null && s.interrupts && !s.fault
    ensures var a := Step(s, Deliver(i));
      a.fault || (a.stack == s.stack + [Frame(i, Counting)] && !a.saved[i].Original?)
  {
    assert HookOk(s, originals, i);
    hide Inv, CountersOk, Begin, AdvanceHooks, AdvanceCounters, HandleTop;
  }

  /** And then it does, at any point of any history: the monitor makes the machine no safer there. */
  lemma RaisedNullFaults(originals: seq<Handler>, events: seq<Event>, i: nat)
    requires Genuine(originals) && i < IRQ_COUNT && originals[i] == Null
    requires Run(Start(originals), events).interrupts
    ensures Run(Run(Start(originals), events), [Deliver(i), Handle, Handle]).fault
  {
    hide Run, Step, Inv, Start;
    StartInv(originals);
    RunInv(Start(originals), originals, events);
    var s := Run(Start(originals), events);
    var a := Step(s, Deliver(i));
    assert [Deliver(i), Handle, Handle] == [Deliver(i)] + [Handle, Handle];
    RunConcat(s, [Deliver(i)], [Handle, Handle]);
    OneStep(s, Deliver(i));
    if s.fault {
      FaultStays(s, [Deliver(i), Handle, Handle]);
    } else {
      NullTaken(s, originals, i);
      if a.fault { FaultStays(a, [Handle, Handle]); } else { TwoHandles(a, i, s.stack); }
    }
  }

  // ----- reading a 32-bit counter in two 16-bit halves

  /** The two halves put together give the counter's value at the first read exactly when the high half
      did not move in between; after a carry the result is ahead of both readings as long as fewer
      than 2^16 interrupts came in between. */
  lemma HalvesExact(atLow: U32, n: nat)
    requires atLow + n < TWO32
    ensures Halves(atLow, atLow + n) == atLow <==> atLow % TWO16 + n < TWO16
    ensures n < TWO16 && atLow % TWO16 + n >= TWO16 ==> Halves(atLow, atLow + n) > atLow + n
  {
    var lo, hi := atLow % TWO16, atLow / TWO16;
    if lo + n < TWO16 {
      assert (atLow + n) / TWO16 == hi;
    } else {
      assert (atLow + n) / TWO16 >= hi + 1;
    }
  }
}
