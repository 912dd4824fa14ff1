/** The routines of msdos/apps/irqmon.c with their static arrays, each proved to do in one piece what
    the step system does when nothing interrupts it, and what becomes of an IRQ without a handler. */
module IrqMonitor {
  import opened MachineInts
  import opened IrqSteps
  import opened IrqInvariant

  function Monitors(): seq<Handler> { seq(IRQ_COUNT, i requires 0 <= i < IRQ_COUNT => Monitor(i)) }

  /** Uninstalling skips an IRQ whose saved handler is null. */
  function Restored(vectors: seq<Handler>, saved: seq<Handler>): seq<Handler>
    requires |vectors| == |saved|
  {
    seq(|vectors|, i requires 0 <= i < |vectors| => if saved[i] == Null then vectors[i] else saved[i])
  }

  function Rates(counts: seq<U32>, last: seq<U32>): seq<U32>
    requires |counts| == |last|
  {
    seq(|counts|, i requires 0 <= i < |counts| => Diff32(counts[i], last[i]))
  }

  function Zeros(): seq<U32> { seq(IRQ_COUNT, _ => 0) }

  class MonitorProgram {
    const vectors: array<Handler>      // the interrupt vectors of the sixteen IRQs
    const oldHandlers: array<Handler>
    const irqCounts: array<U32>
    const lastCounts: array<U32>
    const rates: array<U32>
    var installed: bool
    var interrupts: bool

    ghost predicate Valid() {
      && vectors.Length == oldHandlers.Length == IRQ_COUNT
      && irqCounts.Length == lastCounts.Length == rates.Length == IRQ_COUNT
      && vectors != oldHandlers && irqCounts != lastCounts && irqCounts != rates && lastCounts != rates
    }

    constructor (originals: seq<Handler>)
      requires |originals| == IRQ_COUNT
      ensures Valid() && fresh(vectors) && fresh(oldHandlers) && fresh(irqCounts) && fresh(lastCounts) && fresh(rates)
      ensures vectors[..] == originals && irqCounts[..] == lastCounts[..] == rates[..] == Zeros()
      ensures !installed && interrupts
    {
      vectors := new Handler[IRQ_COUNT](i requires 0 <= i < IRQ_COUNT => originals[i]);
      oldHandlers := new Handler[IRQ_COUNT](_ => Null);
      irqCounts := new U32[IRQ_COUNT](_ => 0);
      lastCounts, rates := new U32[IRQ_COUNT](_ => 0), new U32[IRQ_COUNT](_ => 0);
      installed, interrupts := false, true;
    }

    /** The step system's view of the machine, given what only it records. */
    ghost function AsState(fg: Foreground, stack: seq<Frame>, tally: seq<Tally>): (s: State)
      requires Valid() && |tally| == IRQ_COUNT
      reads this, vectors, oldHandlers, irqCounts, lastCounts, rates
      ensures Sized(s)
    {
      State(vectors[..], oldHandlers[..], irqCounts[..], lastCounts[..], rates[..], installed, interrupts, fg, stack, false, tally)
    }

    /** chain_irq up to the call is the two steps of a monitor handler: the interrupt is counted once,
        and control goes to the saved handler, astray exactly when that is not an original one. */
    method ChainIrq(irq: nat, ghost fg: Foreground, ghost below: seq<Frame>, ghost tally: seq<Tally>)
      returns (chainTo: Handler)
      requires Valid() && irq < IRQ_COUNT && |tally| == IRQ_COUNT
      modifies irqCounts
      ensures var e := Run(old(AsState(fg, below + [Frame(irq, Counting)], tally)), [Handle, Handle]);
        && e.counts == irqCounts[..] && e.tally[irq].counted == tally[irq].counted + 1
        && e.fault == !chainTo.Original?
        && (chainTo.Original? ==> e == AsState(fg, below + [Frame(irq, InOriginal)], e.tally)
                                  && e.tally[irq].chained == tally[irq].chained + 1)
        && chainTo == e.saved[irq]
    {
      TwoHandles(AsState(fg, below + [Frame(irq, Counting)], tally), irq, below);
      irqCounts[irq] := Inc32(irqCounts[irq]);
      chainTo := oldHandlers[irq];
    }

    method InstallHandlers()
      requires Valid()
      modifies this, vectors, oldHandlers
      ensures installed
      ensures old(installed) ==>
        vectors[..] == old(vectors[..]) && oldHandlers[..] == old(oldHandlers[..]) && interrupts == old(interrupts)
      ensures !old(installed) ==>
        vectors[..] == Monitors() && oldHandlers[..] == old(vectors[..]) && interrupts
    {
      if installed {
        return;
      }
      interrupts := false;
      for i := 0 to IRQ_COUNT
        invariant !interrupts && !installed
        invariant forall j | 0 <= j < IRQ_COUNT :: vectors[j] == if j < i then Monitor(j) else old(vectors[j])
        invariant forall j | 0 <= j < i :: oldHandlers[j] == old(vectors[j])
      {
        oldHandlers[i] := vectors[i];
        vectors[i] := Monitor(i);
      }
      interrupts := true;
      installed := true;
    }

    method UninstallHandlers()
      requires Valid()
      modifies this, vectors
      ensures !installed
      ensures !old(installed) ==> vectors[..] == old(vectors[..]) && interrupts == old(interrupts)
      ensures old(installed) ==> vectors[..] == Restored(old(vectors[..]), oldHandlers[..]) && interrupts
    {
      if !installed {
        return;
      }
      interrupts := false;
      for i := 0 to IRQ_COUNT
        invariant !interrupts
        invariant forall j | 0 <= j < IRQ_COUNT ::
          vectors[j] == if j < i && oldHandlers[j] != Null then oldHandlers[j] else old(vectors[j])
      {
        if oldHandlers[i] != Null {
          vectors[i] := oldHandlers[i];
        }
      }
      interrupts := true;
      installed := false;
    }

    method SampleCounts()
      requires Valid()
      modifies lastCounts, rates
      ensures lastCounts[..] == irqCounts[..]
      ensures rates[..] == Rates(irqCounts[..], old(lastCounts[..]))
    {
      for i := 0 to IRQ_COUNT
        invariant forall j | 0 <= j < IRQ_COUNT :: lastCounts[j] == if j < i then irqCounts[j] else old(lastCounts[j])
        invariant forall j | 0 <= j < i :: rates[j] == Diff32(irqCounts[j], old(lastCounts[j]))
      {
        var current := irqCounts[i];
        rates[i] := Diff32(current, lastCounts[i]);
        lastCounts[i] := current;
      }
    }

    method ClearCounters()
      requires Valid()
      modifies this`interrupts, irqCounts, lastCounts, rates
      ensures irqCounts[..] == lastCounts[..] == rates[..] == Zeros() && interrupts
    {
      interrupts := false;
      for i := 0 to IRQ_COUNT
        invariant forall j | 0 <= j < i :: irqCounts[j] == 0 && lastCounts[j] == 0 && rates[j] == 0
      {
        irqCounts[i] := 0;
        lastCounts[i] := 0;
        rates[i] := 0;
      }
      interrupts := true;
    }
  }

  // ----- the step system without interrupts

  function Quiet(n: nat): seq<Event> { seq(n, _ => Advance) }

  ghost predicate Resting(s: State) { Sized(s) && !s.fault && s.stack == [] }

  lemma QuietStep(s: State, n: nat)
    requires Sized(s) && n > 0
    ensures Run(s, Quiet(n)) == Run(Step(s, Advance), Quiet(n - 1))
  {
    hide Step;
    assert Quiet(n)[1..] == Quiet(n - 1);
  }

  lemma {:induction false} QuietInstallFrom(s: State, i: nat, from: seq<Handler>)
    requires Resting(s) && s.fg == InstallSave(i) && i <= IRQ_COUNT && |from| == IRQ_COUNT
    requires forall j | 0 <= j < IRQ_COUNT :: s.vectors[j] == if j < i then Monitor(j) else from[j]
    requires forall j | 0 <= j < i :: s.saved[j] == from[j]
    ensures Run(s, Quiet(2 * (IRQ_COUNT - i) + 2))
         == s.(vectors := Monitors(), saved := from, installed := true, interrupts := true, fg := Idle)
    decreases IRQ_COUNT - i
  {
    hide Run;
    var n := 2 * (IRQ_COUNT - i) + 2;
    var t := Step(s, Advance);
    QuietStep(s, n);
    QuietStep(t, n - 1);
    var u := Step(t, Advance);
    if i < IRQ_COUNT {
      QuietInstallFrom(u, i + 1, from);
    } else {
      assert s.vectors == Monitors() && s.saved == from;
      NothingLeft(u);
    }
  }

  lemma CallThenQuiet(s: State, e: Event, n: nat)
    requires Sized(s)
    ensures Run(s, [e] + Quiet(n)) == Run(Step(s, e), Quiet(n))
  {
    hide Step;
    assert ([e] + Quiet(n))[1..] == Quiet(n);
  }

  lemma NothingLeft(s: State)
    requires Sized(s)
    ensures Run(s, Quiet(0)) == s
  {
  }

  lemma {:induction false} QuietUninstallFrom(s: State, i: nat, from: seq<Handler>)
    requires Resting(s) && s.fg == Uninstall(i) && i <= IRQ_COUNT && |from| == IRQ_COUNT
    requires forall j | 0 <= j < IRQ_COUNT ::
      s.vectors[j] == if j < i && s.saved[j] != Null then s.saved[j] else from[j]
    ensures Run(s, Quiet(IRQ_COUNT - i + 2))
         == s.(vectors := Restored(from, s.saved), installed := false, interrupts := true, fg := Idle)
    decreases IRQ_COUNT - i
  {
    hide Run;
    var n := IRQ_COUNT - i + 2;
    var t := Step(s, Advance);
    QuietStep(s, n);
    if i < IRQ_COUNT {
      QuietUninstallFrom(t, i + 1, from);
    } else {
      assert s.vectors == Restored(from, s.saved);
      QuietStep(t, 1);
      NothingLeft(Step(t, Advance));
    }
  }

  /** Called between interrupts, install and uninstall leave the machine as the routines above say. */
  lemma QuietInstall(s: State)
    requires Resting(s) && s.fg == Idle && !s.installed
    ensures Run(s, [CallInstall] + Quiet(34))
         == s.(vectors := Monitors(), saved := s.vectors, installed := true, interrupts := true)
  {
    hide Run;
    CallThenQuiet(s, CallInstall, 34);
    var t := Step(s, CallInstall);
    QuietInstallFrom(t, 0, s.vectors);
  }

  lemma QuietUninstall(s: State)
    requires Resting(s) && s.fg == Idle && s.installed
    ensures Run(s, [CallUninstall] + Quiet(18))
         == s.(vectors := Restored(s.vectors, s.saved), installed := false, interrupts := true)
  {
    hide Run;
    CallThenQuiet(s, CallUninstall, 18);
    var t := Step(s, CallUninstall);
    QuietUninstallFrom(t, 0, s.vectors);
  }

  lemma WholeRead(s: State, i: nat)
    requires Resting(s) && s.fg == SampleLow(i) && i < IRQ_COUNT
    ensures Step(Step(s, Advance), Advance) == s.(fg := SampleRate(i, s.counts[i], s.counts[i], s.counts[i]))
  {
    hide Halves;
    WholeHalves(s.counts[i]);
  }

  /** The state after IRQ i has been sampled without interruption. */
  function Sampled(s: State, i: nat): (r: State)
    requires Sized(s) && i < IRQ_COUNT
    ensures Sized(r)
  {
    var t := s.tally[i];
    var rate := Diff32(s.counts[i], s.last[i]);
    s.(rates := s.rates[i := rate], last := s.last[i := s.counts[i]], fg := SampleLow(i + 1),
       tally := s.tally[i := t.(sampled := t.sampled + rate, borrows := t.borrows + if s.counts[i] < s.last[i] then 1 else 0)])
  }

  lemma WholeSample(s: State, i: nat, n: nat)
    requires Resting(s) && s.fg == SampleLow(i) && i < IRQ_COUNT && n >= 4
    ensures Run(s, Quiet(n)) == Run(Sampled(s, i), Quiet(n - 4))
  {
    hide Run, Diff32;
    var t := Step(s, Advance);
    var u := Step(t, Advance);
    WholeRead(s, i);
    hide Halves;
    var v := Step(u, Advance);
    assert Step(v, Advance) == Sampled(s, i);
    QuietStep(s, n);
    QuietStep(t, n - 1);
    QuietStep(u, n - 2);
    QuietStep(v, n - 3);
  }

  lemma {:induction false} QuietSampleFrom(s: State, i: nat, from: seq<U32>)
    requires Resting(s) && s.fg == SampleLow(i) && i <= IRQ_COUNT && |from| == IRQ_COUNT
    requires forall j | 0 <= j < IRQ_COUNT :: s.last[j] == if j < i then s.counts[j] else from[j]
    requires forall j | 0 <= j < i :: s.rates[j] == Diff32(s.counts[j], from[j])
    ensures var e := Run(s, Quiet(4 * (IRQ_COUNT - i) + 1));
      && e.last == s.counts && e.rates == Rates(s.counts, from) && e.counts == s.counts && e.fg == Idle
      && e.vectors == s.vectors && e.saved == s.saved && e.installed == s.installed && e.interrupts == s.interrupts
    decreases IRQ_COUNT - i
  {
    hide Run, Halves, Diff32;
    var n := 4 * (IRQ_COUNT - i) + 1;
    if i < IRQ_COUNT {
      hide Step;
      WholeSample(s, i, n);
      QuietSampleFrom(Sampled(s, i), i + 1, from);
    } else {
      QuietStep(s, n);
      NothingLeft(Step(s, Advance));
    }
  }

  lemma QuietSample(s: State)
    requires Resting(s) && s.fg == Idle
    ensures var e := Run(s, [CallSample] + Quiet(65));
      && e.last == s.counts && e.rates == Rates(s.counts, s.last) && e.counts == s.counts && e.fg == Idle
      && e.vectors == s.vectors && e.saved == s.saved && e.installed == s.installed && e.interrupts == s.interrupts
  {
    hide Run;
    CallThenQuiet(s, CallSample, 65);
    var t := Step(s, CallSample);
    QuietSampleFrom(t, 0, s.last);
  }

  lemma {:induction false} QuietClearFrom(s: State, i: nat)
    requires Resting(s) && s.fg == Clear(i) && i <= IRQ_COUNT
    requires forall j | 0 <= j < i ::
      s.counts[j] == s.last[j] == s.rates[j] == 0 && SinceClear(s, j) == 0 && s.tally[j].sampled == s.tally[j].borrows == 0
    ensures var e := Run(s, Quiet(IRQ_COUNT - i + 1));
      && e.counts == e.last == e.rates == Zeros()
      && (forall j | 0 <= j < IRQ_COUNT :: SinceClear(e, j) == 0 && e.tally[j].sampled == e.tally[j].borrows == 0)
      && e.fg == Idle && e.interrupts && e.vectors == s.vectors && e.saved == s.saved && e.installed == s.installed
    decreases IRQ_COUNT - i
  {
    hide Run;
    var t := Step(s, Advance);
    QuietStep(s, IRQ_COUNT - i + 1);
    if i < IRQ_COUNT {
      QuietClearFrom(t, i + 1);
    } else {
      NothingLeft(t);
    }
  }

  /** Clearing leaves three zero arrays and starts the count of interrupts and the sum of rates anew. */
  lemma QuietClear(s: State)
    requires Resting(s) && s.fg == Idle
    ensures var e := Run(s, [CallClear] + Quiet(17));
      && e.counts == e.last == e.rates == Zeros()
      && (forall j | 0 <= j < IRQ_COUNT :: SinceClear(e, j) == 0 && e.tally[j].sampled == e.tally[j].borrows == 0)
      && e.fg == Idle && e.interrupts && e.vectors == s.vectors && e.saved == s.saved && e.installed == s.installed
  {
    hide Run;
    CallThenQuiet(s, CallClear, 17);
    var t := Step(s, CallClear);
    QuietClearFrom(t, 0);
  }

  // ----- an IRQ whose vector was null before the monitor started

  function InstallRun(): seq<Event> { [CallInstall] + Quiet(34) }
  function UninstallRun(): seq<Event> { [CallUninstall] + Quiet(18) }

  /** The states after one install and after the uninstall that follows it. */
  lemma InstallThenUninstall(originals: seq<Handler>)
    requires Genuine(originals)
    ensures var once := Run(Start(originals), InstallRun());
      && once == Start(originals).(vectors := Monitors(), saved := originals, installed := true)
      && Run(Start(originals), InstallRun() + UninstallRun())
         == once.(vectors := Restored(Monitors(), originals), installed := false)
  {
    hide Run, Quiet;
    QuietInstall(Start(originals));
    var once := Run(Start(originals), InstallRun());
    QuietUninstall(once);
    RunConcat(Start(originals), InstallRun(), UninstallRun());
  }

  /** For instance, in the run without interrupts or samples, installing and uninstalling gives every vector back exactly when none of them was null. */
  lemma RestoredIffNoNull(originals: seq<Handler>)
    requires Genuine(originals)
    ensures Run(Start(originals), InstallRun() + UninstallRun()).vectors == originals
       <==> forall i | 0 <= i < IRQ_COUNT :: originals[i] != Null
  {
    hide Run, InstallRun, UninstallRun;
    InstallThenUninstall(originals);
    var r := Restored(Monitors(), originals);
    forall i | 0 <= i < IRQ_COUNT
      ensures r[i] == originals[i] <==> originals[i] != Null
    {
      assert Monitors()[i] == Monitor(i);
    }
  }

  /** Installing again after that saves the monitor's own handler for every vector that was null, and
      the genuine handler for every other. */
  lemma SecondInstallSavesItself(originals: seq<Handler>)
    requires Genuine(originals)
    ensures var s := Run(Start(originals), InstallRun() + UninstallRun() + InstallRun());
      && s.installed && s.vectors == Monitors()
      && forall i | 0 <= i < IRQ_COUNT :: s.saved[i] == if originals[i] == Null then Monitor(i) else originals[i]
  {
    hide Run, Quiet;
    InstallThenUninstall(originals);
    var between := Run(Start(originals), InstallRun() + UninstallRun());
    QuietInstall(between);
    RunConcat(Start(originals), InstallRun() + UninstallRun(), InstallRun());
    forall i | 0 <= i < IRQ_COUNT
      ensures between.vectors[i] == if originals[i] == Null then Monitor(i) else originals[i]
    {
      assert Monitors()[i] == Monitor(i);
    }
  }
}
