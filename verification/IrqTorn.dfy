/** A counter read that interrupts split in two, and what it does to the account of the rates. */
module IrqTorn {
  import opened MachineInts
  import opened IrqSteps
  import opened IrqInvariant
  import opened IrqMonitor

  /** An interrupt of IRQ i, from delivery to return. */
  function Pulse(i: nat): seq<Event> { [Deliver(i), Handle, Handle, HandlerReturns] }

  function Pulses(i: nat, n: nat): seq<Event> {
    if n == 0 then [] else Pulse(i) + Pulses(i, n - 1)
  }

  /** The monitor is hooked on IRQ i and nothing is in progress. */
  ghost predicate Ready(s: State, i: nat) {
    && Resting(s) && i < IRQ_COUNT && s.interrupts && s.vectors[i] == Monitor(i) && s.saved[i].Original?
  }

  /** The state after n more interrupts of IRQ i. */
  function Pulsed(s: State, i: nat, n: nat): (r: State)
    requires Sized(s) && i < IRQ_COUNT
    ensures Sized(r)
  {
    var t := s.tally[i];
    s.(counts := s.counts[i := Trunc32(s.counts[i] + n)],
       tally := s.tally[i := t.(delivered := t.delivered + n, counted := t.counted + n, chained := t.chained + n)])
  }

  lemma OnePulse(s: State, i: nat)
    requires Ready(s, i)
    ensures Run(s, Pulse(i)) == Pulsed(s, i, 1)
  {
    hide Run, HandleTop, AdvanceHooks, AdvanceCounters, Begin, Inc32;
    var a := Step(s, Deliver(i));
    assert a.stack == [] + [Frame(i, Counting)];
    TwoHandles(a, i, []);
    var b := Run(a, [Handle, Handle]);
    assert TopInOriginal(b) && b.stack[..|b.stack| - 1] == [];
    IncrementIs(s.counts[i]);
    OneStep(s, Deliver(i));
    OneStep(b, HandlerReturns);
    assert Pulse(i) == [Deliver(i)] + [Handle, Handle] + [HandlerReturns];
    RunConcat(s, [Deliver(i)] + [Handle, Handle], [HandlerReturns]);
    RunConcat(s, [Deliver(i)], [Handle, Handle]);
  }

  lemma IncrementIs(c: U32)
    ensures Inc32(c) == Trunc32(c + 1)
  {
  }

  lemma {:induction false} ManyPulses(s: State, i: nat, n: nat)
    requires Ready(s, i)
    ensures Run(s, Pulses(i, n)) == Pulsed(s, i, n)
    decreases n
  {
    hide Run, Pulse;
    if n == 0 {
      assert Pulsed(s, i, 0) == s;
      NoEvents(s);
    } else {
      OnePulse(s, i);
      ManyPulses(Pulsed(s, i, 1), i, n - 1);
      RunConcat(s, Pulse(i), Pulses(i, n - 1));
      TruncAgain(s.counts[i], n);
    }
  }

  lemma TruncAgain(c: nat, n: nat)
    requires n > 0
    ensures Trunc32(Trunc32(c + 1) + (n - 1)) == Trunc32(c + n)
  {
  }

  lemma NoEvents(s: State)
    requires Sized(s)
    ensures Run(s, []) == s
  {
  }

  /** The read of counter i with n interrupts between its halves. */
  function SplitRead(i: nat, n: nat): seq<Event> { [Advance] + Pulses(i, n) + [Advance] }

  lemma SplitReadValue(s: State, i: nat, n: nat)
    requires Ready(s, i) && s.fg == SampleLow(i)
    ensures var after := Pulsed(s, i, n).counts[i];
      Run(s, SplitRead(i, n)) == Pulsed(s, i, n).(fg := SampleRate(i, Halves(s.counts[i], after), s.counts[i], after))
  {
    hide Run, Halves;
    var a := Step(s, Advance);
    OneStep(s, Advance);
    ManyPulses(a, i, n);
    var b := Pulsed(a, i, n);
    OneStep(b, Advance);
    RunConcat(s, [Advance] + Pulses(i, n), [Advance]);
    RunConcat(s, [Advance], Pulses(i, n));
  }

  /** In a run, a sample gets the counter's value at its first half exactly when the n interrupts in
      between did not carry into the high half. If they did, and were fewer than 2^16, it gets more
      than the counter has reached. */
  lemma SplitReadExact(s: State, i: nat, n: nat)
    requires Ready(s, i) && s.fg == SampleLow(i) && s.counts[i] + n < TWO32
    ensures var e := Run(s, SplitRead(i, n));
      && e.fg.SampleRate? && e.counts[i] == s.counts[i] + n
      && (e.fg.current == s.counts[i] <==> s.counts[i] % TWO16 + n < TWO16)
      && (n < TWO16 && s.counts[i] % TWO16 + n >= TWO16 ==> e.fg.current > e.counts[i])
  {
    hide Run, Halves, SplitRead;
    SplitReadValue(s, i, n);
    HalvesExact(s.counts[i], n);
  }

  // ----- a run in which one torn read makes the rates disagree with the interrupts

  /** Sampling IRQs i to k - 1 without interrupts concerns no other IRQ. */
  lemma {:induction false} QuietBetween(s: State, i: nat, k: nat)
    requires Resting(s) && s.fg == SampleLow(i) && i <= k <= IRQ_COUNT
    ensures var e := Run(s, Quiet(4 * (k - i)));
      && Resting(e) && e.fg == SampleLow(k) && e.interrupts == s.interrupts
      && e.vectors == s.vectors && e.saved == s.saved && e.counts == s.counts
      && forall j | 0 <= j < IRQ_COUNT && (j < i || k <= j) :: e.last[j] == s.last[j] && e.tally[j] == s.tally[j]
    decreases k - i
  {
    hide Run, Step, Diff32;
    if i == k {
      NothingLeft(s);
    } else {
      WholeSample(s, i, 4 * (k - i));
      QuietBetween(Sampled(s, i), i + 1, k);
    }
  }

  lemma RateAndLast(s: State, i: nat)
    requires Resting(s) && s.fg.SampleRate? && s.fg.i == i < IRQ_COUNT
    ensures var e := Run(s, [Advance, Advance]);
      && Resting(e) && e.fg == SampleLow(i + 1) && e.interrupts == s.interrupts
      && e.vectors == s.vectors && e.saved == s.saved && e.counts == s.counts && e.last[i] == s.fg.current
      && e.tally[i] == s.tally[i].(sampled := s.tally[i].sampled + Diff32(s.fg.current, s.last[i]),
                                   borrows := s.tally[i].borrows + if s.fg.current < s.last[i] then 1 else 0)
  {
    hide Run, Diff32;
    var t := Step(s, Advance);
    var u := Step(t, Advance);
    assert [Advance, Advance] == [Advance] + [Advance];
    OneStep(s, Advance);
    OneStep(t, Advance);
    RunConcat(s, [Advance], [Advance]);
  }

  /** From the sampling of IRQ i on, a whole sample of IRQ i. */
  lemma QuietOwn(s: State, i: nat)
    requires Resting(s) && s.fg == SampleLow(i) && i < IRQ_COUNT
    ensures var e := Run(s, Quiet(4));
      && Resting(e) && e.fg == SampleLow(i + 1) && e.interrupts == s.interrupts
      && e.vectors == s.vectors && e.saved == s.saved && e.counts == s.counts
      && e.last[i] == s.counts[i]
      && e.tally[i] == s.tally[i].(sampled := s.tally[i].sampled + Diff32(s.counts[i], s.last[i]),
                                   borrows := s.tally[i].borrows + if s.counts[i] < s.last[i] then 1 else 0)
  {
    hide Run, Step, Diff32;
    WholeSample(s, i, 4);
    NothingLeft(Sampled(s, i));
  }

  function UpTo(i: nat): seq<Event> { [CallSample] + Quiet(4 * i) }
  function Onward(i: nat): seq<Event>
    requires i < IRQ_COUNT
  {
    Quiet(4 * (IRQ_COUNT - i - 1)) + [Advance]
  }

  lemma ReachIrq(s: State, i: nat)
    requires Resting(s) && s.fg == Idle && i < IRQ_COUNT
    ensures var e := Run(s, UpTo(i));
      && Resting(e) && e.fg == SampleLow(i) && e.interrupts == s.interrupts
      && e.vectors == s.vectors && e.saved == s.saved && e.counts == s.counts
      && e.last[i] == s.last[i] && e.tally[i] == s.tally[i]
  {
    hide Run, AdvanceCounters, AdvanceHooks;
    CallThenQuiet(s, CallSample, 4 * i);
    QuietBetween(Step(s, CallSample), 0, i);
  }

  lemma LeaveIrq(s: State, i: nat)
    requires Resting(s) && s.fg == SampleLow(i + 1) && i < IRQ_COUNT
    ensures var e := Run(s, Onward(i));
      && Resting(e) && e.fg == Idle && e.interrupts == s.interrupts
      && e.vectors == s.vectors && e.saved == s.saved && e.counts == s.counts
      && e.last[i] == s.last[i] && e.tally[i] == s.tally[i]
  {
    hide Run, Quiet;
    QuietBetween(s, i + 1, IRQ_COUNT);
    var t := Run(s, Quiet(4 * (IRQ_COUNT - i - 1)));
    OneStep(t, Advance);
    RunConcat(s, Quiet(4 * (IRQ_COUNT - i - 1)), [Advance]);
  }

  /** A sample whose read of counter i is split by one interrupt. */
  function TornSample(i: nat): seq<Event>
    requires i < IRQ_COUNT
  {
    UpTo(i) + SplitRead(i, 1) + [Advance, Advance] + Onward(i)
  }

  /** The torn sample remembers 2^17 - 1 although the counter has only reached 2^16. */
  lemma TornSampleOvershoots(s: State, i: nat)
    requires Ready(s, i) && s.fg == Idle && s.counts[i] == 0xFFFF && s.last[i] == 0
    requires s.tally[i].sampled == s.tally[i].borrows == 0
    ensures var e := Run(s, TornSample(i));
      && Ready(e, i) && e.fg == Idle && e.counts[i] == 0x1_0000 && e.last[i] == 0x1_FFFF
      && e.tally[i].borrows == 0 && e.tally[i].sampled == 0x1_FFFF
      && e.tally[i].counted == s.tally[i].counted + 1 && e.tally[i].clearedAt == s.tally[i].clearedAt
  {
    hide Run, UpTo, SplitRead, Onward;
    ReachIrq(s, i);
    var a := Run(s, UpTo(i));
    SplitReadValue(a, i, 1);
    var b := Run(a, SplitRead(i, 1));
    assert b.fg == SampleRate(i, 0x1_FFFF, 0xFFFF, 0x1_0000);
    RateAndLast(b, i);
    var c := Run(b, [Advance, Advance]);
    LeaveIrq(c, i);
    RunConcat(s, UpTo(i), SplitRead(i, 1));
    RunConcat(s, UpTo(i) + SplitRead(i, 1), [Advance, Advance]);
    RunConcat(s, UpTo(i) + SplitRead(i, 1) + [Advance, Advance], Onward(i));
  }

  /** The next whole sample borrows, and its rate is 2^32 - 65535 although no interrupt came. */
  lemma NextSampleBorrows(s: State, i: nat)
    requires Ready(s, i) && s.fg == Idle && s.counts[i] == 0x1_0000 && s.last[i] == 0x1_FFFF
    ensures var e := Run(s, UpTo(i) + Quiet(4) + Onward(i));
      && e.fg == Idle && e.counts[i] == e.last[i] == 0x1_0000
      && e.tally[i] == s.tally[i].(sampled := s.tally[i].sampled + (TWO32 - 0xFFFF), borrows := s.tally[i].borrows + 1)
  {
    hide Run, UpTo, Onward, Quiet;
    ReachIrq(s, i);
    var a := Run(s, UpTo(i));
    QuietOwn(a, i);
    LeaveIrq(Run(a, Quiet(4)), i);
    RunConcat(s, UpTo(i), Quiet(4));
    RunConcat(s, UpTo(i) + Quiet(4), Onward(i));
  }

  /** Program start, 65535 interrupts, a sample torn by one more, and a whole sample. */
  function TornRun(i: nat): seq<Event>
    requires i < IRQ_COUNT
  {
    InstallRun() + Pulses(i, 0xFFFF) + TornSample(i) + (UpTo(i) + Quiet(4) + Onward(i))
  }

  /** For every IRQ that had a handler, that run ends with 65536 interrupts counted and everything
      sampled, one borrow, and rates that add up to 2^32 more than the interrupts. */
  lemma TornReadBorrows(originals: seq<Handler>, i: nat)
    requires Genuine(originals) && i < IRQ_COUNT && originals[i].Original?
    ensures var s := Run(Start(originals), TornRun(i));
      && s.fg == Idle && SinceClear(s, i) == s.counts[i] == s.last[i] == 0x1_0000
      && s.tally[i].borrows == 1 && s.tally[i].sampled == SinceClear(s, i) + TWO32
  {
    hide Run, InstallRun, UpTo, Onward, Quiet, Pulses, TornSample;
    InstallThenUninstall(originals);
    var a := Run(Start(originals), InstallRun());
    ManyPulses(a, i, 0xFFFF);
    var b := Run(a, Pulses(i, 0xFFFF));
    TornSampleOvershoots(b, i);
    var c := Run(b, TornSample(i));
    NextSampleBorrows(c, i);
    RunConcat(Start(originals), InstallRun(), Pulses(i, 0xFFFF));
    RunConcat(Start(originals), InstallRun() + Pulses(i, 0xFFFF), TornSample(i));
    RunConcat(Start(originals), InstallRun() + Pulses(i, 0xFFFF) + TornSample(i), UpTo(i) + Quiet(4) + Onward(i));
  }
}
