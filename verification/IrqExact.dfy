/** When no read of an IRQ's counter is torn between its two halves and the counter does not wrap, no
    sample borrows, and the sampled rates account for every interrupt exactly. */
module IrqExact {
  import opened MachineInts
  import opened IrqSteps
  import opened IrqInvariant

  /** If e is the second half of a read of counter i, the counter has not moved since the first half. */
  predicate ReadsWhole(s: State, e: Event, i: nat)
    requires Sized(s) && i < IRQ_COUNT
  {
    e == Advance && s.stack == [] && s.fg.SampleHigh? && s.fg.i == i ==> s.counts[i] == s.fg.atLow
  }

  /** Along the run every read of counter i is whole, and it is cleared before 2^32 interrupts. */
  predicate CleanRun(s: State, events: seq<Event>, i: nat)
    requires Sized(s) && i < IRQ_COUNT
    decreases |events|
  {
    events != [] ==>
      ReadsWhole(s, events[0], i) && SinceClear(Step(s, events[0]), i) < TWO32 && CleanRun(Step(s, events[0]), events[1..], i)
  }

  /** Nothing has borrowed, and every value held on the way is between the last sample and the counter. */
  ghost predicate Exact(s: State, i: nat)
    requires Sized(s) && i < IRQ_COUNT
  {
    && s.tally[i].borrows == 0
    && s.last[i] <= s.counts[i] == SinceClear(s, i)
    && (match s.fg
        case SampleHigh(k, atLow) => k == i ==> s.last[i] <= atLow <= s.counts[i]
        case SampleRate(k, current, _, _) => k == i ==> s.last[i] <= current <= s.counts[i]
        case SampleLast(k, current) => k == i ==> current <= s.counts[i]
        case _ => true)
  }

  lemma ExactCounters(s: State, i: nat)
    requires Sized(s) && i < IRQ_COUNT && Exact(s, i) && s.stack == [] && ReadsWhole(s, Advance, i)
    ensures Exact(AdvanceCounters(s), i)
  {
    hide Halves, Diff32;
    if s.fg.SampleHigh? { WholeHalves(s.fg.atLow); }
  }

  /** The 32-bit counter follows the unbounded tally until it wraps. */
  lemma ExactHandle(s: State, i: nat)
    requires Sized(s) && i < IRQ_COUNT && Exact(s, i) && s.stack != [] && SinceClear(HandleTop(s), i) < TWO32
    ensures Exact(HandleTop(s), i)
  {
  }

  lemma ExactStep(s: State, e: Event, i: nat)
    requires Sized(s) && i < IRQ_COUNT && Exact(s, i)
    requires ReadsWhole(s, e, i) && SinceClear(Step(s, e), i) < TWO32
    ensures Exact(Step(s, e), i)
  {
    hide Halves, HandleTop, AdvanceCounters;
    if s.fault {
    } else if e == Handle && s.stack != [] {
      ExactHandle(s, i);
    } else if e == Advance && s.stack == [] {
      ExactCounters(s, i);
    }
  }

  lemma {:induction false} ExactRun(s: State, events: seq<Event>, i: nat)
    requires Sized(s) && i < IRQ_COUNT && Exact(s, i) && CleanRun(s, events, i)
    ensures Exact(Run(s, events), i)
    decreases |events|
  {
    hide Step, Exact, ReadsWhole;
    if events != [] {
      ExactStep(s, events[0], i);
      ExactRun(Step(s, events[0]), events[1..], i);
    }
  }

  /** Whatever the interleaving, the rates sampled since the last clear and the unsampled rest add up
      to the interrupts counted since then. */
  lemma RatesAccountForAll(originals: seq<Handler>, events: seq<Event>, i: nat)
    requires Genuine(originals) && i < IRQ_COUNT && CleanRun(Start(originals), events, i)
    ensures var s := Run(Start(originals), events);
      && s.tally[i].borrows == 0 && SinceClear(s, i) == s.counts[i] >= s.last[i]
      && ((s.fg.SampleLast? ==> s.fg.i != i) ==>
            s.tally[i].sampled + s.counts[i] as int - s.last[i] == SinceClear(s, i))
  {
    hide Step;
    ExactRun(Start(originals), events, i);
    RatesAddUp(originals, events, i);
    hide Run;
  }
}
