/** The interrupt monitor of msdos/apps/irqmon.c as a step system: its foreground code, one
    statement at a time, interleaved with interrupts, nested handlers and the originals they chain to. */
module IrqSteps {
  import opened MachineInts

  const IRQ_COUNT := 16

  /** What a vector can hold: 0:0, a handler that was there before, or the monitor's handler for an IRQ. */
  datatype Handler = Null | Original(id: nat) | Monitor(irq: nat)

  /** Where the foreground is. Install and uninstall turn interrupts back on before they set the flag. */
  datatype Foreground =
    | Idle
    | InstallSave(i: nat) | InstallSet(i: nat) | InstallMark
    | Uninstall(i: nat) | UninstallMark
    | SampleLow(i: nat)
    | SampleHigh(i: nat, atLow: U32)                 // the low half was read when the counter was atLow
    | SampleRate(i: nat, current: U32, atLow: U32, atHigh: U32)
    | SampleLast(i: nat, current: U32)
    | Clear(i: nat)

  /** How far an interrupt has got: before the increment, before the chain call, inside the original. */
  datatype Phase = Counting | Chaining | InOriginal

  datatype Frame = Frame(irq: nat, phase: Phase)

  /** Per IRQ: what an observer with unbounded counters would have recorded. */
  datatype Tally = Tally(delivered: nat,   // interrupts that entered the monitor's handler
                         counted: nat,     // increments of irq_counts
                         chained: nat,     // chain calls that reached the original handler
                         clearedAt: nat,   // value of `counted` at the last clear
                         sampled: nat,     // sum of the rates computed since the last clear
                         borrows: nat)     // samples since the last clear that read less than last_counts

  datatype State = State(
    vectors: seq<Handler>, saved: seq<Handler>,
    counts: seq<U32>, last: seq<U32>, rates: seq<U32>,
    installed: bool, interrupts: bool,
    fg: Foreground,
    stack: seq<Frame>,       // innermost interrupt last
    fault: bool,             // control went to 0:0 or from a monitor handler back into one
    tally: seq<Tally>)

  datatype Event =
    | CallInstall | CallUninstall | CallSample | CallClear
    | Advance                // the foreground executes its next statement
    | Deliver(irq: nat)      // the hardware raises an IRQ
    | Handle                 // the innermost monitor handler executes its next statement
    | HandlerEnables         // an original handler executes STI
    | HandlerDisables        // an original handler executes CLI
    | HandlerReturns         // IRET

  /** 32-bit increment and difference, both modulo 2^32. */
  function Inc32(c: U32): U32 {
    var n: int := c;
    Trunc32(n + 1)
  }

  function Diff32(a: U32, b: U32): U32 {
    var m: int, n: int := a, b;
    Trunc32(m - n)
  }

  // ----- foreground

  /** Enter a routine, as far as its first test and _disable. */
  function Begin(s: State, e: Event): State {
    match e
    case CallInstall => if s.installed then s else s.(interrupts := false, fg := InstallSave(0))
    case CallUninstall => if !s.installed then s else s.(interrupts := false, fg := Uninstall(0))
    case CallSample => s.(fg := SampleLow(0))
    case CallClear => s.(interrupts := false, fg := Clear(0))
    case _ => s
  }

  predicate Sized(s: State) {
    && |s.vectors| == |s.saved| == |s.counts| == |s.last| == |s.rates| == |s.tally| == IRQ_COUNT
  }

  /** One statement of install or uninstall. */
  function AdvanceHooks(s: State): (r: State)
    requires Sized(s)
    ensures Sized(r)
  {
    match s.fg
    case InstallSave(i) =>
      if i < IRQ_COUNT then s.(saved := s.saved[i := s.vectors[i]], fg := InstallSet(i))
      else s.(interrupts := true, fg := InstallMark)
    case InstallSet(i) =>
      if i < IRQ_COUNT then s.(vectors := s.vectors[i := Monitor(i)], fg := InstallSave(i + 1)) else s
    case InstallMark => s.(installed := true, fg := Idle)
    case Uninstall(i) =>
      if i < IRQ_COUNT then
        s.(vectors := if s.saved[i] == Null then s.vectors else s.vectors[i := s.saved[i]], fg := Uninstall(i + 1))
      else s.(interrupts := true, fg := UninstallMark)
    case UninstallMark => s.(installed := false, fg := Idle)
    case _ => s
  }

  /** The 32-bit value put together from two 16-bit reads. */
  function Halves(atLow: U32, atHigh: U32): U32 {
    atLow % TWO16 + atHigh / TWO16 * TWO16
  }

  /** An uninterrupted read of the two halves is the counter. */
  lemma WholeHalves(c: U32)
    ensures Halves(c, c) == c
  {
  }

  /** One statement of sample or clear. */
  function AdvanceCounters(s: State): (r: State)
    requires Sized(s)
    ensures Sized(r)
  {
    match s.fg
    case SampleLow(i) =>
      if i < IRQ_COUNT then s.(fg := SampleHigh(i, s.counts[i])) else s.(fg := Idle)
    case SampleHigh(i, atLow) =>
      if i < IRQ_COUNT then s.(fg := SampleRate(i, Halves(atLow, s.counts[i]), atLow, s.counts[i])) else s
    case SampleRate(i, current, _, _) =>
      if i < IRQ_COUNT then
        var rate := Diff32(current, s.last[i]);
        s.(rates := s.rates[i := rate], fg := SampleLast(i, current),
           tally := s.tally[i := s.tally[i].(sampled := s.tally[i].sampled + rate,
                                             borrows := s.tally[i].borrows + if current < s.last[i] then 1 else 0)])
      else s
    case SampleLast(i, current) =>
      if i < IRQ_COUNT then s.(last := s.last[i := current], fg := SampleLow(i + 1)) else s
    case Clear(i) =>
      if i < IRQ_COUNT then
        s.(counts := s.counts[i := 0], last := s.last[i := 0], rates := s.rates[i := 0], fg := Clear(i + 1),
           tally := s.tally[i := s.tally[i].(clearedAt := s.tally[i].counted, sampled := 0, borrows := 0)])
      else s.(interrupts := true, fg := Idle)
    case _ => s
  }

  predicate Hooking(fg: Foreground) {
    fg.InstallSave? || fg.InstallSet? || fg.InstallMark? || fg.Uninstall? || fg.UninstallMark?
  }

  // ----- interrupts

  /** The processor takes an interrupt: the vector decides who runs, with interrupts off. */
  function Take(s: State, irq: nat): (r: State)
    requires Sized(s) && irq < IRQ_COUNT
    ensures Sized(r)
  {
    match s.vectors[irq]
    case Null => s.(fault := true)
    case Original(_) => s.(interrupts := false, stack := s.stack + [Frame(irq, InOriginal)])
    case Monitor(j) =>
      if j < IRQ_COUNT then
        s.(interrupts := false, stack := s.stack + [Frame(j, Counting)],
           tally := s.tally[j := s.tally[j].(delivered := s.tally[j].delivered + 1)])
      else s
  }

  /** chain_irq: count, then call the saved handler. */
  function HandleTop(s: State): (r: State)
    requires Sized(s) && s.stack != []
    ensures Sized(r)
  {
    var top := s.stack[|s.stack| - 1];
    var below := s.stack[..|s.stack| - 1];
    var i := top.irq;
    if i >= IRQ_COUNT then s
    else match top.phase
      case Counting =>
        s.(counts := s.counts[i := Inc32(s.counts[i])], stack := below + [Frame(i, Chaining)],
           tally := s.tally[i := s.tally[i].(counted := s.tally[i].counted + 1)])
      case Chaining =>
        if s.saved[i].Original? then
          s.(stack := below + [Frame(i, InOriginal)],
             tally := s.tally[i := s.tally[i].(chained := s.tally[i].chained + 1)])
        else s.(fault := true)
      case InOriginal => s
  }

  predicate TopInOriginal(s: State) {
    s.stack != [] && s.stack[|s.stack| - 1].phase == InOriginal
  }

  /** One event. An event that is not possible in the state leaves it unchanged: the foreground runs
      only between interrupts, and the hardware delivers only while interrupts are on. */
  function Step(s: State, e: Event): (r: State)
    requires Sized(s)
    ensures Sized(r)
  {
    if s.fault then s
    else match e
      case Deliver(irq) => if s.interrupts && irq < IRQ_COUNT then Take(s, irq) else s
      case Handle => if s.stack != [] then HandleTop(s) else s
      case HandlerEnables => if TopInOriginal(s) then s.(interrupts := true) else s
      case HandlerDisables => if TopInOriginal(s) then s.(interrupts := false) else s
      case HandlerReturns =>
        // IRET restores the flags saved on entry, when interrupts were on.
        if TopInOriginal(s) then s.(interrupts := true, stack := s.stack[..|s.stack| - 1]) else s
      case Advance =>
        if s.stack != [] then s else if Hooking(s.fg) then AdvanceHooks(s) else AdvanceCounters(s)
      case _ => if s.stack == [] && s.fg == Idle then Begin(s, e) else s
  }

  function Run(s: State, events: seq<Event>): (r: State)
    requires Sized(s)
    ensures Sized(r)
    decreases |events|
  {
    if events == [] then s else Run(Step(s, events[0]), events[1..])
  }

  lemma {:induction false} RunConcat(s: State, a: seq<Event>, b: seq<Event>)
    requires Sized(s)
    ensures Run(s, a + b) == Run(Run(s, a), b)
    decreases |a|
  {
    hide Step;
    if a == [] {
      assert a + b == b;
    } else {
      RunConcat(Step(s, a[0]), a[1..], b);
      assert (a + b)[1..] == a[1..] + b;
    }
  }

  lemma OneStep(s: State, e: Event)
    requires Sized(s)
    ensures Run(s, [e]) == Step(s, e)
  {
    hide Step;
    assert [e][1..] == [];
  }

  /** A machine gone astray stays there. */
  lemma {:induction false} FaultStays(s: State, events: seq<Event>)
    requires Sized(s) && s.fault
    ensures Run(s, events) == s
    decreases |events|
  {
    hide Begin, AdvanceHooks, AdvanceCounters, Take, HandleTop;
    if events != [] {
      FaultStays(s, events[1..]);
    }
  }

  /** A monitor handler from its first statement to the call of the saved handler. */
  lemma TwoHandles(s: State, irq: nat, below: seq<Frame>)
    requires Sized(s) && !s.fault && irq < IRQ_COUNT && s.stack == below + [Frame(irq, Counting)]
    ensures var t := s.tally[irq].(counted := s.tally[irq].counted + 1);
      var counts := s.counts[irq := Inc32(s.counts[irq])];
      Run(s, [Handle, Handle]) ==
        if s.saved[irq].Original? then
          s.(counts := counts, stack := below + [Frame(irq, InOriginal)],
             tally := s.tally[irq := t.(chained := t.chained + 1)])
        else
          s.(counts := counts, stack := below + [Frame(irq, Chaining)], tally := s.tally[irq := t], fault := true)
  {
    hide Inc32, Begin, AdvanceHooks, AdvanceCounters, Take;
    var t := Step(s, Handle);
    assert s.stack[..|s.stack| - 1] == below && t.stack[..|t.stack| - 1] == below;
    OneStep(s, Handle);
    OneStep(t, Handle);
    assert [Handle, Handle] == [Handle] + [Handle];
    RunConcat(s, [Handle], [Handle]);
    hide Run;
  }

  /** Program start: the machine's own handlers, zeroed counters. */
  function Start(originals: seq<Handler>): State
    requires |originals| == IRQ_COUNT
  {
    State(originals, seq(IRQ_COUNT, _ => Null), seq(IRQ_COUNT, _ => 0), seq(IRQ_COUNT, _ => 0), seq(IRQ_COUNT, _ => 0),
          false, true, Idle, [], false, seq(IRQ_COUNT, _ => Tally(0, 0, 0, 0, 0, 0)))
  }
}
