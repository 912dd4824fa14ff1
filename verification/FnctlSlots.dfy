/** What get_unit_slot answers, in both backends: the slot that was set, from the store or the cache. */
module FnctlSlots {
  import opened MachineInts
  import opened FnctlStore
  import opened FnctlAgreement

  /** The names the values are stored under, and the limits. */
  lemma KnownKeys()
    ensures UnitKey(0) == Key("nio.apps", "unit.0") && UnitKey(7) == Key("nio.apps", "unit.7")
    ensures URI_KEY == Key("fujinet-nio", "current-host") && PATH_KEY == Key("fujinet-nio", "current-display-path")
    ensures MAX_URI == 255 && MAX_PATH == 127 && MAX_UNITS == 8
  {
    assert UnitKey(0).name == "unit." + ['0'] == "unit.0";
    assert UnitKey(7).name == "unit." + ['7'] == "unit.7";
  }

  // ----- one call on a healthy store

  /** A stored slot is answered by both backends, by its first byte. Without one Linux answers the unit,
      and the Amiga what it has cached, which at first is the unit too. */
  lemma StoredSlotAnswered(c: Cache, s: Store, unit: Byte)
    requires CacheOk(c) && s.faults == [] && unit < MAX_UNITS
    ensures !SlotUnset(s, unit) ==>
      LinuxGetSlot(s, unit).0 == AmigaGetSlot(c, s, unit).0 == s.data[UnitKey(unit)][0]
    ensures SlotUnset(s, unit) ==>
      LinuxGetSlot(s, unit).0 == unit && AmigaGetSlot(c, s, unit).0 == if c.initialized then c.slots[unit] else unit
  {
    HealthyReads(s, URI_KEY, MAX_URI);
    HealthyReads(s, PATH_KEY, MAX_PATH);
    EnsuredHealthy(c, s);
    hide UnitKey, Ensured, ReadBoth;
  }

  lemma EnsuredHealthy(c: Cache, s: Store)
    requires CacheOk(c) && s.faults == []
    ensures var (c1, t) := Ensured(c, s);
      t == s && CacheOk(c1) && c1.initialized && c1.slots == if c.initialized then c.slots else Identity()
  {
    HealthyReads(s, URI_KEY, MAX_URI);
    HealthyReads(s, PATH_KEY, MAX_PATH);
    hide StoreRead;
  }

  /** What was set is answered, and every other unit is answered as before. */
  lemma SetSlotAnswered(c: Cache, s: Store, unit: Byte, slot: Byte, u: Byte)
    requires CacheOk(c) && s.faults == [] && unit < MAX_UNITS && slot < MAX_UNITS && u < MAX_UNITS
    ensures var (okL, sL) := LinuxSetSlot(s, unit, slot);
      var (okA, c1, sA) := AmigaSetSlot(c, s, unit, slot);
      && okL && okA && sL == sA && CacheOk(c1)
      && LinuxGetSlot(sL, u).0 == (if u == unit then slot else LinuxGetSlot(s, u).0)
      && AmigaGetSlot(c1, sA, u).0 == (if u == unit then slot else AmigaGetSlot(c, s, u).0)
  {
    KeysDiffer(u, unit);
    EnsuredHealthy(c, s);
    HealthyWrite(s, UnitKey(unit), [slot]);
    var t := s.(data := s.data[UnitKey(unit) := [slot]]);
    var c0 := Ensured(c, s).0;
    var c1 := c0.(slots := c0.slots[unit := slot]);
    StoredSlotAnswered(c, s, u);
    StoredSlotAnswered(c1, t, u);
    hide UnitKey, Ensured, StoreRead, StoreWrite;
    assert SlotUnset(t, u) <==> u != unit && SlotUnset(s, u);
  }

  // ----- over sequences of calls

  predicate SetsSlotOf(op: Op, unit: Byte) { op.SetSlot? && op.unit == unit && op.slot < MAX_UNITS }

  function LinuxAfter(s: Store, ops: seq<Op>): Store
    decreases |ops|
  {
    if ops == [] then s else LinuxAfter(LinuxStep(s, ops[0]).1, ops[1..])
  }

  /** The store holds this slot for the unit. */
  predicate Stores(s: Store, unit: Byte, slot: Byte)
    requires unit < MAX_UNITS
  {
    UnitKey(unit) in s.data && s.data[UnitKey(unit)] == [slot]
  }

  /** An operation on one key leaves what is stored under any other. */
  lemma WriteElsewhere(s: Store, key: Key, v: seq<Byte>, unit: Byte, slot: Byte)
    requires unit < MAX_UNITS && Stores(s, unit, slot) && key != UnitKey(unit)
    ensures Stores(StoreWrite(s, key, v).1, unit, slot)
  {
    hide UnitKey;
  }

  lemma BothElsewhere(s: Store, uri: seq<Byte>, path: seq<Byte>, unit: Byte, slot: Byte)
    requires unit < MAX_UNITS && Stores(s, unit, slot)
    ensures Stores(WriteBoth(s, uri, path).1, unit, slot)
  {
    KeysDiffer(unit, unit);
    hide UnitKey, Stores, StoreWrite;
    WriteElsewhere(s, URI_KEY, uri, unit, slot);
    WriteElsewhere(StoreWrite(s, URI_KEY, uri).1, PATH_KEY, path, unit, slot);
  }

  lemma ReadsKeepData(s: Store, key: Key, cap: nat)
    ensures StoreRead(s, key, cap).1.data == s.data
  {
  }

  lemma EnsuredKeepsData(c: Cache, s: Store)
    ensures Ensured(c, s).1.data == s.data && Ensured(c, s).0.initialized
  {
    hide StoreRead, KeyText;
    ReadsKeepData(s, URI_KEY, URI_SIZE - 1);
    ReadsKeepData(StoreRead(s, URI_KEY, URI_SIZE - 1).1, PATH_KEY, PATH_SIZE - 1);
  }

  lemma LinuxStepKeepsSlot(s: Store, op: Op, unit: Byte, slot: Byte)
    requires unit < MAX_UNITS && Stores(s, unit, slot) && !SetsSlotOf(op, unit)
    ensures Stores(LinuxStep(s, op).1, unit, slot)
  {
    match op
    case GetState =>
      EnsuredKeepsData(Cache(false, [], [], []), s);
    case SetState(uri, path) =>
      BothElsewhere(s, uri, path, unit, slot);
    case GetSlot(u) =>
      if u < MAX_UNITS { ReadsKeepData(s, UnitKey(u), 1); }
    case SetSlot(u, v) =>
      if u < MAX_UNITS && v < MAX_UNITS {
        KeysDiffer(u, unit);
        WriteElsewhere(s, UnitKey(u), [v], unit, slot);
      }
    hide StoreRead, StoreWrite, WriteBoth, UnitKey, KeyText;
  }

  lemma {:induction false} LinuxKeepsSlot(s: Store, ops: seq<Op>, unit: Byte, slot: Byte)
    requires unit < MAX_UNITS && Stores(s, unit, slot) && forall op | op in ops :: !SetsSlotOf(op, unit)
    ensures Stores(LinuxAfter(s, ops), unit, slot)
    decreases |ops|
  {
    hide LinuxStep, Stores;
    if ops != [] {
      assert ops[0] in ops;
      LinuxStepKeepsSlot(s, ops[0], unit, slot);
      LinuxKeepsSlot(LinuxStep(s, ops[0]).1, ops[1..], unit, slot);
    }
  }

  lemma WrittenSlot(s: Store, unit: Byte, slot: Byte)
    requires unit < MAX_UNITS && StoreWrite(s, UnitKey(unit), [slot]).0
    ensures Stores(StoreWrite(s, UnitKey(unit), [slot]).1, unit, slot)
  {
    WriteReturnsTrue(s, UnitKey(unit), [slot]);
    hide UnitKey;
  }

  /** Does a read through this fault get at least one byte? */
  predicate ReadsByte(f: Fault) { f.Healthy? || (f.Short? && f.n > 0) }

  lemma SlotReadThrough(s: Store, unit: Byte, slot: Byte, fallback: Byte)
    requires unit < MAX_UNITS && Stores(s, unit, slot)
    ensures SlotFrom(StoreRead(s, UnitKey(unit), 1).0, fallback) == if ReadsByte(NextFault(s)) then slot else fallback
  {
    hide UnitKey;
  }

  /** On Linux, a set_unit_slot that returned 1 is answered until the next set of that unit, by every
      get_unit_slot whose read gets through. A read that does not is answered by the unit itself. */
  lemma LinuxSlotSticks(s: Store, unit: Byte, slot: Byte, later: seq<Op>)
    requires unit < MAX_UNITS && slot < MAX_UNITS && LinuxSetSlot(s, unit, slot).0
    requires forall op | op in later :: !SetsSlotOf(op, unit)
    ensures var t := LinuxAfter(LinuxSetSlot(s, unit, slot).1, later);
      LinuxGetSlot(t, unit).0 == if ReadsByte(NextFault(t)) then slot else unit
  {
    hide UnitKey, StoreRead, StoreWrite, LinuxAfter, SlotFrom;
    WrittenSlot(s, unit, slot);
    LinuxKeepsSlot(LinuxSetSlot(s, unit, slot).1, later, unit, slot);
    SlotReadThrough(LinuxAfter(LinuxSetSlot(s, unit, slot).1, later), unit, slot, unit);
  }

  /** Both the cache and the store hold this slot. */
  ghost predicate Holds(c: Cache, s: Store, unit: Byte, slot: Byte)
    requires unit < MAX_UNITS
  {
    CacheOk(c) && c.initialized && c.slots[unit] == slot && Stores(s, unit, slot)
  }

  lemma AmigaStepKeepsSlot(c: Cache, s: Store, op: Op, unit: Byte, slot: Byte)
    requires unit < MAX_UNITS && Holds(c, s, unit, slot) && Clean(op) && !SetsSlotOf(op, unit)
    ensures Holds(AmigaStep(c, s, op).1, AmigaStep(c, s, op).2, unit, slot)
  {
    StepKeepsCacheOk(c, s, op);
    match op
    case GetState =>
    case SetState(uri, path) =>
      BothElsewhere(s, uri, path, unit, slot);
    case GetSlot(u) =>
      if u < MAX_UNITS { ReadsKeepData(s, UnitKey(u), 1); }
    case SetSlot(u, v) =>
      if u < MAX_UNITS && v < MAX_UNITS {
        KeysDiffer(u, unit);
        WriteElsewhere(s, UnitKey(u), [v], unit, slot);
      }
    hide StoreRead, StoreWrite, WriteBoth, UnitKey, ReadBoth;
  }

  lemma {:induction false} AmigaKeepsSlot(c: Cache, s: Store, ops: seq<Op>, unit: Byte, slot: Byte)
    requires unit < MAX_UNITS && Holds(c, s, unit, slot) && AllClean(ops) && forall op | op in ops :: !SetsSlotOf(op, unit)
    ensures Holds(CacheAfter(c, s, ops).0, CacheAfter(c, s, ops).1, unit, slot)
    decreases |ops|
  {
    hide AmigaStep, Holds, Clean;
    HoldsOk(c, s, unit, slot);
    if ops != [] {
      assert ops[0] in ops;
      AmigaStepKeepsSlot(c, s, ops[0], unit, slot);
      StepKeepsCacheOk(c, s, ops[0]);
      var (_, c1, t) := AmigaStep(c, s, ops[0]);
      AmigaKeepsSlot(c1, t, ops[1..], unit, slot);
    }
  }

  lemma HoldsOk(c: Cache, s: Store, unit: Byte, slot: Byte)
    requires unit < MAX_UNITS && Holds(c, s, unit, slot)
    ensures CacheOk(c)
  {
  }

  /** On the Amiga, a set_unit_slot that returned 1 is answered by every get_unit_slot until the next set
      of that unit, whatever fails: the cache stands in for a read that does not get through. */
  lemma AmigaSlotSticks(c: Cache, s: Store, unit: Byte, slot: Byte, later: seq<Op>)
    requires CacheOk(c) && unit < MAX_UNITS && slot < MAX_UNITS && AmigaSetSlot(c, s, unit, slot).0
    requires AllClean(later) && forall op | op in later :: !SetsSlotOf(op, unit)
    ensures var (_, c1, s1) := AmigaSetSlot(c, s, unit, slot);
      CacheOk(c1) &&
      var (c2, s2) := CacheAfter(c1, s1, later);
      AmigaGetSlot(c2, s2, unit).0 == slot
  {
    hide UnitKey, StoreRead, StoreWrite, CacheAfter, SlotFrom;
    var (_, c1, s1) := AmigaSetSlot(c, s, unit, slot);
    StepKeepsCacheOk(c, s, SetSlot(unit, slot));
    EnsuredKeepsData(c, s);
    WrittenSlot(Ensured(c, s).1, unit, slot);
    assert Holds(c1, s1, unit, slot);
    AmigaKeepsSlot(c1, s1, later, unit, slot);
    var (c2, s2) := CacheAfter(c1, s1, later);
    SlotReadThrough(s2, unit, slot, c2.slots[unit]);
  }
}
