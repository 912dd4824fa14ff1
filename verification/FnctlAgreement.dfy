/** The cached backend against the uncached one, over arbitrary sequences of calls. */
module FnctlAgreement {
  import opened MachineInts
  import opened FnctlStore

  datatype Op =
    | GetState
    | SetState(uri: seq<Byte>, path: seq<Byte>)
    | GetSlot(unit: Byte)
    | SetSlot(unit: Byte, slot: Byte)

  /** What the caller sees. Calls with a bad unit or slot are refused. */
  datatype Answer = State(view: StateView) | Slot(slot: Byte) | Result(ok: bool)

  /** The arguments are C strings. */
  predicate Clean(op: Op) { op.SetState? ==> 0 !in op.uri && 0 !in op.path }
  predicate AllClean(ops: seq<Op>) { forall op | op in ops :: Clean(op) }

  function LinuxStep(s: Store, op: Op): (Answer, Store) {
    match op
    case GetState => var (v, t) := LinuxGet(s); (State(v), t)
    case SetState(uri, path) => var (ok, t) := LinuxSet(s, uri, path); (Result(ok), t)
    case GetSlot(unit) =>
      if unit >= MAX_UNITS then (Result(false), s) else var (n, t) := LinuxGetSlot(s, unit); (Slot(n), t)
    case SetSlot(unit, slot) =>
      if unit >= MAX_UNITS || slot >= MAX_UNITS then (Result(false), s)
      else var (ok, t) := LinuxSetSlot(s, unit, slot); (Result(ok), t)
  }

  function AmigaStep(c: Cache, s: Store, op: Op): (Answer, Cache, Store)
    requires CacheOk(c)
  {
    match op
    case GetState => var (v, c1, t) := AmigaGet(c, s); (State(v), c1, t)
    case SetState(uri, path) => var (ok, c1, t) := AmigaSet(c, s, uri, path); (Result(ok), c1, t)
    case GetSlot(unit) =>
      if unit >= MAX_UNITS then (Result(false), c, s) else var (n, c1, t) := AmigaGetSlot(c, s, unit); (Slot(n), c1, t)
    case SetSlot(unit, slot) =>
      if unit >= MAX_UNITS || slot >= MAX_UNITS then (Result(false), c, s)
      else var (ok, c1, t) := AmigaSetSlot(c, s, unit, slot); (Result(ok), c1, t)
  }

  /** Every call leaves terminated strings of at most 255 and 127 bytes and eight slots. */
  lemma StepKeepsCacheOk(c: Cache, s: Store, op: Op)
    requires CacheOk(c) && Clean(op)
    ensures CacheOk(AmigaStep(c, s, op).1)
  {
    hide ReadBoth, StoreRead, StoreWrite, WriteBoth;
  }

  function LinuxRun(s: Store, ops: seq<Op>): (r: seq<Answer>)
    ensures |r| == |ops|
    decreases |ops|
  {
    if ops == [] then []
    else var (a, t) := LinuxStep(s, ops[0]); [a] + LinuxRun(t, ops[1..])
  }

  function AmigaRun(c: Cache, s: Store, ops: seq<Op>): (r: seq<Answer>)
    requires CacheOk(c) && AllClean(ops)
    ensures |r| == |ops|
    decreases |ops|
  {
    if ops == [] then []
    else
      StepKeepsCacheOk(c, s, ops[0]);
      var (a, c1, t) := AmigaStep(c, s, ops[0]);
      [a] + AmigaRun(c1, t, ops[1..])
  }

  // ----- agreement while nothing fails

  predicate SlotUnset(s: Store, unit: Byte) {
    UnitKey(unit) !in s.data || s.data[UnitKey(unit)] == []
  }

  /** The strings a healthy store would be read as. */
  function StoredUri(s: Store): seq<Byte> { KeyText(StoreRead(s, URI_KEY, MAX_URI).0, URI_SIZE) }
  function StoredPath(s: Store): seq<Byte> { KeyText(StoreRead(s, PATH_KEY, MAX_PATH).0, PATH_SIZE) }

  /** The cache shows what the store holds; its slots differ from the default only where the store
      answers instead. */
  ghost predicate Coherent(c: Cache, s: Store) {
    && CacheOk(c) && s.faults == []
    && (c.initialized ==>
          && c.uri == StoredUri(s) && c.path == StoredPath(s)
          && forall u: Byte | u < MAX_UNITS :: SlotUnset(s, u) ==> c.slots[u] == u)
  }

  lemma KeysDiffer(u: Byte, v: Byte)
    requires u < MAX_UNITS && v < MAX_UNITS
    ensures UnitKey(u) !in {URI_KEY, PATH_KEY} && URI_KEY != PATH_KEY
    ensures u != v ==> UnitKey(u) != UnitKey(v)
  {
    assert UnitKey(u).name[5] == '0' + u as char && UnitKey(v).name[5] == '0' + v as char;
    assert URI_KEY.name[0] == 'c' && PATH_KEY.name[8] == 'd' && URI_KEY.name[8] == 'h';
  }

  lemma EnsuredCoherent(c: Cache, s: Store)
    requires Coherent(c, s)
    ensures var (c1, t) := Ensured(c, s); t == s && c1.initialized && Coherent(c1, s)
  {
    hide StoreRead, UnitKey;
    HealthyReads(s, URI_KEY, MAX_URI);
    HealthyReads(s, PATH_KEY, MAX_PATH);
  }

  lemma HealthyReads(s: Store, key: Key, cap: nat)
    requires s.faults == []
    ensures StoreRead(s, key, cap).1 == s
  {
  }

  lemma HealthyWrite(s: Store, key: Key, v: seq<Byte>)
    requires s.faults == []
    ensures StoreWrite(s, key, v) == (true, s.(data := s.data[key := v]))
  {
  }

  /** A value that fits comes back as it was stored. */
  lemma ReadBack(s: Store, key: Key, v: seq<Byte>, size: nat)
    requires s.faults == [] && key in s.data && s.data[key] == v && |v| < size && 0 !in v
    ensures KeyText(StoreRead(s, key, size - 1).0, size) == v
  {
    UpToNulOfClean(v);
  }

  lemma SetStateCoherent(c: Cache, s: Store, uri: seq<Byte>, path: seq<Byte>)
    requires Coherent(c, s) && c.initialized && Acceptable(uri, path) && 0 !in uri && 0 !in path
    ensures var (ok, t) := WriteBoth(s, uri, path);
      ok && Coherent(c.(uri := uri, path := path), t)
  {
    KeysDiffer(0, 0);
    HealthyWrite(s, URI_KEY, uri);
    var s1 := s.(data := s.data[URI_KEY := uri]);
    HealthyWrite(s1, PATH_KEY, path);
    var t := s1.(data := s1.data[PATH_KEY := path]);
    ReadBack(t, URI_KEY, uri, URI_SIZE);
    ReadBack(t, PATH_KEY, path, PATH_SIZE);
    forall u: Byte | u < MAX_UNITS
      ensures SlotUnset(t, u) <==> SlotUnset(s, u)
    {
      KeysDiffer(u, u);
    }
    hide StoreRead, StoreWrite, UnitKey, KeyText;
  }

  lemma SetSlotCoherent(c: Cache, s: Store, unit: Byte, slot: Byte)
    requires Coherent(c, s) && c.initialized && unit < MAX_UNITS
    ensures var t := s.(data := s.data[UnitKey(unit) := [slot]]);
      Coherent(c.(slots := c.slots[unit := slot]), t)
  {
    var t := s.(data := s.data[UnitKey(unit) := [slot]]);
    KeysDiffer(unit, unit);
    assert StoredUri(t) == StoredUri(s) && StoredPath(t) == StoredPath(s);
    forall u: Byte | u < MAX_UNITS && u != unit
      ensures SlotUnset(t, u) <==> SlotUnset(s, u)
    {
      KeysDiffer(u, unit);
    }
    hide UnitKey, StoreRead, KeyText;
  }

  /** One call on coherent states: same answer, same store, still coherent. */
  lemma StepAgrees(c: Cache, s: Store, op: Op)
    requires Coherent(c, s) && Clean(op)
    ensures var (a, c1, t) := AmigaStep(c, s, op);
      LinuxStep(s, op) == (a, t) && Coherent(c1, t)
  {
    EnsuredCoherent(c, s);
    var c0 := Ensured(c, s).0;
    HealthyReads(s, URI_KEY, MAX_URI);
    HealthyReads(s, PATH_KEY, MAX_PATH);
    match op
    case GetState =>
    case SetState(uri, path) =>
      if Acceptable(uri, path) { SetStateCoherent(c0, s, uri, path); }
    case GetSlot(unit) =>
      if unit < MAX_UNITS {
        assert SlotUnset(s, unit) ==> c0.slots[unit] == unit;
      }
    case SetSlot(unit, slot) =>
      if unit < MAX_UNITS && slot < MAX_UNITS {
        HealthyWrite(s, UnitKey(unit), [slot]);
        SetSlotCoherent(c0, s, unit, slot);
      }
    hide KeyText, UnitKey, Ensured;
  }

  lemma {:induction false} RunsAgreeFrom(c: Cache, s: Store, ops: seq<Op>)
    requires Coherent(c, s) && AllClean(ops)
    ensures AmigaRun(c, s, ops) == LinuxRun(s, ops)
    decreases |ops|
  {
    hide AmigaStep, LinuxStep, Coherent, CacheOk, Clean;
    assert CacheOk(c) by { CoherentOk(c, s); }
    if ops != [] {
      StepKeepsCacheOk(c, s, ops[0]);
      StepAgrees(c, s, ops[0]);
      var (a, c1, t) := AmigaStep(c, s, ops[0]);
      RunsAgreeFrom(c1, t, ops[1..]);
    }
  }

  lemma CoherentOk(c: Cache, s: Store)
    requires Coherent(c, s)
    ensures CacheOk(c)
  {
  }

  /** On every sequence of calls against a store that does not fail and that nobody else writes, the
      cached backend gives the same answers as the uncached one, whatever the store held at first. */
  lemma RunsAgree(data: map<Key, seq<Byte>>, ops: seq<Op>)
    requires AllClean(ops)
    ensures AmigaRun(Cache(false, [], [], Identity()), Store(data, []), ops) == LinuxRun(Store(data, []), ops)
  {
    RunsAgreeFrom(Cache(false, [], [], Identity()), Store(data, []), ops);
  }

  // ----- the cache when operations fail

  function CacheAfter(c: Cache, s: Store, ops: seq<Op>): (r: (Cache, Store))
    requires CacheOk(c) && AllClean(ops)
    ensures CacheOk(r.0)
    decreases |ops|
  {
    if ops == [] then (c, s)
    else
      StepKeepsCacheOk(c, s, ops[0]);
      var (a, c1, t) := AmigaStep(c, s, ops[0]);
      CacheAfter(c1, t, ops[1..])
  }

  predicate AcceptedSet(op: Op) { op.SetState? && Acceptable(op.uri, op.path) }

  lemma {:induction false} CachedStringsStay(c: Cache, s: Store, ops: seq<Op>)
    requires CacheOk(c) && c.initialized && AllClean(ops) && forall op | op in ops :: !AcceptedSet(op)
    ensures var (d, _) := CacheAfter(c, s, ops); d.initialized && d.uri == c.uri && d.path == c.path
    decreases |ops|
  {
    hide ReadBoth, StoreRead, StoreWrite, WriteBoth, UnitKey;
    if ops != [] {
      assert ops[0] in ops;
      StepKeepsCacheOk(c, s, ops[0]);
      var (a, c1, t) := AmigaStep(c, s, ops[0]);
      CachedStringsStay(c1, t, ops[1..]);
    }
  }

  /** Whatever fails, from an accepted set_state to the next one every get_state returns exactly its
      strings and their lengths. */
  lemma SetStateSticks(c: Cache, s: Store, uri: seq<Byte>, path: seq<Byte>, later: seq<Op>)
    requires CacheOk(c) && Acceptable(uri, path) && 0 !in uri && 0 !in path
    requires AllClean(later) && forall op | op in later :: !AcceptedSet(op)
    ensures var (_, c1, s1) := AmigaSet(c, s, uri, path);
      CacheOk(c1) &&
      var (c2, s2) := CacheAfter(c1, s1, later);
      AmigaGet(c2, s2).0 == StateView(uri, path, |uri|, |path|)
  {
    hide ReadBoth, WriteBoth, CacheAfter;
    var (_, c1, s1) := AmigaSet(c, s, uri, path);
    CachedStringsStay(c1, s1, later);
  }

  /** A set_state that returned 1 is in the store in full, whatever script of faults there was. */
  lemma SuccessMeansStored(c: Cache, s: Store, uri: seq<Byte>, path: seq<Byte>)
    requires AmigaSet(c, s, uri, path).0
    ensures var t := AmigaSet(c, s, uri, path).2;
      && URI_KEY in t.data && t.data[URI_KEY] == uri && PATH_KEY in t.data && t.data[PATH_KEY] == path
  {
    hide ReadBoth;
    KeysDiffer(0, 0);
    var s1 := Ensured(c, s).1;
    WriteReturnsTrue(s1, URI_KEY, uri);
    WriteReturnsTrue(StoreWrite(s1, URI_KEY, uri).1, PATH_KEY, path);
  }

  lemma WriteReturnsTrue(s: Store, key: Key, v: seq<Byte>)
    requires StoreWrite(s, key, v).0
    ensures StoreWrite(s, key, v).1 == Consumed(s).(data := s.data[key := v])
  {
    var w := Moved(v, NextFault(s));
    assert w <= v && |w| == |v|;
    assert w == v[..|v|] == v;
  }

  // ----- agreement from a point on

  /** From here on the two backends answer every sequence of calls alike. */
  ghost predicate AgreeFromNowOn(c: Cache, s: Store)
    requires CacheOk(c)
  {
    forall ops: seq<Op> | AllClean(ops) :: AmigaRun(c, s, ops) == LinuxRun(s, ops)
  }

  /** On a healthy store coherence is exactly what agreement takes: it suffices for every sequence of
      calls, and one call tells when it is missing. */
  lemma CoherentIffAgree(c: Cache, s: Store)
    requires CacheOk(c) && c.initialized && s.faults == []
    ensures Coherent(c, s) <==> AgreeFromNowOn(c, s)
  {
    if Coherent(c, s) {
      forall ops: seq<Op> | AllClean(ops)
        ensures AmigaRun(c, s, ops) == LinuxRun(s, ops)
      {
        RunsAgreeFrom(c, s, ops);
      }
    }
    if AgreeFromNowOn(c, s) {
      OneCall(c, s, GetState);
      HealthyReads(s, URI_KEY, MAX_URI);
      HealthyReads(s, PATH_KEY, MAX_PATH);
      forall u: Byte | u < MAX_UNITS && SlotUnset(s, u)
        ensures c.slots[u] == u
      {
        OneCall(c, s, GetSlot(u));
      }
      hide KeyText, UnitKey, AmigaRun, LinuxRun, AgreeFromNowOn;
    }
  }

  lemma OneCall(c: Cache, s: Store, op: Op)
    requires CacheOk(c) && Clean(op)
    ensures AllClean([op])
    ensures AmigaRun(c, s, [op]) == LinuxRun(s, [op]) <==> AmigaStep(c, s, op).0 == LinuxStep(s, op).0
  {
    hide AmigaStep, LinuxStep, Clean;
    StepKeepsCacheOk(c, s, op);
    var (a, c1, t) := AmigaStep(c, s, op);
    var (b, t1) := LinuxStep(s, op);
    assert [op][0] == op && [op][1..] == [];
    assert AmigaRun(c, s, [op]) == [a] + AmigaRun(c1, t, []);
    assert LinuxRun(s, [op]) == [b] + LinuxRun(t1, []);
    assert AmigaRun(c, s, [op])[0] == a && LinuxRun(s, [op])[0] == b;
  }

  function Healed(s: Store): Store { s.(faults := []) }

  /** Filling the cache meets two reads, which a cache that is filled does not make. */
  function ReadFaults(c: Cache, r0: Fault, r1: Fault): seq<Fault> { if c.initialized then [] else [r0, r1] }

  lemma ReadUsesFirst(data: map<Key, seq<Byte>>, f: Fault, rest: seq<Fault>, key: Key, cap: nat)
    ensures StoreRead(Store(data, [f] + rest), key, cap) == (StoreRead(Store(data, [f]), key, cap).0, Store(data, rest))
  {
    assert ([f] + rest)[1..] == rest;
  }

  lemma ReadBothUses(data: map<Key, seq<Byte>>, r0: Fault, r1: Fault, rest: seq<Fault>)
    ensures ReadBoth(Store(data, [r0] + ([r1] + rest))) ==
      (KeyText(StoreRead(Store(data, [r0]), URI_KEY, MAX_URI).0, URI_SIZE),
       KeyText(StoreRead(Store(data, [r1]), PATH_KEY, MAX_PATH).0, PATH_SIZE), Store(data, rest))
  {
    hide StoreRead, KeyText;
    ReadUsesFirst(data, r0, [r1] + rest, URI_KEY, MAX_URI);
    ReadUsesFirst(data, r1, rest, PATH_KEY, MAX_PATH);
  }

  lemma EnsuredUses(c: Cache, data: map<Key, seq<Byte>>, r0: Fault, r1: Fault, rest: seq<Fault>)
    requires CacheOk(c)
    ensures var (c1, t) := Ensured(c, Store(data, ReadFaults(c, r0, r1) + rest));
      && t == Store(data, rest) && c1.initialized && CacheOk(c1)
      && c1.slots == (if c.initialized then c.slots else Identity())
      && c1.uri == (if c.initialized then c.uri else KeyText(StoreRead(Store(data, [r0]), URI_KEY, MAX_URI).0, URI_SIZE))
      && c1.path == (if c.initialized then c.path else KeyText(StoreRead(Store(data, [r1]), PATH_KEY, MAX_PATH).0, PATH_SIZE))
  {
    hide ReadBoth, StoreRead, KeyText;
    if c.initialized {
      assert [] + rest == rest;
    } else {
      ReadBothUses(data, r0, r1, rest);
      assert [r0, r1] + rest == [r0] + ([r1] + rest);
    }
  }

  // ----- the first call, when its reads may fail

  /** Does a string reach the cache whole through this fault? */
  predicate ReadsThrough(f: Fault, text: seq<Byte>) {
    match f
    case Healthy => true
    case Short(n) => |text| <= n
    case _ => text == []
  }

  lemma {:induction false} UpToNulOfFirst(v: seq<Byte>, n: nat)
    ensures UpToNul(First(v, n)) == First(UpToNul(v), n)
    decreases |v|
  {
    if v != [] && v[0] != 0 && n > 0 {
      UpToNulOfFirst(v[1..], n - 1);
      assert First(v, n)[1..] == First(v[1..], n - 1);
    }
  }

  lemma FaultyRead(data: map<Key, seq<Byte>>, f: Fault, key: Key, cap: nat)
    ensures var text := KeyText(StoreRead(Store(data, []), key, cap).0, cap + 1);
      KeyText(StoreRead(Store(data, [f]), key, cap).0, cap + 1) == text <==> ReadsThrough(f, text)
  {
    if f.Short? && key in data {
      var v := data[key];
      assert First(First(v, f.n), cap) == First(First(v, cap), f.n);
      UpToNulOfFirst(First(v, cap), f.n);
    }
    hide UpToNul;
  }

  /** The Amiga backend counts itself initialised whatever became of its first two reads. Its cache then
      shows what a healthy store holds exactly when both strings came through. */
  lemma FirstReadAgreement(data: map<Key, seq<Byte>>, r0: Fault, r1: Fault)
    ensures var fresh_ := Cache(false, [], [], Identity());
      var s := Store(data, []);
      var (_, c1, t) := AmigaGet(fresh_, Store(data, [r0, r1]));
      CacheOk(c1) && t == s &&
      (AgreeFromNowOn(c1, s) <==> ReadsThrough(r0, StoredUri(s)) && ReadsThrough(r1, StoredPath(s)))
  {
    hide StoreRead, KeyText, AgreeFromNowOn, ReadsThrough, Ensured;
    var fresh_ := Cache(false, [], [], Identity());
    EnsuredUses(fresh_, data, r0, r1, []);
    assert [r0, r1] + [] == [r0, r1];
    FaultyRead(data, r0, URI_KEY, MAX_URI);
    FaultyRead(data, r1, PATH_KEY, MAX_PATH);
    CoherentIffAgree(Ensured(fresh_, Store(data, [r0, r1])).0, Store(data, []));
  }

  // ----- agreement after writes that may fail

  /** Is the caller told that the whole value was written? */
  predicate Reported(f: Fault, v: seq<Byte>) { f.Healthy? || (f.Short? && f.n >= |v|) }

  /** Does the whole value reach the store, reported or not? */
  predicate Lands(f: Fault, v: seq<Byte>) { Reported(f, v) || (f.Lost? && f.n >= |v|) }

  /** Does a write through this fault leave the store holding v, where it was read as `before`? */
  predicate Puts(f: Fault, v: seq<Byte>, before: seq<Byte>) { Lands(f, v) || (f.Refused? && before == v) }

  /** set_state's writes leave both strings in the store. The path is written only if the first write
      was reported as complete. */
  predicate Settles(s: Store, f0: Fault, f1: Fault, uri: seq<Byte>, path: seq<Byte>) {
    && Puts(f0, uri, StoredUri(s))
    && if Reported(f0, uri) then Puts(f1, path, StoredPath(s)) else StoredPath(s) == path
  }

  lemma FaultyWrite(data: map<Key, seq<Byte>>, faults: seq<Fault>, key: Key, v: seq<Byte>)
    requires faults != []
    ensures var (ok, t) := StoreWrite(Store(data, faults), key, v);
      && ok == Reported(faults[0], v) && t.faults == faults[1..]
      && (if faults[0].Refused? then t.data == data
          else key in t.data && t.data == data[key := t.data[key]]
               && (if Lands(faults[0], v) then t.data[key] == v else |t.data[key]| < |v|))
  {
  }

  /** A string shorter than v is not read back as v. */
  lemma ShorterReadsOther(s: Store, key: Key, v: seq<Byte>, cap: nat)
    requires s.faults == [] && key in s.data && |s.data[key]| < |v|
    ensures KeyText(StoreRead(s, key, cap).0, cap + 1) != v
  {
  }

  /** What a healthy store is read as depends on the value under the key only. */
  lemma SameTextUnder(s: Store, t: Store, key: Key, cap: nat)
    requires s.faults == t.faults == [] && (key in s.data <==> key in t.data)
    requires key in s.data ==> s.data[key] == t.data[key]
    ensures KeyText(StoreRead(s, key, cap).0, cap + 1) == KeyText(StoreRead(t, key, cap).0, cap + 1)
  {
  }

  /** After one write through a fault, the key is read as v exactly when the fault puts it there. */
  lemma TextAfterWrite(data: map<Key, seq<Byte>>, f: Fault, key: Key, v: seq<Byte>, cap: nat)
    requires |v| <= cap && 0 !in v
    ensures var t := StoreWrite(Store(data, [f]), key, v).1;
      var before := KeyText(StoreRead(Store(data, []), key, cap).0, cap + 1);
      KeyText(StoreRead(Healed(t), key, cap).0, cap + 1) == v <==> Puts(f, v, before)
  {
    FaultyWrite(data, [f], key, v);
    var t := Healed(StoreWrite(Store(data, [f]), key, v).1);
    if Lands(f, v) {
      ReadBack(t, key, v, cap + 1);
    } else if !f.Refused? {
      ShorterReadsOther(t, key, v, cap);
    }
  }

  lemma WriteIgnoresLater(data: map<Key, seq<Byte>>, f: Fault, rest: seq<Fault>, key: Key, v: seq<Byte>)
    ensures var (ok, t) := StoreWrite(Store(data, [f] + rest), key, v);
      (ok, Healed(t)) == (StoreWrite(Store(data, [f]), key, v).0, Healed(StoreWrite(Store(data, [f]), key, v).1))
      && t.faults == rest
  {
    assert ([f] + rest)[1..] == rest;
  }

  /** What the store is read as after set_state's writes, whatever faults they meet. */
  lemma StoredAfterWrites(data: map<Key, seq<Byte>>, f0: Fault, f1: Fault, uri: seq<Byte>, path: seq<Byte>)
    requires Acceptable(uri, path) && 0 !in uri && 0 !in path
    ensures var s := Healed(WriteBoth(Store(data, [f0, f1]), uri, path).1);
      StoredUri(s) == uri && StoredPath(s) == path <==> Settles(Store(data, []), f0, f1, uri, path)
  {
    hide StoreRead, StoreWrite, KeyText, Puts, Lands, Reported;
    KeysDiffer(0, 0);
    assert [f0, f1] == [f0] + [f1];
    WriteIgnoresLater(data, f0, [f1], URI_KEY, uri);
    FaultyWrite(data, [f0, f1], URI_KEY, uri);
    TextAfterWrite(data, f0, URI_KEY, uri, MAX_URI);
    var (ok, s1) := StoreWrite(Store(data, [f0, f1]), URI_KEY, uri);
    FaultyWrite(s1.data, [f1], PATH_KEY, path);
    TextAfterWrite(s1.data, f1, PATH_KEY, path, MAX_PATH);
    var s := Healed(WriteBoth(Store(data, [f0, f1]), uri, path).1);
    SameTextUnder(s, Healed(s1), URI_KEY, MAX_URI);
    SameTextUnder(Healed(s1), Store(data, []), PATH_KEY, MAX_PATH);
  }

  lemma SlotsUntouched(data: map<Key, seq<Byte>>, f0: Fault, f1: Fault, uri: seq<Byte>, path: seq<Byte>, u: Byte)
    requires u < MAX_UNITS
    ensures SlotUnset(Healed(WriteBoth(Store(data, [f0, f1]), uri, path).1), u) <==> SlotUnset(Store(data, []), u)
  {
    KeysDiffer(u, u);
    hide UnitKey;
  }

  lemma SetSameStore(c: Cache, data: map<Key, seq<Byte>>, r0: Fault, r1: Fault, f0: Fault, f1: Fault, uri: seq<Byte>, path: seq<Byte>)
    requires CacheOk(c) && Acceptable(uri, path) && 0 !in uri && 0 !in path
    ensures var (ok, c1, t) := AmigaSet(c, Store(data, ReadFaults(c, r0, r1) + [f0, f1]), uri, path);
      && (ok, t) == LinuxSet(Store(data, [f0, f1]), uri, path) == WriteBoth(Store(data, [f0, f1]), uri, path)
      && CacheOk(c1) && c1 == Cache(true, uri, path, if c.initialized then c.slots else Identity())
  {
    hide WriteBoth, Ensured;
    EnsuredUses(c, data, r0, r1, [f0, f1]);
  }

  /** After a set_state, the program's first call or a later one, whose reads and writes meet any faults,
      both backends return the same value and leave the same store. Once the store is healthy again
      their next get_state agrees exactly when the writes settled. */
  lemma FailedWriteAgreement(c: Cache, data: map<Key, seq<Byte>>, r0: Fault, r1: Fault, f0: Fault, f1: Fault, uri: seq<Byte>, path: seq<Byte>)
    requires CacheOk(c) && Acceptable(uri, path) && 0 !in uri && 0 !in path
    ensures var (ok, c1, t) := AmigaSet(c, Store(data, ReadFaults(c, r0, r1) + [f0, f1]), uri, path);
      && LinuxSet(Store(data, [f0, f1]), uri, path) == (ok, t) && CacheOk(c1)
      && (AmigaGet(c1, Healed(t)).0 == LinuxGet(Healed(t)).0 <==> Settles(Store(data, []), f0, f1, uri, path))
  {
    SetSameStore(c, data, r0, r1, f0, f1, uri, path);
    StoredAfterWrites(data, f0, f1, uri, path);
    var t := Healed(WriteBoth(Store(data, [f0, f1]), uri, path).1);
    HealthyReads(t, URI_KEY, MAX_URI);
    HealthyReads(t, PATH_KEY, MAX_PATH);
    hide WriteBoth, StoreRead, KeyText, Settles, AmigaSet, LinuxSet;
  }

  /** So, for a cache that showed what the store held or was not filled yet, every sequence of calls made
      after the store is healthy again is answered alike exactly when the writes settled. */
  lemma AgreeAgainIff(c: Cache, data: map<Key, seq<Byte>>, r0: Fault, r1: Fault, f0: Fault, f1: Fault, uri: seq<Byte>, path: seq<Byte>)
    requires Coherent(c, Store(data, [])) && Acceptable(uri, path) && 0 !in uri && 0 !in path
    ensures var (_, c1, t) := AmigaSet(c, Store(data, ReadFaults(c, r0, r1) + [f0, f1]), uri, path);
      CacheOk(c1) && (AgreeFromNowOn(c1, Healed(t)) <==> Settles(Store(data, []), f0, f1, uri, path))
  {
    hide WriteBoth, StoredUri, StoredPath, SlotUnset, Settles, AmigaSet, LinuxSet, AgreeFromNowOn;
    SetSameStore(c, data, r0, r1, f0, f1, uri, path);
    StoredAfterWrites(data, f0, f1, uri, path);
    var (_, c1, t) := AmigaSet(c, Store(data, ReadFaults(c, r0, r1) + [f0, f1]), uri, path);
    forall u: Byte | u < MAX_UNITS && SlotUnset(Healed(t), u)
      ensures c1.slots[u] == u
    {
      SlotsUntouched(data, f0, f1, uri, path, u);
      assert SlotUnset(Store(data, []), u);
    }
    CoherentIffAgree(c1, Healed(t));
  }

  /** The slot answered for the unit is the same afterwards: it reached the store, or it is what both
      backends fall back to, or nothing was written and the store had a slot already. */
  predicate SlotSettles(s: Store, f: Fault, unit: Byte, slot: Byte)
    requires unit < MAX_UNITS
  {
    Lands(f, [slot]) || slot == unit || (f.Refused? && !SlotUnset(s, unit))
  }

  lemma SlotAfterWrite(data: map<Key, seq<Byte>>, f: Fault, unit: Byte, slot: Byte, u: Byte)
    requires unit < MAX_UNITS && u < MAX_UNITS
    ensures var t := Healed(StoreWrite(Store(data, [f]), UnitKey(unit), [slot]).1);
      && StoredUri(t) == StoredUri(Store(data, [])) && StoredPath(t) == StoredPath(Store(data, []))
      && (SlotUnset(t, u) <==>
            if u != unit || f.Refused? then SlotUnset(Store(data, []), u) else !Lands(f, [slot]))
  {
    KeysDiffer(u, unit);
    KeysDiffer(unit, unit);
    FaultyWrite(data, [f], UnitKey(unit), [slot]);
    var t := Healed(StoreWrite(Store(data, [f]), UnitKey(unit), [slot]).1);
    SameTextUnder(t, Store(data, []), URI_KEY, MAX_URI);
    SameTextUnder(t, Store(data, []), PATH_KEY, MAX_PATH);
    hide UnitKey, StoreRead, StoreWrite, KeyText;
  }

  lemma SlotCoherent(c: Cache, data: map<Key, seq<Byte>>, f: Fault, unit: Byte, slot: Byte)
    requires CacheOk(c) && c.initialized && unit < MAX_UNITS && slot < MAX_UNITS
    requires forall u: Byte | u < MAX_UNITS && SlotUnset(Store(data, []), u) :: c.slots[u] == u
    ensures var t := Healed(StoreWrite(Store(data, [f]), UnitKey(unit), [slot]).1);
      Coherent(c.(slots := c.slots[unit := slot]), t) <==>
        c.uri == StoredUri(Store(data, [])) && c.path == StoredPath(Store(data, []))
        && SlotSettles(Store(data, []), f, unit, slot)
  {
    var s, t := Store(data, []), Healed(StoreWrite(Store(data, [f]), UnitKey(unit), [slot]).1);
    assert t.faults == [];
    SlotAfterWrite(data, f, unit, slot, unit);
    forall u: Byte | u < MAX_UNITS && u != unit
      ensures SlotUnset(t, u) <==> SlotUnset(s, u)
    {
      SlotAfterWrite(data, f, unit, slot, u);
    }
    hide StoreWrite, StoredUri, StoredPath, SlotUnset, UnitKey, Lands;
  }

  /** After a set_unit_slot whose reads and write meet any faults the backends answer alike from then on
      exactly when the strings came through, if this call filled the cache, and the slot settled. */
  lemma FailedSlotAgreement(c: Cache, data: map<Key, seq<Byte>>, r0: Fault, r1: Fault, f: Fault, unit: Byte, slot: Byte)
    requires Coherent(c, Store(data, [])) && unit < MAX_UNITS && slot < MAX_UNITS
    ensures var s := Store(data, []);
      var (ok, c1, t) := AmigaSetSlot(c, Store(data, ReadFaults(c, r0, r1) + [f]), unit, slot);
      && LinuxSetSlot(Store(data, [f]), unit, slot) == (ok, t) && CacheOk(c1)
      && (AgreeFromNowOn(c1, Healed(t)) <==>
            && (c.initialized || (ReadsThrough(r0, StoredUri(s)) && ReadsThrough(r1, StoredPath(s))))
            && SlotSettles(s, f, unit, slot))
  {
    hide Ensured, StoreRead, StoreWrite, KeyText, UnitKey, ReadsThrough, SlotSettles, SlotUnset, AgreeFromNowOn;
    EnsuredUses(c, data, r0, r1, [f]);
    FaultyRead(data, r0, URI_KEY, MAX_URI);
    FaultyRead(data, r1, PATH_KEY, MAX_PATH);
    var c0 := Ensured(c, Store(data, ReadFaults(c, r0, r1) + [f])).0;
    SlotCoherent(c0, data, f, unit, slot);
    CoherentIffAgree(c0.(slots := c0.slots[unit := slot]), Healed(StoreWrite(Store(data, [f]), UnitKey(unit), [slot]).1));
  }

  /** An instance of writes that do not settle: the Amiga goes on reporting the new strings, Linux the
      stored ones, for instance the empty store with its first write refused. */
  lemma FailedWriteParts(uri: seq<Byte>)
    requires uri != [] && |uri| <= MAX_URI && 0 !in uri
    ensures var empty := Store(map[], [Healthy, Healthy, Refused]);
      var ops := [GetState, SetState(uri, []), GetState];
      AllClean(ops) &&
      AmigaRun(Cache(false, [], [], Identity()), empty, ops)[2] == State(StateView(uri, [], |uri|, 0)) &&
      LinuxRun(empty, ops)[2] == State(StateView([], [], 0, 0))
  {
    hide UnitKey;
    var empty := Store(map[], [Healthy, Healthy, Refused]);
    var refused := Store(map[], [Refused]);
    var spent := Store(map[], []);
    var ops := [GetState, SetState(uri, []), GetState];
    var c0 := Cache(false, [], [], Identity());
    var c1 := Cache(true, [], [], Identity());
    assert empty.faults[1..] == [Healthy, Refused] && empty.faults[1..][1..] == [Refused];
    assert ReadBoth(empty) == ([], [], refused);
    assert ReadBoth(spent) == ([], [], spent);
    assert refused.faults[1..] == [];
    assert StoreWrite(refused, URI_KEY, uri) == (false, spent);
    assert WriteBoth(refused, uri, []) == (false, spent);
    assert ops[1..] == [SetState(uri, []), GetState] && ops[1..][1..] == [GetState] && [GetState][1..] == [];
    assert LinuxStep(empty, ops[0]) == (State(StateView([], [], 0, 0)), refused);
    assert LinuxStep(refused, ops[1]) == (Result(false), spent);
    assert LinuxStep(spent, ops[2]) == (State(StateView([], [], 0, 0)), spent);
    assert AmigaStep(c0, empty, ops[0]) == (State(StateView([], [], 0, 0)), c1, refused);
    assert AmigaStep(c1, refused, ops[1]) == (Result(false), c1.(uri := uri), spent);
    FailedWriteRuns(c0, c1, c1.(uri := uri), empty, refused, spent, ops);
  }

  /** Three steps of both runs, one after the other. */
  lemma FailedWriteRuns(c0: Cache, c1: Cache, c2: Cache, s0: Store, s1: Store, s2: Store, ops: seq<Op>)
    requires CacheOk(c0) && CacheOk(c1) && CacheOk(c2) && AllClean(ops) && |ops| == 3
    requires AmigaStep(c0, s0, ops[0]).1 == c1 && AmigaStep(c0, s0, ops[0]).2 == s1
    requires AmigaStep(c1, s1, ops[1]).1 == c2 && AmigaStep(c1, s1, ops[1]).2 == s2
    requires LinuxStep(s0, ops[0]).1 == s1 && LinuxStep(s1, ops[1]).1 == s2
    ensures AmigaRun(c0, s0, ops)[2..] == [AmigaStep(c2, s2, ops[2]).0]
    ensures LinuxRun(s0, ops)[2..] == [LinuxStep(s2, ops[2]).0]
  {
    hide AmigaStep, LinuxStep, Clean;
    assert ops[1..][1..] == ops[2..] && ops[2..][1..] == [];
    assert AmigaRun(c2, s2, ops[2..]) == [AmigaStep(c2, s2, ops[2]).0];
    assert LinuxRun(s2, ops[2..]) == [LinuxStep(s2, ops[2]).0];
    assert AmigaRun(c1, s1, ops[1..]) == [AmigaStep(c1, s1, ops[1]).0] + AmigaRun(c2, s2, ops[2..]);
    assert LinuxRun(s1, ops[1..]) == [LinuxStep(s1, ops[1]).0] + LinuxRun(s2, ops[2..]);
  }
}
