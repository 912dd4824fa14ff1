/** The key/value store behind fnctl_get_state and its relatives, and what the two backends
    (src/platform/linux/fnctl.c, src/platform/amiga/fnctl.c) make of it, as functions. */
module FnctlStore {
  import opened MachineInts

  const MAX_URI := 255
  const MAX_PATH := 127
  const MAX_UNITS := 8
  const URI_SIZE := MAX_URI + 1
  const PATH_SIZE := MAX_PATH + 1
  const APPSTORE_BUF_SIZE := 320

  datatype Key = Key(ns: string, name: string)

  /** A char pointer argument. */
  datatype CString = NullString | Text(bytes: seq<Byte>)

  const URI_KEY := Key("fujinet-nio", "current-host")
  const PATH_KEY := Key("fujinet-nio", "current-display-path")

  function UnitKey(unit: Byte): Key {
    Key("nio.apps", "unit." + ['0' + (unit % 10) as char])
  }

  /** How the store treats one operation. A short transfer moves at most n bytes and says so; a lost one
      moves at most n bytes and is reported as a failure. */
  datatype Fault = Healthy | Refused | Short(n: nat) | Lost(n: nat)

  /** Is the caller told of a failure? */
  predicate Fails(f: Fault) { f.Refused? || f.Lost? }

  /** The stored values and the treatment of the operations to come; Healthy once the script is used up. */
  datatype Store = Store(data: map<Key, seq<Byte>>, faults: seq<Fault>)

  function NextFault(s: Store): Fault { if s.faults == [] then Healthy else s.faults[0] }
  function Consumed(s: Store): Store { s.(faults := if s.faults == [] then [] else s.faults[1..]) }

  /** A fault limits a transfer of a value; a refused one moves nothing. */
  function Moved(v: seq<Byte>, f: Fault): seq<Byte> {
    match f
    case Healthy => v
    case Refused => []
    case Short(n) => First(v, n)
    case Lost(n) => First(v, n)
  }

  datatype ReadResult = ReadFailed | Missing | Found(bytes: seq<Byte>)

  /** fn_appstore_read at offset 0 of at most cap bytes. */
  function StoreRead(s: Store, key: Key, cap: nat): (ReadResult, Store) {
    if Fails(NextFault(s)) then (ReadFailed, Consumed(s))
    else if key !in s.data then (Missing, Consumed(s))
    else (Found(First(Moved(s.data[key], NextFault(s)), cap)), Consumed(s))
  }

  /** fn_appstore_write at offset 0, which replaces the whole value by what was written. The result
      says whether the call succeeded and wrote every byte. */
  function StoreWrite(s: Store, key: Key, v: seq<Byte>): (bool, Store) {
    if NextFault(s).Refused? then (false, Consumed(s))
    else
      var w := Moved(v, NextFault(s));
      (!Fails(NextFault(s)) && |w| == |v|, Consumed(s).(data := s.data[key := w]))
  }

  /** The C string read_key leaves in a buffer of `cap` bytes. */
  function KeyText(r: ReadResult, cap: nat): (t: seq<Byte>)
    requires cap > 0
    ensures |t| < cap && 0 !in t
  {
    if r.Found? then UpToNul(First(r.bytes, cap - 1)) else []
  }

  /** What a caller of get_state learns. */
  datatype StateView = StateView(uri: seq<Byte>, path: seq<Byte>, uriLen: U16, pathLen: U16)

  function ViewOf(uri: seq<Byte>, path: seq<Byte>): StateView
    requires |uri| <= MAX_URI && |path| <= MAX_PATH
  {
    StateView(uri, path, |uri|, |path|)
  }

  /** Both strings, read one after the other. */
  function ReadBoth(s: Store): (r: (seq<Byte>, seq<Byte>, Store))
    ensures |r.0| <= MAX_URI && |r.1| <= MAX_PATH && 0 !in r.0 && 0 !in r.1
  {
    var (u, s1) := StoreRead(s, URI_KEY, URI_SIZE - 1);
    var (p, s2) := StoreRead(s1, PATH_KEY, PATH_SIZE - 1);
    (KeyText(u, URI_SIZE), KeyText(p, PATH_SIZE), s2)
  }

  /** Both strings, written one after the other unless the first write fails. */
  function WriteBoth(s: Store, uri: seq<Byte>, path: seq<Byte>): (bool, Store) {
    var (ok, s1) := StoreWrite(s, URI_KEY, uri);
    if !ok then (false, s1) else StoreWrite(s1, PATH_KEY, path)
  }

  predicate Acceptable(uri: seq<Byte>, path: seq<Byte>) { |uri| <= MAX_URI && |path| <= MAX_PATH }

  // ----- the Linux backend: everything is read from the store on every call

  function LinuxGet(s: Store): (StateView, Store) {
    var (u, p, s1) := ReadBoth(s);
    (ViewOf(u, p), s1)
  }

  function LinuxSet(s: Store, uri: seq<Byte>, path: seq<Byte>): (bool, Store) {
    if !Acceptable(uri, path) then (false, s) else WriteBoth(s, uri, path)
  }

  /** The slot of a unit: the stored byte, or the fallback when there is none. */
  function SlotFrom(r: ReadResult, fallback: Byte): Byte {
    if r.Found? && r.bytes != [] then r.bytes[0] else fallback
  }

  function LinuxGetSlot(s: Store, unit: Byte): (Byte, Store)
    requires unit < MAX_UNITS
  {
    var (r, s1) := StoreRead(s, UnitKey(unit), 1);
    (SlotFrom(r, unit), s1)
  }

  function LinuxSetSlot(s: Store, unit: Byte, slot: Byte): (bool, Store)
    requires unit < MAX_UNITS && slot < MAX_UNITS
  {
    StoreWrite(s, UnitKey(unit), [slot])
  }

  // ----- the Amiga backend: the strings and a fallback slot per unit are cached

  datatype Cache = Cache(initialized: bool, uri: seq<Byte>, path: seq<Byte>, slots: seq<Byte>)

  ghost predicate CacheOk(c: Cache) {
    && |c.slots| == MAX_UNITS
    && |c.uri| <= MAX_URI && |c.path| <= MAX_PATH && 0 !in c.uri && 0 !in c.path
  }

  function Identity(): seq<Byte> { [0, 1, 2, 3, 4, 5, 6, 7] }

  /** ensure_state: fill the cache on first use. */
  function Ensured(c: Cache, s: Store): (Cache, Store) {
    if c.initialized then (c, s)
    else
      var (u, p, s1) := ReadBoth(s);
      (Cache(true, u, p, Identity()), s1)
  }

  function AmigaGet(c: Cache, s: Store): (r: (StateView, Cache, Store))
    requires CacheOk(c)
  {
    var (c1, s1) := Ensured(c, s);
    (ViewOf(c1.uri, c1.path), c1, s1)
  }

  /** The cache takes the new strings before they are written, and keeps them if that fails. */
  function AmigaSet(c: Cache, s: Store, uri: seq<Byte>, path: seq<Byte>): (bool, Cache, Store) {
    if !Acceptable(uri, path) then (false, c, s)
    else
      var (c1, s1) := Ensured(c, s);
      var (ok, s2) := WriteBoth(s1, uri, path);
      (ok, c1.(uri := uri, path := path), s2)
  }

  function AmigaGetSlot(c: Cache, s: Store, unit: Byte): (Byte, Cache, Store)
    requires CacheOk(c) && unit < MAX_UNITS
  {
    var (c1, s1) := Ensured(c, s);
    var (r, s2) := StoreRead(s1, UnitKey(unit), 1);
    (SlotFrom(r, c1.slots[unit]), c1, s2)
  }

  function AmigaSetSlot(c: Cache, s: Store, unit: Byte, slot: Byte): (bool, Cache, Store)
    requires CacheOk(c) && unit < MAX_UNITS && slot < MAX_UNITS
  {
    var (c1, s1) := Ensured(c, s);
    var (ok, s2) := StoreWrite(s1, UnitKey(unit), [slot]);
    (ok, c1.(slots := c1.slots[unit := slot]), s2)
  }
}
