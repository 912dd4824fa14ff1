/** The two backends with their static buffers, updated in place, proved against FnctlStore. */
module FnctlBackends {
  import opened MachineInts
  import opened FnctlStore

  /** The store service. Reads land in the caller's buffer. */
  class AppStore {
    var data: map<Key, seq<Byte>>
    var faults: seq<Fault>

    ghost function View(): Store
      reads this
    {
      Store(data, faults)
    }

    constructor (data: map<Key, seq<Byte>>, faults: seq<Fault>)
      ensures View() == Store(data, faults)
    {
      this.data, this.faults := data, faults;
    }

    method Read(key: Key, buf: array<Byte>, cap: nat) returns (ok: bool, exists_: bool, n: nat)
      requires cap <= buf.Length
      modifies this, buf
      ensures var (r, s) := StoreRead(old(View()), key, cap);
        && View() == s && ok == !r.ReadFailed? && exists_ == r.Found?
        && (r.Found? ==> n == |r.bytes| && n <= cap && buf[..n] == r.bytes)
    {
      var f := if faults == [] then Healthy else faults[0];
      faults := if faults == [] then [] else faults[1..];
      ok, exists_, n := !Fails(f), false, 0;
      if Fails(f) || key !in data {
        return;
      }
      var v := First(Moved(data[key], f), cap);
      exists_, n := true, |v|;
      forall i | 0 <= i < n { buf[i] := v[i]; }
    }

    method Write(key: Key, v: seq<Byte>) returns (ok: bool, written: nat)
      modifies this
      ensures var (complete, s) := StoreWrite(old(View()), key, v);
        View() == s && (ok && written == |v| <==> complete)
    {
      var f := if faults == [] then Healthy else faults[0];
      faults := if faults == [] then [] else faults[1..];
      ok, written := !Fails(f), 0;
      if !f.Refused? {
        var w := Moved(v, f);
        written := |w|;
        data := data[key := w];
      }
    }
  }

  /** strlen of a terminated buffer. */
  method StrLen(buf: array<Byte>) returns (n: nat)
    requires 0 in buf[..]
    ensures n == |UpToNul(buf[..])| < buf.Length
  {
    n := 0;
    while buf[n] != 0
      invariant 0 <= n < buf.Length
      invariant 0 in buf[n..]
      invariant forall j | 0 <= j < n :: buf[j] != 0
      decreases buf.Length - n
    {
      n := n + 1;
    }
    UpToNulIs(buf[..], n);
  }

  /** read_key: the stored value, clipped to the buffer and terminated, or the empty string. */
  method ReadKey(store: AppStore, appstoreBuf: array<Byte>, key: Key, dst: array<Byte>) returns (ok: bool)
    requires 0 < dst.Length <= appstoreBuf.Length && dst != appstoreBuf
    modifies store, appstoreBuf, dst
    ensures var (r, s) := StoreRead(old(store.View()), key, dst.Length - 1);
      store.View() == s && ok == r.Found?
      && 0 in dst[..] && UpToNul(dst[..]) == KeyText(r, dst.Length)
  {
    hide UpToNul, StoreRead;
    var cap := dst.Length;
    dst[0] := 0;
    assert dst[..] == [] + [0] + dst[1..];
    UpToNulOfTerminated([], dst[1..]);
    var called, found, n := store.Read(key, appstoreBuf, cap - 1);
    assert dst[..][0] == 0;
    if !called || !found {
      return false;
    }
    if n >= cap {
      n := cap - 1;
    }
    forall i | 0 <= i < n { dst[i] := appstoreBuf[i]; }
    dst[n] := 0;
    assert dst[..][n] == 0;
    assert dst[..] == appstoreBuf[..n] + [0] + dst[n + 1..];
    UpToNulOfTerminated(appstoreBuf[..n], dst[n + 1..]);
    ghost var r := StoreRead(old(store.View()), key, cap - 1).0;
    assert First(r.bytes, cap - 1) == appstoreBuf[..n];
    ok := true;
  }

  /** fnctl_state_t, as far as the strings and their lengths go. */
  class StateStruct {
    const uri: array<Byte>
    const path: array<Byte>
    var uriLen: U16
    var pathLen: U16

    ghost predicate Valid() { uri.Length == URI_SIZE && path.Length == PATH_SIZE && uri != path }

    constructor ()
      ensures Valid() && fresh(uri) && fresh(path)
    {
      uri, path := new Byte[URI_SIZE](_ => 0), new Byte[PATH_SIZE](_ => 0);
      uriLen, pathLen := 0, 0;
    }

    /** The buffers hold terminated strings of the recorded lengths. */
    ghost predicate Consistent()
      reads this, uri, path
    {
      && Valid() && 0 in uri[..] && 0 in path[..]
      && uriLen == |UpToNul(uri[..])| && pathLen == |UpToNul(path[..])|
    }

    ghost predicate Holds(v: StateView)
      reads this, uri, path
    {
      Consistent() && v == StateView(UpToNul(uri[..]), UpToNul(path[..]), uriLen, pathLen)
    }

    /** memset and the two reads. */
    method Load(store: AppStore, appstoreBuf: array<Byte>)
      requires Valid() && appstoreBuf.Length == APPSTORE_BUF_SIZE && appstoreBuf !in {uri, path}
      modifies this, uri, path, store, appstoreBuf
      ensures var (u, p, s) := ReadBoth(old(store.View()));
        store.View() == s && Holds(ViewOf(u, p))
    {
      forall i | 0 <= i < uri.Length { uri[i] := 0; }
      forall i | 0 <= i < path.Length { path[i] := 0; }
      var _ := ReadKey(store, appstoreBuf, URI_KEY, uri);
      var _ := ReadKey(store, appstoreBuf, PATH_KEY, path);
      var n := StrLen(uri);
      uriLen := n;
      n := StrLen(path);
      pathLen := n;
    }

    /** Copy a C string with its terminator into one of the buffers. */
    static method StrCopy(dst: array<Byte>, s: seq<Byte>)
      requires |s| < dst.Length && 0 !in s
      modifies dst
      ensures 0 in dst[..] && UpToNul(dst[..]) == s
    {
      forall i | 0 <= i < |s| { dst[i] := s[i]; }
      dst[|s|] := 0;
      assert dst[..][|s|] == 0;
      assert dst[..] == s + [0] + dst[|s| + 1..];
      UpToNulOfTerminated(s, dst[|s| + 1..]);
      UpToNulOfClean(s);
    }

    /** Structure assignment. */
    method Assign(from: StateStruct)
      requires Valid() && from.Valid() && uri != from.path && path != from.uri
      modifies this, uri, path
      ensures uri[..] == old(from.uri[..]) && path[..] == old(from.path[..])
      ensures uriLen == old(from.uriLen) && pathLen == old(from.pathLen)
    {
      forall i | 0 <= i < uri.Length { uri[i] := from.uri[i]; }
      forall i | 0 <= i < path.Length { path[i] := from.path[i]; }
      uriLen, pathLen := from.uriLen, from.pathLen;
    }
  }

  /** write_key. */
  method WriteKey(store: AppStore, key: Key, v: seq<Byte>) returns (ok: bool)
    modifies store
    ensures (ok, store.View()) == StoreWrite(old(store.View()), key, v)
  {
    var called, written := store.Write(key, v);
    ok := called && written == |v|;
  }

  method WriteBothKeys(store: AppStore, uri: seq<Byte>, path: seq<Byte>) returns (ok: bool)
    modifies store
    ensures (ok, store.View()) == WriteBoth(old(store.View()), uri, path)
  {
    ok := WriteKey(store, URI_KEY, uri);
    if ok {
      ok := WriteKey(store, PATH_KEY, path);
    }
  }

  class LinuxFnctl {
    const store: AppStore
    const appstoreBuf: array<Byte>

    ghost predicate Valid() { appstoreBuf.Length == APPSTORE_BUF_SIZE }

    constructor (store: AppStore)
      ensures Valid() && this.store == store && fresh(appstoreBuf)
    {
      this.store := store;
      appstoreBuf := new Byte[APPSTORE_BUF_SIZE](_ => 0);
    }

    method GetState(out: StateStruct?) returns (ok: bool)
      requires Valid() && (out != null ==> out.Valid() && appstoreBuf !in {out.uri, out.path})
      modifies store, appstoreBuf, out, if out == null then {} else {out.uri, out.path}
      ensures ok == (out != null)
      ensures out == null ==> store.View() == old(store.View())
      ensures out != null ==> var (v, s) := LinuxGet(old(store.View())); store.View() == s && out.Holds(v)
    {
      if out == null {
        return false;
      }
      out.Load(store, appstoreBuf);
      ok := true;
    }

    method SetState(uri: CString, path: CString) returns (ok: bool)
      requires Valid()
      modifies store
      ensures uri.NullString? || path.NullString? ==> !ok && store.View() == old(store.View())
      ensures uri.Text? && path.Text? ==> (ok, store.View()) == LinuxSet(old(store.View()), uri.bytes, path.bytes)
    {
      if uri.NullString? || path.NullString? {
        return false;
      }
      if |uri.bytes| > MAX_URI || |path.bytes| > MAX_PATH {
        return false;
      }
      ok := WriteBothKeys(store, uri.bytes, path.bytes);
    }

    /** The slot is stored through the pointer, here an array of one byte. */
    method GetUnitSlot(unit: Byte, slot: array?<Byte>) returns (ok: bool)
      requires Valid() && (slot != null ==> slot.Length == 1 && slot != appstoreBuf)
      modifies store, appstoreBuf, slot
      ensures ok == (slot != null && unit < MAX_UNITS)
      ensures !ok ==> store.View() == old(store.View()) && (slot != null ==> slot[0] == old(slot[0]))
      ensures ok ==> (slot[0], store.View()) == LinuxGetSlot(old(store.View()), unit)
    {
      if slot == null || unit >= MAX_UNITS {
        return false;
      }
      var called, found, n := store.Read(UnitKey(unit), appstoreBuf, 1);
      if !called || !found || n == 0 {
        slot[0] := unit;
        return true;
      }
      slot[0] := appstoreBuf[0];
      ok := true;
    }

    method SetUnitSlot(unit: Byte, slot: Byte) returns (ok: bool)
      requires Valid()
      modifies store
      ensures unit >= MAX_UNITS || slot >= MAX_UNITS ==> !ok && store.View() == old(store.View())
      ensures unit < MAX_UNITS && slot < MAX_UNITS ==>
        (ok, store.View()) == LinuxSetSlot(old(store.View()), unit, slot)
    {
      if unit >= MAX_UNITS || slot >= MAX_UNITS {
        return false;
      }
      ok := WriteKey(store, UnitKey(unit), [slot]);
    }
  }

  class AmigaFnctl {
    const store: AppStore
    const appstoreBuf: array<Byte>
    const state: StateStruct
    const unitSlots: array<Byte>
    var initialized: bool

    ghost predicate Valid()
      reads this, state, state.uri, state.path, unitSlots
    {
      && appstoreBuf.Length == APPSTORE_BUF_SIZE && unitSlots.Length == MAX_UNITS && state.Valid()
      && appstoreBuf !in {state.uri, state.path, unitSlots} && unitSlots !in {state.uri, state.path}
      && (initialized ==> state.Consistent())
    }

    /** The cached strings; nothing is cached before the first use. */
    ghost function View(): Cache
      reads this, state, state.uri, state.path, unitSlots
    {
      if initialized then Cache(true, UpToNul(state.uri[..]), UpToNul(state.path[..]), unitSlots[..])
      else Cache(false, [], [], Identity())
    }

    constructor (store: AppStore)
      ensures Valid() && this.store == store && View() == Cache(false, [], [], Identity())
      ensures fresh(appstoreBuf) && fresh(state) && fresh(state.uri) && fresh(state.path) && fresh(unitSlots)
    {
      this.store := store;
      appstoreBuf := new Byte[APPSTORE_BUF_SIZE](_ => 0);
      var st := new StateStruct();
      state := st;
      unitSlots := new Byte[MAX_UNITS](_ => 0);
      initialized := false;
    }

    lemma ViewOk()
      requires Valid()
      ensures CacheOk(View())
      ensures initialized ==> state.Holds(ViewOf(View().uri, View().path))
    {
      if initialized {
        UpToNulShorter(state.uri[..]);
        UpToNulShorter(state.path[..]);
      }
    }

    method EnsureState()
      requires Valid()
      modifies this, store, appstoreBuf, state, state.uri, state.path, unitSlots
      ensures Valid() && initialized
      ensures (View(), store.View()) == Ensured(old(View()), old(store.View()))
    {
      if initialized {
        return;
      }
      hide ReadBoth, UpToNul;
      state.Load(store, appstoreBuf);
      FillSlots();
      initialized := true;
    }

    method FillSlots()
      requires unitSlots.Length == MAX_UNITS
      modifies unitSlots
      ensures unitSlots[..] == Identity()
    {
      for i := 0 to MAX_UNITS
        invariant forall j | 0 <= j < i :: unitSlots[j] == j
      {
        unitSlots[i] := i;
      }
    }

    method GetState(out: StateStruct?) returns (ok: bool)
      requires Valid()
      requires out != null ==> out.Valid() && out != state
      requires out != null ==> {out.uri, out.path} !! {state.uri, state.path, appstoreBuf, unitSlots}
      modifies this, store, appstoreBuf, state, state.uri, state.path, unitSlots, out, if out == null then {} else {out.uri, out.path}
      ensures Valid() && ok == (out != null)
      ensures out == null ==> View() == old(View()) && store.View() == old(store.View())
      ensures CacheOk(old(View()))
      ensures out != null ==>
        (var (v, c, s) := AmigaGet(old(View()), old(store.View()));
         View() == c && store.View() == s && out.Holds(v))
    {
      ViewOk();
      if out == null {
        return false;
      }
      EnsureState();
      ViewOk();
      out.Assign(state);
      ok := true;
    }

    method SetState(uri: CString, path: CString) returns (ok: bool)
      requires Valid() && (uri.Text? ==> 0 !in uri.bytes) && (path.Text? ==> 0 !in path.bytes)
      modifies this, store, appstoreBuf, state, state.uri, state.path, unitSlots
      ensures Valid()
      ensures uri.NullString? || path.NullString? ==> !ok && View() == old(View()) && store.View() == old(store.View())
      ensures uri.Text? && path.Text? ==>
        (ok, View(), store.View()) == AmigaSet(old(View()), old(store.View()), uri.bytes, path.bytes)
    {
      if uri.NullString? || path.NullString? {
        return false;
      }
      if |uri.bytes| > MAX_URI || |path.bytes| > MAX_PATH {
        return false;
      }
      EnsureState();
      StateStruct.StrCopy(state.uri, uri.bytes);
      StateStruct.StrCopy(state.path, path.bytes);
      state.uriLen, state.pathLen := |uri.bytes|, |path.bytes|;
      assert state.Holds(ViewOf(uri.bytes, path.bytes));
      ok := WriteBothKeys(store, uri.bytes, path.bytes);
    }

    method GetUnitSlot(unit: Byte, slot: array?<Byte>) returns (ok: bool)
      requires Valid()
      requires slot != null ==> slot.Length == 1 && slot !in {appstoreBuf, state.uri, state.path, unitSlots}
      modifies this, store, appstoreBuf, state, state.uri, state.path, unitSlots, slot
      ensures Valid() && ok == (slot != null && unit < MAX_UNITS)
      ensures !ok ==> View() == old(View()) && store.View() == old(store.View()) && (slot != null ==> slot[0] == old(slot[0]))
      ensures CacheOk(old(View()))
      ensures ok ==> (slot[0], View(), store.View()) == AmigaGetSlot(old(View()), old(store.View()), unit)
    {
      ViewOk();
      if slot == null || unit >= MAX_UNITS {
        return false;
      }
      EnsureState();
      var called, found, n := store.Read(UnitKey(unit), appstoreBuf, 1);
      if !called || !found || n == 0 {
        slot[0] := unitSlots[unit];
        return true;
      }
      slot[0] := appstoreBuf[0];
      ok := true;
    }

    method SetUnitSlot(unit: Byte, slot: Byte) returns (ok: bool)
      requires Valid()
      modifies this, store, appstoreBuf, state, state.uri, state.path, unitSlots
      ensures Valid()
      ensures unit >= MAX_UNITS || slot >= MAX_UNITS ==> !ok && View() == old(View()) && store.View() == old(store.View())
      ensures CacheOk(old(View()))
      ensures unit < MAX_UNITS && slot < MAX_UNITS ==>
        (ok, View(), store.View()) == AmigaSetSlot(old(View()), old(store.View()), unit, slot)
    {
      ViewOk();
      if unit >= MAX_UNITS || slot >= MAX_UNITS {
        return false;
      }
      EnsureState();
      unitSlots[unit] := slot;
      ok := WriteKey(store, UnitKey(unit), [slot]);
    }
  }
}
