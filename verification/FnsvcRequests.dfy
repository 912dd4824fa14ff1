/** Requests as the service reads them: every encoder of src/common/fnsvc.c against its decoder. */
module FnsvcRequests {
  import opened MachineInts
  import opened FnsvcWire

  /** A length-prefixed string at `at`, and the position after it. */
  function TakeString(b: seq<Byte>, at: nat): (s: seq<Byte>)
    requires at + 2 <= |b| && at + 2 + GetU16le(b, at) <= |b|
    ensures |s| == GetU16le(b, at)
  {
    b[at + 2..at + 2 + GetU16le(b, at)]
  }

  predicate HasString(b: seq<Byte>, at: nat) {
    at + 2 <= |b| && at + 2 + GetU16le(b, at) <= |b|
  }

  lemma StringRoundTrip(pre: seq<Byte>, s: seq<Byte>, post: seq<Byte>)
    requires |s| < TWO16
    ensures var b := pre + PutU16le(|s|) + s + post;
      HasString(b, |pre|) && TakeString(b, |pre|) == s
  {
    U16RoundTrip(pre, |s|, s + post);
    assert pre + PutU16le(|s|) + s + post == pre + PutU16le(|s|) + (s + post);
  }

  datatype ListFields = ListFields(uri: seq<Byte>, start: U16, maxPayload: U16, flags: Byte)

  predicate IsListRequest(b: seq<Byte>) {
    && |b| >= 1 && b[0] == FILE_VERSION && HasString(b, 1)
    && |b| == 3 + GetU16le(b, 1) + 5
  }

  function DecodeList(b: seq<Byte>): ListFields
    requires IsListRequest(b)
  {
    var at := 3 + GetU16le(b, 1);
    ListFields(TakeString(b, 1), GetU16le(b, at), GetU16le(b, at + 2), b[at + 4])
  }

  /** A list request carries the URI and the start index to the service. */
  lemma ListRequestDecodes(uri: seq<Byte>, start: U16)
    requires |uri| < TWO16
    ensures var b := ListRequest(uri, start);
      && IsListRequest(b) && |b| == |uri| + 8
      && DecodeList(b) == ListFields(uri, start, LIST_MAX_PAYLOAD, LIST_SORT_BY_NAME)
  {
    var b := ListRequest(uri, start);
    var tail := PutU16le(start) + PutU16le(LIST_MAX_PAYLOAD) + [LIST_SORT_BY_NAME];
    assert b == [FILE_VERSION] + PutU16le(|uri|) + uri + tail;
    StringRoundTrip([FILE_VERSION], uri, tail);
    var head := [FILE_VERSION] + PutU16le(|uri|) + uri;
    assert b == head + PutU16le(start) + (PutU16le(LIST_MAX_PAYLOAD) + [LIST_SORT_BY_NAME]);
    U16RoundTrip(head, start, PutU16le(LIST_MAX_PAYLOAD) + [LIST_SORT_BY_NAME]);
    assert b == head + PutU16le(start) + PutU16le(LIST_MAX_PAYLOAD) + [LIST_SORT_BY_NAME];
    U16RoundTrip(head + PutU16le(start), LIST_MAX_PAYLOAD, [LIST_SORT_BY_NAME]);
  }

  /** The six-byte overhead in the size check is two short: the encoder stays within req_buf for
      every accepted URI except those of 505 and 506 bytes. */
  lemma ListRequestWithinBuffer(uri: seq<Byte>, start: U16)
    requires |uri| < TWO16
    ensures ListRequestAccepted(uri) ==>
      (|ListRequest(uri, start)| <= IO_BUF_SIZE <==> |uri| !in {505, 506})
    ensures |ListRequest(uri, start)| <= IO_BUF_SIZE <==> ListRequestFits(uri)
  {
    ListRequestDecodes(uri, start);
    ListRequestDecodes(uri, 0);
  }

  /** A listing of such a URI is not reported as too large: nothing is sent, and the error is
      TransportFailed although no exchange took place. */
  lemma LongUriMisreported(uri: seq<Byte>, regs: Registers, dosError: U16, replies: seq<Reply>)
    requires |uri| in {505, 506}
    ensures var run := List(uri, true, regs, dosError, replies);
      && run.regs == Registers(TransportFailed, 0, dosError % 0x100, 0)
      && run.requests == [] && run.rest == replies && run.trace == []
  {
    ListRequestWithinBuffer(uri, 0);
  }

  datatype ResolveFields = ResolveFields(base: seq<Byte>, arg: seq<Byte>)

  predicate IsResolveRequest(b: seq<Byte>) {
    && |b| >= 1 && b[0] == FILE_VERSION && HasString(b, 1) && HasString(b, 3 + GetU16le(b, 1))
    && |b| == 5 + GetU16le(b, 1) + GetU16le(b, 3 + GetU16le(b, 1))
  }

  function DecodeResolve(b: seq<Byte>): ResolveFields
    requires IsResolveRequest(b)
  {
    ResolveFields(TakeString(b, 1), TakeString(b, 3 + GetU16le(b, 1)))
  }

  /** A resolve call either rejects the strings or sends both, within the buffer. */
  lemma ResolveRequestDecodes(base: seq<Byte>, arg: seq<Byte>)
    requires |base| + |arg| + 5 <= IO_BUF_SIZE
    ensures var b := ResolveRequest(base, arg);
      |b| <= IO_BUF_SIZE && IsResolveRequest(b) && DecodeResolve(b) == ResolveFields(base, arg)
  {
    var b := ResolveRequest(base, arg);
    var tail := PutU16le(|arg|) + arg;
    assert b == [FILE_VERSION] + PutU16le(|base|) + base + tail;
    StringRoundTrip([FILE_VERSION], base, tail);
    var head := [FILE_VERSION] + PutU16le(|base|) + base;
    assert b == head + PutU16le(|arg|) + arg + [];
    StringRoundTrip(head, arg, []);
  }

  datatype MountFields = MountFields(slot: Byte, readonly: bool, hint: U16, uri: seq<Byte>)

  predicate IsMountRequest(b: seq<Byte>) {
    && |b| >= 8 && b[0] == DISK_VERSION && b[1] > 0 && HasString(b, 6) && |b| == 8 + GetU16le(b, 6)
  }

  /** Slots are numbered from 1 on the wire. */
  function DecodeMount(b: seq<Byte>): MountFields
    requires IsMountRequest(b)
  {
    MountFields(b[1] - 1, b[2] == 1, GetU16le(b, 4), TakeString(b, 6))
  }

  lemma MountRequestDecodes(slot: Byte, uri: seq<Byte>, readonly: bool, hint: U16)
    requires slot < 8 && |uri| + 8 <= IO_BUF_SIZE
    ensures var b := MountRequest(slot, uri, readonly, hint);
      |b| <= IO_BUF_SIZE && IsMountRequest(b) && DecodeMount(b) == MountFields(slot, readonly, hint, uri)
  {
    var b := MountRequest(slot, uri, readonly, hint);
    var start := [DISK_VERSION, slot + 1, if readonly then 1 else 0, 0];
    assert b == start + PutU16le(hint) + (PutU16le(|uri|) + uri);
    U16RoundTrip(start, hint, PutU16le(|uri|) + uri);
    assert b == (start + PutU16le(hint)) + PutU16le(|uri|) + uri + [];
    StringRoundTrip(start + PutU16le(hint), uri, []);
  }

  // ----- what goes out

  /** The request is a resolve request to the file service for these two strings. */
  ghost predicate SendsResolve(r: Request, base: seq<Byte>, arg: seq<Byte>) {
    && r.device == DEVICE_FILE && r.command == FILE_RESOLVE_PATH
    && IsResolveRequest(r.body) && DecodeResolve(r.body) == ResolveFields(base, arg)
  }

  /** A valid resolve call that fits sends one such request; any other sends nothing. */
  lemma ResolveSends(base: seq<Byte>, arg: seq<Byte>, valid: bool, regs: Registers, replies: seq<Reply>)
    ensures var sent := Resolve(base, arg, valid, regs, replies).requests;
      if valid && |base| + |arg| + 5 <= IO_BUF_SIZE
      then |sent| == 1 && SendsResolve(sent[0], base, arg)
      else sent == []
  {
    hide ResolveRequest, ParseResolve, IsResolveRequest, DecodeResolve;
    if |base| + |arg| + 5 <= IO_BUF_SIZE {
      ResolveRequestDecodes(base, arg);
    }
  }

  predicate IsSlotRequest(b: seq<Byte>) { |b| == 2 && b[0] == DISK_VERSION && b[1] > 0 }

  /** As for mounting, slots are numbered from 1. */
  function DecodeSlot(b: seq<Byte>): Byte
    requires IsSlotRequest(b)
  {
    b[1] - 1
  }

  /** Unmount and restore-boot carry the slot, which is where a mount of the same number put the medium. */
  lemma SlotRequestDecodes(slot: Byte, uri: seq<Byte>, readonly: bool, hint: U16)
    requires slot < 8 && |uri| + 8 <= IO_BUF_SIZE
    ensures IsSlotRequest(SlotRequest(slot)) && DecodeSlot(SlotRequest(slot)) == slot
    ensures IsMountRequest(MountRequest(slot, uri, readonly, hint))
    ensures SlotRequest(slot)[1] == MountRequest(slot, uri, readonly, hint)[1]
    ensures DecodeSlot(SlotRequest(slot)) == DecodeMount(MountRequest(slot, uri, readonly, hint)).slot
  {
    MountRequestDecodes(slot, uri, readonly, hint);
  }

  /** Different slots have different requests. */
  lemma SlotRequestInjective(slot: Byte, other: Byte)
    requires slot < 8 && other < 8 && SlotRequest(slot) == SlotRequest(other)
    ensures slot == other
  {
    SlotRequestDecodes(slot, [], false, 0);
    SlotRequestDecodes(other, [], false, 0);
  }

  // ----- the bytes themselves

  /** The messages for short arguments, byte by byte, with the devices and commands they go to. */
  lemma KnownMessages()
    ensures ListRequest([0x41], 0x0102) == [1, 1, 0, 0x41, 2, 1, 0xA4, 1, 2]
    ensures ResolveRequest([0x41], [0x42]) == [1, 1, 0, 0x41, 1, 0, 0x42]
    ensures MountRequest(0, [0x41], true, 0x0200) == [1, 1, 1, 0, 0, 2, 1, 0, 0x41]
    ensures SlotRequest(0) == [1, 1]
    ensures DEVICE_FILE == 0xFE && FILE_LIST_DIRECTORY == 2 && FILE_RESOLVE_PATH == 5
    ensures DEVICE_DISK == 0xFC && DISK_MOUNT == 1 && DISK_UNMOUNT == 2 && DISK_RESTORE_BOOT == 10
  {
  }

  // ----- the reply to a resolve request

  function EncodeResolved(flags: Byte, reserved: seq<Byte>, uri: seq<Byte>, path: seq<Byte>): seq<Byte>
    requires |reserved| == 2 && |uri| < TWO16 && |path| < TWO16
  {
    [FILE_VERSION, flags] + reserved + PutU16le(|uri|) + uri + PutU16le(|path|) + path
  }

  /** Whatever URI and path the service answers with reach the parser whole; the path is found
      behind the full URI. */
  lemma ResolvedRoundTrip(flags: Byte, reserved: seq<Byte>, uri: seq<Byte>, path: seq<Byte>)
    requires |reserved| == 2 && |uri| + |path| + 8 <= IO_BUF_SIZE
    ensures var p := EncodeResolved(flags, reserved, uri, path);
      |p| <= IO_BUF_SIZE && LengthsDoNotWrap(p) && ParseResolve(p) == (Resolved(uri, path, flags), NoError)
  {
    var p := EncodeResolved(flags, reserved, uri, path);
    var start := [FILE_VERSION, flags] + reserved;
    assert p == start + PutU16le(|uri|) + uri + (PutU16le(|path|) + path);
    StringRoundTrip(start, uri, PutU16le(|path|) + path);
    var head := start + PutU16le(|uri|) + uri;
    assert p == head + PutU16le(|path|) + path + [];
    StringRoundTrip(head, path, []);
    assert p[6..6 + |uri|] == TakeString(p, 4);
    assert p[8 + |uri|..8 + |uri| + |path|] == TakeString(p, 6 + |uri|);
  }

  /** For any reply, success means exactly: both declared strings lie inside the reply. */
  lemma ResolveSucceedsIff(p: seq<Byte>)
    ensures ParseResolve(p).1 == NoError <==>
      && |p| >= 8 && p[0] == FILE_VERSION && HasString(p, 4) && HasString(p, 6 + GetU16le(p, 4))
    ensures ParseResolve(p).1 == NoError ==>
      ParseResolve(p).0 == Resolved(TakeString(p, 4), TakeString(p, 6 + GetU16le(p, 4)), p[1])
    ensures ParseResolve(p).1 == NoError <==> ParseResolve(p).0.Resolved?
  {
  }

  // ----- sums of lengths that wrap

  /** The size check of a resolve call, on 16-bit lengths. */
  predicate ResolveSizeOk(baseLen: U16, argLen: U16) { Trunc16(baseLen + argLen + 5) <= IO_BUF_SIZE }

  /** It accepts a request that does not fit req_buf exactly when the sum has wrapped to at most 512. */
  lemma ResolveSizeCheck(baseLen: U16, argLen: U16)
    ensures var n := baseLen + argLen + 5;
      ResolveSizeOk(baseLen, argLen) <==> n <= IO_BUF_SIZE || TWO16 <= n <= TWO16 + IO_BUF_SIZE || 2 * TWO16 <= n
  {
  }

  /** Both bound checks on a resolve reply (from position 8 for the URI, from the path's own position
      for the path) accept a string beyond the end of the reply exactly when the sum has wrapped to
      within the reply. */
  lemma ResolveLenCheck(at: U16, len: U16, responseLen: U16)
    requires at <= responseLen + 2 && responseLen <= IO_BUF_SIZE
    ensures Trunc16(at + len) <= responseLen <==> at + len <= responseLen || TWO16 <= at + len <= TWO16 + responseLen
  {
  }
}
