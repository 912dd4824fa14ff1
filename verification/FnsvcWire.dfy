/** The messages of the FujiNet service client (src/common/fnsvc.c) and what the client makes
    of each reply, as functions of the reply bytes. The client's methods are proved against these. */
module FnsvcWire {
  import opened MachineInts

  const IO_BUF_SIZE := 512
  const LIST_NAME_MAX := 220
  const LIST_MAX_PAYLOAD: U16 := 420
  const FILE_VERSION: Byte := 1
  const DISK_VERSION: Byte := 1
  const DEVICE_DISK: Byte := 0xFC
  const DEVICE_FILE: Byte := 0xFE
  const FILE_LIST_DIRECTORY: Byte := 0x02
  const FILE_RESOLVE_PATH: Byte := 0x05
  const DISK_MOUNT: Byte := 0x01
  const DISK_UNMOUNT: Byte := 0x02
  const DISK_RESTORE_BOOT: Byte := 0x0A
  const LIST_SORT_BY_NAME: Byte := 0x02
  const STATUS_OK: Byte := 0

  datatype SvcError =
    | NoError | InvalidArg | RequestTooLarge | TransportFailed | BadStatus
    | BadVersion | ShortResponse | EntriesBounds | EntryBounds

  /** One message handed to the transport. */
  datatype Request = Request(device: Byte, command: Byte, body: seq<Byte>)

  /** What the transport comes back with: a library error, or a status with a payload. */
  datatype Reply = NoReply(code: U16) | Replied(status: Byte, payload: seq<Byte>)

  /** The transport reports at most the response capacity. */
  function Delivered(payload: seq<Byte>, capacity: nat): (p: seq<Byte>)
    ensures p <= payload && |p| == if |payload| <= capacity then |payload| else capacity
  {
    First(payload, capacity)
  }

  /** A transport that has no further reply scripted is down. */
  function NextReply(replies: seq<Reply>): Reply { if replies == [] then NoReply(0) else replies[0] }
  function Remaining(replies: seq<Reply>): seq<Reply> { if replies == [] then [] else replies[1..] }

  // ----- list directory

  /** One invocation of the caller's callback. */
  datatype Entry = Entry(isDir: bool, name: seq<Byte>, size: U32, mtime: U32)

  function Clip16(s: seq<Byte>): (r: seq<Byte>)
    ensures |s| < TWO16 ==> r == s
    ensures r <= s && |r| == |s| % TWO16
  {
    s[..Trunc16(|s|)]
  }

  function ListRequest(uri: seq<Byte>, start: U16): seq<Byte> {
    var u := Clip16(uri);
    [FILE_VERSION] + PutU16le(|u|) + u + PutU16le(start) + PutU16le(LIST_MAX_PAYLOAD) + [LIST_SORT_BY_NAME]
  }

  /** The size check of the source, which allows six bytes around the URI. */
  predicate ListRequestAccepted(uri: seq<Byte>) { |Clip16(uri)| + 6 <= IO_BUF_SIZE }

  /** Is the request, which has eight bytes around the URI, short enough for the transport? */
  predicate ListRequestFits(uri: seq<Byte>) { |ListRequest(uri, 0)| <= IO_BUF_SIZE }

  function EntryTail(compact: bool): nat { if compact then 0 else 16 }

  /** Does a well-formed entry start at pos? */
  predicate EntryFits(p: seq<Byte>, compact: bool, pos: nat) {
    pos + 2 <= |p| && p[pos + 1] <= LIST_NAME_MAX && pos + 2 + p[pos + 1] + EntryTail(compact) <= |p|
  }

  function EntryEnd(p: seq<Byte>, compact: bool, pos: nat): nat
    requires pos + 2 <= |p|
  {
    pos + 2 + p[pos + 1] + EntryTail(compact)
  }

  /** The callback arguments for the entry at pos. The name is handed over NUL-terminated. */
  function EntryAt(p: seq<Byte>, compact: bool, pos: nat): Entry
    requires EntryFits(p, compact, pos)
  {
    var tail := pos + 2 + p[pos + 1];
    Entry(p[pos] % 2 == 1, UpToNul(p[pos + 2..tail]),
          if compact then 0 else GetU32le(p, tail),
          if compact then 0 else GetU32le(p, tail + 8))
  }

  /** The callbacks made for a page, and the error that stopped it, if any. */
  datatype PageResult = PageResult(entries: seq<Entry>, error: SvcError)

  function ParseEntries(p: seq<Byte>, compact: bool, pos: nat, left: nat): PageResult
    decreases left
  {
    if left == 0 then PageResult([], NoError)
    else if !EntryFits(p, compact, pos) then PageResult([], EntryBounds)
    else
      var rest := ParseEntries(p, compact, EntryEnd(p, compact, pos), left - 1);
      PageResult([EntryAt(p, compact, pos)] + rest.entries, rest.error)
  }

  function PageCount(p: seq<Byte>): U16 requires |p| >= 10 { GetU16le(p, 6) }
  predicate PageMore(p: seq<Byte>) requires |p| >= 10 { p[1] % 2 == 1 }
  predicate PageCompact(p: seq<Byte>) requires |p| >= 10 { p[1] / 2 % 2 == 1 }

  /** The check of entries_len, whose sum is truncated to 16 bits. */
  predicate EntriesLenOk(p: seq<Byte>) requires |p| >= 10 { Trunc16(10 + GetU16le(p, 8)) <= |p| }

  function ParsePage(p: seq<Byte>): PageResult {
    if |p| < 10 then PageResult([], ShortResponse)
    else if p[0] != FILE_VERSION then PageResult([], BadVersion)
    else if !EntriesLenOk(p) then PageResult([], EntriesBounds)
    else ParseEntries(p, PageCompact(p), 10, PageCount(p))
  }

  /** The diagnostic registers of the client. */
  datatype Registers = Registers(lastError: SvcError, lastStatus: Byte, lastRawError: Byte, lastResponseLen: U16)

  const CLEARED := Registers(NoError, 0, 0, 0)

  /** What one exchange of a listing leads to: callbacks, registers, and the page's MORE and count. */
  datatype PageStep = PageStep(entries: seq<Entry>, regs: Registers, more: bool, count: U16)

  function OnePage(regs: Registers, reply: Reply): PageStep {
    match reply
    case NoReply(code) =>
      PageStep([], regs.(lastError := TransportFailed, lastRawError := code % 0x100), false, 0)
    case Replied(status, payload) =>
      var p := Delivered(payload, IO_BUF_SIZE);
      var r := regs.(lastStatus := status, lastRawError := 0, lastResponseLen := |p|);
      if status != STATUS_OK then PageStep([], r.(lastError := BadStatus), false, 0)
      else
        var page := ParsePage(p);
        if page.error != NoError then PageStep(page.entries, r.(lastError := page.error), false, 0)
        else PageStep(page.entries, r, PageMore(p), PageCount(p))
  }

  /** The whole of one directory listing: callbacks, messages sent, registers and unused replies. */
  datatype ListRun = ListRun(trace: seq<Entry>, requests: seq<Request>, regs: Registers, rest: seq<Reply>)

  /** The page loop from a given start index. Each page uses up one reply; a transport that never
      stops answering MORE with entries is an unbounded script. `dosError` is the platform's last
      error code, which a request refused for its length leaves standing. */
  function ListFrom(uri: seq<Byte>, start: U16, regs: Registers, dosError: U16, replies: seq<Reply>): ListRun
    decreases |replies|
  {
    if !ListRequestFits(uri) then
      ListRun([], [], regs.(lastError := TransportFailed, lastRawError := dosError % 0x100), replies)
    else
      var sent := [Request(DEVICE_FILE, FILE_LIST_DIRECTORY, ListRequest(uri, start))];
      var step := OnePage(regs, NextReply(replies));
      if step.regs.lastError != NoError || !step.more || replies == [] then
        ListRun(step.entries, sent, step.regs, Remaining(replies))
      else if step.count == 0 then
        ListRun(step.entries, sent, step.regs.(lastError := ShortResponse), Remaining(replies))
      else
        var later := ListFrom(uri, Trunc16(start + step.count), step.regs, 0, Remaining(replies));
        ListRun(step.entries + later.trace, sent + later.requests, later.regs, later.rest)
  }

  function List(uri: seq<Byte>, hasCallback: bool, regs: Registers, dosError: U16, replies: seq<Reply>): ListRun {
    if !hasCallback then ListRun([], [], regs.(lastError := InvalidArg), replies)
    else if !ListRequestAccepted(uri) then ListRun([], [], CLEARED.(lastError := RequestTooLarge), replies)
    else ListFrom(uri, 0, CLEARED, dosError, replies)
  }

  // ----- resolve path

  function ResolveRequest(base: seq<Byte>, arg: seq<Byte>): seq<Byte> {
    [FILE_VERSION] + PutU16le(|Clip16(base)|) + Clip16(base) + PutU16le(|Clip16(arg)|) + Clip16(arg)
  }

  /** The bytes that reach a buffer of the given capacity; a NUL follows them. */
  function Fitting(s: seq<Byte>, capacity: nat): (r: seq<Byte>)
    requires capacity > 0
    ensures r <= s && |r| == if |s| < capacity then |s| else capacity - 1
  {
    if |s| < capacity then s else s[..capacity - 1]
  }

  /** What the caller's buffers receive: nothing, the URI only, or both strings and the flags. */
  datatype ResolveOutput =
    | Nothing
    | UriOnly(uri: seq<Byte>)
    | Resolved(uri: seq<Byte>, path: seq<Byte>, flags: Byte)

  /** The two length-prefixed strings of a reply, in full. */
  function ParseResolve(p: seq<Byte>): (ResolveOutput, SvcError) {
    if |p| < 8 || p[0] != FILE_VERSION then (Nothing, BadVersion)
    else
      var uriEnd := 6 + GetU16le(p, 4);
      if uriEnd + 2 > |p| then (Nothing, ShortResponse)
      else
        var uri := p[6..uriEnd];
        var pathEnd := uriEnd + 2 + GetU16le(p, uriEnd);
        if pathEnd > |p| then (UriOnly(uri), ShortResponse)
        else (Resolved(uri, p[uriEnd + 2..pathEnd], p[1]), NoError)
  }

  datatype ResolveRun = ResolveRun(output: ResolveOutput, requests: seq<Request>, regs: Registers, rest: seq<Reply>)

  /** The whole of one resolve call. `valid` is the argument check on the pointers and capacity. */
  function Resolve(base: seq<Byte>, arg: seq<Byte>, valid: bool, regs: Registers, replies: seq<Reply>): ResolveRun {
    if !valid then ResolveRun(Nothing, [], regs.(lastError := InvalidArg), replies)
    else if |base| + |arg| + 5 > IO_BUF_SIZE then ResolveRun(Nothing, [], regs.(lastError := RequestTooLarge), replies)
    else
      var sent := [Request(DEVICE_FILE, FILE_RESOLVE_PATH, ResolveRequest(base, arg))];
      match NextReply(replies)
      case NoReply(code) =>
        ResolveRun(Nothing, sent, CLEARED.(lastError := TransportFailed, lastRawError := code % 0x100), Remaining(replies))
      case Replied(status, payload) =>
        var p := Delivered(payload, IO_BUF_SIZE);
        var r := CLEARED.(lastStatus := status, lastResponseLen := |p|);
        if status != STATUS_OK then ResolveRun(Nothing, sent, r.(lastError := BadStatus), Remaining(replies))
        else
          var (output, error) := ParseResolve(p);
          ResolveRun(output, sent, r.(lastError := error), Remaining(replies))
  }

  /** The declared lengths of a resolve reply do not wrap the 16-bit sums that check them. */
  predicate LengthsDoNotWrap(p: seq<Byte>) {
    |p| >= 8 && p[0] == FILE_VERSION ==>
      var uriEnd := 6 + GetU16le(p, 4);
      && uriEnd + 2 < TWO16
      && (uriEnd + 2 <= |p| ==> uriEnd + 2 + GetU16le(p, uriEnd) < TWO16)
  }

  // ----- disk commands

  /** FN_DISK_ERR_NONE and FN_DISK_ERR_UNREPORTED, whose values a header outside the repository fixes. */
  datatype DiskCodes = DiskCodes(none: Byte, unreported: Byte)

  function MountRequest(slot: Byte, uri: seq<Byte>, readonly: bool, hint: U16): seq<Byte>
    requires slot < 8
  {
    [DISK_VERSION, slot + 1, if readonly then 1 else 0, 0] + PutU16le(hint) + PutU16le(|Clip16(uri)|) + Clip16(uri)
  }

  function SlotRequest(slot: Byte): seq<Byte>
    requires slot < 8
  {
    [DISK_VERSION, slot + 1]
  }

  /** disk_result: the code recorded for a reply. */
  function DiskCode(codes: DiskCodes, reply: Reply, capacity: nat): Byte {
    match reply
    case NoReply(_) => codes.unreported
    case Replied(status, payload) =>
      var p := Delivered(payload, capacity);
      if status == STATUS_OK then codes.none
      else if |p| == 2 && p[0] == DISK_VERSION then p[1]
      else codes.unreported
  }

  predicate Succeeded(reply: Reply) { reply.Replied? && reply.status == STATUS_OK }

  /** The registers service_call itself writes. */
  function RawErrorAfter(regs: Registers, reply: Reply): Registers {
    regs.(lastRawError := if reply.NoReply? then reply.code % 0x100 else 0)
  }

  /** The registers after restore_boot's one exchange. */
  function RestoreBootRegisters(reply: Reply): Registers {
    match reply
    case NoReply(code) => CLEARED.(lastError := TransportFailed, lastRawError := code % 0x100)
    case Replied(status, payload) =>
      var p := Delivered(payload, 16);
      CLEARED.(lastStatus := status, lastResponseLen := |p|,
               lastError := if status != STATUS_OK then BadStatus
                            else if |p| < 12 then ShortResponse
                            else if p[0] != DISK_VERSION then BadVersion
                            else NoError)
  }
}
