/** The service client of src/common/fnsvc.c: static buffers and registers updated in place,
    a page loop driven by the server, and 16-bit positions. */
module FnsvcClient {
  import opened MachineInts
  import opened FnsvcWire
  import opened NioTransport
  import opened FnsvcRequests

  /** memcpy of a value into a buffer. */
  method PutBytes(dst: array<Byte>, at: nat, src: seq<Byte>)
    requires at + |src| <= dst.Length
    modifies dst
    ensures dst[..at + |src|] == old(dst[..at]) + src
    ensures dst[at + |src|..] == old(dst[at + |src|..])
  {
    forall i | 0 <= i < |src| { dst[at + i] := src[i]; }
  }

  /** A length-prefixed string. */
  method PutString(dst: array<Byte>, at: nat, s: seq<Byte>) returns (next: nat)
    requires at + 2 + |s| <= dst.Length && |s| < TWO16
    modifies dst
    ensures next == at + 2 + |s| && dst[..next] == old(dst[..at]) + PutU16le(|s|) + s
  {
    PutBytes(dst, at, PutU16le(|s|));
    PutBytes(dst, at + 2, s);
    next := at + 2 + |s|;
  }

  /** What code that is handed a char pointer to the buffer reads. */
  method ReadCString(buf: array<Byte>) returns (s: seq<Byte>)
    requires 0 in buf[..]
    ensures s == UpToNul(buf[..])
  {
    var i := 0;
    while buf[i] != 0
      invariant 0 <= i < buf.Length
      invariant 0 in buf[i..]
      invariant forall j | 0 <= j < i :: buf[j] != 0
      decreases buf.Length - i
    {
      i := i + 1;
    }
    s := buf[..i];
    UpToNulIs(buf[..], i);
  }

  /** A run is what happened before some point followed by the run from that point. */
  ghost predicate Continues(whole: ListRun, before: ListRun, later: ListRun) {
    && whole.trace == before.trace + later.trace
    && whole.requests == before.requests + later.requests
    && whole.regs == later.regs && whole.rest == later.rest
  }

  /** req_buf and resp_buf hold IO_BUF_SIZE bytes. The array for req_buf is two bytes longer:
      the accepted list requests for the two longest URIs spill into whatever follows it. */
  const REQ_BUF_SPAN := IO_BUF_SIZE + 2

  class Client {
    const transport: Transport
    const codes: DiskCodes
    const reqBuf: array<Byte>
    const respBuf: array<Byte>
    const listName: array<Byte>
    var lastError: SvcError
    var lastStatus: Byte
    var lastRawError: Byte
    var lastResponseLen: U16
    var diskLastError: Byte

    ghost predicate Valid() {
      && reqBuf.Length == REQ_BUF_SPAN && respBuf.Length == IO_BUF_SIZE && listName.Length == LIST_NAME_MAX + 1
      && reqBuf != respBuf && reqBuf != listName && respBuf != listName
    }

    ghost function Regs(): Registers
      reads this
    {
      Registers(lastError, lastStatus, lastRawError, lastResponseLen)
    }

    constructor (transport: Transport, codes: DiskCodes)
      ensures Valid() && this.transport == transport && this.codes == codes
      ensures Regs() == CLEARED && diskLastError == codes.none
      ensures fresh(reqBuf) && fresh(respBuf) && fresh(listName)
    {
      this.transport, this.codes := transport, codes;
      reqBuf, respBuf := new Byte[REQ_BUF_SPAN](_ => 0), new Byte[IO_BUF_SIZE](_ => 0);
      listName := new Byte[LIST_NAME_MAX + 1](_ => 0);
      lastError, lastStatus, lastRawError, lastResponseLen := NoError, 0, 0, 0;
      diskLastError := codes.none;
    }

    method Fail(error: SvcError) returns (ok: bool)
      modifies this`lastError
      ensures !ok && lastError == error
    {
      lastError := error;
      ok := false;
    }

    /** service_call: one exchange that also records the raw error. */
    method ServiceCall(device: Byte, command: Byte, requestLen: nat, capacity: nat)
      returns (ok: bool, status: Byte, responseLen: U16)
      requires Valid() && requestLen <= reqBuf.Length && capacity <= IO_BUF_SIZE
      modifies this`lastRawError, transport, respBuf
      ensures requestLen > IO_BUF_SIZE ==>
        !ok && lastRawError == old(transport.lastDosError) % 0x100
        && transport.sent == old(transport.sent) && transport.replies == old(transport.replies)
      ensures requestLen <= IO_BUF_SIZE ==>
        && transport.sent == old(transport.sent) + [Request(device, command, old(reqBuf[..requestLen]))]
        && transport.replies == Remaining(old(transport.replies))
        && Regs() == RawErrorAfter(old(Regs()), NextReply(old(transport.replies)))
        && match NextReply(old(transport.replies))
           case NoReply(_) => !ok
           case Replied(s, payload) =>
             var p := Delivered(payload, capacity);
             ok && status == s && responseLen == |p| && respBuf[..responseLen] == p && transport.lastDosError == 0
    {
      ok, status, responseLen := transport.Exchange(device, command, reqBuf, requestLen, respBuf, capacity);
      lastRawError := if ok then 0 else transport.lastDosError % 0x100;
    }

    // ----- list directory

    method WriteListRequest(uri: seq<Byte>, start: U16) returns (off: nat)
      requires Valid() && ListRequestAccepted(uri)
      modifies reqBuf
      ensures off <= reqBuf.Length && reqBuf[..off] == ListRequest(uri, start)
    {
      hide PutU16le;
      var u := Clip16(uri);
      off := 0;
      PutBytes(reqBuf, off, [FILE_VERSION]);
      off := off + 1;
      off := PutString(reqBuf, off, u);
      ghost var head := [FILE_VERSION] + PutU16le(|u|) + u;
      assert reqBuf[..off] == head;
      PutBytes(reqBuf, off, PutU16le(start));
      off := off + 2;
      assert reqBuf[..off] == head + PutU16le(start);
      PutBytes(reqBuf, off, PutU16le(LIST_MAX_PAYLOAD));
      off := off + 2;
      PutBytes(reqBuf, off, [LIST_SORT_BY_NAME]);
      off := off + 1;
    }

    /** One entry, with every position sum truncated to 16 bits. */
    method ReadEntry(responseLen: U16, compact: bool, at: U16) returns (ok: bool, entry: Entry, next: U16)
      requires Valid() && 10 <= at <= responseLen <= IO_BUF_SIZE
      modifies listName
      ensures var p := respBuf[..responseLen];
        ok == EntryFits(p, compact, at) && (ok ==> entry == EntryAt(p, compact, at) && next == EntryEnd(p, compact, at))
    {
      hide UpToNul, GetU32le;
      ghost var p := respBuf[..responseLen];
      ok, entry, next := false, Entry(false, [], 0, 0), at;
      var pos := at;
      if Trunc16(pos + 2) > responseLen {
        return;
      }
      var eflags := respBuf[pos];
      pos := Trunc16(pos + 1);
      var nameLen := respBuf[pos];
      pos := Trunc16(pos + 1);
      if Trunc16(pos + nameLen) > responseLen || nameLen >= LIST_NAME_MAX + 1 {
        return;
      }
      PutBytes(listName, 0, respBuf[pos..pos + nameLen]);
      listName[nameLen] := 0;
      var name := CallbackName(nameLen, p[at + 2..at + 2 + nameLen]);
      pos := Trunc16(pos + nameLen);
      var size: U32, mtime: U32 := 0, 0;
      if !compact {
        if Trunc16(pos + 16) > responseLen {
          return;
        }
        size := GetU32le(respBuf[..responseLen], pos);
        mtime := GetU32le(respBuf[..responseLen], pos + 8);
        pos := Trunc16(pos + 16);
      }
      ok, entry, next := true, Entry(eflags % 2 == 1, name, size, mtime), pos;
    }

    /** The entry loop over one page. */
    method ListEntries(responseLen: U16, compact: bool, count: U16) returns (error: SvcError, entries: seq<Entry>)
      requires Valid() && 10 <= responseLen <= IO_BUF_SIZE
      modifies listName
      ensures PageResult(entries, error) == ParseEntries(respBuf[..responseLen], compact, 10, count)
    {
      hide EntryAt, EntryFits, EntryEnd;
      ghost var p := respBuf[..responseLen];
      entries, error := [], NoError;
      var pos: U16, idx: nat := 10, 0;
      while idx < count
        invariant idx <= count && 10 <= pos <= responseLen
        invariant p == respBuf[..responseLen]
        invariant error == NoError
        invariant var rest := ParseEntries(p, compact, pos, count - idx);
          ParseEntries(p, compact, 10, count) == PageResult(entries + rest.entries, rest.error)
      {
        var ok, entry, next := ReadEntry(responseLen, compact, pos);
        assert p == respBuf[..responseLen];
        if !ok {
          error := EntryBounds;
          return;
        }
        EntryAdvances(p, compact, pos);
        entries := entries + [entry];
        pos := next;
        idx := idx + 1;
      }
    }

    /** The string the callback sees in list_name after a name of nameLen bytes was stored. */
    method CallbackName(nameLen: Byte, ghost stored: seq<Byte>) returns (name: seq<Byte>)
      requires Valid() && nameLen <= LIST_NAME_MAX
      requires listName[..nameLen] == stored && listName[nameLen] == 0
      ensures name == UpToNul(stored)
    {
      assert listName[..] == stored + [0] + listName[nameLen + 1..];
      assert listName[..][nameLen] == 0;
      UpToNulOfTerminated(stored, listName[nameLen + 1..]);
      name := ReadCString(listName);
    }

    lemma EntryAdvances(p: seq<Byte>, compact: bool, pos: nat)
      requires EntryFits(p, compact, pos)
      ensures pos + 2 <= EntryEnd(p, compact, pos) <= |p|
    {
    }

    /** The checks and the entry loop on one reply. */
    method ListPage(responseLen: U16) returns (error: SvcError, entries: seq<Entry>, count: U16, more: bool)
      requires Valid() && responseLen <= IO_BUF_SIZE
      modifies listName
      ensures PageResult(entries, error) == ParsePage(respBuf[..responseLen])
      ensures error == NoError ==> count == PageCount(respBuf[..responseLen]) && more == PageMore(respBuf[..responseLen])
    {
      ghost var p := respBuf[..responseLen];
      entries, count, more := [], 0, false;
      if responseLen < 10 {
        error := ShortResponse;
        return;
      }
      if respBuf[0] != FILE_VERSION {
        error := BadVersion;
        return;
      }
      var flags := respBuf[1];
      count := GetU16le(respBuf[..responseLen], 6);
      var entriesLen: nat := GetU16le(respBuf[..responseLen], 8);
      if Trunc16(10 + entriesLen) > responseLen {
        error := EntriesBounds;
        return;
      }
      error, entries := ListEntries(responseLen, flags / 2 % 2 == 1, count);
      more := flags % 2 == 1;
    }

    /** The body of the page loop up to the end of the entry loop. */
    method ListOnePage(uri: seq<Byte>, start: U16) returns (ok: bool, entries: seq<Entry>, more: bool, count: U16)
      requires Valid() && ListRequestAccepted(uri) && lastError == NoError
      modifies this`lastError, this`lastStatus, this`lastRawError, this`lastResponseLen
      modifies transport, reqBuf, respBuf, listName
      ensures !ListRequestFits(uri) ==>
        && !ok && entries == [] && transport.sent == old(transport.sent) && transport.replies == old(transport.replies)
        && Regs() == old(Regs()).(lastError := TransportFailed, lastRawError := old(transport.lastDosError) % 0x100)
      ensures ListRequestFits(uri) ==>
        && transport.sent == old(transport.sent) + [Request(DEVICE_FILE, FILE_LIST_DIRECTORY, ListRequest(uri, start))]
        && transport.replies == Remaining(old(transport.replies))
        && var step := OnePage(old(Regs()), NextReply(old(transport.replies)));
           && entries == step.entries && Regs() == step.regs && ok == (step.regs.lastError == NoError)
           && (ok ==> more == step.more && count == step.count && transport.lastDosError == 0)
    {
      hide ParsePage, ListRequest;
      RequestLength(uri, start);
      entries, more, count := [], false, 0;
      var off := WriteListRequest(uri, start);
      var called, status, responseLen := ServiceCall(DEVICE_FILE, FILE_LIST_DIRECTORY, off, IO_BUF_SIZE);
      if !called {
        ok := Fail(TransportFailed);
        return;
      }
      lastStatus, lastResponseLen := status, responseLen;
      if status != STATUS_OK {
        ok := Fail(BadStatus);
        return;
      }
      var error;
      error, entries, count, more := ListPage(responseLen);
      ok := true;
      if error != NoError {
        ok := Fail(error);
      }
    }

    lemma RequestLength(uri: seq<Byte>, start: U16)
      ensures |ListRequest(uri, start)| == |Clip16(uri)| + 8
      ensures ListRequestFits(uri) <==> |Clip16(uri)| + 8 <= IO_BUF_SIZE
    {
    }

    /** The three ways on from one exchange, as the run function sees them. */
    lemma PageLoopStep(whole: ListRun, before: ListRun, uri: seq<Byte>, start: U16, regs: Registers,
                       dosError: U16, replies: seq<Reply>)
      requires ListRequestFits(uri)
      requires Continues(whole, before, ListFrom(uri, start, regs, dosError, replies))
      ensures var step := OnePage(regs, NextReply(replies));
        var upTo := ListRun(before.trace + step.entries,
                            before.requests + [Request(DEVICE_FILE, FILE_LIST_DIRECTORY, ListRequest(uri, start))],
                            step.regs, Remaining(replies));
        if step.regs.lastError != NoError || !step.more then whole == upTo
        else if step.count == 0 then whole == upTo.(regs := step.regs.(lastError := ShortResponse))
        else |replies| > 0 &&
             Continues(whole, upTo, ListFrom(uri, Trunc16(start + step.count), step.regs, 0, Remaining(replies)))
    {
      hide OnePage, ListRequest, ListRequestFits;
      SilenceFails(regs, replies);
    }

    /** A page needs a reply. */
    lemma SilenceFails(regs: Registers, replies: seq<Reply>)
      ensures replies == [] ==> OnePage(regs, NextReply(replies)).regs.lastError != NoError
    {
      hide ParsePage;
    }

    /** The page loop, from cleared registers. */
    method ListPages(uri: seq<Byte>) returns (ok: bool, trace: seq<Entry>)
      requires Valid() && Regs() == CLEARED
      modifies this, transport, reqBuf, respBuf, listName
      ensures var run :=
          if ListRequestAccepted(uri) then ListFrom(uri, 0, CLEARED, old(transport.lastDosError), old(transport.replies))
          else ListRun([], [], CLEARED.(lastError := RequestTooLarge), old(transport.replies));
        && trace == run.trace && Regs() == run.regs && ok == (run.regs.lastError == NoError)
        && transport.sent == old(transport.sent) + run.requests && transport.replies == run.rest
      ensures diskLastError == old(diskLastError)
    {
      hide OnePage, ListRequest, ListRequestFits, ListFrom, ListRequestAccepted, Continues;
      trace := [];
      var start: U16 := 0;
      ghost var whole := ListFrom(uri, 0, CLEARED, transport.lastDosError, transport.replies);
      ghost var before := ListRun([], [], CLEARED, []);
      NothingBefore(whole);
      while true
        invariant lastError == NoError && diskLastError == old(diskLastError)
        invariant before.requests == [] ==> start == 0 && trace == [] && Regs() == CLEARED && transport.replies == old(transport.replies)
        invariant before.requests != [] ==> ListRequestFits(uri) && ListRequestAccepted(uri)
        invariant trace == before.trace && transport.sent == old(transport.sent) + before.requests
        invariant Continues(whole, before, ListFrom(uri, start, Regs(), transport.lastDosError, transport.replies))
        decreases |transport.replies|
      {
        AcceptedMeans(uri);
        if |Clip16(uri)| + 6 > IO_BUF_SIZE {
          ok := Fail(RequestTooLarge);
          return;
        }
        ghost var regs, replies, dosError := Regs(), transport.replies, transport.lastDosError;
        var entries, more, count;
        ok, entries, more, count := ListOnePage(uri, start);
        trace := trace + entries;
        if !ok {
          PageLoopExit(whole, before, uri, start, regs, dosError, replies);
          return;
        }
        PageLoopStep(whole, before, uri, start, regs, dosError, replies);
        before := ListRun(trace, before.requests + [Request(DEVICE_FILE, FILE_LIST_DIRECTORY, ListRequest(uri, start))], Regs(), transport.replies);
        start := Trunc16(start + count);
        if !more {
          return;
        }
        if count == 0 {
          ok := Fail(ShortResponse);
          return;
        }
      }
    }

    /** fnsvc_list_directory; `trace` is the sequence of callbacks made. */
    method ListDirectory(uri: seq<Byte>, hasCallback: bool) returns (ok: bool, trace: seq<Entry>)
      requires Valid()
      modifies this, transport, reqBuf, respBuf, listName
      ensures var run := List(uri, hasCallback, old(Regs()), old(transport.lastDosError), old(transport.replies));
        && trace == run.trace && Regs() == run.regs && ok == (run.regs.lastError == NoError)
        && transport.sent == old(transport.sent) + run.requests && transport.replies == run.rest
      ensures diskLastError == old(diskLastError)
    {
      hide ListFrom, ListRequestAccepted;
      trace := [];
      if !hasCallback {
        ok := Fail(InvalidArg);
        return;
      }
      lastError, lastStatus, lastRawError, lastResponseLen := NoError, 0, 0, 0;
      ok, trace := ListPages(uri);
    }

    lemma NothingBefore(whole: ListRun)
      ensures Continues(whole, ListRun([], [], CLEARED, []), whole)
    {
      assert [] + whole.trace == whole.trace && [] + whole.requests == whole.requests;
    }

    lemma AcceptedMeans(uri: seq<Byte>)
      ensures ListRequestAccepted(uri) <==> |Clip16(uri)| + 6 <= IO_BUF_SIZE
    {
    }

    /** How a listing ends at a page that fails: refused for its length, or with the page's error. */
    lemma PageLoopExit(whole: ListRun, before: ListRun, uri: seq<Byte>, start: U16, regs: Registers,
                       dosError: U16, replies: seq<Reply>)
      requires Continues(whole, before, ListFrom(uri, start, regs, dosError, replies))
      ensures !ListRequestFits(uri) ==>
        whole == ListRun(before.trace, before.requests, regs.(lastError := TransportFailed, lastRawError := dosError % 0x100), replies)
      ensures ListRequestFits(uri) ==>
        var step := OnePage(regs, NextReply(replies));
        step.regs.lastError != NoError ==>
          whole == ListRun(before.trace + step.entries,
                           before.requests + [Request(DEVICE_FILE, FILE_LIST_DIRECTORY, ListRequest(uri, start))],
                           step.regs, Remaining(replies))
    {
      hide OnePage, ListRequest, ListRequestFits;
      assert before.trace + [] == before.trace && before.requests + [] == before.requests;
    }

    // ----- resolve path

    method WriteResolveRequest(base: seq<Byte>, arg: seq<Byte>) returns (off: nat)
      requires Valid() && |base| + |arg| + 5 <= IO_BUF_SIZE
      modifies reqBuf
      ensures off <= IO_BUF_SIZE && reqBuf[..off] == ResolveRequest(base, arg)
    {
      hide PutU16le;
      off := 0;
      PutBytes(reqBuf, off, [FILE_VERSION]);
      off := off + 1;
      off := PutString(reqBuf, off, base);
      PutBytes(reqBuf, off, PutU16le(|arg|));
      off := off + 2;
      if |arg| > 0 {
        PutBytes(reqBuf, off, arg);
        off := off + |arg|;
      }
    }

    /** Copy as much of s as fits and terminate it. */
    method StoreString(dst: array<Byte>, capacity: nat, s: seq<Byte>)
      requires 0 < capacity <= dst.Length
      modifies dst
      ensures dst[..|Fitting(s, capacity)| + 1] == Fitting(s, capacity) + [0]
      ensures dst[|Fitting(s, capacity)| + 1..] == old(dst[|Fitting(s, capacity)| + 1..])
    {
      var t := Fitting(s, capacity);
      PutBytes(dst, 0, t + [0]);
    }

    /** fnsvc_resolve_path. A null pointer is passed as null; a null arg as the empty string. */
    method ResolvePath(base: seq<Byte>, baseGiven: bool, arg: seq<Byte>,
                       resolved: array?<Byte>, resolvedCap: U16, display: array?<Byte>, displayCap: U16)
      returns (ok: bool, flags: Byte)
      requires Valid()
      requires |base| + |arg| + 5 < TWO16
      requires resolved != null ==> resolvedCap <= resolved.Length && resolved !in {reqBuf, respBuf}
      requires display != null ==> displayCap <= display.Length && display !in {reqBuf, respBuf} && display != resolved
      requires var r := NextReply(transport.replies); r.Replied? ==> LengthsDoNotWrap(Delivered(r.payload, IO_BUF_SIZE))
      modifies this, transport, reqBuf, respBuf, resolved, display
      ensures var run := Resolve(base, arg, baseGiven && resolved != null && resolvedCap > 0,
                                 old(Regs()), old(transport.replies));
        && Regs() == run.regs && ok == (run.regs.lastError == NoError)
        && transport.sent == old(transport.sent) + run.requests && transport.replies == run.rest
        && (run.output.Resolved? ==> flags == run.output.flags)
        && (!run.output.Nothing? ==>
              resolved != null && resolvedCap > 0 &&
              var t := Fitting(run.output.uri, resolvedCap);
              resolved[..|t| + 1] == t + [0] && resolved[|t| + 1..] == old(resolved[|t| + 1..]))
        && (run.output.Resolved? && display != null && displayCap > 0 ==>
              var t := Fitting(run.output.path, displayCap);
              display[..|t| + 1] == t + [0] && display[|t| + 1..] == old(display[|t| + 1..]))
        && (run.output.Nothing? && resolved != null ==> resolved[..] == old(resolved[..]))
        && (!run.output.Resolved? && display != null ==> display[..] == old(display[..]))
      ensures baseGiven && resolved != null && resolvedCap > 0 && |base| + |arg| + 5 <= IO_BUF_SIZE ==>
        && |transport.sent| == |old(transport.sent)| + 1
        && SendsResolve(transport.sent[|old(transport.sent)|], base, arg)
      ensures diskLastError == old(diskLastError)
    {
      hide ParseResolve, LengthsDoNotWrap, ResolveRequest, Fitting, SendsResolve;
      ResolveSends(base, arg, baseGiven && resolved != null && resolvedCap > 0, Regs(), transport.replies);
      flags := 0;
      if !baseGiven || resolved == null || resolvedCap == 0 {
        ok := Fail(InvalidArg);
        return;
      }
      if Trunc16(|base| + |arg| + 5) > IO_BUF_SIZE {
        ok := Fail(RequestTooLarge);
        return;
      }
      lastError, lastStatus, lastRawError, lastResponseLen := NoError, 0, 0, 0;
      var off := WriteResolveRequest(base, arg);
      var called, status, responseLen := ServiceCall(DEVICE_FILE, FILE_RESOLVE_PATH, off, IO_BUF_SIZE);
      if !called {
        ok := Fail(TransportFailed);
        return;
      }
      lastStatus, lastResponseLen := status, responseLen;
      if status != STATUS_OK {
        ok := Fail(BadStatus);
        return;
      }
      ok, flags := StoreResolved(responseLen, resolved, resolvedCap, display, displayCap);
    }

    /** The decoding half of fnsvc_resolve_path, on the reply in respBuf. */
    method StoreResolved(responseLen: U16, resolved: array<Byte>, resolvedCap: U16, display: array?<Byte>, displayCap: U16)
      returns (ok: bool, flags: Byte)
      requires Valid() && responseLen <= IO_BUF_SIZE && lastError == NoError
      requires 0 < resolvedCap <= resolved.Length && resolved !in {reqBuf, respBuf}
      requires display != null ==> displayCap <= display.Length && display !in {reqBuf, respBuf} && display != resolved
      requires LengthsDoNotWrap(respBuf[..responseLen])
      modifies this`lastError, resolved, display
      ensures var (output, error) := ParseResolve(old(respBuf[..responseLen]));
        && lastError == error && ok == (error == NoError)
        && (output.Resolved? ==> flags == output.flags)
        && (!output.Nothing? ==>
              var t := Fitting(output.uri, resolvedCap);
              resolved[..|t| + 1] == t + [0] && resolved[|t| + 1..] == old(resolved[|t| + 1..]))
        && (output.Resolved? && display != null && displayCap > 0 ==>
              var t := Fitting(output.path, displayCap);
              display[..|t| + 1] == t + [0] && display[|t| + 1..] == old(display[|t| + 1..]))
        && (output.Nothing? ==> resolved[..] == old(resolved[..]))
        && (!output.Resolved? && display != null ==> display[..] == old(display[..]))
    {
      hide GetU16le, Fitting;
      var p := respBuf[..responseLen];
      flags := 0;
      if responseLen < 8 || p[0] != FILE_VERSION {
        ok := Fail(BadVersion);
        return;
      }
      var off: U16 := 4;
      var len := GetU16le(p, off);
      off := Trunc16(off + 2);
      if Trunc16(off + len + 2) > responseLen {
        ok := Fail(ShortResponse);
        return;
      }
      StoreString(resolved, resolvedCap, p[off..off + len]);
      // The next string is found from the declared length, however much of this one was kept.
      off := Trunc16(off + GetU16le(p, 4));
      len := GetU16le(p, off);
      off := Trunc16(off + 2);
      if Trunc16(off + len) > responseLen {
        ok := Fail(ShortResponse);
        return;
      }
      if display != null && displayCap > 0 {
        StoreString(display, displayCap, p[off..off + len]);
      }
      flags := p[1];
      ok := true;
    }

    // ----- disk commands

    method DiskResult(called: bool, status: Byte, responseLen: U16) returns (ok: bool)
      requires Valid()
      modifies this`diskLastError
      ensures ok == (called && status == STATUS_OK)
      ensures diskLastError == if !called then codes.unreported
                               else if status == STATUS_OK then codes.none
                               else if responseLen == 2 && respBuf[0] == DISK_VERSION then respBuf[1]
                               else codes.unreported
    {
      if !called {
        diskLastError := codes.unreported;
        return false;
      }
      if status == STATUS_OK {
        diskLastError := codes.none;
        return true;
      }
      diskLastError := if responseLen == 2 && respBuf[0] == DISK_VERSION then respBuf[1] else codes.unreported;
      return false;
    }

    /** fnsvc_disk_mount. A call with bad arguments sends nothing and changes no register. */
    method DiskMount(slot: Byte, uri: seq<Byte>, readonly: bool, hint: U16) returns (ok: bool)
      requires Valid()
      modifies this, transport, reqBuf, respBuf
      ensures var reply := NextReply(old(transport.replies));
        if slot >= 8 || |Clip16(uri)| == 0 || |Clip16(uri)| + 8 > IO_BUF_SIZE
        then !ok && Regs() == old(Regs()) && diskLastError == old(diskLastError)
             && transport.sent == old(transport.sent) && transport.replies == old(transport.replies)
        else ok == Succeeded(reply) && diskLastError == DiskCode(codes, reply, 32)
             && Regs() == RawErrorAfter(old(Regs()), reply)
             && transport.sent == old(transport.sent) + [Request(DEVICE_DISK, DISK_MOUNT, MountRequest(slot, uri, readonly, hint))]
             && transport.replies == Remaining(old(transport.replies))
    {
      var u := Clip16(uri);
      if slot >= 8 || |u| == 0 || |u| + 8 > IO_BUF_SIZE {
        return false;
      }
      var off := 0;
      PutBytes(reqBuf, off, [DISK_VERSION, slot + 1, if readonly then 1 else 0, 0]);
      off := off + 4;
      PutBytes(reqBuf, off, PutU16le(hint));
      off := off + 2;
      off := PutString(reqBuf, off, u);
      assert reqBuf[..off] == MountRequest(slot, uri, readonly, hint);
      var called, status, responseLen := ServiceCall(DEVICE_DISK, DISK_MOUNT, off, 32);
      ok := DiskResult(called, status, if called then responseLen else 0);
    }

    /** fnsvc_disk_unmount. */
    method DiskUnmount(slot: Byte) returns (ok: bool)
      requires Valid()
      modifies this, transport, reqBuf, respBuf
      ensures var reply := NextReply(old(transport.replies));
        if slot >= 8
        then !ok && Regs() == old(Regs()) && diskLastError == old(diskLastError)
             && transport.sent == old(transport.sent) && transport.replies == old(transport.replies)
        else ok == Succeeded(reply) && diskLastError == DiskCode(codes, reply, 16)
             && Regs() == RawErrorAfter(old(Regs()), reply)
             && transport.sent == old(transport.sent) + [Request(DEVICE_DISK, DISK_UNMOUNT, SlotRequest(slot))]
             && transport.replies == Remaining(old(transport.replies))
    {
      if slot >= 8 {
        return false;
      }
      PutBytes(reqBuf, 0, [DISK_VERSION, slot + 1]);
      assert reqBuf[..2] == SlotRequest(slot);
      var called, status, responseLen := ServiceCall(DEVICE_DISK, DISK_UNMOUNT, 2, 16);
      ok := DiskResult(called, status, if called then responseLen else 0);
    }

    /** fnsvc_disk_restore_boot. */
    method DiskRestoreBoot(slot: Byte) returns (ok: bool)
      requires Valid()
      modifies this, transport, reqBuf, respBuf
      ensures var reply := NextReply(old(transport.replies));
        if slot >= 8
        then !ok && Regs() == old(Regs()) && diskLastError == old(diskLastError)
             && transport.sent == old(transport.sent) && transport.replies == old(transport.replies)
        else Regs() == RestoreBootRegisters(reply) && ok == (lastError == NoError)
             && diskLastError == DiskCode(codes, reply, 16)
             && transport.sent == old(transport.sent) + [Request(DEVICE_DISK, DISK_RESTORE_BOOT, SlotRequest(slot))]
             && transport.replies == Remaining(old(transport.replies))
    {
      if slot >= 8 {
        return false;
      }
      lastError, lastStatus, lastRawError, lastResponseLen := NoError, 0, 0, 0;
      PutBytes(reqBuf, 0, [DISK_VERSION, slot + 1]);
      assert reqBuf[..2] == SlotRequest(slot);
      var called, status, responseLen := ServiceCall(DEVICE_DISK, DISK_RESTORE_BOOT, 2, 16);
      if !called {
        var _ := DiskResult(false, 0, 0);
        ok := Fail(TransportFailed);
        return;
      }
      lastStatus, lastResponseLen := status, responseLen;
      var _ := DiskResult(true, status, responseLen);
      if status != STATUS_OK {
        ok := Fail(BadStatus);
        return;
      }
      if responseLen < 12 {
        ok := Fail(ShortResponse);
        return;
      }
      if respBuf[0] != DISK_VERSION {
        ok := Fail(BadVersion);
        return;
      }
      ok := true;
    }
  }
}
