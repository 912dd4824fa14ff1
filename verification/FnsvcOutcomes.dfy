/** What the diagnostic registers say after a call, failure by failure. */
module FnsvcOutcomes {
  import opened MachineInts
  import opened FnsvcWire
  import opened FnsvcRequests
  import opened FnsvcListing

  /** The entries a page declares do not all lie inside it. */
  ghost predicate RunsOut(p: seq<Byte>)
    requires |p| >= 10
  {
    |ParsePage(p).entries| < PageCount(p)
  }

  /** Each error of a page has one cause, and the earlier cause wins. */
  lemma PageErrors(p: seq<Byte>)
    requires |p| <= IO_BUF_SIZE
    ensures var error := ParsePage(p).error;
      && (error == ShortResponse <==> |p| < 10)
      && (error == BadVersion <==> |p| >= 10 && p[0] != 1)
      && (error == EntriesBounds <==> |p| >= 10 && p[0] == 1 && |p| < 10 + GetU16le(p, 8) < 65536)
      && (error == EntryBounds <==> |p| >= 10 && p[0] == 1 && !(|p| < 10 + GetU16le(p, 8) < 65536) && RunsOut(p))
      && error in {NoError, ShortResponse, BadVersion, EntriesBounds, EntryBounds}
    ensures ParsePage(p).error in {ShortResponse, BadVersion, EntriesBounds} ==> ParsePage(p).entries == []
  {
    if |p| >= 10 {
      EntriesLenCheck(p);
      var offs := EntriesTile(p, PageCompact(p), 10, PageCount(p));
    }
    hide ParseEntries;
  }

  /** The registers after an exchange that was answered: its status and length, and no raw error. */
  ghost predicate Answered(regs: Registers, reply: Reply, capacity: nat) {
    && reply.Replied? && regs.lastStatus == reply.status && regs.lastRawError == 0
    && regs.lastResponseLen == (if |reply.payload| <= capacity then |reply.payload| else capacity) < TWO16
  }

  // ----- the requests of a listing

  /** Where the i-th request of a listing starts: each page moves on by the count it declared. */
  ghost predicate AsksFrom(r: Request, uri: seq<Byte>, start: U16) {
    && r.device == DEVICE_FILE && r.command == FILE_LIST_DIRECTORY
    && IsListRequest(r.body) && DecodeList(r.body) == ListFields(uri, start, LIST_MAX_PAYLOAD, LIST_SORT_BY_NAME)
  }

  function Declared(reply: Reply): U16 {
    if reply.NoReply? then 0
    else var p := Delivered(reply.payload, IO_BUF_SIZE); if |p| >= 10 then PageCount(p) else 0
  }

  /** Where the request after n pages starts. */
  function StartAfter(start: U16, replies: seq<Reply>, n: nat): U16
    requires n <= |replies|
    decreases n
  {
    if n == 0 then start else StartAfter(Trunc16(start + Declared(replies[0])), replies[1..], n - 1)
  }

  lemma ContinuedCount(regs: Registers, replies: seq<Reply>)
    requires var step := OnePage(regs, NextReply(replies)); step.regs.lastError == NoError && step.more
    requires regs.lastError == NoError
    ensures replies != [] && OnePage(regs, NextReply(replies)).count == Declared(replies[0])
  {
    hide ParseEntries;
  }

  lemma FirstRequest(uri: seq<Byte>, start: U16, regs: Registers, dosError: U16, replies: seq<Reply>)
    ensures var sent := ListFrom(uri, start, regs, dosError, replies).requests;
      sent != [] ==> sent[0] == Request(DEVICE_FILE, FILE_LIST_DIRECTORY, ListRequest(uri, start))
  {
    hide OnePage, ListRequest, ListRequestFits;
  }

  lemma LaterRequests(uri: seq<Byte>, start: U16, regs: Registers, dosError: U16, replies: seq<Reply>)
    requires |ListFrom(uri, start, regs, dosError, replies).requests| > 1
    ensures replies != [] && OnePage(regs, NextReply(replies)).regs.lastError == NoError && OnePage(regs, NextReply(replies)).more
    ensures var step := OnePage(regs, NextReply(replies));
      ListFrom(uri, start, regs, dosError, replies).requests[1..]
      == ListFrom(uri, Trunc16(start + step.count), step.regs, 0, replies[1..]).requests
  {
    hide OnePage, ListRequest, ListRequestFits;
  }

  /** Every request of a listing, successful or not, asks the file service for the URI from where the
      pages before it ended. */
  lemma {:induction false} ListingAsksInOrder(uri: seq<Byte>, start: U16, regs: Registers, dosError: U16, replies: seq<Reply>, i: nat)
    requires |uri| < TWO16 && regs.lastError == NoError
    requires i < |ListFrom(uri, start, regs, dosError, replies).requests|
    ensures i <= |replies| && AsksFrom(ListFrom(uri, start, regs, dosError, replies).requests[i], uri, StartAfter(start, replies, i))
    decreases |replies|
  {
    hide ListFrom, ListRequest, OnePage, Declared, AsksFrom;
    if i == 0 {
      FirstRequest(uri, start, regs, dosError, replies);
      StartAsked(uri, start);
    } else {
      LaterRequests(uri, start, regs, dosError, replies);
      ContinuedCount(regs, replies);
      var step := OnePage(regs, replies[0]);
      ListingAsksInOrder(uri, Trunc16(start + step.count), step.regs, 0, replies[1..], i - 1);
    }
  }

  lemma StartAsked(uri: seq<Byte>, start: U16)
    requires |uri| < TWO16
    ensures AsksFrom(Request(DEVICE_FILE, FILE_LIST_DIRECTORY, ListRequest(uri, start)), uri, start)
  {
    hide ListRequest, DecodeList, IsListRequest;
    ListRequestDecodes(uri, start);
  }

  // ----- the registers

  /** What a listing's last exchange leaves in last_error. */
  function LastPageError(reply: Reply): SvcError {
    match reply
    case NoReply(_) => TransportFailed
    case Replied(status, payload) =>
      var p := Delivered(payload, IO_BUF_SIZE);
      if status != 0 then BadStatus
      else if ParsePage(p).error != NoError then ParsePage(p).error
      else if |p| >= 10 && p[1] % 2 == 1 && GetU16le(p, 6) == 0 then ShortResponse   // MORE without entries
      else NoError
  }

  lemma PageLeaves(regs: Registers, reply: Reply)
    requires regs.lastError == NoError
    ensures var step := OnePage(regs, reply);
      && (reply.NoReply? ==>
            step.regs == regs.(lastError := TransportFailed, lastRawError := reply.code % 0x100) && step.entries == [])
      && (reply.Replied? ==> Answered(step.regs, reply, 512))
      && (reply.Replied? && reply.status != 0 ==> step.regs.lastError == BadStatus && step.entries == [])
      && (reply.Replied? && reply.status == 0 ==>
            step.regs.lastError == ParsePage(Delivered(reply.payload, IO_BUF_SIZE)).error)
      && (step.regs.lastError == NoError && step.more && step.count == 0 ==> LastPageError(reply) == ShortResponse)
      && (step.regs.lastError == NoError && !(step.more && step.count == 0) ==> LastPageError(reply) == NoError)
      && (step.regs.lastError != NoError ==> LastPageError(reply) == step.regs.lastError && !step.more)
  {
    var p := if reply.Replied? then Delivered(reply.payload, IO_BUF_SIZE) else [];
    PageErrors(p);
    hide ParseEntries, EntriesLenOk, RunsOut;
  }

  /** The ways a listing goes on from an exchange. */
  lemma AfterExchange(uri: seq<Byte>, start: U16, regs: Registers, dosError: U16, replies: seq<Reply>)
    requires ListRequestFits(uri)
    ensures var run, step := ListFrom(uri, start, regs, dosError, replies), OnePage(regs, NextReply(replies));
      if step.regs.lastError != NoError || !step.more || replies == [] then |run.requests| == 1 && run.regs == step.regs
      else if step.count == 0 then |run.requests| == 1 && run.regs == step.regs.(lastError := ShortResponse)
      else
        var later := ListFrom(uri, Trunc16(start + step.count), step.regs, 0, replies[1..]);
        |run.requests| == 1 + |later.requests| && run.regs == later.regs
  {
    hide OnePage, ListRequest, ListRequestFits;
  }

  /** The registers a last reply leaves. */
  ghost predicate LeavesLast(regs: Registers, last: Reply) {
    && regs.lastError == LastPageError(last)
    && (last.Replied? ==> Answered(regs, last, 512))
    && (last.NoReply? ==> regs.lastRawError == last.code % 0x100)
  }

  /** What the n-th exchange of a listing is answered by. */
  function LastReply(replies: seq<Reply>, n: nat): Reply
    requires 0 < n <= |replies| + 1
  {
    NextReply(replies[n - 1..])
  }

  lemma LastReplyShift(replies: seq<Reply>, n: nat)
    requires replies != [] && 0 < n <= |replies|
    ensures LastReply(replies[1..], n) == LastReply(replies, n + 1)
  {
    assert replies[1..][n - 1..] == replies[n..];
  }

  lemma FirstReply(replies: seq<Reply>)
    ensures LastReply(replies, 1) == NextReply(replies)
  {
    assert replies[0..] == replies;
  }

  /** The first exchange is the last: the registers it leaves, with the verdict on MORE without entries. */
  lemma EndsWithFirst(regs: Registers, reply: Reply)
    requires regs.lastError == NoError
    ensures var step := OnePage(regs, reply);
      && (step.regs.lastError != NoError || !step.more ==> LeavesLast(step.regs, reply))
      && (step.regs.lastError == NoError && step.more && step.count == 0 ==>
            LeavesLast(step.regs.(lastError := ShortResponse), reply))
  {
    hide OnePage, LastPageError;
    PageLeaves(regs, reply);
  }

  /** Whatever a listing meets, its registers are those of the last exchange: the error by its cause, and
      the status and length of the last reply. */
  lemma {:induction false} ListingEndsWith(uri: seq<Byte>, start: U16, regs: Registers, dosError: U16, replies: seq<Reply>)
    requires ListRequestFits(uri) && regs.lastError == NoError
    ensures var run := ListFrom(uri, start, regs, dosError, replies);
      var n := |run.requests|;
      0 < n <= |replies| + 1 && LeavesLast(run.regs, LastReply(replies, n))
    decreases |replies|
  {
    hide ListRequestFits, OnePage, ListFrom, LeavesLast, NextReply, LastReply;
    AfterExchange(uri, start, regs, dosError, replies);
    EndsWithFirst(regs, NextReply(replies));
    FirstReply(replies);
    var step := OnePage(regs, NextReply(replies));
    if replies == [] {
      SilentPage(regs);
    } else if step.regs.lastError == NoError && step.more && step.count > 0 {
      ListingEndsWith(uri, Trunc16(start + step.count), step.regs, 0, replies[1..]);
      LastReplyShift(replies, |ListFrom(uri, Trunc16(start + step.count), step.regs, 0, replies[1..]).requests|);
    }
  }

  lemma SilentPage(regs: Registers)
    ensures OnePage(regs, NextReply([])).regs.lastError == TransportFailed
  {
  }

  /** A listing that is refused before its first exchange. */
  lemma ListingRefused(uri: seq<Byte>, hasCallback: bool, regs: Registers, dosError: U16, replies: seq<Reply>)
    requires !hasCallback || |Clip16(uri)| > 506
    ensures var run := List(uri, hasCallback, regs, dosError, replies);
      && run.trace == [] && run.requests == [] && run.rest == replies
      && run.regs == (if !hasCallback then regs.(lastError := InvalidArg) else Registers(RequestTooLarge, 0, 0, 0))
  {
  }

  /** A resolve call, failure by failure. One that is refused for its arguments or its length leaves the
      other registers as they were. */
  lemma ResolveErrors(base: seq<Byte>, arg: seq<Byte>, valid: bool, regs: Registers, replies: seq<Reply>)
    ensures var run := Resolve(base, arg, valid, regs, replies);
      var reply := NextReply(replies);
      if !valid then run.regs == regs.(lastError := InvalidArg)
      else if |base| + |arg| > 507 then run.regs == regs.(lastError := RequestTooLarge)
      else if reply.NoReply? then run.regs == Registers(TransportFailed, 0, reply.code % 0x100, 0)
      else
        var p := Delivered(reply.payload, IO_BUF_SIZE);
        && Answered(run.regs, reply, 512)
        && (run.regs.lastError == BadStatus <==> reply.status != 0)
        && (run.regs.lastError == BadVersion <==> reply.status == 0 && (|p| < 8 || p[0] != 1))
        && (run.regs.lastError == ShortResponse <==>
              reply.status == 0 && |p| >= 8 && p[0] == 1 && !(HasString(p, 4) && HasString(p, 6 + GetU16le(p, 4))))
        && run.regs.lastError in {NoError, BadStatus, BadVersion, ShortResponse}
        && (run.output.UriOnly? <==>
              reply.status == 0 && |p| >= 8 && p[0] == 1 && HasString(p, 4) && 8 + GetU16le(p, 4) <= |p|
              && !HasString(p, 6 + GetU16le(p, 4)))
  {
    var reply := NextReply(replies);
    if reply.Replied? {
      ResolveSucceedsIff(Delivered(reply.payload, IO_BUF_SIZE));
    }
  }

  /** Restore-boot, failure by failure. */
  lemma RestoreBootErrors(reply: Reply)
    ensures var regs := RestoreBootRegisters(reply);
      if reply.NoReply? then regs == Registers(TransportFailed, 0, reply.code % 0x100, 0)
      else
        && Answered(regs, reply, 16)
        && (regs.lastError == BadStatus <==> reply.status != 0)
        && (regs.lastError == ShortResponse <==> reply.status == 0 && |reply.payload| < 12)
        && (regs.lastError == BadVersion <==> reply.status == 0 && |reply.payload| >= 12 && reply.payload[0] != 1)
        && regs.lastError in {NoError, BadStatus, ShortResponse, BadVersion}
  {
  }

  /** Mount and unmount touch the raw error only: 0 after an answer, else the low byte of the library's code. */
  lemma MountLeaves(regs: Registers, reply: Reply)
    ensures var after := RawErrorAfter(regs, reply);
      && after.lastError == regs.lastError && after.lastStatus == regs.lastStatus
      && after.lastResponseLen == regs.lastResponseLen
      && (reply.Replied? ==> after.lastRawError == 0)
      && (reply.NoReply? ==> after.lastRawError == reply.code % 0x100)
  {
  }

  /** The disk code is NONE after an OK status, the second byte of a two-byte failure reply of version 1,
      and UNREPORTED after any other failure. */
  lemma DiskCodeMeans(codes: DiskCodes, reply: Reply, capacity: nat)
    requires capacity >= 3
    ensures var code := DiskCode(codes, reply, capacity);
      && (reply.Replied? && reply.status == 0 ==> code == codes.none)
      && (reply.Replied? && reply.status != 0 && |reply.payload| == 2 && reply.payload[0] == 1 ==> code == reply.payload[1])
      && (reply.NoReply? || (reply.status != 0 && !(|reply.payload| == 2 && reply.payload[0] == 1)) ==> code == codes.unreported)
  {
  }
}
