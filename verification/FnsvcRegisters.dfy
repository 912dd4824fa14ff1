/** The "last error" registers of the client over arbitrary sequences of calls. */
module FnsvcRegisters {
  import opened MachineInts
  import opened FnsvcWire
  import opened FnsvcClient

  datatype Call =
    | CallList(uri: seq<Byte>, hasCallback: bool, dosError: U16)
    | CallResolve(base: seq<Byte>, arg: seq<Byte>, valid: bool)
    | CallMount(slot: Byte, uri: seq<Byte>)
    | CallUnmount(slot: Byte)
    | CallRestoreBoot(slot: Byte)

  /** The registers, the disk register and the replies still to come. */
  datatype Svc = Svc(regs: Registers, diskError: Byte, replies: seq<Reply>)

  predicate IsDisk(c: Call) { c.CallMount? || c.CallUnmount? || c.CallRestoreBoot? }

  /** Does a disk call pass its argument checks? */
  predicate Accepted(c: Call)
    requires IsDisk(c)
  {
    match c
    case CallMount(slot, uri) => slot < 8 && |Clip16(uri)| > 0 && |Clip16(uri)| + 8 <= IO_BUF_SIZE
    case CallUnmount(slot) => slot < 8
    case CallRestoreBoot(slot) => slot < 8
  }

  function Capacity(c: Call): nat
    requires IsDisk(c)
  {
    if c.CallMount? then 32 else 16
  }

  /** The state after one call, as the client's methods leave it, and the value returned. */
  function Effect(codes: DiskCodes, c: Call, s: Svc): (Svc, bool) {
    match c
    case CallList(uri, hasCallback, dosError) =>
      var run := List(uri, hasCallback, s.regs, dosError, s.replies);
      (Svc(run.regs, s.diskError, run.rest), run.regs.lastError == NoError)
    case CallResolve(base, arg, valid) =>
      var run := Resolve(base, arg, valid, s.regs, s.replies);
      (Svc(run.regs, s.diskError, run.rest), run.regs.lastError == NoError)
    case _ =>
      if !Accepted(c) then (s, false)
      else
        var reply := NextReply(s.replies);
        var regs := if c.CallRestoreBoot? then RestoreBootRegisters(reply) else RawErrorAfter(s.regs, reply);
        (Svc(regs, DiskCode(codes, reply, Capacity(c)), Remaining(s.replies)),
         if c.CallRestoreBoot? then regs.lastError == NoError else Succeeded(reply))
  }

  /** One call on a client: the class leaves its registers and the script of replies as Effect says. */
  method Perform(client: Client, c: Call) returns (ok: bool)
    requires client.Valid()
    requires c.CallList? ==> c.dosError == client.transport.lastDosError
    requires c.CallResolve? ==> |c.base| + |c.arg| + 5 < TWO16
    requires var r := NextReply(client.transport.replies);
      c.CallResolve? && r.Replied? ==> LengthsDoNotWrap(Delivered(r.payload, IO_BUF_SIZE))
    modifies client, client.transport, client.reqBuf, client.respBuf, client.listName
    ensures (Svc(client.Regs(), client.diskLastError, client.transport.replies), ok)
         == Effect(client.codes, c, old(Svc(client.Regs(), client.diskLastError, client.transport.replies)))
  {
    hide List, Resolve, DiskCode, LengthsDoNotWrap, MountRequest, SlotRequest;
    match c
    case CallList(uri, hasCallback, _) =>
      var trace;
      ok, trace := client.ListDirectory(uri, hasCallback);
    case CallResolve(base, arg, valid) =>
      var resolved := new Byte[1](_ => 0);
      var flags;
      ok, flags := client.ResolvePath(base, valid, arg, resolved, 1, null, 0);
    case CallMount(slot, uri) =>
      ok := client.DiskMount(slot, uri, false, 0);
    case CallUnmount(slot) =>
      ok := client.DiskUnmount(slot);
    case CallRestoreBoot(slot) =>
      ok := client.DiskRestoreBoot(slot);
  }

  function RunCalls(codes: DiskCodes, calls: seq<Call>, s: Svc): Svc {
    if calls == [] then s else RunCalls(codes, calls[1..], Effect(codes, calls[0], s).0)
  }

  predicate WritesLastError(c: Call) { c.CallList? || c.CallResolve? || (c.CallRestoreBoot? && Accepted(c)) }
  predicate WritesDiskError(c: Call) { IsDisk(c) && Accepted(c) }

  lemma {:induction false} RunConcat(codes: DiskCodes, a: seq<Call>, b: seq<Call>, s: Svc)
    ensures RunCalls(codes, a + b, s) == RunCalls(codes, b, RunCalls(codes, a, s))
    decreases |a|
  {
    hide Effect;
    if a == [] {
      assert a + b == b;
    } else {
      RunConcat(codes, a[1..], b, Effect(codes, a[0], s).0);
      assert (a + b)[1..] == a[1..] + b;
    }
  }

  lemma {:induction false} LastErrorUntouched(codes: DiskCodes, calls: seq<Call>, s: Svc)
    requires forall c | c in calls :: !WritesLastError(c)
    ensures RunCalls(codes, calls, s).regs.lastError == s.regs.lastError
    decreases |calls|
  {
    if calls != [] {
      assert calls[0] in calls;
      LastErrorUntouched(codes, calls[1..], Effect(codes, calls[0], s).0);
    }
  }

  lemma {:induction false} DiskErrorUntouched(codes: DiskCodes, calls: seq<Call>, s: Svc)
    requires forall c | c in calls :: !WritesDiskError(c)
    ensures RunCalls(codes, calls, s).diskError == s.diskError
    decreases |calls|
  {
    hide List, Resolve;
    if calls != [] {
      assert calls[0] in calls;
      DiskErrorUntouched(codes, calls[1..], Effect(codes, calls[0], s).0);
    }
  }

  /** In any history, last_error tells whether the latest list, resolve or accepted restore-boot call
      returned 1, however many mounts and unmounts followed it. */
  lemma LastErrorIsLatest(codes: DiskCodes, before: seq<Call>, c: Call, after: seq<Call>, s: Svc)
    requires WritesLastError(c) && forall d | d in after :: !WritesLastError(d)
    ensures var (next, ok) := Effect(codes, c, RunCalls(codes, before, s));
      var end := RunCalls(codes, before + [c] + after, s);
      end.regs.lastError == next.regs.lastError && (ok <==> end.regs.lastError == NoError)
  {
    var t := RunCalls(codes, before, s);
    RunConcat(codes, before + [c], after, s);
    RunConcat(codes, before, [c], s);
    assert RunCalls(codes, [c], t) == Effect(codes, c, t).0 by { assert [c][1..] == []; }
    LastErrorUntouched(codes, after, Effect(codes, c, t).0);
    hide RunCalls;
  }

  /** In any history, disk_last_error is the code of the reply to the latest disk call that passed
      its argument checks. */
  lemma DiskErrorIsLatestAccepted(codes: DiskCodes, before: seq<Call>, c: Call, after: seq<Call>, s: Svc)
    requires WritesDiskError(c) && forall d | d in after :: !WritesDiskError(d)
    ensures RunCalls(codes, before + [c] + after, s).diskError
         == DiskCode(codes, NextReply(RunCalls(codes, before, s).replies), Capacity(c))
  {
    hide List, Resolve, DiskCode;
    var t := RunCalls(codes, before, s);
    RunConcat(codes, before + [c], after, s);
    RunConcat(codes, before, [c], s);
    assert RunCalls(codes, [c], t) == Effect(codes, c, t).0 by { assert [c][1..] == []; }
    DiskErrorUntouched(codes, after, Effect(codes, c, t).0);
  }

  /** Did the service fail the call and say why? */
  predicate Explained(c: Call, reply: Reply)
    requires IsDisk(c)
  {
    reply.Replied? && reply.status != STATUS_OK
    && var p := Delivered(reply.payload, Capacity(c)); |p| == 2 && p[0] == DISK_VERSION
  }

  /** What the header says the register holds after the most recent disk call: NONE after success, the
      service's reason after a failure it explained, otherwise UNREPORTED. */
  function Documented(codes: DiskCodes, c: Call, s: Svc): Byte
    requires IsDisk(c)
  {
    var reply := NextReply(s.replies);
    if Effect(codes, c, s).1 then codes.none
    else if Accepted(c) && Explained(c, reply) then Delivered(reply.payload, Capacity(c))[1]
    else codes.unreported
  }

  /** An OK reply that restore-boot does not take for success. */
  predicate BadBootReply(reply: Reply) {
    Succeeded(reply) && (|reply.payload| < 12 || reply.payload[0] != DISK_VERSION)
  }

  /** The code keeps that promise, for an accepted call, exactly when it is not a restore-boot with a
      short or wrongly versioned OK reply, and for a rejected call exactly when the register already
      read UNREPORTED. */
  lemma DocumentedDiskError(codes: DiskCodes, c: Call, s: Svc)
    requires IsDisk(c) && codes.none != codes.unreported
    ensures Effect(codes, c, s).0.diskError == Documented(codes, c, s)
       <==> if Accepted(c) then !(c.CallRestoreBoot? && BadBootReply(NextReply(s.replies)))
            else s.diskError == codes.unreported
  {
  }

  /** For instance, an empty OK reply to a restore-boot makes it return 0 and leaves NONE. */
  lemma ShortBootReplyReadsNone(codes: DiskCodes, regs: Registers, diskError: Byte)
    requires codes.none != codes.unreported
    ensures var s := Svc(regs, diskError, [Replied(STATUS_OK, [])]);
      var (t, ok) := Effect(codes, CallRestoreBoot(0), s);
      !ok && t.regs.lastError == ShortResponse && t.diskError == codes.none
      && Documented(codes, CallRestoreBoot(0), s) == codes.unreported
  {
  }

  /** For instance, a mount with an empty URI after a successful unmount returns 0 and leaves NONE. */
  lemma RejectedMountKeepsNone(codes: DiskCodes, regs: Registers)
    requires codes.none != codes.unreported
    ensures var s := Svc(regs, codes.unreported, [Replied(STATUS_OK, [])]);
      var t := RunCalls(codes, [CallUnmount(0), CallMount(0, [])], s);
      t.diskError == codes.none && !Effect(codes, CallMount(0, []), t).1
      && Documented(codes, CallMount(0, []), t) != t.diskError
  {
    var s := Svc(regs, codes.unreported, [Replied(STATUS_OK, [])]);
    var calls := [CallUnmount(0), CallMount(0, [])];
    assert calls[1..] == [CallMount(0, [])] && calls[1..][1..] == [];
    assert RunCalls(codes, calls[1..], Effect(codes, calls[0], s).0) == Effect(codes, calls[1], Effect(codes, calls[0], s).0).0;
  }

  /** NONE after a mount or unmount means success, unless the service reported a failure under that code. */
  lemma NoneMeansSuccess(codes: DiskCodes, c: Call, s: Svc)
    requires codes.none != codes.unreported && (c.CallMount? || c.CallUnmount?) && Accepted(c)
    ensures var (t, ok) := Effect(codes, c, s);
      var reply := NextReply(s.replies);
      t.diskError == codes.none <==> ok || (reply.Replied? && Delivered(reply.payload, Capacity(c)) == [DISK_VERSION, codes.none])
  {
  }

  /** After restore-boot, success is stronger than NONE: the reply must also be long enough and of the right version. */
  lemma RestoreBootSucceedsIff(codes: DiskCodes, slot: Byte, s: Svc)
    requires slot < 8
    ensures var (t, ok) := Effect(codes, CallRestoreBoot(slot), s);
      var reply := NextReply(s.replies);
      && (ok <==> Succeeded(reply) && |reply.payload| >= 12 && reply.payload[0] == DISK_VERSION)
      && (ok ==> t.diskError == codes.none)
  {
  }
}
