/** The MS-DOS control backend (src/platform/msdos/fnctl.c): the state call and the drive scan. */
module MsdosControl {
  import opened MachineInts
  import opened FnsvcWire
  import opened NioTransport
  import FnctlStore

  const MAX_URI := FnctlStore.MAX_URI
  const MAX_PATH := FnctlStore.MAX_PATH
  const MAX_DATA := 512
  const SET_STATE: Byte := 2
  const FIRST_DRIVE := 3
  const LAST_DRIVE := 26

  function StateRequest(uri: seq<Byte>, path: seq<Byte>): seq<Byte>
    requires |uri| < TWO16 && |path| < TWO16
  {
    PutU16le(|uri|) + PutU16le(|path|) + uri + path
  }

  function DecodeState(b: seq<Byte>): (seq<Byte>, seq<Byte>)
    requires |b| >= 4 && |b| == 4 + GetU16le(b, 0) + GetU16le(b, 2)
  {
    (b[4..4 + GetU16le(b, 0)], b[4 + GetU16le(b, 0)..])
  }

  /** Both strings can be read back, and an accepted pair never needs more than 386 bytes. */
  lemma StateRequestRoundTrip(uri: seq<Byte>, path: seq<Byte>)
    requires |uri| < TWO16 && |path| < TWO16
    ensures var b := StateRequest(uri, path);
      && |b| >= 4 && |b| == 4 + GetU16le(b, 0) + GetU16le(b, 2)
      && DecodeState(b) == (uri, path)
      && (|uri| <= MAX_URI && |path| <= MAX_PATH ==> |b| <= 386)
  {
    var b := StateRequest(uri, path);
    assert b == [] + PutU16le(|uri|) + (PutU16le(|path|) + uri + path);
    U16RoundTrip([], |uri|, PutU16le(|path|) + uri + path);
    assert b == PutU16le(|uri|) + PutU16le(|path|) + (uri + path);
    U16RoundTrip(PutU16le(|uri|), |path|, uri + path);
  }

  /** What a drive answers to the query: nothing, or a block with a unit and the right signature or not. */
  datatype Answer = NoAnswer | Block(signed: bool, unit: Byte)

  predicate Ours(a: Answer) { a.Block? && a.signed }

  class Control {
    const transport: Transport
    const stateRequestBuf: array<Byte>
    var cachedDrive: nat
    var drives: map<nat, Answer>   // what the machine's drives answer at the moment

    ghost predicate Valid()
      reads this
    {
      stateRequestBuf.Length == MAX_DATA && (cachedDrive == 0 || FIRST_DRIVE <= cachedDrive <= LAST_DRIVE)
    }

    constructor (transport: Transport, drives: map<nat, Answer>)
      ensures Valid() && cachedDrive == 0 && this.transport == transport && this.drives == drives && fresh(stateRequestBuf)
    {
      this.transport := transport;
      stateRequestBuf := new Byte[MAX_DATA](_ => 0);
      cachedDrive := 0;
      this.drives := drives;
    }

    function Query(drive: nat): Answer
      reads this`drives
    {
      if drive in drives then drives[drive] else NoAnswer
    }

    /** fnctl_find_drive: the first drive that answers, remembered even if the drives change later. */
    method FindDrive() returns (drive: nat)
      requires Valid()
      modifies this`cachedDrive
      ensures Valid() && drive == cachedDrive
      ensures old(cachedDrive) != 0 ==> drive == old(cachedDrive)
      ensures old(cachedDrive) == 0 && drive != 0 ==>
        Ours(Query(drive)) && forall d | 3 <= d < drive :: !Ours(Query(d))
      ensures drive == 0 ==> forall d | 3 <= d <= 26 :: !Ours(Query(d))
    {
      if cachedDrive != 0 {
        return cachedDrive;
      }
      for d := FIRST_DRIVE to LAST_DRIVE + 1
        invariant cachedDrive == 0
        invariant forall e | FIRST_DRIVE <= e < d :: !Ours(Query(e))
      {
        if Ours(Query(d)) {
          cachedDrive := d;
          return d;
        }
      }
      drive := 0;
    }

    /** fnctl_find_drive_for_unit: the first drive of that unit, looked up afresh. */
    method FindDriveForUnit(unit: Byte) returns (drive: nat)
      ensures drive != 0 ==> 3 <= drive <= 26 && Ours(Query(drive)) && Query(drive).unit == unit
      ensures forall d | 3 <= d < (if drive == 0 then 27 else drive) ::
        !(Ours(Query(d)) && Query(d).unit == unit)
    {
      for d := FIRST_DRIVE to LAST_DRIVE + 1
        invariant forall e | FIRST_DRIVE <= e < d :: !(Ours(Query(e)) && Query(e).unit == unit)
      {
        if Ours(Query(d)) && Query(d).unit == unit {
          return d;
        }
      }
      drive := 0;
    }

    /** The framing in fnctl_set_state: rejected, or a request of requestLen bytes in the buffer. */
    method WriteStateRequest(uri: seq<Byte>, path: seq<Byte>) returns (ok: bool, requestLen: nat)
      requires Valid()
      modifies stateRequestBuf
      ensures ok == (|uri| <= MAX_URI && |path| <= MAX_PATH)
      ensures ok ==> requestLen <= 386 && stateRequestBuf[..requestLen] == StateRequest(uri, path)
    {
      ok, requestLen := false, 0;
      if |uri| > MAX_URI || |path| > MAX_PATH {
        return;
      }
      requestLen := Trunc16(4 + |uri| + |path|);
      if requestLen > stateRequestBuf.Length {
        return;
      }
      var head := PutU16le(|uri|) + PutU16le(|path|);
      forall i | 0 <= i < 4 { stateRequestBuf[i] := head[i]; }
      forall i | 0 <= i < |uri| { stateRequestBuf[4 + i] := uri[i]; }
      assert stateRequestBuf[..4 + |uri|] == head + uri;
      forall i | 0 <= i < |path| { stateRequestBuf[4 + |uri| + i] := path[i]; }
      assert stateRequestBuf[..requestLen] == head + uri + path;
      ok := true;
    }

    /** fnctl_set_state: strings that are too long send nothing; otherwise one request, and success
        when the device answers OK. */
    method SetState(uri: seq<Byte>, path: seq<Byte>) returns (ok: bool)
      requires Valid()
      modifies stateRequestBuf, transport
      ensures |uri| > MAX_URI || |path| > MAX_PATH ==>
        !ok && transport.sent == old(transport.sent) && transport.replies == old(transport.replies)
      ensures |uri| <= MAX_URI && |path| <= MAX_PATH ==>
        && transport.sent == old(transport.sent) + [Request(0, SET_STATE, StateRequest(uri, path))]
        && transport.replies == Remaining(old(transport.replies))
        && ok == Succeeded(NextReply(old(transport.replies)))
    {
      var framed, requestLen := WriteStateRequest(uri, path);
      if !framed {
        return false;
      }
      var nothing := new Byte[0](_ => 0);
      var called, status, _ := transport.Exchange(0, SET_STATE, stateRequestBuf, requestLen, nothing, 0);
      ok := called && status == 0;
    }
  }
}
