/** fnctl_nio_call, on which every device service rests (src/platform/linux/fnctl.c and its siblings). */
module NioTransport {
  import opened MachineInts
  import opened FnsvcWire

  /** fnctl_nio_call: one exchange per call, with scripted replies and a log of what was sent. */
  class Transport {
    var replies: seq<Reply>
    var sent: seq<Request>
    var lastDosError: U16

    constructor (script: seq<Reply>)
      ensures replies == script && sent == [] && lastDosError == 0
    {
      replies, sent, lastDosError := script, [], 0;
    }

    /** A request or a response capacity above IO_BUF_SIZE is refused before anything is sent. */
    method Exchange(device: Byte, command: Byte, request: array<Byte>, requestLen: nat,
                    response: array<Byte>, capacity: nat)
      returns (ok: bool, status: Byte, responseLen: U16)
      requires requestLen <= request.Length && capacity <= response.Length
      modifies this, response
      ensures requestLen > IO_BUF_SIZE || capacity > IO_BUF_SIZE ==>
        !ok && response[..] == old(response[..]) && sent == old(sent) && replies == old(replies) && lastDosError == old(lastDosError)
      ensures requestLen <= IO_BUF_SIZE && capacity <= IO_BUF_SIZE ==>
        && sent == old(sent) + [Request(device, command, old(request[..requestLen]))]
        && replies == Remaining(old(replies))
        && match NextReply(old(replies))
           case NoReply(c) => !ok && lastDosError == c
           case Replied(s, payload) =>
             var p := Delivered(payload, capacity);
             ok && status == s && responseLen == |p| && response[..responseLen] == p && lastDosError == 0
    {
      ok, status, responseLen := false, 0, 0;
      if requestLen > IO_BUF_SIZE || capacity > IO_BUF_SIZE {
        return;
      }
      sent := sent + [Request(device, command, request[..requestLen])];
      match NextReply(replies)
      case NoReply(c) =>
        lastDosError := c;
        replies := Remaining(replies);
      case Replied(s, payload) =>
        var p := Delivered(payload, capacity);
        forall i | 0 <= i < |p| { response[i] := p[i]; }
        ok, status, responseLen, lastDosError := true, s, |p|, 0;
        replies := Remaining(replies);
    }
  }
}
