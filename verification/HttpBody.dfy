/** Draining an HTTP body (apps/test/fhttpbin.c): bounded retries, a fixed buffer that keeps the
    beginning, and a 32-bit total; and joining a base URL with a path. */
module HttpBody {
  import opened MachineInts

  const MAX_BODY := 768
  const MAX_RETRIES := 500
  const MAX_CHUNK := 384
  const URL_MAX := 256

  datatype Status = Ok | NotReady | Busy | Failure(code: Byte)

  /** One answer of fn_read. */
  datatype ReadResult = ReadResult(status: Status, bytes: seq<Byte>, eof: bool)

  predicate Transient(s: Status) { s == NotReady || s == Busy }

  /** A stream with nothing more to say reports a failure. */
  const CLOSED := ReadResult(Failure(0xFF), [], false)
  function NextRead(script: seq<ReadResult>): ReadResult { if script == [] then CLOSED else script[0] }

  /** fn_read returns at most what was asked for. */
  predicate WithinChunk(script: seq<ReadResult>, chunk: nat) { forall r | r in script :: |r.bytes| <= chunk }

  /** How a drain ends: the result, the total, the text kept, the offsets asked for. */
  datatype Drained = Drained(status: Status, total: U32, body: seq<Byte>, offsets: seq<U32>)

  function KeepFirst(body: seq<Byte>, more: seq<Byte>): (r: seq<Byte>)
    requires |body| <= MAX_BODY
    ensures |r| <= MAX_BODY && r <= body + more
  {
    if |body| + |more| > MAX_BODY then body + more[..MAX_BODY - |body|] else body + more
  }

  /** The loop from a state with `retries` left. */
  function Drain(script: seq<ReadResult>, body: seq<Byte>, offset: U32, retries: nat): Drained
    requires |body| <= MAX_BODY
    decreases |script|
  {
    var r := NextRead(script);
    var stop := Drained(r.status, offset, body, [offset]);
    if Transient(r.status) then
      if retries == 0 then stop
      else var d := Drain(script[1..], body, offset, retries - 1); d.(offsets := [offset] + d.offsets)
    else if r.status != Ok || r.bytes == [] then stop
    else
      var kept, next := KeepFirst(body, r.bytes), Trunc32(offset + |r.bytes|);
      if r.eof then Drained(Ok, next, kept, [offset])
      else var d := Drain(script[1..], kept, next, MAX_RETRIES); d.(offsets := [offset] + d.offsets)
  }

  /** One round of the loop. */
  lemma DrainStep(script: seq<ReadResult>, body: seq<Byte>, offset: U32, retries: nat)
    requires |body| <= MAX_BODY
    ensures var r := NextRead(script);
      var d := Drain(script, body, offset, retries);
      var stop := Drained(r.status, offset, body, [offset]);
      if Transient(r.status) && retries > 0 then
        script != [] && var later := Drain(script[1..], body, offset, retries - 1);
        d == later.(offsets := [offset] + later.offsets)
      else if r.status != Ok || r.bytes == [] then d == stop
      else
        var kept, next := KeepFirst(body, r.bytes), Trunc32(offset + |r.bytes|);
        if r.eof then d == Drained(Ok, next, kept, [offset])
        else script != [] && var later := Drain(script[1..], kept, next, MAX_RETRIES);
          d == later.(offsets := [offset] + later.offsets)
  {
    hide KeepFirst, Trunc32;
  }

  /** The bytes of the first n reads of a script. */
  function Received(script: seq<ReadResult>, n: nat): seq<Byte>
    requires n <= |script|
  {
    if n == 0 then [] else (if script[0].status == Ok then script[0].bytes else []) + Received(script[1..], n - 1)
  }

  function DataReads(script: seq<ReadResult>, n: nat): nat
    requires n <= |script|
  {
    if n == 0 then 0
    else (if script[0].status == Ok && script[0].bytes != [] then 1 else 0) + DataReads(script[1..], n - 1)
  }

  function Min(a: nat, b: nat): nat { if a < b then a else b }

  /** Truncating a partial sum does not change the truncated sum. */
  lemma TruncSum(a: nat, b: nat, c: nat)
    ensures Trunc32(Trunc32(a + b) + c) == Trunc32(a + (b + c))
  {
  }

  lemma ReceivedFirst(script: seq<ReadResult>, n: nat)
    requires n < |script|
    ensures Received(script, n + 1) == (if script[0].status == Ok then script[0].bytes else []) + Received(script[1..], n)
  {
  }

  /** What was kept is the beginning of the stream. */
  lemma KeepFirstMore(body: seq<Byte>, a: seq<Byte>, b: seq<Byte>)
    requires |body| <= MAX_BODY
    ensures KeepFirst(KeepFirst(body, a), b) == KeepFirst(body, a + b)
  {
    if |body| + |a| > MAX_BODY {
      assert (a + b)[..MAX_BODY - |body|] == a[..MAX_BODY - |body|];
    } else {
      assert body + (a + b) == body + a + b;
      if |body| + |a| + |b| > MAX_BODY {
        assert (a + b)[..MAX_BODY - |body|] == a + b[..MAX_BODY - |body| - |a|];
      }
    }
  }

  /** On success the body is the first 768 bytes received and the total counts them all (modulo 2^32). */
  lemma {:induction false} DrainKeepsPrefix(script: seq<ReadResult>, body: seq<Byte>, offset: U32, retries: nat)
    requires |body| <= MAX_BODY
    requires Drain(script, body, offset, retries).status == Ok
    ensures var d := Drain(script, body, offset, retries);
      && |d.offsets| <= |script|
      && var all := Received(script, |d.offsets|);
         d.body == KeepFirst(body, all) && d.total == Trunc32(offset + |all|)
    decreases |script|
  {
    hide Trunc32, KeepFirst, Received;
    var r := NextRead(script);
    if Transient(r.status) {
      DrainKeepsPrefix(script[1..], body, offset, retries - 1);
      var n := |Drain(script[1..], body, offset, retries - 1).offsets|;
      ReceivedFirst(script, n);
      assert [] + Received(script[1..], n) == Received(script[1..], n);
    } else {
      var kept, next := KeepFirst(body, r.bytes), Trunc32(offset + |r.bytes|);
      var n := if r.bytes == [] || r.eof then 0 else |Drain(script[1..], kept, next, MAX_RETRIES).offsets|;
      if r.bytes != [] && !r.eof {
        DrainKeepsPrefix(script[1..], kept, next, MAX_RETRIES);
      }
      var rest := Received(script[1..], n);
      ReceivedFirst(script, n);
      NothingReceived(script[1..], body, offset);
      assert r.bytes + [] == r.bytes;
      KeepFirstMore(body, r.bytes, rest);
      TruncSum(offset, |r.bytes|, |rest|);
    }
  }

  lemma NothingReceived(script: seq<ReadResult>, body: seq<Byte>, offset: U32)
    requires |body| <= MAX_BODY
    ensures Received(script, 0) == [] && KeepFirst(body, []) == body && Trunc32(offset) == offset
  {
    assert body + [] == body;
  }

  /** Whatever the outcome, there are at most 501 reads for each read with data, and 501 more. */
  lemma {:induction false} DrainReadsBounded(script: seq<ReadResult>, body: seq<Byte>, offset: U32, retries: nat)
    requires |body| <= MAX_BODY && retries <= MAX_RETRIES
    ensures var n := |Drain(script, body, offset, retries).offsets|;
      0 < n <= |script| + 1 && n <= retries + 1 + (MAX_RETRIES + 1) * DataReads(script, Min(n, |script|))
    decreases |script|
  {
    hide Trunc32, KeepFirst;
    var r := NextRead(script);
    var n := |Drain(script, body, offset, retries).offsets|;
    if script != [] {
      assert forall m: nat | 0 < m <= |script| :: DataReads(script, m) >= DataReads(script[1..], m - 1);
      if Transient(r.status) && retries > 0 {
        DrainReadsBounded(script[1..], body, offset, retries - 1);
      } else if r.status == Ok && r.bytes != [] && !r.eof {
        DrainReadsBounded(script[1..], KeepFirst(body, r.bytes), Trunc32(offset + |r.bytes|), MAX_RETRIES);
        assert DataReads(script, Min(n, |script|)) == 1 + DataReads(script[1..], Min(n, |script|) - 1);
      }
    }
  }

  /** Each read but the last uses up an answer. */
  lemma {:induction false} DrainNoLonger(script: seq<ReadResult>, body: seq<Byte>, offset: U32, retries: nat)
    requires |body| <= MAX_BODY
    ensures |Drain(script, body, offset, retries).offsets| <= |script| + 1
    decreases |script|
  {
    hide Trunc32, KeepFirst;
    var r := NextRead(script);
    if script != [] {
      if Transient(r.status) && retries > 0 {
        DrainNoLonger(script[1..], body, offset, retries - 1);
      } else if r.status == Ok && r.bytes != [] && !r.eof {
        DrainNoLonger(script[1..], KeepFirst(body, r.bytes), Trunc32(offset + |r.bytes|), MAX_RETRIES);
      }
    }
  }

  /** An answer after which the drain reads on: transient, or data without the end-of-file mark. */
  predicate GoesOn(r: ReadResult) { Transient(r.status) || (r.status == Ok && r.bytes != [] && !r.eof) }

  /** The retries are used up after n answers: all of them were transient, one for each retry there was,
      or the last 500 were. */
  ghost predicate LastTransient(script: seq<ReadResult>, n: nat, retries: nat)
    requires n <= |script|
  {
    || (n == retries && forall k | 0 <= k < n :: Transient(script[k].status))
    || (n >= 500 && forall k | n - 500 <= k < n :: Transient(script[k].status))
  }

  /** The drain of a script ends at this read, having read on at every one before it. */
  ghost predicate EndsAt(script: seq<ReadResult>, retries: nat, status: Status, n: nat) {
    && 0 < n <= |script| + 1
    && (forall k | 0 <= k < n - 1 :: GoesOn(script[k]))
    && var last := NextRead(script[n - 1..]);
       && status == last.status
       && (if Transient(status) then LastTransient(script, n - 1, retries) else !GoesOn(last))
  }

  lemma EndsLater(script: seq<ReadResult>, retries: nat, left: nat, status: Status, n: nat)
    requires script != [] && GoesOn(script[0]) && EndsAt(script[1..], left, status, n)
    requires (retries == left + 1 && Transient(script[0].status)) || left == MAX_RETRIES
    ensures EndsAt(script, retries, status, n + 1)
  {
    assert script[1..][n - 1..] == script[n..];
    forall k | 0 < k < n
      ensures script[k] == script[1..][k - 1] && GoesOn(script[k])
    {
    }
    hide GoesOn;
  }

  /** The drain reads on as long as it can and returns the status of the last answer. That answer is a
      failure, data with the end-of-file mark, no data, or transient after as many transient ones as
      there were retries left. */
  lemma {:induction false} DrainStops(script: seq<ReadResult>, body: seq<Byte>, offset: U32, retries: nat)
    requires |body| <= MAX_BODY && retries <= MAX_RETRIES
    ensures var d := Drain(script, body, offset, retries);
      EndsAt(script, retries, d.status, |d.offsets|)
    decreases |script|
  {
    hide Trunc32, KeepFirst, Drain, EndsAt;
    var r := NextRead(script);
    DrainStep(script, body, offset, retries);
    if Transient(r.status) && retries > 0 {
      DrainStops(script[1..], body, offset, retries - 1);
      EndsLater(script, retries, retries - 1, Drain(script[1..], body, offset, retries - 1).status,
                |Drain(script[1..], body, offset, retries - 1).offsets|);
    } else if r.status == Ok && r.bytes != [] && !r.eof {
      var kept, next := KeepFirst(body, r.bytes), Trunc32(offset + |r.bytes|);
      DrainStops(script[1..], kept, next, MAX_RETRIES);
      EndsLater(script, retries, MAX_RETRIES, Drain(script[1..], kept, next, MAX_RETRIES).status,
                |Drain(script[1..], kept, next, MAX_RETRIES).offsets|);
    } else {
      EndsHere(script, retries);
    }
  }

  lemma EndsHere(script: seq<ReadResult>, retries: nat)
    requires var r := NextRead(script); if Transient(r.status) then retries == 0 else !GoesOn(r)
    ensures EndsAt(script, retries, NextRead(script).status, 1)
  {
    assert script[0..] == script;
  }

  /** The answers from the k-th read on are transient, `most` + 1 of them. */
  predicate AllTransient(script: seq<ReadResult>, k: nat, most: nat)
    requires k + most < |script|
  {
    forall j | k <= j <= k + most :: Transient(script[j].status)
  }

  /** With r retries left a drain that goes on after r + 1 reads has seen one that was not transient. */
  lemma {:induction false} RetriesRunOut(script: seq<ReadResult>, body: seq<Byte>, offset: U32, retries: nat)
    requires |body| <= MAX_BODY && retries + 1 < |Drain(script, body, offset, retries).offsets|
    ensures retries < |script| && !AllTransient(script, 0, retries)
    decreases |script|
  {
    hide Trunc32, KeepFirst;
    DrainNoLonger(script, body, offset, retries);
    if Transient(script[0].status) {
      RetriesRunOut(script[1..], body, offset, retries - 1);
      var j :| 0 <= j <= retries - 1 && !Transient(script[1..][j].status);
      assert script[1..][j] == script[j + 1];
    }
  }

  /** In every gap: 501 transient answers in a row are the last answers of the drain, wherever they
      start, so no more than 500 come between two reads with data. */
  lemma {:induction false} GapsBounded(script: seq<ReadResult>, body: seq<Byte>, offset: U32, retries: nat, k: nat)
    requires |body| <= MAX_BODY && retries <= MAX_RETRIES
    requires k + MAX_RETRIES + 1 < |Drain(script, body, offset, retries).offsets|
    ensures k + MAX_RETRIES < |script| && !AllTransient(script, k, MAX_RETRIES)
    decreases |script|
  {
    hide Trunc32, KeepFirst;
    var r := NextRead(script);
    if k == 0 {
      DrainNoLonger(script, body, offset, retries);
      RetriesRunOut(script, body, offset, retries);
      var j :| 0 <= j <= retries && !Transient(script[j].status);
    } else {
      if Transient(r.status) {
        GapsBounded(script[1..], body, offset, retries - 1, k - 1);
      } else {
        GapsBounded(script[1..], KeepFirst(body, r.bytes), Trunc32(offset + |r.bytes|), MAX_RETRIES, k - 1);
      }
      var j :| k - 1 <= j <= k - 1 + MAX_RETRIES && !Transient(script[1..][j].status);
      assert script[1..][j] == script[j + 1];
    }
  }

  /** Every read asks for the byte after the last one received. */
  lemma {:induction false} DrainAsksInOrder(script: seq<ReadResult>, body: seq<Byte>, offset: U32, retries: nat, k: nat)
    requires |body| <= MAX_BODY && k < |Drain(script, body, offset, retries).offsets|
    ensures k <= |script| && Drain(script, body, offset, retries).offsets[k] == Trunc32(offset + |Received(script, k)|)
    decreases |script|
  {
    hide Trunc32, KeepFirst, Received;
    var r := NextRead(script);
    if k == 0 {
      NothingReceived(script, body, offset);
    } else {
      if Transient(r.status) {
        DrainAsksInOrder(script[1..], body, offset, retries - 1, k - 1);
        ReceivedFirst(script, k - 1);
        assert [] + Received(script[1..], k - 1) == Received(script[1..], k - 1);
      } else {
        var next := Trunc32(offset + |r.bytes|);
        DrainAsksInOrder(script[1..], KeepFirst(body, r.bytes), next, MAX_RETRIES, k - 1);
        ReceivedFirst(script, k - 1);
        TruncSum(offset, |r.bytes|, |Received(script[1..], k - 1)|);
      }
    }
  }

  /** read_body as a whole: for a stream below 2^32 bytes a success means the total is exact and the
      buffer holds the first min(total, 768) bytes; there are at most 501 (K + 1) reads, K with data. */
  lemma ReadBodyCorrect(script: seq<ReadResult>)
    ensures var d := Drain(script, [], 0, MAX_RETRIES);
      var n := |d.offsets|;
      && n <= 501 * (DataReads(script, Min(n, |script|)) + 1)
      && EndsAt(script, 500, d.status, n)
      && (d.status == Ok ==>
            && n <= |script|
            && var all := Received(script, n);
               d.body == all[..Min(|all|, 768)] && (|all| < TWO32 ==> d.total == |all|))
  {
    DrainReadsBounded(script, [], 0, MAX_RETRIES);
    DrainStops(script, [], 0, MAX_RETRIES);
    if Drain(script, [], 0, MAX_RETRIES).status == Ok {
      DrainKeepsPrefix(script, [], 0, MAX_RETRIES);
      var all := Received(script, |Drain(script, [], 0, MAX_RETRIES).offsets|);
      assert [] + all == all && (|all| <= MAX_BODY ==> all[..|all|] == all);
    }
    hide Drain, Received, EndsAt;
  }

  /** The connection: scripted answers, and the offsets it was asked for. */
  class Connection {
    var script: seq<ReadResult>
    var asked: seq<U32>

    method Read(offset: U32, buf: array<Byte>, chunk: nat) returns (status: Status, n: nat, eof: bool)
      requires WithinChunk(script, chunk) && chunk <= buf.Length
      modifies this, buf
      ensures var r := NextRead(old(script));
        && status == r.status && n == |r.bytes| && n <= chunk && eof == r.eof && buf[..n] == r.bytes
      ensures asked == old(asked) + [offset]
      ensures script == if old(script) == [] then [] else old(script)[1..]
      ensures WithinChunk(script, chunk)
    {
      var r := if script == [] then CLOSED else script[0];
      asked := asked + [offset];
      script := if script == [] then [] else script[1..];
      forall i | 0 <= i < |r.bytes| { buf[i] := r.bytes[i]; }
      status, n, eof := r.status, |r.bytes|, r.eof;
    }
  }

  class BodyReader {
    const chunk: nat
    const readBuf: array<Byte>
    const bodyBuf: array<Byte>
    const urlBuf: array<Byte>

    ghost predicate Valid() {
      && 0 < chunk <= MAX_CHUNK && readBuf.Length == chunk + 1
      && bodyBuf.Length == MAX_BODY + 1 && urlBuf.Length == URL_MAX + 1
      && readBuf != bodyBuf && readBuf != urlBuf && bodyBuf != urlBuf
    }

    constructor (chunk: nat)
      requires 0 < chunk <= MAX_CHUNK
      ensures Valid() && this.chunk == chunk && fresh(readBuf) && fresh(bodyBuf) && fresh(urlBuf)
    {
      this.chunk := chunk;
      readBuf, bodyBuf := new Byte[chunk + 1](_ => 0), new Byte[MAX_BODY + 1](_ => 0);
      urlBuf := new Byte[URL_MAX + 1](_ => 0);
    }

    /** The buffer holds this text, NUL-terminated. */
    ghost predicate Text(body: seq<Byte>)
      reads bodyBuf
    {
      |body| <= MAX_BODY && |body| < bodyBuf.Length && bodyBuf[..|body| + 1] == body + [0]
    }

    lemma TextMeans(body: seq<Byte>)
      ensures Text(body) <==> |body| <= MAX_BODY && |body| < bodyBuf.Length && bodyBuf[..|body| + 1] == body + [0]
    {
    }

    /** read_body. The buffer is a NUL-terminated string at every exit. */
    method ReadBody(conn: Connection) returns (status: Status, total: U32)
      requires Valid() && WithinChunk(conn.script, chunk)
      modifies conn, readBuf, bodyBuf
      ensures var d := Drain(old(conn.script), [], 0, MAX_RETRIES);
        && status == d.status && (status == Ok ==> total == d.total)
        && Text(d.body)
        && conn.asked == old(conn.asked) + d.offsets
    {
      hide WithinChunk, Drain, Trunc32, KeepFirst, NextRead, Text;
      var offset: U32, stored: U16, retries: U16 := 0, 0, MAX_RETRIES;
      ghost var body: seq<Byte>, asked: seq<U32> := [], [];
      total := 0;
      bodyBuf[0] := 0;
      TextMeans([]);
      while true
        invariant |body| == stored <= MAX_BODY && Text(body)
        invariant WithinChunk(conn.script, chunk) && conn.asked == old(conn.asked) + asked
        invariant retries <= MAX_RETRIES
        invariant var d := Drain(conn.script, body, offset, retries);
          Drain(old(conn.script), [], 0, MAX_RETRIES) == d.(offsets := asked + d.offsets)
        decreases |conn.script|
      {
        ghost var script := conn.script;
        DrainStep(script, body, offset, retries);
        var n, eof;
        status, n, eof := conn.Read(offset, readBuf, chunk);
        asked := asked + [offset];
        if status == NotReady || status == Busy {
          if retries > 0 {
            retries := retries - 1;
            continue;
          }
          return;
        }
        if status != Ok {
          return;
        }
        retries := MAX_RETRIES;
        if n == 0 {
          break;
        }
        ghost var received := readBuf[..n];
        assert received == NextRead(script).bytes;
        stored := Store(stored, n, body);
        body := KeepFirst(body, received);
        offset := Trunc32(offset + n);
        if eof {
          break;
        }
      }
      total := offset;
    }

    /** Append what still fits and terminate. */
    method Store(stored: U16, n: nat, ghost body: seq<Byte>) returns (now: U16)
      requires Valid() && stored <= MAX_BODY && n <= chunk
      requires |body| == stored && Text(body)
      modifies bodyBuf
      ensures now == |KeepFirst(body, readBuf[..n])| && Text(KeepFirst(body, readBuf[..n]))
    {
      assert bodyBuf[..stored] == body;
      var copyLen := n;
      if stored + copyLen > MAX_BODY {
        copyLen := MAX_BODY - stored;
      }
      now := stored;
      if copyLen > 0 {
        forall i | 0 <= i < copyLen { bodyBuf[stored + i] := readBuf[i]; }
        now := stored + copyLen;
        bodyBuf[now] := 0;
        assert bodyBuf[..now] == body + readBuf[..n][..copyLen];
      }
    }

    /** build_url. */
    method BuildUrl(base: seq<Byte>, path: seq<Byte>) returns (ok: bool)
      requires Valid()
      modifies urlBuf
      ensures ok == (|base| + |path| + 2 <= URL_MAX + 1)
      ensures ok ==> var url := TrimEnd(base) + [SLASH] + TrimStart(path);
        |url| <= URL_MAX && urlBuf[..|url| + 1] == url + [0]
    {
      var slashBase := |base| > 0 && base[|base| - 1] == SLASH;
      var slashPath := |path| > 0 && path[0] == SLASH;
      if |base| + |path| + 2 > URL_MAX + 1 {
        return false;
      }
      var text := base;
      if slashBase && slashPath {
        text := text + path[1..];
      } else if !slashBase && !slashPath {
        text := text + [SLASH] + path;
      } else {
        text := text + path;
      }
      forall i | 0 <= i < |text| { urlBuf[i] := text[i]; }
      urlBuf[|text|] := 0;
      assert urlBuf[..|text| + 1] == text + [0];
      OneSlash(base, path);
      ok := true;
    }
  }

  const SLASH: Byte := 0x2F

  /** Without one slash at the seam. */
  function TrimEnd(s: seq<Byte>): seq<Byte> { if s != [] && s[|s| - 1] == SLASH then s[..|s| - 1] else s }
  function TrimStart(s: seq<Byte>): seq<Byte> { if s != [] && s[0] == SLASH then s[1..] else s }

  lemma OneSlash(base: seq<Byte>, path: seq<Byte>)
    ensures var slashBase, slashPath := base != [] && base[|base| - 1] == SLASH, path != [] && path[0] == SLASH;
      TrimEnd(base) + [SLASH] + TrimStart(path) ==
        if slashBase && slashPath then base + path[1..]
        else if !slashBase && !slashPath then base + [SLASH] + path
        else base + path
  {
    if base != [] && base[|base| - 1] == SLASH { assert base == TrimEnd(base) + [SLASH]; }
    if path != [] && path[0] == SLASH { assert path == [SLASH] + TrimStart(path); }
  }
}
