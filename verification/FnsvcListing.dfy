/** Directory listing end to end: what arbitrary reply bytes can make the client deliver, and what
    a well-behaved service makes it deliver. */
module FnsvcListing {
  import opened MachineInts
  import opened FnsvcWire
  import opened FnsvcRequests

  // ----- arbitrary replies

  /** The entries are read from consecutive slices: entry i occupies [offs[i], offs[i + 1]). */
  ghost predicate Tiles(p: seq<Byte>, compact: bool, entries: seq<Entry>, offs: seq<nat>) {
    && |offs| == |entries| + 1
    && (forall i | 0 <= i < |entries| ::
          EntryFits(p, compact, offs[i]) && offs[i + 1] == EntryEnd(p, compact, offs[i])
          && entries[i] == EntryAt(p, compact, offs[i]))
  }

  /** Any bytes at all: the parser delivers the longest run of well-formed entries, up to `left`
      of them, and reports success exactly when it reached `left`. */
  lemma {:induction false} EntriesTile(p: seq<Byte>, compact: bool, pos: nat, left: nat) returns (offs: seq<nat>)
    requires pos <= |p|
    ensures var r := ParseEntries(p, compact, pos, left);
      && Tiles(p, compact, r.entries, offs) && offs[0] == pos && offs[|r.entries|] <= |p|
      && |r.entries| <= left
      && r.error == (if |r.entries| == left then NoError else EntryBounds)
      && (r.error == EntryBounds ==> !EntryFits(p, compact, offs[|r.entries|]))
      && (forall i | 0 <= i < |r.entries| :: offs[i] + 2 <= offs[i + 1])
    decreases left
  {
    hide EntryAt, EntryEnd;
    var r := ParseEntries(p, compact, pos, left);
    if left == 0 || !EntryFits(p, compact, pos) {
      offs := [pos];
    } else {
      var next := EntryEnd(p, compact, pos);
      EntryInside(p, compact, pos);
      var later := EntriesTile(p, compact, next, left - 1);
      var rest := ParseEntries(p, compact, next, left - 1);
      offs := [pos] + later;
      hide ParseEntries;
      TilesCons(p, compact, pos, rest.entries, later);
    }
  }

  lemma EntryInside(p: seq<Byte>, compact: bool, pos: nat)
    requires EntryFits(p, compact, pos)
    ensures pos + 2 <= EntryEnd(p, compact, pos) <= |p|
  {
  }

  /** A tiling with one more entry in front. */
  lemma TilesCons(p: seq<Byte>, compact: bool, pos: nat, entries: seq<Entry>, offs: seq<nat>)
    requires EntryFits(p, compact, pos) && Tiles(p, compact, entries, offs) && offs[0] == EntryEnd(p, compact, pos)
    requires forall i | 0 <= i < |entries| :: offs[i] + 2 <= offs[i + 1]
    ensures var es, os := [EntryAt(p, compact, pos)] + entries, [pos] + offs;
      Tiles(p, compact, es, os) && forall i | 0 <= i < |es| :: os[i] + 2 <= os[i + 1]
  {
    EntryInside(p, compact, pos);
    hide EntryFits, EntryAt, EntryEnd;
    var es, os := [EntryAt(p, compact, pos)] + entries, [pos] + offs;
    forall i | 0 <= i < |es|
      ensures EntryFits(p, compact, os[i]) && os[i + 1] == EntryEnd(p, compact, os[i])
      ensures es[i] == EntryAt(p, compact, os[i]) && os[i] + 2 <= os[i + 1]
    {
      if i > 0 {
        assert os[i] == offs[i - 1] && os[i + 1] == offs[i] && es[i] == entries[i - 1];
      } else {
        assert os[1] == offs[0];
      }
    }
  }

  lemma {:induction false} OffsetsGrow(offs: seq<nat>, i: nat, j: nat)
    requires forall k | 0 <= k < |offs| - 1 :: offs[k] + 2 <= offs[k + 1]
    requires i <= j < |offs|
    ensures offs[i] <= offs[j]
    decreases j - i
  {
    if i < j {
      OffsetsGrow(offs, i + 1, j);
    }
  }

  /** A callback from any accepted-length reply reads only bytes in [10, length) of it, the slices
      are disjoint and in order, and no position sum the code forms reaches 2^16. */
  lemma PageSlicesSound(p: seq<Byte>) returns (offs: seq<nat>)
    requires |p| <= IO_BUF_SIZE && |ParsePage(p).entries| > 0
    ensures |p| >= 10 && Tiles(p, PageCompact(p), ParsePage(p).entries, offs) && offs[0] == 10
    ensures forall i, j | 0 <= i < j < |offs| :: offs[i] < offs[j] <= |p|
    ensures forall i | 0 <= i < |offs| :: offs[i] + 2 + 0xFF + 16 < TWO16
    ensures (ParsePage(p).error == NoError <==> |ParsePage(p).entries| == PageCount(p))
  {
    offs := EntriesTile(p, PageCompact(p), 10, PageCount(p));
    forall i, j | 0 <= i < j < |offs|
      ensures offs[i] < offs[j] <= |p|
    {
      OffsetsGrow(offs, i + 1, j);
      OffsetsGrow(offs, j, |offs| - 1);
    }
    assert offs[|offs| - 1] <= |p|;
    forall i | 0 <= i < |offs|
      ensures offs[i] + 2 + 0xFF + 16 < TWO16
    {
      OffsetsGrow(offs, i, |offs| - 1);
    }
  }

  /** When a page is reported complete, every entry its header declares was delivered. */
  lemma PageComplete(p: seq<Byte>)
    requires ParsePage(p).error == NoError
    ensures |p| >= 10 && p[0] == FILE_VERSION && |ParsePage(p).entries| == PageCount(p)
  {
    var offs := EntriesTile(p, PageCompact(p), 10, PageCount(p));
  }

  /** The entries_len check is not a bound on the entries: a declared length of 65526 or more
      wraps the sum and passes. */
  lemma EntriesLenCheck(p: seq<Byte>)
    requires 10 <= |p| <= IO_BUF_SIZE
    ensures EntriesLenOk(p) <==> 10 + GetU16le(p, 8) <= |p| || GetU16le(p, 8) >= 65526
  {
  }

  function Flatten(pages: seq<seq<Entry>>): seq<Entry> {
    if pages == [] then [] else pages[0] + Flatten(pages[1..])
  }

  /** The reply is a complete page with these entries. */
  ghost predicate IsPage(reply: Reply, entries: seq<Entry>) {
    && reply.Replied? && reply.status == STATUS_OK
    && var p := Delivered(reply.payload, IO_BUF_SIZE);
       ParsePage(p) == PageResult(entries, NoError) && |p| >= 10 && |entries| == PageCount(p)
  }

  ghost predicate SaysMore(reply: Reply) {
    reply.Replied? && var p := Delivered(reply.payload, IO_BUF_SIZE); |p| >= 10 && PageMore(p)
  }

  /** Return value 1 against any server whatever: the callbacks are all declared entries of all
      pages received, in order, and the last page received was the only one without MORE. */
  lemma {:induction false} SuccessDeliversEverything(uri: seq<Byte>, start: U16, regs: Registers, dosError: U16, replies: seq<Reply>)
    returns (pages: seq<seq<Entry>>)
    requires ListFrom(uri, start, regs, dosError, replies).regs.lastError == NoError
    ensures var run := ListFrom(uri, start, regs, dosError, replies);
      && 0 < |pages| == |run.requests| <= |replies| && run.rest == replies[|pages|..]
      && run.trace == Flatten(pages)
      && (forall i | 0 <= i < |pages| :: IsPage(replies[i], pages[i]) && (SaysMore(replies[i]) <==> i < |pages| - 1))
      && (forall i | 0 <= i < |pages| - 1 :: pages[i] != [])
    decreases |replies|
  {
    hide ParsePage, ListRequest, ListRequestFits, IsPage, SaysMore, OnePage;
    var step := OnePage(regs, NextReply(replies));
    StepIsPage(regs, replies);
    if !step.more {
      pages := [step.entries];
      assert Flatten(pages) == step.entries + Flatten(pages[1..]);
      assert pages[1..] == [];
    } else {
      var later := SuccessDeliversEverything(uri, Trunc16(start + step.count), step.regs, 0, replies[1..]);
      pages := [step.entries] + later;
      assert pages[1..] == later;
      assert replies[1..][|later|..] == replies[|pages|..];
      forall i | 0 <= i < |pages|
        ensures IsPage(replies[i], pages[i]) && (SaysMore(replies[i]) <==> i < |pages| - 1)
        ensures i < |pages| - 1 ==> pages[i] != []
      {
        if i > 0 {
          assert replies[i] == replies[1..][i - 1] && pages[i] == later[i - 1];
        }
      }
    }
  }

  lemma StepIsPage(regs: Registers, replies: seq<Reply>)
    requires OnePage(regs, NextReply(replies)).regs.lastError == NoError
    ensures var step := OnePage(regs, NextReply(replies));
      && |replies| > 0 && IsPage(replies[0], step.entries)
      && step.count == |step.entries| && (SaysMore(replies[0]) <==> step.more)
  {
    PageComplete(Delivered(replies[0].payload, IO_BUF_SIZE));
  }

  // ----- a well-behaved service

  /** A directory entry as the service holds it; bit 0 of the flags marks a directory. */
  datatype FileInfo = FileInfo(flags: Byte, name: seq<Byte>, sizeLow: U32, sizeHigh: U32, mtimeLow: U32, mtimeHigh: U32)

  predicate Servable(f: FileInfo) { |f.name| <= LIST_NAME_MAX && 0 !in f.name }
  predicate AllServable(fs: seq<FileInfo>) { forall f | f in fs :: Servable(f) }

  /** What the callback should be told about f. */
  function Seen(f: FileInfo, compact: bool): Entry {
    Entry(f.flags % 2 == 1, f.name, if compact then 0 else f.sizeLow, if compact then 0 else f.mtimeLow)
  }

  function SeenAll(fs: seq<FileInfo>, compact: bool): (es: seq<Entry>)
    ensures |es| == |fs| && forall i | 0 <= i < |fs| :: es[i] == Seen(fs[i], compact)
  {
    if fs == [] then [] else [Seen(fs[0], compact)] + SeenAll(fs[1..], compact)
  }

  function Times(f: FileInfo, compact: bool): seq<Byte> {
    if compact then []
    else PutU32le(f.sizeLow) + PutU32le(f.sizeHigh) + PutU32le(f.mtimeLow) + PutU32le(f.mtimeHigh)
  }

  function EncodeEntry(f: FileInfo, compact: bool): seq<Byte>
    requires Servable(f)
  {
    [f.flags, |f.name|] + f.name + Times(f, compact)
  }

  function EncodeEntries(fs: seq<FileInfo>, compact: bool): seq<Byte>
    requires AllServable(fs)
  {
    if fs == [] then [] else EncodeEntry(fs[0], compact) + EncodeEntries(fs[1..], compact)
  }

  function EncodePage(fs: seq<FileInfo>, more: bool, compact: bool, reserved: seq<Byte>): seq<Byte>
    requires AllServable(fs) && |reserved| == 4
    requires |fs| < TWO16 && |EncodeEntries(fs, compact)| < TWO16
  {
    [FILE_VERSION, (if more then 1 else 0) + (if compact then 2 else 0)] + reserved
      + PutU16le(|fs|) + PutU16le(|EncodeEntries(fs, compact)|) + EncodeEntries(fs, compact)
  }

  lemma NameRoundTrip(pre: seq<Byte>, flags: Byte, name: seq<Byte>, post: seq<Byte>)
    requires |name| <= LIST_NAME_MAX
    ensures var p := pre + [flags, |name|] + name + post;
      p[|pre|] == flags && p[|pre| + 1] == |name| && p[|pre| + 2..|pre| + 2 + |name|] == name
  {
  }

  lemma TimesRoundTrip(head: seq<Byte>, f: FileInfo, post: seq<Byte>)
    ensures var p := head + Times(f, false) + post;
      && |Times(f, false)| == 16
      && GetU32le(p, |head|) == f.sizeLow && GetU32le(p, |head| + 8) == f.mtimeLow
  {
    hide GetU32le, PutU32le;
    var p := head + Times(f, false) + post;
    var s, sh, m, mh := PutU32le(f.sizeLow), PutU32le(f.sizeHigh), PutU32le(f.mtimeLow), PutU32le(f.mtimeHigh);
    assert p == head + s + (sh + m + mh + post);
    U32RoundTrip(head, f.sizeLow, sh + m + mh + post);
    assert p == (head + s + sh) + m + (mh + post);
    U32RoundTrip(head + s + sh, f.mtimeLow, mh + post);
  }

  /** An encoded entry is found whole at its position. */
  lemma EntryRoundTrip(pre: seq<Byte>, f: FileInfo, compact: bool, post: seq<Byte>)
    requires Servable(f)
    ensures var p := pre + EncodeEntry(f, compact) + post;
      && EntryFits(p, compact, |pre|) && EntryEnd(p, compact, |pre|) == |pre| + |EncodeEntry(f, compact)|
      && EntryAt(p, compact, |pre|) == Seen(f, compact)
  {
    hide Servable, EncodeEntry, EntryFits, EntryAt, EntryEnd, Seen;
    if compact { CompactEntry(pre, f, post); } else { FullEntry(pre, f, post); }
  }

  lemma CompactEntry(pre: seq<Byte>, f: FileInfo, post: seq<Byte>)
    requires Servable(f)
    ensures var p := pre + EncodeEntry(f, true) + post;
      && EntryFits(p, true, |pre|) && EntryEnd(p, true, |pre|) == |pre| + |EncodeEntry(f, true)|
      && EntryAt(p, true, |pre|) == Seen(f, true)
  {
    hide GetU32le, UpToNul;
    assert EncodeEntry(f, true) == [f.flags, |f.name|] + f.name;
    assert pre + EncodeEntry(f, true) + post == pre + [f.flags, |f.name|] + f.name + post;
    NameRoundTrip(pre, f.flags, f.name, post);
    UpToNulOfClean(f.name);
  }

  lemma FullEntry(pre: seq<Byte>, f: FileInfo, post: seq<Byte>)
    requires Servable(f)
    ensures var p := pre + EncodeEntry(f, false) + post;
      && EntryFits(p, false, |pre|) && EntryEnd(p, false, |pre|) == |pre| + |EncodeEntry(f, false)|
      && EntryAt(p, false, |pre|) == Seen(f, false)
  {
    hide GetU32le, Times, UpToNul;
    var p := pre + EncodeEntry(f, false) + post;
    var head := pre + [f.flags, |f.name|] + f.name;
    assert p == head + (Times(f, false) + post) == head + Times(f, false) + post;
    NameRoundTrip(pre, f.flags, f.name, Times(f, false) + post);
    TimesRoundTrip(head, f, post);
    UpToNulOfClean(f.name);
  }

  lemma ParseOneMore(p: seq<Byte>, compact: bool, pos: nat, left: nat, e: Entry, later: seq<Entry>)
    requires EntryFits(p, compact, pos) && EntryAt(p, compact, pos) == e
    requires ParseEntries(p, compact, EntryEnd(p, compact, pos), left) == PageResult(later, NoError)
    ensures ParseEntries(p, compact, pos, left + 1) == PageResult([e] + later, NoError)
  {
    hide EntryAt, EntryFits, EntryEnd;
  }

  lemma FirstEntry(fs: seq<FileInfo>, compact: bool)
    requires AllServable(fs) && fs != []
    ensures AllServable(fs[1..]) && Servable(fs[0])
    ensures EncodeEntries(fs, compact) == EncodeEntry(fs[0], compact) + EncodeEntries(fs[1..], compact)
    ensures SeenAll(fs, compact) == [Seen(fs[0], compact)] + SeenAll(fs[1..], compact)
  {
    hide Servable, EncodeEntry, Seen;
  }

  lemma {:induction false} EntriesRoundTrip(pre: seq<Byte>, fs: seq<FileInfo>, compact: bool)
    requires AllServable(fs)
    ensures ParseEntries(pre + EncodeEntries(fs, compact), compact, |pre|, |fs|) == PageResult(SeenAll(fs, compact), NoError)
    decreases |fs|
  {
    hide EncodeEntry, EncodeEntries, EntryFits, EntryAt, EntryEnd, Seen, SeenAll, Servable, AllServable, ParseEntries;
    if fs == [] {
      NothingEncoded(pre, compact);
    } else {
      FirstEntry(fs, compact);
      var e, rest := EncodeEntry(fs[0], compact), EncodeEntries(fs[1..], compact);
      var p := pre + EncodeEntries(fs, compact);
      assert p == pre + e + rest;
      EntryRoundTrip(pre, fs[0], compact, rest);
      EntriesRoundTrip(pre + e, fs[1..], compact);
      ParseOneMore(p, compact, |pre|, |fs[1..]|, Seen(fs[0], compact), SeenAll(fs[1..], compact));
    }
  }

  lemma NothingEncoded(pre: seq<Byte>, compact: bool)
    ensures ParseEntries(pre + EncodeEntries([], compact), compact, |pre|, 0) == PageResult(SeenAll([], compact), NoError)
  {
  }

  /** Decoding a page undoes encoding it, in compact and in full form. */
  lemma PageRoundTrip(fs: seq<FileInfo>, more: bool, compact: bool, reserved: seq<Byte>)
    requires AllServable(fs) && |reserved| == 4
    requires |fs| < TWO16 && |EncodeEntries(fs, compact)| + 10 <= IO_BUF_SIZE
    ensures var p := EncodePage(fs, more, compact, reserved);
      && 10 <= |p| <= IO_BUF_SIZE
      && ParsePage(p) == PageResult(SeenAll(fs, compact), NoError)
      && PageMore(p) == more && PageCompact(p) == compact && PageCount(p) == |fs|
  {
    hide EncodeEntries, PutU16le, GetU16le, ParseEntries, SeenAll;
    var body := EncodeEntries(fs, compact);
    var p := EncodePage(fs, more, compact, reserved);
    var start := [FILE_VERSION, (if more then 1 else 0) + (if compact then 2 else 0)] + reserved;
    assert p == start + PutU16le(|fs|) + (PutU16le(|body|) + body);
    U16RoundTrip(start, |fs|, PutU16le(|body|) + body);
    assert p == (start + PutU16le(|fs|)) + PutU16le(|body|) + body;
    U16RoundTrip(start + PutU16le(|fs|), |body|, body);
    assert p[0] == start[0] && p[1] == start[1];
    EntriesRoundTrip(start + PutU16le(|fs|) + PutU16le(|body|), fs, compact);
  }

  /** The reply is the page of k entries from index start, MORE being set exactly when entries remain,
      and a page with MORE is not empty. */
  ghost predicate ServesPage(dir: seq<FileInfo>, start: nat, k: nat, compact: bool, reserved: seq<Byte>, reply: Reply)
    requires AllServable(dir) && |dir| < TWO16
  {
    && start + k <= |dir| && (start + k < |dir| ==> k > 0) && |reserved| == 4
    && AllServable(dir[start..start + k])
    && |EncodeEntries(dir[start..start + k], compact)| + 10 <= IO_BUF_SIZE
    && reply == Replied(STATUS_OK, EncodePage(dir[start..start + k], start + k < |dir|, compact, reserved))
  }

  /** A truthful answer to a list request, with a page size and form of the service's choosing. */
  ghost predicate Truthful(dir: seq<FileInfo>, request: Request, reply: Reply)
    requires AllServable(dir) && |dir| < TWO16
  {
    IsListRequest(request.body) && DecodeList(request.body).start <= |dir| ==>
      exists k: nat, compact: bool, reserved: seq<Byte> ::
        ServesPage(dir, DecodeList(request.body).start, k, compact, reserved, reply)
  }

  lemma TruthfulStep(dir: seq<FileInfo>, start: U16, regs: Registers, request: Request, reply: Reply)
    returns (k: nat, compact: bool)
    requires AllServable(dir) && |dir| < TWO16 && start <= |dir| && regs.lastError == NoError
    requires IsListRequest(request.body) && DecodeList(request.body).start == start
    requires Truthful(dir, request, reply)
    ensures start + k <= |dir| && (start + k < |dir| ==> k > 0)
    ensures var step := OnePage(regs, reply);
      && step.regs.lastError == NoError && step.entries == SeenAll(dir[start..start + k], compact)
      && step.count == k && step.more == (start + k < |dir|)
  {
    hide EncodeEntries, ParsePage, EncodePage;
    var k0: nat, compact0: bool, reserved: seq<Byte> :| ServesPage(dir, start, k0, compact0, reserved, reply);
    k, compact := k0, compact0;
    PageRoundTrip(dir[start..start + k], start + k < |dir|, compact, reserved);
  }

  /** The i-th callback reports the i-th entry, in one of the two page forms. */
  ghost predicate Reports(trace: seq<Entry>, dir: seq<FileInfo>) {
    && |trace| == |dir|
    && forall i | 0 <= i < |dir| :: trace[i] == Seen(dir[i], true) || trace[i] == Seen(dir[i], false)
  }

  /** Every directory of at most 65535 entries, served truthfully page by page from the start index
      the client asks for, is delivered exactly: each entry once, in order, in at most
      max(1, number of entries) exchanges. */
  lemma {:induction false} ListingComplete(dir: seq<FileInfo>, uri: seq<Byte>, start: U16, regs: Registers, dosError: U16, replies: seq<Reply>)
    requires AllServable(dir) && |dir| < TWO16 && start <= |dir|
    requires |uri| < TWO16 && ListRequestFits(uri) && regs.lastError == NoError
    requires |replies| > |dir| - start
    requires var run := ListFrom(uri, start, regs, dosError, replies);
      forall i | 0 <= i < |run.requests| && i < |replies| :: Truthful(dir, run.requests[i], replies[i])
    ensures var run := ListFrom(uri, start, regs, dosError, replies);
      && run.regs.lastError == NoError
      && Reports(run.trace, dir[start..])
      && 0 < |run.requests| <= (if start == |dir| then 1 else |dir| - start)
      && run.rest == replies[|run.requests|..]
    decreases |dir| - start
  {
    hide ListRequest, ListRequestFits, OnePage, Truthful, Seen, DecodeList, IsListRequest, SeenAll;
    var run := ListFrom(uri, start, regs, dosError, replies);
    var request := Request(DEVICE_FILE, FILE_LIST_DIRECTORY, ListRequest(uri, start));
    assert run.requests[0] == request;
    ListRequestDecodes(uri, start);
    var k, compact := TruthfulStep(dir, start, regs, request, replies[0]);
    var step := OnePage(regs, replies[0]);
    SeenAllReports(dir[start..start + k], compact);
    if step.more {
      var next: U16 := start + k;
      var later := ListFrom(uri, next, step.regs, 0, replies[1..]);
      assert run.trace == step.entries + later.trace && run.requests == [request] + later.requests;
      LaterAnswers(dir, request, later.requests, replies);
      ListingComplete(dir, uri, next, step.regs, 0, replies[1..]);
      ReportsConcat(step.entries, later.trace, dir, start, next);
      assert replies[1..][|later.requests|..] == replies[1 + |later.requests|..];
    } else {
      assert dir[start..start + k] == dir[start..];
    }
  }

  lemma SeenAllReports(fs: seq<FileInfo>, compact: bool)
    ensures Reports(SeenAll(fs, compact), fs)
  {
    hide Seen;
  }

  lemma LaterAnswers(dir: seq<FileInfo>, request: Request, later: seq<Request>, replies: seq<Reply>)
    requires AllServable(dir) && |dir| < TWO16 && |replies| > 0
    requires var all := [request] + later;
      forall i | 0 <= i < |all| && i < |replies| :: Truthful(dir, all[i], replies[i])
    ensures forall i | 0 <= i < |later| && i < |replies[1..]| :: Truthful(dir, later[i], replies[1..][i])
  {
    hide Truthful;
    var all := [request] + later;
    forall i | 0 <= i < |later| && i < |replies[1..]|
      ensures Truthful(dir, later[i], replies[1..][i])
    {
      assert Truthful(dir, all[i + 1], replies[i + 1]);
    }
  }

  lemma ReportsConcat(a: seq<Entry>, b: seq<Entry>, dir: seq<FileInfo>, i: nat, j: nat)
    requires i <= j <= |dir| && Reports(a, dir[i..j]) && Reports(b, dir[j..])
    ensures Reports(a + b, dir[i..])
  {
    hide Seen;
    var t, d := a + b, dir[i..];
    forall n | 0 <= n < |d|
      ensures t[n] == Seen(d[n], true) || t[n] == Seen(d[n], false)
    {
      if n < j - i {
        assert t[n] == a[n] && d[n] == dir[i..j][n];
      } else {
        assert t[n] == b[n - (j - i)] && d[n] == dir[j..][n - (j - i)];
      }
    }
  }

  /** The public call: a truthful service and a URI that fits give a complete listing and return 1. */
  lemma ListDirectoryComplete(dir: seq<FileInfo>, uri: seq<Byte>, regs: Registers, dosError: U16, replies: seq<Reply>)
    requires AllServable(dir) && |dir| < TWO16 && |uri| <= 504 && |replies| > |dir|
    requires var run := List(uri, true, regs, dosError, replies);
      forall i | 0 <= i < |run.requests| && i < |replies| :: Truthful(dir, run.requests[i], replies[i])
    ensures var run := List(uri, true, regs, dosError, replies);
      run.regs.lastError == NoError && Reports(run.trace, dir)
  {
    hide Truthful, ListFrom;
    ListRequestWithinBuffer(uri, 0);
    ListRequestDecodes(uri, 0);
    ListingComplete(dir, uri, 0, CLEARED, dosError, replies);
    assert dir[0..] == dir;
  }

  // ----- a concrete service, paging by a fixed number of entries

  /** Pages of at most two entries, which fit the buffer whatever the names are. */
  function PageScript(dir: seq<FileInfo>, start: nat, pageSize: nat, compact: bool): seq<Reply>
    requires AllServable(dir) && |dir| < TWO16 && start <= |dir| && 1 <= pageSize <= 2
    decreases |dir| - start
  {
    var k := if start + pageSize <= |dir| then pageSize else |dir| - start;
    var fs := dir[start..start + k];
    EntriesLength(fs, compact);
    var page := Replied(STATUS_OK, EncodePage(fs, start + k < |dir|, compact, [0, 0, 0, 0]));
    if start + k < |dir| then [page] + PageScript(dir, start + k, pageSize, compact) else [page]
  }

  lemma {:induction false} EntriesLength(fs: seq<FileInfo>, compact: bool)
    requires AllServable(fs)
    ensures |EncodeEntries(fs, compact)| <= 238 * |fs|
    decreases |fs|
  {
    if fs != [] {
      EntriesLength(fs[1..], compact);
      assert Servable(fs[0]);
      assert |Times(fs[0], compact)| <= 16;
    }
  }

  /** Every reply answers the request in its place truthfully. */
  ghost predicate AllTruthful(dir: seq<FileInfo>, requests: seq<Request>, replies: seq<Reply>)
    requires AllServable(dir) && |dir| < TWO16
  {
    |requests| == |replies| && forall i | 0 <= i < |replies| :: Truthful(dir, requests[i], replies[i])
  }

  lemma AllTruthfulCons(dir: seq<FileInfo>, request: Request, reply: Reply, requests: seq<Request>, replies: seq<Reply>)
    requires AllServable(dir) && |dir| < TWO16
    requires Truthful(dir, request, reply) && AllTruthful(dir, requests, replies)
    ensures AllTruthful(dir, [request] + requests, [reply] + replies)
  {
    hide Truthful;
  }

  /** How a listing goes on from a page that succeeded. */
  lemma ListFromStep(uri: seq<Byte>, start: U16, regs: Registers, dosError: U16, reply: Reply, later: seq<Reply>)
    requires ListRequestFits(uri) && OnePage(regs, reply).regs.lastError == NoError
    requires OnePage(regs, reply).more ==> OnePage(regs, reply).count > 0
    ensures var step := OnePage(regs, reply);
      var request := Request(DEVICE_FILE, FILE_LIST_DIRECTORY, ListRequest(uri, start));
      ListFrom(uri, start, regs, dosError, [reply] + later) ==
        if !step.more then ListRun(step.entries, [request], step.regs, later)
        else
          var run := ListFrom(uri, Trunc16(start + step.count), step.regs, 0, later);
          ListRun(step.entries + run.trace, [request] + run.requests, run.regs, run.rest)
  {
    hide OnePage, ListRequest, ListRequestFits;
    assert ([reply] + later)[1..] == later;
  }

  lemma PageScriptCons(dir: seq<FileInfo>, start: nat, pageSize: nat, compact: bool)
    requires AllServable(dir) && |dir| < TWO16 && start <= |dir| && 1 <= pageSize <= 2
    ensures var k := if start + pageSize <= |dir| then pageSize else |dir| - start;
      var fs := dir[start..start + k];
      && AllServable(fs) && |EncodeEntries(fs, compact)| <= 238 * k
      && PageScript(dir, start, pageSize, compact)
           == [Replied(STATUS_OK, EncodePage(fs, start + k < |dir|, compact, [0, 0, 0, 0]))]
              + (if start + k < |dir| then PageScript(dir, start + k, pageSize, compact) else [])
  {
    hide EncodePage, EncodeEntries, Servable;
    var k := if start + pageSize <= |dir| then pageSize else |dir| - start;
    EntriesLength(dir[start..start + k], compact);
  }

  /** Every directory can be listed: every reply of this service is a truthful answer to the request it
      gets, and the client's trace is the directory, whatever the page size and form. */
  lemma {:induction false} PageScriptListsDirectory(dir: seq<FileInfo>, uri: seq<Byte>, start: U16, regs: Registers, dosError: U16,
                                                    pageSize: nat, compact: bool)
    requires AllServable(dir) && |dir| < TWO16 && start <= |dir| && 1 <= pageSize <= 2
    requires |uri| < TWO16 && ListRequestFits(uri) && regs.lastError == NoError
    ensures var replies := PageScript(dir, start, pageSize, compact);
      var run := ListFrom(uri, start, regs, dosError, replies);
      && run.trace == SeenAll(dir[start..], compact) && run.regs.lastError == NoError && run.rest == []
      && AllTruthful(dir, run.requests, replies)
    decreases |dir| - start
  {
    hide PageScript, ListFrom, ListRequest, ListRequestFits, OnePage, EncodePage, SeenAll, EncodeEntries, AllServable, Truthful, AllTruthful;
    var k := if start + pageSize <= |dir| then pageSize else |dir| - start;
    var fs := dir[start..start + k];
    SlicesServable(dir, start, start + k);
    var replies := PageScript(dir, start, pageSize, compact);
    var later := if start + k < |dir| then PageScript(dir, start + k, pageSize, compact) else [];
    PageScriptCons(dir, start, pageSize, compact);
    EntriesLength(fs, compact);
    PageStepOf(fs, start + k < |dir|, compact, regs);
    SeenAllConcat(fs, dir[start + k..], compact);
    assert fs + dir[start + k..] == dir[start..];
    PageIsTruthful(dir, uri, start, k, compact);
    ListFromStep(uri, start, regs, dosError, replies[0], later);
    var request := Request(DEVICE_FILE, FILE_LIST_DIRECTORY, ListRequest(uri, start));
    if start + k < |dir| {
      var next := OnePage(regs, replies[0]).regs;
      PageScriptListsDirectory(dir, uri, start + k, next, 0, pageSize, compact);
      AllTruthfulCons(dir, request, replies[0], ListFrom(uri, start + k, next, 0, later).requests, later);
    } else {
      SeenNone(compact);
      assert replies == [replies[0]];
      OneTruthful(dir, request, replies[0]);
    }
  }

  lemma OneTruthful(dir: seq<FileInfo>, request: Request, reply: Reply)
    requires AllServable(dir) && |dir| < TWO16 && Truthful(dir, request, reply)
    ensures AllTruthful(dir, [request], [reply])
  {
    hide Truthful;
  }

  lemma PageIsTruthful(dir: seq<FileInfo>, uri: seq<Byte>, start: U16, k: nat, compact: bool)
    requires AllServable(dir) && |dir| < TWO16 && |uri| < TWO16 && start + k <= |dir| && k <= 2
    requires start + k < |dir| ==> k > 0
    requires AllServable(dir[start..start + k]) && |EncodeEntries(dir[start..start + k], compact)| <= 238 * k
    ensures var request := Request(DEVICE_FILE, FILE_LIST_DIRECTORY, ListRequest(uri, start));
      Truthful(dir, request,
               Replied(STATUS_OK, EncodePage(dir[start..start + k], start + k < |dir|, compact, [0, 0, 0, 0])))
  {
    hide ListRequest, EncodePage, EncodeEntries, IsListRequest, DecodeList, AllServable;
    ListRequestDecodes(uri, start);
    assert ServesPage(dir, start, k, compact, [0, 0, 0, 0],
                      Replied(STATUS_OK, EncodePage(dir[start..start + k], start + k < |dir|, compact, [0, 0, 0, 0])));
  }

  lemma SlicesServable(dir: seq<FileInfo>, i: nat, j: nat)
    requires AllServable(dir) && i <= j <= |dir|
    ensures AllServable(dir[i..j]) && AllServable(dir[j..])
  {
    hide Servable;
  }

  lemma PageStepOf(fs: seq<FileInfo>, more: bool, compact: bool, regs: Registers)
    requires AllServable(fs) && |fs| <= 2 && |EncodeEntries(fs, compact)| <= 238 * |fs| && regs.lastError == NoError
    ensures var step := OnePage(regs, Replied(STATUS_OK, EncodePage(fs, more, compact, [0, 0, 0, 0])));
      && step.entries == SeenAll(fs, compact) && step.more == more && step.count == |fs|
      && step.regs.lastError == NoError
  {
    hide ParsePage, EncodePage, SeenAll, EncodeEntries;
    PageRoundTrip(fs, more, compact, [0, 0, 0, 0]);
  }

  lemma SeenNone(compact: bool)
    ensures SeenAll([], compact) == []
  {
  }

  lemma SeenAllConcat(a: seq<FileInfo>, b: seq<FileInfo>, compact: bool)
    ensures SeenAll(a + b, compact) == SeenAll(a, compact) + SeenAll(b, compact)
  {
    hide Seen, SeenAll;
    var t, u := SeenAll(a + b, compact), SeenAll(a, compact) + SeenAll(b, compact);
    assert |t| == |u|;
    forall i | 0 <= i < |t|
      ensures t[i] == u[i]
    {
      assert t[i] == Seen((a + b)[i], compact);
    }
  }

  // ----- replies byte by byte

  /** The fields of an entry lie where the format puts them: flags and name length, the name, and in full
      form the low halves of the size, right behind the name, and of the time, eight bytes on. */
  lemma EntryFields(p: seq<Byte>, compact: bool, pos: nat)
    requires EntryFits(p, compact, pos)
    ensures var e, at := EntryAt(p, compact, pos), pos + 2 + p[pos + 1];
      && (e.isDir <==> p[pos] % 2 == 1)
      && e.name == UpToNul(p[pos + 2..at])
      && (compact ==> e.size == e.mtime == 0)
      && (!compact ==> e.size == GetU32le(p, at) && e.mtime == GetU32le(p, at + 8))
      && EntryEnd(p, compact, pos) == at + if compact then 0 else 16
  {
    hide UpToNul, GetU32le;
  }

  /** Bit 0 of the page flags says MORE, bit 1 says compact, and the count follows the reserved bytes. */
  lemma PageFields(p: seq<Byte>)
    requires |p| >= 10
    ensures PageCount(p) % 0x100 == p[6] && PageCount(p) / 0x100 == p[7]
    ensures p[1] % 4 == (if PageMore(p) then 1 else 0) + (if PageCompact(p) then 2 else 0)
  {
  }
}
