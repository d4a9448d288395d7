/** The reply loop: a sliding buffer over received datagrams, and when a run ends. */
module Reply {
  import opened Bytes
  import opened Schema
  import opened Encoder
  import opened Decoder
  import opened Messages

  datatype QueryError =
    | NetlinkRecvError
    | ProcessNetlinkError(cause: DecodeError)
    | NetlinkError(code: nat)
    | UndecidableMessageTermination
    | CallbackError(id: int)

  datatype Reaction<+T> = Reaction(error: Option<QueryError>, data: T)

  /** The callback gets one message and the working data. */
  type Callback<!T> = Option<(bytes, T) -> Reaction<T>>

  /** What `recv` does: deliver a datagram or fail. */
  datatype Recv = Datagram(data: bytes) | Failed

  /** Where a run stands: still going, returned (with an error or without), or panicked. */
  datatype Run<+T> = Going(data: T) | Returned(error: Option<QueryError>, data: T) | Panicked

  // ----- the run as a function -----

  /** What one message does to the run. */
  function React<T>(p: Parsed, whole: bytes, maxSeq: Option<nat>, cb: Callback<T>, data: T): Run<T> {
    if p.msg.Done? then Returned(None, data)
    else if p.msg.Error? && p.msg.code != 0 then Returned(Some(NetlinkError(p.msg.code)), data)
    else
      var r := if p.msg.NfGenMsg? && cb.Some? then cb.value(whole, data) else Reaction(None, data);
      if r.error.Some? then Returned(r.error, r.data)
      else if maxSeq.None? && !HasFlag(p.hdr.flags, NLM_F_MULTI) then
        Returned(Some(UndecidableMessageTermination), r.data)
      else if maxSeq.Some? && p.hdr.seqno >= maxSeq.value then Returned(None, r.data)
      else Going(r.data)
  }

  /** The messages in one stretch of bytes, until it is used up or the run ends. */
  function Drain<T>(buf: bytes, maxSeq: Option<nat>, cb: Callback<T>, data: T): Run<T>
    decreases |buf|
  {
    if buf == [] then Going(data)
    else match ParseNlmsg(buf)
      case Err(e) => Returned(Some(ProcessNetlinkError(e)), data)
      case Panic => Panicked
      case Ok(p) =>
        var r := React(p, buf[..p.hdr.len], maxSeq, cb, data);
        if !r.Going? then r
        else if Pad(p.hdr.len) > |buf| then Panicked
        else Drain(buf[Pad(p.hdr.len)..], maxSeq, cb, r.data)
  }

  function Min(a: nat, b: nat): nat { if a < b then a else b }

  /** All receives, with `used` bytes of the `2 * maxSize` buffer already spent.  A datagram longer
      than the free space is cut off by `recv`; after the last one, `recv` returns nothing. */
  function Receive<T>(maxSize: nat, used: nat, rs: seq<Recv>, maxSeq: Option<nat>, cb: Callback<T>, data: T): Run<T>
    requires used < maxSize
    decreases |rs|
  {
    if rs == [] then Returned(None, data)
    else if rs[0].Failed? then Returned(Some(NetlinkRecvError), data)
    else
      var chunk := rs[0].data[..Min(|rs[0].data|, 2 * maxSize - used)];
      if chunk == [] then Returned(None, data)
      else
        var r := Drain(chunk, maxSeq, cb, data);
        if !r.Going? then r
        else Receive(maxSize, if used + |chunk| >= maxSize then 0 else used + |chunk|, rs[1..], maxSeq, cb, r.data)
  }

  // ----- the loop -----

  /** The inner loop: messages are taken out of the received bytes until there are none left. */
  method ProcessReceived<T>(msgBuffer: array<byte>, start: nat, endPos: nat, maxSeq: Option<nat>, cb: Callback<T>,
                            initial: T)
    returns (run: Run<T>, bufStart: nat)
    requires start <= endPos <= msgBuffer.Length
    ensures run == Drain(msgBuffer[start..endPos], maxSeq, cb, initial)
    ensures run.Going? ==> bufStart == endPos
  {
    hide ParseNlmsg, React;
    bufStart := start;
    var data := initial;
    while true
      invariant start <= bufStart <= endPos
      invariant Drain(msgBuffer[start..endPos], maxSeq, cb, initial) ==
                Drain(msgBuffer[bufStart..endPos], maxSeq, cb, data)
      decreases endPos - bufStart
    {
      var buf := msgBuffer[bufStart..endPos];
      if |buf| == 0 { break; }
      var parsed := ParseNlmsg(buf);
      if parsed.Err? { return Returned(Some(ProcessNetlinkError(parsed.error)), data), bufStart; }
      if parsed.Panic? { return Panicked, bufStart; }
      var r := React(parsed.value, buf[..parsed.value.hdr.len], maxSeq, cb, data);
      if !r.Going? { return r, bufStart; }
      data := r.data;
      var alignedLength := Pad(parsed.value.hdr.len);
      if bufStart + alignedLength > endPos { return Panicked, bufStart; }
      assert buf[alignedLength..] == msgBuffer[bufStart + alignedLength..endPos];
      bufStart := bufStart + alignedLength;
    }
    run := Going(data);
  }

  /** `recv_and_process`.  Before every receive the buffer is used up, and more than `maxSize` bytes of
      it are free, for every reply whatsoever; the relocation of unread bytes is never reached. */
  method RecvAndProcess<T>(maxSize: nat, rs: seq<Recv>, maxSeq: Option<nat>, cb: Callback<T>, initial: T)
    returns (run: Run<T>)
    requires maxSize > 0
    ensures run == Receive(maxSize, 0, rs, maxSeq, cb, initial)
    ensures !run.Going?
  {
    hide Drain;
    var msgBuffer := new byte[2 * maxSize](i => 0);
    var bufStart: nat, endPos: nat := 0, 0;
    var data := initial;
    var turn := 0;
    while true
      invariant turn <= |rs|
      invariant bufStart == endPos < maxSize
      invariant Receive(maxSize, 0, rs, maxSeq, cb, initial) == Receive(maxSize, endPos, rs[turn..], maxSeq, cb, data)
      decreases |rs| - turn
    {
      if turn == |rs| { return Returned(None, data); }
      if rs[turn].Failed? { return Returned(Some(NetlinkRecvError), data); }
      var nbRecv := Min(|rs[turn].data|, msgBuffer.Length - endPos);
      if nbRecv == 0 { return Returned(None, data); }
      var chunk := rs[turn].data[..nbRecv];
      CopyFromSlice(chunk, msgBuffer, endPos);
      assert rs[turn..][1..] == rs[turn + 1..];
      turn := turn + 1;
      endPos := endPos + nbRecv;
      assert msgBuffer[bufStart..endPos] == chunk;
      run, bufStart := ProcessReceived(msgBuffer, bufStart, endPos, maxSeq, cb, data);
      if !run.Going? { return; }
      data := run.data;
      if endPos >= maxSize {
        if bufStart < endPos {
          assert false;
        }
        endPos := endPos - bufStart;
        bufStart := 0;
      }
    }
  }

  // ----- replies made of whole messages -----

  /** A message of its own length, which is a multiple of 4. */
  predicate WholeMessage(b: bytes) {
    |b| >= NLMSG_HDRLEN && ReadHdr(b).len == |b| && |b| % 4 == 0
  }

  predicate AllWhole(ms: seq<bytes>) {
    forall i | 0 <= i < |ms| :: WholeMessage(ms[i])
  }

  function Concat(ms: seq<bytes>): bytes {
    if ms == [] then [] else ms[0] + Concat(ms[1..])
  }

  /** The plain scan: message by message, left to right. */
  function Scan<T>(ms: seq<bytes>, maxSeq: Option<nat>, cb: Callback<T>, data: T): Run<T>
    requires AllWhole(ms)
    decreases |ms|
  {
    if ms == [] then Going(data)
    else match ParseNlmsg(ms[0])
      case Err(e) => Returned(Some(ProcessNetlinkError(e)), data)
      case Panic => Panicked
      case Ok(p) =>
        var r := React(p, ms[0], maxSeq, cb, data);
        if r.Going? then Scan(ms[1..], maxSeq, cb, r.data) else r
  }

  lemma {:induction false} HdrPrefix(b: bytes, rest: bytes)
    requires |b| >= NLMSG_HDRLEN
    ensures ReadHdr(b + rest) == ReadHdr(b)
  {
    var buf := b + rest;
    assert buf[0..4] == b[0..4] && buf[4..6] == b[4..6] && buf[6..8] == b[6..8];
    assert buf[8..12] == b[8..12] && buf[12..16] == b[12..16];
  }

  /** What follows a whole message does not change how it is parsed. */
  lemma {:induction false} WholePrefix(b: bytes, rest: bytes)
    requires WholeMessage(b)
    ensures ParseNlmsg(b + rest) == ParseNlmsg(b)
  {
    var buf := b + rest;
    HdrPrefix(b, rest);
    if |b| >= HEADERS_LEN {
      assert buf[16..20] == b[16..20];
      assert buf[HEADERS_LEN..|b|] == b[HEADERS_LEN..|b|];
    }
  }

  lemma {:induction false} DrainIsScan<T>(ms: seq<bytes>, tail: bytes, maxSeq: Option<nat>, cb: Callback<T>, data: T)
    requires AllWhole(ms)
    ensures var r := Scan(ms, maxSeq, cb, data);
            Drain(Concat(ms) + tail, maxSeq, cb, data) == if r.Going? then Drain(tail, maxSeq, cb, r.data) else r
    decreases |ms|
  {
    if ms == [] {
      assert Concat(ms) + tail == tail;
    } else {
      var m, rest := ms[0], Concat(ms[1..]) + tail;
      assert Concat(ms) + tail == m + rest;
      WholePrefix(m, rest);
      PadAligned(|m|);
      assert (m + rest)[..|m|] == m && (m + rest)[|m|..] == rest;
      var p := ParseNlmsg(m);
      if p.Ok? {
        var r := React(p.value, m, maxSeq, cb, data);
        if r.Going? { DrainIsScan(ms[1..], tail, maxSeq, cb, r.data); }
      }
    }
  }

  lemma {:induction false} ScanAppend<T>(ms: seq<bytes>, ns: seq<bytes>, maxSeq: Option<nat>, cb: Callback<T>, data: T)
    requires AllWhole(ms) && AllWhole(ns)
    ensures var r := Scan(ms, maxSeq, cb, data);
            AllWhole(ms + ns) &&
            Scan(ms + ns, maxSeq, cb, data) == if r.Going? then Scan(ns, maxSeq, cb, r.data) else r
    decreases |ms|
  {
    if ms == [] {
      assert ms + ns == ns;
    } else {
      assert (ms + ns)[0] == ms[0] && (ms + ns)[1..] == ms[1..] + ns;
      var p := ParseNlmsg(ms[0]);
      if p.Ok? {
        var r := React(p.value, ms[0], maxSeq, cb, data);
        if r.Going? { ScanAppend(ms[1..], ns, maxSeq, cb, r.data); }
      }
    }
  }

  /** Groups of whole messages, one non-empty datagram per group. */
  predicate Groups(maxSize: nat, gs: seq<seq<bytes>>) {
    forall i | 0 <= i < |gs| :: gs[i] != [] && AllWhole(gs[i]) && |Concat(gs[i])| <= maxSize
  }

  function Datagrams(gs: seq<seq<bytes>>): (rs: seq<Recv>)
    ensures |rs| == |gs|
  {
    if gs == [] then [] else [Datagram(Concat(gs[0]))] + Datagrams(gs[1..])
  }

  function Flatten(gs: seq<seq<bytes>>): seq<bytes> {
    if gs == [] then [] else gs[0] + Flatten(gs[1..])
  }

  lemma {:induction false} FlattenWhole(maxSize: nat, gs: seq<seq<bytes>>)
    requires Groups(maxSize, gs)
    ensures AllWhole(Flatten(gs))
  {
    if gs == [] {
    } else {
      FlattenWhole(maxSize, gs[1..]);
    }
  }

  /** A run that is still going when nothing more is received returns without an error. */
  function Finished<T>(r: Run<T>): Run<T> {
    if r.Going? then Returned(None, r.data) else r
  }

  /** One receive of a datagram that fits. */
  lemma {:induction false} ReceiveOne<T>(maxSize: nat, used: nat, chunk: bytes, rs: seq<Recv>, maxSeq: Option<nat>,
                                         cb: Callback<T>, data: T)
    requires used < maxSize && 0 < |chunk| <= maxSize
    ensures var r, now := Drain(chunk, maxSeq, cb, data), used + |chunk|;
            Receive(maxSize, used, [Datagram(chunk)] + rs, maxSeq, cb, data) ==
            if r.Going? then Receive(maxSize, if now >= maxSize then 0 else now, rs, maxSeq, cb, r.data) else r
  {
    hide Drain;
    assert ([Datagram(chunk)] + rs)[1..] == rs;
    assert chunk[..|chunk|] == chunk;
  }

  lemma {:induction false} DrainNothing<T>(maxSeq: Option<nat>, cb: Callback<T>, data: T)
    ensures Drain([], maxSeq, cb, data) == Going(data)
  {}

  /** One receive of a group of whole messages. */
  lemma {:induction false} ReceiveGroup<T>(maxSize: nat, used: nat, g: seq<bytes>, rs: seq<Recv>, maxSeq: Option<nat>,
                                           cb: Callback<T>, data: T)
    requires used < maxSize && g != [] && AllWhole(g) && |Concat(g)| <= maxSize
    ensures var r, now := Scan(g, maxSeq, cb, data), used + |Concat(g)|;
            Receive(maxSize, used, [Datagram(Concat(g))] + rs, maxSeq, cb, data) ==
            if r.Going? then Receive(maxSize, if now >= maxSize then 0 else now, rs, maxSeq, cb, r.data) else r
  {
    hide Receive, Scan, Drain, ReadHdr;
    var chunk := Concat(g);
    var r := Scan(g, maxSeq, cb, data);
    if r.Going? { DrainNothing(maxSeq, cb, r.data); }
    DrainIsScan(g, [], maxSeq, cb, data);
    assert chunk + [] == chunk;
    assert |chunk| >= |g[0]| > 0;
    ReceiveOne(maxSize, used, chunk, rs, maxSeq, cb, data);
  }

  /** However the messages of a reply are distributed over datagrams, the callbacks made and the
      result are those of the plain scan over all of them. */
  lemma {:induction false} ChunkingIndependence<T>(maxSize: nat, used: nat, gs: seq<seq<bytes>>, maxSeq: Option<nat>,
                                                   cb: Callback<T>, data: T)
    requires used < maxSize && Groups(maxSize, gs)
    ensures AllWhole(Flatten(gs))
    ensures Receive(maxSize, used, Datagrams(gs), maxSeq, cb, data) == Finished(Scan(Flatten(gs), maxSeq, cb, data))
    decreases |gs|
  {
    hide ParseNlmsg, React, Drain, Concat;
    FlattenWhole(maxSize, gs);
    if gs == [] {
    } else {
      var g, rest := gs[0], gs[1..];
      FlattenWhole(maxSize, rest);
      ScanAppend(g, Flatten(rest), maxSeq, cb, data);
      ReceiveGroup(maxSize, used, g, Datagrams(rest), maxSeq, cb, data);
      var r, now := Scan(g, maxSeq, cb, data), used + |Concat(g)|;
      if r.Going? { ChunkingIndependence(maxSize, if now >= maxSize then 0 else now, rest, maxSeq, cb, r.data); }
    }
  }

  /** What is left of a message cut off by the end of its datagram is not parsed. */
  lemma {:induction false} CutMessageFails<T>(ms: seq<bytes>, b: bytes, cut: nat, maxSeq: Option<nat>,
                                              cb: Callback<T>, data: T)
    requires AllWhole(ms) && WholeMessage(b) && 0 < cut < |b| && Scan(ms, maxSeq, cb, data).Going?
    ensures Drain(Concat(ms) + b[..cut], maxSeq, cb, data) == CutResult(cut, Scan(ms, maxSeq, cb, data).data)
  {
    DrainIsScan(ms, b[..cut], maxSeq, cb, data);
    if cut >= NLMSG_HDRLEN {
      HdrPrefix(b[..cut], b[cut..]);
      assert b[..cut] + b[cut..] == b;
    }
  }

  function CutResult<T>(cut: nat, data: T): Run<T> {
    Returned(Some(ProcessNetlinkError(if cut < NLMSG_HDRLEN then BufTooSmall else NlMsgTooSmall)), data)
  }

  /** The groups matter: a run that gets to a datagram which ends inside a message fails there, since an
      incomplete message is not kept for the next receive, whatever `more` would bring. */
  lemma {:induction false} CutDatagramFails<T>(maxSize: nat, used: nat, gs: seq<seq<bytes>>, ms: seq<bytes>, b: bytes,
                                               cut: nat, more: seq<Recv>, maxSeq: Option<nat>, cb: Callback<T>, data: T)
    requires used < maxSize && Groups(maxSize, gs) && AllWhole(ms) && AllWhole(Flatten(gs) + ms)
    requires WholeMessage(b) && 0 < cut < |b| && |Concat(ms)| + cut <= maxSize
    requires Scan(Flatten(gs) + ms, maxSeq, cb, data).Going?
    ensures Receive(maxSize, used, Datagrams(gs) + ([Datagram(Concat(ms) + b[..cut])] + more), maxSeq, cb, data) ==
            CutResult(cut, Scan(Flatten(gs) + ms, maxSeq, cb, data).data)
    decreases |gs|
  {
    hide Receive, Scan, Drain, Concat;
    var last := Concat(ms) + b[..cut];
    var end := [Datagram(last)] + more;
    if gs == [] {
      assert Flatten(gs) + ms == ms;
      assert Datagrams(gs) + end == end;
      CutMessageFails(ms, b, cut, maxSeq, cb, data);
      ReceiveOne(maxSize, used, last, more, maxSeq, cb, data);
    } else {
      var g, rest := gs[0], gs[1..];
      assert Flatten(gs) + ms == g + (Flatten(rest) + ms);
      assert Datagrams(gs) + end == [Datagram(Concat(g))] + (Datagrams(rest) + end);
      FlattenWhole(maxSize, rest);
      ScanAppend(g, Flatten(rest) + ms, maxSeq, cb, data);
      ReceiveGroup(maxSize, used, g, Datagrams(rest) + end, maxSeq, cb, data);
      var r, now := Scan(g, maxSeq, cb, data), used + |Concat(g)|;
      CutDatagramFails(maxSize, if now >= maxSize then 0 else now, rest, ms, b, cut, more, maxSeq, cb, r.data);
    }
  }

  // ----- what the callback gets -----

  /** A message of the nftables subsystem or a batch marker, which is what callbacks are called on. */
  ghost predicate Carrying(b: bytes) {
    var p := ParseNlmsg(b);
    p.Ok? && p.value.msg.NfGenMsg?
  }

  /** A message that ends nothing by itself: no `Done`, no error, and not the last one expected; if no number is
      awaited, it must announce more. */
  ghost predicate Passing(b: bytes, maxSeq: Option<nat>) {
    var p := ParseNlmsg(b);
    && p.Ok? && !p.value.msg.Done? && (p.value.msg.Error? ==> p.value.msg.code == 0)
    && if maxSeq.Some? then p.value.hdr.seqno < maxSeq.value else BitAnd(16, p.value.hdr.flags, 0x2) != 0
  }

  /** The callback over all messages that carry something, left to right. */
  ghost function Deliver<T>(ms: seq<bytes>, f: (bytes, T) -> Reaction<T>, data: T): T
    decreases |ms|
  {
    if ms == [] then data
    else Deliver(ms[1..], f, if Carrying(ms[0]) then f(ms[0], data).data else data)
  }

  /** The callback accepts what it gets on the way. */
  ghost predicate NeverFails<T>(ms: seq<bytes>, f: (bytes, T) -> Reaction<T>, data: T)
    decreases |ms|
  {
    ms == [] ||
    if Carrying(ms[0]) then f(ms[0], data).error.None? && NeverFails(ms[1..], f, f(ms[0], data).data)
    else NeverFails(ms[1..], f, data)
  }

  /** As long as messages pass and the callback does not fail, the run goes on, with what was delivered. */
  lemma {:induction false} PassingDelivers<T>(ms: seq<bytes>, maxSeq: Option<nat>, f: (bytes, T) -> Reaction<T>,
                                              data: T)
    requires AllWhole(ms) && NeverFails(ms, f, data) && forall i | 0 <= i < |ms| :: Passing(ms[i], maxSeq)
    ensures Scan(ms, maxSeq, Some(f), data) == Going(Deliver(ms, f, data))
    decreases |ms|
  {
    hide ParseNlmsg, WholeMessage, BitAnd;
    if ms == [] {
    } else {
      MultiFlag(ms[0]);
      assert Passing(ms[0], maxSeq);
      PassingDelivers(ms[1..], maxSeq, f, if Carrying(ms[0]) then f(ms[0], data).data else data);
    }
  }

  lemma {:induction false} MultiFlag(b: bytes)
    requires WholeMessage(b)
    ensures var flags := ReadHdr(b).flags; HasFlag(flags, NLM_F_MULTI) <==> BitAnd(16, flags, 0x2) != 0
  {
    Pow256Values();
    BitFields(ReadHdr(b).flags, 0);
  }

  /** How a run can end on a message: with `Done`; with an error; with the error of the callback; on a message
      that announces no more although no number is awaited, but only after the callback; or on the number that
      is awaited, after the callback as well. */
  lemma {:induction false} RunEndsOn<T>(b: bytes, maxSeq: Option<nat>, f: (bytes, T) -> Reaction<T>, data: T)
    requires WholeMessage(b) && AllWhole([b]) && ParseNlmsg(b).Ok?
    ensures var p, r := ParseNlmsg(b).value, Scan([b], maxSeq, Some(f), data);
            var now := if Carrying(b) then f(b, data) else Reaction(None, data);
            if p.msg.Done? then r == Returned(None, data)
            else if p.msg.Error? && p.msg.code != 0 then r == Returned(Some(NetlinkError(p.msg.code)), data)
            else if now.error.Some? then r == Returned(now.error, now.data)
            else if maxSeq.None? && BitAnd(16, p.hdr.flags, 0x2) == 0 then
              r == Returned(Some(UndecidableMessageTermination), now.data)
            else if maxSeq.Some? && p.hdr.seqno >= maxSeq.value then r == Returned(None, now.data)
            else r == Going(now.data)
  {
    hide ParseNlmsg, WholeMessage, BitAnd;
    MultiFlag(b);
    assert [b][1..] == [];
  }

  /** A listing, however it is split into datagrams: objects that announce more, then `Done`.  The callback is
      called on each of them, in order, and what it collects is returned without an error. */
  lemma {:induction false} ListingCollects<T>(maxSize: nat, gs: seq<seq<bytes>>, ms: seq<bytes>, done: bytes,
                                              f: (bytes, T) -> Reaction<T>, data: T)
    requires maxSize > 0 && Groups(maxSize, gs) && Flatten(gs) == ms + [done]
    requires forall i | 0 <= i < |ms| :: Passing(ms[i], None) && Carrying(ms[i])
    requires NeverFails(ms, f, data) && ParseNlmsg(done).Ok? && ParseNlmsg(done).value.msg.Done?
    ensures Receive(maxSize, 0, Datagrams(gs), None, Some(f), data) == Returned(None, Deliver(ms, f, data))
  {
    hide ParseNlmsg, WholeMessage, Receive, Scan, Deliver, NeverFails;
    ChunkingIndependence(maxSize, 0, gs, None, Some(f), data);
    WholeParts(ms, done);
    PassingDelivers(ms, None, f, data);
    ScanAppend(ms, [done], None, Some(f), data);
    RunEndsOn(done, None, f, Deliver(ms, f, data));
  }

  lemma {:induction false} WholeParts(ms: seq<bytes>, b: bytes)
    requires AllWhole(ms + [b])
    ensures AllWhole(ms) && AllWhole([b]) && WholeMessage(b)
  {
    hide WholeMessage;
    assert (ms + [b])[|ms|] == b;
    forall i | 0 <= i < |ms| ensures WholeMessage(ms[i]) { assert (ms + [b])[i] == ms[i]; }
  }

  /** After datagrams of whole messages, a receive that fails is an error and an empty one ends the run without;
      nothing behind either is received. */
  lemma {:induction false} LastReceive<T>(maxSize: nat, used: nat, gs: seq<seq<bytes>>, last: Recv, more: seq<Recv>,
                                          maxSeq: Option<nat>, cb: Callback<T>, data: T)
    requires used < maxSize && Groups(maxSize, gs) && (last.Failed? || last.data == [])
    requires AllWhole(Flatten(gs)) && Scan(Flatten(gs), maxSeq, cb, data).Going?
    ensures Receive(maxSize, used, Datagrams(gs) + ([last] + more), maxSeq, cb, data) ==
            Returned(if last.Failed? then Some(NetlinkRecvError) else None, Scan(Flatten(gs), maxSeq, cb, data).data)
    decreases |gs|
  {
    hide Scan, Drain, Concat, WholeMessage;
    if gs == [] {
      assert Datagrams(gs) + ([last] + more) == [last] + more;
      ScanNothing(maxSeq, cb, data);
    } else {
      var g, rest := gs[0], gs[1..];
      assert Datagrams(gs) + ([last] + more) == [Datagram(Concat(g))] + (Datagrams(rest) + ([last] + more));
      FlattenWhole(maxSize, rest);
      ScanAppend(g, Flatten(rest), maxSeq, cb, data);
      ReceiveGroup(maxSize, used, g, Datagrams(rest) + ([last] + more), maxSeq, cb, data);
      var r, now := Scan(g, maxSeq, cb, data), used + |Concat(g)|;
      LastReceive(maxSize, if now >= maxSize then 0 else now, rest, last, more, maxSeq, cb, r.data);
    }
  }

  lemma {:induction false} ScanNothing<T>(maxSeq: Option<nat>, cb: Callback<T>, data: T)
    ensures Scan([], maxSeq, cb, data) == Going(data)
  {}

  // ----- acknowledgements of a batch -----

  /** How many messages a scan looks at. */
  function Consumed<T>(ms: seq<bytes>, maxSeq: Option<nat>, cb: Callback<T>, data: T): (n: nat)
    requires AllWhole(ms)
    ensures n <= |ms|
    decreases |ms|
  {
    if ms == [] then 0
    else match ParseNlmsg(ms[0])
      case Ok(p) =>
        var r := React(p, ms[0], maxSeq, cb, data);
        if r.Going? then 1 + Consumed(ms[1..], maxSeq, cb, r.data) else 1
      case _ => 1
  }

  /** Ends the run: `Done`, or a sequence number that reaches the awaited one. */
  ghost predicate Final(b: bytes, max: nat) {
    var p := ParseNlmsg(b);
    p.Ok? && (p.value.msg.Done? || p.value.hdr.seqno >= max)
  }

  ghost predicate Benign(b: bytes) {
    var p := ParseNlmsg(b);
    p.Ok? && (p.value.msg.Error? ==> p.value.msg.code == 0)
  }

  /** All messages up to some final one are benign. */
  ghost predicate EndsWell(ms: seq<bytes>, max: nat) {
    exists k | 0 <= k < |ms| :: Final(ms[k], max) && forall i | 0 <= i <= k :: Benign(ms[i])
  }

  /** Nothing is wrong, but nothing is final either. */
  ghost predicate StopsShort(ms: seq<bytes>, max: nat) {
    forall i | 0 <= i < |ms| :: Benign(ms[i]) && !Final(ms[i], max)
  }

  lemma {:induction false} EndsWellUnfolds(ms: seq<bytes>, max: nat)
    requires ms != []
    ensures EndsWell(ms, max) <==> Benign(ms[0]) && (Final(ms[0], max) || EndsWell(ms[1..], max))
    ensures StopsShort(ms, max) <==> Benign(ms[0]) && !Final(ms[0], max) && StopsShort(ms[1..], max)
  {
    hide Benign, Final;
    var rest := ms[1..];
    assert forall i | 0 < i < |ms| :: ms[i] == rest[i - 1];
    if EndsWell(rest, max) && Benign(ms[0]) {
      var k :| 0 <= k < |rest| && Final(rest[k], max) && forall i | 0 <= i <= k :: Benign(rest[i]);
      assert Final(ms[k + 1], max);
    }
    if EndsWell(ms, max) && !Final(ms[0], max) {
      var k :| 0 <= k < |ms| && Final(ms[k], max) && forall i | 0 <= i <= k :: Benign(ms[i]);
      assert Final(rest[k - 1], max);
    }
    if StopsShort(ms, max) {
      forall i | 0 <= i < |rest| ensures Benign(rest[i]) && !Final(rest[i], max) { assert rest[i] == ms[i + 1]; }
    }
  }

  lemma {:induction false} ScanEndsIff<T>(ms: seq<bytes>, max: nat, data: T)
    requires AllWhole(ms)
    ensures Scan(ms, Some(max), None, data) == Returned(None, data) <==> EndsWell(ms, max)
    ensures Scan(ms, Some(max), None, data) == Going(data) <==> StopsShort(ms, max)
    ensures Scan(ms, Some(max), None, data).Going? ==> Scan(ms, Some(max), None, data).data == data
    decreases |ms|
  {
    hide ParseNlmsg, EndsWell, StopsShort;
    if ms == [] {
      NothingEnds(max);
    } else {
      EndsWellUnfolds(ms, max);
      ScanEndsIff(ms[1..], max, data);
    }
  }

  lemma {:induction false} NothingEnds(max: nat)
    ensures !EndsWell([], max) && StopsShort([], max)
  {}

  /** For every reply, in any datagrams and without a callback: the run returns success exactly when
      either everything up to some final message is benign, or the reply ends before a final message
      with nothing wrong in it. */
  lemma {:induction false} SuccessIff<T>(maxSize: nat, gs: seq<seq<bytes>>, max: nat, data: T)
    requires maxSize > 0 && Groups(maxSize, gs)
    ensures Receive(maxSize, 0, Datagrams(gs), Some(max), None, data) == Returned(None, data)
            <==> EndsWell(Flatten(gs), max) || StopsShort(Flatten(gs), max)
  {
    ChunkingIndependence(maxSize, 0, gs, Some(max), None, data);
    ScanEndsIff(Flatten(gs), max, data);
  }

  /** An acknowledgement: the number it is for, and a 32-bit error. */
  datatype Ack = Ack(seqno: nat, raw: nat, flags: nat, pid: nat, original: bytes)

  predicate ValidAck(a: Ack) {
    && a.seqno < U32_LIMIT && a.raw < U32_LIMIT && a.raw != 0x8000_0000 && a.flags < U16_LIMIT && a.pid < U32_LIMIT
    && |a.original| == NLMSG_HDRLEN && !HasFlag(a.flags, NLM_F_DUMP_INTR)
  }

  /** `nlmsgerr` in a message: the error and the header of the request. */
  function AckBytes(a: Ack): (b: bytes)
    requires ValidAck(a)
    ensures |b| == NLMSG_HDRLEN + NLMSGERR_LEN
  {
    HdrBytes(Hdr(NLMSG_HDRLEN + NLMSGERR_LEN, NLMSG_ERROR, a.flags, a.seqno, a.pid))
    + (LittleEndian(a.raw, 4) + a.original)
  }

  function AckCode(a: Ack): nat
    requires ValidAck(a)
  {
    if a.raw < 0x8000_0000 then a.raw else U32_LIMIT - a.raw
  }

  lemma {:induction false} AckParses(a: Ack)
    requires ValidAck(a)
    ensures WholeMessage(AckBytes(a))
    ensures var p := ParseNlmsg(AckBytes(a));
            p.Ok? && p.value.msg == Error(AckCode(a)) && p.value.hdr.seqno == a.seqno
  {
    var h := Hdr(NLMSG_HDRLEN + NLMSGERR_LEN, NLMSG_ERROR, a.flags, a.seqno, a.pid);
    var b := AckBytes(a);
    HdrReadsBack(h, LittleEndian(a.raw, 4) + a.original);
    assert b[16..20] == LittleEndian(a.raw, 4);
    Pow256Values();
    LittleEndianRoundTrip(a.raw, 4);
  }

  predicate InOrder(acks: seq<Ack>, first: nat) {
    forall i | 0 <= i < |acks| :: ValidAck(acks[i]) && acks[i].seqno == first + i
  }

  function AckStream(acks: seq<Ack>): (ms: seq<bytes>)
    requires forall i | 0 <= i < |acks| :: ValidAck(acks[i])
    ensures |ms| == |acks| && forall i | 0 <= i < |acks| :: ms[i] == AckBytes(acks[i])
  {
    seq(|acks|, i requires 0 <= i < |acks| => AckBytes(acks[i]))
  }

  lemma {:induction false} AckStreamWhole(acks: seq<Ack>)
    requires forall i | 0 <= i < |acks| :: ValidAck(acks[i])
    ensures AllWhole(AckStream(acks))
  {
    forall i | 0 <= i < |acks| ensures WholeMessage(AckStream(acks)[i]) { AckParses(acks[i]); }
  }

  /** The result in-order acknowledgements should give: the first error, or success. */
  function FirstError(acks: seq<Ack>): Option<QueryError>
    requires forall i | 0 <= i < |acks| :: ValidAck(acks[i])
  {
    if acks == [] then None
    else if AckCode(acks[0]) != 0 then Some(NetlinkError(AckCode(acks[0])))
    else FirstError(acks[1..])
  }

  /** With the last object's number as the awaited one, in-order acknowledgements of all objects end
      the run on the last of them with the first error, if there is one, and with success otherwise;
      with fewer, and no error among them, the run goes on. */
  lemma {:induction false} InOrderAcks<T>(acks: seq<Ack>, first: nat, max: nat, data: T)
    requires InOrder(acks, first) && first + |acks| <= max + 1
    ensures AllWhole(AckStream(acks))
    ensures var r := Scan(AckStream(acks), Some(max), None, data);
            && (FirstError(acks).Some? ==> r == Returned(FirstError(acks), data))
            && (FirstError(acks).None? && acks != [] && first + |acks| == max + 1 ==>
                  && r == Returned(None, data)
                  && Consumed(AckStream(acks), Some(max), None, data) == |acks|)
            && (FirstError(acks).None? && first + |acks| <= max ==> r == Going(data))
    decreases |acks|
  {
    hide ParseNlmsg, AckBytes, AckCode;
    AckStreamWhole(acks);
    if acks == [] {
    } else {
      AckParses(acks[0]);
      assert AckStream(acks)[1..] == AckStream(acks[1..]);
      InOrderAcks(acks[1..], first + 1, max, data);
    }
  }

  /** A batch of `n` objects, of which the first ones are acknowledged in order, however split into
      datagrams: the run that waits for `n` returns the first error among the acknowledgements, or
      success, also when acknowledgements are missing. */
  lemma {:induction false} BatchAcknowledged<T>(maxSize: nat, gs: seq<seq<bytes>>, acks: seq<Ack>, n: nat, data: T)
    requires maxSize > 0 && Groups(maxSize, gs) && InOrder(acks, 1) && Flatten(gs) == AckStream(acks) && |acks| <= n
    ensures Receive(maxSize, 0, Datagrams(gs), Some(n), None, data) == Returned(FirstError(acks), data)
  {
    ChunkingIndependence(maxSize, 0, gs, Some(n), None, data);
    InOrderAcks(acks, 1, n, data);
  }

  /** So success says that the whole batch was acknowledged if and only if the reply is complete: the
      last object's acknowledgement is in it exactly when the reply ends well. */
  lemma {:induction false} SuccessWithoutLastAck<T>(maxSize: nat, gs: seq<seq<bytes>>, acks: seq<Ack>, n: nat, data: T)
    requires maxSize > 0 && Groups(maxSize, gs) && InOrder(acks, 1) && Flatten(gs) == AckStream(acks)
    requires |acks| <= n && FirstError(acks).None? && n > 0
    ensures Receive(maxSize, 0, Datagrams(gs), Some(n), None, data) == Returned(None, data)
    ensures EndsWell(Flatten(gs), n) <==> |acks| == n
    ensures StopsShort(Flatten(gs), n) <==> |acks| < n
  {
    BatchAcknowledged(maxSize, gs, acks, n, data);
    InOrderAcks(acks, 1, n, data);
    ScanEndsIff(Flatten(gs), n, data);
  }
}
