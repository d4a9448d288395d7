/** The message writer, which patches the length of the message it is writing, and batches. */
module Batches {
  import opened Bytes
  import opened Schema
  import opened Encoder
  import opened Decoder
  import opened Messages

  // ----- the writer -----

  /** `b` with `n` added to the 32-bit length field at `idx`. */
  function GrowLen(b: bytes, idx: nat, n: nat): (r: bytes)
    requires idx + 4 <= |b|
    ensures |r| == |b|
  {
    b[..idx] + LittleEndian(FromLittleEndian(b[idx..idx + 4]) + n, 4) + b[idx + 4..]
  }

  /** The state of a writer that has finished the messages `closed` and is writing `open`: the buffer
      is those messages one behind the other, the length field of the open one counts all of it, and
      `headers` points at its two headers. */
  ghost predicate WriterState(buf: bytes, headers: Option<(nat, nat)>, closed: seq<Message>, open: Option<Message>) {
    && buf == (if open.Some? then Frames(closed) + Frame(open.value) else Frames(closed))
    && headers == (if open.Some? then Some((|Frames(closed)|, |Frames(closed)| + NLMSG_HDRLEN)) else None)
    && (open.Some? ==> ValidHdr(HdrOf(open.value)))
    && Aligned(closed) && (open.Some? ==> |open.value.body| % 4 == 0)
  }

  ghost predicate Aligned(ms: seq<Message>) {
    forall i | 0 <= i < |ms| :: |ms[i].body| % 4 == 0
  }

  class NfNetlinkWriter {
    var buf: bytes
    var headers: Option<(nat, nat)>
    ghost var closed: seq<Message>       // the messages written so far
    ghost var open: Option<Message>      // the message being written

    ghost predicate Valid()
      reads this
    {
      WriterState(buf, headers, closed, open)
    }

    constructor ()
      ensures Valid() && closed == [] && open == None && buf == []
    {
      buf, headers, closed, open := [], None, [], None;
    }

    /** Room in the open message, if there is one, for `n` more bytes of body. */
    ghost predicate HasRoom(n: nat)
      reads this
    {
      if open.Some? then Valid() && HEADERS_LEN + |open.value.body| + n < U32_LIMIT else headers == None
    }

    /** Appends zeros up to the padded size; inside a message, its length field grows as well, and so
        it is a message with a longer body. */
    method AddDataZeroed(size: nat) returns (start: nat)
      requires HasRoom(Pad(size))
      modifies this`buf, this`open
      ensures start == old(|buf|)
      ensures buf == if headers.None? then old(buf) + Zeros(Pad(size))
                     else GrowLen(old(buf) + Zeros(Pad(size)), headers.value.0, Pad(size))
      ensures |buf| == start + Pad(size) && buf[start..] == Zeros(Pad(size))
      ensures old(open).None? ==> open == None
      ensures old(open).Some? ==> Valid() && open == Some(Grown(old(open).value, Pad(size)))
    {
      hide Frame, Frames;
      var paddedSize := Pad(size);
      start := |buf|;
      buf := buf + Zeros(paddedSize);
      if headers.Some? {
        FrameGrows(Frames(closed), open.value, paddedSize);
        AlignedSum(|open.value.body|, paddedSize);
        buf := GrowLen(buf, headers.value.0, paddedSize);
        open := Some(Grown(open.value, paddedSize));
      }
    }

    /** Writes into the slice that `AddDataZeroed` returned, which has the size asked for and not the padded
        one; `before` is the message it extended. */
    method Fill(start: nat, data: bytes, ghost before: Option<Message>)
      requires start + Pad(|data|) == |buf| && buf[start..] == Zeros(Pad(|data|))
      requires open.Some? ==> Valid() && before.Some? && open == Some(Grown(before.value, Pad(|data|)))
      modifies this`buf, this`open
      ensures buf == old(buf)[..start] + Padded(data)
      ensures old(open).None? ==> open == None
      ensures old(open).Some? ==> Valid() && open == Some(Longer(before.value, Padded(data)))
    {
      hide Frame, Frames;
      ghost var whole := buf;
      buf := buf[..start] + data + buf[start + |data|..];
      PaddingStays(whole, start, data);
      if open.Some? {
        BodyFills(closed, before.value, Padded(data));
        open := Some(Longer(before.value, Padded(data)));
      }
    }

    /** Opens a message without a body.  If one was still open, an error is logged and writing goes on:
        the new headers become part of the body of that message. */
    method WriteHeader(msgType: nat, family: nat, flags: nat, seqno: nat, resId: Option<nat>)
      requires Valid() && HasRoom(HEADERS_LEN)
      requires msgType < U16_LIMIT && family < 256 && flags < U16_LIMIT && seqno < U32_LIMIT
      requires resId.Some? ==> resId.value < U16_LIMIT
      modifies this
      ensures closed == old(closed) && headers == Some((old(|buf|), old(|buf|) + NLMSG_HDRLEN))
      ensures var m := HeaderMessage(msgType, family, flags, seqno, resId);
              if old(open).None? then Valid() && open == Some(m)
              else open == Some(Longer(old(open).value, Frame(m))) && buf == Frames(closed) + Frame(open.value)
    {
      hide Frame, Frames, Longer, GrowLen, HdrBytes, GenBytes, FullType, WithRequest;
      ghost var before, m := buf, HeaderMessage(msgType, family, flags, seqno, resId);
      ghost var outer := open;
      var hdr := Hdr(HEADERS_LEN, FullType(msgType), WithRequest(flags), seqno, 0);
      NothingToPad(HdrBytes(hdr));
      var hdrStart := AddDataZeroed(NLMSG_HDRLEN);
      Fill(hdrStart, HdrBytes(hdr), outer);
      ghost var middle := open;
      var gen := GenMsg(family, NFNETLINK_V0, if resId.Some? then resId.value else 0);
      NothingToPad(GenBytes(gen));
      var genStart := AddDataZeroed(NFGENMSG_LEN);
      Fill(genStart, GenBytes(gen), middle);
      headers := Some((|buf| - HEADERS_LEN, |buf| - NFGENMSG_LEN));
      HeaderFrame(msgType, family, flags, seqno, resId);
      if outer.None? {
        open := Some(m);
        HeaderOpens(before, closed, msgType, family, flags, seqno, resId);
      } else {
        LongerTwice(outer.value, HdrBytes(hdr), GenBytes(gen));
      }
    }

    /** The attributes of a structure behind the body of the open message: zeroed space, then the
        payload written into it in place. */
    method WriteBody(t: StructTy, vals: Record)
      requires Valid() && open.Some? && FieldsTyped(t, vals)
      requires HEADERS_LEN + |open.value.body| + SizeFields(t, vals, 0) < U32_LIMIT
      modifies this
      ensures Valid() && closed == old(closed)
      ensures open == Some(Longer(old(open).value, EncodeFields(t, vals, 0)))
    {
      hide Frame, Frames, EncodeFields, SizeFields;
      ghost var before := open;
      var size := SizeFields(t, vals, 0);
      FieldSizesAreAligned(t, vals, 0);
      PadAligned(size);
      var start := AddDataZeroed(size);
      var slice := new byte[size](i => 0);
      WriteFields(t, vals, slice, 0);
      assert slice[..] == EncodeFields(t, vals, 0);
      NothingToPad(slice[..]);
      Fill(start, slice[..], before);
    }

    /** Closes the open message; its bytes are never touched again. */
    method FinalizeWritingObject()
      requires Valid()
      modifies this
      ensures Valid() && buf == old(buf) && open == None
      ensures closed == old(closed) + if old(open).Some? then [old(open).value] else []
    {
      headers := None;
      if open.Some? {
        FramesAppend(closed, open.value);
        closed, open := closed + [open.value], None;
      }
    }

    /** `add_or_remove`, for the structure `t`. */
    method WriteObject(t: StructTy, vals: Record, msgType: nat, family: nat, flags: nat, seqno: nat)
      requires Valid() && open.None? && FieldsTyped(t, vals)
      requires msgType < U16_LIMIT && family < 256 && flags < U16_LIMIT && seqno < U32_LIMIT
      requires HEADERS_LEN + SizeFields(t, vals, 0) < U32_LIMIT
      modifies this
      ensures Valid() && open == None
      ensures var m := HeaderMessage(msgType, family, flags, seqno, None);
              closed == old(closed) + [m.(body := EncodeFields(t, vals, 0))]
    {
      hide Frame, Frames, EncodeFields, SizeFields, HdrOf, FullType, WithRequest;
      WriteHeader(msgType, family, flags, seqno, None);
      WriteBody(t, vals);
      assert [] + EncodeFields(t, vals, 0) == EncodeFields(t, vals, 0);
      FinalizeWritingObject();
    }

    method AddOrRemove(o: Object, op: MsgType, seqno: nat)
      requires Valid() && open.None? && ValidObject(o) && seqno < U32_LIMIT
      modifies this
      ensures Valid() && open == None && closed == old(closed) + [ObjectMessage(o, op, seqno)]
    {
      ObjectHeader(o, op, seqno);
      WriteObject(TypeOf(o.kind), o.vals, MsgNumber(o.kind, op), o.family, OpFlags(o.kind, op), seqno);
    }
  }

  /** Batch markers belong to no subsystem; other types get the bits of the nftables subsystem. */
  function FullType(msgType: nat): nat {
    if msgType == NFNL_MSG_BATCH_BEGIN || msgType == NFNL_MSG_BATCH_END then msgType
    else BitOr(16, msgType, NFNL_SUBSYS_NFTABLES * 256)
  }

  lemma {:induction false} FullTypeIs(msgType: nat)
    requires msgType < U16_LIMIT
    ensures FullType(msgType) < U16_LIMIT
    ensures msgType < 256 && msgType != NFNL_MSG_BATCH_BEGIN && msgType != NFNL_MSG_BATCH_END ==>
              FullType(msgType) == NFNL_SUBSYS_NFTABLES * 256 + msgType
  {
    OrBound(16, msgType, NFNL_SUBSYS_NFTABLES * 256);
    Pow2Values();
    if msgType < 256 { OrAbove(16, msgType, NFNL_SUBSYS_NFTABLES, 8); }
  }

  lemma {:induction false} OrBound(w: nat, a: nat, b: nat)
    ensures BitOr(w, a, b) < Pow2(w)
  {
    if w == 0 {
    } else {
      OrBound(w - 1, a / 2, b / 2);
    }
  }

  /** `NLM_F_REQUEST | flags`. */
  function WithRequest(flags: nat): nat {
    if HasFlag(flags, NLM_F_REQUEST) then flags else flags + NLM_F_REQUEST
  }

  function HeaderMessage(msgType: nat, family: nat, flags: nat, seqno: nat, resId: Option<nat>): Message {
    Message(FullType(msgType), WithRequest(flags), seqno, family, if resId.Some? then resId.value else 0, [])
  }

  lemma {:induction false} HeaderMessageValid(msgType: nat, family: nat, flags: nat, seqno: nat, resId: Option<nat>)
    requires msgType < U16_LIMIT && flags < U16_LIMIT && seqno < U32_LIMIT
    ensures ValidHdr(HdrOf(HeaderMessage(msgType, family, flags, seqno, resId)))
  {
    FullTypeIs(msgType);
    assert flags % 2 == 0 ==> flags + 1 < U16_LIMIT;
  }

  lemma {:induction false} HeaderFrame(msgType: nat, family: nat, flags: nat, seqno: nat, resId: Option<nat>)
    ensures Frame(HeaderMessage(msgType, family, flags, seqno, resId)) ==
            HdrBytes(Hdr(HEADERS_LEN, FullType(msgType), WithRequest(flags), seqno, 0))
            + GenBytes(GenMsg(family, NFNETLINK_V0, if resId.Some? then resId.value else 0))
  {
    hide HdrBytes, GenBytes;
  }

  lemma {:induction false} HeaderOpens(buf: bytes, closed: seq<Message>, msgType: nat, family: nat, flags: nat,
                                       seqno: nat, resId: Option<nat>)
    requires WriterState(buf, None, closed, None)
    requires msgType < U16_LIMIT && flags < U16_LIMIT && seqno < U32_LIMIT
    ensures var m := HeaderMessage(msgType, family, flags, seqno, resId);
            WriterState(buf + HdrBytes(HdrOf(m)) + GenBytes(GenOf(m)), Some((|buf|, |buf| + NLMSG_HDRLEN)), closed,
                        Some(m))
  {
    var m := HeaderMessage(msgType, family, flags, seqno, resId);
    HeaderMessageValid(msgType, family, flags, seqno, resId);
    assert Frame(m) == HdrBytes(HdrOf(m)) + GenBytes(GenOf(m));
    ConcatAssoc(buf, HdrBytes(HdrOf(m)), GenBytes(GenOf(m)));
  }

  lemma {:induction false} SameTail(m: Message, data: bytes)
    ensures HeadersTail(Longer(m, data)) == HeadersTail(m)
  {}

  /** Writing over the zeros a message was extended by. */
  lemma {:induction false} BodyFills(closed: seq<Message>, m: Message, data: bytes)
    ensures var a, grown := Frames(closed), Frame(Grown(m, |data|));
            (a + grown)[..|a + grown| - |data|] + data == a + Frame(Longer(m, data))
  {
    hide Frame, Frames, HeadersTail, LittleEndian;
    var front := LittleEndian(HEADERS_LEN + |m.body| + |data|, 4) + HeadersTail(m) + m.body;
    SameTail(m, data);
    SameTail(m, Zeros(|data|));
    FrameSplit(Grown(m, |data|));
    FrameSplit(Longer(m, data));
    assert Frame(Longer(m, data)) == front + data;
    assert Frame(Grown(m, |data|)) == front + Zeros(|data|);
    FillZeros(Frames(closed), front, data);
  }

  lemma {:induction false} PaddingStays(buf: bytes, start: nat, data: bytes)
    requires start + Pad(|data|) == |buf| && buf[start..] == Zeros(Pad(|data|))
    ensures buf[..start] + data + buf[start + |data|..] == buf[..start] + Padded(data)
  {
    var n := Pad(|data|) - |data|;
    assert buf[start + |data|..] == buf[start..][|data|..] == Zeros(n);
    ConcatAssoc(buf[..start], data, Zeros(n));
  }

  /** Data that needs no padding. */
  lemma {:induction false} NothingToPad(data: bytes)
    requires |data| % 4 == 0
    ensures Padded(data) == data && Pad(|data|) == |data|
  {
    PadAligned(|data|);
    assert Zeros(0) == [];
  }

  lemma {:induction false} LongerTwice(m: Message, a: bytes, b: bytes)
    ensures Longer(Longer(m, a), b) == Longer(m, a + b)
  {
    ConcatAssoc(m.body, a, b);
  }

  lemma {:induction false} FillZeros(a: bytes, front: bytes, payload: bytes)
    ensures (a + (front + Zeros(|payload|)))[..|a| + |front|] + payload == a + (front + payload)
  {}

  lemma {:induction false} ObjectHeader(o: Object, op: MsgType, seqno: nat)
    requires ValidObject(o)
    ensures ObjectMessage(o, op, seqno) ==
            HeaderMessage(MsgNumber(o.kind, op), o.family, OpFlags(o.kind, op), seqno, None)
              .(body := EncodeFields(TypeOf(o.kind), o.vals, 0))
  {
    FullTypeIs(MsgNumber(o.kind, op));
  }

  /** The message with more behind its body. */
  function Longer(m: Message, data: bytes): Message { m.(body := m.body + data) }

  function Grown(m: Message, n: nat): Message { Longer(m, Zeros(n)) }

  /** Both headers without the length field. */
  function HeadersTail(m: Message): bytes {
    LittleEndian(m.ty, 2) + LittleEndian(m.flags, 2) + LittleEndian(m.seqno, 4) + LittleEndian(0, 4)
    + GenBytes(GenOf(m))
  }

  lemma {:induction false} FrameSplit(m: Message)
    ensures Frame(m) == LittleEndian(HEADERS_LEN + |m.body|, 4) + (HeadersTail(m) + m.body)
  {}

  /** Growing the length field and the buffer together keeps the message well framed. */
  lemma {:induction false} FrameGrows(before: bytes, m: Message, n: nat)
    requires ValidHdr(HdrOf(m)) && HEADERS_LEN + |m.body| + n < U32_LIMIT
    ensures var b, idx := before + Frame(m), |before|;
            && FromLittleEndian(b[idx..idx + 4]) == HEADERS_LEN + |m.body|
            && GrowLen(b + Zeros(n), idx, n) == before + Frame(Grown(m, n))
  {
    hide Frame, HeadersTail, LittleEndian, FromLittleEndian, Pow256;
    var size, tail := HEADERS_LEN + |m.body|, HeadersTail(m) + m.body;
    SameTail(m, Zeros(n));
    Pow256Values();
    LittleEndianRoundTrip(size, 4);
    FrameSplit(m);
    FrameSplit(Grown(m, n));
    LenSlices(before, LittleEndian(size, 4), tail, Zeros(n));
    calc {
      before + Frame(Grown(m, n));
      before + (LittleEndian(size + n, 4) + (HeadersTail(m) + (m.body + Zeros(n))));
      { ConcatAssoc(HeadersTail(m), m.body, Zeros(n)); }
      before + (LittleEndian(size + n, 4) + (tail + Zeros(n)));
      { ConcatAssoc(before, LittleEndian(size + n, 4), tail + Zeros(n)); }
      before + LittleEndian(size + n, 4) + (tail + Zeros(n));
    }
  }

  lemma {:induction false} LenSlices(before: bytes, len: bytes, tail: bytes, z: bytes)
    requires |len| == 4
    ensures var b, idx := before + (len + tail), |before|;
            && b[idx..idx + 4] == len && (b + z)[idx..idx + 4] == len
            && (b + z)[..idx] == before && (b + z)[idx + 4..] == tail + z
  {}

  // ----- batches -----

  datatype Entry = Entry(obj: Object, op: MsgType)

  const BEGIN: Message := Message(NFNL_MSG_BATCH_BEGIN, NLM_F_REQUEST, 0, 0, NFNL_SUBSYS_NFTABLES, [])

  function End(n: nat): Message {
    Message(NFNL_MSG_BATCH_END, NLM_F_REQUEST, n + 1, 0, NFNL_SUBSYS_NFTABLES, [])
  }

  lemma {:induction false} BatchHeaders(n: nat)
    ensures HeaderMessage(NFNL_MSG_BATCH_BEGIN, 0, 0, 0, Some(NFNL_SUBSYS_NFTABLES)) == BEGIN
    ensures HeaderMessage(NFNL_MSG_BATCH_END, 0, 0, n + 1, Some(NFNL_SUBSYS_NFTABLES)) == End(n)
  {}

  ghost predicate ValidEntries(es: seq<Entry>) {
    |es| + 1 < U32_LIMIT && forall i | 0 <= i < |es| :: ValidObject(es[i].obj)
  }

  /** The objects of a batch as messages, numbered from 1. */
  ghost function EntryMessages(es: seq<Entry>): (ms: seq<Message>)
    requires ValidEntries(es)
    ensures |ms| == |es|
    ensures forall i | 0 <= i < |es| :: ms[i] == ObjectMessage(es[i].obj, es[i].op, i + 1)
  {
    seq(|es|, i requires 0 <= i < |es| => ObjectMessage(es[i].obj, es[i].op, i + 1))
  }

  lemma {:induction false} MessagesAppend(es: seq<Entry>, e: Entry)
    requires ValidEntries(es) && ValidObject(e.obj) && |es| + 2 < U32_LIMIT
    ensures ValidEntries(es + [e])
    ensures EntryMessages(es + [e]) == EntryMessages(es) + [ObjectMessage(e.obj, e.op, |es| + 1)]
  {}

  ghost function BatchMessages(es: seq<Entry>): seq<Message>
    requires ValidEntries(es)
  {
    [BEGIN] + EntryMessages(es) + [End(|es|)]
  }

  ghost function Labelled(objs: seq<Object>, op: MsgType): (es: seq<Entry>)
    ensures |es| == |objs| && forall i | 0 <= i < |es| :: es[i] == Entry(objs[i], op)
  {
    seq(|objs|, i requires 0 <= i < |objs| => Entry(objs[i], op))
  }

  class Batch {
    const writer: NfNetlinkWriter
    var seqno: nat
    ghost var entries: seq<Entry>

    ghost predicate Valid()
      reads this, writer
    {
      && writer.Valid() && writer.open == None
      && ValidEntries(entries) && seqno == |entries| + 1
      && writer.closed == [BEGIN] + EntryMessages(entries)
    }

    constructor ()
      ensures Valid() && fresh(writer) && entries == []
    {
      hide Frame, Frames, HeaderMessage, HdrOf;
      BatchHeaders(0);
      var w := new NfNetlinkWriter();
      w.WriteHeader(NFNL_MSG_BATCH_BEGIN, 0, 0, 0, Some(NFNL_SUBSYS_NFTABLES));
      w.FinalizeWritingObject();
      writer := w;
      seqno := 1;
      entries := [];
    }

    method Add(o: Object, op: MsgType)
      requires Valid() && ValidObject(o) && seqno + 1 < U32_LIMIT
      modifies this, writer
      ensures Valid() && entries == old(entries) + [Entry(o, op)] && seqno == old(seqno) + 1
    {
      hide Frame, Frames, ObjectMessage, ValidObject;
      writer.AddOrRemove(o, op, seqno);
      seqno := seqno + 1;
      ghost var before := entries;
      entries := entries + [Entry(o, op)];
      MessagesAppend(before, Entry(o, op));
    }

    method AddIter(objs: seq<Object>, op: MsgType)
      requires Valid() && seqno + |objs| < U32_LIMIT && forall i | 0 <= i < |objs| :: ValidObject(objs[i])
      modifies this, writer
      ensures Valid() && entries == old(entries) + Labelled(objs, op)
    {
      hide Valid, ValidObject;
      for i := 0 to |objs|
        invariant Valid() && seqno == old(seqno) + i && entries == old(entries) + Labelled(objs[..i], op)
      {
        TakeOneMore(objs, i);
        Add(objs[i], op);
        assert Labelled(objs[..i + 1], op) == Labelled(objs[..i], op) + [Entry(objs[i], op)];
      }
      assert objs[..|objs|] == objs;
    }

    /** Closes the batch: whatever calls were made before, the buffer is BEGIN, the objects in
        order, and END. */
    method Finalize() returns (out: bytes)
      requires Valid()
      modifies this, writer
      ensures entries == old(entries) && ValidEntries(entries) && out == Frames(BatchMessages(entries))
    {
      hide Frame, Frames, ValidObject, HdrOf, HeaderMessage;
      BatchHeaders(|entries|);
      writer.WriteHeader(NFNL_MSG_BATCH_END, 0, 0, seqno, Some(NFNL_SUBSYS_NFTABLES));
      writer.FinalizeWritingObject();
      out := writer.buf;
      assert writer.closed == BatchMessages(entries);
    }

    /** `send` waits for the acknowledgement of the last object. */
    method MaxSeq() returns (m: nat)
      requires Valid()
      ensures m == |entries|
    {
      m := seqno - 1;
    }
  }

  // ----- what is in the buffer -----

  lemma {:induction false} BatchSendable(es: seq<Entry>)
    requires ValidEntries(es)
    ensures forall i | 0 <= i < |es| + 2 :: Sendable(BatchMessages(es)[i])
  {
    var ms := BatchMessages(es);
    forall i | 0 <= i < |es| + 2 ensures Sendable(ms[i]) {
      if 0 < i <= |es| {
        assert ms[i] == EntryMessages(es)[i - 1];
        ObjectSendable(es[i - 1].obj, es[i - 1].op, i);
      }
    }
  }

  /** Every batch is a well-formed transaction: taking its buffer apart consumes all of it and yields
      BEGIN, each object under its type, family and attributes, and END, numbered 0, 1 .. n, n + 1. */
  lemma {:induction false} BatchIsTransaction(es: seq<Entry>)
    requires ValidEntries(es)
    ensures var r := ParseStream(Frames(BatchMessages(es)));
            && r.Ok? && |r.value| == |es| + 2
            && r.value[0] == ParsedOf(BEGIN) && r.value[|es| + 1] == ParsedOf(End(|es|))
            && r.value[0].hdr.ty == 0x10 && r.value[|es| + 1].hdr.ty == 0x11
            && (forall i | 0 <= i < |r.value| :: r.value[i].hdr.seqno == i)
            && (forall i | 0 <= i < |es| ::
                  && r.value[i + 1].hdr.ty == ObjectType(es[i].obj.kind) + (if es[i].op.Add? then 0 else 2)
                  && r.value[i + 1].hdr.flags ==
                       if es[i].op.Del? then 0x5 else if es[i].obj.kind.RuleKind? then 0xC05 else 0x405)
            && forall i | 0 <= i < |es| ::
                 r.value[i + 1] == ParsedOf(ObjectMessage(es[i].obj, es[i].op, i + 1))
  {
    hide ValidObject, ParseStream, Frames, ObjectMessage, ObjectType, Sendable;
    var ms := BatchMessages(es);
    BatchSendable(es);
    StreamParses(ms);
    forall i | 0 <= i < |es| ensures EntryNumbered(es[i], i + 1, ms[i + 1]) {
      assert ms[i + 1] == EntryMessages(es)[i];
      EntryNumbers(es[i], i + 1);
    }
  }

  /** The message of an entry, with its type and flags as numbers. */
  ghost predicate EntryNumbered(e: Entry, n: nat, m: Message)
    requires ValidObject(e.obj)
  {
    && m == ObjectMessage(e.obj, e.op, n) && m.seqno == n
    && m.ty == ObjectType(e.obj.kind) + (if e.op.Add? then 0 else 2)
    && m.flags == if e.op.Del? then 0x5 else if e.obj.kind.RuleKind? then 0xC05 else 0x405
  }

  lemma {:induction false} EntryNumbers(e: Entry, n: nat)
    requires ValidObject(e.obj)
    ensures EntryNumbered(e, n, ObjectMessage(e.obj, e.op, n))
  {
    hide EncodeFields, TypeOf;
    ObjectNumbers(e.obj, n);
  }

  /** The bytes of a batch without objects. */
  lemma {:induction false} EmptyBatchBytes()
    ensures Frames(BatchMessages([])) ==
            [20, 0, 0, 0, 0x10, 0, 1, 0, 0, 0, 0, 0, 0, 0, 0, 0, 0, 0, 10, 0] +
            [20, 0, 0, 0, 0x11, 0, 1, 0, 1, 0, 0, 0, 0, 0, 0, 0, 0, 0, 10, 0]
  {
    assert BatchMessages([]) == [BEGIN, End(0)];
    MarkerBytes(0x10, 0);
    MarkerBytes(0x11, 1);
    assert [BEGIN, End(0)][1..] == [End(0)] && [End(0)][1..] == [];
  }

  lemma {:induction false} SmallNumber(n: nat)
    requires n < 256
    ensures LittleEndian(n, 1) == [n] && LittleEndian(n, 2) == [n, 0] && LittleEndian(n, 4) == [n, 0, 0, 0]
  {
    assert LittleEndian(0, 1) == [0] && LittleEndian(0, 2) == [0, 0] && LittleEndian(0, 3) == [0, 0, 0];
  }

  lemma {:induction false} MarkerBytes(ty: nat, seqno: nat)
    requires ty < 256 && seqno < 256
    ensures Frame(Message(ty, 1, seqno, 0, 10, [])) ==
            [20, 0, 0, 0, ty, 0, 1, 0, seqno, 0, 0, 0, 0, 0, 0, 0, 0, 0, 10, 0]
  {
    SmallNumber(20);
    SmallNumber(ty);
    SmallNumber(1);
    SmallNumber(seqno);
    SmallNumber(0);
    SmallNumber(10);
  }

  /** Objects read one behind the other, as the expected kinds say. */
  ghost function ReadObjects(es: seq<Entry>, buf: bytes): Outcome<(seq<Object>, bytes)> {
    if es == [] then Ok(([], buf))
    else
      var r := DeserializeObject(es[0].obj.kind, buf);
      if !r.Ok? then (if r.Err? then Err(r.error) else Panic)
      else
        var s := ReadObjects(es[1..], r.value.rest);
        if s.Ok? then Ok(([r.value.obj] + s.value.0, s.value.1)) else s
  }

  ghost function Objs(es: seq<Entry>): seq<Object> {
    if es == [] then [] else [es[0].obj] + Objs(es[1..])
  }

  /** The messages of a suffix of the entries, numbered from `n`. */
  ghost function MessagesFrom(es: seq<Entry>, n: nat): seq<Message>
    requires forall i | 0 <= i < |es| :: ValidObject(es[i].obj)
  {
    if es == [] then [] else [ObjectMessage(es[0].obj, es[0].op, n)] + MessagesFrom(es[1..], n + 1)
  }

  ghost predicate AllSurvive(es: seq<Entry>)
    requires forall i | 0 <= i < |es| :: ValidObject(es[i].obj)
  {
    forall i | 0 <= i < |es| :: ObjectSurvives(es[i].obj)
  }

  lemma {:induction false} EntriesReadBack(es: seq<Entry>, n: nat, tail: bytes)
    requires n + |es| < U32_LIMIT && forall i | 0 <= i < |es| :: ValidObject(es[i].obj)
    ensures ReadObjects(es, Frames(MessagesFrom(es, n)) + tail) == Ok((Objs(es), tail)) <==> AllSurvive(es)
    decreases |es|
  {
    hide DeserializeObject, ObjectMessage, ObjectSurvives, ValidObject;
    if es == [] {
      assert Frames([]) + tail == tail;
    } else {
      var o, m, more := es[0].obj, ObjectMessage(es[0].obj, es[0].op, n), MessagesFrom(es[1..], n + 1);
      var rest := Frames(more) + tail;
      assert Frames([m] + more) == Frame(m) + Frames(more) by { assert ([m] + more)[1..] == more; }
      ConcatAssoc(Frame(m), Frames(more), tail);
      EntriesReadBack(es[1..], n + 1, tail);
      ObjectRoundTripsIff(o, es[0].op, n, rest);
      assert AllSurvive(es) <==> ObjectSurvives(o) && AllSurvive(es[1..]);
      HeadTail(es, DeserializeObject(o.kind, Frame(m) + rest), rest, tail);
    }
  }

  /** Reading all objects right is reading the first right and the others right. */
  lemma {:induction false} HeadTail(es: seq<Entry>, r: Outcome<Received>, rest: bytes, tail: bytes)
    requires es != [] && (r.Ok? ==> r.value.rest == rest)
    ensures var s := ReadObjects(es[1..], rest);
            (r.Ok? && s.Ok? && ([r.value.obj] + s.value.0, s.value.1) == (Objs(es), tail))
            <==> (r == Ok(Received(es[0].obj, rest)) && s == Ok((Objs(es[1..]), tail)))
  {
    hide DeserializeObject;
    var s := ReadObjects(es[1..], rest);
    if r.Ok? && s.Ok? {
      var a, b := [r.value.obj] + s.value.0, [es[0].obj] + Objs(es[1..]);
      assert a[0] == r.value.obj && a[1..] == s.value.0 && b[0] == es[0].obj && b[1..] == Objs(es[1..]);
    }
  }

  lemma {:induction false} MessagesAgree(es: seq<Entry>, n: nat)
    requires forall i | 0 <= i < |es| :: ValidObject(es[i].obj)
    ensures |MessagesFrom(es, n)| == |es|
    ensures forall i | 0 <= i < |es| :: MessagesFrom(es, n)[i] == ObjectMessage(es[i].obj, es[i].op, n + i)
    decreases |es|
  {
    if es == [] {
    } else {
      MessagesAgree(es[1..], n + 1);
    }
  }

  lemma {:induction false} FramesConcat(ms: seq<Message>, ns: seq<Message>)
    ensures Frames(ms + ns) == Frames(ms) + Frames(ns)
    decreases |ms|
  {
    if ms == [] {
      assert ms + ns == ns;
    } else {
      assert (ms + ns)[1..] == ms[1..] + ns;
      FramesConcat(ms[1..], ns);
      ConcatAssoc(Frame(ms[0]), Frames(ms[1..]), Frames(ns));
    }
  }

  /** Behind BEGIN, the objects of a batch are read back in order, down to END, if and only if each of
      them survives. */
  lemma {:induction false} BatchReadsBackIff(es: seq<Entry>)
    requires ValidEntries(es)
    ensures var buf := Frames(BatchMessages(es));
            && |buf| >= HEADERS_LEN
            && (ReadObjects(es, buf[HEADERS_LEN..]) == Ok((Objs(es), Frame(End(|es|)))) <==> AllSurvive(es))
  {
    hide ReadObjects, AllSurvive, ValidObject, ObjectMessage;
    var ms, end := EntryMessages(es), End(|es|);
    MessagesAgree(es, 1);
    assert MessagesFrom(es, 1) == ms;
    assert BatchMessages(es) == [BEGIN] + (ms + [end]);
    FramesConcat([BEGIN], ms + [end]);
    FramesConcat(ms, [end]);
    FramesAppend([], BEGIN);
    FramesAppend([], end);
    assert [] + [BEGIN] == [BEGIN] && [] + [end] == [end];
    assert Frames([BEGIN]) == Frame(BEGIN) && Frames([end]) == Frame(end);
    var buf := Frames(BatchMessages(es));
    assert buf[HEADERS_LEN..] == Frames(ms) + Frame(end);
    EntriesReadBack(es, 1, Frame(end));
  }
}
