/** Netlink messages: headers, `parse_nlmsg`, and objects as messages. */
module Messages {
  import opened Bytes
  import opened Schema
  import opened Encoder
  import opened Decoder
  import opened RoundTrip
  import opened Objects

  const NLMSG_HDRLEN: nat := 16
  const NFGENMSG_LEN: nat := 4
  const HEADERS_LEN: nat := 20
  const NLMSGERR_LEN: nat := 20

  const NLMSG_NOOP: nat := 1
  const NLMSG_ERROR: nat := 2
  const NLMSG_DONE: nat := 3
  const NLMSG_MIN_TYPE: nat := 0x10
  const NFNL_MSG_BATCH_BEGIN: nat := 0x10
  const NFNL_MSG_BATCH_END: nat := 0x11
  const NFNL_SUBSYS_NFTABLES: nat := 10
  const NFNETLINK_V0: nat := 0

  const NLM_F_REQUEST: nat := 0x1
  const NLM_F_MULTI: nat := 0x2
  const NLM_F_ACK: nat := 0x4
  const NLM_F_DUMP_INTR: nat := 0x10
  const NLM_F_CREATE: nat := 0x400
  const NLM_F_APPEND: nat := 0x800

  const U16_LIMIT: nat := 0x1_0000
  const U32_LIMIT: nat := 0x1_0000_0000

  /** A single-bit test, `flags & bit != 0`. */
  predicate HasFlag(flags: nat, bit: nat)
    requires bit > 0
  {
    flags / bit % 2 == 1
  }

  /** The division and remainder used for flags and for the two halves of a message type are the bit
      operations of the code. */
  lemma {:induction false} BitFields(flags: nat, ty: nat)
    requires flags < U16_LIMIT && ty < U16_LIMIT
    ensures HasFlag(flags, NLM_F_DUMP_INTR) <==> BitAnd(16, flags, NLM_F_DUMP_INTR) != 0
    ensures HasFlag(flags, NLM_F_MULTI) <==> BitAnd(16, flags, NLM_F_MULTI) != 0
    ensures BitAnd(16, ty, 0xff00) == ty / 256 * 256 && BitAnd(16, ty, 0xff) == ty % 256
  {
    Pow2Values();
    AndSingleBit(16, flags, 4);
    AndSingleBit(16, flags, 1);
    AndHighOnes(16, ty, 8);
    AndLowOnes(16, ty, 8);
  }

  // ----- headers (section 2.3.2 of RFC 3549) -----

  datatype Hdr = Hdr(len: nat, ty: nat, flags: nat, seqno: nat, pid: nat)

  datatype GenMsg = GenMsg(family: nat, version: nat, resId: nat)

  predicate ValidHdr(h: Hdr) {
    h.len < U32_LIMIT && h.ty < U16_LIMIT && h.flags < U16_LIMIT && h.seqno < U32_LIMIT && h.pid < U32_LIMIT
  }

  function HdrBytes(h: Hdr): (b: bytes)
    ensures |b| == NLMSG_HDRLEN
  {
    LittleEndian(h.len, 4) + LittleEndian(h.ty, 2) + LittleEndian(h.flags, 2) + LittleEndian(h.seqno, 4)
    + LittleEndian(h.pid, 4)
  }

  function ReadHdr(buf: bytes): Hdr
    requires |buf| >= NLMSG_HDRLEN
  {
    Hdr(FromLittleEndian(buf[0..4]), FromLittleEndian(buf[4..6]), FromLittleEndian(buf[6..8]),
        FromLittleEndian(buf[8..12]), FromLittleEndian(buf[12..16]))
  }

  lemma {:induction false} HdrSlices(a: bytes, b: bytes, c: bytes, d: bytes, e: bytes, rest: bytes)
    requires |a| == 4 && |b| == 2 && |c| == 2 && |d| == 4 && |e| == 4
    ensures var buf := a + b + c + d + e + rest;
            buf[0..4] == a && buf[4..6] == b && buf[6..8] == c && buf[8..12] == d && buf[12..16] == e
  {}

  lemma {:induction false} HdrReadsBack(h: Hdr, rest: bytes)
    requires ValidHdr(h)
    ensures ReadHdr(HdrBytes(h) + rest) == h
  {
    HdrSlices(LittleEndian(h.len, 4), LittleEndian(h.ty, 2), LittleEndian(h.flags, 2), LittleEndian(h.seqno, 4),
              LittleEndian(h.pid, 4), rest);
    Pow256Values();
    LittleEndianRoundTrip(h.len, 4);
    LittleEndianRoundTrip(h.ty, 2);
    LittleEndianRoundTrip(h.flags, 2);
    LittleEndianRoundTrip(h.seqno, 4);
    LittleEndianRoundTrip(h.pid, 4);
  }

  function GenBytes(g: GenMsg): (b: bytes)
    ensures |b| == NFGENMSG_LEN
  {
    LittleEndian(g.family, 1) + LittleEndian(g.version, 1) + LittleEndian(g.resId, 2)
  }

  function ReadGen(buf: bytes): GenMsg
    requires |buf| >= NFGENMSG_LEN
  {
    GenMsg(buf[0], buf[1], FromLittleEndian(buf[2..4]))
  }

  lemma {:induction false} GenReadsBack(g: GenMsg, rest: bytes)
    requires g.family < 256 && g.version < 256 && g.resId < U16_LIMIT
    ensures ReadGen(GenBytes(g) + rest) == g
  {
    var buf := GenBytes(g) + rest;
    Pow256Values();
    LittleEndianRoundTrip(g.resId, 2);
    assert buf[2..4] == LittleEndian(g.resId, 2);
  }

  // ----- parse_nlmsg -----

  datatype NlMsg = Done | Noop | Error(code: nat) | NfGenMsg(gen: GenMsg, data: bytes)

  datatype Parsed = Parsed(hdr: Hdr, msg: NlMsg)

  function GetNlmsghdr(buf: bytes): (r: Outcome<Hdr>)
    ensures r.Ok? ==> NLMSG_HDRLEN <= r.value.len <= |buf| && r.value == ReadHdr(buf)
  {
    if |buf| < NLMSG_HDRLEN then Err(BufTooSmall)
    else
      var h := ReadHdr(buf);
      if h.len > |buf| || h.len < NLMSG_HDRLEN then Err(NlMsgTooSmall)
      else if HasFlag(h.flags, NLM_F_DUMP_INTR) then Err(ConcurrentGenerationUpdate)
      else Ok(h)
  }

  /** `error.abs()` of a 32-bit bit pattern; the most negative number has no absolute value. */
  function AbsoluteError(raw: nat): Outcome<nat> {
    if raw < 0x8000_0000 then Ok(raw) else if raw == 0x8000_0000 || raw >= U32_LIMIT then Panic else Ok(U32_LIMIT - raw)
  }

  function ParseNlmsg(buf: bytes): (r: Outcome<Parsed>)
    ensures r.Ok? ==> |buf| >= NLMSG_HDRLEN && NLMSG_HDRLEN <= r.value.hdr.len <= |buf|
    ensures r.Ok? ==> r.value.hdr == ReadHdr(buf)
  {
    match GetNlmsghdr(buf)
    case Err(e) => Err(e)
    case Panic => Panic
    case Ok(h) =>
      if h.ty < NLMSG_MIN_TYPE then
        if h.ty == NLMSG_NOOP then Ok(Parsed(h, Noop))
        else if h.ty == NLMSG_ERROR then
          if h.len < NLMSG_HDRLEN + NLMSGERR_LEN then Err(NlMsgTooSmall)
          else
            (match AbsoluteError(FromLittleEndian(buf[16..20]))
             case Ok(code) => Ok(Parsed(h, Error(code)))
             case Err(e) => Err(e)
             case Panic => Panic)
        else if h.ty == NLMSG_DONE then Ok(Parsed(h, Done))
        else Err(UnsupportedType(h.ty))
      else if h.ty != NFNL_MSG_BATCH_BEGIN && h.ty != NFNL_MSG_BATCH_END && h.ty / 256 != NFNL_SUBSYS_NFTABLES then
        Err(InvalidSubsystem(h.ty / 256))
      else if h.len < HEADERS_LEN then Err(NlMsgTooSmall)
      else
        var gen := ReadGen(buf[16..20]);
        if gen.version != NFNETLINK_V0 then Err(InvalidVersion(gen.version))
        else Ok(Parsed(h, NfGenMsg(gen, buf[HEADERS_LEN..h.len])))
  }

  /** What every message of its own length is parsed as, by the numbers of the protocol. */
  lemma {:induction false} MessagesParse(h: Hdr, body: bytes, rest: bytes)
    requires ValidHdr(h) && h.len == 16 + |body|
    ensures var r := ParseNlmsg(HdrBytes(h) + body + rest);
            if BitAnd(16, h.flags, 0x10) != 0 then r == Err(ConcurrentGenerationUpdate)
            else if h.ty == 1 then r == Ok(Parsed(h, Noop))
            else if h.ty == 2 then
              if |body| < 20 then r == Err(NlMsgTooSmall)
              else
                var e := FromLittleEndian(body[..4]);
                if e == 0x8000_0000 then r == Panic
                else r == Ok(Parsed(h, Error(if e > 0x8000_0000 then 0x1_0000_0000 - e else e)))
            else if h.ty == 3 then r == Ok(Parsed(h, Done))
            else if h.ty < 16 then r == Err(UnsupportedType(h.ty))
            else if h.ty / 256 != 10 && h.ty != 16 && h.ty != 17 then r == Err(InvalidSubsystem(h.ty / 256))
            else if |body| < 4 then r == Err(NlMsgTooSmall)
            else if body[1] != 0 then r == Err(InvalidVersion(body[1]))
            else r == Ok(Parsed(h, NfGenMsg(GenMsg(body[0], 0, FromLittleEndian(body[2..4])), body[4..])))
  {
    hide HdrBytes, ReadHdr, BitAnd, FromLittleEndian;
    MessageSlices(h, body, rest);
    BitFields(h.flags, h.ty);
    if |body| >= 4 { LittleEndianBound(body[..4]); }
  }

  /** The slices the parser takes of a message. */
  lemma {:induction false} MessageSlices(h: Hdr, body: bytes, rest: bytes)
    requires ValidHdr(h) && h.len == 16 + |body|
    ensures var buf := HdrBytes(h) + body + rest;
            && ReadHdr(buf) == h && |buf| >= h.len
            && (|body| >= 4 ==>
                  && buf[16..20] == body[..4] && buf[20..h.len] == body[4..]
                  && ReadGen(buf[16..20]) == GenMsg(body[0], body[1], FromLittleEndian(body[2..4])))
  {
    hide HdrBytes, ReadHdr, FromLittleEndian;
    var buf := HdrBytes(h) + body + rest;
    assert buf == HdrBytes(h) + (body + rest);
    HdrReadsBack(h, body + rest);
    if |body| >= 4 {
      assert buf[16..20] == body[..4];
      assert body[..4][2..4] == body[2..4];
    }
  }

  /** Bytes that do not hold a header, or not the message the header announces. */
  lemma {:induction false} TruncatedMessages(buf: bytes)
    ensures |buf| < 16 ==> ParseNlmsg(buf) == Err(BufTooSmall)
    ensures |buf| >= 16 && (FromLittleEndian(buf[0..4]) < 16 || FromLittleEndian(buf[0..4]) > |buf|) ==>
              ParseNlmsg(buf) == Err(NlMsgTooSmall)
  {}

  lemma {:induction false} LittleEndianBound(b: bytes)
    requires |b| == 4
    ensures FromLittleEndian(b) < 0x1_0000_0000
  {
    Pow256Values();
  }

  // ----- messages as they are written -----

  /** A message: `ty` with its subsystem, and a body of attributes. */
  datatype Message = Message(ty: nat, flags: nat, seqno: nat, family: nat, resId: nat, body: bytes)

  function HdrOf(m: Message): Hdr { Hdr(HEADERS_LEN + |m.body|, m.ty, m.flags, m.seqno, 0) }

  function GenOf(m: Message): GenMsg { GenMsg(m.family, NFNETLINK_V0, m.resId) }

  function Frame(m: Message): (b: bytes)
    ensures |b| == HEADERS_LEN + |m.body|
  {
    HdrBytes(HdrOf(m)) + GenBytes(GenOf(m)) + m.body
  }

  predicate Sendable(m: Message) {
    && ValidHdr(HdrOf(m)) && m.family < 256 && m.resId < U16_LIMIT && |m.body| % 4 == 0
    && (m.ty == NFNL_MSG_BATCH_BEGIN || m.ty == NFNL_MSG_BATCH_END || m.ty / 256 == NFNL_SUBSYS_NFTABLES)
    && !HasFlag(m.flags, NLM_F_DUMP_INTR)
  }

  /** What a written message is parsed as. */
  function ParsedOf(m: Message): Parsed { Parsed(HdrOf(m), NfGenMsg(GenOf(m), m.body)) }

  lemma {:induction false} FrameParses(m: Message, rest: bytes)
    requires Sendable(m)
    ensures ParseNlmsg(Frame(m) + rest) == Ok(ParsedOf(m))
  {
    var buf := Frame(m) + rest;
    assert buf == HdrBytes(HdrOf(m)) + (GenBytes(GenOf(m)) + m.body + rest);
    HdrReadsBack(HdrOf(m), GenBytes(GenOf(m)) + m.body + rest);
    assert buf[16..20] == GenBytes(GenOf(m)) + [];
    GenReadsBack(GenOf(m), []);
    assert buf[HEADERS_LEN..HEADERS_LEN + |m.body|] == m.body;
  }

  /** Stepping over a message leads to what follows it. */
  lemma {:induction false} FrameStep(m: Message, rest: bytes)
    requires Sendable(m)
    ensures Pad(HdrOf(m).len) == |Frame(m)| && (Frame(m) + rest)[Pad(HdrOf(m).len)..] == rest
  {
    PadAligned(HEADERS_LEN + |m.body|);
  }

  function Frames(ms: seq<Message>): bytes {
    if ms == [] then [] else Frame(ms[0]) + Frames(ms[1..])
  }

  lemma {:induction false} FramesAppend(ms: seq<Message>, m: Message)
    ensures Frames(ms + [m]) == Frames(ms) + Frame(m)
  {
    if ms != [] {
      FramesAppend(ms[1..], m);
      assert (ms + [m])[1..] == ms[1..] + [m];
    } else {
      assert [m][1..] == [];
    }
  }

  /** A stream taken apart by `parse_nlmsg`, each message followed at its padded length. */
  function ParseStream(buf: bytes): Outcome<seq<Parsed>>
    decreases |buf|
  {
    if buf == [] then Ok([])
    else match ParseNlmsg(buf)
      case Err(e) => Err(e)
      case Panic => Panic
      case Ok(p) =>
        if Pad(p.hdr.len) > |buf| then Panic
        else match ParseStream(buf[Pad(p.hdr.len)..])
          case Ok(ps) => Ok([p] + ps)
          case Err(e) => Err(e)
          case Panic => Panic
  }

  function ParsedAll(ms: seq<Message>): (ps: seq<Parsed>)
    ensures |ps| == |ms| && forall i | 0 <= i < |ms| :: ps[i] == ParsedOf(ms[i])
  {
    seq(|ms|, i requires 0 <= i < |ms| => ParsedOf(ms[i]))
  }

  lemma {:induction false} StreamParses(ms: seq<Message>)
    requires forall i | 0 <= i < |ms| :: Sendable(ms[i])
    ensures ParseStream(Frames(ms)) == Ok(ParsedAll(ms))
  {
    hide ParseNlmsg, Frame, Sendable;
    if ms == [] {
    } else {
      var m, rest := ms[0], ms[1..];
      FrameParses(m, Frames(rest));
      StreamParses(rest);
      FrameStep(m, Frames(rest));
      assert ParsedAll(ms) == [ParsedOf(m)] + ParsedAll(rest);
    }
  }

  // ----- objects -----

  datatype Kind = TableKind | ChainKind | RuleKind | SetKind | SetElementsKind

  datatype MsgType = Add | Del

  /** An `NfNetlinkObject`; the family is kept beside the attributes. */
  datatype Object = Object(kind: Kind, family: nat, vals: Record)

  function TypeOf(k: Kind): StructTy {
    match k
    case TableKind => TABLE
    case ChainKind => CHAIN
    case RuleKind => RULE
    case SetKind => SET
    case SetElementsKind => SET_ELEMENT_LIST
  }

  lemma {:induction false} TypeOfWellFormed(k: Kind)
    ensures WellFormed(TypeOf(k))
  {
    hide WellFormed;
    match k
    case TableKind => TableWellFormed();
    case ChainKind => ChainWellFormed();
    case RuleKind => RuleWellFormed();
    case SetKind => SetWellFormed();
    case SetElementsKind => SetElementsWellFormed();
  }

  /** `MSG_TYPE_ADD` and `MSG_TYPE_DEL`. */
  function MsgNumber(k: Kind, op: MsgType): (n: nat)
    ensures n < 256
  {
    match k
    case TableKind => if op.Add? then 0 else 2
    case ChainKind => if op.Add? then 3 else 5
    case RuleKind => if op.Add? then 6 else 8
    case SetKind => if op.Add? then 9 else 11
    case SetElementsKind => if op.Add? then 12 else 14
  }

  function OpFlags(k: Kind, op: MsgType): nat {
    NLM_F_ACK + (if op.Del? then 0 else if k.RuleKind? then NLM_F_CREATE + NLM_F_APPEND else NLM_F_CREATE)
  }

  /** Set element lists have no family of their own: they report and keep Unspec. */
  predicate ValidObject(o: Object) {
    && FieldsTyped(TypeOf(o.kind), o.vals)
    && o.family in FAMILY_CODES && (o.kind.SetElementsKind? ==> o.family == 0)
    && HEADERS_LEN + SizeFields(TypeOf(o.kind), o.vals, 0) < U32_LIMIT
  }

  /** The message `add_or_remove` writes. */
  function ObjectMessage(o: Object, op: MsgType, seqno: nat): Message
    requires ValidObject(o)
  {
    Message(NFNL_SUBSYS_NFTABLES * 256 + MsgNumber(o.kind, op), NLM_F_REQUEST + OpFlags(o.kind, op), seqno, o.family, 0,
            EncodeFields(TypeOf(o.kind), o.vals, 0))
  }

  lemma {:induction false} ObjectSendable(o: Object, op: MsgType, seqno: nat)
    requires ValidObject(o) && seqno < U32_LIMIT
    ensures Sendable(ObjectMessage(o, op, seqno))
  {
    FieldSizesAreAligned(TypeOf(o.kind), o.vals, 0);
  }

  /** The numbers of the kernel's interface: NFT_MSG_NEWTABLE is 0 in subsystem 10, NFT_MSG_DELTABLE is 2, and so
      on for the other kinds.  Additions carry REQUEST, ACK and CREATE, those of rules APPEND as well, and
      deletions REQUEST and ACK. */
  lemma {:induction false} ObjectNumbers(o: Object, seqno: nat)
    requires ValidObject(o)
    ensures ObjectMessage(o, Add, seqno).ty == ObjectType(o.kind)
    ensures ObjectMessage(o, Del, seqno).ty == ObjectType(o.kind) + 2
    ensures ObjectMessage(o, Add, seqno).flags == (if o.kind.RuleKind? then 0xC05 else 0x405)
    ensures ObjectMessage(o, Del, seqno).flags == 0x5
  {}

  function ObjectType(k: Kind): nat {
    match k
    case TableKind => 0xA00
    case ChainKind => 0xA03
    case RuleKind => 0xA06
    case SetKind => 0xA09
    case SetElementsKind => 0xA0C
  }

  datatype ParsedObject = ParsedObject(vals: Record, family: nat, rest: bytes)

  /** `parse_object`, for the structure `t` with the given message numbers. */
  function ParseObject(t: StructTy, addObj: nat, delObj: nat, buf: bytes): Outcome<ParsedObject>
    requires WellFormed(t)
  {
    match ParseNlmsg(buf)
    case Err(e) => Err(e)
    case Panic => Panic
    case Ok(p) =>
      var op := p.hdr.ty % 256;
      if op != addObj && op != delObj then Err(UnexpectedType(p.hdr.ty))
      else if p.hdr.len < HEADERS_LEN || Pad(p.hdr.len) > |buf| then Panic
      else if !p.msg.NfGenMsg? then Err(UnexpectedType(p.hdr.ty))
      else
        match ReadAttrs(t, p.msg.data, Defaults(t))
        case Err(e) => Err(e)
        case Panic => Panic
        case Ok(vals) => Ok(ParsedObject(vals, p.msg.gen.family, buf[Pad(p.hdr.len)..]))
  }

  lemma {:induction false} FrameParsesAsObject(t: StructTy, addObj: nat, delObj: nat, m: Message, rest: bytes)
    requires WellFormed(t) && Sendable(m) && (m.ty % 256 == addObj || m.ty % 256 == delObj)
    ensures var r := ReadAttrs(t, m.body, Defaults(t));
            var o := ParseObject(t, addObj, delObj, Frame(m) + rest);
            && (r.Ok? ==> o == Ok(ParsedObject(r.value, m.family, rest)))
            && (!r.Ok? ==> !o.Ok?)
  {
    FrameParses(m, rest);
    FrameStep(m, rest);
  }

  datatype Received = Received(obj: Object, rest: bytes)

  /** `deserialize` of an object: `parse_object`, then the family out of the header. */
  function DeserializeObject(k: Kind, buf: bytes): Outcome<Received> {
    TypeOfWellFormed(k);
    match ParseObject(TypeOf(k), MsgNumber(k, Add), MsgNumber(k, Del), buf)
    case Err(e) => Err(e)
    case Panic => Panic
    case Ok(p) =>
      if p.family !in FAMILY_CODES then Err(UnknownProtocolFamily(p.family))
      else Ok(Received(Object(k, if k.SetElementsKind? then 0 else p.family, p.vals), p.rest))
  }

  /** A message of another kind is refused. */
  lemma {:induction false} KindsDoNotMix(o: Object, op: MsgType, seqno: nat, rest: bytes, k: Kind)
    requires ValidObject(o) && seqno < U32_LIMIT && k != o.kind
    ensures DeserializeObject(k, Frame(ObjectMessage(o, op, seqno)) + rest) ==
            Err(UnexpectedType(ObjectMessage(o, op, seqno).ty))
  {
    hide Frame, ParseNlmsg;
    var m := ObjectMessage(o, op, seqno);
    ObjectSendable(o, op, seqno);
    FrameParses(m, rest);
    TypeOfWellFormed(k);
  }

  /** So is one of a family that is not known; the family is taken from the header, except that lists of set
      elements have none. */
  lemma {:induction false} FamilyRead(k: Kind, m: Message, rest: bytes)
    requires Sendable(m) && (m.ty == ObjectType(k) || m.ty == ObjectType(k) + 2) && WellFormed(TypeOf(k))
    requires ReadAttrs(TypeOf(k), m.body, Defaults(TypeOf(k))).Ok?
    ensures var r := DeserializeObject(k, Frame(m) + rest);
            if m.family <= 3 || m.family == 5 || m.family == 7 || m.family == 10 || m.family == 12 then
              r.Ok? && r.value.obj.kind == k && r.value.obj.family == if k.SetElementsKind? then 0 else m.family
            else r == Err(UnknownProtocolFamily(m.family))
  {
    hide Frame, ReadAttrs;
    FrameParsesAsObject(TypeOf(k), MsgNumber(k, Add), MsgNumber(k, Del), m, rest);
  }

  /** The condition of `RoundTripsIff`, on an object. */
  ghost predicate ObjectSurvives(o: Object)
    requires ValidObject(o)
  {
    TypeOfWellFormed(o.kind);
    Survives(TypeOf(o.kind), Rec(o.vals))
  }

  /** Every object, added or deleted, in front of anything: `deserialize` gives back exactly that
      object and exactly the bytes behind it if and only if its attributes survive. */
  lemma {:induction false} ObjectRoundTripsIff(o: Object, op: MsgType, seqno: nat, rest: bytes)
    requires ValidObject(o) && seqno < U32_LIMIT
    ensures var r := DeserializeObject(o.kind, Frame(ObjectMessage(o, op, seqno)) + rest);
            && (r == Ok(Received(o, rest)) <==> ObjectSurvives(o))
            && (r.Ok? ==> r.value.rest == rest)
  {
    TypeOfWellFormed(o.kind);
    var t, m := TypeOf(o.kind), ObjectMessage(o, op, seqno);
    ObjectSendable(o, op, seqno);
    FrameParsesAsObject(t, MsgNumber(o.kind, Add), MsgNumber(o.kind, Del), m, rest);
    StructRoundTrip(t, o.vals);
  }

  /** An object whose attributes are not read is not read from its message. */
  lemma {:induction false} UnreadableObject(o: Object, op: MsgType, seqno: nat, rest: bytes)
    requires ValidObject(o) && seqno < U32_LIMIT && WellFormed(TypeOf(o.kind))
    requires !ReadAttrs(TypeOf(o.kind), EncodeFields(TypeOf(o.kind), o.vals, 0), Defaults(TypeOf(o.kind))).Ok?
    ensures !DeserializeObject(o.kind, Frame(ObjectMessage(o, op, seqno)) + rest).Ok?
  {
    ObjectSendable(o, op, seqno);
    var m := ObjectMessage(o, op, seqno);
    FrameParsesAsObject(TypeOf(o.kind), MsgNumber(o.kind, Add), MsgNumber(o.kind, Del), m, rest);
  }

  const POLICY: nat := 3    // the position of the policy among the fields of a chain

  lemma {:induction false} ChainFields()
    ensures |CHAIN.fields| == 7 && CHAIN.fields[POLICY].ty == Policy
    ensures forall i | 0 <= i < 7 :: !CHAIN.fields[i].ty.Variant?
  {}

  /** A chain with policy Drop that would survive with Accept is read back with Accept: the message says
      Drop, what the library reports is the opposite, and nothing else changes. */
  lemma {:induction false} DropChainComesBackAsAccept(o: Object, op: MsgType, seqno: nat, rest: bytes)
    requires o.kind.ChainKind? && ValidObject(o) && seqno < U32_LIMIT
    requires |o.vals| == 7 && o.vals[POLICY] == Some(Num(NF_DROP))
    requires var accepting := o.(vals := o.vals[POLICY := Some(Num(NF_ACCEPT))]);
             ValidObject(accepting) && ObjectSurvives(accepting)
    ensures DeserializeObject(ChainKind, Frame(ObjectMessage(o, op, seqno)) + rest)
            == Ok(Received(o.(vals := o.vals[POLICY := Some(Num(NF_ACCEPT))]), rest))
  {
    var m := ObjectMessage(o, op, seqno);
    ChainWellFormed();
    ChainFields();
    ObjectSendable(o, op, seqno);
    FrameParsesAsObject(CHAIN, MsgNumber(ChainKind, Add), MsgNumber(ChainKind, Del), m, rest);
    DropComesBackAsAccept(CHAIN, o.vals, POLICY);
  }
}
