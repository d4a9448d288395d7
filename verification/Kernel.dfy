/** The other side of the wire: what a rule message says, read by the numbers of the kernel's interface
    and not through the library's own layouts. */
module Kernel {
  import opened Bytes
  import opened Schema
  import opened Packets

  /** The payload of the first attribute with the given type field, flags included. */
  function Attr(buf: bytes, field: nat): Option<bytes>
    decreases |buf|
  {
    if |buf| < 4 then None
    else
      var len := FromLittleEndian(buf[0..2]);
      if len < 4 || len > |buf| then None
      else if FromLittleEndian(buf[2..4]) == field then Some(buf[4..len])
      else if Pad(len) > |buf| then None
      else Attr(buf[Pad(len)..], field)
  }

  function NestedAttr(buf: bytes, outer: nat, inner: nat): Option<bytes> {
    match Attr(buf, outer)
    case Some(b) => Attr(b, inner)
    case None => None
  }

  /** A 32-bit number in network order. */
  function Number(b: Option<bytes>): Option<nat> {
    if b.Some? && |b.value| == 4 then Some(FromBigEndian(b.value)) else None
  }

  function DataRegister(b: Option<bytes>): Option<Register> {
    var n := Number(b);
    if n.Some? && 1 <= n.value <= 4 then Some(n.value) else None
  }

  function MetaKeyOf(n: Option<nat>): Option<MetaKey> {
    if n == Some(15) then Some(NfProto) else if n == Some(16) then Some(L4Proto)
    else if n == Some(6) then Some(IifName) else if n == Some(7) then Some(OifName) else None
  }

  function HeaderKindOf(n: Option<nat>): Option<HeaderKind> {
    if n == Some(0) then Some(LinkHeader) else if n == Some(1) then Some(NetworkHeader)
    else if n == Some(2) then Some(TransportHeader) else None
  }

  function CmpOpOf(n: Option<nat>): Option<CmpOp> {
    if n == Some(0) then Some(Eq) else if n == Some(1) then Some(Neq) else if n == Some(2) then Some(Lt)
    else if n == Some(3) then Some(Lte) else if n == Some(4) then Some(Gt) else if n == Some(5) then Some(Gte)
    else None
  }

  /** NF_DROP is 0 and NF_ACCEPT is 1. */
  function VerdictOf(n: Option<nat>): Option<VerdictKind> {
    if n == Some(0) then Some(Drop) else if n == Some(1) then Some(Accept) else None
  }

  // ----- the data of each expression -----

  function MetaOf(d: bytes): Option<Expression> {
    var dreg, key := DataRegister(Attr(d, 1)), MetaKeyOf(Number(Attr(d, 2)));
    if dreg.Some? && key.Some? then Some(Meta(dreg.value, key.value)) else None
  }

  function PayloadOf(d: bytes): Option<Expression> {
    var dreg, base := DataRegister(Attr(d, 1)), HeaderKindOf(Number(Attr(d, 2)));
    var offset, len := Number(Attr(d, 3)), Number(Attr(d, 4));
    if dreg.Some? && base.Some? && offset.Some? && len.Some? then
      Some(Payload(dreg.value, base.value, offset.value, len.value))
    else None
  }

  /** Key 0 is the connection's state. */
  function ConntrackOf(d: bytes): Option<Expression> {
    var dreg := DataRegister(Attr(d, 1));
    if dreg.Some? && Number(Attr(d, 2)) == Some(0) then Some(Conntrack(dreg.value)) else None
  }

  function BitwiseOf(d: bytes): Option<Expression> {
    var sreg, dreg := DataRegister(Attr(d, 1)), DataRegister(Attr(d, 2));
    var mask, xor := NestedAttr(d, 0x8004, 1), NestedAttr(d, 0x8005, 1);
    if sreg.Some? && dreg.Some? && mask.Some? && xor.Some? && Number(Attr(d, 3)) == Some(|mask.value|) then
      Some(Bitwise(sreg.value, dreg.value, mask.value, xor.value))
    else None
  }

  function CmpOf(d: bytes): Option<Expression> {
    var sreg, op, data := DataRegister(Attr(d, 1)), CmpOpOf(Number(Attr(d, 2))), NestedAttr(d, 0x8003, 1);
    if sreg.Some? && op.Some? && data.Some? then Some(Cmp(sreg.value, op.value, data.value)) else None
  }

  /** Register 0 takes a verdict, the others take data. */
  function ImmediateOf(d: bytes): Option<Expression> {
    var dreg, data := DataRegister(Attr(d, 1)), NestedAttr(d, 0x8002, 1);
    if dreg.Some? && data.Some? then Some(Immediate(dreg.value, data.value))
    else if Number(Attr(d, 1)) == Some(0) then
      match Attr(d, 0x8002)
      case None => None
      case Some(b) =>
        var kind := VerdictOf(Number(NestedAttr(b, 0x8002, 1)));
        if kind.Some? then Some(Verdict(kind.value)) else None
    else None
  }

  /** Type 1 translates the destination. */
  function NatOf(d: bytes): Option<Expression> {
    var family, ip, port := Number(Attr(d, 2)), DataRegister(Attr(d, 3)), DataRegister(Attr(d, 5));
    if Number(Attr(d, 1)) == Some(1) && family.Some? && ip.Some? then Some(Dnat(family.value, ip.value, port)) else None
  }

  // ----- expressions, lists of them, and rules -----

  /** The name says how the data is read. */
  function DataOf(name: bytes, d: bytes): Option<Expression> {
    if name == Ascii("meta") then MetaOf(d)
    else if name == Ascii("payload") then PayloadOf(d)
    else if name == Ascii("ct") then ConntrackOf(d)
    else if name == Ascii("bitwise") then BitwiseOf(d)
    else if name == Ascii("cmp") then CmpOf(d)
    else if name == Ascii("immediate") then ImmediateOf(d)
    else if name == Ascii("nat") then NatOf(d)
    else if name == Ascii("masq") then Some(Masquerade)
    else if name == Ascii("counter") then Some(Counter)
    else None
  }

  /** The name is attribute 1, the data the nested attribute 2. */
  function ExpressionOf(e: bytes): Option<Expression> {
    match (Attr(e, 1), Attr(e, 0x8002))
    case (Some(name), Some(d)) => DataOf(name, d)
    case _ => None
  }

  /** Every element of a list is a nested attribute 1. */
  function ProgramOf(list: bytes): Option<seq<Expression>>
    decreases |list|
  {
    if list == [] then Some([])
    else if |list| < 4 then None
    else
      var len := FromLittleEndian(list[0..2]);
      if len < 4 || Pad(len) > |list| || FromLittleEndian(list[2..4]) != 0x8001 then None
      else
        match (ExpressionOf(list[4..len]), ProgramOf(list[Pad(len)..]))
        case (Some(e), Some(es)) => Some([e] + es)
        case _ => None
  }

  datatype RuleMessage = RuleMessage(family: byte, table: bytes, chain: bytes, program: seq<Expression>)

  /** A message of type NFT_MSG_NEWRULE of the nftables subsystem: the rule it asks for. */
  function NewRule(message: bytes): Option<RuleMessage> {
    if |message| < 20 || FromLittleEndian(message[0..4]) != |message| then None
    else if FromLittleEndian(message[4..6]) != 0xA06 then None
    else
      var body := message[20..];
      match (Attr(body, 1), Attr(body, 2), Attr(body, 0x8004))
      case (Some(table), Some(chain), Some(list)) =>
        var program := ProgramOf(list);
        if program.Some? then Some(RuleMessage(message[16], table, chain, program.value)) else None
      case _ => None
  }
}
