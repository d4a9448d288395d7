/** What a rule's expressions do to a packet: a register machine that reads packet data, compares it
    and stops at a verdict. */
module Packets {
  import opened Bytes
  import opened Schema
  import opened Prefix

  const REGISTER_LEN: nat := 16
  const IFNAMSIZ: nat := 16

  const NFPROTO_IPV4: byte := 2
  const NFPROTO_IPV6: byte := 10

  datatype HeaderKind = LinkHeader | NetworkHeader | TransportHeader

  /** A packet: its metadata, the names of its devices, its conntrack state and its headers. */
  datatype Packet = Packet(nfproto: byte, l4proto: byte, iif: bytes, oif: bytes, ctState: nat,
                           link: bytes, network: bytes, transport: bytes)

  /** Device names hold no NUL and leave room for one. */
  predicate DeviceName(name: bytes) {
    |name| < IFNAMSIZ && forall i | 0 <= i < |name| :: name[i] != 0
  }

  predicate ValidPacket(p: Packet) {
    DeviceName(p.iif) && DeviceName(p.oif) && p.ctState < 0x1_0000_0000
  }

  // ----- expressions -----

  /** Data registers by number; 0 is the verdict register. */
  type Register = n: nat | 1 <= n <= 4 witness 1

  const REG1: Register := 1
  const REG2: Register := 2

  datatype MetaKey = NfProto | L4Proto | IifName | OifName

  datatype CmpOp = Eq | Neq | Lt | Lte | Gt | Gte

  datatype VerdictKind = Drop | Accept

  datatype Expression =
    | Meta(dreg: Register, key: MetaKey)
    | Payload(dreg: Register, base: HeaderKind, offset: nat, len: nat)
    | Conntrack(dreg: Register)
    | Bitwise(sreg: Register, dreg: Register, mask: bytes, xor: bytes)
    | Cmp(sreg: Register, op: CmpOp, data: bytes)
    | Immediate(dreg: Register, value: bytes)
    | Verdict(kind: VerdictKind)
    | Dnat(family: nat, ipRegister: Register, portRegister: Option<Register>)
    | Masquerade
    | Counter

  // ----- registers -----

  type Registers = r: seq<bytes> | |r| == 5 && forall i | 0 <= i < 5 :: |r[i]| == REGISTER_LEN
    witness [Zeros(16), Zeros(16), Zeros(16), Zeros(16), Zeros(16)]

  /** A load fills the front of a register and leaves the rest of it. */
  function Store(regs: Registers, r: Register, d: bytes): Registers
    requires |d| <= REGISTER_LEN
  {
    regs[r := d + regs[r][|d|..]]
  }

  function Load(regs: Registers, r: Register, n: nat): (d: bytes)
    requires n <= REGISTER_LEN
    ensures |d| == n
  {
    regs[r][..n]
  }

  lemma {:induction false} LoadStored(regs: Registers, r: Register, d: bytes)
    requires |d| <= REGISTER_LEN
    ensures Load(Store(regs, r, d), r, |d|) == d
    ensures Load(Store(regs, r, d), r, REGISTER_LEN)[|d|..] == Load(regs, r, REGISTER_LEN)[|d|..]
    ensures forall s: Register, n: nat | s != r && n <= REGISTER_LEN ::
              Load(Store(regs, r, d), s, n) == Load(regs, s, n)
  {}

  /** Less data can be compared than was loaded. */
  lemma {:induction false} LoadPrefix(regs: Registers, r: Register, d: bytes, n: nat)
    requires n <= |d| <= REGISTER_LEN
    ensures Load(Store(regs, r, d), r, n) == d[..n]
  {}

  // ----- evaluation -----

  /** Where evaluation stands: going on, not matching, or decided. */
  datatype Outcome =
    | Fallthrough(regs: Registers)
    | NoMatch
    | Decided(kind: VerdictKind)
    | Translated(address: bytes, port: Option<bytes>)
    | Masqueraded

  function Padding(name: bytes): (d: bytes)
    requires |name| < IFNAMSIZ
    ensures |d| == IFNAMSIZ
  {
    name + Zeros(IFNAMSIZ - |name|)
  }

  function MetaData(p: Packet, key: MetaKey): (d: bytes)
    requires ValidPacket(p)
    ensures |d| <= REGISTER_LEN
  {
    match key
    case NfProto => [p.nfproto]
    case L4Proto => [p.l4proto]
    case IifName => Padding(p.iif)
    case OifName => Padding(p.oif)
  }

  function HeaderAt(p: Packet, base: HeaderKind): bytes {
    match base
    case LinkHeader => p.link
    case NetworkHeader => p.network
    case TransportHeader => p.transport
  }

  predicate Compare(a: bytes, op: CmpOp, b: bytes)
    requires |a| == |b|
  {
    match op
    case Eq => a == b
    case Neq => a != b
    case Lt => FromBigEndian(a) < FromBigEndian(b)
    case Lte => FromBigEndian(a) <= FromBigEndian(b)
    case Gt => FromBigEndian(a) > FromBigEndian(b)
    case Gte => FromBigEndian(a) >= FromBigEndian(b)
  }

  /** The first byte in which two keys differ decides. */
  ghost predicate Before(a: bytes, b: bytes)
    requires |a| == |b|
  {
    exists k | 0 <= k < |a| :: a[k] < b[k] && a[..k] == b[..k]
  }

  lemma {:induction false} BeforeExtends(a: bytes, b: bytes)
    requires |a| == |b| > 0
    ensures var n := |a| - 1; Before(a, b) <==> Before(a[..n], b[..n]) || (a[..n] == b[..n] && a[n] < b[n])
  {
    var n := |a| - 1;
    if Before(a, b) {
      var k :| 0 <= k < |a| && a[k] < b[k] && a[..k] == b[..k];
      if k < n { assert a[..n][k] < b[..n][k] && a[..n][..k] == a[..k] && b[..n][..k] == b[..k]; }
    }
    if Before(a[..n], b[..n]) {
      var k :| 0 <= k < n && a[..n][k] < b[..n][k] && a[..n][..k] == b[..n][..k];
      assert a[k] < b[k] && a[..n][..k] == a[..k] && b[..n][..k] == b[..k];
    }
  }

  /** Keys compare as numbers in network order exactly as they compare byte by byte. */
  lemma {:induction false} NumbersCompare(a: bytes, b: bytes)
    requires |a| == |b|
    ensures FromBigEndian(a) < FromBigEndian(b) <==> Before(a, b)
    ensures FromBigEndian(a) == FromBigEndian(b) <==> a == b
  {
    if a == [] {
    } else {
      var n := |a| - 1;
      NumbersCompare(a[..n], b[..n]);
      BeforeExtends(a, b);
      assert a == a[..n] + [a[n]] && b == b[..n] + [b[n]];
    }
  }

  /** The comparisons, by the first byte that differs. */
  lemma {:induction false} ComparisonsMean(a: bytes, b: bytes)
    requires |a| == |b|
    ensures (Compare(a, Eq, b) <==> a == b) && (Compare(a, Neq, b) <==> a != b)
    ensures (Compare(a, Lt, b) <==> Before(a, b)) && (Compare(a, Gt, b) <==> Before(b, a))
    ensures (Compare(a, Lte, b) <==> !Before(b, a)) && (Compare(a, Gte, b) <==> !Before(a, b))
  {
    NumbersCompare(a, b);
    NumbersCompare(b, a);
  }

  /** The bytes an address takes in a register. */
  function AddressLen(family: nat): (n: nat)
    ensures n <= REGISTER_LEN
  {
    if family == NFPROTO_IPV4 then 4 else 16
  }

  /** One expression.  Loading what the packet does not have, or more than a register holds, does not
      match. */
  function Eval(e: Expression, p: Packet, regs: Registers): Outcome
    requires ValidPacket(p)
  {
    match e
    case Meta(dreg, key) => Fallthrough(Store(regs, dreg, MetaData(p, key)))
    case Payload(dreg, base, offset, len) =>
      var h := HeaderAt(p, base);
      if offset + len <= |h| && len <= REGISTER_LEN then Fallthrough(Store(regs, dreg, h[offset..offset + len]))
      else NoMatch
    case Conntrack(dreg) => Fallthrough(Store(regs, dreg, LittleEndian(p.ctState, 4)))
    case Bitwise(sreg, dreg, mask, xor) =>
      if |mask| == |xor| <= REGISTER_LEN then
        Fallthrough(Store(regs, dreg, XorBytes(AndBytes(Load(regs, sreg, |mask|), mask), xor)))
      else NoMatch
    case Cmp(sreg, op, data) =>
      if |data| <= REGISTER_LEN && Compare(Load(regs, sreg, |data|), op, data) then Fallthrough(regs) else NoMatch
    case Immediate(dreg, d) => if |d| <= REGISTER_LEN then Fallthrough(Store(regs, dreg, d)) else NoMatch
    case Verdict(kind) => Decided(kind)
    case Dnat(family, ip, port) =>
      Translated(Load(regs, ip, AddressLen(family)), if port.Some? then Some(Load(regs, port.value, 2)) else None)
    case Masquerade => Masqueraded
    case Counter => Fallthrough(regs)
  }

  /** Expressions are evaluated first to last, until one does not match or decides. */
  function Run(es: seq<Expression>, p: Packet, regs: Registers): Outcome
    requires ValidPacket(p)
    decreases |es|
  {
    if es == [] then Fallthrough(regs)
    else
      var r := Eval(es[0], p, regs);
      if r.Fallthrough? then Run(es[1..], p, r.regs) else r
  }

  lemma {:induction false} RunAppend(es: seq<Expression>, fs: seq<Expression>, p: Packet, regs: Registers)
    requires ValidPacket(p)
    ensures var r := Run(es, p, regs);
            Run(es + fs, p, regs) == if r.Fallthrough? then Run(fs, p, r.regs) else r
    decreases |es|
  {
    if es == [] {
      assert es + fs == fs;
    } else {
      assert (es + fs)[0] == es[0] && (es + fs)[1..] == es[1..] + fs;
      var r := Eval(es[0], p, regs);
      if r.Fallthrough? { RunAppend(es[1..], fs, p, r.regs); }
    }
  }

  /** Counters are transparent, wherever they stand. */
  lemma {:induction false} CountersPass(es: seq<Expression>, fs: seq<Expression>, p: Packet, regs: Registers)
    requires ValidPacket(p)
    ensures Run(es + ([Counter] + fs), p, regs) == Run(es + fs, p, regs)
  {
    RunAppend(es, [Counter] + fs, p, regs);
    RunAppend(es, fs, p, regs);
    var r := Run(es, p, regs);
    if r.Fallthrough? {
      RunAppend([Counter], fs, p, r.regs);
      RunOne(Counter, p, r.regs);
    }
  }

  // ----- blocks of expressions -----

  /** A load followed by a comparison of no more than was loaded: the outcome depends on the packet
      alone, not on what the registers held. */
  lemma {:induction false} LoadAndCompare(load: Expression, d: bytes, op: CmpOp, data: bytes, p: Packet,
                                          regs: Registers)
    requires ValidPacket(p) && |data| <= |d| <= REGISTER_LEN
    requires Eval(load, p, regs) == Fallthrough(Store(regs, REG1, d))
    ensures Run([load, Cmp(REG1, op, data)], p, regs) ==
            if Compare(d[..|data|], op, data) then Fallthrough(Store(regs, REG1, d)) else NoMatch
  {
    var after := Store(regs, REG1, d);
    LoadPrefix(regs, REG1, d, |data|);
    RunTwo(load, Cmp(REG1, op, data), p, regs);
  }

  lemma {:induction false} RunOne(e: Expression, p: Packet, regs: Registers)
    requires ValidPacket(p)
    ensures Run([e], p, regs) == Eval(e, p, regs)
  {
    assert [e][1..] == [];
  }

  lemma {:induction false} RunTwo(e: Expression, f: Expression, p: Packet, regs: Registers)
    requires ValidPacket(p)
    ensures Run([e, f], p, regs) ==
            var r := Eval(e, p, regs); if r.Fallthrough? then Eval(f, p, r.regs) else r
  {
    assert [e, f] == [e] + [f];
    RunAppend([e], [f], p, regs);
    RunOne(e, p, regs);
    if Eval(e, p, regs).Fallthrough? { RunOne(f, p, Eval(e, p, regs).regs); }
  }

  /** A load, a mask and a comparison of the masked bytes. */
  lemma {:induction false} LoadMaskCompare(load: Expression, d: bytes, mask: bytes, op: CmpOp, data: bytes,
                                           p: Packet, regs: Registers)
    requires ValidPacket(p) && |data| == |mask| == |d| <= REGISTER_LEN
    requires Eval(load, p, regs) == Fallthrough(Store(regs, REG1, d))
    ensures var r := Run([load, Bitwise(REG1, REG1, mask, Zeros(|mask|)), Cmp(REG1, op, data)], p, regs);
            if Compare(AndBytes(d, mask), op, data) then r.Fallthrough? else r == NoMatch
  {
    var bitwise := Bitwise(REG1, REG1, mask, Zeros(|mask|));
    var loaded, masked := Store(regs, REG1, d), AndBytes(d, mask);
    LoadStored(regs, REG1, d);
    XorZeros(masked);
    assert Eval(bitwise, p, loaded) == Fallthrough(Store(loaded, REG1, masked));
    LoadAndCompare(bitwise, masked, op, data, p, loaded);
    assert masked[..|data|] == masked;
    assert [load, bitwise, Cmp(REG1, op, data)] == [load] + [bitwise, Cmp(REG1, op, data)];
    RunAppend([load], [bitwise, Cmp(REG1, op, data)], p, regs);
    RunOne(load, p, regs);
  }
}
