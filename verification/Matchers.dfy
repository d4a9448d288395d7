/** The rule builder as a compiler: each matcher, the expressions it adds, and what they mean. */
module Matchers {
  import opened Bytes
  import opened Schema
  import opened Prefix
  import opened Packets

  type Octets4 = b: bytes | |b| == 4 witness [0, 0, 0, 0]
  type Octets16 = b: bytes | |b| == 16 witness Zeros(16)
  type Prefix4 = n: nat | n <= 32
  type Prefix16 = n: nat | n <= 128
  type Port = n: nat | n < 65536

  datatype IpAddr = V4(octets: Octets4) | V6(octets6: Octets16)

  datatype IpNetwork = Net4(addr: Octets4, prefix: Prefix4) | Net6(addr6: Octets16, prefix6: Prefix16)

  datatype Protocol = TCP | UDP

  datatype Matcher =
    | OfProtocol(protocol: Protocol)
    | Icmp | Icmpv6 | Igmp | Ip6in4
    | Sport(port: Port, protocol: Protocol)
    | Dport(port: Port, protocol: Protocol)
    | Established
    | Iface(name: bytes)
    | Oface(name: bytes)
    | Address(ip: IpAddr, source: bool)
    | Network(net: IpNetwork, source: bool)
    | Syn

  // ----- the expressions -----

  const IPPROTO_ICMP: byte := 1
  const IPPROTO_IGMP: byte := 2
  const IPPROTO_TCP: byte := 6
  const IPPROTO_UDP: byte := 17
  const IPPROTO_ICMPV6: byte := 58
  const IPPROTO_IPV6: byte := 41

  function Number(protocol: Protocol): byte { if protocol.TCP? then IPPROTO_TCP else IPPROTO_UDP }

  datatype HeaderField =
    | IPv4Protocol | IPv4Saddr | IPv4Daddr | IPv6Saddr | IPv6Daddr | TransportSport | TransportDport

  function Base(f: HeaderField): HeaderKind {
    if f.TransportSport? || f.TransportDport? then TransportHeader else NetworkHeader
  }

  function Offset(f: HeaderField): nat {
    match f
    case IPv4Protocol => 9
    case IPv4Saddr => 12
    case IPv4Daddr => 16
    case IPv6Saddr => 8
    case IPv6Daddr => 24
    case TransportSport => 0
    case TransportDport => 2
  }

  function Len(f: HeaderField): (n: nat)
    ensures n <= REGISTER_LEN
  {
    match f
    case IPv4Protocol => 1
    case IPv4Saddr => 4
    case IPv4Daddr => 4
    case IPv6Saddr => 16
    case IPv6Daddr => 16
    case TransportSport => 2
    case TransportDport => 2
  }

  /** `HighLevelPayload::build`. */
  function Build(f: HeaderField): Expression { Payload(REG1, Base(f), Offset(f), Len(f)) }

  function L4Is(b: byte): seq<Expression> { [Meta(REG1, L4Proto), Cmp(REG1, Eq, [b])] }

  function FamilyIs(b: byte): seq<Expression> { [Meta(REG1, NfProto), Cmp(REG1, Eq, [b])] }

  function FieldIs(f: HeaderField, data: bytes): seq<Expression> { [Build(f), Cmp(REG1, Eq, data)] }

  function FieldUnderMaskIs(f: HeaderField, mask: bytes, data: bytes): seq<Expression> {
    [Build(f), Bitwise(REG1, REG1, mask, Zeros(|mask|)), Cmp(REG1, Eq, data)]
  }

  function PortProgram(port: Port, protocol: Protocol, source: bool): seq<Expression> {
    L4Is(Number(protocol)) + FieldIs(if source then TransportSport else TransportDport, BigEndian(port, 2))
  }

  function AddressField(v4: bool, source: bool): (f: HeaderField)
    ensures Len(f) == if v4 then 4 else 16
    ensures Base(f) == NetworkHeader
  {
    if v4 then (if source then IPv4Saddr else IPv4Daddr) else (if source then IPv6Saddr else IPv6Daddr)
  }

  function IpProgram(ip: IpAddr, source: bool): seq<Expression> {
    match ip
    case V4(a) => FamilyIs(NFPROTO_IPV4) + FieldIs(AddressField(true, source), a)
    case V6(a) => FamilyIs(NFPROTO_IPV6) + FieldIs(AddressField(false, source), a)
  }

  /** `mask()` is the prefix in ones, `network()` the address under it. */
  function NetworkProgram(net: IpNetwork, source: bool): seq<Expression> {
    match net
    case Net4(a, k) =>
      var mask := PrefixMask(4, k);
      FamilyIs(NFPROTO_IPV4) + FieldUnderMaskIs(AddressField(true, source), mask, AndBytes(a, mask))
    case Net6(a, k) =>
      var mask := PrefixMask(16, k);
      FamilyIs(NFPROTO_IPV6) + FieldUnderMaskIs(AddressField(false, source), mask, AndBytes(a, mask))
  }

  const ESTABLISHED: nat := 2

  const ESTABLISHED_PROGRAM: seq<Expression> :=
    [Conntrack(REG1), Bitwise(REG1, REG1, LittleEndian(ESTABLISHED, 4), Zeros(4)), Cmp(REG1, Neq, Zeros(4))]

  const SYN_PROGRAM: seq<Expression> :=
    [Payload(REG1, TransportHeader, 13, 1), Bitwise(REG1, REG1, [2], Zeros(1)), Cmp(REG1, Neq, Zeros(1))]

  function NameProgram(key: MetaKey, name: bytes): seq<Expression> { [Meta(REG1, key), Cmp(REG1, Eq, name + [0])] }

  /** Whether the builder accepts the matcher at all: device names must leave room for their NUL. */
  predicate Accepted(m: Matcher) {
    m.Iface? || m.Oface? ==> |m.name| < IFNAMSIZ
  }

  function Program(m: Matcher): seq<Expression>
    requires Accepted(m)
  {
    match m
    case OfProtocol(protocol) => L4Is(Number(protocol))
    case Icmp => L4Is(IPPROTO_ICMP)
    case Icmpv6 => L4Is(IPPROTO_ICMPV6)
    case Igmp => L4Is(IPPROTO_IGMP)
    case Ip6in4 => FamilyIs(NFPROTO_IPV4) + FieldIs(IPv4Protocol, [IPPROTO_IPV6])
    case Sport(port, protocol) => PortProgram(port, protocol, false)
    case Dport(port, protocol) => PortProgram(port, protocol, false)
    case Established => ESTABLISHED_PROGRAM
    case Iface(name) => NameProgram(IifName, name)
    case Oface(name) => NameProgram(OifName, name)
    case Address(ip, source) => IpProgram(ip, source)
    case Network(net, source) => NetworkProgram(net, source)
    case Syn => SYN_PROGRAM
  }

  // ----- what matchers mean, without registers or expressions -----

  predicate Bit(n: nat, i: nat) { n / Pow2(i) % 2 == 1 }

  function TrimNuls(name: bytes): bytes {
    if name != [] && name[|name| - 1] == 0 then TrimNuls(name[..|name| - 1]) else name
  }

  /** Where the IPv4 and IPv6 headers keep the addresses: the source first, the destination behind it. */
  function AddressStart(v4: bool, source: bool): nat {
    if v4 then (if source then 12 else 16) else (if source then 8 else 24)
  }

  /** The packet has a network header of the family, with an address in it. */
  predicate HasAddress(p: Packet, v4: bool, source: bool) {
    && p.nfproto == (if v4 then 2 else 10)
    && AddressStart(v4, source) + (if v4 then 4 else 16) <= |p.network|
  }

  function AddressOf(p: Packet, v4: bool, source: bool): (a: bytes)
    requires HasAddress(p, v4, source)
    ensures |a| == if v4 then 4 else 16
  {
    p.network[AddressStart(v4, source)..AddressStart(v4, source) + (if v4 then 4 else 16)]
  }

  /** What holds of a packet a matcher lets through.  A source port matcher asks for the destination
      port, as its expressions do.  Protocols and families are the assigned numbers. */
  predicate Holds(m: Matcher, p: Packet) {
    match m
    case OfProtocol(TCP) => p.l4proto == 6
    case OfProtocol(UDP) => p.l4proto == 17
    case Icmp => p.l4proto == 1
    case Icmpv6 => p.l4proto == 58
    case Igmp => p.l4proto == 2
    case Ip6in4 => p.nfproto == 2 && |p.network| >= 10 && p.network[9] == 41
    case Sport(port, protocol) => HasPort(p, protocol, 2, port)
    case Dport(port, protocol) => HasPort(p, protocol, 2, port)
    case Established => Bit(p.ctState, 1)
    case Iface(name) => TrimNuls(name) == p.iif
    case Oface(name) => TrimNuls(name) == p.oif
    case Address(V4(a), source) => HasAddress(p, true, source) && AddressOf(p, true, source) == a
    case Address(V6(a), source) => HasAddress(p, false, source) && AddressOf(p, false, source) == a
    case Network(Net4(a, k), source) =>
      HasAddress(p, true, source) && TopBits(AddressOf(p, true, source), k) == TopBits(a, k)
    case Network(Net6(a, k), source) =>
      HasAddress(p, false, source) && TopBits(AddressOf(p, false, source), k) == TopBits(a, k)
    case Syn => |p.transport| >= 14 && Bit(p.transport[13], 1)
  }

  /** A packet of the protocol with the port, a big-endian number, at the given place. */
  predicate HasPort(p: Packet, protocol: Protocol, at: nat, port: Port) {
    && p.l4proto == (if protocol.TCP? then 6 else 17)
    && |p.transport| >= at + 2 && FromBigEndian(p.transport[at..at + 2]) == port
  }

  // ----- compiled matchers mean what they say -----

  /** A program that filters: it lets a packet through exactly when `c` holds. */
  ghost predicate Filters(es: seq<Expression>, p: Packet, regs: Registers, c: bool)
    requires ValidPacket(p)
  {
    var r := Run(es, p, regs);
    if c then r.Fallthrough? else r == NoMatch
  }

  lemma {:induction false} FilterBoth(es: seq<Expression>, fs: seq<Expression>, p: Packet, regs: Registers, c: bool,
                                      d: bool)
    requires ValidPacket(p) && Filters(es, p, regs, c)
    requires forall after: Registers :: Filters(fs, p, after, d)
    ensures Filters(es + fs, p, regs, c && d)
  {
    RunAppend(es, fs, p, regs);
    var r := Run(es, p, regs);
    if r.Fallthrough? { assert Filters(fs, p, r.regs, d); }
  }

  lemma {:induction false} SingleByteEqual(a: byte, b: byte)
    ensures [a] == [b] <==> a == b
  {
    if [a] == [b] { assert [a][0] == [b][0]; }
  }

  lemma {:induction false} L4IsFilters(b: byte, p: Packet, regs: Registers)
    requires ValidPacket(p)
    ensures Filters(L4Is(b), p, regs, p.l4proto == b)
  {
    LoadAndCompare(Meta(REG1, L4Proto), [p.l4proto], Eq, [b], p, regs);
    assert [p.l4proto][..1] == [p.l4proto];
    SingleByteEqual(p.l4proto, b);
  }

  lemma {:induction false} FamilyIsFilters(b: byte, p: Packet, regs: Registers)
    requires ValidPacket(p)
    ensures Filters(FamilyIs(b), p, regs, p.nfproto == b)
  {
    LoadAndCompare(Meta(REG1, NfProto), [p.nfproto], Eq, [b], p, regs);
    assert [p.nfproto][..1] == [p.nfproto];
    SingleByteEqual(p.nfproto, b);
  }

  /** The field lies within the packet's header. */
  predicate Present(f: HeaderField, p: Packet) { Offset(f) + Len(f) <= |HeaderAt(p, Base(f))| }

  function FieldOf(f: HeaderField, p: Packet): (d: bytes)
    requires Present(f, p)
    ensures |d| == Len(f)
  {
    HeaderAt(p, Base(f))[Offset(f)..Offset(f) + Len(f)]
  }

  lemma {:induction false} MissingField(f: HeaderField, es: seq<Expression>, p: Packet, regs: Registers)
    requires ValidPacket(p) && !Present(f, p)
    ensures Run([Build(f)] + es, p, regs) == NoMatch
  {
    RunAppend([Build(f)], es, p, regs);
    RunOne(Build(f), p, regs);
  }

  lemma {:induction false} FieldIsFilters(f: HeaderField, data: bytes, p: Packet, regs: Registers)
    requires ValidPacket(p) && |data| == Len(f)
    ensures Filters(FieldIs(f, data), p, regs, Present(f, p) && FieldOf(f, p) == data)
  {
    if Present(f, p) {
      var d := FieldOf(f, p);
      LoadAndCompare(Build(f), d, Eq, data, p, regs);
      assert d[..|data|] == d;
    } else {
      assert FieldIs(f, data) == [Build(f)] + [Cmp(REG1, Eq, data)];
      MissingField(f, [Cmp(REG1, Eq, data)], p, regs);
    }
  }

  lemma {:induction false} FieldUnderMaskFilters(f: HeaderField, mask: bytes, data: bytes, p: Packet, regs: Registers)
    requires ValidPacket(p) && |data| == |mask| == Len(f)
    ensures Filters(FieldUnderMaskIs(f, mask, data), p, regs, Present(f, p) && AndBytes(FieldOf(f, p), mask) == data)
  {
    var more := [Bitwise(REG1, REG1, mask, Zeros(|mask|)), Cmp(REG1, Eq, data)];
    if Present(f, p) {
      LoadMaskCompare(Build(f), FieldOf(f, p), mask, Eq, data, p, regs);
    } else {
      assert FieldUnderMaskIs(f, mask, data) == [Build(f)] + more;
      MissingField(f, more, p, regs);
    }
  }

  lemma {:induction false} PortFilters(port: Port, protocol: Protocol, source: bool, p: Packet, regs: Registers)
    requires ValidPacket(p)
    ensures Filters(PortProgram(port, protocol, source), p, regs, HasPort(p, protocol, if source then 0 else 2, port))
  {
    var f, data := if source then TransportSport else TransportDport, BigEndian(port, 2);
    L4IsFilters(Number(protocol), p, regs);
    var c := Present(f, p) && FieldOf(f, p) == data;
    forall after: Registers ensures Filters(FieldIs(f, data), p, after, c) { FieldIsFilters(f, data, p, after); }
    FilterBoth(L4Is(Number(protocol)), FieldIs(f, data), p, regs, p.l4proto == Number(protocol), c);
    Pow256Values();
    BigEndianRoundTrip(port, 2);
    if Present(f, p) && FromBigEndian(FieldOf(f, p)) == port { NumbersCompare(FieldOf(f, p), data); }
  }

  lemma {:induction false} Ip6in4Filters(p: Packet, regs: Registers)
    requires ValidPacket(p)
    ensures Filters(Program(Ip6in4), p, regs, Holds(Ip6in4, p))
  {
    var f, data := IPv4Protocol, [IPPROTO_IPV6];
    FamilyIsFilters(NFPROTO_IPV4, p, regs);
    var c := Present(f, p) && FieldOf(f, p) == data;
    forall after: Registers ensures Filters(FieldIs(f, data), p, after, c) { FieldIsFilters(f, data, p, after); }
    FilterBoth(FamilyIs(NFPROTO_IPV4), FieldIs(f, data), p, regs, p.nfproto == NFPROTO_IPV4, c);
    if Present(f, p) {
      assert FieldOf(f, p) == [p.network[9]];
      SingleByteEqual(p.network[9], IPPROTO_IPV6);
    }
  }

  lemma {:induction false} AddressFilters(v4: bool, source: bool, a: bytes, p: Packet, regs: Registers)
    requires ValidPacket(p) && |a| == if v4 then 4 else 16
    ensures var family := if v4 then NFPROTO_IPV4 else NFPROTO_IPV6;
            Filters(FamilyIs(family) + FieldIs(AddressField(v4, source), a), p, regs,
                    HasAddress(p, v4, source) && AddressOf(p, v4, source) == a)
  {
    hide Run, FieldIs, FamilyIs;
    var family, f := if v4 then NFPROTO_IPV4 else NFPROTO_IPV6, AddressField(v4, source);
    FamilyIsFilters(family, p, regs);
    var c := Present(f, p) && FieldOf(f, p) == a;
    forall after: Registers ensures Filters(FieldIs(f, a), p, after, c) { FieldIsFilters(f, a, p, after); }
    FilterBoth(FamilyIs(family), FieldIs(f, a), p, regs, p.nfproto == family, c);
  }

  /** `match_network` is prefix membership: the program lets through exactly the packets of the family
      whose address has the network's top bits. */
  lemma {:induction false} NetworkFilters(v4: bool, source: bool, a: bytes, k: nat, p: Packet, regs: Registers)
    requires ValidPacket(p) && |a| == (if v4 then 4 else 16) && k <= 8 * |a|
    ensures var family := if v4 then NFPROTO_IPV4 else NFPROTO_IPV6;
            var mask := PrefixMask(|a|, k);
            Filters(FamilyIs(family) + FieldUnderMaskIs(AddressField(v4, source), mask, AndBytes(a, mask)), p, regs,
                    HasAddress(p, v4, source) && TopBits(AddressOf(p, v4, source), k) == TopBits(a, k))
  {
    hide Run, AndBytes, PrefixMask, TopBits, FieldUnderMaskIs, FamilyIs;
    var family, f := if v4 then NFPROTO_IPV4 else NFPROTO_IPV6, AddressField(v4, source);
    var mask := PrefixMask(|a|, k);
    var data := AndBytes(a, mask);
    FamilyIsFilters(family, p, regs);
    var c := Present(f, p) && AndBytes(FieldOf(f, p), mask) == data;
    forall after: Registers ensures Filters(FieldUnderMaskIs(f, mask, data), p, after, c) {
      FieldUnderMaskFilters(f, mask, data, p, after);
    }
    FilterBoth(FamilyIs(family), FieldUnderMaskIs(f, mask, data), p, regs, p.nfproto == family, c);
    if Present(f, p) { MaskIsPrefix(FieldOf(f, p), a, k); }
  }

  // ----- device names -----

  lemma {:induction false} TrimPadded(name: bytes, k: nat)
    requires forall i | 0 <= i < |name| :: name[i] != 0
    ensures TrimNuls(name + Zeros(k)) == name
  {
    if k == 0 {
      assert name + Zeros(0) == name;
    } else {
      var b := name + Zeros(k);
      assert b[..|b| - 1] == name + Zeros(k - 1);
      TrimPadded(name, k - 1);
    }
  }

  lemma {:induction false} TrimRestores(name: bytes)
    ensures |TrimNuls(name)| <= |name| && TrimNuls(name) + Zeros(|name| - |TrimNuls(name)|) == name
  {
    if name != [] && name[|name| - 1] == 0 {
      var init := name[..|name| - 1];
      TrimRestores(init);
      assert Zeros(|init| - |TrimNuls(init)|) + [0] == Zeros(|name| - |TrimNuls(init)|);
      assert init + [0] == name;
    } else {
      assert name + Zeros(0) == name;
    }
  }

  lemma {:induction false} PaddingPrefix(device: bytes, n: nat)
    requires |device| <= n < IFNAMSIZ
    ensures Padding(device)[..n] == device + Zeros(n - |device|)
    ensures Padding(device)[..n + 1] == device + Zeros(n - |device|) + [0]
  {}

  lemma {:induction false} ShorterFails(name: bytes, device: bytes)
    requires |name| < |device| && DeviceName(device)
    ensures Padding(device)[..|name| + 1] != name + [0]
  {
    assert Padding(device)[..|name| + 1][|name|] == device[|name|] != 0;
  }

  lemma {:induction false} AppendEqual(a: bytes, b: bytes, x: byte)
    ensures a + [x] == b + [x] <==> a == b
  {
    if a + [x] == b + [x] {
      assert |a| == |b| && (a + [x])[..|a|] == a && (b + [x])[..|b|] == b;
    }
  }

  /** The comparison with the NUL included is exact: neither a prefix nor a longer name passes. */
  lemma {:induction false} NameIsExact(name: bytes, device: bytes)
    requires |name| < IFNAMSIZ && DeviceName(device)
    ensures Padding(device)[..|name| + 1] == name + [0] <==> TrimNuls(name) == device
  {
    TrimRestores(name);
    if |name| < |device| {
      ShorterFails(name, device);
    } else {
      var k := |name| - |device|;
      PaddingPrefix(device, |name|);
      AppendEqual(device + Zeros(k), name, 0);
      TrimPadded(device, k);
    }
  }

  lemma {:induction false} NameFilters(key: MetaKey, name: bytes, device: bytes, p: Packet, regs: Registers)
    requires ValidPacket(p) && |name| < IFNAMSIZ && DeviceName(device) && MetaData(p, key) == Padding(device)
    ensures Filters(NameProgram(key, name), p, regs, TrimNuls(name) == device)
  {
    LoadAndCompare(Meta(REG1, key), Padding(device), Eq, name + [0], p, regs);
    NameIsExact(name, device);
  }

  // ----- flags -----

  lemma {:induction false} AndTwo(x: byte)
    ensures AndByte(x, 2) == 0 <==> !Bit(x, 1)
  {
    assert BitAnd(8, x, 2) == 2 * BitAnd(7, x / 2, 1) + 0;
    assert BitAnd(7, x / 2, 1) == 2 * BitAnd(6, x / 2 / 2, 0) + (x / 2) % 2;
    AndZero(6, x / 2 / 2);
    assert Pow2(1) == 2;
  }

  lemma {:induction false} SynFilters(p: Packet, regs: Registers)
    requires ValidPacket(p)
    ensures Filters(SYN_PROGRAM, p, regs, Holds(Syn, p))
  {
    var load := Payload(REG1, TransportHeader, 13, 1);
    var more := [Bitwise(REG1, REG1, [2], Zeros(1)), Cmp(REG1, Neq, Zeros(1))];
    if |p.transport| >= 14 {
      var x := p.transport[13];
      assert p.transport[13..14] == [x];
      LoadMaskCompare(load, [x], [2], Neq, Zeros(1), p, regs);
      AndTwo(x);
      assert AndBytes([x], [2]) == [AndByte(x, 2)] + AndBytes([x][1..], [2][1..]);
      assert AndBytes([x], [2]) == Zeros(1) <==> AndByte(x, 2) == 0;
    } else {
      assert SYN_PROGRAM == [load] + more;
      RunAppend([load], more, p, regs);
      RunOne(load, p, regs);
    }
  }

  lemma {:induction false} LowByteBit(n: nat)
    ensures Bit(n % 256, 1) <==> Bit(n, 1)
  {
    assert Pow2(1) == 2;
    var h, x := n / 256, n % 256;
    DivUnique(n, 2, 128 * h + x / 2, x % 2);
    DivUnique(128 * h + x / 2, 2, 64 * h + x / 2 / 2, x / 2 % 2);
  }

  /** A four-byte word under the mask of the ESTABLISHED bit. */
  lemma {:induction false} EstablishedMask(d: bytes, x: byte)
    requires |d| == 4 && d[0] == x
    ensures AndBytes(d, [2] + Zeros(3)) == Zeros(4) <==> !Bit(x, 1)
  {
    var mask := [2] + Zeros(3);
    assert mask[1..] == Zeros(3);
    MaskedZeros(d[1..]);
    AndTwo(x);
    ConsEqual(AndByte(x, 2), Zeros(3), 0, Zeros(3));
    assert [0] + Zeros(3) == Zeros(4);
  }

  lemma {:induction false} EstablishedBytes()
    ensures LittleEndian(ESTABLISHED, 4) == [2] + Zeros(3)
  {
    assert LittleEndian(0, 1) == [0] && LittleEndian(0, 2) == [0] + LittleEndian(0, 1);
    assert LittleEndian(0, 3) == [0] + LittleEndian(0, 2);
  }

  lemma {:induction false} EstablishedFilters(p: Packet, regs: Registers)
    requires ValidPacket(p)
    ensures Filters(ESTABLISHED_PROGRAM, p, regs, Holds(Established, p))
  {
    var d := LittleEndian(p.ctState, 4);
    EstablishedBytes();
    assert d[0] == p.ctState % 256;
    LoadMaskCompare(Conntrack(REG1), d, [2] + Zeros(3), Neq, Zeros(4), p, regs);
    EstablishedMask(d, p.ctState % 256);
    LowByteBit(p.ctState);
  }

  // ----- the theorems -----

  /** Every matcher, every packet, any register contents: the compiled program lets the packet through
      if the matcher holds of it, and does not match otherwise. */
  lemma {:induction false} MatcherMeans(m: Matcher, p: Packet, regs: Registers)
    requires Accepted(m) && ValidPacket(p)
    ensures Filters(Program(m), p, regs, Holds(m, p))
  {
    hide Filters, Run, L4Is, FamilyIs, FieldIs, FieldUnderMaskIs, PortProgram, NameProgram;
    hide PrefixMask, AndBytes, TopBits;
    match m
    case OfProtocol(protocol) => L4IsFilters(Number(protocol), p, regs);
    case Icmp => L4IsFilters(IPPROTO_ICMP, p, regs);
    case Icmpv6 => L4IsFilters(IPPROTO_ICMPV6, p, regs);
    case Igmp => L4IsFilters(IPPROTO_IGMP, p, regs);
    case Ip6in4 => Ip6in4Filters(p, regs);
    case Sport(port, protocol) => PortFilters(port, protocol, false, p, regs);
    case Dport(port, protocol) => PortFilters(port, protocol, false, p, regs);
    case Established => EstablishedFilters(p, regs);
    case Iface(name) => NameFilters(IifName, name, p.iif, p, regs);
    case Oface(name) => NameFilters(OifName, name, p.oif, p, regs);
    case Address(V4(a), source) => AddressFilters(true, source, a, p, regs);
    case Address(V6(a), source) => AddressFilters(false, source, a, p, regs);
    case Network(Net4(a, k), source) => NetworkFilters(true, source, a, k, p, regs);
    case Network(Net6(a, k), source) => NetworkFilters(false, source, a, k, p, regs);
    case Syn => SynFilters(p, regs);
  }

  predicate AllAccepted(ms: seq<Matcher>) { forall i | 0 <= i < |ms| :: Accepted(ms[i]) }

  predicate AllHold(ms: seq<Matcher>, p: Packet) { forall i | 0 <= i < |ms| :: Holds(ms[i], p) }

  function ProgramAll(ms: seq<Matcher>): seq<Expression>
    requires AllAccepted(ms)
  {
    if ms == [] then [] else Program(ms[0]) + ProgramAll(ms[1..])
  }

  /** Composition is conjunction: a sequence of matchers lets a packet through if and only if each of
      them holds, whatever the registers held. */
  lemma {:induction false} CompositionIsConjunction(ms: seq<Matcher>, p: Packet, regs: Registers)
    requires AllAccepted(ms) && ValidPacket(p)
    ensures Filters(ProgramAll(ms), p, regs, AllHold(ms, p))
    decreases |ms|
  {
    if ms == [] {
    } else {
      var rest := ms[1..];
      MatcherMeans(ms[0], p, regs);
      forall after: Registers ensures Filters(ProgramAll(rest), p, after, AllHold(rest, p)) {
        CompositionIsConjunction(rest, p, after);
      }
      FilterBoth(Program(ms[0]), ProgramAll(rest), p, regs, Holds(ms[0], p), AllHold(rest, p));
      assert AllHold(ms, p) <==> Holds(ms[0], p) && AllHold(rest, p) by {
        assert forall i | 0 < i < |ms| :: ms[i] == rest[i - 1];
      }
    }
  }

  /** The order of the matchers does not matter. */
  lemma {:induction false} OrderDoesNotMatter(ms: seq<Matcher>, ns: seq<Matcher>, p: Packet, regs: Registers)
    requires AllAccepted(ms) && AllAccepted(ns) && multiset(ms) == multiset(ns) && ValidPacket(p)
    ensures Run(ProgramAll(ms), p, regs).Fallthrough? <==> Run(ProgramAll(ns), p, regs).Fallthrough?
    ensures Run(ProgramAll(ms), p, regs) == NoMatch <==> Run(ProgramAll(ns), p, regs) == NoMatch
  {
    CompositionIsConjunction(ms, p, regs);
    CompositionIsConjunction(ns, p, regs);
    forall m: Matcher ensures m in ms <==> m in ns {
      assert m in ms <==> m in multiset(ms);
      assert m in ns <==> m in multiset(ns);
    }
    assert AllHold(ms, p) <==> forall m | m in ms :: Holds(m, p);
    assert AllHold(ns, p) <==> forall m | m in ns :: Holds(m, p);
  }

  // ----- destination NAT -----

  function DnatProgram(dst: IpAddr, port: Option<Port>): seq<Expression> {
    var address := if dst.V4? then dst.octets else dst.octets6;
    [Immediate(REG1, address)]
    + (if port.Some? then [Immediate(REG2, BigEndian(port.value, 2))] else [])
    + [Dnat(NFPROTO_IPV4, REG1, if port.Some? then Some(REG2) else None)]
  }

  lemma {:induction false} DnatOperands(dst: IpAddr, port: Option<Port>, p: Packet, regs: Registers)
    requires ValidPacket(p)
    ensures var address := if dst.V4? then dst.octets else dst.octets6;
            Run(DnatProgram(dst, port), p, regs) ==
            Translated(address[..4], if port.Some? then Some(BigEndian(port.value, 2)) else None)
  {
    var address := if dst.V4? then dst.octets else dst.octets6;
    var load := Immediate(REG1, address);
    var loaded := Store(regs, REG1, address);
    LoadPrefix(regs, REG1, address, 4);
    RunOne(load, p, regs);
    if port.Some? {
      var number := BigEndian(port.value, 2);
      var second, dnat := Immediate(REG2, number), Dnat(NFPROTO_IPV4, REG1, Some(REG2));
      LoadStored(loaded, REG2, number);
      RunTwo(second, dnat, p, loaded);
      RunAppend([load], [second, dnat], p, regs);
      assert DnatProgram(dst, port) == [load] + [second, dnat];
    } else {
      var dnat := Dnat(NFPROTO_IPV4, REG1, None);
      RunTwo(load, dnat, p, regs);
      assert DnatProgram(dst, port) == [load, dnat];
    }
  }

  // ----- statements -----

  datatype Statement =
    | Conclude(verdict: VerdictKind)
    | Translate(dst: IpAddr, port: Option<Port>)
    | MasqueradeSource

  function StatementProgram(s: Statement): (es: seq<Expression>)
    ensures es != []
  {
    match s
    case Conclude(kind) => [Verdict(kind)]
    case Translate(dst, port) => DnatProgram(dst, port)
    case MasqueradeSource => [Masquerade]
  }

  /** What a statement does with the packets that get to it. */
  function Effect(s: Statement): (r: Outcome)
    ensures !r.Fallthrough? && r != NoMatch
  {
    match s
    case Conclude(kind) => Decided(kind)
    case Translate(dst, port) =>
      Translated((if dst.V4? then dst.octets else dst.octets6)[..4],
                 if port.Some? then Some(BigEndian(port.value, 2)) else None)
    case MasqueradeSource => Masqueraded
  }

  /** What a rule of matchers and a statement is for. */
  function RuleOutcome(ms: seq<Matcher>, s: Statement, p: Packet): Outcome {
    if AllHold(ms, p) then Effect(s) else NoMatch
  }

  lemma {:induction false} StatementEffect(s: Statement, p: Packet, regs: Registers)
    requires ValidPacket(p)
    ensures Run(StatementProgram(s), p, regs) == Effect(s)
  {
    match s
    case Conclude(kind) => RunOne(Verdict(kind), p, regs);
    case Translate(dst, port) => DnatOperands(dst, port, p, regs);
    case MasqueradeSource => RunOne(Masquerade, p, regs);
  }

  /** A rule of matchers and a statement, followed by anything: the statement takes effect on exactly
      the packets all matchers hold of, and nothing behind it is looked at. */
  lemma {:induction false} StatementIsFinal(ms: seq<Matcher>, s: Statement, more: seq<Expression>, p: Packet,
                                            regs: Registers)
    requires AllAccepted(ms) && ValidPacket(p)
    ensures Run(ProgramAll(ms) + (StatementProgram(s) + more), p, regs) == RuleOutcome(ms, s, p)
  {
    hide StatementProgram, Effect, AllHold;
    CompositionIsConjunction(ms, p, regs);
    RunAppend(ProgramAll(ms), StatementProgram(s) + more, p, regs);
    var r := Run(ProgramAll(ms), p, regs);
    if r.Fallthrough? {
      RunAppend(StatementProgram(s), more, p, r.regs);
      StatementEffect(s, p, r.regs);
    }
  }

  /** After any matchers, translation applies to exactly the packets they hold of.  The expression is
      always of family IPv4 and so reads four bytes: the address given, if and only if that is an IPv4
      address, and the first quarter of an IPv6 address otherwise. */
  lemma {:induction false} DnatTranslates(ms: seq<Matcher>, dst: IpAddr, port: Option<Port>, p: Packet, regs: Registers)
    requires AllAccepted(ms) && ValidPacket(p)
    ensures var address := if dst.V4? then dst.octets else dst.octets6;
            var r := Run(ProgramAll(ms) + DnatProgram(dst, port), p, regs);
            && (!AllHold(ms, p) ==> r == NoMatch)
            && (AllHold(ms, p) ==>
                  && r == Translated(address[..4], if port.Some? then Some(BigEndian(port.value, 2)) else None)
                  && (r.address == address <==> dst.V4?))
  {
    hide Run, AllHold;
    StatementIsFinal(ms, Translate(dst, port), [], p, regs);
    assert DnatProgram(dst, port) + [] == DnatProgram(dst, port);
  }

  /** Announced with its own family, an address of either family would be read whole. */
  lemma {:induction false} OwnFamilyTranslates(dst: IpAddr, p: Packet, regs: Registers)
    requires ValidPacket(p)
    ensures var address := if dst.V4? then dst.octets else dst.octets6;
            Run([Immediate(REG1, address), Dnat(if dst.V4? then 2 else 10, REG1, None)], p, regs) ==
            Translated(address, None)
  {
    var address := if dst.V4? then dst.octets else dst.octets6;
    LoadStored(regs, REG1, address);
    RunTwo(Immediate(REG1, address), Dnat(if dst.V4? then 2 else 10, REG1, None), p, regs);
  }

  // ----- where the builder departs from its documentation -----

  /** The two ports agree on being the one asked for, as far as the packet has them. */
  predicate PortsAgree(p: Packet, port: Port) {
    if |p.transport| < 2 then true
    else if |p.transport| < 4 then FromBigEndian(p.transport[0..2]) != port
    else FromBigEndian(p.transport[0..2]) == port <==> FromBigEndian(p.transport[2..4]) == port
  }

  /** A source port matcher and a destination port matcher are the same expressions; a packet of the
      protocol is treated as its source port demands exactly when its two ports agree. */
  lemma {:induction false} SportAsksForDestination(port: Port, protocol: Protocol, p: Packet, regs: Registers)
    requires ValidPacket(p)
    ensures Program(Sport(port, protocol)) == Program(Dport(port, protocol))
    ensures (Run(Program(Sport(port, protocol)), p, regs).Fallthrough? <==> HasPort(p, protocol, 0, port))
            <==> (p.l4proto == (if protocol.TCP? then 6 else 17) ==> PortsAgree(p, port))
  {
    MatcherMeans(Sport(port, protocol), p, regs);
  }

  function Bare(l4proto: byte, transport: bytes): (p: Packet)
    ensures ValidPacket(p)
  {
    Packet(NFPROTO_IPV4, l4proto, [], [], 0, [], [], transport)
  }

  /** A TCP packet from port 22 to port 80: asked for source port 22 it is stopped, asked for source
      port 80 it is let through.  Cut off behind its source port, it is stopped as well. */
  lemma {:induction false} SportMissesItsPacket(regs: Registers)
    ensures var p := Bare(6, [0, 22, 0, 80]);
            && HasPort(p, TCP, 0, 22) && Run(Program(Sport(22, TCP)), p, regs) == NoMatch
            && !HasPort(p, TCP, 0, 80) && Run(Program(Sport(80, TCP)), p, regs).Fallthrough?
    ensures var p := Bare(6, [0, 22]);
            HasPort(p, TCP, 0, 22) && Run(Program(Sport(22, TCP)), p, regs) == NoMatch
  {
    var p, q := Bare(6, [0, 22, 0, 80]), Bare(6, [0, 22]);
    TwoBytes(0, 22);
    TwoBytes(0, 80);
    assert p.transport[0..2] == [0, 22] && p.transport[2..4] == [0, 80] && q.transport[0..2] == [0, 22];
    MatcherMeans(Sport(22, TCP), p, regs);
    MatcherMeans(Sport(80, TCP), p, regs);
    MatcherMeans(Sport(22, TCP), q, regs);
  }

  lemma {:induction false} TwoBytes(a: byte, b: byte)
    ensures FromBigEndian([a, b]) == 256 * a + b
  {
    assert [a, b][..1] == [a] && [a][..0] == [];
  }

  /** The SYN matcher does not look at the protocol, and so means "a TCP packet with SYN", as it is
      documented, exactly on TCP packets and on packets without a bit in that place. */
  lemma {:induction false} SynIgnoresProtocol(p: Packet, regs: Registers)
    requires ValidPacket(p)
    ensures forall b: byte ::
              Run(Program(Syn), p, regs).Fallthrough? <==> Run(Program(Syn), p.(l4proto := b), regs).Fallthrough?
    ensures (Run(Program(Syn), p, regs).Fallthrough? <==> p.l4proto == 6 && Holds(Syn, p))
            <==> (p.l4proto == 6 || !Holds(Syn, p))
  {
    hide Run, Program;
    MatcherMeans(Syn, p, regs);
    forall b: byte
      ensures Run(Program(Syn), p, regs).Fallthrough? <==> Run(Program(Syn), p.(l4proto := b), regs).Fallthrough?
    {
      MatcherMeans(Syn, p.(l4proto := b), regs);
    }
  }

  /** A UDP packet that the SYN matcher lets through. */
  lemma {:induction false} SynMatchesUdp(regs: Registers)
    ensures Run(Program(Syn), Bare(17, Zeros(13) + [2]), regs).Fallthrough?
  {
    hide Run, Program;
    var p := Bare(17, Zeros(13) + [2]);
    assert p.transport[13] == 2;
    assert Pow2(1) == 2 * Pow2(0);
    MatcherMeans(Syn, p, regs);
  }
}
