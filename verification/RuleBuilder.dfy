/** `Rule` and its builder methods, each of which pushes expressions onto the rule. */
module RuleBuilder {
  import opened Bytes
  import opened Schema
  import opened Prefix
  import opened Packets
  import opened Matchers
  import Stream
  import Objects
  import Rejected
  import Messages
  import BuiltRules
  import OnWire

  datatype BuilderError = InterfaceNameTooLong

  lemma {:induction false} ProgramAppend(ms: seq<Matcher>, m: Matcher)
    requires AllAccepted(ms) && Accepted(m)
    ensures AllAccepted(ms + [m]) && ProgramAll(ms + [m]) == ProgramAll(ms) + Program(m)
  {
    hide Program;
    if ms == [] {
      assert [m][1..] == [];
      assert ProgramAll([m]) == Program(m) + [];
    } else {
      assert (ms + [m])[1..] == ms[1..] + [m];
      ProgramAppend(ms[1..], m);
    }
  }

  lemma {:induction false} ProgramNotEmpty(m: Matcher)
    requires Accepted(m)
    ensures Program(m) != []
  {}

  /** `Bitwise::new`: mask and xor must be equally long. */
  function NewBitwise(mask: bytes, xor: bytes): (e: Option<Expression>)
    ensures e.Some? <==> |mask| == |xor|
  {
    if |mask| != |xor| then None else Some(Bitwise(REG1, REG1, mask, xor))
  }

  class Rule {
    const family: nat
    const table: bytes
    const chain: bytes
    var expressions: Option<seq<Expression>>
    ghost var matchers: seq<Matcher>      // the matcher calls made so far

    function Exprs(): seq<Expression>
      reads this
    {
      if expressions.Some? then expressions.value else []
    }

    /** After matcher calls only, the expressions are those of the calls, in order. */
    ghost predicate Built()
      reads this
    {
      AllAccepted(matchers) && Exprs() == ProgramAll(matchers) && (expressions.None? <==> matchers == [])
    }

    /** A statement has been added behind the matchers. */
    ghost predicate Concluded(s: Statement)
      reads this
    {
      AllAccepted(matchers) && expressions == Some(ProgramAll(matchers) + StatementProgram(s))
    }

    /** The rule as the object that is written: without expressions there is no list. */
    function AsObject(): Messages.Object
      reads this
    {
      var vals := BuiltRules.RuleVals(table, chain, Exprs());
      Messages.Object(Messages.RuleKind, family, if expressions.Some? then vals else vals[Rejected.EXPRESSIONS := None])
    }

    /** What the calls made so far mean: the rule lets through the packets all of them ask for. */
    lemma {:induction false} BuiltRuleFilters(p: Packet, regs: Registers)
      requires Built() && ValidPacket(p)
      ensures Filters(Exprs(), p, regs, AllHold(matchers, p))
    {
      CompositionIsConjunction(matchers, p, regs);
    }

    /** Whatever was called on the rule before its statement: written as an object, it asks the kernel for a rule
        that treats every packet as the calls ask.  It is read back if and only if the statement is not
        masquerading, and what is read back asks for the same. */
    lemma {:induction false} ConcludedRuleComesBack(s: Statement, op: Messages.MsgType, seqno: nat, rest: bytes)
      requires Concluded(s) && seqno < Messages.U32_LIMIT
      requires family in Objects.FAMILY_CODES && BuiltRules.Name(table) && BuiltRules.Name(chain)
      requires BuiltRules.WireSize(BuiltRules.Built(matchers, s)) <= Stream.MAX_PAYLOAD
      ensures var o := AsObject();
              && Messages.ValidObject(o) && OnWire.AsksFor(o, seqno, table, chain, matchers, s)
              && var frame := Messages.Frame(Messages.ObjectMessage(o, op, seqno));
              var r := Messages.DeserializeObject(Messages.RuleKind, frame + rest);
              && (r.Ok? <==> !s.MasqueradeSource?)
              && (r.Ok? ==>
                    && r.value == Messages.Received(o, rest)
                    && OnWire.AsksFor(r.value.obj, seqno, table, chain, matchers, s)
                    && BuiltRules.Carries(r.value.obj.vals, Exprs())
                    && forall es | BuiltRules.Carries(r.value.obj.vals, es) ::
                         es == Exprs() && BuiltRules.Decides(es, matchers, s))
    {
      OnWire.BuiltRuleComesBack(family, table, chain, matchers, s, op, seqno, rest);
    }

    /** Before any statement: the rule is read back if and only if it has an expression or, the chain's name
        being its last attribute then, that name is not empty. */
    lemma {:induction false} BuiltRuleComesBack(op: Messages.MsgType, seqno: nat, rest: bytes)
      requires Built() && seqno < Messages.U32_LIMIT
      requires family in Objects.FAMILY_CODES && BuiltRules.Name(table) && BuiltRules.Name(chain)
      requires BuiltRules.AllPushed(Exprs()) && BuiltRules.WireSize(Exprs()) <= Stream.MAX_PAYLOAD
      ensures var o := AsObject();
              && Messages.ValidObject(o)
              && var frame := Messages.Frame(Messages.ObjectMessage(o, op, seqno));
              var r := Messages.DeserializeObject(Messages.RuleKind, frame + rest);
              && (r.Ok? <==> matchers != [] || chain != [])
              && (r.Ok? ==> r.value == Messages.Received(o, rest))
    {
      hide Messages.DeserializeObject, Messages.Frame, Messages.ValidObject, Messages.ObjectMessage, Program;
      hide BuiltRules.WireSize, BuiltRules.ToWireAll;
      if matchers == [] {
        BuiltRules.WithoutList(table, chain, Exprs());
        BuiltRules.BareRuleComesBack(family, table, chain, op, seqno, rest);
      } else {
        ProgramNotEmpty(matchers[0]);
        BuiltRules.MatchersEmitted(matchers);
        BuiltRules.EmittedRuleComesBack(family, table, chain, Exprs(), op, seqno, rest);
      }
    }

    constructor (family: nat, table: bytes, chain: bytes)
      ensures Built() && matchers == [] && expressions == None
      ensures this.family == family && this.table == table && this.chain == chain
    {
      this.family, this.table, this.chain := family, table, chain;
      expressions, matchers := None, [];
    }

    /** Creates the list on the first call and appends to it. */
    method AddExpr(e: Expression)
      modifies this`expressions
      ensures expressions == Some(old(Exprs()) + [e])
    {
      if expressions.None? {
        expressions := Some([]);
      }
      expressions := Some(expressions.value + [e]);
    }

    /** Ghost bookkeeping of a matcher call, on a rule of matcher calls only. */
    ghost method Called(m: Matcher, before: seq<Expression>, built: bool)
      requires Accepted(m) && Exprs() == before + Program(m)
      requires built ==> AllAccepted(matchers) && before == ProgramAll(matchers)
      modifies this`matchers
      ensures built ==> Built() && matchers == old(matchers) + [m]
    {
      hide Program;
      if built {
        ProgramAppend(matchers, m);
        ProgramNotEmpty(m);
        matchers := matchers + [m];
      }
    }

    method AddL4(number: byte)
      modifies this`expressions
      ensures Exprs() == old(Exprs()) + L4Is(number)
    {
      AddExpr(Meta(REG1, L4Proto));
      AddExpr(Cmp(REG1, Eq, [number]));
    }

    method AddFamily(number: byte)
      modifies this`expressions
      ensures Exprs() == old(Exprs()) + FamilyIs(number)
    {
      AddExpr(Meta(REG1, NfProto));
      AddExpr(Cmp(REG1, Eq, [number]));
    }

    method AddField(f: HeaderField, data: bytes)
      modifies this`expressions
      ensures Exprs() == old(Exprs()) + FieldIs(f, data)
    {
      AddExpr(Build(f));
      AddExpr(Cmp(REG1, Eq, data));
    }

    method AddMaskedField(f: HeaderField, mask: bytes, zeros: bytes, data: bytes)
      requires zeros == Zeros(|mask|)
      modifies this`expressions
      ensures Exprs() == old(Exprs()) + FieldUnderMaskIs(f, mask, data)
    {
      AddExpr(Build(f));
      AddExpr(NewBitwise(mask, zeros).value);
      AddExpr(Cmp(REG1, Eq, data));
    }

    // ----- matchers -----

    method Protocol(protocol: Matchers.Protocol)
      modifies this
      ensures Exprs() == old(Exprs()) + Program(OfProtocol(protocol))
      ensures old(Built()) ==> Built() && matchers == old(matchers) + [OfProtocol(protocol)]
    {
      ghost var before, built := Exprs(), Built();
      AddL4(Number(protocol));
      Called(OfProtocol(protocol), before, built);
    }

    method Icmp()
      modifies this
      ensures Exprs() == old(Exprs()) + Program(Matcher.Icmp)
      ensures old(Built()) ==> Built() && matchers == old(matchers) + [Matcher.Icmp]
    {
      ghost var before, built := Exprs(), Built();
      AddL4(IPPROTO_ICMP);
      Called(Matcher.Icmp, before, built);
    }

    method Icmpv6()
      modifies this
      ensures Exprs() == old(Exprs()) + Program(Matcher.Icmpv6)
      ensures old(Built()) ==> Built() && matchers == old(matchers) + [Matcher.Icmpv6]
    {
      ghost var before, built := Exprs(), Built();
      AddL4(IPPROTO_ICMPV6);
      Called(Matcher.Icmpv6, before, built);
    }

    method Igmp()
      modifies this
      ensures Exprs() == old(Exprs()) + Program(Matcher.Igmp)
      ensures old(Built()) ==> Built() && matchers == old(matchers) + [Matcher.Igmp]
    {
      ghost var before, built := Exprs(), Built();
      AddL4(IPPROTO_IGMP);
      Called(Matcher.Igmp, before, built);
    }

    method Ip6in4()
      modifies this
      ensures Exprs() == old(Exprs()) + Program(Matcher.Ip6in4)
      ensures old(Built()) ==> Built() && matchers == old(matchers) + [Matcher.Ip6in4]
    {
      ghost var before, built := Exprs(), Built();
      AddFamily(NFPROTO_IPV4);
      AddField(IPv4Protocol, [IPPROTO_IPV6]);
      Called(Matcher.Ip6in4, before, built);
    }

    method MatchPort(port: Port, protocol: Matchers.Protocol, source: bool)
      modifies this`expressions
      ensures Exprs() == old(Exprs()) + PortProgram(port, protocol, source)
    {
      AddL4(Number(protocol));
      AddField(if source then TransportSport else TransportDport, BigEndian(port, 2));
    }

    method Sport(port: Port, protocol: Matchers.Protocol)
      modifies this
      ensures Exprs() == old(Exprs()) + Program(Matcher.Sport(port, protocol))
      ensures old(Built()) ==> Built() && matchers == old(matchers) + [Matcher.Sport(port, protocol)]
    {
      ghost var before, built := Exprs(), Built();
      MatchPort(port, protocol, false);
      Called(Matcher.Sport(port, protocol), before, built);
    }

    method Dport(port: Port, protocol: Matchers.Protocol)
      modifies this
      ensures Exprs() == old(Exprs()) + Program(Matcher.Dport(port, protocol))
      ensures old(Built()) ==> Built() && matchers == old(matchers) + [Matcher.Dport(port, protocol)]
    {
      ghost var before, built := Exprs(), Built();
      MatchPort(port, protocol, false);
      Called(Matcher.Dport(port, protocol), before, built);
    }

    method MatchIp(ip: IpAddr, source: bool)
      modifies this
      ensures Exprs() == old(Exprs()) + Program(Address(ip, source))
      ensures old(Built()) ==> Built() && matchers == old(matchers) + [Address(ip, source)]
    {
      ghost var before, built := Exprs(), Built();
      match ip {
        case V4(a) =>
          AddFamily(NFPROTO_IPV4);
          AddField(AddressField(true, source), a);
        case V6(a) =>
          AddFamily(NFPROTO_IPV6);
          AddField(AddressField(false, source), a);
      }
      Called(Address(ip, source), before, built);
    }

    /** The mask and the zeros are equally long for both families, so the builder never refuses. */
    method MatchNetwork(net: IpNetwork, source: bool) returns (error: Option<BuilderError>)
      modifies this
      ensures error == None
      ensures Exprs() == old(Exprs()) + Program(Network(net, source))
      ensures old(Built()) ==> Built() && matchers == old(matchers) + [Network(net, source)]
    {
      hide PrefixMask, AndBytes, AddressField;
      ghost var before, built := Exprs(), Built();
      match net {
        case Net4(a, k) =>
          var mask := PrefixMask(4, k);
          AddFamily(NFPROTO_IPV4);
          AddMaskedField(AddressField(true, source), mask, Zeros(4), AndBytes(a, mask));
        case Net6(a, k) =>
          var mask := PrefixMask(16, k);
          AddFamily(NFPROTO_IPV6);
          AddMaskedField(AddressField(false, source), mask, Zeros(16), AndBytes(a, mask));
      }
      Called(Network(net, source), before, built);
      return None;
    }

    method Saddr(ip: IpAddr)
      modifies this
      ensures Exprs() == old(Exprs()) + Program(Address(ip, true))
      ensures old(Built()) ==> Built() && matchers == old(matchers) + [Address(ip, true)]
    {
      MatchIp(ip, true);
    }

    method Daddr(ip: IpAddr)
      modifies this
      ensures Exprs() == old(Exprs()) + Program(Address(ip, false))
      ensures old(Built()) ==> Built() && matchers == old(matchers) + [Address(ip, false)]
    {
      MatchIp(ip, false);
    }

    method Snetwork(net: IpNetwork) returns (error: Option<BuilderError>)
      modifies this
      ensures error == None
      ensures Exprs() == old(Exprs()) + Program(Network(net, true))
      ensures old(Built()) ==> Built() && matchers == old(matchers) + [Network(net, true)]
    {
      error := MatchNetwork(net, true);
    }

    method Dnetwork(net: IpNetwork) returns (error: Option<BuilderError>)
      modifies this
      ensures error == None
      ensures Exprs() == old(Exprs()) + Program(Network(net, false))
      ensures old(Built()) ==> Built() && matchers == old(matchers) + [Network(net, false)]
    {
      error := MatchNetwork(net, false);
    }

    method Established() returns (error: Option<BuilderError>)
      modifies this
      ensures error == None
      ensures Exprs() == old(Exprs()) + Program(Matcher.Established)
      ensures old(Built()) ==> Built() && matchers == old(matchers) + [Matcher.Established]
    {
      ghost var before, built := Exprs(), Built();
      AddExpr(Conntrack(REG1));
      AddExpr(NewBitwise(LittleEndian(ESTABLISHED, 4), Zeros(4)).value);
      AddExpr(Cmp(REG1, Neq, Zeros(4)));
      Called(Matcher.Established, before, built);
      return None;
    }

    /** Refuses names of IFNAMSIZ bytes and more, before anything is added. */
    method Iface(name: bytes) returns (error: Option<BuilderError>)
      modifies this
      ensures error == if |name| >= 16 then Some(InterfaceNameTooLong) else None
      ensures error.Some? ==> expressions == old(expressions) && matchers == old(matchers)
      ensures error.None? ==> Exprs() == old(Exprs()) + Program(Matcher.Iface(name))
      ensures error.None? && old(Built()) ==> Built() && matchers == old(matchers) + [Matcher.Iface(name)]
    {
      if |name| >= IFNAMSIZ { return Some(InterfaceNameTooLong); }
      ghost var before, built := Exprs(), Built();
      AddExpr(Meta(REG1, IifName));
      AddExpr(Cmp(REG1, Eq, name + [0]));
      Called(Matcher.Iface(name), before, built);
      return None;
    }

    method Oface(name: bytes) returns (error: Option<BuilderError>)
      modifies this
      ensures error == if |name| >= 16 then Some(InterfaceNameTooLong) else None
      ensures error.Some? ==> expressions == old(expressions) && matchers == old(matchers)
      ensures error.None? ==> Exprs() == old(Exprs()) + Program(Matcher.Oface(name))
      ensures error.None? && old(Built()) ==> Built() && matchers == old(matchers) + [Matcher.Oface(name)]
    {
      if |name| >= IFNAMSIZ { return Some(InterfaceNameTooLong); }
      ghost var before, built := Exprs(), Built();
      AddExpr(Meta(REG1, OifName));
      AddExpr(Cmp(REG1, Eq, name + [0]));
      Called(Matcher.Oface(name), before, built);
      return None;
    }

    method Syn() returns (error: Option<BuilderError>)
      modifies this
      ensures error == None
      ensures Exprs() == old(Exprs()) + Program(Matcher.Syn)
      ensures old(Built()) ==> Built() && matchers == old(matchers) + [Matcher.Syn]
    {
      ghost var before, built := Exprs(), Built();
      AddExpr(Payload(REG1, TransportHeader, 13, 1));
      AddExpr(NewBitwise([2], Zeros(1)).value);
      AddExpr(Cmp(REG1, Neq, Zeros(1)));
      Called(Matcher.Syn, before, built);
      return None;
    }

    // ----- statements -----

    /** Adds the verdict.  On a rule of matchers that decides every packet. */
    method Accept()
      modifies this`expressions
      ensures expressions == Some(old(Exprs()) + [Verdict(VerdictKind.Accept)])
      ensures var s := Conclude(VerdictKind.Accept);
              old(Built()) ==> Concluded(s) && BuiltRules.Decides(Exprs(), matchers, s)
    {
      if Built() { BuiltRules.BuiltDecides(matchers, Conclude(VerdictKind.Accept)); }
      AddExpr(Verdict(VerdictKind.Accept));
    }

    method Drop()
      modifies this`expressions
      ensures expressions == Some(old(Exprs()) + [Verdict(VerdictKind.Drop)])
      ensures var s := Conclude(VerdictKind.Drop);
              old(Built()) ==> Concluded(s) && BuiltRules.Decides(Exprs(), matchers, s)
    {
      if Built() { BuiltRules.BuiltDecides(matchers, Conclude(VerdictKind.Drop)); }
      AddExpr(Verdict(VerdictKind.Drop));
    }

    method Masquerade()
      modifies this`expressions
      ensures expressions == Some(old(Exprs()) + [Expression.Masquerade])
      ensures old(Built()) ==> Concluded(MasqueradeSource) && BuiltRules.Decides(Exprs(), matchers, MasqueradeSource)
    {
      if Built() { BuiltRules.BuiltDecides(matchers, MasqueradeSource); }
      AddExpr(Expression.Masquerade);
    }

    /** Loads the address and the port and adds the NAT expression that reads them. */
    method DnatTo(dst: IpAddr, port: Option<Port>)
      modifies this`expressions
      ensures expressions == Some(old(Exprs()) + DnatProgram(dst, port))
      ensures var s := Translate(dst, port);
              old(Built()) ==> Concluded(s) && BuiltRules.Decides(Exprs(), matchers, s)
    {
      if Built() { BuiltRules.BuiltDecides(matchers, Translate(dst, port)); }
      AddExpr(Immediate(REG1, if dst.V4? then dst.octets else dst.octets6));
      if port.Some? {
        AddExpr(Immediate(REG2, BigEndian(port.value, 2)));
      }
      AddExpr(Dnat(NFPROTO_IPV4, REG1, if port.Some? then Some(REG2) else None));
      assert Exprs() == old(Exprs()) + DnatProgram(dst, port);
    }
  }
}
