/** Rules from the builder on the wire: what is built is what comes back. */
module BuiltRules {
  import opened Bytes
  import opened Schema
  import opened Encoder
  import opened Decoder
  import opened Stream
  import opened RoundTrip
  import opened Objects
  import opened Rejected
  import opened Messages
  import P = Packets
  import M = Matchers
  import X = Prefix

  // ----- expressions as attribute values -----

  function DataValue(d: bytes): Value { Rec([Some(Data(d)), None]) }

  function KeyCode(k: P.MetaKey): nat {
    match k
    case NfProto => 15
    case L4Proto => 16
    case IifName => 6
    case OifName => 7
  }

  function BaseCode(base: P.HeaderKind): nat {
    match base
    case LinkHeader => 0
    case NetworkHeader => 1
    case TransportHeader => 2
  }

  function OpCode(op: P.CmpOp): nat {
    match op
    case Eq => 0
    case Neq => 1
    case Lt => 2
    case Lte => 3
    case Gt => 4
    case Gte => 5
  }

  function VerdictCode(k: P.VerdictKind): nat {
    match k
    case Drop => 0
    case Accept => 1
  }

  function VerdictValue(kind: P.VerdictKind): Value {
    Rec([None, Some(Rec([Some(Num(VerdictCode(kind))), None, None]))])
  }

  function Tag(e: P.Expression): (tag: nat)
    ensures tag < NUM_CASES
  {
    match e
    case Meta(_, _) => META_TAG
    case Payload(_, _, _, _) => PAYLOAD_TAG
    case Conntrack(_) => CT_TAG
    case Bitwise(_, _, _, _) => BITWISE_TAG
    case Cmp(_, _, _) => CMP_TAG
    case Immediate(_, _) => IMMEDIATE_TAG
    case Verdict(_) => IMMEDIATE_TAG
    case Dnat(_, _, _) => NAT_TAG
    case Masquerade => MASQUERADE_TAG
    case Counter => COUNTER_TAG
  }

  /** The fields the constructors set. */
  function Fields(e: P.Expression): Record {
    match e
    case Meta(dreg, key) => [Some(Num(dreg)), Some(Num(KeyCode(key))), None]
    case Payload(dreg, base, offset, len) =>
      [Some(Num(dreg)), Some(Num(BaseCode(base))), Some(Num(offset)), Some(Num(len)), None]
    case Conntrack(dreg) => [Some(Num(dreg)), Some(Num(0)), None, None]
    case Bitwise(sreg, dreg, mask, xor) =>
      [Some(Num(sreg)), Some(Num(dreg)), Some(Num(|mask|)), Some(DataValue(mask)), Some(DataValue(xor))]
    case Cmp(sreg, op, data) => [Some(Num(sreg)), Some(Num(OpCode(op))), Some(DataValue(data))]
    case Immediate(dreg, d) => [Some(Num(dreg)), Some(DataValue(d))]
    case Verdict(kind) => [Some(Num(0)), Some(VerdictValue(kind))]
    case Dnat(family, ip, port) =>
      [Some(Num(1)), Some(Num(family)), Some(Num(ip)), if port.Some? then Some(Num(port.value)) else None]
    case Masquerade => []
    case Counter => [None, None]
  }

  function ToWire(e: P.Expression): Value { RawExpression(Tag(e), Rec(Fields(e))) }

  /** Different expressions have different attribute values. */
  lemma {:induction false} ToWireInjective(e: P.Expression, f: P.Expression)
    requires ToWire(e) == ToWire(f)
    ensures e == f
  {}

  // ----- small values survive -----

  const SMALL: nat := 64

  /** A value that survives in a field and takes a few bytes there. */
  ghost predicate Easy(ft: Ty, v: Value) {
    && WellFormed(ft) && !ft.Variant? && HasType(ft, v)
    && 0 < SizeOf(ft, v) <= SMALL && Survives(ft, v)
  }

  ghost predicate EasyFields(t: StructTy, vals: Record) {
    && |vals| == |t.fields|
    && forall i | 0 <= i < |vals| :: vals[i].Some? ==> Easy(t.fields[i].ty, vals[i].value)
  }

  lemma {:induction false} EasySize(t: StructTy, vals: Record, i: nat)
    requires FieldsTyped(t, vals) && EasyFields(t, vals) && i <= |vals|
    ensures SizeFields(t, vals, i) <= (|vals| - i) * (NLA_HDRLEN + SMALL)
    decreases |vals| - i
  {
    if i == |vals| {
    } else {
      EasySize(t, vals, i + 1);
      if vals[i].Some? { PadMonotonic(SizeOf(t.fields[i].ty, vals[i].value), SMALL); }
    }
  }

  lemma {:induction false} EasyStruct(t: StructTy, vals: Record, setAt: nat)
    requires WellFormed(t) && EasyFields(t, vals) && setAt < |vals| && vals[setAt].Some?
    ensures HasType(t, Rec(vals)) && Survives(t, Rec(vals))
    ensures 0 < SizeOf(t, Rec(vals)) <= |vals| * (NLA_HDRLEN + SMALL)
  {
    assert FieldsTyped(t, vals);
    forall i | 0 <= i < |vals| ensures FitsField(t, vals, i) {}
    EasySize(t, vals, 0);
    FieldWithin(t, vals, setAt, 0);
  }

  lemma {:induction false} EasyData(d: bytes)
    requires 0 < |d| <= 16
    ensures Easy(DATA, DataValue(d))
  {
    var vals := [Some(Data(d)), None];
    DataWellFormed();
    assert DATA.fields[0].ty == Blob && Easy(Blob, Data(d));
    assert HasType(DATA, Rec(vals));
    assert FitsField(DATA, vals, 0) && FitsField(DATA, vals, 1);
    assert SizeFields(DATA, vals, 2) == 0;
    assert SizeFields(DATA, vals, 1) == 0;
    assert SizeFields(DATA, vals, 0) == NLA_HDRLEN + Pad(|d|);
    assert FieldSurvives(DATA, vals, 0);
  }

  lemma {:induction false} EasyU32(n: nat)
    requires n < U32_LIMIT
    ensures Easy(U32, Num(n))
  {
    Pow256Values();
  }

  lemma {:induction false} EasyEnum(codes: set<nat>, n: nat)
    requires n in codes && n < U32_LIMIT
    ensures Easy(Enum(4, codes), Num(n))
  {
    Pow256Values();
  }

  // ----- expressions survive -----

  /** What the builder produces: numbers that fit and data that is neither empty nor larger than a
      register. */
  predicate Emitted(e: P.Expression) {
    match e
    case Payload(_, _, offset, len) => offset < U32_LIMIT && len < U32_LIMIT
    case Bitwise(_, _, mask, xor) => 0 < |mask| == |xor| <= 16
    case Cmp(_, _, data) => 0 < |data| <= 16
    case Immediate(_, d) => 0 < |d| <= 16
    case Dnat(family, _, _) => family in FAMILY_CODES
    case Masquerade => false
    case Counter => false
    case _ => true
  }

  lemma {:induction false} MetaSurvives(e: P.Expression)
    requires e.Meta?
    ensures Kept(META, Fields(e))
  {
    var vals := Fields(e);
    MetaWellFormed();
    EasyEnum(REGISTER.codes, e.dreg);
    EasyEnum(META.fields[1].ty.codes, KeyCode(e.key));
    assert EasyFields(META, vals);
    EasyStruct(META, vals, 0);
  }

  /** The structure takes the values, keeps them, and takes a moderate number of bytes. */
  ghost predicate Kept(t: StructTy, vals: Record) {
    WellFormed(t) && HasType(t, Rec(vals)) && Survives(t, Rec(vals)) && 0 < SizeOf(t, Rec(vals)) <= 1000
  }

  lemma {:induction false} PayloadSurvives(e: P.Expression)
    requires e.Payload? && Emitted(e)
    ensures Kept(PAYLOAD, Fields(e))
  {
    var vals := Fields(e);
    PayloadWellFormed();
    EasyEnum(REGISTER.codes, e.dreg);
    EasyU32(BaseCode(e.base));
    EasyU32(e.offset);
    EasyU32(e.len);
    assert EasyFields(PAYLOAD, vals);
    EasyStruct(PAYLOAD, vals, 0);
  }

  lemma {:induction false} ConntrackSurvives(e: P.Expression)
    requires e.Conntrack?
    ensures Kept(CONNTRACK, Fields(e))
  {
    var vals := Fields(e);
    ConntrackWellFormed();
    EasyEnum(REGISTER.codes, e.dreg);
    EasyEnum(CONNTRACK.fields[1].ty.codes, 0);
    assert EasyFields(CONNTRACK, vals);
    EasyStruct(CONNTRACK, vals, 0);
  }

  lemma {:induction false} BitwiseSurvives(e: P.Expression)
    requires e.Bitwise? && Emitted(e)
    ensures Kept(BITWISE, Fields(e))
  {
    var vals := Fields(e);
    DataWellFormed();
    BitwiseWellFormed(DATA);
    EasyEnum(REGISTER.codes, e.sreg);
    EasyEnum(REGISTER.codes, e.dreg);
    EasyU32(|e.mask|);
    EasyData(e.mask);
    EasyData(e.xor);
    assert EasyFields(BITWISE, vals);
    EasyStruct(BITWISE, vals, 0);
  }

  lemma {:induction false} CmpSurvives(e: P.Expression)
    requires e.Cmp? && Emitted(e)
    ensures Kept(CMP, Fields(e))
  {
    var vals := Fields(e);
    DataWellFormed();
    CmpWellFormed(DATA);
    EasyEnum(REGISTER.codes, e.sreg);
    EasyEnum(CMP.fields[1].ty.codes, OpCode(e.op));
    EasyData(e.data);
    assert EasyFields(CMP, vals);
    EasyStruct(CMP, vals, 0);
  }

  lemma {:induction false} EasyVerdict(kind: P.VerdictKind)
    ensures Easy(DATA, VerdictValue(kind))
  {
    var code := Num(VerdictCode(kind));
    var inner: Record := [Some(code), None, None];
    VerdictWellFormed();
    DataWellFormed();
    EasyEnum(VERDICT_TYPE.codes, VerdictCode(kind));
    assert EasyFields(VERDICT, inner);
    EasyStruct(VERDICT, inner, 0);
    assert SizeFields(VERDICT, inner, 3) == 0;
    assert SizeFields(VERDICT, inner, 2) == 0;
    assert SizeFields(VERDICT, inner, 1) == 0;
    assert SizeFields(VERDICT, inner, 0) == 8;
    var vals: Record := [None, Some(Rec(inner))];
    assert EasyFields(DATA, vals);
    EasyStruct(DATA, vals, 1);
    assert SizeFields(DATA, vals, 2) == 0;
    assert SizeFields(DATA, vals, 1) == 12;
    assert SizeFields(DATA, vals, 0) == 12;
  }

  lemma {:induction false} ImmediateSurvives(e: P.Expression)
    requires (e.Immediate? || e.Verdict?) && Emitted(e)
    ensures Kept(IMMEDIATE, Fields(e))
  {
    var vals := Fields(e);
    DataWellFormed();
    CmpWellFormed(DATA);
    if e.Immediate? {
      EasyEnum(REGISTER.codes, e.dreg);
      EasyData(e.value);
    } else {
      EasyEnum(REGISTER.codes, 0);
      EasyVerdict(e.kind);
    }
    assert EasyFields(IMMEDIATE, vals);
    EasyStruct(IMMEDIATE, vals, 0);
  }

  lemma {:induction false} DnatSurvives(e: P.Expression)
    requires e.Dnat? && Emitted(e)
    ensures Kept(NAT, Fields(e))
  {
    var vals := Fields(e);
    NatWellFormed();
    EasyEnum(NAT.fields[0].ty.codes, 1);
    EasyEnum(FAMILY_CODES, e.family);
    EasyEnum(REGISTER.codes, e.ipRegister);
    if e.portRegister.Some? { EasyEnum(REGISTER.codes, e.portRegister.value); }
    assert EasyFields(NAT, vals);
    EasyStruct(NAT, vals, 0);
  }

  lemma {:induction false} FieldsSurviveFor(e: P.Expression)
    requires Emitted(e)
    ensures CaseType(Tag(e)).Struct? && Kept(CaseType(Tag(e)), Fields(e))
  {
    match e
    case Meta(_, _) => MetaSurvives(e);
    case Payload(_, _, _, _) => PayloadSurvives(e);
    case Conntrack(_) => ConntrackSurvives(e);
    case Bitwise(_, _, _, _) => BitwiseSurvives(e);
    case Cmp(_, _, _) => CmpSurvives(e);
    case Immediate(_, _) => ImmediateSurvives(e);
    case Verdict(_) => ImmediateSurvives(e);
    case Dnat(_, _, _) => DnatSurvives(e);
  }

  lemma {:induction false} NamedSurvives(variant: Ty, name: bytes, tag: nat, v: Value)
    requires variant.Variant? && WellFormed(variant) && tag < |variant.cases| && HasType(variant.cases[tag].ty, v)
    requires Utf8(name) && !EndsInNul(name) && |name| <= 1000 && Dispatch(variant, name) == tag
    requires Survives(variant.cases[tag].ty, v) && 0 < SizeOf(variant.cases[tag].ty, v) <= 1000
    ensures var e := Rec([Some(Data(name)), Some(Tagged(tag, v))]);
            WellFormed(Named(variant)) && HasType(Named(variant), e) && Survives(Named(variant), e)
            && SizeOf(Named(variant), e) > 0
  {
    var t := Named(variant);
    var vals: Record := [Some(Data(name)), Some(Tagged(tag, v))];
    NamedWellFormed(variant);
    assert HasType(Text, Data(name)) && HasType(variant, Tagged(tag, v));
    assert FieldsTyped(t, vals);
    assert FitsField(t, vals, 0) && FitsField(t, vals, 1);
    assert FieldSurvives(t, vals, 0);
    assert FieldSurvives(t, vals, 1);
    assert SetAfter(vals, 0) by { assert vals[1].Some?; }
    FieldWithin(t, vals, 0, 0);
  }

  lemma {:induction false} CaseNameShort(i: nat)
    ensures |CaseName(i)| <= 18
  {}

  lemma {:induction false} WireSurvives(e: P.Expression)
    requires Emitted(e)
    ensures WellFormed(EXPRESSION) && HasType(EXPRESSION, ToWire(e)) && Survives(EXPRESSION, ToWire(e))
    ensures SizeOf(EXPRESSION, ToWire(e)) > 0
  {
    var tag := Tag(e);
    FieldsSurviveFor(e);
    NamesSelect(tag);
    CasesInOrder(tag);
    CaseNameShort(tag);
    AsciiIsUtf8(CaseName(tag));
    NamedSurvives(EXPRESSION_VARIANT, CaseName(tag), tag, Rec(Fields(e)));
  }

  // ----- rules -----

  function ToWireAll(es: seq<P.Expression>): (items: seq<Value>)
    ensures |items| == |es| && forall i | 0 <= i < |es| :: items[i] == ToWire(es[i])
  {
    seq(|es|, i requires 0 <= i < |es| => ToWire(es[i]))
  }

  /** A rule as `Rule::new` and `add_expr` leave it. */
  function RuleVals(table: bytes, chain: bytes, es: seq<P.Expression>): Record {
    RuleRecord(table, chain, ToWireAll(es))
  }

  predicate Name(b: bytes) { Utf8(b) && !EndsInNul(b) && |b| <= MAX_PAYLOAD }

  ghost predicate AllEmitted(es: seq<P.Expression>) { forall i | 0 <= i < |es| :: Emitted(es[i]) }

  lemma {:induction false} ListSurvives(es: seq<P.Expression>)
    requires AllEmitted(es)
    ensures WellFormed(List(EXPRESSION)) && ItemsTyped(EXPRESSION, ToWireAll(es))
    ensures ItemsSurvive(EXPRESSION, ToWireAll(es), 0)
  {
    ExpressionWellFormed();
    var items := ToWireAll(es);
    forall i | 0 <= i < |items|
      ensures HasType(EXPRESSION, items[i]) && Survives(EXPRESSION, items[i]) && SizeOf(EXPRESSION, items[i]) > 0
    {
      WireSurvives(es[i]);
    }
  }

  function RuleRecord(table: bytes, chain: bytes, items: seq<Value>): Record {
    [Some(Data(table)), Some(Data(chain)), None, Some(Items(items)), None, None, None]
  }

  /** The rule shape around any list of structures. */
  lemma {:induction false} RuleShapeFits(e: StructTy, table: bytes, chain: bytes, items: seq<Value>)
    requires WellFormed(List(e)) && ItemsTyped(e, items) && SizeItems(e, items, 0) <= MAX_PAYLOAD
    requires Name(table) && Name(chain)
    ensures var t, vals := RuleOf(List(e)), RuleRecord(table, chain, items);
            WellFormed(t) && FieldsTyped(t, vals) && FieldsFit(t, vals) && HasType(List(e), Items(items))
  {
    var t, vals := RuleOf(List(e)), RuleRecord(table, chain, items);
    RuleOfWellFormed(List(e));
    assert HasType(Text, Data(table)) && HasType(Text, Data(chain)) && HasType(List(e), Items(items));
    assert FieldsTyped(t, vals);
    assert FitsField(t, vals, 0) && FitsField(t, vals, 1) && FitsField(t, vals, 3);
  }

  lemma {:induction false} RuleShapeSurvives(e: StructTy, table: bytes, chain: bytes, items: seq<Value>)
    requires WellFormed(List(e)) && ItemsTyped(e, items) && ItemsSurvive(e, items, 0) && items != []
    requires Name(table) && Name(chain) && SizeItems(e, items, 0) <= MAX_PAYLOAD
    ensures var t, vals := RuleOf(List(e)), RuleRecord(table, chain, items);
            WellFormed(t) && FieldsTyped(t, vals) && Survives(t, Rec(vals))
            && SizeFields(t, vals, 0) <= 3 * (NLA_HDRLEN + MAX_PAYLOAD + 4)
  {
    var t, vals := RuleOf(List(e)), RuleRecord(table, chain, items);
    RuleShapeFits(e, table, chain, items);
    PartsFit(e, items, 0);
    ItemWithin(e, items, 0, 0);
    assert Survives(List(e), Items(items));
    assert FieldSurvives(t, vals, 0) && FieldSurvives(t, vals, 1) && FieldSurvives(t, vals, 3);
    assert SetAfter(vals, 0) by { assert vals[1].Some?; }
    assert SetAfter(vals, 1) by { assert vals[3].Some?; }
    assert FieldsSurvive(t, vals, 0);
    RuleSize(t, vals);
  }

  lemma {:induction false} RuleSize(t: StructTy, vals: Record)
    requires FieldsTyped(t, vals) && FieldsFit(t, vals) && |vals| == 7
    requires vals[2].None? && vals[4].None? && vals[5].None? && vals[6].None?
    ensures SizeFields(t, vals, 0) <= 3 * (NLA_HDRLEN + MAX_PAYLOAD + 4)
  {
    assert FitsField(t, vals, 0) && FitsField(t, vals, 1) && FitsField(t, vals, 3);
    assert SizeFields(t, vals, 7) == 0;
    assert SizeFields(t, vals, 6) == 0;
    assert SizeFields(t, vals, 5) == 0;
    assert SizeFields(t, vals, 4) == 0;
    assert SizeFields(t, vals, 3) <= NLA_HDRLEN + MAX_PAYLOAD + 4;
    assert SizeFields(t, vals, 2) == SizeFields(t, vals, 3);
    assert SizeFields(t, vals, 1) <= 2 * (NLA_HDRLEN + MAX_PAYLOAD + 4);
  }

  /** Expressions the builder pushes, read back or not. */
  predicate AllPushed(es: seq<P.Expression>) {
    forall i | 0 <= i < |es| :: Emitted(es[i]) || es[i].Masquerade?
  }

  lemma {:induction false} PushedTyped(es: seq<P.Expression>)
    requires AllPushed(es)
    ensures WellFormed(List(EXPRESSION)) && ItemsTyped(EXPRESSION, ToWireAll(es))
  {
    hide WellFormed, HasType, Emitted;
    ExpressionWellFormed();
    var items := ToWireAll(es);
    forall i | 0 <= i < |items| ensures HasType(EXPRESSION, items[i]) {
      if es[i].Masquerade? {
        MasqueradeAndCounterAreHollow();
        MasqueradeOnWire();
      } else {
        WireSurvives(es[i]);
      }
    }
  }

  lemma {:induction false} MasqueradeOnWire()
    ensures ToWire(P.Masquerade) == MASQUERADE_EXPRESSION
  {}

  /** The bytes the expression list takes. */
  ghost function WireSize(es: seq<P.Expression>): nat
    requires AllPushed(es)
  {
    PushedTyped(es);
    SizeItems(EXPRESSION, ToWireAll(es), 0)
  }

  /** A rule made of emitted expressions, whose list fits its attribute, comes back from its message as
      it was written, together with the bytes behind it. */
  lemma {:induction false} EmittedRuleComesBack(family: nat, table: bytes, chain: bytes, es: seq<P.Expression>,
                                                op: MsgType, seqno: nat, rest: bytes)
    requires family in FAMILY_CODES && Name(table) && Name(chain) && seqno < U32_LIMIT
    requires es != [] && AllEmitted(es) && AllPushed(es) && WireSize(es) <= MAX_PAYLOAD
    ensures var o := Object(RuleKind, family, RuleVals(table, chain, es));
            && ValidObject(o)
            && DeserializeObject(RuleKind, Frame(ObjectMessage(o, op, seqno)) + rest) == Ok(Received(o, rest))
  {
    hide DeserializeObject, Frame, WellFormed, HasType, SizeOf, SizeFields, SizeItems, ItemsSurvive, Survives;
    var o := Object(RuleKind, family, RuleVals(table, chain, es));
    ListSurvives(es);
    RuleShapeSurvives(EXPRESSION, table, chain, ToWireAll(es));
    assert ValidObject(o);
    ObjectRoundTripsIff(o, op, seqno, rest);
  }

  /** A rule without expressions. */
  function BareRecord(table: bytes, chain: bytes): Record {
    [Some(Data(table)), Some(Data(chain)), None, None, None, None, None]
  }

  lemma {:induction false} WithoutList(table: bytes, chain: bytes, es: seq<P.Expression>)
    ensures RuleVals(table, chain, es)[EXPRESSIONS := None] == BareRecord(table, chain)
  {}

  lemma {:induction false} BareShape(t: StructTy, table: bytes, chain: bytes)
    requires WellFormed(t) && |t.fields| == 7 && t.fields[0].ty == Text && t.fields[1].ty == Text
    requires Name(table) && Name(chain)
    ensures var vals := BareRecord(table, chain);
            && FieldsTyped(t, vals) && FieldsFit(t, vals)
            && SizeFields(t, vals, 0) <= 2 * (NLA_HDRLEN + MAX_PAYLOAD + 4)
            && (Survives(t, Rec(vals)) <==> chain != [])
  {
    var vals := BareRecord(table, chain);
    assert HasType(Text, Data(table)) && HasType(Text, Data(chain));
    assert FitsField(t, vals, 0) && FitsField(t, vals, 1);
    assert FieldSurvives(t, vals, 0) && FieldSurvives(t, vals, 1);
    assert SetAfter(vals, 0) by { assert vals[1].Some?; }
    assert SizeFields(t, vals, 7) == 0;
    assert SizeFields(t, vals, 5) == 0;
    assert SizeFields(t, vals, 3) == 0;
    assert SizeFields(t, vals, 2) == 0;
    assert SizeFields(t, vals, 1) <= NLA_HDRLEN + MAX_PAYLOAD + 4;
  }

  lemma {:induction false} BareObject(family: nat, table: bytes, chain: bytes)
    requires family in FAMILY_CODES && Name(table) && Name(chain)
    ensures var o := Object(RuleKind, family, BareRecord(table, chain));
            ValidObject(o) && (ObjectSurvives(o) <==> chain != [])
  {
    hide WellFormed, HasType, SizeFields, Survives, FieldsFit;
    RuleExpressions();
    RuleNames();
    BareShape(RULE, table, chain);
  }

  lemma {:induction false} RuleNames()
    ensures RULE.fields[0].ty == Text && RULE.fields[1].ty == Text
  {}

  /** It is read back if and only if its chain has a name; if not, it is not read at all. */
  lemma {:induction false} BareRuleComesBack(family: nat, table: bytes, chain: bytes, op: MsgType, seqno: nat,
                                             rest: bytes)
    requires family in FAMILY_CODES && Name(table) && Name(chain) && seqno < U32_LIMIT
    ensures var o := Object(RuleKind, family, BareRecord(table, chain));
            && ValidObject(o)
            && var r := DeserializeObject(RuleKind, Frame(ObjectMessage(o, op, seqno)) + rest);
            && (r.Ok? <==> chain != [])
            && (r.Ok? ==> r.value == Received(o, rest))
  {
    hide DeserializeObject, Frame, ReadAttrs, EncodeFields, ObjectMessage;
    hide ObjectSurvives, ValidObject, WellFormed, TypeOf;
    var o := Object(RuleKind, family, BareRecord(table, chain));
    BareObject(family, table, chain);
    ObjectRoundTripsIff(o, op, seqno, rest);
    if chain == [] {
      RuleKindIsRule();
      RuleExpressions();
      RuleNames();
      BareUnread(RULE, table);
      UnreadableObject(o, op, seqno, rest);
    }
  }

  lemma {:induction false} BareUnread(t: StructTy, table: bytes)
    requires WellFormed(t) && |t.fields| == 7 && t.fields[0].ty == Text && t.fields[1].ty == Text && Name(table)
    ensures var vals := BareRecord(table, []);
            FieldsTyped(t, vals) && !ReadAttrs(t, EncodeFields(t, vals, 0), Defaults(t)).Ok?
  {
    hide ReadAttrs, EncodeFields, WellFormed;
    BareShape(t, table, []);
    EmptyLastFieldRejected(t, BareRecord(table, []), 1, 0, Defaults(t));
  }

  // ----- everything the builder compiles is emitted -----

  lemma {:induction false} AllEmittedAppend(es: seq<P.Expression>, fs: seq<P.Expression>)
    requires AllEmitted(es) && AllEmitted(fs)
    ensures AllEmitted(es + fs)
  {}

  lemma {:induction false} ChecksEmitted(b: byte)
    ensures AllEmitted(M.L4Is(b)) && AllEmitted(M.FamilyIs(b))
  {}

  lemma {:induction false} FieldEmitted(f: M.HeaderField, data: bytes)
    requires 0 < |data| <= 16
    ensures AllEmitted(M.FieldIs(f, data))
  {}

  lemma {:induction false} MaskedFieldEmitted(f: M.HeaderField, mask: bytes, data: bytes)
    requires 0 < |mask| <= 16 && 0 < |data| <= 16
    ensures AllEmitted(M.FieldUnderMaskIs(f, mask, data))
  {}

  lemma {:induction false} FlatEmitted(key: P.MetaKey, name: bytes)
    requires |name| < P.IFNAMSIZ
    ensures AllEmitted(M.NameProgram(key, name))
    ensures AllEmitted(M.ESTABLISHED_PROGRAM) && AllEmitted(M.SYN_PROGRAM)
  {}

  lemma {:induction false} AddressEmitted(v4: bool, source: bool, b: byte, mask: bytes, data: bytes)
    requires 0 < |mask| <= 16 && 0 < |data| <= 16
    ensures var f := M.AddressField(v4, source);
            && AllEmitted(M.FamilyIs(b) + M.FieldIs(f, data))
            && AllEmitted(M.FamilyIs(b) + M.FieldUnderMaskIs(f, mask, data))
  {
    hide Emitted, M.FamilyIs, M.FieldIs, M.FieldUnderMaskIs;
    ChecksEmitted(b);
    FieldEmitted(M.AddressField(v4, source), data);
    MaskedFieldEmitted(M.AddressField(v4, source), mask, data);
  }

  lemma {:induction false} MatcherEmitted(m: M.Matcher)
    requires M.Accepted(m)
    ensures AllEmitted(M.Program(m))
  {
    hide AllEmitted, Emitted, M.L4Is, M.FamilyIs, M.FieldIs, M.FieldUnderMaskIs, M.NameProgram;
    hide X.PrefixMask, X.AndBytes;
    match m
    case OfProtocol(protocol) => ChecksEmitted(M.Number(protocol));
    case Icmp => ChecksEmitted(M.IPPROTO_ICMP);
    case Icmpv6 => ChecksEmitted(M.IPPROTO_ICMPV6);
    case Igmp => ChecksEmitted(M.IPPROTO_IGMP);
    case Ip6in4 =>
      ChecksEmitted(P.NFPROTO_IPV4);
      FieldEmitted(M.IPv4Protocol, [M.IPPROTO_IPV6]);
      AllEmittedAppend(M.FamilyIs(P.NFPROTO_IPV4), M.FieldIs(M.IPv4Protocol, [M.IPPROTO_IPV6]));
    case Sport(port, protocol) => PortEmitted(port, protocol);
    case Dport(port, protocol) => PortEmitted(port, protocol);
    case Established => FlatEmitted(P.IifName, []);
    case Iface(name) => FlatEmitted(P.IifName, name);
    case Oface(name) => FlatEmitted(P.OifName, name);
    case Address(V4(a), source) => AddressEmitted(true, source, P.NFPROTO_IPV4, a, a);
    case Address(V6(a), source) => AddressEmitted(false, source, P.NFPROTO_IPV6, a, a);
    case Network(Net4(a, k), source) =>
      var mask := X.PrefixMask(4, k);
      AddressEmitted(true, source, P.NFPROTO_IPV4, mask, X.AndBytes(a, mask));
    case Network(Net6(a, k), source) =>
      var mask := X.PrefixMask(16, k);
      AddressEmitted(false, source, P.NFPROTO_IPV6, mask, X.AndBytes(a, mask));
    case Syn => FlatEmitted(P.IifName, []);
  }

  lemma {:induction false} PortEmitted(port: M.Port, protocol: M.Protocol)
    ensures AllEmitted(M.PortProgram(port, protocol, false))
  {
    hide Emitted, M.L4Is, M.FieldIs;
    ChecksEmitted(M.Number(protocol));
    FieldEmitted(M.TransportDport, BigEndian(port, 2));
  }

  lemma {:induction false} MatchersEmitted(ms: seq<M.Matcher>)
    requires M.AllAccepted(ms)
    ensures AllEmitted(M.ProgramAll(ms))
    decreases |ms|
  {
    if ms == [] {
    } else {
      MatcherEmitted(ms[0]);
      MatchersEmitted(ms[1..]);
      AllEmittedAppend(M.Program(ms[0]), M.ProgramAll(ms[1..]));
    }
  }

  lemma {:induction false} StatementEmitted(s: M.Statement)
    requires !s.MasqueradeSource?
    ensures AllEmitted(M.StatementProgram(s))
  {}

  lemma {:induction false} AllPushedAppend(es: seq<P.Expression>, fs: seq<P.Expression>)
    requires AllPushed(es) && AllPushed(fs)
    ensures AllPushed(es + fs)
  {}

  /** A rule of matchers and a statement. */
  ghost function Built(ms: seq<M.Matcher>, s: M.Statement): (es: seq<P.Expression>)
    requires M.AllAccepted(ms)
    ensures es != [] && AllPushed(es)
    ensures es == M.ProgramAll(ms) + M.StatementProgram(s)
    ensures !s.MasqueradeSource? ==> AllEmitted(es)
  {
    MatchersEmitted(ms);
    assert AllPushed(M.StatementProgram(s)) by {
      if !s.MasqueradeSource? { StatementEmitted(s); }
    }
    AllPushedAppend(M.ProgramAll(ms), M.StatementProgram(s));
    assert !s.MasqueradeSource? ==> AllEmitted(M.ProgramAll(ms) + M.StatementProgram(s)) by {
      if !s.MasqueradeSource? {
        StatementEmitted(s);
        AllEmittedAppend(M.ProgramAll(ms), M.StatementProgram(s));
      }
    }
    M.ProgramAll(ms) + M.StatementProgram(s)
  }

  /** The rule has exactly these expressions. */
  predicate Carries(vals: Record, es: seq<P.Expression>) {
    |vals| == |RULE.fields| && vals[EXPRESSIONS] == Some(Items(ToWireAll(es)))
  }

  /** A rule's attributes determine its expressions. */
  lemma {:induction false} CarriesOnce(vals: Record, es: seq<P.Expression>, fs: seq<P.Expression>)
    requires Carries(vals, es) && Carries(vals, fs)
    ensures es == fs
  {
    hide ToWire;
    var a, b := ToWireAll(es), ToWireAll(fs);
    assert a == vals[EXPRESSIONS].value.items == b;
    forall i | 0 <= i < |es| ensures es[i] == fs[i] {
      assert a[i] == b[i];
      ToWireInjective(es[i], fs[i]);
    }
  }

  ghost predicate Decides(es: seq<P.Expression>, ms: seq<M.Matcher>, s: M.Statement) {
    forall p: P.Packet, regs: P.Registers | P.ValidPacket(p) :: P.Run(es, p, regs) == M.RuleOutcome(ms, s, p)
  }

  lemma {:induction false} BuiltDecides(ms: seq<M.Matcher>, s: M.Statement)
    requires M.AllAccepted(ms)
    ensures Decides(M.ProgramAll(ms) + M.StatementProgram(s), ms, s)
  {
    var es := M.ProgramAll(ms) + M.StatementProgram(s);
    forall p: P.Packet, regs: P.Registers | P.ValidPacket(p) ensures P.Run(es, p, regs) == M.RuleOutcome(ms, s, p) {
      M.StatementIsFinal(ms, s, [], p, regs);
      assert M.StatementProgram(s) + [] == M.StatementProgram(s);
    }
  }

  /** With a masquerade expression anywhere in it, a rule is written but not read back. */
  lemma {:induction false} MasqueradeRuleIsLost(table: bytes, chain: bytes, es: seq<P.Expression>, at: nat)
    requires Name(table) && Name(chain) && at < |es| && es[at] == P.Masquerade
    requires ItemsTyped(EXPRESSION, ToWireAll(es)) && SizeItems(EXPRESSION, ToWireAll(es), 0) <= MAX_PAYLOAD
    ensures var vals := RuleVals(table, chain, es);
            && WellFormed(RULE) && FieldsTyped(RULE, vals)
            && !ReadAttrs(RULE, EncodeFields(RULE, vals, 0), Defaults(RULE)).Ok?
  {
    hide WellFormed, SizeItems, HasType;
    var items := ToWireAll(es);
    ExpressionWellFormed();
    RuleShapeFits(EXPRESSION, table, chain, items);
    MasqueradeAndCounterAreHollow();
    MasqueradeOnWire();
    HollowExpressionSinksRule(RuleRecord(table, chain, items), at);
  }

  lemma {:induction false} RuleObjectValid(family: nat, table: bytes, chain: bytes, es: seq<P.Expression>)
    requires family in FAMILY_CODES && Name(table) && Name(chain) && AllPushed(es) && WireSize(es) <= MAX_PAYLOAD
    ensures ValidObject(Object(RuleKind, family, RuleVals(table, chain, es)))
  {
    PushedTyped(es);
    RuleShapeFits(EXPRESSION, table, chain, ToWireAll(es));
    RuleSize(RULE, RuleVals(table, chain, es));
  }

  lemma {:induction false} MasqueradeObjectIsLost(family: nat, table: bytes, chain: bytes, es: seq<P.Expression>,
                                                  at: nat, op: MsgType, seqno: nat, rest: bytes)
    requires family in FAMILY_CODES && Name(table) && Name(chain) && AllPushed(es) && WireSize(es) <= MAX_PAYLOAD
    requires at < |es| && es[at] == P.Masquerade && seqno < U32_LIMIT
    ensures var o := Object(RuleKind, family, RuleVals(table, chain, es));
            ValidObject(o) && !DeserializeObject(RuleKind, Frame(ObjectMessage(o, op, seqno)) + rest).Ok?
  {
    hide DeserializeObject, ReadAttrs, Frame, WellFormed, ValidObject;
    var o := Object(RuleKind, family, RuleVals(table, chain, es));
    RuleObjectValid(family, table, chain, es);
    PushedTyped(es);
    MasqueradeRuleIsLost(table, chain, es, at);
    RuleKindIsRule();
    UnreadableObject(o, op, seqno, rest);
  }

  lemma {:induction false} RuleKindIsRule()
    ensures TypeOf(RuleKind) == RULE
  {}
}
