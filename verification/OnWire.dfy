/** Rules from the builder as the kernel reads them. */
module OnWire {
  import opened Bytes
  import opened Schema
  import opened Encoder
  import opened Stream
  import opened Objects
  import opened Rejected
  import opened Messages
  import opened BuiltRules
  import opened Layouts
  import K = Kernel
  import P = Packets
  import M = Matchers

  // ----- values by number -----

  lemma {:induction false} NumberReads(n: nat)
    requires n < U32_LIMIT
    ensures K.Number(Some(BigEndian(n, 4))) == Some(n)
  {
    Pow256Values();
    BigEndianRoundTrip(n, 4);
  }

  /** What a field of a laid out structure is found as. */
  lemma {:induction false} Found(t: StructTy, numbers: seq<nat>, widths: seq<nat>, vals: Record, i: nat)
    requires LaidOut(t, numbers, widths) && FieldsTyped(t, vals) && FieldsFit(t, vals) && i < |vals|
    ensures K.Attr(EncodeFields(t, vals, 0), numbers[i]) ==
            if vals[i].Some? then Some(Encode(t.fields[i].ty, vals[i].value)) else None
  {}

  lemma {:induction false} FoundNumber(t: StructTy, numbers: seq<nat>, widths: seq<nat>, vals: Record, i: nat, n: nat)
    requires LaidOut(t, numbers, widths) && FieldsTyped(t, vals) && FieldsFit(t, vals) && i < |vals|
    requires vals[i] == Some(Num(n)) && n < U32_LIMIT && widths[i] == 4
    requires t.fields[i].ty.Uint? || t.fields[i].ty.Enum?
    ensures K.Number(K.Attr(EncodeFields(t, vals, 0), numbers[i])) == Some(n)
  {
    Found(t, numbers, widths, vals, i);
    assert HasType(t.fields[i].ty, Num(n));
    NumberReads(n);
  }

  lemma {:induction false} FoundData(t: StructTy, numbers: seq<nat>, widths: seq<nat>, vals: Record, i: nat, d: bytes)
    requires LaidOut(t, numbers, widths) && FieldsTyped(t, vals) && FieldsFit(t, vals) && i < |vals|
    requires vals[i] == Some(DataValue(d)) && t.fields[i].ty == DATA && |d| <= 16
    ensures K.NestedAttr(EncodeFields(t, vals, 0), numbers[i], 1) == Some(d)
  {
    hide LaidOut, K.Attr, HasType, EncodeFields;
    Found(t, numbers, widths, vals, i);
    DataAttr(d);
  }

  lemma {:induction false} DataAttr(d: bytes)
    requires |d| <= 16
    ensures HasType(DATA, DataValue(d)) && K.Attr(Encode(DATA, DataValue(d)), 1) == Some(d)
  {
    hide LaidOut, K.Attr, EncodeFields;
    var vals: Record := [Some(Data(d)), None];
    DataLayout();
    assert DATA.fields[0].ty == Blob && HasType(Blob, Data(d)) && SizeOf(Blob, Data(d)) == |d|;
    assert FieldsTyped(DATA, vals) && FitsField(DATA, vals, 0) && FitsField(DATA, vals, 1);
    Found(DATA, [1, 0x8002], [0, 0], vals, 0);
  }

  /** What survives fits. */
  lemma {:induction false} KeptFits(t: StructTy, vals: Record)
    requires Kept(t, vals)
    ensures FieldsTyped(t, vals) && FieldsFit(t, vals)
  {}

  // ----- the data of each expression -----

  lemma {:induction false} MetaOnWire(e: P.Expression)
    requires e.Meta?
    ensures HasType(META, Rec(Fields(e))) && K.MetaOf(Encode(META, Rec(Fields(e)))) == Some(e)
  {
    hide LaidOut, NamedLayout, WellFormed, HasType, Kept, K.Attr, K.Number, EncodeFields;
    var vals, ns, ws := Fields(e), [1, 2, 3], [4, 4, 4];
    MetaLayout();
    MetaSurvives(e);
    KeptFits(META, vals);
    FoundNumber(META, ns, ws, vals, 0, e.dreg);
    FoundNumber(META, ns, ws, vals, 1, KeyCode(e.key));
  }

  lemma {:induction false} PayloadOnWire(e: P.Expression)
    requires e.Payload? && Emitted(e)
    ensures HasType(PAYLOAD, Rec(Fields(e))) && K.PayloadOf(Encode(PAYLOAD, Rec(Fields(e)))) == Some(e)
  {
    hide LaidOut, NamedLayout, WellFormed, HasType, Kept, K.Attr, K.Number, EncodeFields;
    var vals, ns, ws := Fields(e), [1, 2, 3, 4, 5], [4, 4, 4, 4, 4];
    PayloadLayout();
    PayloadSurvives(e);
    KeptFits(PAYLOAD, vals);
    FoundNumber(PAYLOAD, ns, ws, vals, 0, e.dreg);
    FoundNumber(PAYLOAD, ns, ws, vals, 1, BaseCode(e.base));
    FoundNumber(PAYLOAD, ns, ws, vals, 2, e.offset);
    FoundNumber(PAYLOAD, ns, ws, vals, 3, e.len);
  }

  lemma {:induction false} ConntrackOnWire(e: P.Expression)
    requires e.Conntrack?
    ensures HasType(CONNTRACK, Rec(Fields(e))) && K.ConntrackOf(Encode(CONNTRACK, Rec(Fields(e)))) == Some(e)
  {
    hide LaidOut, NamedLayout, WellFormed, HasType, Kept, K.Attr, K.Number, EncodeFields;
    var vals, ns, ws := Fields(e), [1, 2, 3, 4], [4, 4, 1, 4];
    CtLayout();
    ConntrackSurvives(e);
    KeptFits(CONNTRACK, vals);
    FoundNumber(CONNTRACK, ns, ws, vals, 0, e.dreg);
    FoundNumber(CONNTRACK, ns, ws, vals, 1, 0);
  }

  lemma {:induction false} BitwiseOnWire(e: P.Expression)
    requires e.Bitwise? && Emitted(e)
    ensures HasType(BITWISE, Rec(Fields(e))) && K.BitwiseOf(Encode(BITWISE, Rec(Fields(e)))) == Some(e)
  {
    hide LaidOut, NamedLayout, WellFormed, HasType, Kept, K.Attr, K.Number, EncodeFields, DataValue;
    var vals, ns, ws := Fields(e), [1, 2, 3, 0x8004, 0x8005], [4, 4, 4, 0, 0];
    BitwiseLayout();
    BitwiseSurvives(e);
    KeptFits(BITWISE, vals);
    FoundNumber(BITWISE, ns, ws, vals, 0, e.sreg);
    FoundNumber(BITWISE, ns, ws, vals, 1, e.dreg);
    FoundNumber(BITWISE, ns, ws, vals, 2, |e.mask|);
    FoundData(BITWISE, ns, ws, vals, 3, e.mask);
    FoundData(BITWISE, ns, ws, vals, 4, e.xor);
  }

  lemma {:induction false} CmpOnWire(e: P.Expression)
    requires e.Cmp? && Emitted(e)
    ensures HasType(CMP, Rec(Fields(e))) && K.CmpOf(Encode(CMP, Rec(Fields(e)))) == Some(e)
  {
    hide LaidOut, NamedLayout, WellFormed, HasType, Kept, K.Attr, K.Number, EncodeFields, DataValue;
    var vals, ns, ws := Fields(e), [1, 2, 0x8003], [4, 4, 0];
    CmpLayout();
    CmpSurvives(e);
    KeptFits(CMP, vals);
    FoundNumber(CMP, ns, ws, vals, 0, e.sreg);
    FoundNumber(CMP, ns, ws, vals, 1, OpCode(e.op));
    FoundData(CMP, ns, ws, vals, 2, e.data);
  }

  /** A verdict inside its data: attribute 1 of the nested attribute 2, with no attribute 1 beside it. */
  lemma {:induction false} VerdictOnWire(kind: P.VerdictKind)
    ensures HasType(DATA, VerdictValue(kind))
    ensures var b := Encode(DATA, VerdictValue(kind));
            K.Attr(b, 1) == None && K.VerdictOf(K.Number(K.NestedAttr(b, 0x8002, 1))) == Some(kind)
  {
    hide LaidOut, NamedLayout, WellFormed, HasType, Kept, K.Attr, K.Number, EncodeFields;
    var inner: Record := [Some(Num(VerdictCode(kind))), None, None];
    var vals: Record := [None, Some(Rec(inner))];
    EasyVerdict(kind);
    VerdictFields(kind);
    DataLayout();
    VerdictLayout();
    Found(DATA, [1, 0x8002], [0, 0], vals, 0);
    Found(DATA, [1, 0x8002], [0, 0], vals, 1);
    FoundNumber(VERDICT, [1, 2, 3], [4, 0, 4], inner, 0, VerdictCode(kind));
  }

  lemma {:induction false} VerdictFields(kind: P.VerdictKind)
    ensures var inner: Record := [Some(Num(VerdictCode(kind))), None, None];
            var vals: Record := [None, Some(Rec(inner))];
            && FieldsTyped(VERDICT, inner) && FieldsFit(VERDICT, inner)
            && FieldsTyped(DATA, vals) && FieldsFit(DATA, vals)
  {
    EasyVerdict(kind);
    var inner: Record := [Some(Num(VerdictCode(kind))), None, None];
    var vals: Record := [None, Some(Rec(inner))];
    assert HasType(DATA, Rec(vals)) && HasType(VERDICT, Rec(inner));
    assert SizeFields(VERDICT, inner, 3) == 0;
    assert SizeFields(VERDICT, inner, 2) == 0;
    assert SizeFields(VERDICT, inner, 1) == 0;
    assert FitsField(VERDICT, inner, 0) && FitsField(VERDICT, inner, 1) && FitsField(VERDICT, inner, 2);
    assert FitsField(DATA, vals, 0) && FitsField(DATA, vals, 1);
  }

  lemma {:induction false} ImmediateOnWire(e: P.Expression)
    requires (e.Immediate? || e.Verdict?) && Emitted(e)
    ensures HasType(IMMEDIATE, Rec(Fields(e))) && K.ImmediateOf(Encode(IMMEDIATE, Rec(Fields(e)))) == Some(e)
  {
    hide LaidOut, NamedLayout, WellFormed, HasType, Kept, K.Attr, K.Number, EncodeFields, DataValue, VerdictValue;
    var vals, ns, ws := Fields(e), [1, 0x8002], [4, 0];
    ImmediateLayout();
    ImmediateSurvives(e);
    KeptFits(IMMEDIATE, vals);
    if e.Immediate? {
      FoundNumber(IMMEDIATE, ns, ws, vals, 0, e.dreg);
      FoundData(IMMEDIATE, ns, ws, vals, 1, e.value);
    } else {
      FoundNumber(IMMEDIATE, ns, ws, vals, 0, 0);
      VerdictOnWire(e.kind);
      Found(IMMEDIATE, ns, ws, vals, 1);
    }
  }

  lemma {:induction false} NatOnWire(e: P.Expression)
    requires e.Dnat? && Emitted(e)
    ensures HasType(NAT, Rec(Fields(e))) && K.NatOf(Encode(NAT, Rec(Fields(e)))) == Some(e)
  {
    hide LaidOut, NamedLayout, WellFormed, HasType, Kept, K.Attr, K.Number, EncodeFields;
    var vals, ns, ws := Fields(e), [1, 2, 3, 5], [4, 4, 4, 4];
    NatLayout();
    DnatSurvives(e);
    KeptFits(NAT, vals);
    FoundNumber(NAT, ns, ws, vals, 0, 1);
    FoundNumber(NAT, ns, ws, vals, 1, e.family);
    FoundNumber(NAT, ns, ws, vals, 2, e.ipRegister);
    if e.portRegister.Some? {
      FoundNumber(NAT, ns, ws, vals, 3, e.portRegister.value);
    } else {
      Found(NAT, ns, ws, vals, 3);
      NoNumber();
    }
  }

  lemma {:induction false} NoNumber()
    ensures K.Number(None) == None
  {}

  // ----- expressions -----

  /** The name of an expression selects its own reading. */
  lemma {:induction false} DataByName(e: P.Expression, d: bytes)
    ensures K.DataOf(CaseName(Tag(e)), d) ==
            match e
            case Meta(_, _) => K.MetaOf(d)
            case Payload(_, _, _, _) => K.PayloadOf(d)
            case Conntrack(_) => K.ConntrackOf(d)
            case Bitwise(_, _, _, _) => K.BitwiseOf(d)
            case Cmp(_, _, _) => K.CmpOf(d)
            case Immediate(_, _) => K.ImmediateOf(d)
            case Verdict(_) => K.ImmediateOf(d)
            case Dnat(_, _, _) => K.NatOf(d)
            case Masquerade => Some(P.Masquerade)
            case Counter => Some(P.Counter)
  {
    hide K.MetaOf, K.PayloadOf, K.ConntrackOf, K.BitwiseOf, K.CmpOf, K.ImmediateOf, K.NatOf;
    var name := CaseName(Tag(e));
    NameHasKey(Tag(e));
    assert (|Ascii("meta")|, |Ascii("payload")|, |Ascii("ct")|, |Ascii("bitwise")|) == (4, 7, 2, 7);
    assert Ascii("payload")[0] == 112 && Ascii("bitwise")[0] == 98 && Ascii("counter")[0] == 99;
    assert Ascii("cmp")[0] == 99 && Ascii("nat")[0] == 110;
    assert Ascii("meta")[1] == 101 && Ascii("masq")[1] == 97;
    assert (|Ascii("cmp")|, |Ascii("immediate")|, |Ascii("nat")|) == (3, 9, 3);
    assert (|Ascii("masq")|, |Ascii("counter")|) == (4, 7);
  }

  lemma {:induction false} DataOnWire(e: P.Expression)
    requires Emitted(e)
    ensures HasType(CaseType(Tag(e)), Rec(Fields(e)))
    ensures K.DataOf(CaseName(Tag(e)), Encode(CaseType(Tag(e)), Rec(Fields(e)))) == Some(e)
  {
    hide K.DataOf, K.MetaOf, K.PayloadOf, K.ConntrackOf, K.BitwiseOf, K.CmpOf, K.ImmediateOf, K.NatOf;
    hide Encode, HasType, Fields, CaseName, Emitted;
    DataHasType(e);
    DataByName(e, Encode(CaseType(Tag(e)), Rec(Fields(e))));
    match e
    case Meta(_, _) => MetaOnWire(e);
    case Payload(_, _, _, _) => PayloadOnWire(e);
    case Conntrack(_) => ConntrackOnWire(e);
    case Bitwise(_, _, _, _) => BitwiseOnWire(e);
    case Cmp(_, _, _) => CmpOnWire(e);
    case Immediate(_, _) => ImmediateOnWire(e);
    case Verdict(_) => ImmediateOnWire(e);
    case Dnat(_, _, _) => NatOnWire(e);
    case Masquerade => NothingEmitted(e);
    case Counter => NothingEmitted(e);
  }

  lemma {:induction false} DataHasType(e: P.Expression)
    requires Emitted(e)
    ensures HasType(CaseType(Tag(e)), Rec(Fields(e)))
  {
    FieldsSurviveFor(e);
  }

  lemma {:induction false} NothingEmitted(e: P.Expression)
    requires e.Masquerade? || e.Counter?
    ensures !Emitted(e)
  {}

  /** The two attributes of an expression. */
  lemma {:induction false} WireAttrs(tag: nat, v: Value)
    requires tag < NUM_CASES && HasType(CaseType(tag), v) && SizeOf(CaseType(tag), v) <= MAX_PAYLOAD
    ensures HasType(EXPRESSION, RawExpression(tag, v))
    ensures var b := Encode(EXPRESSION, RawExpression(tag, v));
            K.Attr(b, 1) == Some(CaseName(tag)) && K.Attr(b, 0x8002) == Some(Encode(CaseType(tag), v))
  {
    hide LaidOut, K.Attr, WellFormed;
    var vals: Record := [Some(Data(CaseName(tag))), Some(Tagged(tag, v))];
    RawExpressionTyped(tag, v);
    CasesInOrder(tag);
    CaseNameShort(tag);
    ExpressionLayout();
    assert FieldsTyped(EXPRESSION, vals);
    assert FitsField(EXPRESSION, vals, 0) && FitsField(EXPRESSION, vals, 1);
    Found(EXPRESSION, [1, 0x8002], [0, 0], vals, 0);
    Found(EXPRESSION, [1, 0x8002], [0, 0], vals, 1);
  }

  /** Everything the builder pushes says on the wire what it is. */
  lemma {:induction false} ExpressionOnWire(e: P.Expression)
    requires Emitted(e) || e.Masquerade?
    ensures HasType(EXPRESSION, ToWire(e)) && K.ExpressionOf(Encode(EXPRESSION, ToWire(e))) == Some(e)
  {
    hide K.Attr, K.DataOf, Encode, HasType, WellFormed, Fields, CaseName;
    if e.Masquerade? {
      MasqueradeData();
      WireAttrs(MASQUERADE_TAG, Rec([]));
      DataByName(e, Encode(CaseType(MASQUERADE_TAG), Rec([])));
      MasqueradeFields();
    } else {
      FieldsSurviveFor(e);
      DataOnWire(e);
      WireAttrs(Tag(e), Rec(Fields(e)));
    }
  }

  lemma {:induction false} MasqueradeData()
    ensures HasType(CaseType(MASQUERADE_TAG), Rec([])) && SizeOf(CaseType(MASQUERADE_TAG), Rec([])) == 0
  {}

  lemma {:induction false} MasqueradeFields()
    ensures Fields(P.Masquerade) == [] && Tag(P.Masquerade) == MASQUERADE_TAG
  {}

  // ----- lists and rules -----

  lemma {:induction false} ProgramOnWire(es: seq<P.Expression>, k: nat)
    requires AllPushed(es) && k <= |es| && WellFormed(EXPRESSION) && ItemsTyped(EXPRESSION, ToWireAll(es))
    requires ItemsFit(EXPRESSION, ToWireAll(es))
    ensures K.ProgramOf(EncodeItems(EXPRESSION, ToWireAll(es), k)) == Some(es[k..])
    decreases |es| - k
  {
    hide K.ExpressionOf, Encode, EncodeItems, HasType, WellFormed, ToWire, Emitted;
    var items := ToWireAll(es);
    if k == |es| {
      NoElements(items);
      assert es[k..] == [];
    } else {
      ItemSlices(EXPRESSION, items, k);
      ElementNumber(EXPRESSION, items, k);
      ExpressionOnWire(es[k]);
      ProgramOnWire(es, k + 1);
      assert es[k..] == [es[k]] + es[k + 1..];
    }
  }

  lemma {:induction false} NoElements(items: seq<Value>)
    requires ItemsTyped(EXPRESSION, items)
    ensures EncodeItems(EXPRESSION, items, |items|) == []
  {}

  /** The message of a rule with expressions the builder pushes, whether the library can read it back or not,
      asks the kernel for exactly that rule. */
  lemma {:induction false} RuleOnWire(family: nat, table: bytes, chain: bytes, es: seq<P.Expression>, seqno: nat)
    requires family in FAMILY_CODES && Name(table) && Name(chain) && seqno < U32_LIMIT
    requires AllPushed(es) && WireSize(es) <= MAX_PAYLOAD
    ensures var o := Object(RuleKind, family, RuleVals(table, chain, es));
            && ValidObject(o)
            && K.NewRule(Frame(ObjectMessage(o, Add, seqno))) == Some(K.RuleMessage(family, table, chain, es))
  {
    hide LaidOut, WellFormed, HasType, SizeItems, K.Attr, K.ProgramOf, EncodeFields, EncodeItems, Frame;
    hide ObjectMessage, ValidObject, TypeOf, ToWire, Emitted;
    var items, vals := ToWireAll(es), RuleVals(table, chain, es);
    RuleObjectValid(family, table, chain, es);
    PushedTyped(es);
    ExpressionWellFormed();
    RuleShapeFits(EXPRESSION, table, chain, items);
    if items != [] { PartsFit(EXPRESSION, items, 0); }
    ProgramOnWire(es, 0);
    assert es[0..] == es;
    RuleKindIsRule();
    RuleAttrs(table, chain, items);
    RuleFrame(Object(RuleKind, family, vals), seqno);
  }

  lemma {:induction false} RuleAttrs(table: bytes, chain: bytes, items: seq<Value>)
    requires ItemsTyped(EXPRESSION, items)
    requires FieldsTyped(RULE, RuleRecord(table, chain, items)) && FieldsFit(RULE, RuleRecord(table, chain, items))
    ensures var b := EncodeFields(RULE, RuleRecord(table, chain, items), 0);
            && K.Attr(b, 1) == Some(table) && K.Attr(b, 2) == Some(chain)
            && K.Attr(b, 0x8004) == Some(EncodeItems(EXPRESSION, items, 0))
  {
    hide LaidOut, K.Attr;
    var vals, ns, ws := RuleRecord(table, chain, items), [1, 2, 3, 0x8004, 6, 7, 9], [0, 0, 8, 0, 8, 0, 4];
    RuleLayout();
    RuleKindIsRule();
    Found(RULE, ns, ws, vals, 0);
    Found(RULE, ns, ws, vals, 1);
    Found(RULE, ns, ws, vals, 3);
  }

  /** The places of the header fields in a message. */
  lemma {:induction false} FramePlaces(m: Message)
    requires ValidHdr(HdrOf(m)) && m.family < 256
    ensures var b := Frame(m);
            && |b| >= 20 && FromLittleEndian(b[0..4]) == |b| && FromLittleEndian(b[4..6]) == m.ty
            && b[16] == m.family && b[20..] == m.body
  {
    Pow256Values();
    LittleEndianRoundTrip(HEADERS_LEN + |m.body|, 4);
    LittleEndianRoundTrip(m.ty, 2);
    var b := Frame(m);
    assert b[0..4] == LittleEndian(HEADERS_LEN + |m.body|, 4) && b[4..6] == LittleEndian(m.ty, 2);
    assert b[16] == LittleEndian(m.family, 1)[0];
  }

  lemma {:induction false} RuleFrame(o: Object, seqno: nat)
    requires ValidObject(o) && o.kind.RuleKind? && seqno < U32_LIMIT
    ensures var b := Frame(ObjectMessage(o, Add, seqno));
            && |b| >= 20 && FromLittleEndian(b[0..4]) == |b| && FromLittleEndian(b[4..6]) == 0xA06
            && b[16] == o.family && b[20..] == EncodeFields(TypeOf(o.kind), o.vals, 0)
  {
    hide Frame, EncodeFields;
    ObjectSendable(o, Add, seqno);
    FramePlaces(ObjectMessage(o, Add, seqno));
  }

  // ----- built rules -----

  /** Written as an addition, the object asks the kernel for a rule of that family, table and chain that
      does to every packet what the matchers and the statement are for. */
  ghost predicate AsksFor(o: Object, seqno: nat, table: bytes, chain: bytes, ms: seq<M.Matcher>, s: M.Statement)
    requires ValidObject(o)
  {
    var r := K.NewRule(Frame(ObjectMessage(o, Add, seqno)));
    && r.Some? && r.value.family == o.family && r.value.table == table && r.value.chain == chain
    && Decides(r.value.program, ms, s)
  }

  lemma {:induction false} BuiltRuleAsks(family: nat, table: bytes, chain: bytes, ms: seq<M.Matcher>, s: M.Statement,
                                         seqno: nat)
    requires family in FAMILY_CODES && Name(table) && Name(chain) && M.AllAccepted(ms) && seqno < U32_LIMIT
    requires WireSize(Built(ms, s)) <= MAX_PAYLOAD
    ensures var o := Object(RuleKind, family, RuleVals(table, chain, Built(ms, s)));
            ValidObject(o) && AsksFor(o, seqno, table, chain, ms, s)
  {
    hide ValidObject, Frame, ObjectMessage, Decides, WireSize, K.NewRule;
    RuleOnWire(family, table, chain, Built(ms, s), seqno);
    BuiltDecides(ms, s);
  }

  /** Any sequence of matchers and a statement.  The rule asks the kernel for what the matchers and the
      statement mean.  It is read back from its message if and only if the statement is not masquerading, and
      then it is the rule that was written: it carries the built expressions and no others, and asks the kernel
      for the same. */
  lemma {:induction false} BuiltRuleComesBack(family: nat, table: bytes, chain: bytes, ms: seq<M.Matcher>,
                                              s: M.Statement, op: MsgType, seqno: nat, rest: bytes)
    requires family in FAMILY_CODES && Name(table) && Name(chain) && M.AllAccepted(ms) && seqno < U32_LIMIT
    requires WireSize(Built(ms, s)) <= MAX_PAYLOAD
    ensures var o := Object(RuleKind, family, RuleVals(table, chain, Built(ms, s)));
            && ValidObject(o) && AsksFor(o, seqno, table, chain, ms, s)
            && var r := DeserializeObject(RuleKind, Frame(ObjectMessage(o, op, seqno)) + rest);
            && (r.Ok? <==> !s.MasqueradeSource?)
            && (r.Ok? ==>
                  && r.value == Received(o, rest)
                  && AsksFor(r.value.obj, seqno, table, chain, ms, s)
                  && Carries(r.value.obj.vals, Built(ms, s))
                  && forall es | Carries(r.value.obj.vals, es) :: es == Built(ms, s) && Decides(es, ms, s))
  {
    hide DeserializeObject, ValidObject, Frame, ObjectMessage, Decides, WireSize, AsksFor;
    var built := Built(ms, s);
    var o := Object(RuleKind, family, RuleVals(table, chain, built));
    BuiltRuleAsks(family, table, chain, ms, s, seqno);
    if s.MasqueradeSource? {
      assert built[|built| - 1] == P.Masquerade;
      MasqueradeObjectIsLost(family, table, chain, built, |built| - 1, op, seqno, rest);
    } else {
      EmittedRuleComesBack(family, table, chain, built, op, seqno, rest);
      BuiltDecides(ms, s);
      RuleExpressions();
      assert Carries(o.vals, built);
      forall es | Carries(o.vals, es) ensures es == built { CarriesOnce(o.vals, built, es); }
    }
  }
}
