/** The layouts of all structures, told by the numbers under which their attributes are found on the wire. */
module Layouts {
  import opened Bytes
  import opened Schema
  import opened Encoder
  import opened Decoder
  import opened Stream
  import opened RoundTrip
  import opened Objects
  import opened Messages
  import opened Kernel

  // ----- an attribute is found under its number -----

  /** The type field of the `i`-th attribute. */
  function FieldNumber(t: StructTy, i: nat): nat
    requires i < |t.fields|
  {
    TypeField(t.fields[i].attr, Nested(t.fields[i].ty))
  }

  lemma {:induction false} NumbersDiffer(t: StructTy, i: nat, j: nat)
    requires WellFormed(t) && i < |t.fields| && j < |t.fields| && FieldNumber(t, i) == FieldNumber(t, j)
    ensures i == j
  {
    assert t.fields[i].attr <= NLA_TYPE_MASK && t.fields[j].attr <= NLA_TYPE_MASK;
    assert t.fields[i].attr == t.fields[j].attr;
  }

  /** The first attribute of a stream is found, or the search goes on behind it. */
  lemma {:induction false} AttrStep(attr: nat, nested: bool, payload: bytes, rest: bytes, field: nat)
    requires attr <= NLA_TYPE_MASK && |payload| <= MAX_PAYLOAD
    ensures Attr(PaddedAttribute(attr, nested, payload) + rest, field) ==
            if field == TypeField(attr, nested) then Some(payload) else Attr(rest, field)
  {
    AttributeSlices(attr, nested, payload, rest);
  }

  lemma {:induction false} AttrFrom(t: StructTy, vals: Record, i: nat, j: nat)
    requires WellFormed(t) && FieldsTyped(t, vals) && FieldsFit(t, vals) && i < |vals| && j <= |vals|
    ensures Attr(EncodeFields(t, vals, j), FieldNumber(t, i)) ==
            if j <= i && vals[i].Some? then Some(Encode(t.fields[i].ty, vals[i].value)) else None
    decreases |vals| - j
  {
    hide Encode, PaddedAttribute, WellFormed, HasType;
    if j == |vals| {
    } else {
      AttrFrom(t, vals, i, j + 1);
      if vals[j].None? {
        SkipUnset(t, vals, j);
      } else {
        assert FitsField(t, vals, j);
        NumberBound(t, j);
        AttrStep(t.fields[j].attr, Nested(t.fields[j].ty), Encode(t.fields[j].ty, vals[j].value),
                 EncodeFields(t, vals, j + 1), FieldNumber(t, i));
        if FieldNumber(t, i) == FieldNumber(t, j) { NumbersDiffer(t, i, j); }
      }
    }
  }

  lemma {:induction false} NumberBound(t: StructTy, i: nat)
    requires WellFormed(t) && i < |t.fields|
    ensures t.fields[i].attr <= NLA_TYPE_MASK
  {}

  // ----- layouts -----

  /** A number and a width for each field: whatever is set is found under the number, and has that width if
      the width is not 0. */
  ghost predicate LaidOut(t: StructTy, numbers: seq<nat>, widths: seq<nat>) {
    && |numbers| == |widths| == |t.fields|
    && forall vals: Record, i: nat | FieldsTyped(t, vals) && FieldsFit(t, vals) && i < |vals| ::
         && Attr(EncodeFields(t, vals, 0), numbers[i]) ==
              (if vals[i].Some? then Some(Encode(t.fields[i].ty, vals[i].value)) else None)
         && (vals[i].Some? && widths[i] > 0 ==> |Encode(t.fields[i].ty, vals[i].value)| == widths[i])
  }

  /** The fields that are strings; the others without a width are bytes, or have parts. */
  function Strings(t: StructTy): set<nat> { set i | 0 <= i < |t.fields| && t.fields[i].ty.Text? }

  /** The width of the values that have a fixed one. */
  function Width(t: Ty): nat {
    match t
    case Uint(w) => w
    case Enum(w, _) => w
    case Policy => 4
    case _ => 0
  }

  lemma {:induction false} Layout(t: StructTy, numbers: seq<nat>, widths: seq<nat>)
    requires WellFormed(t) && |numbers| == |widths| == |t.fields|
    requires forall i | 0 <= i < |numbers| :: numbers[i] == FieldNumber(t, i) && widths[i] == Width(t.fields[i].ty)
    ensures LaidOut(t, numbers, widths)
  {
    forall vals: Record, i: nat | FieldsTyped(t, vals) && FieldsFit(t, vals) && i < |vals|
      ensures Attr(EncodeFields(t, vals, 0), numbers[i]) ==
              (if vals[i].Some? then Some(Encode(t.fields[i].ty, vals[i].value)) else None)
      ensures vals[i].Some? && widths[i] > 0 ==> |Encode(t.fields[i].ty, vals[i].value)| == widths[i]
    {
      AttrFrom(t, vals, i, 0);
      if vals[i].Some? { assert HasType(t.fields[i].ty, vals[i].value); }
    }
  }

  // objects

  lemma {:induction false} TableLayout()
    ensures LaidOut(TypeOf(TableKind), [1, 2, 6], [0, 4, 0])
    ensures Strings(TypeOf(TableKind)) == {0}
  {
    hide LaidOut, WellFormed;
    TypeOfWellFormed(TableKind);
    Layout(TABLE, [1, 2, 6], [0, 4, 0]);
  }

  lemma {:induction false} ChainLayout()
    ensures LaidOut(TypeOf(ChainKind), [1, 3, 0x8004, 5, 7, 10, 12], [0, 0, 0, 4, 0, 4, 0])
    ensures Strings(TypeOf(ChainKind)) == {0, 1}
  {
    hide LaidOut, WellFormed;
    TypeOfWellFormed(ChainKind);
    Layout(CHAIN, [1, 3, 0x8004, 5, 7, 10, 12], [0, 0, 0, 4, 0, 4, 0]);
  }

  lemma {:induction false} RuleLayout()
    ensures LaidOut(TypeOf(RuleKind), [1, 2, 3, 0x8004, 6, 7, 9], [0, 0, 8, 0, 8, 0, 4])
    ensures Strings(TypeOf(RuleKind)) == {0, 1}
  {
    hide LaidOut, WellFormed;
    TypeOfWellFormed(RuleKind);
    Layout(RULE, [1, 2, 3, 0x8004, 6, 7, 9], [0, 0, 8, 0, 8, 0, 4]);
  }

  lemma {:induction false} SetLayout()
    ensures LaidOut(TypeOf(SetKind), [1, 2, 3, 4, 5, 10, 13], [0, 0, 4, 4, 4, 4, 0])
    ensures Strings(TypeOf(SetKind)) == {0, 1, 6}
  {
    hide LaidOut, WellFormed;
    TypeOfWellFormed(SetKind);
    Layout(SET, [1, 2, 3, 4, 5, 10, 13], [0, 0, 4, 4, 4, 4, 0]);
  }

  lemma {:induction false} SetElementsLayout()
    ensures LaidOut(TypeOf(SetElementsKind), [1, 2, 0x8003], [0, 0, 0])
    ensures Strings(TypeOf(SetElementsKind)) == {0, 1}
  {
    hide LaidOut, WellFormed;
    TypeOfWellFormed(SetElementsKind);
    Layout(SET_ELEMENT_LIST, [1, 2, 0x8003], [0, 0, 0]);
  }

  // the structures inside objects and expressions

  lemma {:induction false} HookLayout()
    ensures LaidOut(HOOK, [1, 2], [4, 4])
  {
    hide LaidOut, WellFormed;
    HookWellFormed();
    Layout(HOOK, [1, 2], [4, 4]);
  }

  lemma {:induction false} DataLayout()
    ensures LaidOut(DATA, [1, 0x8002], [0, 0])
    ensures Strings(DATA) == {}
  {
    hide LaidOut, WellFormed;
    DataWellFormed();
    Layout(DATA, [1, 0x8002], [0, 0]);
  }

  lemma {:induction false} VerdictLayout()
    ensures LaidOut(VERDICT, [1, 2, 3], [4, 0, 4])
    ensures Strings(VERDICT) == {1}
  {
    hide LaidOut, WellFormed;
    VerdictWellFormed();
    Layout(VERDICT, [1, 2, 3], [4, 0, 4]);
  }

  lemma {:induction false} SetElementLayout()
    ensures LaidOut(SET_ELEMENT, [0x8001], [0])
  {
    hide LaidOut, WellFormed;
    ElementWellFormed();
    Layout(SET_ELEMENT, [0x8001], [0]);
  }

  lemma {:induction false} ExpressionLayout()
    ensures LaidOut(EXPRESSION, [1, 0x8002], [0, 0])
    ensures Strings(EXPRESSION) == {0}
  {
    hide LaidOut, WellFormed;
    ExpressionWellFormed();
    Layout(EXPRESSION, [1, 0x8002], [0, 0]);
  }

  lemma {:induction false} ElementWellFormed()
    ensures WellFormed(SET_ELEMENT)
  {
    DataWellFormed();
  }

  /** The expressions, under the names that select them. */
  ghost predicate NamedLayout(name: string, numbers: seq<nat>, widths: seq<nat>)
    requires forall i | 0 <= i < |name| :: 0 < name[i] as int < 128
  {
    && WellFormed(EXPRESSION_VARIANT)
    && var t := CaseType(Dispatch(EXPRESSION_VARIANT, Ascii(name)));
    t.Struct? && LaidOut(t, numbers, widths)
  }

  lemma {:induction false} NameLayout(i: nat, name: string, numbers: seq<nat>, widths: seq<nat>)
    requires forall k | 0 <= k < |name| :: 0 < name[k] as int < 128
    requires i < NUM_CASES && CaseName(i) == Ascii(name) && CaseType(i).Struct?
    requires |numbers| == |widths| == |CaseType(i).fields|
    requires forall k | 0 <= k < |numbers| ::
               numbers[k] == FieldNumber(CaseType(i), k) && widths[k] == Width(CaseType(i).fields[k].ty)
    ensures NamedLayout(name, numbers, widths)
    ensures LaidOut(CaseType(i), numbers, widths)
  {
    hide LaidOut, WellFormed;
    NamesSelect(i);
    CaseTypeWellFormed(i);
    Layout(CaseType(i), numbers, widths);
  }

  lemma {:induction false} BitwiseLayout()
    ensures NamedLayout("bitwise", [1, 2, 3, 0x8004, 0x8005], [4, 4, 4, 0, 0])
    ensures LaidOut(BITWISE, [1, 2, 3, 0x8004, 0x8005], [4, 4, 4, 0, 0])
  {
    hide NamedLayout, LaidOut, WellFormed;
    NameLayout(0, "bitwise", [1, 2, 3, 0x8004, 0x8005], [4, 4, 4, 0, 0]);
  }

  lemma {:induction false} ByteorderLayout()
    ensures NamedLayout("byteorder", [1, 2, 3, 4, 5], [4, 4, 4, 4, 4])
  {
    hide NamedLayout, WellFormed;
    NameLayout(1, "byteorder", [1, 2, 3, 4, 5], [4, 4, 4, 4, 4]);
  }

  lemma {:induction false} CmpLayout()
    ensures NamedLayout("cmp", [1, 2, 0x8003], [4, 4, 0])
    ensures LaidOut(CMP, [1, 2, 0x8003], [4, 4, 0])
  {
    hide NamedLayout, LaidOut, WellFormed;
    NameLayout(2, "cmp", [1, 2, 0x8003], [4, 4, 0]);
  }

  lemma {:induction false} CtLayout()
    ensures NamedLayout("ct", [1, 2, 3, 4], [4, 4, 1, 4])
    ensures LaidOut(CONNTRACK, [1, 2, 3, 4], [4, 4, 1, 4])
  {
    hide NamedLayout, LaidOut, WellFormed;
    NameLayout(3, "ct", [1, 2, 3, 4], [4, 4, 1, 4]);
  }

  lemma {:induction false} CounterLayout()
    ensures NamedLayout("counter", [1, 2], [8, 8])
  {
    hide NamedLayout, WellFormed;
    NameLayout(4, "counter", [1, 2], [8, 8]);
  }

  lemma {:induction false} ExthdrLayout()
    ensures NamedLayout("exthdr", [1, 2, 3, 4, 5, 6, 7], [4, 1, 4, 4, 4, 4, 4])
  {
    hide NamedLayout, WellFormed;
    NameLayout(6, "exthdr", [1, 2, 3, 4, 5, 6, 7], [4, 1, 4, 4, 4, 4, 4]);
  }

  lemma {:induction false} ImmediateLayout()
    ensures NamedLayout("immediate", [1, 0x8002], [4, 0])
    ensures LaidOut(IMMEDIATE, [1, 0x8002], [4, 0])
  {
    hide NamedLayout, LaidOut, WellFormed;
    NameLayout(7, "immediate", [1, 0x8002], [4, 0]);
  }

  lemma {:induction false} LogLayout()
    ensures NamedLayout("log", [1, 2], [2, 0])
    ensures Strings(LOG) == {1}
  {
    hide NamedLayout, WellFormed;
    NameLayout(8, "log", [1, 2], [2, 0]);
  }

  lemma {:induction false} LookupLayout()
    ensures NamedLayout("lookup", [1, 2, 3, 4], [0, 4, 4, 4])
    ensures Strings(LOOKUP) == {0}
  {
    hide NamedLayout, WellFormed;
    NameLayout(9, "lookup", [1, 2, 3, 4], [0, 4, 4, 4]);
  }

  lemma {:induction false} MasqLayout()
    ensures NamedLayout("masq", [], [])
  {
    hide NamedLayout, WellFormed;
    NameLayout(10, "masq", [], []);
  }

  lemma {:induction false} MetaLayout()
    ensures NamedLayout("meta", [1, 2, 3], [4, 4, 4])
    ensures LaidOut(META, [1, 2, 3], [4, 4, 4])
  {
    hide NamedLayout, LaidOut, WellFormed;
    NameLayout(11, "meta", [1, 2, 3], [4, 4, 4]);
  }

  lemma {:induction false} NatLayout()
    ensures NamedLayout("nat", [1, 2, 3, 5], [4, 4, 4, 4])
    ensures LaidOut(NAT, [1, 2, 3, 5], [4, 4, 4, 4])
  {
    hide NamedLayout, LaidOut, WellFormed;
    NameLayout(12, "nat", [1, 2, 3, 5], [4, 4, 4, 4]);
  }

  lemma {:induction false} PayloadLayout()
    ensures NamedLayout("payload", [1, 2, 3, 4, 5], [4, 4, 4, 4, 4])
    ensures LaidOut(PAYLOAD, [1, 2, 3, 4, 5], [4, 4, 4, 4, 4])
  {
    hide NamedLayout, LaidOut, WellFormed;
    NameLayout(13, "payload", [1, 2, 3, 4, 5], [4, 4, 4, 4, 4]);
  }

  lemma {:induction false} RejectLayout()
    ensures NamedLayout("reject", [1, 2], [4, 1])
  {
    hide NamedLayout, WellFormed;
    NameLayout(14, "reject", [1, 2], [4, 1]);
  }

  lemma {:induction false} RtLayout()
    ensures NamedLayout("rt", [1, 2], [4, 4])
  {
    hide NamedLayout, WellFormed;
    NameLayout(15, "rt", [1, 2], [4, 4]);
  }

  /** Elements of lists are nested attributes 1. */
  lemma {:induction false} ElementNumber(e: StructTy, items: seq<Value>, k: nat)
    requires e == EXPRESSION || e == SET_ELEMENT
    requires WellFormed(e) && ItemsTyped(e, items) && ItemsFit(e, items) && k < |items|
    ensures FromLittleEndian(EncodeItems(e, items, k)[2..4]) == 0x8001
  {
    hide WellFormed, HasType;
    ItemSlices(e, items, k);
  }

  lemma {:induction false} ItemSlices(e: StructTy, items: seq<Value>, k: nat)
    requires WellFormed(e) && ItemsTyped(e, items) && ItemsFit(e, items) && k < |items|
    ensures var b, payload := EncodeItems(e, items, k), Encode(e, items[k]);
            var len := NLA_HDRLEN + |payload|;
            && FromLittleEndian(b[0..2]) == len == Pad(len) <= |b|
            && FromLittleEndian(b[2..4]) == TypeField(1, Nested(e))
            && b[4..len] == payload && b[len..] == EncodeItems(e, items, k + 1)
  {
    hide Encode, WellFormed;
    ListStridesAgree(e, items[k]);
    AlignedAttribute(NFTA_LIST_ELEM, Nested(e), Encode(e, items[k]));
    AttributeSlices(NFTA_LIST_ELEM, Nested(e), Encode(e, items[k]), EncodeItems(e, items, k + 1));
  }
}
