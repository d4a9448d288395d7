/** The structures of the library: their attributes in declaration order, and what follows from the
    general theorems for rules and their expressions.

    Attribute numbers and codes are those of `linux/netfilter/nf_tables.h`; optional attributes are
    taken as supported. */
module Objects {
  import opened Bytes
  import opened Schema
  import opened Decoder

  /** The bit pattern of a 32-bit signed integer. */
  function I32(n: int): nat
    requires -0x8000_0000 <= n < 0x8000_0000
  {
    if n < 0 then n + 0x1_0000_0000 else n
  }

  const U32: Ty := Uint(4)
  const U64: Ty := Uint(8)

  // ----- enumerations -----

  const REGISTER: Ty := Enum(4, {0, 1, 2, 3, 4})
  const FAMILY_CODES: set<nat> := {0, 1, 2, 3, 5, 7, 10, 12}
  const FAMILY: Ty := Enum(4, FAMILY_CODES)
  const VERDICT_TYPE: Ty := Enum(4, {0, 1, 3, I32(-1), I32(-2), I32(-3), I32(-4), I32(-5)})

  // ----- nested structures -----

  const VERDICT: Ty := Struct(true, [Field(1, VERDICT_TYPE), Field(2, Text), Field(3, U32)])
  const DATA: Ty := Struct(true, [Field(1, Blob), Field(2, VERDICT)])
  const HOOK: Ty := Struct(true, [Field(1, U32), Field(2, U32)])

  // ----- expressions -----

  const BITWISE: Ty :=
    Struct(false, [Field(1, REGISTER), Field(2, REGISTER), Field(3, U32), Field(4, DATA), Field(5, DATA)])
  const BYTEORDER: Ty :=
    Struct(true, [Field(1, REGISTER), Field(2, REGISTER), Field(3, Enum(4, {0, 1})), Field(4, U32),
                  Field(5, U32)])
  const CMP: Ty := Struct(false, [Field(1, REGISTER), Field(2, Enum(4, {0, 1, 2, 3, 4, 5})), Field(3, DATA)])
  const CONNTRACK: Ty :=
    Struct(true, [Field(1, REGISTER), Field(2, Enum(4, {0, 3})), Field(3, Uint(1)), Field(4, REGISTER)])
  const COUNTER: Ty := Struct(false, [Field(1, U64), Field(2, U64)])
  const EXTHDR: Ty :=
    Struct(true, [Field(1, REGISTER), Field(2, Uint(1)), Field(3, U32), Field(4, U32), Field(5, U32),
                  Field(6, Enum(4, {0, 1})), Field(7, REGISTER)])
  const IMMEDIATE: Ty := Struct(false, [Field(1, REGISTER), Field(2, DATA)])
  const LOG: Ty := Struct(false, [Field(1, Uint(2)), Field(2, Text)])
  const LOOKUP: Ty := Struct(false, [Field(1, Text), Field(2, REGISTER), Field(3, REGISTER), Field(4, U32)])
  const MASQUERADE: Ty := Struct(true, [])
  const META: Ty :=
    Struct(false, [Field(1, REGISTER), Field(2, Enum(4, {1, 3, 4, 5, 6, 7, 8, 9, 10, 11, 15, 16, 23, 24})),
                   Field(3, REGISTER)])
  const NAT: Ty := Struct(true, [Field(1, Enum(4, {0, 1})), Field(2, FAMILY), Field(3, REGISTER), Field(5, REGISTER)])
  const PAYLOAD: Ty :=
    Struct(true, [Field(1, REGISTER), Field(2, U32), Field(3, U32), Field(4, U32), Field(5, REGISTER)])
  const REJECT: Ty := Struct(false, [Field(1, Enum(4, {0, 1, 2})), Field(2, Enum(1, {0, 1, 2, 3}))])
  const RT: Ty := Struct(true, [Field(1, REGISTER), Field(2, Enum(4, {0, 1, 2, 3}))])

  // ----- the expressions a name can select -----

  function CaseName(i: nat): (b: bytes)
    ensures |b| >= 2 && forall k | 0 <= k < |b| :: 0 < b[k] < 128
  {
    if i == 0 then Ascii("bitwise")
    else if i == 1 then Ascii("byteorder")
    else if i == 2 then Ascii("cmp")
    else if i == 3 then Ascii("ct")
    else if i == 4 then Ascii("counter")
    else if i == 5 then Ascii("unknown_expression")
    else if i == 6 then Ascii("exthdr")
    else if i == 7 then Ascii("immediate")
    else if i == 8 then Ascii("log")
    else if i == 9 then Ascii("lookup")
    else if i == 10 then Ascii("masq")
    else if i == 11 then Ascii("meta")
    else if i == 12 then Ascii("nat")
    else if i == 13 then Ascii("payload")
    else if i == 14 then Ascii("reject")
    else Ascii("rt")
  }

  const NUM_CASES: nat := 16

  const BITWISE_TAG := 0
  const CMP_TAG := 2
  const CT_TAG := 3
  const COUNTER_TAG := 4
  const RAW_TAG := 5
  const IMMEDIATE_TAG := 7
  const MASQUERADE_TAG := 10
  const META_TAG := 11
  const NAT_TAG := 12
  const PAYLOAD_TAG := 13

  function CaseType(i: nat): Ty {
    if i == 0 then BITWISE else if i == 1 then BYTEORDER else if i == 2 then CMP else if i == 3 then CONNTRACK
    else if i == 4 then COUNTER else if i == 5 then Blob else if i == 6 then EXTHDR else if i == 7 then IMMEDIATE
    else if i == 8 then LOG else if i == 9 then LOOKUP else if i == 10 then MASQUERADE else if i == 11 then META
    else if i == 12 then NAT else if i == 13 then PAYLOAD else if i == 14 then REJECT else RT
  }

  function CaseAt(i: nat): Case { Case(CaseName(i), CaseType(i)) }

  const CASES: seq<Case> := [
    CaseAt(0), CaseAt(1), CaseAt(2), CaseAt(3), CaseAt(4), CaseAt(5), CaseAt(6), CaseAt(7), CaseAt(8), CaseAt(9),
    CaseAt(10), CaseAt(11), CaseAt(12), CaseAt(13), CaseAt(14), CaseAt(15)]

  lemma {:induction false} CasesInOrder(i: nat)
    requires i < NUM_CASES
    ensures |CASES| == NUM_CASES && CASES[i] == CaseAt(i)
  {}

  const EXPRESSION_VARIANT: Ty := Variant(CASES, RAW_TAG)

  function Named(variant: Ty): StructTy { Struct(true, [Field(1, Text), Field(2, variant)]) }

  const EXPRESSION: StructTy := Named(EXPRESSION_VARIANT)

  // ----- objects -----

  const TABLE: StructTy := Struct(false, [Field(1, Text), Field(2, U32), Field(6, Blob)])

  const CHAIN_TYPE: Ty := Keyword([Ascii("filter"), Ascii("route"), Ascii("nat")])

  function ChainOf(hook: Ty, kind: Ty): StructTy {
    Struct(false, [Field(1, Text), Field(3, Text), Field(4, hook), Field(5, Policy), Field(7, kind),
                   Field(10, U32), Field(12, Blob)])
  }

  const CHAIN: StructTy := ChainOf(HOOK, CHAIN_TYPE)

  function RuleOf(expressions: Ty): StructTy {
    Struct(false, [Field(1, Text), Field(2, Text), Field(3, U64), Field(4, expressions), Field(6, U64),
                   Field(7, Blob), Field(9, U32)])
  }

  const RULE: StructTy := RuleOf(List(EXPRESSION))

  const SET: StructTy :=
    Struct(false, [Field(1, Text), Field(2, Text), Field(3, U32), Field(4, U32), Field(5, U32), Field(10, U32),
                   Field(13, Text)])

  const SET_ELEMENT: StructTy := Struct(true, [Field(1, DATA)])

  function ElementListOf(elements: Ty): StructTy {
    Struct(true, [Field(1, Text), Field(2, Text), Field(3, elements)])
  }

  const SET_ELEMENT_LIST: StructTy := ElementListOf(List(SET_ELEMENT))

  // ----- all of them are well formed -----

  lemma {:induction false} VerdictWellFormed() ensures WellFormed(VERDICT) {}

  lemma {:induction false} DataWellFormed()
    ensures WellFormed(DATA)
  {
    VerdictWellFormed();
  }

  lemma {:induction false} BitwiseWellFormed(data: Ty)
    requires WellFormed(data) && !data.Variant?
    ensures WellFormed(Struct(false, [Field(1, REGISTER), Field(2, REGISTER), Field(3, U32), Field(4, data),
                                      Field(5, data)]))
  {}

  lemma {:induction false} CmpWellFormed(data: Ty)
    requires WellFormed(data) && !data.Variant?
    ensures WellFormed(Struct(false, [Field(1, REGISTER), Field(2, Enum(4, {0, 1, 2, 3, 4, 5})), Field(3, data)]))
    ensures WellFormed(Struct(false, [Field(1, REGISTER), Field(2, data)]))
  {}

  lemma {:induction false} ByteorderWellFormed() ensures WellFormed(BYTEORDER) {}
  lemma {:induction false} ConntrackWellFormed() ensures WellFormed(CONNTRACK) {}
  lemma {:induction false} CounterWellFormed() ensures WellFormed(COUNTER) {}
  lemma {:induction false} ExthdrWellFormed() ensures WellFormed(EXTHDR) {}
  lemma {:induction false} LogWellFormed() ensures WellFormed(LOG) {}
  lemma {:induction false} LookupWellFormed() ensures WellFormed(LOOKUP) {}
  lemma {:induction false} MetaWellFormed() ensures WellFormed(META) {}
  lemma {:induction false} NatWellFormed() ensures WellFormed(NAT) {}
  lemma {:induction false} PayloadWellFormed() ensures WellFormed(PAYLOAD) {}
  lemma {:induction false} RejectWellFormed() ensures WellFormed(REJECT) {}
  lemma {:induction false} RtWellFormed() ensures WellFormed(RT) {}

  lemma {:induction false} CaseTypeWellFormed(i: nat)
    ensures !CaseType(i).Variant? && WellFormed(CaseType(i))
  {
    DataWellFormed();
    if i == 0 { BitwiseWellFormed(DATA); }
    else if i == 1 { ByteorderWellFormed(); }
    else if i == 2 || i == 7 { CmpWellFormed(DATA); }
    else if i == 3 { ConntrackWellFormed(); }
    else if i == 4 { CounterWellFormed(); }
    else if i == 6 { ExthdrWellFormed(); }
    else if i == 8 { LogWellFormed(); }
    else if i == 9 { LookupWellFormed(); }
    else if i == 11 { MetaWellFormed(); }
    else if i == 12 { NatWellFormed(); }
    else if i == 13 { PayloadWellFormed(); }
    else if i == 14 { RejectWellFormed(); }
    else if i >= 15 { RtWellFormed(); }
  }

  /** The length and first two letters already tell the names apart. */
  function NameKey(i: nat): (int, int, int) {
    if i == 0 then (7, 98, 105) else if i == 1 then (9, 98, 121) else if i == 2 then (3, 99, 109)
    else if i == 3 then (2, 99, 116)
    else if i == 4 then (7, 99, 111) else if i == 5 then (18, 117, 110) else if i == 6 then (6, 101, 120)
    else if i == 7 then (9, 105, 109)
    else if i == 8 then (3, 108, 111) else if i == 9 then (6, 108, 111) else if i == 10 then (4, 109, 97)
    else if i == 11 then (4, 109, 101)
    else if i == 12 then (3, 110, 97) else if i == 13 then (7, 112, 97) else if i == 14 then (6, 114, 101)
    else (2, 114, 116)
  }

  lemma {:induction false} NameHasKey(i: nat)
    requires i < NUM_CASES
    ensures (|CaseName(i)|, CaseName(i)[0], CaseName(i)[1]) == NameKey(i)
  {}

  lemma {:induction false} KeysDiffer(i: nat, j: nat)
    requires i < NUM_CASES && j < NUM_CASES && NameKey(i) == NameKey(j)
    ensures i == j
  {}

  /** Each expression is found under its own name. */
  lemma {:induction false} NamesSelect(i: nat)
    requires i < NUM_CASES
    ensures WellFormed(EXPRESSION_VARIANT) && Dispatch(EXPRESSION_VARIANT, CaseName(i)) == i
  {
    VariantWellFormed();
    var r := CaseIndex(CASES, CaseName(i), 0);
    CasesInOrder(i);
    if r.Some? { CasesInOrder(r.value); }
    assert r.Some? && CaseName(r.value) == CaseName(i);
    NameHasKey(i);
    NameHasKey(r.value);
    KeysDiffer(i, r.value);
  }

  lemma {:induction false} VariantWellFormed()
    ensures WellFormed(EXPRESSION_VARIANT)
  {
    forall i | 0 <= i < |CASES| ensures !CASES[i].ty.Variant? && WellFormed(CASES[i].ty) {
      CasesInOrder(i);
      CaseTypeWellFormed(i);
    }
  }

  lemma {:induction false} NamedWellFormed(variant: Ty)
    requires variant.Variant? && WellFormed(variant)
    ensures WellFormed(Named(variant)) && WellFormed(List(Named(variant)))
  {}

  lemma {:induction false} ExpressionWellFormed()
    ensures WellFormed(EXPRESSION_VARIANT) && WellFormed(EXPRESSION) && WellFormed(List(EXPRESSION))
  {
    VariantWellFormed();
    NamedWellFormed(EXPRESSION_VARIANT);
  }

  lemma {:induction false} ThreeWords(a: bytes, b: bytes, c: bytes)
    requires forall k | 0 <= k < |a| :: 0 < a[k] < 128
    requires forall k | 0 <= k < |b| :: 0 < b[k] < 128
    requires forall k | 0 <= k < |c| :: 0 < c[k] < 128
    requires a != b && b != c && a != c
    ensures WellFormed(Keyword([a, b, c]))
  {
    AsciiIsUtf8(a); AsciiIsUtf8(b); AsciiIsUtf8(c);
  }

  lemma {:induction false} ChainTypesWellFormed()
    ensures WellFormed(CHAIN_TYPE)
  {
    ThreeWords(Ascii("filter"), Ascii("route"), Ascii("nat"));
  }

  lemma {:induction false} ChainOfWellFormed(hook: Ty, kind: Ty)
    requires WellFormed(hook) && WellFormed(kind) && !hook.Variant? && !kind.Variant?
    ensures WellFormed(ChainOf(hook, kind))
  {}

  lemma {:induction false} RuleOfWellFormed(expressions: Ty)
    requires WellFormed(expressions) && !expressions.Variant?
    ensures WellFormed(RuleOf(expressions))
  {}

  lemma {:induction false} ElementListOfWellFormed(elements: Ty)
    requires WellFormed(elements) && !elements.Variant?
    ensures WellFormed(ElementListOf(elements))
  {}

  lemma {:induction false} HookWellFormed() ensures WellFormed(HOOK) {}
  lemma {:induction false} TableWellFormed() ensures WellFormed(TABLE) {}
  lemma {:induction false} SetWellFormed() ensures WellFormed(SET) {}

  lemma {:induction false} ChainWellFormed()
    ensures WellFormed(CHAIN)
  {
    HookWellFormed();
    ChainTypesWellFormed();
    ChainOfWellFormed(HOOK, CHAIN_TYPE);
  }

  lemma {:induction false} RuleWellFormed()
    ensures WellFormed(RULE)
  {
    ExpressionWellFormed();
    RuleOfWellFormed(List(EXPRESSION));
  }

  lemma {:induction false} SetElementsWellFormed()
    ensures WellFormed(SET_ELEMENT_LIST)
  {
    DataWellFormed();
    assert WellFormed(SET_ELEMENT);
    assert WellFormed(List(SET_ELEMENT));
    ElementListOfWellFormed(List(SET_ELEMENT));
  }
}
