/** Rules the library writes but refuses to read back, and rules it reads back with a part missing. */
module Rejected {
  import opened Bytes
  import opened Schema
  import opened Encoder
  import opened Decoder
  import opened Stream
  import opened RoundTrip
  import opened Forward
  import opened Objects

  // ----- parts are smaller than the whole -----

  lemma {:induction false} FieldWithin(t: StructTy, vals: Record, i: nat, from: nat)
    requires FieldsTyped(t, vals) && from <= i < |vals| && vals[i].Some?
    ensures NLA_HDRLEN + SizeOf(t.fields[i].ty, vals[i].value) <= SizeFields(t, vals, from)
    decreases i - from
  {
    if from == i {
    } else {
      FieldWithin(t, vals, i, from + 1);
    }
  }

  lemma {:induction false} ItemWithin(e: Ty, items: seq<Value>, i: nat, from: nat)
    requires ItemsTyped(e, items) && from <= i < |items|
    ensures NLA_HDRLEN + SizeOf(e, items[i]) <= SizeItems(e, items, from)
    decreases i - from
  {
    if from == i {
    } else {
      ItemWithin(e, items, i, from + 1);
    }
  }

  /** Inside an attribute that fits its length, everything does. */
  lemma {:induction false} PartsFit(e: StructTy, items: seq<Value>, k: nat)
    requires ItemsTyped(e, items) && SizeItems(e, items, 0) <= MAX_PAYLOAD && k < |items|
    ensures ItemsFit(e, items)
    ensures HasType(e, items[k]) && FieldsFit(e, items[k].vals)
  {
    forall i | 0 <= i < |items| ensures SizeOf(e, items[i]) <= MAX_PAYLOAD {
      ItemWithin(e, items, i, 0);
    }
    assert HasType(e, items[k]);
    var vals := items[k].vals;
    forall i | 0 <= i < |vals| ensures FitsField(e, vals, i) {
      if vals[i].Some? { FieldWithin(e, vals, i, 0); }
    }
  }

  // ----- a structure ending in an empty attribute is not read back -----

  lemma {:induction false} EmptyLastFieldRejected(t: StructTy, vals: Record, last: nat, i: nat, acc: Record)
    requires WellFormed(t) && FieldsTyped(t, vals) && FieldsFit(t, vals) && i <= last < |vals| == |acc|
    requires vals[last].Some? && SizeOf(t.fields[last].ty, vals[last].value) == 0
    requires forall j | last < j < |vals| :: vals[j].None?
    ensures !ReadAttrs(t, EncodeFields(t, vals, i), acc).Ok?
    decreases last - i
  {
    if vals[i].None? {
      SkipUnset(t, vals, i);
      EmptyLastFieldRejected(t, vals, last, i + 1, acc);
    } else {
      ReadFirstField(t, vals, i, acc);
      if i == last {
        LaterFields(t, vals, i + 1);
      } else {
        var d := DecodeField(t, acc, i, Encode(t.fields[i].ty, vals[i].value));
        EmptyLastFieldRejected(t, vals, last, i + 1, if d.Ok? then acc[i := Some(d.value)] else acc);
      }
    }
  }

  /** One element that cannot be read sinks its list, and not as an unknown attribute would. */
  lemma {:induction false} BadItemSinksList(e: StructTy, items: seq<Value>, bad: nat, k: nat, acc: seq<Value>)
    requires WellFormed(e) && ItemsTyped(e, items) && ItemsFit(e, items) && k <= bad < |items|
    requires !Decode(e, Encode(e, items[bad])).Ok?
    ensures var r := ReadItems(e, EncodeItems(e, items, k), acc); !r.Ok? && !Unsupported(r)
    decreases bad - k
  {
    var payload := Encode(e, items[k]);
    var d := Whole(Decode(e, payload));
    assert !Unsupported(d) by { StructsNeverUnsupported(e, payload, Defaults(e)); }
    ReadFirstItem(e, items, k, acc);
    if d.Ok? && k < bad { BadItemSinksList(e, items, bad, k + 1, acc + [d.value]); }
  }

  /** A field that cannot be read sinks its structure. */
  lemma {:induction false} BadFieldSinksStruct(t: StructTy, vals: Record, bad: nat, i: nat, acc: Record)
    requires WellFormed(t) && FieldsTyped(t, vals) && FieldsFit(t, vals) && i <= bad < |vals| == |acc|
    requires vals[bad].Some? && !t.fields[bad].ty.Variant?
    requires var d := Whole(Decode(t.fields[bad].ty, Encode(t.fields[bad].ty, vals[bad].value)));
             !d.Ok? && !Unsupported(d)
    ensures !ReadAttrs(t, EncodeFields(t, vals, i), acc).Ok?
    decreases bad - i
  {
    if vals[i].None? {
      SkipUnset(t, vals, i);
      BadFieldSinksStruct(t, vals, bad, i + 1, acc);
    } else {
      ReadFirstField(t, vals, i, acc);
      if i < bad {
        var d := DecodeField(t, acc, i, Encode(t.fields[i].ty, vals[i].value));
        BadFieldSinksStruct(t, vals, bad, i + 1, if d.Ok? then acc[i := Some(d.value)] else acc);
      }
    }
  }

  // ----- rules -----

  const EXPRESSIONS: nat := 3    // the position of the expression list among the fields of a rule

  /** An expression whose data takes no bytes. */
  ghost predicate Hollow(e: Value)
    requires HasType(EXPRESSION, e)
  {
    e.vals[1].Some? && SizeOf(EXPRESSION_VARIANT, e.vals[1].value) == 0
  }

  lemma {:induction false} BadItemSinksStruct(t: StructTy, at: nat, e: StructTy, vals: Record, k: nat)
    requires WellFormed(t) && at < |t.fields| && t.fields[at].ty == List(e) && WellFormed(List(e))
    requires FieldsTyped(t, vals) && FieldsFit(t, vals) && vals[at].Some?
    requires HasType(List(e), vals[at].value) && k < |vals[at].value.items|
    requires ItemsFit(e, vals[at].value.items) && !Decode(e, Encode(e, vals[at].value.items[k])).Ok?
    ensures !ReadAttrs(t, EncodeFields(t, vals, 0), Defaults(t)).Ok?
  {
    BadItemSinksList(e, vals[at].value.items, k, 0, []);
    BadFieldSinksStruct(t, vals, at, 0, Defaults(t));
  }

  lemma {:induction false} RuleExpressions()
    ensures WellFormed(RULE) && WellFormed(List(EXPRESSION)) && |RULE.fields| == 7
    ensures RULE.fields[EXPRESSIONS] == Field(4, List(EXPRESSION))
  {
    RuleWellFormed();
    ExpressionWellFormed();
  }

  /** A rule of any content, with an expression list that fits its attribute and a hollow expression
      anywhere in it, is written without complaint and never read back. */
  lemma {:induction false} HollowExpressionSinksRule(vals: Record, k: nat)
    requires FieldsTyped(RULE, vals) && FieldsFit(RULE, vals) && vals[EXPRESSIONS].Some?
    requires HasType(List(EXPRESSION), vals[EXPRESSIONS].value)
    requires k < |vals[EXPRESSIONS].value.items| && Hollow(vals[EXPRESSIONS].value.items[k])
    ensures WellFormed(RULE) && !ReadAttrs(RULE, EncodeFields(RULE, vals, 0), Defaults(RULE)).Ok?
  {
    RuleExpressions();
    var items := vals[EXPRESSIONS].value.items;
    assert FitsField(RULE, vals, EXPRESSIONS);
    PartsFit(EXPRESSION, items, k);
    HollowExpressionRejected(items[k]);
    BadItemSinksStruct(RULE, EXPRESSIONS, EXPRESSION, vals, k);
  }

  lemma {:induction false} HollowExpressionRejected(e: Value)
    requires HasType(EXPRESSION, e) && FieldsFit(EXPRESSION, e.vals) && Hollow(e)
    ensures WellFormed(EXPRESSION) && !Decode(EXPRESSION, Encode(EXPRESSION, e)).Ok?
  {
    ExpressionWellFormed();
    EmptyLastFieldRejected(EXPRESSION, e.vals, 1, 0, Defaults(EXPRESSION));
  }

  function RawExpression(tag: nat, v: Value): Value {
    Rec([Some(Data(CaseName(tag))), Some(Tagged(tag, v))])
  }

  const MASQUERADE_EXPRESSION: Value := RawExpression(MASQUERADE_TAG, Rec([]))
  const DEFAULT_COUNTER: Value := RawExpression(COUNTER_TAG, Rec([None, None]))

  lemma {:induction false} RawExpressionTyped(tag: nat, v: Value)
    requires tag < NUM_CASES && HasType(CaseType(tag), v)
    ensures HasType(EXPRESSION, RawExpression(tag, v))
    ensures SizeOf(EXPRESSION_VARIANT, Tagged(tag, v)) == SizeOf(CaseType(tag), v)
  {
    AsciiIsUtf8(CaseName(tag));
    CasesInOrder(tag);
    assert HasType(Text, Data(CaseName(tag)));
    assert HasType(EXPRESSION_VARIANT, Tagged(tag, v));
  }

  /** The masquerade expression and the default counter are such expressions. */
  lemma {:induction false} MasqueradeAndCounterAreHollow()
    ensures HasType(EXPRESSION, MASQUERADE_EXPRESSION) && Hollow(MASQUERADE_EXPRESSION)
    ensures HasType(EXPRESSION, DEFAULT_COUNTER) && Hollow(DEFAULT_COUNTER)
  {
    RawExpressionTyped(MASQUERADE_TAG, Rec([]));
    assert SizeFields(COUNTER, [None, None], 2) == 0;
    assert SizeFields(COUNTER, [None, None], 1) == 0;
    RawExpressionTyped(COUNTER_TAG, Rec([None, None]));
  }

  // ----- lists with foreign elements -----

  /** An element the list reader takes. */
  ghost predicate Element(e: StructTy, raw: Raw)
    requires WellFormed(e)
  {
    raw.attr == NFTA_LIST_ELEM && Whole(Decode(e, raw.payload)).Ok?
  }

  /** The first attribute the reader does not take is of a foreign type, and it does get there: a last
      attribute without payload is never looked at. */
  ghost predicate ForeignAt(e: StructTy, raws: seq<Raw>, k: nat)
    requires WellFormed(e) && k < |raws|
  {
    && raws[k].attr != NFTA_LIST_ELEM && (k + 1 < |raws| || raws[k].payload != [])
    && forall i | 0 <= i < k :: Element(e, raws[i])
  }

  ghost predicate Foreign(e: StructTy, raws: seq<Raw>)
    requires WellFormed(e)
  {
    exists k | 0 <= k < |raws| :: ForeignAt(e, raws, k)
  }

  lemma {:induction false} ForeignUnfolds(e: StructTy, raws: seq<Raw>)
    requires WellFormed(e) && raws != []
    ensures Foreign(e, raws) <==> ForeignAt(e, raws, 0) || (Element(e, raws[0]) && Foreign(e, raws[1..]))
  {
    hide Element;
    var rest := raws[1..];
    if Element(e, raws[0]) && Foreign(e, rest) {
      var k :| 0 <= k < |rest| && ForeignAt(e, rest, k);
      assert forall i | 0 < i < k + 1 :: raws[i] == rest[i - 1];
      assert ForeignAt(e, raws, k + 1);
    }
    if Foreign(e, raws) && !ForeignAt(e, raws, 0) {
      var k :| 0 <= k < |raws| && ForeignAt(e, raws, k);
      forall i | 0 <= i < k - 1 ensures Element(e, rest[i]) { assert rest[i] == raws[i + 1]; }
      assert ForeignAt(e, rest, k - 1);
    }
  }

  /** One turn of the list reader on an attribute of a foreign type. */
  lemma {:induction false} ReadForeign(e: Ty, raw: Raw, rest: bytes, acc: seq<Value>)
    requires WellFormed(e) && Sound([raw]) && raw.attr != NFTA_LIST_ELEM
    ensures ReadItems(e, PaddedAttribute(raw.attr, raw.nested, raw.payload) + rest, acc) ==
            if raw.payload == [] && rest == [] then Err(InvalidDataSize) else Err(UnsupportedAttributeType(raw.attr))
  {
    assert Sound([raw]) ==> [raw][0].attr <= NLA_TYPE_MASK && |[raw][0].payload| <= MAX_PAYLOAD;
    AttributeSlices(raw.attr, raw.nested, raw.payload, rest);
  }

  /** A list is reported as an unsupported attribute exactly when, behind elements that decode, there
      is one of a foreign type. */
  lemma {:induction false} UnsupportedIffForeign(e: StructTy, raws: seq<Raw>, acc: seq<Value>)
    requires WellFormed(e) && Sound(raws)
    ensures Unsupported(ReadItems(e, RawStream(raws), acc)) <==> Foreign(e, raws)
    decreases |raws|
  {
    hide Foreign, ReadItems, PaddedAttribute;
    if raws == [] {
      NothingForeign(e);
    } else {
      var raw, rest := raws[0], raws[1..];
      ForeignUnfolds(e, raws);
      assert RawStream(rest) == [] <==> rest == [];
      if raw.attr != NFTA_LIST_ELEM {
        assert Sound([raw]);
        ReadForeign(e, raw, RawStream(rest), acc);
      } else {
        var d := Whole(Decode(e, raw.payload));
        ReadOneItem(e, raw.nested, raw.payload, RawStream(rest), acc);
        StructsNeverUnsupported(e, raw.payload, Defaults(e));
        if rest == [] { NothingForeign(e); }
        if d.Ok? { UnsupportedIffForeign(e, rest, acc + [d.value]); }
      }
    }
  }

  lemma {:induction false} NothingForeign(e: StructTy)
    requires WellFormed(e)
    ensures !Foreign(e, []) && forall acc :: ReadItems(e, [], acc) == Ok(acc)
  {}

  /** A rule whose expression list is any stream of attributes: the rule is read as if it had been sent
      without expressions if and only if the list has a foreign element behind elements that decode.
      Every other fault in the list is a fault of the rule. */
  lemma {:induction false} ForeignElementDropsExpressions(raws: seq<Raw>, rest: bytes, acc: Record)
    requires |acc| == |RULE.fields| && Sound(raws) && |RawStream(raws)| <= MAX_PAYLOAD && (raws != [] || rest != [])
    ensures WellFormed(RULE) && WellFormed(EXPRESSION)
    ensures var r, list := ReadAttrs(RULE, PaddedAttribute(4, true, RawStream(raws)) + rest, acc),
                           ReadItems(EXPRESSION, RawStream(raws), []);
            && (Foreign(EXPRESSION, raws) ==> !list.Ok? && r == ReadAttrs(RULE, rest, acc))
            && (!Foreign(EXPRESSION, raws) && !list.Ok? ==> !r.Ok?)
            && (list.Ok? ==> r == ReadAttrs(RULE, rest, acc[EXPRESSIONS := Some(Items(list.value))]))
  {
    hide ReadAttrs, ReadItems, Foreign;
    var payload := RawStream(raws);
    RuleExpressions();
    UnsupportedIffForeign(EXPRESSION, raws, []);
    FieldAttribute(RULE, acc, EXPRESSIONS, payload, rest);
    ReadOne(RULE, 4, true, payload, rest, acc);
    assert DecodeField(RULE, acc, EXPRESSIONS, payload) == Whole(Decode(List(EXPRESSION), payload));
  }

  /** Whatever bytes follow a foreign header behind elements that decode, well-formed or not. */
  lemma {:induction false} ForeignHidesTail(e: StructTy, raws: seq<Raw>, tail: bytes, acc: seq<Value>)
    requires WellFormed(e) && Sound(raws) && forall i | 0 <= i < |raws| :: Element(e, raws[i])
    requires |tail| > NLA_HDRLEN && NlaType(tail) != NFTA_LIST_ELEM
    ensures ReadItems(e, RawStream(raws) + tail, acc) == Err(UnsupportedAttributeType(NlaType(tail)))
    decreases |raws|
  {
    if raws == [] {
      assert RawStream(raws) + tail == tail;
    } else {
      var raw, more := raws[0], RawStream(raws[1..]) + tail;
      var item := PaddedAttribute(raw.attr, raw.nested, raw.payload);
      ConcatAssoc(item, RawStream(raws[1..]), tail);
      assert Element(e, raw);
      ReadOneItem(e, raw.nested, raw.payload, more, acc);
      ForeignHidesTail(e, raws[1..], tail, acc + [Whole(Decode(e, raw.payload)).value]);
    }
  }

  lemma {:induction false} ForeignTailDropsExpressions(raws: seq<Raw>, tail: bytes, rest: bytes, acc: Record)
    requires |acc| == |RULE.fields| && WellFormed(EXPRESSION) && Sound(raws)
    requires forall i | 0 <= i < |raws| :: Element(EXPRESSION, raws[i])
    requires |tail| > NLA_HDRLEN && NlaType(tail) != NFTA_LIST_ELEM && |RawStream(raws) + tail| <= MAX_PAYLOAD
    ensures WellFormed(RULE)
    ensures ReadAttrs(RULE, PaddedAttribute(4, true, RawStream(raws) + tail) + rest, acc) == ReadAttrs(RULE, rest, acc)
  {
    hide ReadAttrs, ReadItems;
    var payload := RawStream(raws) + tail;
    RuleExpressions();
    ForeignHidesTail(EXPRESSION, raws, tail, []);
    FieldAttribute(RULE, acc, EXPRESSIONS, payload, rest);
    ReadOne(RULE, 4, true, payload, rest, acc);
    assert DecodeField(RULE, acc, EXPRESSIONS, payload) == Whole(Decode(List(EXPRESSION), payload));
  }
}
