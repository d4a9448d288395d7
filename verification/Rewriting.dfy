/** Writing again what was read. */
module Rewriting {
  import opened Bytes
  import opened Schema
  import opened Encoder
  import opened Decoder
  import opened Stream
  import opened RoundTrip
  import opened Forward
  import opened ReadBack
  import opened Objects

  // ----- whatever is read fits its attributes when it is written again -----

  lemma {:induction false} DecodedFitsDeep(t: Ty, buf: bytes)
    requires WellFormed(t) && Decode(t, buf).Ok?
    ensures var v := Decode(t, buf).value.value; HasType(t, v) && Fits(t, v)
    decreases t, 3, 0
  {
    DecodedFits(t, buf);
    match t
    case Struct(_, _) =>
      NothingSet(t, 0);
      ReadAttrsFitsDeep(t, buf, Defaults(t));
    case List(e) => ReadItemsFitsDeep(e, buf, []);
    case _ =>
  }

  lemma {:induction false} SetFieldFits(t: StructTy, acc: Record, i: nat, payload: bytes)
    requires WellFormed(t) && FieldsTyped(t, acc) && Fits(t, Rec(acc)) && i < |acc| && |payload| <= MAX_PAYLOAD
    requires DecodeField(t, acc, i, payload).Ok?
    ensures var next := acc[i := Some(DecodeField(t, acc, i, payload).value)];
            FieldsTyped(t, next) && Fits(t, Rec(next))
    decreases t, 0, 0
  {
    var ft, v := t.fields[i].ty, DecodeField(t, acc, i, payload).value;
    var next := acc[i := Some(v)];
    DecodeFieldFits(t, acc, i, payload);
    if ft.Variant? {
      DecodedFitsDeep(ft.cases[Dispatch(ft, acc[0].value.b)].ty, payload);
    } else {
      DecodedFitsDeep(ft, payload);
    }
    assert Fits(ft, v);
    forall j | 0 <= j < |next| ensures FitsField(t, next, j) { assert j != i ==> FitsField(t, acc, j); }
  }

  lemma {:induction false} ReadAttrsFitsDeep(t: StructTy, buf: bytes, acc: Record)
    requires WellFormed(t) && FieldsTyped(t, acc) && Fits(t, Rec(acc)) && ReadAttrs(t, buf, acc).Ok?
    ensures var vals := ReadAttrs(t, buf, acc).value; FieldsTyped(t, vals) && Fits(t, Rec(vals))
    decreases t, 2, |buf|
  {
    hide Fits, DecodeField, Pad, HasType;
    if |buf| <= NLA_HDRLEN {
    } else {
      var len := NlaLen(buf);
      NlaLenBound(buf);
      var payload := buf[NLA_HDRLEN..len];
      var i := FieldIndex(t.fields, NlaType(buf), 0);
      if i.Some? && DecodeField(t, acc, i.value, payload).Ok? {
        SetFieldFits(t, acc, i.value, payload);
        ReadAttrsFitsDeep(t, buf[Pad(len)..], acc[i.value := Some(DecodeField(t, acc, i.value, payload).value)]);
      } else {
        ReadAttrsFitsDeep(t, buf[Pad(len)..], acc);
      }
    }
  }

  lemma {:induction false} ReadItemsFitsDeep(e: StructTy, buf: bytes, acc: seq<Value>)
    requires WellFormed(e) && ItemsTyped(e, acc) && ItemsFit(e, acc) && ReadItems(e, buf, acc).Ok?
    requires forall k | 0 <= k < |acc| :: Fits(e, acc[k])
    ensures var items := ReadItems(e, buf, acc).value;
            ItemsTyped(e, items) && ItemsFit(e, items) && forall k | 0 <= k < |items| :: Fits(e, items[k])
    decreases e, 4, |buf|
  {
    hide Fits, Pad;
    if |buf| <= NLA_HDRLEN {
    } else {
      var len := NlaLen(buf);
      NlaLenBound(buf);
      var payload := buf[NLA_HDRLEN..len];
      DecodedFits(e, payload);
      DecodedFitsDeep(e, payload);
      ReadItemsFitsDeep(e, buf[Pad(len)..], acc + [Whole(Decode(e, payload)).value]);
    }
  }

  // ----- when it is read once more -----

  lemma {:induction false} SurvivorsMatch(t: Ty, v: Value)
    requires WellFormed(t) && HasType(t, v) && Survives(t, v)
    ensures NamesMatch(t, v)
    decreases t
  {
    match t
    case Struct(_, _) =>
      forall i | 0 <= i < |v.vals| && v.vals[i].Some? ensures FieldNamesMatch(t, v.vals, i) {
        var ft, w := t.fields[i].ty, v.vals[i].value;
        assert FieldSurvives(t, v.vals, i) && HasType(ft, w);
        if ft.Variant? {
          assert FieldSurvives(t, v.vals, 0) && HasType(Text, v.vals[0].value);
          assert t.fields[0].ty == Text && Survives(Text, v.vals[0].value);
          SurvivorsMatch(ft.cases[w.tag].ty, w.val);
        } else {
          SurvivorsMatch(ft, w);
        }
      }
    case List(e) =>
      forall k | 0 <= k < |v.items| ensures NamesMatch(e, v.items[k]) {
        assert HasType(e, v.items[k]);
        SurvivorsMatch(e, v.items[k]);
      }
    case _ =>
  }

  /** Whatever the input: a value that was read is read again, after being written, if and only if its
      expressions carry what their names select, nothing in it ends in an empty attribute, and no string
      in it still ends in NUL.  The lengths and the policies are never the reason. */
  lemma {:induction false} RewritesIff(t: Ty, buf: bytes)
    requires WellFormed(t) && !t.Variant? && Decode(t, buf).Ok?
    ensures var v := Decode(t, buf).value.value;
            && HasType(t, v)
            && (Whole(Decode(t, Encode(t, v))) == Ok(v)
                <==> NamesMatch(t, v) && EndsFilled(t, v) && Restored(t, v) == v)
  {
    hide Decode, Encode, Fits, NamesMatch, EndsFilled, Restored, Survives;
    DecodedFitsDeep(t, buf);
    var v := Decode(t, buf).value.value;
    RoundTripsIff(t, v);
    if Survives(t, v) { SurvivorsMatch(t, v); }
    if NamesMatch(t, v) { SurvivesIffRestored(t, v); }
  }

  // ----- two inputs -----

  const NAMELESS: Record := [Some(Data([])), None, None]

  /** A table with an empty name is written and not read back.  With an unknown attribute behind the name it
      is read, as that table, and so a message that was read can be one that is not read again once it is
      written, although there is no raw expression in it. */
  lemma {:induction false} NamelessTable(unknown: nat, payload: bytes)
    requires unknown <= NLA_TYPE_MASK && unknown !in {1, 2, 6} && 0 < |payload| <= MAX_PAYLOAD
    ensures WellFormed(TABLE) && FieldsTyped(TABLE, NAMELESS)
    ensures var name, more := PaddedAttribute(1, false, []), PaddedAttribute(unknown, false, payload);
            && EncodeFields(TABLE, NAMELESS, 0) == name
            && ReadAttrs(TABLE, name, Defaults(TABLE)) == Err(InvalidDataSize)
            && ReadAttrs(TABLE, name + more, Defaults(TABLE)) == Ok(NAMELESS)
  {
    hide ReadAttrs, PaddedAttribute;
    var name, more := PaddedAttribute(1, false, []), PaddedAttribute(unknown, false, payload);
    TableWellFormed();
    var none: Record := [None, None, None];
    assert Defaults(TABLE) == none;
    assert EncodeFields(TABLE, NAMELESS, 3) == [];
    assert EncodeFields(TABLE, NAMELESS, 2) == [] && EncodeFields(TABLE, NAMELESS, 1) == [];
    assert name + [] == name && more + [] == more;
    ReadOne(TABLE, 1, false, [], [], none);
    ReadOne(TABLE, 1, false, [], more, none);
    FieldFound(TABLE, 0);
    assert DecodeField(TABLE, none, 0, []) == Ok(Data([]));
    assert TABLE.fields[0].attr == 1 && none[0 := Some(Data([]))] == NAMELESS;
    assert DecodeAttr(TABLE, none, 1, []) == Ok(NAMELESS);
    ReadOne(TABLE, unknown, false, payload, [], NAMELESS);
    UnknownType(TABLE, NAMELESS, unknown, payload);
    ReadNothing(TABLE, NAMELESS);
  }

  /** An expression the library does not know. */
  function Unknown(raw: nat, name: bytes, payload: bytes): Record {
    [Some(Data(name)), Some(Tagged(raw, Data(payload)))]
  }

  /** Whatever the expressions a library knows. */
  lemma {:induction false} UnknownNameKept(variant: Ty, name: bytes, payload: bytes)
    requires variant.Variant? && WellFormed(variant) && WellFormed(Named(variant))
    requires Utf8(name) && !EndsInNul(name) && |name| <= MAX_PAYLOAD && 0 < |payload| <= MAX_PAYLOAD
    requires CaseIndex(variant.cases, name, 0).None?
    ensures var t, vals := Named(variant), Unknown(variant.raw, name, payload);
            var stream := PaddedAttribute(1, false, name) + PaddedAttribute(2, Nested(variant), payload);
            && FieldsTyped(t, vals)
            && ReadAttrs(t, stream, Defaults(t)) == Ok(vals)
            && EncodeFields(t, vals, 0) == stream
  {
    hide ReadAttrs, PaddedAttribute;
    var t, vals := Named(variant), Unknown(variant.raw, name, payload);
    var v := Tagged(variant.raw, Data(payload));
    assert variant.cases[variant.raw].ty == Blob && HasType(Blob, Data(payload));
    assert HasType(Text, Data(name)) && HasType(variant, v);
    assert Encode(variant, v) == Encode(Blob, Data(payload)) == payload;
    assert Dispatch(variant, name) == variant.raw && Survives(Blob, Data(payload));
    assert FitsField(t, vals, 0) && FitsField(t, vals, 1);
    assert FieldSurvives(t, vals, 0);
    assert t.fields[1].ty == variant && vals[1].value == v && FieldSurvives(t, vals, 1);
    assert SetAfter(vals, 0) by { assert vals[1].Some?; }
    StructRoundTrip(t, vals);
    assert EncodeFields(t, vals, 2) == [];
    assert EncodeFields(t, vals, 1) == PaddedAttribute(2, Nested(variant), payload);
  }

  /** Such an expression is read with its name and its bytes, and written again as it was. */
  lemma {:induction false} UnknownExpressionKept(name: bytes, payload: bytes)
    requires Utf8(name) && !EndsInNul(name) && |name| <= MAX_PAYLOAD && 0 < |payload| <= MAX_PAYLOAD
    requires CaseIndex(CASES, name, 0).None?
    ensures var vals := Unknown(RAW_TAG, name, payload);
            var stream := PaddedAttribute(1, false, name) + PaddedAttribute(2, Nested(EXPRESSION_VARIANT), payload);
            && WellFormed(EXPRESSION) && FieldsTyped(EXPRESSION, vals)
            && ReadAttrs(EXPRESSION, stream, Defaults(EXPRESSION)) == Ok(vals)
            && EncodeFields(EXPRESSION, vals, 0) == stream
  {
    hide ReadAttrs, PaddedAttribute, EncodeFields, FieldsTyped;
    ExpressionWellFormed();
    UnknownNameKept(EXPRESSION_VARIANT, name, payload);
  }
}
