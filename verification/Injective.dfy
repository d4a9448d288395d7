/** Unique readability: no two values share an encoding, not even values the reader rejects or
    changes. */
module Injective {
  import opened Bytes
  import opened Schema
  import opened Encoder
  import opened Decoder
  import opened Stream
  import opened RoundTrip

  /** Every attribute fits its 16-bit length and every expression carries data of the kind its name
      stands for, as the conversions into `RawExpression` build it. */
  ghost predicate Tidy(t: Ty, v: Value)
    requires WellFormed(t) && HasType(t, v)
    decreases t, 1
  {
    match t
    case Struct(_, _) =>
      FieldsFit(t, v.vals) && forall i | 0 <= i < |v.vals| && v.vals[i].Some? :: TidyField(t, v.vals, i)
    case List(e) => ItemsFit(e, v.items) && forall i | 0 <= i < |v.items| :: Tidy(e, v.items[i])
    case _ => true
  }

  ghost predicate TidyField(t: StructTy, vals: Record, i: nat)
    requires WellFormed(t) && FieldsTyped(t, vals) && i < |vals| && vals[i].Some?
    decreases t, 0
  {
    var ft, v := t.fields[i].ty, vals[i].value;
    assert HasType(ft, v);
    if ft.Variant? then
      assert vals[0].Some? ==> HasType(Text, vals[0].value);
      vals[0].Some? && Dispatch(ft, vals[0].value.b) == v.tag && Tidy(ft.cases[v.tag].ty, v.val)
    else Tidy(ft, v)
  }

  /** Two attributes in front of two streams: equal bytes mean equal parts. */
  lemma {:induction false} SameAttribute(a1: nat, n1: bool, p1: bytes, r1: bytes,
                                         a2: nat, n2: bool, p2: bytes, r2: bytes)
    requires a1 <= NLA_TYPE_MASK && a2 <= NLA_TYPE_MASK && |p1| <= MAX_PAYLOAD && |p2| <= MAX_PAYLOAD
    requires PaddedAttribute(a1, n1, p1) + r1 == PaddedAttribute(a2, n2, p2) + r2
    ensures a1 == a2 && p1 == p2 && r1 == r2
  {
    AttributeSlices(a1, n1, p1, r1);
    AttributeSlices(a2, n2, p2, r2);
  }

  /** The first attribute written belongs to one of the fields still to come. */
  lemma {:induction false} FirstAttribute(t: StructTy, vals: Record, i: nat)
    requires WellFormed(t) && FieldsTyped(t, vals) && FieldsFit(t, vals) && i <= |vals|
    ensures var b := EncodeFields(t, vals, i);
            b == [] || (|b| >= NLA_HDRLEN && exists j | i <= j < |vals| :: NlaType(b) == t.fields[j].attr)
    decreases |vals| - i
  {
    hide Encode, PaddedAttribute, HasType, TypeField, FromLittleEndian;
    if i == |vals| {
    } else {
      if vals[i].Some? {
        assert FitsField(t, vals, i);
        AttributeSlices(t.fields[i].attr, Nested(t.fields[i].ty), Encode(t.fields[i].ty, vals[i].value),
                        EncodeFields(t, vals, i + 1));
      } else {
        FirstAttribute(t, vals, i + 1);
        SkipUnset(t, vals, i);
      }
    }
  }

  /** A set field and an unset one are told apart by the type of the next attribute. */
  lemma {:induction false} PresenceShows(t: StructTy, vals: Record, others: Record, i: nat)
    requires WellFormed(t) && FieldsTyped(t, vals) && FieldsTyped(t, others)
    requires FieldsFit(t, vals) && FieldsFit(t, others)
    requires i < |vals| && vals[i].Some? && others[i].None?
    ensures EncodeFields(t, vals, i) != EncodeFields(t, others, i)
  {
    hide Encode, PaddedAttribute, HasType, TypeField, FromLittleEndian;
    assert FitsField(t, vals, i);
    AttributeSlices(t.fields[i].attr, Nested(t.fields[i].ty), Encode(t.fields[i].ty, vals[i].value),
                    EncodeFields(t, vals, i + 1));
    SkipUnset(t, others, i);
    FirstAttribute(t, others, i + 1);
  }

  lemma {:induction false} FieldInjective(t: StructTy, vals: Record, others: Record, i: nat)
    requires WellFormed(t) && FieldsTyped(t, vals) && FieldsTyped(t, others) && i < |vals|
    requires vals[i].Some? && others[i].Some? && TidyField(t, vals, i) && TidyField(t, others, i)
    requires vals[..i] == others[..i]
    requires Encode(t.fields[i].ty, vals[i].value) == Encode(t.fields[i].ty, others[i].value)
    ensures vals[i] == others[i]
    decreases t, 0, 0
  {
    var ft, v, w := t.fields[i].ty, vals[i].value, others[i].value;
    assert HasType(ft, v) && HasType(ft, w);
    if ft.Variant? {
      assert vals[0] == vals[..i][0] == others[0];
      EncodeInjective(ft.cases[v.tag].ty, v.val, w.val);
    } else {
      EncodeInjective(ft, v, w);
    }
  }

  lemma {:induction false} FieldsInjective(t: StructTy, vals: Record, others: Record, i: nat)
    requires WellFormed(t) && FieldsTyped(t, vals) && FieldsTyped(t, others) && i <= |vals|
    requires Tidy(t, Rec(vals)) && Tidy(t, Rec(others))
    requires vals[..i] == others[..i] && EncodeFields(t, vals, i) == EncodeFields(t, others, i)
    ensures vals == others
    decreases t, 1, |vals| - i
  {
    if i == |vals| {
      assert vals == vals[..i] && others == others[..i];
    } else {
      if vals[i].Some? && others[i].None? { PresenceShows(t, vals, others, i); }
      if vals[i].None? && others[i].Some? { PresenceShows(t, others, vals, i); }
      if vals[i].Some? {
        assert FitsField(t, vals, i) && FitsField(t, others, i);
        var f := t.fields[i];
        SameAttribute(f.attr, Nested(f.ty), Encode(f.ty, vals[i].value), EncodeFields(t, vals, i + 1),
                      f.attr, Nested(f.ty), Encode(f.ty, others[i].value), EncodeFields(t, others, i + 1));
        FieldInjective(t, vals, others, i);
      } else {
        SkipUnset(t, vals, i);
        SkipUnset(t, others, i);
      }
      ExtendPrefix(vals, others, i);
      FieldsInjective(t, vals, others, i + 1);
    }
  }

  lemma {:induction false} ItemsInjective(e: Ty, items: seq<Value>, otherItems: seq<Value>, k: nat)
    requires WellFormed(List(e)) && ItemsTyped(e, items) && ItemsTyped(e, otherItems)
    requires Tidy(List(e), Items(items)) && Tidy(List(e), Items(otherItems))
    requires k <= |items| && k <= |otherItems| && items[..k] == otherItems[..k]
    requires EncodeItems(e, items, k) == EncodeItems(e, otherItems, k)
    ensures items == otherItems
    decreases e, 4, |items| - k
  {
    if k == |items| || k == |otherItems| {
      assert |EncodeItems(e, items, k)| == 0;
      assert k == |items| == |otherItems|;
      assert items == items[..k] && otherItems == otherItems[..k];
    } else {
      ListStridesAgree(e, items[k]);
      ListStridesAgree(e, otherItems[k]);
      AlignedAttribute(NFTA_LIST_ELEM, Nested(e), Encode(e, items[k]));
      AlignedAttribute(NFTA_LIST_ELEM, Nested(e), Encode(e, otherItems[k]));
      SameAttribute(NFTA_LIST_ELEM, Nested(e), Encode(e, items[k]), EncodeItems(e, items, k + 1),
                    NFTA_LIST_ELEM, Nested(e), Encode(e, otherItems[k]), EncodeItems(e, otherItems, k + 1));
      EncodeInjective(e, items[k], otherItems[k]);
      TakeOneMore(items, k);
      TakeOneMore(otherItems, k);
      ItemsInjective(e, items, otherItems, k + 1);
    }
  }

  /** Two tidy values of one shape with the same encoding are the same value, whether or not they
      survive being read back. */
  lemma {:induction false} EncodeInjective(t: Ty, v: Value, w: Value)
    requires WellFormed(t) && !t.Variant? && HasType(t, v) && HasType(t, w) && Tidy(t, v) && Tidy(t, w)
    requires Encode(t, v) == Encode(t, w)
    ensures v == w
    decreases t, 3, 0
  {
    match t
    case Uint(width) => BigEndianRoundTrip(v.n, width); BigEndianRoundTrip(w.n, width);
    case Enum(width, _) => BigEndianRoundTrip(v.n, width); BigEndianRoundTrip(w.n, width);
    case Policy => Pow256Values(); BigEndianRoundTrip(v.n, 4); BigEndianRoundTrip(w.n, 4);
    case Struct(_, _) =>
      assert v.vals[..0] == w.vals[..0];
      FieldsInjective(t, v.vals, w.vals, 0);
    case List(e) =>
      assert v.items[..0] == w.items[..0];
      ItemsInjective(e, v.items, w.items, 0);
    case _ =>
  }
}
