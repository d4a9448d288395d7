/** How the readers see one written attribute, and what a decoded value can look like. */
module Stream {
  import opened Bytes
  import opened Schema
  import opened Encoder
  import opened Decoder

  /** The largest payload whose length, header included, fits the 16-bit `nla_len`. */
  const MAX_PAYLOAD: nat := 65531

  lemma {:induction false} HeaderReadsBack(attr: nat, nested: bool, size: nat, rest: bytes)
    requires attr <= NLA_TYPE_MASK && size <= MAX_PAYLOAD
    ensures var buf := Header(attr, nested, size) + rest;
            && NlaLen(buf) == NLA_HDRLEN + size && NlaType(buf) == attr
            && FromLittleEndian(buf[2..4]) == TypeField(attr, nested)
  {
    var buf := Header(attr, nested, size) + rest;
    Pow256Values();
    assert buf[0..2] == LittleEndian(NLA_HDRLEN + size, 2);
    assert buf[2..4] == LittleEndian(TypeField(attr, nested), 2);
    LittleEndianRoundTrip(NLA_HDRLEN + size, 2);
    LittleEndianRoundTrip(TypeField(attr, nested), 2);
  }

  /** What the readers' slices of a padded attribute in front of `rest` are. */
  lemma {:induction false} AttributeSlices(attr: nat, nested: bool, payload: bytes, rest: bytes)
    requires attr <= NLA_TYPE_MASK && |payload| <= MAX_PAYLOAD
    ensures var buf := PaddedAttribute(attr, nested, payload) + rest; var len := NLA_HDRLEN + |payload|;
            && NlaLen(buf) == len && NlaType(buf) == attr && FromLittleEndian(buf[2..4]) == TypeField(attr, nested)
            && len <= Pad(len) <= |buf| && buf[NLA_HDRLEN..len] == payload && buf[Pad(len)..] == rest
  {
    var padding := Zeros(Pad(NLA_HDRLEN + |payload|) - (NLA_HDRLEN + |payload|));
    var buf := PaddedAttribute(attr, nested, payload) + rest;
    var h := Header(attr, nested, |payload|);
    assert buf == h + (payload + padding + rest);
    HeaderReadsBack(attr, nested, |payload|, payload + padding + rest);
  }

  /** One turn of the `read_attributes` loop on a written attribute. */
  lemma {:induction false} ReadOne(t: StructTy, attr: nat, nested: bool, payload: bytes, rest: bytes, acc: Record)
    requires WellFormed(t) && |acc| == |t.fields|
    requires attr <= NLA_TYPE_MASK && |payload| <= MAX_PAYLOAD
    ensures ReadAttrs(t, PaddedAttribute(attr, nested, payload) + rest, acc) ==
            if payload == [] && rest == [] then Err(InvalidDataSize)
            else var r := Absorb(acc, DecodeAttr(t, acc, attr, payload));
              if r.Ok? then ReadAttrs(t, rest, r.value) else r
  {
    AttributeSlices(attr, nested, payload, rest);
  }

  lemma {:induction false} ReadNothing(t: StructTy, acc: Record)
    requires WellFormed(t) && |acc| == |t.fields|
    ensures ReadAttrs(t, [], acc) == Ok(acc)
  {}

  /** One turn of the list reader's loop on a written element. */
  lemma {:induction false} ReadOneItem(e: Ty, nested: bool, payload: bytes, rest: bytes, acc: seq<Value>)
    requires WellFormed(e) && |payload| <= MAX_PAYLOAD
    ensures ReadItems(e, PaddedAttribute(NFTA_LIST_ELEM, nested, payload) + rest, acc) ==
            if payload == [] && rest == [] then Err(InvalidDataSize)
            else var d := Whole(Decode(e, payload));
              if d.Ok? then ReadItems(e, rest, acc + [d.value])
              else if d.Err? then Err(d.error) else Panic
  {
    AttributeSlices(NFTA_LIST_ELEM, nested, payload, rest);
  }

  // ----- decoded values are typed, and no larger than what they were read from -----

  lemma {:induction false} DecodedFits(t: Ty, buf: bytes)
    requires WellFormed(t) && Decode(t, buf).Ok?
    ensures var d := Decode(t, buf).value;
            HasType(t, d.value) && SizeOf(t, d.value) + |d.rest| <= |buf|
    decreases t, 3, 0
  {
    match t
    case Struct(_, _) =>
      NothingSet(t, 0);
      ReadAttrsFits(t, buf, Defaults(t));
    case List(e) =>
      ReadItemsFits(e, buf, []);
    case _ =>
  }

  lemma {:induction false} NothingSet(t: StructTy, i: nat)
    requires i <= |t.fields|
    ensures FieldsTyped(t, Defaults(t)) && SizeFields(t, Defaults(t), i) == 0
    decreases |t.fields| - i
  {
    if i == |t.fields| {
    } else {
      NothingSet(t, i + 1);
    }
  }

  /** The decoded payload of a field. */
  lemma {:induction false} DecodeFieldFits(t: StructTy, acc: Record, i: nat, payload: bytes)
    requires WellFormed(t) && |acc| == |t.fields| && i < |acc| && DecodeField(t, acc, i, payload).Ok?
    ensures var v := DecodeField(t, acc, i, payload).value;
            HasType(t.fields[i].ty, v) && SizeOf(t.fields[i].ty, v) <= |payload|
    decreases t, 0, 0
  {
    var ft := t.fields[i].ty;
    if ft.Variant? {
      DecodedFits(ft.cases[Dispatch(ft, acc[0].value.b)].ty, payload);
    } else {
      DecodedFits(ft, payload);
    }
  }

  /** Setting a field adds at most its own padded attribute to the size. */
  lemma {:induction false} SetField(t: StructTy, acc: Record, i: nat, v: Value, from: nat)
    requires FieldsTyped(t, acc) && i < |acc| && from <= |acc| && HasType(t.fields[i].ty, v)
    ensures FieldsTyped(t, acc[i := Some(v)])
    ensures SizeFields(t, acc[i := Some(v)], from) <=
            SizeFields(t, acc, from) + if from <= i then NLA_HDRLEN + Pad(SizeOf(t.fields[i].ty, v)) else 0
    decreases |acc| - from
  {
    if from == |acc| {
    } else {
      SetField(t, acc, i, v, from + 1);
    }
  }

  /** A field small enough for the 16-bit length. */
  ghost predicate FitsField(t: StructTy, vals: Record, i: nat)
    requires FieldsTyped(t, vals) && i < |vals|
  {
    vals[i].Some? ==> SizeOf(t.fields[i].ty, vals[i].value) <= MAX_PAYLOAD
  }

  ghost predicate FieldsFit(t: StructTy, vals: Record)
    requires FieldsTyped(t, vals)
  {
    forall i | 0 <= i < |vals| :: FitsField(t, vals, i)
  }

  lemma {:induction false} NlaLenBound(buf: bytes)
    requires |buf| >= NLA_HDRLEN
    ensures NlaLen(buf) < 65536
  {
    Pow256Values();
  }

  /** One attribute more: the record grows by at most that attribute. */
  lemma {:induction false} DecodeAttrFits(t: StructTy, acc: Record, attr: nat, payload: bytes)
    requires WellFormed(t) && FieldsTyped(t, acc) && DecodeAttr(t, acc, attr, payload).Ok?
    ensures var next := DecodeAttr(t, acc, attr, payload).value;
            && FieldsTyped(t, next)
            && SizeFields(t, next, 0) <= SizeFields(t, acc, 0) + NLA_HDRLEN + Pad(|payload|)
            && (FieldsFit(t, acc) && |payload| <= MAX_PAYLOAD ==> FieldsFit(t, next))
    decreases t, 1, 0
  {
    var next := DecodeAttr(t, acc, attr, payload).value;
    var i := FieldIndex(t.fields, attr, 0).value;
    var v := DecodeField(t, acc, i, payload).value;
    DecodeFieldFits(t, acc, i, payload);
    SetField(t, acc, i, v, 0);
    PadMonotonic(SizeOf(t.fields[i].ty, v), |payload|);
    assert forall j | 0 <= j < |acc| && j != i && FitsField(t, acc, j) :: FitsField(t, next, j);
  }

  lemma {:induction false} ReadAttrsFits(t: StructTy, buf: bytes, acc: Record)
    requires WellFormed(t) && FieldsTyped(t, acc) && ReadAttrs(t, buf, acc).Ok?
    ensures var vals := ReadAttrs(t, buf, acc).value;
            && FieldsTyped(t, vals)
            && SizeFields(t, vals, 0) <= SizeFields(t, acc, 0) + |buf|
            && (FieldsFit(t, acc) ==> FieldsFit(t, vals))
    decreases t, 2, |buf|
  {
    if |buf| <= NLA_HDRLEN {
    } else {
      var len, attr := NlaLen(buf), NlaType(buf);
      NlaLenBound(buf);
      var payload := buf[NLA_HDRLEN..len];
      var r := DecodeAttr(t, acc, attr, payload);
      if r.Ok? {
        DecodeAttrFits(t, acc, attr, payload);
        PadWithHeader(|payload|);
        ReadAttrsFits(t, buf[Pad(len)..], r.value);
      } else {
        ReadAttrsFits(t, buf[Pad(len)..], acc);
      }
    }
  }

  lemma {:induction false} AppendItem(e: Ty, items: seq<Value>, v: Value, k: nat)
    requires ItemsTyped(e, items) && HasType(e, v) && k <= |items|
    ensures ItemsTyped(e, items + [v])
    ensures SizeItems(e, items + [v], k) == SizeItems(e, items, k) + NLA_HDRLEN + SizeOf(e, v)
    decreases |items| - k
  {
    var longer := items + [v];
    if k < |items| {
      AppendItem(e, items, v, k + 1);
    } else {
      assert SizeItems(e, longer, k + 1) == 0;
    }
  }

  ghost predicate ItemsFit(e: Ty, items: seq<Value>)
    requires ItemsTyped(e, items)
  {
    forall i | 0 <= i < |items| :: SizeOf(e, items[i]) <= MAX_PAYLOAD
  }

  lemma {:induction false} ReadItemsFits(e: Ty, buf: bytes, acc: seq<Value>)
    requires WellFormed(e) && ItemsTyped(e, acc) && ReadItems(e, buf, acc).Ok?
    ensures var items := ReadItems(e, buf, acc).value;
            && ItemsTyped(e, items)
            && SizeItems(e, items, 0) <= SizeItems(e, acc, 0) + |buf|
            && (ItemsFit(e, acc) ==> ItemsFit(e, items))
    decreases e, 4, |buf|
  {
    if |buf| <= NLA_HDRLEN {
    } else {
      var len := NlaLen(buf);
      NlaLenBound(buf);
      var payload := buf[NLA_HDRLEN..len];
      DecodedFits(e, payload);
      AppendItem(e, acc, Whole(Decode(e, payload)).value, 0);
      ReadItemsFits(e, buf[Pad(len)..], acc + [Whole(Decode(e, payload)).value]);
    }
  }
}
