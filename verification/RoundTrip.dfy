/** Exactly which values survive being written and read back. */
module RoundTrip {
  import opened Bytes
  import opened Schema
  import opened Encoder
  import opened Decoder
  import opened Stream

  /** A condition on the value alone.  A value is lost when
      - a string ends in NUL (one is dropped),
      - a chain policy is Drop (it is read as Accept),
      - a set field or an element is too large for the 16-bit length,
      - a structure or list ends in an attribute without payload, or
      - the data of an expression is not what the expression's name stands for. */
  ghost predicate Survives(t: Ty, v: Value)
    requires WellFormed(t) && HasType(t, v)
    decreases t, 2
  {
    match t
    case Uint(_) => true
    case Enum(_, _) => true
    case Text => !EndsInNul(v.b)
    case Blob => true
    case Policy => v.n == NF_ACCEPT
    case Keyword(_) => true
    case Struct(_, _) => FieldsFit(t, v.vals) && FieldsSurvive(t, v.vals, 0)
    case Variant(_, _) => false
    case List(e) => ItemsFit(e, v.items) && ItemsSurvive(e, v.items, 0)
  }

  ghost predicate FieldSurvives(t: StructTy, vals: Record, i: nat)
    requires WellFormed(t) && FieldsTyped(t, vals) && i < |vals| && vals[i].Some?
    decreases t, 0
  {
    var ft, v := t.fields[i].ty, vals[i].value;
    assert HasType(ft, v);
    if ft.Variant? then
      assert vals[0].Some? ==> HasType(Text, vals[0].value);
      vals[0].Some? && Dispatch(ft, vals[0].value.b) == v.tag && Survives(ft.cases[v.tag].ty, v.val)
    else Survives(ft, v)
  }

  ghost predicate SetAfter(vals: Record, i: nat) {
    exists j | i < j < |vals| :: vals[j].Some?
  }

  /** The fields from the `i`-th on survive, and the last one set is not empty. */
  ghost predicate FieldsSurvive(t: StructTy, vals: Record, i: nat)
    requires WellFormed(t) && FieldsTyped(t, vals)
    decreases t, 1
  {
    forall j | i <= j < |vals| && vals[j].Some? ::
      FieldSurvives(t, vals, j) && (SetAfter(vals, j) || SizeOf(t.fields[j].ty, vals[j].value) > 0)
  }

  ghost predicate ItemsSurvive(e: Ty, items: seq<Value>, k: nat)
    requires WellFormed(e) && ItemsTyped(e, items)
    decreases e, 3
  {
    forall j | k <= j < |items| ::
      Survives(e, items[j]) && (j + 1 < |items| || SizeOf(e, items[j]) > 0)
  }

  // ----- structures -----

  lemma {:induction false} LaterFields(t: StructTy, vals: Record, i: nat)
    requires FieldsTyped(t, vals) && i <= |vals|
    ensures EncodeFields(t, vals, i) != [] <==> exists j | i <= j < |vals| :: vals[j].Some?
    decreases |vals| - i
  {
    if i == |vals| {
    } else {
      LaterFields(t, vals, i + 1);
    }
  }

  lemma {:induction false} FieldFound(t: StructTy, i: nat)
    requires WellFormed(t) && i < |t.fields|
    ensures FieldIndex(t.fields, t.fields[i].attr, 0) == Some(i)
  {
    var r := FieldIndex(t.fields, t.fields[i].attr, 0);
    assert r.Some? && t.fields[r.value].attr == t.fields[i].attr;
  }

  /** How the loop goes on after the `i`-th field's payload was decoded as `d`. */
  ghost function Proceed(t: StructTy, acc: Record, i: nat, d: Outcome<Value>, rest: bytes): (r: Outcome<Record>)
    requires WellFormed(t) && i < |acc| == |t.fields|
    ensures r.Ok? ==> |r.value| == |acc|
  {
    if d.Ok? then ReadAttrs(t, rest, acc[i := Some(d.value)])
    else if d.Panic? then Panic
    else if d.error.UnsupportedAttributeType? then ReadAttrs(t, rest, acc)
    else Err(d.error)
  }

  lemma {:induction false} FieldAttribute(t: StructTy, acc: Record, i: nat, payload: bytes, rest: bytes)
    requires WellFormed(t) && i < |acc| == |t.fields|
    ensures var r := Absorb(acc, DecodeAttr(t, acc, t.fields[i].attr, payload));
            (if r.Ok? then ReadAttrs(t, rest, r.value) else r)
            == Proceed(t, acc, i, DecodeField(t, acc, i, payload), rest)
  {
    FieldFound(t, i);
  }

  /** One turn of the loop on the first of the fields still to come. */
  lemma {:induction false} ReadFirstField(t: StructTy, vals: Record, i: nat, acc: Record)
    requires WellFormed(t) && FieldsTyped(t, vals) && FieldsFit(t, vals)
    requires i < |vals| == |acc| && vals[i].Some?
    ensures var payload := Encode(t.fields[i].ty, vals[i].value);
            var rest := EncodeFields(t, vals, i + 1);
            ReadAttrs(t, EncodeFields(t, vals, i), acc) ==
            if payload == [] && rest == [] then Err(InvalidDataSize)
            else Proceed(t, acc, i, DecodeField(t, acc, i, payload), rest)
  {
    assert FitsField(t, vals, i);
    var f, v, rest := t.fields[i], vals[i].value, EncodeFields(t, vals, i + 1);
    FieldAttribute(t, acc, i, Encode(f.ty, v), rest);
    ReadOne(t, f.attr, Nested(f.ty), Encode(f.ty, v), rest, acc);
  }

  lemma {:induction false} SkipUnset(t: StructTy, vals: Record, i: nat)
    requires FieldsTyped(t, vals) && i < |vals| && vals[i].None?
    ensures EncodeFields(t, vals, i) == EncodeFields(t, vals, i + 1)
  {}

  /** Reading later fields does not disturb an earlier one. */
  lemma {:induction false} EarlierFieldKept(t: StructTy, vals: Record, i: nat, acc: Record, j: nat)
    requires WellFormed(t) && FieldsTyped(t, vals) && FieldsFit(t, vals) && j < i <= |vals| == |acc|
    ensures var r := ReadAttrs(t, EncodeFields(t, vals, i), acc); r.Ok? ==> r.value[j] == acc[j]
    decreases |vals| - i
  {
    hide Encode, DecodeField, NlaLen, NlaType;
    if i == |vals| {
    } else if vals[i].None? {
      SkipUnset(t, vals, i);
      EarlierFieldKept(t, vals, i + 1, acc, j);
    } else {
      var d := DecodeField(t, acc, i, Encode(t.fields[i].ty, vals[i].value));
      var next := if d.Ok? then acc[i := Some(d.value)] else acc;
      var r := ReadAttrs(t, EncodeFields(t, vals, i), acc);
      assert r.Ok? ==> r == ReadAttrs(t, EncodeFields(t, vals, i + 1), next) by {
        ReadFirstField(t, vals, i, acc);
      }
      EarlierFieldKept(t, vals, i + 1, next, j);
    }
  }

  lemma {:induction false} FieldRoundTrip(t: StructTy, vals: Record, i: nat, acc: Record)
    requires WellFormed(t) && FieldsTyped(t, vals) && i < |vals| == |acc| && vals[i].Some?
    requires acc[..i] == vals[..i]
    ensures DecodeField(t, acc, i, Encode(t.fields[i].ty, vals[i].value)) == Ok(vals[i].value)
            <==> FieldSurvives(t, vals, i)
    decreases t, 0, 0
  {
    var ft, v := t.fields[i].ty, vals[i].value;
    if ft.Variant? {
      assert acc[0] == acc[..i][0] == vals[0];
      RoundTripsIff(ft.cases[v.tag].ty, v.val);
    } else {
      RoundTripsIff(ft, v);
    }
  }

  lemma {:induction false} ExtendPrefix(acc: Record, vals: Record, i: nat)
    requires i < |acc| == |vals| && acc[..i] == vals[..i] && acc[i] == vals[i]
    ensures acc[..i + 1] == vals[..i + 1]
  {
    TakeOneMore(acc, i);
    TakeOneMore(vals, i);
  }

  lemma {:induction false} SurviveSplit(t: StructTy, vals: Record, i: nat)
    requires WellFormed(t) && FieldsTyped(t, vals) && i < |vals|
    ensures FieldsSurvive(t, vals, i) <==>
            && FieldsSurvive(t, vals, i + 1)
            && (vals[i].Some? ==> && FieldSurvives(t, vals, i)
                                  && (EncodeFields(t, vals, i + 1) != []
                                      || Encode(t.fields[i].ty, vals[i].value) != []))
  {
    LaterFields(t, vals, i + 1);
  }

  lemma {:induction false} NoFieldsLeft(t: StructTy, vals: Record)
    requires WellFormed(t) && FieldsTyped(t, vals)
    ensures EncodeFields(t, vals, |vals|) == [] && FieldsSurvive(t, vals, |vals|)
  {}

  lemma {:induction false} FieldsRoundTrip(t: StructTy, vals: Record, i: nat, acc: Record)
    requires WellFormed(t) && FieldsTyped(t, vals) && FieldsFit(t, vals) && i <= |vals| == |acc|
    requires acc[..i] == vals[..i] && forall j | i <= j < |acc| :: acc[j] == None
    ensures ReadAttrs(t, EncodeFields(t, vals, i), acc) == Ok(vals) <==> FieldsSurvive(t, vals, i)
    decreases t, 1, |vals| - i
  {
    hide Encode, EncodeFields, DecodeField, ReadAttrs, FieldSurvives, FieldsSurvive, HasType, WellFormed;
    if i == |vals| {
      assert acc == acc[..i] && vals == vals[..i];
      ReadNothing(t, acc);
      NoFieldsLeft(t, vals);
    } else {
      SurviveSplit(t, vals, i);
      if vals[i].None? {
        SkipUnset(t, vals, i);
        ExtendPrefix(acc, vals, i);
        FieldsRoundTrip(t, vals, i + 1, acc);
      } else {
        ReadFirstField(t, vals, i, acc);
        FieldRoundTrip(t, vals, i, acc);
        var d := DecodeField(t, acc, i, Encode(t.fields[i].ty, vals[i].value));
        if d == Ok(vals[i].value) {
          var next := acc[i := vals[i]];
          assert next[..i] == acc[..i];
          ExtendPrefix(next, vals, i);
          FieldsRoundTrip(t, vals, i + 1, next);
        } else {
          EarlierFieldKept(t, vals, i + 1, if d.Ok? then acc[i := Some(d.value)] else acc, i);
        }
      }
    }
  }

  /** A structure whose fields are read as other values is read as the structure of those. */
  lemma {:induction false} FieldsReadAs(t: StructTy, vals: Record, others: Record, i: nat, acc: Record)
    requires WellFormed(t) && FieldsTyped(t, vals) && FieldsFit(t, vals) && i <= |vals| == |others| == |acc|
    requires acc[..i] == others[..i] && forall j | i <= j < |acc| :: acc[j] == None
    requires forall j | 0 <= j < |vals| :: vals[j].Some? <==> others[j].Some?
    requires forall j | 0 <= j < |vals| && vals[j].Some? ::
               && !t.fields[j].ty.Variant?
               && Whole(Decode(t.fields[j].ty, Encode(t.fields[j].ty, vals[j].value))) == Ok(others[j].value)
               && (SetAfter(vals, j) || SizeOf(t.fields[j].ty, vals[j].value) > 0)
    ensures ReadAttrs(t, EncodeFields(t, vals, i), acc) == Ok(others)
    decreases |vals| - i
  {
    hide Decode, Encode, ReadAttrs;
    if i == |vals| {
      assert acc == acc[..i] && others == others[..i];
      ReadNothing(t, acc);
    } else if vals[i].None? {
      SkipUnset(t, vals, i);
      ExtendPrefix(acc, others, i);
      FieldsReadAs(t, vals, others, i + 1, acc);
    } else {
      ReadFirstField(t, vals, i, acc);
      LaterFields(t, vals, i + 1);
      var next := acc[i := others[i]];
      assert next[..i] == acc[..i];
      ExtendPrefix(next, others, i);
      FieldsReadAs(t, vals, others, i + 1, next);
    }
  }

  /** A chain policy Drop, among fields that survive, comes back as Accept and changes nothing else. */
  lemma {:induction false} DropComesBackAsAccept(t: StructTy, vals: Record, at: nat)
    requires WellFormed(t) && FieldsTyped(t, vals) && at < |vals| && t.fields[at].ty == Policy
    requires forall i | 0 <= i < |vals| :: !t.fields[i].ty.Variant?
    requires vals[at] == Some(Num(NF_DROP))
    requires var others := vals[at := Some(Num(NF_ACCEPT))];
             FieldsTyped(t, others) && FieldsFit(t, others) && FieldsSurvive(t, others, 0)
    ensures ReadAttrs(t, EncodeFields(t, vals, 0), Defaults(t)) == Ok(vals[at := Some(Num(NF_ACCEPT))])
  {
    var others := vals[at := Some(Num(NF_ACCEPT))];
    forall i | 0 <= i < |vals| ensures FitsField(t, vals, i) { assert FitsField(t, others, i); }
    forall j | 0 <= j < |vals| && vals[j].Some?
      ensures Whole(Decode(t.fields[j].ty, Encode(t.fields[j].ty, vals[j].value))) == Ok(others[j].value)
      ensures SetAfter(vals, j) || SizeOf(t.fields[j].ty, vals[j].value) > 0
    {
      assert FieldSurvives(t, others, j);
      if j == at {
        DropReadsAsAccept();
      } else {
        RoundTripsIff(t.fields[j].ty, vals[j].value);
        if SetAfter(others, j) {
          var k :| j < k < |others| && others[k].Some?;
          assert vals[k].Some?;
        }
      }
    }
    FieldsReadAs(t, vals, others, 0, Defaults(t));
  }

  lemma {:induction false} DropReadsAsAccept()
    ensures Whole(Decode(Policy, Encode(Policy, Num(NF_DROP)))) == Ok(Num(NF_ACCEPT))
  {
    Pow256Values();
    BigEndianRoundTrip(NF_DROP, 4);
    var b := BigEndian(NF_DROP, 4);
    assert b[..4] == b && b[4..] == [];
  }

  // ----- lists -----

  /** One turn of the list reader's loop on the first of the elements still to come. */
  lemma {:induction false} ReadFirstItem(e: Ty, items: seq<Value>, k: nat, acc: seq<Value>)
    requires e.Struct? && WellFormed(e) && ItemsTyped(e, items) && ItemsFit(e, items) && k < |items|
    ensures var payload, rest := Encode(e, items[k]), EncodeItems(e, items, k + 1);
            ReadItems(e, EncodeItems(e, items, k), acc) ==
            if payload == [] && rest == [] then Err(InvalidDataSize)
            else var d := Whole(Decode(e, payload));
              if d.Ok? then ReadItems(e, rest, acc + [d.value])
              else if d.Err? then Err(d.error) else Panic
  {
    var payload, rest := Encode(e, items[k]), EncodeItems(e, items, k + 1);
    ListStridesAgree(e, items[k]);
    AlignedAttribute(NFTA_LIST_ELEM, Nested(e), payload);
    ReadOneItem(e, Nested(e), payload, rest, acc);
  }

  lemma {:induction false} EarlierItemsKept(e: Ty, items: seq<Value>, k: nat, acc: seq<Value>)
    requires e.Struct? && WellFormed(e) && ItemsTyped(e, items) && ItemsFit(e, items) && k <= |items|
    ensures var r := ReadItems(e, EncodeItems(e, items, k), acc);
            r.Ok? ==> acc <= r.value
    decreases |items| - k
  {
    if k == |items| {
    } else {
      ReadFirstItem(e, items, k, acc);
      var d := Whole(Decode(e, Encode(e, items[k])));
      if d.Ok? { EarlierItemsKept(e, items, k + 1, acc + [d.value]); }
    }
  }

  lemma {:induction false} MoreItems(e: Ty, items: seq<Value>, k: nat)
    requires ItemsTyped(e, items) && k <= |items|
    ensures EncodeItems(e, items, k) == [] <==> k == |items|
  {}

  lemma {:induction false} ItemsSurviveSplit(e: Ty, items: seq<Value>, k: nat)
    requires WellFormed(e) && ItemsTyped(e, items) && k < |items|
    ensures ItemsSurvive(e, items, k) <==>
            && ItemsSurvive(e, items, k + 1)
            && Survives(e, items[k])
            && (EncodeItems(e, items, k + 1) != [] || Encode(e, items[k]) != [])
  {
    hide Survives, Encode, EncodeItems, SizeOf, HasType, WellFormed;
    MoreItems(e, items, k + 1);
  }

  lemma {:induction false} ItemsRoundTrip(e: Ty, items: seq<Value>, k: nat)
    requires e.Struct? && WellFormed(e) && ItemsTyped(e, items) && ItemsFit(e, items) && k <= |items|
    ensures ReadItems(e, EncodeItems(e, items, k), items[..k]) == Ok(items) <==> ItemsSurvive(e, items, k)
    decreases e, 3, |items| - k
  {
    if k == |items| {
      assert items[..k] == items;
    } else {
      ItemsSurviveSplit(e, items, k);
      ReadFirstItem(e, items, k, items[..k]);
      RoundTripsIff(e, items[k]);
      var d := Whole(Decode(e, Encode(e, items[k])));
      if d == Ok(items[k]) {
        TakeOneMore(items, k);
        ItemsRoundTrip(e, items, k + 1);
      } else if d.Ok? {
        EarlierItemsKept(e, items, k + 1, items[..k] + [d.value]);
      }
    }
  }

  // ----- the theorem -----

  lemma {:induction false} ScalarRoundTrip(t: Ty, v: Value)
    requires WellFormed(t) && HasType(t, v) && (t.Uint? || t.Enum? || t.Policy?)
    ensures Whole(Decode(t, Encode(t, v))) == Ok(v) <==> Survives(t, v)
  {
    var w := if t.Policy? then 4 else t.width;
    Pow256Values();
    BigEndianRoundTrip(v.n, w);
    var b := Encode(t, v);
    assert b == BigEndian(v.n, w) && b[..w] == b && b[w..] == [];
  }

  lemma {:induction false} KeywordRoundTrip(t: Ty, v: Value)
    requires t.Keyword? && WellFormed(t) && HasType(t, v)
    ensures Whole(Decode(t, Encode(t, v))) == Ok(v)
  {
    var w := t.words[v.index];
    assert Utf8(w) && !EndsInNul(w);
    var r := WordIndex(t.words, w, 0);
    assert r.Some? && t.words[r.value] == t.words[v.index];
  }

  lemma {:induction false} StructRoundTrip(t: StructTy, vals: Record)
    requires WellFormed(t) && FieldsTyped(t, vals)
    ensures ReadAttrs(t, EncodeFields(t, vals, 0), Defaults(t)) == Ok(vals)
            <==> FieldsFit(t, vals) && FieldsSurvive(t, vals, 0)
    decreases t, 2, 0
  {
    if FieldsFit(t, vals) {
      FieldsRoundTrip(t, vals, 0, Defaults(t));
    } else {
      var b := EncodeFields(t, vals, 0);
      NothingSet(t, 0);
      if ReadAttrs(t, b, Defaults(t)).Ok? { ReadAttrsFits(t, b, Defaults(t)); }
    }
  }

  lemma {:induction false} ListRoundTrip(e: Ty, items: seq<Value>)
    requires WellFormed(List(e)) && ItemsTyped(e, items)
    ensures ReadItems(e, EncodeItems(e, items, 0), []) == Ok(items)
            <==> ItemsFit(e, items) && ItemsSurvive(e, items, 0)
    decreases e, 4, 0
  {
    assert items[..0] == [];
    if ItemsFit(e, items) {
      ItemsRoundTrip(e, items, 0);
    } else {
      var b := EncodeItems(e, items, 0);
      if ReadItems(e, b, []).Ok? { ReadItemsFits(e, b, []); }
    }
  }

  /** For every shape and every value of it, at any depth: writing the value and reading it back
      gives that value, and nothing left over, if and only if it survives. */
  lemma {:induction false} RoundTripsIff(t: Ty, v: Value)
    requires WellFormed(t) && HasType(t, v)
    ensures Whole(Decode(t, Encode(t, v))) == Ok(v) <==> Survives(t, v)
    decreases t, 3, 0
  {
    match t
    case Uint(_) => ScalarRoundTrip(t, v);
    case Enum(_, _) => ScalarRoundTrip(t, v);
    case Policy => ScalarRoundTrip(t, v);
    case Keyword(_) => KeywordRoundTrip(t, v);
    case Struct(_, _) => StructRoundTrip(t, v.vals);
    case List(e) => ListRoundTrip(e, v.items);
    case _ =>
  }
}
