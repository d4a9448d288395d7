/** Exactly what comes back when a value is written and read. */
module ReadBack {
  import opened Bytes
  import opened Schema
  import opened Encoder
  import opened Decoder
  import opened Stream
  import opened RoundTrip

  // ----- the value that comes back -----

  /** The value without one trailing NUL of each string, and with every chain policy Accept. */
  function Restored(t: Ty, v: Value): Value
    requires WellFormed(t) && HasType(t, v)
    decreases t, 1
  {
    match t
    case Text => Data(if v.b != [] && v.b[|v.b| - 1] == 0 then v.b[..|v.b| - 1] else v.b)
    case Policy => Num(NF_ACCEPT)
    case Struct(_, _) => Rec(RestoredFields(t, v.vals))
    case Variant(cases, _) => Tagged(v.tag, Restored(cases[v.tag].ty, v.val))
    case List(e) => Items(RestoredItems(e, v.items))
    case _ => v
  }

  function RestoredFields(t: StructTy, vals: Record): (r: Record)
    requires WellFormed(t) && FieldsTyped(t, vals)
    ensures |r| == |vals|
    ensures forall i | 0 <= i < |vals| ::
              r[i] == if vals[i].Some? then Some(Restored(t.fields[i].ty, vals[i].value)) else None
    decreases t, 0
  {
    seq(|vals|, i requires 0 <= i < |vals| =>
      if vals[i].Some? then Some(Restored(t.fields[i].ty, vals[i].value)) else None)
  }

  function RestoredItems(e: Ty, items: seq<Value>): (r: seq<Value>)
    requires WellFormed(e) && ItemsTyped(e, items)
    ensures |r| == |items| && forall k | 0 <= k < |items| :: r[k] == Restored(e, items[k])
    decreases e, 2
  {
    seq(|items|, k requires 0 <= k < |items| => Restored(e, items[k]))
  }

  // ----- conditions, at every depth -----

  /** Every attribute is small enough for the 16-bit length. */
  ghost predicate Fits(t: Ty, v: Value)
    requires HasType(t, v)
    decreases t
  {
    match t
    case Struct(_, fs) =>
      FieldsFit(t, v.vals) && forall i | 0 <= i < |v.vals| && v.vals[i].Some? :: Fits(fs[i].ty, v.vals[i].value)
    case Variant(cases, _) => Fits(cases[v.tag].ty, v.val)
    case List(e) => ItemsFit(e, v.items) && forall k | 0 <= k < |v.items| :: Fits(e, v.items[k])
    case _ => true
  }

  /** Every expression has a name, and without its trailing NUL that name selects the data it carries. */
  ghost predicate NamesMatch(t: Ty, v: Value)
    requires WellFormed(t) && HasType(t, v)
    decreases t, 1
  {
    match t
    case Struct(_, _) => forall i | 0 <= i < |v.vals| && v.vals[i].Some? :: FieldNamesMatch(t, v.vals, i)
    case Variant(cases, _) => NamesMatch(cases[v.tag].ty, v.val)
    case List(e) =>
      assert ItemsTyped(e, v.items);
      forall k | 0 <= k < |v.items| :: NamesMatch(e, v.items[k])
    case _ => true
  }

  ghost predicate FieldNamesMatch(t: StructTy, vals: Record, i: nat)
    requires WellFormed(t) && FieldsTyped(t, vals) && i < |vals| && vals[i].Some?
    decreases t, 0
  {
    var ft, v := t.fields[i].ty, vals[i].value;
    assert HasType(ft, v);
    && NamesMatch(ft, v)
    && (ft.Variant? ==>
          && vals[0].Some?
          && (assert HasType(Text, vals[0].value); Dispatch(ft, StripNul(vals[0].value.b)) == v.tag))
  }

  /** No structure and no list ends in an attribute without payload. */
  ghost predicate EndsFilled(t: Ty, v: Value)
    requires HasType(t, v)
    decreases t, 1
  {
    match t
    case Struct(_, _) => FieldsFilled(t, v.vals, 0)
    case Variant(cases, _) => EndsFilled(cases[v.tag].ty, v.val)
    case List(e) => ItemsFilled(e, v.items, 0)
    case _ => true
  }

  ghost predicate FieldsFilled(t: StructTy, vals: Record, from: nat)
    requires FieldsTyped(t, vals)
    decreases t, 0
  {
    forall i | from <= i < |vals| && vals[i].Some? ::
      && EndsFilled(t.fields[i].ty, vals[i].value)
      && (SetAfter(vals, i) || SizeOf(t.fields[i].ty, vals[i].value) > 0)
  }

  ghost predicate ItemsFilled(e: Ty, items: seq<Value>, from: nat)
    requires ItemsTyped(e, items)
    decreases e, 2
  {
    forall k | from <= k < |items| :: EndsFilled(e, items[k]) && (k + 1 < |items| || SizeOf(e, items[k]) > 0)
  }

  /** What a reader makes of something written. */
  function Expected<T>(filled: bool, x: T): Outcome<T> { if filled then Ok(x) else Err(InvalidDataSize) }

  // ----- values without parts -----

  lemma {:induction false} StripKeepsUtf8(b: bytes)
    requires Utf8(b) && EndsInNul(b)
    ensures Utf8(b[..|b| - 1])
    decreases |b|
  {
    var n, c := ScalarLength(b), b[..|b| - 1];
    assert b[|b| - 1] == 0;
    if n == |b| {
      assert c == [];
    } else {
      StripKeepsUtf8(b[n..]);
      assert ScalarLength(c) == n;
      assert c[n..] == b[n..][..|b[n..]| - 1];
    }
  }

  lemma {:induction false} PlainReadBack(t: Ty, v: Value)
    requires WellFormed(t) && HasType(t, v) && !t.Struct? && !t.List? && !t.Variant?
    ensures Whole(Decode(t, Encode(t, v))) == Ok(Restored(t, v))
  {
    match t
    case Text => if EndsInNul(v.b) { StripKeepsUtf8(v.b); }
    case Policy => if v.n == NF_DROP { DropReadsAsAccept(); } else { ScalarRoundTrip(t, v); }
    case Uint(_) => ScalarRoundTrip(t, v);
    case Enum(_, _) => ScalarRoundTrip(t, v);
    case Keyword(_) => KeywordRoundTrip(t, v);
    case Blob =>
  }

  // ----- structures -----

  lemma {:induction false} FieldReadBack(t: StructTy, vals: Record, i: nat, acc: Record)
    requires WellFormed(t) && FieldsTyped(t, vals) && i < |vals| == |acc| && vals[i].Some?
    requires Fits(t, Rec(vals)) && NamesMatch(t, Rec(vals)) && acc[..i] == RestoredFields(t, vals)[..i]
    ensures var ft, v := t.fields[i].ty, vals[i].value;
            DecodeField(t, acc, i, Encode(ft, v)) == Expected(EndsFilled(ft, v), Restored(ft, v))
    decreases t, 0, 0
  {
    var ft, v := t.fields[i].ty, vals[i].value;
    assert FieldNamesMatch(t, vals, i);
    assert NamesMatch(ft, v) && Fits(ft, v);
    if ft.Variant? {
      assert acc[0] == acc[..i][0] == RestoredFields(t, vals)[0] == Some(Data(StripNul(vals[0].value.b)));
      ReadBackIs(ft.cases[v.tag].ty, v.val);
    } else {
      ReadBackIs(ft, v);
    }
  }

  lemma {:induction false} FilledSplit(t: StructTy, vals: Record, i: nat)
    requires FieldsTyped(t, vals) && i < |vals|
    ensures FieldsFilled(t, vals, i) <==>
            && FieldsFilled(t, vals, i + 1)
            && (vals[i].Some? ==> && EndsFilled(t.fields[i].ty, vals[i].value)
                                  && (EncodeFields(t, vals, i + 1) != []
                                      || Encode(t.fields[i].ty, vals[i].value) != []))
  {
    hide EndsFilled;
    LaterFields(t, vals, i + 1);
  }

  lemma {:induction false} FieldsReadBack(t: StructTy, vals: Record, i: nat, acc: Record)
    requires WellFormed(t) && FieldsTyped(t, vals) && i <= |vals| == |acc|
    requires Fits(t, Rec(vals)) && NamesMatch(t, Rec(vals))
    requires acc[..i] == RestoredFields(t, vals)[..i] && forall j | i <= j < |acc| :: acc[j] == None
    ensures ReadAttrs(t, EncodeFields(t, vals, i), acc) == Expected(FieldsFilled(t, vals, i), RestoredFields(t, vals))
    decreases t, 1, |vals| - i
  {
    hide Decode, Encode, ReadAttrs, Fits, NamesMatch, EndsFilled, FieldsFilled, EncodeFields, DecodeField, HasType;
    var all := RestoredFields(t, vals);
    if i == |vals| {
      assert acc == acc[..i] && all == all[..i];
      NothingLeft(t, vals, acc);
    } else {
      FilledSplit(t, vals, i);
      if vals[i].None? {
        SkipUnset(t, vals, i);
        ExtendPrefix(acc, all, i);
        FieldsReadBack(t, vals, i + 1, acc);
      } else {
        FitsFields(t, vals);
        ReadFirstField(t, vals, i, acc);
        FieldReadBack(t, vals, i, acc);
        var next := acc[i := all[i]];
        assert next[..i] == acc[..i];
        ExtendPrefix(next, all, i);
        FieldsReadBack(t, vals, i + 1, next);
      }
    }
  }

  lemma {:induction false} NothingLeft(t: StructTy, vals: Record, acc: Record)
    requires WellFormed(t) && FieldsTyped(t, vals) && |acc| == |vals|
    ensures ReadAttrs(t, EncodeFields(t, vals, |vals|), acc) == Ok(acc) && FieldsFilled(t, vals, |vals|)
  {}

  lemma {:induction false} FitsFields(t: StructTy, vals: Record)
    requires FieldsTyped(t, vals) && Fits(t, Rec(vals))
    ensures FieldsFit(t, vals)
  {}

  // ----- lists -----

  lemma {:induction false} FilledItemsSplit(e: Ty, items: seq<Value>, k: nat)
    requires ItemsTyped(e, items) && k < |items|
    ensures ItemsFilled(e, items, k) <==>
            && ItemsFilled(e, items, k + 1) && EndsFilled(e, items[k])
            && (EncodeItems(e, items, k + 1) != [] || Encode(e, items[k]) != [])
  {
    hide EndsFilled, Encode, EncodeItems, SizeOf, HasType;
    MoreItems(e, items, k + 1);
  }

  lemma {:induction false} ItemsReadBack(e: StructTy, items: seq<Value>, k: nat)
    requires WellFormed(e) && ItemsTyped(e, items) && ItemsFit(e, items) && k <= |items|
    requires forall j | 0 <= j < |items| :: Fits(e, items[j]) && NamesMatch(e, items[j])
    ensures ReadItems(e, EncodeItems(e, items, k), RestoredItems(e, items)[..k]) ==
            Expected(ItemsFilled(e, items, k), RestoredItems(e, items))
    decreases e, 5, |items| - k
  {
    hide Fits, NamesMatch, EndsFilled, ItemsFilled, Encode, EncodeItems, Decode, ReadItems;
    var all := RestoredItems(e, items);
    if k == |items| {
      assert all[..k] == all;
      NoItemsLeft(e, items);
    } else {
      FilledItemsSplit(e, items, k);
      ReadFirstItem(e, items, k, all[..k]);
      ReadBackIs(e, items[k]);
      TakeOneMore(all, k);
      ItemsReadBack(e, items, k + 1);
    }
  }

  lemma {:induction false} NoItemsLeft(e: StructTy, items: seq<Value>)
    requires WellFormed(e) && ItemsTyped(e, items)
    ensures ItemsFilled(e, items, |items|) && EncodeItems(e, items, |items|) == []
    ensures forall acc :: ReadItems(e, [], acc) == Ok(acc)
  {}

  // ----- the theorem -----

  /** For every shape and every value within the 16-bit lengths whose expressions carry what their names
      select: if no structure or list in it ends in an attribute without payload, reading back what was
      written gives the restored value, and otherwise it fails with `InvalidDataSize`. */
  lemma {:induction false} ReadBackIs(t: Ty, v: Value)
    requires WellFormed(t) && !t.Variant? && HasType(t, v) && Fits(t, v) && NamesMatch(t, v)
    ensures Whole(Decode(t, Encode(t, v))) == Expected(EndsFilled(t, v), Restored(t, v))
    decreases t, 4, 0
  {
    match t
    case Struct(_, _) => FieldsReadBack(t, v.vals, 0, Defaults(t));
    case List(e) => ItemsReadBack(e, v.items, 0);
    case _ => PlainReadBack(t, v);
  }

  /** So a value within those conditions survives if and only if nothing ends empty and there is nothing to
      restore. */
  lemma {:induction false} SurvivesIffRestored(t: Ty, v: Value)
    requires WellFormed(t) && !t.Variant? && HasType(t, v) && Fits(t, v) && NamesMatch(t, v)
    ensures Survives(t, v) <==> EndsFilled(t, v) && Restored(t, v) == v
  {
    ReadBackIs(t, v);
    RoundTripsIff(t, v);
  }
}
