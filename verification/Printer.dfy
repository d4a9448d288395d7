/** The reference printer of the test suite and its agreement with the writer. */
module Printer {
  import opened Bytes
  import opened Schema
  import opened Encoder

  datatype NetlinkExpr =
    | Nest(ty: nat, exprs: seq<NetlinkExpr>)
    | Final(ty: nat, val: bytes)

  /** `NetlinkExpr::to_raw`, children in the order they are given.  A nest is not padded: its parts
      already are. */
  function ToRaw(e: NetlinkExpr): bytes
    decreases e, 0
  {
    match e
    case Final(ty, val) =>
      Padded(LittleEndian(|val| + 4, 2) + LittleEndian(ty, 2) + val)
    case Nest(ty, exprs) =>
      var sub := RawAll(exprs);
      LittleEndian(|sub| + 4, 2) + LittleEndian(ty + 0x8000, 2) + sub
  }

  /** `NetlinkExpr::List`: the concatenation of its parts. */
  function RawAll(exprs: seq<NetlinkExpr>): bytes
    decreases exprs, 0
  {
    if exprs == [] then [] else ToRaw(exprs[0]) + RawAll(exprs[1..])
  }

  // ----- the tree a value stands for -----

  /** The parts of a structure or a list; `None` for values without parts. */
  function Parts(t: Ty, v: Value): Option<seq<NetlinkExpr>>
    requires HasType(t, v)
    decreases t, 1
  {
    match t
    case Struct(_, _) => Some(FieldTrees(t, v.vals, 0))
    case List(e) => Some(ItemTrees(e, v.items, 0))
    case Variant(cases, _) => Parts(cases[v.tag].ty, v.val)
    case _ => None
  }

  /** Lists, expression data and structures marked as nested are nests; the rest is final.  Expression data
      without parts keeps the mark. */
  function Tree(attr: nat, t: Ty, v: Value): NetlinkExpr
    requires HasType(t, v)
    decreases t, 2
  {
    match t
    case Struct(true, _) => Nest(attr, FieldTrees(t, v.vals, 0))
    case List(e) => Nest(attr, ItemTrees(e, v.items, 0))
    case Variant(cases, _) =>
      var parts := Parts(cases[v.tag].ty, v.val);
      if parts.Some? then Nest(attr, parts.value) else Final(attr + 0x8000, Encode(t, v))
    case _ => Final(attr, Encode(t, v))
  }

  function FieldTrees(t: StructTy, vals: Record, i: nat): seq<NetlinkExpr>
    requires i <= |t.fields| && FieldsTyped(t, vals)
    decreases t, 0, |t.fields| - i
  {
    if i == |t.fields| then []
    else (if vals[i].Some? then [Tree(t.fields[i].attr, t.fields[i].ty, vals[i].value)] else [])
         + FieldTrees(t, vals, i + 1)
  }

  function ItemTrees(e: Ty, items: seq<Value>, k: nat): seq<NetlinkExpr>
    requires k <= |items| && ItemsTyped(e, items)
    decreases e, 3, |items| - k
  {
    if k == |items| then []
    else [Tree(NFTA_LIST_ELEM, e, items[k])] + ItemTrees(e, items, k + 1)
  }

  // ----- agreement -----

  /** For every value the writer's bytes are the printer's: the parts concatenated in written order,
      and padding, where there is any, zero. */
  lemma {:induction false} PrinterAgrees(t: Ty, v: Value)
    requires WellFormed(t) && HasType(t, v)
    ensures Parts(t, v).Some? ==>
              RawAll(Parts(t, v).value) == Encode(t, v) && |Encode(t, v)| % 4 == 0
    decreases t, 1
  {
    match t
    case Struct(_, _) => FieldTreesAgree(t, v.vals, 0); FieldSizesAreAligned(t, v.vals, 0);
    case List(e) => ItemTreesAgree(e, v.items, 0); ItemSizesAreAligned(e, v.items, 0);
    case Variant(cases, _) => PrinterAgrees(cases[v.tag].ty, v.val);
    case _ =>
  }

  lemma {:induction false} TreeAgrees(attr: nat, t: Ty, v: Value)
    requires WellFormed(t) && HasType(t, v)
    ensures ToRaw(Tree(attr, t, v)) == PaddedAttribute(attr, Nested(t), Encode(t, v))
    decreases t, 2
  {
    hide Encode, LittleEndian, Attribute, PaddedAttribute, RawAll;
    PrinterAgrees(t, v);
    match t
    case Struct(true, _) => NestAgrees(attr, FieldTrees(t, v.vals, 0), Encode(t, v));
    case List(e) => NestAgrees(attr, ItemTrees(e, v.items, 0), Encode(t, v));
    case Variant(cases, _) =>
      var parts := Parts(cases[v.tag].ty, v.val);
      if parts.Some? {
        NestAgrees(attr, parts.value, Encode(t, v));
      } else {
        FinalAgrees(attr, true, Encode(t, v));
      }
    case _ => FinalAgrees(attr, false, Encode(t, v));
  }

  lemma {:induction false} NestAgrees(attr: nat, exprs: seq<NetlinkExpr>, b: bytes)
    requires RawAll(exprs) == b && |b| % 4 == 0
    ensures ToRaw(Nest(attr, exprs)) == PaddedAttribute(attr, true, b)
  {
    AlignedAttribute(attr, true, b);
  }

  lemma {:induction false} FinalAgrees(attr: nat, marked: bool, b: bytes)
    ensures ToRaw(Final(if marked then attr + 0x8000 else attr, b)) == PaddedAttribute(attr, marked, b)
  {}

  lemma {:induction false} FieldTreesAgree(t: StructTy, vals: Record, i: nat)
    requires i <= |t.fields| && WellFormed(t) && FieldsTyped(t, vals)
    ensures RawAll(FieldTrees(t, vals, i)) == EncodeFields(t, vals, i)
    decreases t, 0, |t.fields| - i
  {
    if i == |t.fields| {
    } else {
      FieldTreesAgree(t, vals, i + 1);
      if vals[i].Some? {
        TreeAgrees(t.fields[i].attr, t.fields[i].ty, vals[i].value);
        assert FieldTrees(t, vals, i)[1..] == FieldTrees(t, vals, i + 1);
      } else {
        assert FieldTrees(t, vals, i) == FieldTrees(t, vals, i + 1);
      }
    }
  }

  lemma {:induction false} ItemTreesAgree(e: Ty, items: seq<Value>, k: nat)
    requires k <= |items| && e.Struct? && WellFormed(e) && ItemsTyped(e, items)
    ensures RawAll(ItemTrees(e, items, k)) == EncodeItems(e, items, k)
    decreases e, 3, |items| - k
  {
    if k == |items| {
    } else {
      ItemTreesAgree(e, items, k + 1);
      TreeAgrees(NFTA_LIST_ELEM, e, items[k]);
      ListStridesAgree(e, items[k]);
      AlignedAttribute(NFTA_LIST_ELEM, Nested(e), Encode(e, items[k]));
      assert ItemTrees(e, items, k)[1..] == ItemTrees(e, items, k + 1);
    }
  }

  ghost predicate AlignedFrom(e: Ty, items: seq<Value>, k: nat)
    requires ItemsTyped(e, items)
  {
    forall i | k <= i < |items| :: SizeOf(e, items[i]) % 4 == 0
  }

  /** Elements of any shape, structures or not: the list writer, which does not pad them, and the printer,
      which does, agree if and only if there is nothing to pad. */
  lemma {:induction false} ListsAgreeIff(e: Ty, items: seq<Value>, k: nat)
    requires k <= |items| && WellFormed(e) && ItemsTyped(e, items)
    ensures |RawAll(ItemTrees(e, items, k))| >= |EncodeItems(e, items, k)|
    ensures |RawAll(ItemTrees(e, items, k))| == |EncodeItems(e, items, k)| <==> AlignedFrom(e, items, k)
    ensures RawAll(ItemTrees(e, items, k)) == EncodeItems(e, items, k) <==> AlignedFrom(e, items, k)
    decreases |items| - k
  {
    hide Encode, EncodeItems, SizeOf, ToRaw, RawAll, Tree, ItemTrees, Attribute, PaddedAttribute, HasType, WellFormed;
    if k == |items| {
      NoTrees(e, items);
    } else {
      var payload := Encode(e, items[k]);
      var padded, plain := PaddedAttribute(1, Nested(e), payload), Attribute(1, Nested(e), payload);
      ListsAgreeIff(e, items, k + 1);
      TreeAgrees(1, e, items[k]);
      FirstTree(e, items, k);
      PaddingShows(1, Nested(e), payload);
      assert AlignedFrom(e, items, k) <==> |payload| % 4 == 0 && AlignedFrom(e, items, k + 1);
      PiecesCompare(padded, plain, RawAll(ItemTrees(e, items, k + 1)), EncodeItems(e, items, k + 1),
                    |payload| % 4 == 0, AlignedFrom(e, items, k + 1));
    }
  }

  lemma {:induction false} NoTrees(e: Ty, items: seq<Value>)
    requires ItemsTyped(e, items)
    ensures RawAll(ItemTrees(e, items, |items|)) == [] == EncodeItems(e, items, |items|)
  {}

  lemma {:induction false} FirstTree(e: Ty, items: seq<Value>, k: nat)
    requires ItemsTyped(e, items) && k < |items|
    ensures HasType(e, items[k])
    ensures RawAll(ItemTrees(e, items, k)) == ToRaw(Tree(1, e, items[k])) + RawAll(ItemTrees(e, items, k + 1))
    ensures EncodeItems(e, items, k) == Attribute(1, Nested(e), Encode(e, items[k])) + EncodeItems(e, items, k + 1)
  {
    hide ToRaw, Tree, Attribute;
    assert ItemTrees(e, items, k)[1..] == ItemTrees(e, items, k + 1);
  }

  lemma {:induction false} PaddingShows(attr: nat, nested: bool, payload: bytes)
    ensures var padded, plain := PaddedAttribute(attr, nested, payload), Attribute(attr, nested, payload);
            && |padded| >= |plain| && (|padded| == |plain| <==> |payload| % 4 == 0)
            && (|payload| % 4 == 0 ==> padded == plain)
  {
    if |payload| % 4 == 0 { AlignedAttribute(attr, nested, payload); }
  }

  /** Two streams piece by piece, where one piece may be longer. */
  lemma {:induction false} PiecesCompare(a: bytes, b: bytes, restA: bytes, restB: bytes, same: bool, restSame: bool)
    requires |a| >= |b| && (|a| == |b| <==> same) && (same ==> a == b)
    requires |restA| >= |restB| && (|restA| == |restB| <==> restSame) && (restA == restB <==> restSame)
    ensures |a + restA| >= |b + restB| && (|a + restA| == |b + restB| <==> same && restSame)
    ensures a + restA == b + restB <==> same && restSame
  {}

  /** A list of two one-byte strings is written as ten bytes, while the printer (and the reader) expect
      each element to be padded. */
  lemma {:induction false} UnalignedListsDisagree()
    ensures var v := Items([Data([97]), Data([98])]);
            && HasType(List(Text), v) && |Encode(List(Text), v)| == 10
            && RawAll(ItemTrees(Text, v.items, 0)) != Encode(List(Text), v)
  {
    AsciiIsUtf8([97]);
    AsciiIsUtf8([98]);
    var items := [Data([97]), Data([98])];
    assert HasType(Text, items[0]) && HasType(Text, items[1]);
    assert SizeItems(Text, items, 2) == 0;
    assert SizeItems(Text, items, 1) == 5;
    ListsAgreeIff(Text, items, 0);
  }
}
