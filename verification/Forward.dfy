/** Streams of attributes as the reader sees them: exact acceptance, and tolerance of attributes it
    does not know. */
module Forward {
  import opened Bytes
  import opened Schema
  import opened Encoder
  import opened Decoder
  import opened Stream

  // ----- a stream is read as a fold over its attributes -----

  datatype Raw = Raw(attr: nat, nested: bool, payload: bytes)

  predicate Sound(raws: seq<Raw>) {
    forall i | 0 <= i < |raws| :: raws[i].attr <= NLA_TYPE_MASK && |raws[i].payload| <= MAX_PAYLOAD
  }

  function RawStream(raws: seq<Raw>): bytes {
    if raws == [] then []
    else PaddedAttribute(raws[0].attr, raws[0].nested, raws[0].payload) + RawStream(raws[1..])
  }

  /** Attributes one after the other, without cursors, sizes or padding. */
  function Fold(t: StructTy, acc: Record, raws: seq<Raw>): Outcome<Record>
    requires WellFormed(t) && |acc| == |t.fields|
    decreases |raws|
  {
    if raws == [] then Ok(acc)
    else
      var r := Absorb(acc, DecodeAttr(t, acc, raws[0].attr, raws[0].payload));
      if r.Ok? then Fold(t, r.value, raws[1..]) else r
  }

  predicate LastIsEmpty(raws: seq<Raw>) {
    raws != [] && raws[|raws| - 1].payload == []
  }

  /** The cursor loop is the fold, except that a last attribute without payload is never reached and
      turns success into `InvalidDataSize`. */
  lemma {:induction false} ReadsAsFold(t: StructTy, acc: Record, raws: seq<Raw>)
    requires WellFormed(t) && |acc| == |t.fields| && Sound(raws)
    ensures ReadAttrs(t, RawStream(raws), acc) ==
            if LastIsEmpty(raws) then
              var r := Fold(t, acc, raws[..|raws| - 1]);
              if r.Ok? then Err(InvalidDataSize) else r
            else Fold(t, acc, raws)
    decreases |raws|
  {
    hide ReadAttrs, DecodeAttr, PaddedAttribute;
    if raws == [] {
      ReadNothing(t, acc);
    } else {
      var rest := raws[1..];
      ReadOne(t, raws[0].attr, raws[0].nested, raws[0].payload, RawStream(rest), acc);
      var r := Absorb(acc, DecodeAttr(t, acc, raws[0].attr, raws[0].payload));
      if rest == [] {
        assert raws[..0] == [];
        if r.Ok? { ReadNothing(t, r.value); }
      } else {
        assert RawStream(rest) != [];
        var init := raws[..|raws| - 1];
        assert init[0] == raws[0] && init[1..] == rest[..|rest| - 1];
        if r.Ok? { ReadsAsFold(t, r.value, rest); }
      }
    }
  }

  /** On a stream whose attributes all decode or are unknown, reading succeeds if and only if the
      stream is empty or its last attribute has a payload, and fails with `InvalidDataSize` if not. */
  lemma {:induction false} ExactAcceptance(t: StructTy, raws: seq<Raw>)
    requires WellFormed(t) && Sound(raws) && Fold(t, Defaults(t), raws).Ok?
    ensures var r := ReadAttrs(t, RawStream(raws), Defaults(t));
            && (r.Ok? <==> raws == [] || raws[|raws| - 1].payload != [])
            && (!r.Ok? ==> r == Err(InvalidDataSize))
  {
    ReadsAsFold(t, Defaults(t), raws);
    if LastIsEmpty(raws) { FoldPrefix(t, Defaults(t), raws); }
  }

  lemma {:induction false} FoldPrefix(t: StructTy, acc: Record, raws: seq<Raw>)
    requires WellFormed(t) && |acc| == |t.fields| && raws != [] && Fold(t, acc, raws).Ok?
    ensures Fold(t, acc, raws[..|raws| - 1]).Ok?
    decreases |raws|
  {
    if |raws| == 1 {
    } else {
      var init := raws[..|raws| - 1];
      assert init[0] == raws[0] && init[1..] == raws[1..][..|raws| - 2];
      FoldPrefix(t, Absorb(acc, DecodeAttr(t, acc, raws[0].attr, raws[0].payload)).value, raws[1..]);
    }
  }

  // ----- failures of structures are never mistaken for unknown attributes -----

  ghost predicate Unsupported<T>(r: Outcome<T>) {
    r.Err? && r.error.UnsupportedAttributeType?
  }

  lemma {:induction false} StructsNeverUnsupported(t: StructTy, buf: bytes, acc: Record)
    requires WellFormed(t) && |acc| == |t.fields|
    ensures !Unsupported(ReadAttrs(t, buf, acc))
    decreases |buf|
  {
    if |buf| <= NLA_HDRLEN {
    } else {
      var len := NlaLen(buf);
      if NLA_HDRLEN <= len <= |buf| && Pad(len) <= |buf| {
        var r := Absorb(acc, DecodeAttr(t, acc, NlaType(buf), buf[NLA_HDRLEN..len]));
        if r.Ok? { StructsNeverUnsupported(t, buf[Pad(len)..], r.value); }
      }
    }
  }

  // ----- inserting unknown attributes -----

  /** A change to an attribute stream: attributes are kept as they are, rewritten inside, or new. */
  datatype Edits =
    | End
    | Keep(attr: nat, nested: bool, payload: bytes, tail: Edits)
    | Inside(attr: nat, nested: bool, inner: Edits, tail: Edits)
    | Insert(attr: nat, nested: bool, payload: bytes, tail: Edits)

  function Before(es: Edits): bytes {
    match es
    case End => []
    case Keep(a, n, p, tail) => PaddedAttribute(a, n, p) + Before(tail)
    case Inside(a, n, inner, tail) => PaddedAttribute(a, n, Before(inner)) + Before(tail)
    case Insert(_, _, _, tail) => Before(tail)
  }

  function After(es: Edits): bytes {
    match es
    case End => []
    case Keep(a, n, p, tail) => PaddedAttribute(a, n, p) + After(tail)
    case Inside(a, n, inner, tail) => PaddedAttribute(a, n, After(inner)) + After(tail)
    case Insert(a, n, p, tail) => PaddedAttribute(a, n, p) + After(tail)
  }

  /** The shape an attribute is decoded as, given what has been read before it. */
  function ChildType(t: StructTy, acc: Record, attr: nat): (c: Option<Ty>)
    requires WellFormed(t) && |acc| == |t.fields|
    ensures c.Some? ==> WellFormed(c.value)
  {
    match FieldIndex(t.fields, attr, 0)
    case None => None
    case Some(i) =>
      var ft := t.fields[i].ty;
      assert WellFormed(ft);
      if !ft.Variant? then Some(ft)
      else if acc[0].Some? && acc[0].value.Data? then Some(ft.cases[Dispatch(ft, acc[0].value.b)].ty)
      else None
  }

  /** What has been read after one more attribute; unchanged if that fails. */
  function Next(t: StructTy, acc: Record, attr: nat, payload: bytes): (r: Record)
    requires WellFormed(t) && |acc| == |t.fields|
    ensures |r| == |acc|
  {
    var r := Absorb(acc, DecodeAttr(t, acc, attr, payload));
    if r.Ok? then r.value else acc
  }

  /** Only attributes of types the structure does not know are inserted, at any depth and in any
      position; one that comes last has a payload; every length still fits 16 bits. */
  ghost predicate Harmless(t: StructTy, acc: Record, es: Edits)
    requires WellFormed(t) && |acc| == |t.fields|
    decreases es, 0
  {
    match es
    case End => true
    case Keep(a, _, p, tail) =>
      a <= NLA_TYPE_MASK && |p| <= MAX_PAYLOAD && Harmless(t, Next(t, acc, a, p), tail)
    case Insert(a, _, p, tail) =>
      && a <= NLA_TYPE_MASK && |p| <= MAX_PAYLOAD && FieldIndex(t.fields, a, 0).None?
      && (tail.End? ==> p != []) && Harmless(t, acc, tail)
    case Inside(a, _, inner, tail) =>
      && a <= NLA_TYPE_MASK && |After(inner)| <= MAX_PAYLOAD
      && ChildType(t, acc, a).Some? && HarmlessPayload(ChildType(t, acc, a).value, inner)
      && Harmless(t, Next(t, acc, a, Before(inner)), tail)
  }

  ghost predicate HarmlessPayload(c: Ty, es: Edits)
    requires WellFormed(c)
    decreases es, 1
  {
    match c
    case Struct(_, _) => Harmless(c, Defaults(c), es)
    case List(e) => HarmlessItems(e, es)
    case _ => false
  }

  ghost predicate HarmlessItems(e: StructTy, es: Edits)
    requires WellFormed(e)
    decreases es, 0
  {
    match es
    case End => true
    case Keep(a, _, p, tail) => a == NFTA_LIST_ELEM && |p| <= MAX_PAYLOAD && HarmlessItems(e, tail)
    case Insert(_, _, _, _) => false
    case Inside(a, _, inner, tail) =>
      && a == NFTA_LIST_ELEM && |After(inner)| <= MAX_PAYLOAD
      && HarmlessPayload(e, inner) && HarmlessItems(e, tail)
  }

  lemma {:induction false} AfterIsLonger(es: Edits)
    ensures |Before(es)| <= |After(es)|
    ensures After(es) == [] ==> es == End
  {
    match es
    case End =>
    case Keep(_, _, _, tail) => AfterIsLonger(tail);
    case Insert(_, _, _, tail) => AfterIsLonger(tail);
    case Inside(_, _, inner, tail) =>
      AfterIsLonger(inner);
      AfterIsLonger(tail);
      PadMonotonic(|Before(inner)|, |After(inner)|);
  }

  /** Some stream ended in an attribute without payload, which is never read, and does not any more:
      something was put behind the attribute or into it. */
  predicate Repairs(es: Edits) {
    match es
    case End => false
    case Keep(_, _, p, tail) => (p == [] && Before(tail) == [] && After(tail) != []) || Repairs(tail)
    case Insert(_, _, _, tail) => Repairs(tail)
    case Inside(_, _, inner, tail) =>
      || Repairs(inner) || Repairs(tail)
      || (Before(inner) == [] && Before(tail) == [] && (After(inner) != [] || After(tail) != []))
  }

  /** What the insertions do: they make no difference at all, not even to errors, unless they repair a
      stream, and a stream that can be repaired was not accepted before. */
  lemma {:induction false} InsertionsDo(t: StructTy, acc: Record, es: Edits)
    requires WellFormed(t) && |acc| == |t.fields| && Harmless(t, acc, es)
    ensures Repairs(es) ==> !ReadAttrs(t, Before(es), acc).Ok?
    ensures !Repairs(es) ==> ReadAttrs(t, After(es), acc) == ReadAttrs(t, Before(es), acc)
    decreases es, 0
  {
    hide ReadAttrs, DecodeAttr, ChildType, PaddedAttribute, FieldIndex;
    match es
    case End =>
    case Keep(a, n, p, tail) =>
      ReadOne(t, a, n, p, Before(tail), acc);
      ReadOne(t, a, n, p, After(tail), acc);
      AfterIsLonger(tail);
      InsertionsDo(t, Next(t, acc, a, p), tail);
    case Insert(a, n, p, tail) =>
      ReadOne(t, a, n, p, After(tail), acc);
      UnknownType(t, acc, a, p);
      AfterIsLonger(tail);
      InsertionsDo(t, acc, tail);
    case Inside(a, n, inner, tail) =>
      AfterIsLonger(inner);
      AfterIsLonger(tail);
      ReadOne(t, a, n, Before(inner), Before(tail), acc);
      ReadOne(t, a, n, After(inner), After(tail), acc);
      InsideDoes(t, acc, a, inner);
      InsertionsDo(t, Next(t, acc, a, Before(inner)), tail);
  }

  lemma {:induction false} UnknownType(t: StructTy, acc: Record, attr: nat, payload: bytes)
    requires WellFormed(t) && |acc| == |t.fields| && FieldIndex(t.fields, attr, 0).None?
    ensures Absorb(acc, DecodeAttr(t, acc, attr, payload)) == Ok(acc)
  {}

  /** Forward compatibility: what decodes still decodes, to the same value, after attributes of
      unknown types have been inserted.  The other way round, what decodes afterwards decoded before
      if and only if nothing was repaired. */
  lemma {:induction false} UnknownAttributesAreHarmless(t: StructTy, acc: Record, es: Edits)
    requires WellFormed(t) && |acc| == |t.fields| && Harmless(t, acc, es)
    ensures ReadAttrs(t, Before(es), acc).Ok? <==> ReadAttrs(t, After(es), acc).Ok? && !Repairs(es)
    ensures ReadAttrs(t, Before(es), acc).Ok? ==> ReadAttrs(t, After(es), acc) == ReadAttrs(t, Before(es), acc)
  {
    InsertionsDo(t, acc, es);
  }

  /** An attribute of a known type fares as its payload does. */
  lemma {:induction false} DecodeByChild(t: StructTy, acc: Record, attr: nat, payload: bytes)
    requires WellFormed(t) && |acc| == |t.fields| && ChildType(t, acc, attr).Some?
    ensures var d, r := Whole(Decode(ChildType(t, acc, attr).value, payload)), DecodeAttr(t, acc, attr, payload);
            && (d.Ok? <==> r.Ok?)
            && (Unsupported(d) <==> Unsupported(r))
  {}

  /** An attribute rewritten inside. */
  lemma {:induction false} InsideDoes(t: StructTy, acc: Record, attr: nat, es: Edits)
    requires WellFormed(t) && |acc| == |t.fields| && ChildType(t, acc, attr).Some?
    requires HarmlessPayload(ChildType(t, acc, attr).value, es)
    ensures var before, after := DecodeAttr(t, acc, attr, Before(es)), DecodeAttr(t, acc, attr, After(es));
            && !Unsupported(before)
            && (Repairs(es) ==> !before.Ok?)
            && (!Repairs(es) ==> after == before)
    decreases es, 2
  {
    var c := ChildType(t, acc, attr).value;
    DecodeByChild(t, acc, attr, Before(es));
    ChildNeverUnsupported(c, es);
    PayloadDoes(c, es);
  }

  lemma {:induction false} ChildNeverUnsupported(c: Ty, es: Edits)
    requires WellFormed(c) && HarmlessPayload(c, es)
    ensures !Unsupported(Decode(c, Before(es)))
  {
    match c
    case Struct(_, _) => StructsNeverUnsupported(c, Before(es), Defaults(c));
    case List(e) => ItemsNeverUnsupported(e, es, []);
  }

  lemma {:induction false} ItemsNeverUnsupported(e: StructTy, es: Edits, acc: seq<Value>)
    requires WellFormed(e) && HarmlessItems(e, es)
    ensures !Unsupported(ReadItems(e, Before(es), acc))
    decreases es, 0
  {
    if es.End? {
    } else {
      var p := if es.Keep? then es.payload else Before(es.inner);
      if es.Inside? { AfterIsLonger(es.inner); }
      ReadOneItem(e, es.nested, p, Before(es.tail), acc);
      StructsNeverUnsupported(e, p, Defaults(e));
      var d := Whole(Decode(e, p));
      if d.Ok? { ItemsNeverUnsupported(e, es.tail, acc + [d.value]); }
    }
  }

  lemma {:induction false} PayloadDoes(c: Ty, es: Edits)
    requires WellFormed(c) && HarmlessPayload(c, es)
    ensures Repairs(es) ==> !Decode(c, Before(es)).Ok?
    ensures !Repairs(es) ==> Decode(c, After(es)) == Decode(c, Before(es))
    decreases es, 1
  {
    match c
    case Struct(_, _) => InsertionsDo(c, Defaults(c), es);
    case List(e) => ItemsDo(e, es, []);
  }

  lemma {:induction false} ItemsDo(e: StructTy, es: Edits, acc: seq<Value>)
    requires WellFormed(e) && HarmlessItems(e, es)
    ensures Repairs(es) ==> !ReadItems(e, Before(es), acc).Ok?
    ensures !Repairs(es) ==> ReadItems(e, After(es), acc) == ReadItems(e, Before(es), acc)
    decreases es, 0
  {
    hide ReadItems, Decode, PaddedAttribute;
    if es.End? {
    } else {
      AfterIsLonger(es.tail);
      if es.Keep? {
        var d := Whole(Decode(e, es.payload));
        ReadOneItem(e, es.nested, es.payload, Before(es.tail), acc);
        ReadOneItem(e, es.nested, es.payload, After(es.tail), acc);
        if d.Ok? { ItemsDo(e, es.tail, acc + [d.value]); }
      } else {
        var d := Whole(Decode(e, Before(es.inner)));
        AfterIsLonger(es.inner);
        ReadOneItem(e, es.nested, Before(es.inner), Before(es.tail), acc);
        ReadOneItem(e, es.nested, After(es.inner), After(es.tail), acc);
        PayloadDoes(e, es.inner);
        if d.Ok? { ItemsDo(e, es.tail, acc + [d.value]); }
      }
    }
  }
}
