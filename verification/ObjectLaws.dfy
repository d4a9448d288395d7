/** The laws of the attribute codec on whole objects in their messages. */
module ObjectLaws {
  import opened Bytes
  import opened Schema
  import opened Encoder
  import opened Decoder
  import opened Injective
  import opened Forward
  import opened ReadBack
  import opened Messages

  /** The message number tells both the kind of the object and the request. */
  lemma {:induction false} NumbersTellKindsApart(k: Kind, l: Kind, op: MsgType, oq: MsgType)
    requires MsgNumber(k, op) == MsgNumber(l, oq)
    ensures k == l && op == oq
  {}

  /** Two tidy objects written to the same bytes are the same object, under the same request and number,
      even where the reader would refuse or change them. */
  lemma {:induction false} MessagesTellObjectsApart(o: Object, op: MsgType, n: nat, q: Object, oq: MsgType, k: nat)
    requires ValidObject(o) && ValidObject(q) && n < U32_LIMIT && k < U32_LIMIT
    requires WellFormed(TypeOf(o.kind)) && Tidy(TypeOf(o.kind), Rec(o.vals))
    requires WellFormed(TypeOf(q.kind)) && Tidy(TypeOf(q.kind), Rec(q.vals))
    requires Frame(ObjectMessage(o, op, n)) == Frame(ObjectMessage(q, oq, k))
    ensures o == q && op == oq && n == k
  {
    hide Tidy, WellFormed, TypeOf, Frame, ParseNlmsg, EncodeFields, MsgNumber;
    var a, b := ObjectMessage(o, op, n), ObjectMessage(q, oq, k);
    ObjectSendable(o, op, n);
    ObjectSendable(q, oq, k);
    FrameParses(a, []);
    FrameParses(b, []);
    assert ParsedOf(a) == ParsedOf(b);
    assert a.ty == b.ty && a.seqno == b.seqno && a.body == b.body && a.family == b.family;
    NumbersTellKindsApart(o.kind, q.kind, op, oq);
    BodiesTellApart(TypeOf(o.kind), o.vals, q.vals);
  }

  lemma {:induction false} BodiesTellApart(t: StructTy, vals: Record, others: Record)
    requires WellFormed(t) && FieldsTyped(t, vals) && FieldsTyped(t, others)
    requires Tidy(t, Rec(vals)) && Tidy(t, Rec(others))
    requires EncodeFields(t, vals, 0) == EncodeFields(t, others, 0)
    ensures vals == others
  {
    EncodeInjective(t, Rec(vals), Rec(others));
  }

  /** An object that is read from a message is read from the same message with attributes of unknown
      types inserted, at any depth of it; and one that is read afterwards was read before, if and only if
      nothing was repaired. */
  lemma {:induction false} NewerMessagesReadAlike(k: Kind, m: Message, es: Edits, rest: bytes)
    requires WellFormed(TypeOf(k)) && Harmless(TypeOf(k), Defaults(TypeOf(k)), es)
    requires m.body == Before(es) && Sendable(m) && Sendable(m.(body := After(es)))
    ensures var before, after := DeserializeObject(k, Frame(m) + rest),
                                 DeserializeObject(k, Frame(m.(body := After(es))) + rest);
            && (before.Ok? <==> after.Ok? && !Repairs(es))
            && (before.Ok? ==> after == before)
  {
    NewerBodiesReadAlike(TypeOf(k), MsgNumber(k, Add), MsgNumber(k, Del), m, es, rest);
  }

  lemma {:induction false} NewerBodiesReadAlike(t: StructTy, addObj: nat, delObj: nat, m: Message, es: Edits,
                                                rest: bytes)
    requires WellFormed(t) && Harmless(t, Defaults(t), es)
    requires m.body == Before(es) && Sendable(m) && Sendable(m.(body := After(es)))
    ensures var before, after := ParseObject(t, addObj, delObj, Frame(m) + rest),
                                 ParseObject(t, addObj, delObj, Frame(m.(body := After(es))) + rest);
            && (before.Ok? <==> after.Ok? && !Repairs(es))
            && (before.Ok? ==> after == before)
            && (after.Ok? ==> after.value.family == m.family)
  {
    hide ReadAttrs, Frame, ParseNlmsg, Harmless, Sendable;
    var newer := m.(body := After(es));
    var op := m.ty % 256;
    if op == addObj || op == delObj {
      FrameParsesAsObject(t, addObj, delObj, m, rest);
      FrameParsesAsObject(t, addObj, delObj, newer, rest);
      UnknownAttributesAreHarmless(t, Defaults(t), es);
    } else {
      FrameParses(m, rest);
      FrameParses(newer, rest);
    }
  }

  /** What comes back, object by object: the restored attributes and exactly the bytes behind the message,
      unless something in the object ends in an empty attribute; then nothing comes back. */
  lemma {:induction false} ObjectReadsBackAs(o: Object, op: MsgType, seqno: nat, rest: bytes)
    requires ValidObject(o) && seqno < U32_LIMIT && WellFormed(TypeOf(o.kind))
    requires Fits(TypeOf(o.kind), Rec(o.vals)) && NamesMatch(TypeOf(o.kind), Rec(o.vals))
    ensures var r := DeserializeObject(o.kind, Frame(ObjectMessage(o, op, seqno)) + rest);
            if EndsFilled(TypeOf(o.kind), Rec(o.vals))
            then r == Ok(Received(o.(vals := RestoredFields(TypeOf(o.kind), o.vals)), rest))
            else !r.Ok?
  {
    hide ReadAttrs, Frame, ParseObject, Fits, NamesMatch, EndsFilled, WellFormed, TypeOf, RestoredFields;
    var t, m := TypeOf(o.kind), ObjectMessage(o, op, seqno);
    ObjectSendable(o, op, seqno);
    FrameParsesAsObject(t, MsgNumber(o.kind, Add), MsgNumber(o.kind, Del), m, rest);
    StructReadsBackAs(t, o.vals);
  }

  lemma {:induction false} StructReadsBackAs(t: StructTy, vals: Record)
    requires WellFormed(t) && FieldsTyped(t, vals) && Fits(t, Rec(vals)) && NamesMatch(t, Rec(vals))
    ensures ReadAttrs(t, EncodeFields(t, vals, 0), Defaults(t)) ==
            Expected(EndsFilled(t, Rec(vals)), RestoredFields(t, vals))
  {
    FieldsReadBack(t, vals, 0, Defaults(t));
  }
}
