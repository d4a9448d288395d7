/** Reading attributes back: `deserialize`, the generated `decode_attribute`, and the cursor loops of
    `read_attributes` and the list reader.

    Decoding is total: a slice index out of range, or a subtraction below zero, is the outcome
    `Panic`. */
module Decoder {
  import opened Bytes
  import opened Schema
  import opened Encoder

  datatype DecodeError =
    | BufTooSmall
    | NlMsgTooSmall
    | InvalidDataSize
    | InvalidSubsystem(subsystem: nat)
    | InvalidVersion(version: nat)
    | ConcurrentGenerationUpdate
    | UnsupportedType(ty: nat)
    | UnknownChainType
    | UnknownChainPolicy
    | UnknownCode(code: nat)
    | UnknownProtocolFamily(family: nat)
    | MissingExpressionName
    | UnsupportedAttributeType(attr: nat)
    | UnexpectedType(ty: nat)
    | StringDecodeFailure

  datatype Outcome<+T> = Ok(value: T) | Err(error: DecodeError) | Panic

  /** What `deserialize` returns: the value and the bytes it did not consume. */
  datatype Decoded = Decoded(value: Value, rest: bytes)

  // ----- attribute headers -----

  function NlaLen(buf: bytes): (n: nat)
    requires |buf| >= NLA_HDRLEN
  {
    FromLittleEndian(buf[0..2])
  }

  /** The type with the nested and byte-order flags masked away. */
  function NlaType(buf: bytes): nat
    requires |buf| >= NLA_HDRLEN
  {
    FromLittleEndian(buf[2..4]) % (NLA_TYPE_MASK + 1)
  }

  /** The remainder is the mask of the code. */
  lemma {:induction false} TypeMaskIsBitAnd(x: nat)
    ensures BitAnd(16, x, NLA_TYPE_MASK) == x % (NLA_TYPE_MASK + 1)
  {
    assert Pow2(14) == NLA_TYPE_MASK + 1 by {
      assert Pow2(2) == 4 && Pow2(6) == 64 && Pow2(10) == 1024;
    }
    AndLowOnes(16, x, 14);
  }

  // ----- the decoder as a function -----

  /** `buf` without its last byte if that is NUL. */
  function StripNul(buf: bytes): bytes {
    if EndsInNul(buf) then buf[..|buf| - 1] else buf
  }

  function WordIndex(words: seq<bytes>, w: bytes, i: nat): (r: Option<nat>)
    requires i <= |words|
    ensures r.Some? ==> i <= r.value < |words| && words[r.value] == w
    ensures r.None? ==> forall j | i <= j < |words| :: words[j] != w
    decreases |words| - i
  {
    if i == |words| then None else if words[i] == w then Some(i) else WordIndex(words, w, i + 1)
  }

  function FieldIndex(fs: seq<Field>, attr: nat, i: nat): (r: Option<nat>)
    requires i <= |fs|
    ensures r.Some? ==> i <= r.value < |fs| && fs[r.value].attr == attr
    ensures r.None? ==> forall j | i <= j < |fs| :: fs[j].attr != attr
    decreases |fs| - i
  {
    if i == |fs| then None else if fs[i].attr == attr then Some(i) else FieldIndex(fs, attr, i + 1)
  }

  function CaseIndex(cases: seq<Case>, name: bytes, i: nat): (r: Option<nat>)
    requires i <= |cases|
    ensures r.Some? ==> i <= r.value < |cases| && cases[r.value].name == name
    ensures r.None? ==> forall j | i <= j < |cases| :: cases[j].name != name
    decreases |cases| - i
  {
    if i == |cases| then None else if cases[i].name == name then Some(i) else CaseIndex(cases, name, i + 1)
  }

  /** The expression a name selects: the one registered under it, `ExpressionRaw` otherwise. */
  function Dispatch(t: Ty, name: bytes): (tag: nat)
    requires t.Variant? && WellFormed(t)
    ensures tag < |t.cases|
  {
    match CaseIndex(t.cases, name, 0)
    case Some(i) => i
    case None => t.raw
  }

  /** A value whose decoder left bytes over is rejected by every caller. */
  function Whole(d: Outcome<Decoded>): Outcome<Value> {
    match d
    case Ok(x) => if x.rest == [] then Ok(x.value) else Err(InvalidDataSize)
    case Err(e) => Err(e)
    case Panic => Panic
  }

  function Decode(t: Ty, buf: bytes): Outcome<Decoded>
    requires WellFormed(t)
    decreases t, 3, 0
  {
    match t
    case Uint(w) => if |buf| < w then Panic else Ok(Decoded(Num(FromBigEndian(buf[..w])), buf[w..]))
    case Enum(w, codes) =>
      if |buf| < w then Panic
      else var n := FromBigEndian(buf[..w]);
        if n in codes then Ok(Decoded(Num(n), buf[w..])) else Err(UnknownCode(n))
    case Text =>
      var s := StripNul(buf);
      if Utf8(s) then Ok(Decoded(Data(s), [])) else Err(StringDecodeFailure)
    case Blob => Ok(Decoded(Data(buf), []))
    case Policy =>
      if |buf| < 4 then Panic
      else var n := FromBigEndian(buf[..4]);
        if n == NF_ACCEPT || n == NF_DROP then Ok(Decoded(Num(NF_ACCEPT), buf[4..]))
        else Err(UnknownChainPolicy)
    case Keyword(words) =>
      var s := StripNul(buf);
      if !Utf8(s) then Err(StringDecodeFailure)
      else (match WordIndex(words, s, 0)
            case Some(i) => Ok(Decoded(Word(i), []))
            case None => Err(UnknownChainType))
    case Struct(_, _) =>
      (match ReadAttrs(t, buf, Defaults(t))
       case Ok(vals) => Ok(Decoded(Rec(vals), []))
       case Err(e) => Err(e)
       case Panic => Panic)
    case Variant(_, _) => Err(MissingExpressionName)
    case List(e) =>
      (match ReadItems(e, buf, [])
       case Ok(items) => Ok(Decoded(Items(items), []))
       case Err(err) => Err(err)
       case Panic => Panic)
  }

  /** `T::default()`: no field is set. */
  function Defaults(t: StructTy): (acc: Record)
    ensures |acc| == |t.fields| && forall i | 0 <= i < |acc| :: acc[i] == None
  {
    seq(|t.fields|, i => None)
  }

  /** Decodes the payload of the `i`-th field; the data of an expression is decoded as the
      expression its name, already read, selects. */
  function DecodeField(t: StructTy, acc: Record, i: nat, payload: bytes): Outcome<Value>
    requires WellFormed(t) && |acc| == |t.fields| && i < |acc|
    decreases t, 0, 0
  {
    var ft := t.fields[i].ty;
    if ft.Variant? then
      if acc[0].Some? && acc[0].value.Data? then
        var tag := Dispatch(ft, acc[0].value.b);
        match Whole(Decode(ft.cases[tag].ty, payload))
        case Ok(v) => Ok(Tagged(tag, v))
        case Err(e) => Err(e)
        case Panic => Panic
      else Err(MissingExpressionName)
    else Whole(Decode(ft, payload))
  }

  /** The generated `decode_attribute`. */
  function DecodeAttr(t: StructTy, acc: Record, attr: nat, payload: bytes): (r: Outcome<Record>)
    requires WellFormed(t) && |acc| == |t.fields|
    ensures r.Ok? ==> |r.value| == |acc|
    decreases t, 1, 0
  {
    match FieldIndex(t.fields, attr, 0)
    case None => Err(UnsupportedAttributeType(attr))
    case Some(i) =>
      match DecodeField(t, acc, i, payload)
      case Ok(v) => Ok(acc[i := Some(v)])
      case Err(e) => Err(e)
      case Panic => Panic
  }

  /** Unsupported attributes are skipped, every other failure ends the decoding. */
  function Absorb(acc: Record, r: Outcome<Record>): Outcome<Record> {
    if r.Err? && r.error.UnsupportedAttributeType? then Ok(acc) else r
  }

  /** `read_attributes` on the bytes that remain, with the fields read so far. */
  function ReadAttrs(t: StructTy, buf: bytes, acc: Record): (r: Outcome<Record>)
    requires WellFormed(t) && |acc| == |t.fields|
    ensures r.Ok? ==> |r.value| == |acc|
    decreases t, 2, |buf|
  {
    if |buf| <= NLA_HDRLEN then (if buf == [] then Ok(acc) else Err(InvalidDataSize))
    else
      var len := NlaLen(buf);
      if len < NLA_HDRLEN || len > |buf| then Panic
      else
        var r := Absorb(acc, DecodeAttr(t, acc, NlaType(buf), buf[NLA_HDRLEN..len]));
        if !r.Ok? then r
        else if Pad(len) > |buf| then Panic
        else ReadAttrs(t, buf[Pad(len)..], r.value)
  }

  /** The list reader on the bytes that remain, with the elements read so far. */
  function ReadItems(e: Ty, buf: bytes, acc: seq<Value>): Outcome<seq<Value>>
    requires WellFormed(e)
    decreases e, 4, |buf|
  {
    if |buf| <= NLA_HDRLEN then (if buf == [] then Ok(acc) else Err(InvalidDataSize))
    else
      var len := NlaLen(buf);
      if NlaType(buf) != NFTA_LIST_ELEM then Err(UnsupportedAttributeType(NlaType(buf)))
      else if len < NLA_HDRLEN || len > |buf| then Panic
      else
        match Whole(Decode(e, buf[NLA_HDRLEN..len]))
        case Ok(v) => if Pad(len) > |buf| then Panic else ReadItems(e, buf[Pad(len)..], acc + [v])
        case Err(err) => Err(err)
        case Panic => Panic
  }

  // ----- the cursor loops -----

  /** `read_attributes`: `pos` and `remaining` move together over the buffer, no slice is taken out
      of range without the outcome being `Panic`, and the result is that of the recursive reader. */
  method ReadAttributes(t: StructTy, buf: bytes) returns (r: Outcome<Record>)
    requires WellFormed(t)
    ensures r == ReadAttrs(t, buf, Defaults(t))
    decreases t, 2, 0
  {
    hide DecodeAttr, Pad, FromLittleEndian;
    var remaining: nat := |buf|;
    var pos: nat := 0;
    var res := Defaults(t);
    while remaining > NLA_HDRLEN
      invariant pos + remaining == |buf| && |res| == |t.fields|
      invariant ReadAttrs(t, buf, Defaults(t)) == ReadAttrs(t, buf[pos..], res)
      decreases remaining
    {
      ghost var start := pos;
      var nlaLen := FromLittleEndian(buf[pos..pos + 2]);
      var nlaType := FromLittleEndian(buf[pos + 2..pos + 4]) % (NLA_TYPE_MASK + 1);
      SliceOfDrop(buf, start, 0, 2);
      SliceOfDrop(buf, start, 2, 4);
      pos := pos + NLA_HDRLEN;
      if nlaLen < NLA_HDRLEN { return Panic; }
      var attrSize := nlaLen - NLA_HDRLEN;
      if pos + attrSize > |buf| { return Panic; }
      SliceOfDrop(buf, start, NLA_HDRLEN, nlaLen);
      var step := DecodeAttribute(t, res, nlaType, buf[pos..pos + attrSize]);
      if step.Ok? {
        res := step.value;
      } else if !(step.Err? && step.error.UnsupportedAttributeType?) {
        return step;
      }
      pos := pos + Pad(attrSize);
      if remaining < Pad(nlaLen) { return Panic; }
      PadWithHeader(attrSize);
      DropOfDrop(buf, start, Pad(nlaLen));
      remaining := remaining - Pad(nlaLen);
    }
    r := if remaining != 0 then Err(InvalidDataSize) else Ok(res);
  }

  /** `decode_attribute`, for generated structures and for `RawExpression`. */
  method DecodeAttribute(t: StructTy, acc: Record, attr: nat, payload: bytes) returns (r: Outcome<Record>)
    requires WellFormed(t) && |acc| == |t.fields|
    ensures r == DecodeAttr(t, acc, attr, payload)
    decreases t, 1, 0
  {
    var i := FieldIndex(t.fields, attr, 0);
    if i.None? { return Err(UnsupportedAttributeType(attr)); }
    var ft := t.fields[i.value].ty;
    var wrap: Option<nat> := None;
    if ft.Variant? {
      if acc[0].None? || !acc[0].value.Data? { return Err(MissingExpressionName); }
      var tag := Dispatch(ft, acc[0].value.b);
      ft, wrap := ft.cases[tag].ty, Some(tag);
    }
    var d := Deserialize(ft, payload);
    match d
    case Panic => return Panic;
    case Err(e) => return Err(e);
    case Ok(x) =>
      if |x.rest| != 0 { return Err(InvalidDataSize); }
      var v := if wrap.Some? then Tagged(wrap.value, x.value) else x.value;
      return Ok(acc[i.value := Some(v)]);
  }

  /** `NfNetlinkDeserializable::deserialize`. */
  method Deserialize(t: Ty, buf: bytes) returns (r: Outcome<Decoded>)
    requires WellFormed(t)
    ensures r == Decode(t, buf)
    decreases t, 3, 0
  {
    match t
    case Struct(_, _) =>
      var vals := ReadAttributes(t, buf);
      match vals {
        case Ok(x) => return Ok(Decoded(Rec(x), []));
        case Err(e) => return Err(e);
        case Panic => return Panic;
      }
    case List(e) =>
      r := ReadList(e, buf);
    case _ =>
      r := Decode(t, buf);
  }

  /** `NfNetlinkList::deserialize`: `pos` advances by the padded `nla_len`. */
  method ReadList(e: Ty, buf: bytes) returns (r: Outcome<Decoded>)
    requires WellFormed(List(e))
    ensures r == Decode(List(e), buf)
    decreases e, 4, 0
  {
    hide Pad, FromLittleEndian;
    var objs: seq<Value> := [];
    var pos := 0;
    while true
      invariant pos <= |buf|
      invariant ReadItems(e, buf, []) == ReadItems(e, buf[pos..], objs)
      decreases |buf| - pos
    {
      if |buf| - pos <= NLA_HDRLEN { break; }
      var nlaLen := FromLittleEndian(buf[pos..pos + 2]);
      var nlaType := FromLittleEndian(buf[pos + 2..pos + 4]) % (NLA_TYPE_MASK + 1);
      SliceOfDrop(buf, pos, 0, 2);
      SliceOfDrop(buf, pos, 2, 4);
      if nlaType != NFTA_LIST_ELEM { return Err(UnsupportedAttributeType(nlaType)); }
      if nlaLen < NLA_HDRLEN || pos + nlaLen > |buf| { return Panic; }
      SliceOfDrop(buf, pos, NLA_HDRLEN, nlaLen);
      var d := Deserialize(e, buf[pos + NLA_HDRLEN..pos + nlaLen]);
      match d {
        case Panic => return Panic;
        case Err(err) => return Err(err);
        case Ok(x) =>
          if |x.rest| != 0 { return Err(InvalidDataSize); }
          objs := objs + [x.value];
      }
      if pos + Pad(nlaLen) > |buf| { return Panic; }
      DropOfDrop(buf, pos, Pad(nlaLen));
      pos := pos + Pad(nlaLen);
    }
    r := if pos != |buf| then Err(InvalidDataSize) else Ok(Decoded(Items(objs), []));
  }
}
