/** Sizing and writing of attributes: `get_size`, the recursive printer, and the writer that fills a
    zeroed buffer in place. */
module Encoder {
  import opened Bytes
  import opened Schema

  const NLA_HDRLEN: nat := 4

  // ----- get_size -----

  /** `NfNetlinkAttribute::get_size`: structures pad each attribute, lists do not. */
  function SizeOf(t: Ty, v: Value): nat
    requires HasType(t, v)
    decreases t, 1
  {
    match t
    case Uint(w) => w
    case Enum(w, _) => w
    case Text => |v.b|
    case Blob => |v.b|
    case Policy => 4
    case Keyword(words) => |words[v.index]|
    case Struct(_, _) => SizeFields(t, v.vals, 0)
    case Variant(cases, _) => SizeOf(cases[v.tag].ty, v.val)
    case List(e) => SizeItems(e, v.items, 0)
  }

  function SizeFields(t: StructTy, vals: Record, i: nat): nat
    requires i <= |t.fields| && FieldsTyped(t, vals)
    decreases t, 0, |t.fields| - i
  {
    if i == |t.fields| then 0
    else (if vals[i].Some? then NLA_HDRLEN + Pad(SizeOf(t.fields[i].ty, vals[i].value)) else 0)
         + SizeFields(t, vals, i + 1)
  }

  function SizeItems(e: Ty, items: seq<Value>, k: nat): nat
    requires k <= |items| && ItemsTyped(e, items)
    decreases e, 2, |items| - k
  {
    if k == |items| then 0
    else NLA_HDRLEN + SizeOf(e, items[k]) + SizeItems(e, items, k + 1)
  }

  // ----- what is written -----

  predicate Nested(t: Ty) {
    match t
    case Struct(nested, _) => nested
    case Variant(_, _) => true
    case List(_) => true
    case _ => false
  }

  /** The type field of an attribute header: `ty | NLA_F_NESTED` for nested attributes. */
  function TypeField(attr: nat, nested: bool): nat {
    if nested then attr + NLA_F_NESTED else attr
  }

  /** Adding the flag is the bitwise or of the code, for every attribute number below it. */
  lemma {:induction false} TypeFieldIsBitOr(attr: nat)
    requires attr < NLA_F_NESTED
    ensures TypeField(attr, true) == BitOr(16, attr, NLA_F_NESTED)
  {
    assert Pow2(4) == 16 && Pow2(8) == 256 && Pow2(12) == 4096 && Pow2(15) == 0x8000 by {
      assert Pow2(2) == 4 && Pow2(6) == 64 && Pow2(10) == 1024 && Pow2(14) == 0x4000;
    }
    assert Pow2(1) == 2;
    OrAbove(16, attr, 1, 15);
  }

  /** An `nlattr`: the unpadded length, truncated to 16 bits, then the type, both in host order. */
  function Header(attr: nat, nested: bool, size: nat): (h: bytes)
    ensures |h| == NLA_HDRLEN
  {
    LittleEndian(NLA_HDRLEN + size, 2) + LittleEndian(TypeField(attr, nested), 2)
  }

  function Attribute(attr: nat, nested: bool, payload: bytes): (a: bytes)
    ensures |a| == NLA_HDRLEN + |payload|
  {
    Header(attr, nested, |payload|) + payload
  }

  /** An attribute followed by zeros up to the next multiple of 4. */
  function PaddedAttribute(attr: nat, nested: bool, payload: bytes): (a: bytes)
    ensures |a| == NLA_HDRLEN + Pad(|payload|)
  {
    PadWithHeader(|payload|);
    Padded(Attribute(attr, nested, payload))
  }

  lemma {:induction false} AlignedAttribute(attr: nat, nested: bool, payload: bytes)
    requires |payload| % 4 == 0
    ensures PaddedAttribute(attr, nested, payload) == Attribute(attr, nested, payload)
  {
    assert Zeros(0) == [];
  }

  function Encode(t: Ty, v: Value): (b: bytes)
    requires HasType(t, v)
    ensures |b| == SizeOf(t, v)
    decreases t, 1
  {
    match t
    case Uint(w) => BigEndian(v.n, w)
    case Enum(w, _) => BigEndian(v.n, w)
    case Text => v.b
    case Blob => v.b
    case Policy => BigEndian(v.n, 4)
    case Keyword(words) => words[v.index]
    case Struct(_, _) => EncodeFields(t, v.vals, 0)
    case Variant(cases, _) => Encode(cases[v.tag].ty, v.val)
    case List(e) => EncodeItems(e, v.items, 0)
  }

  /** The padded attributes of the set fields from the `i`-th one on. */
  function EncodeFields(t: StructTy, vals: Record, i: nat): (b: bytes)
    requires i <= |t.fields| && FieldsTyped(t, vals)
    ensures |b| == SizeFields(t, vals, i)
    decreases t, 0, |t.fields| - i
  {
    if i == |t.fields| then []
    else (if vals[i].Some?
          then PaddedAttribute(t.fields[i].attr, Nested(t.fields[i].ty), Encode(t.fields[i].ty, vals[i].value))
          else [])
         + EncodeFields(t, vals, i + 1)
  }

  const NFTA_LIST_ELEM: nat := 1

  /** The list elements from the `k`-th one on, laid out without padding between them. */
  function EncodeItems(e: Ty, items: seq<Value>, k: nat): (b: bytes)
    requires k <= |items| && ItemsTyped(e, items)
    ensures |b| == SizeItems(e, items, k)
    decreases e, 2, |items| - k
  {
    if k == |items| then []
    else Attribute(NFTA_LIST_ELEM, Nested(e), Encode(e, items[k])) + EncodeItems(e, items, k + 1)
  }

  // ----- list strides agree -----

  lemma {:induction false} FieldSizesAreAligned(t: StructTy, vals: Record, i: nat)
    requires i <= |t.fields| && FieldsTyped(t, vals)
    ensures SizeFields(t, vals, i) % 4 == 0
    decreases |t.fields| - i
  {
    if i == |t.fields| {
    } else {
      FieldSizesAreAligned(t, vals, i + 1);
    }
  }

  /** The writer advances by `4 + get_size` and the reader by the padded `nla_len`: for elements that
      are structures both are the same offset. */
  lemma {:induction false} ListStridesAgree(e: Ty, item: Value)
    requires e.Struct? && HasType(e, item)
    ensures |Encode(e, item)| % 4 == 0
    ensures NLA_HDRLEN + SizeOf(e, item) == Pad(NLA_HDRLEN + SizeOf(e, item))
  {
    FieldSizesAreAligned(e, item.vals, 0);
  }

  lemma {:induction false} ItemSizesAreAligned(e: Ty, items: seq<Value>, k: nat)
    requires k <= |items| && e.Struct? && ItemsTyped(e, items)
    ensures SizeItems(e, items, k) % 4 == 0
    decreases |items| - k
  {
    if k == |items| {
    } else {
      ItemSizesAreAligned(e, items, k + 1);
      ListStridesAgree(e, items[k]);
    }
  }

  // ----- the writer, in place -----

  ghost predicate ZeroRegion(b: bytes, lo: int, hi: int) {
    0 <= lo <= hi <= |b| && forall k | lo <= k < hi :: b[k] == 0
  }

  /** `b` with the bytes from `lo` on replaced by `d`. */
  ghost function Splice(b: bytes, lo: nat, d: bytes): (r: bytes)
    requires lo + |d| <= |b|
    ensures |r| == |b|
    ensures forall k | lo + |d| <= k < |b| :: r[k] == b[k]
  {
    b[..lo] + d + b[lo + |d|..]
  }

  lemma {:induction false} SpliceAppend(b: bytes, lo: nat, done: bytes, a: bytes)
    requires lo + |done| + |a| <= |b|
    ensures Splice(Splice(b, lo, done), lo + |done|, a) == Splice(b, lo, done + a)
  {}

  /** Writing zeros over zeros changes nothing. */
  lemma {:induction false} SpliceZeros(b: bytes, lo: nat, done: bytes, n: nat)
    requires lo + |done| + n <= |b|
    requires ZeroRegion(b, lo + |done|, lo + |done| + n)
    ensures Splice(b, lo, done) == Splice(b, lo, done + Zeros(n))
  {}

  lemma {:induction false} ZeroBeyond(b: bytes, lo: nat, done: bytes, a: bytes, rest: bytes)
    requires ZeroRegion(b, lo, lo + |done + (a + rest)|)
    ensures ZeroRegion(Splice(b, lo, done), lo + |done|, lo + |done| + |a|)
  {}

  lemma {:induction false} ConcatAssoc(a: bytes, b: bytes, c: bytes)
    ensures a + (b + c) == a + b + c
  {}

  method CopyFromSlice(src: bytes, buf: array<byte>, lo: nat)
    requires lo + |src| <= buf.Length
    modifies buf
    ensures buf[..] == Splice(old(buf[..]), lo, src)
  {
    for i := 0 to |src|
      invariant buf[..] == Splice(old(buf[..]), lo, src[..i])
    {
      buf[lo + i] := src[i];
      assert src[..i + 1] == src[..i] + [src[i]];
    }
    assert src[..|src|] == src;
  }

  /** `write_attribute`: the header, then the payload written in place behind it. */
  method WriteAttribute(attr: nat, t: Ty, v: Value, buf: array<byte>, lo: nat)
    requires HasType(t, v)
    requires ZeroRegion(buf[..], lo, lo + NLA_HDRLEN + SizeOf(t, v))
    modifies buf
    ensures buf[..] == Splice(old(buf[..]), lo, Attribute(attr, Nested(t), Encode(t, v)))
    decreases t, 2
  {
    ghost var before := buf[..];
    var size := SizeOf(t, v);
    var header := Header(attr, Nested(t), size);
    CopyFromSlice(header, buf, lo);
    WritePayload(t, v, buf, lo + NLA_HDRLEN);
    SpliceAppend(before, lo, header, Encode(t, v));
  }

  /** `write_payload`: fills exactly `get_size` zeroed bytes with the encoding and leaves every
      other byte of the buffer as it was. */
  method WritePayload(t: Ty, v: Value, buf: array<byte>, lo: nat)
    requires HasType(t, v)
    requires ZeroRegion(buf[..], lo, lo + SizeOf(t, v))
    modifies buf
    ensures buf[..] == Splice(old(buf[..]), lo, Encode(t, v))
    decreases t, 1
  {
    match t
    case Uint(w) => CopyFromSlice(BigEndian(v.n, w), buf, lo);
    case Enum(w, _) => CopyFromSlice(BigEndian(v.n, w), buf, lo);
    case Text => CopyFromSlice(v.b, buf, lo);
    case Blob => CopyFromSlice(v.b, buf, lo);
    case Policy => CopyFromSlice(BigEndian(v.n, 4), buf, lo);
    case Keyword(words) => CopyFromSlice(words[v.index], buf, lo);
    case Struct(_, _) => WriteFields(t, v.vals, buf, lo);
    case Variant(cases, _) => WritePayload(cases[v.tag].ty, v.val, buf, lo);
    case List(e) => WriteItems(e, v.items, buf, lo);
  }

  /** One generated write entry: the attribute at `addr`, after which `addr` skips the padding that
      is never written. */
  method WriteField(f: Field, v: Value, buf: array<byte>, addr: nat) returns (next: nat)
    requires HasType(f.ty, v)
    requires ZeroRegion(buf[..], addr, addr + NLA_HDRLEN + Pad(SizeOf(f.ty, v)))
    modifies buf
    ensures next == addr + NLA_HDRLEN + Pad(SizeOf(f.ty, v))
    ensures buf[..] == Splice(old(buf[..]), addr, PaddedAttribute(f.attr, Nested(f.ty), Encode(f.ty, v)))
    decreases f.ty, 3
  {
    ghost var before := buf[..];
    PadWithHeader(SizeOf(f.ty, v));
    assert ZeroRegion(buf[..], addr, addr + NLA_HDRLEN + SizeOf(f.ty, v));
    WriteAttribute(f.attr, f.ty, v, buf, addr);
    var size := NLA_HDRLEN + Pad(SizeOf(f.ty, v));
    next := addr + size;
    ghost var a := Attribute(f.attr, Nested(f.ty), Encode(f.ty, v));
    SpliceZeros(before, addr, a, Pad(|a|) - |a|);
  }

  /** The `write_payload` generated for a structure: one attribute per set field, in order. */
  method WriteFields(t: StructTy, vals: Record, buf: array<byte>, lo: nat)
    requires FieldsTyped(t, vals)
    requires ZeroRegion(buf[..], lo, lo + SizeFields(t, vals, 0))
    modifies buf
    ensures buf[..] == Splice(old(buf[..]), lo, EncodeFields(t, vals, 0))
    decreases t, 0
  {
    hide Encode, SizeOf, HasType, Attribute;
    ghost var before := buf[..];
    ghost var all := EncodeFields(t, vals, 0);
    var addr := lo;
    ghost var done: bytes := [];
    for i := 0 to |t.fields|
      invariant addr == lo + |done|
      invariant done + EncodeFields(t, vals, i) == all
      invariant buf[..] == Splice(before, lo, done)
    {
      if vals[i].Some? {
        ghost var a := PaddedAttribute(t.fields[i].attr, Nested(t.fields[i].ty),
                                       Encode(t.fields[i].ty, vals[i].value));
        ghost var rest := EncodeFields(t, vals, i + 1);
        assert EncodeFields(t, vals, i) == a + rest;
        ConcatAssoc(done, a, rest);
        ZeroBeyond(before, lo, done, a, rest);
        addr := WriteField(t.fields[i], vals[i].value, buf, addr);
        SpliceAppend(before, lo, done, a);
        done := done + a;
      } else {
        assert EncodeFields(t, vals, i) == EncodeFields(t, vals, i + 1);
      }
    }
    assert done == all;
  }

  /** `NfNetlinkList::write_payload`: elements at the unpadded stride. */
  method WriteItems(e: Ty, items: seq<Value>, buf: array<byte>, lo: nat)
    requires ItemsTyped(e, items)
    requires ZeroRegion(buf[..], lo, lo + SizeItems(e, items, 0))
    modifies buf
    ensures buf[..] == Splice(old(buf[..]), lo, EncodeItems(e, items, 0))
    decreases e, 3
  {
    hide Encode, SizeOf, HasType, Attribute;
    ghost var before := buf[..];
    ghost var all := EncodeItems(e, items, 0);
    var addr := lo;
    ghost var done: bytes := [];
    for k := 0 to |items|
      invariant addr == lo + |done|
      invariant done + EncodeItems(e, items, k) == all
      invariant buf[..] == Splice(before, lo, done)
    {
      ghost var a := Attribute(NFTA_LIST_ELEM, Nested(e), Encode(e, items[k]));
      ghost var rest := EncodeItems(e, items, k + 1);
      assert EncodeItems(e, items, k) == a + rest;
      ConcatAssoc(done, a, rest);
      ZeroBeyond(before, lo, done, a, rest);
      WriteAttribute(NFTA_LIST_ELEM, e, items[k], buf, addr);
      SpliceAppend(before, lo, done, a);
      done := done + a;
      addr := addr + NLA_HDRLEN + SizeOf(e, items[k]);
    }
    assert done == all;
  }
}
