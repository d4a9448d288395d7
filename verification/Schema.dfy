/** The shapes of netlink attributes and the values that inhabit them.

    Every structure generated by `nfnetlink_struct` is an ordered list of (attribute type, field
    type) pairs; a value of it gives each field an optional value.  `RawExpression` is such a
    structure as well: its second field is a `Variant`, decoded according to the name held by the
    first one. */
module Schema {
  import opened Bytes

  datatype Option<+T> = None | Some(value: T)

  datatype Field = Field(attr: nat, ty: Ty)

  datatype Case = Case(name: bytes, ty: Ty)

  datatype Ty =
    | Uint(width: nat)                             // u8, u16, u32, u64 and the bit pattern of i32
    | Enum(width: nat, codes: set<nat>)            // nfnetlink_enum
    | Text                                         // String
    | Blob                                         // Vec<u8>, ExpressionRaw
    | Policy                                       // ChainPolicy
    | Keyword(words: seq<bytes>)                   // ChainType
    | Struct(nested: bool, fields: seq<Field>)     // nfnetlink_struct
    | Variant(cases: seq<Case>, raw: nat)          // ExpressionVariant; `raw` is ExpressionRaw
    | List(elem: Ty)                               // NfNetlinkList

  type StructTy = t: Ty | t.Struct? witness Struct(false, [])

  datatype Value =
    | Num(n: nat)
    | Data(b: bytes)
    | Word(index: nat)
    | Rec(vals: Record)
    | Tagged(tag: nat, val: Value)
    | Items(items: seq<Value>)

  type Record = seq<Option<Value>>

  const NF_DROP: nat := 0
  const NF_ACCEPT: nat := 1

  predicate HasType(t: Ty, v: Value)
    decreases t, 1
  {
    match t
    case Uint(w) => v.Num? && v.n < Pow256(w)
    case Enum(w, codes) => v.Num? && v.n in codes && v.n < Pow256(w)
    case Text => v.Data? && Utf8(v.b)
    case Blob => v.Data?
    case Policy => v.Num? && (v.n == NF_DROP || v.n == NF_ACCEPT)
    case Keyword(words) => v.Word? && v.index < |words|
    case Struct(_, _) => v.Rec? && FieldsTyped(t, v.vals)
    case Variant(cases, _) => v.Tagged? && v.tag < |cases| && HasType(cases[v.tag].ty, v.val)
    case List(e) => v.Items? && ItemsTyped(e, v.items)
  }

  predicate FieldsTyped(t: StructTy, vals: Record)
    decreases t, 0
  {
    && |vals| == |t.fields|
    && forall i | 0 <= i < |vals| :: vals[i].Some? ==> HasType(t.fields[i].ty, vals[i].value)
  }

  predicate ItemsTyped(e: Ty, items: seq<Value>)
    decreases e, 2
  {
    forall i | 0 <= i < |items| :: HasType(e, items[i])
  }

  // ----- well-formed shapes -----

  const NLA_TYPE_MASK: nat := 0x3fff
  const NLA_F_NESTED: nat := 0x8000

  /** No word is empty of meaning: words are UTF-8, differ, and do not end in NUL. */
  predicate GoodWords(words: seq<bytes>) {
    && (forall i | 0 <= i < |words| :: Utf8(words[i]) && !EndsInNul(words[i]))
    && (forall i, j | 0 <= i < j < |words| :: words[i] != words[j])
  }

  predicate EndsInNul(b: bytes) { b != [] && b[|b| - 1] == 0 }

  predicate WellFormed(t: Ty)
  {
    match t
    case Uint(w) => w > 0
    case Enum(w, codes) => w > 0
    case Text => true
    case Blob => true
    case Policy => true
    case Keyword(words) => GoodWords(words)
    case Struct(_, fs) =>
      && (forall i | 0 <= i < |fs| :: fs[i].attr <= NLA_TYPE_MASK && WellFormed(fs[i].ty))
      && (forall i, j | 0 <= i < j < |fs| :: fs[i].attr != fs[j].attr)
      && (forall i | 0 <= i < |fs| && fs[i].ty.Variant? :: i > 0 && fs[0].ty == Text)
    case Variant(cases, raw) =>
      && raw < |cases| && cases[raw].ty == Blob
      && (forall i | 0 <= i < |cases| :: !cases[i].ty.Variant? && WellFormed(cases[i].ty))
    case List(e) => e.Struct? && WellFormed(e)
  }
}
