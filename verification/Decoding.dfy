/** What single values are read as, byte by byte, and what is refused. */
module Decoding {
  import opened Bytes
  import opened Schema
  import opened Decoder
  import opened Objects

  // ----- strings -----

  lemma {:induction false} WithoutNul(b: bytes)
    ensures StripNul(b + [0]) == b
  {
    assert (b + [0])[..|b|] == b;
  }

  /** One terminating NUL is not part of a string; what is left must be UTF-8. */
  lemma {:induction false} StringsRead(b: bytes)
    ensures Decode(Text, b + [0]) == if Utf8(b) then Ok(Decoded(Data(b), [])) else Err(StringDecodeFailure)
    ensures b == [] || b[|b| - 1] != 0 ==>
              Decode(Text, b) == if Utf8(b) then Ok(Decoded(Data(b), [])) else Err(StringDecodeFailure)
  {
    WithoutNul(b);
  }

  /** Chain types are read with or without a terminating NUL; other words are refused. */
  lemma {:induction false} WordsRead(words: seq<bytes>, b: bytes)
    requires GoodWords(words) && (b == [] || b[|b| - 1] != 0)
    ensures Decode(Keyword(words), b + [0]) == Decode(Keyword(words), b)
    ensures forall i | 0 <= i < |words| && words[i] == b :: Decode(Keyword(words), b) == Ok(Decoded(Word(i), []))
    ensures b !in words ==>
              Decode(Keyword(words), b) == if Utf8(b) then Err(UnknownChainType) else Err(StringDecodeFailure)
  {
    WithoutNul(b);
    var r := WordIndex(words, b, 0);
    forall i | 0 <= i < |words| && words[i] == b ensures Decode(Keyword(words), b) == Ok(Decoded(Word(i), [])) {
      assert r.Some? && words[r.value] == words[i] && Utf8(words[i]);
    }
  }

  /** The words of the library, by their places. */
  lemma {:induction false} ChainTypesRead()
    ensures WellFormed(CHAIN_TYPE)
    ensures Decode(CHAIN_TYPE, Ascii("filter")) == Ok(Decoded(Word(0), []))
    ensures Decode(CHAIN_TYPE, Ascii("route")) == Ok(Decoded(Word(1), []))
    ensures Decode(CHAIN_TYPE, Ascii("nat")) == Ok(Decoded(Word(2), []))
  {
    ChainTypesWellFormed();
    WordsRead(CHAIN_TYPE.words, Ascii("filter"));
    WordsRead(CHAIN_TYPE.words, Ascii("route"));
    WordsRead(CHAIN_TYPE.words, Ascii("nat"));
  }

  // ----- numbers -----

  /** The first `w` bytes in network order, whatever follows; fewer bytes are an index out of range. */
  lemma {:induction false} NumbersRead(w: nat, n: nat, rest: bytes)
    requires w > 0 && n < Pow256(w)
    ensures Decode(Uint(w), BigEndian(n, w) + rest) == Ok(Decoded(Num(n), rest))
    ensures |rest| < w ==> Decode(Uint(w), rest) == Panic
  {
    var b := BigEndian(n, w) + rest;
    BigEndianRoundTrip(n, w);
    assert b[..w] == BigEndian(n, w) && b[w..] == rest;
  }

  lemma {:induction false} CodesRead(w: nat, codes: set<nat>, n: nat, rest: bytes)
    requires w > 0 && n < Pow256(w)
    ensures Decode(Enum(w, codes), BigEndian(n, w) + rest) ==
            if n in codes then Ok(Decoded(Num(n), rest)) else Err(UnknownCode(n))
    ensures |rest| < w ==> Decode(Enum(w, codes), rest) == Panic
  {
    var b := BigEndian(n, w) + rest;
    BigEndianRoundTrip(n, w);
    assert b[..w] == BigEndian(n, w) && b[w..] == rest;
  }

  /** NF_DROP and NF_ACCEPT are both read as NF_ACCEPT, and nothing else is a policy. */
  lemma {:induction false} PoliciesRead(n: nat, rest: bytes)
    requires n < 0x1_0000_0000
    ensures Decode(Policy, BigEndian(n, 4) + rest) ==
            if n <= 1 then Ok(Decoded(Num(1), rest)) else Err(UnknownChainPolicy)
    ensures |rest| < 4 ==> Decode(Policy, rest) == Panic
  {
    var b := BigEndian(n, 4) + rest;
    Pow256Values();
    BigEndianRoundTrip(n, 4);
    assert b[..4] == BigEndian(n, 4) && b[4..] == rest;
  }

  /** The codes each enumeration of the library knows. */
  lemma {:induction false} CodesKnown(n: nat)
    ensures n in REGISTER.codes <==> n <= 4
    ensures n in FAMILY_CODES <==> n <= 3 || n == 5 || n == 7 || n == 10 || n == 12
    ensures n in VERDICT_TYPE.codes <==> n <= 1 || n == 3 || 0xFFFF_FFFB <= n <= 0xFFFF_FFFF
    ensures n in META.fields[1].ty.codes <==> n == 1 || 3 <= n <= 11 || n == 15 || n == 16 || n == 23 || n == 24
    ensures n in CMP.fields[1].ty.codes <==> n <= 5
    ensures n in CONNTRACK.fields[1].ty.codes <==> n == 0 || n == 3
    ensures n in NAT.fields[0].ty.codes <==> n <= 1
    ensures n in BYTEORDER.fields[2].ty.codes <==> n <= 1
    ensures n in EXTHDR.fields[5].ty.codes <==> n <= 1
    ensures n in REJECT.fields[0].ty.codes <==> n <= 2
    ensures n in REJECT.fields[1].ty.codes <==> n <= 3
    ensures n in RT.fields[1].ty.codes <==> n <= 3
  {}

  // ----- fields -----

  /** A field must use up its payload. */
  lemma {:induction false} LeftOverRefused(t: StructTy, acc: Record, i: nat, payload: bytes)
    requires WellFormed(t) && |acc| == |t.fields| && i < |acc| && !t.fields[i].ty.Variant?
    requires var d := Decode(t.fields[i].ty, payload); d.Ok? && d.value.rest != []
    ensures DecodeField(t, acc, i, payload) == Err(InvalidDataSize)
  {}

  /** Expression data without a name before it is refused, a type the structure does not know reported. */
  lemma {:induction false} AttributesRefused(t: StructTy, acc: Record, i: nat, attr: nat, payload: bytes)
    requires WellFormed(t) && |acc| == |t.fields| && i < |acc|
    ensures t.fields[i].ty.Variant? && acc[0].None? ==> DecodeField(t, acc, i, payload) == Err(MissingExpressionName)
    ensures (forall j | 0 <= j < |t.fields| :: t.fields[j].attr != attr) ==>
              DecodeAttr(t, acc, attr, payload) == Err(UnsupportedAttributeType(attr))
  {
    var r := FieldIndex(t.fields, attr, 0);
    if r.Some? { assert t.fields[r.value].attr == attr; }
  }
}
