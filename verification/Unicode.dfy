/** UTF-8 as the encoding of code points, beside the validator that strings go through. */
module Unicode {
  import opened Bytes

  /** Code points without the surrogates. */
  predicate Scalar(c: nat) { c < 0xD800 || 0xE000 <= c < 0x11_0000 }

  function ScalarBytes(c: nat): (b: bytes)
    requires Scalar(c)
    ensures b != []
  {
    if c < 0x80 then [c]
    else if c < 0x800 then [0xC0 + c / 64, 0x80 + c % 64]
    else if c < 0x1_0000 then [0xE0 + c / 4096, 0x80 + c / 64 % 64, 0x80 + c % 64]
    else [0xF0 + c / 262144, 0x80 + c / 4096 % 64, 0x80 + c / 64 % 64, 0x80 + c % 64]
  }

  predicate AllScalars(cs: seq<nat>) { forall i | 0 <= i < |cs| :: Scalar(cs[i]) }

  function TextBytes(cs: seq<nat>): bytes
    requires AllScalars(cs)
  {
    if cs == [] then [] else ScalarBytes(cs[0]) + TextBytes(cs[1..])
  }

  lemma {:induction false} ScalarAccepted(c: nat, rest: bytes)
    requires Scalar(c)
    ensures ScalarLength(ScalarBytes(c) + rest) == |ScalarBytes(c)|
  {
    var b := ScalarBytes(c) + rest;
    assert forall i | 0 <= i < |ScalarBytes(c)| :: b[i] == ScalarBytes(c)[i];
  }

  /** The code point of an accepted sequence. */
  function ScalarOf(b: bytes): (c: nat)
    requires ScalarLength(b) > 0
  {
    match ScalarLength(b)
    case 1 => b[0]
    case 2 => 64 * (b[0] as nat - 0xC0) + (b[1] as nat - 0x80)
    case 3 => 4096 * (b[0] as nat - 0xE0) + 64 * (b[1] as nat - 0x80) + (b[2] as nat - 0x80)
    case _ =>
      262144 * (b[0] as nat - 0xF0) + 4096 * (b[1] as nat - 0x80) + 64 * (b[2] as nat - 0x80) + (b[3] as nat - 0x80)
  }

  lemma {:induction false} TwoBytes(x: nat, y: nat)
    requires 0xC2 <= x < 0xE0 && 0x80 <= y < 0xC0
    ensures var c := 64 * (x - 0xC0) + (y - 0x80); Scalar(c) && ScalarBytes(c) == [x, y]
  {}

  lemma {:induction false} ThreeBytes(x: nat, y: nat, z: nat)
    requires 0xE0 <= x < 0xF0 && 0x80 <= y < 0xC0 && 0x80 <= z < 0xC0
    requires (x == 0xE0 ==> y >= 0xA0) && (x == 0xED ==> y < 0xA0)
    ensures var c := 4096 * (x - 0xE0) + 64 * (y - 0x80) + (z - 0x80); Scalar(c) && ScalarBytes(c) == [x, y, z]
  {
    ThreeDigits(x - 0xE0, y - 0x80, z - 0x80);
  }

  lemma {:induction false} FourBytes(w: nat, x: nat, y: nat, z: nat)
    requires 0xF0 <= w < 0xF5 && 0x80 <= x < 0xC0 && 0x80 <= y < 0xC0 && 0x80 <= z < 0xC0
    requires (w == 0xF0 ==> x >= 0x90) && (w == 0xF4 ==> x < 0x90)
    ensures var c := 262144 * (w - 0xF0) + 4096 * (x - 0x80) + 64 * (y - 0x80) + (z - 0x80);
            Scalar(c) && ScalarBytes(c) == [w, x, y, z]
  {
    FourDigits(w - 0xF0, x - 0x80, y - 0x80, z - 0x80);
  }

  lemma {:induction false} ScalarRead(b: bytes)
    requires ScalarLength(b) > 0
    ensures Scalar(ScalarOf(b)) && ScalarBytes(ScalarOf(b)) == b[..ScalarLength(b)]
  {
    hide Scalar, ScalarBytes;
    match ScalarLength(b)
    case 1 => OneByte(b[0]); assert b[..1] == [b[0]];
    case 2 => TwoBytes(b[0], b[1]); assert b[..2] == [b[0], b[1]];
    case 3 => ThreeBytes(b[0], b[1], b[2]); assert b[..3] == [b[0], b[1], b[2]];
    case _ => FourBytes(b[0], b[1], b[2], b[3]); assert b[..4] == [b[0], b[1], b[2], b[3]];
  }

  lemma {:induction false} OneByte(x: nat)
    requires x < 0x80
    ensures Scalar(x) && ScalarBytes(x) == [x]
  {}

  lemma {:induction false} ThreeDigits(x: nat, y: nat, z: nat)
    requires y < 64 && z < 64
    ensures var c := x * 4096 + y * 64 + z; c / 4096 == x && c / 64 % 64 == y && c % 64 == z
  {
    var c := x * 4096 + y * 64 + z;
    assert c / 64 == x * 64 + y;
  }

  lemma {:induction false} FourDigits(w: nat, x: nat, y: nat, z: nat)
    requires x < 64 && y < 64 && z < 64
    ensures var c := w * 262144 + x * 4096 + y * 64 + z;
            c / 262144 == w && c / 4096 % 64 == x && c / 64 % 64 == y && c % 64 == z
  {
    var c := w * 262144 + x * 4096 + y * 64 + z;
    ThreeDigits(w * 64 + x, y, z);
    assert c / 4096 == w * 64 + x;
  }

  lemma {:induction false} TextAccepted(cs: seq<nat>)
    requires AllScalars(cs)
    ensures Utf8(TextBytes(cs))
    decreases |cs|
  {
    hide ScalarLength, ScalarBytes, Scalar;
    if cs == [] {
    } else {
      var first, rest := ScalarBytes(cs[0]), TextBytes(cs[1..]);
      ScalarAccepted(cs[0], rest);
      assert (first + rest)[|first|..] == rest;
      TextAccepted(cs[1..]);
    }
  }

  /** The code points of a valid string. */
  function CodePoints(b: bytes): (cs: seq<nat>)
    requires Utf8(b)
    decreases |b|
  {
    if b == [] then [] else [ScalarOf(b)] + CodePoints(b[ScalarLength(b)..])
  }

  /** A string is accepted if and only if it is the encoding of some code points. */
  lemma {:induction false} Utf8Iff(b: bytes)
    ensures Utf8(b) <==> exists cs: seq<nat> :: AllScalars(cs) && TextBytes(cs) == b
  {
    if Utf8(b) { CodePointsSpell(b); }
    if exists cs: seq<nat> :: AllScalars(cs) && TextBytes(cs) == b {
      var cs: seq<nat> :| AllScalars(cs) && TextBytes(cs) == b;
      TextAccepted(cs);
    }
  }

  lemma {:induction false} TextCons(c: nat, cs: seq<nat>)
    requires Scalar(c) && AllScalars(cs)
    ensures AllScalars([c] + cs) && TextBytes([c] + cs) == ScalarBytes(c) + TextBytes(cs)
  {
    assert ([c] + cs)[1..] == cs;
  }

  lemma {:induction false} CodePointsSpell(b: bytes)
    requires Utf8(b)
    ensures AllScalars(CodePoints(b)) && TextBytes(CodePoints(b)) == b
    decreases |b|
  {
    hide ScalarLength, ScalarOf, ScalarBytes, Scalar, AllScalars, TextBytes;
    if b == [] {
      NoText();
    } else {
      var n := ScalarLength(b);
      ScalarRead(b);
      CodePointsSpell(b[n..]);
      TextCons(ScalarOf(b), CodePoints(b[n..]));
      assert b == b[..n] + b[n..];
    }
  }

  lemma {:induction false} NoText()
    ensures AllScalars([]) && TextBytes([]) == []
  {}
}
