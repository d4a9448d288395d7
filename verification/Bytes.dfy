/** Bytes, bit-level operations, fixed-width integers and netlink padding. */
module Bytes {

  type byte = b: int | 0 <= b < 256
  type bytes = seq<byte>

  function Pow2(n: nat): (p: nat)
    ensures p > 0
  {
    if n == 0 then 1 else 2 * Pow2(n - 1)
  }

  function Pow256(n: nat): (p: nat)
    ensures p > 0
  {
    if n == 0 then 1 else 256 * Pow256(n - 1)
  }

  function Zeros(n: nat): (z: bytes)
    ensures |z| == n && forall i | 0 <= i < n :: z[i] == 0
  {
    seq(n, i => 0)
  }

  lemma {:induction false} TakeOneMore<T>(s: seq<T>, k: nat)
    requires k < |s|
    ensures s[..k + 1] == s[..k] + [s[k]]
  {}

  lemma {:induction false} SliceOfDrop(b: bytes, pos: nat, i: nat, j: nat)
    requires i <= j && pos + j <= |b|
    ensures b[pos..][i..j] == b[pos + i..pos + j]
  {}

  lemma {:induction false} DropOfDrop(b: bytes, pos: nat, i: nat)
    requires pos + i <= |b|
    ensures b[pos..][i..] == b[pos + i..]
  {}

  lemma {:induction false} Pow2Values()
    ensures Pow2(1) == 2 && Pow2(4) == 16 && Pow2(8) == 256 && Pow2(16) == 0x1_0000
  {
    assert Pow2(4) == 16 by { assert Pow2(2) == 4; }
    assert Pow2(8) == 256 by { assert Pow2(6) == 64; }
    assert Pow2(16) == 0x1_0000 by { assert Pow2(10) == 1024 && Pow2(12) == 4096 && Pow2(14) == 0x4000; }
  }

  // ----- bitwise operators on `w`-bit words, defined bit by bit -----

  function BitAnd(w: nat, a: nat, b: nat): nat {
    if w == 0 then 0 else 2 * BitAnd(w - 1, a / 2, b / 2) + (a % 2) * (b % 2)
  }

  function BitXor(w: nat, a: nat, b: nat): nat {
    if w == 0 then 0 else 2 * BitXor(w - 1, a / 2, b / 2) + (a % 2 + b % 2) % 2
  }

  /** A word of all ones keeps every bit of a word that fits. */
  lemma {:induction false} AndOnes(w: nat, a: nat)
    requires a < Pow2(w)
    ensures BitAnd(w, a, Pow2(w) - 1) == a
  {
    if w == 0 {
    } else {
      AndOnes(w - 1, a / 2);
      assert (Pow2(w) - 1) / 2 == Pow2(w - 1) - 1;
    }
  }

  lemma {:induction false} AndZero(w: nat, a: nat)
    ensures BitAnd(w, a, 0) == 0
  {
    if w == 0 {
    } else {
      AndZero(w - 1, a / 2);
    }
  }

  /** Masking with ones above bit `k` and zeros below clears the low `k` bits. */
  lemma {:induction false} AndHighOnes(w: nat, a: nat, k: nat)
    requires k <= w && a < Pow2(w)
    ensures Pow2(k) <= Pow2(w)
    ensures BitAnd(w, a, Pow2(w) - Pow2(k)) == a / Pow2(k) * Pow2(k)
  {
    if k == 0 {
      AndOnes(w, a);
    } else {
      AndHighOnes(w - 1, a / 2, k - 1);
      var m, high := Pow2(k - 1), Pow2(w - 1) - Pow2(k - 1);
      assert Pow2(w) - Pow2(k) == 2 * high && Pow2(k) == 2 * m;
      AndEven(w, a, high);
      ClearTwice(a, m);
    }
  }

  /** Masking with `k` ones keeps the low `k` bits. */
  lemma {:induction false} AndLowOnes(w: nat, a: nat, k: nat)
    requires k <= w
    ensures BitAnd(w, a, Pow2(k) - 1) == a % Pow2(k)
  {
    hide BitAnd;
    if k == 0 {
      AndZero(w, a);
    } else {
      var m := Pow2(k - 1);
      AndLowOnes(w - 1, a / 2, k - 1);
      AndOdd(w, a, m - 1);
      ModTwice(a, m);
      assert Pow2(k) == 2 * m && Pow2(k) - 1 == 2 * (m - 1) + 1;
    }
  }

  lemma {:induction false} AndOdd(w: nat, a: nat, h: nat)
    requires w > 0
    ensures BitAnd(w, a, 2 * h + 1) == 2 * BitAnd(w - 1, a / 2, h) + a % 2
  {
    assert (2 * h + 1) % 2 == 1 && (2 * h + 1) / 2 == h;
  }

  lemma {:induction false} ModTwice(a: nat, m: nat)
    requires m > 0
    ensures 2 * (a / 2 % m) + a % 2 == a % (2 * m)
  {
    var q, r := a / 2 / m, a / 2 % m;
    assert a / 2 == m * q + r;
    assert a == (2 * m) * q + (2 * r + a % 2) by { assert 2 * (m * q) == (2 * m) * q; }
    DivUnique(a, 2 * m, q, 2 * r + a % 2);
  }

  /** Testing a single bit. */
  lemma {:induction false} AndSingleBit(w: nat, a: nat, k: nat)
    requires k < w
    ensures BitAnd(w, a, Pow2(k)) != 0 <==> a / Pow2(k) % 2 == 1
  {
    if k == 0 {
      AndZero(w - 1, a / 2);
    } else {
      AndSingleBit(w - 1, a / 2, k - 1);
      AndEven(w, a, Pow2(k - 1));
      DivTwice(a, Pow2(k - 1));
    }
  }

  function BitOr(w: nat, a: nat, b: nat): nat {
    if w == 0 then 0 else 2 * BitOr(w - 1, a / 2, b / 2) + (if a % 2 + b % 2 > 0 then 1 else 0)
  }

  lemma {:induction false} OrZero(w: nat, a: nat)
    requires a < Pow2(w)
    ensures BitOr(w, a, 0) == a
  {
    if w == 0 {
    } else {
      OrZero(w - 1, a / 2);
    }
  }

  /** Setting bits above a number adds them. */
  lemma {:induction false} OrAbove(w: nat, a: nat, h: nat, k: nat)
    requires k <= w && a < Pow2(k) && h < Pow2(w - k)
    ensures BitOr(w, a, h * Pow2(k)) == a + h * Pow2(k)
  {
    if k == 0 {
      OrZeroLeft(w, h);
    } else {
      OrAbove(w - 1, a / 2, h, k - 1);
      var m := Pow2(k - 1);
      DoubleProduct(h, m);
      OrEven(w, a, h * m);
    }
  }

  lemma {:induction false} DoubleProduct(h: nat, m: nat)
    ensures h * (2 * m) == 2 * (h * m)
  {}

  lemma {:induction false} OrEven(w: nat, a: nat, x: nat)
    requires w > 0
    ensures BitOr(w, a, 2 * x) == 2 * BitOr(w - 1, a / 2, x) + a % 2
  {
    assert (2 * x) % 2 == 0 && (2 * x) / 2 == x;
  }

  lemma {:induction false} OrZeroLeft(w: nat, b: nat)
    requires b < Pow2(w)
    ensures BitOr(w, 0, b) == b
  {
    if w == 0 {
    } else {
      OrZeroLeft(w - 1, b / 2);
    }
  }

  lemma {:induction false} AndEven(w: nat, a: nat, h: nat)
    requires w > 0
    ensures BitAnd(w, a, 2 * h) == 2 * BitAnd(w - 1, a / 2, h)
  {
    assert (2 * h) % 2 == 0 && (2 * h) / 2 == h;
  }

  lemma {:induction false} ClearTwice(a: nat, m: nat)
    requires m > 0
    ensures 2 * (a / 2 / m * m) == a / (2 * m) * (2 * m)
  {
    DivTwice(a, m);
    var q := a / (2 * m);
    assert 2 * (q * m) == q * (2 * m);
  }

  lemma {:induction false} DivTwice(a: nat, m: nat)
    requires m > 0
    ensures a / 2 / m == a / (2 * m)
  {
    var q, r := a / 2 / m, (a / 2) % m;
    assert a / 2 == m * q + r;
    var s := 2 * r + a % 2;
    assert a == (2 * m) * q + s by { assert 2 * (m * q) == (2 * m) * q; }
    DivUnique(a, 2 * m, q, s);
  }

  lemma {:induction false} DivUnique(a: nat, m: nat, q: nat, r: nat)
    requires m > 0 && a == m * q + r && r < m
    ensures a / m == q && a % m == r
  {
    var q', r' := a / m, a % m;
    assert m * q' + r' == m * q + r;
    if q' < q { MulMono(m, q' + 1, q); }
    if q < q' { MulMono(m, q + 1, q'); }
  }

  lemma {:induction false} MulMono(m: nat, x: nat, y: nat)
    requires x <= y
    ensures m * x <= m * y
  {}

  // ----- padding to NLMSG_ALIGNTO -----

  function Pad(n: nat): (p: nat)
    ensures n <= p < n + 4 && p % 4 == 0
  {
    (n + 3) / 4 * 4
  }

  /** The cursor of the reader, which pads header and payload separately, and the size it
      subtracts, which pads them together, move alike. */
  lemma {:induction false} PadWithHeader(n: nat)
    ensures Pad(4 + n) == 4 + Pad(n)
  {}

  lemma {:induction false} AlignedSum(a: nat, b: nat)
    requires a % 4 == 0 && b % 4 == 0
    ensures (a + b) % 4 == 0
  {}

  lemma {:induction false} PadAligned(n: nat)
    requires n % 4 == 0
    ensures Pad(n) == n
  {}

  lemma {:induction false} PadMonotonic(m: nat, n: nat)
    requires m <= n
    ensures Pad(m) <= Pad(n)
  {}

  const USIZE_BITS: nat := 64

  /** The bit-mask form `(size + 3) & !3` on 64-bit words is rounding up to a multiple of 4,
      as long as the addition does not overflow. */
  lemma {:induction false} PadIsBitMask(n: nat)
    requires n + 3 < Pow2(USIZE_BITS)
    ensures Pow2(2) <= Pow2(USIZE_BITS)
    ensures BitAnd(USIZE_BITS, n + 3, Pow2(USIZE_BITS) - Pow2(2)) == Pad(n)
  {
    AndHighOnes(USIZE_BITS, n + 3, 2);
    assert Pow2(2) == 4;
  }

  function Padded(b: bytes): (p: bytes)
    ensures |p| == Pad(|b|) && b <= p
  {
    b + Zeros(Pad(|b|) - |b|)
  }

  // ----- integers as bytes -----

  /** The low `w` bytes of `n`, least significant first. */
  function LittleEndian(n: nat, w: nat): (b: bytes)
    ensures |b| == w
  {
    if w == 0 then [] else [n % 256] + LittleEndian(n / 256, w - 1)
  }

  function FromLittleEndian(b: bytes): (n: nat)
    ensures n < Pow256(|b|)
  {
    if b == [] then 0 else b[0] + 256 * FromLittleEndian(b[1..])
  }

  /** The low `w` bytes of `n`, most significant first. */
  function BigEndian(n: nat, w: nat): (b: bytes)
    ensures |b| == w
  {
    if w == 0 then [] else BigEndian(n / 256, w - 1) + [n % 256]
  }

  function FromBigEndian(b: bytes): (n: nat)
    ensures n < Pow256(|b|)
  {
    if b == [] then 0 else FromBigEndian(b[..|b| - 1]) * 256 + b[|b| - 1]
  }

  lemma {:induction false} LittleEndianRoundTrip(n: nat, w: nat)
    requires n < Pow256(w)
    ensures FromLittleEndian(LittleEndian(n, w)) == n
  {
    if w == 0 {
    } else {
      LittleEndianRoundTrip(n / 256, w - 1);
      assert LittleEndian(n, w)[1..] == LittleEndian(n / 256, w - 1);
    }
  }

  lemma {:induction false} BigEndianRoundTrip(n: nat, w: nat)
    requires n < Pow256(w)
    ensures FromBigEndian(BigEndian(n, w)) == n
  {
    if w == 0 {
    } else {
      BigEndianRoundTrip(n / 256, w - 1);
      assert BigEndian(n, w)[..w - 1] == BigEndian(n / 256, w - 1);
    }
  }

  lemma {:induction false} Pow256Values()
    ensures Pow256(1) == 256 && Pow256(2) == 65536 && Pow256(4) == 4294967296
  {
    assert Pow256(2) == 256 * Pow256(1);
    assert Pow256(4) == 256 * Pow256(3) && Pow256(3) == 256 * Pow256(2);
  }

  function Ascii(s: string): (b: bytes)
    requires forall i | 0 <= i < |s| :: 0 < s[i] as int < 128
    ensures |b| == |s| && forall i | 0 <= i < |s| :: 0 < b[i] == s[i] as int < 128
  {
    seq(|s|, i requires 0 <= i < |s| => s[i] as int)
  }

  // ----- UTF-8, as `String::from_utf8` accepts it -----

  predicate Continuation(b: byte) { 0x80 <= b < 0xC0 }

  /** The length of the well-formed sequence at the front of `b`, 0 if there is none. */
  function ScalarLength(b: bytes): (n: nat)
    ensures n <= |b|
  {
    if b == [] then 0
    else if b[0] < 0x80 then 1
    else if 0xC2 <= b[0] < 0xE0 then
      if |b| >= 2 && Continuation(b[1]) then 2 else 0
    else if 0xE0 <= b[0] < 0xF0 then
      if |b| >= 3 && Continuation(b[1]) && Continuation(b[2])
         && (b[0] == 0xE0 ==> b[1] >= 0xA0) && (b[0] == 0xED ==> b[1] < 0xA0) then 3 else 0
    else if 0xF0 <= b[0] < 0xF5 then
      if |b| >= 4 && Continuation(b[1]) && Continuation(b[2]) && Continuation(b[3])
         && (b[0] == 0xF0 ==> b[1] >= 0x90) && (b[0] == 0xF4 ==> b[1] < 0x90) then 4 else 0
    else 0
  }

  predicate Utf8(b: bytes) {
    b == [] || (ScalarLength(b) > 0 && Utf8(b[ScalarLength(b)..]))
  }

  lemma {:induction false} AsciiIsUtf8(b: bytes)
    requires forall i | 0 <= i < |b| :: b[i] < 0x80
    ensures Utf8(b)
  {
    if b == [] {
    } else {
      AsciiIsUtf8(b[1..]);
    }
  }
}
