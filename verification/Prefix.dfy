/** Network prefixes: masking an address byte by byte, and its top bits as a number. */
module Prefix {
  import opened Bytes

  lemma {:induction false} AndBelow(w: nat, a: nat, b: nat)
    ensures BitAnd(w, a, b) < Pow2(w)
  {
    if w == 0 {
    } else {
      AndBelow(w - 1, a / 2, b / 2);
      assert (a % 2) * (b % 2) <= 1;
    }
  }

  lemma {:induction false} XorBelow(w: nat, a: nat, b: nat)
    ensures BitXor(w, a, b) < Pow2(w)
  {
    if w == 0 {
    } else {
      XorBelow(w - 1, a / 2, b / 2);
    }
  }

  lemma {:induction false} XorZero(w: nat, a: nat)
    requires a < Pow2(w)
    ensures BitXor(w, a, 0) == a
  {
    if w == 0 {
    } else {
      XorZero(w - 1, a / 2);
    }
  }

  lemma {:induction false} XorStep(w: nat, a: nat, b: nat)
    requires w > 0
    ensures BitXor(w, a, b) == 2 * BitXor(w - 1, a / 2, b / 2) + (a % 2 + b % 2) % 2
    ensures BitXor(w, a, b) / 2 == BitXor(w - 1, a / 2, b / 2) && BitXor(w, a, b) % 2 == (a % 2 + b % 2) % 2
  {
    var h, bit := BitXor(w - 1, a / 2, b / 2), (a % 2 + b % 2) % 2;
    DivUnique(2 * h + bit, 2, h, bit);
  }

  lemma {:induction false} FlipTwice(x: nat, y: nat)
    requires x < 2 && y < 2
    ensures ((x + y) % 2 + y) % 2 == x
  {}

  lemma {:induction false} XorNothing(a: nat, b: nat)
    ensures BitXor(0, a, b) == 0
  {}

  /** Applying it twice undoes it. */
  lemma {:induction false} XorTwice(w: nat, a: nat, b: nat)
    requires a < Pow2(w)
    ensures BitXor(w, BitXor(w, a, b), b) == a
  {
    hide BitXor;
    if w == 0 {
      XorNothing(a, b);
    } else {
      var x := BitXor(w, a, b);
      XorStep(w, a, b);
      XorStep(w, x, b);
      XorTwice(w - 1, a / 2, b / 2);
      FlipTwice(a % 2, b % 2);
    }
  }

  function AndByte(a: byte, b: byte): (c: byte) {
    AndBelow(8, a, b);
    Pow2Values();
    BitAnd(8, a, b)
  }

  function XorByte(a: byte, b: byte): (c: byte) {
    XorBelow(8, a, b);
    Pow2Values();
    BitXor(8, a, b)
  }

  function AndBytes(a: bytes, m: bytes): (r: bytes)
    requires |a| == |m|
    ensures |r| == |a|
  {
    if a == [] then [] else [AndByte(a[0], m[0])] + AndBytes(a[1..], m[1..])
  }

  function XorBytes(a: bytes, x: bytes): (r: bytes)
    requires |a| == |x|
    ensures |r| == |a|
  {
    if a == [] then [] else [XorByte(a[0], x[0])] + XorBytes(a[1..], x[1..])
  }

  lemma {:induction false} XorZeros(a: bytes)
    ensures XorBytes(a, Zeros(|a|)) == a
  {
    if a == [] {
    } else {
      Pow2Values();
      XorZero(8, a[0]);
      assert Zeros(|a|)[1..] == Zeros(|a| - 1);
      XorZeros(a[1..]);
    }
  }

  // ----- masks -----

  /** The mask of a prefix of length `k` in `n` bytes: `k` ones, then zeros. */
  function PrefixMask(n: nat, k: nat): (m: bytes)
    requires k <= 8 * n
    ensures |m| == n
  {
    if n == 0 then []
    else if k >= 8 then [255] + PrefixMask(n - 1, k - 8)
    else [HighOnes(k)] + Zeros(n - 1)
  }

  /** A byte of `k` ones followed by zeros. */
  function HighOnes(k: nat): byte
    requires k < 8
  {
    Pow2Values();
    Pow2Monotonic(8 - k, 8);
    256 - Pow2(8 - k)
  }

  lemma {:induction false} Pow2Monotonic(a: nat, b: nat)
    requires a <= b
    ensures Pow2(a) <= Pow2(b)
    decreases b - a
  {
    if a == b {
    } else {
      Pow2Monotonic(a, b - 1);
    }
  }

  lemma {:induction false} Pow2Sum(a: nat, b: nat)
    ensures Pow2(a + b) == Pow2(a) * Pow2(b)
  {
    if a == 0 {
    } else {
      Pow2Sum(a - 1, b);
      MulAssoc(2, Pow2(a - 1), Pow2(b));
    }
  }

  lemma {:induction false} MulAssoc(a: nat, b: nat, c: nat)
    ensures a * (b * c) == a * b * c
  {}

  lemma {:induction false} Pow256IsPow2(n: nat)
    ensures Pow256(n) == Pow2(8 * n)
  {
    if n == 0 {
    } else {
      Pow256IsPow2(n - 1);
      Pow2Values();
      Pow2Sum(8, 8 * (n - 1));
    }
  }

  // ----- addresses as numbers -----

  /** The `k` most significant bits of an address, as a number. */
  function TopBits(a: bytes, k: nat): nat
    requires k <= 8 * |a|
  {
    Quotient(FromBigEndian(a), Pow2(8 * |a| - k))
  }

  function Quotient(n: nat, m: nat): nat
    requires m > 0
  {
    n / m
  }

  lemma {:induction false} FirstByte(a: bytes)
    requires a != []
    ensures FromBigEndian(a) == a[0] * Pow256(|a| - 1) + FromBigEndian(a[1..])
  {
    var n := |a| - 1;
    if n > 0 {
      var init := a[..n];
      FirstByte(init);
      assert a[1..][..n - 1] == init[1..];
      assert a[1..][n - 1] == a[n];
      var p, x := Pow256(n - 1), FromBigEndian(init[1..]);
      Distribute(a[0], p, x);
    } else {
      assert a[..0] == [];
    }
  }

  lemma {:induction false} Distribute(a: nat, p: nat, x: nat)
    ensures (a * p + x) * 256 == a * (256 * p) + x * 256
  {
    assert a * p * 256 == a * (256 * p);
  }

  lemma {:induction false} DivDrop(x: nat, j: nat, p: nat, t: nat)
    requires j > 0 && p > 0 && t < p
    ensures (x * p + t) / (j * p) == x / j
  {
    var q, r := x / j, x % j;
    assert x == j * q + r;
    assert x * p == (j * p) * q + r * p by {
      assert (j * q + r) * p == (j * q) * p + r * p;
      assert (j * q) * p == (j * p) * q;
    }
    MulMono(p, r + 1, j);
    assert p * (r + 1) == r * p + p && p * j == j * p;
    DivUnique(x * p + t, j * p, q, r * p + t);
  }

  lemma {:induction false} DivSplit(x: nat, m: nat, s: nat, t: nat)
    requires m > 0
    ensures (x * (m * s) + t) / m == x * s + t / m
  {
    var q, r := t / m, t % m;
    assert x * (m * s) == m * (x * s);
    assert m * (x * s) + m * q == m * (x * s + q);
    DivUnique(x * (m * s) + t, m, x * s + q, r);
  }

  lemma {:induction false} DigitsUnique(x: nat, y: nat, s: nat, p: nat, q: nat)
    requires s > 0 && p < s && q < s && x * s + p == y * s + q
    ensures x == y && p == q
  {
    assert x * s == s * x && y * s == s * y;
    DivUnique(x * s + p, s, x, p);
    DivUnique(y * s + q, s, y, q);
  }

  lemma {:induction false} DivBelow(t: nat, m: nat, s: nat)
    requires m > 0 && t < m * s
    ensures t / m < s
  {
    if t / m >= s { MulMono(m, s, t / m); }
  }

  // ----- the correspondence -----

  lemma {:induction false} LongPrefix(a: bytes, k: nat)
    requires a != [] && 8 <= k <= 8 * |a|
    ensures TopBits(a, k) == a[0] * Pow2(k - 8) + TopBits(a[1..], k - 8)
    ensures TopBits(a[1..], k - 8) < Pow2(k - 8)
  {
    var n, t := |a| - 1, FromBigEndian(a[1..]);
    var m, s := Pow2(8 * |a| - k), Pow2(k - 8);
    FirstByte(a);
    Pow256IsPow2(n);
    Pow2Sum(8 * |a| - k, k - 8);
    assert Pow256(n) == m * s;
    DivSplit(a[0], m, s, t);
    DivBelow(t, m, s);
  }

  lemma {:induction false} ShortPrefix(a: bytes, k: nat)
    requires a != [] && k < 8
    ensures TopBits(a, k) == a[0] / Pow2(8 - k)
  {
    var n := |a| - 1;
    FirstByte(a);
    Pow256IsPow2(n);
    Pow2Sum(8 - k, 8 * n);
    DivDrop(a[0], Pow2(8 - k), Pow256(n), FromBigEndian(a[1..]));
  }

  lemma {:induction false} MaskedFirst(x: byte, k: nat)
    requires k < 8
    ensures AndByte(x, HighOnes(k)) == x / Pow2(8 - k) * Pow2(8 - k)
  {
    Pow2Values();
    AndHighOnes(8, x, 8 - k);
  }

  lemma {:induction false} MaskedAll(x: byte)
    ensures AndByte(x, 255) == x
  {
    Pow2Values();
    AndOnes(8, x);
  }

  lemma {:induction false} MaskedZeros(a: bytes)
    ensures AndBytes(a, Zeros(|a|)) == Zeros(|a|)
  {
    if a == [] {
    } else {
      AndZero(8, a[0]);
      assert Zeros(|a|)[1..] == Zeros(|a| - 1);
      MaskedZeros(a[1..]);
    }
  }

  lemma {:induction false} ClearedEqual(x: nat, y: nat, m: nat)
    requires m > 0
    ensures x / m * m == y / m * m <==> x / m == y / m
  {
    var p, q := x / m, y / m;
    assert p * m == m * p && q * m == m * q;
    if p < q { MulMono(m, p + 1, q); }
    if q < p { MulMono(m, q + 1, p); }
  }

  /** Two addresses agree under the mask of a prefix if and only if their top bits are the same
      number. */
  lemma {:induction false} MaskIsPrefix(a: bytes, b: bytes, k: nat)
    requires |a| == |b| && k <= 8 * |a|
    ensures AndBytes(a, PrefixMask(|a|, k)) == AndBytes(b, PrefixMask(|b|, k)) <==> TopBits(a, k) == TopBits(b, k)
  {
    if a == [] {
    } else {
      var n, mask := |a| - 1, PrefixMask(|a|, k);
      if k >= 8 {
        assert mask[1..] == PrefixMask(n, k - 8);
        MaskIsPrefix(a[1..], b[1..], k - 8);
        LongPrefix(a, k);
        LongPrefix(b, k);
        MaskedAll(a[0]);
        MaskedAll(b[0]);
        var s, p, q := Pow2(k - 8), TopBits(a[1..], k - 8), TopBits(b[1..], k - 8);
        if a[0] * s + p == b[0] * s + q { DigitsUnique(a[0], b[0], s, p, q); }
        ConsEqual(a[0], AndBytes(a[1..], mask[1..]), b[0], AndBytes(b[1..], mask[1..]));
      } else {
        assert mask[1..] == Zeros(n);
        MaskedZeros(a[1..]);
        MaskedZeros(b[1..]);
        ShortPrefix(a, k);
        ShortPrefix(b, k);
        MaskedFirst(a[0], k);
        MaskedFirst(b[0], k);
        ClearedEqual(a[0], b[0], Pow2(8 - k));
        ConsEqual(AndByte(a[0], mask[0]), Zeros(n), AndByte(b[0], mask[0]), Zeros(n));
      }
    }
  }

  lemma {:induction false} ConsEqual(x: byte, s: bytes, y: byte, t: bytes)
    ensures [x] + s == [y] + t <==> x == y && s == t
  {
    if [x] + s == [y] + t {
      assert ([x] + s)[0] == ([y] + t)[0];
      assert ([x] + s)[1..] == s && ([y] + t)[1..] == t;
    }
  }
}
