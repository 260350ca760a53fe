/** The fixed-point quantiser of the encoder and the dequantiser of the decoder. */
module Quantiser {
  import opened Bits
  import opened Words

  // ---- split multiplication ----

  /** Mult64: a 32x16 bit product in two words, from 16-bit halves. */
  function Mult64(in1: int, in2: nat): (r: (int, int))
    requires Int32(in1) && in2 < U16
  {
    var low0 := Signed(in1 % U16 * in2);
    var temp := Signed(in1 / U16 * in2);
    var carry := (Unsigned(low0) / U16 % U16 + temp % U16) / U16;
    (Signed(low0 + temp * U16), temp / U16 + carry)
  }

  lemma ProductBounds(a: nat, h: int, b: nat)
    requires a < U16 && -0x8000 <= h < 0x8000 && b < U16
    ensures 0 <= a * b < U32 && Int32(h * b)
  {
    MulOrder(b, a, 0xFFFF);
    MulOrder(b, 0, a);
    MulOrder(b, h, 0x7FFF);
    MulOrder(b, -0x8000, h);
    assert b * a == a * b && b * h == h * b;
  }

  /** The two words are the exact product. */
  lemma Mult64Exact(in1: int, in2: nat)
    requires Int32(in1) && in2 < U16
    ensures var (low, hi) := Mult64(in1, in2); U32 * hi + Unsigned(low) == in1 * in2 && Int32(low) && Int32(hi)
  {
    var a, h := in1 % U16, in1 / U16;
    ProductBounds(a, h, in2);
    var p, t := a * in2, h * in2;
    assert in1 * in2 == U16 * t + p by {
      assert in1 == U16 * h + a;
    }
    HalvesCombine(p, t);
  }

  lemma HalvesCombine(p: nat, t: int)
    requires p < U32 && Int32(t)
    ensures var low0 := Signed(p);
      var carry := (Unsigned(low0) / U16 % U16 + t % U16) / U16;
      var hi := t / U16 + carry;
      U32 * hi + Unsigned(Signed(low0 + t * U16)) == U16 * t + p && Int32(hi)
  {
    hide Signed;
    var p1, p0, t1, t0 := p / U16, p % U16, t / U16, t % U16;
    assert Unsigned(Signed(p)) == p && p1 % U16 == p1;
    var carry := (p1 + t0) / U16;
    var low := (p1 + t0) % U16 * U16 + p0;
    assert U16 * t + p == U32 * (t1 + carry) + low;
    LowWord(p, t, t1 + carry, low);
  }

  lemma LowWord(p: nat, t: int, hi: int, low: nat)
    requires p < U32 && low < U32 && U16 * t + p == U32 * hi + low
    ensures Unsigned(Signed(Signed(p) + t * U16)) == low
  {
    var s := Signed(p);
    var k := (p - s) / U32;
    assert p == s + U32 * k;
    ModUnique(s + t * U16, U32, hi - k, low);
  }

  // ---- quantiser ----

  function Levels(bits: nat): (l: nat)
    requires 1 <= bits <= 16
    ensures 1 <= l < U16 && l == Pow2(bits) - 1
  {
    Pow2Mono(1, bits);
    Pow2Mono(bits, 16);
    assert Pow2(16) == U16 by { Pow2Constants(); }
    Pow2(bits) - 1
  }

  lemma Pow2Constants()
    ensures Pow2(1) == 2 && Pow2(2) == 4 && Pow2(8) == 0x100 && Pow2(12) == 0x1000 && Pow2(16) == U16
    ensures Pow2(24) == 0x100_0000
    ensures Pow2(28) == 0x1000_0000 && Pow2(30) == 0x4000_0000 && Pow2(32) == U32
  {
    assert Pow2(4) == 16;
    assert Pow2(8) == 0x100;
    assert Pow2(12) == 0x1000;
    assert Pow2(16) == U16;
    assert Pow2(20) == 0x10_0000;
    assert Pow2(24) == 0x100_0000;
    assert Pow2(28) == 0x1000_0000;
  }

  /** `(x >> 2) + (2 ** (sf + 1) << 12)`: the sample moved into the positive range. */
  function Biased(x: int, sf: nat): int {
    x / 4 + Pow2(sf + 13)
  }

  /** The quantiser of EncPacking, word by word. */
  function Quantise(x: int, sf: nat, bits: nat): (q: nat)
    requires Int32(x) && sf <= 15 && 1 <= bits <= 16
  {
    var temp1 := Signed(Biased(x, sf));
    var product := Mult64(temp1, Levels(bits));
    ShiftProduct(product.0, product.1, sf)
  }

  /** The product shifted right by `sf + 2` across both words, then by 12, kept to 16 bits. */
  function ShiftProduct(low: int, hi: int, sf: nat): (q: nat)
    requires sf <= 15
  {
    Signed(JoinWords(Unsigned(low), sf + 2, Unsigned(hi * Pow2(30 - sf)))) / 0x1000 % U16
  }

  /** `(low >> k) | high`. */
  function JoinWords(low: nat, k: nat, high: nat): nat {
    var low1 := DivNat(low, Pow2(k));
    Or(low1, high)
  }

  lemma BiasedFits(x: int, sf: nat)
    requires Int32(x) && sf <= 15
    ensures Int32(Biased(x, sf))
  {
    Pow2Mono(sf + 13, 28);
    Pow2Constants();
  }

  /** Shifting a two-word product right by `k`, keeping 32 bits. */
  lemma ShiftPair(k: nat, ul: nat, hi: int)
    requires 1 <= k <= 31 && ul < U32
    ensures JoinWords(ul, k, Unsigned(hi * Pow2(32 - k))) == (U32 * hi + ul) / Pow2(k) % U32
  {
    hide Or, Pow2;
    var A, B := Pow2(k), Pow2(32 - k);
    assert A * B == U32 by { Pow2Add(k, 32 - k); Pow2Constants(); }
    var P := U32 * hi + ul;
    assert P / A == B * hi + ul / A by {
      assert A * (B * hi) == A * B * hi;
      QuotientPlus(P, A, B * hi, ul);
    }
    QuotientBelow(ul, A, B);
    ScaledMod(hi, A, B);
    OrLow(32 - k, hi % A, ul / A);
    OrSymmetric(ul / A, B * (hi % A));
    KeepLow(hi, A, B, ul / A);
  }

  lemma KeepLow(hi: int, A: nat, B: nat, u: nat)
    requires A > 0 && B > 0 && A * B == U32 && u < B
    ensures (B * hi + u) % U32 == B * (hi % A) + u
  {
    var h, g := hi / A, hi % A;
    assert hi == A * h + g;
    Distribute(B, A, h, g);
    assert B * A == A * B;
    MulOrder(B, g, A);
    MulOrder(B, 0, g);
    ModUnique(B * hi + u, U32, h, B * g + u);
  }

  lemma QuotientPlus(P: int, A: nat, m: int, u: nat)
    requires A > 0 && P == A * m + u
    ensures P / A == m + u / A
  {
    assert u == A * (u / A) + u % A;
    assert P == A * (m + u / A) + u % A;
    ModUnique(P, A, m + u / A, u % A);
  }

  lemma QuotientBelow(u: nat, A: nat, B: nat)
    requires A > 0 && u < A * B
    ensures u / A < B
  {
    assert A * (u / A) <= u;
    MulOrder(A, B, u / A);
  }

  lemma ScaledMod(h: int, A: nat, B: nat)
    requires A > 0 && B > 0 && A * B == U32
    ensures (h * B) % U32 == B * (h % A)
  {
    KeepLow(h, A, B, 0);
    assert B * h == h * B;
  }

  /** The quantiser divides the exact product by `2 ** (sf + 14)`. */
  lemma QuantiseExact(x: int, sf: nat, bits: nat)
    requires Int32(x) && sf <= 15 && 1 <= bits <= 16
    ensures Quantise(x, sf, bits) == Biased(x, sf) * Levels(bits) / Pow2(sf + 14) % U16
  {
    hide Or, Pow2, Mult64, Levels, Signed, JoinWords;
    BiasedFits(x, sf);
    var temp1 := Biased(x, sf);
    var levels := Levels(bits);
    Mult64Exact(temp1, levels);
    var (low, hi) := Mult64(temp1, levels);
    var P := temp1 * levels;
    ShiftPair(sf + 2, Unsigned(low), hi);
    var W := P / Pow2(sf + 2);
    assert Signed(W % U32) / 0x1000 % U16 == W / 0x1000 % U16 by { MiddleBits(W); }
    assert Pow2(sf + 14) == Pow2(sf + 2) * 0x1000 by { Pow2Add(sf + 2, 12); Pow2Constants(); }
    DivSplit(P, Pow2(sf + 2), 0x1000);
  }

  /** Bits 12 to 27 of a word do not depend on how its sign is read. */
  lemma MiddleBits(w: int)
    ensures Signed(w % U32) / 0x1000 % U16 == w / 0x1000 % U16
  {
    var q, r := w / U32, w % U32;
    assert w / 0x1000 == r / 0x1000 + U16 * (16 * q);
    WholeTurns(r / 0x1000, 16 * q);
    assert (r - U32) / 0x1000 == r / 0x1000 + U16 * -16;
    WholeTurns(r / 0x1000, -16);
  }

  lemma WholeTurns(x: int, k: int)
    ensures (x + U16 * k) % U16 == x % U16
  {
    assert x == U16 * (x / U16) + x % U16;
    ModUnique(x + U16 * k, U16, x / U16 + k, x % U16);
  }

  predicate InScale(x: int, sf: nat) {
    0 - Pow2(15 + sf) <= x <= Pow2(15 + sf)
  }

  /** Samples within their scale factor quantise to numbers of `bits` bits. */
  lemma QuantiseFits(x: int, sf: nat, bits: nat)
    requires Int32(x) && sf <= 15 && 1 <= bits <= 16 && InScale(x, sf)
    ensures Quantise(x, sf, bits) == Biased(x, sf) * Levels(bits) / Pow2(sf + 14) <= Levels(bits)
  {
    hide Quantise, Pow2, Levels;
    QuantiseExact(x, sf, bits);
    var A: nat, N: int, L: nat := Pow2(sf + 14), Biased(x, sf), Levels(bits);
    assert Pow2(sf + 15) == 4 * Pow2(sf + 13) && A == 2 * Pow2(sf + 13) by { Pow2Add(2, sf + 13); Pow2Add(1, sf + 13); Pow2Constants(); }
    assert 0 <= N <= A;
    MulOrder(L, N, A);
    MulOrder(L, 0, N);
    assert L * N == N * L && L * A == A * L;
    QuotientAtMost(N * L, A, L);
  }

  lemma QuotientAtMost(u: int, A: nat, L: nat)
    requires A > 0 && 0 <= u <= A * L
    ensures 0 <= u / A <= L
  {
    assert A * (u / A) <= u;
    MulOrder(A, L, u / A);
  }
}
