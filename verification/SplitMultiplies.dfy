/** The decoder's split-word multiplies: each is the floor of the exact product. */
module SplitMultiplies {
  import opened Bits
  import opened Words

  predicate Int16(x: int) {
    -0x8000 <= x < 0x8000
  }

  /** default_mul_16s_32s_hi. */
  function Mul16x32Hi(u: int, v: int): int
    requires Int16(u) && Int32(v)
  {
    var v0, v1 := v % U16, v / U16;
    var w := Signed(v1 * u);
    var x := Signed(u * v0);
    Signed(w + x / U16)
  }

  /** default_mul_32s_32s_hi: unsigned partial products are cut to 32 bits and stored in signed words. */
  function Mul32x32Hi(u: int, v: int): int
    requires Int32(u) && Int32(v)
  {
    var u0, v0, u1, v1 := u % U16, v % U16, u / U16, v / U16;
    var first := Signed(u0 * v0);
    var t := Signed(u1 * v0 + Unsigned(first) / U16);
    var w1 := Signed(u0 * v1 + t % U16);
    Signed(u1 * v1 + t / U16 + w1 / U16)
  }

  /** A signed half word times an unsigned one leaves room for another half word. */
  lemma HalfProduct(h: int, a: nat)
    requires Int16(h) && a < U16
    ensures -0x8000 * 0xFFFF <= h * a <= 0x7FFF * 0xFFFF
  {
    MulOrder(a, h, 0x7FFF);
    MulOrder(a, -0x8000, h);
    MulOrder(0x8000, a, 0xFFFF);
    MulOrder(0x7FFF, a, 0xFFFF);
    assert a * h == h * a && a * -0x8000 == -(0x8000 * a) && a * 0x7FFF == 0x7FFF * a;
  }

  lemma SignedProduct(g: int, h: int)
    requires Int16(g) && Int16(h)
    ensures -0x4000_0000 <= g * h <= 0x4000_0000
  {
    if g >= 0 {
      MulOrder(g, h, 0x7FFF);
      MulOrder(g, -0x8000, h);
    } else {
      MulOrder(-g, h, 0x7FFF);
      MulOrder(-g, -0x8000, h);
      assert -g * h == -(g * h);
    }
  }

  lemma Halves(x: int)
    requires Int32(x)
    ensures x == U16 * (x / U16) + x % U16 && Int16(x / U16) && 0 <= x % U16 < U16
  {
  }

  /** The exact product in units of 2 ** 16, rounded down, for all operands. */
  lemma Mul16x32HiExact(u: int, v: int)
    requires Int16(u) && Int32(v)
    ensures Mul16x32Hi(u, v) == u * v / U16
  {
    hide Signed;
    var v0, v1 := v % U16, v / U16;
    Halves(v);
    HalfProduct(u, v0);
    SignedProduct(v1, u);
    assert u * v == U16 * (v1 * u) + u * v0 by {
      assert u * (U16 * v1 + v0) == u * (U16 * v1) + u * v0;
      assert u * (U16 * v1) == U16 * (v1 * u);
    }
    ModUnique(u * v, U16, v1 * u + u * v0 / U16, u * v0 % U16);
  }

  /** The upper word of the exact product, rounded down, for all operands. */
  lemma Mul32x32HiExact(u: int, v: int)
    requires Int32(u) && Int32(v)
    ensures Mul32x32Hi(u, v) == u * v / U32
  {
    hide Signed, Unsigned;
    var u0, v0, u1, v1 := u % U16, v % U16, u / U16, v / U16;
    Halves(u);
    Halves(v);
    var p := u0 * v0;
    LowProduct(u0, v0);
    HalfProduct(u1, v0);
    HalfProduct(v1, u0);
    SignedProduct(u1, v1);
    assert v1 * u0 == u0 * v1;
    var t := u1 * v0 + p / U16;
    var w := u0 * v1 + t % U16;
    assert Mul32x32Hi(u, v) == u1 * v1 + t / U16 + w / U16;
    FullProduct(u0, v0, u1, v1);
    Assemble(u * v, u1 * v1, u0 * v1, u1 * v0, p);
  }

  lemma LowProduct(a: nat, b: nat)
    requires a < U16 && b < U16
    ensures 0 <= a * b <= 0xFFFF * 0xFFFF
    ensures Unsigned(Signed(a * b)) / U16 == a * b / U16
  {
    MulOrder(b, a, 0xFFFF);
    MulOrder(b, 0, a);
    MulOrder(0xFFFF, b, 0xFFFF);
    assert a * b == b * a;
  }

  lemma FullProduct(u0: int, v0: int, u1: int, v1: int)
    ensures (U16 * u1 + u0) * (U16 * v1 + v0) == U32 * (u1 * v1) + U16 * (u0 * v1 + u1 * v0) + u0 * v0
  {
    var A, B := U16 * u1, U16 * v1;
    assert (A + u0) * (B + v0) == A * B + u0 * B + A * v0 + u0 * v0;
    assert A * B == U32 * (u1 * v1) by { assert U16 * u1 * (U16 * v1) == U16 * U16 * (u1 * v1); }
    assert u0 * B == U16 * (u0 * v1) && A * v0 == U16 * (u1 * v0);
  }

  lemma Assemble(whole: int, high: int, cross1: int, cross2: int, p: int)
    requires whole == U32 * high + U16 * (cross1 + cross2) + p
    ensures var t := cross2 + p / U16;
      whole / U32 == high + t / U16 + (cross1 + t % U16) / U16
  {
    var t := cross2 + p / U16;
    var w := cross1 + t % U16;
    assert whole == U32 * (high + t / U16 + w / U16) + (U16 * (w % U16) + p % U16);
  }
}
