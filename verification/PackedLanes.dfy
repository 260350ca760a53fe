/** The 32-bit word arithmetic with which adjustToFitBitpool clamps four subbands at once. */
module PackedLanes {
  import opened Bits
  import opened Allocation

  const WORD: nat := 0x1_0000_0000

  /** Four bytes seen as one little-endian word (the BITNEED_UNION types). */
  function Pack(b0: nat, b1: nat, b2: nat, b3: nat): nat {
    b0 + 0x100 * b1 + 0x1_0000 * b2 + 0x100_0000 * b3
  }

  predicate Below(limit: nat, b0: nat, b1: nat, b2: nat, b3: nat) {
    b0 < limit && b1 < limit && b2 < limit && b3 < limit
  }

  /** `bitadjust & 0x7F`, copied into all four bytes of a word. */
  function AdjustWord(bitadjust: int): nat {
    var low := bitadjust % 0x80;
    var pair := Or(low, low * 0x100 % WORD);
    Or(pair, pair * 0x1_0000 % WORD)
  }

  /** The body of the inner loop: negative bytes become 0, bytes of 16 and more
      become 16, and bytes equal to 1 become 0. */
  function ClampWord(word: nat, adjust4: nat): nat {
    DropOnes(Ceilings(Signs((word + adjust4) % WORD)))
  }

  function Signs(n: nat): nat {
    And(n, (0x7F7F7F7F + And(n, 0x40404040) / 64) % WORD)
  }

  function Ceilings(n: nat): nat {
    And(n, (0x0F0F0F0F + And(n, 0x10101010) / 16) % WORD)
  }

  function DropOnes(n: nat): nat {
    And(n, Or((n + 0x0E0E0E0E) % WORD / 16, 0x1E1E1E1E))
  }

  /** The sum of the four bytes of `total`, as the code folds it. */
  function FoldBytes(total: nat): nat {
    var count := total % 0x1_0000 + total / 0x1_0000;
    count % 0x100 + count / 0x100
  }

  // ---- bitwise operators byte by byte ----

  lemma Powers()
    ensures Pow2(1) == 2 && Pow2(4) == 16 && Pow2(6) == 64 && Pow2(7) == 128 && Pow2(8) == 256
    ensures Pow2(16) == 0x1_0000
  {
    assert Pow2(4) == 16;
    assert Pow2(8) == 256;
    assert Pow2(12) == 4096;
  }

  lemma AndPacks(b0: nat, b1: nat, b2: nat, b3: nat, c0: nat, c1: nat, c2: nat, c3: nat)
    requires Below(256, b0, b1, b2, b3) && Below(256, c0, c1, c2, c3)
    ensures And(Pack(b0, b1, b2, b3), Pack(c0, c1, c2, c3)) == Pack(And(b0, c0), And(b1, c1), And(b2, c2), And(b3, c3))
  {
    hide And;
    Powers();
    AndSplit(8, b3, b2, c3, c2);
    AndSplit(8, 256 * b3 + b2, b1, 256 * c3 + c2, c1);
    AndSplit(8, 256 * (256 * b3 + b2) + b1, b0, 256 * (256 * c3 + c2) + c1, c0);
  }

  lemma OrPacks(b0: nat, b1: nat, b2: nat, b3: nat, c0: nat, c1: nat, c2: nat, c3: nat)
    requires Below(256, b0, b1, b2, b3) && Below(256, c0, c1, c2, c3)
    ensures Or(Pack(b0, b1, b2, b3), Pack(c0, c1, c2, c3)) == Pack(Or(b0, c0), Or(b1, c1), Or(b2, c2), Or(b3, c3))
  {
    hide Or;
    Powers();
    OrSplit(8, b3, b2, c3, c2);
    OrSplit(8, 256 * b3 + b2, b1, 256 * c3 + c2, c1);
    OrSplit(8, 256 * (256 * b3 + b2) + b1, b0, 256 * (256 * c3 + c2) + c1, c0);
  }

  lemma OrByteBound(x: nat, y: nat)
    requires x < 256 && y < 256
    ensures Or(x, y) < 256
  {
    Powers();
    OrBound(8, x, y);
  }

  lemma AdjustWordPacks(a: int)
    ensures var low := a % 0x80; AdjustWord(a) == Pack(low, low, low, low)
  {
    hide Or;
    var low := a % 0x80;
    Powers();
    OrSymmetric(low, 256 * low);
    OrLow(8, low, low);
    var pair := 257 * low;
    OrSymmetric(pair, 0x1_0000 * pair);
    OrLow(16, pair, pair);
  }

  // ---- one byte ----

  /** Bit 6 is the sign of the 7-bit sum. */
  function Sign(b: nat): nat {
    if b / 64 % 2 == 1 then 0 else b % 128
  }

  function Ceiling(b: nat): nat {
    if b < 16 then b else 16
  }

  lemma SignByte(b: nat)
    requires b < 192
    ensures And(b, 0x40) == 64 * (b / 64 % 2)
    ensures And(b, 0x7F + b / 64 % 2) == Sign(b)
  {
    hide And;
    Powers();
    AndSplit(6, b / 64, b % 64, 1, 0);
    AndOnes(1, b / 64);
    AndZero(b % 64);
    if b / 64 % 2 == 0 {
      AndOnes(7, b);
    } else {
      AndSplit(7, 0, b, 1, 0);
      AndZero(b);
      AndZero(1);
    }
  }

  lemma CeilingByte(b: nat)
    requires b < 32
    ensures And(b, 0x10) == 16 * (b / 16)
    ensures And(b, 0x0F + b / 16) == Ceiling(b)
  {
    hide And;
    Powers();
    AndSplit(4, b / 16, b % 16, 1, 0);
    AndOnes(1, b / 16);
    AndZero(b % 16);
    AndOnes(4, b);
  }

  /** Whatever leaks into the upper bits of the mask, only its bit 0 decides. */
  lemma DropOneByte(b: nat, c: nat)
    requires b <= 16 && c < 256 && (c % 2 == 1 <==> b >= 2)
    ensures And(b, Or(c, 0x1E)) == Clamp(b)
  {
    hide And, Or;
    Powers();
    var h, z := b / 2, c / 2;
    OrStep(z, c % 2, 15, 0);
    AndStep(h, b % 2, Or(z, 15), c % 2);
    OrSplit(4, z / 16, z % 16, 0, 15);
    OrZero(z / 16);
    OrOnes(4, z % 16);
    AndSplit(4, 0, h, z / 16, 15);
    AndZero(z / 16);
    AndOnes(4, h);
  }

  // ---- the three masks on a whole word ----

  /** Shifting the tested bits down and adding them to the base mask stays within each byte. */
  lemma MaskBytes(s0: nat, s1: nat, s2: nat, s3: nat)
    requires Below(2, s0, s1, s2, s3)
    ensures (0x7F7F7F7F + Pack(64 * s0, 64 * s1, 64 * s2, 64 * s3) / 64) % WORD
         == Pack(0x7F + s0, 0x7F + s1, 0x7F + s2, 0x7F + s3)
    ensures (0x0F0F0F0F + Pack(16 * s0, 16 * s1, 16 * s2, 16 * s3) / 16) % WORD
         == Pack(0x0F + s0, 0x0F + s1, 0x0F + s2, 0x0F + s3)
  {
    var w := Pack(s0, s1, s2, s3);
    assert Pack(64 * s0, 64 * s1, 64 * s2, 64 * s3) == 64 * w;
    assert Pack(16 * s0, 16 * s1, 16 * s2, 16 * s3) == 16 * w;
    assert w <= 0x01010101;
  }

  lemma PackSame()
    ensures Pack(0x40, 0x40, 0x40, 0x40) == 0x40404040 && Pack(0x10, 0x10, 0x10, 0x10) == 0x10101010
    ensures Pack(0x1E, 0x1E, 0x1E, 0x1E) == 0x1E1E1E1E
  {
  }

  lemma SignsPack(b0: nat, b1: nat, b2: nat, b3: nat)
    requires Below(192, b0, b1, b2, b3)
    ensures Signs(Pack(b0, b1, b2, b3)) == Pack(Sign(b0), Sign(b1), Sign(b2), Sign(b3))
  {
    hide And, Pack, Sign;
    PackSame();
    AndPacks(b0, b1, b2, b3, 0x40, 0x40, 0x40, 0x40);
    SignByte(b0);
    SignByte(b1);
    SignByte(b2);
    SignByte(b3);
    var s0, s1, s2, s3 := b0 / 64 % 2, b1 / 64 % 2, b2 / 64 % 2, b3 / 64 % 2;
    MaskBytes(s0, s1, s2, s3);
    AndPacks(b0, b1, b2, b3, 0x7F + s0, 0x7F + s1, 0x7F + s2, 0x7F + s3);
  }

  lemma CeilingsPack(b0: nat, b1: nat, b2: nat, b3: nat)
    requires Below(32, b0, b1, b2, b3)
    ensures Ceilings(Pack(b0, b1, b2, b3)) == Pack(Ceiling(b0), Ceiling(b1), Ceiling(b2), Ceiling(b3))
  {
    hide And, Pack, Ceiling;
    PackSame();
    AndPacks(b0, b1, b2, b3, 0x10, 0x10, 0x10, 0x10);
    CeilingByte(b0);
    CeilingByte(b1);
    CeilingByte(b2);
    CeilingByte(b3);
    var s0, s1, s2, s3 := b0 / 16, b1 / 16, b2 / 16, b3 / 16;
    MaskBytes(s0, s1, s2, s3);
    AndPacks(b0, b1, b2, b3, 0x0F + s0, 0x0F + s1, 0x0F + s2, 0x0F + s3);
  }

  /** The `>> 4` of the third mask moves the low nibble of each byte into its lower neighbour. */
  lemma LeakyShift(h0: nat, h1: nat, h2: nat, h3: nat, l0: nat, l1: nat, l2: nat, l3: nat)
    requires Below(2, h0, h1, h2, h3) && Below(16, l0, l1, l2, l3)
    ensures Pack(16 * h0 + l0, 16 * h1 + l1, 16 * h2 + l2, 16 * h3 + l3) % WORD / 16
         == Pack(h0 + 16 * l1, h1 + 16 * l2, h2 + 16 * l3, h3)
  {
    var shifted := Pack(h0 + 16 * l1, h1 + 16 * l2, h2 + 16 * l3, h3);
    var word := Pack(16 * h0 + l0, 16 * h1 + l1, 16 * h2 + l2, 16 * h3 + l3);
    assert word == 16 * shifted + l0;
    assert word < WORD;
  }

  lemma PackAdds(b0: nat, b1: nat, b2: nat, b3: nat, c: nat)
    ensures Pack(b0, b1, b2, b3) + Pack(c, c, c, c) == Pack(b0 + c, b1 + c, b2 + c, b3 + c)
    ensures Pack(14, 14, 14, 14) == 0x0E0E0E0E
  {
  }

  lemma PackSum(b0: nat, b1: nat, b2: nat, b3: nat, c0: nat, c1: nat, c2: nat, c3: nat)
    ensures Pack(b0, b1, b2, b3) + Pack(c0, c1, c2, c3) == Pack(b0 + c0, b1 + c1, b2 + c2, b3 + c3)
  {
  }

  lemma PackFits(b0: nat, b1: nat, b2: nat, b3: nat)
    requires Below(256, b0, b1, b2, b3)
    ensures Pack(b0, b1, b2, b3) % WORD == Pack(b0, b1, b2, b3)
  {
    assert Pack(b0, b1, b2, b3) < WORD;
  }

  /** Byte `v / 16` of the shifted word, with the nibble that leaks into it. */
  lemma MaskParity(b: nat, leak: nat)
    requires b <= 16 && leak < 16
    ensures var c := (b + 14) / 16 + 16 * leak; c < 256 && (c % 2 == 1 <==> b >= 2)
  {
  }

  lemma DropOnesPack(b0: nat, b1: nat, b2: nat, b3: nat)
    requires Below(17, b0, b1, b2, b3)
    ensures DropOnes(Pack(b0, b1, b2, b3)) == Pack(Clamp(b0), Clamp(b1), Clamp(b2), Clamp(b3))
  {
    hide And, Or, Clamp, Pack;
    PackSame();
    PackAdds(b0, b1, b2, b3, 14);
    var v0, v1, v2, v3 := b0 + 14, b1 + 14, b2 + 14, b3 + 14;
    LeakyShift(v0 / 16, v1 / 16, v2 / 16, v3 / 16, v0 % 16, v1 % 16, v2 % 16, v3 % 16);
    var c0, c1, c2, c3 := v0 / 16 + 16 * (v1 % 16), v1 / 16 + 16 * (v2 % 16), v2 / 16 + 16 * (v3 % 16), v3 / 16;
    MaskParity(b0, v1 % 16);
    MaskParity(b1, v2 % 16);
    MaskParity(b2, v3 % 16);
    MaskParity(b3, 0);
    DropOnesMasked(b0, b1, b2, b3, c0, c1, c2, c3);
  }

  lemma DropOnesMasked(b0: nat, b1: nat, b2: nat, b3: nat, c0: nat, c1: nat, c2: nat, c3: nat)
    requires Below(17, b0, b1, b2, b3) && Below(256, c0, c1, c2, c3)
    requires (c0 % 2 == 1 <==> b0 >= 2) && (c1 % 2 == 1 <==> b1 >= 2) && (c2 % 2 == 1 <==> b2 >= 2)
    requires (c3 % 2 == 1 <==> b3 >= 2)
    ensures And(Pack(b0, b1, b2, b3), Or(Pack(c0, c1, c2, c3), 0x1E1E1E1E)) == Pack(Clamp(b0), Clamp(b1), Clamp(b2), Clamp(b3))
  {
    hide And, Or, Clamp, Pack;
    PackSame();
    OrPacks(c0, c1, c2, c3, 0x1E, 0x1E, 0x1E, 0x1E);
    OrByteBound(c0, 0x1E);
    OrByteBound(c1, 0x1E);
    OrByteBound(c2, 0x1E);
    OrByteBound(c3, 0x1E);
    AndPacks(b0, b1, b2, b3, Or(c0, 0x1E), Or(c1, 0x1E), Or(c2, 0x1E), Or(c3, 0x1E));
    DropOneByte(b0, c0);
    DropOneByte(b1, c1);
    DropOneByte(b2, c2);
    DropOneByte(b3, c3);
  }

  lemma LaneClamps(n: nat, a: int)
    requires n < 16 && -15 <= a <= 15
    ensures var s := Sign(n + a % 0x80);
      n + a % 0x80 < 192 && s < 32 && Ceiling(s) < 17 && Clamp(Ceiling(s)) == Clamp(n + a)
  {
    assert a % 0x80 == if a < 0 then a + 128 else a;
  }

  /** Four lanes at once equal four scalar clamps: no carry crosses a lane. */
  lemma ClampWordExact(n0: nat, n1: nat, n2: nat, n3: nat, a: int)
    requires Below(16, n0, n1, n2, n3) && -15 <= a <= 15
    ensures ClampWord(Pack(n0, n1, n2, n3), AdjustWord(a))
         == Pack(Clamp(n0 + a), Clamp(n1 + a), Clamp(n2 + a), Clamp(n3 + a))
  {
    hide And, Or, Clamp, Sign, Ceiling, Signs, Ceilings, DropOnes, AdjustWord, Pack;
    AdjustWordPacks(a);
    var low := a % 0x80;
    LaneClamps(n0, a);
    LaneClamps(n1, a);
    LaneClamps(n2, a);
    LaneClamps(n3, a);
    PackAdds(n0, n1, n2, n3, low);
    PackFits(n0 + low, n1 + low, n2 + low, n3 + low);
    var s0, s1, s2, s3 := Sign(n0 + low), Sign(n1 + low), Sign(n2 + low), Sign(n3 + low);
    SignsPack(n0 + low, n1 + low, n2 + low, n3 + low);
    CeilingsPack(s0, s1, s2, s3);
    DropOnesPack(Ceiling(s0), Ceiling(s1), Ceiling(s2), Ceiling(s3));
  }

  lemma FoldBytesSum(t0: nat, t1: nat, t2: nat, t3: nat)
    requires t0 <= 64 && t1 <= 64 && t2 <= 64 && t3 <= 64
    ensures FoldBytes(Pack(t0, t1, t2, t3)) == t0 + t1 + t2 + t3
  {
    var total := Pack(t0, t1, t2, t3);
    assert total % 0x1_0000 == t0 + 0x100 * t1 && total / 0x1_0000 == t2 + 0x100 * t3;
  }
}
