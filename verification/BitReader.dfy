/** The decoder's look-ahead bit reader (OI_BITSTREAM). */
module BitReader {
  import opened Bits
  import opened Words
  import opened BitStrings

  /** The memory a stream points into. */
  type Memory = nat -> byte

  /** Bit `pos` of the memory, counted from the most significant bit of byte 0. */
  predicate BitAt(mem: Memory, pos: nat) {
    NatBits(mem(pos / 8), 8)[pos % 8]
  }

  function BitsAt(mem: Memory, pos: nat, n: nat): (bits: seq<bool>)
    ensures |bits| == n
  {
    seq(n, i requires 0 <= i < n => BitAt(mem, pos + i))
  }

  lemma BitsAtSplit(mem: Memory, pos: nat, m: nat, n: nat)
    ensures BitsAt(mem, pos, m + n) == BitsAt(mem, pos, m) + BitsAt(mem, pos + m, n)
  {
  }

  lemma BitsAtByte(mem: Memory, p: nat)
    ensures BitsAt(mem, 8 * p, 8) == NatBits(mem(p), 8)
  {
    hide NatBits;
    forall i | 0 <= i < 8 ensures BitsAt(mem, 8 * p, 8)[i] == NatBits(mem(p), 8)[i] {
      assert (8 * p + i) / 8 == p && (8 * p + i) % 8 == i;
      assert BitAt(mem, 8 * p + i) == NatBits(mem(p), 8)[i];
    }
  }

  /** Only the bytes under the bits matter. */
  lemma BitsAtDepends(mem: Memory, other: Memory, pos: nat, n: nat)
    requires forall p: nat :: pos / 8 <= p && 8 * p < pos + n ==> mem(p) == other(p)
    ensures BitsAt(mem, pos, n) == BitsAt(other, pos, n)
  {
    hide NatBits;
    forall i | 0 <= i < n ensures BitsAt(mem, pos, n)[i] == BitsAt(other, pos, n)[i] {
      var p := (pos + i) / 8;
      assert mem(p) == other(p);
      assert BitAt(mem, pos + i) == BitAt(other, pos + i);
    }
  }

  /** Three bytes as a number. */
  function Window(mem: Memory, p: nat): (w: nat)
    ensures w < 0x100_0000
  {
    0x1_0000 * mem(p) + 0x100 * mem(p + 1) + mem(p + 2)
  }

  lemma WindowBits(mem: Memory, p: nat)
    ensures Window(mem, p) == BitsVal(BitsAt(mem, 8 * p, 24))
  {
    hide NatBits, BitsVal;
    Eight();
    BitsAtByte(mem, p);
    BitsAtByte(mem, p + 1);
    BitsAtByte(mem, p + 2);
    BitsAtSplit(mem, 8 * p, 8, 16);
    BitsAtSplit(mem, 8 * p + 8, 8, 8);
    BitsValNatBits(mem(p), 8);
    BitsValNatBits(mem(p + 1), 8);
    BitsValNatBits(mem(p + 2), 8);
    BitsValConcat(NatBits(mem(p + 1), 8), NatBits(mem(p + 2), 8));
    BitsValConcat(NatBits(mem(p), 8), NatBits(mem(p + 1), 8) + NatBits(mem(p + 2), 8));
  }

  lemma Eight()
    ensures Pow2(8) == 0x100 && Pow2(16) == 0x1_0000 && Pow2(24) == 0x100_0000 && Pow2(32) == U32
  {
    assert Pow2(8) == 0x100;
    assert Pow2(16) == 0x100 * 0x100 by { Pow2Add(8, 8); }
    assert Pow2(24) == 0x1_0000 * 0x100 by { Pow2Add(16, 8); }
    assert Pow2(32) == 0x1_0000 * 0x1_0000 by { Pow2Add(16, 16); }
  }

  /** `(value << shift) >> (32 - bits)` in 32-bit arithmetic. */
  function Extract(value: nat, shift: nat, bits: nat): nat
    requires bits <= 32
  {
    DivNat(value * Pow2(shift) % U32, Pow2(32 - bits))
  }

  /** Shifting out `o` bits of the window and everything above it leaves the next `n` on top. */
  lemma ExtractBits(value: nat, window: seq<bool>, o: nat, n: nat)
    requires |window| == 24 && value % 0x100_0000 == BitsVal(window)
    requires 1 <= n && o + n <= 24
    ensures Extract(value, 8 + o, n) == BitsVal(window[o..o + n])
  {
    hide Pow2, BitsVal;
    var m := 24 - o - n;
    var a, b, c := window[..o], window[o..o + n], window[o + n..];
    assert window == a + (b + c);
    BitsValConcat(b, c);
    BitsValConcat(a, b + c);
    BitsValBound(c);
    BitsValBound(b);
    BitsValBound(b + c);
    Powers(o, n, m);
    var v := value / 0x100_0000;
    assert value == 0x100_0000 * v + BitsVal(window);
    ExtractValue(value, v, Pow2(8 + o), Pow2(24 - o), Pow2(m), Pow2(32 - n), BitsVal(a), BitsVal(b), BitsVal(c), o);
  }

  lemma Powers(o: nat, n: nat, m: nat)
    requires o + n + m == 24
    ensures Pow2(8 + o) * Pow2(24 - o) == U32
    ensures Pow2(8 + o) * Pow2(m) == Pow2(32 - n)
    ensures 0x100_0000 * Pow2(8 + o) == U32 * Pow2(o)
  {
    hide Pow2;
    Eight();
    Pow2Add(8 + o, 24 - o);
    Pow2Add(8 + o, m);
    Pow2Add(8, o);
    assert 0x100_0000 * (0x100 * Pow2(o)) == U32 * Pow2(o);
  }

  lemma ExtractValue(value: nat, v: nat, s: nat, t: nat, u: nat, d: nat, A: nat, B: nat, C: nat, o: nat)
    requires value == 0x100_0000 * v + (t * A + (u * B + C))
    requires s * t == U32 && s * u == d && 0x100_0000 * s == U32 * Pow2(o)
    requires s > 0 && u > 0 && d > 0 && C < u && u * B + C < t
    ensures value * s % U32 / d == B
  {
    hide Pow2;
    var rest := u * B + C;
    Spread(value, v, s, t, A, rest, o);
    MulOrder(s, rest, t);
    MulOrder(s, 0, rest);
    ModUnique(value * s, U32, Pow2(o) * v + A, s * rest);
    Distribute(s, u, B, C);
    MulOrder(s, C, u);
    MulOrder(s, 0, C);
    ModUnique(s * rest, d, B, s * C);
  }

  lemma Spread(value: nat, v: nat, s: nat, t: nat, A: nat, rest: nat, o: nat)
    requires value == 0x100_0000 * v + (t * A + rest)
    requires s * t == U32 && 0x100_0000 * s == U32 * Pow2(o)
    ensures value * s == U32 * (Pow2(o) * v + A) + s * rest
  {
    hide Pow2;
    var P := Pow2(o);
    assert 0x100_0000 * v * s == U32 * (P * v) by { assert 0x100_0000 * v * s == 0x100_0000 * s * v; }
    assert t * A * s == U32 * A by { assert t * A * s == s * t * A; }
    assert (0x100_0000 * v + (t * A + rest)) * s == 0x100_0000 * v * s + t * A * s + rest * s;
    assert U32 * (P * v + A) == U32 * (P * v) + U32 * A;
  }

  class BitStream {
    const mem: Memory
    var ptr: nat
    var value: nat
    var bitPtr: nat

    /** OI_BITSTREAM_ReadInit. */
    constructor (mem: Memory, buffer: nat)
      ensures Valid() && this.mem == mem && Position() == 8 * buffer
    {
      this.mem := mem;
      hide Or;
      value := Or(Or(mem(buffer) * 0x1_0000, mem(buffer + 1) * 0x100), mem(buffer + 2));
      ptr := buffer + 3;
      bitPtr := 8;
      new;
      JoinThree(mem(buffer), mem(buffer + 1), mem(buffer + 2));
    }

    /** Three look-ahead bytes sit in the low 24 bits of `value`; fewer than 8 of them are used up. */
    ghost predicate Valid()
      reads this
    {
      ptr >= 3 && 8 <= bitPtr < 16 && value < U32 && value % 0x100_0000 == Window(mem, ptr - 3)
    }

    /** The next bit to be read. */
    ghost function Position(): nat
      requires Valid()
      reads this
    {
      8 * (ptr - 3) + (bitPtr - 8)
    }

    /** OI_BITSTREAM_READUINT. Shifting by 32 for `bits == 0` has no defined result. */
    method ReadUINT(bits: nat) returns (result: nat)
      requires Valid() && bits <= 16
      modifies this
      ensures Valid() && Position() == old(Position()) + bits
      ensures bits > 0 ==> result == BitsVal(BitsAt(mem, old(Position()), bits))
    {
      hide Window, Extract, Or, BitsVal, BitsAt;
      if bits == 0 {
        result := *;
      } else {
        result := Extract(value, bitPtr, bits);
        WindowRead(mem, ptr - 3, value, bitPtr - 8, bits);
      }
      ghost var pos := Position() + bits;
      bitPtr := bitPtr + bits;
      while bitPtr >= 16
        invariant ptr >= 3 && 8 <= bitPtr < 32 && value < U32 && value % 0x100_0000 == Window(mem, ptr - 3)
        invariant 8 * (ptr - 3) + (bitPtr - 8) == pos
        decreases bitPtr
      {
        Refill(mem, ptr - 3, value);
        value := Or(value * 0x100 % U32, mem(ptr));
        ptr := ptr + 1;
        bitPtr := bitPtr - 8;
      }
    }

    /** OI_BITSTREAM_ReadUINT4Aligned. */
    method ReadUINT4Aligned() returns (result: nat)
      requires Valid() && bitPtr % 4 == 0
      modifies this
      ensures Valid() && Position() == old(Position()) + 4
      ensures result == BitsVal(BitsAt(mem, old(Position()), 4))
    {
      hide Window, Extract, Or, BitsVal, BitsAt;
      WindowRead(mem, ptr - 3, value, bitPtr - 8, 4);
      if bitPtr == 8 {
        result := Extract(value, 8, 4);
        bitPtr := 12;
      } else {
        result := Extract(value, 12, 4);
        Refill(mem, ptr - 3, value);
        value := Or(value * 0x100 % U32, mem(ptr));
        ptr := ptr + 1;
        bitPtr := 8;
      }
    }
  }

  /** The reader has loaded the bytes up to `ptr`, which is three beyond the byte it stands in. */
  lemma LookAhead(bs: BitStream)
    requires bs.Valid()
    ensures bs.ptr == bs.Position() / 8 + 3
  {
  }

  lemma JoinThree(b0: byte, b1: byte, b2: byte)
    ensures Or(Or(b0 * 0x1_0000, b1 * 0x100), b2) == 0x1_0000 * b0 + 0x100 * b1 + b2
  {
    hide Or;
    Eight();
    OrLow(16, b0, b1 * 0x100);
    OrLow(8, 0x100 * b0 + b1, b2);
  }

  lemma Refill(mem: Memory, p: nat, value: nat)
    requires value < U32 && value % 0x100_0000 == Window(mem, p)
    ensures var next := Or(value * 0x100 % U32, mem(p + 3));
      next < U32 && next % 0x100_0000 == Window(mem, p + 1)
  {
    hide Or;
    Eight();
    var w := value % 0x100_0000;
    assert value * 0x100 % U32 == 0x100 * w;
    OrLow(8, w, mem(p + 3));
    var b0, b1, b2, b3 := mem(p), mem(p + 1), mem(p + 2), mem(p + 3);
    assert 0x100 * w + b3 == 0x100_0000 * b0 + (0x1_0000 * b1 + 0x100 * b2 + b3);
  }

  lemma WindowRead(mem: Memory, p: nat, value: nat, o: nat, n: nat)
    requires value % 0x100_0000 == Window(mem, p) && o < 8 && 1 <= n <= 16
    ensures Extract(value, 8 + o, n) == BitsVal(BitsAt(mem, 8 * p + o, n))
  {
    hide Extract, BitsVal;
    WindowBits(mem, p);
    var window := BitsAt(mem, 8 * p, 24);
    ExtractBits(value, window, o, n);
    assert window[o..o + n] == BitsAt(mem, 8 * p + o, n);
  }
}
