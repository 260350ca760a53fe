/** Bit strings, most significant bit first, and the numbers they spell. */
module BitStrings {
  import opened Bits

  type byte = b: int | 0 <= b < 256

  /** The low `w` bits of `v`. */
  function NatBits(v: nat, w: nat): (bits: seq<bool>)
    ensures |bits| == w
  {
    if w == 0 then [] else NatBits(v / 2, w - 1) + [v % 2 == 1]
  }

  function BitsVal(bits: seq<bool>): nat {
    if bits == [] then 0 else 2 * BitsVal(bits[..|bits| - 1]) + (if bits[|bits| - 1] then 1 else 0)
  }

  lemma {:induction false} NatBitsAt(v: nat, w: nat, i: nat)
    requires i < w
    ensures NatBits(v, w)[i] == (v / Pow2(w - 1 - i) % 2 == 1)
  {
    if i < w - 1 {
      NatBitsAt(v / 2, w - 1, i);
      ModDouble(Pow2(w - 2 - i), v);
    }
  }

  lemma {:induction false} BitsValBound(bits: seq<bool>)
    ensures BitsVal(bits) < Pow2(|bits|)
  {
    if bits != [] {
      BitsValBound(bits[..|bits| - 1]);
    }
  }

  lemma {:induction false} BitsValAppend(xs: seq<bool>, ys: seq<bool>)
    ensures BitsVal(xs + ys) == Shl(BitsVal(xs), |ys|) + BitsVal(ys)
  {
    if ys == [] {
      assert xs + ys == xs;
    } else {
      var n := |ys| - 1;
      assert (xs + ys)[..|xs + ys| - 1] == xs + ys[..n];
      BitsValAppend(xs, ys[..n]);
    }
  }

  lemma BitsValConcat(xs: seq<bool>, ys: seq<bool>)
    ensures BitsVal(xs + ys) == Pow2(|ys|) * BitsVal(xs) + BitsVal(ys)
  {
    BitsValAppend(xs, ys);
    ShlScales(BitsVal(xs), |ys|);
  }

  /** Writing a number and reading it back, cut to the width. */
  lemma {:induction false} BitsValNatBits(v: nat, w: nat)
    ensures BitsVal(NatBits(v, w)) == v % Pow2(w)
  {
    if w > 0 {
      BitsValNatBits(v / 2, w - 1);
      ModDouble(Pow2(w - 1), v);
      assert NatBits(v, w)[..w - 1] == NatBits(v / 2, w - 1);
    }
  }

  lemma {:induction false} NatBitsOfVal(bits: seq<bool>)
    ensures NatBits(BitsVal(bits), |bits|) == bits
  {
    if bits != [] {
      var n := |bits| - 1;
      NatBitsOfVal(bits[..n]);
      var v := BitsVal(bits);
      assert v / 2 == BitsVal(bits[..n]) && (v % 2 == 1) == bits[n];
      assert bits == bits[..n] + [bits[n]];
    }
  }

  /** The low `w` bits do not see what is above them. */
  lemma NatBitsJunk(v: nat, u: nat, w: nat)
    requires v % Pow2(w) == u % Pow2(w)
    ensures NatBits(v, w) == NatBits(u, w)
  {
    BitsValNatBits(v, w);
    BitsValNatBits(u, w);
    NatBitsOfVal(NatBits(v, w));
    NatBitsOfVal(NatBits(u, w));
  }

  lemma {:induction false} NatBitsShl(p: nat, k: nat, x: nat, w: nat)
    requires x < Pow2(w)
    ensures NatBits(Shl(p, w) + x, k + w) == NatBits(p, k) + NatBits(x, w)
  {
    if w == 0 {
      assert NatBits(p, k) + [] == NatBits(p, k);
    } else {
      var v := Shl(p, w - 1) + x / 2;
      NatBitsShl(p, k, x / 2, w - 1);
      assert (Shl(p, w) + x) / 2 == v && (Shl(p, w) + x) % 2 == x % 2;
      assert NatBits(Shl(p, w) + x, k + w) == NatBits(v, k + w - 1) + [x % 2 == 1];
    }
  }

  /** Putting a field below a number appends its bits. */
  lemma NatBitsAppend(p: nat, k: nat, x: nat, w: nat)
    requires x < Pow2(w)
    ensures NatBits(Pow2(w) * p + x, k + w) == NatBits(p, k) + NatBits(x, w)
  {
    NatBitsShl(p, k, x, w);
    ShlScales(p, w);
  }

  /** Bytes as one bit string. */
  function Unpack(bytes: seq<byte>): (bits: seq<bool>)
    ensures |bits| == 8 * |bytes|
  {
    if bytes == [] then [] else Unpack(bytes[..|bytes| - 1]) + NatBits(bytes[|bytes| - 1], 8)
  }

  lemma UnpackSnoc(bytes: seq<byte>, b: byte)
    ensures Unpack(bytes + [b]) == Unpack(bytes) + NatBits(b, 8)
  {
    assert (bytes + [b])[..|bytes|] == bytes;
  }

  lemma {:induction false} UnpackConcat(xs: seq<byte>, ys: seq<byte>)
    ensures Unpack(xs + ys) == Unpack(xs) + Unpack(ys)
  {
    if ys == [] {
      assert xs + ys == xs && Unpack(xs) + [] == Unpack(xs);
    } else {
      var n := |ys| - 1;
      assert (xs + ys)[..|xs + ys| - 1] == xs + ys[..n];
      UnpackConcat(xs, ys[..n]);
    }
  }

  lemma UnpackOne(b: byte)
    ensures Unpack([b]) == NatBits(b, 8)
  {
    UnpackSnoc([], b);
  }

  /** Different bytes differ in their bits. */
  lemma ByteBitsInjective(x: byte, y: byte)
    requires NatBits(x, 8) == NatBits(y, 8)
    ensures x == y
  {
    hide NatBits;
    assert Pow2(8) == 256;
    BitsValNatBits(x, 8);
    BitsValNatBits(y, 8);
  }

  /** Changing one byte changes its eight bits and no others. */
  lemma UnpackChange(xs: seq<byte>, ys: seq<byte>, k: nat)
    requires |xs| == |ys| && k < |xs| && xs[k] != ys[k]
    requires forall i :: 0 <= i < |xs| && i != k ==> xs[i] == ys[i]
    ensures Unpack(xs) != Unpack(ys)
    ensures forall i :: 0 <= i < 8 * |xs| && !(8 * k <= i < 8 * k + 8) ==> Unpack(xs)[i] == Unpack(ys)[i]
  {
    hide Unpack, NatBits;
    var a, c := xs[..k], xs[k + 1..];
    assert xs == a + [xs[k]] + c && ys == a + [ys[k]] + c;
    UnpackConcat(a + [xs[k]], c);
    UnpackConcat(a + [ys[k]], c);
    UnpackConcat(a, [xs[k]]);
    UnpackConcat(a, [ys[k]]);
    UnpackOne(xs[k]);
    UnpackOne(ys[k]);
    if Unpack(xs) == Unpack(ys) {
      assert Unpack(xs)[8 * k..8 * k + 8] == NatBits(xs[k], 8) && Unpack(ys)[8 * k..8 * k + 8] == NatBits(ys[k], 8);
      ByteBitsInjective(xs[k], ys[k]);
      assert false;
    }
  }
}
