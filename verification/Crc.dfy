/** The frame checksum (polynomial 0x1D, seed 0x0F): bit by bit in the encoder, four bits at
    a time from a table in the decoder. */
module Crc {
  import opened Bits
  import opened Frames

  import opened BitStrings

  /** Bit `j` of a byte: `(b >> j) & 1`. */
  predicate Bit(b: byte, j: nat) {
    b / Pow2(j) % 2 == 1
  }

  lemma BitOfByte(b: byte, j: nat)
    requires j < 8
    ensures NatBits(b, 8)[7 - j] == Bit(b, j)
  {
    hide Pow2, NatBits;
    NatBitsAt(b, 8, 7 - j);
  }

  lemma ByteBitsAre(b: byte)
    ensures NatBits(b, 8)
         == [Bit(b, 7), Bit(b, 6), Bit(b, 5), Bit(b, 4), Bit(b, 3), Bit(b, 2), Bit(b, 1), Bit(b, 0)]
  {
    hide Bit, NatBits;
    forall i | 0 <= i < 8 ensures NatBits(b, 8)[i] == Bit(b, 7 - i) {
      BitOfByte(b, 7 - i);
    }
  }

  /** An eight-bit register, bit by bit. */
  datatype Register = Register(b7: bool, b6: bool, b5: bool, b4: bool, b3: bool, b2: bool, b1: bool, b0: bool)

  function AsRegister(b: byte): Register {
    Register(Bit(b, 7), Bit(b, 6), Bit(b, 5), Bit(b, 4), Bit(b, 3), Bit(b, 2), Bit(b, 1), Bit(b, 0))
  }

  function Value(bit: bool): nat {
    if bit then 1 else 0
  }

  function AsByte(r: Register): byte {
    128 * Value(r.b7) + 64 * Value(r.b6) + 32 * Value(r.b5) + 16 * Value(r.b4)
    + 8 * Value(r.b3) + 4 * Value(r.b2) + 2 * Value(r.b1) + Value(r.b0)
  }

  const ZERO := Register(false, false, false, false, false, false, false, false)

  function Xor(r: Register, s: Register): Register {
    Register(r.b7 != s.b7, r.b6 != s.b6, r.b5 != s.b5, r.b4 != s.b4, r.b3 != s.b3, r.b2 != s.b2, r.b1 != s.b1, r.b0 != s.b0)
  }

  function ShiftLeft1(r: Register): Register {
    Register(r.b6, r.b5, r.b4, r.b3, r.b2, r.b1, r.b0, false)
  }

  function ShiftLeft4(r: Register): Register {
    Register(r.b3, r.b2, r.b1, r.b0, false, false, false, false)
  }

  /** `r >> 4` as a table index. */
  function HighNibble(r: Register): (i: nat)
    ensures i < 16
  {
    8 * Value(r.b7) + 4 * Value(r.b6) + 2 * Value(r.b5) + Value(r.b4)
  }

  // ---- encoder ----

  /** One bit of the encoder's loop. */
  function Step(crc: Register, bit: bool): Register {
    var xored := crc.b7 != bit;
    if xored then Xor(ShiftLeft1(crc), AsRegister(0x1D)) else ShiftLeft1(crc)
  }

  function CrcBits(crc: Register, bits: seq<bool>): Register
    decreases bits
  {
    if bits == [] then crc else CrcBits(Step(crc, bits[0]), bits[1..])
  }

  // ---- decoder ----

  const CRC8_NARROW: seq<byte> := [
    0x00, 0x1d, 0x3a, 0x27, 0x74, 0x69, 0x4e, 0x53, 0xe8, 0xf5, 0xd2, 0xcf, 0x9c, 0x81, 0xa6, 0xbb]

  function IterateTop4(oldcrc: Register, next: Register): Register {
    Xor(ShiftLeft4(oldcrc), AsRegister(CRC8_NARROW[HighNibble(Xor(oldcrc, next))]))
  }

  /** The second half looks `next` up with its low nibble in place of the high one. */
  function Iterate(oldcrc: Register, next: Register): Register {
    IterateTop4(IterateTop4(oldcrc, next), ShiftLeft4(next))
  }

  // ---- the two agree ----

  /** The table is linear in its index. */
  lemma TableRegister(b3: bool, b2: bool, b1: bool, b0: bool)
    ensures AsRegister(CRC8_NARROW[8 * Value(b3) + 4 * Value(b2) + 2 * Value(b1) + Value(b0)])
         == Register(b3, b3 != b2, b3 != (b2 != b1), b2 != (b1 != b0), b3 != (b1 != b0), b2 != b0, b1, b0)
  {
    if b3 {
      UpperTable(b2, b1, b0);
    } else {
      LowerTable(b2, b1, b0);
    }
  }

  lemma LowerTable(b2: bool, b1: bool, b0: bool)
    ensures AsRegister(CRC8_NARROW[4 * Value(b2) + 2 * Value(b1) + Value(b0)])
         == Register(false, b2, b2 != b1, b2 != (b1 != b0), b1 != b0, b2 != b0, b1, b0)
  {
  }

  lemma UpperTable(b2: bool, b1: bool, b0: bool)
    ensures AsRegister(CRC8_NARROW[8 + 4 * Value(b2) + 2 * Value(b1) + Value(b0)])
         == Register(true, !b2, b2 == b1, b2 != (b1 != b0), b1 == b0, b2 != b0, b1, b0)
  {
  }

  lemma StepForm(c: Register, bit: bool)
    ensures var x := c.b7 != bit;
      Step(c, bit) == Register(c.b6, c.b5, c.b4, c.b3 != x, c.b2 != x, c.b1 != x, c.b0, x)
  {
    PolynomialRegister();
  }

  /** One table look-up replaces four steps. */
  lemma TableIsFourSteps(crc: Register, next: Register)
    ensures IterateTop4(crc, next) == Step(Step(Step(Step(crc, next.b7), next.b6), next.b5), next.b4)
  {
    hide Step, AsRegister;
    var x := Xor(crc, next);
    TableRegister(x.b7, x.b6, x.b5, x.b4);
    var c1 := Step(crc, next.b7);
    var c2 := Step(c1, next.b6);
    var c3 := Step(c2, next.b5);
    StepForm(crc, next.b7);
    StepForm(c1, next.b6);
    StepForm(c2, next.b5);
    StepForm(c3, next.b4);
  }

  lemma PolynomialRegister()
    ensures AsRegister(0x1D) == Register(false, false, false, true, true, true, false, true)
  {
  }

  lemma FourSteps(crc: Register, bits: seq<bool>)
    requires |bits| == 4
    ensures CrcBits(crc, bits) == Step(Step(Step(Step(crc, bits[0]), bits[1]), bits[2]), bits[3])
  {
    hide Step;
    var c1 := Step(crc, bits[0]);
    var c2 := Step(c1, bits[1]);
    var c3 := Step(c2, bits[2]);
    assert CrcBits(crc, bits) == CrcBits(c1, bits[1..]);
    assert CrcBits(c1, bits[1..]) == CrcBits(c2, bits[1..][1..]) && bits[1..][1..] == bits[2..];
    assert CrcBits(c2, bits[2..]) == CrcBits(c3, bits[2..][1..]) && bits[2..][1..] == bits[3..];
    assert CrcBits(c3, bits[3..]) == CrcBits(Step(c3, bits[3]), bits[3..][1..]) && bits[3..][1..] == [];
  }

  lemma {:induction false} CrcConcat(crc: Register, xs: seq<bool>, ys: seq<bool>)
    ensures CrcBits(crc, xs + ys) == CrcBits(CrcBits(crc, xs), ys)
    decreases xs
  {
    hide Step;
    if xs == [] {
      assert xs + ys == ys;
    } else {
      assert (xs + ys)[1..] == xs[1..] + ys;
      CrcConcat(Step(crc, xs[0]), xs[1..], ys);
    }
  }

  lemma IterateTop4IsFourSteps(crc: Register, b: byte)
    ensures IterateTop4(crc, AsRegister(b)) == CrcBits(crc, NatBits(b, 8)[..4])
  {
    hide Step, Bit, IterateTop4, NatBits;
    ByteBitsAre(b);
    TableIsFourSteps(crc, AsRegister(b));
    FourSteps(crc, NatBits(b, 8)[..4]);
  }

  lemma IterateIsEightSteps(crc: Register, b: byte)
    ensures Iterate(crc, AsRegister(b)) == CrcBits(crc, NatBits(b, 8))
  {
    hide Step, Bit, IterateTop4, NatBits;
    ByteBitsAre(b);
    var half := IterateTop4(crc, AsRegister(b));
    IterateTop4IsFourSteps(crc, b);
    TableIsFourSteps(half, ShiftLeft4(AsRegister(b)));
    FourSteps(half, NatBits(b, 8)[4..]);
    CrcConcat(crc, NatBits(b, 8)[..4], NatBits(b, 8)[4..]);
    assert NatBits(b, 8)[..4] + NatBits(b, 8)[4..] == NatBits(b, 8);
  }

  // ---- errors ----

  function Differences(xs: seq<bool>, ys: seq<bool>): (ds: seq<bool>)
    requires |xs| == |ys|
    ensures |ds| == |xs| && forall i :: 0 <= i < |xs| ==> (ds[i] <==> xs[i] != ys[i])
  {
    seq(|xs|, i requires 0 <= i < |xs| => xs[i] != ys[i])
  }

  lemma StepLinear(c: Register, d: Register, x: bool, y: bool)
    ensures Xor(Step(c, x), Step(d, y)) == Step(Xor(c, d), x != y)
  {
    hide Step;
    StepForm(c, x);
    StepForm(d, y);
    StepForm(Xor(c, d), x != y);
  }

  lemma {:induction false} CrcLinear(c: Register, d: Register, xs: seq<bool>, ys: seq<bool>)
    requires |xs| == |ys|
    ensures Xor(CrcBits(c, xs), CrcBits(d, ys)) == CrcBits(Xor(c, d), Differences(xs, ys))
    decreases xs
  {
    hide Step, Xor;
    if xs != [] {
      StepLinear(c, d, xs[0], ys[0]);
      CrcLinear(Step(c, xs[0]), Step(d, ys[0]), xs[1..], ys[1..]);
      assert Differences(xs, ys)[1..] == Differences(xs[1..], ys[1..]);
    }
  }

  predicate Silent(bits: seq<bool>) {
    forall i :: 0 <= i < |bits| ==> !bits[i]
  }

  lemma {:induction false} SilenceKeeps(crc: Register, bits: seq<bool>)
    requires Silent(bits)
    ensures CrcBits(crc, bits) == ZERO <==> crc == ZERO
    decreases bits
  {
    if bits != [] {
      SilenceStep(crc);
      SilenceKeeps(Step(crc, false), bits[1..]);
    }
  }

  lemma SilenceStep(crc: Register)
    ensures Step(crc, false) == ZERO <==> crc == ZERO
  {
    PolynomialRegister();
  }

  /** Eight bits that are not all zero leave a trace in a zero register: the low half of a
      table entry is zero only for index 0. */
  lemma EightBitsLeaveTrace(bits: seq<bool>)
    requires |bits| == 8 && !Silent(bits)
    ensures CrcBits(ZERO, bits) != ZERO
  {
    hide Step, CrcBits, AsRegister;
    CrcConcat(ZERO, bits[..4], bits[4..]);
    assert bits[..4] + bits[4..] == bits;
    FourSteps(ZERO, bits[..4]);
    var upper := Register(bits[0], bits[1], bits[2], bits[3], false, false, false, false);
    TableIsFourSteps(ZERO, upper);
    var half := IterateTop4(ZERO, upper);
    FourSteps(half, bits[4..]);
    var lower := Register(bits[4], bits[5], bits[6], bits[7], false, false, false, false);
    TableIsFourSteps(half, lower);
    TopTrace(ZERO, upper);
    TopTrace(half, lower);
    assert Silent(bits) || bits[0] || bits[1] || bits[2] || bits[3] || bits[4] || bits[5] || bits[6] || bits[7];
  }

  lemma TopTrace(crc: Register, next: Register)
    ensures IterateTop4(crc, next) == ZERO ==>
      !crc.b3 && !crc.b2 && !crc.b1 && !crc.b0 && crc.b7 == next.b7 && crc.b6 == next.b6 && crc.b5 == next.b5 && crc.b4 == next.b4
    ensures var r := IterateTop4(crc, next);
      !r.b3 && !r.b2 && !r.b1 && !r.b0 ==> crc.b7 == next.b7 && crc.b6 == next.b6 && crc.b5 == next.b5 && crc.b4 == next.b4
  {
    hide AsRegister;
    var x := Xor(crc, next);
    TableRegister(x.b7, x.b6, x.b5, x.b4);
  }

  /** A burst in otherwise silent bits is never forgotten. */
  lemma BurstLeavesTrace(ds: seq<bool>, start: nat)
    requires start + 8 <= |ds| && !Silent(ds)
    requires forall i :: 0 <= i < |ds| && !(start <= i < start + 8) ==> !ds[i]
    ensures CrcBits(ZERO, ds) != ZERO
  {
    hide Step, CrcBits;
    var a, b, c := ds[..start], ds[start..start + 8], ds[start + 8..];
    assert ds == a + (b + c);
    CrcConcat(ZERO, a, b + c);
    SilenceKeeps(ZERO, a);
    CrcConcat(ZERO, b, c);
    var i :| 0 <= i < |ds| && ds[i];
    assert b[i - start];
    EightBitsLeaveTrace(b);
    SilenceKeeps(CrcBits(ZERO, b), c);
  }

  /** Any error confined to eight neighbouring bits changes the checksum. */
  lemma BurstDetected(crc: Register, xs: seq<bool>, ys: seq<bool>, start: nat)
    requires |xs| == |ys| && start + 8 <= |xs| && xs != ys
    requires forall i :: 0 <= i < |xs| && !(start <= i < start + 8) ==> xs[i] == ys[i]
    ensures CrcBits(crc, xs) != CrcBits(crc, ys)
  {
    hide Step, CrcBits, Xor;
    var ds := Differences(xs, ys);
    var i :| 0 <= i < |xs| && xs[i] != ys[i];
    assert ds[i];
    BurstLeavesTrace(ds, start);
    CrcLinear(crc, crc, xs, ys);
    XorSelf(crc);
    XorSelf(CrcBits(crc, xs));
  }

  lemma XorSelf(c: Register)
    ensures Xor(c, c) == ZERO
  {
  }

  // ---- which bits are protected ----

  /** Bits of the bytes 1 to `i - 1`, without the checksum byte itself. */
  function ProtectedBytes(data: seq<byte>, i: nat): seq<bool>
    requires i <= |data|
  {
    if i <= 1 then []
    else ProtectedBytes(data, i - 1) + (if i - 1 == 3 then [] else NatBits(data[i - 1], 8))
  }

  /** Whole bytes under the checksum, byte 3 and the syncword included. */
  function ChecksumBytes(info: FrameInfo): nat {
    info.Lanes() / 2 + 4 + (if info.mode.Joint? && info.NrofSubbands() == 8 then 1 else 0)
  }

  /** Header, join bits and scale factors. */
  function ProtectedBits(info: FrameInfo, data: seq<byte>): seq<bool>
    requires ChecksumBytes(info) < |data|
  {
    var count := ChecksumBytes(info);
    ProtectedBytes(data, count) + (if info.mode.Joint? && info.NrofSubbands() == 4 then NatBits(data[count], 8)[..4] else [])
  }

  lemma {:induction false} ProtectedSame(data: seq<byte>, other: seq<byte>, i: nat)
    requires i <= |data| && i <= |other|
    requires forall k :: 1 <= k < i && k != 3 ==> data[k] == other[k]
    ensures ProtectedBytes(data, i) == ProtectedBytes(other, i)
  {
    if i > 1 {
      ProtectedSame(data, other, i - 1);
    }
  }

  /** The checksum sees the protected bytes only, not the syncword and not its own byte, and of the
      byte of the half join flags only the flags, and only when there are half join flags. */
  lemma ChecksumReads(info: FrameInfo, data: seq<byte>, other: seq<byte>)
    requires ChecksumBytes(info) < |data| && ChecksumBytes(info) < |other|
    requires forall k :: 1 <= k < ChecksumBytes(info) && k != 3 ==> data[k] == other[k]
    requires info.mode.Joint? && info.NrofSubbands() == 4 ==> data[ChecksumBytes(info)] / 16 == other[ChecksumBytes(info)] / 16
    ensures Checksum(info, data) == Checksum(info, other)
  {
    var n := ChecksumBytes(info);
    ProtectedSame(data, other, n);
    UpperHalf(data[n]);
    UpperHalf(other[n]);
  }

  lemma UpperHalf(b: byte)
    ensures NatBits(b, 8)[..4] == NatBits(b / 16, 4)
  {
    hide NatBits;
    assert Pow2(4) == 16 && b == 16 * (b / 16) + b % 16;
    NatBitsAppend(b / 16, 4, b % 16, 4);
  }

  /** The protected bits in one piece: header byte, bitpool, the bytes behind the checksum and
      the half join flags. */
  lemma ProtectedAre(info: FrameInfo, data: seq<byte>)
    requires ChecksumBytes(info) < |data|
    ensures var n := ChecksumBytes(info);
      ProtectedBits(info, data)
        == Unpack(data[1..3] + data[4..n]) + (if info.mode.Joint? && info.NrofSubbands() == 4 then NatBits(data[n] / 16, 4) else [])
  {
    hide NatBits, Unpack, ProtectedBytes, ChecksumBytes;
    var n := ChecksumBytes(info);
    HeadFits(info);
    ProtectedFrom(data, n);
    UpperHalf(data[n]);
  }

  lemma {:induction false} ProtectedFrom(data: seq<byte>, i: nat)
    requires 4 <= i <= |data|
    ensures ProtectedBytes(data, i) == Unpack(data[1..3] + data[4..i])
  {
    hide NatBits, Unpack;
    if i == 4 {
      assert data[1..3] + data[4..4] == [] + [data[1]] + [data[2]];
      UnpackNone();
      UnpackSnoc([], data[1]);
      UnpackSnoc([] + [data[1]], data[2]);
      assert ProtectedBytes(data, 1) == [] && ProtectedBytes(data, 2) == ProtectedBytes(data, 1) + NatBits(data[1], 8);
      assert ProtectedBytes(data, 3) == ProtectedBytes(data, 2) + NatBits(data[2], 8);
      assert ProtectedBytes(data, 4) == ProtectedBytes(data, 3) + [];
    } else {
      ProtectedFrom(data, i - 1);
      assert data[1..3] + data[4..i] == data[1..3] + data[4..i - 1] + [data[i - 1]];
      UnpackSnoc(data[1..3] + data[4..i - 1], data[i - 1]);
    }
  }

  lemma UnpackNone()
    ensures Unpack([]) == []
  {
  }

  function Checksum(info: FrameInfo, data: seq<byte>): byte
    requires ChecksumBytes(info) < |data|
  {
    AsByte(CrcBits(AsRegister(0x0F), ProtectedBits(info, data)))
  }

  /** The checksum loops of EncPacking. */
  method EncoderChecksum(info: FrameInfo, packet: seq<byte>) returns (crc: byte)
    requires ChecksumBytes(info) < |packet|
    ensures crc == Checksum(info, packet)
  {
    hide AsByte, AsRegister, CrcBits, NatBits;
    var register := AsRegister(0x0F);
    ghost var seed := register;
    var loopCount := info.Lanes() / 2;
    var temp := packet[1];
    var ch := 1;
    SeedBits(seed);
    while ch < loopCount + 4
      invariant 1 <= ch <= loopCount + 4 && temp == packet[ch]
      invariant register == CrcBits(seed, ProtectedBytes(packet, ch))
    {
      if ch != 3 {
        CrcConcat(seed, ProtectedBytes(packet, ch), NatBits(temp, 8));
        register := StepBits(register, temp, 8);
        assert NatBits(temp, 8)[..8] == NatBits(temp, 8);
      } else {
        assert ProtectedBytes(packet, 4) == ProtectedBytes(packet, 3);
      }
      ch := ch + 1;
      temp := packet[ch];
    }
    ghost var head := ProtectedBytes(packet, ch);
    if info.mode.Joint? {
      CrcConcat(seed, head, NatBits(temp, 8)[..info.NrofSubbands()]);
      register := StepBits(register, temp, info.NrofSubbands());
      if info.NrofSubbands() == 8 {
        assert NatBits(temp, 8)[..8] == NatBits(temp, 8);
        assert ProtectedBits(info, packet) == head + NatBits(temp, 8);
      }
    } else {
      assert ProtectedBits(info, packet) == head;
    }
    crc := AsByte(register);
  }

  lemma SeedBits(seed: Register)
    ensures CrcBits(seed, []) == seed
  {
  }

  /** The first `n` bits of a byte go into the register. */
  method StepBits(start: Register, temp: byte, n: nat) returns (crc: Register)
    requires n <= 8
    ensures crc == CrcBits(start, NatBits(temp, 8)[..n])
  {
    hide Step, Bit, NatBits, AsRegister, CrcBits;
    SeedBits(start);
    crc := start;
    ghost var bits := NatBits(temp, 8);
    var j := 7;
    while j >= 8 - n
      invariant 7 - n <= j <= 7
      invariant crc == CrcBits(start, bits[..7 - j])
    {
      BitOfByte(temp, j);
      assert bits[..8 - j] == bits[..7 - j] + [Bit(temp, j)];
      CrcConcat(start, bits[..7 - j], [Bit(temp, j)]);
      OneStep(crc, Bit(temp, j));
      crc := Step(crc, Bit(temp, j));
      j := j - 1;
    }
  }

  lemma OneStep(crc: Register, bit: bool)
    ensures CrcBits(crc, [bit]) == Step(crc, bit)
  {
    hide Step;
    SeedBits(Step(crc, bit));
    assert [bit][1..] == [];
  }

  /** OI_SBC_CalculateChecksum. */
  method CalculateChecksum(info: FrameInfo, data: seq<byte>) returns (crc: byte)
    requires ChecksumBytes(info) < |data|
    ensures crc == Checksum(info, data)
  {
    hide AsByte, AsRegister, CrcBits, NatBits, Iterate, IterateTop4;
    var register := AsRegister(0x0F);
    ghost var seed := register;
    SeedBits(seed);
    var count := info.Lanes() / 2 + 4;
    if info.mode.Joint? && info.NrofSubbands() == 8 {
      count := count + 1;
    }
    var i := 1;
    while i < count
      invariant 1 <= i <= count
      invariant register == CrcBits(seed, ProtectedBytes(data, i))
    {
      if i != 3 {
        CrcConcat(seed, ProtectedBytes(data, i), NatBits(data[i], 8));
        IterateIsEightSteps(register, data[i]);
        register := Iterate(register, AsRegister(data[i]));
      } else {
        assert ProtectedBytes(data, 4) == ProtectedBytes(data, 3);
      }
      i := i + 1;
    }
    if info.mode.Joint? && info.NrofSubbands() == 4 {
      CrcConcat(seed, ProtectedBytes(data, i), NatBits(data[i], 8)[..4]);
      IterateTop4IsFourSteps(register, data[i]);
      register := IterateTop4(register, AsRegister(data[i]));
    }
    assert ProtectedBytes(data, count) + [] == ProtectedBytes(data, count);
    crc := AsByte(register);
  }

  /** Frames of one layout whose protected bits differ only within eight neighbouring bits
      have different checksums. */
  lemma FrameBurstDetected(info: FrameInfo, xs: seq<byte>, ys: seq<byte>, start: nat)
    requires ChecksumBytes(info) < |xs| && ChecksumBytes(info) < |ys|
    requires var p, q := ProtectedBits(info, xs), ProtectedBits(info, ys);
      |p| == |q| && start + 8 <= |p| && p != q && forall i :: 0 <= i < |p| && !(start <= i < start + 8) ==> p[i] == q[i]
    ensures Checksum(info, xs) != Checksum(info, ys)
  {
    hide CrcBits, AsByte;
    var p, q := ProtectedBits(info, xs), ProtectedBits(info, ys);
    BurstDetected(AsRegister(0x0F), p, q, start);
    AsByteInjective(CrcBits(AsRegister(0x0F), p), CrcBits(AsRegister(0x0F), q));
  }

  /** One wrong byte is always noticed: the header byte, the bitpool, or any whole byte of join
      flags and scale factors. */
  lemma ByteChangeDetected(info: FrameInfo, xs: seq<byte>, ys: seq<byte>, k: nat)
    requires ChecksumBytes(info) < |xs| && ChecksumBytes(info) < |ys|
    requires k == 1 || k == 2 || 4 <= k < ChecksumBytes(info)
    requires xs[k] != ys[k] && forall i :: 1 <= i <= ChecksumBytes(info) && i != k && i != 3 ==> xs[i] == ys[i]
    ensures Checksum(info, xs) != Checksum(info, ys)
  {
    hide Unpack, NatBits, Checksum, ProtectedBits, ProtectedBytes;
    var n := ChecksumBytes(info);
    var us, vs := xs[1..3] + xs[4..n], ys[1..3] + ys[4..n];
    var m := if k < 3 then k - 1 else k - 2;
    forall i | 0 <= i < |us| && i != m ensures us[i] == vs[i] {
      assert us[i] == xs[if i < 2 then i + 1 else i + 2] && vs[i] == ys[if i < 2 then i + 1 else i + 2];
    }
    assert us[m] == xs[k] && vs[m] == ys[k];
    UnpackChange(us, vs, m);
    ProtectedAre(info, xs);
    ProtectedAre(info, ys);
    var p, q := ProtectedBits(info, xs), ProtectedBits(info, ys);
    assert p[..8 * |us|] == Unpack(us) && q[..8 * |us|] == Unpack(vs);
    FrameBurstDetected(info, xs, ys, 8 * m);
  }

  /** So is a wrong half byte of join flags. */
  lemma FlagChangeDetected(info: FrameInfo, xs: seq<byte>, ys: seq<byte>)
    requires info.mode.Joint? && info.NrofSubbands() == 4
    requires ChecksumBytes(info) < |xs| && ChecksumBytes(info) < |ys|
    requires xs[ChecksumBytes(info)] / 16 != ys[ChecksumBytes(info)] / 16
    requires forall i :: 1 <= i < ChecksumBytes(info) && i != 3 ==> xs[i] == ys[i]
    ensures Checksum(info, xs) != Checksum(info, ys)
  {
    hide Unpack, NatBits, Checksum, ProtectedBits, ProtectedBytes;
    var n := ChecksumBytes(info);
    assert xs[1..3] == ys[1..3] && xs[4..n] == ys[4..n];
    ProtectedAre(info, xs);
    ProtectedAre(info, ys);
    var us := xs[1..3] + xs[4..n];
    var p, q := ProtectedBits(info, xs), ProtectedBits(info, ys);
    if p == q {
      assert p[8 * |us|..] == NatBits(xs[n] / 16, 4) && q[8 * |us|..] == NatBits(ys[n] / 16, 4);
      assert Pow2(4) == 16;
      BitsValNatBits(xs[n] / 16, 4);
      BitsValNatBits(ys[n] / 16, 4);
      assert false;
    }
    assert forall i :: 0 <= i < 8 * |us| ==> p[i] == q[i];
    FrameBurstDetected(info, xs, ys, |p| - 8);
  }

  /** The seed is the same as 0x0F flipped into the header byte of a zero-seeded remainder. */
  lemma SeedFolded(info: FrameInfo, data: seq<byte>)
    requires ChecksumBytes(info) < |data|
    ensures var n := ChecksumBytes(info);
      Checksum(info, data) == AsByte(CrcBits(ZERO,
          Unpack([data[1] / 16 * 16 + (15 - data[1] % 16), data[2]] + data[4..n])
        + (if info.mode.Joint? && info.NrofSubbands() == 4 then NatBits(data[n] / 16, 4) else [])))
  {
    hide *;
    var n := ChecksumBytes(info);
    HeadFits(info);
    var flipped := data[1] / 16 * 16 + (15 - data[1] % 16);
    var tail := Unpack([data[2]] + data[4..n]) + (if info.mode.Joint? && info.NrofSubbands() == 4 then NatBits(data[n] / 16, 4) else []);
    ProtectedAre(info, data);
    assert data[1..3] + data[4..n] == [data[1]] + ([data[2]] + data[4..n]);
    assert [flipped, data[2]] + data[4..n] == [flipped] + ([data[2]] + data[4..n]);
    UnpackConcat([data[1]], [data[2]] + data[4..n]);
    UnpackConcat([flipped], [data[2]] + data[4..n]);
    UnpackOne(data[1]);
    UnpackOne(flipped);
    var body := Unpack([data[2]] + data[4..n]);
    var flags := if info.mode.Joint? && info.NrofSubbands() == 4 then NatBits(data[n] / 16, 4) else [];
    assert NatBits(data[1], 8) + body + flags == NatBits(data[1], 8) + (body + flags);
    assert NatBits(flipped, 8) + body + flags == NatBits(flipped, 8) + (body + flags);
    CrcConcat(AsRegister(0x0F), NatBits(data[1], 8), tail);
    CrcConcat(ZERO, NatBits(flipped, 8), tail);
    SeedIntoByte(data[1]);
    ChecksumIs(info, data);
  }

  lemma HeadFits(info: FrameInfo)
    ensures ChecksumBytes(info) >= 4
  {
  }

  lemma ChecksumIs(info: FrameInfo, data: seq<byte>)
    requires ChecksumBytes(info) < |data|
    ensures Checksum(info, data) == AsByte(CrcBits(AsRegister(0x0F), ProtectedBits(info, data)))
  {
  }

  lemma SeedIntoByte(b: byte)
    ensures CrcBits(AsRegister(0x0F), NatBits(b, 8)) == CrcBits(ZERO, NatBits(b / 16 * 16 + (15 - b % 16), 8))
  {
    hide AsRegister, CrcBits, NatBits, Xor;
    var c := b / 16 * 16 + (15 - b % 16);
    FlippedBits(b);
    CrcLinear(AsRegister(0x0F), ZERO, NatBits(b, 8), NatBits(c, 8));
    SelfCancels(0x0F);
    XorZero(AsRegister(0x0F));
    XorDifferent(CrcBits(AsRegister(0x0F), NatBits(b, 8)), CrcBits(ZERO, NatBits(c, 8)));
  }

  lemma XorZero(c: Register)
    ensures Xor(c, ZERO) == c
  {
  }

  lemma XorDifferent(c: Register, d: Register)
    requires Xor(c, d) == ZERO
    ensures c == d
  {
  }

  lemma FlippedBits(b: byte)
    ensures Differences(NatBits(b, 8), NatBits(b / 16 * 16 + (15 - b % 16), 8)) == NatBits(0x0F, 8)
  {
    hide NatBits, BitsVal;
    var h, l := b / 16, b % 16;
    var x, y := NatBits(l, 4), NatBits(15 - l, 4);
    assert Pow2(4) == 16 && b == 16 * h + l;
    NatBitsAppend(h, 4, l, 4);
    NatBitsAppend(h, 4, 15 - l, 4);
    NatBitsAppend(0, 4, 15, 4);
    FlippedNibble(l);
    assert NatBits(0x0F, 8) == NatBits(0, 4) + NatBits(15, 4);
    forall i | 0 <= i < 8 ensures Differences(NatBits(h, 4) + x, NatBits(h, 4) + y)[i] == (NatBits(0, 4) + NatBits(15, 4))[i] {
      if i < 4 {
        NatBitsAt(0, 4, i);
      } else {
        assert x[i - 4] != y[i - 4] && NatBits(15, 4)[i - 4];
      }
    }
  }

  lemma FlippedNibble(l: nat)
    requires l < 16
    ensures forall i :: 0 <= i < 4 ==> NatBits(l, 4)[i] != NatBits(15 - l, 4)[i] && NatBits(15, 4)[i]
  {
    hide NatBits;
    assert Pow2(0) == 1 && Pow2(1) == 2 && Pow2(2) == 4 && Pow2(3) == 8;
    forall i | 0 <= i < 4 ensures NatBits(l, 4)[i] != NatBits(15 - l, 4)[i] && NatBits(15, 4)[i] {
      NatBitsAt(l, 4, i);
      NatBitsAt(15 - l, 4, i);
      NatBitsAt(15, 4, i);
    }
  }

  /** Feeding a register its own bits clears it. */
  lemma SelfCancels(b: byte)
    ensures CrcBits(AsRegister(b), NatBits(b, 8)) == ZERO
  {
    hide CrcBits, NatBits, AsRegister;
    var c := AsRegister(b);
    IterateIsEightSteps(c, b);
    CancelTop(c, c);
    CancelTop(ShiftLeft4(c), ShiftLeft4(c));
  }

  lemma CancelTop(crc: Register, next: Register)
    requires crc == next
    ensures IterateTop4(crc, next) == ShiftLeft4(crc)
  {
    hide AsRegister;
    TableRegister(false, false, false, false);
  }

  /** The checksum of the silent mono frame of four subbands, four blocks and bitpool 2. */
  lemma SilentFrameChecksum(info: FrameInfo, data: seq<byte>)
    requires info.mode.Mono? && info.NrofSubbands() == 4
    requires |data| >= 7 && data[1] == 0x00 && data[2] == 0x02 && data[4] == data[5] == 0x00
    ensures Checksum(info, data) == 0x6B
  {
    hide Unpack, NatBits, CrcBits, AsRegister, AsByte;
    ProtectedAre(info, data);
    var none, pool := data[1], data[2];
    assert data[1..3] + data[4..6] == [none] + [pool] + [none] + [none];
    UnpackConcat([none] + [pool] + [none], [none]);
    UnpackConcat([none] + [pool], [none]);
    UnpackConcat([none], [pool]);
    UnpackOne(none);
    UnpackOne(pool);
    var zeros, two := NatBits(0x00, 8), NatBits(0x02, 8);
    var seed := AsRegister(0x0F);
    CrcConcat(seed, zeros + two + zeros, zeros);
    CrcConcat(seed, zeros + two, zeros);
    CrcConcat(seed, zeros, two);
    assert ProtectedBits(info, data) == zeros + two + zeros + zeros;
    BytesTaken();
  }

  lemma BytesTaken()
    ensures AsByte(CrcBits(CrcBits(CrcBits(CrcBits(AsRegister(0x0F), NatBits(0x00, 8)), NatBits(0x02, 8)), NatBits(0x00, 8)), NatBits(0x00, 8))) == 0x6B
  {
    hide NatBits, CrcBits, AsRegister, IterateTop4;
    var c0 := AsRegister(0x0F);
    var c1 := CrcBits(c0, NatBits(0x00, 8));
    var c2 := CrcBits(c1, NatBits(0x02, 8));
    var c3 := CrcBits(c2, NatBits(0x00, 8));
    ConcreteBytes();
    IterateIsEightSteps(c0, 0x00);
    IterateIsEightSteps(c1, 0x02);
    IterateIsEightSteps(c2, 0x00);
    IterateIsEightSteps(c3, 0x00);
    var two := ShiftLeft4(AsRegister(0x02));
    TopForm(c0, ZERO);
    TopForm(IterateTop4(c0, ZERO), ZERO);
    TopForm(c1, AsRegister(0x02));
    TopForm(IterateTop4(c1, AsRegister(0x02)), two);
    TopForm(c2, ZERO);
    TopForm(IterateTop4(c2, ZERO), ZERO);
    TopForm(c3, ZERO);
    TopForm(IterateTop4(c3, ZERO), ZERO);
  }

  lemma TopForm(c: Register, next: Register)
    ensures var x3, x2, x1, x0 := c.b7 != next.b7, c.b6 != next.b6, c.b5 != next.b5, c.b4 != next.b4;
      IterateTop4(c, next) == Register(c.b3 != x3, c.b2 != (x3 != x2), c.b1 != (x3 != (x2 != x1)), c.b0 != (x2 != (x1 != x0)),
                                       x3 != (x1 != x0), x2 != x0, x1, x0)
  {
    hide AsRegister;
    TableRegister(c.b7 != next.b7, c.b6 != next.b6, c.b5 != next.b5, c.b4 != next.b4);
  }

  lemma ConcreteBytes()
    ensures AsRegister(0x00) == ZERO && AsRegister(0x02) == ZERO.(b1 := true)
    ensures AsRegister(0x0F) == Register(false, false, false, false, true, true, true, true)
  {
  }

  lemma AsByteInjective(r: Register, s: Register)
    ensures AsByte(r) == AsByte(s) ==> r == s
  {
    hide AsByte, HighNibble;
    AsByteHalves(r);
    AsByteHalves(s);
    if AsByte(r) == AsByte(s) {
      NibbleInjective(r, s);
      NibbleInjective(ShiftLeft4(r), ShiftLeft4(s));
    }
  }

  lemma NibbleInjective(r: Register, s: Register)
    requires HighNibble(r) == HighNibble(s)
    ensures r.b7 == s.b7 && r.b6 == s.b6 && r.b5 == s.b5 && r.b4 == s.b4
  {
  }

  /** A byte fixes its two nibbles, and a nibble its bits. */
  lemma AsByteHalves(r: Register)
    ensures AsByte(r) / 16 == HighNibble(r) && AsByte(r) % 16 == HighNibble(ShiftLeft4(r))
  {
  }
}
