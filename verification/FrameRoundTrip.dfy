/** A frame survives the link: what EncPacking packs is what the decoder's readers return. */
module FrameRoundTrip {
  import opened Bits
  import opened BitStrings
  import opened BitReader
  import opened Frames
  import opened FrameLayout
  import opened Allocation
  import opened BitNeeds
  import opened FrameLengths
  import opened Dequantiser
  import opened FrameReader
  import opened JointReader
  import opened FrameDecoder
  import Crc

  /** The packet lies in the memory; the bytes around it are arbitrary. */
  ghost predicate Holds(mem: Memory, data: nat, packet: seq<byte>) {
    forall i :: 0 <= i < |packet| ==> mem(data + i) == packet[i]
  }

  lemma {:induction false} MemoryBits(mem: Memory, data: nat, packet: seq<byte>)
    requires Holds(mem, data, packet)
    ensures BitsAt(mem, 8 * data, 8 * |packet|) == Unpack(packet)
  {
    hide NatBits, BitAt;
    if packet != [] {
      var n := |packet| - 1;
      assert packet == packet[..n] + [packet[n]];
      MemoryBits(mem, data, packet[..n]);
      BitsAtSplit(mem, 8 * data, 8 * n, 8);
      BitsAtByte(mem, data + n);
      assert 8 * data + 8 * n == 8 * (data + n);
      UnpackSnoc(packet[..n], packet[n]);
    }
  }

  /** Each field can be read where the fields before it end. */
  lemma FieldInMemory(mem: Memory, pos: nat, vs: seq<nat>, ws: seq<nat>, k: nat)
    requires FieldsFit(vs, ws) && k < |vs|
    requires BitsAt(mem, pos, Width(ws)) == FieldBits(vs, ws)
    ensures BitsVal(BitsAt(mem, pos + Width(ws[..k]), ws[k])) == vs[k]
  {
    hide NatBits, BitsVal, BitAt, FieldBits, Width, Pow2;
    FieldAt(vs, ws, k);
    BitsAtSlice(mem, pos, Width(ws), Width(ws[..k]), ws[k]);
    BitsValNatBits(vs[k], ws[k]);
    ModUnique(vs[k], Pow2(ws[k]), 0, vs[k]);
  }

  lemma BitsAtSlice(mem: Memory, pos: nat, n: nat, a: nat, w: nat)
    requires a + w <= n
    ensures BitsAt(mem, pos + a, w) == BitsAt(mem, pos, n)[a..a + w]
  {
    hide BitAt;
  }

  /** The body of a frame in memory. */
  lemma BodyInMemory(mem: Memory, data: nat, info: FrameInfo, c: Content, bits: seq<nat>, packet: seq<byte>, pad: nat)
    requires info.Valid() && Shaped(info, c, bits) && IsFrame(info, c, bits, packet, pad) && Holds(mem, data, packet)
    ensures BitsAt(mem, 8 * (data + 4), Width(BodyWidths(info, bits))) == FieldBits(BodyValues(info, c), BodyWidths(info, bits))
  {
    assert |bits| == info.Lanes() && |BodyValues(info, c)| == |BodyWidths(info, bits)|;
    hide NatBits, BitAt, FieldBits, Width, Unpack, BodyWidths, BodyValues, Shaped, HeaderByte;
    var tail := packet[4..];
    assert Holds(mem, data + 4, tail) by {
      forall i | 0 <= i < |tail| ensures mem(data + 4 + i) == tail[i] {
        assert mem(data + (4 + i)) == packet[4 + i];
      }
    }
    MemoryBits(mem, data + 4, tail);
    var w := Width(BodyWidths(info, bits));
    assert |Unpack(tail)| == w + pad;
    BitsAtSplit(mem, 8 * (data + 4), w, pad);
    assert (BitsAt(mem, 8 * (data + 4), w) + BitsAt(mem, 8 * (data + 4) + w, pad))[..w] == (Body(info, c, bits) + seq(pad, _ => false))[..w];
  }

  // ---- where the fields are ----

  function JoinCount(info: FrameInfo): nat {
    if info.mode.Joint? then 1 else 0
  }

  lemma BodyPosition(info: FrameInfo, c: Content, bits: seq<nat>)
    requires Shaped(info, c, bits)
    ensures |BodyValues(info, c)| == |BodyWidths(info, bits)| == JoinCount(info) + info.Lanes() + SampleCount(info)
    ensures info.mode.Joint? ==>
      && BodyValues(info, c)[0] == JoinValue(c.join) && BodyWidths(info, bits)[0] == info.NrofSubbands()
      && Width(BodyWidths(info, bits)[..0]) == 0
  {
    hide SampleWidths, JoinValue;
  }

  lemma ScaleFactorPosition(info: FrameInfo, c: Content, bits: seq<nat>, i: nat)
    requires Shaped(info, c, bits) && i < info.Lanes()
    ensures var k := JoinCount(info) + i;
      && k < |BodyWidths(info, bits)| == |BodyValues(info, c)|
      && BodyValues(info, c)[k] == c.sfs[i] && BodyWidths(info, bits)[k] == 4
      && Width(BodyWidths(info, bits)[..k]) == JoinBits(info) + 4 * i
  {
    hide SampleWidths, JoinValue, Width;
    var js: seq<nat> := if info.mode.Joint? then [info.NrofSubbands()] else [];
    assert BodyWidths(info, bits)[..JoinCount(info) + i] == js + seq(i, _ => 4);
    WidthConcat(js, seq(i, _ => 4));
    FoursWidth(i);
    JoinWidth(info);
  }

  lemma JoinWidth(info: FrameInfo)
    ensures Width(if info.mode.Joint? then [info.NrofSubbands()] else []) == JoinBits(info)
  {
    if info.mode.Joint? {
      assert [info.NrofSubbands()][..0] == [];
    }
  }

  lemma SamplePlace(info: FrameInfo, c: Content, bits: seq<nat>, k: nat)
    requires Shaped(info, c, bits) && k < SampleCount(info)
    ensures var j := JoinCount(info) + info.Lanes() + k;
      && j < |BodyWidths(info, bits)| == |BodyValues(info, c)|
      && BodyValues(info, c)[j] == c.samples[k] && BodyWidths(info, bits)[j] == SampleWidths(info, bits)[k]
      && Width(BodyWidths(info, bits)[..j]) == HeadWidth(info) + Width(SampleWidths(info, bits)[..k])
  {
    hide SampleWidths, JoinValue, Width;
    var js: seq<nat> := if info.mode.Joint? then [info.NrofSubbands()] else [];
    var fours := seq(info.Lanes(), _ => 4);
    var ws := SampleWidths(info, bits);
    assert BodyWidths(info, bits)[..JoinCount(info) + info.Lanes() + k] == js + fours + ws[..k];
    WidthConcat(js + fours, ws[..k]);
    WidthConcat(js, fours);
    FoursWidth(info.Lanes());
    JoinWidth(info);
  }

  // ---- reading what was packed ----

  /** Join flags and scale factors come back. */
  lemma HeadReads(mem: Memory, data: nat, info: FrameInfo, c: Content, bits: seq<nat>, packet: seq<byte>, pad: nat)
    requires info.Valid() && Shaped(info, c, bits) && IsFrame(info, c, bits, packet, pad) && Holds(mem, data, packet)
    ensures SfsAt(mem, data + 4, info) == c.sfs
    ensures info.mode.Joint? ==> JoinAt(mem, data + 4, info) == JoinValue(c.join)
  {
    hide IsFrame, Holds, BodyWidths, BodyValues, BitsVal, BitsAt, Width, FieldBits, JoinValue;
    var vs, ws, pos := BodyValues(info, c), BodyWidths(info, bits), 8 * (data + 4);
    BodyInMemory(mem, data, info, c, bits, packet, pad);
    BodyFieldsFit(info, c, bits);
    BodyPosition(info, c, bits);
    if info.mode.Joint? {
      FieldInMemory(mem, pos, vs, ws, 0);
    }
    forall i | 0 <= i < info.Lanes() ensures SfsAt(mem, data + 4, info)[i] == c.sfs[i] {
      ScaleFactorPosition(info, c, bits, i);
      FieldInMemory(mem, pos, vs, ws, JoinCount(info) + i);
    }
  }

  /** A scale factor is a half byte of the packet. */
  lemma NibbleReads(mem: Memory, data: nat, info: FrameInfo, c: Content, bits: seq<nat>, packet: seq<byte>, pad: nat, i: nat, p: nat)
    requires info.Valid() && Shaped(info, c, bits) && IsFrame(info, c, bits, packet, pad) && Holds(mem, data, packet)
    requires i < info.Lanes()
    ensures JoinBits(info) + 4 * i == 8 * p ==> mem(data + 4 + p) / 16 == c.sfs[i]
    ensures JoinBits(info) + 4 * i == 8 * p + 4 ==> mem(data + 4 + p) % 16 == c.sfs[i]
  {
    hide *;
    HeadReads(mem, data, info, c, bits, packet, pad);
    HighLow(mem, data + 4 + p);
    NibbleOfSfs(mem, data + 4, info, i);
  }

  lemma NibbleOfSfs(mem: Memory, body: nat, info: FrameInfo, i: nat)
    requires i < info.Lanes()
    ensures SfsAt(mem, body, info)[i] == NibbleAt(mem, 8 * body + JoinBits(info) + 4 * i)
  {
    hide NibbleAt;
  }

  lemma LayoutOf(info: FrameInfo)
    ensures info.Lanes() == 4 || info.Lanes() == 8 || info.Lanes() == 16
    ensures JoinBits(info) == (if info.mode.Joint? then info.NrofSubbands() else 0)
    ensures info.NrofSubbands() == 4 || info.NrofSubbands() == 8
    ensures info.mode.Joint? ==> info.Lanes() == 2 * info.NrofSubbands()
  {
  }

  /** The bytes behind the header when there are no join flags: two scale factors each, the
      earlier in the upper half. */
  lemma PlainHeadBytes(mem: Memory, data: nat, info: FrameInfo, c: Content, bits: seq<nat>, packet: seq<byte>, pad: nat)
    requires info.Valid() && Shaped(info, c, bits) && IsFrame(info, c, bits, packet, pad) && Holds(mem, data, packet)
    requires !info.mode.Joint?
    ensures |c.sfs| == info.Lanes() && forall i :: 0 <= i < info.Lanes() / 2 ==> mem(data + 4 + i) == 16 * c.sfs[2 * i] + c.sfs[2 * i + 1]
  {
    hide *;
    LayoutOf(info);
    ShapedSizes(info, c, bits);
    forall i | 0 <= i < info.Lanes() / 2 ensures mem(data + 4 + i) == 16 * c.sfs[2 * i] + c.sfs[2 * i + 1] {
      NibbleReads(mem, data, info, c, bits, packet, pad, 2 * i, i);
      NibbleReads(mem, data, info, c, bits, packet, pad, 2 * i + 1, i);
    }
  }

  lemma ShapedSizes(info: FrameInfo, c: Content, bits: seq<nat>)
    requires Shaped(info, c, bits)
    ensures |c.sfs| == info.Lanes() && |c.join| == JoinBits(info)
  {
  }

  /** With eight subbands the join flags fill the first byte, that of subband 0 on top. */
  lemma JointHeadBytes8(mem: Memory, data: nat, info: FrameInfo, c: Content, bits: seq<nat>, packet: seq<byte>, pad: nat)
    requires info.Valid() && Shaped(info, c, bits) && IsFrame(info, c, bits, packet, pad) && Holds(mem, data, packet)
    requires info.mode.Joint? && info.NrofSubbands() == 8
    ensures |c.join| == 8 && |c.sfs| == 16
    ensures var j := c.join;
      mem(data + 4) == 128 * j[0] + 64 * j[1] + 32 * j[2] + 16 * j[3] + 8 * j[4] + 4 * j[5] + 2 * j[6] + j[7]
    ensures forall i :: 0 <= i < 8 ==> mem(data + 5 + i) == 16 * c.sfs[2 * i] + c.sfs[2 * i + 1]
  {
    hide *;
    LayoutOf(info);
    ShapedSizes(info, c, bits);
    HeadReads(mem, data, info, c, bits, packet, pad);
    WholeByte(mem, data + 4);
    JoinHere(mem, data + 4, info);
    EightFlags(c.join);
    forall i | 0 <= i < 8 ensures mem(data + 5 + i) == 16 * c.sfs[2 * i] + c.sfs[2 * i + 1] {
      NibbleReads(mem, data, info, c, bits, packet, pad, 2 * i, i + 1);
      NibbleReads(mem, data, info, c, bits, packet, pad, 2 * i + 1, i + 1);
      assert data + 4 + (i + 1) == data + 5 + i;
    }
  }

  /** With four they fill the upper half of it, and the scale factors follow half a byte later. */
  lemma JointHeadBytes4(mem: Memory, data: nat, info: FrameInfo, c: Content, bits: seq<nat>, packet: seq<byte>, pad: nat)
    requires info.Valid() && Shaped(info, c, bits) && IsFrame(info, c, bits, packet, pad) && Holds(mem, data, packet)
    requires info.mode.Joint? && info.NrofSubbands() == 4
    ensures |c.join| == 4 && |c.sfs| == 8
    ensures mem(data + 4) == 128 * c.join[0] + 64 * c.join[1] + 32 * c.join[2] + 16 * c.join[3] + c.sfs[0]
    ensures forall i :: 0 <= i < 3 ==> mem(data + 5 + i) == 16 * c.sfs[2 * i + 1] + c.sfs[2 * i + 2]
    ensures mem(data + 8) / 16 == c.sfs[7]
  {
    hide *;
    LayoutOf(info);
    ShapedSizes(info, c, bits);
    HeadReads(mem, data, info, c, bits, packet, pad);
    JoinHere(mem, data + 4, info);
    NibbleIs(mem, 8 * (data + 4));
    HighLow(mem, data + 4);
    FourFlags(c.join);
    NibbleReads(mem, data, info, c, bits, packet, pad, 0, 0);
    forall i | 0 <= i < 3 ensures mem(data + 5 + i) == 16 * c.sfs[2 * i + 1] + c.sfs[2 * i + 2] {
      NibbleReads(mem, data, info, c, bits, packet, pad, 2 * i + 1, i + 1);
      NibbleReads(mem, data, info, c, bits, packet, pad, 2 * i + 2, i + 1);
      assert data + 4 + (i + 1) == data + 5 + i;
    }
    NibbleReads(mem, data, info, c, bits, packet, pad, 7, 4);
  }

  lemma JoinHere(mem: Memory, body: nat, info: FrameInfo)
    requires info.mode.Joint?
    ensures JoinAt(mem, body, info) == BitsVal(BitsAt(mem, 8 * body, info.NrofSubbands()))
  {
  }

  lemma FourFlags(j: seq<nat>)
    requires |j| == 4
    ensures JoinValue(j) == 8 * j[0] + 4 * j[1] + 2 * j[2] + j[3]
  {
    assert j[..3][..2] == j[..2] && j[..2][..1] == j[..1] && j[..1][..0] == [];
    assert JoinValue(j[..1]) == j[0] && JoinValue(j[..2]) == 2 * j[0] + j[1];
    assert JoinValue(j[..3]) == 2 * JoinValue(j[..2]) + j[2];
  }

  lemma EightFlags(j: seq<nat>)
    requires |j| == 8
    ensures JoinValue(j) == 128 * j[0] + 64 * j[1] + 32 * j[2] + 16 * j[3] + 8 * j[4] + 4 * j[5] + 2 * j[6] + j[7]
  {
    FourFlags(j[..4]);
    assert j[..7][..6] == j[..6] && j[..6][..5] == j[..5] && j[..5][..4] == j[..4];
    assert JoinValue(j[..5]) == 2 * JoinValue(j[..4]) + j[4];
    assert JoinValue(j[..6]) == 2 * JoinValue(j[..5]) + j[5];
    assert JoinValue(j[..7]) == 2 * JoinValue(j[..6]) + j[6];
  }

  /** Every quantised sample comes back. */
  lemma SampleReads(mem: Memory, data: nat, info: FrameInfo, c: Content, bits: seq<nat>, packet: seq<byte>, pad: nat,
                    k: nat)
    requires info.Valid() && Shaped(info, c, bits) && IsFrame(info, c, bits, packet, pad) && Holds(mem, data, packet)
    requires k < SampleCount(info)
    ensures RawAt(mem, 8 * (data + 4) + HeadWidth(info), info, bits, k) == c.samples[k]
  {
    hide IsFrame, Holds, BodyWidths, BodyValues, BitsVal, BitsAt, Width, FieldBits, JoinValue, HeadWidth, SampleWidths;
    var vs, ws, pos := BodyValues(info, c), BodyWidths(info, bits), 8 * (data + 4);
    BodyInMemory(mem, data, info, c, bits, packet, pad);
    BodyFieldsFit(info, c, bits);
    SamplePlace(info, c, bits, k);
    FieldInMemory(mem, pos, vs, ws, JoinCount(info) + info.Lanes() + k);
  }

  /** The sample of lane `ch` in block `row` lies behind all bits of the blocks before it and the
      bits of the lanes before it, left subbands first. */
  lemma SamplePlaced(mem: Memory, data: nat, info: FrameInfo, c: Content, bits: seq<nat>, packet: seq<byte>, pad: nat,
                     row: nat, ch: nat)
    requires info.Valid() && Shaped(info, c, bits) && IsFrame(info, c, bits, packet, pad) && Holds(mem, data, packet)
    requires row < info.NrofBlocks() && ch < info.Lanes()
    ensures |bits| == info.Lanes() && row * info.Lanes() + ch < |c.samples|
    ensures BitsVal(BitsAt(mem, 8 * (data + 4) + HeadWidth(info) + row * Sum(bits) + Sum(bits[..ch]), bits[ch]))
         == c.samples[row * info.Lanes() + ch]
  {
    hide *;
    ShapedLanes(info, c, bits);
    RowFits(info, row);
    RowLane(info, row, ch);
    RowIs(info, row, bits);
    WidthsBefore(info, bits, row, ch);
    SampleReads(mem, data, info, c, bits, packet, pad, RowStart(info, row) + ch);
    RawHere(mem, 8 * (data + 4) + HeadWidth(info), info, bits, RowStart(info, row) + ch);
  }

  lemma ShapedLanes(info: FrameInfo, c: Content, bits: seq<nat>)
    requires Shaped(info, c, bits)
    ensures |bits| == info.Lanes() && |c.samples| == SampleCount(info)
  {
  }

  lemma RowIs(info: FrameInfo, row: nat, bits: seq<nat>)
    ensures RowStart(info, row) == row * info.Lanes() && BlockBits(bits, row) == row * Sum(bits)
  {
  }

  lemma RawHere(mem: Memory, base: nat, info: FrameInfo, bits: seq<nat>, k: nat)
    requires |bits| == info.Lanes() && k < SampleCount(info)
    ensures RawAt(mem, base, info, bits, k)
         == BitsVal(BitsAt(mem, base + Width(SampleWidths(info, bits)[..k]), bits[k % info.Lanes()]))
  {
    hide BitsVal, BitsAt, Width;
  }

  /** The decoder derives the bit counts the encoder used, and with them the sent samples. */
  lemma SentReads(mem: Memory, data: nat, info: FrameInfo, c: Content, bits: seq<nat>, packet: seq<byte>, pad: nat,
                  k: nat)
    requires info.Valid() && PoolFits(info) && Shaped(info, c, bits) && IsFrame(info, c, bits, packet, pad)
    requires Holds(mem, data, packet)
    requires bits == FrameBits(info, c.sfs) && k < SampleCount(info)
    ensures LanesValid(info, c.sfs, bits)
    ensures SentAt(mem, data + 4, info)[k] == Dequant(c.samples[k], c.sfs[k % info.Lanes()], bits[k % info.Lanes()])
  {
    hide *;
    HeadReads(mem, data, info, c, bits, packet, pad);
    SampleReads(mem, data, info, c, bits, packet, pad, k);
    LanesReadable(info, c.sfs);
    SentHere(mem, data + 4, info);
    SentIsDequantised(mem, 8 * (data + 4) + HeadWidth(info), info, c.sfs, bits, k);
  }

  lemma SentIsDequantised(mem: Memory, base: nat, info: FrameInfo, sfs: seq<nat>, bits: seq<nat>, k: nat)
    requires LanesValid(info, sfs, bits) && k < SampleCount(info)
    ensures Sent(mem, base, info, sfs, bits)[k] == Dequant(RawAt(mem, base, info, bits, k), sfs[k % info.Lanes()], bits[k % info.Lanes()])
  {
    hide Dequant, RawAt;
  }

  // ---- what the checksum of a packet covers ----

  /** The header byte, the bitpool and every bit of the join flags and scale factors, in order. */
  lemma ChecksumCoversHead(info: FrameInfo, c: Content, bits: seq<nat>, packet: seq<byte>, pad: nat)
    requires info.Valid() && Shaped(info, c, bits) && IsFrame(info, c, bits, packet, pad)
    requires Crc.ChecksumBytes(info) < |packet|
    ensures HeadWidth(info) <= |Body(info, c, bits)|
    ensures Crc.Checksum(info, packet) == Crc.AsByte(Crc.CrcBits(Crc.AsRegister(0x0F),
        NatBits(packet[1], 8) + NatBits(packet[2], 8) + Body(info, c, bits)[..HeadWidth(info)]))
  {
    hide *;
    var n := Crc.ChecksumBytes(info);
    HeadInBytes(info, n);
    BodyOfPacket(info, c, bits, packet, pad);
    Crc.ChecksumIs(info, packet);
    Crc.ProtectedAre(info, packet);
    var b1, b2, fields := packet[1], packet[2], packet[4..];
    assert packet[1..3] + packet[4..n] == [b1] + ([b2] + packet[4..n]);
    UnpackConcat([b1], [b2] + packet[4..n]);
    UnpackConcat([b2], packet[4..n]);
    UnpackOne(b1);
    UnpackOne(b2);
    FieldsBefore(fields, n - 4);
    assert fields[..n - 4] == packet[4..n] && fields[n - 4] == packet[n];
    var body, head := Unpack(fields), HeadWidth(info);
    assert body[..head] == Body(info, c, bits)[..head];
    var x, y, z := NatBits(b1, 8), NatBits(b2, 8), body[..8 * (n - 4)];
    if info.mode.Joint? && info.NrofSubbands() == 4 {
      var flags := NatBits(packet[n] / 16, 4);
      assert body[..head] == z + flags;
      assert x + (y + z) + flags == x + y + (z + flags);
    } else {
      assert x + (y + z) + [] == x + y + z;
    }
  }

  lemma HeadInBytes(info: FrameInfo, n: nat)
    requires n == Crc.ChecksumBytes(info)
    ensures n >= 4 && HeadWidth(info) == 8 * (n - 4) + (if info.mode.Joint? && info.NrofSubbands() == 4 then 4 else 0)
  {
  }

  lemma BodyOfPacket(info: FrameInfo, c: Content, bits: seq<nat>, packet: seq<byte>, pad: nat)
    requires info.Valid() && Shaped(info, c, bits) && IsFrame(info, c, bits, packet, pad)
    ensures |packet| >= 4 && Unpack(packet[4..]) == Body(info, c, bits) + seq(pad, _ => false)
    ensures HeadWidth(info) <= |Body(info, c, bits)|
  {
    assert |bits| == info.Lanes();
    hide Unpack, Width, SampleWidths, Shaped;
    var js: seq<nat> := if info.mode.Joint? then [info.NrofSubbands()] else [];
    WidthConcat(js + seq(info.Lanes(), _ => 4), SampleWidths(info, bits));
    WidthConcat(js, seq(info.Lanes(), _ => 4));
    FoursWidth(info.Lanes());
    JoinWidth(info);
  }

  lemma FieldsBefore(fields: seq<byte>, n: nat)
    requires n < |fields|
    ensures Unpack(fields)[..8 * n] == Unpack(fields[..n])
    ensures Unpack(fields)[8 * n..8 * n + 4] == NatBits(fields[n] / 16, 4)
  {
    hide Unpack, NatBits;
    assert fields == fields[..n] + ([fields[n]] + fields[n + 1..]);
    UnpackConcat(fields[..n], [fields[n]] + fields[n + 1..]);
    UnpackConcat([fields[n]], fields[n + 1..]);
    UnpackOne(fields[n]);
    Crc.UpperHalf(fields[n]);
  }
}
