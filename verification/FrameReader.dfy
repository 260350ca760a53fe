/** The decoder's frame reader: header, scale factors, samples. */
module FrameReader {
  import opened Bits
  import opened BitStrings
  import opened BitReader
  import opened Frames
  import opened FrameLayout
  import opened FrameHeader
  import opened DecoderContexts
  import opened Dequantiser

  /** OI_SBC_ReadHeader for the standard syncword: the fields are only taken apart again when
      the header byte differs from the remembered one. */
  method ReadHeader(common: CommonContext, mem: Memory, data: nat)
    requires common.Valid() && common.CacheValid()
    modifies common`info, common`cachedInfo, common`crc
    ensures common.Valid() && common.CacheValid()
    ensures common.info == ParseHeader(mem(data + 1), mem(data + 2)) && common.crc == mem(data + 3)
    ensures HeaderSays(mem(data + 1), common.info) && common.info.bitpool == mem(data + 2)
  {
    hide ParseHeader, HeaderSays;
    var d1 := mem(data + 1);
    HeaderMeaning(d1, mem(data + 2));
    ExpandedOnce(d1, common.info.bitpool, mem(data + 2));
    if d1 != common.cachedInfo {
      common.info := ParseHeader(d1, common.info.bitpool);
      common.cachedInfo := d1;
    }
    common.info := common.info.(bitpool := mem(data + 2));
    common.crc := mem(data + 3);
  }

  /** The bitpool byte is independent of the fields of the header byte. */
  lemma ExpandedOnce(d1: byte, bitpool: byte, newPool: byte)
    ensures ParseHeader(d1, bitpool).(bitpool := newPool) == ParseHeader(d1, newPool)
  {
  }

  // ---- scale factors ----

  /** A half byte of the memory. */
  function NibbleAt(mem: Memory, pos: nat): (v: nat) {
    BitsVal(BitsAt(mem, pos, 4))
  }

  lemma HighLow(mem: Memory, p: nat)
    ensures NibbleAt(mem, 8 * p) == mem(p) / 16 && NibbleAt(mem, 8 * p + 4) == mem(p) % 16
  {
    hide NatBits, BitsVal, BitAt;
    var b := mem(p);
    BitsAtByte(mem, p);
    BitsAtSplit(mem, 8 * p, 4, 4);
    assert Pow2(4) == 16;
    assert b == 16 * (b / 16) + b % 16;
    NatBitsAppend(b / 16, 4, b % 16, 4);
    BitsValNatBits(b / 16, 4);
    BitsValNatBits(b % 16, 4);
    assert BitsAt(mem, 8 * p, 4) == NatBits(b, 8)[..4] && BitsAt(mem, 8 * p + 4, 4) == NatBits(b, 8)[4..];
  }

  lemma WholeByte(mem: Memory, p: nat)
    ensures BitsVal(BitsAt(mem, 8 * p, 8)) == mem(p)
  {
    hide NatBits, BitsVal;
    BitsAtByte(mem, p);
    BitsValNatBits(mem(p), 8);
    Eight();
  }

  /** Scale factors that start on a byte boundary. */
  method ReadAligned(common: CommonContext, mem: Memory, b: nat)
    requires common.Valid()
    modifies common.scaleFactor
    ensures common.Valid()
    ensures forall i :: 0 <= i < common.info.Lanes() ==> common.scaleFactor[i] == NibbleAt(mem, 8 * b + 4 * i)
  {
    hide NibbleAt;
    var i := 0;
    while i < common.info.Lanes() / 2
      invariant i <= common.info.Lanes() / 2 && common.Valid()
      invariant forall j :: 0 <= j < 2 * i ==> common.scaleFactor[j] == NibbleAt(mem, 8 * b + 4 * j)
    {
      var f := mem(b + i);
      HighLow(mem, b + i);
      assert 8 * (b + i) == 8 * b + 4 * (2 * i) && 8 * (b + i) + 4 == 8 * b + 4 * (2 * i + 1);
      common.scaleFactor[2 * i] := f / 16;
      common.scaleFactor[2 * i + 1] := f % 16;
      i := i + 1;
    }
  }

  /** Scale factors behind a half byte of join flags. */
  method ReadUnaligned(common: CommonContext, mem: Memory, start: nat) returns (bs: BitStream)
    requires common.Valid() && common.info.mode.Joint? && common.info.NrofSubbands() == 4
    modifies common.scaleFactor, common`join
    ensures common.Valid() && fresh(bs) && bs.Valid() && bs.mem == mem && bs.Position() == 8 * start + 36
    ensures common.join == NibbleAt(mem, 8 * start)
    ensures forall i :: 0 <= i < 8 ==> common.scaleFactor[i] == NibbleAt(mem, 8 * start + 4 + 4 * i)
  {
    hide NibbleAt, BitsVal, BitsAt, BitAt, NatBits, HeaderByte;
    var b := start;
    HighLow(mem, start);
    var f := mem(b);
    b := b + 1;
    common.join := f / 16;
    var i := 0;
    while i < 3
      invariant i <= 3 && common.Valid() && b == start + 1 + i && f == mem(start + i)
      invariant common.join == NibbleAt(mem, 8 * start)
      invariant forall j :: 0 <= j < 2 * i ==> common.scaleFactor[j] == NibbleAt(mem, 8 * start + 4 + 4 * j)
    {
      NibblePair(mem, start, i);
      common.scaleFactor[2 * i] := f % 16;
      f := mem(b);
      b := b + 1;
      common.scaleFactor[2 * i + 1] := f / 16;
      i := i + 1;
    }
    NibblePair(mem, start, 3);
    common.scaleFactor[6] := f % 16;
    var last;
    bs, last := ReadLastNibble(mem, b);
    common.scaleFactor[7] := last;
  }

  /** Two scale factors that straddle a byte boundary. */
  lemma NibblePair(mem: Memory, start: nat, i: nat)
    ensures mem(start + i) % 16 == NibbleAt(mem, 8 * start + 4 + 4 * (2 * i))
    ensures mem(start + 1 + i) / 16 == NibbleAt(mem, 8 * start + 4 + 4 * (2 * i + 1))
  {
    hide NibbleAt;
    HighLow(mem, start + i);
    HighLow(mem, start + i + 1);
    assert 8 * (start + i) + 4 == 8 * start + 4 + 4 * (2 * i) && 8 * (start + i + 1) == 8 * start + 4 + 4 * (2 * i + 1);
  }

  /** The stream picks up in the middle of the last byte. */
  method ReadLastNibble(mem: Memory, b: nat) returns (bs: BitStream, last: nat)
    ensures fresh(bs) && bs.Valid() && bs.mem == mem && bs.Position() == 8 * b + 4
    ensures last == NibbleAt(mem, 8 * b) < 16
  {
    hide BitsVal, BitsAt;
    bs := new BitStream(mem, b);
    last := bs.ReadUINT4Aligned();
    HighLow(mem, b);
  }

  lemma NibbleIs(mem: Memory, pos: nat)
    ensures NibbleAt(mem, pos) == BitsVal(BitsAt(mem, pos, 4))
  {
  }

  /** OI_SBC_ReadScalefactors: the stream it returns stands behind the scale factors. */
  method ReadScalefactors(common: CommonContext, mem: Memory, b: nat) returns (bs: BitStream)
    requires common.Valid()
    modifies common.scaleFactor, common`join
    ensures common.Valid() && fresh(bs) && bs.Valid() && bs.mem == mem
    ensures bs.Position() == 8 * b + HeadWidth(common.info)
    ensures common.join == if common.info.mode.Joint? then BitsVal(BitsAt(mem, 8 * b, common.info.NrofSubbands())) else 0
    ensures forall i :: 0 <= i < common.info.Lanes() ==> common.scaleFactor[i] == NibbleAt(mem, 8 * b + JoinBits(common.info) + 4 * i)
  {
    hide BitsVal, BitsAt, NibbleAt;
    var info := common.info;
    if info.NrofSubbands() == 8 || !info.mode.Joint? {
      var p := b;
      if info.mode.Joint? {
        WholeByte(mem, b);
        common.join := mem(b);
        p := b + 1;
      } else {
        common.join := 0;
      }
      ReadAligned(common, mem, p);
      bs := new BitStream(mem, p + info.Lanes() / 2);
    } else {
      NibbleIs(mem, 8 * b);
      bs := ReadUnaligned(common, mem, b);
    }
  }

  // ---- samples ----

  /** Scale factors and bits of all lanes. */
  ghost predicate LanesValid(info: FrameInfo, sfs: seq<nat>, bits: seq<nat>) {
    |sfs| == |bits| == info.Lanes() && forall i :: 0 <= i < info.Lanes() ==> sfs[i] < 16 && bits[i] <= 16
  }

  /** The raw value of sample `k`, when the samples start at bit `base`. */
  ghost function RawAt(mem: Memory, base: nat, info: FrameInfo, bits: seq<nat>, k: nat): nat
    requires |bits| == info.Lanes() && k < SampleCount(info)
  {
    BitsVal(BitsAt(mem, base + Width(SampleWidths(info, bits)[..k]), SampleWidths(info, bits)[k]))
  }

  /** Sample `k` as the decoder reconstructs it from its own bits. */
  ghost function DequantAt(mem: Memory, base: nat, info: FrameInfo, sfs: seq<nat>, bits: seq<nat>, k: nat): int
    requires LanesValid(info, sfs, bits) && k < SampleCount(info)
  {
    Dequant(RawAt(mem, base, info, bits, k), sfs[k % info.Lanes()], bits[k % info.Lanes()])
  }

  /** Read and reconstruct the next sample. */
  method ReadSample(bs: BitStream, sf: nat, bits: nat) returns (sample: int)
    requires bs.Valid() && sf < 16 && bits <= 16
    modifies bs
    ensures bs.Valid() && bs.Position() == old(bs.Position()) + bits
    ensures sample == Dequant(BitsVal(BitsAt(bs.mem, old(bs.Position()), bits)), sf, bits)
  {
    hide BitsVal, BitsAt, Dequant;
    if bits != 0 {
      var raw := bs.ReadUINT(bits);
      sample := Dequant(raw, sf, bits);
    } else {
      sample := 0;
      NoBitsNoSample(BitsVal(BitsAt(bs.mem, bs.Position(), bits)), sf);
    }
  }

  lemma NoBitsNoSample(raw: nat, sf: nat)
    requires sf < 16
    ensures Dequant(raw, sf, 0) == 0
  {
  }

  /** Where the bits of sample `k` start. */
  ghost function SamplePosition(info: FrameInfo, bits: seq<nat>, base: nat, k: nat): nat
    requires |bits| == info.Lanes() && k <= SampleCount(info)
  {
    base + Width(SampleWidths(info, bits)[..k])
  }

  lemma PositionNext(info: FrameInfo, bits: seq<nat>, base: nat, k: nat)
    requires |bits| == info.Lanes() && k < SampleCount(info)
    ensures SamplePosition(info, bits, base, k + 1) == SamplePosition(info, bits, base, k) + bits[k % info.Lanes()]
    ensures SamplePosition(info, bits, base, 0) == base
  {
    hide Width;
    FieldsNext(SampleWidths(info, bits), SampleWidths(info, bits), k);
    WidthNone(SampleWidths(info, bits));
  }

  /** The samples before `k` have been read. */
  ghost predicate SamplesRead(subdata: seq<int>, mem: Memory, base: nat, info: FrameInfo, sfs: seq<nat>, bits: seq<nat>,
                              k: nat) {
    && LanesValid(info, sfs, bits) && k <= SampleCount(info) <= |subdata|
    && forall j :: 0 <= j < k ==> subdata[j] == DequantAt(mem, base, info, sfs, bits, j)
  }

  /** Read the sample of lane `ch`. */
  method ReadNext(subdata: array<int>, bs: BitStream, ghost base: nat, ghost info: FrameInfo, sfs: seq<nat>,
                  bits: seq<nat>, k: nat, ch: nat)
    requires bs.Valid() && LanesValid(info, sfs, bits) && k < SampleCount(info) && ch == k % info.Lanes()
    requires bs.Position() == SamplePosition(info, bits, base, k)
    requires SamplesRead(subdata[..], bs.mem, base, info, sfs, bits, k)
    modifies subdata, bs
    ensures bs.Valid() && bs.Position() == SamplePosition(info, bits, base, k + 1)
    ensures SamplesRead(subdata[..], bs.mem, base, info, sfs, bits, k + 1)
  {
    PositionNext(info, bits, base, k);
    DequantHere(bs.mem, base, info, sfs, bits, k);
    hide DequantAt, SampleCount, SamplePosition, Dequant, BitsAt, BitsVal;
    ghost var before := subdata[..];
    var sample := ReadSample(bs, sfs[ch], bits[ch]);
    subdata[k] := sample;
    assert subdata[..] == before[k := sample];
  }

  /** OI_SBC_ReadSamples for one block. */
  method ReadBlock(subdata: array<int>, bs: BitStream, ghost base: nat, info: FrameInfo, sfs: seq<nat>, bits: seq<nat>,
                   first: nat, ghost row: nat)
    requires LanesValid(info, sfs, bits) && bs.Valid()
    requires row < info.NrofBlocks() && first == RowStart(info, row) <= SampleCount(info)
    requires bs.Position() == SamplePosition(info, bits, base, first)
    requires SamplesRead(subdata[..], bs.mem, base, info, sfs, bits, first)
    modifies subdata, bs
    ensures bs.Valid() && RowStart(info, row + 1) <= SampleCount(info)
    ensures bs.Position() == SamplePosition(info, bits, base, RowStart(info, row + 1))
    ensures SamplesRead(subdata[..], bs.mem, base, info, sfs, bits, RowStart(info, row + 1))
  {
    RowFits(info, row);
    assert |sfs| == |bits| == info.Lanes();
    hide *;
    var i := 0;
    while i < info.Lanes()
      invariant i <= info.Lanes() && bs.Valid()
      invariant bs.Position() == SamplePosition(info, bits, base, first + i)
      invariant SamplesRead(subdata[..], bs.mem, base, info, sfs, bits, first + i)
    {
      RowLane(info, row, i);
      ReadNext(subdata, bs, base, info, sfs, bits, first + i, i);
      i := i + 1;
    }
  }

  lemma SamplesFit(info: FrameInfo)
    requires info.Valid()
    ensures SampleCount(info) <= 256
  {
    MulOrder(info.Lanes(), info.NrofBlocks(), 16);
  }

  lemma DequantHere(mem: Memory, base: nat, info: FrameInfo, sfs: seq<nat>, bits: seq<nat>, k: nat)
    requires LanesValid(info, sfs, bits) && k < SampleCount(info)
    ensures var ch := k % info.Lanes();
      DequantAt(mem, base, info, sfs, bits, k) == Dequant(BitsVal(BitsAt(mem, SamplePosition(info, bits, base, k), bits[ch])), sfs[ch], bits[ch])
  {
    hide BitsVal, BitsAt, Width, Dequant;
  }

  /** OI_SBC_ReadSamples: all samples of a mono, dual or stereo frame. */
  method ReadSamples(subdata: array<int>, bs: BitStream, info: FrameInfo, sfs: seq<nat>, bits: seq<nat>)
    requires LanesValid(info, sfs, bits) && subdata.Length >= SampleCount(info) && bs.Valid()
    modifies subdata, bs
    ensures SamplesRead(subdata[..], bs.mem, old(bs.Position()), info, sfs, bits, SampleCount(info))
    ensures bs.Valid() && bs.Position() == SamplePosition(info, bits, old(bs.Position()), SampleCount(info))
  {
    ghost var base := bs.Position();
    Rows(info);
    PositionNext(info, bits, base, 0);
    assert SamplesRead(subdata[..], bs.mem, base, info, sfs, bits, 0) && |bits| == info.Lanes();
    hide *;
    var k, row := 0, 0;
    while row < info.NrofBlocks()
      invariant row <= info.NrofBlocks() && k == RowStart(info, row) <= SampleCount(info) && bs.Valid()
      invariant bs.Position() == SamplePosition(info, bits, base, k)
      invariant SamplesRead(subdata[..], bs.mem, base, info, sfs, bits, k)
    {
      RowFits(info, row);
      ReadBlock(subdata, bs, base, info, sfs, bits, k, row);
      k := k + info.Lanes();
      row := row + 1;
    }
  }
}
