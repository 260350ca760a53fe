/** SBC_Encoder: from filtered samples to a packet. */
module SbcEncoder {
  import opened BitStrings
  import opened Frames
  import opened FrameLayout
  import opened BitNeeds
  import opened EncoderContexts
  import opened ScaleFactors
  import opened Packing
  import opened Quantiser
  import opened BlockLayout
  import opened AnalysisWindow
  import opened Words
  import AllocationAgreement
  import EncoderAllocation
  import FrameLengths
  import Bits
  import Crc

  /** The limits SBC_Encoder_Init puts on a computed bitpool. */
  function LimitBitpool(mode: Mode, subbands: nat, bitpool: int): nat {
    var limited :=
      if mode.Stereo? || mode.Joint? then
        if subbands == 1 then (if bitpool > 255 then 255 else bitpool) else (if bitpool > 128 then 128 else bitpool)
      else
        var most := 16 * (if subbands == 1 then 8 else 4);
        if bitpool > most then most else bitpool;
    if limited < 0 then 0 else limited
  }

  /** Whatever the rate arithmetic produces, the slice walk can stop and the header can carry it. */
  lemma LimitedPoolFits(info: FrameInfo, bitpool: int)
    requires info.freqIndex < 4 && info.blocks < 4 && info.subbands < 2
    requires info.bitpool == LimitBitpool(info.mode, info.subbands, bitpool)
    ensures info.Valid() && PoolFits(info)
  {
  }

  /** A bitpool up to the limit of its mode is kept, a larger one becomes the limit: 16 bits a subband, of both
      channels where they share a pool, as far as the header byte carries it. */
  lemma LimitKeeps(mode: Mode, subbands: nat, bitpool: int)
    requires subbands < 2
    ensures var most := if mode.Mono? || mode.Dual? then (if subbands == 1 then 128 else 64) else (if subbands == 1 then 255 else 128);
      LimitBitpool(mode, subbands, bitpool) == if bitpool < 0 then 0 else if bitpool <= most then bitpool else most
  {
  }

  /** The clamp lets exactly those bitpools below 2 through that were computed below 2; the decoder
      refuses them. */
  lemma SmallPoolPasses(mode: Mode, subbands: nat, bitpool: int)
    requires subbands < 2
    ensures LimitBitpool(mode, subbands, bitpool) < 2 <==> bitpool < 2
    ensures LimitBitpool(Stereo, 1, -3) == 0
  {
  }

  /** Scale factors and joint decision, bit allocation, packing. What is packed are the samples as
      coded, with the bits every decoder will derive from the scale factors in the packet. */
  method EncodePacket(p: EncoderParams, packet: array<byte>, least: nat) returns (length: nat, maxBit: nat)
    requires p.Valid() && least <= 15 && Moderate(p.sbBuffer[..], p.info) && PoolFits(p.info)
    requires packet.Length >= FrameLengths.FrameLength(p.info) + 1
    modifies p.scaleFactor, p.sbBuffer, p.join, p`maxBitNeed, p.scratch, p.bits, packet
    ensures p.info == old(p.info) && p.Valid() && least <= maxBit <= 15
    ensures !p.info.mode.Joint? ==> p.sbBuffer[..] == old(p.sbBuffer[..])
    ensures p.info.mode.Joint? ==>
      && CodedFrom(p.sbBuffer[..], old(p.sbBuffer[..]), p.info, p.join[..], p.info.NrofSubbands())
      && Decided(old(p.sbBuffer[..]), p.info, p.join[..], p.info.NrofSubbands() - 1)
    ensures Scaled(p.scaleFactor[..], p.sbBuffer[..], p.info, p.info.Lanes(), maxBit)
    ensures Ready(p) && p.bits[..p.info.Lanes()] == FrameBits(p.info, p.scaleFactor[..p.info.Lanes()])
    ensures length == PacketLength(p.info, p.bits[..p.info.Lanes()]) && 4 <= length <= packet.Length
    ensures IsFrame(p.info, ContentOf(p), p.bits[..p.info.Lanes()], packet[..length], EndPad(p.info, p.bits[..p.info.Lanes()]))
    ensures Crc.ChecksumBytes(p.info) < length && packet[3] == Crc.Checksum(p.info, packet[..length])
  {
    hide *;
    maxBit := ComputeScaleFactors(p, least);
    ghost var sb, sfs, join := p.sbBuffer[..], p.scaleFactor[..], p.join[..];
    ShapeKnown(p);
    PeaksCovered(p);
    ghost var lanes := p.info.Lanes();
    assert p.info.SharedPool() <==> p.info.mode.Stereo? || p.info.mode.Joint? by { Shared(p.info); }
    if p.info.mode.Stereo? || p.info.mode.Joint? {
      EncoderAllocation.BitAllocStereo(p);
    } else {
      EncoderAllocation.BitAllocMono(p);
    }
    assert p.sbBuffer[..] == sb && p.scaleFactor[..] == sfs && p.join[..] == join;
    StillValid(p);
    assert p.scaleFactor[..lanes] == sfs[..lanes];
    AnnouncedQuantisable(sb, sfs, p.info, p.maxBitNeed, p.bits[..lanes]);
    FlagsFrom(sb, old(p.sbBuffer[..]), p.info, join);
    ReadyNow(p);
    FrameLengths.PacketRoom(p.info, p.scaleFactor[..lanes]);
    length := EncPacking(p, packet);
  }

  lemma Shared(info: FrameInfo)
    ensures info.SharedPool() <==> info.mode.Stereo? || info.mode.Joint?
  {
  }

  lemma PeaksCovered(p: EncoderParams)
    requires p.Valid() && Announced(p.sbBuffer[..], p.scaleFactor[..], p.info, p.maxBitNeed)
    ensures forall i :: 0 <= i < p.info.Lanes() ==> p.scaleFactor[i] <= p.maxBitNeed
    ensures p.scratch != p.sbBuffer && p.bits != p.sbBuffer && p.scratch != p.scaleFactor && p.bits != p.scaleFactor
    ensures p.bits.Length == 16
  {
    hide InScale, SampleCount;
    assert forall i :: 0 <= i < p.info.Lanes() ==> p.scaleFactor[..][i] == p.scaleFactor[i];
  }

  lemma AnnouncedQuantisable(sb: seq<int>, sfs: seq<int>, info: FrameInfo, maxBit: int, bits: seq<int>)
    requires info.Valid() && PoolFits(info) && Announced(sb, sfs, info, maxBit) && |sfs| >= info.Lanes()
    requires bits == FrameBits(info, sfs[..info.Lanes()])
    ensures Quantisable(info, sb, sfs[..info.Lanes()], bits)
  {
    hide InScale, SampleCount, FrameBits;
    AllocationAgreement.Conservation(info, sfs[..info.Lanes()]);
  }

  lemma FlagsFrom(sb: seq<int>, first: seq<int>, info: FrameInfo, join: seq<nat>)
    requires |join| == 8 && (info.mode.Joint? ==> CodedFrom(sb, first, info, join, info.NrofSubbands()))
    ensures JoinFlags(info, join)
  {
    hide SampleCount, CellAt, CodedCell;
  }

  lemma ReadyNow(p: EncoderParams)
    requires p.Valid() && JoinFlags(p.info, p.join[..])
    requires Quantisable(p.info, p.sbBuffer[..], p.scaleFactor[..p.info.Lanes()], p.bits[..p.info.Lanes()])
    ensures Ready(p)
  {
    hide Quantisable;
  }

  // ---- from PCM to a packet ----

  /** The transform leaves room for one more bit. */
  ghost predicate Quiet(analyse: Analysis) {
    forall w, i :: 0 <= i < |analyse(w)| ==> Abs(analyse(w)[i]) <= 0x4000_0000
  }

  /** Filtered samples lie where the encoder's loops look for them, and none is too large. */
  lemma FilteredModerate(sb: seq<int>, analyse: Analysis, ls: seq<int>, rs: seq<int>, pcm: seq<int>, info: FrameInfo)
    requires Quiet(analyse) && SampleCount(info) <= |sb| && Regular(analyse, info.NrofSubbands())
    requires FilteredAll(sb, analyse, ls, rs, pcm, info.NrofSubbands(), info.NrofChannels(), info.NrofBlocks())
    ensures Moderate(sb, info)
  {
    hide SampleCount, InputStart, Received;
    forall k | 0 <= k < SampleCount(info) ensures Abs(sb[k]) <= 0x4000_0000 {
      CellPlace(info, k);
      var row, lane := k / info.Lanes(), k % info.Lanes();
      var ch := if lane < info.NrofSubbands() then 0 else 1;
      assert BlockFiltered(sb, analyse, if ch == 0 then ls else rs, pcm, info.NrofSubbands(), info.NrofChannels(), ch, row);
      var at := InputStart(info.NrofSubbands(), info.NrofChannels(), row, ch);
      assert sb[k] == sb[at..at + info.NrofSubbands()][k - at];
    }
  }

  /** Sample `k` is one of the bands of one channel of one block. */
  lemma CellPlace(info: FrameInfo, k: nat)
    requires k < SampleCount(info)
    ensures var row, lane := k / info.Lanes(), k % info.Lanes();
      var ch := if lane < info.NrofSubbands() then 0 else 1;
      var at := InputStart(info.NrofSubbands(), info.NrofChannels(), row, ch);
      row < info.NrofBlocks() && ch < info.NrofChannels() && at <= k < at + info.NrofSubbands()
  {
    var row, lane, n, c := k / info.Lanes(), k % info.Lanes(), info.NrofSubbands(), info.NrofChannels();
    assert k == info.Lanes() * row + lane;
    Bits.MulOrder(info.Lanes(), info.NrofBlocks(), row);
    assert row < info.NrofBlocks();
    assert (row * c + 0) * n == info.Lanes() * row;
    assert (row * c + 1) * n == info.Lanes() * row + n;
  }

  /** The whole round of SBC_Encoder: analysis filter, then EncodePacket on what it leaves in the buffer. */
  method EncodePcm(p: EncoderParams, buf: AnalysisBuffer, analyse: Analysis, pcm: seq<int>, packet: array<byte>,
                   least: nat, ghost ls: seq<int>, ghost rs: seq<int>)
    returns (length: nat, maxBit: nat, ghost filtered: seq<int>)
    requires p.Valid() && least <= 15 && PoolFits(p.info) && packet.Length >= FrameLengths.FrameLength(p.info) + 1
    requires buf.Valid() && buf.bands == p.info.NrofSubbands() && buf.channels == p.info.NrofChannels()
    requires buf.s16X != p.sbBuffer
    requires {p.scaleFactor, p.scratch, p.bits} !! {buf.s16X}
    requires Regular(analyse, buf.bands) && Quiet(analyse) && |pcm| == SampleCount(p.info)
    requires buf.Waits(0, ls) && (buf.channels == 2 ==> buf.Waits(1, rs))
    modifies buf`shiftCounter, buf.s16X, p.scaleFactor, p.sbBuffer, p.join, p`maxBitNeed, p.scratch, p.bits, packet
    ensures p.info == old(p.info) && p.Valid() && Waiting(buf, ls, rs, pcm, p.info.NrofBlocks())
    ensures FilteredAll(filtered, analyse, ls, rs, pcm, buf.bands, buf.channels, p.info.NrofBlocks())
    ensures if p.info.mode.Joint? then CodedFrom(p.sbBuffer[..], filtered, p.info, p.join[..], p.info.NrofSubbands()) else p.sbBuffer[..] == filtered
    ensures Ready(p) && p.bits[..p.info.Lanes()] == FrameBits(p.info, p.scaleFactor[..p.info.Lanes()])
    ensures length == PacketLength(p.info, p.bits[..p.info.Lanes()]) && 4 <= length <= packet.Length
    ensures IsFrame(p.info, ContentOf(p), p.bits[..p.info.Lanes()], packet[..length], EndPad(p.info, p.bits[..p.info.Lanes()]))
    ensures Crc.ChecksumBytes(p.info) < length && packet[3] == Crc.Checksum(p.info, packet[..length])
  {
    hide *;
    ShapeKnown(p);
    SamplesFit(p.info);
    FilterFits(p.info);
    AnalysisFilter(buf, analyse, pcm, p.info.NrofBlocks(), p.sbBuffer, ls, rs);
    StillValid(p);
    filtered := p.sbBuffer[..];
    FilteredModerate(filtered, analyse, ls, rs, pcm, p.info);
    length, maxBit := EncodePacket(p, packet, least);
  }

  lemma FilterFits(info: FrameInfo)
    ensures InputStart(info.NrofSubbands(), info.NrofChannels(), info.NrofBlocks(), 0) == SampleCount(info)
  {
    var b, n, c := info.NrofBlocks(), info.NrofSubbands(), info.NrofChannels();
    assert (b * c + 0) * n == b * c * n;
    assert c == 1 ==> b * c * n == b * n;
    assert c == 2 ==> b * c * n == b * (2 * n);
  }
}
