/** Both ends of an SBC link: every packet the encoder produces is a frame the decoder accepts, and
    its samples come back as they were quantised. */
module Link {
  import opened Bits
  import opened Words
  import opened BitStrings
  import opened BitReader
  import opened Frames
  import opened FrameLayout
  import opened BitNeeds
  import opened FrameLengths
  import opened Quantiser
  import opened Dequantiser
  import opened Packing
  import opened JointReader
  import opened FrameDecoder
  import opened FrameRoundTrip
  import opened DecoderSbc
  import SynthesisWindow
  import opened EncoderContexts
  import opened PacketParse
  import AllocationAgreement
  import ScaleFactors
  import SbcEncoder
  import Crc

  // ---- one sample ----

  /** A sample after quantiser and dequantiser; without bits nothing is sent. */
  function Received(x: int, sf: nat, bits: nat): int
    requires Int32(x) && sf <= 15 && bits <= 16
  {
    if bits == 0 then 0 else Dequant(Quantise(x, sf, bits), sf, bits)
  }

  /** Fewer than two bits carry nothing; two or more bits carry the sample up to the error bound. */
  lemma ReceivedError(x: int, sf: nat, bits: nat)
    requires Int32(x) && sf <= 15 && bits <= 16 && InScale(x, sf)
    ensures bits < 2 ==> Received(x, sf, bits) == 0
    ensures bits >= 2 ==> Abs(0x4000_0000 * (Levels(bits) * Received(x, sf, bits)) - OFFSET * (x * Levels(bits))) <= ErrorBound(sf, bits)
  {
    if bits >= 2 {
      hide Quantise, Dequant, Levels, ErrorBound, InScale;
      QuantiseDequantise(x, sf, bits);
    } else {
      hide Quantise;
    }
  }

  // ---- one frame ----

  /** The packet of an encoder in memory: its content is what the encoder coded, its bits are the allocation
      for its scale factors. */
  ghost predicate Sent(info: FrameInfo, join: seq<nat>, sb: seq<int>, sfs: seq<nat>, packet: seq<byte>) {
    && info.Valid() && PoolFits(info) && |sfs| == info.Lanes()
    && Quantisable(info, sb, sfs, FrameBits(info, sfs)) && JoinFlags(info, join)
    && IsFrame(info, ContentFrom(info, join, sb, sfs, FrameBits(info, sfs)), FrameBits(info, sfs), packet, EndPad(info, FrameBits(info, sfs)))
    && Crc.ChecksumBytes(info) < |packet| && packet[3] == Crc.Checksum(info, packet)
    && |packet| == PacketLength(info, FrameBits(info, sfs))
  }

  /** What the decoder makes of a packet, however many bytes it is given from its start on: header,
      length and checksum always pass, the bitpool passes from 2 on. */
  lemma PacketVerdict(mem: Memory, data: nat, info: FrameInfo, join: seq<nat>, sb: seq<int>, sfs: seq<nat>,
                      packet: seq<byte>, bytes: nat, room: nat)
    requires Sent(info, join, sb, sfs, packet) && Holds(mem, data, packet) && bytes >= FrameLength(info)
    ensures ParseHeader(mem(data + 1), mem(data + 2)) == info && |packet| >= FrameLength(info)
    ensures bytes > 0 && mem(data) == 0x9C
    ensures Verdict(mem, data, bytes, room) == FrameStatus(mem, data, bytes, room) ==
      if info.bitpool < 2 then InvalidParameters else if room < PcmFrames(info) then NotEnoughAudioData else Ok
  {
    hide *;
    HeaderInMemory(mem, data, info, join, sb, sfs, packet);
    HeaderRoundTrip(info);
    PacketLengthAgrees(info, sfs);
    PacketAtLeastFrame(info, sfs);
    FramelenExact(info);
    ChecksumInMemory(mem, data, info, packet);
    FramePassed(mem, data, info, bytes, room);
  }

  lemma PacketAtLeastFrame(info: FrameInfo, sfs: seq<nat>)
    requires info.Valid() && PoolFits(info) && |sfs| == info.Lanes()
    ensures PacketLength(info, FrameBits(info, sfs)) >= FrameLength(info)
  {
    hide *;
    LanesOf(info, sfs);
    AllocationAgreement.Conservation(info, sfs);
    PayloadIsBitpool(info, FrameBits(info, sfs));
    PacketAndFrame(info, FrameBits(info, sfs));
  }

  /** A packet is accepted exactly if its bitpool is at least 2 and its PCM has room. */
  lemma PacketAccepted(mem: Memory, data: nat, info: FrameInfo, join: seq<nat>, sb: seq<int>, sfs: seq<nat>,
                       packet: seq<byte>, room: nat)
    requires Sent(info, join, sb, sfs, packet) && Holds(mem, data, packet)
    ensures ParseHeader(mem(data + 1), mem(data + 2)) == info
    ensures info.bitpool >= 2 ==> |packet| == FrameLength(info)
    ensures GoodFrame(mem, data, room) <==> info.bitpool >= 2 && room >= PcmFrames(info)
  {
    hide *;
    HeaderInMemory(mem, data, info, join, sb, sfs, packet);
    PacketVerdict(mem, data, info, join, sb, sfs, packet, FrameLength(info), room);
    PacketLengthAgrees(info, sfs);
    FramelenExact(info);
    GoodIs(mem, data, info, room);
  }

  lemma GoodIs(mem: Memory, data: nat, info: FrameInfo, room: nat)
    requires ParseHeader(mem(data + 1), mem(data + 2)) == info && mem(data) == 0x9C
    ensures GoodFrame(mem, data, room) <==> FrameStatus(mem, data, FrameLength(info), room).Ok?
  {
    hide FrameStatus, FrameLength;
  }

  lemma HeaderInMemory(mem: Memory, data: nat, info: FrameInfo, join: seq<nat>, sb: seq<int>, sfs: seq<nat>,
                       packet: seq<byte>)
    requires Sent(info, join, sb, sfs, packet) && Holds(mem, data, packet)
    ensures info.Valid() && PoolFits(info) && |sfs| == info.Lanes()
    ensures |packet| == PacketLength(info, FrameBits(info, sfs))
    ensures mem(data) == 0x9C && mem(data + 1) == HeaderByte(info) && mem(data + 2) == info.bitpool
    ensures Crc.ChecksumBytes(info) < |packet| && |packet| >= 4
    ensures mem(data + 3) == packet[3] == Crc.Checksum(info, packet)
  {
    hide HeaderByte, Quantisable, FrameBits, Crc.Checksum, Unpack, Body, Shaped;
    assert mem(data + 0) == packet[0] && mem(data + 1) == packet[1] && mem(data + 2) == packet[2] && mem(data + 3) == packet[3];
  }

  lemma ChecksumInMemory(mem: Memory, data: nat, info: FrameInfo, packet: seq<byte>)
    requires Holds(mem, data, packet) && Crc.ChecksumBytes(info) < |packet|
    ensures Crc.Checksum(info, HeaderBytes(mem, data, info)) == Crc.Checksum(info, packet)
  {
    hide Crc.Checksum;
    var header := HeaderBytes(mem, data, info);
    assert forall k :: 0 <= k < |header| ==> header[k] == mem(data + k) == packet[k];
    Crc.ChecksumReads(info, header, packet);
  }

  lemma FramePassed(mem: Memory, data: nat, info: FrameInfo, bytes: nat, room: nat)
    requires info.Valid() && PoolFits(info) && bytes >= FrameLength(info)
    requires mem(data) == 0x9C && ParseHeader(mem(data + 1), mem(data + 2)) == info
    requires CalculateFramelen(info) == FrameLength(info)
    requires Crc.Checksum(info, HeaderBytes(mem, data, info)) == mem(data + 3)
    ensures bytes > 0
    ensures Verdict(mem, data, bytes, room) == FrameStatus(mem, data, bytes, room) ==
      if info.bitpool < 2 then InvalidParameters else if room < PcmFrames(info) then NotEnoughAudioData else Ok
  {
    assert FrameLength(info) >= 4;
    hide Crc.Checksum, CalculateFramelen, FrameLength, PcmFrames;
  }

  /** So a packet of the encoder is a valid frame exactly if its bitpool is at least 2, and k such packets
      in one payload decode to k frames. */
  lemma PacketIsValidFrame(info: FrameInfo, join: seq<nat>, sb: seq<int>, sfs: seq<nat>, packet: seq<byte>)
    requires Sent(info, join, sb, sfs, packet)
    ensures ValidFrame(packet) <==> info.bitpool >= 2
  {
    hide *;
    OwnMemory(packet);
    HeaderInMemory(MemoryOf(packet), 0, info, join, sb, sfs, packet);
    PcmFramesBound(info);
    PacketAccepted(MemoryOf(packet), 0, info, join, sb, sfs, packet, ROOM);
    ValidOnItsOwn(packet);
  }

  lemma ValidOnItsOwn(packet: seq<byte>)
    requires |packet| >= 4
    ensures ValidFrame(packet) <==>
      && GoodFrame(MemoryOf(packet), 0, ROOM)
      && |packet| == FrameLength(ParseHeader(MemoryOf(packet)(1), MemoryOf(packet)(2)))
  {
    hide GoodFrame, FrameLength;
  }

  // ---- its samples ----

  /** The decoder reads the very numbers the quantiser wrote, with the bit counts and scale factors
      the encoder used, whatever lies around the packet. */
  lemma SamplesSurvive(mem: Memory, data: nat, info: FrameInfo, join: seq<nat>, sb: seq<int>, sfs: seq<nat>,
                       packet: seq<byte>, k: nat)
    requires Sent(info, join, sb, sfs, packet) && Holds(mem, data, packet) && k < SampleCount(info)
    ensures SfsAt(mem, data + 4, info) == sfs
    ensures var lane := k % info.Lanes(); var bits := FrameBits(info, sfs);
      && k < |sb| && Int32(sb[k]) && sfs[lane] <= 15 && bits[lane] <= 16
      && SentAt(mem, data + 4, info)[k] == Received(sb[k], sfs[lane], bits[lane])
  {
    hide *;
    SentParts(info, join, sb, sfs, packet, k);
    var bits := FrameBits(info, sfs);
    var c := ContentFrom(info, join, sb, sfs, bits);
    HeadReads(mem, data, info, c, bits, packet, EndPad(info, bits));
    SentReads(mem, data, info, c, bits, packet, EndPad(info, bits), k);
    SampleHere(info, sb, sfs, bits, k);
    LanesPositive(info);
    ReceivedIs(sb[k], sfs[k % info.Lanes()], bits[k % info.Lanes()], c.samples[k]);
  }

  lemma LanesPositive(info: FrameInfo)
    ensures info.Lanes() > 0
  {
  }

  lemma SentParts(info: FrameInfo, join: seq<nat>, sb: seq<int>, sfs: seq<nat>, packet: seq<byte>, k: nat)
    requires Sent(info, join, sb, sfs, packet) && k < SampleCount(info)
    ensures info.Valid() && PoolFits(info) && |sfs| == info.Lanes() == |FrameBits(info, sfs)|
    ensures Quantisable(info, sb, sfs, FrameBits(info, sfs)) && JoinFlags(info, join)
    ensures var c := ContentFrom(info, join, sb, sfs, FrameBits(info, sfs));
      && Shaped(info, c, FrameBits(info, sfs)) && c.sfs == sfs && c.samples == Quantised(info, sb, sfs, FrameBits(info, sfs))
      && c.join == (if info.mode.Joint? then join[..info.NrofSubbands()] else [])
      && IsFrame(info, c, FrameBits(info, sfs), packet, EndPad(info, FrameBits(info, sfs)))
  {
    hide Quantisable, Shaped, IsFrame, Quantised, FrameBits;
  }

  lemma ReceivedIs(x: int, sf: nat, bits: nat, q: nat)
    requires Int32(x) && sf <= 15 && bits <= 16 && q == if bits == 0 then 0 else Quantise(x, sf, bits)
    ensures Dequant(q, sf, bits) == Received(x, sf, bits)
  {
    hide Quantise;
  }

  /** Join flags come back bit by bit. */
  lemma {:induction false} FlagsReturn(join: seq<nat>, i: nat)
    requires i < |join| && forall j :: 0 <= j < |join| ==> join[j] < 2
    ensures NatBits(JoinValue(join), |join|)[i] == (join[i] == 1)
  {
    var n := |join| - 1;
    assert JoinValue(join) / 2 == JoinValue(join[..n]) && JoinValue(join) % 2 == join[n];
    if i < n {
      FlagsReturn(join[..n], i);
    }
  }

  /** What the decoder hands to the synthesis filter for a subband that was not coupled is what was
      received; for a coupled one it is sum and difference of mid and side as received. */
  lemma SubbandsSurvive(mem: Memory, data: nat, info: FrameInfo, join: seq<nat>, sb: seq<int>, sfs: seq<nat>,
                        packet: seq<byte>, k: nat)
    requires Sent(info, join, sb, sfs, packet) && Holds(mem, data, packet) && k < SampleCount(info)
    ensures var raw, n, lane := SentAt(mem, data + 4, info), info.NrofSubbands(), k % info.Lanes();
      var t := if lane < n then lane else lane - n;
      if info.mode.Joint? && join[t] == 1 then
        (if lane < n then k + n < |raw| && SamplesAt(mem, data + 4, info)[k] == Signed(raw[k] + raw[k + n])
         else k >= n && SamplesAt(mem, data + 4, info)[k] == Signed(raw[k - n] - raw[k]))
      else SamplesAt(mem, data + 4, info)[k] == raw[k]
  {
    hide *;
    SentParts(info, join, sb, sfs, packet, k);
    var bits := FrameBits(info, sfs);
    var c := ContentFrom(info, join, sb, sfs, bits);
    HeadReads(mem, data, info, c, bits, packet, EndPad(info, bits));
    var raw := SentAt(mem, data + 4, info);
    SampleIs(mem, data, info, k);
    if info.mode.Joint? {
      PartnerKnown(info, k);
      LanesPositive(info);
      var n, lane := info.NrofSubbands(), k % info.Lanes();
      var t := if lane < n then lane else lane - n;
      CoupledKnown(info, join, t);
      JointIs(raw, info, JoinValue(c.join), k);
    }
  }

  // ---- how far off a coupled pair is ----

  /** What the error of a lane is measured in: its levels, or nothing where no sample is sent. */
  function Steps(bits: nat): (l: nat)
    requires bits <= 16
    ensures l >= 1
  {
    if bits < 2 then 1 else Levels(bits)
  }

  /** The error bound of a lane; a sample that is not sent is missed altogether. */
  function LaneBound(x: int, sf: nat, bits: nat): int
    requires sf <= 15 && bits <= 16
  {
    if bits < 2 then OFFSET * Abs(x) else ErrorBound(sf, bits)
  }

  lemma LaneError(x: int, sf: nat, bits: nat)
    requires Int32(x) && sf <= 15 && bits <= 16 && InScale(x, sf)
    ensures Abs(0x4000_0000 * (Steps(bits) * Received(x, sf, bits)) - OFFSET * (x * Steps(bits))) <= LaneBound(x, sf, bits)
  {
    ReceivedError(x, sf, bits);
    hide Levels, ErrorBound, Received, InScale;
    if bits < 2 {
      assert Abs(0 - OFFSET * x) == OFFSET * Abs(x);
    }
  }

  /** Two samples that are off by at most so much: their sum and their difference. */
  lemma PairError(x: int, y: int, x': int, y': int, m: nat, n: nat, e: int, f: int)
    requires Abs(0x4000_0000 * (m * x') - OFFSET * (x * m)) <= e && Abs(0x4000_0000 * (n * y') - OFFSET * (y * n)) <= f
    ensures Abs(0x4000_0000 * (m * n * (x' + y')) - OFFSET * (m * n * (x + y))) <= n * e + m * f
    ensures Abs(0x4000_0000 * (m * n * (x' - y')) - OFFSET * (m * n * (x - y))) <= n * e + m * f
  {
    hide Abs;
    var a, b := 0x4000_0000 * (m * x') - OFFSET * (x * m), 0x4000_0000 * (n * y') - OFFSET * (y * n);
    ScaledError(a, n, e);
    ScaledError(b, m, f);
    Regroup(x, x', m, n);
    Regroup(y, y', n, m);
    assert m * n * (x' + y') == m * n * x' + m * n * y' && m * n * (x' - y') == m * n * x' - m * n * y';
    assert m * n * (x + y) == m * n * x + m * n * y && m * n * (x - y) == m * n * x - m * n * y;
    SwapLevels(m, n, y);
    SwapLevels(m, n, y');
    SumError(n * a, m * b, n * e, m * f);
  }

  lemma ScaledError(a: int, n: nat, e: int)
    requires Abs(a) <= e
    ensures Abs(n * a) <= n * e
  {
    MulOrder(n, a, e);
    MulOrder(n, 0 - e, a);
    assert n * (0 - e) == 0 - n * e;
  }

  lemma Regroup(x: int, x': int, m: nat, n: nat)
    ensures n * (0x4000_0000 * (m * x') - OFFSET * (x * m)) == 0x4000_0000 * (m * n * x') - OFFSET * (m * n * x)
  {
    assert n * (m * x') == m * n * x' && n * (x * m) == m * n * x;
  }

  lemma SwapLevels(m: nat, n: nat, y: int)
    ensures n * m * y == m * n * y
  {
  }

  lemma SumError(a: int, b: int, e: int, f: int)
    requires Abs(a) <= e && Abs(b) <= f
    ensures Abs(a + b) <= e + f && Abs(a - b) <= e + f
  {
  }

  /** A coupled pair of samples, from before it was coupled to behind the decoder: off by the errors of
      mid and side, and the left one by the bit the halves lose, unless a sum leaves 32 bits. */
  lemma CoupledError(l: int, r: int, sfMid: nat, sfSide: nat, bitsMid: nat, bitsSide: nat)
    requires Abs(l) < 0x4000_0000 && Abs(r) < 0x4000_0000 && sfMid <= 15 && sfSide <= 15 && bitsMid <= 16 && bitsSide <= 16
    requires InScale(ScaleFactors.Mid(l, r), sfMid) && InScale(ScaleFactors.Side(l, r), sfSide)
    ensures Int32(ScaleFactors.Mid(l, r)) && Int32(ScaleFactors.Side(l, r))
    ensures var mid, side := ScaleFactors.Mid(l, r), ScaleFactors.Side(l, r);
      var mid', side' := Received(mid, sfMid, bitsMid), Received(side, sfSide, bitsSide);
      var m, n := Steps(bitsMid), Steps(bitsSide);
      var bound := n * LaneBound(mid, sfMid, bitsMid) + m * LaneBound(side, sfSide, bitsSide);
      && (Int32(mid' + side') ==>
            Abs(0x4000_0000 * (m * n * Signed(mid' + side')) - OFFSET * (m * n * (l - (l + r) % 2))) <= bound)
      && (Int32(mid' - side') ==> Abs(0x4000_0000 * (m * n * Signed(mid' - side')) - OFFSET * (m * n * r)) <= bound)
  {
    hide Received, LaneBound, Steps, InScale, Abs;
    HalvesOf(l, r);
    var mid, side := ScaleFactors.Mid(l, r), ScaleFactors.Side(l, r);
    hide ScaleFactors.Mid, ScaleFactors.Side;
    LaneError(mid, sfMid, bitsMid);
    LaneError(side, sfSide, bitsSide);
    PairError(mid, side, Received(mid, sfMid, bitsMid), Received(side, sfSide, bitsSide), Steps(bitsMid), Steps(bitsSide),
              LaneBound(mid, sfMid, bitsMid), LaneBound(side, sfSide, bitsSide));
  }

  lemma HalvesOf(l: int, r: int)
    requires Abs(l) < 0x4000_0000 && Abs(r) < 0x4000_0000
    ensures var mid, side := ScaleFactors.Mid(l, r), ScaleFactors.Side(l, r);
      Int32(mid) && Int32(side) && mid + side == l - (l + r) % 2 && mid - side == r
  {
  }

  lemma SampleIs(mem: Memory, data: nat, info: FrameInfo, k: nat)
    requires info.Valid() && PoolFits(info) && k < SampleCount(info)
    ensures var raw := SentAt(mem, data + 4, info);
      SamplesAt(mem, data + 4, info)[k] == if info.mode.Joint? then JointAt(raw, info, JoinAt(mem, data + 4, info), k) else raw[k]
  {
    hide SentAt, JointAt, JoinAt;
  }

  lemma PartnerKnown(info: FrameInfo, k: nat)
    requires info.mode.Joint? && k < SampleCount(info)
    ensures var n := info.NrofSubbands();
      && info.Lanes() == 2 * n && n <= 8
      && if k % info.Lanes() < n then k + n < SampleCount(info) else k >= n
  {
    PartnerExists(info, k);
  }

  lemma CoupledKnown(info: FrameInfo, join: seq<nat>, t: nat)
    requires JoinFlags(info, join) && info.mode.Joint? && t < info.NrofSubbands()
    ensures Coupled(JoinValue(join[..info.NrofSubbands()]), info.NrofSubbands(), t) == (join[t] == 1)
  {
    hide NatBits, JoinValue;
    FlagsReturn(join[..info.NrofSubbands()], t);
  }

  lemma JointIs(raw: seq<int>, info: FrameInfo, join: nat, k: nat)
    requires |raw| == SampleCount(info) && info.mode.Joint? && k < |raw|
    ensures var n, ch := info.NrofSubbands(), k % info.Lanes();
      if ch < n then k + n < |raw| && JointAt(raw, info, join, k) == (if Coupled(join, n, ch) then Signed(raw[k] + raw[k + n]) else raw[k])
      else k >= n && JointAt(raw, info, join, k) == if Coupled(join, n, ch - n) then Signed(raw[k - n] - raw[k]) else raw[k]
  {
    hide Coupled, Signed, SampleCount;
    PartnerExists(info, k);
  }

  // ---- the whole link ----

  lemma NowSent(p: EncoderParams, bytes: seq<byte>)
    requires Ready(p) && PoolFits(p.info)
    requires p.bits[..p.info.Lanes()] == FrameBits(p.info, p.scaleFactor[..p.info.Lanes()])
    requires IsFrame(p.info, ContentOf(p), p.bits[..p.info.Lanes()], bytes, EndPad(p.info, p.bits[..p.info.Lanes()]))
    requires Crc.ChecksumBytes(p.info) < |bytes| && bytes[3] == Crc.Checksum(p.info, bytes)
    requires |bytes| == PacketLength(p.info, p.bits[..p.info.Lanes()])
    ensures Sent(p.info, p.join[..], p.sbBuffer[..], p.scaleFactor[..p.info.Lanes()], bytes)
  {
    hide IsFrame, Quantisable, FrameBits, EndPad, PacketLength, Crc.Checksum, ContentFrom;
  }

  lemma InMemory(mem: Memory, data: nat, bytes: seq<byte>, around: Memory)
    requires forall i: nat :: mem(i) == if data <= i < data + |bytes| then bytes[i - data] else around(i)
    ensures Holds(mem, data, bytes)
  {
  }

  lemma NonNegative(p: EncoderParams)
    requires p.Valid()
    ensures forall i :: 0 <= i < 16 ==> p.scaleFactor[i] >= 0
  {
  }

  lemma FoundAtOnce(mem: Memory, data: nat, bytes: nat)
    requires mem(data) == 0x9C
    ensures Skipped(mem, data, bytes) == 0
  {
  }

  lemma PacketRoomy(mem: Memory, data: nat, bytes: nat, room: nat, stride: nat, length: nat, info: FrameInfo)
    requires Skipped(mem, data, bytes) == 0 && ParseHeader(mem(data + 1), mem(data + 2)) == info
    requires length >= SynthesisWindow.Strided(stride, room)
    requires Verdict(mem, data, bytes, room).Ok? ==> length >= Cells(info, stride)
    ensures Roomy(mem, data, bytes, room, stride, length)
  {
    hide Verdict, Cells;
  }

  /** Encode a packet, put it anywhere in a memory, decode it there: it is decoded exactly if its bitpool
      is at least 2 and its PCM has room, and otherwise leaves the decoder's histories alone. */
  method Transmit(p: EncoderParams, least: nat, packet: array<byte>, ctx: DecoderContext, around: Memory, data: nat,
                  pcm: array<int>, room: nat)
    returns (mem: Memory, length: nat, status: Status, frames: nat)
    requires p.Valid() && least <= 15 && ScaleFactors.Moderate(p.sbBuffer[..], p.info) && PoolFits(p.info)
    requires packet.Length >= FrameLength(p.info) + 1
    requires ctx.Valid() && pcm !in ctx.Repr() && pcm.Length >= SynthesisWindow.Strided(ctx.pcmStride, room)
    requires room >= PcmFrames(p.info) ==> pcm.Length >= Cells(p.info, ctx.pcmStride)
    requires {p, p.scaleFactor, p.sbBuffer, p.join, p.scratch, p.bits, packet} !! ({ctx, pcm} + ctx.Repr())
    modifies p.scaleFactor, p.sbBuffer, p.join, p`maxBitNeed, p.scratch, p.bits, packet
    modifies ctx, ctx.Repr(), pcm
    ensures p.info == old(p.info) && p.Valid()
    ensures ctx.Valid() && FrameLength(p.info) <= length <= packet.Length
    ensures status == if p.info.bitpool < 2 then InvalidParameters else if room < PcmFrames(p.info) then NotEnoughAudioData else Ok
    ensures Sent(p.info, p.join[..], p.sbBuffer[..], p.scaleFactor[..p.info.Lanes()], packet[..length])
    ensures Holds(mem, data, packet[..length])
    ensures forall i: nat :: !(data <= i < data + length) ==> mem(i) == around(i)
    ensures SynthesisWindow.Eights(old(ctx.ls)) && SynthesisWindow.Eights(old(ctx.rs))
    ensures status.Ok? ==>
      && length == FrameLength(p.info) && frames == PcmFrames(p.info)
      && Decoded(ctx, pcm[..], mem, data, p.info, old(ctx.ls), old(ctx.rs))
    ensures !status.Ok? ==> frames == 0 && ctx.ls == old(ctx.ls) && ctx.rs == old(ctx.rs) && pcm[..] == old(pcm[..])
  {
    hide *;
    ContextParts(ctx);
    HistoriesKnown(ctx);
    Separated(ctx);
    var maxBit;
    length, maxBit := SbcEncoder.EncodePacket(p, packet, least);
    StillReady(ctx);
    var bytes := packet[..length];
    mem := (i: nat) => if data <= i < data + |bytes| then bytes[i - data] else around(i);
    ScaleFactors.ShapeKnown(p);
    NonNegative(p);
    ghost var sfs: seq<nat> := p.scaleFactor[..p.info.Lanes()];
    ghost var join, sb := p.join[..], p.sbBuffer[..];
    NowSent(p, bytes);
    InMemory(mem, data, bytes, around);
    HeaderInMemory(mem, data, p.info, join, sb, sfs, bytes);
    PacketAtLeastFrame(p.info, sfs);
    PacketVerdict(mem, data, p.info, join, sb, sfs, bytes, length, room);
    PacketAccepted(mem, data, p.info, join, sb, sfs, bytes, room);
    FoundAtOnce(mem, data, length);
    PacketRoomy(mem, data, length, room, ctx.pcmStride, pcm.Length, p.info);
    var d, b;
    status, d, b, frames := DecodeFrame(ctx, mem, data, length, pcm, room);
  }
}
