/** From the bytes behind a frame header to the subband samples: the first half of DecodeBody. */
module FrameDecoder {
  import opened Bits
  import opened BitStrings
  import opened BitReader
  import opened Frames
  import opened FrameLayout
  import opened BitNeeds
  import opened DecoderContexts
  import opened FrameLengths
  import opened FrameReader
  import opened JointReader
  import AllocationAgreement
  import DecoderAllocation

  // ---- what a frame body means, without any decoder state ----

  ghost function SfsAt(mem: Memory, body: nat, info: FrameInfo): (sfs: seq<nat>)
    ensures |sfs| == info.Lanes() && forall i :: 0 <= i < |sfs| ==> sfs[i] < 16
  {
    assert forall i :: 0 <= i < info.Lanes() ==> NibbleAt(mem, 8 * body + JoinBits(info) + 4 * i) < 16 by {
      forall i | 0 <= i < info.Lanes() ensures NibbleAt(mem, 8 * body + JoinBits(info) + 4 * i) < 16 {
        NibbleBound(mem, 8 * body + JoinBits(info) + 4 * i);
      }
    }
    seq(info.Lanes(), i requires 0 <= i < info.Lanes() => NibbleAt(mem, 8 * body + JoinBits(info) + 4 * i))
  }

  lemma NibbleBound(mem: Memory, pos: nat)
    ensures NibbleAt(mem, pos) < 16
  {
    hide BitsVal, BitsAt;
    BitsValBound(BitsAt(mem, pos, 4));
    assert Pow2(4) == 16;
  }

  ghost function JoinAt(mem: Memory, body: nat, info: FrameInfo): nat {
    if info.mode.Joint? then BitsVal(BitsAt(mem, 8 * body, info.NrofSubbands())) else 0
  }

  /** The samples as they were sent. */
  ghost function SentAt(mem: Memory, body: nat, info: FrameInfo): (raw: seq<int>)
    requires info.Valid() && PoolFits(info)
    ensures |raw| == SampleCount(info)
  {
    var sfs := SfsAt(mem, body, info);
    LanesReadable(info, sfs);
    Sent(mem, 8 * body + HeadWidth(info), info, sfs, FrameBits(info, sfs))
  }

  /** The samples of all subbands. */
  ghost function SamplesAt(mem: Memory, body: nat, info: FrameInfo): (samples: seq<int>)
    requires info.Valid() && PoolFits(info)
    ensures |samples| == SampleCount(info)
  {
    var raw := SentAt(mem, body, info);
    seq(|raw|, k requires 0 <= k < |raw| => if info.mode.Joint? then JointAt(raw, info, JoinAt(mem, body, info), k) else raw[k])
  }

  lemma LanesReadable(info: FrameInfo, sfs: seq<nat>)
    requires info.Valid() && PoolFits(info) && |sfs| == info.Lanes() && forall i :: 0 <= i < |sfs| ==> sfs[i] < 16
    ensures LanesValid(info, sfs, FrameBits(info, sfs))
  {
    hide FrameBits;
    AllocationAgreement.Conservation(info, sfs);
  }

  // ---- the decoder ----

  /** Scale factors, bit allocation and samples of one frame body: whatever the context held
      before, the outcome is that of the bytes alone. */
  method ReadFrame(common: CommonContext, mem: Memory, bodyData: nat) returns (ghost loaded: nat)
    requires common.Valid() && PoolFits(common.info)
    modifies common.scaleFactor, common.bits, common.subdata, common`join, common`maxBitneed
    ensures common.Valid()
    ensures common.scaleFactor[..common.info.Lanes()] == SfsAt(mem, bodyData, common.info)
    ensures common.bits[..common.info.Lanes()] == FrameBits(common.info, SfsAt(mem, bodyData, common.info))
    ensures common.join == JoinAt(mem, bodyData, common.info)
    ensures SampleCount(common.info) <= common.subdata.Length
    ensures common.subdata[..SampleCount(common.info)] == SamplesAt(mem, bodyData, common.info)
    ensures bodyData >= 4 ==> loaded == LoadedTo(common.info, bodyData - 4)
  {
    hide *;
    ghost var info := common.info;
    ContextShape(common);
    var bs := ReadScalefactors(common, mem, bodyData);
    ghost var sfs := common.scaleFactor[..info.Lanes()];
    SfsRead(sfs, mem, bodyData, info);
    ContextShape(common);
    DecoderAllocation.ComputeBitAllocation(common);
    ContextShape(common);
    assert common.scaleFactor[..info.Lanes()] == sfs;
    LanesReadable(info, sfs);
    JoinBound(mem, bodyData, info);
    ghost var bits := common.bits[..info.Lanes()];
    SentHere(mem, bodyData, info);
    if common.info.mode.Joint? {
      ReadSamplesJoint(common.subdata, bs, common.info, common.scaleFactor[..common.info.Lanes()], common.bits[..common.info.Lanes()], common.join);
      JointAll(common.subdata[..], Sent(mem, 8 * bodyData + HeadWidth(info), info, sfs, bits), info, common.join);
    } else {
      ReadSamples(common.subdata, bs, common.info, common.scaleFactor[..common.info.Lanes()], common.bits[..common.info.Lanes()]);
      PlainAll(common.subdata[..], mem, 8 * bodyData + HeadWidth(info), info, sfs, bits);
    }
    SamplesHere(common.subdata[..], mem, bodyData, info);
    LookAhead(bs);
    loaded := bs.ptr;
    AllocationAgreement.Conservation(info, sfs);
    EndOfSamples(info, bits, bodyData);
  }

  lemma EndOfSamples(info: FrameInfo, bits: seq<nat>, body: nat)
    requires |bits| == info.Lanes() && AllocationAgreement.Conserved(info, bits)
    ensures var end := SamplePosition(info, bits, 8 * body + HeadWidth(info), SampleCount(info));
      body >= 4 ==> end / 8 + 3 == LoadedTo(info, body - 4)
  {
    hide AllocationAgreement.Conserved, Width, PayloadBits, HeadWidth, SampleWidths;
    PayloadIsBitpool(info, bits);
    var ws := SampleWidths(info, bits);
    assert ws[..SampleCount(info)] == ws;
  }

  lemma ContextShape(common: CommonContext)
    requires common.Valid()
    ensures common.info.Valid() && common.info.Lanes() <= 16 == common.scaleFactor.Length == common.bits.Length
    ensures common.subdata.Length == 256 >= SampleCount(common.info) && common.scaleFactor != common.bits
  {
    SamplesFit(common.info);
  }

  lemma SfsRead(sfs: seq<nat>, mem: Memory, body: nat, info: FrameInfo)
    requires |sfs| == info.Lanes() && forall i :: 0 <= i < info.Lanes() ==> sfs[i] == NibbleAt(mem, 8 * body + JoinBits(info) + 4 * i)
    ensures sfs == SfsAt(mem, body, info)
  {
    hide NibbleAt;
  }

  lemma JoinBound(mem: Memory, body: nat, info: FrameInfo)
    ensures JoinAt(mem, body, info) < Pow2(info.NrofSubbands())
    ensures JoinAt(mem, body, info) == if info.mode.Joint? then BitsVal(BitsAt(mem, 8 * body, info.NrofSubbands())) else 0
  {
    hide BitsVal, BitsAt, Pow2;
    BitsValBound(BitsAt(mem, 8 * body, info.NrofSubbands()));
  }

  lemma PlainAll(subdata: seq<int>, mem: Memory, base: nat, info: FrameInfo, sfs: seq<nat>, bits: seq<nat>)
    requires SamplesRead(subdata, mem, base, info, sfs, bits, SampleCount(info))
    ensures LanesValid(info, sfs, bits) && SampleCount(info) <= |subdata|
    ensures forall k :: 0 <= k < SampleCount(info) ==> subdata[k] == Sent(mem, base, info, sfs, bits)[k]
  {
    hide DequantAt, SampleCount;
  }

  lemma SentHere(mem: Memory, body: nat, info: FrameInfo)
    requires info.Valid() && PoolFits(info)
    ensures var sfs := SfsAt(mem, body, info);
      LanesValid(info, sfs, FrameBits(info, sfs)) && SentAt(mem, body, info) == Sent(mem, 8 * body + HeadWidth(info), info, sfs, FrameBits(info, sfs))
  {
    hide SfsAt, FrameBits, HeadWidth;
    LanesReadable(info, SfsAt(mem, body, info));
  }

  lemma SamplesHere(subdata: seq<int>, mem: Memory, body: nat, info: FrameInfo)
    requires info.Valid() && PoolFits(info) && SampleCount(info) <= |subdata|
    requires forall k :: 0 <= k < SampleCount(info) ==>
      subdata[k] == if info.mode.Joint? then JointAt(SentAt(mem, body, info), info, JoinAt(mem, body, info), k) else SentAt(mem, body, info)[k]
    ensures subdata[..SampleCount(info)] == SamplesAt(mem, body, info)
  {
    hide JointAt, SentAt, JoinAt, SampleCount;
  }
}
