/** OI_CODEC_SBC_DecodeFrame: find a syncword, check the header, decode one frame. */
module DecoderSbc {
  import opened BitStrings
  import opened BitReader
  import opened Frames
  import opened FrameLayout
  import opened BitNeeds
  import opened FrameLengths
  import opened DecoderContexts
  import opened FrameReader
  import opened FrameDecoder
  import opened BlockLayout
  import opened SynthesisWindow
  import Crc

  datatype Status = Ok | NoSyncword | NotEnoughHeaderData | NotEnoughBodyData | NotEnoughAudioData | ChecksumMismatch | InvalidParameters

  // ---- the verdict on some bytes, without any decoder state ----

  /** Bytes before the first syncword. */
  function Skipped(mem: Memory, data: nat, bytes: nat): (n: nat)
    ensures n <= bytes
    ensures n < bytes ==> mem(data + n) == 0x9C
    ensures forall i :: data <= i < data + n ==> mem(i) != 0x9C
    decreases bytes
  {
    if bytes == 0 || mem(data) == 0x9C then 0 else 1 + Skipped(mem, data + 1, bytes - 1)
  }

  /** The bytes a checksum is taken over. */
  function HeaderBytes(mem: Memory, data: nat, info: FrameInfo): (s: seq<byte>)
    ensures |s| == Crc.ChecksumBytes(info) + 1
  {
    seq(Crc.ChecksumBytes(info) + 1, i requires 0 <= i => mem(data + i))
  }

  /** What is wrong with the frame at a syncword, if anything. */
  function FrameStatus(mem: Memory, data: nat, bytes: nat, room: nat): Status {
    if bytes < 4 then NotEnoughHeaderData
    else
      var info := ParseHeader(mem(data + 1), mem(data + 2));
      if bytes < CalculateFramelen(info) then NotEnoughBodyData
      else if Crc.Checksum(info, HeaderBytes(mem, data, info)) != mem(data + 3) then ChecksumMismatch
      else if info.bitpool < 2 || info.bitpool > info.MaxBitpool() then InvalidParameters
      else if room < PcmFrames(info) then NotEnoughAudioData
      else Ok
  }

  /** PCM frames one SBC frame decodes to. */
  function PcmFrames(info: FrameInfo): nat {
    info.NrofBlocks() * info.NrofSubbands()
  }

  /** What DecodeFrame answers for `bytes` bytes and room for `room` PCM frames. */
  function Verdict(mem: Memory, data: nat, bytes: nat, room: nat): Status {
    if bytes == 0 then NotEnoughHeaderData
    else
      var n := Skipped(mem, data, bytes);
      if n == bytes then NoSyncword else FrameStatus(mem, data + n, bytes - n, room)
  }

  /** A whole frame that would be accepted on its own. */
  ghost predicate GoodFrame(mem: Memory, data: nat, room: nat) {
    var info := ParseHeader(mem(data + 1), mem(data + 2));
    mem(data) == 0x9C && FrameStatus(mem, data, FrameLength(info), room).Ok?
  }

  /** The tests of a complete frame: checksum, a bitpool from 2 to 16 bits a subband (of both channels where
      they share it), and room for one PCM frame per band and block. */
  lemma AcceptedIff(mem: Memory, data: nat, bytes: nat, room: nat)
    requires var info := ParseHeader(mem(data + 1), mem(data + 2)); bytes >= 4 && bytes >= FrameLength(info)
    ensures var info := ParseHeader(mem(data + 1), mem(data + 2));
      FrameStatus(mem, data, bytes, room).Ok? <==>
        && Crc.Checksum(info, HeaderBytes(mem, data, info)) == mem(data + 3)
        && 2 <= info.bitpool <= (if info.mode.Mono? || info.mode.Dual? then 16 else 32) * info.NrofSubbands()
        && info.NrofBlocks() * info.NrofSubbands() <= room
  {
    hide Crc.Checksum;
    FramelenExact(ParseHeader(mem(data + 1), mem(data + 2)));
    hide CalculateFramelen, FrameLength;
  }

  /** More bytes behind a good frame do not matter. */
  lemma GoodFrameAccepted(mem: Memory, data: nat, bytes: nat, room: nat)
    requires GoodFrame(mem, data, room) && bytes >= FrameLength(ParseHeader(mem(data + 1), mem(data + 2)))
    ensures Skipped(mem, data, bytes) == 0 && bytes >= 4 && Verdict(mem, data, bytes, room).Ok?
  {
    hide Crc.Checksum;
    FramelenExact(ParseHeader(mem(data + 1), mem(data + 2)));
    assert FrameLength(ParseHeader(mem(data + 1), mem(data + 2))) >= 4;
    hide CalculateFramelen, FrameLength;
  }

  // ---- the decoder ----

  class DecoderContext {
    const common: CommonContext
    const filters: FilterBuffers
    var pcmStride: nat
    const bank4: Bank
    const bank8: Bank
    /** Outputs of the transforms since the last reset, as far as the buffers show them. */
    ghost var ls: seq<seq<int>>
    ghost var rs: seq<seq<int>>

    /** SbcDecoder::begin with the reset it ends in: memory cleared, no history. */
    constructor (pcmStride: nat, bank4: Bank, bank8: Bank)
      requires pcmStride == 1 || pcmStride == 2
      requires bank4.Valid() && bank4.bands == 4 && bank8.Valid() && bank8.bands == 8
      ensures Valid() && fresh(common) && fresh(filters) && fresh(Repr())
      ensures this.pcmStride == pcmStride && this.bank4 == bank4 && this.bank8 == bank8 && ls == rs == []
    {
      common := new CommonContext();
      filters := new FilterBuffers(216);
      this.pcmStride := pcmStride;
      this.bank4 := bank4;
      this.bank8 := bank8;
      ls := [];
      rs := [];
    }

    function Repr(): set<object> {
      {common, filters, common.scaleFactor, common.bits, common.subdata, filters.left, filters.right}
    }

    ghost predicate Valid()
      reads this, Repr()
    {
      && common.Valid() && common.CacheValid() && filters.Valid() && Equipped()
      && (pcmStride == 1 || pcmStride == 2)
      && Ready(filters.left[..], filters.right[..], filters.offset, 2, ls, rs)
    }

    /** What no method changes. */
    ghost predicate Equipped() {
      && bank4.Valid() && bank4.bands == 4 && bank8.Valid() && bank8.bands == 8
      && common.subdata !in {filters.left, filters.right}
    }

    function BankOf(info: FrameInfo): Bank {
      if info.NrofSubbands() == 4 then bank4 else bank8
    }
  }

  /** SbcDecoder::reset: context and filter memory are cleared and internal_DecoderReset builds the rest. */
  method ResetContext(ctx: DecoderContext, pcmStride: nat)
    requires ctx.Valid() && (pcmStride == 1 || pcmStride == 2)
    modifies ctx, ctx.Repr()
    ensures ctx.Valid() && ctx.pcmStride == pcmStride && ctx.ls == ctx.rs == [] && ctx.common.cachedInfo == 0
  {
    hide *;
    ContextParts(ctx);
    Separated(ctx);
    ctx.common.Clear();
    ctx.filters.Clear();
    ctx.pcmStride := pcmStride;
    ctx.ls, ctx.rs := [], [];
    StillReady(ctx);
  }

  lemma Separated(ctx: DecoderContext)
    ensures {ctx.common, ctx.filters, ctx.common.scaleFactor, ctx.common.bits, ctx.common.subdata, ctx.filters.left, ctx.filters.right} == ctx.Repr()
  {
  }

  /** FindSyncword in standard mode. */
  method FindSyncword(mem: Memory, frameData: nat, frameBytes: nat) returns (status: Status, data: nat, bytes: nat)
    ensures frameBytes == 0 ==> status.NotEnoughHeaderData? && data == frameData && bytes == 0
    ensures frameBytes > 0 ==>
      var n := Skipped(mem, frameData, frameBytes);
      data == frameData + n && bytes == frameBytes - n && status == if n == frameBytes then NoSyncword else Ok
  {
    data, bytes := frameData, frameBytes;
    if frameBytes == 0 {
      return NotEnoughHeaderData, data, bytes;
    }
    while bytes != 0 && mem(data) != 0x9C
      invariant bytes <= frameBytes && data == frameData + (frameBytes - bytes)
      invariant Skipped(mem, frameData, frameBytes) == frameBytes - bytes + Skipped(mem, data, bytes)
    {
      bytes := bytes - 1;
      data := data + 1;
    }
    status := if bytes != 0 then Ok else NoSyncword;
  }

  // ---- the body of a frame ----

  /** Samples are laid out as the synthesis filter takes them. */
  lemma SamplesForSynthesis(info: FrameInfo)
    ensures InputStart(info.NrofSubbands(), info.NrofChannels(), info.NrofBlocks(), 0) == SampleCount(info)
    ensures PcmStart(info.NrofSubbands(), 1, info.NrofBlocks()) == PcmFrames(info)
    ensures PcmStart(info.NrofSubbands(), 2, info.NrofBlocks()) == 2 * PcmFrames(info)
  {
    var b, n, c := info.NrofBlocks(), info.NrofSubbands(), info.NrofChannels();
    assert (b * c + 0) * n == b * c * n;
    assert b * (2 * n) == 2 * (b * n);
    assert c == 1 ==> b * c * n == b * n;
    assert c == 2 ==> b * c * n == b * (2 * n);
  }

  /** The outputs of one channel after this frame. */
  ghost function Grown(bank: Bank, past: seq<seq<int>>, mem: Memory, at: nat, info: FrameInfo,
                       ch: nat): (outs: seq<seq<int>>)
    requires bank.Valid() && bank.bands == info.NrofSubbands() && info.Valid() && PoolFits(info)
    requires ch < info.NrofChannels()
    requires Eights(past)
    ensures Eights(outs) && |outs| == |past| + info.NrofBlocks()
  {
    SamplesForSynthesis(info);
    past + Outputs(bank, SamplesAt(mem, at + 4, info), info.NrofChannels(), ch, info.NrofBlocks())
  }

  /** The PCM of a frame: each block plays the window over the outputs up to itself. A mono frame
      plays in both slots of a two-channel interleave; of a two-channel frame without an interleave there
      is what the channels have left of each other. */
  ghost predicate Sounds(pcm: seq<int>, bank: Bank, stride: nat, mem: Memory, at: nat, info: FrameInfo,
                         ls: seq<seq<int>>, rs: seq<seq<int>>)
    requires bank.Valid() && bank.bands == info.NrofSubbands() && info.Valid() && PoolFits(info) && Eights(ls)
    requires Eights(rs)
  {
    var channels, blocks := info.NrofChannels(), info.NrofBlocks();
    && FramePlayed(pcm, bank, stride, channels, 0, Grown(bank, ls, mem, at, info, 0), |ls|, blocks)
    && (channels == 2 ==> FramePlayed(pcm, bank, stride, 2, 1, Grown(bank, rs, mem, at, info, 1), |rs|, blocks))
    && (channels == 1 && stride == 2 ==> FramePlayed(pcm, bank, 2, 1, 1, Grown(bank, ls, mem, at, info, 0), |ls|, blocks))
  }

  /** `pcmData[2 * i + 1] = pcmData[2 * i]` for a mono frame in a two-channel interleave. */
  method DuplicateMono(pcm: array<int>, frames: nat)
    requires 2 * frames <= pcm.Length
    modifies pcm
    ensures forall j :: 0 <= j < pcm.Length && (j >= 2 * frames || j % 2 == 0) ==> pcm[j] == old(pcm[j])
    ensures forall j :: 0 <= j < 2 * frames && j % 2 == 1 ==> pcm[j] == old(pcm[j - 1])
  {
    var i := 0;
    while i < frames
      invariant i <= frames
      invariant forall j :: 0 <= j < pcm.Length && (j >= 2 * i || j % 2 == 0) ==> pcm[j] == old(pcm[j])
      invariant forall j :: 0 <= j < 2 * i && j % 2 == 1 ==> pcm[j] == old(pcm[j - 1])
    {
      pcm[2 * i + 1] := pcm[2 * i];
      i := i + 1;
    }
  }

  lemma DuplicatePlays(before: seq<int>, after: seq<int>, bank: Bank, outs: seq<seq<int>>, past: nat, blocks: nat,
                       frames: nat)
    requires FramePlayed(before, bank, 2, 1, 0, outs, past, blocks) && |after| == |before| && bank.Valid()
    requires PcmStart(bank.bands, 2, blocks) == 2 * frames <= |before|
    requires forall j :: 0 <= j < |before| && (j >= 2 * frames || j % 2 == 0) ==> after[j] == before[j]
    requires forall j :: 0 <= j < 2 * frames && j % 2 == 1 ==> after[j] == before[j - 1]
    ensures FramePlayed(after, bank, 2, 1, 0, outs, past, blocks) && FramePlayed(after, bank, 2, 1, 1, outs, past, blocks)
  {
    hide BlockPcm, PcmStart;
    forall b | 0 <= b < blocks
      ensures KeptPlayed(after, PcmStart(bank.bands, 2, b), 2, 1, 0, BlockPcm(bank, outs, past + b))
      ensures KeptPlayed(after, PcmStart(bank.bands, 2, b), 2, 1, 1, BlockPcm(bank, outs, past + b))
    {
      assert KeptPlayed(before, PcmStart(bank.bands, 2, b), 2, 1, 0, BlockPcm(bank, outs, past + b));
      BlockPcmLength(bank, outs, past + b);
      PcmNext(bank.bands, 2, b);
      PcmOrder(bank.bands, 2, b + 1, blocks);
      PcmEven(bank.bands, b);
    }
  }

  lemma BlockPcmLength(bank: Bank, outs: seq<seq<int>>, k: nat)
    requires bank.Valid() && Eights(outs) && k < |outs|
    ensures |BlockPcm(bank, outs, k)| == bank.bands
  {
    hide SynthesisWindow.Window;
  }

  lemma PcmEven(bands: nat, b: nat)
    ensures PcmStart(bands, 2, b) % 2 == 0
  {
    assert b * (2 * bands) == 2 * (b * bands);
  }

  /** What the context holds after a frame whose syncword is at `at`. */
  ghost predicate Decoded(ctx: DecoderContext, pcm: seq<int>, mem: Memory, at: nat, info: FrameInfo, ls: seq<seq<int>>,
                          rs: seq<seq<int>>)
    requires ctx.Valid() && info.Valid() && PoolFits(info) && Eights(ls) && Eights(rs)
    reads ctx, ctx.Repr()
  {
    BankFits(ctx, info);
    && ctx.common.info == info
    && ctx.ls == Grown(ctx.BankOf(info), ls, mem, at, info, 0)
    && (info.NrofChannels() == 2 ==> ctx.rs == Grown(ctx.BankOf(info), rs, mem, at, info, 1))
    && Sounds(pcm, ctx.BankOf(info), ctx.pcmStride, mem, at, info, ls, rs)
  }

  lemma BankFits(ctx: DecoderContext, info: FrameInfo)
    requires ctx.Valid()
    ensures ctx.BankOf(info).Valid() && ctx.BankOf(info).bands == info.NrofSubbands()
  {
  }

  lemma HistoriesKnown(ctx: DecoderContext)
    requires ctx.Valid()
    ensures Eights(ctx.ls) && Eights(ctx.rs)
  {
  }

  /** Cells of the output buffer a frame writes: one more than its PCM frames have if there are more
      channels than the interleave has slots. */
  function Cells(info: FrameInfo, stride: nat): nat {
    Strided(stride, PcmFrames(info)) + Spill(stride, info.NrofChannels())
  }

  /** The output buffer has the room it is said to have, and an accepted frame stays inside it. */
  ghost predicate Roomy(mem: Memory, data: nat, bytes: nat, room: nat, stride: nat, length: nat) {
    && Strided(stride, room) <= length
    && (Verdict(mem, data, bytes, room).Ok? ==>
          var at := data + Skipped(mem, data, bytes);
          Cells(ParseHeader(mem(at + 1), mem(at + 2)), stride) <= length)
  }

  /** A buffer that is just large enough for the PCM frames of an accepted frame contains all that is
      written exactly if the interleave has a slot for every channel. */
  lemma ExactRoomSufficesIff(mem: Memory, data: nat, bytes: nat, stride: nat)
    requires stride == 1 || stride == 2
    requires var at := data + Skipped(mem, data, bytes);
      Verdict(mem, data, bytes, PcmFrames(ParseHeader(mem(at + 1), mem(at + 2)))).Ok?
    ensures var at := data + Skipped(mem, data, bytes);
      var info := ParseHeader(mem(at + 1), mem(at + 2));
      Roomy(mem, data, bytes, PcmFrames(info), stride, Strided(stride, PcmFrames(info))) <==> info.NrofChannels() <= stride
  {
    hide Verdict, PcmFrames;
  }

  /** A frame of silence with any header, and its checksum. */
  function FrameOf(info: FrameInfo): Memory
    requires info.Valid()
  {
    var bare := Bare(HeaderByte(info), info.bitpool);
    var crc := Crc.Checksum(info, HeaderBytes(bare, 0, info));
    (i: nat) => if i == 3 then crc else bare(i)
  }

  function Bare(header: byte, bitpool: byte): Memory {
    (i: nat) => if i == 0 then 0x9C else if i == 1 then header else if i == 2 then bitpool else 0
  }

  lemma FrameOfIsGood(info: FrameInfo)
    requires info.Valid() && PoolFits(info) && info.bitpool >= 2
    ensures ParseHeader(FrameOf(info)(1), FrameOf(info)(2)) == info && GoodFrame(FrameOf(info), 0, PcmFrames(info))
  {
    hide Crc.Checksum, HeaderByte, ParseHeader, CalculateFramelen, PcmFrames;
    HeaderRoundTrip(info);
    FramelenExact(info);
    assert FrameLength(info) >= 4;
    hide FrameLength;
    Crc.ChecksumReads(info, HeaderBytes(Bare(HeaderByte(info), info.bitpool), 0, info), HeaderBytes(FrameOf(info), 0, info));
  }

  /** Every two-channel frame, decoded without an interleave into a buffer for its PCM frames, is
      accepted and written past the end. */
  lemma TwoChannelsOverrun(info: FrameInfo)
    requires info.Valid() && PoolFits(info) && info.bitpool >= 2
    ensures Verdict(FrameOf(info), 0, FrameLength(info), PcmFrames(info)).Ok?
    ensures Roomy(FrameOf(info), 0, FrameLength(info), PcmFrames(info), 1, Strided(1, PcmFrames(info))) <==> info.NrofChannels() == 1
  {
    hide *;
    FrameOfIsGood(info);
    GoodFrameAccepted(FrameOf(info), 0, FrameLength(info), PcmFrames(info));
    ExactRoomSufficesIff(FrameOf(info), 0, FrameLength(info), 1);
    OneOrTwo(info);
  }

  lemma OneOrTwo(info: FrameInfo)
    ensures info.NrofChannels() == 1 || info.NrofChannels() == 2
  {
  }

  /** One such frame: stereo, four blocks of four subbands, 16 PCM frames. */
  lemma StereoOverruns()
    ensures var info := FrameInfo(0, 0, Stereo, Loudness, 0, 2);
      && info.Valid() && PcmFrames(info) == 16 && Verdict(FrameOf(info), 0, FrameLength(info), 16).Ok?
      && !Roomy(FrameOf(info), 0, FrameLength(info), 16, 1, Strided(1, 16))
  {
    hide Verdict, FrameOf, Roomy, FrameLength;
    TwoChannelsOverrun(FrameInfo(0, 0, Stereo, Loudness, 0, 2));
  }

  /** The filter part of DecodeBody. */
  method Synthesize(ctx: DecoderContext, samples: seq<int>, pcm: array<int>, ghost mem: Memory, ghost at: nat)
    requires ctx.Valid() && PoolFits(ctx.common.info) && samples == SamplesAt(mem, at + 4, ctx.common.info)
    requires pcm !in {ctx.filters.left, ctx.filters.right, ctx.common.subdata}
    requires pcm.Length >= Cells(ctx.common.info, ctx.pcmStride)
    modifies ctx`ls, ctx`rs, ctx.filters`offset, ctx.filters.left, ctx.filters.right, pcm
    ensures ctx.Valid() && Eights(old(ctx.ls)) && Eights(old(ctx.rs))
    ensures Decoded(ctx, pcm[..], mem, at, ctx.common.info, old(ctx.ls), old(ctx.rs))
    ensures forall j :: Cells(ctx.common.info, ctx.pcmStride) <= j < pcm.Length ==> pcm[j] == old(pcm[j])
  {
    hide *;
    ghost var ls, rs := ctx.ls, ctx.rs;
    HistoriesKnown(ctx);
    ContextParts(ctx);
    var info := ctx.common.info;
    BankFits(ctx, info);
    SamplesForSynthesis(info);
    var channels, bank := info.NrofChannels(), ctx.BankOf(info);
    ReadyFor(ctx.filters.left[..], ctx.filters.right[..], ctx.filters.offset, info, ls, rs);
    RoomFor(info, ctx.pcmStride, pcm.Length);
    SynthFrame(ctx.filters, bank, samples, channels, info.NrofBlocks(), pcm, ctx.pcmStride, ls, rs);
    ghost var played := pcm[..];
    if channels == 1 && ctx.pcmStride == 2 {
      DuplicateMono(pcm, PcmFrames(info));
    }
    FrameSounds(ctx.filters.left[..], ctx.filters.right[..], played, pcm[..], ctx.filters.offset, bank, ctx.pcmStride, mem, at, info, ls, rs);
    ctx.ls := Grown(bank, ls, mem, at, info, 0);
    if channels == 2 {
      ctx.rs := Grown(bank, rs, mem, at, info, 1);
    } else {
      ShownFits(ctx.filters);
      ctx.rs := HistoryFor(ctx.filters.right[ctx.filters.offset..ctx.filters.offset + 80]);
      assert ctx.filters.right[..][ctx.filters.offset..ctx.filters.offset + 80] == ctx.filters.right[ctx.filters.offset..ctx.filters.offset + 80];
      ShownBy(ctx.filters.right[..], ctx.filters.offset, ctx.rs);
    }
    ReadyAgain(ctx);
    DecodedNow(ctx, pcm[..], mem, at, info, ls, rs);
  }

  lemma DecodedNow(ctx: DecoderContext, pcm: seq<int>, mem: Memory, at: nat, info: FrameInfo, ls: seq<seq<int>>,
                   rs: seq<seq<int>>)
    requires ctx.Valid() && info.Valid() && PoolFits(info) && Eights(ls) && Eights(rs) && ctx.common.info == info
    requires ctx.BankOf(info).Valid() && ctx.BankOf(info).bands == info.NrofSubbands()
    requires ctx.ls == Grown(ctx.BankOf(info), ls, mem, at, info, 0)
    requires info.NrofChannels() == 2 ==> ctx.rs == Grown(ctx.BankOf(info), rs, mem, at, info, 1)
    requires Sounds(pcm, ctx.BankOf(info), ctx.pcmStride, mem, at, info, ls, rs)
    ensures Decoded(ctx, pcm, mem, at, info, ls, rs)
  {
    hide Sounds, Grown;
  }

  lemma ContextParts(ctx: DecoderContext)
    requires ctx.Valid()
    ensures ctx.common.Valid() && ctx.common.info.Valid() && ctx.common.CacheValid() && ctx.filters.Valid()
    ensures ctx.Equipped()
    ensures ctx.pcmStride == 1 || ctx.pcmStride == 2
    ensures ctx.common.subdata !in {ctx.filters.left, ctx.filters.right}
    ensures ctx.common.subdata.Length == 256 && SampleCount(ctx.common.info) <= 256
    ensures ctx.common.scaleFactor != ctx.common.bits
    ensures Ready(ctx.filters.left[..], ctx.filters.right[..], ctx.filters.offset, 2, ctx.ls, ctx.rs)
  {
    SamplesFit(ctx.common.info);
  }

  lemma ReadyFor(left: seq<int>, right: seq<int>, offset: nat, info: FrameInfo, ls: seq<seq<int>>, rs: seq<seq<int>>)
    requires Ready(left, right, offset, 2, ls, rs)
    ensures Ready(left, right, offset, info.NrofChannels(), ls, rs)
    ensures (info.NrofChannels() == 1 || info.NrofChannels() == 2)
  {
  }

  lemma RoomFor(info: FrameInfo, stride: nat, length: nat)
    requires (stride == 1 || stride == 2) && length >= Cells(info, stride)
    ensures PcmStart(info.NrofSubbands(), stride, info.NrofBlocks()) + Spill(stride, info.NrofChannels()) == Cells(info, stride)
    ensures stride == 2 ==> 2 * PcmFrames(info) == Cells(info, stride)
  {
    SamplesForSynthesis(info);
    hide PcmStart, PcmFrames;
  }

  /** The synthesis of a frame, in terms of the frame's bytes. */
  lemma FrameSounds(left: seq<int>, right: seq<int>, played: seq<int>, pcm: seq<int>, offset: nat, bank: Bank,
                    stride: nat, mem: Memory, at: nat,
                    info: FrameInfo, ls: seq<seq<int>>, rs: seq<seq<int>>)
    requires bank.Valid() && bank.bands == info.NrofSubbands() && info.Valid() && PoolFits(info) && Eights(ls)
    requires Eights(rs)
    requires FrameAt(left, right, played, offset, bank, stride, SamplesAt(mem, at + 4, info), info.NrofChannels(), ls, rs, info.NrofBlocks())
    requires |pcm| == |played| && (stride == 1 || stride == 2)
    requires if info.NrofChannels() == 1 && stride == 2 then
        && 2 * PcmFrames(info) <= |played|
        && (forall j :: 0 <= j < |played| && (j >= 2 * PcmFrames(info) || j % 2 == 0) ==> pcm[j] == played[j])
        && (forall j :: 0 <= j < 2 * PcmFrames(info) && j % 2 == 1 ==> pcm[j] == played[j - 1])
      else pcm == played
    ensures offset % 8 == 0 && Showing(left, offset, Grown(bank, ls, mem, at, info, 0))
    ensures info.NrofChannels() == 2 ==> Showing(right, offset, Grown(bank, rs, mem, at, info, 1))
    ensures Sounds(pcm, bank, stride, mem, at, info, ls, rs)
  {
    SamplesForSynthesis(info);
    hide Showing, FramePlayed, Outputs, SamplesAt, PcmStart, PcmFrames, Eights, InputStart;
    if info.NrofChannels() == 1 && stride == 2 {
      DuplicatePlays(played, pcm, bank, Grown(bank, ls, mem, at, info, 0), |ls|, info.NrofBlocks(), PcmFrames(info));
    }
  }

  lemma ShownFits(filters: FilterBuffers)
    requires filters.Valid()
    ensures filters.offset + 80 <= filters.right.Length
  {
  }

  lemma ReadyAgain(ctx: DecoderContext)
    requires ctx.common.Valid() && ctx.common.CacheValid() && ctx.filters.Valid() && ctx.Equipped()
    requires (ctx.pcmStride == 1 || ctx.pcmStride == 2)
    requires ctx.filters.offset % 8 == 0 && Showing(ctx.filters.left[..], ctx.filters.offset, ctx.ls)
    requires Showing(ctx.filters.right[..], ctx.filters.offset, ctx.rs)
    ensures ctx.Valid()
  {
    hide Showing;
  }

  lemma ShownBy(right: seq<int>, offset: nat, outs: seq<seq<int>>)
    requires offset + 80 <= |right| && Eights(outs) && SynthesisWindow.Window(outs) == right[offset..offset + 80]
    ensures Showing(right, offset, outs)
  {
  }

  // ---- DecodeBody and DecodeFrame ----

  method DecodeBody(ctx: DecoderContext, mem: Memory, ghost at: nat, bodyData: nat, pcm: array<int>, room: nat)
    returns (status: Status, frames: nat)
    requires ctx.Valid() && PoolFits(ctx.common.info) && bodyData == at + 4
    requires pcm !in ctx.Repr() && pcm.Length >= Strided(ctx.pcmStride, room)
    requires room >= PcmFrames(ctx.common.info) ==> pcm.Length >= Cells(ctx.common.info, ctx.pcmStride)
    modifies ctx`ls, ctx`rs, ctx.common`join, ctx.common`maxBitneed, ctx.common.scaleFactor, ctx.common.bits, ctx.common.subdata,
      ctx.filters`offset, ctx.filters.left, ctx.filters.right, pcm
    ensures ctx.Valid() && Eights(old(ctx.ls)) && Eights(old(ctx.rs))
    ensures status == (if room < PcmFrames(ctx.common.info) then NotEnoughAudioData else Ok)
    ensures status.Ok? ==> frames == PcmFrames(ctx.common.info) && Decoded(ctx, pcm[..], mem, at, ctx.common.info, old(ctx.ls), old(ctx.rs))
    ensures forall j :: Cells(ctx.common.info, ctx.pcmStride) <= j < pcm.Length ==> pcm[j] == old(pcm[j])
    ensures !status.Ok? ==> frames == 0 && ctx.ls == old(ctx.ls) && ctx.rs == old(ctx.rs) && pcm[..] == old(pcm[..])
  {
    hide *;
    HistoriesKnown(ctx);
    ContextParts(ctx);
    if room < PcmFrames(ctx.common.info) {
      return NotEnoughAudioData, 0;
    }
    PcmApart(ctx, pcm);
    ghost var loaded := ReadFrame(ctx.common, mem, bodyData);
    StillReady(ctx);
    Synthesize(ctx, ctx.common.subdata[..SampleCount(ctx.common.info)], pcm, mem, at);
    return Ok, PcmFrames(ctx.common.info);
  }

  lemma PcmApart(ctx: DecoderContext, pcm: array<int>)
    requires pcm !in ctx.Repr()
    ensures pcm !in {ctx.filters.left, ctx.filters.right, ctx.common.subdata}
  {
  }

  lemma StillReady(ctx: DecoderContext)
    requires ctx.common.Valid() && ctx.common.CacheValid() && ctx.filters.Valid() && ctx.Equipped()
    requires (ctx.pcmStride == 1 || ctx.pcmStride == 2)
    requires Ready(ctx.filters.left[..], ctx.filters.right[..], ctx.filters.offset, 2, ctx.ls, ctx.rs)
    ensures ctx.Valid()
  {
    hide Showing;
  }

  /** OI_CODEC_SBC_DecodeFrame: the answer is that of the bytes alone, and so is the header the context
      ends up with, whatever it remembered; only an accepted frame moves the pointer past itself,
      touches the histories or writes PCM. */
  method DecodeFrame(ctx: DecoderContext, mem: Memory, frameData: nat, frameBytes: nat, pcm: array<int>, room: nat)
    returns (status: Status, data: nat, bytes: nat, frames: nat)
    requires ctx.Valid() && pcm !in ctx.Repr() && Roomy(mem, frameData, frameBytes, room, ctx.pcmStride, pcm.Length)
    modifies ctx`ls, ctx`rs, ctx.common`info, ctx.common`cachedInfo, ctx.common`crc, ctx.common`join, ctx.common`maxBitneed,
      ctx.common.scaleFactor, ctx.common.bits, ctx.common.subdata, ctx.filters`offset, ctx.filters.left, ctx.filters.right, pcm
    ensures ctx.Valid() && Eights(old(ctx.ls)) && Eights(old(ctx.rs))
    ensures status == Verdict(mem, frameData, frameBytes, room)
    ensures status.Ok? ==>
      var at := frameData + Skipped(mem, frameData, frameBytes);
      var info := ParseHeader(mem(at + 1), mem(at + 2));
      && PoolFits(info) && at + FrameLength(info) <= frameData + frameBytes
      && data == at + FrameLength(info) && bytes == frameBytes - (data - frameData) && frames == PcmFrames(info)
      && Decoded(ctx, pcm[..], mem, at, info, old(ctx.ls), old(ctx.rs))
      && forall j :: Cells(info, ctx.pcmStride) <= j < pcm.Length ==> pcm[j] == old(pcm[j])
    ensures !status.Ok? ==> frames == 0 && ctx.ls == old(ctx.ls) && ctx.rs == old(ctx.rs) && pcm[..] == old(pcm[..])
    ensures !status.Ok? ==> data + bytes == frameData + frameBytes && data >= frameData
  {
    hide *;
    HistoriesKnown(ctx);
    ContextParts(ctx);
    frames := 0;
    status, data, bytes := FindSyncword(mem, frameData, frameBytes);
    VerdictSteps(mem, frameData, frameBytes, room);
    StillReady(ctx);
    if !status.Ok? {
      return;
    }
    if bytes < 4 {
      status := NotEnoughHeaderData;
      return;
    }
    ghost var at := data;
    ReadHeader(ctx.common, mem, data);
    StillReady(ctx);
    ContextParts(ctx);
    var framelen := CalculateFramelen(ctx.common.info);
    FramelenExact(ctx.common.info);
    if bytes < framelen {
      status := NotEnoughBodyData;
      return;
    }
    var crc := Crc.CalculateChecksum(ctx.common.info, HeaderBytes(mem, data, ctx.common.info));
    StillReady(ctx);
    if crc != ctx.common.crc {
      status := ChecksumMismatch;
      return;
    }
    if ctx.common.info.bitpool < 2 || ctx.common.info.bitpool > ctx.common.info.MaxBitpool() {
      status := InvalidParameters;
      return;
    }
    PoolChecked(ctx.common.info);
    RoomKnown(mem, frameData, frameBytes, room, ctx.pcmStride, pcm.Length);
    status, frames := DecodeBody(ctx, mem, at, data + 4, pcm, room);
    if status.Ok? {
      data, bytes := data + framelen, bytes - framelen;
    }
  }

  lemma RoomKnown(mem: Memory, data: nat, bytes: nat, room: nat, stride: nat, length: nat)
    requires Roomy(mem, data, bytes, room, stride, length)
    ensures Strided(stride, room) <= length
    ensures Verdict(mem, data, bytes, room).Ok? ==>
      var at := data + Skipped(mem, data, bytes);
      Cells(ParseHeader(mem(at + 1), mem(at + 2)), stride) <= length
  {
    hide Verdict, Cells;
  }

  lemma PoolChecked(info: FrameInfo)
    requires info.bitpool <= info.MaxBitpool()
    ensures PoolFits(info)
  {
  }

  /** The verdict, check by check. */
  lemma VerdictSteps(mem: Memory, data: nat, bytes: nat, room: nat)
    ensures bytes == 0 ==> Verdict(mem, data, bytes, room) == NotEnoughHeaderData
    ensures bytes > 0 ==>
      var n := Skipped(mem, data, bytes);
      var at, rest := data + n, bytes - n;
      var info := ParseHeader(mem(at + 1), mem(at + 2));
      Verdict(mem, data, bytes, room) ==
        if n == bytes then NoSyncword
        else if rest < 4 then NotEnoughHeaderData
        else if rest < CalculateFramelen(info) then NotEnoughBodyData
        else if Crc.Checksum(info, HeaderBytes(mem, at, info)) != mem(at + 3) then ChecksumMismatch
        else if info.bitpool < 2 || info.bitpool > info.MaxBitpool() then InvalidParameters
        else if room < PcmFrames(info) then NotEnoughAudioData
        else Ok
  {
    hide Crc.Checksum, CalculateFramelen, PcmFrames;
  }
}
