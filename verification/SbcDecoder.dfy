/** SbcDecoder: the codec behind the contract of decodeFrame. */
module SbcDecoder {
  import opened BitReader
  import opened Frames
  import opened FrameLayout
  import opened BitNeeds
  import opened FrameLengths
  import opened DecoderSbc
  import opened SynthesisWindow
  import opened PacketParse

  /** PCMFormat; its validity test belongs to another library. */
  datatype PcmFormat = PcmFormat(sampleRate: nat, channels: nat, bitsPerSample: nat)
  {
    predicate IsValid() {
      sampleRate > 0 && (channels == 1 || channels == 2) && bitsPerSample > 0
    }
  }

  const NO_FORMAT := PcmFormat(0, 0, 0)

  class SbcDecoder {
    const context: DecoderContext
    var format: PcmFormat
    var streamChannels: nat

    /** A begin that finds its memory. */
    constructor (bank4: Bank, bank8: Bank)
      requires bank4.Valid() && bank4.bands == 4 && bank8.Valid() && bank8.bands == 8
      ensures Valid() && fresh(context) && fresh(context.Repr()) && context.pcmStride == 2
      ensures context.ls == context.rs == [] && format == NO_FORMAT && streamChannels == 0
    {
      context := new DecoderContext(2, bank4, bank8);
      format := NO_FORMAT;
      streamChannels := 0;
    }

    ghost predicate Valid()
      reads this, context, context.Repr()
    {
      context.Valid() && (format == NO_FORMAT || (format.IsValid() && format.channels == context.pcmStride))
    }

    /** reset: the context and the filter memory are cleared, so nothing decoded before is left. */
    method Reset(pcmChannels: nat)
      requires Valid()
      modifies this, context, context.Repr()
      ensures Valid() && context.ls == context.rs == [] && context.common.cachedInfo == 0
      ensures context.pcmStride == (if pcmChannels == 1 then 1 else 2) && format == NO_FORMAT && streamChannels == 0
    {
      ResetContext(context, if pcmChannels == 1 then 1 else 2);
      format := NO_FORMAT;
      streamChannels := 0;
    }

    /** decodeFrame: success consumes everything up to the end of the frame, an incomplete frame nothing,
        anything else one byte; so every call that is not refused for lack of data makes progress. */
    method DecodeFrame(mem: Memory, at: nat, inLength: nat, out: array<int>, outFrameCapacity: nat)
      returns (ok: bool, consumed: nat, written: nat)
      requires Valid() && out !in context.Repr() && Roomy(mem, at, inLength, outFrameCapacity, context.pcmStride, out.Length)
      modifies this, context, context.Repr(), out
      ensures Valid() && context.pcmStride == old(context.pcmStride)
      ensures Eights(old(context.ls)) && Eights(old(context.rs))
      ensures ok <==> inLength > 0 && Verdict(mem, at, inLength, outFrameCapacity).Ok?
      ensures ok ==>
        var p := at + Skipped(mem, at, inLength);
        var info := ParseHeader(mem(p + 1), mem(p + 2));
        && PoolFits(info) && consumed == p - at + FrameLength(info) <= inLength && written == PcmFrames(info) <= outFrameCapacity
        && format == PcmFormat(Frequency(info.freqIndex), context.pcmStride, 16) && streamChannels == info.NrofChannels()
        && Decoded(context, out[..], mem, p, info, old(context.ls), old(context.rs))
        && forall j :: Cells(info, context.pcmStride) <= j < out.Length ==> out[j] == old(out[j])
      ensures !ok ==> written == 0 && out[..] == old(out[..]) && context.ls == old(context.ls) && context.rs == old(context.rs)
      ensures !ok ==>
        var status := Verdict(mem, at, inLength, outFrameCapacity);
        consumed == if inLength == 0 || status.NotEnoughHeaderData? || status.NotEnoughBodyData? then 0 else 1
    {
      hide *;
      consumed, written := 0, 0;
      ContextOf(this);
      Separated(context);
      if inLength == 0 {
        HistoriesKnown(context);
        return false, 0, 0;
      }
      var status, data, bytes, frames := DecoderSbc.DecodeFrame(context, mem, at, inLength, out, outFrameCapacity);
      if status.Ok? {
        ghost var p := at + Skipped(mem, at, inLength);
        AcceptedRoom(mem, at, inLength, outFrameCapacity);
        DecodedHeader(context, out[..], mem, p, ParseHeader(mem(p + 1), mem(p + 2)), old(context.ls), old(context.rs));
        StrideKnown(context);
        FormatSound(context.common.info.freqIndex, context.pcmStride);
        consumed := inLength - bytes;
        streamChannels := context.common.info.NrofChannels();
        format := PcmFormat(Frequency(context.common.info.freqIndex), context.pcmStride, 16);
        written := frames;
        StillSound(this);
        return true, consumed, written;
      }
      StillSound(this);
      if status.NotEnoughHeaderData? || status.NotEnoughBodyData? {
        return false, 0, 0;
      }
      return false, 1, 0;
    }
  }

  lemma ContextOf(d: SbcDecoder)
    requires d.Valid()
    ensures d.context.Valid()
    ensures (d.format == NO_FORMAT || (d.format.IsValid() && d.format.channels == d.context.pcmStride))
  {
  }

  lemma AcceptedRoom(mem: Memory, at: nat, n: nat, room: nat)
    requires Verdict(mem, at, n, room).Ok?
    ensures var p := at + Skipped(mem, at, n);
      var info := ParseHeader(mem(p + 1), mem(p + 2));
      p - at + FrameLength(info) <= n && PcmFrames(info) <= room
  {
    AcceptedFits(mem, at, n, room);
    hide Verdict, FrameLength, PcmFrames;
  }

  lemma DecodedHeader(ctx: DecoderContext, pcm: seq<int>, mem: Memory, at: nat, info: FrameInfo, ls: seq<seq<int>>,
                      rs: seq<seq<int>>)
    requires ctx.Valid() && info.Valid() && PoolFits(info) && Eights(ls) && Eights(rs)
    requires Decoded(ctx, pcm, mem, at, info, ls, rs)
    ensures ctx.common.info == info && info.freqIndex < 4
  {
    hide Sounds, Grown;
  }

  lemma StillSound(d: SbcDecoder)
    requires d.context.Valid()
    requires (d.format == NO_FORMAT || (d.format.IsValid() && d.format.channels == d.context.pcmStride))
    ensures d.Valid()
  {
  }

  lemma FormatSound(freqIndex: nat, stride: nat)
    requires freqIndex < 4 && (stride == 1 || stride == 2)
    ensures PcmFormat(Frequency(freqIndex), stride, 16).IsValid()
  {
  }

  lemma StrideKnown(ctx: DecoderContext)
    requires ctx.Valid()
    ensures ctx.pcmStride == 1 || ctx.pcmStride == 2
  {
  }
}
