/** The parameters of one SBC frame (OI_CODEC_SBC_FRAME_INFO, SBC_ENC_PARAMS). */
module Frames {

  datatype Mode = Mono | Dual | Stereo | Joint

  datatype Method = Loudness | Snr

  /** freq_values of the decoder, in Hz. */
  function Frequency(freqIndex: nat): nat
    requires freqIndex < 4
  {
    [16000, 32000, 44100, 48000][freqIndex]
  }

  datatype FrameInfo = FrameInfo(freqIndex: nat, blocks: nat, mode: Mode, alloc: Method, subbands: nat, bitpool: nat)
  {
    /** Every field fits its place in the header. */
    predicate Valid() {
      freqIndex < 4 && blocks < 4 && subbands < 2 && bitpool < 256
    }

    function NrofBlocks(): nat {
      4 * blocks + 4
    }

    function NrofSubbands(): nat {
      if subbands == 0 then 4 else 8
    }

    function NrofChannels(): nat {
      if mode.Mono? then 1 else 2
    }

    /** Where the subbands of channel `ch` start. */
    function Base(ch: nat): nat {
      if ch == 0 then 0 else NrofSubbands()
    }

    /** Subbands of all channels. */
    function Lanes(): nat {
      if mode.Mono? then NrofSubbands() else 2 * NrofSubbands()
    }

    /** Stereo and joint stereo share one bitpool between both channels. */
    predicate SharedPool() {
      mode.Stereo? || mode.Joint?
    }

    /** OI_SBC_MaxBitpool. */
    function MaxBitpool(): nat {
      if SharedPool() then 32 * NrofSubbands() else 16 * NrofSubbands()
    }
  }
}
