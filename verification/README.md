# A model of the SBC codec and the A2DP sink of PCMFlowBluetooth

PCMFlowBluetooth receives encoded audio packets from a Bluetooth source, queues them, decodes them with a
vendored SBC codec and hands PCM to a reader. This project models the standard-mode SBC encoder and decoder, the
lock-free packet queue and the sink stream, and proves that they keep what they promise each other. SBC is
Appendix B of the Bluetooth A2DP specification; sections below are of that appendix.

`dafny verify dfyconfig.toml` checks all of it.

## How it is organised

The code is imperative and so is the model: objects whose fields change are classes, the sample, filter and ring
buffers are arrays changed in place, loops are loops. Each method is proved against a function or relation on
values, and the theorems are about those.

- **Bit allocation** (section 12.6.3). The bits of a subband are never sent; both ends derive them. `Allocation` is
  the common theory: clamped totals, levels, the two hand-outs, and the result that every level of the same needs
  gives the same bits (`LevelDecides`). `AllocationOrder` says what share of the pool a need gets. `BitNeeds`
  relates the needs of the two ends, `PackedLanes` the packed 32-bit arithmetic to four scalars.
  `DecoderAllocation` (chop search) and `EncoderAllocation` (slice walk) each end in a level, and
  `AllocationAgreement` puts them side by side.
- **Wire format.** `BitStrings` and `Words` are bit strings and 32-bit arithmetic; `Bits` has the masking
  operations. `FrameLayout` says what a frame is: a list of fields of given widths behind a header, whose byte
  `FrameHeader` reads. `Packing` is the encoder's packer, `BitReader`, `FrameReader`, `JointReader` and
  `FrameDecoder` the decoder's readers, `FrameRoundTrip` their composition. `Crc` has both checksum loops,
  `FrameLengths` all the frame lengths.
- **Arithmetic.** `ScaleFactors`, `Quantiser`, `Dequantiser` and `SplitMultiplies`, up to the error bound of one
  sample.
- **Filter windows.** `AnalysisWindow` and `SynthesisWindow` prove the long buffers with moving offsets to be
  plain shift registers. The transforms and windows are parameters of the proofs. The memory the library reserves
  is laid out with 216 words of buffer a channel (`SynthesisWindow.DecoderMemory`).
- **The codec as a whole.** `SbcEncoder` goes from PCM to a packet, `DecoderSbc` from bytes to PCM, and `Link`
  runs one after the other.
- **The queue.** `EncodedPacketQueue` is the class, as used by one thread at a time. `PacketQueueSteps` takes
  `push` and `pop` apart into single loads, byte copies and stores that interleave freely, and
  `PacketQueueOverflow` says what is left of stored packets when the counters overflow. `PacketQueueProgress` takes
  single operations of such a run to their end. `PacketRing` has the ring and counter arithmetic of all.
- **The stream.** `PacketParse` is the meaning of a packet (a list of frames, bad bytes and a cut end), `Playback`
  what its frames make of the PCM ring and the filter histories, `PcmOverflow` what the overflow policies leave.
  `SbcDecoder` and `A2dpSinkStream` are the classes; `PcmRing` stands for the PCM ring of another library.

Where both ends share a definition, agreement between them would not show an error common to both. What such
definitions mean is therefore also stated in numbers: the loudness needs (`BitNeeds.LoudnessNeed`), the order of the
hand-outs (`AllocationOrder.BitsFollowNeeds`, `BitNeeds.NeedierSubbandFirst`), the header byte
(`FrameHeader.HeaderMeaning`), the bytes of flags and scale factors (`FrameRoundTrip.PlainHeadBytes` and its joint
forms), the protected bytes and the seed of the checksum (`Crc.ByteChangeDetected`, `Crc.SeedFolded`), the
quantisation error (`Dequantiser.QuantisationError`), the PCM cells of each channel (`SynthesisWindow.PlaysSlices`,
`AnalysisWindow.FilterTaps`) and the counters of the stream.

Words and bytes are natural numbers with wrap-around written out; size_t counters wrap at a parameter `W`. The
checksum register is eight booleans. Memory that is read through pointers is a function from addresses to bytes,
so that look-ahead past a packet reads arbitrary bytes.

## What the code does differently from what is said about it

- The comment before the dequantiser bounds the odd factor by 2^bits - 2
  (`src/external/sbc/decoder/srce/dequant.c:73-78`). It reaches 2^(bits+1) - 1; the 32-bit product still fits
  (`Dequantiser.DequantNoOverflow`).
- An adjustment that saturates at 15 is not an exception to the rule that the first hand-out leaves at most one
  bit: one step further every lane is at 16, so 15 is a level like any other
  (`DecoderAllocation.SearchFindsLevel`, `Allocation.FirstPassLeavesOne`).
- The clamp of the encoder lets a bitpool of 0 or 1 through exactly if one below 2 was computed
  (`SbcEncoder.SmallPoolPasses`), and the decoder refuses exactly the packets with such a bitpool
  (`Link.PacketAccepted`).
- The packet of a frame without sample bits whose scale factors end on a byte boundary is one byte longer than the
  frame length of the decoder (`FrameLengths.PacketLengthAgrees` gives the exact condition). It needs a bitpool of
  0, which the decoder refuses.
- `OI_CODEC_SBC_CalculateBitpool` underflows when the length does not cover the header bits and truncates for very
  long ones (`FrameLengths.CalculateBitpoolAdjoint` gives the exact condition, `CalculateBitpoolUnderflows` an input).
- `OI_CODEC_SBC_FrameCount` wraps at 256 frames (`FrameLengths.CountFrames`).
- The comment on overflow in `src/EncodedPacketQueue.cpp:47-48` holds for the difference of the counters
  (`PacketRing.CounterDifference`). The stored bytes survive an overflow in every queue only if the capacity divides
  the counter range (`PacketQueueOverflow.FullQueueSurvivesIff`, `PacketQueueOverflow.OtherCapacitiesFail`; the exact
  condition for given packets is `PacketQueueOverflow.IntactIff`). With 32-bit counters and 1025 bytes, a packet that
  fills the queue can read its length from its own payload (`PacketQueueOverflow.LengthOverwritten`).
- `pushEncoded` accepts packets longer than `maximumPacketBytes`; such a packet stays at the head of the queue for
  ever (`PacketQueueSteps.OversizedBlocks`), and the queue is drained exactly if there is none
  (`A2dpSinkStream.AllFitting`).
- DropOldest is documented to discard the oldest PCM (`src/A2dpSinkStream.h:20-23`). `writePcm` reads the dropped
  frames into the scratch its only caller passes as the new frames (`src/A2dpSinkStream.cpp:248`,
  `src/A2dpSinkStream.cpp:302`), so old frames come back in place of the first new ones
  (`PcmOverflow.AliasedBringsBack`). The newest are kept exactly if nothing has to be dropped
  (`PcmOverflow.AliasedKeepsNewestIff`); a full ring only turns (`PcmOverflow.FullRingTurns`, and
  `PcmOverflow.NewestLost` at one ring). A buffer of its own would keep the newest
  (`PcmOverflow.SeparateKeepsNewestIff`).
- A PCM ring of fewer frames than an SBC frame loses frames under DropOldest that no counter shows
  (`PcmOverflow.UncountedIff`).
- A two-channel frame decoded at stride 1 writes its channels over one another and one cell past the PCM frames it
  is tested to have room for. It does so exactly if it has more channels than the stride
  (`SynthesisWindow.WritesStayWithin`, `DecoderSbc.TwoChannelsOverrun`; `DecoderSbc.StereoOverruns` is such a frame,
  and `SynthesisWindow.SynthFrame` says what remains of it). The decode scratch of the stream has room for it.

## Model

| member | source | states |
|---|---|---|
| Allocation.TotalStep | src/external/sbc/encoder/srce/sbc_enc_bit_alloc_mono.c:123-133 | Lowering the slice by one raises the total of the clamped needs by exactly what the slice count counts: one for every need inside the slice, two for a need that enters it at one bit. |
| Allocation.TotalMonotone | src/external/sbc/decoder/srce/bitalloc.c:201-230 | A larger adjustment never allocates fewer bits in total. |
| Allocation.LevelExists | src/external/sbc/encoder/srce/sbc_enc_bit_alloc_mono.c:118-135 | A level (an adjustment whose total fits the pool while the next one reaches it) exists if and only if the pool is at most 16 bits a lane. |
| Allocation.LevelDecides | src/external/sbc/decoder/srce/bitalloc.c:312-384 | Any two levels of the same needs and pool end in the same bits after both hand-outs, so it does not matter which of them a search stops at. |
| Allocation.FirstPassLeavesOne | src/external/sbc/decoder/srce/bitalloc.c:312-333 | From any excess up to the next level the first hand-out leaves at most one bit. |
| Allocation.SecondPassPlacesOne | src/external/sbc/decoder/srce/bitalloc.c:339-348 | While some lane is below 16 the second hand-out places the bit that is left. |
| Allocation.SpreadConserves | src/external/sbc/decoder/srce/bitalloc.c:350-384 | From a level the two hand-outs spend the pool exactly, leave at most one bit between them and give no lane more than 16. |
| Allocation.StandardBits | src/external/sbc/decoder/srce/bitalloc.c:350-384 | The bits of a need vector: they add up to the pool and none exceeds 16, for every pool up to 16 a lane. |
| Allocation.LevelGivesStandard | src/external/sbc/decoder/srce/bitalloc.c:350-384 | The hand-outs from any level whatever give the standard bits. |
| Allocation.ShiftedNeeds | src/external/sbc/decoder/srce/bitalloc.c:181-182 | Adding one constant to all needs does not change the allocation; this is why the decoder may add 5 to loudness needs. |
| AllocationOrder.BitsFollowNeeds | src/external/sbc/decoder/srce/bitalloc.c:312-384 | There is one common lift of all needs under which a lane on the ground has no bits, one at height 1 two or none, one above it its height or one more up to 16; besides, at most one further bit, for the first lane that is not full. |
| AllocationOrder.NeedierFirst | src/external/sbc/decoder/srce/bitalloc.c:312-384 | Of two lanes the one visited first has at least as many bits unless it needs fewer, for every need vector and pool. |
| BitNeeds.LoudnessNeed | src/external/sbc/encoder/srce/sbc_enc_bit_alloc_mono.c:84-97 | For every frequency, subband and scale factor from 1 to 15 the loudness need in numbers: half the scale factor, plus up to two for subband 0 as the frequency grows, less up to one at the top (with -1 for a scale factor of 1 in subband 7); the decoder need is 5 more. |
| BitNeeds.PlainNeed | src/external/sbc/decoder/srce/bitalloc.c:152-187 | A silent subband needs -5 in the encoder and 0 in the decoder under loudness; under SNR both ends need the scale factor. |
| BitNeeds.OffsetsAgree | src/external/sbc/decoder/srce/bitalloc.c:131-143 | The decoder table of offsets holds what the encoder table holds, for every frequency and subband. |
| BitNeeds.NeedierSubbandFirst | src/external/sbc/decoder/srce/bitalloc-sbc.c:71-89 | Within a shared pool the lower subband, and of one subband the left channel, has at least as many bits unless it needs fewer; with separate pools this holds within each channel. |
| BitNeeds.NeedsShifted | src/external/sbc/decoder/srce/bitalloc.c:126-191 | For every scale factor, frequency and method the decoder need is the encoder need plus 0 (SNR) or 5 (loudness), and lies in 0..15. |
| BitNeeds.DecoderNeedsBounded | src/external/sbc/decoder/srce/bitalloc.c:126-191 | All decoder needs of a frame lie in 0..15, as the packed arithmetic assumes. |
| BitNeeds.DecoderNeedsAgree | src/external/sbc/decoder/srce/bitalloc.c:152-187 | Allocating by the decoder needs or by the encoder needs gives the same bits, in every mode. |
| BitNeeds.AlternateTotal | src/external/sbc/decoder/srce/bitalloc-sbc.c:68-89 | Visiting left and right subbands in turn does not change the total at any adjustment. |
| PackedLanes.AdjustWordPacks | src/external/sbc/decoder/srce/bitalloc.c:266-280 | The adjustment word holds the seven-bit adjustment in each of its four bytes, for every adjustment. |
| PackedLanes.ClampWordExact | src/external/sbc/decoder/srce/bitalloc.c:273-290 | The four masked 32-bit operations clamp four needs at once to 0, 2..16, for needs 0..15 and adjustments -15..15; the bits that leak across bytes under the four-place shift are masked off. |
| PackedLanes.FoldBytesSum | src/external/sbc/decoder/srce/bitalloc.c:284-290 | Folding the byte counters of the packed total twice gives the sum of the four lanes without carry loss. |
| DecoderAllocation.PackedTotal | src/external/sbc/decoder/srce/bitalloc.c:273-290 | The packed loop over 4, 8 or 16 needs computes the scalar total of the clamped needs. |
| DecoderAllocation.AdjustToFitBitpool | src/external/sbc/decoder/srce/bitalloc.c:254-305 | The chop search returns an adjustment in -15..15 whose total is within the pool (the excess never underflows), and either hits the pool exactly, is 15, or is the largest that fits. |
| DecoderAllocation.SearchFindsLevel | src/external/sbc/decoder/srce/bitalloc.c:260-304 | What the chop search guarantees is a level, also when it saturates at 15, for every pool up to 16 a lane. |
| DecoderAllocation.ComputeBitneed | src/external/sbc/decoder/srce/bitalloc.c:126-191 | Writes the needs of one channel and nothing else, returns the total at adjustment zero, and records the largest scale factor seen. |
| DecoderAllocation.AllocAdjustedBits | src/external/sbc/decoder/srce/bitalloc.c:312-333 | First hand-out of one lane: writes that lane only and returns what is left of the excess. |
| DecoderAllocation.AllocExcessBits | src/external/sbc/decoder/srce/bitalloc.c:339-348 | Second hand-out of one lane: one bit more below 16, and no other lane changes. |
| DecoderAllocation.OneChannelBitAllocation | src/external/sbc/decoder/srce/bitalloc.c:350-384 | The lanes of one channel become its standard bits; the other channel keeps its bits. |
| DecoderAllocation.MonoBitAllocation | src/external/sbc/decoder/srce/bitalloc.c:387-396 | A mono frame gets the bits of the frame as the encoder needs define them. |
| DecoderAllocation.DualBitAllocation | src/external/sbc/decoder/srce/bitalloc-sbc.c:35-49 | Each channel of a dual frame gets the standard bits of its own needs and its own pool. |
| DecoderAllocation.StereoBitAllocation | src/external/sbc/decoder/srce/bitalloc-sbc.c:51-91 | Both channels share one pool; the bits are the standard bits of the alternating order put back in channel order. |
| DecoderAllocation.ComputeBitAllocation | src/external/sbc/decoder/srce/bitalloc-sbc.c:101-113 | Every valid frame with a pool up to OI_SBC_MaxBitpool gets the bits the encoder needs define, in every mode. |
| EncoderAllocation.LoudnessNeeds | src/external/sbc/encoder/srce/sbc_enc_bit_alloc_ste.c:78-97 | The loudness needs of one channel are written and the rest of the scratch memory is kept. |
| EncoderAllocation.CountSlice | src/external/sbc/encoder/srce/sbc_enc_bit_alloc_mono.c:121-133 | The slice count is the increase of the total between this slice and the one above. |
| EncoderAllocation.PeelSlices | src/external/sbc/encoder/srce/sbc_enc_bit_alloc_mono.c:115-135 | The do-while walk ends for every pool up to 16 a lane, with the bits above the slice and the remaining count adding up to the pool. |
| EncoderAllocation.SliceBelow | src/external/sbc/encoder/srce/sbc_enc_bit_alloc_mono.c:135-135 | While a slice still fits strictly, the slice stays above 16 below the lowest need: the distance to saturation is positive and bounds the walk. |
| EncoderAllocation.MonoChannel | src/external/sbc/encoder/srce/sbc_enc_bit_alloc_mono.c:103-184 | Slice walk, distribution and both hand-outs of one channel give its standard bits; the other channel keeps its bits. The test after the loop differs from the stereo one and still ends in a level. |
| EncoderAllocation.BitAllocMono | src/external/sbc/encoder/srce/sbc_enc_bit_alloc_mono.c:50-186 | Mono and dual frames get the frame bits of their scale factors. |
| EncoderAllocation.StereoSlices | src/external/sbc/encoder/srce/sbc_enc_bit_alloc_ste.c:101-126 | The stereo walk over both channels, started at a bound of the needs, ends where the two hand-outs give the standard bits. |
| EncoderAllocation.StereoFirstPass | src/external/sbc/encoder/srce/sbc_enc_bit_alloc_ste.c:144-169 | The alternating first hand-out through moving pointers is the first pass over the interleaved lanes. |
| EncoderAllocation.StereoSecondPass | src/external/sbc/encoder/srce/sbc_enc_bit_alloc_ste.c:171-188 | The alternating second hand-out is the second pass over the interleaved lanes. |
| EncoderAllocation.BitAllocStereo | src/external/sbc/encoder/srce/sbc_enc_bit_alloc_ste.c:44-189 | Stereo and joint frames get the frame bits of their scale factors, given only that the recorded maximum need hides no subband. |
| AllocationAgreement.Allocate | src/external/sbc/decoder/srce/bitalloc-sbc.c:101-113 | Run on the same parameters and scale factors, the encoder slice walk and the decoder chop search leave the same bits in every lane, and those bits spend the pool. |
| AllocationAgreement.Conservation | src/external/sbc/decoder/srce/bitalloc-sbc.c:71-89 | The bits of a frame add up to the pool, per channel in mono and dual and over both channels in stereo and joint, each at most 16. |
| Crc.TableIsFourSteps | src/external/sbc/decoder/srce/framing.c:145-148 | One look-up in the narrow table equals four one-bit steps of the polynomial 0x1D. |
| Crc.IterateIsEightSteps | src/external/sbc/decoder/srce/framing.c:150-157 | The nibble-wise byte step equals eight bit steps over the byte, most significant bit first. |
| Crc.CalculateChecksum | src/external/sbc/decoder/srce/framing.c:170-196 | The table-driven checksum equals the bitwise one over the protected bits, including the trailing half byte of four-subband joint frames. |
| Crc.EncoderChecksum | src/external/sbc/encoder/srce/sbc_packing.c:221-252 | The encoder loops, which fetch a byte ahead and skip the checksum byte, compute the same checksum. |
| Crc.ChecksumReads | src/external/sbc/decoder/srce/framing.c:179-193 | The checksum does not see the syncword, its own byte, or anything behind the flags and scale factors; of the byte of half flags it sees the upper half only. |
| Crc.ProtectedAre | src/external/sbc/decoder/srce/framing.c:179-193 | What is protected are bytes 1 and 2, the bytes from 4 on that hold whole flags and scale factors, and with four joint subbands the upper half of the next byte, in this order. |
| Crc.SeedFolded | src/external/sbc/decoder/srce/framing.c:173-187 | The checksum is the zero-seeded remainder after 0x0F has been flipped into byte 1. |
| Crc.SilentFrameChecksum | src/external/sbc/decoder/srce/framing.c:170-196 | The bytes 00 02 and two zero scale factor bytes of a four-subband mono frame have the checksum 0x6B. |
| Crc.CrcLinear | src/external/sbc/encoder/srce/sbc_packing.c:234-241 | The remainder of a difference is the difference of the remainders. |
| Crc.BurstDetected | src/external/sbc/encoder/srce/sbc_packing.c:221-252 | Two bit strings that differ only within eight consecutive bits have different remainders, from any seed. |
| Crc.FrameBurstDetected | src/external/sbc/decoder/srce/framing.c:170-196 | Any corruption of the protected bits of a frame confined to eight consecutive bits changes the checksum. |
| Crc.ByteChangeDetected | src/external/sbc/decoder/srce/framing.c:185-189 | Two frames of one layout that differ in the header byte, the bitpool byte or one whole byte of flags and scale factors, and in no other of these, have different checksums. |
| Crc.FlagChangeDetected | src/external/sbc/decoder/srce/framing.c:191-193 | The same for the half byte behind them in four-subband joint frames. |
| Quantiser.Mult64Exact | src/external/sbc/encoder/srce/sbc_packing.c:47-55 | The split multiplication delivers the exact 64-bit product in its low and high words, for every signed 32-bit and unsigned 16-bit operand. |
| Quantiser.QuantiseExact | src/external/sbc/encoder/srce/sbc_packing.c:148-163 | The shift and mask sequence equals the floor of (floor(x/4) + 2^(sf+13)) * (2^bits - 1) / 2^(sf+14), cut to 16 bits, for every 32-bit sample. |
| Quantiser.QuantiseFits | src/external/sbc/encoder/srce/sbc_packing.c:148-163 | For a sample within its scale factor nothing is cut and the result fits its bit count. |
| Dequantiser.DequantNoOverflow | src/external/sbc/decoder/srce/dequant.c:155-157 | No 32-bit step overflows for any code of any width, the all-ones code included. |
| Dequantiser.TableErrorBound | src/external/sbc/decoder/srce/framing.c:67-85 | How far each dequantiser table entry is from the ratio it stands for. |
| Dequantiser.ErrorIdentity | src/external/sbc/decoder/srce/dequant.c:155-172 | The exact error of quantising and centring: the dropped low bits, the remainder of the division and the table error, nothing else. |
| Dequantiser.QuantiseDequantise | src/external/sbc/decoder/srce/dequant.c:143-173 | A sample within its scale factor comes back as x * 1555931970 / 2^30 up to half a quantisation step plus explicit terms for the two dropped bits, the table and the final shift. |
| Dequantiser.QuantisationError | src/external/sbc/decoder/srce/dequant.c:143-173 | The same bound in numbers: 2^(15+sf) * (1555931970 + 9025 * (2 * levels + 1)) + 5741537734 * levels, where levels is 2^bits - 1 and the error is scaled by 2^30 * levels. |
| SplitMultiplies.Mul16x32HiExact | src/external/sbc/decoder/srce/synthesis-sbc.c:218-232 | The 16 by 32 bit high product is the floor of the exact product over 2^16, for all operands. |
| SplitMultiplies.Mul32x32HiExact | src/external/sbc/decoder/srce/synthesis-dct8.c:65-78 | The 32 by 32 bit high product is the floor of the exact product over 2^32, for all operands. |
| BitReader.Refill | src/external/sbc/decoder/include/oi_bitstream.h:87-92 | Shifting in one more byte keeps the low 24 bits of the reader equal to the next three bytes, whatever is above them. |
| BitReader.WindowRead | src/external/sbc/decoder/include/oi_bitstream.h:80-87 | Extracting 1..16 bits from the look-ahead window returns exactly the bits at that position of memory. |
| BitReader.BitsAtDepends | src/external/sbc/decoder/include/oi_bitstream.h:80-95 | A read depends on no byte outside the field: the look-ahead never influences a result. |
| BitReader.BitStream.constructor | src/external/sbc/decoder/srce/bitstream-decode.c:43-49 | After initialisation the reader stands at the first bit of the buffer. |
| BitReader.BitStream.ReadUINT | src/external/sbc/decoder/srce/bitstream-decode.c:51-58 | Returns the next 1..16 bits as a number and advances by exactly that many. |
| BitReader.BitStream.ReadUINT4Aligned | src/external/sbc/decoder/srce/bitstream-decode.c:60-78 | Returns the next nibble and advances by four bits, from either half of a byte. |
| BitReader.LookAhead | src/external/sbc/decoder/include/oi_bitstream.h:86-93 | The next byte the reader will load is three beyond the one it stands in, at every position. |
| FrameLayout.HeaderRoundTrip | src/external/sbc/decoder/srce/decoder-private.c:131-153 | Reading the header byte written for a configuration gives the configuration back. |
| FrameHeader.HeaderMeaning | src/external/sbc/decoder/srce/decoder-private.c:131-149 | For each of the 256 header bytes: 16000, 32000, 44100 or 48000 Hz by its quarter, and blocks, mode, channels, method and subbands by the masks 0x30, 0x0C, 0x02 and 0x01. |
| FrameHeader.HeaderByteMeaning | src/external/sbc/encoder/srce/sbc_encoder.c:272-285 | The header byte of the encoder says by the same masks what the encoder is configured to. |
| FrameLayout.ParseRoundTrip | src/external/sbc/encoder/srce/sbc_encoder.c:272-285 | Writing what was read from any header byte gives that byte back, so no two configurations share one. |
| FrameLayout.FieldAt | src/external/sbc/encoder/srce/sbc_packing.c:121-216 | In a string of fields each field occupies exactly the bits after the widths before it. |
| Packing.PushAppends | src/external/sbc/encoder/srce/sbc_packing.c:180-182 | Shifting a value into the accumulator appends its bits to the pending ones, whatever is above them. |
| Packing.PackSample | src/external/sbc/encoder/srce/sbc_packing.c:179-211 | A sample of 1..16 bits, from any fill of the accumulator, extends the written bit string by exactly its bits; bytes already written stay. |
| Packing.SpillSample | src/external/sbc/encoder/srce/sbc_packing.c:183-211 | The inner loop over whole bytes does the same for a sample that does not fit; the unmasked high bits it leaves behind never reach the output. |
| Packing.PackJoin | src/external/sbc/encoder/srce/sbc_packing.c:104-118 | The join flags become one byte, or one pending nibble with four subbands. |
| Packing.PackScaleFactors | src/external/sbc/encoder/srce/sbc_packing.c:121-136 | The scale factors follow as nibbles from either half of a byte. |
| Packing.PackSamples | src/external/sbc/encoder/srce/sbc_packing.c:138-216 | All samples of all blocks follow in order as fields of their lane widths. |
| Packing.PackBody | src/external/sbc/encoder/srce/sbc_packing.c:100-220 | The body is join flags, scale factors and samples in order, then zero bits to the end of the last byte; the returned length is the packet length. |
| Packing.StoreChecksum | src/external/sbc/encoder/srce/sbc_packing.c:221-259 | Only the checksum byte changes, and it holds the checksum of the packet. |
| Packing.EncPacking | src/external/sbc/encoder/srce/sbc_packing.c:58-261 | The packet is exactly the frame of the encoder state (sync word, header, bitpool, checksum, body, padding) and passes the checksum. |
| FrameReader.ReadHeader | src/external/sbc/decoder/srce/decoder-private.c:126-154 | For any sequence of headers the remembered byte leaves the fields the new byte stands for: rate, blocks, mode, method and subbands by its masks, the bitpool of the next byte. |
| FrameReader.ReadScalefactors | src/external/sbc/decoder/srce/decoder-private.c:164-205 | In both layouts the join flags and scale factors are the fields at their bit positions, and the reader is left at the first sample bit. |
| FrameReader.ReadUnaligned | src/external/sbc/decoder/srce/decoder-private.c:188-204 | Four-subband joint frames: the half-byte layout reads flags and all eight scale factors from their nibbles. |
| FrameReader.ReadSamples | src/external/sbc/decoder/srce/decoder-private.c:208-251 | Every sample is the dequantised field at the position the widths before it give; lanes without bits read nothing and give zero. |
| JointReader.MaskNext | src/external/sbc/decoder/srce/readsamplesjoint.inc:60-108 | The shifting mask tests the join flag of each subband in turn, in the byte and in the nibble layout. |
| JointReader.Settle | src/external/sbc/decoder/srce/readsamplesjoint.inc:85-104 | A coupled pair becomes its sum and difference in place; nothing else changes. |
| JointReader.RightRead | src/external/sbc/decoder/srce/readsamplesjoint.inc:78-108 | Reading one right-channel sample settles its pair and leaves all samples before it as they were. |
| JointReader.ReadSamplesJoint | src/external/sbc/decoder/srce/decoder-sbc.c:429-466 | Every sample of a joint frame is the dequantised field, or the sum or difference with its partner where the flag is set. |
| FrameDecoder.ReadFrame | src/external/sbc/decoder/srce/decoder-sbc.c:127-143 | Scale factors, bit allocation and samples in sequence are a function of the body bytes and the header alone; how far the look-ahead has loaded is known. |
| FrameRoundTrip.HeadReads | src/external/sbc/decoder/srce/decoder-private.c:164-205 | What the packer wrote as scale factors and join flags is what the reader reads, in both join layouts. |
| FrameRoundTrip.PlainHeadBytes | src/external/sbc/encoder/srce/sbc_packing.c:121-136 | Without join flags each byte behind the header is 16 times one scale factor plus the next. |
| FrameRoundTrip.JointHeadBytes8 | src/external/sbc/encoder/srce/sbc_packing.c:104-136 | With eight joint subbands the first byte is the flags, that of subband 0 worth 128; pairs of scale factors follow. |
| FrameRoundTrip.JointHeadBytes4 | src/external/sbc/encoder/srce/sbc_packing.c:104-136 | With four the flags are the upper half of the first byte, and the scale factors follow half a byte later, the last in the upper half of its byte. |
| FrameRoundTrip.SampleReads | src/external/sbc/decoder/srce/decoder-private.c:240-243 | Every quantised value comes back unchanged from the packet. |
| FrameRoundTrip.SamplePlaced | src/external/sbc/encoder/srce/sbc_packing.c:138-216 | The sample of a lane in a block lies behind the bits of all earlier blocks and of all earlier lanes of its block. |
| FrameRoundTrip.SentReads | src/external/sbc/decoder/srce/decoder-private.c:208-251 | The decoded samples are the dequantised packed values under the allocation the decoder derives itself. |
| FrameRoundTrip.ChecksumCoversHead | src/external/sbc/encoder/srce/sbc_packing.c:221-252 | The checksum of a packet is that of its header byte, its bitpool and exactly the bits of its join flags and scale factors. |
| FrameLengths.FramelenExact | src/external/sbc/decoder/srce/bitalloc.c:63-82 | The 16-bit length computation never wraps: it equals the exact length and is at most 1033. |
| FrameLengths.LoadedBehind | src/external/sbc/decoder/include/oi_bitstream.h:86-93 | Behind its last sample a frame has had three bytes loaded beyond its end if its bits fill the last byte, and two otherwise. |
| FrameLengths.SampleBits | src/external/sbc/encoder/srce/sbc_packing.c:138-216 | The sample part of a frame is as long as the blocks times the bits allocated in one block. |
| FrameLengths.PayloadIsBitpool | src/external/sbc/encoder/srce/sbc_packing.c:138-216 | Because allocation spends the pool, the sample part is blocks times the bitpool, doubled in dual mode. |
| FrameLengths.PacketLengthAgrees | src/external/sbc/encoder/srce/sbc_packing.c:218-220 | The packet length equals the decoder frame length if and only if the bitpool is positive or the scale factors end in mid byte (four-subband joint); otherwise it is one byte longer. |
| FrameLengths.CalculateBitpoolAdjoint | src/external/sbc/decoder/srce/bitalloc-sbc.c:134-160 | A pool b fits a frame length exactly when b is at most CalculateBitpool, for all b at once if and only if the length covers the header bits and the 16-bit subtraction loses nothing that matters. |
| FrameLengths.InlineLengthAgrees | src/external/sbc/decoder/srce/decoder-sbc.c:385-415 | The length written out inside FrameCount equals the decoder frame length and the exact length, for every header. |
| FrameLengths.FrameCount | src/external/sbc/decoder/srce/decoder-sbc.c:369-423 | The counting loop returns the number of frames found, modulo 256, and terminates on any bytes. |
| FrameLengths.FramesFound | src/external/sbc/decoder/srce/decoder-sbc.c:369-423 | On a concatenation of whole frames exactly those frames are found. |
| FrameLengths.CountFrames | src/external/sbc/decoder/srce/decoder-sbc.c:369-423 | The 8-bit count of whole concatenated frames is right if and only if there are at most 255. |
| ScaleFactors.StartAtNine | src/external/sbc/encoder/srce/sbc_encoder.c:88-94 | Starting the search at 9 for large peaks gives the same scale factor as starting at 0. |
| ScaleFactors.CountFor | src/external/sbc/encoder/srce/sbc_encoder.c:88-94 | The loop finds the least scale factor that covers the peak, or 15. |
| ScaleFactors.PeakInScale | src/external/sbc/encoder/srce/sbc_encoder.c:88-95 | Up to a peak of 2^30 the scale factor covers every sample of the lane, which is what the quantiser needs. |
| ScaleFactors.LaneScaleFactors | src/external/sbc/encoder/srce/sbc_encoder.c:72-100 | Every lane gets the scale factor of its peak over the blocks, and the running maximum bounds them all. |
| ScaleFactors.MidSideInverts | src/external/sbc/encoder/srce/sbc_encoder.c:114-119 | Mid minus side gives the right sample back, mid plus side the left one, less one where their sum is odd. |
| ScaleFactors.DecideSubband | src/external/sbc/encoder/srce/sbc_encoder.c:107-171 | One subband is coupled exactly when that lowers the sum of its two scale factors; samples, scale factors, flag and maximum follow, and all other cells stay. |
| ScaleFactors.CoupledIff | src/external/sbc/encoder/srce/sbc_encoder.c:107-137 | In terms of the samples: a subband is coupled if and only if half the sum and half the difference of its channels take scale factors that add up to less than those of the channels, each the least that covers its values. |
| ScaleFactors.DecideJoint | src/external/sbc/encoder/srce/sbc_encoder.c:102-173 | All but the last subband are decided by that rule on the original samples, the last is never coupled, and the maximum still bounds every scale factor. |
| ScaleFactors.ComputeScaleFactors | src/external/sbc/encoder/srce/sbc_encoder.c:72-176 | For subband samples up to 2^30 the scale factors cover the samples that will be packed, and the recorded maximum need hides no subband. |
| SbcEncoder.LimitedPoolFits | src/external/sbc/encoder/srce/sbc_encoder.c:251-271 | The clamp of the initialisation puts every computed bitpool within 16 bits a participating subband, which is what the slice walk needs to end. |
| SbcEncoder.LimitKeeps | src/external/sbc/encoder/srce/sbc_encoder.c:251-271 | A bitpool from 0 to the limit is kept and a larger one becomes the limit: 255 or 128 where channels share the pool, 128 or 64 otherwise. |
| SbcEncoder.SmallPoolPasses | src/external/sbc/encoder/srce/sbc_encoder.c:251-271 | The clamp lets a bitpool below 2 through if and only if one below 2 was computed. |
| SbcEncoder.EncodePacket | src/external/sbc/encoder/srce/sbc_encoder.c:72-186 | From subband samples to a packet: the packet is the frame of the scaled, coupled and allocated state, within the room of a frame plus one byte. |
| SbcEncoder.FilteredModerate | src/external/sbc/encoder/srce/sbc_encoder.c:65-95 | Filter outputs up to 2^30 make a sample buffer the scale factors can cover. |
| SbcEncoder.EncodePcm | src/external/sbc/encoder/srce/sbc_encoder.c:60-186 | From PCM to a packet: analysis of the shift register of past samples, then scale factors, coupling, allocation and packing. |
| SynthesisWindow.WindowPush | src/external/sbc/decoder/srce/synthesis-sbc.c:281-285 | A new transform output in front of the window shifts it by one output and drops the tenth. |
| SynthesisWindow.ShiftBuffer | src/external/sbc/decoder/srce/framing.c:227-248 | The backward copy moves the words as they were before the call even when source and destination overlap, and touches nothing else. |
| SynthesisWindow.MakeRoom | src/external/sbc/decoder/srce/synthesis-sbc.c:271-279 | Stepping the offset, with or without the copy back, keeps the last nine outputs behind the new offset for every buffer length that is a multiple of 8 and at least 128. |
| SynthesisWindow.StoreOutput | src/external/sbc/decoder/srce/synthesis-sbc.c:282-282 | Storing the new output at the offset makes the window show the last ten outputs. |
| SynthesisWindow.SynthFrame | src/external/sbc/decoder/srce/synthesis-sbc.c:260-321 | Over a whole frame, 4 or 8 subbands, one or two channels and either stride, each block is played from the last ten outputs of its channel, newest first, zeros before the start. Of two channels at stride 1 there remain the first value of each left block, all but the last of each right block, and the last right value one cell past the frame. No other cell changes. |
| SynthesisWindow.WritesStayWithin | src/external/sbc/decoder/srce/synthesis-sbc.c:270-287 | All values of a frame are written within its PCM frames if and only if there are no more channels than the stride has slots. |
| SynthesisWindow.SameHistorySamePcm | src/external/sbc/decoder/srce/synthesis-sbc.c:260-321 | Two decoders with the same output history play the same PCM wherever their offsets stand and whatever else their buffers hold, at either stride. |
| SynthesisWindow.OutputAt | src/external/sbc/decoder/srce/synthesis-sbc.c:281-285 | Output b of a channel is the transform of the samples from (b * channels + ch) * bands on. |
| SynthesisWindow.PlaysSlices | src/external/sbc/decoder/srce/synthesis-sbc.c:260-321 | Cell by cell: value i of block b of a channel is value i of the window over ten outputs, each the transform of the channel samples that many blocks before, then the history, then silence. |
| SynthesisWindow.ChannelsApart | src/external/sbc/decoder/srce/synthesis-sbc.c:281-285 | Two frames of two channels with the same history of one channel and the same samples in its slices play the same in all its cells, even ones for the left and odd ones for the right, whatever the other channel carries. |
| SynthesisWindow.OutputsModulated | src/external/sbc/decoder/srce/synthesis-sbc.c:477-507 | With four subbands every transform output has a zero in its third place. |
| SynthesisWindow.DroppedTaps | src/external/sbc/decoder/srce/synthesis-sbc.c:394-455 | The taps the four-subband window leaves out of its third output are zero for every history of such outputs, so the sum it computes is the full one. |
| SynthesisWindow.AllocFits | src/external/sbc/decoder/srce/alloc.c:28-76 | Allocation succeeds exactly from 768 bytes a channel and legal channel counts on; what it lays out fits the memory and meets the length bounds of the window. |
| SynthesisWindow.FilterBuffers.constructor | src/external/sbc/decoder/srce/alloc.c:52-76 | A new filter bank shows a window of zeros. |
| SynthesisWindow.FilterBuffers.Clear | src/SbcDecoder.cpp:65-88 | Clearing makes the window show zeros again. |
| AnalysisWindow.Layout | src/external/sbc/encoder/srce/sbc_encoder.c:313-325 | In all four layouts the largest offset is a multiple of the subbands and the windows of the channels fill the 224 words exactly. |
| AnalysisWindow.StoreSamples | src/external/sbc/encoder/srce/sbc_analysis.c:950-967 | The new samples of each channel go to the front of its window, newest first, and no other word changes. |
| AnalysisWindow.ShiftUp | src/external/sbc/encoder/srce/sbc_analysis.c:177-220 | The pairwise backward copies move the nine kept blocks of each channel to the top of its half without mixing channels. |
| AnalysisWindow.AnalyseBlock | src/external/sbc/encoder/srce/sbc_analysis.c:1028-1082 | After a block each channel window holds its most recent samples, and the outputs are the transform of that window. |
| AnalysisWindow.AnalysisFilter | src/external/sbc/encoder/srce/sbc_analysis.c:917-1083 | For any number of blocks and calls the outputs are those of a plain shift register per channel. |
| AnalysisWindow.FilterTaps | src/external/sbc/encoder/srce/sbc_analysis.c:917-1083 | The taps of each output block are the PCM values of its own channel, every value for mono and every second one for two channels, newest first, then those of earlier frames, then silence. |
| AnalysisWindow.AnalysisApart | src/external/sbc/encoder/srce/sbc_analysis.c:917-1083 | The subband samples of a channel follow from its own PCM cells and its own past, whatever the other channel carries. |
| AnalysisWindow.AnalysisBuffer.constructor | src/external/sbc/encoder/srce/sbc_analysis.c:1085-1102 | A new buffer holds zeros for both channels. |
| DecoderContexts.CommonContext.constructor | src/external/sbc/decoder/srce/decoder-private.c:45-86 | A new context remembers header byte 0 with the fields of header byte 0. |
| DecoderContexts.CommonContext.Clear | src/external/sbc/decoder/srce/decoder-private.c:45-86 | Reset re-establishes that the remembered header byte and the fields agree. |
| DecoderSbc.FindSyncword | src/external/sbc/decoder/srce/decoder-sbc.c:44-101 | Skips to the first sync byte and no further, and reports exactly when there is none. |
| DecoderSbc.GoodFrameAccepted | src/external/sbc/decoder/srce/decoder-sbc.c:239-333 | A frame that is good on its own is accepted at once wherever it starts the data, however much follows it. |
| DecoderSbc.AcceptedIff | src/external/sbc/decoder/srce/decoder-sbc.c:239-333 | A complete frame is accepted if and only if its checksum matches, its bitpool is from 2 to 16 bits a subband of the channels that share it, and there is room for a PCM frame per band and block. |
| DecoderSbc.ResetContext | src/SbcDecoder.cpp:65-88 | After reset the filter histories are empty, so later PCM depends on later frames only. |
| DecoderSbc.DuplicateMono | src/external/sbc/decoder/srce/decoder-sbc.c:166-175 | A mono frame in a two-channel interleave has every right sample equal to its left one. |
| DecoderSbc.Synthesize | src/external/sbc/decoder/srce/decoder-sbc.c:155-175 | The PCM of a frame is the windowed history grown by the outputs of its samples, for mono and two-channel frames in both strides; no cell behind it changes. |
| DecoderSbc.DecodeBody | src/external/sbc/decoder/srce/decoder-sbc.c:103-185 | Without room nothing changes; otherwise the frame is read, its outputs join the histories, the PCM is theirs and no cell behind it changes. |
| DecoderSbc.DecodeFrame | src/external/sbc/decoder/srce/decoder-sbc.c:239-333 | The status is the stateless verdict on the bytes; on success the data pointer passes exactly one frame whose PCM is given, on failure histories and PCM stay. |
| DecoderSbc.ExactRoomSufficesIff | src/external/sbc/decoder/srce/decoder-sbc.c:113-125 | For an accepted frame, a buffer of exactly the room that is tested for contains all that is written if and only if the frame has no more channels than the stride. |
| DecoderSbc.FrameOfIsGood | src/external/sbc/decoder/srce/decoder-sbc.c:239-333 | For every legal configuration there is a frame the decoder accepts. |
| DecoderSbc.TwoChannelsOverrun | src/external/sbc/decoder/srce/decoder-sbc.c:113-125 | Decoded at stride 1 into a buffer for its PCM frames, every such frame with two channels is accepted and written past the end, and no mono frame is. |
| Link.ReceivedError | src/external/sbc/decoder/srce/dequant.c:143-173 | What the decoder makes of one sent sample is within the quantisation bound, and zero for lanes of fewer than two bits. |
| Link.PacketVerdict | src/external/sbc/decoder/srce/decoder-sbc.c:239-333 | What the decoder answers to a packet of the encoder, whatever follows it: header, length and checksum always pass, and the rest depends on the bitpool and the room alone. |
| Link.PacketAccepted | src/external/sbc/decoder/srce/decoder-sbc.c:239-333 | A packet of the encoder is a good frame if and only if its bitpool is at least 2 and its PCM has room. |
| Link.PacketIsValidFrame | src/external/sbc/decoder/srce/decoder-sbc.c:239-333 | A packet of the encoder is a whole valid frame for the stream parser if and only if its bitpool is at least 2. |
| Link.SamplesSurvive | src/external/sbc/decoder/srce/decoder-private.c:164-251 | The decoder reads the scale factors the encoder chose, derives the same bits, and gets each quantised sample. |
| Link.FlagsReturn | src/external/sbc/decoder/srce/decoder-private.c:188-191 | Each join flag is the bit of its subband in the value read. |
| Link.SubbandsSurvive | src/external/sbc/decoder/srce/decoder-sbc.c:429-466 | With the flags the encoder decided, coupled subbands come out as sum and difference of the received pair, the others as received. |
| Link.CoupledError | src/external/sbc/encoder/srce/sbc_encoder.c:114-119 | A coupled pair comes back as left and right up to the error bounds of mid and side in common steps, left less the bit the halves lose, unless a sum leaves 32 bits. |
| Link.Transmit | src/external/sbc/decoder/srce/decoder-sbc.c:239-333 | An encoder and a decoder in sequence: wherever the packet lies in memory it is decoded, and the PCM is that of the sent frame, exactly if its bitpool is at least 2 and there is room; otherwise the status says which and nothing is heard. |
| PacketRing.PutExtends | src/EncodedPacketQueue.cpp:53-64 | Writing after the held bytes keeps them all and appends the new ones, across the end of the ring. |
| PacketRing.CounterDifference | src/EncodedPacketQueue.cpp:45-51 | The unsigned difference of the counters is the number of bytes stored, across any number of overflows. |
| PacketRing.CounterFindsCell | src/EncodedPacketQueue.cpp:55-56 | A counter finds its cell as long as it has not overflowed or the capacity divides its range. |
| PacketRing.CellsDistinct | src/EncodedPacketQueue.cpp:55-56 | Positions less than a capacity apart have different cells for all counter values if and only if the capacity divides the counter range. |
| PacketRing.CellClash | src/EncodedPacketQueue.cpp:55-56 | Otherwise the position at the overflow shares cell 0 with one before it. |
| EncodedPacketQueue.HeaderRoundTrip | src/EncodedPacketQueue.cpp:89-101 | Length, frame count and timestamp read back from the eight header bytes as they were written. |
| EncodedPacketQueue.RecordsSnoc | src/EncodedPacketQueue.cpp:79-104 | Appending a packet appends its record. |
| EncodedPacketQueue.FewPackets | src/EncodedPacketQueue.cpp:45-51 | A packet count never exceeds an eighth of the bytes used, so the counter cannot wrap while packets are stored. |
| EncodedPacketQueue.EncodedPacketQueue.constructor | src/EncodedPacketQueue.cpp:6-21 | A new queue is empty. |
| EncodedPacketQueue.EncodedPacketQueue.WriteAt | src/EncodedPacketQueue.cpp:53-64 | The wrap-aware copy in changes exactly the cells of the record. |
| EncodedPacketQueue.EncodedPacketQueue.ReadAt | src/EncodedPacketQueue.cpp:66-77 | The wrap-aware copy out delivers exactly the cells of the record. |
| EncodedPacketQueue.EncodedPacketQueue.UsedBytes | src/EncodedPacketQueue.cpp:45-51 | The bytes used are the records of the stored packets, at most the capacity. |
| EncodedPacketQueue.EncodedPacketQueue.PacketCount | src/EncodedPacketQueue.h:96-96 | The count at rest is the number of stored packets. |
| EncodedPacketQueue.EncodedPacketQueue.Push | src/EncodedPacketQueue.cpp:79-104 | Accepts exactly the non-empty packets of at most 65535 bytes whose record fits; a refused one changes nothing. An accepted one is copied behind the write counter and the counters move on, in every case; the stored packets then end with it, unless counters whose range the capacity does not divide have overflowed. |
| EncodedPacketQueue.EncodedPacketQueue.Peek | src/EncodedPacketQueue.cpp:106-119 | Shows the metadata of the oldest packet, if there is one, and changes nothing. |
| EncodedPacketQueue.EncodedPacketQueue.Pop | src/EncodedPacketQueue.cpp:121-133 | Delivers and removes the oldest packet whole; leaves it when it exceeds the room, and then returns 0. |
| EncodedPacketQueue.EncodedPacketQueue.DropOldest | src/EncodedPacketQueue.cpp:135-144 | Removes the oldest packet, if there is one, and says whether it did. |
| EncodedPacketQueue.EncodedPacketQueue.Clear | src/EncodedPacketQueue.cpp:33-43 | Empties the queue and keeps the write counter. |
| PacketQueueSteps.StepKeeps | src/EncodedPacketQueue.cpp:79-133 | Every single load, byte copy and store of either thread keeps the invariant: the bytes between the counters are the accepted packets not yet popped, followed by what a push has copied so far. |
| PacketQueueSteps.CopyByteInFree | src/EncodedPacketQueue.cpp:53-64 | The producer never writes a byte the consumer may still read. |
| PacketQueueSteps.RunKeeps | src/EncodedPacketQueue.cpp:79-133 | The invariant holds after every interleaving of any length. |
| PacketQueueSteps.RunsAreSafe | src/EncodedPacketQueue.cpp:79-133 | Over every interleaving from an empty queue the popped packets are a prefix of the accepted ones with their metadata, usedBytes is right, and the count is the number stored, one less between the two publishes of a push, one more between those of a pop, exact at rest. Runs are bounded by the overflow of the counters only if the capacity does not divide their range. |
| PacketQueueSteps.DividingRunsAreSafe | src/EncodedPacketQueue.cpp:45-133 | With a capacity that divides the counter range the same holds after every interleaving of steps the code can take, however long and however often the counters overflow. |
| PacketQueueSteps.OversizedBlocks | src/EncodedPacketQueue.cpp:121-133 | A packet longer than the room every pop offers stays at the head for ever: no run pops anything after it. |
| PacketQueueProgress.PushDecides | src/EncodedPacketQueue.cpp:79-88 | In every reachable state of both threads a push goes on exactly if its packet has 1 to 65535 bytes and its record fits next to the records stored at that moment. |
| PacketQueueProgress.PopDecides | src/EncodedPacketQueue.cpp:106-125 | In every reachable state a pop goes on exactly if a packet is stored and the oldest one fits the room given. |
| PacketQueueProgress.CopiedIn | src/EncodedPacketQueue.cpp:95-103 | A push that has started to copy can always be taken to its end, and then its packet is accepted. |
| PacketQueueProgress.PushAlone | src/EncodedPacketQueue.cpp:79-104 | A push taken to its end while the consumer stands anywhere accepts exactly the packets that fit, and leaves everything of the consumer alone. |
| PacketQueueProgress.PopAlone | src/EncodedPacketQueue.cpp:121-133 | A pop taken to its end while the producer stands anywhere brings out the oldest packet exactly if there is one and it has room, and leaves everything of the producer alone. |
| PacketQueueOverflow.StepCopies | src/EncodedPacketQueue.cpp:96-97 | The byte a push under way copies next goes to the cell the overflow results speak of. |
| PacketQueueOverflow.SameCellIff | src/EncodedPacketQueue.cpp:53-77 | Two bytes of packets pushed one after the other share a cell exactly if the counters overflow between their copies and they are as far apart as the counter range exceeds whole turns of the ring. |
| PacketQueueOverflow.IntactIff | src/EncodedPacketQueue.cpp:53-104 | Packets pushed from any counter value keep a cell for every byte if and only if the capacity divides the counter range, or they are no longer than the remainder, or no copy starts behind the overflow. |
| PacketQueueOverflow.FullQueueSurvivesIff | src/EncodedPacketQueue.cpp:53-104 | A queue filled across the overflow keeps all its bytes if and only if the capacity divides the counter range. |
| PacketQueueOverflow.ReadBack | src/EncodedPacketQueue.cpp:53-77 | What is read back is known byte by byte: a byte that has lost its cell reads as the one the remainder further on, every other as it was pushed. |
| PacketQueueOverflow.OtherCapacitiesFail | src/EncodedPacketQueue.cpp:53-104 | For every capacity that does not divide the counter range there are packets that fill the queue and do not survive the overflow. |
| PacketParse.AcceptedFits | src/external/sbc/decoder/srce/decoder-sbc.c:239-333 | An accepted frame starts with the sync byte, is at least four bytes, lies within the data, has legal parameters and fits the PCM room. |
| PacketParse.ParseInOrder | src/A2dpSinkStream.cpp:290-330 | The frames decoded from arbitrary packet bytes are disjoint, in order, within the packet, and each is a good frame by itself. |
| PacketParse.CutIsLast | src/A2dpSinkStream.cpp:318-327 | Only the last event of a packet is a frame cut short. |
| PacketParse.StatusDepends | src/external/sbc/decoder/srce/decoder-sbc.c:239-333 | The status of a frame depends only on the bytes given. |
| PacketParse.ParseDepends | src/A2dpSinkStream.cpp:290-330 | What is decoded depends on the packet bytes only, never on what the scratch memory held before or behind them. |
| PacketParse.WholeFramesDecode | src/A2dpSinkStream.cpp:290-330 | From k concatenated valid frames exactly those k frames are decoded, with nothing skipped or refused. |
| PacketParse.WholePacketTally | src/A2dpSinkStream.cpp:299-328 | Such a packet counts k decoded frames, no invalid one and no failure. |
| PacketParse.ValidFramesTally | src/A2dpSinkStream.cpp:288-330 | Packets of valid frames count as many decoded frames as they hold in all, however these are spread, and nothing else. |
| PacketParse.TallyCounts | src/A2dpSinkStream.cpp:299-328 | Every event of a packet is counted once, as a decoded or as a refused frame, and a cut end once more as a failure. |
| PacketParse.Resynchronises | src/A2dpSinkStream.cpp:294-329 | A good frame behind rubbish is decoded if every false syncword before it is refused: each byte up to the last false one counts as one refusal, and the bytes after that go with the frame. |
| Playback.SamplesDepend | src/external/sbc/decoder/srce/decoder-private.c:164-251 | The samples of a frame depend on no byte outside the frame. |
| Playback.PacketPlaysAnywhere | src/A2dpSinkStream.cpp:290-330 | A packet changes ring and histories in the same way wherever its bytes lie and whatever lies behind them. |
| Playback.SamePacketsSamePcm | src/SbcDecoder.cpp:65-88 | Two streams that start alike, as all do after a reset, and get the same packets of one channel count hold the same PCM and histories afterwards, whatever went before. |
| SbcDecoder.SbcDecoder.Reset | src/SbcDecoder.cpp:65-100 | Histories empty, header memory cleared, stride taken from the channel count, no format. |
| SbcDecoder.SbcDecoder.DecodeFrame | src/SbcDecoder.cpp:102-156 | On success consumed covers skipped bytes and the frame, and the PCM is that of the frame; on failure nothing is written and consumed is 0 when more data is needed and 1 otherwise. |
| A2dpSinkStream.A2dpSinkStream.constructor | src/A2dpSinkStream.cpp:47-98 | A started stream is empty, balanced and not yet configured. |
| A2dpSinkStream.A2dpSinkStream.PushEncoded | src/A2dpSinkStream.cpp:129-154 | Every arrival raises the 32-bit count of packets by one and is ordered by its timestamp; the packet is stored or raises the count of dropped ones by one, never both. |
| A2dpSinkStream.A2dpSinkStream.SetCodecConfig | src/A2dpSinkStream.cpp:156-208 | An unchanged valid configuration changes nothing. Any other empties queues and histories, with the error its case names and the buffered frames entered as discarded; an SBC one with a sample rate is installed with that rate, 16 bits, and one channel if it says one and two otherwise. |
| A2dpSinkStream.A2dpSinkStream.Reset | src/A2dpSinkStream.cpp:210-217 | Queue, ring and histories are empty afterwards and the buffered frames are entered as discarded. |
| A2dpSinkStream.A2dpSinkStream.DropFrames | src/A2dpSinkStream.cpp:243-252 | The oldest frames move from the ring to the scratch, as many as wanted or there are, and are counted. |
| A2dpSinkStream.A2dpSinkStream.WritePcm | src/A2dpSinkStream.cpp:231-268 | What the ring and the frame account hold after writing, for both policies, for a separate and for the shared buffer. |
| A2dpSinkStream.A2dpSinkStream.TakeFrame | src/A2dpSinkStream.cpp:299-313 | A decoded frame raises the count of frames by one modulo 2^32, its PCM is what the ring gets by the overflow policy, and of the format only the sample rate becomes that of the bitstream. |
| A2dpSinkStream.A2dpSinkStream.ProcessPacket | src/A2dpSinkStream.cpp:290-330 | The loop ends on arbitrary bytes, adds to each counter the events of the packet modulo 2^32, and leaves in ring and histories what its frames make of them one after the other. |
| A2dpSinkStream.A2dpSinkStream.Drain | src/A2dpSinkStream.cpp:288-331 | Packets are taken in order until the queue is empty or its head exceeds the limit; counters add up modulo 2^32, ring and histories change by those packets one after the other. |
| A2dpSinkStream.A2dpSinkStream.Update | src/A2dpSinkStream.cpp:270-332 | A second update at the same time does nothing but report, and without a format nothing happens: queue, ring, books, format and histories stay. Otherwise the queue is drained as far as packets fit and the ring holds what the frames of those packets make of it. Packets of valid frames raise the count of decoded frames by their number modulo 2^32 and no other. Every frame made is read, buffered, counted as overflow (modulo 2^32), discarded by reset or, only for a small ring under DropOldest, lost. |
| A2dpSinkStream.A2dpSinkStream.ReadFrames | src/A2dpSinkStream.cpp:334-338 | What the reader gets, one value per channel and frame, followed by what stays is what was buffered. |
| A2dpSinkStream.FittingReached | src/A2dpSinkStream.cpp:288-288 | The loop stops exactly at the first packet longer than the limit. |
| A2dpSinkStream.AllFitting | src/A2dpSinkStream.cpp:288-288 | The queue is drained completely if and only if every packet is within the limit. |
| PcmOverflow.SeparateKeepsNewest | src/A2dpSinkStream.cpp:231-268 | With a buffer of its own DropOldest keeps exactly the newest frames; of more frames than the ring holds it keeps the first. |
| PcmOverflow.SeparateKeepsNewestIff | src/A2dpSinkStream.cpp:231-268 | With a buffer of its own the newest frames are kept whatever they are if and only if no more come than the ring holds. |
| PcmOverflow.AliasedBringsBack | src/A2dpSinkStream.cpp:248-302 | With the decode scratch as the buffer, as the only caller passes it, the ring holds the kept frames, the dropped frames again, and the new frames without as many of their first, for any number of them. |
| PcmOverflow.AliasedAsSeparateIff | src/A2dpSinkStream.cpp:248-302 | The shared buffer leaves what a separate one would if and only if the dropped values happen to equal the first new ones. |
| PcmOverflow.AliasedKeepsNewestIff | src/A2dpSinkStream.cpp:248-302 | With the shared buffer the newest frames are kept whatever they are if and only if all that come fit without dropping any. |
| PcmOverflow.FullRingTurns | src/A2dpSinkStream.cpp:248-302 | A full ring only turns: nothing that is decoded enters it until something is read. |
| PcmOverflow.UncountedIff | src/A2dpSinkStream.cpp:237-267 | Under DropOldest frames of one SBC frame are lost uncounted if and only if the frame has more of them than the ring holds. |

## Left out

- BitReader.BitStream.ReadUINT: the value of a read of zero bits is left open, because the shift by 32 has no defined value in C; every caller ignores it.
- Crc.FrameBurstDetected: speaks of bursts of up to eight bits within the protected part of one layout; an error that changes the layout itself (mode or subbands in the header byte) is not compared.
- ScaleFactors.MidSideInverts: asks for samples strictly below 2^30, because at 2^30 the sum of two samples leaves 32 bits, which C leaves undefined and the model wraps.
- SbcEncoder.LimitedPoolFits: models the clamps of the initialisation for any computed value; the rate arithmetic before them is not modelled.
- SbcEncoder.EncodePcm: takes the bound of 2^30 on filter outputs as a property of the transform, and encodes one packet; several packets in one call are covered by passing the running maximum on (`least`).
- SynthesisWindow.SynthFrame: the transforms and window sums are arbitrary functions, except for the zero third output of the four-subband transform and the taps dropped because of it.
- DecoderSbc.DecodeFrame: after a mono frame the history of the right channel is only what its buffer then shows, so mixed channel counts without a reset get no shift-register reading on the right.
- Link.Transmit: asks for subband samples up to 2^30 in magnitude, which the largest scale factor covers.
- Link.CoupledError: leaves the pair open where the sum or difference of the received mid and side leaves 32 bits, which C leaves undefined and the model wraps.
- PacketQueueSteps.RunsAreSafe: memory is sequentially consistent, and peek, drop and clear are not steps (clear needs a stopped producer, as its header says). With a capacity that does not divide the counter range the runs go up to the first overflow; what a later read finds is in PacketQueueOverflow.
- EncodedPacketQueue.EncodedPacketQueue.Push: a push that takes such counters across their overflow is described byte by byte, but the queue is not sound afterwards and the other methods ask for a sound one.
- A2dpSinkStream.A2dpSinkStream.Update: does not interleave with readFrames; DropOldest makes it a second reader of the PCM ring, so the two are taken as separate steps. The flag against a second update is set and cleared within one call, so the state in which it is found set is an assumption of that branch. `PcmRing` is a bounded first-in first-out buffer, and a format is valid when its numbers are positive and it has one or two channels.
- A2dpSinkStream.A2dpSinkStream.constructor: a begin that is refused or fails is not modelled.
- FrameReader.ReadHeader: the mSBC branch is not modelled; the standard mode never sees its sync byte.
- Playback.SamePacketsSamePcm: speaks of packets whose frames all have one channel count, because a mono frame leaves a right history that depends on the buffer.
- mSBC, enhanced SBC, and frame format limits, none of which the library switches on.
- Raw and partial decoding, SkipFrame, CalculateBitrate and CalculatePcmBytes.
- The preferred bitpool that computeBitneed also returns; nothing reads it.
- Reading scale factors and bit counts four at a time as 32-bit words in ReadSamples; the model takes them one by one.
- Reading and writing counters from other threads, resetCounters, begin and end, failing allocation, the not-started error paths, and error names.
- Packet loss concealment, which is floating point and not compiled in.
- EspBleA2dpSinkAdapter and the PCMSource interface: wiring to libraries that are not part of this model.
