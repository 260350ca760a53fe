/** What the header byte of a frame says, mask by mask. */
module FrameHeader {
  import opened Bits
  import opened BitStrings
  import opened Frames
  import opened FrameLayout

  /** A field of a word under a mask of `w` ones above `k` zeros. */
  lemma AndField(x: nat, high: nat, low: nat, k: nat, w: nat, ones: nat, mask: nat)
    requires ones + 1 == Pow2(w) && mask == Pow2(k) * ones && x == Pow2(k) * high + low && low < Pow2(k)
    ensures And(x, mask) == Pow2(k) * (high % Pow2(w))
  {
    hide *;
    AndSplit(k, high, low, ones, 0);
    AndZero(low);
    AndOnes(w, high);
  }

  lemma HeaderMasks(d1: byte)
    ensures And(d1, 0x30) == 16 * (d1 / 16 % 4) && And(d1, 0x0C) == 4 * (d1 / 4 % 4)
    ensures And(d1, 0x02) == 2 * (d1 / 2 % 2) && And(d1, 0x01) == d1 % 2
  {
    hide And;
    assert Pow2(0) == 1 && Pow2(1) == 2 && Pow2(2) == 4 && Pow2(4) == 16;
    AndField(d1, d1 / 16, d1 % 16, 4, 2, 3, 0x30);
    AndField(d1, d1 / 4, d1 % 4, 2, 2, 3, 0x0C);
    AndField(d1, d1 / 2, d1 % 2, 1, 1, 1, 0x02);
    AndField(d1, d1, 0, 0, 1, 1, 0x01);
  }

  /** What a header byte says of a frame, field by field. */
  ghost predicate HeaderSays(d1: byte, info: FrameInfo)
    requires info.Valid()
  {
    && Frequency(info.freqIndex) == (if d1 < 64 then 16000 else if d1 < 128 then 32000 else if d1 < 192 then 44100 else 48000)
    && (info.NrofBlocks() == 4 <==> And(d1, 0x30) == 0x00) && (info.NrofBlocks() == 8 <==> And(d1, 0x30) == 0x10)
    && (info.NrofBlocks() == 12 <==> And(d1, 0x30) == 0x20) && (info.NrofBlocks() == 16 <==> And(d1, 0x30) == 0x30)
    && (info.mode.Mono? <==> And(d1, 0x0C) == 0x00) && (info.mode.Dual? <==> And(d1, 0x0C) == 0x04)
    && (info.mode.Stereo? <==> And(d1, 0x0C) == 0x08) && (info.mode.Joint? <==> And(d1, 0x0C) == 0x0C)
    && (info.NrofChannels() == 1 <==> And(d1, 0x0C) == 0x00)
    && (info.alloc.Loudness? <==> And(d1, 0x02) == 0x00) && (info.alloc.Snr? <==> And(d1, 0x02) == 0x02)
    && (info.NrofSubbands() == 4 <==> And(d1, 0x01) == 0x00) && (info.NrofSubbands() == 8 <==> And(d1, 0x01) == 0x01)
  }

  lemma HeaderMeaning(d1: byte, bitpool: byte)
    ensures HeaderSays(d1, ParseHeader(d1, bitpool)) && ParseHeader(d1, bitpool).bitpool == bitpool
  {
    hide And;
    HeaderMasks(d1);
    var f := d1 / 64;
    assert f == 0 || f == 1 || f == 2 || f == 3;
    var m := d1 / 4 % 4;
    assert m == 0 || m == 1 || m == 2 || m == 3;
  }

  /** The header byte of the encoder says what the encoder was configured to. */
  lemma HeaderByteMeaning(info: FrameInfo)
    requires info.Valid()
    ensures HeaderSays(HeaderByte(info), info)
  {
    hide HeaderSays;
    HeaderRoundTrip(info);
    HeaderMeaning(HeaderByte(info), info.bitpool);
  }
}
