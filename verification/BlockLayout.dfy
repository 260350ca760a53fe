/** Samples of a frame: block by block, channel by channel, band by band. */
module BlockLayout {
  import opened Bits

  /** Where the samples of channel `ch` of block `blk` start. */
  ghost function InputStart(bands: nat, channels: nat, blk: nat, ch: nat): nat {
    (blk * channels + ch) * bands
  }

  lemma InputNext(bands: nat, channels: nat, blk: nat, ch: nat)
    requires ch < channels
    ensures InputStart(bands, channels, blk, ch) + bands
      == if ch + 1 < channels then InputStart(bands, channels, blk, ch + 1) else InputStart(bands, channels, blk + 1, 0)
  {
    assert (blk * channels + ch) * bands + bands == (blk * channels + ch + 1) * bands;
    assert blk * channels + channels == (blk + 1) * channels;
  }

  lemma InputOrder(bands: nat, channels: nat, blk: nat, blocks: nat)
    requires blk <= blocks
    ensures 0 == InputStart(bands, channels, 0, 0) <= InputStart(bands, channels, blk, 0) <= InputStart(bands, channels, blocks, 0)
  {
    MulOrder(channels, blk, blocks);
    assert channels * blk == blk * channels && channels * blocks == blocks * channels;
    MulOrder(bands, blk * channels, blocks * channels);
    MulOrder(bands, 0, blk * channels);
    assert bands * (blk * channels) == (blk * channels + 0) * bands && bands * (blocks * channels) == (blocks * channels + 0) * bands;
  }

  lemma {:induction false} InputFits(bands: nat, channels: nat, blk: nat, ch: nat)
    requires ch < channels
    ensures InputStart(bands, channels, blk, 0) <= InputStart(bands, channels, blk, ch)
    ensures InputStart(bands, channels, blk, ch) + bands <= InputStart(bands, channels, blk + 1, 0)
    decreases channels - ch
  {
    InputNext(bands, channels, blk, ch);
    if ch + 1 < channels {
      InputFits(bands, channels, blk, ch + 1);
    }
    MulOrder(bands, blk * channels, blk * channels + ch);
    assert bands * (blk * channels) == (blk * channels + 0) * bands && bands * (blk * channels + ch) == (blk * channels + ch) * bands;
  }

  /** Samples of one block. */
  function BlockSamples(bands: nat, channels: nat): nat {
    channels * bands
  }

  lemma InputBlock(bands: nat, channels: nat, blk: nat)
    ensures InputStart(bands, channels, blk + 1, 0) == InputStart(bands, channels, blk, 0) + BlockSamples(bands, channels)
  {
    assert ((blk + 1) * channels + 0) * bands == (blk * channels + channels) * bands == blk * channels * bands + channels * bands;
  }
}
