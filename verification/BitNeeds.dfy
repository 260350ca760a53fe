/** Bit needs of the subbands, as the two ends derive them from the scale factors. */
module BitNeeds {
  import opened Frames
  import opened Allocation
  import opened AllocationOrder

  /** The offsets of the encoder, sbc_enc_as16Offset4 and sbc_enc_as16Offset8. */
  const ENCODER_OFFSET4: seq<seq<int>> := [[-1, 0, 0, 0], [-2, 0, 0, 1], [-2, 0, 0, 1], [-2, 0, 0, 1]]

  const ENCODER_OFFSET8: seq<seq<int>> := [
    [-2, 0, 0, 0, 0, 0, 0, 1], [-3, 0, 0, 0, 0, 0, 1, 2], [-4, 0, 0, 0, 0, 0, 1, 2], [-4, 0, 0, 0, 0, 0, 1, 2]]

  function EncoderOffset(info: FrameInfo, sb: nat): (o: int)
    requires info.Valid() && sb < info.NrofSubbands()
    ensures -4 <= o <= 2
  {
    if info.subbands == 0 then ENCODER_OFFSET4[info.freqIndex][sb] else ENCODER_OFFSET8[info.freqIndex][sb]
  }

  /** The decoder's own copy, offset4 and offset8 of computeBitneed. */
  const DECODER_OFFSET4: seq<seq<int>> := [[-1, 0, 0, 0], [-2, 0, 0, 1], [-2, 0, 0, 1], [-2, 0, 0, 1]]

  const DECODER_OFFSET8: seq<seq<int>> := [
    [-2, 0, 0, 0, 0, 0, 0, 1], [-3, 0, 0, 0, 0, 0, 1, 2], [-4, 0, 0, 0, 0, 0, 1, 2], [-4, 0, 0, 0, 0, 0, 1, 2]]

  function DecoderOffset(info: FrameInfo, sb: nat): (o: int)
    requires info.Valid() && sb < info.NrofSubbands()
    ensures -4 <= o <= 2
  {
    if info.NrofSubbands() == 4 then DECODER_OFFSET4[info.freqIndex][sb] else DECODER_OFFSET8[info.freqIndex][sb]
  }

  /** The encoder's need: silent subbands fall to -5 under the loudness method. */
  function EncoderNeed(info: FrameInfo, sf: nat, sb: nat): int
    requires info.Valid() && sb < info.NrofSubbands()
  {
    if info.alloc.Snr? then sf
    else if sf == 0 then -5
    else var loudness := sf - EncoderOffset(info, sb); if loudness > 0 then loudness / 2 else loudness
  }

  /** The decoder's need: the same scale moved up so that it is never negative. */
  function DecoderNeed(info: FrameInfo, sf: nat, sb: nat): int
    requires info.Valid() && sb < info.NrofSubbands()
  {
    if info.alloc.Snr? then sf
    else if sf == 0 then 0
    else var bits := sf - DecoderOffset(info, sb); (if bits > 0 then bits / 2 else bits) + 5
  }

  /** The loudness need of a subband that is not silent: half its scale factor, after a lift
      for the lowest subband that grows with the sampling frequency and a cut for the highest. */
  lemma LoudnessNeed(info: FrameInfo, sf: nat, sb: nat)
    requires info.Valid() && sb < info.NrofSubbands() && info.alloc.Loudness? && 0 < sf < 16
    ensures var need, f := EncoderNeed(info, sf, sb), info.freqIndex;
      info.NrofSubbands() == 8 ==>
        && (sb == 0 ==> need == (if f == 0 then (sf + 2) / 2 else if f == 1 then (sf + 3) / 2 else (sf + 4) / 2))
        && (1 <= sb <= 5 ==> need == sf / 2)
        && (sb == 6 ==> need == (if f == 0 then sf / 2 else (sf - 1) / 2))
        && (sb == 7 ==> need == (if f == 0 then (sf - 1) / 2 else if sf == 1 then -1 else (sf - 2) / 2))
    ensures var need, f := EncoderNeed(info, sf, sb), info.freqIndex;
      info.NrofSubbands() == 4 ==>
        && (sb == 0 ==> need == (if f == 0 then (sf + 1) / 2 else (sf + 2) / 2))
        && (1 <= sb <= 2 ==> need == sf / 2)
        && (sb == 3 ==> need == (if f == 0 then sf / 2 else (sf - 1) / 2))
    ensures DecoderNeed(info, sf, sb) == EncoderNeed(info, sf, sb) + 5
  {
    OffsetsAgree(info, sb);
    var o := EncoderOffset(info, sb);
    if info.subbands == 1 {
      assert sb == 0 ==> o == [-2, -3, -4, -4][info.freqIndex];
      assert 1 <= sb <= 5 ==> o == 0;
      assert sb == 6 ==> o == [0, 1, 1, 1][info.freqIndex];
      assert sb == 7 ==> o == [1, 2, 2, 2][info.freqIndex];
    } else {
      assert sb == 0 ==> o == [-1, -2, -2, -2][info.freqIndex];
      assert 1 <= sb <= 2 ==> o == 0;
      assert sb == 3 ==> o == [0, 1, 1, 1][info.freqIndex];
    }
  }

  /** A silent subband, and every subband under the SNR method. */
  lemma PlainNeed(info: FrameInfo, sf: nat, sb: nat)
    requires info.Valid() && sb < info.NrofSubbands() && sf < 16
    ensures info.alloc.Loudness? && sf == 0 ==> EncoderNeed(info, sf, sb) == -5 && DecoderNeed(info, sf, sb) == 0
    ensures info.alloc.Snr? ==> EncoderNeed(info, sf, sb) == DecoderNeed(info, sf, sb) == sf
  {
  }

  /** The two tables hold the same offsets. */
  lemma OffsetsAgree(info: FrameInfo, sb: nat)
    requires info.Valid() && sb < info.NrofSubbands()
    ensures EncoderOffset(info, sb) == DecoderOffset(info, sb)
  {
  }

  predicate ScaleFactors(info: FrameInfo, sfs: seq<nat>) {
    |sfs| == info.Lanes() && forall i :: 0 <= i < |sfs| ==> sfs[i] < 16
  }

  function EncoderNeeds(info: FrameInfo, sfs: seq<nat>): (ns: seq<int>)
    requires info.Valid() && |sfs| % info.NrofSubbands() == 0
    ensures |ns| == |sfs|
  {
    seq(|sfs|, i requires 0 <= i < |sfs| => EncoderNeed(info, sfs[i], i % info.NrofSubbands()))
  }

  function DecoderNeeds(info: FrameInfo, sfs: seq<nat>): (ns: seq<int>)
    requires info.Valid() && |sfs| % info.NrofSubbands() == 0
    ensures |ns| == |sfs|
  {
    seq(|sfs|, i requires 0 <= i < |sfs| => DecoderNeed(info, sfs[i], i % info.NrofSubbands()))
  }

  lemma DecoderNeedsBounded(info: FrameInfo, sfs: seq<nat>)
    requires info.Valid() && |sfs| % info.NrofSubbands() == 0
    requires forall i :: 0 <= i < |sfs| ==> sfs[i] < 16
    ensures forall i :: 0 <= i < |sfs| ==> 0 <= DecoderNeeds(info, sfs)[i] <= 15
  {
    forall i | 0 <= i < |sfs| ensures 0 <= DecoderNeeds(info, sfs)[i] <= 15 {
      NeedsShifted(info, sfs[i], i % info.NrofSubbands());
    }
  }

  /** The distance between the two scales. */
  function NeedShift(info: FrameInfo): int {
    if info.alloc.Snr? then 0 else 5
  }

  lemma NeedsShifted(info: FrameInfo, sf: nat, sb: nat)
    requires info.Valid() && sb < info.NrofSubbands() && sf < 16
    ensures DecoderNeed(info, sf, sb) == EncoderNeed(info, sf, sb) + NeedShift(info)
    ensures 0 <= DecoderNeed(info, sf, sb) <= 15
  {
  }

  /** Visiting order of stereo frames: left and right of subband 0, then of subband 1, ... */
  function Slot(nsb: nat, v: nat): nat {
    if v % 2 == 0 then v / 2 else nsb + v / 2
  }

  function Place(nsb: nat, i: nat): nat {
    if i < nsb then 2 * i else 2 * (i - nsb) + 1
  }

  lemma SlotPlace(nsb: nat, v: nat)
    requires v < 2 * nsb
    ensures Slot(nsb, v) < 2 * nsb && Place(nsb, v) < 2 * nsb
    ensures Place(nsb, Slot(nsb, v)) == v && Slot(nsb, Place(nsb, v)) == v
  {
  }

  function Alternate<T>(xs: seq<T>): (ys: seq<T>)
    requires |xs| % 2 == 0
    ensures |ys| == |xs|
    ensures forall v :: 0 <= v < |xs| ==> Slot(|xs| / 2, v) < |xs| && ys[v] == xs[Slot(|xs| / 2, v)]
  {
    seq(|xs|, v requires 0 <= v < |xs| => xs[Slot(|xs| / 2, v)])
  }

  function Unalternate<T>(ys: seq<T>): (xs: seq<T>)
    requires |ys| % 2 == 0
    ensures |xs| == |ys|
    ensures forall i :: 0 <= i < |ys| ==> Place(|ys| / 2, i) < |ys| && xs[i] == ys[Place(|ys| / 2, i)]
  {
    seq(|ys|, i requires 0 <= i < |ys| => ys[Place(|ys| / 2, i)])
  }

  /** Totals do not depend on the visiting order. */
  lemma AlternateTotal(ns: seq<int>, a: int)
    requires |ns| % 2 == 0
    ensures Total(Alternate(ns), a) == Total(ns, a)
  {
    var n := |ns| / 2;
    AlternateTotalFrom(ns[..n], ns[n..], Alternate(ns), a);
    TotalConcat(ns[..n], ns[n..], a);
    assert ns == ns[..n] + ns[n..];
  }

  lemma {:induction false} AlternateTotalFrom(ls: seq<int>, rs: seq<int>, vs: seq<int>, a: int)
    requires |ls| == |rs| && |vs| == 2 * |ls|
    requires forall i :: 0 <= i < |ls| ==> vs[2 * i] == ls[i] && vs[2 * i + 1] == rs[i]
    ensures Total(vs, a) == Total(ls, a) + Total(rs, a)
  {
    if ls != [] {
      forall i | 0 <= i < |ls| - 1 ensures vs[2..][2 * i] == ls[1..][i] && vs[2..][2 * i + 1] == rs[1..][i] {
        assert vs[2 * (i + 1)] == ls[i + 1];
      }
      AlternateTotalFrom(ls[1..], rs[1..], vs[2..], a);
      assert vs[0] == ls[0] && vs[1] == rs[0] by { assert vs[2 * 0] == ls[0]; }
      assert vs[1..][1..] == vs[2..];
    }
  }

  predicate PoolFits(info: FrameInfo) {
    info.bitpool <= info.MaxBitpool()
  }

  /** Bits of all subbands for given needs: one pool for both channels in stereo, one for
      each channel otherwise. */
  function BitsFor(info: FrameInfo, ns: seq<int>): (bs: seq<nat>)
    requires PoolFits(info) && |ns| == info.Lanes()
    ensures |bs| == |ns|
  {
    var n := info.NrofSubbands();
    if info.SharedPool() then Unalternate(StandardBits(Alternate(ns), info.bitpool))
    else if info.mode.Mono? then StandardBits(ns, info.bitpool)
    else StandardBits(ns[..n], info.bitpool) + StandardBits(ns[n..], info.bitpool)
  }

  /** The bits of all subbands of a frame with scale factors `sfs`. */
  function FrameBits(info: FrameInfo, sfs: seq<nat>): (bs: seq<nat>)
    requires info.Valid() && PoolFits(info) && |sfs| == info.Lanes()
    ensures |bs| == |sfs|
  {
    BitsFor(info, EncoderNeeds(info, sfs))
  }

  /** Of two subbands that share a pool, the lower one, and of one subband the left channel, comes
      first: it has at least as many bits unless it needs fewer. */
  lemma NeedierSubbandFirst(info: FrameInfo, sfs: seq<nat>, ch: nat, sb: nat, ch': nat, sb': nat)
    requires info.Valid() && PoolFits(info) && ScaleFactors(info, sfs)
    requires ch < info.NrofChannels() && ch' < info.NrofChannels() && sb < info.NrofSubbands() && sb' < info.NrofSubbands()
    requires info.SharedPool() || ch == ch'
    requires sb < sb' || (sb == sb' && ch < ch')
    requires EncoderNeed(info, sfs[info.Base(ch) + sb], sb) >= EncoderNeed(info, sfs[info.Base(ch') + sb'], sb')
    ensures FrameBits(info, sfs)[info.Base(ch) + sb] >= FrameBits(info, sfs)[info.Base(ch') + sb']
  {
    hide *;
    LaneNeed(info, sfs, ch, sb);
    LaneNeed(info, sfs, ch', sb');
    if info.SharedPool() {
      SharedChannels(info);
      SharedInOrder(info, EncoderNeeds(info, sfs), ch, sb, ch', sb');
    } else {
      SeparateInOrder(info, EncoderNeeds(info, sfs), ch, sb, sb');
    }
  }

  lemma SharedChannels(info: FrameInfo)
    requires info.SharedPool()
    ensures info.NrofChannels() == 2
  {
  }

  lemma LaneNeed(info: FrameInfo, sfs: seq<nat>, ch: nat, sb: nat)
    requires info.Valid() && PoolFits(info) && ScaleFactors(info, sfs)
    requires ch < info.NrofChannels() && sb < info.NrofSubbands()
    ensures |sfs| % info.NrofSubbands() == 0 && |EncoderNeeds(info, sfs)| == |sfs| == info.Lanes() && info.Base(ch) + sb < |sfs|
    ensures EncoderNeeds(info, sfs)[info.Base(ch) + sb] == EncoderNeed(info, sfs[info.Base(ch) + sb], sb)
    ensures FrameBits(info, sfs) == BitsFor(info, EncoderNeeds(info, sfs))
  {
    hide EncoderNeed, BitsFor;
  }

  lemma SharedInOrder(info: FrameInfo, ns: seq<int>, ch: nat, sb: nat, ch': nat, sb': nat)
    requires PoolFits(info) && |ns| == info.Lanes() && info.SharedPool()
    requires ch < 2 && ch' < 2 && sb < info.NrofSubbands() && sb' < info.NrofSubbands()
    requires sb < sb' || (sb == sb' && ch < ch')
    requires ns[info.Base(ch) + sb] >= ns[info.Base(ch') + sb']
    ensures BitsFor(info, ns)[info.Base(ch) + sb] >= BitsFor(info, ns)[info.Base(ch') + sb']
  {
    hide StandardBits;
    var n := info.NrofSubbands();
    var vs := Alternate(ns);
    PlaceOf(info, ch, sb);
    PlaceOf(info, ch', sb');
    NeedierFirst(vs, info.bitpool, 2 * sb + ch, 2 * sb' + ch');
  }

  lemma PlaceOf(info: FrameInfo, ch: nat, sb: nat)
    requires ch < 2 && sb < info.NrofSubbands()
    ensures Place(info.NrofSubbands(), info.Base(ch) + sb) == 2 * sb + ch < 2 * info.NrofSubbands()
    ensures Slot(info.NrofSubbands(), 2 * sb + ch) == info.Base(ch) + sb < 2 * info.NrofSubbands()
  {
  }

  lemma SeparateInOrder(info: FrameInfo, ns: seq<int>, ch: nat, sb: nat, sb': nat)
    requires PoolFits(info) && |ns| == info.Lanes() && !info.SharedPool()
    requires ch < info.NrofChannels() && sb < sb' < info.NrofSubbands()
    requires ns[info.Base(ch) + sb] >= ns[info.Base(ch) + sb']
    ensures BitsFor(info, ns)[info.Base(ch) + sb] >= BitsFor(info, ns)[info.Base(ch) + sb']
  {
    hide StandardBits;
    var n := info.NrofSubbands();
    if info.mode.Mono? {
      NeedierFirst(ns, info.bitpool, sb, sb');
    } else if ch == 0 {
      NeedierFirst(ns[..n], info.bitpool, sb, sb');
    } else {
      NeedierFirst(ns[n..], info.bitpool, sb, sb');
    }
  }

  /** Both scales of needs give the same bits. */
  lemma DecoderNeedsAgree(info: FrameInfo, sfs: seq<nat>)
    requires info.Valid() && PoolFits(info) && ScaleFactors(info, sfs)
    ensures BitsFor(info, DecoderNeeds(info, sfs)) == FrameBits(info, sfs)
  {
    var es, ds, k := EncoderNeeds(info, sfs), DecoderNeeds(info, sfs), NeedShift(info);
    forall i | 0 <= i < |sfs| ensures ds[i] == es[i] + k {
      NeedsShifted(info, sfs[i], i % info.NrofSubbands());
    }
    var n := info.NrofSubbands();
    if info.SharedPool() {
      ShiftedNeeds(Alternate(es), Alternate(ds), k, info.bitpool);
    } else if info.mode.Mono? {
      ShiftedNeeds(es, ds, k, info.bitpool);
    } else {
      ShiftedNeeds(es[..n], ds[..n], k, info.bitpool);
      ShiftedNeeds(es[n..], ds[n..], k, info.bitpool);
    }
  }
}
