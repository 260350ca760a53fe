/** Both ends of a link, side by side: they never exchange bit counts, yet hold the same ones. */
module AllocationAgreement {
  import opened Frames
  import opened Allocation
  import opened BitNeeds
  import opened EncoderContexts
  import opened DecoderContexts
  import EncoderAllocation
  import DecoderAllocation

  /** The encoder walks bit slices down, the decoder chops for an adjustment: same scale factors
      in, same bits out, for every subband of every mode. */
  method Allocate(p: EncoderParams, common: CommonContext)
    requires p.Valid() && common.Valid() && p.info == common.info && PoolFits(p.info)
    requires forall i :: 0 <= i < p.info.Lanes() ==> p.scaleFactor[i] == common.scaleFactor[i]
    requires p.info.SharedPool() && p.info.alloc.Snr? ==> forall i :: 0 <= i < p.info.Lanes() ==> p.scaleFactor[i] <= p.maxBitNeed
    modifies p.scratch, p.bits, common.bits, common`maxBitneed
    ensures common.bits[..p.info.Lanes()] == p.bits[..p.info.Lanes()]
    ensures Conserved(p.info, common.bits[..p.info.Lanes()])
  {
    hide *;
    ghost var lanes := p.info.Lanes();
    LanesFit(p, common);
    ghost var sfs := common.scaleFactor[..lanes];
    assert p.scaleFactor[..lanes] == sfs;
    if p.info.SharedPool() {
      PeaksKnown(p);
      EncoderAllocation.BitAllocStereo(p);
    } else {
      EncoderAllocation.BitAllocMono(p);
    }
    ghost var sent := p.bits[..lanes];
    DecoderAllocation.ComputeBitAllocation(common);
    Conservation(p.info, sfs);
  }

  lemma LanesFit(p: EncoderParams, common: CommonContext)
    requires p.Valid() && common.Valid()
    ensures p.info.Valid() && p.info.Lanes() <= 16 == common.scaleFactor.Length == p.scaleFactor.Length
    ensures common.bits.Length == p.bits.Length == 16
    ensures p.scaleFactor != p.scratch && p.scaleFactor != p.bits && common.scaleFactor != common.bits
    ensures forall i :: 0 <= i < 16 ==> 0 <= p.scaleFactor[i] < 16
  {
  }

  lemma PeaksKnown(p: EncoderParams)
    requires p.Valid() && p.info.SharedPool()
    requires p.info.SharedPool() && p.info.alloc.Snr? ==> forall i :: 0 <= i < p.info.Lanes() ==> p.scaleFactor[i] <= p.maxBitNeed
    ensures p.info.alloc.Snr? ==> forall i :: 0 <= i < p.info.Lanes() ==> p.scaleFactor[i] <= p.maxBitNeed
  {
  }

  /** The whole bitpool is handed out, per channel or shared, and no subband gets more than 16 bits. */
  ghost predicate Conserved(info: FrameInfo, bits: seq<nat>)
    requires |bits| == info.Lanes()
  {
    && (forall i :: 0 <= i < |bits| ==> bits[i] <= 16)
    && (info.mode.Dual? ==> Sum(bits[..info.NrofSubbands()]) == Sum(bits[info.NrofSubbands()..]) == info.bitpool)
    && (!info.mode.Dual? ==> Sum(bits) == info.bitpool)
  }

  lemma Conservation(info: FrameInfo, sfs: seq<nat>)
    requires info.Valid() && PoolFits(info) && |sfs| == info.Lanes()
    ensures Conserved(info, FrameBits(info, sfs))
  {
    hide StandardBits;
    var ns, n := EncoderNeeds(info, sfs), info.NrofSubbands();
    if info.SharedPool() {
      var ys: seq<nat> := StandardBits(Alternate(ns), info.bitpool);
      UnalternateSum(ys);
      forall i | 0 <= i < info.Lanes() ensures FrameBits(info, sfs)[i] <= 16 {
        assert FrameBits(info, sfs)[i] == ys[Place(n, i)];
      }
    }
  }

  lemma UnalternateSum(ys: seq<nat>)
    requires |ys| % 2 == 0
    ensures Sum(Unalternate(ys)) == Sum(ys)
  {
    var ls, rs := Halves(ys);
    hide Sum, Unalternate;
    AlternateSum(ls, rs, ys);
    SumConcat(ls, rs);
  }

  lemma Halves(ys: seq<nat>) returns (ls: seq<nat>, rs: seq<nat>)
    requires |ys| % 2 == 0
    ensures |ls| == |rs| && |ys| == 2 * |ls| && Unalternate(ys) == ls + rs
    ensures forall i :: 0 <= i < |ls| ==> ls[i] == ys[2 * i] && rs[i] == ys[2 * i + 1]
  {
    var n, xs := |ys| / 2, Unalternate(ys);
    ls, rs := xs[..n], xs[n..];
    forall i | 0 <= i < n ensures ls[i] == ys[2 * i] && rs[i] == ys[2 * i + 1] {
      assert Place(n, i) == 2 * i && Place(n, n + i) == 2 * i + 1;
      assert xs[i] == ys[Place(n, i)] && xs[n + i] == ys[Place(n, n + i)];
    }
    assert xs == ls + rs;
  }

  lemma {:induction false} AlternateSum(ls: seq<nat>, rs: seq<nat>, vs: seq<nat>)
    requires |ls| == |rs| && |vs| == 2 * |ls|
    requires forall i :: 0 <= i < |ls| ==> ls[i] == vs[2 * i] && rs[i] == vs[2 * i + 1]
    ensures Sum(vs) == Sum(ls) + Sum(rs)
  {
    if ls != [] {
      forall i | 0 <= i < |ls| - 1 ensures ls[1..][i] == vs[2..][2 * i] && rs[1..][i] == vs[2..][2 * i + 1] {
        assert ls[i + 1] == vs[2 * (i + 1)];
      }
      AlternateSum(ls[1..], rs[1..], vs[2..]);
      assert ls[0] == vs[2 * 0] && rs[0] == vs[2 * 0 + 1];
      assert vs[1..][1..] == vs[2..];
    }
  }

  lemma {:induction false} SumConcat(xs: seq<nat>, ys: seq<nat>)
    ensures Sum(xs + ys) == Sum(xs) + Sum(ys)
  {
    if xs == [] {
      assert xs + ys == ys;
    } else {
      assert (xs + ys)[1..] == xs[1..] + ys;
      SumConcat(xs[1..], ys);
    }
  }
}
