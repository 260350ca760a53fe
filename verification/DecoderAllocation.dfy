/** Bit allocation as the decoder computes it: a binary search for the adjustment, with the
    totals summed four subbands at a time, and two passes over what is left. */
module DecoderAllocation {
  import opened Frames
  import opened Allocation
  import opened BitNeeds
  import opened DecoderContexts
  import opened PackedLanes

  /** The inner loop of adjustToFitBitpool: the bits all subbands get at `bitadjust`. */
  method PackedTotal(needs: seq<int>, bitadjust: int) returns (count: nat)
    requires |needs| % 4 == 0 && 4 <= |needs| <= 16
    requires forall i :: 0 <= i < |needs| ==> 0 <= needs[i] < 16
    requires -15 <= bitadjust <= 15
    ensures count == Total(needs, bitadjust)
  {
    hide ClampWord, AdjustWord, FoldBytes, Pack;
    var total := 0;
    assert total == Pack(0, 0, 0, 0) by { PackZero(); }
    var adjust4 := AdjustWord(bitadjust);
    ghost var t0: nat, t1: nat, t2: nat, t3: nat := 0, 0, 0, 0;
    var i := |needs| / 4;
    assert needs[4 * i..] == [];
    while i > 0
      invariant 0 <= i <= |needs| / 4
      invariant total == Pack(t0, t1, t2, t3)
      invariant Below(16 * (|needs| / 4 - i) + 1, t0, t1, t2, t3)
      invariant t0 + t1 + t2 + t3 == Total(needs[4 * i..], bitadjust)
    {
      i := i - 1;
      var n0: nat, n1: nat, n2: nat, n3: nat := needs[4 * i], needs[4 * i + 1], needs[4 * i + 2], needs[4 * i + 3];
      var n := ClampWord(Pack(n0, n1, n2, n3), adjust4);
      WordTotal(needs, i, bitadjust);
      PackedStep(n0, n1, n2, n3, bitadjust, t0, t1, t2, t3);
      total := (total + n) % WORD;
      t0, t1, t2, t3 := t0 + Clamp(n0 + bitadjust), t1 + Clamp(n1 + bitadjust), t2 + Clamp(n2 + bitadjust), t3 + Clamp(n3 + bitadjust);
    }
    assert needs[0..] == needs;
    FoldBytesSum(t0, t1, t2, t3);
    count := FoldBytes(total);
  }

  lemma PackZero()
    ensures Pack(0, 0, 0, 0) == 0
  {
  }

  lemma WordTotal(needs: seq<int>, i: nat, a: int)
    requires 4 * i + 4 <= |needs|
    ensures Total(needs[4 * i..], a)
         == Clamp(needs[4 * i] + a) + Clamp(needs[4 * i + 1] + a) + Clamp(needs[4 * i + 2] + a) + Clamp(needs[4 * i + 3] + a)
          + Total(needs[4 * (i + 1)..], a)
  {
    TotalHead(needs, 4 * i, a);
    TotalHead(needs, 4 * i + 1, a);
    TotalHead(needs, 4 * i + 2, a);
    TotalHead(needs, 4 * i + 3, a);
  }

  lemma TotalHead(needs: seq<int>, i: nat, a: int)
    requires i < |needs|
    ensures Total(needs[i..], a) == Clamp(needs[i] + a) + Total(needs[i + 1..], a)
  {
    assert needs[i..][1..] == needs[i + 1..];
  }

  lemma PackedStep(n0: nat, n1: nat, n2: nat, n3: nat, a: int, t0: nat, t1: nat, t2: nat, t3: nat)
    requires Below(16, n0, n1, n2, n3) && -15 <= a <= 15 && Below(49, t0, t1, t2, t3)
    ensures (Pack(t0, t1, t2, t3) + ClampWord(Pack(n0, n1, n2, n3), AdjustWord(a))) % WORD
         == Pack(t0 + Clamp(n0 + a), t1 + Clamp(n1 + a), t2 + Clamp(n2 + a), t3 + Clamp(n3 + a))
  {
    hide ClampWord, AdjustWord, Pack;
    ClampWordExact(n0, n1, n2, n3, a);
    PackSum(t0, t1, t2, t3, Clamp(n0 + a), Clamp(n1 + a), Clamp(n2 + a), Clamp(n3 + a));
    PackFits(t0 + Clamp(n0 + a), t1 + Clamp(n1 + a), t2 + Clamp(n2 + a), t3 + Clamp(n3 + a));
  }

  /** adjustToFitBitpool: four halvings find an adjustment that uses the bitpool up, or the
      largest one in -15..15 that fits. */
  method AdjustToFitBitpool(bitpool: nat, needs: seq<int>, start: nat) returns (maxBitadjust: int, excess: nat)
    requires |needs| % 4 == 0 && 4 <= |needs| <= 16
    requires forall i :: 0 <= i < |needs| ==> 0 <= needs[i] < 16
    requires start == Total(needs, 0)
    ensures -15 <= maxBitadjust <= 15
    ensures Total(needs, maxBitadjust) + excess == bitpool
    ensures excess == 0 || maxBitadjust == 15 || bitpool < Total(needs, maxBitadjust + 1)
  {
    var bitcount := start;
    maxBitadjust := 0;
    var bitadjust := if bitcount > bitpool then -8 else 8;
    var chop := 8;
    ghost var lo := if bitcount > bitpool then -16 else 0;
    while bitcount != bitpool && chop != 0
      invariant chop in {0, 1, 2, 4, 8}
      invariant -16 <= lo && lo + 2 * chop <= 16 && lo < 16
      invariant chop != 0 ==> bitadjust == lo + chop
      invariant var hi := if chop == 0 then lo + 1 else lo + 2 * chop; hi == 16 || bitpool < Total(needs, hi)
      invariant (lo == -16 && bitcount > bitpool && chop != 0)
             || (lo == maxBitadjust && -15 <= lo && bitcount == Total(needs, lo) <= bitpool)
      decreases chop
    {
      var count := PackedTotal(needs, bitadjust);
      if bitadjust == -15 {
        TotalGround(needs, -15);
      }
      chop := chop / 2;
      if count > bitpool {
        bitadjust := bitadjust - chop;
      } else {
        maxBitadjust := bitadjust;
        bitcount := count;
        lo := bitadjust;
        bitadjust := bitadjust + chop;
      }
    }
    excess := bitpool - bitcount;
  }

  /** An adjustment found by the search is a level of the allocation. */
  lemma SearchFindsLevel(needs: seq<int>, bitpool: nat, a: int, excess: nat)
    requires forall i :: 0 <= i < |needs| ==> 0 <= needs[i]
    requires Total(needs, a) + excess == bitpool <= 16 * |needs|
    requires excess == 0 || a == 15 || bitpool < Total(needs, a + 1)
    ensures IsLevel(needs, bitpool, a)
  {
    TotalMonotone(needs, a, a + 1);
    if a == 15 {
      TotalCeiling(needs, 16);
    }
  }

  /** The needs of channel `ch` under the scale factors in the context. */
  ghost function ChannelNeeds(common: CommonContext, ch: nat): (ns: seq<int>)
    requires common.Valid() && ch < 2
    reads common`info, common.scaleFactor
    ensures |ns| == common.info.NrofSubbands() && forall i :: 0 <= i < |ns| ==> 0 <= ns[i] <= 15
  {
    var info := common.info;
    var sfs := common.scaleFactor[info.Base(ch)..info.Base(ch) + info.NrofSubbands()];
    DecoderNeedsBounded(info, sfs);
    DecoderNeeds(info, sfs)
  }

  /** The two channels' needs side by side are the needs of the frame. */
  ghost function ChannelScales(common: CommonContext, ch: nat): (sfs: seq<int>)
    requires common.Valid() && ch < 2
    reads common`info, common.scaleFactor
    ensures |sfs| == common.info.NrofSubbands()
  {
    var n := common.info.NrofSubbands();
    common.scaleFactor[common.info.Base(ch)..common.info.Base(ch) + n]
  }

  function Larger(x: nat, y: nat): nat {
    if x > y then x else y
  }

  /** One round of computeBitneed. */
  method SubbandNeed(info: FrameInfo, sf: nat, sb: nat) returns (bits: nat)
    requires info.Valid() && sb < info.NrofSubbands() && sf < 16
    ensures bits == DecoderNeed(info, sf, sb) < 16
  {
    NeedsShifted(info, sf, sb);
    var need: int := sf;
    if info.alloc.Loudness? && need != 0 {
      need := need - DecoderOffset(info, sb);
      if need > 0 {
        need := need / 2;
      }
      need := need + 5;
    }
    bits := need;
  }

  /** The largest scale factor seen so far. */
  ghost predicate MaxRecorded(common: CommonContext, ch: nat, before: nat)
    requires common.Valid() && ch < 2
    reads common`info, common`maxBitneed, common.scaleFactor
  {
    common.maxBitneed == Larger(Highest(ChannelScales(common, ch)), before)
  }

  lemma HighestNone(sfs: seq<int>)
    requires sfs == []
    ensures Highest(sfs) == 0
  {
  }

  lemma {:induction false} HighestSnoc(sfs: seq<int>, i: nat)
    requires i < |sfs|
    ensures Highest(sfs[..i + 1]) == if sfs[i] > Highest(sfs[..i]) then sfs[i] else Highest(sfs[..i])
    decreases |sfs|
  {
    if i > 0 {
      assert sfs[..i + 1][1..] == sfs[1..][..i] && sfs[..i][1..] == sfs[1..][..i - 1];
      HighestSnoc(sfs[1..], i - 1);
    } else {
      assert sfs[..1][1..] == [];
    }
  }

  lemma ChannelNeedsJoin(common: CommonContext)
    requires common.Valid()
    ensures var n := common.info.NrofSubbands(); var ds := DecoderNeeds(common.info, common.scaleFactor[..2 * n]);
      ds[..n] == ChannelNeeds(common, 0) && ds[n..] == ChannelNeeds(common, 1)
    ensures var n := common.info.NrofSubbands(); ChannelNeeds(common, 0) == DecoderNeeds(common.info, common.scaleFactor[..n])
  {
    var n := common.info.NrofSubbands();
    assert common.scaleFactor[0..n] == common.scaleFactor[..n];
  }

  lemma ChannelNeedAt(common: CommonContext, ch: nat, sb: nat)
    requires common.Valid() && ch < 2 && sb < common.info.NrofSubbands()
    ensures ChannelNeeds(common, ch)[sb] == DecoderNeed(common.info, common.scaleFactor[common.info.Base(ch) + sb], sb)
  {
  }

  lemma TotalSnoc(ns: seq<int>, i: nat)
    requires i < |ns|
    ensures Total(ns[..i + 1], 0) == Total(ns[..i], 0) + Clamp(ns[i])
  {
    assert ns[..i + 1] == ns[..i] + [ns[i]];
    TotalConcat(ns[..i], [ns[i]], 0);
  }

  method ComputeBitneed(common: CommonContext, bitneeds: array<nat>, base: nat, ch: nat) returns (bitcount: nat)
    requires common.Valid() && ch < common.info.NrofChannels()
    requires base + common.info.NrofSubbands() <= bitneeds.Length
    requires bitneeds != common.scaleFactor
    modifies bitneeds, common`maxBitneed
    ensures common.Valid()
    ensures var n := common.info.NrofSubbands();
      && bitneeds[base..base + n] == ChannelNeeds(common, ch)
      && (forall i :: 0 <= i < bitneeds.Length && !(base <= i < base + n) ==> bitneeds[i] == old(bitneeds[i]))
      && bitcount == Total(ChannelNeeds(common, ch), 0)
      && MaxRecorded(common, ch, old(common.maxBitneed))
  {
    hide Total, DecoderNeeds, DecoderNeed, Highest;
    ghost var scales := ChannelScales(common, ch);
    var info := common.info;
    var n := info.NrofSubbands();
    ghost var needs := ChannelNeeds(common, ch);
    var from := if ch == 0 then 0 else n;
    var maxBits := 0;
    bitcount := 0;
    assert Total(needs[..0], 0) == 0 by { TotalGround(needs[..0], 0); }
    HighestNone(scales[..0]);
    var sb := 0;
    while sb < n
      invariant sb <= n
      invariant forall i :: base <= i < base + sb ==> bitneeds[i] == needs[i - base]
      invariant forall i :: 0 <= i < bitneeds.Length && !(base <= i < base + n) ==> bitneeds[i] == old(bitneeds[i])
      invariant bitcount == Total(needs[..sb], 0) && maxBits == Highest(scales[..sb])
      invariant common.maxBitneed == old(common.maxBitneed)
    {
      HighestSnoc(scales, sb);
      ChannelNeedAt(common, ch, sb);
      TotalSnoc(needs, sb);
      if common.scaleFactor[from + sb] > maxBits {
        maxBits := common.scaleFactor[from + sb];
      }
      var bits := SubbandNeed(info, common.scaleFactor[from + sb], sb);
      bitneeds[base + sb] := bits;
      if bits > 1 {
        bitcount := bitcount + bits;
      }
      sb := sb + 1;
    }
    assert needs[..n] == needs && scales[..n] == scales;
    assert bitneeds[base..base + n] == needs;
    common.maxBitneed := if maxBits > common.maxBitneed then maxBits else common.maxBitneed;
    assert ChannelScales(common, ch) == scales;
  }

  method AllocAdjustedBits(dest: array<nat>, i: nat, height: int, excess: nat) returns (left: nat)
    requires i < dest.Length
    modifies dest
    ensures dest[i] == FirstGrant(height, excess).0 && left == FirstGrant(height, excess).1
    ensures forall j :: 0 <= j < dest.Length && j != i ==> dest[j] == old(dest[j])
  {
    var bits := height;
    left := excess;
    if bits < 16 {
      if bits > 1 {
        if left != 0 {
          bits := bits + 1;
          left := left - 1;
        }
      } else if bits == 1 && left > 1 {
        bits := 2;
        left := left - 2;
      } else {
        bits := 0;
      }
    } else {
      bits := 16;
    }
    dest[i] := bits;
  }

  method AllocExcessBits(dest: array<nat>, i: nat, excess: nat) returns (left: nat)
    requires i < dest.Length && excess > 0
    modifies dest
    ensures dest[i] == SecondGrant(old(dest[i]), excess).0 && left == SecondGrant(old(dest[i]), excess).1
    ensures forall j :: 0 <= j < dest.Length && j != i ==> dest[j] == old(dest[j])
  {
    if dest[i] < 16 {
      dest[i] := dest[i] + 1;
      left := excess - 1;
    } else {
      left := excess;
    }
  }

  /** The first loop of oneChannelBitAllocation. */
  method OneChannelFirstPass(bits: array<nat>, base: nat, needs: seq<int>, bitadjust: int, ex: nat)
    returns (excess: nat)
    requires base + |needs| <= bits.Length
    modifies bits
    ensures var first := FirstPass(needs, bitadjust, ex);
      excess == first.1 && bits[base..base + |needs|] == first.0
    ensures forall i :: 0 <= i < bits.Length && !(base <= i < base + |needs|) ==> bits[i] == old(bits[i])
  {
    hide FirstPass, FirstGrant, FirstAt, Clamp;
    ghost var first := FirstPass(needs, bitadjust, ex).0;
    FirstStart(needs, bitadjust, ex);
    excess := ex;
    var sb := 0;
    while sb < |needs|
      invariant sb <= |needs| && FirstAt(needs, bitadjust, ex, sb, excess)
      invariant forall i :: base <= i < base + sb ==> bits[i] == first[i - base]
      invariant forall i :: 0 <= i < bits.Length && !(base <= i < base + |needs|) ==> bits[i] == old(bits[i])
    {
      FirstNext(needs, bitadjust, ex, sb, excess);
      excess := AllocAdjustedBits(bits, base + sb, needs[sb] + bitadjust, excess);
      sb := sb + 1;
    }
    FirstEnd(needs, bitadjust, ex, excess);
  }

  /** The second loop of oneChannelBitAllocation. */
  method OneChannelSecondPass(bits: array<nat>, base: nat, n: nat, ex: nat)
    requires base + n <= bits.Length
    modifies bits
    ensures bits[base..base + n] == SecondPass(old(bits[base..base + n]), ex).0
    ensures forall i :: 0 <= i < bits.Length && !(base <= i < base + n) ==> bits[i] == old(bits[i])
  {
    hide SecondPass, SecondGrant, SecondAt;
    ghost var first := bits[base..base + n];
    ghost var second := SecondPass(first, ex).0;
    SecondStart(first, ex);
    var excess := ex;
    var sb := 0;
    while excess != 0 && sb < n
      invariant sb <= n && SecondAt(first, ex, sb, excess)
      invariant forall i :: base <= i < base + sb ==> bits[i] == second[i - base]
      invariant forall i :: base + sb <= i < base + n ==> bits[i] == first[i - base]
      invariant forall i :: 0 <= i < bits.Length && !(base <= i < base + n) ==> bits[i] == old(bits[i])
      decreases n - sb
    {
      SecondNext(first, ex, sb, excess);
      excess := AllocExcessBits(bits, base + sb, excess);
      sb := sb + 1;
    }
    if excess == 0 {
      SecondStops(first, ex, sb);
    }
  }

  /** oneChannelBitAllocation: one channel with its own bitpool. */
  method OneChannelBitAllocation(common: CommonContext, needs: seq<int>, ch: nat, bitcount: nat)
    requires common.Valid() && ch < 2
    requires |needs| == common.info.NrofSubbands() && forall i :: 0 <= i < |needs| ==> 0 <= needs[i] < 16
    requires bitcount == Total(needs, 0)
    requires common.info.bitpool <= 16 * |needs|
    modifies common.bits
    ensures var n, base := common.info.NrofSubbands(), common.info.Base(ch);
      && common.bits[base..base + n] == StandardBits(needs, common.info.bitpool)
      && forall i :: 0 <= i < 16 && !(base <= i < base + n) ==> common.bits[i] == old(common.bits[i])
  {
    hide Total, FirstPass, SecondPass, StandardBits;
    var n := common.info.NrofSubbands();
    var bitadjust, ex := AdjustToFitBitpool(common.info.bitpool, needs, bitcount);
    SearchFindsLevel(needs, common.info.bitpool, bitadjust, ex);
    LevelGivesStandard(needs, common.info.bitpool, bitadjust);
    var base := if ch == 0 then 0 else n;
    var excess := OneChannelFirstPass(common.bits, base, needs, bitadjust, ex);
    OneChannelSecondPass(common.bits, base, n, excess);
  }

  method MonoBitAllocation(common: CommonContext)
    requires common.Valid() && common.info.mode.Mono? && PoolFits(common.info)
    modifies common.bits, common`maxBitneed
    ensures common.Valid()
    ensures var lanes := common.info.Lanes(); common.bits[..lanes] == FrameBits(common.info, common.scaleFactor[..lanes])
  {
    var n := common.info.NrofSubbands();
    var bitneeds := new nat[8](_ => 0);
    var bitcount := ComputeBitneed(common, bitneeds, 0, 0);
    ChannelNeedsJoin(common);
    OneChannelBitAllocation(common, bitneeds[..n], 0, bitcount);
    DecoderNeedsAgree(common.info, common.scaleFactor[..n]);
  }

  method DualBitAllocation(common: CommonContext)
    requires common.Valid() && common.info.mode.Dual? && PoolFits(common.info)
    modifies common.bits, common`maxBitneed
    ensures common.Valid()
    ensures var lanes := common.info.Lanes(); common.bits[..lanes] == FrameBits(common.info, common.scaleFactor[..lanes])
  {
    hide StandardBits, DecoderNeeds, EncoderNeeds, Total, ChannelNeeds, MaxRecorded;
    var n := common.info.NrofSubbands();
    var bitneedsL, bitneedsR := new nat[8](_ => 0), new nat[8](_ => 0);
    var bitcountL := ComputeBitneed(common, bitneedsL, 0, 0);
    var bitcountR := ComputeBitneed(common, bitneedsR, 0, 1);
    OneChannelBitAllocation(common, bitneedsL[..n], 0, bitcountL);
    OneChannelBitAllocation(common, bitneedsR[..n], 1, bitcountR);
    ChannelNeedsJoin(common);
    assert common.bits[..2 * n] == common.bits[0..n] + common.bits[n..2 * n];
    DecoderNeedsAgree(common.info, common.scaleFactor[..2 * n]);
  }

  /** The first loop of stereoBitAllocation. */
  method StereoFirstPass(bits: array<nat>, n: nat, needs: seq<int>, bitadjust: int, ex: nat) returns (excess: nat)
    requires |needs| == 2 * n <= bits.Length
    modifies bits
    ensures var first := FirstPass(Alternate(needs), bitadjust, ex);
      excess == first.1 && forall i :: 0 <= i < 2 * n ==> bits[i] == first.0[Place(n, i)]
  {
    hide FirstPass, FirstGrant, FirstAt, Clamp;
    ghost var vs := Alternate(needs);
    ghost var first := FirstPass(vs, bitadjust, ex).0;
    FirstStart(vs, bitadjust, ex);
    excess := ex;
    var sbL, sbR := 0, n;
    while sbL < n
      invariant sbL <= n && sbR == n + sbL && FirstAt(vs, bitadjust, ex, 2 * sbL, excess)
      invariant forall i :: 0 <= i < sbL ==> bits[i] == first[2 * i]
      invariant forall i :: n <= i < sbR ==> bits[i] == first[2 * (i - n) + 1]
    {
      FirstNext(vs, bitadjust, ex, 2 * sbL, excess);
      excess := AllocAdjustedBits(bits, sbL, needs[sbL] + bitadjust, excess);
      FirstNext(vs, bitadjust, ex, 2 * sbL + 1, excess);
      sbL := sbL + 1;
      excess := AllocAdjustedBits(bits, sbR, needs[sbR] + bitadjust, excess);
      sbR := sbR + 1;
    }
    FirstEnd(vs, bitadjust, ex, excess);
  }

  /** The second loop of stereoBitAllocation. */
  method StereoSecondPass(bits: array<nat>, n: nat, ghost first: seq<nat>, ex: nat)
    requires |first| == 2 * n <= bits.Length
    requires forall i :: 0 <= i < 2 * n ==> bits[i] == first[Place(n, i)]
    modifies bits
    ensures forall i :: 0 <= i < 2 * n ==> bits[i] == SecondPass(first, ex).0[Place(n, i)]
  {
    hide SecondPass, SecondGrant, SecondAt;
    SecondStart(first, ex);
    ghost var second := SecondPass(first, ex).0;
    var excess := ex;
    var sbL, sbR := 0, n;
    while excess != 0 && sbL < n
      invariant sbL <= n && n <= sbR && (sbR == n + sbL || (excess == 0 && sbR == n + sbL - 1))
      invariant SecondAt(first, ex, sbL + (sbR - n), excess)
      invariant forall i :: 0 <= i < sbL ==> bits[i] == second[2 * i]
      invariant forall i :: sbL <= i < n ==> bits[i] == first[2 * i]
      invariant forall i :: n <= i < sbR ==> bits[i] == second[2 * (i - n) + 1]
      invariant forall i :: sbR <= i < 2 * n ==> bits[i] == first[2 * (i - n) + 1]
      decreases n - sbL
    {
      SecondNext(first, ex, 2 * sbL, excess);
      excess := AllocExcessBits(bits, sbL, excess);
      sbL := sbL + 1;
      if excess == 0 {
        break;
      }
      SecondNext(first, ex, 2 * sbL - 1, excess);
      excess := AllocExcessBits(bits, sbR, excess);
      sbR := sbR + 1;
    }
    if excess == 0 {
      SecondStops(first, ex, sbL + (sbR - n));
    }
  }

  /** stereoBitAllocation from the needs on: search and both hand-outs over the shared pool. */
  method ShareOut(common: CommonContext, needs: seq<int>, bitcount: nat)
    requires common.Valid() && |needs| == 2 * common.info.NrofSubbands() && common.info.bitpool <= 16 * |needs|
    requires (forall i :: 0 <= i < |needs| ==> 0 <= needs[i] < 16) && bitcount == Total(needs, 0)
    modifies common.bits
    ensures |needs| <= common.bits.Length
    ensures common.bits[..|needs|] == Unalternate(StandardBits(Alternate(needs), common.info.bitpool))
  {
    hide StandardBits, Total, FirstPass, SecondPass, Alternate, Unalternate;
    var n := common.info.NrofSubbands();
    var bitadjust, ex := AdjustToFitBitpool(common.info.bitpool, needs, bitcount);
    StereoLevel(needs, common.info.bitpool, bitadjust, ex);
    ghost var first := FirstPass(Alternate(needs), bitadjust, ex).0;
    var excess := StereoFirstPass(common.bits, n, needs, bitadjust, ex);
    StereoSecondPass(common.bits, n, first, excess);
    ghost var second := SecondPass(first, excess).0;
    PlacesUnalternate(common.bits[..2 * n], second);
  }

  /** stereoBitAllocation: both channels share the pool and are visited alternately. */
  method StereoBitAllocation(common: CommonContext)
    requires common.Valid() && common.info.SharedPool() && PoolFits(common.info)
    modifies common.bits, common`maxBitneed
    ensures common.Valid()
    ensures var lanes := common.info.Lanes(); common.bits[..lanes] == FrameBits(common.info, common.scaleFactor[..lanes])
  {
    hide StandardBits, DecoderNeeds, EncoderNeeds, Total, ChannelNeeds, MaxRecorded, FirstPass, SecondPass, Alternate, Unalternate;
    var n := common.info.NrofSubbands();
    var bitneeds := new nat[16](_ => 0);
    var bitcountL := ComputeBitneed(common, bitneeds, 0, 0);
    var bitcountR := ComputeBitneed(common, bitneeds, n, 1);
    ghost var ds := DecoderNeeds(common.info, common.scaleFactor[..2 * n]);
    ChannelNeedsJoin(common);
    var needs: seq<int> := bitneeds[..2 * n];
    assert needs == bitneeds[0..n] + bitneeds[n..n + n] == ds[..n] + ds[n..] == ds;
    TotalConcat(ds[..n], ds[n..], 0);
    DecoderNeedsBounded(common.info, common.scaleFactor[..2 * n]);
    ShareOut(common, needs, bitcountL + bitcountR);
    DecoderNeedsAgree(common.info, common.scaleFactor[..2 * n]);
  }

  lemma PlacesUnalternate(bits: seq<nat>, ys: seq<nat>)
    requires |bits| == |ys| && |ys| % 2 == 0
    requires forall i :: 0 <= i < |ys| ==> Place(|ys| / 2, i) < |ys| && bits[i] == ys[Place(|ys| / 2, i)]
    ensures bits == Unalternate(ys)
  {
  }

  /** What the search finds in array order is a level in visiting order. */
  lemma StereoLevel(needs: seq<int>, bitpool: nat, a: int, excess: nat)
    requires |needs| % 2 == 0 && forall i :: 0 <= i < |needs| ==> 0 <= needs[i]
    requires Total(needs, a) + excess == bitpool <= 16 * |needs|
    requires excess == 0 || a == 15 || bitpool < Total(needs, a + 1)
    ensures var vs := Alternate(needs); var first := FirstPass(vs, a, excess);
      SecondPass(first.0, first.1).0 == StandardBits(vs, bitpool)
  {
    hide StandardBits, FirstPass, SecondPass, Total, Alternate;
    AlternateTotal(needs, a);
    AlternateTotal(needs, a + 1);
    SearchFindsLevel(needs, bitpool, a, excess);
    LevelGivesStandard(Alternate(needs), bitpool, a);
  }

  /** OI_SBC_ComputeBitAllocation: the decoder recovers exactly the reference allocation. */
  method ComputeBitAllocation(common: CommonContext)
    requires common.Valid() && PoolFits(common.info)
    modifies common.bits, common`maxBitneed
    ensures common.Valid()
    ensures var lanes := common.info.Lanes(); common.bits[..lanes] == FrameBits(common.info, common.scaleFactor[..lanes])
  {
    match common.info.mode {
      case Mono => MonoBitAllocation(common);
      case Dual => DualBitAllocation(common);
      case Stereo => StereoBitAllocation(common);
      case Joint => StereoBitAllocation(common);
    }
  }
}
