/** Bit allocation as the encoder computes it: bit slices are peeled off one at a time from
    the largest need downwards, and the rest is handed out from subband 0. */
module EncoderAllocation {
  import opened Allocation
  import opened BitNeeds
  import opened EncoderContexts

  /** Needs of one channel under the loudness method. */
  method LoudnessNeeds(p: EncoderParams, base: nat)
    requires p.Valid() && p.info.alloc.Loudness? && base + p.info.NrofSubbands() <= 16
    modifies p.scratch
    ensures var n := p.info.NrofSubbands();
      p.scratch[base..base + n] == EncoderNeeds(p.info, p.scaleFactor[base..base + n])
    ensures forall i :: 0 <= i < 16 && !(base <= i < base + p.info.NrofSubbands()) ==> p.scratch[i] == old(p.scratch[i])
  {
    hide EncoderOffset, EncoderNeeds;
    var n := p.info.NrofSubbands();
    ghost var needs := EncoderNeeds(p.info, p.scaleFactor[base..base + n]);
    var sb := 0;
    while sb < n
      invariant sb <= n
      invariant forall i :: base <= i < base + sb ==> p.scratch[i] == needs[i - base]
      invariant forall i :: 0 <= i < 16 && !(base <= i < base + n) ==> p.scratch[i] == old(p.scratch[i])
    {
      NeedAt(p, base, sb);
      if p.scaleFactor[base + sb] == 0 {
        p.scratch[base + sb] := -5;
      } else {
        var loudness := p.scaleFactor[base + sb] - EncoderOffset(p.info, sb);
        if loudness > 0 {
          p.scratch[base + sb] := loudness / 2;
        } else {
          p.scratch[base + sb] := loudness;
        }
      }
      sb := sb + 1;
    }
  }

  lemma NeedAt(p: EncoderParams, base: nat, sb: nat)
    requires p.Valid() && base + p.info.NrofSubbands() <= 16 && sb < p.info.NrofSubbands()
    ensures EncoderNeeds(p.info, p.scaleFactor[base..base + p.info.NrofSubbands()])[sb] == EncoderNeed(p.info, p.scaleFactor[base + sb], sb)
  {
  }

  method MaxNeed(bitNeed: array<int>, base: nat, n: nat) returns (max: int)
    requires base + n <= bitNeed.Length
    ensures max >= 0 && forall i :: base <= i < base + n ==> bitNeed[i] <= max
  {
    max := 0;
    var sb := 0;
    while sb < n
      invariant sb <= n && max >= 0
      invariant forall i :: base <= i < base + sb ==> bitNeed[i] <= max
    {
      if bitNeed[base + sb] > max {
        max := bitNeed[base + sb];
      }
      sb := sb + 1;
    }
  }

  /** The bits one slice takes. */
  method CountSlice(bitNeed: array<int>, base: nat, n: nat, slice: int) returns (count: nat)
    requires base + n <= bitNeed.Length
    ensures count == Slice(bitNeed[base..base + n], -slice)
  {
    ghost var ns := bitNeed[base..base + n];
    count := 0;
    var sb := 0;
    while sb < n
      invariant sb <= n && count == Slice(ns[..sb], -slice)
    {
      assert ns[..sb + 1] == ns[..sb] + [ns[sb]];
      SliceConcat(ns[..sb], [ns[sb]], -slice);
      if bitNeed[base + sb] - slice < 16 && bitNeed[base + sb] - slice >= 1 {
        if bitNeed[base + sb] - slice == 1 {
          count := count + 2;
        } else {
          count := count + 1;
        }
      }
      sb := sb + 1;
    }
    assert ns[..n] == ns;
  }

  /** The slice loop. It ends because the total grows to 16 bits per subband, which is at
      least the bitpool. */
  method PeelSlices(bitNeed: array<int>, base: nat, n: nat, bitpool: nat, max: int)
    returns (bitSlice: int, bitCount: nat, sliceCount: nat)
    requires base + n <= bitNeed.Length && bitpool <= 16 * n
    requires forall i :: base <= i < base + n ==> bitNeed[i] <= max
    ensures var ns := bitNeed[base..base + n];
      && Total(ns, -bitSlice) + bitCount == bitpool
      && Total(ns, -bitSlice + 1) == Total(ns, -bitSlice) + sliceCount
      && 0 <= bitCount <= sliceCount
      && (bitCount == 0 ==> sliceCount == 0)
  {
    hide Total, Slice;
    ghost var ns := bitNeed[base..base + n];
    bitSlice := max;
    bitCount := bitpool;
    sliceCount := CountSlice(bitNeed, base, n, bitSlice);
    TotalGround(ns, -max);
    TotalGround(ns, -max + 1);
    TotalStep(ns, -max);
    while bitCount - sliceCount > 0
      invariant Total(ns, -bitSlice) + bitCount == bitpool && bitCount >= 0
      invariant sliceCount == Slice(ns, -bitSlice)
      invariant bitCount == 0 ==> sliceCount == 0
      decreases bitSlice + 16 - Lowest(ns)
    {
      TotalStep(ns, -bitSlice);
      SliceBelow(ns, bitpool, bitSlice);
      bitSlice := bitSlice - 1;
      bitCount := bitCount - sliceCount;
      sliceCount := CountSlice(bitNeed, base, n, bitSlice);
    }
    TotalStep(ns, -bitSlice);
  }

  /** While the slices peeled so far do not use up the pool, some subband is not full yet. */
  lemma SliceBelow(ns: seq<int>, bitpool: nat, bitSlice: int)
    requires Total(ns, -bitSlice + 1) < bitpool <= 16 * |ns|
    ensures bitSlice + 16 - Lowest(ns) > 0
  {
    TotalCeiling(ns, -bitSlice + 1);
  }

  // ---- sbc_enc_bit_alloc_mono ----

  /** Bits after peeling, before the rest is handed out. */
  method TakeBits(bitNeed: array<int>, bits: array<int>, base: nat, n: nat, bitSlice: int)
    requires base + n <= bitNeed.Length && base + n <= bits.Length && bitNeed != bits
    modifies bits
    ensures bits[base..base + n] == Clamps(bitNeed[base..base + n], -bitSlice)
    ensures forall i :: 0 <= i < bits.Length && !(base <= i < base + n) ==> bits[i] == old(bits[i])
  {
    var sb := 0;
    while sb < n
      invariant sb <= n
      invariant forall i :: base <= i < base + sb ==> bits[i] == Clamp(bitNeed[i] - bitSlice)
      invariant forall i :: 0 <= i < bits.Length && !(base <= i < base + n) ==> bits[i] == old(bits[i])
    {
      if bitNeed[base + sb] < bitSlice + 2 {
        bits[base + sb] := 0;
      } else {
        bits[base + sb] := if bitNeed[base + sb] - bitSlice < 16 then bitNeed[base + sb] - bitSlice else 16;
      }
      sb := sb + 1;
    }
  }

  /** The two tests of the first distribution loop, on a subband that holds its clamped bits. */
  method GrantExtra(bitNeed: array<int>, bits: array<int>, i: nat, bitSlice: int, bitCount: nat) returns (left: nat)
    requires i < bitNeed.Length && i < bits.Length && bitNeed != bits && bitCount > 0
    requires bits[i] == Clamp(bitNeed[i] - bitSlice)
    modifies bits
    ensures (bits[i], left) == FirstGrant(bitNeed[i] - bitSlice, bitCount)
    ensures forall j :: 0 <= j < bits.Length && j != i ==> bits[j] == old(bits[j])
  {
    left := bitCount;
    if bits[i] >= 2 && bits[i] < 16 {
      bits[i] := bits[i] + 1;
      left := left - 1;
    } else if bitNeed[i] == bitSlice + 1 && left > 1 {
      bits[i] := 2;
      left := left - 2;
    }
  }

  method MonoFirstPass(bitNeed: array<int>, bits: array<int>, base: nat, n: nat, bitSlice: int, left: nat)
    returns (bitCount: nat)
    requires base + n <= bitNeed.Length && base + n <= bits.Length && bitNeed != bits
    requires bits[base..base + n] == Clamps(bitNeed[base..base + n], -bitSlice)
    modifies bits
    ensures (bits[base..base + n], bitCount) == FirstPass(bitNeed[base..base + n], -bitSlice, left)
    ensures forall i :: 0 <= i < bits.Length && !(base <= i < base + n) ==> bits[i] == old(bits[i])
  {
    hide FirstPass, FirstAt, FirstGrant, Clamp;
    ghost var ns := bitNeed[base..base + n];
    ghost var clamps := bits[base..base + n];
    ghost var first := FirstPass(ns, -bitSlice, left).0;
    FirstStart(ns, -bitSlice, left);
    bitCount := left;
    var sb := 0;
    while bitCount > 0 && sb < n
      invariant sb <= n && FirstAt(ns, -bitSlice, left, sb, bitCount)
      invariant forall i :: base <= i < base + sb ==> bits[i] == first[i - base]
      invariant forall i :: base + sb <= i < base + n ==> bits[i] == clamps[i - base]
      invariant forall i :: 0 <= i < bits.Length && !(base <= i < base + n) ==> bits[i] == old(bits[i])
      decreases n - sb
    {
      FirstNext(ns, -bitSlice, left, sb, bitCount);
      bitCount := GrantExtra(bitNeed, bits, base + sb, bitSlice, bitCount);
      sb := sb + 1;
    }
    if bitCount == 0 {
      FirstStops(ns, -bitSlice, left, sb);
    } else {
      FirstEnd(ns, -bitSlice, left, bitCount);
    }
    assert bits[base..base + n] == first;
  }

  method MonoSecondPass(bits: array<int>, base: nat, n: nat, left: nat)
    requires base + n <= bits.Length && forall i :: base <= i < base + n ==> bits[i] >= 0
    modifies bits
    ensures bits[base..base + n] == SecondPass(old(bits[base..base + n]), left).0
    ensures forall i :: 0 <= i < bits.Length && !(base <= i < base + n) ==> bits[i] == old(bits[i])
  {
    hide SecondPass, SecondAt;
    ghost var first: seq<nat> := bits[base..base + n];
    ghost var second := SecondPass(first, left).0;
    SecondStart(first, left);
    var bitCount := left;
    var sb := 0;
    while bitCount > 0 && sb < n
      invariant sb <= n && SecondAt(first, left, sb, bitCount)
      invariant forall i :: base <= i < base + sb ==> bits[i] == second[i - base]
      invariant forall i :: base + sb <= i < base + n ==> bits[i] == first[i - base]
      invariant forall i :: 0 <= i < bits.Length && !(base <= i < base + n) ==> bits[i] == old(bits[i])
      decreases n - sb
    {
      SecondNext(first, left, sb, bitCount);
      if bits[base + sb] < 16 {
        bits[base + sb] := bits[base + sb] + 1;
        bitCount := bitCount - 1;
      }
      sb := sb + 1;
    }
    if bitCount == 0 {
      SecondStops(first, left, sb);
    }
  }

  /** One channel of sbc_enc_bit_alloc_mono, from the search for the largest need on. Its test
      after the slice loop is not the one of the stereo version: when the pool is used up
      exactly, the last slice is left to the first pass. */
  method MonoChannel(bitNeed: array<int>, bits: array<int>, base: nat, n: nat, bitpool: nat)
    requires base + n <= bitNeed.Length && base + n <= bits.Length && bitNeed != bits && bitpool <= 16 * n
    modifies bits
    ensures bits[base..base + n] == StandardBits(bitNeed[base..base + n], bitpool)
    ensures forall i :: 0 <= i < bits.Length && !(base <= i < base + n) ==> bits[i] == old(bits[i])
  {
    hide FirstPass, SecondPass, Total, StandardBits, Clamps;
    ghost var ns := bitNeed[base..base + n];
    var max := MaxNeed(bitNeed, base, n);
    var bitSlice, bitCount, sliceCount := PeelSlices(bitNeed, base, n, bitpool, max);
    if bitCount == 0 {
      bitCount := bitCount - sliceCount;
      bitSlice := bitSlice - 1;
      TotalMonotone(ns, -bitSlice, -bitSlice + 1);
    }
    LevelGivesStandard(ns, bitpool, -bitSlice);
    TakeBits(bitNeed, bits, base, n, bitSlice);
    var left := MonoFirstPass(bitNeed, bits, base, n, bitSlice, bitCount);
    MonoSecondPass(bits, base, n, left);
  }

  method BitAllocMono(p: EncoderParams)
    requires p.Valid() && !p.info.SharedPool() && PoolFits(p.info)
    modifies p.scratch, p.bits
    ensures var lanes := p.info.Lanes(); p.bits[..lanes] == FrameBits(p.info, p.scaleFactor[..lanes])
  {
    hide StandardBits, EncoderNeeds;
    var n := p.info.NrofSubbands();
    var bitNeed := if p.info.alloc.Snr? then p.scaleFactor else p.scratch;
    if p.info.alloc.Loudness? {
      LoudnessNeeds(p, 0);
    }
    NeedsHere(p, bitNeed, 0);
    MonoChannel(bitNeed, p.bits, 0, n, p.info.bitpool);
    ghost var left := p.bits[0..n];
    if p.info.NrofChannels() == 2 {
      if p.info.alloc.Loudness? {
        LoudnessNeeds(p, n);
      }
      NeedsHere(p, bitNeed, n);
      MonoChannel(bitNeed, p.bits, n, n, p.info.bitpool);
      assert p.bits[0..n] == left;
      assert p.bits[..2 * n] == p.bits[0..n] + p.bits[n..n + n];
    }
    NeedsJoin(p);
  }

  /** Under SNR the needs are the scale factors themselves. */
  lemma NeedsHere(p: EncoderParams, bitNeed: array<int>, base: nat)
    requires p.Valid() && base + p.info.NrofSubbands() <= 16
    requires bitNeed == if p.info.alloc.Snr? then p.scaleFactor else p.scratch
    requires p.info.alloc.Loudness? ==>
      p.scratch[base..base + p.info.NrofSubbands()] == EncoderNeeds(p.info, p.scaleFactor[base..base + p.info.NrofSubbands()])
    ensures bitNeed[base..base + p.info.NrofSubbands()] == EncoderNeeds(p.info, p.scaleFactor[base..base + p.info.NrofSubbands()])
  {
  }

  lemma NeedsJoin(p: EncoderParams)
    requires p.Valid()
    ensures var n := p.info.NrofSubbands(); var es := EncoderNeeds(p.info, p.scaleFactor[..2 * n]);
      && es[..n] == EncoderNeeds(p.info, p.scaleFactor[0..n]) && es[n..] == EncoderNeeds(p.info, p.scaleFactor[n..n + n])
      && EncoderNeeds(p.info, p.scaleFactor[..n]) == EncoderNeeds(p.info, p.scaleFactor[0..n])
  {
    var n := p.info.NrofSubbands();
    assert p.scaleFactor[0..n] == p.scaleFactor[..n];
  }

  // ---- sbc_enc_bit_alloc_ste ----

  /** The first `v` subbands in visiting order hold their final bits, the others what they
      held before. */
  ghost predicate Visited(bits: seq<int>, done: seq<nat>, before: seq<int>, n: nat, v: nat) {
    && |done| == |before| == 2 * n <= |bits|
    && forall i :: 0 <= i < 2 * n ==> Place(n, i) < 2 * n && bits[i] == if Place(n, i) < v then done[Place(n, i)] else before[i]
  }

  /** One visit of the first pass. */
  lemma VisitNext(bits: seq<int>, ns: seq<int>, n: nat, a: int, left: nat, v: nat, bitCount: nat)
    requires v < 2 * n == |ns| <= |bits|
    requires FirstAt(Alternate(ns), a, left, v, bitCount)
    requires Visited(bits, FirstPass(Alternate(ns), a, left).0, Clamps(ns, a), n, v)
    ensures var i := Slot(n, v); i < 2 * n && bits[i] == Clamp(ns[i] + a)
    ensures var i := Slot(n, v); var grant := FirstGrant(ns[i] + a, bitCount);
      && FirstAt(Alternate(ns), a, left, v + 1, grant.1)
      && Visited(bits[i := grant.0], FirstPass(Alternate(ns), a, left).0, Clamps(ns, a), n, v + 1)
  {
    hide FirstPass, FirstAt, FirstGrant, Clamp;
    SlotPlace(n, v);
    FirstNext(Alternate(ns), a, left, v, bitCount);
    var i := Slot(n, v);
    var first := FirstPass(Alternate(ns), a, left).0;
    forall j | 0 <= j < 2 * n
      ensures bits[i := first[v]][j] == if Place(n, j) < v + 1 then first[Place(n, j)] else Clamps(ns, a)[j]
    {
      SlotPlace(n, j);
    }
  }

  method StereoFirstPass(bitNeed: array<int>, bits: array<int>, n: nat, bitSlice: int, left: nat)
    returns (bitCount: nat)
    requires 2 * n <= bitNeed.Length && 2 * n <= bits.Length && bitNeed != bits
    requires bits[..2 * n] == Clamps(bitNeed[..2 * n], -bitSlice)
    modifies bits
    ensures var first := FirstPass(Alternate(bitNeed[..2 * n]), -bitSlice, left);
      bitCount == first.1 && forall i :: 0 <= i < 2 * n ==> bits[i] == first.0[Place(n, i)]
  {
    hide FirstPass, FirstAt, FirstGrant, Clamp, Clamps, Alternate, Visited;
    ghost var clamps := bits[..2 * n];
    ghost var ns := bitNeed[..2 * n];
    ghost var vs := Alternate(ns);
    ghost var first := FirstPass(vs, -bitSlice, left).0;
    FirstStart(vs, -bitSlice, left);
    VisitStart(bits[..], first, clamps, n);
    bitCount := left;
    var ch, sb, i := 0, 0, 0;
    while bitCount > 0 && sb < n
      invariant sb <= n && 0 <= ch <= 1 && (sb == n ==> ch == 0) && i == Slot(n, 2 * sb + ch)
      invariant FirstAt(vs, -bitSlice, left, 2 * sb + ch, bitCount)
      invariant Visited(bits[..], first, clamps, n, 2 * sb + ch)
      decreases 2 * n - 2 * sb - ch
    {
      ghost var before := bits[..];
      VisitNext(before, ns, n, -bitSlice, left, 2 * sb + ch, bitCount);
      bitCount := GrantExtra(bitNeed, bits, i, bitSlice, bitCount);
      assert bits[..] == before[i := bits[i]];
      if ch == 1 {
        ch := 0;
        sb := sb + 1;
        i := sb;
      } else {
        ch := 1;
        i := n + sb;
      }
    }
    if bitCount == 0 {
      StereoRest(ns, n, -bitSlice, left, 2 * sb + ch);
    } else {
      FirstEnd(vs, -bitSlice, left, bitCount);
    }
    VisitEnd(bits[..], first, clamps, n, 2 * sb + ch);
  }

  lemma VisitStart(bits: seq<int>, done: seq<nat>, before: seq<int>, n: nat)
    requires |done| == 2 * n <= |bits| && before == bits[..2 * n]
    ensures Visited(bits, done, before, n, 0)
  {
  }

  /** The walk may stop early where nothing would change any more. */
  lemma VisitEnd(bits: seq<int>, done: seq<nat>, before: seq<int>, n: nat, v: nat)
    requires Visited(bits, done, before, n, v)
    requires forall i :: 0 <= i < 2 * n && v <= Place(n, i) < 2 * n ==> before[i] == done[Place(n, i)]
    ensures forall i :: 0 <= i < 2 * n ==> Place(n, i) < 2 * n && bits[i] == done[Place(n, i)]
  {
  }

  /** Once the bits are gone, the subbands not visited yet keep their clamped bits. */
  lemma StereoRest(ns: seq<int>, n: nat, a: int, left: nat, v: nat)
    requires |ns| == 2 * n && FirstAt(Alternate(ns), a, left, v, 0)
    ensures var first := FirstPass(Alternate(ns), a, left);
      first.1 == 0 && forall j :: 0 <= j < 2 * n && v <= Place(n, j) ==> first.0[Place(n, j)] == Clamps(ns, a)[j]
  {
    hide FirstPass, FirstAt;
    var first := FirstPass(Alternate(ns), a, left).0;
    FirstStops(Alternate(ns), a, left, v);
    forall j | 0 <= j < 2 * n && v <= Place(n, j) ensures first[Place(n, j)] == Clamps(ns, a)[j] {
      SlotPlace(n, j);
    }
  }

  method StereoSecondPass(bits: array<int>, n: nat, ghost first: seq<nat>, left: nat)
    requires |first| == 2 * n <= bits.Length
    requires forall i :: 0 <= i < 2 * n ==> bits[i] == first[Place(n, i)]
    modifies bits
    ensures forall i :: 0 <= i < 2 * n ==> bits[i] == SecondPass(first, left).0[Place(n, i)]
  {
    hide SecondPass, SecondAt;
    ghost var second := SecondPass(first, left).0;
    SecondStart(first, left);
    var bitCount := left;
    var ch, sb, i := 0, 0, 0;
    while bitCount > 0 && sb < n
      invariant sb <= n && 0 <= ch <= 1 && (sb == n ==> ch == 0) && i == (if ch == 0 then sb else n + sb)
      invariant SecondAt(first, left, 2 * sb + ch, bitCount)
      invariant forall j :: 0 <= j < sb + ch ==> bits[j] == second[2 * j]
      invariant forall j :: n <= j < n + sb ==> bits[j] == second[2 * (j - n) + 1]
      invariant forall j :: sb + ch <= j < n ==> bits[j] == first[2 * j]
      invariant forall j :: n + sb <= j < 2 * n ==> bits[j] == first[2 * (j - n) + 1]
      decreases 2 * n - 2 * sb - ch
    {
      SecondNext(first, left, 2 * sb + ch, bitCount);
      if bits[i] < 16 {
        bits[i] := bits[i] + 1;
        bitCount := bitCount - 1;
      }
      if ch == 1 {
        ch := 0;
        sb := sb + 1;
        i := sb;
      } else {
        ch := 1;
        i := n + sb;
      }
    }
    if bitCount == 0 {
      SecondStops(first, left, 2 * sb + ch);
    }
  }

  /** The slice loop of the stereo version with its test: a pool used up exactly by the last
      slice takes that slice in. */
  method StereoSlices(bitNeed: array<int>, lanes: nat, bitpool: nat, max: int) returns (bitSlice: int, bitCount: nat)
    requires lanes % 2 == 0 && lanes <= bitNeed.Length && bitpool <= 16 * lanes
    requires forall i :: 0 <= i < lanes ==> bitNeed[i] <= max
    ensures var vs := Alternate(bitNeed[..lanes]); var first := FirstPass(vs, -bitSlice, bitCount);
      StandardBits(vs, bitpool) == SecondPass(first.0, first.1).0
  {
    hide StandardBits, FirstPass, SecondPass, Total, Alternate;
    ghost var ns := bitNeed[..lanes];
    assert bitNeed[0..lanes] == ns;
    var sliceCount;
    bitSlice, bitCount, sliceCount := PeelSlices(bitNeed, 0, lanes, bitpool, max);
    if bitCount - sliceCount == 0 {
      bitCount := bitCount - sliceCount;
      bitSlice := bitSlice - 1;
      TotalMonotone(ns, -bitSlice, -bitSlice + 1);
    }
    AlternateTotal(ns, -bitSlice);
    AlternateTotal(ns, -bitSlice + 1);
    LevelGivesStandard(Alternate(ns), bitpool, -bitSlice);
  }

  /** Where the stereo version finds the needs and what it takes for the largest one: under
      SNR the `maxBitNeed` of the frame. */
  method StereoNeeds(p: EncoderParams) returns (bitNeed: array<int>, max: int)
    requires p.Valid()
    requires p.info.alloc.Snr? ==> forall i :: 0 <= i < 2 * p.info.NrofSubbands() ==> p.scaleFactor[i] <= p.maxBitNeed
    modifies p.scratch
    ensures bitNeed == if p.info.alloc.Snr? then p.scaleFactor else p.scratch
    ensures var n := p.info.NrofSubbands(); bitNeed[..2 * n] == EncoderNeeds(p.info, p.scaleFactor[..2 * n])
    ensures forall i :: 0 <= i < 2 * p.info.NrofSubbands() ==> bitNeed[i] <= max
  {
    hide EncoderNeeds;
    var n := p.info.NrofSubbands();
    bitNeed := if p.info.alloc.Snr? then p.scaleFactor else p.scratch;
    max := p.maxBitNeed;
    if p.info.alloc.Loudness? {
      LoudnessNeeds(p, 0);
      ghost var left := p.scratch[0..n];
      LoudnessNeeds(p, n);
      assert p.scratch[0..n] == left;
      max := MaxNeed(p.scratch, 0, 2 * n);
    }
    NeedsHere(p, bitNeed, 0);
    NeedsHere(p, bitNeed, n);
    NeedsJoin(p);
    ghost var ns := EncoderNeeds(p.info, p.scaleFactor[..2 * n]);
    assert bitNeed[..2 * n] == bitNeed[0..n] + bitNeed[n..n + n] == ns[..n] + ns[n..] == ns;
  }

  /** sbc_enc_bit_alloc_ste. Under SNR it starts from `maxBitNeed`, which must not hide a subband. */
  method BitAllocStereo(p: EncoderParams)
    requires p.Valid() && p.info.SharedPool() && PoolFits(p.info)
    requires p.info.alloc.Snr? ==> forall i :: 0 <= i < p.info.Lanes() ==> p.scaleFactor[i] <= p.maxBitNeed
    modifies p.scratch, p.bits
    ensures var lanes := p.info.Lanes(); p.bits[..lanes] == FrameBits(p.info, p.scaleFactor[..lanes])
  {
    hide StandardBits, EncoderNeeds, FirstPass, SecondPass, Total, Clamps, Alternate, Unalternate;
    var n := p.info.NrofSubbands();
    var bitNeed, max := StereoNeeds(p);
    ghost var ns := bitNeed[..2 * n];
    assert bitNeed[0..2 * n] == ns;
    var bitSlice, bitCount := StereoSlices(bitNeed, 2 * n, p.info.bitpool, max);
    TakeBits(bitNeed, p.bits, 0, 2 * n, bitSlice);
    assert p.bits[0..2 * n] == p.bits[..2 * n];
    ghost var first := FirstPass(Alternate(ns), -bitSlice, bitCount).0;
    var left := StereoFirstPass(bitNeed, p.bits, n, bitSlice, bitCount);
    StereoSecondPass(p.bits, n, first, left);
    PlacesUnalternate(p.bits[..2 * n], SecondPass(first, left).0);
  }

  lemma PlacesUnalternate(bits: seq<int>, ys: seq<nat>)
    requires |bits| == |ys| && |ys| % 2 == 0
    requires forall i :: 0 <= i < |ys| ==> Place(|ys| / 2, i) < |ys| && bits[i] == ys[Place(|ys| / 2, i)]
    ensures bits == Unalternate(ys)
  {
  }
}
