/** SBC_Encoder between the analysis filter and the bit allocation: scale factors and the choice
    of joint coding, subband by subband. */
module ScaleFactors {
  import opened Bits
  import opened Words
  import opened Frames
  import opened FrameLayout
  import opened Quantiser
  import opened EncoderContexts

  // ---- one scale factor ----

  /** The smallest scale factor from `sf` on that covers a peak; 15 covers whatever is left. */
  function ScaleFrom(peak: nat, sf: nat): (r: nat)
    requires sf <= 15
    ensures sf <= r <= 15
    ensures r < 15 ==> peak <= Pow2(15 + r)
    ensures forall k :: 15 + sf <= k < 15 + r ==> peak > Pow2(k)
    decreases 15 - sf
  {
    if sf == 15 || peak <= Pow2(15 + sf) then sf else ScaleFrom(peak, sf + 1)
  }

  /** Peaks above 0x800000 may start at 9. */
  lemma StartAtNine(peak: nat)
    requires peak > 0x80_0000
    ensures ScaleFrom(peak, 0) == ScaleFrom(peak, 9)
  {
    ScaleSkips(peak, 9);
  }

  lemma {:induction false} ScaleSkips(peak: nat, sf: nat)
    requires sf <= 9 && peak > 0x80_0000
    ensures ScaleFrom(peak, 0) == ScaleFrom(peak, sf)
  {
    if sf > 0 {
      ScaleSkips(peak, sf - 1);
      Pow2Mono(14 + sf, 23);
      assert Pow2(23) == 0x80_0000 by { Pow2Constants(); Pow2Add(7, 16); assert Pow2(7) == 128; }
      assert peak > Pow2(15 + (sf - 1));
    }
  }

  /** The counting loop. */
  method CountFor(maxValue: nat) returns (count: nat)
    ensures count == ScaleFrom(maxValue, 0)
  {
    if maxValue > 0x80_0000 {
      StartAtNine(maxValue);
    }
    count := if maxValue > 0x80_0000 then 9 else 0;
    while count < 15
      invariant count <= 15 && ScaleFrom(maxValue, count) == ScaleFrom(maxValue, 0)
    {
      if maxValue <= Pow2(15 + count) {
        break;
      }
      count := count + 1;
    }
  }

  /** Values up to 2 ** 30 always lie within the scale factor of their peak. */
  lemma PeakInScale(x: int, peak: nat)
    requires Abs(x) <= peak <= 0x4000_0000
    ensures InScale(x, ScaleFrom(peak, 0))
  {
    Pow2Constants();
    assert peak <= Pow2(15 + ScaleFrom(peak, 0));
  }

  // ---- peaks ----

  /** The largest magnitude of a subband. */
  function Peak(column: seq<int>): (m: nat)
    ensures forall i :: 0 <= i < |column| ==> Abs(column[i]) <= m
    ensures m == 0 || exists i :: 0 <= i < |column| && Abs(column[i]) == m
  {
    if column == [] then 0
    else
      var m, x := Peak(column[..|column| - 1]), Abs(column[|column| - 1]);
      assert m > 0 ==> exists i :: 0 <= i < |column| && Abs(column[i]) == m by {
        if m > 0 {
          var i :| 0 <= i < |column| - 1 && Abs(column[..|column| - 1][i]) == m;
          assert Abs(column[i]) == m;
        }
      }
      if m < x then x else m
  }

  lemma PeakNext(column: seq<int>, i: nat)
    requires i < |column|
    ensures Peak(column[..i + 1]) == if Peak(column[..i]) < Abs(column[i]) then Abs(column[i]) else Peak(column[..i])
  {
    assert column[..i + 1][..i] == column[..i];
  }

  /** The samples of one lane, block by block. */
  function Column(sb: seq<int>, info: FrameInfo, lane: nat): (column: seq<int>)
    requires SampleCount(info) <= |sb| && lane < info.Lanes()
    ensures |column| == info.NrofBlocks()
  {
    seq(info.NrofBlocks(), row requires 0 <= row < info.NrofBlocks() => CellAt(sb, info, row, lane))
  }

  function CellAt(sb: seq<int>, info: FrameInfo, row: nat, lane: nat): int
    requires SampleCount(info) <= |sb| && lane < info.Lanes() && row < info.NrofBlocks()
  {
    RowFits(info, row);
    sb[row * info.Lanes() + lane]
  }

  /** `(left + right) >> 1` and `(left - right) >> 1` in 32-bit arithmetic. */
  function Mid(l: int, r: int): int {
    Signed(l + r) / 2
  }

  function Side(l: int, r: int): int {
    Signed(l - r) / 2
  }

  function MidColumn(sb: seq<int>, info: FrameInfo, lane: nat): (column: seq<int>)
    requires SampleCount(info) <= |sb| && !info.mode.Mono? && lane < info.NrofSubbands()
    ensures |column| == info.NrofBlocks()
  {
    seq(info.NrofBlocks(), row requires 0 <= row < info.NrofBlocks() =>
      Mid(CellAt(sb, info, row, lane), CellAt(sb, info, row, lane + info.NrofSubbands())))
  }

  function SideColumn(sb: seq<int>, info: FrameInfo, lane: nat): (column: seq<int>)
    requires SampleCount(info) <= |sb| && !info.mode.Mono? && lane < info.NrofSubbands()
    ensures |column| == info.NrofBlocks()
  {
    seq(info.NrofBlocks(), row requires 0 <= row < info.NrofBlocks() =>
      Side(CellAt(sb, info, row, lane), CellAt(sb, info, row, lane + info.NrofSubbands())))
  }

  /** Samples that leave room for one more bit. */
  ghost predicate Moderate(sb: seq<int>, info: FrameInfo) {
    SampleCount(info) <= |sb| && forall k :: 0 <= k < SampleCount(info) ==> Abs(sb[k]) <= 0x4000_0000
  }

  lemma HalvesModerate(l: int, r: int)
    requires Abs(l) <= 0x4000_0000 && Abs(r) <= 0x4000_0000
    ensures Abs(Mid(l, r)) <= 0x4000_0000 && Abs(Side(l, r)) <= 0x4000_0000
  {
  }

  /** Taking mid and side apart again: the right sample exactly, the left one up to the bit that
      the halving dropped. */
  lemma MidSideInverts(l: int, r: int)
    requires Abs(l) < 0x4000_0000 && Abs(r) < 0x4000_0000
    ensures Signed(Mid(l, r) - Side(l, r)) == r
    ensures Signed(Mid(l, r) + Side(l, r)) == if (l + r) % 2 == 0 then l else l - 1
  {
  }

  // ---- the loops ----

  lemma PeakOfColumn(sb: seq<int>, info: FrameInfo, lane: nat, row: nat)
    requires SampleCount(info) <= |sb| && lane < info.Lanes() && row < info.NrofBlocks()
    ensures var column, at := Column(sb, info, lane), RowStart(info, row) + lane;
      && at < |sb|
      && Peak(column[..row + 1]) == if Peak(column[..row]) < Abs(sb[at]) then Abs(sb[at]) else Peak(column[..row])
  {
    hide *;
    PeakNext(Column(sb, info, lane), row);
    ColumnAt(sb, info, lane, row);
  }

  /** The peak of one lane. */
  method LanePeak(sb: seq<int>, info: FrameInfo, lane: nat) returns (maxValue: nat)
    requires SampleCount(info) <= |sb| && lane < info.Lanes()
    ensures maxValue == Peak(Column(sb, info, lane))
  {
    ghost var column := Column(sb, info, lane);
    Rows(info);
    hide *;
    maxValue := 0;
    var blk, at := 0, lane;
    PeakNone(column);
    while blk < info.NrofBlocks()
      invariant blk <= info.NrofBlocks() && at == RowStart(info, blk) + lane
      invariant maxValue == Peak(column[..blk])
    {
      RowFits(info, blk);
      PeakOfColumn(sb, info, lane, blk);
      if maxValue < Abs(sb[at]) {
        maxValue := Abs(sb[at]);
      }
      at := at + info.Lanes();
      blk := blk + 1;
    }
    assert column[..blk] == column;
  }

  lemma ColumnAt(sb: seq<int>, info: FrameInfo, lane: nat, row: nat)
    requires SampleCount(info) <= |sb| && lane < info.Lanes() && row < info.NrofBlocks()
    ensures RowStart(info, row) + lane < |sb| && Column(sb, info, lane)[row] == sb[RowStart(info, row) + lane]
  {
    RowFits(info, row);
  }

  lemma PeakNone(column: seq<int>)
    ensures Peak(column[..0]) == 0
  {
  }

  /** The first `n` lanes have the scale factors of their own peaks, none above `maxBit`. */
  ghost predicate Scaled(sfs: seq<int>, sb: seq<int>, info: FrameInfo, n: nat, maxBit: nat) {
    && SampleCount(info) <= |sb| && n <= info.Lanes() && n <= |sfs|
    && forall i :: 0 <= i < n ==> sfs[i] == ScaleFrom(Peak(Column(sb, info, i)), 0) <= maxBit
  }

  lemma ScaledNext(sfs: seq<int>, sb: seq<int>, info: FrameInfo, n: nat, maxBit: nat, sf: nat)
    requires Scaled(sfs, sb, info, n, maxBit) && n < info.Lanes() && n < |sfs|
    requires sf == ScaleFrom(Peak(Column(sb, info, n)), 0)
    ensures Scaled(sfs[n := sf], sb, info, n + 1, if sf > maxBit then sf else maxBit)
  {
    hide ScaleFrom, Peak, Column;
  }

  /** A scale factor for every lane, and the largest of them. */
  method LaneScaleFactors(p: EncoderParams, least: nat) returns (maxBit: nat)
    requires p.Valid() && least <= 15
    modifies p.scaleFactor
    ensures p.Valid() && least <= maxBit <= 15
    ensures Scaled(p.scaleFactor[..], p.sbBuffer[..], p.info, p.info.Lanes(), maxBit)
  {
    SamplesFit(p.info);
    hide Peak, Column, ScaleFrom, SampleCount;
    maxBit := least;
    var sb := 0;
    while sb < p.info.Lanes()
      invariant sb <= p.info.Lanes() && p.Valid() && least <= maxBit <= 15
      invariant p.sbBuffer[..] == old(p.sbBuffer[..])
      invariant Scaled(p.scaleFactor[..], p.sbBuffer[..], p.info, sb, maxBit)
    {
      ghost var before := p.scaleFactor[..];
      var maxValue := LanePeak(p.sbBuffer[..], p.info, sb);
      var count := CountFor(maxValue);
      ScaledNext(before, p.sbBuffer[..], p.info, sb, maxBit, count);
      p.scaleFactor[sb] := count;
      assert p.scaleFactor[..] == before[sb := count];
      if count > maxBit {
        maxBit := count;
      }
      sb := sb + 1;
    }
  }

  lemma SamplesFit(info: FrameInfo)
    requires info.Valid()
    ensures SampleCount(info) <= 256
  {
    MulOrder(info.Lanes(), info.NrofBlocks(), 16);
  }

  // ---- joint coding ----

  lemma CellUpdate(sb: seq<int>, after: seq<int>, info: FrameInfo, row: nat, lane: nat, at: nat, v: int)
    requires SampleCount(info) <= |sb| && row < info.NrofBlocks() && lane < info.Lanes()
    requires at == RowStart(info, row) + lane < |sb| && after == sb[at := v]
    ensures forall r: nat, l: nat :: r < info.NrofBlocks() && l < info.Lanes() ==>
      CellAt(after, info, r, l) == if r == row && l == lane then v else CellAt(sb, info, r, l)
  {
    forall r: nat, l: nat | r < info.NrofBlocks() && l < info.Lanes()
      ensures CellAt(after, info, r, l) == if r == row && l == lane then v else CellAt(sb, info, r, l)
    {
      CellAfter(sb, info, row, lane, at, v, r, l);
    }
  }

  lemma CellAfter(sb: seq<int>, info: FrameInfo, row: nat, lane: nat, at: nat, v: int, r: nat, l: nat)
    requires SampleCount(info) <= |sb| && row < info.NrofBlocks() && lane < info.Lanes()
    requires at == RowStart(info, row) + lane < |sb|
    requires r < info.NrofBlocks() && l < info.Lanes()
    ensures CellAt(sb[at := v], info, r, l) == if r == row && l == lane then v else CellAt(sb, info, r, l)
  {
    RowFits(info, r);
    RowLane(info, r, l);
    RowLane(info, row, lane);
    RowOf(info, r, l);
    RowOf(info, row, lane);
    assert RowStart(info, r) == r * info.Lanes();
    hide SampleCount, RowStart;
  }

  lemma RowOf(info: FrameInfo, row: nat, lane: nat)
    requires lane < info.Lanes()
    ensures (RowStart(info, row) + lane) / info.Lanes() == row
  {
    ModUnique(RowStart(info, row) + lane, info.Lanes(), row, lane);
  }

  /** Lanes `t` and `t + NrofSubbands` hold `mids` and `sides` in the first `rows` blocks. */
  ghost predicate Rewritten(sb: seq<int>, before: seq<int>, info: FrameInfo, t: nat, mids: seq<int>, sides: seq<int>,
                            rows: nat) {
    && SampleCount(info) <= |sb| == |before| && |mids| == |sides| == info.NrofBlocks() && rows <= info.NrofBlocks()
    && !info.mode.Mono? && t < info.NrofSubbands()
    && forall r: nat, l: nat :: r < info.NrofBlocks() && l < info.Lanes() ==>
         CellAt(sb, info, r, l) == if r < rows && l == t then mids[r]
                                   else if r < rows && l == t + info.NrofSubbands() then sides[r]
                                   else CellAt(before, info, r, l)
  }

  lemma RewrittenNext(sb: seq<int>, before: seq<int>, info: FrameInfo, t: nat, mids: seq<int>, sides: seq<int>,
                      rows: nat, at: nat)
    requires Rewritten(sb, before, info, t, mids, sides, rows) && rows < info.NrofBlocks()
    requires at == RowStart(info, rows) + t
    ensures at + info.NrofSubbands() < |sb|
    ensures Rewritten(sb[at := mids[rows]][at + info.NrofSubbands() := sides[rows]], before, info, t, mids, sides, rows + 1)
  {
    var n := info.NrofSubbands();
    RowFits(info, rows);
    hide SampleCount, RowStart;
    var half := sb[at := mids[rows]];
    CellUpdate(sb, half, info, rows, t, at, mids[rows]);
    var done := half[at + n := sides[rows]];
    CellUpdate(half, done, info, rows, t + n, at + n, sides[rows]);
    forall r: nat, l: nat | r < info.NrofBlocks() && l < info.Lanes()
      ensures CellAt(done, info, r, l) == if r < rows + 1 && l == t then mids[r]
                                          else if r < rows + 1 && l == t + n then sides[r]
                                          else CellAt(before, info, r, l)
    {
      assert CellAt(done, info, r, l) == if r == rows && l == t + n then sides[rows] else CellAt(half, info, r, l);
      assert CellAt(half, info, r, l) == if r == rows && l == t then mids[rows] else CellAt(sb, info, r, l);
    }
  }

  lemma RewrittenNone(sb: seq<int>, info: FrameInfo, t: nat, mids: seq<int>, sides: seq<int>)
    requires SampleCount(info) <= |sb| && |mids| == |sides| == info.NrofBlocks() && !info.mode.Mono?
    requires t < info.NrofSubbands()
    ensures Rewritten(sb, sb, info, t, mids, sides, 0)
  {
  }

  /** Both halves of the first `blk` blocks, and their peaks so far. */
  ghost predicate Halves(sums: seq<int>, diffs: seq<int>, mids: seq<int>, sides: seq<int>, blk: nat, max: nat,
                         max2: nat) {
    && |sums| == |diffs| == 16 && |mids| == |sides| <= 16 && blk <= |mids|
    && sums[..blk] == mids[..blk] && diffs[..blk] == sides[..blk]
    && max == Peak(mids[..blk]) && max2 == Peak(sides[..blk])
  }

  function Larger(x: nat, y: nat): nat {
    if y > x then y else x
  }

  lemma HalvesNext(sums: seq<int>, diffs: seq<int>, mids: seq<int>, sides: seq<int>, blk: nat, max: nat, max2: nat)
    requires Halves(sums, diffs, mids, sides, blk, max, max2) && blk < |mids|
    ensures Halves(sums[blk := mids[blk]], diffs[blk := sides[blk]], mids, sides, blk + 1, Larger(max, Abs(mids[blk])), Larger(max2, Abs(sides[blk])))
  {
    hide Peak;
    PeakNext(mids, blk);
    PeakNext(sides, blk);
  }

  lemma HalvesDone(sums: seq<int>, diffs: seq<int>, mids: seq<int>, sides: seq<int>, max: nat, max2: nat)
    requires Halves(sums, diffs, mids, sides, |mids|, max, max2)
    ensures |sums| == |diffs| == 16 >= |mids| == |sides|
    ensures sums[..|mids|] == mids && diffs[..|sides|] == sides && max == Peak(mids) && max2 == Peak(sides)
  {
    assert mids[..|mids|] == mids && sides[..|sides|] == sides;
  }

  lemma HalvesNone(sums: seq<int>, diffs: seq<int>, mids: seq<int>, sides: seq<int>)
    requires |sums| == |diffs| == 16 && |mids| == |sides| <= 16
    ensures Halves(sums, diffs, mids, sides, 0, 0, 0)
  {
  }

  lemma HalvesHere(sb: seq<int>, info: FrameInfo, t: nat, blk: nat)
    requires SampleCount(info) <= |sb| && !info.mode.Mono? && t < info.NrofSubbands() && blk < info.NrofBlocks()
    ensures var l, n := RowStart(info, blk) + t, info.NrofSubbands();
      && l + n < |sb|
      && MidColumn(sb, info, t)[blk] == Mid(sb[l], sb[l + n]) && SideColumn(sb, info, t)[blk] == Side(sb[l], sb[l + n])
  {
    hide Mid, Side;
    RowFits(info, blk);
  }

  /** s32LRSum and s32LRDiff of one subband, with their peaks. */
  method SumAndDiff(sb: seq<int>, info: FrameInfo, t: nat, pSum: array<int>, pDiff: array<int>)
    returns (max: nat, max2: nat)
    requires SampleCount(info) <= |sb| && info.Valid() && !info.mode.Mono? && t < info.NrofSubbands()
    requires pSum.Length == pDiff.Length == 16 && pSum != pDiff
    modifies pSum, pDiff
    ensures Halves(pSum[..], pDiff[..], MidColumn(sb, info, t), SideColumn(sb, info, t), info.NrofBlocks(), max, max2)
  {
    ghost var mids, sides := MidColumn(sb, info, t), SideColumn(sb, info, t);
    var n := info.NrofSubbands();
    Rows(info);
    HalvesNone(pSum[..], pDiff[..], mids, sides);
    hide *;
    max, max2 := 0, 0;
    var blk, at := 0, t;
    while blk < info.NrofBlocks()
      invariant blk <= info.NrofBlocks() && at == RowStart(info, blk) + t
      invariant Halves(pSum[..], pDiff[..], mids, sides, blk, max, max2)
    {
      RowFits(info, blk);
      HalvesHere(sb, info, t, blk);
      HalvesNext(pSum[..], pDiff[..], mids, sides, blk, max, max2);
      ghost var sums, diffs := pSum[..], pDiff[..];
      pSum[blk] := Mid(sb[at], sb[at + n]);
      max := Larger(max, Abs(pSum[blk]));
      pDiff[blk] := Side(sb[at], sb[at + n]);
      max2 := Larger(max2, Abs(pDiff[blk]));
      assert pSum[..] == sums[blk := mids[blk]] && pDiff[..] == diffs[blk := sides[blk]];
      at := at + info.Lanes();
      blk := blk + 1;
    }
  }

  /** Write mid and side over left and right. */
  method StoreMidSide(sbBuffer: array<int>, info: FrameInfo, t: nat, mids: seq<int>, sides: seq<int>)
    requires SampleCount(info) <= sbBuffer.Length && |mids| == |sides| == info.NrofBlocks()
    requires !info.mode.Mono? && t < info.NrofSubbands()
    modifies sbBuffer
    ensures Rewritten(sbBuffer[..], old(sbBuffer[..]), info, t, mids, sides, info.NrofBlocks())
  {
    ghost var before := sbBuffer[..];
    RewrittenNone(before, info, t, mids, sides);
    Rows(info);
    hide Rewritten, SampleCount, RowStart;
    var blk, at := 0, t;
    while blk < info.NrofBlocks()
      invariant blk <= info.NrofBlocks() && at == RowStart(info, blk) + t
      invariant Rewritten(sbBuffer[..], before, info, t, mids, sides, blk)
    {
      RowFits(info, blk);
      RewrittenNext(sbBuffer[..], before, info, t, mids, sides, blk, at);
      ghost var here := sbBuffer[..];
      sbBuffer[at] := mids[blk];
      sbBuffer[at + info.NrofSubbands()] := sides[blk];
      assert sbBuffer[..] == here[at := mids[blk]][at + info.NrofSubbands() := sides[blk]];
      at := at + info.Lanes();
      blk := blk + 1;
    }
  }

  // ---- the decision ----

  function SfOf(column: seq<int>): (sf: nat)
    ensures sf <= 15
  {
    ScaleFrom(Peak(column), 0)
  }

  /** Mid and side need smaller scale factors than left and right. */
  predicate Pays(sb: seq<int>, info: FrameInfo, t: nat)
    requires SampleCount(info) <= |sb| && !info.mode.Mono? && t < info.NrofSubbands()
  {
    SfOf(Column(sb, info, t)) + SfOf(Column(sb, info, t + info.NrofSubbands())) > SfOf(MidColumn(sb, info, t)) + SfOf(SideColumn(sb, info, t))
  }

  /** What is sent instead of the sample of `lane`, when the first `n` subbands have been decided. */
  function CodedCell(first: seq<int>, info: FrameInfo, join: seq<nat>, n: nat, row: nat, lane: nat): int
    requires SampleCount(info) <= |first| && !info.mode.Mono? && |join| == 8 && row < info.NrofBlocks()
    requires lane < info.Lanes()
  {
    var half := info.NrofSubbands();
    var t := if lane < half then lane else lane - half;
    if t < n && join[t] == 1 then
      var l, r := CellAt(first, info, row, t), CellAt(first, info, row, t + half);
      if lane < half then Mid(l, r) else Side(l, r)
    else CellAt(first, info, row, lane)
  }

  ghost predicate CodedFrom(sb: seq<int>, first: seq<int>, info: FrameInfo, join: seq<nat>, n: nat) {
    && SampleCount(info) <= |sb| == |first| && !info.mode.Mono? && |join| == 8 && n <= info.NrofSubbands()
    && (forall t :: 0 <= t < n ==> join[t] < 2)
    && forall r: nat, l: nat :: r < info.NrofBlocks() && l < info.Lanes() ==> CellAt(sb, info, r, l) == CodedCell(first, info, join, n, r, l)
  }

  /** Every decided subband is coupled exactly if that pays. */
  ghost predicate Decided(first: seq<int>, info: FrameInfo, join: seq<nat>, n: nat) {
    && SampleCount(info) <= |first| && !info.mode.Mono? && |join| == 8 && n <= info.NrofSubbands()
    && forall t :: 0 <= t < n ==> join[t] == if Pays(first, info, t) then 1 else 0
  }

  /** The least scale factor whose range `0x8000 << sf` holds all values, or 15. */
  ghost predicate LeastScale(values: seq<int>, sf: nat) {
    && sf <= 15
    && (sf < 15 ==> forall i :: 0 <= i < |values| ==> Abs(values[i]) <= Pow2(15 + sf))
    && (sf > 0 ==> exists i :: 0 <= i < |values| && Abs(values[i]) > Pow2(14 + sf))
  }

  lemma LeastScaleIs(values: seq<int>, sf: nat)
    requires LeastScale(values, sf)
    ensures SfOf(values) == sf
  {
    hide Pow2, Abs, Peak, ScaleFrom;
    ScaleIsLeast(Peak(values), sf);
  }

  lemma ScaleIsLeast(peak: nat, sf: nat)
    requires sf <= 15 && (sf < 15 ==> peak <= Pow2(15 + sf)) && (sf > 0 ==> peak > Pow2(14 + sf))
    ensures ScaleFrom(peak, 0) == sf
  {
    hide Pow2;
    forall k | 15 <= k < 15 + sf ensures Pow2(k) <= Pow2(14 + sf) {
      Pow2Mono(k, 14 + sf);
    }
    var r := ScaleFrom(peak, 0);
    assert Pow2(15 + r) > 0;
  }

  /** The rule of the joint decision in terms of the samples: a subband is coupled exactly if half the sum and
      half the difference of its channels take smaller scale factors together than the channels. */
  lemma CoupledIff(first: seq<int>, info: FrameInfo, join: seq<nat>, n: nat, t: nat,
                   ls: seq<int>, rs: seq<int>, mids: seq<int>, sides: seq<int>, l: nat, r: nat, mid: nat, side: nat)
    requires Decided(first, info, join, n) && t < n
    requires |ls| == |rs| == |mids| == |sides| == info.NrofBlocks()
    requires forall row: nat :: row < |ls| ==> ls[row] == CellAt(first, info, row, t) && rs[row] == CellAt(first, info, row, t + info.NrofSubbands())
    requires forall row :: 0 <= row < |ls| ==> mids[row] == Signed(ls[row] + rs[row]) / 2 && sides[row] == Signed(ls[row] - rs[row]) / 2
    requires LeastScale(ls, l) && LeastScale(rs, r) && LeastScale(mids, mid) && LeastScale(sides, side)
    ensures join[t] == (if l + r > mid + side then 1 else 0)
  {
    hide SampleCount, SfOf, LeastScale, CellAt, Signed;
    assert Column(first, info, t) == ls && Column(first, info, t + info.NrofSubbands()) == rs;
    assert MidColumn(first, info, t) == mids && SideColumn(first, info, t) == sides;
    LeastScaleIs(ls, l);
    LeastScaleIs(rs, r);
    LeastScaleIs(mids, mid);
    LeastScaleIs(sides, side);
  }

  /** Subbands that are still to be decided hold the original samples. */
  lemma Untouched(sb: seq<int>, first: seq<int>, info: FrameInfo, join: seq<nat>, t: nat)
    requires CodedFrom(sb, first, info, join, t) && t < info.NrofSubbands()
    ensures Column(sb, info, t) == Column(first, info, t)
    ensures Column(sb, info, t + info.NrofSubbands()) == Column(first, info, t + info.NrofSubbands())
    ensures MidColumn(sb, info, t) == MidColumn(first, info, t) && SideColumn(sb, info, t) == SideColumn(first, info, t)
    ensures Pays(sb, info, t) == Pays(first, info, t)
  {
    hide CellAt, Mid, Side, SampleCount, SfOf;
    forall r | 0 <= r < info.NrofBlocks()
      ensures CellAt(sb, info, r, t) == CellAt(first, info, r, t)
      ensures CellAt(sb, info, r, t + info.NrofSubbands()) == CellAt(first, info, r, t + info.NrofSubbands())
    {
      assert CellAt(sb, info, r, t) == CodedCell(first, info, join, t, r, t);
      assert CellAt(sb, info, r, t + info.NrofSubbands()) == CodedCell(first, info, join, t, r, t + info.NrofSubbands());
    }
  }

  /** Leaving a subband as it is. */
  lemma Uncoupled(sb: seq<int>, first: seq<int>, info: FrameInfo, join: seq<nat>, t: nat)
    requires CodedFrom(sb, first, info, join, t) && t < info.NrofSubbands()
    ensures CodedFrom(sb, first, info, join[t := 0], t + 1)
  {
    hide CellAt, Mid, Side, SampleCount;
    var after := join[t := 0];
    forall r: nat, l: nat | r < info.NrofBlocks() && l < info.Lanes()
      ensures CellAt(sb, info, r, l) == CodedCell(first, info, after, t + 1, r, l)
    {
      assert CellAt(sb, info, r, l) == CodedCell(first, info, join, t, r, l);
    }
  }

  /** Coupling a subband. */
  lemma Coupled(after: seq<int>, sb: seq<int>, first: seq<int>, info: FrameInfo, join: seq<nat>, t: nat)
    requires CodedFrom(sb, first, info, join, t) && t < info.NrofSubbands()
    requires Rewritten(after, sb, info, t, MidColumn(sb, info, t), SideColumn(sb, info, t), info.NrofBlocks())
    ensures CodedFrom(after, first, info, join[t := 1], t + 1)
  {
    assert SampleCount(info) <= |after| == |first|;
    var flags := join[t := 1];
    forall r: nat, l: nat | r < info.NrofBlocks() && l < info.Lanes()
      ensures CellAt(after, info, r, l) == CodedCell(first, info, flags, t + 1, r, l)
    {
      CoupledAt(after, sb, first, info, join, flags, t, r, l);
    }
    hide CellAt, CodedCell, SampleCount, Rewritten;
  }

  lemma CoupledAt(after: seq<int>, sb: seq<int>, first: seq<int>, info: FrameInfo, join: seq<nat>, flags: seq<nat>,
                  t: nat, row: nat, lane: nat)
    requires CodedFrom(sb, first, info, join, t) && t < info.NrofSubbands() && row < info.NrofBlocks()
    requires lane < info.Lanes()
    requires Rewritten(after, sb, info, t, MidColumn(sb, info, t), SideColumn(sb, info, t), info.NrofBlocks())
    requires flags == join[t := 1]
    ensures SampleCount(info) <= |after| && SampleCount(info) <= |first|
    ensures CellAt(after, info, row, lane) == CodedCell(first, info, flags, t + 1, row, lane)
  {
    hide CellAt, CodedCell, SampleCount, Column, Pays, MidColumn, SideColumn;
    Untouched(sb, first, info, join, t);
    assert CellAt(sb, info, row, lane) == CodedCell(first, info, join, t, row, lane);
    CoupledCell(first, info, join, flags, t, row, lane);
  }

  lemma CoupledCell(first: seq<int>, info: FrameInfo, join: seq<nat>, flags: seq<nat>, t: nat, row: nat, lane: nat)
    requires SampleCount(info) <= |first| && !info.mode.Mono? && |join| == 8 && row < info.NrofBlocks()
    requires lane < info.Lanes()
    requires t < info.NrofSubbands() && flags == join[t := 1]
    ensures CodedCell(first, info, flags, t + 1, row, lane)
      == if lane == t then MidColumn(first, info, t)[row]
         else if lane == t + info.NrofSubbands() then SideColumn(first, info, t)[row]
         else CodedCell(first, info, join, t, row, lane)
  {
    hide CellAt, Mid, Side, SampleCount;
  }

  /** The scale factors stay those of the peaks. */
  lemma ScaledCoupled(after: seq<int>, sb: seq<int>, sfs: seq<int>, info: FrameInfo, t: nat, maxBit: nat, mid: nat,
                      side: nat, newMax: nat)
    requires Scaled(sfs, sb, info, info.Lanes(), maxBit) && !info.mode.Mono? && t < info.NrofSubbands()
    requires Rewritten(after, sb, info, t, MidColumn(sb, info, t), SideColumn(sb, info, t), info.NrofBlocks())
    requires mid == SfOf(MidColumn(sb, info, t)) && side == SfOf(SideColumn(sb, info, t))
    requires newMax >= maxBit && newMax >= mid && newMax >= side
    ensures Scaled(sfs[t := mid][t + info.NrofSubbands() := side], after, info, info.Lanes(), newMax)
  {
    hide CellAt, Mid, Side, SampleCount, Peak, ScaleFrom;
    var n := info.NrofSubbands();
    forall l | 0 <= l < info.Lanes()
      ensures Column(after, info, l) == if l == t then MidColumn(sb, info, t) else if l == t + n then SideColumn(sb, info, t) else Column(sb, info, l)
    {
      forall r | 0 <= r < info.NrofBlocks()
        ensures CellAt(after, info, r, l)
          == if l == t then MidColumn(sb, info, t)[r] else if l == t + n then SideColumn(sb, info, t)[r] else CellAt(sb, info, r, l)
      {
      }
    }
    hide Column, MidColumn, SideColumn, Rewritten;
  }

  /** Where the loop over subbands stands. */
  ghost predicate JointSoFar(sfs: seq<int>, sb: seq<int>, join: seq<nat>, first: seq<int>, info: FrameInfo, n: nat,
                             maxBit: nat) {
    && Scaled(sfs, sb, info, info.Lanes(), maxBit) && CodedFrom(sb, first, info, join, n) && Decided(first, info, join, n)
  }

  /** The decision for one subband. */
  method DecideSubband(p: EncoderParams, t: nat, most: nat, pSum: array<int>, pDiff: array<int>, ghost first: seq<int>)
    returns (maxBit: nat)
    requires p.Valid() && !p.info.mode.Mono? && t < p.info.NrofSubbands()
    requires JointSoFar(p.scaleFactor[..], p.sbBuffer[..], p.join[..], first, p.info, t, most)
    requires pSum.Length == pDiff.Length == 16 && pSum != pDiff
    requires {pSum, pDiff} !! {p.scaleFactor, p.sbBuffer, p.scratch, p.bits}
    modifies p.scaleFactor, p.sbBuffer, p.join, pSum, pDiff
    ensures p.Valid() && most <= maxBit && (most <= 15 ==> maxBit <= 15)
    ensures JointSoFar(p.scaleFactor[..], p.sbBuffer[..], p.join[..], first, p.info, t + 1, maxBit)
  {
    hide *;
    var info, n := p.info, p.info.NrofSubbands();
    ghost var sfs, sb, join := p.scaleFactor[..], p.sbBuffer[..], p.join[..];
    ShapeKnown(p);
    DecisionAhead(sfs, sb, join, first, info, t, most);
    maxBit := most;
    var maxValue, maxValue2 := SumAndDiff(p.sbBuffer[..], info, t, pSum, pDiff);
    HalvesDone(pSum[..], pDiff[..], MidColumn(sb, info, t), SideColumn(sb, info, t), maxValue, maxValue2);
    var countSum := CountFor(maxValue);
    var countDiff := CountFor(maxValue2);
    SfOfPeak(MidColumn(sb, info, t));
    SfOfPeak(SideColumn(sb, info, t));
    if p.scaleFactor[t] + p.scaleFactor[t + n] > countSum + countDiff {
      maxBit := Larger(Larger(maxBit, countSum), countDiff);
      LargerBounds(most, countSum, countDiff);
      InRangeUpdate(sfs, t, t + n, countSum, countDiff);
      p.scaleFactor[t] := countSum;
      p.scaleFactor[t + n] := countDiff;
      assert p.scaleFactor[..] == sfs[t := countSum][t + n := countDiff];
      assert pSum[..][..info.NrofBlocks()] == pSum[..info.NrofBlocks()] && pDiff[..][..info.NrofBlocks()] == pDiff[..info.NrofBlocks()];
      StoreMidSide(p.sbBuffer, info, t, pSum[..info.NrofBlocks()], pDiff[..info.NrofBlocks()]);
      p.join[t] := 1;
      assert p.join[..] == join[t := 1];
      CoupledStep(p.scaleFactor[..], p.sbBuffer[..], p.join[..], sfs, sb, join, first, info, t, most, maxBit);
    } else {
      p.join[t] := 0;
      assert p.join[..] == join[t := 0];
      UncoupledStep(p.join[..], sfs, sb, join, first, info, t, most);
    }
    StillValid(p);
  }

  lemma LargerBounds(a: nat, b: nat, c: nat)
    requires b <= 15 && c <= 15
    ensures var m := Larger(Larger(a, b), c); m >= a && m >= b && m >= c && (a <= 15 ==> m <= 15)
  {
  }

  lemma SfOfPeak(column: seq<int>)
    ensures SfOf(column) == ScaleFrom(Peak(column), 0) <= 15
  {
  }

  lemma ShapeKnown(p: EncoderParams)
    requires p.Valid()
    ensures p.info.Valid() && p.Separate() && p.join.Length == 8 && p.scaleFactor.Length == 16
    ensures p.sbBuffer.Length == 256
    ensures p.scaleFactor != p.sbBuffer && p.info.NrofSubbands() <= 8 && p.info.Lanes() <= 16
    ensures p.info.NrofBlocks() <= 16
    ensures !p.info.mode.Mono? ==> p.info.Lanes() == 2 * p.info.NrofSubbands()
    ensures InRange(p.scaleFactor[..])
  {
  }

  ghost predicate InRange(sfs: seq<int>) {
    |sfs| == 16 && forall i :: 0 <= i < 16 ==> 0 <= sfs[i] < 16
  }

  lemma InRangeUpdate(sfs: seq<int>, i: nat, j: nat, u: nat, v: nat)
    requires InRange(sfs) && i < 16 && j < 16 && u <= 15 && v <= 15
    ensures InRange(sfs[i := u][j := v])
  {
  }

  lemma StillValid(p: EncoderParams)
    requires p.info.Valid() && p.Separate() && InRange(p.scaleFactor[..])
    ensures p.Valid()
  {
    assert forall i :: 0 <= i < 16 ==> p.scaleFactor[i] == p.scaleFactor[..][i];
  }

  /** What the decision compares. */
  lemma DecisionAhead(sfs: seq<int>, sb: seq<int>, join: seq<nat>, first: seq<int>, info: FrameInfo, t: nat, most: nat)
    requires JointSoFar(sfs, sb, join, first, info, t, most) && t < info.NrofSubbands()
    ensures SampleCount(info) <= |sb| && |join| == 8 && !info.mode.Mono? && |sfs| >= 2 * info.NrofSubbands()
    ensures |MidColumn(sb, info, t)| == |SideColumn(sb, info, t)| == info.NrofBlocks()
    ensures var n := info.NrofSubbands();
      (sfs[t] + sfs[t + n] > SfOf(MidColumn(sb, info, t)) + SfOf(SideColumn(sb, info, t))) == Pays(first, info, t)
  {
    hide Peak, ScaleFrom, SampleCount;
    Untouched(sb, first, info, join, t);
    ScalesKnown(sfs, sb, info, t, most);
    hide Column, MidColumn, SideColumn;
  }

  lemma CoupledStep(newSfs: seq<int>, after: seq<int>, flags: seq<nat>, sfs: seq<int>, sb: seq<int>, join: seq<nat>,
                    first: seq<int>,
                    info: FrameInfo, t: nat, most: nat, maxBit: nat)
    requires JointSoFar(sfs, sb, join, first, info, t, most) && t < info.NrofSubbands() && Pays(first, info, t)
    requires Rewritten(after, sb, info, t, MidColumn(sb, info, t), SideColumn(sb, info, t), info.NrofBlocks())
    requires |sfs| >= 2 * info.NrofSubbands()
    requires newSfs == sfs[t := SfOf(MidColumn(sb, info, t))][t + info.NrofSubbands() := SfOf(SideColumn(sb, info, t))]
    requires flags == join[t := 1]
    requires maxBit >= most && maxBit >= SfOf(MidColumn(sb, info, t)) && maxBit >= SfOf(SideColumn(sb, info, t))
    ensures JointSoFar(newSfs, after, flags, first, info, t + 1, maxBit)
  {
    hide Peak, ScaleFrom, SampleCount, SfOf, Column, MidColumn, SideColumn, Rewritten, CellAt, CodedCell, Pays;
    Coupled(after, sb, first, info, join, t);
    ScaledCoupled(after, sb, sfs, info, t, most, SfOf(MidColumn(sb, info, t)), SfOf(SideColumn(sb, info, t)), maxBit);
  }

  lemma UncoupledStep(flags: seq<nat>, sfs: seq<int>, sb: seq<int>, join: seq<nat>, first: seq<int>, info: FrameInfo,
                      t: nat, most: nat)
    requires JointSoFar(sfs, sb, join, first, info, t, most) && t < info.NrofSubbands() && !Pays(first, info, t)
    requires flags == join[t := 0]
    ensures JointSoFar(sfs, sb, flags, first, info, t + 1, most)
  {
    hide Scaled, SampleCount, CellAt, CodedCell, Pays;
    Uncoupled(sb, first, info, join, t);
  }

  lemma ScalesKnown(sfs: seq<int>, sb: seq<int>, info: FrameInfo, t: nat, maxBit: nat)
    requires Scaled(sfs, sb, info, info.Lanes(), maxBit) && !info.mode.Mono? && t < info.NrofSubbands()
    ensures sfs[t] == SfOf(Column(sb, info, t))
    ensures sfs[t + info.NrofSubbands()] == SfOf(Column(sb, info, t + info.NrofSubbands()))
  {
    hide Peak, Column, ScaleFrom;
  }

  // ---- all subbands ----

  lemma NothingDecided(sfs: seq<int>, sb: seq<int>, join: seq<nat>, info: FrameInfo, maxBit: nat)
    requires Scaled(sfs, sb, info, info.Lanes(), maxBit) && !info.mode.Mono? && |join| == 8
    ensures JointSoFar(sfs, sb, join, sb, info, 0, maxBit)
  {
    assert SampleCount(info) <= |sb|;
    hide Scaled, SampleCount, CellAt;
  }

  /** Joint coding of all subbands but the last. */
  method DecideJoint(p: EncoderParams, most: nat) returns (maxBit: nat)
    requires p.Valid() && p.info.mode.Joint? && most <= 15
    requires Scaled(p.scaleFactor[..], p.sbBuffer[..], p.info, p.info.Lanes(), most)
    modifies p.scaleFactor, p.sbBuffer, p.join
    ensures p.Valid() && most <= maxBit <= 15
    ensures Scaled(p.scaleFactor[..], p.sbBuffer[..], p.info, p.info.Lanes(), maxBit)
    ensures CodedFrom(p.sbBuffer[..], old(p.sbBuffer[..]), p.info, p.join[..], p.info.NrofSubbands())
    ensures Decided(old(p.sbBuffer[..]), p.info, p.join[..], p.info.NrofSubbands() - 1)
    ensures p.join[p.info.NrofSubbands() - 1] == 0
  {
    hide *;
    ShapeKnown(p);
    ghost var first := p.sbBuffer[..];
    assert !p.info.mode.Mono? && p.info.NrofSubbands() >= 4 by { AtLeastFour(p.info); }
    NothingDecided(p.scaleFactor[..], first, p.join[..], p.info, most);
    maxBit := most;
    var pSum, pDiff := new int[16], new int[16];
    var sb := 0;
    while sb < p.info.NrofSubbands() - 1
      invariant sb <= p.info.NrofSubbands() - 1 && p.Valid() && most <= maxBit <= 15
      invariant JointSoFar(p.scaleFactor[..], p.sbBuffer[..], p.join[..], first, p.info, sb, maxBit)
    {
      maxBit := DecideSubband(p, sb, maxBit, pSum, pDiff, first);
      sb := sb + 1;
    }
    ghost var join := p.join[..];
    p.join[sb] := 0;
    assert p.join[..] == join[sb := 0];
    LastSubband(p.scaleFactor[..], p.sbBuffer[..], join, p.join[..], first, p.info, sb, maxBit);
  }

  lemma AtLeastFour(info: FrameInfo)
    ensures info.NrofSubbands() >= 4
  {
  }

  /** The last subband is never coupled. */
  lemma LastSubband(sfs: seq<int>, sb: seq<int>, join: seq<nat>, flags: seq<nat>, first: seq<int>, info: FrameInfo,
                    t: nat, maxBit: nat)
    requires JointSoFar(sfs, sb, join, first, info, t, maxBit) && t == info.NrofSubbands() - 1 && flags == join[t := 0]
    ensures Scaled(sfs, sb, info, info.Lanes(), maxBit) && CodedFrom(sb, first, info, flags, t + 1)
    ensures Decided(first, info, flags, t)
  {
    hide Scaled, SampleCount, CellAt, CodedCell, Pays;
    Uncoupled(sb, first, info, join, t);
  }

  /** What comes out fits what is announced. */
  ghost predicate Announced(sb: seq<int>, sfs: seq<int>, info: FrameInfo, maxBit: int) {
    && SampleCount(info) <= |sb| && info.Lanes() <= |sfs|
    && (forall i :: 0 <= i < info.Lanes() ==> 0 <= sfs[i] <= maxBit && sfs[i] < 16)
    && forall k :: 0 <= k < SampleCount(info) ==> Int32(sb[k]) && InScale(sb[k], sfs[k % info.Lanes()])
  }

  lemma CellOf(sb: seq<int>, info: FrameInfo, k: nat)
    requires SampleCount(info) <= |sb| && k < SampleCount(info)
    ensures k / info.Lanes() < info.NrofBlocks() && CellAt(sb, info, k / info.Lanes(), k % info.Lanes()) == sb[k]
  {
    var row := k / info.Lanes();
    assert k == info.Lanes() * row + k % info.Lanes();
    MulOrder(info.Lanes(), info.NrofBlocks(), row);
    assert row < info.NrofBlocks();
    assert row * info.Lanes() == info.Lanes() * row;
  }

  lemma ScaledAnnounces(sb: seq<int>, sfs: seq<int>, info: FrameInfo, maxBit: nat)
    requires Scaled(sfs, sb, info, info.Lanes(), maxBit) && Moderate(sb, info)
    ensures Announced(sb, sfs, info, maxBit)
  {
    hide InScale, CellAt, Peak, ScaleFrom, SampleCount;
    forall k | 0 <= k < SampleCount(info) ensures Int32(sb[k]) && InScale(sb[k], sfs[k % info.Lanes()]) {
      var lane := k % info.Lanes();
      var column := Column(sb, info, lane);
      CellOf(sb, info, k);
      assert column[k / info.Lanes()] == sb[k];
      PeakModerate(sb, info, lane);
      PeakInScale(sb[k], Peak(column));
    }
  }

  lemma PeakModerate(sb: seq<int>, info: FrameInfo, lane: nat)
    requires Moderate(sb, info) && lane < info.Lanes()
    ensures Peak(Column(sb, info, lane)) <= 0x4000_0000
  {
    var column := Column(sb, info, lane);
    if Peak(column) > 0 {
      var i :| 0 <= i < |column| && Abs(column[i]) == Peak(column);
      RowFits(info, i);
      assert column[i] == sb[i * info.Lanes() + lane];
    }
  }

  lemma CodedModerate(sb: seq<int>, first: seq<int>, info: FrameInfo, join: seq<nat>)
    requires CodedFrom(sb, first, info, join, info.NrofSubbands()) && Moderate(first, info)
    ensures Moderate(sb, info)
  {
    hide SampleCount, Mid, Side;
    forall k | 0 <= k < SampleCount(info) ensures Abs(sb[k]) <= 0x4000_0000 {
      var row, lane, half := k / info.Lanes(), k % info.Lanes(), info.NrofSubbands();
      CellOf(sb, info, k);
      assert CellAt(sb, info, row, lane) == CodedCell(first, info, join, half, row, lane);
      hide CodedFrom;
      var t := if lane < half then lane else lane - half;
      CellModerate(first, info, row, t);
      CellModerate(first, info, row, t + half);
      HalvesModerate(CellAt(first, info, row, t), CellAt(first, info, row, t + half));
    }
  }

  lemma CellModerate(sb: seq<int>, info: FrameInfo, row: nat, lane: nat)
    requires Moderate(sb, info) && row < info.NrofBlocks() && lane < info.Lanes()
    ensures Abs(CellAt(sb, info, row, lane)) <= 0x4000_0000
  {
    RowFits(info, row);
  }

  /** SBC_Encoder from the filtered samples to the scale factors. `least` is what earlier packets of
      the same call left in maxBit. */
  method ComputeScaleFactors(p: EncoderParams, least: nat) returns (maxBit: nat)
    requires p.Valid() && least <= 15 && Moderate(p.sbBuffer[..], p.info)
    modifies p.scaleFactor, p.sbBuffer, p.join, p`maxBitNeed
    ensures p.Valid() && p.maxBitNeed == maxBit && least <= maxBit <= 15
    ensures Scaled(p.scaleFactor[..], p.sbBuffer[..], p.info, p.info.Lanes(), maxBit)
    ensures Announced(p.sbBuffer[..], p.scaleFactor[..], p.info, p.maxBitNeed)
    ensures !p.info.mode.Joint? ==> p.sbBuffer[..] == old(p.sbBuffer[..])
    ensures p.info.mode.Joint? ==> CodedFrom(p.sbBuffer[..], old(p.sbBuffer[..]), p.info, p.join[..], p.info.NrofSubbands())
    ensures p.info.mode.Joint? ==>
      Decided(old(p.sbBuffer[..]), p.info, p.join[..], p.info.NrofSubbands() - 1) && p.join[p.info.NrofSubbands() - 1] == 0
  {
    hide *;
    ghost var first := p.sbBuffer[..];
    maxBit := LaneScaleFactors(p, least);
    ShapeKnown(p);
    assert p.sbBuffer[..] == first;
    if p.info.mode.Joint? {
      maxBit := DecideJoint(p, maxBit);
      CodedModerate(p.sbBuffer[..], first, p.info, p.join[..]);
    }
    ScaledAnnounces(p.sbBuffer[..], p.scaleFactor[..], p.info, maxBit);
    ShapeKnown(p);
    p.maxBitNeed := maxBit;
    StillValid(p);
  }
}
