/** The samples of a joint stereo frame: some subbands carry mid and side instead of left and right. */
module JointReader {
  import opened Bits
  import opened Words
  import opened BitStrings
  import opened BitReader
  import opened Frames
  import opened FrameLayout
  import opened Dequantiser
  import opened FrameReader

  /** Whether subband `sb` is coded as mid and side; the flag of subband 0 is sent first. */
  predicate Coupled(join: nat, n: nat, sb: nat)
    requires sb < n
  {
    NatBits(join, n)[sb]
  }

  /** Every sample of a frame as it was sent. */
  ghost function Sent(mem: Memory, base: nat, info: FrameInfo, sfs: seq<nat>, bits: seq<nat>): (raw: seq<int>)
    requires LanesValid(info, sfs, bits)
    ensures |raw| == SampleCount(info)
  {
    seq(SampleCount(info), k requires 0 <= k < SampleCount(info) => DequantAt(mem, base, info, sfs, bits, k))
  }

  /** Sample `k` of a joint frame after mid and side have been taken apart. */
  function JointAt(raw: seq<int>, info: FrameInfo, join: nat, k: nat): int
    requires |raw| == SampleCount(info) && info.mode.Joint? && k < |raw|
  {
    var n, ch := info.NrofSubbands(), k % info.Lanes();
    PartnerExists(info, k);
    if ch < n then
      if Coupled(join, n, ch) then Signed(raw[k] + raw[k + n]) else raw[k]
    else
      if Coupled(join, n, ch - n) then Signed(raw[k - n] - raw[k]) else raw[k]
  }

  /** Left and right of one subband sit `NrofSubbands` apart in the same block. */
  lemma PartnerExists(info: FrameInfo, k: nat)
    requires !info.mode.Mono? && k < SampleCount(info)
    ensures var n := info.NrofSubbands();
      if k % info.Lanes() < n then k + n < SampleCount(info) && (k + n) % info.Lanes() == k % info.Lanes() + n
      else k >= n && (k - n) % info.Lanes() == k % info.Lanes() - n
  {
    var n, lanes := info.NrofSubbands(), info.Lanes();
    var q, r := k / lanes, k % lanes;
    assert k == lanes * q + r;
    if r < n {
      ModUnique(k + n, lanes, q, r + n);
      MulOrder(lanes, info.NrofBlocks(), q);
      assert q < info.NrofBlocks();
      MulOrder(lanes, q, info.NrofBlocks());
    } else {
      assert lanes * q >= 0;
      ModUnique(k - n, lanes, q, r - n);
    }
  }

  /** While the block at `first` is being read, its left samples stay as sent until their right partner arrives. */
  ghost predicate JointRead(subdata: seq<int>, raw: seq<int>, info: FrameInfo, join: nat, first: nat, k: nat) {
    && |raw| == SampleCount(info) && info.mode.Joint? && k <= |raw| <= |subdata|
    && forall j :: 0 <= j < k ==>
         subdata[j] == if first <= j < first + info.NrofSubbands() && k <= j + info.NrofSubbands() then raw[j] else JointAt(raw, info, join, j)
  }

  lemma BlockDone(subdata: seq<int>, raw: seq<int>, info: FrameInfo, join: nat, row: nat)
    requires JointRead(subdata, raw, info, join, RowStart(info, row), RowStart(info, row + 1))
    ensures JointRead(subdata, raw, info, join, RowStart(info, row + 1), RowStart(info, row + 1))
  {
    hide JointAt;
    assert RowStart(info, row + 1) == RowStart(info, row) + 2 * info.NrofSubbands();
  }

  /** A left sample joins the others as sent. */
  lemma LeftRead(subdata: seq<int>, raw: seq<int>, info: FrameInfo, join: nat, first: nat, sb: nat)
    requires JointRead(subdata, raw, info, join, first, first + sb)
    requires sb < info.NrofSubbands() && first + sb < |raw|
    ensures JointRead(subdata[first + sb := raw[first + sb]], raw, info, join, first, first + sb + 1)
  {
    hide JointAt, SampleCount;
  }

  /** What becomes of a left sample and its right partner. */
  function Settled(subdata: seq<int>, l: nat, n: nat, coupled: bool, side: int): seq<int>
    requires l + n < |subdata|
  {
    if coupled then subdata[l := Signed(subdata[l] + side)][l + n := Signed(subdata[l] - side)] else subdata[l + n := side]
  }

  /** A right sample settles both samples of its subband. */
  lemma RightRead(subdata: seq<int>, raw: seq<int>, info: FrameInfo, join: nat, row: nat, sb: nat)
    requires row < info.NrofBlocks() && sb < info.NrofSubbands() && info.mode.Joint?
    requires RowStart(info, row) + info.NrofSubbands() + sb < |raw|
    requires JointRead(subdata, raw, info, join, RowStart(info, row), RowStart(info, row) + info.NrofSubbands() + sb)
    ensures var n, l := info.NrofSubbands(), RowStart(info, row) + sb;
      JointRead(Settled(subdata, l, n, Coupled(join, n, sb), raw[l + n]), raw, info, join, RowStart(info, row), l + n + 1)
  {
    var n, first := info.NrofSubbands(), RowStart(info, row);
    var l := first + sb;
    RowLane(info, row, sb);
    RowLane(info, row, n + sb);
    assert subdata[l] == raw[l];
    var after := Settled(subdata, l, n, Coupled(join, n, sb), raw[l + n]);
    PairSettles(raw, info, join, l, sb);
    hide SampleCount, RowStart, Signed, Coupled, JointAt;
    assert after[l] == JointAt(raw, info, join, l) && after[l + n] == JointAt(raw, info, join, l + n);
    assert forall j :: 0 <= j < |subdata| && j != l && j != l + n ==> after[j] == subdata[j];
    hide Settled;
    forall j | 0 <= j < l + n + 1
      ensures after[j] == if first <= j < first + n && l + n + 1 <= j + n then raw[j] else JointAt(raw, info, join, j)
    {
      if j != l && j != l + n {
        assert after[j] == subdata[j];
      }
    }
  }

  lemma PairSettles(raw: seq<int>, info: FrameInfo, join: nat, l: nat, sb: nat)
    requires |raw| == SampleCount(info) && info.mode.Joint? && sb < info.NrofSubbands()
    requires l + info.NrofSubbands() < |raw|
    requires l % info.Lanes() == sb && (l + info.NrofSubbands()) % info.Lanes() == sb + info.NrofSubbands()
    ensures var n := info.NrofSubbands();
      && JointAt(raw, info, join, l) == (if Coupled(join, n, sb) then Signed(raw[l] + raw[l + n]) else raw[l])
      && JointAt(raw, info, join, l + n) == if Coupled(join, n, sb) then Signed(raw[l] - raw[l + n]) else raw[l + n]
  {
    hide SampleCount, Signed, Coupled;
  }

  /** The join mask: its top bit is the flag of the next subband. */
  ghost predicate Mask(joint: nat, join: nat, n: nat, sb: nat)
    requires n <= 8
  {
    joint < 256 && sb <= n && NatBits(joint, 8)[..n - sb] == NatBits(join, n)[sb..]
  }

  /** `join << (8 - NROF_SUBBANDS)`, kept in eight bits. */
  function FirstMask(join: nat, n: nat): nat
    requires n <= 8
  {
    join * Pow2(8 - n) % 256
  }

  /** `joint <<= 1`, kept in eight bits. */
  function NextMask(joint: nat): nat {
    joint * 2 % 256
  }

  lemma MaskStart(join: nat, n: nat)
    requires (n == 4 || n == 8) && join < Pow2(n)
    ensures Mask(FirstMask(join, n), join, n, 0)
  {
    hide NatBits;
    assert Pow2(4) == 16 && Pow2(8) == 256 && Pow2(0) == 1;
    if n == 4 {
      NatBitsAppend(join, 4, 0, 4);
    }
  }

  lemma MaskNext(joint: nat, join: nat, n: nat, sb: nat)
    requires n <= 8 && sb < n && Mask(joint, join, n, sb)
    ensures (joint >= 0x80) == Coupled(join, n, sb)
    ensures Mask(NextMask(joint), join, n, sb + 1)
  {
    hide NatBits;
    assert Pow2(1) == 2 && Pow2(7) == 128;
    var top, low := joint / 128, joint % 128;
    NatBitsAppend(top, 1, low, 7);
    NatBitsAppend(low, 7, 0, 1);
    assert joint * 2 % 256 == 2 * low;
    OneBit(top);
    assert NatBits(joint, 8)[0] == NatBits(join, n)[sb];
    forall i | 0 <= i < n - sb - 1 ensures NatBits(2 * low, 8)[i] == NatBits(join, n)[sb + 1 + i] {
      assert NatBits(2 * low, 8)[i] == NatBits(low, 7)[i] == NatBits(joint, 8)[i + 1];
      assert NatBits(joint, 8)[..n - sb][i + 1] == NatBits(join, n)[sb..][i + 1];
    }
    assert NatBits(2 * low, 8)[..n - sb - 1] == NatBits(join, n)[sb + 1..];
  }

  lemma OneBit(v: nat)
    ensures NatBits(v, 1)[0] == (v % 2 == 1)
  {
  }

  /** Without a test for empty subbands: the bits read then are arbitrary, the sample is 0. */
  method ReadAlways(bs: BitStream, sf: nat, bits: nat) returns (dequant: int)
    requires bs.Valid() && sf < 16 && bits <= 16
    modifies bs
    ensures bs.Valid() && bs.Position() == old(bs.Position()) + bits
    ensures dequant == Dequant(BitsVal(BitsAt(bs.mem, old(bs.Position()), bits)), sf, bits)
  {
    hide BitsVal, BitsAt, Dequant;
    ghost var pos := bs.Position();
    var raw := bs.ReadUINT(bits);
    dequant := Dequant(raw, sf, bits);
    if bits == 0 {
      NoBitsNoSample(raw, sf);
      NoBitsNoSample(BitsVal(BitsAt(bs.mem, pos, bits)), sf);
    }
  }

  /** The next left sample. */
  method ReadLeft(subdata: array<int>, bs: BitStream, ghost base: nat, ghost raw: seq<int>, info: FrameInfo,
                  sfs: seq<nat>, bits: seq<nat>,
                  ghost join: nat, first: nat, ghost row: nat, sb: nat)
    requires bs.Valid() && LanesValid(info, sfs, bits) && info.mode.Joint? && raw == Sent(bs.mem, base, info, sfs, bits)
    requires row < info.NrofBlocks() && first == RowStart(info, row) && sb < info.NrofSubbands() && first + sb < |raw|
    requires bs.Position() == SamplePosition(info, bits, base, first + sb)
    requires JointRead(subdata[..], raw, info, join, first, first + sb)
    modifies subdata, bs
    ensures bs.Valid() && bs.Position() == SamplePosition(info, bits, base, first + sb + 1)
    ensures JointRead(subdata[..], raw, info, join, first, first + sb + 1)
  {
    hide *;
    LanesCount(info, sfs, bits);
    SampleAhead(bs.mem, base, info, sfs, bits, row, sb);
    LeftRead(subdata[..], raw, info, join, first, sb);
    RoomFor(subdata[..], raw, info, join, first, first + sb);
    ghost var before := subdata[..];
    var dequant := ReadAlways(bs, sfs[sb], bits[sb]);
    subdata[first + sb] := dequant;
    assert subdata[..] == before[first + sb := dequant];
  }

  /** What the reader finds for lane `ch` of block `row`. */
  lemma SampleAhead(mem: Memory, base: nat, info: FrameInfo, sfs: seq<nat>, bits: seq<nat>, row: nat, ch: nat)
    requires LanesValid(info, sfs, bits) && ch < info.Lanes() && RowStart(info, row) + ch < SampleCount(info)
    ensures sfs[ch] < 16 && bits[ch] <= 16
    ensures var k := RowStart(info, row) + ch; var here := SamplePosition(info, bits, base, k);
      && SamplePosition(info, bits, base, k + 1) == here + bits[ch]
      && Sent(mem, base, info, sfs, bits)[k] == Dequant(BitsVal(BitsAt(mem, here, bits[ch])), sfs[ch], bits[ch])
  {
    hide BitsVal, BitsAt, Dequant, DequantAt, SampleCount, RowStart, SamplePosition;
    var k := RowStart(info, row) + ch;
    RowLane(info, row, ch);
    PositionNext(info, bits, base, k);
    DequantHere(mem, base, info, sfs, bits, k);
  }

  /** The next right sample. */
  method ReadRight(subdata: array<int>, bs: BitStream, ghost base: nat, ghost raw: seq<int>, info: FrameInfo,
                   sfs: seq<nat>, bits: seq<nat>,
                   ghost join: nat, first: nat, ghost row: nat, sb: nat, coupled: bool)
    requires bs.Valid() && LanesValid(info, sfs, bits) && info.mode.Joint? && raw == Sent(bs.mem, base, info, sfs, bits)
    requires row < info.NrofBlocks() && first == RowStart(info, row) && sb < info.NrofSubbands()
    requires first + info.NrofSubbands() + sb < |raw| && coupled == Coupled(join, info.NrofSubbands(), sb)
    requires bs.Position() == SamplePosition(info, bits, base, first + info.NrofSubbands() + sb)
    requires JointRead(subdata[..], raw, info, join, first, first + info.NrofSubbands() + sb)
    modifies subdata, bs
    ensures bs.Valid() && bs.Position() == SamplePosition(info, bits, base, first + info.NrofSubbands() + sb + 1)
    ensures JointRead(subdata[..], raw, info, join, first, first + info.NrofSubbands() + sb + 1)
  {
    hide *;
    var n := info.NrofSubbands();
    LanesCount(info, sfs, bits);
    SampleAhead(bs.mem, base, info, sfs, bits, row, n + sb);
    RightRead(subdata[..], raw, info, join, row, sb);
    RoomFor(subdata[..], raw, info, join, first, first + n + sb);
    var dequant := ReadAlways(bs, sfs[n + sb], bits[n + sb]);
    Settle(subdata, first + sb, n, coupled, dequant);
  }

  lemma RoomFor(subdata: seq<int>, raw: seq<int>, info: FrameInfo, join: nat, first: nat, k: nat)
    requires JointRead(subdata, raw, info, join, first, k)
    ensures |subdata| >= |raw|
  {
  }

  /** Mid and side become left and right in place. */
  method Settle(subdata: array<int>, l: nat, n: nat, coupled: bool, sample: int)
    requires n > 0 && l + n < subdata.Length
    modifies subdata
    ensures subdata[..] == Settled(old(subdata[..]), l, n, coupled, sample)
  {
    var dequant := sample;
    if coupled {
      var mid, side := subdata[l], dequant;
      subdata[l] := Signed(mid + side);
      dequant := Signed(mid - side);
    }
    subdata[l + n] := dequant;
  }

  /** The left samples of a block. */
  method ReadLefts(subdata: array<int>, bs: BitStream, ghost base: nat, ghost raw: seq<int>, info: FrameInfo,
                   sfs: seq<nat>, bits: seq<nat>,
                   ghost join: nat, first: nat, ghost row: nat)
    requires LanesValid(info, sfs, bits) && info.mode.Joint? && bs.Valid() && raw == Sent(bs.mem, base, info, sfs, bits)
    requires row < info.NrofBlocks() && first == RowStart(info, row) <= |raw|
    requires bs.Position() == SamplePosition(info, bits, base, first)
    requires JointRead(subdata[..], raw, info, join, first, first)
    modifies subdata, bs
    ensures bs.Valid() && first + info.NrofSubbands() <= |raw|
    ensures bs.Position() == SamplePosition(info, bits, base, first + info.NrofSubbands())
    ensures JointRead(subdata[..], raw, info, join, first, first + info.NrofSubbands())
  {
    RowFits(info, row);
    var n := info.NrofSubbands();
    assert |sfs| == |bits| == info.Lanes() == 2 * n;
    hide *;
    var sb := 0;
    while sb < n
      invariant sb <= n && bs.Valid()
      invariant bs.Position() == SamplePosition(info, bits, base, first + sb)
      invariant JointRead(subdata[..], raw, info, join, first, first + sb)
    {
      ReadLeft(subdata, bs, base, raw, info, sfs, bits, join, first, row, sb);
      sb := sb + 1;
    }
  }

  /** The right samples of a block. */
  method ReadRights(subdata: array<int>, bs: BitStream, ghost base: nat, ghost raw: seq<int>, info: FrameInfo,
                    sfs: seq<nat>, bits: seq<nat>,
                    ghost join: nat, jmask: nat, first: nat, ghost row: nat)
    requires LanesValid(info, sfs, bits) && info.mode.Joint? && bs.Valid() && raw == Sent(bs.mem, base, info, sfs, bits)
    requires row < info.NrofBlocks() && first == RowStart(info, row) && first + info.NrofSubbands() <= |raw|
    requires Mask(jmask, join, info.NrofSubbands(), 0)
    requires bs.Position() == SamplePosition(info, bits, base, first + info.NrofSubbands())
    requires JointRead(subdata[..], raw, info, join, first, first + info.NrofSubbands())
    modifies subdata, bs
    ensures bs.Valid() && RowStart(info, row + 1) <= |raw|
    ensures bs.Position() == SamplePosition(info, bits, base, RowStart(info, row + 1))
    ensures JointRead(subdata[..], raw, info, join, RowStart(info, row + 1), RowStart(info, row + 1))
  {
    hide *;
    RowFits(info, row);
    var n := info.NrofSubbands();
    LanesCount(info, sfs, bits);
    var joint, sb := jmask, 0;
    while sb < n
      invariant sb <= n && bs.Valid() && Mask(joint, join, n, sb)
      invariant bs.Position() == SamplePosition(info, bits, base, first + n + sb)
      invariant JointRead(subdata[..], raw, info, join, first, first + n + sb)
    {
      MaskNext(joint, join, n, sb);
      ReadRight(subdata, bs, base, raw, info, sfs, bits, join, first, row, sb, joint >= 0x80);
      joint := NextMask(joint);
      sb := sb + 1;
    }
    BlockDone(subdata[..], raw, info, join, row);
  }

  /** One block: all left samples, then all right samples. */
  method ReadJointBlock(subdata: array<int>, bs: BitStream, ghost base: nat, ghost raw: seq<int>, info: FrameInfo,
                        sfs: seq<nat>, bits: seq<nat>,
                        ghost join: nat, jmask: nat, first: nat, ghost row: nat)
    requires LanesValid(info, sfs, bits) && info.mode.Joint? && bs.Valid() && raw == Sent(bs.mem, base, info, sfs, bits)
    requires row < info.NrofBlocks() && first == RowStart(info, row) <= |raw|
    requires Mask(jmask, join, info.NrofSubbands(), 0)
    requires bs.Position() == SamplePosition(info, bits, base, first)
    requires JointRead(subdata[..], raw, info, join, first, first)
    modifies subdata, bs
    ensures bs.Valid() && RowStart(info, row + 1) <= |raw|
    ensures bs.Position() == SamplePosition(info, bits, base, RowStart(info, row + 1))
    ensures JointRead(subdata[..], raw, info, join, RowStart(info, row + 1), RowStart(info, row + 1))
  {
    hide *;
    LanesCount(info, sfs, bits);
    ReadLefts(subdata, bs, base, raw, info, sfs, bits, join, first, row);
    ReadRights(subdata, bs, base, raw, info, sfs, bits, join, jmask, first, row);
  }

  /** OI_SBC_ReadSamplesJoint. */
  method ReadSamplesJoint(subdata: array<int>, bs: BitStream, info: FrameInfo, sfs: seq<nat>, bits: seq<nat>, join: nat)
    requires LanesValid(info, sfs, bits) && info.mode.Joint? && subdata.Length >= SampleCount(info) && bs.Valid()
    requires join < Pow2(info.NrofSubbands())
    modifies subdata, bs
    ensures JointRead(subdata[..], Sent(bs.mem, old(bs.Position()), info, sfs, bits), info, join, SampleCount(info), SampleCount(info))
    ensures bs.Valid() && bs.Position() == SamplePosition(info, bits, old(bs.Position()), SampleCount(info))
  {
    hide *;
    ghost var base := bs.Position();
    LanesCount(info, sfs, bits);
    ghost var raw := Sent(bs.mem, base, info, sfs, bits);
    JointStart(subdata[..], raw, info, bits, base, join);
    var jmask := FirstMask(join, info.NrofSubbands());
    var k, row := 0, 0;
    while row < info.NrofBlocks()
      invariant row <= info.NrofBlocks() && k == RowStart(info, row) <= |raw| && bs.Valid()
      invariant bs.Position() == SamplePosition(info, bits, base, k)
      invariant JointRead(subdata[..], raw, info, join, k, k)
    {
      RowFits(info, row);
      ReadJointBlock(subdata, bs, base, raw, info, sfs, bits, join, jmask, k, row);
      k := k + info.Lanes();
      row := row + 1;
    }
  }

  lemma LanesCount(info: FrameInfo, sfs: seq<nat>, bits: seq<nat>)
    requires LanesValid(info, sfs, bits)
    ensures |sfs| == |bits| == info.Lanes() && info.NrofSubbands() <= 8
    ensures info.mode.Joint? ==> info.Lanes() == 2 * info.NrofSubbands()
  {
  }

  lemma JointStart(subdata: seq<int>, raw: seq<int>, info: FrameInfo, bits: seq<nat>, base: nat, join: nat)
    requires |raw| == SampleCount(info) <= |subdata| && info.mode.Joint? && |bits| == info.Lanes()
    requires join < Pow2(info.NrofSubbands())
    ensures JointRead(subdata, raw, info, join, 0, 0) && SamplePosition(info, bits, base, 0) == base
    ensures Mask(FirstMask(join, info.NrofSubbands()), join, info.NrofSubbands(), 0)
    ensures RowStart(info, 0) == 0 && RowStart(info, info.NrofBlocks()) == SampleCount(info)
  {
    Rows(info);
    assert info.NrofBlocks() >= 4;
    RowFits(info, 0);
    PositionNext(info, bits, base, 0);
    MaskStart(join, info.NrofSubbands());
  }

  lemma JointAll(subdata: seq<int>, raw: seq<int>, info: FrameInfo, join: nat)
    requires JointRead(subdata, raw, info, join, SampleCount(info), SampleCount(info))
    ensures |raw| == SampleCount(info) <= |subdata| && info.mode.Joint?
    ensures forall k :: 0 <= k < |raw| ==> subdata[k] == JointAt(raw, info, join, k)
  {
    hide JointAt;
  }
}
