/** The length of a frame, which three functions compute on their own
    (section 12.9 of Appendix B of the A2DP specification). */
module FrameLengths {
  import opened Bits
  import opened Words
  import opened BitStrings
  import opened Frames
  import opened Allocation
  import opened BitNeeds
  import opened FrameLayout
  import opened AllocationAgreement

  // ---- the decoder's formula ----

  /** internal_CalculateFramelen, in 16-bit arithmetic. */
  function CalculateFramelen(info: FrameInfo): nat {
    var nbits := info.NrofBlocks() * info.bitpool % U16;
    var result :=
      if info.mode.Joint? then nbits + (info.NrofSubbands() + 8 * info.NrofSubbands())
      else nbits + (if info.mode.Dual? then nbits else 0) + (if info.mode.Mono? then 4 else 8) * info.NrofSubbands();
    (4 + (result % U16 + 7) / 8) % U16
  }

  /** Bits of the samples of one frame. */
  function PayloadBits(info: FrameInfo): nat {
    info.NrofBlocks() * (if info.mode.Dual? then 2 * info.bitpool else info.bitpool)
  }

  /** The header, and join flags, scale factors and samples in whole bytes. */
  function FrameLength(info: FrameInfo): nat {
    4 + (HeadWidth(info) + PayloadBits(info) + 7) / 8
  }

  /** How many bytes a reader has loaded when it stands behind the last sample of a frame that starts at `at`. */
  function LoadedTo(info: FrameInfo, at: nat): nat {
    (8 * (at + 4) + HeadWidth(info) + PayloadBits(info)) / 8 + 3
  }

  /** The look-ahead goes two bytes beyond the frame, and three if its bits fill the last byte. */
  lemma LoadedBehind(info: FrameInfo, at: nat)
    ensures LoadedTo(info, at) - (at + FrameLength(info)) == if (HeadWidth(info) + PayloadBits(info)) % 8 == 0 then 3 else 2
  {
    hide PayloadBits, HeadWidth;
  }

  lemma PayloadBound(info: FrameInfo)
    requires info.Valid()
    ensures info.NrofBlocks() * info.bitpool <= 16 * 255
    ensures PayloadBits(info) == info.NrofBlocks() * info.bitpool + (if info.mode.Dual? then info.NrofBlocks() * info.bitpool else 0)
  {
    var b, p := info.NrofBlocks(), info.bitpool;
    MulOrder(b, p, 255);
    assert b * (2 * p) == b * p + b * p;
  }

  /** No 16-bit word wraps. */
  lemma FramelenExact(info: FrameInfo)
    requires info.Valid()
    ensures CalculateFramelen(info) == FrameLength(info) <= 1033
  {
    PayloadBound(info);
    var nbits := info.NrofBlocks() * info.bitpool;
    NoWrap(nbits);
    var bits := nbits + (if info.mode.Dual? then nbits else 0) + HeadWidth(info);
    NoWrap(bits);
    NoWrap(4 + (bits + 7) / 8);
    hide PayloadBits;
  }

  lemma NoWrap(x: nat)
    requires x < U16
    ensures x % U16 == x
  {
  }

  // ---- the encoder's packet ----

  lemma {:induction false} SumSnoc(bs: seq<nat>, b: nat)
    ensures Sum(bs + [b]) == Sum(bs) + b
  {
    SumConcat(bs, [b]);
    assert [b][1..] == [];
  }

  /** Bits of the first `row` blocks. */
  ghost function BlockBits(bits: seq<nat>, row: nat): nat {
    row * Sum(bits)
  }

  lemma BlockBitsNext(bits: seq<nat>, row: nat)
    ensures BlockBits(bits, 0) == 0 && BlockBits(bits, row + 1) == BlockBits(bits, row) + Sum(bits)
    ensures Sum(bits[..0]) == 0
  {
  }

  /** Widths of the samples before lane `ch` of block `row`. */
  lemma {:induction false} WidthsBefore(info: FrameInfo, bits: seq<nat>, row: nat, ch: nat)
    requires |bits| == info.Lanes() && row < info.NrofBlocks() && ch <= info.Lanes()
    ensures RowStart(info, row) + ch <= SampleCount(info)
    ensures Width(SampleWidths(info, bits)[..RowStart(info, row) + ch]) == BlockBits(bits, row) + Sum(bits[..ch])
    decreases row, ch
  {
    hide Width, Sum, SampleCount, RowStart, BlockBits;
    RowFits(info, row);
    var ws := SampleWidths(info, bits);
    var k := RowStart(info, row) + ch;
    if ch > 0 {
      WidthsBefore(info, bits, row, ch - 1);
      FieldsNext(ws, ws, k - 1);
      RowLane(info, row, ch - 1);
      SumSnoc(bits[..ch - 1], bits[ch - 1]);
      assert bits[..ch] == bits[..ch - 1] + [bits[ch - 1]];
    } else if row > 0 {
      WidthsBefore(info, bits, row - 1, info.Lanes());
      RowFits(info, row - 1);
      assert bits[..info.Lanes()] == bits;
      BlockBitsNext(bits, row - 1);
    } else {
      BlockBitsNext(bits, 0);
      WidthNone(ws);
      Rows(info);
    }
  }

  /** Every block sends the bits of all its lanes. */
  lemma SampleBits(info: FrameInfo, bits: seq<nat>)
    requires |bits| == info.Lanes()
    ensures Width(SampleWidths(info, bits)) == info.NrofBlocks() * Sum(bits)
  {
    var last, ws := info.NrofBlocks() - 1, SampleWidths(info, bits);
    assert BlockBits(bits, last + 1) == info.NrofBlocks() * Sum(bits);
    hide Width, Sum, SampleWidths, SampleCount, RowStart, BlockBits;
    WidthsBefore(info, bits, last, info.Lanes());
    BlockBitsNext(bits, last);
    RowFits(info, last);
    Rows(info);
    assert ws[..|ws|] == ws && bits[..info.Lanes()] == bits;
  }

  lemma PayloadIsBitpool(info: FrameInfo, bits: seq<nat>)
    requires |bits| == info.Lanes() && Conserved(info, bits)
    ensures Width(SampleWidths(info, bits)) == PayloadBits(info)
  {
    hide Width, Sum, SampleWidths;
    SampleBits(info, bits);
    var n := info.NrofSubbands();
    if info.mode.Dual? {
      SumConcat(bits[..n], bits[n..]);
      assert bits == bits[..n] + bits[n..];
    }
  }

  /** The packet is as long as the decoder expects, unless there are no sample bits at all and the
      scale factors end on a byte boundary: then EncPacking sends one byte more. */
  lemma PacketLengthAgrees(info: FrameInfo, sfs: seq<nat>)
    requires info.Valid() && PoolFits(info) && |sfs| == info.Lanes()
    ensures PacketLength(info, FrameBits(info, sfs)) == CalculateFramelen(info)
      <==> info.bitpool > 0 || (info.mode.Joint? && info.NrofSubbands() == 4)
    ensures PacketLength(info, FrameBits(info, sfs)) <= CalculateFramelen(info) + 1
  {
    hide *;
    Conservation(info, sfs);
    LanesOf(info, sfs);
    PayloadIsBitpool(info, FrameBits(info, sfs));
    PacketAndFrame(info, FrameBits(info, sfs));
    FramelenExact(info);
    PayloadZero(info);
  }

  /** The packet needs at most one byte more than the frame. */
  lemma PacketRoom(info: FrameInfo, sfs: seq<nat>)
    requires info.Valid() && PoolFits(info) && |sfs| == info.Lanes()
    ensures 4 <= PacketLength(info, FrameBits(info, sfs)) <= FrameLength(info) + 1
  {
    hide *;
    Conservation(info, sfs);
    LanesOf(info, sfs);
    PayloadIsBitpool(info, FrameBits(info, sfs));
    PacketAndFrame(info, FrameBits(info, sfs));
    AtLeastHeader(info, FrameBits(info, sfs));
  }

  lemma AtLeastHeader(info: FrameInfo, bits: seq<nat>)
    requires |bits| == info.Lanes()
    ensures PacketLength(info, bits) >= 4
  {
    hide Width, SampleWidths, HeadWidth;
  }

  lemma LanesOf(info: FrameInfo, sfs: seq<nat>)
    requires info.Valid() && PoolFits(info) && |sfs| == info.Lanes()
    ensures |FrameBits(info, sfs)| == info.Lanes()
  {
  }

  lemma PayloadZero(info: FrameInfo)
    ensures PayloadBits(info) == 0 <==> info.bitpool == 0
  {
    MulOrder(info.NrofBlocks(), 1, info.bitpool);
    MulOrder(info.NrofBlocks(), 1, 2 * info.bitpool);
  }

  lemma PacketAndFrame(info: FrameInfo, bits: seq<nat>)
    requires |bits| == info.Lanes() && Width(SampleWidths(info, bits)) == PayloadBits(info)
    ensures PacketLength(info, bits)
         == FrameLength(info) + (if PayloadBits(info) == 0 && !(info.mode.Joint? && info.NrofSubbands() == 4) then 1 else 0)
  {
    hide SampleWidths, Width, PayloadBits;
    assert HeadWidth(info) % 8 == 0 <==> !(info.mode.Joint? && info.NrofSubbands() == 4);
    hide HeadWidth;
  }

  // ---- the largest bitpool for a length ----

  /** OI_CODEC_SBC_CalculateBitpool, in 16-bit arithmetic. */
  function CalculateBitpool(info: FrameInfo, frameLen: nat): nat {
    if frameLen <= 4 then 0
    else
      var hdr := if info.mode.Joint? then 9 * info.NrofSubbands() else (if info.mode.Mono? then 4 else 8) * info.NrofSubbands();
      var blocks := if info.mode.Dual? then 2 * info.NrofBlocks() else info.NrofBlocks();
      DivNat((8 * (frameLen - 4) - hdr) % U16, blocks)
  }

  /** Blocks that draw on one bitpool. */
  function Draws(info: FrameInfo): (n: nat)
    ensures 4 <= n <= 8 * info.NrofBlocks()
  {
    if info.mode.Dual? then 2 * info.NrofBlocks() else info.NrofBlocks()
  }

  /** What is left of `frameLen` bytes for samples. */
  function Room(info: FrameInfo, frameLen: nat): int {
    8 * (frameLen - 4) - HeadWidth(info)
  }

  lemma BitpoolQuotient(info: FrameInfo, frameLen: nat)
    requires frameLen > 4
    ensures CalculateBitpool(info, frameLen) == Room(info, frameLen) % U16 / Draws(info)
  {
  }

  lemma LengthBound(info: FrameInfo, b: nat, frameLen: nat)
    ensures FrameLength(info.(bitpool := b)) <= frameLen <==> Draws(info) * b <= Room(info, frameLen)
  {
    var n := info.NrofBlocks();
    assert n * (2 * b) == 2 * n * b;
    assert PayloadBits(info.(bitpool := b)) == Draws(info) * b;
    hide PayloadBits, Draws;
  }

  lemma QuotientBound(m: nat, r: nat, b: nat)
    requires m > 0
    ensures m * b <= r <==> b <= r / m
  {
    MulOrder(m, b, r / m);
    MulOrder(m, r / m + 1, b);
    assert r == m * (r / m) + r % m;
    assert m * (r / m + 1) == m * (r / m) + m;
  }

  /** A bitpool fits a frame length exactly if it is at most CalculateBitpool of the length, for
      every 8-bit bitpool, precisely when the length covers the scale factors and its bit count
      survives the cut to 16 bits. */
  lemma CalculateBitpoolAdjoint(info: FrameInfo, frameLen: nat)
    requires info.Valid()
    ensures (forall b: nat :: b < 256 ==> (FrameLength(info.(bitpool := b)) <= frameLen <==> b <= CalculateBitpool(info, frameLen)))
      <==> 0 <= Room(info, frameLen) && (Room(info, frameLen) < U16 || Room(info, frameLen) % U16 >= 255 * Draws(info))
  {
    var m, room := Draws(info), Room(info, frameLen);
    assert frameLen <= 4 ==> room < 0;
    hide FrameLength, Draws, CalculateBitpool;
    if room < 0 {
      LengthBound(info, 0, frameLen);
      assert !(FrameLength(info.(bitpool := 0)) <= frameLen <==> 0 <= CalculateBitpool(info, frameLen));
    } else {
      BitpoolQuotient(info, frameLen);
      hide Room;
      forall b: nat | b < 256 && (room < U16 || room % U16 >= 255 * m)
        ensures FrameLength(info.(bitpool := b)) <= frameLen <==> b <= CalculateBitpool(info, frameLen)
      {
        Fits(info, frameLen, b);
      }
      if room >= U16 && room % U16 < 255 * m {
        LengthBound(info, 255, frameLen);
        QuotientBound(m, room % U16, 255);
        assert m * 255 <= room;
        assert !(FrameLength(info.(bitpool := 255)) <= frameLen <==> 255 <= CalculateBitpool(info, frameLen));
      }
    }
  }

  lemma Fits(info: FrameInfo, frameLen: nat, b: nat)
    requires info.Valid() && b < 256 && 0 <= Room(info, frameLen)
    requires Room(info, frameLen) < U16 || Room(info, frameLen) % U16 >= 255 * Draws(info)
    ensures FrameLength(info.(bitpool := b)) <= frameLen <==> b <= CalculateBitpool(info, frameLen)
  {
    var m, room := Draws(info), Room(info, frameLen);
    assert frameLen > 4;
    hide FrameLength, Draws, CalculateBitpool;
    LengthBound(info, b, frameLen);
    BitpoolQuotient(info, frameLen);
    hide Room;
    QuotientBound(m, room % U16, b);
    MulOrder(m, b, 255);
  }

  /** Too short a length underflows: even an empty frame does not fit, yet a large bitpool is reported. */
  lemma CalculateBitpoolUnderflows()
    ensures var info := FrameInfo(2, 3, Stereo, Loudness, 1, 0);
      FrameLength(info) > 5 && CalculateBitpool(info, 5) == 4092
  {
  }

  // ---- counting frames ----

  /** The length as FrameCount reads it from a header. */
  function InlineLength(d1: byte, d2: byte): (n: nat)
    ensures n >= 4
  {
    var subbands, mode, blocks := if d1 % 2 == 0 then 4 else 8, d1 / 4 % 4, 4 * (d1 / 16 % 4) + 4;
    MulOrder(blocks, 0, d2);
    var bits := blocks * d2;
    var all := if mode == 3 then bits + (subbands + 8 * subbands)
               else (if mode == 1 then bits * 2 else bits) + (if mode == 0 then 4 * subbands else 8 * subbands);
    4 + (all + 7) / 8
  }

  lemma InlineLengthAgrees(d1: byte, d2: byte)
    ensures InlineLength(d1, d2) == CalculateFramelen(ParseHeader(d1, d2)) == FrameLength(ParseHeader(d1, d2))
  {
    var info := ParseHeader(d1, d2);
    FramelenExact(info);
    PayloadBound(info);
    assert info.NrofBlocks() == 4 * (d1 / 16 % 4) + 4;
    hide CalculateFramelen;
  }

  /** `(b & 0xFE) == 0x9C`. */
  predicate LooksLikeSync(b: byte) {
    b / 2 == 0x4E
  }

  /** Frames found when the data is skipped to a syncword and then frame by frame. */
  function Found(data: seq<byte>): nat {
    if |data| == 0 then 0
    else if !LooksLikeSync(data[0]) then Found(data[1..])
    else if |data| < 4 then 0
    else
      var length := InlineLength(data[1], data[2]);
      if |data| > length then 1 + Found(data[length..]) else 1
  }

  /** OI_CODEC_SBC_FrameCount, whose counter has eight bits. */
  method FrameCount(frame: seq<byte>) returns (frameCount: nat)
    ensures frameCount == CountByte(Found(frame))
  {
    hide *;
    frameCount := 0;
    var frameData := frame;
    ghost var count := 0;
    NothingFound();
    while |frameData| > 0
      invariant Found(frame) == count + Found(frameData) && frameCount == CountByte(count)
      decreases |frameData|
    {
      frameData := SkipToSync(frameData);
      if |frameData| < 4 {
        NoHeader(frameData);
        return;
      }
      var frameLen := InlineLength(frameData[1], frameData[2]);
      OneFound(frameData);
      CountNext(count);
      frameCount := NextCount(frameCount);
      count := count + 1;
      if |frameData| > frameLen {
        frameData := frameData[frameLen..];
      } else {
        frameData := [];
      }
    }
    NothingFound();
  }

  /** The counter has eight bits. */
  function CountByte(count: nat): nat {
    count % 256
  }

  function NextCount(count: nat): nat {
    (count + 1) % 256
  }

  lemma CountNext(count: nat)
    ensures NextCount(CountByte(count)) == CountByte(count + 1)
  {
  }

  /** The inner loop of FrameCount. */
  method SkipToSync(data: seq<byte>) returns (rest: seq<byte>)
    ensures Found(rest) == Found(data) && |rest| <= |data| && (|rest| > 0 ==> LooksLikeSync(rest[0]))
  {
    hide InlineLength;
    rest := data;
    while |rest| > 0 && !LooksLikeSync(rest[0])
      invariant Found(rest) == Found(data) && |rest| <= |data|
      decreases |rest|
    {
      rest := rest[1..];
    }
  }

  lemma OneFound(data: seq<byte>)
    requires |data| >= 4 && LooksLikeSync(data[0])
    ensures var length := InlineLength(data[1], data[2]);
      length >= 4 && Found(data) == 1 + (if |data| > length then Found(data[length..]) else Found([]))
  {
    hide InlineLength;
  }

  lemma NothingFound()
    ensures Found([]) == 0 && CountByte(0) == 0
  {
  }

  lemma {:induction false} NoHeader(data: seq<byte>)
    requires |data| < 4 && (|data| > 0 ==> LooksLikeSync(data[0]))
    ensures Found(data) == 0
  {
  }

  /** A frame of the length its own header announces. */
  ghost predicate WholeFrame(data: seq<byte>) {
    |data| >= 4 && data[0] == 0x9C && |data| == FrameLength(ParseHeader(data[1], data[2]))
  }

  function Concat(frames: seq<seq<byte>>): seq<byte> {
    if frames == [] then [] else frames[0] + Concat(frames[1..])
  }

  lemma {:induction false} FramesFound(frames: seq<seq<byte>>)
    requires forall i :: 0 <= i < |frames| ==> WholeFrame(frames[i])
    ensures Found(Concat(frames)) == |frames|
  {
    hide InlineLength, FrameLength;
    if frames != [] {
      var f, rest := frames[0], Concat(frames[1..]);
      var data := Concat(frames);
      assert WholeFrame(f);
      assert data == f + rest;
      InlineLengthAgrees(f[1], f[2]);
      FramesFound(frames[1..]);
      assert data[1] == f[1] && data[2] == f[2] && data[0] == f[0];
      if |frames| == 1 {
        assert rest == [];
      } else {
        assert WholeFrame(frames[1..][0]);
        assert data[|f|..] == rest;
      }
    }
  }

  /** Up to 255 frames one after the other are counted exactly, more never are. */
  method CountFrames(frames: seq<seq<byte>>) returns (n: nat)
    requires forall i :: 0 <= i < |frames| ==> WholeFrame(frames[i])
    ensures n == |frames| <==> |frames| <= 255
  {
    FramesFound(frames);
    n := FrameCount(Concat(frames));
  }
}
