/** The bit layout of an SBC frame behind its four header bytes: join flags, scale factors and
    samples, each a field of fixed width (section 12.4 of Appendix B of the A2DP specification). */
module FrameLayout {
  import opened Bits
  import opened BitStrings
  import opened Frames

  // ---- lists of fields ----

  function Width(ws: seq<nat>): nat {
    if ws == [] then 0 else Width(ws[..|ws| - 1]) + ws[|ws| - 1]
  }

  function FieldBits(vs: seq<nat>, ws: seq<nat>): (bits: seq<bool>)
    requires |vs| == |ws|
    ensures |bits| == Width(ws)
  {
    if vs == [] then [] else FieldBits(vs[..|vs| - 1], ws[..|ws| - 1]) + NatBits(vs[|vs| - 1], ws[|ws| - 1])
  }

  predicate FieldsFit(vs: seq<nat>, ws: seq<nat>) {
    |vs| == |ws| && forall k :: 0 <= k < |vs| ==> vs[k] < Pow2(ws[k])
  }

  lemma FieldsSnoc(vs: seq<nat>, ws: seq<nat>, v: nat, w: nat)
    requires |vs| == |ws|
    ensures FieldBits(vs + [v], ws + [w]) == FieldBits(vs, ws) + NatBits(v, w)
    ensures Width(ws + [w]) == Width(ws) + w
  {
    assert (vs + [v])[..|vs|] == vs && (ws + [w])[..|ws|] == ws;
  }

  lemma FieldsNext(vs: seq<nat>, ws: seq<nat>, k: nat)
    requires |vs| == |ws| && k < |vs|
    ensures FieldBits(vs[..k + 1], ws[..k + 1]) == FieldBits(vs[..k], ws[..k]) + NatBits(vs[k], ws[k])
    ensures Width(ws[..k + 1]) == Width(ws[..k]) + ws[k]
  {
    assert vs[..k + 1] == vs[..k] + [vs[k]] && ws[..k + 1] == ws[..k] + [ws[k]];
    FieldsSnoc(vs[..k], ws[..k], vs[k], ws[k]);
  }

  lemma {:induction false} WidthPrefix(ws: seq<nat>, k: nat)
    requires k <= |ws|
    ensures Width(ws[..k]) <= Width(ws)
    decreases |ws| - k
  {
    if k < |ws| {
      assert ws[..k + 1] == ws[..k] + [ws[k]];
      assert (ws[..k] + [ws[k]])[..k] == ws[..k];
      WidthPrefix(ws, k + 1);
    } else {
      assert ws[..k] == ws;
    }
  }

  /** Field `k` sits behind the widths of the fields before it. */
  lemma {:induction false} FieldAt(vs: seq<nat>, ws: seq<nat>, k: nat)
    requires |vs| == |ws| && k < |vs|
    ensures Width(ws[..k]) + ws[k] <= Width(ws)
    ensures FieldBits(vs, ws)[Width(ws[..k])..Width(ws[..k]) + ws[k]] == NatBits(vs[k], ws[k])
    decreases |vs|
  {
    var n := |vs| - 1;
    if k == n {
    } else {
      FieldAt(vs[..n], ws[..n], k);
      assert ws[..n][..k] == ws[..k];
    }
  }

  lemma {:induction false} WidthConcat(us: seq<nat>, ws: seq<nat>)
    ensures Width(us + ws) == Width(us) + Width(ws)
  {
    if ws == [] {
      assert us + ws == us;
    } else {
      assert (us + ws)[..|us + ws| - 1] == us + ws[..|ws| - 1];
      WidthConcat(us, ws[..|ws| - 1]);
    }
  }

  lemma {:induction false} FieldsConcat(vs: seq<nat>, ws: seq<nat>, vs': seq<nat>, ws': seq<nat>)
    requires |vs| == |ws| && |vs'| == |ws'|
    ensures FieldBits(vs + vs', ws + ws') == FieldBits(vs, ws) + FieldBits(vs', ws')
  {
    hide *;
    if vs' == [] {
      assert vs + vs' == vs && ws + ws' == ws;
      NoFieldBits(vs', ws');
      assert FieldBits(vs, ws) + [] == FieldBits(vs, ws);
    } else {
      var n := |vs'| - 1;
      FieldsConcat(vs, ws, vs'[..n], ws'[..n]);
      FieldsSnoc(vs + vs'[..n], ws + ws'[..n], vs'[n], ws'[n]);
      FieldsSnoc(vs'[..n], ws'[..n], vs'[n], ws'[n]);
      assert vs'[..n] + [vs'[n]] == vs' && ws'[..n] + [ws'[n]] == ws';
      assert vs + vs'[..n] + [vs'[n]] == vs + vs' && ws + ws'[..n] + [ws'[n]] == ws + ws';
      var x, y, z := FieldBits(vs, ws), FieldBits(vs'[..n], ws'[..n]), NatBits(vs'[n], ws'[n]);
      assert x + y + z == x + (y + z);
    }
  }

  lemma NoFieldBits(vs: seq<nat>, ws: seq<nat>)
    requires vs == ws == []
    ensures FieldBits(vs, ws) == []
  {
  }

  // ---- the fields of a frame ----

  /** The join flags as one number, the flag of subband 0 on top. */
  function JoinValue(join: seq<nat>): nat {
    if join == [] then 0 else 2 * JoinValue(join[..|join| - 1]) + join[|join| - 1]
  }

  lemma {:induction false} JoinValueBound(join: seq<nat>)
    requires forall i :: 0 <= i < |join| ==> join[i] < 2
    ensures JoinValue(join) < Pow2(|join|)
  {
    if join != [] {
      JoinValueBound(join[..|join| - 1]);
    }
  }

  /** What a frame carries. */
  datatype Content = Content(join: seq<nat>, sfs: seq<nat>, samples: seq<nat>)

  /** Samples of a frame: block by block, each with all its lanes. */
  function SampleCount(info: FrameInfo): nat {
    info.NrofBlocks() * info.Lanes()
  }

  predicate Shaped(info: FrameInfo, c: Content, bits: seq<nat>) {
    && |c.join| == (if info.mode.Joint? then info.NrofSubbands() else 0)
    && |c.sfs| == info.Lanes() && |bits| == info.Lanes() && |c.samples| == SampleCount(info)
    && (forall i :: 0 <= i < |c.join| ==> c.join[i] < 2)
    && (forall i :: 0 <= i < |c.sfs| ==> c.sfs[i] < 16)
    && (forall k :: 0 <= k < |c.samples| ==> c.samples[k] < Pow2(bits[k % info.Lanes()]))
  }

  function SampleWidths(info: FrameInfo, bits: seq<nat>): (ws: seq<nat>)
    requires |bits| == info.Lanes()
    ensures |ws| == SampleCount(info)
  {
    seq(SampleCount(info), k requires 0 <= k < SampleCount(info) => bits[k % info.Lanes()])
  }

  /** The first sample of a block. */
  ghost function RowStart(info: FrameInfo, row: nat): nat {
    row * info.Lanes()
  }

  lemma Rows(info: FrameInfo)
    ensures RowStart(info, 0) == 0 && RowStart(info, info.NrofBlocks()) == SampleCount(info)
  {
  }

  lemma RowFits(info: FrameInfo, row: nat)
    requires row < info.NrofBlocks()
    ensures RowStart(info, row + 1) == RowStart(info, row) + info.Lanes() <= SampleCount(info)
  {
    MulOrder(info.Lanes(), row, info.NrofBlocks());
  }

  lemma RowLane(info: FrameInfo, row: nat, ch: nat)
    requires ch < info.Lanes()
    ensures (RowStart(info, row) + ch) % info.Lanes() == ch
  {
    ModUnique(RowStart(info, row) + ch, info.Lanes(), row, ch);
  }

  lemma WidthNone(ws: seq<nat>)
    ensures Width(ws[..0]) == 0
  {
  }

  /** Bits of the join flags. */
  function JoinBits(info: FrameInfo): nat {
    if info.mode.Joint? then info.NrofSubbands() else 0
  }

  function BodyValues(info: FrameInfo, c: Content): (vs: seq<nat>) {
    (if info.mode.Joint? then [JoinValue(c.join)] else []) + c.sfs + c.samples
  }

  function BodyWidths(info: FrameInfo, bits: seq<nat>): (ws: seq<nat>)
    requires |bits| == info.Lanes()
  {
    (if info.mode.Joint? then [info.NrofSubbands()] else []) + seq(info.Lanes(), _ => 4) + SampleWidths(info, bits)
  }

  /** Everything behind the four header bytes. */
  function Body(info: FrameInfo, c: Content, bits: seq<nat>): (s: seq<bool>)
    requires Shaped(info, c, bits)
    ensures |s| == Width(BodyWidths(info, bits))
  {
    FieldBits(BodyValues(info, c), BodyWidths(info, bits))
  }

  lemma BodyFieldsFit(info: FrameInfo, c: Content, bits: seq<nat>)
    requires Shaped(info, c, bits)
    ensures FieldsFit(BodyValues(info, c), BodyWidths(info, bits))
  {
    JoinValueBound(c.join);
    assert Pow2(4) == 16;
  }

  /** The body without its samples. */
  function HeadWidth(info: FrameInfo): nat {
    JoinBits(info) + 4 * info.Lanes()
  }

  lemma {:induction false} FoursWidth(n: nat)
    ensures Width(seq(n, _ => 4)) == 4 * n
  {
    if n > 0 {
      assert seq(n, _ => 4)[..n - 1] == seq(n - 1, _ => 4);
      FoursWidth(n - 1);
    }
  }

  /** Zero bits behind the body. A body that ends on a byte boundary without any sample bits
      is followed by one whole zero byte. */
  function EndPad(info: FrameInfo, bits: seq<nat>): nat
    requires |bits| == info.Lanes()
  {
    var w := Width(SampleWidths(info, bits));
    var body := HeadWidth(info) + w;
    if w == 0 && body % 8 == 0 then 8 else (8 - body % 8) % 8
  }

  /** u16PacketLength. */
  function PacketLength(info: FrameInfo, bits: seq<nat>): nat
    requires |bits| == info.Lanes()
  {
    4 + (HeadWidth(info) + Width(SampleWidths(info, bits)) + EndPad(info, bits)) / 8
  }

  // ---- header byte ----

  function ModeCode(mode: Mode): (m: nat)
    ensures m < 4
  {
    match mode
    case Mono => 0
    case Dual => 1
    case Stereo => 2
    case Joint => 3
  }

  /** FrameHeader as SBC_Encoder_Init builds it. */
  function HeaderByte(info: FrameInfo): (b: byte)
    requires info.Valid()
  {
    info.freqIndex * 64 + info.blocks * 16 + ModeCode(info.mode) * 4 + (if info.alloc.Snr? then 1 else 0) * 2 + info.subbands
  }

  /** The header fields as OI_SBC_ReadHeader takes them apart. */
  function ParseHeader(d1: byte, bitpool: byte): (info: FrameInfo)
    ensures info.Valid()
  {
    FrameInfo(d1 / 64, d1 / 16 % 4, [Mono, Dual, Stereo, Joint][d1 / 4 % 4], if d1 / 2 % 2 == 1 then Snr else Loudness, d1 % 2, bitpool)
  }

  lemma HeaderRoundTrip(info: FrameInfo)
    requires info.Valid()
    ensures ParseHeader(HeaderByte(info), info.bitpool) == info
  {
    var b := HeaderByte(info);
    assert b / 64 == info.freqIndex;
    assert b / 16 == info.freqIndex * 4 + info.blocks;
    assert b / 4 == info.freqIndex * 16 + info.blocks * 4 + ModeCode(info.mode);
  }

  lemma ParseRoundTrip(d1: byte, bitpool: byte)
    ensures HeaderByte(ParseHeader(d1, bitpool)) == d1
  {
    HeaderDigits(d1);
    assert ModeCode([Mono, Dual, Stereo, Joint][d1 / 4 % 4]) == d1 / 4 % 4;
  }

  lemma HeaderDigits(d1: byte)
    ensures d1 == d1 / 64 * 64 + d1 / 16 % 4 * 16 + d1 / 4 % 4 * 4 + d1 / 2 % 2 * 2 + d1 % 2
  {
    assert d1 / 4 == d1 / 2 / 2 && d1 / 16 == d1 / 4 / 4 && d1 / 64 == d1 / 16 / 4;
  }

  /** The first four bytes and the body, with the padding that fills the last byte. */
  ghost predicate IsFrame(info: FrameInfo, c: Content, bits: seq<nat>, packet: seq<byte>, pad: nat)
    requires info.Valid() && Shaped(info, c, bits)
  {
    && |packet| >= 4 && packet[0] == 0x9C && packet[1] == HeaderByte(info) && packet[2] == info.bitpool
    && Unpack(packet[4..]) == Body(info, c, bits) + seq(pad, _ => false)
  }
}
