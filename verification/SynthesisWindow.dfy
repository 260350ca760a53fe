/** The decoder's synthesis buffers: a long buffer with a moving offset that stands for a plain
    shift register of the last ten transform outputs. */
module SynthesisWindow {
  import opened Bits
  import opened BlockLayout

  // ---- the shift register ----

  /** Outputs of the transform, eight values each, oldest first. */
  ghost predicate Eights(outs: seq<seq<int>>) {
    forall i :: 0 <= i < |outs| ==> |outs[i]| == 8
  }

  /** The last ten outputs, newest first, zeros before the first one. */
  ghost function Window(outs: seq<seq<int>>): (w: seq<int>)
    requires Eights(outs)
    ensures |w| == 80
  {
    seq(80, j requires 0 <= j < 80 => WindowCell(outs, j))
  }

  ghost function WindowCell(outs: seq<seq<int>>, j: nat): int
    requires Eights(outs)
  {
    if j / 8 < |outs| then outs[|outs| - 1 - j / 8][j % 8] else 0
  }

  /** A new output pushes the oldest one out. */
  lemma WindowPush(outs: seq<seq<int>>, t: seq<int>)
    requires Eights(outs) && |t| == 8
    ensures Eights(outs + [t]) && Window(outs + [t]) == t + Window(outs)[..72]
  {
    forall j | 0 <= j < 80 ensures Window(outs + [t])[j] == (t + Window(outs)[..72])[j] {
      if j >= 8 {
        assert (j - 8) / 8 == j / 8 - 1 && (j - 8) % 8 == j % 8;
      }
    }
  }

  // ---- the backward copy ----

  /** shift_buffer: groups of eight half words, last group first; the regions may overlap as long
      as data moves up. */
  method ShiftBuffer(buffer: array<int>, dest: nat, src: nat, wordCount: nat)
    requires wordCount > 0 && wordCount % 8 == 0 && src <= dest && dest + wordCount <= buffer.Length
    modifies buffer
    ensures buffer[dest..dest + wordCount] == old(buffer[src..src + wordCount])
    ensures buffer[..dest] == old(buffer[..dest]) && buffer[dest + wordCount..] == old(buffer[dest + wordCount..])
  {
    ghost var before := buffer[..];
    var n, d, s := wordCount / 8, dest + wordCount, src + wordCount;
    while n > 0
      invariant 0 <= 8 * n <= wordCount && d == dest + 8 * n && s == src + 8 * n
      invariant forall i :: 0 <= i < d ==> buffer[i] == before[i]
      invariant forall i :: dest + wordCount <= i < buffer.Length ==> buffer[i] == before[i]
      invariant forall i :: d <= i < dest + wordCount ==> buffer[i] == before[i - dest + src]
    {
      Copy4WordsBack(buffer, d, s);
      d, s, n := d - 8, s - 8, n - 1;
    }
    assert buffer[dest..dest + wordCount] == before[src..src + wordCount];
    assert buffer[..dest] == before[..dest] && buffer[dest + wordCount..] == before[dest + wordCount..];
  }

  /** COPY4WORDS_BACK: four words are read before four are written. */
  method Copy4WordsBack(buffer: array<int>, d: nat, s: nat)
    requires 8 <= s <= d <= buffer.Length
    modifies buffer
    ensures forall i :: 0 <= i < buffer.Length ==> buffer[i] == if d - 8 <= i < d then old(buffer[i - d + s]) else old(buffer[i])
  {
    var a1, a0 := buffer[s - 1], buffer[s - 2];
    var b1, b0 := buffer[s - 3], buffer[s - 4];
    var c1, c0 := buffer[s - 5], buffer[s - 6];
    var d1, d0 := buffer[s - 7], buffer[s - 8];
    buffer[d - 1], buffer[d - 2] := a1, a0;
    buffer[d - 3], buffer[d - 4] := b1, b0;
    buffer[d - 5], buffer[d - 6] := c1, c0;
    buffer[d - 7], buffer[d - 8] := d1, d0;
  }

  /** The 80 values at the offset are the window over `outs`. */
  ghost predicate Showing(buffer: seq<int>, offset: nat, outs: seq<seq<int>>) {
    Eights(outs) && offset + 80 <= |buffer| && buffer[offset..offset + 80] == Window(outs)
  }

  // ---- the filter buffers ----

  /** The transform and the window of one number of subbands. Their numerics are not part of the
      model, except that the third value of the 4-band cosine modulation is the constant 0. */
  datatype Bank = Bank(transform: seq<int> -> seq<int>, window: seq<int> -> seq<int>, bands: nat)
  {
    ghost predicate Valid() {
      && (bands == 4 || bands == 8)
      && (forall x :: |transform(x)| == 8)
      && (bands == 4 ==> forall x :: transform(x)[2] == 0)
      && forall w :: |window(w)| == bands
    }
  }

  class FilterBuffers {
    const filterBufferLen: nat
    const left: array<int>
    const right: array<int>
    var offset: nat

    /** Cleared memory, as SbcDecoder::reset leaves it. */
    constructor (filterBufferLen: nat)
      requires filterBufferLen % 8 == 0 && filterBufferLen >= 128
      ensures Valid() && fresh(left) && fresh(right)
      ensures Ready(left[..], right[..], offset, 2, [], [])
    {
      this.filterBufferLen := filterBufferLen;
      left := new int[filterBufferLen](_ => 0);
      right := new int[filterBufferLen](_ => 0);
      offset := 0;
    }

    /** memset of the decoder's memory. */
    method Clear()
      requires Valid()
      modifies `offset, left, right
      ensures Valid() && Ready(left[..], right[..], offset, 2, [], [])
    {
      forall i | 0 <= i < filterBufferLen {
        left[i] := 0;
      }
      forall i | 0 <= i < filterBufferLen {
        right[i] := 0;
      }
      offset := 0;
    }

    ghost predicate Valid()
      reads `offset
    {
      && filterBufferLen % 8 == 0 && filterBufferLen >= 128
      && left.Length == right.Length == filterBufferLen && left != right
      && offset % 8 == 0 && offset + 80 <= filterBufferLen
    }
  }

  /** The offset moves down by one output, and back to the top when it has reached the bottom. */
  function NextOffset(offset: nat, filterBufferLen: nat): nat
    requires offset % 8 == 0 && filterBufferLen >= 80
  {
    if offset == 0 then filterBufferLen - 80 else offset - 8
  }

  /** Room for the next output below 72 values of history. */
  ghost predicate Advanced(buffer: seq<int>, offset: nat, outs: seq<seq<int>>) {
    Eights(outs) && offset + 80 <= |buffer| && buffer[offset + 8..offset + 80] == Window(outs)[..72]
  }

  /** Before a new block one channel's buffer makes room. */
  method MakeRoom(buffer: array<int>, offset: nat, filterBufferLen: nat, ghost outs: seq<seq<int>>)
    requires buffer.Length == filterBufferLen && filterBufferLen >= 128 && offset % 8 == 0
    requires offset + 80 <= filterBufferLen
    requires Showing(buffer[..], offset, outs)
    modifies buffer
    ensures Advanced(buffer[..], NextOffset(offset, filterBufferLen), outs)
  {
    hide Window;
    assert buffer[offset..offset + 72] == Window(outs)[..72];
    if offset == 0 {
      ShiftBuffer(buffer, filterBufferLen - 72, 0, 72);
    }
  }

  /** The transform output of one channel goes in front of its history. */
  method StoreOutput(buffer: array<int>, offset: nat, out: seq<int>, ghost outs: seq<seq<int>>)
    requires |out| == 8 && Advanced(buffer[..], offset, outs)
    modifies buffer
    ensures Showing(buffer[..], offset, outs + [out])
  {
    hide Window;
    WindowPush(outs, out);
    ghost var history := buffer[..][offset + 8..offset + 80];
    var i := 0;
    while i < 8
      invariant i <= 8 && forall k :: 0 <= k < i ==> buffer[offset + k] == out[k]
      invariant forall k :: offset + 8 <= k < offset + 80 ==> buffer[k] == history[k - offset - 8]
    {
      buffer[offset + i] := out[i];
      i := i + 1;
    }
    assert buffer[offset..offset + 80] == out + history;
  }

  // ---- one frame ----

  /** What the transform makes of one channel of a frame. */
  ghost function Outputs(bank: Bank, samples: seq<int>, channels: nat, ch: nat, blocks: nat): (outs: seq<seq<int>>)
    requires bank.Valid() && ch < channels && InputStart(bank.bands, channels, blocks, 0) <= |samples|
    ensures |outs| == blocks && Eights(outs)
  {
    if blocks == 0 then []
    else
      InputOrder(bank.bands, channels, blocks - 1, blocks);
      InputFits(bank.bands, channels, blocks - 1, ch);
      Outputs(bank, samples, channels, ch, blocks - 1) + [OutputOf(bank, samples, channels, blocks - 1, ch)]
  }

  ghost function OutputOf(bank: Bank, samples: seq<int>, channels: nat, blk: nat, ch: nat): (out: seq<int>)
    requires bank.Valid() && ch < channels && InputStart(bank.bands, channels, blk + 1, 0) <= |samples|
    ensures |out| == 8
  {
    InputFits(bank.bands, channels, blk, ch);
    bank.transform(samples[InputStart(bank.bands, channels, blk, ch)..InputStart(bank.bands, channels, blk, ch) + bank.bands])
  }

  // ---- PCM ----

  /** Distance of the `i`th sample of a channel from its first. */
  function Strided(stride: nat, i: nat): nat {
    if stride == 2 then 2 * i else i
  }

  /** Two channels written without an interleave run one cell past the end. */
  function Spill(stride: nat, channels: nat): nat {
    if stride == 1 && channels == 2 then 1 else 0
  }

  /** One channel of one block in the interleaved output. */
  ghost predicate Played(pcm: seq<int>, at: nat, stride: nat, ch: nat, values: seq<int>) {
    forall i :: 0 <= i < |values| ==> at + Strided(stride, i) + ch < |pcm| && pcm[at + Strided(stride, i) + ch] == values[i]
  }

  /** Where block `blk` starts in the output. */
  ghost function PcmStart(bands: nat, stride: nat, blk: nat): nat {
    blk * Strided(stride, bands)
  }

  /** Where value `i` of a channel of a block is written. */
  ghost function PcmCell(bands: nat, stride: nat, blk: nat, i: nat, ch: nat): nat {
    PcmStart(bands, stride, blk) + Strided(stride, i) + ch
  }

  /** All of a frame is written within its PCM frames exactly if the interleave has a slot for every channel. */
  lemma WritesStayWithin(bands: nat, stride: nat, channels: nat, blocks: nat)
    requires bands > 0 && blocks > 0 && (stride == 1 || stride == 2) && (channels == 1 || channels == 2)
    ensures (forall blk: nat, i: nat, ch: nat :: blk < blocks && i < bands && ch < channels ==>
                  PcmCell(bands, stride, blk, i, ch) < PcmStart(bands, stride, blocks))
      <==> channels <= stride
  {
    hide PcmStart;
    PcmNext(bands, stride, blocks - 1);
    if channels <= stride {
      forall blk: nat, i: nat, ch: nat | blk < blocks && i < bands && ch < channels
        ensures PcmCell(bands, stride, blk, i, ch) < PcmStart(bands, stride, blocks)
      {
        PcmNext(bands, stride, blk);
        PcmOrder(bands, stride, blk + 1, blocks);
      }
    } else {
      assert PcmCell(bands, stride, blocks - 1, bands - 1, 1) == PcmStart(bands, stride, blocks);
    }
  }

  lemma PcmNext(bands: nat, stride: nat, blk: nat)
    ensures PcmStart(bands, stride, 0) == 0
    ensures PcmStart(bands, stride, blk + 1) == PcmStart(bands, stride, blk) + Strided(stride, bands)
  {
  }

  lemma PcmOrder(bands: nat, stride: nat, blk: nat, blocks: nat)
    requires blk <= blocks
    ensures PcmStart(bands, stride, blk) <= PcmStart(bands, stride, blocks)
  {
    MulOrder(Strided(stride, bands), blk, blocks);
    assert Strided(stride, bands) * blk == blk * Strided(stride, bands) && Strided(stride, bands) * blocks == blocks * Strided(stride, bands);
  }

  /** How many of the `n` values of a block are still there when all channels and the next block have
      been written. Without an interleave the second channel overwrites all but the first value of the
      first, and the next block the last value of the second. */
  function KeptCount(stride: nat, channels: nat, ch: nat, n: nat): (k: nat)
    ensures k <= n
  {
    if channels <= stride || n == 0 then n else if ch == 0 then 1 else n - 1
  }

  /** A channel of the first `blocks` blocks: each is the window over the outputs up to its own. What two
      channels without an interleave have left over lies one cell past the end. */
  ghost predicate FramePlayed(pcm: seq<int>, bank: Bank, stride: nat, channels: nat, ch: nat, outs: seq<seq<int>>,
                              past: nat, blocks: nat) {
    && Eights(outs) && past + blocks <= |outs|
    && (forall b :: 0 <= b < blocks ==>
          KeptPlayed(pcm, PcmStart(bank.bands, stride, b), stride, channels, ch, BlockPcm(bank, outs, past + b)))
    && (channels > stride && ch == 1 && blocks > 0 ==>
          LeftOver(pcm, PcmStart(bank.bands, stride, blocks), BlockPcm(bank, outs, past + blocks - 1)))
  }

  ghost predicate KeptPlayed(pcm: seq<int>, at: nat, stride: nat, channels: nat, ch: nat, values: seq<int>) {
    Played(pcm, at, stride, ch, values[..KeptCount(stride, channels, ch, |values|)])
  }

  ghost predicate LeftOver(pcm: seq<int>, at: nat, values: seq<int>) {
    |values| > 0 && at < |pcm| && pcm[at] == values[|values| - 1]
  }

  /** PCM of the block whose output is number `k`. */
  ghost function BlockPcm(bank: Bank, outs: seq<seq<int>>, k: nat): seq<int>
    requires Eights(outs) && k < |outs|
  {
    bank.window(Window(outs[..k + 1]))
  }

  /** The end of a window routine: one PCM value per band, `stride` apart. */
  method WritePcm(pcm: array<int>, at: nat, stride: nat, ch: nat, values: seq<int>)
    requires (stride == 1 || stride == 2) && ch < 2
    requires at + Strided(stride, |values|) + Spill(stride, ch + 1) <= pcm.Length
    modifies pcm
    ensures Played(pcm[..], at, stride, ch, values)
    ensures forall j :: 0 <= j < at + (if stride == 1 then ch else 0) ==> pcm[j] == old(pcm[j])
    ensures forall j :: at + Strided(stride, |values|) + Spill(stride, ch + 1) <= j < pcm.Length ==> pcm[j] == old(pcm[j])
    ensures stride == 2 ==> forall i :: 0 <= i < |values| ==> pcm[at + 2 * i + (1 - ch)] == old(pcm[at + 2 * i + (1 - ch)])
  {
    var i := 0;
    while i < |values|
      invariant i <= |values|
      invariant forall k :: 0 <= k < i ==> pcm[at + Strided(stride, k) + ch] == values[k]
      invariant forall j :: 0 <= j < at + (if stride == 1 then ch else 0) ==> pcm[j] == old(pcm[j])
      invariant forall j :: at + Strided(stride, |values|) + Spill(stride, ch + 1) <= j < pcm.Length ==> pcm[j] == old(pcm[j])
      invariant stride == 2 ==> forall i :: 0 <= i < |values| ==> pcm[at + 2 * i + (1 - ch)] == old(pcm[at + 2 * i + (1 - ch)])
    {
      pcm[at + Strided(stride, i) + ch] := values[i];
      i := i + 1;
    }
  }

  /** The next output of a channel. */
  ghost function Next(bank: Bank, outs: seq<seq<int>>, samples: seq<int>, channels: nat, blk: nat,
                      ch: nat): seq<seq<int>>
    requires bank.Valid() && ch < channels && InputStart(bank.bands, channels, blk + 1, 0) <= |samples|
  {
    outs + [OutputOf(bank, samples, channels, blk, ch)]
  }

  /** Transform, store, window: one channel of one block. */
  method SynthChannel(bank: Bank, buffer: array<int>, offset: nat, samples: seq<int>, channels: nat, ghost blk: nat,
                      s: nat, ch: nat,
                      pcm: array<int>, at: nat, stride: nat, ghost outs: seq<seq<int>>)
    requires bank.Valid() && ch < channels && InputStart(bank.bands, channels, blk + 1, 0) <= |samples|
    requires s == InputStart(bank.bands, channels, blk, ch)
    requires Advanced(buffer[..], offset, outs) && buffer != pcm
    requires (stride == 1 || stride == 2) && ch < 2
    requires at + Strided(stride, bank.bands) + Spill(stride, ch + 1) <= pcm.Length
    modifies buffer, pcm
    ensures Showing(buffer[..], offset, Next(bank, outs, samples, channels, blk, ch))
    ensures Eights(Next(bank, outs, samples, channels, blk, ch))
    ensures Played(pcm[..], at, stride, ch, bank.window(Window(Next(bank, outs, samples, channels, blk, ch))))
    ensures forall j :: 0 <= j < at + (if stride == 1 then ch else 0) ==> pcm[j] == old(pcm[j])
    ensures forall j :: at + Strided(stride, bank.bands) + Spill(stride, ch + 1) <= j < pcm.Length ==> pcm[j] == old(pcm[j])
    ensures stride == 2 ==> forall i :: 0 <= i < bank.bands ==> pcm[at + 2 * i + (1 - ch)] == old(pcm[at + 2 * i + (1 - ch)])
  {
    hide Window, InputStart, Advanced, Played, Eights;
    InputFits(bank.bands, channels, blk, ch);
    var out := bank.transform(samples[s..s + bank.bands]);
    StoreOutput(buffer, offset, out, outs);
    ShowingKnown(buffer[..], offset, outs + [out]);
    var values := bank.window(buffer[offset..offset + 80]);
    assert buffer[offset..offset + 80] == buffer[..][offset..offset + 80];
    WritePcm(pcm, at, stride, ch, values);
  }

  lemma ShowingKnown(buffer: seq<int>, offset: nat, outs: seq<seq<int>>)
    requires Showing(buffer, offset, outs)
    ensures Eights(outs) && offset + 80 <= |buffer| && buffer[offset..offset + 80] == Window(outs)
  {
  }

  /** Playing the second channel leaves of the first what is kept of it. */
  lemma PlayedKept(before: seq<int>, after: seq<int>, at: nat, stride: nat, values: seq<int>)
    requires Played(before, at, stride, 0, values) && |after| == |before| && (stride == 1 || stride == 2)
    requires stride == 2 ==> forall i :: 0 <= i < |values| ==> at + 2 * i < |after| && after[at + 2 * i] == before[at + 2 * i]
    requires stride == 1 && at < |after| ==> after[at] == before[at]
    ensures KeptPlayed(after, at, stride, 2, 0, values)
  {
  }

  /** All values are there, so those are there that are kept. */
  lemma PlayedIsKept(pcm: seq<int>, at: nat, stride: nat, channels: nat, ch: nat, values: seq<int>)
    requires Played(pcm, at, stride, ch, values)
    ensures KeptPlayed(pcm, at, stride, channels, ch, values)
  {
  }

  /** One block of OI_SBC_SynthFrame_80 and OI_SBC_SynthFrame_4SB. */
  method SynthBlock(fb: FilterBuffers, bank: Bank, top: nat, samples: seq<int>, channels: nat, ghost blk: nat,
                    start: nat,
                    pcm: array<int>, at: nat, stride: nat, ghost ls: seq<seq<int>>, ghost rs: seq<seq<int>>) returns (offset: nat)
    requires fb.Valid() && bank.Valid() && pcm !in {fb.left, fb.right} && (channels == 1 || channels == 2)
    requires stride == 1 || stride == 2
    requires InputStart(bank.bands, channels, blk + 1, 0) <= |samples|
    requires start == InputStart(bank.bands, channels, blk, 0)
    requires at + Strided(stride, bank.bands) + Spill(stride, channels) <= pcm.Length
    requires top % 8 == 0 && Showing(fb.left[..], top, ls) && (channels == 2 ==> Showing(fb.right[..], top, rs))
    modifies fb.left, fb.right, pcm
    ensures offset == NextOffset(top, fb.filterBufferLen) && offset % 8 == 0
    ensures Showing(fb.left[..], offset, Next(bank, ls, samples, channels, blk, 0))
    ensures channels == 2 ==> Showing(fb.right[..], offset, Next(bank, rs, samples, channels, blk, 1))
    ensures Eights(Next(bank, ls, samples, channels, blk, 0))
    ensures KeptPlayed(pcm[..], at, stride, channels, 0, bank.window(Window(Next(bank, ls, samples, channels, blk, 0))))
    ensures channels == 2 ==> Eights(Next(bank, rs, samples, channels, blk, 1))
    ensures channels == 2 ==> Played(pcm[..], at, stride, 1, bank.window(Window(Next(bank, rs, samples, channels, blk, 1))))
    ensures forall j :: 0 <= j < at ==> pcm[j] == old(pcm[j])
    ensures forall j :: at + Strided(stride, bank.bands) + Spill(stride, channels) <= j < pcm.Length ==> pcm[j] == old(pcm[j])
  {
    hide Window, InputStart, Advanced, Played, KeptPlayed, Eights, Showing, Next;
    TopFits(fb, top, ls);
    MakeRoom(fb.left, top, fb.filterBufferLen, ls);
    if channels == 2 {
      MakeRoom(fb.right, top, fb.filterBufferLen, rs);
    }
    offset := NextOffset(top, fb.filterBufferLen);
    InputNext(bank.bands, channels, blk, 0);
    SynthChannel(bank, fb.left, offset, samples, channels, blk, start, 0, pcm, at, stride, ls);
    if channels == 2 {
      ghost var first := pcm[..];
      SynthChannel(bank, fb.right, offset, samples, channels, blk, start + bank.bands, 1, pcm, at, stride, rs);
      PlayedKept(first, pcm[..], at, stride, bank.window(Window(Next(bank, ls, samples, channels, blk, 0))));
    } else {
      PlayedIsKept(pcm[..], at, stride, channels, 0, bank.window(Window(Next(bank, ls, samples, channels, blk, 0))));
    }
  }

  lemma TopFits(fb: FilterBuffers, top: nat, ls: seq<seq<int>>)
    requires fb.Valid() && Showing(fb.left[..], top, ls)
    ensures top + 80 <= fb.filterBufferLen && fb.left != fb.right
  {
  }

  lemma OutputsNext(bank: Bank, samples: seq<int>, channels: nat, ch: nat, blk: nat, outs: seq<seq<int>>)
    requires bank.Valid() && ch < channels && InputStart(bank.bands, channels, blk + 1, 0) <= |samples|
    ensures InputStart(bank.bands, channels, blk, 0) <= |samples|
    ensures outs + Outputs(bank, samples, channels, ch, blk + 1)
         == Next(bank, outs + Outputs(bank, samples, channels, ch, blk), samples, channels, blk, ch)
  {
    hide InputStart, OutputOf;
    InputOrder(bank.bands, channels, blk, blk + 1);
    var a, b, c := outs, Outputs(bank, samples, channels, ch, blk), [OutputOf(bank, samples, channels, blk, ch)];
    assert a + (b + c) == a + b + c;
  }

  /** One more block has been played; the earlier ones keep what is kept of them. */
  lemma PlayedNext(before: seq<int>, after: seq<int>, bank: Bank, stride: nat, channels: nat, ch: nat,
                   outs: seq<seq<int>>, more: seq<seq<int>>, past: nat, blk: nat)
    requires FramePlayed(before, bank, stride, channels, ch, outs, past, blk) && |outs| == past + blk
    requires |after| == |before| && ch < channels <= 2
    requires |more| == |outs| + 1 && more[..|outs|] == outs && Eights(more) && bank.Valid()
    requires (stride == 1 || stride == 2)
    requires forall j :: 0 <= j < PcmStart(bank.bands, stride, blk) && j < |after| ==> after[j] == before[j]
    requires if ch == 1 then Played(after, PcmStart(bank.bands, stride, blk), stride, ch, bank.window(Window(more)))
             else KeptPlayed(after, PcmStart(bank.bands, stride, blk), stride, channels, ch, bank.window(Window(more)))
    ensures FramePlayed(after, bank, stride, channels, ch, more, past, blk + 1)
  {
    hide Window, PcmStart;
    assert more[..|more|] == more;
    PcmNext(bank.bands, stride, blk);
    forall b | 0 <= b < blk + 1
      ensures KeptPlayed(after, PcmStart(bank.bands, stride, b), stride, channels, ch, BlockPcm(bank, more, past + b))
    {
      if b < blk {
        assert more[..past + b + 1] == outs[..past + b + 1] by {
          assert more[..|outs|][..past + b + 1] == more[..past + b + 1];
        }
        assert BlockPcm(bank, more, past + b) == BlockPcm(bank, outs, past + b);
        PcmNext(bank.bands, stride, b);
        PcmOrder(bank.bands, stride, b + 1, blk);
        assert KeptPlayed(before, PcmStart(bank.bands, stride, b), stride, channels, ch, BlockPcm(bank, outs, past + b));
        KeptStays(before, after, PcmStart(bank.bands, stride, b), stride, channels, ch, BlockPcm(bank, outs, past + b));
      }
    }
    if channels > stride && ch == 1 {
      LastIsLeftOver(after, PcmStart(bank.bands, stride, blk), bank.window(Window(more)));
    }
  }

  lemma KeptStays(before: seq<int>, after: seq<int>, at: nat, stride: nat, channels: nat, ch: nat, values: seq<int>)
    requires KeptPlayed(before, at, stride, channels, ch, values) && |after| == |before| && ch < channels <= 2
    requires (stride == 1 || stride == 2)
    requires forall j :: at <= j < at + Strided(stride, |values|) && j < |after| ==> after[j] == before[j]
    ensures KeptPlayed(after, at, stride, channels, ch, values)
  {
  }

  lemma LastIsLeftOver(pcm: seq<int>, at: nat, values: seq<int>)
    requires Played(pcm, at, 1, 1, values) && |values| > 0
    ensures LeftOver(pcm, at + |values|, values)
  {
    assert at + Strided(1, |values| - 1) + 1 == at + |values|;
  }

  /** One channel after `blk` blocks of a frame. */
  ghost predicate ChannelAt(buffer: seq<int>, pcm: seq<int>, offset: nat, bank: Bank, stride: nat, samples: seq<int>,
                            channels: nat, ch: nat, past: seq<seq<int>>, blk: nat) {
    && bank.Valid() && ch < channels && InputStart(bank.bands, channels, blk, 0) <= |samples|
    && Showing(buffer, offset, past + Outputs(bank, samples, channels, ch, blk))
    && FramePlayed(pcm, bank, stride, channels, ch, past + Outputs(bank, samples, channels, ch, blk), |past|, blk)
  }

  lemma ChannelStart(buffer: seq<int>, pcm: seq<int>, offset: nat, bank: Bank, stride: nat, samples: seq<int>,
                     channels: nat, ch: nat, past: seq<seq<int>>)
    requires bank.Valid() && ch < channels && Showing(buffer, offset, past)
    ensures ChannelAt(buffer, pcm, offset, bank, stride, samples, channels, ch, past, 0)
  {
    assert past + [] == past;
    InputOrder(bank.bands, channels, 0, 0);
  }

  lemma ChannelNext(buffer: seq<int>, after: seq<int>, pcm: seq<int>, played: seq<int>, top: nat, offset: nat,
                    bank: Bank, stride: nat,
                    samples: seq<int>, channels: nat, ch: nat, past: seq<seq<int>>, blk: nat)
    requires ChannelAt(buffer, pcm, top, bank, stride, samples, channels, ch, past, blk)
    requires InputStart(bank.bands, channels, blk + 1, 0) <= |samples| && |played| == |pcm|
    requires (stride == 1 || stride == 2) && channels <= 2
    requires var next := Next(bank, past + Outputs(bank, samples, channels, ch, blk), samples, channels, blk, ch);
      && Showing(after, offset, next) && Eights(next)
      && if ch == 1 then Played(played, PcmStart(bank.bands, stride, blk), stride, ch, bank.window(Window(next)))
         else KeptPlayed(played, PcmStart(bank.bands, stride, blk), stride, channels, ch, bank.window(Window(next)))
    requires forall j :: 0 <= j < PcmStart(bank.bands, stride, blk) && j < |played| ==> played[j] == pcm[j]
    ensures ChannelAt(after, played, offset, bank, stride, samples, channels, ch, past, blk + 1)
  {
    hide Window, PcmStart, InputStart, Played, KeptPlayed, FramePlayed, Showing, Outputs, OutputOf;
    var outs := past + Outputs(bank, samples, channels, ch, blk);
    var next := Next(bank, outs, samples, channels, blk, ch);
    OutputsNext(bank, samples, channels, ch, blk, past);
    assert next[..|outs|] == outs && |next| == |outs| + 1;
    PlayedNext(pcm, played, bank, stride, channels, ch, outs, next, |past|, blk);
  }

  /** All channels after `blk` blocks of a frame; a mono frame leaves the right buffer alone. */
  ghost predicate FrameAt(left: seq<int>, right: seq<int>, pcm: seq<int>, offset: nat, bank: Bank, stride: nat,
                          samples: seq<int>, channels: nat,
                          ls: seq<seq<int>>, rs: seq<seq<int>>, blk: nat) {
    && offset % 8 == 0
    && ChannelAt(left, pcm, offset, bank, stride, samples, channels, 0, ls, blk)
    && (channels == 2 ==> ChannelAt(right, pcm, offset, bank, stride, samples, channels, 1, rs, blk))
  }

  /** The buffers show the histories before the frame. */
  ghost predicate Ready(left: seq<int>, right: seq<int>, offset: nat, channels: nat, ls: seq<seq<int>>,
                        rs: seq<seq<int>>) {
    offset % 8 == 0 && Showing(left, offset, ls) && (channels == 2 ==> Showing(right, offset, rs))
  }

  lemma FrameStart(left: seq<int>, right: seq<int>, pcm: seq<int>, offset: nat, bank: Bank, stride: nat,
                   samples: seq<int>, channels: nat,
                   ls: seq<seq<int>>, rs: seq<seq<int>>)
    requires Ready(left, right, offset, channels, ls, rs) && bank.Valid() && (channels == 1 || channels == 2)
    ensures FrameAt(left, right, pcm, offset, bank, stride, samples, channels, ls, rs, 0)
    ensures InputStart(bank.bands, channels, 0, 0) == 0 && PcmStart(bank.bands, stride, 0) == 0
  {
    hide ChannelAt, Showing;
    ChannelStart(left, pcm, offset, bank, stride, samples, channels, 0, ls);
    if channels == 2 {
      ChannelStart(right, pcm, offset, bank, stride, samples, channels, 1, rs);
    }
    InputOrder(bank.bands, channels, 0, 0);
    PcmNext(bank.bands, stride, 0);
  }

  /** OI_SBC_SynthFrame_80 and OI_SBC_SynthFrame_4SB: the history of each channel grows by the
      outputs of this frame, and every block plays the window over the history up to itself. */
  method SynthFrame(fb: FilterBuffers, bank: Bank, samples: seq<int>, channels: nat, blocks: nat, pcm: array<int>,
                    stride: nat,
                    ghost ls: seq<seq<int>>, ghost rs: seq<seq<int>>)
    requires fb.Valid() && bank.Valid() && pcm !in {fb.left, fb.right} && (channels == 1 || channels == 2)
    requires stride == 1 || stride == 2
    requires InputStart(bank.bands, channels, blocks, 0) <= |samples|
    requires PcmStart(bank.bands, stride, blocks) + Spill(stride, channels) <= pcm.Length
    requires Ready(fb.left[..], fb.right[..], fb.offset, channels, ls, rs)
    modifies fb`offset, fb.left, fb.right, pcm
    ensures fb.Valid()
    ensures FrameAt(fb.left[..], fb.right[..], pcm[..], fb.offset, bank, stride, samples, channels, ls, rs, blocks)
    ensures forall j :: PcmStart(bank.bands, stride, blocks) + Spill(stride, channels) <= j < pcm.Length ==> pcm[j] == old(pcm[j])
  {
    hide *;
    OffsetKnown(fb);
    var offset := SynthBlocks(fb, bank, fb.offset, samples, channels, blocks, pcm, stride, ls, rs);
    OffsetFits(fb, offset, fb.left[..], fb.right[..], pcm[..], bank, stride, samples, channels, ls, rs, blocks);
    fb.offset := offset;
    StillValid(fb);
  }

  /** The loop over the blocks. */
  method SynthBlocks(fb: FilterBuffers, bank: Bank, top: nat, samples: seq<int>, channels: nat, blocks: nat,
                     pcm: array<int>, stride: nat,
                     ghost ls: seq<seq<int>>, ghost rs: seq<seq<int>>) returns (offset: nat)
    requires fb.Valid() && bank.Valid() && pcm !in {fb.left, fb.right} && (channels == 1 || channels == 2)
    requires stride == 1 || stride == 2
    requires InputStart(bank.bands, channels, blocks, 0) <= |samples|
    requires PcmStart(bank.bands, stride, blocks) + Spill(stride, channels) <= pcm.Length
    requires Ready(fb.left[..], fb.right[..], top, channels, ls, rs)
    modifies fb.left, fb.right, pcm
    ensures FrameAt(fb.left[..], fb.right[..], pcm[..], offset, bank, stride, samples, channels, ls, rs, blocks)
    ensures forall j :: PcmStart(bank.bands, stride, blocks) + Spill(stride, channels) <= j < pcm.Length ==> pcm[j] == old(pcm[j])
  {
    hide *;
    FrameStart(fb.left[..], fb.right[..], pcm[..], top, bank, stride, samples, channels, ls, rs);
    offset := top;
    var blk, s, at := 0, 0, 0;
    while blk < blocks
      invariant blk <= blocks && s == InputStart(bank.bands, channels, blk, 0)
      invariant at == PcmStart(bank.bands, stride, blk) && fb.Valid()
      invariant FrameAt(fb.left[..], fb.right[..], pcm[..], offset, bank, stride, samples, channels, ls, rs, blk)
      invariant forall j :: PcmStart(bank.bands, stride, blk) + Spill(stride, channels) <= j < pcm.Length ==> pcm[j] == old(pcm[j])
    {
      offset := SynthNext(fb, bank, offset, samples, channels, blk, blocks, s, pcm, at, stride, ls, rs);
      InputBlock(bank.bands, channels, blk);
      PcmNext(bank.bands, stride, blk);
      s := s + BlockSamples(bank.bands, channels);
      at := at + Strided(stride, bank.bands);
      blk := blk + 1;
    }
  }

  lemma OffsetKnown(fb: FilterBuffers)
    requires fb.Valid()
    ensures fb.offset % 8 == 0 && fb.left != fb.right && fb.left.Length == fb.right.Length == fb.filterBufferLen
    ensures fb.filterBufferLen % 8 == 0 && fb.filterBufferLen >= 128
  {
  }

  lemma OffsetFits(fb: FilterBuffers, offset: nat, left: seq<int>, right: seq<int>, pcm: seq<int>, bank: Bank,
                   stride: nat, samples: seq<int>,
                   channels: nat, ls: seq<seq<int>>, rs: seq<seq<int>>, blk: nat)
    requires FrameAt(left, right, pcm, offset, bank, stride, samples, channels, ls, rs, blk)
    ensures offset % 8 == 0 && offset + 80 <= |left|
  {
  }

  lemma StillValid(fb: FilterBuffers)
    requires fb.offset % 8 == 0 && fb.offset + 80 <= fb.filterBufferLen && fb.filterBufferLen % 8 == 0
    requires fb.filterBufferLen >= 128
    requires fb.left.Length == fb.right.Length == fb.filterBufferLen && fb.left != fb.right
    ensures fb.Valid()
  {
  }

  /** One more block. */
  method SynthNext(fb: FilterBuffers, bank: Bank, top: nat, samples: seq<int>, channels: nat, ghost blk: nat,
                   ghost blocks: nat, s: nat,
                   pcm: array<int>, at: nat, stride: nat, ghost ls: seq<seq<int>>, ghost rs: seq<seq<int>>) returns (offset: nat)
    requires fb.Valid() && bank.Valid() && pcm !in {fb.left, fb.right} && (channels == 1 || channels == 2)
    requires stride == 1 || stride == 2
    requires InputStart(bank.bands, channels, blocks, 0) <= |samples|
    requires PcmStart(bank.bands, stride, blocks) + Spill(stride, channels) <= pcm.Length
    requires blk < blocks && s == InputStart(bank.bands, channels, blk, 0) && at == PcmStart(bank.bands, stride, blk)
    requires FrameAt(fb.left[..], fb.right[..], pcm[..], top, bank, stride, samples, channels, ls, rs, blk)
    modifies fb.left, fb.right, pcm
    ensures fb.Valid()
    ensures FrameAt(fb.left[..], fb.right[..], pcm[..], offset, bank, stride, samples, channels, ls, rs, blk + 1)
    ensures forall j :: PcmStart(bank.bands, stride, blk + 1) + Spill(stride, channels) <= j < pcm.Length ==> pcm[j] == old(pcm[j])
  {
    hide *;
    InputOrder(bank.bands, channels, blk + 1, blocks);
    PcmNext(bank.bands, stride, blk);
    PcmOrder(bank.bands, stride, blk + 1, blocks);
    ghost var left, right, before := fb.left[..], fb.right[..], pcm[..];
    FrameKnown(left, right, before, top, bank, stride, samples, channels, ls, rs, blk);
    ghost var louts := ls + Outputs(bank, samples, channels, 0, blk);
    ghost var routs := if channels == 2 then rs + Outputs(bank, samples, channels, 1, blk) else rs;
    offset := SynthBlock(fb, bank, top, samples, channels, blk, s, pcm, at, stride, louts, routs);
    FrameNext(left, right, before, fb.left[..], fb.right[..], pcm[..], top, offset, bank, stride, samples, channels, ls, rs, blk);
  }

  lemma FrameKnown(left: seq<int>, right: seq<int>, pcm: seq<int>, offset: nat, bank: Bank, stride: nat,
                   samples: seq<int>, channels: nat,
                   ls: seq<seq<int>>, rs: seq<seq<int>>, blk: nat)
    requires FrameAt(left, right, pcm, offset, bank, stride, samples, channels, ls, rs, blk)
    ensures offset % 8 == 0 && bank.Valid() && channels > 0 && InputStart(bank.bands, channels, blk, 0) <= |samples|
    ensures Showing(left, offset, ls + Outputs(bank, samples, channels, 0, blk))
    ensures channels == 2 ==> Showing(right, offset, rs + Outputs(bank, samples, channels, 1, blk))
  {
    hide Showing, Outputs, FramePlayed;
  }

  lemma FrameNext(left: seq<int>, right: seq<int>, pcm: seq<int>, newLeft: seq<int>, newRight: seq<int>,
                  played: seq<int>, top: nat, offset: nat,
                  bank: Bank, stride: nat, samples: seq<int>, channels: nat, ls: seq<seq<int>>, rs: seq<seq<int>>, blk: nat)
    requires FrameAt(left, right, pcm, top, bank, stride, samples, channels, ls, rs, blk) && offset % 8 == 0
    requires InputStart(bank.bands, channels, blk + 1, 0) <= |samples| && |played| == |pcm|
    requires (stride == 1 || stride == 2) && channels <= 2
    requires var next := Next(bank, ls + Outputs(bank, samples, channels, 0, blk), samples, channels, blk, 0);
      && Showing(newLeft, offset, next) && Eights(next)
      && KeptPlayed(played, PcmStart(bank.bands, stride, blk), stride, channels, 0, bank.window(Window(next)))
    requires channels == 2 ==>
      var next := Next(bank, rs + Outputs(bank, samples, channels, 1, blk), samples, channels, blk, 1);
      && Showing(newRight, offset, next) && Eights(next)
      && Played(played, PcmStart(bank.bands, stride, blk), stride, 1, bank.window(Window(next)))
    requires forall j :: 0 <= j < PcmStart(bank.bands, stride, blk) && j < |played| ==> played[j] == pcm[j]
    ensures FrameAt(newLeft, newRight, played, offset, bank, stride, samples, channels, ls, rs, blk + 1)
  {
    hide Showing, Outputs, FramePlayed, Played, KeptPlayed, PcmStart, InputStart, Eights, Window, Next;
    ChannelNext(left, newLeft, pcm, played, top, offset, bank, stride, samples, channels, 0, ls, blk);
    if channels == 2 {
      ChannelNext(right, newRight, pcm, played, top, offset, bank, stride, samples, channels, 1, rs, blk);
    }
  }

  // ---- what follows ----

  /** The sound of a block is settled by the histories before its frame and the frame's samples:
      whatever else the memory held, two decoders play the same. */
  lemma SameHistorySamePcm(left: seq<int>, right: seq<int>, pcm: seq<int>, offset: nat, left': seq<int>,
                           right': seq<int>, pcm': seq<int>, offset': nat,
                           bank: Bank, stride: nat, samples: seq<int>, channels: nat, ls: seq<seq<int>>, rs: seq<seq<int>>, blocks: nat,
                           b: nat, ch: nat, i: nat)
    requires FrameAt(left, right, pcm, offset, bank, stride, samples, channels, ls, rs, blocks)
    requires FrameAt(left', right', pcm', offset', bank, stride, samples, channels, ls, rs, blocks)
    requires b < blocks && ch < channels <= 2 && i < KeptCount(stride, channels, ch, bank.bands)
    ensures var at := PcmStart(bank.bands, stride, b) + Strided(stride, i) + ch;
      at < |pcm| && at < |pcm'| && pcm[at] == pcm'[at]
  {
    hide Window, PcmStart, InputStart, Showing, Outputs;
    var past := if ch == 0 then ls else rs;
    var outs := past + Outputs(bank, samples, channels, ch, blocks);
    var values := BlockPcm(bank, outs, |past| + b);
    assert KeptPlayed(pcm, PcmStart(bank.bands, stride, b), stride, channels, ch, values);
    assert KeptPlayed(pcm', PcmStart(bank.bands, stride, b), stride, channels, ch, values);
  }

  /** Block `b` of a channel is transformed from its own samples: those of the blocks before it and,
      for the second channel, those of the first in the same block come first. */
  lemma {:induction false} OutputAt(bank: Bank, samples: seq<int>, channels: nat, ch: nat, blocks: nat, b: nat)
    requires bank.Valid() && ch < channels && InputStart(bank.bands, channels, blocks, 0) <= |samples| && b < blocks
    ensures (b * channels + ch) * bank.bands + bank.bands <= |samples|
    ensures Outputs(bank, samples, channels, ch, blocks)[b]
         == bank.transform(samples[(b * channels + ch) * bank.bands..(b * channels + ch) * bank.bands + bank.bands])
  {
    InputOrder(bank.bands, channels, b + 1, blocks);
    InputFits(bank.bands, channels, b, ch);
    InputIs(bank.bands, channels, b, ch);
    hide InputStart;
    if b < blocks - 1 {
      InputOrder(bank.bands, channels, blocks - 1, blocks);
      OutputAt(bank, samples, channels, ch, blocks - 1, b);
    }
  }

  lemma InputIs(bands: nat, channels: nat, blk: nat, ch: nat)
    ensures InputStart(bands, channels, blk, ch) == (blk * channels + ch) * bands
  {
  }

  /** The output `t` back in a window of 80 values. */
  ghost function Back(w: seq<int>, t: nat): seq<int>
    requires |w| == 80 && t < 10
  {
    w[8 * t..8 * t + 8]
  }

  const SILENCE: seq<int> := [0, 0, 0, 0, 0, 0, 0, 0]

  lemma WindowBack(outs: seq<seq<int>>, t: nat)
    requires Eights(outs) && t < 10
    ensures Back(Window(outs), t) == (if t < |outs| then outs[|outs| - 1 - t] else SILENCE)
  {
    var w := Window(outs);
    forall i | 0 <= i < 8 ensures Back(w, t)[i] == if t < |outs| then outs[|outs| - 1 - t][i] else 0 {
      assert (8 * t + i) / 8 == t && (8 * t + i) % 8 == i;
    }
  }

  /** The samples of a channel in one block of a frame. */
  ghost function ChannelSlice(bank: Bank, samples: seq<int>, channels: nat, ch: nat, b: nat): (s: seq<int>) {
    var at := (b * channels + ch) * bank.bands;
    if at + bank.bands <= |samples| then samples[at..at + bank.bands] else []
  }

  /** What a frame plays, cell by cell: value `i` of block `b` of a channel is value `i` of the window
      routine over ten outputs. Output `t` back is the transform of the channel's own samples `t` blocks
      before, where the frame reaches back that far, else from the history, else silence. */
  lemma PlaysSlices(left: seq<int>, right: seq<int>, pcm: seq<int>, offset: nat, bank: Bank, stride: nat, samples: seq<int>,
                    channels: nat, ls: seq<seq<int>>, rs: seq<seq<int>>, blocks: nat, b: nat, ch: nat, i: nat)
    returns (w: seq<int>)
    requires FrameAt(left, right, pcm, offset, bank, stride, samples, channels, ls, rs, blocks)
    requires (stride == 1 || stride == 2) && channels <= stride && b < blocks && ch < channels && i < bank.bands
    ensures |w| == 80 && bank.Valid()
    ensures var cell := stride * (b * bank.bands + i) + ch; cell < |pcm| && pcm[cell] == bank.window(w)[i]
    ensures forall t :: 0 <= t <= b && t < 10 ==> Back(w, t) == bank.transform(ChannelSlice(bank, samples, channels, ch, b - t))
    ensures var past := if ch == 0 then ls else rs;
      forall t :: b < t < 10 ==> Back(w, t) == (if t - b <= |past| then past[|past| - (t - b)] else SILENCE)
  {
    hide *;
    FrameBounds(left, right, pcm, offset, bank, stride, samples, channels, ls, rs, blocks);
    var past := if ch == 0 then ls else rs;
    var buffer := if ch == 0 then left else right;
    ChannelOf(left, right, pcm, offset, bank, stride, samples, channels, ls, rs, blocks, ch);
    var news := Outputs(bank, samples, channels, ch, blocks);
    var outs := past + news;
    ChannelPlays(buffer, pcm, offset, bank, stride, samples, channels, ch, past, blocks);
    w := CellOf(pcm, bank, stride, channels, ch, outs, |past|, blocks, b, i);
    forall t | 0 <= t < 10
      ensures t <= b ==> Back(w, t) == bank.transform(ChannelSlice(bank, samples, channels, ch, b - t))
      ensures t > b ==> Back(w, t) == (if t - b <= |past| then past[|past| - (t - b)] else SILENCE)
    {
      if t <= b {
        assert outs[|past| + b - t] == news[b - t];
        OutputAt(bank, samples, channels, ch, blocks, b - t);
        SliceHere(bank, samples, channels, ch, b - t);
      }
    }
  }

  lemma SliceHere(bank: Bank, samples: seq<int>, channels: nat, ch: nat, b: nat)
    requires (b * channels + ch) * bank.bands + bank.bands <= |samples|
    ensures ChannelSlice(bank, samples, channels, ch, b)
         == samples[(b * channels + ch) * bank.bands..(b * channels + ch) * bank.bands + bank.bands]
  {
  }

  lemma FrameBounds(left: seq<int>, right: seq<int>, pcm: seq<int>, offset: nat, bank: Bank, stride: nat, samples: seq<int>,
                    channels: nat, ls: seq<seq<int>>, rs: seq<seq<int>>, blocks: nat)
    requires FrameAt(left, right, pcm, offset, bank, stride, samples, channels, ls, rs, blocks)
    ensures bank.Valid() && channels > 0 && InputStart(bank.bands, channels, blocks, 0) <= |samples|
    ensures (bank.bands == 4 || bank.bands == 8) && forall w :: |bank.window(w)| == bank.bands
  {
    hide Outputs, Showing, FramePlayed, InputStart;
  }

  lemma ChannelOf(left: seq<int>, right: seq<int>, pcm: seq<int>, offset: nat, bank: Bank, stride: nat, samples: seq<int>,
                  channels: nat, ls: seq<seq<int>>, rs: seq<seq<int>>, blocks: nat, ch: nat)
    requires FrameAt(left, right, pcm, offset, bank, stride, samples, channels, ls, rs, blocks)
    requires ch < channels <= 2
    ensures ChannelAt(if ch == 0 then left else right, pcm, offset, bank, stride, samples, channels, ch,
                      if ch == 0 then ls else rs, blocks)
  {
    hide ChannelAt;
  }

  lemma ChannelPlays(buffer: seq<int>, pcm: seq<int>, offset: nat, bank: Bank, stride: nat, samples: seq<int>,
                     channels: nat, ch: nat, past: seq<seq<int>>, blocks: nat)
    requires ChannelAt(buffer, pcm, offset, bank, stride, samples, channels, ch, past, blocks)
    ensures bank.Valid() && ch < channels && InputStart(bank.bands, channels, blocks, 0) <= |samples|
    ensures |Outputs(bank, samples, channels, ch, blocks)| == blocks
    ensures FramePlayed(pcm, bank, stride, channels, ch, past + Outputs(bank, samples, channels, ch, blocks), |past|, blocks)
  {
    hide FramePlayed, Showing;
  }

  lemma CellOf(pcm: seq<int>, bank: Bank, stride: nat, channels: nat, ch: nat, outs: seq<seq<int>>, past: nat, blocks: nat,
               b: nat, i: nat)
    returns (w: seq<int>)
    requires FramePlayed(pcm, bank, stride, channels, ch, outs, past, blocks) && bank.Valid()
    requires (stride == 1 || stride == 2) && channels <= stride && b < blocks && ch < channels && i < bank.bands
    ensures |w| == 80 && past + b < |outs|
    ensures var cell := stride * (b * bank.bands + i) + ch; cell < |pcm| && pcm[cell] == bank.window(w)[i]
    ensures forall t :: 0 <= t < 10 ==> Back(w, t) == (if t <= past + b then outs[past + b - t] else SILENCE)
  {
    hide Window, PcmStart, Back, InputStart;
    var upTo := outs[..past + b + 1];
    w := Window(upTo);
    var values := BlockPcm(bank, outs, past + b);
    assert KeptPlayed(pcm, PcmStart(bank.bands, stride, b), stride, channels, ch, values);
    PcmIs(bank.bands, stride, b, i);
    forall t | 0 <= t < 10 ensures Back(w, t) == if t <= past + b then outs[past + b - t] else SILENCE {
      WindowBack(upTo, t);
    }
  }

  lemma PcmIs(bands: nat, stride: nat, b: nat, i: nat)
    requires stride == 1 || stride == 2
    ensures PcmStart(bands, stride, b) + Strided(stride, i) == stride * (b * bands + i)
  {
  }

  /** The channels do not mix: two decoders with the same history of one channel, given samples that
      agree on that channel, play the same in all its cells, whatever the other channel carries. */
  lemma ChannelsApart(left: seq<int>, right: seq<int>, pcm: seq<int>, offset: nat, samples: seq<int>, ls: seq<seq<int>>,
                      rs: seq<seq<int>>,
                      left': seq<int>, right': seq<int>, pcm': seq<int>, offset': nat, samples': seq<int>,
                      ls': seq<seq<int>>, rs': seq<seq<int>>,
                      bank: Bank, blocks: nat, ch: nat, b: nat, i: nat)
    requires FrameAt(left, right, pcm, offset, bank, 2, samples, 2, ls, rs, blocks)
    requires FrameAt(left', right', pcm', offset', bank, 2, samples', 2, ls', rs', blocks)
    requires ch < 2 && b < blocks && i < bank.bands
    requires if ch == 0 then ls == ls' else rs == rs'
    requires |samples| == |samples'| && forall k :: 0 <= k < |samples| && k / bank.bands % 2 == ch ==> samples[k] == samples'[k]
    ensures var cell := 2 * (b * bank.bands + i) + ch; cell < |pcm| && cell < |pcm'| && pcm[cell] == pcm'[cell]
  {
    hide *;
    var w := PlaysSlices(left, right, pcm, offset, bank, 2, samples, 2, ls, rs, blocks, b, ch, i);
    var w' := PlaysSlices(left', right', pcm', offset', bank, 2, samples', 2, ls', rs', blocks, b, ch, i);
    forall t | 0 <= t < 10 ensures Back(w, t) == Back(w', t) {
      if t <= b {
        SameSlice(bank, samples, samples', ch, b - t);
      }
    }
    EqualBacks(w, w');
  }

  lemma SameSlice(bank: Bank, samples: seq<int>, samples': seq<int>, ch: nat, b: nat)
    requires ch < 2 && bank.bands > 0 && |samples| == |samples'|
    requires forall k :: 0 <= k < |samples| && k / bank.bands % 2 == ch ==> samples[k] == samples'[k]
    ensures ChannelSlice(bank, samples, 2, ch, b) == ChannelSlice(bank, samples', 2, ch, b)
  {
    var at := (b * 2 + ch) * bank.bands;
    if at + bank.bands <= |samples| {
      forall k | at <= k < at + bank.bands ensures samples[k] == samples'[k] {
        CellChannel(bank.bands, b, ch, at, k);
      }
      assert samples[at..at + bank.bands] == samples'[at..at + bank.bands];
    }
  }

  lemma CellChannel(bands: nat, b: nat, ch: nat, at: nat, k: nat)
    requires bands > 0 && ch < 2 && at == (b * 2 + ch) * bands && at <= k < at + bands
    ensures k / bands % 2 == ch
  {
    assert at == bands * (b * 2 + ch);
    ModUnique(k, bands, b * 2 + ch, k - at);
  }

  lemma EqualBacks(w: seq<int>, w': seq<int>)
    requires |w| == |w'| == 80
    requires forall t :: 0 <= t < 10 ==> Back(w, t) == Back(w', t)
    ensures w == w'
  {
    forall j | 0 <= j < 80 ensures w[j] == w'[j] {
      assert Back(w, j / 8)[j % 8] == w[j] && Back(w', j / 8)[j % 8] == w'[j];
    }
  }

  /** Outputs of the 4-band cosine modulation. */
  ghost predicate Modulated(outs: seq<seq<int>>) {
    forall i :: 0 <= i < |outs| ==> |outs[i]| == 8 && outs[i][2] == 0
  }

  lemma {:induction false} OutputsModulated(bank: Bank, samples: seq<int>, channels: nat, ch: nat, blocks: nat)
    requires bank.Valid() && bank.bands == 4 && ch < channels
    requires InputStart(bank.bands, channels, blocks, 0) <= |samples|
    ensures Modulated(Outputs(bank, samples, channels, ch, blocks))
  {
    hide InputStart, OutputOf;
    if blocks > 0 {
      InputOrder(bank.bands, channels, blocks - 1, blocks);
      OutputsModulated(bank, samples, channels, ch, blocks - 1);
      OutputModulated(bank, samples, channels, blocks - 1, ch);
    }
  }

  lemma OutputModulated(bank: Bank, samples: seq<int>, channels: nat, blk: nat, ch: nat)
    requires bank.Valid() && bank.bands == 4 && ch < channels
    requires InputStart(bank.bands, channels, blk + 1, 0) <= |samples|
    ensures OutputOf(bank, samples, channels, blk, ch)[2] == 0
  {
    hide InputStart;
    InputFits(bank.bands, channels, blk, ch);
    var x := samples[InputStart(bank.bands, channels, blk, ch)..InputStart(bank.bands, channels, blk, ch) + bank.bands];
    assert bank.transform(x)[2] == 0;
  }

  const DEC_WINDOW_4: seq<int> := [
    0, 97, 270, 495, 694, 704, 338, -554, 1974, 3697, 5224, 5824, 4681, 1109, -5214, -14047, 24529, 35274, 44618, 50984, 53243]

  /** The sum behind pcm[2] of SynthWindow40_int32_int32_symmetry_with_sum, without the taps it drops. */
  function ThirdSum(w: seq<int>): int
    requires |w| == 80
  {
    DEC_WINDOW_4[2] * w[78] + DEC_WINDOW_4[6] * w[14] + DEC_WINDOW_4[10] * w[62] + DEC_WINDOW_4[14] * w[30] + DEC_WINDOW_4[18] * w[46]
  }

  /** The same sum with all taps. */
  function FullThirdSum(w: seq<int>): int
    requires |w| == 80
  {
    DEC_WINDOW_4[2] * (w[2] + w[78]) + DEC_WINDOW_4[6] * (w[14] + w[66]) + DEC_WINDOW_4[10] * (w[18] + w[62])
    + DEC_WINDOW_4[14] * (w[30] + w[50]) + DEC_WINDOW_4[18] * (w[34] + w[46])
  }

  /** The ten values the window routine asserts to be zero are zero, so dropping their taps changes nothing. */
  lemma DroppedTaps(outs: seq<seq<int>>)
    requires Modulated(outs)
    ensures Eights(outs)
    ensures forall j :: 0 <= j < 10 ==> Window(outs)[8 * j + 2] == 0
    ensures ThirdSum(Window(outs)) == FullThirdSum(Window(outs))
  {
    var w := Window(outs);
    forall j | 0 <= j < 10 ensures w[8 * j + 2] == 0 {
      assert (8 * j + 2) / 8 == j && (8 * j + 2) % 8 == 2;
      assert w[8 * j + 2] == WindowCell(outs, 8 * j + 2);
    }
    assert w[8 * 0 + 2] == 0 && w[8 * 8 + 2] == 0 && w[8 * 2 + 2] == 0 && w[8 * 6 + 2] == 0 && w[8 * 4 + 2] == 0;
  }

  /** Any 80 values are the window over some history. */
  ghost function HistoryFor(w: seq<int>): (outs: seq<seq<int>>)
    requires |w| == 80
    ensures Eights(outs) && Window(outs) == w
  {
    var outs := seq(10, i requires 0 <= i < 10 => w[8 * (9 - i)..8 * (9 - i) + 8]);
    assert forall j :: 0 <= j < 80 ==> WindowCell(outs, j) == w[j] by {
      forall j | 0 <= j < 80 ensures WindowCell(outs, j) == w[j] {
        assert 9 - (9 - j / 8) == j / 8 && 8 * (j / 8) + j % 8 == j;
      }
    }
    assert Window(outs) == w;
    outs
  }

  // ---- memory for the buffers ----

  datatype BufferLayout = BadParameters | TooSmall | Laid(subdataSize: nat, filterBufferLen: nat)

  /** OI_CODEC_SBC_Alloc: samples of four bytes first, then one buffer of half words per channel. */
  function Alloc(codecDataBytes: nat, maxChannels: nat, pcmStride: nat): BufferLayout {
    if maxChannels < 1 || maxChannels > 2 || pcmStride < 1 || pcmStride > maxChannels then BadParameters
    else
      var subdataSize := maxChannels * 4 * 8 * 16;
      if subdataSize > codecDataBytes then TooSmall
      else
        var filterBufferCount := (codecDataBytes - subdataSize) / (2 * 8 * maxChannels);
        if filterBufferCount < 16 then TooSmall else Laid(subdataSize, filterBufferCount * 8)
  }

  /** Every layout serves the synthesis filter and stays inside the memory it was given. */
  lemma AllocFits(codecDataBytes: nat, maxChannels: nat, pcmStride: nat)
    ensures var a := Alloc(codecDataBytes, maxChannels, pcmStride);
      a.Laid? ==> a.filterBufferLen % 8 == 0 && a.filterBufferLen >= 128 && a.subdataSize + maxChannels * (2 * a.filterBufferLen) <= codecDataBytes
    ensures Alloc(codecDataBytes, maxChannels, pcmStride).Laid? <==>
      1 <= pcmStride <= maxChannels <= 2 && codecDataBytes >= maxChannels * (512 + 256)
  {
  }

  /** What SbcDecoder asks for: CODEC_DATA_WORDS(2, 27) words. */
  lemma DecoderMemory(pcmStride: nat)
    requires 1 <= pcmStride <= 2
    ensures var words := (4 * 16 * 2 * 8 + 2 * 2 * 8 * 27 + 3) / 4;
      Alloc(4 * words, 2, pcmStride) == Laid(1024, 216)
  {
  }
}
