/** The encoder's analysis buffer: one array of 224 samples for all channels, read through a
    moving offset, that stands for a plain shift register of the last ten blocks per channel. */
module AnalysisWindow {
  import opened BlockLayout

  const ENC_VX_BUFFER_SIZE: nat := 224

  /** The `i`th most recent sample, 0 before the first. */
  function Recent(xs: seq<int>, i: nat): int {
    if i < |xs| then xs[|xs| - 1 - i] else 0
  }

  /** EncMaxShiftCounter, as SBC_Encoder_Init sets it. */
  function MaxShift(bands: nat, channels: nat): nat
    requires (bands == 4 || bands == 8) && (channels == 1 || channels == 2)
  {
    if bands == 4 then
      if channels == 1 then (ENC_VX_BUFFER_SIZE - 4 * 10) / 4 * 4 else (ENC_VX_BUFFER_SIZE - 4 * 10 * 2) / 8 * 4
    else
      if channels == 1 then (ENC_VX_BUFFER_SIZE - 8 * 10) / 8 * 8 else (ENC_VX_BUFFER_SIZE - 8 * 10 * 2) / 16 * 8
  }

  /** The windows of all channels fill the buffer exactly. */
  lemma Layout(bands: nat, channels: nat)
    requires (bands == 4 || bands == 8) && (channels == 1 || channels == 2)
    ensures MaxShift(bands, channels) % bands == 0 && MaxShift(bands, channels) >= bands
    ensures (if channels == 1 then MaxShift(bands, channels) + 10 * bands else 2 * (MaxShift(bands, channels) + 10 * bands)) == ENC_VX_BUFFER_SIZE
  {
  }

  // ---- one channel ----

  /** Its window holds the last ten blocks, newest sample first. */
  ghost predicate Full(x: seq<int>, at: nat, bands: nat, xs: seq<int>) {
    at + 10 * bands <= |x| && forall j :: at <= j < at + 10 * bands ==> x[j] == Recent(xs, j - at)
  }

  /** Room for a block in front of nine blocks of history. */
  ghost predicate Open(x: seq<int>, at: nat, bands: nat, xs: seq<int>) {
    at + 10 * bands <= |x| && forall j :: at + bands <= j < at + 10 * bands ==> x[j] == Recent(xs, j - at - bands)
  }

  lemma Filled(before: seq<int>, after: seq<int>, at: nat, bands: nat, xs: seq<int>, news: seq<int>)
    requires Open(before, at, bands, xs) && |after| == |before| && |news| == bands
    requires forall j :: at <= j < at + bands ==> after[j] == news[bands - 1 - (j - at)]
    requires forall j :: at + bands <= j < at + 10 * bands ==> after[j] == before[j]
    ensures Full(after, at, bands, xs + news)
  {
    forall j | at <= j < at + 10 * bands ensures after[j] == Recent(xs + news, j - at) {
      if j < at + bands {
        assert after[j] == news[bands - 1 - (j - at)];
      }
    }
  }

  /** Moving the window down by a block opens it for the next one. */
  lemma MovesDown(x: seq<int>, at: nat, bands: nat, xs: seq<int>)
    requires Full(x, at, bands, xs) && at >= bands
    ensures Open(x, at - bands, bands, xs)
  {
  }

  // ---- the buffer ----

  /** The analysis transform of one number of subbands, whose numerics are not part of the model. */
  type Analysis = seq<int> -> seq<int>

  class AnalysisBuffer {
    const bands: nat
    const channels: nat
    const s16X: array<int>
    var shiftCounter: nat

    /** SBC_Encoder_Init and SbcAnalysisInit. */
    constructor (bands: nat, channels: nat)
      requires (bands == 4 || bands == 8) && (channels == 1 || channels == 2)
      ensures Valid() && fresh(s16X) && this.bands == bands && this.channels == channels
      ensures forall ch :: 0 <= ch < channels ==> Waits(ch, [])
    {
      this.bands := bands;
      this.channels := channels;
      s16X := new int[ENC_VX_BUFFER_SIZE](_ => 0);
      shiftCounter := 0;
    }

    ghost predicate Valid()
      reads `shiftCounter
    {
      && (bands == 4 || bands == 8) && (channels == 1 || channels == 2) && s16X.Length == ENC_VX_BUFFER_SIZE
      && shiftCounter % bands == 0 && shiftCounter <= Max()
    }

    function Max(): nat
      requires (bands == 4 || bands == 8) && (channels == 1 || channels == 2)
    {
      MaxShift(bands, channels)
    }

    /** Where the window of a channel starts. */
    function At(ch: nat): nat
      requires (bands == 4 || bands == 8) && (channels == 1 || channels == 2) && shiftCounter <= Max()
      reads `shiftCounter
    {
      (if ch == 0 then 0 else Max() + 10 * bands) + (Max() - shiftCounter)
    }

    /** A channel that has seen `xs` waits for its next block. */
    ghost predicate Waits(ch: nat, xs: seq<int>)
      requires (bands == 4 || bands == 8) && (channels == 1 || channels == 2) && shiftCounter <= Max()
      reads `shiftCounter, s16X
    {
      Open(s16X[..], At(ch), bands, xs)
    }
  }

  /** The samples of one channel in interleaved PCM. */
  function Deal(pcm: seq<int>, channels: nat, ch: nat, count: nat): (xs: seq<int>)
    requires (channels == 1 || channels == 2) && ch < channels && count * channels <= |pcm|
    ensures |xs| == count
  {
    seq(count, k requires 0 <= k < count => pcm[if channels == 1 then k else 2 * k + ch])
  }

  /** "Store new samples": newest sample at the lowest address, channels in turn. */
  method StoreSamples(s16X: array<int>, pcm: seq<int>, bands: nat, channels: nat, offset: nat, offset2: nat)
    requires (channels == 1 || channels == 2) && |pcm| == bands * channels && bands > 0
    requires offset + bands <= offset2 && (channels == 2 ==> offset2 + offset + bands <= s16X.Length)
    requires offset + bands <= s16X.Length
    modifies s16X
    ensures forall j :: offset <= j < offset + bands ==> s16X[j] == Deal(pcm, channels, 0, bands)[bands - 1 - (j - offset)]
    ensures channels == 2 ==> forall j :: offset2 + offset <= j < offset2 + offset + bands ==>
      s16X[j] == Deal(pcm, channels, 1, bands)[bands - 1 - (j - offset2 - offset)]
    ensures forall j :: 0 <= j < s16X.Length ==> Written(j, offset, offset2, bands, channels) || s16X[j] == old(s16X[j])
  {
    var k, at := 0, 0;
    while k < bands
      invariant k <= bands && at == if channels == 1 then k else 2 * k
      invariant forall j :: offset + bands - k <= j < offset + bands ==> s16X[j] == Deal(pcm, channels, 0, bands)[bands - 1 - (j - offset)]
      invariant channels == 2 ==> forall j :: offset2 + offset + bands - k <= j < offset2 + offset + bands ==>
        s16X[j] == Deal(pcm, channels, 1, bands)[bands - 1 - (j - offset2 - offset)]
      invariant forall j :: 0 <= j < s16X.Length ==> Written(j, offset, offset2, bands, channels) || s16X[j] == old(s16X[j])
    {
      s16X[bands - 1 - k + offset] := pcm[at];
      at := at + 1;
      if channels == 2 {
        s16X[offset2 + (bands - 1 - k) + offset] := pcm[at];
        at := at + 1;
      }
      k := k + 1;
    }
  }

  /** The cells of a new block. */
  predicate Written(j: nat, offset: nat, offset2: nat, bands: nat, channels: nat) {
    offset <= j < offset + bands || (channels == 2 && offset2 + offset <= j < offset2 + offset + bands)
  }

  /** One channel's cells, starting at `base`, while its history moves up by `lift`: everything from
      cell `n` on has moved. */
  ghost predicate Shifted(x: seq<int>, before: seq<int>, base: nat, lift: nat, n: nat, all: nat) {
    && |x| == |before| && n <= all && base + lift + all <= |x|
    && (forall j :: base + lift + n <= j < base + lift + all ==> x[j] == before[j - lift])
    && forall j :: base <= j < base + lift + n ==> x[j] == before[j]
  }

  /** What has moved up is the history behind the next block. */
  lemma MovesUp(before: seq<int>, after: seq<int>, base: nat, max: nat, bands: nat, xs: seq<int>)
    requires Full(before, base, bands, xs) && Shifted(after, before, base, max + bands, 0, 9 * bands)
    ensures Open(after, base + max, bands, xs)
  {
    assert base + (max + bands) + 9 * bands == base + max + 10 * bands;
  }

  lemma ShiftedNext(x: seq<int>, after: seq<int>, before: seq<int>, base: nat, lift: nat, n: nat, all: nat)
    requires Shifted(x, before, base, lift, n + 2, all) && lift >= 2
    requires after == x[base + lift + n := x[base + n]][base + lift + n + 1 := x[base + n + 1]]
    ensures Shifted(after, before, base, lift, n, all)
  {
    assert x[base + n] == before[base + n] && x[base + n + 1] == before[base + n + 1];
  }

  lemma ShiftedRoom(x: seq<int>, before: seq<int>, base: nat, lift: nat, n: nat, all: nat)
    requires Shifted(x, before, base, lift, n, all)
    ensures n <= all && base + lift + all <= |x|
  {
  }

  lemma ShiftedKept(x: seq<int>, after: seq<int>, before: seq<int>, base: nat, lift: nat, n: nat, all: nat, to: nat,
                    a: int, b: int)
    requires Shifted(x, before, base, lift, n, all) && to + 2 <= |x| && after == x[to := a][to + 1 := b]
    requires to + 2 <= base || base + lift + all <= to
    ensures Shifted(after, before, base, lift, n, all)
  {
  }

  /** SHIFTUP_X4, SHIFTUP_X8 and their two-channel forms: nine blocks of history move up word by
      word, from the top down, both channels in turn. */
  method ShiftUp(s16X: array<int>, bands: nat, channels: nat, max: nat, offset2: nat)
    requires (bands == 4 || bands == 8) && (channels == 1 || channels == 2) && offset2 == max + 10 * bands
    requires max + 10 * bands <= s16X.Length && (channels == 2 ==> offset2 + max + 10 * bands <= s16X.Length)
    modifies s16X
    ensures Shifted(s16X[..], old(s16X[..]), 0, max + bands, 0, 9 * bands)
    ensures channels == 2 ==> Shifted(s16X[..], old(s16X[..]), offset2, max + bands, 0, 9 * bands)
  {
    ghost var before := s16X[..];
    var n := 9 * bands;
    while n > 0
      invariant 0 <= n <= 9 * bands && n % 2 == 0
      invariant Shifted(s16X[..], before, 0, max + bands, n, 9 * bands)
      invariant channels == 2 ==> Shifted(s16X[..], before, offset2, max + bands, n, 9 * bands)
    {
      n := n - 2;
      ShiftWord(s16X, before, 0, offset2, bands, max, n, channels, n + 2);
      if channels == 2 {
        ShiftWord(s16X, before, offset2, 0, bands, max, n, channels, n);
      }
    }
  }

  /** One word of one channel; the other channel's cells lie elsewhere. */
  method ShiftWord(s16X: array<int>, ghost before: seq<int>, base: nat, ghost other: nat, bands: nat, max: nat, n: nat,
                   ghost channels: nat, ghost otherN: nat)
    requires (bands == 4 || bands == 8)
    requires ((base == 0 && other == max + 10 * bands) || (other == 0 && base == max + 10 * bands))
    requires Shifted(s16X[..], before, base, max + bands, n + 2, 9 * bands)
    requires channels == 2 ==> Shifted(s16X[..], before, other, max + bands, otherN, 9 * bands)
    modifies s16X
    ensures Shifted(s16X[..], before, base, max + bands, n, 9 * bands)
    ensures channels == 2 ==> Shifted(s16X[..], before, other, max + bands, otherN, 9 * bands)
  {
    hide *;
    ghost var x := s16X[..];
    ShiftedRoom(x, before, base, max + bands, n + 2, 9 * bands);
    CopyWord(s16X, base + max + bands + n, base + n);
    ShiftedNext(x, s16X[..], before, base, max + bands, n, 9 * bands);
    if channels == 2 {
      ShiftedRoom(x, before, other, max + bands, otherN, 9 * bands);
      ShiftedKept(x, s16X[..], before, other, max + bands, otherN, 9 * bands, base + max + bands + n, x[base + n], x[base + n + 1]);
    }
  }

  /** `*to = *from` on words of two samples. */
  method CopyWord(s16X: array<int>, to: nat, from: nat)
    requires to + 2 <= s16X.Length && from + 2 <= s16X.Length
    modifies s16X
    ensures s16X[..] == old(s16X[..])[to := old(s16X[from])][to + 1 := old(s16X[from + 1])]
  {
    var a, b := s16X[from], s16X[from + 1];
    s16X[to], s16X[to + 1] := a, b;
  }

  /** What the transform sees for a channel that has received `xs`. */
  ghost function Seen(xs: seq<int>, bands: nat): (w: seq<int>)
    ensures |w| == 10 * bands
  {
    seq(10 * bands, i requires 0 <= i < 10 * bands => Recent(xs, i))
  }

  lemma FullSeen(x: seq<int>, at: nat, bands: nat, xs: seq<int>)
    requires Full(x, at, bands, xs)
    ensures at + 10 * bands <= |x| && x[at..at + 10 * bands] == Seen(xs, bands)
  {
  }

  // ---- one block ----

  ghost predicate Regular(analyse: Analysis, bands: nat) {
    forall w :: |analyse(w)| == bands
  }

  /** The subband samples that belong to a channel that has received `xs`. */
  ghost function Analysed(analyse: Analysis, xs: seq<int>, bands: nat): seq<int> {
    analyse(Seen(xs, bands))
  }

  /** Where the window of a channel starts when the newest block lies at `offset`. */
  function Base(bands: nat, channels: nat, ch: nat): nat
    requires (bands == 4 || bands == 8) && (channels == 1 || channels == 2)
  {
    if ch == 0 then 0 else MaxShift(bands, channels) + 10 * bands
  }

  /** The new samples complete the windows of all channels. */
  method StoreBlock(buf: AnalysisBuffer, pcm: seq<int>, ghost ls: seq<int>, ghost rs: seq<int>) returns (offset: nat)
    requires buf.Valid() && |pcm| == buf.bands * buf.channels
    requires buf.Waits(0, ls) && (buf.channels == 2 ==> buf.Waits(1, rs))
    modifies buf.s16X
    ensures offset == buf.Max() - buf.shiftCounter
    ensures Full(buf.s16X[..], offset, buf.bands, ls + Deal(pcm, buf.channels, 0, buf.bands))
    ensures buf.channels == 2 ==> Full(buf.s16X[..], Base(buf.bands, 2, 1) + offset, buf.bands, rs + Deal(pcm, 2, 1, buf.bands))
  {
    var bands, channels, max := buf.bands, buf.channels, buf.Max();
    Layout(bands, channels);
    var offset2 := max + 10 * bands;
    offset := max - buf.shiftCounter;
    ghost var before := buf.s16X[..];
    hide MaxShift, Recent, Open, Full, Deal;
    StoreSamples(buf.s16X, pcm, bands, channels, offset, offset2);
    Filled(before, buf.s16X[..], offset, bands, ls, Deal(pcm, channels, 0, bands));
    if channels == 2 {
      Filled(before, buf.s16X[..], offset2 + offset, bands, rs, Deal(pcm, channels, 1, bands));
    }
  }

  /** The window moves: down by a block, or from the bottom back to the top. */
  method Advance(buf: AnalysisBuffer, offset: nat, ghost ls: seq<int>, ghost rs: seq<int>)
    requires buf.Valid() && offset == buf.Max() - buf.shiftCounter && Full(buf.s16X[..], offset, buf.bands, ls)
    requires buf.channels == 2 ==> Full(buf.s16X[..], Base(buf.bands, 2, 1) + offset, buf.bands, rs)
    modifies buf`shiftCounter, buf.s16X
    ensures buf.Valid() && buf.Waits(0, ls) && (buf.channels == 2 ==> buf.Waits(1, rs))
  {
    if buf.shiftCounter >= buf.Max() {
      MoveToTop(buf, ls, rs);
    } else {
      Layout(buf.bands, buf.channels);
      StepDown(buf.shiftCounter, buf.Max(), buf.bands);
      MovesDown(buf.s16X[..], offset, buf.bands, ls);
      if buf.channels == 2 {
        MovesDown(buf.s16X[..], Base(buf.bands, 2, 1) + offset, buf.bands, rs);
      }
      hide MaxShift, Recent, Open, Full;
      buf.shiftCounter := buf.shiftCounter + buf.bands;
    }
  }

  /** The history of the lowest window is copied behind the highest one. */
  method MoveToTop(buf: AnalysisBuffer, ghost ls: seq<int>, ghost rs: seq<int>)
    requires buf.Valid() && buf.shiftCounter == buf.Max() && Full(buf.s16X[..], 0, buf.bands, ls)
    requires buf.channels == 2 ==> Full(buf.s16X[..], Base(buf.bands, 2, 1), buf.bands, rs)
    modifies buf`shiftCounter, buf.s16X
    ensures buf.Valid() && buf.Waits(0, ls) && (buf.channels == 2 ==> buf.Waits(1, rs))
  {
    var bands, channels, max := buf.bands, buf.channels, buf.Max();
    Layout(bands, channels);
    ghost var before := buf.s16X[..];
    hide MaxShift, Recent, Open, Full, Shifted;
    ShiftUp(buf.s16X, bands, channels, max, max + 10 * bands);
    MovesUp(before, buf.s16X[..], 0, max, bands, ls);
    if channels == 2 {
      MovesUp(before, buf.s16X[..], max + 10 * bands, max, bands, rs);
    }
    buf.shiftCounter := 0;
  }

  lemma StepDown(shiftCounter: nat, max: nat, bands: nat)
    requires (bands == 4 || bands == 8) && shiftCounter < max && shiftCounter % bands == 0 && max % bands == 0
    ensures shiftCounter + bands <= max && (shiftCounter + bands) % bands == 0
  {
  }

  /** One channel is transformed. */
  method Transform(s16X: seq<int>, chOffset: nat, bands: nat, analyse: Analysis, sbBuffer: array<int>, at: nat,
                   ghost xs: seq<int>)
    requires Regular(analyse, bands) && Full(s16X, chOffset, bands, xs) && at + bands <= sbBuffer.Length
    modifies sbBuffer
    ensures sbBuffer[at..at + bands] == Analysed(analyse, xs, bands)
    ensures sbBuffer[..at] == old(sbBuffer[..at]) && sbBuffer[at + bands..] == old(sbBuffer[at + bands..])
  {
    FullSeen(s16X, chOffset, bands, xs);
    hide Seen, Full;
    WriteOutput(sbBuffer, at, analyse(s16X[chOffset..chOffset + 10 * bands]));
  }

  /** Store the block, transform each channel, move the window. */
  method AnalyseBlock(buf: AnalysisBuffer, analyse: Analysis, pcm: seq<int>, sbBuffer: array<int>, at: nat,
                      ghost ls: seq<int>, ghost rs: seq<int>)
    requires buf.Valid() && Regular(analyse, buf.bands) && sbBuffer != buf.s16X
    requires |pcm| == buf.bands * buf.channels && at + |pcm| <= sbBuffer.Length
    requires buf.Waits(0, ls) && (buf.channels == 2 ==> buf.Waits(1, rs))
    modifies buf`shiftCounter, buf.s16X, sbBuffer
    ensures buf.Valid()
    ensures buf.Waits(0, ls + Deal(pcm, buf.channels, 0, buf.bands))
    ensures sbBuffer[at..at + buf.bands] == Analysed(analyse, ls + Deal(pcm, buf.channels, 0, buf.bands), buf.bands)
    ensures buf.channels == 2 ==> buf.Waits(1, rs + Deal(pcm, 2, 1, buf.bands))
    ensures buf.channels == 2 ==> sbBuffer[at + buf.bands..at + 2 * buf.bands] == Analysed(analyse, rs + Deal(pcm, 2, 1, buf.bands), buf.bands)
    ensures sbBuffer[..at] == old(sbBuffer[..at])
  {
    hide *;
    BufferShape(buf);
    var bands := buf.bands;
    var offset := StoreBlock(buf, pcm, ls, rs);
    ghost var ls' := ls + Deal(pcm, buf.channels, 0, bands);
    ghost var rs' := if buf.channels == 2 then rs + Deal(pcm, 2, 1, bands) else rs;
    BufferShape(buf);
    Transform(buf.s16X[..], offset, bands, analyse, sbBuffer, at, ls');
    if buf.channels == 2 {
      ghost var first := sbBuffer[..at + bands];
      Transform(buf.s16X[..], Base(bands, 2, 1) + offset, bands, analyse, sbBuffer, at + bands, rs');
      assert sbBuffer[at..at + bands] == first[at..];
      assert sbBuffer[..at] == first[..at];
    }
    Advance(buf, offset, ls', rs');
  }

  lemma BufferShape(buf: AnalysisBuffer)
    requires buf.Valid()
    ensures (buf.bands == 4 || buf.bands == 8) && (buf.channels == 1 || buf.channels == 2)
    ensures buf.bands * buf.channels == if buf.channels == 2 then 2 * buf.bands else buf.bands
  {
  }

  /** The end of SBC_FastIDCT4 and SBC_FastIDCT8. */
  method WriteOutput(sbBuffer: array<int>, at: nat, out: seq<int>)
    requires at + |out| <= sbBuffer.Length
    modifies sbBuffer
    ensures sbBuffer[..] == old(sbBuffer[..at]) + out + old(sbBuffer[at + |out|..])
  {
    forall i | 0 <= i < |out| {
      sbBuffer[at + i] := out[i];
    }
  }

  // ---- one frame ----

  /** Samples per channel in `blk` blocks. */
  function Count(bands: nat, blk: nat): nat {
    blk * bands
  }

  lemma CountNext(bands: nat, channels: nat, blk: nat)
    requires channels == 1 || channels == 2
    ensures Count(bands, 0) == 0 && Count(bands, blk + 1) == Count(bands, blk) + bands
    ensures InputStart(bands, channels, blk, 0) == Count(bands, blk) * channels
  {
  }

  /** The samples a channel has received after `blk` blocks of a frame. */
  ghost function Received(past: seq<int>, pcm: seq<int>, bands: nat, channels: nat, ch: nat, blk: nat): seq<int>
    requires (channels == 1 || channels == 2) && ch < channels && InputStart(bands, channels, blk, 0) <= |pcm|
  {
    CountNext(bands, channels, blk);
    past + Deal(pcm, channels, ch, Count(bands, blk))
  }

  /** The PCM of one block. */
  ghost function BlockOf(pcm: seq<int>, bands: nat, channels: nat, blk: nat): (block: seq<int>)
    requires InputStart(bands, channels, blk + 1, 0) <= |pcm|
    ensures |block| == BlockSamples(bands, channels)
  {
    InputBlock(bands, channels, blk);
    pcm[InputStart(bands, channels, blk, 0)..InputStart(bands, channels, blk + 1, 0)]
  }

  lemma ReceivedNext(past: seq<int>, pcm: seq<int>, bands: nat, channels: nat, ch: nat, blk: nat)
    requires (channels == 1 || channels == 2) && ch < channels && InputStart(bands, channels, blk + 1, 0) <= |pcm|
    ensures InputStart(bands, channels, blk, 0) <= |pcm| && |BlockOf(pcm, bands, channels, blk)| == bands * channels
    ensures Received(past, pcm, bands, channels, ch, blk + 1)
         == Received(past, pcm, bands, channels, ch, blk) + Deal(BlockOf(pcm, bands, channels, blk), channels, ch, bands)
  {
    InputOrder(bands, channels, blk, blk + 1);
    InputBlock(bands, channels, blk);
    CountNext(bands, channels, blk);
    CountNext(bands, channels, blk + 1);
    assert BlockSamples(bands, channels) == bands * channels;
    hide InputStart, Count;
    var a, b := Deal(pcm, channels, ch, Count(bands, blk)), Deal(BlockOf(pcm, bands, channels, blk), channels, ch, bands);
    assert Deal(pcm, channels, ch, Count(bands, blk + 1)) == a + b;
    assert past + (a + b) == past + a + b;
  }

  /** One channel's subband samples of the first `blk` blocks: each block is the transform of the
      last ten blocks the channel had received by then. */
  ghost predicate Filtered(sb: seq<int>, analyse: Analysis, past: seq<int>, pcm: seq<int>, bands: nat, channels: nat,
                           ch: nat, blk: nat) {
    && (channels == 1 || channels == 2) && ch < channels && InputStart(bands, channels, blk, 0) <= |pcm|
    && forall b :: 0 <= b < blk ==> BlockFiltered(sb, analyse, past, pcm, bands, channels, ch, b)
  }

  ghost predicate BlockFiltered(sb: seq<int>, analyse: Analysis, past: seq<int>, pcm: seq<int>, bands: nat,
                                channels: nat, ch: nat, b: nat)
    requires (channels == 1 || channels == 2) && ch < channels
  {
    var at := InputStart(bands, channels, b, ch);
    && at + bands <= |sb| && InputStart(bands, channels, b + 1, 0) <= |pcm|
    && sb[at..at + bands] == Analysed(analyse, Received(past, pcm, bands, channels, ch, b + 1), bands)
  }

  /** Later blocks do not touch earlier ones. */
  lemma FilteredNext(before: seq<int>, after: seq<int>, analyse: Analysis, past: seq<int>, pcm: seq<int>, bands: nat,
                     channels: nat, ch: nat, blk: nat)
    requires Filtered(before, analyse, past, pcm, bands, channels, ch, blk)
    requires InputStart(bands, channels, blk + 1, 0) <= |pcm|
    requires |after| == |before| && InputStart(bands, channels, blk, 0) <= |after|
    requires after[..InputStart(bands, channels, blk, 0)] == before[..InputStart(bands, channels, blk, 0)]
    requires BlockFiltered(after, analyse, past, pcm, bands, channels, ch, blk)
    ensures Filtered(after, analyse, past, pcm, bands, channels, ch, blk + 1)
  {
    hide InputStart, Analysed, Received;
    forall b | 0 <= b < blk + 1 ensures BlockFiltered(after, analyse, past, pcm, bands, channels, ch, b) {
      if b < blk {
        assert BlockFiltered(before, analyse, past, pcm, bands, channels, ch, b);
        InputFits(bands, channels, b, ch);
        InputOrder(bands, channels, b + 1, blk);
        var at, end := InputStart(bands, channels, b, ch), InputStart(bands, channels, blk, 0);
        assert after[at..at + bands] == after[..end][at..at + bands] == before[..end][at..at + bands] == before[at..at + bands];
      }
    }
  }

  /** Everything known about the channels after `blk` blocks. */
  ghost predicate FilteredAll(sb: seq<int>, analyse: Analysis, ls: seq<int>, rs: seq<int>, pcm: seq<int>, bands: nat,
                              channels: nat, blk: nat) {
    && Filtered(sb, analyse, ls, pcm, bands, channels, 0, blk)
    && (channels == 2 ==> Filtered(sb, analyse, rs, pcm, bands, channels, 1, blk))
  }

  ghost predicate Waiting(buf: AnalysisBuffer, ls: seq<int>, rs: seq<int>, pcm: seq<int>, blk: nat)
    reads buf`shiftCounter, buf.s16X
  {
    && buf.Valid() && InputStart(buf.bands, buf.channels, blk, 0) <= |pcm|
    && buf.Waits(0, Received(ls, pcm, buf.bands, buf.channels, 0, blk))
    && (buf.channels == 2 ==> buf.Waits(1, Received(rs, pcm, buf.bands, buf.channels, 1, blk)))
  }

  /** SbcAnalysisFilter4 and SbcAnalysisFilter8. */
  method AnalysisFilter(buf: AnalysisBuffer, analyse: Analysis, pcm: seq<int>, blocks: nat, sbBuffer: array<int>,
                        ghost ls: seq<int>, ghost rs: seq<int>)
    requires buf.Valid() && Regular(analyse, buf.bands) && sbBuffer != buf.s16X
    requires buf.Waits(0, ls) && (buf.channels == 2 ==> buf.Waits(1, rs))
    requires InputStart(buf.bands, buf.channels, blocks, 0) <= |pcm|
    requires InputStart(buf.bands, buf.channels, blocks, 0) <= sbBuffer.Length
    modifies buf`shiftCounter, buf.s16X, sbBuffer
    ensures Waiting(buf, ls, rs, pcm, blocks)
    ensures FilteredAll(sbBuffer[..], analyse, ls, rs, pcm, buf.bands, buf.channels, blocks)
  {
    hide *;
    BufferShape(buf);
    FilterStart(buf, analyse, pcm, sbBuffer[..], ls, rs);
    InputOrder(buf.bands, buf.channels, 0, blocks);
    var blk, at := 0, 0;
    while blk < blocks
      invariant blk <= blocks && at == InputStart(buf.bands, buf.channels, blk, 0)
      invariant Waiting(buf, ls, rs, pcm, blk)
      invariant FilteredAll(sbBuffer[..], analyse, ls, rs, pcm, buf.bands, buf.channels, blk)
    {
      InputOrder(buf.bands, buf.channels, blk + 1, blocks);
      InputBlock(buf.bands, buf.channels, blk);
      FilterBlock(buf, analyse, pcm, blk, sbBuffer, at, ls, rs);
      at := at + BlockSamples(buf.bands, buf.channels);
      blk := blk + 1;
    }
  }

  lemma FilterStart(buf: AnalysisBuffer, analyse: Analysis, pcm: seq<int>, sb: seq<int>, ls: seq<int>, rs: seq<int>)
    requires buf.Valid() && buf.Waits(0, ls) && (buf.channels == 2 ==> buf.Waits(1, rs))
    ensures Waiting(buf, ls, rs, pcm, 0) && FilteredAll(sb, analyse, ls, rs, pcm, buf.bands, buf.channels, 0)
  {
    InputOrder(buf.bands, buf.channels, 0, 0);
    CountNext(buf.bands, buf.channels, 0);
    hide InputStart, Count, Open;
    assert ls + [] == ls && rs + [] == rs;
  }

  /** One more block. */
  method FilterBlock(buf: AnalysisBuffer, analyse: Analysis, pcm: seq<int>, ghost blk: nat, sbBuffer: array<int>,
                     at: nat, ghost ls: seq<int>, ghost rs: seq<int>)
    requires Waiting(buf, ls, rs, pcm, blk) && Regular(analyse, buf.bands) && sbBuffer != buf.s16X
    requires InputStart(buf.bands, buf.channels, blk + 1, 0) <= |pcm|
    requires InputStart(buf.bands, buf.channels, blk + 1, 0) <= sbBuffer.Length
    requires at == InputStart(buf.bands, buf.channels, blk, 0)
    requires FilteredAll(sbBuffer[..], analyse, ls, rs, pcm, buf.bands, buf.channels, blk)
    modifies buf`shiftCounter, buf.s16X, sbBuffer
    ensures Waiting(buf, ls, rs, pcm, blk + 1)
    ensures FilteredAll(sbBuffer[..], analyse, ls, rs, pcm, buf.bands, buf.channels, blk + 1)
  {
    hide InputStart, Received, Filtered, Analysed, Deal, BlockOf, Open, MaxShift;
    var bands, channels := buf.bands, buf.channels;
    ghost var before := sbBuffer[..];
    InputBlock(bands, channels, blk);
    ReceivedNext(ls, pcm, bands, channels, 0, blk);
    ghost var ls' := Received(ls, pcm, bands, channels, 0, blk);
    ghost var rs' := rs;
    if channels == 2 {
      ReceivedNext(rs, pcm, bands, channels, 1, blk);
      rs' := Received(rs, pcm, bands, channels, 1, blk);
    }
    InputNext(bands, channels, blk, 0);
    BufferShape(buf);
    var block := pcm[at..at + BlockSamples(bands, channels)];
    assert block == BlockOf(pcm, bands, channels, blk) by { BlockIs(pcm, bands, channels, blk); }
    AnalyseBlock(buf, analyse, block, sbBuffer, at, ls', rs');
    ghost var after := sbBuffer[..];
    assert after[..at] == before[..at];
    assert after[at..at + bands] == sbBuffer[at..at + bands];
    FilteredNext(before, after, analyse, ls, pcm, bands, channels, 0, blk);
    if channels == 2 {
      assert after[at + bands..at + 2 * bands] == sbBuffer[at + bands..at + 2 * bands];
      FilteredNext(before, after, analyse, rs, pcm, bands, channels, 1, blk);
    }
  }

  lemma BlockIs(pcm: seq<int>, bands: nat, channels: nat, blk: nat)
    requires InputStart(bands, channels, blk + 1, 0) <= |pcm|
    ensures var at := InputStart(bands, channels, blk, 0);
      at + BlockSamples(bands, channels) <= |pcm| && BlockOf(pcm, bands, channels, blk) == pcm[at..at + BlockSamples(bands, channels)]
  {
    InputBlock(bands, channels, blk);
  }

  // ---- what follows ----

  /** Tap `i` is the `i`th value of the channel, counted back from the end of the first `n` interleaved frames. */
  ghost predicate TapAt(x: seq<int>, i: nat, pcm: seq<int>, channels: nat, ch: nat, n: nat) {
    i < n && i < |x| && channels * (n - 1 - i) + ch < |pcm| && x[i] == pcm[channels * (n - 1 - i) + ch]
  }

  lemma TapIs(x: seq<int>, i: nat, pcm: seq<int>, channels: nat, ch: nat, n: nat)
    requires i < n && i < |x| && channels * (n - 1 - i) + ch < |pcm| && x[i] == pcm[channels * (n - 1 - i) + ch]
    ensures TapAt(x, i, pcm, channels, ch, n)
  {
  }

  /** The taps of an output block: the channel's own PCM of this frame, newest first, then what it
      received in earlier frames, then silence. */
  lemma FilterTaps(sb: seq<int>, analyse: Analysis, ls: seq<int>, rs: seq<int>, pcm: seq<int>, bands: nat, channels: nat,
                   blocks: nat, b: nat, ch: nat)
    returns (x: seq<int>, n: nat)
    requires FilteredAll(sb, analyse, ls, rs, pcm, bands, channels, blocks)
    requires bands > 0 && ch < channels && b < blocks
    ensures |x| == 10 * bands && n == (b + 1) * bands
    ensures var at := (b * channels + ch) * bands; at + bands <= |sb| && sb[at..at + bands] == analyse(x)
    ensures forall i :: 0 <= i < 10 * bands && i < n ==> TapAt(x, i, pcm, channels, ch, n)
    ensures var past := if ch == 0 then ls else rs;
      forall i :: n <= i < 10 * bands ==> x[i] == (if i - n < |past| then past[|past| - 1 - (i - n)] else 0)
  {
    hide *;
    var past := if ch == 0 then ls else rs;
    n := (b + 1) * bands;
    OwnBlock(sb, analyse, ls, rs, pcm, bands, channels, blocks, b, ch);
    var xs := Received(past, pcm, bands, channels, ch, b + 1);
    x := Seen(xs, bands);
    SeenIs(analyse, xs, bands);
    forall i | 0 <= i < 10 * bands
      ensures i < n ==> TapAt(x, i, pcm, channels, ch, n)
      ensures n <= i ==> x[i] == (if i - n < |past| then past[|past| - 1 - (i - n)] else 0)
    {
      TapOf(past, pcm, bands, channels, ch, b + 1, n, i);
      if i < n {
        TapIs(x, i, pcm, channels, ch, n);
      }
    }
  }

  lemma SameTap(x: seq<int>, x': seq<int>, i: nat, pcm: seq<int>, pcm': seq<int>, ch: nat, n: nat)
    requires TapAt(x, i, pcm, 2, ch, n) && TapAt(x', i, pcm', 2, ch, n) && ch < 2
    requires |pcm| == |pcm'| && forall j :: 0 <= j < |pcm| && j % 2 == ch ==> pcm[j] == pcm'[j]
    ensures i < |x| && i < |x'| && x[i] == x'[i]
  {
    assert (2 * (n - 1 - i) + ch) % 2 == ch;
  }

  lemma SeenIs(analyse: Analysis, xs: seq<int>, bands: nat)
    ensures Analysed(analyse, xs, bands) == analyse(Seen(xs, bands)) && |Seen(xs, bands)| == 10 * bands
    ensures forall i :: 0 <= i < 10 * bands ==> Seen(xs, bands)[i] == Recent(xs, i)
  {
  }

  lemma OwnBlock(sb: seq<int>, analyse: Analysis, ls: seq<int>, rs: seq<int>, pcm: seq<int>, bands: nat, channels: nat,
                 blocks: nat, b: nat, ch: nat)
    requires FilteredAll(sb, analyse, ls, rs, pcm, bands, channels, blocks) && ch < channels && b < blocks
    ensures (channels == 1 || channels == 2) && InputStart(bands, channels, b + 1, 0) <= |pcm|
    ensures var at := (b * channels + ch) * bands;
      at + bands <= |sb|
      && sb[at..at + bands] == Analysed(analyse, Received(if ch == 0 then ls else rs, pcm, bands, channels, ch, b + 1), bands)
  {
    hide Received, Analysed;
    assert BlockFiltered(sb, analyse, if ch == 0 then ls else rs, pcm, bands, channels, ch, b);
  }

  lemma TapOf(past: seq<int>, pcm: seq<int>, bands: nat, channels: nat, ch: nat, blk: nat, n: nat, i: nat)
    requires (channels == 1 || channels == 2) && ch < channels && InputStart(bands, channels, blk, 0) <= |pcm| && n == blk * bands
    ensures var r := Recent(Received(past, pcm, bands, channels, ch, blk), i);
      && (i < n ==> channels * (n - 1 - i) + ch < |pcm| && r == pcm[channels * (n - 1 - i) + ch])
      && (n <= i ==> r == if i - n < |past| then past[|past| - 1 - (i - n)] else 0)
  {
    CountNext(bands, channels, blk);
    hide InputStart;
  }

  /** The channels do not mix: subband samples of a channel follow from its own PCM cells and its own past. */
  lemma AnalysisApart(sb: seq<int>, ls: seq<int>, rs: seq<int>, pcm: seq<int>,
                      sb': seq<int>, ls': seq<int>, rs': seq<int>, pcm': seq<int>,
                      analyse: Analysis, bands: nat, blocks: nat, ch: nat, b: nat)
    requires FilteredAll(sb, analyse, ls, rs, pcm, bands, 2, blocks) && FilteredAll(sb', analyse, ls', rs', pcm', bands, 2, blocks)
    requires bands > 0 && ch < 2 && b < blocks
    requires if ch == 0 then ls == ls' else rs == rs'
    requires |pcm| == |pcm'| && forall j :: 0 <= j < |pcm| && j % 2 == ch ==> pcm[j] == pcm'[j]
    ensures var at := (2 * b + ch) * bands;
      at + bands <= |sb| && at + bands <= |sb'| && sb[at..at + bands] == sb'[at..at + bands]
  {
    hide *;
    var x, n := FilterTaps(sb, analyse, ls, rs, pcm, bands, 2, blocks, b, ch);
    var x', n' := FilterTaps(sb', analyse, ls', rs', pcm', bands, 2, blocks, b, ch);
    forall i | 0 <= i < 10 * bands ensures x[i] == x'[i] {
      if i < n {
        SameTap(x, x', i, pcm, pcm', ch, n);
      }
    }
    assert x == x';
    assert b * 2 + ch == 2 * b + ch;
  }
}
