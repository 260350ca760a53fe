/** What a stream sounds like: how decoded frames, packet by packet, change the PCM ring and the filter
    histories, from the bytes alone. */
module Playback {
  import opened BitStrings
  import opened BitReader
  import opened Frames
  import opened FrameLayout
  import opened BitNeeds
  import opened FrameLengths
  import opened FrameReader
  import opened JointReader
  import opened FrameDecoder
  import opened SynthesisWindow
  import opened DecoderSbc
  import opened PacketParse
  import opened PcmOverflow
  import opened PcmRing
  import AllocationAgreement

  // ---- a frame's samples are in its bytes ----

  lemma FieldDepends(mem: Memory, other: Memory, at: nat, n: nat, pos: nat, width: nat)
    requires Agree(mem, other, at, n) && 8 * at <= pos && pos + width <= 8 * (at + n)
    ensures BitsAt(mem, pos, width) == BitsAt(other, pos, width)
  {
    forall p: nat | pos / 8 <= p && 8 * p < pos + width ensures mem(p) == other(p) {
    }
    BitsAtDepends(mem, other, pos, width);
  }

  lemma HeadDepends(mem: Memory, other: Memory, at: nat, info: FrameInfo)
    requires info.Valid() && Agree(mem, other, at, FrameLength(info))
    ensures SfsAt(mem, at + 4, info) == SfsAt(other, at + 4, info) && JoinAt(mem, at + 4, info) == JoinAt(other, at + 4, info)
  {
    BodyFits(info);
    hide BitsAt, BitsVal, FrameLength, Agree;
    forall i | 0 <= i < info.Lanes()
      ensures NibbleAt(mem, 8 * (at + 4) + JoinBits(info) + 4 * i) == NibbleAt(other, 8 * (at + 4) + JoinBits(info) + 4 * i)
    {
      FieldDepends(mem, other, at, FrameLength(info), 8 * (at + 4) + JoinBits(info) + 4 * i, 4);
    }
    FieldDepends(mem, other, at, FrameLength(info), 8 * (at + 4), JoinBits(info));
  }

  lemma BodyFits(info: FrameInfo)
    ensures 8 * 4 + HeadWidth(info) + PayloadBits(info) <= 8 * FrameLength(info)
    ensures 8 * FrameLength(info) < 8 * 4 + HeadWidth(info) + PayloadBits(info) + 8
    ensures HeadWidth(info) == JoinBits(info) + 4 * info.Lanes()
  {
    hide PayloadBits;
  }

  /** A sample field ends within the frame. */
  lemma SampleFits(info: FrameInfo, bits: seq<nat>, k: nat)
    requires |bits| == info.Lanes() && AllocationAgreement.Conserved(info, bits) && k < SampleCount(info)
    ensures Width(SampleWidths(info, bits)[..k]) + SampleWidths(info, bits)[k] <= PayloadBits(info)
  {
    hide AllocationAgreement.Conserved, Width, SampleWidths, PayloadBits;
    PayloadIsBitpool(info, bits);
    var ws := SampleWidths(info, bits);
    WidthPrefix(ws, k + 1);
    NextWidth(ws, k);
  }

  lemma NextWidth(ws: seq<nat>, k: nat)
    requires k < |ws|
    ensures Width(ws[..k + 1]) == Width(ws[..k]) + ws[k]
  {
    assert ws[..k + 1][..k] == ws[..k];
  }

  /** Samples depend on no byte outside the frame. */
  lemma SamplesDepend(mem: Memory, other: Memory, at: nat, info: FrameInfo)
    requires info.Valid() && PoolFits(info) && Agree(mem, other, at, FrameLength(info))
    ensures SamplesAt(mem, at + 4, info) == SamplesAt(other, at + 4, info)
  {
    hide *;
    HeadDepends(mem, other, at, info);
    SfsKnown(mem, at + 4, info);
    var sfs := SfsAt(mem, at + 4, info);
    LanesReadable(info, sfs);
    AllocationAgreement.Conservation(info, sfs);
    var bits := FrameBits(info, sfs);
    SentHere(mem, at + 4, info);
    SentHere(other, at + 4, info);
    SentDepends(mem, other, at, info, sfs, bits);
    SamplesFrom(mem, other, at + 4, info);
  }

  lemma SfsKnown(mem: Memory, body: nat, info: FrameInfo)
    ensures |SfsAt(mem, body, info)| == info.Lanes() && forall i :: 0 <= i < info.Lanes() ==> SfsAt(mem, body, info)[i] < 16
  {
  }

  lemma SentDepends(mem: Memory, other: Memory, at: nat, info: FrameInfo, sfs: seq<nat>, bits: seq<nat>)
    requires info.Valid() && Agree(mem, other, at, FrameLength(info)) && LanesValid(info, sfs, bits)
    requires AllocationAgreement.Conserved(info, bits)
    ensures var base := 8 * (at + 4) + HeadWidth(info); Sent(mem, base, info, sfs, bits) == Sent(other, base, info, sfs, bits)
  {
    BodyFits(info);
    hide BitsAt, BitsVal, FrameLength, Agree, Width, SampleWidths, PayloadBits, HeadWidth, AllocationAgreement.Conserved;
    var base := 8 * (at + 4) + HeadWidth(info);
    var ws := SampleWidths(info, bits);
    forall k | 0 <= k < SampleCount(info) ensures RawAt(mem, base, info, bits, k) == RawAt(other, base, info, bits, k) {
      SampleFits(info, bits, k);
      FieldDepends(mem, other, at, FrameLength(info), base + Width(ws[..k]), ws[k]);
    }
  }

  lemma SamplesFrom(mem: Memory, other: Memory, body: nat, info: FrameInfo)
    requires info.Valid() && PoolFits(info)
    requires SentAt(mem, body, info) == SentAt(other, body, info) && JoinAt(mem, body, info) == JoinAt(other, body, info)
    ensures SamplesAt(mem, body, info) == SamplesAt(other, body, info)
  {
    hide SentAt, JointAt, JoinAt;
  }

  // ---- one frame, one packet, a queue of packets ----

  /** What frames change: the PCM ring, and the outputs of the filters since the last reset. */
  datatype Player = Player(frames: nat, values: seq<int>, ls: seq<seq<int>>, rs: seq<seq<int>>)
  {
    ghost predicate Valid() {
      Eights(ls) && Eights(rs)
    }
  }

  /** What stays the same while frames are decoded; the channels of the PCM are its interleave. */
  datatype Setup = Setup(bank4: Bank, bank8: Bank, channels: nat, capacity: nat, dropOldest: bool)
  {
    ghost predicate Valid() {
      bank4.Valid() && bank4.bands == 4 && bank8.Valid() && bank8.bands == 8 && (channels == 1 || channels == 2)
    }

    function BankOf(info: FrameInfo): Bank {
      if info.NrofSubbands() == 4 then bank4 else bank8
    }
  }

  /** The header of the frame at an address. */
  function InfoAt(mem: Memory, at: nat): FrameInfo {
    ParseHeader(mem(at + 1), mem(at + 2))
  }

  /** The histories grow by the outputs of the frame; after a mono frame the right one is what its
      buffer shows. */
  ghost predicate Hears(u: Setup, s: Player, ls: seq<seq<int>>, rs: seq<seq<int>>, mem: Memory, at: nat)
    requires u.Valid() && s.Valid() && PoolFits(InfoAt(mem, at))
  {
    var info := InfoAt(mem, at);
    && Eights(ls) && Eights(rs) && ls == Grown(u.BankOf(info), s.ls, mem, at, info, 0)
    && (info.NrofChannels() == 2 ==> rs == Grown(u.BankOf(info), s.rs, mem, at, info, 1))
  }

  /** The PCM of the frame at the interleave of the setup. */
  ghost predicate SoundsIn(u: Setup, s: Player, pcm: seq<int>, mem: Memory, at: nat)
    requires u.Valid() && s.Valid() && PoolFits(InfoAt(mem, at))
  {
    Sounds(pcm, u.BankOf(InfoAt(mem, at)), u.channels, mem, at, InfoAt(mem, at), s.ls, s.rs)
  }

  /** The scratch holds the PCM of the frame, and from there it is written over the ring. */
  ghost predicate PlaysAs(u: Setup, s: Player, t: Player, mem: Memory, at: nat, pcm: seq<int>, n: nat) {
    var info := InfoAt(mem, at);
    && u.Valid() && s.Valid() && PoolFits(info) && Hears(u, s, t.ls, t.rs, mem, at) && SoundsIn(u, s, pcm, mem, at)
    && Wrote(RingOf(s.frames, s.values, pcm), t.frames, t.values, true, u.dropOldest, PcmFrames(info), n, u.capacity, u.channels)
  }

  ghost predicate FramePlays(u: Setup, s: Player, t: Player, mem: Memory, at: nat) {
    exists pcm: seq<int>, n: nat :: PlaysAs(u, s, t, mem, at, pcm, n)
  }

  /** The frames among some events, one after the other. */
  ghost predicate EventsPlay(u: Setup, s: Player, t: Player, mem: Memory, es: seq<Event>)
    decreases |es|
  {
    if es == [] then s == t
    else if es[0].Frame? then exists m: Player :: FramePlays(u, s, m, mem, es[0].at) && EventsPlay(u, m, t, mem, es[1..])
    else EventsPlay(u, s, t, mem, es[1..])
  }

  ghost predicate PacketPlays(u: Setup, s: Player, t: Player, packet: seq<byte>) {
    EventsPlay(u, s, t, MemoryOf(packet), EventsOf(packet))
  }

  ghost predicate PacketsPlay(u: Setup, s: Player, t: Player, packets: seq<seq<byte>>)
    decreases |packets|
  {
    if packets == [] then s == t
    else exists m: Player :: PacketPlays(u, s, m, packets[0]) && PacketsPlay(u, m, t, packets[1..])
  }

  lemma NothingPlays(u: Setup, s: Player, mem: Memory)
    ensures EventsPlay(u, s, s, mem, []) && PacketsPlay(u, s, s, [])
  {
  }

  lemma EventsStep(u: Setup, s: Player, m: Player, t: Player, mem: Memory, es: seq<Event>)
    requires es != [] && EventsPlay(u, m, t, mem, es[1..])
    requires if es[0].Frame? then FramePlays(u, s, m, mem, es[0].at) else m == s
    ensures EventsPlay(u, s, t, mem, es)
  {
    hide FramePlays;
  }

  /** The first of some events takes one player to the other. */
  ghost predicate FirstPlays(u: Setup, s: Player, t: Player, mem: Memory, es: seq<Event>) {
    es != [] && if es[0].Frame? then FramePlays(u, s, t, mem, es[0].at) else s == t
  }

  lemma FirstPlayed(u: Setup, s: Player, t: Player, mem: Memory, es: seq<Event>)
    requires es != [] && if es[0].Frame? then FramePlays(u, s, t, mem, es[0].at) else s == t
    ensures FirstPlays(u, s, t, mem, es)
  {
    hide FramePlays;
  }

  /** From where the player is now, playing the rest amounts to playing all from the start. */
  ghost predicate Continues(u: Setup, now: Player, start: Player, mem: Memory, rest: seq<Event>, all: seq<Event>) {
    forall t: Player :: EventsPlay(u, now, t, mem, rest) ==> EventsPlay(u, start, t, mem, all)
  }

  lemma ContinuesFrom(u: Setup, start: Player, mem: Memory, all: seq<Event>)
    ensures Continues(u, start, start, mem, all, all)
  {
  }

  lemma ContinuesOn(u: Setup, s: Player, m: Player, start: Player, mem: Memory, es: seq<Event>, all: seq<Event>)
    requires Continues(u, s, start, mem, es, all) && FirstPlays(u, s, m, mem, es)
    ensures Continues(u, m, start, mem, es[1..], all)
  {
    hide EventsPlay, FramePlays;
    forall t: Player | EventsPlay(u, m, t, mem, es[1..]) ensures EventsPlay(u, start, t, mem, all) {
      EventsStep(u, s, m, t, mem, es);
    }
  }

  lemma ContinuesTo(u: Setup, now: Player, start: Player, mem: Memory, all: seq<Event>)
    requires Continues(u, now, start, mem, [], all)
    ensures EventsPlay(u, start, now, mem, all)
  {
    NothingPlays(u, now, mem);
    hide EventsPlay;
  }

  lemma {:induction false} PacketsThen(u: Setup, s: Player, m: Player, t: Player, packets: seq<seq<byte>>, packet: seq<byte>)
    requires PacketsPlay(u, s, m, packets) && PacketPlays(u, m, t, packet)
    ensures PacketsPlay(u, s, t, packets + [packet])
    decreases |packets|
  {
    hide PacketPlays;
    var all := packets + [packet];
    if packets == [] {
      assert all[1..] == [];
      assert PacketsPlay(u, t, t, all[1..]);
    } else {
      var k: Player :| PacketPlays(u, s, k, packets[0]) && PacketsPlay(u, k, m, packets[1..]);
      PacketsThen(u, k, m, t, packets[1..], packet);
      assert all[1..] == packets[1..] + [packet];
    }
  }

  // ---- only the bytes of the frames matter ----

  lemma FramePlaysDepends(u: Setup, s: Player, t: Player, mem: Memory, other: Memory, at: nat)
    requires FramePlays(u, s, t, mem, at) && Agree(mem, other, at, FrameLength(InfoAt(mem, at)))
    ensures FramePlays(u, s, t, other, at)
  {
    hide *;
    var pcm, n := PlayedAs(u, s, t, mem, at);
    InfoDepends(mem, other, at);
    InfoFits(u, s, t, mem, at, pcm, n);
    SamplesDepend(mem, other, at, InfoAt(mem, at));
    PlaysAsDepends(u, s, t, mem, other, at, pcm, n);
    HasPlayed(u, s, t, other, at, pcm, n);
  }

  lemma WrittenPlays(u: Setup, s: Player, t: Player, mem: Memory, at: nat, pcm: seq<int>, n: nat)
    requires u.Valid() && s.Valid() && PoolFits(InfoAt(mem, at)) && Hears(u, s, t.ls, t.rs, mem, at) && SoundsIn(u, s, pcm, mem, at)
    requires Wrote(RingOf(s.frames, s.values, pcm), t.frames, t.values, true, u.dropOldest, PcmFrames(InfoAt(mem, at)), n,
                   u.capacity, u.channels)
    ensures FramePlays(u, s, t, mem, at)
  {
    hide Sounds, Grown, Wrote, Eights, PcmFrames, ParseHeader;
    assert PlaysAs(u, s, t, mem, at, pcm, n);
  }

  lemma PlayedAs(u: Setup, s: Player, t: Player, mem: Memory, at: nat) returns (pcm: seq<int>, n: nat)
    requires FramePlays(u, s, t, mem, at)
    ensures PlaysAs(u, s, t, mem, at, pcm, n)
  {
    hide PlaysAs;
    pcm, n :| PlaysAs(u, s, t, mem, at, pcm, n);
  }

  lemma HasPlayed(u: Setup, s: Player, t: Player, mem: Memory, at: nat, pcm: seq<int>, n: nat)
    requires PlaysAs(u, s, t, mem, at, pcm, n)
    ensures FramePlays(u, s, t, mem, at)
  {
    hide PlaysAs;
  }

  lemma InfoDepends(mem: Memory, other: Memory, at: nat)
    requires Agree(mem, other, at, FrameLength(InfoAt(mem, at)))
    ensures InfoAt(other, at) == InfoAt(mem, at)
  {
    assert FrameLength(InfoAt(mem, at)) >= 4;
    hide FrameLength, ParseHeader;
  }

  lemma InfoFits(u: Setup, s: Player, t: Player, mem: Memory, at: nat, pcm: seq<int>, n: nat)
    requires PlaysAs(u, s, t, mem, at, pcm, n)
    ensures InfoAt(mem, at).Valid() && PoolFits(InfoAt(mem, at)) && u.Valid() && s.Valid() && t.Valid()
    ensures u.BankOf(InfoAt(mem, at)).Valid() && u.BankOf(InfoAt(mem, at)).bands == InfoAt(mem, at).NrofSubbands()
  {
    hide Sounds, Grown, Wrote, Eights;
  }

  lemma PlaysAsDepends(u: Setup, s: Player, t: Player, mem: Memory, other: Memory, at: nat, pcm: seq<int>, n: nat)
    requires PlaysAs(u, s, t, mem, at, pcm, n) && InfoAt(other, at) == InfoAt(mem, at)
    requires PoolFits(InfoAt(mem, at)) && SamplesAt(mem, at + 4, InfoAt(mem, at)) == SamplesAt(other, at + 4, InfoAt(mem, at))
    ensures PlaysAs(u, s, t, other, at, pcm, n)
  {
    hide SamplesAt, FramePlayed, Wrote, ParseHeader, Outputs, Eights, PcmFrames;
    var info := InfoAt(mem, at);
    assert Grown(u.BankOf(info), s.ls, mem, at, info, 0) == Grown(u.BankOf(info), s.ls, other, at, info, 0);
    if info.NrofChannels() == 2 {
      assert Grown(u.BankOf(info), s.rs, mem, at, info, 1) == Grown(u.BankOf(info), s.rs, other, at, info, 1);
    }
  }

  lemma {:induction false} EventsPlayDepends(u: Setup, s: Player, t: Player, mem: Memory, other: Memory, at: nat,
                                             from: nat, n: nat, es: seq<Event>)
    requires EventsPlay(u, s, t, mem, es) && InOrder(mem, from, at + n, es) && at <= from && Agree(mem, other, at, n)
    ensures EventsPlay(u, s, t, other, es)
    decreases |es|
  {
    hide FramePlays, GoodFrame, FrameLength, Agree;
    if es != [] {
      var e := es[0];
      if e.Frame? {
        var m: Player :| FramePlays(u, s, m, mem, e.at) && EventsPlay(u, m, t, mem, es[1..]);
        AgreePart(mem, other, at, n, e.at, e.length);
        FramePlaysDepends(u, s, m, mem, other, e.at);
        EventsPlayDepends(u, m, t, mem, other, at, e.at + e.length, n, es[1..]);
      } else {
        EventsPlayDepends(u, s, t, mem, other, at, from, n, es[1..]);
      }
    }
  }

  lemma AgreePart(mem: Memory, other: Memory, at: nat, n: nat, from: nat, length: nat)
    requires Agree(mem, other, at, n) && at <= from && from + length <= at + n
    ensures Agree(mem, other, from, length)
  {
  }

  /** A packet plays the same wherever its bytes lie. */
  lemma PacketPlaysAnywhere(u: Setup, s: Player, t: Player, scratch: seq<byte>, length: nat)
    requires length <= |scratch| && EventsPlay(u, s, t, MemoryOf(scratch), Parse(MemoryOf(scratch), 0, length))
    ensures PacketPlays(u, s, t, scratch[..length])
  {
    hide EventsPlay, Parse, InOrder;
    var mem, own := MemoryOf(scratch), MemoryOf(scratch[..length]);
    assert Agree(mem, own, 0, length);
    hide Agree, MemoryOf;
    OwnEvents(scratch, length);
    ParseInOrder(mem, 0, length);
    EventsPlayDepends(u, s, t, mem, own, 0, 0, length, Parse(mem, 0, length));
  }

  // ---- the same packets sound the same ----

  /** The block, value and channel behind a cell of a frame's PCM. */
  lemma CellFrom(bands: nat, blocks: nat, stride: nat, channels: nat, j: nat) returns (b: nat, i: nat, ch: nat)
    requires bands > 1 && (stride == 1 || stride == 2) && (channels == 1 || channels == 2)
    requires j < PcmStart(bands, stride, blocks)
    ensures b < blocks && j == PcmStart(bands, stride, b) + Strided(stride, i) + ch
    ensures if channels <= stride then i < bands && ch < stride else ch < channels && i < KeptCount(stride, channels, ch, bands)
  {
    hide PcmStart;
    ch := if stride == 2 then j % 2 else 0;
    b, i := BlockFrom(bands, stride, if stride == 2 then j / 2 else j);
    if b >= blocks {
      PcmOrder(bands, stride, blocks, b);
    }
    if channels > stride && i > 0 {
      i, ch := i - 1, 1;
    }
  }

  lemma BlockFrom(bands: nat, stride: nat, m: nat) returns (b: nat, i: nat)
    requires bands > 0
    ensures i < bands && Strided(stride, m) == PcmStart(bands, stride, b) + Strided(stride, i)
  {
    b, i := m / bands, m % bands;
    assert m == bands * b + i;
    assert b * (2 * bands) == 2 * (bands * b) && b * bands == bands * b;
  }

  lemma CellPlayed(pcm: seq<int>, pcm': seq<int>, bank: Bank, stride: nat, channels: nat, ch: nat, outs: seq<seq<int>>,
                   past: nat, blocks: nat, b: nat, i: nat)
    requires FramePlayed(pcm, bank, stride, channels, ch, outs, past, blocks)
    requires FramePlayed(pcm', bank, stride, channels, ch, outs, past, blocks)
    requires bank.Valid() && b < blocks && i < KeptCount(stride, channels, ch, bank.bands)
    ensures var at := PcmStart(bank.bands, stride, b) + Strided(stride, i) + ch;
      at < |pcm| && at < |pcm'| && pcm[at] == pcm'[at]
  {
    hide PcmStart, BlockPcm;
    var values := BlockPcm(bank, outs, past + b);
    BlockPcmLength(bank, outs, past + b);
    assert KeptPlayed(pcm, PcmStart(bank.bands, stride, b), stride, channels, ch, values);
    assert KeptPlayed(pcm', PcmStart(bank.bands, stride, b), stride, channels, ch, values);
  }

  /** Every cell of a frame's PCM is settled by the histories before the frame and its samples; a mono
      frame does not hear the right one. */
  lemma SoundsSame(pcm: seq<int>, pcm': seq<int>, bank: Bank, stride: nat, mem: Memory, at: nat, info: FrameInfo,
                   ls: seq<seq<int>>, rs: seq<seq<int>>, rs': seq<seq<int>>, j: nat)
    requires bank.Valid() && bank.bands == info.NrofSubbands() && info.Valid() && PoolFits(info) && Eights(ls)
    requires Eights(rs) && Eights(rs') && (info.NrofChannels() == 2 ==> rs == rs') && (stride == 1 || stride == 2)
    requires Sounds(pcm, bank, stride, mem, at, info, ls, rs) && Sounds(pcm', bank, stride, mem, at, info, ls, rs')
    requires j < Values(PcmFrames(info), stride)
    ensures j < |pcm| && j < |pcm'| && pcm[j] == pcm'[j]
  {
    SamplesForSynthesis(info);
    hide FramePlayed, PcmStart, PcmFrames, Grown, Eights;
    var b, i, ch := CellFrom(info.NrofSubbands(), info.NrofBlocks(), stride, info.NrofChannels(), j);
    var outs := if ch == 1 && info.NrofChannels() == 2 then Grown(bank, rs, mem, at, info, 1) else Grown(bank, ls, mem, at, info, 0);
    var past := if ch == 1 && info.NrofChannels() == 2 then |rs| else |ls|;
    CellPlayed(pcm, pcm', bank, stride, info.NrofChannels(), ch, outs, past, info.NrofBlocks(), b, i);
  }

  lemma FrameSoundsSame(pcm: seq<int>, pcm': seq<int>, bank: Bank, stride: nat, mem: Memory, at: nat, info: FrameInfo,
                        ls: seq<seq<int>>, rs: seq<seq<int>>, rs': seq<seq<int>>)
    requires bank.Valid() && bank.bands == info.NrofSubbands() && info.Valid() && PoolFits(info) && Eights(ls)
    requires Eights(rs) && Eights(rs') && (info.NrofChannels() == 2 ==> rs == rs') && (stride == 1 || stride == 2)
    requires Sounds(pcm, bank, stride, mem, at, info, ls, rs) && Sounds(pcm', bank, stride, mem, at, info, ls, rs')
    ensures SameStart(pcm, pcm', Values(PcmFrames(info), stride))
  {
    hide Sounds, PcmFrames, Values, Eights;
    var n := Values(PcmFrames(info), stride);
    if n > 0 {
      SoundsSame(pcm, pcm', bank, stride, mem, at, info, ls, rs, rs', n - 1);
    }
    forall j | 0 <= j < n ensures pcm[j] == pcm'[j] {
      SoundsSame(pcm, pcm', bank, stride, mem, at, info, ls, rs, rs', j);
    }
  }

  /** Players that cannot be told apart by frames of so many channels. */
  ghost predicate Alike(s: Player, t: Player, channels: nat) {
    s.frames == t.frames && s.values == t.values && s.ls == t.ls && (channels == 2 ==> s.rs == t.rs)
  }

  ghost predicate SameStart(pcm: seq<int>, pcm': seq<int>, n: nat) {
    n <= |pcm| && n <= |pcm'| && forall j :: 0 <= j < n ==> pcm[j] == pcm'[j]
  }

  lemma WroteSame(s: Player, s': Player, t: Player, t': Player, pcm: seq<int>, pcm': seq<int>, dropOldest: bool,
                  count: nat, n: nat, n': nat, capacity: nat, channels: nat)
    requires s.frames == s'.frames && s.values == s'.values
    requires Wrote(RingOf(s.frames, s.values, pcm), t.frames, t.values, true, dropOldest, count, n, capacity, channels)
    requires Wrote(RingOf(s'.frames, s'.values, pcm'), t'.frames, t'.values, true, dropOldest, count, n', capacity, channels)
    requires SameStart(pcm, pcm', Values(count, channels))
    ensures t.frames == t'.frames && t.values == t'.values
  {
    var gone, added := Values(Dropped(dropOldest, count, s.frames, capacity), channels), Values(n, channels);
    FewerValues(n, count, channels);
    hide Values;
    var back, back' := s.values[..gone] + pcm[gone..], s.values[..gone] + pcm'[gone..];
    assert back[..added] == back'[..added];
  }

  lemma FramePlaysSame(u: Setup, s: Player, t: Player, s': Player, t': Player, mem: Memory, at: nat)
    requires FramePlays(u, s, t, mem, at) && FramePlays(u, s', t', mem, at)
    requires Alike(s, s', InfoAt(mem, at).NrofChannels())
    ensures Alike(t, t', InfoAt(mem, at).NrofChannels())
  {
    var info := InfoAt(mem, at);
    hide FramePlays, PlaysAs;
    var pcm, n := PlayedAs(u, s, t, mem, at);
    var pcm', n' := PlayedAs(u, s', t', mem, at);
    PlayedParts(u, s, t, mem, at, pcm, n);
    PlayedParts(u, s', t', mem, at, pcm', n');
    hide Sounds, Grown, Wrote, Eights, PcmFrames, Values, ParseHeader;
    FrameSoundsSame(pcm, pcm', u.BankOf(info), u.channels, mem, at, info, s.ls, s.rs, s'.rs);
    WroteSame(s, s', t, t', pcm, pcm', u.dropOldest, PcmFrames(info), n, n', u.capacity, u.channels);
  }

  lemma PlayedParts(u: Setup, s: Player, t: Player, mem: Memory, at: nat, pcm: seq<int>, n: nat)
    requires PlaysAs(u, s, t, mem, at, pcm, n)
    ensures var info := InfoAt(mem, at);
      && info.Valid() && PoolFits(info) && u.Valid() && Eights(s.ls) && Eights(s.rs) && (info.NrofChannels() == 1 || info.NrofChannels() == 2)
      && u.BankOf(info).Valid() && u.BankOf(info).bands == info.NrofSubbands()
      && t.ls == Grown(u.BankOf(info), s.ls, mem, at, info, 0)
      && (info.NrofChannels() == 2 ==> t.rs == Grown(u.BankOf(info), s.rs, mem, at, info, 1))
      && Sounds(pcm, u.BankOf(info), u.channels, mem, at, info, s.ls, s.rs)
      && Wrote(RingOf(s.frames, s.values, pcm), t.frames, t.values, true, u.dropOldest, PcmFrames(info), n, u.capacity, u.channels)
  {
    hide Sounds, Grown, Wrote, Eights, PcmFrames;
  }

  /** All frames have so many channels. */
  ghost predicate Uniform(mem: Memory, es: seq<Event>, channels: nat) {
    forall i :: 0 <= i < |es| && es[i].Frame? ==> InfoAt(mem, es[i].at).NrofChannels() == channels
  }

  lemma {:induction false} EventsPlaySame(u: Setup, s: Player, t: Player, s': Player, t': Player, mem: Memory,
                                          es: seq<Event>, channels: nat)
    requires EventsPlay(u, s, t, mem, es) && EventsPlay(u, s', t', mem, es) && Uniform(mem, es, channels)
    requires Alike(s, s', channels)
    ensures Alike(t, t', channels)
    decreases |es|
  {
    hide FramePlays, ParseHeader, Alike;
    if es != [] {
      assert Uniform(mem, es[1..], channels);
      if es[0].Frame? {
        var m: Player :| FramePlays(u, s, m, mem, es[0].at) && EventsPlay(u, m, t, mem, es[1..]);
        var m': Player :| FramePlays(u, s', m', mem, es[0].at) && EventsPlay(u, m', t', mem, es[1..]);
        FramePlaysSame(u, s, m, s', m', mem, es[0].at);
        EventsPlaySame(u, m, t, m', t', mem, es[1..], channels);
      } else {
        EventsPlaySame(u, s, t, s', t', mem, es[1..], channels);
      }
    } else {
      AlikeKept(s, t, s', t', channels);
    }
  }

  lemma AlikeKept(s: Player, t: Player, s': Player, t': Player, channels: nat)
    requires Alike(s, s', channels) && s == t && s' == t'
    ensures Alike(t, t', channels)
  {
  }

  /** Two streams that start alike and get the same packets hold the same PCM afterwards, and go on
      alike. After a reset all streams start alike. */
  lemma {:induction false} SamePacketsSamePcm(u: Setup, s: Player, t: Player, s': Player, t': Player,
                                              packets: seq<seq<byte>>, channels: nat)
    requires PacketsPlay(u, s, t, packets) && PacketsPlay(u, s', t', packets) && Alike(s, s', channels)
    requires forall i :: 0 <= i < |packets| ==> Uniform(MemoryOf(packets[i]), EventsOf(packets[i]), channels)
    ensures Alike(t, t', channels)
    decreases |packets|
  {
    hide EventsPlay, Uniform, Alike, Parse, EventsOf, MemoryOf;
    if packets != [] {
      var m: Player :| PacketPlays(u, s, m, packets[0]) && PacketsPlay(u, m, t, packets[1..]);
      var m': Player :| PacketPlays(u, s', m', packets[0]) && PacketsPlay(u, m', t', packets[1..]);
      EventsPlaySame(u, s, m, s', m', MemoryOf(packets[0]), EventsOf(packets[0]), channels);
      forall i | 0 <= i < |packets[1..]| ensures Uniform(MemoryOf(packets[1..][i]), EventsOf(packets[1..][i]), channels) {
        assert packets[1..][i] == packets[i + 1];
      }
      SamePacketsSamePcm(u, m, t, m', t', packets[1..], channels);
    } else {
      AlikeKept(s, t, s', t', channels);
    }
  }
}
