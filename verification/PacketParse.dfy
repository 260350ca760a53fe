/** What a sequence of decodeFrame calls makes of the bytes of one packet, from the bytes alone. */
module PacketParse {
  import opened Bits
  import opened BitStrings
  import opened BitReader
  import opened Frames
  import opened FrameLayout
  import opened BitNeeds
  import opened FrameLengths
  import opened DecoderSbc
  import opened FrameRoundTrip
  import Crc

  /** maxPcmFramesPerSbcFrame. */
  const ROOM: nat := 128

  /** A decoded frame, a byte skipped to resynchronise, or a frame the packet ends in. */
  datatype Event = Frame(at: nat, length: nat, pcmFrames: nat) | Bad | Cut

  /** An accepted frame lies within the bytes and fits the decode buffer. */
  lemma AcceptedFits(mem: Memory, at: nat, n: nat, room: nat)
    requires Verdict(mem, at, n, room).Ok?
    ensures var skip := Skipped(mem, at, n);
      var info := ParseHeader(mem(at + skip + 1), mem(at + skip + 2));
      && skip < n && mem(at + skip) == 0x9C && 4 <= FrameLength(info) <= n - skip && PoolFits(info) && info.bitpool >= 2
      && PcmFrames(info) <= room && FrameStatus(mem, at + skip, n - skip, room).Ok?
  {
    hide Crc.Checksum;
    var skip := Skipped(mem, at, n);
    var info := ParseHeader(mem(at + skip + 1), mem(at + skip + 2));
    FramelenExact(info);
    hide CalculateFramelen;
  }

  lemma PcmFramesBound(info: FrameInfo)
    requires info.Valid()
    ensures 16 <= PcmFrames(info) <= ROOM
  {
    MulOrder(info.NrofSubbands(), info.NrofBlocks(), 16);
    MulOrder(info.NrofSubbands(), 4, info.NrofBlocks());
  }

  /** The frame an accepted call decodes. */
  function AcceptedFrame(mem: Memory, at: nat, n: nat): (e: Event)
    requires Verdict(mem, at, n, ROOM).Ok?
    ensures e.Frame? && at <= e.at && 4 <= e.length && e.at + e.length <= at + n
  {
    AcceptedFits(mem, at, n, ROOM);
    var p := at + Skipped(mem, at, n);
    var info := ParseHeader(mem(p + 1), mem(p + 2));
    Frame(p, FrameLength(info), PcmFrames(info))
  }

  function Parse(mem: Memory, at: nat, n: nat): seq<Event>
    decreases n
  {
    if n == 0 then []
    else
      match Verdict(mem, at, n, ROOM)
      case Ok =>
        var e := AcceptedFrame(mem, at, n);
        [e] + Parse(mem, e.at + e.length, n - (e.at + e.length - at))
      case NotEnoughHeaderData => [Cut]
      case NotEnoughBodyData => [Cut]
      case _ => [Bad] + Parse(mem, at + 1, n - 1)
  }

  /** Decoded slices come in order, do not overlap, lie within the packet, start with a syncword and
      pass every test of the decoder, the checksum among them. */
  ghost predicate InOrder(mem: Memory, at: nat, end: nat, es: seq<Event>)
    decreases |es|
  {
    es == [] ||
    if es[0].Frame? then
      && at <= es[0].at && es[0].at + es[0].length <= end && GoodFrame(mem, es[0].at, ROOM)
      && es[0].length == FrameLength(ParseHeader(mem(es[0].at + 1), mem(es[0].at + 2)))
      && InOrder(mem, es[0].at + es[0].length, end, es[1..])
    else InOrder(mem, at, end, es[1..])
  }

  lemma {:induction false} ParseInOrder(mem: Memory, at: nat, n: nat)
    ensures InOrder(mem, at, at + n, Parse(mem, at, n))
    decreases n
  {
    hide *;
    InOrderStep(mem, at, at + n, Parse(mem, at, n));
    if n == 0 {
      ParseNothing(mem, at);
    } else {
      ParseSteps(mem, at, n);
      var v := Verdict(mem, at, n, ROOM);
      if v.Ok? {
        var e := AcceptedFrame(mem, at, n);
        ParseInOrder(mem, e.at + e.length, n - (e.at + e.length - at));
        FrameIsGood(mem, at, n);
        assert Parse(mem, at, n)[1..] == Parse(mem, e.at + e.length, n - (e.at + e.length - at));
      } else if v.NotEnoughHeaderData? || v.NotEnoughBodyData? {
        assert Parse(mem, at, n)[1..] == [];
        InOrderStep(mem, at, at + n, []);
      } else {
        ParseInOrder(mem, at + 1, n - 1);
        InOrderEarlier(mem, at, at + 1, at + n, Parse(mem, at + 1, n - 1));
        assert Parse(mem, at, n)[1..] == Parse(mem, at + 1, n - 1);
      }
    }
  }

  lemma InOrderStep(mem: Memory, at: nat, end: nat, es: seq<Event>)
    ensures es == [] ==> InOrder(mem, at, end, es)
    ensures es != [] && es[0].Frame? ==>
      (InOrder(mem, at, end, es) <==>
        && at <= es[0].at && es[0].at + es[0].length <= end && GoodFrame(mem, es[0].at, ROOM)
        && es[0].length == FrameLength(ParseHeader(mem(es[0].at + 1), mem(es[0].at + 2)))
        && InOrder(mem, es[0].at + es[0].length, end, es[1..]))
    ensures es != [] && !es[0].Frame? ==> InOrder(mem, at, end, es) == InOrder(mem, at, end, es[1..])
  {
    hide GoodFrame, FrameLength;
  }

  lemma {:induction false} InOrderEarlier(mem: Memory, at: nat, later: nat, end: nat, es: seq<Event>)
    requires at <= later && InOrder(mem, later, end, es)
    ensures InOrder(mem, at, end, es)
    decreases |es|
  {
    hide GoodFrame, FrameLength;
    if es != [] && !es[0].Frame? {
      InOrderEarlier(mem, at, later, end, es[1..]);
    }
  }

  lemma FrameIsGood(mem: Memory, at: nat, n: nat)
    requires Verdict(mem, at, n, ROOM).Ok?
    ensures var e := AcceptedFrame(mem, at, n);
      GoodFrame(mem, e.at, ROOM) && e.length == FrameLength(ParseHeader(mem(e.at + 1), mem(e.at + 2)))
  {
    AcceptedFits(mem, at, n, ROOM);
    var e := AcceptedFrame(mem, at, n);
    FramelenExact(ParseHeader(mem(e.at + 1), mem(e.at + 2)));
    hide Crc.Checksum, CalculateFramelen, FrameLength, PcmFrames, Skipped;
  }

  /** At most the last event is a cut. */
  lemma {:induction false} CutIsLast(mem: Memory, at: nat, n: nat, i: nat)
    requires i < |Parse(mem, at, n)| - 1
    ensures !Parse(mem, at, n)[i].Cut?
    decreases n
  {
    hide Verdict, AcceptedFrame;
    var v := Verdict(mem, at, n, ROOM);
    if i > 0 {
      if v.Ok? {
        var e := AcceptedFrame(mem, at, n);
        CutIsLast(mem, e.at + e.length, n - (e.at + e.length - at), i - 1);
      } else {
        CutIsLast(mem, at + 1, n - 1, i - 1);
      }
    }
  }

  // ---- only the packet's own bytes matter ----

  ghost predicate Agree(mem: Memory, other: Memory, at: nat, n: nat) {
    forall i :: at <= i < at + n ==> mem(i) == other(i)
  }

  lemma {:induction false} SkippedDepends(mem: Memory, other: Memory, at: nat, n: nat)
    requires Agree(mem, other, at, n)
    ensures Skipped(mem, at, n) == Skipped(other, at, n)
    decreases n
  {
    if n > 0 && mem(at) != 0x9C {
      SkippedDepends(mem, other, at + 1, n - 1);
    }
  }

  /** A frame is never shorter than the bytes its checksum is taken over. */
  lemma ChecksumWithin(info: FrameInfo)
    requires info.Valid()
    ensures FrameLength(info) >= Crc.ChecksumBytes(info)
    ensures info.mode.Joint? && info.NrofSubbands() == 4 ==> FrameLength(info) > Crc.ChecksumBytes(info)
  {
    assert PayloadBits(info) >= 0;
    hide PayloadBits;
  }

  lemma StatusDepends(mem: Memory, other: Memory, at: nat, n: nat)
    requires Agree(mem, other, at, n)
    ensures FrameStatus(mem, at, n, ROOM) == FrameStatus(other, at, n, ROOM)
  {
    if n >= 4 {
      assert mem(at + 1) == other(at + 1) && mem(at + 2) == other(at + 2) && mem(at + 3) == other(at + 3);
      var info := ParseHeader(mem(at + 1), mem(at + 2));
      FramelenExact(info);
      if n >= FrameLength(info) {
        ChecksumWithin(info);
        var xs, ys := HeaderBytes(mem, at, info), HeaderBytes(other, at, info);
        hide CalculateFramelen, FrameLength, Crc.Checksum;
        forall k | 0 <= k < Crc.ChecksumBytes(info) || (k == Crc.ChecksumBytes(info) && info.mode.Joint? && info.NrofSubbands() == 4)
          ensures xs[k] == ys[k]
        {
          assert mem(at + k) == other(at + k);
        }
        Crc.ChecksumReads(info, xs, ys);
      }
    }
  }

  /** Whatever lies behind the packet, stale bytes or anything the look-ahead reads, changes nothing. */
  lemma {:induction false} ParseDepends(mem: Memory, other: Memory, at: nat, n: nat)
    requires Agree(mem, other, at, n)
    ensures Parse(mem, at, n) == Parse(other, at, n)
    decreases n
  {
    hide *;
    if n == 0 {
      ParseNothing(mem, at);
      ParseNothing(other, at);
    } else {
      ParseSteps(mem, at, n);
      ParseSteps(other, at, n);
      VerdictDepends(mem, other, at, n);
      var v := Verdict(mem, at, n, ROOM);
      if v.Ok? {
        EventDepends(mem, other, at, n);
        var e := AcceptedFrame(mem, at, n);
        AgreeTail(mem, other, at, n, e.at + e.length);
        ParseDepends(mem, other, e.at + e.length, n - (e.at + e.length - at));
      } else if !v.NotEnoughHeaderData? && !v.NotEnoughBodyData? {
        AgreeTail(mem, other, at, n, at + 1);
        ParseDepends(mem, other, at + 1, n - 1);
      }
    }
  }

  lemma AgreeTail(mem: Memory, other: Memory, at: nat, n: nat, later: nat)
    requires Agree(mem, other, at, n) && at <= later <= at + n
    ensures Agree(mem, other, later, n - (later - at))
  {
  }

  /** One round of the parse. */
  lemma ParseSteps(mem: Memory, at: nat, n: nat)
    requires n > 0
    ensures var v := Verdict(mem, at, n, ROOM);
      && (v.Ok? ==> var e := AcceptedFrame(mem, at, n); Parse(mem, at, n) == [e] + Parse(mem, e.at + e.length, n - (e.at + e.length - at)))
      && (v.NotEnoughHeaderData? || v.NotEnoughBodyData? ==> Parse(mem, at, n) == [Cut])
      && (!v.Ok? && !v.NotEnoughHeaderData? && !v.NotEnoughBodyData? ==> Parse(mem, at, n) == [Bad] + Parse(mem, at + 1, n - 1))
  {
    hide Verdict, AcceptedFrame;
  }

  lemma VerdictDepends(mem: Memory, other: Memory, at: nat, n: nat)
    requires Agree(mem, other, at, n)
    ensures Verdict(mem, at, n, ROOM) == Verdict(other, at, n, ROOM)
  {
    hide FrameStatus;
    SkippedDepends(mem, other, at, n);
    if n > 0 {
      StatusDepends(mem, other, at + Skipped(mem, at, n), n - Skipped(mem, at, n));
    }
  }

  lemma EventDepends(mem: Memory, other: Memory, at: nat, n: nat)
    requires Agree(mem, other, at, n) && Verdict(mem, at, n, ROOM).Ok? && Verdict(other, at, n, ROOM).Ok?
    ensures AcceptedFrame(mem, at, n) == AcceptedFrame(other, at, n)
  {
    hide Verdict, FrameLength, PcmFrames;
    SkippedDepends(mem, other, at, n);
    AcceptedFits(mem, at, n, ROOM);
    assert 4 <= FrameLength(ParseHeader(mem(at + Skipped(mem, at, n) + 1), mem(at + Skipped(mem, at, n) + 2))) <= n - Skipped(mem, at, n);
  }

  // ---- packets as bytes ----

  /** Bytes as a memory of their own. */
  function MemoryOf(data: seq<byte>): Memory {
    (i: nat) => if i < |data| then data[i] else 0
  }

  function EventsOf(data: seq<byte>): seq<Event> {
    Parse(MemoryOf(data), 0, |data|)
  }

  /** A whole frame the decoder accepts. */
  ghost predicate ValidFrame(f: seq<byte>) {
    |f| >= 4 && GoodFrame(MemoryOf(f), 0, ROOM) && |f| == FrameLength(ParseHeader(f[1], f[2]))
  }

  /** A packet of valid frames, one after the other, decodes to exactly these frames. */
  lemma {:induction false} WholeFramesDecode(mem: Memory, at: nat, frames: seq<seq<byte>>)
    requires forall i :: 0 <= i < |frames| ==> ValidFrame(frames[i])
    requires Holds(mem, at, Concat(frames))
    ensures var es := Parse(mem, at, |Concat(frames)|);
      |es| == |frames| && forall i :: 0 <= i < |es| ==> es[i].Frame? && es[i].length == |frames[i]|
    decreases |frames|
  {
    hide Parse, GoodFrame, FrameLength, Holds, MemoryOf;
    if frames != [] {
      var f, rest := frames[0], Concat(frames[1..]);
      assert ValidFrame(f);
      HoldsParts(mem, at, f, rest);
      assert Concat(frames) == f + rest;
      forall i | 0 <= i < |frames[1..]| ensures ValidFrame(frames[1..][i]) {
        assert frames[1..][i] == frames[i + 1];
      }
      WholeFramesDecode(mem, at + |f|, frames[1..]);
      FirstFrame(mem, at, f, |f| + |rest|);
      var es := Parse(mem, at, |f| + |rest|);
      forall i | 0 <= i < |es| ensures es[i].Frame? && es[i].length == |frames[i]| {
        if i > 0 {
          assert es[i] == Parse(mem, at + |f|, |rest|)[i - 1] && frames[i] == frames[1..][i - 1];
        }
      }
    } else {
      ParseNothing(mem, at);
    }
  }

  lemma ParseNothing(mem: Memory, at: nat)
    ensures Parse(mem, at, 0) == []
  {
  }

  lemma HoldsParts(mem: Memory, at: nat, xs: seq<byte>, ys: seq<byte>)
    requires Holds(mem, at, xs + ys)
    ensures Holds(mem, at, xs) && Holds(mem, at + |xs|, ys)
  {
    forall i | 0 <= i < |xs| ensures mem(at + i) == xs[i] {
      assert mem(at + i) == (xs + ys)[i];
    }
    forall i | 0 <= i < |ys| ensures mem(at + |xs| + i) == ys[i] {
      assert mem(at + (|xs| + i)) == (xs + ys)[|xs| + i];
    }
  }

  /** The first frame of a packet is decoded whatever follows it. */
  lemma FirstFrame(mem: Memory, at: nat, f: seq<byte>, n: nat)
    requires ValidFrame(f) && Holds(mem, at, f) && n >= |f|
    ensures var es := Parse(mem, at, n);
      es != [] && es[0].Frame? && es[0].length == |f| && es[1..] == Parse(mem, at + |f|, n - |f|)
  {
    hide Verdict, GoodFrame, FrameLength, PcmFrames;
    FrameMoves(mem, at, f);
    GoodFrameAccepted(mem, at, n, ROOM);
    assert mem(at + 1) == f[1] && mem(at + 2) == f[2];
    var e := AcceptedFrame(mem, at, n);
    assert e.at == at && e.length == |f|;
    assert Parse(mem, at, n) == [e] + Parse(mem, at + |f|, n - |f|);
  }

  /** A frame is as good in a packet as on its own. */
  lemma FrameMoves(mem: Memory, at: nat, f: seq<byte>)
    requires ValidFrame(f) && Holds(mem, at, f)
    ensures GoodFrame(mem, at, ROOM)
  {
    var own: Memory := MemoryOf(f);
    var shifted: Memory := (i: nat) => mem(at + i);
    assert mem(at + 0) == f[0] && mem(at + 1) == f[1] && mem(at + 2) == f[2] && mem(at + 3) == f[3];
    assert own(1) == f[1] && own(2) == f[2];
    hide FrameStatus, FrameLength;
    assert Agree(shifted, own, 0, |f|) by {
      forall i | 0 <= i < |f| ensures shifted(i) == own(i) {
        assert mem(at + i) == f[i];
      }
    }
    StatusDepends(shifted, own, 0, |f|);
    StatusShifts(mem, at, |f|);
  }

  lemma StatusShifts(mem: Memory, at: nat, n: nat)
    ensures FrameStatus((i: nat) => mem(at + i), 0, n, ROOM) == FrameStatus(mem, at, n, ROOM)
  {
    var shifted: Memory := (i: nat) => mem(at + i);
    if n >= 4 {
      var info := ParseHeader(mem(at + 1), mem(at + 2));
      assert HeaderBytes(shifted, 0, info) == HeaderBytes(mem, at, info);
    }
    hide Crc.Checksum, CalculateFramelen, HeaderBytes, PcmFrames;
  }

  // ---- counting events ----

  // ---- resynchronisation ----

  /** The frame at a syncword is refused, and not because it ends behind the data. */
  ghost predicate Refused(mem: Memory, q: nat, bytes: nat) {
    var status := FrameStatus(mem, q, bytes, ROOM);
    !status.Ok? && !status.NotEnoughHeaderData? && !status.NotEnoughBodyData?
  }

  /** A good frame behind rubbish is found. Up to the last false syncword before it every byte is one
      refusal; the bytes between that and the frame are skipped with the frame itself. */
  lemma {:induction false} Resynchronises(mem: Memory, at: nat, n: nat, s: nat, p: nat)
    requires at <= s <= p && GoodFrame(mem, p, ROOM) && p + FrameLength(ParseHeader(mem(p + 1), mem(p + 2))) <= at + n
    requires forall q :: s <= q < p ==> mem(q) != 0x9C
    requires s == at || mem(s - 1) == 0x9C
    requires forall q :: at <= q < s && mem(q) == 0x9C ==> Refused(mem, q, at + n - q)
    ensures var info := ParseHeader(mem(p + 1), mem(p + 2));
      Parse(mem, at, n) == seq(s - at, _ => Bad) + [Frame(p, FrameLength(info), PcmFrames(info))]
                           + Parse(mem, p + FrameLength(info), at + n - p - FrameLength(info))
    decreases s - at
  {
    hide *;
    GoodFrameAccepted(mem, p, at + n - p, ROOM);
    StartsFrame(mem, p);
    ParseSteps(mem, at, n);
    if at == s {
      SkipsTo(mem, p, at + n - p, p);
      SkipsTo(mem, at, n, p);
      AcceptedAt(mem, at, n, p);
      assert seq(0, _ => Bad) == [];
    } else {
      Resynchronises(mem, at + 1, n - 1, s, p);
      RefusedAt(mem, at, n, s);
      assert seq(s - at, _ => Bad) == [Bad] + seq(s - at - 1, _ => Bad);
    }
  }

  lemma StartsFrame(mem: Memory, p: nat)
    requires GoodFrame(mem, p, ROOM)
    ensures mem(p) == 0x9C
  {
    hide FrameStatus;
  }

  lemma SkipsTo(mem: Memory, at: nat, n: nat, p: nat)
    requires at <= p < at + n && mem(p) == 0x9C && forall q :: at <= q < p ==> mem(q) != 0x9C
    ensures Skipped(mem, at, n) == p - at && Verdict(mem, at, n, ROOM) == FrameStatus(mem, p, at + n - p, ROOM)
  {
    hide FrameStatus;
    var q := at + Skipped(mem, at, n);
    if q < p {
      assert false;
    }
  }

  lemma AcceptedAt(mem: Memory, at: nat, n: nat, p: nat)
    requires Skipped(mem, at, n) == p - at && Verdict(mem, at, n, ROOM).Ok?
    ensures var info := ParseHeader(mem(p + 1), mem(p + 2));
      AcceptedFrame(mem, at, n) == Frame(p, FrameLength(info), PcmFrames(info))
  {
    hide Verdict, FrameLength, PcmFrames, ParseHeader;
  }

  lemma RefusedAt(mem: Memory, at: nat, n: nat, s: nat)
    requires at < s <= at + n && mem(s - 1) == 0x9C
    requires forall q :: at <= q < s && mem(q) == 0x9C ==> Refused(mem, q, at + n - q)
    ensures var v := Verdict(mem, at, n, ROOM); !v.Ok? && !v.NotEnoughHeaderData? && !v.NotEnoughBodyData?
  {
    hide FrameStatus;
    var q := at + Skipped(mem, at, n);
    assert Refused(mem, q, at + n - q);
  }

  /** All counts of a packet or of several packets. */
  datatype Tally = Tally(frames: nat, bad: nat, cut: nat, pcm: nat)

  /** What one event adds: a decoded frame with its PCM, or a refusal that may end the packet. */
  function TallyFirst(e: Event): Tally {
    match e
    case Frame(_, _, pcmFrames) => Tally(1, 0, 0, pcmFrames)
    case Bad => Tally(0, 1, 0, 0)
    case Cut => Tally(0, 1, 1, 0)
  }

  function TallyOf(es: seq<Event>): Tally {
    if es == [] then Tally(0, 0, 0, 0) else Both(TallyFirst(es[0]), TallyOf(es[1..]))
  }

  function Both(a: Tally, b: Tally): Tally {
    Tally(a.frames + b.frames, a.bad + b.bad, a.cut + b.cut, a.pcm + b.pcm)
  }

  lemma TallyStep(es: seq<Event>)
    ensures es == [] ==> TallyOf(es) == Tally(0, 0, 0, 0)
    ensures es != [] ==> TallyOf(es) == Both(TallyFirst(es[0]), TallyOf(es[1..]))
  {
  }

  lemma BothAssociates(a: Tally, b: Tally, c: Tally)
    ensures Both(a, Both(b, c)) == Both(Both(a, b), c)
  {
  }

  lemma NothingAdded(a: Tally)
    ensures Both(Tally(0, 0, 0, 0), a) == a == Both(a, Tally(0, 0, 0, 0))
  {
  }

  /** What some packets come to, one after the other. */
  function TallyAll(packets: seq<seq<byte>>): Tally {
    if packets == [] then Tally(0, 0, 0, 0) else Both(TallyAll(packets[..|packets| - 1]), TallyOf(EventsOf(packets[|packets| - 1])))
  }

  lemma {:induction false} AllFrames(es: seq<Event>)
    requires forall i :: 0 <= i < |es| ==> es[i].Frame?
    ensures var t := TallyOf(es); t.frames == |es| && t.bad == t.cut == 0
  {
    if es != [] {
      AllFrames(es[1..]);
    }
  }

  /** k valid frames in a packet count as k decoded frames and nothing else. */
  lemma WholePacketTally(frames: seq<seq<byte>>)
    requires forall i :: 0 <= i < |frames| ==> ValidFrame(frames[i])
    ensures var t := TallyOf(EventsOf(Concat(frames))); t.frames == |frames| && t.bad == t.cut == 0
  {
    hide Parse, ValidFrame, TallyOf;
    OwnMemory(Concat(frames));
    WholeFramesDecode(MemoryOf(Concat(frames)), 0, frames);
    AllFrames(EventsOf(Concat(frames)));
  }

  /** Packets, each a list of frames one behind the other. */
  function Joined(packets: seq<seq<seq<byte>>>): (data: seq<seq<byte>>)
    ensures |data| == |packets|
  {
    seq(|packets|, i requires 0 <= i < |packets| => Concat(packets[i]))
  }

  ghost predicate AllValid(packets: seq<seq<seq<byte>>>) {
    forall i, j :: 0 <= i < |packets| && 0 <= j < |packets[i]| ==> ValidFrame(packets[i][j])
  }

  /** The frames of all packets in one list. */
  function Listed(packets: seq<seq<seq<byte>>>): seq<seq<byte>> {
    if packets == [] then [] else Listed(packets[..|packets| - 1]) + packets[|packets| - 1]
  }

  /** Packets of valid frames count as all their frames, however these are spread over the packets. */
  lemma {:induction false} ValidFramesTally(packets: seq<seq<seq<byte>>>)
    requires AllValid(packets)
    ensures var t := TallyAll(Joined(packets)); t.frames == |Listed(packets)| && t.bad == t.cut == 0
  {
    hide ValidFrame, Concat, Parse, TallyOf;
    if packets != [] {
      var n := |packets| - 1;
      ValidFramesTally(packets[..n]);
      WholePacketTally(packets[n]);
      assert Joined(packets)[..n] == Joined(packets[..n]);
    }
  }

  /** Where the frames, the refusals and the cut of a packet are among its events. */
  ghost function FramesOf(es: seq<Event>): set<int> {
    set i | 0 <= i < |es| && es[i].Frame?
  }

  ghost function RefusalsOf(es: seq<Event>): set<int> {
    set i | 0 <= i < |es| && !es[i].Frame?
  }

  ghost function CutsOf(es: seq<Event>): set<int> {
    set i | 0 <= i < |es| && es[i].Cut?
  }

  lemma FramesSnoc(es: seq<Event>, e: Event)
    ensures |FramesOf(es + [e])| == |FramesOf(es)| + (if e.Frame? then 1 else 0)
  {
    var all, n := es + [e], |es|;
    assert all[n] == e;
    forall i | 0 <= i < n ensures all[i] == es[i] {
    }
    if e.Frame? {
      assert FramesOf(all) == FramesOf(es) + {n};
    } else {
      assert FramesOf(all) == FramesOf(es);
    }
  }

  lemma RefusalsSnoc(es: seq<Event>, e: Event)
    ensures |RefusalsOf(es + [e])| == |RefusalsOf(es)| + (if !e.Frame? then 1 else 0)
  {
    var all, n := es + [e], |es|;
    assert all[n] == e;
    forall i | 0 <= i < n ensures all[i] == es[i] {
    }
    if !e.Frame? {
      assert RefusalsOf(all) == RefusalsOf(es) + {n};
    } else {
      assert RefusalsOf(all) == RefusalsOf(es);
    }
  }

  lemma CutsSnoc(es: seq<Event>, e: Event)
    ensures |CutsOf(es + [e])| == |CutsOf(es)| + (if e.Cut? then 1 else 0)
  {
    var all, n := es + [e], |es|;
    assert all[n] == e;
    forall i | 0 <= i < n ensures all[i] == es[i] {
    }
    if e.Cut? {
      assert CutsOf(all) == CutsOf(es) + {n};
    } else {
      assert CutsOf(all) == CutsOf(es);
    }
  }

  /** Each event is counted once: as a frame or as a refusal, and the cut besides. */
  lemma {:induction false} TallyCounts(es: seq<Event>)
    ensures TallyOf(es).frames == |FramesOf(es)| && TallyOf(es).bad == |RefusalsOf(es)| && TallyOf(es).cut == |CutsOf(es)|
  {
    if es != [] {
      hide TallyOf, FramesOf, RefusalsOf, CutsOf;
      var n := |es| - 1;
      TallyCounts(es[..n]);
      TallySnoc(es[..n], es[n]);
      FramesSnoc(es[..n], es[n]);
      RefusalsSnoc(es[..n], es[n]);
      CutsSnoc(es[..n], es[n]);
      assert es == es[..n] + [es[n]];
    }
  }

  lemma {:induction false} TallySnoc(es: seq<Event>, e: Event)
    ensures TallyOf(es + [e]) == Both(TallyOf(es), TallyFirst(e))
  {
    if es == [] {
      assert es + [e] == [e] && [e][1..] == [];
    } else {
      assert (es + [e])[1..] == es[1..] + [e];
      TallySnoc(es[1..], e);
    }
  }

  lemma OwnMemory(data: seq<byte>)
    ensures Holds(MemoryOf(data), 0, data)
  {
  }

  /** The events of a packet do not depend on where it lies and what surrounds it. */
  lemma OwnEvents(scratch: seq<byte>, length: nat)
    requires length <= |scratch|
    ensures Parse(MemoryOf(scratch), 0, length) == EventsOf(scratch[..length])
  {
    ParseDepends(MemoryOf(scratch), MemoryOf(scratch[..length]), 0, length);
  }
}
