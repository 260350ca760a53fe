/** A2dpSinkStream: encoded packets in, PCM out. */
module A2dpSinkStream {
  import opened BitStrings
  import opened BitReader
  import opened BitNeeds
  import opened FrameLayout
  import opened FrameLengths
  import opened DecoderSbc
  import opened PacketParse
  import opened Playback
  import opened EncodedPacketQueue
  import opened PcmOverflow
  import opened PcmRing
  import opened SbcDecoder
  import SynthesisWindow

  datatype Error =
    | None | NotInitialized | InvalidConfiguration | AllocationFailed | UnsupportedCodec
    | QueueOverflow | InvalidFrame | DecodeFailure | PcmOverflow | ConcurrentUpdate

  datatype Codec = Unknown | Sbc | Msbc | Cvsd

  datatype EncodedAudioFormat = EncodedAudioFormat(codec: Codec, sampleRate: nat, channels: nat, minimumBitpool: nat, maximumBitpool: nat)

  /** uint32_t counters wrap. */
  type Word = x: int | 0 <= x < 0x1_0000_0000

  function Advanced(counter: Word, n: nat): Word {
    (counter + n) % 0x1_0000_0000
  }

  function Incremented(counter: Word): Word {
    Advanced(counter, 1)
  }

  /** Sums of counted events, in the counters' own arithmetic. */
  lemma AdvancedIs(counter: Word, n: nat)
    ensures Advanced(counter, n) == (counter + n) % 0x1_0000_0000
    ensures Incremented(counter) == (counter + 1) % 0x1_0000_0000
  {
  }

  class A2dpSinkStream {
    const encodedQueue: EncodedPacketQueue
    const pcmQueue: PcmRing
    const decoder: SbcDecoder
    const packetScratch: array<byte>
    const pcmScratch: array<int>
    const maximumPacketBytes: nat
    const dropOldest: bool
    var codecConfig: EncodedAudioFormat
    var format: PcmFormat
    var updating: bool
    var lastTimestamp: nat
    var haveTimestamp: bool
    var receivedPackets: Word
    var droppedPackets: Word
    var invalidFrames: Word
    var decodeFailures: Word
    var decodedFrames: Word
    var pcmOverflowFrames: Word
    var timestampDiscontinuities: Word
    var lastError: Error
    ghost var account: Account

    /** A begin with a consistent configuration that finds its memory. */
    constructor (maximumPacketBytes: nat, encodedQueueBytes: nat, pcmQueueFrames: nat, dropOldest: bool, W: nat,
                 bank4: SynthesisWindow.Bank, bank8: SynthesisWindow.Bank)
      requires 0 < maximumPacketBytes <= MAX_PACKET_BYTES && pcmQueueFrames > 0
      requires maximumPacketBytes + HEADER_BYTES <= encodedQueueBytes < W
      requires bank4.Valid() && bank4.bands == 4 && bank8.Valid() && bank8.bands == 8
      ensures Valid() && encodedQueue.contents == [] && account == Account(0, 0, 0, 0, 0) && !format.IsValid()
    {
      encodedQueue := new EncodedPacketQueue(encodedQueueBytes, W);
      pcmQueue := new PcmRing(pcmQueueFrames, 2);
      decoder := new SbcDecoder(bank4, bank8);
      packetScratch := new byte[maximumPacketBytes](_ => 0);
      pcmScratch := new int[256](_ => 0);
      this.maximumPacketBytes := maximumPacketBytes;
      this.dropOldest := dropOldest;
      codecConfig := EncodedAudioFormat(Unknown, 0, 0, 0, 0);
      format := NO_FORMAT;
      updating := false;
      lastTimestamp, haveTimestamp := 0, false;
      receivedPackets, droppedPackets, invalidFrames, decodeFailures := 0, 0, 0, 0;
      decodedFrames, pcmOverflowFrames, timestampDiscontinuities := 0, 0, 0;
      lastError := None;
      account := Account(0, 0, 0, 0, 0);
    }

    function Repr(): set<object> {
      {encodedQueue, encodedQueue.buffer, pcmQueue, decoder, decoder.context, packetScratch, pcmScratch} + decoder.context.Repr()
    }

    /** The buffers are there and none of them is another. */
    ghost predicate Wired() {
      && 0 < maximumPacketBytes <= MAX_PACKET_BYTES && packetScratch.Length == maximumPacketBytes && pcmScratch.Length == 256
      && packetScratch != encodedQueue.buffer && pcmScratch !in decoder.context.Repr() && pcmQueue.capacity > 0
    }

    /** Every PCM frame that was decoded is accounted for; none vanishes unless the ring is smaller than
        one decoded frame and drops the oldest. */
    ghost predicate Balanced()
      reads `account, `pcmOverflowFrames, pcmQueue
    {
      && account.made == account.taken + pcmQueue.frames + account.overflowed + account.discarded + account.vanished
      && pcmOverflowFrames == account.overflowed % 0x1_0000_0000
      && (pcmQueue.capacity >= ROOM || !dropOldest ==> account.vanished == 0)
    }

    /** Everything but the interleave of the decoder, which a reset sets. */
    ghost predicate Sound()
      reads this, Repr()
    {
      && Wired() && encodedQueue.Valid() && pcmQueue.Valid() && decoder.Valid() && Balanced()
      && (format.IsValid() ==> format.channels == pcmQueue.channels)
    }

    ghost predicate Valid()
      reads this, Repr()
    {
      Sound() && (format.IsValid() ==> format.channels == decoder.context.pcmStride)
    }

    /** pushEncoded: the packet goes into the queue whole or is counted as dropped. */
    method PushEncoded(data: seq<byte>, frameCount: nat, timestamp: nat) returns (ok: bool)
      requires Valid() && frameCount < 0x1_0000 && timestamp < 0x1_0000_0000
      modifies this, encodedQueue, encodedQueue.buffer
      ensures encodedQueue.CountersFit(encodedQueue.written) ==> Valid()
      ensures account == old(account) && format == old(format)
      ensures ok <==> 1 <= |data| <= MAX_PACKET_BYTES && HEADER_BYTES + |data| <= encodedQueue.capacity - |Records(old(encodedQueue.contents))|
      ensures encodedQueue.contents == if ok then old(encodedQueue.contents) + [Packet(data, frameCount, timestamp)] else old(encodedQueue.contents)
      ensures receivedPackets == (old(receivedPackets) + 1) % 0x1_0000_0000
      ensures droppedPackets == if ok then old(droppedPackets) else (old(droppedPackets) + 1) % 0x1_0000_0000
      ensures haveTimestamp && lastTimestamp == timestamp
      ensures timestampDiscontinuities ==
        if old(haveTimestamp) && timestamp <= old(lastTimestamp)
        then (old(timestampDiscontinuities) + 1) % 0x1_0000_0000 else old(timestampDiscontinuities)
      ensures lastError == if ok then old(lastError) else QueueOverflow
    {
      hide *;
      Parts(this);
      Separated(decoder.context);
      NoteArrival(timestamp);
      ok := encodedQueue.Push(data, frameCount, timestamp);
      if !ok {
        Whole(this);
        NoteDrop();
      } else {
        PushedIs(encodedQueue, Packet(data, frameCount, timestamp), old(encodedQueue.contents), old(encodedQueue.written),
                 old(encodedQueue.buffer[..]), old(encodedQueue.writePos), old(encodedQueue.packets));
        if encodedQueue.CountersFit(encodedQueue.written) {
          Whole(this);
        }
      }
    }

    method NoteDrop()
      requires Valid()
      modifies `droppedPackets, `lastError
      ensures Valid() && droppedPackets == (old(droppedPackets) + 1) % 0x1_0000_0000 && lastError == QueueOverflow
    {
      hide *;
      Parts(this);
      Separated(decoder.context);
      AdvancedIs(droppedPackets, 1);
      droppedPackets := Incremented(droppedPackets);
      lastError := QueueOverflow;
      Whole(this);
    }

    /** Ordering only: a timestamp that does not advance means the stream jumped. */
    method NoteArrival(timestamp: nat)
      modifies `receivedPackets, `timestampDiscontinuities, `lastTimestamp, `haveTimestamp
      ensures receivedPackets == (old(receivedPackets) + 1) % 0x1_0000_0000 && haveTimestamp && lastTimestamp == timestamp
      ensures timestampDiscontinuities ==
        if old(haveTimestamp) && timestamp <= old(lastTimestamp)
        then (old(timestampDiscontinuities) + 1) % 0x1_0000_0000 else old(timestampDiscontinuities)
    {
      receivedPackets := Incremented(receivedPackets);
      if haveTimestamp && timestamp <= lastTimestamp {
        timestampDiscontinuities := Incremented(timestampDiscontinuities);
      }
      lastTimestamp := timestamp;
      haveTimestamp := true;
    }

    /** readFrames, while no update is running. */
    method ReadFrames(out: array<int>, frameCount: nat) returns (n: nat)
      requires Valid() && Values(frameCount, pcmQueue.channels) <= out.Length && out !in Repr()
      modifies this`account, pcmQueue, out
      ensures Valid() && n == Least(frameCount, old(pcmQueue.frames)) && pcmQueue.frames == old(pcmQueue.frames) - n
      ensures pcmQueue.channels == old(pcmQueue.channels) && n * pcmQueue.channels <= out.Length
      ensures out[..n * pcmQueue.channels] + pcmQueue.values == old(pcmQueue.values)
      ensures |pcmQueue.values| == pcmQueue.frames * pcmQueue.channels
      ensures account == old(account).(taken := old(account).taken + n)
    {
      hide *;
      Parts(this);
      Separated(decoder.context);
      PartApart(this, out);
      ghost var before := out[..];
      n := pcmQueue.ReadFrames(out, frameCount);
      account := account.(taken := account.taken + n);
      Taking(n, pcmQueue.channels, before, out[..], old(pcmQueue.values), pcmQueue.values);
      RingValues(pcmQueue);
      ValuesAre(n, pcmQueue.channels);
      LeastIs(frameCount, old(pcmQueue.frames));
      Whole(this);
    }

    // ---- control ----

    /** reset: everything buffered is discarded and the decoder starts afresh. */
    method Reset()
      requires Sound()
      modifies this`haveTimestamp, this`lastTimestamp, this`account, Repr()
      ensures Valid() && encodedQueue.contents == [] && pcmQueue.frames == 0
      ensures pcmQueue.channels == old(pcmQueue.channels)
      ensures encodedQueue.written == old(encodedQueue.written)
      ensures Playing() == Player(0, [], [], [])
      ensures !haveTimestamp && lastTimestamp == 0
      ensures account == old(account).(discarded := old(account).discarded + old(pcmQueue.frames))
    {
      hide *;
      SoundParts(this);
      ReprIs(this);
      ClearQueues();
      SoundAgain(this);
      RestartDecoder();
      Parts(this);
      lastTimestamp, haveTimestamp := 0, false;
      PlayingIs(this);
      Whole(this);
    }

    /** The decoder starts afresh, with the interleave of the format. */
    method RestartDecoder()
      requires Sound()
      modifies decoder, decoder.context, decoder.context.Repr()
      ensures Valid() && decoder.context.ls == decoder.context.rs == []
    {
      hide *;
      SoundParts(this);
      ReprIs(this);
      FormatChannels(format);
      decoder.Reset(if format.IsValid() then format.channels else 2);
      Whole(this);
    }

    method ClearQueues()
      requires encodedQueue.Valid() && pcmQueue.Valid()
      modifies this`account, encodedQueue, pcmQueue
      ensures encodedQueue.Valid() && encodedQueue.contents == [] && encodedQueue.written == old(encodedQueue.written)
      ensures pcmQueue.Valid() && pcmQueue.frames == 0 && pcmQueue.values == [] && pcmQueue.channels == old(pcmQueue.channels)
      ensures account == old(account).(discarded := old(account).discarded + old(pcmQueue.frames))
    {
      hide *;
      account := account.(discarded := account.discarded + pcmQueue.frames);
      encodedQueue.Clear();
      ChannelsKnown(pcmQueue);
      pcmQueue.Clear(pcmQueue.channels);
    }

    // ---- PCM ----

    /** One readFrames into the decode scratch, counted as overflow. */
    method DropChunk(chunk: nat) returns (dropped: nat)
      requires Valid() && chunk <= ROOM
      modifies this`pcmOverflowFrames, this`account, pcmQueue, pcmScratch
      ensures Valid() && pcmQueue.channels == old(pcmQueue.channels) && dropped == Least(chunk, old(pcmQueue.frames))
      ensures Moved(dropped, RingOf(old(pcmQueue.frames), old(pcmQueue.values), old(pcmScratch[..])),
                    RingOf(pcmQueue.frames, pcmQueue.values, pcmScratch[..]), pcmQueue.channels)
      ensures account == old(account).(overflowed := old(account).overflowed + dropped)
    {
      hide *;
      Parts(this);
      Separated(decoder.context);
      ScratchRoom(this, chunk);
      dropped := pcmQueue.ReadFrames(pcmScratch, chunk);
      Counted(account.overflowed, dropped);
      account := account.(overflowed := account.overflowed + dropped);
      pcmOverflowFrames := Advanced(pcmOverflowFrames, dropped);
      LeastIs(chunk, old(pcmQueue.frames));
      MovedBy(dropped, RingOf(old(pcmQueue.frames), old(pcmQueue.values), old(pcmScratch[..])),
              RingOf(pcmQueue.frames, pcmQueue.values, pcmScratch[..]), pcmQueue.channels);
      Whole(this);
    }

    /** Make room by reading the oldest frames into the decode scratch, chunk by chunk. */
    method DropFrames(count: nat) returns (total: nat)
      requires Valid() && count <= ROOM
      modifies this`pcmOverflowFrames, this`account, pcmQueue, pcmScratch
      ensures Valid() && pcmQueue.channels == old(pcmQueue.channels) && total == Least(count, old(pcmQueue.frames))
      ensures Moved(total, RingOf(old(pcmQueue.frames), old(pcmQueue.values), old(pcmScratch[..])),
                    RingOf(pcmQueue.frames, pcmQueue.values, pcmScratch[..]), pcmQueue.channels)
      ensures account == old(account).(overflowed := old(account).overflowed + total)
    {
      hide *;
      ghost var start := RingOf(pcmQueue.frames, pcmQueue.values, pcmScratch[..]);
      var needed := count;
      NothingMoved(start, pcmQueue.channels);
      LeastIs(count, start.frames);
      while needed > 0
        invariant needed <= count && Valid() && pcmQueue.channels == old(pcmQueue.channels)
        invariant needed < count ==> count - needed == Least(count, start.frames) && (needed > 0 ==> pcmQueue.frames == 0)
        invariant needed == count ==> pcmQueue.frames == start.frames
        invariant Moved(count - needed, start, RingOf(pcmQueue.frames, pcmQueue.values, pcmScratch[..]), pcmQueue.channels)
        invariant account == old(account).(overflowed := old(account).overflowed + (count - needed))
        decreases needed
      {
        ghost var before := RingOf(pcmQueue.frames, pcmQueue.values, pcmScratch[..]);
        LeastIs(needed, ROOM);
        LeastIs(needed, pcmQueue.frames);
        var dropped := DropChunk(Least(needed, ROOM));
        MovedOn(count - needed, dropped, start, before, RingOf(pcmQueue.frames, pcmQueue.values, pcmScratch[..]), pcmQueue.channels);
        if dropped == 0 {
          break;
        }
        needed := needed - dropped;
      }
      total := count - needed;
    }

    /** DropNewest: the tail of the new frames is counted as overflow. */
    method CutTail(count: nat) returns (room: nat)
      requires Valid() && count > pcmQueue.FreeFrames()
      modifies this`pcmOverflowFrames, this`account
      ensures Valid() && room == old(pcmQueue.FreeFrames())
      ensures account == old(account).(made := old(account).made + (count - room), overflowed := old(account).overflowed + (count - room))
    {
      hide *;
      Parts(this);
      Separated(decoder.context);
      room := pcmQueue.FreeFrames();
      Counted(account.overflowed, count - room);
      account := account.(made := account.made + (count - room), overflowed := account.overflowed + (count - room));
      pcmOverflowFrames := Advanced(pcmOverflowFrames, count - room);
      Whole(this);
    }

    /** The frames go into the ring, as many as fit. */
    method Append(pcm: seq<int>, frames: nat) returns (n: nat)
      requires Valid() && Values(frames, pcmQueue.channels) <= |pcm|
      requires pcmQueue.capacity >= ROOM || !dropOldest ==> frames <= pcmQueue.FreeFrames()
      modifies this`account, pcmQueue
      ensures Valid() && pcmQueue.channels == old(pcmQueue.channels)
      ensures n == Least(frames, old(pcmQueue.FreeFrames())) && pcmQueue.frames == old(pcmQueue.frames) + n
      ensures Values(n, pcmQueue.channels) <= |pcm|
      ensures pcmQueue.values == old(pcmQueue.values) + pcm[..Values(n, pcmQueue.channels)]
      ensures account == old(account).(made := old(account).made + frames, vanished := old(account).vanished + (frames - n))
    {
      hide *;
      Parts(this);
      Separated(decoder.context);
      LeastIs(frames, pcmQueue.FreeFrames());
      n := pcmQueue.WriteFrames(pcm, frames);
      account := account.(made := account.made + frames, vanished := account.vanished + (frames - n));
      Whole(this);
    }

    /** DropOldest on overflow: the new frames go behind what is left. */
    method WriteOverOldest(pcm: array<int>, count: nat) returns (n: nat)
      requires Valid() && dropOldest && pcmQueue.FreeFrames() < count <= ROOM
      requires Values(count, pcmQueue.channels) <= pcm.Length
      requires pcm == pcmScratch || pcm !in Repr()
      modifies this`pcmOverflowFrames, this`account, this`lastError, pcmQueue, pcmScratch
      ensures Valid() && pcmQueue.channels == old(pcmQueue.channels)
      ensures Wrote(RingOf(old(pcmQueue.frames), old(pcmQueue.values), old(pcm[..])), pcmQueue.frames, pcmQueue.values, pcm == pcmScratch,
                    dropOldest, count, n, pcmQueue.capacity, pcmQueue.channels)
      ensures SettledTo(old(account), account, dropOldest, count, n, old(pcmQueue.frames), pcmQueue.capacity)
    {
      hide *;
      Parts(this);
      FreeIs(pcmQueue);
      ghost var before, given := RingOf(pcmQueue.frames, pcmQueue.values, pcmScratch[..]), pcm[..];
      if pcm != pcmScratch {
        PartApart(this, pcm);
      }
      var k := DropFrames(count - pcmQueue.FreeFrames());
      ghost var after := RingOf(pcmQueue.frames, pcmQueue.values, pcmScratch[..]);
      Parts(this);
      FreeIs(pcmQueue);
      RoomAfter(k, before, after, count, pcmQueue.capacity, pcmQueue.channels);
      ghost var now := pcm[..];
      NoteOverflow();
      LeastIs(count, pcmQueue.FreeFrames());
      n := Append(pcm[..], count);
      OverOldest(before, given, after, now, pcm == pcmScratch, k, count, n, pcmQueue.frames, pcmQueue.values, pcmQueue.capacity, pcmQueue.channels);
      SettledOldest(old(account), account, count, n, k, before.frames, pcmQueue.capacity);
    }

    method NoteOverflow()
      requires Valid()
      modifies `lastError
      ensures Valid() && lastError == PcmOverflow
    {
      hide *;
      Parts(this);
      lastError := PcmOverflow;
      Separated(decoder.context);
      Whole(this);
    }

    /** DropNewest on overflow: what is buffered stays, the tail of the new frames goes. */
    method WriteWhatFits(pcm: array<int>, count: nat) returns (n: nat)
      requires Valid() && !dropOldest && pcmQueue.FreeFrames() < count && Values(count, pcmQueue.channels) <= pcm.Length
      modifies this`pcmOverflowFrames, this`account, this`lastError, pcmQueue
      ensures Valid() && pcmQueue.channels == old(pcmQueue.channels)
      ensures Wrote(RingOf(old(pcmQueue.frames), old(pcmQueue.values), old(pcm[..])), pcmQueue.frames, pcmQueue.values, pcm == pcmScratch,
                    dropOldest, count, n, pcmQueue.capacity, pcmQueue.channels)
      ensures SettledTo(old(account), account, dropOldest, count, n, old(pcmQueue.frames), pcmQueue.capacity)
    {
      hide *;
      Parts(this);
      FreeIs(pcmQueue);
      ghost var before := RingOf(pcmQueue.frames, pcmQueue.values, pcm[..]);
      var room := CutTail(count);
      NoteOverflow();
      FewerValues(room, count, pcmQueue.channels);
      LeastIs(count, room);
      LeastIs(room, room);
      n := 0;
      if room > 0 {
        n := Append(pcm[..], room);
      } else {
        NoValues(pcmQueue.channels);
        assert before.values + before.scratch[..0] == before.values;
      }
      WhatFits(before, pcmQueue.frames, pcmQueue.values, pcm == pcmScratch, dropOldest, count, n, pcmQueue.capacity, pcmQueue.channels);
      SettledNewest(old(account), account, dropOldest, count, n, before.frames, pcmQueue.capacity);
    }

    /** writePcm: overflow is settled by policy. The oldest frames are read into the decode scratch; when
        that is also where the new frames lie, the read lands on top of them. */
    method WritePcm(pcm: array<int>, count: nat) returns (n: nat)
      requires Valid() && count <= ROOM && Values(count, pcmQueue.channels) <= pcm.Length
      requires pcm == pcmScratch || pcm !in Repr()
      modifies this`pcmOverflowFrames, this`account, this`lastError, pcmQueue, pcmScratch
      ensures Valid() && pcmQueue.channels == old(pcmQueue.channels)
      ensures Wrote(RingOf(old(pcmQueue.frames), old(pcmQueue.values), old(pcm[..])), pcmQueue.frames, pcmQueue.values, pcm == pcmScratch,
                    dropOldest, count, n, pcmQueue.capacity, pcmQueue.channels)
      ensures SettledTo(old(account), account, dropOldest, count, n, old(pcmQueue.frames), pcmQueue.capacity)
    {
      hide *;
      Parts(this);
      FreeIs(pcmQueue);
      ghost var before := RingOf(pcmQueue.frames, pcmQueue.values, pcm[..]);
      if pcmQueue.FreeFrames() < count {
        if dropOldest {
          n := WriteOverOldest(pcm, count);
        } else {
          n := WriteWhatFits(pcm, count);
        }
      } else {
        LeastIs(count, pcmQueue.FreeFrames());
        n := Append(pcm[..], count);
        AllFits(before, pcmQueue.frames, pcmQueue.values, pcm == pcmScratch, dropOldest, count, pcmQueue.capacity, pcmQueue.channels);
        SettledAll(old(account), account, dropOldest, count, before.frames, pcmQueue.capacity);
      }
    }

    // ---- decoding ----

    /** The counters of decoding, and the PCM frames made. */
    ghost function Meters(): Meter
      reads `decodedFrames, `invalidFrames, `decodeFailures, `account
    {
      Meter(decodedFrames, invalidFrames, decodeFailures, account.made)
    }

    /** What update can change of the sound, and what it cannot. */
    ghost function Playing(): Player
      reads pcmQueue, decoder.context
    {
      Player(pcmQueue.frames, pcmQueue.values, decoder.context.ls, decoder.context.rs)
    }

    ghost function Setting(): Setup
      reads pcmQueue
    {
      Setup(decoder.context.bank4, decoder.context.bank8, pcmQueue.channels, pcmQueue.capacity, dropOldest)
    }

    /** The scratch holds the PCM of a frame that has not been queued yet. */
    ghost predicate JustDecoded(before: Player, mem: Memory, at: nat)
      reads pcmQueue, pcmScratch, decoder.context, decoder.context.Repr()
    {
      && before.Valid() && before.frames == pcmQueue.frames && before.values == pcmQueue.values
      && decoder.context.Valid() && PoolFits(InfoAt(mem, at))
      && Decoded(decoder.context, pcmScratch[..], mem, at, InfoAt(mem, at), before.ls, before.rs)
    }

    /** The bitstream is authoritative for the sample rate. */
    method FollowRate()
      requires Valid() && format.IsValid()
      modifies `format
      ensures Valid() && format.IsValid()
      ensures format == old(format).(sampleRate := if decoder.format.IsValid() then decoder.format.sampleRate else old(format).sampleRate)
    {
      hide *;
      Parts(this);
      Separated(decoder.context);
      RateFollows(format, decoder.format);
      if decoder.format.IsValid() && decoder.format.sampleRate != format.sampleRate {
        format := format.(sampleRate := decoder.format.sampleRate);
      }
      Whole(this);
    }

    /** A decoded frame: count it, queue its PCM, follow its sample rate. */
    method TakeFrame(written: nat, ghost before: Player, ghost mem: Memory, ghost at: nat)
      requires Valid() && format.IsValid() && written <= ROOM
      requires JustDecoded(before, mem, at) && written == PcmFrames(InfoAt(mem, at))
      modifies `decodedFrames, `format, `pcmOverflowFrames, `account, `lastError, pcmQueue, pcmScratch
      ensures Valid() && format.IsValid()
      ensures format == old(format).(sampleRate := if decoder.format.IsValid() then decoder.format.sampleRate else old(format).sampleRate)
      ensures decodedFrames == (old(decodedFrames) + 1) % 0x1_0000_0000 && account.made == old(account).made + written
      ensures Meters() == old(Meters()).Plus(Tally(1, 0, 0, written))
      ensures Setting() == old(Setting()) && FramePlays(Setting(), before, Playing(), mem, at)
    {
      hide *;
      Parts(this);
      MetersAre(this);
      ScratchRoom(this, written);
      Separated(decoder.context);
      decodedFrames := Incremented(decodedFrames);
      Whole(this);
      ghost var books, pcm := account, pcmScratch[..];
      SettingIs(this);
      DecodedSounds(this, before, mem, at);
      var n := WritePcm(pcmScratch, written);
      SettingIs(this);
      PlayingIs(this);
      WrittenPlays(Setting(), before, Playing(), mem, at, pcm, n);
      FollowRate();
      MadeBy(books, account, dropOldest, written);
      MetersAre(this);
      MeterFrame(old(Meters()), Meters(), written);
      PlusIs(old(Meters()), Tally(1, 0, 0, written));
    }

    /** A refused frame. */
    method CountRefusal(consumed: nat)
      requires Valid()
      modifies `invalidFrames, `decodeFailures, `lastError
      ensures Valid() && Meters() == old(Meters()).Plus(Tally(0, 1, if consumed == 0 then 1 else 0, 0))
      ensures lastError == if consumed == 0 then DecodeFailure else InvalidFrame
      ensures Setting() == old(Setting()) && Playing() == old(Playing())
    {
      hide *;
      Parts(this);
      MetersAre(this);
      Separated(decoder.context);
      invalidFrames := Incremented(invalidFrames);
      lastError := InvalidFrame;
      if consumed == 0 {
        decodeFailures := Incremented(decodeFailures);
        lastError := DecodeFailure;
      }
      MetersAre(this);
      MeterRefusal(old(Meters()), Meters(), consumed);
      Whole(this);
    }

    /** One round of the inner loop: one decodeFrame call and what follows from it. */
    method OneFrame(mem: Memory, offset: nat, length: nat) returns (consumed: nat, stop: bool)
      requires Valid() && format.IsValid() && offset < length
      modifies `decodedFrames, `invalidFrames, `decodeFailures, `format, `pcmOverflowFrames, `account, `lastError
      modifies pcmQueue, pcmScratch, decoder, decoder.context, decoder.context.Repr()
      ensures Valid() && format.IsValid()
      ensures encodedQueue.contents == old(encodedQueue.contents) && packetScratch[..] == old(packetScratch[..])
      ensures Round(mem, offset, length - offset, consumed, stop)
      ensures Meters() == old(Meters()).Plus(RoundTally(mem, offset, length - offset))
      ensures Setting() == old(Setting())
      ensures FirstPlays(Setting(), old(Playing()), Playing(), mem, Parse(mem, offset, length - offset))
    {
      hide *;
      ghost var before := Playing();
      Parts(this);
      ReprIs(this);
      MetersAre(this);
      SettingIs(this);
      var ok, written;
      ok, consumed, written := DecodeNext(mem, offset, length - offset);
      MetersAre(this);
      SettingIs(this);
      Whole(this);
      RoundIs(mem, offset, length - offset, ok, consumed, written);
      AnswerRoom(mem, offset, length - offset, ok, consumed, written);
      stop := !ok && consumed == 0;
      if ok {
        TakeFrame(written, before, mem, offset + Skipped(mem, offset, length - offset));
      } else {
        CountRefusal(consumed);
      }
      FirstPlayed(Setting(), before, Playing(), mem, Parse(mem, offset, length - offset));
    }

    /** One decodeFrame call into the decode scratch. */
    method DecodeNext(mem: Memory, at: nat, n: nat) returns (ok: bool, consumed: nat, written: nat)
      requires Wired() && decoder.Valid() && n > 0
      modifies pcmScratch, decoder, decoder.context, decoder.context.Repr()
      ensures decoder.Valid() && decoder.context.pcmStride == old(decoder.context.pcmStride)
      ensures Answers(mem, at, n, ok, consumed, written)
      ensures if ok then JustDecoded(old(Playing()), mem, at + Skipped(mem, at, n)) else Playing() == old(Playing())
    {
      hide *;
      Separated(decoder.context);
      ContextOf(decoder);
      StrideKnown(decoder.context);
      DecodeRoom(this, mem, at, n);
      HistoriesKnown(decoder.context);
      PlayingIs(this);
      ghost var before := Playing();
      PlayerKnown(this);
      ok, consumed, written := decoder.DecodeFrame(mem, at, n, pcmScratch, ROOM);
      ContextOf(decoder);
      InfoIs(mem, at + Skipped(mem, at, n));
      if ok {
        JustNow(this, before, mem, at + Skipped(mem, at, n));
      }
      AnswerIs(mem, at, n, ok, consumed, written);
      PlayingIs(this);
    }

    /** The inner loop of update: the packet in the scratch, frame by frame. */
    method ProcessPacket(length: nat)
      requires Valid() && format.IsValid() && length <= packetScratch.Length
      modifies `decodedFrames, `invalidFrames, `decodeFailures, `format, `pcmOverflowFrames, `account, `lastError
      modifies pcmQueue, pcmScratch, decoder, decoder.context, decoder.context.Repr()
      ensures Valid() && format.IsValid() && encodedQueue.contents == old(encodedQueue.contents)
      ensures Meters() == old(Meters()).Plus(TallyOf(EventsOf(old(packetScratch[..length]))))
      ensures var t := TallyOf(EventsOf(old(packetScratch[..length])));
        && decodedFrames == (old(decodedFrames) + t.frames) % 0x1_0000_0000 && invalidFrames == (old(invalidFrames) + t.bad) % 0x1_0000_0000
        && decodeFailures == (old(decodeFailures) + t.cut) % 0x1_0000_0000 && account.made == old(account).made + t.pcm
      ensures Setting() == old(Setting())
      ensures PacketPlays(Setting(), old(Playing()), Playing(), old(packetScratch[..length]))
    {
      hide *;
      var bytes := packetScratch[..];
      var mem := MemoryOf(bytes);
      OwnEvents(bytes, length);
      assert bytes[..length] == packetScratch[..length];
      ghost var done := Tally(0, 0, 0, 0);
      ghost var all := TallyOf(Parse(mem, 0, length));
      ghost var start, first, setting := Meters(), Playing(), Setting();
      PlusNothing(start);
      MetersAre(this);
      PlusIs(start, all);
      NothingAdded(all);
      ContinuesFrom(setting, first, mem, Parse(mem, 0, length));
      var offset := 0;
      while offset < length
        invariant offset <= length && Valid() && format.IsValid()
        invariant encodedQueue.contents == old(encodedQueue.contents) && packetScratch[..] == bytes
        invariant Meters() == start.Plus(done) && Both(done, TallyOf(Parse(mem, offset, length - offset))) == all
        invariant Setting() == setting
        invariant Continues(setting, Playing(), first, mem, Parse(mem, offset, length - offset), Parse(mem, 0, length))
        decreases length - offset
      {
        ghost var before := Playing();
        var consumed, stop := OneFrame(mem, offset, length);
        ContinuesOn(setting, before, Playing(), first, mem, Parse(mem, offset, length - offset), Parse(mem, 0, length));
        RoundRest(mem, offset, length - offset, consumed, stop);
        RoundAdds(mem, offset, length - offset, consumed, stop);
        PlusBoth(start, done, RoundTally(mem, offset, length - offset));
        if stop {
          BothAssociates(done, RoundTally(mem, offset, length - offset), Tally(0, 0, 0, 0));
          NothingAdded(Both(done, RoundTally(mem, offset, length - offset)));
          MetersAre(this);
          ContinuesTo(setting, Playing(), first, mem, Parse(mem, 0, length));
          PacketPlaysAnywhere(setting, first, Playing(), bytes, length);
          return;
        }
        BothAssociates(done, RoundTally(mem, offset, length - offset), TallyOf(Parse(mem, offset + consumed, length - offset - consumed)));
        done := Both(done, RoundTally(mem, offset, length - offset));
        offset := offset + consumed;
      }
      ParseNothing(mem, offset);
      TallyStep(Parse(mem, offset, 0));
      NothingAdded(done);
      MetersAre(this);
      ContinuesTo(setting, Playing(), first, mem, Parse(mem, 0, length));
      PacketPlaysAnywhere(setting, first, Playing(), bytes, length);
    }

    /** update: every packet that fits the scratch is decoded, in order; a longer one stays at the head
        and stops the draining. A call while another is running, or before a format is known, changes nothing. */
    method Update()
      requires Valid()
      modifies this, Repr()
      ensures Valid() && (old(format).IsValid() ==> format.IsValid())
      ensures old(updating) ==> lastError == ConcurrentUpdate && updating
      ensures !old(updating) ==> !updating
      ensures old(updating) || !old(format).IsValid() ==>
        && encodedQueue.contents == old(encodedQueue.contents) && Meters() == old(Meters()) && Playing() == old(Playing())
        && account == old(account) && format == old(format)
      ensures Setting() == old(Setting())
      ensures !old(updating) && old(format).IsValid() ==>
        var ps := old(encodedQueue.contents);
        var k := Fitting(ps, maximumPacketBytes);
        var data := Payloads(ps[..k]);
        var t := TallyAll(data);
        && encodedQueue.contents == ps[k..] && PacketsPlay(Setting(), old(Playing()), Playing(), data)
        && decodedFrames == (old(decodedFrames) + t.frames) % 0x1_0000_0000 && invalidFrames == (old(invalidFrames) + t.bad) % 0x1_0000_0000
        && decodeFailures == (old(decodeFailures) + t.cut) % 0x1_0000_0000 && account.made == old(account).made + t.pcm
        && forall packets :: Joined(packets) == data && AllValid(packets) ==>
          && decodedFrames == (old(decodedFrames) + |Listed(packets)|) % 0x1_0000_0000
          && invalidFrames == old(invalidFrames) && decodeFailures == old(decodeFailures)
    {
      hide *;
      Parts(this);
      ReprIs(this);
      MetersAre(this);
      SettingIs(this);
      PlayingIs(this);
      if updating {
        RefuseUpdate();
        return;
      }
      if !format.IsValid() {
        return;
      }
      updating := true;
      Whole(this);
      MetersAre(this);
      SettingIs(this);
      PlayingIs(this);
      Drain();
      ValidFramesCounted(Payloads(old(encodedQueue.contents)[..Fitting(old(encodedQueue.contents), maximumPacketBytes)]),
                         old(decodedFrames), old(invalidFrames), old(decodeFailures), decodedFrames, invalidFrames, decodeFailures);
      Parts(this);
      updating := false;
      SettingIs(this);
      PlayingIs(this);
      Whole(this);
    }

    /** The guard of a running update. */
    method RefuseUpdate()
      requires Valid()
      modifies `lastError
      ensures Valid() && lastError == ConcurrentUpdate
      ensures Meters() == old(Meters()) && Playing() == old(Playing()) && Setting() == old(Setting())
    {
      hide *;
      Parts(this);
      MetersAre(this);
      Separated(decoder.context);
      SettingIs(this);
      PlayingIs(this);
      lastError := ConcurrentUpdate;
      MetersAre(this);
      SettingIs(this);
      PlayingIs(this);
      Whole(this);
    }

    /** The outer loop of update. */
    method Drain()
      requires Valid() && format.IsValid()
      modifies `decodedFrames, `invalidFrames, `decodeFailures, `format, `pcmOverflowFrames, `account, `lastError, Repr()
      ensures Valid() && format.IsValid()
      ensures Setting() == old(Setting())
      ensures var ps := old(encodedQueue.contents);
        var k := Fitting(ps, maximumPacketBytes);
        var t := TallyAll(Payloads(ps[..k]));
        && encodedQueue.contents == ps[k..] && PacketsPlay(Setting(), old(Playing()), Playing(), Payloads(ps[..k]))
        && decodedFrames == (old(decodedFrames) + t.frames) % 0x1_0000_0000 && invalidFrames == (old(invalidFrames) + t.bad) % 0x1_0000_0000
        && decodeFailures == (old(decodeFailures) + t.cut) % 0x1_0000_0000 && account.made == old(account).made + t.pcm
    {
      hide *;
      ReprIs(this);
      ghost var ps, start, first, setting := encodedQueue.contents, Meters(), Playing(), Setting();
      ghost var k := 0;
      NothingDrained(ps, maximumPacketBytes);
      MetersAre(this);
      PlusNothing(start);
      NothingPlays(setting, first, MemoryOf([]));
      while true
        invariant Valid() && format.IsValid()
        invariant k <= |ps| && Drained(ps, k, encodedQueue.contents, maximumPacketBytes)
        invariant Meters() == start.Plus(TallyAll(Payloads(ps[..k])))
        invariant Setting() == setting && PacketsPlay(setting, first, Playing(), Payloads(ps[..k]))
        decreases |encodedQueue.contents|
      {
        ghost var before, player := encodedQueue.contents, Playing();
        var n := Fetch();
        if n == 0 {
          FittingReached(ps, k, encodedQueue.contents, maximumPacketBytes);
          PlusIs(start, TallyAll(Payloads(ps[..k])));
          MetersAre(this);
          break;
        }
        ProcessPacket(n);
        OneDrained(ps, k, before, encodedQueue.contents, maximumPacketBytes);
        PacketsThen(setting, first, player, Playing(), Payloads(ps[..k]), ps[k].data);
        PlusBoth(start, TallyAll(Payloads(ps[..k])), TallyOf(EventsOf(ps[k].data)));
        k := k + 1;
      }
    }

    /** Take the oldest packet into the scratch, if there is one and it fits. */
    method Fetch() returns (n: nat)
      requires Valid()
      modifies encodedQueue, packetScratch
      ensures Valid() && Meters() == old(Meters()) && n <= packetScratch.Length
      ensures Setting() == old(Setting()) && Playing() == old(Playing())
      ensures n == 0 ==>
        && encodedQueue.contents == old(encodedQueue.contents)
        && (encodedQueue.contents == [] || |encodedQueue.contents[0].data| > maximumPacketBytes)
      ensures n > 0 ==>
        && old(encodedQueue.contents) != [] && encodedQueue.contents == old(encodedQueue.contents)[1..]
        && n == |old(encodedQueue.contents)[0].data| <= maximumPacketBytes && packetScratch[..n] == old(encodedQueue.contents)[0].data
    {
      hide *;
      Parts(this);
      MetersAre(this);
      Separated(decoder.context);
      ScratchIs(this);
      var length, frameCount, timestamp;
      n, length, frameCount, timestamp := encodedQueue.Pop(packetScratch, maximumPacketBytes);
      Whole(this);
      MetersAre(this);
    }

    /** setCodecConfig: another configuration discards everything buffered and restarts the decoder; a
        repeated one changes nothing. */
    method SetCodecConfig(newFormat: EncodedAudioFormat)
      requires Valid()
      modifies this, Repr()
      ensures Valid()
      ensures newFormat.codec.Sbc? && newFormat == old(codecConfig) && old(format).IsValid() ==>
        && encodedQueue.contents == old(encodedQueue.contents) && account == old(account) && format == old(format)
        && Playing() == old(Playing())
      ensures !(newFormat.codec.Sbc? && newFormat == old(codecConfig) && old(format).IsValid()) ==>
        && codecConfig == newFormat && encodedQueue.contents == [] && Playing() == Player(0, [], [], []) && !haveTimestamp
        && account == old(account).(discarded := old(account).discarded + old(pcmQueue.frames))
        && (format.IsValid() <==> newFormat.codec.Sbc? && newFormat.sampleRate > 0)
        && (format.IsValid() ==> format.sampleRate == newFormat.sampleRate && format.bitsPerSample == 16)
        && (format.IsValid() ==> format.channels == pcmQueue.channels == if newFormat.channels == 1 then 1 else 2)
        && lastError == (if !newFormat.codec.Sbc? then UnsupportedCodec else if newFormat.sampleRate == 0 then InvalidConfiguration else None)
    {
      hide *;
      Parts(this);
      ReprIs(this);
      NoFormatInvalid();
      if !newFormat.codec.Sbc? {
        Restart(newFormat, NO_FORMAT, UnsupportedCodec);
        return;
      }
      if newFormat == codecConfig && format.IsValid() {
        PlayingIs(this);
        return;
      }
      var pcm := PcmFormatOf(newFormat);
      PcmFormatIs(newFormat);
      if !pcm.IsValid() {
        Restart(newFormat, NO_FORMAT, InvalidConfiguration);
        return;
      }
      Restart(newFormat, pcm, None);
      Parts(this);
    }

    /** The common end of setCodecConfig: the ring follows the channel count, and everything is reset. */
    method Restart(newFormat: EncodedAudioFormat, pcm: PcmFormat, error: Error)
      requires Valid()
      modifies this, Repr()
      ensures Valid() && codecConfig == newFormat && format == pcm && lastError == error
      ensures encodedQueue.contents == [] && Playing() == Player(0, [], [], [])
      ensures !haveTimestamp
      ensures account == old(account).(discarded := old(account).discarded + old(pcmQueue.frames))
    {
      hide *;
      ReprIs(this);
      Reconfigure(newFormat, pcm);
      Reset();
      Parts(this);
      lastError := error;
      PlayingIs(this);
      Whole(this);
    }

    /** The new formats, and a ring for the new frame size. */
    method Reconfigure(newFormat: EncodedAudioFormat, pcm: PcmFormat)
      requires Valid()
      modifies `codecConfig, `format, `account, pcmQueue
      ensures Sound() && codecConfig == newFormat && format == pcm
      ensures account.discarded + pcmQueue.frames == old(account).discarded + old(pcmQueue.frames)
      ensures account == old(account).(discarded := account.discarded)
    {
      hide *;
      Parts(this);
      Separated(decoder.context);
      FormatChannels(pcm);
      if pcm.IsValid() && pcm.channels != pcmQueue.channels {
        account := account.(discarded := account.discarded + pcmQueue.frames);
        pcmQueue.Clear(pcm.channels);
      }
      codecConfig, format := newFormat, pcm;
      SoundAgain(this);
    }
  }

  function PcmFormatOf(format: EncodedAudioFormat): PcmFormat {
    PcmFormat(format.sampleRate, if format.channels == 1 then 1 else 2, 16)
  }

  lemma PcmFormatIs(format: EncodedAudioFormat)
    ensures var pcm := PcmFormatOf(format);
      && (pcm.IsValid() <==> format.sampleRate > 0) && pcm.sampleRate == format.sampleRate && pcm.bitsPerSample == 16
      && pcm.channels == (if format.channels == 1 then 1 else 2)
  {
  }

  lemma PushedIs(q: EncodedPacketQueue, p: Packet, before: seq<Packet>, end: nat, ring: seq<byte>, counter: nat,
                 count: nat)
    requires q.Pushed(p, before, end, ring, counter, count)
    ensures q.contents == before + [p]
  {
  }

  lemma NoFormatInvalid()
    ensures !NO_FORMAT.IsValid()
  {
  }

  lemma ScratchIs(s: A2dpSinkStream)
    requires s.Wired()
    ensures s.packetScratch.Length == s.maximumPacketBytes && s.packetScratch != s.encodedQueue.buffer
  {
  }

  // ---- how far an update drains the queue ----

  /** Packets before the first that is too long. */
  function Fitting(ps: seq<Packet>, limit: nat): (k: nat)
    ensures k <= |ps|
  {
    if ps == [] || |ps[0].data| > limit then 0 else 1 + Fitting(ps[1..], limit)
  }

  function Payloads(ps: seq<Packet>): seq<seq<byte>> {
    seq(|ps|, i requires 0 <= i < |ps| => ps[i].data)
  }

  ghost predicate Drained(ps: seq<Packet>, k: nat, left: seq<Packet>, limit: nat) {
    k <= |ps| && left == ps[k..] && forall i :: 0 <= i < k ==> |ps[i].data| <= limit
  }

  lemma NothingDrained(ps: seq<Packet>, limit: nat)
    ensures Drained(ps, 0, ps, limit) && Payloads(ps[..0]) == [] && TallyAll([]) == Tally(0, 0, 0, 0)
  {
  }

  lemma OneDrained(ps: seq<Packet>, k: nat, before: seq<Packet>, left: seq<Packet>, limit: nat)
    requires Drained(ps, k, before, limit) && before != [] && |before[0].data| <= limit && left == before[1..]
    ensures k < |ps| && ps[k] == before[0] && Drained(ps, k + 1, left, limit)
    ensures TallyAll(Payloads(ps[..k + 1])) == Both(TallyAll(Payloads(ps[..k])), TallyOf(EventsOf(ps[k].data)))
    ensures Payloads(ps[..k + 1]) == Payloads(ps[..k]) + [ps[k].data]
  {
    hide Parse, TallyOf, Both;
    var all := Payloads(ps[..k + 1]);
    assert all[..|all| - 1] == Payloads(ps[..k]) && all[|all| - 1] == ps[k].data;
  }

  lemma {:induction false} FittingIs(ps: seq<Packet>, k: nat, limit: nat)
    requires k <= |ps| && (forall i :: 0 <= i < k ==> |ps[i].data| <= limit) && (k == |ps| || |ps[k].data| > limit)
    ensures Fitting(ps, limit) == k
  {
    if k > 0 {
      FittingIs(ps[1..], k - 1, limit);
    }
  }

  lemma FittingReached(ps: seq<Packet>, k: nat, left: seq<Packet>, limit: nat)
    requires Drained(ps, k, left, limit) && (left == [] || |left[0].data| > limit)
    ensures Fitting(ps, limit) == k && left == ps[k..]
  {
    FittingIs(ps, k, limit);
  }

  /** The queue is drained exactly if no packet is longer than the scratch. */
  lemma {:induction false} AllFitting(ps: seq<Packet>, limit: nat)
    ensures Fitting(ps, limit) == |ps| <==> forall i :: 0 <= i < |ps| ==> |ps[i].data| <= limit
  {
    if ps != [] && |ps[0].data| <= limit {
      AllFitting(ps[1..], limit);
      assert forall i :: 0 < i < |ps| ==> ps[i] == ps[1..][i - 1];
    }
  }

  /** The counters of decoding at one moment. */
  datatype Meter = Meter(decoded: Word, invalid: Word, failures: Word, made: nat)
  {
    /** After some more events. */
    function Plus(t: Tally): Meter {
      Meter(Advanced(decoded, t.frames), Advanced(invalid, t.bad), Advanced(failures, t.cut), made + t.pcm)
    }
  }

  lemma MetersAre(s: A2dpSinkStream)
    ensures s.Meters() == Meter(s.decodedFrames, s.invalidFrames, s.decodeFailures, s.account.made)
  {
  }

  lemma PlusIs(m: Meter, t: Tally)
    ensures m.Plus(t) == Meter((m.decoded + t.frames) % 0x1_0000_0000, (m.invalid + t.bad) % 0x1_0000_0000,
                               (m.failures + t.cut) % 0x1_0000_0000, m.made + t.pcm)
  {
  }

  /** Packets of valid frames raise one counter, by the number of their frames. */
  lemma ValidFramesCounted(data: seq<seq<byte>>, decoded: Word, invalid: Word, failures: Word,
                           decoded': Word, invalid': Word, failures': Word)
    requires var t := TallyAll(data);
      && decoded' == (decoded + t.frames) % 0x1_0000_0000 && invalid' == (invalid + t.bad) % 0x1_0000_0000
      && failures' == (failures + t.cut) % 0x1_0000_0000
    ensures forall packets: seq<seq<seq<byte>>> :: Joined(packets) == data && AllValid(packets) ==>
        decoded' == (decoded + |Listed(packets)|) % 0x1_0000_0000 && invalid' == invalid && failures' == failures
  {
    hide *;
    forall packets: seq<seq<seq<byte>>> | Joined(packets) == data && AllValid(packets)
      ensures decoded' == (decoded + |Listed(packets)|) % 0x1_0000_0000 && invalid' == invalid && failures' == failures
    {
      ValidFramesTally(packets);
    }
  }

  lemma PlusNothing(m: Meter)
    ensures m.Plus(Tally(0, 0, 0, 0)) == m
  {
  }

  lemma PlusBoth(m: Meter, a: Tally, b: Tally)
    ensures m.Plus(a).Plus(b) == m.Plus(Both(a, b))
  {
    AdvancedTwice(m.decoded, a.frames, b.frames);
    AdvancedTwice(m.invalid, a.bad, b.bad);
    AdvancedTwice(m.failures, a.cut, b.cut);
    hide Advanced;
  }

  lemma AdvancedTwice(counter: Word, a: nat, b: nat)
    ensures Advanced(Advanced(counter, a), b) == Advanced(counter, a + b)
  {
  }

  lemma MeterFrame(before: Meter, after: Meter, written: nat)
    requires after == Meter(Incremented(before.decoded), before.invalid, before.failures, before.made + written)
    ensures after == before.Plus(Tally(1, 0, 0, written))
  {
  }

  lemma MeterRefusal(before: Meter, after: Meter, consumed: nat)
    requires after == Meter(before.decoded, Incremented(before.invalid),
                            if consumed == 0 then Incremented(before.failures) else before.failures, before.made)
    ensures after == before.Plus(Tally(0, 1, if consumed == 0 then 1 else 0, 0))
  {
  }

  lemma SettingIs(s: A2dpSinkStream)
    ensures s.Setting() == Setup(s.decoder.context.bank4, s.decoder.context.bank8, s.pcmQueue.channels, s.pcmQueue.capacity, s.dropOldest)
  {
  }

  lemma PlayingIs(s: A2dpSinkStream)
    ensures s.Playing() == Player(s.pcmQueue.frames, s.pcmQueue.values, s.decoder.context.ls, s.decoder.context.rs)
  {
  }

  /** The decoder's context after a frame, as values. */
  lemma DecodedSounds(s: A2dpSinkStream, before: Player, mem: Memory, at: nat)
    requires s.Valid() && s.format.IsValid() && s.JustDecoded(before, mem, at)
    ensures before.Valid() && before.frames == s.pcmQueue.frames && before.values == s.pcmQueue.values
    ensures PoolFits(InfoAt(mem, at)) && s.Setting().Valid() && Hears(s.Setting(), before, s.decoder.context.ls, s.decoder.context.rs, mem, at)
    ensures SoundsIn(s.Setting(), before, s.pcmScratch[..], mem, at)
  {
    Parts(s);
    hide Sounds, Grown, ParseHeader;
  }

  lemma PlayerKnown(s: A2dpSinkStream)
    requires s.decoder.context.Valid()
    ensures s.Playing().Valid()
  {
  }

  lemma InfoIs(mem: Memory, at: nat)
    ensures InfoAt(mem, at) == ParseHeader(mem(at + 1), mem(at + 2))
  {
  }

  lemma RateFollows(format: PcmFormat, decoded: PcmFormat)
    ensures format.IsValid() && decoded.IsValid() ==> format.(sampleRate := decoded.sampleRate).IsValid()
  {
  }

  /** The decode scratch has room for any accepted frame, at either stride. */
  lemma DecodeRoom(s: A2dpSinkStream, mem: Memory, at: nat, n: nat)
    requires s.Wired() && (s.decoder.context.pcmStride == 1 || s.decoder.context.pcmStride == 2)
    ensures s.pcmScratch !in s.decoder.context.Repr()
    ensures Roomy(mem, at, n, ROOM, s.decoder.context.pcmStride, s.pcmScratch.Length)
  {
    if Verdict(mem, at, n, ROOM).Ok? {
      AcceptedFits(mem, at, n, ROOM);
    }
    hide Verdict, PcmFrames;
  }

  /** What one decodeFrame call stands for in the parse of the packet. */
  ghost predicate Round(mem: Memory, at: nat, n: nat, consumed: nat, stop: bool) {
    && n > 0 && Parse(mem, at, n) != []
    && (stop ==> Parse(mem, at, n)[1..] == [])
    && (!stop ==> 0 < consumed <= n && Parse(mem, at, n)[1..] == Parse(mem, at + consumed, n - consumed))
  }

  ghost function RoundTally(mem: Memory, at: nat, n: nat): Tally {
    if Parse(mem, at, n) == [] then Tally(0, 0, 0, 0) else TallyFirst(Parse(mem, at, n)[0])
  }

  /** What decodeFrame answers about the bytes. */
  ghost predicate Answers(mem: Memory, at: nat, n: nat, ok: bool, consumed: nat, written: nat) {
    var p := at + Skipped(mem, at, n);
    var status := Verdict(mem, at, n, ROOM);
    && (ok <==> status.Ok?)
    && (ok ==> consumed == p - at + FrameLength(InfoAt(mem, p)) && written == PcmFrames(InfoAt(mem, p)) <= ROOM)
    && (!ok ==> consumed == if status.NotEnoughHeaderData? || status.NotEnoughBodyData? then 0 else 1)
  }

  lemma AnswerIs(mem: Memory, at: nat, n: nat, ok: bool, consumed: nat, written: nat)
    requires ok <==> Verdict(mem, at, n, ROOM).Ok?
    requires ok ==>
      var p := at + Skipped(mem, at, n);
      var info := ParseHeader(mem(p + 1), mem(p + 2));
      consumed == p - at + FrameLength(info) && written == PcmFrames(info) <= ROOM
    requires !ok ==>
      var status := Verdict(mem, at, n, ROOM);
      consumed == if status.NotEnoughHeaderData? || status.NotEnoughBodyData? then 0 else 1
    ensures Answers(mem, at, n, ok, consumed, written)
  {
    hide Verdict, Skipped, FrameLength, PcmFrames, ParseHeader;
  }

  lemma AnswerRoom(mem: Memory, at: nat, n: nat, ok: bool, consumed: nat, written: nat)
    requires Answers(mem, at, n, ok, consumed, written)
    ensures ok ==> written == PcmFrames(InfoAt(mem, at + Skipped(mem, at, n))) <= ROOM
  {
    hide Verdict, Skipped, FrameLength, PcmFrames, ParseHeader;
  }

  lemma JustNow(s: A2dpSinkStream, before: Player, mem: Memory, at: nat)
    requires before.Valid() && before.frames == s.pcmQueue.frames && before.values == s.pcmQueue.values
    requires s.decoder.context.Valid() && PoolFits(InfoAt(mem, at))
    requires Decoded(s.decoder.context, s.pcmScratch[..], mem, at, InfoAt(mem, at), before.ls, before.rs)
    ensures s.JustDecoded(before, mem, at)
  {
    hide Decoded;
  }

  lemma RoundIs(mem: Memory, at: nat, n: nat, ok: bool, consumed: nat, written: nat)
    requires n > 0 && Answers(mem, at, n, ok, consumed, written)
    ensures Round(mem, at, n, consumed, !ok && consumed == 0)
    ensures RoundTally(mem, at, n) == if ok then Tally(1, 0, 0, written) else Tally(0, 1, if consumed == 0 then 1 else 0, 0)
    ensures Parse(mem, at, n) != [] && (Parse(mem, at, n)[0].Frame? <==> ok)
    ensures ok ==> Parse(mem, at, n)[0].at == at + Skipped(mem, at, n)
  {
    hide *;
    AnswerParts(mem, at, n, ok, consumed, written);
    ParseSteps(mem, at, n);
    if ok {
      AcceptedIs(mem, at, n);
      var e := AcceptedFrame(mem, at, n);
      RoundFrame(mem, at, n, consumed, written, e);
    } else {
      RoundRefused(mem, at, n, consumed);
    }
  }

  lemma AnswerParts(mem: Memory, at: nat, n: nat, ok: bool, consumed: nat, written: nat)
    requires Answers(mem, at, n, ok, consumed, written)
    ensures ok <==> Verdict(mem, at, n, ROOM).Ok?
    ensures ok ==>
      var p := at + Skipped(mem, at, n);
      var info := ParseHeader(mem(p + 1), mem(p + 2));
      consumed == p - at + FrameLength(info) && written == PcmFrames(info)
    ensures !ok ==>
      var status := Verdict(mem, at, n, ROOM);
      consumed == if status.NotEnoughHeaderData? || status.NotEnoughBodyData? then 0 else 1
  {
    hide Verdict, Skipped, FrameLength, PcmFrames, ParseHeader;
  }

  lemma AcceptedIs(mem: Memory, at: nat, n: nat)
    requires Verdict(mem, at, n, ROOM).Ok?
    ensures var p := at + Skipped(mem, at, n);
      var info := ParseHeader(mem(p + 1), mem(p + 2));
      AcceptedFrame(mem, at, n) == Frame(p, FrameLength(info), PcmFrames(info)) && p + FrameLength(info) <= at + n && FrameLength(info) >= 4
  {
    AcceptedFits(mem, at, n, ROOM);
    hide Verdict, FrameLength, PcmFrames, Skipped;
  }

  lemma RoundFrame(mem: Memory, at: nat, n: nat, consumed: nat, written: nat, e: Event)
    requires n > 0 && e.Frame? && e.pcmFrames == written && at <= e.at && e.at + e.length - at == consumed
    requires 0 < consumed <= n
    requires Parse(mem, at, n) == [e] + Parse(mem, e.at + e.length, n - (e.at + e.length - at))
    ensures Round(mem, at, n, consumed, false) && RoundTally(mem, at, n) == Tally(1, 0, 0, written)
  {
    hide Parse;
    assert Parse(mem, at, n)[1..] == Parse(mem, e.at + e.length, n - (e.at + e.length - at));
  }

  lemma RoundRefused(mem: Memory, at: nat, n: nat, consumed: nat)
    requires n > 0 && consumed <= 1
    requires consumed == 0 ==> Parse(mem, at, n) == [Cut]
    requires consumed == 1 ==> Parse(mem, at, n) == [Bad] + Parse(mem, at + 1, n - 1)
    ensures Round(mem, at, n, consumed, consumed == 0)
    ensures RoundTally(mem, at, n) == Tally(0, 1, if consumed == 0 then 1 else 0, 0)
  {
    hide Parse;
    if consumed == 0 {
      assert [Cut][1..] == [];
    } else {
      assert Parse(mem, at, n)[1..] == Parse(mem, at + 1, n - 1);
    }
  }

  lemma RoundRest(mem: Memory, at: nat, n: nat, consumed: nat, stop: bool)
    requires Round(mem, at, n, consumed, stop)
    ensures Parse(mem, at, n) != []
    ensures Parse(mem, at, n)[1..] == if stop then [] else Parse(mem, at + consumed, n - consumed)
  {
    hide Parse;
  }

  lemma RoundAdds(mem: Memory, at: nat, n: nat, consumed: nat, stop: bool)
    requires Round(mem, at, n, consumed, stop)
    ensures stop ==> TallyOf(Parse(mem, at, n)) == Both(RoundTally(mem, at, n), Tally(0, 0, 0, 0))
    ensures !stop ==>
      && 0 < consumed <= n
      && TallyOf(Parse(mem, at, n)) == Both(RoundTally(mem, at, n), TallyOf(Parse(mem, at + consumed, n - consumed)))
  {
    TallyStep(Parse(mem, at, n));
    TallyStep(Parse(mem, at, n)[1..]);
    hide Parse, TallyOf, Both, TallyFirst;
  }

  lemma RingValues(ring: PcmRing)
    requires ring.Valid()
    ensures ring.channels == 1 || ring.channels == 2
    ensures |ring.values| == ring.frames * ring.channels
  {
    ValuesAre(ring.frames, ring.channels);
    hide Values;
  }

  lemma FreeIs(ring: PcmRing)
    requires ring.Valid()
    ensures ring.FreeFrames() == ring.capacity - ring.frames && ring.frames <= ring.capacity
  {
  }

  /** Enough room for a decoded frame unless the ring is smaller than that. */
  lemma RoomAfter(k: nat, before: Ring, after: Ring, count: nat, capacity: nat, channels: nat)
    requires Moved(k, before, after, channels) && before.frames <= capacity && capacity - before.frames < count <= ROOM
    requires k == Least(count - (capacity - before.frames), before.frames)
    ensures capacity >= ROOM ==> count <= capacity - after.frames
  {
  }

  lemma ScratchRoom(s: A2dpSinkStream, n: nat)
    requires s.Wired() && n <= ROOM
    ensures Values(n, s.pcmQueue.channels) <= s.pcmScratch.Length == 256 && s.pcmScratch !in s.decoder.context.Repr()
  {
  }

  lemma Counted(x: nat, n: nat)
    ensures Advanced(x % 0x1_0000_0000, n) == (x + n) % 0x1_0000_0000
  {
  }

  lemma ReprIs(s: A2dpSinkStream)
    ensures s.Repr() == {s.encodedQueue, s.encodedQueue.buffer, s.pcmQueue, s.decoder, s.decoder.context, s.packetScratch,
      s.pcmScratch} + s.decoder.context.Repr()
    ensures s.decoder.context.Repr() == {s.decoder.context.common, s.decoder.context.filters,
      s.decoder.context.common.scaleFactor, s.decoder.context.common.bits, s.decoder.context.common.subdata,
      s.decoder.context.filters.left, s.decoder.context.filters.right}
  {
  }

  lemma ChannelsKnown(ring: PcmRing)
    requires ring.Valid()
    ensures ring.channels == 1 || ring.channels == 2
  {
  }

  lemma FormatChannels(format: PcmFormat)
    ensures format.IsValid() ==> format.channels == 1 || format.channels == 2
  {
  }

  lemma Taking(n: nat, channels: nat, before: seq<int>, out: seq<int>, values: seq<int>, rest: seq<int>)
    requires Values(n, channels) <= |before| && Values(n, channels) <= |values|
    requires out == values[..Values(n, channels)] + before[Values(n, channels)..]
    requires rest == values[Values(n, channels)..]
    ensures Values(n, channels) <= |out| && out[..Values(n, channels)] + rest == values
  {
    assert out[..Values(n, channels)] == values[..Values(n, channels)];
  }

  lemma PartApart(s: A2dpSinkStream, out: array<int>)
    requires out !in s.Repr()
    ensures out != s.pcmScratch && out !in s.decoder.context.Repr()
  {
  }

  lemma SoundParts(s: A2dpSinkStream)
    requires s.Sound()
    ensures s.Wired() && s.encodedQueue.Valid() && s.pcmQueue.Valid() && s.decoder.Valid() && s.Balanced()
    ensures s.format.IsValid() ==> s.format.channels == s.pcmQueue.channels
    ensures s.account.made == s.account.taken + s.pcmQueue.frames + s.account.overflowed + s.account.discarded + s.account.vanished
    ensures s.pcmOverflowFrames == s.account.overflowed % 0x1_0000_0000
    ensures (s.pcmQueue.capacity >= ROOM || !s.dropOldest ==> s.account.vanished == 0)
  {
  }

  lemma SoundAgain(s: A2dpSinkStream)
    requires s.Wired() && s.encodedQueue.Valid() && s.pcmQueue.Valid() && s.decoder.Valid()
    requires s.format.IsValid() ==> s.format.channels == s.pcmQueue.channels
    requires s.account.made == s.account.taken + s.pcmQueue.frames + s.account.overflowed + s.account.discarded + s.account.vanished
    requires s.pcmOverflowFrames == s.account.overflowed % 0x1_0000_0000
    requires (s.pcmQueue.capacity >= ROOM || !s.dropOldest ==> s.account.vanished == 0)
    ensures s.Sound()
  {
  }

  lemma Parts(s: A2dpSinkStream)
    requires s.Valid()
    ensures s.Wired() && s.encodedQueue.Valid() && s.pcmQueue.Valid() && s.decoder.Valid() && s.Balanced()
    ensures s.format.IsValid() ==> s.format.channels == s.pcmQueue.channels == s.decoder.context.pcmStride
    ensures s.account.made == s.account.taken + s.pcmQueue.frames + s.account.overflowed + s.account.discarded + s.account.vanished
    ensures s.pcmOverflowFrames == s.account.overflowed % 0x1_0000_0000
    ensures (s.pcmQueue.capacity >= ROOM || !s.dropOldest ==> s.account.vanished == 0)
  {
  }

  lemma Whole(s: A2dpSinkStream)
    requires s.Wired() && s.encodedQueue.Valid() && s.pcmQueue.Valid() && s.decoder.Valid()
    requires s.format.IsValid() ==> s.format.channels == s.pcmQueue.channels == s.decoder.context.pcmStride
    requires s.account.made == s.account.taken + s.pcmQueue.frames + s.account.overflowed + s.account.discarded + s.account.vanished
    requires s.pcmOverflowFrames == s.account.overflowed % 0x1_0000_0000
    requires (s.pcmQueue.capacity >= ROOM || !s.dropOldest ==> s.account.vanished == 0)
    ensures s.Valid()
  {
  }
}
