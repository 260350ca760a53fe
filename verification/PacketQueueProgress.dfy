/** What a push or a pop comes to, from any state of the two threads: the steps it takes decide by
    what is stored, and taken to their end they do what the operation says. */
module PacketQueueProgress {
  import opened BitStrings
  import opened PacketRing
  import opened EncodedPacketQueue
  import opened PacketQueueSteps

  // ---- what the steps decide ----

  /** Whatever the other side is doing, a push goes on exactly if the packet is neither empty nor too long for its
      length field and its record fits next to the stored ones. */
  lemma PushDecides(c: Config, s: State)
    requires Inv(c, s)
    ensures forall p :: Enabled(s, StartPush(p)) ==>
        Step(c, s, StartPush(p)).producer == (if 1 <= |p.data| <= 65535 then WriteLoaded(p, s.writePos) else NotPushing)
    ensures Enabled(s, LoadReadPos) ==>
      var p := s.producer.p;
      Step(c, s, LoadReadPos).producer
        == (if 8 + |p.data| <= c.capacity - |Records(Live(s))| then CopyingIn(p, s.producer.write, 0) else NotPushing)
  {
    UsedIs(c, s);
    hide Records, Header, Holds, Plus;
  }

  /** A pop goes on exactly if a packet is stored and the oldest one has room. */
  lemma PopDecides(c: Config, s: State)
    requires Inv(c, s)
    ensures Enabled(s, LoadWritePos) ==> (Step(c, s, LoadWritePos).consumer.CopyingHeader? <==> Live(s) != [])
    ensures Enabled(s, LoadWritePos) && Live(s) == [] ==> Step(c, s, LoadWritePos).consumer == NotPopping
    ensures Enabled(s, CheckLength) ==>
      && Live(s) != []
      && (Step(c, s, CheckLength).consumer.CopyingPayload? <==> |Live(s)[0].data| <= s.consumer.room)
      && (|Live(s)[0].data| > s.consumer.room ==> Step(c, s, CheckLength).consumer == NotPopping)
  {
    UsedIs(c, s);
    EmptyTogether(Live(s));
    if Enabled(s, CheckLength) {
      var p := Live(s)[0];
      assert p == s.accepted[|s.popped|];
      HeaderRoundTrip(p);
      assert s.consumer.raw == Header(p);
    }
    hide Records, Header, Holds, Plus, Record, LittleVal;
  }

  // ---- runs of one side ----

  lemma Nothing(c: Config, s: State)
    requires Inv(c, s)
    ensures Legal(c, s, []) && After(c, s, []) == s
  {
    RingKnown(c, s);
  }

  lemma RingKnown(c: Config, s: State)
    requires Inv(c, s)
    ensures c.Valid() && |s.ring| == c.capacity && |s.popped| <= |s.accepted|
  {
  }

  lemma Then(c: Config, s: State, a: Action, run: seq<Action>)
    requires Inv(c, s) && Enabled(s, a) && Steady(c, Step(c, s, a)) && Inv(c, Step(c, s, a)) && Legal(c, Step(c, s, a), run)
    ensures Legal(c, s, [a] + run) && After(c, s, [a] + run) == After(c, Step(c, s, a), run)
  {
    hide Step, Enabled, Inv;
    RingKnown(c, s);
    RingKnown(c, Step(c, s, a));
    assert ([a] + run)[1..] == run;
  }

  /** Only the producer's part of the state may differ, and what it has accepted. */
  ghost predicate Pushed(s: State, t: State, accepted: seq<Packet>) {
    t.producer == NotPushing && t.accepted == accepted && t.popped == s.popped && t.consumer == s.consumer
  }

  /** A push that has started to copy ends with its packet accepted. */
  lemma {:induction false} CopiedIn(c: Config, s: State) returns (run: seq<Action>)
    requires Inv(c, s) && s.producer.CopyingIn? && s.producer.done <= |Record(s.producer.p)|
    ensures Legal(c, s, run) && Pushed(s, After(c, s, run), s.accepted + [s.producer.p])
    decreases if s.producer.done < |Record(s.producer.p)| then |Record(s.producer.p)| - s.producer.done else 0
  {
    hide *;
    if s.producer.done < |Record(s.producer.p)| {
      CopySteps(c, s);
      var t := Step(c, s, CopyByteIn);
      StepKeeps(c, s, CopyByteIn);
      var rest := CopiedIn(c, t);
      Then(c, s, CopyByteIn, rest);
      run := [CopyByteIn] + rest;
      PushedThen(s, t, After(c, s, run), s.accepted + [s.producer.p]);
    } else {
      PublishSteps(c, s);
      var t := Step(c, s, StoreWritePos);
      StepKeeps(c, s, StoreWritePos);
      var u := Step(c, t, AddPacket);
      StepKeeps(c, t, AddPacket);
      Nothing(c, u);
      Then(c, t, AddPacket, []);
      Then(c, s, StoreWritePos, [AddPacket] + []);
      run := [StoreWritePos] + ([AddPacket] + []);
    }
  }

  lemma PushedThen(s: State, t: State, u: State, accepted: seq<Packet>)
    requires t.popped == s.popped && t.consumer == s.consumer && Pushed(t, u, accepted)
    ensures Pushed(s, u, accepted)
  {
  }

  lemma CopySteps(c: Config, s: State)
    requires Inv(c, s) && s.producer.CopyingIn? && s.producer.done < |Record(s.producer.p)|
    ensures Enabled(s, CopyByteIn)
    ensures c.Valid() && |s.ring| == c.capacity
    ensures var t := Step(c, s, CopyByteIn);
      && Steady(c, t) && t.producer == CopyingIn(s.producer.p, s.producer.write, s.producer.done + 1)
      && t.accepted == s.accepted && t.popped == s.popped && t.consumer == s.consumer
  {
    hide Records, Header, Holds, Plus, Record, RecordCell;
  }

  lemma PublishSteps(c: Config, s: State)
    requires Inv(c, s) && s.producer.CopyingIn? && s.producer.done == |Record(s.producer.p)|
    ensures Enabled(s, StoreWritePos) && c.Valid() && |s.ring| == c.capacity
    ensures var t := Step(c, s, StoreWritePos);
      && Steady(c, t) && Enabled(t, AddPacket) && |t.ring| == c.capacity
      && Steady(c, Step(c, t, AddPacket)) && Pushed(s, Step(c, t, AddPacket), s.accepted + [s.producer.p])
  {
    hide Records, Header, Holds, Plus, Record;
  }

  /** A push taken to its end, with the other side standing anywhere in a pop: the packet is accepted
      exactly if it is no empty or overlong one and fits next to what is stored. */
  lemma PushAlone(c: Config, s: State, p: Packet) returns (run: seq<Action>)
    requires Inv(c, s) && Enabled(s, StartPush(p)) && Steady(c, Step(c, s, StartPush(p)))
    ensures Legal(c, s, run)
    ensures Pushed(s, After(c, s, run),
        if 1 <= |p.data| <= 65535 && 8 + |p.data| <= c.capacity - |Records(Live(s))| then s.accepted + [p] else s.accepted)
  {
    hide *;
    RingKnown(c, s);
    PushDecides(c, s);
    StartSteps(c, s, p);
    var t := Step(c, s, StartPush(p));
    StepKeeps(c, s, StartPush(p));
    if 1 <= |p.data| <= 65535 {
      PushDecides(c, t);
      DecideSteps(c, t);
      var u := Step(c, t, LoadReadPos);
      StepKeeps(c, t, LoadReadPos);
      var rest := [];
      if 8 + |p.data| <= c.capacity - |Records(Live(s))| {
        rest := CopiedIn(c, u);
      } else {
        Nothing(c, u);
      }
      Then(c, t, LoadReadPos, rest);
      Then(c, s, StartPush(p), [LoadReadPos] + rest);
      run := [StartPush(p)] + ([LoadReadPos] + rest);
      PushedIs(s, u, After(c, s, run), p, c.capacity);
    } else {
      Nothing(c, t);
      Then(c, s, StartPush(p), []);
      run := [StartPush(p)] + [];
      PushedIs(s, t, After(c, s, run), p, c.capacity);
    }
  }

  lemma PushedIs(s: State, t: State, u: State, p: Packet, capacity: nat)
    requires t.accepted == s.accepted && t.popped == s.popped && t.consumer == s.consumer
    requires (u == t && t.producer.NotPushing?) || Pushed(t, u, s.accepted + [p])
    ensures u == t && t.producer.NotPushing? ==> Pushed(s, u, s.accepted)
    ensures Pushed(t, u, s.accepted + [p]) ==> Pushed(s, u, s.accepted + [p])
  {
  }

  lemma StartSteps(c: Config, s: State, p: Packet)
    requires Inv(c, s) && Enabled(s, StartPush(p))
    ensures c.Valid() && |s.ring| == c.capacity && |s.popped| <= |s.accepted|
    ensures var t := Step(c, s, StartPush(p));
      && t.accepted == s.accepted && t.popped == s.popped && t.consumer == s.consumer && |t.popped| <= |t.accepted| && Live(t) == Live(s)
  {
    hide Records, Header, Holds, Plus, Record;
  }

  lemma DecideSteps(c: Config, s: State)
    requires Inv(c, s) && s.producer.WriteLoaded?
    ensures c.Valid() && |s.ring| == c.capacity && Enabled(s, LoadReadPos)
    ensures var t := Step(c, s, LoadReadPos);
      Steady(c, t) && t.accepted == s.accepted && t.popped == s.popped && t.consumer == s.consumer
  {
    hide Records, Header, Holds, Plus;
  }

  // ---- the consumer ----

  ghost predicate Popped(s: State, t: State, popped: seq<Packet>) {
    t.consumer == NotPopping && t.popped == popped && t.accepted == s.accepted && t.producer == s.producer
  }

  lemma PoppedThen(s: State, t: State, u: State, popped: seq<Packet>)
    requires t.accepted == s.accepted && t.producer == s.producer && Popped(t, u, popped)
    ensures Popped(s, u, popped)
  {
  }

  /** A pop that has started to copy the payload ends with the oldest packet. */
  lemma {:induction false} CopiedOut(c: Config, s: State) returns (run: seq<Action>)
    requires Inv(c, s) && s.consumer.CopyingPayload? && |s.consumer.out| <= s.consumer.length
    ensures |s.popped| < |s.accepted| && Legal(c, s, run)
    ensures Popped(s, After(c, s, run), s.popped + [s.accepted[|s.popped|]])
    decreases if |s.consumer.out| < s.consumer.length then s.consumer.length - |s.consumer.out| else 0
  {
    hide *;
    if |s.consumer.out| < s.consumer.length {
      PayloadSteps(c, s);
      var t := Step(c, s, CopyPayloadByte);
      StepKeeps(c, s, CopyPayloadByte);
      var rest := CopiedOut(c, t);
      Then(c, s, CopyPayloadByte, rest);
      run := [CopyPayloadByte] + rest;
      PoppedThen(s, t, After(c, s, run), s.popped + [s.accepted[|s.popped|]]);
    } else {
      ReleaseSteps(c, s);
      var t := Step(c, s, StoreReadPos);
      StepKeeps(c, s, StoreReadPos);
      var u := Step(c, t, SubtractPacket);
      StepKeeps(c, t, SubtractPacket);
      Nothing(c, u);
      Then(c, t, SubtractPacket, []);
      Then(c, s, StoreReadPos, [SubtractPacket] + []);
      run := [StoreReadPos] + ([SubtractPacket] + []);
    }
  }

  lemma PayloadSteps(c: Config, s: State)
    requires Inv(c, s) && s.consumer.CopyingPayload? && |s.consumer.out| < s.consumer.length
    ensures Enabled(s, CopyPayloadByte) && c.Valid() && |s.ring| == c.capacity
    ensures var t := Step(c, s, CopyPayloadByte);
      && Steady(c, t) && t.consumer.CopyingPayload? && t.consumer.length == s.consumer.length && |t.consumer.out| == |s.consumer.out| + 1
      && t.accepted == s.accepted && t.popped == s.popped && t.producer == s.producer
  {
    hide Records, Header, Holds, Plus, Record, RecordCell;
  }

  lemma ReleaseSteps(c: Config, s: State)
    requires Inv(c, s) && s.consumer.CopyingPayload? && |s.consumer.out| == s.consumer.length
    ensures Enabled(s, StoreReadPos) && c.Valid() && |s.ring| == c.capacity && |s.popped| < |s.accepted|
    ensures var t := Step(c, s, StoreReadPos);
      && Steady(c, t) && Enabled(t, SubtractPacket) && |t.ring| == c.capacity
      && Steady(c, Step(c, t, SubtractPacket)) && Popped(s, Step(c, t, SubtractPacket), s.popped + [s.accepted[|s.popped|]])
  {
    assert s.consumer.out == Live(s)[0].data;
    assert Live(s)[0] == s.accepted[|s.popped|];
    hide Records, Header, Holds, Plus, Record;
  }

  /** A pop that has begun with the header: the oldest packet comes out if it has room, else nothing. */
  lemma {:induction false} HeaderRead(c: Config, s: State) returns (run: seq<Action>)
    requires Inv(c, s) && s.consumer.CopyingHeader? && |s.consumer.raw| <= 8
    ensures |s.popped| < |s.accepted| && Legal(c, s, run)
    ensures var head := s.accepted[|s.popped|];
      Popped(s, After(c, s, run), if |head.data| <= s.consumer.room then s.popped + [head] else s.popped)
    decreases if |s.consumer.raw| < 8 then 8 - |s.consumer.raw| else 0
  {
    hide *;
    HeaderSteps(c, s);
    var head := s.accepted[|s.popped|];
    var popped := if |head.data| <= s.consumer.room then s.popped + [head] else s.popped;
    if |s.consumer.raw| < 8 {
      var t := Step(c, s, CopyHeaderByte);
      StepKeeps(c, s, CopyHeaderByte);
      var rest := HeaderRead(c, t);
      Then(c, s, CopyHeaderByte, rest);
      run := [CopyHeaderByte] + rest;
      PoppedThen(s, t, After(c, s, run), popped);
    } else {
      var t := Step(c, s, CheckLength);
      StepKeeps(c, s, CheckLength);
      var rest := [];
      if |head.data| <= s.consumer.room {
        rest := CopiedOut(c, t);
      } else {
        Nothing(c, t);
        GaveUp(t);
      }
      Then(c, s, CheckLength, rest);
      run := [CheckLength] + rest;
      PoppedThen(s, t, After(c, s, run), popped);
    }
  }

  lemma GaveUp(t: State)
    requires t.consumer.NotPopping?
    ensures Popped(t, t, t.popped)
  {
  }

  lemma HeaderSteps(c: Config, s: State)
    requires Inv(c, s) && s.consumer.CopyingHeader?
    ensures c.Valid() && |s.ring| == c.capacity && |s.popped| < |s.accepted|
    ensures |s.consumer.raw| < 8 ==>
      && Enabled(s, CopyHeaderByte)
      && var t := Step(c, s, CopyHeaderByte);
         && Steady(c, t) && t.consumer.CopyingHeader? && t.consumer.room == s.consumer.room && |t.consumer.raw| == |s.consumer.raw| + 1
         && t.accepted == s.accepted && t.popped == s.popped && t.producer == s.producer
    ensures |s.consumer.raw| == 8 ==>
      && Enabled(s, CheckLength)
      && var t := Step(c, s, CheckLength);
         && Steady(c, t) && t.accepted == s.accepted && t.popped == s.popped && t.producer == s.producer
         && (|s.accepted[|s.popped|].data| <= s.consumer.room ==> t.consumer.CopyingPayload? && t.consumer.out == [])
         && (|s.accepted[|s.popped|].data| > s.consumer.room ==> t.consumer.NotPopping?)
  {
    assert Live(s)[0] == s.accepted[|s.popped|];
    if |s.consumer.raw| == 8 {
      PopDecides(c, s);
    }
    hide Records, Header, Holds, Plus, Record, RecordCell, LittleVal;
  }

  /** A pop taken to its end, with the other side standing anywhere in a push: the oldest stored packet comes
      out, whole and with its metadata, exactly if there is one and it has room. */
  lemma PopAlone(c: Config, s: State, room: nat) returns (run: seq<Action>)
    requires Inv(c, s) && s.consumer.NotPopping?
    ensures |s.popped| <= |s.accepted| && Legal(c, s, run)
    ensures Popped(s, After(c, s, run),
        if |s.popped| < |s.accepted| && |s.accepted[|s.popped|].data| <= room then s.popped + [s.accepted[|s.popped|]] else s.popped)
  {
    hide *;
    PopSteps(c, s, room);
    var t := Step(c, s, StartPop(room));
    StepKeeps(c, s, StartPop(room));
    LoadSteps(c, t);
    var u := Step(c, t, LoadWritePos);
    StepKeeps(c, t, LoadWritePos);
    var rest := [];
    if |s.popped| < |s.accepted| {
      rest := HeaderRead(c, u);
    } else {
      Nothing(c, u);
      GaveUp(u);
    }
    Then(c, t, LoadWritePos, rest);
    Then(c, s, StartPop(room), [LoadWritePos] + rest);
    run := [StartPop(room)] + ([LoadWritePos] + rest);
    PoppedThen(s, u, After(c, s, run),
               if |s.popped| < |s.accepted| && |s.accepted[|s.popped|].data| <= room then s.popped + [s.accepted[|s.popped|]] else s.popped);
  }

  lemma PopSteps(c: Config, s: State, room: nat)
    requires Inv(c, s) && s.consumer.NotPopping?
    ensures c.Valid() && |s.ring| == c.capacity && |s.popped| <= |s.accepted| && Enabled(s, StartPop(room))
    ensures var t := Step(c, s, StartPop(room));
      && Steady(c, t) && t.accepted == s.accepted && t.popped == s.popped && t.producer == s.producer
      && t.consumer.ReadLoaded? && t.consumer.room == room
  {
    hide Records, Header, Holds, Plus, Record;
  }

  lemma LoadSteps(c: Config, s: State)
    requires Inv(c, s) && s.consumer.ReadLoaded?
    ensures c.Valid() && |s.ring| == c.capacity && |s.popped| <= |s.accepted| && Enabled(s, LoadWritePos)
    ensures var t := Step(c, s, LoadWritePos);
      && Steady(c, t) && t.accepted == s.accepted && t.popped == s.popped && t.producer == s.producer
      && (|s.popped| < |s.accepted| ==> t.consumer.CopyingHeader? && t.consumer.room == s.consumer.room && t.consumer.raw == [])
      && (|s.popped| == |s.accepted| ==> t.consumer.NotPopping?)
  {
    PopDecides(c, s);
    hide Records, Header, Holds, Plus, Record;
  }
}
