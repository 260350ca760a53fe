/** EncodedPacketQueue under one producer and one consumer that interleave freely: every load, every
    byte copied and every store is a step of its own, on sequentially consistent memory. */
module PacketQueueSteps {
  import opened Bits
  import opened BitStrings
  import opened PacketRing
  import opened EncodedPacketQueue

  datatype Config = Config(capacity: nat, W: nat)
  {
    predicate Valid() {
      HEADER_BYTES < capacity < W
    }
  }

  /** Where push stands. */
  datatype Producer =
    | NotPushing
    | WriteLoaded(p: Packet, write: nat)
    | CopyingIn(p: Packet, write: nat, done: nat)
    | Published(p: Packet)

  /** Where pop stands. */
  datatype Consumer =
    | NotPopping
    | ReadLoaded(room: nat, read: nat)
    | CopyingHeader(room: nat, read: nat, raw: seq<byte>)
    | CopyingPayload(read: nat, length: nat, frameCount: nat, timestamp: nat, out: seq<byte>)
    | ReadPublished

  /** The shared memory, the two threads, and what has happened: packets accepted (their bytes
      published) and packets popped (as the consumer read them), and bytes written and read. */
  datatype State = State(
    ring: seq<byte>, writePos: nat, readPos: nat, packets: nat,
    producer: Producer, consumer: Consumer,
    accepted: seq<Packet>, popped: seq<Packet>, written: nat, read: nat)

  datatype Action =
    | StartPush(p: Packet) | LoadReadPos | CopyByteIn | StoreWritePos | AddPacket
    | StartPop(room: nat) | LoadWritePos | CopyHeaderByte | CheckLength | CopyPayloadByte | StoreReadPos | SubtractPacket

  /** The cell a record byte goes to or comes from: header and payload are copied separately, each
      from its own counter value. */
  function RecordCell(c: Config, counter: nat, i: nat): (cell: nat)
    requires c.Valid()
    ensures cell < c.capacity
  {
    if i < HEADER_BYTES then (counter % c.capacity + i) % c.capacity
    else (Plus(counter, HEADER_BYTES, c.W) % c.capacity + (i - HEADER_BYTES)) % c.capacity
  }

  predicate Enabled(s: State, a: Action) {
    match a
    case StartPush(p) => s.producer.NotPushing? && p.frameCount < 0x1_0000 && p.timestamp < 0x1_0000_0000
    case LoadReadPos => s.producer.WriteLoaded?
    case CopyByteIn => s.producer.CopyingIn? && s.producer.done < |Record(s.producer.p)|
    case StoreWritePos => s.producer.CopyingIn? && s.producer.done == |Record(s.producer.p)|
    case AddPacket => s.producer.Published?
    case StartPop(room) => s.consumer.NotPopping?
    case LoadWritePos => s.consumer.ReadLoaded?
    case CopyHeaderByte => s.consumer.CopyingHeader? && |s.consumer.raw| < HEADER_BYTES
    case CheckLength => s.consumer.CopyingHeader? && |s.consumer.raw| == HEADER_BYTES
    case CopyPayloadByte => s.consumer.CopyingPayload? && |s.consumer.out| < s.consumer.length
    case StoreReadPos => s.consumer.CopyingPayload? && |s.consumer.out| == s.consumer.length
    case SubtractPacket => s.consumer.ReadPublished?
  }

  /** One step of one side. */
  function Step(c: Config, s: State, a: Action): State
    requires c.Valid() && |s.ring| == c.capacity && Enabled(s, a)
  {
    match a
    case StartPush(p) =>
      if |p.data| == 0 || |p.data| > MAX_PACKET_BYTES then s else s.(producer := WriteLoaded(p, s.writePos))
    case LoadReadPos =>
      var p, write := s.producer.p, s.producer.write;
      var used := (write - s.readPos) % c.W;
      if |Record(p)| > c.capacity - used then s.(producer := NotPushing) else s.(producer := CopyingIn(p, write, 0))
    case CopyByteIn =>
      var p, write, i := s.producer.p, s.producer.write, s.producer.done;
      s.(ring := s.ring[RecordCell(c, write, i) := Record(p)[i]], producer := CopyingIn(p, write, i + 1))
    case StoreWritePos =>
      var p := s.producer.p;
      s.(writePos := Plus(s.producer.write, |Record(p)|, c.W), producer := Published(p),
         accepted := s.accepted + [p], written := s.written + |Record(p)|)
    case AddPacket =>
      s.(packets := Plus(s.packets, 1, c.W), producer := NotPushing)
    case StartPop(room) =>
      s.(consumer := ReadLoaded(room, s.readPos))
    case LoadWritePos =>
      if (s.writePos - s.consumer.read) % c.W < HEADER_BYTES then s.(consumer := NotPopping)
      else s.(consumer := CopyingHeader(s.consumer.room, s.consumer.read, []))
    case CopyHeaderByte =>
      var raw := s.consumer.raw;
      s.(consumer := CopyingHeader(s.consumer.room, s.consumer.read, raw + [s.ring[RecordCell(c, s.consumer.read, |raw|)]]))
    case CheckLength =>
      var raw := s.consumer.raw;
      var length := LittleVal(raw[0..2]);
      if length > s.consumer.room then s.(consumer := NotPopping)
      else s.(consumer := CopyingPayload(s.consumer.read, length, LittleVal(raw[2..4]), LittleVal(raw[4..8]), []))
    case CopyPayloadByte =>
      var k := s.consumer;
      s.(consumer := CopyingPayload(k.read, k.length, k.frameCount, k.timestamp, k.out + [s.ring[RecordCell(c, k.read, HEADER_BYTES + |k.out|)]]))
    case StoreReadPos =>
      var k := s.consumer;
      s.(readPos := Plus(k.read, HEADER_BYTES + k.length, c.W), consumer := ReadPublished,
         popped := s.popped + [Packet(k.out, k.frameCount, k.timestamp)], read := s.read + HEADER_BYTES + k.length)
    case SubtractPacket =>
      s.(packets := (s.packets - 1) % c.W, consumer := NotPopping)
  }

  // ---- what every step keeps ----

  /** Accepted and not yet popped. */
  function Live(s: State): seq<Packet>
    requires |s.popped| <= |s.accepted|
  {
    s.accepted[|s.popped|..]
  }

  /** What the producer has copied of a record it has not published. */
  function InFlight(s: State): seq<byte> {
    if s.producer.CopyingIn? && s.producer.done <= |Record(s.producer.p)| then Record(s.producer.p)[..s.producer.done] else []
  }

  /** Bytes a started push may still write. */
  function Pending(s: State): nat {
    if s.producer.WriteLoaded? || s.producer.CopyingIn? then |Record(s.producer.p)| else 0
  }

  /** The capacity divides the range of the counters, or they have not wrapped and will not in the
      push that is under way. */
  predicate Steady(c: Config, s: State)
    requires c.Valid()
  {
    c.W % c.capacity == 0 || s.written + Pending(s) <= c.W
  }

  ghost predicate ProducerOk(c: Config, s: State)
    requires |s.popped| <= |s.accepted|
  {
    match s.producer
    case NotPushing => true
    case WriteLoaded(p, write) => p.Fits() && write == s.writePos
    case CopyingIn(p, write, done) => p.Fits() && write == s.writePos && done <= |Record(p)| && |Records(Live(s))| + |Record(p)| <= c.capacity
    case Published(p) => true
  }

  ghost predicate ConsumerOk(s: State)
    requires |s.popped| <= |s.accepted|
  {
    match s.consumer
    case NotPopping => true
    case ReadLoaded(room, read) => read == s.readPos
    case CopyingHeader(room, read, raw) => read == s.readPos && Live(s) != [] && |raw| <= HEADER_BYTES && raw == Header(Live(s)[0])[..|raw|]
    case CopyingPayload(read, length, frameCount, timestamp, out) =>
      && read == s.readPos && Live(s) != []
      && length == |Live(s)[0].data| && frameCount == Live(s)[0].frameCount && timestamp == Live(s)[0].timestamp
      && |out| <= length && out == Live(s)[0].data[..|out|]
    case ReadPublished => true
  }

  /** The counter lags behind by the publishes under way. */
  function Lag(s: State): int {
    (if s.consumer.ReadPublished? then 1 else 0) - (if s.producer.Published? then 1 else 0)
  }

  /** The bytes between the counters are the records of the accepted packets that have not been
      popped, followed by what an unfinished push has copied; pops so far are the oldest accepted packets. */
  ghost predicate Inv(c: Config, s: State) {
    && c.Valid() && |s.ring| == c.capacity && Steady(c, s)
    && |s.popped| <= |s.accepted| && s.popped == s.accepted[..|s.popped|] && AllFit(s.accepted)
    && s.writePos == s.written % c.W && s.readPos == s.read % c.W && s.written == s.read + |Records(Live(s))|
    && Holds(s.ring, s.read, Records(Live(s)) + InFlight(s))
    && ProducerOk(c, s) && ConsumerOk(s)
    && s.packets == (|Live(s)| + Lag(s)) % c.W
  }

  /** After begin. */
  predicate Initial(c: Config, s: State) {
    && c.Valid() && |s.ring| == c.capacity && s.writePos == s.readPos == s.packets == s.written == s.read == 0
    && s.producer.NotPushing? && s.consumer.NotPopping? && s.accepted == s.popped == []
  }

  lemma InitialKeeps(c: Config, s: State)
    requires Initial(c, s)
    ensures Inv(c, s)
  {
  }

  // ---- producer steps ----

  lemma ModAdd(x: int, n: int, m: nat)
    requires m > 0
    ensures (x % m + n) % m == (x + n) % m
  {
    var q, r := x / m, x % m;
    assert x == m * q + r;
    var k, t := (r + n) / m, (r + n) % m;
    assert r + n == m * k + t;
    assert x + n == m * (q + k) + t by { assert m * (q + k) == m * q + m * k; }
    ModUnique(x + n, m, q + k, t);
  }

  /** A byte of a record goes where the positions say. */
  lemma RecordCellAt(c: Config, position: nat, i: nat)
    requires c.Valid() && (c.W % c.capacity == 0 || position + i < c.W)
    ensures RecordCell(c, position % c.W, i) == (position + i) % c.capacity
  {
    if i < HEADER_BYTES {
      CounterFindsCell(position, c.W, c.capacity);
      ModAdd(position, i, c.capacity);
    } else {
      CounterPoints(position, HEADER_BYTES, c.W, c.capacity);
      CounterFindsCell(position + HEADER_BYTES, c.W, c.capacity);
      ModAdd(position + HEADER_BYTES, i - HEADER_BYTES, c.capacity);
    }
  }

  lemma PutOne(ring: seq<byte>, at: nat, b: byte)
    requires |ring| > 0
    ensures Put(ring, at, [b]) == ring[at % |ring| := b]
  {
    forall j | 0 <= j < |ring| ensures Put(ring, at, [b])[j] == ring[at % |ring| := b][j] {
      CopyCell(j, at, |ring|);
    }
  }

  /** The two counters a thread has loaded tell exactly how many bytes are stored. */
  lemma UsedIs(c: Config, s: State)
    requires Inv(c, s)
    ensures (s.writePos - s.readPos) % c.W == |Records(Live(s))| <= c.capacity
  {
    hide Records, Header;
    CounterDifference(s.written, s.read, c.W);
  }

  lemma StartPushKeeps(c: Config, s: State, p: Packet)
    requires Inv(c, s) && Enabled(s, StartPush(p)) && Steady(c, Step(c, s, StartPush(p)))
    ensures Inv(c, Step(c, s, StartPush(p)))
  {
    hide Records, Header, Holds, Record, Plus;
  }

  lemma LoadReadPosKeeps(c: Config, s: State)
    requires Inv(c, s) && Enabled(s, LoadReadPos)
    ensures Inv(c, Step(c, s, LoadReadPos))
  {
    UsedIs(c, s);
    hide Records, Header, Holds, Plus;
    var t := Step(c, s, LoadReadPos);
    assert Live(t) == Live(s) && Records(Live(s)) + [] == Records(Live(s));
  }

  lemma CopyByteInKeeps(c: Config, s: State)
    requires Inv(c, s) && Enabled(s, CopyByteIn)
    ensures Inv(c, Step(c, s, CopyByteIn))
  {
    hide Records, Header, Holds, Plus, Record, RecordCell, Put;
    var p, i := s.producer.p, s.producer.done;
    var t := Step(c, s, CopyByteIn);
    var held := Records(Live(s)) + Record(p)[..i];
    assert Record(p)[..i + 1] == Record(p)[..i] + [Record(p)[i]];
    assert held + [Record(p)[i]] == Records(Live(s)) + Record(p)[..i + 1];
    RecordCellAt(c, s.written, i);
    PutOne(s.ring, s.written + i, Record(p)[i]);
    PutExtends(s.ring, s.read, held, [Record(p)[i]]);
    assert Live(t) == Live(s);
  }

  /** The producer never writes a cell the consumer may still read. */
  lemma CopyByteInFree(c: Config, s: State, j: nat)
    requires Inv(c, s) && Enabled(s, CopyByteIn) && j < |Records(Live(s))|
    ensures RecordCell(c, s.producer.write, s.producer.done) != (s.read + j) % c.capacity
  {
    hide Records, Header, Holds, Plus, Record, RecordCell;
    var i := s.producer.done;
    RecordCellAt(c, s.written, i);
    Distance(s.written + i, s.read + j, c.capacity);
    Distance(s.read + j, s.read + j, c.capacity);
  }

  lemma StoreWritePosKeeps(c: Config, s: State)
    requires Inv(c, s) && Enabled(s, StoreWritePos)
    ensures Inv(c, Step(c, s, StoreWritePos))
  {
    hide Records, Header, Holds, Record;
    var p := s.producer.p;
    var t := Step(c, s, StoreWritePos);
    assert Live(t) == Live(s) + [p];
    RecordsSnoc(Live(s), p);
    assert Record(p)[..|Record(p)|] == Record(p);
    assert Records(Live(t)) + [] == Records(Live(s)) + Record(p);
    CounterAdd(s.written, |Record(p)|, c.W);
    assert t.popped == t.accepted[..|t.popped|];
  }

  lemma AddPacketKeeps(c: Config, s: State)
    requires Inv(c, s) && Enabled(s, AddPacket)
    ensures Inv(c, Step(c, s, AddPacket))
  {
    hide Records, Header, Holds, Record;
    ModAdd(|Live(s)| + Lag(s), 1, c.W);
    assert Live(Step(c, s, AddPacket)) == Live(s);
  }

  // ---- consumer steps ----

  lemma StartPopKeeps(c: Config, s: State, room: nat)
    requires Inv(c, s) && Enabled(s, StartPop(room))
    ensures Inv(c, Step(c, s, StartPop(room)))
  {
    hide Records, Header, Holds, Record, Plus;
    assert Live(Step(c, s, StartPop(room))) == Live(s);
  }

  lemma LoadWritePosKeeps(c: Config, s: State)
    requires Inv(c, s) && Enabled(s, LoadWritePos)
    ensures Inv(c, Step(c, s, LoadWritePos))
  {
    UsedIs(c, s);
    EmptyTogether(Live(s));
    hide Records, Header, Holds, Record, Plus;
    assert Live(Step(c, s, LoadWritePos)) == Live(s);
  }

  /** A byte of the oldest record is read where the positions say. */
  lemma OldestByte(c: Config, s: State, i: nat)
    requires Inv(c, s) && Live(s) != [] && i < |Record(Live(s)[0])|
    ensures RecordCell(c, s.readPos, i) < |s.ring| && s.ring[RecordCell(c, s.readPos, i)] == Record(Live(s)[0])[i]
  {
    var r := Record(Live(s)[0]);
    var all := Records(Live(s)) + InFlight(s);
    assert Records(Live(s)) == r + Records(Live(s)[1..]);
    assert s.read + i < s.written;
    RecordCellAt(c, s.read, i);
    assert all[i] == r[i];
    hide Records, Header, Record, RecordCell, Plus;
  }

  lemma CopyHeaderByteKeeps(c: Config, s: State)
    requires Inv(c, s) && Enabled(s, CopyHeaderByte)
    ensures Inv(c, Step(c, s, CopyHeaderByte))
  {
    var raw := s.consumer.raw;
    OldestByte(c, s, |raw|);
    var h := Header(Live(s)[0]);
    assert Record(Live(s)[0])[|raw|] == h[|raw|];
    assert h[..|raw| + 1] == h[..|raw|] + [h[|raw|]];
    hide Records, Header, Holds, Record, RecordCell, Plus;
    assert Live(Step(c, s, CopyHeaderByte)) == Live(s);
  }

  lemma CheckLengthKeeps(c: Config, s: State)
    requires Inv(c, s) && Enabled(s, CheckLength)
    ensures Inv(c, Step(c, s, CheckLength))
  {
    var p := Live(s)[0];
    assert p == s.accepted[|s.popped|];
    HeaderRoundTrip(p);
    assert s.consumer.raw == Header(p);
    hide Records, Header, Holds, Record, RecordCell, Plus, LittleVal;
    assert Live(Step(c, s, CheckLength)) == Live(s);
  }

  lemma CopyPayloadByteKeeps(c: Config, s: State)
    requires Inv(c, s) && Enabled(s, CopyPayloadByte)
    ensures Inv(c, Step(c, s, CopyPayloadByte))
  {
    var out, data := s.consumer.out, Live(s)[0].data;
    OldestByte(c, s, HEADER_BYTES + |out|);
    assert Record(Live(s)[0])[HEADER_BYTES + |out|] == data[|out|];
    assert data[..|out| + 1] == data[..|out|] + [data[|out|]];
    hide Records, Header, Holds, Record, RecordCell, Plus;
    assert Live(Step(c, s, CopyPayloadByte)) == Live(s);
  }

  lemma StoreReadPosKeeps(c: Config, s: State)
    requires Inv(c, s) && Enabled(s, StoreReadPos)
    ensures Inv(c, Step(c, s, StoreReadPos))
  {
    var p := Live(s)[0];
    var rest := Records(Live(s)[1..]) + InFlight(s);
    assert Records(Live(s)) + InFlight(s) == Record(p) + rest;
    HoldsTail(s.ring, s.read, Record(p), rest);
    hide Records, Header, Holds;
    var t := Step(c, s, StoreReadPos);
    assert s.consumer.out == p.data;
    assert p == s.accepted[|s.popped|];
    assert t.popped == s.popped + [p] && t.popped == t.accepted[..|t.popped|];
    assert Live(t) == Live(s)[1..];
    assert s.read + |Record(p)| == t.read;
    CounterAdd(s.read, HEADER_BYTES + |p.data|, c.W);
    assert InFlight(t) == InFlight(s);
  }

  lemma SubtractPacketKeeps(c: Config, s: State)
    requires Inv(c, s) && Enabled(s, SubtractPacket)
    ensures Inv(c, Step(c, s, SubtractPacket))
  {
    hide Records, Header, Holds, Record;
    ModAdd(|Live(s)| + Lag(s), -1, c.W);
    assert Live(Step(c, s, SubtractPacket)) == Live(s);
  }

  /** Every step of either side keeps the invariant. */
  lemma StepKeeps(c: Config, s: State, a: Action)
    requires Inv(c, s) && Enabled(s, a) && Steady(c, Step(c, s, a))
    ensures Inv(c, Step(c, s, a))
  {
    hide Inv, Step, Steady;
    match a
    case StartPush(p) => StartPushKeeps(c, s, p);
    case LoadReadPos => LoadReadPosKeeps(c, s);
    case CopyByteIn => CopyByteInKeeps(c, s);
    case StoreWritePos => StoreWritePosKeeps(c, s);
    case AddPacket => AddPacketKeeps(c, s);
    case StartPop(room) => StartPopKeeps(c, s, room);
    case LoadWritePos => LoadWritePosKeeps(c, s);
    case CopyHeaderByte => CopyHeaderByteKeeps(c, s);
    case CheckLength => CheckLengthKeeps(c, s);
    case CopyPayloadByte => CopyPayloadByteKeeps(c, s);
    case StoreReadPos => StoreReadPosKeeps(c, s);
    case SubtractPacket => SubtractPacketKeeps(c, s);
  }

  // ---- whole runs ----

  /** Any interleaving of enabled steps. */
  ghost predicate Legal(c: Config, s: State, run: seq<Action>)
    requires c.Valid() && |s.ring| == c.capacity
    decreases |run|
  {
    run == [] || (Enabled(s, run[0]) && Steady(c, Step(c, s, run[0])) && Legal(c, Step(c, s, run[0]), run[1..]))
  }

  ghost function After(c: Config, s: State, run: seq<Action>): State
    requires c.Valid() && |s.ring| == c.capacity && Legal(c, s, run)
    decreases |run|
  {
    if run == [] then s else After(c, Step(c, s, run[0]), run[1..])
  }

  lemma {:induction false} RunKeeps(c: Config, s: State, run: seq<Action>)
    requires Inv(c, s) && Legal(c, s, run)
    ensures Inv(c, After(c, s, run))
    decreases |run|
  {
    hide *;
    RunKnown(c, s, run);
    if run != [] {
      StepKeeps(c, s, run[0]);
      RunKeeps(c, Step(c, s, run[0]), run[1..]);
    }
  }

  lemma RunKnown(c: Config, s: State, run: seq<Action>)
    requires Inv(c, s) && Legal(c, s, run)
    ensures c.Valid() && |s.ring| == c.capacity
    ensures run == [] ==> After(c, s, run) == s
    ensures run != [] ==>
      && Enabled(s, run[0]) && |Step(c, s, run[0]).ring| == c.capacity && Steady(c, Step(c, s, run[0]))
      && Legal(c, Step(c, s, run[0]), run[1..]) && After(c, s, run) == After(c, Step(c, s, run[0]), run[1..])
  {
    assert c.Valid() && |s.ring| == c.capacity;
    hide Inv, Step, Enabled;
    if run != [] {
      StepKeepsRing(c, s, run[0]);
    }
  }

  lemma StepKeepsRing(c: Config, s: State, a: Action)
    requires c.Valid() && |s.ring| == c.capacity && Enabled(s, a)
    ensures |Step(c, s, a).ring| == c.capacity
  {
  }

  /** What is popped are the oldest accepted packets, whole, in order and with their metadata; usedBytes
      is the size of the records of the others; the packet counter lags behind by the publishes under
      way, and is exact when both sides rest. */
  ghost predicate Safe(c: Config, s: State)
    requires c.Valid()
  {
    && |s.popped| <= |s.accepted| && s.popped == s.accepted[..|s.popped|]
    && (s.writePos - s.readPos) % c.W == |Records(Live(s))| <= c.capacity
    && s.packets == (|Live(s)| + Lag(s)) % c.W
    && (s.producer.NotPushing? && s.consumer.NotPopping? ==> s.packets == |Live(s)|)
  }

  /** Every interleaving is safe. */
  lemma RunsAreSafe(c: Config, s: State, run: seq<Action>)
    requires Initial(c, s) && Legal(c, s, run)
    ensures Safe(c, After(c, s, run))
  {
    InitialKeeps(c, s);
    RunKeeps(c, s, run);
    var t := After(c, s, run);
    UsedIs(c, t);
    FewPackets(Live(t));
    hide Records, Holds, Legal, After;
    if t.producer.NotPushing? && t.consumer.NotPopping? {
      Small(|Live(t)|, c.W);
    }
  }

  /** Any interleaving the code can take, with no bound on the traffic. */
  ghost predicate Feasible(c: Config, s: State, run: seq<Action>)
    requires c.Valid() && |s.ring| == c.capacity
    decreases |run|
  {
    run == [] || (Enabled(s, run[0]) && Feasible(c, Step(c, s, run[0]), run[1..]))
  }

  /** A capacity that divides the range of the counters needs no bound on the traffic. */
  lemma {:induction false} FeasibleIsLegal(c: Config, s: State, run: seq<Action>)
    requires c.Valid() && |s.ring| == c.capacity && c.W % c.capacity == 0 && Feasible(c, s, run)
    ensures Legal(c, s, run)
    decreases |run|
  {
    hide Step, Enabled;
    if run != [] {
      StepKeepsRing(c, s, run[0]);
      FeasibleIsLegal(c, Step(c, s, run[0]), run[1..]);
    }
  }

  /** So with such a capacity every interleaving is safe, however often the counters overflow. */
  lemma DividingRunsAreSafe(c: Config, s: State, run: seq<Action>)
    requires Initial(c, s) && c.W % c.capacity == 0 && Feasible(c, s, run)
    ensures Legal(c, s, run) && Safe(c, After(c, s, run))
  {
    hide Feasible, Legal, After, Safe;
    FeasibleIsLegal(c, s, run);
    RunsAreSafe(c, s, run);
  }

  // ---- a packet no pop has room for ----

  /** The oldest packet is longer than `limit`, and every pop under way has at most `limit` bytes of room. */
  ghost predicate Blocked(s: State, limit: nat, head: Packet, popped: seq<Packet>) {
    && s.popped == popped && |popped| < |s.accepted| && s.accepted[|popped|] == head && |head.data| > limit
    && match s.consumer
       case NotPopping => true
       case ReadLoaded(room, read) => room <= limit
       case CopyingHeader(room, read, raw) => room <= limit
       case CopyingPayload(_, _, _, _, _) => false
       case ReadPublished => true
  }

  lemma BlockedStep(c: Config, s: State, a: Action, limit: nat, head: Packet)
    requires Inv(c, s) && Enabled(s, a) && Blocked(s, limit, head, s.popped) && (a.StartPop? ==> a.room <= limit)
    ensures Blocked(Step(c, s, a), limit, head, s.popped)
  {
    hide Records, Holds, Plus, Record, RecordCell;
    if a.CheckLength? {
      assert Live(s)[0] == head;
      assert s.consumer.raw == Header(head);
      HeaderRoundTrip(head);
    }
  }

  /** It stays at the head and no pop ever returns anything, however long the run. */
  lemma {:induction false} OversizedBlocks(c: Config, s: State, run: seq<Action>, limit: nat, head: Packet)
    requires Inv(c, s) && Legal(c, s, run) && Blocked(s, limit, head, s.popped)
    requires forall i :: 0 <= i < |run| && run[i].StartPop? ==> run[i].room <= limit
    ensures After(c, s, run).popped == s.popped
    decreases |run|
  {
    hide *;
    RunKnown(c, s, run);
    if run != [] {
      BlockedStep(c, s, run[0], limit, head);
      StepKeeps(c, s, run[0]);
      var t := Step(c, s, run[0]);
      BlockedKnown(t, limit, head, s.popped);
      OversizedBlocks(c, t, run[1..], limit, head);
    }
  }

  lemma BlockedKnown(s: State, limit: nat, head: Packet, popped: seq<Packet>)
    requires Blocked(s, limit, head, popped)
    ensures s.popped == popped
  {
  }
}
