/** EncodedPacketQueue, called from one side at a time. */
module EncodedPacketQueue {
  import opened Bits
  import opened BitStrings
  import opened PacketRing

  const HEADER_BYTES: nat := 8
  const MAX_PACKET_BYTES: nat := 0xFFFF

  // ---- records ----

  datatype Packet = Packet(data: seq<byte>, frameCount: nat, timestamp: nat)
  {
    /** What a record can express. */
    predicate Fits() {
      1 <= |data| <= MAX_PACKET_BYTES && frameCount < 0x1_0000 && timestamp < 0x1_0000_0000
    }
  }

  /** The low `n` bytes of a word, lowest first. */
  function Little(v: nat, n: nat): (bs: seq<byte>)
    ensures |bs| == n
  {
    if n == 0 then [] else [v % 256] + Little(v / 256, n - 1)
  }

  function LittleVal(bs: seq<byte>): nat {
    if bs == [] then 0 else bs[0] + 256 * LittleVal(bs[1..])
  }

  lemma {:induction false} LittleRoundTrip(v: nat, n: nat)
    requires v < Pow2(8 * n)
    ensures LittleVal(Little(v, n)) == v
  {
    if n == 0 {
      assert Pow2(0) == 1;
    } else {
      Pow2Add(8, 8 * (n - 1));
      assert Pow2(8) == 256;
      LittleRoundTrip(v / 256, n - 1);
      assert Little(v, n)[1..] == Little(v / 256, n - 1);
    }
  }

  /** Length, frame count and timestamp. */
  function Header(p: Packet): (h: seq<byte>)
    ensures |h| == HEADER_BYTES
  {
    Little(|p.data|, 2) + Little(p.frameCount, 2) + Little(p.timestamp, 4)
  }

  lemma HeaderRoundTrip(p: Packet)
    requires p.Fits()
    ensures LittleVal(Header(p)[0..2]) == |p.data| && LittleVal(Header(p)[2..4]) == p.frameCount
    ensures LittleVal(Header(p)[4..8]) == p.timestamp
  {
    hide Little, LittleVal, Pow2;
    WordRanges();
    LittleRoundTrip(|p.data|, 2);
    LittleRoundTrip(p.frameCount, 2);
    LittleRoundTrip(p.timestamp, 4);
    assert Header(p)[0..2] == Little(|p.data|, 2) && Header(p)[2..4] == Little(p.frameCount, 2) && Header(p)[4..8] == Little(p.timestamp, 4);
  }

  lemma WordRanges()
    ensures Pow2(16) == 0x1_0000 && Pow2(32) == 0x1_0000_0000
  {
    assert Pow2(8) == 256;
    Pow2Add(8, 8);
    Pow2Add(16, 16);
  }

  function Record(p: Packet): (r: seq<byte>)
    ensures |r| == HEADER_BYTES + |p.data|
  {
    Header(p) + p.data
  }

  /** Records one after the other, without padding. */
  function Records(ps: seq<Packet>): seq<byte> {
    if ps == [] then [] else Record(ps[0]) + Records(ps[1..])
  }

  lemma {:induction false} RecordsSnoc(ps: seq<Packet>, p: Packet)
    ensures Records(ps + [p]) == Records(ps) + Record(p)
  {
    if ps == [] {
      assert [p][1..] == [];
      assert [] + Record(p) == Record(p) + [];
    } else {
      assert (ps + [p])[1..] == ps[1..] + [p];
      RecordsSnoc(ps[1..], p);
      assert Record(ps[0]) + (Records(ps[1..]) + Record(p)) == Record(ps[0]) + Records(ps[1..]) + Record(p);
    }
  }

  ghost predicate AllFit(ps: seq<Packet>) {
    forall i :: 0 <= i < |ps| ==> ps[i].Fits()
  }

  /** Stored bytes and stored packets are empty together. */
  lemma EmptyTogether(ps: seq<Packet>)
    ensures ps == [] ==> |Records(ps)| == 0
    ensures ps != [] ==> |Records(ps)| >= HEADER_BYTES + |ps[0].data|
  {
  }

  // ---- the queue ----

  class EncodedPacketQueue {
    const buffer: array<byte>
    const capacity: nat
    /** The range of size_t. */
    const W: nat
    var writePos: nat
    var readPos: nat
    var packets: nat
    /** Packets stored, and bytes ever written and read. */
    ghost var contents: seq<Packet>
    ghost var written: nat
    ghost var read: nat

    /** A successful begin. */
    constructor (capacityBytes: nat, W: nat)
      requires HEADER_BYTES < capacityBytes < W
      ensures Valid() && fresh(buffer) && contents == [] && written == 0 && capacity == capacityBytes && this.W == W
    {
      buffer := new byte[capacityBytes](_ => 0);
      capacity := capacityBytes;
      this.W := W;
      writePos, readPos, packets := 0, 0, 0;
      contents, written, read := [], 0, 0;
    }

    /** The bytes between the counters are the records of the stored packets. */
    ghost predicate Valid()
      reads this, buffer
    {
      && HEADER_BYTES < capacity < W && buffer.Length == capacity
      && writePos == written % W && readPos == read % W && packets == |contents| % W
      && read + |Records(contents)| == written && Holds(buffer[..], read, Records(contents)) && AllFit(contents)
      && CountersFit(written)
    }

    /** Either the capacity divides the range of the counters, or they have not wrapped yet. */
    ghost predicate CountersFit(position: nat) {
      W > 0 && capacity > 0 && (W % capacity == 0 || position <= W)
    }

    /** Copy in, wrapping around the end of the buffer. */
    method WriteAt(offset: nat, src: seq<byte>, ghost at: nat)
      requires buffer.Length == capacity && |src| <= capacity && Points(offset, at, capacity)
      modifies buffer
      ensures buffer[..] == Put(old(buffer[..]), at, src)
    {
      ghost var before := buffer[..];
      var index := offset % capacity;
      var firstChunk := capacity - index;
      if |src| <= firstChunk {
        forall i | 0 <= i < |src| {
          buffer[index + i] := src[i];
        }
      } else {
        forall i | 0 <= i < firstChunk {
          buffer[index + i] := src[i];
        }
        forall i | 0 <= i < |src| - firstChunk {
          buffer[i] := src[firstChunk + i];
        }
      }
      forall c | 0 <= c < capacity ensures buffer[c] == PutCell(before, at, src, c) {
        CopyCell(c, at, capacity);
      }
    }

    /** Copy out, wrapping around the end of the buffer. */
    method ReadAt(offset: nat, dst: array<byte>, length: nat, ghost at: nat)
      requires buffer.Length == capacity && length <= capacity && length <= dst.Length && Points(offset, at, capacity)
      requires dst != buffer
      modifies dst
      ensures capacity > 0 && dst[..length] == Taken(buffer[..], at, length)
      ensures dst[length..] == old(dst[length..])
    {
      var index := offset % capacity;
      var firstChunk := capacity - index;
      if length <= firstChunk {
        forall i | 0 <= i < length {
          dst[i] := buffer[index + i];
        }
      } else {
        forall i | 0 <= i < firstChunk {
          dst[i] := buffer[index + i];
        }
        forall i | 0 <= i < length - firstChunk {
          dst[firstChunk + i] := buffer[i];
        }
      }
      forall i | 0 <= i < length ensures dst[i] == buffer[(at + i) % capacity] {
        CellAhead(at, i, capacity);
      }
    }

    /** usedBytes: right for any capacity, also after the counters have wrapped. */
    method UsedBytes() returns (used: nat)
      requires Valid()
      ensures used == |Records(contents)| <= capacity
    {
      CounterDifference(written, read, W);
      used := (writePos - readPos) % W;
    }

    method PacketCount() returns (count: nat)
      requires Valid()
      ensures count == |contents|
    {
      FewPackets(contents);
      assert |contents| % W == |contents| by { Small(|contents|, W); }
      count := packets;
    }

    /** push: the whole packet or nothing. The queue stays sound unless this push takes counters whose
        range the capacity does not divide across their overflow; what it does to the bytes is the same
        in every case. */
    method Push(data: seq<byte>, frameCount: nat, timestamp: nat) returns (ok: bool)
      requires Valid() && frameCount < 0x1_0000 && timestamp < 0x1_0000_0000
      modifies this, buffer
      ensures CountersFit(written) ==> Valid()
      ensures ok <==> 1 <= |data| <= MAX_PACKET_BYTES && HEADER_BYTES + |data| <= capacity - |Records(old(contents))|
      ensures !ok ==> Valid() && contents == old(contents) && written == old(written)
      ensures ok ==> Pushed(Packet(data, frameCount, timestamp), old(contents), old(written), old(buffer[..]), old(writePos), old(packets))
    {
      if |data| == 0 || |data| > MAX_PACKET_BYTES {
        return false;
      }
      var needed := HEADER_BYTES + |data|;
      var used := UsedBytes();
      if needed > capacity - used {
        return false;
      }
      var p := Packet(data, frameCount, timestamp);
      Appended(contents, p);
      Publish(p, needed);
      return true;
    }

    /** One more packet accepted: header and payload behind the write counter, and the counters moved on. */
    ghost predicate Pushed(p: Packet, before: seq<Packet>, end: nat, ring: seq<byte>, counter: nat, count: nat)
      reads this, buffer
    {
      && W > 0 && |ring| > 0
      && contents == before + [p] && written == end + |Record(p)|
      && buffer[..] == Put(Put(ring, counter, Header(p)), Plus(counter, HEADER_BYTES, W), p.data)
      && writePos == Plus(counter, |Record(p)|, W) && packets == Plus(count, 1, W)
    }

    /** The packet is stored, then its bytes and then its count are published. */
    method Publish(p: Packet, needed: nat)
      requires Valid() && p.Fits() && needed == |Record(p)| && |Records(contents)| + needed <= capacity
      modifies this, buffer
      ensures CountersFit(written) ==> Valid()
      ensures Pushed(p, old(contents), old(written), old(buffer[..]), old(writePos), old(packets))
    {
      Appended(contents, p);
      Store(p);
      CounterAdd(written, needed, W);
      CounterAdd(|contents|, 1, W);
      hide Records, Holds, CounterCell, Plus, Put, Header;
      writePos := Plus(writePos, needed, W);
      packets := Plus(packets, 1, W);
      written := written + needed;
      contents := contents + [p];
    }

    /** Header and payload go behind the stored records. */
    method Store(p: Packet)
      requires Valid() && p.Fits() && |Records(contents)| + |Record(p)| <= capacity
      modifies buffer
      ensures buffer[..] == Put(Put(old(buffer[..]), writePos, Header(p)), Plus(writePos, HEADER_BYTES, W), p.data)
      ensures CountersFit(written + |Record(p)|) ==> Holds(buffer[..], read, Records(contents + [p]))
    {
      hide Records, Holds, Put, Header, Little, Plus;
      ghost var ring := buffer[..];
      WriteAt(writePos, Header(p), writePos);
      WriteAt(Plus(writePos, HEADER_BYTES, W), p.data, Plus(writePos, HEADER_BYTES, W));
      if CountersFit(written + |Record(p)|) {
        CounterPoints(written, HEADER_BYTES, W, capacity);
        PutAlike(ring, writePos, written, Header(p));
        PutAlike(Put(ring, writePos, Header(p)), Plus(writePos, HEADER_BYTES, W), written + HEADER_BYTES, p.data);
        PutExtends(ring, read, Records(contents), Header(p));
        PutExtends(Put(ring, written, Header(p)), read, Records(contents) + Header(p), p.data);
        RecordsSnoc(contents, p);
        assert Records(contents) + Header(p) + p.data == Records(contents) + Record(p);
      }
    }

    /** peek: length, frame count and timestamp of the oldest packet. */
    method Peek() returns (ok: bool, length: nat, frameCount: nat, timestamp: nat)
      requires Valid()
      ensures ok <==> contents != []
      ensures ok ==> length == |contents[0].data| && frameCount == contents[0].frameCount && timestamp == contents[0].timestamp
    {
      hide *;
      HeadKnown(this);
      var used := UsedBytes();
      if used < HEADER_BYTES {
        return false, 0, 0, 0;
      }
      var raw := new byte[HEADER_BYTES];
      CounterPoints(read, 0, W, capacity);
      ReadAt(readPos, raw, HEADER_BYTES, read);
      HeaderHeld(buffer[..], read, contents);
      assert raw[..] == raw[..HEADER_BYTES];
      HeaderRoundTrip(contents[0]);
      assert raw[0..2] == raw[..][0..2] && raw[2..4] == raw[..][2..4] && raw[4..8] == raw[..][4..8];
      return true, LittleVal(raw[0..2]), LittleVal(raw[2..4]), LittleVal(raw[4..8]);
    }

    /** pop: an empty queue and a packet too long for `out` leave everything as it is. */
    method Pop(out: array<byte>, outCapacity: nat) returns (n: nat, length: nat, frameCount: nat, timestamp: nat)
      requires Valid() && outCapacity <= out.Length && out != buffer
      modifies this, out
      ensures Valid() && written == old(written)
      ensures old(contents) == [] ==> n == 0 && contents == []
      ensures old(contents) != [] ==>
        length == |old(contents)[0].data| && frameCount == old(contents)[0].frameCount && timestamp == old(contents)[0].timestamp
      ensures old(contents) != [] && |old(contents)[0].data| > outCapacity ==> n == 0 && contents == old(contents)
      ensures old(contents) != [] && |old(contents)[0].data| <= outCapacity ==>
        n == length > 0 && out[..n] == old(contents)[0].data && contents == old(contents)[1..]
      ensures out[n..] == old(out[n..])
    {
      hide *;
      HeadKnown(this);
      var ok;
      ok, length, frameCount, timestamp := Peek();
      if !ok || length > outCapacity {
        return 0, length, frameCount, timestamp;
      }
      CopyPayload(out, length);
      Release(length);
      n := length;
    }

    /** The payload of the oldest packet. */
    method CopyPayload(out: array<byte>, length: nat)
      requires Valid() && contents != [] && length == |contents[0].data| <= out.Length && out != buffer
      modifies out
      ensures Valid() && out[..length] == contents[0].data && out[length..] == old(out[length..])
    {
      hide *;
      HeadKnown(this);
      CounterPoints(read, HEADER_BYTES, W, capacity);
      ReadAt(Plus(readPos, HEADER_BYTES, W), out, length, read + HEADER_BYTES);
      PayloadHeld(buffer[..], read, contents);
    }

    /** drop: the oldest packet goes without being copied. */
    method DropOldest() returns (ok: bool)
      requires Valid()
      modifies this
      ensures Valid() && written == old(written)
      ensures ok <==> old(contents) != []
      ensures contents == if ok then old(contents)[1..] else old(contents)
    {
      var length, frameCount, timestamp;
      ok, length, frameCount, timestamp := Peek();
      if ok {
        Release(length);
      }
    }

    /** The consumer's two stores: the read counter moves past the oldest packet, then its count goes. */
    method Release(length: nat)
      requires Valid() && contents != [] && length == |contents[0].data|
      modifies this
      ensures Valid() && contents == old(contents)[1..] && written == old(written)
    {
      TailHeld(buffer[..], read, contents);
      CounterAdd(read, HEADER_BYTES + length, W);
      CountDown(|contents|, W);
      hide Records, Holds, CounterCell, Plus, Minus;
      readPos := Plus(readPos, HEADER_BYTES + length, W);
      packets := Minus(packets, 1, W);
      read := read + HEADER_BYTES + length;
      contents := contents[1..];
    }

    /** clear, with the producer stopped. */
    method Clear()
      requires Valid()
      modifies this
      ensures Valid() && contents == [] && written == old(written)
    {
      readPos := writePos;
      packets := 0;
      read := written;
      contents := [];
    }
  }

  lemma HeadKnown(q: EncodedPacketQueue)
    requires q.Valid()
    ensures HEADER_BYTES == 8 < q.capacity < q.W && q.buffer.Length == q.capacity && q.readPos == q.read % q.W
    ensures q.read + |Records(q.contents)| == q.written && q.CountersFit(q.written)
    ensures Holds(q.buffer[..], q.read, Records(q.contents))
    ensures q.contents == [] ==> |Records(q.contents)| == 0
    ensures q.contents != [] ==>
      && q.contents[0].Fits() && 1 <= |q.contents[0].data|
      && HEADER_BYTES + |q.contents[0].data| <= |Records(q.contents)| <= q.capacity
    ensures q.W % q.capacity == 0 || (q.read < q.W && (q.contents != [] ==> q.read + HEADER_BYTES < q.W)) || q.contents == []
  {
    EmptyTogether(q.contents);
    hide Records;
  }

  /** The header lies where the read counter points. */
  lemma HeaderHeld(ring: seq<byte>, at: nat, ps: seq<Packet>)
    requires ps != [] && Holds(ring, at, Records(ps))
    ensures |ring| > 0 && Taken(ring, at, HEADER_BYTES) == Header(ps[0])
  {
    var rest := ps[0].data + Records(ps[1..]);
    assert Records(ps) == Header(ps[0]) + rest;
    HoldsTail(ring, at, Header(ps[0]), rest);
    HeldTaken(ring, at, Header(ps[0]));
  }

  /** The payload lies behind it. */
  lemma PayloadHeld(ring: seq<byte>, at: nat, ps: seq<Packet>)
    requires ps != [] && Holds(ring, at, Records(ps))
    ensures |ring| > 0 && Taken(ring, at + HEADER_BYTES, |ps[0].data|) == ps[0].data
  {
    var rest := ps[0].data + Records(ps[1..]);
    assert Records(ps) == Header(ps[0]) + rest;
    HoldsTail(ring, at, Header(ps[0]), rest);
    HoldsTail(ring, at + HEADER_BYTES, ps[0].data, Records(ps[1..]));
    HeldTaken(ring, at + HEADER_BYTES, ps[0].data);
  }

  /** Without the oldest packet the ring holds the others. */
  lemma TailHeld(ring: seq<byte>, at: nat, ps: seq<Packet>)
    requires ps != [] && Holds(ring, at, Records(ps)) && AllFit(ps)
    ensures Holds(ring, at + HEADER_BYTES + |ps[0].data|, Records(ps[1..])) && AllFit(ps[1..])
    ensures |Records(ps)| == HEADER_BYTES + |ps[0].data| + |Records(ps[1..])|
  {
    HoldsTail(ring, at, Record(ps[0]), Records(ps[1..]));
    assert at + |Record(ps[0])| == at + HEADER_BYTES + |ps[0].data|;
  }

  lemma CountDown(n: nat, W: nat)
    requires n > 0 && W > 0
    ensures Minus(n % W, 1, W) == (n - 1) % W
  {
    var q, r := n / W, n % W;
    assert n == W * q + r;
    var k, t := (r - 1) / W, (r - 1) % W;
    assert r - 1 == W * k + t;
    assert n - 1 == W * (q + k) + t by { assert W * (q + k) == W * q + W * k; }
    ModUnique(n - 1, W, q + k, t);
  }

  lemma Appended(ps: seq<Packet>, p: Packet)
    requires AllFit(ps) && p.Fits()
    ensures AllFit(ps + [p]) && |Records(ps + [p])| == |Records(ps)| + |Record(p)|
  {
    RecordsSnoc(ps, p);
  }

  lemma CopyCell(c: nat, at: nat, capacity: nat)
    requires c < capacity
    ensures var index := at % capacity; (c - at) % capacity == if c >= index then c - index else c - index + capacity
  {
    var index, q := at % capacity, at / capacity;
    assert at == capacity * q + index;
    if c >= index {
      assert c - at == capacity * -q + (c - index) by { assert capacity * -q == -(capacity * q); }
      ModUnique(c - at, capacity, -q, c - index);
    } else {
      assert c - at == capacity * (-q - 1) + (c - index + capacity) by { assert capacity * (-q - 1) == -(capacity * q) - capacity; }
      ModUnique(c - at, capacity, -q - 1, c - index + capacity);
    }
  }

  lemma CellAhead(at: nat, i: nat, capacity: nat)
    requires i < capacity
    ensures var index := at % capacity; (at + i) % capacity == if index + i < capacity then index + i else index + i - capacity
  {
    var index, q := at % capacity, at / capacity;
    assert at == capacity * q + index;
    if index + i < capacity {
      ModUnique(at + i, capacity, q, index + i);
    } else {
      assert capacity * (q + 1) == capacity * q + capacity;
      ModUnique(at + i, capacity, q + 1, index + i - capacity);
    }
  }

  lemma Small(x: nat, m: nat)
    requires x < m
    ensures x % m == x
  {
    ModUnique(x, m, 0, x);
  }

  /** A stored packet costs more than one byte. */
  lemma {:induction false} FewPackets(ps: seq<Packet>)
    ensures HEADER_BYTES * |ps| <= |Records(ps)|
  {
    if ps != [] {
      FewPackets(ps[1..]);
    }
  }
}
