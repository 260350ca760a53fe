/** EncodedPacketQueue when its byte counters overflow: which bytes of the stored packets still have a
    cell of their own, for every capacity. */
module PacketQueueOverflow {
  import opened Bits
  import opened BitStrings
  import opened PacketRing
  import opened EncodedPacketQueue
  import opened PacketQueueSteps

  // ---- packets pushed one after the other ----

  /** The cell of byte `i` of some packets whose first push starts at a counter value. */
  function CellOf(c: Config, counter: nat, ps: seq<Packet>, i: nat): (cell: nat)
    requires c.Valid() && i < |Records(ps)|
    ensures cell < c.capacity
    decreases ps
  {
    var first := |Record(ps[0])|;
    if i < first then RecordCell(c, counter, i) else CellOf(c, Plus(counter, first, c.W), ps[1..], i - first)
  }

  /** The ring after the first `n` of these bytes have been copied in, in order. */
  ghost function Copied(c: Config, ring: seq<byte>, counter: nat, ps: seq<Packet>, n: nat): (after: seq<byte>)
    requires c.Valid() && |ring| == c.capacity && n <= |Records(ps)|
    ensures |after| == c.capacity
  {
    if n == 0 then ring
    else Copied(c, ring, counter, ps, n - 1)[CellOf(c, counter, ps, n - 1) := Records(ps)[n - 1]]
  }

  /** A byte copied in by a push under way is one of these. */
  lemma StepCopies(c: Config, s: State)
    requires c.Valid() && |s.ring| == c.capacity && Enabled(s, CopyByteIn)
    ensures var p, counter, i := s.producer.p, s.producer.write, s.producer.done;
      && i < |Records([p])|
      && Step(c, s, CopyByteIn).ring == s.ring[CellOf(c, counter, [p], i) := Records([p])[i]]
  {
    hide Header, RecordCell;
    var p := s.producer.p;
    assert [p][1..] == [] && Records([p]) == Record(p) + [];
  }

  /** Where the copy that byte `i` belongs to starts: header and payload are copied separately. */
  function CopyStart(ps: seq<Packet>, i: nat): (start: nat)
    requires i < |Records(ps)|
    ensures start <= i
    decreases ps
  {
    var first := |Record(ps[0])|;
    if i < HEADER_BYTES then 0
    else if i < first then HEADER_BYTES
    else first + CopyStart(ps[1..], i - first)
  }

  /** The first byte whose copy starts `gap` bytes on or later; the length of the records if there is none. */
  function Break(ps: seq<Packet>, gap: int): (b: nat)
    ensures b <= |Records(ps)|
    ensures gap > 0 && ps != [] ==> b > 0
  {
    if ps == [] || gap <= 0 then 0
    else if gap <= HEADER_BYTES then HEADER_BYTES
    else |Record(ps[0])| + Break(ps[1..], gap - |Record(ps[0])|)
  }

  lemma {:induction false} BreakSplits(ps: seq<Packet>, gap: int, i: nat)
    requires AllFit(ps) && i < |Records(ps)|
    ensures CopyStart(ps, i) >= gap <==> i >= Break(ps, gap)
  {
    var first := |Record(ps[0])|;
    assert ps[0].Fits();
    if i >= first && gap > HEADER_BYTES {
      RestFits(ps);
      BreakSplits(ps[1..], gap - first, i - first);
    }
  }

  lemma RestFits(ps: seq<Packet>)
    requires AllFit(ps) && ps != []
    ensures AllFit(ps[1..])
  {
  }

  /** There is such a byte exactly if the last payload starts that far on. */
  lemma {:induction false} BreakInside(ps: seq<Packet>, gap: int)
    requires AllFit(ps) && ps != []
    ensures |Records(ps)| >= HEADER_BYTES + |ps[|ps| - 1].data|
    ensures Break(ps, gap) < |Records(ps)| <==> gap <= |Records(ps)| - |ps[|ps| - 1].data|
  {
    hide *;
    BreakStep(ps, gap);
    if |ps| > 1 {
      RestFits(ps);
      BreakInside(ps[1..], gap - |Record(ps[0])|);
      assert ps[1..][|ps| - 2] == ps[|ps| - 1];
    }
  }

  lemma BreakStep(ps: seq<Packet>, gap: int)
    requires AllFit(ps) && ps != []
    ensures |Record(ps[0])| == HEADER_BYTES + |ps[0].data| > HEADER_BYTES
    ensures |Records(ps)| == |Record(ps[0])| + |Records(ps[1..])|
    ensures |ps| == 1 ==> |Records(ps[1..])| == 0 && Break(ps[1..], gap - |Record(ps[0])|) == 0
    ensures Break(ps, gap)
         == (if gap <= 0 then 0 else if gap <= HEADER_BYTES then HEADER_BYTES else |Record(ps[0])| + Break(ps[1..], gap - |Record(ps[0])|))
  {
    hide Header;
    assert ps[0].Fits();
    if |ps| == 1 {
      assert ps[1..] == [];
    }
  }

  // ---- cells ----

  /** A copy that starts before the overflow runs on from there; one that starts behind it begins anew. */
  lemma {:induction false} CellIs(c: Config, counter: nat, ps: seq<Packet>, i: nat)
    requires c.Valid() && i < |Records(ps)| <= c.capacity && counter < c.W
    ensures counter + CopyStart(ps, i) >= c.W ==> counter + i >= c.W
    ensures CellOf(c, counter, ps, i)
         == (if counter + CopyStart(ps, i) < c.W then counter + i else counter + i - c.W) % c.capacity
    decreases ps
  {
    hide Record;
    var first := |Record(ps[0])|;
    if i < HEADER_BYTES {
      ModAdd(counter, i, c.capacity);
    } else if i < first {
      var payload := Plus(counter, HEADER_BYTES, c.W);
      PlusIs(counter, HEADER_BYTES, c.W);
      ModAdd(payload, i - HEADER_BYTES, c.capacity);
    } else {
      PlusIs(counter, first, c.W);
      CellIs(c, Plus(counter, first, c.W), ps[1..], i - first);
    }
  }

  lemma PlusIs(counter: nat, n: nat, W: nat)
    requires counter < W && n < W
    ensures Plus(counter, n, W) == if counter + n < W then counter + n else counter + n - W
  {
    ModUnique(counter + n, W, if counter + n < W then 0 else 1, if counter + n < W then counter + n else counter + n - W);
  }

  /** Two bytes share a cell exactly if the overflow lies between their copies and they are as far
      apart as the counter range exceeds whole turns of the ring. */
  lemma SameCellIff(c: Config, counter: nat, ps: seq<Packet>, i: nat, j: nat)
    requires c.Valid() && AllFit(ps) && i < j < |Records(ps)| <= c.capacity && counter < c.W
    ensures CellOf(c, counter, ps, i) == CellOf(c, counter, ps, j) <==>
      i < Break(ps, c.W - counter) <= j && j - i == c.W % c.capacity
  {
    hide *;
    CellIs(c, counter, ps, i);
    CellIs(c, counter, ps, j);
    BreakSplits(ps, c.W - counter, i);
    BreakSplits(ps, c.W - counter, j);
    Known(c);
    var m, turns, r := c.capacity, c.W / c.capacity, c.W % c.capacity;
    assert c.W == m * turns + r;
    if i < Break(ps, c.W - counter) <= j {
      TurnsApart(counter + i, j - i, c.W, m, turns, r);
    } else {
      Apart(if i < Break(ps, c.W - counter) then counter + i else counter + i - c.W, j - i, m);
    }
  }

  lemma Known(c: Config)
    requires c.Valid()
    ensures 0 < c.capacity < c.W
  {
  }

  lemma Residues(x: int, y: int, m: nat)
    requires m > 0
    ensures x % m == y % m <==> (y - x) % m == 0
  {
    var p, r := x / m, x % m;
    var q, t := y / m, y % m;
    assert x == m * p + r && y == m * q + t;
    assert y - x == m * (q - p) + (t - r) by { assert m * (q - p) == m * q - m * p; }
    if t >= r {
      ModUnique(y - x, m, q - p, t - r);
    } else {
      assert y - x == m * (q - p - 1) + (t - r + m) by { assert m * (q - p - 1) == m * (q - p) - m; }
      ModUnique(y - x, m, q - p - 1, t - r + m);
    }
  }

  /** A step of `d` and back by a whole counter range leads to the same cell exactly for the remainder. */
  lemma TurnsApart(x: int, d: nat, W: nat, m: nat, turns: nat, r: nat)
    requires 0 < d < m && r < m && W == m * turns + r
    ensures x % m == (x + d - W) % m <==> d == r
  {
    Residues(x, x + d - W, m);
    assert x + d - W - x == m * (0 - turns) + (d - r) by { assert m * (0 - turns) == 0 - m * turns; }
    if d >= r {
      ModUnique(d - W, m, 0 - turns, d - r);
    } else {
      assert d - W == m * (0 - turns - 1) + (d - r + m) by { assert m * (0 - turns - 1) == 0 - m * turns - m; }
      ModUnique(d - W, m, 0 - turns - 1, d - r + m);
    }
  }

  lemma Apart(x: int, d: nat, m: nat)
    requires 0 < d < m
    ensures x % m != (x + d) % m
  {
    Residues(x, x + d, m);
    ModUnique(d, m, 0, d);
  }

  // ---- what can still be read ----

  /** All stored bytes have cells of their own. */
  ghost predicate Intact(c: Config, counter: nat, ps: seq<Packet>)
    requires c.Valid()
  {
    forall i, j :: 0 <= i < j < |Records(ps)| ==> CellOf(c, counter, ps, i) != CellOf(c, counter, ps, j)
  }

  /** The stored packets survive exactly if the capacity divides the counter range, or they are no
      longer than the remainder, or no copy starts behind the overflow. */
  lemma IntactIff(c: Config, counter: nat, ps: seq<Packet>)
    requires c.Valid() && AllFit(ps) && ps != [] && |Records(ps)| <= c.capacity && counter < c.W
    ensures Intact(c, counter, ps) <==>
      || c.W % c.capacity == 0
      || |Records(ps)| <= c.W % c.capacity
      || counter + |Records(ps)| - |ps[|ps| - 1].data| < c.W
  {
    hide Records, CopyStart, CellOf, Break;
    var total, r, b := |Records(ps)|, c.W % c.capacity, Break(ps, c.W - counter);
    BreakInside(ps, c.W - counter);
    forall i, j | 0 <= i < j < total
      ensures CellOf(c, counter, ps, i) == CellOf(c, counter, ps, j) <==> i < b <= j && j - i == r
    {
      SameCellIff(c, counter, ps, i, j);
    }
    if 0 < r < total && b < total {
      var i := if b >= r then b - r else 0;
      assert i < b <= i + r < total;
      assert CellOf(c, counter, ps, i) == CellOf(c, counter, ps, i + r);
    }
  }

  /** A queue filled across the overflow keeps its packets exactly if the capacity divides the counter range. */
  lemma FullQueueSurvivesIff(c: Config, counter: nat, ps: seq<Packet>)
    requires c.Valid() && AllFit(ps) && ps != [] && |Records(ps)| == c.capacity
    requires counter < c.W <= counter + |Records(ps)| - |ps[|ps| - 1].data|
    ensures Intact(c, counter, ps) <==> c.W % c.capacity == 0
  {
    hide Records, Intact;
    IntactIff(c, counter, ps);
  }

  /** Byte by byte: where a byte has lost its cell, the byte the remainder further on is read instead. */
  lemma ReadBack(c: Config, ring: seq<byte>, counter: nat, ps: seq<Packet>, i: nat)
    requires c.Valid() && |ring| == c.capacity && AllFit(ps) && i < |Records(ps)| <= c.capacity && counter < c.W
    ensures var r, b := c.W % c.capacity, Break(ps, c.W - counter);
      Copied(c, ring, counter, ps, |Records(ps)|)[CellOf(c, counter, ps, i)]
      == Records(ps)[if r > 0 && i < b <= i + r < |Records(ps)| then i + r else i]
  {
    hide Records, CopyStart, CellOf, Break, Copied;
    var total, r, b := |Records(ps)|, c.W % c.capacity, Break(ps, c.W - counter);
    var k := if r > 0 && i < b <= i + r < total then i + r else i;
    if k > i {
      SameCellIff(c, counter, ps, i, k);
    }
    forall j | k < j < total ensures CellOf(c, counter, ps, j) != CellOf(c, counter, ps, k) {
      SameCellIff(c, counter, ps, i, j);
    }
    LastWins(c, ring, counter, ps, total, k);
  }

  /** A cell holds the last byte that was copied to it. */
  lemma {:induction false} LastWins(c: Config, ring: seq<byte>, counter: nat, ps: seq<Packet>, n: nat, i: nat)
    requires c.Valid() && |ring| == c.capacity && i < n <= |Records(ps)|
    requires forall j :: i < j < n ==> CellOf(c, counter, ps, j) != CellOf(c, counter, ps, i)
    ensures Copied(c, ring, counter, ps, n)[CellOf(c, counter, ps, i)] == Records(ps)[i]
    decreases n
  {
    hide Records, CellOf;
    if i < n - 1 {
      LastWins(c, ring, counter, ps, n - 1, i);
    }
  }

  // ---- every other capacity fails ----

  /** Packets whose records take exactly `n` bytes. */
  function Filling(n: nat): (ps: seq<Packet>)
    requires n > HEADER_BYTES
    ensures AllFit(ps) && ps != [] && |Records(ps)| == n
  {
    if n <= HEADER_BYTES + MAX_PACKET_BYTES then
      var p := Packet(seq(n - HEADER_BYTES, _ => 0), 0, 0);
      assert [p][1..] == [] && Records([p]) == Record(p) + [];
      [p]
    else
      var p := Packet([0], 0, 0);
      var rest := Filling(n - |Record(p)|);
      assert ([p] + rest)[1..] == rest && Records([p] + rest) == Record(p) + Records(rest);
      [p] + rest
  }

  /** Whatever other capacity a queue has, some packets that fill it do not survive the overflow. */
  lemma OtherCapacitiesFail(c: Config) returns (counter: nat, ps: seq<Packet>)
    requires c.Valid() && c.W % c.capacity != 0
    ensures counter < c.W && AllFit(ps) && ps != [] && |Records(ps)| == c.capacity
    ensures !Intact(c, counter, ps)
  {
    hide Records, Intact, Filling;
    counter, ps := c.W - HEADER_BYTES, Filling(c.capacity);
    BreakInside(ps, 0);
    FullQueueSurvivesIff(c, counter, ps);
  }

  /** 32-bit counters and 1025 bytes: one packet that fills the queue, its header ending at the
      overflow, has its length replaced by two bytes of its payload. */
  lemma LengthOverwritten(ring: seq<byte>, p: Packet)
    requires |ring| == 1025 && p.Fits() && |p.data| == 1017
    ensures var c, counter := Config(1025, 0x1_0000_0000), 0xFFFF_FFF8;
      var after := Copied(c, ring, counter, [p], 1025);
      && |Records([p])| == 1025
      && after[CellOf(c, counter, [p], 0)] == p.data[1013] && after[CellOf(c, counter, [p], 1)] == p.data[1014]
  {
    hide CellOf, Copied, Header;
    var c, counter := Config(1025, 0x1_0000_0000), 0xFFFF_FFF8;
    assert [p][1..] == [] && Records([p]) == Record(p) + [];
    assert Break([p], c.W - counter) == 8;
    ModUnique(c.W, c.capacity, 4190211, 1021);
    ReadBack(c, ring, counter, [p], 0);
    ReadBack(c, ring, counter, [p], 1);
  }
}
