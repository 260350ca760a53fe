/** The byte ring under EncodedPacketQueue: positions count bytes without bound, cells are positions
    modulo the capacity. */
module PacketRing {
  import opened Bits
  import opened BitStrings

  /** The ring holds `bytes` from position `at` on. */
  ghost predicate Holds(ring: seq<byte>, at: nat, bytes: seq<byte>) {
    |ring| > 0 && |bytes| <= |ring| && forall i :: 0 <= i < |bytes| ==> ring[(at + i) % |ring|] == bytes[i]
  }

  /** What a copy of `n` bytes from position `at` finds. */
  ghost function Taken(ring: seq<byte>, at: nat, n: nat): (bytes: seq<byte>)
    requires |ring| > 0
    ensures |bytes| == n
  {
    seq(n, i requires 0 <= i < n => ring[(at + i) % |ring|])
  }

  lemma HeldTaken(ring: seq<byte>, at: nat, bytes: seq<byte>)
    requires Holds(ring, at, bytes)
    ensures Taken(ring, at, |bytes|) == bytes
  {
  }

  /** The ring after `bytes` have been copied in at position `at`. */
  ghost function Put(ring: seq<byte>, at: nat, bytes: seq<byte>): (after: seq<byte>)
    requires |ring| > 0
    ensures |after| == |ring|
  {
    seq(|ring|, c requires 0 <= c < |ring| => PutCell(ring, at, bytes, c))
  }

  ghost function PutCell(ring: seq<byte>, at: nat, bytes: seq<byte>, c: nat): byte
    requires c < |ring|
  {
    var d := (c - at) % |ring|;
    if d < |bytes| then bytes[d] else ring[c]
  }

  /** How far the cell of position `p` is from that of position `at`. */
  lemma Distance(p: nat, at: nat, capacity: nat)
    requires capacity > 0
    ensures (p % capacity - at) % capacity == (p - at) % capacity
    ensures at <= p < at + capacity ==> (p - at) % capacity == p - at
    ensures p < at <= p + capacity ==> (p - at) % capacity == p - at + capacity
  {
    var q, r := p / capacity, p % capacity;
    assert p == capacity * q + r;
    var m := (r - at) % capacity;
    var k := (r - at) / capacity;
    assert r - at == capacity * k + m;
    assert p - at == capacity * (q + k) + m by { assert capacity * (q + k) == capacity * q + capacity * k; }
    ModUnique(p - at, capacity, q + k, m);
    if at <= p < at + capacity {
      ModUnique(p - at, capacity, 0, p - at);
    }
    if p < at < p + capacity || p + capacity == at {
      assert p - at == capacity * -1 + (p - at + capacity);
      ModUnique(p - at, capacity, -1, p - at + capacity);
    }
  }

  /** Bytes copied in behind what the ring holds extend it. */
  lemma PutExtends(ring: seq<byte>, at: nat, bytes: seq<byte>, more: seq<byte>)
    requires Holds(ring, at, bytes) && |bytes| + |more| <= |ring|
    ensures Holds(Put(ring, at + |bytes|, more), at, bytes + more)
  {
    var end, all := at + |bytes|, bytes + more;
    var after := Put(ring, end, more);
    forall i | 0 <= i < |all| ensures after[(at + i) % |ring|] == all[i] {
      Distance(at + i, end, |ring|);
      var c := (at + i) % |ring|;
      assert after[c] == PutCell(ring, end, more, c);
      if i < |bytes| {
        assert (c - end) % |ring| == at + i - end + |ring|;
      } else {
        assert (c - end) % |ring| == i - |bytes|;
      }
    }
  }

  /** What is held from a later position on. */
  lemma HoldsTail(ring: seq<byte>, at: nat, xs: seq<byte>, ys: seq<byte>)
    requires Holds(ring, at, xs + ys)
    ensures Holds(ring, at + |xs|, ys) && Holds(ring, at, xs)
  {
    forall i | 0 <= i < |ys| ensures ring[(at + |xs| + i) % |ring|] == ys[i] {
      assert ring[(at + (|xs| + i)) % |ring|] == (xs + ys)[|xs| + i];
    }
    forall i | 0 <= i < |xs| ensures ring[(at + i) % |ring|] == xs[i] {
      assert (xs + ys)[i] == xs[i];
    }
  }

  // ---- counters of limited width ----

  /** A counter value that leads to the cell of position `at`. */
  ghost predicate Points(offset: nat, at: nat, capacity: nat) {
    capacity > 0 && offset % capacity == at % capacity
  }

  /** A copy goes to the same cells from every counter value that leads to them. */
  lemma PutAlike(ring: seq<byte>, offset: nat, at: nat, bytes: seq<byte>)
    requires |ring| > 0 && Points(offset, at, |ring|)
    ensures Put(ring, offset, bytes) == Put(ring, at, bytes)
  {
    forall c | 0 <= c < |ring| ensures PutCell(ring, offset, bytes, c) == PutCell(ring, at, bytes, c) {
      SameResidue(c, offset, at, |ring|);
    }
  }

  lemma SameResidue(c: int, x: nat, y: nat, m: nat)
    requires m > 0 && x % m == y % m
    ensures (c - x) % m == (c - y) % m
  {
    var p, q, r := x / m, y / m, x % m;
    assert x == m * p + r && y == m * q + r;
    var k, t := (c - x) / m, (c - x) % m;
    assert c - x == m * k + t;
    assert c - y == m * (k + p - q) + t by { assert m * (k + p - q) == m * k + m * p - m * q; }
    ModUnique(c - y, m, k + p - q, t);
  }

  /** The counter after `n` more bytes. */
  function Plus(counter: nat, n: nat, W: nat): nat
    requires W > 0
  {
    (counter + n) % W
  }

  function Minus(counter: nat, n: nat, W: nat): nat
    requires W > 0
  {
    (counter - n) % W
  }

  /** A counter that stands at position `p` points to it and moves on to `p + n`. */
  lemma CounterPoints(p: nat, n: nat, W: nat, capacity: nat)
    requires W > 0 && capacity > 0 && (W % capacity == 0 || p + n < W)
    ensures Points(p % W, p, capacity)
    ensures Plus(p % W, n, W) == (p + n) % W && Points((p + n) % W, p + n, capacity)
  {
    CounterFindsCell(p, W, capacity);
    CounterFindsCell(p + n, W, capacity);
    CounterAdd(p, n, W);
  }

  /** The cell of position `p` when the counter has wrapped at `W`. */
  function CounterCell(p: nat, W: nat, capacity: nat): nat
    requires W > 0 && capacity > 0
  {
    p % W % capacity
  }

  /** A wrapped counter finds the right cell as long as the capacity divides its range, or it has not wrapped. */
  lemma CounterFindsCell(p: nat, W: nat, capacity: nat)
    requires W > 0 && capacity > 0 && (W % capacity == 0 || p < W)
    ensures CounterCell(p, W, capacity) == p % capacity
  {
    if p < W {
      ModUnique(p, W, 0, p);
    } else {
      var q, r := p / W, p % W;
      var m := W / capacity;
      assert W == capacity * m;
      assert p == W * q + r;
      var k, t := r / capacity, r % capacity;
      assert r == capacity * k + t;
      assert W * q == capacity * (m * q) by { assert capacity * m * q == capacity * (m * q); }
      assert p == capacity * (m * q + k) + t by { assert capacity * (m * q + k) == capacity * (m * q) + capacity * k; }
      ModUnique(p, capacity, m * q + k, t);
    }
  }

  /** The difference of two wrapped counters is right for every capacity. */
  lemma CounterDifference(w: nat, r: nat, W: nat)
    requires W > 0 && r <= w < r + W
    ensures (w % W - r % W) % W == w - r
  {
    var p, q := w / W, r / W;
    assert w == W * p + w % W && r == W * q + r % W;
    assert w % W - r % W == W * (q - p) + (w - r) by { assert W * (q - p) == W * q - W * p; }
    ModUnique(w % W - r % W, W, q - p, w - r);
  }

  lemma CounterAdd(w: nat, n: nat, W: nat)
    requires W > 0
    ensures Plus(w % W, n, W) == (w + n) % W
  {
    var q, r := w / W, w % W;
    assert w == W * q + r;
    var k, t := (r + n) / W, (r + n) % W;
    assert r + n == W * k + t;
    assert w + n == W * (q + k) + t by { assert W * (q + k) == W * q + W * k; }
    ModUnique(w + n, W, q + k, t);
  }

  /** Every window of `capacity` positions has cells of its own exactly if the capacity divides the
      range of the counter: otherwise the first position after the wrap shares a cell with one that
      may still be in use. */
  lemma CellsDistinct(W: nat, capacity: nat)
    requires 0 < capacity <= W
    ensures (forall a: nat, b: nat :: a < b < a + capacity ==> CounterCell(a, W, capacity) != CounterCell(b, W, capacity)) <==> W % capacity == 0
  {
    if W % capacity == 0 {
      forall a: nat, b: nat | a < b < a + capacity ensures CounterCell(a, W, capacity) != CounterCell(b, W, capacity) {
        CounterFindsCell(a, W, capacity);
        CounterFindsCell(b, W, capacity);
        Distance(b, a, capacity);
        Distance(a, a, capacity);
      }
    } else {
      CellClash(W, capacity);
      assert CounterCell(W - W % capacity, W, capacity) == CounterCell(W, W, capacity);
    }
  }

  lemma CellClash(W: nat, capacity: nat)
    requires 0 < capacity <= W && W % capacity != 0
    ensures var a := W - W % capacity; a < W < a + capacity && CounterCell(a, W, capacity) == 0 == CounterCell(W, W, capacity)
  {
    var r, q := W % capacity, W / capacity;
    assert W - r == capacity * q;
    ModUnique(W - r, capacity, q, 0);
    ModUnique(W - r, W, 0, W - r);
    ModUnique(W, W, 1, 0);
    ModUnique(0, capacity, 0, 0);
  }
}
