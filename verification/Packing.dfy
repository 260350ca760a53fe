/** EncPacking: quantised samples, scale factors and join flags become a frame. */
module Packing {
  import opened Bits
  import opened Words
  import opened BitStrings
  import opened Frames
  import opened FrameLayout
  import opened EncoderContexts
  import opened Quantiser
  import Crc

  // ---- the accumulator Temp ----

  /** `Temp <<= w; Temp |= v;` on an 8-bit accumulator. */
  function Push(temp: nat, v: nat, w: nat): (t: byte)
  {
    Or(temp * Pow2(w) % 256, v) % 256
  }

  /** The low bits of the accumulator are what is pending; whatever sits above them is pushed
      out before a byte is written. */
  lemma PushAppends(temp: nat, k: nat, v: nat, w: nat)
    requires k + w <= 8 && v < Pow2(w)
    ensures NatBits(Push(temp, v, w), k + w) == NatBits(temp, k) + NatBits(v, w)
  {
    hide Push, NatBits, Pow2;
    var p := temp % Pow2(8 - w);
    PushValue(temp, v, w);
    NatBitsAppend(p, k, v, w);
    ModOfMod(temp, k, 8 - w);
    NatBitsJunk(p, temp, k);
  }

  lemma PushValue(temp: nat, v: nat, w: nat)
    requires w <= 8 && v < Pow2(w)
    ensures Push(temp, v, w) == Pow2(w) * (temp % Pow2(8 - w)) + v
  {
    hide Or, Pow2;
    var P, Q := Pow2(w), Pow2(8 - w);
    Pow2Add(w, 8 - w);
    Pow2Constants();
    LowPart(temp, P, Q);
    OrLow(w, temp % Q, v);
    MulOrder(P, temp % Q, Q);
  }

  lemma LowPart(x: nat, P: nat, Q: nat)
    requires P > 0 && Q > 0 && P * Q == 256
    ensures x * P % 256 == P * (x % Q)
  {
    var q, r := x / Q, x % Q;
    assert x == Q * q + r;
    assert x * P == 256 * q + P * r by {
      Distribute(P, Q, q, r);
      assert x * P == P * x;
    }
    MulOrder(P, r, Q);
    MulOrder(P, 0, r);
    ModUnique(x * P, 256, q, P * r);
  }

  lemma ModOfMod(x: nat, k: nat, n: nat)
    requires k <= n
    ensures x % Pow2(n) % Pow2(k) == x % Pow2(k)
  {
    hide Pow2;
    Pow2Add(k, n - k);
    ModProduct(x, Pow2(k), Pow2(n - k));
  }

  lemma ModProduct(x: nat, A: nat, B: nat)
    requires A > 0 && B > 0
    ensures A * B > 0 && x % (A * B) % A == x % A
  {
    MulOrder(A, 1, B);
    var q, r := x / (A * B), x % (A * B);
    assert x == A * (B * q) + r by { assert A * B * q == A * (B * q); }
    var s, t := r / A, r % A;
    assert r == A * s + t;
    assert A * (B * q + s) == A * (B * q) + A * s;
    ModUnique(x, A, B * q + s, t);
  }

  /** An empty accumulator takes the low byte of anything. */
  lemma PushEmpty(v: nat, w: nat)
    ensures Push(0, v, w) == v % 256
  {
    hide Or;
    assert 0 * Pow2(w) % 256 == 0;
    OrZero(v);
  }

  // ---- the output so far ----

  /** The bits written to `packet[4..ptr]` and the bits pending in the accumulator. */
  ghost function Stream(packet: seq<byte>, ptr: nat, temp: nat, presentBit: nat): seq<bool>
    requires 4 <= ptr <= |packet| && presentBit <= 8
  {
    Unpack(packet[4..ptr]) + NatBits(temp, 8 - presentBit)
  }

  lemma StreamStore(packet: seq<byte>, ptr: nat, b: byte)
    requires 4 <= ptr < |packet| && packet[ptr] == b
    ensures Stream(packet, ptr + 1, 0, 8) == Unpack(packet[4..ptr]) + NatBits(b, 8)
  {
    assert packet[4..ptr + 1] == packet[4..ptr] + [b];
    UnpackSnoc(packet[4..ptr], b);
    assert Unpack(packet[4..ptr + 1]) + [] == Unpack(packet[4..ptr + 1]);
  }

  /** One sample goes into the packet: the branch at the end of EncPacking. */
  method PackSample(packet: array<byte>, start: nat, accumulator: byte, free: nat, value: nat, bits: nat)
    returns (ptr: nat, temp: byte, presentBit: nat)
    requires 4 <= start && free <= 8
    requires 1 <= bits <= 16 && value < Pow2(bits)
    requires start <= packet.Length && 8 - free + bits <= 8 * (packet.Length - start)
    modifies packet
    ensures start <= ptr <= packet.Length && presentBit < 8
    ensures packet[..start] == old(packet[..start])
    ensures Stream(packet[..], ptr, temp, presentBit) == old(Stream(packet[..], start, accumulator, free)) + NatBits(value, bits)
  {
    hide NatBits, Unpack, Push, Pow2;
    if free >= bits {
      PushAppends(accumulator, 8 - free, value, bits);
      ptr, temp, presentBit := start, Push(accumulator, value, bits), free - bits;
    } else {
      ptr, temp, presentBit := SpillSample(packet, start, accumulator, free, value, bits);
    }
  }

  /** The loop of EncPacking for a sample that does not fit in the free bits. */
  method SpillSample(packet: array<byte>, start: nat, accumulator: byte, free: nat, value: nat, bits: nat)
    returns (ptr: nat, temp: byte, presentBit: nat)
    requires 4 <= start && free <= 8
    requires free < bits <= 16 && value < Pow2(bits)
    requires start <= packet.Length && 8 - free + bits <= 8 * (packet.Length - start)
    modifies packet
    ensures start <= ptr <= packet.Length && presentBit < 8
    ensures packet[..start] == old(packet[..start])
    ensures Stream(packet[..], ptr, temp, presentBit) == old(Stream(packet[..], start, accumulator, free)) + NatBits(value, bits)
  {
    hide NatBits, Push, Pow2, Stream;
    ptr, temp, presentBit := start, accumulator, free;
    var loopCount := bits;
    ghost var total := Stream(packet[..], ptr, temp, presentBit) + NatBits(value, bits);
    FirstPiece(value, loopCount, presentBit);
    while presentBit < loopCount
      invariant presentBit <= 8 && 0 <= loopCount <= bits
      invariant ptr == start ==> loopCount == bits && presentBit == free && DivNat(value, Pow2(loopCount - presentBit)) < Pow2(presentBit)
      invariant ptr > start ==> temp == 0 && presentBit == 8 && loopCount > 0
      invariant start <= ptr <= packet.Length && 8 - presentBit + loopCount <= 8 * (packet.Length - ptr)
      invariant packet[..start] == old(packet[..start])
      invariant Stream(packet[..], ptr, temp, presentBit) + NatBits(value, loopCount) == total
      decreases loopCount + (if ptr == start then 1 else 0)
    {
      loopCount := loopCount - presentBit;
      var piece := DivNat(value, Pow2(loopCount));
      ghost var before := packet[..];
      SpillStep(before, ptr, temp, presentBit, value, loopCount);
      temp := Push(temp, piece, presentBit);
      packet[ptr] := temp;
      assert packet[..] == before[ptr := temp];
      ptr := ptr + 1;
      temp := 0;
      presentBit := 8;
    }
    SpillTail(packet[..], ptr, value, loopCount);
    temp := Push(temp, value, loopCount);
    presentBit := presentBit - loopCount;
  }

  /** One round of the loop: a byte leaves with the pending bits and the next piece. */
  lemma SpillStep(packet: seq<byte>, ptr: nat, temp: nat, free: nat, value: nat, rest: nat)
    requires 4 <= ptr < |packet| && free <= 8
    requires DivNat(value, Pow2(rest)) < Pow2(free) || (temp == 0 && free == 8)
    ensures var b := Push(temp, DivNat(value, Pow2(rest)), free);
      Stream(packet[ptr := b], ptr + 1, 0, 8) + NatBits(value, rest)
      == Stream(packet, ptr, temp, free) + NatBits(value, free + rest)
  {
    hide NatBits, Push, Pow2, Unpack;
    var piece := DivNat(value, Pow2(rest));
    var b := Push(temp, piece, free);
    PieceSplits(value, free, rest);
    FullByte(temp, free, piece);
    var after := packet[ptr := b];
    StreamStore(after, ptr, b);
    assert after[4..ptr] == packet[4..ptr];
    var u, x, y, z := Unpack(packet[4..ptr]), NatBits(temp, 8 - free), NatBits(piece, free), NatBits(value, rest);
    assert u + (x + y) + z == u + x + (y + z);
  }

  /** What is left after the last full byte stays in the accumulator. */
  lemma SpillTail(packet: seq<byte>, ptr: nat, value: nat, rest: nat)
    requires 4 <= ptr <= |packet| && rest <= 8
    ensures Stream(packet, ptr, Push(0, value, rest), 8 - rest) == Stream(packet, ptr, 0, 8) + NatBits(value, rest)
  {
    hide NatBits, Push, Pow2, Unpack;
    PushEmpty(value, rest);
    Pow2Constants();
    ModOfMod(value, rest, 8);
    NatBitsJunk(value % 256, value, rest);
    assert NatBits(0, 0) == [];
    var u := Unpack(packet[4..ptr]);
    assert u + [] == u;
  }

  lemma FirstPiece(value: nat, bits: nat, free: nat)
    requires value < Pow2(bits) && free <= bits
    ensures DivNat(value, Pow2(bits - free)) < Pow2(free)
  {
    hide Pow2;
    Pow2Add(bits - free, free);
    var A, B := Pow2(bits - free), Pow2(free);
    var q := value / A;
    assert A * q <= value;
    MulOrder(A, B, q);
  }

  lemma PieceSplits(value: nat, k: nat, w: nat)
    ensures NatBits(value, k + w) == NatBits(DivNat(value, Pow2(w)), k) + NatBits(value, w)
  {
    hide Pow2, NatBits;
    var P := Pow2(w);
    var q, r := value / P, value % P;
    assert value == P * q + r;
    NatBitsAppend(q, k, r, w);
    ModIdem(value, P);
    NatBitsJunk(r, value, w);
  }

  lemma ModIdem(x: nat, m: nat)
    requires m > 0
    ensures x % m % m == x % m
  {
    ModUnique(x % m, m, 0, x % m);
  }

  /** The byte that is written holds the pending bits and the piece that fills it up. */
  lemma FullByte(temp: nat, free: nat, piece: nat)
    requires free <= 8 && (piece < Pow2(free) || (temp == 0 && free == 8))
    ensures NatBits(Push(temp, piece, free), 8) == NatBits(temp, 8 - free) + NatBits(piece, free)
  {
    hide Pow2, NatBits, Push;
    if piece < Pow2(free) {
      PushAppends(temp, 8 - free, piece, free);
    } else {
      PushEmpty(piece, 8);
      Pow2Constants();
      ModIdem(piece, 256);
      NatBitsJunk(piece % 256, piece, 8);
      assert NatBits(temp, 0) == [];
    }
  }

  // ---- the fields one after the other ----

  /** The quantised samples of a frame; subbands without bits send nothing. */
  function Quantised(info: FrameInfo, sb: seq<int>, sfs: seq<int>, bits: seq<int>): (qs: seq<nat>)
    requires Quantisable(info, sb, sfs, bits)
    ensures |qs| == SampleCount(info)
  {
    seq(SampleCount(info), k requires 0 <= k < SampleCount(info) => QuantisedAt(info, sb, sfs, bits, k))
  }

  function QuantisedAt(info: FrameInfo, sb: seq<int>, sfs: seq<int>, bits: seq<int>, k: nat): nat
    requires Quantisable(info, sb, sfs, bits) && k < SampleCount(info)
  {
    var lane := k % info.Lanes();
    if bits[lane] == 0 then 0 else Quantise(sb[k], sfs[lane], bits[lane])
  }

  /** Samples within their scale factors, and a bit count for every subband. */
  ghost predicate Quantisable(info: FrameInfo, sb: seq<int>, sfs: seq<int>, bits: seq<int>) {
    && SampleCount(info) <= |sb| && |sfs| == |bits| == info.Lanes()
    && (forall i :: 0 <= i < info.Lanes() ==> 0 <= sfs[i] < 16 && 0 <= bits[i] <= 16)
    && (forall k :: 0 <= k < SampleCount(info) ==> Int32(sb[k]) && InScale(sb[k], sfs[k % info.Lanes()]))
  }

  lemma QuantisedFits(info: FrameInfo, sb: seq<int>, sfs: seq<int>, bits: seq<int>, k: nat)
    requires Quantisable(info, sb, sfs, bits) && k < SampleCount(info)
    ensures QuantisedAt(info, sb, sfs, bits, k) < Pow2(bits[k % info.Lanes()])
  {
    hide Quantise, Pow2;
    var lane := k % info.Lanes();
    if bits[lane] > 0 {
      QuantiseFits(sb[k], sfs[lane], bits[lane]);
    } else {
      assert Pow2(0) == 1 by { PowZero(); }
    }
  }

  lemma PowZero()
    ensures Pow2(0) == 1
  {
  }

  /** Scale factors, four bits each. */
  method PackScaleFactors(packet: array<byte>, start: nat, accumulator: byte, free: nat, sfs: seq<nat>,
                          ghost head: seq<bool>)
    returns (ptr: nat, temp: byte, presentBit: nat)
    requires 4 <= start <= packet.Length && (free == 8 || free == 4)
    requires 8 - free + 4 * |sfs| <= 8 * (packet.Length - start)
    requires forall i :: 0 <= i < |sfs| ==> sfs[i] < 16
    requires Stream(packet[..], start, accumulator, free) == head
    modifies packet
    ensures 4 <= ptr <= packet.Length && (presentBit == 8 || presentBit == 4)
    ensures packet[..4] == old(packet[..4])
    ensures Stream(packet[..], ptr, temp, presentBit) == head + FieldBits(sfs, seq(|sfs|, _ => 4))
  {
    hide NatBits, Push, Stream, FieldBits;
    ghost var ws := seq(|sfs|, _ => 4);
    ptr, temp, presentBit := start, accumulator, free;
    var i := 0;
    FieldsNone(head, sfs, ws);
    while i < |sfs|
      invariant i <= |sfs| && 4 <= ptr <= packet.Length && (presentBit == 8 || presentBit == 4)
      invariant 8 - presentBit + 4 * (|sfs| - i) <= 8 * (packet.Length - ptr)
      invariant packet[..4] == old(packet[..4])
      invariant Stream(packet[..], ptr, temp, presentBit) == head + FieldBits(sfs[..i], ws[..i])
    {
      ghost var before := packet[..];
      FieldsNext(sfs, ws, i);
      NibbleStep(before, ptr, temp, presentBit, sfs[i]);
      assert head + FieldBits(sfs[..i], ws[..i]) + NatBits(sfs[i], 4) == head + (FieldBits(sfs[..i], ws[..i]) + NatBits(sfs[i], 4));
      temp := Push(temp, sfs[i], 4);
      if presentBit == 4 {
        presentBit := 8;
        packet[ptr] := temp;
        assert packet[..] == before[ptr := temp];
        ptr := ptr + 1;
        temp := 0;
      } else {
        presentBit := 4;
      }
      i := i + 1;
    }
    assert sfs[..i] == sfs && ws[..i] == ws;
  }

  lemma FieldsNone(head: seq<bool>, vs: seq<nat>, ws: seq<nat>)
    ensures head + FieldBits(vs[..0], ws[..0]) == head
  {
  }

  lemma NibbleStep(packet: seq<byte>, ptr: nat, temp: byte, presentBit: nat, v: nat)
    requires 4 <= ptr <= |packet| && v < 16 && (presentBit == 8 || presentBit == 4)
    ensures var t := Push(temp, v, 4); var grown := Stream(packet, ptr, temp, presentBit) + NatBits(v, 4);
      && (presentBit == 8 ==> Stream(packet, ptr, t, 4) == grown)
      && (presentBit == 4 && ptr < |packet| ==> Stream(packet[ptr := t], ptr + 1, 0, 8) == grown)
  {
    hide NatBits, Push, Unpack;
    var t := Push(temp, v, 4);
    assert Pow2(4) == 16;
    PushAppends(temp, 8 - presentBit, v, 4);
    if presentBit == 4 && ptr < |packet| {
      StreamStore(packet[ptr := t], ptr, t);
      assert packet[ptr := t][4..ptr] == packet[4..ptr];
    }
  }

  /** Join flags: one byte of eight, or the upper half of a byte. */
  method PackJoin(packet: array<byte>, join: seq<nat>) returns (ptr: nat, temp: byte, presentBit: nat)
    requires (|join| == 4 || |join| == 8) && packet.Length >= 5
    requires forall i :: 0 <= i < |join| ==> join[i] < 2
    modifies packet
    ensures 4 <= ptr <= 5 && (presentBit == 8 || presentBit == 4)
    ensures packet[..4] == old(packet[..4])
    ensures Stream(packet[..], ptr, temp, presentBit) == NatBits(JoinValue(join), |join|)
    ensures 8 * (ptr - 4) + (8 - presentBit) == |join|
  {
    hide NatBits, Push;
    ptr, temp, presentBit := 4, 0, 8;
    var sb := 0;
    EmptyField();
    while sb < |join|
      invariant sb <= |join| && packet[..] == old(packet[..])
      invariant NatBits(temp, sb) == NatBits(JoinValue(join[..sb]), sb)
    {
      assert join[..sb + 1][..sb] == join[..sb];
      Pow2Constants();
      PushAppends(temp, sb, join[sb], 1);
      NatBitsAppend(JoinValue(join[..sb]), sb, join[sb], 1);
      temp := Push(temp, join[sb], 1);
      sb := sb + 1;
    }
    assert join[..sb] == join;
    assert packet[4..4] == [];
    if |join| == 4 {
      presentBit := 4;
      assert Stream(packet[..], ptr, temp, presentBit) == [] + NatBits(temp, 4);
    } else {
      ghost var before := packet[..];
      packet[ptr] := temp;
      assert packet[..] == before[ptr := temp];
      StreamStore(packet[..], ptr, temp);
      ptr := ptr + 1;
      temp := 0;
    }
  }

  lemma EmptyField()
    ensures NatBits(0, 0) == NatBits(JoinValue([]), 0)
  {
  }

  /** Quantise one sample and pack it, if its subband has bits. */
  method PackQuantised(packet: array<byte>, start: nat, accumulator: byte, free: nat, sample: int, sf: nat, bits: nat)
    returns (ptr: nat, temp: byte, presentBit: nat)
    requires 4 <= start <= packet.Length && free <= 8 && 8 - free + bits <= 8 * (packet.Length - start)
    requires sf < 16 && bits <= 16 && Int32(sample) && InScale(sample, sf)
    modifies packet
    ensures start <= ptr <= packet.Length && presentBit <= 8
    ensures packet[..start] == old(packet[..start])
    ensures Stream(packet[..], ptr, temp, presentBit)
         == old(Stream(packet[..], start, accumulator, free)) + NatBits(if bits == 0 then 0 else Quantise(sample, sf, bits), bits)
    ensures 8 * (ptr - start) + (8 - presentBit) == 8 - free + bits
    ensures presentBit == 8 ==> free == 8 && bits == 0
  {
    hide NatBits, Stream, Quantise, Pow2, InScale;
    ptr, temp, presentBit := start, accumulator, free;
    StreamLength(packet[..], start, accumulator, free);
    if bits != 0 {
      QuantiseFits(sample, sf, bits);
      var quantised := Quantise(sample, sf, bits);
      ptr, temp, presentBit := PackSample(packet, ptr, temp, presentBit, quantised, bits);
      StreamLength(packet[..], ptr, temp, presentBit);
    } else {
      NoBits(0);
    }
  }

  /** The fields before `k` have been packed, starting at `start` with `free` free bits. */
  ghost predicate Packed(packet: seq<byte>, start: nat, free: nat, ptr: nat, temp: byte, presentBit: nat,
                         head: seq<bool>, vs: seq<nat>, ws: seq<nat>, k: nat)
  {
    && free <= 8 && presentBit <= 8 && 4 <= start <= ptr <= |packet| && k <= |vs| == |ws|
    && Stream(packet, ptr, temp, presentBit) == head + FieldBits(vs[..k], ws[..k])
    && 8 * (ptr - start) + (8 - presentBit) == 8 - free + Width(ws[..k])
    && (presentBit == 8 ==> free == 8 && Width(ws[..k]) == 0)
  }

  lemma PackedStart(packet: seq<byte>, start: nat, free: nat, temp: byte, vs: seq<nat>, ws: seq<nat>)
    requires 4 <= start <= |packet| && free <= 8 && |vs| == |ws|
    ensures Packed(packet, start, free, start, temp, free, Stream(packet, start, temp, free), vs, ws, 0)
  {
    hide NatBits, Unpack;
    FieldsNone(Stream(packet, start, temp, free), vs, ws);
    WidthNone(ws);
  }

  /** There is room for the next field. */
  lemma PackedRoom(packet: seq<byte>, start: nat, free: nat, ptr: nat, temp: byte, presentBit: nat,
                   head: seq<bool>, vs: seq<nat>, ws: seq<nat>, k: nat)
    requires Packed(packet, start, free, ptr, temp, presentBit, head, vs, ws, k) && k < |ws|
    requires 8 - free + Width(ws) <= 8 * (|packet| - start)
    ensures 8 - presentBit + ws[k] <= 8 * (|packet| - ptr)
  {
    hide Stream, FieldBits, Width;
    FieldsNext(vs, ws, k);
    WidthPrefix(ws, k + 1);
  }

  lemma PackedNext(packet: seq<byte>, start: nat, free: nat, ptr: nat, temp: byte, presentBit: nat,
                   head: seq<bool>, vs: seq<nat>, ws: seq<nat>, k: nat,
                   packet': seq<byte>, ptr': nat, temp': byte, presentBit': nat)
    requires Packed(packet, start, free, ptr, temp, presentBit, head, vs, ws, k) && k < |ws|
    requires ptr <= ptr' <= |packet'| && presentBit' <= 8
    requires Stream(packet', ptr', temp', presentBit') == Stream(packet, ptr, temp, presentBit) + NatBits(vs[k], ws[k])
    requires 8 * (ptr' - ptr) + (8 - presentBit') == 8 - presentBit + ws[k]
    requires presentBit' == 8 ==> presentBit == 8 && ws[k] == 0
    ensures Packed(packet', start, free, ptr', temp', presentBit', head, vs, ws, k + 1)
  {
    hide Stream, FieldBits, Width, NatBits;
    FieldsNext(vs, ws, k);
    assert head + FieldBits(vs[..k], ws[..k]) + NatBits(vs[k], ws[k]) == head + (FieldBits(vs[..k], ws[..k]) + NatBits(vs[k], ws[k]));
  }

  lemma PackedAll(packet: seq<byte>, start: nat, free: nat, ptr: nat, temp: byte, presentBit: nat,
                  head: seq<bool>, vs: seq<nat>, ws: seq<nat>)
    requires |vs| == |ws| && Packed(packet, start, free, ptr, temp, presentBit, head, vs, ws, |vs|)
    ensures start <= ptr <= |packet| && presentBit <= 8
    ensures Stream(packet, ptr, temp, presentBit) == head + FieldBits(vs, ws)
    ensures 8 * (ptr - start) + (8 - presentBit) == 8 - free + Width(ws)
    ensures presentBit == 8 ==> free == 8 && Width(ws) == 0
  {
    hide Stream, FieldBits, Width;
    assert vs[..|vs|] == vs && ws[..|vs|] == ws;
  }

  /** The sample of lane `ch` in block `row`. */
  method PackNext(info: FrameInfo, packet: array<byte>, ghost begin: nat, ghost room: nat, start: nat,
                  accumulator: byte, free: nat,
                  sb: seq<int>, sfs: seq<nat>, bits: seq<nat>, ghost head: seq<bool>, k: nat, ch: nat)
    returns (ptr: nat, temp: byte, presentBit: nat)
    requires Quantisable(info, sb, sfs, bits) && k < SampleCount(info) && ch == k % info.Lanes()
    requires Packed(packet[..], begin, room, start, accumulator, free, head, Quantised(info, sb, sfs, bits), SampleWidths(info, bits), k)
    requires 8 - room + Width(SampleWidths(info, bits)) <= 8 * (packet.Length - begin)
    modifies packet
    ensures packet[..begin] == old(packet[..begin])
    ensures Packed(packet[..], begin, room, ptr, temp, presentBit, head, Quantised(info, sb, sfs, bits), SampleWidths(info, bits), k + 1)
  {
    ghost var vs, ws := Quantised(info, sb, sfs, bits), SampleWidths(info, bits);
    ghost var before := packet[..];
    SampleHere(info, sb, sfs, bits, k);
    PackedRoom(before, begin, room, start, accumulator, free, head, vs, ws, k);
    hide Stream, Quantise, Quantisable, Quantised, SampleWidths, InScale, NatBits, FieldBits, Width;
    ptr, temp, presentBit := PackQuantised(packet, start, accumulator, free, sb[k], sfs[ch], bits[ch]);
    PackedNext(before, begin, room, start, accumulator, free, head, vs, ws, k, packet[..], ptr, temp, presentBit);
    assert packet[..begin] == packet[..start][..begin];
  }

  /** The samples of one block. */
  method PackBlock(info: FrameInfo, packet: array<byte>, ghost begin: nat, ghost room: nat, start: nat,
                   accumulator: byte, free: nat,
                   sb: seq<int>, sfs: seq<nat>, bits: seq<nat>, ghost head: seq<bool>, first: nat, ghost row: nat)
    returns (ptr: nat, temp: byte, presentBit: nat)
    requires Quantisable(info, sb, sfs, bits) && row < info.NrofBlocks() && first == RowStart(info, row)
    requires Packed(packet[..], begin, room, start, accumulator, free, head, Quantised(info, sb, sfs, bits), SampleWidths(info, bits), first)
    requires 8 - room + Width(SampleWidths(info, bits)) <= 8 * (packet.Length - begin)
    modifies packet
    ensures packet[..begin] == old(packet[..begin])
    ensures Packed(packet[..], begin, room, ptr, temp, presentBit, head, Quantised(info, sb, sfs, bits),
                   SampleWidths(info, bits), RowStart(info, row + 1))
  {
    ghost var vs, ws := Quantised(info, sb, sfs, bits), SampleWidths(info, bits);
    hide Quantisable, Quantised, Width, SampleWidths, Packed, RowStart, SampleCount;
    ptr, temp, presentBit := start, accumulator, free;
    RowFits(info, row);
    var ch := 0;
    while ch < info.Lanes()
      invariant ch <= info.Lanes()
      invariant packet[..begin] == old(packet[..begin])
      invariant Packed(packet[..], begin, room, ptr, temp, presentBit, head, vs, ws, first + ch)
    {
      RowLane(info, row, ch);
      ptr, temp, presentBit := PackNext(info, packet, begin, room, ptr, temp, presentBit, sb, sfs, bits, head, first + ch, ch);
      ch := ch + 1;
    }
  }

  /** All samples, block by block. */
  method PackSamples(info: FrameInfo, packet: array<byte>, start: nat, accumulator: byte, free: nat,
                     sb: seq<int>, sfs: seq<nat>, bits: seq<nat>)
    returns (ptr: nat, temp: byte, presentBit: nat)
    requires 4 <= start <= packet.Length && free <= 8 && Quantisable(info, sb, sfs, bits)
    requires 8 - free + Width(SampleWidths(info, bits)) <= 8 * (packet.Length - start)
    modifies packet
    ensures packet[..start] == old(packet[..start])
    ensures Packed(packet[..], start, free, ptr, temp, presentBit, old(Stream(packet[..], start, accumulator, free)),
                   Quantised(info, sb, sfs, bits), SampleWidths(info, bits), SampleCount(info))
  {
    ghost var head := Stream(packet[..], start, accumulator, free);
    ghost var vs, ws := Quantised(info, sb, sfs, bits), SampleWidths(info, bits);
    hide Stream, Quantisable, Quantised, Width, SampleWidths, Packed, RowStart, SampleCount;
    PackedStart(packet[..], start, free, accumulator, vs, ws);
    ptr, temp, presentBit := start, accumulator, free;
    var k, row := 0, 0;
    Rows(info);
    while row < info.NrofBlocks()
      invariant row <= info.NrofBlocks() && k == RowStart(info, row)
      invariant packet[..start] == old(packet[..start])
      invariant Packed(packet[..], start, free, ptr, temp, presentBit, head, vs, ws, k)
    {
      RowFits(info, row);
      ptr, temp, presentBit := PackBlock(info, packet, start, free, ptr, temp, presentBit, sb, sfs, bits, head, k, row);
      k := k + info.Lanes();
      row := row + 1;
    }
  }

  lemma NoBits(v: nat)
    ensures NatBits(v, 0) == []
  {
  }

  lemma SampleHere(info: FrameInfo, sb: seq<int>, sfs: seq<int>, bits: seq<int>, k: nat)
    requires Quantisable(info, sb, sfs, bits) && k < SampleCount(info)
    ensures var ch := k % info.Lanes();
      && k < |sb| && 0 <= sfs[ch] < 16 && 0 <= bits[ch] <= 16 && Int32(sb[k]) && InScale(sb[k], sfs[ch])
      && SampleWidths(info, bits)[k] == bits[ch]
      && Quantised(info, sb, sfs, bits)[k] == if bits[ch] == 0 then 0 else Quantise(sb[k], sfs[ch], bits[ch])
  {
    hide Quantise, InScale;
  }

  lemma StreamLength(packet: seq<byte>, ptr: nat, temp: byte, presentBit: nat)
    requires 4 <= ptr <= |packet| && presentBit <= 8
    ensures |Stream(packet, ptr, temp, presentBit)| == 8 * (ptr - 4) + (8 - presentBit)
  {
  }

  // ---- the whole frame ----

  /** The flags of a joint frame are bits. */
  ghost predicate JoinFlags(info: FrameInfo, join: seq<nat>) {
    |join| == 8 && (info.mode.Joint? ==> forall i :: 0 <= i < info.NrofSubbands() ==> join[i] < 2)
  }

  /** What the encoder is about to send. */
  function ContentFrom(info: FrameInfo, join: seq<nat>, sb: seq<int>, sfs: seq<nat>, bits: seq<nat>): (c: Content)
    requires Quantisable(info, sb, sfs, bits) && JoinFlags(info, join)
    ensures Shaped(info, c, bits)
  {
    var qs := Quantised(info, sb, sfs, bits);
    assert forall k :: 0 <= k < |qs| ==> qs[k] < Pow2(bits[k % info.Lanes()]) by {
      forall k | 0 <= k < |qs| ensures qs[k] < Pow2(bits[k % info.Lanes()]) {
        QuantisedFits(info, sb, sfs, bits, k);
      }
    }
    Content(if info.mode.Joint? then join[..info.NrofSubbands()] else [], sfs, qs)
  }

  ghost function ContentOf(p: EncoderParams): (c: Content)
    requires Ready(p)
    reads p`info, p.join, p.scaleFactor, p.sbBuffer, p.bits
    ensures Shaped(p.info, c, p.bits[..p.info.Lanes()])
  {
    ContentFrom(p.info, p.join[..], p.sbBuffer[..], p.scaleFactor[..p.info.Lanes()], p.bits[..p.info.Lanes()])
  }

  /** Samples lie within their scale factors, and bits have been allocated. */
  ghost predicate Ready(p: EncoderParams)
    reads p`info, p.join, p.scaleFactor, p.sbBuffer, p.bits
  {
    && p.Valid()
    && Quantisable(p.info, p.sbBuffer[..], p.scaleFactor[..p.info.Lanes()], p.bits[..p.info.Lanes()])
    && JoinFlags(p.info, p.join[..])
  }

  /** Values and widths of the fields before the samples. */
  function HeadValues(info: FrameInfo, c: Content): seq<nat> {
    (if info.mode.Joint? then [JoinValue(c.join)] else []) + c.sfs
  }

  function HeadWidths(info: FrameInfo): seq<nat> {
    (if info.mode.Joint? then [info.NrofSubbands()] else []) + seq(info.Lanes(), _ => 4)
  }

  /** Join flags and scale factors. */
  method PackHead(info: FrameInfo, join: seq<nat>, sfs: seq<nat>, packet: array<byte>)
    returns (ptr: nat, temp: byte, presentBit: nat)
    requires |join| == (if info.mode.Joint? then info.NrofSubbands() else 0) && |sfs| == info.Lanes()
    requires (forall i :: 0 <= i < |join| ==> join[i] < 2) && (forall i :: 0 <= i < |sfs| ==> sfs[i] < 16)
    requires HeadWidth(info) <= 8 * (packet.Length - 4) && packet.Length >= 5
    modifies packet
    ensures 4 <= ptr <= packet.Length && (presentBit == 8 || presentBit == 4)
    ensures packet[..4] == old(packet[..4])
    ensures Stream(packet[..], ptr, temp, presentBit) == FieldBits(HeadValues(info, Content(join, sfs, [])), HeadWidths(info))
    ensures 8 * (ptr - 4) + (8 - presentBit) == HeadWidth(info)
  {
    hide NatBits, Push, FieldBits, Unpack, JoinValue;
    ghost var vs: seq<nat> := if info.mode.Joint? then [JoinValue(join)] else [];
    ghost var ws: seq<nat> := if info.mode.Joint? then [info.NrofSubbands()] else [];
    ptr, temp, presentBit := 4, 0, 8;
    if info.mode.Joint? {
      ptr, temp, presentBit := PackJoin(packet, join);
      OneField(vs[0], ws[0]);
    } else {
      NoFields();
      assert packet[4..4] == [];
      assert Stream(packet[..], 4, 0, 8) == [];
    }
    FieldsConcat(vs, ws, sfs, seq(info.Lanes(), _ => 4));
    ptr, temp, presentBit := PackScaleFactors(packet, ptr, temp, presentBit, sfs, FieldBits(vs, ws));
    StreamLength(packet[..], ptr, temp, presentBit);
    HeadBits(info, Content(join, sfs, []));
  }

  lemma OneField(v: nat, w: nat)
    ensures FieldBits([v], [w]) == NatBits(v, w)
  {
    NoFields();
    assert [v][..0] == [] && [w][..0] == [];
    assert [] + NatBits(v, w) == NatBits(v, w);
  }

  lemma NoFields()
    ensures FieldBits([], []) == [] && NatBits(0, 0) == [] && Unpack([]) == []
  {
  }

  lemma FieldsReady(info: FrameInfo, join: seq<nat>, sb: seq<int>, sfs: seq<nat>, bits: seq<nat>, c: Content)
    requires Quantisable(info, sb, sfs, bits)
    requires Shaped(info, c, bits) && c == Content(join, sfs, Quantised(info, sb, sfs, bits))
    ensures |join| == (if info.mode.Joint? then info.NrofSubbands() else 0) && |sfs| == |bits| == info.Lanes()
    ensures (forall i :: 0 <= i < |join| ==> join[i] < 2) && (forall i :: 0 <= i < |sfs| ==> sfs[i] < 16)
  {
  }

  /** All fields behind the header bytes; the last byte is still in the accumulator. */
  method PackFields(info: FrameInfo, join: seq<nat>, sb: seq<int>, sfs: seq<nat>, bits: seq<nat>, ghost c: Content,
                    packet: array<byte>)
    returns (ptr: nat, temp: byte, presentBit: nat)
    requires Quantisable(info, sb, sfs, bits) && packet.Length >= PacketLength(info, bits)
    requires Shaped(info, c, bits) && c == Content(join, sfs, Quantised(info, sb, sfs, bits))
    modifies packet
    ensures 4 <= ptr && ptr + 1 == PacketLength(info, bits) && presentBit == EndPad(info, bits) <= 8
    ensures packet[..4] == old(packet[..4])
    ensures Stream(packet[..], ptr, temp, presentBit) == Body(info, c, bits)
  {
    hide *;
    FieldsReady(info, join, sb, sfs, bits, c);
    PacketLengthBounds(info, bits);
    BodySplits(info, c, bits);
    ghost var qs, ws := Quantised(info, sb, sfs, bits), SampleWidths(info, bits);
    ptr, temp, presentBit := PackHead(info, join, sfs, packet);
    ghost var at, free := ptr, presentBit;
    ghost var head, header := Stream(packet[..], ptr, temp, presentBit), packet[..at];
    ptr, temp, presentBit := PackSamples(info, packet, ptr, temp, presentBit, sb, sfs, bits);
    assert packet[..4] == header[..4];
    PackedAll(packet[..], at, free, ptr, temp, presentBit, head, qs, ws);
    LastByte(info, bits, at, free, ptr, presentBit);
  }

  /** Everything behind the header bytes, up to and including the last byte. */
  method PackBody(info: FrameInfo, join: seq<nat>, sb: seq<int>, sfs: seq<nat>, bits: seq<nat>, ghost c: Content,
                  packet: array<byte>)
    returns (length: nat)
    requires Quantisable(info, sb, sfs, bits) && packet.Length >= PacketLength(info, bits)
    requires Shaped(info, c, bits) && c == Content(join, sfs, Quantised(info, sb, sfs, bits))
    modifies packet
    ensures length == PacketLength(info, bits) && 7 <= length <= packet.Length
    ensures packet[..4] == old(packet[..4])
    ensures Unpack(packet[..length][4..]) == Body(info, c, bits) + seq(EndPad(info, bits), _ => false)
  {
    PacketLengthBounds(info, bits);
    hide *;
    var ptr, temp, presentBit := PackFields(info, join, sb, sfs, bits, c, packet);
    length := StoreLast(packet, ptr, temp, presentBit, Body(info, c, bits));
  }

  /** `Temp <<= presentBit; *packetPtr = Temp;` */
  method StoreLast(packet: array<byte>, ptr: nat, temp: byte, presentBit: nat, ghost body: seq<bool>)
    returns (length: nat)
    requires 4 <= ptr < packet.Length && presentBit <= 8 && Stream(packet[..], ptr, temp, presentBit) == body
    modifies packet
    ensures length == ptr + 1 && packet[..ptr] == old(packet[..ptr])
    ensures packet[..4] == old(packet[..4])
    ensures Unpack(packet[..length][4..]) == body + seq(presentBit, _ => false)
  {
    hide Push, Stream, Unpack;
    ghost var before := packet[..];
    packet[ptr] := Push(temp, 0, presentBit);
    assert packet[..] == before[ptr := packet[ptr]];
    Finish(before, ptr, temp, presentBit, body);
    length := ptr + 1;
    assert packet[..length] == before[ptr := packet[ptr]][..length];
  }

  /** EncPacking: the packet is the frame of what the encoder holds, with its checksum. */
  method EncPacking(p: EncoderParams, packet: array<byte>) returns (length: nat)
    requires Ready(p) && packet.Length >= PacketLength(p.info, p.bits[..p.info.Lanes()])
    modifies packet
    ensures length == PacketLength(p.info, p.bits[..p.info.Lanes()])
    ensures Crc.ChecksumBytes(p.info) < length <= packet.Length
    ensures IsFrame(p.info, ContentOf(p), p.bits[..p.info.Lanes()], packet[..length], EndPad(p.info, p.bits[..p.info.Lanes()]))
    ensures packet[3] == Crc.Checksum(p.info, packet[..length])
  {
    var info := p.info;
    var sfs: seq<nat> := p.scaleFactor[..info.Lanes()];
    var bits: seq<nat> := p.bits[..info.Lanes()];
    var join := if info.mode.Joint? then p.join[..info.NrofSubbands()] else [];
    ghost var c := ContentOf(p);
    PacketLengthBounds(info, bits);
    length := PackFrame(info, join, p.sbBuffer[..], sfs, bits, c, packet);
  }

  method PackFrame(info: FrameInfo, join: seq<nat>, sb: seq<int>, sfs: seq<nat>, bits: seq<nat>, ghost c: Content,
                   packet: array<byte>)
    returns (length: nat)
    requires info.Valid() && Quantisable(info, sb, sfs, bits) && packet.Length >= PacketLength(info, bits)
    requires Shaped(info, c, bits) && c == Content(join, sfs, Quantised(info, sb, sfs, bits))
    modifies packet
    ensures length == PacketLength(info, bits) && Crc.ChecksumBytes(info) < length <= packet.Length
    ensures IsFrame(info, c, bits, packet[..length], EndPad(info, bits))
    ensures packet[3] == Crc.Checksum(info, packet[..length])
  {
    PacketLengthBounds(info, bits);
    hide *;
    packet[0] := 0x9C;
    packet[1] := HeaderByte(info);
    packet[2] := info.bitpool;
    ghost var header := packet[..4];
    length := PackBody(info, join, sb, sfs, bits, c, packet);
    assert packet[..4] == header;
    ghost var fields := packet[..length][4..];
    assert packet[4..length] == fields;
    StoreChecksum(info, packet, length);
    assert packet[..length][4..] == fields;
    assert packet[..length][0] == packet[..3][0] == header[0];
    assert packet[..length][1] == packet[..3][1] == header[1];
    assert packet[..length][2] == packet[..3][2] == header[2];
    FrameFrom(info, c, bits, packet[..length]);
  }

  /** The checksum goes into the fourth byte. */
  method StoreChecksum(info: FrameInfo, packet: array<byte>, length: nat)
    requires 4 <= length <= packet.Length && Crc.ChecksumBytes(info) < length
    modifies packet
    ensures packet[..3] == old(packet[..3]) && packet[4..length] == old(packet[4..length])
    ensures packet[3] == Crc.Checksum(info, packet[..length])
  {
    hide Crc.Checksum;
    ghost var before := packet[..length];
    var crc := Crc.EncoderChecksum(info, packet[..length]);
    packet[3] := crc;
    Crc.ChecksumReads(info, before, packet[..length]);
  }

  lemma FrameFrom(info: FrameInfo, c: Content, bits: seq<nat>, packet: seq<byte>)
    requires info.Valid() && Shaped(info, c, bits) && |packet| >= 4
    requires packet[0] == 0x9C && packet[1] == HeaderByte(info) && packet[2] == info.bitpool
    requires Unpack(packet[4..]) == Body(info, c, bits) + seq(EndPad(info, bits), _ => false)
    ensures IsFrame(info, c, bits, packet, EndPad(info, bits))
  {
    hide Shaped, Body, EndPad, Unpack, HeaderByte;
  }

  lemma PacketLengthBounds(info: FrameInfo, bits: seq<nat>)
    requires |bits| == info.Lanes()
    ensures PacketLength(info, bits) >= 7 && Crc.ChecksumBytes(info) < PacketLength(info, bits)
    ensures HeadWidth(info) + Width(SampleWidths(info, bits)) <= 8 * (PacketLength(info, bits) - 4)
  {
    hide Width, SampleWidths;
  }

  lemma HeadBits(info: FrameInfo, c: Content)
    requires |c.sfs| == info.Lanes()
    ensures |FieldBits(HeadValues(info, c), HeadWidths(info))| == HeadWidth(info)
  {
    hide FieldBits, JoinValue;
    var js: seq<nat> := if info.mode.Joint? then [info.NrofSubbands()] else [];
    FoursWidth(info.Lanes());
    WidthConcat(js, seq(info.Lanes(), _ => 4));
    assert js == [] + js;
    assert Width(js) == JoinBits(info) by {
      if info.mode.Joint? {
        assert js[..0] == [];
      }
    }
  }

  lemma BodySplits(info: FrameInfo, c: Content, bits: seq<nat>)
    requires Shaped(info, c, bits)
    ensures Body(info, c, bits)
         == FieldBits(HeadValues(info, Content(c.join, c.sfs, [])), HeadWidths(info)) + FieldBits(c.samples, SampleWidths(info, bits))
  {
    hide FieldBits, JoinValue, SampleWidths;
    FieldsConcat(HeadValues(info, c), HeadWidths(info), c.samples, SampleWidths(info, bits));
  }

  /** The byte under construction when all fields are packed is the last one. */
  lemma LastByte(info: FrameInfo, bits: seq<nat>, at: nat, free: nat, ptr: nat, presentBit: nat)
    requires |bits| == info.Lanes() && 4 <= at <= ptr && presentBit <= 8 && (free == 4 || free == 8)
    requires 8 * (at - 4) + (8 - free) == HeadWidth(info)
    requires 8 * (ptr - at) + (8 - presentBit) == 8 - free + Width(SampleWidths(info, bits))
    requires presentBit == 8 ==> free == 8 && Width(SampleWidths(info, bits)) == 0
    ensures presentBit == EndPad(info, bits) && ptr + 1 == PacketLength(info, bits)
  {
    hide Width, SampleWidths, HeadWidth;
    var w := Width(SampleWidths(info, bits));
    var body := HeadWidth(info) + w;
    assert body + presentBit == 8 * (ptr - 3);
    PadOf(body, ptr - 3, presentBit);
    if w == 0 && body % 8 == 0 {
      assert free == 8 by { PadOf(HeadWidth(info), at - 3, free); }
    }
  }

  lemma PadOf(body: nat, bytes: nat, pad: nat)
    requires body + pad == 8 * bytes && pad <= 8
    ensures pad == 8 || pad == (8 - body % 8) % 8
    ensures body % 8 == 0 ==> pad == 0 || pad == 8
  {
  }

  lemma Finish(packet: seq<byte>, ptr: nat, temp: byte, presentBit: nat, body: seq<bool>)
    requires 4 <= ptr < |packet| && presentBit <= 8 && Stream(packet, ptr, temp, presentBit) == body
    ensures var last := Push(temp, 0, presentBit);
      Unpack(packet[ptr := last][..ptr + 1][4..]) == body + seq(presentBit, _ => false)
  {
    hide Push, NatBits, Unpack;
    var last := Push(temp, 0, presentBit);
    var after := packet[ptr := last];
    PushAppends(temp, 8 - presentBit, 0, presentBit);
    ZeroBits(presentBit);
    StreamStore(after, ptr, last);
    assert after[..ptr + 1][4..] == after[4..ptr + 1] && after[4..ptr] == packet[4..ptr];
    var u, x, y := Unpack(packet[4..ptr]), NatBits(temp, 8 - presentBit), NatBits(0, presentBit);
    assert u + (x + y) == u + x + y;
    assert NatBits(0, 0) == [] by { NoFields(); }
    assert Unpack(after[4..ptr + 1]) + [] == Unpack(after[4..ptr + 1]);
  }

  lemma {:induction false} ZeroBits(n: nat)
    ensures NatBits(0, n) == seq(n, _ => false)
  {
    if n > 0 {
      ZeroBits(n - 1);
    }
  }
}
