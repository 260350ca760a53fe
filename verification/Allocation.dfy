/** The bit allocation both ends of an SBC link must agree on (section 12.6.3 of Appendix B
    of the A2DP specification), stated over "heights": at adjustment `a`, a subband with
    need `n` stands at height `n + a` and owns `Clamp(n + a)` bits. The encoder's bit slice
    `s` is the adjustment `-s`. */
module Allocation {

  /** Bits a subband owns at a height: none below 2, at most 16. */
  function Clamp(x: int): (b: nat)
  {
    if x < 2 then 0 else if x < 16 then x else 16
  }

  function Clamps(ns: seq<int>, a: int): (bs: seq<nat>)
    ensures |bs| == |ns| && forall i :: 0 <= i < |ns| ==> bs[i] == Clamp(ns[i] + a)
  {
    seq(|ns|, i requires 0 <= i < |ns| => Clamp(ns[i] + a))
  }

  /** Bits all subbands own together at adjustment `a`. */
  function Total(ns: seq<int>, a: int): nat {
    if ns == [] then 0 else Clamp(ns[0] + a) + Total(ns[1..], a)
  }

  /** Bits it costs to lift one subband by one. */
  function Cost(x: int): nat {
    if x == 1 then 2 else if 2 <= x < 16 then 1 else 0
  }

  /** Bits in the slice between adjustments `a` and `a + 1`. */
  function Slice(ns: seq<int>, a: int): nat {
    if ns == [] then 0 else Cost(ns[0] + a) + Slice(ns[1..], a)
  }

  function Sum(bs: seq<nat>): nat {
    if bs == [] then 0 else bs[0] + Sum(bs[1..])
  }

  /** The adjustments at which the walk over bit slices may stop: `bitpool` lies in
      the slice above `a`, its end points included. */
  ghost predicate IsLevel(ns: seq<int>, bitpool: nat, a: int) {
    Total(ns, a) <= bitpool <= Total(ns, a + 1)
  }

  // ---- handing out the bits that are left above a level ----

  /** What the first pass gives the subband at height `x`, and what is left after it. */
  function FirstGrant(x: int, excess: nat): (nat, nat) {
    if 1 < x < 16 then if excess > 0 then (x + 1, excess - 1) else (x, excess)
    else if x == 1 && excess > 1 then (2, excess - 2)
    else (Clamp(x), excess)
  }

  function FirstPass(ns: seq<int>, a: int, excess: nat): (r: (seq<nat>, nat))
    ensures |r.0| == |ns|
  {
    if ns == [] then ([], excess)
    else
      var grant := FirstGrant(ns[0] + a, excess);
      var rest := FirstPass(ns[1..], a, grant.1);
      ([grant.0] + rest.0, rest.1)
  }

  /** The second pass gives one bit to every subband below 16 while bits are left. */
  function SecondGrant(b: nat, excess: nat): (nat, nat) {
    if excess > 0 && b < 16 then (b + 1, excess - 1) else (b, excess)
  }

  function SecondPass(bs: seq<nat>, excess: nat): (r: (seq<nat>, nat))
    ensures |r.0| == |bs|
  {
    if bs == [] then ([], excess)
    else
      var grant := SecondGrant(bs[0], excess);
      var rest := SecondPass(bs[1..], grant.1);
      ([grant.0] + rest.0, rest.1)
  }

  /** The bits of all subbands, in the order in which the passes visit them. */
  function Spread(ns: seq<int>, a: int, excess: nat): (bs: seq<nat>)
    ensures |bs| == |ns|
  {
    var first := FirstPass(ns, a, excess);
    SecondPass(first.0, first.1).0
  }

  // ---- totals and levels ----

  lemma {:induction false} TotalStep(ns: seq<int>, a: int)
    ensures Total(ns, a + 1) == Total(ns, a) + Slice(ns, a)
  {
    if ns != [] {
      TotalStep(ns[1..], a);
    }
  }

  lemma {:induction false} TotalMonotone(ns: seq<int>, a: int, b: int)
    requires a <= b
    ensures Total(ns, a) <= Total(ns, b)
  {
    if ns != [] {
      TotalMonotone(ns[1..], a, b);
    }
  }

  /** Equal totals mean that no subband moved. */
  lemma {:induction false} EqualTotals(ns: seq<int>, a: int, b: int)
    requires a <= b && Total(ns, a) == Total(ns, b)
    ensures Clamps(ns, a) == Clamps(ns, b)
  {
    if ns != [] {
      TotalMonotone(ns[1..], a, b);
      EqualTotals(ns[1..], a, b);
      assert Clamp(ns[0] + a) == Clamp(ns[0] + b);
      forall i | 0 <= i < |ns| ensures Clamps(ns, a)[i] == Clamps(ns, b)[i] {
        if i > 0 {
          assert Clamps(ns[1..], a)[i - 1] == Clamps(ns[1..], b)[i - 1];
        }
      }
    }
  }

  lemma {:induction false} TotalConcat(ms: seq<int>, ns: seq<int>, a: int)
    ensures Total(ms + ns, a) == Total(ms, a) + Total(ns, a)
  {
    if ms == [] {
      assert ms + ns == ns;
    } else {
      assert (ms + ns)[1..] == ms[1..] + ns;
      TotalConcat(ms[1..], ns, a);
    }
  }

  lemma {:induction false} SliceConcat(ms: seq<int>, ns: seq<int>, a: int)
    ensures Slice(ms + ns, a) == Slice(ms, a) + Slice(ns, a)
  {
    if ms == [] {
      assert ms + ns == ns;
    } else {
      assert (ms + ns)[1..] == ms[1..] + ns;
      SliceConcat(ms[1..], ns, a);
    }
  }

  /** At or below the ground no subband owns anything. */
  lemma {:induction false} TotalGround(ns: seq<int>, a: int)
    requires forall i :: 0 <= i < |ns| ==> ns[i] + a <= 1
    ensures Total(ns, a) == 0
  {
    if ns != [] {
      TotalGround(ns[1..], a);
    }
  }

  lemma {:induction false} TotalCeiling(ns: seq<int>, a: int)
    ensures Total(ns, a) <= 16 * |ns|
    ensures (forall i :: 0 <= i < |ns| ==> ns[i] + a >= 16) ==> Total(ns, a) == 16 * |ns|
  {
    if ns != [] {
      TotalCeiling(ns[1..], a);
    }
  }

  function Lowest(ns: seq<int>): (m: int)
    ensures forall i :: 0 <= i < |ns| ==> m <= ns[i]
  {
    if ns == [] then 0 else var m := Lowest(ns[1..]); if ns[0] < m then ns[0] else m
  }

  function Highest(ns: seq<int>): (m: int)
    ensures m >= 0 && forall i :: 0 <= i < |ns| ==> ns[i] <= m
  {
    if ns == [] then 0 else var m := Highest(ns[1..]); if ns[0] > m then ns[0] else m
  }

  /** The first level at or above `a`. */
  function LevelFrom(ns: seq<int>, bitpool: nat, a: int): (l: int)
    requires Total(ns, a) <= bitpool <= 16 * |ns|
    ensures a <= l && IsLevel(ns, bitpool, l)
    decreases 16 - Lowest(ns) - a
  {
    TotalCeiling(ns, a + 1);
    if bitpool <= Total(ns, a + 1) then a else LevelFrom(ns, bitpool, a + 1)
  }

  /** The walk over slices can stop exactly when the bitpool fits in 16 bits per subband. */
  lemma LevelExists(ns: seq<int>, bitpool: nat)
    ensures (exists a :: IsLevel(ns, bitpool, a)) <==> bitpool <= 16 * |ns|
  {
    if bitpool <= 16 * |ns| {
      TotalGround(ns, -Highest(ns));
      assert IsLevel(ns, bitpool, LevelFrom(ns, bitpool, -Highest(ns)));
    }
    forall a | IsLevel(ns, bitpool, a) ensures bitpool <= 16 * |ns| {
      TotalCeiling(ns, a + 1);
    }
  }

  // ---- the first pass ----

  /** Enough bits for the whole slice lift every subband by one. */
  lemma {:induction false} FirstPassLifts(ns: seq<int>, a: int, excess: nat)
    requires Slice(ns, a) <= excess
    ensures FirstPass(ns, a, excess) == (Clamps(ns, a + 1), excess - Slice(ns, a))
  {
    if ns == [] {
      assert Clamps(ns, a + 1) == [];
    } else {
      var grant := FirstGrant(ns[0] + a, excess);
      FirstPassLifts(ns[1..], a, grant.1);
      assert Clamps(ns, a + 1) == [Clamp(ns[0] + a + 1)] + Clamps(ns[1..], a + 1);
    }
  }

  /** Nothing to hand out leaves every subband where it stands. */
  lemma {:induction false} FirstPassRests(ns: seq<int>, a: int)
    ensures FirstPass(ns, a, 0) == (Clamps(ns, a), 0)
  {
    if ns == [] {
      assert Clamps(ns, a) == [];
    } else {
      FirstPassRests(ns[1..], a);
      assert Clamps(ns, a) == [Clamp(ns[0] + a)] + Clamps(ns[1..], a);
    }
  }

  lemma {:induction false} FirstPassConserves(ns: seq<int>, a: int, excess: nat)
    ensures var r := FirstPass(ns, a, excess);
      Sum(r.0) + r.1 == Total(ns, a) + excess && r.1 <= excess && forall i :: 0 <= i < |ns| ==> r.0[i] <= 16
  {
    if ns != [] {
      FirstPassConserves(ns[1..], a, FirstGrant(ns[0] + a, excess).1);
    }
  }

  /** Less than a slice leaves at most one bit: the one that could not buy a pair. */
  lemma {:induction false} FirstPassLeavesOne(ns: seq<int>, a: int, excess: nat)
    requires excess <= Slice(ns, a)
    ensures FirstPass(ns, a, excess).1 <= 1
  {
    if ns != [] {
      var grant := FirstGrant(ns[0] + a, excess);
      if grant.1 <= Slice(ns[1..], a) {
        FirstPassLeavesOne(ns[1..], a, grant.1);
      } else {
        FirstPassConserves(ns[1..], a, grant.1);
      }
    }
  }

  // ---- the second pass ----

  lemma {:induction false} SecondPassRests(bs: seq<nat>)
    ensures SecondPass(bs, 0) == (bs, 0)
  {
    if bs != [] {
      SecondPassRests(bs[1..]);
      assert [bs[0]] + bs[1..] == bs;
    }
  }

  lemma {:induction false} SecondPassConserves(bs: seq<nat>, excess: nat)
    requires forall i :: 0 <= i < |bs| ==> bs[i] <= 16
    ensures var r := SecondPass(bs, excess);
      Sum(r.0) + r.1 == Sum(bs) + excess && forall i :: 0 <= i < |bs| ==> bs[i] <= r.0[i] <= 16
  {
    if bs != [] {
      SecondPassConserves(bs[1..], SecondGrant(bs[0], excess).1);
    }
  }

  /** A last bit always finds a subband below 16 when the pool was not too large. */
  lemma {:induction false} SecondPassPlacesOne(bs: seq<nat>)
    requires forall i :: 0 <= i < |bs| ==> bs[i] <= 16
    requires Sum(bs) < 16 * |bs|
    ensures SecondPass(bs, 1).1 == 0
  {
    if bs[0] < 16 {
      SecondPassRests(bs[1..]);
    } else {
      SecondPassPlacesOne(bs[1..]);
    }
  }

  // ---- the theorems ----

  /** Every level leads to the same bits, so two ends that walk differently agree. */
  lemma LevelDecides(ns: seq<int>, bitpool: nat, a: int, b: int)
    requires IsLevel(ns, bitpool, a) && IsLevel(ns, bitpool, b)
    ensures Spread(ns, a, bitpool - Total(ns, a)) == Spread(ns, b, bitpool - Total(ns, b))
  {
    if a < b {
      LowerLevelDecides(ns, bitpool, a, b);
    } else if b < a {
      LowerLevelDecides(ns, bitpool, b, a);
    }
  }

  lemma LowerLevelDecides(ns: seq<int>, bitpool: nat, a: int, b: int)
    requires a < b && IsLevel(ns, bitpool, a) && IsLevel(ns, bitpool, b)
    ensures Spread(ns, a, bitpool - Total(ns, a)) == Spread(ns, b, bitpool - Total(ns, b)) == Clamps(ns, a + 1)
  {
    // the pool is exhausted exactly at the top of the lower slice
    TotalMonotone(ns, a + 1, b);
    EqualTotals(ns, a + 1, b);
    TotalStep(ns, a);
    FirstPassLifts(ns, a, bitpool - Total(ns, a));
    FirstPassRests(ns, b);
    SecondPassRests(Clamps(ns, b));
  }

  /** At most one bit survives the first pass, and the second pass always places it. */
  lemma SpreadConserves(ns: seq<int>, bitpool: nat, a: int)
    requires IsLevel(ns, bitpool, a)
    ensures var excess := bitpool - Total(ns, a);
      && FirstPass(ns, a, excess).1 <= 1
      && Sum(Spread(ns, a, excess)) == bitpool
      && forall i :: 0 <= i < |ns| ==> Spread(ns, a, excess)[i] <= 16
  {
    var excess := bitpool - Total(ns, a);
    var first := FirstPass(ns, a, excess);
    TotalStep(ns, a);
    TotalCeiling(ns, a + 1);
    FirstPassConserves(ns, a, excess);
    FirstPassLeavesOne(ns, a, excess);
    SecondPassConserves(first.0, first.1);
    if first.1 == 0 {
      SecondPassRests(first.0);
    } else {
      SecondPassPlacesOne(first.0);
    }
  }

  /** The reference allocation: walk up from the ground to the first level. */
  function StandardBits(ns: seq<int>, bitpool: nat): (bs: seq<nat>)
    requires bitpool <= 16 * |ns|
    ensures |bs| == |ns|
    ensures Sum(bs) == bitpool && forall i :: 0 <= i < |bs| ==> bs[i] <= 16
  {
    TotalGround(ns, -Highest(ns));
    var a := LevelFrom(ns, bitpool, -Highest(ns));
    SpreadConserves(ns, bitpool, a);
    Spread(ns, a, bitpool - Total(ns, a))
  }

  lemma LevelGivesStandard(ns: seq<int>, bitpool: nat, a: int)
    requires IsLevel(ns, bitpool, a) && bitpool <= 16 * |ns|
    ensures Spread(ns, a, bitpool - Total(ns, a)) == StandardBits(ns, bitpool)
  {
    TotalGround(ns, -Highest(ns));
    LevelDecides(ns, bitpool, a, LevelFrom(ns, bitpool, -Highest(ns)));
  }

  /** Adding the same amount to every need changes nothing. */
  lemma ShiftedNeeds(ns: seq<int>, ms: seq<int>, k: int, bitpool: nat)
    requires |ms| == |ns| && forall i :: 0 <= i < |ns| ==> ms[i] == ns[i] + k
    requires bitpool <= 16 * |ns|
    ensures StandardBits(ms, bitpool) == StandardBits(ns, bitpool)
  {
    TotalGround(ns, -Highest(ns));
    var a := LevelFrom(ns, bitpool, -Highest(ns));
    ShiftedTotals(ns, ms, k, a);
    ShiftedTotals(ns, ms, k, a + 1);
    ShiftedFirstPass(ns, ms, k, a, bitpool - Total(ns, a));
    LevelGivesStandard(ms, bitpool, a - k);
  }

  lemma {:induction false} ShiftedTotals(ns: seq<int>, ms: seq<int>, k: int, a: int)
    requires |ms| == |ns| && forall i :: 0 <= i < |ns| ==> ms[i] == ns[i] + k
    ensures Total(ms, a - k) == Total(ns, a)
  {
    if ns != [] {
      ShiftedTotals(ns[1..], ms[1..], k, a);
    }
  }

  lemma {:induction false} ShiftedFirstPass(ns: seq<int>, ms: seq<int>, k: int, a: int, excess: nat)
    requires |ms| == |ns| && forall i :: 0 <= i < |ns| ==> ms[i] == ns[i] + k
    ensures FirstPass(ms, a - k, excess) == FirstPass(ns, a, excess)
  {
    if ns != [] {
      assert ms[0] + (a - k) == ns[0] + a;
      ShiftedFirstPass(ns[1..], ms[1..], k, a, FirstGrant(ns[0] + a, excess).1);
    }
  }

  // ---- the passes as loops that visit one subband at a time ----

  /** The first pass has reached subband `v` with `left` bits in hand. */
  ghost predicate FirstAt(ns: seq<int>, a: int, excess: nat, v: nat, left: nat) {
    v <= |ns| && FirstPass(ns[v..], a, left) == (FirstPass(ns, a, excess).0[v..], FirstPass(ns, a, excess).1)
  }

  lemma FirstStart(ns: seq<int>, a: int, excess: nat)
    ensures FirstAt(ns, a, excess, 0, excess)
  {
    assert ns[0..] == ns;
    assert FirstPass(ns, a, excess).0[0..] == FirstPass(ns, a, excess).0;
  }

  lemma FirstNext(ns: seq<int>, a: int, excess: nat, v: nat, left: nat)
    requires v < |ns| && FirstAt(ns, a, excess, v, left)
    ensures var grant := FirstGrant(ns[v] + a, left);
      FirstPass(ns, a, excess).0[v] == grant.0 && FirstAt(ns, a, excess, v + 1, grant.1)
  {
    var bs := FirstPass(ns, a, excess).0;
    var grant := FirstGrant(ns[v] + a, left);
    assert ns[v..][1..] == ns[v + 1..] && ns[v..][0] == ns[v];
    var rest := FirstPass(ns[v + 1..], a, grant.1);
    assert bs[v..] == [grant.0] + rest.0;
    assert bs[v] == bs[v..][0] && bs[v + 1..] == bs[v..][1..];
  }

  lemma FirstEnd(ns: seq<int>, a: int, excess: nat, left: nat)
    requires FirstAt(ns, a, excess, |ns|, left)
    ensures left == FirstPass(ns, a, excess).1
  {
  }

  /** With no bits left the remaining subbands keep what they have. */
  lemma FirstStops(ns: seq<int>, a: int, excess: nat, v: nat)
    requires FirstAt(ns, a, excess, v, 0)
    ensures FirstPass(ns, a, excess).1 == 0
    ensures forall u :: v <= u < |ns| ==> FirstPass(ns, a, excess).0[u] == Clamp(ns[u] + a)
  {
    FirstPassRests(ns[v..], a);
    var bs := FirstPass(ns, a, excess).0;
    forall u | v <= u < |ns| ensures bs[u] == Clamp(ns[u] + a) {
      assert bs[u] == bs[v..][u - v] && ns[u] == ns[v..][u - v];
    }
  }

  ghost predicate SecondAt(bs: seq<nat>, excess: nat, v: nat, left: nat) {
    v <= |bs| && SecondPass(bs[v..], left) == (SecondPass(bs, excess).0[v..], SecondPass(bs, excess).1)
  }

  lemma SecondStart(bs: seq<nat>, excess: nat)
    ensures SecondAt(bs, excess, 0, excess)
  {
    assert bs[0..] == bs;
    assert SecondPass(bs, excess).0[0..] == SecondPass(bs, excess).0;
  }

  lemma SecondNext(bs: seq<nat>, excess: nat, v: nat, left: nat)
    requires v < |bs| && SecondAt(bs, excess, v, left)
    ensures var grant := SecondGrant(bs[v], left);
      SecondPass(bs, excess).0[v] == grant.0 && SecondAt(bs, excess, v + 1, grant.1)
  {
    var cs := SecondPass(bs, excess).0;
    var grant := SecondGrant(bs[v], left);
    assert bs[v..][1..] == bs[v + 1..] && bs[v..][0] == bs[v];
    var rest := SecondPass(bs[v + 1..], grant.1);
    assert cs[v..] == [grant.0] + rest.0;
    assert cs[v] == cs[v..][0] && cs[v + 1..] == cs[v..][1..];
  }

  lemma SecondStops(bs: seq<nat>, excess: nat, v: nat)
    requires SecondAt(bs, excess, v, 0)
    ensures forall u :: v <= u < |bs| ==> SecondPass(bs, excess).0[u] == bs[u]
  {
    SecondPassRests(bs[v..]);
    var cs := SecondPass(bs, excess).0;
    forall u | v <= u < |bs| ensures cs[u] == bs[u] {
      assert cs[u] == cs[v..][u - v] && bs[u] == bs[v..][u - v];
    }
  }
}
