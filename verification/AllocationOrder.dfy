/** What the hand-outs of `Allocation` give a subband: its share follows its need, and of equal needs the
    subband visited first comes first. */
module AllocationOrder {
  import opened Allocation

  /** The first pass leaves a subband on the ground alone, takes one at height 1 to two bits or
      none, and lifts one above it by a bit or not. */
  lemma {:induction false} FirstPassAt(ns: seq<int>, a: int, excess: nat, i: nat)
    requires i < |ns|
    ensures var x, b := ns[i] + a, FirstPass(ns, a, excess).0[i];
      && (x <= 0 ==> b == 0) && (x == 1 ==> b == 0 || b == 2)
      && (2 <= x < 16 ==> b == x || b == x + 1) && (x >= 16 ==> b == 16)
      && (excess == 0 ==> b == Clamp(x)) && (excess == 1 && x == 1 ==> b == 0)
  {
    if i > 0 {
      FirstPassAt(ns[1..], a, FirstGrant(ns[0] + a, excess).1, i - 1);
    }
  }

  lemma {:induction false} FirstPassInOrder(ns: seq<int>, a: int, excess: nat, i: nat, j: nat)
    requires i < j < |ns| && ns[i] >= ns[j]
    ensures FirstPass(ns, a, excess).0[i] >= FirstPass(ns, a, excess).0[j]
  {
    var left := FirstGrant(ns[0] + a, excess).1;
    if i > 0 {
      FirstPassInOrder(ns[1..], a, left, i - 1, j - 1);
    } else {
      FirstPassAt(ns[1..], a, left, j - 1);
    }
  }

  /** The bit left for the second pass goes to the first subband that is not full. */
  lemma {:induction false} SecondPassAt(bs: seq<nat>, excess: nat) returns (e: nat)
    requires excess <= 1 && forall i :: 0 <= i < |bs| ==> bs[i] <= 16
    ensures forall i :: 0 <= i < |bs| ==> SecondPass(bs, excess).0[i] == bs[i] + (if i == e then 1 else 0)
    ensures forall i :: 0 <= i < |bs| && i < e < |bs| ==> bs[i] == 16
  {
    if excess == 0 {
      SecondPassRests(bs);
      e := |bs|;
    } else if bs == [] || bs[0] < 16 {
      e := 0;
      if bs != [] {
        SecondPassRests(bs[1..]);
      }
    } else {
      var k := SecondPassAt(bs[1..], excess);
      e := k + 1;
    }
  }

  /** The shape of the standard bits: all subbands stand on one common lift `h` of their needs.
      None has bits on the ground, one at height 1 has two bits or none, one above it has its
      height or one more, up to 16; and one further bit may go to the first that is not full. */
  lemma BitsFollowNeeds(ns: seq<int>, bitpool: nat) returns (h: int, e: nat)
    requires bitpool <= 16 * |ns|
    ensures forall i :: 0 <= i < |ns| ==>
        var x, b := ns[i] + h, StandardBits(ns, bitpool)[i] as int - (if i == e then 1 else 0);
        && (x <= 0 ==> b == 0) && (x == 1 ==> b == 0 || b == 2)
        && (2 <= x < 16 ==> b == x || b == x + 1) && (x >= 16 ==> b == 16)
    ensures forall i :: 0 <= i < |ns| && i < e < |ns| ==> StandardBits(ns, bitpool)[i] == 16
  {
    TotalGround(ns, -Highest(ns));
    h := LevelFrom(ns, bitpool, -Highest(ns));
    var first := FirstPass(ns, h, bitpool - Total(ns, h));
    SpreadConserves(ns, bitpool, h);
    FirstPassConserves(ns, h, bitpool - Total(ns, h));
    e := SecondPassAt(first.0, first.1);
    forall i | 0 <= i < |ns|
      ensures var x, b := ns[i] + h, first.0[i];
        && (x <= 0 ==> b == 0) && (x == 1 ==> b == 0 || b == 2)
        && (2 <= x < 16 ==> b == x || b == x + 1) && (x >= 16 ==> b == 16)
    {
      FirstPassAt(ns, h, bitpool - Total(ns, h), i);
    }
  }

  /** Of two subbands, the one visited first has at least as many bits unless it needs fewer. */
  lemma NeedierFirst(ns: seq<int>, bitpool: nat, i: nat, j: nat)
    requires bitpool <= 16 * |ns| && i < j < |ns| && ns[i] >= ns[j]
    ensures StandardBits(ns, bitpool)[i] >= StandardBits(ns, bitpool)[j]
  {
    TotalGround(ns, -Highest(ns));
    var a := LevelFrom(ns, bitpool, -Highest(ns));
    var first := FirstPass(ns, a, bitpool - Total(ns, a));
    SpreadConserves(ns, bitpool, a);
    FirstPassConserves(ns, a, bitpool - Total(ns, a));
    FirstPassInOrder(ns, a, bitpool - Total(ns, a), i, j);
    var e := SecondPassAt(first.0, first.1);
    assert StandardBits(ns, bitpool)[i] <= 16 && StandardBits(ns, bitpool)[j] <= 16;
  }
}
