/** writePcm on values: what the overflow policies leave in the PCM ring and in the books. */
module PcmOverflow {
  import opened PcmRing

  function Least(x: nat, y: nat): nat {
    if x < y then x else y
  }

  lemma LeastIs(x: nat, y: nat)
    ensures Least(x, y) == if x < y then x else y
  {
  }

  // ---- the ring ----

  /** The ring and the decode scratch. */
  datatype Ring = RingOf(frames: nat, values: seq<int>, scratch: seq<int>)

  /** How many of the oldest frames have to go. */
  function Dropped(dropOldest: bool, count: nat, used: nat, capacity: nat): nat
    requires used <= capacity
  {
    if dropOldest && count > capacity - used then Least(count - (capacity - used), used) else 0
  }

  /** The ring after writePcm. `given` is the ring before with the new frames as its scratch. */
  ghost predicate Wrote(given: Ring, frames: nat, values: seq<int>, aliased: bool, dropOldest: bool, count: nat, n: nat,
                        capacity: nat, channels: nat) {
    && given.frames <= capacity
    && var k := Dropped(dropOldest, count, given.frames, capacity);
      var gone, added := Values(k, channels), Values(n, channels);
      && n == Least(count, capacity - given.frames + k) && frames == given.frames - k + n
      && gone <= |given.values| && gone <= |given.scratch| && added <= |given.scratch|
      && values == given.values[gone..] + (if aliased then given.values[..gone] + given.scratch[gone..] else given.scratch)[..added]
  }

  /** The oldest `n` frames have moved from the ring to the start of the scratch. */
  ghost predicate Moved(n: nat, before: Ring, after: Ring, channels: nat) {
    && n <= before.frames && after.frames == before.frames - n
    && Values(n, channels) <= |before.values| && Values(n, channels) <= |before.scratch|
    && after.values == before.values[Values(n, channels)..]
    && after.scratch == before.values[..Values(n, channels)] + before.scratch[Values(n, channels)..]
  }

  lemma NothingMoved(ring: Ring, channels: nat)
    ensures Moved(0, ring, ring, channels)
  {
  }

  lemma MovedBy(n: nat, before: Ring, after: Ring, channels: nat)
    requires n <= before.frames && after.frames == before.frames - n
    requires Values(n, channels) <= |before.values| && Values(n, channels) <= |before.scratch|
    requires after.values == before.values[Values(n, channels)..]
    requires after.scratch == before.values[..Values(n, channels)] + before.scratch[Values(n, channels)..]
    ensures Moved(n, before, after, channels)
  {
  }

  /** Only one of two chunks moves anything. */
  lemma MovedOn(a: nat, b: nat, start: Ring, before: Ring, after: Ring, channels: nat)
    requires Moved(a, start, before, channels) && Moved(b, before, after, channels) && (a == 0 || b == 0)
    ensures Moved(a + b, start, after, channels) && before.frames == start.frames - a
    ensures after.frames == before.frames - b
  {
    hide Values;
    if a == 0 {
      assert Values(0, channels) == 0 by { NoValues(channels); }
      assert before.values == start.values && before.scratch == start.scratch;
    } else {
      assert Values(0, channels) == 0 by { NoValues(channels); }
      assert after.values == before.values && after.scratch == before.scratch;
    }
  }

  lemma NoValues(channels: nat)
    ensures Values(0, channels) == 0
  {
  }

  lemma FewerValues(x: nat, y: nat, channels: nat)
    requires x <= y
    ensures Values(x, channels) <= Values(y, channels)
  {
  }

  lemma OverOldest(before: Ring, given: seq<int>, after: Ring, now: seq<int>, aliased: bool, k: nat, count: nat, n: nat,
                   frames: nat, values: seq<int>, capacity: nat, channels: nat)
    requires Moved(k, before, after, channels) && before.frames <= capacity && capacity - before.frames < count
    requires k == Least(count - (capacity - before.frames), before.frames)
    requires if aliased then given == before.scratch && now == after.scratch else now == given
    requires Values(count, channels) <= |given|
    requires n == Least(count, capacity - after.frames) && frames == after.frames + n && Values(n, channels) <= |now|
    requires values == after.values + now[..Values(n, channels)]
    ensures Wrote(RingOf(before.frames, before.values, given), frames, values, aliased, true, count, n, capacity, channels)
  {
    FewerValues(k, count, channels);
    FewerValues(n, count, channels);
    hide Values;
  }

  lemma WhatFits(given: Ring, frames: nat, values: seq<int>, aliased: bool, dropOldest: bool, count: nat, n: nat,
                 capacity: nat, channels: nat)
    requires !dropOldest && given.frames <= capacity && capacity - given.frames < count && n == capacity - given.frames
    requires frames == given.frames + n
    requires Values(n, channels) <= |given.scratch| && values == given.values + given.scratch[..Values(n, channels)]
    ensures Wrote(given, frames, values, aliased, dropOldest, count, n, capacity, channels)
  {
    NoValues(channels);
    hide Values;
    assert given.values[..0] + given.scratch[0..] == given.scratch;
  }

  lemma AllFits(given: Ring, frames: nat, values: seq<int>, aliased: bool, dropOldest: bool, count: nat, capacity: nat,
                channels: nat)
    requires given.frames <= capacity && count <= capacity - given.frames && frames == given.frames + count
    requires Values(count, channels) <= |given.scratch|
    requires values == given.values + given.scratch[..Values(count, channels)]
    ensures Wrote(given, frames, values, aliased, dropOldest, count, count, capacity, channels)
  {
    NoValues(channels);
    hide Values;
    assert given.values[..0] + given.scratch[0..] == given.scratch;
  }

  // ---- the books ----

  /** Where the PCM frames of a stream went: decoded, read by the application, dropped and counted,
      thrown away by a reset, and lost without being counted. */
  datatype Account = Account(made: nat, taken: nat, overflowed: nat, discarded: nat, vanished: nat)

  /** The books after `count` new frames of which `n` were written. */
  ghost predicate SettledTo(a: Account, b: Account, dropOldest: bool, count: nat, n: nat, used: nat, capacity: nat) {
    && used <= capacity && n <= count
    && b == if dropOldest
            then a.(made := a.made + count, overflowed := a.overflowed + Dropped(dropOldest, count, used, capacity),
                    vanished := a.vanished + (count - n))
            else a.(made := a.made + count, overflowed := a.overflowed + (count - n))
  }

  lemma SettledOldest(a: Account, b: Account, count: nat, n: nat, k: nat, used: nat, capacity: nat)
    requires used <= capacity && capacity - used < count && k == Least(count - (capacity - used), used) && n <= count
    requires b == a.(overflowed := a.overflowed + k).(made := a.made + count, vanished := a.vanished + (count - n))
    ensures SettledTo(a, b, true, count, n, used, capacity)
  {
  }

  lemma SettledNewest(a: Account, b: Account, dropOldest: bool, count: nat, n: nat, used: nat, capacity: nat)
    requires used <= capacity && !dropOldest && n <= count
    requires b == a.(made := a.made + count, overflowed := a.overflowed + (count - n))
    ensures SettledTo(a, b, dropOldest, count, n, used, capacity)
  {
  }

  lemma SettledAll(a: Account, b: Account, dropOldest: bool, count: nat, used: nat, capacity: nat)
    requires used <= capacity && count <= capacity - used && b == a.(made := a.made + count)
    ensures SettledTo(a, b, dropOldest, count, count, used, capacity)
  {
  }

  lemma MadeBy(a: Account, b: Account, dropOldest: bool, written: nat)
    requires exists n: nat, used: nat, capacity: nat :: SettledTo(a, b, dropOldest, written, n, used, capacity)
    ensures b.made == a.made + written
  {
  }

  // ---- what the policies leave ----

  /** The ring holds the newest of the frames it had and the frames that came, as many as it can. */
  ghost predicate Newest(given: Ring, values: seq<int>, count: nat, capacity: nat, channels: nat)
    requires Values(count, channels) <= |given.scratch|
  {
    var all := given.values + given.scratch[..Values(count, channels)];
    |values| == Values(Least(given.frames + count, capacity), channels) <= |all| && values == all[|all| - |values|..]
  }

  ghost predicate Shaped(given: Ring, used: nat, count: nat, channels: nat) {
    given.frames == used && |given.values| == Values(used, channels) && Values(count, channels) <= |given.scratch|
  }

  /** Whatever the frames are, writing `count` of them over `used` under DropOldest leaves the newest. */
  ghost predicate KeepsNewest(aliased: bool, used: nat, count: nat, capacity: nat, channels: nat) {
    forall given: Ring, frames: nat, values: seq<int>, n: nat ::
      Shaped(given, used, count, channels) && Wrote(given, frames, values, aliased, true, count, n, capacity, channels)
      ==> Newest(given, values, count, capacity, channels)
  }

  /** A buffer of its own: the newest frames are kept, or the first of the new ones where the ring cannot
      hold them all. */
  lemma SeparateKeepsNewest(given: Ring, frames: nat, values: seq<int>, count: nat, n: nat, capacity: nat,
                            channels: nat)
    requires Shaped(given, given.frames, count, channels)
    requires Wrote(given, frames, values, false, true, count, n, capacity, channels)
    ensures count <= capacity ==> n == count && Newest(given, values, count, capacity, channels)
    ensures count > capacity ==> Values(capacity, channels) <= |given.scratch| && values == given.scratch[..Values(capacity, channels)]
  {
    var k := Dropped(true, count, given.frames, capacity);
    var gone, added := Values(k, channels), Values(n, channels);
    if count <= capacity {
      var all := given.values + given.scratch[..added];
      assert all[gone..] == given.values[gone..] + given.scratch[..added];
      KeptLength(given.frames, count, k, capacity, channels);
    } else {
      assert given.values[gone..] == [];
    }
  }

  lemma KeptLength(used: nat, count: nat, k: nat, capacity: nat, channels: nat)
    requires used <= capacity && count <= capacity && k == Dropped(true, count, used, capacity)
    ensures k <= used && Values(used, channels) + Values(count, channels) - Values(k, channels) == Values(Least(used + count, capacity), channels)
  {
  }

  /** So it always keeps the newest exactly if the ring can hold all that come. */
  lemma SeparateKeepsNewestIff(used: nat, count: nat, capacity: nat, channels: nat)
    requires used <= capacity && capacity > 0 && (channels == 1 || channels == 2)
    ensures KeepsNewest(false, used, count, capacity, channels) <==> count <= capacity
  {
    if count <= capacity {
      forall given: Ring, frames: nat, values: seq<int>, n: nat |
        Shaped(given, used, count, channels) && Wrote(given, frames, values, false, true, count, n, capacity, channels)
        ensures Newest(given, values, count, capacity, channels)
      {
        SeparateKeepsNewest(given, frames, values, count, n, capacity, channels);
      }
    } else {
      FirstInsteadOfNewest(false, used, count, capacity, channels);
    }
  }

  /** One case in which the newest are not kept. */
  lemma NotKept(aliased: bool, given: Ring, frames: nat, values: seq<int>, count: nat, n: nat, capacity: nat,
                channels: nat)
    requires Shaped(given, given.frames, count, channels)
    requires Wrote(given, frames, values, aliased, true, count, n, capacity, channels)
    requires !Newest(given, values, count, capacity, channels)
    ensures !KeepsNewest(aliased, given.frames, count, capacity, channels)
  {
    hide Wrote, Newest;
  }

  /** A value that is not where it would be if the newest were kept. */
  lemma NotNewest(given: Ring, values: seq<int>, count: nat, capacity: nat, channels: nat, at: nat)
    requires Values(count, channels) <= |given.scratch| && at < |values| == Values(capacity, channels)
    requires |values| <= |given.values| + Values(count, channels) && given.frames + count >= capacity
    requires |given.values| <= |given.values| + Values(count, channels) - |values| + at < |given.values| + Values(count, channels)
    requires values[at] != given.scratch[Values(count, channels) - |values| + at]
    ensures !Newest(given, values, count, capacity, channels)
  {
    hide Values;
    var all := given.values + given.scratch[..Values(count, channels)];
    assert all[|all| - |values|..][at] == all[|all| - |values| + at];
  }

  lemma FirstWritten(aliased: bool, given: Ring, count: nat, capacity: nat, channels: nat)
    requires Shaped(given, given.frames, count, channels) && given.frames <= capacity < count && (aliased ==> given.frames == 0)
    ensures Values(capacity, channels) <= |given.scratch|
    ensures Wrote(given, capacity, given.scratch[..Values(capacity, channels)], aliased, true, count, capacity, capacity, channels)
  {
    FewerValues(given.frames, capacity, channels);
    FewerValues(capacity, count, channels);
    NoValues(channels);
    assert Dropped(true, count, given.frames, capacity) == given.frames;
    hide Values, Dropped;
    var values := given.scratch[..Values(capacity, channels)];
    assert given.values[|given.values|..] + values == values;
    assert given.values[..0] + given.scratch[0..] == given.scratch;
  }

  /** More frames than the ring can hold: their first ones stay, not their last. */
  lemma FirstInsteadOfNewest(aliased: bool, used: nat, count: nat, capacity: nat, channels: nat)
    requires used <= capacity < count && capacity > 0 && (channels == 1 || channels == 2) && (aliased ==> used == 0)
    ensures !KeepsNewest(aliased, used, count, capacity, channels)
  {
    hide KeepsNewest, Newest, Wrote;
    var given := RingOf(used, seq(Values(used, channels), _ => 0), seq(Values(count, channels), i => if i == 0 then 1 else 0));
    var values := given.scratch[..Values(capacity, channels)];
    FirstWritten(aliased, given, count, capacity, channels);
    NotNewest(given, values, count, capacity, channels, 0);
    NotKept(aliased, given, capacity, values, count, capacity, capacity, channels);
  }

  /** The decode scratch itself as source, as update calls it: the dropped frames come back in front of
      the new ones, whose first frames are lost. */
  lemma AliasedBringsBack(given: Ring, frames: nat, values: seq<int>, count: nat, n: nat, capacity: nat, channels: nat)
    requires Wrote(given, frames, values, true, true, count, n, capacity, channels)
    ensures var gone := Values(Dropped(true, count, given.frames, capacity), channels);
      && n == Least(count, capacity) && gone <= Values(n, channels) <= |given.scratch| && gone <= |given.values|
      && values == given.values[gone..] + given.values[..gone] + given.scratch[gone..Values(n, channels)]
  {
    var k := Dropped(true, count, given.frames, capacity);
    FewerValues(k, n, channels);
    var gone, added := Values(k, channels), Values(n, channels);
    assert (given.values[..gone] + given.scratch[gone..])[..added] == given.values[..gone] + given.scratch[gone..added];
  }

  /** The aliased call leaves what a separate buffer would exactly if the dropped frames equal the first new ones. */
  lemma AliasedAsSeparateIff(given: Ring, frames: nat, values: seq<int>, count: nat, n: nat, capacity: nat,
                             channels: nat)
    requires Wrote(given, frames, values, true, true, count, n, capacity, channels)
    ensures var gone := Values(Dropped(true, count, given.frames, capacity), channels);
      && gone <= |given.scratch| && gone <= |given.values|
      && (Wrote(given, frames, values, false, true, count, n, capacity, channels) <==> given.values[..gone] == given.scratch[..gone])
  {
    AliasedBringsBack(given, frames, values, count, n, capacity, channels);
    var gone, added := Values(Dropped(true, count, given.frames, capacity), channels), Values(n, channels);
    var kept := given.values[gone..];
    assert given.scratch[..added] == given.scratch[..gone] + given.scratch[gone..added];
    if values == kept + given.scratch[..added] {
      assert given.values[..gone] == values[|kept|..|kept| + gone];
      assert given.scratch[..gone] == (kept + given.scratch[..added])[|kept|..|kept| + gone];
    }
  }

  /** So it always keeps the newest exactly if there is room for all that come without dropping any. */
  lemma AliasedKeepsNewestIff(used: nat, count: nat, capacity: nat, channels: nat)
    requires used <= capacity && capacity > 0 && (channels == 1 || channels == 2)
    ensures KeepsNewest(true, used, count, capacity, channels) <==> used + count <= capacity
  {
    if used + count <= capacity {
      forall given: Ring, frames: nat, values: seq<int>, n: nat |
        Shaped(given, used, count, channels) && Wrote(given, frames, values, true, true, count, n, capacity, channels)
        ensures Newest(given, values, count, capacity, channels)
      {
        AliasedBringsBack(given, frames, values, count, n, capacity, channels);
        assert Dropped(true, count, used, capacity) == 0;
        SeparateKeepsNewest(given, frames, values, count, n, capacity, channels);
      }
    } else if used == 0 {
      FirstInsteadOfNewest(true, used, count, capacity, channels);
    } else {
      OldInsteadOfNewest(used, count, capacity, channels);
    }
  }

  /** Frames were dropped: the first of them come back where the first new ones should be. */
  lemma OldInsteadOfNewest(used: nat, count: nat, capacity: nat, channels: nat)
    requires 0 < used <= capacity < used + count && (channels == 1 || channels == 2)
    ensures !KeepsNewest(true, used, count, capacity, channels)
  {
    hide KeepsNewest, Newest;
    var given := RingOf(used, seq(Values(used, channels), _ => 0), seq(Values(count, channels), _ => 1));
    var k, n := Dropped(true, count, used, capacity), Least(count, capacity);
    var gone, added := Values(k, channels), Values(n, channels);
    assert 0 < k <= n && used - k + n == capacity;
    FewerValues(k, n, channels);
    var back := given.values[..gone] + given.scratch[gone..];
    var values := given.values[gone..] + back[..added];
    var first := |given.values[gone..]|;
    assert first == Values(used - k, channels) && |values| == Values(capacity, channels);
    assert values[first] == back[0] == 0;
    NotNewest(given, values, count, capacity, channels, first);
    NotKept(true, given, capacity, values, count, n, capacity, channels);
  }

  /** A full ring turns: what update decodes never enters it as long as nothing is read. */
  lemma FullRingTurns(given: Ring, frames: nat, values: seq<int>, count: nat, n: nat, capacity: nat, channels: nat)
    requires Wrote(given, frames, values, true, true, count, n, capacity, channels)
    requires given.frames == capacity
    ensures var gone := Values(Least(count, capacity), channels);
      frames == capacity && gone <= |given.values| && values == given.values[gone..] + given.values[..gone]
  {
    AliasedBringsBack(given, frames, values, count, n, capacity, channels);
    hide Values;
  }

  /** A ring full of 128 silent frames, and 16 frames that are not: none of them is heard. */
  lemma NewestLost(frames: nat, values: seq<int>, n: nat)
    requires Wrote(RingOf(128, seq(128, _ => 0), seq(256, _ => 1)), frames, values, true, true, 16, n, 128, 1)
    ensures values == seq(128, _ => 0)
    ensures !Newest(RingOf(128, seq(128, _ => 0), seq(256, _ => 1)), values, 16, 128, 1)
  {
    var given := RingOf(128, seq(128, _ => 0), seq(256, _ => 1));
    FullRingTurns(given, frames, values, 16, n, 128, 1);
    var all := given.values + given.scratch[..16];
    assert all[|all| - 128..][127] == all[143] == 1;
  }

  /** Under DropOldest frames are lost uncounted exactly if more come at once than the ring can hold. */
  lemma UncountedIff(given: Ring, frames: nat, values: seq<int>, aliased: bool, count: nat, n: nat, capacity: nat,
                     channels: nat)
    requires Wrote(given, frames, values, aliased, true, count, n, capacity, channels)
    ensures n < count <==> count > capacity
    ensures count > capacity ==> n == capacity
  {
    hide Values;
  }
}
