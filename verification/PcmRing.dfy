/** The PCM ring of the stream as a bounded FIFO of whole frames; its own implementation belongs to
    another library. */
module PcmRing {

  /** Values in some PCM frames. */
  function Values(frames: nat, channels: nat): nat {
    if channels == 2 then 2 * frames else frames
  }

  lemma ValuesAre(frames: nat, channels: nat)
    requires channels == 1 || channels == 2
    ensures Values(frames, channels) == frames * channels
  {
  }

  class PcmRing {
    const capacity: nat
    var channels: nat
    var frames: nat
    var values: seq<int>

    constructor (capacity: nat, channels: nat)
      requires channels == 1 || channels == 2
      ensures Valid() && this.capacity == capacity && this.channels == channels && frames == 0
    {
      this.capacity := capacity;
      this.channels := channels;
      frames := 0;
      values := [];
    }

    ghost predicate Valid()
      reads this
    {
      (channels == 1 || channels == 2) && frames <= capacity && |values| == Values(frames, channels)
    }

    function FreeFrames(): nat
      requires Valid()
      reads this
    {
      capacity - frames
    }

    /** begin with another frame size, or clear: everything goes. */
    method Clear(newChannels: nat)
      requires Valid() && (newChannels == 1 || newChannels == 2)
      modifies this
      ensures Valid() && frames == 0 && values == [] && channels == newChannels
    {
      channels := newChannels;
      frames := 0;
      values := [];
    }

    /** The oldest frames move out, as many as there are. */
    method ReadFrames(out: array<int>, frameCount: nat) returns (n: nat)
      requires Valid() && Values(frameCount, channels) <= out.Length
      modifies this, out
      ensures Valid() && channels == old(channels)
      ensures n == (if frameCount < old(frames) then frameCount else old(frames)) && frames == old(frames) - n
      ensures Values(n, channels) <= out.Length && Values(n, channels) <= |old(values)|
      ensures values == old(values)[Values(n, channels)..]
      ensures out[..] == old(values)[..Values(n, channels)] + old(out[..])[Values(n, channels)..]
    {
      n := if frameCount < frames then frameCount else frames;
      var k := Values(n, channels);
      forall i | 0 <= i < k {
        out[i] := values[i];
      }
      frames := frames - n;
      values := values[k..];
    }

    /** As many frames as fit are appended. */
    method WriteFrames(pcm: seq<int>, frameCount: nat) returns (n: nat)
      requires Valid() && Values(frameCount, channels) <= |pcm|
      modifies this
      ensures Valid() && channels == old(channels)
      ensures n == (if frameCount < old(FreeFrames()) then frameCount else old(FreeFrames()))
      ensures frames == old(frames) + n
      ensures Values(n, channels) <= |pcm| && values == old(values) + pcm[..Values(n, channels)]
    {
      n := if frameCount < FreeFrames() then frameCount else FreeFrames();
      values := values + pcm[..Values(n, channels)];
      frames := frames + n;
    }
  }
}
