/** The encoder state of one stream (SBC_ENC_PARAMS). */
module EncoderContexts {
  import opened Frames

  class EncoderParams {
    var info: FrameInfo
    var maxBitNeed: int
    const join: array<nat>
    const scaleFactor: array<int>
    const scratch: array<int>
    const sbBuffer: array<int>
    const bits: array<int>

    constructor (info: FrameInfo)
      requires info.Valid()
      ensures Valid() && this.info == info
      ensures fresh(join) && fresh(scaleFactor) && fresh(scratch) && fresh(sbBuffer) && fresh(bits)
    {
      this.info := info;
      maxBitNeed := 0;
      join := new nat[8](_ => 0);
      scaleFactor := new int[16](_ => 0);
      scratch := new int[16](_ => 0);
      sbBuffer := new int[256](_ => 0);
      bits := new int[16](_ => 0);
    }

    /** All arrays have their lengths and none of them is another. */
    ghost predicate Separate() {
      && join.Length == 8 && scaleFactor.Length == 16
      && scratch.Length == 16 && sbBuffer.Length == 256 && bits.Length == 16
      && scaleFactor != scratch && scaleFactor != bits && scratch != bits
      && sbBuffer != scaleFactor && sbBuffer != scratch && sbBuffer != bits
    }

    ghost predicate Valid()
      reads `info, scaleFactor
    {
      info.Valid() && Separate() && forall i :: 0 <= i < 16 ==> 0 <= scaleFactor[i] < 16
    }
  }
}
