/** The decoder state of one stream (OI_CODEC_SBC_COMMON_CONTEXT). */
module DecoderContexts {
  import opened BitStrings
  import opened Frames
  import opened FrameLayout

  class CommonContext {
    var info: FrameInfo
    var cachedInfo: byte
    var crc: byte
    var join: nat
    var maxBitneed: nat
    const scaleFactor: array<nat>
    const bits: array<nat>
    const subdata: array<int>

    /** internal_DecoderReset. */
    constructor ()
      ensures Valid() && fresh(scaleFactor) && fresh(bits) && fresh(subdata)
      ensures cachedInfo == 0 && info == ParseHeader(0, 0)
    {
      info := FrameInfo(0, 0, Mono, Loudness, 0, 0);
      cachedInfo := 0;
      crc := 0;
      join := 0;
      maxBitneed := 0;
      scaleFactor := new nat[16](_ => 0);
      bits := new nat[16](_ => 0);
      subdata := new int[256](_ => 0);
    }

    /** memset and the expanded fields of header byte 0. */
    method Clear()
      requires Valid()
      modifies this, scaleFactor, bits, subdata
      ensures Valid() && CacheValid() && cachedInfo == 0
    {
      forall i | 0 <= i < 16 {
        scaleFactor[i] := 0;
      }
      forall i | 0 <= i < 16 {
        bits[i] := 0;
      }
      forall i | 0 <= i < 256 {
        subdata[i] := 0;
      }
      info := ParseHeader(0, 0);
      cachedInfo, crc, join, maxBitneed := 0, 0, 0, 0;
    }

    ghost predicate Valid()
      reads `info, scaleFactor
    {
      && info.Valid() && scaleFactor.Length == 16 && bits.Length == 16 && scaleFactor != bits && subdata.Length == 256
      && forall i :: 0 <= i < 16 ==> scaleFactor[i] < 16
    }

    /** The remembered header byte always describes the remembered fields. */
    ghost predicate CacheValid()
      reads `info, `cachedInfo
    {
      info.bitpool < 256 && info == ParseHeader(cachedInfo, info.bitpool)
    }
  }
}
