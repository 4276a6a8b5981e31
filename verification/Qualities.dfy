/** Quality levels: an index from 1 up to a runtime maximum, and the image rate of each. */
module Qualities {
  const MAX_QUALITY_INDEX := 12

  /** `imageFPS` by index. */
  const IMAGE_FPS: seq<real> := [0.5, 0.5, 1.0, 3.0, 5.0, 6.0, 8.0, 10.0, 12.0, 15.0, 24.0, 30.0]

  /** `imageUpdateTimeUs` by index. */
  const UPDATE_TIME_US: seq<int> :=
    [2000000, 2000000, 1000000, 333333, 200000, 166666, 125000, 100000, 83333, 66666, 41666, 33333]

  predicate IsIndex(quality: int) { 1 <= quality <= MAX_QUALITY_INDEX }

  /** A million microseconds over the frame rate, truncated. */
  function UpdateTimeUs(quality: int): (us: int)
    requires IsIndex(quality)
    ensures us > 0
    ensures us as real * IMAGE_FPS[quality - 1] <= 1000000.0 < (us + 1) as real * IMAGE_FPS[quality - 1]
  {
    UPDATE_TIME_US[quality - 1]
  }

  /** The index that `SetRuntimeMaxQualityIndex` stores. */
  function RuntimeMax(requested: int): (r: int)
    ensures IsIndex(r) && (IsIndex(requested) ==> r == requested)
    ensures (requested < 1 ==> r == 1) && (requested > MAX_QUALITY_INDEX ==> r == MAX_QUALITY_INDEX)
  {
    if requested < 1 then 1 else if requested > MAX_QUALITY_INDEX then MAX_QUALITY_INDEX else requested
  }

  /** `QualityForIndex` under a runtime maximum.  The index is taken as an unsigned 32-bit number, so a
      negative one asks for more than the maximum. */
  function ForIndex(index: int, runtimeMax: int): (r: int)
    ensures IsIndex(runtimeMax) && -0x8000_0000 <= index < 0x1_0000_0000 ==>
              && 1 <= r <= runtimeMax
              && (1 <= index <= runtimeMax ==> r == index)
              && (index == 0 ==> r == 1)
              && (index < 0 || index > runtimeMax ==> r == runtimeMax)
  {
    var unsigned := index % 0x1_0000_0000;
    if unsigned < 1 then 1 else if unsigned > runtimeMax then runtimeMax else unsigned
  }
}
