/** Choosing the resolution ladder and the byte target of one compression job
    (`compress_to_target`, first lines). Sizes in megabytes are real numbers here:
    the floating-point rounding of the source is not modelled. */
module Ladder {
  import opened Prelude

  const BytesPerMb: real := 1048576.0

  const Band1: seq<int> := [300, 250, 200, 180, 150]
  const Band2: seq<int> := [250, 200, 180, 150, 120, 100]
  const Band3: seq<int> := [200, 150, 120, 100, 90, 80]
  const Band4: seq<int> := [150, 120, 100, 90, 80, 70]
  const Band5: seq<int> := [120, 100, 90, 80, 70, 60]

  /** Requested size over input size; an empty input counts as ratio 1.0. */
  function CompressionRatio(targetMb: real, inputBytes: nat): real
  {
    if inputBytes > 0 then targetMb / (inputBytes as real / BytesPerMb) else 1.0
  }

  /** The DPI values to try, highest first: the smaller the ratio (the heavier the
      compression asked for), the lower the ladder starts. */
  function DpiLadder(ratio: real): (ladder: seq<int>)
    ensures 5 <= |ladder| <= 6
    ensures StrictlyDescending(ladder)
    ensures forall i :: 0 <= i < |ladder| ==> 60 <= ladder[i] <= 300
  {
    if ratio > 0.8 then Band1
    else if ratio > 0.6 then Band2
    else if ratio > 0.4 then Band3
    else if ratio > 0.25 then Band4
    else Band5
  }

  /** Python's `int()` of a float: truncation toward zero. */
  function TruncateToInt(x: real): (r: int)
    ensures 0.0 <= x ==> 0 <= r && r as real <= x < r as real + 1.0
    ensures x < 0.0 ==> r <= 0 && r as real - 1.0 < x <= r as real
  {
    if x >= 0.0 then x.Floor else -((-x).Floor)
  }

  /** The target in whole bytes. */
  function TargetBytes(targetMb: real): (r: int)
    ensures 0.0 <= targetMb ==> r as real <= targetMb * BytesPerMb < r as real + 1.0
  {
    TruncateToInt(targetMb * BytesPerMb)
  }

  /** Which ladder each band of ratios gets: the ratio bands are half-open on the left. */
  lemma LadderBands(ratio: real)
    ensures ratio > 0.8 ==> DpiLadder(ratio) == [300, 250, 200, 180, 150]
    ensures 0.6 < ratio <= 0.8 ==> DpiLadder(ratio) == [250, 200, 180, 150, 120, 100]
    ensures 0.4 < ratio <= 0.6 ==> DpiLadder(ratio) == [200, 150, 120, 100, 90, 80]
    ensures 0.25 < ratio <= 0.4 ==> DpiLadder(ratio) == [150, 120, 100, 90, 80, 70]
    ensures ratio <= 0.25 ==> DpiLadder(ratio) == [120, 100, 90, 80, 70, 60]
  {
  }

  /** A zero-byte input is treated as ratio 1.0 and so gets the highest ladder,
      whatever the target. */
  lemma EmptyInputGetsHighestLadder(targetMb: real)
    ensures CompressionRatio(targetMb, 0) == 1.0
    ensures DpiLadder(CompressionRatio(targetMb, 0)) == [300, 250, 200, 180, 150]
  {
  }

  /** Heavier compression never starts higher: for ratios r1 <= r2, each step of the
      ladder for r1 is at most the same step of the ladder for r2. */
  lemma LadderMonotoneInRatio(r1: real, r2: real)
    requires r1 <= r2
    ensures forall i :: 0 <= i < |DpiLadder(r1)| && i < |DpiLadder(r2)| ==>
              DpiLadder(r1)[i] <= DpiLadder(r2)[i]
  {
  }
}
