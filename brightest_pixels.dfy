/** The threshold search of `parlak_nesne_tespiti` in
    Final_Project/Soru1/odev_soru1.py: scanning a 256-bin grey-level
    histogram from the brightest bin down, it finds the grey level above which
    (inclusive) at least 1000 pixels lie. */
module BrightestPixels {

  /** `HEDEF_PIKSEL_SAYISI`: how many of the brightest pixels are wanted. */
  const Target: int := 1000
  const Bins: int := 256

  /** Number of pixels in bins i..|hist|-1, i.e. with grey level at least i. */
  function SuffixSum(hist: seq<nat>, i: int): nat
    requires 0 <= i <= |hist|
    decreases |hist| - i
  {
    if i == |hist| then 0 else hist[i] + SuffixSum(hist, i + 1)
  }

  /** Fewer levels hold fewer pixels. */
  lemma {:induction false} SuffixSumMonotone(hist: seq<nat>, i: int, j: int)
    requires 0 <= i <= j <= |hist|
    ensures SuffixSum(hist, j) <= SuffixSum(hist, i)
    decreases j - i
  {
    if i < j {
      SuffixSumMonotone(hist, i + 1, j);
    }
  }

  /** The scan: from bin 255 down to 0 add the bin to the running total and
      stop at the first bin where the total reaches the target. The threshold
      is then the largest grey level whose suffix holds at least 1000 pixels;
      when no suffix does, the threshold stays 0 and the total is every pixel. */
  method FindThreshold(hist: seq<nat>) returns (threshold: int, total: nat)
    requires |hist| == Bins
    ensures 0 <= threshold < Bins
    ensures forall j :: threshold < j <= Bins ==> SuffixSum(hist, j) < Target
    ensures SuffixSum(hist, 0) >= Target ==>
      total == SuffixSum(hist, threshold) && total >= Target && SuffixSum(hist, threshold + 1) < Target
    ensures SuffixSum(hist, 0) < Target ==> threshold == 0 && total == SuffixSum(hist, 0)
  {
    total := 0;
    threshold := 0;
    var i := Bins - 1;
    while i >= 0
      invariant -1 <= i < Bins
      invariant total == SuffixSum(hist, i + 1) && total < Target
      invariant forall j :: i < j <= Bins ==> SuffixSum(hist, j) < Target
      invariant threshold == 0
    {
      total := total + hist[i];
      if total >= Target {
        threshold := i;
        SuffixSumMonotone(hist, 0, i);
        break;
      }
      forall j | i <= j <= Bins ensures SuffixSum(hist, j) < Target {
        SuffixSumMonotone(hist, i, j);
      }
      i := i - 1;
    }
  }

  /** The threshold the scan finds is unique: at most one level has a suffix
      reaching the target while the next level's suffix does not. */
  lemma ThresholdUnique(hist: seq<nat>, t1: int, t2: int)
    requires 0 <= t1 < |hist| && 0 <= t2 < |hist|
    requires SuffixSum(hist, t1) >= Target && SuffixSum(hist, t1 + 1) < Target
    requires SuffixSum(hist, t2) >= Target && SuffixSum(hist, t2 + 1) < Target
    ensures t1 == t2
  {
    if t1 < t2 {
      SuffixSumMonotone(hist, t1 + 1, t2);
    } else if t2 < t1 {
      SuffixSumMonotone(hist, t2 + 1, t1);
    }
  }
}
