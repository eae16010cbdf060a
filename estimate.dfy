/**
 * Width estimation: the walk over the ranked peaks that averages the lag gaps of
 * the first few consistent peaks.
 */
module Estimation {
  import opened Wrappers
  import opened Peaks

  /** Lags accepted after `last` from `rest`: at most `budget` more, each not below the
      one before it; the walk ends at the first lag that is. */
  function Follow(rest: seq<Peak>, last: nat, budget: nat): (w: seq<nat>)
    ensures |w| <= budget && |w| <= |rest|
  {
    if budget == 0 || rest == [] || rest[0].idx < last then []
    else [rest[0].idx] + Follow(rest[1..], rest[0].idx, budget - 1)
  }

  /** The lags the walk accepts: the first peak seeds it, then at most three more. */
  function Walk(peaks: seq<Peak>): (w: seq<nat>)
  {
    if peaks == [] then [] else [peaks[0].idx] + Follow(peaks[1..], peaks[0].idx, 3)
  }

  /** The lags of a run of peaks. */
  function Lags(peaks: seq<Peak>): (l: seq<nat>)
    ensures |l| == |peaks| && forall j :: 0 <= j < |peaks| ==> l[j] == peaks[j].idx
  {
    if peaks == [] then [] else [peaks[0].idx] + Lags(peaks[1..])
  }

  /** Adjacent lags of the first k peaks never decrease. */
  ghost predicate NonDecreasingPrefix(peaks: seq<Peak>, k: nat)
    requires k <= |peaks|
  {
    forall j :: 0 < j < k ==> peaks[j - 1].idx <= peaks[j].idx
  }

  /** The last lag of a non-decreasing prefix is at least its first. */
  lemma {:induction false} PrefixEnds(peaks: seq<Peak>, k: nat)
    requires 0 < k <= |peaks|
    requires NonDecreasingPrefix(peaks, k)
    ensures peaks[0].idx <= peaks[k - 1].idx
  {
    if k > 1 {
      PrefixEnds(peaks, k - 1);
    }
  }

  lemma {:induction false} FollowIs(rest: seq<Peak>, last: nat, budget: nat, k: nat)
    requires k <= |rest| && k <= budget
    requires k > 0 ==> last <= rest[0].idx
    requires NonDecreasingPrefix(rest, k)
    requires k == |rest| || k == budget || rest[k].idx < (if k == 0 then last else rest[k - 1].idx)
    ensures Follow(rest, last, budget) == Lags(rest[..k])
  {
    if k > 0 {
      var tail := rest[1..];
      assert k - 1 < |tail| ==> tail[k - 1] == rest[k];
      FollowIs(tail, rest[0].idx, budget - 1, k - 1);
      assert rest[..k] == [rest[0]] + tail[..k - 1];
      assert rest[..k][1..] == tail[..k - 1];
    }
  }

  /** The walk accepts exactly the longest prefix of at most four peaks whose lags do
      not decrease. */
  lemma WalkIs(peaks: seq<Peak>, k: nat)
    requires k <= |peaks| && k <= 4
    requires NonDecreasingPrefix(peaks, k)
    requires k == |peaks| || k == 4 || (k > 0 && peaks[k].idx < peaks[k - 1].idx)
    ensures Walk(peaks) == Lags(peaks[..k])
  {
    if k > 0 {
      var tail := peaks[1..];
      assert k - 1 < |tail| ==> tail[k - 1] == peaks[k];
      FollowIs(tail, peaks[0].idx, 3, k - 1);
      assert peaks[..k] == [peaks[0]] + tail[..k - 1];
      assert peaks[..k][1..] == tail[..k - 1];
    }
  }

  /** What the walk accepts: a prefix of the peaks of at most four lags, never
      decreasing, which stops early only at a lag below its predecessor. */
  lemma {:induction false} WalkShape(peaks: seq<Peak>)
    ensures |Walk(peaks)| <= 4 && |Walk(peaks)| <= |peaks|
    ensures Walk(peaks) == Lags(peaks[..|Walk(peaks)|])
    ensures NonDecreasingPrefix(peaks, |Walk(peaks)|)
    ensures var k := |Walk(peaks)|; k == |peaks| || k == 4 || (k > 0 && peaks[k].idx < peaks[k - 1].idx)
  {
    var k := 0;
    while k < |peaks| && k < 4 && (k == 0 || peaks[k - 1].idx <= peaks[k].idx)
      invariant k <= |peaks| && k <= 4
      invariant NonDecreasingPrefix(peaks, k)
    {
      k := k + 1;
    }
    WalkIs(peaks, k);
  }

  /** With distinct lags (as detected peaks have), the accepted lags strictly increase. */
  lemma WalkIncreasing(peaks: seq<Peak>)
    requires DistinctIndices(peaks)
    ensures forall j :: 0 < j < |Walk(peaks)| ==> Walk(peaks)[j - 1] < Walk(peaks)[j]
  {
    WalkShape(peaks);
  }

  /** range_sum as the loop accumulates it: the sum of the gaps between adjacent lags. */
  function GapSum(w: seq<nat>): int
  {
    if |w| < 2 then 0 else GapSum(w[..|w| - 1]) + (w[|w| - 1] as int - w[|w| - 2] as int)
  }

  /** The gaps telescope to the last accepted lag minus the first. */
  lemma {:induction false} GapSumTelescopes(w: seq<nat>)
    requires |w| >= 1
    ensures GapSum(w) == w[|w| - 1] as int - w[0] as int
  {
    if |w| >= 2 {
      GapSumTelescopes(w[..|w| - 1]);
    }
  }

  /** (size_t)(sum / n + 0.5) for a non-negative sum: the mean rounded half up, in
      integer arithmetic. */
  function RoundHalfUp(sum: nat, n: nat): (r: nat)
    requires n >= 1
    ensures 2 * n * r <= 2 * sum + n < 2 * n * (r + 1)
  {
    DivBounds(2 * sum + n, 2 * n);
    (2 * sum + n) / (2 * n)
  }

  lemma DivBounds(a: nat, d: nat)
    requires d >= 1
    ensures d * (a / d) <= a < d * (a / d + 1)
  {
  }

  /** The estimate: the mean gap of the accepted lags rounded half up, or no estimate
      when fewer than two lags are accepted (the division by zero of the source). */
  function Estimate(peaks: seq<Peak>): Option<nat>
  {
    var w := Walk(peaks);
    if |w| < 2 then None
    else
      WalkShape(peaks);
      PrefixEnds(peaks, |w|);
      Some(RoundHalfUp(w[|w| - 1] - w[0], |w| - 1))
  }

  /** There is no estimate exactly when fewer than two peaks exist or the second lies
      below the first. */
  lemma EstimateNoneIff(peaks: seq<Peak>)
    ensures Estimate(peaks).None? <==> |peaks| < 2 || peaks[1].idx < peaks[0].idx
  {
    WalkShape(peaks);
    if |peaks| >= 2 && peaks[1].idx >= peaks[0].idx {
      assert |Walk(peaks)| >= 2;
    }
  }

  /** With distinct lags, every estimate is at least 1 and at most the last accepted lag. */
  lemma EstimateBounds(peaks: seq<Peak>)
    requires DistinctIndices(peaks)
    ensures Estimate(peaks).Some? ==>
      1 <= Estimate(peaks).value <= Walk(peaks)[|Walk(peaks)| - 1]
  {
    var w := Walk(peaks);
    if |w| >= 2 {
      WalkIncreasing(peaks);
      GapsAtLeastCount(w, |w| - 1);
      var n := |w| - 1;
      var r := Estimate(peaks).value;
      assert 2 * n * r <= 2 * (w[n] - w[0]) + n < 2 * n * (r + 1);
    }
  }

  /** n strictly increasing steps climb by at least n. */
  lemma {:induction false} GapsAtLeastCount(w: seq<nat>, n: nat)
    requires n < |w|
    requires forall j :: 0 < j < |w| ==> w[j - 1] < w[j]
    ensures w[n] - w[0] >= n
  {
    if n > 0 {
      GapsAtLeastCount(w, n - 1);
    }
  }

  /** The peak walk at the end of detect_width: the first peak seeds `last`, each later
      one adds its gap unless its lag is below `last`, and the walk stops after three
      gaps; the result is range_sum / num_ranges rounded half up, absent when no gap was
      taken. */
  method EstimateWidth(peaks: seq<Peak>) returns (width: Option<nat>)
    ensures width == Estimate(peaks)
  {
    var last: int := -1;
    var rangeSum := 0;
    var numRanges := 0;
    var i := 0;
    while i < |peaks|
      invariant 0 <= i <= |peaks| && i <= 3
      invariant NonDecreasingPrefix(peaks, i)
      invariant last == (if i == 0 then -1 else peaks[i - 1].idx)
      invariant numRanges == (if i == 0 then 0 else i - 1)
      invariant rangeSum == (if i == 0 then 0 else peaks[i - 1].idx - peaks[0].idx)
    {
      if last >= 0 {
        if peaks[i].idx < last {
          break;
        }
        rangeSum := rangeSum + (peaks[i].idx - last);
        numRanges := numRanges + 1;
      }
      last := peaks[i].idx;
      i := i + 1;
      if numRanges >= 3 {
        break;
      }
    }
    WalkIs(peaks, i);
    ghost var w := Walk(peaks);
    assert |w| == i;
    if numRanges == 0 {
      width := None;
    } else {
      PrefixEnds(peaks, i);
      assert w[0] == peaks[0].idx && w[i - 1] == peaks[i - 1].idx;
      width := Some(RoundHalfUp(rangeSum, numRanges));
    }
  }

  /** The estimate is the accumulated gap sum over the number of gaps, rounded half up,
      and it exists exactly when the walk takes a gap. */
  lemma EstimateIsMeanGap(peaks: seq<Peak>)
    ensures Estimate(peaks).Some? <==> |Walk(peaks)| >= 2
    ensures |Walk(peaks)| >= 2 ==>
      GapSum(Walk(peaks)) >= 0 && Estimate(peaks) == Some(RoundHalfUp(GapSum(Walk(peaks)), |Walk(peaks)| - 1))
  {
    var w := Walk(peaks);
    if |w| >= 2 {
      WalkShape(peaks);
      PrefixEnds(peaks, |w|);
      GapSumTelescopes(w);
    }
  }
}
