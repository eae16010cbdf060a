/**
 * detect_width: one pass over the lags that computes each correlation, checks the lag
 * whose window has just been swept, and folds the new value into a ring buffer of
 * running window maxima; a trailing pass checks the last half-window; the ranked peaks
 * are then reduced to a width.
 */
module Detect {
  import opened Wrappers
  import opened Autocorr
  import opened Peaks
  import opened Estimation

  /** The ring-buffer slot of lag j (the source's `j % window_size`). */
  function Slot(j: int, ws: nat): (k: nat)
    requires ws >= 1
    ensures k < ws
  {
    j % ws
  }

  lemma MulBound(ws: int, d: int)
    requires ws >= 1
    ensures d >= 1 ==> ws * d >= ws
    ensures d <= -1 ==> ws * d <= -ws
  {
  }

  /** Euclidean remainder is determined by any quotient-remainder split. */
  lemma SlotUnique(x: int, ws: nat, q: int, r: int)
    requires ws >= 1 && x == ws * q + r && 0 <= r < ws
    ensures Slot(x, ws) == r
  {
    var q', r' := x / ws, x % ws;
    assert x == ws * q' + r';
    assert ws * q - ws * q' == ws * (q - q');
    MulBound(ws, q - q');
  }

  /** Lags fewer than one window apart use different slots. */
  lemma SlotDistinct(a: int, b: int, ws: nat)
    requires ws >= 1 && a < b < a + ws
    ensures Slot(a, ws) != Slot(b, ws)
  {
    var q, r := a / ws, a % ws;
    assert a == ws * q + r;
    if r + (b - a) < ws {
      SlotUnique(b, ws, q, r + (b - a));
    } else {
      assert ws * (q + 1) == ws * q + ws;
      SlotUnique(b, ws, q + 1, r + (b - a) - ws);
    }
  }

  /** Lags exactly one window apart share a slot. */
  lemma SlotShift(a: int, ws: nat)
    requires ws >= 1
    ensures Slot(a + ws, ws) == Slot(a, ws)
  {
    var q := a / ws;
    assert a == ws * q + a % ws;
    assert ws * (q + 1) == ws * q + ws;
    SlotUnique(a + ws, ws, q + 1, a % ws);
  }

  /** What the slot of lag j holds once lags 0 .. o-1 have been folded in: the running
      maximum, over an initial 0, of the lags of j's window seen so far; 0 for a lag
      outside the series. */
  function RunningMax(s: seq<int>, h: nat, j: int, o: nat): int
    requires o <= |s| && j <= o + h
  {
    if 0 <= j < |s| then MaxOf0(s[WindowLo(j, h)..o]) else 0
  }

  /** The ring buffer after o lags: every slot holds the running maximum of the one lag
      within h of lag o-1 that maps to it. */
  ghost predicate WindowState(window: seq<int>, s: seq<int>, h: nat, o: nat)
    requires |window| == 2 * h + 1 && o <= |s|
  {
    forall j: int :: o - 1 - h <= j <= o - 1 + h ==> window[Slot(j, 2 * h + 1)] == RunningMax(s, h, j, o)
  }

  /** Folding one more value into a running maximum. */
  lemma MaxOf0Snoc(s: seq<int>, a: nat, o: nat)
    requires a <= o < |s|
    ensures MaxOf0(s[a..o + 1]) == Max(MaxOf0(s[a..o]), s[o])
  {
    assert s[a..o + 1][..o - a] == s[a..o];
  }

  /** One slot through one iteration of the main loop: v0 is its value before, v1 after
      the swept lag's slot is reset, v2 after the new value s[o] is folded in. */
  lemma SlotStep(s: seq<int>, h: nat, o: nat, j: int, lo: nat, hi: nat, v0: int, v1: int, v2: int)
    requires o < |s| && o - h <= j <= o + h
    requires j < o + h ==> v1 == v0 == RunningMax(s, h, j, o)
    requires j == o + h ==> v1 == 0
    requires lo == WindowLo(o, h) && hi == (if o + h < |s| - 1 then o + h else |s| - 1)
    requires v2 == if lo <= j <= hi then Max(v1, s[o]) else v1
    ensures v2 == RunningMax(s, h, j, o + 1)
  {
    if 0 <= j < |s| {
      if j < o + h {
        MaxOf0Snoc(s, WindowLo(j, h), o);
      } else {
        MaxOf0Snoc(s, o, o);
        assert s[o..o] == [];
      }
    }
  }

  /** One iteration of the main loop keeps the ring buffer exact: w0 is the buffer before
      it, w1 after the swept lag's slot is reset, w2 after the new value is folded into
      the slots of lags lo .. hi. */
  lemma WindowStep(w0: seq<int>, w1: seq<int>, w2: seq<int>, s: seq<int>, h: nat, ws: nat, o: nat, lo: nat, hi: nat)
    requires ws == 2 * h + 1 && |w0| == |w1| == |w2| == ws && o < |s|
    requires WindowState(w0, s, h, o)
    requires o > h ==> w1 == w0[Slot(o - 1 - h, ws) := 0]
    requires o <= h ==> w1 == w0
    requires lo == WindowLo(o, h) && hi == (if o + h < |s| - 1 then o + h else |s| - 1)
    requires forall j: int :: o - h <= j <= o + h && lo <= j <= hi ==> w2[Slot(j, ws)] == Max(w1[Slot(j, ws)], s[o])
    requires forall j: int :: o - h <= j <= o + h && !(lo <= j <= hi) ==> w2[Slot(j, ws)] == w1[Slot(j, ws)]
    ensures WindowState(w2, s, h, o + 1)
  {
    var gone := o - 1 - h;
    forall j: int | o - h <= j <= o + h ensures w2[Slot(j, ws)] == RunningMax(s, h, j, o + 1) {
      var k := Slot(j, ws);
      if j < o + h {
        SlotDistinct(gone, j, ws);
        assert w0[k] == RunningMax(s, h, j, o);
        assert w1[k] == w0[k];
      } else {
        SlotShift(gone, ws);
        assert j == gone + ws;
        assert w0[Slot(gone, ws)] == RunningMax(s, h, gone, o);
        assert w1[k] == 0;
      }
      SlotStep(s, h, o, j, lo, hi, w0[k], w1[k], w2[k]);
    }
  }

  /** The inner update loop of detect_width: the slot of every lag lo .. hi takes the
      maximum of its value and v; a window-wide range of lags around them names every
      slot exactly once, and the slots of the others are left alone. */
  method SlideWindow(window: array<int>, v: int, lo: nat, hi: nat, ghost base: int)
    requires window.Length >= 1 && base <= lo <= hi < base + window.Length
    modifies window
    ensures forall j: int :: base <= j < base + window.Length && lo <= j <= hi ==>
      window[Slot(j, window.Length)] == Max(old(window[Slot(j, window.Length)]), v)
    ensures forall j: int :: base <= j < base + window.Length && !(lo <= j <= hi) ==>
      window[Slot(j, window.Length)] == old(window[Slot(j, window.Length)])
  {
    var ws := window.Length;
    var i := lo;
    while i <= hi
      invariant lo <= i <= hi + 1
      invariant forall j: int :: base <= j < base + ws && lo <= j < i ==>
        window[Slot(j, ws)] == Max(old(window[Slot(j, ws)]), v)
      invariant forall j: int :: base <= j < base + ws && !(lo <= j < i) ==>
        window[Slot(j, ws)] == old(window[Slot(j, ws)])
    {
      forall j | base <= j < base + ws && j != i ensures Slot(j, ws) != Slot(i, ws) {
        if j < i { SlotDistinct(j, i, ws); } else { SlotDistinct(i, j, ws); }
      }
      window[i % ws] := Max(window[i % ws], v);
      i := i + 1;
    }
  }

  /** When every lag of i's window has been folded in and no later one has, i's slot
      holds i's window maximum, so the source's equality test is the peak test. */
  lemma PeakCheck(window: seq<int>, s: seq<int>, h: nat, ws: nat, o: nat, i: nat)
    requires ws == 2 * h + 1 && |window| == ws && o <= |s| && i < |s|
    requires WindowState(window, s, h, o)
    requires o - 1 - h <= i <= o - 1 + h && o == WindowHi(|s|, i, h)
    ensures window[Slot(i, ws)] == WindowMax(s, h, i)
    ensures window[Slot(i, ws)] == s[i] <==> IsPeak(s, h, i)
  {
    assert window[Slot(i, ws)] == RunningMax(s, h, i, o);
  }

  /** One lag checked: the ranked list grows by that lag exactly when it is a peak. */
  lemma RankedPeaksStep(s: seq<int>, h: nat, i: nat, before: seq<Peak>, after: seq<Peak>)
    requires i < |s| && before == RankedPeaks(s, h, i)
    requires IsPeak(s, h, i) ==> after == Insert(before, Peak(i, s[i]))
    requires !IsPeak(s, h, i) ==> after == before
    ensures after == RankedPeaks(s, h, i + 1)
  {
  }

  /** How many lags, from 0 up, the peak test reaches. The main loop checks lags up to
      corr_size - h - 2 and the trailing loop the rest up to corr_size - 2; when
      1 <= corr_size < h + 1 the trailing loop's start wraps around in size_t past its end
      and no lag is checked at all (DrainBounds). For corr_size == 0 no lag is checked
      either, where the source reads out of bounds (EmptySeriesDrainOverread). */
  function CheckedLags(cs: nat, h: nat): (k: nat)
    ensures k < cs || k == 0
  {
    if cs >= h + 1 then cs - 1 else 0
  }

  /** size_t arithmetic: subtraction wraps modulo 2^64. */
  const SizeModulus: nat := 0x1_0000_0000_0000_0000

  function SizeSub(a: nat, b: nat): (d: nat)
    requires a < SizeModulus && b < SizeModulus
    ensures d < SizeModulus
    ensures a >= b ==> d == a - b
    ensures a < b ==> d == SizeModulus + a - b
  {
    (a - b) % SizeModulus
  }

  /** The bounds of the trailing loop as written: i runs from corr_size - h - 1 while it
      is below corr_size - 1, both computed in size_t. */
  function DrainStart(cs: nat, h: nat): nat
    requires cs < SizeModulus && h + 1 < SizeModulus
  {
    SizeSub(cs, h + 1)
  }

  function DrainEnd(cs: nat): nat
    requires cs < SizeModulus
  {
    SizeSub(cs, 1)
  }

  /** The trailing loop as written checks exactly the lags from corr_size - h - 1 below
      CheckedLags when corr_size >= 1: none at all when its start wraps around. */
  lemma DrainBounds(cs: nat, h: nat)
    requires 1 <= cs < SizeModulus && h + 1 < SizeModulus
    ensures cs >= h + 1 ==> DrainStart(cs, h) == cs - h - 1 && DrainEnd(cs) == CheckedLags(cs, h)
    ensures cs < h + 1 ==> DrainStart(cs, h) >= DrainEnd(cs) && CheckedLags(cs, h) == 0
  {
  }

  /** As written, an empty series (fewer than 3 input bytes) with h >= 1 makes both bounds
      wrap, the start below the end: the loop runs and reads corr_buff, which has no
      entries, at index 2^64 - h - 1 onwards. */
  lemma EmptySeriesDrainOverread(h: nat)
    requires 1 <= h && h + 1 < SizeModulus
    ensures DrainStart(0, h) < DrainEnd(0)
    ensures DrainStart(0, h) == SizeModulus - h - 1
  {
  }

  /** The peak test of detect_width at lag i: the lag joins the ranked list when its
      value equals what its window slot recorded. */
  method TestLag(window: array<int>, corrBuf: array<int>, i: nat, peaks: seq<Peak>) returns (r: seq<Peak>)
    requires window.Length >= 1 && i < corrBuf.Length
    ensures window[Slot(i, window.Length)] == corrBuf[i] ==> r == Insert(peaks, Peak(i, corrBuf[i]))
    ensures window[Slot(i, window.Length)] != corrBuf[i] ==> r == peaks
  {
    r := peaks;
    if window[i % window.Length] == corrBuf[i] {
      r := AddPeak(peaks, i, corrBuf[i]);
    }
  }

  /** The check in the main loop once lag i = offset - h - 1 has been swept: test it
      against its slot, then reset the slot for the lag that takes it over. */
  method SettleLag(window: array<int>, corrBuf: array<int>, h: nat, ghost s: seq<int>, offset: nat, peaks: seq<Peak>)
    returns (r: seq<Peak>)
    requires window.Length == 2 * h + 1 && h < offset < |s| && corrBuf != window
    requires corrBuf.Length == |s| && corrBuf[..offset] == s[..offset]
    requires WindowState(window[..], s, h, offset)
    requires peaks == RankedPeaks(s, h, offset - h - 1)
    modifies window
    ensures window[..] == old(window[..])[Slot(offset - h - 1, 2 * h + 1) := 0]
    ensures r == RankedPeaks(s, h, offset - h)
  {
    var i := offset - h - 1;
    PeakCheck(window[..], s, h, window.Length, offset, i);
    assert corrBuf[i] == corrBuf[..offset][i];
    r := TestLag(window, corrBuf, i, peaks);
    RankedPeaksStep(s, h, i, peaks, r);
    window[i % window.Length] := 0;
  }

  /** An empty ring buffer is the state before any lag is folded in. */
  lemma WindowStateInitial(window: seq<int>, s: seq<int>, h: nat)
    requires |window| == 2 * h + 1
    requires forall k :: 0 <= k < |window| ==> window[k] == 0
    ensures WindowState(window, s, h, 0)
  {
    forall j: int | -1 - h <= j <= -1 + h ensures window[Slot(j, 2 * h + 1)] == RunningMax(s, h, j, 0) {
      if 0 <= j < |s| {
        assert s[WindowLo(j, h)..0] == [];
      }
    }
  }

  /** One iteration of the main loop of detect_width: computes and stores corr[offset],
      settles the lag whose window has just been swept, and folds the new value into the
      slots of the lags within h of it. */
  method SweepStep(rgb: seq<bv8>, maxWidth: nat, corrBuf: array<int>, window: array<int>, h: nat,
                   ghost s: seq<int>, offset: nat, peaks: seq<Peak>)
    returns (r: seq<Peak>)
    requires s == CorrSeries(rgb, maxWidth)
    requires corrBuf.Length == |s| && window.Length == 2 * h + 1 && corrBuf != window && offset < |s|
    requires corrBuf[..offset] == s[..offset]
    requires WindowState(window[..], s, h, offset)
    requires peaks == RankedPeaks(s, h, if offset >= h + 1 then offset - h - 1 else 0)
    modifies corrBuf, window
    ensures corrBuf[..offset + 1] == s[..offset + 1]
    ensures WindowState(window[..], s, h, offset + 1)
    ensures r == RankedPeaks(s, h, if offset + 1 >= h + 1 then offset - h else 0)
  {
    ghost var w0 := window[..];
    var c := CorrelateLag(rgb, offset);
    CorrSeriesAt(rgb, maxWidth, offset);
    corrBuf[offset] := c;
    assert corrBuf[..offset + 1] == s[..offset + 1];
    r := peaks;
    if offset > h {
      r := SettleLag(window, corrBuf, h, s, offset, peaks);
    }
    ghost var w1 := window[..];
    var lo := if offset < h then 0 else offset - h;
    var hi := if corrBuf.Length - 1 < offset + h then corrBuf.Length - 1 else offset + h;
    SlideWindow(window, c, lo, hi, offset - h);
    WindowStep(w0, w1, window[..], s, h, window.Length, offset, lo, hi);
  }

  /** The main loop of detect_width: fills corr with the series and, once a lag's window
      has been swept, checks it and resets its slot. On return every slot holds the running
      maximum of the last window and the lags up to corr_size - h - 2 have been checked. */
  method SweepLags(rgb: seq<bv8>, maxWidth: nat, corrBuf: array<int>, window: array<int>, h: nat, ghost s: seq<int>)
    returns (peaks: seq<Peak>)
    requires s == CorrSeries(rgb, maxWidth)
    requires corrBuf.Length == |s| && window.Length == 2 * h + 1 && corrBuf != window
    requires forall k :: 0 <= k < window.Length ==> window[k] == 0
    modifies corrBuf, window
    ensures corrBuf[..] == s
    ensures WindowState(window[..], s, h, |s|)
    ensures peaks == RankedPeaks(s, h, if |s| >= h + 1 then |s| - h - 1 else 0)
  {
    WindowStateInitial(window[..], s, h);
    peaks := [];
    var offset := 0;
    while offset < corrBuf.Length
      invariant offset <= corrBuf.Length
      invariant corrBuf[..offset] == s[..offset]
      invariant WindowState(window[..], s, h, offset)
      invariant peaks == RankedPeaks(s, h, if offset >= h + 1 then offset - h - 1 else 0)
    {
      peaks := SweepStep(rgb, maxWidth, corrBuf, window, h, s, offset, peaks);
      offset := offset + 1;
    }
    assert corrBuf[..] == corrBuf[..offset];
  }

  /** One iteration of the trailing loop: lag i, whose window reaches the end of the
      series, joins the list exactly when it is a peak. */
  method DrainLag(corrBuf: array<int>, window: array<int>, h: nat, ghost s: seq<int>, i: nat, peaks: seq<Peak>)
    returns (r: seq<Peak>)
    requires corrBuf[..] == s && window.Length == 2 * h + 1 && |s| - h - 1 <= i < |s| - 1
    requires WindowState(window[..], s, h, |s|)
    requires peaks == RankedPeaks(s, h, i)
    ensures r == RankedPeaks(s, h, i + 1)
  {
    PeakCheck(window[..], s, h, window.Length, |s|, i);
    assert corrBuf[i] == s[i];
    r := TestLag(window, corrBuf, i, peaks);
    RankedPeaksStep(s, h, i, peaks, r);
  }

  /** The trailing loop of detect_width when corr_size >= h + 1: checks the lags of the
      last half-window, whose windows reach the end of the series, up to corr_size - 2. */
  method DrainLags(corrBuf: array<int>, window: array<int>, h: nat, ghost s: seq<int>, peaks: seq<Peak>)
    returns (r: seq<Peak>)
    requires corrBuf[..] == s && window.Length == 2 * h + 1 && |s| >= h + 1
    requires WindowState(window[..], s, h, |s|)
    requires peaks == RankedPeaks(s, h, |s| - h - 1)
    ensures r == RankedPeaks(s, h, |s| - 1)
  {
    r := peaks;
    var corrSize := corrBuf.Length;
    assert corrSize == |s|;
    var i := corrSize - h - 1;
    while i < corrSize - 1
      invariant corrSize - h - 1 <= i <= corrSize - 1
      invariant r == RankedPeaks(s, h, i)
    {
      r := DrainLag(corrBuf, window, h, s, i, r);
      i := i + 1;
    }
  }

  /** The trailing loop of detect_width with its size_t bounds: when corr_size < h + 1
      its start lies at or past its end and it checks nothing (DrainBounds). */
  method SweepTail(corrBuf: array<int>, window: array<int>, h: nat, ghost s: seq<int>, peaks: seq<Peak>)
    returns (r: seq<Peak>)
    requires corrBuf[..] == s && window.Length == 2 * h + 1
    requires WindowState(window[..], s, h, |s|)
    requires peaks == RankedPeaks(s, h, if |s| >= h + 1 then |s| - h - 1 else 0)
    ensures r == RankedPeaks(s, h, CheckedLags(|s|, h))
  {
    assert corrBuf.Length == |s|;
    if corrBuf.Length >= h + 1 {
      r := DrainLags(corrBuf, window, h, s, peaks);
    } else {
      r := peaks;
    }
  }

  /** detect_width without the debug dump: returns the width estimate (None where the
      source divides by zero) and the correlation series it computed. */
  method DetectWidth(rgb: seq<bv8>, minWidth: nat, maxWidth: nat) returns (width: Option<nat>, series: seq<int>)
    requires minWidth >= 1
    ensures series == CorrSeries(rgb, maxWidth)
    ensures width == Estimate(RankedPeaks(series, minWidth - 1, CheckedLags(|series|, minWidth - 1)))
  {
    var corrSize := CorrSize(maxWidth, |rgb|);
    var corrBuf := new int[corrSize](_ => 0);
    var windowSize := minWidth * 2 - 1;
    var h := windowSize / 2;
    assert h == minWidth - 1;
    var window := new int[windowSize](_ => 0);
    ghost var s := CorrSeries(rgb, maxWidth);
    var peaks := SweepLags(rgb, maxWidth, corrBuf, window, h, s);
    peaks := SweepTail(corrBuf, window, h, s, peaks);
    series := corrBuf[..];
    width := EstimateWidth(peaks);
  }

  /** A buffer of uniform mid-grey has zero correlation at every lag. */
  lemma GreySeriesZero(rgb: seq<bv8>, maxWidth: nat)
    requires forall i :: 0 <= i < |rgb| ==> rgb[i] == 128
    ensures forall lag :: 0 <= lag < |CorrSeries(rgb, maxWidth)| ==> CorrSeries(rgb, maxWidth)[lag] == 0
  {
    forall lag | 0 <= lag < |CorrSeries(rgb, maxWidth)| ensures CorrSeries(rgb, maxWidth)[lag] == 0 {
      CorrSeriesAt(rgb, maxWidth, lag);
      GreyCorrSumZero(rgb, lag, |rgb| / 3 - lag);
    }
  }

  /** Peaks 0, 1, .., k-1, all of value 0. */
  function ZeroPeaks(k: nat): (r: seq<Peak>)
    ensures |r| == k && forall j :: 0 <= j < k ==> r[j] == Peak(j, 0)
  {
    if k == 0 then [] else ZeroPeaks(k - 1) + [Peak(k - 1, 0)]
  }

  /** On an all-zero series every checked lag is a peak, and ties keep lag order. */
  lemma {:induction false} ZeroRankedPeaks(s: seq<int>, h: nat, k: nat)
    requires k <= |s|
    requires forall j :: 0 <= j < |s| ==> s[j] == 0
    ensures RankedPeaks(s, h, k) == ZeroPeaks(k)
  {
    if k > 0 {
      ZeroRankedPeaks(s, h, k - 1);
      IsPeakIff(s, h, k - 1);
      var prev := ZeroPeaks(k - 1);
      InsertAt(prev, Peak(k - 1, 0), k - 1);
      assert prev[..k - 1] == prev && prev[k - 1..] == [];
    }
  }

  /** A mean of n gaps of total n is 1. */
  lemma RoundHalfUpSelf(n: nat)
    requires n >= 1
    ensures RoundHalfUp(n, n) == 1
  {
    var r := RoundHalfUp(n, n);
    assert 2 * n * r <= 3 * n < 2 * n * (r + 1);
  }

  /** Consecutive lags of equal value are estimated as width 1. */
  lemma ZeroPeaksEstimate(k: nat)
    requires k >= 2
    ensures Estimate(ZeroPeaks(k)) == Some(1)
  {
    var peaks := ZeroPeaks(k);
    var m := if k < 4 then k else 4;
    assert NonDecreasingPrefix(peaks, m) by {
      forall j | 0 < j < m ensures peaks[j - 1].idx <= peaks[j].idx {
        assert peaks[j - 1] == Peak(j - 1, 0) && peaks[j] == Peak(j, 0);
      }
    }
    WalkIs(peaks, m);
    var w := Walk(peaks);
    assert w == Lags(peaks[..m]);
    assert peaks[0] == Peak(0, 0) && peaks[m - 1] == Peak(m - 1, 0);
    assert |w| == m && w[0] == 0 && w[m - 1] == m - 1;
    EstimateIsMeanGap(peaks);
    GapSumTelescopes(w);
    RoundHalfUpSelf(m - 1);
  }

  /** An all-zero series with at least two checked lags is estimated as width 1. */
  lemma ZeroSeriesWidthOne(s: seq<int>, h: nat)
    requires forall j :: 0 <= j < |s| ==> s[j] == 0
    requires |s| >= 3 && |s| >= h + 1
    ensures Estimate(RankedPeaks(s, h, CheckedLags(|s|, h))) == Some(1)
  {
    var k := CheckedLags(|s|, h);
    assert k == |s| - 1;
    ZeroRankedPeaks(s, h, k);
    ZeroPeaksEstimate(k);
  }

  /** A uniform mid-grey buffer with at least two checked lags is reported as width 1:
      every lag is a peak, the walk accepts consecutive lags, and every gap is 1. */
  lemma GreyWidthOne(rgb: seq<bv8>, minWidth: nat, maxWidth: nat)
    requires forall i :: 0 <= i < |rgb| ==> rgb[i] == 128
    requires minWidth >= 1
    requires CorrSize(maxWidth, |rgb|) >= 3 && CorrSize(maxWidth, |rgb|) >= minWidth
    ensures var s := CorrSeries(rgb, maxWidth);
            Estimate(RankedPeaks(s, minWidth - 1, CheckedLags(|s|, minWidth - 1))) == Some(1)
  {
    GreySeriesZero(rgb, maxWidth);
    ZeroSeriesWidthOne(CorrSeries(rgb, maxWidth), minWidth - 1);
  }
}
