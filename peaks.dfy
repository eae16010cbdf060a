/**
 * Peaks of the correlation series: the ranked peak list kept by add_peak, and the
 * windowed-maximum test that decides which lags are peaks.
 */
module Peaks {

  /** A detected local maximum: its lag and its correlation value. */
  datatype Peak = Peak(idx: nat, val: int)

  /** Values never increase along the list. */
  ghost predicate Sorted(peaks: seq<Peak>)
  {
    forall a, b :: 0 <= a < b < |peaks| ==> peaks[a].val >= peaks[b].val
  }

  /** Sorted by value descending, equal values in increasing lag order. */
  ghost predicate Ranked(peaks: seq<Peak>)
  {
    forall a, b :: 0 <= a < b < |peaks| ==>
      peaks[a].val > peaks[b].val || (peaks[a].val == peaks[b].val && peaks[a].idx < peaks[b].idx)
  }

  /** No two entries share a lag. */
  ghost predicate DistinctIndices(peaks: seq<Peak>)
  {
    forall a, b :: 0 <= a < b < |peaks| ==> peaks[a].idx != peaks[b].idx
  }

  /** The list with p placed after every leading entry whose value is at least its own. */
  function Insert(peaks: seq<Peak>, p: Peak): (r: seq<Peak>)
    ensures |r| == |peaks| + 1
  {
    if peaks == [] || peaks[0].val < p.val then [p] + peaks
    else
      assert peaks == [peaks[0]] + peaks[1..];
      [peaks[0]] + Insert(peaks[1..], p)
  }

  /** Insert splices p in at position k when every entry before k is at least p's value
      and the entry at k (if any) is smaller; the old entries keep their order. */
  lemma {:induction false} InsertAt(peaks: seq<Peak>, p: Peak, k: nat)
    requires k <= |peaks|
    requires forall j :: 0 <= j < k ==> peaks[j].val >= p.val
    requires k < |peaks| ==> peaks[k].val < p.val
    ensures Insert(peaks, p) == peaks[..k] + [p] + peaks[k..]
  {
    if k > 0 {
      var rest := peaks[1..];
      forall j | 0 <= j < k - 1 ensures rest[j].val >= p.val {
        assert rest[j] == peaks[j + 1];
      }
      assert k - 1 < |rest| ==> rest[k - 1] == peaks[k];
      InsertAt(rest, p, k - 1);
      assert Insert(peaks, p) == [peaks[0]] + Insert(rest, p);
      assert peaks[..k] == [peaks[0]] + rest[..k - 1];
      assert peaks[k..] == rest[k - 1..];
    }
  }

  /** Element by element: entries before the insertion position stay, p follows, and the
      rest move up by one. */
  lemma {:induction false} InsertElems(peaks: seq<Peak>, p: Peak)
    ensures var k := InsertPos(peaks, p.val);
      && Insert(peaks, p)[k] == p
      && (forall i :: 0 <= i < k ==> Insert(peaks, p)[i] == peaks[i])
      && (forall i :: k < i <= |peaks| ==> Insert(peaks, p)[i] == peaks[i - 1])
  {
    var r := Insert(peaks, p);
    if peaks == [] || peaks[0].val < p.val {
      assert r == [p] + peaks;
    } else {
      var rest := peaks[1..];
      InsertElems(rest, p);
      var k' := InsertPos(rest, p.val);
      var tail := Insert(rest, p);
      assert r == [peaks[0]] + tail;
      assert r[k' + 1] == tail[k'];
      forall i | 0 < i < k' + 1 ensures r[i] == peaks[i] {
        assert r[i] == tail[i - 1] == rest[i - 1];
      }
      forall i | k' + 1 < i <= |peaks| ensures r[i] == peaks[i - 1] {
        assert r[i] == tail[i - 1] == rest[i - 2];
      }
    }
  }

  /** Insert adds p to the members and keeps every old one. */
  lemma {:induction false} InsertMembers(peaks: seq<Peak>, p: Peak)
    ensures forall q :: q in Insert(peaks, p) <==> q in peaks || q == p
  {
    if peaks != [] && peaks[0].val >= p.val {
      InsertMembers(peaks[1..], p);
      assert peaks == [peaks[0]] + peaks[1..];
    }
  }

  /** Insert adds exactly one entry, p, and loses none. */
  lemma {:induction false} InsertMultiset(peaks: seq<Peak>, p: Peak)
    ensures multiset(Insert(peaks, p)) == multiset(peaks) + multiset{p}
  {
    if peaks != [] && peaks[0].val >= p.val {
      InsertMultiset(peaks[1..], p);
      assert peaks == [peaks[0]] + peaks[1..];
    }
  }

  /** On a sorted list, the new entry goes after every entry of at least its value and
      before every smaller one. */
  lemma {:induction false} InsertSorted(peaks: seq<Peak>, p: Peak)
    requires Sorted(peaks)
    ensures Sorted(Insert(peaks, p))
  {
    var k := InsertPos(peaks, p.val);
    InsertElems(peaks, p);
    var r := Insert(peaks, p);
    forall a, b | 0 <= a < b < |r| ensures r[a].val >= r[b].val {
      if b < k {
        assert r[a] == peaks[a] && r[b] == peaks[b];
      } else if b == k {
        assert r[a] == peaks[a] && r[b] == p;
      } else if a > k {
        assert r[a] == peaks[a - 1] && r[b] == peaks[b - 1];
      } else if a == k {
        assert r[a] == p && r[b] == peaks[b - 1];
        assert peaks[k].val >= peaks[b - 1].val;
      } else {
        assert r[a] == peaks[a] && r[b] == peaks[b - 1];
      }
    }
  }

  /** Inserting a lag larger than every listed one keeps the ranked order. */
  lemma {:induction false} InsertRanked(peaks: seq<Peak>, p: Peak)
    requires Ranked(peaks)
    requires forall q :: q in peaks ==> q.idx < p.idx
    ensures Ranked(Insert(peaks, p))
  {
    var k := InsertPos(peaks, p.val);
    InsertElems(peaks, p);
    var r := Insert(peaks, p);
    forall a, b | 0 <= a < b < |r|
      ensures r[a].val > r[b].val || (r[a].val == r[b].val && r[a].idx < r[b].idx)
    {
      if b < k {
        assert r[a] == peaks[a] && r[b] == peaks[b];
      } else if b == k {
        assert r[a] == peaks[a] && r[b] == p;
        assert peaks[a] in peaks;
      } else if a > k {
        assert r[a] == peaks[a - 1] && r[b] == peaks[b - 1];
      } else if a == k {
        assert r[a] == p && r[b] == peaks[b - 1];
        assert peaks[k].val >= peaks[b - 1].val;
      } else {
        assert r[a] == peaks[a] && r[b] == peaks[b - 1];
      }
    }
  }

  /** Where Insert places a new entry of value v: after the leading entries of value at
      least v. */
  function InsertPos(peaks: seq<Peak>, v: int): (k: nat)
    ensures k <= |peaks|
    ensures forall j :: 0 <= j < k ==> peaks[j].val >= v
    ensures k < |peaks| ==> peaks[k].val < v
  {
    if peaks == [] || peaks[0].val < v then 0 else 1 + InsertPos(peaks[1..], v)
  }

  /** add_peak: walks past every entry whose value is at least the new one, then
      splices the new peak in there. */
  method AddPeak(peaks: seq<Peak>, idx: nat, val: int) returns (r: seq<Peak>)
    ensures r == Insert(peaks, Peak(idx, val))
  {
    var k := 0;
    while k < |peaks| && peaks[k].val >= val
      invariant 0 <= k <= |peaks|
      invariant forall j :: 0 <= j < k ==> peaks[j].val >= val
    {
      k := k + 1;
    }
    r := peaks[..k] + [Peak(idx, val)] + peaks[k..];
    InsertAt(peaks, Peak(idx, val), k);
  }

  /** The larger of two values, as the source's max macro picks it. */
  function Max(a: int, b: int): int
  {
    if a < b then b else a
  }

  /** max(0, largest element of s): what a window slot holds after taking the running
      maximum of s over an initial 0. */
  function MaxOf0(s: seq<int>): (m: int)
    ensures m >= 0
  {
    if s == [] then 0
    else
      Max(MaxOf0(s[..|s| - 1]), s[|s| - 1])
  }

  /** MaxOf0 bounds every element and is either 0 or one of them. */
  lemma {:induction false} MaxOf0Bounds(s: seq<int>)
    ensures forall j :: 0 <= j < |s| ==> s[j] <= MaxOf0(s)
    ensures MaxOf0(s) == 0 || exists j :: 0 <= j < |s| && s[j] == MaxOf0(s)
  {
    if s != [] {
      var init := s[..|s| - 1];
      MaxOf0Bounds(init);
      assert forall j :: 0 <= j < |s| - 1 ==> s[j] == init[j];
      if MaxOf0(init) != 0 && MaxOf0(init) >= s[|s| - 1] {
        var j :| 0 <= j < |init| && init[j] == MaxOf0(init);
        assert s[j] == MaxOf0(s);
      }
    }
  }

  /** First lag of the window around i. */
  function WindowLo(i: nat, h: nat): nat
  {
    if i < h then 0 else i - h
  }

  /** One past the last lag of the window around i, clipped to the series. */
  function WindowHi(n: nat, i: nat, h: nat): nat
  {
    if i + h + 1 < n then i + h + 1 else n
  }

  /** max(0, maximum of s over the lags within h of i). */
  function WindowMax(s: seq<int>, h: nat, i: nat): int
    requires i < |s|
  {
    MaxOf0(s[WindowLo(i, h)..WindowHi(|s|, i, h)])
  }

  /** Lag i is a peak when its value equals its window's recorded maximum. */
  predicate IsPeak(s: seq<int>, h: nat, i: nat)
    requires i < |s|
  {
    s[i] == WindowMax(s, h, i)
  }

  /** A peak is exactly a non-negative value that no lag within h of it exceeds. */
  lemma IsPeakIff(s: seq<int>, h: nat, i: nat)
    requires i < |s|
    ensures IsPeak(s, h, i) <==>
      s[i] >= 0 && forall j :: WindowLo(i, h) <= j < WindowHi(|s|, i, h) ==> s[j] <= s[i]
  {
    var w := s[WindowLo(i, h)..WindowHi(|s|, i, h)];
    MaxOf0Bounds(w);
    assert w[i - WindowLo(i, h)] == s[i];
    if s[i] >= 0 && forall j :: WindowLo(i, h) <= j < WindowHi(|s|, i, h) ==> s[j] <= s[i] {
      var m := MaxOf0(w);
      if m != 0 {
        var j :| 0 <= j < |w| && w[j] == m;
        assert s[WindowLo(i, h) + j] == m;
      }
    }
    if IsPeak(s, h, i) {
      forall j | WindowLo(i, h) <= j < WindowHi(|s|, i, h) ensures s[j] <= s[i] {
        assert w[j - WindowLo(i, h)] == s[j];
      }
    }
  }

  /** The ranked list after checking lags 0 .. k-1 in increasing order. */
  function RankedPeaks(s: seq<int>, h: nat, k: nat): seq<Peak>
    requires k <= |s|
  {
    if k == 0 then []
    else if IsPeak(s, h, k - 1) then Insert(RankedPeaks(s, h, k - 1), Peak(k - 1, s[k - 1]))
    else RankedPeaks(s, h, k - 1)
  }

  /** The list holds exactly the peaks among the checked lags, each with its own value. */
  lemma {:induction false} RankedPeaksMembers(s: seq<int>, h: nat, k: nat)
    requires k <= |s|
    ensures forall p :: p in RankedPeaks(s, h, k) <==>
      p.idx < k && IsPeak(s, h, p.idx) && p.val == s[p.idx]
  {
    if k > 0 {
      RankedPeaksMembers(s, h, k - 1);
      if IsPeak(s, h, k - 1) {
        var p := Peak(k - 1, s[k - 1]);
        var prev := RankedPeaks(s, h, k - 1);
        InsertMembers(prev, p);
      }
    }
  }

  /** The list is ranked: value descending, and among equal values the earlier lag first. */
  lemma {:induction false} RankedPeaksRanked(s: seq<int>, h: nat, k: nat)
    requires k <= |s|
    ensures Ranked(RankedPeaks(s, h, k))
  {
    if k > 0 {
      RankedPeaksRanked(s, h, k - 1);
      if IsPeak(s, h, k - 1) {
        var prev := RankedPeaks(s, h, k - 1);
        RankedPeaksMembers(s, h, k - 1);
        assert forall q :: q in prev ==> q.idx < k - 1;
        InsertRanked(prev, Peak(k - 1, s[k - 1]));
      }
    }
  }

  /** Consequences of the ranking for the detected peaks: sorted by value, every lag at
      most once, no negative value, and only checked lags appear. */
  lemma RankedPeaksProperties(s: seq<int>, h: nat, k: nat)
    requires k <= |s|
    ensures Sorted(RankedPeaks(s, h, k))
    ensures DistinctIndices(RankedPeaks(s, h, k))
    ensures forall p :: p in RankedPeaks(s, h, k) ==> p.val >= 0 && p.idx < k
  {
    var r := RankedPeaks(s, h, k);
    RankedPeaksRanked(s, h, k);
    RankedPeaksMembers(s, h, k);
    forall a, b | 0 <= a < b < |r| ensures r[a].idx != r[b].idx {
      assert r[a] in r && r[b] in r;
    }
    forall p | p in r ensures p.val >= 0 {
      assert p.val == WindowMax(s, h, p.idx);
    }
  }
}
