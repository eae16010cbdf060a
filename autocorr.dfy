/**
 * Lag autocorrelation of an RGB8 buffer: for each pixel lag L, the sum over all
 * pixel pairs (p, p+L) of the dot product of their colours centred on 128.
 * The source accumulates into doubles; every term is an integer product of
 * values in [-128, 127], so the sums are exact integers and are modelled as int.
 */
module Autocorr {

  /** corr_size: the lag range, bounded by three times the maximum width plus two
      and by the number of pixels. */
  function CorrSize(maxWidth: nat, rgbSize: nat): (cs: nat)
    ensures cs <= rgbSize / 3 && cs <= 3 * maxWidth + 2
    ensures cs == rgbSize / 3 || cs == 3 * maxWidth + 2
  {
    if 3 * maxWidth + 2 < rgbSize / 3 then 3 * maxWidth + 2 else rgbSize / 3
  }

  /** A channel value centred on 128. */
  function Centred(x: bv8): (c: int)
    ensures -128 <= c <= 127
  {
    x as int - 128
  }

  /** Dot product of the centred colours of pixels p and q. */
  function Dot(rgb: seq<bv8>, p: nat, q: nat): int
    requires 3 * p + 3 <= |rgb| && 3 * q + 3 <= |rgb|
  {
    Centred(rgb[3 * p]) * Centred(rgb[3 * q])
    + Centred(rgb[3 * p + 1]) * Centred(rgb[3 * q + 1])
    + Centred(rgb[3 * p + 2]) * Centred(rgb[3 * q + 2])
  }

  /** Sum of Dot(p, p + lag) over the first m pixels p. */
  function CorrSum(rgb: seq<bv8>, lag: nat, m: nat): int
    requires 3 * (m + lag) <= |rgb|
  {
    if m == 0 then 0 else CorrSum(rgb, lag, m - 1) + Dot(rgb, m - 1, m - 1 + lag)
  }

  /** corr[lag]: the sum over every pixel pair lag apart. */
  function Corr(rgb: seq<bv8>, lag: nat): int
    requires lag <= |rgb| / 3
  {
    CorrSum(rgb, lag, |rgb| / 3 - lag)
  }

  /** The correlations at lags 0 .. n-1. */
  function CorrPrefix(rgb: seq<bv8>, n: nat): (s: seq<int>)
    requires n <= |rgb| / 3
    ensures |s| == n
  {
    if n == 0 then [] else CorrPrefix(rgb, n - 1) + [Corr(rgb, n - 1)]
  }

  /** Entry lag of the prefix is the correlation at that lag. */
  lemma {:induction false} CorrPrefixAt(rgb: seq<bv8>, n: nat, lag: nat)
    requires lag < n <= |rgb| / 3
    ensures CorrPrefix(rgb, n)[lag] == Corr(rgb, lag)
  {
    if lag < n - 1 {
      CorrPrefixAt(rgb, n - 1, lag);
    }
  }

  /** The whole correlation series the detection computes: one entry per lag below
      corr_size. */
  function CorrSeries(rgb: seq<bv8>, maxWidth: nat): (s: seq<int>)
    ensures |s| == CorrSize(maxWidth, |rgb|)
  {
    CorrPrefix(rgb, CorrSize(maxWidth, |rgb|))
  }

  /** Each entry of the series is the correlation at its lag. */
  lemma CorrSeriesAt(rgb: seq<bv8>, maxWidth: nat, lag: nat)
    requires lag < CorrSize(maxWidth, |rgb|)
    ensures CorrSeries(rgb, maxWidth)[lag] == Corr(rgb, lag)
  {
    CorrPrefixAt(rgb, CorrSize(maxWidth, |rgb|), lag);
  }

  /** Iterations of the inner loop of detect_width as written: q starts at byte qStart
      and steps by 3 while it is below the buffer size. */
  function InnerLoopIterations(qStart: nat, size: nat): (n: nat)
    ensures qStart < size ==> size <= qStart + 3 * n < size + 3
    ensures qStart >= size ==> n == 0
    decreases size - qStart
  {
    if qStart >= size then 0 else 1 + InnerLoopIterations(qStart + 3, size)
  }

  /** As written, a buffer whose size is not a multiple of 3 (possible on the 24 bpp
      path) makes the last iteration start a pixel at q with q < size but q + 2 >= size:
      byte q+2 is read past the end, and so is q+1 when size % 3 == 1. */
  lemma UnalignedOverread(size: nat, offset: nat)
    requires size % 3 != 0 && 3 * offset < size
    ensures InnerLoopIterations(3 * offset, size) >= 1
    ensures var q := 3 * offset + 3 * (InnerLoopIterations(3 * offset, size) - 1);
      q < size <= q + 2 && (size % 3 == 1 <==> size == q + 1)
  {
    var n := InnerLoopIterations(3 * offset, size);
    var q := 3 * offset + 3 * (n - 1);
    assert q % 3 == 0 by {
      assert q == 3 * (offset + n - 1);
    }
  }

  /** On whole pixels the loop as written stays inside the buffer. */
  lemma AlignedInBounds(size: nat, offset: nat)
    requires size % 3 == 0 && 3 * offset <= size
    ensures 3 * offset + 3 * InnerLoopIterations(3 * offset, size) == size
  {
  }

  /** The inner loop of detect_width for one offset: it walks p and q = p + 3*offset
      through the buffer, summing the centred dot products, while a whole pixel remains
      at q (on a buffer of whole pixels this is the source's bound q < rgb_size). */
  method CorrelateLag(rgb: seq<bv8>, offset: nat) returns (acc: int)
    requires offset <= |rgb| / 3
    ensures acc == Corr(rgb, offset)
  {
    acc := 0;
    var p, q := 0, 3 * offset;
    ghost var n := |rgb| / 3;
    assert 3 * n <= |rgb| < 3 * n + 3;
    ghost var k := 0;
    while q + 3 <= |rgb|
      invariant p == 3 * k && q == 3 * (k + offset) && k + offset <= n
      invariant acc == CorrSum(rgb, offset, k)
    {
      var p0, p1, p2 := rgb[p] as int - 128, rgb[p + 1] as int - 128, rgb[p + 2] as int - 128;
      var q0, q1, q2 := rgb[q] as int - 128, rgb[q + 1] as int - 128, rgb[q + 2] as int - 128;
      acc := acc + (p0 * q0 + p1 * q1 + p2 * q2);
      p, q, k := p + 3, q + 3, k + 1;
    }
    assert k == n - offset;
  }

  /** corr[0] is a sum of squares. */
  lemma {:induction false} CorrZeroNonNegative(rgb: seq<bv8>, m: nat)
    requires 3 * m <= |rgb|
    ensures CorrSum(rgb, 0, m) >= 0
  {
    if m > 0 {
      CorrZeroNonNegative(rgb, m - 1);
      var p := m - 1;
      SquareNonNegative(Centred(rgb[3 * p]));
      SquareNonNegative(Centred(rgb[3 * p + 1]));
      SquareNonNegative(Centred(rgb[3 * p + 2]));
    }
  }

  lemma SquareNonNegative(x: int)
    ensures x * x >= 0
  {
  }

  lemma MulMono(x: int, bound: int, y: int)
    requires 0 <= x <= bound && y >= 0
    ensures x * y <= bound * y
  {
    assert bound * y - x * y == (bound - x) * y;
  }

  /** Every product of two centred channels lies within 128 * 128 in magnitude. */
  lemma ProductBound(a: int, b: int)
    requires -128 <= a <= 127 && -128 <= b <= 127
    ensures -16384 <= a * b <= 16384
  {
    var x := if a < 0 then -a else a;
    var y := if b < 0 then -b else b;
    MulMono(x, 128, y);
    MulMono(y, 128, 128);
    assert x * y <= 16384;
    if (a < 0) == (b < 0) {
      assert a * b == x * y;
    } else {
      assert a * b == -(x * y);
    }
  }

  /** The partial sums stay within 49152 per pixel pair, so the doubles of the source
      hold them exactly for any buffer below 2^37 pixels. */
  lemma {:induction false} CorrSumBound(rgb: seq<bv8>, lag: nat, m: nat)
    requires 3 * (m + lag) <= |rgb|
    ensures -49152 * m <= CorrSum(rgb, lag, m) <= 49152 * m
  {
    if m > 0 {
      CorrSumBound(rgb, lag, m - 1);
      var p, q := m - 1, m - 1 + lag;
      ProductBound(Centred(rgb[3 * p]), Centred(rgb[3 * q]));
      ProductBound(Centred(rgb[3 * p + 1]), Centred(rgb[3 * q + 1]));
      ProductBound(Centred(rgb[3 * p + 2]), Centred(rgb[3 * q + 2]));
    }
  }

  /** A buffer of uniform mid-grey (every byte 128) has no correlation at any lag. */
  lemma {:induction false} GreyCorrSumZero(rgb: seq<bv8>, lag: nat, m: nat)
    requires 3 * (m + lag) <= |rgb|
    requires forall i :: 0 <= i < |rgb| ==> rgb[i] == 128
    ensures CorrSum(rgb, lag, m) == 0
  {
    if m > 0 {
      GreyCorrSumZero(rgb, lag, m - 1);
      var p := m - 1;
      assert Centred(rgb[3 * p]) == 0 && Centred(rgb[3 * p + 1]) == 0 && Centred(rgb[3 * p + 2]) == 0;
    }
  }
}
