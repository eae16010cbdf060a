/**
 * File names derived in main: the default output image path (the input path with the
 * extension of its last component replaced by ".png", or ".png" appended when that
 * component has none) and the debug CSV path.
 */
module Paths {
  import opened Wrappers

  /** strrchr from position `from` on: the last position at or after `from` holding c.
      Modelled as a forward scan that remembers the latest match. */
  method LastIndexOf(s: string, c: char, from: nat) returns (r: Option<nat>)
    requires from <= |s|
    ensures r.Some? ==> from <= r.value < |s| && s[r.value] == c
    ensures r.Some? ==> forall j :: r.value < j < |s| ==> s[j] != c
    ensures r.None? ==> forall j :: from <= j < |s| ==> s[j] != c
  {
    r := None;
    var i := from;
    while i < |s|
      invariant from <= i <= |s|
      invariant r.Some? ==> from <= r.value < i && s[r.value] == c
      invariant r.Some? ==> forall j :: r.value < j < i ==> s[j] != c
      invariant r.None? ==> forall j :: from <= j < i ==> s[j] != c
    {
      if s[i] == c {
        r := Some(i);
      }
      i := i + 1;
    }
  }

  /** The first n characters of p scanned from the back: the path is cut at the first
      '.' met, and kept whole if a '/' or the start comes first. */
  function StemFrom(p: string, n: nat): (r: string)
    requires n <= |p|
    ensures r == p || (|r| < n && r == p[..|r|] && p[|r|] == '.'
                       && forall j :: |r| < j < n ==> p[j] != '.' && p[j] != '/')
    ensures r == p ==> forall j :: 0 <= j < n && p[j] == '.' ==> exists m :: j < m < n && p[m] == '/'
  {
    if n == 0 then p
    else if p[n - 1] == '.' then p[..n - 1]
    else if p[n - 1] == '/' then p
    else StemFrom(p, n - 1)
  }

  /** The path without the extension of its last component. */
  function Stem(p: string): string
  {
    StemFrom(p, |p|)
  }

  /** Cutting at a dot with neither a dot nor a slash after it gives the stem. */
  lemma {:induction false} StemFromDot(p: string, n: nat, d: nat)
    requires d < n <= |p| && p[d] == '.'
    requires forall j :: d < j < n ==> p[j] != '.' && p[j] != '/'
    ensures StemFrom(p, n) == p[..d]
  {
    if n - 1 > d {
      StemFromDot(p, n - 1, d);
    }
  }

  /** With no dot and no slash after the last slash (or anywhere, if there is none),
      the stem is the whole path. */
  lemma {:induction false} StemFromWhole(p: string, n: nat, k: nat)
    requires k <= n <= |p|
    requires k == 0 || p[k - 1] == '/'
    requires forall j :: k <= j < n ==> p[j] != '.' && p[j] != '/'
    ensures StemFrom(p, n) == p
  {
    if n > k {
      StemFromWhole(p, n - 1, k);
    }
  }

  /** The default output path in main: find the last '/', then the last '.' from there
      on, copy the input up to that dot (or all of it) and append ".png". The result fits
      the strlen(input) + 5 bytes allocated for it, terminator included. */
  method DefaultOutputPath(input: string) returns (out: string)
    ensures out == Stem(input) + ".png"
    ensures |out| <= |input| + 4
  {
    var slash := LastIndexOf(input, '/', 0);
    var start := if slash.Some? then slash.value else 0;
    var dot := LastIndexOf(input, '.', start);
    var cut := if dot.Some? then dot.value else |input|;
    if dot.Some? {
      StemFromDot(input, |input|, dot.value);
    } else {
      StemFromWhole(input, |input|, if slash.Some? then slash.value + 1 else 0);
    }
    out := input[..cut] + ".png";
  }

  /** A path whose last component has an extension keeps everything before its last
      dot; one whose last component has none is kept whole. */
  lemma StemCases(p: string)
    ensures Stem(p) == p || (p[|Stem(p)|] == '.' && Stem(p) == p[..|Stem(p)|])
    ensures Stem(p) != p ==> forall j :: |Stem(p)| < j < |p| ==> p[j] != '.' && p[j] != '/'
    ensures Stem(p) == p ==> forall j :: 0 <= j < |p| && p[j] == '.' ==> exists m :: j < m < |p| && p[m] == '/'
  {
  }

  /** snprintf into the 4096-byte debug_file buffer: at most 4095 characters are kept, each
      character standing for one byte. */
  const DebugBufferSize: nat := 4096

  /** The debug CSV path: the output path followed by "-autocorr.csv", truncated to
      what the buffer holds. */
  function DebugPath(outPath: string): (r: string)
    ensures |r| < DebugBufferSize
    ensures r <= outPath + "-autocorr.csv"
    ensures |outPath| + 13 < DebugBufferSize ==> r == outPath + "-autocorr.csv"
    ensures |outPath| + 13 >= DebugBufferSize ==> |r| == DebugBufferSize - 1
  {
    var full := outPath + "-autocorr.csv";
    if |full| < DebugBufferSize then full else full[..DebugBufferSize - 1]
  }

  /** A debug path that fits names the output path and ends in the CSV suffix. */
  lemma DebugPathNamesOutput(outPath: string)
    requires |outPath| + 13 < DebugBufferSize
    ensures DebugPath(outPath)[..|outPath|] == outPath
    ensures DebugPath(outPath)[|outPath|..] == "-autocorr.csv"
  {
  }
}
