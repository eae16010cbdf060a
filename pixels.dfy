/**
 * Pixel unpacking: 2-byte packed pixels (5-5-5 or 5-6-5) are turned into
 * RGB8 triples; 24 bpp data is passed through unchanged.
 */
module Pixels {
  import opened Wrappers

  /** One decoded pixel, each channel an 8-bit value. */
  datatype Rgb = Rgb(r: bv8, g: bv8, b: bv8)

  /** The two packings the converters understand. */
  datatype Packing = Rgb555 | Rgb565

  /** The byte swap of a 16-bit value; the shift left drops the high byte, as the
      assignment back into a uint16_t does. */
  function Swap16(v: bv16): (w: bv16)
    ensures w & 0xff == v >> 8 && w >> 8 == v & 0xff
  {
    (v << 8) | (v >> 8)
  }

  lemma SwapInvolution(v: bv16)
    ensures Swap16(Swap16(v)) == v
  {
  }

  /** The value the 15 bpp converter assembles from a byte pair: first byte high. */
  function Word15(b0: bv8, b1: bv8, littleEndian: bool): (v: bv16)
    ensures !littleEndian ==> v >> 8 == b0 as bv16 && v & 0xff == b1 as bv16
    ensures littleEndian ==> v >> 8 == b1 as bv16 && v & 0xff == b0 as bv16
  {
    var v := ((b0 as bv16) << 8) | (b1 as bv16);
    if littleEndian then Swap16(v) else v
  }

  /** The value the 16 bpp converter assembles from a byte pair: second byte high. */
  function Word16(b0: bv8, b1: bv8, littleEndian: bool): (v: bv16)
    ensures !littleEndian ==> v >> 8 == b1 as bv16 && v & 0xff == b0 as bv16
    ensures littleEndian ==> v >> 8 == b0 as bv16 && v & 0xff == b1 as bv16
  {
    var v := ((b1 as bv16) << 8) | (b0 as bv16);
    if littleEndian then Swap16(v) else v
  }

  /** Setting the endianness flag is the same as swapping the two bytes. */
  lemma Word15LittleEndian(b0: bv8, b1: bv8)
    ensures Word15(b0, b1, true) == Word15(b1, b0, false)
  {
  }

  lemma Word16LittleEndian(b0: bv8, b1: bv8)
    ensures Word16(b0, b1, true) == Word16(b1, b0, false)
  {
  }

  /** The two converters read a byte pair in opposite orders. */
  lemma WordByteOrder(b0: bv8, b1: bv8, littleEndian: bool)
    ensures Word16(b0, b1, littleEndian) == Word15(b1, b0, littleEndian)
  {
  }

  /** 5-5-5: bits 14-10, 9-5 and 4-0 moved to the top five bits of a byte; bit 15 unused. */
  function Decode15(v: bv16): (c: Rgb)
    ensures c.r & 7 == 0 && c.g & 7 == 0 && c.b & 7 == 0
  {
    Rgb(((v & 0x7c00) >> 7) as bv8, ((v & 0x03e0) >> 2) as bv8, ((v & 0x001f) << 3) as bv8)
  }

  /** Bit 15 plays no part in a 5-5-5 pixel. */
  lemma Decode15IgnoresTopBit(v: bv16)
    ensures Decode15(v) == Decode15(v & 0x7fff)
  {
  }

  /** 5-6-5: bits 15-11, 10-5 and 4-0 moved to the top bits of a byte. */
  function Decode16(v: bv16): (c: Rgb)
    ensures c.r & 7 == 0 && c.g & 3 == 0 && c.b & 7 == 0
  {
    Rgb(((v & 0xf800) >> 8) as bv8, ((v & 0x07e0) >> 3) as bv8, ((v & 0x001f) << 3) as bv8)
  }

  /** Packing of a colour into 5-5-5, keeping the top five bits of each channel. */
  function Encode15(c: Rgb): bv16
  {
    (((c.r >> 3) as bv16) << 10) | (((c.g >> 3) as bv16) << 5) | ((c.b >> 3) as bv16)
  }

  /** Packing of a colour into 5-6-5. */
  function Encode16(c: Rgb): bv16
  {
    (((c.r >> 3) as bv16) << 11) | (((c.g >> 2) as bv16) << 5) | ((c.b >> 3) as bv16)
  }

  /** Decoding loses exactly the low bits a packed field cannot hold. */
  lemma Rgb555RoundTrip(c: Rgb, v: bv16)
    ensures Decode15(Encode15(c)) == Rgb(c.r & 0xf8, c.g & 0xf8, c.b & 0xf8)
    ensures Encode15(Decode15(v)) == v & 0x7fff
  {
  }

  lemma Rgb565RoundTrip(c: Rgb, v: bv16)
    ensures Decode16(Encode16(c)) == Rgb(c.r & 0xf8, c.g & 0xfc, c.b & 0xf8)
    ensures Encode16(Decode16(v)) == v
  {
  }

  /** The pixel held by byte pair `p` of `bytes`. */
  function PixelAt(bytes: seq<bv8>, fmt: Packing, littleEndian: bool, p: nat): Rgb
    requires 2 * p + 1 < |bytes|
  {
    match fmt
    case Rgb555 => Decode15(Word15(bytes[2 * p], bytes[2 * p + 1], littleEndian))
    case Rgb565 => Decode16(Word16(bytes[2 * p], bytes[2 * p + 1], littleEndian))
  }

  function Channels(c: Rgb): seq<bv8>
  {
    [c.r, c.g, c.b]
  }

  /** The RGB8 bytes of the first `k` pixels of a packed buffer. */
  function UnpackPairs(bytes: seq<bv8>, fmt: Packing, littleEndian: bool, k: nat): (rgb: seq<bv8>)
    requires 2 * k <= |bytes|
    ensures |rgb| == 3 * k
  {
    if k == 0 then []
    else UnpackPairs(bytes, fmt, littleEndian, k - 1) + Channels(PixelAt(bytes, fmt, littleEndian, k - 1))
  }

  /** The RGB8 bytes of a whole packed buffer; a trailing odd byte holds no pixel. */
  function Unpack(bytes: seq<bv8>, fmt: Packing, littleEndian: bool): seq<bv8>
  {
    UnpackPairs(bytes, fmt, littleEndian, |bytes| / 2)
  }

  /** Byte 3*p+c of the unpacked buffer is channel c of pixel p. */
  lemma {:induction false} UnpackAt(bytes: seq<bv8>, fmt: Packing, littleEndian: bool, k: nat, p: nat, c: nat)
    requires 2 * k <= |bytes| && p < k && c < 3
    ensures UnpackPairs(bytes, fmt, littleEndian, k)[3 * p + c] == Channels(PixelAt(bytes, fmt, littleEndian, p))[c]
  {
    if p < k - 1 {
      UnpackAt(bytes, fmt, littleEndian, k - 1, p, c);
    }
  }

  /** The buffer with the two bytes of every complete pair exchanged. */
  function SwapPairs(bytes: seq<bv8>): (s: seq<bv8>)
    ensures |s| == |bytes|
  {
    seq(|bytes|, i requires 0 <= i < |bytes| =>
      if i % 2 == 0 && i + 1 < |bytes| then bytes[i + 1]
      else if i % 2 == 1 then bytes[i - 1]
      else bytes[i])
  }

  /** Decoding with the little-endian flag set equals decoding the pair-swapped buffer without it. */
  lemma {:induction false} UnpackLittleEndian(bytes: seq<bv8>, fmt: Packing, k: nat)
    requires 2 * k <= |bytes|
    ensures UnpackPairs(bytes, fmt, true, k) == UnpackPairs(SwapPairs(bytes), fmt, false, k)
  {
    if k > 0 {
      UnpackLittleEndian(bytes, fmt, k - 1);
      var s := SwapPairs(bytes);
      assert s[2 * (k - 1)] == bytes[2 * (k - 1) + 1];
      assert s[2 * (k - 1) + 1] == bytes[2 * (k - 1)];
      Word15LittleEndian(bytes[2 * (k - 1)], bytes[2 * (k - 1) + 1]);
      Word16LittleEndian(bytes[2 * (k - 1)], bytes[2 * (k - 1) + 1]);
    }
  }

  /** Iterations of the converters' loop as written: it steps two bytes at a time
      while the read position is below the input size, so an odd size gets a last,
      half-filled pair. */
  function ConvertLoopIterations(inSize: nat): (n: nat)
    ensures 2 * n >= inSize && 2 * n <= inSize + 1
  {
    if inSize == 0 then 0
    else if inSize == 1 then 1
    else 1 + ConvertLoopIterations(inSize - 2)
  }

  /** Bytes the converters allocate for their output. */
  function OutputSize(inSize: nat): nat
  {
    inSize / 2 * 3
  }

  /** As written, an odd input size makes the loop write three bytes past the output
      buffer and read one byte past the input. */
  lemma OddSizeOverrun(inSize: nat)
    requires inSize % 2 == 1
    ensures 3 * ConvertLoopIterations(inSize) == OutputSize(inSize) + 3
    ensures 2 * ConvertLoopIterations(inSize) == inSize + 1
  {
  }

  /** convert15_to_rgb with the loop bound on whole pairs: the output is the 5-5-5
      decoding of every pair, written into a buffer of exactly OutputSize bytes. */
  method Convert15ToRgb(inBuf: seq<bv8>, littleEndian: bool) returns (out: array<bv8>)
    ensures out.Length == OutputSize(|inBuf|)
    ensures out[..] == Unpack(inBuf, Rgb555, littleEndian)
  {
    ghost var n := |inBuf| / 2;
    ghost var rgb := Unpack(inBuf, Rgb555, littleEndian);
    out := new bv8[|inBuf| / 2 * 3];
    var p, q := 0, 0;
    ghost var k := 0;
    while p + 1 < |inBuf|
      invariant p == 2 * k && q == 3 * k && k <= n && out.Length == |rgb| == 3 * n
      invariant forall i :: 0 <= i < q ==> out[i] == rgb[i]
    {
      var c := Decode15(Word15(inBuf[p], inBuf[p + 1], littleEndian));
      UnpackAt(inBuf, Rgb555, littleEndian, n, k, 0);
      UnpackAt(inBuf, Rgb555, littleEndian, n, k, 1);
      UnpackAt(inBuf, Rgb555, littleEndian, n, k, 2);
      assert c == PixelAt(inBuf, Rgb555, littleEndian, k);
      assert rgb[q] == c.r && rgb[q + 1] == c.g && rgb[q + 2] == c.b;
      out[q], out[q + 1], out[q + 2] := c.r, c.g, c.b;
      p, q, k := p + 2, q + 3, k + 1;
    }
    assert out[..] == rgb;
  }

  /** convert16_to_rgb with the loop bound on whole pairs: the 5-6-5 decoding of every pair. */
  method Convert16ToRgb(inBuf: seq<bv8>, littleEndian: bool) returns (out: array<bv8>)
    ensures out.Length == OutputSize(|inBuf|)
    ensures out[..] == Unpack(inBuf, Rgb565, littleEndian)
  {
    ghost var n := |inBuf| / 2;
    ghost var rgb := Unpack(inBuf, Rgb565, littleEndian);
    out := new bv8[|inBuf| / 2 * 3];
    var p, q := 0, 0;
    ghost var k := 0;
    while p + 1 < |inBuf|
      invariant p == 2 * k && q == 3 * k && k <= n && out.Length == |rgb| == 3 * n
      invariant forall i :: 0 <= i < q ==> out[i] == rgb[i]
    {
      var c := Decode16(Word16(inBuf[p], inBuf[p + 1], littleEndian));
      UnpackAt(inBuf, Rgb565, littleEndian, n, k, 0);
      UnpackAt(inBuf, Rgb565, littleEndian, n, k, 1);
      UnpackAt(inBuf, Rgb565, littleEndian, n, k, 2);
      assert c == PixelAt(inBuf, Rgb565, littleEndian, k);
      assert rgb[q] == c.r && rgb[q + 1] == c.g && rgb[q + 2] == c.b;
      out[q], out[q + 1], out[q + 2] := c.r, c.g, c.b;
      p, q, k := p + 2, q + 3, k + 1;
    }
    assert out[..] == rgb;
  }

  /** The format dispatch in main: 24 bpp data is used as it stands from the offset on,
      15 and 16 bpp data is converted, any other depth is refused. */
  method UnpackPixels(raw: seq<bv8>, bpp: int, offset: nat, littleEndian: bool) returns (rgb: Option<seq<bv8>>)
    requires offset <= |raw|
    ensures bpp == 24 ==> rgb == Some(raw[offset..])
    ensures bpp == 16 ==> rgb == Some(Unpack(raw[offset..], Rgb565, littleEndian))
    ensures bpp == 15 ==> rgb == Some(Unpack(raw[offset..], Rgb555, littleEndian))
    ensures rgb.None? <==> bpp !in {15, 16, 24}
  {
    if bpp == 24 {
      rgb := Some(raw[offset..]);
    } else if bpp == 16 {
      var out := Convert16ToRgb(raw[offset..], littleEndian);
      rgb := Some(out[..]);
    } else if bpp == 15 {
      var out := Convert15ToRgb(raw[offset..], littleEndian);
      rgb := Some(out[..]);
    } else {
      rgb := None;
    }
  }
}
