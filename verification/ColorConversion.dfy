/**
 * middleware/image/color_lut.c and the YUYV conversion of middleware/image/image.c: fixed-point
 * arithmetic by table, 15 fractional bits, checked against the limited-range inverse of section 2.5
 * of ITU-R BT.601.
 */
module ColorConversion {
  import opened Types

  // ---------- the tables ----------

  const PRECISION := 32768
  const COEFFICIENT_Y := 38142
  const COEFFICIENT_RV := 52298
  const COEFFICIENT_GU := 12812
  const COEFFICIENT_GV := 26640
  const COEFFICIENT_BU := 66126

  function CoefficientsY(i: byte): int {
    COEFFICIENT_Y * (i - 16) + PRECISION / 2
  }

  function CoefficientsRV(i: byte): int {
    COEFFICIENT_RV * (i - 128)
  }

  function CoefficientsGU(i: byte): int {
    -COEFFICIENT_GU * (i - 128)
  }

  function CoefficientsGV(i: byte): int {
    -COEFFICIENT_GV * (i - 128)
  }

  function CoefficientsBU(i: byte): int {
    COEFFICIENT_BU * (i - 128)
  }

  /** Each constant is the decimal coefficient scaled by the precision, to the nearest integer. */
  lemma ConstantsAreRounded()
    ensures Nearest(COEFFICIENT_Y, 1.164) && Nearest(COEFFICIENT_RV, 1.596) && Nearest(COEFFICIENT_GU, 0.391)
    ensures Nearest(COEFFICIENT_GV, 0.813) && Nearest(COEFFICIENT_BU, 2.018)
  {
  }

  predicate Nearest(c: int, x: real) {
    -0.5 <= c as real - x * (PRECISION as real) < 0.5
  }

  // ---------- one pixel ----------

  /** C's integer division: towards zero. */
  function TruncDiv(a: int, b: int): int
    requires b > 0
  {
    if a >= 0 then a / b else -((-a) / b)
  }

  function Clamp(x: int): byte {
    if x > 255 then 255 else if x < 0 then 0 else x
  }

  /** The nearest integer to n / PRECISION, halves going up. */
  function RoundHalfUp(n: int): int {
    (n + PRECISION / 2) / PRECISION
  }

  datatype Rgb = Rgb(r: byte, g: byte, b: byte)

  /** The pixel by formula: scaled sums, rounded to the nearest integer and clamped. */
  function RoundedPixel(y: byte, u: byte, v: byte): Rgb {
    Rgb(
      Clamp(RoundHalfUp(COEFFICIENT_Y * (y - 16) + COEFFICIENT_RV * (v - 128))),
      Clamp(RoundHalfUp(COEFFICIENT_Y * (y - 16) - COEFFICIENT_GU * (u - 128) - COEFFICIENT_GV * (v - 128))),
      Clamp(RoundHalfUp(COEFFICIENT_Y * (y - 16) + COEFFICIENT_BU * (u - 128))))
  }

  predicate FitsInt32(x: int) {
    -0x8000_0000 <= x < 0x8000_0000
  }

  /** Truncating instead of flooring differs only below zero, where the clamp hides it. */
  lemma TruncationIsRounding(n: int)
    ensures Clamp(TruncDiv(n + PRECISION / 2, PRECISION)) == Clamp(RoundHalfUp(n))
  {
  }

  /** No intermediate value leaves the 32-bit int. */
  lemma SumsFit(y: byte, u: byte, v: byte)
    ensures FitsInt32(CoefficientsY(y)) && FitsInt32(CoefficientsY(y) + CoefficientsRV(v))
    ensures FitsInt32(CoefficientsY(y) + CoefficientsGU(u))
    ensures FitsInt32(CoefficientsY(y) + CoefficientsGU(u) + CoefficientsGV(v))
    ensures FitsInt32(CoefficientsY(y) + CoefficientsBU(u))
  {
  }

  /** The formula with the constants written out. */
  lemma PixelInNumbers(y: byte, u: byte, v: byte)
    ensures var p := RoundedPixel(y, u, v);
            && p.r == Clamp((38142 * (y - 16) + 52298 * (v - 128) + 16384) / 32768)
            && p.g == Clamp((38142 * (y - 16) - 12812 * (u - 128) - 26640 * (v - 128) + 16384) / 32768)
            && p.b == Clamp((38142 * (y - 16) + 66126 * (u - 128) + 16384) / 32768)
  {
  }

  /** yuv2rgb: table sums, truncating division, then both clamps, one channel after the other. */
  method Yuv2Rgb(y: byte, u: byte, v: byte) returns (r: byte, g: byte, b: byte)
    ensures Rgb(r, g, b) == RoundedPixel(y, u, v)
  {
    hide TruncDiv, RoundHalfUp, FitsInt32;
    SumsFit(y, u, v);
    var rr := CoefficientsY(y) + CoefficientsRV(v);
    var gg := CoefficientsY(y) + CoefficientsGU(u) + CoefficientsGV(v);
    var bb := CoefficientsY(y) + CoefficientsBU(u);
    assert FitsInt32(rr) && FitsInt32(gg) && FitsInt32(bb);
    TruncationIsRounding(rr - PRECISION / 2);
    TruncationIsRounding(gg - PRECISION / 2);
    TruncationIsRounding(bb - PRECISION / 2);
    rr := TruncDiv(rr, PRECISION);
    gg := TruncDiv(gg, PRECISION);
    bb := TruncDiv(bb, PRECISION);
    if rr > 255 { rr := 255; }
    if rr < 0 { rr := 0; }
    if gg > 255 { gg := 255; }
    if gg < 0 { gg := 0; }
    if bb > 255 { bb := 255; }
    if bb < 0 { bb := 0; }
    r, g, b := rr, gg, bb;
  }

  // ---------- against the rational formula ----------

  function ClampReal(x: real): real {
    if x > 255.0 then 255.0 else if x < 0.0 then 0.0 else x
  }

  predicate Near(x: byte, exact: real) {
    -0.503 <= x as real - ClampReal(exact) <= 0.503
  }

  /** For every input the three channels lie within 0.503 of the clamped rational formula. */
  lemma PixelIsAccurate(y: byte, u: byte, v: byte)
    ensures var p := RoundedPixel(y, u, v);
            && Near(p.r, 1.164 * (y as real - 16.0) + 1.596 * (v as real - 128.0))
            && Near(p.g, 1.164 * (y as real - 16.0) - 0.391 * (u as real - 128.0) - 0.813 * (v as real - 128.0))
            && Near(p.b, 1.164 * (y as real - 16.0) + 2.018 * (u as real - 128.0))
  {
  }

  // ---------- a whole frame ----------

  /** Pixel p of a YUYV frame: its own luma, and the chroma pair it shares with its neighbour. */
  function PixelOf(src: seq<byte>, p: nat): Rgb
    requires |src| % 4 == 0 && p < |src| / 2
  {
    RoundedPixel(src[2 * p], src[4 * (p / 2) + 1], src[4 * (p / 2) + 3])
  }

  /** Byte k of the RGB frame: one channel of pixel k / 3. */
  function ByteOf(src: seq<byte>, k: nat): byte
    requires |src| % 4 == 0 && k < 3 * (|src| / 2)
  {
    var p := PixelOf(src, k / 3);
    if k % 3 == 0 then p.r else if k % 3 == 1 then p.g else p.b
  }

  /** The six bytes that the n-th four bytes of input determine: from 4n to 6n. */
  lemma BytesOfPair(src: seq<byte>, n: nat)
    requires |src| % 4 == 0 && n < |src| / 4
    ensures 4 * n + 4 <= |src| && 6 * n + 6 <= 3 * (|src| / 2)
    ensures var p := RoundedPixel(src[4 * n], src[4 * n + 1], src[4 * n + 3]);
            ByteOf(src, 6 * n) == p.r && ByteOf(src, 6 * n + 1) == p.g && ByteOf(src, 6 * n + 2) == p.b
    ensures var p := RoundedPixel(src[4 * n + 2], src[4 * n + 1], src[4 * n + 3]);
            ByteOf(src, 6 * n + 3) == p.r && ByteOf(src, 6 * n + 4) == p.g && ByteOf(src, 6 * n + 5) == p.b
  {
    hide RoundedPixel;
    assert (6 * n) / 3 == (6 * n + 1) / 3 == (6 * n + 2) / 3 == 2 * n;
    assert (6 * n + 3) / 3 == (6 * n + 4) / 3 == (6 * n + 5) / 3 == 2 * n + 1;
    assert (2 * n) / 2 == (2 * n + 1) / 2 == n;
  }

  /** The YUYV branch of rgb888_convert: two pixels a turn, 4 bytes in and 6 bytes out. */
  method ConvertYuyv(src: seq<byte>, dest: array<byte>)
    requires |src| % 4 == 0 && dest.Length >= 3 * (|src| / 2)
    modifies dest
    ensures forall k :: 0 <= k < 3 * (|src| / 2) ==> dest[k] == ByteOf(src, k)
    ensures forall k :: 3 * (|src| / 2) <= k < dest.Length ==> dest[k] == old(dest[k])
  {
    hide RoundedPixel, ByteOf;
    var i, j := 0, 0;
    ghost var groups, n := |src| / 4, 0;
    while i < |src|
      invariant 0 <= n <= groups && i == 4 * n && j == 6 * n
      invariant forall k :: 0 <= k < j ==> dest[k] == ByteOf(src, k)
      invariant forall k :: j <= k < dest.Length ==> dest[k] == old(dest[k])
    {
      var y, u, y2, v := src[i], src[i + 1], src[i + 2], src[i + 3];
      BytesOfPair(src, n);
      var r, g, b := Yuv2Rgb(y, u, v);
      dest[j], dest[j + 1], dest[j + 2] := r, g, b;
      r, g, b := Yuv2Rgb(y2, u, v);
      dest[j + 3], dest[j + 4], dest[j + 5] := r, g, b;
      i, j, n := i + 4, j + 6, n + 1;
    }
  }
}
