/** Reduction of an RGBA pixel buffer to a luminance per pixel, using the
    fixed weights 0.21 R + 0.72 G + 0.07 B. Luminance is kept exact as an
    integer in hundredths: the value s stands for s / 100. */
module Grayscale {

  /** One channel value of the buffer a 2D canvas hands out (0..255). */
  type Byte = x: int | 0 <= x < 256

  /** Number of buffer entries per pixel: red, green, blue, alpha. */
  const Stride: nat := 4

  /** Luminance of a white pixel, in hundredths: 255 * 100. */
  const MaxLuminance: nat := 25500

  /** A luminance in hundredths, between black (0) and white (255.00). */
  type Luminance = s: int | 0 <= s <= MaxLuminance

  /** The luminance value a scaled integer stands for. */
  function Value(s: Luminance): real
  {
    s as real / 100.0
  }

  /** Weighted sum of the three colour channels; alpha takes no part. */
  function ToGrayScale(r: Byte, g: Byte, b: Byte): (s: Luminance)
    ensures s == 0 <==> r == 0 && g == 0 && b == 0
    ensures s == MaxLuminance <==> r == 255 && g == 255 && b == 255
  {
    21 * r + 72 * g + 7 * b
  }

  /** The scaled integer stands for exactly 0.21 R + 0.72 G + 0.07 B. */
  lemma ToGrayScaleFormula(r: Byte, g: Byte, b: Byte)
    ensures Value(ToGrayScale(r, g, b)) == 0.21 * r as real + 0.72 * g as real + 0.07 * b as real
  {
  }

  /** A brighter channel never gives a darker pixel. */
  lemma ToGrayScaleMonotone(r1: Byte, g1: Byte, b1: Byte, r2: Byte, g2: Byte, b2: Byte)
    requires r1 <= r2 && g1 <= g2 && b1 <= b2
    ensures ToGrayScale(r1, g1, b1) <= ToGrayScale(r2, g2, b2)
  {
  }

  /** Luminance of every whole pixel of an RGBA buffer, in buffer order. */
  function GrayScales(data: seq<Byte>): (lums: seq<Luminance>)
    requires |data| % Stride == 0
    ensures |lums| == |data| / Stride
    ensures forall k :: 0 <= k < |lums| ==>
              lums[k] == ToGrayScale(data[Stride * k], data[Stride * k + 1], data[Stride * k + 2])
    decreases |data|
  {
    if |data| == 0 then []
    else
      var rest := GrayScales(data[Stride..]);
      var lums := [ToGrayScale(data[0], data[1], data[2])] + rest;
      assert forall k :: 1 <= k < |lums| ==> lums[k] == rest[k - 1];
      assert forall k :: 1 <= k < |lums| ==> data[Stride..][Stride * (k - 1)] == data[Stride * k];
      lums
  }

  /** The buffer walk: stride 4 from the start, reading red, green and blue
      and skipping alpha. */
  method ConvertToGrayScales(data: seq<Byte>) returns (grayScales: seq<Luminance>)
    requires |data| % Stride == 0
    ensures |grayScales| == |data| / Stride
    ensures forall k :: 0 <= k < |grayScales| ==>
              grayScales[k] == ToGrayScale(data[Stride * k], data[Stride * k + 1], data[Stride * k + 2])
    ensures grayScales == GrayScales(data)
  {
    grayScales := [];
    var i := 0;
    while i < |data|
      invariant 0 <= i <= |data| && i % Stride == 0
      invariant |grayScales| == i / Stride
      invariant forall k :: 0 <= k < |grayScales| ==>
                  grayScales[k] == ToGrayScale(data[Stride * k], data[Stride * k + 1], data[Stride * k + 2])
    {
      var r := data[i];
      var g := data[i + 1];
      var b := data[i + 2];
      grayScales := grayScales + [ToGrayScale(r, g, b)];
      i := i + Stride;
    }
    assert |grayScales| == |GrayScales(data)|;
  }

  /** The colour channels of pixel k sit at offsets 0, 1 and 2 within its
      stride; offset 3 is alpha. */
  lemma PixelOffsets(k: nat)
    ensures (Stride * k) % Stride == 0
    ensures (Stride * k + 1) % Stride == 1
    ensures (Stride * k + 2) % Stride == 2
  {
  }

  /** Two buffers that differ only in alpha bytes give the same luminances. */
  lemma AlphaIgnored(data1: seq<Byte>, data2: seq<Byte>)
    requires |data1| == |data2| && |data1| % Stride == 0
    requires forall i :: 0 <= i < |data1| && i % Stride != 3 ==> data1[i] == data2[i]
    ensures GrayScales(data1) == GrayScales(data2)
  {
    var a := GrayScales(data1);
    var b := GrayScales(data2);
    forall k | 0 <= k < |a|
      ensures a[k] == b[k]
    {
      var j := Stride * k;
      PixelOffsets(k);
      assert data1[j] == data2[j] && data1[j + 1] == data2[j + 1] && data1[j + 2] == data2[j + 2];
    }
  }

  /** A buffer whose colour bytes are all 0 has luminance 0 at every pixel. */
  lemma BlackBuffer(data: seq<Byte>)
    requires |data| % Stride == 0
    requires forall i :: 0 <= i < |data| && i % Stride != 3 ==> data[i] == 0
    ensures forall k :: 0 <= k < |data| / Stride ==> GrayScales(data)[k] == 0
  {
    forall k | 0 <= k < |data| / Stride
      ensures GrayScales(data)[k] == 0
    {
      PixelOffsets(k);
      assert data[Stride * k] == 0 && data[Stride * k + 1] == 0 && data[Stride * k + 2] == 0;
    }
  }
}
