/** Mapping a luminance to a glyph of a density palette: the glyph at index
    ceil((N - 1) * L / 255) of a palette of N glyphs. */
module Glyphs {
  import opened Grayscale
  import opened Arithmetic

  /** A non-empty ordered run of glyphs. */
  type Palette = p: string | |p| >= 1 witness " "

  /** The short palette, chosen by `-simple`: blank first, densest last. */
  const MapSimple: string := " .:-=+*#%@"

  /** The long palette, used otherwise: densest first, blank last. It is one
      69-glyph string, written here in runs of ten. */
  const MapLarge: string :=
    "$@B%8&WM#*" + "oahkbdpqwm" + "ZO0QLCJUYX" + "zcvunxrjft" + "/|()1{}[]?" + "-_+~<>i!lI" + ";:,\"^`'. "

  /** The palette in force for one run. */
  function SelectPalette(useSimple: bool): (p: Palette)
    ensures |p| == if useSimple then 10 else 69
    ensures '\n' !in p
    ensures useSimple ==> p[0] == ' ' && p[|p| - 1] == '@'
    ensures !useSimple ==> p[0] == '$' && p[|p| - 1] == ' '
  {
    if useSimple then MapSimple else MapLarge
  }

  /** (t + 25499) / 25500 is the ceiling of t / 25500. */
  lemma CeilingDivision(t: nat)
    ensures ((t + MaxLuminance - 1) / MaxLuminance - 1) * MaxLuminance < t
    ensures t <= ((t + MaxLuminance - 1) / MaxLuminance) * MaxLuminance
  {
  }

  /** The ceiling of t / 25500 is k when t lies in ((k - 1) * 25500, k * 25500]. */
  lemma CeilingOf(t: nat, k: nat)
    requires (k - 1) * MaxLuminance < t <= k * MaxLuminance
    ensures (t + MaxLuminance - 1) / MaxLuminance == k
  {
  }

  /** (N - 1) * L / 255 in exact arithmetic, for the luminance L that s stands for. */
  function Position(n: nat, s: Luminance): real
  {
    (n - 1) as real * Value(s) / 255.0
  }

  lemma PositionScaled(n: nat, s: Luminance)
    requires n >= 1
    ensures Position(n, s) == ((n - 1) * s) as real / MaxLuminance as real
  {
    assert ((n - 1) * s) as real == (n - 1) as real * s as real;
  }

  /** The palette index a luminance selects; it always lies within the palette. */
  function GlyphIndex(n: nat, s: Luminance): (idx: nat)
    requires n >= 1
    ensures idx < n
  {
    var t := (n - 1) * s;
    var idx := (t + MaxLuminance - 1) / MaxLuminance;
    CeilingDivision(t);
    assert t <= (n - 1) * MaxLuminance;
    CancelFactor(idx - 1, n - 1, MaxLuminance);
    idx
  }

  /** The index is the ceiling of (N - 1) * L / 255, computed exactly. */
  lemma GlyphIndexIsCeiling(n: nat, s: Luminance)
    requires n >= 1
    ensures (GlyphIndex(n, s) - 1) as real < Position(n, s) <= GlyphIndex(n, s) as real
  {
    var t := (n - 1) * s;
    var idx := GlyphIndex(n, s);
    CeilingDivision(t);
    PositionScaled(n, s);
    assert ((idx - 1) * MaxLuminance) as real < t as real <= (idx * MaxLuminance) as real;
  }

  /** The glyph a luminance selects from a palette. */
  function MapLookup(palette: Palette, s: Luminance): char
  {
    palette[GlyphIndex(|palette|, s)]
  }

  /** Black selects the first glyph and white the last, whatever the palette. */
  lemma MapLookupEndpoints(palette: Palette)
    ensures MapLookup(palette, 0) == palette[0]
    ensures MapLookup(palette, MaxLuminance) == palette[|palette| - 1]
  {
    var n := |palette|;
    assert GlyphIndex(n, 0) == 0;
    assert (n - 1) * MaxLuminance + MaxLuminance - 1 == (n - 1) * MaxLuminance + (MaxLuminance - 1);
    assert GlyphIndex(n, MaxLuminance) == n - 1;
  }

  /** A brighter pixel never selects an earlier glyph. */
  lemma GlyphIndexMonotone(n: nat, s1: Luminance, s2: Luminance)
    requires n >= 1 && s1 <= s2
    ensures GlyphIndex(n, s1) <= GlyphIndex(n, s2)
  {
    assert (n - 1) * s1 <= (n - 1) * s2;
    DivMonotone((n - 1) * s1 + MaxLuminance - 1, (n - 1) * s2 + MaxLuminance - 1, MaxLuminance);
  }

  /** Every glyph of a palette of at most 25501 glyphs is selected by some
      luminance. */
  lemma GlyphIndexCovers(n: nat, k: nat)
    requires 1 <= n <= MaxLuminance + 1 && k < n
    ensures exists s: Luminance :: GlyphIndex(n, s) == k
  {
    if n == 1 {
      assert GlyphIndex(n, 0) == k;
    } else {
      var d := n - 1;
      var s := (k * MaxLuminance) / d;
      assert s * d <= k * MaxLuminance < s * d + d;
      assert k * MaxLuminance <= d * MaxLuminance;
      CancelFactor(s, MaxLuminance, d);
      CeilingOf(d * s, k);
      assert GlyphIndex(n, s) == k;
    }
  }

  /** A luminance of 128 on the short palette: ceil(9 * 128 / 255) = 5, '+'. */
  lemma MidGrayOnShortPalette()
    ensures GlyphIndex(|MapSimple|, 12800) == 5
    ensures MapLookup(MapSimple, 12800) == '+'
  {
  }

  /** The two palettes run in opposite directions: black is blank in the
      short palette and white is blank in the long one. */
  lemma OppositePolarity()
    ensures MapLookup(SelectPalette(true), 0) == ' '
    ensures MapLookup(SelectPalette(false), MaxLuminance) == ' '
  {
    MapLookupEndpoints(MapSimple);
    MapLookupEndpoints(MapLarge);
  }
}
