/** The pure part of the image load handler: the RGBA buffer of a canvas the
    size of the terminal becomes luminances, and those become the text block,
    with the palette chosen by the arguments. */
module Render {
  import opened Arguments
  import opened Arithmetic
  import opened Grayscale
  import opened Glyphs
  import opened Ascii

  /** `data` is the RGBA buffer of a width x height canvas: four bytes per
      pixel, width * height pixels. */
  predicate CanvasBuffer(data: seq<Byte>, width: nat, height: nat)
  {
    |data| % Stride == 0 && |data| / Stride == width * height
  }

  /** The character art for a width x height canvas whose RGBA bytes are `data`. */
  function RenderAscii(data: seq<Byte>, width: nat, height: nat, useSimple: bool): string
    requires CanvasBuffer(data, width, height)
  {
    DrawAscii(GrayScales(data), SelectPalette(useSimple), width)
  }

  /** The rendered block has one line per canvas row: `height` lines of
      exactly `width` glyphs, each ending in a break, and nothing else. */
  lemma RenderShape(data: seq<Byte>, width: nat, height: nat, useSimple: bool)
    requires width >= 1 && CanvasBuffer(data, width, height)
    ensures var ascii := RenderAscii(data, width, height, useSimple);
            && |ascii| == height * (width + 1)
            && multiset(ascii)[Newline] == height
            && (height >= 1 ==> ascii[|ascii| - 1] == Newline)
  {
    var lums := GrayScales(data);
    var palette := SelectPalette(useSimple);
    assert |lums| == width * height;
    DivModUnique(width * height, width, height, 0);
    DrawAsciiGrid(lums, palette, width);
    DrawAsciiLength(lums, palette, width);
    NewlineCount(lums, palette, width);
    assert width * height + height == height * (width + 1);
    if height >= 1 {
      assert width * height >= 1;
      GridEndsInBreak(GlyphsOf(lums, palette), width);
    }
  }

  /** A buffer of whole canvas rows renders as the reference grid of its
      pixels' glyphs: one line of `width` glyphs and a break per row. */
  lemma RenderIsGrid(data: seq<Byte>, width: nat, height: nat, useSimple: bool)
    requires width >= 1 && CanvasBuffer(data, width, height)
    ensures (|data| / Stride) % width == 0
    ensures RenderAscii(data, width, height, useSimple)
            == Grid(GlyphsOf(GrayScales(data), SelectPalette(useSimple)), width)
  {
    DivModUnique(width * height, width, height, 0);
    DrawAsciiGrid(GrayScales(data), SelectPalette(useSimple), width);
  }

  /** The alpha byte of a pixel never changes the rendered block. */
  lemma RenderIgnoresAlpha(data1: seq<Byte>, data2: seq<Byte>, width: nat, height: nat, useSimple: bool)
    requires |data1| == |data2| && CanvasBuffer(data1, width, height)
    requires forall i :: 0 <= i < |data1| && i % Stride != 3 ==> data1[i] == data2[i]
    ensures RenderAscii(data1, width, height, useSimple) == RenderAscii(data2, width, height, useSimple)
  {
    AlphaIgnored(data1, data2);
  }

  /** With the break characters removed, the block is the glyph of each pixel
      in buffer order, taken from the short palette exactly when `-simple`
      appears among the command-line arguments after the feed name. */
  lemma RenderGlyphsFollowArguments(argv: seq<string>, data: seq<Byte>, width: nat, height: nat)
    requires CanvasBuffer(data, width, height)
    ensures var ascii := RenderAscii(data, width, height, FormatArguments(Trailing(argv)).useSimple);
            var simple := exists i :: 3 <= i < |argv| && argv[i] == SimpleFlag;
            StripNewlines(ascii) == GlyphsOf(GrayScales(data), if simple then MapSimple else MapLarge)
  {
    var trailing := Trailing(argv);
    var useSimple := FormatArguments(trailing).useSimple;
    assert useSimple == (SimpleFlag in trailing);
    if SimpleFlag in trailing {
      var j :| 0 <= j < |trailing| && trailing[j] == SimpleFlag;
      assert argv[j + 3] == SimpleFlag;
    }
    var palette := SelectPalette(useSimple);
    GlyphsInOrder(GrayScales(data), palette, width);
  }

  lemma BlackGlyphs(lums: seq<Luminance>, palette: Palette)
    requires forall k :: 0 <= k < |lums| ==> lums[k] == 0
    ensures forall k :: 0 <= k < |lums| ==> GlyphsOf(lums, palette)[k] == MapLookup(palette, 0)
  {
  }

  /** An all-black canvas renders as the first glyph of the palette
      everywhere: blanks with `-simple`, '$' otherwise. */
  lemma BlackCanvas(data: seq<Byte>, width: nat, height: nat, useSimple: bool)
    requires CanvasBuffer(data, width, height)
    requires forall i :: 0 <= i < |data| && i % Stride != 3 ==> data[i] == 0
    ensures var glyphs := StripNewlines(RenderAscii(data, width, height, useSimple));
            forall k :: 0 <= k < |glyphs| ==> glyphs[k] == if useSimple then ' ' else '$'
  {
    var lums := GrayScales(data);
    var palette := SelectPalette(useSimple);
    var blank := if useSimple then ' ' else '$';
    BlackBuffer(data);
    MapLookupEndpoints(palette);
    BlackGlyphs(lums, palette);
    GlyphsInOrder(lums, palette, width);
  }
}
