/** Composition of the character-art block: one glyph per luminance, in order,
    with a line break after every element whose position closes a row. */
module Ascii {
  import opened Arithmetic
  import opened Grayscale
  import opened Glyphs

  const Newline: char := '\n'

  /** Whether the element at `index` closes a row of `width` elements. With a
      width of 0 the remainder is NaN in JavaScript, never equal to 0, so no
      row ever closes. */
  predicate EndsRow(index: nat, width: nat)
  {
    width > 0 && (index + 1) % width == 0
  }

  /** Number of rows that `n` elements complete. */
  function CompletedRows(n: nat, width: nat): nat
  {
    if width == 0 then 0 else n / width
  }

  /** The text one element contributes: its glyph, then a break if it closes a row. */
  function Cell(palette: Palette, width: nat, s: Luminance, index: nat): string
  {
    [MapLookup(palette, s)] + (if EndsRow(index, width) then [Newline] else [])
  }

  /** Adding one element completes one more row exactly when it closes a row. */
  lemma CompletedRowsStep(n: nat, width: nat)
    ensures CompletedRows(n + 1, width) == CompletedRows(n, width) + (if EndsRow(n, width) then 1 else 0)
  {
    if width > 0 {
      var q, r := n / width, n % width;
      if r + 1 < width {
        DivModUnique(n + 1, width, q, r + 1);
      } else {
        DivModUnique(n + 1, width, q + 1, 0);
      }
    }
  }

  /** The fold over the luminances, left to right, appending each element's cell. */
  function DrawAscii(grayScales: seq<Luminance>, palette: Palette, width: nat): string
    decreases |grayScales|
  {
    if |grayScales| == 0 then ""
    else
      var n := |grayScales| - 1;
      DrawAscii(grayScales[..n], palette, width) + Cell(palette, width, grayScales[n], n)
  }

  /** The output has one glyph per element and one break per completed row. */
  lemma {:induction false} DrawAsciiLength(grayScales: seq<Luminance>, palette: Palette, width: nat)
    ensures |DrawAscii(grayScales, palette, width)| == |grayScales| + CompletedRows(|grayScales|, width)
    decreases |grayScales|
  {
    if |grayScales| > 0 {
      var n := |grayScales| - 1;
      DrawAsciiLength(grayScales[..n], palette, width);
      CompletedRowsStep(n, width);
    }
  }

  /** The glyph of every element, in order, with no breaks. */
  function GlyphsOf(grayScales: seq<Luminance>, palette: Palette): (glyphs: string)
    ensures |glyphs| == |grayScales|
  {
    seq(|grayScales|, k requires 0 <= k < |grayScales| => MapLookup(palette, grayScales[k]))
  }

  /** The glyphs of a run are the glyphs of all but its last element, then the
      last element's glyph. */
  lemma GlyphsOfLast(grayScales: seq<Luminance>, palette: Palette)
    requires |grayScales| > 0
    ensures GlyphsOf(grayScales, palette)
            == GlyphsOf(grayScales[..|grayScales| - 1], palette) + [MapLookup(palette, grayScales[|grayScales| - 1])]
  {
    var n := |grayScales| - 1;
    var a := GlyphsOf(grayScales, palette);
    var b := GlyphsOf(grayScales[..n], palette) + [MapLookup(palette, grayScales[n])];
    forall k | 0 <= k < |a|
      ensures a[k] == b[k]
    {
      if k < n {
        assert grayScales[..n][k] == grayScales[k];
      }
    }
  }

  /** The text with every line break removed. */
  function StripNewlines(s: string): string
  {
    if |s| == 0 then ""
    else StripNewlines(s[..|s| - 1]) + (if s[|s| - 1] == Newline then "" else [s[|s| - 1]])
  }

  lemma {:induction false} StripNewlinesAppend(a: string, b: string)
    ensures StripNewlines(a + b) == StripNewlines(a) + StripNewlines(b)
    decreases |b|
  {
    if |b| == 0 {
      assert a + b == a;
    } else {
      var b' := b[..|b| - 1];
      var x := b[|b| - 1];
      var tail := if x == Newline then "" else [x];
      StripNewlinesAppend(a, b');
      assert (a + b)[..|a + b| - 1] == a + b';
      assert (a + b)[|a + b| - 1] == x;
      calc {
        StripNewlines(a + b);
        StripNewlines(a + b') + tail;
        StripNewlines(a) + StripNewlines(b') + tail;
        StripNewlines(a) + (StripNewlines(b') + tail);
        StripNewlines(a) + StripNewlines(b);
      }
    }
  }

  /** The output holds exactly one line break per completed row. */
  lemma {:induction false} NewlineCount(grayScales: seq<Luminance>, palette: Palette, width: nat)
    requires Newline !in palette
    ensures multiset(DrawAscii(grayScales, palette, width))[Newline] == CompletedRows(|grayScales|, width)
    decreases |grayScales|
  {
    if |grayScales| > 0 {
      var n := |grayScales| - 1;
      NewlineCount(grayScales[..n], palette, width);
      CompletedRowsStep(n, width);
      var c := Cell(palette, width, grayScales[n], n);
      assert MapLookup(palette, grayScales[n]) != Newline;
      assert multiset(c)[Newline] == if EndsRow(n, width) then 1 else 0;
    }
  }

  /** A cell without its break is its glyph. */
  lemma StripCell(palette: Palette, width: nat, s: Luminance, index: nat)
    requires Newline !in palette
    ensures StripNewlines(Cell(palette, width, s, index)) == [MapLookup(palette, s)]
  {
    var g := MapLookup(palette, s);
    assert g != Newline;
    assert [g][..0] == [];
    assert StripNewlines([g]) == [g];
    if EndsRow(index, width) {
      assert [g, Newline][..1] == [g];
      assert StripNewlines([g, Newline]) == StripNewlines([g]);
      assert Cell(palette, width, s, index) == [g, Newline];
    } else {
      assert Cell(palette, width, s, index) == [g];
    }
  }

  /** Removing the line breaks leaves each element's glyph, in input order. */
  lemma {:induction false} GlyphsInOrder(grayScales: seq<Luminance>, palette: Palette, width: nat)
    requires Newline !in palette
    ensures StripNewlines(DrawAscii(grayScales, palette, width)) == GlyphsOf(grayScales, palette)
    decreases |grayScales|
  {
    if |grayScales| > 0 {
      var n := |grayScales| - 1;
      var c := Cell(palette, width, grayScales[n], n);
      var before := DrawAscii(grayScales[..n], palette, width);
      calc {
        StripNewlines(DrawAscii(grayScales, palette, width));
        StripNewlines(before + c);
        { StripNewlinesAppend(before, c); }
        StripNewlines(before) + StripNewlines(c);
        { GlyphsInOrder(grayScales[..n], palette, width);
          StripCell(palette, width, grayScales[n], n); }
        GlyphsOf(grayScales[..n], palette) + [MapLookup(palette, grayScales[n])];
        { GlyphsOfLast(grayScales, palette); }
        GlyphsOf(grayScales, palette);
      }
    }
  }

  /** The text drawn for a prefix of the luminances is a prefix of the text
      drawn for all of them: the fold only ever appends. */
  lemma {:induction false} DrawAsciiPrefix(grayScales: seq<Luminance>, palette: Palette, width: nat, j: nat)
    requires j <= |grayScales|
    ensures DrawAscii(grayScales[..j], palette, width) <= DrawAscii(grayScales, palette, width)
    decreases |grayScales|
  {
    if j == |grayScales| {
      assert grayScales[..j] == grayScales;
    } else {
      var n := |grayScales| - 1;
      DrawAsciiPrefix(grayScales[..n], palette, width, j);
      assert grayScales[..n][..j] == grayScales[..j];
    }
  }

  /** Where each element lands: with the width at least 1, element k is the
      glyph at offset k + k / width (one break precedes it per completed row),
      and an element that closes a row is followed by a break. */
  lemma GlyphPosition(grayScales: seq<Luminance>, palette: Palette, width: nat, k: nat)
    requires width >= 1 && k < |grayScales|
    ensures var ascii := DrawAscii(grayScales, palette, width);
            && k + k / width < |ascii|
            && ascii[k + k / width] == MapLookup(palette, grayScales[k])
            && (EndsRow(k, width) ==> k + k / width + 1 < |ascii| && ascii[k + k / width + 1] == Newline)
  {
    DrawAsciiPrefix(grayScales, palette, width, k + 1);
    DrawAsciiLength(grayScales[..k], palette, width);
    var upTo := grayScales[..k + 1];
    assert upTo[..k] == grayScales[..k];
    assert DrawAscii(upTo, palette, width)
           == DrawAscii(grayScales[..k], palette, width) + Cell(palette, width, grayScales[k], k);
  }

  /** The reference layout of a run of whole rows: each line is the next
      `width` glyphs followed by a line break, and nothing else is written. */
  function Grid(glyphs: string, width: nat): string
    requires width >= 1 && |glyphs| % width == 0
    decreases |glyphs|
  {
    if |glyphs| == 0 then ""
    else
      var m := |glyphs| - width;
      LastRow(|glyphs|, width);
      Grid(glyphs[..m], width) + glyphs[m..] + [Newline]
  }

  /** A grid of at least one row ends in a break. */
  lemma GridEndsInBreak(glyphs: string, width: nat)
    requires width >= 1 && |glyphs| % width == 0 && |glyphs| > 0
    ensures |Grid(glyphs, width)| > 0 && Grid(glyphs, width)[|Grid(glyphs, width)| - 1] == Newline
  {
  }

  /** Inside a row that starts at a multiple m of the width, the element at
      m + j - 1 closes the row exactly when j is the width. */
  lemma RowPosition(m: nat, j: nat, width: nat)
    requires width >= 1 && m % width == 0 && 0 < j <= width
    ensures EndsRow(m + j - 1, width) <==> j == width
  {
    var q := m / width;
    assert m == q * width;
    if j < width {
      DivModUnique(m + j, width, q, j);
    } else {
      DivModUnique(m + j, width, q + 1, 0);
    }
  }

  /** Within one row, elements before the last add their glyph and no break. */
  lemma {:induction false} PartialRow(grayScales: seq<Luminance>, palette: Palette, width: nat, m: nat, j: nat)
    requires width >= 1 && m % width == 0 && j < width && m + j <= |grayScales|
    ensures DrawAscii(grayScales[..m + j], palette, width)
            == DrawAscii(grayScales[..m], palette, width) + GlyphsOf(grayScales[m..m + j], palette)
    decreases j
  {
    if j == 0 {
      assert grayScales[m..m] == [];
      assert GlyphsOf([], palette) == [];
    } else {
      var i := m + j - 1;
      PartialRow(grayScales, palette, width, m, j - 1);
      RowPosition(m, j, width);
      assert grayScales[..m + j][..i] == grayScales[..i];
      var run := grayScales[m..m + j];
      GlyphsOfLast(run, palette);
      assert run[..j - 1] == grayScales[m..i];
      assert run[j - 1] == grayScales[i];
    }
  }

  /** A whole row adds its glyphs and then one break. */
  lemma FullRow(grayScales: seq<Luminance>, palette: Palette, width: nat, m: nat)
    requires width >= 1 && m % width == 0 && m + width <= |grayScales|
    ensures DrawAscii(grayScales[..m + width], palette, width)
            == DrawAscii(grayScales[..m], palette, width) + GlyphsOf(grayScales[m..m + width], palette) + [Newline]
  {
    var i := m + width - 1;
    PartialRow(grayScales, palette, width, m, width - 1);
    RowPosition(m, width, width);
    assert grayScales[..m + width][..i] == grayScales[..i];
    var row := grayScales[m..m + width];
    GlyphsOfLast(row, palette);
    assert row[..width - 1] == grayScales[m..i];
    assert row[width - 1] == grayScales[i];
    assert DrawAscii(grayScales[..m + width], palette, width)
           == DrawAscii(grayScales[..i], palette, width) + Cell(palette, width, grayScales[i], i);
  }

  /** For a whole number of rows the output is the reference grid of the
      elements' glyphs: every line holds exactly `width` glyphs and ends in a
      break, the last line included. */
  lemma {:induction false} DrawAsciiGrid(grayScales: seq<Luminance>, palette: Palette, width: nat)
    requires width >= 1 && |grayScales| % width == 0
    ensures DrawAscii(grayScales, palette, width) == Grid(GlyphsOf(grayScales, palette), width)
    decreases |grayScales|
  {
    if |grayScales| > 0 {
      var m := |grayScales| - width;
      LastRow(|grayScales|, width);
      var prefix := grayScales[..m];
      DrawAsciiGrid(prefix, palette, width);
      FullRow(grayScales, palette, width, m);
      assert grayScales[..m + width] == grayScales;
      var glyphs := GlyphsOf(grayScales, palette);
      assert glyphs[..m] == GlyphsOf(prefix, palette);
      assert glyphs[m..] == GlyphsOf(grayScales[m..m + width], palette);
    }
  }
}
