# buddy.js character-art core, in Dafny

`buddy.js` is a command-line tool. It fetches a random post from a Reddit
listing and prints the post's image as character art sized to the terminal.
This project models the deterministic middle of that script. Everything
around it is I/O.

- **Argument classification.** `formatArguments` scans the arguments after
  the feed name. It records the last category flag (`-new`, `-hot`, `-top`),
  the last time-window word (`hour` … `all`), and whether `-simple` appears.
  `flag` turns that record into a listing category and a `?t=<window>` query
  suffix (module `Arguments`).
- **Grayscale conversion.** `toGrayScale` computes 0.21 R + 0.72 G + 0.07 B.
  `convertToGrayScales` walks an RGBA buffer four bytes at a time and skips
  alpha (module `Grayscale`).
- **Glyph lookup.** `mapLookup` picks the glyph at index
  ceil((N - 1) * L / 255) of the palette in force. That palette is the
  10-glyph `map_simple` with `-simple`, and the 69-glyph `map_large`
  otherwise (module `Glyphs`).
- **Composition.** `drawAscii` folds the luminances into one string. It
  appends a line break after every element whose position (index + 1) is a
  multiple of the width (module `Ascii`).
- **Wiring.** Module `Render` composes the stages as the image's load handler
  does, with the palette taken from the arguments.

Arithmetic is exact. A luminance is a scaled integer `s = 21 r + 72 g + 7 b`
that stands for s / 100, so it lies in 0 .. 25500. The glyph index is
`ceil((N - 1) * s / 25500)` in integers. `Glyphs.GlyphIndexIsCeiling` and
`Grayscale.ToGrayScaleFormula` connect these integers to the real-valued
formulas of the source. The palette and the width are explicit parameters
instead of module-level state. `Arithmetic` holds shared facts about
division.

Behaviour of the code that is easy to get wrong
when describing the tool:

- There is no `-invert` flag and no reversed palette. The code has exactly
  two palettes, chosen by `-simple`.
- The two palettes run in opposite directions. `map_simple` starts with a
  blank and `map_large` ends with one (`Glyphs.OppositePolarity`). The
  comment above them ("most visible at 0") matches only `map_large`.
- The long palette has 69 glyphs.
- The lookup does not clamp its index. In exact arithmetic the index is always
  in range (`Glyphs.GlyphIndex`). Byte channels keep the source's
  floating-point luminance at or below 255 too, so an out-of-range index does
  not arise there either.
- A break follows every completed row, the last one included. A full grid
  therefore ends in a line break (`Render.RenderShape`).
- A window word counts wherever it stands, even before `-top`. It is recorded
  even when no `-top` is given; `flag` only uses it for `-top`.
- With a width of 0, JavaScript's `(index + 1) % 0` is NaN, so no break is
  ever written. `Ascii.EndsRow` models this.

## Model

| member | source | states |
|---|---|---|
| Arguments.FormatArguments | buddy.js:35-53 | Scans with `Classify` per argument. `flagParam` is the last argument among `-new`/`-hot`/`-top`, or None when there is none. `flagValue` is the last window word, or None. `useSimple` holds exactly when `-simple` occurs. |
| Arguments.ClassifyExtendsLast | buddy.js:41-46 | Scanning one more argument makes it the last match if it is recognised. Otherwise the previous last match is kept. |
| Arguments.IgnoresUnrecognised | buddy.js:41-46 | An argument that is not a category flag, not a window word and not `-simple` (for example `-foo`) changes nothing, wherever it is inserted. |
| Arguments.Trailing | buddy.js:55 | The scanned arguments are those after index 2 of argv, in order. A list of three or fewer gives none. `Render.RenderGlyphsFollowArguments` composes it with the scan. |
| Arguments.Flag | buddy.js:57-90 | `Flag` with the `Format` helper of `format`: The category is always `hot`, `new` or `top`. It is `new` exactly for `-new` and `top` exactly for `-top`; otherwise, including no flag, it is `hot`. The time suffix is non-empty exactly for `-top`. It is then `?t=<window>` for a recognised window and `?t=day` otherwise. |
| Arguments.ListingOfArguments | buddy.js:55-90 | For a whole argument tail: the category is `top` or `new` exactly when the last category flag is `-top` or `-new`, and `hot` when none is given. A suffix appears exactly for `top`. It names the last window word, or `day` when there is none. |
| Grayscale.ToGrayScale | buddy.js:188 | For channels in 0..255 the luminance lies in 0..255. It is 0 exactly for black and 255 exactly for white. |
| Grayscale.ToGrayScaleFormula | buddy.js:188 | The scaled integer equals 0.21 R + 0.72 G + 0.07 B exactly, as a real number. |
| Grayscale.ToGrayScaleMonotone | buddy.js:188 | Raising any channel never lowers the luminance. |
| Grayscale.GrayScales | buddy.js:190-209 | For a buffer of whole RGBA pixels: one luminance per pixel (length / 4 values), and value k is the luminance of bytes 4k, 4k+1, 4k+2. |
| Grayscale.ConvertToGrayScales | buddy.js:197-208 | The stride-4 loop returns exactly length / 4 values. Value k is the grayscale of bytes 4k, 4k+1, 4k+2. The result equals `GrayScales`. |
| Grayscale.AlphaIgnored | buddy.js:197-206 | Two buffers that differ only in alpha bytes give the same luminances. |
| Glyphs.SelectPalette | buddy.js:180-182 | `-simple` gives the 10-glyph palette from blank to `@`. Otherwise the palette has 69 glyphs, from `$` to blank. Neither contains a line break. |
| Glyphs.GlyphIndex | buddy.js:185 | For any palette of N ≥ 1 glyphs and any luminance in 0..255, the index lies in 0..N-1. |
| Glyphs.GlyphIndexIsCeiling | buddy.js:185 | `MapLookup` reads the palette at `GlyphIndex`. The index is the ceiling of (N - 1) * L / 255: `idx - 1 < (N-1)L/255 <= idx`. |
| Glyphs.MapLookupEndpoints | buddy.js:185 | For `MapLookup`: Luminance 0 selects the first glyph of any palette; 255 selects the last. |
| Glyphs.GlyphIndexMonotone | buddy.js:185 | A brighter luminance never selects an earlier index. |
| Glyphs.GlyphIndexCovers | buddy.js:185 | For N ≤ 25501, every index 0..N-1 is selected by some luminance. |
| Glyphs.MidGrayOnShortPalette | buddy.js:180-185 | Luminance 128 on the short palette selects index 5, the glyph `+`. |
| Glyphs.OppositePolarity | buddy.js:179-182 | Black renders blank with the short palette; white renders blank with the long one. |
| Ascii.DrawAsciiLength | buddy.js:211-226 | `DrawAscii` models `drawAscii` as a left fold that appends `Cell` per element. The output has one glyph per element plus one break per completed row: n + ⌊n / width⌋ characters (n for width 0). |
| Ascii.NewlineCount | buddy.js:213-222 | For a palette without line breaks, the output holds exactly ⌊n / width⌋ breaks, and none for width 0. |
| Ascii.GlyphsInOrder | buddy.js:213-221 | Deleting the breaks leaves exactly the per-element lookup glyphs, in input order. |
| Ascii.DrawAsciiPrefix | buddy.js:213-222 | The text for a prefix of the elements is a prefix of the whole text: the fold only appends. |
| Ascii.GlyphPosition | buddy.js:213-222 | With width ≥ 1, element k's glyph is at offset k + ⌊k / width⌋. An element that closes a row is followed by a break. |
| Ascii.DrawAsciiGrid | buddy.js:211-226 | When n is a multiple of the width, the output is the reference grid `Grid`: one line per row, each holding the row's `width` glyphs and a break. |
| Render.RenderShape | buddy.js:163-169 | `RenderAscii` composes `GrayScales`, `SelectPalette` and `DrawAscii`. A width x height canvas (width ≥ 1) renders as height * (width + 1) characters with exactly `height` breaks. When height ≥ 1 it ends in a break. |
| Render.RenderIsGrid | buddy.js:163-169 | A width x height canvas renders as the reference grid of its pixels' glyphs: each line is one canvas row of `width` glyphs, then a break. |
| Render.RenderIgnoresAlpha | buddy.js:166-169 | Canvases that differ only in alpha render identically. |
| Render.RenderGlyphsFollowArguments | buddy.js:166-182 | Without its breaks, the rendered block is each pixel's glyph in buffer order. The glyphs come from the short palette exactly when `-simple` is in argv at index 3 or later, which is what `formatArguments(args.slice(3))` scans. |
| Render.BlackCanvas | buddy.js:180-188 | An all-black canvas renders as blanks with `-simple` and as `$` otherwise. |

## Left out

- The help text and `process.exit(1)` for `?`, `help`, `man` and `woman` (buddy.js:11-30). This is console output and process control.
- The feed request and its response handling (buddy.js:92-110): network I/O. This covers building the request URL from `flag("cat")` and `flag("time")`, and the repeated `!res` check.
- `ranMinMax` (buddy.js:122-126) uses `Math.random`. Note that `ranMinMax(0, posts.length)` can return `posts.length`, one past the last post. Random post selection is not modelled.
- `logErr`, the `chalk` colouring and the header built by `generatePost` (buddy.js:113-144). These only format output.
- Image decoding, the canvas and the terminal size (buddy.js:146-177). Loading the image, `createCanvas`, the stretching `drawImage` and `process.stdout.columns/rows` are foreign calls and terminal I/O. The model starts from the RGBA bytes that `getImageData` returns. The choice of the thumbnail over the URL for video posts (buddy.js:149) is part of that glue.
- Arguments.Flag: the JavaScript `format` returns `undefined` for a `returnParam` other than `"cat"` or `"time"`. The model's `ReturnParam` has only those two cases, the only ones the script passes.
- Grayscale.ConvertToGrayScales: requires the buffer length to be a multiple of 4. `getImageData` always returns whole pixels. For a trailing partial pixel the JavaScript would read `undefined` and produce NaN, which is not modelled.
- Glyphs.GlyphIndex: IEEE-754 rounding is not modelled; the model computes the ceiling of the exact quotient. In doubles, when (N - 1) * L / 255 is exactly a whole number, the rounded quotient can land just above it, and `Math.ceil` in buddy.js:185 then takes the next glyph. For example, RGB (0, 1, 204) has exact luminance 15, but `toGrayScale` yields 15.000000000000002. The source then picks `map_large[5]` (`&`), while the model picks index 4 (`8`). Likewise, RGB (1, 219, 173) with `-simple` is `#` in the source and `*` in the model. Near the top the rounding goes the other way: `toGrayScale(255, 255, 255)` is 254.99999999999997 rather than 255. It still selects the last glyph, so no byte input produces an index past the palette.
- Glyphs.MapLookup: luminances are limited to 0..255. The source never produces others, and the lookup has no out-of-range branch to model.
