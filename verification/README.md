# PixelASCII glyph generator, modelled in Dafny

`auto_gen.py` turns a font into fixed-size monochrome glyphs for the 256 code
points 0..255 and prints them in three forms:

- a bordered text chart;
- a verbose C byte array with one line per pixel row;
- a compact C byte array wrapped at 160 characters, pasted into a
  `video_font_data.h` header.

It first searches for the largest point size at which every glyph fits the
canvas. It can also lay a sentence out side by side as block characters.

This project models that core:

- the size search;
- MSB-first row packing;
- both C-array encoders, including the greedy 160-character wrap;
- the bordered chart;
- the sentence compositor;
- the three 256-glyph drivers.

The font library is abstract. The box measurement is a parameter
`measure: (size, char) -> Option<BBox>`, and the rasteriser is a parameter
`raster: char -> Option<seq<int>>`; `None` stands for the exception the
source catches. Pixels are the values `getdata` returns, and a pixel is ink
exactly when it is 0. Bytes are `bv8`.

Modules, one file each:

- `Common`: option type, bounding box and rasteriser types, and concatenation lemmas.
- `Text`: Python string formatting, `join`, `rstrip`, and reading `0xHH` tokens back.
- `SizeFinder`: `can_fit_all_ascii` and the binary search.
- `Packing`: the packing arithmetic as functions, plus bit-level unpacking.
- `CArray`: both encoders as loops proved against those functions.
- `Chart`: the bordered chart.
- `Sentence`: `render_sentence`.
- `Drivers`: the three `generate_all_ascii_*` loops and the compact table's layout.

The loops of the source are methods with loop invariants, proved equal to a
specification function. The properties are lemmas about those functions.

Points of the code's behaviour worth knowing:

- A chart pixel is three characters, `██ ` or three blanks
  (auto_gen.py:45-47).
- A chart rule line is `3 * width + 4` characters: two leading blanks, a
  corner, `3 * width` bars and a corner (auto_gen.py:41, 51).
- The compact driver wraps each glyph's bytes on their own and joins the
  per-glyph blocks with newlines (auto_gen.py:150-163), so a line break
  falls at the end of every glyph.
- In the compact table, a code point that cannot be drawn becomes a
  comment line holding no bytes (auto_gen.py:161), while the
  `video_fontdata` array is sized for 256 full glyphs (auto_gen.py:190-199).
  See Findings.

## Model

| member | source | states |
|---|---|---|
| `SizeFinder.CanFitAllAscii` | auto_gen.py:4-17 | true exactly when every code point 0..255 is measured without raising and its box has `right <= width` and `bottom <= height`; false at the first failing or overflowing code point |
| `SizeFinder.LargestFittingIsLargest` | auto_gen.py:19-31 | the downward reference scan gives a size in `[1, max(1, top)]` that is 1 or fits, no larger size up to `top` fits, and under monotonicity every size up to it fits |
| `SizeFinder.LargestFittingAt` | auto_gen.py:23-29 | a size that fits (or 0) with nothing above it fitting up to `top` is where the reference scan stops (the floor 1 for 0) |
| `SizeFinder.FindMaxFontSize` | auto_gen.py:19-31 | the binary search ends with a size in `[1, max(1, 2 * max(width, height))]` that is 1 or fits; a fitting result below the top is followed by a size that does not fit, with no assumption; if fitting is monotone in the size it is the largest fitting size, every smaller size fits and no larger one in range does |
| `Packing.BitMaskShift` | auto_gen.py:99 | the mask of column `bit` is `1 << (7 - bit)` |
| `Packing.MaskBits` | auto_gen.py:99 | OR-ing mask `i` into a byte sets bit `i` and leaves every other bit as it was |
| `Packing.GroupBit` | auto_gen.py:95-99 | bit `b` of a group's byte is set exactly when `b` is inside the group and pixel `start + b` is ink; the padding bits are 0 |
| `Packing.PackRow` | auto_gen.py:88 | a row packs to `(width + 7) // 8` bytes |
| `Packing.Pack` | auto_gen.py:125 | a glyph packs to `height * ((width + 7) // 8)` bytes |
| `Packing.PackRowAt` | auto_gen.py:91-101 | row `y`'s bytes sit at offset `y * ((width + 7) // 8)` of the glyph's bytes, in row-major order |
| `Packing.PackRowBit` | auto_gen.py:95-99 | bit `b` of byte `k` of a row is set exactly when column `8k + b` exists and is ink |
| `Packing.PackedBit` | auto_gen.py:130-135 | the same, for any byte of the whole glyph: MSB-first, row-major |
| `Packing.UnpackPackRow` | auto_gen.py:95-99 | unpacking a row's bytes over its width gives back its ink pattern |
| `Packing.UnpackPack` | auto_gen.py:130-135 | bit-level round trip: unpacking the glyph's bytes gives back the ink pattern of every row |
| `Packing.BlankPacksToZero` | auto_gen.py:96-99 | a glyph without ink packs to all-zero bytes |
| `Text.HexDigitsFormat` | auto_gen.py:101 | the two digits written for a byte are `{byte:02X}` |
| `Text.HexTokenFormat` | auto_gen.py:137 | a token is `0x{byte:02X}` followed by its separator |
| `Text.HexByteRoundTrip` | auto_gen.py:101 | the two hexadecimal digits of a byte read back to the byte |
| `Text.DecodeHexTokens` | auto_gen.py:104 | tokens written for a byte sequence read back to the same sequence, whatever follows them |
| `Text.TokensLength` | auto_gen.py:137-138 | `n` tokens with separator `sep` are `n * (4 + k)` characters for a separator of `k` characters |
| `Text.DecimalWidth` | auto_gen.py:40 | a number below 10 has one digit, below 100 two, and three or more from 100 on |
| `Text.RStrip` | auto_gen.py:139 | `rstrip` returns the longest prefix not ending in white space; everything cut off is white space |
| `CArray.PackGroupWithDigits` | auto_gen.py:96-100 | the inner loop yields the group's packed byte and the group's `'1'`/`'0'` digits |
| `CArray.VerboseRowLine` | auto_gen.py:92-105 | the row loop yields `", ".join` of the row's tokens, `", "`, and the row's digits comment |
| `CArray.BitmapToCArray` | auto_gen.py:87-107 | `bitmap_to_c_array` yields the header comment and one line per row, joined by newlines |
| `CArray.VerboseRowDecodes` | auto_gen.py:101-105 | reading `(width + 7) // 8` tokens from the front of a row line gives the row's packed bytes |
| `CArray.VerboseDigits` | auto_gen.py:100 | the digits string has one character per column, is `'1'` exactly for ink, and agrees with the packed bit |
| `CArray.VerboseRoundTrip` | auto_gen.py:87-107 | the verbose array has `height + 1` lines with the header first, and its row lines read back to the glyph's packed bytes |
| `CArray.CompactLinesShape` | auto_gen.py:137-147 | the compact lines number `ceil(n / 32)` for `n` bytes; every line is non-empty, at most 160 characters and a whole number of 5-character tokens, and every line but the last is full |
| `CArray.CompactLinesConcat` | auto_gen.py:137-147 | the compact lines laid end to end are all the byte tokens, in order |
| `CArray.CompactRoundTrip` | auto_gen.py:137-147 | the compact lines read back to the packed bytes |
| `CArray.WrapTokensLines` | auto_gen.py:137-147 | the greedy wrap (flush when the next token would pass 160 characters, then the final flush) gives exactly 32 tokens per line |
| `CArray.AddItem` | auto_gen.py:137-142 | one wrapping step, including `rstrip`, is the greedy step on a line of tokens; the new line is non-empty and ends in a comma |
| `CArray.PackGroup` | auto_gen.py:132-135 | the compact encoder's inner loop yields the group's packed byte |
| `CArray.CompactRow` | auto_gen.py:131-144 | one row of the compact loop continues the wrap with the row's packed bytes |
| `CArray.BitmapToCArrayCompact` | auto_gen.py:124-148 | `bitmap_to_c_array_compact` yields the glyph's packed bytes wrapped 32 tokens to a line, joined by newlines |
| `CArray.EncodersAgree` | auto_gen.py:87-148 | the verbose and compact arrays carry the same bytes, the glyph's packed bytes, which unpack to its ink pattern |
| `Chart.ChartRowLine` | auto_gen.py:44-48 | the row loop yields the row number, `│`, one cell per pixel and `│` |
| `Chart.BorderedChart` | auto_gen.py:39-53 | the chart is the header, the top rule, a line per row and the bottom rule, joined by newlines |
| `Chart.ChartLayout` | auto_gen.py:40-51 | for every canvas, empty ones included, the chart has `height + 3` lines, the header first; both rules are `3 * width + 4` characters; the header is `3 * width + 3` while `width <= 100` |
| `Chart.ChartRowLength` | auto_gen.py:43-49 | line `y + 2` is row `y`'s line, `3 * width + 4` characters like the rules while `y < 100` |
| `Chart.CellsLayout` | auto_gen.py:45-47 | a row's cells take `3 * width` characters, cell `x` at offset `3 * x` |
| `Chart.ChartPixel` | auto_gen.py:44-47 | in row `y`'s line, the three characters after the number, the `│` and `x` earlier cells are pixel `(x, y)`'s cell |
| `Chart.CellDecode` | auto_gen.py:47 | a cell is `██ ` exactly for ink and three blanks exactly otherwise |
| `Chart.LabelWidth` | auto_gen.py:44 | `{y:2d}` is two characters for `y < 100` |
| `Chart.HeaderLength` | auto_gen.py:40 | the header is `3 * width + 3` characters while column numbers stay below 100 |
| `Sentence.MinRows` | auto_gen.py:85 | `zip` yields as many rows as the shortest grid has: no grid is shorter, and some grid has exactly that many |
| `Sentence.GlyphGrid` | auto_gen.py:76-79 | the slice loop yields one row string per `charWidth` slice of the bitmap, the last slice cut short |
| `Sentence.RenderSentence` | auto_gen.py:70-85 | the compositor yields the `zip` rows of the character grids, each joined by blanks, joined by newlines; an empty sentence gives the empty text |
| `Sentence.GlyphRowLayout` | auto_gen.py:78 | a glyph row is two characters per pixel, pixel `x` at offset `2 * x` |
| `Sentence.GlyphRowsShape` | auto_gen.py:77-79 | a full `charWidth` x `charHeight` bitmap gives `charHeight` rows, row `y` drawn from pixel row `y` |
| `Sentence.CharGridShape` | auto_gen.py:74-82 | each character gives `charHeight` rows of `2 * charWidth` characters: blanks when it fails, its pixel rows otherwise |
| `Sentence.SentenceShape` | auto_gen.py:73-85 | a non-empty sentence of `n` characters gives `charHeight` lines of `n * 2 * charWidth + (n - 1)` characters |
| `Sentence.SentenceCell` | auto_gen.py:80-85 | character `k` takes the `2 * charWidth` characters at `k * (2 * charWidth + 1)` of every line: blanks when it failed, its pixel row otherwise |
| `Sentence.BlockDecode` | auto_gen.py:78 | a pixel is drawn `██` exactly for ink and two blanks exactly otherwise |
| `Drivers.GenerateAllBitmaps` | auto_gen.py:55-68 | one block per code point, in order: the title with the printable form and the chart, or the marker line; joined by newlines |
| `Drivers.GenerateAllCArrays` | auto_gen.py:109-122 | one verbose array or marker comment per code point, in order, separated by blank lines |
| `Drivers.GenerateAllCompact` | auto_gen.py:150-163 | one compact array, wrapped on its own, or marker comment per code point, in order, joined by newlines |
| `Drivers.FailureEntries` | auto_gen.py:161 | the marker comment of a failed code point holds no comma, so it adds no array entry |
| `Drivers.CompactTextEntries` | auto_gen.py:137-148 | a glyph's compact text holds exactly one entry per packed byte |
| `Drivers.BlockEntries` | auto_gen.py:155-161 | a drawn code point's block holds `height * ((width + 7) // 8)` entries, a failed one none |
| `Drivers.CompactTableEntries` | auto_gen.py:150-163 | before code point `n` the table holds `Rendered(n) * height * ((width + 7) // 8)` entries, where `Rendered(n)` counts the drawn code points below `n` |
| `Drivers.FailedGlyphShortensTable` | auto_gen.py:159-163 | once a code point fails, the table holds fewer than `256 * height * ((width + 7) // 8)` entries, and every later glyph starts early |
| `Drivers.AlignedFallback` | auto_gen.py:157-161 | with the blank-canvas fallback, a failed code point contributes `height * ((width + 7) // 8)` zero bytes and a drawn one the same block as before |
| `Drivers.TableAligned` | auto_gen.py:150-163 | in the corrected table glyph `n` starts at entry `n * height * ((width + 7) // 8)`, and the table fills the 256-glyph array |

## Left out

- The font library: `ImageFont.truetype`, `ImageDraw.textbbox`, `draw.text`
  and `getdata` (auto_gen.py:5-7, 12, 33-37). Measurement and rasterisation
  are the parameters `measure` and `raster`.
- The rasteriser's behaviour. The model does not capture anti-aliasing,
  hinting, clipping at the canvas edge, or how boxes relate to inked pixels.
- The rasteriser's size promise. `WellSized` requires that a glyph that
  renders has `width * height` pixels, as `getdata` returns. The chart,
  C-array and sentence lemmas require it.
- `repr(char)[1:-1]` (auto_gen.py:64, 89) is library-defined escaping. It is
  the opaque `printable` parameter.
- `generate_header_file` (auto_gen.py:165-206) is date stamping and template
  text, not modelled. Its macro `VIDEO_FONT_SIZE_PER_COLUMN` divides the
  width by 8 without rounding up.
- The script part (auto_gen.py:209-270): the example settings, file writes
  and `print` calls.
- `byte_count` (auto_gen.py:128, 144) is incremented and never read.
- `Chart.ChartRowLength`: states the length of a row line only for rows numbered
  below 100. From 100 on, `{y:2d}` is wider and the line grows.
- `Chart.HeaderLength`: states the header's length only for widths up to 100,
  for the same reason.
- The size search re-opens the font for every candidate size. The model
  measures through the same `measure` function at every size.

## Findings

| source | as written | input that shows it | evidently intended | confidence | as-written member | corrected member |
|---|---|---|---|---|---|---|
| auto_gen.py:159-161 | a code point whose rendering raises contributes only a comment line to the compact table, and no bytes | a rasteriser that fails on code point 0 while `width` and `height` are at least 1: the table holds fewer than `256 * height * ((width + 7) // 8)` entries, so glyph 1 starts at entry 0 of `video_fontdata` | every code point keeps its slot of `height * ((width + 7) // 8)` bytes; a failure falls back to the blank canvas's zero bytes, so that code point `c` starts at entry `c * height * ((width + 7) // 8)` as the 256-glyph array assumes | medium, not executed | `Drivers.FailedGlyphShortensTable` | `Drivers.TableAligned` |
