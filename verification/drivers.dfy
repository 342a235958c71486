/** The three 256-glyph drivers: `generate_all_ascii_bitmaps`
    (auto_gen.py:55-68), `generate_all_ascii_c_arrays` (auto_gen.py:109-122)
    and `generate_all_ascii_c_arrays_compact` (auto_gen.py:150-163). Each
    draws the code points 0 to 255 with the rasteriser and keeps one block of
    text per code point; a glyph that cannot be drawn gets a marker instead. */
module Drivers {
  import opened Common
  import opened Text
  import opened Packing
  import opened Chart
  import opened CArray

  /** The marker text `不可渲染` ("cannot be rendered"). */
  const Unrenderable: string := "\U{4E0D}\U{53EF}\U{6E32}\U{67D3}"

  /** The character of a code point, `chr(i)`. */
  function Code(i: nat): char
    requires i < 256
  {
    i as char
  }

  // ----- bordered charts -----------------------------------------------------

  /** `f"ASCII {i} (不可渲染)\n"`. */
  function ChartFailure(i: nat): string
  {
    "ASCII " + Decimal(i) + " (" + Unrenderable + ")\n"
  }

  /** The block of code point `i`: a title with the printable form of the
      character, then its chart, or the marker. */
  function ChartBlock(raster: Raster, printable: char -> string, width: nat, height: nat, i: nat): string
    requires i < 256 && WellSized(raster, width, height)
  {
    match raster(Code(i))
    case None => ChartFailure(i)
    case Some(bitmap) =>
      "ASCII " + Decimal(i) + " (" + printable(Code(i)) + "):\n"
        + JoinWith(ChartLines(bitmap, width, height), "\n") + "\n"
  }

  function ChartBlocks(raster: Raster, printable: char -> string, width: nat, height: nat): seq<string>
    requires WellSized(raster, width, height)
  {
    seq(256, i requires 0 <= i < 256 => ChartBlock(raster, printable, width, height, i))
  }

  /** `generate_all_ascii_bitmaps` once the font is loaded: every code
      point's block, joined by newlines. */
  method GenerateAllBitmaps(raster: Raster, printable: char -> string, width: nat, height: nat)
    returns (text: string)
    requires WellSized(raster, width, height)
    ensures text == JoinWith(ChartBlocks(raster, printable, width, height), "\n")
  {
    var result := [];
    for i := 0 to 256
      invariant result == ChartBlocks(raster, printable, width, height)[..i]
    {
      var c := Code(i);
      var block;
      match raster(c) {
        case None =>
          block := ChartFailure(i);
        case Some(bitmap) =>
          var chart := BorderedChart(bitmap, width, height);
          block := "ASCII " + Decimal(i) + " (" + printable(c) + "):\n" + chart + "\n";
      }
      result := result + [block];
    }
    assert result == ChartBlocks(raster, printable, width, height);
    text := JoinWith(result, "\n");
  }

  // ----- verbose C arrays ----------------------------------------------------

  /** `f"/* {i} 0x{i:02X} (不可渲染) */"`. */
  function CArrayFailure(i: nat): string
  {
    "/* " + Decimal(i) + " 0x" + Hex02(i) + " (" + Unrenderable + ") */"
  }

  /** The block of code point `i`: its verbose array, or the marker. */
  function CArrayBlock(raster: Raster, printable: char -> string, width: nat, height: nat, i: nat): string
    requires i < 256 && WellSized(raster, width, height)
  {
    match raster(Code(i))
    case None => CArrayFailure(i)
    case Some(bitmap) => JoinWith(VerboseLines(bitmap, width, height, printable(Code(i)), i), "\n")
  }

  function CArrayBlocks(raster: Raster, printable: char -> string, width: nat, height: nat): seq<string>
    requires WellSized(raster, width, height)
  {
    seq(256, i requires 0 <= i < 256 => CArrayBlock(raster, printable, width, height, i))
  }

  /** `generate_all_ascii_c_arrays` once the font is loaded: every code
      point's block, separated by blank lines. */
  method GenerateAllCArrays(raster: Raster, printable: char -> string, width: nat, height: nat)
    returns (text: string)
    requires WellSized(raster, width, height)
    ensures text == JoinWith(CArrayBlocks(raster, printable, width, height), "\n\n")
  {
    var result := [];
    for i := 0 to 256
      invariant result == CArrayBlocks(raster, printable, width, height)[..i]
    {
      var c := Code(i);
      var block;
      match raster(c) {
        case None =>
          block := CArrayFailure(i);
        case Some(bitmap) =>
          block := BitmapToCArray(bitmap, width, height, printable(c), i);
      }
      result := result + [block];
    }
    assert result == CArrayBlocks(raster, printable, width, height);
    text := JoinWith(result, "\n\n");
  }

  // ----- compact C arrays ----------------------------------------------------

  /** `f"/* {i:3d} 0x{i:02X} (不可渲染) */"`. */
  function CompactFailure(i: nat): string
  {
    "/* " + PadLeft(Decimal(i), 3, ' ') + " 0x" + Hex02(i) + " (" + Unrenderable + ") */"
  }

  /** The bytes of a glyph as compact lines, joined by newlines: the text
      `bitmap_to_c_array_compact` returns. */
  function CompactText(bytes: seq<bv8>): string
  {
    JoinWith(CompactLines(bytes), "\n")
  }

  /** The block of code point `i`: its compact array, wrapped on its own, or
      the marker. */
  function CompactBlock(raster: Raster, width: nat, height: nat, i: nat): string
    requires i < 256 && WellSized(raster, width, height)
  {
    match raster(Code(i))
    case None => CompactFailure(i)
    case Some(bitmap) => CompactText(Pack(bitmap, width, height))
  }

  function CompactBlocks(raster: Raster, width: nat, height: nat): seq<string>
    requires WellSized(raster, width, height)
  {
    seq(256, i requires 0 <= i < 256 => CompactBlock(raster, width, height, i))
  }

  /** `generate_all_ascii_c_arrays_compact` once the font is loaded: every
      code point's block, joined by newlines, so wrapping starts afresh with
      each glyph. */
  method GenerateAllCompact(raster: Raster, printable: char -> string, width: nat, height: nat)
    returns (text: string)
    requires WellSized(raster, width, height)
    ensures text == JoinWith(CompactBlocks(raster, width, height), "\n")
  {
    var result := [];
    for i := 0 to 256
      invariant result == CompactBlocks(raster, width, height)[..i]
    {
      var c := Code(i);
      var block;
      match raster(c) {
        case None =>
          block := CompactFailure(i);
        case Some(bitmap) =>
          block := BitmapToCArrayCompact(bitmap, width, height, printable(c), i);
      }
      result := result + [block];
    }
    assert result == CompactBlocks(raster, width, height);
    text := JoinWith(result, "\n");
  }

  // ----- where each glyph lands in the compact table ---------------------------

  /** The commas of a text. In the compact table every byte token ends in a
      comma and the markers carry none, so this is the number of initialiser
      entries the table holds. */
  function Entries(s: string): nat
  {
    Occurrences(s, ',')
  }

  /** The bytes of one glyph, `height * ((width + 7) // 8)`. */
  function GlyphBytes(width: nat, height: nat): nat
  {
    height * BytesPerRow(width)
  }

  /** How many of the code points below `n` the rasteriser draws. */
  function Rendered(raster: Raster, n: nat): (count: nat)
    requires n <= 256
    ensures count <= n
    ensures (exists j :: 0 <= j < n && raster(Code(j)).None?) ==> count < n
  {
    if n == 0 then 0
    else Rendered(raster, n - 1) + (if raster(Code(n - 1)).Some? then 1 else 0)
  }

  /** A text without commas holds no entries. */
  lemma {:induction false} NoEntries(s: string)
    requires ',' !in s
    ensures Entries(s) == 0
  {
    if s != [] {
      assert s[0] != ',';
      assert forall k :: 0 <= k < |s[1..]| ==> s[1..][k] == s[k + 1];
      NoEntries(s[1..]);
    }
  }

  /** A marker holds no entries. */
  lemma FailureEntries(i: nat)
    ensures Entries(CompactFailure(i)) == 0
  {
    NumeralNoComma(i, 10);
    PadNoComma(Decimal(i), 3, ' ');
    NumeralNoComma(i, 16);
    PadNoComma(Numeral(i, 16), 2, '0');
    NoEntries(CompactFailure(i));
  }

  /** Each token `0xHH,` is one entry. */
  lemma {:induction false} TokenEntries(bytes: seq<bv8>)
    ensures Entries(Concat(HexTokens(bytes, ","))) == |bytes|
  {
    if bytes != [] {
      var tokens := HexTokens(bytes, ",");
      assert tokens[1..] == HexTokens(bytes[1..], ",");
      TokenEntries(bytes[1..]);
      var head := "0x" + HexDigits(bytes[0]);
      NoEntries(head);
      OccurrencesAppend(head, ",", ',');
      OccurrencesAppend(tokens[0], Concat(tokens[1..]), ',');
    }
  }

  /** The compact text of a glyph holds exactly its bytes as entries. */
  lemma CompactTextEntries(bytes: seq<bv8>)
    ensures Entries(CompactText(bytes)) == |bytes|
  {
    JoinCount(CompactLines(bytes), "\n", ',');
    CompactLinesConcat(bytes);
    TokenEntries(bytes);
  }

  /** The table as written: before code point `n`, only the drawn glyphs
      left entries, so glyph `n` starts at entry
      `Rendered(raster, n) * GlyphBytes(width, height)`. */
  lemma {:induction false} CompactTableEntries(raster: Raster, width: nat, height: nat, n: nat)
    requires WellSized(raster, width, height) && n <= 256
    ensures Entries(JoinWith(CompactBlocks(raster, width, height)[..n], "\n"))
         == Rendered(raster, n) * GlyphBytes(width, height)
  {
    if n > 0 {
      var blocks := CompactBlocks(raster, width, height);
      BlockEntries(raster, width, height, n - 1);
      CompactTableEntries(raster, width, height, n - 1);
      TableStep(blocks, n);
      if raster(Code(n - 1)).Some? {
        MulSucc(Rendered(raster, n), GlyphBytes(width, height));
      }
    }
  }

  /** A drawn glyph's block holds its bytes; a marker holds none. */
  lemma BlockEntries(raster: Raster, width: nat, height: nat, i: nat)
    requires WellSized(raster, width, height) && i < 256
    ensures Entries(CompactBlocks(raster, width, height)[i])
         == if raster(Code(i)).Some? then GlyphBytes(width, height) else 0
  {
    match raster(Code(i)) {
      case None => FailureEntries(i);
      case Some(bitmap) => CompactTextEntries(Pack(bitmap, width, height));
    }
  }

  /** The discrepancy: once any code point fails, the table holds fewer than
      `256 * GlyphBytes(width, height)` entries, the size of the array it
      initialises, and every later glyph starts early. */
  lemma FailedGlyphShortensTable(raster: Raster, width: nat, height: nat, failed: nat)
    requires WellSized(raster, width, height) && GlyphBytes(width, height) > 0
    requires failed < 256 && raster(Code(failed)).None?
    ensures Entries(JoinWith(CompactBlocks(raster, width, height), "\n")) < 256 * GlyphBytes(width, height)
    ensures forall n :: failed < n <= 256 ==>
      Entries(JoinWith(CompactBlocks(raster, width, height)[..n], "\n")) < n * GlyphBytes(width, height)
  {
    var blocks := CompactBlocks(raster, width, height);
    forall n | failed < n <= 256
      ensures Entries(JoinWith(blocks[..n], "\n")) < n * GlyphBytes(width, height)
    {
      CompactTableEntries(raster, width, height, n);
      assert 0 <= failed < n && raster(Code(failed)).None?;
      MulLess(Rendered(raster, n), n, GlyphBytes(width, height));
    }
    assert blocks[..256] == blocks;
  }

  /** The canvas before drawing: every pixel background. */
  function BlankGlyph(width: nat, height: nat): seq<int>
  {
    seq(width * height, _ => 1)
  }

  /** The bitmap a code point contributes once a failure falls back to the
      blank canvas. */
  function GlyphOrBlank(raster: Raster, width: nat, height: nat, i: nat): (bitmap: seq<int>)
    requires i < 256 && WellSized(raster, width, height)
    ensures |bitmap| == width * height
  {
    match raster(Code(i))
    case None => BlankGlyph(width, height)
    case Some(bitmap) => bitmap
  }

  /** The corrected table: a code point that cannot be drawn contributes the
      blank canvas's bytes, all zero, so every glyph keeps its slot. */
  function AlignedBlocks(raster: Raster, width: nat, height: nat): seq<string>
    requires WellSized(raster, width, height)
  {
    seq(256, i requires 0 <= i < 256 =>
      CompactText(Pack(GlyphOrBlank(raster, width, height, i), width, height)))
  }

  /** A failed code point contributes `GlyphBytes(width, height)` zero bytes;
      a drawn one contributes the same block as before. */
  lemma AlignedFallback(raster: Raster, width: nat, height: nat, i: nat)
    requires WellSized(raster, width, height) && i < 256
    ensures raster(Code(i)).None? ==>
      Pack(GlyphOrBlank(raster, width, height, i), width, height) == seq(GlyphBytes(width, height), _ => 0)
    ensures raster(Code(i)).Some? ==>
      AlignedBlocks(raster, width, height)[i] == CompactBlocks(raster, width, height)[i]
  {
    if raster(Code(i)).None? {
      BlankPacksToZero(BlankGlyph(width, height), width, height);
    }
  }

  /** In the corrected table glyph `n` starts at entry
      `n * GlyphBytes(width, height)`, and the table fills the array. */
  lemma {:induction false} TableAligned(raster: Raster, width: nat, height: nat, n: nat)
    requires WellSized(raster, width, height) && n <= 256
    ensures Entries(JoinWith(AlignedBlocks(raster, width, height)[..n], "\n")) == n * GlyphBytes(width, height)
  {
    if n > 0 {
      var blocks := AlignedBlocks(raster, width, height);
      var last := blocks[n - 1];
      CompactTextEntries(Pack(GlyphOrBlank(raster, width, height, n - 1), width, height));
      TableAligned(raster, width, height, n - 1);
      TableStep(blocks, n);
      MulSucc(n, GlyphBytes(width, height));
    }
  }

  /** The entries of the first `n` blocks: those of the first `n - 1` and of
      block `n - 1`. */
  lemma TableStep(blocks: seq<string>, n: nat)
    requires 0 < n <= |blocks|
    ensures Entries(JoinWith(blocks[..n], "\n")) == Entries(JoinWith(blocks[..n - 1], "\n")) + Entries(blocks[n - 1])
  {
    assert blocks[..n] == blocks[..n - 1] + [blocks[n - 1]];
    if n > 1 {
      JoinSnoc(blocks[..n - 1], blocks[n - 1], "\n");
      OccurrencesAppend(JoinWith(blocks[..n - 1], "\n"), "\n", ',');
      OccurrencesAppend(JoinWith(blocks[..n - 1], "\n") + "\n", blocks[n - 1], ',');
    }
  }
}
