/** The sentence compositor, `render_sentence` (auto_gen.py:70-85): every
    character is rasterised at `charWidth` x `charHeight`, each pixel drawn two
    characters wide, and the glyphs are laid side by side, one blank apart. */
module Sentence {
  import opened Common
  import opened Text
  import opened Packing

  /** A pixel drawn two characters wide: `██` for ink, blanks otherwise. */
  function Block(pixel: int): string
  {
    if pixel == 0 then "\U{2588}\U{2588}" else "  "
  }

  /** `''.join('██' if pixel == 0 else '  ' for pixel in pixels)`. */
  function GlyphRow(pixels: seq<int>): string
  {
    Concat(seq(|pixels|, x requires 0 <= x < |pixels| => Block(pixels[x])))
  }

  /** The rows of a glyph: `GlyphRow(bitmap[i:i+charWidth])` for `i` in
      `range(0, len(bitmap), charWidth)`; the last slice is cut short when the
      bitmap does not fill it. */
  function GlyphRows(bitmap: seq<int>, charWidth: nat): seq<string>
    requires charWidth > 0
    decreases |bitmap|
  {
    if bitmap == [] then []
    else if |bitmap| <= charWidth then [GlyphRow(bitmap)]
    else [GlyphRow(bitmap[..charWidth])] + GlyphRows(bitmap[charWidth..], charWidth)
  }

  /** `['  ' * charWidth] * charHeight`: the stand-in for a character that
      cannot be drawn. */
  function BlankGrid(charWidth: nat, charHeight: nat): seq<string>
  {
    seq(charHeight, _ => seq(2 * charWidth, _ => ' '))
  }

  /** What one character contributes. A rasteriser failure, and the
      `ValueError` that `range` raises for a zero step when `charWidth` is 0,
      are both caught and give the blank grid. */
  function CharGrid(raster: Raster, c: char, charWidth: nat, charHeight: nat): seq<string>
  {
    if raster(c).None? || charWidth == 0 then BlankGrid(charWidth, charHeight)
    else GlyphRows(raster(c).value, charWidth)
  }

  /** The grids of the sentence's characters, in order: the `result` list. */
  function Grids(sentence: string, raster: Raster, charWidth: nat, charHeight: nat): seq<seq<string>>
  {
    seq(|sentence|, k requires 0 <= k < |sentence| => CharGrid(raster, sentence[k], charWidth, charHeight))
  }

  /** How many tuples `zip(*grids)` yields: the fewest rows of any grid. */
  function MinRows(grids: seq<seq<string>>): (rows: nat)
    requires grids != []
    ensures forall k :: 0 <= k < |grids| ==> rows <= |grids[k]|
    ensures exists k :: 0 <= k < |grids| && rows == |grids[k]|
  {
    if |grids| == 1 then |grids[0]|
    else
      var rest := MinRows(grids[1..]);
      assert forall k :: 1 <= k < |grids| ==> grids[k] == grids[1..][k - 1];
      if |grids[0]| <= rest then |grids[0]| else rest
  }

  /** Tuple `r` of `zip(*grids)`: row `r` of every grid. */
  function Column(grids: seq<seq<string>>, r: nat): seq<string>
    requires forall k :: 0 <= k < |grids| ==> r < |grids[k]|
  {
    seq(|grids|, k requires 0 <= k < |grids| => grids[k][r])
  }

  /** `[' '.join(row) for row in zip(*grids)]`. */
  function SentenceLines(grids: seq<seq<string>>): seq<string>
  {
    if grids == [] then []
    else seq(MinRows(grids), r requires 0 <= r < MinRows(grids) => JoinWith(Column(grids, r), " "))
  }

  /** The row loop of `render_sentence` for one drawn glyph: one string per
      `charWidth` slice of the bitmap. */
  method GlyphGrid(bitmap: seq<int>, charWidth: nat) returns (rows: seq<string>)
    requires charWidth > 0
    ensures rows == GlyphRows(bitmap, charWidth)
  {
    rows := [];
    var i := 0;
    while i < |bitmap|
      invariant rows + GlyphRows(bitmap[Min(i, |bitmap|)..], charWidth) == GlyphRows(bitmap, charWidth)
      decreases |bitmap| - i
    {
      var slice := bitmap[i .. Min(i + charWidth, |bitmap|)];
      GlyphRowsStep(bitmap, charWidth, i, slice);
      AppendShift(rows, [GlyphRow(slice)], GlyphRows(bitmap[Min(i + charWidth, |bitmap|)..], charWidth));
      rows := rows + [GlyphRow(slice)];
      i := i + charWidth;
    }
    assert bitmap[Min(i, |bitmap|)..] == [];
  }

  /** One slice taken off the front of what is left. */
  lemma GlyphRowsStep(bitmap: seq<int>, charWidth: nat, i: nat, slice: seq<int>)
    requires charWidth > 0 && i < |bitmap|
    requires slice == bitmap[i .. Min(i + charWidth, |bitmap|)]
    ensures GlyphRows(bitmap[Min(i, |bitmap|)..], charWidth)
         == [GlyphRow(slice)] + GlyphRows(bitmap[Min(i + charWidth, |bitmap|)..], charWidth)
  {
    var rest := bitmap[i..];
    assert bitmap[Min(i, |bitmap|)..] == rest;
    if |rest| <= charWidth {
      assert bitmap[i .. Min(i + charWidth, |bitmap|)] == rest;
      assert bitmap[Min(i + charWidth, |bitmap|)..] == [];
    } else {
      assert rest[..charWidth] == bitmap[i .. i + charWidth];
      assert rest[charWidth..] == bitmap[i + charWidth..];
    }
  }

  /** `render_sentence` once the font is loaded: the character loop that
      collects the grids, then the rows of `zip` joined by blanks and the
      lines joined by newlines. An empty sentence gives the empty text. */
  method RenderSentence(sentence: string, raster: Raster, charWidth: nat, charHeight: nat)
    returns (text: string)
    ensures text == JoinWith(SentenceLines(Grids(sentence, raster, charWidth, charHeight)), "\n")
    ensures sentence == [] ==> text == ""
  {
    var result: seq<seq<string>> := [];
    for k := 0 to |sentence|
      invariant result == Grids(sentence, raster, charWidth, charHeight)[..k]
    {
      var rendered := raster(sentence[k]);
      var grid;
      if rendered.None? || charWidth == 0 {
        grid := BlankGrid(charWidth, charHeight);
      } else {
        grid := GlyphGrid(rendered.value, charWidth);
      }
      result := result + [grid];
    }
    assert result == Grids(sentence, raster, charWidth, charHeight);
    text := JoinWith(SentenceLines(result), "\n");
  }

  /** A glyph row is two characters per pixel, pixel `x` at `2 * x`. */
  lemma GlyphRowLayout(pixels: seq<int>)
    ensures |GlyphRow(pixels)| == 2 * |pixels|
    ensures forall x :: 0 <= x < |pixels| ==> GlyphRow(pixels)[2 * x .. 2 * x + 2] == Block(pixels[x])
  {
    var blocks := seq(|pixels|, x requires 0 <= x < |pixels| => Block(pixels[x]));
    ConcatUniformLength(blocks, 2);
    forall x | 0 <= x < |pixels|
      ensures GlyphRow(pixels)[2 * x .. 2 * x + 2] == Block(pixels[x])
    {
      ConcatUniformAt(blocks, 2, x);
    }
  }

  /** Row `y + 1` of a bitmap is row `y` of what follows its first row. */
  lemma RowShift(bitmap: seq<int>, width: nat, height: nat, y: nat)
    requires |bitmap| == width * height && y + 1 < height
    ensures |bitmap[width..]| == width * (height - 1)
    ensures Row(bitmap[width..], width, height - 1, y) == Row(bitmap, width, height, y + 1)
  {
    assert width * height == width + width * (height - 1);
    var shifted := Row(bitmap[width..], width, height - 1, y);
    forall x | 0 <= x < width
      ensures shifted[x] == Row(bitmap, width, height, y + 1)[x]
    {
      PixelAt(bitmap[width..], width, height - 1, x, y);
      PixelAt(bitmap, width, height, x, y + 1);
      assert (y + 1) * width + x == width + (y * width + x);
    }
  }

  /** A glyph that fills its `charWidth` x `charHeight` canvas gives
      `charHeight` rows, row `y` drawn from pixel row `y`. */
  lemma {:induction false} GlyphRowsShape(bitmap: seq<int>, charWidth: nat, charHeight: nat)
    requires charWidth > 0 && |bitmap| == charWidth * charHeight
    ensures |GlyphRows(bitmap, charWidth)| == charHeight
    ensures forall y :: 0 <= y < charHeight ==>
      GlyphRows(bitmap, charWidth)[y] == GlyphRow(Row(bitmap, charWidth, charHeight, y))
  {
    if charHeight == 1 {
      assert Row(bitmap, charWidth, charHeight, 0) == bitmap;
    } else if charHeight > 1 {
      var rest := bitmap[charWidth..];
      assert |bitmap| == charWidth + charWidth * (charHeight - 1);
      GlyphRowsShape(rest, charWidth, charHeight - 1);
      assert Row(bitmap, charWidth, charHeight, 0) == bitmap[..charWidth];
      forall y | 1 <= y < charHeight
        ensures GlyphRows(bitmap, charWidth)[y] == GlyphRow(Row(bitmap, charWidth, charHeight, y))
      {
        RowShift(bitmap, charWidth, charHeight, y - 1);
      }
    }
  }

  /** Under a rasteriser that fills its canvas, every character contributes
      `charHeight` rows of `2 * charWidth` characters: blanks for a failure,
      row `y` of its pixels otherwise. */
  lemma CharGridShape(raster: Raster, c: char, charWidth: nat, charHeight: nat)
    requires WellSized(raster, charWidth, charHeight)
    ensures |CharGrid(raster, c, charWidth, charHeight)| == charHeight
    ensures forall y :: 0 <= y < charHeight ==> |CharGrid(raster, c, charWidth, charHeight)[y]| == 2 * charWidth
    ensures raster(c).None? ==> forall y :: 0 <= y < charHeight ==>
      CharGrid(raster, c, charWidth, charHeight)[y] == seq(2 * charWidth, _ => ' ')
    ensures raster(c).Some? && charWidth > 0 ==> forall y :: 0 <= y < charHeight ==>
      CharGrid(raster, c, charWidth, charHeight)[y] == GlyphRow(Row(raster(c).value, charWidth, charHeight, y))
  {
    if raster(c).Some? && charWidth > 0 {
      var bitmap := raster(c).value;
      GlyphRowsShape(bitmap, charWidth, charHeight);
      forall y | 0 <= y < charHeight
        ensures |GlyphRow(Row(bitmap, charWidth, charHeight, y))| == 2 * charWidth
      {
        GlyphRowLayout(Row(bitmap, charWidth, charHeight, y));
      }
    }
  }

  /** Every grid of the sentence has `charHeight` rows of `2 * charWidth`
      characters. */
  lemma GridsShape(sentence: string, raster: Raster, charWidth: nat, charHeight: nat)
    requires WellSized(raster, charWidth, charHeight)
    ensures forall k :: 0 <= k < |sentence| ==>
      |Grids(sentence, raster, charWidth, charHeight)[k]| == charHeight
    ensures forall k, y :: 0 <= k < |sentence| && 0 <= y < charHeight ==>
      |Grids(sentence, raster, charWidth, charHeight)[k][y]| == 2 * charWidth
  {
    forall k | 0 <= k < |sentence|
      ensures |Grids(sentence, raster, charWidth, charHeight)[k]| == charHeight
      ensures forall y :: 0 <= y < charHeight ==>
        |Grids(sentence, raster, charWidth, charHeight)[k][y]| == 2 * charWidth
    {
      CharGridShape(raster, sentence[k], charWidth, charHeight);
    }
  }

  /** A non-empty sentence of `n` characters renders as `charHeight` lines,
      each `n` glyphs of `2 * charWidth` characters and `n - 1` separating
      blanks long. */
  lemma SentenceShape(sentence: string, raster: Raster, charWidth: nat, charHeight: nat)
    requires WellSized(raster, charWidth, charHeight) && sentence != []
    ensures var lines := SentenceLines(Grids(sentence, raster, charWidth, charHeight));
      |lines| == charHeight
      && forall y :: 0 <= y < charHeight ==>
           |lines[y]| == |sentence| * (2 * charWidth) + (|sentence| - 1)
  {
    var grids := Grids(sentence, raster, charWidth, charHeight);
    GridsShape(sentence, raster, charWidth, charHeight);
    var lines := SentenceLines(grids);
    assert |lines| == charHeight;
    forall y | 0 <= y < charHeight
      ensures |lines[y]| == |sentence| * (2 * charWidth) + (|sentence| - 1)
    {
      JoinUniformLength(Column(grids, y), " ", 2 * charWidth);
    }
  }

  /** Character `k` of the sentence occupies the `2 * charWidth` characters
      starting at `k * (2 * charWidth + 1)` of every line: blanks when it
      could not be drawn, its pixel row otherwise. */
  lemma SentenceCell(sentence: string, raster: Raster, charWidth: nat, charHeight: nat, k: nat, y: nat)
    requires WellSized(raster, charWidth, charHeight)
    requires k < |sentence| && y < charHeight
    ensures var lines := SentenceLines(Grids(sentence, raster, charWidth, charHeight));
      var at := k * (2 * charWidth + 1);
      y < |lines| && at + 2 * charWidth <= |lines[y]|
      && (raster(sentence[k]).None? ==> lines[y][at .. at + 2 * charWidth] == seq(2 * charWidth, _ => ' '))
      && (raster(sentence[k]).Some? && charWidth > 0 ==>
            lines[y][at .. at + 2 * charWidth]
            == GlyphRow(Row(raster(sentence[k]).value, charWidth, charHeight, y)))
  {
    var grids := Grids(sentence, raster, charWidth, charHeight);
    GridsShape(sentence, raster, charWidth, charHeight);
    CharGridShape(raster, sentence[k], charWidth, charHeight);
    LineCell(grids, 2 * charWidth, charHeight, k, y);
  }

  /** In the lines of grids that all have `height` rows of `width`
      characters, row `y` of grid `k` starts `k * (width + 1)` characters in. */
  lemma LineCell(grids: seq<seq<string>>, width: nat, height: nat, k: nat, y: nat)
    requires forall j :: 0 <= j < |grids| ==> |grids[j]| == height
    requires forall j, r :: 0 <= j < |grids| && 0 <= r < height ==> |grids[j][r]| == width
    requires k < |grids| && y < height
    ensures |SentenceLines(grids)| == height
    ensures k * (width + 1) + width <= |SentenceLines(grids)[y]|
    ensures SentenceLines(grids)[y][k * (width + 1) .. k * (width + 1) + width] == grids[k][y]
  {
    var column := Column(grids, y);
    assert SentenceLines(grids)[y] == JoinWith(column, " ");
    JoinUniformAt(column, " ", width, k);
  }

  /** A drawn pixel is `██` exactly when it is ink. */
  lemma BlockDecode(pixel: int)
    ensures Block(pixel) == "\U{2588}\U{2588}" <==> pixel == 0
    ensures Block(pixel) == "  " <==> pixel != 0
  {
    if pixel != 0 {
      assert Block(pixel)[0] != "\U{2588}\U{2588}"[0];
    } else {
      assert Block(pixel)[0] != "  "[0];
    }
  }
}
