/** The bordered text chart of a glyph, `bitmap_to_ascii_with_border`
    (auto_gen.py:39-53): a header of column numbers, a top rule, one line per
    pixel row framed by `│`, and a bottom rule. */
module Chart {
  import opened Common
  import opened Text
  import opened Packing

  /** A pixel drawn three characters wide: `██ ` for ink, blanks otherwise. */
  function Cell(pixel: int): string
  {
    if pixel == 0 then "\U{2588}\U{2588} " else "   "
  }

  /** `f"{i:2d}"`: a row or column number right-aligned in two places. */
  function Label(i: nat): string
  {
    PadLeft(Decimal(i), 2, ' ')
  }

  /** The header: three blanks, then every column number followed by a blank. */
  function ChartHeader(width: nat): string
  {
    "   " + Concat(seq(width, i requires 0 <= i < width => Label(i) + " "))
  }

  /** A rule: two blanks, a corner, `3 * width` horizontal bars, a corner. */
  function Rule(left: char, right: char, width: nat): string
  {
    "  " + [left] + seq(3 * width, _ => '\U{2500}') + [right]
  }

  /** The cells of a pixel row, one per pixel. */
  function Cells(row: seq<int>): seq<string>
  {
    seq(|row|, x requires 0 <= x < |row| => Cell(row[x]))
  }

  /** The line of pixel row `y`: its number, `│`, the cells, `│`. */
  function ChartRow(row: seq<int>, y: nat): string
  {
    Label(y) + "\U{2502}" + Concat(Cells(row)) + "\U{2502}"
  }

  /** The lines `bitmap_to_ascii_with_border` joins with newlines. */
  function ChartLines(bitmap: seq<int>, width: nat, height: nat): seq<string>
    requires |bitmap| == width * height
  {
    [ChartHeader(width), Rule('\U{250C}', '\U{2510}', width)]
      + seq(height, y requires 0 <= y < height => ChartRow(Row(bitmap, width, height, y), y))
      + [Rule('\U{2514}', '\U{2518}', width)]
  }

  /** The inner loop of `bitmap_to_ascii_with_border`: the line of row `y`,
      built by appending one cell per pixel. */
  method ChartRowLine(bitmap: seq<int>, width: nat, height: nat, y: nat) returns (line: string)
    requires |bitmap| == width * height && y < height
    ensures line == ChartRow(Row(bitmap, width, height, y), y)
  {
    ghost var cells := Cells(Row(bitmap, width, height, y));
    var prefix := Label(y) + "\U{2502}";
    var drawn := "";
    for x := 0 to width
      invariant drawn == Concat(cells[..x])
    {
      drawn := drawn + Cell(Pixel(bitmap, width, height, x, y));
      assert cells[..x + 1] == cells[..x] + [cells[x]];
      ConcatSnoc(cells[..x], cells[x]);
    }
    assert cells[..width] == cells;
    line := prefix + drawn + "\U{2502}";
  }

  /** `bitmap_to_ascii_with_border`: the header and top rule, a line per
      pixel row, the bottom rule, joined by newlines. */
  method BorderedChart(bitmap: seq<int>, width: nat, height: nat) returns (text: string)
    requires |bitmap| == width * height
    ensures text == JoinWith(ChartLines(bitmap, width, height), "\n")
  {
    var result := [ChartHeader(width), Rule('\U{250C}', '\U{2510}', width)];
    for y := 0 to height
      invariant result == ChartLines(bitmap, width, height)[..y + 2]
    {
      var line := ChartRowLine(bitmap, width, height, y);
      ChartLinesGrow(bitmap, width, height, y);
      result := result + [line];
    }
    result := result + [Rule('\U{2514}', '\U{2518}', width)];
    assert result == ChartLines(bitmap, width, height);
    text := JoinWith(result, "\n");
  }

  lemma ChartLinesGrow(bitmap: seq<int>, width: nat, height: nat, y: nat)
    requires |bitmap| == width * height && y < height
    ensures |ChartLines(bitmap, width, height)| == height + 3
    ensures ChartLines(bitmap, width, height)[..y + 3]
         == ChartLines(bitmap, width, height)[..y + 2] + [ChartRow(Row(bitmap, width, height, y), y)]
  {
  }

  /** Every cell is three characters, so a row's cells take `3 * |row|`,
      and cell `x` starts at `3 * x`. */
  lemma CellsLayout(row: seq<int>, x: nat)
    requires x < |row|
    ensures |Concat(Cells(row))| == 3 * |row|
    ensures Concat(Cells(row))[3 * x .. 3 * x + 3] == Cell(row[x])
  {
    var cells := Cells(row);
    ConcatUniformLength(cells, 3);
    ConcatUniformAt(cells, 3, x);
  }

  /** Numbers below 100 take exactly two places. */
  lemma LabelWidth(i: nat)
    requires i < 100
    ensures |Label(i)| == 2
  {
    DecimalWidth(i);
  }

  /** The chart has `height + 3` lines for every canvas, empty ones
      included. Both rules are `3 * width + 4` characters, and so is the
      header while the column numbers stay below 100 (with one blank less). */
  lemma ChartLayout(bitmap: seq<int>, width: nat, height: nat)
    requires |bitmap| == width * height
    ensures var lines := ChartLines(bitmap, width, height);
      |lines| == height + 3
      && lines[0] == ChartHeader(width)
      && |lines[1]| == 3 * width + 4 && |lines[height + 2]| == 3 * width + 4
      && (width <= 100 ==> |lines[0]| == 3 * width + 3)
  {
    if width <= 100 {
      HeaderLength(width);
    }
  }

  /** Line `y + 2` is row `y`'s line, `3 * width + 4` characters like the
      rules while its number is below 100. */
  lemma ChartRowLength(bitmap: seq<int>, width: nat, height: nat, y: nat)
    requires |bitmap| == width * height && y < height
    ensures var lines := ChartLines(bitmap, width, height);
      |lines| == height + 3
      && lines[y + 2] == ChartRow(Row(bitmap, width, height, y), y)
      && (y < 100 ==> |lines[y + 2]| == 3 * width + 4)
  {
    var row := Row(bitmap, width, height, y);
    ChartRowAt(bitmap, width, height, y);
    ConcatUniformLength(Cells(row), 3);
    if y < 100 {
      LabelWidth(y);
    }
  }

  /** Pixel `x` of row `y` is drawn as its cell in the three characters
      after the row's number, the `│` and `x` earlier cells. */
  lemma ChartPixel(bitmap: seq<int>, width: nat, height: nat, y: nat, x: nat)
    requires |bitmap| == width * height && y < height && x < width
    ensures var line := ChartLines(bitmap, width, height)[y + 2];
      var at := |Label(y)| + 1 + 3 * x;
      at + 3 <= |line| && line[at .. at + 3] == Cell(Pixel(bitmap, width, height, x, y))
  {
    var row := Row(bitmap, width, height, y);
    ChartRowAt(bitmap, width, height, y);
    RowCell(row, y, x);
  }

  /** In the line of a pixel row, cell `x` follows the number, the `│` and
      `x` earlier cells. */
  lemma RowCell(row: seq<int>, y: nat, x: nat)
    requires x < |row|
    ensures var at := |Label(y)| + 1 + 3 * x;
      at + 3 <= |ChartRow(row, y)| && ChartRow(row, y)[at .. at + 3] == Cell(row[x])
  {
    var head := Label(y) + "\U{2502}";
    CellsLayout(row, x);
    SliceOfMiddle(head, Concat(Cells(row)), "\U{2502}", 3 * x, 3);
  }

  /** Line `y + 2` of the chart is row `y`'s line. */
  lemma ChartRowAt(bitmap: seq<int>, width: nat, height: nat, y: nat)
    requires |bitmap| == width * height && y < height
    ensures |ChartLines(bitmap, width, height)| == height + 3
    ensures ChartLines(bitmap, width, height)[y + 2] == ChartRow(Row(bitmap, width, height, y), y)
  {
    var top := [ChartHeader(width), Rule('\U{250C}', '\U{2510}', width)];
    var rows := seq(height, y requires 0 <= y < height => ChartRow(Row(bitmap, width, height, y), y));
    assert ChartLines(bitmap, width, height) == top + rows + [Rule('\U{2514}', '\U{2518}', width)];
    assert (top + rows)[y + 2] == rows[y];
  }

  /** A cell tells ink from background: `██ ` exactly for ink, three
      blanks exactly otherwise. */
  lemma CellDecode(pixel: int)
    ensures Cell(pixel) == "\U{2588}\U{2588} " <==> pixel == 0
    ensures Cell(pixel) == "   " <==> pixel != 0
  {
    if pixel != 0 {
      assert Cell(pixel)[0] != "\U{2588}\U{2588} "[0];
    } else {
      assert Cell(pixel)[0] != "   "[0];
    }
  }

  /** The header is three blanks and three characters per column while the
      column numbers stay below 100. */
  lemma {:induction false} HeaderLength(width: nat)
    requires width <= 100
    ensures |ChartHeader(width)| == 3 * width + 3
  {
    var labels := seq(width, i requires 0 <= i < width => Label(i) + " ");
    forall i | 0 <= i < width
      ensures |labels[i]| == 3
    {
      LabelWidth(i);
    }
    ConcatUniformLength(labels, 3);
  }
}
