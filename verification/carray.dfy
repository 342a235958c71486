/** The two C-array encoders of a glyph: the verbose one, one commented line
    per pixel row (auto_gen.py:87-107), and the compact one, every byte
    token `0xHH,` wrapped at 160 characters (auto_gen.py:124-148). Both emit
    the bytes of `Packing.Pack`. */
module CArray {
  import opened Common
  import opened Text
  import opened Packing

  /* ---------------- verbose encoder ---------------- */

  /** The comment that opens a glyph: code in decimal and `0xHH`, then the
      printable form of the character (`repr(char)[1:-1]`, a parameter here). */
  function VerboseHeader(printable: string, code: nat): string
  {
    "/* " + Decimal(code) + " 0x" + Hex02(code) + " " + printable + " */"
  }

  /** The row drawn in binary digits, `'1'` for ink. */
  function RowDigits(row: seq<int>): string
  {
    seq(|row|, x requires 0 <= x < |row| => if row[x] == 0 then '1' else '0')
  }

  /** The comment that closes a row line. */
  function DigitsComment(digits: string): string
  {
    "/* Binary digit: " + digits + " */"
  }

  /** One row line: the row's byte tokens joined by `", "`, then `", "` and
      a comment holding its binary digits. */
  function VerboseRow(row: seq<int>): string
  {
    JoinWith(HexTokens(PackRow(row), ""), ", ") + ", " + DigitsComment(RowDigits(row))
  }

  /** The lines `bitmap_to_c_array` joins with newlines: the header, then one
      line per pixel row. */
  function VerboseLines(bitmap: seq<int>, width: nat, height: nat, printable: string, code: nat): seq<string>
    requires |bitmap| == width * height
  {
    [VerboseHeader(printable, code)]
      + seq(height, y requires 0 <= y < height => VerboseRow(Row(bitmap, width, height, y)))
  }

  /** The innermost loop of `bitmap_to_c_array`: packs the up to 8 pixels
      of row `y` from column `x` into a byte, MSB first, and spells them in
      binary digits. */
  method PackGroupWithDigits(bitmap: seq<int>, width: nat, height: nat, x: nat, y: nat)
    returns (byte: bv8, digits: string)
    requires |bitmap| == width * height && x < width && y < height
    ensures byte == GroupByte(Row(bitmap, width, height, y), x, Min(8, width - x))
    ensures digits == RowDigits(Row(bitmap, width, height, y))[x .. x + Min(8, width - x)]
  {
    ghost var row := Row(bitmap, width, height, y);
    byte, digits := 0, "";
    for bit := 0 to Min(8, width - x)
      invariant byte == GroupByte(row, x, bit)
      invariant digits == RowDigits(row)[x .. x + bit]
    {
      if Pixel(bitmap, width, height, x + bit, y) == 0 {
        byte := byte | BitMask(bit);
      }
      digits := digits + if Pixel(bitmap, width, height, x + bit, y) == 0 then "1" else "0";
    }
  }

  /** The loop over the column groups of row `y` in `bitmap_to_c_array`:
      collects the row's byte tokens and binary digits and formats the
      row's line. */
  method VerboseRowLine(bitmap: seq<int>, width: nat, height: nat, y: nat) returns (rowLine: string)
    requires |bitmap| == width * height && y < height
    ensures rowLine == VerboseRow(Row(bitmap, width, height, y))
  {
    ghost var row := Row(bitmap, width, height, y);
    var rowBytes: seq<string> := [];
    var digits := "";
    ghost var packed: seq<bv8> := [];
    var x := 0;
    while x < width
      invariant packed + RowFrom(row, x) == PackRow(row)
      invariant rowBytes == HexTokens(packed, "")
      invariant digits == RowDigits(row)[..Min(x, width)]
    {
      var byte, groupDigits := PackGroupWithDigits(bitmap, width, height, x, y);
      VerboseStep(row, x, packed, byte, digits, groupDigits);
      rowBytes := rowBytes + ["0x" + HexDigits(byte)];
      digits := digits + groupDigits;
      packed := packed + [byte];
      x := x + 8;
    }
    assert RowFrom(row, x) == [];
    assert packed + [] == packed;
    assert digits == RowDigits(row);
    rowLine := JoinWith(rowBytes, ", ") + ", " + DigitsComment(digits);
  }

  /** One turn of the column loop of `bitmap_to_c_array`: the group's byte
      joins the row's bytes and tokens, its digits the row's digits. */
  lemma VerboseStep(row: seq<int>, x: nat, packed: seq<bv8>, byte: bv8, digits: string, groupDigits: string)
    requires x < |row| && byte == GroupByte(row, x, Min(8, |row| - x))
    requires packed + RowFrom(row, x) == PackRow(row)
    requires digits == RowDigits(row)[..x]
    requires groupDigits == RowDigits(row)[x .. x + Min(8, |row| - x)]
    ensures (packed + [byte]) + RowFrom(row, x + 8) == PackRow(row)
    ensures HexTokens(packed + [byte], "") == HexTokens(packed, "") + ["0x" + HexDigits(byte)]
    ensures digits + groupDigits == RowDigits(row)[..Min(x + 8, |row|)]
  {
    assert RowFrom(row, x) == [byte] + RowFrom(row, x + 8);
    AppendShift(packed, [byte], RowFrom(row, x + 8));
    var token := "0x" + HexDigits(byte);
    assert HexToken(byte, "") == token + "" == token;
    assert HexTokens(packed + [byte], "") == HexTokens(packed, "") + [HexToken(byte, "")];
    assert RowDigits(row)[..x] + RowDigits(row)[x .. x + Min(8, |row| - x)] == RowDigits(row)[..Min(x + 8, |row|)];
  }

  /** `bitmap_to_c_array`: the header, then for each row the line built
      from its packed bytes and binary digits; the lines joined by newlines. */
  method BitmapToCArray(bitmap: seq<int>, width: nat, height: nat, printable: string, code: nat)
    returns (text: string)
    requires |bitmap| == width * height
    ensures text == JoinWith(VerboseLines(bitmap, width, height, printable, code), "\n")
  {
    var result := [VerboseHeader(printable, code)];
    for y := 0 to height
      invariant result == VerboseLines(bitmap, width, height, printable, code)[..y + 1]
    {
      var rowLine := VerboseRowLine(bitmap, width, height, y);
      VerboseLinesGrow(bitmap, width, height, printable, code, y);
      result := result + [rowLine];
    }
    assert result == VerboseLines(bitmap, width, height, printable, code);
    text := JoinWith(result, "\n");
  }

  /** The verbose lines up to row `y` are those up to row `y - 1` and row `y`'s line. */
  lemma VerboseLinesGrow(bitmap: seq<int>, width: nat, height: nat, printable: string, code: nat, y: nat)
    requires |bitmap| == width * height && y < height
    ensures |VerboseLines(bitmap, width, height, printable, code)| == height + 1
    ensures VerboseLines(bitmap, width, height, printable, code)[..y + 2]
         == VerboseLines(bitmap, width, height, printable, code)[..y + 1] + [VerboseRow(Row(bitmap, width, height, y))]
  {
  }

  /** Reads the rows of a verbose array back: each line starts with
      `bytesPerRow` tokens `0xHH` separated by `", "`. */
  function ReadVerbose(lines: seq<string>, bytesPerRow: nat): Option<seq<bv8>>
  {
    if lines == [] then Some([])
    else match (DecodeTokens(lines[0], ", ", bytesPerRow), ReadVerbose(lines[1..], bytesPerRow))
      case (Some(row), Some(rest)) => Some(row + rest)
      case _ => None
  }

  /** A row line starts with the row's packed bytes. */
  lemma VerboseRowDecodes(row: seq<int>)
    ensures DecodeTokens(VerboseRow(row), ", ", BytesPerRow(|row|)) == Some(PackRow(row))
  {
    var bytes := PackRow(row);
    if bytes != [] {
      var tail := DigitsComment(RowDigits(row));
      JoinThenSep(HexTokens(bytes, ""), ", ");
      SuffixedTokens(bytes, ", ");
      DecodeHexTokens(bytes, ", ", tail);
    }
  }

  /** The digits comment of a row line agrees with the row's bytes: digit
      `x` is `'1'` exactly when bit `x % 8` of byte `x / 8` is set. */
  lemma VerboseDigits(row: seq<int>)
    ensures |RowDigits(row)| == |row|
    ensures forall x :: 0 <= x < |row| ==>
      (RowDigits(row)[x] == '1' <==> BitSet(PackRow(row)[x / 8], x % 8))
    ensures forall x :: 0 <= x < |row| ==> RowDigits(row)[x] in "01"
  {
    forall x | 0 <= x < |row|
      ensures RowDigits(row)[x] == '1' <==> BitSet(PackRow(row)[x / 8], x % 8)
    {
      PackRowBit(row, x / 8, x % 8);
    }
  }

  /** The verbose array has `height + 1` lines, the header first, and its
      row lines read back to exactly the packed glyph. */
  lemma VerboseRoundTrip(bitmap: seq<int>, width: nat, height: nat, printable: string, code: nat)
    requires |bitmap| == width * height
    ensures |VerboseLines(bitmap, width, height, printable, code)| == height + 1
    ensures VerboseLines(bitmap, width, height, printable, code)[0] == VerboseHeader(printable, code)
    ensures ReadVerbose(VerboseLines(bitmap, width, height, printable, code)[1..], BytesPerRow(width))
         == Some(Pack(bitmap, width, height))
  {
    var lines := VerboseLines(bitmap, width, height, printable, code)[1..];
    ReadVerboseRows(bitmap, width, height, lines, 0);
  }

  lemma {:induction false} ReadVerboseRows(bitmap: seq<int>, width: nat, height: nat, lines: seq<string>, y: nat)
    requires |bitmap| == width * height && y <= height
    requires |lines| == height
    requires forall j :: 0 <= j < height ==> lines[j] == VerboseRow(Row(bitmap, width, height, j))
    ensures ReadVerbose(lines[y..], BytesPerRow(width)) == Some(Concat(PackedRows(bitmap, width, height)[y..]))
    decreases height - y
  {
    var rows := PackedRows(bitmap, width, height);
    if y < height {
      ReadVerboseRows(bitmap, width, height, lines, y + 1);
      VerboseRowDecodes(Row(bitmap, width, height, y));
      assert lines[y..][1..] == lines[y + 1..];
      assert rows[y..][1..] == rows[y + 1..];
    }
  }

  /* ---------------- compact encoder ---------------- */

  /** The longest a compact line may grow. */
  const LineLimit := 160

  /** Each token `0xHH,` is 5 characters, so 32 of them fill a line. */
  const TokensPerLine := 32

  /** The lines of the compact array: the tokens `0xHH,` of the bytes, 32 to
      a line, the last line holding the rest. */
  function CompactLines(bytes: seq<bv8>): seq<string>
    decreases |bytes|
  {
    if bytes == [] then []
    else
      var n := Min(TokensPerLine, |bytes|);
      [Concat(HexTokens(bytes[..n], ","))] + CompactLines(bytes[n..])
  }

  /** Up to 32 bytes make a single line. */
  lemma CompactLinesOne(bytes: seq<bv8>)
    requires 0 < |bytes| <= TokensPerLine
    ensures CompactLines(bytes) == [Concat(HexTokens(bytes, ","))]
  {
    assert bytes[..|bytes|] == bytes;
    assert bytes[|bytes|..] == [];
  }

  /** Whole lines of bytes split off the front. */
  lemma {:induction false} CompactLinesSplit(a: seq<bv8>, b: seq<bv8>)
    requires |a| % TokensPerLine == 0
    ensures CompactLines(a + b) == CompactLines(a) + CompactLines(b)
    decreases |a|
  {
    if a == [] {
      assert a + b == b;
    } else {
      assert (a + b)[..TokensPerLine] == a[..TokensPerLine];
      assert (a + b)[TokensPerLine..] == a[TokensPerLine..] + b;
      CompactLinesSplit(a[TokensPerLine..], b);
    }
  }

  /** The first line of the compact array and the lines after it. */
  lemma CompactLinesHead(bytes: seq<bv8>)
    requires bytes != []
    ensures var n := Min(TokensPerLine, |bytes|);
      CompactLines(bytes)[0] == Concat(HexTokens(bytes[..n], ","))
      && CompactLines(bytes)[1..] == CompactLines(bytes[n..])
      && 0 < |CompactLines(bytes)[0]| == 5 * n
  {
    var n := Min(TokensPerLine, |bytes|);
    var first := Concat(HexTokens(bytes[..n], ","));
    assert CompactLines(bytes) == [first] + CompactLines(bytes[n..]);
    TokensLength(bytes[..n], ",");
    assert |first| == n * 5;
  }

  /** The compact array has one line per 32 bytes or part thereof; every
      line is non-empty, at most 160 characters and a whole number of
      5-character tokens, and every line but the last is full. */
  lemma {:induction false} CompactLinesShape(bytes: seq<bv8>)
    ensures |CompactLines(bytes)| == (|bytes| + TokensPerLine - 1) / TokensPerLine
    ensures forall i :: 0 <= i < |CompactLines(bytes)| ==>
      0 < |CompactLines(bytes)[i]| <= LineLimit && |CompactLines(bytes)[i]| % 5 == 0
    ensures forall i :: 0 <= i < |CompactLines(bytes)| - 1 ==> |CompactLines(bytes)[i]| == LineLimit
    decreases |bytes|
  {
    if bytes != [] {
      var n := Min(TokensPerLine, |bytes|);
      var lines := CompactLines(bytes);
      CompactLinesHead(bytes);
      CompactLinesShape(bytes[n..]);
      forall i | 1 <= i < |lines|
        ensures lines[i] == CompactLines(bytes[n..])[i - 1]
      {
      }
    }
  }

  /** The compact lines, laid end to end, are all the byte tokens in order. */
  lemma {:induction false} CompactLinesConcat(bytes: seq<bv8>)
    ensures Concat(CompactLines(bytes)) == Concat(HexTokens(bytes, ","))
    decreases |bytes|
  {
    if bytes != [] {
      var n := Min(TokensPerLine, |bytes|);
      CompactLinesHead(bytes);
      CompactLinesConcat(bytes[n..]);
      HexTokensAppend(bytes[..n], bytes[n..], ",");
      assert bytes[..n] + bytes[n..] == bytes;
    }
  }

  /** Reading the compact lines back, laid end to end, gives the bytes. */
  lemma CompactRoundTrip(bytes: seq<bv8>)
    ensures DecodeTokens(Concat(CompactLines(bytes)), ",", |bytes|) == Some(bytes)
  {
    CompactLinesConcat(bytes);
    DecodeHexTokens(bytes, ",", "");
    assert Concat(HexTokens(bytes, ",")) + "" == Concat(HexTokens(bytes, ","));
  }

  /** A line the wrapping loop builds ends with a token's `,`, if it is not empty. */
  predicate LineOfTokens(line: string)
  {
    line == "" || line[|line| - 1] == ','
  }

  /** The state of the wrapping loop: the lines flushed so far and the
      current line. */
  datatype Wrap = Wrap(lines: seq<string>, line: string)

  /** The wrapping step for one token `item`: a token that would push the
      line past 160 characters flushes the line and starts a new one;
      otherwise it is appended. (The source right-strips the flushed line;
      `AddItem` shows that this changes no line of tokens.) */
  function AddToken(w: Wrap, item: string): Wrap
  {
    if |w.line| + |item| > LineLimit then Wrap(w.lines + [w.line], item)
    else Wrap(w.lines, w.line + item)
  }

  /** The wrapping state after the tokens of `bytes`, taken in order. */
  function WrapTokens(bytes: seq<bv8>): Wrap
    decreases |bytes|
  {
    if bytes == [] then Wrap([], "")
    else AddToken(WrapTokens(bytes[..|bytes| - 1]), HexToken(bytes[|bytes| - 1], ","))
  }

  /** The final flush: a non-empty current line becomes the last line. */
  function Flushed(w: Wrap): seq<string>
  {
    if w.line != "" then w.lines + [w.line] else w.lines
  }

  lemma WrapTokensSnoc(bytes: seq<bv8>, b: bv8)
    ensures WrapTokens(bytes + [b]) == AddToken(WrapTokens(bytes), HexToken(b, ","))
  {
    assert (bytes + [b])[..|bytes|] == bytes;
  }

  /** A token that would push the line past 160 characters flushes a full
      line of 32 tokens, the next of the compact lines. */
  lemma WrapFlush(result: seq<string>, line: string, done: seq<bv8>, pending: seq<bv8>, b: bv8)
    requires |done| % TokensPerLine == 0 && result == CompactLines(done)
    requires |pending| <= TokensPerLine && line == Concat(HexTokens(pending, ","))
    requires |line| + |HexToken(b, ",")| > LineLimit
    ensures |done + pending| % TokensPerLine == 0 && result + [line] == CompactLines(done + pending)
    ensures HexToken(b, ",") == Concat(HexTokens([b], ","))
  {
    TokensLength(pending, ",");
    TokenLength(b, ",");
    assert |pending| == TokensPerLine;
    CompactLinesSplit(done, pending);
    CompactLinesOne(pending);
    assert Concat(HexTokens([b], ",")) == HexToken(b, ",") + Concat([]);
  }

  /** Otherwise the token is appended to the current line, which stays
      within 32 tokens. */
  lemma WrapAppend(line: string, pending: seq<bv8>, b: bv8)
    requires |pending| <= TokensPerLine && line == Concat(HexTokens(pending, ","))
    requires |line| + |HexToken(b, ",")| <= LineLimit
    ensures |pending + [b]| <= TokensPerLine
    ensures line + HexToken(b, ",") == Concat(HexTokens(pending + [b], ","))
  {
    TokensLength(pending, ",");
    TokenLength(b, ",");
    HexTokensAppend(pending, [b], ",");
    assert Concat(HexTokens([b], ",")) == HexToken(b, ",") + Concat([]);
  }

  /** The invariant of the wrapping loop: after the tokens of `bytes`, the
      flushed lines are the compact lines of a prefix `done` of whole lines,
      and the current line holds the tokens of the rest, at most 32 of them. */
  lemma {:induction false} WrapTokensSplit(bytes: seq<bv8>) returns (done: seq<bv8>, pending: seq<bv8>)
    ensures done + pending == bytes
    ensures |done| % TokensPerLine == 0 && WrapTokens(bytes).lines == CompactLines(done)
    ensures |pending| <= TokensPerLine && WrapTokens(bytes).line == Concat(HexTokens(pending, ","))
    decreases |bytes|
  {
    if bytes == [] {
      done, pending := [], [];
      assert HexTokens([], ",") == [];
    } else {
      var prefix, b := bytes[..|bytes| - 1], bytes[|bytes| - 1];
      assert prefix + [b] == bytes;
      var done0, pending0 := WrapTokensSplit(prefix);
      var w := WrapTokens(prefix);
      WrapTokensSnoc(prefix, b);
      if |w.line| + |HexToken(b, ",")| > LineLimit {
        WrapFlush(w.lines, w.line, done0, pending0, b);
        done, pending := done0 + pending0, [b];
      } else {
        WrapAppend(w.line, pending0, b);
        done, pending := done0, pending0 + [b];
        AppendShift(done0, pending0, [b]);
      }
    }
  }

  /** The current line, if not empty, is the last compact line. */
  lemma FinalLine(pending: seq<bv8>, line: string)
    requires |pending| <= TokensPerLine && line == Concat(HexTokens(pending, ","))
    ensures CompactLines(pending) == if line != "" then [line] else []
  {
    if pending == [] {
      assert HexTokens(pending, ",") == [];
    } else {
      CompactLinesOne(pending);
      TokensLength(pending, ",");
    }
  }

  /** After the last byte, flushing a non-empty line gives the compact lines. */
  lemma WrapFinish(result: seq<string>, line: string, done: seq<bv8>, pending: seq<bv8>)
    requires |done| % TokensPerLine == 0 && result == CompactLines(done)
    requires |pending| <= TokensPerLine && line == Concat(HexTokens(pending, ","))
    ensures Flushed(Wrap(result, line)) == CompactLines(done + pending)
  {
    CompactLinesSplit(done, pending);
    FinalLine(pending, line);
    if line == "" {
      assert result + [] == result;
    }
  }

  /** Wrapping the tokens one at a time as the loop does, then flushing,
      gives exactly the compact lines. */
  lemma WrapTokensLines(bytes: seq<bv8>)
    ensures Flushed(WrapTokens(bytes)) == CompactLines(bytes)
  {
    var done, pending := WrapTokensSplit(bytes);
    WrapFinish(WrapTokens(bytes).lines, WrapTokens(bytes).line, done, pending);
  }

  /** The innermost loop of `bitmap_to_c_array_compact`: packs the up to 8
      pixels of row `y` from column `x` into a byte, MSB first. */
  method PackGroup(bitmap: seq<int>, width: nat, height: nat, x: nat, y: nat) returns (byte: bv8)
    requires |bitmap| == width * height && x < width && y < height
    ensures byte == GroupByte(Row(bitmap, width, height, y), x, Min(8, width - x))
  {
    ghost var row := Row(bitmap, width, height, y);
    byte := 0;
    for bit := 0 to Min(8, width - x)
      invariant byte == GroupByte(row, x, bit)
    {
      if Pixel(bitmap, width, height, x + bit, y) == 0 {
        byte := byte | BitMask(bit);
      }
    }
  }

  /** The loop over the column groups of row `y` in
      `bitmap_to_c_array_compact`: each group's byte token goes through the
      wrapping step. */
  method CompactRow(bitmap: seq<int>, width: nat, height: nat, y: nat,
                    result: seq<string>, line: string, ghost emitted: seq<bv8>)
    returns (result': seq<string>, line': string)
    requires |bitmap| == width * height && y < height
    requires Wrap(result, line) == WrapTokens(emitted)
    requires LineOfTokens(line)
    ensures LineOfTokens(line')
    ensures Wrap(result', line') == WrapTokens(emitted + PackRow(Row(bitmap, width, height, y)))
  {
    ghost var row := Row(bitmap, width, height, y);
    ghost var sent := emitted;
    result', line' := result, line;
    var x := 0;
    while x < width
      invariant sent + RowFrom(row, x) == emitted + PackRow(row)
      invariant Wrap(result', line') == WrapTokens(sent)
      invariant LineOfTokens(line')
    {
      var byte := PackGroup(bitmap, width, height, x, y);
      ghost var before := Wrap(result', line');
      result', line' := AddItem(result', line', byte);
      CompactStep(row, x, emitted, sent, byte, before, Wrap(result', line'));
      sent := sent + [byte];
      x := x + 8;
    }
    assert RowFrom(row, x) == [];
    assert sent + [] == sent;
  }

  /** The wrapping step of `bitmap_to_c_array_compact` for one byte: its
      token `0xHH,` is formatted and appended, or the line is flushed
      right-stripped (which leaves a line of tokens as it is) and the token
      begins the next one. */
  method AddItem(result: seq<string>, line: string, byte: bv8) returns (result': seq<string>, line': string)
    requires LineOfTokens(line)
    ensures Wrap(result', line') == AddToken(Wrap(result, line), HexToken(byte, ","))
    ensures line' != [] && LineOfTokens(line')
  {
    var item := "0x" + HexDigits(byte) + ",";
    if |line| + |item| > LineLimit {
      assert RStrip(line) == line;
      result', line' := result + [RStrip(line)], item;
    } else {
      result', line' := result, line + item;
    }
  }

  /** One turn of the column loop: the byte of the group at `x` joins the
      bytes sent, and its token the wrapping state. */
  lemma CompactStep(row: seq<int>, x: nat, emitted: seq<bv8>, sent: seq<bv8>, byte: bv8, w: Wrap, w': Wrap)
    requires x < |row| && byte == GroupByte(row, x, Min(8, |row| - x))
    requires sent + RowFrom(row, x) == emitted + PackRow(row)
    requires w == WrapTokens(sent) && w' == AddToken(w, HexToken(byte, ","))
    ensures (sent + [byte]) + RowFrom(row, x + 8) == emitted + PackRow(row)
    ensures w' == WrapTokens(sent + [byte])
  {
    WrapTokensSnoc(sent, byte);
    assert RowFrom(row, x) == [byte] + RowFrom(row, x + 8);
    AppendShift(sent, [byte], RowFrom(row, x + 8));
  }

  /** The packed bytes of rows `0..y` are those of rows `0..y-1` followed by row `y`'s. */
  lemma PackedPrefix(bitmap: seq<int>, width: nat, height: nat, y: nat)
    requires |bitmap| == width * height && y < height
    ensures Concat(PackedRows(bitmap, width, height)[..y + 1])
         == Concat(PackedRows(bitmap, width, height)[..y]) + PackRow(Row(bitmap, width, height, y))
  {
    var rows := PackedRows(bitmap, width, height);
    assert rows[..y + 1] == rows[..y] + [rows[y]];
    ConcatSnoc(rows[..y], rows[y]);
  }

  /** `bitmap_to_c_array_compact`: the same packing as the verbose
      encoder, each byte's token `0xHH,` appended to the current line
      unless it would pass 160 characters, in which case the line is
      flushed (right-stripped) and a new one begun; a non-empty last line
      is flushed at the end and the lines joined by newlines. The character
      and its code are not used. */
  method BitmapToCArrayCompact(bitmap: seq<int>, width: nat, height: nat, printable: string, code: nat)
    returns (text: string)
    requires |bitmap| == width * height
    ensures text == JoinWith(CompactLines(Pack(bitmap, width, height)), "\n")
  {
    var result: seq<string> := [];
    var line := "";
    ghost var rows := PackedRows(bitmap, width, height);
    for y := 0 to height
      invariant Wrap(result, line) == WrapTokens(Concat(rows[..y]))
      invariant LineOfTokens(line)
    {
      result, line := CompactRow(bitmap, width, height, y, result, line, Concat(rows[..y]));
      PackedPrefix(bitmap, width, height, y);
    }
    assert rows[..height] == rows;
    WrapTokensLines(Concat(rows));
    if line != "" {
      result := result + [line];
    }
    text := JoinWith(result, "\n");
  }

  /* ---------------- the two encoders agree ---------------- */

  /** The verbose rows and the compact lines carry the same bytes: read
      back, both give the packed glyph, whose bits are the glyph's ink. */
  lemma EncodersAgree(bitmap: seq<int>, width: nat, height: nat, printable: string, code: nat)
    requires |bitmap| == width * height
    ensures ReadVerbose(VerboseLines(bitmap, width, height, printable, code)[1..], BytesPerRow(width))
         == DecodeTokens(Concat(CompactLines(Pack(bitmap, width, height))), ",", height * BytesPerRow(width))
    ensures ReadVerbose(VerboseLines(bitmap, width, height, printable, code)[1..], BytesPerRow(width))
         == Some(Pack(bitmap, width, height))
    ensures Unpack(Pack(bitmap, width, height), width, height) == InkRows(bitmap, width, height)
  {
    VerboseRoundTrip(bitmap, width, height, printable, code);
    CompactRoundTrip(Pack(bitmap, width, height));
    UnpackPack(bitmap, width, height);
  }
}
