/** MSB-first bit packing of a glyph bitmap, as both C-array encoders do it
    (auto_gen.py:91-101 and auto_gen.py:130-135): every pixel row becomes
    `(width + 7) // 8` bytes, and bit `7 - b` of the byte for the group at
    column `x` is set when pixel `x + b` of the row is ink (value 0). */
module Packing {
  import opened Common

  /** `(width + 7) // 8`. */
  function BytesPerRow(width: nat): nat
  {
    (width + 7) / 8
  }

  /** The mask of column `bit` of an 8-pixel group, most significant bit
      first: `0x80` for column 0 down to `0x01` for column 7. */
  function BitMask(bit: nat): bv8
    requires bit < 8
  {
    if bit == 0 then 0x80 else if bit == 1 then 0x40 else if bit == 2 then 0x20
    else if bit == 3 then 0x10 else if bit == 4 then 0x08 else if bit == 5 then 0x04
    else if bit == 6 then 0x02 else 0x01
  }

  /** The mask is the shift `1 << (7 - bit)` the encoders compute. */
  lemma BitMaskShift(bit: nat)
    requires bit < 8
    ensures (1 as bv8) << (7 - bit) == BitMask(bit)
  {
  }

  /** Column `bit` of the group is marked in byte `b`. */
  predicate BitSet(b: bv8, bit: nat)
    requires bit < 8
  {
    b & BitMask(bit) != 0
  }

  lemma MaskBits(x: bv8, i: nat, bit: nat)
    requires i < 8 && bit < 8
    ensures BitSet(x | BitMask(i), bit) <==> BitSet(x, bit) || i == bit
  {
  }

  lemma NoBitsIsZero(b: bv8)
    requires forall bit :: 0 <= bit < 8 ==> !BitSet(b, bit)
    ensures b == 0
  {
    assert !BitSet(b, 0) && !BitSet(b, 1) && !BitSet(b, 2) && !BitSet(b, 3);
    assert !BitSet(b, 4) && !BitSet(b, 5) && !BitSet(b, 6) && !BitSet(b, 7);
  }

  /** The pixel at column `x` of row `y` of a row-major `width` x `height`
      bitmap, `bitmap[y * width + x]`. */
  function Pixel(bitmap: seq<int>, width: nat, height: nat, x: nat, y: nat): int
    requires |bitmap| == width * height && x < width && y < height
  {
    RowInBounds(y, width, height);
    bitmap[y * width + x]
  }

  lemma PixelAt(bitmap: seq<int>, width: nat, height: nat, x: nat, y: nat)
    requires |bitmap| == width * height && x < width && y < height
    ensures y * width + x < |bitmap| && Pixel(bitmap, width, height, x, y) == bitmap[y * width + x]
  {
    RowInBounds(y, width, height);
  }

  /** Row `y` of the bitmap: its pixels from column 0 to `width - 1`. */
  function Row(bitmap: seq<int>, width: nat, height: nat, y: nat): (row: seq<int>)
    requires |bitmap| == width * height && y < height
    ensures |row| == width
    ensures forall x :: 0 <= x < width ==> row[x] == Pixel(bitmap, width, height, x, y)
  {
    RowInBounds(y, width, height);
    bitmap[y * width .. y * width + width]
  }

  /** The byte of the `n` pixels of `row` starting at column `start`, built
      as the innermost loop builds it: `byte |= 1 << (7 - bit)` for each ink
      pixel in turn. */
  function GroupByte(row: seq<int>, start: nat, n: nat): bv8
    requires n <= 8 && start + n <= |row|
  {
    if n == 0 then 0
    else if row[start + n - 1] == 0 then GroupByte(row, start, n - 1) | BitMask(n - 1)
    else GroupByte(row, start, n - 1)
  }

  /** Bit `bit` of a group byte is set exactly when that column lies within
      the group's `n` pixels and holds ink; the padding bits are 0. */
  lemma {:induction false} GroupBit(row: seq<int>, start: nat, n: nat, bit: nat)
    requires n <= 8 && start + n <= |row| && bit < 8
    ensures BitSet(GroupByte(row, start, n), bit) <==> bit < n && row[start + bit] == 0
  {
    if n > 0 {
      GroupBit(row, start, n - 1, bit);
      MaskBits(GroupByte(row, start, n - 1), n - 1, bit);
    }
  }

  /** The bytes of the groups at columns `x`, `x + 8`, ... of a row. */
  function RowFrom(row: seq<int>, x: nat): seq<bv8>
    decreases |row| - x
  {
    if x >= |row| then []
    else [GroupByte(row, x, Min(8, |row| - x))] + RowFrom(row, x + 8)
  }

  /** The packed bytes of one row, `(width + 7) // 8` of them. */
  function PackRow(row: seq<int>): (bytes: seq<bv8>)
    ensures |bytes| == BytesPerRow(|row|)
  {
    RowFromLength(row, 0);
    RowFrom(row, 0)
  }

  lemma {:induction false} RowFromLength(row: seq<int>, x: nat)
    requires x % 8 == 0
    ensures |RowFrom(row, x)| == if x >= |row| then 0 else (|row| - x + 7) / 8
    decreases |row| - x
  {
    if x < |row| {
      RowFromLength(row, x + 8);
    }
  }

  /** Byte `j` of the row from column `x` is the group at column `x + 8 * j`. */
  lemma {:induction false} RowFromAt(row: seq<int>, x: nat, j: nat)
    requires x + 8 * j < |row|
    ensures j < |RowFrom(row, x)|
    ensures RowFrom(row, x)[j] == GroupByte(row, x + 8 * j, Min(8, |row| - x - 8 * j))
    decreases j
  {
    var tail := RowFrom(row, x + 8);
    assert RowFrom(row, x) == [GroupByte(row, x, Min(8, |row| - x))] + tail;
    if j > 0 {
      RowFromAt(row, x + 8, j - 1);
      assert x + 8 + 8 * (j - 1) == x + 8 * j;
      assert RowFrom(row, x)[j] == tail[j - 1];
    }
  }

  /** The packed bytes of every row, row after row. */
  function PackedRows(bitmap: seq<int>, width: nat, height: nat): seq<seq<bv8>>
    requires |bitmap| == width * height
  {
    seq(height, y requires 0 <= y < height => PackRow(Row(bitmap, width, height, y)))
  }

  /** The packed glyph, `height * ((width + 7) // 8)` bytes. */
  function Pack(bitmap: seq<int>, width: nat, height: nat): (bytes: seq<bv8>)
    requires |bitmap| == width * height
    ensures |bytes| == height * BytesPerRow(width)
  {
    ConcatUniformLength(PackedRows(bitmap, width, height), BytesPerRow(width));
    Concat(PackedRows(bitmap, width, height))
  }

  /** Row `y`'s bytes sit at offset `y * ((width + 7) // 8)` of the packed glyph. */
  lemma PackRowAt(bitmap: seq<int>, width: nat, height: nat, y: nat)
    requires |bitmap| == width * height && y < height
    ensures y * BytesPerRow(width) + BytesPerRow(width) <= |Pack(bitmap, width, height)|
    ensures Pack(bitmap, width, height)[y * BytesPerRow(width) .. y * BytesPerRow(width) + BytesPerRow(width)]
         == PackRow(Row(bitmap, width, height, y))
  {
    ConcatUniformAt(PackedRows(bitmap, width, height), BytesPerRow(width), y);
  }

  /** The bit-level meaning of a packed row: bit `bit` of byte `k` is set
      exactly when column `8 * k + bit` lies inside the row and holds ink. */
  lemma PackRowBit(row: seq<int>, k: nat, bit: nat)
    requires k < BytesPerRow(|row|) && bit < 8
    ensures BitSet(PackRow(row)[k], bit) <==> 8 * k + bit < |row| && row[8 * k + bit] == 0
  {
    RowFromAt(row, 0, k);
    GroupBit(row, 8 * k, Min(8, |row| - 8 * k), bit);
  }

  /** The bit-level meaning of the packed glyph: in row `y`, bit `bit` of
      byte `k` is set exactly when column `8 * k + bit` lies inside the row
      and its pixel is ink. So ink is recorded MSB first and the padding
      bits past `width` are 0. */
  lemma PackedBit(bitmap: seq<int>, width: nat, height: nat, y: nat, k: nat, bit: nat)
    requires |bitmap| == width * height && y < height && k < BytesPerRow(width) && bit < 8
    ensures y * width + width <= |bitmap|
    ensures y * BytesPerRow(width) + k < |Pack(bitmap, width, height)|
    ensures BitSet(Pack(bitmap, width, height)[y * BytesPerRow(width) + k], bit)
        <==> 8 * k + bit < width && bitmap[y * width + 8 * k + bit] == 0
  {
    RowInBounds(y, width, height);
    var row := Row(bitmap, width, height, y);
    var bytes := Pack(bitmap, width, height);
    var bpr := BytesPerRow(width);
    PackRowAt(bitmap, width, height, y);
    assert bytes[y * bpr + k] == PackRow(row)[k] by {
      assert bytes[y * bpr .. y * bpr + bpr][k] == bytes[y * bpr + k];
    }
    PackRowBit(row, k, bit);
    if 8 * k + bit < width {
      PixelAt(bitmap, width, height, 8 * k + bit, y);
    }
  }

  /** The ink pattern of a row: `true` where the pixel is 0. */
  function Ink(row: seq<int>): seq<bool>
  {
    seq(|row|, x requires 0 <= x < |row| => row[x] == 0)
  }

  /** The ink pattern of the glyph, row by row. */
  function InkRows(bitmap: seq<int>, width: nat, height: nat): seq<seq<bool>>
    requires |bitmap| == width * height
  {
    seq(height, y requires 0 <= y < height => Ink(Row(bitmap, width, height, y)))
  }

  /** Unpacking one row MSB first: column `x` is bit `x % 8` of byte `x / 8`. */
  function UnpackRow(bytes: seq<bv8>, width: nat): seq<bool>
    requires |bytes| == BytesPerRow(width)
  {
    seq(width, x requires 0 <= x < width => BitSet(bytes[x / 8], x % 8))
  }

  /** Reads a packed glyph back into its ink pattern, row by row. */
  function Unpack(bytes: seq<bv8>, width: nat, height: nat): seq<seq<bool>>
    requires |bytes| == height * BytesPerRow(width)
  {
    seq(height, y requires 0 <= y < height =>
      RowInBounds(y, BytesPerRow(width), height);
      UnpackRow(bytes[y * BytesPerRow(width) .. y * BytesPerRow(width) + BytesPerRow(width)], width))
  }

  lemma UnpackPackRow(row: seq<int>)
    ensures UnpackRow(PackRow(row), |row|) == Ink(row)
  {
    forall x | 0 <= x < |row|
      ensures UnpackRow(PackRow(row), |row|)[x] == Ink(row)[x]
    {
      PackRowBit(row, x / 8, x % 8);
    }
  }

  /** Packing loses nothing: unpacking the packed bytes MSB first gives
      back exactly the ink pattern of the bitmap. */
  lemma UnpackPack(bitmap: seq<int>, width: nat, height: nat)
    requires |bitmap| == width * height
    ensures Unpack(Pack(bitmap, width, height), width, height) == InkRows(bitmap, width, height)
  {
    forall y | 0 <= y < height
      ensures Unpack(Pack(bitmap, width, height), width, height)[y] == InkRows(bitmap, width, height)[y]
    {
      PackRowAt(bitmap, width, height, y);
      UnpackPackRow(Row(bitmap, width, height, y));
    }
  }

  /** A row with no ink packs to zero bytes only. */
  lemma BlankRowPacksToZero(row: seq<int>)
    requires forall x :: 0 <= x < |row| ==> row[x] != 0
    ensures PackRow(row) == seq(BytesPerRow(|row|), _ => 0)
  {
    forall k | 0 <= k < BytesPerRow(|row|)
      ensures PackRow(row)[k] == 0
    {
      forall bit | 0 <= bit < 8
        ensures !BitSet(PackRow(row)[k], bit)
      {
        PackRowBit(row, k, bit);
      }
      NoBitsIsZero(PackRow(row)[k]);
    }
  }

  lemma {:induction false} ConcatZeros(parts: seq<seq<bv8>>, width: nat)
    requires forall i :: 0 <= i < |parts| ==> parts[i] == seq(width, _ => 0)
    ensures Concat(parts) == seq(|parts| * width, _ => 0)
  {
    ConcatUniformLength(parts, width);
    if parts != [] {
      ConcatZeros(parts[1..], width);
    }
  }

  /** A glyph with no ink packs to `height * ((width + 7) // 8)` zero bytes. */
  lemma BlankPacksToZero(bitmap: seq<int>, width: nat, height: nat)
    requires |bitmap| == width * height
    requires forall i :: 0 <= i < |bitmap| ==> bitmap[i] != 0
    ensures Pack(bitmap, width, height) == seq(height * BytesPerRow(width), _ => 0)
  {
    var rows := PackedRows(bitmap, width, height);
    forall y | 0 <= y < height
      ensures rows[y] == seq(BytesPerRow(width), _ => 0)
    {
      var row := Row(bitmap, width, height, y);
      forall x | 0 <= x < width
        ensures row[x] != 0
      {
        PixelAt(bitmap, width, height, x, y);
      }
      BlankRowPacksToZero(row);
    }
    ConcatZeros(rows, BytesPerRow(width));
  }
}
