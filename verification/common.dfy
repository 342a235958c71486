/** Shared vocabulary of the glyph generator: optional results, small
    arithmetic helpers, and the abstract rasteriser interfaces. */
module Common {

  /** A value, or the failure of the call that should have produced it. */
  datatype Option<+T> = None | Some(value: T)

  function Min(a: int, b: int): int { if a <= b then a else b }

  function Max(a: int, b: int): int { if a >= b then a else b }

  /** A bounding box as `ImageDraw.textbbox` reports it: (left, top, right, bottom). */
  datatype BBox = BBox(left: int, top: int, right: int, bottom: int)

  /** The font's bounding-box query at a point size: `None` stands for the
      exception the source catches while measuring. */
  type Measure = (nat, char) -> Option<BBox>

  /** The glyph rasteriser at the chosen font and size: the row-major pixel
      values of a glyph drawn with fill 0 on a background of 1, or `None`
      when drawing raised. */
  type Raster = char -> Option<seq<int>>

  /** The rasteriser's own promise: a glyph that renders fills the whole
      `width` x `height` canvas. */
  ghost predicate WellSized(raster: Raster, width: nat, height: nat)
  {
    forall c :: raster(c).Some? ==> |raster(c).value| == width * height
  }

  /** The parts laid end to end; on strings, Python's `''.join(parts)`. */
  function Concat<T>(parts: seq<seq<T>>): seq<T>
  {
    if parts == [] then [] else parts[0] + Concat(parts[1..])
  }

  lemma {:induction false} ConcatAppend<T>(a: seq<seq<T>>, b: seq<seq<T>>)
    ensures Concat(a + b) == Concat(a) + Concat(b)
  {
    if a == [] {
      assert a + b == b;
    } else {
      assert (a + b)[1..] == a[1..] + b;
      ConcatAppend(a[1..], b);
    }
  }

  /** One more part at the end. */
  lemma ConcatSnoc<T>(parts: seq<seq<T>>, last: seq<T>)
    ensures Concat(parts + [last]) == Concat(parts) + last
  {
    ConcatAppend(parts, [last]);
    assert Concat([last]) == last + Concat([]);
  }

  /** One more multiple of `step`. */
  lemma MulSucc(k: nat, step: nat)
    requires k > 0
    ensures k * step == step + (k - 1) * step
  {
  }

  /** Multiplying by a positive number keeps a strict order. */
  lemma MulLess(a: nat, b: nat, factor: nat)
    requires a < b && factor > 0
    ensures a * factor < b * factor
  {
  }

  /** Concatenation regroups. */
  lemma AppendShift<T>(a: seq<T>, b: seq<T>, r: seq<T>)
    ensures a + (b + r) == (a + b) + r
  {
  }

  /** A slice of the second part of `a + b` is a slice of `b`. */
  lemma SliceAfter<T>(a: seq<T>, b: seq<T>, i: nat, k: nat)
    requires i + k <= |b|
    ensures |a| + i + k <= |a + b|
    ensures (a + b)[|a| + i .. |a| + i + k] == b[i .. i + k]
  {
  }

  /** A slice of the middle part of `a + b + c` is a slice of `b`. */
  lemma SliceOfMiddle<T>(a: seq<T>, b: seq<T>, c: seq<T>, i: nat, k: nat)
    requires i + k <= |b|
    ensures |a| + i + k <= |a + b + c|
    ensures (a + b + c)[|a| + i .. |a| + i + k] == b[i .. i + k]
  {
  }

  /** Parts of one common length `width` lie back to back: the whole is
      `|parts| * width` long. */
  lemma {:induction false} ConcatUniformLength<T>(parts: seq<seq<T>>, width: nat)
    requires forall i :: 0 <= i < |parts| ==> |parts[i]| == width
    ensures |Concat(parts)| == |parts| * width
  {
    if parts != [] {
      ConcatUniformLength(parts[1..], width);
      assert |parts| * width == width + (|parts| - 1) * width;
    }
  }

  /** ... and part `k` is the slice `[k * width, k * width + width)`. */
  lemma {:induction false} ConcatUniformAt<T>(parts: seq<seq<T>>, width: nat, k: nat)
    requires forall i :: 0 <= i < |parts| ==> |parts[i]| == width
    requires k < |parts|
    ensures k * width + width <= |Concat(parts)|
    ensures Concat(parts)[k * width .. k * width + width] == parts[k]
  {
    var rest := Concat(parts[1..]);
    assert Concat(parts) == parts[0] + rest;
    if k > 0 {
      ConcatUniformAt(parts[1..], width, k - 1);
      assert k * width == width + (k - 1) * width;
      assert Concat(parts)[k * width .. k * width + width]
          == rest[(k - 1) * width .. (k - 1) * width + width];
    }
  }

  /** Row `y` of a `width` x `height` bitmap lies inside the bitmap. */
  lemma RowInBounds(y: nat, width: nat, height: nat)
    requires y < height
    ensures y * width + width <= width * height
  {
    calc {
      width * height;
    ==
      (y + 1) * width + (height - y - 1) * width;
    >=
      y * width + width;
    }
  }
}
