/** The search for the largest point size at which every one of the 256
    code points fits the `width` x `height` canvas (auto_gen.py:4-31). */
module SizeFinder {
  import opened Common

  /** Glyph `code` measures at `size` and its box ends inside the canvas:
      the box's right edge is at most `width` and its bottom at most `height`.
      A measurement that raised does not fit. */
  predicate GlyphFits(measure: Measure, size: nat, code: nat, width: nat, height: nat)
    requires code < 256
  {
    match measure(size, code as char)
    case None => false
    case Some(box) => box.right <= width && box.bottom <= height
  }

  /** Every code point 0..255 fits at `size`. */
  predicate FitsAll(measure: Measure, size: nat, width: nat, height: nat)
  {
    forall code :: 0 <= code < 256 ==> GlyphFits(measure, size, code, width, height)
  }

  /** `can_fit_all_ascii`: scans the code points in order and stops at the
      first one that raises or overflows the canvas. */
  method CanFitAllAscii(size: nat, width: nat, height: nat, measure: Measure) returns (fits: bool)
    ensures fits <==> FitsAll(measure, size, width, height)
  {
    for i := 0 to 256
      invariant forall code :: 0 <= code < i ==> GlyphFits(measure, size, code, width, height)
    {
      match measure(size, i as char)
      case None =>
        assert !GlyphFits(measure, size, i, width, height);
        return false;
      case Some(box) =>
        if box.right > width || box.bottom > height {
          assert !GlyphFits(measure, size, i, width, height);
          return false;
        }
    }
    return true;
  }

  /** The top of the searched range, `max(width, height) * 2`. */
  function SearchTop(width: nat, height: nat): nat
  {
    Max(width, height) * 2
  }

  /** The working assumption of the search: a size smaller than a fitting
      size fits too. */
  ghost predicate Monotone(measure: Measure, width: nat, height: nat, top: nat)
  {
    forall small, large :: 1 <= small <= large <= top && FitsAll(measure, large, width, height)
      ==> FitsAll(measure, small, width, height)
  }

  /** A reference for the search: scanning down from `top`, the first size
      that fits, or the floor 1 when none in `[1, top]` does. */
  ghost function LargestFitting(measure: Measure, width: nat, height: nat, top: nat): nat
  {
    if top == 0 then 1
    else if FitsAll(measure, top, width, height) then top
    else LargestFitting(measure, width, height, top - 1)
  }

  /** The reference is the floor or a fitting size, nothing above it up to
      `top` fits, and under monotonicity everything up to it fits. */
  lemma {:induction false} LargestFittingIsLargest(measure: Measure, width: nat, height: nat, top: nat)
    ensures var r := LargestFitting(measure, width, height, top);
      1 <= r <= Max(1, top) &&
      (r == 1 || FitsAll(measure, r, width, height)) &&
      (forall s :: r < s <= top ==> !FitsAll(measure, s, width, height)) &&
      (Monotone(measure, width, height, top) && FitsAll(measure, r, width, height) ==>
        forall s :: 1 <= s <= r ==> FitsAll(measure, s, width, height))
  {
    if top > 0 && !FitsAll(measure, top, width, height) {
      LargestFittingIsLargest(measure, width, height, top - 1);
    }
  }

  /** When `r` is 0 or fits and nothing above it up to `top` fits, the
      reference scan stops at `r` (or at the floor 1 when `r` is 0). */
  lemma {:induction false} LargestFittingAt(measure: Measure, width: nat, height: nat, top: nat, r: nat)
    requires r <= top
    requires r == 0 || FitsAll(measure, r, width, height)
    requires forall s :: r < s <= top ==> !FitsAll(measure, s, width, height)
    ensures LargestFitting(measure, width, height, top) == Max(1, r)
    decreases top - r
  {
    if top > r {
      LargestFittingAt(measure, width, height, top - 1, r);
    }
  }

  /** `find_max_font_size_for_all_ascii`: a "last true" binary search over
      `[1, max(width, height) * 2]` that starts from the floor size 1. The
      result is 1 or a size that fits; when fitting is monotone in the size
      it is exactly the largest fitting size (or 1 when none fits). Without
      any assumption, a fitting result below the top is followed by a size
      that does not fit. */
  method FindMaxFontSize(width: nat, height: nat, measure: Measure) returns (best: nat)
    ensures 1 <= best <= Max(1, SearchTop(width, height))
    ensures best == 1 || FitsAll(measure, best, width, height)
    ensures FitsAll(measure, best, width, height) && best < SearchTop(width, height) ==>
      !FitsAll(measure, best + 1, width, height)
    ensures Monotone(measure, width, height, SearchTop(width, height)) ==>
      (forall s :: best < s <= SearchTop(width, height) ==> !FitsAll(measure, s, width, height)) &&
      (FitsAll(measure, best, width, height) ==> forall s :: 1 <= s <= best ==> FitsAll(measure, s, width, height)) &&
      best == LargestFitting(measure, width, height, SearchTop(width, height))
  {
    var top := SearchTop(width, height);
    ghost var monotone := Monotone(measure, width, height, top);
    var low: int, high: int := 1, top;
    best := 1;
    while low <= high
      invariant 1 <= low <= high + 1 <= top + 1
      invariant best == if low == 1 then 1 else low - 1
      invariant low > 1 ==> FitsAll(measure, low - 1, width, height)
      invariant high < top ==> !FitsAll(measure, high + 1, width, height)
      invariant monotone ==> forall s :: 1 <= s < low ==> FitsAll(measure, s, width, height)
      invariant monotone ==> forall s :: high < s <= top ==> !FitsAll(measure, s, width, height)
      decreases high + 1 - low
    {
      var mid := (low + high) / 2;
      var fits := CanFitAllAscii(mid, width, height, measure);
      if fits {
        best := mid;
        low := mid + 1;
      } else {
        high := mid - 1;
      }
    }
    if monotone {
      LargestFittingAt(measure, width, height, top, low - 1);
    }
  }
}
