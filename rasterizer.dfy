/** The size arithmetic of the rasterizer: an image of natural size
    w0 × h0 is resampled to at most 60 columns, and its height is scaled by
    the aspect ratio and by 0.4 to make up for character cells being taller
    than wide. The resampling itself is done by the browser and is not part
    of this model. */
module Rasterizer {
  import opened Arithmetic

  datatype Option<T> = None | Some(value: T)

  /** Width and height of a pixel buffer. */
  datatype Dims = Dims(width: nat, height: nat)

  /** Column cap: the widest text the converter produces. */
  const MaxWidth: nat := 60

  /** The exact real value of width × (h0 / w0) × 0.4, before flooring. */
  ghost function ScaledHeight(width: nat, w0: nat, h0: nat): (x: real)
    requires w0 > 0
    ensures 0.0 <= x
    ensures width <= w0 ==> x <= h0 as real * 0.4
  {
    width as real * (h0 as real / w0 as real) * 0.4
  }

  /** The target size as the code computes it. A zero natural width makes the
      aspect ratio undefined (the height comes out as NaN), so no size results.
      Otherwise the width is the natural width capped at 60 and the height is
      the floor of the scaled aspect ratio, which may be zero. */
  function TargetSizeAsWritten(w0: nat, h0: nat): (d: Option<Dims>)
    ensures d.None? <==> w0 == 0
    ensures d.Some? ==> d.value.width <= MaxWidth && d.value.width <= w0
    ensures d.Some? ==> (d.value.width == MaxWidth || d.value.width == w0)
    ensures d.Some? ==>
      d.value.height as real <= ScaledHeight(d.value.width, w0, h0) < (d.value.height + 1) as real
  {
    if w0 == 0 then None
    else
      var width := if w0 < MaxWidth then w0 else MaxWidth;
      var height := (width * h0 * 2) / (w0 * 5);
      FloorOfScaledHeight(width, w0, h0);
      Some(Dims(width, height))
  }

  /** The integer quotient (2 · width · h0) div (5 · w0) is the floor of the
      real product width × (h0 / w0) × 0.4. */
  lemma FloorOfScaledHeight(width: nat, w0: nat, h0: nat)
    requires w0 > 0
    ensures var k := (width * h0 * 2) / (w0 * 5);
      k as real <= ScaledHeight(width, w0, h0) < (k + 1) as real
  {
    var n := width * h0 * 2;
    var d := w0 * 5;
    var k := n / d;
    assert k * d <= n < (k + 1) * d;
    var x := ScaledHeight(width, w0, h0);
    assert x == n as real / d as real;
    assert (k * d) as real == k as real * d as real;
    assert ((k + 1) * d) as real == (k + 1) as real * d as real;
    RealDivisionBounds(k as real, n as real, d as real);
  }

  /** Images at most 60 pixels wide keep their width, and their height
      becomes 40% of the natural height, rounded down. */
  lemma NarrowImage(w0: nat, h0: nat)
    requires 0 < w0 <= MaxWidth
    ensures TargetSizeAsWritten(w0, h0) == Some(Dims(w0, (h0 * 2) / 5))
  {
    assert w0 * h0 * 2 == w0 * (h0 * 2);
    CancelCommonFactor(w0, h0 * 2, 5);
  }

  /** A 1000 × 500 image becomes 60 columns by 12 rows. */
  lemma WideImageExample()
    ensures TargetSizeAsWritten(1000, 500) == Some(Dims(60, 12))
  {
  }

  /** A 1000 × 40 image gets a height of zero: the code asks the canvas for a
      pixel block with no rows, which the canvas refuses, so the conversion
      never completes. */
  lemma ZeroHeightExample()
    ensures TargetSizeAsWritten(1000, 40) == Some(Dims(60, 0))
  {
  }

  /** The target size with the height clamped to at least one row, so every
      image of nonzero width yields a non-empty pixel buffer. */
  function TargetSize(w0: nat, h0: nat): (d: Option<Dims>)
    ensures d.None? <==> w0 == 0
    ensures d.Some? ==> d.value.height >= 1 && 1 <= d.value.width <= MaxWidth
    ensures d.Some? ==> d.value.width == TargetSizeAsWritten(w0, h0).value.width
    ensures d.Some? && TargetSizeAsWritten(w0, h0).value.height >= 1 ==> d == TargetSizeAsWritten(w0, h0)
    ensures d.Some? && TargetSizeAsWritten(w0, h0).value.height == 0 ==> d.value.height == 1
  {
    match TargetSizeAsWritten(w0, h0)
    case None => None
    case Some(d) => Some(Dims(d.width, if d.height == 0 then 1 else d.height))
  }
}
