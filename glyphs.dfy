/** The per-pixel part of the converter: the glyph ramp, the luma of one
    pixel and the quantisation of that luma to a position on the ramp.
    Arithmetic is exact: the luma weights 0.299, 0.587 and 0.114 become
    thousandths, and rounding half up becomes adding 500 before dividing. */
module Glyphs {

  /** One 8-bit channel of an RGBA sample. */
  type Byte = b: int | 0 <= b < 256

  /** The glyph ramp, from the densest-looking glyph to the sparsest. */
  const Ramp: seq<char> := ['@', '#', 'S', '%', '?', '*', '+', ';', ':', ',', '.', ' ']

  /** Luma of a pixel times one thousand, before rounding (Rec. 601 weights). */
  function WeightedSum(r: Byte, g: Byte, b: Byte): nat
  {
    299 * r + 587 * g + 114 * b
  }

  /** The luma of a pixel rounded to the nearest integer, ties upwards:
      the value lies within half a unit of the exact weighted sum, and
      never leaves the channel range. */
  function Brightness(r: Byte, g: Byte, b: Byte): (v: nat)
    ensures v <= 255
    ensures 1000 * v - 500 <= WeightedSum(r, g, b) < 1000 * v + 500
  {
    (WeightedSum(r, g, b) + 500) / 1000
  }

  /** The ramp position of a luma value: the floor of v / 255 * 11 (the ramp
      has twelve glyphs), so the result is a valid index into the ramp. */
  function CharIndex(v: nat): (i: nat)
    requires v <= 255
    ensures i < |Ramp|
    ensures i * 255 <= v * 11 < (i + 1) * 255
  {
    (v * 11) / 255
  }

  /** The glyph a pixel becomes. */
  function PixelGlyph(r: Byte, g: Byte, b: Byte): (c: char)
    ensures c in Ramp
  {
    Ramp[CharIndex(Brightness(r, g, b))]
  }

  /** A grey pixel keeps its level as its luma: the weights sum to one. */
  lemma GreyBrightness(c: Byte)
    ensures Brightness(c, c, c) == c
  {
  }

  /** Luma never decreases when any channel grows. */
  lemma BrightnessMonotone(r1: Byte, g1: Byte, b1: Byte, r2: Byte, g2: Byte, b2: Byte)
    requires r1 <= r2 && g1 <= g2 && b1 <= b2
    ensures Brightness(r1, g1, b1) <= Brightness(r2, g2, b2)
  {
    assert WeightedSum(r1, g1, b1) <= WeightedSum(r2, g2, b2);
  }

  /** Darker-or-equal pixels never map to a sparser glyph than brighter ones. */
  lemma CharIndexMonotone(v1: nat, v2: nat)
    requires v1 <= v2 <= 255
    ensures CharIndex(v1) <= CharIndex(v2)
  {
    assert v1 * 11 <= v2 * 11;
  }

  /** Black is the densest glyph, full white the sparsest. */
  lemma CharIndexBoundaries()
    ensures CharIndex(0) == 0 && Ramp[CharIndex(0)] == '@'
    ensures CharIndex(255) == |Ramp| - 1 && Ramp[CharIndex(255)] == ' '
  {
  }

  /** Every glyph of the ramp is produced by some luma value: the smallest
      luma reaching position i is the ceiling of i * 255 / 11. */
  lemma EveryGlyphReachable(i: nat)
    requires i < |Ramp|
    ensures var v := (i * 255 + 10) / 11;
      v <= 255 && CharIndex(v) == i && (v > 0 ==> CharIndex(v - 1) < i)
  {
  }

  /** A black pixel is the densest glyph, whatever its alpha. */
  lemma BlackPixelGlyph()
    ensures PixelGlyph(0, 0, 0) == '@'
  {
    GreyBrightness(0);
    CharIndexBoundaries();
  }

  /** A white pixel is the sparsest glyph, whatever its alpha. */
  lemma WhitePixelGlyph()
    ensures PixelGlyph(255, 255, 255) == ' '
  {
    GreyBrightness(255);
    CharIndexBoundaries();
  }
}
