/** The glyph mapper: a flat RGBA buffer of width × height pixels becomes
    text of `height` rows, each holding one glyph per pixel and ending in a
    newline. `Text` is the specification; `MapToGlyphs` is the nested loop
    that appends to a string accumulator, proved to produce `Text`. */
module GlyphMapper {
  import opened Glyphs
  import opened Arithmetic
  import opened GlyphGrid

  /** A buffer holds four channels (red, green, blue, alpha) per pixel,
      row after row. */
  predicate IsPixelBuffer(pixels: seq<Byte>, width: nat, height: nat)
    ensures IsPixelBuffer(pixels, width, height) ==> |pixels| % 4 == 0
  {
    |pixels| == width * height * 4
  }

  /** Position of the red channel of pixel (x, y) in the buffer: pixels are
      laid out row after row, and each starts a group of four channels. */
  function PixelOffset(width: nat, x: nat, y: nat): (i: nat)
    ensures i % 4 == 0
  {
    (y * width + x) * 4
  }

  /** Every channel the mapper reads, including alpha, lies inside the buffer. */
  lemma PixelInBounds(width: nat, height: nat, x: nat, y: nat)
    requires x < width && y < height
    ensures PixelOffset(width, x, y) + 3 < width * height * 4
  {
    calc {
      y * width + x;
    <
      y * width + width;
    ==
      (y + 1) * width;
    <=  { ScaleMonotone(width, y + 1, height); }
      width * height;
    }
  }

  /** The glyph of pixel (x, y); alpha plays no part. */
  function GlyphAt(pixels: seq<Byte>, width: nat, height: nat, x: nat, y: nat): (c: char)
    requires IsPixelBuffer(pixels, width, height)
    requires x < width && y < height
    ensures c in Ramp
  {
    PixelInBounds(width, height, x, y);
    var i := PixelOffset(width, x, y);
    PixelGlyph(pixels[i], pixels[i + 1], pixels[i + 2])
  }

  /** The glyphs of the first n pixels of row y, in order. */
  function RowPrefix(pixels: seq<Byte>, width: nat, height: nat, y: nat, n: nat): (row: string)
    requires IsPixelBuffer(pixels, width, height)
    requires y < height && n <= width
    ensures |row| == n
    ensures forall x :: 0 <= x < n ==> row[x] == GlyphAt(pixels, width, height, x, y)
  {
    if n == 0 then [] else RowPrefix(pixels, width, height, y, n - 1) + [GlyphAt(pixels, width, height, n - 1, y)]
  }

  /** One more pixel of row y extends the row by that pixel's glyph. */
  lemma RowPrefixStep(pixels: seq<Byte>, width: nat, height: nat, y: nat, x: nat)
    requires IsPixelBuffer(pixels, width, height)
    requires y < height && x < width
    ensures PixelOffset(width, x, y) + 2 < |pixels|
    ensures var i := PixelOffset(width, x, y);
      RowPrefix(pixels, width, height, y, x + 1)
      == RowPrefix(pixels, width, height, y, x) + [Ramp[CharIndex(Brightness(pixels[i], pixels[i + 1], pixels[i + 2]))]]
  {
    PixelInBounds(width, height, x, y);
  }

  /** The glyph text of a whole row, without its newline: one glyph per
      pixel of row y, left to right. */
  function Row(pixels: seq<Byte>, width: nat, height: nat, y: nat): (row: string)
    requires IsPixelBuffer(pixels, width, height)
    requires y < height
    ensures |row| == width
    ensures forall x :: 0 <= x < width ==> row[x] == GlyphAt(pixels, width, height, x, y)
  {
    RowPrefix(pixels, width, height, y, width)
  }

  /** The first n rows of the picture, top to bottom. */
  function Rows(pixels: seq<Byte>, width: nat, height: nat, n: nat): (rows: seq<string>)
    requires IsPixelBuffer(pixels, width, height)
    requires n <= height
    ensures |rows| == n
    ensures forall y :: 0 <= y < n ==> rows[y] == Row(pixels, width, height, y)
  {
    if n == 0 then [] else Rows(pixels, width, height, n - 1) + [Row(pixels, width, height, n - 1)]
  }

  /** The text of the first n rows, each followed by a newline: empty for
      no rows, and otherwise ending in the newline of the last row. */
  function Text(pixels: seq<Byte>, width: nat, height: nat, n: nat): (text: string)
    requires IsPixelBuffer(pixels, width, height)
    requires n <= height
    ensures n == 0 <==> text == []
    ensures text != [] ==> text[|text| - 1] == '\n'
  {
    GridText(Rows(pixels, width, height, n))
  }

  /** Every row contributes its width plus one newline. */
  lemma TextLength(pixels: seq<Byte>, width: nat, height: nat, n: nat)
    requires IsPixelBuffer(pixels, width, height)
    requires n <= height
    ensures |Text(pixels, width, height, n)| == n * (width + 1)
  {
    RowsRectangular(pixels, width, height, n);
    GridTextLength(Rows(pixels, width, height, n), width);
  }

  /** Line y of the converted text is row y, glyph by glyph, followed by
      its newline. The place is given as `Position(width, x, y)`, which
      `PositionFormula` shows to be y * (width + 1) + x; a caller that needs
      the product calls both lemmas. */
  lemma TextAt(pixels: seq<Byte>, width: nat, height: nat, x: nat, y: nat)
    requires IsPixelBuffer(pixels, width, height)
    requires y < height && x <= width
    ensures var text, i := Text(pixels, width, height, height), Position(width, x, y);
      i < |text| && text[i] == if x < width then Row(pixels, width, height, y)[x] else '\n'
  {
    var rows := Rows(pixels, width, height, height);
    assert rows[y] == Row(pixels, width, height, y);
    RowsRectangular(pixels, width, height, height);
    GridTextAt(rows, width, x, y);
  }

  /** All rows of the picture have the picture's width. */
  lemma RowsRectangular(pixels: seq<Byte>, width: nat, height: nat, n: nat)
    requires IsPixelBuffer(pixels, width, height)
    requires n <= height
    ensures Rectangular(Rows(pixels, width, height, n), width)
  {
    var rows := Rows(pixels, width, height, n);
    forall y | 0 <= y < n ensures |rows[y]| == width {
      assert rows[y] == Row(pixels, width, height, y);
    }
  }

  /** The text holds nothing but ramp glyphs and newlines. */
  lemma TextAlphabet(pixels: seq<Byte>, width: nat, height: nat, n: nat)
    requires IsPixelBuffer(pixels, width, height)
    requires n <= height
    ensures forall i :: 0 <= i < |Text(pixels, width, height, n)| ==>
      Text(pixels, width, height, n)[i] in Ramp || Text(pixels, width, height, n)[i] == '\n'
  {
    GridTextAlphabet(Rows(pixels, width, height, n), Ramp);
  }

  /** A one-pixel image becomes that pixel's glyph on a line of its own. */
  lemma SinglePixel(pixels: seq<Byte>)
    requires IsPixelBuffer(pixels, 1, 1)
    ensures Text(pixels, 1, 1, 1) == [PixelGlyph(pixels[0], pixels[1], pixels[2]), '\n']
  {
    var row := Row(pixels, 1, 1, 0);
    assert row == [GlyphAt(pixels, 1, 1, 0, 0)];
    assert Rows(pixels, 1, 1, 1) == [row];
    assert GridText([row]) == row + "\n";
    assert GlyphAt(pixels, 1, 1, 0, 0) == PixelGlyph(pixels[0], pixels[1], pixels[2]) by {
      assert PixelOffset(1, 0, 0) == 0;
    }
  }

  /** A single black pixel, whatever its alpha, becomes the densest glyph. */
  lemma SingleBlackPixel(pixels: seq<Byte>)
    requires IsPixelBuffer(pixels, 1, 1) && pixels[0] == pixels[1] == pixels[2] == 0
    ensures Text(pixels, 1, 1, 1) == "@\n"
  {
    SinglePixel(pixels);
    BlackPixelGlyph();
  }

  /** The conversion loop: for each row, for each pixel of the row, append
      the pixel's glyph; after each row, append a newline. */
  method MapToGlyphs(pixels: seq<Byte>, width: nat, height: nat) returns (ascii: string)
    requires IsPixelBuffer(pixels, width, height)
    ensures ascii == Text(pixels, width, height, height)
    ensures |ascii| == height * (width + 1)
    ensures forall i :: 0 <= i < |ascii| ==> ascii[i] in Ramp || ascii[i] == '\n'
  {
    ascii := "";
    var y := 0;
    while y < height
      invariant y <= height
      invariant ascii == Text(pixels, width, height, y)
    {
      var x := 0;
      while x < width
        invariant x <= width
        invariant ascii == Text(pixels, width, height, y) + RowPrefix(pixels, width, height, y, x)
      {
        RowPrefixStep(pixels, width, height, y, x);
        var index := PixelOffset(width, x, y);
        var r, g, b := pixels[index], pixels[index + 1], pixels[index + 2];
        var brightness := Brightness(r, g, b);
        var charIndex := CharIndex(brightness);
        ascii := ascii + [Ramp[charIndex]];
        x := x + 1;
      }
      ascii := ascii + "\n";
      assert Rows(pixels, width, height, y + 1)[..y] == Rows(pixels, width, height, y);
      y := y + 1;
    }
    TextLength(pixels, width, height, height);
    TextAlphabet(pixels, width, height, height);
  }
}
