/** How the pieces fit together: the text the glyph mapper produces, split
    the way the image export splits it, and the canvas the export sizes for it. */
module Pipeline {
  import opened Glyphs
  import opened GlyphGrid
  import opened GlyphMapper
  import opened Rasterizer
  import opened ReverseRenderer

  /** No row of the grid contains a newline. */
  predicate NewlineFree(rows: seq<string>)
  {
    forall y :: 0 <= y < |rows| ==> '\n' !in rows[y]
  }

  /** Splitting a grid's text gives back its rows, followed by one empty
      line after the final newline. */
  lemma {:induction false} SplitGridText(rows: seq<string>)
    requires NewlineFree(rows)
    ensures Split(GridText(rows)) == rows + [[]]
  {
    if rows != [] {
      var n := |rows|;
      var front, last := rows[..n - 1], rows[n - 1];
      assert NewlineFree(front) by {
        forall y | 0 <= y < |front| ensures '\n' !in front[y] {
          assert front[y] == rows[y];
        }
      }
      SplitGridText(front);
      assert '\n' !in last;
      SplitRowAfter(GridText(front), front, last);
      assert front + [last] == rows;
    }
  }

  /** One more row and its newline after text that splits into the given
      lines and a trailing empty line. */
  lemma SplitRowAfter(s: string, front: seq<string>, last: string)
    requires '\n' !in last
    requires Split(s) == front + [[]]
    ensures Split(s + last + "\n") == front + [last] + [[]]
  {
    var p := Split(s);
    SplitAppendToLastLine(s, last);
    assert p[..|p| - 1] == front && p[|p| - 1] + last == last;
    assert Split(s + last) == front + [last];
    SplitAtNewline(s + last, []);
    assert s + last + "\n" == (s + last) + "\n" + [];
  }

  /** The export canvas of a grid with at least one row: one glyph width per
      column, and one line height per row plus one for the empty line after
      the final newline. */
  lemma GridCanvas(rows: seq<string>, width: nat)
    requires |rows| >= 1 && Rectangular(rows, width) && NewlineFree(rows)
    ensures MaxLineLength(Split(GridText(rows))) == width
    ensures CanvasSize(GridText(rows)) == Canvas(width * 24 / 5, (|rows| + 1) * 32 / 5)
  {
    SplitGridText(rows);
    var lines := rows + [[]];
    assert |lines[0]| == width;
    forall i | 0 <= i < |lines| ensures |lines[i]| <= width {
      if i < |rows| {
        assert lines[i] == rows[i];
      }
    }
  }

  /** The picture's rows hold ramp glyphs only, never a newline. */
  lemma RowsNewlineFree(pixels: seq<Byte>, width: nat, height: nat, n: nat)
    requires IsPixelBuffer(pixels, width, height)
    requires n <= height
    ensures NewlineFree(Rows(pixels, width, height, n))
  {
    var rows := Rows(pixels, width, height, n);
    forall y | 0 <= y < n ensures '\n' !in rows[y] {
      var row := Row(pixels, width, height, y);
      assert rows[y] == row;
      forall x | 0 <= x < |row| ensures row[x] != '\n' {
        assert row[x] in Ramp;
      }
    }
  }

  /** The converted text splits into its rows, in order, followed by one
      empty line after the final newline. */
  lemma SplitText(pixels: seq<Byte>, width: nat, height: nat)
    requires IsPixelBuffer(pixels, width, height)
    ensures Split(Text(pixels, width, height, height)) == Rows(pixels, width, height, height) + [[]]
  {
    RowsNewlineFree(pixels, width, height, height);
    SplitGridText(Rows(pixels, width, height, height));
  }

  /** The canvas the export sizes for converted text. With at least one row
      the longest line is a full row. Text of no rows is empty and gets a
      canvas of no width and one line height. */
  lemma ExportCanvasOfText(pixels: seq<Byte>, width: nat, height: nat)
    requires IsPixelBuffer(pixels, width, height)
    ensures height >= 1 ==>
      MaxLineLength(Split(Text(pixels, width, height, height))) == width &&
      CanvasSize(Text(pixels, width, height, height)) == Canvas(width * 24 / 5, (height + 1) * 32 / 5)
    ensures height == 0 ==>
      Text(pixels, width, height, height) == [] &&
      CanvasSize(Text(pixels, width, height, height)) == Canvas(0, 6)
  {
    var rows := Rows(pixels, width, height, height);
    RowsNewlineFree(pixels, width, height, height);
    RowsRectangular(pixels, width, height, height);
    if height >= 1 {
      GridCanvas(rows, width);
    } else {
      assert rows == [];
    }
  }

  /** With the height clamped, every image of nonzero width converts to text
      of at least one row: never empty, so it can be copied and exported, and
      its export canvas holds one line more than the text has rows. */
  lemma ConvertedTextIsNeverEmpty(w0: nat, h0: nat, pixels: seq<Byte>)
    requires w0 > 0
    requires IsPixelBuffer(pixels, TargetSize(w0, h0).value.width, TargetSize(w0, h0).value.height)
    ensures var d := TargetSize(w0, h0).value;
      var text := Text(pixels, d.width, d.height, d.height);
      |text| >= 2 &&
      CanvasSize(text) == Canvas(d.width * 24 / 5, (d.height + 1) * 32 / 5)
  {
    var d := TargetSize(w0, h0).value;
    TextLength(pixels, d.width, d.height, d.height);
    ExportCanvasOfText(pixels, d.width, d.height);
  }
}
