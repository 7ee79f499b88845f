/** The text form of a glyph grid: every row followed by a newline. The
    facts here hold for any rows of equal width, whatever their glyphs. */
module GlyphGrid {
  import opened Arithmetic

  /** The rows of a grid written out, each one ended by a newline. */
  function GridText(rows: seq<string>): (text: string)
    ensures rows == [] <==> text == []
    ensures text != [] ==> text[|text| - 1] == '\n'
  {
    if rows == [] then [] else GridText(rows[..|rows| - 1]) + rows[|rows| - 1] + "\n"
  }

  /** All rows have the given width. */
  predicate Rectangular(rows: seq<string>, width: nat)
  {
    forall y :: 0 <= y < |rows| ==> |rows[y]| == width
  }

  /** Each row contributes its width plus one newline. */
  lemma {:induction false} GridTextLength(rows: seq<string>, width: nat)
    requires Rectangular(rows, width)
    ensures |GridText(rows)| == |rows| * (width + 1)
  {
    if rows != [] {
      GridTextLength(rows[..|rows| - 1], width);
      MultiplyPredecessor(|rows|, width + 1);
    }
  }

  /** Where column x of line y sits in a grid text whose lines are `width`
      glyphs plus a newline: each line before it takes width + 1 places. */
  function Position(width: nat, x: nat, y: nat): nat
  {
    if y == 0 then x else Position(width, x, y - 1) + width + 1
  }

  /** Position in closed form. */
  lemma {:induction false} PositionFormula(width: nat, x: nat, y: nat)
    ensures Position(width, x, y) == y * (width + 1) + x
  {
    if y > 0 {
      PositionFormula(width, x, y - 1);
      MultiplyPredecessor(y, width + 1);
    }
  }

  /** Column x of line y of the text is glyph x of row y, and column `width`
      is the newline that ends the line. */
  lemma {:induction false} GridTextAt(rows: seq<string>, width: nat, x: nat, y: nat)
    requires Rectangular(rows, width)
    requires y < |rows| && x <= width
    ensures Position(width, x, y) < |GridText(rows)| &&
      GridText(rows)[Position(width, x, y)] == if x < width then rows[y][x] else '\n'
  {
    PositionFormula(width, x, y);
    var n := |rows|;
    var before := GridText(rows[..n - 1]);
    var last := rows[n - 1];
    GridTextLength(rows[..n - 1], width);
    var start := (n - 1) * (width + 1);
    var i := y * (width + 1) + x;
    assert |before| == start;
    if y == n - 1 {
      assert i == start + x;
      assert (before + last + "\n")[start + x] == (last + "\n")[x];
    } else {
      GridTextAt(rows[..n - 1], width, x, y);
      OffsetBeforeRow(width + 1, x, y, n - 1);
      assert (before + last + "\n")[i] == before[i];
    }
    GridTextLength(rows, width);
  }

  /** The text holds the rows' glyphs and newlines, nothing else. */
  lemma {:induction false} GridTextAlphabet(rows: seq<string>, glyphs: seq<char>)
    requires forall y, x :: 0 <= y < |rows| && 0 <= x < |rows[y]| ==> rows[y][x] in glyphs
    ensures forall i :: 0 <= i < |GridText(rows)| ==> GridText(rows)[i] in glyphs || GridText(rows)[i] == '\n'
  {
    if rows != [] {
      GridTextAlphabet(rows[..|rows| - 1], glyphs);
    }
  }
}
