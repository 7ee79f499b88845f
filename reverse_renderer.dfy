/** The layout arithmetic of the image export: the text is split into lines
    at each newline, and the canvas is sized so that the longest line fits
    at 0.6 font sizes per glyph and every line gets 0.8 font sizes of height.
    Drawing the glyphs and encoding the picture are done by the browser and
    are not part of this model. */
module ReverseRenderer {

  /** Splitting at each newline, as JavaScript's `split('\n')` does: every
      newline ends a line, and even the empty text is one (empty) line. */
  function Split(s: string): (lines: seq<string>)
    ensures |lines| >= 1
    decreases |s|
  {
    if s == [] then [[]]
    else
      var rest := Split(s[1..]);
      if s[0] == '\n' then [[]] + rest
      else [[s[0]] + rest[0]] + rest[1..]
  }

  /** The number of newlines in a text. */
  function NewlineCount(s: string): nat
  {
    if s == [] then 0 else (if s[0] == '\n' then 1 else 0) + NewlineCount(s[1..])
  }

  /** No line of the split contains a newline. */
  lemma {:induction false} SplitLinesHaveNoNewline(s: string)
    ensures forall i :: 0 <= i < |Split(s)| ==> '\n' !in Split(s)[i]
    decreases |s|
  {
    if s != [] {
      SplitLinesHaveNoNewline(s[1..]);
    }
  }

  /** The split holds one line more than the text has newlines. */
  lemma {:induction false} SplitLineCount(s: string)
    ensures |Split(s)| == NewlineCount(s) + 1
    decreases |s|
  {
    if s != [] {
      SplitLineCount(s[1..]);
    }
  }

  /** Lines glued back together with a newline between neighbours. */
  function Join(lines: seq<string>): string
    requires |lines| >= 1
  {
    if |lines| == 1 then lines[0] else lines[0] + "\n" + Join(lines[1..])
  }

  /** Splitting loses nothing: joining the lines gives back the text. */
  lemma {:induction false} JoinSplit(s: string)
    ensures Join(Split(s)) == s
    decreases |s|
  {
    if s != [] {
      var rest := Split(s[1..]);
      JoinSplit(s[1..]);
      if s[0] == '\n' {
        assert Split(s) == [[]] + rest;
        assert Join(Split(s)) == "\n" + Join(rest);
      } else if |rest| == 1 {
        assert Split(s) == [[s[0]] + rest[0]];
      } else {
        assert Split(s) == [[s[0]] + rest[0]] + rest[1..];
        assert Join(rest) == rest[0] + "\n" + Join(rest[1..]);
      }
      assert s == [s[0]] + s[1..];
    }
  }

  /** Text without a newline is a single line. */
  lemma {:induction false} SplitSingleLine(s: string)
    requires '\n' !in s
    ensures Split(s) == [s]
    decreases |s|
  {
    if s != [] {
      SplitSingleLine(s[1..]);
      assert s == [s[0]] + s[1..];
    }
  }

  /** A newline cuts the text in two independently split halves. */
  lemma {:induction false} SplitAtNewline(a: string, b: string)
    ensures Split(a + "\n" + b) == Split(a) + Split(b)
    decreases |a|
  {
    if a == [] {
      assert a + "\n" + b == "\n" + b;
      assert ("\n" + b)[1..] == b;
    } else {
      assert (a + "\n" + b)[1..] == a[1..] + "\n" + b;
      SplitAtNewline(a[1..], b);
    }
  }

  /** Appending text without a newline extends the last line only. */
  lemma {:induction false} SplitAppendToLastLine(s: string, t: string)
    requires '\n' !in t
    ensures Split(s + t) == ExtendLast(Split(s), t)
    decreases |s|
  {
    if s == [] {
      SplitSingleLine(t);
      assert s + t == t;
    } else {
      assert (s + t)[0] == s[0] && (s + t)[1..] == s[1..] + t;
      SplitAppendToLastLine(s[1..], t);
      var p := Split(s[1..]);
      if s[0] == '\n' {
        ExtendLastAfterEmptyLine(p, t);
      } else {
        ExtendLastAfterFirstGlyph(s[0], p, t);
      }
    }
  }

  /** The lines p with the text t appended to the last one. */
  function ExtendLast(p: seq<string>, t: string): seq<string>
    requires |p| >= 1
  {
    p[..|p| - 1] + [p[|p| - 1] + t]
  }

  /** Extending the last line commutes with putting an empty line in front. */
  lemma ExtendLastAfterEmptyLine(p: seq<string>, t: string)
    requires |p| >= 1
    ensures [[]] + ExtendLast(p, t) == ExtendLast([[]] + p, t)
  {
    assert ([[]] + p)[..|p|] == [[]] + p[..|p| - 1];
  }

  /** Extending the last line commutes with putting a glyph at the start of
      the first line. */
  lemma ExtendLastAfterFirstGlyph(c: char, p: seq<string>, t: string)
    requires |p| >= 1
    ensures var q := ExtendLast(p, t);
      [[c] + q[0]] + q[1..] == ExtendLast([[c] + p[0]] + p[1..], t)
  {
    var n := |p|;
    if n == 1 {
      assert [c] + (p[0] + t) == ([c] + p[0]) + t;
    } else {
      assert p[..n - 1] == [p[0]] + p[1..n - 1];
      assert ([[c] + p[0]] + p[1..])[..n - 1] == [[c] + p[0]] + p[1..n - 1];
    }
  }

  /** Lines glued together and split again come back unchanged, provided
      none of them contains a newline. */
  lemma {:induction false} SplitJoin(lines: seq<string>)
    requires |lines| >= 1
    requires forall i :: 0 <= i < |lines| ==> '\n' !in lines[i]
    ensures Split(Join(lines)) == lines
  {
    SplitSingleLine(lines[0]);
    if |lines| > 1 {
      SplitJoin(lines[1..]);
      SplitAtNewline(lines[0], Join(lines[1..]));
      assert lines == [lines[0]] + lines[1..];
    }
  }

  /** The length of the longest line, as `Math.max` over the line lengths. */
  function MaxLineLength(lines: seq<string>): (m: nat)
    requires |lines| >= 1
    ensures forall i :: 0 <= i < |lines| ==> |lines[i]| <= m
    ensures exists i :: 0 <= i < |lines| && |lines[i]| == m
  {
    if |lines| == 1 then |lines[0]|
    else
      var rest := MaxLineLength(lines[1..]);
      if |lines[0]| > rest then |lines[0]| else rest
  }

  /** Font size of the exported glyphs, in canvas pixels. */
  const FontSize: nat := 8

  /** Height of one line of text: 0.8 font sizes. */
  const LineHeight: real := FontSize as real * 0.8

  /** Advance width of one glyph: 0.6 font sizes. */
  const GlyphWidth: real := FontSize as real * 0.6

  /** A canvas's size in whole pixels. */
  datatype Canvas = Canvas(width: nat, height: nat)

  /** A canvas dimension set from a non-negative real keeps its integer part
      (the canvas attributes are unsigned integers). */
  function CanvasDimension(x: real): (n: nat)
    requires x >= 0.0
    ensures n as real <= x < n as real + 1.0
  {
    x.Floor
  }

  /** The export canvas: wide enough for the longest line, tall enough for
      every line. In whole pixels that is 24/5 of the longest line length and
      32/5 of the number of lines, rounded down. */
  function CanvasSize(text: string): (c: Canvas)
    ensures c.width == MaxLineLength(Split(text)) * 24 / 5
    ensures c.height == |Split(text)| * 32 / 5
  {
    var lines := Split(text);
    var maxLineLength := MaxLineLength(lines);
    assert GlyphWidth == 4.8 && LineHeight == 6.4;
    FloorOfFifth(maxLineLength * 24);
    FloorOfFifth(|lines| * 32);
    Canvas(CanvasDimension(maxLineLength as real * GlyphWidth),
           CanvasDimension(|lines| as real * LineHeight))
  }

  /** Flooring a fifth of a natural number in reals agrees with integer division. */
  lemma FloorOfFifth(a: nat)
    ensures (a as real / 5.0).Floor == a / 5
  {
    var k := a / 5;
    assert 5 * k <= a < 5 * k + 5;
    assert 5.0 * k as real <= a as real < 5.0 * k as real + 5.0;
  }

  /** The top edge of line i, where the export draws it: i line heights of
      32/5 pixels each. */
  function LineTop(i: nat): (top: real)
    ensures 0.0 <= top
    ensures top == (i * 32) as real / 5.0
  {
    i as real * LineHeight
  }

  /** Every line the export draws starts inside the canvas. */
  lemma LinesStartInsideCanvas(text: string, i: nat)
    requires i < |Split(text)|
    ensures LineTop(i) < CanvasSize(text).height as real
  {
    var n := |Split(text)|;
    assert LineHeight == 6.4;
    assert CanvasSize(text).height as real > n as real * 6.4 - 1.0;
    assert LineTop(i) == i as real * 6.4 <= (n - 1) as real * 6.4;
  }

  /** Every line fits across the canvas, up to the rounding of its width. */
  lemma LinesFitCanvasWidth(text: string, i: nat)
    requires i < |Split(text)|
    ensures |Split(text)[i]| as real * GlyphWidth < CanvasSize(text).width as real + 1.0
  {
    var m := MaxLineLength(Split(text));
    assert GlyphWidth == 4.8;
    assert |Split(text)[i]| <= m;
    assert CanvasSize(text).width as real > m as real * 4.8 - 1.0;
    assert |Split(text)[i]| as real * 4.8 <= m as real * 4.8;
  }
}
