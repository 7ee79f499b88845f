# ASCII-art converter: a verified model

This project models the core of the ASCII-art converter component (`src/components/Frags/Asci.jsx`). The component works in three steps:

1. An uploaded image is resampled to at most 60 columns. Its height is scaled by the aspect ratio and by 0.4, because character cells are taller than they are wide.
2. Every pixel of the resampled RGBA buffer is turned into one glyph of a twelve-glyph ramp, according to its luma. Each row ends with a newline.
3. The resulting text can be exported as a picture. The export splits the text into lines and sizes its canvas from the longest line and the number of lines.

The model has seven modules:

- `Glyphs`: the ramp, the luma of a pixel, and the quantisation of a luma value to a ramp position.
- `GlyphGrid`: the text form of any grid of rows, with its length and layout.
- `GlyphMapper`: the specification `Text` of the converted text, and `MapToGlyphs`. `MapToGlyphs` is the component's nested loop, written as an imperative method over a string accumulator and proved to produce `Text`.
- `Rasterizer`: the target-size arithmetic, as the code computes it and with the height clamped.
- `ReverseRenderer`: splitting at newlines the way JavaScript's `split('\n')` does, the longest line as `Math.max` computes it, and the export canvas size.
- `Pipeline`: how the pieces compose. It covers the lines the export sees for converted text and the canvas it gets.
- `Arithmetic`: small facts about integer and real arithmetic used by the proofs.

## How numbers are modelled

The model uses exact arithmetic, and the browser's doubles are idealised as follows:

- **Luma.** The weights 0.299, 0.587 and 0.114 are written as thousandths. Rounding to the nearest integer, with ties upwards, becomes `(299r + 587g + 114b + 500) / 1000`.
- **Ramp index.** `floor(v / 255 * 11)` becomes `(11v) / 255`. Because 11 and 255 share no factor, `11v / 255` is never within a rounding error of an integer unless it is one. So the idealisation picks the same glyph as the double computation for all 256 luma values.
- **Target height.** `floor(width * (h0 / w0) * 0.4)` becomes `(2 · width · h0) / (5 · w0)`. `Rasterizer.FloorOfScaledHeight` proves this equals the floor of the exact real product.
- **Canvas size.** A canvas's width and height are unsigned integers, so assigning a fractional value keeps its integer part. The model floors the exact real products `maxLineLength × 8 × 0.6` and `lines × 8 × 0.8`. `ReverseRenderer.CanvasSize` proves these are `24·m/5` and `32·n/5` in integer division. Below 2^31 the floors agree exactly with the double computation. A floor can only change where the exact value is a whole number, that is, where m or n is a multiple of 5; elsewhere 24m/5 and 32n/5 lie at least 1/5 from every integer, far beyond the rounding error of products of this size. For the width, the double nearest 0.6 lies below 3/5 by a relative 3.7·10⁻¹⁷, so the exact product `(m · 8) · 0.6` falls short of a whole value 24k by 24k · 3.7·10⁻¹⁷. That is less than half a unit in the last place of 24k (at least 24k · 5.5·10⁻¹⁷), so rounding to nearest gives 24k back. For the height, the double `8 · 0.8` is 6.4000000000000004, just above 32/5. Where 32n/5 is a whole number it is itself a double, and the exact product `n · 6.4000000000000004` lies above it, so rounding to nearest cannot go below it; nor does it reach the next integer. (For other n the rounded product can fall just below 32n/5, as it does for n = 43, but not below its floor.)

## Degenerate sizes

For degenerate sizes the code does what is written below. The model follows the code, and adds a separate corrected function where the code evidently falls short of its intent.

- **Zero natural width.** The code divides by it and gets a NaN height. No buffer can be read with that height, so the model returns `None`.
- **Zero natural height.** The code computes height 0 and does not raise a dedicated error. The model gives height 0, as the code does.
- **Computed height of zero.** The code does not clamp the computed height (see Findings). A zero-height `getImageData` call throws, so the conversion never completes. The evident intent is therefore a height of at least one row. `TargetSizeAsWritten` models the code. `TargetSize` is the clamped version, and the pipeline lemmas build on it.
- **Empty text at export.** Lines 98-102 would give the empty text a canvas of width 0 and height 6. The component never does this. The output and its Image button are rendered only when the text is non-empty (lines 190, 201-202 and 229-230). The export returns early at line 90 when there is no output element. And no conversion ends with empty text. The `height == 0` half of `Pipeline.ExportCanvasOfText` states only what lines 98-102 compute.

## Model

| member | source | states |
|---|---|---|
| Glyphs.Brightness | src/components/Frags/Asci.jsx:44 | the luma of a pixel is within half a unit of the weighted sum 0.299r + 0.587g + 0.114b and never exceeds 255 |
| Glyphs.CharIndex | src/components/Frags/Asci.jsx:45 | the ramp position is the floor of v/255 × 11: i·255 ≤ 11v < (i+1)·255, so it always indexes the twelve-glyph ramp |
| Glyphs.PixelGlyph | src/components/Frags/Asci.jsx:44-46 | every pixel becomes a glyph of the ramp |
| Glyphs.GreyBrightness | src/components/Frags/Asci.jsx:44 | a grey pixel (r = g = b = c) has luma c: the weights sum to one |
| Glyphs.BrightnessMonotone | src/components/Frags/Asci.jsx:44 | raising any channel never lowers the luma |
| Glyphs.CharIndexMonotone | src/components/Frags/Asci.jsx:45 | a darker-or-equal luma never maps to a sparser ramp position, for all luma values 0..255 |
| Glyphs.CharIndexBoundaries | src/components/Frags/Asci.jsx:4 | luma 0 maps to position 0 ('@') and luma 255 to the last position (' ') |
| Glyphs.EveryGlyphReachable | src/components/Frags/Asci.jsx:4 | every glyph of the ramp is produced by some luma, the smallest being ⌈i·255/11⌉ |
| Glyphs.BlackPixelGlyph | src/components/Frags/Asci.jsx:44-46 | a black pixel becomes '@' |
| Glyphs.WhitePixelGlyph | src/components/Frags/Asci.jsx:44-46 | a white pixel becomes ' ' |
| GlyphGrid.GridText | src/components/Frags/Asci.jsx:46-48 | the text of no rows is empty, and any other grid text ends in the newline of its last row |
| GlyphGrid.GridTextLength | src/components/Frags/Asci.jsx:36-49 | rows of equal width w written with trailing newlines take rows × (w + 1) characters |
| GlyphGrid.PositionFormula | src/components/Frags/Asci.jsx:36-49 | the place of column x of line y in a grid text of width w is y·(w+1) + x: every earlier line takes its w glyphs and one newline |
| GlyphGrid.GridTextAt | src/components/Frags/Asci.jsx:36-49 | character Position(w, x, y) = y·(w+1)+x of the text is glyph x of row y, and character y·(w+1)+w is that row's newline |
| GlyphGrid.GridTextAlphabet | src/components/Frags/Asci.jsx:46-48 | the text holds the rows' glyphs and newlines and nothing else |
| GlyphMapper.IsPixelBuffer | src/components/Frags/Asci.jsx:33 | a buffer of width × height pixels holds four channels per pixel, so its length is a multiple of four |
| GlyphMapper.PixelOffset | src/components/Frags/Asci.jsx:38 | the index of a pixel is a multiple of four: it is where that pixel's red channel starts a group of four |
| GlyphMapper.PixelInBounds | src/components/Frags/Asci.jsx:38-41 | the index (y·width + x)·4 and the three channels after it lie inside a width × height × 4 buffer |
| GlyphMapper.GlyphAt | src/components/Frags/Asci.jsx:38-46 | the glyph of pixel (x, y) is a ramp glyph |
| GlyphMapper.RowPrefix | src/components/Frags/Asci.jsx:37-47 | the first n glyphs of row y are the glyphs of pixels (0, y) … (n−1, y), in order |
| GlyphMapper.RowPrefixStep | src/components/Frags/Asci.jsx:38-46 | one more pass of the inner loop appends exactly the glyph of the next pixel, read from red, green and blue inside the buffer |
| GlyphMapper.Row | src/components/Frags/Asci.jsx:37-47 | row y has exactly width glyphs, glyph x being the glyph of pixel (x, y) |
| GlyphMapper.Rows | src/components/Frags/Asci.jsx:36-49 | the first n rows of the picture are rows 0 … n−1, top to bottom |
| GlyphMapper.Text | src/components/Frags/Asci.jsx:35-49 | the converted text of n rows is empty exactly when n is 0, and otherwise ends in a newline |
| GlyphMapper.TextAt | src/components/Frags/Asci.jsx:35-49 | character y·(width+1)+x of the converted text is glyph x of row y (the glyph of pixel (x, y)), and character y·(width+1)+width is a newline |
| GlyphMapper.TextLength | src/components/Frags/Asci.jsx:35-49 | the converted text has height × (width + 1) characters |
| GlyphMapper.RowsRectangular | src/components/Frags/Asci.jsx:37-47 | every row of the picture has exactly width glyphs |
| GlyphMapper.TextAlphabet | src/components/Frags/Asci.jsx:46-48 | the converted text holds ramp glyphs and newlines only |
| GlyphMapper.SinglePixel | src/components/Frags/Asci.jsx:35-49 | a 1 × 1 image becomes its pixel's glyph followed by a newline |
| GlyphMapper.SingleBlackPixel | src/components/Frags/Asci.jsx:35-49 | a 1 × 1 black image becomes "@\n", whatever its alpha |
| GlyphMapper.MapToGlyphs | src/components/Frags/Asci.jsx:35-49 | the nested loop yields exactly the text of all rows: height × (width + 1) characters, only ramp glyphs and newlines |
| Rasterizer.TargetSizeAsWritten | src/components/Frags/Asci.jsx:24-27 | zero natural width gives no size; otherwise the width is min(60, w0) and the height is the floor of width × (h0/w0) × 0.4, possibly zero |
| Rasterizer.ScaledHeight | src/components/Frags/Asci.jsx:27 | the real value width × (h0/w0) × 0.4 is never negative, and at most 0.4 · h0 when the width does not exceed w0 |
| Rasterizer.FloorOfScaledHeight | src/components/Frags/Asci.jsx:25-27 | the integer quotient (2·width·h0) / (5·w0) is the floor of the real product width × (h0/w0) × 0.4 |
| Rasterizer.NarrowImage | src/components/Frags/Asci.jsx:24-27 | an image at most 60 wide keeps its width and gets the height ⌊0.4 · h0⌋ |
| Rasterizer.WideImageExample | src/components/Frags/Asci.jsx:24-27 | a 1000 × 500 image is resampled to 60 × 12 |
| Rasterizer.ZeroHeightExample | src/components/Frags/Asci.jsx:24-27 | a 1000 × 40 image gets height 0 |
| Rasterizer.TargetSize | src/components/Frags/Asci.jsx:24-27 | the clamped size: same width as the code, height at least 1, equal to the code's size whenever that height is at least 1, and 1 when it is 0 |
| ReverseRenderer.Split | src/components/Frags/Asci.jsx:98 | splitting at newlines always yields at least one line, even for empty text |
| ReverseRenderer.SplitLinesHaveNoNewline | src/components/Frags/Asci.jsx:98 | no line of the split contains a newline |
| ReverseRenderer.SplitLineCount | src/components/Frags/Asci.jsx:98 | the split has one line more than the text has newlines |
| ReverseRenderer.JoinSplit | src/components/Frags/Asci.jsx:98 | joining the lines with newlines gives back the text |
| ReverseRenderer.SplitJoin | src/components/Frags/Asci.jsx:98 | lines without newlines, joined and split again, come back unchanged |
| ReverseRenderer.SplitSingleLine | src/components/Frags/Asci.jsx:98 | text without a newline is a single line |
| ReverseRenderer.SplitAtNewline | src/components/Frags/Asci.jsx:98 | a newline cuts the text into two independently split halves |
| ReverseRenderer.SplitAppendToLastLine | src/components/Frags/Asci.jsx:98 | appending text without a newline extends only the last line |
| ReverseRenderer.MaxLineLength | src/components/Frags/Asci.jsx:99 | the result bounds every line length and is the length of some line |
| ReverseRenderer.CanvasDimension | src/components/Frags/Asci.jsx:101-102 | a non-negative real assigned to a canvas dimension keeps its integer part; the browser's handling of values of 2^31 and more is not modelled (see Left out) |
| ReverseRenderer.CanvasSize | src/components/Frags/Asci.jsx:96-102 | the export canvas is ⌊24·m/5⌋ wide and ⌊32·n/5⌋ high for longest line m and n lines |
| ReverseRenderer.FloorOfFifth | src/components/Frags/Asci.jsx:101-102 | flooring a real fifth agrees with integer division by five |
| ReverseRenderer.LineTop | src/components/Frags/Asci.jsx:115 | line i is drawn with its top edge at i line heights, 32·i/5 pixels down, never above the canvas |
| ReverseRenderer.LinesStartInsideCanvas | src/components/Frags/Asci.jsx:114-116 | every line is drawn with its top edge inside the canvas |
| ReverseRenderer.LinesFitCanvasWidth | src/components/Frags/Asci.jsx:99-101 | every line's width at 0.6 font sizes per glyph fits the canvas, up to the rounding of its width |
| Pipeline.SplitGridText | src/components/Frags/Asci.jsx:48 | a grid's text splits back into its rows, plus one empty line after the final newline |
| Pipeline.SplitRowAfter | src/components/Frags/Asci.jsx:46-48 | one more row and its newline add exactly that row to the split, before the trailing empty line |
| Pipeline.GridCanvas | src/components/Frags/Asci.jsx:96-102 | for a grid of at least one row, the longest line is the grid width and the canvas holds rows + 1 lines |
| Pipeline.RowsNewlineFree | src/components/Frags/Asci.jsx:46 | no row of the converted picture contains a newline |
| Pipeline.SplitText | src/components/Frags/Asci.jsx:98 | the converted text splits into its rows, in order, plus one trailing empty line |
| Pipeline.ExportCanvasOfText | src/components/Frags/Asci.jsx:96-102 | converted text of height ≥ 1 gets a canvas ⌊24·width/5⌋ × ⌊32·(height+1)/5⌋; text of no rows is empty and gets a 0 × 6 canvas |
| Pipeline.ConvertedTextIsNeverEmpty | src/components/Frags/Asci.jsx:24-49 | with the clamped size, every image of nonzero width converts to text of at least two characters, and its export canvas holds one line more than it has rows |

## Left out

- Reading the file (`FileReader`), decoding the image and resampling it with `drawImage` are done by the browser. The model starts from an RGBA buffer of the target size.
- The asynchronous flow is not modelled: the promise, the loading flag and the React state updates.
- Copying to the clipboard and the timer that resets the button label are not modelled.
- Painting the export canvas (`fillRect`, `fillText`, the font), encoding the picture (`toDataURL`) and the download link are not modelled. Only the canvas size and each line's drawing position are modelled.
- The light and dark colour palette (lines 105 and 109) and the JSX markup do not affect the text.
- Floating point: the luma and the target height are computed exactly, not with IEEE doubles. For the ramp index this changes nothing, as explained above. For those two, a double that should land exactly on a rounding boundary can land just below it, and the code's result is then a whole unit lower than the model's:
  - Glyphs.Brightness: the pixel (0, 36, 12) has an exact luma of 22.5. The double sum is 22.499999999999996, so the code gives 22 and the model gives 23. Over all 2^24 colours, 3 464 get a luma one lower in the code than in the model, and 152 of those get a different glyph.
  - Rasterizer.TargetSizeAsWritten: for an 11 × 185 image, `11 * (185 / 11) * 0.4` is 73.99999999999999 in doubles, so the code makes 73 rows. The model makes 74.
- ReverseRenderer.CanvasSize: does not model canvas dimensions of 2^31 or more; see the next line. The width never gets there: the text is at most 60 glyphs wide, which is 288 pixels. The height grows with the row count, which the column cap does not bound. `Rasterizer.TargetSizeAsWritten(1, 100000)` already gives 40 000 rows. From 335 544 319 rows on, the model's canvas height of ⌊32 · (rows + 1) / 5⌋ exceeds 2^31 − 1.
- ReverseRenderer.CanvasDimension: keeps the integer part of any non-negative real, with no upper limit. A browser first reduces the integer part modulo 2^32, as the conversion to an unsigned 32-bit integer does. It then stores the result only if it is at most 2^31 − 1. Otherwise the canvas falls back to its default size (300 wide, 150 high). So values from 2^31 up to 2^32 − 1 give the default, and larger values may be stored wrapped. For the height, wrapping starts at 671 088 639 rows.
- The alpha channel is read by nobody. The model keeps it in the buffer and proves it lies in bounds, but no glyph depends on it.
- Determinism of the conversion needs no lemma: every member of the model is a function of its inputs.

## Findings

| source | as written | input that shows it | evidently intended | confidence | as-written member | corrected member |
|---|---|---|---|---|---|---|
| src/components/Frags/Asci.jsx:27 | the height is `floor(width * aspectRatio * 0.4)` with no lower bound, so a wide, flat image gets height 0; `getImageData` then refuses a zero-height block, the error is thrown inside the image's load handler and the conversion's promise never settles, leaving the component loading forever | a 1000 × 40 image: width 60, height ⌊60 · 0.04 · 0.4⌋ = 0 | clamp the height to at least one row so every image of nonzero width converts to non-empty text | not executed | Rasterizer.ZeroHeightExample | Pipeline.ConvertedTextIsNeverEmpty |
