# FontRenderer rasterization core in Dafny

This project models the rasterization core of `FontRenderer`
(`src/fontRenderer.mjs`) and proves properties of that model:

- **The binary rasterizer `renderGlyph`.** It is a scanline polygon fill
  under the nonzero winding rule (the `nonzero` fill rule of section 11.3 of
  SVG 1.1). The glyph's bounding box gets `ceil(span × scale) + 2` pixels
  per axis, pixel i sampling the em coordinate `lo + (i − 1) / (dim − 2) ×
  span`. Horizontal edges are dropped. For every pixel row, each kept
  edge gets an x-intercept and a direction, or intercept 0 and direction 0
  when it does not cross the row. The edge records are then sorted in place
  by intercept. A cursor sweeps the row left to right, adding up the
  directions of the edges it passes, and a pixel is 255 where that running
  winding is nonzero and 0 elsewhere.
- **The anti-aliased rasterizer `renderGlyphGrayscale`.** It renders in
  binary at `sizeMultiplier` times the scale. Each output pixel counts the
  filled samples of a `sizeMultiplier × sizeMultiplier` block of that
  high-resolution image, starting one whole block up and to the left, and
  skips samples outside the image. It then shades the pixel with
  `floor(pow(count / m², 1 / gamma) × 255)`, clamped to a byte. Defaults:
  multiplier 16, gamma 2.2.
- **The contour orientation `windingValueForContour`.** It is the sign of the
  shoelace sum of `(x2 − x1)(y1 + y2)` over the contour's edges.

Files:

- `wrappers.dfy`: `Option`.
- `seqs.dfy`: sums and maps over sequences, and their invariance under
  permutation.
- `geometry.dfy`: edges, glyphs, the bounding box with its defaults, the
  bitmap dimensions, and the em-to-pixel mapping in both directions.
- `scanline.dfy`: the binary rasterizer.
- `grayscale.dfy`: the supersampler.
- `winding.dfy`: contour orientation.

## How the model reads the source

**The specification of the binary image.** Each renderer is imperative
Dafny over `array`s, shaped like the source's loops. Its postcondition ties
every pixel of the fresh buffer to a function of the inputs.

- For the binary renderer that function is `Scanline.FillValue`: the
  nonzero-rule winding number at the pixel's em-space sample point. It is
  the sum, over the kept edges in contour order, of the directions of the
  edges that cross the row at or left of the sample.
- The sweep is proved to compute exactly this, for any order the sort
  leaves equal intercepts in, because the sum is proved invariant under
  permutation.
- The cursor loop is proved to stop after exactly the edges whose intercept
  is at or left of the column. This relies on the sorted intercepts and on
  column sample coordinates that increase with the column.

**The specification of the grayscale image.** It is
`Supersample.Supersampling.Value`: the shade of the block's filled-sample
count.

**Not-a-number.** A flat bounding box (zero span on an axis) gives a
dimension of 2 on that axis. The renderer then divides by 0, and the
affected sample coordinates are not a number.

- The model writes such a coordinate as `None`.
- Every comparison with `None` is false, so a flat-row edge "crosses" the
  row (both tests fail) and its intercept is `None`.
- The returned corner and origin coordinates are coerced to 0, as the
  source's `|| 0` does.
- The sort's comparator returns not-a-number for two such edges, and the
  model treats that as "equal". Within one row either every intercept is a
  number or none is, which the model proves.

**`Math.pow`.** The gamma step is a parameter `pow` of the grayscale
renderer. Its facts about pixel values are stated under hypotheses on `pow`:

- `pow(0, 1/γ) = 0` gives a black border;
- `pow(1, 1/γ) = 1` gives white for a full block;
- `pow` increasing in its base gives monotone shading.

**Boundary rows and columns.** The two extra pixels per axis are not a
blank margin on both sides. Pixel 0 samples below the box, pixel 1 samples
its low end and the last pixel samples its high end exactly. The crossing
test counts a scanline at an edge's top end and not at its bottom end, and
the sweep counts an intercept once the column's sample reaches it. So for
the unit square at 10 pixels per em, the filled pixels are exactly columns
1 to 10 of rows 2 to 11. Row 1, at the bottom edge, stays blank, and the
last row, 11, at the top edge, is painted. Column 1, at the left side, is
painted, and the last column, 11, at the right side, stays blank. The model
proves this for all 144 pixels.

**Holes.** Under the nonzero rule a clockwise contour inside a
counter-clockwise one cuts a hole. This is proved on a 3 × 3 square around a
1 × 1 hole, for every row through the hole and for concrete pixels.

**Orientation.** With y pointing up, a counter-clockwise contour has
winding value −1 and a clockwise one +1. This is proved on a rectangle of
any size.

## Model

| member | source | states |
|---|---|---|
| Geometry.BoxOf | src/fontRenderer.mjs:10-13 | each missing bounding-box field reads as 0, each present one keeps its value |
| Geometry.Ceil | src/fontRenderer.mjs:17-18 | the result is the least integer not below its argument (`Math.ceil`) |
| Geometry.Dimension | src/fontRenderer.mjs:17-18 | the pixel count is the scaled span rounded up plus 2; for an ordered box and positive scale it is at least 2, and exactly 2 iff the span is 0 |
| Geometry.CanvasFor | src/fontRenderer.mjs:17-18 | for an ordered box at a positive scale both dimensions are at least 2, and 2 exactly on a flat axis |
| Geometry.EmToPixelCorners | src/fontRenderer.mjs:20-31 | the box's low corner maps to pixel 1 and the high corner to pixel dim − 1; on a flat axis every coordinate, the origin included, maps to 0 (the not-a-number coercion) |
| Geometry.EmToPixelInvertsScanEm | src/fontRenderer.mjs:56 | the em coordinate sampled by pixel i maps back to pixel i |
| Geometry.ScanEmMonotone | src/fontRenderer.mjs:77 | sampled em coordinates grow with the pixel index, strictly for a positive span |
| Geometry.ColumnEmMonotone | src/fontRenderer.mjs:77-80 | an intercept at or left of column i's sample stays at or left of every later column's sample |
| Scanline.KeptInContourMembership | src/fontRenderer.mjs:38-41 | an edge is kept from a contour iff it is in the contour and not horizontal |
| Scanline.KeptEdgesMembership | src/fontRenderer.mjs:35-52 | an edge is in the edge list iff it is not horizontal and some contour holds it |
| Scanline.NoEdgesKept | src/fontRenderer.mjs:36-52 | with no contours, or only horizontal edges, the edge list is empty |
| Scanline.CollectEdges | src/fontRenderer.mjs:35-52 | the loops build the non-horizontal edges of all contours, contour after contour, in order |
| Scanline.CrossingRule | src/fontRenderer.mjs:60-68 | an edge crosses the scanline at v iff min(y1, y2) < v ≤ max(y1, y2); a crossing edge is not horizontal and gets +1 when y2 > y1 and −1 otherwise; a non-crossing edge gets intercept 0 and direction 0 |
| Scanline.InterceptBetween | src/fontRenderer.mjs:67 | the interpolated intercept of a crossing edge lies between its two x coordinates |
| Scanline.ScannedRowIsUniform | src/fontRenderer.mjs:56-69 | after scanning a row, either every intercept is a number or none is |
| Scanline.ScannedWinding | src/fontRenderer.mjs:58-69 | adding up what the scanned edges contribute at xEm gives the nonzero-rule winding number of the edge list |
| Scanline.SweepMatchesWindingNumber | src/fontRenderer.mjs:71-84 | any permutation of the scanned edges, so any tie order of the sort, sums to the same winding number |
| Scanline.SortedRowKeepsBases | src/fontRenderer.mjs:71 | sorting the edge records keeps the same edges |
| Scanline.NotPassedAfter | src/fontRenderer.mjs:79-80 | on a sorted row, once one intercept lies right of xEm every later one does too |
| Scanline.PassedPrefix | src/fontRenderer.mjs:79-84 | on a sorted row, the edges at or left of xEm are exactly the first c: the winding they sum to is the prefix sum and there are c of them |
| Scanline.SweptRowIsFill | src/fontRenderer.mjs:71-86 | every pixel the sweep derives from the sorted row is the specified fill value |
| Scanline.RowsExtend | src/fontRenderer.mjs:54-88 | filling row y below correctly filled rows, and nothing else, fills rows 0 to y |
| Scanline.FilledBufferIsBinary | src/fontRenderer.mjs:86 | a buffer holding the specified image holds only 0 and 255 |
| Scanline.BlankWhenNoEdges | src/fontRenderer.mjs:36-52 | a glyph with no non-horizontal edge renders every pixel 0 |
| Scanline.FlatBoxBlank | src/fontRenderer.mjs:56-80 | a glyph whose box is flat on either axis renders every pixel 0 |
| Scanline.UnitSquareKept | src/fontRenderer.mjs:40-41 | of the unit square only its two vertical sides are kept |
| Scanline.UnitSquareCanvas | src/fontRenderer.mjs:17-18 | the unit box at 10 pixels per em gets a 12 × 12 canvas |
| Scanline.VerticalWinding | src/fontRenderer.mjs:67-68 | a crossing vertical edge adds its direction exactly where the sweep has reached its x |
| Scanline.UnitSquareRowWinding | src/fontRenderer.mjs:60-84 | on any row through the unit square the winding number is −1 between its sides and 0 outside |
| Scanline.UnitSquareRowOutside | src/fontRenderer.mjs:60-65 | a scanline below or above the unit square crosses neither side, so its winding number is 0 |
| Scanline.UnitSquarePixel | src/fontRenderer.mjs:54-86 | pixel (x, y) of the unit square's 12 × 12 canvas is 255 exactly for columns 1 to 10 of rows 2 to 11 |
| Scanline.UnitSquareExample | src/fontRenderer.mjs:6-91 | the unit square at 10 pixels per em renders a 12 × 12 image whose every pixel is 255 in columns 1 to 10 of rows 2 to 11 and 0 elsewhere: the top row at yMax is painted and row 1 at yMin is blank |
| Scanline.RingKept | src/fontRenderer.mjs:36-52 | of a 3 × 3 square around a 1 × 1 hole only the four vertical sides are kept, the outer contour's first |
| Scanline.RingRowWinding | src/fontRenderer.mjs:60-84 | on any row through the hole the winding number is −1 between the outer and inner sides and 0 in the hole and outside |
| Scanline.RingExample | src/fontRenderer.mjs:6-91 | the ring at 10 pixels per em renders a pixel in the ring as 255 and a pixel in the hole as 0 |
| Scanline.ScanRow | src/fontRenderer.mjs:58-69 | every edge record gets the intercept and direction of the crossing rule for the row, and keeps its edge |
| Scanline.SwapDown | src/fontRenderer.mjs:71 | one exchange of the sort: two neighbours swap, nothing else moves |
| Scanline.SortByIntercept | src/fontRenderer.mjs:71 | the edge records end sorted by intercept and are a permutation of what they were |
| Scanline.PassedStaysPassed | src/fontRenderer.mjs:75-80 | edges the cursor has passed at column x are still passed at column x + 1 |
| Scanline.AdvanceCursor | src/fontRenderer.mjs:79-84 | the cursor moves past exactly the edges at or left of xEm, the running winding staying the sum of the passed edges' directions |
| Scanline.SweepRow | src/fontRenderer.mjs:73-87 | every pixel of row y is written from the running winding, and nothing outside the row changes |
| Scanline.RenderRow | src/fontRenderer.mjs:54-88 | row y comes out as the specified fill, nothing else in the buffer changes, and the records still hold the kept edges |
| Scanline.NewActiveEdges | src/fontRenderer.mjs:43-50 | one fresh record per kept edge, in order |
| Scanline.FillEdges | src/fontRenderer.mjs:33-88 | a fresh buffer of width × height holding the specified image in every row |
| Scanline.RenderGlyph | src/fontRenderer.mjs:6-91 | dimensions, scale, mapped corners and origin as the formulas give them; a fresh width × height buffer whose every pixel is the nonzero-rule fill value and every byte 0 or 255 |
| Seqs.SumPermutation | src/fontRenderer.mjs:71 | a sum does not depend on the order of its terms |
| Seqs.MapPermutation | src/fontRenderer.mjs:71 | mapping permuted sequences gives permuted results |
| Supersample.Multiplier | src/fontRenderer.mjs:105 | the configured multiplier, or 16 when missing or 0; always positive |
| Supersample.Gamma | src/fontRenderer.mjs:108 | the configured gamma, or 2.2 when missing or 0; never 0 |
| Supersample.Clamp | src/fontRenderer.mjs:146 | values below 0 become 0, above 255 become 255, the rest are kept |
| Supersample.RowCoverage | src/fontRenderer.mjs:137-143 | a row of n samples holds between 0 and n filled ones |
| Supersample.BlockCoverage | src/fontRenderer.mjs:135-144 | k rows of m samples hold between 0 and k·m filled ones |
| Supersample.Supersampling.Coverage | src/fontRenderer.mjs:134-144 | the block read for an output pixel holds between 0 and mult² filled samples |
| Supersample.OutsideRowUncovered | src/fontRenderer.mjs:139-140 | samples left of or above the high-resolution image are never counted |
| Supersample.OutsideBlockUncovered | src/fontRenderer.mjs:135-140 | a block wholly left of or above the image counts nothing |
| Supersample.BorderPixelsBlank | src/fontRenderer.mjs:135-146 | output row 0 and column 0 count no sample, and are 0 when pow(0, 1/γ) = 0 |
| Supersample.ShadeFull | src/fontRenderer.mjs:146 | mult² filled samples shade to 255 when pow(1, 1/γ) = 1 |
| Supersample.FullBlockWhite | src/fontRenderer.mjs:146 | an output pixel whose block is wholly filled is 255 when pow(1, 1/γ) = 1 |
| Supersample.ShadeMonotone | src/fontRenderer.mjs:146 | with pow increasing in its base, more filled samples never give a darker pixel |
| Supersample.ShadedRowsExtend | src/fontRenderer.mjs:130-148 | shading row y below correctly shaded rows, and nothing else, shades rows 0 to y |
| Supersample.AccumulateBlock | src/fontRenderer.mjs:134-144 | the accumulation loops count the filled in-image samples of the block |
| Supersample.ShadeRow | src/fontRenderer.mjs:132-147 | every pixel of output row y is its block's shade, and nothing outside the row changes |
| Supersample.ShadeRows | src/fontRenderer.mjs:128-148 | a fresh width × height buffer whose every pixel is its block's shade |
| Supersample.HighResolution | src/fontRenderer.mjs:110 | the high-resolution canvas keeps the box and has the dimensions of the formula at scale × multiplier, so both are at least 2 and 2 exactly on a flat axis |
| Supersample.SamplingFor | src/fontRenderer.mjs:105-110 | the sampled image is the glyph's box at the caller's scale times the multiplier in effect (16 by default): its width and height are the dimension formula at that scale |
| Supersample.RenderHighResolution | src/fontRenderer.mjs:110 | the binary render at scale × multiplier is a fresh buffer holding the specified binary image |
| Supersample.RenderGlyphGrayscale | src/fontRenderer.mjs:94-151 | dimensions, scale, mapped corners and origin as in the binary render at the caller's scale; a fresh width × height buffer whose every pixel is the shade of its block |
| ContourWinding.Sign | src/fontRenderer.mjs:244 | 1, −1 or 0 exactly as the value is positive, negative or zero |
| ContourWinding.WindingValueForContour | src/fontRenderer.mjs:235-245 | the loop returns the sign of the shoelace sum; the result is −1, 0 or 1, and 0 for an empty contour |
| ContourWinding.ShoelaceSumConcat | src/fontRenderer.mjs:240-242 | the shoelace sum of two edge chains is the sum of their sums |
| ContourWinding.ReverseNegates | src/fontRenderer.mjs:238-242 | traversing a contour the other way negates its shoelace sum |
| ContourWinding.ReverseFlipsWinding | src/fontRenderer.mjs:244 | traversing a contour the other way negates its winding value |
| ContourWinding.ShoelaceVanishes | src/fontRenderer.mjs:238 | an edge on the x axis, or a vertical one, adds nothing to the sum |
| ContourWinding.RectangleSum | src/fontRenderer.mjs:238-242 | a w × h rectangle's shoelace sum is −2wh, minus twice its area |
| ContourWinding.RectangleWinding | src/fontRenderer.mjs:235-245 | a rectangle of positive area has winding −1 counter-clockwise and +1 clockwise, and a flat one 0 |

## Left out

- `renderGlyphBySignedDistance` and `signedDistanceToEdge` are not part of this model. They work on floating-point distances with infinite sentinels and square roots, and they print to the console.
- `src/vec2.mjs` is not part of this model.
- Scanline.RenderGlyph: requires a positive scale and an ordered bounding box (`xMin ≤ xMax`, `yMin ≤ yMax`); the source accepts any numbers and then behaves as follows, none of which is modelled. When exactly one dimension comes out negative, allocating the buffer (line 33) throws. When both are negative (a negative scale on a box with two non-zero spans; the unit box at −5 gives −3 × −3), the buffer gets their positive product in bytes, the row loop never runs and a bitmap with negative width and height is returned. At scale 0 a box that is not flat gives a blank 2 × 2 image whose corners and origin map to 1, not 0.
- Scanline.RenderGlyph: a geometry without `contours` makes the edge loop (line 36) throw; the model's glyph always carries a sequence of contours, so that error is not modelled.
- Supersample.RenderGlyphGrayscale: has the same requirement. The multiplier is a natural number: a fractional or negative `sizeMultiplier` is not modelled.
- Coordinates are exact reals. Floating-point rounding is not modelled, so the model does not capture a JavaScript result that rounding makes differ from the exact one. Infinite scales and not-a-number input fields are not modelled either. The only not-a-number values modelled are those a flat bounding box produces.
- Supersample.RenderGlyphGrayscale: `Math.pow` is the parameter `pow`. Its value, and a non-finite result, are not modelled beyond the stated hypotheses.
- Scanline.SortByIntercept: `Array.prototype.sort` is modelled by an insertion sort that is proved to yield a sorted permutation. Its stability is not stated, because every fill result is proved independent of the order of equal intercepts.
- A bitmap is a datatype with the source's fields. The field order of the returned JavaScript object is not modelled.
- The source copies the caller's geometry into a fresh object before reading it. The model reads the glyph as an immutable value, so there is nothing to copy.
