/**
 * The anti-aliased rasterizer: the glyph is rendered in binary at
 * `sizeMultiplier` times the requested scale, and each output pixel is
 * shaded from the fraction of filled samples in its sizeMultiplier by
 * sizeMultiplier block of that high-resolution image, gamma-corrected and
 * clamped to a byte.
 *
 * Output pixel (x, y) reads the block whose top-left sample is
 * (x * m - m, y * m - m), m being the multiplier; samples outside the
 * high-resolution image count as empty. The power function the shading
 * uses is a parameter of the model.
 */
module Supersample {
  import opened Wrappers
  import opened Geometry
  import opened Scanline

  /** The renderer's options; a missing or zero setting takes its default. */
  datatype Config = Config(sizeMultiplier: Option<nat>, gammaCorrection: Option<real>)

  const DefaultMultiplier := 16
  const DefaultGamma := 2.2

  /** The multiplier in effect: the configured one unless missing or 0. */
  function Multiplier(c: Config): (m: int)
    ensures m > 0
    ensures c.sizeMultiplier.Some? && c.sizeMultiplier.value != 0 ==> m == c.sizeMultiplier.value
    ensures c.sizeMultiplier.None? || c.sizeMultiplier.value == 0 ==> m == DefaultMultiplier
  {
    match c.sizeMultiplier
    case Some(v) => if v == 0 then DefaultMultiplier else v
    case None => DefaultMultiplier
  }

  /** The gamma in effect: the configured one unless missing or 0. */
  function Gamma(c: Config): (g: real)
    ensures g != 0.0
    ensures c.gammaCorrection.Some? && c.gammaCorrection.value != 0.0 ==> g == c.gammaCorrection.value
    ensures c.gammaCorrection.None? || c.gammaCorrection.value == 0.0 ==> g == DefaultGamma
  {
    match c.gammaCorrection
    case Some(v) => if v == 0.0 then DefaultGamma else v
    case None => DefaultGamma
  }

  /** A value forced into 0 .. 255. */
  function Clamp(v: int): (b: byte)
    ensures 0 <= v <= 255 ==> b as int == v
    ensures v < 0 ==> b == 0
    ensures v > 255 ==> b == 255
  {
    if v < 0 then 0 else if v > 255 then 255 else v as byte
  }

  /**
   * The byte for `accum` filled samples out of m * m: the filled fraction
   * raised to 1 / gamma, scaled to 255, rounded down and clamped.
   */
  function Shade(pow: (real, real) -> real, gamma: real, m: int, accum: int): byte
    requires m > 0 && gamma != 0.0
  {
    Clamp((pow(accum as real / (m * m) as real, 1.0 / gamma) * 255.0).Floor)
  }

  /**
   * Whether a sample of the high-resolution image is filled: it lies inside
   * the image and its binary pixel is nonzero.
   */
  function Covered(hi: Canvas, edges: seq<Edge>, xx: int, yy: int): int
  {
    if 0 <= xx < hi.width && 0 <= yy < hi.height && FillValue(hi, edges, xx, yy) > 0 then 1 else 0
  }

  /** The filled samples among the n starting at (x0, yy), left to right. */
  function RowCoverage(hi: Canvas, edges: seq<Edge>, x0: int, yy: int, n: nat): (r: int)
    ensures 0 <= r <= n
  {
    if n == 0 then 0 else RowCoverage(hi, edges, x0, yy, n - 1) + Covered(hi, edges, x0 + n - 1, yy)
  }

  /** The filled samples in the first k rows, m samples wide, of the block at (x0, y0). */
  function BlockCoverage(hi: Canvas, edges: seq<Edge>, x0: int, y0: int, m: nat, k: nat): (r: int)
    ensures 0 <= r <= k * m
  {
    if k == 0 then 0
    else
      var r := BlockCoverage(hi, edges, x0, y0, m, k - 1) + RowCoverage(hi, edges, x0, y0 + k - 1, m);
      assert (k - 1) * m + m == k * m;
      r
  }

  /**
   * A grayscale render in progress: the high-resolution canvas and edges,
   * the multiplier, the gamma and the power function.
   */
  datatype Supersampling = Supersampling(
    hi: Canvas, edges: seq<Edge>, mult: int, gamma: real, pow: (real, real) -> real)
  {
    predicate Valid() { mult > 0 && gamma != 0.0 }

    /** The filled samples of the block read for output pixel (x, y). */
    function Coverage(x: int, y: int): (r: int)
      requires Valid()
      ensures 0 <= r <= mult * mult
    {
      BlockCoverage(hi, edges, x * mult - mult, y * mult - mult, mult, mult)
    }

    /** The specified value of output pixel (x, y). */
    function Value(x: int, y: int): byte
      requires Valid()
    {
      Shade(pow, gamma, mult, Coverage(x, y))
    }
  }

  // ---------------------------------------------------------------------
  // Properties of the shading
  // ---------------------------------------------------------------------

  /** A row of samples left of the image, or above it, holds no filled sample. */
  lemma {:induction false} OutsideRowUncovered(hi: Canvas, edges: seq<Edge>, x0: int, yy: int, n: nat)
    requires yy < 0 || x0 + n <= 0
    ensures RowCoverage(hi, edges, x0, yy, n) == 0
  {
    if n > 0 {
      OutsideRowUncovered(hi, edges, x0, yy, n - 1);
    }
  }

  /** A block wholly left of the image, or wholly above it, holds no filled sample. */
  lemma {:induction false} OutsideBlockUncovered(hi: Canvas, edges: seq<Edge>, x0: int, y0: int, m: nat, k: nat)
    requires y0 + k <= 0 || x0 + m <= 0
    ensures BlockCoverage(hi, edges, x0, y0, m, k) == 0
  {
    if k > 0 {
      OutsideBlockUncovered(hi, edges, x0, y0, m, k - 1);
      OutsideRowUncovered(hi, edges, x0, y0 + k - 1, m);
    }
  }

  /**
   * The blocks of output row 0 and column 0 lie wholly outside the
   * high-resolution image, so those pixels are the shade of zero coverage:
   * 0 whenever the power function maps 0 to 0.
   */
  lemma BorderPixelsBlank(s: Supersampling, x: int, y: int)
    requires s.Valid() && (x == 0 || y == 0)
    requires s.pow(0.0, 1.0 / s.gamma) == 0.0
    ensures s.Coverage(x, y) == 0
    ensures s.Value(x, y) == 0
  {
    OutsideBlockUncovered(s.hi, s.edges, x * s.mult - s.mult, y * s.mult - s.mult, s.mult, s.mult);
    assert 0 as real / (s.mult * s.mult) as real == 0.0;
  }

  lemma SquarePositive(m: int)
    requires m > 0
    ensures m * m > 0
  {
    assert m * m >= m;
  }

  lemma SelfQuotient(r: real)
    requires r > 0.0
    ensures r / r == 1.0
  {
  }

  /** Every one of the m * m samples filled gives white whenever the power function maps 1 to 1. */
  lemma ShadeFull(pow: (real, real) -> real, gamma: real, m: int)
    requires m > 0 && gamma != 0.0 && pow(1.0, 1.0 / gamma) == 1.0
    ensures Shade(pow, gamma, m, m * m) == 255
  {
    var n := m * m;
    SquarePositive(m);
    var r := n as real;
    SelfQuotient(r);
    var q := r / r;
    assert pow(q, 1.0 / gamma) * 255.0 == 255.0;
  }

  /** A block whose every sample is filled is white whenever the power function maps 1 to 1. */
  lemma FullBlockWhite(s: Supersampling, x: int, y: int)
    requires s.Valid() && s.Coverage(x, y) == s.mult * s.mult
    requires s.pow(1.0, 1.0 / s.gamma) == 1.0
    ensures s.Value(x, y) == 255
  {
    ShadeFull(s.pow, s.gamma, s.mult);
  }

  /** Whether pow, at exponent e, does not decrease as its non-negative base grows. */
  ghost predicate Increasing(pow: (real, real) -> real, e: real)
  {
    forall u, v :: 0.0 <= u <= v ==> pow(u, e) <= pow(v, e)
  }

  lemma DivMonotone(a: real, b: real, d: real)
    requires 0.0 <= a <= b && d > 0.0
    ensures 0.0 <= a / d <= b / d
  {
    assert b / d - a / d == (b - a) / d;
  }

  lemma FloorMonotone(p: real, q: real)
    requires p <= q
    ensures p.Floor <= q.Floor
  {
  }

  /** With a power function increasing in its base, more filled samples never give a darker pixel. */
  lemma ShadeMonotone(pow: (real, real) -> real, gamma: real, m: int, a: int, b: int)
    requires m > 0 && gamma != 0.0 && 0 <= a <= b
    requires Increasing(pow, 1.0 / gamma)
    ensures Shade(pow, gamma, m, a) <= Shade(pow, gamma, m, b)
  {
    var m2 := (m * m) as real;
    SquarePositive(m);
    var u, v := a as real / m2, b as real / m2;
    DivMonotone(a as real, b as real, m2);
    var e := 1.0 / gamma;
    assert pow(u, e) <= pow(v, e);
    FloorMonotone(pow(u, e) * 255.0, pow(v, e) * 255.0);
  }

  // ---------------------------------------------------------------------
  // The imperative renderer
  // ---------------------------------------------------------------------

  /**
   * Rows 0 .. rows - 1 of the row-major output buffer, `width` pixels
   * wide, hold the specified shades.
   */
  ghost predicate ShadedRows(buf: seq<byte>, width: int, s: Supersampling, rows: int)
    requires s.Valid()
  {
    forall x, y :: 0 <= x < width && 0 <= y < rows ==> PixelIs(buf, width, x, y, s.Value(x, y))
  }

  /** The buffer went from before to after by shading row y and nothing else. */
  ghost predicate RowShaded(before: seq<byte>, after: seq<byte>, width: int, s: Supersampling, y: int)
    requires s.Valid()
  {
    && |before| == |after|
    && 0 <= y * width && y * width + width <= |after|
    && (forall i :: 0 <= i < |after| && !(y * width <= i < y * width + width) ==> after[i] == before[i])
    && (forall x :: 0 <= x < width ==> after[y * width + x] == s.Value(x, y))
  }

  /** Shading row y below correctly shaded rows, touching nothing else, shades rows 0 .. y. */
  lemma ShadedRowsExtend(before: seq<byte>, after: seq<byte>, width: int, s: Supersampling, y: int)
    requires s.Valid() && 0 <= y && width >= 0
    requires ShadedRows(before, width, s, y)
    requires RowShaded(before, after, width, s, y)
    ensures ShadedRows(after, width, s, y + 1)
  {
    forall x, r | 0 <= x < width && 0 <= r < y + 1
      ensures PixelIs(after, width, x, r, s.Value(x, r))
    {
      if r < y {
        EarlierRow(width, r, y, x);
        assert PixelIs(before, width, x, r, s.Value(x, r));
      }
    }
  }

  /**
   * The accumulation loops of one output pixel: counts the filled samples
   * of the block at (x0, y0), m samples square, in the binary render `hi`.
   */
  method AccumulateBlock(hi: array<byte>, s: Supersampling, x0: int, y0: int) returns (accum: int)
    requires s.Valid() && hi.Length == s.hi.width * s.hi.height
    requires RowsFilled(hi[..], s.hi, s.edges, s.hi.height)
    ensures accum == BlockCoverage(s.hi, s.edges, x0, y0, s.mult, s.mult)
  {
    var m := s.mult;
    var width, height := s.hi.width, s.hi.height;
    accum := 0;
    for yy := y0 to y0 + m
      invariant accum == BlockCoverage(s.hi, s.edges, x0, y0, m, yy - y0)
    {
      for xx := x0 to x0 + m
        invariant accum == BlockCoverage(s.hi, s.edges, x0, y0, m, yy - y0) + RowCoverage(s.hi, s.edges, x0, yy, xx - x0)
      {
        if xx < 0 || xx >= width || yy < 0 || yy >= height {
          continue;
        }
        assert PixelIs(hi[..], width, xx, yy, FillValue(s.hi, s.edges, xx, yy));
        accum := accum + (if hi[yy * width + xx] > 0 then 1 else 0);
      }
    }
  }

  /** Shades output row y, `width` pixels wide, and nothing else. */
  method ShadeRow(hi: array<byte>, buffer: array<byte>, width: int, s: Supersampling, y: int)
    requires s.Valid() && hi.Length == s.hi.width * s.hi.height
    requires RowsFilled(hi[..], s.hi, s.edges, s.hi.height)
    requires 0 <= y * width && 0 <= width && y * width + width <= buffer.Length
    requires buffer != hi
    modifies buffer
    ensures RowShaded(old(buffer[..]), buffer[..], width, s, y)
  {
    var m := s.mult;
    for x := 0 to width
      invariant hi[..] == old(hi[..])
      invariant forall i :: 0 <= i < buffer.Length && !(y * width <= i < y * width + x) ==>
        buffer[i] == old(buffer[i])
      invariant forall c :: 0 <= c < x ==> buffer[y * width + c] == s.Value(c, y)
    {
      var accum := AccumulateBlock(hi, s, x * m - m, y * m - m);
      buffer[y * width + x] := Shade(s.pow, s.gamma, m, accum);
    }
  }

  /** Allocates the output buffer, `width` by `height`, and shades it row by row. */
  method ShadeRows(hi: array<byte>, s: Supersampling, width: int, height: int) returns (buffer: array<byte>)
    requires s.Valid() && hi.Length == s.hi.width * s.hi.height
    requires RowsFilled(hi[..], s.hi, s.edges, s.hi.height)
    requires width >= 0 && height >= 0
    ensures fresh(buffer) && buffer.Length == width * height
    ensures ShadedRows(buffer[..], width, s, height)
  {
    assert width * height >= 0;
    buffer := new byte[width * height];
    for y := 0 to height
      invariant ShadedRows(buffer[..], width, s, y)
    {
      RowFits(width, height, y);
      ghost var before := buffer[..];
      ShadeRow(hi, buffer, width, s, y);
      ShadedRowsExtend(before, buffer[..], width, s, y);
    }
  }

  /**
   * What a grayscale render of the glyph at emToPixelSize with the given
   * options samples: the binary render of the glyph's box and edges at
   * emToPixelSize times the multiplier in effect.
   */
  function SamplingFor(g: Glyph, emToPixelSize: real, config: Config, pow: (real, real) -> real): (s: Supersampling)
    requires emToPixelSize > 0.0 && BoxOf(g).Ordered()
    ensures s.Valid() && s.hi.Valid() && s.hi.box == BoxOf(g)
    ensures var b, scale := BoxOf(g), HighScale(emToPixelSize, Multiplier(config));
      && s.hi.width == Dimension(b.xMin, b.xMax, scale)
      && s.hi.height == Dimension(b.yMin, b.yMax, scale)
  {
    var m := Multiplier(config);
    var hi := HighResolution(BoxOf(g), emToPixelSize, m);
    Supersampling(hi, KeptEdges(g.contours), m, Gamma(config), pow)
  }

  /** The scale of the high-resolution render: emToPixelSize times the multiplier. */
  function HighScale(emToPixelSize: real, mult: int): (r: real)
    requires emToPixelSize > 0.0 && mult > 0
    ensures r >= emToPixelSize
  {
    emToPixelSize * mult as real
  }

  /**
   * The canvas of the binary render at emToPixelSize times the multiplier:
   * the box's spans scaled by the product, rounded up, plus 2.
   */
  function HighResolution(b: BBox, emToPixelSize: real, mult: int): (cv: Canvas)
    requires emToPixelSize > 0.0 && mult > 0 && b.Ordered()
    ensures cv.Valid() && cv.box == b
    ensures cv.width == Dimension(b.xMin, b.xMax, HighScale(emToPixelSize, mult))
    ensures cv.height == Dimension(b.yMin, b.yMax, HighScale(emToPixelSize, mult))
  {
    CanvasFor(b, HighScale(emToPixelSize, mult))
  }

  /**
   * The binary render of the box and contours at emToPixelSize times the
   * multiplier, its buffer holding the specified image.
   */
  method RenderHighResolution(b: BBox, contours: seq<Contour>, emToPixelSize: real, mult: int)
    returns (hi: array<byte>)
    requires emToPixelSize > 0.0 && mult > 0 && b.Ordered()
    ensures var cv := HighResolution(b, emToPixelSize, mult);
      && fresh(hi) && hi.Length == cv.width * cv.height
      && RowsFilled(hi[..], cv, KeptEdges(contours), cv.height)
  {
    var geometry := Glyph(Some(b.xMin), Some(b.xMax), Some(b.yMin), Some(b.yMax), contours);
    assert BoxOf(geometry) == b;
    var binaryRender := RenderGlyph(geometry, HighScale(emToPixelSize, mult));
    hi := binaryRender.buffer;
  }

  /**
   * Renders the glyph anti-aliased at `emToPixelSize` pixels per em: the
   * binary render at emToPixelSize times the multiplier is reduced block by
   * block to a fresh buffer of the glyph's size at emToPixelSize, each
   * pixel the shade of its block's filled samples.
   */
  method RenderGlyphGrayscale(g: Glyph, emToPixelSize: real, config: Config, pow: (real, real) -> real)
    returns (bm: Bitmap)
    requires emToPixelSize > 0.0 && BoxOf(g).Ordered()
    ensures var b := BoxOf(g);
      && bm.width == Dimension(b.xMin, b.xMax, emToPixelSize)
      && bm.height == Dimension(b.yMin, b.yMax, emToPixelSize)
      && bm.emToPixelSize == emToPixelSize
      && bm.xMin == EmToPixel(b.xMin, b.xMin, b.xMax, bm.width)
      && bm.xMax == EmToPixel(b.xMax, b.xMin, b.xMax, bm.width)
      && bm.yMin == EmToPixel(b.yMin, b.yMin, b.yMax, bm.height)
      && bm.yMax == EmToPixel(b.yMax, b.yMin, b.yMax, bm.height)
      && bm.xOrigin == EmToPixel(0.0, b.xMin, b.xMax, bm.width)
      && bm.yOrigin == EmToPixel(0.0, b.yMin, b.yMax, bm.height)
    ensures fresh(bm.buffer) && bm.buffer.Length == bm.width * bm.height
    ensures var s := SamplingFor(g, emToPixelSize, config, pow);
      forall x, y :: 0 <= x < bm.width && 0 <= y < bm.height ==>
        PixelIs(bm.buffer[..], bm.width, x, y, s.Value(x, y))
  {
    var b := BoxOf(g);
    var mult := Multiplier(config);
    var gammaCorrection := Gamma(config);

    var s := SamplingFor(g, emToPixelSize, config, pow);
    var hi := RenderHighResolution(b, g.contours, emToPixelSize, mult);

    var width := Dimension(b.xMin, b.xMax, emToPixelSize);
    var height := Dimension(b.yMin, b.yMax, emToPixelSize);
    var xMin := EmToPixel(b.xMin, b.xMin, b.xMax, width);
    var xMax := EmToPixel(b.xMax, b.xMin, b.xMax, width);
    var yMin := EmToPixel(b.yMin, b.yMin, b.yMax, height);
    var yMax := EmToPixel(b.yMax, b.yMin, b.yMax, height);
    var xOrigin := EmToPixel(0.0, b.xMin, b.xMax, width);
    var yOrigin := EmToPixel(0.0, b.yMin, b.yMax, height);

    var buffer := ShadeRows(hi, s, width, height);
    bm := Bitmap(width, height, emToPixelSize, xMin, xMax, yMin, yMax, xOrigin, yOrigin, buffer);
  }
}
