/**
 * Glyph geometry in em units, the bitmap dimensions derived from it, and the
 * per-axis affine mapping between em space and pixel space used by both the
 * binary and the grayscale renderer.
 *
 * Coordinates are exact reals. The one place where the renderer relies on
 * IEEE-754 special values is a flat bounding box (zero span on an axis):
 * its pixel dimension is then 2 and every division by `dim - 2` yields a
 * not-a-number. The model makes that explicit: `EmToPixel` returns 0 there
 * (the `|| 0` coercion) and `ScanEm` returns `None` (a not-a-number that
 * every comparison rejects).
 */
module Geometry {
  import opened Wrappers

  /** A directed straight edge (x1, y1) -> (x2, y2) of a flattened outline. */
  datatype Edge = Edge(x1: real, y1: real, x2: real, y2: real)

  /** A closed polygon, as the ordered chain of its edges. */
  type Contour = seq<Edge>

  /** The caller's geometry: any bounding-box field may be missing. */
  datatype Glyph = Glyph(
    xMin: Option<real>, xMax: Option<real>,
    yMin: Option<real>, yMax: Option<real>,
    contours: seq<Contour>)

  /** A bounding box with every field present. */
  datatype BBox = BBox(xMin: real, xMax: real, yMin: real, yMax: real)
  {
    predicate Ordered() { xMin <= xMax && yMin <= yMax }
  }

  /** The bounding box with each missing field read as 0. */
  function BoxOf(g: Glyph): (b: BBox)
    ensures g.xMin.None? ==> b.xMin == 0.0
    ensures g.xMax.None? ==> b.xMax == 0.0
    ensures g.yMin.None? ==> b.yMin == 0.0
    ensures g.yMax.None? ==> b.yMax == 0.0
    ensures g.xMin.Some? ==> b.xMin == g.xMin.value
    ensures g.xMax.Some? ==> b.xMax == g.xMax.value
    ensures g.yMin.Some? ==> b.yMin == g.yMin.value
    ensures g.yMax.Some? ==> b.yMax == g.yMax.value
  {
    BBox(g.xMin.GetOr(0.0), g.xMax.GetOr(0.0), g.yMin.GetOr(0.0), g.yMax.GetOr(0.0))
  }

  /** The least integer not below r (JavaScript's Math.ceil). */
  function Ceil(r: real): (c: int)
    ensures (c - 1) as real < r <= c as real
  {
    -((-r).Floor)
  }

  /**
   * The pixel count along one axis: the scaled span rounded up, plus 2.
   * Pixel i samples the em coordinate `ScanEm(lo, hi, dim, i)`, so pixel 0
   * samples below lo, pixel 1 samples lo itself and pixel dim - 1 samples
   * hi itself; whether those two boundary pixels are filled is up to the
   * crossing and sweep rules, not a blank margin.
   */
  function Dimension(lo: real, hi: real, scale: real): (d: int)
    ensures (d - 3) as real < (hi - lo) * scale <= (d - 2) as real
    ensures lo <= hi && scale > 0.0 ==> d >= 2 && (d == 2 <==> lo == hi)
  {
    var span := (hi - lo) * scale;
    assert lo < hi && scale > 0.0 ==> span > 0.0;
    assert lo == hi ==> span == 0.0;
    Ceil(span) + 2
  }

  /**
   * The em-to-pixel mapping of one axis, `lo` going to pixel 1 and `hi` to
   * pixel `dim - 1`. On a flat axis the quotient is not a number, which the
   * renderer coerces to 0.
   */
  function EmToPixel(v: real, lo: real, hi: real, dim: int): real
  {
    if hi == lo then 0.0 else (v - lo) / (hi - lo) * (dim - 2) as real + 1.0
  }

  /**
   * The em coordinate sampled by pixel row or column `i`, the inverse of
   * `EmToPixel`: `lo + ((i - 1) / (dim - 2)) * (hi - lo)`. When `dim == 2`
   * the span is 0 and the product `±∞ · 0` or `NaN · 0` is not a number,
   * written `None`.
   */
  function ScanEm(lo: real, hi: real, dim: int, i: int): Option<real>
  {
    if dim == 2 then None
    else Some(lo + ((i - 1) as real / (dim - 2) as real) * (hi - lo))
  }

  /** A not-a-number is neither below nor above anything. */
  predicate Le(a: Option<real>, b: Option<real>)
  {
    a.Some? && b.Some? && a.value <= b.value
  }

  /** The box of a render at `scale` and the bitmap dimensions it yields. */
  datatype Canvas = Canvas(box: BBox, width: int, height: int)
  {
    /** Dimensions at least 2, and 2 exactly on a flat axis. */
    predicate Valid()
    {
      && box.Ordered()
      && width >= 2 && height >= 2
      && (width == 2 <==> box.xMin == box.xMax)
      && (height == 2 <==> box.yMin == box.yMax)
    }

    /** The em-space x sampled by pixel column x. */
    function ColumnEm(x: int): Option<real>
    {
      ScanEm(box.xMin, box.xMax, width, x)
    }

    /** The em-space y sampled by pixel row y. */
    function RowEm(y: int): Option<real>
    {
      ScanEm(box.yMin, box.yMax, height, y)
    }
  }

  function CanvasFor(b: BBox, scale: real): (cv: Canvas)
    requires b.Ordered() && scale > 0.0
    ensures cv.Valid() && cv.box == b
  {
    Canvas(b, Dimension(b.xMin, b.xMax, scale), Dimension(b.yMin, b.yMax, scale))
  }

  /** The bounding box's corners map to the first and last inner pixel; a flat axis maps everything to 0. */
  lemma EmToPixelCorners(lo: real, hi: real, dim: int, v: real)
    ensures lo != hi ==> EmToPixel(lo, lo, hi, dim) == 1.0
    ensures lo != hi ==> EmToPixel(hi, lo, hi, dim) == (dim - 1) as real
    ensures lo == hi ==> EmToPixel(v, lo, hi, dim) == 0.0
  {
  }

  /** Mapping the em coordinate of pixel i back to pixel space gives i. */
  lemma EmToPixelInvertsScanEm(lo: real, hi: real, dim: int, i: int)
    requires lo < hi && dim > 2
    ensures ScanEm(lo, hi, dim, i).Some?
    ensures EmToPixel(ScanEm(lo, hi, dim, i).value, lo, hi, dim) == i as real
  {
    var t := (i - 1) as real / (dim - 2) as real;
    var span := hi - lo;
    assert (lo + t * span - lo) / span == t;
    assert t * (dim - 2) as real == (i - 1) as real;
  }

  /** Sampled em coordinates grow with the pixel index, strictly when the span is positive. */
  lemma ScanEmMonotone(lo: real, hi: real, dim: int, i: int, j: int)
    requires lo <= hi && dim > 2 && i <= j
    ensures ScanEm(lo, hi, dim, i).value <= ScanEm(lo, hi, dim, j).value
    ensures lo < hi && i < j ==> ScanEm(lo, hi, dim, i).value < ScanEm(lo, hi, dim, j).value
  {
    var d := (dim - 2) as real;
    var ti := (i - 1) as real / d;
    var tj := (j - 1) as real / d;
    assert tj - ti == (j - i) as real / d;
    assert ti <= tj;
    assert tj * (hi - lo) - ti * (hi - lo) == (tj - ti) * (hi - lo);
  }

  /** Whatever lies at or below column i's em coordinate lies at or below column j's, for i <= j. */
  lemma ColumnEmMonotone(cv: Canvas, i: int, j: int, v: Option<real>)
    requires cv.Valid() && i <= j && Le(v, cv.ColumnEm(i))
    ensures Le(v, cv.ColumnEm(j))
  {
    ScanEmMonotone(cv.box.xMin, cv.box.xMax, cv.width, i, j);
  }
}
