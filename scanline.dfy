/**
 * The binary rasterizer: a scanline polygon fill under the nonzero winding
 * rule (the `nonzero` fill rule of section 11.3 of SVG 1.1).
 *
 * For each pixel row the renderer gives every non-horizontal edge an
 * x-intercept and a direction (+1 upward, -1 downward) when it crosses the
 * row's em-space y, and intercept 0 and direction 0 otherwise; it sorts the
 * edges by intercept in place and sweeps the row left to right, adding up
 * the directions of the edges whose intercept it has passed. A pixel is 255
 * where that running winding number is nonzero and 0 elsewhere.
 *
 * The specification of a pixel is `FillValue`: the sum, over the
 * non-horizontal edges in contour order, of the directions of those that
 * cross the pixel's row at or left of the pixel's column. `RenderGlyph`
 * is proved to produce exactly that image, whatever order the sort leaves
 * edges with equal intercepts in.
 */
module Scanline {
  import opened Wrappers
  import opened Seqs
  import opened Geometry

  newtype byte = x: int | 0 <= x < 256

  /** A render result: dimensions, scale, mapped bbox corners and origin, pixels row-major. */
  datatype Bitmap = Bitmap(
    width: int, height: int, emToPixelSize: real,
    xMin: real, xMax: real, yMin: real, yMax: real,
    xOrigin: real, yOrigin: real,
    buffer: array<byte>)

  // ---------------------------------------------------------------------
  // The edge list
  // ---------------------------------------------------------------------

  predicate Horizontal(e: Edge) { e.y1 == e.y2 }

  /** The non-horizontal edges of one contour, in order. */
  function KeptInContour(c: Contour): seq<Edge>
  {
    if c == [] then []
    else KeptInContour(c[..|c| - 1]) + (if Horizontal(c[|c| - 1]) then [] else [c[|c| - 1]])
  }

  /** The non-horizontal edges of all contours, contour after contour. */
  function KeptEdges(cs: seq<Contour>): seq<Edge>
  {
    if cs == [] then [] else KeptEdges(cs[..|cs| - 1]) + KeptInContour(cs[|cs| - 1])
  }

  lemma {:induction false} KeptInContourMembership(c: Contour, e: Edge)
    ensures e in KeptInContour(c) <==> e in c && !Horizontal(e)
  {
    if c != [] {
      var last := c[|c| - 1];
      assert c == c[..|c| - 1] + [last];
      KeptInContourMembership(c[..|c| - 1], e);
    }
  }

  /** Whether some contour of cs holds e. */
  predicate InSomeContour(cs: seq<Contour>, e: Edge)
  {
    exists i :: 0 <= i < |cs| && e in cs[i]
  }

  lemma InSomeContourSplit(cs: seq<Contour>, e: Edge)
    requires cs != []
    ensures InSomeContour(cs, e) <==> InSomeContour(cs[..|cs| - 1], e) || e in cs[|cs| - 1]
  {
    var n := |cs| - 1;
    if InSomeContour(cs, e) {
      var i :| 0 <= i < |cs| && e in cs[i];
      if i < n {
        assert cs[..n][i] == cs[i];
      }
    }
    if InSomeContour(cs[..n], e) {
      var i :| 0 <= i < n && e in cs[..n][i];
      assert cs[..n][i] == cs[i];
    }
  }

  /** An edge is kept exactly when it belongs to some contour and is not horizontal. */
  lemma {:induction false} KeptEdgesMembership(cs: seq<Contour>, e: Edge)
    ensures e in KeptEdges(cs) <==> !Horizontal(e) && InSomeContour(cs, e)
  {
    if cs != [] {
      var n := |cs| - 1;
      KeptEdgesMembership(cs[..n], e);
      KeptInContourMembership(cs[n], e);
      InSomeContourSplit(cs, e);
      assert e in KeptEdges(cs) <==> e in KeptEdges(cs[..n]) || e in KeptInContour(cs[n]);
    }
  }

  /** A glyph without a non-horizontal edge has an empty edge list. */
  lemma NoEdgesKept(cs: seq<Contour>)
    requires forall i, j :: 0 <= i < |cs| && 0 <= j < |cs[i]| ==> Horizontal(cs[i][j])
    ensures KeptEdges(cs) == []
  {
    if KeptEdges(cs) != [] {
      KeptEdgesMembership(cs, KeptEdges(cs)[0]);
      assert false;
    }
  }

  /** Builds the edge list, skipping horizontal edges. */
  method CollectEdges(contours: seq<Contour>) returns (list: seq<Edge>)
    ensures list == KeptEdges(contours)
  {
    list := [];
    for i := 0 to |contours|
      invariant list == KeptEdges(contours[..i])
    {
      var contour := contours[i];
      assert contours[..i + 1][..i] == contours[..i];
      for j := 0 to |contour|
        invariant list == KeptEdges(contours[..i]) + KeptInContour(contour[..j])
      {
        assert contour[..j + 1][..j] == contour[..j];
        if contour[j].y1 == contour[j].y2 {
          continue;
        }
        list := list + [contour[j]];
      }
      assert contour[..|contour|] == contour;
    }
    assert contours[..|contours|] == contours;
  }

  // ---------------------------------------------------------------------
  // One scanline
  // ---------------------------------------------------------------------

  /** An edge of the list with the intercept and direction of the current scanline. */
  datatype ActiveEdge = ActiveEdge(edge: Edge, xAtCurrentScanline: Option<real>, winding: int)

  function Min(a: real, b: real): real { if a <= b then a else b }
  function Max(a: real, b: real): real { if a <= b then b else a }

  /**
   * Whether the edge crosses the scanline at yEm: its lower end strictly
   * below, its upper end at or above. Both comparisons are false for a
   * not-a-number scanline, which therefore counts as crossed.
   */
  predicate Crosses(e: Edge, yEm: Option<real>)
  {
    match yEm
    case None => true
    case Some(v) => !(Min(e.y1, e.y2) >= v || Max(e.y1, e.y2) < v)
  }

  /** +1 for an upward edge, -1 for a downward one. */
  function Direction(e: Edge): int { if e.y2 > e.y1 then 1 else -1 }

  /** Where a crossing edge meets the scanline, by linear interpolation. */
  function Intercept(e: Edge, yEm: Option<real>): Option<real>
    requires Crosses(e, yEm)
  {
    match yEm
    case None => None
    case Some(v) => Some(e.x1 + (v - e.y1) / (e.y2 - e.y1) * (e.x2 - e.x1))
  }

  /** The state the renderer gives an edge for the scanline at yEm. */
  function ScanEdge(e: Edge, yEm: Option<real>): ActiveEdge
  {
    if Crosses(e, yEm) then ActiveEdge(e, Intercept(e, yEm), Direction(e))
    else ActiveEdge(e, Some(0.0), 0)
  }

  function Scanner(yEm: Option<real>): Edge -> ActiveEdge
  {
    (e: Edge) => ScanEdge(e, yEm)
  }

  function BaseOf(a: ActiveEdge): Edge { a.edge }

  function WindingOf(a: ActiveEdge): int { a.winding }

  function One(a: ActiveEdge): int { 1 }

  /** What an edge adds to the running winding once the sweep has reached xEm. */
  function Winder(xEm: Option<real>): ActiveEdge -> int
  {
    (a: ActiveEdge) => if Le(a.xAtCurrentScanline, xEm) then a.winding else 0
  }

  /** Whether the sweep has passed the edge at xEm, as a count. */
  function Passer(xEm: Option<real>): ActiveEdge -> int
  {
    (a: ActiveEdge) => if Le(a.xAtCurrentScanline, xEm) then 1 else 0
  }

  /** The contribution of an edge to the winding number at (xEm, yEm). */
  function CrossingWinding(yEm: Option<real>, xEm: Option<real>): Edge -> int
  {
    (e: Edge) => if Crosses(e, yEm) && Le(Intercept(e, yEm), xEm) then Direction(e) else 0
  }

  /**
   * The nonzero-rule winding number at (xEm, yEm): the directions of the
   * edges that cross the scanline at or left of xEm, added up.
   */
  function WindingNumber(edges: seq<Edge>, yEm: Option<real>, xEm: Option<real>): int
  {
    Sum(edges, CrossingWinding(yEm, xEm))
  }

  function Pixel(winding: int): byte
  {
    if winding == 0 then 0 else 255
  }

  /** The pixel the sweep writes at column x from the scanned edges of its row. */
  function SweptPixel(row: seq<ActiveEdge>, cv: Canvas, x: int): byte
  {
    Pixel(Sum(row, Winder(cv.ColumnEm(x))))
  }

  /** The specified value of pixel (x, y). */
  function FillValue(cv: Canvas, edges: seq<Edge>, x: int, y: int): byte
  {
    Pixel(WindingNumber(edges, cv.RowEm(y), cv.ColumnEm(x)))
  }

  /** Pixel (x, y) of a row-major buffer `width` pixels wide holds v. */
  predicate PixelIs(buf: seq<byte>, width: int, x: int, y: int, v: byte)
  {
    0 <= y * width + x < |buf| && buf[y * width + x] == v
  }

  /**
   * The crossing rule: an edge crosses the scanline at v exactly when v lies
   * above its lower end and at or below its upper end; a crossing edge is
   * never horizontal and gets its direction, any other edge intercept 0 and
   * direction 0.
   */
  lemma CrossingRule(e: Edge, v: real)
    ensures Crosses(e, Some(v)) <==> Min(e.y1, e.y2) < v <= Max(e.y1, e.y2)
    ensures Crosses(e, Some(v)) ==> !Horizontal(e)
    ensures Min(e.y1, e.y2) < v <= Max(e.y1, e.y2) ==>
      ScanEdge(e, Some(v)).winding == (if e.y2 > e.y1 then 1 else -1)
    ensures !(Min(e.y1, e.y2) < v <= Max(e.y1, e.y2)) ==>
      ScanEdge(e, Some(v)).winding == 0 && ScanEdge(e, Some(v)).xAtCurrentScanline == Some(0.0)
  {
  }

  /** A fraction t of d lies between 0 and d. */
  lemma ScaleBetween(t: real, d: real)
    requires 0.0 <= t <= 1.0
    ensures d >= 0.0 ==> 0.0 <= t * d <= d
    ensures d < 0.0 ==> d <= t * d <= 0.0
  {
    if d >= 0.0 {
      assert d - t * d == (1.0 - t) * d;
    } else {
      assert t * d - d == (1.0 - t) * (-d);
    }
  }

  /** The intercept of a crossing edge lies between the edge's two x coordinates. */
  lemma InterceptBetween(e: Edge, v: real)
    requires Crosses(e, Some(v))
    ensures Min(e.x1, e.x2) <= Intercept(e, Some(v)).value <= Max(e.x1, e.x2)
  {
    var dy := e.y2 - e.y1;
    var t := (v - e.y1) / dy;
    if dy > 0.0 {
      assert 0.0 < v - e.y1 <= dy;
      Fraction(v - e.y1, dy);
    } else {
      assert dy <= v - e.y1 <= 0.0;
      Fraction(-(v - e.y1), -dy);
      assert t == -(v - e.y1) / -dy;
    }
    var dx := e.x2 - e.x1;
    ScaleBetween(t, dx);
    assert dx >= 0.0 ==> t * dx <= dx;
    assert Intercept(e, Some(v)).value == e.x1 + t * dx;
  }

  /** A quotient of a by d, for 0 <= a <= d, is a fraction. */
  lemma Fraction(a: real, d: real)
    requires 0.0 <= a <= d && d > 0.0
    ensures 0.0 <= a / d <= 1.0
  {
    var q := a / d;
    assert q * d == a;
  }

  /** The order key of the sort; a not-a-number compares as equal to everything. */
  function Key(a: ActiveEdge): real
  {
    match a.xAtCurrentScanline
    case Some(v) => v
    case None => 0.0
  }

  predicate Sorted(s: seq<ActiveEdge>)
  {
    forall i, j :: 0 <= i < j < |s| ==> Key(s[i]) <= Key(s[j])
  }

  /** Within one scanline either every intercept is a number or none is. */
  predicate Uniform(s: seq<ActiveEdge>)
  {
    || (forall a :: a in s ==> a.xAtCurrentScanline.None?)
    || (forall a :: a in s ==> a.xAtCurrentScanline.Some?)
  }

  lemma UniformPermutation(s: seq<ActiveEdge>, t: seq<ActiveEdge>)
    requires multiset(s) == multiset(t) && Uniform(t)
    ensures Uniform(s)
  {
    forall a | a in s ensures a in t {
      assert a in multiset(s);
    }
  }

  lemma ScannedRowIsUniform(edges: seq<Edge>, yEm: Option<real>)
    ensures Uniform(Map(edges, Scanner(yEm)))
  {
    var s := Map(edges, Scanner(yEm));
    if yEm.None? {
      forall a | a in s ensures a.xAtCurrentScanline.None? {
        var i :| 0 <= i < |s| && s[i] == a;
      }
    } else {
      forall a | a in s ensures a.xAtCurrentScanline.Some? {
        var i :| 0 <= i < |s| && s[i] == a;
      }
    }
  }

  /** Scanning an edge list and summing what the sweep adds gives the winding number. */
  lemma {:induction false} ScannedWinding(edges: seq<Edge>, yEm: Option<real>, xEm: Option<real>)
    ensures Sum(Map(edges, Scanner(yEm)), Winder(xEm)) == WindingNumber(edges, yEm, xEm)
  {
    if edges != [] {
      ScannedWinding(edges[1..], yEm, xEm);
      assert Map(edges, Scanner(yEm))[1..] == Map(edges[1..], Scanner(yEm));
    }
  }

  lemma {:induction false} BasesOfScanned(edges: seq<Edge>, yEm: Option<real>)
    ensures Map(Map(edges, Scanner(yEm)), BaseOf) == edges
  {
    var r := Map(Map(edges, Scanner(yEm)), BaseOf);
    assert forall i :: 0 <= i < |edges| ==> r[i] == edges[i];
  }

  /**
   * The sweep's winding number is the nonzero-rule winding number whatever
   * the order of the scanned edges: any permutation of the scanned edge list,
   * in particular the one a sort leaves with ties in either order.
   */
  lemma SweepMatchesWindingNumber(row: seq<ActiveEdge>, bases: seq<Edge>, edges: seq<Edge>,
                                  yEm: Option<real>, xEm: Option<real>)
    requires multiset(row) == multiset(Map(bases, Scanner(yEm)))
    requires multiset(bases) == multiset(edges)
    ensures Sum(row, Winder(xEm)) == WindingNumber(edges, yEm, xEm)
  {
    SumPermutation(row, Map(bases, Scanner(yEm)), Winder(xEm));
    ScannedWinding(bases, yEm, xEm);
    SumPermutation(bases, edges, CrossingWinding(yEm, xEm));
  }

  /** On a sorted uniform row, once an edge lies right of xEm so do all after it. */
  lemma NotPassedAfter(s: seq<ActiveEdge>, c: int, xEm: Option<real>)
    requires Sorted(s) && Uniform(s) && 0 <= c < |s|
    requires !Le(s[c].xAtCurrentScanline, xEm)
    ensures forall j :: c <= j < |s| ==> !Le(s[j].xAtCurrentScanline, xEm)
  {
    forall j | c <= j < |s| ensures !Le(s[j].xAtCurrentScanline, xEm) {
      assert s[c] in s && s[j] in s;
      assert c < j ==> Key(s[c]) <= Key(s[j]);
    }
  }

  /** Each pixel the sweep writes for row y is the specified fill value. */
  lemma SweptRowIsFill(row: seq<ActiveEdge>, bases: seq<Edge>, edges: seq<Edge>, cv: Canvas, y: int)
    requires multiset(row) == multiset(Map(bases, Scanner(cv.RowEm(y))))
    requires multiset(bases) == multiset(edges)
    ensures forall x :: SweptPixel(row, cv, x) == FillValue(cv, edges, x, y)
  {
    forall x ensures SweptPixel(row, cv, x) == FillValue(cv, edges, x, y) {
      SweepMatchesWindingNumber(row, bases, edges, cv.RowEm(y), cv.ColumnEm(x));
    }
  }

  /** A permutation of the scanned edges still holds the same edges. */
  lemma SortedRowKeepsBases(row: seq<ActiveEdge>, bases: seq<Edge>, yEm: Option<real>)
    requires multiset(row) == multiset(Map(bases, Scanner(yEm)))
    ensures multiset(Map(row, BaseOf)) == multiset(bases)
  {
    BasesOfScanned(bases, yEm);
    MapPermutation(row, Map(bases, Scanner(yEm)), BaseOf);
  }

  /**
   * On a sorted uniform row, the edges the sweep has passed at xEm form a
   * prefix: the first c when the c-th is not at or left of xEm.
   */
  lemma PassedPrefix(s: seq<ActiveEdge>, c: int, xEm: Option<real>)
    requires Sorted(s) && Uniform(s) && 0 <= c <= |s|
    requires PassedAll(s, c, xEm)
    requires c < |s| ==> !Le(s[c].xAtCurrentScanline, xEm)
    ensures Sum(s, Winder(xEm)) == Sum(s[..c], WindingOf)
    ensures Sum(s, Passer(xEm)) == c
  {
    if c < |s| {
      NotPassedAfter(s, c, xEm);
    }
    SumPrefix(s, c, Winder(xEm), WindingOf);
    SumPrefix(s, c, Passer(xEm), One);
    SumOfOnes(s[..c], One);
  }

  lemma MulAtLeast(a: int, w: int)
    requires a >= 1 && w > 0
    ensures a * w >= w
  {
    assert a * w == (a - 1) * w + w;
  }

  lemma RowFits(w: int, h: int, y: int)
    requires 0 <= y < h && w >= 0
    ensures 0 <= y * w && y * w + w <= w * h
  {
    assert y * w + w == (y + 1) * w;
  }

  /** Pixels of earlier rows come earlier in the buffer. */
  lemma EarlierRow(w: int, r: int, y: int, x: int)
    requires 0 <= r < y && 0 <= x < w
    ensures r * w + x < y * w
  {
    MulAtLeast(y - r, w);
    assert y * w == r * w + (y - r) * w;
  }

  /** Every index of a buffer of w * h pixels is pixel (i % w, i / w). */
  lemma IndexToPixel(i: int, w: int, h: int)
    requires w > 0 && 0 <= i < w * h
    ensures 0 <= i % w < w && 0 <= i / w < h && i == (i / w) * w + i % w
  {
    if i / w >= h {
      MulAtLeast(i / w - h + 1, w);
    }
  }

  /**
   * The buffer went from before to after by writing pixel row y as specified
   * and nothing else.
   */
  ghost predicate RowWritten(before: seq<byte>, after: seq<byte>, cv: Canvas, edges: seq<Edge>, y: int)
  {
    && |before| == |after|
    && 0 <= y * cv.width && y * cv.width + cv.width <= |after|
    && (forall i :: 0 <= i < |after| && !(y * cv.width <= i < y * cv.width + cv.width) ==>
          after[i] == before[i])
    && (forall x :: 0 <= x < cv.width ==> after[y * cv.width + x] == FillValue(cv, edges, x, y))
  }

  /** Filling row y below correctly filled rows 0 .. y - 1, touching nothing else, fills rows 0 .. y. */
  lemma RowsExtend(before: seq<byte>, after: seq<byte>, cv: Canvas, edges: seq<Edge>, y: int)
    requires cv.Valid() && 0 <= y && y * cv.width + cv.width <= |after|
    requires RowsFilled(before, cv, edges, y)
    requires RowWritten(before, after, cv, edges, y)
    ensures RowsFilled(after, cv, edges, y + 1)
  {
    forall r, x | 0 <= r < y + 1 && 0 <= x < cv.width
      ensures PixelIs(after, cv.width, x, r, FillValue(cv, edges, x, r))
    {
      if r < y {
        EarlierRow(cv.width, r, y, x);
        assert PixelIs(before, cv.width, x, r, FillValue(cv, edges, x, r));
      }
    }
  }

  /** A buffer holding the specified image holds only 0 and 255. */
  lemma FilledBufferIsBinary(buf: seq<byte>, cv: Canvas, edges: seq<Edge>)
    requires cv.Valid() && |buf| == cv.width * cv.height
    requires RowsFilled(buf, cv, edges, cv.height)
    ensures forall i :: 0 <= i < |buf| ==> buf[i] == 0 || buf[i] == 255
  {
    forall i | 0 <= i < |buf|
      ensures buf[i] == 0 || buf[i] == 255
    {
      IndexToPixel(i, cv.width, cv.height);
      assert PixelIs(buf, cv.width, i % cv.width, i / cv.width, FillValue(cv, edges, i % cv.width, i / cv.width));
    }
  }

  // ---------------------------------------------------------------------
  // Properties of the specified image
  // ---------------------------------------------------------------------

  /** A glyph whose edges are all horizontal (or that has none) renders blank. */
  lemma BlankWhenNoEdges(cs: seq<Contour>, cv: Canvas, x: int, y: int)
    requires forall i, j :: 0 <= i < |cs| && 0 <= j < |cs[i]| ==> Horizontal(cs[i][j])
    ensures FillValue(cv, KeptEdges(cs), x, y) == 0
  {
    NoEdgesKept(cs);
  }

  /**
   * A glyph whose box is flat in either direction renders blank: the
   * sample coordinate of that axis is not a number, so no edge is ever
   * passed by the sweep.
   */
  lemma FlatBoxBlank(cv: Canvas, edges: seq<Edge>, x: int, y: int)
    requires cv.Valid() && (cv.width == 2 || cv.height == 2)
    ensures FillValue(cv, edges, x, y) == 0
  {
    var f := CrossingWinding(cv.RowEm(y), cv.ColumnEm(x));
    forall i | 0 <= i < |edges| ensures f(edges[i]) == 0 {
      var e := edges[i];
      if Crosses(e, cv.RowEm(y)) {
        assert !Le(Intercept(e, cv.RowEm(y)), cv.ColumnEm(x));
      }
    }
    SumOfZeros(edges, f);
  }

  /** The box and the single counter-clockwise contour of a unit square. */
  const UnitBox := BBox(0.0, 1.0, 0.0, 1.0)
  const UnitSquare: Contour := [
    Edge(0.0, 0.0, 1.0, 0.0), Edge(1.0, 0.0, 1.0, 1.0),
    Edge(1.0, 1.0, 0.0, 1.0), Edge(0.0, 1.0, 0.0, 0.0)]

  /** Only the two vertical sides of the unit square are kept. */
  lemma UnitSquareKept()
    ensures KeptEdges([UnitSquare]) == [UnitSquare[1], UnitSquare[3]]
  {
    assert UnitSquare[..1][..0] == [];
    assert UnitSquare[..2][..1] == UnitSquare[..1];
    assert UnitSquare[..3][..2] == UnitSquare[..2];
    assert UnitSquare[..4][..3] == UnitSquare[..3];
    assert KeptInContour(UnitSquare[..1]) == [];
    assert KeptInContour(UnitSquare[..2]) == [UnitSquare[1]];
    assert KeptInContour(UnitSquare[..3]) == [UnitSquare[1]];
    assert UnitSquare[..4] == UnitSquare;
    assert [UnitSquare][..0] == [];
  }

  /** At 10 pixels per em the unit box gets a 12 by 12 canvas. */
  lemma UnitSquareCanvas()
    ensures CanvasFor(UnitBox, 10.0) == Canvas(UnitBox, 12, 12)
  {
    assert Ceil(10.0) == 10;
  }

  /** A vertical edge crossing the scanline counts wherever the sweep has passed its x. */
  lemma VerticalWinding(e: Edge, v: real, xv: real)
    requires e.x1 == e.x2 && Crosses(e, Some(v))
    ensures CrossingWinding(Some(v), Some(xv))(e) == (if e.x1 <= xv then Direction(e) else 0)
  {
    var q := (v - e.y1) / (e.y2 - e.y1);
    assert Intercept(e, Some(v)).value == e.x1 + q * (e.x2 - e.x1);
    assert q * (e.x2 - e.x1) == 0.0;
  }

  /**
   * On any scanline through the unit square the winding number is -1
   * between its two vertical sides and 0 outside them.
   */
  lemma UnitSquareRowWinding(yv: real, xv: real)
    requires 0.0 < yv <= 1.0
    ensures WindingNumber([UnitSquare[1], UnitSquare[3]], Some(yv), Some(xv))
      == (if 0.0 <= xv && xv < 1.0 then -1 else 0)
  {
    var right, left := UnitSquare[1], UnitSquare[3];
    VerticalWinding(right, yv, xv);
    VerticalWinding(left, yv, xv);
    SumPair(right, left, CrossingWinding(Some(yv), Some(xv)));
  }

  /** A scanline below the unit square, or above it, crosses neither vertical side. */
  lemma UnitSquareRowOutside(yv: real, xv: real)
    requires yv <= 0.0 || yv > 1.0
    ensures WindingNumber([UnitSquare[1], UnitSquare[3]], Some(yv), Some(xv)) == 0
  {
    var right, left := UnitSquare[1], UnitSquare[3];
    var f := CrossingWinding(Some(yv), Some(xv));
    assert !Crosses(right, Some(yv)) && !Crosses(left, Some(yv));
    SumPair(right, left, f);
  }

  /** Pixel i of the unit box's 12-pixel axis samples (i - 1) / 10. */
  lemma UnitSquareSample(i: int)
    ensures ScanEm(0.0, 1.0, 12, i).Some? && ScanEm(0.0, 1.0, 12, i).value == (i - 1) as real / 10.0
  {
  }

  /** The fill of one pixel of the unit square's 12 by 12 canvas. */
  lemma UnitSquarePixel(x: int, y: int)
    requires 0 <= x < 12 && 0 <= y < 12
    ensures FillValue(Canvas(UnitBox, 12, 12), [UnitSquare[1], UnitSquare[3]], x, y)
      == (if 1 <= x <= 10 && 2 <= y <= 11 then 255 else 0)
  {
    UnitSquareSample(x);
    UnitSquareSample(y);
    var xv, yv := (x - 1) as real / 10.0, (y - 1) as real / 10.0;
    if 2 <= y {
      assert 0.0 < yv <= 1.0;
      UnitSquareRowWinding(yv, xv);
      assert 0.0 <= xv && xv < 1.0 <==> 1 <= x <= 10;
    } else {
      assert yv <= 0.0;
      UnitSquareRowOutside(yv, xv);
    }
  }

  /**
   * The unit square at 10 pixels per em: a 12 by 12 canvas whose filled
   * pixels are exactly columns 1 to 10 of rows 2 to 11. Row y samples
   * (y - 1) / 10, so row 1 samples the square's bottom edge, which no edge
   * crosses, and row 11 its top, which both sides cross; in x, column 1
   * samples the left side, which is already passed, and column 11 the
   * right one, past which the winding is back to 0.
   */
  lemma UnitSquareExample()
    ensures CanvasFor(UnitBox, 10.0).width == 12 && CanvasFor(UnitBox, 10.0).height == 12
    ensures forall x, y :: 0 <= x < 12 && 0 <= y < 12 ==>
      FillValue(CanvasFor(UnitBox, 10.0), KeptEdges([UnitSquare]), x, y)
        == (if 1 <= x <= 10 && 2 <= y <= 11 then 255 else 0)
  {
    UnitSquareKept();
    UnitSquareCanvas();
    forall x, y | 0 <= x < 12 && 0 <= y < 12
      ensures FillValue(Canvas(UnitBox, 12, 12), [UnitSquare[1], UnitSquare[3]], x, y)
        == (if 1 <= x <= 10 && 2 <= y <= 11 then 255 else 0)
    {
      UnitSquarePixel(x, y);
    }
  }

  /**
   * A ring: the 3 by 3 square counter-clockwise around the 1 by 1 square
   * at its centre, clockwise.
   */
  const RingBox := BBox(0.0, 3.0, 0.0, 3.0)
  const Outer: Contour := [
    Edge(0.0, 0.0, 3.0, 0.0), Edge(3.0, 0.0, 3.0, 3.0),
    Edge(3.0, 3.0, 0.0, 3.0), Edge(0.0, 3.0, 0.0, 0.0)]
  const Inner: Contour := [
    Edge(1.0, 1.0, 1.0, 2.0), Edge(1.0, 2.0, 2.0, 2.0),
    Edge(2.0, 2.0, 2.0, 1.0), Edge(2.0, 1.0, 1.0, 1.0)]

  lemma OuterKept()
    ensures KeptInContour(Outer) == [Outer[1], Outer[3]]
  {
    assert Outer[..1][..0] == [];
    assert Outer[..2][..1] == Outer[..1];
    assert Outer[..3][..2] == Outer[..2];
    assert Outer[..4][..3] == Outer[..3];
    assert KeptInContour(Outer[..1]) == [];
    assert KeptInContour(Outer[..2]) == [Outer[1]];
    assert KeptInContour(Outer[..3]) == [Outer[1]];
    assert Outer[..4] == Outer;
  }

  lemma InnerKept()
    ensures KeptInContour(Inner) == [Inner[0], Inner[2]]
  {
    assert Inner[..1][..0] == [];
    assert Inner[..2][..1] == Inner[..1];
    assert Inner[..3][..2] == Inner[..2];
    assert Inner[..4][..3] == Inner[..3];
    assert KeptInContour(Inner[..1]) == [Inner[0]];
    assert KeptInContour(Inner[..2]) == [Inner[0]];
    assert KeptInContour(Inner[..3]) == [Inner[0], Inner[2]];
    assert Inner[..4] == Inner;
  }

  /** The vertical sides of both squares are kept, the outer square's first. */
  lemma RingKept()
    ensures KeptEdges([Outer, Inner]) == [Outer[1], Outer[3], Inner[0], Inner[2]]
  {
    OuterKept();
    InnerKept();
    var cs := [Outer, Inner];
    assert cs[..1] == [Outer];
    assert cs[..1][..0] == [];
    assert KeptEdges(cs[..1]) == [Outer[1], Outer[3]];
  }

  /**
   * On any scanline through the hole the winding number is -1 inside the
   * outer square and outside the hole, and 0 in the hole and outside the ring.
   */
  lemma RingRowWinding(yv: real, xv: real)
    requires 1.0 < yv <= 2.0
    ensures WindingNumber([Outer[1], Outer[3], Inner[0], Inner[2]], Some(yv), Some(xv))
      == (if (0.0 <= xv && xv < 1.0) || (2.0 <= xv && xv < 3.0) then -1 else 0)
  {
    var f := CrossingWinding(Some(yv), Some(xv));
    VerticalWinding(Outer[1], yv, xv);
    VerticalWinding(Outer[3], yv, xv);
    VerticalWinding(Inner[0], yv, xv);
    VerticalWinding(Inner[2], yv, xv);
    assert [Outer[1], Outer[3], Inner[0], Inner[2]] == [Outer[1], Outer[3]] + [Inner[0], Inner[2]];
    SumConcat([Outer[1], Outer[3]], [Inner[0], Inner[2]], f);
    SumPair(Outer[1], Outer[3], f);
    SumPair(Inner[0], Inner[2], f);
  }

  /** At 10 pixels per em the ring's box gets a 32 by 32 canvas. */
  lemma RingCanvas()
    ensures CanvasFor(RingBox, 10.0) == Canvas(RingBox, 32, 32)
  {
    assert Ceil(30.0) == 30;
  }

  /**
   * The ring at 10 pixels per em: on row 16, pixel 6 lies in the ring and
   * is filled, pixel 16 lies in the hole and is empty.
   */
  lemma RingExample()
    ensures FillValue(CanvasFor(RingBox, 10.0), KeptEdges([Outer, Inner]), 6, 16) == 255
    ensures FillValue(CanvasFor(RingBox, 10.0), KeptEdges([Outer, Inner]), 16, 16) == 0
  {
    RingKept();
    RingCanvas();
    var cv := Canvas(RingBox, 32, 32);
    assert cv.RowEm(16).Some? && cv.RowEm(16).value == 1.5;
    assert cv.ColumnEm(6).Some? && cv.ColumnEm(6).value == 0.5;
    assert cv.ColumnEm(16).Some? && cv.ColumnEm(16).value == 1.5;
    RingRowWinding(1.5, 0.5);
    RingRowWinding(1.5, 1.5);
  }

  // ---------------------------------------------------------------------
  // The imperative renderer
  // ---------------------------------------------------------------------

  /** Gives every edge its intercept and direction for the scanline at yEm. */
  method ScanRow(edges: array<ActiveEdge>, yEm: Option<real>)
    modifies edges
    ensures edges[..] == Map(Map(old(edges[..]), BaseOf), Scanner(yEm))
  {
    for i := 0 to edges.Length
      invariant forall k :: 0 <= k < i ==> edges[k] == ScanEdge(old(edges[k]).edge, yEm)
      invariant forall k :: i <= k < edges.Length ==> edges[k] == old(edges[k])
    {
      var e := edges[i].edge;
      if !Crosses(e, yEm) {
        edges[i] := edges[i].(xAtCurrentScanline := Some(0.0), winding := 0);
        continue;
      }
      edges[i] := edges[i].(xAtCurrentScanline := Intercept(e, yEm),
                            winding := if e.y2 > e.y1 then 1 else -1);
    }
  }

  /** Exchanges the edges at j - 1 and j. */
  method SwapDown(a: array<ActiveEdge>, j: int)
    requires 0 < j < a.Length
    modifies a
    ensures a[j - 1] == old(a[j]) && a[j] == old(a[j - 1])
    ensures forall k :: 0 <= k < a.Length && k != j - 1 && k != j ==> a[k] == old(a[k])
    ensures multiset(a[..]) == multiset(old(a[..]))
  {
    a[j - 1], a[j] := a[j], a[j - 1];
  }

  /** Sorts the edges by intercept, in place (an insertion sort). */
  method SortByIntercept(a: array<ActiveEdge>)
    modifies a
    ensures Sorted(a[..])
    ensures multiset(a[..]) == multiset(old(a[..]))
  {
    var i := 0;
    while i < a.Length
      invariant 0 <= i <= a.Length
      invariant forall p, q :: 0 <= p < q < i ==> Key(a[p]) <= Key(a[q])
      invariant multiset(a[..]) == multiset(old(a[..]))
    {
      var j := i;
      while j > 0 && Key(a[j - 1]) > Key(a[j])
        invariant 0 <= j <= i
        invariant forall p, q :: 0 <= p < q <= i && q != j ==> Key(a[p]) <= Key(a[q])
        invariant multiset(a[..]) == multiset(old(a[..]))
      {
        SwapDown(a, j);
        j := j - 1;
      }
      i := i + 1;
    }
  }

  /** The first c edges of the row lie at or left of xEm. */
  predicate PassedAll(s: seq<ActiveEdge>, c: int, xEm: Option<real>)
  {
    forall j :: 0 <= j < c && j < |s| ==> Le(s[j].xAtCurrentScanline, xEm)
  }

  /** Edges passed at column x are still passed at every later column. */
  lemma PassedStaysPassed(s: seq<ActiveEdge>, c: int, cv: Canvas, x: int)
    requires cv.Valid() && PassedAll(s, c, cv.ColumnEm(x))
    ensures PassedAll(s, c, cv.ColumnEm(x + 1))
  {
    forall j | 0 <= j < c && j < |s| ensures Le(s[j].xAtCurrentScanline, cv.ColumnEm(x + 1)) {
      ColumnEmMonotone(cv, x, x + 1, s[j].xAtCurrentScanline);
    }
  }

  /**
   * The inner loop of the sweep: moves the cursor past every edge at or
   * left of xEm, adding up their winding contributions on the way.
   */
  method AdvanceCursor(edges: array<ActiveEdge>, xEm: Option<real>, start: int, winding: int)
    returns (currentIntersection: int, currentWinding: int)
    requires 0 <= start <= edges.Length && winding == Sum(edges[..start], WindingOf)
    requires PassedAll(edges[..], start, xEm)
    ensures start <= currentIntersection <= edges.Length
    ensures currentWinding == Sum(edges[..currentIntersection], WindingOf)
    ensures PassedAll(edges[..], currentIntersection, xEm)
    ensures currentIntersection < edges.Length ==> !Le(edges[currentIntersection].xAtCurrentScanline, xEm)
  {
    currentIntersection, currentWinding := start, winding;
    while currentIntersection < edges.Length && Le(edges[currentIntersection].xAtCurrentScanline, xEm)
      invariant start <= currentIntersection <= edges.Length
      invariant currentWinding == Sum(edges[..currentIntersection], WindingOf)
      invariant PassedAll(edges[..], currentIntersection, xEm)
    {
      assert edges[..currentIntersection + 1] == edges[..currentIntersection] + [edges[currentIntersection]];
      SumConcat(edges[..currentIntersection], [edges[currentIntersection]], WindingOf);
      currentWinding := currentWinding + edges[currentIntersection].winding;
      currentIntersection := currentIntersection + 1;
    }
  }

  /**
   * The buffer went from before to after by writing the first n pixels of
   * row y as the sweep over the given row of edges specifies, and nothing else.
   */
  ghost predicate SweptUpTo(before: seq<byte>, after: seq<byte>, row: seq<ActiveEdge>, cv: Canvas, y: int, n: int)
  {
    && |before| == |after|
    && 0 <= y * cv.width && 0 <= n <= cv.width && y * cv.width + cv.width <= |after|
    && (forall i :: 0 <= i < |after| && !(y * cv.width <= i < y * cv.width + n) ==>
          after[i] == before[i])
    && (forall x :: 0 <= x < n ==> after[y * cv.width + x] == SweptPixel(row, cv, x))
  }

  /** Writing pixel n of the row extends a sweep of its first n pixels. */
  lemma SweptOneMore(before: seq<byte>, mid: seq<byte>, row: seq<ActiveEdge>, cv: Canvas, y: int, n: int)
    requires SweptUpTo(before, mid, row, cv, y, n) && n < cv.width
    ensures SweptUpTo(before, mid[y * cv.width + n := SweptPixel(row, cv, n)], row, cv, y, n + 1)
  {
  }

  /**
   * Sweeps row y left to right over the sorted edges, writing each pixel
   * of the row from the running winding number and nothing else.
   */
  method SweepRow(edges: array<ActiveEdge>, buffer: array<byte>, cv: Canvas, y: int)
    requires cv.Valid() && 0 <= y && y * cv.width + cv.width <= buffer.Length
    requires Sorted(edges[..]) && Uniform(edges[..])
    modifies buffer
    ensures SweptUpTo(old(buffer[..]), buffer[..], edges[..], cv, y, cv.width)
  {
    ghost var s := edges[..];
    var w := cv.width;
    var row := y * w;
    var currentWinding := 0;
    var currentIntersection := 0;
    var x := 0;
    while x < w
      invariant 0 <= x <= w && 0 <= currentIntersection <= |s|
      invariant currentWinding == Sum(s[..currentIntersection], WindingOf)
      invariant PassedAll(s, currentIntersection, cv.ColumnEm(x))
      invariant SweptUpTo(old(buffer[..]), buffer[..], s, cv, y, x)
    {
      var xEm := cv.ColumnEm(x);
      currentIntersection, currentWinding := AdvanceCursor(edges, xEm, currentIntersection, currentWinding);
      PassedPrefix(s, currentIntersection, xEm);
      SweptOneMore(old(buffer[..]), buffer[..], s, cv, y, x);
      buffer[row + x] := if currentWinding == 0 then 0 else 255;
      PassedStaysPassed(s, currentIntersection, cv, x);
      x := x + 1;
    }
  }

  /**
   * Fills pixel row y: scans the edges for the row's em-space y, sorts them
   * and sweeps the row. The row comes out as specified, and the edge list
   * stays a permutation of the glyph's kept edges.
   */
  method RenderRow(edges: array<ActiveEdge>, buffer: array<byte>, cv: Canvas, list: seq<Edge>, y: int)
    requires cv.Valid() && 0 <= y && y * cv.width + cv.width <= buffer.Length
    requires multiset(Map(edges[..], BaseOf)) == multiset(list)
    modifies edges, buffer
    ensures multiset(Map(edges[..], BaseOf)) == multiset(list)
    ensures RowWritten(old(buffer[..]), buffer[..], cv, list, y)
  {
    var width := cv.width;
    var yEm := cv.RowEm(y);
    ghost var bases := Map(edges[..], BaseOf);
    ScanRow(edges, yEm);
    ScannedRowIsUniform(bases, yEm);
    ghost var scanned := edges[..];
    SortByIntercept(edges);
    UniformPermutation(edges[..], scanned);
    SweepRow(edges, buffer, cv, y);
    SweptRowIsFill(edges[..], bases, list, cv, y);
    assert RowWritten(old(buffer[..]), buffer[..], cv, list, y);
    SortedRowKeepsBases(edges[..], bases, yEm);
  }

  /** Rows 0 .. rows - 1 of the row-major buffer hold the specified image. */
  ghost predicate RowsFilled(buf: seq<byte>, cv: Canvas, edges: seq<Edge>, rows: int)
  {
    forall x, y :: 0 <= x < cv.width && 0 <= y < rows ==>
      PixelIs(buf, cv.width, x, y, FillValue(cv, edges, x, y))
  }

  /** The renderer's edge records, one per kept edge, before the first scanline. */
  method NewActiveEdges(list: seq<Edge>) returns (edges: array<ActiveEdge>)
    ensures fresh(edges) && Map(edges[..], BaseOf) == list
  {
    edges := new ActiveEdge[|list|](i requires 0 <= i < |list| => ActiveEdge(list[i], Some(0.0), 0));
    assert forall i :: 0 <= i < |list| ==> Map(edges[..], BaseOf)[i] == list[i];
  }

  /**
   * Allocates the row-major buffer for the canvas and fills it, row by row,
   * from the edge list.
   */
  method FillEdges(cv: Canvas, list: seq<Edge>) returns (buffer: array<byte>)
    requires cv.Valid()
    ensures fresh(buffer) && buffer.Length == cv.width * cv.height
    ensures RowsFilled(buffer[..], cv, list, cv.height)
  {
    var width, height := cv.width, cv.height;
    assert width * height >= 0;
    buffer := new byte[width * height];
    var edges := NewActiveEdges(list);
    for y := 0 to height
      invariant multiset(Map(edges[..], BaseOf)) == multiset(list)
      invariant RowsFilled(buffer[..], cv, list, y)
    {
      RowFits(width, height, y);
      ghost var before := buffer[..];
      RenderRow(edges, buffer, cv, list, y);
      RowsExtend(before, buffer[..], cv, list, y);
    }
  }

  /**
   * Renders the glyph at `emToPixelSize` pixels per em into a fresh binary
   * bitmap: every pixel is 255 where the nonzero-rule winding number at the
   * pixel's em-space sample point is nonzero, and 0 elsewhere.
   */
  method RenderGlyph(g: Glyph, emToPixelSize: real) returns (bm: Bitmap)
    requires emToPixelSize > 0.0 && BoxOf(g).Ordered()
    ensures var b := BoxOf(g);
      && bm.width == Dimension(b.xMin, b.xMax, emToPixelSize)
      && bm.height == Dimension(b.yMin, b.yMax, emToPixelSize)
      && bm.emToPixelSize == emToPixelSize
      && bm.xMin == EmToPixel(b.xMin, b.xMin, b.xMax, bm.width)
      && bm.xMax == EmToPixel(b.xMax, b.xMin, b.xMax, bm.width)
      && bm.yMin == EmToPixel(b.yMin, b.yMin, b.yMax, bm.height)
      && bm.yMax == EmToPixel(b.yMax, b.yMin, b.yMax, bm.height)
      && bm.xOrigin == EmToPixel(0.0, b.xMin, b.xMax, bm.width)
      && bm.yOrigin == EmToPixel(0.0, b.yMin, b.yMax, bm.height)
    ensures fresh(bm.buffer) && bm.buffer.Length == bm.width * bm.height
    ensures forall x, y :: 0 <= x < bm.width && 0 <= y < bm.height ==>
      PixelIs(bm.buffer[..], bm.width, x, y,
              FillValue(CanvasFor(BoxOf(g), emToPixelSize), KeptEdges(g.contours), x, y))
    ensures forall i :: 0 <= i < bm.buffer.Length ==> bm.buffer[i] == 0 || bm.buffer[i] == 255
  {
    var b := BoxOf(g);
    var width := Dimension(b.xMin, b.xMax, emToPixelSize);
    var height := Dimension(b.yMin, b.yMax, emToPixelSize);
    var cv := Canvas(b, width, height);
    assert cv == CanvasFor(b, emToPixelSize);

    var xMin := EmToPixel(b.xMin, b.xMin, b.xMax, width);
    var xMax := EmToPixel(b.xMax, b.xMin, b.xMax, width);
    var yMin := EmToPixel(b.yMin, b.yMin, b.yMax, height);
    var yMax := EmToPixel(b.yMax, b.yMin, b.yMax, height);
    var xOrigin := EmToPixel(0.0, b.xMin, b.xMax, width);
    var yOrigin := EmToPixel(0.0, b.yMin, b.yMax, height);

    var list := CollectEdges(g.contours);
    var buffer := FillEdges(cv, list);
    FilledBufferIsBinary(buffer[..], cv, list);
    bm := Bitmap(width, height, emToPixelSize, xMin, xMax, yMin, yMax, xOrigin, yOrigin, buffer);
  }
}
