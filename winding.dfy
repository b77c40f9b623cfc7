/**
 * The orientation of a contour: the sign of the shoelace sum, over its
 * edges, of (x2 - x1) * (y1 + y2). The sum is minus twice the signed area
 * the contour encloses, so with y pointing up a counter-clockwise contour
 * gets -1, a clockwise one +1, and a contour enclosing no area 0.
 */
module ContourWinding {
  import opened Geometry

  /** One edge's term of the shoelace sum. */
  function Shoelace(e: Edge): real
  {
    (e.x2 - e.x1) * (e.y1 + e.y2)
  }

  /** The shoelace sum of the contour, edge after edge. */
  function ShoelaceSum(c: Contour): real
  {
    if c == [] then 0.0 else ShoelaceSum(c[..|c| - 1]) + Shoelace(c[|c| - 1])
  }

  /** -1, 0 or 1 as v is negative, zero or positive. */
  function Sign(v: real): (r: int)
    ensures r == 1 <==> v > 0.0
    ensures r == -1 <==> v < 0.0
    ensures r == 0 <==> v == 0.0
  {
    if v > 0.0 then 1 else if v < 0.0 then -1 else 0
  }

  /** Adds the shoelace terms of the edges up and returns the sign of the total. */
  method WindingValueForContour(contour: Contour) returns (w: int)
    ensures w == Sign(ShoelaceSum(contour))
    ensures w == -1 || w == 0 || w == 1
    ensures contour == [] ==> w == 0
  {
    var winding := 0.0;
    for i := 0 to |contour|
      invariant winding == ShoelaceSum(contour[..i])
    {
      assert contour[..i + 1][..i] == contour[..i];
      winding := winding + Shoelace(contour[i]);
    }
    assert contour[..|contour|] == contour;
    w := if winding > 0.0 then 1 else if winding < 0.0 then -1 else 0;
  }

  // ---------------------------------------------------------------------
  // Reversal
  // ---------------------------------------------------------------------

  /** The edge traversed the other way. */
  function Flip(e: Edge): Edge
  {
    Edge(e.x2, e.y2, e.x1, e.y1)
  }

  /** The contour traversed the other way: edges in reverse order, each flipped. */
  function Reverse(c: Contour): (r: Contour)
    ensures |r| == |c|
    ensures forall i :: 0 <= i < |c| ==> r[i] == Flip(c[|c| - 1 - i])
  {
    if c == [] then [] else [Flip(c[|c| - 1])] + Reverse(c[..|c| - 1])
  }

  lemma {:induction false} ShoelaceSumConcat(a: Contour, b: Contour)
    ensures ShoelaceSum(a + b) == ShoelaceSum(a) + ShoelaceSum(b)
  {
    if b == [] {
      assert a + b == a;
    } else {
      var n := |b| - 1;
      assert (a + b)[..|a + b| - 1] == a + b[..n];
      ShoelaceSumConcat(a, b[..n]);
    }
  }

  /** Traversing a contour the other way negates its shoelace sum. */
  lemma {:induction false} ReverseNegates(c: Contour)
    ensures ShoelaceSum(Reverse(c)) == -ShoelaceSum(c)
  {
    if c != [] {
      var n := |c| - 1;
      ReverseNegates(c[..n]);
      ShoelaceSumConcat([Flip(c[n])], Reverse(c[..n]));
      assert ShoelaceSum([Flip(c[n])]) == -Shoelace(c[n]) by {
        assert [Flip(c[n])][..0] == [];
      }
    }
  }

  /** Traversing a contour the other way flips its winding value. */
  lemma ReverseFlipsWinding(c: Contour)
    ensures Sign(ShoelaceSum(Reverse(c))) == -Sign(ShoelaceSum(c))
  {
    ReverseNegates(c);
  }

  // ---------------------------------------------------------------------
  // An example
  // ---------------------------------------------------------------------

  /** The w by h rectangle with a corner at the origin, counter-clockwise with y up. */
  function Rectangle(w: real, h: real): Contour
  {
    [Edge(0.0, 0.0, w, 0.0), Edge(w, 0.0, w, h), Edge(w, h, 0.0, h), Edge(0.0, h, 0.0, 0.0)]
  }

  lemma ShoelaceSumOfFour(a: Edge, b: Edge, c: Edge, d: Edge)
    ensures ShoelaceSum([a, b, c, d]) == Shoelace(a) + Shoelace(b) + Shoelace(c) + Shoelace(d)
  {
    var s := [a, b, c, d];
    assert s[..1][..0] == [];
    assert ShoelaceSum(s[..1]) == Shoelace(a);
    assert s[..2][..1] == s[..1];
    assert ShoelaceSum(s[..2]) == Shoelace(a) + Shoelace(b);
    assert s[..3][..2] == s[..2];
    assert ShoelaceSum(s[..3]) == Shoelace(a) + Shoelace(b) + Shoelace(c);
    assert s[..|s| - 1] == s[..3];
  }

  /** An edge along the x axis, or a vertical one, adds nothing to the shoelace sum. */
  lemma ShoelaceVanishes(e: Edge)
    requires (e.y1 == 0.0 && e.y2 == 0.0) || e.x1 == e.x2
    ensures Shoelace(e) == 0.0
  {
  }

  /** The rectangle's shoelace sum is minus twice its area. */
  lemma RectangleSum(w: real, h: real)
    ensures ShoelaceSum(Rectangle(w, h)) == -2.0 * w * h
  {
    var r := Rectangle(w, h);
    ShoelaceSumOfFour(r[0], r[1], r[2], r[3]);
    ShoelaceVanishes(r[0]);
    ShoelaceVanishes(r[1]);
    ShoelaceVanishes(r[3]);
    assert Shoelace(r[2]) == (0.0 - w) * (h + h);
  }

  /**
   * A rectangle of positive area winds -1 counter-clockwise and +1
   * clockwise; a flat one winds 0.
   */
  lemma RectangleWinding(w: real, h: real)
    requires w >= 0.0 && h >= 0.0
    ensures w > 0.0 && h > 0.0 ==> Sign(ShoelaceSum(Rectangle(w, h))) == -1
    ensures w > 0.0 && h > 0.0 ==> Sign(ShoelaceSum(Reverse(Rectangle(w, h)))) == 1
    ensures w == 0.0 || h == 0.0 ==> Sign(ShoelaceSum(Rectangle(w, h))) == 0
  {
    RectangleSum(w, h);
    ReverseNegates(Rectangle(w, h));
    if w > 0.0 && h > 0.0 {
      assert w * h > 0.0;
    }
  }
}
