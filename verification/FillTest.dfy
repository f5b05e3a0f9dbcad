/**
 The winding-aware fill test of firmware/scripts/generate_m4_center_kernel.py and
 what it is on axis-aligned contours: constant on every half-open cell of the
 vertex grid, and false outside the bounding box.
 */
module FillTest {

  datatype Point = Point(x: real, y: real)

  type Contour = seq<Point>

  /** The far end of edge `i`: `zip(poly, poly[1:] + poly[:1])`. */
  function EdgeEnd(poly: Contour, i: nat): Point
    requires i < |poly|
  {
    if i + 1 < |poly| then poly[i + 1] else poly[0]
  }

  // ---------- the test ----------

  /** The edge passes the horizontal line through `y`. */
  predicate Straddles(y: real, p: Point, q: Point) {
    (p.y > y) != (q.y > y)
  }

  /** Where the edge meets that line. */
  function CrossAbscissa(y: real, p: Point, q: Point): real
    requires p.y != q.y
  {
    (q.x - p.x) * (y - p.y) / (q.y - p.y) + p.x
  }

  /** The ray from (x, y) to the right meets the edge. */
  predicate Crosses(x: real, y: real, p: Point, q: Point) {
    Straddles(y, p, q) && x < CrossAbscissa(y, p, q)
  }

  /** Crossings among the first `n` edges. */
  function Crossings(x: real, y: real, poly: Contour, n: nat): nat
    requires n <= |poly|
  {
    if n == 0 then 0
    else Crossings(x, y, poly, n - 1) + (if Crosses(x, y, poly[n - 1], EdgeEnd(poly, n - 1)) then 1 else 0)
  }

  predicate Inside(x: real, y: real, poly: Contour) {
    Crossings(x, y, poly, |poly|) % 2 == 1
  }

  /** Twice the signed area, over the first `n` edges. */
  function DoubledArea(poly: Contour, n: nat): real
    requires n <= |poly|
  {
    if n == 0 then 0.0
    else
      var p, q := poly[n - 1], EdgeEnd(poly, n - 1);
      DoubledArea(poly, n - 1) + (p.x * q.y - q.x * p.y)
  }

  function Orientation(poly: Contour): int {
    if DoubledArea(poly, |poly|) / 2.0 < 0.0 then -1 else 1
  }

  /** Winding number contributed by the first `n` contours. */
  function Winding(contours: seq<Contour>, x: real, y: real, n: nat): int
    requires n <= |contours|
  {
    if n == 0 then 0
    else Winding(contours, x, y, n - 1) + (if Inside(x, y, contours[n - 1]) then Orientation(contours[n - 1]) else 0)
  }

  predicate Filled(contours: seq<Contour>, x: real, y: real) {
    Winding(contours, x, y, |contours|) != 0
  }

  method PointInPolygon(x: real, y: real, poly: Contour) returns (inside: bool)
    ensures inside == Inside(x, y, poly)
  {
    hide CrossAbscissa;
    inside := false;
    var i := 0;
    while i < |poly|
      invariant i <= |poly|
      invariant inside == (Crossings(x, y, poly, i) % 2 == 1)
    {
      var p, q := poly[i], EdgeEnd(poly, i);
      if (p.y > y) != (q.y > y) {
        var cross := CrossAbscissa(y, p, q);
        if x < cross { inside := !inside; }
      }
      i := i + 1;
    }
  }

  method SignedArea(poly: Contour) returns (area: real)
    ensures area == DoubledArea(poly, |poly|) / 2.0
  {
    var total := 0.0;
    var i := 0;
    while i < |poly|
      invariant i <= |poly| && total == DoubledArea(poly, i)
    {
      var p, q := poly[i], EdgeEnd(poly, i);
      total := total + (p.x * q.y - q.x * p.y);
      i := i + 1;
    }
    area := total / 2.0;
  }

  method FilledAt(contours: seq<Contour>, x: real, y: real) returns (filled: bool)
    ensures filled == Filled(contours, x, y)
  {
    var w := 0;
    var i := 0;
    while i < |contours|
      invariant i <= |contours| && w == Winding(contours, x, y, i)
    {
      var inside := PointInPolygon(x, y, contours[i]);
      if inside {
        var area := SignedArea(contours[i]);
        w := w + (if area < 0.0 then -1 else 1);
      }
      i := i + 1;
    }
    filled := w != 0;
  }

  // ---------- axis-aligned contours ----------

  /** Every edge is horizontal or vertical. */
  predicate AxisAligned(poly: Contour) {
    forall i :: 0 <= i < |poly| ==> poly[i].x == EdgeEnd(poly, i).x || poly[i].y == EdgeEnd(poly, i).y
  }

  ghost predicate AllAxisAligned(contours: seq<Contour>) {
    forall i :: 0 <= i < |contours| ==> AxisAligned(contours[i])
  }

  /** On an axis-aligned edge the crossing test compares `x` with the edge's own abscissa. */
  lemma CrossesVertical(x: real, y: real, p: Point, q: Point)
    requires p.x == q.x || p.y == q.y
    ensures Crosses(x, y, p, q) <==> Straddles(y, p, q) && x < p.x
  {
    if Straddles(y, p, q) {
      assert p.y != q.y && q.x - p.x == 0.0;
      assert (q.x - p.x) * (y - p.y) == 0.0;
    }
  }

  /** Two points that no vertex abscissa and no vertex ordinate separates. */
  ghost predicate Unseparated(poly: Contour, x: real, y: real, x': real, y': real) {
    forall i :: 0 <= i < |poly| ==> (poly[i].y > y <==> poly[i].y > y') && (x < poly[i].x <==> x' < poly[i].x)
  }

  lemma {:induction false} CrossingsUnseparated(poly: Contour, x: real, y: real, x': real, y': real, n: nat)
    requires AxisAligned(poly) && Unseparated(poly, x, y, x', y') && n <= |poly|
    ensures Crossings(x, y, poly, n) == Crossings(x', y', poly, n)
  {
    if n == 0 {
    } else {
      CrossingsUnseparated(poly, x, y, x', y', n - 1);
      var p, q := poly[n - 1], EdgeEnd(poly, n - 1);
      CrossesVertical(x, y, p, q);
      CrossesVertical(x', y', p, q);
    }
  }

  lemma {:induction false} WindingUnseparated(contours: seq<Contour>, x: real, y: real, x': real, y': real, n: nat)
    requires AllAxisAligned(contours) && n <= |contours|
    requires forall i :: 0 <= i < |contours| ==> Unseparated(contours[i], x, y, x', y')
    ensures Winding(contours, x, y, n) == Winding(contours, x', y', n)
  {
    if n == 0 {
    } else {
      WindingUnseparated(contours, x, y, x', y', n - 1);
      CrossingsUnseparated(contours[n - 1], x, y, x', y', |contours[n - 1]|);
    }
  }

  // ---------- cells of the vertex grid ----------

  /** No vertex abscissa lies strictly between `lo` and `hi`. */
  ghost predicate NoAbscissaBetween(contours: seq<Contour>, lo: real, hi: real) {
    forall i, k :: 0 <= i < |contours| && 0 <= k < |contours[i]| ==> contours[i][k].x <= lo || hi <= contours[i][k].x
  }

  ghost predicate NoOrdinateBetween(contours: seq<Contour>, lo: real, hi: real) {
    forall i, k :: 0 <= i < |contours| && 0 <= k < |contours[i]| ==> contours[i][k].y <= lo || hi <= contours[i][k].y
  }

  /** The fill test is constant on every half-open rectangle that contains no
      vertex abscissa and no vertex ordinate in its interior. */
  lemma FilledConstantOnCell(contours: seq<Contour>, x0: real, x1: real, y0: real, y1: real,
                             x: real, y: real, x': real, y': real)
    requires AllAxisAligned(contours)
    requires NoAbscissaBetween(contours, x0, x1) && NoOrdinateBetween(contours, y0, y1)
    requires x0 <= x < x1 && x0 <= x' < x1 && y0 <= y < y1 && y0 <= y' < y1
    ensures Filled(contours, x, y) == Filled(contours, x', y')
  {
    WindingUnseparated(contours, x, y, x', y', |contours|);
  }

  // ---------- outside the bounding box ----------

  function StraddleCount(y: real, poly: Contour, n: nat): nat
    requires n <= |poly|
  {
    if n == 0 then 0
    else StraddleCount(y, poly, n - 1) + (if Straddles(y, poly[n - 1], EdgeEnd(poly, n - 1)) then 1 else 0)
  }

  /** The vertex reached after `n` edges. */
  function Reached(poly: Contour, n: nat): Point
    requires |poly| > 0 && n <= |poly|
  {
    if n < |poly| then poly[n] else poly[0]
  }

  /** Walking along a contour, the side of the line changes once per straddling edge. */
  lemma {:induction false} StraddleParity(y: real, poly: Contour, n: nat)
    requires |poly| > 0 && n <= |poly|
    ensures StraddleCount(y, poly, n) % 2 == 1 <==> (poly[0].y > y) != (Reached(poly, n).y > y)
  {
    if n == 0 {
    } else {
      StraddleParity(y, poly, n - 1);
    }
  }

  /** A horizontal line crosses a closed contour an even number of times. */
  lemma ClosedContourCrossedEvenly(y: real, poly: Contour)
    ensures StraddleCount(y, poly, |poly|) % 2 == 0
  {
    if |poly| > 0 { StraddleParity(y, poly, |poly|); }
  }

  /** All vertices on one side of the point in one of the two directions. */
  ghost predicate Beyond(poly: Contour, x: real, y: real) {
    || (forall i :: 0 <= i < |poly| ==> poly[i].x <= x)
    || (forall i :: 0 <= i < |poly| ==> x < poly[i].x)
    || (forall i :: 0 <= i < |poly| ==> poly[i].y <= y)
    || (forall i :: 0 <= i < |poly| ==> y < poly[i].y)
  }

  lemma {:induction false} CrossingsBeyond(poly: Contour, x: real, y: real, n: nat)
    requires AxisAligned(poly) && Beyond(poly, x, y) && n <= |poly|
    ensures Crossings(x, y, poly, n) == 0
         || (Crossings(x, y, poly, n) == StraddleCount(y, poly, n) && forall i :: 0 <= i < |poly| ==> x < poly[i].x)
  {
    if n == 0 {
    } else {
      CrossingsBeyond(poly, x, y, n - 1);
      CrossesVertical(x, y, poly[n - 1], EdgeEnd(poly, n - 1));
      if forall i :: 0 <= i < |poly| ==> x < poly[i].x {
        LeftOfAll(poly, x, y, n);
      }
    }
  }

  lemma {:induction false} LeftOfAll(poly: Contour, x: real, y: real, n: nat)
    requires AxisAligned(poly) && n <= |poly| && forall i :: 0 <= i < |poly| ==> x < poly[i].x
    ensures Crossings(x, y, poly, n) == StraddleCount(y, poly, n)
  {
    if n == 0 {
    } else {
      LeftOfAll(poly, x, y, n - 1);
      CrossesVertical(x, y, poly[n - 1], EdgeEnd(poly, n - 1));
    }
  }

  lemma NotInsideBeyond(poly: Contour, x: real, y: real)
    requires AxisAligned(poly) && Beyond(poly, x, y)
    ensures !Inside(x, y, poly)
  {
    CrossingsBeyond(poly, x, y, |poly|);
    ClosedContourCrossedEvenly(y, poly);
  }

  /** Nothing is filled outside the bounding box of the contours. */
  lemma {:induction false} NothingFilledBeyond(contours: seq<Contour>, x: real, y: real, n: nat)
    requires AllAxisAligned(contours) && n <= |contours|
    requires forall i :: 0 <= i < |contours| ==> Beyond(contours[i], x, y)
    ensures Winding(contours, x, y, n) == 0
  {
    if n == 0 {
    } else {
      NothingFilledBeyond(contours, x, y, n - 1);
      NotInsideBeyond(contours[n - 1], x, y);
    }
  }
}
