/**
 What the fill test of firmware/scripts/generate_m4_center_kernel.py computes, in terms
 that do not mention it: which side of an edge a point is on, the area of a walk, and,
 for contours that walk around rectangles, how often the point is surrounded each way.
 */
module Rectangles {

  import opened FillTest

  // ---------- edges ----------

  /** Twice the area of the triangle a, b, c; positive when it is walked counterclockwise. */
  function Turn(a: Point, b: Point, c: Point): real {
    (b.x - a.x) * (c.y - a.y) - (b.y - a.y) * (c.x - a.x)
  }

  lemma DividedBelow(x: real, num: real, den: real)
    requires den != 0.0
    ensures den > 0.0 ==> (x < num / den <==> x * den < num)
    ensures den < 0.0 ==> (x < num / den <==> x * den > num)
  {
    var q := num / den;
    assert q * den == num;
    if den > 0.0 {
      if x < q { assert (q - x) * den > 0.0; } else { assert (x - q) * den >= 0.0; }
    } else {
      if x < q { assert (q - x) * den < 0.0; } else { assert (x - q) * den <= 0.0; }
    }
  }

  /** The ray to the right meets an edge exactly when the edge goes up from or through the
      point's line and the point is on its left, or it comes down and the point is on its right. */
  lemma CrossesIff(x: real, y: real, p: Point, q: Point)
    ensures Crosses(x, y, p, q)
       <==> || (p.y <= y < q.y && Turn(p, q, Point(x, y)) > 0.0)
            || (q.y <= y < p.y && Turn(p, q, Point(x, y)) < 0.0)
  {
    if Straddles(y, p, q) {
      DividedBelow(x - p.x, (q.x - p.x) * (y - p.y), q.y - p.y);
    }
  }

  // ---------- areas ----------

  function Cross(p: Point, q: Point): real { p.x * q.y - q.x * p.y }

  /** Twice the area swept from the origin along an open path. */
  function Swept(path: seq<Point>): real {
    if |path| < 2 then 0.0 else Cross(path[0], path[1]) + Swept(path[1..])
  }

  lemma {:induction false} SweptLast(path: seq<Point>, p: Point)
    requires path != []
    ensures Swept(path + [p]) == Swept(path) + Cross(path[|path| - 1], p)
  {
    if |path| == 1 {
      assert (path + [p])[1..] == [p];
    } else {
      assert (path + [p])[1..] == path[1..] + [p];
      SweptLast(path[1..], p);
    }
  }

  lemma {:induction false} AreaIsSwept(poly: Contour, n: nat)
    requires n < |poly|
    ensures DoubledArea(poly, n) == Swept(poly[..n + 1])
  {
    if n == 0 {
    } else {
      AreaIsSwept(poly, n - 1);
      assert poly[..n + 1] == poly[..n] + [poly[n]];
      SweptLast(poly[..n], poly[n]);
    }
  }

  function Reverse<T>(s: seq<T>): (r: seq<T>)
    ensures |r| == |s| && forall i :: 0 <= i < |s| ==> r[i] == s[|s| - 1 - i]
  {
    seq(|s|, i requires 0 <= i < |s| => s[|s| - 1 - i])
  }

  lemma {:induction false} SweptBack(path: seq<Point>)
    ensures Swept(Reverse(path)) == -Swept(path)
  {
    if |path| < 2 {
    } else {
      SweptBack(path[1..]);
      assert Reverse(path) == Reverse(path[1..]) + [path[0]];
      SweptLast(Reverse(path[1..]), path[0]);
    }
  }

  lemma CrossBack(p: Point, q: Point)
    ensures Cross(q, p) == -Cross(p, q)
  {
  }

  lemma AreaOfLoop(poly: Contour)
    requires poly != []
    ensures DoubledArea(poly, |poly|) == Swept(poly) + Cross(poly[|poly| - 1], poly[0])
  {
    hide Swept;
    AreaIsSwept(poly, |poly| - 1);
    assert poly[..|poly|] == poly;
  }

  /** Walking a contour the other way negates its area. */
  lemma ReversedArea(poly: Contour)
    ensures DoubledArea(Reverse(poly), |poly|) == -DoubledArea(poly, |poly|)
  {
    if poly != [] {
      hide Swept, DoubledArea, Cross;
      AreaOfLoop(poly);
      AreaOfLoop(Reverse(poly));
      SweptBack(poly);
      CrossBack(poly[|poly| - 1], poly[0]);
    }
  }

  // ---------- rectangles ----------

  datatype Box = Box(x0: real, y0: real, x1: real, y1: real)

  function Size(b: Box): real { (b.x1 - b.x0) * (b.y1 - b.y0) }

  predicate Proper(b: Box) { b.x0 < b.x1 && b.y0 < b.y1 }

  /** The half-open rectangle. */
  predicate Contains(b: Box, x: real, y: real) { b.x0 <= x < b.x1 && b.y0 <= y < b.y1 }

  /** Corners counterclockwise from the lower left. */
  function Corner(b: Box, k: nat): Point {
    if k == 0 then Point(b.x0, b.y0) else if k == 1 then Point(b.x1, b.y0)
    else if k == 2 then Point(b.x1, b.y1) else Point(b.x0, b.y1)
  }

  /** Around a rectangle from one of its corners, counterclockwise or clockwise. */
  datatype Walk = Walk(box: Box, start: nat, ccw: bool)

  predicate WalkOk(w: Walk) { Proper(w.box) }

  /** The corner `k` places further, counterclockwise. */
  function Further(w: Walk, k: nat): Point { Corner(w.box, (w.start + k) % 4) }

  function ContourOf(w: Walk): (r: Contour)
    ensures |r| == 4
  {
    if w.ccw then [Further(w, 0), Further(w, 1), Further(w, 2), Further(w, 3)]
    else [Further(w, 0), Further(w, 3), Further(w, 2), Further(w, 1)]
  }

  function Once(b: bool): nat { if b then 1 else 0 }

  /** How often the ray from (x, y) meets the loop a, b, c, d. */
  function Meets(x: real, y: real, a: Point, b: Point, c: Point, d: Point): nat {
    Once(Crosses(x, y, a, b)) + Once(Crosses(x, y, b, c)) + Once(Crosses(x, y, c, d)) + Once(Crosses(x, y, d, a))
  }

  function LoopArea(a: Point, b: Point, c: Point, d: Point): real {
    Cross(a, b) + Cross(b, c) + Cross(c, d) + Cross(d, a)
  }

  lemma FourEdges(x: real, y: real, poly: Contour)
    requires |poly| == 4
    ensures Crossings(x, y, poly, 4) == Meets(x, y, poly[0], poly[1], poly[2], poly[3])
    ensures DoubledArea(poly, 4) == LoopArea(poly[0], poly[1], poly[2], poly[3])
  {
    hide Crosses;
    assert Crossings(x, y, poly, 2) == Crossings(x, y, poly, 1) + Once(Crosses(x, y, poly[1], poly[2]));
    assert DoubledArea(poly, 2) == DoubledArea(poly, 1) + Cross(poly[1], poly[2]);
  }

  lemma EdgeCrosses(x: real, y: real, p: Point, q: Point)
    requires p.x == q.x || p.y == q.y
    ensures Crosses(x, y, p, q) <==> x < p.x && (p.y <= y < q.y || q.y <= y < p.y)
  {
    CrossesVertical(x, y, p, q);
  }

  /** An edge is met, and adds to the area up to the sign, whichever way it is walked. */
  lemma EdgeTurns(x: real, y: real, p: Point, q: Point)
    requires p.x == q.x || p.y == q.y
    ensures (Crosses(x, y, p, q) <==> Crosses(x, y, q, p)) && Cross(q, p) == -Cross(p, q)
  {
    hide Crosses;
    EdgeCrosses(x, y, p, q);
    EdgeCrosses(x, y, q, p);
  }

  lemma LoopTurns(x: real, y: real, a: Point, b: Point, c: Point, d: Point)
    requires (a.x == b.x || a.y == b.y) && (b.x == c.x || b.y == c.y)
    requires (c.x == d.x || c.y == d.y) && (d.x == a.x || d.y == a.y)
    ensures Meets(x, y, a, d, c, b) == Meets(x, y, a, b, c, d)
    ensures LoopArea(a, d, c, b) == -LoopArea(a, b, c, d)
  {
    hide Crosses, Cross;
    EdgeTurns(x, y, a, b);
    EdgeTurns(x, y, b, c);
    EdgeTurns(x, y, c, d);
    EdgeTurns(x, y, d, a);
  }

  lemma CornersSurround(b: Box, x: real, y: real)
    requires Proper(b)
    ensures Meets(x, y, Corner(b, 0), Corner(b, 1), Corner(b, 2), Corner(b, 3)) % 2 == 1 <==> Contains(b, x, y)
    ensures LoopArea(Corner(b, 0), Corner(b, 1), Corner(b, 2), Corner(b, 3)) == 2.0 * Size(b)
  {
    hide Crosses;
    EdgeCrosses(x, y, Corner(b, 0), Corner(b, 1));
    EdgeCrosses(x, y, Corner(b, 1), Corner(b, 2));
    EdgeCrosses(x, y, Corner(b, 2), Corner(b, 3));
    EdgeCrosses(x, y, Corner(b, 3), Corner(b, 0));
  }

  lemma LoopRotates(x: real, y: real, a: Point, b: Point, c: Point, d: Point)
    ensures Meets(x, y, b, c, d, a) == Meets(x, y, a, b, c, d) && LoopArea(b, c, d, a) == LoopArea(a, b, c, d)
  {
    hide Crosses, Cross;
  }

  /** The corners of a walk, from wherever it starts, taken counterclockwise. */
  lemma WalkFromCorner(w: Walk, x: real, y: real)
    requires WalkOk(w)
    ensures Meets(x, y, Further(w, 0), Further(w, 1), Further(w, 2), Further(w, 3)) % 2 == 1 <==> Contains(w.box, x, y)
    ensures LoopArea(Further(w, 0), Further(w, 1), Further(w, 2), Further(w, 3)) == 2.0 * Size(w.box)
  {
    CornersSurround(w.box, x, y);
    hide Meets, LoopArea, Corner, Contains, Size;
    var p, q, r, s := Corner(w.box, 0), Corner(w.box, 1), Corner(w.box, 2), Corner(w.box, 3);
    LoopRotates(x, y, p, q, r, s);
    LoopRotates(x, y, q, r, s, p);
    LoopRotates(x, y, r, s, p, q);
  }

  lemma WalkTurns(w: Walk, x: real, y: real)
    requires WalkOk(w)
    ensures Meets(x, y, Further(w, 0), Further(w, 3), Further(w, 2), Further(w, 1))
            == Meets(x, y, Further(w, 0), Further(w, 1), Further(w, 2), Further(w, 3))
    ensures LoopArea(Further(w, 0), Further(w, 3), Further(w, 2), Further(w, 1))
            == -LoopArea(Further(w, 0), Further(w, 1), Further(w, 2), Further(w, 3))
  {
    hide Meets, LoopArea;
    LoopTurns(x, y, Further(w, 0), Further(w, 1), Further(w, 2), Further(w, 3));
  }

  /** A rectangle walked either way surrounds exactly its half-open self, and its signed
      area is its area, negative when it is walked clockwise. */
  lemma RectangleSurrounds(w: Walk, x: real, y: real)
    requires WalkOk(w)
    ensures Inside(x, y, ContourOf(w)) <==> Contains(w.box, x, y)
    ensures DoubledArea(ContourOf(w), 4) == if w.ccw then 2.0 * Size(w.box) else -(2.0 * Size(w.box))
  {
    hide Meets, LoopArea, Crossings, DoubledArea, Contains, Further, Size;
    FourEdges(x, y, ContourOf(w));
    WalkFromCorner(w, x, y);
    WalkTurns(w, x, y);
  }

  /** How many of the rectangles are walked around the point counterclockwise, less how many clockwise. */
  function Balance(walks: seq<Walk>, x: real, y: real): int {
    if walks == [] then 0
    else
      var w := walks[|walks| - 1];
      Balance(walks[..|walks| - 1], x, y) + (if !Contains(w.box, x, y) then 0 else if w.ccw then 1 else -1)
  }

  function ContoursOf(walks: seq<Walk>): (r: seq<Contour>)
    ensures |r| == |walks| && forall i :: 0 <= i < |walks| ==> r[i] == ContourOf(walks[i])
  {
    seq(|walks|, i requires 0 <= i < |walks| => ContourOf(walks[i]))
  }

  lemma AreaSign(w: Walk)
    requires WalkOk(w)
    ensures DoubledArea(ContourOf(w), 4) / 2.0 < 0.0 <==> !w.ccw
  {
    hide DoubledArea, ContourOf;
    RectangleSurrounds(w, 0.0, 0.0);
    assert Size(w.box) > 0.0;
  }

  lemma {:induction false} WindingIsBalance(walks: seq<Walk>, x: real, y: real, n: nat)
    requires n <= |walks| && forall i :: 0 <= i < |walks| ==> WalkOk(walks[i])
    ensures Winding(ContoursOf(walks), x, y, n) == Balance(walks[..n], x, y)
  {
    hide Inside, DoubledArea, Contains;
    if n == 0 {
    } else {
      WindingIsBalance(walks, x, y, n - 1);
      assert walks[..n][..n - 1] == walks[..n - 1];
      RectangleSurrounds(walks[n - 1], x, y);
      AreaSign(walks[n - 1]);
      assert |ContourOf(walks[n - 1])| == 4;
    }
  }

  /** Any number of rectangles, each walked either way: a point is filled exactly when it
      is not surrounded as often one way as the other. */
  lemma FilledIffUnbalanced(walks: seq<Walk>, x: real, y: real)
    requires forall i :: 0 <= i < |walks| ==> WalkOk(walks[i])
    ensures Filled(ContoursOf(walks), x, y) <==> Balance(walks, x, y) != 0
  {
    hide Winding;
    WindingIsBalance(walks, x, y, |walks|);
    assert walks[..|walks|] == walks;
  }

  predicate Within(inner: Box, outer: Box) {
    outer.x0 <= inner.x0 && inner.x1 <= outer.x1 && outer.y0 <= inner.y0 && inner.y1 <= outer.y1
  }

  /** The counter of a glyph: a rectangle within another is left out when it is walked the
      other way, and makes no difference when it is walked the same way. */
  lemma HoleIsNotFilled(outer: Walk, inner: Walk, x: real, y: real)
    requires WalkOk(outer) && WalkOk(inner) && Within(inner.box, outer.box)
    ensures Filled([ContourOf(outer), ContourOf(inner)], x, y)
       <==> Contains(outer.box, x, y) && (outer.ccw == inner.ccw || !Contains(inner.box, x, y))
  {
    hide Filled, ContourOf;
    var walks := [outer, inner];
    FilledIffUnbalanced(walks, x, y);
    assert ContoursOf(walks) == [ContourOf(outer), ContourOf(inner)];
    assert walks[..1] == [outer] && [outer][..0] == [];
    assert Balance(walks, x, y) == Balance([outer], x, y) + Balance([inner], x, y);
  }
}
