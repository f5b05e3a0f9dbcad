/**
 `_is_fully_contained` of firmware/scripts/generate_m4_center_kernel.py: sampling
 the fill test at one midpoint per grid cell decides the whole Kx by 75 cell.
 */
module Containment {

  import opened FillTest
  import opened SortedReals

  /** Every real point of the half-open cell around (x, y) is filled. */
  ghost predicate CellInk(contours: seq<Contour>, x: real, y: real, kx: real) {
    forall px: real, py: real ::
      x - kx / 2.0 <= px < x + kx / 2.0 && y - 37.5 <= py < y + 37.5 ==> Filled(contours, px, py)
  }

  /** `values` lists every vertex abscissa / ordinate. */
  ghost predicate ListsAbscissas(values: seq<real>, contours: seq<Contour>) {
    forall i, k :: 0 <= i < |contours| && 0 <= k < |contours[i]| ==> contours[i][k].x in values
  }

  ghost predicate ListsOrdinates(values: seq<real>, contours: seq<Contour>) {
    forall i, k :: 0 <= i < |contours| && 0 <= k < |contours[i]| ==> contours[i][k].y in values
  }

  /** `[v for v in values if lo < v < hi]` */
  function Between(values: seq<real>, lo: real, hi: real): (r: seq<real>)
    ensures forall u :: u in r <==> u in values && lo < u < hi
  {
    if values == [] then []
    else
      assert forall u :: u in values <==> u == values[0] || u in values[1..];
      (if lo < values[0] < hi then [values[0]] else []) + Between(values[1..], lo, hi)
  }

  /** `sorted(set([lo, hi] + [v for v in values if lo < v < hi]))` */
  function Cuts(values: seq<real>, lo: real, hi: real): (r: seq<real>)
    requires lo < hi
    ensures Increasing(r) && |r| >= 2 && r[0] == lo && r[|r| - 1] == hi
  {
    CutsMembers(values, lo, hi);
    EndsOfRange(SortedDistinct([lo, hi] + Between(values, lo, hi)), lo, hi);
    SortedDistinct([lo, hi] + Between(values, lo, hi))
  }

  lemma CutsMembers(values: seq<real>, lo: real, hi: real)
    requires lo < hi
    ensures forall u :: u in SortedDistinct([lo, hi] + Between(values, lo, hi)) <==>
              u == lo || u == hi || (u in values && lo < u < hi)
  {
    hide SortedDistinct, Between, Increasing;
    var inner := Between(values, lo, hi);
    forall u ensures u in [lo, hi] + inner <==> u == lo || u == hi || (u in values && lo < u < hi) {
      assert u in [lo, hi] + inner <==> u in [lo, hi] || u in inner;
    }
  }

  lemma EndsOfRange(s: seq<real>, lo: real, hi: real)
    requires Increasing(s) && lo in s && hi in s && lo < hi
    requires forall u :: u in s ==> lo <= u <= hi
    ensures |s| >= 2 && s[0] == lo && s[|s| - 1] == hi
  {
    var i :| 0 <= i < |s| && s[i] == lo;
    var j :| 0 <= j < |s| && s[j] == hi;
    assert s[0] in s && s[|s| - 1] in s;
  }

  lemma CutsAbscissas(contours: seq<Contour>, values: seq<real>, lo: real, hi: real, i: nat)
    requires lo < hi && ListsAbscissas(values, contours) && i + 1 < |Cuts(values, lo, hi)|
    ensures NoAbscissaBetween(contours, Cuts(values, lo, hi)[i], Cuts(values, lo, hi)[i + 1])
  {
    var cuts := Cuts(values, lo, hi);
    forall c, k | 0 <= c < |contours| && 0 <= k < |contours[c]|
      ensures contours[c][k].x <= cuts[i] || cuts[i + 1] <= contours[c][k].x
    {
      BetweenCuts(values, lo, hi, i, contours[c][k].x);
    }
  }

  lemma CutsOrdinates(contours: seq<Contour>, values: seq<real>, lo: real, hi: real, i: nat)
    requires lo < hi && ListsOrdinates(values, contours) && i + 1 < |Cuts(values, lo, hi)|
    ensures NoOrdinateBetween(contours, Cuts(values, lo, hi)[i], Cuts(values, lo, hi)[i + 1])
  {
    var cuts := Cuts(values, lo, hi);
    forall c, k | 0 <= c < |contours| && 0 <= k < |contours[c]|
      ensures contours[c][k].y <= cuts[i] || cuts[i + 1] <= contours[c][k].y
    {
      BetweenCuts(values, lo, hi, i, contours[c][k].y);
    }
  }

  lemma BetweenCuts(values: seq<real>, lo: real, hi: real, i: nat, v: real)
    requires lo < hi && v in values && i + 1 < |Cuts(values, lo, hi)|
    ensures v <= Cuts(values, lo, hi)[i] || Cuts(values, lo, hi)[i + 1] <= v
  {
    var cuts := Cuts(values, lo, hi);
    CutsMembers(values, lo, hi);
    assert cuts[i] in cuts && cuts[i + 1] in cuts;
    if lo < v < hi { NothingBetween(cuts, i, v); }
  }

  /** One grid cell is filled throughout. */
  ghost predicate GridCellInk(contours: seq<Contour>, x0: real, x1: real, y0: real, y1: real) {
    forall px: real, py: real :: x0 <= px < x1 && y0 <= py < y1 ==> Filled(contours, px, py)
  }

  /** One sample decides a grid cell. */
  lemma MidpointDecides(contours: seq<Contour>, x0: real, x1: real, y0: real, y1: real)
    requires AllAxisAligned(contours) && x0 < x1 && y0 < y1
    requires NoAbscissaBetween(contours, x0, x1) && NoOrdinateBetween(contours, y0, y1)
    ensures GridCellInk(contours, x0, x1, y0, y1) <==> Filled(contours, (x0 + x1) / 2.0, (y0 + y1) / 2.0)
  {
    var xm, ym := (x0 + x1) / 2.0, (y0 + y1) / 2.0;
    forall px: real, py: real | x0 <= px < x1 && y0 <= py < y1
      ensures Filled(contours, px, py) == Filled(contours, xm, ym)
    {
      FilledConstantOnCell(contours, x0, x1, y0, y1, px, py, xm, ym);
    }
  }

  /** The inner loop of `_is_fully_contained`: one row of grid cells. */
  method RowContained(contours: seq<Contour>, xs: seq<real>, y0: real, y1: real) returns (contained: bool)
    requires AllAxisAligned(contours) && Increasing(xs) && |xs| >= 2 && y0 < y1
    requires forall i {:trigger xs[i]} :: 0 <= i < |xs| - 1 ==> NoAbscissaBetween(contours, xs[i], xs[i + 1])
    requires NoOrdinateBetween(contours, y0, y1)
    ensures contained <==> GridCellInk(contours, xs[0], xs[|xs| - 1], y0, y1)
  {
    hide Filled, NoAbscissaBetween, NoOrdinateBetween, AllAxisAligned, GridCellInk, Increasing;
    var ym := (y0 + y1) / 2.0;
    var xi := 0;
    while xi < |xs| - 1
      invariant xi <= |xs| - 1
      invariant forall i :: 0 <= i < xi ==> GridCellInk(contours, xs[i], xs[i + 1], y0, y1)
    {
      var xm := (xs[xi] + xs[xi + 1]) / 2.0;
      NeighboursIncrease(xs, xi);
      MidpointDecides(contours, xs[xi], xs[xi + 1], y0, y1);
      var filled := FilledAt(contours, xm, ym);
      if !filled {
        NarrowerCellInk(contours, xs, xi, y0, y1);
        return false;
      }
      xi := xi + 1;
    }
    RowCovers(contours, xs, y0, y1);
    return true;
  }

  /** `_is_fully_contained`, for the grid coordinates its caller passes. */
  method IsFullyContained(contours: seq<Contour>, xsAll: seq<real>, ysAll: seq<real>, x: real, y: real, kx: real)
    returns (contained: bool)
    requires AllAxisAligned(contours) && kx > 0.0
    requires ListsAbscissas(xsAll, contours) && ListsOrdinates(ysAll, contours)
    ensures contained <==> CellInk(contours, x, y, kx)
  {
    hide Filled, NoAbscissaBetween, NoOrdinateBetween, AllAxisAligned, ListsAbscissas, ListsOrdinates;
    hide GridCellInk, CellInk, Cuts;
    CellIsRectangle(contours, x, y, kx);
    var x0, x1 := x - kx / 2.0, x + kx / 2.0;
    var y0, y1 := y - 37.5, y + 37.5;
    var xs := Cuts(xsAll, x0, x1);
    var ys := Cuts(ysAll, y0, y1);
    forall i {:trigger xs[i]} | 0 <= i < |xs| - 1 ensures NoAbscissaBetween(contours, xs[i], xs[i + 1]) {
      CutsAbscissas(contours, xsAll, x0, x1, i);
    }
    var yi := 0;
    while yi < |ys| - 1
      invariant yi <= |ys| - 1
      invariant forall j :: 0 <= j < yi ==> GridCellInk(contours, x0, x1, ys[j], ys[j + 1])
    {
      CutsOrdinates(contours, ysAll, y0, y1, yi);
      var row := RowContained(contours, xs, ys[yi], ys[yi + 1]);
      if !row {
        SmallerCellInk(contours, x0, x1, ys, yi);
        return false;
      }
      yi := yi + 1;
    }
    ColumnCovers(contours, x0, x1, ys);
    return true;
  }

  lemma NeighboursIncrease(s: seq<real>, i: nat)
    requires Increasing(s) && i + 1 < |s|
    ensures s[i] < s[i + 1]
  {
  }

  lemma InsideCuts(s: seq<real>, i: nat, v: real)
    requires Increasing(s) && i + 1 < |s| && s[i] <= v < s[i + 1]
    ensures s[0] <= v < s[|s| - 1]
  {
  }

  lemma NarrowerCellInk(contours: seq<Contour>, xs: seq<real>, i: nat, y0: real, y1: real)
    requires Increasing(xs) && i + 1 < |xs|
    ensures GridCellInk(contours, xs[0], xs[|xs| - 1], y0, y1) ==> GridCellInk(contours, xs[i], xs[i + 1], y0, y1)
  {
    if GridCellInk(contours, xs[0], xs[|xs| - 1], y0, y1) {
      forall px: real, py: real | xs[i] <= px < xs[i + 1] && y0 <= py < y1 ensures Filled(contours, px, py) {
        InsideCuts(xs, i, px);
      }
    }
  }

  lemma SmallerCellInk(contours: seq<Contour>, x0: real, x1: real, ys: seq<real>, j: nat)
    requires Increasing(ys) && j + 1 < |ys|
    ensures GridCellInk(contours, x0, x1, ys[0], ys[|ys| - 1]) ==> GridCellInk(contours, x0, x1, ys[j], ys[j + 1])
  {
    if GridCellInk(contours, x0, x1, ys[0], ys[|ys| - 1]) {
      forall px: real, py: real | x0 <= px < x1 && ys[j] <= py < ys[j + 1] ensures Filled(contours, px, py) {
        InsideCuts(ys, j, py);
      }
    }
  }

  lemma RowCovers(contours: seq<Contour>, xs: seq<real>, y0: real, y1: real)
    requires Increasing(xs) && |xs| >= 2
    requires forall i :: 0 <= i < |xs| - 1 ==> GridCellInk(contours, xs[i], xs[i + 1], y0, y1)
    ensures GridCellInk(contours, xs[0], xs[|xs| - 1], y0, y1)
  {
    forall px: real, py: real | xs[0] <= px < xs[|xs| - 1] && y0 <= py < y1 ensures Filled(contours, px, py) {
      var i := Locate(xs, px);
      assert GridCellInk(contours, xs[i], xs[i + 1], y0, y1);
    }
  }

  lemma ColumnCovers(contours: seq<Contour>, x0: real, x1: real, ys: seq<real>)
    requires Increasing(ys) && |ys| >= 2
    requires forall j :: 0 <= j < |ys| - 1 ==> GridCellInk(contours, x0, x1, ys[j], ys[j + 1])
    ensures GridCellInk(contours, x0, x1, ys[0], ys[|ys| - 1])
  {
    forall px: real, py: real | x0 <= px < x1 && ys[0] <= py < ys[|ys| - 1] ensures Filled(contours, px, py) {
      var j := Locate(ys, py);
      assert GridCellInk(contours, x0, x1, ys[j], ys[j + 1]);
    }
  }

  lemma CellIsRectangle(contours: seq<Contour>, x: real, y: real, kx: real)
    ensures CellInk(contours, x, y, kx)
       <==> GridCellInk(contours, x - kx / 2.0, x + kx / 2.0, y - 37.5, y + 37.5)
  {
  }

  // ---------- why the contours must be axis-aligned ----------

  const TRIANGLE: Contour := [Point(0.0, 0.0), Point(100.0, 100.0), Point(100.0, 0.0)]

  lemma TriangleTest(x: real, y: real)
    requires 0.0 <= x < 100.0 && 0.0 <= y < 100.0
    ensures Filled([TRIANGLE], x, y) <==> y <= x
  {
    var t := TRIANGLE;
    assert CrossAbscissa(y, t[0], t[1]) == y;
    assert CrossAbscissa(y, t[1], t[2]) == 100.0;
    assert !Straddles(y, t[2], t[0]);
    assert Crossings(x, y, t, 0) == 0;
    assert Crossings(x, y, t, 1) == if y <= x then 0 else 1;
    assert Crossings(x, y, t, 2) == if y <= x then 1 else 2;
    assert Crossings(x, y, t, 3) == Crossings(x, y, t, 2);
    assert Winding([t], x, y, 0) == 0;
    assert Winding([t], x, y, 1) == if Inside(x, y, t) then Orientation(t) else 0;
  }

  /** With a slanted edge the midpoint can be filled, with no grid line inside the
      cell, while the cell is not all ink: the axis-aligned precondition is needed. */
  lemma SlantedEdgeDefeatsSampling()
    ensures NoAbscissaBetween([TRIANGLE], 60.0 - 75.0 / 2.0, 60.0 + 75.0 / 2.0)
    ensures NoOrdinateBetween([TRIANGLE], 40.0 - 37.5, 40.0 + 37.5)
    ensures Filled([TRIANGLE], 60.0, 40.0)
    ensures !CellInk([TRIANGLE], 60.0, 40.0, 75.0)
  {
    TriangleTest(60.0, 40.0);
    TriangleTest(22.5, 77.0);
  }
}
