/**
 A block of cells, drawn as one rectangle, decodes to its own cells: what the whole of
 the deconvolution in firmware/scripts/generate_m4_center_kernel.py gives on the shapes
 that it is there to take apart.
 */
module DrawnBlocks {

  import opened FillTest
  import opened SortedReals
  import opened Containment
  import opened SlabSweep
  import opened Candidates
  import opened Rectangles

  // ---------- the grid has the vertices and nothing else ----------

  lemma {:induction false} ListedAreVertices(contours: seq<Contour>, v: real)
    ensures v in AllAbscissas(contours) ==>
              exists i, k :: 0 <= i < |contours| && 0 <= k < |contours[i]| && contours[i][k].x == v
    ensures v in AllOrdinates(contours) ==>
              exists i, k :: 0 <= i < |contours| && 0 <= k < |contours[i]| && contours[i][k].y == v
  {
    if contours == [] {
    } else {
      var init, last := contours[..|contours| - 1], contours[|contours| - 1];
      ListedAreVertices(init, v);
      var xs := seq(|last|, k requires 0 <= k < |last| => last[k].x);
      var ys := seq(|last|, k requires 0 <= k < |last| => last[k].y);
      assert AllAbscissas(contours) == AllAbscissas(init) + xs;
      assert AllOrdinates(contours) == AllOrdinates(init) + ys;
      if v in AllAbscissas(contours) {
        if v in AllAbscissas(init) {
          var i, k :| 0 <= i < |init| && 0 <= k < |init[i]| && init[i][k].x == v;
          assert contours[i][k].x == v;
        } else {
          var k :| 0 <= k < |xs| && xs[k] == v;
          assert contours[|init|][k].x == v;
        }
      }
      if v in AllOrdinates(contours) {
        if v in AllOrdinates(init) {
          var i, k :| 0 <= i < |init| && 0 <= k < |init[i]| && init[i][k].y == v;
          assert contours[i][k].y == v;
        } else {
          var k :| 0 <= k < |ys| && ys[k] == v;
          assert contours[|init|][k].y == v;
        }
      }
    }
  }

  /** The cuts of the sweeps are the coordinates of the vertices, each once. */
  lemma GridIsVertices(contours: seq<Contour>, v: real)
    ensures v in GridX(contours)
       <==> exists i, k :: 0 <= i < |contours| && 0 <= k < |contours[i]| && contours[i][k].x == v
    ensures v in GridY(contours)
       <==> exists i, k :: 0 <= i < |contours| && 0 <= k < |contours[i]| && contours[i][k].y == v
  {
    ListedAreVertices(contours, v);
  }

  // ---------- one rectangle ----------

  lemma ListedAt(s: seq<real>, k: nat)
    ensures k < |s| ==> s[k] in s
  {
  }

  lemma TwoMembers(s: seq<real>, lo: real, hi: real)
    requires Increasing(s) && lo < hi && forall v :: v in s <==> v == lo || v == hi
    ensures s == [lo, hi]
  {
    assert lo in s && hi in s;
    var i :| 0 <= i < |s| && s[i] == lo;
    var j :| 0 <= j < |s| && s[j] == hi;
    ListedAt(s, 0);
    ListedAt(s, 1);
    ListedAt(s, 2);
  }

  lemma CornersOfWalk(w: Walk, v: real)
    requires WalkOk(w)
    ensures (exists i, k :: 0 <= i < 1 && 0 <= k < |[ContourOf(w)][i]| && [ContourOf(w)][i][k].x == v)
       <==> v == w.box.x0 || v == w.box.x1
    ensures (exists i, k :: 0 <= i < 1 && 0 <= k < |[ContourOf(w)][i]| && [ContourOf(w)][i][k].y == v)
       <==> v == w.box.y0 || v == w.box.y1
  {
    var cs := [ContourOf(w)];
    var c := cs[0];
    assert |c| == 4;
    var p, q := Further(w, 0), Further(w, 2);
    assert c[0] == p && c[2] == q;
    assert (p.x == w.box.x0 && q.x == w.box.x1) || (p.x == w.box.x1 && q.x == w.box.x0);
    assert (p.y == w.box.y0 && q.y == w.box.y1) || (p.y == w.box.y1 && q.y == w.box.y0);
    assert cs[0][0].x == p.x && cs[0][2].x == q.x && cs[0][0].y == p.y && cs[0][2].y == q.y;
  }

  lemma GridOfWalk(w: Walk)
    requires WalkOk(w)
    ensures GridX([ContourOf(w)]) == [w.box.x0, w.box.x1] && GridY([ContourOf(w)]) == [w.box.y0, w.box.y1]
  {
    hide ContourOf, GridX, GridY;
    var cs := [ContourOf(w)];
    forall v: real
      ensures v in GridX(cs) <==> v == w.box.x0 || v == w.box.x1
      ensures v in GridY(cs) <==> v == w.box.y0 || v == w.box.y1
    {
      GridIsVertices(cs, v);
      CornersOfWalk(w, v);
    }
    TwoMembers(GridX(cs), w.box.x0, w.box.x1);
    TwoMembers(GridY(cs), w.box.y0, w.box.y1);
  }

  lemma FilledIsInside(w: Walk, x: real, y: real)
    requires WalkOk(w)
    ensures Filled([ContourOf(w)], x, y) <==> Contains(w.box, x, y)
  {
    FilledIffUnbalanced([w], x, y);
    assert ContoursOf([w]) == [ContourOf(w)];
    assert [w][..0] == [];
  }

  lemma OneRun(runs: seq<Run>, lo: real, hi: real)
    requires Canonical(runs) && lo < hi && forall t: real :: Covers(runs, t) <==> lo <= t < hi
    ensures runs == [Run(lo, hi)]
  {
    forall t: real ensures Covers([Run(lo, hi)], t) <==> lo <= t < hi {
      if lo <= t < hi { assert [Run(lo, hi)][0].lo <= t < [Run(lo, hi)][0].hi; }
    }
    CanonicalIsUnique(runs, [Run(lo, hi)]);
  }

  /** One slab each way, with one run. */
  lemma SlabsOfWalk(w: Walk, ySlabs: seq<Slab>, xSlabs: seq<Slab>)
    requires WalkOk(w) && SlabsOf([ContourOf(w)], ySlabs, xSlabs)
    ensures ySlabs == [Slab(w.box.y0, w.box.y1, [Run(w.box.x0, w.box.x1)])]
    ensures xSlabs == [Slab(w.box.x0, w.box.x1, [Run(w.box.y0, w.box.y1)])]
  {
    hide ContourOf, Filled, Covers, Canonical, GridX, GridY;
    var cs, b := [ContourOf(w)], w.box;
    GridOfWalk(w);
    assert YSlabExact(cs, ySlabs[0]) && XSlabExact(cs, xSlabs[0]);
    forall t: real
      ensures Covers(ySlabs[0].runs, t) <==> b.x0 <= t < b.x1
      ensures Covers(xSlabs[0].runs, t) <==> b.y0 <= t < b.y1
    {
      FilledIsInside(w, t, b.y0);
      FilledIsInside(w, b.x0, t);
    }
    OneRun(ySlabs[0].runs, b.x0, b.x1);
    OneRun(xSlabs[0].runs, b.y0, b.y1);
    assert |GridX(cs)| == 2 && |GridY(cs)| == 2;
    assert ySlabs[0].lo == GridY(cs)[0] == b.y0 && ySlabs[0].hi == GridY(cs)[1] == b.y1;
    assert xSlabs[0].lo == GridX(cs)[0] == b.x0 && xSlabs[0].hi == GridX(cs)[1] == b.x1;
    assert ySlabs[0] == Slab(b.y0, b.y1, [Run(b.x0, b.x1)]) && xSlabs[0] == Slab(b.x0, b.x1, [Run(b.y0, b.y1)]);
    assert ySlabs == [ySlabs[0]] && xSlabs == [xSlabs[0]];
  }

  lemma InkIffWithin(w: Walk, x: real, y: real, kx: real)
    requires WalkOk(w) && kx > 0.0
    ensures CellInk([ContourOf(w)], x, y, kx)
       <==> w.box.x0 <= x - kx / 2.0 && x + kx / 2.0 <= w.box.x1 && w.box.y0 <= y - 37.5 && y + 37.5 <= w.box.y1
  {
    hide Filled, ContourOf;
    var cs, b := [ContourOf(w)], w.box;
    var x0, x1, y0, y1 := x - kx / 2.0, x + kx / 2.0, y - 37.5, y + 37.5;
    if b.x0 <= x0 && x1 <= b.x1 && b.y0 <= y0 && y1 <= b.y1 {
      forall px: real, py: real | x0 <= px < x1 && y0 <= py < y1 ensures Filled(cs, px, py) {
        FilledIsInside(w, px, py);
      }
    }
    if CellInk(cs, x, y, kx) {
      var px, py := if b.x1 < x1 && x0 < b.x1 then b.x1 else x0, if b.y1 < y1 && y0 < b.y1 then b.y1 else y0;
      assert Filled(cs, px, py) && Filled(cs, x0, y0);
      FilledIsInside(w, px, py);
      FilledIsInside(w, x0, y0);
    }
  }

  // ---------- a block of cells ----------

  /** `n` by `m` cells of width `k` and height 75 at pitch 60, drawn as one rectangle. */
  function BlockBox(a: int, b: int, n: nat, m: nat, k: int): Box {
    Box(a as real, b as real, (a + k + 60 * (n - 1)) as real, (b + 75 + 60 * (m - 1)) as real)
  }

  /** The doubled center of a cell of the block. */
  predicate IsCellOf(base: int, size: int, count: nat, c2: int) {
    exists i :: 0 <= i < count && c2 == 2 * base + size + 120 * i
  }

  lemma XCentersOfBlock(a: int, n: nat, k: int, c2: int, kk: int)
    requires n > 0 && (k == 74 || k == 75)
    ensures var hi := (a + k + 60 * (n - 1)) as real;
            IsXCenter(a as real, hi, c2, kk) <==> kk == k && IsCellOf(a, k, n, c2)
  {
    hide Decodes, Anchors;
    var lo, hi := a as real, (a + k + 60 * (n - 1)) as real;
    DoubledWidthWhole(lo, hi);
    var w2 := DoubledWidth(lo, hi);
    assert w2 == 2 * k + 120 * (n - 1);
    assert CleanFor(w2, k) && CellCount(w2, k) == n;
    OneWidth(w2);
    DecodesWhole(lo, w2, k, c2);
    LatticeIsCells(a, k, n, c2);
  }

  lemma YCentersOfBlock(b: int, m: nat, c2: int)
    requires m > 0
    ensures IsYCenter(b as real, (b + 75 + 60 * (m - 1)) as real, c2) <==> IsCellOf(b, 75, m, c2)
  {
    hide Decodes, Anchors;
    var lo, hi := b as real, (b + 75 + 60 * (m - 1)) as real;
    DoubledWidthWhole(lo, hi);
    var h2 := DoubledWidth(lo, hi);
    assert h2 == 150 + 120 * (m - 1);
    assert CleanFor(h2, 75) && CellCount(h2, 75) == m;
    DecodesWhole(lo, h2, 75, c2);
    LatticeIsCells(b, 75, m, c2);
  }

  lemma LatticeIsCells(base: int, size: int, count: nat, c2: int)
    ensures OnLattice(2 * base + size, count, c2) <==> IsCellOf(base, size, count, c2)
  {
    if OnLattice(2 * base + size, count, c2) {
      var i :| 0 <= i < count && c2 == Grid(2 * base + size, i);
      assert c2 == 2 * base + size + 120 * i;
    }
    if IsCellOf(base, size, count, c2) {
      var i :| 0 <= i < count && c2 == 2 * base + size + 120 * i;
      assert c2 == Grid(2 * base + size, i);
    }
  }

  lemma OneSlab(lo: real, hi: real, run: Run, x2: int, y2: int, k: int)
    ensures var slabs := [Slab(lo, hi, [run])];
            && (XFromRuns(slabs, x2, k) <==> IsXCenter(run.lo, run.hi, x2, k))
            && (YFromRuns(slabs, y2) <==> IsYCenter(run.lo, run.hi, y2))
            && (XFromSpans(slabs, x2, k) <==> IsXCenter(lo, hi, x2, k))
            && (YFromSpans(slabs, y2) <==> IsYCenter(lo, hi, y2))
            && (XSupportedByRun(slabs, x2, y2, k) <==> Touches(lo, hi, y2) && AcceptsX(run.lo, run.hi, x2, k))
  {
    hide IsXCenter, IsYCenter, AcceptsX, Touches;
    var slabs := [Slab(lo, hi, [run])];
    assert slabs[0].runs[0] == run && slabs[0].lo == lo && slabs[0].hi == hi;
  }

  lemma CellWithin(base: int, size: int, count: nat, c2: int)
    requires count > 0 && IsCellOf(base, size, count, c2)
    ensures 2 * base + size <= c2 <= 2 * (base + 60 * (count - 1)) + size
  {
  }

  /** The deconvolution takes a drawn block apart into exactly its cells: whichever way
      the rectangle is walked, the kept centers are those of the n by m cells, and only
      with the width they were drawn with. */
  lemma BlockDecodes(w: Walk, a: int, b: int, n: nat, m: nat, width: int, ySlabs: seq<Slab>, xSlabs: seq<Slab>,
                     x2: int, y2: int, k: int)
    requires n > 0 && m > 0 && (width == 74 || width == 75) && w.box == BlockBox(a, b, n, m, width)
    requires SlabsOf([ContourOf(w)], ySlabs, xSlabs)
    ensures Kept([ContourOf(w)], ySlabs, xSlabs, x2, y2, k)
       <==> k == width && IsCellOf(a, width, n, x2) && IsCellOf(b, 75, m, y2)
  {
    hide ContourOf, IsXCenter, IsYCenter, IsCellOf, AcceptsX, CellInk, XSupportedByRun, XSupportedBySpan;
    hide YSupportedByRun, YSupportedBySpan, XFromRuns, XFromSpans, YFromRuns, YFromSpans, SlabsOf;
    var box := w.box;
    SlabsOfWalk(w, ySlabs, xSlabs);
    OneSlab(box.y0, box.y1, Run(box.x0, box.x1), x2, y2, k);
    OneSlab(box.x0, box.x1, Run(box.y0, box.y1), x2, y2, k);
    XCentersOfBlock(a, n, width, x2, k);
    YCentersOfBlock(b, m, y2);
    if k == width && IsCellOf(a, width, n, x2) && IsCellOf(b, 75, m, y2) {
      CellWithin(a, width, n, x2);
      CellWithin(b, 75, m, y2);
      InkIffWithin(w, x2 as real / 2.0, y2 as real / 2.0, k as real);
      SupportIffCandidateX(box.x0, box.x1, x2, k);
    }
  }
}
