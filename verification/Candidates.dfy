/**
 Run deconvolution in firmware/scripts/generate_m4_center_kernel.py: which source
 centers `_collect_candidates` takes from a run, which ones `_has_x_support` and
 `_has_y_support` accept, and what `geometry_source_grid` keeps.

 Centers are doubled integers, exactly as in the script.
 */
module Candidates {

  import opened FillTest
  import opened Containment
  import opened SlabSweep

  /** Python's `int(v)`: truncation toward zero. */
  function Trunc(v: real): int {
    if v >= 0.0 then v.Floor else -((-v).Floor)
  }

  predicate Whole(v: real) {
    v == v.Floor as real
  }

  lemma TruncWhole(k: int)
    ensures Trunc(k as real) == k
  {
  }

  // ---------- decoding a run ----------

  /** A doubled width that is exactly n cells of width `k` at pitch 60. */
  predicate CleanFor(w2: int, k: int) {
    w2 >= 2 * k && (w2 - 2 * k) % 120 == 0
  }

  function CellCount(w2: int, k: int): (n: nat)
    requires CleanFor(w2, k)
    ensures n >= 1 && w2 == 2 * k + (n - 1) * 120
  {
    (w2 - 2 * k) / 120 + 1
  }

  /** `int((hi - lo) * 2)` */
  function DoubledWidth(lo: real, hi: real): int {
    Trunc((hi - lo) * 2.0)
  }

  /** The i-th decoded center of a run. */
  function CenterAt(lo: real, k: int, i: int): int {
    Trunc(lo * 2.0 + k as real + 120.0 * i as real)
  }

  predicate Decodes(lo: real, w2: int, k: int, c2: int) {
    CleanFor(w2, k) && exists i :: 0 <= i < CellCount(w2, k) && c2 == CenterAt(lo, k, i)
  }

  /** Centers flush with either end of the run. */
  predicate Anchors(lo: real, hi: real, k: int, c2: int) {
    c2 == Trunc(lo * 2.0 + k as real) || c2 == Trunc(hi * 2.0 - k as real)
  }

  /** The X candidates taken from the run [lo, hi): width 74 is tried first. */
  predicate IsXCenter(lo: real, hi: real, c2: int, k: int) {
    var w2 := DoubledWidth(lo, hi);
    if CleanFor(w2, 74) then k == 74 && Decodes(lo, w2, 74, c2)
    else if CleanFor(w2, 75) then k == 75 && Decodes(lo, w2, 75, c2)
    else hi - lo >= 74.0 && (k == 74 || k == 75) && Anchors(lo, hi, k, c2)
  }

  /** The Y candidates taken from the run [lo, hi). */
  predicate IsYCenter(lo: real, hi: real, c2: int) {
    var h2 := DoubledWidth(lo, hi);
    if CleanFor(h2, 75) then Decodes(lo, h2, 75, c2)
    else hi - lo >= 75.0 && Anchors(lo, hi, 75, c2)
  }

  /** A run width decodes for one cell width only. */
  lemma OneWidth(w2: int)
    ensures !(CleanFor(w2, 74) && CleanFor(w2, 75))
  {
  }

  lemma DoubledWidthWhole(lo: real, hi: real)
    requires Whole(lo) && Whole(hi)
    ensures DoubledWidth(lo, hi) == 2 * (hi.Floor - lo.Floor)
  {
    TruncWhole(2 * (hi.Floor - lo.Floor));
  }

  lemma CenterAtWhole(lo: real, k: int, i: int)
    requires Whole(lo)
    ensures CenterAt(lo, k, i) == 2 * lo.Floor + k + 120 * i
  {
    TruncWhole(2 * lo.Floor + k + 120 * i);
    assert lo * 2.0 + k as real + 120.0 * i as real == (2 * lo.Floor + k + 120 * i) as real;
  }

  lemma AnchorsWhole(lo: real, hi: real, k: int, c2: int)
    requires Whole(lo) && Whole(hi)
    ensures Anchors(lo, hi, k, c2) <==> c2 == 2 * lo.Floor + k || c2 == 2 * hi.Floor - k
  {
    TruncWhole(2 * lo.Floor + k);
    TruncWhole(2 * hi.Floor - k);
    assert lo * 2.0 + k as real == (2 * lo.Floor + k) as real;
    assert hi * 2.0 - k as real == (2 * hi.Floor - k) as real;
  }

  function Grid(base: int, i: int): int { base + 120 * i }

  predicate OnLattice(base: int, n: nat, c2: int) {
    exists i :: 0 <= i < n && c2 == Grid(base, i)
  }

  lemma DecodesWhole(lo: real, w2: int, k: int, c2: int)
    requires Whole(lo)
    ensures Decodes(lo, w2, k, c2) <==> CleanFor(w2, k) && OnLattice(2 * lo.Floor + k, CellCount(w2, k), c2)
  {
    if CleanFor(w2, k) {
      var base, n := 2 * lo.Floor + k, CellCount(w2, k);
      forall i ensures CenterAt(lo, k, i) == Grid(base, i) { CenterAtWhole(lo, k, i); }
      if Decodes(lo, w2, k, c2) {
        var i :| 0 <= i < n && c2 == CenterAt(lo, k, i);
        assert c2 == Grid(base, i);
      }
      if OnLattice(base, n, c2) {
        var i :| 0 <= i < n && c2 == Grid(base, i);
        assert c2 == CenterAt(lo, k, i);
      }
    }
  }

  /** Every X candidate's cell lies inside the run it was taken from, when the run has whole ends. */
  lemma XCenterInsideRun(lo: real, hi: real, c2: int, k: int)
    requires Whole(lo) && Whole(hi) && IsXCenter(lo, hi, c2, k)
    ensures k == 74 || k == 75
    ensures 2.0 * lo <= (c2 - k) as real && (c2 + k) as real <= 2.0 * hi
  {
    DoubledWidthWhole(lo, hi);
    DecodesWhole(lo, DoubledWidth(lo, hi), k, c2);
    AnchorsWhole(lo, hi, k, c2);
  }

  lemma YCenterInsideRun(lo: real, hi: real, c2: int)
    requires Whole(lo) && Whole(hi) && IsYCenter(lo, hi, c2)
    ensures 2.0 * lo <= (c2 - 75) as real && (c2 + 75) as real <= 2.0 * hi
  {
    DoubledWidthWhole(lo, hi);
    DecodesWhole(lo, DoubledWidth(lo, hi), 75, c2);
    AnchorsWhole(lo, hi, 75, c2);
  }

  /** Half-integer ends break this: a run of width 74.5 gets an anchored cell of width 75 that sticks out. */
  lemma HalfUnitRunSticksOut()
    ensures IsXCenter(0.0, 74.5, 75, 75) && ((75 + 75) as real) > 2.0 * 74.5
  {
    assert DoubledWidth(0.0, 74.5) == 149;
  }

  /** The cell of a decoded center contains `t`. */
  predicate CellHolds(c2: int, k: int, t: real) {
    (c2 - k) as real <= 2.0 * t < (c2 + k) as real
  }

  predicate SomeCellHolds(lo: real, k: int, n: nat, t: real) {
    exists i :: 0 <= i < n && CellHolds(CenterAt(lo, k, i), k, t)
  }

  /** The decoded cells start and end flush with the run, and a point lies in the
      run exactly when it lies in one of the cells. */
  lemma DecodedCellsTileRun(lo: real, hi: real, k: int, t: real)
    requires Whole(lo) && Whole(hi) && k >= 60 && CleanFor(DoubledWidth(lo, hi), k)
    ensures (CenterAt(lo, k, 0) - k) as real == 2.0 * lo
    ensures (CenterAt(lo, k, CellCount(DoubledWidth(lo, hi), k) - 1) + k) as real == 2.0 * hi
    ensures lo <= t < hi <==> SomeCellHolds(lo, k, CellCount(DoubledWidth(lo, hi), k), t)
  {
    var n := CellCount(DoubledWidth(lo, hi), k);
    DoubledWidthWhole(lo, hi);
    CenterAtWhole(lo, k, 0);
    CenterAtWhole(lo, k, n - 1);
    if lo <= t < hi {
      var i := CellOf(lo, hi, k, t);
      CenterAtWhole(lo, k, i);
      assert CellHolds(CenterAt(lo, k, i), k, t);
    }
    if SomeCellHolds(lo, k, n, t) {
      var i :| 0 <= i < n && CellHolds(CenterAt(lo, k, i), k, t);
      CenterAtWhole(lo, k, i);
      assert 120 * i <= 120 * (n - 1);
    }
  }

  /** The decoded cell that holds a point of the run. */
  lemma CellOf(lo: real, hi: real, k: int, t: real) returns (i: int)
    requires Whole(lo) && Whole(hi) && k >= 60 && CleanFor(DoubledWidth(lo, hi), k) && lo <= t < hi
    ensures 0 <= i < CellCount(DoubledWidth(lo, hi), k)
    ensures CellHolds(2 * lo.Floor + k + 120 * i, k, t)
  {
    DoubledWidthWhole(lo, hi);
    var n := CellCount(DoubledWidth(lo, hi), k);
    var d := 2.0 * (t - lo);
    var q := (d / 120.0).Floor;
    assert q as real <= d / 120.0 < q as real + 1.0;
    assert 120.0 * q as real <= d < 120.0 * q as real + 120.0;
    i := if q < n then q else n - 1;
    if q >= n { assert 120 * i == 120 * (n - 1); }
  }

  // ---------- structural support ----------

  /** `d % 120 == 0` on floats, with quotient `d // 120`. */
  predicate Multiple(d: real) {
    d == (d / 120.0).Floor as real * 120.0
  }

  /** The decoding test of the support functions, which divide instead of enumerating. */
  predicate OnGrid(lo: real, w2: int, k: int, c2: int) {
    && CleanFor(w2, k)
    && var d := c2 as real - lo * 2.0 - k as real;
       Multiple(d) && 0 <= (d / 120.0).Floor < CellCount(w2, k)
  }

  predicate AcceptsX(lo: real, hi: real, c2: int, k: int) {
    var w2 := DoubledWidth(lo, hi);
    && lo * 2.0 <= c2 as real <= hi * 2.0
    && (OnGrid(lo, w2, k, c2)
        || (!CleanFor(w2, 74) && !CleanFor(w2, 75) && hi - lo >= 74.0 && Anchors(lo, hi, k, c2)))
  }

  predicate AcceptsY(lo: real, hi: real, c2: int) {
    var h2 := DoubledWidth(lo, hi);
    && lo * 2.0 <= c2 as real <= hi * 2.0
    && if CleanFor(h2, 75) then OnGrid(lo, h2, 75, c2) else hi - lo >= 75.0 && Anchors(lo, hi, 75, c2)
  }

  lemma OnGridIffDecodes(lo: real, w2: int, k: int, c2: int)
    requires Whole(lo)
    ensures OnGrid(lo, w2, k, c2) <==> Decodes(lo, w2, k, c2)
  {
    DecodesWhole(lo, w2, k, c2);
    if CleanFor(w2, k) {
      var base := 2 * lo.Floor + k;
      var d := c2 as real - lo * 2.0 - k as real;
      assert d == (c2 - base) as real;
      if OnGrid(lo, w2, k, c2) {
        assert c2 == Grid(base, (d / 120.0).Floor);
      }
      if Decodes(lo, w2, k, c2) {
        assert OnLattice(base, CellCount(w2, k), c2);
        var i :| 0 <= i < CellCount(w2, k) && c2 == Grid(base, i);
        assert d == 120.0 * i as real;
        assert d / 120.0 == i as real;
      }
    }
  }

  /** Support accepts from a run exactly the candidates taken from that run. */
  lemma SupportIffCandidateX(lo: real, hi: real, c2: int, k: int)
    requires Whole(lo) && Whole(hi) && (k == 74 || k == 75)
    ensures AcceptsX(lo, hi, c2, k) <==> IsXCenter(lo, hi, c2, k)
  {
    hide OnGrid, Decodes, Anchors;
    OneWidth(DoubledWidth(lo, hi));
    OnGridIffDecodes(lo, DoubledWidth(lo, hi), k, c2);
    DecodesNeedsClean(lo, DoubledWidth(lo, hi), k, c2);
    if IsXCenter(lo, hi, c2, k) {
      XCenterInsideRun(lo, hi, c2, k);
    }
  }

  lemma DecodesNeedsClean(lo: real, w2: int, k: int, c2: int)
    ensures Decodes(lo, w2, k, c2) ==> CleanFor(w2, k)
  {
  }

  lemma SupportIffCandidateY(lo: real, hi: real, c2: int)
    requires Whole(lo) && Whole(hi)
    ensures AcceptsY(lo, hi, c2) <==> IsYCenter(lo, hi, c2)
  {
    hide OnGrid, Decodes, Anchors;
    OnGridIffDecodes(lo, DoubledWidth(lo, hi), 75, c2);
    if IsYCenter(lo, hi, c2) {
      YCenterInsideRun(lo, hi, c2);
    }
  }

  // ---------- collecting ----------

  predicate XFromRuns(slabs: seq<Slab>, c2: int, k: int) {
    exists s, r :: 0 <= s < |slabs| && 0 <= r < |slabs[s].runs|
                   && IsXCenter(slabs[s].runs[r].lo, slabs[s].runs[r].hi, c2, k)
  }

  predicate XFromSpans(slabs: seq<Slab>, c2: int, k: int) {
    exists s :: 0 <= s < |slabs| && IsXCenter(slabs[s].lo, slabs[s].hi, c2, k)
  }

  predicate YFromRuns(slabs: seq<Slab>, c2: int) {
    exists s, r :: 0 <= s < |slabs| && 0 <= r < |slabs[s].runs|
                   && IsYCenter(slabs[s].runs[r].lo, slabs[s].runs[r].hi, c2)
  }

  predicate YFromSpans(slabs: seq<Slab>, c2: int) {
    exists s :: 0 <= s < |slabs| && IsYCenter(slabs[s].lo, slabs[s].hi, c2)
  }

  /** `for i in range(n): cand.add((int(x0*2 + K + i*120), K))` */
  method AddDecoded(lo: real, k: int, n: nat, cand: set<(int, int)>) returns (r: set<(int, int)>)
    ensures forall c2, w :: (c2, w) in r <==>
              (c2, w) in cand || (w == k && exists i :: 0 <= i < n && c2 == CenterAt(lo, k, i))
  {
    hide CenterAt;
    r := cand;
    var i := 0;
    while i < n
      invariant i <= n
      invariant forall c2, w :: (c2, w) in r <==>
                  (c2, w) in cand || (w == k && exists j :: 0 <= j < i && c2 == CenterAt(lo, k, j))
    {
      r := r + {(CenterAt(lo, k, i), k)};
      i := i + 1;
    }
  }

  /** The body shared by both X loops of `_collect_candidates`. */
  method AddXRun(lo: real, hi: real, cand: set<(int, int)>) returns (r: set<(int, int)>)
    ensures forall c2, k :: (c2, k) in r <==> (c2, k) in cand || IsXCenter(lo, hi, c2, k)
  {
    hide CleanFor, CenterAt, Anchors, DoubledWidth;
    var w2 := DoubledWidth(lo, hi);
    if CleanFor(w2, 74) {
      r := AddDecoded(lo, 74, CellCount(w2, 74), cand);
    } else if CleanFor(w2, 75) {
      r := AddDecoded(lo, 75, CellCount(w2, 75), cand);
    } else if hi - lo >= 74.0 {
      r := AddAnchors(lo, hi, 74, cand);
      r := AddAnchors(lo, hi, 75, r);
    } else {
      r := cand;
    }
  }

  method AddAnchors(lo: real, hi: real, k: int, cand: set<(int, int)>) returns (r: set<(int, int)>)
    ensures forall c2, w :: (c2, w) in r <==> (c2, w) in cand || (w == k && Anchors(lo, hi, k, c2))
  {
    var a, b := Trunc(lo * 2.0 + k as real), Trunc(hi * 2.0 - k as real);
    r := cand + {(a, k)} + {(b, k)};
  }

  /** The body shared by both Y loops. */
  method AddYRun(lo: real, hi: real, cand: set<int>) returns (r: set<int>)
    ensures forall c2 :: c2 in r <==> c2 in cand || IsYCenter(lo, hi, c2)
  {
    hide CenterAt, DoubledWidth;
    r := cand;
    var h2 := DoubledWidth(lo, hi);
    if CleanFor(h2, 75) {
      var j := 0;
      while j < CellCount(h2, 75)
        invariant j <= CellCount(h2, 75)
        invariant forall c2 :: c2 in r <==> c2 in cand || exists i :: 0 <= i < j && c2 == CenterAt(lo, 75, i)
      {
        r := r + {CenterAt(lo, 75, j)};
        j := j + 1;
      }
    } else if hi - lo >= 75.0 {
      r := r + {Trunc(lo * 2.0 + 75.0)};
      r := r + {Trunc(hi * 2.0 - 75.0)};
    }
  }

  lemma MoreSlabs(slabs: seq<Slab>, n: nat, c2: int, k: int)
    requires n < |slabs|
    ensures XFromSpans(slabs[..n + 1], c2, k) <==>
            XFromSpans(slabs[..n], c2, k) || IsXCenter(slabs[n].lo, slabs[n].hi, c2, k)
    ensures YFromSpans(slabs[..n + 1], c2) <==>
            YFromSpans(slabs[..n], c2) || IsYCenter(slabs[n].lo, slabs[n].hi, c2)
    ensures XFromRuns(slabs[..n + 1], c2, k) <==>
            XFromRuns(slabs[..n], c2, k) || XFromRunList(slabs[n].runs, c2, k)
    ensures YFromRuns(slabs[..n + 1], c2) <==>
            YFromRuns(slabs[..n], c2) || YFromRunList(slabs[n].runs, c2)
  {
    var a, b := slabs[..n], slabs[..n + 1];
    hide XFromSpans, YFromSpans, XFromRuns, YFromRuns, XFromRunList, YFromRunList, IsXCenter, IsYCenter;
    assert b == a + [slabs[n]];
    OneMoreSlabX(a, slabs[n], c2, k);
    OneMoreSlabY(a, slabs[n], c2);
  }

  lemma OneMoreSlabX(a: seq<Slab>, last: Slab, c2: int, k: int)
    ensures XFromSpans(a + [last], c2, k) <==> XFromSpans(a, c2, k) || IsXCenter(last.lo, last.hi, c2, k)
    ensures XFromRuns(a + [last], c2, k) <==> XFromRuns(a, c2, k) || XFromRunList(last.runs, c2, k)
  {
    hide IsXCenter;
    var b := a + [last];
    if XFromSpans(a, c2, k) {
      var s :| 0 <= s < |a| && IsXCenter(a[s].lo, a[s].hi, c2, k);
      assert b[s] == a[s];
    }
    if XFromRuns(a, c2, k) {
      var s, r :| 0 <= s < |a| && 0 <= r < |a[s].runs| && IsXCenter(a[s].runs[r].lo, a[s].runs[r].hi, c2, k);
      assert b[s] == a[s];
    }
    assert b[|a|] == last;
  }

  lemma OneMoreSlabY(a: seq<Slab>, last: Slab, c2: int)
    ensures YFromSpans(a + [last], c2) <==> YFromSpans(a, c2) || IsYCenter(last.lo, last.hi, c2)
    ensures YFromRuns(a + [last], c2) <==> YFromRuns(a, c2) || YFromRunList(last.runs, c2)
  {
    hide IsYCenter;
    var b := a + [last];
    if YFromSpans(a, c2) {
      var s :| 0 <= s < |a| && IsYCenter(a[s].lo, a[s].hi, c2);
      assert b[s] == a[s];
    }
    if YFromRuns(a, c2) {
      var s, r :| 0 <= s < |a| && 0 <= r < |a[s].runs| && IsYCenter(a[s].runs[r].lo, a[s].runs[r].hi, c2);
      assert b[s] == a[s];
    }
    assert b[|a|] == last;
  }

  predicate XFromRunList(runs: seq<Run>, c2: int, k: int) {
    exists r :: 0 <= r < |runs| && IsXCenter(runs[r].lo, runs[r].hi, c2, k)
  }

  predicate YFromRunList(runs: seq<Run>, c2: int) {
    exists r :: 0 <= r < |runs| && IsYCenter(runs[r].lo, runs[r].hi, c2)
  }

  method AddXRuns(runs: seq<Run>, cand: set<(int, int)>) returns (r: set<(int, int)>)
    ensures forall c2, k :: (c2, k) in r <==> (c2, k) in cand || XFromRunList(runs, c2, k)
  {
    hide IsXCenter;
    r := cand;
    var i := 0;
    while i < |runs|
      invariant i <= |runs|
      invariant forall c2, k :: (c2, k) in r <==>
                  (c2, k) in cand || exists j :: 0 <= j < i && IsXCenter(runs[j].lo, runs[j].hi, c2, k)
    {
      r := AddXRun(runs[i].lo, runs[i].hi, r);
      i := i + 1;
    }
  }

  method AddYRuns(runs: seq<Run>, cand: set<int>) returns (r: set<int>)
    ensures forall c2 :: c2 in r <==> c2 in cand || YFromRunList(runs, c2)
  {
    hide IsYCenter;
    r := cand;
    var i := 0;
    while i < |runs|
      invariant i <= |runs|
      invariant forall c2 :: c2 in r <==>
                  c2 in cand || exists j :: 0 <= j < i && IsYCenter(runs[j].lo, runs[j].hi, c2)
    {
      r := AddYRun(runs[i].lo, runs[i].hi, r);
      i := i + 1;
    }
  }

  /** `_collect_candidates` */
  method CollectCandidates(ySlabs: seq<Slab>, xSlabs: seq<Slab>) returns (xs: set<(int, int)>, ys: set<int>)
    ensures forall c2, k :: (c2, k) in xs <==> XFromRuns(ySlabs, c2, k) || XFromSpans(xSlabs, c2, k)
    ensures forall c2 :: c2 in ys <==> YFromRuns(xSlabs, c2) || YFromSpans(ySlabs, c2)
  {
    hide IsXCenter, IsYCenter, XFromRuns, XFromSpans, YFromRuns, YFromSpans, XFromRunList, YFromRunList;
    xs, ys := {}, {};
    forall c2: int, k: int ensures !XFromRuns(ySlabs[..0], c2, k) && !XFromSpans(xSlabs[..0], c2, k) {
      NoSlabs(ySlabs, c2, k);
      NoSlabs(xSlabs, c2, k);
    }
    forall c2: int ensures !YFromRuns(xSlabs[..0], c2) && !YFromSpans(ySlabs[..0], c2) {
      NoSlabs(ySlabs, c2, 74);
      NoSlabs(xSlabs, c2, 74);
    }
    var i := 0;
    while i < |ySlabs|
      invariant i <= |ySlabs|
      invariant forall c2, k :: (c2, k) in xs <==> XFromRuns(ySlabs[..i], c2, k)
      invariant forall c2 :: c2 in ys <==> YFromSpans(ySlabs[..i], c2)
    {
      forall c2, k
        ensures XFromRuns(ySlabs[..i + 1], c2, k) <==>
                XFromRuns(ySlabs[..i], c2, k) || XFromRunList(ySlabs[i].runs, c2, k)
      {
        MoreSlabs(ySlabs, i, c2, k);
      }
      forall c2
        ensures YFromSpans(ySlabs[..i + 1], c2) <==>
                YFromSpans(ySlabs[..i], c2) || IsYCenter(ySlabs[i].lo, ySlabs[i].hi, c2)
      {
        MoreSlabs(ySlabs, i, c2, 74);
      }
      xs := AddXRuns(ySlabs[i].runs, xs);
      ys := AddYRun(ySlabs[i].lo, ySlabs[i].hi, ys);
      i := i + 1;
    }
    assert ySlabs[..i] == ySlabs;
    i := 0;
    while i < |xSlabs|
      invariant i <= |xSlabs|
      invariant forall c2, k :: (c2, k) in xs <==> XFromRuns(ySlabs, c2, k) || XFromSpans(xSlabs[..i], c2, k)
      invariant forall c2 :: c2 in ys <==> YFromRuns(xSlabs[..i], c2) || YFromSpans(ySlabs, c2)
    {
      forall c2, k
        ensures XFromSpans(xSlabs[..i + 1], c2, k) <==>
                XFromSpans(xSlabs[..i], c2, k) || IsXCenter(xSlabs[i].lo, xSlabs[i].hi, c2, k)
      {
        MoreSlabs(xSlabs, i, c2, k);
      }
      forall c2
        ensures YFromRuns(xSlabs[..i + 1], c2) <==>
                YFromRuns(xSlabs[..i], c2) || YFromRunList(xSlabs[i].runs, c2)
      {
        MoreSlabs(xSlabs, i, c2, 74);
      }
      xs := AddXRun(xSlabs[i].lo, xSlabs[i].hi, xs);
      ys := AddYRuns(xSlabs[i].runs, ys);
      i := i + 1;
    }
    assert xSlabs[..i] == xSlabs;
  }

  lemma NoSlabs(slabs: seq<Slab>, c2: int, k: int)
    ensures !XFromRuns(slabs[..0], c2, k) && !XFromSpans(slabs[..0], c2, k)
    ensures !YFromRuns(slabs[..0], c2) && !YFromSpans(slabs[..0], c2)
  {
  }

  // ---------- support ----------

  predicate Touches(lo: real, hi: real, c2: int) {
    lo * 2.0 <= c2 as real <= hi * 2.0
  }

  predicate RunTouched(runs: seq<Run>, c2: int) {
    exists r :: 0 <= r < |runs| && Touches(runs[r].lo, runs[r].hi, c2)
  }

  predicate XSupportedByRun(slabs: seq<Slab>, x2: int, y2: int, k: int) {
    exists s, r :: 0 <= s < |slabs| && Touches(slabs[s].lo, slabs[s].hi, y2) && 0 <= r < |slabs[s].runs|
                   && AcceptsX(slabs[s].runs[r].lo, slabs[s].runs[r].hi, x2, k)
  }

  predicate XSupportedBySpan(slabs: seq<Slab>, x2: int, y2: int, k: int) {
    exists s :: 0 <= s < |slabs| && AcceptsX(slabs[s].lo, slabs[s].hi, x2, k) && RunTouched(slabs[s].runs, y2)
  }

  predicate YSupportedByRun(slabs: seq<Slab>, x2: int, y2: int) {
    exists s, r :: 0 <= s < |slabs| && Touches(slabs[s].lo, slabs[s].hi, x2) && 0 <= r < |slabs[s].runs|
                   && AcceptsY(slabs[s].runs[r].lo, slabs[s].runs[r].hi, y2)
  }

  predicate YSupportedBySpan(slabs: seq<Slab>, x2: int, y2: int) {
    exists s :: 0 <= s < |slabs| && AcceptsY(slabs[s].lo, slabs[s].hi, y2) && RunTouched(slabs[s].runs, x2)
  }

  method AnyRunTouched(runs: seq<Run>, c2: int) returns (found: bool)
    ensures found == RunTouched(runs, c2)
  {
    var r := 0;
    while r < |runs|
      invariant r <= |runs|
      invariant forall j :: 0 <= j < r ==> !Touches(runs[j].lo, runs[j].hi, c2)
    {
      if Touches(runs[r].lo, runs[r].hi, c2) { return true; }
      r := r + 1;
    }
    return false;
  }

  method AnyRunAcceptsX(runs: seq<Run>, x2: int, k: int) returns (found: bool)
    ensures found <==> exists r :: 0 <= r < |runs| && AcceptsX(runs[r].lo, runs[r].hi, x2, k)
  {
    hide AcceptsX;
    var r := 0;
    while r < |runs|
      invariant r <= |runs|
      invariant forall j :: 0 <= j < r ==> !AcceptsX(runs[j].lo, runs[j].hi, x2, k)
    {
      if AcceptsX(runs[r].lo, runs[r].hi, x2, k) { return true; }
      r := r + 1;
    }
    return false;
  }

  method AnyRunAcceptsY(runs: seq<Run>, y2: int) returns (found: bool)
    ensures found <==> exists r :: 0 <= r < |runs| && AcceptsY(runs[r].lo, runs[r].hi, y2)
  {
    hide AcceptsY;
    var r := 0;
    while r < |runs|
      invariant r <= |runs|
      invariant forall j :: 0 <= j < r ==> !AcceptsY(runs[j].lo, runs[j].hi, y2)
    {
      if AcceptsY(runs[r].lo, runs[r].hi, y2) { return true; }
      r := r + 1;
    }
    return false;
  }

  /** `_has_x_support` */
  method HasXSupport(ySlabs: seq<Slab>, xSlabs: seq<Slab>, x2: int, y2: int, k: int) returns (supported: bool)
    ensures supported <==> XSupportedByRun(ySlabs, x2, y2, k) || XSupportedBySpan(xSlabs, x2, y2, k)
  {
    hide AcceptsX, Touches, RunTouched;
    var s := 0;
    while s < |ySlabs|
      invariant s <= |ySlabs|
      invariant forall j, r :: 0 <= j < s && Touches(ySlabs[j].lo, ySlabs[j].hi, y2) && 0 <= r < |ySlabs[j].runs|
                  ==> !AcceptsX(ySlabs[j].runs[r].lo, ySlabs[j].runs[r].hi, x2, k)
    {
      if Touches(ySlabs[s].lo, ySlabs[s].hi, y2) {
        var found := AnyRunAcceptsX(ySlabs[s].runs, x2, k);
        if found { return true; }
      }
      s := s + 1;
    }
    s := 0;
    while s < |xSlabs|
      invariant s <= |xSlabs|
      invariant forall j :: 0 <= j < s ==>
                  !(AcceptsX(xSlabs[j].lo, xSlabs[j].hi, x2, k) && RunTouched(xSlabs[j].runs, y2))
    {
      var touched := AnyRunTouched(xSlabs[s].runs, y2);
      if touched && AcceptsX(xSlabs[s].lo, xSlabs[s].hi, x2, k) { return true; }
      s := s + 1;
    }
    return false;
  }

  /** `_has_y_support` */
  method HasYSupport(ySlabs: seq<Slab>, xSlabs: seq<Slab>, x2: int, y2: int) returns (supported: bool)
    ensures supported <==> YSupportedByRun(xSlabs, x2, y2) || YSupportedBySpan(ySlabs, x2, y2)
  {
    hide AcceptsY, Touches, RunTouched;
    var s := 0;
    while s < |xSlabs|
      invariant s <= |xSlabs|
      invariant forall j, r :: 0 <= j < s && Touches(xSlabs[j].lo, xSlabs[j].hi, x2) && 0 <= r < |xSlabs[j].runs|
                  ==> !AcceptsY(xSlabs[j].runs[r].lo, xSlabs[j].runs[r].hi, y2)
    {
      if Touches(xSlabs[s].lo, xSlabs[s].hi, x2) {
        var found := AnyRunAcceptsY(xSlabs[s].runs, y2);
        if found { return true; }
      }
      s := s + 1;
    }
    s := 0;
    while s < |ySlabs|
      invariant s <= |ySlabs|
      invariant forall j :: 0 <= j < s ==>
                  !(AcceptsY(ySlabs[j].lo, ySlabs[j].hi, y2) && RunTouched(ySlabs[j].runs, x2))
    {
      var touched := AnyRunTouched(ySlabs[s].runs, x2);
      if touched && AcceptsY(ySlabs[s].lo, ySlabs[s].hi, y2) { return true; }
      s := s + 1;
    }
    return false;
  }

  /** Every X candidate taken from a run of a slab is supported at every ordinate of that slab. */
  lemma CandidateIsSupported(ySlabs: seq<Slab>, s: nat, r: nat, x2: int, y2: int, k: int)
    requires s < |ySlabs| && r < |ySlabs[s].runs| && Touches(ySlabs[s].lo, ySlabs[s].hi, y2)
    requires Whole(ySlabs[s].runs[r].lo) && Whole(ySlabs[s].runs[r].hi)
    requires IsXCenter(ySlabs[s].runs[r].lo, ySlabs[s].runs[r].hi, x2, k)
    ensures XSupportedByRun(ySlabs, x2, y2, k)
  {
    hide AcceptsX, IsXCenter, Whole;
    var run := ySlabs[s].runs[r];
    XCenterInsideRun(run.lo, run.hi, x2, k);
    SupportIffCandidateX(run.lo, run.hi, x2, k);
  }

  /** The same for the spans of slabs, and for ordinates. */
  lemma SpanCandidateIsSupported(xSlabs: seq<Slab>, s: nat, x2: int, y2: int, k: int)
    requires s < |xSlabs| && RunTouched(xSlabs[s].runs, y2)
    requires Whole(xSlabs[s].lo) && Whole(xSlabs[s].hi) && IsXCenter(xSlabs[s].lo, xSlabs[s].hi, x2, k)
    ensures XSupportedBySpan(xSlabs, x2, y2, k)
  {
    hide AcceptsX, IsXCenter, Whole, RunTouched;
    XCenterInsideRun(xSlabs[s].lo, xSlabs[s].hi, x2, k);
    SupportIffCandidateX(xSlabs[s].lo, xSlabs[s].hi, x2, k);
  }

  lemma YCandidateIsSupported(xSlabs: seq<Slab>, s: nat, r: nat, x2: int, y2: int)
    requires s < |xSlabs| && r < |xSlabs[s].runs| && Touches(xSlabs[s].lo, xSlabs[s].hi, x2)
    requires Whole(xSlabs[s].runs[r].lo) && Whole(xSlabs[s].runs[r].hi)
    requires IsYCenter(xSlabs[s].runs[r].lo, xSlabs[s].runs[r].hi, y2)
    ensures YSupportedByRun(xSlabs, x2, y2)
  {
    hide AcceptsY, IsYCenter, Whole;
    SupportIffCandidateY(xSlabs[s].runs[r].lo, xSlabs[s].runs[r].hi, y2);
  }

  lemma YSpanCandidateIsSupported(ySlabs: seq<Slab>, s: nat, x2: int, y2: int)
    requires s < |ySlabs| && RunTouched(ySlabs[s].runs, x2)
    requires Whole(ySlabs[s].lo) && Whole(ySlabs[s].hi) && IsYCenter(ySlabs[s].lo, ySlabs[s].hi, y2)
    ensures YSupportedBySpan(ySlabs, x2, y2)
  {
    hide AcceptsY, IsYCenter, Whole, RunTouched;
    SupportIffCandidateY(ySlabs[s].lo, ySlabs[s].hi, y2);
  }

  // ---------- the kept centers ----------

  ghost predicate WholeVertices(contours: seq<Contour>) {
    forall i, j :: 0 <= i < |contours| && 0 <= j < |contours[i]| ==>
      Whole(contours[i][j].x) && Whole(contours[i][j].y)
  }

  ghost predicate WholeAll(values: seq<real>) {
    forall v :: v in values ==> Whole(v)
  }

  lemma {:induction false} WholeGrids(contours: seq<Contour>)
    requires WholeVertices(contours)
    ensures WholeAll(AllAbscissas(contours)) && WholeAll(AllOrdinates(contours))
  {
    if contours == [] {
    } else {
      var init, last := contours[..|contours| - 1], contours[|contours| - 1];
      WholeGrids(init);
      var xs := seq(|last|, k requires 0 <= k < |last| => last[k].x);
      var ys := seq(|last|, k requires 0 <= k < |last| => last[k].y);
      assert AllAbscissas(contours) == AllAbscissas(init) + xs;
      assert AllOrdinates(contours) == AllOrdinates(init) + ys;
    }
  }

  ghost predicate WholeRuns(runs: seq<Run>) {
    forall r :: 0 <= r < |runs| ==> Whole(runs[r].lo) && Whole(runs[r].hi)
  }

  lemma RunsOfGridAreWhole(runs: seq<Run>, cuts: seq<real>)
    requires EndsAmong(runs, cuts) && WholeAll(cuts)
    ensures WholeRuns(runs)
  {
  }

  /** What makes (x2, y2, k) a kept center: both coordinates decoded from runs, the
      whole cell filled, and structural support in one of the directions. */
  ghost predicate Kept(contours: seq<Contour>, ySlabs: seq<Slab>, xSlabs: seq<Slab>, x2: int, y2: int, k: int) {
    && (XFromRuns(ySlabs, x2, k) || XFromSpans(xSlabs, x2, k))
    && (YFromRuns(xSlabs, y2) || YFromSpans(ySlabs, y2))
    && CellInk(contours, x2 as real / 2.0, y2 as real / 2.0, k as real)
    && (XSupportedByRun(ySlabs, x2, y2, k) || XSupportedBySpan(xSlabs, x2, y2, k)
        || YSupportedByRun(xSlabs, x2, y2) || YSupportedBySpan(ySlabs, x2, y2))
  }

  lemma CandidateWidths(ySlabs: seq<Slab>, xSlabs: seq<Slab>, x2: int, k: int)
    requires XFromRuns(ySlabs, x2, k) || XFromSpans(xSlabs, x2, k)
    ensures k == 74 || k == 75
  {
  }

  /** The tests of the inner loop of `geometry_source_grid`. */
  method Verify(contours: seq<Contour>, ySlabs: seq<Slab>, xSlabs: seq<Slab>, x2: int, y2: int, k: int)
    returns (kept: bool)
    requires AllAxisAligned(contours)
    requires XFromRuns(ySlabs, x2, k) || XFromSpans(xSlabs, x2, k)
    requires YFromRuns(xSlabs, y2) || YFromSpans(ySlabs, y2)
    ensures kept <==> Kept(contours, ySlabs, xSlabs, x2, y2, k)
  {
    hide XFromRuns, XFromSpans, YFromRuns, YFromSpans, AllAxisAligned, GridX, GridY, Filled;
    hide XSupportedByRun, XSupportedBySpan, YSupportedByRun, YSupportedBySpan, CellInk;
    CandidateWidths(ySlabs, xSlabs, x2, k);
    var x, y := x2 as real / 2.0, y2 as real / 2.0;
    var center := FilledAt(contours, x, y);
    CenterOfInk(contours, x, y, k as real);
    if !center { return false; }
    var contained := IsFullyContained(contours, GridX(contours), GridY(contours), x, y, k as real);
    if !contained { return false; }
    var xSupport := HasXSupport(ySlabs, xSlabs, x2, y2, k);
    var ySupport := HasYSupport(ySlabs, xSlabs, x2, y2);
    return xSupport || ySupport;
  }

  lemma CenterOfInk(contours: seq<Contour>, x: real, y: real, kx: real)
    requires kx > 0.0
    ensures CellInk(contours, x, y, kx) ==> Filled(contours, x, y)
  {
  }

  /** The slabs between neighbouring vertex ordinates, and abscissas, each exact. */
  ghost predicate SlabsOf(contours: seq<Contour>, ySlabs: seq<Slab>, xSlabs: seq<Slab>) {
    var xs, ys := GridX(contours), GridY(contours);
    && |ySlabs| == (if |ys| == 0 then 0 else |ys| - 1) && |xSlabs| == (if |xs| == 0 then 0 else |xs| - 1)
    && (forall s :: 0 <= s < |ySlabs| ==>
          ySlabs[s].lo == ys[s] && ySlabs[s].hi == ys[s + 1] && YSlabExact(contours, ySlabs[s]))
    && (forall s :: 0 <= s < |xSlabs| ==>
          xSlabs[s].lo == xs[s] && xSlabs[s].hi == xs[s + 1] && XSlabExact(contours, xSlabs[s]))
  }

  /** The source centers of `geometry_source_grid`: exactly the candidates whose cell
      is all ink and which have support.  The slabs they come from are exact. */
  method SourceCenters(contours: seq<Contour>)
    returns (verified: set<(int, int, int)>, ySlabs: seq<Slab>, xSlabs: seq<Slab>)
    requires AllAxisAligned(contours)
    ensures SlabsOf(contours, ySlabs, xSlabs)
    ensures forall x2, y2, k :: (x2, y2, k) in verified <==> Kept(contours, ySlabs, xSlabs, x2, y2, k)
    ensures WholeVertices(contours) ==>
              forall s :: 0 <= s < |ySlabs| ==> WholeRuns(ySlabs[s].runs) && Whole(ySlabs[s].lo) && Whole(ySlabs[s].hi)
  {
    hide YSlabExact, XSlabExact, Kept, XFromRuns, XFromSpans, YFromRuns, YFromSpans, AllAxisAligned, GridX, GridY;
    hide EndsAmong, WholeRuns, Whole, WholeVertices;
    ySlabs := BuildYSlabs(contours);
    xSlabs := BuildXSlabs(contours);
    if WholeVertices(contours) { WholeSlabs(contours, ySlabs); }
    var candX, candY := CollectCandidates(ySlabs, xSlabs);
    verified := {};
    var restX := candX;
    while restX != {}
      invariant restX <= candX
      invariant forall x2, y2, k :: (x2, y2, k) in verified <==>
                  (x2, k) in candX - restX && y2 in candY && Kept(contours, ySlabs, xSlabs, x2, y2, k)
      decreases restX
    {
      var c :| c in restX;
      var restY := candY;
      while restY != {}
        invariant restY <= candY
        invariant forall x2, y2, k :: (x2, y2, k) in verified <==>
                    ((x2, k) in candX - restX && y2 in candY && Kept(contours, ySlabs, xSlabs, x2, y2, k))
                    || ((x2, k) == c && y2 in candY - restY && Kept(contours, ySlabs, xSlabs, x2, y2, k))
        decreases restY
      {
        SomeMember(restY);
        var y2 :| y2 in restY;
        var kept := Verify(contours, ySlabs, xSlabs, c.0, y2, c.1);
        if kept { verified := verified + {(c.0, y2, c.1)}; }
        restY := restY - {y2};
      }
      restX := restX - {c};
    }
    forall x2, y2, k | Kept(contours, ySlabs, xSlabs, x2, y2, k) ensures (x2, k) in candX && y2 in candY {
      KeptIsCandidate(contours, ySlabs, xSlabs, x2, y2, k);
    }
  }

  lemma SomeMember(s: set<int>)
    requires s != {}
    ensures exists v: int :: v in s
  {
    assert (forall v: int :: v !in s) ==> s == {};
  }

  lemma KeptIsCandidate(contours: seq<Contour>, ySlabs: seq<Slab>, xSlabs: seq<Slab>, x2: int, y2: int, k: int)
    requires Kept(contours, ySlabs, xSlabs, x2, y2, k)
    ensures XFromRuns(ySlabs, x2, k) || XFromSpans(xSlabs, x2, k)
    ensures YFromRuns(xSlabs, y2) || YFromSpans(ySlabs, y2)
  {
  }

  lemma WholeSlabs(contours: seq<Contour>, ySlabs: seq<Slab>)
    requires WholeVertices(contours)
    requires forall i :: 0 <= i < |ySlabs| ==> EndsAmong(ySlabs[i].runs, GridX(contours))
    requires |ySlabs| == (if |GridY(contours)| == 0 then 0 else |GridY(contours)| - 1)
    requires forall i :: 0 <= i < |ySlabs| ==>
               ySlabs[i].lo == GridY(contours)[i] && ySlabs[i].hi == GridY(contours)[i + 1]
    ensures forall s :: 0 <= s < |ySlabs| ==> WholeRuns(ySlabs[s].runs) && Whole(ySlabs[s].lo) && Whole(ySlabs[s].hi)
  {
    hide WholeRuns, Whole, EndsAmong;
    WholeGrids(contours);
    var xs, ys := GridX(contours), GridY(contours);
    assert WholeAll(xs) && WholeAll(ys);
    forall s | 0 <= s < |ySlabs|
      ensures WholeRuns(ySlabs[s].runs) && Whole(ySlabs[s].lo) && Whole(ySlabs[s].hi)
    {
      RunsOfGridAreWhole(ySlabs[s].runs, xs);
      assert ys[s] in ys && ys[s + 1] in ys;
    }
  }

  /** Nor is one decoded from a span, or one whose ordinate was. */
  lemma SpanCenterIsKept(contours: seq<Contour>, ySlabs: seq<Slab>, xSlabs: seq<Slab>, s: nat, x2: int, y2: int, k: int)
    requires s < |xSlabs| && Whole(xSlabs[s].lo) && Whole(xSlabs[s].hi)
    requires exists r :: 0 <= r < |xSlabs[s].runs|
                         && 2.0 * xSlabs[s].runs[r].lo <= y2 as real <= 2.0 * xSlabs[s].runs[r].hi
    requires IsXCenter(xSlabs[s].lo, xSlabs[s].hi, x2, k)
    requires YFromRuns(xSlabs, y2) || YFromSpans(ySlabs, y2)
    requires CellInk(contours, x2 as real / 2.0, y2 as real / 2.0, k as real)
    ensures Kept(contours, ySlabs, xSlabs, x2, y2, k)
  {
    hide YFromRuns, YFromSpans, CellInk, IsXCenter, Whole;
    SpanCandidateIsSupported(xSlabs, s, x2, y2, k);
    assert XFromSpans(xSlabs, x2, k);
  }

  lemma YSlabCenterIsKept(contours: seq<Contour>, ySlabs: seq<Slab>, xSlabs: seq<Slab>, s: nat, r: nat,
                          x2: int, y2: int, k: int)
    requires s < |xSlabs| && r < |xSlabs[s].runs| && WholeRuns(xSlabs[s].runs)
    requires 2.0 * xSlabs[s].lo <= x2 as real <= 2.0 * xSlabs[s].hi
    requires IsYCenter(xSlabs[s].runs[r].lo, xSlabs[s].runs[r].hi, y2)
    requires XFromRuns(ySlabs, x2, k) || XFromSpans(xSlabs, x2, k)
    requires CellInk(contours, x2 as real / 2.0, y2 as real / 2.0, k as real)
    ensures Kept(contours, ySlabs, xSlabs, x2, y2, k)
  {
    hide XFromRuns, XFromSpans, CellInk, IsYCenter, Whole;
    YCandidateIsSupported(xSlabs, s, r, x2, y2);
    assert YFromRuns(xSlabs, y2);
  }

  lemma YSpanCenterIsKept(contours: seq<Contour>, ySlabs: seq<Slab>, xSlabs: seq<Slab>, s: nat,
                          x2: int, y2: int, k: int)
    requires s < |ySlabs| && Whole(ySlabs[s].lo) && Whole(ySlabs[s].hi)
    requires exists r :: 0 <= r < |ySlabs[s].runs|
                         && 2.0 * ySlabs[s].runs[r].lo <= x2 as real <= 2.0 * ySlabs[s].runs[r].hi
    requires IsYCenter(ySlabs[s].lo, ySlabs[s].hi, y2)
    requires XFromRuns(ySlabs, x2, k) || XFromSpans(xSlabs, x2, k)
    requires CellInk(contours, x2 as real / 2.0, y2 as real / 2.0, k as real)
    ensures Kept(contours, ySlabs, xSlabs, x2, y2, k)
  {
    hide XFromRuns, XFromSpans, CellInk, IsYCenter, Whole;
    YSpanCandidateIsSupported(ySlabs, s, x2, y2);
    assert YFromSpans(ySlabs, y2);
  }

  /** No structural center is lost: a center decoded from a run of a Y-slab, paired
      with a candidate ordinate of that slab, is kept as soon as its cell is all ink. */
  lemma SlabCenterIsKept(contours: seq<Contour>, ySlabs: seq<Slab>, xSlabs: seq<Slab>, s: nat, r: nat,
                         x2: int, y2: int, k: int)
    requires s < |ySlabs| && r < |ySlabs[s].runs| && WholeRuns(ySlabs[s].runs)
    requires IsXCenter(ySlabs[s].runs[r].lo, ySlabs[s].runs[r].hi, x2, k)
    requires YFromRuns(xSlabs, y2) || YFromSpans(ySlabs, y2)
    requires 2.0 * ySlabs[s].lo <= y2 as real <= 2.0 * ySlabs[s].hi
    requires CellInk(contours, x2 as real / 2.0, y2 as real / 2.0, k as real)
    ensures Kept(contours, ySlabs, xSlabs, x2, y2, k)
  {
    hide YFromRuns, YFromSpans, CellInk, IsXCenter, Whole;
    CandidateIsSupported(ySlabs, s, r, x2, y2, k);
    assert XFromRuns(ySlabs, x2, k);
  }
}
