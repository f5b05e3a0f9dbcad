/**
 The slab sweeps of firmware/scripts/generate_m4_center_kernel.py
 (`_build_y_slab_intervals` and `_build_x_slab_intervals`): in every slab the
 collected runs are exactly the filled set, in canonical form.
 */
module SlabSweep {

  import opened FillTest
  import opened SortedReals
  import opened Containment

  // ---------- runs ----------

  datatype Run = Run(lo: real, hi: real)

  datatype Slab = Slab(lo: real, hi: real, runs: seq<Run>)

  /** Non-empty, sorted and with a gap between neighbours, hence maximal. */
  predicate Canonical(runs: seq<Run>) {
    && (forall k :: 0 <= k < |runs| ==> runs[k].lo < runs[k].hi)
    && (forall k, l :: 0 <= k < l < |runs| ==> runs[k].hi < runs[l].lo)
  }

  predicate Covers(runs: seq<Run>, t: real) {
    exists k :: 0 <= k < |runs| && runs[k].lo <= t < runs[k].hi
  }

  /** Canonical runs are determined by what they cover: two canonical lists that cover
      the same points are the same list. */
  lemma {:induction false} CanonicalIsUnique(a: seq<Run>, b: seq<Run>)
    requires Canonical(a) && Canonical(b)
    requires forall t: real :: Covers(a, t) <==> Covers(b, t)
    ensures a == b
  {
    hide Canonical;
    HeadCovered(a);
    HeadCovered(b);
    if a != [] && b != [] {
      FirstStartsEarliest(a, b);
      FirstStartsEarliest(b, a);
      FirstEndsLatest(a, b);
      FirstEndsLatest(b, a);
      forall t: real ensures Covers(a[1..], t) <==> Covers(b[1..], t) {
        CoversTail(a, t);
        CoversTail(b, t);
      }
      CanonicalTail(a);
      CanonicalTail(b);
      CanonicalIsUnique(a[1..], b[1..]);
      assert a == [a[0]] + a[1..] && b == [b[0]] + b[1..];
    }
  }

  lemma FirstStartsEarliest(a: seq<Run>, b: seq<Run>)
    requires Canonical(a) && Canonical(b) && a != [] && b != []
    requires forall t: real :: Covers(a, t) ==> Covers(b, t)
    ensures b[0].lo <= a[0].lo
  {
    assert Covers(a, a[0].lo);
    assert Covers(b, a[0].lo);
    var k :| 0 <= k < |b| && b[k].lo <= a[0].lo < b[k].hi;
    assert k > 0 ==> b[0].hi < b[k].lo;
  }

  lemma FirstEndsLatest(a: seq<Run>, b: seq<Run>)
    requires Canonical(a) && Canonical(b) && a != [] && b != [] && a[0].lo == b[0].lo
    requires forall t: real :: Covers(b, t) ==> Covers(a, t)
    ensures b[0].hi <= a[0].hi
  {
    GapAfterFirst(a);
    assert !Covers(b, a[0].hi);
    assert !(b[0].lo <= a[0].hi < b[0].hi);
  }

  lemma HeadCovered(a: seq<Run>)
    requires Canonical(a)
    ensures a != [] ==> Covers(a, a[0].lo)
  {
    if a != [] { assert a[0].lo <= a[0].lo < a[0].hi; }
  }

  lemma GapAfterFirst(a: seq<Run>)
    requires Canonical(a) && a != []
    ensures !Covers(a, a[0].hi)
  {
  }

  lemma CanonicalTail(a: seq<Run>)
    requires Canonical(a) && a != []
    ensures Canonical(a[1..])
  {
  }

  lemma CoversTail(a: seq<Run>, t: real)
    requires Canonical(a) && a != []
    ensures Covers(a[1..], t) <==> Covers(a, t) && a[0].hi <= t
  {
    if Covers(a[1..], t) {
      var k :| 0 <= k < |a[1..]| && a[1..][k].lo <= t < a[1..][k].hi;
      assert a[k + 1].lo <= t < a[k + 1].hi;
      assert a[0].hi < a[k + 1].lo;
    }
    if Covers(a, t) && a[0].hi <= t {
      var k :| 0 <= k < |a| && a[k].lo <= t < a[k].hi;
      assert a[1..][k - 1] == a[k];
    }
  }

  // ---------- one sweep ----------

  /** The sweep's sample of cell `j`: the midpoint, in the direction of the sweep. */
  predicate SampleFilled(contours: seq<Contour>, cuts: seq<real>, j: nat, fixed: real, alongX: bool)
    requires j + 1 < |cuts|
  {
    var mid := (cuts[j] + cuts[j + 1]) / 2.0;
    if alongX then Filled(contours, mid, fixed) else Filled(contours, fixed, mid)
  }

  /** `t` lies in one of the first `n` cells, and that cell's sample is filled. */
  ghost predicate InFilledCell(contours: seq<Contour>, cuts: seq<real>, n: nat, fixed: real, alongX: bool, t: real)
    requires n < |cuts|
  {
    exists j :: 0 <= j < n && cuts[j] <= t < cuts[j + 1] && SampleFilled(contours, cuts, j, fixed, alongX)
  }

  /** The runs cover exactly the filled ones of the first `n` cells. */
  ghost predicate Matches(runs: seq<Run>, contours: seq<Contour>, cuts: seq<real>, n: nat, fixed: real, alongX: bool)
    requires n < |cuts|
  {
    forall t: real :: Covers(runs, t) <==> InFilledCell(contours, cuts, n, fixed, alongX, t)
  }

  lemma MatchesFilledCell(before: seq<Run>, after: seq<Run>, contours: seq<Contour>, cuts: seq<real>, j: nat,
                          fixed: real, alongX: bool)
    requires j + 1 < |cuts| && Matches(before, contours, cuts, j, fixed, alongX)
    requires SampleFilled(contours, cuts, j, fixed, alongX)
    requires forall t: real :: Covers(after, t) <==> Covers(before, t) || cuts[j] <= t < cuts[j + 1]
    ensures Matches(after, contours, cuts, j + 1, fixed, alongX)
  {
    hide Covers, InFilledCell, SampleFilled;
    forall t: real ensures Covers(after, t) <==> InFilledCell(contours, cuts, j + 1, fixed, alongX, t) {
      OneMoreCell(contours, cuts, j, fixed, alongX, t);
    }
  }

  lemma MatchesEmptyCell(runs: seq<Run>, contours: seq<Contour>, cuts: seq<real>, j: nat, fixed: real, alongX: bool)
    requires j + 1 < |cuts| && Matches(runs, contours, cuts, j, fixed, alongX)
    requires !SampleFilled(contours, cuts, j, fixed, alongX)
    ensures Matches(runs, contours, cuts, j + 1, fixed, alongX)
  {
    hide Covers, InFilledCell, SampleFilled;
    forall t: real ensures Covers(runs, t) <==> InFilledCell(contours, cuts, j + 1, fixed, alongX, t) {
      OneMoreCell(contours, cuts, j, fixed, alongX, t);
    }
  }

  /** The runs so far, with the open run if there is one. */
  function WithOpen(runs: seq<Run>, open: bool, cur: Run): seq<Run> {
    if open then runs + [cur] else runs
  }

  lemma CoversAppend(runs: seq<Run>, r: Run, t: real)
    ensures Covers(runs + [r], t) <==> Covers(runs, t) || r.lo <= t < r.hi
  {
    if Covers(runs, t) {
      var k :| 0 <= k < |runs| && runs[k].lo <= t < runs[k].hi;
      assert (runs + [r])[k] == runs[k];
    }
    if r.lo <= t < r.hi { assert (runs + [r])[|runs|] == r; }
  }

  /** Every run ends before `limit`. */
  ghost predicate EndsBefore(runs: seq<Run>, limit: real) {
    forall k :: 0 <= k < |runs| ==> runs[k].hi < limit
  }

  /** Runs start and end at grid coordinates. */
  ghost predicate EndsAmong(runs: seq<Run>, cuts: seq<real>) {
    forall k :: 0 <= k < |runs| ==> runs[k].lo in cuts && runs[k].hi in cuts
  }

  /** What the sweep knows before cell `j`. */
  ghost predicate Swept(runs: seq<Run>, open: bool, cur: Run,
                        contours: seq<Contour>, cuts: seq<real>, j: nat, fixed: real, alongX: bool)
    requires j < |cuts|
  {
    && Canonical(runs) && EndsAmong(runs, cuts)
    && (open ==> EndsAmong([cur], cuts) && cur.lo < cur.hi == cuts[j] && EndsBefore(runs, cur.lo))
    && (!open ==> EndsBefore(runs, cuts[j]))
    && Matches(WithOpen(runs, open, cur), contours, cuts, j, fixed, alongX)
  }

  lemma StepOpens(runs: seq<Run>, cur: Run, contours: seq<Contour>, cuts: seq<real>, j: nat, fixed: real, alongX: bool)
    requires Increasing(cuts) && j + 1 < |cuts| && Swept(runs, false, cur, contours, cuts, j, fixed, alongX)
    requires SampleFilled(contours, cuts, j, fixed, alongX)
    ensures Swept(runs, true, Run(cuts[j], cuts[j + 1]), contours, cuts, j + 1, fixed, alongX)
  {
    hide Canonical, Covers, Matches, SampleFilled, EndsBefore, EndsAmong;
    Neighbours(cuts, j);
    AppendRun(runs, Run(cuts[j], cuts[j + 1]));
    OpenEnds(cuts, j);
    MatchesFilledCell(runs, runs + [Run(cuts[j], cuts[j + 1])], contours, cuts, j, fixed, alongX);
  }

  lemma StepExtends(runs: seq<Run>, cur: Run, contours: seq<Contour>, cuts: seq<real>, j: nat, fixed: real,
                    alongX: bool)
    requires Increasing(cuts) && j + 1 < |cuts| && Swept(runs, true, cur, contours, cuts, j, fixed, alongX)
    requires SampleFilled(contours, cuts, j, fixed, alongX)
    ensures Swept(runs, true, cur.(hi := cuts[j + 1]), contours, cuts, j + 1, fixed, alongX)
  {
    hide Canonical, Covers, Matches, SampleFilled, EndsBefore, EndsAmong;
    Neighbours(cuts, j);
    ExtendRun(runs, cur, cuts[j + 1]);
    ExtendEnds(cur, cuts, j + 1);
    MatchesFilledCell(runs + [cur], runs + [cur.(hi := cuts[j + 1])], contours, cuts, j, fixed, alongX);
  }

  lemma StepCloses(runs: seq<Run>, cur: Run, contours: seq<Contour>, cuts: seq<real>, j: nat, fixed: real,
                   alongX: bool)
    requires Increasing(cuts) && j + 1 < |cuts| && Swept(runs, true, cur, contours, cuts, j, fixed, alongX)
    requires !SampleFilled(contours, cuts, j, fixed, alongX)
    ensures Swept(runs + [cur], false, cur, contours, cuts, j + 1, fixed, alongX)
  {
    hide Canonical, Covers, Matches, SampleFilled, EndsBefore, EndsAmong;
    Neighbours(cuts, j);
    AppendRun(runs, cur);
    CloseRun(runs, cur, cuts[j + 1]);
    AppendEnds(runs, cur, cuts);
    MatchesEmptyCell(runs + [cur], contours, cuts, j, fixed, alongX);
  }

  lemma StepSkips(runs: seq<Run>, cur: Run, contours: seq<Contour>, cuts: seq<real>, j: nat, fixed: real, alongX: bool)
    requires Increasing(cuts) && j + 1 < |cuts| && Swept(runs, false, cur, contours, cuts, j, fixed, alongX)
    requires !SampleFilled(contours, cuts, j, fixed, alongX)
    ensures Swept(runs, false, cur, contours, cuts, j + 1, fixed, alongX)
  {
    hide Canonical, Covers, Matches, SampleFilled, EndsBefore, EndsAmong;
    Neighbours(cuts, j);
    LaterLimit(runs, cuts[j], cuts[j + 1]);
    MatchesEmptyCell(runs, contours, cuts, j, fixed, alongX);
  }

  /** After the last cell the open run, if any, is appended. */
  lemma SweepEnds(runs: seq<Run>, open: bool, cur: Run, contours: seq<Contour>, cuts: seq<real>, fixed: real,
                  alongX: bool)
    requires |cuts| >= 1 && Swept(runs, open, cur, contours, cuts, |cuts| - 1, fixed, alongX)
    ensures Canonical(WithOpen(runs, open, cur)) && EndsAmong(WithOpen(runs, open, cur), cuts)
    ensures Matches(WithOpen(runs, open, cur), contours, cuts, |cuts| - 1, fixed, alongX)
  {
    hide Canonical, Covers, Matches, EndsBefore, EndsAmong;
    if open {
      AppendRun(runs, cur);
      AppendEnds(runs, cur, cuts);
    }
  }

  /** The inner loop of both slab builders. */
  method SweepRow(contours: seq<Contour>, cuts: seq<real>, fixed: real, alongX: bool) returns (runs: seq<Run>)
    requires Increasing(cuts) && |cuts| >= 1
    ensures Canonical(runs) && Matches(runs, contours, cuts, |cuts| - 1, fixed, alongX)
    ensures EndsAmong(runs, cuts)
  {
    hide Canonical, Matches, EndsAmong, Filled, Increasing, Swept;
    runs := [];
    var open, cur := false, Run(0.0, 0.0);
    NoRuns(cur, contours, cuts, fixed, alongX);
    var j := 0;
    while j < |cuts| - 1
      invariant j <= |cuts| - 1
      invariant Swept(runs, open, cur, contours, cuts, j, fixed, alongX)
    {
      var x0, x1 := cuts[j], cuts[j + 1];
      var mid := (x0 + x1) / 2.0;
      var filled := FilledAt(contours, if alongX then mid else fixed, if alongX then fixed else mid);
      if filled {
        if !open {
          StepOpens(runs, cur, contours, cuts, j, fixed, alongX);
          open, cur := true, Run(x0, x1);
        } else {
          StepExtends(runs, cur, contours, cuts, j, fixed, alongX);
          cur := cur.(hi := x1);
        }
      } else if open {
        StepCloses(runs, cur, contours, cuts, j, fixed, alongX);
        runs := runs + [cur];
        open := false;
      } else {
        StepSkips(runs, cur, contours, cuts, j, fixed, alongX);
      }
      j := j + 1;
    }
    SweepEnds(runs, open, cur, contours, cuts, fixed, alongX);
    if open { runs := runs + [cur]; }
  }

  lemma OpenEnds(cuts: seq<real>, j: nat)
    requires j + 1 < |cuts|
    ensures EndsAmong([Run(cuts[j], cuts[j + 1])], cuts)
  {
  }

  lemma ExtendEnds(cur: Run, cuts: seq<real>, j: nat)
    requires EndsAmong([cur], cuts) && j < |cuts|
    ensures EndsAmong([cur.(hi := cuts[j])], cuts)
  {
    assert [cur][0] == cur;
  }

  lemma AppendEnds(runs: seq<Run>, cur: Run, cuts: seq<real>)
    requires EndsAmong(runs, cuts) && EndsAmong([cur], cuts)
    ensures EndsAmong(runs + [cur], cuts)
  {
    assert [cur][0] == cur;
  }

  lemma Neighbours(cuts: seq<real>, j: nat)
    requires Increasing(cuts) && j + 1 < |cuts|
    ensures cuts[j] < cuts[j + 1]
  {
  }

  lemma NoRuns(cur: Run, contours: seq<Contour>, cuts: seq<real>, fixed: real, alongX: bool)
    requires |cuts| >= 1
    ensures Swept([], false, cur, contours, cuts, 0, fixed, alongX)
  {
  }

  lemma OneMoreCell(contours: seq<Contour>, cuts: seq<real>, j: nat, fixed: real, alongX: bool, t: real)
    requires j + 1 < |cuts|
    ensures InFilledCell(contours, cuts, j + 1, fixed, alongX, t) <==>
            InFilledCell(contours, cuts, j, fixed, alongX, t)
            || (cuts[j] <= t < cuts[j + 1] && SampleFilled(contours, cuts, j, fixed, alongX))
  {
    hide SampleFilled;
    if InFilledCell(contours, cuts, j, fixed, alongX, t) {
      var i :| 0 <= i < j && cuts[i] <= t < cuts[i + 1] && SampleFilled(contours, cuts, i, fixed, alongX);
      assert 0 <= i < j + 1;
    }
  }

  lemma AppendRun(runs: seq<Run>, r: Run)
    requires Canonical(runs) && EndsBefore(runs, r.lo) && r.lo < r.hi
    ensures Canonical(runs + [r])
    ensures forall t: real :: Covers(runs + [r], t) <==> Covers(runs, t) || r.lo <= t < r.hi
  {
    forall t: real ensures Covers(runs + [r], t) <==> Covers(runs, t) || r.lo <= t < r.hi {
      CoversAppend(runs, r, t);
    }
  }

  lemma ExtendRun(runs: seq<Run>, cur: Run, hi: real)
    requires Canonical(runs) && EndsBefore(runs, cur.lo) && cur.lo < cur.hi < hi
    ensures Canonical(runs + [cur.(hi := hi)])
    ensures forall t: real :: Covers(runs + [cur.(hi := hi)], t)
                         <==> Covers(runs + [cur], t) || cur.hi <= t < hi
  {
    AppendRun(runs, cur);
    AppendRun(runs, cur.(hi := hi));
  }

  lemma CloseRun(runs: seq<Run>, cur: Run, limit: real)
    requires Canonical(runs) && EndsBefore(runs, cur.lo) && cur.lo < cur.hi < limit
    ensures EndsBefore(runs + [cur], limit)
  {
  }

  lemma LaterLimit(runs: seq<Run>, limit: real, later: real)
    requires EndsBefore(runs, limit) && limit < later
    ensures EndsBefore(runs, later)
  {
  }

  // ---------- the slabs ----------

  function AllAbscissas(contours: seq<Contour>): (r: seq<real>)
    ensures ListsAbscissas(r, contours)
  {
    if contours == [] then []
    else
      var last := contours[|contours| - 1];
      var r := AllAbscissas(contours[..|contours| - 1]) + seq(|last|, k requires 0 <= k < |last| => last[k].x);
      AbscissasListed(contours, r);
      r
  }

  lemma AbscissasListed(contours: seq<Contour>, r: seq<real>)
    requires contours != []
    requires var init, last := contours[..|contours| - 1], contours[|contours| - 1];
             exists head ::
               ListsAbscissas(head, init) && r == head + seq(|last|, k requires 0 <= k < |last| => last[k].x)
    ensures ListsAbscissas(r, contours)
  {
    var init, last := contours[..|contours| - 1], contours[|contours| - 1];
    var xs := seq(|last|, k requires 0 <= k < |last| => last[k].x);
    var head :| ListsAbscissas(head, init) && r == head + xs;
    forall i, k | 0 <= i < |contours| && 0 <= k < |contours[i]| ensures contours[i][k].x in r {
      if i == |contours| - 1 {
        assert xs[k] == contours[i][k].x;
      } else {
        assert init[i] == contours[i];
        assert init[i][k].x in head;
      }
    }
  }

  function AllOrdinates(contours: seq<Contour>): (r: seq<real>)
    ensures ListsOrdinates(r, contours)
  {
    if contours == [] then []
    else
      var last := contours[|contours| - 1];
      var r := AllOrdinates(contours[..|contours| - 1]) + seq(|last|, k requires 0 <= k < |last| => last[k].y);
      OrdinatesListed(contours, r);
      r
  }

  lemma OrdinatesListed(contours: seq<Contour>, r: seq<real>)
    requires contours != []
    requires var init, last := contours[..|contours| - 1], contours[|contours| - 1];
             exists head ::
               ListsOrdinates(head, init) && r == head + seq(|last|, k requires 0 <= k < |last| => last[k].y)
    ensures ListsOrdinates(r, contours)
  {
    var init, last := contours[..|contours| - 1], contours[|contours| - 1];
    var ys := seq(|last|, k requires 0 <= k < |last| => last[k].y);
    var head :| ListsOrdinates(head, init) && r == head + ys;
    forall i, k | 0 <= i < |contours| && 0 <= k < |contours[i]| ensures contours[i][k].y in r {
      if i == |contours| - 1 {
        assert ys[k] == contours[i][k].y;
      } else {
        assert init[i] == contours[i];
        assert init[i][k].y in head;
      }
    }
  }

  /** `sorted({x for poly in contours for x, _ in poly})` */
  function GridX(contours: seq<Contour>): (r: seq<real>)
    ensures Increasing(r) && ListsAbscissas(r, contours)
  {
    SortedDistinct(AllAbscissas(contours))
  }

  function GridY(contours: seq<Contour>): (r: seq<real>)
    ensures Increasing(r) && ListsOrdinates(r, contours)
  {
    SortedDistinct(AllOrdinates(contours))
  }

  /** A Y-slab tells the filled abscissas of every horizontal line through it, over the whole plane. */
  ghost predicate YSlabExact(contours: seq<Contour>, s: Slab) {
    && s.lo < s.hi && Canonical(s.runs)
    && forall x: real, y: real :: s.lo <= y < s.hi ==> (Filled(contours, x, y) <==> Covers(s.runs, x))
  }

  /** An X-slab tells the filled ordinates of every vertical line through it. */
  ghost predicate XSlabExact(contours: seq<Contour>, s: Slab) {
    && s.lo < s.hi && Canonical(s.runs)
    && forall x: real, y: real :: s.lo <= x < s.hi ==> (Filled(contours, x, y) <==> Covers(s.runs, y))
  }

  lemma NoAbscissaInGrid(contours: seq<Contour>, j: nat)
    requires j + 1 < |GridX(contours)|
    ensures NoAbscissaBetween(contours, GridX(contours)[j], GridX(contours)[j + 1])
  {
    var g := GridX(contours);
    forall i, k | 0 <= i < |contours| && 0 <= k < |contours[i]|
      ensures contours[i][k].x <= g[j] || g[j + 1] <= contours[i][k].x
    {
      NothingBetween(g, j, contours[i][k].x);
    }
  }

  lemma NoOrdinateInGrid(contours: seq<Contour>, j: nat)
    requires j + 1 < |GridY(contours)|
    ensures NoOrdinateBetween(contours, GridY(contours)[j], GridY(contours)[j + 1])
  {
    var g := GridY(contours);
    forall i, k | 0 <= i < |contours| && 0 <= k < |contours[i]|
      ensures contours[i][k].y <= g[j] || g[j + 1] <= contours[i][k].y
    {
      NothingBetween(g, j, contours[i][k].y);
    }
  }

  /** Outside the range of the grid nothing is filled. */
  lemma NothingFilledOffGridX(contours: seq<Contour>, x: real, y: real)
    requires AllAxisAligned(contours)
    requires var g := GridX(contours); |g| == 0 || x < g[0] || g[|g| - 1] <= x
    ensures !Filled(contours, x, y)
  {
    var g := GridX(contours);
    forall i | 0 <= i < |contours| ensures Beyond(contours[i], x, y) {
      forall k | 0 <= k < |contours[i]| ensures |g| > 0 && g[0] <= contours[i][k].x <= g[|g| - 1] {
        InRange(g, contours[i][k].x);
      }
    }
    NothingFilledBeyond(contours, x, y, |contours|);
  }

  lemma NothingFilledOffGridY(contours: seq<Contour>, x: real, y: real)
    requires AllAxisAligned(contours)
    requires var g := GridY(contours); |g| == 0 || y < g[0] || g[|g| - 1] <= y
    ensures !Filled(contours, x, y)
  {
    var g := GridY(contours);
    forall i | 0 <= i < |contours| ensures Beyond(contours[i], x, y) {
      forall k | 0 <= k < |contours[i]| ensures |g| > 0 && g[0] <= contours[i][k].y <= g[|g| - 1] {
        InRange(g, contours[i][k].y);
      }
    }
    NothingFilledBeyond(contours, x, y, |contours|);
  }

  lemma InRange(g: seq<real>, v: real)
    requires Increasing(g) && v in g
    ensures |g| > 0 && g[0] <= v <= g[|g| - 1]
  {
    var k :| 0 <= k < |g| && g[k] == v;
  }

  /** The samples along one midline describe the whole Y-slab. */
  lemma SweepDescribesYSlab(contours: seq<Contour>, i: nat, runs: seq<Run>)
    requires AllAxisAligned(contours) && i + 1 < |GridY(contours)| && |GridX(contours)| >= 1 && Canonical(runs)
    requires var ym := (GridY(contours)[i] + GridY(contours)[i + 1]) / 2.0;
             Matches(runs, contours, GridX(contours), |GridX(contours)| - 1, ym, true)
    ensures YSlabExact(contours, Slab(GridY(contours)[i], GridY(contours)[i + 1], runs))
  {
    hide GridX, GridY, Filled, Canonical, Covers;
    var xs, ys := GridX(contours), GridY(contours);
    var ym := (ys[i] + ys[i + 1]) / 2.0;
    Neighbours(ys, i);
    NoOrdinateInGrid(contours, i);
    forall x: real, y: real | ys[i] <= y < ys[i + 1] ensures Filled(contours, x, y) <==> Covers(runs, x) {
      if x < xs[0] || xs[|xs| - 1] <= x {
        NothingFilledOffGridX(contours, x, y);
        OffGridNotInCell(contours, xs, ym, true, x);
      } else {
        var j := Locate(xs, x);
        CellIsUnique(contours, xs, j, ym, true, x);
        Neighbours(xs, j);
        NoAbscissaInGrid(contours, j);
        FilledConstantOnCell(contours, xs[j], xs[j + 1], ys[i], ys[i + 1], x, y, (xs[j] + xs[j + 1]) / 2.0, ym);
      }
    }
  }

  lemma SweepDescribesXSlab(contours: seq<Contour>, j: nat, runs: seq<Run>)
    requires AllAxisAligned(contours) && j + 1 < |GridX(contours)| && |GridY(contours)| >= 1 && Canonical(runs)
    requires var xm := (GridX(contours)[j] + GridX(contours)[j + 1]) / 2.0;
             Matches(runs, contours, GridY(contours), |GridY(contours)| - 1, xm, false)
    ensures XSlabExact(contours, Slab(GridX(contours)[j], GridX(contours)[j + 1], runs))
  {
    hide GridX, GridY, Filled, Canonical, Covers;
    var xs, ys := GridX(contours), GridY(contours);
    var xm := (xs[j] + xs[j + 1]) / 2.0;
    Neighbours(xs, j);
    NoAbscissaInGrid(contours, j);
    forall x: real, y: real | xs[j] <= x < xs[j + 1] ensures Filled(contours, x, y) <==> Covers(runs, y) {
      if y < ys[0] || ys[|ys| - 1] <= y {
        NothingFilledOffGridY(contours, x, y);
        OffGridNotInCell(contours, ys, xm, false, y);
      } else {
        var i := Locate(ys, y);
        CellIsUnique(contours, ys, i, xm, false, y);
        Neighbours(ys, i);
        NoOrdinateInGrid(contours, i);
        FilledConstantOnCell(contours, xs[j], xs[j + 1], ys[i], ys[i + 1], x, y, xm, (ys[i] + ys[i + 1]) / 2.0);
      }
    }
  }

  lemma OffGridNotInCell(contours: seq<Contour>, cuts: seq<real>, fixed: real, alongX: bool, t: real)
    requires Increasing(cuts) && |cuts| >= 1 && (t < cuts[0] || cuts[|cuts| - 1] <= t)
    ensures !InFilledCell(contours, cuts, |cuts| - 1, fixed, alongX, t)
  {
    hide SampleFilled;
  }

  lemma CellIsUnique(contours: seq<Contour>, cuts: seq<real>, j: nat, fixed: real, alongX: bool, t: real)
    requires Increasing(cuts) && j + 1 < |cuts| && cuts[j] <= t < cuts[j + 1]
    ensures InFilledCell(contours, cuts, |cuts| - 1, fixed, alongX, t)
       <==> SampleFilled(contours, cuts, j, fixed, alongX)
  {
    hide SampleFilled;
    if InFilledCell(contours, cuts, |cuts| - 1, fixed, alongX, t) {
      var i :| 0 <= i < |cuts| - 1 && cuts[i] <= t < cuts[i + 1] && SampleFilled(contours, cuts, i, fixed, alongX);
      CellsAreDisjoint(cuts, i, j, t);
    }
  }

  lemma CellsAreDisjoint(cuts: seq<real>, i: nat, j: nat, t: real)
    requires Increasing(cuts) && i + 1 < |cuts| && j + 1 < |cuts|
    requires cuts[i] <= t < cuts[i + 1] && cuts[j] <= t < cuts[j + 1]
    ensures i == j
  {
  }

  /** `_build_y_slab_intervals`: one slab between each two neighbouring ordinates, each exact. */
  method BuildYSlabs(contours: seq<Contour>) returns (slabs: seq<Slab>)
    requires AllAxisAligned(contours)
    ensures var ys := GridY(contours);
            && |slabs| == (if |ys| == 0 then 0 else |ys| - 1)
            && forall i :: 0 <= i < |slabs| ==> slabs[i].lo == ys[i] && slabs[i].hi == ys[i + 1]
    ensures forall i :: 0 <= i < |slabs| ==> YSlabExact(contours, slabs[i]) && EndsAmong(slabs[i].runs, GridX(contours))
  {
    hide EndsAmong, GridX, GridY, YSlabExact, Canonical, Covers, InFilledCell, AllAxisAligned;
    var ys, xs := GridY(contours), GridX(contours);
    slabs := [];
    var i := 0;
    while i < |ys| - 1
      invariant i <= (if |ys| == 0 then 0 else |ys| - 1) && |slabs| == i
      invariant forall k :: 0 <= k < i ==> slabs[k].lo == ys[k] && slabs[k].hi == ys[k + 1]
      invariant forall k :: 0 <= k < i ==> YSlabExact(contours, slabs[k]) && EndsAmong(slabs[k].runs, xs)
    {
      var ym := (ys[i] + ys[i + 1]) / 2.0;
      GridsTogether(contours);
      var runs := SweepRow(contours, xs, ym, true);
      SweepDescribesYSlab(contours, i, runs);
      slabs := slabs + [Slab(ys[i], ys[i + 1], runs)];
      i := i + 1;
    }
  }

  /** `_build_x_slab_intervals` */
  method BuildXSlabs(contours: seq<Contour>) returns (slabs: seq<Slab>)
    requires AllAxisAligned(contours)
    ensures var xs := GridX(contours);
            && |slabs| == (if |xs| == 0 then 0 else |xs| - 1)
            && forall j :: 0 <= j < |slabs| ==> slabs[j].lo == xs[j] && slabs[j].hi == xs[j + 1]
    ensures forall j :: 0 <= j < |slabs| ==> XSlabExact(contours, slabs[j]) && EndsAmong(slabs[j].runs, GridY(contours))
  {
    hide EndsAmong, GridX, GridY, XSlabExact, Canonical, Covers, InFilledCell, AllAxisAligned;
    var ys, xs := GridY(contours), GridX(contours);
    slabs := [];
    var j := 0;
    while j < |xs| - 1
      invariant j <= (if |xs| == 0 then 0 else |xs| - 1) && |slabs| == j
      invariant forall k :: 0 <= k < j ==> slabs[k].lo == xs[k] && slabs[k].hi == xs[k + 1]
      invariant forall k :: 0 <= k < j ==> XSlabExact(contours, slabs[k]) && EndsAmong(slabs[k].runs, ys)
    {
      var xm := (xs[j] + xs[j + 1]) / 2.0;
      GridsTogether(contours);
      var runs := SweepRow(contours, ys, xm, false);
      SweepDescribesXSlab(contours, j, runs);
      slabs := slabs + [Slab(xs[j], xs[j + 1], runs)];
      j := j + 1;
    }
  }

  /** One grid is empty only if the other is. */
  lemma {:induction false} GridsTogether(contours: seq<Contour>)
    ensures |GridX(contours)| >= 1 <==> |GridY(contours)| >= 1
  {
    SameLengthLists(contours);
    EmptyOnlyFromEmpty(AllAbscissas(contours));
    EmptyOnlyFromEmpty(AllOrdinates(contours));
  }

  lemma EmptyOnlyFromEmpty(values: seq<real>)
    ensures |SortedDistinct(values)| >= 1 <==> |values| >= 1
  {
    if |values| >= 1 { assert values[0] in SortedDistinct(values); }
  }

  lemma {:induction false} SameLengthLists(contours: seq<Contour>)
    ensures |AllAbscissas(contours)| == |AllOrdinates(contours)|
  {
    if contours == [] {
    } else {
      SameLengthLists(contours[..|contours| - 1]);
    }
  }
}
