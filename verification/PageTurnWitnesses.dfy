/**
 Concrete runs of the page-turn protocol: what the bug knobs break, where the
 convergence bound is tight, and the one dead end an abort can cause.
 */
module PageTurnWitnesses {

  import opened Coordinator
  import opened Panel
  import opened Reader
  import opened PageTurn

  function BookOf(policy: Policy): Config { Config(policy, 16, 10) }

  /** Prepending a step to a run. */
  lemma Prepend(cfg: Config, w: World, e: Event, es: seq<Event>)
    requires Enabled(w, e) && ValidRun(cfg, Step(cfg, w, e), es)
    ensures ValidRun(cfg, w, [e] + es)
    ensures Run(cfg, w, [e] + es) == Run(cfg, Step(cfg, w, e), es)
    ensures Commits(cfg, w, [e] + es)
         == (if IsCommit(w, e) then 1 else 0) + Commits(cfg, Step(cfg, w, e), es)
  {
    assert ([e] + es)[1..] == es;
  }

  lemma {:induction false} Concatenate(cfg: Config, w: World, a: seq<Event>, b: seq<Event>)
    requires ValidRun(cfg, w, a) && ValidRun(cfg, Run(cfg, w, a), b)
    ensures ValidRun(cfg, w, a + b) && Run(cfg, w, a + b) == Run(cfg, Run(cfg, w, a), b)
    ensures Commits(cfg, w, a + b) == Commits(cfg, w, a) + Commits(cfg, Run(cfg, w, a), b)
    decreases |a|
  {
    hide Step, Enabled, IsCommit;
    if a == [] {
      assert a + b == b;
    } else {
      Concatenate(cfg, Step(cfg, w, a[0]), a[1..], b);
      assert (a + b)[1..] == a[1..] + b;
      assert (a + b)[0] == a[0];
    }
  }

  /** A run of four steps, one by one. */
  lemma FourSteps(cfg: Config, w: World, a: Event, b: Event, c: Event, d: Event, w1: World, w2: World, w3: World)
    requires Enabled(w, a) && Step(cfg, w, a) == w1
    requires Enabled(w1, b) && Step(cfg, w1, b) == w2
    requires Enabled(w2, c) && Step(cfg, w2, c) == w3
    requires Enabled(w3, d)
    ensures ValidRun(cfg, w, [a, b, c, d]) && Run(cfg, w, [a, b, c, d]) == Step(cfg, w3, d)
    ensures Commits(cfg, w, [a, b, c, d])
         == (if IsCommit(w, a) then 1 else 0) + (if IsCommit(w1, b) then 1 else 0)
          + (if IsCommit(w2, c) then 1 else 0) + (if IsCommit(w3, d) then 1 else 0)
  {
    hide Step, Enabled, IsCommit;
    Prepend(cfg, w3, d, []);
    Prepend(cfg, w2, c, [d]);
    Prepend(cfg, w1, b, [c] + [d]);
    Prepend(cfg, w, a, [b] + ([c] + [d]));
    assert [a] + ([b] + ([c] + [d])) == [a, b, c, d];
  }

  /** The three steps that bring one frame to the glass. */
  const SHOW: seq<Event> := [Tick, PageDone(0, true), Complete(0)]

  /** An idle reader with nothing outstanding, about to render `target`. */
  ghost predicate ReadyToShow(cfg: Config, w: World) {
    && !w.panel.busy && !w.inFlight && w.pageReads == [] && w.panel.scheduled == [] && w.coord.armed
    && w.indexComplete && !w.panel.pending.valid
  }

  function FrameOf(w: World): Frame {
    var page, generation := w.coord.target, w.generation + 1;
    Frame(Tag(generation, 0, page, FrameHash(page, generation)), true)
  }

  function Shown(cfg: Config, w: World): World {
    var f := FrameOf(w);
    w.(coord := Committed(RenderStarted(w.coord), cfg.policy, w.coord.target),
       generation := w.generation + 1,
       panel := w.panel.(renderFB := f.(valid := false), pending := f.(valid := false), physical := f,
                         token := w.panel.token + 1))
  }

  lemma ShowRun(cfg: Config, w: World)
    requires ReadyToShow(cfg, w)
    ensures ValidRun(cfg, w, SHOW) && Run(cfg, w, SHOW) == Shown(cfg, w) && Commits(cfg, w, SHOW) == 1
  {
    hide FrameHash;
    var w1 := Step(cfg, w, Tick);
    assert w1.pageReads == [PageRead(w.coord.target, w.generation + 1)];
    var w2 := Step(cfg, w1, PageDone(0, true));
    assert w2.pageReads == [];
    assert w2.panel.scheduled == [Completion(w.panel.token + 1, w.coord.target)];
    var w3 := Step(cfg, w2, Complete(0));
    assert w3.panel.scheduled == [];
    assert w3 == Shown(cfg, w);
    Prepend(cfg, w2, Complete(0), []);
    Prepend(cfg, w1, PageDone(0, true), [Complete(0)]);
    Prepend(cfg, w, Tick, [PageDone(0, true), Complete(0)]);
    assert [PageDone(0, true)] + [Complete(0)] == [PageDone(0, true), Complete(0)];
    assert [Tick] + [PageDone(0, true), Complete(0)] == SHOW;
  }

  /** Opening a ten-page book and showing its first page. */
  const OPEN: seq<Event> := [Tick, IndexDone(true)]

  function Indexed(cfg: Config): World {
    Opened(cfg).(indexCursor := 10, indexComplete := true)
  }

  lemma OpenRun(policy: Policy)
    ensures var cfg := BookOf(policy);
            ValidRun(cfg, Opened(cfg), OPEN) && Run(cfg, Opened(cfg), OPEN) == Indexed(cfg)
            && Commits(cfg, Opened(cfg), OPEN) == 0
  {
    var cfg := BookOf(policy);
    var w := Opened(cfg);
    var w1 := Step(cfg, w, Tick);
    assert w1 == w.(indexReads := 1);
    Prepend(cfg, w1, IndexDone(true), []);
    Prepend(cfg, w, Tick, [IndexDone(true)]);
    assert [Tick] + [IndexDone(true)] == OPEN;
  }

  /** The first page is on the glass. */
  function FirstPage(cfg: Config): World { Shown(cfg, Indexed(cfg)) }

  lemma FirstPageRun(policy: Policy)
    ensures var cfg := BookOf(policy);
            ValidRun(cfg, Opened(cfg), OPEN + SHOW) && Run(cfg, Opened(cfg), OPEN + SHOW) == FirstPage(cfg)
  {
    var cfg := BookOf(policy);
    OpenRun(policy);
    ShowRun(cfg, Indexed(cfg));
    Concatenate(cfg, Opened(cfg), OPEN, SHOW);
  }

  // ---------- one tap may cost two refreshes ----------

  /** A frame shown while a display tick falls into its page read. */
  const SHOW_TICKED: seq<Event> := [Tick, Tick, PageDone(0, true), Complete(0)]

  lemma ShowTickedRun(cfg: Config, w: World)
    requires ReadyToShow(cfg, w) && w.coord.firstShown && w.coord.target != w.coord.physical && Production(cfg)
    ensures ValidRun(cfg, w, SHOW_TICKED) && Commits(cfg, w, SHOW_TICKED) == 1
    ensures Run(cfg, w, SHOW_TICKED) == Shown(cfg, w).(coord := Shown(cfg, w).coord.(armed := true))
  {
    hide FrameHash;
    var w1 := Step(cfg, w, Tick);
    assert w1.pageReads == [PageRead(w.coord.target, w.generation + 1)];
    var w2 := Step(cfg, w1, Tick);
    assert w2 == w1.(coord := w1.coord.(armed := true));
    var w3 := Step(cfg, w2, PageDone(0, true));
    assert w3.pageReads == [];
    assert w3.panel.scheduled == [Completion(w.panel.token + 1, w.coord.target)];
    var w4 := Step(cfg, w3, Complete(0));
    assert w4.panel.scheduled == [];
    FourSteps(cfg, w, Tick, Tick, PageDone(0, true), Complete(0), w1, w2, w3);
  }

  /** The display tick re-arms while the page read of the very target is under
      way, so a single tap on a settled reader refreshes the same page twice. */
  lemma OneTapTwoRefreshes(w: World, now: nat, page: int)
    requires var cfg := BookOf(PRODUCTION);
             Quiet(w) && w.pageReads == [] && w.panel.scheduled == [] && w.indexComplete && !w.panel.pending.valid
             && 0 <= page < 10 && page != w.coord.target && !IsQuick(w.coord, PRODUCTION, now, false)
    ensures var cfg := BookOf(PRODUCTION);
            var es := [Tap(now, page)] + (SHOW_TICKED + SHOW);
            && ValidRun(cfg, w, es) && Commits(cfg, w, es) == 2 && Quiet(Run(cfg, w, es))
            && Run(cfg, w, es).coord.physical == page
  {
    hide FrameHash;
    var cfg := BookOf(PRODUCTION);
    var w1 := Step(cfg, w, Tap(now, page));
    ShowTickedRun(cfg, w1);
    var w2 := Run(cfg, w1, SHOW_TICKED);
    ShowRun(cfg, w2);
    Concatenate(cfg, w1, SHOW_TICKED, SHOW);
    Prepend(cfg, w, Tap(now, page), SHOW_TICKED + SHOW);
  }

  // ---------- three commits after the last tap ----------

  const TWO_TAPS: seq<Event> := [Tap(1000, 1), Tick, Tap(1010, 2)]

  function AfterTwoTaps(): World {
    var w := FirstPage(BookOf(PRODUCTION));
    var c := RenderStarted(Tapped(w.coord, PRODUCTION, 1000, false, 1));
    w.(coord := Tapped(c, PRODUCTION, 1010, false, 2), generation := 2, inFlight := true,
       pageReads := [PageRead(1, 2)])
  }

  lemma TwoTapsRun()
    ensures var cfg := BookOf(PRODUCTION);
            && ValidRun(cfg, Opened(cfg), OPEN + SHOW + TWO_TAPS)
            && Run(cfg, Opened(cfg), OPEN + SHOW + TWO_TAPS) == AfterTwoTaps()
  {
    hide FrameHash;
    var cfg := BookOf(PRODUCTION);
    FirstPageRun(PRODUCTION);
    var w0 := FirstPage(cfg);
    var w1 := Step(cfg, w0, Tap(1000, 1));
    var w2 := Step(cfg, w1, Tick);
    assert w2.pageReads == [PageRead(1, 2)];
    assert Step(cfg, w2, Tap(1010, 2)) == AfterTwoTaps();
    Prepend(cfg, w2, Tap(1010, 2), []);
    Prepend(cfg, w1, Tick, [Tap(1010, 2)]);
    Prepend(cfg, w0, Tap(1000, 1), [Tick] + [Tap(1010, 2)]);
    assert [Tap(1000, 1)] + ([Tick] + [Tap(1010, 2)]) == TWO_TAPS;
    Concatenate(cfg, Opened(cfg), OPEN + SHOW, TWO_TAPS);
  }

  const LAND: seq<Event> := [PageDone(0, true), Complete(0)]

  /** The first of the two pages lands; the reader is idle and armed for the second. */
  lemma FirstPageLands()
    ensures var cfg := BookOf(PRODUCTION);
            && ValidRun(cfg, AfterTwoTaps(), LAND) && Commits(cfg, AfterTwoTaps(), LAND) == 1
            && var w := Run(cfg, AfterTwoTaps(), LAND);
               ReadyToShow(cfg, w) && w.coord.firstShown && w.coord.target == 2 && w.coord.physical == 1
  {
    hide FrameHash;
    var cfg := BookOf(PRODUCTION);
    var w3 := AfterTwoTaps();
    var w4 := Step(cfg, w3, PageDone(0, true));
    assert w4.pageReads == [];
    assert w4.panel.scheduled == [Completion(2, 1)];
    var w5 := Step(cfg, w4, Complete(0));
    assert w5.panel.scheduled == [];
    Prepend(cfg, w4, Complete(0), []);
    Prepend(cfg, w3, PageDone(0, true), [Complete(0)]);
    assert [PageDone(0, true)] + [Complete(0)] == LAND;
  }

  /** From a diverged, armed reader a ticked render and its repetition: two commits. */
  lemma TwoMoreCommits(w: World)
    requires var cfg := BookOf(PRODUCTION);
             ReadyToShow(cfg, w) && w.coord.firstShown && w.coord.target != w.coord.physical
    ensures var cfg := BookOf(PRODUCTION);
            && ValidRun(cfg, w, SHOW_TICKED + SHOW) && Commits(cfg, w, SHOW_TICKED + SHOW) == 2
            && Quiet(Run(cfg, w, SHOW_TICKED + SHOW))
  {
    hide FrameHash;
    var cfg := BookOf(PRODUCTION);
    ShowTickedRun(cfg, w);
    ShowRun(cfg, Run(cfg, w, SHOW_TICKED));
    Concatenate(cfg, w, SHOW_TICKED, SHOW);
  }

  /** Two taps, the second during the page read of the first, with display ticks in
      the later page read: three commits follow the last tap, so the bound is tight. */
  lemma ThreeCommitsAfterLastTap() returns (before: seq<Event>, after: seq<Event>)
    ensures var cfg := BookOf(PRODUCTION);
            && ValidRun(cfg, Opened(cfg), before) && ValidRun(cfg, Run(cfg, Opened(cfg), before), after)
            && (forall i :: 0 <= i < |after| ==> AfterLastTap(after[i]))
            && Commits(cfg, Run(cfg, Opened(cfg), before), after) == 3
            && Quiet(Run(cfg, Run(cfg, Opened(cfg), before), after))
  {
    hide Opened, AfterTwoTaps, Run, Commits, ValidRun, ReadyToShow, Quiet;
    var cfg := BookOf(PRODUCTION);
    before := OPEN + SHOW + TWO_TAPS;
    after := LAND + (SHOW_TICKED + SHOW);
    TwoTapsRun();
    FirstPageLands();
    TwoMoreCommits(Run(cfg, AfterTwoTaps(), LAND));
    Concatenate(cfg, AfterTwoTaps(), LAND, SHOW_TICKED + SHOW);
  }

  // ---------- the bug knobs ----------

  /** First page shown, a turn to page 1 under way, and a tap to page 2 during BUSY. */
  const BUSY_TAP: seq<Event> := [Tap(1000, 1), Tick, PageDone(0, true), Tap(1001, 2), Complete(0)]

  function AfterBusyTap(cfg: Config): World {
    var w := FirstPage(cfg);
    var c1 := RenderStarted(Tapped(w.coord, cfg.policy, 1000, false, 1));
    var c2 := Committed(Tapped(c1, cfg.policy, 1001, true, 2), cfg.policy, 1);
    var f := Frame(Tag(2, 0, 1, FrameHash(1, 2)), true);
    w.(coord := c2, generation := 2,
       panel := w.panel.(renderFB := f.(valid := false), pending := f.(valid := false), physical := f, token := 2))
  }

  lemma BusyTapRun(policy: Policy)
    ensures var cfg := BookOf(policy);
            && ValidRun(cfg, Opened(cfg), OPEN + SHOW + BUSY_TAP)
            && Run(cfg, Opened(cfg), OPEN + SHOW + BUSY_TAP) == AfterBusyTap(cfg)
  {
    hide FrameHash, Run, ValidRun, Commits, IsCommit;
    var cfg := BookOf(policy);
    FirstPageRun(policy);
    var w0 := FirstPage(cfg);
    var w1 := Step(cfg, w0, Tap(1000, 1));
    var w2 := Step(cfg, w1, Tick);
    assert w2.pageReads == [PageRead(1, 2)];
    var w3 := Step(cfg, w2, PageDone(0, true));
    assert w3.pageReads == [] && w3.panel.scheduled == [Completion(2, 1)];
    var w4 := Step(cfg, w3, Tap(1001, 2));
    var w5 := Step(cfg, w4, Complete(0));
    assert w5.panel.scheduled == [];
    assert w5 == AfterBusyTap(cfg);
    FourSteps(cfg, w1, Tick, PageDone(0, true), Tap(1001, 2), Complete(0), w2, w3, w4);
    Prepend(cfg, w0, Tap(1000, 1), [Tick, PageDone(0, true), Tap(1001, 2), Complete(0)]);
    assert [Tap(1000, 1)] + [Tick, PageDone(0, true), Tap(1001, 2), Complete(0)] == BUSY_TAP;
    Concatenate(cfg, Opened(cfg), OPEN + SHOW, BUSY_TAP);
  }

  /** Without catch-up the tap is lost: the reader is idle with nothing outstanding,
      shows another page than the target, and no display tick changes that. */
  lemma NoCatchupLosesTheTap()
    ensures var cfg := BookOf(PRODUCTION.(bugNoCatchup := true));
            ValidRun(cfg, Opened(cfg), OPEN + SHOW + BUSY_TAP)
    ensures var cfg := BookOf(PRODUCTION.(bugNoCatchup := true));
            var w := Run(cfg, Opened(cfg), OPEN + SHOW + BUSY_TAP);
            && !w.panel.busy && !w.inFlight && w.pageReads == [] && w.panel.scheduled == [] && w.indexReads == 0
            && w.coord.target == 2 && w.coord.physical == 1
            && Ticked(cfg, w) == w
  {
    hide FrameHash;
    BusyTapRun(PRODUCTION.(bugNoCatchup := true));
  }

  /** With the live-page bug the same run records a page the glass does not show. */
  lemma LivePhysicalDiverges()
    ensures var cfg := BookOf(PRODUCTION.(bugLivePhysical := true));
            ValidRun(cfg, Opened(cfg), OPEN + SHOW + BUSY_TAP)
    ensures var cfg := BookOf(PRODUCTION.(bugLivePhysical := true));
            var w := Run(cfg, Opened(cfg), OPEN + SHOW + BUSY_TAP);
            w.coord.physical == 2 && w.panel.physical.tag.page == 1
  {
    hide FrameHash;
    BusyTapRun(PRODUCTION.(bugLivePhysical := true));
  }

  /** In production the same run is caught up by the next tick. */
  lemma ProductionCatchesUp()
    ensures var cfg := BookOf(PRODUCTION);
            ValidRun(cfg, Opened(cfg), OPEN + SHOW + BUSY_TAP)
    ensures var cfg := BookOf(PRODUCTION);
            var w := Ticked(cfg, Run(cfg, Opened(cfg), OPEN + SHOW + BUSY_TAP));
            w.inFlight && w.coord.pending == 2
  {
    hide FrameHash;
    BusyTapRun(PRODUCTION);
  }

  /** An abort of the very first refresh leaves the dead end. */
  lemma AbortedFirstFrameIsStuck()
    ensures var cfg := BookOf(PRODUCTION);
            var es := OPEN + [Tick, PageDone(0, true), Abort, Complete(0)];
            && ValidRun(cfg, Opened(cfg), es) && !Alive(Run(cfg, Opened(cfg), es))
            && Ticked(cfg, Run(cfg, Opened(cfg), es)) == Run(cfg, Opened(cfg), es)
  {
    hide FrameHash, Run, ValidRun, Commits, IsCommit;
    var cfg := BookOf(PRODUCTION);
    OpenRun(PRODUCTION);
    var w0 := Indexed(cfg);
    var w1 := Step(cfg, w0, Tick);
    assert w1.pageReads == [PageRead(0, 1)];
    var w2 := Step(cfg, w1, PageDone(0, true));
    assert w2.panel.scheduled == [Completion(1, 0)];
    var w3 := Step(cfg, w2, Abort);
    var w4 := Step(cfg, w3, Complete(0));
    FourSteps(cfg, w0, Tick, PageDone(0, true), Abort, Complete(0), w1, w2, w3);
    Concatenate(cfg, Opened(cfg), OPEN, [Tick, PageDone(0, true), Abort, Complete(0)]);
  }
}
