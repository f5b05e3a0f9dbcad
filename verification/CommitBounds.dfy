/**
 How many commits can follow the last tap, exactly.  The promise of
 simulator/core/PageTurnCoordinator.h is one render and one catch-up; with the driver of
 simulator/model/ReaderModel.h a display tick during a page read can arm a third.
 */
module CommitBounds {

  import opened Panel
  import opened Reader
  import opened PageTurn

  /** A display tick can still arm a refresh of the very page that is being read. */
  predicate CanArmAgain(w: World)
    requires w.inFlight ==> |w.pageReads| > 0
  {
    && !w.panel.busy && w.inFlight && w.pageReads[0].page == w.coord.target
    && !w.coord.armed && w.coord.firstShown && w.coord.target != w.coord.physical
  }

  /** The step that wastes nothing: the ticks that arm once more, then the awaited step. */
  ghost predicate Greedy(w: World, e: Event)
    requires w.inFlight ==> |w.pageReads| > 0
  {
    if !CanArmAgain(w) then MovesOn(w, e)
    else if Deficit(w) > 0 && w.indexReads > 0 then e == IndexDone(true)
    else e == Tick
  }

  lemma SomethingGreedy(w: World) returns (e: Event)
    requires Inv(w)
    ensures Greedy(w, e) && Enabled(w, e) && AfterLastTap(e)
  {
    if !CanArmAgain(w) { e := SomethingMovesOn(w); }
    else if Deficit(w) > 0 && w.indexReads > 0 { e := IndexDone(true); }
    else { e := Tick; }
  }

  /** A greedy step uses up nothing but the commits it makes. */
  lemma GreedyIsExact(cfg: Config, w: World, e: Event)
    requires Production(cfg) && Inv(w) && Ahead(w) > 0 && Greedy(w, e) && Enabled(w, e)
    ensures Inv(Step(cfg, w, e))
    ensures Ahead(Step(cfg, w, e)) + (if IsCommit(w, e) then 1 else 0) == Ahead(w)
  {
    StepKeepsInv(cfg, w, e);
    hide PanelOk, FrameHash, Ticked, PageLoaded, BusyEnded, IndexAdvanced;
    match e
    case Tick => GreedyTick(cfg, w);
    case IndexDone(ok) => IndexChangesNothing(cfg, w, ok);
    case PageDone(k, ok) => GreedyPage(cfg, w);
    case Complete(k) => GreedyCommit(cfg, w, k);
  }

  lemma GreedyTick(cfg: Config, w: World)
    requires Production(cfg) && Inv(w) && Inv(Ticked(cfg, w)) && Ahead(w) > 0 && Greedy(w, Tick)
    ensures Ahead(Ticked(cfg, w)) == Ahead(w)
  {
    hide PanelOk, FrameHash;
  }

  lemma IndexChangesNothing(cfg: Config, w: World, ok: bool)
    requires Inv(w) && w.indexReads > 0
    ensures var after := IndexAdvanced(cfg, w, ok);
            && after.coord == w.coord && after.panel == w.panel
            && after.inFlight == w.inFlight && after.pageReads == w.pageReads
  {
    hide PanelOk;
  }

  lemma GreedyPage(cfg: Config, w: World)
    requires Production(cfg) && Inv(w) && Enabled(w, PageDone(0, true)) && w.inFlight && !CanArmAgain(w)
    requires Inv(PageLoaded(w, 0, true))
    ensures Ahead(PageLoaded(w, 0, true)) == Ahead(w)
  {
    hide PanelOk, FrameHash;
    SubmitIsNeverRefused(w, 0, Tag(0, 0, 0, 0));
  }

  lemma GreedyCommit(cfg: Config, w: World, k: nat)
    requires Production(cfg) && Inv(w) && w.panel.busy && EndsBusy(w.panel, k) && Inv(BusyEnded(cfg, w, k))
    ensures IsCommit(w, Complete(k)) && Ahead(BusyEnded(cfg, w, k)) + 1 == Ahead(w)
  {
    CompletedIsOk(w.panel, k);
    hide PanelOk;
  }

  datatype Measure = Measure(ahead: nat, stage: nat, again: nat, deficit: nat, waiting: nat)

  function MeasureOf(w: World): Measure
    requires w.inFlight ==> |w.pageReads| > 0
  {
    Measure(Ahead(w), if w.panel.busy then 0 else if w.inFlight then 1 else 2, if CanArmAgain(w) then 1 else 0,
            Deficit(w), if Deficit(w) > 0 && w.indexReads == 0 then 1 else 0)
  }

  predicate Smaller(a: Measure, b: Measure) {
    || a.ahead < b.ahead
    || (a.ahead == b.ahead && a.stage < b.stage)
    || (a.ahead == b.ahead && a.stage == b.stage && a.again < b.again)
    || (a.ahead == b.ahead && a.stage == b.stage && a.again == b.again && a.deficit < b.deficit)
    || (a.ahead == b.ahead && a.stage == b.stage && a.again == b.again && a.deficit == b.deficit
        && a.waiting < b.waiting)
  }

  lemma GreedyEnds(cfg: Config, w: World, e: Event)
    requires Production(cfg) && cfg.slicePages > 0 && Inv(w) && Ahead(w) > 0 && Greedy(w, e) && Enabled(w, e)
    ensures Inv(Step(cfg, w, e)) && Smaller(MeasureOf(Step(cfg, w, e)), MeasureOf(w))
  {
    GreedyIsExact(cfg, w, e);
    hide PanelOk, FrameHash;
    match e
    case Tick =>
    case IndexDone(_) =>
    case PageDone(k, ok) =>
      SubmitIsNeverRefused(w, k, Tag(0, 0, 0, 0));
    case Complete(k) =>
      CompletedIsOk(w.panel, k);
  }

  /** The bound is reached from every state: some run after the last tap makes exactly
      `Ahead` commits. */
  lemma {:induction false} AheadIsReached(cfg: Config, w: World) returns (es: seq<Event>)
    requires Production(cfg) && cfg.slicePages > 0 && Inv(w)
    ensures ValidRun(cfg, w, es) && Commits(cfg, w, es) == Ahead(w)
    ensures forall i :: 0 <= i < |es| ==> AfterLastTap(es[i])
    decreases MeasureOf(w).ahead, MeasureOf(w).stage, MeasureOf(w).again, MeasureOf(w).deficit, MeasureOf(w).waiting
  {
    if Ahead(w) == 0 {
      es := [];
    } else {
      hide Ahead, Inv, Greedy, IsCommit, AfterLastTap;
      var e := SomethingGreedy(w);
      GreedyIsExact(cfg, w, e);
      GreedyEnds(cfg, w, e);
      var rest := AheadIsReached(cfg, Step(cfg, w, e));
      es := [e] + rest;
      assert es[1..] == rest;
    }
  }

  /** No run from here without another tap or an abort makes more than `n` commits. */
  ghost predicate AtMost(cfg: Config, w: World, n: nat) {
    forall es: seq<Event> ::
      ValidRun(cfg, w, es) && (forall i :: 0 <= i < |es| ==> AfterLastTap(es[i])) ==> Commits(cfg, w, es) <= n
  }

  /** `Ahead` is the exact bound, in every state. */
  lemma AheadIsExact(cfg: Config, w: World, n: nat)
    requires Production(cfg) && cfg.slicePages > 0 && Inv(w)
    ensures AtMost(cfg, w, n) <==> Ahead(w) <= n
  {
    hide Ahead, PanelOk;
    if Ahead(w) <= n {
      forall es: seq<Event> | ValidRun(cfg, w, es) && forall i :: 0 <= i < |es| ==> AfterLastTap(es[i])
        ensures Commits(cfg, w, es) <= n
      {
        CommitsAreBounded(cfg, w, es);
      }
    }
    if AtMost(cfg, w, n) {
      var es := AheadIsReached(cfg, w);
    }
  }

  /** The page under way, on the panel or in a page read, is not the target. */
  predicate AnotherPageUnderWay(w: World)
    requires w.inFlight ==> |w.pageReads| > 0
  {
    || (w.panel.busy && w.panel.pending.tag.page != w.coord.target)
    || (!w.panel.busy && w.inFlight && w.pageReads[0].page != w.coord.target)
  }

  /** At most two commits follow the last tap exactly when, just after it, no other page
      than the target is on its way to the panel. */
  lemma AtMostTwoIff(cfg: Config, w: World)
    requires Production(cfg) && cfg.slicePages > 0 && Inv(w)
    ensures AtMost(cfg, w, 2) <==> !AnotherPageUnderWay(w)
  {
    hide AtMost, Ahead, PanelOk;
    AheadIsExact(cfg, w, 2);
    AheadIsThree(w);
  }

  lemma AheadIsThree(w: World)
    requires w.inFlight ==> |w.pageReads| > 0
    ensures Ahead(w) == 3 <==> AnotherPageUnderWay(w)
  {
  }
}
