/**
 Whole-run properties of the page-turn protocol: coordinator, panel and driver
 together, under every interleaving of taps, storage completions, ends of BUSY,
 display ticks and aborts.
 */
module PageTurn {

  import opened Sequences
  import opened Coordinator
  import opened Panel
  import opened Reader

  // ---------- runs ----------

  predicate ValidRun(cfg: Config, w: World, es: seq<Event>)
    decreases |es|
  {
    es == [] || (Enabled(w, es[0]) && ValidRun(cfg, Step(cfg, w, es[0]), es[1..]))
  }

  function Run(cfg: Config, w: World, es: seq<Event>): World
    requires ValidRun(cfg, w, es)
    decreases |es|
  {
    if es == [] then w else Run(cfg, Step(cfg, w, es[0]), es[1..])
  }

  ghost predicate Production(cfg: Config) {
    !cfg.policy.bugNoCatchup && !cfg.policy.bugLivePhysical
  }

  // ---------- the invariant ----------

  predicate Live(p: PanelState, k: nat)
    requires k < |p.scheduled|
  {
    p.scheduled[k].token == p.token
  }

  /** The completion that will end the current BUSY. */
  ghost predicate EndsBusy(p: PanelState, k: nat) {
    k < |p.scheduled| && Live(p, k) && p.scheduled[k].page == p.pending.tag.page
  }

  ghost predicate PanelOk(p: PanelState) {
    && (p.busy <==> p.pending.valid)
    && (forall i :: 0 <= i < |p.scheduled| ==> p.scheduled[i].token <= p.token)
    && (forall i, j :: 0 <= i < j < |p.scheduled| ==> p.scheduled[i].token != p.scheduled[j].token)
    && (p.busy ==> exists k: nat :: EndsBusy(p, k))
    && (!p.busy ==> forall i :: 0 <= i < |p.scheduled| ==> p.scheduled[i].token != p.token)
  }

  ghost predicate Inv(w: World) {
    && PanelOk(w.panel)
    && (w.inFlight ==> |w.pageReads| == 1 && !w.panel.busy && w.pageReads[0].page == w.coord.pending)
    && (!w.inFlight ==> w.pageReads == [])
    && (w.panel.busy ==> w.panel.pending.tag.page == w.coord.pending)
    && (w.panel.physical.valid <==> w.coord.firstShown)
    && (if w.coord.firstShown then w.coord.physical == w.panel.physical.tag.page else w.coord.physical == -1)
  }

  lemma OpenedIsOk(cfg: Config)
    ensures Inv(Opened(cfg))
  {
  }

  lemma CompletedIsOk(p: PanelState, k: nat)
    requires PanelOk(p) && k < |p.scheduled|
    ensures PanelOk(Completed(p, k))
    ensures Live(p, k) ==> p.busy && EndsBusy(p, k) && Completed(p, k).physical == p.pending && !Completed(p, k).busy
    ensures !Live(p, k) ==> Completed(p, k) == p.(scheduled := Without(p.scheduled, k))
  {
    var q := p.(scheduled := Without(p.scheduled, k));
    WithoutTokens(p, k);
    if Live(p, k) {
      var b: nat :| EndsBusy(p, b);
      assert b == k;
    } else if p.busy {
      var b: nat :| EndsBusy(p, b);
      var b' := if b < k then b else b - 1;
      assert q.scheduled[b'] == p.scheduled[b];
      assert EndsBusy(q, b');
    }
  }

  lemma WithoutTokens(p: PanelState, k: nat)
    requires k < |p.scheduled|
    requires forall i :: 0 <= i < |p.scheduled| ==> p.scheduled[i].token <= p.token
    requires forall i, j :: 0 <= i < j < |p.scheduled| ==> p.scheduled[i].token != p.scheduled[j].token
    ensures var s := Without(p.scheduled, k);
            && (forall i :: 0 <= i < |s| ==> s[i].token <= p.token && s[i].token != p.scheduled[k].token)
            && (forall i, j :: 0 <= i < j < |s| ==> s[i].token != s[j].token)
            && (forall i :: 0 <= i < |s| ==> s[i] == p.scheduled[if i < k then i else i + 1])
  {
  }

  lemma SubmittedIsOk(p: PanelState, page: int)
    requires PanelOk(p) && Accepts(p) && p.renderFB.tag.page == page
    ensures PanelOk(Submitted(p, page))
  {
    var q := Submitted(p, page);
    assert EndsBusy(q, |p.scheduled|);
  }

  /** Every step keeps the invariant: taps, ticks, reads, completions and aborts alike. */
  lemma StepKeepsInv(cfg: Config, w: World, e: Event)
    requires Inv(w) && Enabled(w, e) && !cfg.policy.bugLivePhysical
    ensures Inv(Step(cfg, w, e))
  {
    match e
    case Tap(_, _) =>
    case Tick => TickKeepsInv(cfg, w);
    case IndexDone(_) =>
    case PageDone(k, ok) => PageLoadedKeepsInv(w, k, ok);
    case Complete(k) => CompletedIsOk(w.panel, k);
    case Abort =>
  }

  lemma TickKeepsInv(cfg: Config, w: World)
    requires Inv(w)
    ensures Inv(Ticked(cfg, w))
  {
    hide PanelOk;
  }

  lemma PageLoadedKeepsInv(w: World, k: nat, ok: bool)
    requires Inv(w) && k < |w.pageReads|
    ensures Inv(PageLoaded(w, k, ok))
  {
    hide FrameHash;
    assert k == 0 && Without(w.pageReads, 0) == [];
    var read := w.pageReads[0];
    var drawn := Rendered(w.panel, Tag(read.generation, 0, read.page, FrameHash(read.page, read.generation)));
    assert PanelOk(drawn) by { RenderedIsOk(w.panel, drawn.renderFB.tag); }
    SubmittedIsOk(drawn, read.page);
  }

  lemma RenderedIsOk(p: PanelState, tag: Tag)
    requires PanelOk(p)
    ensures PanelOk(Rendered(p, tag))
  {
    var q := Rendered(p, tag);
    if p.busy {
      var k: nat :| EndsBusy(p, k);
      assert EndsBusy(q, k);
    }
  }

  /** Safety over whole runs: from an opened book, whatever happens in whatever
      order, the recorded physical page is the page on the glass, and the panel is
      busy exactly while a pending frame is valid. */
  lemma {:induction false} RunKeepsInv(cfg: Config, w: World, es: seq<Event>)
    requires Inv(w) && ValidRun(cfg, w, es) && !cfg.policy.bugLivePhysical
    ensures Inv(Run(cfg, w, es))
    decreases |es|
  {
    if es == [] {
    } else {
      StepKeepsInv(cfg, w, es[0]);
      RunKeepsInv(cfg, Step(cfg, w, es[0]), es[1..]);
    }
  }

  lemma PhysicalPageIsWhatIsShown(cfg: Config, es: seq<Event>)
    requires ValidRun(cfg, Opened(cfg), es) && !cfg.policy.bugLivePhysical
    ensures var w := Run(cfg, Opened(cfg), es);
            && (w.coord.firstShown ==> w.panel.physical.valid && w.coord.physical == w.panel.physical.tag.page)
            && (w.panel.busy <==> w.panel.pending.valid)
            && (w.inFlight ==> !w.panel.busy)
  {
    OpenedIsOk(cfg);
    RunKeepsInv(cfg, Opened(cfg), es);
  }

  /** The end of an aborted refresh changes nothing but the queue it leaves. */
  lemma StaleCompletionIsInert(cfg: Config, w: World, k: nat)
    requires k < |w.panel.scheduled| && !Live(w.panel, k)
    ensures Step(cfg, w, Complete(k)) == w.(panel := w.panel.(scheduled := Without(w.panel.scheduled, k)))
  {
  }

  /** The refresh token never goes back. */
  lemma {:induction false} TokenOnlyGrows(cfg: Config, w: World, es: seq<Event>)
    requires ValidRun(cfg, w, es)
    ensures w.panel.token <= Run(cfg, w, es).panel.token
    decreases |es|
  {
    if es == [] {
    } else {
      TokenGrowsByStep(cfg, w, es[0]);
      TokenOnlyGrows(cfg, Step(cfg, w, es[0]), es[1..]);
    }
  }

  lemma TokenGrowsByStep(cfg: Config, w: World, e: Event)
    requires Enabled(w, e)
    ensures w.panel.token <= Step(cfg, w, e).panel.token
  {
    hide FrameHash;
  }

  /** Over whole runs, bug knobs included: a completion that was queued when a refresh
      was aborted changes nothing but the queue, whenever it runs afterwards and
      whatever taps, submits and aborts came in between. */
  lemma AbortedRefreshNeverCommits(cfg: Config, before: seq<Event>, after: seq<Event>, stale: Completion, k: nat)
    requires ValidRun(cfg, Opened(cfg), before)
    requires stale in Run(cfg, Opened(cfg), before).panel.scheduled
    requires ValidRun(cfg, Step(cfg, Run(cfg, Opened(cfg), before), Abort), after)
    requires var w := Run(cfg, Step(cfg, Run(cfg, Opened(cfg), before), Abort), after);
             k < |w.panel.scheduled| && w.panel.scheduled[k] == stale
    ensures var w := Run(cfg, Step(cfg, Run(cfg, Opened(cfg), before), Abort), after);
            Step(cfg, w, Complete(k)) == w.(panel := w.panel.(scheduled := Without(w.panel.scheduled, k)))
  {
    hide FrameHash;
    var w0 := Run(cfg, Opened(cfg), before);
    QueuedTokensAreOld(cfg, Opened(cfg), before);
    TokenOnlyGrows(cfg, Step(cfg, w0, Abort), after);
    StaleCompletionIsInert(cfg, Run(cfg, Step(cfg, w0, Abort), after), k);
  }

  /** No queued completion is ahead of the token. */
  ghost predicate TokensOld(w: World) {
    forall i :: 0 <= i < |w.panel.scheduled| ==> w.panel.scheduled[i].token <= w.panel.token
  }

  lemma {:induction false} QueuedTokensAreOld(cfg: Config, w: World, es: seq<Event>)
    requires TokensOld(w) && ValidRun(cfg, w, es)
    ensures TokensOld(Run(cfg, w, es))
    decreases |es|
  {
    if es == [] {
    } else {
      TokensStayOld(cfg, w, es[0]);
      QueuedTokensAreOld(cfg, Step(cfg, w, es[0]), es[1..]);
    }
  }

  lemma TokensStayOld(cfg: Config, w: World, e: Event)
    requires TokensOld(w) && Enabled(w, e)
    ensures TokensOld(Step(cfg, w, e))
  {
    hide FrameHash;
  }

  /** The panel never refuses the driver's frame: the re-arm after a refused submit is dead code. */
  lemma SubmitIsNeverRefused(w: World, k: nat, tag: Tag)
    requires Inv(w) && k < |w.pageReads|
    ensures Accepts(Rendered(w.panel, tag))
  {
  }

  // ---------- how many commits are still to come ----------

  /** Commits needed once `page` is on the glass and nothing is under way: a
      different target costs two, because a tick during its render may re-arm. */
  function AfterShowing(c: Coord, page: int): nat {
    if c.target != page then 2 else if c.armed then 1 else 0
  }

  function Ahead(w: World): (n: nat)
    requires w.inFlight ==> |w.pageReads| > 0
    ensures n <= 3
  {
    var c := w.coord;
    if w.panel.busy then 1 + AfterShowing(c, w.panel.pending.tag.page)
    else if w.inFlight then
      1 + (if c.target != w.pageReads[0].page then 2
           else if c.armed || (c.firstShown && c.target != c.physical) then 1 else 0)
    else if !c.firstShown then (if c.armed then 1 else 0)
    else AfterShowing(c, c.physical)
  }

  /** Steps after the last tap, short reads included, aborts excluded. */
  predicate AfterLastTap(e: Event) {
    !e.Tap? && !e.Abort?
  }

  predicate IsCommit(w: World, e: Event) {
    e.Complete? && e.k < |w.panel.scheduled| && Live(w.panel, e.k)
  }

  lemma StepUsesUpCommits(cfg: Config, w: World, e: Event)
    requires Production(cfg) && Inv(w) && Enabled(w, e) && AfterLastTap(e)
    ensures Inv(Step(cfg, w, e))
    ensures Ahead(Step(cfg, w, e)) + (if IsCommit(w, e) then 1 else 0) <= Ahead(w)
  {
    StepKeepsInv(cfg, w, e);
    hide PanelOk, FrameHash;
    match e
    case Tick =>
    case IndexDone(_) =>
    case PageDone(k, ok) =>
      assert k == 0;
    case Complete(k) =>
      CompletedIsOk(w.panel, k);
  }

  function Commits(cfg: Config, w: World, es: seq<Event>): nat
    requires ValidRun(cfg, w, es)
    decreases |es|
  {
    if es == [] then 0
    else (if IsCommit(w, es[0]) then 1 else 0) + Commits(cfg, Step(cfg, w, es[0]), es[1..])
  }

  /** After the last tap the number of further commits is bounded, in every run. */
  lemma {:induction false} CommitsAreBounded(cfg: Config, w: World, es: seq<Event>)
    requires Production(cfg) && Inv(w) && ValidRun(cfg, w, es)
    requires forall i :: 0 <= i < |es| ==> AfterLastTap(es[i])
    ensures Inv(Run(cfg, w, es))
    ensures Commits(cfg, w, es) + Ahead(Run(cfg, w, es)) <= Ahead(w) <= 3
    decreases |es|
  {
    if es == [] {
    } else {
      StepUsesUpCommits(cfg, w, es[0]);
      CommitsAreBounded(cfg, Step(cfg, w, es[0]), es[1..]);
    }
  }

  /** Nothing left to do: target, recorded page and glass agree and nothing is armed. */
  ghost predicate Quiet(w: World) {
    && !w.panel.busy && !w.inFlight && !w.coord.armed && w.coord.firstShown
    && w.coord.target == w.coord.physical == w.panel.physical.tag.page && w.panel.physical.valid
  }

  /** Not the one dead end: an idle reader that never showed a frame and is not armed. */
  predicate Alive(w: World) {
    w.coord.firstShown || w.coord.armed || w.inFlight || w.panel.busy
  }

  lemma NothingAheadIffQuiet(w: World)
    requires Inv(w) && Alive(w)
    ensures Ahead(w) == 0 <==> Quiet(w)
  {
  }

  // ---------- the synchronous display task ----------

  /** The same count for a display task that does not tick while it renders. */
  function AheadSync(w: World): (n: nat)
    requires w.inFlight ==> |w.pageReads| > 0
    ensures n <= 2
  {
    var c := w.coord;
    if w.panel.busy then 1 + (if c.armed || c.target != w.panel.pending.tag.page then 1 else 0)
    else if w.inFlight then 1 + (if c.armed || c.target != w.pageReads[0].page then 1 else 0)
    else if c.armed || (c.firstShown && c.target != c.physical) then 1
    else 0
  }

  predicate NoTickWhileRendering(cfg: Config, w: World, es: seq<Event>)
    requires ValidRun(cfg, w, es)
    decreases |es|
  {
    es == [] || ((es[0].Tick? ==> !w.inFlight) && NoTickWhileRendering(cfg, Step(cfg, w, es[0]), es[1..]))
  }

  lemma SyncStepUsesUpCommits(cfg: Config, w: World, e: Event)
    requires Production(cfg) && Inv(w) && Enabled(w, e) && AfterLastTap(e) && (e.Tick? ==> !w.inFlight)
    ensures Inv(Step(cfg, w, e))
    ensures AheadSync(Step(cfg, w, e)) + (if IsCommit(w, e) then 1 else 0) <= AheadSync(w)
  {
    StepKeepsInv(cfg, w, e);
    hide PanelOk, FrameHash;
    match e
    case Tick =>
    case IndexDone(_) =>
    case PageDone(k, ok) =>
      assert k == 0;
    case Complete(k) =>
      CompletedIsOk(w.panel, k);
  }

  /** With a synchronous display task at most two commits follow the last tap. */
  lemma {:induction false} SyncCommitsAreBounded(cfg: Config, w: World, es: seq<Event>)
    requires Production(cfg) && Inv(w) && ValidRun(cfg, w, es) && NoTickWhileRendering(cfg, w, es)
    requires forall i :: 0 <= i < |es| ==> AfterLastTap(es[i])
    ensures Inv(Run(cfg, w, es))
    ensures Commits(cfg, w, es) + AheadSync(Run(cfg, w, es)) <= AheadSync(w) <= 2
    decreases |es|
  {
    if es == [] {
    } else {
      SyncStepUsesUpCommits(cfg, w, es[0]);
      SyncCommitsAreBounded(cfg, Step(cfg, w, es[0]), es[1..]);
    }
  }

  // ---------- quick taps ----------

  /** In production, with the panel idle: the first tap is not quick, and one that follows
      another is quick exactly when less than 400 ms have passed, also when the 32-bit
      clock wrapped in between. */
  lemma SecondTapIsQuickIff(c: Coord, first: nat, busy: bool, target: int, gap: nat)
    requires 0 < first && gap < 0x1_0000_0000
    ensures !IsQuick(FRESH, PRODUCTION, first, false)
    ensures IsQuick(Tapped(c, PRODUCTION, first, busy, target), PRODUCTION, first + gap, false) <==> gap < 400
    ensures IsQuick(c, PRODUCTION, first, true)
  {
    assert (first + gap - first) % 0x1_0000_0000 == gap;
  }

  // ---------- convergence ----------

  /** How far the page index is from covering the target. */
  function Deficit(w: World): nat {
    if w.indexComplete || w.coord.target < w.indexCursor then 0 else w.coord.target + 1 - w.indexCursor
  }

  datatype Rank = Rank(ahead: nat, stage: nat, deficit: nat, waiting: nat)
  {
    predicate Below(r: Rank) {
      || ahead < r.ahead
      || (ahead == r.ahead && stage < r.stage)
      || (ahead == r.ahead && stage == r.stage && deficit < r.deficit)
      || (ahead == r.ahead && stage == r.stage && deficit == r.deficit && waiting < r.waiting)
    }
  }

  function RankOf(w: World): Rank
    requires w.inFlight ==> |w.pageReads| > 0
  {
    Rank(Ahead(w),
         if w.panel.busy then 0 else if w.inFlight then 1 else 2,
         Deficit(w),
         if Deficit(w) > 0 && w.indexReads == 0 then 1 else 0)
  }

  /** Steps without taps, aborts and short reads. */
  predicate Calm(e: Event) {
    AfterLastTap(e) && (e.IndexDone? ==> e.ok) && (e.PageDone? ==> e.ok)
  }

  /** The step the reader is waiting for. */
  ghost predicate MovesOn(w: World, e: Event) {
    if w.panel.busy then e.Complete? && EndsBusy(w.panel, e.k)
    else if w.inFlight then e == PageDone(0, true)
    else if Deficit(w) > 0 && w.indexReads > 0 then e == IndexDone(true)
    else e == Tick
  }

  lemma SomethingMovesOn(w: World) returns (e: Event)
    requires Inv(w)
    ensures MovesOn(w, e) && Enabled(w, e) && Calm(e)
  {
    if w.panel.busy {
      var k: nat :| EndsBusy(w.panel, k);
      e := Complete(k);
    } else if w.inFlight {
      e := PageDone(0, true);
    } else if Deficit(w) > 0 && w.indexReads > 0 {
      e := IndexDone(true);
    } else {
      e := Tick;
    }
  }

  /** No calm step moves away from agreement. */
  lemma CalmStepsDoNotRegress(cfg: Config, w: World, e: Event)
    requires Production(cfg) && cfg.slicePages > 0 && Inv(w) && Enabled(w, e) && Calm(e)
    ensures Inv(Step(cfg, w, e))
    ensures !RankOf(w).Below(RankOf(Step(cfg, w, e)))
  {
    StepUsesUpCommits(cfg, w, e);
    hide PanelOk, FrameHash, Ahead;
    match e
    case Tick =>
    case IndexDone(_) =>
    case PageDone(k, ok) =>
      SubmitIsNeverRefused(w, k, Tag(0, 0, 0, 0));
    case Complete(k) =>
      CompletedIsOk(w.panel, k);
  }

  /** No lost intent: while something is left to do, the awaited step is enabled and brings
      agreement strictly closer. */
  lemma MovingOnHelps(cfg: Config, w: World, e: Event)
    requires Production(cfg) && cfg.slicePages > 0 && Inv(w) && Alive(w) && !Quiet(w) && MovesOn(w, e) && Enabled(w, e)
    ensures Inv(Step(cfg, w, e)) && Alive(Step(cfg, w, e))
    ensures RankOf(Step(cfg, w, e)).Below(RankOf(w))
  {
    StepUsesUpCommits(cfg, w, e);
    hide PanelOk, FrameHash, Ahead;
    match e
    case Tick =>
    case IndexDone(_) =>
    case PageDone(k, ok) =>
      SubmitIsNeverRefused(w, k, Tag(0, 0, 0, 0));
    case Complete(k) =>
      CompletedIsOk(w.panel, k);
  }

  /** The rank as one number: after the last tap the deficit never grows, so it can stand
      beside the other parts instead of below them. */
  function Budget(w: World): nat
    requires w.inFlight ==> |w.pageReads| > 0
  {
    var r := RankOf(w);
    2 * (3 * r.ahead + r.stage) + 2 * r.deficit + r.waiting
  }

  lemma DeficitNeverGrows(cfg: Config, w: World, e: Event)
    requires Enabled(w, e) && AfterLastTap(e)
    ensures Deficit(Step(cfg, w, e)) <= Deficit(w)
  {
    hide FrameHash;
  }

  /** The step is the one the reader was waiting for. */
  ghost predicate Awaited(w: World, e: Event) {
    !Quiet(w) && MovesOn(w, e)
  }

  /** A storage read that returns too little. */
  predicate ShortRead(e: Event) { (e.IndexDone? && !e.ok) || (e.PageDone? && !e.ok) }

  function ShortReads(es: seq<Event>): nat {
    if es == [] then 0 else (if ShortRead(es[0]) then 1 else 0) + ShortReads(es[1..])
  }

  lemma CalmStepSpends(cfg: Config, w: World, e: Event)
    requires Production(cfg) && cfg.slicePages > 0 && Inv(w) && Alive(w) && Enabled(w, e) && Calm(e)
    ensures Inv(Step(cfg, w, e)) && Alive(Step(cfg, w, e))
    ensures Budget(Step(cfg, w, e)) + (if Awaited(w, e) then 1 else 0) <= Budget(w)
  {
    hide Step, Inv, Quiet, MovesOn, Ahead, Deficit;
    CalmStepsDoNotRegress(cfg, w, e);
    DeficitNeverGrows(cfg, w, e);
    AliveStep(cfg, w, e);
    if Awaited(w, e) { MovingOnHelps(cfg, w, e); }
    RanksFit(w);
    RanksFit(Step(cfg, w, e));
  }

  /** A short read costs what the retry makes up for: a page read its stage, an index read
      the wait for the next one. */
  lemma ShortReadCosts(cfg: Config, w: World, e: Event)
    requires Production(cfg) && Inv(w) && Alive(w) && Enabled(w, e) && ShortRead(e)
    ensures Inv(Step(cfg, w, e)) && Alive(Step(cfg, w, e))
    ensures !Awaited(w, e) && Budget(Step(cfg, w, e)) <= Budget(w) + 2
  {
    StepUsesUpCommits(cfg, w, e);
    DeficitNeverGrows(cfg, w, e);
    AliveStep(cfg, w, e);
    hide PanelOk, FrameHash, Ahead;
  }

  lemma RanksFit(w: World)
    requires Inv(w)
    ensures (w.inFlight ==> |w.pageReads| > 0) && RankOf(w).stage <= 2 && RankOf(w).waiting <= 1
  {
  }

  /** How many steps of the run were awaited ones. */
  ghost function AwaitedSteps(cfg: Config, w: World, es: seq<Event>): nat
    requires ValidRun(cfg, w, es)
    decreases |es|
  {
    if es == [] then 0
    else (if Awaited(w, es[0]) then 1 else 0) + AwaitedSteps(cfg, Step(cfg, w, es[0]), es[1..])
  }

  /** Convergence, on every schedule, short reads included: each of those adds at most two
      to the budget, awaited steps use it up one by one, and nothing else adds to it.  So no
      run after the last tap puts agreement off for more than `Budget(w)` awaited steps and
      two for every short read; and once all agree, it stays so. */
  lemma {:induction false} EveryRunConverges(cfg: Config, w: World, es: seq<Event>)
    requires Production(cfg) && cfg.slicePages > 0 && Inv(w) && Alive(w) && ValidRun(cfg, w, es)
    requires forall i :: 0 <= i < |es| ==> AfterLastTap(es[i])
    ensures var end := Run(cfg, w, es);
            && Inv(end) && Alive(end)
            && AwaitedSteps(cfg, w, es) + Budget(end) <= Budget(w) + 2 * ShortReads(es)
            && (AwaitedSteps(cfg, w, es) >= Budget(w) + 2 * ShortReads(es) ==> Quiet(end))
            && (Quiet(w) ==> Quiet(end))
    decreases |es|
  {
    if es == [] {
      hide Inv, Alive;
      NothingLeftIsQuiet(w);
    } else {
      hide Budget, Awaited, Quiet, Alive, Inv;
      var next := Step(cfg, w, es[0]);
      if ShortRead(es[0]) { ShortReadCosts(cfg, w, es[0]); } else { CalmStepSpends(cfg, w, es[0]); }
      EveryRunConverges(cfg, next, es[1..]);
      NothingLeftIsQuiet(Run(cfg, w, es));
      QuietStays(cfg, w, es[0]);
    }
  }

  lemma NothingLeftIsQuiet(w: World)
    requires Inv(w) && Alive(w)
    ensures (w.inFlight ==> |w.pageReads| > 0) && (Budget(w) == 0 ==> Quiet(w))
  {
    NothingAheadIffQuiet(w);
  }

  lemma QuietStays(cfg: Config, w: World, e: Event)
    requires Production(cfg) && Inv(w) && Alive(w) && Enabled(w, e) && AfterLastTap(e)
    ensures Quiet(w) ==> Quiet(Step(cfg, w, e))
  {
    hide PanelOk, FrameHash, Ticked, PageLoaded, BusyEnded, IndexAdvanced, Ahead, Quiet;
    StepUsesUpCommits(cfg, w, e);
    AliveStep(cfg, w, e);
    NothingAheadIffQuiet(w);
    NothingAheadIffQuiet(Step(cfg, w, e));
  }

  /** In particular the awaited steps alone, of which one is always enabled, lead to agreement. */
  lemma {:induction false} Converges(cfg: Config, w: World) returns (es: seq<Event>)
    requires Production(cfg) && cfg.slicePages > 0 && Inv(w) && Alive(w)
    ensures ValidRun(cfg, w, es) && Quiet(Run(cfg, w, es))
    ensures forall i :: 0 <= i < |es| ==> Calm(es[i])
    ensures AwaitedSteps(cfg, w, es) == |es| <= Budget(w)
    decreases Budget(w)
  {
    if Quiet(w) {
      es := [];
    } else {
      hide Budget, MovesOn, Quiet, Calm, Alive, Inv;
      var e := SomethingMovesOn(w);
      CalmStepSpends(cfg, w, e);
      var rest := Converges(cfg, Step(cfg, w, e));
      es := [e] + rest;
      assert es[1..] == rest;
    }
  }

  /** An idle display tick does nothing exactly when all agrees, or when the very
      first frame was lost to an abort. */
  lemma IdleTickDoesNothingIff(cfg: Config, w: World)
    requires Production(cfg) && Inv(w) && !w.panel.busy && !w.inFlight
    ensures Ticked(cfg, w) == w <==> Quiet(w) || !Alive(w)
  {
  }

  /** Without aborts the dead end is unreachable. */
  lemma {:induction false} AliveWithoutAborts(cfg: Config, w: World, es: seq<Event>)
    requires Production(cfg) && Inv(w) && Alive(w) && ValidRun(cfg, w, es)
    requires forall i :: 0 <= i < |es| ==> !es[i].Abort?
    ensures Alive(Run(cfg, w, es))
    decreases |es|
  {
    if es == [] {
    } else {
      StepKeepsInv(cfg, w, es[0]);
      AliveStep(cfg, w, es[0]);
      AliveWithoutAborts(cfg, Step(cfg, w, es[0]), es[1..]);
    }
  }

  lemma AliveStep(cfg: Config, w: World, e: Event)
    requires Production(cfg) && Inv(w) && Alive(w) && Enabled(w, e) && !e.Abort?
    ensures Alive(Step(cfg, w, e))
  {
    hide PanelOk, FrameHash;
    match e
    case Tap(_, _) =>
    case Tick =>
    case IndexDone(_) =>
    case PageDone(k, ok) =>
      SubmitIsNeverRefused(w, k, Tag(0, 0, 0, 0));
    case Complete(k) =>
      CompletedIsOk(w.panel, k);
  }
}
