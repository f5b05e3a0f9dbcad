/**
 The display driver of simulator/model/ReaderModel.h: it wires the coordinator to
 the panel and to asynchronous storage.  Timing is left open: any outstanding
 storage read or completion may run at any moment, and taps may come in between.
 */
module Reader {

  import opened Sequences
  import opened Coordinator
  import opened Panel

  /** What stays fixed while a book is open. */
  datatype Config = Config(policy: Policy, slicePages: nat, totalPages: nat)

  /** An outstanding page read: the page and generation its callback captured. */
  datatype PageRead = PageRead(page: int, generation: nat)

  datatype World = World(coord: Coord, panel: PanelState, indexComplete: bool, indexCursor: nat, generation: nat,
                         inFlight: bool, pageReads: seq<PageRead>, indexReads: nat)

  datatype Event =
    | Tap(now: nat, newTarget: int)    // tap and jumpTo: an intent, before clamping
    | Tick                             // the periodic display task
    | IndexDone(ok: bool)              // an index read returns; a short read is not ok
    | PageDone(k: nat, ok: bool)       // the k-th page read returns
    | Complete(k: nat)                 // the k-th scheduled end of BUSY runs
    | Abort                            // reboot or suppress

  function Opened(cfg: Config): World {
    World(FRESH, POWER_ON, cfg.totalPages == 0, 0, 0, false, [], 0)
  }

  /** A freshly opened book is to show its first page; only an empty one needs no index. */
  lemma FreshlyOpened(cfg: Config)
    ensures var w := Opened(cfg);
            && w.coord.target == 0 && w.coord.armed && !w.coord.firstShown && !w.panel.busy && w.indexCursor == 0
            && (w.indexComplete <==> cfg.totalPages == 0) && w.pageReads == [] && w.indexReads == 0 && !w.inFlight
  {
  }

  function Clamp(cfg: Config, p: int): int {
    if p < 0 then 0
    else if p >= cfg.totalPages then (if cfg.totalPages > 0 then cfg.totalPages - 1 else 0)
    else p
  }

  /** How many pages lie between two. */
  function Away(p: int, q: int): nat { if p < q then q - p else p - q }

  /** `p` is the page of a book of so many pages that is nearest to the one wanted. */
  ghost predicate Nearest(total: nat, p: int, wanted: int) {
    && (if total == 0 then p == 0 else 0 <= p < total)
    && forall q :: 0 <= q < total ==> Away(p, wanted) <= Away(q, wanted)
  }

  lemma ClampIsNearest(cfg: Config, p: int)
    ensures Nearest(cfg.totalPages, Clamp(cfg, p), p)
  {
  }

  function PushIndex(w: World): World {
    if w.indexComplete then w else w.(indexReads := w.indexReads + 1)
  }

  /** The part of `displayTaskLoop` after the catch-up block. */
  function TickRender(cfg: Config, w: World): World {
    if cfg.policy.bugNoCatchup && !w.coord.armed then w
    else if !ShouldRender(w.coord, w.panel.busy, false) then w
    else if w.inFlight then w
    else if TargetBeyondIndex(w.coord, w.indexComplete, w.indexCursor) then PushIndex(w)
    else
      var c := RenderStarted(w.coord);
      w.(coord := c, generation := w.generation + 1, inFlight := true,
         pageReads := w.pageReads + [PageRead(c.pending, w.generation + 1)])
  }

  /** `displayTaskLoop` */
  function Ticked(cfg: Config, w: World): World {
    if w.panel.busy then w
    else if CatchupNeeded(w.coord, cfg.policy, w.panel.busy, false) then
      if TargetBeyondIndex(w.coord, w.indexComplete, w.indexCursor) then PushIndex(w)
      else TickRender(cfg, w.(coord := w.coord.(armed := true)))
    else TickRender(cfg, w)
  }

  function IndexAdvanced(cfg: Config, w: World, ok: bool): World
    requires w.indexReads > 0
  {
    var v := w.(indexReads := w.indexReads - 1);
    if !ok then v
    else if w.indexCursor + cfg.slicePages >= cfg.totalPages then
      v.(indexCursor := cfg.totalPages, indexComplete := true)
    else v.(indexCursor := w.indexCursor + cfg.slicePages)
  }

  function FrameHash(page: int, generation: nat): nat {
    (page * 2654435761 + generation) % 0x1_0000_0000_0000_0000
  }

  function PageLoaded(w: World, k: nat, ok: bool): World
    requires k < |w.pageReads|
  {
    var read := w.pageReads[k];
    var v := w.(inFlight := false, pageReads := Without(w.pageReads, k));
    if !ok then v.(coord := v.coord.(armed := true))
    else
      var drawn := Rendered(v.panel, Tag(read.generation, 0, read.page, FrameHash(read.page, read.generation)));
      v.(panel := Submitted(drawn, read.page),
         coord := if Accepts(drawn) then v.coord else v.coord.(armed := true))
  }

  function BusyEnded(cfg: Config, w: World, k: nat): World
    requires k < |w.panel.scheduled|
  {
    var c := w.panel.scheduled[k];
    w.(panel := Completed(w.panel, k),
       coord := if c.token == w.panel.token then Committed(w.coord, cfg.policy, c.page) else w.coord)
  }

  predicate Enabled(w: World, e: Event) {
    match e
    case Tap(_, _) => true
    case Tick => true
    case IndexDone(_) => w.indexReads > 0
    case PageDone(k, _) => k < |w.pageReads|
    case Complete(k) => k < |w.panel.scheduled|
    case Abort => true
  }

  function Step(cfg: Config, w: World, e: Event): World
    requires Enabled(w, e)
  {
    match e
    case Tap(now, t) => w.(coord := Tapped(w.coord, cfg.policy, now, w.panel.busy, Clamp(cfg, t)))
    case Tick => Ticked(cfg, w)
    case IndexDone(ok) => IndexAdvanced(cfg, w, ok)
    case PageDone(k, ok) => PageLoaded(w, k, ok)
    case Complete(k) => BusyEnded(cfg, w, k)
    case Abort => w.(panel := Aborted(w.panel))
  }

  class ReaderModel {
    const slicePages: nat
    const coord: PageTurnCoordinator
    const panel: SimPanel
    var totalPages: nat
    var indexComplete: bool
    var indexCursor: nat
    var generation: nat
    var renderInFlight: bool
    var pageReads: seq<PageRead>
    var indexReads: nat

    function Cfg(): Config
      reads this
    {
      Config(coord.policy, slicePages, totalPages)
    }

    function State(): World
      reads this, coord, panel
    {
      World(coord.State(), panel.State(), indexComplete, indexCursor, generation, renderInFlight, pageReads,
            indexReads)
    }

    constructor OpenBook(policy: Policy, slicePages: nat, totalPages: nat)
      ensures Cfg() == Config(policy, slicePages, totalPages) && State() == Opened(Cfg())
      ensures fresh(coord) && fresh(panel)
    {
      this.slicePages, this.totalPages := slicePages, totalPages;
      this.coord := new PageTurnCoordinator(policy);
      this.panel := new SimPanel();
      indexComplete, indexCursor, generation := totalPages == 0, 0, 0;
      renderInFlight, pageReads, indexReads := false, [], 0;
    }

    /** `tap`: a page turn by `dir` pages from the target. */
    method Turn(now: nat, dir: int)
      modifies coord
      ensures State() == Step(Cfg(), old(State()), Tap(now, old(coord.targetPage) + dir))
      ensures Nearest(totalPages, coord.targetPage, old(coord.targetPage) + dir)
    {
      ClampIsNearest(Cfg(), coord.targetPage + dir);
      coord.OnTap(now, panel.busy, Clamp(Cfg(), coord.targetPage + dir));
    }

    /** `jumpTo`: the answer says whether the page lies beyond the index. */
    method JumpTo(now: nat, page: int) returns (beyond: bool)
      modifies coord
      ensures State() == Step(Cfg(), old(State()), Tap(now, page))
      ensures beyond <==> State().coord.target >= State().indexCursor
      ensures Nearest(totalPages, coord.targetPage, page)
    {
      ClampIsNearest(Cfg(), page);
      coord.OnTap(now, panel.busy, Clamp(Cfg(), page));
      beyond := Clamp(Cfg(), page) >= indexCursor;
    }

    method ContinuePageIndex()
      modifies this`indexReads
      ensures State() == PushIndex(old(State()))
    {
      if indexComplete { return; }
      indexReads := indexReads + 1;
    }

    method DisplayTaskLoop()
      modifies this`indexReads, this`generation, this`renderInFlight, this`pageReads, coord
      ensures State() == Step(Cfg(), old(State()), Tick)
    {
      var busy := panel.busy;
      if busy { return; }
      if CatchupNeeded(coord.State(), coord.policy, busy, false) {
        if TargetBeyondIndex(coord.State(), indexComplete, indexCursor) {
          ContinuePageIndex();
          return;
        }
        coord.Rearm();
      }
      if coord.policy.bugNoCatchup && !coord.updateRequired { return; }
      if !ShouldRender(coord.State(), busy, false) { return; }
      if renderInFlight { return; }
      if TargetBeyondIndex(coord.State(), indexComplete, indexCursor) {
        ContinuePageIndex();
        return;
      }
      coord.OnRenderStarted();
      var renderedPage := coord.OnFrameReady();
      generation := generation + 1;
      renderInFlight := true;
      pageReads := pageReads + [PageRead(renderedPage, generation)];
    }

    method OnIndexRead(ok: bool)
      requires indexReads > 0
      modifies this`indexReads, this`indexCursor, this`indexComplete
      ensures State() == Step(Cfg(), old(State()), IndexDone(ok))
    {
      indexReads := indexReads - 1;
      if !ok { return; }
      indexCursor := indexCursor + slicePages;
      if indexCursor >= totalPages {
        indexCursor := totalPages;
        indexComplete := true;
      }
    }

    method OnPageRead(k: nat, ok: bool)
      requires k < |pageReads|
      modifies this`renderInFlight, this`pageReads, coord, panel
      ensures State() == Step(Cfg(), old(State()), PageDone(k, ok))
    {
      var read := pageReads[k];
      pageReads := Without(pageReads, k);
      renderInFlight := false;
      if !ok {
        coord.Rearm();
        return;
      }
      panel.Render(Tag(read.generation, 0, read.page, FrameHash(read.page, read.generation)));
      var accepted := panel.Submit(read.page);
      if !accepted { coord.Rearm(); }
    }

    method OnBusyEnded(k: nat)
      requires k < |panel.scheduled|
      modifies coord, panel
      ensures State() == Step(Cfg(), old(State()), Complete(k))
    {
      var live, page := panel.RunCompletion(k);
      if live {
        var catchup := coord.OnCommitted(page);
      }
    }

    method OnAbort()
      modifies panel
      ensures State() == Step(Cfg(), old(State()), Abort)
    {
      var lost := panel.AbortRefresh();
    }
  }
}
