/** The page-turn state machine of simulator/core/PageTurnCoordinator.h. */
module Coordinator {

  import opened Bytes

  /** Simulator-only bug knobs; production uses the default policy. */
  datatype Policy = Policy(bugNoCatchup: bool, bugLivePhysical: bool, quickTapMs: nat)

  const PRODUCTION := Policy(false, false, 400)

  datatype Coord = Coord(target: int, physical: int, pending: int, armed: bool, firstShown: bool, quick: bool,
                         lastTurnMs: nat)

  const FRESH := Coord(0, -1, -1, true, false, false, 0)

  /** A tap is quick when it follows another within the window or finds the panel
      busy; the clock difference is a 32-bit subtraction. */
  predicate IsQuick(c: Coord, policy: Policy, now: nat, panelBusy: bool) {
    (c.lastTurnMs != 0 && (now - c.lastTurnMs) % U32_LIMIT < policy.quickTapMs) || panelBusy
  }

  function Tapped(c: Coord, policy: Policy, now: nat, panelBusy: bool, newTarget: int): Coord {
    if IsQuick(c, policy, now, panelBusy) then
      c.(quick := true, lastTurnMs := now, target := newTarget, armed := c.armed && !policy.bugNoCatchup)
    else
      c.(quick := false, lastTurnMs := now, target := newTarget, armed := true)
  }

  predicate ShouldRender(c: Coord, panelBusy: bool, suppress: bool) {
    !suppress && !panelBusy && c.armed
  }

  predicate CatchupNeeded(c: Coord, policy: Policy, panelBusy: bool, suppress: bool) {
    && !suppress && !panelBusy && !policy.bugNoCatchup
    && c.firstShown && !c.armed && c.target != c.physical
  }

  predicate TargetBeyondIndex(c: Coord, indexComplete: bool, indexCursor: int) {
    !indexComplete && c.target >= indexCursor
  }

  function RenderStarted(c: Coord): Coord {
    c.(pending := c.target, armed := false)
  }

  function Committed(c: Coord, policy: Policy, committedPage: int): Coord {
    var physical := if policy.bugLivePhysical then c.target else committedPage;
    c.(physical := physical, firstShown := true, quick := false,
       armed := c.armed || CommitCatchup(c, policy, physical))
  }

  /** The catch-up decision of `onCommitted`. */
  predicate CommitCatchup(c: Coord, policy: Policy, physical: int) {
    !policy.bugNoCatchup && c.quick && c.target != physical
  }

  class PageTurnCoordinator {
    const policy: Policy
    var targetPage: int
    var physicalPage: int
    var pendingPhysicalPage: int
    var updateRequired: bool
    var firstShown: bool
    var quickMode: bool
    var lastTurnMs: nat

    function State(): Coord
      reads this
    {
      Coord(targetPage, physicalPage, pendingPhysicalPage, updateRequired, firstShown, quickMode, lastTurnMs)
    }

    constructor (policy: Policy)
      ensures this.policy == policy && State() == FRESH
    {
      this.policy := policy;
      targetPage, physicalPage, pendingPhysicalPage := 0, -1, -1;
      updateRequired, firstShown, quickMode, lastTurnMs := true, false, false, 0;
    }

    method Reset()
      modifies this
      ensures State() == FRESH
    {
      targetPage := 0;
      physicalPage := -1;
      pendingPhysicalPage := -1;
      updateRequired := true;
      firstShown := false;
      quickMode := false;
      lastTurnMs := 0;
    }

    method OnTap(now: nat, panelBusy: bool, newTarget: int)
      modifies this
      ensures State() == Tapped(old(State()), policy, now, panelBusy, newTarget)
    {
      var quick := (lastTurnMs != 0 && (now - lastTurnMs) % U32_LIMIT < policy.quickTapMs) || panelBusy;
      lastTurnMs := now;
      if quick {
        quickMode := true;
        if policy.bugNoCatchup { updateRequired := false; }
      } else {
        quickMode := false;
        updateRequired := true;
      }
      targetPage := newTarget;
    }

    method OnRenderStarted()
      modifies this
      ensures State() == RenderStarted(old(State()))
    {
      pendingPhysicalPage := targetPage;
      updateRequired := false;
    }

    method OnFrameReady() returns (page: int)
      ensures page == State().pending
    {
      page := pendingPhysicalPage;
    }

    method OnCommitted(committedPage: int) returns (catchup: bool)
      modifies this
      ensures State() == Committed(old(State()), policy, committedPage)
      ensures catchup == CommitCatchup(old(State()), policy, State().physical)
      ensures catchup <==> !policy.bugNoCatchup && old(quickMode) && targetPage != physicalPage
      ensures firstShown && !quickMode && (updateRequired <==> old(updateRequired) || catchup)
    {
      if policy.bugLivePhysical { physicalPage := targetPage; } else { physicalPage := committedPage; }
      firstShown := true;
      catchup := !policy.bugNoCatchup && quickMode && targetPage != physicalPage;
      if catchup { updateRequired := true; }
      quickMode := false;
    }

    method Rearm()
      modifies this
      ensures State() == old(State()).(armed := true)
    {
      updateRequired := true;
    }
  }
}
