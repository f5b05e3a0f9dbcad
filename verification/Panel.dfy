/**
 The e-ink panel of simulator/hardware/SimPanel.h: the frame just drawn, the
 frame being refreshed and the frame the user sees.  `scheduled` is the panel's
 share of the scheduler queue: completions handed over and not run yet.
 */
module Panel {

  import opened Sequences

  datatype Tag = Tag(generation: nat, chapter: int, page: int, frameHash: nat)

  datatype Frame = Frame(tag: Tag, valid: bool)

  /** A scheduled end of BUSY: the token it was submitted under and the page its
      callback will report. */
  datatype Completion = Completion(token: nat, page: int)

  datatype PanelState = PanelState(renderFB: Frame, pending: Frame, physical: Frame, busy: bool, token: nat,
                                   scheduled: seq<Completion>)

  const NO_FRAME := Frame(Tag(0, 0, -1, 0), false)

  const POWER_ON := PanelState(NO_FRAME, NO_FRAME, NO_FRAME, false, 0, [])

  function Rendered(p: PanelState, tag: Tag): PanelState {
    p.(renderFB := Frame(tag, true))
  }

  predicate Accepts(p: PanelState) {
    !p.busy && p.renderFB.valid
  }

  function Submitted(p: PanelState, callbackPage: int): PanelState {
    if Accepts(p) then
      p.(pending := p.renderFB, renderFB := p.renderFB.(valid := false), busy := true, token := p.token + 1,
         scheduled := p.scheduled + [Completion(p.token + 1, callbackPage)])
    else p
  }

  /** BUSY ends: the pending frame becomes the physical one. */
  function CommittedFrame(p: PanelState): PanelState {
    if p.pending.valid then p.(physical := p.pending, busy := false, pending := p.pending.(valid := false)) else p
  }

  /** The k-th scheduled completion runs; a stale token does nothing. */
  function Completed(p: PanelState, k: nat): PanelState
    requires k < |p.scheduled|
  {
    var q := p.(scheduled := Without(p.scheduled, k));
    if p.scheduled[k].token == p.token then CommittedFrame(q) else q
  }

  function Aborted(p: PanelState): PanelState {
    p.(token := p.token + 1, pending := p.pending.(valid := false), busy := false)
  }

  class SimPanel {
    var renderFB: Frame
    var pending: Frame
    var physical: Frame
    var busy: bool
    var refreshToken: nat
    var scheduled: seq<Completion>

    function State(): PanelState
      reads this
    {
      PanelState(renderFB, pending, physical, busy, refreshToken, scheduled)
    }

    constructor ()
      ensures State() == POWER_ON
    {
      renderFB, pending, physical := NO_FRAME, NO_FRAME, NO_FRAME;
      busy, refreshToken, scheduled := false, 0, [];
    }

    method Render(tag: Tag)
      modifies this
      ensures State() == Rendered(old(State()), tag)
    {
      renderFB := Frame(tag, true);
    }

    method Submit(callbackPage: int) returns (accepted: bool)
      modifies this
      ensures accepted == Accepts(old(State()))
      ensures State() == Submitted(old(State()), callbackPage)
    {
      if busy || !renderFB.valid { return false; }
      pending := renderFB.(valid := true);
      renderFB := renderFB.(valid := false);
      busy := true;
      refreshToken := refreshToken + 1;
      scheduled := scheduled + [Completion(refreshToken, callbackPage)];
      return true;
    }

    method Commit()
      modifies this
      ensures State() == CommittedFrame(old(State()))
      ensures if old(pending.valid) then physical == old(pending) && !busy && !pending.valid
              else State() == old(State())
    {
      if !pending.valid { return; }
      physical := pending;
      busy := false;
      pending := pending.(valid := false);
    }

    /** Runs a scheduled completion; the result is the page to report, if its callback runs. */
    method RunCompletion(k: nat) returns (live: bool, page: int)
      requires k < |scheduled|
      modifies this
      ensures State() == Completed(old(State()), k)
      ensures live == (old(scheduled)[k].token == old(refreshToken)) && page == old(scheduled)[k].page
    {
      var c := scheduled[k];
      page := c.page;
      scheduled := Without(scheduled, k);
      live := c.token == refreshToken;
      if live { Commit(); }
    }

    method AbortRefresh() returns (lost: Frame)
      modifies this
      ensures lost == old(pending) && State() == Aborted(old(State()))
    {
      lost := pending;
      refreshToken := refreshToken + 1;
      pending := pending.(valid := false);
      busy := false;
    }
  }
}
