/**
 The tilt page-turn machine of firmware/src/TiltPageTurnDetector.cpp
 (`processPageTurn` and `resolveAction`), fed an arbitrary sequence of samples.
 */
module Tilt {

  datatype Dir = NoDir | LeftTilt | RightTilt

  datatype Phase = Idle | Tilting | Triggered | Cooldown

  datatype Action = NoAction | PrevPage | NextPage | ToggleAutoPageTurn | OpenMenu

  datatype Settings = Settings(triggerAngle: real, releaseAngle: real, holdMs: nat, cooldownMs: nat,
                               left: nat, right: nat, largeLeft: nat, largeRight: nat)

  datatype Sample = Sample(roll: real, now: nat)

  datatype State = State(phase: Phase, dir: Dir, large: bool, tiltStart: nat, cooldownStart: nat)

  const INITIAL := State(Idle, NoDir, false, 0, 0)

  const LARGE_ANGLE := 70.0

  function Abs(v: real): real { if v < 0.0 then -v else v }

  function DirOf(cfg: Settings, s: Sample): Dir {
    if s.roll > cfg.triggerAngle then RightTilt else if s.roll < -cfg.triggerAngle then LeftTilt else NoDir
  }

  predicate IsFlat(cfg: Settings, s: Sample) { Abs(s.roll) < cfg.releaseAngle }

  predicate IsLarge(s: Sample) { Abs(s.roll) > LARGE_ANGLE }

  function ResolveAction(cfg: Settings, dir: Dir, large: bool): Action {
    if dir == NoDir then NoAction
    else if large then
      var code := if dir == LeftTilt then cfg.largeLeft else cfg.largeRight;
      if code == 0 then PrevPage else if code == 1 then NextPage
      else if code == 2 then ToggleAutoPageTurn else if code == 3 then OpenMenu else NoAction
    else
      var code := if dir == LeftTilt then cfg.left else cfg.right;
      if code == 0 then PrevPage else if code == 1 then NextPage else NoAction
  }

  /** One sample. */
  function Processed(cfg: Settings, st: State, s: Sample): State {
    var dir := DirOf(cfg, s);
    match st.phase
    case Idle =>
      if dir != NoDir then st.(phase := Tilting, dir := dir, large := IsLarge(s), tiltStart := s.now) else st
    case Tilting =>
      if dir != st.dir then st.(phase := Idle, dir := NoDir)
      else
        st.(large := st.large || IsLarge(s),
            phase := if s.now - st.tiltStart >= cfg.holdMs then Triggered else Tilting)
    case Triggered => st.(phase := Cooldown, cooldownStart := s.now, dir := NoDir, large := false)
    case Cooldown =>
      if s.now - st.cooldownStart >= cfg.cooldownMs && IsFlat(cfg, s) then st.(phase := Idle) else st
  }

  /** The action the sample resolves, if the machine was triggered. */
  function Fired(cfg: Settings, st: State): Action {
    if st.phase == Triggered then ResolveAction(cfg, st.dir, st.large) else NoAction
  }

  // ---------- runs ----------

  /** The state before sample `n`. */
  function StateAt(cfg: Settings, run: seq<Sample>, n: nat): State
    requires n <= |run|
  {
    if n == 0 then INITIAL else Processed(cfg, StateAt(cfg, run, n - 1), run[n - 1])
  }

  ghost predicate TimeMovesOn(run: seq<Sample>) {
    forall i, j :: 0 <= i <= j < |run| ==> run[i].now <= run[j].now
  }

  /** Sample `n` resolves the trigger, whatever action that is. */
  predicate FiresAt(cfg: Settings, run: seq<Sample>, n: nat)
    requires n < |run|
  {
    StateAt(cfg, run, n).phase == Triggered
  }

  /** Samples `from` to `till` all tilt in direction `dir`. */
  ghost predicate Unbroken(cfg: Settings, run: seq<Sample>, from: nat, till: nat, dir: Dir) {
    from <= till < |run| && dir != NoDir && forall i :: from <= i <= till ==> DirOf(cfg, run[i]) == dir
  }

  ghost predicate SomeLarge(run: seq<Sample>, from: nat, till: nat) {
    exists i :: from <= i <= till < |run| && IsLarge(run[i])
  }

  /** A tilt that began when the machine was idle before sample `from`, is unbroken
      up to `till`, and is described by the state. */
  ghost predicate TiltSince(cfg: Settings, run: seq<Sample>, st: State, from: nat, till: nat) {
    && Unbroken(cfg, run, from, till, st.dir)
    && StateAt(cfg, run, from).phase == Idle
    && (forall i :: from < i <= till ==> StateAt(cfg, run, i).phase == Tilting)
    && st.tiltStart == run[from].now
    && (st.large <==> SomeLarge(run, from, till))
  }

  lemma SomeLargeExtends(run: seq<Sample>, from: nat, till: nat)
    requires from <= till && till + 1 < |run|
    ensures SomeLarge(run, from, till + 1) <==> SomeLarge(run, from, till) || IsLarge(run[till + 1])
  {
    if SomeLarge(run, from, till) {
      var i :| from <= i <= till < |run| && IsLarge(run[i]);
      assert from <= i <= till + 1;
    }
  }

  /** The state before sample `n` describes a tilt that began with sample `from`. */
  ghost predicate Remembers(cfg: Settings, run: seq<Sample>, n: nat, from: nat)
    requires n <= |run|
  {
    from < n && TiltSince(cfg, run, StateAt(cfg, run, n), from, n - 1)
  }

  /** While tilting or triggered, the state remembers exactly the tilt under way. */
  lemma {:induction false} StateRemembersTilt(cfg: Settings, run: seq<Sample>, n: nat)
    requires n <= |run|
    ensures StateAt(cfg, run, n).phase in {Tilting, Triggered} ==> exists from: nat :: Remembers(cfg, run, n, from)
    ensures StateAt(cfg, run, n).phase == Triggered ==>
              forall from: nat :: Remembers(cfg, run, n, from) ==>
                from < n - 1 && run[n - 1].now - run[from].now >= cfg.holdMs
  {
    if n == 0 {
    } else {
      StateRemembersTilt(cfg, run, n - 1);
      var before, st := StateAt(cfg, run, n - 1), StateAt(cfg, run, n);
      if st.phase == Tilting || st.phase == Triggered {
        if before.phase == Idle {
          assert Remembers(cfg, run, n, n - 1);
        } else {
          var from: nat :| Remembers(cfg, run, n - 1, from);
          SomeLargeExtends(run, from, n - 2);
          assert Remembers(cfg, run, n, from);
        }
      }
    }
  }

  /** Every action follows an unbroken same-direction tilt of at least the hold
      time, ending with the sample before it, and is the large-tilt action exactly
      when some sample of that tilt was large. */
  lemma ActionFollowsHeldTilt(cfg: Settings, run: seq<Sample>, n: nat) returns (from: nat, dir: Dir)
    requires n < |run| && FiresAt(cfg, run, n)
    ensures n > 0 && from < n - 1 && Unbroken(cfg, run, from, n - 1, dir)
    ensures run[n - 1].now - run[from].now >= cfg.holdMs
    ensures Fired(cfg, StateAt(cfg, run, n)) == ResolveAction(cfg, dir, SomeLarge(run, from, n - 1))
  {
    StateRemembersTilt(cfg, run, n);
    var st := StateAt(cfg, run, n);
    from :| Remembers(cfg, run, n, from);
    dir := st.dir;
  }

  /** Conversely a tilt that starts on an idle machine and is held fires: the first
      sample, after the first, that reaches the hold time triggers, and the next one fires. */
  lemma {:induction false} TiltStaysUnderWay(cfg: Settings, run: seq<Sample>, from: nat, till: nat, dir: Dir)
    requires Unbroken(cfg, run, from, till, dir) && StateAt(cfg, run, from).phase == Idle
    requires forall i :: from < i < till ==> run[i].now - run[from].now < cfg.holdMs
    ensures var st := StateAt(cfg, run, till + 1);
            && st.dir == dir && st.tiltStart == run[from].now && (st.large <==> SomeLarge(run, from, till))
            && st.phase == if till > from && run[till].now - run[from].now >= cfg.holdMs then Triggered else Tilting
    decreases till - from
  {
    if till == from {
    } else {
      TiltStaysUnderWay(cfg, run, from, till - 1, dir);
      SomeLargeExtends(run, from, till - 1);
    }
  }

  lemma HeldTiltFires(cfg: Settings, run: seq<Sample>, from: nat, till: nat, dir: Dir)
    requires from < till && Unbroken(cfg, run, from, till, dir) && StateAt(cfg, run, from).phase == Idle
    requires till + 1 < |run| && run[till].now - run[from].now >= cfg.holdMs
    requires forall i :: from < i < till ==> run[i].now - run[from].now < cfg.holdMs
    ensures FiresAt(cfg, run, till + 1)
    ensures Fired(cfg, StateAt(cfg, run, till + 1)) == ResolveAction(cfg, dir, SomeLarge(run, from, till))
  {
    TiltStaysUnderWay(cfg, run, from, till, dir);
  }

  /** The setting that a tilt to the given side looks up. */
  function CodeFor(cfg: Settings, right: bool, large: bool): nat {
    if large then (if right then cfg.largeRight else cfg.largeLeft) else (if right then cfg.right else cfg.left)
  }

  /** What a setting stands for; only a large tilt toggles page turning or opens the menu. */
  predicate Does(code: nat, large: bool, a: Action) {
    match a
    case PrevPage => code == 0
    case NextPage => code == 1
    case ToggleAutoPageTurn => code == 2 && large
    case OpenMenu => code == 3 && large
    case NoAction => code > 3 || (code > 1 && !large)
  }

  /** In terms of the angles alone: an idle reader held beyond the trigger angle to one
      side, from sample `from` until sample `till` reaches the hold time, answers at the
      next sample with what the setting for that side says, the one for large tilts exactly
      when some angle of the tilt was beyond 70 degrees. */
  lemma HeldAngleActs(cfg: Settings, run: seq<Sample>, from: nat, till: nat, right: bool)
    requires cfg.triggerAngle >= 0.0 && from < till && till + 1 < |run|
    requires StateAt(cfg, run, from).phase == Idle
    requires forall i :: from <= i <= till ==> (if right then run[i].roll else -run[i].roll) > cfg.triggerAngle
    requires run[till].now - run[from].now >= cfg.holdMs
    requires forall i :: from < i < till ==> run[i].now - run[from].now < cfg.holdMs
    ensures FiresAt(cfg, run, till + 1)
    ensures var large := exists i :: from <= i <= till && (run[i].roll > 70.0 || run[i].roll < -70.0);
            Does(CodeFor(cfg, right, large), large, Fired(cfg, StateAt(cfg, run, till + 1)))
  {
    hide StateAt, Fired, FiresAt;
    var dir := if right then RightTilt else LeftTilt;
    assert Unbroken(cfg, run, from, till, dir);
    HeldTiltFires(cfg, run, from, till, dir);
    LargeIff(run, from, till);
  }

  lemma LargeIff(run: seq<Sample>, from: nat, till: nat)
    requires till < |run|
    ensures SomeLarge(run, from, till)
       <==> exists i :: from <= i <= till && (run[i].roll > 70.0 || run[i].roll < -70.0)
  {
    if exists i :: from <= i <= till && (run[i].roll > 70.0 || run[i].roll < -70.0) {
      var i :| from <= i <= till && (run[i].roll > 70.0 || run[i].roll < -70.0);
      assert IsLarge(run[i]);
    }
  }

  /** Conversely, in terms of the angles: an action comes only after angles that were all
      beyond the trigger angle to one side, from an idle machine on, for at least the hold
      time, and it is the one that the setting for that side says. */
  lemma ActionFollowsAngles(cfg: Settings, run: seq<Sample>, n: nat) returns (from: nat, right: bool)
    requires cfg.triggerAngle >= 0.0 && n < |run| && FiresAt(cfg, run, n)
    ensures n > 0 && from < n - 1 && run[n - 1].now - run[from].now >= cfg.holdMs
    ensures forall i :: from <= i < n ==> (if right then run[i].roll else -run[i].roll) > cfg.triggerAngle
    ensures var large := exists i :: from <= i <= n - 1 && (run[i].roll > 70.0 || run[i].roll < -70.0);
            Does(CodeFor(cfg, right, large), large, Fired(cfg, StateAt(cfg, run, n)))
  {
    hide StateAt, Fired, FiresAt;
    var dir;
    from, dir := ActionFollowsHeldTilt(cfg, run, n);
    right := dir == RightTilt;
    LargeIff(run, from, n - 1);
  }

  /** The cooldown ends at the first sample, once it is over, whose angle is within the
      release angle on both sides, and at no other. */
  lemma CooldownEndsIff(cfg: Settings, run: seq<Sample>, n: nat)
    requires n < |run| && StateAt(cfg, run, n).phase == Cooldown
    ensures var st := StateAt(cfg, run, n);
            StateAt(cfg, run, n + 1).phase == Idle
            <==> run[n].now - st.cooldownStart >= cfg.cooldownMs
                 && -cfg.releaseAngle < run[n].roll < cfg.releaseAngle
    ensures StateAt(cfg, run, n + 1).phase in {Idle, Cooldown}
  {
  }

  // ---------- distance between actions ----------

  /** After the action of sample `n` the machine is in cooldown from then on, until a
      flat sample at least the cooldown later. */
  ghost predicate FlatAfter(cfg: Settings, run: seq<Sample>, n: nat, k: nat) {
    n < k < |run| && IsFlat(cfg, run[k]) && run[k].now - run[n].now >= cfg.cooldownMs
  }

  lemma {:induction false} CooldownLasts(cfg: Settings, run: seq<Sample>, n: nat, m: nat)
    requires n < m <= |run| && FiresAt(cfg, run, n)
    ensures var st := StateAt(cfg, run, m);
            || (st.phase == Cooldown && st.cooldownStart == run[n].now)
            || exists k: nat :: FlatAfter(cfg, run, n, k) && k < m
    decreases m
  {
    if m == n + 1 {
    } else {
      CooldownLasts(cfg, run, n, m - 1);
      var before := StateAt(cfg, run, m - 1);
      if before.phase == Cooldown && before.cooldownStart == run[n].now {
        if StateAt(cfg, run, m).phase != Cooldown { assert FlatAfter(cfg, run, n, m - 1); }
      }
    }
  }

  /** When the machine is idle again after an action, a qualifying flat sample has passed. */
  lemma IdleAgainAfterFlat(cfg: Settings, run: seq<Sample>, n: nat, m: nat) returns (k: nat)
    requires n < m <= |run| && FiresAt(cfg, run, n) && StateAt(cfg, run, m).phase == Idle
    ensures FlatAfter(cfg, run, n, k) && k < m
  {
    CooldownLasts(cfg, run, n, m);
    k :| FlatAfter(cfg, run, n, k) && k < m;
  }

  lemma FlatTime(cfg: Settings, run: seq<Sample>, n: nat, k: nat)
    requires FlatAfter(cfg, run, n, k)
    ensures n < k < |run| && IsFlat(cfg, run[k]) && run[k].now >= run[n].now + cfg.cooldownMs
  {
  }

  /** Two actions are at least hold plus cooldown apart, with a flat sample between them. */
  lemma ActionsAreApart(cfg: Settings, run: seq<Sample>, n: nat, m: nat) returns (flat: nat)
    requires TimeMovesOn(run) && n < m < |run| && FiresAt(cfg, run, n) && FiresAt(cfg, run, m)
    ensures run[m].now - run[n].now >= cfg.holdMs + cfg.cooldownMs
    ensures n < flat < m && -cfg.releaseAngle < run[flat].roll < cfg.releaseAngle
  {
    hide StateAt, Processed, SomeLarge, DirOf, Unbroken, FlatAfter;
    StateRemembersTilt(cfg, run, m);
    var from: nat :| Remembers(cfg, run, m, from);
    assert n < from;
    flat := IdleAgainAfterFlat(cfg, run, n, from);
    FlatTime(cfg, run, n, flat);
  }

  class TiltPageTurnDetector {
    var pageState: Phase
    var tiltDir: Dir
    var largeTilt: bool
    var tiltStartTime: nat
    var cooldownStartTime: nat
    var delivered: seq<Action>  // what the action callback received

    function Machine(): State
      reads this
    {
      State(pageState, tiltDir, largeTilt, tiltStartTime, cooldownStartTime)
    }

    constructor ()
      ensures Machine() == INITIAL && delivered == []
    {
      pageState, tiltDir, largeTilt := Idle, NoDir, false;
      tiltStartTime, cooldownStartTime, delivered := 0, 0, [];
    }

    method ProcessPageTurn(cfg: Settings, s: Sample)
      modifies this
      ensures Machine() == Processed(cfg, old(Machine()), s)
      ensures delivered == old(delivered)
                         + (if Fired(cfg, old(Machine())) != NoAction then [Fired(cfg, old(Machine()))] else [])
    {
      var currentDir := NoDir;
      if s.roll > cfg.triggerAngle {
        currentDir := RightTilt;
      } else if s.roll < -cfg.triggerAngle {
        currentDir := LeftTilt;
      }
      var isFlat := Abs(s.roll) < cfg.releaseAngle;
      var isLarge := Abs(s.roll) > LARGE_ANGLE;
      match pageState {
        case Idle =>
          if currentDir != NoDir {
            pageState := Tilting;
            tiltDir := currentDir;
            largeTilt := isLarge;
            tiltStartTime := s.now;
          }
        case Tilting =>
          if currentDir != tiltDir {
            pageState := Idle;
            tiltDir := NoDir;
          } else {
            if isLarge { largeTilt := true; }
            if s.now - tiltStartTime >= cfg.holdMs { pageState := Triggered; }
          }
        case Triggered =>
          var action := ResolveAction(cfg, tiltDir, largeTilt);
          if action != NoAction { delivered := delivered + [action]; }
          pageState := Cooldown;
          cooldownStartTime := s.now;
          tiltDir := NoDir;
          largeTilt := false;
        case Cooldown =>
          if s.now - cooldownStartTime >= cfg.cooldownMs && isFlat { pageState := Idle; }
      }
    }
  }
}
