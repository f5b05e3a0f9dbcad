/**
 The temporal assertions of simulator/core/SimKernel.h.  A check happens after a
 scheduler event, at some virtual time and in some world; the monitors are shown
 to mean, over any run of checks, what their names promise.
 */
module Monitors {

  datatype Never<!W> = Never(tag: string, pred: W -> bool, failed: bool)

  datatype Eventually<!W> = Eventually(tag: string, pred: W -> bool, deadlineMs: nat, everTrue: bool, failed: bool)

  datatype After<!W> = After(tag: string, trigger: W -> bool, mustHappen: W -> bool, deadlineMs: nat,
                             armed: bool, armedAt: nat, ok: bool, failed: bool)

  datatype Failure = NeverFailed(tag: string, at: nat) | EventuallyFailed(tag: string) | AfterFailed(tag: string)

  datatype Check<+W> = Check(now: nat, world: W)

  // ---------- one monitor, one check ----------

  function CheckNever<W>(m: Never<W>, c: Check<W>): Never<W> {
    m.(failed := m.failed || m.pred(c.world))
  }

  function CheckEventually<W>(m: Eventually<W>, c: Check<W>): Eventually<W> {
    var seen := m.everTrue || m.pred(c.world);
    m.(everTrue := seen, failed := m.failed || (!seen && c.now >= m.deadlineMs))
  }

  function CheckAfter<W>(m: After<W>, c: Check<W>): After<W> {
    var armed := m.armed || m.trigger(c.world);
    var armedAt := if m.armed then m.armedAt else if armed then c.now else m.armedAt;
    var ok := m.ok || (armed && m.mustHappen(c.world));
    m.(armed := armed, armedAt := armedAt, ok := ok,
       failed := m.failed || (armed && !ok && c.now >= armedAt + m.deadlineMs))
  }

  // ---------- runs of checks ----------

  function RunNever<W>(m: Never<W>, run: seq<Check<W>>): Never<W> {
    if run == [] then m else CheckNever(RunNever(m, run[..|run| - 1]), run[|run| - 1])
  }

  function RunEventually<W>(m: Eventually<W>, run: seq<Check<W>>): Eventually<W> {
    if run == [] then m else CheckEventually(RunEventually(m, run[..|run| - 1]), run[|run| - 1])
  }

  function RunAfter<W>(m: After<W>, run: seq<Check<W>>): After<W> {
    if run == [] then m else CheckAfter(RunAfter(m, run[..|run| - 1]), run[|run| - 1])
  }

  /** A never-check fails exactly when its predicate held at some check. */
  lemma {:induction false} NeverMeansNever<W>(m: Never<W>, run: seq<Check<W>>)
    requires !m.failed
    ensures RunNever(m, run).failed <==> exists i :: 0 <= i < |run| && m.pred(run[i].world)
    ensures RunNever(m, run).pred == m.pred
  {
    if run == [] {
    } else {
      var init := run[..|run| - 1];
      NeverMeansNever(m, init);
      assert run == init + [run[|run| - 1]];
    }
  }

  /** The obligation did not hold at any of the checks `from` to `to`. */
  ghost predicate NotBetween<W>(pred: W -> bool, run: seq<Check<W>>, from: nat, to: nat)
    requires to < |run|
  {
    forall k :: from <= k <= to ==> !pred(run[k].world)
  }

  ghost predicate MissedDeadline<W>(m: Eventually<W>, run: seq<Check<W>>) {
    exists j :: 0 <= j < |run| && run[j].now >= m.deadlineMs && NotBetween(m.pred, run, 0, j)
  }

  lemma MissedDeadlineExtends<W>(m: Eventually<W>, init: seq<Check<W>>, last: Check<W>)
    ensures MissedDeadline(m, init + [last]) <==>
            MissedDeadline(m, init)
            || (last.now >= m.deadlineMs && NotBetween(m.pred, init + [last], 0, |init|))
  {
    var run := init + [last];
    if MissedDeadline(m, init) {
      var j :| 0 <= j < |init| && init[j].now >= m.deadlineMs && NotBetween(m.pred, init, 0, j);
      assert run[j] == init[j] && NotBetween(m.pred, run, 0, j);
    }
    if MissedDeadline(m, run) {
      var j :| 0 <= j < |run| && run[j].now >= m.deadlineMs && NotBetween(m.pred, run, 0, j);
      if j < |init| {
        assert forall k :: 0 <= k <= j ==> init[k] == run[k];
        assert NotBetween(m.pred, init, 0, j);
      }
    }
  }

  lemma NeverSoFar<W>(pred: W -> bool, init: seq<Check<W>>, last: Check<W>)
    ensures NotBetween(pred, init + [last], 0, |init|)
       <==> !pred(last.world) && forall i :: 0 <= i < |init| ==> !pred(init[i].world)
    ensures (exists i :: 0 <= i < |init + [last]| && pred((init + [last])[i].world))
       <==> pred(last.world) || exists i :: 0 <= i < |init| && pred(init[i].world)
  {
    var run := init + [last];
    assert run[|init|] == last && forall i :: 0 <= i < |init| ==> run[i] == init[i];
  }

  /** An eventually-check fails exactly when some check at or past the deadline is
      reached with the predicate false at every check so far. */
  lemma {:induction false} EventuallyMeansByDeadline<W>(m: Eventually<W>, run: seq<Check<W>>)
    requires !m.failed && !m.everTrue
    ensures var r := RunEventually(m, run);
            && r.pred == m.pred && r.deadlineMs == m.deadlineMs
            && (r.everTrue <==> exists i :: 0 <= i < |run| && m.pred(run[i].world))
            && (r.failed <==> MissedDeadline(m, run))
  {
    if run == [] {
    } else {
      hide MissedDeadline, NotBetween;
      var init, last := run[..|run| - 1], run[|run| - 1];
      EventuallyMeansByDeadline(m, init);
      MissedDeadlineExtends(m, init, last);
      NeverSoFar(m.pred, init, last);
      assert run == init + [last];
    }
  }

  /** The check that armed the monitor: the first one at which the trigger held. */
  ghost predicate ArmedBy<W>(m: After<W>, run: seq<Check<W>>, a: nat) {
    a < |run| && m.trigger(run[a].world) && forall k :: 0 <= k < a ==> !m.trigger(run[k].world)
  }

  ghost predicate MissedObligation<W>(m: After<W>, run: seq<Check<W>>) {
    exists a: nat, j: nat :: ArmedBy(m, run, a) && MissedAt(m, run, a, j)
  }

  ghost predicate Met<W>(m: After<W>, run: seq<Check<W>>) {
    exists a: nat, k: nat :: ArmedBy(m, run, a) && a <= k < |run| && m.mustHappen(run[k].world)
  }

  lemma ArmedByExtends<W>(m: After<W>, init: seq<Check<W>>, last: Check<W>, a: nat)
    ensures ArmedBy(m, init + [last], a) <==>
            ArmedBy(m, init, a)
            || (a == |init| && m.trigger(last.world) && forall k :: 0 <= k < |init| ==> !m.trigger(init[k].world))
  {
    var run := init + [last];
    assert forall k :: 0 <= k < |init| ==> run[k] == init[k];
    assert run[|init|] == last;
  }

  lemma ArmedByUnique<W>(m: After<W>, run: seq<Check<W>>, a: nat, b: nat)
    requires ArmedBy(m, run, a) && ArmedBy(m, run, b)
    ensures a == b
  {
  }

  /** Not armed by any check of the run. */
  ghost predicate Unarmed<W>(m: After<W>, run: seq<Check<W>>) {
    forall k :: 0 <= k < |run| ==> !m.trigger(run[k].world)
  }

  /** The state of the monitor in terms of the run alone. */
  ghost predicate AfterMeaning<W>(m: After<W>, run: seq<Check<W>>, r: After<W>) {
    && r.trigger == m.trigger && r.mustHappen == m.mustHappen && r.deadlineMs == m.deadlineMs
    && (r.armed <==> !Unarmed(m, run))
    && (r.armed ==> exists a: nat :: ArmedBy(m, run, a) && r.armedAt == run[a].now)
    && (r.ok <==> Met(m, run))
    && (r.failed <==> MissedObligation(m, run))
  }

  lemma UnarmedExtends<W>(m: After<W>, init: seq<Check<W>>, last: Check<W>)
    ensures Unarmed(m, init + [last]) <==> Unarmed(m, init) && !m.trigger(last.world)
    ensures Unarmed(m, init) ==> !Met(m, init) && !MissedObligation(m, init)
  {
    var run := init + [last];
    assert forall k :: 0 <= k < |init| ==> run[k] == init[k];
    assert run[|init|] == last;
  }

  /** An overdue check with the obligation unmet since arming. */
  ghost predicate MissedAt<W>(m: After<W>, run: seq<Check<W>>, a: nat, j: nat) {
    a <= j < |run| && run[j].now >= run[a].now + m.deadlineMs && NotBetween(m.mustHappen, run, a, j)
  }

  lemma MissedAtEarlier<W>(m: After<W>, init: seq<Check<W>>, last: Check<W>, a: nat, j: nat)
    requires j < |init|
    ensures MissedAt(m, init + [last], a, j) <==> MissedAt(m, init, a, j)
  {
    var run := init + [last];
    assert forall k :: 0 <= k < |init| ==> run[k] == init[k];
  }

  /** With the arming check known, what one more check adds. */
  lemma MetExtends<W>(m: After<W>, init: seq<Check<W>>, last: Check<W>, a: nat)
    requires ArmedBy(m, init + [last], a)
    ensures Met(m, init + [last]) <==> Met(m, init) || m.mustHappen(last.world)
  {
    var run := init + [last];
    assert forall k :: 0 <= k < |init| ==> run[k] == init[k];
    assert run[|init|] == last;
    ArmedByExtends(m, init, last, a);
    MetFrom(m, run, a);
    if a < |init| {
      MetFrom(m, init, a);
    } else {
      assert forall b: nat :: !ArmedBy(m, init, b);
    }
  }

  lemma MissedExtends<W>(m: After<W>, init: seq<Check<W>>, last: Check<W>, a: nat)
    requires ArmedBy(m, init + [last], a)
    ensures MissedObligation(m, init + [last]) <==>
            MissedObligation(m, init)
            || (!Met(m, init + [last]) && last.now >= (init + [last])[a].now + m.deadlineMs)
  {
    hide MissedAt, Met;
    var run := init + [last];
    ArmedByExtends(m, init, last, a);
    MissedFrom(m, run, a);
    forall j: nat | j < |init| ensures MissedAt(m, run, a, j) <==> MissedAt(m, init, a, j) {
      MissedAtEarlier(m, init, last, a, j);
    }
    MissedAtLast(m, init, last, a);
    MissedAtInside(m, run, a);
    MissedAtInside(m, init, a);
    if ArmedBy(m, init, a) {
      MissedFrom(m, init, a);
    } else {
      ArmedLast(m, init, last, a);
    }
  }

  lemma ArmedLast<W>(m: After<W>, init: seq<Check<W>>, last: Check<W>, a: nat)
    requires ArmedBy(m, init + [last], a) && !ArmedBy(m, init, a)
    ensures !MissedObligation(m, init)
    ensures forall j: nat :: j < |init| ==> !MissedAt(m, init, a, j)
  {
    ArmedByExtends(m, init, last, a);
  }

  lemma MissedAtInside<W>(m: After<W>, run: seq<Check<W>>, a: nat)
    ensures forall j: nat :: MissedAt(m, run, a, j) ==> j < |run|
  {
  }

  lemma MissedAtLast<W>(m: After<W>, init: seq<Check<W>>, last: Check<W>, a: nat)
    requires ArmedBy(m, init + [last], a)
    ensures MissedAt(m, init + [last], a, |init|) <==>
            !Met(m, init + [last]) && last.now >= (init + [last])[a].now + m.deadlineMs
  {
    MetFrom(m, init + [last], a);
  }

  lemma MetFrom<W>(m: After<W>, run: seq<Check<W>>, a: nat)
    requires ArmedBy(m, run, a)
    ensures Met(m, run) <==> exists k: nat :: a <= k < |run| && m.mustHappen(run[k].world)
  {
    if Met(m, run) {
      var b: nat, k: nat :| ArmedBy(m, run, b) && b <= k < |run| && m.mustHappen(run[k].world);
      ArmedByUnique(m, run, a, b);
    }
  }

  lemma MissedFrom<W>(m: After<W>, run: seq<Check<W>>, a: nat)
    requires ArmedBy(m, run, a)
    ensures MissedObligation(m, run) <==> exists j: nat :: MissedAt(m, run, a, j)
  {
    if MissedObligation(m, run) {
      var b: nat, j: nat :| ArmedBy(m, run, b) && MissedAt(m, run, b, j);
      ArmedByUnique(m, run, a, b);
    }
  }

  /** An after-check arms at the first check where its trigger holds, and fails exactly
      when some check at or past arming time plus deadline is reached with the
      obligation false at every check since arming. */
  lemma {:induction false} AfterMeansWithinDeadline<W>(m: After<W>, run: seq<Check<W>>)
    requires !m.armed && !m.ok && !m.failed
    ensures AfterMeaning(m, run, RunAfter(m, run))
  {
    if run == [] {
      assert Unarmed(m, run);
    } else {
      var init, last := run[..|run| - 1], run[|run| - 1];
      AfterMeansWithinDeadline(m, init);
      assert run == init + [last];
      AfterMeaningStep(m, init, last, RunAfter(m, init));
    }
  }

  lemma AfterMeaningStep<W>(m: After<W>, init: seq<Check<W>>, last: Check<W>, r: After<W>)
    requires AfterMeaning(m, init, r)
    ensures AfterMeaning(m, init + [last], CheckAfter(r, last))
  {
    var run := init + [last];
    UnarmedExtends(m, init, last);
    if !Unarmed(m, run) {
      var a := FirstTrigger(m, run);
      ArmedByExtends(m, init, last, a);
      MetExtends(m, init, last, a);
      MissedExtends(m, init, last, a);
      if r.armed {
        var b: nat :| ArmedBy(m, init, b) && r.armedAt == init[b].now;
        ArmedByExtends(m, init, last, b);
        ArmedByUnique(m, run, a, b);
        assert run[a] == init[a];
      } else {
        assert a == |init|;
      }
    } else {
      UnarmedExtends(m, run, last);
    }
  }

  lemma FirstTrigger<W>(m: After<W>, run: seq<Check<W>>) returns (a: nat)
    requires !Unarmed(m, run)
    ensures ArmedBy(m, run, a)
  {
    a := 0;
    while !m.trigger(run[a].world)
      invariant a < |run| && forall k :: 0 <= k < a ==> !m.trigger(run[k].world)
      decreases |run| - a
    {
      a := a + 1;
    }
  }

  // ---------- reports ----------

  /** A never-check reports when it fails for the first time. */
  predicate NeverReports<W>(m: Never<W>, c: Check<W>) { !m.failed && CheckNever(m, c).failed }

  predicate EventuallyReports<W>(m: Eventually<W>, c: Check<W>) { !m.failed && CheckEventually(m, c).failed }

  predicate AfterReports<W>(m: After<W>, c: Check<W>) { !m.failed && CheckAfter(m, c).failed }

  function NeverReportCount<W>(m: Never<W>, run: seq<Check<W>>): nat {
    if run == [] then 0
    else NeverReportCount(m, run[..|run| - 1])
         + (if NeverReports(RunNever(m, run[..|run| - 1]), run[|run| - 1]) then 1 else 0)
  }

  function EventuallyReportCount<W>(m: Eventually<W>, run: seq<Check<W>>): nat {
    if run == [] then 0
    else EventuallyReportCount(m, run[..|run| - 1])
         + (if EventuallyReports(RunEventually(m, run[..|run| - 1]), run[|run| - 1]) then 1 else 0)
  }

  function AfterReportCount<W>(m: After<W>, run: seq<Check<W>>): nat {
    if run == [] then 0
    else AfterReportCount(m, run[..|run| - 1])
         + (if AfterReports(RunAfter(m, run[..|run| - 1]), run[|run| - 1]) then 1 else 0)
  }

  /** Over any run of event-driven checks each failed monitor is reported once, and only failed ones are. */
  lemma {:induction false} ReportedOnce<W>(n: Never<W>, e: Eventually<W>, a: After<W>, run: seq<Check<W>>)
    requires !n.failed && !e.failed && !a.failed
    ensures NeverReportCount(n, run) == if RunNever(n, run).failed then 1 else 0
    ensures EventuallyReportCount(e, run) == if RunEventually(e, run).failed then 1 else 0
    ensures AfterReportCount(a, run) == if RunAfter(a, run).failed then 1 else 0
  {
    if run == [] {
    } else {
      ReportedOnce(n, e, a, run[..|run| - 1]);
    }
  }

  /** What `finish` reports for one eventually-monitor: its own pass first, then one more liveness check. */
  function FinishReportCount<W>(m: Eventually<W>, c: Check<W>): nat {
    (if !m.everTrue && !m.failed then 1 else 0) + (if EventuallyReports(m, c) then 1 else 0)
  }

  /** `finish` is not idempotent about reporting: its own pass does not mark the
      monitor, so the closing check repeats the report exactly when the deadline has
      been reached and the predicate is still false. */
  lemma FinishReportsTwiceIff<W>(m: Eventually<W>, c: Check<W>)
    ensures FinishReportCount(m, c) == 2
       <==> !m.everTrue && !m.failed && !m.pred(c.world) && c.now >= m.deadlineMs
    ensures FinishReportCount(m, c) == 0 <==> m.everTrue || m.failed
  {
  }

  /** A monitor whose predicate becomes true just in time for the closing check is reported all the same. */
  lemma FinishReportsLateTruth(now: nat)
    ensures var m := Eventually("late", (w: bool) => w, now, false, false);
            var c := Check(now, true);
            FinishReportCount(m, c) == 1 && !CheckEventually(m, c).failed
  {
  }

  // ---------- the collection ----------

  function NeverFailures<W>(ms: seq<Never<W>>, c: Check<W>): seq<Failure> {
    if ms == [] then []
    else NeverFailures(ms[..|ms| - 1], c)
         + (if NeverReports(ms[|ms| - 1], c) then [NeverFailed(ms[|ms| - 1].tag, c.now)] else [])
  }

  function EventuallyFailures<W>(ms: seq<Eventually<W>>, c: Check<W>): seq<Failure> {
    if ms == [] then []
    else EventuallyFailures(ms[..|ms| - 1], c)
         + (if EventuallyReports(ms[|ms| - 1], c) then [EventuallyFailed(ms[|ms| - 1].tag)] else [])
  }

  function AfterFailures<W>(ms: seq<After<W>>, c: Check<W>): seq<Failure> {
    if ms == [] then []
    else AfterFailures(ms[..|ms| - 1], c)
         + (if AfterReports(ms[|ms| - 1], c) then [AfterFailed(ms[|ms| - 1].tag)] else [])
  }

  lemma OneMoreMonitor<W>(n: seq<Never<W>>, e: seq<Eventually<W>>, a: seq<After<W>>, i: nat, c: Check<W>)
    ensures i < |n| ==>
              NeverFailures(n[..i + 1], c) ==
                NeverFailures(n[..i], c) + (if NeverReports(n[i], c) then [NeverFailed(n[i].tag, c.now)] else [])
    ensures i < |e| ==>
              EventuallyFailures(e[..i + 1], c) ==
                EventuallyFailures(e[..i], c)
                + (if EventuallyReports(e[i], c) then [EventuallyFailed(e[i].tag)] else [])
    ensures i < |a| ==>
              AfterFailures(a[..i + 1], c) ==
                AfterFailures(a[..i], c) + (if AfterReports(a[i], c) then [AfterFailed(a[i].tag)] else [])
  {
    hide NeverReports, EventuallyReports, AfterReports;
    if i < |n| { assert n[..i + 1][..i] == n[..i]; }
    if i < |e| { assert e[..i + 1][..i] == e[..i]; }
    if i < |a| { assert a[..i + 1][..i] == a[..i]; }
  }

  /** What the first pass of `finish` reports. */
  function OverdueFailures<W>(ms: seq<Eventually<W>>): seq<Failure> {
    if ms == [] then []
    else OverdueFailures(ms[..|ms| - 1])
         + (if !ms[|ms| - 1].everTrue && !ms[|ms| - 1].failed then [EventuallyFailed(ms[|ms| - 1].tag)] else [])
  }

  /** What `finish` reports for a monitor that is alone is what is counted for it above. */
  lemma FinishOfOne<W>(m: Eventually<W>, c: Check<W>)
    ensures |OverdueFailures([m]) + EventuallyFailures([m], c)| == FinishReportCount(m, c)
    ensures forall f :: f in OverdueFailures([m]) + EventuallyFailures([m], c) ==> f == EventuallyFailed(m.tag)
  {
    assert [m][..0] == [];
  }

  /** And in a collection every monitor is treated alone, in order. */
  lemma FinishOneByOne<W>(ms: seq<Eventually<W>>, m: Eventually<W>)
    ensures OverdueFailures(ms + [m]) == OverdueFailures(ms) + OverdueFailures([m])
  {
    assert (ms + [m])[..|ms|] == ms && [m][..0] == [];
  }

  class SimAssertions<W(!new)> {
    var eventually: seq<Eventually<W>>
    var never: seq<Never<W>>
    var after: seq<After<W>>
    var failures: seq<Failure>

    constructor ()
      ensures eventually == [] && never == [] && after == [] && failures == []
    {
      eventually, never, after, failures := [], [], [], [];
    }

    method AddNever(tag: string, pred: W -> bool)
      modifies this`never
      ensures never == old(never) + [Never(tag, pred, false)]
    {
      never := never + [Never(tag, pred, false)];
    }

    method AddEventually(tag: string, pred: W -> bool, deadlineMs: nat)
      modifies this`eventually
      ensures eventually == old(eventually) + [Eventually(tag, pred, deadlineMs, false, false)]
    {
      eventually := eventually + [Eventually(tag, pred, deadlineMs, false, false)];
    }

    method AddAfter(tag: string, trigger: W -> bool, mustHappen: W -> bool, deadlineMs: nat)
      modifies this`after
      ensures after == old(after) + [After(tag, trigger, mustHappen, deadlineMs, false, 0, false, false)]
    {
      after := after + [After(tag, trigger, mustHappen, deadlineMs, false, 0, false, false)];
    }

    method CheckSafety(c: Check<W>)
      modifies this`never, this`failures
      ensures |never| == |old(never)|
      ensures forall i :: 0 <= i < |never| ==> never[i] == CheckNever(old(never)[i], c)
      ensures failures == old(failures) + NeverFailures(old(never), c)
    {
      var i := 0;
      ghost var was := never;
      while i < |never|
        invariant i <= |never| == |was|
        invariant forall j :: 0 <= j < i ==> never[j] == CheckNever(was[j], c)
        invariant forall j :: i <= j < |was| ==> never[j] == was[j]
        invariant failures == old(failures) + NeverFailures(was[..i], c)
      {
        var m := never[i];
        OneMoreMonitor(was, [], [], i, c);
        if !m.failed && m.pred(c.world) {
          never := never[i := m.(failed := true)];
          failures := failures + [NeverFailed(m.tag, c.now)];
        }
        i := i + 1;
      }
      assert was[..i] == was;
    }

    method CheckLiveness(c: Check<W>)
      modifies this`eventually, this`after, this`failures
      ensures |eventually| == |old(eventually)| && |after| == |old(after)|
      ensures forall i :: 0 <= i < |eventually| ==> eventually[i] == CheckEventually(old(eventually)[i], c)
      ensures forall i :: 0 <= i < |after| ==> after[i] == CheckAfter(old(after)[i], c)
      ensures failures == old(failures) + (EventuallyFailures(old(eventually), c) + AfterFailures(old(after), c))
    {
      CheckEventuallyAll(c);
      CheckAfterAll(c);
    }

    method CheckEventuallyAll(c: Check<W>)
      modifies this`eventually, this`failures
      ensures |eventually| == |old(eventually)|
      ensures forall i :: 0 <= i < |eventually| ==> eventually[i] == CheckEventually(old(eventually)[i], c)
      ensures failures == old(failures) + EventuallyFailures(old(eventually), c)
    {
      var i := 0;
      ghost var was := eventually;
      while i < |eventually|
        invariant i <= |eventually| == |was|
        invariant forall j :: 0 <= j < i ==> eventually[j] == CheckEventually(was[j], c)
        invariant forall j :: i <= j < |was| ==> eventually[j] == was[j]
        invariant failures == old(failures) + EventuallyFailures(was[..i], c)
      {
        var m := eventually[i];
        OneMoreMonitor([], was, [], i, c);
        if m.pred(c.world) { m := m.(everTrue := true); }
        if !m.everTrue && c.now >= m.deadlineMs && !m.failed {
          m := m.(failed := true);
          failures := failures + [EventuallyFailed(m.tag)];
        }
        eventually := eventually[i := m];
        i := i + 1;
      }
      assert was[..i] == was;
    }

    method CheckAfterAll(c: Check<W>)
      modifies this`after, this`failures
      ensures |after| == |old(after)|
      ensures forall i :: 0 <= i < |after| ==> after[i] == CheckAfter(old(after)[i], c)
      ensures failures == old(failures) + AfterFailures(old(after), c)
    {
      hide CheckAfter, AfterReports;
      var i := 0;
      ghost var was := after;
      while i < |after|
        invariant i <= |after| == |was|
        invariant forall j :: 0 <= j < i ==> after[j] == CheckAfter(was[j], c)
        invariant forall j :: i <= j < |was| ==> after[j] == was[j]
        invariant failures == old(failures) + AfterFailures(was[..i], c)
      {
        OneMoreMonitor([], [], was, i, c);
        var m, reported := CheckOneAfter(after[i], c);
        if reported { failures := failures + [AfterFailed(m.tag)]; }
        after := after[i := m];
        i := i + 1;
      }
      assert was[..i] == was;
    }

    /** The body of that loop. */
    method CheckOneAfter(was: After<W>, c: Check<W>) returns (m: After<W>, reported: bool)
      ensures m == CheckAfter(was, c) && reported == AfterReports(was, c) && m.tag == was.tag
    {
      m, reported := was, false;
      if !m.armed && m.trigger(c.world) { m := m.(armed := true, armedAt := c.now); }
      if m.armed && !m.ok && m.mustHappen(c.world) { m := m.(ok := true); }
      if m.armed && !m.ok && !m.failed && c.now >= m.armedAt + m.deadlineMs {
        m := m.(failed := true);
        reported := true;
      }
    }

    /** End of scenario: the overdue pass, then one safety and one liveness check. */
    method Finish(c: Check<W>)
      modifies this
      ensures failures == old(failures) + OverdueFailures(old(eventually)) + NeverFailures(old(never), c)
                        + (EventuallyFailures(old(eventually), c) + AfterFailures(old(after), c))
    {
      var i := 0;
      while i < |eventually|
        invariant i <= |eventually| && eventually == old(eventually) && never == old(never) && after == old(after)
        invariant failures == old(failures) + OverdueFailures(eventually[..i])
      {
        assert eventually[..i + 1][..i] == eventually[..i];
        if !eventually[i].everTrue && !eventually[i].failed {
          failures := failures + [EventuallyFailed(eventually[i].tag)];
        }
        i := i + 1;
      }
      assert eventually[..i] == eventually;
      CheckSafety(c);
      CheckLiveness(c);
    }
  }
}
