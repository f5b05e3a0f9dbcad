/**
 The event queue and virtual clock of simulator/core/SimKernel.h.  Events run in
 order of time; at equal times the order comes from a seeded hash and, should
 hashes collide, from the order of scheduling.
 */
module Scheduler {

  import opened Sequences

  /** A queued event.  `tie` is the seeded hash of its time and sequence number. */
  datatype Event<+E> = Event(t: nat, seqNo: nat, tie: nat, body: E)

  /** `a` runs before `b`: the comparison of the priority queue. */
  predicate Before<E>(a: Event<E>, b: Event<E>) {
    || a.t < b.t
    || (a.t == b.t && a.tie < b.tie)
    || (a.t == b.t && a.tie == b.tie && a.seqNo < b.seqNo)
  }

  ghost predicate DistinctNumbers<E>(q: seq<Event<E>>) {
    forall i, j :: 0 <= i < j < |q| ==> q[i].seqNo != q[j].seqNo
  }

  ghost predicate InOrder<E>(run: seq<Event<E>>) {
    forall i, j :: 0 <= i < j < |run| ==> Before(run[i], run[j])
  }

  /** In order means by time; at one time by the seeded hash; and should that be the same,
      by the order of scheduling. */
  lemma OrderMeans<E>(run: seq<Event<E>>, i: nat, j: nat)
    requires InOrder(run) && i < j < |run|
    ensures run[i].t <= run[j].t
    ensures run[i].t == run[j].t ==> run[i].tie <= run[j].tie
    ensures run[i].t == run[j].t && run[i].tie == run[j].tie ==> run[i].seqNo < run[j].seqNo
  {
  }

  lemma WithoutMultiset<T>(s: seq<T>, k: nat)
    requires k < |s|
    ensures multiset(s) == multiset(Without(s, k)) + multiset{s[k]}
  {
    assert s == s[..k] + [s[k]] + s[k + 1..];
  }

  ghost predicate IsNext<E>(q: seq<Event<E>>, k: nat) {
    k < |q| && forall i :: 0 <= i < |q| && i != k ==> Before(q[k], q[i])
  }

  /** What taking the next event out leaves behind. */
  lemma WithoutNext<E>(q: seq<Event<E>>, k: nat, bound: nat)
    requires DistinctNumbers(q) && IsNext(q, k) && forall i :: 0 <= i < |q| ==> q[i].seqNo < bound
    ensures |Without(q, k)| == |q| - 1 && DistinctNumbers(Without(q, k))
    ensures forall i :: 0 <= i < |Without(q, k)| ==> Without(q, k)[i] in q
    ensures forall i :: 0 <= i < |Without(q, k)| ==> Without(q, k)[i].seqNo < bound
    ensures forall i :: 0 <= i < |Without(q, k)| ==> Before(q[k], Without(q, k)[i])
    ensures forall i :: 0 <= i < |Without(q, k)| ==> q[k].t <= Without(q, k)[i].t
  {
    forall i | 0 <= i < |Without(q, k)|
      ensures Without(q, k)[i] == if i < k then q[i] else q[i + 1]
    {
    }
  }

  lemma NextInRange<E>(q: seq<Event<E>>, k: nat)
    requires IsNext(q, k)
    ensures k < |q|
    ensures forall i :: 0 <= i < |q| ==> q[k].t <= q[i].t
  {
  }

  ghost predicate AllBefore<E>(run: seq<Event<E>>, q: seq<Event<E>>) {
    forall a, b :: a in run && b in q ==> Before(a, b)
  }

  lemma EmptyRun<E>()
    ensures InOrder<E>([]) && forall q: seq<Event<E>> :: AllBefore([], q)
  {
  }

  /** Running the next event keeps the run in order and before all that is left. */
  lemma RunExtends<E>(run: seq<Event<E>>, q: seq<Event<E>>, k: nat, rest: seq<Event<E>>)
    requires InOrder(run) && AllBefore(run, q) && k < |q|
    requires forall i :: 0 <= i < |rest| ==> rest[i] in q && Before(q[k], rest[i])
    ensures InOrder(run + [q[k]]) && AllBefore(run + [q[k]], rest)
  {
    forall a, b | a in run + [q[k]] && b in rest
      ensures Before(a, b)
    {
      assert a in run || a == q[k];
    }
  }

  // ---------- any mix of scheduling and running ----------

  /** The scheduler with a record of what was scheduled and what ran. */
  datatype Kernel<+E> = Kernel(queue: seq<Event<E>>, clock: nat, nextSeq: nat,
                               issued: seq<Event<E>>, ran: seq<Event<E>>)

  /** `seedHash`, of a time and a sequence number. */
  type Hash = (nat, nat) -> nat

  datatype Act<+E> =
    | Schedule(t: nat, body: E)  // scheduleAt, from outside or from a callback
    | RunNext                    // one turn of the run loop, without what its callback does
    | Rest(untilMs: nat)         // the run loop stops: the clock is set to its limit

  /** The event that runs next. */
  function NextIndex<E>(q: seq<Event<E>>): (k: nat)
    requires q != []
    ensures k < |q|
  {
    if |q| == 1 then 0
    else
      var k := 1 + NextIndex(q[1..]);
      if Before(q[0], q[k]) then 0 else k
  }

  lemma {:induction false} NextIndexIsNext<E>(q: seq<Event<E>>)
    requires q != [] && DistinctNumbers(q)
    ensures IsNext(q, NextIndex(q))
  {
    if |q| == 1 {
    } else {
      var k := 1 + NextIndex(q[1..]);
      assert forall i, j :: 0 <= i < j < |q| - 1 ==> q[1..][i] == q[i + 1] && q[1..][j] == q[j + 1];
      NextIndexIsNext(q[1..]);
      assert forall i :: 1 <= i < |q| && i != k ==> q[i] == q[1..][i - 1];
      assert q[0].seqNo != q[k].seqNo;
    }
  }

  lemma NextIsUnique<E>(q: seq<Event<E>>, k: nat)
    requires DistinctNumbers(q) && IsNext(q, k)
    ensures k == NextIndex(q)
  {
    NextIndexIsNext(q);
  }

  function Scheduled<E>(hash: Hash, s: Kernel<E>, t: nat, body: E): Kernel<E> {
    var e := Event(t, s.nextSeq, hash(t, s.nextSeq), body);
    s.(queue := s.queue + [e], nextSeq := s.nextSeq + 1, issued := s.issued + [e])
  }

  function RanNext<E>(s: Kernel<E>): Kernel<E>
    requires s.queue != []
  {
    var k := NextIndex(s.queue);
    s.(queue := Without(s.queue, k), clock := s.queue[k].t, ran := s.ran + [s.queue[k]])
  }

  /** The loop rests only before everything queued. */
  predicate Enabled<E>(s: Kernel<E>, a: Act<E>) {
    match a
    case Schedule(_, _) => true
    case RunNext => s.queue != []
    case Rest(untilMs) => forall i :: 0 <= i < |s.queue| ==> untilMs < s.queue[i].t
  }

  function Step<E>(hash: Hash, s: Kernel<E>, a: Act<E>): Kernel<E>
    requires Enabled(s, a)
  {
    match a
    case Schedule(t, body) => Scheduled(hash, s, t, body)
    case RunNext => RanNext(s)
    case Rest(untilMs) => s.(clock := untilMs)
  }

  predicate ValidRun<E>(hash: Hash, s: Kernel<E>, acts: seq<Act<E>>)
    decreases |acts|
  {
    acts == [] || (Enabled(s, acts[0]) && ValidRun(hash, Step(hash, s, acts[0]), acts[1..]))
  }

  function Run<E>(hash: Hash, s: Kernel<E>, acts: seq<Act<E>>): Kernel<E>
    requires ValidRun(hash, s, acts)
    decreases |acts|
  {
    if acts == [] then s else Run(hash, Step(hash, s, acts[0]), acts[1..])
  }

  ghost predicate Numbered<E>(s: Kernel<E>) {
    && s.nextSeq == |s.issued| + 1
    && forall i :: 0 <= i < |s.issued| ==> s.issued[i].seqNo == i + 1
  }

  /** What was scheduled is either queued or has run. */
  ghost predicate Accounted<E>(s: Kernel<E>) {
    && Numbered(s) && DistinctNumbers(s.queue)
    && (forall i :: 0 <= i < |s.queue| ==> s.queue[i].seqNo < s.nextSeq)
    && multiset(s.issued) == multiset(s.queue) + multiset(s.ran)
  }

  lemma ScheduleAccounts<E>(hash: Hash, s: Kernel<E>, t: nat, body: E)
    requires Accounted(s)
    ensures Accounted(Scheduled(hash, s, t, body))
  {
  }

  lemma RunNextAccounts<E>(s: Kernel<E>)
    requires Accounted(s) && s.queue != []
    ensures Accounted(RanNext(s)) && IsNext(s.queue, NextIndex(s.queue))
  {
    hide Without, DistinctNumbers, Before, IsNext, NextIndex;
    var k := NextIndex(s.queue);
    NextIndexIsNext(s.queue);
    WithoutNext(s.queue, k, s.nextSeq);
    WithoutMultiset(s.queue, k);
  }

  lemma StepAccounts<E>(hash: Hash, s: Kernel<E>, a: Act<E>)
    requires Accounted(s) && Enabled(s, a)
    ensures Accounted(Step(hash, s, a))
  {
    hide Scheduled, RanNext, NextIndex;
    match a {
      case Schedule(t, body) => ScheduleAccounts(hash, s, t, body);
      case RunNext => RunNextAccounts(s);
      case Rest(_) =>
    }
  }

  lemma {:induction false} RunAccounts<E>(hash: Hash, s: Kernel<E>, acts: seq<Act<E>>)
    requires Accounted(s) && ValidRun(hash, s, acts)
    ensures Accounted(Run(hash, s, acts))
    decreases |acts|
  {
    hide Accounted, Step, Enabled;
    if acts == [] {
    } else {
      StepAccounts(hash, s, acts[0]);
      RunAccounts(hash, Step(hash, s, acts[0]), acts[1..]);
    }
  }

  lemma {:induction false} NumberedOccurOnce<E>(issued: seq<Event<E>>, e: Event<E>)
    requires forall i :: 0 <= i < |issued| ==> issued[i].seqNo == i + 1
    ensures multiset(issued)[e] == if e in issued then 1 else 0
  {
    if issued == [] {
    } else {
      var init, last := issued[..|issued| - 1], issued[|issued| - 1];
      assert issued == init + [last];
      NumberedOccurOnce(init, e);
    }
  }

  function PowerOn<E>(): Kernel<E> { Kernel([], 0, 1, [], []) }

  /** Over any mix of scheduling, by callbacks or from outside, for the future or for the
      past, and running: every scheduled event has run exactly once or is queued exactly
      once, never both. */
  lemma EverythingRunsOnce<E>(hash: Hash, acts: seq<Act<E>>, e: Event<E>)
    requires ValidRun(hash, PowerOn(), acts)
    ensures var end := Run(hash, PowerOn(), acts);
            multiset(end.ran)[e] + multiset(end.queue)[e] == (if e in end.issued then 1 else 0)
  {
    hide Run, ValidRun;
    RunAccounts(hash, PowerOn(), acts);
    NumberedOccurOnce(Run(hash, PowerOn(), acts).issued, e);
  }

  // ---------- running in time ----------

  /** Nothing queued is overdue, and what ran did so in order of time, up to now. */
  ghost predicate InTime<E>(s: Kernel<E>) {
    && (forall i :: 0 <= i < |s.queue| ==> s.clock <= s.queue[i].t)
    && (forall i, j :: 0 <= i < j < |s.ran| ==> s.ran[i].t <= s.ran[j].t)
    && (forall i :: 0 <= i < |s.ran| ==> s.ran[i].t <= s.clock)
  }

  /** What a caller can check before the call: nothing is asked for a time gone by. */
  predicate Timely<E>(s: Kernel<E>, a: Act<E>) {
    match a
    case Schedule(t, _) => s.clock <= t
    case RunNext => true
    case Rest(untilMs) => s.clock <= untilMs
  }

  lemma StepInTimeIff<E>(hash: Hash, s: Kernel<E>, a: Act<E>)
    requires Accounted(s) && InTime(s) && Enabled(s, a)
    ensures InTime(Step(hash, s, a)) && s.clock <= Step(hash, s, a).clock <==> Timely(s, a)
  {
    hide Accounted, IsNext, Without, NextIndex, DistinctNumbers;
    match a {
      case Schedule(t, body) =>
        assert Step(hash, s, a).queue[|s.queue|].t == t;
      case RunNext =>
        NextLeaves(s);
        assert s.clock <= s.queue[NextIndex(s.queue)].t;
      case Rest(_) =>
    }
  }

  lemma NextLeaves<E>(s: Kernel<E>)
    requires Accounted(s) && s.queue != []
    ensures var k := NextIndex(s.queue);
            forall i :: 0 <= i < |Without(s.queue, k)| ==> s.queue[k].t <= Without(s.queue, k)[i].t
  {
    hide Without, Before, IsNext, NextIndex;
    RunNextAccounts(s);
    WithoutNext(s.queue, NextIndex(s.queue), s.nextSeq);
  }

  /** Every act of the run is timely when its turn comes. */
  predicate AllTimely<E>(hash: Hash, s: Kernel<E>, acts: seq<Act<E>>)
    requires ValidRun(hash, s, acts)
    decreases |acts|
  {
    acts == [] || (Timely(s, acts[0]) && AllTimely(hash, Step(hash, s, acts[0]), acts[1..]))
  }

  /** After every act all is in time and the clock has not gone back. */
  ghost predicate TimeRunsForward<E>(hash: Hash, s: Kernel<E>, acts: seq<Act<E>>)
    requires ValidRun(hash, s, acts)
    decreases |acts|
  {
    acts == []
    || (var next := Step(hash, s, acts[0]);
        InTime(next) && s.clock <= next.clock && TimeRunsForward(hash, next, acts[1..]))
  }

  /** Time runs forward throughout a run, with events in order of time and none overdue,
      exactly when nothing in it is asked for a time gone by. */
  lemma {:induction false} TimeRunsForwardIff<E>(hash: Hash, s: Kernel<E>, acts: seq<Act<E>>)
    requires Accounted(s) && InTime(s) && ValidRun(hash, s, acts)
    ensures TimeRunsForward(hash, s, acts) <==> AllTimely(hash, s, acts)
    ensures AllTimely(hash, s, acts) ==> InTime(Run(hash, s, acts))
    decreases |acts|
  {
    hide Accounted, InTime, Step, Enabled, Timely;
    if acts == [] {
    } else {
      var next := Step(hash, s, acts[0]);
      StepAccounts(hash, s, acts[0]);
      StepInTimeIff(hash, s, acts[0]);
      if InTime(next) { TimeRunsForwardIff(hash, next, acts[1..]); }
    }
  }

  lemma PowerOnInTime<E>()
    ensures Accounted(PowerOn<E>()) && InTime(PowerOn<E>())
  {
  }

  lemma {:induction false} OneMoreAct<E>(hash: Hash, s: Kernel<E>, acts: seq<Act<E>>, a: Act<E>)
    requires ValidRun(hash, s, acts) && Enabled(Run(hash, s, acts), a)
    ensures ValidRun(hash, s, acts + [a]) && Run(hash, s, acts + [a]) == Step(hash, Run(hash, s, acts), a)
    decreases |acts|
  {
    hide Enabled, Step;
    if acts == [] {
      assert acts + [a] == [a] && [a][1..] == [];
    } else {
      assert (acts + [a])[0] == acts[0] && (acts + [a])[1..] == acts[1..] + [a];
      OneMoreAct(hash, Step(hash, s, acts[0]), acts[1..], a);
    }
  }

  // ---------- the scheduler ----------

  class SimScheduler<E> {
    var queue: seq<Event<E>>
    var clock: nat
    var nextSeq: nat
    const seedHash: Hash
    ghost var issued: seq<Event<E>>
    ghost var ran: seq<Event<E>>

    ghost function View(): Kernel<E>
      reads this
    {
      Kernel(queue, clock, nextSeq, issued, ran)
    }

    /** Sequence numbers are fresh and distinct. */
    ghost predicate Valid()
      reads this
    {
      DistinctNumbers(queue) && forall i :: 0 <= i < |queue| ==> queue[i].seqNo < nextSeq
    }

    constructor (seedHash: Hash)
      ensures Valid() && View() == PowerOn() && this.seedHash == seedHash
    {
      queue, clock, nextSeq := [], 0, 1;
      issued, ran := [], [];
      this.seedHash := seedHash;
    }

    method ScheduleAt(t: nat, body: E)
      requires Valid()
      modifies this`queue, this`nextSeq, this`issued
      ensures Valid() && View() == Scheduled(seedHash, old(View()), t, body)
      ensures queue == old(queue) + [Event(t, old(nextSeq), seedHash(t, old(nextSeq)), body)]
    {
      var e := Event(t, nextSeq, seedHash(t, nextSeq), body);
      queue := queue + [e];
      nextSeq := nextSeq + 1;
      issued := issued + [e];
    }

    method ScheduleIn(ms: nat, body: E)
      requires Valid()
      modifies this`queue, this`nextSeq, this`issued
      ensures Valid() && View() == Scheduled(seedHash, old(View()), clock + ms, body)
    {
      ScheduleAt(clock + ms, body);
    }

    /** The index of the event that runs next. */
    method Top() returns (k: nat)
      requires Valid() && queue != []
      ensures IsNext(queue, k) && k == NextIndex(queue)
    {
      k := 0;
      var i := 1;
      while i < |queue|
        invariant k < i <= |queue|
        invariant forall j :: 0 <= j < i && j != k ==> Before(queue[k], queue[j])
      {
        if Before(queue[i], queue[k]) { k := i; }
        i := i + 1;
      }
      NextIsUnique(queue, k);
    }

    /** One turn of the run loop, without the callback: the earliest event leaves
        the queue and the clock moves to its time. */
    method Pop() returns (e: Event<E>)
      requires Valid() && queue != []
      modifies this`queue, this`clock, this`ran
      ensures Valid() && clock == e.t && e == old(queue)[NextIndex(old(queue))] && ran == old(ran) + [e]
      ensures View() == RanNext(old(View()))
      ensures multiset(old(queue)) == multiset(queue) + multiset{e}
      ensures forall i :: 0 <= i < |queue| ==> Before(e, queue[i])
    {
      hide Without, DistinctNumbers, Before, IsNext, NextIndex;
      var k := Top();
      NextInRange(queue, k);
      e := queue[k];
      WithoutMultiset(queue, k);
      WithoutNext(queue, k, nextSeq);
      queue := Without(queue, k);
      clock := e.t;
      ran := ran + [e];
    }

    /** `runUntil` for callbacks that schedule nothing: exactly the events up to
        `untilMs` run, in order, and the clock ends there. */
    method RunUntil(untilMs: nat) returns (run: seq<Event<E>>)
      requires Valid()
      modifies this`queue, this`clock, this`ran
      ensures Valid() && clock == untilMs
      ensures InOrder(run) && ran == old(ran) + run
      ensures multiset(old(queue)) == multiset(run) + multiset(queue)
      ensures forall i :: 0 <= i < |run| ==> run[i].t <= untilMs
      ensures forall i :: 0 <= i < |queue| ==> untilMs < queue[i].t
    {
      hide Without, DistinctNumbers, Before, IsNext, InOrder, NextIndex;
      run := [];
      EmptyRun<E>();
      while queue != []
        invariant Valid() && InOrder(run) && ran == old(ran) + run
        invariant multiset(old(queue)) == multiset(run) + multiset(queue)
        invariant forall i :: 0 <= i < |run| ==> run[i].t <= untilMs
        invariant AllBefore(run, queue)
        decreases |queue|
      {
        var k := Top();
        NextInRange(queue, k);
        if queue[k].t > untilMs { break; }
        WithoutNext(queue, k, nextSeq);
        RunExtends(run, queue, k, Without(queue, k));
        var e := Pop();
        run := run + [e];
      }
      clock := untilMs;
    }

    /** `runUntil` with callbacks: each event that runs schedules what `react` says, each a
        delay and a body, and may so go on for ever; `fuel` bounds the turns.  What is
        done is one run of the kernel, and when the loop ends by itself only later events
        are left and the clock is set to the limit.  The event hook is called with the
        time of every event that ran, in turn. */
    method RunReacting(untilMs: nat, react: Event<E> -> seq<(nat, E)>, fuel: nat)
      returns (done: bool, hooked: seq<nat>, ghost run: seq<Event<E>>, ghost acts: seq<Act<E>>)
      requires Valid()
      modifies this
      ensures Valid() && ValidRun(seedHash, old(View()), acts)
      ensures View() == Run(seedHash, old(View()), acts)
      ensures ran == old(ran) + run && Hooked(run, hooked, untilMs)
      ensures done ==> clock == untilMs && forall i :: 0 <= i < |queue| ==> untilMs < queue[i].t
    {
      hide Without, DistinctNumbers, Before, IsNext, NextIndex, Scheduled, RanNext, ValidRun, Run, Hooked;
      acts, run, hooked := [], [], [];
      NoActs(seedHash, View());
      NothingHooked<E>(untilMs);
      var left := fuel;
      while queue != []
        invariant Valid() && ValidRun(seedHash, old(View()), acts) && View() == Run(seedHash, old(View()), acts)
        invariant ran == old(ran) + run && Hooked(run, hooked, untilMs)
        decreases left
      {
        if left == 0 { return false, hooked, run, acts; }
        var k := Top();
        NextInRange(queue, k);
        if queue[k].t > untilMs { break; }
        acts, run, hooked := OneTurn(untilMs, react, old(View()), acts, run, hooked);
        left := left - 1;
      }
      acts := StopAt(untilMs, old(View()), acts);
      done := true;
    }

    /** One turn of the loop: the next event runs, its callback schedules, the hook is called. */
    method OneTurn(untilMs: nat, react: Event<E> -> seq<(nat, E)>, ghost start: Kernel<E>, ghost before: seq<Act<E>>,
                   ghost run: seq<Event<E>>, hooked: seq<nat>)
      returns (ghost acts: seq<Act<E>>, ghost longer: seq<Event<E>>, hookedNow: seq<nat>)
      requires Valid() && ValidRun(seedHash, start, before) && View() == Run(seedHash, start, before)
      requires queue != [] && queue[NextIndex(queue)].t <= untilMs && Hooked(run, hooked, untilMs)
      modifies this
      ensures Valid() && ValidRun(seedHash, start, acts) && View() == Run(seedHash, start, acts)
      ensures run <= longer && ran == old(ran) + longer[|run|..] && Hooked(longer, hookedNow, untilMs)
    {
      hide Without, DistinctNumbers, Before, IsNext, NextIndex, Scheduled, RanNext, ValidRun, Run;
      OneMoreAct(seedHash, start, before, RunNext);
      var e := Pop();
      longer, hookedNow := run + [e], hooked + [e.t];
      acts := React(react(e), start, before + [RunNext]);
    }

    /** The end of the loop. */
    method StopAt(untilMs: nat, ghost start: Kernel<E>, ghost before: seq<Act<E>>) returns (ghost acts: seq<Act<E>>)
      requires Valid() && ValidRun(seedHash, start, before) && View() == Run(seedHash, start, before)
      requires forall i :: 0 <= i < |queue| ==> untilMs < queue[i].t
      modifies this`clock
      ensures Valid() && ValidRun(seedHash, start, acts) && View() == Run(seedHash, start, acts) && clock == untilMs
    {
      hide DistinctNumbers, ValidRun, Run;
      acts := before + [Rest(untilMs)];
      OneMoreAct(seedHash, start, before, Rest(untilMs));
      clock := untilMs;
    }

    /** What one callback schedules. */
    method React(reactions: seq<(nat, E)>, ghost start: Kernel<E>, ghost before: seq<Act<E>>)
      returns (ghost acts: seq<Act<E>>)
      requires Valid() && ValidRun(seedHash, start, before) && View() == Run(seedHash, start, before)
      modifies this`queue, this`nextSeq, this`issued
      ensures Valid() && ValidRun(seedHash, start, acts) && View() == Run(seedHash, start, acts)
      ensures ran == old(ran)
    {
      hide DistinctNumbers, Scheduled, ValidRun, Run;
      acts := before;
      var i := 0;
      while i < |reactions|
        invariant i <= |reactions|
        invariant Valid() && ValidRun(seedHash, start, acts) && View() == Run(seedHash, start, acts)
      {
        var a := Schedule(clock + reactions[i].0, reactions[i].1);
        OneMoreAct(seedHash, start, acts, a);
        acts := acts + [a];
        ScheduleIn(reactions[i].0, reactions[i].1);
        i := i + 1;
      }
    }
  }

  /** The hook was called with the time of every event that ran, in turn. */
  predicate Hooked<E>(run: seq<Event<E>>, hooked: seq<nat>, untilMs: nat) {
    |hooked| == |run| && forall i :: 0 <= i < |run| ==> hooked[i] == run[i].t <= untilMs
  }

  lemma NothingHooked<E>(untilMs: nat)
    ensures Hooked<E>([], [], untilMs)
  {
  }

  lemma NoActs<E>(hash: Hash, s: Kernel<E>)
    ensures ValidRun(hash, s, []) && Run(hash, s, []) == s
  {
  }

  /** The order of a run is determined by what ran: a set of distinctly numbered events has one run order. */
  lemma {:induction false} RunOrderIsUnique<E>(a: seq<Event<E>>, b: seq<Event<E>>)
    requires InOrder(a) && InOrder(b) && forall e :: e in a <==> e in b
    ensures a == b
  {
    if a == [] {
      EmptyOrNot(b);
    } else {
      assert a[0] in b;
      assert b[0] in a;
      FirstIsLeast(a, b[0]);
      FirstIsLeast(b, a[0]);
      assert a[0] == b[0];
      forall e
        ensures e in a[1..] <==> e in b[1..]
      {
        RestIsTheOthers(a, e);
        RestIsTheOthers(b, e);
      }
      RunOrderIsUnique(a[1..], b[1..]);
      assert a == [a[0]] + a[1..] && b == [b[0]] + b[1..];
    }
  }

  lemma EmptyOrNot<T>(b: seq<T>)
    ensures b == [] || exists e :: e in b
  {
    if b != [] { assert b[0] in b; }
  }

  lemma FirstIsLeast<E>(a: seq<Event<E>>, e: Event<E>)
    requires InOrder(a) && e in a
    ensures a[0] == e || Before(a[0], e)
  {
    var i :| 0 <= i < |a| && a[i] == e;
  }

  lemma RestIsTheOthers<E>(a: seq<Event<E>>, e: Event<E>)
    requires InOrder(a) && a != []
    ensures e in a[1..] <==> e in a && e != a[0]
  {
    if e in a && e != a[0] {
      var i :| 0 <= i < |a| && a[i] == e;
      assert a[1..][i - 1] == e;
    }
    if e in a[1..] {
      var i :| 0 <= i < |a| - 1 && a[1..][i] == e;
      assert a[i + 1] == e && Before(a[0], a[i + 1]);
    }
  }
}
