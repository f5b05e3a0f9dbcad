/**
 The SD host controller of simulator/hardware/SimSdmmc.h: asynchronous block I/O
 that races with card removal, unmounting and power loss.  Accepted operations
 wait in `pending`, the controller's share of the scheduler queue, and may finish
 in any order.
 */
module Sdmmc {

  import opened Wrappers
  import opened Bytes
  import opened Sequences
  import opened SdImage

  const BUS_WIDTH := 4

  /** An accepted operation.  `request` numbers the calls of the run; the source has no such number. */
  datatype Op =
    | ReadOp(request: nat, lba: nat, generation: nat, injected: bool)
    | WriteOp(request: nat, lba: nat, block: seq<byte>, generation: nat, injected: bool)

  /** A callback: which call it answers, success, and the data of a read. */
  datatype Answer = Answer(request: nat, ok: bool, data: seq<byte>)

  datatype Card = Card(inserted: bool, mounted: bool, powered: bool, generation: nat,
                       readCount: nat, writeCount: nat, failRead: nat, failWrite: nat,
                       image: Image, pending: seq<Op>, requests: nat, answered: seq<Answer>)

  const BARE := Card(false, false, false, 1, 0, 0, 0, 0, EMPTY, [], 0, [])

  datatype Event =
    | Insert(blocks: nat)
    | InsertImage(file: Option<seq<byte>>, writable: bool)
    | Remove
    | Mount(width: nat)
    | Unmount
    | Rail(on: bool)                       // the power rail switches, nobody is told yet
    | NotifyPower                          // the power gate observer reports
    | Read(lba: nat)
    | Write(lba: nat, block: seq<byte>)
    | Finish(k: nat)                       // the k-th pending operation completes
    | FailNthRead(n: nat)
    | FailNthWrite(n: nat)

  predicate Available(c: Card) { c.mounted && c.powered && c.inserted }

  predicate Enabled(c: Card, e: Event) {
    match e
    case Finish(k) => k < |c.pending|
    case Write(_, block) => |block| == BLOCK_BYTES
    case _ => true
  }

  predicate ReadAccepted(c: Card, lba: nat) { Available(c) && lba < Blocks(c.image) }

  predicate WriteAccepted(c: Card, lba: nat) { Available(c) && c.image.writable && lba < Blocks(c.image) }

  /** What a call answers at once when it is refused. */
  function Refused(c: Card, data: seq<byte>): Card {
    c.(requests := c.requests + 1, answered := c.answered + [Answer(c.requests, false, data)])
  }

  function ReadCalled(c: Card, lba: nat): Card {
    if !ReadAccepted(c, lba) then Refused(c, Zeros(BLOCK_BYTES))
    else
      var n := c.readCount + 1;
      c.(readCount := n, requests := c.requests + 1,
         pending := c.pending + [ReadOp(c.requests, lba, c.generation, c.failRead != 0 && n == c.failRead)])
  }

  function WriteCalled(c: Card, lba: nat, block: seq<byte>): Card {
    if !WriteAccepted(c, lba) then Refused(c, [])
    else
      var n := c.writeCount + 1;
      c.(writeCount := n, requests := c.requests + 1,
         pending := c.pending + [WriteOp(c.requests, lba, block, c.generation, c.failWrite != 0 && n == c.failWrite)])
  }

  /** The state test at completion. */
  predicate Undisturbed(c: Card, op: Op) {
    !op.injected && Available(c) && op.generation == c.generation
  }

  predicate Succeeds(c: Card, op: Op) {
    && Undisturbed(c, op)
    && match op
       case ReadOp(_, lba, _, _) => lba < Blocks(c.image)
       case WriteOp(_, lba, block, _, _) => CanWrite(c.image, lba) && |block| == BLOCK_BYTES
  }

  function Finished(c: Card, k: nat): Card
    requires k < |c.pending|
  {
    var op := c.pending[k];
    var ok := Succeeds(c, op);
    var data := if op.ReadOp? then (if ok then BlockAt(c.image.bytes, op.lba) else Zeros(BLOCK_BYTES)) else [];
    c.(pending := Without(c.pending, k),
       answered := c.answered + [Answer(op.request, ok, data)],
       image := if ok && op.WriteOp? then Written(c.image, op.lba, op.block) else c.image)
  }

  function Step(c: Card, e: Event): Card
    requires Enabled(c, e)
  {
    match e
    case Insert(blocks) =>
      c.(image := if CanCreate(blocks) then Created(blocks, 0) else c.image, inserted := CanCreate(blocks),
         mounted := false, generation := c.generation + 1)
    case InsertImage(file, writable) =>
      if !CanLoad(file) then c
      else c.(image := Loaded(file.value, writable), inserted := true, mounted := false, generation := c.generation + 1)
    case Remove => c.(inserted := false, mounted := false, generation := c.generation + 1)
    case Mount(width) =>
      if c.powered && c.inserted && c.image.bytes != [] && width == BUS_WIDTH then c.(mounted := true) else c
    case Unmount => c.(mounted := false, generation := c.generation + 1)
    case Rail(on) => c.(powered := on)
    case NotifyPower => if c.powered then c else c.(mounted := false, generation := c.generation + 1)
    case Read(lba) => ReadCalled(c, lba)
    case Write(lba, block) => WriteCalled(c, lba, block)
    case Finish(k) => Finished(c, k)
    case FailNthRead(n) => c.(failRead := n)
    case FailNthWrite(n) => c.(failWrite := n)
  }

  // ---------- runs ----------

  predicate ValidRun(c: Card, es: seq<Event>)
    decreases |es|
  {
    es == [] || (Enabled(c, es[0]) && ValidRun(Step(c, es[0]), es[1..]))
  }

  function Run(c: Card, es: seq<Event>): Card
    requires ValidRun(c, es)
    decreases |es|
  {
    if es == [] then c else Run(Step(c, es[0]), es[1..])
  }

  // ---------- one callback per call ----------

  function UpTo(n: nat): multiset<nat> {
    if n == 0 then multiset{} else UpTo(n - 1) + multiset{n - 1}
  }

  function AnsweredCalls(s: seq<Answer>): multiset<nat> {
    if s == [] then multiset{} else AnsweredCalls(s[..|s| - 1]) + multiset{s[|s| - 1].request}
  }

  function PendingCalls(s: seq<Op>): multiset<nat> {
    if s == [] then multiset{} else PendingCalls(s[..|s| - 1]) + multiset{s[|s| - 1].request}
  }

  /** Every call so far has been answered once or is pending once, never both and never twice. */
  ghost predicate EachCallOnce(c: Card) {
    AnsweredCalls(c.answered) + PendingCalls(c.pending) == UpTo(c.requests)
  }

  lemma AnsweredAppend(s: seq<Answer>, a: Answer)
    ensures AnsweredCalls(s + [a]) == AnsweredCalls(s) + multiset{a.request}
  {
    assert (s + [a])[..|s|] == s;
  }

  lemma PendingAppend(s: seq<Op>, op: Op)
    ensures PendingCalls(s + [op]) == PendingCalls(s) + multiset{op.request}
  {
    assert (s + [op])[..|s|] == s;
  }

  lemma {:induction false} PendingWithout(s: seq<Op>, k: nat)
    requires k < |s|
    ensures PendingCalls(s) == PendingCalls(Without(s, k)) + multiset{s[k].request}
  {
    var last := |s| - 1;
    assert s == s[..last] + [s[last]];
    PendingAppend(s[..last], s[last]);
    if k == last {
      assert Without(s, k) == s[..last];
    } else {
      PendingWithout(s[..last], k);
      assert Without(s, k) == Without(s[..last], k) + [s[last]];
      PendingAppend(Without(s[..last], k), s[last]);
    }
  }

  /** A call answered at once. */
  lemma RefusalAnswersOnce(c: Card, data: seq<byte>)
    requires EachCallOnce(c)
    ensures EachCallOnce(Refused(c, data))
  {
    hide AnsweredCalls, PendingCalls;
    AnsweredAppend(c.answered, Answer(c.requests, false, data));
  }

  /** A call that waits for its event. */
  lemma AcceptanceAnswersOnce(c: Card, d: Card, op: Op)
    requires EachCallOnce(c) && d.requests == c.requests + 1 && d.answered == c.answered
    requires d.pending == c.pending + [op] && op.request == c.requests
    ensures EachCallOnce(d)
  {
    hide AnsweredCalls, PendingCalls;
    PendingAppend(c.pending, op);
  }

  lemma ReadAnswersOnce(c: Card, lba: nat)
    requires EachCallOnce(c)
    ensures EachCallOnce(ReadCalled(c, lba))
  {
    hide EachCallOnce, Available, Blocks, Zeros, Refused;
    var d := ReadCalled(c, lba);
    if ReadAccepted(c, lba) {
      var injected := c.failRead != 0 && c.readCount + 1 == c.failRead;
      AcceptanceAnswersOnce(c, d, ReadOp(c.requests, lba, c.generation, injected));
    } else {
      RefusalAnswersOnce(c, Zeros(BLOCK_BYTES));
    }
  }

  lemma WriteAnswersOnce(c: Card, lba: nat, block: seq<byte>)
    requires EachCallOnce(c)
    ensures EachCallOnce(WriteCalled(c, lba, block))
  {
    hide EachCallOnce, Available, Blocks, Refused;
    var d := WriteCalled(c, lba, block);
    if WriteAccepted(c, lba) {
      AcceptanceAnswersOnce(c, d, WriteOp(c.requests, lba, block, c.generation,
                                          c.failWrite != 0 && c.writeCount + 1 == c.failWrite));
    } else {
      RefusalAnswersOnce(c, []);
    }
  }

  lemma FinishAnswersOnce(c: Card, k: nat)
    requires EachCallOnce(c) && k < |c.pending|
    ensures EachCallOnce(Finished(c, k))
  {
    hide Succeeds, BlockAt, Written, Zeros, AnsweredCalls, PendingCalls;
    PendingWithout(c.pending, k);
    AnsweredAppend(c.answered, Finished(c, k).answered[|c.answered|]);
  }

  lemma StepAnswersOnce(c: Card, e: Event)
    requires EachCallOnce(c) && Enabled(c, e)
    ensures EachCallOnce(Step(c, e))
  {
    hide Finished, ReadCalled, WriteCalled, AnsweredCalls, PendingCalls, Created, CanLoad, CanCreate;
    match e
    case Read(lba) => ReadAnswersOnce(c, lba);
    case Write(lba, block) => WriteAnswersOnce(c, lba, block);
    case Finish(k) => FinishAnswersOnce(c, k);
    case _ =>
  }

  /** Over any run each read or write call gets exactly one callback, at once or when its event runs. */
  lemma {:induction false} RunAnswersOnce(c: Card, es: seq<Event>)
    requires EachCallOnce(c) && ValidRun(c, es)
    ensures EachCallOnce(Run(c, es))
    decreases |es|
  {
    if es == [] {
    } else {
      StepAnswersOnce(c, es[0]);
      RunAnswersOnce(Step(c, es[0]), es[1..]);
    }
  }

  // ---------- success means nothing happened ----------

  /** Removal, insertion, unmounting and reported power loss. */
  predicate Disturbs(c: Card, e: Event) {
    match e
    case Insert(_) => true
    case InsertImage(file, _) => CanLoad(file)
    case Remove => true
    case Unmount => true
    case NotifyPower => !c.powered
    case _ => false
  }

  function Disturbances(c: Card, es: seq<Event>): nat
    requires ValidRun(c, es)
    decreases |es|
  {
    if es == [] then 0
    else (if Disturbs(c, es[0]) then 1 else 0) + Disturbances(Step(c, es[0]), es[1..])
  }

  /** The generation counts the disturbances. */
  lemma {:induction false} GenerationCountsDisturbances(c: Card, es: seq<Event>)
    requires ValidRun(c, es)
    ensures Run(c, es).generation == c.generation + Disturbances(c, es)
    decreases |es|
  {
    if es == [] {
    } else {
      hide Finished, ReadCalled, WriteCalled;
      GenerationStep(c, es[0]);
      GenerationCountsDisturbances(Step(c, es[0]), es[1..]);
    }
  }

  lemma GenerationStep(c: Card, e: Event)
    requires Enabled(c, e)
    ensures Step(c, e).generation == c.generation + (if Disturbs(c, e) then 1 else 0)
  {
    hide Succeeds, BlockAt, Written;
  }

  /** Without disturbances the card stays mounted, inserted and of the same shape. */
  lemma {:induction false} UndisturbedRunKeepsCard(c: Card, es: seq<Event>)
    requires ValidRun(c, es) && Disturbances(c, es) == 0 && c.mounted && c.inserted
    ensures var d := Run(c, es);
            && d.mounted && d.inserted && Blocks(d.image) == Blocks(c.image) && d.image.writable == c.image.writable
    decreases |es|
  {
    if es == [] {
    } else {
      UndisturbedStepKeepsCard(c, es[0]);
      UndisturbedRunKeepsCard(Step(c, es[0]), es[1..]);
    }
  }

  lemma UndisturbedStepKeepsCard(c: Card, e: Event)
    requires Enabled(c, e) && !Disturbs(c, e) && c.mounted && c.inserted
    ensures var d := Step(c, e);
            && d.mounted && d.inserted && Blocks(d.image) == Blocks(c.image) && d.image.writable == c.image.writable
  {
    hide BlockAt, Blocks;
  }

  /** An accepted operation, finished after any run: it reports success exactly when
      it was not an injected fault, nothing disturbed the card since the call, and
      the rail is up. */
  lemma SucceedsIffUndisturbed(c: Card, call: Event, es: seq<Event>, k: nat)
    requires call.Read? || (call.Write? && |call.block| == BLOCK_BYTES)
    requires Enabled(c, call) && |Step(c, call).pending| == |c.pending| + 1
    requires ValidRun(Step(c, call), es) && k < |Run(Step(c, call), es).pending|
    requires Run(Step(c, call), es).pending[k] == Step(c, call).pending[|c.pending|]
    ensures var d := Step(c, call);
            var op := d.pending[|c.pending|];
            Succeeds(Run(d, es), op) <==> !op.injected && Disturbances(d, es) == 0 && Run(d, es).powered
  {
    hide Run, Disturbances, BlockAt;
    var d := Step(c, call);
    GenerationCountsDisturbances(d, es);
    if Disturbances(d, es) == 0 { UndisturbedRunKeepsCard(d, es); }
  }

  // ---------- what a read returns ----------

  /** The write, if any, that finishing event `e` puts on the card. */
  predicate LandsOn(c: Card, e: Event, lba: nat) {
    && e.Finish? && e.k < |c.pending| && c.pending[e.k].WriteOp? && c.pending[e.k].lba == lba
    && Succeeds(c, c.pending[e.k])
  }

  /** What sector `lba` should hold after the step, if it held `before`. */
  function Put(c: Card, e: Event, lba: nat, before: seq<byte>): seq<byte>
    requires Enabled(c, e)
  {
    if LandsOn(c, e, lba) then c.pending[e.k].block
    else if e.Insert? && CanCreate(e.blocks) && lba < e.blocks then Zeros(BLOCK_BYTES)
    else if e.InsertImage? && CanLoad(e.file) && (lba + 1) * BLOCK_BYTES <= |e.file.value| then
      BlockAt(e.file.value, lba)
    else before
  }

  /** What sector `lba` should hold after the run: the block of the last write that
      reported success, else the sector of the last inserted image, else `before`. */
  function LastPut(c: Card, es: seq<Event>, lba: nat, before: seq<byte>): seq<byte>
    requires ValidRun(c, es)
    decreases |es|
  {
    if es == [] then before else LastPut(Step(c, es[0]), es[1..], lba, Put(c, es[0], lba, before))
  }

  lemma SectorFits(i: Image, lba: nat)
    requires lba < Blocks(i)
    ensures (lba + 1) * BLOCK_BYTES <= |i.bytes|
  {
  }

  /** `content` is what the sector holds; a sector that does not exist holds anything. */
  ghost predicate Holds(c: Card, lba: nat, content: seq<byte>) {
    lba < Blocks(c.image) ==> (SectorFits(c.image, lba); BlockAt(c.image.bytes, lba)) == content
  }

  /** After any run, cards coming and going, every sector of the card holds what was
      last successfully put there.  What it held before the run matters only if it
      existed and nothing was put there since. */
  lemma {:induction false} CardHoldsLastPut(c: Card, es: seq<Event>, lba: nat, before: seq<byte>)
    requires ValidRun(c, es) && Holds(c, lba, before)
    ensures Holds(Run(c, es), lba, LastPut(c, es, lba, before))
    decreases |es|
  {
    if es == [] {
    } else {
      hide Holds, Put;
      StepPuts(c, es[0], lba, before);
      CardHoldsLastPut(Step(c, es[0]), es[1..], lba, Put(c, es[0], lba, before));
    }
  }

  lemma StepPuts(c: Card, e: Event, lba: nat, before: seq<byte>)
    requires Enabled(c, e) && Holds(c, lba, before)
    ensures Holds(Step(c, e), lba, Put(c, e, lba, before))
  {
    if lba < Blocks(Step(c, e).image) {
      SectorFits(Step(c, e).image, lba);
      if lba < Blocks(c.image) { SectorFits(c.image, lba); }
      hide BlockAt, Written, Undisturbed;
      match e
      case Insert(blocks) =>
        if CanCreate(blocks) { FreshSector(blocks, lba); }
      case Finish(k) =>
        var op := c.pending[k];
        if Succeeds(c, op) && op.WriteOp? { WrittenReadsBack(c.image, op.lba, op.block, lba); }
      case _ =>
    }
  }

  lemma FreshSector(blocks: nat, lba: nat)
    requires lba < blocks
    ensures (lba + 1) * BLOCK_BYTES <= |Created(blocks, 0).bytes|
    ensures BlockAt(Created(blocks, 0).bytes, lba) == Zeros(BLOCK_BYTES)
  {
    assert (lba + 1) * BLOCK_BYTES <= blocks * BLOCK_BYTES;
  }

  /** A successful read, whenever it finishes, delivers the sector's last successful content. */
  lemma ReadDeliversLastPut(c: Card, es: seq<Event>, k: nat, before: seq<byte>)
    requires ValidRun(c, es) && k < |Run(c, es).pending| && Run(c, es).pending[k].ReadOp?
    requires Succeeds(Run(c, es), Run(c, es).pending[k]) && Holds(c, Run(c, es).pending[k].lba, before)
    ensures var d := Run(c, es);
            var a := Step(d, Finish(k)).answered;
            && a != [] && a[|a| - 1].ok && a[|a| - 1].request == d.pending[k].request
            && a[|a| - 1].data == LastPut(c, es, d.pending[k].lba, before)
  {
    CardHoldsLastPut(c, es, Run(c, es).pending[k].lba, before);
  }

  /** From power-on, for every run: the data of a successful read was put there by a
      successful write or an insertion of the run, since nothing was there before. */
  lemma ReadFromPowerOn(es: seq<Event>, k: nat, before: seq<byte>)
    requires ValidRun(BARE, es) && k < |Run(BARE, es).pending| && Run(BARE, es).pending[k].ReadOp?
    requires Succeeds(Run(BARE, es), Run(BARE, es).pending[k])
    ensures var a := Step(Run(BARE, es), Finish(k)).answered;
            && a != [] && a[|a| - 1].ok && a[|a| - 1].request == Run(BARE, es).pending[k].request
            && a[|a| - 1].data == LastPut(BARE, es, Run(BARE, es).pending[k].lba, before)
  {
    ReadDeliversLastPut(BARE, es, k, before);
  }

  // ---------- the controller ----------

  class SimSdmmc {
    const image: SimSdCardImage
    var inserted: bool
    var mounted: bool
    var powered: bool
    var generation: nat
    var readCount: nat
    var writeCount: nat
    var failReadNumber: nat
    var failWriteNumber: nat
    var pending: seq<Op>
    var requests: nat
    var answered: seq<Answer>

    function State(): Card
      reads this, image
    {
      Card(inserted, mounted, powered, generation, readCount, writeCount, failReadNumber, failWriteNumber,
           image.State(), pending, requests, answered)
    }

    constructor ()
      ensures State() == BARE && fresh(image)
    {
      image := new SimSdCardImage();
      inserted, mounted, powered, generation := false, false, false, 1;
      readCount, writeCount, failReadNumber, failWriteNumber := 0, 0, 0, 0;
      pending, requests, answered := [], 0, [];
    }

    method InsertBlank(blocks: nat)
      modifies this, image
      ensures State() == Step(old(State()), Insert(blocks))
    {
      inserted := image.Create(blocks, 0);
      mounted := false;
      generation := generation + 1;
    }

    method InsertFile(file: Option<seq<byte>>, writable: bool) returns (ok: bool)
      modifies this, image
      ensures ok == CanLoad(file) && State() == Step(old(State()), InsertImage(file, writable))
    {
      ok := image.Load(file, writable);
      if !ok { return; }
      inserted := true;
      mounted := false;
      generation := generation + 1;
    }

    method RemoveCard()
      modifies this
      ensures State() == Step(old(State()), Remove)
    {
      inserted := false;
      mounted := false;
      generation := generation + 1;
    }

    method MountCard(width: nat) returns (ok: bool)
      modifies this
      ensures State() == Step(old(State()), Mount(width))
      ensures ok ==> Available(State())
    {
      if !powered { return false; }
      if !inserted { return false; }
      if image.bytes == [] { return false; }
      if width != BUS_WIDTH { return false; }
      mounted := true;
      return true;
    }

    method UnmountCard()
      modifies this
      ensures State() == Step(old(State()), Unmount)
    {
      mounted := false;
      generation := generation + 1;
    }

    method NotifyPowerChanged()
      modifies this
      ensures State() == Step(old(State()), NotifyPower)
    {
      if !powered {
        mounted := false;
        generation := generation + 1;
      }
    }

    method ReadBlockData(lba: nat) returns (accepted: bool)
      modifies this
      ensures accepted == ReadAccepted(old(State()), lba)
      ensures State() == Step(old(State()), Read(lba))
    {
      var request := requests;
      requests := requests + 1;
      if !(mounted && powered && inserted) || lba >= |image.bytes| / BLOCK_BYTES {
        answered := answered + [Answer(request, false, Zeros(BLOCK_BYTES))];
        return false;
      }
      readCount := readCount + 1;
      var injected := failReadNumber != 0 && readCount == failReadNumber;
      pending := pending + [ReadOp(request, lba, generation, injected)];
      return true;
    }

    method WriteBlockData(lba: nat, block: seq<byte>) returns (accepted: bool)
      requires |block| == BLOCK_BYTES
      modifies this
      ensures accepted == WriteAccepted(old(State()), lba)
      ensures State() == Step(old(State()), Write(lba, block))
    {
      var request := requests;
      requests := requests + 1;
      if !(mounted && powered && inserted) || !image.writable || lba >= |image.bytes| / BLOCK_BYTES {
        answered := answered + [Answer(request, false, [])];
        return false;
      }
      writeCount := writeCount + 1;
      var injected := failWriteNumber != 0 && writeCount == failWriteNumber;
      pending := pending + [WriteOp(request, lba, block, generation, injected)];
      return true;
    }

    /** The deferred completion of the k-th pending operation. */
    method FinishOperation(k: nat)
      requires k < |pending| && (pending[k].WriteOp? ==> |pending[k].block| == BLOCK_BYTES)
      modifies this, image
      ensures State() == Step(old(State()), Finish(k))
    {
      var op := pending[k];
      pending := Without(pending, k);
      var ok := !op.injected && mounted && powered && inserted && op.generation == generation;
      match op {
        case ReadOp(request, lba, _, _) =>
          var data := Zeros(BLOCK_BYTES);
          if ok { ok, data := image.ReadBlock(lba); }
          answered := answered + [Answer(request, ok, data)];
        case WriteOp(request, lba, block, _, _) =>
          if ok { ok := image.WriteBlock(lba, block); }
          answered := answered + [Answer(request, ok, [])];
      }
    }
  }
}
