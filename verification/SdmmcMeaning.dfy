/**
 What the steps of the SD host controller come to, in the terms of its callers: when the
 card is mounted, which calls are refused, which are the injected faults, and what shape
 the card has.
 */
module SdmmcMeaning {

  import opened Wrappers
  import opened Bytes
  import opened SdImage
  import opened Sdmmc

  // ---------- mounted ----------

  /** A mount that the controller takes: rail up, card in, not empty, four lines. */
  predicate Takes(c: Card, e: Event) {
    e.Mount? && e.width == 4 && c.powered && c.inserted && |c.image.bytes| > 0
  }

  lemma {:induction false} PrefixIsValid(c: Card, es: seq<Event>, i: nat)
    requires ValidRun(c, es) && i <= |es|
    ensures ValidRun(c, es[..i]) && ValidRun(Run(c, es[..i]), es[i..])
    decreases i
  {
    hide Step;
    if i == 0 {
      assert es[0..] == es;
    } else {
      PrefixIsValid(Step(c, es[0]), es[1..], i - 1);
      assert es[..i][0] == es[0] && es[..i][1..] == es[1..][..i - 1] && es[i..] == es[1..][i - 1..];
    }
  }

  /** Event `i` of the run is a mount that was taken, and nothing disturbed the card since. */
  ghost predicate MountStands(c: Card, es: seq<Event>, i: nat)
    requires ValidRun(c, es)
  {
    && i < |es|
    && (PrefixIsValid(c, es, i);
        var d := Run(c, es[..i]);
        Takes(d, es[i..][0]) && Disturbances(Step(d, es[i..][0]), es[i..][1..]) == 0)
  }

  lemma MountStep(c: Card, e: Event)
    requires Enabled(c, e)
    ensures Step(c, e).mounted <==> Takes(c, e) || (c.mounted && !Disturbs(c, e))
  {
    hide BlockAt, Written, Succeeds, Blocks;
  }

  lemma StandsLater(c: Card, es: seq<Event>, i: nat)
    requires ValidRun(c, es) && es != []
    ensures MountStands(c, es, i + 1) <==> MountStands(Step(c, es[0]), es[1..], i)
  {
    hide Step, Takes, Disturbances;
    if i + 1 < |es| {
      PrefixIsValid(c, es, i + 1);
      assert es[..i + 1][0] == es[0] && es[..i + 1][1..] == es[1..][..i] && es[i + 1..] == es[1..][i..];
    }
  }

  lemma StandsFirst(c: Card, es: seq<Event>)
    requires ValidRun(c, es) && es != []
    ensures MountStands(c, es, 0) <==> Takes(c, es[0]) && Disturbances(Step(c, es[0]), es[1..]) == 0
  {
    hide Step, Takes, Disturbances;
    assert es[..0] == [] && es[0..] == es;
  }

  /** The card is mounted exactly when it was at first, and nothing disturbed it, or when a
      mount was taken that nothing disturbed since. */
  lemma {:induction false} MountedIff(c: Card, es: seq<Event>)
    requires ValidRun(c, es)
    ensures Run(c, es).mounted
       <==> (c.mounted && Disturbances(c, es) == 0) || exists i: nat :: MountStands(c, es, i)
    decreases |es|
  {
    hide Step, Takes, Disturbs, MountStands;
    if es == [] {
      NothingStands(c);
    } else {
      var next := Step(c, es[0]);
      MountStep(c, es[0]);
      MountedIff(next, es[1..]);
      StandsFirst(c, es);
      if i: nat :| MountStands(next, es[1..], i) {
        StandsLater(c, es, i);
      }
      if i: nat :| MountStands(c, es, i) {
        if i > 0 { StandsLater(c, es, i - 1); }
      }
    }
  }

  lemma NothingStands(c: Card)
    ensures forall i: nat :: !MountStands(c, [], i)
  {
  }

  // ---------- refused, accepted, injected ----------

  /** The tests a call has to pass: card mounted and in, rail up, sector there, and for a
      write a writable card. */
  predicate Passes(c: Card, e: Event)
    requires e.Read? || e.Write?
  {
    && c.mounted && c.inserted && c.powered && e.lba < |c.image.bytes| / 512
    && (e.Write? ==> c.image.writable)
  }

  /** A call that passes waits; one that does not is answered at once with failure, a read
      with zeros. */
  lemma CallOutcome(c: Card, e: Event)
    requires (e.Read? || e.Write?) && Enabled(c, e)
    ensures var d := Step(c, e);
            && d.requests == c.requests + 1 && d.image == c.image
            && (Passes(c, e) ==> |d.pending| == |c.pending| + 1 && d.pending[..|c.pending|] == c.pending
                                 && d.answered == c.answered
                                 && d.pending[|c.pending|].lba == e.lba && d.pending[|c.pending|].ReadOp? == e.Read?)
            && (!Passes(c, e) ==> && d.pending == c.pending
                                  && d.answered == c.answered + [Answer(c.requests, false,
                                                                        if e.Read? then Zeros(512) else [])])
  {
  }

  function ReadsTaken(c: Card, es: seq<Event>): nat
    requires ValidRun(c, es)
    decreases |es|
  {
    if es == [] then 0
    else (if es[0].Read? && Passes(c, es[0]) then 1 else 0) + ReadsTaken(Step(c, es[0]), es[1..])
  }

  function WritesTaken(c: Card, es: seq<Event>): nat
    requires ValidRun(c, es)
    decreases |es|
  {
    if es == [] then 0
    else (if es[0].Write? && Passes(c, es[0]) then 1 else 0) + WritesTaken(Step(c, es[0]), es[1..])
  }

  lemma CountStep(c: Card, e: Event)
    requires Enabled(c, e)
    ensures Step(c, e).readCount == c.readCount + (if e.Read? && Passes(c, e) then 1 else 0)
    ensures Step(c, e).writeCount == c.writeCount + (if e.Write? && Passes(c, e) then 1 else 0)
  {
    hide BlockAt, Written, Succeeds;
  }

  lemma {:induction false} CountsCalls(c: Card, es: seq<Event>)
    requires ValidRun(c, es)
    ensures Run(c, es).readCount == c.readCount + ReadsTaken(c, es)
    ensures Run(c, es).writeCount == c.writeCount + WritesTaken(c, es)
    decreases |es|
  {
    hide Step, Passes;
    if es == [] {
    } else {
      CountStep(c, es[0]);
      CountsCalls(Step(c, es[0]), es[1..]);
    }
  }

  /** The injected fault is the one call, counted from power-on among those that waited,
      whose number was asked for. */
  lemma InjectedIff(es: seq<Event>, e: Event)
    requires ValidRun(BARE, es) && (e.Read? || e.Write?) && Enabled(Run(BARE, es), e) && Passes(Run(BARE, es), e)
    ensures var c := Run(BARE, es);
            var ops := Step(c, e).pending;
            && |ops| == |c.pending| + 1
            && (ops[|c.pending|].injected
                <==> if e.Read? then c.failRead == ReadsTaken(BARE, es) + 1
                     else c.failWrite == WritesTaken(BARE, es) + 1)
  {
    hide Run, ReadsTaken, WritesTaken;
    CountsCalls(BARE, es);
  }

  // ---------- the shape of the card ----------

  predicate WholeImage(i: Image) { |i.bytes| % 512 == 0 && |i.bytes| <= 512 * 1024 * 1024 }

  lemma ShapeStep(c: Card, e: Event)
    requires Enabled(c, e) && WholeImage(c.image)
    ensures WholeImage(Step(c, e).image)
  {
    hide BlockAt;
    match e
    case Insert(blocks) => assert blocks * BLOCK_BYTES % 512 == 0;
    case _ =>
  }

  /** Whatever is inserted, the card is a whole number of sectors, at most 512 MiB. */
  lemma {:induction false} CardIsWhole(c: Card, es: seq<Event>)
    requires ValidRun(c, es) && WholeImage(c.image)
    ensures WholeImage(Run(c, es).image)
    decreases |es|
  {
    hide Step, WholeImage;
    if es == [] {
    } else {
      ShapeStep(c, es[0]);
      CardIsWhole(Step(c, es[0]), es[1..]);
    }
  }

  /** What an insertion takes, and what is there afterwards. */
  lemma InsertionIff(c: Card, blocks: nat, file: Option<seq<byte>>, writable: bool)
    ensures var d := Step(c, Insert(blocks));
            if 0 < blocks <= 1024 * 1024 then
              && d.inserted && d.image.writable && |d.image.bytes| == 512 * blocks
              && forall b :: b in d.image.bytes ==> b == 0
            else !d.inserted && d.image == c.image
    ensures var d := Step(c, InsertImage(file, writable));
            if file.Some? && 0 < |file.value| <= 512 * 1024 * 1024 && |file.value| % 512 == 0 then
              d.inserted && d.image.bytes == file.value && d.image.writable == writable
            else d == c
  {
    if file.Some? { assert |file.value| / 512 <= 1024 * 1024 <==> |file.value| < 512 * (1024 * 1024 + 1); }
  }
}
