/**
 The part of the SD card that the credential store uses: three files in one
 directory.  What the card answers to its n-th call is an arbitrary number, so every
 pattern of failures and partial writes is covered.  `trail` records the files after
 every call: the states a power loss can leave behind.
 */
module SdCard {

  import opened Bytes

  /** wifi.bin, wifi.bin.bak and wifi.bin.part. */
  datatype Path = MainFile | BackupFile | TempFile

  type Files = map<Path, seq<byte>>

  type Outcomes = nat -> int

  datatype Card = Card(files: Files, hasDir: bool, calls: nat, trail: seq<Files>)

  /** The card after a call and whether the call succeeded. */
  datatype Step = Step(card: Card, ok: bool)

  function Called(c: Card, files: Files): Card { Card(files, c.hasDir, c.calls + 1, c.trail + [files]) }

  function DirMade(o: Outcomes, c: Card): Step {
    var ok := o(c.calls) > 0;
    Step(Called(c, c.files).(hasDir := c.hasDir || ok), ok)
  }

  function Removed(o: Outcomes, c: Card, p: Path): Step {
    var ok := p in c.files && o(c.calls) > 0;
    Step(Called(c, if ok then c.files - {p} else c.files), ok)
  }

  /** A rename onto an existing file may be refused, as by SdFat, or replace it. */
  function Renamed(o: Outcomes, c: Card, from: Path, into: Path): Step {
    var ok := from in c.files && o(c.calls) > 0;
    Step(Called(c, if ok then (c.files - {from})[into := c.files[from]] else c.files), ok)
  }

  function OpenedForWrite(o: Outcomes, c: Card, p: Path): Step {
    var ok := o(c.calls) > 0;
    Step(Called(c, if ok then c.files[p := []] else c.files), ok)
  }

  function OpenedForRead(o: Outcomes, c: Card, p: Path): Step {
    Step(Called(c, c.files), p in c.files && o(c.calls) > 0)
  }

  /** `sync` or `close` */
  function Flushed(o: Outcomes, c: Card): Step { Step(Called(c, c.files), o(c.calls) > 0) }

  function Contents(c: Card, p: Path): seq<byte> { if p in c.files then c.files[p] else [] }

  /** One `write` call: the number of bytes it reports, all of which it appended. */
  function Taken(o: Outcomes, c: Card, data: seq<byte>): int {
    if o(c.calls) > |data| then |data| else o(c.calls)
  }

  function Written(o: Outcomes, c: Card, p: Path, data: seq<byte>): Card {
    var n := Taken(o, c, data);
    Called(c, if n > 0 then c.files[p := Contents(c, p) + data[..n]] else c.files)
  }

  /** `writeExact`: calls until all is written or one reports nothing. */
  function WrittenExact(o: Outcomes, c: Card, p: Path, data: seq<byte>): Step
    decreases |data|
  {
    if data == [] then Step(c, true)
    else
      var n := Taken(o, c, data);
      if n <= 0 then Step(Written(o, c, p, data), false)
      else WrittenExact(o, Written(o, c, p, data), p, data[n..])
  }

  /** The chunks written in order, stopping at the first failure. */
  function WrittenAll(o: Outcomes, c: Card, p: Path, chunks: seq<seq<byte>>): Step {
    if chunks == [] then Step(c, true)
    else
      var init := WrittenAll(o, c, p, chunks[..|chunks| - 1]);
      if init.ok then WrittenExact(o, init.card, p, chunks[|chunks| - 1]) else init
  }

  class SDCardManager {
    var files: Files
    var hasDir: bool
    var calls: nat
    ghost var trail: seq<Files>
    const outcomes: Outcomes

    ghost function View(): Card
      reads this
    {
      Card(files, hasDir, calls, trail)
    }

    constructor (outcomes: Outcomes, files: Files, hasDir: bool)
      ensures View() == Card(files, hasDir, 0, []) && this.outcomes == outcomes
    {
      this.outcomes, this.files, this.hasDir := outcomes, files, hasDir;
      calls, trail := 0, [];
    }

    predicate Exists(p: Path)
      reads this
    {
      p in files
    }

    /** Ends a call that left these files. */
    method EndCall(after: Files)
      modifies this
      ensures View() == Called(old(View()), after)
    {
      files, calls := after, calls + 1;
      trail := trail + [after];
    }

    method Mkdir() returns (ok: bool)
      modifies this
      ensures Step(View(), ok) == DirMade(outcomes, old(View()))
    {
      ok := outcomes(calls) > 0;
      EndCall(files);
      hasDir := hasDir || ok;
    }

    method Remove(p: Path) returns (ok: bool)
      modifies this
      ensures Step(View(), ok) == Removed(outcomes, old(View()), p)
    {
      ok := p in files && outcomes(calls) > 0;
      EndCall(if ok then files - {p} else files);
    }

    method Rename(from: Path, into: Path) returns (ok: bool)
      modifies this
      ensures Step(View(), ok) == Renamed(outcomes, old(View()), from, into)
    {
      ok := from in files && outcomes(calls) > 0;
      EndCall(if ok then (files - {from})[into := files[from]] else files);
    }

    method OpenFileForWrite(p: Path) returns (ok: bool)
      modifies this
      ensures Step(View(), ok) == OpenedForWrite(outcomes, old(View()), p)
    {
      ok := outcomes(calls) > 0;
      EndCall(if ok then files[p := []] else files);
    }

    method OpenFileForRead(p: Path) returns (ok: bool)
      modifies this
      ensures Step(View(), ok) == OpenedForRead(outcomes, old(View()), p)
    {
      ok := p in files && outcomes(calls) > 0;
      EndCall(files);
    }

    method Flush() returns (ok: bool)
      modifies this
      ensures Step(View(), ok) == Flushed(outcomes, old(View()))
    {
      ok := outcomes(calls) > 0;
      EndCall(files);
    }

    method Write(p: Path, data: seq<byte>) returns (n: int)
      modifies this
      ensures n == Taken(outcomes, old(View()), data) && n <= |data|
      ensures View() == Written(outcomes, old(View()), p, data)
    {
      n := if outcomes(calls) > |data| then |data| else outcomes(calls);
      var was := if p in files then files[p] else [];
      EndCall(if n > 0 then files[p := was + data[..n]] else files);
    }

    /** One `read` call from a position: the bytes it delivered, none when it reports failure. */
    method Read(p: Path, pos: nat, size: nat) returns (data: seq<byte>)
      requires p in files && pos <= |files[p]|
      modifies this
      ensures View() == Called(old(View()), old(files))
      ensures |data| <= size && pos + |data| <= |files[p]| && data == files[p][pos..pos + |data|]
      ensures data == [] <==> size == 0 || pos == |files[p]| || outcomes(old(calls)) <= 0
    {
      var left := |files[p]| - pos;
      var most := if size < left then size else left;
      var n := if outcomes(calls) > most then most else if outcomes(calls) > 0 then outcomes(calls) else 0;
      data := files[p][pos..pos + n];
      EndCall(files);
    }

    method WriteExact(p: Path, data: seq<byte>) returns (ok: bool)
      modifies this
      ensures Step(View(), ok) == WrittenExact(outcomes, old(View()), p, data)
    {
      hide Taken, Written;
      var offset := 0;
      while offset < |data|
        invariant 0 <= offset <= |data|
        invariant WrittenExact(outcomes, View(), p, data[offset..]) == WrittenExact(outcomes, old(View()), p, data)
      {
        var written := Write(p, data[offset..]);
        if written <= 0 { return false; }
        assert data[offset..][written..] == data[offset + written..];
        offset := offset + written;
      }
      ok := true;
    }
  }
}
