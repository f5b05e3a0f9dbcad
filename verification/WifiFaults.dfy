/**
 One failing call in a save: a card that takes every call but one never needs a repair
 that fails, so the main file is the new one or as it was, and no temporary file is left.
 */
module WifiFaults {

  import opened Bytes
  import opened Sequences
  import opened WifiCodec
  import opened SdCard
  import opened WifiSave

  /** Every call succeeds but perhaps the j-th one. */
  ghost predicate OnlyFails(o: Outcomes, j: nat) { forall n :: n != j ==> o(n) > 0 }

  lemma {:induction false} WriteFailsOnce(o: Outcomes, j: nat, c: Card, data: seq<byte>)
    requires OnlyFails(o, j)
    ensures var r := WrittenExact(o, c, TempFile, data);
            c.calls <= r.card.calls && (!r.ok ==> j < r.card.calls)
    decreases |data|
  {
    if data != [] && Taken(o, c, data) > 0 {
      WriteFailsOnce(o, j, Written(o, c, TempFile, data), data[Taken(o, c, data)..]);
    }
  }

  lemma {:induction false} WritesFailOnce(o: Outcomes, j: nat, c: Card, chunks: seq<seq<byte>>)
    requires OnlyFails(o, j)
    ensures var r := WrittenAll(o, c, TempFile, chunks);
            c.calls <= r.card.calls && (!r.ok ==> j < r.card.calls)
  {
    hide WrittenExact;
    if chunks != [] {
      var init, last := chunks[..|chunks| - 1], chunks[|chunks| - 1];
      WritesFailOnce(o, j, c, init);
      WriteFailsOnce(o, j, WrittenAll(o, c, TempFile, init).card, last);
    }
  }

  lemma FillingFailsOnce(o: Outcomes, j: nat, c: Card, next: seq<Credential>)
    requires OnlyFails(o, j) && TempFile in c.files && c.files[TempFile] == []
    ensures var r := Filled(o, c, next); !r.ok ==> j < r.card.calls && TempFile !in r.card.files
  {
    hide WrittenAll, Chunks, FileBytes, Joined, OnlyTemp;
    WritesFailOnce(o, j, c, Chunks(next));
    AllWritten(o, c, Chunks(next));
    ChunksJoinToFile(next);
    FileNotEmpty(next);
  }

  lemma PreparationFailsOnce(o: Outcomes, j: nat, c: Card, next: seq<Credential>)
    requires OnlyFails(o, j) && (c.hasDir || TempFile !in c.files)
    ensures var r := Prepared(o, c, next); !r.ok ==> TempFile !in r.card.files
  {
    hide Filled;
    var dir := if c.hasDir then Step(c, true) else DirMade(o, c);
    var cleared := if TempFile in dir.card.files then Removed(o, dir.card, TempFile).card else dir.card;
    var part := OpenedForWrite(o, cleared, TempFile);
    if part.ok { FillingFailsOnce(o, j, part.card, next); }
  }

  lemma InstallFailsOnce(o: Outcomes, j: nat, c: Card)
    requires OnlyFails(o, j) && TempFile in c.files
    ensures Installed(o, c).undone && TempFile !in Installed(o, c).card.files
  {
    hide Checked;
    var cleared := if BackupFile in c.files then Removed(o, c, BackupFile).card else c;
    var hadFile := MainFile in cleared.files;
    var aside := if hadFile then Renamed(o, cleared, MainFile, BackupFile) else Step(cleared, true);
    var placed := Renamed(o, aside.card, TempFile, MainFile);
    if aside.ok && placed.ok { CheckFailsOnce(o, j, placed.card, hadFile, |c.files[TempFile]|); }
  }

  lemma CheckFailsOnce(o: Outcomes, j: nat, c: Card, hadFile: bool, size: nat)
    requires OnlyFails(o, j) && TempFile !in c.files
    requires MainFile in c.files && |c.files[MainFile]| == size && (hadFile ==> BackupFile in c.files)
    ensures Checked(o, c, hadFile, size).undone && TempFile !in Checked(o, c, hadFile, size).card.files
  {
  }

  /** When at most one call fails, a save is taken or leaves the main file as it was, and no
      temporary file stays behind, provided that the directory was there before the file. */
  lemma OneFaultIsRepaired(o: Outcomes, j: nat, c: Card, next: seq<Credential>)
    requires OnlyFails(o, j) && (c.hasDir || TempFile !in c.files)
    ensures var r := Saved(o, c, next);
            && r.undone && TempFile !in r.card.files
            && (if r.ok then MainFile in r.card.files && r.card.files[MainFile] == FileBytes(next)
                else Same(c.files, r.card.files, MainFile))
  {
    hide Prepared, Installed, FileBytes, OnlyTemp, AllBetween, Survives;
    SaveIsTransactional(o, c, next);
    PreparationFailsOnce(o, j, c, next);
    PreparedKeepsTheRest(o, c, next);
    if Prepared(o, c, next).ok { InstallFailsOnce(o, j, Prepared(o, c, next).card); }
  }
}
