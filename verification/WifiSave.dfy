/**
 `saveCredentials` of firmware/src/WifiCredentialStore.cpp: the new list is written to
 a temporary file, the old file is set aside as a backup, the temporary file takes
 its place.  What survives a power loss after any call, and what a false return means.
 */
module WifiSave {

  import opened Bytes
  import opened Sequences
  import opened WifiCodec
  import opened SdCard

  // ---------- what is written ----------

  function EntryChunks(c: Credential): seq<seq<byte>> {
    [U32(|c.ssid|), c.ssid, U32(|c.password|), Obfuscated(c.password)]
  }

  function EntriesChunks(list: seq<Credential>): seq<seq<byte>> {
    if list == [] then [] else EntriesChunks(list[..|list| - 1]) + EntryChunks(list[|list| - 1])
  }

  function HeaderChunks(list: seq<Credential>): seq<seq<byte>> { [[FILE_VERSION], [|list| % 256]] }

  function Chunks(list: seq<Credential>): seq<seq<byte>> { HeaderChunks(list) + EntriesChunks(list) }

  // ---------- the save ----------

  /** The temporary file is written, flushed and probed.  Up to here a failure has nothing to undo. */
  function Prepared(o: Outcomes, c: Card, next: seq<Credential>): Step {
    var dir := if c.hasDir then Step(c, true) else DirMade(o, c);
    if !dir.ok then dir
    else
      var cleared := if TempFile in dir.card.files then Removed(o, dir.card, TempFile).card else dir.card;
      var part := OpenedForWrite(o, cleared, TempFile);
      if !part.ok then part else Filled(o, part.card, next)
  }

  function Filled(o: Outcomes, c: Card, next: seq<Credential>): Step {
    var written := WrittenAll(o, c, TempFile, Chunks(next));
    var synced := if written.ok then Flushed(o, written.card) else written;
    var closed := if synced.ok then Flushed(o, synced.card) else synced;
    if !closed.ok then Step(Removed(o, Flushed(o, closed.card).card, TempFile).card, false)
    else Probed(o, closed.card)
  }

  function Probed(o: Outcomes, c: Card): Step {
    var probe := OpenedForRead(o, c, TempFile);
    if !probe.ok || |Contents(probe.card, TempFile)| == 0 then Step(Removed(o, probe.card, TempFile).card, false)
    else probe
  }

  /** `undone` says that the calls that put the old file back succeeded, or that none
      was needed; the source does not report it. */
  datatype Saving = Saving(card: Card, ok: bool, undone: bool)

  function Restored(o: Outcomes, c: Card, hadFile: bool): Step {
    if hadFile && BackupFile in c.files then Renamed(o, c, BackupFile, MainFile) else Step(c, !hadFile)
  }

  /** The old file becomes the backup and the temporary file the main one. */
  function Installed(o: Outcomes, c: Card): Saving {
    var size := |Contents(c, TempFile)|;
    var cleared := if BackupFile in c.files then Removed(o, c, BackupFile).card else c;
    var hadFile := MainFile in cleared.files;
    var aside := if hadFile then Renamed(o, cleared, MainFile, BackupFile) else Step(cleared, true);
    if !aside.ok then Saving(Removed(o, aside.card, TempFile).card, false, true)
    else
      var placed := Renamed(o, aside.card, TempFile, MainFile);
      if !placed.ok then
        var back := Restored(o, placed.card, hadFile);
        Saving(Removed(o, back.card, TempFile).card, false, back.ok)
      else Checked(o, placed.card, hadFile, size)
  }

  function Checked(o: Outcomes, c: Card, hadFile: bool, size: nat): Saving {
    var verify := OpenedForRead(o, c, MainFile);
    if !verify.ok || |Contents(verify.card, MainFile)| != size then
      var gone := Removed(o, Flushed(o, verify.card).card, MainFile);
      var back := Restored(o, gone.card, hadFile);
      Saving(back.card, false, if hadFile then back.ok else gone.ok)
    else if BackupFile in verify.card.files then Saving(Removed(o, verify.card, BackupFile).card, true, true)
    else Saving(verify.card, true, true)
  }

  function Saved(o: Outcomes, c: Card, next: seq<Credential>): Saving {
    var ready := Prepared(o, c, next);
    if ready.ok then Installed(o, ready.card) else Saving(ready.card, false, true)
  }

  // ---------- preparing touches the temporary file only ----------

  ghost predicate Same(a: Files, b: Files, p: Path) {
    (p in a <==> p in b) && (p in a ==> a[p] == b[p])
  }

  ghost predicate SameOutside(a: Files, b: Files) { Same(a, b, MainFile) && Same(a, b, BackupFile) }

  /** The states that the calls between `a` and `b` left behind. */
  ghost predicate AllBetween(a: Card, b: Card, good: Files -> bool) {
    a.trail <= b.trail && forall i :: |a.trail| <= i < |b.trail| ==> good(b.trail[i])
  }

  ghost predicate OnlyTemp(a: Card, b: Card) {
    SameOutside(a.files, b.files) && AllBetween(a, b, (f: Files) => SameOutside(a.files, f))
  }

  lemma OnlyTempTwice(a: Card, b: Card, c: Card)
    requires OnlyTemp(a, b) && OnlyTemp(b, c)
    ensures OnlyTemp(a, c)
  {
    forall i | |a.trail| <= i < |c.trail| ensures SameOutside(a.files, c.trail[i]) {
      if i < |b.trail| { assert b.trail[i] == c.trail[i]; }
    }
  }

  lemma CallOnTemp(c: Card, files: Files)
    requires SameOutside(c.files, files)
    ensures OnlyTemp(c, Called(c, files))
  {
  }

  lemma {:induction false} ExactWrite(o: Outcomes, c: Card, data: seq<byte>)
    ensures var r := WrittenExact(o, c, TempFile, data);
            && OnlyTemp(c, r.card)
            && (r.ok ==> Contents(r.card, TempFile) == Contents(c, TempFile) + data)
            && (TempFile in c.files ==> TempFile in r.card.files) && r.card.hasDir == c.hasDir
    decreases |data|
  {
    hide OnlyTemp;
    if data == [] {
      assert Contents(c, TempFile) + data == Contents(c, TempFile);
      NothingOnTemp(c);
    } else {
      var n, after := Taken(o, c, data), Written(o, c, TempFile, data);
      CallOnTemp(c, after.files);
      if n > 0 {
        ExactWrite(o, after, data[n..]);
        OnlyTempTwice(c, after, WrittenExact(o, c, TempFile, data).card);
        assert (Contents(c, TempFile) + data[..n]) + data[n..] == Contents(c, TempFile) + data;
      }
    }
  }

  lemma NothingOnTemp(c: Card)
    ensures OnlyTemp(c, c)
  {
  }

  lemma {:induction false} AllWritten(o: Outcomes, c: Card, chunks: seq<seq<byte>>)
    ensures var r := WrittenAll(o, c, TempFile, chunks);
            && OnlyTemp(c, r.card)
            && (r.ok ==> Contents(r.card, TempFile) == Contents(c, TempFile) + Joined(chunks))
            && (TempFile in c.files ==> TempFile in r.card.files) && r.card.hasDir == c.hasDir
  {
    hide OnlyTemp, WrittenExact;
    if chunks == [] {
      NothingOnTemp(c);
      assert Contents(c, TempFile) + [] == Contents(c, TempFile);
    } else {
      var init, last := chunks[..|chunks| - 1], chunks[|chunks| - 1];
      AllWritten(o, c, init);
      var before := WrittenAll(o, c, TempFile, init);
      if before.ok {
        ExactWrite(o, before.card, last);
        OnlyTempTwice(c, before.card, WrittenExact(o, before.card, TempFile, last).card);
        assert (Contents(c, TempFile) + Joined(init)) + last == Contents(c, TempFile) + (Joined(init) + last);
      }
    }
  }

  lemma JoinedEntry(c: Credential)
    ensures Joined(EntryChunks(c)) == EntryBytes(c)
  {
    hide Joined, Obfuscated;
    var pwd: seq<byte> := Obfuscated(c.password);
    var size1, size2 := U32(|c.ssid|), U32(|c.password|);
    JoinedTwo(size1, c.ssid);
    JoinedTwo(size2, pwd);
    JoinedTwice([size1, c.ssid], [size2, pwd]);
    assert EntryChunks(c) == [size1, c.ssid] + [size2, pwd];
  }

  lemma {:induction false} JoinedEntries(list: seq<Credential>)
    ensures Joined(EntriesChunks(list)) == EntriesBytes(list)
  {
    if list == [] {
    } else {
      hide Joined, EntryChunks, EntryBytes;
      var init := list[..|list| - 1];
      JoinedEntries(init);
      JoinedTwice(EntriesChunks(init), EntryChunks(list[|list| - 1]));
      JoinedEntry(list[|list| - 1]);
    }
  }

  lemma ChunksJoinToFile(list: seq<Credential>)
    ensures Joined(Chunks(list)) == FileBytes(list)
  {
    var header := HeaderChunks(list);
    JoinedTwice(header, EntriesChunks(list));
    JoinedEntries(list);
    JoinedTwo(header[0], header[1]);
    assert header == [header[0], header[1]];
  }

  /** Until it is renamed into place, the new file is only ever the temporary one, and
      it is complete when the preparation succeeds. */
  lemma PreparedKeepsTheRest(o: Outcomes, c: Card, next: seq<Credential>)
    ensures var r := Prepared(o, c, next);
            && OnlyTemp(c, r.card)
            && (r.ok ==> TempFile in r.card.files && r.card.files[TempFile] == FileBytes(next))
  {
    hide Filled, OnlyTemp, SameOutside;
    var dir := if c.hasDir then Step(c, true) else DirMade(o, c);
    StepsOnTemp(o, c);
    NothingOnTemp(c);
    if dir.ok {
      var cleared := if TempFile in dir.card.files then Removed(o, dir.card, TempFile).card else dir.card;
      StepsOnTemp(o, dir.card);
      NothingOnTemp(dir.card);
      OnlyTempTwice(c, dir.card, cleared);
      StepsOnTemp(o, cleared);
      var part := OpenedForWrite(o, cleared, TempFile);
      OnlyTempTwice(c, cleared, part.card);
      if part.ok {
        FilledKeepsTheRest(o, part.card, next);
        OnlyTempTwice(c, part.card, Filled(o, part.card, next).card);
      }
    }
  }

  lemma StepsOnTemp(o: Outcomes, c: Card)
    ensures OnlyTemp(c, DirMade(o, c).card) && OnlyTemp(c, Removed(o, c, TempFile).card)
    ensures OnlyTemp(c, OpenedForWrite(o, c, TempFile).card) && OnlyTemp(c, OpenedForRead(o, c, TempFile).card)
    ensures OnlyTemp(c, Flushed(o, c).card)
  {
  }

  lemma FilledKeepsTheRest(o: Outcomes, c: Card, next: seq<Credential>)
    requires TempFile in c.files && c.files[TempFile] == []
    ensures var r := Filled(o, c, next);
            && OnlyTemp(c, r.card)
            && (r.ok ==> TempFile in r.card.files && r.card.files[TempFile] == FileBytes(next))
  {
    hide OnlyTemp, WrittenAll, Chunks, Joined, FileBytes, SameOutside;
    AllWritten(o, c, Chunks(next));
    ChunksJoinToFile(next);
    assert Contents(c, TempFile) + FileBytes(next) == FileBytes(next);
    var written := WrittenAll(o, c, TempFile, Chunks(next));
    var synced := if written.ok then Flushed(o, written.card) else written;
    var closed := if synced.ok then Flushed(o, synced.card) else synced;
    StepsOnTemp(o, written.card);
    NothingOnTemp(written.card);
    OnlyTempTwice(c, written.card, synced.card);
    StepsOnTemp(o, synced.card);
    NothingOnTemp(synced.card);
    OnlyTempTwice(c, synced.card, closed.card);
    StepsOnTemp(o, closed.card);
    var again := Flushed(o, closed.card).card;
    StepsOnTemp(o, again);
    OnlyTempTwice(c, closed.card, again);
    OnlyTempTwice(c, again, Removed(o, again, TempFile).card);
    var probe := OpenedForRead(o, closed.card, TempFile).card;
    OnlyTempTwice(c, closed.card, probe);
    StepsOnTemp(o, probe);
    OnlyTempTwice(c, probe, Removed(o, probe, TempFile).card);
  }

  // ---------- what a power loss leaves ----------

  /** A complete copy survives where it can be found again: the main file is whole, old
      or new, or it is missing and the backup is the whole old file. */
  ghost predicate Survives(was: Files, wanted: seq<byte>, f: Files) {
    if MainFile in f then f[MainFile] == wanted || Same(was, f, MainFile)
    else MainFile in was ==> BackupFile in f && f[BackupFile] == was[MainFile]
  }

  /** The outcome of `Installed`: the states in between, and the three ways a save can end. */
  ghost predicate Ends(was: Files, wanted: seq<byte>, before: Card, s: Saving) {
    && AllBetween(before, s.card, (f: Files) => Survives(was, wanted, f))
    && (s.ok ==> MainFile in s.card.files && s.card.files[MainFile] == wanted)
    && (!s.ok && s.undone ==> Same(was, s.card.files, MainFile))
    && Survives(was, wanted, s.card.files)
  }

  ghost predicate Safely(was: Files, wanted: seq<byte>, a: Card, b: Card) {
    AllBetween(a, b, (f: Files) => Survives(was, wanted, f)) && Survives(was, wanted, b.files)
  }

  lemma SafeCall(was: Files, wanted: seq<byte>, a: Card, c: Card, files: Files)
    requires Safely(was, wanted, a, c) && Survives(was, wanted, files)
    ensures Safely(was, wanted, a, Called(c, files))
  {
    var b := Called(c, files);
    forall i | |a.trail| <= i < |b.trail| ensures Survives(was, wanted, b.trail[i]) {
      if i < |c.trail| { assert b.trail[i] == c.trail[i]; }
    }
  }

  lemma InstallEnds(o: Outcomes, c: Card)
    requires TempFile in c.files
    ensures Ends(c.files, c.files[TempFile], c, Installed(o, c))
  {
    hide Checked, Safely, Restored;
    var was, wanted := c.files, c.files[TempFile];
    var cleared := if BackupFile in c.files then Removed(o, c, BackupFile).card else c;
    NothingYet(was, wanted, c);
    SafeCall(was, wanted, c, c, Removed(o, c, BackupFile).card.files);
    var hadFile := MainFile in cleared.files;
    var aside := if hadFile then Renamed(o, cleared, MainFile, BackupFile) else Step(cleared, true);
    SafeCall(was, wanted, c, cleared, Renamed(o, cleared, MainFile, BackupFile).card.files);
    if !aside.ok {
      SafeCall(was, wanted, c, aside.card, Removed(o, aside.card, TempFile).card.files);
      EndsUndone(was, wanted, c, Installed(o, c));
    } else {
      RestIsSafe(o, was, wanted, c, aside.card, hadFile);
    }
  }

  lemma NothingYet(was: Files, wanted: seq<byte>, c: Card)
    requires c.files == was
    ensures Safely(was, wanted, c, c)
  {
  }

  lemma EndsUndone(was: Files, wanted: seq<byte>, before: Card, s: Saving)
    requires Safely(was, wanted, before, s.card) && !s.ok
    requires s.undone ==> Same(was, s.card.files, MainFile)
    ensures Ends(was, wanted, before, s)
  {
  }

  /** Everything after the old file has been set aside. */
  lemma RestIsSafe(o: Outcomes, was: Files, wanted: seq<byte>, before: Card, c: Card, hadFile: bool)
    requires Safely(was, wanted, before, c) && (hadFile <==> MainFile in was)
    requires MainFile !in c.files && TempFile in c.files && c.files[TempFile] == wanted
    requires hadFile ==> BackupFile in c.files && c.files[BackupFile] == was[MainFile]
    ensures var placed := Renamed(o, c, TempFile, MainFile);
            && (!placed.ok ==>
                  var back := Restored(o, placed.card, hadFile);
                  Ends(was, wanted, before, Saving(Removed(o, back.card, TempFile).card, false, back.ok)))
            && (placed.ok ==> Ends(was, wanted, before, Checked(o, placed.card, hadFile, |wanted|)))
  {
    hide Safely, Ends, Checked;
    var placed := Renamed(o, c, TempFile, MainFile);
    SafeCall(was, wanted, before, c, placed.card.files);
    if placed.ok {
      CheckEnds(o, was, wanted, before, placed.card, hadFile);
    } else {
      var back := Restored(o, placed.card, hadFile);
      if hadFile {
        SafeCall(was, wanted, before, placed.card, Renamed(o, placed.card, BackupFile, MainFile).card.files);
      }
      SafeCall(was, wanted, before, back.card, Removed(o, back.card, TempFile).card.files);
      EndsUndone(was, wanted, before, Saving(Removed(o, back.card, TempFile).card, false, back.ok));
    }
  }

  lemma CheckEnds(o: Outcomes, was: Files, wanted: seq<byte>, before: Card, c: Card, hadFile: bool)
    requires Safely(was, wanted, before, c) && (hadFile <==> MainFile in was)
    requires MainFile in c.files && c.files[MainFile] == wanted
    requires hadFile ==> BackupFile in c.files && c.files[BackupFile] == was[MainFile]
    ensures Ends(was, wanted, before, Checked(o, c, hadFile, |wanted|))
  {
    hide Safely, Ends;
    var verify := OpenedForRead(o, c, MainFile);
    SafeCall(was, wanted, before, c, verify.card.files);
    if verify.ok {
      SafeCall(was, wanted, before, verify.card, Removed(o, verify.card, BackupFile).card.files);
      EndsSaved(was, wanted, before, Checked(o, c, hadFile, |wanted|));
    } else {
      var closed := Flushed(o, verify.card).card;
      SafeCall(was, wanted, before, verify.card, closed.files);
      var gone := Removed(o, closed, MainFile);
      SafeCall(was, wanted, before, closed, gone.card.files);
      if hadFile {
        SafeCall(was, wanted, before, gone.card, Renamed(o, gone.card, BackupFile, MainFile).card.files);
      }
      EndsUndone(was, wanted, before, Checked(o, c, hadFile, |wanted|));
    }
  }

  lemma EndsSaved(was: Files, wanted: seq<byte>, before: Card, s: Saving)
    requires Safely(was, wanted, before, s.card) && s.ok
    requires MainFile in s.card.files && s.card.files[MainFile] == wanted
    ensures Ends(was, wanted, before, s)
  {
  }

  /** From any card: after every call of a save, whatever the card answers, a complete
      copy survives; a true return means the new file is in place; a false return whose
      repairs worked means the main file is as it was. */
  lemma SaveIsTransactional(o: Outcomes, c: Card, next: seq<Credential>)
    ensures Ends(c.files, FileBytes(next), c, Saved(o, c, next))
  {
    hide Installed, Prepared, FileBytes;
    PreparedKeepsTheRest(o, c, next);
    var ready := Prepared(o, c, next);
    if ready.ok {
      InstallEnds(o, ready.card);
      ComposeEnds(c, ready.card, FileBytes(next), Installed(o, ready.card));
    }
  }

  lemma ComposeEnds(c: Card, ready: Card, wanted: seq<byte>, s: Saving)
    requires OnlyTemp(c, ready) && Ends(ready.files, wanted, ready, s)
    ensures Ends(c.files, wanted, c, s)
  {
    forall i | |c.trail| <= i < |s.card.trail| ensures Survives(c.files, wanted, s.card.trail[i]) {
      if i < |ready.trail| { assert ready.trail[i] == s.card.trail[i]; }
    }
  }

  // ---------- a card that works, and a card that is left with a backup only ----------

  ghost predicate Works(o: Outcomes) { forall n :: o(n) > 0 }

  lemma {:induction false} WorkingWrite(o: Outcomes, c: Card, data: seq<byte>)
    requires Works(o)
    ensures WrittenExact(o, c, TempFile, data).ok
    decreases |data|
  {
    if data == [] {
    } else {
      WorkingWrite(o, Written(o, c, TempFile, data), data[Taken(o, c, data)..]);
    }
  }

  lemma {:induction false} WorkingWrites(o: Outcomes, c: Card, chunks: seq<seq<byte>>)
    requires Works(o)
    ensures WrittenAll(o, c, TempFile, chunks).ok
  {
    hide WrittenExact;
    if chunks == [] {
    } else {
      var init, last := chunks[..|chunks| - 1], chunks[|chunks| - 1];
      WorkingWrites(o, c, init);
      WorkingWrite(o, WrittenAll(o, c, TempFile, init).card, last);
    }
  }

  lemma WorkingPreparation(o: Outcomes, c: Card, next: seq<Credential>)
    requires Works(o)
    ensures Prepared(o, c, next).ok && |c.trail| < |Prepared(o, c, next).card.trail|
    ensures Prepared(o, c, next).card.hasDir
  {
    hide WrittenAll, Chunks, FileBytes, OnlyTemp;
    var dir := if c.hasDir then Step(c, true) else DirMade(o, c);
    var cleared := if TempFile in dir.card.files then Removed(o, dir.card, TempFile).card else dir.card;
    var part := OpenedForWrite(o, cleared, TempFile).card;
    WorkingWrites(o, part, Chunks(next));
    AllWritten(o, part, Chunks(next));
    TrailGrows(part, WrittenAll(o, part, TempFile, Chunks(next)).card);
    ChunksJoinToFile(next);
    FileNotEmpty(next);
  }

  lemma TrailGrows(a: Card, b: Card)
    requires OnlyTemp(a, b)
    ensures |a.trail| <= |b.trail|
  {
  }

  lemma FileNotEmpty(list: seq<Credential>)
    ensures |FileBytes(list)| >= 2
  {
  }

  /** A card that answers every call takes every save, and is left with the new file alone. */
  lemma WorkingCardSaves(o: Outcomes, c: Card, next: seq<Credential>)
    requires Works(o)
    ensures var r := Saved(o, c, next);
            && r.ok && MainFile in r.card.files && r.card.files[MainFile] == FileBytes(next)
            && BackupFile !in r.card.files && TempFile !in r.card.files && r.card.hasDir
  {
    hide Prepared, FileBytes, OnlyTemp;
    WorkingPreparation(o, c, next);
    PreparedKeepsTheRest(o, c, next);
  }

  ghost predicate SomeCopy(f: Files) { MainFile in f || BackupFile in f }

  /** Whatever the card answers, some file but the temporary one is left after every call. */
  ghost predicate NeverWithoutCopy(c: Card, next: seq<Credential>) {
    forall o: Outcomes :: AllBetween(c, Saved(o, c, next).card, SomeCopy)
  }

  /** A save starts by deleting a left-over backup.  So a card that an earlier power loss
      left with the backup as its only copy can lose that too: a copy is always left
      exactly when there was a main file to begin with. */
  lemma SafeExactlyWithMainFile(c: Card, next: seq<Credential>)
    ensures NeverWithoutCopy(c, next) <==> MainFile in c.files
  {
    if MainFile in c.files {
      forall o: Outcomes ensures AllBetween(c, Saved(o, c, next).card, SomeCopy) {
        SaveIsTransactional(o, c, next);
        CopiesSurvive(c, FileBytes(next), Saved(o, c, next));
      }
    } else {
      var o: Outcomes := _ => 1;
      WithoutMainFile(o, c, next);
    }
  }

  /** A copy that exists is never lost exactly when it is not the backup alone. */
  lemma CopyIsKeptIff(c: Card, next: seq<Credential>)
    ensures (SomeCopy(c.files) ==> NeverWithoutCopy(c, next)) <==> MainFile in c.files || BackupFile !in c.files
  {
    hide NeverWithoutCopy;
    SafeExactlyWithMainFile(c, next);
  }

  /** The backup alone is what a power loss between the two renames leaves. */
  lemma BackupAlone(o: Outcomes, c: Card, next: seq<Credential>) returns (i: nat)
    requires Works(o) && MainFile in c.files
    ensures |c.trail| <= i < |Saved(o, c, next).card.trail|
    ensures var f := Saved(o, c, next).card.trail[i];
            MainFile !in f && BackupFile in f && f[BackupFile] == c.files[MainFile]
  {
    hide Prepared, Installed, FileBytes;
    WorkingPreparation(o, c, next);
    PreparedKeepsTheRest(o, c, next);
    i := BetweenTheRenames(o, Prepared(o, c, next).card);
  }

  /** A second power loss, in the next save, can then lose every copy. */
  lemma TwoPowerLossesLoseAll(o: Outcomes, c: Card, next: seq<Credential>, again: seq<Credential>) returns (i: nat)
    requires Works(o) && MainFile in c.files
    ensures |c.trail| <= i < |Saved(o, c, next).card.trail|
    ensures var f := Saved(o, c, next).card.trail[i];
            && MainFile !in f && BackupFile in f && f[BackupFile] == c.files[MainFile]
            && !NeverWithoutCopy(Card(f, true, 0, []), again)
  {
    hide Saved, NeverWithoutCopy;
    i := BackupAlone(o, c, next);
    SafeExactlyWithMainFile(Card(Saved(o, c, next).card.trail[i], true, 0, []), again);
  }

  lemma BetweenTheRenames(o: Outcomes, c: Card) returns (i: nat)
    requires Works(o) && MainFile in c.files && TempFile in c.files
    ensures |c.trail| <= i < |Installed(o, c).card.trail|
    ensures var f := Installed(o, c).card.trail[i];
            MainFile !in f && BackupFile in f && f[BackupFile] == c.files[MainFile]
  {
    hide Checked;
    var cleared := if BackupFile in c.files then Removed(o, c, BackupFile).card else c;
    var aside := Renamed(o, cleared, MainFile, BackupFile).card;
    var placed := Renamed(o, aside, TempFile, MainFile).card;
    i := |aside.trail| - 1;
    CheckContinues(o, placed, true, |Contents(c, TempFile)|);
    assert placed.trail[i] == aside.files;
  }

  lemma CopiesSurvive(c: Card, wanted: seq<byte>, s: Saving)
    requires MainFile in c.files && Ends(c.files, wanted, c, s)
    ensures AllBetween(c, s.card, SomeCopy)
  {
    forall i | |c.trail| <= i < |s.card.trail| ensures SomeCopy(s.card.trail[i]) {
      assert Survives(c.files, wanted, s.card.trail[i]);
    }
  }

  lemma WithoutMainFile(o: Outcomes, c: Card, next: seq<Credential>)
    requires Works(o) && MainFile !in c.files
    ensures !AllBetween(c, Saved(o, c, next).card, SomeCopy)
  {
    hide Prepared, Installed, FileBytes;
    WorkingPreparation(o, c, next);
    PreparedKeepsTheRest(o, c, next);
    var ready, end := Prepared(o, c, next).card, Saved(o, c, next).card;
    InstallEnds(o, ready);
    if BackupFile in c.files {
      BackupGoesFirst(o, ready);
      assert !SomeCopy(end.trail[|ready.trail|]);
    } else {
      assert SameOutside(c.files, ready.trail[|c.trail|]);
      assert !SomeCopy(end.trail[|c.trail|]);
    }
  }

  lemma BackupGoesFirst(o: Outcomes, c: Card)
    requires Works(o) && MainFile !in c.files && BackupFile in c.files
    ensures |c.trail| < |Installed(o, c).card.trail| && !SomeCopy(Installed(o, c).card.trail[|c.trail|])
  {
    hide Checked;
    var cleared := Removed(o, c, BackupFile).card;
    assert cleared.trail[|c.trail|] == c.files - {BackupFile};
    var placed := Renamed(o, cleared, TempFile, MainFile).card;
    assert cleared.trail <= placed.trail;
    CheckContinues(o, placed, false, |Contents(c, TempFile)|);
  }

  lemma CheckContinues(o: Outcomes, c: Card, hadFile: bool, size: nat)
    ensures c.trail <= Checked(o, c, hadFile, size).card.trail
  {
  }
}
