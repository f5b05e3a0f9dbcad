/**
 The credential store of firmware/src/WifiCredentialStore.cpp: the list in memory, the
 file that must agree with it, and the calls that change both.
 */
module WifiStore {

  import opened Wrappers
  import opened Bytes
  import opened LengthPrefixed
  import opened WifiCodec
  import opened SdCard
  import opened WifiSave

  datatype Store = Store(card: Card, credentials: seq<Credential>)

  datatype Request = Add(ssid: Str, password: Str) | Remove(ssid: Str) | ClearAll

  /** `undone` as in `Saving`; true when nothing was saved. */
  datatype Reply = Reply(store: Store, ok: bool, undone: bool)

  function IndexOf(list: seq<Credential>, ssid: Str): (i: nat)
    ensures i <= |list|
    ensures i < |list| ==> list[i].ssid == ssid
    ensures forall j :: 0 <= j < i ==> list[j].ssid != ssid
  {
    if list == [] || list[0].ssid == ssid then 0 else 1 + IndexOf(list[1..], ssid)
  }

  /** The list a request asks to save, if it asks for one. */
  function Next(list: seq<Credential>, r: Request): Option<seq<Credential>> {
    match r
    case Add(ssid, password) =>
      var i := IndexOf(list, ssid);
      if i < |list| then Some(list[i := Credential(ssid, password)])
      else if |list| >= MAX_NETWORKS then None
      else Some(list + [Credential(ssid, password)])
    case Remove(ssid) =>
      var i := IndexOf(list, ssid);
      if i < |list| then Some(list[..i] + list[i + 1..]) else None
    case ClearAll => Some([])
  }

  function Handled(o: Outcomes, s: Store, r: Request): Reply {
    match Next(s.credentials, r)
    case None => Reply(s, false, true)
    case Some(next) =>
      var saving := Saved(o, s.card, next);
      Reply(Store(saving.card, if saving.ok then next else s.credentials), saving.ok, saving.undone)
  }

  // ---------- the list is a map from networks to passwords ----------

  ghost predicate UniqueSsids(list: seq<Credential>) {
    forall i, j :: 0 <= i < j < |list| ==> list[i].ssid != list[j].ssid
  }

  function Lookup(list: seq<Credential>, ssid: Str): Option<Str> {
    var i := IndexOf(list, ssid);
    if i < |list| then Some(list[i].password) else None
  }

  lemma FirstIndex(list: seq<Credential>, ssid: Str, i: nat)
    requires i <= |list| && (i < |list| ==> list[i].ssid == ssid)
    requires forall j :: 0 <= j < i ==> list[j].ssid != ssid
    ensures IndexOf(list, ssid) == i
  {
  }

  lemma AddLeavesOthers(list: seq<Credential>, ssid: Str, password: Str, other: Str)
    requires other != ssid && Next(list, Add(ssid, password)).Some?
    ensures Lookup(Next(list, Add(ssid, password)).value, other) == Lookup(list, other)
  {
    var next := Next(list, Add(ssid, password)).value;
    var i := IndexOf(list, other);
    FirstIndex(next, other, if i < |list| then i else |next|);
  }

  lemma AddSets(list: seq<Credential>, ssid: Str, password: Str)
    requires Next(list, Add(ssid, password)).Some?
    ensures Lookup(Next(list, Add(ssid, password)).value, ssid) == Some(password)
  {
    FirstIndex(Next(list, Add(ssid, password)).value, ssid, IndexOf(list, ssid));
  }

  lemma RemoveTakesOne(list: seq<Credential>, removed: Str, other: Str)
    requires UniqueSsids(list) && Next(list, Remove(removed)).Some?
    ensures var next := Next(list, Remove(removed)).value;
            Lookup(next, other) == if other == removed then None else Lookup(list, other)
  {
    var next := Next(list, Remove(removed)).value;
    var at, i := IndexOf(list, removed), IndexOf(list, other);
    FirstIndex(next, other, if i == at || i == |list| then |next| else if i < at then i else i - 1);
  }

  /** Refused are a new name when eight are kept, and the removal of an unknown one; nothing else. */
  lemma RefusedIff(list: seq<Credential>, r: Request)
    ensures Next(list, r) == None
       <==> match r
            case Add(ssid, _) => |list| >= 8 && forall i :: 0 <= i < |list| ==> list[i].ssid != ssid
            case Remove(ssid) => forall i :: 0 <= i < |list| ==> list[i].ssid != ssid
            case ClearAll => false
  {
  }

  lemma NextKeepsNames(list: seq<Credential>, r: Request)
    requires UniqueSsids(list) && |list| <= MAX_NETWORKS && Next(list, r).Some?
    ensures UniqueSsids(Next(list, r).value) && |Next(list, r).value| <= MAX_NETWORKS
  {
  }

  /** A request keeps the names unique and the list within its limit, and does to the
      passwords what it says and nothing else. */
  lemma NextIsMapUpdate(list: seq<Credential>, r: Request, ssid: Str)
    requires UniqueSsids(list) && |list| <= MAX_NETWORKS && Next(list, r).Some?
    ensures var next := Next(list, r).value;
            && UniqueSsids(next) && |next| <= MAX_NETWORKS
            && Lookup(next, ssid)
               == match r
                  case Add(added, password) => if ssid == added then Some(password) else Lookup(list, ssid)
                  case Remove(removed) => if ssid == removed then None else Lookup(list, ssid)
                  case ClearAll => None
  {
    NextKeepsNames(list, r);
    match r
    case Add(added, password) =>
      hide *;
      if ssid == added { AddSets(list, added, password); } else { AddLeavesOthers(list, added, password, ssid); }
    case Remove(removed) =>
      hide *;
      RemoveTakesOne(list, removed, ssid);
    case ClearAll =>
  }

  // ---------- disk and memory agree ----------

  /** The main file loads as the list in memory. */
  ghost predicate Agree(s: Store) {
    MainFile in s.card.files && Parse(s.card.files[MainFile]) == Some(s.credentials)
  }

  /** The strings the file format can carry. */
  predicate ShortRequest(r: Request) { r.Add? ==> Short(Credential(r.ssid, r.password)) }

  lemma NextIsLoadable(list: seq<Credential>, r: Request)
    requires Loadable(list) && Next(list, r).Some?
    ensures Loadable(Next(list, r).value) <==> ShortRequest(r)
  {
    hide Short;
    var next := Next(list, r).value;
    match r
    case Add(ssid, password) =>
      assert next[IndexOf(list, ssid)] == Credential(ssid, password);
    case Remove(ssid) =>
      forall i | 0 <= i < |next| ensures Short(next[i]) {
        assert next[i] == list[if i < IndexOf(list, ssid) then i else i + 1];
      }
    case ClearAll =>
  }

  /** One request on any store whose memory the file format can carry, whatever is on
      disk: no file yet, or what a failed repair left.  A save that succeeds leaves disk
      and memory in agreement exactly when the request fits the format; a request that was
      refused, or failed and was undone, changes neither memory nor agreement. */
  lemma RequestKeepsAgreement(o: Outcomes, s: Store, r: Request)
    requires Loadable(s.credentials)
    ensures var reply := Handled(o, s, r);
            && (reply.ok ==> (Agree(reply.store) <==> ShortRequest(r)))
            && (!reply.ok ==> reply.store.credentials == s.credentials)
            && (!reply.ok && reply.undone ==> (Agree(reply.store) <==> Agree(s)))
            && (ShortRequest(r) ==> Loadable(reply.store.credentials))
  {
    hide Saved, Parse, FileBytes, Loadable, ShortRequest;
    var asked := Next(s.credentials, r);
    if asked.Some? {
      SaveIsTransactional(o, s.card, asked.value);
      SavedListLoads(asked.value);
      NextIsLoadable(s.credentials, r);
    }
  }

  lemma AgreeingIsLoadable(s: Store)
    requires Agree(s)
    ensures Loadable(s.credentials)
  {
    LoadedIsLoadable(s.card.files[MainFile]);
  }

  /** Wherever the power is lost during a request, a main file that is there loads as
      the old list or the new one, and one that is missing has its backup. */
  lemma PowerLossLeavesOldOrNew(o: Outcomes, s: Store, r: Request, i: nat)
    requires Agree(s) && ShortRequest(r)
    requires |s.card.trail| <= i < |Handled(o, s, r).store.card.trail|
    ensures var f := Handled(o, s, r).store.card.trail[i];
            if MainFile in f then
              Parse(f[MainFile]) == Some(s.credentials) || Parse(f[MainFile]) == Next(s.credentials, r)
            else
              BackupFile in f && Parse(f[BackupFile]) == Some(s.credentials)
  {
    hide Saved, Parse, FileBytes, Loadable, ShortRequest;
    LoadedIsLoadable(s.card.files[MainFile]);
    var asked := Next(s.credentials, r);
    if asked.Some? {
      SaveIsTransactional(o, s.card, asked.value);
      SavedListLoads(asked.value);
      NextIsLoadable(s.credentials, r);
      TransactionalAt(s.card.files, FileBytes(asked.value), s.card, Saved(o, s.card, asked.value), i);
    }
  }

  lemma TransactionalAt(was: Files, wanted: seq<byte>, before: Card, s: Saving, i: nat)
    requires Ends(was, wanted, before, s) && |before.trail| <= i < |s.card.trail|
    ensures Survives(was, wanted, s.card.trail[i])
  {
  }

  // ---------- whole runs ----------

  function Run(o: Outcomes, s: Store, requests: seq<Request>): Store {
    if requests == [] then s
    else Handled(o, Run(o, s, requests[..|requests| - 1]), requests[|requests| - 1]).store
  }

  /** Disk and memory have been brought together: they agreed at the start, or some request
      was saved, and every failure since then was undone. */
  ghost predicate Synced(o: Outcomes, s: Store, requests: seq<Request>) {
    if requests == [] then Agree(s)
    else
      var init := requests[..|requests| - 1];
      var reply := Handled(o, Run(o, s, init), requests[|requests| - 1]);
      reply.ok || (reply.undone && Synced(o, s, init))
  }

  /** From any store with loadable memory, first boot included, and for any run of
      requests that the format can carry, whatever failed: memory stays loadable, its
      names unique if they were, and disk and memory agree as soon as a request has been
      saved, until a later repair fails. */
  lemma {:induction false} AgreesFromTheLastSave(o: Outcomes, s: Store, requests: seq<Request>)
    requires Loadable(s.credentials) && forall n :: 0 <= n < |requests| ==> ShortRequest(requests[n])
    ensures var end := Run(o, s, requests);
            && Loadable(end.credentials)
            && (UniqueSsids(s.credentials) ==> UniqueSsids(end.credentials))
            && (Synced(o, s, requests) ==> Agree(end))
  {
    hide Saved, Parse, UniqueSsids, ShortRequest, Short;
    if requests == [] {
    } else {
      var init, last := requests[..|requests| - 1], requests[|requests| - 1];
      AgreesFromTheLastSave(o, s, init);
      var mid := Run(o, s, init);
      RequestKeepsAgreement(o, mid, last);
      if UniqueSsids(mid.credentials) && Next(mid.credentials, last).Some? {
        NextIsMapUpdate(mid.credentials, last, []);
      }
    }
  }

  /** No save of the run failed without being undone. */
  ghost predicate FailuresUndone(o: Outcomes, s: Store, requests: seq<Request>) {
    forall n :: 0 <= n < |requests| ==>
      var reply := Handled(o, Run(o, s, requests[..n]), requests[n]);
      reply.ok || reply.undone
  }

  lemma {:induction false} UndoneStaysSynced(o: Outcomes, s: Store, requests: seq<Request>)
    requires Agree(s) && FailuresUndone(o, s, requests)
    ensures Synced(o, s, requests)
  {
    hide Handled, Agree, Run, FailuresUndone;
    if requests == [] {
    } else {
      InitUndone(o, s, requests);
      UndoneStaysSynced(o, s, requests[..|requests| - 1]);
    }
  }

  /** In particular, from a loaded store with unique names, as long as failed saves can be
      undone, the file always parses to exactly the list in memory. */
  lemma DiskAndMemoryAgree(o: Outcomes, s: Store, requests: seq<Request>)
    requires Agree(s) && UniqueSsids(s.credentials)
    requires FailuresUndone(o, s, requests) && forall n :: 0 <= n < |requests| ==> ShortRequest(requests[n])
    ensures var end := Run(o, s, requests);
            Agree(end) && UniqueSsids(end.credentials) && |end.credentials| <= MAX_NETWORKS
  {
    hide Run, Agree, UniqueSsids, ShortRequest, Short, FailuresUndone, Synced;
    AgreeingIsLoadable(s);
    UndoneStaysSynced(o, s, requests);
    AgreesFromTheLastSave(o, s, requests);
  }

  lemma InitUndone(o: Outcomes, s: Store, requests: seq<Request>)
    requires requests != [] && FailuresUndone(o, s, requests)
    ensures FailuresUndone(o, s, requests[..|requests| - 1])
    ensures var reply := Handled(o, Run(o, s, requests[..|requests| - 1]), requests[|requests| - 1]);
            reply.ok || reply.undone
  {
    hide Handled, Run;
    var init := requests[..|requests| - 1];
    forall n | 0 <= n < |init|
      ensures var reply := Handled(o, Run(o, s, init[..n]), init[n]);
              reply.ok || reply.undone
    {
      assert init[..n] == requests[..n] && init[n] == requests[n];
    }
  }

  lemma U32OfSlice(s: seq<byte>, pos: nat)
    requires pos + 4 <= |s|
    ensures ReadU32(s[pos..pos + 4], 0) == ReadU32(s, pos)
  {
  }

  class WifiCredentialStore {
    var credentials: seq<Credential>
    const sd: SDCardManager

    ghost function View(): Store
      reads this, sd
    {
      Store(sd.View(), credentials)
    }

    constructor (sd: SDCardManager)
      ensures this.sd == sd && credentials == []
    {
      this.sd := sd;
      credentials := [];
    }

    // ---------- saving ----------

    method WriteStringExact(p: Path, value: seq<byte>) returns (ok: bool)
      requires |value| < U32_LIMIT
      modifies sd
      ensures Step(sd.View(), ok) == WrittenAll(sd.outcomes, old(sd.View()), p, [U32(|value|), value])
    {
      hide WrittenExact;
      TwoChunks(sd.outcomes, sd.View(), p, U32(|value|), value);
      ok := sd.WriteExact(p, U32(|value|));
      if ok { ok := sd.WriteExact(p, value); }
    }

    method WriteList(next: seq<Credential>) returns (ok: bool)
      modifies sd
      ensures Step(sd.View(), ok) == WrittenAll(sd.outcomes, old(sd.View()), TempFile, Chunks(next))
    {
      hide WrittenAll, WrittenExact, EntriesChunks, EntryChunks;
      ghost var start := sd.View();
      TwoChunks(sd.outcomes, start, TempFile, [FILE_VERSION], [|next| % 256]);
      ok := sd.WriteExact(TempFile, [FILE_VERSION]);
      if ok { ok := sd.WriteExact(TempFile, [|next| % 256]); }
      var i := 0;
      NoEntryYet(next);
      while i < |next|
        invariant i <= |next|
        invariant Step(sd.View(), ok)
               == WrittenAll(sd.outcomes, start, TempFile, HeaderChunks(next) + EntriesChunks(next[..i]))
      {
        OneMoreEntry(sd.outcomes, start, next, i);
        if ok { ok := WriteStringExact(TempFile, next[i].ssid); }
        if ok { ok := WriteStringExact(TempFile, Obfuscated(next[i].password)); }
        i := i + 1;
      }
      assert next[..i] == next;
    }

    /** The temporary file from its header to the probe. */
    method Fill(next: seq<Credential>) returns (ok: bool)
      modifies sd
      ensures Step(sd.View(), ok) == Filled(sd.outcomes, old(sd.View()), next)
    {
      hide WrittenAll, Chunks;
      ok := WriteList(next);
      if ok { ok := sd.Flush(); }
      if ok { ok := sd.Flush(); }
      if !ok {
        var _ := sd.Flush();
        var _ := sd.Remove(TempFile);
        return false;
      }
      ok := sd.OpenFileForRead(TempFile);
      if !ok || Size(TempFile) == 0 {
        var _ := sd.Remove(TempFile);
        return false;
      }
    }

    function Size(p: Path): (n: nat)
      reads sd
      ensures n == |Contents(sd.View(), p)|
    {
      if p in sd.files then |sd.files[p]| else 0
    }

    method SaveCredentials(next: seq<Credential>) returns (ok: bool, ghost undone: bool)
      modifies sd
      ensures Saving(sd.View(), ok, undone) == Saved(sd.outcomes, old(sd.View()), next)
    {
      hide Filled, Installed;
      if !sd.hasDir {
        ok := sd.Mkdir();
        if !ok { return false, true; }
      }
      if sd.Exists(TempFile) { var _ := sd.Remove(TempFile); }
      ok := sd.OpenFileForWrite(TempFile);
      if !ok { return false, true; }
      ok := Fill(next);
      if !ok { return false, true; }
      ok, undone := Install(Size(TempFile));
    }

    method Install(writtenSize: nat) returns (ok: bool, ghost undone: bool)
      requires writtenSize == |Contents(sd.View(), TempFile)|
      modifies sd
      ensures Saving(sd.View(), ok, undone) == Installed(sd.outcomes, old(sd.View()))
    {
      hide Restored;
      if sd.Exists(BackupFile) { var _ := sd.Remove(BackupFile); }
      var hadFile := sd.Exists(MainFile);
      if hadFile {
        ok := sd.Rename(MainFile, BackupFile);
        if !ok {
          var _ := sd.Remove(TempFile);
          return false, true;
        }
      }
      ok := sd.Rename(TempFile, MainFile);
      if !ok {
        undone := Restore(hadFile);
        var _ := sd.Remove(TempFile);
        return false, undone;
      }
      ok, undone := Check(hadFile, writtenSize);
    }

    method Restore(hadFile: bool) returns (ghost back: bool)
      modifies sd
      ensures Step(sd.View(), back) == Restored(sd.outcomes, old(sd.View()), hadFile)
    {
      back := !hadFile;
      if hadFile && sd.Exists(BackupFile) {
        var renamed := sd.Rename(BackupFile, MainFile);
        back := renamed;
      }
    }

    method Check(hadFile: bool, writtenSize: nat) returns (ok: bool, ghost undone: bool)
      modifies sd
      ensures Saving(sd.View(), ok, undone) == Checked(sd.outcomes, old(sd.View()), hadFile, writtenSize)
    {
      hide Restored;
      ok := sd.OpenFileForRead(MainFile);
      if !ok || Size(MainFile) != writtenSize {
        var _ := sd.Flush();
        var gone := sd.Remove(MainFile);
        undone := Restore(hadFile);
        return false, if hadFile then undone else gone;
      }
      if sd.Exists(BackupFile) { var _ := sd.Remove(BackupFile); }
      return true, true;
    }

    // ---------- requests ----------

    method AddCredential(ssid: Str, password: Str) returns (ok: bool, ghost undone: bool)
      modifies this, sd
      ensures Reply(View(), ok, undone) == Handled(sd.outcomes, old(View()), Add(ssid, password))
    {
      hide Saved, IndexOf;
      var next := credentials;
      var i := FindSsid(ssid);
      if i < |next| {
        next := next[i := Credential(ssid, password)];
      } else if |next| >= MAX_NETWORKS {
        return false, true;
      } else {
        next := next + [Credential(ssid, password)];
      }
      ok, undone := SaveCredentials(next);
      if ok { credentials := next; }
    }

    method RemoveCredential(ssid: Str) returns (ok: bool, ghost undone: bool)
      modifies this, sd
      ensures Reply(View(), ok, undone) == Handled(sd.outcomes, old(View()), Remove(ssid))
    {
      var i := FindSsid(ssid);
      hide Saved, IndexOf;
      if i == |credentials| { return false, true; }
      var next := credentials[..i] + credentials[i + 1..];
      ok, undone := SaveCredentials(next);
      if ok { credentials := next; }
    }

    /** `clearAll`; the source drops the outcome. */
    method Clear() returns (ghost ok: bool, ghost undone: bool)
      modifies this, sd
      ensures Reply(View(), ok, undone) == Handled(sd.outcomes, old(View()), ClearAll)
    {
      hide Saved;
      var saved;
      saved, undone := SaveCredentials([]);
      ok := saved;
      if saved { credentials := []; }
    }

    method FindSsid(ssid: Str) returns (i: nat)
      ensures i == IndexOf(credentials, ssid)
    {
      i := 0;
      while i < |credentials| && credentials[i].ssid != ssid
        invariant i <= |credentials|
        invariant forall j :: 0 <= j < i ==> credentials[j].ssid != ssid
      {
        i := i + 1;
      }
    }

    // ---------- loading ----------

    /** `readExact`; `faulty` when a read failed though there was something to read. */
    method ReadExact(p: Path, pos: nat, size: nat) returns (ok: bool, data: seq<byte>, ghost faulty: bool)
      requires p in sd.files && pos <= |sd.files[p]|
      modifies sd
      ensures sd.files == old(sd.files)
      ensures ok ==> pos + size <= |sd.files[p]| && data == sd.files[p][pos..pos + size]
      ensures !ok && !faulty ==> pos + size > |sd.files[p]|
    {
      data, faulty := [], false;
      ghost var bytes := sd.files[p];
      while |data| < size
        invariant |data| <= size && sd.files == old(sd.files)
        invariant pos + |data| <= |bytes| && data == bytes[pos..pos + |data|]
        invariant !faulty
      {
        var chunk := sd.Read(p, pos + |data|, size - |data|);
        if |chunk| == 0 {
          return false, data, pos + |data| < |bytes|;
        }
        assert bytes[pos..pos + |data|] + bytes[pos + |data|..pos + |data| + |chunk|]
            == bytes[pos..pos + |data| + |chunk|];
        data := data + chunk;
      }
      ok := true;
    }

    method ReadStringExact(p: Path, pos: nat) returns (ok: bool, value: Str, next: nat, ghost faulty: bool)
      requires p in sd.files && pos <= |sd.files[p]|
      modifies sd
      ensures sd.files == old(sd.files)
      ensures ok ==> FieldAt(sd.files[p], pos) == Found(value, next)
      ensures !ok && !faulty ==> !FieldAt(sd.files[p], pos).Found?
    {
      var size: seq<byte>;
      value, next := [], pos;
      ok, size, faulty := ReadExact(p, pos, 4);
      if !ok { return; }
      U32OfSlice(sd.files[p], pos);
      var n := ReadU32(size, 0);
      if n > MAX_STRING { return false, [], pos, faulty; }
      var data;
      ok, data, faulty := ReadExact(p, pos + 4, n);
      if ok { value, next := data, pos + 4 + n; }
    }

    /** `loadFromFile`: on a card whose reads work it succeeds exactly when the main file
        parses, and it takes the parsed list; when it fails the list in memory stays. */
    method LoadFromFile() returns (ok: bool, ghost faulty: bool)
      modifies this, sd
      ensures sd.files == old(sd.files)
      ensures ok ==> Agree(View())
      ensures !ok ==> credentials == old(credentials)
      ensures !faulty ==> (ok <==> MainFile in sd.files && Parse(sd.files[MainFile]).Some?)
    {
      hide FieldAt, Obfuscated, ParseEntries;
      var readable := sd.OpenFileForRead(MainFile);
      if !readable { return false, MainFile in sd.files; }
      var data;
      ok, data, faulty := ReadExact(MainFile, 0, 1);
      if !ok || data[0] != FILE_VERSION { return false, faulty; }
      ok, data, faulty := ReadExact(MainFile, 1, 1);
      if !ok || data[0] > MAX_NETWORKS { return false, faulty; }
      var count: nat := data[0];
      ghost var bytes := sd.files[MainFile];
      var loaded: seq<Credential>, pos, i := [], 2, 0;
      NothingParsed(bytes, 2);
      while i < count
        invariant 0 <= i <= count && pos <= |bytes| && sd.files == old(sd.files)
        invariant credentials == old(credentials)
        invariant ParseEntries(bytes, 2, i) == Some((loaded, pos))
      {
        ParsedOneByOne(bytes, 2, i);
        var ssid, password;
        ok, ssid, pos, faulty := ReadStringExact(MainFile, pos);
        if !ok {
          ParseStops(bytes, 2, i + 1, count);
          return false, faulty;
        }
        ok, password, pos, faulty := ReadStringExact(MainFile, pos);
        if !ok {
          ParseStops(bytes, 2, i + 1, count);
          return false, faulty;
        }
        loaded := loaded + [Credential(ssid, Obfuscated(password))];
        i := i + 1;
      }
      credentials := loaded;
      return true, false;
    }
  }

  lemma NothingParsed(bytes: seq<byte>, pos: nat)
    ensures ParseEntries(bytes, pos, 0) == Some(([], pos))
  {
  }

  lemma {:induction false} ParseStops(bytes: seq<byte>, pos: nat, n: nat, m: nat)
    requires n <= m
    ensures ParseEntries(bytes, pos, n) == None ==> ParseEntries(bytes, pos, m) == None
    decreases m
  {
    if n == m {
    } else {
      ParseStops(bytes, pos, n, m - 1);
    }
  }

  lemma TwoChunks(o: Outcomes, c: Card, p: Path, a: seq<byte>, b: seq<byte>)
    ensures var first := WrittenExact(o, c, p, a);
            WrittenAll(o, c, p, [a, b]) == if first.ok then WrittenExact(o, first.card, p, b) else first
  {
    var s := [a, b];
    assert s[..1] == [a];
    assert [a][..0] == [];
    assert WrittenAll(o, c, p, [a]) == WrittenExact(o, c, p, a);
  }

  lemma {:induction false} ChunksInTwo(o: Outcomes, c: Card, p: Path, a: seq<seq<byte>>, b: seq<seq<byte>>)
    ensures var first := WrittenAll(o, c, p, a);
            WrittenAll(o, c, p, a + b) == if first.ok then WrittenAll(o, first.card, p, b) else first
  {
    hide WrittenExact;
    if b == [] {
      assert a + b == a;
    } else {
      var init, last := b[..|b| - 1], b[|b| - 1];
      ChunksInTwo(o, c, p, a, init);
      assert (a + b)[..|a + b| - 1] == a + init && (a + b)[|a + b| - 1] == last;
    }
  }

  lemma NoEntryYet(next: seq<Credential>)
    ensures HeaderChunks(next) + EntriesChunks(next[..0]) == [[FILE_VERSION], [|next| % 256]]
  {
  }

  lemma OneMoreEntry(o: Outcomes, c: Card, next: seq<Credential>, i: nat)
    requires i < |next|
    ensures var before := WrittenAll(o, c, TempFile, HeaderChunks(next) + EntriesChunks(next[..i]));
            var ssid := WrittenAll(o, before.card, TempFile, [U32(|next[i].ssid|), next[i].ssid]);
            var pwd: seq<byte> := Obfuscated(next[i].password);
            WrittenAll(o, c, TempFile, HeaderChunks(next) + EntriesChunks(next[..i + 1]))
            == if !before.ok then before
               else if !ssid.ok then ssid
               else WrittenAll(o, ssid.card, TempFile, [U32(|pwd|), pwd])
  {
    hide WrittenAll, Obfuscated;
    var header, entries := HeaderChunks(next), EntriesChunks(next[..i]);
    var pwd: seq<byte> := Obfuscated(next[i].password);
    var entry := EntryChunks(next[i]);
    assert next[..i + 1][..i] == next[..i];
    assert header + (entries + entry) == (header + entries) + entry;
    ChunksInTwo(o, c, TempFile, header + entries, entry);
    var before := WrittenAll(o, c, TempFile, header + entries);
    assert entry == [U32(|next[i].ssid|), next[i].ssid] + [U32(|pwd|), pwd];
    ChunksInTwo(o, before.card, TempFile, [U32(|next[i].ssid|), next[i].ssid], [U32(|pwd|), pwd]);
  }
}
