/**
 What a power loss during a save comes to: the reboot, `loadFromFile`, and the next
 `addCredential` of firmware/src/WifiCredentialStore.cpp, on a card that works again.
 */
module WifiReboot {

  import opened Wrappers
  import opened LengthPrefixed
  import opened WifiCodec
  import opened SdCard
  import opened WifiSave
  import opened WifiStore

  /** `loadFromFile` takes the main file. */
  predicate Loads(f: Files) { MainFile in f && Parse(f[MainFile]).Some? }

  /** The store after a reboot; a load that fails leaves the empty list. */
  function Rebooted(f: Files): Store {
    Store(Card(f, true, 0, []), if Loads(f) then Parse(f[MainFile]).value else [])
  }

  /** The list that the card still has, wherever it has it. */
  function OnCard(f: Files): seq<Credential> {
    if Loads(f) then Parse(f[MainFile]).value
    else if BackupFile in f && Parse(f[BackupFile]).Some? then Parse(f[BackupFile]).value
    else []
  }

  function AfterAdd(o: Outcomes, f: Files, ssid: Str, password: Str): Reply {
    Handled(o, Rebooted(f), Add(ssid, password))
  }

  /** Adding a network after the reboot leaves the password of every other one on the card. */
  ghost predicate OthersKept(o: Outcomes, f: Files, ssid: Str, password: Str) {
    forall other: Str :: other != ssid ==>
      Lookup(OnCard(AfterAdd(o, f, ssid, password).store.card.files), other) == Lookup(OnCard(f), other)
  }

  /** Whatever network is added. */
  ghost predicate AddKeepsOthers(o: Outcomes, f: Files) {
    forall ssid: Str, password: Str :: Short(Credential(ssid, password)) ==> OthersKept(o, f, ssid, password)
  }

  /** Without a main file that loads, the added network is all that is left. */
  lemma OnlyTheAdded(o: Outcomes, f: Files, ssid: Str, password: Str)
    requires Works(o) && Short(Credential(ssid, password)) && !Loads(f)
    ensures var reply := AfterAdd(o, f, ssid, password);
            && reply.ok && MainFile in reply.store.card.files && BackupFile !in reply.store.card.files
            && Parse(reply.store.card.files[MainFile]) == Some([Credential(ssid, password)])
  {
    hide Saved, Parse, FileBytes;
    var next := [Credential(ssid, password)];
    assert [] + next == next;
    WorkingCardSaves(o, Rebooted(f).card, next);
    SavedListLoads(next);
  }

  lemma AddToLoaded(o: Outcomes, f: Files, ssid: Str, password: Str)
    requires Works(o) && Short(Credential(ssid, password)) && Loads(f)
    ensures OthersKept(o, f, ssid, password)
  {
    hide Saved, Parse, FileBytes, Lookup, Short;
    var list := Parse(f[MainFile]).value;
    LoadedIsLoadable(f[MainFile]);
    var asked := Next(list, Add(ssid, password));
    if asked.Some? {
      WorkingCardSaves(o, Rebooted(f).card, asked.value);
      NextIsLoadable(list, Add(ssid, password));
      SavedListLoads(asked.value);
      forall other: Str | other != ssid ensures Lookup(asked.value, other) == Lookup(list, other) {
        AddLeavesOthers(list, ssid, password, other);
      }
    }
  }

  /** After a reboot the next network can be added without losing the others exactly when
      the main file loads, or there was nothing to lose. */
  lemma AddAfterRebootIff(o: Outcomes, f: Files)
    requires Works(o)
    ensures AddKeepsOthers(o, f) <==> Loads(f) || OnCard(f) == []
  {
    hide Works, Loads, OnCard, AfterAdd, OthersKept, Short, Lookup;
    if Loads(f) {
      forall ssid: Str, password: Str | Short(Credential(ssid, password)) ensures OthersKept(o, f, ssid, password) {
        AddToLoaded(o, f, ssid, password);
      }
    } else if OnCard(f) == [] {
      forall ssid: Str, password: Str | Short(Credential(ssid, password)) ensures OthersKept(o, f, ssid, password) {
        NothingToLose(o, f, ssid, password);
      }
    } else {
      FirstIsLost(o, f);
    }
  }

  lemma NothingToLose(o: Outcomes, f: Files, ssid: Str, password: Str)
    requires Works(o) && Short(Credential(ssid, password)) && !Loads(f) && OnCard(f) == []
    ensures OthersKept(o, f, ssid, password)
  {
    hide Handled, Parse;
    OnlyTheAdded(o, f, ssid, password);
  }

  lemma FirstIsLost(o: Outcomes, f: Files)
    requires Works(o) && !Loads(f) && OnCard(f) != []
    ensures !AddKeepsOthers(o, f)
  {
    hide Handled, Parse;
    var lost := OnCard(f)[0].ssid;
    var ssid: Str := if lost == [] then [0] else [];
    OnlyTheAdded(o, f, ssid, []);
    assert Lookup(OnCard(f), lost).Some? && Lookup([Credential(ssid, [])], lost) == None;
    assert Short(Credential(ssid, [])) && !OthersKept(o, f, ssid, []);
  }

  /** One power loss, at any call of any request, then a reboot: the card still has the old
      list or the new one, and the next network can be added without losing the others
      exactly when the main file is there, or there was nothing in it. */
  lemma PasswordsSurviveIff(o: Outcomes, s: Store, r: Request, i: nat, after: Outcomes)
    requires Agree(s) && ShortRequest(r) && Works(after)
    requires |s.card.trail| <= i < |Handled(o, s, r).store.card.trail|
    ensures var f := Handled(o, s, r).store.card.trail[i];
            && (OnCard(f) == s.credentials || Some(OnCard(f)) == Next(s.credentials, r))
            && (AddKeepsOthers(after, f) <==> MainFile in f || s.credentials == [])
  {
    hide Saved, Agree, Parse, AddKeepsOthers, Works;
    PowerLossLeavesOldOrNew(o, s, r, i);
    var f := Handled(o, s, r).store.card.trail[i];
    AddAfterRebootIff(after, f);
  }

  /** And that does happen: on every card with a main file, whatever it has, a power loss
      between the renames of a save makes the next added network the only one. */
  lemma OnePowerLossLosesOthers(o: Outcomes, c: Card, next: seq<Credential>, after: Outcomes, added: Credential)
    returns (i: nat)
    requires Works(o) && Works(after) && MainFile in c.files && Short(added)
    ensures |c.trail| <= i < |Saved(o, c, next).card.trail|
    ensures var f := Saved(o, c, next).card.trail[i];
            var reply := AfterAdd(after, f, added.ssid, added.password);
            && MainFile !in f && BackupFile in f && f[BackupFile] == c.files[MainFile]
            && reply.ok && MainFile in reply.store.card.files && BackupFile !in reply.store.card.files
            && Parse(reply.store.card.files[MainFile]) == Some([added])
  {
    hide Saved, AfterAdd, Works, Parse, Short;
    i := BackupAlone(o, c, next);
    OnlyTheAdded(after, Saved(o, c, next).card.trail[i], added.ssid, added.password);
  }
}
