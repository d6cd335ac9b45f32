/** The extension controller: the live manifest, the installed registry, and what every run keeps. */
module ExtensionControllerModel {
  import opened Common
  import opened ExtensionAllowlist

  datatype InstalledState = Enabled | Disabled

  datatype InstalledExtension = InstalledExtension(id: ExtensionId, version: Version, state: InstalledState)

  type Registry = map<ExtensionId, InstalledExtension>

  datatype State = State(manifest: AllowlistManifest, installed: Registry)

  datatype WarningIntent =
    | InstallRejected(id: ExtensionId, why: InstallError)
    | ManifestUpdateRejected
    | AutoDisabledByRecall(id: ExtensionId)
    | AutoDisabledByUpdateConstraint(id: ExtensionId)

  datatype InstallOutcome = Installed | Rejected(intent: WarningIntent)

  datatype SwapOutcome = Swapped(intents: seq<WarningIntent>) | SwapRejected(intent: WarningIntent)

  /** The second locked section of `install`; a reinstall replaces the record. */
  function Inserted(s: State, id: ExtensionId, version: Version): State {
    s.(installed := s.installed[id := InstalledExtension(id, version, Enabled)])
  }

  /** An installed record against a new manifest. */
  function Reconciled(m: AllowlistManifest, e: InstalledExtension): InstalledExtension {
    if Admits(m, e.id, e.version) then e else e.(state := Disabled)
  }

  function IntentFor(m: AllowlistManifest, e: InstalledExtension): WarningIntent {
    if EntryFor(m.entries, e.id).None? then AutoDisabledByRecall(e.id) else AutoDisabledByUpdateConstraint(e.id)
  }

  function AfterSwap(s: State, m: AllowlistManifest): State {
    State(m, map id | id in s.installed :: Reconciled(m, s.installed[id]))
  }

  /** `intents` names every installed extension the manifest does not admit, once each. */
  ghost predicate IntentsFor(s: State, m: AllowlistManifest, intents: seq<WarningIntent>) {
    && NoDuplicates(intents)
    && forall i :: i in intents <==>
         (exists id :: id in s.installed && !Admits(m, id, s.installed[id].version) && i == IntentFor(m, s.installed[id]))
  }

  /** Each record is stored under its own id. */
  ghost predicate KeyedById(installed: Registry) {
    forall id :: id in installed ==> installed[id].id == id
  }

  /** The manifest a swap would install, if parsing, signature and version let it through. */
  function Acceptable(s: State, json: ByteString -> Option<AllowlistManifest>, crypto: Crypto,
                      bytes: ByteString, signature: ByteString, rootKey: ByteString): Option<AllowlistManifest>
  {
    var parsed := Parse(json, bytes);
    if parsed.Success? && crypto.verifies(rootKey, bytes, signature)
       && parsed.value.manifestVersion > s.manifest.manifestVersion
    then Some(parsed.value) else None
  }

  class ExtensionController {
    var manifest: AllowlistManifest
    var installed: Registry

    ghost function View(): State
      reads this
    {
      State(manifest, installed)
    }

    constructor (seed: AllowlistManifest)
      ensures View() == State(seed, map[])
    {
      manifest, installed := seed, map[];
    }

    /** First locked section of `install`: the manifest snapshot. */
    method ActiveManifest() returns (m: AllowlistManifest)
      ensures m == manifest
    {
      m := manifest;
    }

    /** The rest of `install`, run against a snapshot that may be out of date by now. */
    method InstallAgainst(snapshot: AllowlistManifest, c: InstallCandidate, crypto: Crypto) returns (r: InstallOutcome)
      modifies this
      ensures match VerifyInstall(c, snapshot, crypto)
        case Success(_) => r == Installed && View() == Inserted(old(View()), c.id, c.version)
        case Failure(e) => r == Rejected(InstallRejected(c.id, e)) && View() == old(View())
    {
      var verdict := VerifyInstall(c, snapshot, crypto);
      if verdict.Failure? {
        return Rejected(InstallRejected(c.id, verdict.error));
      }
      installed := installed[c.id := InstalledExtension(c.id, c.version, Enabled)];
      r := Installed;
    }

    method TrySwap(json: ByteString -> Option<AllowlistManifest>, crypto: Crypto,
                   bytes: ByteString, signature: ByteString, rootKey: ByteString) returns (r: SwapOutcome)
      requires KeyedById(installed)
      modifies this
      ensures match Acceptable(old(View()), json, crypto, bytes, signature, rootKey)
        case None => r == SwapRejected(ManifestUpdateRejected) && View() == old(View())
        case Some(m) => r.Swapped? && View() == AfterSwap(old(View()), m) && IntentsFor(old(View()), m, r.intents)
    {
      var parsed := ParseManifest(json, bytes);
      if parsed.Failure? {
        return SwapRejected(ManifestUpdateRejected);
      }
      if !crypto.verifies(rootKey, bytes, signature) {
        return SwapRejected(ManifestUpdateRejected);
      }
      var m := parsed.value;
      if m.manifestVersion <= manifest.manifestVersion {
        return SwapRejected(ManifestUpdateRejected);
      }
      var intents: seq<WarningIntent> := [];
      var unseen := installed.Keys;
      ghost var before := View();
      while unseen != {}
        invariant unseen <= installed.Keys == before.installed.Keys
        invariant manifest == before.manifest
        invariant forall id :: id in installed ==>
          installed[id] == if id in unseen then before.installed[id] else Reconciled(m, before.installed[id])
        invariant PartialIntents(before, m, unseen, intents)
        decreases unseen
      {
        var id :| id in unseen;
        var e := installed[id];
        var entry := EntryFor(m.entries, e.id);
        ghost var sofar := intents;
        if entry.Some? {
          if !entry.value.constraint.Satisfies(e.version) {
            installed := installed[id := e.(state := Disabled)];
            intents := intents + [AutoDisabledByUpdateConstraint(e.id)];
          }
        } else {
          installed := installed[id := e.(state := Disabled)];
          intents := intents + [AutoDisabledByRecall(e.id)];
        }
        MoreIntents(before, m, unseen, sofar, id);
        unseen := unseen - {id};
      }
      manifest := m;
      assert installed == AfterSwap(before, m).installed;
      r := Swapped(intents);
    }

    method Remove(id: ExtensionId) returns (present: bool)
      modifies this
      ensures View() == old(View()).(installed := old(View()).installed - {id})
      ensures present <==> id in old(View()).installed
    {
      present := id in installed;
      installed := installed - {id};
    }
  }

  /** The intents collected once everything outside `unseen` has been reconciled. */
  ghost predicate PartialIntents(s: State, m: AllowlistManifest, unseen: set<ExtensionId>, intents: seq<WarningIntent>) {
    && NoDuplicates(intents)
    && forall i :: i in intents <==>
         (exists id :: id in s.installed && id !in unseen && !Admits(m, id, s.installed[id].version) && i == IntentFor(m, s.installed[id]))
  }

  lemma MoreIntents(s: State, m: AllowlistManifest, unseen: set<ExtensionId>, intents: seq<WarningIntent>, id: ExtensionId)
    requires KeyedById(s.installed) && PartialIntents(s, m, unseen, intents) && id in unseen && id in s.installed
    ensures PartialIntents(s, m, unseen - {id},
              intents + (if Admits(m, id, s.installed[id].version) then [] else [IntentFor(m, s.installed[id])]))
  {
    var intent := IntentFor(m, s.installed[id]);
    assert intent !in intents by {
      assert forall other :: other in s.installed && other != id ==> IntentFor(m, s.installed[other]) != intent;
    }
    var more := intents + (if Admits(m, id, s.installed[id].version) then [] else [intent]);
    forall i
      ensures i in more <==>
        (exists k :: k in s.installed && k !in unseen - {id} && !Admits(m, k, s.installed[k].version) && i == IntentFor(m, s.installed[k]))
    {
      if i in more {
        if i in intents {
          var k :| k in s.installed && k !in unseen && !Admits(m, k, s.installed[k].version) && i == IntentFor(m, s.installed[k]);
          assert k !in unseen - {id};
        } else {
          assert id !in unseen - {id} && i == intent;
        }
      }
    }
  }

  // ------------------------------------------------------ stale intents

  /** What the comment on `SwapOutcome` promises: the intents are those of the records the swap changed. */
  ghost predicate IntentsAreChanges(s: State, m: AllowlistManifest, intents: seq<WarningIntent>) {
    forall i :: i in intents <==>
      (exists id :: id in s.installed && AfterSwap(s, m).installed[id] != s.installed[id] && i == IntentFor(m, s.installed[id]))
  }

  /** Distinct extensions get distinct intents, so an intent tells whose it is. */
  lemma IntentNamesRecord(s: State, m: AllowlistManifest, id: ExtensionId, other: ExtensionId)
    requires KeyedById(s.installed) && id in s.installed && other in s.installed
    ensures IntentFor(m, s.installed[id]) == IntentFor(m, s.installed[other]) ==> id == other
  {
  }

  /** The promise is kept exactly when the new manifest admits every extension that is already disabled. */
  lemma IntentsAreChangesIff(s: State, m: AllowlistManifest, intents: seq<WarningIntent>)
    requires KeyedById(s.installed) && IntentsFor(s, m, intents)
    ensures IntentsAreChanges(s, m, intents)
       <==> forall id :: id in s.installed && s.installed[id].state == Disabled ==> Admits(m, id, s.installed[id].version)
  {
    assert forall id :: id in s.installed ==>
      (AfterSwap(s, m).installed[id] != s.installed[id]
       <==> !Admits(m, id, s.installed[id].version) && s.installed[id].state == Enabled);
    if IntentsAreChanges(s, m, intents) {
      forall id | id in s.installed && !Admits(m, id, s.installed[id].version)
        ensures s.installed[id].state == Enabled
      {
        var i := IntentFor(m, s.installed[id]);
        assert i in intents;
        var changed :| changed in s.installed && AfterSwap(s, m).installed[changed] != s.installed[changed]
          && i == IntentFor(m, s.installed[changed]);
        IntentNamesRecord(s, m, id, changed);
      }
    }
  }

  /** It is broken: a swap to an empty manifest changes no record and still reports a disabled extension. */
  lemma StaleIntent(s: State, m: AllowlistManifest, id: ExtensionId, version: Version, intents: seq<WarningIntent>)
    requires s.installed == map[id := InstalledExtension(id, version, Disabled)] && m.entries == []
    requires IntentsFor(s, m, intents)
    ensures AfterSwap(s, m).installed == s.installed && intents == [AutoDisabledByRecall(id)]
    ensures !IntentsAreChanges(s, m, intents)
  {
    var intent := AutoDisabledByRecall(id);
    assert !Admits(m, id, version) && IntentFor(m, s.installed[id]) == intent;
    assert intent in intents;
    forall k | 0 <= k < |intents| ensures intents[k] == intent {
      assert intents[k] in intents;
    }
    assert intents[0] == intents[|intents| - 1];
  }

  /**
   * Which intent an extension gets: a recall if the new manifest has no entry for it, a constraint failure
   * if it has one that the installed version does not satisfy, and none otherwise.
   */
  lemma IntentKinds(s: State, m: AllowlistManifest, intents: seq<WarningIntent>, id: ExtensionId)
    requires KeyedById(s.installed) && IntentsFor(s, m, intents) && DistinctIds(m.entries)
    ensures AutoDisabledByRecall(id) in intents
       <==> id in s.installed && forall k :: 0 <= k < |m.entries| ==> m.entries[k].extensionId != id
    ensures AutoDisabledByUpdateConstraint(id) in intents
       <==> && id in s.installed
            && exists k :: 0 <= k < |m.entries| && m.entries[k].extensionId == id
                           && !m.entries[k].constraint.Satisfies(s.installed[id].version)
  {
    AdmitsIff(m, id, if id in s.installed then s.installed[id].version else Version(0, 0, 0));
    assert forall other :: other in s.installed ==>
      IntentFor(m, s.installed[other]) == AutoDisabledByRecall(other) || IntentFor(m, s.installed[other]) == AutoDisabledByUpdateConstraint(other);
    forall k | 0 <= k < |m.entries| && m.entries[k].extensionId == id
      ensures EntryFor(m.entries, id) == Some(m.entries[k])
    {
      EntryForIsUnique(m.entries, k);
    }
    if id in s.installed && !Admits(m, id, s.installed[id].version) {
      assert IntentFor(m, s.installed[id]) in intents;
    }
  }
}
