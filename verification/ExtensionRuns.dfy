/**
 * Whole runs of the extension controller. Installs are two steps, as in the code: one takes a
 * snapshot of the manifest, a later one checks the candidate against that snapshot and records it.
 */
module ExtensionRuns {
  import opened Common
  import opened ExtensionAllowlist
  import opened ExtensionControllerModel

  /** What stays fixed in a run: the JSON decoder, the crypto, and the root key. */
  datatype Env = Env(json: ByteString -> Option<AllowlistManifest>, crypto: Crypto, rootKey: ByteString)

  datatype Call = Call(candidate: InstallCandidate, snapshot: AllowlistManifest)

  /** The controller's state and the installs under way, by caller. */
  datatype System = System(state: State, calls: map<nat, Call>)

  datatype Op =
    | Begin(caller: nat, candidate: InstallCandidate)
    | Finish(caller: nat)
    | Swap(bytes: ByteString, signature: ByteString)
    | Remove(id: ExtensionId)

  /** What a step did to the controller. */
  datatype Event =
    | Nothing
    | Entered(id: ExtensionId, version: Version)
    | Adopted(manifest: AllowlistManifest)
    | Dropped(id: ExtensionId)

  function EventOf(env: Env, y: System, op: Op): Event {
    match op
    case Begin(_, _) => Nothing
    case Finish(k) =>
      if k in y.calls && VerifyInstall(y.calls[k].candidate, y.calls[k].snapshot, env.crypto).Success?
      then Entered(y.calls[k].candidate.id, y.calls[k].candidate.version) else Nothing
    case Swap(bytes, signature) =>
      (match Acceptable(y.state, env.json, env.crypto, bytes, signature, env.rootKey)
       case None => Nothing
       case Some(m) => Adopted(m))
    case Remove(id) => Dropped(id)
  }

  function Applied(s: State, e: Event): State {
    match e
    case Nothing => s
    case Entered(id, v) => Inserted(s, id, v)
    case Adopted(m) => AfterSwap(s, m)
    case Dropped(id) => s.(installed := s.installed - {id})
  }

  function CallsAfter(y: System, op: Op): map<nat, Call> {
    match op
    case Begin(k, c) => y.calls[k := Call(c, y.state.manifest)]
    case Finish(k) => y.calls - {k}
    case _ => y.calls
  }

  function Step(env: Env, y: System, op: Op): System {
    System(Applied(y.state, EventOf(env, y, op)), CallsAfter(y, op))
  }

  /** The system after `ops`, from a fresh controller. */
  function After(env: Env, seed: AllowlistManifest, ops: seq<Op>): System
    decreases |ops|
  {
    if ops == [] then System(State(seed, map[]), map[])
    else Step(env, After(env, seed, ops[..|ops| - 1]), ops[|ops| - 1])
  }

  /** What each step of a run did. */
  function History(env: Env, seed: AllowlistManifest, ops: seq<Op>): (h: seq<Event>)
    ensures |h| == |ops|
    decreases |ops|
  {
    if ops == [] then []
    else History(env, seed, ops[..|ops| - 1]) + [EventOf(env, After(env, seed, ops[..|ops| - 1]), ops[|ops| - 1])]
  }

  // ----------------------------------------------- the registry, exactly

  predicate Concerns(e: Event, id: ExtensionId) {
    (e.Entered? && e.id == id) || (e.Dropped? && e.id == id)
  }

  /** Event `i` put `id` in the registry and nothing replaced or removed it since. */
  predicate Stands(h: seq<Event>, i: int, id: ExtensionId) {
    0 <= i < |h| && h[i].Entered? && h[i].id == id && forall j :: i < j < |h| ==> !Concerns(h[j], id)
  }

  /** Every manifest adopted since event `i` admits what it entered. */
  predicate AdmittedSince(h: seq<Event>, i: nat)
    requires i < |h| && h[i].Entered?
  {
    forall j :: i < j < |h| && h[j].Adopted? ==> Admits(h[j].manifest, h[i].id, h[i].version)
  }

  /** The registry holds what event `i` entered, enabled iff it has been admitted since. */
  predicate Records(h: seq<Event>, i: nat, installed: Registry)
    requires i < |h| && h[i].Entered?
  {
    var id := h[i].id;
    id in installed
    && installed[id] == InstalledExtension(id, h[i].version, if AdmittedSince(h, i) then Enabled else Disabled)
  }

  ghost predicate RegistryMatches(h: seq<Event>, installed: Registry) {
    && (forall id :: id in installed ==> exists i :: Stands(h, i, id))
    && (forall id, i :: Stands(h, i, id) ==> Records(h, i, installed))
  }

  lemma StandsExtended(h: seq<Event>, e: Event, i: int, id: ExtensionId)
    ensures Stands(h + [e], i, id) <==>
      (if i == |h| then e.Entered? && e.id == id else Stands(h, i, id) && !Concerns(e, id))
  {
    var g := h + [e];
    assert forall j :: 0 <= j < |h| ==> g[j] == h[j];
    assert g[|h|] == e;
  }

  lemma AdmittedExtended(h: seq<Event>, e: Event, i: nat)
    requires i < |h| && h[i].Entered?
    ensures AdmittedSince(h + [e], i) <==>
      AdmittedSince(h, i) && (e.Adopted? ==> Admits(e.manifest, h[i].id, h[i].version))
  {
    var g := h + [e];
    assert forall j :: 0 <= j < |h| ==> g[j] == h[j];
    assert g[|h|] == e;
  }

  lemma EventKeepsRegistry(h: seq<Event>, s: State, e: Event)
    requires RegistryMatches(h, s.installed)
    ensures RegistryMatches(h + [e], Applied(s, e).installed)
  {
    var g, after := h + [e], Applied(s, e).installed;
    forall id | id in after
      ensures exists i :: Stands(g, i, id)
    {
      if e.Entered? && e.id == id {
        StandsExtended(h, e, |h|, id);
      } else {
        var i :| Stands(h, i, id);
        StandsExtended(h, e, i, id);
      }
    }
    forall id, i | Stands(g, i, id)
      ensures Records(g, i, after)
    {
      StandsExtended(h, e, i, id);
      if i < |h| {
        AdmittedExtended(h, e, i);
      }
    }
  }

  /**
   * The registry is a function of the history: an extension is installed iff some install of it
   * stands, at that install's version, and it is enabled iff every manifest adopted since admits it.
   */
  lemma {:induction false} RegistryOfRun(env: Env, seed: AllowlistManifest, ops: seq<Op>)
    ensures RegistryMatches(History(env, seed, ops), After(env, seed, ops).state.installed)
    decreases |ops|
  {
    if ops == [] {
    } else {
      var front := ops[..|ops| - 1];
      RegistryOfRun(env, seed, front);
      var y := After(env, seed, front);
      EventKeepsRegistry(History(env, seed, front), y.state, EventOf(env, y, ops[|ops| - 1]));
    }
  }

  /** The precondition of a swap holds in every run. */
  lemma RegistryIsKeyed(env: Env, seed: AllowlistManifest, ops: seq<Op>)
    ensures KeyedById(After(env, seed, ops).state.installed)
  {
    RegistryOfRun(env, seed, ops);
  }

  // ------------------------------------------------------- the manifests

  /** The manifest in force: the last one adopted, else the seed. */
  function Active(seed: AllowlistManifest, h: seq<Event>): AllowlistManifest
    decreases |h|
  {
    if h == [] then seed
    else if h[|h| - 1].Adopted? then h[|h| - 1].manifest
    else Active(seed, h[..|h| - 1])
  }

  /** Adopted versions increase strictly, from above the seed's up to the active one's. */
  ghost predicate VersionsIncrease(seed: AllowlistManifest, h: seq<Event>, active: AllowlistManifest) {
    && seed.manifestVersion <= active.manifestVersion
    && (forall i :: 0 <= i < |h| && h[i].Adopted? ==>
          seed.manifestVersion < h[i].manifest.manifestVersion <= active.manifestVersion)
    && (forall i, j :: 0 <= i < j < |h| && h[i].Adopted? && h[j].Adopted? ==>
          h[i].manifest.manifestVersion < h[j].manifest.manifestVersion)
  }

  lemma EventKeepsVersions(seed: AllowlistManifest, h: seq<Event>, s: State, e: Event)
    requires s.manifest == Active(seed, h) && VersionsIncrease(seed, h, s.manifest)
    requires e.Adopted? ==> s.manifest.manifestVersion < e.manifest.manifestVersion
    ensures Applied(s, e).manifest == Active(seed, h + [e])
    ensures VersionsIncrease(seed, h + [e], Applied(s, e).manifest)
  {
    var g := h + [e];
    assert g[..|g| - 1] == h;
  }

  /** No run adopts a manifest no newer than one before it: rollback never happens. */
  lemma {:induction false} ManifestsOfRun(env: Env, seed: AllowlistManifest, ops: seq<Op>)
    ensures After(env, seed, ops).state.manifest == Active(seed, History(env, seed, ops))
    ensures VersionsIncrease(seed, History(env, seed, ops), After(env, seed, ops).state.manifest)
    decreases |ops|
  {
    if ops == [] {
    } else {
      var front := ops[..|ops| - 1];
      ManifestsOfRun(env, seed, front);
      var y := After(env, seed, front);
      EventKeepsVersions(seed, History(env, seed, front), y.state, EventOf(env, y, ops[|ops| - 1]));
    }
  }

  /** The bytes are a newer manifest, well formed and signed with the root key. */
  ghost predicate Adoptable(env: Env, active: AllowlistManifest, bytes: ByteString, signature: ByteString, m: AllowlistManifest) {
    && env.crypto.verifies(env.rootKey, bytes, signature)
    && env.json(bytes) == Some(m) && m.formatVersion == 1
    && (forall i, j :: 0 <= i < j < |m.entries| ==> m.entries[i].extensionId != m.entries[j].extensionId)
    && active.manifestVersion < m.manifestVersion
  }

  /**
   * In every run a manifest is adopted exactly by a swap whose bytes decode to it, carry the root key's
   * signature, and have a supported format, distinct ids and a version above the one in force.
   */
  lemma AdoptedIff(env: Env, seed: AllowlistManifest, ops: seq<Op>, n: nat, m: AllowlistManifest)
    requires n < |ops|
    ensures History(env, seed, ops)[n] == Adopted(m)
       <==> ops[n].Swap? && Adoptable(env, Active(seed, History(env, seed, ops)[..n]), ops[n].bytes, ops[n].signature, m)
  {
    HistoryIsPrefixed(env, seed, ops, n);
    ManifestsOfRun(env, seed, ops[..n]);
    if ops[n].Swap? {
      ParsedIff(env.json, ops[n].bytes, m);
    }
  }

  /** What the run decided up to step `n` is what its first `n` operations decide. */
  lemma {:induction false} HistoryIsPrefixed(env: Env, seed: AllowlistManifest, ops: seq<Op>, n: nat)
    requires n < |ops|
    ensures History(env, seed, ops)[..n] == History(env, seed, ops[..n])
    ensures History(env, seed, ops)[n] == EventOf(env, After(env, seed, ops[..n]), ops[n])
    ensures After(env, seed, ops[..n + 1]) == Step(env, After(env, seed, ops[..n]), ops[n])
    decreases |ops|
  {
    var front := ops[..|ops| - 1];
    assert ops[..n + 1][..n] == ops[..n];
    if n == |ops| - 1 {
    } else {
      HistoryIsPrefixed(env, seed, front, n);
      assert front[..n] == ops[..n];
    }
  }

  // ---------------------------------------------------------- provenance

  /** `caller` last began an install at step `i`, and has not finished it. */
  predicate BeganAt(ops: seq<Op>, caller: nat, candidate: InstallCandidate, i: int) {
    && 0 <= i < |ops| && ops[i] == Begin(caller, candidate)
    && forall j :: i < j < |ops| ==> ops[j] != Finish(caller) && (ops[j].Begin? ==> ops[j].caller != caller)
  }

  /** Every install under way remembers its own beginning: the candidate, and the manifest then in force. */
  lemma {:induction false} CallRemembers(env: Env, seed: AllowlistManifest, ops: seq<Op>, caller: nat) returns (i: nat)
    requires caller in After(env, seed, ops).calls
    ensures var call := After(env, seed, ops).calls[caller];
      BeganAt(ops, caller, call.candidate, i) && call.snapshot == After(env, seed, ops[..i]).state.manifest
    decreases |ops|
  {
    var front, op := ops[..|ops| - 1], ops[|ops| - 1];
    if op.Begin? && op.caller == caller {
      i := |ops| - 1;
    } else {
      i := CallRemembers(env, seed, front, caller);
      assert front[..i] == ops[..i];
    }
  }

  /**
   * Every install that took effect, in every run, took effect for the candidate its caller began with,
   * after all four checks had passed on that candidate under the manifest in force at that beginning:
   * the seed, or the last one adopted before.
   */
  lemma EveryInstallIsVouched(env: Env, seed: AllowlistManifest, ops: seq<Op>, n: nat) returns (i: nat)
    requires n < |ops| && History(env, seed, ops)[n].Entered?
    ensures i < n && ops[i].Begin? && ops[n] == Finish(ops[i].caller)
    ensures BeganAt(ops[..n], ops[i].caller, ops[i].candidate, i)
    ensures History(env, seed, ops)[n] == Entered(ops[i].candidate.id, ops[i].candidate.version)
    ensures VerifyInstall(ops[i].candidate, Active(seed, History(env, seed, ops)[..i]), env.crypto).Success?
  {
    HistoryIsPrefixed(env, seed, ops, n);
    i := CallRemembers(env, seed, ops[..n], ops[n].caller);
    assert ops[..n][..i] == ops[..i];
    HistoryIsPrefixed(env, seed, ops, i);
    ManifestsOfRun(env, seed, ops[..i]);
  }

  // ------------------------------------------ enabled means admitted, iff

  /** Nothing the manifest in force does not admit is enabled. */
  ghost predicate Gated(s: State) {
    forall id :: id in s.installed && s.installed[id].state == Enabled ==> Admits(s.manifest, id, s.installed[id].version)
  }

  /** What a caller could check when it finishes an install: the manifest in force still admits it. */
  predicate Timely(s: State, e: Event) {
    e.Entered? ==> Admits(s.manifest, e.id, e.version)
  }

  lemma EventKeepsGateIff(s: State, e: Event)
    requires KeyedById(s.installed) && Gated(s)
    ensures Gated(Applied(s, e)) <==> Timely(s, e)
  {
    if e.Entered? {
      assert Applied(s, e).installed[e.id] == InstalledExtension(e.id, e.version, Enabled);
    }
  }

  /** An accepted swap restores the gate whatever the registry held. */
  lemma SwapRestoresGate(s: State, m: AllowlistManifest)
    requires KeyedById(s.installed)
    ensures Gated(AfterSwap(s, m))
  {}

  /**
   * Throughout a run nothing enabled lies outside the manifest in force, iff every install that
   * took effect was still admitted by the manifest in force at that moment.
   */
  lemma {:induction false} AlwaysGatedIff(env: Env, seed: AllowlistManifest, ops: seq<Op>)
    ensures GatedThroughout(env, seed, ops) <==> TimelyThroughout(env, seed, ops)
    decreases |ops|
  {
    assert ops[..|ops|] == ops;
    if ops == [] {
    } else {
      var front := ops[..|ops| - 1];
      AlwaysGatedIff(env, seed, front);
      ThroughoutPrefix(env, seed, ops);
      RegistryIsKeyed(env, seed, front);
      var y := After(env, seed, front);
      if Gated(y.state) {
        EventKeepsGateIff(y.state, EventOf(env, y, ops[|ops| - 1]));
      }
    }
  }

  ghost predicate GatedThroughout(env: Env, seed: AllowlistManifest, ops: seq<Op>) {
    forall n :: 0 <= n <= |ops| ==> Gated(After(env, seed, ops[..n]).state)
  }

  ghost predicate TimelyThroughout(env: Env, seed: AllowlistManifest, ops: seq<Op>) {
    forall n :: 0 <= n < |ops| ==> Timely(After(env, seed, ops[..n]).state, History(env, seed, ops)[n])
  }

  lemma ThroughoutPrefix(env: Env, seed: AllowlistManifest, ops: seq<Op>)
    requires ops != []
    ensures var front := ops[..|ops| - 1];
      && (GatedThroughout(env, seed, ops) <==> GatedThroughout(env, seed, front) && Gated(After(env, seed, ops).state))
      && (TimelyThroughout(env, seed, ops) <==>
            (TimelyThroughout(env, seed, front)
             && Timely(After(env, seed, front).state, EventOf(env, After(env, seed, front), ops[|ops| - 1]))))
      && (GatedThroughout(env, seed, front) ==> Gated(After(env, seed, front).state))
  {
    var front := ops[..|ops| - 1];
    assert ops[..|ops|] == ops && front[..|front|] == front;
    assert forall n :: 0 <= n <= |front| ==> front[..n] == ops[..n];
  }

  /** The caller's install from step `i` to step `n` with no swap taking effect in between. */
  predicate Uninterrupted(h: seq<Event>, ops: seq<Op>, i: nat, n: nat)
    requires |h| == |ops|
  {
    && i < n < |ops|
    && ops[i].Begin? && ops[n] == Finish(ops[i].caller)
    && forall j :: i < j < n ==> !h[j].Adopted? && ops[j] != Finish(ops[i].caller)
                                 && (ops[j].Begin? ==> ops[j].caller != ops[i].caller)
  }

  /** `caller` is installing `c`, and `m` is both its snapshot and the manifest in force. */
  predicate UnderWay(y: System, caller: nat, c: InstallCandidate, m: AllowlistManifest) {
    caller in y.calls && y.calls[caller] == Call(c, m) && y.state.manifest == m
  }

  lemma StepKeepsUnderWay(env: Env, y: System, op: Op, caller: nat, c: InstallCandidate, m: AllowlistManifest)
    requires UnderWay(y, caller, c, m)
    requires !EventOf(env, y, op).Adopted? && op != Finish(caller) && (op.Begin? ==> op.caller != caller)
    ensures UnderWay(Step(env, y, op), caller, c, m)
  {}

  lemma {:induction false} UnderWayUntil(env: Env, seed: AllowlistManifest, ops: seq<Op>, i: nat, n: nat, j: nat)
    requires Uninterrupted(History(env, seed, ops), ops, i, n) && i < j <= n
    ensures UnderWay(After(env, seed, ops[..j]), ops[i].caller, ops[i].candidate, After(env, seed, ops[..i]).state.manifest)
    decreases j
  {
    HistoryIsPrefixed(env, seed, ops, j - 1);
    if j == i + 1 {
    } else {
      UnderWayUntil(env, seed, ops, i, n, j - 1);
      StepKeepsUnderWay(env, After(env, seed, ops[..j - 1]), ops[j - 1],
                        ops[i].caller, ops[i].candidate, After(env, seed, ops[..i]).state.manifest);
    }
  }

  /** The install race is the only way past the gate: an uninterrupted install is always timely. */
  lemma UninterruptedIsTimely(env: Env, seed: AllowlistManifest, ops: seq<Op>, i: nat, n: nat)
    requires Uninterrupted(History(env, seed, ops), ops, i, n)
    ensures Timely(After(env, seed, ops[..n]).state, History(env, seed, ops)[n])
  {
    UnderWayUntil(env, seed, ops, i, n, n);
    HistoryIsPrefixed(env, seed, ops, n);
  }

  /** A recall that lands between the two halves of an install leaves the extension enabled. */
  lemma RecallCanBeOvertaken(id: ExtensionId)
    ensures exists env: Env, seed: AllowlistManifest, ops: seq<Op> ::
      var s := After(env, seed, ops).state;
      id in s.installed && s.installed[id].state == Enabled && EntryFor(s.manifest.entries, id).None?
  {
    var v := Version(1, 0, 0);
    var seed := AllowlistManifest(FORMAT_VERSION, 1, [AllowlistEntry(id, Exact(v), [], [])]);
    var recall := AllowlistManifest(FORMAT_VERSION, 2, []);
    var env := Env((b: ByteString) => Some(recall), Crypto((b: ByteString) => [], (k: ByteString, b: ByteString, s: ByteString) => true), []);
    var candidate := InstallCandidate(id, v, [], []);
    var begin, swap, finish := Begin(0, candidate), Swap([], []), Finish(0);
    var ops := [begin, swap, finish];
    var y0 := System(State(seed, map[]), map[]);
    var y1 := System(State(seed, map[]), map[0 := Call(candidate, seed)]);
    var y2 := System(State(recall, map[]), map[0 := Call(candidate, seed)]);
    assert ops[..2][..1] == [begin] && ops[..2] == [begin, swap] && [begin][..0] == [];
    assert After(env, seed, [begin]) == y1 by {
      assert After(env, seed, []) == y0;
    }
    assert After(env, seed, [begin, swap]) == y2 by {
      assert Acceptable(y1.state, env.json, env.crypto, [], [], []) == Some(recall);
      assert [begin, swap][..1] == [begin];
    }
    assert EntryFor(seed.entries, id) == Some(seed.entries[0]);
    assert VerifyInstall(candidate, seed, env.crypto).Success?;
    assert EventOf(env, y2, finish) == Entered(id, v);
    assert After(env, seed, ops).state == Inserted(y2.state, id, v);
  }
}
