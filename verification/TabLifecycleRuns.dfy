/** The lifecycle invariant, spawn rollback and renderer traces, whatever happens to the registry. */
module TabLifecycleRuns {
  import opened Common
  import opened TabScheduler
  import opened TabLifecycle

  // ----------------------------------------------------------- invariant

  /** Tab records point into slots of their own profile that list them. */
  ghost predicate TabsInSlots(s: State) {
    forall t :: t in s.tabs ==>
      && s.tabs[t].renderer in s.slots
      && t in s.slots[s.tabs[t].renderer].tabs
      && s.slots[s.tabs[t].renderer].profileId == s.tabs[t].profileId
  }

  ghost predicate SlotsInTabs(s: State) {
    forall r :: r in s.slots ==> forall t :: t in s.slots[r].tabs ==> t in s.tabs && s.tabs[t].renderer == r
  }

  /** No renderer is idle, and a Strict one holds exactly one tab. */
  ghost predicate SlotsPopulated(s: State) {
    forall r :: r in s.slots ==> s.slots[r].tabs != {} && (s.slots[r].mode == Strict ==> |s.slots[r].tabs| == 1)
  }

  ghost predicate OneStandardPerProfile(s: State) {
    forall r, r' :: r in s.slots && r' in s.slots
      && s.slots[r].mode == s.slots[r'].mode == Standard && s.slots[r].profileId == s.slots[r'].profileId
      ==> r == r'
  }

  ghost predicate IdsMinted(s: State) {
    && (forall t :: t in s.tabs ==> t < s.nextTab)
    && (forall r :: r in s.slots ==> r < s.nextRenderer)
  }

  ghost predicate Inv(s: State) {
    && KeyedById(s.registry)
    && TabsInSlots(s) && SlotsInTabs(s) && SlotsPopulated(s)
    && OneStandardPerProfile(s) && IdsMinted(s)
    && forall t :: t in s.tabs ==> (s.tabs[t].state == Suspended <==> s.tabs[t].suspendReason.Some?)
  }

  /** The architecture's sharing rule, for any two live tabs. */
  ghost predicate SharingRule(s: State) {
    forall t, u :: t in s.tabs && u in s.tabs && t != u ==>
      var r, q := s.tabs[t].renderer, s.tabs[u].renderer;
      && r in s.slots && q in s.slots
      && (r == q <==> s.slots[r].mode == s.slots[q].mode == Standard && s.tabs[t].profileId == s.tabs[u].profileId)
  }

  lemma InvMeansSharingRule(s: State)
    requires Inv(s)
    ensures SharingRule(s)
  {
    forall t, u | t in s.tabs && u in s.tabs && t != u && s.tabs[t].renderer == s.tabs[u].renderer
      ensures s.slots[s.tabs[t].renderer].mode == Standard
    {
      var held := s.slots[s.tabs[t].renderer].tabs;
      assert {t, u} <= held;
      if |held| == 1 {
        OnlyMember(held, t);
      }
    }
  }

  lemma OnlyMember<T>(xs: set<T>, x: T)
    requires x in xs && |xs| == 1
    ensures xs == {x}
  {
    assert |xs - {x}| == 0;
  }

  // --------------------------------------------------------------- spawn

  /** The only answer the scheduler can give in a state that satisfies the invariant. */
  ghost function Decision(s: State, profile: IdentityProfile): (d: RendererDecision)
    ensures MayDecide(s.slots, profile, d)
  {
    if profile.mode == Standard && exists r :: r in s.slots && Reusable(s.slots[r], profile) then
      var r :| r in s.slots && Reusable(s.slots[r], profile);
      Reuse(r)
    else SpawnNew
  }

  ghost function Spawn(s: State, profileId: Uuid): (State, Result<ProcessAction, LifecycleError>) {
    if profileId !in s.registry then (s, Failure(UnknownProfile(profileId)))
    else SpawnWith(s, profileId, Decision(s, s.registry[profileId]))
  }

  /** The map's iteration order does not matter: every possible outcome of a spawn is `Spawn`. */
  lemma SpawnDetermined(s: State, profileId: Uuid, s': State, r: Result<ProcessAction, LifecycleError>)
    requires Inv(s)
    ensures MaySpawn(s, profileId, s', r) <==> (s', r) == Spawn(s, profileId)
  {
    if profileId in s.registry {
      assert MayDecide(s.slots, s.registry[profileId], Decision(s, s.registry[profileId]));
    } else {
      assert (s, Failure(UnknownProfile(profileId))) == SpawnWith(s, profileId, SpawnNew);
    }
  }

  /** The state after a spawn that attached `s.nextTab` to renderer `r`. */
  function Spawned(s: State, profileId: Uuid, r: RendererId): State
    requires profileId in s.registry
  {
    var slot := if r in s.slots then s.slots[r] else RendererSlot(profileId, s.registry[profileId].mode, {});
    State(s.registry,
          s.slots[r := slot.(tabs := slot.tabs + {s.nextTab})],
          s.tabs[s.nextTab := TabRecord(profileId, r, Active, None)],
          s.nextTab + 1,
          if r in s.slots then s.nextRenderer else s.nextRenderer + 1)
  }

  lemma NextTabIsNew(s: State)
    requires SlotsInTabs(s) && IdsMinted(s)
    ensures s.nextTab !in s.tabs && forall q :: q in s.slots ==> s.nextTab !in s.slots[q].tabs
  {
  }

  /** A spawn for a known profile always succeeds: every scheduler error inside it is unreachable. */
  lemma SpawnSucceeds(s: State, profileId: Uuid) returns (r: RendererId)
    requires Inv(s) && profileId in s.registry
    ensures r !in s.slots ==> r == s.nextRenderer
    ensures r in s.slots ==> Reusable(s.slots[r], s.registry[profileId]) && s.registry[profileId].mode == Standard
    ensures r !in s.slots && s.registry[profileId].mode == Standard ==>
      forall q :: q in s.slots ==> !Reusable(s.slots[q], s.registry[profileId])
    ensures Spawn(s, profileId)
      == (Spawned(s, profileId, r),
          Success(if r in s.slots then AttachToExisting(r, s.nextTab, profileId)
                  else SpawnRenderer(r, s.nextTab, profileId, s.registry[profileId].mode)))
  {
    var profile := s.registry[profileId];
    NextTabIsNew(s);
    match Decision(s, profile)
    case Reuse(q) => r := q;
    case SpawnNew =>
      r := s.nextRenderer;
      assert r !in s.slots;
      var slots := Register(s.slots, r, profile).0;
      assert slots[r := slots[r].(tabs := slots[r].tabs + {s.nextTab})] == Spawned(s, profileId, r).slots;
  }

  lemma SpawnedKeepsMirror(s: State, profileId: Uuid, r: RendererId)
    requires TabsInSlots(s) && SlotsInTabs(s) && IdsMinted(s) && profileId in s.registry
    requires r in s.slots ==> s.slots[r].profileId == profileId
    requires r !in s.slots ==> r == s.nextRenderer
    ensures TabsInSlots(Spawned(s, profileId, r)) && SlotsInTabs(Spawned(s, profileId, r))
    ensures IdsMinted(Spawned(s, profileId, r))
  {
    NextTabIsNew(s);
    var s' := Spawned(s, profileId, r);
    forall q, t | q in s'.slots && t in s'.slots[q].tabs ensures t in s'.tabs && s'.tabs[t].renderer == q {
      if t == s.nextTab {
        assert q == r;
      } else {
        assert q in s.slots && t in s.slots[q].tabs;
      }
    }
  }

  lemma SpawnKeepsInv(s: State, profileId: Uuid)
    requires Inv(s)
    ensures Inv(Spawn(s, profileId).0)
    ensures profileId in s.registry <==> Spawn(s, profileId).1.Success?
  {
    if profileId in s.registry {
      var r := SpawnSucceeds(s, profileId);
      SpawnedKeepsMirror(s, profileId, r);
      if r !in s.slots {
        assert Spawned(s, profileId, r).slots[r].tabs == {s.nextTab};
      }
    }
  }

  // --------------------------------------------------------------- close

  lemma CloseKeepsInv(s: State, tab: TabId)
    requires Inv(s)
    ensures Inv(Close(s, tab).0)
    ensures tab in s.tabs <==> Close(s, tab).1.Success?
  {
    if tab in s.tabs {
      var r := s.tabs[tab].renderer;
      var slot, s' := s.slots[r], Close(s, tab).0;
      if slot.mode == Strict {
        OnlyMember(slot.tabs, tab);
      }
    }
  }

  lemma SuspendKeepsInv(s: State, tab: TabId, reason: SuspendReason)
    requires Inv(s)
    ensures Inv(Suspend(s, tab, reason).0)
  {
  }

  lemma ResumeKeepsInv(s: State, tab: TabId)
    requires Inv(s)
    ensures Inv(Resume(s, tab).0)
  {
  }

  // ------------------------------------------------------------ rollback

  /**
   * Aborting straight after a spawn restores every tab and every slot; only the id counters have
   * moved. The renderer is to be killed exactly when the spawn had asked for a new one.
   */
  lemma AbortUndoesSpawn(s: State, profileId: Uuid)
    requires Inv(s) && profileId in s.registry
    ensures var (spawned, action) := Spawn(s, profileId);
      var (s', close) := Close(spawned, s.nextTab);
      && action.Success? && close.Success?
      && s'.tabs == s.tabs && s'.slots == s.slots && s'.registry == s.registry
      && s'.nextTab == s.nextTab + 1
      && s'.nextRenderer == s.nextRenderer + (if action.value.SpawnRenderer? then 1 else 0)
      && close.value.renderer == action.value.renderer && close.value.tab == action.value.tab == s.nextTab
      && (close.value.DetachAndKillRenderer? <==> action.value.SpawnRenderer?)
  {
    var r := SpawnSucceeds(s, profileId);
    var spawned := Spawned(s, profileId, r);
    assert s.nextTab !in s.tabs;
    assert spawned.tabs - {s.nextTab} == s.tabs;
    if r in s.slots {
      assert s.nextTab !in s.slots[r].tabs;
      assert spawned.slots[r].tabs - {s.nextTab} == s.slots[r].tabs;
      assert Close(spawned, s.nextTab).0.slots == s.slots;
    } else {
      assert spawned.slots[r].tabs - {s.nextTab} == {};
      assert Close(spawned, s.nextTab).0.slots == s.slots;
    }
  }

  // ---------------------------------------------------------------- runs

  datatype Op =
    | OpSpawn(profileId: Uuid)
    | OpClose(tab: TabId)
    | OpSuspend(tab: TabId, reason: SuspendReason)
    | OpResume(tab: TabId)
    | OpRegistry(registry: Registry)

  /** The orders the orchestrator gets, one per call. */
  datatype Order =
    | Spawning(r: Result<ProcessAction, LifecycleError>)
    | Closing(c: Result<CloseAction, LifecycleError>)
    | Suspending(p: Result<SuspendAction, LifecycleError>)
    | Resuming(q: Result<ResumeAction, LifecycleError>)
    | Nothing

  ghost function Step(s: State, op: Op): (State, Order) {
    match op
    case OpSpawn(profileId) => var (s', r) := Spawn(s, profileId); (s', Spawning(r))
    case OpClose(tab) => var (s', r) := Close(s, tab); (s', Closing(r))
    case OpSuspend(tab, reason) => var (s', r) := Suspend(s, tab, reason); (s', Suspending(r))
    case OpResume(tab) => var (s', r) := Resume(s, tab); (s', Resuming(r))
    case OpRegistry(registry) => (s.(registry := registry), Nothing)
  }

  predicate Allowed(op: Op) {
    op.OpRegistry? ==> KeyedById(op.registry)
  }

  ghost function Run(s: State, ops: seq<Op>): State
    decreases |ops|
  {
    if ops == [] then s else Run(Step(s, ops[0]).0, ops[1..])
  }

  ghost function Trace(s: State, ops: seq<Op>): seq<Order>
    decreases |ops|
  {
    if ops == [] then [] else [Step(s, ops[0]).1] + Trace(Step(s, ops[0]).0, ops[1..])
  }

  predicate SchedulerError(o: Order) {
    match o
    case Spawning(r) => r.Failure? && r.error.SchedulerFailed?
    case Closing(c) => c.Failure? && c.error.SchedulerFailed?
    case _ => false
  }

  lemma StepKeepsInv(s: State, op: Op)
    requires Inv(s) && Allowed(op)
    ensures Inv(Step(s, op).0) && !SchedulerError(Step(s, op).1)
  {
    match op
    case OpSpawn(profileId) => SpawnKeepsInv(s, profileId);
    case OpClose(tab) => CloseKeepsInv(s, tab);
    case OpSuspend(tab, reason) => SuspendKeepsInv(s, tab, reason);
    case OpResume(tab) => ResumeKeepsInv(s, tab);
    case OpRegistry(_) =>
  }

  /**
   * In every run, with the registry replaced arbitrarily in between, tabs and slots stay in step,
   * the sharing rule holds and no scheduler error ever surfaces.
   */
  lemma {:induction false} LifecycleSafety(s: State, ops: seq<Op>)
    requires Inv(s) && forall i :: 0 <= i < |ops| ==> Allowed(ops[i])
    ensures Inv(Run(s, ops)) && SharingRule(Run(s, ops))
    ensures forall i :: 0 <= i < |Trace(s, ops)| ==> !SchedulerError(Trace(s, ops)[i])
    decreases |ops|
  {
    if ops == [] {
      InvMeansSharingRule(s);
    } else {
      StepKeepsInv(s, ops[0]);
      LifecycleSafety(Step(s, ops[0]).0, ops[1..]);
    }
  }

  // -------------------------------------------------------------- traces

  /** The renderer an order names, if any. */
  function Names(o: Order): Option<RendererId> {
    match o
    case Spawning(Success(a)) => Some(a.renderer)
    case Closing(Success(c)) => Some(c.renderer)
    case Suspending(Success(p)) => Some(p.renderer)
    case Resuming(Success(q)) => Some(q.renderer)
    case _ => None
  }

  predicate Creates(o: Order) {
    o.Spawning? && o.r.Success? && o.r.value.SpawnRenderer?
  }

  predicate Kills(o: Order) {
    o.Closing? && o.c.Success? && o.c.value.DetachAndKillRenderer?
  }

  function Count(trace: seq<Order>, p: Order -> bool): nat {
    if trace == [] then 0 else Count(trace[..|trace| - 1], p) + (if p(trace[|trace| - 1]) then 1 else 0)
  }

  /**
   * Of two orders naming the same renderer the later never creates it and the earlier never kills
   * it, and something creates it no later than it is first named: one creation, then everything
   * else, then at most one kill.
   */
  ghost predicate WellFormed(trace: seq<Order>) {
    && (forall i, j :: 0 <= i < j < |trace| && Names(trace[i]).Some? && Names(trace[i]) == Names(trace[j]) ==>
          !Creates(trace[j]) && !Kills(trace[i]))
    && (forall j :: 0 <= j < |trace| && Names(trace[j]).Some? ==> CreatedBy(trace[..j + 1], Names(trace[j]).value))
  }

  ghost predicate CreatedBy(trace: seq<Order>, r: RendererId) {
    exists i :: 0 <= i < |trace| && Creates(trace[i]) && Names(trace[i]) == Some(r)
  }

  ghost predicate KilledBy(trace: seq<Order>, r: RendererId) {
    exists i :: 0 <= i < |trace| && Kills(trace[i]) && Names(trace[i]) == Some(r)
  }

  /** The ids created are exactly those handed out so far, from 1 upwards. */
  ghost predicate Created(trace: seq<Order>, next: nat) {
    1 <= next && forall r :: CreatedBy(trace, r) <==> 1 <= r < next
  }

  /** The registered renderers are those created and not killed. */
  ghost predicate Alive(trace: seq<Order>, live: set<RendererId>) {
    && (forall r :: r in live <==> CreatedBy(trace, r) && !KilledBy(trace, r))
    && Count(trace, Creates) == Count(trace, Kills) + |live|
  }

  ghost predicate Explains(trace: seq<Order>, s: State) {
    WellFormed(trace) && Created(trace, s.nextRenderer) && Alive(trace, s.slots.Keys)
  }

  /** What one call does to the set of renderers, by the kind of order it returns. */
  lemma StepEffect(s: State, op: Op)
    requires Inv(s) && Allowed(op)
    ensures var (s', o) := Step(s, op);
      if Names(o).None? then s'.slots.Keys == s.slots.Keys && s'.nextRenderer == s.nextRenderer
      else if Creates(o) then
        && Names(o) == Some(s.nextRenderer) && s'.nextRenderer == s.nextRenderer + 1
        && s.nextRenderer !in s.slots && s'.slots.Keys == s.slots.Keys + {s.nextRenderer}
      else
        && Names(o).value in s.slots && s'.nextRenderer == s.nextRenderer
        && s'.slots.Keys == s.slots.Keys - (if Kills(o) then {Names(o).value} else {})
  {
    match op
    case OpSpawn(profileId) =>
      if profileId in s.registry {
        var r := SpawnSucceeds(s, profileId);
      }
    case OpClose(tab) => CloseKeepsInv(s, tab);
    case _ =>
  }

  lemma AppendedCreatedBy(trace: seq<Order>, o: Order, r: RendererId)
    ensures CreatedBy(trace + [o], r) <==> CreatedBy(trace, r) || (Creates(o) && Names(o) == Some(r))
    ensures KilledBy(trace + [o], r) <==> KilledBy(trace, r) || (Kills(o) && Names(o) == Some(r))
  {
    var longer := trace + [o];
    assert longer[|trace|] == o;
    assert forall i :: 0 <= i < |trace| ==> longer[i] == trace[i];
  }

  lemma AppendWellFormed(trace: seq<Order>, o: Order)
    requires WellFormed(trace)
    requires Names(o).Some? ==>
      && !KilledBy(trace, Names(o).value)
      && (Creates(o) <==> !CreatedBy(trace, Names(o).value))
    ensures WellFormed(trace + [o])
  {
    var longer := trace + [o];
    forall i, j | 0 <= i < j < |longer| && Names(longer[i]).Some? && Names(longer[i]) == Names(longer[j])
      ensures !Creates(longer[j]) && !Kills(longer[i])
    {
      if j == |trace| {
        var r := Names(o).value;
        assert CreatedBy(trace[..i + 1], r);
        var c :| 0 <= c < i + 1 && Creates(trace[..i + 1][c]) && Names(trace[..i + 1][c]) == Some(r);
        assert Creates(trace[c]) && Names(trace[c]) == Some(r);
      }
    }
    forall j | 0 <= j < |longer| && Names(longer[j]).Some?
      ensures CreatedBy(longer[..j + 1], Names(longer[j]).value)
    {
      if j < |trace| {
        assert longer[..j + 1] == trace[..j + 1];
      } else {
        assert longer[..j + 1] == longer;
        AppendedCreatedBy(trace, o, Names(o).value);
      }
    }
  }

  lemma CreatedAppend(trace: seq<Order>, o: Order, next: nat)
    requires Created(trace, next) && (Creates(o) ==> Names(o) == Some(next))
    ensures Created(trace + [o], if Creates(o) then next + 1 else next)
  {
    forall r
      ensures CreatedBy(trace + [o], r) <==> CreatedBy(trace, r) || (Creates(o) && Names(o) == Some(r))
    {
      AppendedCreatedBy(trace, o, r);
    }
  }

  lemma CountAppend(trace: seq<Order>, o: Order, p: Order -> bool)
    ensures Count(trace + [o], p) == Count(trace, p) + (if p(o) then 1 else 0)
  {
    assert (trace + [o])[..|trace|] == trace;
  }

  lemma AliveAppend(trace: seq<Order>, o: Order, live: set<RendererId>)
    requires Alive(trace, live)
    requires Creates(o) ==> !CreatedBy(trace, Names(o).value) && !KilledBy(trace, Names(o).value)
    requires Kills(o) ==> Names(o).value in live
    ensures Alive(trace + [o], live + (if Creates(o) then {Names(o).value} else {})
                                    - (if Kills(o) then {Names(o).value} else {}))
  {
    CountAppend(trace, o, Creates);
    CountAppend(trace, o, Kills);
    forall r
      ensures CreatedBy(trace + [o], r) <==> CreatedBy(trace, r) || (Creates(o) && Names(o) == Some(r))
      ensures KilledBy(trace + [o], r) <==> KilledBy(trace, r) || (Kills(o) && Names(o) == Some(r))
    {
      AppendedCreatedBy(trace, o, r);
    }
  }

  lemma StepExplained(trace: seq<Order>, s: State, op: Op)
    requires Inv(s) && Allowed(op) && Explains(trace, s)
    ensures Explains(trace + [Step(s, op).1], Step(s, op).0)
  {
    var (s', o) := Step(s, op);
    StepEffect(s, op);
    if Creates(o) && KilledBy(trace, s.nextRenderer) {
      NeverKilledUnborn(trace, s.nextRenderer);
    }
    AppendWellFormed(trace, o);
    CreatedAppend(trace, o, s.nextRenderer);
    AliveAppend(trace, o, s.slots.Keys);
    assert s'.slots.Keys == s.slots.Keys + (if Creates(o) then {Names(o).value} else {})
                                         - (if Kills(o) then {Names(o).value} else {});
  }

  lemma NeverKilledUnborn(trace: seq<Order>, r: RendererId)
    requires WellFormed(trace) && KilledBy(trace, r)
    ensures CreatedBy(trace, r)
  {
    var k :| 0 <= k < |trace| && Kills(trace[k]) && Names(trace[k]) == Some(r);
    assert CreatedBy(trace[..k + 1], r);
    var c :| 0 <= c < k + 1 && Creates(trace[..k + 1][c]) && Names(trace[..k + 1][c]) == Some(r);
    assert Creates(trace[c]) && Names(trace[c]) == Some(r);
  }

  lemma AppendCons(trace: seq<Order>, o: Order, rest: seq<Order>)
    ensures (trace + [o]) + rest == trace + ([o] + rest)
  {
  }

  lemma {:induction false} RunExplained(trace: seq<Order>, s: State, ops: seq<Op>)
    requires Inv(s) && Explains(trace, s) && forall i :: 0 <= i < |ops| ==> Allowed(ops[i])
    ensures Explains(trace + Trace(s, ops), Run(s, ops))
    decreases |ops|
  {
    if ops == [] {
      assert trace + [] == trace;
    } else {
      var (s', o) := Step(s, ops[0]);
      StepKeepsInv(s, ops[0]);
      StepExplained(trace, s, ops[0]);
      RunExplained(trace + [o], s', ops[1..]);
      AppendCons(trace, o, Trace(s', ops[1..]));
    }
  }

  lemma StartExplained(registry: Registry)
    requires KeyedById(registry)
    ensures Inv(Initial(registry)) && Explains([], Initial(registry))
  {
  }

  /**
   * In every run from start-up, each minted renderer id has exactly one creation and at most one
   * kill with all its other orders in between, and created minus killed is the renderer count.
   */
  lemma RendererTraces(registry: Registry, ops: seq<Op>)
    requires KeyedById(registry) && forall i :: 0 <= i < |ops| ==> Allowed(ops[i])
    ensures Explains(Trace(Initial(registry), ops), Run(Initial(registry), ops))
  {
    StartExplained(registry);
    RunExplained([], Initial(registry), ops);
    assert [] + Trace(Initial(registry), ops) == Trace(Initial(registry), ops);
  }
}
