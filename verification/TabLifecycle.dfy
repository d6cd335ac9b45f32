/** The tab and renderer lifecycle: spawn, close, suspend and resume over the scheduler. */
module TabLifecycle {
  import opened Common
  import opened TabScheduler

  datatype LifecycleError =
    | UnknownProfile(profileId: Uuid)
    | UnknownTab(tab: TabId)
    | NoStateChange(tab: TabId)
    | SchedulerFailed(error: SchedulerError)

  datatype TabState = Active | Suspended

  datatype SuspendReason = UserRequested | BackgroundIdle | MemoryPressure

  datatype ProcessAction =
    | AttachToExisting(renderer: RendererId, tab: TabId, profileId: Uuid)
    | SpawnRenderer(renderer: RendererId, tab: TabId, profileId: Uuid, mode: Mode)

  datatype CloseAction =
    | DetachOnly(renderer: RendererId, tab: TabId)
    | DetachAndKillRenderer(renderer: RendererId, tab: TabId)

  datatype SuspendAction = SuspendAction(tab: TabId, renderer: RendererId, reason: SuspendReason)

  datatype ResumeAction = ResumeAction(tab: TabId, renderer: RendererId)

  datatype TabRecord = TabRecord(
    profileId: Uuid,
    renderer: RendererId,
    state: TabState,
    suspendReason: Option<SuspendReason>)

  type Registry = map<Uuid, IdentityProfile>

  datatype State = State(
    registry: Registry,
    slots: Slots,
    tabs: map<TabId, TabRecord>,
    nextTab: nat,
    nextRenderer: nat)

  function Initial(registry: Registry): State {
    State(registry, map[], map[], 1, 1)
  }

  /** Every constructor of the registry keys a profile by its own id. */
  predicate KeyedById(registry: Registry) {
    forall p :: p in registry ==> registry[p].profileId == p
  }

  ghost function AttachAndRecord(s: State, r: RendererId, tab: TabId, profile: IdentityProfile, action: ProcessAction)
    : (State, Result<ProcessAction, LifecycleError>)
  {
    var (slots, res) := Attach(s.slots, r, tab, profile);
    if res.Failure? then (s.(slots := slots), Failure(SchedulerFailed(res.error)))
    else (s.(slots := slots, tabs := s.tabs[tab := TabRecord(action.profileId, r, Active, None)]), Success(action))
  }

  /** `spawn_tab` once the scheduler has answered `d`; every `?` of the source is an error branch here. */
  ghost function SpawnWith(s: State, profileId: Uuid, d: RendererDecision)
    : (State, Result<ProcessAction, LifecycleError>)
  {
    if profileId !in s.registry then (s, Failure(UnknownProfile(profileId)))
    else
      var profile, tab := s.registry[profileId], s.nextTab;
      var s1 := s.(nextTab := s.nextTab + 1);
      match d
      case Reuse(r) => AttachAndRecord(s1, r, tab, profile, AttachToExisting(r, tab, profileId))
      case SpawnNew =>
        var r := s.nextRenderer;
        var s2 := s1.(nextRenderer := s.nextRenderer + 1);
        var (slots, res) := Register(s2.slots, r, profile);
        if res.Failure? then (s2.(slots := slots), Failure(SchedulerFailed(res.error)))
        else AttachAndRecord(s2.(slots := slots), r, tab, profile, SpawnRenderer(r, tab, profileId, profile.mode))
  }

  function Close(s: State, tab: TabId): (State, Result<CloseAction, LifecycleError>) {
    if tab !in s.tabs then (s, Failure(UnknownTab(tab)))
    else
      var r := s.tabs[tab].renderer;
      var s1 := s.(tabs := s.tabs - {tab});
      var (slots, res) := Detach(s1.slots, r, tab);
      if res.Failure? then (s1.(slots := slots), Failure(SchedulerFailed(res.error)))
      else if slots[r].tabs == {} then
        (s1.(slots := Retire(slots, r).0), Success(DetachAndKillRenderer(r, tab)))
      else (s1.(slots := slots), Success(DetachOnly(r, tab)))
  }

  function Suspend(s: State, tab: TabId, reason: SuspendReason): (State, Result<SuspendAction, LifecycleError>) {
    if tab !in s.tabs then (s, Failure(UnknownTab(tab)))
    else if s.tabs[tab].state == Suspended then (s, Failure(NoStateChange(tab)))
    else
      (s.(tabs := s.tabs[tab := s.tabs[tab].(state := Suspended, suspendReason := Some(reason))]),
       Success(SuspendAction(tab, s.tabs[tab].renderer, reason)))
  }

  function Resume(s: State, tab: TabId): (State, Result<ResumeAction, LifecycleError>) {
    if tab !in s.tabs then (s, Failure(UnknownTab(tab)))
    else if s.tabs[tab].state == Active then (s, Failure(NoStateChange(tab)))
    else
      (s.(tabs := s.tabs[tab := s.tabs[tab].(state := Active, suspendReason := None)]),
       Success(ResumeAction(tab, s.tabs[tab].renderer)))
  }

  /** What `spawn_tab` may do: some answer of the scheduler, followed through. */
  ghost predicate MaySpawn(s: State, profileId: Uuid, s': State, r: Result<ProcessAction, LifecycleError>) {
    exists d | profileId in s.registry ==> MayDecide(s.slots, s.registry[profileId], d) ::
      (s', r) == SpawnWith(s, profileId, d)
  }

  class LifecycleManager {
    const scheduler: Scheduler
    var registry: Registry
    var tabs: map<TabId, TabRecord>
    var nextTabId: nat
    var nextRendererId: nat

    ghost function View(): State
      reads this, scheduler
    {
      State(registry, scheduler.renderers, tabs, nextTabId, nextRendererId)
    }

    constructor (registry: Registry)
      ensures View() == Initial(registry) && fresh(scheduler)
    {
      scheduler := new Scheduler();
      this.registry, tabs, nextTabId, nextRendererId := registry, map[], 1, 1;
    }

    /** Anything a caller does through `registry_mut`. */
    method ReplaceRegistry(registry: Registry)
      modifies this
      ensures View() == old(View()).(registry := registry)
    {
      this.registry := registry;
    }

    method SpawnTab(profileId: Uuid) returns (r: Result<ProcessAction, LifecycleError>)
      modifies this, scheduler
      ensures MaySpawn(old(View()), profileId, View(), r)
    {
      ghost var before := View();
      if profileId !in registry {
        assert (View(), Failure(UnknownProfile(profileId))) == SpawnWith(before, profileId, SpawnNew);
        return Failure(UnknownProfile(profileId));
      }
      var profile := registry[profileId];
      var tab := nextTabId;
      nextTabId := nextTabId + 1;
      var decision := scheduler.Schedule(profile);
      match decision
      case Reuse(renderer) =>
        var attached := scheduler.AttachTab(renderer, tab, profile);
        if attached.Failure? {
          r := Failure(SchedulerFailed(attached.error));
        } else {
          tabs := tabs[tab := TabRecord(profileId, renderer, Active, None)];
          r := Success(AttachToExisting(renderer, tab, profileId));
        }
        assert (View(), r) == SpawnWith(before, profileId, decision);
      case SpawnNew =>
        var renderer := nextRendererId;
        nextRendererId := nextRendererId + 1;
        var registered := scheduler.RegisterRenderer(renderer, profile);
        if registered.Failure? {
          r := Failure(SchedulerFailed(registered.error));
        } else {
          var attached := scheduler.AttachTab(renderer, tab, profile);
          if attached.Failure? {
            assert false;
          }
          tabs := tabs[tab := TabRecord(profileId, renderer, Active, None)];
          r := Success(SpawnRenderer(renderer, tab, profileId, profile.mode));
        }
        assert (View(), r) == SpawnWith(before, profileId, decision);
    }

    method CloseTab(tab: TabId) returns (r: Result<CloseAction, LifecycleError>)
      modifies this, scheduler
      ensures (View(), r) == Close(old(View()), tab)
    {
      if tab !in tabs {
        return Failure(UnknownTab(tab));
      }
      var renderer := tabs[tab].renderer;
      tabs := tabs - {tab};
      var detached := scheduler.DetachTab(renderer, tab);
      if detached.Failure? {
        return Failure(SchedulerFailed(detached.error));
      }
      var remaining := scheduler.TabCount(renderer);
      if remaining.value == 0 {
        var retired := scheduler.RetireRenderer(renderer);
        if retired.Failure? {
          assert false;
        }
        r := Success(DetachAndKillRenderer(renderer, tab));
      } else {
        r := Success(DetachOnly(renderer, tab));
      }
    }

    method AbortSpawn(tab: TabId) returns (r: Result<CloseAction, LifecycleError>)
      modifies this, scheduler
      ensures (View(), r) == Close(old(View()), tab)
    {
      r := CloseTab(tab);
    }

    method SuspendTab(tab: TabId, reason: SuspendReason) returns (r: Result<SuspendAction, LifecycleError>)
      modifies this
      ensures (View(), r) == Suspend(old(View()), tab, reason)
    {
      if tab !in tabs {
        return Failure(UnknownTab(tab));
      }
      if tabs[tab].state == Suspended {
        return Failure(NoStateChange(tab));
      }
      tabs := tabs[tab := tabs[tab].(state := Suspended, suspendReason := Some(reason))];
      r := Success(SuspendAction(tab, tabs[tab].renderer, reason));
    }

    method ResumeTab(tab: TabId) returns (r: Result<ResumeAction, LifecycleError>)
      modifies this
      ensures (View(), r) == Resume(old(View()), tab)
    {
      if tab !in tabs {
        return Failure(UnknownTab(tab));
      }
      if tabs[tab].state == Active {
        return Failure(NoStateChange(tab));
      }
      tabs := tabs[tab := tabs[tab].(state := Active, suspendReason := None)];
      r := Success(ResumeAction(tab, tabs[tab].renderer));
    }
  }
}
