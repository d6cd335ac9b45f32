/** Renderer scheduling: which tabs may share a renderer process. */
module TabScheduler {
  import opened Common

  /** Minted by the lifecycle manager from counters that start at 1 and are unbounded here. */
  type RendererId = int

  type TabId = int

  /** The part of an identity profile that scheduling looks at. */
  datatype IdentityProfile = IdentityProfile(profileId: Uuid, mode: Mode)

  datatype RendererDecision = Reuse(renderer: RendererId) | SpawnNew

  datatype SchedulerError =
    | UnknownRenderer(renderer: RendererId)
    | DuplicateRenderer(renderer: RendererId)
    | TabNotAttached(renderer: RendererId, tab: TabId)
    | TabAlreadyAttached(renderer: RendererId, tab: TabId)

  datatype RendererSlot = RendererSlot(profileId: Uuid, mode: Mode, tabs: set<TabId>)

  type Slots = map<RendererId, RendererSlot>

  predicate Reusable(slot: RendererSlot, profile: IdentityProfile) {
    slot.mode == Standard && slot.profileId == profile.profileId
  }

  /** What `schedule` may answer; among several reusable slots the choice is open. */
  ghost predicate MayDecide(slots: Slots, profile: IdentityProfile, d: RendererDecision) {
    match d
    case Reuse(r) => profile.mode == Standard && r in slots && Reusable(slots[r], profile)
    case SpawnNew => profile.mode == Strict || forall r :: r in slots ==> !Reusable(slots[r], profile)
  }

  function Register(slots: Slots, r: RendererId, profile: IdentityProfile): (Slots, Result<(), SchedulerError>) {
    if r in slots then (slots, Failure(DuplicateRenderer(r)))
    else (slots[r := RendererSlot(profile.profileId, profile.mode, {})], Success(()))
  }

  /** The slot matches the profile, is Strict and already holds its tab. */
  predicate StrictAndTaken(slots: Slots, r: RendererId, profile: IdentityProfile) {
    && r in slots && slots[r].profileId == profile.profileId
    && slots[r].mode == profile.mode == Strict
    && exists held :: held in slots[r].tabs
  }

  /** The tab a taken Strict slot reports is any one it holds. */
  ghost function Attach(slots: Slots, r: RendererId, tab: TabId, profile: IdentityProfile)
    : (Slots, Result<(), SchedulerError>)
  {
    if r !in slots || slots[r].profileId != profile.profileId || slots[r].mode != profile.mode then
      (slots, Failure(UnknownRenderer(r)))
    else if StrictAndTaken(slots, r, profile) then
      var held :| held in slots[r].tabs;
      (slots, Failure(TabAlreadyAttached(r, held)))
    else if tab in slots[r].tabs then (slots, Failure(TabAlreadyAttached(r, tab)))
    else (slots[r := slots[r].(tabs := slots[r].tabs + {tab})], Success(()))
  }

  function Detach(slots: Slots, r: RendererId, tab: TabId): (Slots, Result<(), SchedulerError>) {
    if r !in slots then (slots, Failure(UnknownRenderer(r)))
    else if tab !in slots[r].tabs then (slots, Failure(TabNotAttached(r, tab)))
    else (slots[r := slots[r].(tabs := slots[r].tabs - {tab})], Success(()))
  }

  function Retire(slots: Slots, r: RendererId): (Slots, Result<set<TabId>, SchedulerError>) {
    if r !in slots then (slots, Failure(UnknownRenderer(r))) else (slots - {r}, Success(slots[r].tabs))
  }

  class Scheduler {
    var renderers: Slots

    constructor ()
      ensures renderers == map[]
    {
      renderers := map[];
    }

    method Schedule(profile: IdentityProfile) returns (d: RendererDecision)
      ensures MayDecide(renderers, profile, d)
    {
      if profile.mode == Strict {
        return SpawnNew;
      }
      var unseen := renderers.Keys;
      while true
        invariant unseen <= renderers.Keys
        invariant forall r :: r in renderers && r !in unseen ==> !Reusable(renderers[r], profile)
        decreases unseen
      {
        if r :| r in unseen {
          if Reusable(renderers[r], profile) {
            return Reuse(r);
          }
          unseen := unseen - {r};
        } else {
          return SpawnNew;
        }
      }
    }

    method RegisterRenderer(r: RendererId, profile: IdentityProfile) returns (res: Result<(), SchedulerError>)
      modifies this
      ensures (renderers, res) == Register(old(renderers), r, profile)
    {
      if r in renderers {
        return Failure(DuplicateRenderer(r));
      }
      renderers := renderers[r := RendererSlot(profile.profileId, profile.mode, {})];
      res := Success(());
    }

    method AttachTab(r: RendererId, tab: TabId, profile: IdentityProfile) returns (res: Result<(), SchedulerError>)
      modifies this
      ensures renderers == Attach(old(renderers), r, tab, profile).0
      ensures if StrictAndTaken(old(renderers), r, profile)
              then res.Failure? && exists held | held in old(renderers)[r].tabs :: res.error == TabAlreadyAttached(r, held)
              else res == Attach(old(renderers), r, tab, profile).1
    {
      if r !in renderers {
        return Failure(UnknownRenderer(r));
      }
      var slot := renderers[r];
      if slot.profileId != profile.profileId || slot.mode != profile.mode {
        return Failure(UnknownRenderer(r));
      }
      if held :| slot.mode == Strict && held in slot.tabs {
        return Failure(TabAlreadyAttached(r, held));
      }
      if tab in slot.tabs {
        return Failure(TabAlreadyAttached(r, tab));
      }
      renderers := renderers[r := slot.(tabs := slot.tabs + {tab})];
      res := Success(());
    }

    method DetachTab(r: RendererId, tab: TabId) returns (res: Result<(), SchedulerError>)
      modifies this
      ensures (renderers, res) == Detach(old(renderers), r, tab)
    {
      if r !in renderers {
        return Failure(UnknownRenderer(r));
      }
      var slot := renderers[r];
      if tab !in slot.tabs {
        return Failure(TabNotAttached(r, tab));
      }
      renderers := renderers[r := slot.(tabs := slot.tabs - {tab})];
      res := Success(());
    }

    method RetireRenderer(r: RendererId) returns (res: Result<set<TabId>, SchedulerError>)
      modifies this
      ensures (renderers, res) == Retire(old(renderers), r)
    {
      if r !in renderers {
        return Failure(UnknownRenderer(r));
      }
      res := Success(renderers[r].tabs);
      renderers := renderers - {r};
    }

    method TabCount(r: RendererId) returns (count: Option<nat>)
      ensures count == if r in renderers then Some(|renderers[r].tabs|) else None
    {
      count := if r in renderers then Some(|renderers[r].tabs|) else None;
    }
  }

  // --------------------------------------------------- whoever calls it

  datatype Call =
    | CallRegister(renderer: RendererId, profile: IdentityProfile)
    | CallAttach(renderer: RendererId, tab: TabId, profile: IdentityProfile)
    | CallDetach(renderer: RendererId, tab: TabId)
    | CallRetire(renderer: RendererId)

  ghost function After(slots: Slots, call: Call): Slots {
    match call
    case CallRegister(r, profile) => Register(slots, r, profile).0
    case CallAttach(r, tab, profile) => Attach(slots, r, tab, profile).0
    case CallDetach(r, tab) => Detach(slots, r, tab).0
    case CallRetire(r) => Retire(slots, r).0
  }

  /** The call is carried out rather than refused. */
  ghost predicate Accepted(slots: Slots, call: Call) {
    match call
    case CallRegister(r, profile) => Register(slots, r, profile).1.Success?
    case CallAttach(r, tab, profile) => Attach(slots, r, tab, profile).1.Success?
    case CallDetach(r, tab) => Detach(slots, r, tab).1.Success?
    case CallRetire(r) => Retire(slots, r).1.Success?
  }

  /** Which calls are refused; the map is then as before. */
  lemma AcceptedIff(slots: Slots, call: Call)
    ensures var r := call.renderer;
      Accepted(slots, call) <==>
        match call
        case CallRegister(_, _) => r !in slots
        case CallAttach(_, tab, profile) =>
          && r in slots && slots[r].profileId == profile.profileId && slots[r].mode == profile.mode
          && (if slots[r].mode == Strict then forall held :: held !in slots[r].tabs else tab !in slots[r].tabs)
        case CallDetach(_, tab) => r in slots && tab in slots[r].tabs
        case CallRetire(_) => r in slots
    ensures !Accepted(slots, call) ==> After(slots, call) == slots
    ensures forall q :: q != call.renderer ==>
      (q in After(slots, call) <==> q in slots) && (q in slots ==> After(slots, call)[q] == slots[q])
  {
  }

  /** Which error a refused call is answered with. */
  lemma RefusalNames(slots: Slots, r: RendererId, tab: TabId, profile: IdentityProfile)
    ensures r in slots ==> Register(slots, r, profile).1 == Failure(DuplicateRenderer(r))
    ensures r !in slots ==>
      && Attach(slots, r, tab, profile).1 == Failure(UnknownRenderer(r))
      && Detach(slots, r, tab).1 == Failure(UnknownRenderer(r)) && Retire(slots, r).1 == Failure(UnknownRenderer(r))
    ensures r in slots && (slots[r].profileId != profile.profileId || slots[r].mode != profile.mode) ==>
      Attach(slots, r, tab, profile).1 == Failure(UnknownRenderer(r))
    ensures r in slots && tab !in slots[r].tabs ==> Detach(slots, r, tab).1 == Failure(TabNotAttached(r, tab))
    ensures r in slots && profile == IdentityProfile(slots[r].profileId, Standard) && slots[r].mode == Standard ==>
      tab in slots[r].tabs ==> Attach(slots, r, tab, profile).1 == Failure(TabAlreadyAttached(r, tab))
  {
  }

  /** Exactly the accepted attaches and detaches move tabs, and an accepted retirement returns what was left. */
  lemma AcceptedEffect(slots: Slots, call: Call)
    requires Accepted(slots, call)
    ensures var r, slots' := call.renderer, After(slots, call);
      match call
      case CallRegister(_, profile) => r in slots' && slots'[r] == RendererSlot(profile.profileId, profile.mode, {})
      case CallAttach(_, tab, _) =>
        r in slots && r in slots' && slots'[r] == slots[r].(tabs := slots[r].tabs + {tab}) && tab !in slots[r].tabs
      case CallDetach(_, tab) =>
        r in slots && r in slots' && slots'[r] == slots[r].(tabs := slots[r].tabs - {tab}) && tab in slots[r].tabs
      case CallRetire(_) => r in slots && r !in slots' && Retire(slots, r).1 == Success(slots[r].tabs)
  {
  }

  /** The attaches since a renderer was last registered, with the profiles they came with. */
  ghost predicate AttachedAs(slots: Slots, calls: seq<Call>, r: RendererId, tab: TabId, profile: IdentityProfile)
    decreases |calls|
  {
    calls != []
    && (var front, last := calls[..|calls| - 1], calls[|calls| - 1];
        || (last == CallAttach(r, tab, profile) && Accepted(RunCalls(slots, front), last))
        || AttachedAs(slots, front, r, tab, profile))
  }

  ghost function RunCalls(slots: Slots, calls: seq<Call>): Slots
    decreases |calls|
  {
    if calls == [] then slots
    else After(RunCalls(slots, calls[..|calls| - 1]), calls[|calls| - 1])
  }

  /** A Strict renderer has at most one tab, and every tab came in under the renderer's own identity. */
  ghost predicate SlotSound(calls: seq<Call>, r: RendererId) {
    r in RunCalls(map[], calls) ==>
      var slot := RunCalls(map[], calls)[r];
      && (slot.mode == Strict ==> forall t, u :: t in slot.tabs && u in slot.tabs ==> t == u)
      && (forall t :: t in slot.tabs ==> AttachedAs(map[], calls, r, t, IdentityProfile(slot.profileId, slot.mode)))
  }

  /**
   * Defence in depth: whatever the caller does, in any order and with any profiles, no renderer ever holds
   * a tab that was attached under another identity or mode, and no Strict renderer holds two.
   */
  lemma {:induction false} SoundWhoeverCalls(calls: seq<Call>)
    ensures forall r :: SlotSound(calls, r)
    decreases |calls|
  {
    if calls == [] {
    } else {
      var front, last := calls[..|calls| - 1], calls[|calls| - 1];
      SoundWhoeverCalls(front);
      SoundStep(front, last);
      assert front + [last] == calls;
    }
  }

  lemma SoundStep(front: seq<Call>, last: Call)
    requires forall r :: SlotSound(front, r)
    ensures forall r :: SlotSound(front + [last], r)
  {
    var calls, before := front + [last], RunCalls(map[], front);
    assert calls[..|calls| - 1] == front;
    AcceptedIff(before, last);
    if Accepted(before, last) {
      AcceptedEffect(before, last);
    }
    forall r ensures SlotSound(calls, r) {
      assert SlotSound(front, r);
    }
  }
}
