/** The orders of a run, tab by tab: they answer their calls, and they alone determine the tab map. */
module TabOrders {
  import opened Common
  import opened TabScheduler
  import opened TabLifecycle
  import opened TabLifecycleRuns

  /** The tab an order names, if any. */
  function TabOf(o: Order): Option<TabId> {
    match o
    case Spawning(Success(a)) => Some(a.tab)
    case Closing(Success(c)) => Some(c.tab)
    case Suspending(Success(p)) => Some(p.tab)
    case Resuming(Success(q)) => Some(q.tab)
    case _ => None
  }

  predicate SpawnsTab(o: Order) {
    o.Spawning? && o.r.Success?
  }

  predicate ClosesTab(o: Order) {
    o.Closing? && o.c.Success?
  }

  // ------------------------------------------------------------- answers

  /** The error a call on one tab is answered with, if any, read off the tab's record. */
  function Refusal(s: State, op: Op): Option<LifecycleError>
    requires op.OpClose? || op.OpSuspend? || op.OpResume?
  {
    if op.tab !in s.tabs then Some(UnknownTab(op.tab))
    else if op.OpSuspend? && s.tabs[op.tab].state == Suspended then Some(NoStateChange(op.tab))
    else if op.OpResume? && s.tabs[op.tab].state == Active then Some(NoStateChange(op.tab))
    else None
  }

  /** A call that is not refused is answered for the very tab, renderer, profile and reason it is about. */
  lemma OrderAnswersCall(s: State, op: Op)
    requires Inv(s) && Allowed(op)
    ensures var (s', o) := Step(s, op);
      match op
      case OpSpawn(profileId) =>
        if profileId !in s.registry then o == Spawning(Failure(UnknownProfile(profileId))) && s' == s
        else SpawnsTab(o) && o.r.value.tab == s.nextTab && o.r.value.profileId == profileId
             && (o.r.value.SpawnRenderer? ==> o.r.value.mode == s.registry[profileId].mode)
      case OpClose(tab) =>
        if Refusal(s, op).Some? then o == Closing(Failure(Refusal(s, op).value)) && s' == s
        else ClosesTab(o) && o.c.value.tab == tab && o.c.value.renderer == s.tabs[tab].renderer
      case OpSuspend(tab, reason) =>
        if Refusal(s, op).Some? then o == Suspending(Failure(Refusal(s, op).value)) && s' == s
        else o == Suspending(Success(SuspendAction(tab, s.tabs[tab].renderer, reason)))
      case OpResume(tab) =>
        if Refusal(s, op).Some? then o == Resuming(Failure(Refusal(s, op).value)) && s' == s
        else o == Resuming(Success(ResumeAction(tab, s.tabs[tab].renderer)))
      case OpRegistry(_) => o == Nothing
  {
    match op
    case OpSpawn(profileId) =>
      if profileId in s.registry {
        var r := SpawnSucceeds(s, profileId);
      }
    case OpClose(tab) => CloseKeepsInv(s, tab);
    case _ =>
  }

  // ------------------------------------------------------------- the tab map

  /** What the orders of a trace say about a tab; nobody but the orchestrator's orders is consulted. */
  function Told(trace: seq<Order>, tab: TabId): Option<TabRecord> {
    if trace == [] then None
    else
      var o, before := trace[|trace| - 1], Told(trace[..|trace| - 1], tab);
      if TabOf(o) != Some(tab) then before
      else match o
        case Spawning(Success(a)) => Some(TabRecord(a.profileId, a.renderer, Active, None))
        case Suspending(Success(p)) =>
          if before.None? then None else Some(before.value.(state := Suspended, suspendReason := Some(p.reason)))
        case Resuming(Success(q)) =>
          if before.None? then None else Some(before.value.(state := Active, suspendReason := None))
        case _ => None
  }

  function Recorded(s: State, tab: TabId): Option<TabRecord> {
    if tab in s.tabs then Some(s.tabs[tab]) else None
  }

  ghost predicate AsTold(trace: seq<Order>, s: State) {
    forall tab :: Recorded(s, tab) == Told(trace, tab)
  }

  lemma ToldAfter(trace: seq<Order>, o: Order, tab: TabId)
    ensures TabOf(o) != Some(tab) ==> Told(trace + [o], tab) == Told(trace, tab)
    ensures TabOf(o) == Some(tab) ==>
      match o
      case Spawning(Success(a)) => Told(trace + [o], tab) == Some(TabRecord(a.profileId, a.renderer, Active, None))
      case Suspending(Success(p)) =>
        Told(trace, tab).Some? ==>
          Told(trace + [o], tab) == Some(Told(trace, tab).value.(state := Suspended, suspendReason := Some(p.reason)))
      case Resuming(Success(q)) =>
        Told(trace, tab).Some? ==>
          Told(trace + [o], tab) == Some(Told(trace, tab).value.(state := Active, suspendReason := None))
      case _ => Told(trace + [o], tab) == None
  {
    assert (trace + [o])[..|trace|] == trace;
  }

  /** One call changes the record of the tab its order names, and of no other. */
  lemma StepRecords(s: State, op: Op, tab: TabId)
    requires Inv(s) && Allowed(op)
    ensures var (s', o) := Step(s, op);
      if TabOf(o) != Some(tab) then Recorded(s', tab) == Recorded(s, tab)
      else match op
        case OpSpawn(profileId) =>
          SpawnsTab(o) && Recorded(s', tab) == Some(TabRecord(o.r.value.profileId, o.r.value.renderer, Active, None))
        case OpClose(_) => ClosesTab(o) && Recorded(s', tab) == None
        case OpSuspend(_, reason) =>
          && o.Suspending? && tab in s.tabs
          && Recorded(s', tab) == Some(s.tabs[tab].(state := Suspended, suspendReason := Some(o.p.value.reason)))
        case OpResume(_) =>
          && o.Resuming? && tab in s.tabs
          && Recorded(s', tab) == Some(s.tabs[tab].(state := Active, suspendReason := None))
        case OpRegistry(_) => false
  {
    OrderAnswersCall(s, op);
    match op
    case OpSpawn(profileId) =>
      if profileId in s.registry {
        var r := SpawnSucceeds(s, profileId);
      }
    case _ =>
  }

  lemma StepAsTold(trace: seq<Order>, s: State, op: Op)
    requires Inv(s) && Allowed(op) && AsTold(trace, s)
    ensures AsTold(trace + [Step(s, op).1], Step(s, op).0)
  {
    var (s', o) := Step(s, op);
    forall tab ensures Recorded(s', tab) == Told(trace + [o], tab) {
      assert Recorded(s, tab) == Told(trace, tab);
      StepRecords(s, op, tab);
      ToldAfter(trace, o, tab);
    }
  }

  lemma {:induction false} RunAsTold(trace: seq<Order>, s: State, ops: seq<Op>)
    requires Inv(s) && AsTold(trace, s) && forall i :: 0 <= i < |ops| ==> Allowed(ops[i])
    ensures AsTold(trace + Trace(s, ops), Run(s, ops))
    decreases |ops|
  {
    if ops == [] {
      assert trace + [] == trace;
    } else {
      var (s', o) := Step(s, ops[0]);
      StepKeepsInv(s, ops[0]);
      StepAsTold(trace, s, ops[0]);
      RunAsTold(trace + [o], s', ops[1..]);
      AppendCons(trace, o, Trace(s', ops[1..]));
    }
  }

  /**
   * In every run from start-up, whoever follows the orders knows the tab map exactly: which tabs live, on
   * which renderer, under which profile, and whether and why each is suspended.
   */
  lemma OrdersTellTabs(registry: Registry, ops: seq<Op>)
    requires KeyedById(registry) && forall i :: 0 <= i < |ops| ==> Allowed(ops[i])
    ensures AsTold(Trace(Initial(registry), ops), Run(Initial(registry), ops))
  {
    StartExplained(registry);
    RunAsTold([], Initial(registry), ops);
    assert [] + Trace(Initial(registry), ops) == Trace(Initial(registry), ops);
  }

  // ------------------------------------------------------------- lives of tabs

  ghost predicate SpawnedBy(trace: seq<Order>, tab: TabId) {
    exists i :: 0 <= i < |trace| && SpawnsTab(trace[i]) && TabOf(trace[i]) == Some(tab)
  }

  ghost predicate ClosedBy(trace: seq<Order>, tab: TabId) {
    exists i :: 0 <= i < |trace| && ClosesTab(trace[i]) && TabOf(trace[i]) == Some(tab)
  }

  /**
   * Of two orders naming the same tab the later never spawns it, the earlier never closes it, and both
   * name one renderer; and something spawns it no later than it is first named.
   */
  ghost predicate TabsLiveOnce(trace: seq<Order>) {
    && (forall i, j :: 0 <= i < j < |trace| && TabOf(trace[i]).Some? && TabOf(trace[i]) == TabOf(trace[j]) ==>
          !SpawnsTab(trace[j]) && !ClosesTab(trace[i]) && Names(trace[i]) == Names(trace[j]))
    && (forall j :: 0 <= j < |trace| && TabOf(trace[j]).Some? ==> SpawnedBy(trace[..j + 1], TabOf(trace[j]).value))
  }

  /** Every order so far that names a live tab names the renderer it is on. */
  ghost predicate OnOneRenderer(trace: seq<Order>, s: State) {
    forall i :: 0 <= i < |trace| && TabOf(trace[i]).Some? && TabOf(trace[i]).value in s.tabs ==>
      Names(trace[i]) == Some(s.tabs[TabOf(trace[i]).value].renderer)
  }

  ghost predicate TabsExplained(trace: seq<Order>, s: State) {
    && TabsLiveOnce(trace) && OnOneRenderer(trace, s)
    && (forall tab :: SpawnedBy(trace, tab) <==> 1 <= tab < s.nextTab)
    && (forall tab :: tab in s.tabs <==> SpawnedBy(trace, tab) && !ClosedBy(trace, tab))
    && (forall i :: 0 <= i < |trace| && TabOf(trace[i]).Some? ==> 1 <= TabOf(trace[i]).value < s.nextTab)
    && 1 <= s.nextTab
  }

  lemma AppendedOrder(trace: seq<Order>, o: Order, tab: TabId)
    ensures SpawnedBy(trace + [o], tab) <==> SpawnedBy(trace, tab) || (SpawnsTab(o) && TabOf(o) == Some(tab))
    ensures ClosedBy(trace + [o], tab) <==> ClosedBy(trace, tab) || (ClosesTab(o) && TabOf(o) == Some(tab))
  {
    var longer := trace + [o];
    assert longer[|trace|] == o;
    assert forall i :: 0 <= i < |trace| ==> longer[i] == trace[i];
  }

  /** What one call does to the set of tabs, by the order it returns. */
  lemma StepTabs(s: State, op: Op)
    requires Inv(s) && Allowed(op) && 1 <= s.nextTab
    ensures var (s', o) := Step(s, op);
      && s'.nextTab == s.nextTab + (if SpawnsTab(o) then 1 else 0)
      && (SpawnsTab(o) ==> TabOf(o) == Some(s.nextTab) && s.nextTab !in s.tabs)
      && (TabOf(o).Some? && !SpawnsTab(o) ==>
            TabOf(o).value in s.tabs && Names(o) == Some(s.tabs[TabOf(o).value].renderer))
      && (TabOf(o).Some? <==> Names(o).Some?)
      && s'.tabs.Keys == s.tabs.Keys + (if SpawnsTab(o) then {s.nextTab} else {})
                                     - (if ClosesTab(o) then {TabOf(o).value} else {})
      && (forall tab :: tab in s.tabs && tab in s'.tabs ==> s'.tabs[tab].renderer == s.tabs[tab].renderer)
      && (SpawnsTab(o) ==> Names(o) == Some(s'.tabs[s.nextTab].renderer))
  {
    OrderAnswersCall(s, op);
    match op
    case OpSpawn(profileId) =>
      if profileId in s.registry {
        var r := SpawnSucceeds(s, profileId);
      }
    case _ =>
  }

  lemma ClosedIsGone(trace: seq<Order>, s: State)
    requires TabsExplained(trace, s)
    ensures forall i :: 0 <= i < |trace| && ClosesTab(trace[i]) ==>
      TabOf(trace[i]).Some? && TabOf(trace[i]).value !in s.tabs && TabOf(trace[i]).value < s.nextTab
  {
    forall i | 0 <= i < |trace| && ClosesTab(trace[i]) ensures ClosedBy(trace, TabOf(trace[i]).value) {
    }
  }

  lemma AppendLiveOnce(trace: seq<Order>, o: Order, s: State, s': State)
    requires TabsExplained(trace, s)
    requires SpawnsTab(o) ==> TabOf(o) == Some(s.nextTab)
    requires TabOf(o).Some? && !SpawnsTab(o) ==>
      TabOf(o).value in s.tabs && Names(o) == Some(s.tabs[TabOf(o).value].renderer)
    ensures TabsLiveOnce(trace + [o])
  {
    var longer := trace + [o];
    ClosedIsGone(trace, s);
    forall i, j | 0 <= i < j < |longer| && TabOf(longer[i]).Some? && TabOf(longer[i]) == TabOf(longer[j])
      ensures !SpawnsTab(longer[j]) && !ClosesTab(longer[i]) && Names(longer[i]) == Names(longer[j])
    {
      if j == |trace| {
        assert longer[i] == trace[i] && longer[j] == o;
      }
    }
    forall j | 0 <= j < |longer| && TabOf(longer[j]).Some?
      ensures SpawnedBy(longer[..j + 1], TabOf(longer[j]).value)
    {
      if j < |trace| {
        assert longer[..j + 1] == trace[..j + 1];
      } else {
        assert longer[..j + 1] == longer;
        AppendedOrder(trace, o, TabOf(o).value);
      }
    }
  }

  lemma StepExplainsTabs(trace: seq<Order>, s: State, op: Op)
    requires Inv(s) && Allowed(op) && TabsExplained(trace, s)
    ensures TabsExplained(trace + [Step(s, op).1], Step(s, op).0)
  {
    var (s', o) := Step(s, op);
    StepTabs(s, op);
    AppendLiveOnce(trace, o, s, s');
    forall tab
      ensures SpawnedBy(trace + [o], tab) <==> SpawnedBy(trace, tab) || (SpawnsTab(o) && TabOf(o) == Some(tab))
      ensures ClosedBy(trace + [o], tab) <==> ClosedBy(trace, tab) || (ClosesTab(o) && TabOf(o) == Some(tab))
    {
      AppendedOrder(trace, o, tab);
    }
    ClosedWasNamed(trace, s);
    NamesKept(trace, o, s, s');
  }

  lemma ClosedWasNamed(trace: seq<Order>, s: State)
    requires TabsExplained(trace, s)
    ensures !ClosedBy(trace, s.nextTab)
  {
  }

  lemma NamesKept(trace: seq<Order>, o: Order, s: State, s': State)
    requires TabsExplained(trace, s)
    requires s'.nextTab == s.nextTab + (if SpawnsTab(o) then 1 else 0)
    requires SpawnsTab(o) ==> TabOf(o) == Some(s.nextTab) && s.nextTab in s'.tabs && Names(o) == Some(s'.tabs[s.nextTab].renderer)
    requires TabOf(o).Some? && !SpawnsTab(o) ==>
      TabOf(o).value in s.tabs && Names(o) == Some(s.tabs[TabOf(o).value].renderer)
    requires forall tab :: tab in s'.tabs ==> tab in s.tabs || tab == s.nextTab
    requires forall tab :: tab in s.tabs && tab in s'.tabs ==> s'.tabs[tab].renderer == s.tabs[tab].renderer
    ensures OnOneRenderer(trace + [o], s')
    ensures forall i :: 0 <= i < |trace + [o]| && TabOf((trace + [o])[i]).Some? ==> 1 <= TabOf((trace + [o])[i]).value < s'.nextTab
  {
    forall i | 0 <= i < |trace + [o]| && TabOf((trace + [o])[i]).Some?
      ensures 1 <= TabOf((trace + [o])[i]).value < s'.nextTab
      ensures TabOf((trace + [o])[i]).value in s'.tabs ==>
        Names((trace + [o])[i]) == Some(s'.tabs[TabOf((trace + [o])[i]).value].renderer)
    {
      if i < |trace| {
        assert (trace + [o])[i] == trace[i];
      } else {
        assert (trace + [o])[i] == o;
      }
    }
  }

  lemma {:induction false} RunExplainsTabs(trace: seq<Order>, s: State, ops: seq<Op>)
    requires Inv(s) && TabsExplained(trace, s) && forall i :: 0 <= i < |ops| ==> Allowed(ops[i])
    ensures TabsExplained(trace + Trace(s, ops), Run(s, ops))
    decreases |ops|
  {
    if ops == [] {
      assert trace + [] == trace;
    } else {
      var (s', o) := Step(s, ops[0]);
      StepKeepsInv(s, ops[0]);
      StepExplainsTabs(trace, s, ops[0]);
      RunExplainsTabs(trace + [o], s', ops[1..]);
      AppendCons(trace, o, Trace(s', ops[1..]));
    }
  }

  lemma StartExplainsTabs(registry: Registry)
    ensures TabsExplained([], Initial(registry))
  {
  }

  /**
   * In every run from start-up the tab ids handed out are 1, 2, ..., each is named by exactly one spawn
   * order and at most one close order with its suspend and resume orders in between, and every order that
   * names it names one and the same renderer; the live tabs are those spawned and not closed.
   */
  lemma TabTraces(registry: Registry, ops: seq<Op>)
    requires KeyedById(registry) && forall i :: 0 <= i < |ops| ==> Allowed(ops[i])
    ensures TabsExplained(Trace(Initial(registry), ops), Run(Initial(registry), ops))
  {
    StartExplained(registry);
    StartExplainsTabs(registry);
    RunExplainsTabs([], Initial(registry), ops);
    assert [] + Trace(Initial(registry), ops) == Trace(Initial(registry), ops);
  }
}
