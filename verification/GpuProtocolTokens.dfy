/** The life of a token in the composed GPU process: when one is issued, and when a rejection is final. */
module GpuProtocolTokens {
  import opened Common
  import opened GpuTypes
  import opened GpuProtocol
  import C = GpuCoordinatorModel
  import B = GpuBudget
  import R = GpuBudgetRuns
  import Q = GpuQueue

  // ------------------------------------------------------- stale tokens

  /** Some task has read this epoch and not adopted it yet. */
  ghost predicate Held(sys: System, epoch: U64) {
    exists task :: task in sys.held && sys.held[task] == epoch
  }

  /** An epoch a component on epoch `own` may be on later. */
  ghost predicate Attainable(sys: System, own: U64, epoch: U64) {
    epoch == own || sys.coordinator.epoch <= epoch || Held(sys, epoch)
  }

  /**
   * The epochs a component can reach: it stays where it is, adopts an epoch the coordinator has now or
   * will have, or one that a task has read before and is still holding.
   */
  lemma {:induction false} EpochsAfter(sys: System, actions: seq<Action>)
    requires Inv(sys) && LegalRun(sys, actions) && NoWrap(sys, actions)
    ensures var end := Run(sys, actions);
      && sys.coordinator.epoch <= end.coordinator.epoch
      && Attainable(sys, sys.budget.epoch, end.budget.epoch)
      && Attainable(sys, sys.queue.epoch, end.queue.epoch)
    decreases |actions|
  {
    if actions == [] {
    } else {
      var next, end := Next(sys, actions[0]), Run(sys, actions);
      StepKeepsInv(sys, actions[0]);
      StepEpochs(sys, actions[0]);
      EpochsAfter(next, actions[1..]);
      HeldOneEarlier(sys, actions[0], end.budget.epoch);
      HeldOneEarlier(sys, actions[0], end.queue.epoch);
    }
  }

  lemma HeldOneEarlier(sys: System, a: Action, epoch: U64)
    ensures Held(Next(sys, a), epoch) ==> Held(sys, epoch) || epoch == sys.coordinator.epoch
  {
    if Held(Next(sys, a), epoch) {
      var task :| task in Next(sys, a).held && Next(sys, a).held[task] == epoch;
      assert a == ReadEpoch(task) || (task in sys.held && sys.held[task] == epoch);
    }
  }

  lemma StepEpochs(sys: System, a: Action)
    requires Inv(sys) && Legal(sys, a)
    ensures Next(sys, a).budget.epoch == if a.AdoptBudget? then sys.held[a.task] else sys.budget.epoch
    ensures Next(sys, a).queue.epoch == if a.AdoptQueue? then sys.held[a.task] else sys.queue.epoch
  {
    match a
    case OnBudget(op) => BudgetEpochFixed(sys.budget, op);
    case Submit(token) => QueueEpochFixed(sys.queue, Q.OpSubmit(token));
    case Dequeue => QueueEpochFixed(sys.queue, Q.OpDequeue);
    case _ =>
  }

  lemma OneActionRun(sys: System, a: Action)
    requires Legal(sys, a) && StepNoWrap(sys, a)
    ensures LegalRun(sys, [a]) && NoWrap(sys, [a]) && Run(sys, [a]) == Next(sys, a)
  {
    assert [a][1..] == [];
  }

  lemma TwoActionRun(sys: System, a: Action, b: Action)
    requires Legal(sys, a) && StepNoWrap(sys, a) && Legal(Next(sys, a), b) && StepNoWrap(Next(sys, a), b)
    ensures LegalRun(sys, [a, b]) && NoWrap(sys, [a, b]) && Run(sys, [a, b]) == Next(Next(sys, a), b)
  {
    assert [a, b][1..] == [b];
    OneActionRun(Next(sys, a), b);
  }

  predicate BudgetAccepts(sys: System, token: ScopeToken) {
    R.Step(sys.budget, R.OpTouch(token, 0)).1 != R.Touched(Failure(B.StaleToken))
  }

  predicate QueueAccepts(sys: System, token: ScopeToken) {
    Q.StepSubmit(sys.queue, token).1 != Failure(Q.StaleToken)
  }

  /** Some run from here ends with the budget accepting the token. */
  ghost predicate BudgetMayAccept(sys: System, token: ScopeToken) {
    exists actions :: LegalRun(sys, actions) && NoWrap(sys, actions) && BudgetAccepts(Run(sys, actions), token)
  }

  ghost predicate QueueMayAccept(sys: System, token: ScopeToken) {
    exists actions :: LegalRun(sys, actions) && NoWrap(sys, actions) && QueueAccepts(Run(sys, actions), token)
  }

  /**
   * A token the budget has turned away can be accepted there later exactly when the coordinator
   * validates it now, so that the budget merely has not synchronised yet, or when some task is still
   * holding the token's epoch, read before a recovery. Every other rejection is final.
   */
  lemma BudgetRejectionFinalIff(sys: System, token: ScopeToken)
    requires Inv(sys) && token in sys.issued && !BudgetAccepts(sys, token)
    ensures BudgetMayAccept(sys, token) <==> C.Validate(sys.coordinator, token).Success? || Held(sys, token.epoch)
  {
    if C.Validate(sys.coordinator, token).Success? {
      TwoActionRun(sys, ReadEpoch(0), AdoptBudget(0));
      assert BudgetAccepts(Run(sys, [ReadEpoch(0), AdoptBudget(0)]), token);
    } else if Held(sys, token.epoch) {
      var task :| task in sys.held && sys.held[task] == token.epoch;
      OneActionRun(sys, AdoptBudget(task));
      assert BudgetAccepts(Run(sys, [AdoptBudget(task)]), token);
    } else {
      forall actions | LegalRun(sys, actions) && NoWrap(sys, actions)
        ensures !BudgetAccepts(Run(sys, actions), token)
      {
        EpochsAfter(sys, actions);
      }
    }
  }

  /** The same for the command queue. */
  lemma QueueRejectionFinalIff(sys: System, token: ScopeToken)
    requires Inv(sys) && token in sys.issued && !QueueAccepts(sys, token)
    ensures QueueMayAccept(sys, token) <==> C.Validate(sys.coordinator, token).Success? || Held(sys, token.epoch)
  {
    if C.Validate(sys.coordinator, token).Success? {
      TwoActionRun(sys, ReadEpoch(0), AdoptQueue(0));
      assert QueueAccepts(Run(sys, [ReadEpoch(0), AdoptQueue(0)]), token);
    } else if Held(sys, token.epoch) {
      var task :| task in sys.held && sys.held[task] == token.epoch;
      OneActionRun(sys, AdoptQueue(task));
      assert QueueAccepts(Run(sys, [AdoptQueue(task)]), token);
    } else {
      forall actions | LegalRun(sys, actions) && NoWrap(sys, actions)
        ensures !QueueAccepts(Run(sys, actions), token)
      {
        EpochsAfter(sys, actions);
      }
    }
  }

  /** No recovery falls between a task's read and its adoption, as when one task does all of them. */
  predicate Serial(sys: System, actions: seq<Action>)
    decreases |actions|
  {
    actions == [] || ((actions[0].Recover? ==> sys.held == map[]) && Serial(Next(sys, actions[0]), actions[1..]))
  }

  ghost predicate ReadsCurrent(sys: System) {
    forall task :: task in sys.held ==> sys.held[task] == sys.coordinator.epoch
  }

  lemma {:induction false} SerialKeepsReadsCurrent(sys: System, actions: seq<Action>)
    requires ReadsCurrent(sys) && Serial(sys, actions)
    ensures ReadsCurrent(Run(sys, actions))
    decreases |actions|
  {
    if actions == [] {
    } else {
      SerialKeepsReadsCurrent(Next(sys, actions[0]), actions[1..]);
    }
  }

  /**
   * In every state reached from start-up without such an overtaking, a rejection is final exactly when
   * the coordinator rejects the token too, whatever happens afterwards.
   */
  lemma SerialRejectionFinalIff(memoryCapMib: nat, actions: seq<Action>, token: ScopeToken)
    requires var boot := Boot(B.CapFromConfig(memoryCapMib));
      && LegalRun(boot, actions) && NoWrap(boot, actions) && Serial(boot, actions)
      && token in Run(boot, actions).issued
    ensures var sys := Run(Boot(B.CapFromConfig(memoryCapMib)), actions);
      && (!BudgetAccepts(sys, token) ==> (BudgetMayAccept(sys, token) <==> C.Validate(sys.coordinator, token).Success?))
      && (!QueueAccepts(sys, token) ==> (QueueMayAccept(sys, token) <==> C.Validate(sys.coordinator, token).Success?))
  {
    var boot := Boot(B.CapFromConfig(memoryCapMib));
    var sys := Run(boot, actions);
    EpochSafetyFromBoot(memoryCapMib, actions);
    SerialKeepsReadsCurrent(boot, actions);
    if !BudgetAccepts(sys, token) {
      BudgetRejectionFinalIff(sys, token);
    }
    if !QueueAccepts(sys, token) {
      QueueRejectionFinalIff(sys, token);
    }
  }

  /**
   * An overtaken synchronisation: one task reads the epoch before a recovery and adopts it after another
   * task's, and a token that budget and coordinator both reject is accepted by the budget again.
   */
  lemma OvertakenSync(capBytes: U64, p: Uuid, mode: Mode)
    requires B.CapIsExact(capBytes)
    ensures var token := ScopeToken(p, mode, 1);
      var sys := Run(Boot(capBytes), [Issue(p, mode), ReadEpoch(0), Recover, ReadEpoch(1), AdoptBudget(1)]);
      && token in sys.issued && C.Validate(sys.coordinator, token).Failure? && !BudgetAccepts(sys, token)
      && Legal(sys, AdoptBudget(0)) && BudgetAccepts(Next(sys, AdoptBudget(0)), token)
  {
    var s2 := Next(Next(Boot(capBytes), Issue(p, mode)), ReadEpoch(0));
    var s4 := Next(Next(s2, Recover), ReadEpoch(1));
    var rest := [Recover, ReadEpoch(1), AdoptBudget(1)];
    assert [Issue(p, mode), ReadEpoch(0), Recover, ReadEpoch(1), AdoptBudget(1)][1..] == [ReadEpoch(0)] + rest;
    assert ([ReadEpoch(0)] + rest)[1..] == rest;
    assert rest[1..] == [ReadEpoch(1), AdoptBudget(1)];
    assert [ReadEpoch(1), AdoptBudget(1)][1..] == [AdoptBudget(1)];
    assert [AdoptBudget(1)][1..] == [];
    assert Run(s4, [AdoptBudget(1)]) == Next(s4, AdoptBudget(1));
    assert Run(s2, rest) == Run(s4, [AdoptBudget(1)]);
  }

  /**
   * Between `recover_after_loss` and `on_recovery` the roles are swapped: the queue still accepts
   * the token the coordinator calls stale, and turns the fresh one away.
   */
  lemma RecoveryWindow(capBytes: U64, p: Uuid, mode: Mode)
    requires B.CapIsExact(capBytes)
    ensures var early, late := ScopeToken(p, mode, 1), ScopeToken(p, mode, 2);
      var sys := Run(Boot(capBytes), [Issue(p, mode), Loss, Recover, Issue(p, mode)]);
      && early in sys.issued && late in sys.issued
      && C.Validate(sys.coordinator, early).Failure? && QueueAccepts(sys, early)
      && C.Validate(sys.coordinator, late).Success? && !QueueAccepts(sys, late)
  {
    var issue := Issue(p, mode);
    var s1 := Next(Boot(capBytes), issue);
    var s3 := Next(Next(s1, Loss), Recover);
    assert [issue, Loss, Recover, issue][1..] == [Loss, Recover, issue];
    assert [Loss, Recover, issue][1..] == [Recover, issue];
    assert [Recover, issue][1..] == [issue];
    assert [issue][1..] == [];
    assert Run(s3, [issue]) == Next(s3, issue);
    assert Run(s1, [Loss, Recover, issue]) == Run(s3, [issue]);
  }

  /** One call adds a token, if the adapter is there, and no other action touches the set. */
  lemma StepIssues(sys: System, a: Action)
    ensures Next(sys, a).issued == sys.issued
      + (if a.Issue? && sys.coordinator.available then {ScopeToken(a.profileId, a.mode, sys.coordinator.epoch)} else {})
    ensures Next(sys, a).coordinator.available <==> a.Recover? || (sys.coordinator.available && !a.Loss?)
  {
  }

  predicate NoRecovery(actions: seq<Action>) {
    forall i :: 0 <= i < |actions| ==> !actions[i].Recover?
  }

  lemma {:induction false} NothingIssuedWhileAway(sys: System, actions: seq<Action>)
    requires !sys.coordinator.available && NoRecovery(actions)
    ensures Run(sys, actions).issued == sys.issued && !Run(sys, actions).coordinator.available
    decreases |actions|
  {
    if actions == [] {
    } else {
      StepIssues(sys, actions[0]);
      NothingIssuedWhileAway(Next(sys, actions[0]), actions[1..]);
    }
  }

  /** From a loss to the next recovery no token comes into being, whatever the clients and components do. */
  lemma NothingIssuedDuringLoss(sys: System, actions: seq<Action>)
    requires NoRecovery(actions)
    ensures Run(Next(sys, Loss), actions).issued == sys.issued
  {
    StepIssues(sys, Loss);
    NothingIssuedWhileAway(Next(sys, Loss), actions);
  }
}
