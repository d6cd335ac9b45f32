/**
 * The composed GPU process: one coordinator, a memory budget and a command queue that adopt the
 * coordinator's epoch in steps of their own, and clients that hold issued tokens only.
 *
 * `budget.on_recovery(coord.epoch())` takes two locks one after the other, so a synchronisation is two
 * steps here: some task reads the epoch, and adopts it for a component later.
 */
module GpuProtocol {
  import opened Common
  import opened GpuTypes
  import C = GpuCoordinatorModel
  import B = GpuBudget
  import R = GpuBudgetRuns
  import Q = GpuQueue
  import QR = GpuQueueRuns

  /**
   * `held` holds the epochs that tasks have read and not adopted yet; `allocatedUnder` and
   * `submittedUnder` record the token each id was minted for.
   */
  datatype System = System(
    coordinator: C.State,
    budget: B.State,
    queue: Q.State,
    issued: set<ScopeToken>,
    held: map<nat, U64>,
    allocatedUnder: map<B.AllocationId, ScopeToken>,
    submittedUnder: map<Q.CommandBufferId, ScopeToken>)

  datatype Action =
    | Issue(profileId: Uuid, mode: Mode)
    | Loss
    | Recover
    | ReadEpoch(task: nat)
    | AdoptBudget(task: nat)
    | AdoptQueue(task: nat)
    | OnBudget(op: R.Op)
    | Submit(token: ScopeToken)
    | Dequeue

  /** Both components are built from the coordinator, so they start on its epoch. */
  function Boot(capBytes: U64): System {
    System(C.INITIAL, B.Initial(capBytes, C.INITIAL.epoch), Q.Initial(C.INITIAL.epoch), {}, map[], map[], map[])
  }

  /** Tokens cannot be forged: a client presents one that was issued. A task adopts an epoch it has read. */
  predicate Legal(sys: System, a: Action) {
    match a
    case OnBudget(op) => !op.OpRecovery? && op.token in sys.issued
    case Submit(token) => token in sys.issued
    case AdoptBudget(task) => task in sys.held
    case AdoptQueue(task) => task in sys.held
    case _ => true
  }

  function Next(sys: System, a: Action): System {
    match a
    case Issue(p, mode) =>
      var r := C.Issue(sys.coordinator, p, mode);
      if r.Success? then sys.(issued := sys.issued + {r.value}) else sys
    case Loss => sys.(coordinator := C.AfterLoss(sys.coordinator))
    case Recover => sys.(coordinator := C.AfterRecovery(sys.coordinator))
    case ReadEpoch(task) => sys.(held := sys.held[task := sys.coordinator.epoch])
    case AdoptBudget(task) =>
      if task !in sys.held then sys
      else sys.(budget := B.StepRecovery(sys.budget, sys.held[task]), held := sys.held - {task})
    case AdoptQueue(task) =>
      if task !in sys.held then sys
      else sys.(queue := Q.StepRecovery(sys.queue, sys.held[task]), held := sys.held - {task})
    case OnBudget(op) =>
      var (budget, r) := R.Step(sys.budget, op);
      var under := if r.Allocated? && r.result.Success? && op.OpAllocate?
                   then sys.allocatedUnder[r.result.value := op.token] else sys.allocatedUnder;
      sys.(budget := budget, allocatedUnder := under)
    case Submit(token) =>
      var (queue, r) := Q.StepSubmit(sys.queue, token);
      sys.(queue := queue,
           submittedUnder := if r.Success? then sys.submittedUnder[r.value := token] else sys.submittedUnder)
    case Dequeue => sys.(queue := Q.StepDequeue(sys.queue).0)
  }

  function Run(sys: System, actions: seq<Action>): System
    decreases |actions|
  {
    if actions == [] then sys else Run(Next(sys, actions[0]), actions[1..])
  }

  predicate LegalRun(sys: System, actions: seq<Action>)
    decreases |actions|
  {
    actions == [] || (Legal(sys, actions[0]) && LegalRun(Next(sys, actions[0]), actions[1..]))
  }

  /** The counter `a` increments, if any, does not wrap. */
  predicate StepNoWrap(sys: System, a: Action) {
    match a
    case Recover => sys.coordinator.epoch + 1 < TWO_64
    case OnBudget(op) => op.OpAllocate? ==> sys.budget.nextId + 1 < TWO_64
    case Submit(_) => sys.queue.nextId + 1 < TWO_64
    case _ => true
  }

  /** No 64-bit counter wraps anywhere in the run. */
  predicate NoWrap(sys: System, actions: seq<Action>)
    decreases |actions|
  {
    actions == [] || (StepNoWrap(sys, actions[0]) && NoWrap(Next(sys, actions[0]), actions[1..]))
  }

  // ----------------------------------------------------------- invariant

  ghost predicate EpochsOrdered(sys: System) {
    && sys.budget.epoch <= sys.coordinator.epoch
    && sys.queue.epoch <= sys.coordinator.epoch
    && (forall token :: token in sys.issued ==> token.epoch <= sys.coordinator.epoch)
    && (forall task :: task in sys.held ==> sys.held[task] <= sys.coordinator.epoch)
  }

  /** Every live allocation was made with a token of the budget's epoch, by the identity that holds it. */
  ghost predicate AllocationsCurrent(sys: System) {
    forall p, id :: id in B.BucketOf(sys.budget, p).sizes ==>
      && id in sys.allocatedUnder
      && sys.allocatedUnder[id].profileId == p
      && sys.allocatedUnder[id].epoch == sys.budget.epoch
  }

  /** Every pending buffer was submitted with a token of the queue's epoch, by the identity it waits under. */
  ghost predicate BuffersCurrent(sys: System) {
    forall p, id :: id in Q.Pending(sys.queue, p) ==>
      && id in sys.submittedUnder
      && sys.submittedUnder[id].profileId == p
      && sys.submittedUnder[id].epoch == sys.queue.epoch
  }

  ghost predicate Inv(sys: System) {
    && B.Inv(sys.budget) && B.CapIsExact(sys.budget.capBytes)
    && Q.Inv(sys.queue) && QR.IdsUnique(sys.queue)
    && EpochsOrdered(sys)
    && AllocationsCurrent(sys)
    && BuffersCurrent(sys)
  }

  /** A budget operation adds at most the id it mints, under its own token. */
  lemma BudgetStepAdds(s: B.State, op: R.Op, p: Uuid, id: B.AllocationId)
    requires B.Inv(s) && B.CapIsExact(s.capBytes) && !op.OpRecovery?
    requires op.OpAllocate? ==> s.nextId + 1 < TWO_64
    requires id in B.BucketOf(R.Step(s, op).0, p).sizes
    ensures id in B.BucketOf(s, p).sizes
         || (op.OpAllocate? && op.token.profileId == p && op.token.epoch == s.epoch
             && R.Step(s, op).1.result == Success(id))
  {
    if op.token.profileId != p {
      R.OthersUntouched(s, op, p);
    } else if op.OpAllocate? && R.Admissible(s, op.token, op.size) {
      assert B.BucketInv(B.BucketOf(s, p), s.capBytes);
      R.AllocateSucceeds(s, op.token, op.size);
    }
  }

  /** A budget operation records at most the id it mints, and forgets nothing. */
  lemma BudgetStepRecords(sys: System, op: R.Op)
    requires !op.OpRecovery?
    ensures var sys', r := Next(sys, OnBudget(op)), R.Step(sys.budget, op).1;
      && sys'.budget == R.Step(sys.budget, op).0
      && (op.OpAllocate? && r.result.Success? ==>
            r.result.value in sys'.allocatedUnder && sys'.allocatedUnder[r.result.value] == op.token)
      && (forall id :: id in sys.allocatedUnder && id != sys.budget.nextId ==>
            id in sys'.allocatedUnder && sys'.allocatedUnder[id] == sys.allocatedUnder[id])
  {
    BudgetEpochFixed(sys.budget, op);
  }

  lemma BudgetStepKeepsCurrent(sys: System, op: R.Op)
    requires B.Inv(sys.budget) && B.CapIsExact(sys.budget.capBytes) && AllocationsCurrent(sys)
    requires StepNoWrap(sys, OnBudget(op)) && !op.OpRecovery?
    ensures AllocationsCurrent(Next(sys, OnBudget(op)))
  {
    var sys' := Next(sys, OnBudget(op));
    BudgetEpochFixed(sys.budget, op);
    BudgetStepRecords(sys, op);
    forall p, id | id in B.BucketOf(sys'.budget, p).sizes
      ensures id in sys'.allocatedUnder && sys'.allocatedUnder[id].profileId == p
           && sys'.allocatedUnder[id].epoch == sys'.budget.epoch
    {
      BudgetStepAdds(sys.budget, op, p, id);
      if id in B.BucketOf(sys.budget, p).sizes {
        assert id != sys.budget.nextId;
      }
    }
  }

  lemma BudgetStepKeepsInv(sys: System, op: R.Op)
    requires Inv(sys) && StepNoWrap(sys, OnBudget(op)) && Legal(sys, OnBudget(op))
    ensures Inv(Next(sys, OnBudget(op)))
  {
    R.StepKeepsInv(sys.budget, op);
    BudgetEpochFixed(sys.budget, op);
    BudgetStepKeepsCurrent(sys, op);
  }

  lemma BudgetEpochFixed(s: B.State, op: R.Op)
    requires !op.OpRecovery?
    ensures R.Step(s, op).0.epoch == s.epoch
    ensures op.OpAllocate? && R.Step(s, op).1.result.Success? ==> R.Step(s, op).1.result.value == s.nextId
  {
  }

  /** A queue operation adds at most the id it mints, under its own token. */
  lemma QueueStepAdds(s: Q.State, op: Q.Op, p: Uuid, id: Q.CommandBufferId)
    requires Q.Inv(s) && !op.OpRecovery?
    requires id in Q.Pending(Q.Step(s, op).0, p)
    ensures id in Q.Pending(s, p)
         || (op.OpSubmit? && op.token.profileId == p && op.token.epoch == s.epoch
             && Q.StepSubmit(s, op.token).1 == Success(id))
  {
    if op.OpDequeue? && s.scheduleOrder != [] {
      QR.DequeueServesFront(s);
    }
  }

  lemma QueueEpochFixed(s: Q.State, op: Q.Op)
    requires Q.Inv(s) && !op.OpRecovery?
    ensures Q.Step(s, op).0.epoch == s.epoch
    ensures op.OpSubmit? && Q.StepSubmit(s, op.token).1.Success? ==> Q.StepSubmit(s, op.token).1.value == s.nextId
  {
    if op.OpDequeue? && s.scheduleOrder != [] {
      assert Q.Backlogged(s, s.scheduleOrder[0]);
    }
  }

  lemma QueueStepKeepsCurrent(sys: System, a: Action, op: Q.Op)
    requires Q.Inv(sys.queue) && QR.IdsUnique(sys.queue) && BuffersCurrent(sys)
    requires op == (if a.Submit? then Q.OpSubmit(a.token) else Q.OpDequeue) && (a.Submit? || a.Dequeue?)
    ensures Next(sys, a).queue == Q.Step(sys.queue, op).0
    ensures BuffersCurrent(Next(sys, a))
  {
    QueueEpochFixed(sys.queue, op);
    var sys' := Next(sys, a);
    forall p, id | id in Q.Pending(sys'.queue, p)
      ensures id in sys'.submittedUnder && sys'.submittedUnder[id].profileId == p
           && sys'.submittedUnder[id].epoch == sys'.queue.epoch
    {
      QueueStepAdds(sys.queue, op, p, id);
    }
  }

  lemma QueueStepKeepsInv(sys: System, a: Action)
    requires Inv(sys) && StepNoWrap(sys, a) && Legal(sys, a) && (a.Submit? || a.Dequeue?)
    ensures Inv(Next(sys, a))
  {
    var op := if a.Submit? then Q.OpSubmit(a.token) else Q.OpDequeue;
    QueueStepKeepsCurrent(sys, a, op);
    Q.StepKeepsInv(sys.queue, op);
    QR.StepKeepsIdsUnique(sys.queue, op);
    QueueEpochFixed(sys.queue, op);
  }

  lemma StepKeepsInv(sys: System, a: Action)
    requires Inv(sys) && StepNoWrap(sys, a) && Legal(sys, a)
    ensures Inv(Next(sys, a))
    ensures sys.coordinator.epoch <= Next(sys, a).coordinator.epoch
  {
    match a
    case OnBudget(op) => BudgetStepKeepsInv(sys, op);
    case Submit(_) => QueueStepKeepsInv(sys, a);
    case Dequeue => QueueStepKeepsInv(sys, a);
    case _ =>
  }

  lemma BootInv(capBytes: U64)
    requires B.CapIsExact(capBytes)
    ensures Inv(Boot(capBytes))
  {
  }

  /**
   * Epoch safety, in every reachable state of the composed process: no component is ahead of the
   * coordinator, and everything live belongs to the component's current epoch and to the identity
   * whose token created it.
   */
  lemma {:induction false} EpochSafety(sys: System, actions: seq<Action>)
    requires Inv(sys) && LegalRun(sys, actions) && NoWrap(sys, actions)
    ensures Inv(Run(sys, actions))
    decreases |actions|
  {
    if actions == [] {
    } else {
      StepKeepsInv(sys, actions[0]);
      EpochSafety(Next(sys, actions[0]), actions[1..]);
    }
  }

  /** Without any assumption on the state: the same for every run from start-up, under any configured cap. */
  lemma EpochSafetyFromBoot(memoryCapMib: nat, actions: seq<Action>)
    requires var boot := Boot(B.CapFromConfig(memoryCapMib)); LegalRun(boot, actions) && NoWrap(boot, actions)
    ensures Inv(Run(Boot(B.CapFromConfig(memoryCapMib)), actions))
  {
    BootInv(B.CapFromConfig(memoryCapMib));
    EpochSafety(Boot(B.CapFromConfig(memoryCapMib)), actions);
  }

  /** The executor only ever gets a command of the current epoch, under its submitter's identity. */
  lemma DequeuedIsCurrent(sys: System, actions: seq<Action>)
    requires Inv(sys) && LegalRun(sys, actions) && NoWrap(sys, actions)
    ensures var end := Run(sys, actions);
      var c := Q.StepDequeue(end.queue).1;
      c.Some? ==>
        && c.value.bufferId in end.submittedUnder
        && c.value.epoch == end.queue.epoch
        && end.submittedUnder[c.value.bufferId].epoch == c.value.epoch
        && end.submittedUnder[c.value.bufferId].profileId == c.value.profileId
  {
    EpochSafety(sys, actions);
    var end := Run(sys, actions);
    if end.queue.scheduleOrder != [] {
      QR.DequeueServesFront(end.queue);
      var p := end.queue.scheduleOrder[0];
      assert Q.Pending(end.queue, p)[0] in Q.Pending(end.queue, p);
    }
  }
}
