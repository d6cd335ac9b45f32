/** The per-identity command queue: its state, its three steps and the class that performs them. */
module GpuQueue {
  import opened Common
  import opened GpuTypes

  type CommandBufferId = U64

  datatype QueueError = StaleToken

  datatype DequeuedCommand = DequeuedCommand(profileId: Uuid, mode: Mode, epoch: U64, bufferId: CommandBufferId)

  datatype IdentityQueue = IdentityQueue(mode: Mode, pending: seq<CommandBufferId>)

  datatype State = State(
    epoch: U64,
    nextId: U64,
    queues: map<Uuid, IdentityQueue>,
    scheduleOrder: seq<Uuid>)

  function Initial(epoch: U64): State {
    State(epoch, 1, map[], [])
  }

  /** The buffers waiting under identity `p`, oldest first. */
  function Pending(s: State, p: Uuid): seq<CommandBufferId> {
    if p in s.queues then s.queues[p].pending else []
  }

  predicate Backlogged(s: State, p: Uuid) {
    Pending(s, p) != []
  }

  /** The rotation lists exactly the identities with pending work, once each. */
  ghost predicate Inv(s: State) {
    && NoDuplicates(s.scheduleOrder)
    && forall p :: p in s.scheduleOrder <==> Backlogged(s, p)
  }

  function StepSubmit(s: State, token: ScopeToken): (State, Result<CommandBufferId, QueueError>) {
    if token.epoch != s.epoch then (s, Failure(StaleToken))
    else
      var queue := if token.profileId in s.queues then s.queues[token.profileId] else IdentityQueue(token.mode, []);
      var order := if queue.pending == [] then s.scheduleOrder + [token.profileId] else s.scheduleOrder;
      var queue' := queue.(pending := queue.pending + [s.nextId]);
      (State(s.epoch, WrappingIncrement(s.nextId), s.queues[token.profileId := queue'], order), Success(s.nextId))
  }

  function StepDequeue(s: State): (State, Option<DequeuedCommand>)
    decreases |s.scheduleOrder|
  {
    if s.scheduleOrder == [] then (s, None)
    else
      var p := s.scheduleOrder[0];
      var popped := s.(scheduleOrder := s.scheduleOrder[1..]);
      if Pending(s, p) == [] then StepDequeue(popped)
      else
        var rest := Pending(s, p)[1..];
        var order := if rest == [] then popped.scheduleOrder else popped.scheduleOrder + [p];
        (s.(queues := s.queues[p := s.queues[p].(pending := rest)], scheduleOrder := order),
         Some(DequeuedCommand(p, s.queues[p].mode, s.epoch, Pending(s, p)[0])))
  }

  function StepRecovery(s: State, newEpoch: U64): State {
    s.(epoch := newEpoch, queues := map[], scheduleOrder := [])
  }

  function PendingFor(s: State, token: ScopeToken): nat {
    if token.epoch != s.epoch then 0 else |Pending(s, token.profileId)|
  }

  class QueueScheduler {
    var epoch: U64
    var nextId: U64
    var queues: map<Uuid, IdentityQueue>
    var scheduleOrder: seq<Uuid>

    ghost function View(): State
      reads this
    {
      State(epoch, nextId, queues, scheduleOrder)
    }

    constructor (initialEpoch: U64)
      ensures View() == Initial(initialEpoch)
    {
      epoch, nextId, queues, scheduleOrder := initialEpoch, 1, map[], [];
    }

    method PendingCount(token: ScopeToken) returns (count: nat)
      ensures count == PendingFor(View(), token)
    {
      if token.epoch != epoch {
        return 0;
      }
      count := if token.profileId in queues then |queues[token.profileId].pending| else 0;
    }

    method Submit(token: ScopeToken) returns (r: Result<CommandBufferId, QueueError>)
      modifies this
      ensures (View(), r) == StepSubmit(old(View()), token)
    {
      if token.epoch != epoch {
        return Failure(StaleToken);
      }
      var id := nextId;
      nextId := WrappingIncrement(nextId);
      var p := token.profileId;
      if p !in queues {
        queues := queues[p := IdentityQueue(token.mode, [])];
      }
      var wasEmpty := queues[p].pending == [];
      queues := queues[p := queues[p].(pending := queues[p].pending + [id])];
      if wasEmpty {
        scheduleOrder := scheduleOrder + [p];
      }
      assert queues == StepSubmit(old(View()), token).0.queues;
      r := Success(id);
    }

    method Dequeue() returns (r: Option<DequeuedCommand>)
      modifies this
      ensures (View(), r) == StepDequeue(old(View()))
    {
      while scheduleOrder != []
        invariant StepDequeue(View()) == StepDequeue(old(View()))
        decreases |scheduleOrder|
      {
        var p := scheduleOrder[0];
        scheduleOrder := scheduleOrder[1..];
        if p !in queues || queues[p].pending == [] {
          continue;
        }
        var q := queues[p];
        var bufferId := q.pending[0];
        queues := queues[p := q.(pending := q.pending[1..])];
        if q.pending[1..] != [] {
          scheduleOrder := scheduleOrder + [p];
        }
        return Some(DequeuedCommand(p, q.mode, epoch, bufferId));
      }
      r := None;
    }

    method OnRecovery(newEpoch: U64)
      modifies this
      ensures View() == StepRecovery(old(View()), newEpoch)
    {
      epoch, queues, scheduleOrder := newEpoch, map[], [];
    }
  }

  // ---------------------------------------------------------------- runs

  datatype Op = OpSubmit(token: ScopeToken) | OpDequeue | OpRecovery(newEpoch: U64)

  datatype Event =
    | Submitted(token: ScopeToken, id: Result<CommandBufferId, QueueError>)
    | Dequeued(command: Option<DequeuedCommand>)
    | Recovered(newEpoch: U64)

  function Step(s: State, op: Op): (State, Event) {
    match op
    case OpSubmit(token) => var (s', r) := StepSubmit(s, token); (s', Submitted(token, r))
    case OpDequeue => var (s', c) := StepDequeue(s); (s', Dequeued(c))
    case OpRecovery(newEpoch) => (StepRecovery(s, newEpoch), Recovered(newEpoch))
  }

  /** The state after `ops`. */
  function Run(s: State, ops: seq<Op>): State
    decreases |ops|
  {
    if ops == [] then s else Run(Step(s, ops[0]).0, ops[1..])
  }

  /** What the callers of `ops` saw, one event per operation. */
  function Trace(s: State, ops: seq<Op>): seq<Event>
    decreases |ops|
  {
    if ops == [] then [] else [Step(s, ops[0]).1] + Trace(Step(s, ops[0]).0, ops[1..])
  }

  /** The answers of the `dequeue` calls of a trace, in order. */
  function Answers(trace: seq<Event>): seq<Option<DequeuedCommand>> {
    if trace == [] then []
    else (if trace[0].Dequeued? then [trace[0].command] else []) + Answers(trace[1..])
  }

  predicate WithinEpoch(ops: seq<Op>) {
    forall i :: 0 <= i < |ops| ==> !ops[i].OpRecovery?
  }

  lemma SubmitKeepsInv(s: State, token: ScopeToken)
    requires Inv(s)
    ensures Inv(StepSubmit(s, token).0)
  {
    var s' := StepSubmit(s, token).0;
    assert token.profileId in s.scheduleOrder <==> Backlogged(s, token.profileId);
    forall p ensures p in s'.scheduleOrder <==> Backlogged(s', p) {
      assert p in s.scheduleOrder <==> Backlogged(s, p);
    }
  }

  lemma DequeueKeepsInv(s: State)
    requires Inv(s)
    ensures Inv(StepDequeue(s).0)
  {
    if s.scheduleOrder != [] {
      var front := s.scheduleOrder[0];
      var s' := StepDequeue(s).0;
      assert Backlogged(s, front);
      assert s.scheduleOrder == [front] + s.scheduleOrder[1..];
      assert front !in s.scheduleOrder[1..];
      forall p ensures p in s'.scheduleOrder <==> Backlogged(s', p) {
        assert p in s.scheduleOrder <==> Backlogged(s, p);
      }
    }
  }

  lemma StepKeepsInv(s: State, op: Op)
    requires Inv(s)
    ensures Inv(Step(s, op).0)
  {
    match op
    case OpSubmit(token) => SubmitKeepsInv(s, token);
    case OpDequeue => DequeueKeepsInv(s);
    case OpRecovery(_) =>
  }

  /** The rotation invariant holds after every run, recoveries included. */
  lemma {:induction false} RunKeepsInv(s: State, ops: seq<Op>)
    requires Inv(s)
    ensures Inv(Run(s, ops))
    decreases |ops|
  {
    if ops == [] {
    } else {
      StepKeepsInv(s, ops[0]);
      RunKeepsInv(Step(s, ops[0]).0, ops[1..]);
    }
  }

  /** `dequeue` answers `None` exactly when nothing is pending anywhere. */
  lemma DequeueNoneIffIdle(s: State)
    requires Inv(s)
    ensures StepDequeue(s).1.None? <==> forall p :: !Backlogged(s, p)
  {
    if s.scheduleOrder != [] {
      assert Backlogged(s, s.scheduleOrder[0]);
    }
  }
}
