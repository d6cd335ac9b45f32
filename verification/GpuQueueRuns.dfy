/** Fairness, FIFO refinement and delivery, for every run of the command queue. */
module GpuQueueRuns {
  import opened Common
  import opened GpuTypes
  import opened GpuQueue

  // ------------------------------------------------------- bounded wait

  /** A submit never moves anybody who is already waiting in the rotation. */
  lemma SubmitOnlyAppends(s: State, token: ScopeToken)
    requires Inv(s)
    ensures s.scheduleOrder <= StepSubmit(s, token).0.scheduleOrder
    ensures forall p :: Pending(s, p) <= Pending(StepSubmit(s, token).0, p)
  {
  }

  /** One answer of `dequeue` from a state with waiting identities. */
  lemma DequeueServesFront(s: State)
    requires Inv(s) && s.scheduleOrder != []
    ensures var p := s.scheduleOrder[0];
      var (s', answer) := StepDequeue(s);
      && Backlogged(s, p)
      && answer == Some(DequeuedCommand(p, s.queues[p].mode, s.epoch, Pending(s, p)[0]))
      && Pending(s', p) == Pending(s, p)[1..]
      && (forall q :: q != p ==> Pending(s', q) == Pending(s, q))
      && s'.scheduleOrder == s.scheduleOrder[1..] + (if Backlogged(s', p) then [p] else [])
  {
    assert Backlogged(s, s.scheduleOrder[0]);
  }

  /** Whatever is submitted in between, the waiting identities are answered in rotation order. */
  lemma {:induction false} RotationServedInOrder(s: State, ops: seq<Op>, k: nat)
    requires Inv(s) && WithinEpoch(ops)
    requires k < |s.scheduleOrder| && k < |Answers(Trace(s, ops))|
    ensures var answer := Answers(Trace(s, ops))[k];
      answer.Some? && answer.value.profileId == s.scheduleOrder[k]
    decreases |ops|
  {
    var (s', e) := Step(s, ops[0]);
    StepKeepsInv(s, ops[0]);
    if ops[0].OpSubmit? {
      SubmitOnlyAppends(s, ops[0].token);
      RotationServedInOrder(s', ops[1..], k);
    } else {
      DequeueServesFront(s);
      if k > 0 {
        RotationServedInOrder(s', ops[1..], k - 1);
      }
    }
  }

  /**
   * The identity at index `k` of the rotation is served by exactly the (k+1)-th following
   * `dequeue`; the `k` earlier answers go to `k` distinct other identities.
   */
  lemma BoundedWait(s: State, ops: seq<Op>, p: Uuid, k: nat)
    requires Inv(s) && WithinEpoch(ops)
    requires k < |s.scheduleOrder| && s.scheduleOrder[k] == p
    requires k < |Answers(Trace(s, ops))|
    ensures var answers := Answers(Trace(s, ops));
      && (forall i :: 0 <= i <= k ==> answers[i].Some?)
      && answers[k].value.profileId == p
      && (forall i :: 0 <= i < k ==> answers[i].value.profileId != p)
      && (forall i, j :: 0 <= i < j < k ==> answers[i].value.profileId != answers[j].value.profileId)
  {
    var answers := Answers(Trace(s, ops));
    forall i | 0 <= i <= k
      ensures answers[i].Some? && answers[i].value.profileId == s.scheduleOrder[i]
    {
      RotationServedInOrder(s, ops, i);
    }
  }

  // ------------------------------------------------- pairwise fairness

  /** How often `p` was served. */
  function Served(trace: seq<Event>, p: Uuid): nat {
    if trace == [] then 0
    else
      (if trace[0].Dequeued? && trace[0].command.Some? && trace[0].command.value.profileId == p then 1 else 0)
      + Served(trace[1..], p)
  }

  /** Both identities have pending work before and after every step of the run. */
  predicate BothBacklogged(s: State, ops: seq<Op>, p: Uuid, q: Uuid)
    decreases |ops|
  {
    && Backlogged(s, p) && Backlogged(s, q)
    && (ops == [] || BothBacklogged(Step(s, ops[0]).0, ops[1..], p, q))
  }

  /** 1 when `p` stands before `q` in the rotation. */
  function Ahead(s: State, p: Uuid, q: Uuid): nat {
    if Position(s.scheduleOrder, p) < Position(s.scheduleOrder, q) then 1 else 0
  }

  lemma AheadAfterSubmit(s: State, token: ScopeToken, p: Uuid, q: Uuid)
    requires Inv(s) && Backlogged(s, p) && Backlogged(s, q)
    ensures Ahead(StepSubmit(s, token).0, p, q) == Ahead(s, p, q)
  {
    var s' := StepSubmit(s, token).0;
    SubmitOnlyAppends(s, token);
    PositionInExtension(s.scheduleOrder, s'.scheduleOrder, p);
    PositionInExtension(s.scheduleOrder, s'.scheduleOrder, q);
  }

  lemma PositionInExtension(order: seq<Uuid>, longer: seq<Uuid>, p: Uuid)
    requires order <= longer && p in order
    ensures Position(longer, p) == Position(order, p)
  {
    var i, j := Position(longer, p), Position(order, p);
    assert longer[j] == order[j] == p;
    assert forall m :: 0 <= m < j ==> longer[m] == order[m] && order[m] != p;
  }

  lemma AheadAfterDequeue(s: State, p: Uuid, q: Uuid)
    requires Inv(s) && p != q
    requires Backlogged(s, p) && Backlogged(s, q)
    requires Backlogged(StepDequeue(s).0, p) && Backlogged(StepDequeue(s).0, q)
    ensures var (s', c) := StepDequeue(s);
      && c.Some?
      && (if c.value.profileId == p then 1 else 0) - (if c.value.profileId == q then 1 else 0)
         == Ahead(s, p, q) - Ahead(s', p, q)
  {
    assert p in s.scheduleOrder && q in s.scheduleOrder;
    DequeueServesFront(s);
    var (s', _) := StepDequeue(s);
    RotatedPosition(s, s', p);
    RotatedPosition(s, s', q);
  }

  /** A served identity that stays backlogged goes last, everybody else moves up by one. */
  lemma RotatedPosition(s: State, s': State, p: Uuid)
    requires Inv(s) && p in s.scheduleOrder && s' == StepDequeue(s).0 && Backlogged(s', p)
    ensures Position(s'.scheduleOrder, p)
         == if p == s.scheduleOrder[0] then |s.scheduleOrder| - 1 else Position(s.scheduleOrder, p) - 1
  {
    DequeueServesFront(s);
    var front, tail := s.scheduleOrder[0], s.scheduleOrder[1..];
    assert s.scheduleOrder == [front] + tail;
    assert front !in tail;
    if p == front {
      PositionOfAppend(tail, [p], p);
    } else {
      PositionInExtension(tail, s'.scheduleOrder, p);
    }
  }

  /**
   * Service counts of two backlogged identities differ by exactly the change of their relative
   * order in the rotation.
   */
  lemma {:induction false} ServiceBalance(s: State, ops: seq<Op>, p: Uuid, q: Uuid)
    requires Inv(s) && WithinEpoch(ops) && p != q && BothBacklogged(s, ops, p, q)
    ensures Served(Trace(s, ops), p) - Served(Trace(s, ops), q) == Ahead(s, p, q) - Ahead(Run(s, ops), p, q)
    decreases |ops|
  {
    if ops == [] {
    } else {
      var (s', e) := Step(s, ops[0]);
      StepKeepsInv(s, ops[0]);
      ServiceBalance(s', ops[1..], p, q);
      assert Trace(s, ops)[1..] == Trace(s', ops[1..]);
      if ops[0].OpSubmit? {
        AheadAfterSubmit(s, ops[0].token, p, q);
      } else {
        AheadAfterDequeue(s, p, q);
      }
    }
  }

  /** Neither of two backlogged identities can get more than one turn ahead of the other. */
  lemma PairwiseFairness(s: State, ops: seq<Op>, p: Uuid, q: Uuid)
    requires Inv(s) && WithinEpoch(ops) && p != q && BothBacklogged(s, ops, p, q)
    ensures -1 <= Served(Trace(s, ops), p) - Served(Trace(s, ops), q) <= 1
  {
    ServiceBalance(s, ops, p, q);
  }

  // ------------------------------------------------------- drain bound

  predicate RotationWithin(s: State, ops: seq<Op>, n: nat)
    decreases |ops|
  {
    |s.scheduleOrder| <= n && (ops == [] || RotationWithin(Step(s, ops[0]).0, ops[1..], n))
  }

  /** `rounds` full turns of a rotation of `n` identities. */
  function Turns(rounds: nat, n: nat): nat {
    if rounds == 0 then 0 else n + Turns(rounds - 1, n)
  }

  lemma {:induction false} TurnsIsProduct(rounds: nat, n: nat)
    ensures Turns(rounds, n) == rounds * n
  {
    if rounds == 0 {
    } else {
      TurnsIsProduct(rounds - 1, n);
      assert rounds * n == (rounds - 1) * n + n;
    }
  }

  /** Where the buffer at (`k`, `depth`) stands after a `dequeue` that serves some other buffer. */
  lemma DequeueMovesBuffer(s: State, n: nat, k: nat, depth: nat) returns (k': nat, depth': nat)
    requires Inv(s) && k < |s.scheduleOrder| <= n && depth < |Pending(s, s.scheduleOrder[k])|
    requires k > 0 || depth > 0
    ensures var s', p := StepDequeue(s).0, s.scheduleOrder[k];
      && k' < |s'.scheduleOrder| && s'.scheduleOrder[k'] == p
      && depth' < |Pending(s', p)| && Pending(s', p)[depth'] == Pending(s, p)[depth]
    ensures k' + Turns(depth', n) < k + Turns(depth, n)
  {
    DequeueServesFront(s);
    var s', p := StepDequeue(s).0, s.scheduleOrder[k];
    if k > 0 {
      k', depth' := k - 1, depth;
    } else {
      assert Backlogged(s', p);
      k', depth' := |s'.scheduleOrder| - 1, depth - 1;
    }
  }

  lemma {:induction false} DrainWithinTurns(s: State, ops: seq<Op>, n: nat, k: nat, depth: nat)
    returns (at: nat)
    requires Inv(s) && WithinEpoch(ops) && RotationWithin(s, ops, n)
    requires k < |s.scheduleOrder| && depth < |Pending(s, s.scheduleOrder[k])|
    requires |Answers(Trace(s, ops))| > k + Turns(depth, n)
    ensures at <= k + Turns(depth, n)
    ensures var answer := Answers(Trace(s, ops))[at];
      && answer.Some?
      && answer.value.profileId == s.scheduleOrder[k]
      && answer.value.bufferId == Pending(s, s.scheduleOrder[k])[depth]
    decreases |ops|
  {
    StepKeepsInv(s, ops[0]);
    var s' := Step(s, ops[0]).0;
    if ops[0].OpSubmit? {
      SubmitOnlyAppends(s, ops[0].token);
      assert Pending(s, s.scheduleOrder[k]) <= Pending(s', s.scheduleOrder[k]);
      at := DrainWithinTurns(s', ops[1..], n, k, depth);
    } else if k == 0 && depth == 0 {
      DequeueServesFront(s);
      at := 0;
    } else {
      var k', depth' := DequeueMovesBuffer(s, n, k, depth);
      var next := DrainWithinTurns(s', ops[1..], n, k', depth');
      at := next + 1;
    }
  }

  /**
   * With at most `n` identities in rotation, the buffer at depth `depth` of the identity at index
   * `k` leaves within `k + 1 + depth * n` calls of `dequeue`.
   */
  lemma DrainBound(s: State, ops: seq<Op>, n: nat, k: nat, depth: nat)
    requires Inv(s) && WithinEpoch(ops) && RotationWithin(s, ops, n)
    requires k < |s.scheduleOrder| && depth < |Pending(s, s.scheduleOrder[k])|
    requires |Answers(Trace(s, ops))| >= k + 1 + depth * n
    ensures exists at | 0 <= at < k + 1 + depth * n :: (
      && Answers(Trace(s, ops))[at].Some?
      && Answers(Trace(s, ops))[at].value.profileId == s.scheduleOrder[k]
      && Answers(Trace(s, ops))[at].value.bufferId == Pending(s, s.scheduleOrder[k])[depth])
  {
    TurnsIsProduct(depth, n);
    var at := DrainWithinTurns(s, ops, n, k, depth);
    assert Answers(Trace(s, ops))[at].Some?;
  }

  // ---------------------------------------------------- FIFO refinement

  /** The ids minted for `p`, in order of submission. */
  function SubmittedBy(trace: seq<Event>, p: Uuid): seq<CommandBufferId> {
    if trace == [] then []
    else
      (if trace[0].Submitted? && trace[0].id.Success? && trace[0].token.profileId == p then [trace[0].id.value] else [])
      + SubmittedBy(trace[1..], p)
  }

  /** The ids handed to the executor under `p`, in order. */
  function DequeuedFor(trace: seq<Event>, p: Uuid): seq<CommandBufferId> {
    if trace == [] then []
    else
      (if trace[0].Dequeued? && trace[0].command.Some? && trace[0].command.value.profileId == p
       then [trace[0].command.value.bufferId] else [])
      + DequeuedFor(trace[1..], p)
  }

  lemma HistoryCons(e: Event, rest: seq<Event>, p: Uuid)
    ensures DequeuedFor([e] + rest, p) == DequeuedFor([e], p) + DequeuedFor(rest, p)
    ensures SubmittedBy([e] + rest, p) == SubmittedBy([e], p) + SubmittedBy(rest, p)
  {
    assert ([e] + rest)[1..] == rest;
    assert [e][1..] == [];
  }

  lemma FifoStep(s: State, op: Op, p: Uuid)
    requires Inv(s) && !op.OpRecovery?
    ensures var (s', e) := Step(s, op);
      DequeuedFor([e], p) + Pending(s', p) == Pending(s, p) + SubmittedBy([e], p)
  {
    var (s', e) := Step(s, op);
    if op.OpDequeue? && s.scheduleOrder != [] {
      DequeueServesFront(s);
    }
  }

  /**
   * Each identity sees its own FIFO and nothing else: what left plus what is still pending is what
   * was pending plus what was submitted, in order.
   */
  lemma {:induction false} RefinesFifo(s: State, ops: seq<Op>, p: Uuid)
    requires Inv(s) && WithinEpoch(ops)
    ensures var trace := Trace(s, ops);
      DequeuedFor(trace, p) + Pending(Run(s, ops), p) == Pending(s, p) + SubmittedBy(trace, p)
    decreases |ops|
  {
    if ops == [] {
    } else {
      var (s', e) := Step(s, ops[0]);
      var rest := Trace(s', ops[1..]);
      StepKeepsInv(s, ops[0]);
      FifoStep(s, ops[0], p);
      RefinesFifo(s', ops[1..], p);
      assert Trace(s, ops) == [e] + rest;
      HistoryCons(e, rest, p);
      Splice(DequeuedFor([e], p), Pending(s', p), Pending(s, p), SubmittedBy([e], p),
             DequeuedFor(rest, p), Pending(Run(s, ops), p), SubmittedBy(rest, p));
    }
  }

  lemma Splice<T>(out: seq<T>, mid: seq<T>, start: seq<T>, into: seq<T>, out': seq<T>, end: seq<T>, into': seq<T>)
    requires out + mid == start + into && out' + end == mid + into'
    ensures (out + out') + end == start + (into + into')
  {
    assert (out + out') + end == out + (out' + end);
    assert out + (mid + into') == (out + mid) + into';
    assert (start + into) + into' == start + (into + into');
  }

  // -------------------------------------------------- delivered at most once

  /** Pending ids are below the counter, and no id waits in two places. */
  ghost predicate IdsUnique(s: State) {
    && (forall p :: NoDuplicates(Pending(s, p)))
    && (forall p, id :: id in Pending(s, p) ==> id < s.nextId)
    && (forall p, q, id :: id in Pending(s, p) && id in Pending(s, q) ==> p == q)
  }

  function Mints(ops: seq<Op>): nat {
    if ops == [] then 0 else (if ops[0].OpSubmit? then 1 else 0) + Mints(ops[1..])
  }

  /** Fewer than 2^64 ids are minted, so the wrapping counter never wraps. */
  predicate NoWrap(s: State, ops: seq<Op>) {
    s.nextId + Mints(ops) < TWO_64
  }

  /** A submit adds nothing but the id it mints, to its own identity's queue. */
  lemma SubmitAddsMinted(s: State, token: ScopeToken, p: Uuid, id: CommandBufferId)
    requires id in Pending(StepSubmit(s, token).0, p)
    ensures id in Pending(s, p) || (id == s.nextId && p == token.profileId && token.epoch == s.epoch)
  {
  }

  lemma SubmitKeepsIdsUnique(s: State, token: ScopeToken)
    requires IdsUnique(s) && s.nextId + 1 < TWO_64
    ensures IdsUnique(StepSubmit(s, token).0)
    ensures s.nextId <= StepSubmit(s, token).0.nextId <= s.nextId + 1
  {
    var s' := StepSubmit(s, token).0;
    forall p ensures NoDuplicates(Pending(s', p)) {
      assert s.nextId !in Pending(s, p);
    }
    forall p, id | id in Pending(s', p)
      ensures id in Pending(s, p) || (id == s.nextId && p == token.profileId && token.epoch == s.epoch)
    {
      SubmitAddsMinted(s, token, p, id);
    }
  }

  /** A dequeue adds nothing anywhere. */
  lemma DequeueOnlyRemoves(s: State, p: Uuid)
    requires Inv(s)
    ensures StepDequeue(s).0.nextId == s.nextId
    ensures var left := Pending(StepDequeue(s).0, p);
      && (left == Pending(s, p) || (Pending(s, p) != [] && left == Pending(s, p)[1..]))
      && (forall id :: id in left ==> id in Pending(s, p))
      && (NoDuplicates(Pending(s, p)) ==> NoDuplicates(left))
  {
    if s.scheduleOrder != [] {
      DequeueServesFront(s);
    }
  }

  lemma DequeueKeepsIdsUnique(s: State)
    requires Inv(s) && IdsUnique(s)
    ensures IdsUnique(StepDequeue(s).0) && StepDequeue(s).0.nextId == s.nextId
  {
    var s' := StepDequeue(s).0;
    forall p ensures NoDuplicates(Pending(s', p)) && forall id :: id in Pending(s', p) ==> id in Pending(s, p) {
      DequeueOnlyRemoves(s, p);
    }
    DequeueOnlyRemoves(s, Uuid(0));
  }

  lemma StepKeepsIdsUnique(s: State, op: Op)
    requires Inv(s) && IdsUnique(s) && (op.OpSubmit? ==> s.nextId + 1 < TWO_64)
    ensures IdsUnique(Step(s, op).0)
    ensures s.nextId <= Step(s, op).0.nextId <= s.nextId + (if op.OpSubmit? then 1 else 0)
  {
    match op
    case OpSubmit(token) => SubmitKeepsIdsUnique(s, token);
    case OpDequeue => DequeueKeepsIdsUnique(s);
    case OpRecovery(_) =>
  }

  /** A dequeued buffer was pending under the identity it is handed out for, and is pending nowhere afterwards. */
  lemma DequeueTakesPending(s: State)
    requires Inv(s) && IdsUnique(s) && StepDequeue(s).1.Some?
    ensures var (s', c) := StepDequeue(s);
      && c.value.bufferId in Pending(s, c.value.profileId)
      && (forall p, id :: id in Pending(s', p) ==> id in Pending(s, p) && id != c.value.bufferId)
  {
    DequeueServesFront(s);
    var s', p := StepDequeue(s).0, s.scheduleOrder[0];
    assert Pending(s, p) == [Pending(s, p)[0]] + Pending(s', p);
    assert Pending(s, p)[0] !in Pending(s', p);
  }

  /** The buffer was pending under `p` at the start, or is minted for `p` during the run. */
  predicate HasOrigin(s: State, ops: seq<Op>, p: Uuid, id: CommandBufferId) {
    id in Pending(s, p) || (id >= s.nextId && id in SubmittedBy(Trace(s, ops), p))
  }

  lemma OriginOneEarlier(s: State, ops: seq<Op>, p: Uuid, id: CommandBufferId)
    requires Inv(s) && IdsUnique(s) && NoWrap(s, ops) && ops != []
    requires HasOrigin(Step(s, ops[0]).0, ops[1..], p, id)
    ensures HasOrigin(s, ops, p, id)
  {
    var (s', e) := Step(s, ops[0]);
    StepKeepsIdsUnique(s, ops[0]);
    HistoryCons(e, Trace(s', ops[1..]), p);
    if id in Pending(s', p) {
      match ops[0]
      case OpSubmit(token) => SubmitAddsMinted(s, token, p, id);
      case OpDequeue => DequeueOnlyRemoves(s, p);
      case OpRecovery(_) =>
    }
  }

  /** Every answer of a run was pending at the start under that identity, or minted for it during the run. */
  lemma {:induction false} AnswersComeFromPending(s: State, ops: seq<Op>, i: nat)
    requires Inv(s) && IdsUnique(s) && NoWrap(s, ops)
    requires i < |Answers(Trace(s, ops))| && Answers(Trace(s, ops))[i].Some?
    ensures var c := Answers(Trace(s, ops))[i].value; HasOrigin(s, ops, c.profileId, c.bufferId)
    decreases |ops|
  {
    var s' := Step(s, ops[0]).0;
    StepKeepsInv(s, ops[0]);
    StepKeepsIdsUnique(s, ops[0]);
    if ops[0].OpDequeue? && i == 0 {
      DequeueTakesPending(s);
    } else {
      var later := if ops[0].OpDequeue? then i - 1 else i;
      AnswersComeFromPending(s', ops[1..], later);
      var c := Answers(Trace(s', ops[1..]))[later].value;
      OriginOneEarlier(s, ops, c.profileId, c.bufferId);
    }
  }

  /** No buffer is ever handed out twice, under any identity, across recoveries too. */
  lemma {:induction false} DeliveredAtMostOnce(s: State, ops: seq<Op>, i: nat, j: nat)
    requires Inv(s) && IdsUnique(s) && NoWrap(s, ops)
    requires i < j < |Answers(Trace(s, ops))|
    requires Answers(Trace(s, ops))[i].Some? && Answers(Trace(s, ops))[j].Some?
    ensures Answers(Trace(s, ops))[i].value.bufferId != Answers(Trace(s, ops))[j].value.bufferId
    decreases |ops|
  {
    var (s', e) := Step(s, ops[0]);
    StepKeepsInv(s, ops[0]);
    StepKeepsIdsUnique(s, ops[0]);
    if !ops[0].OpDequeue? {
      DeliveredAtMostOnce(s', ops[1..], i, j);
    } else if i > 0 {
      DeliveredAtMostOnce(s', ops[1..], i - 1, j - 1);
    } else {
      AnswersComeFromPending(s', ops[1..], j - 1);
      DequeueTakesPending(s);
    }
  }

  // -------------------------------------------------------------- mode

  /** The mode of the first token accepted for `p` in the trace. */
  function FirstMode(trace: seq<Event>, p: Uuid): Option<Mode> {
    if trace == [] then None
    else if trace[0].Submitted? && trace[0].id.Success? && trace[0].token.profileId == p
    then Some(trace[0].token.mode)
    else FirstMode(trace[1..], p)
  }

  lemma SubmitKeepsModes(s: State, token: ScopeToken)
    ensures var s', p := StepSubmit(s, token).0, token.profileId;
      && (forall q :: q in s.queues ==> q in s'.queues && s'.queues[q].mode == s.queues[q].mode)
      && (token.epoch == s.epoch ==> p in s'.queues && (p in s.queues || s'.queues[p].mode == token.mode))
      && (forall q :: q in s'.queues ==> q in s.queues || (q == p && token.epoch == s.epoch))
  {
  }

  lemma DequeueKeepsModes(s: State)
    requires Inv(s)
    ensures var (s', c) := StepDequeue(s);
      && s'.queues.Keys == s.queues.Keys
      && (forall p :: p in s.queues ==> s'.queues[p].mode == s.queues[p].mode)
      && (c.Some? ==> c.value.profileId in s.queues && c.value.mode == s.queues[c.value.profileId].mode)
  {
    if s.scheduleOrder != [] {
      assert Backlogged(s, s.scheduleOrder[0]);
    }
  }

  /**
   * A command carries the mode its identity's queue was opened with, which is the first accepted
   * token's, not the mode of the token the buffer itself was submitted with.
   */
  lemma {:induction false} ModeIsFirstTokens(s: State, ops: seq<Op>, i: nat)
    requires Inv(s) && WithinEpoch(ops)
    requires i < |Answers(Trace(s, ops))| && Answers(Trace(s, ops))[i].Some?
    ensures var c := Answers(Trace(s, ops))[i].value;
      if c.profileId in s.queues then c.mode == s.queues[c.profileId].mode
      else FirstMode(Trace(s, ops), c.profileId) == Some(c.mode)
    decreases |ops|
  {
    var (s', e) := Step(s, ops[0]);
    StepKeepsInv(s, ops[0]);
    if ops[0].OpSubmit? {
      SubmitKeepsModes(s, ops[0].token);
      ModeIsFirstTokens(s', ops[1..], i);
    } else {
      DequeueKeepsModes(s);
      if i > 0 {
        ModeIsFirstTokens(s', ops[1..], i - 1);
      }
    }
  }

  /**
   * Once a submit has been accepted, the commands handed out for its identity up to the next
   * recovery carry its token's mode exactly when no queue was open yet or one of that mode was.
   */
  lemma ModeKeptIff(s: State, token: ScopeToken, ops: seq<Op>, i: nat)
    requires Inv(s) && token.epoch == s.epoch && WithinEpoch(ops)
    requires var answers := Answers(Trace(StepSubmit(s, token).0, ops));
      i < |answers| && answers[i].Some? && answers[i].value.profileId == token.profileId
    ensures Answers(Trace(StepSubmit(s, token).0, ops))[i].value.mode == token.mode
       <==> token.profileId !in s.queues || s.queues[token.profileId].mode == token.mode
  {
    SubmitKeepsInv(s, token);
    SubmitKeepsModes(s, token);
    ModeIsFirstTokens(StepSubmit(s, token).0, ops, i);
  }

  /** So a buffer submitted under a Strict token can be executed as Standard. */
  lemma ModeOfOwnTokenLost(p: Uuid, epoch: U64)
    ensures var s1 := StepSubmit(Initial(epoch), ScopeToken(p, Standard, epoch)).0;
      var (s2, second) := StepSubmit(s1, ScopeToken(p, Strict, epoch));
      && second == Success(2)
      && StepDequeue(StepDequeue(s2).0).1 == Some(DequeuedCommand(p, Standard, epoch, 2))
  {
    var s1 := StepSubmit(Initial(epoch), ScopeToken(p, Standard, epoch)).0;
    var s2 := StepSubmit(s1, ScopeToken(p, Strict, epoch)).0;
    assert Pending(s2, p) == [1, 2] && s2.scheduleOrder == [p];
    assert Pending(StepDequeue(s2).0, p) == [2] && StepDequeue(s2).0.scheduleOrder == [p];
  }

  // ------------------------------------------------------------- answers

  /** A submit is accepted if and only if its token is of the scheduler's epoch; a refused one changes nothing. */
  lemma SubmitAnswer(s: State, token: ScopeToken)
    ensures var (s', r) := StepSubmit(s, token);
      && r == (if token.epoch == s.epoch then Success(s.nextId) else Failure(StaleToken))
      && (r.Failure? ==> s' == s)
      && (r.Success? ==> Pending(s', token.profileId) == Pending(s, token.profileId) + [s.nextId])
  {
  }

  lemma {:induction false} EpochStays(s: State, ops: seq<Op>)
    requires Inv(s) && WithinEpoch(ops)
    ensures Run(s, ops).epoch == s.epoch
    decreases |ops|
  {
    if ops == [] {
    } else {
      StepKeepsInv(s, ops[0]);
      if ops[0].OpDequeue? && s.scheduleOrder != [] {
        assert Backlogged(s, s.scheduleOrder[0]);
      }
      EpochStays(Step(s, ops[0]).0, ops[1..]);
    }
  }

  /**
   * `pending_for` counts: in every run within an epoch it answers, for a current token, what was pending
   * plus the submits accepted for the identity less the commands handed out for it, and 0 for a stale one.
   */
  lemma PendingForCounts(s: State, ops: seq<Op>, token: ScopeToken)
    requires Inv(s) && WithinEpoch(ops)
    ensures var trace, p := Trace(s, ops), token.profileId;
      PendingFor(Run(s, ops), token)
      == if token.epoch != s.epoch then 0
         else |Pending(s, p)| + |SubmittedBy(trace, p)| - |DequeuedFor(trace, p)|
  {
    EpochStays(s, ops);
    RefinesFifo(s, ops, token.profileId);
    var out, left := DequeuedFor(Trace(s, ops), token.profileId), Pending(Run(s, ops), token.profileId);
    assert |out + left| == |out| + |left|;
  }
}
