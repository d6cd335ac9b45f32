/** What each call on the memory budget answers, and which allocations a history leaves live. */
module GpuBudgetLife {
  import opened Common
  import opened GpuTypes
  import opened GpuBudget
  import opened GpuBudgetRuns

  // ------------------------------------------------------------- answers

  /** `id` is live under `p`. */
  predicate Live(s: State, p: Uuid, id: AllocationId) {
    id in BucketOf(s, p).sizes
  }

  function SizeOf(s: State, p: Uuid, id: AllocationId): U64
    requires Live(s, p, id)
  {
    BucketOf(s, p).sizes[id]
  }

  /** Why an allocation is refused; the checks come in this order. */
  lemma AllocateAnswer(s: State, token: ScopeToken, size: U64)
    requires Inv(s) && CapIsExact(s.capBytes) && s.nextId + 1 < TWO_64
    ensures var (s', r) := Step(s, OpAllocate(token, size));
      && (size == 0 ==> r.result == Failure(ZeroSize))
      && (size > s.capBytes ==> r.result == Failure(OverCap))
      && (0 < size <= s.capBytes && token.epoch != s.epoch ==> r.result == Failure(StaleToken))
      && (0 < size <= s.capBytes && token.epoch == s.epoch ==>
            && r.result == Success(s.nextId)
            && Live(s', token.profileId, s.nextId) && SizeOf(s', token.profileId, s.nextId) == size)
      && (r.result.Failure? ==> s' == s && r.victims == [])
  {
    if Admissible(s, token, size) {
      AllocateSucceeds(s, token, size);
    }
  }

  /** A current token releases exactly what is live: the bytes come back and nothing else changes. */
  lemma ReleaseFrees(s: State, token: ScopeToken, id: AllocationId)
    requires Inv(s) && token.epoch == s.epoch && Live(s, token.profileId, id)
    ensures var p, (s', r) := token.profileId, Step(s, OpRelease(token, id));
      && r == Released(Success(()))
      && !Live(s', p, id) && id !in BucketOf(s', p).lru
      && UsedBytes(s', token) == UsedBytes(s, token) - SizeOf(s, p, id)
      && (forall other :: other != id ==> (Live(s', p, other) <==> Live(s, p, other)))
      && (forall other :: Live(s', p, other) ==> SizeOf(s', p, other) == SizeOf(s, p, other))
      && Step(s', OpRelease(token, id)).1 == Released(Failure(UnknownAllocation))
  {
    var b := BucketOf(s, token.profileId);
    SumSplit(b.sizes, id);
    WithoutKeepsOthers(b.lru, id);
  }

  /** A touch changes which allocation is evicted next, and no allocation's size. */
  lemma TouchOnlyReorders(s: State, token: ScopeToken, id: AllocationId)
    requires Inv(s) && token.epoch == s.epoch && Live(s, token.profileId, id)
    ensures var p, (s', r) := token.profileId, Step(s, OpTouch(token, id));
      && r == Touched(Success(()))
      && BucketOf(s', p).sizes == BucketOf(s, p).sizes && UsedBytes(s', token) == UsedBytes(s, token)
      && BucketOf(s', p).lru != [] && BucketOf(s', p).lru[|BucketOf(s', p).lru| - 1] == id
  {
  }

  /** A stale token and an id that is not live under the token's identity are told apart, and change nothing. */
  lemma RefusalsChangeNothing(s: State, token: ScopeToken, id: AllocationId)
    requires token.epoch != s.epoch || !Live(s, token.profileId, id)
    ensures var why := if token.epoch != s.epoch then StaleToken else UnknownAllocation;
      && Step(s, OpTouch(token, id)) == (s, Touched(Failure(why)))
      && Step(s, OpRelease(token, id)) == (s, Released(Failure(why)))
  {
  }

  /** What `used_bytes` reports is what the identity's live allocations add up to. */
  lemma UsedIsTotal(s: State, token: ScopeToken)
    requires Inv(s)
    ensures Step(s, OpUsed(token)).0 == s
    ensures Step(s, OpUsed(token)).1
         == Reported(if token.epoch == s.epoch then Sum(BucketOf(s, token.profileId).sizes) else 0)
  {
    assert Sum(map[]) == 0;
  }

  // ------------------------------------------------------------- history

  /** What the callers of `ops` were answered. */
  function History(s: State, ops: seq<Op>): (h: seq<Response>)
    ensures |h| == |ops|
    decreases |ops|
  {
    if ops == [] then []
    else
      var front := ops[..|ops| - 1];
      History(s, front) + [Step(Run(s, front), ops[|ops| - 1]).1]
  }

  lemma {:induction false} RunLast(s: State, ops: seq<Op>)
    requires ops != []
    ensures Run(s, ops) == Step(Run(s, ops[..|ops| - 1]), ops[|ops| - 1]).0
    ensures Mints(ops) == Mints(ops[..|ops| - 1]) + (if ops[|ops| - 1].OpAllocate? then 1 else 0)
    decreases |ops|
  {
    var front := ops[..|ops| - 1];
    if |ops| == 1 {
      assert front == [] && ops[1..] == [];
    } else {
      RunLast(Step(s, ops[0]).0, ops[1..]);
      assert front[1..] == ops[1..][..|ops| - 2];
    }
  }

  /** The call that gave `p` the allocation `id`. */
  predicate Grants(op: Op, r: Response, p: Uuid, id: AllocationId) {
    op.OpAllocate? && op.token.profileId == p && r.Allocated? && r.result == Success(id)
  }

  /** A release of `id` by `p`, an allocation of `p` that evicted it, or a recovery. */
  predicate Ends(op: Op, r: Response, p: Uuid, id: AllocationId) {
    match op
    case OpRelease(token, released) => token.profileId == p && released == id && r == Released(Success(()))
    case OpAllocate(token, _) => token.profileId == p && r.Allocated? && id in r.victims
    case OpRecovery(_) => true
    case _ => false
  }

  /** Call `i` granted `id` to `p`, and nothing has ended it since. */
  predicate Stands(ops: seq<Op>, h: seq<Response>, i: int, p: Uuid, id: AllocationId) {
    && |h| == |ops| && 0 <= i < |ops| && Grants(ops[i], h[i], p, id)
    && forall j :: i < j < |ops| ==> !Ends(ops[j], h[j], p, id)
  }

  /** The live allocations are those that stand, at the size they were asked for. */
  ghost predicate LiveAsTold(s: State, ops: seq<Op>, h: seq<Response>) {
    && (forall p, id :: Live(s, p, id) ==> exists i :: Stands(ops, h, i, p, id))
    && (forall p, id, i :: Stands(ops, h, i, p, id) ==> Live(s, p, id) && SizeOf(s, p, id) == ops[i].size)
  }

  /** Eviction takes the victims away and leaves the other sizes alone. */
  lemma {:induction false} EvictTakesVictims(b: Bucket, size: U64, cap: U64)
    ensures var rest := Evict(b, size, cap).0;
      && (forall id :: id in rest.sizes <==> id in b.sizes && id !in Victims(b, size, cap))
      && (forall id :: id in rest.sizes ==> rest.sizes[id] == b.sizes[id])
    ensures forall id :: id in Victims(b, size, cap) ==> id in b.lru
    decreases |b.lru|
  {
    if SaturatingAdd(b.usedBytes, size) <= cap || b.lru == [] {
    } else {
      EvictTakesVictims(EvictOne(b), size, cap);
    }
  }

  /** What one call does to one allocation, read off its answer. */
  lemma StepLive(s: State, op: Op, p: Uuid, id: AllocationId)
    requires Inv(s) && CapIsExact(s.capBytes) && (op.OpAllocate? ==> s.nextId + 1 < TWO_64)
    ensures var (s', r) := Step(s, op);
      && (Live(s', p, id) <==> Grants(op, r, p, id) || (Live(s, p, id) && !Ends(op, r, p, id)))
      && (Grants(op, r, p, id) ==> !Live(s, p, id) && SizeOf(s', p, id) == op.size)
      && (Live(s, p, id) && !Ends(op, r, p, id) ==> SizeOf(s', p, id) == SizeOf(s, p, id))
  {
    if Actor(op).Some? && Actor(op).value != p {
      OthersUntouched(s, op, p);
    } else {
      match op
      case OpAllocate(token, size) =>
        AllocateAnswer(s, token, size);
        EvictTakesVictims(BucketOf(s, p), size, s.capBytes);
      case _ =>
    }
  }

  lemma StandsExtended(ops: seq<Op>, h: seq<Response>, op: Op, r: Response, i: int, p: Uuid, id: AllocationId)
    requires |h| == |ops|
    ensures Stands(ops + [op], h + [r], i, p, id)
       <==> if i == |ops| then Grants(op, r, p, id) else Stands(ops, h, i, p, id) && !Ends(op, r, p, id)
  {
    var longer, h' := ops + [op], h + [r];
    assert longer[|ops|] == op && h'[|ops|] == r;
    assert forall j :: 0 <= j < |ops| ==> longer[j] == ops[j] && h'[j] == h[j];
  }

  lemma StepAsTold(s: State, ops: seq<Op>, h: seq<Response>, op: Op)
    requires Inv(s) && CapIsExact(s.capBytes) && (op.OpAllocate? ==> s.nextId + 1 < TWO_64)
    requires |h| == |ops| && LiveAsTold(s, ops, h)
    ensures LiveAsTold(Step(s, op).0, ops + [op], h + [Step(s, op).1])
  {
    var (s', r) := Step(s, op);
    forall p, id | Live(s', p, id) ensures exists i :: Stands(ops + [op], h + [r], i, p, id) {
      StepLive(s, op, p, id);
      if Grants(op, r, p, id) {
        StandsExtended(ops, h, op, r, |ops|, p, id);
      } else {
        var i :| Stands(ops, h, i, p, id);
        StandsExtended(ops, h, op, r, i, p, id);
      }
    }
    forall p, id, i | Stands(ops + [op], h + [r], i, p, id)
      ensures Live(s', p, id) && SizeOf(s', p, id) == (ops + [op])[i].size
    {
      StepLive(s, op, p, id);
      StandsExtended(ops, h, op, r, i, p, id);
    }
  }

  /**
   * In every run from a fresh budget an id is live under an identity if and only if it was granted to
   * that identity and neither released nor evicted since, and no recovery happened; its recorded size
   * is the size asked for.
   */
  lemma {:induction false} LiveIffStands(capBytes: U64, epoch: U64, ops: seq<Op>)
    requires CapIsExact(capBytes) && NoWrap(Initial(capBytes, epoch), ops)
    ensures var s := Initial(capBytes, epoch); LiveAsTold(Run(s, ops), ops, History(s, ops))
    decreases |ops|
  {
    var s := Initial(capBytes, epoch);
    if ops == [] {
    } else {
      var front, last := ops[..|ops| - 1], ops[|ops| - 1];
      RunLast(s, ops);
      LiveIffStands(capBytes, epoch, front);
      RunKeepsInv(s, front);
      CounterAfter(s, front);
      StepAsTold(Run(s, front), front, History(s, front), last);
      assert front + [last] == ops;
    }
  }

  lemma {:induction false} CounterAfter(s: State, ops: seq<Op>)
    requires Inv(s) && CapIsExact(s.capBytes) && NoWrap(s, ops)
    ensures Run(s, ops).nextId <= s.nextId + Mints(ops)
    decreases |ops|
  {
    if ops == [] {
    } else {
      StepKeepsInv(s, ops[0]);
      CounterAfter(Step(s, ops[0]).0, ops[1..]);
    }
  }
}
