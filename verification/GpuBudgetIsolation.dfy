/**
 * Non-interference of the memory budget: an identity cannot tell whether the others exist.
 *
 * Allocation ids come from one shared counter, so the two runs compared here name the same
 * allocations differently; a strictly increasing renaming relates the names.
 */
module GpuBudgetIsolation {
  import opened Common
  import opened GpuTypes
  import opened GpuBudget
  import opened GpuBudgetRuns

  /** Names of one identity's allocations: in the shared run, and in the run where it is alone. */
  type Renaming = map<AllocationId, AllocationId>

  /** Ids the identity was never given are sent to 0, which is never minted. */
  function Renamed(rho: Renaming, id: AllocationId): AllocationId {
    if id in rho then rho[id] else 0
  }

  function RenamedAll(rho: Renaming, ids: seq<AllocationId>): seq<AllocationId> {
    seq(|ids|, i requires 0 <= i < |ids| => Renamed(rho, ids[i]))
  }

  function RenamedOp(rho: Renaming, op: Op): Op {
    match op
    case OpTouch(token, id) => OpTouch(token, Renamed(rho, id))
    case OpRelease(token, id) => OpRelease(token, Renamed(rho, id))
    case _ => op
  }

  function RenamedResponse(rho: Renaming, r: Response): Response {
    match r
    case Allocated(Success(id), victims) => Allocated(Success(Renamed(rho, id)), RenamedAll(rho, victims))
    case _ => r
  }

  predicate Concerns(op: Op, a: Uuid) {
    Actor(op) == None || Actor(op) == Some(a)
  }

  /** The renaming after `op` ran in the shared state `s`, `alone` being the other run's counter. */
  function Extended(s: State, op: Op, a: Uuid, alone: U64, rho: Renaming): Renaming {
    if Concerns(op, a) && op.OpAllocate? && Step(s, op).1.result.Success?
    then rho[Step(s, op).1.result.value := alone]
    else rho
  }

  function Counter(s: State, op: Op, a: Uuid, alone: U64): U64 {
    if Concerns(op, a) && op.OpAllocate? && Step(s, op).1.result.Success? then WrappingIncrement(alone) else alone
  }

  /** The run with every other identity's operations deleted. */
  function Alone(s: State, ops: seq<Op>, a: Uuid, alone: U64, rho: Renaming): seq<Op>
    decreases |ops|
  {
    if ops == [] then []
    else
      var rest :=
        Alone(Step(s, ops[0]).0, ops[1..], a, Counter(s, ops[0], a, alone), Extended(s, ops[0], a, alone, rho));
      if Concerns(ops[0], a) then [RenamedOp(rho, ops[0])] + rest else rest
  }

  function FinalRenaming(s: State, ops: seq<Op>, a: Uuid, alone: U64, rho: Renaming): Renaming
    decreases |ops|
  {
    if ops == [] then rho
    else
      FinalRenaming(Step(s, ops[0]).0, ops[1..], a, Counter(s, ops[0], a, alone), Extended(s, ops[0], a, alone, rho))
  }

  /** Everything `a` is told during a run. */
  function SeenBy(s: State, ops: seq<Op>, a: Uuid): seq<Response>
    decreases |ops|
  {
    if ops == [] then []
    else
      var (s', r) := Step(s, ops[0]);
      var rest := SeenBy(s', ops[1..], a);
      if Concerns(ops[0], a) then [r] + rest else rest
  }

  // ---------------------------------------------------------- simulation

  ghost predicate OrderPreserving(rho: Renaming) {
    forall x, y :: x in rho && y in rho && x < y ==> rho[x] < rho[y]
  }

  /** Both counters are past every renamed id. */
  ghost predicate Minted(rho: Renaming, n: int, m: int) {
    forall id :: id in rho ==> id < n && 0 < rho[id] < m
  }

  ghost predicate SameBucket(b: Bucket, c: Bucket, rho: Renaming) {
    && b.usedBytes == c.usedBytes
    && c.lru == RenamedAll(rho, b.lru)
    && (forall id :: id in b.lru ==> id in rho)
    && (forall id :: id in b.sizes ==> id in rho)
    && (forall id :: id in rho ==> (id in b.sizes <==> rho[id] in c.sizes))
    && (forall id :: id in rho && id in b.sizes ==> b.sizes[id] == c.sizes[rho[id]])
    && 0 !in c.sizes
  }

  /** `t` is `s` as `a` sees it, with `a`'s allocations renamed by `rho`. */
  ghost predicate Simulates(s: State, t: State, a: Uuid, rho: Renaming) {
    && s.epoch == t.epoch && s.capBytes == t.capBytes
    && 0 < t.nextId <= s.nextId
    && OrderPreserving(rho)
    && Minted(rho, s.nextId, t.nextId)
    && SameBucket(BucketOf(s, a), BucketOf(t, a), rho)
  }

  lemma {:induction false} RenamedPosition(rho: Renaming, ids: seq<AllocationId>, id: AllocationId)
    requires OrderPreserving(rho) && id in rho && forall x :: x in ids ==> x in rho
    ensures Position(RenamedAll(rho, ids), rho[id]) == Position(ids, id)
  {
    if ids == [] || ids[0] == id {
    } else {
      assert ids[0] < id || id < ids[0];
      assert RenamedAll(rho, ids)[1..] == RenamedAll(rho, ids[1..]);
      RenamedPosition(rho, ids[1..], id);
    }
  }

  lemma RenamedWithout(rho: Renaming, ids: seq<AllocationId>, id: AllocationId)
    requires OrderPreserving(rho) && id in rho && forall x :: x in ids ==> x in rho
    ensures Without(RenamedAll(rho, ids), rho[id]) == RenamedAll(rho, Without(ids, id))
    ensures forall x :: x in Without(ids, id) ==> x in ids
  {
    RenamedPosition(rho, ids, id);
    var k := Position(ids, id);
    if k < |ids| {
      RenamedRemoveAt(rho, ids, k);
    }
  }

  lemma RenamedRemoveAt(rho: Renaming, ids: seq<AllocationId>, k: nat)
    requires k < |ids|
    ensures RemoveAt(RenamedAll(rho, ids), k) == RenamedAll(rho, RemoveAt(ids, k))
  {
  }

  lemma EvictOneRenamed(b: Bucket, c: Bucket, rho: Renaming)
    requires OrderPreserving(rho) && SameBucket(b, c, rho) && b.lru != []
    ensures c.lru != [] && SameBucket(EvictOne(b), EvictOne(c), rho)
    ensures c.lru[0] == rho[b.lru[0]]
  {
    var first := b.lru[0];
    assert first in rho;
    assert RenamedAll(rho, b.lru)[1..] == RenamedAll(rho, b.lru[1..]);
    forall id | id in rho && id != first ensures rho[id] != rho[first] {
      assert id < first || first < id;
    }
  }

  lemma RenamedCons(rho: Renaming, id: AllocationId, ids: seq<AllocationId>)
    ensures RenamedAll(rho, [id] + ids) == [Renamed(rho, id)] + RenamedAll(rho, ids)
  {
  }

  /** Both runs evict the same allocations and end with the same bucket. */
  lemma {:induction false} EvictRenamed(b: Bucket, c: Bucket, rho: Renaming, size: U64, cap: U64)
    requires OrderPreserving(rho) && SameBucket(b, c, rho)
    ensures SameBucket(Evict(b, size, cap).0, Evict(c, size, cap).0, rho)
    ensures Evict(b, size, cap).1 == Evict(c, size, cap).1
    ensures Victims(c, size, cap) == RenamedAll(rho, Victims(b, size, cap))
    ensures forall id :: id in Victims(b, size, cap) ==> id in rho
    decreases |b.lru|
  {
    if SaturatingAdd(b.usedBytes, size) > cap && b.lru != [] {
      EvictOneRenamed(b, c, rho);
      EvictRenamed(EvictOne(b), EvictOne(c), rho, size, cap);
      RenamedCons(rho, b.lru[0], Victims(EvictOne(b), size, cap));
    } else {
      assert c.lru == [] <==> b.lru == [];
    }
  }

  lemma PushRenamed(b: Bucket, c: Bucket, rho: Renaming, id: AllocationId, alone: AllocationId, size: U64)
    requires SameBucket(b, c, rho) && 0 <= id && 0 < alone && Minted(rho, id, alone)
    ensures SameBucket(Push(b, id, size), Push(c, alone, size), rho[id := alone])
  {
    var rho' := rho[id := alone];
    assert RenamedAll(rho', b.lru) == RenamedAll(rho, b.lru);
    assert RenamedAll(rho', b.lru + [id]) == RenamedAll(rho, b.lru) + [alone];
  }

  lemma RenamingExtends(rho: Renaming, n: U64, m: U64)
    requires OrderPreserving(rho) && Minted(rho, n, m)
    requires 0 < m && n + 1 < TWO_64 && m + 1 < TWO_64
    ensures OrderPreserving(rho[n := m]) && Minted(rho[n := m], n + 1, m + 1)
  {
  }

  lemma AllocateShape(s: State, token: ScopeToken, size: U64)
    requires Admissible(s, token, size) && s.nextId + 1 < TWO_64
    requires Evict(BucketOf(s, token.profileId), size, s.capBytes).1
    ensures var rest := Evict(BucketOf(s, token.profileId), size, s.capBytes).0;
      StepAllocate(s, token, size)
      == (s.(nextId := s.nextId + 1, buckets := s.buckets[token.profileId := Push(rest, s.nextId, size)]),
          Success(s.nextId))
  {
  }

  /** Every id a response mentions has been given to the identity. */
  predicate Known(rho: Renaming, r: Response) {
    r.Allocated? ==>
      && (r.result.Success? ==> r.result.value in rho)
      && (forall id :: id in r.victims ==> id in rho)
  }

  lemma AllocateRenamed(s: State, t: State, a: Uuid, rho: Renaming, token: ScopeToken, size: U64)
    requires Simulates(s, t, a, rho) && token.profileId == a && s.nextId + 1 < TWO_64
    requires Admissible(s, token, size) && Evict(BucketOf(s, a), size, s.capBytes).1
    ensures var (s', r) := StepAllocate(s, token, size);
      var (t', r') := StepAllocate(t, token, size);
      && r == Success(s.nextId) && r' == Success(t.nextId)
      && Simulates(s', t', a, rho[s.nextId := t.nextId])
      && t'.nextId == t.nextId + 1
  {
    var b, c := BucketOf(s, a), BucketOf(t, a);
    EvictRenamed(b, c, rho, size, s.capBytes);
    AllocateShape(s, token, size);
    AllocateShape(t, token, size);
    RenamingExtends(rho, s.nextId, t.nextId);
    PushRenamed(Evict(b, size, s.capBytes).0, Evict(c, size, s.capBytes).0, rho, s.nextId, t.nextId, size);
  }

  /** A request that fails, fails alike. */
  lemma RefusedAlike(s: State, t: State, a: Uuid, rho: Renaming, token: ScopeToken, size: U64)
    requires Simulates(s, t, a, rho) && token.profileId == a
    requires !(Admissible(s, token, size) && Evict(BucketOf(s, a), size, s.capBytes).1)
    ensures var (s', r) := StepAllocate(s, token, size);
      var (t', r') := StepAllocate(t, token, size);
      Simulates(s', t', a, rho) && r.Failure? && r' == r && t'.nextId == t.nextId
  {
    if Admissible(s, token, size) {
      EvictRenamed(BucketOf(s, a), BucketOf(t, a), rho, size, s.capBytes);
    }
  }

  lemma AllocateAnsweredAlike(s: State, t: State, a: Uuid, rho: Renaming, token: ScopeToken, size: U64)
    requires Simulates(s, t, a, rho) && token.profileId == a && s.nextId + 1 < TWO_64
    ensures var op := OpAllocate(token, size);
      var rho' := Extended(s, op, a, t.nextId, rho);
      && Simulates(Step(s, op).0, Step(t, op).0, a, rho')
      && Step(t, op).1 == RenamedResponse(rho', Step(s, op).1)
      && Known(rho', Step(s, op).1)
      && Step(t, op).0.nextId == Counter(s, op, a, t.nextId)
  {
    if Admissible(s, token, size) && Evict(BucketOf(s, a), size, s.capBytes).1 {
      EvictRenamed(BucketOf(s, a), BucketOf(t, a), rho, size, s.capBytes);
      AllocateRenamed(s, t, a, rho, token, size);
      MintKeepsNames(rho, s.nextId, t.nextId, Victims(BucketOf(s, a), size, s.capBytes));
    } else {
      RefusedAlike(s, t, a, rho, token, size);
    }
  }

  lemma MintKeepsNames(rho: Renaming, n: U64, m: U64, ids: seq<AllocationId>)
    requires Minted(rho, n, m) && forall id :: id in ids ==> id in rho
    ensures RenamedAll(rho[n := m], ids) == RenamedAll(rho, ids)
    ensures forall id :: id in ids ==> id in rho[n := m]
  {
  }

  lemma TouchRenamed(s: State, t: State, a: Uuid, rho: Renaming, token: ScopeToken, id: AllocationId)
    requires Simulates(s, t, a, rho) && token.profileId == a
    ensures var (s', r) := StepTouch(s, token, id);
      var (t', r') := StepTouch(t, token, Renamed(rho, id));
      Simulates(s', t', a, rho) && r == r' && t'.nextId == t.nextId
  {
    var lru := BucketOf(s, a).lru;
    if Lookup(s, token, id).Success? {
      RenamedWithout(rho, lru, id);
      assert RenamedAll(rho, Without(lru, id) + [id]) == RenamedAll(rho, Without(lru, id)) + [rho[id]];
    }
  }

  lemma ReleaseRenamed(s: State, t: State, a: Uuid, rho: Renaming, token: ScopeToken, id: AllocationId)
    requires Simulates(s, t, a, rho) && token.profileId == a
    ensures var (s', r) := StepRelease(s, token, id);
      var (t', r') := StepRelease(t, token, Renamed(rho, id));
      Simulates(s', t', a, rho) && r == r' && t'.nextId == t.nextId
  {
    if Lookup(s, token, id).Success? {
      RenamedWithout(rho, BucketOf(s, a).lru, id);
      forall x | x in rho && x != id ensures rho[x] != rho[id] {
        assert x < id || id < x;
      }
    }
  }

  /** `a`'s own operations, and recoveries, are answered alike in both runs. */
  lemma OwnStepRenamed(s: State, t: State, a: Uuid, rho: Renaming, op: Op)
    requires Simulates(s, t, a, rho) && Concerns(op, a) && (op.OpAllocate? ==> s.nextId + 1 < TWO_64)
    ensures var rho' := Extended(s, op, a, t.nextId, rho);
      var (t', r') := Step(t, RenamedOp(rho, op));
      && Simulates(Step(s, op).0, t', a, rho')
      && r' == RenamedResponse(rho', Step(s, op).1)
      && Known(rho', Step(s, op).1)
      && t'.nextId == Counter(s, op, a, t.nextId)
  {
    match op
    case OpAllocate(token, size) => AllocateAnsweredAlike(s, t, a, rho, token, size);
    case OpTouch(token, id) => TouchRenamed(s, t, a, rho, token, id);
    case OpRelease(token, id) => ReleaseRenamed(s, t, a, rho, token, id);
    case OpUsed(_) =>
    case OpRecovery(_) =>
  }

  /** The lone run's state after `op` ran in the shared run. */
  function Follow(t: State, op: Op, a: Uuid, rho: Renaming): State {
    if Concerns(op, a) then Step(t, RenamedOp(rho, op)).0 else t
  }

  lemma FollowSimulates(s: State, t: State, a: Uuid, rho: Renaming, op: Op)
    requires Simulates(s, t, a, rho) && (op.OpAllocate? ==> s.nextId + 1 < TWO_64)
    ensures Simulates(Step(s, op).0, Follow(t, op, a, rho), a, Extended(s, op, a, t.nextId, rho))
    ensures Follow(t, op, a, rho).nextId == Counter(s, op, a, t.nextId)
    ensures Step(s, op).0.nextId <= s.nextId + (if op.OpAllocate? then 1 else 0)
  {
    if !op.OpRecovery? {
      StepFrame(s, op);
    }
    if Concerns(op, a) {
      OwnStepRenamed(s, t, a, rho, op);
    } else {
      OthersUntouched(s, op, a);
    }
  }

  // ------------------------------------------------------------- theorem

  /** Later mints never change how an id already known is renamed. */
  lemma {:induction false} RenamingGrows(s: State, t: State, ops: seq<Op>, a: Uuid, rho: Renaming)
    requires Simulates(s, t, a, rho) && NoWrap(s, ops)
    ensures rho.Items <= FinalRenaming(s, ops, a, t.nextId, rho).Items
    decreases |ops|
  {
    if ops == [] {
    } else {
      var op := ops[0];
      var rho' := Extended(s, op, a, t.nextId, rho);
      FollowSimulates(s, t, a, rho, op);
      RenamingGrows(Step(s, op).0, Follow(t, op, a, rho), ops[1..], a, rho');
      assert forall id :: id in rho ==> id != s.nextId;
      assert rho.Items <= rho'.Items;
    }
  }

  function RenamedResponses(rho: Renaming, rs: seq<Response>): seq<Response> {
    seq(|rs|, i requires 0 <= i < |rs| => RenamedResponse(rho, rs[i]))
  }

  lemma KnownRenamedAlike(rho: Renaming, final: Renaming, r: Response)
    requires rho.Items <= final.Items && Known(rho, r)
    ensures RenamedResponse(final, r) == RenamedResponse(rho, r)
  {
    forall id | id in rho ensures Renamed(final, id) == rho[id] {
      assert (id, rho[id]) in rho.Items;
    }
    if r.Allocated? {
      assert RenamedAll(final, r.victims) == RenamedAll(rho, r.victims);
    }
  }

  lemma SeenByCons(t: State, op: Op, ops: seq<Op>, a: Uuid)
    requires Concerns(op, a)
    ensures SeenBy(t, [op] + ops, a) == [Step(t, op).1] + SeenBy(Step(t, op).0, ops, a)
    ensures Run(t, [op] + ops) == Run(Step(t, op).0, ops)
  {
    assert ([op] + ops)[1..] == ops;
  }

  /** The shared run and the lone run tell `a` the same, up to the final renaming. */
  ghost predicate ToldAlike(s: State, t: State, ops: seq<Op>, a: Uuid, rho: Renaming) {
    var alone, final := Alone(s, ops, a, t.nextId, rho), FinalRenaming(s, ops, a, t.nextId, rho);
    && SeenBy(t, alone, a) == RenamedResponses(final, SeenBy(s, ops, a))
    && Simulates(Run(s, ops), Run(t, alone), a, final)
  }

  lemma ToldAlikeOwn(s: State, t: State, ops: seq<Op>, a: Uuid, rho: Renaming)
    requires ops != [] && Concerns(ops[0], a)
    requires Follow(t, ops[0], a, rho).nextId == Counter(s, ops[0], a, t.nextId)
    requires ToldAlike(Step(s, ops[0]).0, Follow(t, ops[0], a, rho), ops[1..], a, Extended(s, ops[0], a, t.nextId, rho))
    requires RenamedResponse(FinalRenaming(s, ops, a, t.nextId, rho), Step(s, ops[0]).1)
          == Step(t, RenamedOp(rho, ops[0])).1
    ensures ToldAlike(s, t, ops, a, rho)
  {
    var rho' := Extended(s, ops[0], a, t.nextId, rho);
    var (s', r) := Step(s, ops[0]);
    var rest := Alone(s', ops[1..], a, Counter(s, ops[0], a, t.nextId), rho');
    SeenByCons(t, RenamedOp(rho, ops[0]), rest, a);
    RenamedResponsesCons(FinalRenaming(s, ops, a, t.nextId, rho), r, SeenBy(s', ops[1..], a));
  }

  lemma RenamedResponsesCons(rho: Renaming, r: Response, rs: seq<Response>)
    ensures RenamedResponses(rho, [r] + rs) == [RenamedResponse(rho, r)] + RenamedResponses(rho, rs)
  {
  }

  /**
   * Deleting every other identity's calls from a run changes nothing `a` is told: each result,
   * each eviction and each `used_bytes` value is the same up to one order-preserving renaming of
   * allocation ids.
   */
  lemma {:induction false} NonInterference(s: State, t: State, ops: seq<Op>, a: Uuid, rho: Renaming)
    requires Simulates(s, t, a, rho) && NoWrap(s, ops)
    ensures ToldAlike(s, t, ops, a, rho)
    decreases |ops|
  {
    if ops == [] {
    } else {
      var op, later := ops[0], ops[1..];
      var (s', r) := Step(s, op);
      var t', rho' := Follow(t, op, a, rho), Extended(s, op, a, t.nextId, rho);
      FollowSimulates(s, t, a, rho, op);
      NonInterference(s', t', later, a, rho');
      if Concerns(op, a) {
        OwnStepRenamed(s, t, a, rho, op);
        RenamingGrows(s', t', later, a, rho');
        KnownRenamedAlike(rho', FinalRenaming(s, ops, a, t.nextId, rho), r);
        ToldAlikeOwn(s, t, ops, a, rho);
      }
    }
  }

  /** The same from a fresh budget, where nobody has been given an id yet. */
  lemma NonInterferenceFromStart(capBytes: U64, epoch: U64, ops: seq<Op>, a: Uuid)
    requires NoWrap(Initial(capBytes, epoch), ops)
    ensures var s := Initial(capBytes, epoch);
      var alone, final := Alone(s, ops, a, 1, map[]), FinalRenaming(s, ops, a, 1, map[]);
      && OrderPreserving(final)
      && SeenBy(s, alone, a) == RenamedResponses(final, SeenBy(s, ops, a))
      && BucketOf(Run(s, alone), a).usedBytes == BucketOf(Run(s, ops), a).usedBytes
      && (forall i :: 0 <= i < |alone| ==> Concerns(alone[i], a))
  {
    var s := Initial(capBytes, epoch);
    assert RenamedAll(map[], []) == [];
    NonInterference(s, s, ops, a, map[]);
    AloneIsOwn(s, ops, a, 1, map[]);
  }

  lemma {:induction false} AloneIsOwn(s: State, ops: seq<Op>, a: Uuid, alone: U64, rho: Renaming)
    ensures forall i :: 0 <= i < |Alone(s, ops, a, alone, rho)| ==> Concerns(Alone(s, ops, a, alone, rho)[i], a)
    decreases |ops|
  {
    if ops == [] {
    } else {
      AloneIsOwn(Step(s, ops[0]).0, ops[1..], a, Counter(s, ops[0], a, alone), Extended(s, ops[0], a, alone, rho));
    }
  }
}
