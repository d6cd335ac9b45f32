/** Runs of the memory budget: reachable-state invariant and true LRU order. */
module GpuBudgetRuns {
  import opened Common
  import opened GpuTypes
  import opened GpuBudget

  datatype Op =
    | OpAllocate(token: ScopeToken, size: U64)
    | OpTouch(token: ScopeToken, id: AllocationId)
    | OpRelease(token: ScopeToken, id: AllocationId)
    | OpUsed(token: ScopeToken)
    | OpRecovery(newEpoch: U64)

  /** What the caller sees; `victims` are the allocations evicted to make room, oldest first. */
  datatype Response =
    | Allocated(result: Result<AllocationId, BudgetError>, victims: seq<AllocationId>)
    | Touched(outcome: Result<(), BudgetError>)
    | Released(outcome: Result<(), BudgetError>)
    | Reported(bytes: U64)
    | Recovered

  function Victims(b: Bucket, size: U64, cap: U64): seq<AllocationId>
    decreases |b.lru|
  {
    if SaturatingAdd(b.usedBytes, size) <= cap || b.lru == [] then []
    else [b.lru[0]] + Victims(EvictOne(b), size, cap)
  }

  function Step(s: State, op: Op): (State, Response) {
    match op
    case OpAllocate(token, size) =>
      var (s', r) := StepAllocate(s, token, size);
      (s', Allocated(r, if r.Success? then Victims(BucketOf(s, token.profileId), size, s.capBytes) else []))
    case OpTouch(token, id) => var (s', r) := StepTouch(s, token, id); (s', Touched(r))
    case OpRelease(token, id) => var (s', r) := StepRelease(s, token, id); (s', Released(r))
    case OpUsed(token) => (s, Reported(UsedBytes(s, token)))
    case OpRecovery(newEpoch) => (StepRecovery(s, newEpoch), Recovered)
  }

  function Run(s: State, ops: seq<Op>): State
    decreases |ops|
  {
    if ops == [] then s else Run(Step(s, ops[0]).0, ops[1..])
  }

  function Mints(ops: seq<Op>): nat {
    if ops == [] then 0 else (if ops[0].OpAllocate? then 1 else 0) + Mints(ops[1..])
  }

  /** Fewer than 2^64 ids are minted, so the wrapping counter never wraps. */
  predicate NoWrap(s: State, ops: seq<Op>) {
    s.nextId + Mints(ops) < TWO_64
  }

  // ------------------------------------------------ reachable states

  /** What is left of an identity's bucket once a request that is at most the cap fits. */
  lemma RoomAfterEviction(b: Bucket, size: U64, cap: U64)
    requires BucketInv(b, cap) && CapIsExact(cap) && size <= cap
    ensures var (rest, fits) := Evict(b, size, cap);
      && fits && BucketInv(rest, cap) && rest.usedBytes + size <= cap
      && forall id :: id in rest.sizes ==> id in b.sizes
  {
    var n := EvictIsMinimalLru(b, size, cap);
  }

  predicate Admissible(s: State, token: ScopeToken, size: U64) {
    0 < size <= s.capBytes && token.epoch == s.epoch
  }

  /** An admissible request always succeeds, and changes nothing but its own identity's bucket. */
  lemma AllocateSucceeds(s: State, token: ScopeToken, size: U64)
    requires BucketInv(BucketOf(s, token.profileId), s.capBytes) && CapIsExact(s.capBytes)
    requires Admissible(s, token, size) && s.nextId + 1 < TWO_64
    requires s.nextId !in BucketOf(s, token.profileId).sizes
    ensures var p, (s', r) := token.profileId, StepAllocate(s, token, size);
      && r == Success(s.nextId)
      && p in s'.buckets
      && s' == s.(nextId := s.nextId + 1, buckets := s.buckets[p := s'.buckets[p]])
      && BucketInv(s'.buckets[p], s.capBytes)
      && (forall id :: id in s'.buckets[p].sizes ==> id in BucketOf(s, p).sizes || id == s.nextId)
  {
    var b := BucketOf(s, token.profileId);
    RoomAfterEviction(b, size, s.capBytes);
    PushKeepsInv(Evict(b, size, s.capBytes).0, s.nextId, size, s.capBytes);
  }

  lemma AllocateKeepsInv(s: State, token: ScopeToken, size: U64)
    requires Inv(s) && CapIsExact(s.capBytes) && s.nextId + 1 < TWO_64
    ensures Inv(StepAllocate(s, token, size).0) && StepAllocate(s, token, size).0.capBytes == s.capBytes
    ensures s.nextId <= StepAllocate(s, token, size).0.nextId <= s.nextId + 1
    ensures StepAllocate(s, token, size).1 != Failure(Exhausted)
  {
    if Admissible(s, token, size) {
      AllocateSucceeds(s, token, size);
      OneBucketChanged(s, StepAllocate(s, token, size).0, token.profileId);
    }
  }

  lemma PushKeepsInv(b: Bucket, id: AllocationId, size: U64, cap: U64)
    requires BucketInv(b, cap) && id !in b.sizes && size > 0 && b.usedBytes + size <= cap
    ensures BucketInv(Push(b, id, size), cap)
  {
    SumInsert(b.sizes, id, size);
  }

  /** Framing: a step that only changes `p`'s bucket, and adds at most the minted id to it, keeps `Inv`. */
  lemma OneBucketChanged(s: State, s': State, p: Uuid)
    requires Inv(s) && s'.capBytes == s.capBytes && s.nextId <= s'.nextId
    requires p in s'.buckets && s'.buckets == s.buckets[p := s'.buckets[p]]
    requires BucketInv(s'.buckets[p], s.capBytes)
    requires forall id :: id in s'.buckets[p].sizes ==>
      id in BucketOf(s, p).sizes || (id == s.nextId && id < s'.nextId)
    ensures Inv(s')
  {
    forall q ensures q != p ==> BucketOf(s', q) == BucketOf(s, q) {
    }
  }

  lemma TouchKeepsInv(s: State, token: ScopeToken, id: AllocationId)
    requires Inv(s)
    ensures Inv(StepTouch(s, token, id).0) && SameCounters(s, StepTouch(s, token, id).0)
  {
    if Lookup(s, token, id).Success? {
      TouchKeepsBucketInv(BucketOf(s, token.profileId), s.capBytes, id);
      OneBucketChanged(s, StepTouch(s, token, id).0, token.profileId);
    }
  }

  lemma ReleaseKeepsInv(s: State, token: ScopeToken, id: AllocationId)
    requires Inv(s)
    ensures Inv(StepRelease(s, token, id).0) && SameCounters(s, StepRelease(s, token, id).0)
  {
    if Lookup(s, token, id).Success? {
      ReleaseKeepsBucketInv(BucketOf(s, token.profileId), s.capBytes, id);
      OneBucketChanged(s, StepRelease(s, token, id).0, token.profileId);
    }
  }

  predicate SameCounters(s: State, s': State) {
    s'.capBytes == s.capBytes && s'.nextId == s.nextId
  }

  lemma StepKeepsInv(s: State, op: Op)
    requires Inv(s) && CapIsExact(s.capBytes) && (op.OpAllocate? ==> s.nextId + 1 < TWO_64)
    ensures Inv(Step(s, op).0) && Step(s, op).0.capBytes == s.capBytes
    ensures s.nextId <= Step(s, op).0.nextId <= s.nextId + (if op.OpAllocate? then 1 else 0)
    ensures op.OpAllocate? ==> Step(s, op).1.result != Failure(Exhausted)
  {
    match op
    case OpAllocate(token, size) => AllocateKeepsInv(s, token, size);
    case OpTouch(token, id) => TouchKeepsInv(s, token, id);
    case OpRelease(token, id) => ReleaseKeepsInv(s, token, id);
    case OpUsed(_) =>
    case OpRecovery(_) =>
  }

  /** Every reachable state accounts exactly. */
  lemma {:induction false} RunKeepsInv(s: State, ops: seq<Op>)
    requires Inv(s) && CapIsExact(s.capBytes) && NoWrap(s, ops)
    ensures Inv(Run(s, ops)) && Run(s, ops).capBytes == s.capBytes
    decreases |ops|
  {
    if ops == [] {
    } else {
      StepKeepsInv(s, ops[0]);
      RunKeepsInv(Step(s, ops[0]).0, ops[1..]);
    }
  }

  /** The defensive `Exhausted` answer never occurs in a run. */
  lemma {:induction false} ExhaustedUnreachable(s: State, ops: seq<Op>, last: Op)
    requires Inv(s) && CapIsExact(s.capBytes) && NoWrap(s, ops + [last])
    ensures Step(Run(s, ops), last).1.Allocated? ==> Step(Run(s, ops), last).1.result != Failure(Exhausted)
    decreases |ops|
  {
    if ops == [] {
      assert [last][1..] == [];
      StepKeepsInv(s, last);
    } else {
      assert (ops + [last])[1..] == ops[1..] + [last];
      StepKeepsInv(s, ops[0]);
      ExhaustedUnreachable(Step(s, ops[0]).0, ops[1..], last);
    }
  }

  /** Two allocations that a budget capped at `u64::MAX` admits although their sum does not fit. */
  function SaturatingOps(token: ScopeToken): seq<Op> {
    [OpAllocate(token, TWO_64 - 1), OpAllocate(token, 1)]
  }

  /** `used_bytes` is what the live allocations add up to, for every identity. */
  ghost predicate Exact(s: State) {
    forall p :: BucketOf(s, p).usedBytes == Sum(BucketOf(s, p).sizes)
  }

  /** So the byte that does not fit is lost, and `used_bytes` is not the sum of the sizes. */
  lemma SaturationLosesBytes(capBytes: U64, token: ScopeToken)
    requires !CapIsExact(capBytes)
    ensures var b := BucketOf(Run(Initial(capBytes, token.epoch), SaturatingOps(token)), token.profileId);
      b.usedBytes != Sum(b.sizes)
  {
    var s0 := Initial(capBytes, token.epoch);
    var ops := SaturatingOps(token);
    var s1, s2 := Step(s0, ops[0]).0, Step(Step(s0, ops[0]).0, ops[1]).0;
    assert ops[1..] == [ops[1]] && ops[1..][1..] == [];
    assert Run(s1, ops[1..]) == s2;
    var sizes := map[1 := TWO_64 - 1, 2 := 1];
    assert BucketOf(s2, token.profileId).sizes == sizes;
    SumSplit(sizes, 1);
    SumSplit(sizes - {1}, 2);
  }

  lemma InvIsExact(s: State)
    requires Inv(s)
    ensures Exact(s)
  {
  }

  /**
   * The saturating accounting is exact in every run from a fresh budget exactly when the cap is
   * below the largest `u64`; every cap that comes from the configuration is.
   */
  lemma AccountingExactIff(capBytes: U64, epoch: U64)
    ensures CapIsExact(capBytes)
       <==> forall ops :: NoWrap(Initial(capBytes, epoch), ops) ==> Exact(Run(Initial(capBytes, epoch), ops))
    ensures CapIsExact(capBytes)
       <==> forall ops :: NoWrap(Initial(capBytes, epoch), ops) ==> Inv(Run(Initial(capBytes, epoch), ops))
    ensures forall mib: nat :: CapIsExact(CapFromConfig(mib))
  {
    var s := Initial(capBytes, epoch);
    if CapIsExact(capBytes) {
      forall ops | NoWrap(s, ops) ensures Inv(Run(s, ops)) && Exact(Run(s, ops)) {
        RunKeepsInv(s, ops);
        InvIsExact(Run(s, ops));
      }
    } else {
      var token := ScopeToken(Uuid(0), Standard, epoch);
      var ops := SaturatingOps(token);
      assert ops[1..] == [ops[1]] && ops[1..][1..] == [];
      assert Mints(ops[1..]) == 1 && Mints(ops) == 2;
      SaturationLosesBytes(capBytes, token);
      assert NoWrap(s, ops) && !Exact(Run(s, ops));
      if Inv(Run(s, ops)) {
        InvIsExact(Run(s, ops));
      }
    }
  }

  // ------------------------------------------------------- true LRU order

  /** The allocation a successful allocate or touch by `p` makes most recently used. */
  function UsedBy(op: Op, r: Response, p: Uuid): Option<AllocationId> {
    match op
    case OpAllocate(token, _) =>
      if r.Allocated? && r.result.Success? && token.profileId == p then Some(r.result.value) else None
    case OpTouch(token, id) =>
      if r.Touched? && r.outcome.Success? && token.profileId == p then Some(id) else None
    case _ => None
  }

  /** 1 + the index of the last successful allocate or touch of `id` by `p` in the run, 0 if none. */
  function LastUse(s: State, ops: seq<Op>, p: Uuid, id: AllocationId): nat
    decreases |ops|
  {
    if ops == [] then 0
    else
      var (s', r) := Step(s, ops[0]);
      var later := LastUse(s', ops[1..], p, id);
      if later > 0 then later + 1
      else if UsedBy(ops[0], r, p) == Some(id) then 1
      else 0
  }

  /** Uses during the run come after everything that was resident at its start. */
  function Recency(s: State, ops: seq<Op>, p: Uuid, id: AllocationId): nat {
    var used := LastUse(s, ops, p, id);
    if used > 0 then |BucketOf(s, p).lru| + used else Position(BucketOf(s, p).lru, id)
  }

  ghost predicate IncreasingRecency(s: State, ops: seq<Op>, p: Uuid, ids: seq<AllocationId>) {
    forall i, j :: 0 <= i < j < |ids| ==> Recency(s, ops, p, ids[i]) < Recency(s, ops, p, ids[j])
  }

  /** `t` keeps the relative order of `s`. */
  ghost predicate KeepsOrder(s: seq<AllocationId>, t: seq<AllocationId>) {
    && (forall x :: x in t ==> x in s)
    && (forall i, j :: 0 <= i < j < |t| ==> Position(s, t[i]) < Position(s, t[j]))
  }

  lemma PositionOfElement(s: seq<AllocationId>, i: nat)
    requires NoDuplicates(s) && i < |s|
    ensures Position(s, s[i]) == i
  {
  }

  lemma DropKeepsOrder(s: seq<AllocationId>, n: nat)
    requires NoDuplicates(s) && n <= |s|
    ensures KeepsOrder(s, s[n..])
  {
    forall i | 0 <= i < |s| - n ensures Position(s, s[n..][i]) == n + i {
      PositionOfElement(s, n + i);
    }
  }

  lemma WithoutKeepsOrder(s: seq<AllocationId>, id: AllocationId)
    requires NoDuplicates(s)
    ensures KeepsOrder(s, Without(s, id))
  {
    var k, t := Position(s, id), Without(s, id);
    WithoutKeepsOthers(s, id);
    forall i | 0 <= i < |t| ensures Position(s, t[i]) == if i < k then i else i + 1 {
      PositionOfElement(s, if i < k then i else i + 1);
    }
  }

  /** `survivors` of `before` stay in order, and the used allocation, if any, goes to the back. */
  ghost predicate MovesToBack(before: seq<AllocationId>, after: seq<AllocationId>,
                              used: Option<AllocationId>, survivors: seq<AllocationId>)
  {
    && KeepsOrder(before, survivors)
    && after == survivors + (if used.Some? then [used.value] else [])
    && (used.Some? ==> used.value !in survivors)
  }

  lemma AllocateMovesToBack(s: State, token: ScopeToken, size: U64) returns (survivors: seq<AllocationId>)
    requires BucketInv(BucketOf(s, token.profileId), s.capBytes) && CapIsExact(s.capBytes)
    requires forall id :: id in BucketOf(s, token.profileId).sizes ==> id < s.nextId
    ensures var (s', r) := StepAllocate(s, token, size);
      MovesToBack(BucketOf(s, token.profileId).lru, BucketOf(s', token.profileId).lru,
                  if r.Success? then Some(r.value) else None, survivors)
  {
    var b := BucketOf(s, token.profileId);
    if Admissible(s, token, size) {
      var n := EvictIsMinimalLru(b, size, s.capBytes);
      survivors := b.lru[n..];
      DropKeepsOrder(b.lru, n);
    } else {
      survivors := b.lru[0..];
      DropKeepsOrder(b.lru, 0);
    }
  }

  lemma TouchMovesToBack(s: State, token: ScopeToken, id: AllocationId) returns (survivors: seq<AllocationId>)
    requires BucketInv(BucketOf(s, token.profileId), s.capBytes)
    ensures var (s', r) := StepTouch(s, token, id);
      MovesToBack(BucketOf(s, token.profileId).lru, BucketOf(s', token.profileId).lru,
                  if r.Success? then Some(id) else None, survivors)
  {
    var lru := BucketOf(s, token.profileId).lru;
    if Lookup(s, token, id).Success? {
      survivors := Without(lru, id);
      WithoutKeepsOthers(lru, id);
      WithoutKeepsOrder(lru, id);
    } else {
      survivors := lru[0..];
      DropKeepsOrder(lru, 0);
    }
  }

  lemma ReleaseMovesNothing(s: State, token: ScopeToken, id: AllocationId) returns (survivors: seq<AllocationId>)
    requires BucketInv(BucketOf(s, token.profileId), s.capBytes)
    ensures var s' := StepRelease(s, token, id).0;
      MovesToBack(BucketOf(s, token.profileId).lru, BucketOf(s', token.profileId).lru, None, survivors)
  {
    var lru := BucketOf(s, token.profileId).lru;
    if Lookup(s, token, id).Success? {
      survivors := Without(lru, id);
      WithoutKeepsOrder(lru, id);
    } else {
      survivors := lru[0..];
      DropKeepsOrder(lru, 0);
    }
  }

  /** The identity on whose behalf an operation runs. */
  function Actor(op: Op): Option<Uuid> {
    if op.OpRecovery? then None else Some(op.token.profileId)
  }

  /** Structural isolation: an operation touches no bucket but its actor's. */
  lemma OthersUntouched(s: State, op: Op, p: Uuid)
    requires Actor(op).Some? && Actor(op).value != p
    ensures BucketOf(Step(s, op).0, p) == BucketOf(s, p)
    ensures UsedBy(op, Step(s, op).1, p).None?
  {
  }

  lemma StepFrame(s: State, op: Op)
    requires !op.OpRecovery? && (op.OpAllocate? ==> s.nextId + 1 < TWO_64)
    ensures var s' := Step(s, op).0;
      && s'.epoch == s.epoch && s'.capBytes == s.capBytes
      && s.nextId <= s'.nextId <= s.nextId + (if op.OpAllocate? then 1 else 0)
  {
  }

  /** One step leaves `p`'s survivors in order and puts the used allocation, if any, at the back. */
  lemma StepMovesToBack(s: State, op: Op, p: Uuid) returns (survivors: seq<AllocationId>)
    requires BucketInv(BucketOf(s, p), s.capBytes) && CapIsExact(s.capBytes)
    requires forall id :: id in BucketOf(s, p).sizes ==> id < s.nextId
    ensures var (s', r) := Step(s, op);
      MovesToBack(BucketOf(s, p).lru, BucketOf(s', p).lru, UsedBy(op, r, p), survivors)
  {
    var lru := BucketOf(s, p).lru;
    if op.OpRecovery? {
      survivors := [];
    } else if Actor(op).value != p || op.OpUsed? {
      if Actor(op).value != p {
        OthersUntouched(s, op, p);
      }
      survivors := lru[0..];
      DropKeepsOrder(lru, 0);
    } else {
      match op
      case OpAllocate(token, size) => survivors := AllocateMovesToBack(s, token, size);
      case OpTouch(token, id) => survivors := TouchMovesToBack(s, token, id);
      case OpRelease(token, id) => survivors := ReleaseMovesNothing(s, token, id);
    }
  }

  /** Resident allocations that the run never uses were resident at its start. */
  lemma {:induction false} UnusedWasResident(s: State, ops: seq<Op>, p: Uuid, id: AllocationId)
    requires Inv(s) && CapIsExact(s.capBytes) && NoWrap(s, ops)
    requires id in BucketOf(Run(s, ops), p).lru && LastUse(s, ops, p, id) == 0
    ensures id in BucketOf(s, p).lru
    decreases |ops|
  {
    if ops == [] {
    } else {
      StepKeepsInv(s, ops[0]);
      var _ := StepMovesToBack(s, ops[0], p);
      UnusedWasResident(Step(s, ops[0]).0, ops[1..], p, id);
    }
  }

  /** Recency measured over a run agrees, for what is resident after the first step, with one step later. */
  lemma RecencyAcrossStep(s: State, ops: seq<Op>, p: Uuid, x: AllocationId, y: AllocationId)
    requires Inv(s) && CapIsExact(s.capBytes) && ops != [] && NoWrap(s, ops)
    requires var s' := Step(s, ops[0]).0;
      && Recency(s', ops[1..], p, x) < Recency(s', ops[1..], p, y)
      && (LastUse(s', ops[1..], p, x) == 0 ==> x in BucketOf(s', p).lru)
      && (LastUse(s', ops[1..], p, y) == 0 ==> y in BucketOf(s', p).lru)
    ensures Recency(s, ops, p, x) < Recency(s, ops, p, y)
  {
    var (s', r) := Step(s, ops[0]);
    var before, after := BucketOf(s, p).lru, BucketOf(s', p).lru;
    var survivors := StepMovesToBack(s, ops[0], p);
    if LastUse(s', ops[1..], p, x) == 0 && LastUse(s', ops[1..], p, y) == 0 {
      var i, j := Position(after, x), Position(after, y);
      assert i < j && after[i] == x && after[j] == y;
      assert x == survivors[i];
      if j < |survivors| {
        assert y == survivors[j];
        assert UsedBy(ops[0], r, p) != Some(x);
        assert UsedBy(ops[0], r, p) != Some(y);
      }
    }
  }

  lemma {:induction false} ResidentByRecency(s: State, ops: seq<Op>, p: Uuid)
    requires Inv(s) && CapIsExact(s.capBytes) && NoWrap(s, ops)
    ensures IncreasingRecency(s, ops, p, BucketOf(Run(s, ops), p).lru)
    decreases |ops|
  {
    var lru := BucketOf(Run(s, ops), p).lru;
    if ops == [] {
      forall i | 0 <= i < |lru| ensures Position(lru, lru[i]) == i {
        PositionOfElement(lru, i);
      }
    } else {
      var s' := Step(s, ops[0]).0;
      StepKeepsInv(s, ops[0]);
      ResidentByRecency(s', ops[1..], p);
      forall i, j | 0 <= i < j < |lru|
        ensures Recency(s, ops, p, lru[i]) < Recency(s, ops, p, lru[j])
      {
        if LastUse(s', ops[1..], p, lru[i]) == 0 {
          UnusedWasResident(s', ops[1..], p, lru[i]);
        }
        if LastUse(s', ops[1..], p, lru[j]) == 0 {
          UnusedWasResident(s', ops[1..], p, lru[j]);
        }
        RecencyAcrossStep(s, ops, p, lru[i], lru[j]);
      }
    }
  }

  /**
   * In every run from a fresh budget, each identity's `lru` lists exactly its live allocations,
   * ordered by their last successful allocate or touch.
   */
  lemma TrueLruOrder(capBytes: U64, epoch: U64, ops: seq<Op>, p: Uuid)
    requires CapIsExact(capBytes) && NoWrap(Initial(capBytes, epoch), ops)
    ensures var s := Initial(capBytes, epoch);
      var b := BucketOf(Run(s, ops), p);
      && (forall id :: id in b.lru <==> id in b.sizes)
      && (forall id :: id in b.lru ==> LastUse(s, ops, p, id) > 0)
      && (forall i, j :: 0 <= i < j < |b.lru| ==>
            LastUse(s, ops, p, b.lru[i]) < LastUse(s, ops, p, b.lru[j]))
  {
    var s := Initial(capBytes, epoch);
    var b := BucketOf(Run(s, ops), p);
    RunKeepsInv(s, ops);
    ResidentByRecency(s, ops, p);
    forall id | id in b.lru ensures LastUse(s, ops, p, id) > 0 {
      if LastUse(s, ops, p, id) == 0 {
        UnusedWasResident(s, ops, p, id);
        assert false;
      }
    }
    forall i, j | 0 <= i < j < |b.lru|
      ensures LastUse(s, ops, p, b.lru[i]) < LastUse(s, ops, p, b.lru[j])
    {
      assert Recency(s, ops, p, b.lru[i]) < Recency(s, ops, p, b.lru[j]);
    }
  }
}
