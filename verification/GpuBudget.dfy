/** The per-identity memory budget: byte accounting and LRU eviction inside one identity. */
module GpuBudget {
  import opened Common
  import opened GpuTypes

  type AllocationId = U64

  datatype BudgetError = StaleToken | ZeroSize | OverCap | Exhausted | UnknownAllocation

  const MIN_CAP_MIB: nat := 64
  const MAX_CAP_MIB: nat := 4096

  /** `BudgetProfile::from_config`: the configured cap, clamped, in bytes. */
  function CapFromConfig(memoryCapMib: nat): (cap: U64)
    ensures MIN_CAP_MIB * 1024 * 1024 <= cap <= MAX_CAP_MIB * 1024 * 1024
    ensures MIN_CAP_MIB <= memoryCapMib <= MAX_CAP_MIB ==> cap == memoryCapMib * 1024 * 1024
    ensures memoryCapMib < MIN_CAP_MIB ==> cap == MIN_CAP_MIB * 1024 * 1024
    ensures memoryCapMib > MAX_CAP_MIB ==> cap == MAX_CAP_MIB * 1024 * 1024
  {
    var clamped := if memoryCapMib < MIN_CAP_MIB then MIN_CAP_MIB
                   else if memoryCapMib > MAX_CAP_MIB then MAX_CAP_MIB
                   else memoryCapMib;
    clamped * 1024 * 1024
  }

  /** `lru` runs from the least to the most recently used allocation. */
  datatype Bucket = Bucket(usedBytes: U64, lru: seq<AllocationId>, sizes: map<AllocationId, U64>)

  datatype State = State(capBytes: U64, epoch: U64, nextId: U64, buckets: map<Uuid, Bucket>)

  const EMPTY_BUCKET := Bucket(0, [], map[])

  function Initial(capBytes: U64, epoch: U64): State {
    State(capBytes, epoch, 1, map[])
  }

  function BucketOf(s: State, p: Uuid): Bucket {
    if p in s.buckets then s.buckets[p] else EMPTY_BUCKET
  }

  function EvictOne(b: Bucket): Bucket
    requires b.lru != []
  {
    var freed := if b.lru[0] in b.sizes then b.sizes[b.lru[0]] else 0;
    Bucket(SaturatingSub(b.usedBytes, freed), b.lru[1..], b.sizes - {b.lru[0]})
  }

  /** Evicts from the front until `size` more bytes fit; the flag is false when nothing is left to evict. */
  function Evict(b: Bucket, size: U64, cap: U64): (Bucket, bool)
    decreases |b.lru|
  {
    if SaturatingAdd(b.usedBytes, size) <= cap then (b, true)
    else if b.lru == [] then (b, false)
    else Evict(EvictOne(b), size, cap)
  }

  function Push(b: Bucket, id: AllocationId, size: U64): Bucket {
    Bucket(SaturatingAdd(b.usedBytes, size), b.lru + [id], b.sizes[id := size])
  }

  function StepAllocate(s: State, token: ScopeToken, size: U64): (State, Result<AllocationId, BudgetError>) {
    if size == 0 then (s, Failure(ZeroSize))
    else if size > s.capBytes then (s, Failure(OverCap))
    else if token.epoch != s.epoch then (s, Failure(StaleToken))
    else
      var (evicted, fits) := Evict(BucketOf(s, token.profileId), size, s.capBytes);
      if !fits then (s.(buckets := s.buckets[token.profileId := evicted]), Failure(Exhausted))
      else
        (s.(nextId := WrappingIncrement(s.nextId),
            buckets := s.buckets[token.profileId := Push(evicted, s.nextId, size)]),
         Success(s.nextId))
  }

  /** The check `touch` and `release` share. */
  function Lookup(s: State, token: ScopeToken, id: AllocationId): Result<Bucket, BudgetError> {
    if token.epoch != s.epoch then Failure(StaleToken)
    else if id !in BucketOf(s, token.profileId).sizes then Failure(UnknownAllocation)
    else Success(BucketOf(s, token.profileId))
  }

  function StepTouch(s: State, token: ScopeToken, id: AllocationId): (State, Result<(), BudgetError>) {
    match Lookup(s, token, id)
    case Failure(e) => (s, Failure(e))
    case Success(b) =>
      (s.(buckets := s.buckets[token.profileId := b.(lru := Without(b.lru, id) + [id])]), Success(()))
  }

  function StepRelease(s: State, token: ScopeToken, id: AllocationId): (State, Result<(), BudgetError>) {
    match Lookup(s, token, id)
    case Failure(e) => (s, Failure(e))
    case Success(b) =>
      var freed := if id in b.sizes then b.sizes[id] else 0;
      var b' := Bucket(SaturatingSub(b.usedBytes, freed), Without(b.lru, id), b.sizes - {id});
      (s.(buckets := s.buckets[token.profileId := b']), Success(()))
  }

  function UsedBytes(s: State, token: ScopeToken): U64 {
    if token.epoch != s.epoch then 0 else BucketOf(s, token.profileId).usedBytes
  }

  function StepRecovery(s: State, newEpoch: U64): State {
    s.(epoch := newEpoch, buckets := map[])
  }

  class MemoryBudget {
    const capBytes: U64
    var epoch: U64
    var nextId: U64
    var buckets: map<Uuid, Bucket>

    ghost function View(): State
      reads this
    {
      State(capBytes, epoch, nextId, buckets)
    }

    constructor (capBytes: U64, initialEpoch: U64)
      ensures View() == Initial(capBytes, initialEpoch)
    {
      this.capBytes := capBytes;
      epoch, nextId, buckets := initialEpoch, 1, map[];
    }

    method Used(token: ScopeToken) returns (bytes: U64)
      ensures bytes == UsedBytes(View(), token)
    {
      if token.epoch != epoch {
        return 0;
      }
      bytes := if token.profileId in buckets then buckets[token.profileId].usedBytes else 0;
    }

    method TryAllocate(token: ScopeToken, size: U64) returns (r: Result<AllocationId, BudgetError>)
      modifies this
      ensures (View(), r) == StepAllocate(old(View()), token, size)
    {
      if size == 0 {
        return Failure(ZeroSize);
      }
      if size > capBytes {
        return Failure(OverCap);
      }
      if token.epoch != epoch {
        return Failure(StaleToken);
      }
      var p := token.profileId;
      if p !in buckets {
        buckets := buckets[p := EMPTY_BUCKET];
      }
      ghost var start := buckets[p];
      while SaturatingAdd(buckets[p].usedBytes, size) > capBytes
        invariant p in buckets
        invariant buckets == old(buckets)[p := buckets[p]]
        invariant epoch == old(epoch) && nextId == old(nextId)
        invariant Evict(buckets[p], size, capBytes) == Evict(start, size, capBytes)
        decreases |buckets[p].lru|
      {
        var b := buckets[p];
        if b.lru == [] {
          assert buckets == StepAllocate(old(View()), token, size).0.buckets;
          return Failure(Exhausted);
        }
        var freed := if b.lru[0] in b.sizes then b.sizes[b.lru[0]] else 0;
        buckets := buckets[p := Bucket(SaturatingSub(b.usedBytes, freed), b.lru[1..], b.sizes - {b.lru[0]})];
      }
      var id := nextId;
      nextId := WrappingIncrement(nextId);
      var b := buckets[p];
      buckets := buckets[p := Bucket(SaturatingAdd(b.usedBytes, size), b.lru + [id], b.sizes[id := size])];
      assert buckets == StepAllocate(old(View()), token, size).0.buckets;
      r := Success(id);
    }

    method Touch(token: ScopeToken, id: AllocationId) returns (r: Result<(), BudgetError>)
      modifies this
      ensures (View(), r) == StepTouch(old(View()), token, id)
    {
      if token.epoch != epoch {
        return Failure(StaleToken);
      }
      if token.profileId !in buckets || id !in buckets[token.profileId].sizes {
        return Failure(UnknownAllocation);
      }
      var b := buckets[token.profileId];
      var position := Position(b.lru, id);
      var lru := if position < |b.lru| then RemoveAt(b.lru, position) else b.lru;
      buckets := buckets[token.profileId := b.(lru := lru + [id])];
      r := Success(());
    }

    method Release(token: ScopeToken, id: AllocationId) returns (r: Result<(), BudgetError>)
      modifies this
      ensures (View(), r) == StepRelease(old(View()), token, id)
    {
      if token.epoch != epoch {
        return Failure(StaleToken);
      }
      if token.profileId !in buckets || id !in buckets[token.profileId].sizes {
        return Failure(UnknownAllocation);
      }
      var b := buckets[token.profileId];
      var used := SaturatingSub(b.usedBytes, b.sizes[id]);
      var position := Position(b.lru, id);
      var lru := if position < |b.lru| then RemoveAt(b.lru, position) else b.lru;
      buckets := buckets[token.profileId := Bucket(used, lru, b.sizes - {id})];
      r := Success(());
    }

    method OnRecovery(newEpoch: U64)
      modifies this
      ensures View() == StepRecovery(old(View()), newEpoch)
    {
      epoch, buckets := newEpoch, map[];
    }
  }

  // ------------------------------------------------------- the invariant

  /** Total of the recorded sizes. */
  ghost function Sum(sizes: map<AllocationId, U64>): nat {
    if sizes == map[] then 0
    else
      var id :| id in sizes;
      sizes[id] + Sum(sizes - {id})
  }

  /** Any one entry can be split off the total. */
  lemma {:induction false} SumSplit(sizes: map<AllocationId, U64>, id: AllocationId)
    requires id in sizes
    ensures Sum(sizes) == sizes[id] + Sum(sizes - {id})
    decreases |sizes|
  {
    var first :| first in sizes && Sum(sizes) == sizes[first] + Sum(sizes - {first});
    if first == id {
    } else {
      SumSplit(sizes - {first}, id);
      SumSplit(sizes - {id}, first);
      assert sizes - {first} - {id} == sizes - {id} - {first};
    }
  }

  lemma SumInsert(sizes: map<AllocationId, U64>, id: AllocationId, size: U64)
    requires id !in sizes
    ensures Sum(sizes[id := size]) == Sum(sizes) + size
  {
    SumSplit(sizes[id := size], id);
    assert sizes[id := size] - {id} == sizes;
  }

  ghost predicate BucketInv(b: Bucket, cap: U64) {
    && b.usedBytes == Sum(b.sizes) <= cap
    && NoDuplicates(b.lru)
    && (forall id :: id in b.lru <==> id in b.sizes)
    && (forall id :: id in b.sizes ==> b.sizes[id] > 0)
  }

  /** Exact accounting under the cap, and ids that are below the counter and never shared. */
  ghost predicate Inv(s: State) {
    && (forall p :: BucketInv(BucketOf(s, p), s.capBytes))
    && (forall p, id :: id in BucketOf(s, p).sizes ==> id < s.nextId)
    && (forall p, q, id :: id in BucketOf(s, p).sizes && id in BucketOf(s, q).sizes ==> p == q)
  }

  /** The saturating arithmetic never rounds exactly when the cap is not the largest `u64`. */
  predicate CapIsExact(capBytes: U64) {
    capBytes < TWO_64 - 1
  }

  lemma EvictOneKeepsInv(b: Bucket, cap: U64)
    requires BucketInv(b, cap) && b.lru != []
    ensures BucketInv(EvictOne(b), cap)
    ensures EvictOne(b).usedBytes == b.usedBytes - b.sizes[b.lru[0]]
  {
    var id := b.lru[0];
    SumSplit(b.sizes, id);
    assert b.lru == [id] + b.lru[1..];
    assert id !in b.lru[1..];
  }

  /** The bytes an LRU-ordered list of allocations occupies. */
  ghost function BytesOf(b: Bucket, ids: seq<AllocationId>): nat
    requires forall id :: id in ids ==> id in b.sizes
  {
    if ids == [] then 0 else b.sizes[ids[0]] + BytesOf(b, ids[1..])
  }

  /** `rest` is `b` after its first `n` least recently used allocations have gone. */
  ghost predicate DropsOldest(b: Bucket, rest: Bucket, n: nat) {
    && n <= |b.lru|
    && rest.lru == b.lru[n..]
    && rest.sizes == map id | id in b.sizes && id !in b.lru[..n] :: b.sizes[id]
  }

  lemma TouchKeepsBucketInv(b: Bucket, cap: U64, id: AllocationId)
    requires BucketInv(b, cap) && id in b.sizes
    ensures BucketInv(b.(lru := Without(b.lru, id) + [id]), cap)
  {
    WithoutKeepsOthers(b.lru, id);
  }

  lemma ReleaseKeepsBucketInv(b: Bucket, cap: U64, id: AllocationId)
    requires BucketInv(b, cap) && id in b.sizes
    ensures BucketInv(Bucket(SaturatingSub(b.usedBytes, b.sizes[id]), Without(b.lru, id), b.sizes - {id}), cap)
  {
    WithoutKeepsOthers(b.lru, id);
    SumSplit(b.sizes, id);
  }

  lemma DropOneMore(b: Bucket, rest: Bucket, n: nat)
    requires NoDuplicates(b.lru) && b.lru != [] && DropsOldest(EvictOne(b), rest, n)
    ensures DropsOldest(b, rest, n + 1)
  {
    assert b.lru[..n + 1] == [b.lru[0]] + EvictOne(b).lru[..n];
  }

  /** `n` is the least number of evictions that lets `size` more bytes fit. */
  ghost predicate LeastEviction(b: Bucket, size: U64, cap: U64, n: nat)
    requires forall id :: id in b.lru ==> id in b.sizes
  {
    && n <= |b.lru|
    && BytesOf(b, b.lru[n..]) + size <= cap
    && forall m :: 0 <= m < n ==> BytesOf(b, b.lru[m..]) + size > cap
  }

  lemma LeastEvictionOneMore(b: Bucket, size: U64, cap: U64, n: nat)
    requires BucketInv(b, cap) && b.lru != [] && b.usedBytes + size > cap
    requires BucketInv(EvictOne(b), cap) && LeastEviction(EvictOne(b), size, cap, n)
    ensures LeastEviction(b, size, cap, n + 1)
  {
    var b' := EvictOne(b);
    forall m | 0 < m <= n + 1 ensures BytesOf(b, b.lru[m..]) == BytesOf(b', b'.lru[m - 1..]) {
      assert b.lru[m..] == b'.lru[m - 1..];
      SameBytes(b, b', b.lru[m..]);
    }
    BytesOfAll(b, cap);
    assert b.lru[0..] == b.lru;
  }

  /**
   * Eviction removes the shortest prefix of the LRU order that lets the request fit, and a request
   * that is at most the cap always ends up fitting.
   */
  lemma {:induction false} EvictIsMinimalLru(b: Bucket, size: U64, cap: U64)
    returns (n: nat)
    requires BucketInv(b, cap) && CapIsExact(cap) && size <= cap
    ensures var (rest, fits) := Evict(b, size, cap);
      && fits
      && BucketInv(rest, cap)
      && rest.usedBytes + size <= cap
      && DropsOldest(b, rest, n)
    ensures LeastEviction(b, size, cap, n)
    decreases |b.lru|
  {
    BytesOfAll(b, cap);
    if b.usedBytes + size <= cap {
      n := 0;
      assert b.lru[0..] == b.lru;
    } else {
      assert b.lru == [] ==> b.sizes == map[];
      EvictOneKeepsInv(b, cap);
      var n' := EvictIsMinimalLru(EvictOne(b), size, cap);
      n := n' + 1;
      DropOneMore(b, Evict(b, size, cap).0, n');
      LeastEvictionOneMore(b, size, cap, n');
    }
  }

  lemma {:induction false} SameBytes(b: Bucket, c: Bucket, ids: seq<AllocationId>)
    requires forall id :: id in ids ==> id in b.sizes && id in c.sizes && b.sizes[id] == c.sizes[id]
    ensures BytesOf(b, ids) == BytesOf(c, ids)
  {
    if ids == [] {
    } else {
      SameBytes(b, c, ids[1..]);
    }
  }

  /** The whole LRU order accounts for every used byte. */
  lemma {:induction false} BytesOfAll(b: Bucket, cap: U64)
    requires BucketInv(b, cap)
    ensures BytesOf(b, b.lru) == b.usedBytes
    decreases |b.lru|
  {
    if b.lru == [] {
      assert b.sizes == map[];
    } else {
      EvictOneKeepsInv(b, cap);
      BytesOfAll(EvictOne(b), cap);
      SameBytes(b, EvictOne(b), b.lru[1..]);
    }
  }
}
