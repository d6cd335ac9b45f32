/** The bounded LRU map that holds one egress state per network partition. */
module PartitionLruModel {
  import opened Common

  /** A derived partition key; opaque. */
  datatype PartitionKey = PartitionKey(digest: nat)

  datatype Lru<V> = Lru(entries: map<PartitionKey, V>, order: seq<PartitionKey>)

  function Empty<V>(): Lru<V> {
    Lru(map[], [])
  }

  /** `touch_to_back` */
  function ToBack(order: seq<PartitionKey>, key: PartitionKey): seq<PartitionKey> {
    if key in order then Without(order, key) + [key] else order
  }

  function GetOrInsert<V>(s: Lru<V>, cap: nat, default: V, key: PartitionKey): Lru<V> {
    if key in s.entries then s.(order := ToBack(s.order, key))
    else
      var evicts := |s.order| >= cap && s.order != [];
      var kept := if evicts then s.entries - {s.order[0]} else s.entries;
      Lru(if key in kept then kept else kept[key := default],
          (if evicts then s.order[1..] else s.order) + [key])
  }

  function Removed<V>(s: Lru<V>, key: PartitionKey): Lru<V> {
    Lru(s.entries - {key}, Without(s.order, key))
  }

  /** `order` is a duplicate-free listing of the keys, no longer than the cap (or 1, for cap 0). */
  ghost predicate Inv<V>(s: Lru<V>, cap: nat) {
    && NoDuplicates(s.order)
    && (forall k :: k in s.order <==> k in s.entries)
    && |s.order| <= (if cap == 0 then 1 else cap)
  }

  class PartitionLru<V> {
    var entries: map<PartitionKey, V>
    var order: seq<PartitionKey>
    const cap: nat
    const default: V

    ghost function View(): Lru<V>
      reads this
    {
      Lru(entries, order)
    }

    constructor (cap: nat, default: V)
      ensures View() == Empty() && this.cap == cap && this.default == default
    {
      this.cap, this.default := cap, default;
      entries, order := map[], [];
    }

    method TouchToBack(key: PartitionKey)
      modifies this`order
      ensures order == ToBack(old(order), key)
    {
      var position := Position(order, key);
      if position < |order| {
        order := RemoveAt(order, position) + [key];
      }
    }

    method GetOrInsertDefault(key: PartitionKey) returns (value: V)
      requires Inv(View(), cap)
      modifies this
      ensures View() == GetOrInsert(old(View()), cap, default, key) && Inv(View(), cap)
      ensures key in entries && value == entries[key]
      ensures value == if key in old(entries) then old(entries)[key] else default
    {
      GetOrInsertKeepsInv(View(), cap, default, key);
      if key in entries {
        TouchToBack(key);
        return entries[key];
      }
      if |order| >= cap {
        if order != [] {
          var evicted := order[0];
          order := order[1..];
          entries := entries - {evicted};
        }
      }
      order := order + [key];
      entries := entries[key := default];
      value := default;
    }

    method Remove(key: PartitionKey) returns (value: Option<V>)
      requires Inv(View(), cap)
      modifies this
      ensures View() == Removed(old(View()), key) && Inv(View(), cap)
      ensures value == if key in old(entries) then Some(old(entries)[key]) else None
    {
      RemovedKeepsInv(View(), cap, key);
      var position := Position(order, key);
      if position < |order| {
        order := RemoveAt(order, position);
      }
      value := if key in entries then Some(entries[key]) else None;
      entries := entries - {key};
    }
  }

  lemma GetOrInsertKeepsInv<V>(s: Lru<V>, cap: nat, default: V, key: PartitionKey)
    requires Inv(s, cap)
    ensures Inv(GetOrInsert(s, cap, default, key), cap)
    ensures key in GetOrInsert(s, cap, default, key).entries
  {
    if key in s.entries {
      WithoutKeepsOthers(s.order, key);
    } else if |s.order| >= cap && s.order != [] {
      assert s.order == [s.order[0]] + s.order[1..];
    }
  }

  lemma RemovedKeepsInv<V>(s: Lru<V>, cap: nat, key: PartitionKey)
    requires Inv(s, cap)
    ensures Inv(Removed(s, key), cap)
  {
    WithoutKeepsOthers(s.order, key);
  }

  /** A use keeps every value it does not evict, and evicts at most the key used longest ago. */
  lemma UseKeepsValues<V>(s: Lru<V>, cap: nat, default: V, key: PartitionKey)
    requires Inv(s, cap)
    ensures var s' := GetOrInsert(s, cap, default, key);
      && key in s'.entries && s'.entries[key] == (if key in s.entries then s.entries[key] else default)
      && (forall k :: k in s'.entries && k != key ==> k in s.entries && s'.entries[k] == s.entries[k])
      && (forall k :: k in s.entries && k !in s'.entries ==>
            key !in s.entries && |s.order| >= cap && k == s.order[0])
  {
    assert forall k :: k in s.order <==> k in s.entries;
  }

  /** A drop takes its own key's value and no other. */
  lemma DropKeepsValues<V>(s: Lru<V>, key: PartitionKey)
    ensures var s' := Removed(s, key);
      && key !in s'.entries
      && forall k :: k != key ==> (k in s'.entries <==> k in s.entries) && (k in s.entries ==> s'.entries[k] == s.entries[k])
  {
  }

  // ---------------------------------------------------------------- runs

  datatype Op = Use(key: PartitionKey) | Drop(key: PartitionKey)

  function Step(s: Lru<()>, cap: nat, op: Op): Lru<()> {
    match op
    case Use(key) => GetOrInsert(s, cap, (), key)
    case Drop(key) => Removed(s, key)
  }

  /** The map after `ops`, from empty. */
  function Run(ops: seq<Op>, cap: nat): Lru<()> {
    if ops == [] then Empty() else Step(Run(ops[..|ops| - 1], cap), cap, ops[|ops| - 1])
  }

  lemma {:induction false} RunKeepsInv(ops: seq<Op>, cap: nat)
    ensures Inv(Run(ops, cap), cap)
    ensures |Run(ops, cap).order| <= |ops|
  {
    if ops == [] {
    } else {
      var before := ops[..|ops| - 1];
      RunKeepsInv(before, cap);
      match ops[|ops| - 1]
      case Use(key) => GetOrInsertKeepsInv(Run(before, cap), cap, (), key);
      case Drop(key) => RemovedKeepsInv(Run(before, cap), cap, key);
    }
  }

  predicate IsSuffix<T(==)>(s: seq<T>, t: seq<T>) {
    |s| <= |t| && t[|t| - |s|..] == s
  }

  lemma RemoveAtAppend(pre: seq<PartitionKey>, s: seq<PartitionKey>, k: nat)
    requires k < |s|
    ensures RemoveAt(pre + s, |pre| + k) == pre + RemoveAt(s, k)
  {
  }

  lemma WithoutInSecond(pre: seq<PartitionKey>, s: seq<PartitionKey>, key: PartitionKey)
    requires key !in pre
    ensures Without(pre + s, key) == pre + Without(s, key)
  {
    PositionOfAppend(pre, s, key);
    var k := Position(s, key);
    if k < |s| {
      RemoveAtAppend(pre, s, k);
    }
  }

  lemma WithoutInFirst(pre: seq<PartitionKey>, s: seq<PartitionKey>, key: PartitionKey)
    requires key in pre
    ensures Without(pre + s, key) == Without(pre, key) + s
  {
    var k := Position(pre, key);
    assert (pre + s)[k] == key && forall i :: 0 <= i < k ==> (pre + s)[i] == pre[i] != key;
    PositionIs(pre + s, key, k);
    assert RemoveAt(pre + s, k) == RemoveAt(pre, k) + s;
  }

  lemma SuffixWithout(s: seq<PartitionKey>, t: seq<PartitionKey>, key: PartitionKey)
    requires IsSuffix(s, t) && NoDuplicates(t)
    ensures IsSuffix(Without(s, key), Without(t, key))
  {
    var n := |t| - |s|;
    var pre := t[..n];
    assert t == pre + s;
    if key in pre {
      WithoutInFirst(pre, s, key);
      assert key !in s;
    } else {
      WithoutInSecond(pre, s, key);
    }
  }

  lemma SuffixAppend(s: seq<PartitionKey>, t: seq<PartitionKey>, key: PartitionKey)
    requires IsSuffix(s, t)
    ensures IsSuffix(s + [key], t + [key])
  {
  }

  /** One step keeps the smaller map's order a suffix of the larger one's. */
  lemma StepKeepsSuffix(s: Lru<()>, t: Lru<()>, c: nat, c': nat, op: Op)
    requires 1 <= c <= c' && Inv(s, c) && Inv(t, c') && IsSuffix(s.order, t.order)
    ensures IsSuffix(Step(s, c, op).order, Step(t, c', op).order)
  {
    var key := op.key;
    SuffixWithout(s.order, t.order, key);
    assert forall k :: k in s.order ==> k in t.order;
    if op.Use? {
      if key in s.entries {
        SuffixAppend(Without(s.order, key), Without(t.order, key), key);
      } else {
        var kept := if |s.order| >= c then s.order[1..] else s.order;
        var kept' := if key in t.entries then Without(t.order, key)
                     else if |t.order| >= c' then t.order[1..] else t.order;
        assert Without(s.order, key) == s.order;
        assert IsSuffix(kept, kept');
        SuffixAppend(kept, kept', key);
      }
    }
  }

  /**
   * The stack property of LRU: after any uses and drops from empty, a smaller map holds the most
   * recent part of what a larger one holds, in the same order.
   */
  lemma {:induction false} SmallerIsSuffix(ops: seq<Op>, c: nat, c': nat)
    requires 1 <= c <= c'
    ensures IsSuffix(Run(ops, c).order, Run(ops, c').order)
    ensures Run(ops, c).entries.Keys <= Run(ops, c').entries.Keys
  {
    RunKeepsInv(ops, c);
    RunKeepsInv(ops, c');
    if ops != [] {
      var before := ops[..|ops| - 1];
      SmallerIsSuffix(before, c, c');
      RunKeepsInv(before, c);
      RunKeepsInv(before, c');
      StepKeepsSuffix(Run(before, c), Run(before, c'), c, c', ops[|ops| - 1]);
    }
    forall k | k in Run(ops, c).order ensures k in Run(ops, c').order {
    }
  }

  // ------------------------------------------------- the unbounded list

  /** 1 + the index of the last operation on `key`, negated when it was a drop; 0 if there was none. */
  function LastOp(ops: seq<Op>, key: PartitionKey): int {
    if ops == [] then 0
    else
      var n := |ops|;
      if ops[n - 1].key == key then (if ops[n - 1].Use? then n else -n) else LastOp(ops[..n - 1], key)
  }

  lemma {:induction false} LastOpBounded(ops: seq<Op>, key: PartitionKey)
    ensures -|ops| <= LastOp(ops, key) <= |ops|
  {
    if ops == [] {
    } else {
      LastOpBounded(ops[..|ops| - 1], key);
    }
  }

  /** `order` lists exactly the keys whose last operation is a use, least recent first. */
  ghost predicate ByLastUse(ops: seq<Op>, order: seq<PartitionKey>) {
    && (forall k :: k in order <==> LastOp(ops, k) > 0)
    && (forall i, j :: 0 <= i < j < |order| ==> LastOp(ops, order[i]) < LastOp(ops, order[j]))
  }

  lemma LastOpAfter(ops: seq<Op>, op: Op, key: PartitionKey)
    ensures LastOp(ops + [op], key)
         == if key != op.key then LastOp(ops, key) else if op.Use? then |ops| + 1 else -(|ops| + 1)
  {
    assert (ops + [op])[..|ops|] == ops;
  }

  /** Where the elements left after a removal stood before. */
  function Before(p: nat, i: nat): nat {
    if i < p then i else i + 1
  }

  lemma RemovedElement(order: seq<PartitionKey>, p: nat, i: nat)
    requires p < |order| && i < |order| - 1
    ensures RemoveAt(order, p)[i] == order[Before(p, i)]
  {
  }

  /** A list increasing in any ranking stays so when a key is removed. */
  lemma WithoutKeepsOrder(rank: PartitionKey -> int, order: seq<PartitionKey>, key: PartitionKey, i: nat, j: nat)
    requires forall a, b :: 0 <= a < b < |order| ==> rank(order[a]) < rank(order[b])
    requires i < j < |Without(order, key)|
    ensures rank(Without(order, key)[i]) < rank(Without(order, key)[j])
  {
    var p := Position(order, key);
    if p < |order| {
      RemovedElement(order, p, i);
      RemovedElement(order, p, j);
      assert Before(p, i) < Before(p, j);
    }
  }

  lemma AppendByLastUse(ops: seq<Op>, order: seq<PartitionKey>, op: Op)
    requires NoDuplicates(order) && ByLastUse(ops, order)
    ensures ByLastUse(ops + [op], Without(order, op.key) + (if op.Use? then [op.key] else []))
  {
    var left := Without(order, op.key);
    var order' := left + (if op.Use? then [op.key] else []);
    WithoutKeepsOthers(order, op.key);
    forall k ensures k in order' <==> LastOp(ops + [op], k) > 0 {
      LastOpAfter(ops, op, k);
    }
    forall i, j | 0 <= i < j < |order'| ensures LastOp(ops + [op], order'[i]) < LastOp(ops + [op], order'[j]) {
      assert order'[i] == left[i] && left[i] in left;
      LastOpAfter(ops, op, order'[i]);
      LastOpAfter(ops, op, order'[j]);
      LastOpBounded(ops, order'[i]);
      if j < |left| {
        assert order'[j] == left[j] && left[j] in left;
        WithoutKeepsOrder(k => LastOp(ops, k), order, op.key, i, j);
      }
    }
  }

  /** A map large enough never to evict holds every key whose last operation is a use, in that order. */
  lemma {:induction false} UnboundedByLastUse(ops: seq<Op>, cap: nat)
    requires |ops| < cap
    ensures ByLastUse(ops, Run(ops, cap).order)
  {
    if ops == [] {
    } else {
      var before, op := ops[..|ops| - 1], ops[|ops| - 1];
      UnboundedByLastUse(before, cap);
      RunKeepsInv(before, cap);
      AppendByLastUse(before, Run(before, cap).order, op);
      StepWithRoom(Run(before, cap), cap, op);
      assert before + [op] == ops;
    }
  }

  lemma StepWithRoom(s: Lru<()>, cap: nat, op: Op)
    requires Inv(s, cap) && |s.order| < cap
    ensures Step(s, cap, op).order == Without(s.order, op.key) + (if op.Use? then [op.key] else [])
  {
  }

  predicate OnlyUses(ops: seq<Op>) {
    forall i :: 0 <= i < |ops| ==> ops[i].Use?
  }

  /** Without drops a map never shrinks, and grows until it is full. */
  lemma {:induction false} SizeWithoutDrops(ops: seq<Op>, c: nat, c': nat)
    requires 1 <= c <= c' && |ops| < c' && OnlyUses(ops)
    ensures var size, all := |Run(ops, c).order|, |Run(ops, c').order|;
      size == if all <= c then all else c
    decreases |ops|
  {
    if ops == [] {
    } else {
      var before, key := ops[..|ops| - 1], ops[|ops| - 1].key;
      SizeWithoutDrops(before, c, c');
      SmallerIsSuffix(before, c, c');
      RunKeepsInv(before, c);
      RunKeepsInv(before, c');
      UseGrows(Run(before, c), c, key);
      UseGrows(Run(before, c'), c', key);
      SuffixOfSameSize(Run(before, c).order, Run(before, c').order);
      assert forall k :: k in Run(before, c).order ==> k in Run(before, c').order;
    }
  }

  lemma SuffixOfSameSize(s: seq<PartitionKey>, t: seq<PartitionKey>)
    requires IsSuffix(s, t)
    ensures |s| == |t| ==> s == t
    ensures forall k :: k in s ==> k in t
  {
  }

  lemma UseGrows(s: Lru<()>, cap: nat, key: PartitionKey)
    requires Inv(s, cap) && 1 <= cap
    ensures |Step(s, cap, Use(key)).order|
         == if key in s.order || |s.order| == cap then |s.order| else |s.order| + 1
  {
  }

  /**
   * Without drops the map holds exactly its `cap` most recently used keys: those of the list of all
   * keys ever used, ordered by last use, that have fewer than `cap` others behind them.
   */
  lemma HoldsMostRecent(ops: seq<Op>, c: nat, c': nat)
    requires 1 <= c <= c' && |ops| < c' && OnlyUses(ops)
    ensures var all := Run(ops, c').order;
      && ByLastUse(ops, all)
      && Run(ops, c).order == all[if |all| <= c then 0 else |all| - c..]
  {
    UnboundedByLastUse(ops, c');
    SmallerIsSuffix(ops, c, c');
    SizeWithoutDrops(ops, c, c');
  }
}
