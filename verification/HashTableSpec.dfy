/** What a hash table promises: a finite map modulo key matching, with a
    capacity that decides which insertions are refused. */
module HashTableSpec {
  import opened Bits
  import opened Results
  import opened RobinHood

  const MAX_HASHITEM_SIZEOF: nat := 32
  const MAX_HASHTABLE_SIZE: nat := 0x8000_0000 / MAX_HASHITEM_SIZEOF

  /** Most live items a table of this capacity may hold: about 85 percent. */
  function ResizeThreshold(capacity: nat): nat {
    217 * capacity / 256
  }

  ghost predicate ValidCapacity(capacity: nat) {
    IsPow2(capacity) && capacity <= MAX_HASHTABLE_SIZE
  }

  datatype State<K, V> = State(bindings: map<K, V>, capacity: nat)

  ghost predicate PairwiseUnmatched<K(!new), V>(cb: Callbacks<K>, m: map<K, V>) {
    forall a, b :: a in m && b in m && a != b ==> !cb.keyMatch(a, b)
  }

  ghost predicate Good<K(!new), V>(cb: Callbacks<K>, st: State<K, V>) {
    && ValidCapacity(st.capacity)
    && |st.bindings| <= ResizeThreshold(st.capacity)
    && PairwiseUnmatched(cb, st.bindings)
  }

  /** The bindings whose keys do not match `key`. */
  ghost function Without<K(!new), V>(cb: Callbacks<K>, m: map<K, V>, key: K): map<K, V> {
    map k | k in m && !cb.keyMatch(k, key) :: m[k]
  }

  /** The value bound to a key matching `key`, if any. */
  ghost function Lookup<K(!new), V>(cb: Callbacks<K>, m: map<K, V>, key: K): Option<V> {
    if HasMatch(cb, m, key) then
      var k :| k in m && cb.keyMatch(k, key);
      Some(m[k])
    else None
  }

  /** An insertion, where `memory` says whether a larger table can be allocated. */
  ghost function InsertStep<K(!new), V>(cb: Callbacks<K>, st: State<K, V>, key: K, value: V,
                                        replace: bool, memory: bool): (State<K, V>, bool)
  {
    if HasMatch(cb, st.bindings, key) && !replace then (st, false)
    else
      var kept := Without(cb, st.bindings, key);
      if st.capacity >= MAX_HASHTABLE_SIZE then (State(kept, st.capacity), false)
      else if |kept| + 1 <= ResizeThreshold(st.capacity) then
        (State(kept[key := value], st.capacity), true)
      else if memory then (State(kept[key := value], 2 * st.capacity), true)
      else (State(kept, st.capacity), false)
  }

  // ---- single operations ------------------------------------------------

  /** Matching keys match the same keys, from either side. */
  lemma MatchesAgree<K(!new)>(cb: Callbacks<K>, a: K, b: K, c: K)
    requires cb.WellBehaved() && cb.keyMatch(a, b)
    ensures cb.keyMatch(a, c) <==> cb.keyMatch(b, c)
    ensures cb.keyMatch(c, a) <==> cb.keyMatch(c, b)
    ensures cb.keyMatch(a, c) <==> cb.keyMatch(c, a)
  {
    assert cb.keyMatch(b, a);
  }

  lemma LookupFinds<K(!new), V>(cb: Callbacks<K>, m: map<K, V>, k: K, key: K)
    requires cb.WellBehaved() && PairwiseUnmatched(cb, m)
    requires k in m && cb.keyMatch(k, key)
    ensures Lookup(cb, m, key) == Some(m[k])
  {
    assert HasMatch(cb, m, key);
    var k' :| k' in m && cb.keyMatch(k', key) && Lookup(cb, m, key) == Some(m[k']);
    assert cb.keyMatch(key, k') && cb.keyMatch(k, k');
  }

  /** Lookups of keys that do not match `key` do not see it leave. */
  lemma WithoutForgetsOnly<K(!new), V>(cb: Callbacks<K>, m: map<K, V>, key: K, other: K)
    requires cb.WellBehaved() && PairwiseUnmatched(cb, m)
    ensures Lookup(cb, Without(cb, m, key), other)
         == if cb.keyMatch(key, other) then None else Lookup(cb, m, other)
    ensures PairwiseUnmatched(cb, Without(cb, m, key))
  {
    var kept := Without(cb, m, key);
    if k :| k in m && cb.keyMatch(k, other) {
      LookupFinds(cb, m, k, other);
      if cb.keyMatch(key, other) {
        forall k' | k' in kept ensures !cb.keyMatch(k', other) {
          MatchesAgree(cb, key, other, k');
        }
      } else {
        MatchesAgree(cb, k, other, key);
        LookupFinds(cb, kept, k, other);
      }
    }
  }

  lemma BindingIsSeen<K(!new), V>(cb: Callbacks<K>, m: map<K, V>, key: K, value: V, other: K)
    requires cb.WellBehaved() && PairwiseUnmatched(cb, m) && !HasMatch(cb, m, key)
    ensures Lookup(cb, m[key := value], other)
         == if cb.keyMatch(key, other) then Some(value) else Lookup(cb, m, other)
    ensures PairwiseUnmatched(cb, m[key := value])
  {
    var m' := m[key := value];
    forall a | a in m ensures a != key && !cb.keyMatch(a, key) && !cb.keyMatch(key, a) {
      assert !cb.keyMatch(a, key);
      assert cb.keyMatch(key, key);
    }
    if cb.keyMatch(key, other) {
      LookupFinds(cb, m', key, other);
    } else if k :| k in m && cb.keyMatch(k, other) {
      LookupFinds(cb, m, k, other);
      LookupFinds(cb, m', k, other);
    }
  }

  /** A matching key is the only one, so dropping it drops all that match. */
  lemma MatchIsAlone<K(!new), V>(cb: Callbacks<K>, m: map<K, V>, k: K, key: K)
    requires cb.WellBehaved() && PairwiseUnmatched(cb, m)
    requires k in m && cb.keyMatch(k, key)
    ensures Without(cb, m, key) == m - {k}
  {
    forall a | a in m && cb.keyMatch(a, key) ensures a == k {
      assert cb.keyMatch(key, k) && cb.keyMatch(a, k);
    }
  }

  /** Fewer bindings remain when a matching key leaves, by exactly one. */
  lemma WithoutDropsOne<K(!new), V>(cb: Callbacks<K>, m: map<K, V>, key: K)
    requires cb.WellBehaved() && PairwiseUnmatched(cb, m)
    ensures |Without(cb, m, key)| == |m| - if HasMatch(cb, m, key) then 1 else 0
  {
    var kept := Without(cb, m, key);
    if k :| k in m && cb.keyMatch(k, key) {
      MatchIsAlone(cb, m, k, key);
      RemovingCounts(m, k);
    } else {
      assert kept == m;
    }
  }

  lemma AbsentKeyStep<K(!new), V>(cb: Callbacks<K>, st: State<K, V>, key: K, value: V, memory: bool)
    requires !HasMatch(cb, st.bindings, key)
    ensures Without(cb, st.bindings, key) == st.bindings
    ensures InsertStep(cb, st, key, value, false, memory) == InsertStep(cb, st, key, value, true, memory)
  {
  }

  /** Replacing is deleting and then inserting. */
  lemma InsertAfterDelete<K(!new), V>(cb: Callbacks<K>, st: State<K, V>, key: K, value: V, replace: bool, memory: bool)
    requires replace || !HasMatch(cb, st.bindings, key)
    ensures
      var kept := Without(cb, st.bindings, key);
      && !HasMatch(cb, kept, key)
      && (!HasMatch(cb, st.bindings, key) ==> kept == st.bindings)
      && InsertStep(cb, st, key, value, replace, memory)
         == InsertStep(cb, State(kept, st.capacity), key, value, false, memory)
  {
    var kept := Without(cb, st.bindings, key);
    assert Without(cb, kept, key) == kept;
    if !HasMatch(cb, st.bindings, key) {
      assert kept == st.bindings;
    }
  }

  /** What an insertion does to the lookup of every key: a granted one binds
      exactly its key, a refused one changes nothing, except that with
      `replace` the old binding of the key is gone all the same. */
  lemma InsertionEffect<K(!new), V>(cb: Callbacks<K>, st: State<K, V>, key: K, value: V,
                                    replace: bool, memory: bool, other: K)
    requires cb.WellBehaved() && Good(cb, st)
    ensures
      var (st', ok) := InsertStep(cb, st, key, value, replace, memory);
      Lookup(cb, st'.bindings, other)
      == if !cb.keyMatch(key, other) then Lookup(cb, st.bindings, other)
         else if ok then Some(value)
         else if replace then None
         else Lookup(cb, st.bindings, other)
  {
    var kept := Without(cb, st.bindings, key);
    WithoutForgetsOnly(cb, st.bindings, key, other);
    assert !HasMatch(cb, kept, key);
    BindingIsSeen(cb, kept, key, value, other);
    if cb.keyMatch(key, other) && !HasMatch(cb, st.bindings, key) {
      forall k | k in st.bindings ensures !cb.keyMatch(k, other) {
        MatchesAgree(cb, key, other, k);
      }
    }
  }

  /** A load of 217 items to 256 slots is allowed. */
  lemma ThresholdIsLoad(capacity: nat, n: int)
    ensures n <= ResizeThreshold(capacity) <==> 256 * n <= 217 * capacity
  {
  }

  /** What an insertion of an absent key does. */
  lemma AbsentKeyIsAdded<K(!new), V>(cb: Callbacks<K>, st: State<K, V>, key: K, value: V, memory: bool)
    requires !HasMatch(cb, st.bindings, key)
    ensures
      var fits := |st.bindings| + 1 <= ResizeThreshold(st.capacity);
      InsertStep(cb, st, key, value, false, memory)
      == if st.capacity >= MAX_HASHTABLE_SIZE || (!fits && !memory) then (st, false)
         else (State(st.bindings[key := value], if fits then st.capacity else 2 * st.capacity), true)
  {
    AbsentKeyStep(cb, st, key, value, memory);
  }

  /** Exactly when an insertion is granted, and when it doubles the capacity: a new key
      needs a load of at most 217 to 256, or memory, and a capacity below 2^26. */
  lemma InsertionGrantedIff<K(!new), V>(cb: Callbacks<K>, st: State<K, V>, key: K, value: V,
                                        replace: bool, memory: bool)
    requires cb.WellBehaved() && Good(cb, st)
    ensures
      var (st', ok) := InsertStep(cb, st, key, value, replace, memory);
      var bound := HasMatch(cb, st.bindings, key);
      var fits := 256 * (|st.bindings| + 1) <= 217 * st.capacity;
      && (ok <==> st.capacity < 0x400_0000 && if bound then replace else fits || memory)
      && st'.capacity == if ok && !bound && !fits then 2 * st.capacity else st.capacity
  {
    WithoutDropsOne(cb, st.bindings, key);
    ThresholdIsLoad(st.capacity, |st.bindings|);
    ThresholdIsLoad(st.capacity, |st.bindings| + 1);
  }

  lemma ThresholdGrows(capacity: nat)
    requires 1 <= capacity
    ensures ResizeThreshold(capacity) < capacity
    ensures ResizeThreshold(capacity) + 1 <= ResizeThreshold(2 * capacity)
  {
  }

  lemma DoublingStaysValid(capacity: nat)
    requires ValidCapacity(capacity) && capacity < MAX_HASHTABLE_SIZE
    ensures ValidCapacity(2 * capacity)
  {
    var k: nat :| capacity == Pow2(k);
    assert 2 * capacity == Pow2(k + 1);
    Pow2Of26();
    if k > 26 {
      Pow2Monotone(26, k);
    } else if k < 26 {
      Pow2Monotone(k, 26);
    }
  }

  lemma PowerAboveHalf(n: nat)
    requires ValidCapacity(n) && MAX_HASHTABLE_SIZE / 2 < n
    ensures n == MAX_HASHTABLE_SIZE
  {
    var k: nat :| n == Pow2(k);
    Pow2Of26();
    if k > 26 {
      Pow2Monotone(26, k);
    } else if k < 26 {
      Pow2Monotone(k, 26);
    }
  }

  lemma Pow2Of26()
    ensures Pow2(26) == MAX_HASHTABLE_SIZE
  {
    assert Pow2(8) == 256;
    assert Pow2(16) == 65536;
    assert Pow2(24) == 0x100_0000;
  }

  /** A table stays within its load factor and its capacity limit. */
  lemma InsertionKeepsGood<K(!new), V>(cb: Callbacks<K>, st: State<K, V>, key: K, value: V,
                                       replace: bool, memory: bool)
    requires cb.WellBehaved() && Good(cb, st)
    ensures Good(cb, InsertStep(cb, st, key, value, replace, memory).0)
  {
    var kept := Without(cb, st.bindings, key);
    WithoutDropsOne(cb, st.bindings, key);
    WithoutForgetsOnly(cb, st.bindings, key, key);
    assert !HasMatch(cb, kept, key);
    BindingIsSeen(cb, kept, key, value, key);
    assert key !in kept by { assert cb.keyMatch(key, key); }
    ThresholdGrows(st.capacity);
    if st.capacity < MAX_HASHTABLE_SIZE {
      DoublingStaysValid(st.capacity);
    }
  }

  // ---- runs -------------------------------------------------------------

  datatype Op<K, V> =
    | Insert(key: K, value: V, replace: bool, memory: bool)
    | Remove(key: K)
    | Find(key: K)
    | Clear

  datatype Reply<V> = Reply(ok: bool, value: Option<V>)

  ghost function Step<K(!new), V>(cb: Callbacks<K>, st: State<K, V>, op: Op<K, V>): (State<K, V>, Reply<V>) {
    match op
    case Insert(key, value, replace, memory) =>
      var (st', ok) := InsertStep(cb, st, key, value, replace, memory);
      (st', Reply(ok, None))
    case Remove(key) =>
      (st.(bindings := Without(cb, st.bindings, key)), Reply(HasMatch(cb, st.bindings, key), None))
    case Find(key) =>
      (st, Reply(HasMatch(cb, st.bindings, key), Lookup(cb, st.bindings, key)))
    case Clear =>
      (st.(bindings := map[]), Reply(true, None))
  }

  /** The operations of `ops` from first to last, with their replies. */
  ghost function Run<K(!new), V>(cb: Callbacks<K>, st: State<K, V>, ops: seq<Op<K, V>>)
    : (r: (State<K, V>, seq<Reply<V>>))
    ensures |r.1| == |ops|
  {
    if ops == [] then (st, [])
    else
      var (mid, replies) := Run(cb, st, ops[..|ops| - 1]);
      var (end, reply) := Step(cb, mid, ops[|ops| - 1]);
      (end, replies + [reply])
  }

  lemma StepKeepsGood<K(!new), V>(cb: Callbacks<K>, st: State<K, V>, op: Op<K, V>)
    requires cb.WellBehaved() && Good(cb, st)
    ensures Good(cb, Step(cb, st, op).0)
  {
    match op
    case Insert(key, value, replace, memory) => InsertionKeepsGood(cb, st, key, value, replace, memory);
    case Remove(key) =>
      WithoutDropsOne(cb, st.bindings, key);
      WithoutForgetsOnly(cb, st.bindings, key, key);
    case Find(key) =>
    case Clear =>
  }

  lemma {:induction false} RunKeepsGood<K(!new), V>(cb: Callbacks<K>, st: State<K, V>, ops: seq<Op<K, V>>)
    requires cb.WellBehaved() && Good(cb, st)
    ensures Good(cb, Run(cb, st, ops).0)
  {
    if ops != [] {
      var before := ops[..|ops| - 1];
      RunKeepsGood(cb, st, before);
      StepKeepsGood(cb, Run(cb, st, before).0, ops[|ops| - 1]);
    }
  }

  /** What `key` is bound to, told from the operations and their replies alone:
      the last one that wrote, dropped or cleared it decides. */
  ghost function LastWrite<K(!new), V>(cb: Callbacks<K>, ops: seq<Op<K, V>>, replies: seq<Reply<V>>, key: K): Option<V>
    requires |ops| == |replies|
  {
    if ops == [] then None
    else
      var n := |ops| - 1;
      match ops[n]
      case Insert(k, v, replace, _) =>
        if cb.keyMatch(k, key) && replies[n].ok then Some(v)
        else if cb.keyMatch(k, key) && replace then None
        else LastWrite(cb, ops[..n], replies[..n], key)
      case Remove(k) =>
        if cb.keyMatch(k, key) then None else LastWrite(cb, ops[..n], replies[..n], key)
      case Find(_) => LastWrite(cb, ops[..n], replies[..n], key)
      case Clear => None
  }

  /** After any run on an empty table a lookup returns what was last written. */
  lemma {:induction false} LookupIsLastWrite<K(!new), V>(cb: Callbacks<K>, st: State<K, V>, ops: seq<Op<K, V>>, key: K)
    requires cb.WellBehaved() && Good(cb, st) && st.bindings == map[]
    ensures Lookup(cb, Run(cb, st, ops).0.bindings, key)
         == LastWrite(cb, ops, Run(cb, st, ops).1, key)
  {
    if ops != [] {
      var n := |ops| - 1;
      var (mid, replies) := Run(cb, st, ops[..n]);
      LookupIsLastWrite(cb, st, ops[..n], key);
      RunKeepsGood(cb, st, ops[..n]);
      var all := Run(cb, st, ops).1;
      assert all[..n] == replies;
      match ops[n]
      case Insert(k, v, replace, memory) => InsertionEffect(cb, mid, k, v, replace, memory, key);
      case Remove(k) => WithoutForgetsOnly(cb, mid.bindings, k, key);
      case Find(_) =>
      case Clear =>
    }
  }

  /** A table that has reached the size limit never grants an insertion again,
      however empty it becomes. */
  lemma {:induction false} FullSizeRefusesForever<K(!new), V>(cb: Callbacks<K>, st: State<K, V>, ops: seq<Op<K, V>>)
    requires st.capacity == MAX_HASHTABLE_SIZE
    ensures Run(cb, st, ops).0.capacity == MAX_HASHTABLE_SIZE
    ensures forall i :: 0 <= i < |ops| && ops[i].Insert? ==> !Run(cb, st, ops).1[i].ok
  {
    if ops != [] {
      FullSizeRefusesForever(cb, st, ops[..|ops| - 1]);
    }
  }

  // ---- capacity from an estimate ----------------------------------------

  function CalculateHashBucketsFromEstimate(estimatedCapacity: int): (n: nat)
    requires -0x8000_0000 <= estimatedCapacity < 0x8000_0000
  {
    if estimatedCapacity <= 0 then 4
    else
      var buckets := Pow2(MostSignificantBit(estimatedCapacity));
      var rounded := if HasExactlyOneBitSet(estimatedCapacity) then buckets else 2 * buckets;
      Min(rounded, MAX_HASHTABLE_SIZE)
  }

  /** A fresh table has the least power of two that reaches the estimate, cut
      off at the size limit. */
  lemma BucketsReachEstimate(estimatedCapacity: int)
    requires -0x8000_0000 <= estimatedCapacity < 0x8000_0000
    ensures
      var n := CalculateHashBucketsFromEstimate(estimatedCapacity);
      && ValidCapacity(n)
      && (estimatedCapacity <= 0 ==> n == 4)
      && (estimatedCapacity > 0 ==>
            && (estimatedCapacity <= n || n == MAX_HASHTABLE_SIZE)
            && (forall j: nat :: estimatedCapacity <= Pow2(j) ==> n <= Pow2(j)))
  {
    var n := CalculateHashBucketsFromEstimate(estimatedCapacity);
    Pow2Of26();
    if estimatedCapacity <= 0 {
      assert 4 == Pow2(2);
    } else {
      var k := MostSignificantBit(estimatedCapacity);
      OneBitIsPow2(estimatedCapacity);
      assert 2 * Pow2(k) == Pow2(k + 1);
      forall j: nat | estimatedCapacity <= Pow2(j) ensures n <= Pow2(j) {
        if j < k {
          Pow2Monotone(j, k);
        } else if j > k {
          Pow2Monotone(k, j);
        }
      }
    }
  }

  /** An estimate above half the size limit therefore makes a table that can
      never hold anything. */
  lemma {:induction false} LargeEstimateHoldsNothing<K(!new), V>(cb: Callbacks<K>, estimatedCapacity: int,
                                                             ops: seq<Op<K, V>>)
    requires MAX_HASHTABLE_SIZE / 2 < estimatedCapacity < 0x8000_0000
    ensures
      var st := State(map[], CalculateHashBucketsFromEstimate(estimatedCapacity));
      Run(cb, st, ops).0.bindings == map[]
    decreases |ops|
  {
    var n := CalculateHashBucketsFromEstimate(estimatedCapacity);
    BucketsReachEstimate(estimatedCapacity);
    PowerAboveHalf(n);
    if ops != [] {
      var st: State<K, V> := State(map[], n);
      LargeEstimateHoldsNothing(cb, estimatedCapacity, ops[..|ops| - 1]);
      FullSizeRefusesForever(cb, st, ops[..|ops| - 1]);
    }
  }
}
