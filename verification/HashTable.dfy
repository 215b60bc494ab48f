/** The table itself: open addressing with eviction on insert, backward shift
    on delete, and doubling that migrates items through the old slots. */
module HashTables {
  import opened Bits
  import opened Results
  import opened RobinHood
  import opened HashTableSpec

  /** The home bucket of a hash under a mask. */
  method Bucket(hash: uint32, hashMask: nat) returns (r: nat)
    requires IsPow2(hashMask + 1)
    ensures r == Home(hash, hashMask + 1)
  {
    r := And(hash, hashMask);
  }

  /** The next index, under a mask. */
  method Advance(idx: nat, hashMask: nat) returns (r: nat)
    requires idx <= hashMask && IsPow2(hashMask + 1)
    ensures r == Next(idx, hashMask + 1)
  {
    ghost var k: nat :| hashMask + 1 == Pow2(k);
    MaskedStep(idx, k);
    r := And(idx + 1, hashMask);
  }

  /** Exchanges the carried item with the one in a slot. */
  method Evict<K, V>(src: array<HashItem<K, V>>, at: nat, table: array<HashItem<K, V>>, idx: nat, probeLen: nat)
    requires src != table && at < src.Length && idx < table.Length
    modifies src, table
    ensures table[..] == old(table[..])[idx := old(src[at]).(probeLen := probeLen)]
    ensures src[..] == old(src[..])[at := old(table[idx])]
  {
    var tempItem := table[idx];
    table[idx] := src[at];
    src[at] := tempItem;
    table[idx] := table[idx].(probeLen := probeLen);
  }

  /** Stores the item in `src[at]` into `table`. An evicted item takes its place
      in `src[at]` and is carried on from there. */
  method InsertItem<K(!new), V>(src: array<HashItem<K, V>>, at: nat, table: array<HashItem<K, V>>,
                                hashMask: nat, maxProbe: nat, ghost e: nat)
    returns (target: nat, newMaxProbe: nat)
    requires src != table && at < src.Length
    requires table.Length == hashMask + 1 && IsPow2(table.Length)
    requires e < table.Length && !table[e].live
    modifies src, table
    ensures src[..] == old(src[..])[at := src[at]]
    ensures Inserted(table[..], target, newMaxProbe)
         == old(InsertFrom(table[..], src[at], Home(src[at].hash, table.Length), e, maxProbe))
  {
    ghost var n := table.Length;
    newMaxProbe := maxProbe;
    var idx: nat := Bucket(src[at].hash, hashMask);
    ghost var s, x, rest := table[..], src[at], InsertFrom(table[..], src[at], idx, e, maxProbe);
    ghost var end := rest;
    var found := false;
    target := 0;
    while table[idx].live
      invariant idx < n && target < n && s == table[..] && x == src[at] && !s[e].live
      invariant rest == InsertFrom(s, x, idx, e, newMaxProbe)
      invariant end == if found then rest.(target := target) else rest
      invariant src[..] == old(src[..])[at := src[at]]
      decreases ProbeLength(idx, e, n)
    {
      var candidateProbe := table[idx].probeLen;
      var home: nat := Bucket(src[at].hash, hashMask);
      var newProbe := ProbeLength(home, idx, hashMask + 1);
      var next: nat := Advance(idx, hashMask);
      if candidateProbe < newProbe {
        Evict(src, at, table, idx, newProbe);
        if !found {
          target, found := idx, true;
        }
        rest := InsertFrom(s[idx := StoredAt(x, idx, n)], s[idx], next, e, Max(newMaxProbe, newProbe));
        s, x := s[idx := StoredAt(x, idx, n)], s[idx];
        if newMaxProbe < newProbe {
          newMaxProbe := newProbe;
        }
      }
      idx := next;
    }

    var home: nat := Bucket(src[at].hash, hashMask);
    var probeLen := ProbeLength(home, idx, hashMask + 1);
    table[idx] := src[at].(probeLen := probeLen);
    if !found {
      target := idx;
    }
    if newMaxProbe < probeLen {
      newMaxProbe := probeLen;
    }
    assert table[..] == s[idx := StoredAt(x, idx, n)];
  }

  /** Fills the hole `item` from behind until the next item is at home. */
  method ShiftBack<K, V>(table: array<HashItem<K, V>>, item: nat, hashMask: nat, zero: HashItem<K, V>, ghost e: nat)
    requires table.Length == hashMask + 1 && IsPow2(table.Length)
    requires item < table.Length && e < table.Length && item != e && table[e].probeLen == 0
    modifies table
    ensures table[..] == DeleteFrom(old(table[..]), item, zero, e)
  {
    ghost var n, end := table.Length, DeleteFrom(table[..], item, zero, e);
    var hole: nat := item;
    var idx: nat := Advance(hole, hashMask);
    while table[idx].probeLen >= 1
      invariant hole < n && idx == Next(hole, n) && hole != e && table[e].probeLen == 0
      invariant DeleteFrom(table[..], hole, zero, e) == end
      decreases ProbeLength(hole, e, n)
    {
      ghost var s := table[..];
      table[hole] := table[idx].(probeLen := table[idx].probeLen - 1);
      assert table[..] == s[hole := s[idx].(probeLen := s[idx].probeLen - 1)];
      hole := idx;
      idx := Advance(hole, hashMask);
    }
    table[hole] := zero;
  }

  /** Inserts one item, with everything an insertion promises. */
  method InsertInto<K(!new, ==), V>(src: array<HashItem<K, V>>, at: nat, table: array<HashItem<K, V>>,
                                hashMask: nat, maxProbe: nat, ghost cb: Callbacks<K>, ghost m: map<K, V>)
    returns (target: nat, newMaxProbe: nat)
    requires src != table && at < src.Length
    requires table.Length == hashMask + 1 && table.Length > 1 && IsPow2(table.Length)
    requires cb.WellBehaved() && Ordered(table[..]) && Represents(cb, table[..], m)
    requires LiveCount(table[..]) < table.Length
    requires ProbesBounded(table[..], maxProbe) && maxProbe < table.Length
    requires src[at].live && src[at].hash == cb.CalcHash(src[at].key)
    requires !HasMatch(cb, m, src[at].key)
    modifies src, table
    ensures src[..] == old(src[..])[at := src[at]]
    ensures Ordered(table[..])
    ensures Represents(cb, table[..], m[old(src[at].key) := old(src[at].value)])
    ensures LiveCount(table[..]) == old(LiveCount(table[..])) + 1
    ensures maxProbe <= newMaxProbe < table.Length && ProbesBounded(table[..], newMaxProbe)
    ensures target < table.Length && table[target] == StoredAt(old(src[at]), target, table.Length)
  {
    ghost var s, x := table[..], src[at];
    ghost var e := EmptySlotExists(s);
    InsertFromCorrect(cb, s, m, x, Home(x.hash, |s|), e, maxProbe);
    InsertTargetHoldsItem(s, x, Home(x.hash, |s|), e, maxProbe);
    target, newMaxProbe := InsertItem(src, at, table, hashMask, maxProbe, e);
  }

  /** Migrates one old slot; `s` is the old table as it was at the start. */
  method MigrateSlot<K(!new, ==), V>(oldTable: array<HashItem<K, V>>, i: nat, newTable: array<HashItem<K, V>>,
                                     newHashMask: nat, maxProbe: nat, ghost cb: Callbacks<K>,
                                     ghost s: seq<HashItem<K, V>>, ghost m: map<K, V>)
    returns (newMaxProbe: nat)
    requires oldTable != newTable && i < oldTable.Length == |s| < newTable.Length == newHashMask + 1
    requires IsPow2(newTable.Length) && cb.WellBehaved() && Represents(cb, s, m) && oldTable[i] == s[i]
    requires Migrated(cb, s, i, newTable[..], maxProbe)
    modifies oldTable, newTable
    ensures oldTable[..] == old(oldTable[..])[i := oldTable[i]]
    ensures Migrated(cb, s, i + 1, newTable[..], newMaxProbe)
  {
    newMaxProbe := maxProbe;
    CollectedNext(cb, s, m, i);
    if oldTable[i].live {
      var target: nat;
      target, newMaxProbe := InsertInto(oldTable, i, newTable, newHashMask, maxProbe, cb, Collected(s[..i]));
    }
  }

  /** Moves every live item of `oldTable` into the empty `newTable`, using each
      old slot as the place to carry evicted items in. */
  method Migrate<K(!new, ==), V>(oldTable: array<HashItem<K, V>>, newTable: array<HashItem<K, V>>, newHashMask: nat,
                                 ghost cb: Callbacks<K>, ghost m: map<K, V>) returns (maxProbe: nat)
    requires oldTable != newTable && 0 < oldTable.Length < newTable.Length == newHashMask + 1
    requires IsPow2(newTable.Length) && cb.WellBehaved() && Represents(cb, oldTable[..], m)
    requires Migrated(cb, oldTable[..], 0, newTable[..], 0)
    modifies oldTable, newTable
    ensures Migrated(cb, old(oldTable[..]), oldTable.Length, newTable[..], maxProbe)
  {
    ghost var s := oldTable[..];
    maxProbe := 0;
    for i := 0 to oldTable.Length
      invariant oldTable[i..] == s[i..]
      invariant Migrated(cb, s, i, newTable[..], maxProbe)
    {
      assert oldTable[i] == s[i] by { assert oldTable[i] == oldTable[i..][0] && s[i] == s[i..][0]; }
      maxProbe := MigrateSlot(oldTable, i, newTable, newHashMask, maxProbe, cb, s, m);
    }
  }

  class HashTable<K(!new, ==), V> {
    const cb: Callbacks<K>
    /** What zeroed memory holds: null key, null value, not live. */
    const zero: HashItem<K, V>
    const hasDestroy: bool
    var table: array<HashItem<K, V>>
    var hashMask: nat
    var maxProbeLen: nat
    var numOccupiedSlots: nat
    /** The pairs handed to the destroy callback so far, in order. */
    var destroyed: seq<(K, V)>
    ghost var bindings: map<K, V>

    /** All of `Valid`, except that `extra` items are counted before they are stored. */
    ghost predicate Shape(extra: nat)
      reads this, table
    {
      && cb.WellBehaved() && !zero.live && zero.probeLen == 0
      && table.Length == hashMask + 1 && ValidCapacity(table.Length)
      && Ordered(table[..]) && Represents(cb, table[..], bindings)
      && ProbesBounded(table[..], maxProbeLen) && maxProbeLen < table.Length
      && numOccupiedSlots == LiveCount(table[..]) + extra
    }

    ghost predicate Valid()
      reads this, table
    {
      Shape(0) && numOccupiedSlots <= ResizeThreshold(table.Length)
    }

    /** The map this table stands for, and its capacity. */
    ghost function Abs(): State<K, V>
      reads this, table
    {
      State(bindings, table.Length)
    }

    constructor (estimatedCapacity: int, cb: Callbacks<K>, hasDestroy: bool, nullKey: K, nullValue: V)
      requires -0x8000_0000 <= estimatedCapacity < 0x8000_0000 && cb.WellBehaved()
      ensures Valid() && fresh(table)
      ensures Abs() == State(map[], CalculateHashBucketsFromEstimate(estimatedCapacity))
      ensures this.cb == cb && this.hasDestroy == hasDestroy && destroyed == []
    {
      var numBuckets := CalculateHashBucketsFromEstimate(estimatedCapacity);
      BucketsReachEstimate(estimatedCapacity);
      var z := HashItem(nullKey, nullValue, 0, 0, false);
      this.cb, this.hasDestroy, this.zero := cb, hasDestroy, z;
      table := new HashItem<K, V>[numBuckets](_ => z);
      hashMask, maxProbeLen, numOccupiedSlots := numBuckets - 1, 0, 0;
      destroyed, bindings := [], map[];
      new;
      NoLiveSlots(table[..]);
    }

    /** The slot holding a key that matches, if there is one: the probe stops at
        an empty slot, at an item nearer its home than the probe has come, and
        past the longest probe ever stored. */
    method FindItem(key: K, hash: uint32) returns (found: bool, i: nat)
      requires Valid() && hash == cb.CalcHash(key)
      ensures found <==> HasMatch(cb, bindings, key)
      ensures found ==> i < table.Length && table[i].live && cb.keyMatch(table[i].key, key)
    {
      ghost var n, s := table.Length, table[..];
      i := Bucket(hash, hashMask);
      var probeLen: nat := 0;
      while true
        invariant i < n && probeLen <= maxProbeLen && ProbeLength(Home(hash, n), i, n) == probeLen
        invariant NotBefore(cb, s, key, probeLen)
        decreases maxProbeLen - probeLen
      {
        if !(table[i].live && table[i].hash == hash && cb.keyMatch(table[i].key, key)) {
          ProbeStep(cb, s, bindings, key, i, maxProbeLen);
        }
        if !table[i].live {
          return false, i;
        }
        if table[i].hash == hash && cb.keyMatch(table[i].key, key) {
          assert table[i].key in bindings;
          return true, i;
        }
        if probeLen > table[i].probeLen {
          return false, i;
        }
        probeLen := probeLen + 1;
        if probeLen > maxProbeLen {
          return false, i;
        }
        i := Advance(i, hashMask);
      }
    }

    /** Empties the slot `item` by shifting back what was displaced behind it. */
    method DeleteItem(item: nat)
      requires Valid() && item < table.Length && table[item].live
      modifies this`numOccupiedSlots, this`destroyed, this`bindings, table
      ensures Valid()
      ensures bindings == old(bindings) - {old(table[item].key)}
      ensures destroyed == old(destroyed) +
                if hasDestroy then [(old(table[item].key), old(table[item].value))] else []
    {
      ghost var n, s0 := table.Length, table[..];
      ghost var m := bindings - {table[item].key};
      ClearRepresents(cb, s0, bindings, item, zero);
      LiveCountUpdate(s0, item, zero);
      ThresholdGrows(n);
      ghost var e := EmptySlotExists(s0);
      DeleteFromCorrect(cb, s0, m, item, zero, e, maxProbeLen);

      if hasDestroy {
        destroyed := destroyed + [(table[item].key, table[item].value)];
      }
      numOccupiedSlots := numOccupiedSlots - 1;
      ShiftBack(table, item, hashMask, zero, e);
      bindings := m;
    }

    method Resize(newSize: nat, memory: bool) returns (ok: bool)
      requires Shape(1) && newSize == 2 * table.Length && ValidCapacity(newSize)
      modifies this`maxProbeLen, this`hashMask, this`table, table
      ensures Shape(1) && ok == memory
      ensures if ok then fresh(table) && table.Length == newSize
              else table == old(table) && table[..] == old(table[..])
    {
      if !memory {
        return false;
      }
      var z := zero;
      var newTable := new HashItem<K, V>[newSize](_ => z);
      ghost var s := table[..];
      MigrationStarts(cb, s, newTable[..]);
      MigrationEnds(cb, s, bindings);
      var maxProbe := Migrate(table, newTable, newSize - 1, cb, bindings);
      maxProbeLen, hashMask, table := maxProbe, newSize - 1, newTable;
      return true;
    }

    method MaybeResize(memory: bool) returns (ok: bool)
      requires Shape(1) && numOccupiedSlots <= ResizeThreshold(table.Length) + 1
      modifies this`maxProbeLen, this`hashMask, this`table, table
      ensures Shape(1)
      ensures ok <==> old(table.Length) < 0x400_0000
                      && (256 * numOccupiedSlots <= 217 * old(table.Length) || memory)
      ensures ok ==> 256 * numOccupiedSlots <= 217 * table.Length
      ensures
        if ok && 256 * numOccupiedSlots > 217 * old(table.Length)
        then fresh(table) && table.Length == 2 * old(table.Length)
        else table == old(table) && table[..] == old(table[..])
    {
      var capacity := hashMask + 1;
      if capacity >= MAX_HASHTABLE_SIZE {
        return false;
      }
      var resizeThreshold := ResizeThreshold(capacity);
      ThresholdGrows(capacity);
      ThresholdIsLoad(capacity, numOccupiedSlots);
      ThresholdIsLoad(2 * capacity, numOccupiedSlots);
      if numOccupiedSlots > resizeThreshold {
        DoublingStaysValid(capacity);
        ok := Resize(capacity * 2, memory);
        return;
      }
      return true;
    }

    /** What decides whether an insertion is granted, and whether the table then doubles. */
    lemma WhenGranted(key: K, value: V, replace: bool, memory: bool)
      requires Valid()
      ensures
        var (st', ok) := InsertStep(cb, Abs(), key, value, replace, memory);
        var bound := HasMatch(cb, bindings, key);
        var fits := 256 * (|bindings| + 1) <= 217 * table.Length;
        && (ok <==> table.Length < 0x400_0000 && if bound then replace else fits || memory)
        && st'.capacity == if ok && !bound && !fits then 2 * table.Length else table.Length
    {
      BindingsAreCounted(cb, table[..], bindings);
      InsertionGrantedIff(cb, Abs(), key, value, replace, memory);
    }

    /** Binds `key`. With `replace`, a matching binding is deleted first, whether
        or not the insertion is then granted. */
    method InsertIntoHashTable(key: K, value: V, replace: bool, memory: bool) returns (result: bool)
      requires Valid()
      modifies this, table
      ensures Valid() && (table == old(table) || fresh(table))
      ensures (Abs(), result) == InsertStep(cb, old(Abs()), key, value, replace, memory)
      ensures result <==>
        && old(table.Length) < 0x400_0000
        && if old(HasMatch(cb, bindings, key)) then replace
           else 256 * (old(|bindings|) + 1) <= 217 * old(table.Length) || memory
      ensures table.Length
           == if result && !old(HasMatch(cb, bindings, key)) && 256 * (old(|bindings|) + 1) > 217 * old(table.Length)
              then 2 * old(table.Length) else old(table.Length)
      ensures
        if old(HasMatch(cb, bindings, key)) && replace && hasDestroy then
          exists k :: k in old(bindings) && cb.keyMatch(k, key) && destroyed == old(destroyed) + [(k, old(bindings)[k])]
        else destroyed == old(destroyed)
    {
      WhenGranted(key, value, replace, memory);
      result := false;
      var hash := cb.CalcHash(key);
      var found, i := FindItem(key, hash);
      if found && !replace {
        return;
      }
      InsertAfterDelete(cb, Abs(), key, value, replace, memory);
      ghost var kept := Without(cb, bindings, key);
      if found {
        MatchIsAlone(cb, bindings, table[i].key, key);
        DeleteItem(i);
      }
      assert Abs() == State(kept, old(table.Length));
      result := AddItem(key, value, hash, memory);
    }

    /** The second half of an insertion: the key is not in the table. */
    method AddItem(key: K, value: V, hash: uint32, memory: bool) returns (result: bool)
      requires Valid() && hash == cb.CalcHash(key) && !HasMatch(cb, bindings, key)
      modifies this`maxProbeLen, this`hashMask, this`table, this`numOccupiedSlots, this`bindings, table
      ensures Valid() && (table == old(table) || fresh(table))
      ensures (Abs(), result) == InsertStep(cb, old(Abs()), key, value, false, memory)
    {
      BindingsAreCounted(cb, table[..], bindings);
      AbsentKeyIsAdded(cb, Abs(), key, value, memory);
      ThresholdGrows(table.Length);
      ThresholdIsLoad(table.Length, numOccupiedSlots + 1);
      numOccupiedSlots := numOccupiedSlots + 1;
      result := MaybeResize(memory);
      ThresholdIsLoad(table.Length, numOccupiedSlots);
      if !result {
        numOccupiedSlots := numOccupiedSlots - 1;
      } else {
        StoreItem(key, value, hash);
      }
    }

    /** Stores an item that is already counted and has room. */
    method StoreItem(key: K, value: V, hash: uint32)
      requires Shape(1) && numOccupiedSlots <= ResizeThreshold(table.Length)
      requires hash == cb.CalcHash(key) && !HasMatch(cb, bindings, key)
      modifies this`maxProbeLen, this`bindings, table
      ensures Valid() && bindings == old(bindings)[key := value]
    {
      ThresholdGrows(table.Length);
      var newItem := new HashItem<K, V>[1](_ => HashItem(key, value, hash, 0, true));
      var target, maxProbe := InsertInto(newItem, 0, table, hashMask, maxProbeLen, cb, bindings);
      maxProbeLen := maxProbe;
      bindings := bindings[key := value];
    }

    method FindInHashTable(key: K) returns (result: bool, value: Option<V>)
      requires Valid()
      ensures result == HasMatch(cb, bindings, key) && value == Lookup(cb, bindings, key)
    {
      var hash := cb.CalcHash(key);
      var i: nat;
      result, i := FindItem(key, hash);
      value := None;
      if result {
        LookupFinds(cb, bindings, table[i].key, key);
        value := Some(table[i].value);
      }
    }

    method RemoveFromHashTable(key: K) returns (result: bool)
      requires Valid()
      modifies this, table
      ensures Valid() && table == old(table)
      ensures result == old(HasMatch(cb, bindings, key))
      ensures bindings == Without(cb, old(bindings), key)
      ensures
        if result && hasDestroy then
          exists k :: k in old(bindings) && cb.keyMatch(k, key) && destroyed == old(destroyed) + [(k, old(bindings)[k])]
        else destroyed == old(destroyed)
    {
      var hash := cb.CalcHash(key);
      var i: nat;
      result, i := FindItem(key, hash);
      if result {
        MatchIsAlone(cb, bindings, table[i].key, key);
        DeleteItem(i);
      } else {
        assert Without(cb, bindings, key) == bindings;
      }
    }

    /** Presents bindings in slot order until the callback, which may remember
        what it has seen, asks to stop. */
    method IterateHashTable(callback: seq<(K, V)> -> bool) returns (seen: seq<(K, V)>)
      requires Valid()
      ensures exists all :: ListsEachOnce(all, bindings) && Presented(callback, seen, all)
    {
      ghost var s, all := table[..], LiveEntries(table[..]);
      EntriesListBindings(cb, s, bindings);
      seen := [];
      var numIterated := 0;
      assert s[..0] == [];
      for i := 0 to table.Length
        invariant numIterated == |seen|
        invariant seen == LiveEntries(s[..i]) && seen <= all
        invariant Continued(callback, seen) && (seen == [] || callback(seen))
      {
        EntriesNext(s, i);
        if table[i].live {
          ContinuedFurther(callback, seen, (table[i].key, table[i].value));
          seen := seen + [(table[i].key, table[i].value)];
          if !callback(seen) {
            break;
          }
          numIterated := numIterated + 1;
          if numIterated >= numOccupiedSlots {
            break;
          }
        }
      }
      assert s[..table.Length] == s;
      assert Presented(callback, seen, all);
    }

    method HashTableEmpty() returns (empty: bool)
      requires Valid()
      ensures empty <==> bindings == map[]
    {
      BindingsAreCounted(cb, table[..], bindings);
      empty := numOccupiedSlots == 0;
    }

    /** Marks every item dead, handing each to the destroy callback in slot order. */
    method DestroyAll()
      requires Shape(0)
      modifies this`destroyed, table
      ensures destroyed == old(destroyed) + if hasDestroy then LiveEntries(old(table[..])) else []
    {
      hide Shape;
      if hasDestroy {
        ghost var s, before, es := table[..], destroyed, [];
        assert s[..0] == [];
        for i := 0 to table.Length
          invariant forall j :: i <= j < table.Length ==> table[j] == s[j]
          invariant destroyed == before + es
          invariant es == LiveEntries(s[..i])
        {
          EntriesNext(s, i);
          if table[i].live {
            var e := (table[i].key, table[i].value);
            table[i] := table[i].(live := false);
            destroyed := destroyed + [e];
            assert before + es + [e] == before + (es + [e]);
            es := es + [e];
          }
        }
        assert s[..table.Length] == s;
      }
    }

    method ClearHashTable()
      requires Valid()
      modifies this`destroyed, this`numOccupiedSlots, this`bindings, table
      ensures Valid() && bindings == map[]
      ensures exists es :: ListsEachOnce(es, old(bindings))
                && destroyed == old(destroyed) + if hasDestroy then es else []
    {
      EntriesListBindings(cb, table[..], bindings);
      DestroyAll();
      forall i | 0 <= i < table.Length {
        table[i] := zero;
      }
      numOccupiedSlots := 0;
      bindings := map[];
      NoLiveSlots(table[..]);
      assert Ordered(table[..]);
    }

    /** One operation of a run. */
    method Apply(op: Op<K, V>) returns (reply: Reply<V>)
      requires Valid()
      modifies this, table
      ensures Valid() && (table == old(table) || fresh(table))
      ensures (Abs(), reply) == Step(cb, old(Abs()), op)
    {
      match op
      case Insert(key, value, replace, memory) =>
        var ok := InsertIntoHashTable(key, value, replace, memory);
        reply := Reply(ok, None);
      case Remove(key) =>
        var ok := RemoveFromHashTable(key);
        reply := Reply(ok, None);
      case Find(key) =>
        var ok, value := FindInHashTable(key);
        reply := Reply(ok, value);
      case Clear =>
        ClearHashTable();
        reply := Reply(true, None);
    }
  }

  /** A new table, or null when memory for it or for its slots cannot be had. */
  method CreateHashTable<K(!new, ==), V>(estimatedCapacity: int, cb: Callbacks<K>, hasDestroy: bool,
                                         nullKey: K, nullValue: V, memory: bool) returns (t: HashTable?<K, V>)
    requires -0x8000_0000 <= estimatedCapacity < 0x8000_0000 && cb.WellBehaved()
    ensures t != null <==> memory
    ensures t != null ==>
      && fresh(t) && fresh(t.table) && t.Valid() && t.cb == cb && t.hasDestroy == hasDestroy && t.destroyed == []
      && t.Abs() == State(map[], CalculateHashBucketsFromEstimate(estimatedCapacity))
  {
    t := null;
    if memory {
      t := new HashTable(estimatedCapacity, cb, hasDestroy, nullKey, nullValue);
    }
  }

  /** Any sequence of operations leaves the table, and answers, exactly as the
      map specification says. */
  method Replay<K(!new, ==), V>(t: HashTable<K, V>, ops: seq<Op<K, V>>) returns (replies: seq<Reply<V>>)
    requires t.Valid()
    modifies t, t.table
    ensures t.Valid()
    ensures (t.Abs(), replies) == Run(t.cb, old(t.Abs()), ops)
  {
    replies := [];
    assert ops[..0] == [];
    for i := 0 to |ops|
      invariant t.Valid() && (t.table == old(t.table) || fresh(t.table))
      invariant (t.Abs(), replies) == Run(t.cb, old(t.Abs()), ops[..i])
    {
      var reply := t.Apply(ops[i]);
      replies := replies + [reply];
      assert ops[..i + 1][..i] == ops[..i];
    }
    assert ops[..|ops|] == ops;
  }
}
