/** The Robin Hood order on a cyclic array of slots: what one slot demands of
    its predecessor, and how placing, swapping, shifting and clearing a slot
    keep it. Slot arrays are read here as sequences. */
module RobinHood {
  import opened Bits

  /** The two callbacks a table is created with. */
  datatype Callbacks<!K(!new)> = Callbacks(hash: K -> uint32, keyMatch: (K, K) -> bool) {

    /** A key-match callback decides an equivalence, and matching keys hash alike. */
    ghost predicate WellBehaved() {
      && (forall a :: keyMatch(a, a))
      && (forall a, b :: keyMatch(a, b) ==> keyMatch(b, a))
      && (forall a, b, c :: keyMatch(a, b) && keyMatch(b, c) ==> keyMatch(a, c))
      && (forall a, b :: keyMatch(a, b) ==> hash(a) == hash(b))
    }

    /** The callback's hash spread by a multiplicative mixer, in 32 bits. */
    function CalcHash(key: K): uint32 {
      (hash(key) * 0x9E37_79B1) % 0x1_0000_0000
    }
  }

  datatype HashItem<K, V> = HashItem(key: K, value: V, hash: uint32, probeLen: nat, live: bool)

  // ---- cyclic positions -------------------------------------------------

  function Next(i: nat, n: nat): (r: nat)
    requires i < n
    ensures r < n
  {
    if i + 1 == n then 0 else i + 1
  }

  function Prev(i: nat, n: nat): (r: nat)
    requires i < n
    ensures r < n && Next(r, n) == i
  {
    if i == 0 then n - 1 else i - 1
  }

  /** The slot `d` steps before `i`. */
  function Back(i: nat, d: nat, n: nat): (r: nat)
    requires i < n && d < n
    ensures r < n && ProbeLength(r, i, n) == d
  {
    if d <= i then i - d else i + n - d
  }

  /** Steps from `zeroIdx` to `actualIdx` around a table of `n` buckets. */
  function ProbeLength(zeroIdx: nat, actualIdx: nat, n: nat): (d: nat)
    requires zeroIdx < n && actualIdx < n
    ensures d < n
    ensures d == 0 <==> zeroIdx == actualIdx
  {
    if actualIdx < zeroIdx then n - zeroIdx + actualIdx else actualIdx - zeroIdx
  }

  function Home(hash: uint32, n: nat): (r: nat)
    requires 0 < n
    ensures r < n
  {
    And(hash, n - 1)
  }

  // ---- the order --------------------------------------------------------

  ghost predicate SlotOk<K, V>(s: seq<HashItem<K, V>>, i: nat)
    requires i < |s|
  {
    if s[i].live then
      && s[i].probeLen == ProbeLength(Home(s[i].hash, |s|), i, |s|)
      && (s[i].probeLen > 0 ==>
            s[Prev(i, |s|)].live && s[Prev(i, |s|)].probeLen >= s[i].probeLen - 1)
    else
      s[i].probeLen == 0
  }

  ghost predicate Ordered<K, V>(s: seq<HashItem<K, V>>) {
    && 0 < |s|
    && forall i :: 0 <= i < |s| ==> SlotOk(s, i)
  }

  ghost predicate ProbesBounded<K, V>(s: seq<HashItem<K, V>>, max: nat) {
    forall i :: 0 <= i < |s| ==> s[i].probeLen <= max
  }

  /** `x` as it is stored in slot `i` of a table of `n` buckets. */
  function StoredAt<K, V>(x: HashItem<K, V>, i: nat, n: nat): HashItem<K, V>
    requires i < n
  {
    x.(probeLen := ProbeLength(Home(x.hash, n), i, n))
  }

  /** `x`, probing from its home bucket, may be stored in slot `i` as far as the
      slot before it is concerned. */
  ghost predicate Arrived<K, V>(s: seq<HashItem<K, V>>, i: nat, x: HashItem<K, V>)
    requires i < |s|
  {
    var d := ProbeLength(Home(x.hash, |s|), i, |s|);
    d > 0 ==> s[Prev(i, |s|)].live && s[Prev(i, |s|)].probeLen >= d - 1
  }

  /** Behind an item that is `p` slots from home lie `p` live slots, each
      at least as far from its own home as the item was when it passed it. */
  lemma {:induction false} RunBehind<K, V>(s: seq<HashItem<K, V>>, i: nat, d: nat)
    requires Ordered(s) && i < |s| && s[i].live && d <= s[i].probeLen
    ensures d < |s|
    ensures s[Back(i, d, |s|)].live && s[Back(i, d, |s|)].probeLen >= s[i].probeLen - d
  {
    assert SlotOk(s, i);
    if d > 0 {
      RunBehind(s, i, d - 1);
      var j := Back(i, d - 1, |s|);
      assert SlotOk(s, j);
      assert Prev(j, |s|) == Back(i, d, |s|);
    }
  }

  /** No item has probed past an empty slot. */
  lemma EmptySlotBounds<K, V>(s: seq<HashItem<K, V>>, i: nat, e: nat)
    requires Ordered(s) && i < |s| && s[i].live
    requires e < |s| && !s[e].live
    ensures s[i].probeLen < ProbeLength(e, i, |s|)
  {
    var d := ProbeLength(e, i, |s|);
    assert Back(i, d, |s|) == e;
    if d <= s[i].probeLen {
      RunBehind(s, i, d);
    }
  }

  // ---- steps of an insertion --------------------------------------------

  lemma PlaceKeepsOrder<K, V>(s: seq<HashItem<K, V>>, i: nat, x: HashItem<K, V>)
    requires Ordered(s) && i < |s| && x.live
    requires !s[i].live && Arrived(s, i, x)
    requires |s| > 1
    ensures Ordered(s[i := StoredAt(x, i, |s|)])
  {
    var t := s[i := StoredAt(x, i, |s|)];
    forall j | 0 <= j < |t| ensures SlotOk(t, j) {
      assert SlotOk(s, j);
      assert SlotOk(s, i);
    }
  }

  lemma SwapKeepsOrder<K, V>(s: seq<HashItem<K, V>>, i: nat, x: HashItem<K, V>, e: nat)
    requires Ordered(s) && i < |s| && x.live && e < |s| && !s[e].live
    requires s[i].live && Arrived(s, i, x)
    requires s[i].probeLen < ProbeLength(Home(x.hash, |s|), i, |s|)
    ensures Ordered(s[i := StoredAt(x, i, |s|)])
    ensures Arrived(s[i := StoredAt(x, i, |s|)], Next(i, |s|), s[i])
  {
    var t := s[i := StoredAt(x, i, |s|)];
    forall j | 0 <= j < |t| ensures SlotOk(t, j) {
      assert SlotOk(s, j);
    }
    assert SlotOk(s, i);
    EmptySlotBounds(s, i, e);
    assert Prev(Next(i, |s|), |s|) == i;
  }

  lemma PassKeepsArrival<K, V>(s: seq<HashItem<K, V>>, i: nat, x: HashItem<K, V>, e: nat)
    requires Ordered(s) && i < |s| && x.live && e < |s| && !s[e].live
    requires s[i].live && Arrived(s, i, x)
    requires s[i].probeLen >= ProbeLength(Home(x.hash, |s|), i, |s|)
    ensures Arrived(s, Next(i, |s|), x)
  {
    EmptySlotBounds(s, i, e);
    assert Prev(Next(i, |s|), |s|) == i;
  }

  // ---- steps of a deletion ----------------------------------------------

  /** The item after a hole moves one slot nearer its home. */
  lemma ShiftKeepsOrder<K, V>(s: seq<HashItem<K, V>>, h: nat)
    requires Ordered(s) && |s| > 1 && h < |s| && s[h].live
    requires s[Next(h, |s|)].probeLen >= 1
    ensures
      var y := s[Next(h, |s|)];
      y.live && Ordered(s[h := y.(probeLen := y.probeLen - 1)])
  {
    var j := Next(h, |s|);
    var y := s[j];
    assert SlotOk(s, j) && Prev(j, |s|) == h;
    var t := s[h := y.(probeLen := y.probeLen - 1)];
    forall i | 0 <= i < |t| ensures SlotOk(t, i) {
      assert SlotOk(s, i);
      assert SlotOk(s, h);
    }
  }

  lemma ClearKeepsOrder<K, V>(s: seq<HashItem<K, V>>, h: nat, z: HashItem<K, V>)
    requires Ordered(s) && |s| > 1 && h < |s| && !z.live && z.probeLen == 0
    requires s[Next(h, |s|)].probeLen < 1
    ensures Ordered(s[h := z])
  {
    var t := s[h := z];
    forall i | 0 <= i < |t| ensures SlotOk(t, i) {
      assert SlotOk(s, i);
    }
  }

  // ---- counting live slots ----------------------------------------------

  function LiveCount<K, V>(s: seq<HashItem<K, V>>): (c: nat)
    ensures c <= |s|
  {
    if s == [] then 0
    else LiveCount(s[..|s| - 1]) + if s[|s| - 1].live then 1 else 0
  }

  lemma {:induction false} LiveCountUpdate<K, V>(s: seq<HashItem<K, V>>, i: nat, x: HashItem<K, V>)
    requires i < |s|
    ensures LiveCount(s[i := x])
         == LiveCount(s) - (if s[i].live then 1 else 0) + (if x.live then 1 else 0)
  {
    var n := |s| - 1;
    if i < n {
      LiveCountUpdate(s[..n], i, x);
      assert s[i := x][..n] == s[..n][i := x];
    } else {
      assert s[i := x][..n] == s[..n];
    }
  }

  /** Fewer live slots than slots leave an empty one. */
  lemma {:induction false} EmptySlotExists<K, V>(s: seq<HashItem<K, V>>) returns (e: nat)
    requires LiveCount(s) < |s|
    ensures e < |s| && !s[e].live
  {
    var n := |s| - 1;
    if s[n].live {
      e := EmptySlotExists(s[..n]);
    } else {
      e := n;
    }
  }

  lemma {:induction false} NoLiveSlots<K, V>(s: seq<HashItem<K, V>>)
    ensures LiveCount(s) == 0 <==> forall i :: 0 <= i < |s| ==> !s[i].live
  {
    if s != [] {
      NoLiveSlots(s[..|s| - 1]);
      assert forall i :: 0 <= i < |s| - 1 ==> s[..|s| - 1][i] == s[i];
    }
  }

  // ---- entries in slot order --------------------------------------------

  function LiveEntries<K, V>(s: seq<HashItem<K, V>>): (es: seq<(K, V)>)
    ensures |es| == LiveCount(s)
  {
    if s == [] then []
    else
      var x := s[|s| - 1];
      LiveEntries(s[..|s| - 1]) + if x.live then [(x.key, x.value)] else []
  }

  lemma {:induction false} EntriesOfPrefix<K, V>(s: seq<HashItem<K, V>>, i: nat)
    requires i <= |s|
    ensures LiveEntries(s[..i]) <= LiveEntries(s)
  {
    if i == |s| {
      assert s[..i] == s;
    } else {
      EntriesOfPrefix(s[..|s| - 1], i);
      assert s[..|s| - 1][..i] == s[..i];
    }
  }

  /** One slot further, the list of entries grows by that slot's entry, and once
      as many entries as live slots were met there are no more to come. */
  lemma EntriesNext<K, V>(s: seq<HashItem<K, V>>, i: nat)
    requires i < |s|
    ensures LiveEntries(s[..i + 1])
         == LiveEntries(s[..i]) + if s[i].live then [(s[i].key, s[i].value)] else []
    ensures LiveEntries(s[..i + 1]) <= LiveEntries(s)
    ensures |LiveEntries(s[..i + 1])| >= LiveCount(s) ==> LiveEntries(s[..i + 1]) == LiveEntries(s)
  {
    EntriesOfPrefix(s, i + 1);
    assert s[..i + 1][..i] == s[..i];
  }

  /** The callback asked to go on after every entry but possibly the last. */
  ghost predicate Continued<K, V>(callback: seq<(K, V)> -> bool, seen: seq<(K, V)>) {
    forall j :: 0 < j < |seen| ==> callback(seen[..j])
  }

  lemma ContinuedFurther<K, V>(callback: seq<(K, V)> -> bool, seen: seq<(K, V)>, e: (K, V))
    requires Continued(callback, seen) && (seen == [] || callback(seen))
    ensures Continued(callback, seen + [e])
  {
    forall j | 0 < j < |seen + [e]| ensures callback((seen + [e])[..j]) {
      assert (seen + [e])[..j] == seen[..j];
      assert j == |seen| ==> seen[..j] == seen;
    }
  }

  ghost predicate StoredIn<K, V>(s: seq<HashItem<K, V>>, e: (K, V)) {
    exists i :: 0 <= i < |s| && s[i].live && (s[i].key, s[i].value) == e
  }

  lemma {:induction false} EntriesLieInSlots<K, V>(s: seq<HashItem<K, V>>, e: (K, V))
    ensures e in LiveEntries(s) <==> StoredIn(s, e)
  {
    if s != [] {
      var t, x := s[..|s| - 1], s[|s| - 1];
      EntriesLieInSlots(t, e);
      if StoredIn(t, e) {
        var i :| 0 <= i < |t| && t[i].live && (t[i].key, t[i].value) == e;
        assert s[i].live && (s[i].key, s[i].value) == e;
      }
      if StoredIn(s, e) {
        var i :| 0 <= i < |s| && s[i].live && (s[i].key, s[i].value) == e;
        if i < |t| {
          assert t[i].live && (t[i].key, t[i].value) == e;
        }
      }
    }
  }

  // ---- the bindings a slot array stands for -----------------------------

  /** `m` binds exactly the live keys of `s`, no two of which match, and every
      live slot caches its key's hash. */
  ghost predicate Represents<K(!new), V>(cb: Callbacks<K>, s: seq<HashItem<K, V>>, m: map<K, V>) {
    && (forall i :: 0 <= i < |s| && s[i].live ==>
          s[i].key in m && m[s[i].key] == s[i].value && s[i].hash == cb.CalcHash(s[i].key))
    && (forall k :: k in m ==> exists i :: 0 <= i < |s| && s[i].live && s[i].key == k)
    && (forall i, j :: 0 <= i < |s| && 0 <= j < |s| && i != j && s[i].live && s[j].live ==>
          !cb.keyMatch(s[i].key, s[j].key))
  }

  /** Some bound key matches `key`. */
  ghost predicate HasMatch<K(!new), V>(cb: Callbacks<K>, m: map<K, V>, key: K) {
    exists k :: k in m && cb.keyMatch(k, key)
  }

  /** No slot matches, so no binding does. */
  lemma NoSlotNoMatch<K(!new), V>(cb: Callbacks<K>, s: seq<HashItem<K, V>>, m: map<K, V>, key: K)
    requires Represents(cb, s, m)
    requires forall j :: 0 <= j < |s| && s[j].live ==> !cb.keyMatch(s[j].key, key)
    ensures !HasMatch(cb, m, key)
  {
    forall k | k in m ensures !cb.keyMatch(k, key) {
      var j :| 0 <= j < |s| && s[j].live && s[j].key == k;
    }
  }

  /** A probe that has not yet reached the matching item at `j` sees, at `i`, a
      live item at least as far from home as the probe has come. */
  lemma MatchingItemIsAhead<K(!new), V>(cb: Callbacks<K>, s: seq<HashItem<K, V>>, m: map<K, V>,
                                        key: K, home: nat, j: nat, i: nat)
    requires cb.WellBehaved() && Ordered(s) && Represents(cb, s, m)
    requires j < |s| && s[j].live && cb.keyMatch(s[j].key, key)
    requires home == Home(cb.CalcHash(key), |s|) && i < |s| && ProbeLength(home, i, |s|) <= s[j].probeLen
    ensures s[j].hash == cb.CalcHash(key)
    ensures s[i].live && ProbeLength(home, i, |s|) <= s[i].probeLen
    ensures ProbeLength(home, i, |s|) == s[j].probeLen ==> j == i
  {
    assert SlotOk(s, j);
    var d := s[j].probeLen - ProbeLength(home, i, |s|);
    RunBehind(s, j, d);
    assert Back(j, d, |s|) == i;
  }

  /** Every live item matching `key` lies at least `p` slots from home. */
  ghost predicate NotBefore<K(!new), V>(cb: Callbacks<K>, s: seq<HashItem<K, V>>, key: K, p: nat) {
    forall j :: 0 <= j < |s| && s[j].live && cb.keyMatch(s[j].key, key) ==> p <= s[j].probeLen
  }

  /** Each of the three reasons to stop a probe is conclusive, and otherwise the
      search may go on one slot further. */
  lemma ProbeStep<K(!new), V>(cb: Callbacks<K>, s: seq<HashItem<K, V>>, m: map<K, V>, key: K, i: nat, max: nat)
    requires cb.WellBehaved() && Ordered(s) && Represents(cb, s, m) && ProbesBounded(s, max) && i < |s|
    requires NotBefore(cb, s, key, ProbeLength(Home(cb.CalcHash(key), |s|), i, |s|))
    requires !(s[i].live && s[i].hash == cb.CalcHash(key) && cb.keyMatch(s[i].key, key))
    ensures
      var p := ProbeLength(Home(cb.CalcHash(key), |s|), i, |s|);
      && (!s[i].live || s[i].probeLen < p || max < p + 1 ==> !HasMatch(cb, m, key))
      && NotBefore(cb, s, key, p + 1)
  {
    var home := Home(cb.CalcHash(key), |s|);
    var p := ProbeLength(home, i, |s|);
    forall j | 0 <= j < |s| && s[j].live && cb.keyMatch(s[j].key, key)
      ensures p < s[j].probeLen && s[i].live && p <= s[i].probeLen
    {
      MatchingItemIsAhead(cb, s, m, key, home, j, i);
    }
    if !HasMatch(cb, m, key) {
    } else if !s[i].live || s[i].probeLen < p || max < p + 1 {
      NoSlotNoMatch(cb, s, m, key);
    }
  }

  lemma PlaceRepresents<K(!new), V>(cb: Callbacks<K>, s: seq<HashItem<K, V>>, m: map<K, V>, i: nat, x: HashItem<K, V>)
    requires cb.WellBehaved() && Represents(cb, s, m) && i < |s| && !s[i].live
    requires x.live && x.hash == cb.CalcHash(x.key) && !HasMatch(cb, m, x.key)
    ensures Represents(cb, s[i := x], m[x.key := x.value])
  {
    var t, m' := s[i := x], m[x.key := x.value];
    assert cb.keyMatch(x.key, x.key);
    forall k | k in m' ensures exists j :: 0 <= j < |t| && t[j].live && t[j].key == k {
      if k == x.key {
        assert t[i].key == k;
      } else {
        var j :| 0 <= j < |s| && s[j].live && s[j].key == k;
        assert t[j].key == k;
      }
    }
  }

  lemma ClearRepresents<K(!new), V>(cb: Callbacks<K>, s: seq<HashItem<K, V>>, m: map<K, V>, i: nat, z: HashItem<K, V>)
    requires cb.WellBehaved() && Represents(cb, s, m) && i < |s| && s[i].live && !z.live
    ensures Represents(cb, s[i := z], m - {s[i].key})
    ensures !HasMatch(cb, m - {s[i].key}, s[i].key)
  {
    var t, m' := s[i := z], m - {s[i].key};
    assert cb.keyMatch(s[i].key, s[i].key);
    forall k | k in m' ensures exists j :: 0 <= j < |t| && t[j].live && t[j].key == k {
      var j :| 0 <= j < |s| && s[j].live && s[j].key == k;
      assert t[j].key == k;
    }
    forall j | 0 <= j < |t| && t[j].live ensures t[j].key in m' {
      assert s[j].live && j != i;
      assert !cb.keyMatch(s[j].key, s[i].key);
    }
  }

  /** Replacing a live item: its binding leaves, the new one enters, and the
      evicted key still matches nothing that stays. */
  lemma SwapRepresents<K(!new), V>(cb: Callbacks<K>, s: seq<HashItem<K, V>>, m: map<K, V>, i: nat, x: HashItem<K, V>)
    requires cb.WellBehaved() && Represents(cb, s, m) && i < |s| && s[i].live
    requires x.live && x.hash == cb.CalcHash(x.key) && !HasMatch(cb, m, x.key)
    ensures
      var m' := (m - {s[i].key})[x.key := x.value];
      && Represents(cb, s[i := x], m')
      && !HasMatch(cb, m', s[i].key)
      && m'[s[i].key := s[i].value] == m[x.key := x.value]
  {
    var z := s[i].(live := false);
    ClearRepresents(cb, s, m, i, z);
    PlaceRepresents(cb, s[i := z], m - {s[i].key}, i, x);
    assert s[i := z][i := x] == s[i := x];
    assert s[i].key in m && !cb.keyMatch(s[i].key, x.key);
    assert !cb.keyMatch(x.key, s[i].key);
    assert cb.keyMatch(x.key, x.key);
    assert (m - {s[i].key})[x.key := x.value][s[i].key := s[i].value] == m[x.key := x.value];
  }

  /** Moving a live item over a hole leaves the bindings alone. */
  lemma MoveRepresents<K(!new), V>(cb: Callbacks<K>, s: seq<HashItem<K, V>>, m: map<K, V>,
                             h: nat, j: nat, z: HashItem<K, V>, p: nat)
    requires cb.WellBehaved() && h < |s| && j < |s| && h != j && s[j].live && !z.live
    requires Represents(cb, s[h := z], m)
    ensures Represents(cb, s[h := s[j].(probeLen := p)][j := z], m)
  {
    var t, y := s[h := z], s[j];
    ClearRepresents(cb, t, m, j, z);
    PlaceRepresents(cb, t[j := z], m - {y.key}, h, y.(probeLen := p));
    assert t[j := z][h := y.(probeLen := p)] == s[h := y.(probeLen := p)][j := z];
    assert (m - {y.key})[y.key := y.value] == m by { assert t[j].live; }
  }

  lemma RemovingCounts<K, V>(m: map<K, V>, k: K)
    requires k in m
    ensures |m - {k}| == |m| - 1
  {
    assert m.Keys == (m - {k}).Keys + {k};
  }

  /** As many bindings as live slots. */
  lemma {:induction false} BindingsAreCounted<K(!new), V>(cb: Callbacks<K>, s: seq<HashItem<K, V>>, m: map<K, V>)
    requires cb.WellBehaved() && Represents(cb, s, m)
    ensures |m| == LiveCount(s)
    decreases |m|
  {
    if exists i :: 0 <= i < |s| && s[i].live {
      var i :| 0 <= i < |s| && s[i].live;
      var z := s[i].(live := false);
      ClearRepresents(cb, s, m, i, z);
      var m' := m - {s[i].key};
      RemovingCounts(m, s[i].key);
      BindingsAreCounted(cb, s[i := z], m');
      LiveCountUpdate(s, i, z);
    } else {
      NoLiveSlots(s);
      assert m == map[];
    }
  }

  /** `es` lists every binding of `m` exactly once. */
  ghost predicate ListsEachOnce<K, V>(es: seq<(K, V)>, m: map<K, V>) {
    && (forall i :: 0 <= i < |es| ==> es[i].0 in m && m[es[i].0] == es[i].1)
    && (forall k :: k in m ==> (k, m[k]) in es)
    && (forall i, j :: 0 <= i < j < |es| ==> es[i].0 != es[j].0)
  }

  lemma {:induction false} EntriesAreDistinct<K(!new), V>(cb: Callbacks<K>, s: seq<HashItem<K, V>>)
    requires cb.WellBehaved()
    requires forall i, j :: 0 <= i < |s| && 0 <= j < |s| && i != j && s[i].live && s[j].live ==>
               !cb.keyMatch(s[i].key, s[j].key)
    ensures forall i, j :: 0 <= i < j < |LiveEntries(s)| ==> LiveEntries(s)[i].0 != LiveEntries(s)[j].0
  {
    if s != [] {
      var n := |s| - 1;
      var t := s[..n];
      EntriesAreDistinct(cb, t);
      forall i | 0 <= i < |LiveEntries(t)| && s[n].live
        ensures LiveEntries(t)[i].0 != s[n].key
      {
        var e := LiveEntries(t)[i];
        EntriesLieInSlots(t, e);
        var j :| 0 <= j < |t| && t[j].live && (t[j].key, t[j].value) == e;
        assert !cb.keyMatch(s[j].key, s[n].key) && cb.keyMatch(s[n].key, s[n].key);
      }
    }
  }

  lemma EntriesListBindings<K(!new), V>(cb: Callbacks<K>, s: seq<HashItem<K, V>>, m: map<K, V>)
    requires cb.WellBehaved() && Represents(cb, s, m)
    ensures ListsEachOnce(LiveEntries(s), m)
  {
    EntriesAreDistinct(cb, s);
    var es := LiveEntries(s);
    forall i | 0 <= i < |es| ensures es[i].0 in m && m[es[i].0] == es[i].1 {
      EntriesLieInSlots(s, es[i]);
      var j :| 0 <= j < |s| && s[j].live && (s[j].key, s[j].value) == es[i];
    }
    forall k | k in m ensures (k, m[k]) in es {
      var j :| 0 <= j < |s| && s[j].live && s[j].key == k;
      assert (s[j].key, s[j].value) == (k, m[k]);
      EntriesLieInSlots(s, (k, m[k]));
    }
  }

  /** The bindings collected from the first slot to the last. */
  ghost function Collected<K, V>(s: seq<HashItem<K, V>>): map<K, V> {
    if s == [] then map[]
    else
      var m, x := Collected(s[..|s| - 1]), s[|s| - 1];
      if x.live then m[x.key := x.value] else m
  }

  lemma {:induction false} CollectedPrefix<K(!new), V>(cb: Callbacks<K>, s: seq<HashItem<K, V>>, m: map<K, V>, i: nat)
    requires cb.WellBehaved() && Represents(cb, s, m) && i <= |s|
    ensures forall k :: k in Collected(s[..i]) ==> k in m && Collected(s[..i])[k] == m[k]
    ensures forall k :: k in Collected(s[..i]) ==> exists j :: 0 <= j < i && s[j].live && s[j].key == k
    ensures forall j :: 0 <= j < i && s[j].live ==> s[j].key in Collected(s[..i])
  {
    if i > 0 {
      CollectedPrefix(cb, s, m, i - 1);
      assert s[..i][..i - 1] == s[..i - 1];
    }
  }

  /** Collecting slot by slot meets each key once and ends with all bindings. */
  lemma CollectedNext<K(!new), V>(cb: Callbacks<K>, s: seq<HashItem<K, V>>, m: map<K, V>, i: nat)
    requires cb.WellBehaved() && Represents(cb, s, m) && i < |s|
    ensures s[..i + 1][..i] == s[..i]
    ensures s[i].live ==> !HasMatch(cb, Collected(s[..i]), s[i].key)
  {
    CollectedPrefix(cb, s, m, i);
    assert s[..i + 1][..i] == s[..i];
  }

  lemma CollectedAll<K(!new), V>(cb: Callbacks<K>, s: seq<HashItem<K, V>>, m: map<K, V>)
    requires cb.WellBehaved() && Represents(cb, s, m)
    ensures Collected(s) == m
  {
    CollectedPrefix(cb, s, m, |s|);
    assert s[..|s|] == s;
    forall k | k in m ensures k in Collected(s) {
      var j :| 0 <= j < |s| && s[j].live && s[j].key == k;
    }
  }

  /** `t` holds what the first `i` slots of `s` held. */
  ghost predicate Migrated<K(!new), V>(cb: Callbacks<K>, s: seq<HashItem<K, V>>, i: nat,
                                       t: seq<HashItem<K, V>>, max: nat)
    requires i <= |s|
  {
    && Ordered(t) && Represents(cb, t, Collected(s[..i]))
    && LiveCount(t) == LiveCount(s[..i])
    && ProbesBounded(t, max) && max < |t|
  }

  lemma MigrationStarts<K(!new), V>(cb: Callbacks<K>, s: seq<HashItem<K, V>>, t: seq<HashItem<K, V>>)
    requires 0 < |t| && forall i :: 0 <= i < |t| ==> !t[i].live && t[i].probeLen == 0
    ensures Migrated(cb, s, 0, t, 0)
  {
    NoLiveSlots(t);
    assert s[..0] == [];
  }

  lemma MigrationEnds<K(!new), V>(cb: Callbacks<K>, s: seq<HashItem<K, V>>, m: map<K, V>)
    requires cb.WellBehaved() && Represents(cb, s, m)
    ensures s[..|s|] == s && Collected(s) == m
  {
    CollectedAll(cb, s, m);
    assert s[..|s|] == s;
  }

  // ---- a whole insertion ------------------------------------------------

  /** Where an insertion ended: the slots, the slot that took the new item, and
      the longest probe seen. */
  datatype Inserted<K, V> = Inserted(slots: seq<HashItem<K, V>>, target: nat, maxProbe: nat)

  function Max(a: nat, b: nat): nat {
    if a < b then b else a
  }

  /** Carries `x` from slot `i` towards the empty slot `e`, evicting every item
      that is nearer its home than the carried one. */
  ghost function InsertFrom<K, V>(s: seq<HashItem<K, V>>, x: HashItem<K, V>, i: nat, e: nat,
                                  max: nat): (r: Inserted<K, V>)
    requires i < |s| && e < |s| && !s[e].live
    ensures |r.slots| == |s| && r.target < |s|
    decreases ProbeLength(i, e, |s|)
  {
    var y := StoredAt(x, i, |s|);
    if !s[i].live then Inserted(s[i := y], i, Max(max, y.probeLen))
    else if s[i].probeLen < y.probeLen then
      InsertFrom(s[i := y], s[i], Next(i, |s|), e, Max(max, y.probeLen)).(target := i)
    else InsertFrom(s, x, Next(i, |s|), e, max)
  }

  /** `x` is being carried past slot `i` of an ordered table that binds `m`,
      towards the empty slot `e`. */
  ghost predicate Carrying<K(!new), V>(cb: Callbacks<K>, s: seq<HashItem<K, V>>, m: map<K, V>,
                                       x: HashItem<K, V>, i: nat, e: nat)
  {
    && 1 < |s| && i < |s| && e < |s|
    && x.live && x.hash == cb.CalcHash(x.key) && !HasMatch(cb, m, x.key)
    && Ordered(s) && !s[e].live && Arrived(s, i, x)
    && Represents(cb, s, m)
  }

  lemma PlaceEnds<K(!new), V>(cb: Callbacks<K>, s: seq<HashItem<K, V>>, m: map<K, V>,
                              x: HashItem<K, V>, i: nat, e: nat, max: nat)
    requires cb.WellBehaved() && Carrying(cb, s, m, x, i, e) && !s[i].live
    requires ProbesBounded(s, max) && max < |s|
    ensures
      var y := StoredAt(x, i, |s|);
      && Ordered(s[i := y]) && Represents(cb, s[i := y], m[x.key := x.value])
      && LiveCount(s[i := y]) == LiveCount(s) + 1
      && ProbesBounded(s[i := y], Max(max, y.probeLen)) && Max(max, y.probeLen) < |s|
  {
    var y := StoredAt(x, i, |s|);
    LiveCountUpdate(s, i, y);
    PlaceKeepsOrder(s, i, x);
    PlaceRepresents(cb, s, m, i, y);
  }

  lemma EvictCarries<K(!new), V>(cb: Callbacks<K>, s: seq<HashItem<K, V>>, m: map<K, V>,
                                 x: HashItem<K, V>, i: nat, e: nat, max: nat)
    requires cb.WellBehaved() && Carrying(cb, s, m, x, i, e)
    requires s[i].live && s[i].probeLen < StoredAt(x, i, |s|).probeLen
    requires ProbesBounded(s, max) && max < |s|
    ensures
      var y, m' := StoredAt(x, i, |s|), (m - {s[i].key})[x.key := x.value];
      && Carrying(cb, s[i := y], m', s[i], Next(i, |s|), e)
      && m'[s[i].key := s[i].value] == m[x.key := x.value]
      && LiveCount(s[i := y]) == LiveCount(s)
      && ProbesBounded(s[i := y], Max(max, y.probeLen)) && Max(max, y.probeLen) < |s|
  {
    var y := StoredAt(x, i, |s|);
    LiveCountUpdate(s, i, y);
    SwapKeepsOrder(s, i, x, e);
    SwapRepresents(cb, s, m, i, y);
  }

  /** An insertion adds exactly the binding of the item it was given, keeps the
      order, and leaves that item in the slot it reports. */
  lemma {:induction false} InsertFromCorrect<K(!new), V>(cb: Callbacks<K>, s: seq<HashItem<K, V>>, m: map<K, V>,
                                                         x: HashItem<K, V>, i: nat, e: nat, max: nat)
    requires cb.WellBehaved() && Carrying(cb, s, m, x, i, e)
    requires ProbesBounded(s, max) && max < |s|
    ensures
      var r := InsertFrom(s, x, i, e, max);
      && Ordered(r.slots) && Represents(cb, r.slots, m[x.key := x.value])
      && LiveCount(r.slots) == LiveCount(s) + 1
      && ProbesBounded(r.slots, r.maxProbe) && max <= r.maxProbe < |s|
    decreases ProbeLength(i, e, |s|)
  {
    hide Represents, Ordered, ProbesBounded, LiveCount, HasMatch, Arrived;
    var y := StoredAt(x, i, |s|);
    if !s[i].live {
      PlaceEnds(cb, s, m, x, i, e, max);
    } else if s[i].probeLen < y.probeLen {
      EvictCarries(cb, s, m, x, i, e, max);
      var m' := (m - {s[i].key})[x.key := x.value];
      InsertFromCorrect(cb, s[i := y], m', s[i], Next(i, |s|), e, Max(max, y.probeLen));
    } else {
      PassKeepsArrival(s, i, x, e);
      InsertFromCorrect(cb, s, m, x, Next(i, |s|), e, max);
    }
  }

  /** Slots already passed are not visited again. */
  lemma {:induction false} InsertLeavesBehind<K, V>(s: seq<HashItem<K, V>>, x: HashItem<K, V>, i: nat, e: nat,
                                                    max: nat, j: nat)
    requires i < |s| && e < |s| && !s[e].live && j < |s|
    requires ProbeLength(i, e, |s|) < ProbeLength(j, e, |s|)
    ensures InsertFrom(s, x, i, e, max).slots[j] == s[j]
    decreases ProbeLength(i, e, |s|)
  {
    var y := StoredAt(x, i, |s|);
    if s[i].live {
      if s[i].probeLen < y.probeLen {
        InsertLeavesBehind(s[i := y], s[i], Next(i, |s|), e, Max(max, y.probeLen), j);
      } else {
        InsertLeavesBehind(s, x, Next(i, |s|), e, max, j);
      }
    }
  }

  /** The reported slot holds the item that was to be inserted. */
  lemma {:induction false} InsertTargetHoldsItem<K, V>(s: seq<HashItem<K, V>>, x: HashItem<K, V>,
                                                            i: nat, e: nat, max: nat)
    requires i < |s| && e < |s| && !s[e].live
    ensures
      var r := InsertFrom(s, x, i, e, max);
      r.slots[r.target] == StoredAt(x, r.target, |s|)
    decreases ProbeLength(i, e, |s|)
  {
    var y := StoredAt(x, i, |s|);
    if s[i].live {
      if s[i].probeLen < y.probeLen {
        InsertLeavesBehind(s[i := y], s[i], Next(i, |s|), e, Max(max, y.probeLen), i);
      } else {
        InsertTargetHoldsItem(s, x, Next(i, |s|), e, max);
      }
    }
  }

  // ---- a whole deletion -------------------------------------------------

  /** Shifts back the items after the hole `h` until one is at home or a slot is
      empty, then clears the last hole. */
  ghost function DeleteFrom<K, V>(s: seq<HashItem<K, V>>, h: nat, z: HashItem<K, V>, e: nat): (r: seq<HashItem<K, V>>)
    requires h < |s| && e < |s| && s[e].probeLen == 0 && h != e
    ensures |r| == |s|
    decreases ProbeLength(h, e, |s|)
  {
    var j := Next(h, |s|);
    if s[j].probeLen < 1 then s[h := z]
    else DeleteFrom(s[h := s[j].(probeLen := s[j].probeLen - 1)], j, z, e)
  }

  lemma {:induction false} DeleteFromCorrect<K(!new), V>(cb: Callbacks<K>, s: seq<HashItem<K, V>>, m: map<K, V>,
                                                         h: nat, z: HashItem<K, V>, e: nat, max: nat)
    requires cb.WellBehaved() && 1 < |s| && h < |s| && e < |s| && h != e
    requires Ordered(s) && s[h].live && !s[e].live && !z.live && z.probeLen == 0
    requires Represents(cb, s[h := z], m) && ProbesBounded(s, max)
    ensures s[e].probeLen == 0
    ensures
      var r := DeleteFrom(s, h, z, e);
      && Ordered(r) && Represents(cb, r, m) && ProbesBounded(r, max)
      && LiveCount(r) == LiveCount(s) - 1
    decreases ProbeLength(h, e, |s|)
  {
    assert SlotOk(s, e);
    var j := Next(h, |s|);
    if s[j].probeLen < 1 {
      ClearKeepsOrder(s, h, z);
      LiveCountUpdate(s, h, z);
    } else {
      var y := s[j].(probeLen := s[j].probeLen - 1);
      ShiftKeepsOrder(s, h);
      MoveRepresents(cb, s, m, h, j, z, y.probeLen);
      LiveCountUpdate(s, h, y);
      DeleteFromCorrect(cb, s[h := y], m, j, z, e, max);
    }
  }

  /** `seen` is what an iteration over `all` presents: all of it, or the part up
      to the entry at which the callback asked to stop. */
  ghost predicate Presented<K, V>(callback: seq<(K, V)> -> bool, seen: seq<(K, V)>, all: seq<(K, V)>) {
    && Continued(callback, seen)
    && seen <= all
    && (seen == all || (seen != [] && !callback(seen)))
  }
}
