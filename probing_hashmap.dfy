// The open-addressing hash map of common/src/hashmap.rs: a vector of
// entries probed linearly from `hash(key) % capacity`, doubled when it is
// half full, with deletion by re-inserting the rest of the cluster.
//
// The hash function (`DefaultHasher`) is a parameter `hash: K -> nat`.
// The map's contents are the abstraction `Lookup(entries, k)`: the value of
// the occupied slot holding `k`, if there is one.
module ProbingHashMap {
  import opened Wrappers

  datatype Entry<K, V> = Entry(key: Option<K>, value: Option<V>, occupied: bool)

  /** `n` unoccupied entries, as `new` and `resize` push them. */
  function Vacancies<K, V>(n: nat): (r: seq<Entry<K, V>>)
    ensures |r| == n
    ensures forall i :: 0 <= i < n ==> r[i] == Entry(None, None, false)
  {
    seq(n, _ => Entry(None, None, false))
  }

  predicate Holds<K(==), V>(e: Entry<K, V>, k: K) {
    e.occupied && e.key == Some(k)
  }

  /** An entry is occupied exactly when it has a key and exactly when it has a value. */
  predicate WellFormed<K, V>(es: seq<Entry<K, V>>) {
    forall i :: 0 <= i < |es| ==>
      (es[i].occupied <==> es[i].key.Some?) && (es[i].occupied <==> es[i].value.Some?)
  }

  predicate UniqueKeys<K(==), V>(es: seq<Entry<K, V>>) {
    forall i, j ::
      0 <= i < |es| && 0 <= j < |es| && es[i].occupied && es[j].occupied && es[i].key == es[j].key
      ==> i == j
  }

  /** Probe steps from slot `from` forward to slot `to`, wrapping at `cap`. */
  function Dist(from: nat, to: nat, cap: nat): nat
    requires from < cap && to < cap
  {
    if from <= to then to - from else to + cap - from
  }

  /** The slot a key's probe starts at: `hash(key) % capacity`. */
  function Home<K>(hash: K -> nat, k: K, cap: nat): (r: nat)
    requires cap > 0
    ensures r < cap
  {
    hash(k) % cap
  }

  /** Every slot between a key's home slot and the slot holding it is occupied. */
  predicate PathOccupied<K, V>(es: seq<Entry<K, V>>, hash: K -> nat, j: nat)
    requires j < |es|
  {
    es[j].key.Some? ==>
      var h := Home(hash, es[j].key.value, |es|);
      forall x :: 0 <= x < |es| && Dist(h, x, |es|) < Dist(h, j, |es|) ==> es[x].occupied
  }

  predicate Probing<K, V>(es: seq<Entry<K, V>>, hash: K -> nat) {
    forall j :: 0 <= j < |es| ==> PathOccupied(es, hash, j)
  }

  predicate ValidEntries<K(==), V>(es: seq<Entry<K, V>>, hash: K -> nat) {
    WellFormed(es) && UniqueKeys(es) && Probing(es, hash)
  }

  /** The value stored under `k`: that of the last occupied slot holding `k`. */
  function Lookup<K(==), V>(es: seq<Entry<K, V>>, k: K): Option<V> {
    if |es| == 0 then None
    else if Holds(es[|es| - 1], k) then es[|es| - 1].value
    else Lookup(es[..|es| - 1], k)
  }

  /** The number of occupied slots. */
  function Count<K, V>(es: seq<Entry<K, V>>): (r: nat)
    ensures r <= |es|
  {
    if |es| == 0 then 0
    else Count(es[..|es| - 1]) + (if es[|es| - 1].occupied then 1 else 0)
  }

  // ---------------------------------------------------------------------
  // Lookup and Count
  // ---------------------------------------------------------------------

  /** With unique keys, the slot holding `k` gives `Lookup`. */
  lemma {:induction false} LookupHit<K, V>(es: seq<Entry<K, V>>, i: nat, k: K)
    requires UniqueKeys(es) && i < |es| && Holds(es[i], k)
    ensures Lookup(es, k) == es[i].value
    decreases |es|
  {
    var init := es[..|es| - 1];
    if i < |es| - 1 {
      assert !Holds(es[|es| - 1], k);
      assert UniqueKeys(init);
      assert init[i] == es[i];
      LookupHit(init, i, k);
    }
  }

  /** No slot holds `k`, so `Lookup` finds nothing. */
  lemma {:induction false} LookupMiss<K, V>(es: seq<Entry<K, V>>, k: K)
    requires forall i :: 0 <= i < |es| ==> !Holds(es[i], k)
    ensures Lookup(es, k) == None
    decreases |es|
  {
    if |es| > 0 {
      var init := es[..|es| - 1];
      assert forall i :: 0 <= i < |init| ==> init[i] == es[i];
      LookupMiss(init, k);
    }
  }

  /** Two tables that agree on the slots holding `k` agree on `Lookup(_, k)`. */
  lemma {:induction false} LookupFrame<K, V>(es: seq<Entry<K, V>>, fs: seq<Entry<K, V>>, k: K)
    requires |es| == |fs|
    requires forall i :: 0 <= i < |es| ==> (Holds(es[i], k) <==> Holds(fs[i], k))
    requires forall i :: 0 <= i < |es| && Holds(es[i], k) ==> es[i].value == fs[i].value
    ensures Lookup(es, k) == Lookup(fs, k)
    decreases |es|
  {
    if |es| > 0 {
      var n := |es| - 1;
      assert forall i :: 0 <= i < n ==> es[..n][i] == es[i] && fs[..n][i] == fs[i];
      LookupFrame(es[..n], fs[..n], k);
    }
  }

  /** Overwriting one slot that neither before nor after holds `k` leaves `Lookup(_, k)` alone. */
  lemma LookupUpdateOther<K, V>(es: seq<Entry<K, V>>, i: nat, e: Entry<K, V>, k: K)
    requires i < |es| && !Holds(es[i], k) && !Holds(e, k)
    ensures Lookup(es[i := e], k) == Lookup(es, k)
  {
    LookupFrame(es, es[i := e], k);
  }

  lemma {:induction false} CountUpdate<K, V>(es: seq<Entry<K, V>>, i: nat, e: Entry<K, V>)
    requires i < |es|
    ensures Count(es[i := e]) + (if es[i].occupied then 1 else 0)
         == Count(es) + (if e.occupied then 1 else 0)
    decreases |es|
  {
    var n := |es| - 1;
    if i < n {
      assert es[i := e][..n] == es[..n][i := e];
      CountUpdate(es[..n], i, e);
    } else {
      assert es[i := e][..n] == es[..n];
    }
  }

  /** Fewer occupied slots than slots: some slot is free. */
  lemma {:induction false} VacancyExists<K, V>(es: seq<Entry<K, V>>)
    requires Count(es) < |es|
    ensures exists i :: 0 <= i < |es| && !es[i].occupied
    decreases |es|
  {
    var n := |es| - 1;
    if es[n].occupied {
      VacancyExists(es[..n]);
      var i :| 0 <= i < n && !es[..n][i].occupied;
      assert !es[i].occupied;
    }
  }

  lemma {:induction false} CountVacancies<K, V>(n: nat)
    ensures Count(Vacancies<K, V>(n)) == 0
  {
    if n > 0 {
      assert Vacancies<K, V>(n)[..n - 1] == Vacancies<K, V>(n - 1);
      CountVacancies<K, V>(n - 1);
    }
  }

  lemma CountPrefix<K, V>(es: seq<Entry<K, V>>, j: nat)
    requires j < |es|
    ensures Count(es[..j + 1]) == Count(es[..j]) + (if es[j].occupied then 1 else 0)
  {
    assert es[..j + 1][..j] == es[..j];
  }

  lemma LookupPrefix<K, V>(es: seq<Entry<K, V>>, j: nat, k: K)
    requires j < |es|
    ensures Lookup(es[..j + 1], k) == if Holds(es[j], k) then es[j].value else Lookup(es[..j], k)
  {
    assert es[..j + 1][..j] == es[..j];
  }

  // ---------------------------------------------------------------------
  // Probing
  // ---------------------------------------------------------------------

  /** `(idx + 1) % cap` is one more probe step, or back at the start after `cap` steps. */
  lemma StepDist(s: nat, idx: nat, cap: nat)
    requires s < cap && idx < cap
    ensures (idx + 1) % cap < cap
    ensures Dist(s, (idx + 1) % cap, cap)
         == if Dist(s, idx, cap) + 1 == cap then 0 else Dist(s, idx, cap) + 1
  {
    if idx + 1 == cap {
      assert (idx + 1) % cap == 0;
    } else {
      assert (idx + 1) % cap == idx + 1;
    }
  }

  /**
   * A probe for `key` that met only other keys before reaching a free slot
   * proves the key is absent: had it been stored, the free slot would lie
   * on its path.
   */
  lemma ProbeMiss<K, V>(es: seq<Entry<K, V>>, hash: K -> nat, key: K, slot: nat)
    requires ValidEntries(es, hash) && slot < |es| && !es[slot].occupied
    requires forall x ::
      0 <= x < |es| && Dist(Home(hash, key, |es|), x, |es|) < Dist(Home(hash, key, |es|), slot, |es|)
      ==> !Holds(es[x], key)
    ensures forall i :: 0 <= i < |es| ==> !Holds(es[i], key)
  {
    forall i | 0 <= i < |es|
      ensures !Holds(es[i], key)
    {
      assert PathOccupied(es, hash, i);
    }
  }

  /** A probe that went all the way round without meeting `key`. */
  lemma ProbeWrapped<K, V>(es: seq<Entry<K, V>>, hash: K -> nat, key: K)
    requires |es| > 0
    requires forall x :: 0 <= x < |es| && Dist(Home(hash, key, |es|), x, |es|) < |es| ==> !Holds(es[x], key)
    ensures Lookup(es, key) == None
  {
    LookupMiss(es, key);
  }

  // ---------------------------------------------------------------------
  // insert_in_entries
  // ---------------------------------------------------------------------

  /**
   * `insert_in_entries`: probe from the key's home slot to the first slot
   * that is free or already holds the key, and write the pair there. The
   * slot it chose is returned as a ghost; `added` says whether a free slot
   * was filled (the source returns nothing; see the size finding).
   */
  method InsertInEntries<K(==), V>(entries: seq<Entry<K, V>>, cap: nat, hash: K -> nat, key: K, value: V)
    returns (updated: seq<Entry<K, V>>, added: bool, ghost slot: nat)
    requires cap == |entries| && cap > 0
    requires WellFormed(entries) && Count(entries) < cap
    ensures slot < cap && updated == entries[slot := Entry(Some(key), Some(value), true)]
    ensures added <==> !entries[slot].occupied
    ensures !entries[slot].occupied || entries[slot].key == Some(key)
    ensures forall x :: 0 <= x < cap && Dist(Home(hash, key, cap), x, cap) < Dist(Home(hash, key, cap), slot, cap)
                        ==> entries[x].occupied && entries[x].key != Some(key)
  {
    var idx: nat := Home(hash, key, cap);
    ghost var h := idx;
    ghost var d: nat := 0;
    while true
      invariant idx < cap && d < cap && Dist(h, idx, cap) == d
      invariant forall x :: 0 <= x < cap && Dist(h, x, cap) < d ==> entries[x].occupied && entries[x].key != Some(key)
      decreases cap - d
    {
      if !entries[idx].occupied {
        updated := entries[idx := Entry(Some(key), Some(value), true)];
        added := true;
        slot := idx;
        return;
      } else if entries[idx].key.value == key {
        updated := entries[idx := Entry(entries[idx].key, Some(value), true)];
        added := false;
        slot := idx;
        return;
      } else {
        StepDist(h, idx, cap);
        if d + 1 == cap {
          VacancyExists(entries);
          assert false;
        }
        idx := (idx + 1) % cap;
        d := d + 1;
      }
    }
  }

  /** What one insertion does to a valid table: contents, count and the invariant. */
  lemma InsertConsequences<K, V>(entries: seq<Entry<K, V>>, hash: K -> nat, key: K, value: V,
                                 updated: seq<Entry<K, V>>, slot: nat)
    requires |entries| > 0 && ValidEntries(entries, hash)
    requires slot < |entries| && updated == entries[slot := Entry(Some(key), Some(value), true)]
    requires !entries[slot].occupied || entries[slot].key == Some(key)
    requires forall x :: 0 <= x < |entries| && Dist(Home(hash, key, |entries|), x, |entries|)
                                               < Dist(Home(hash, key, |entries|), slot, |entries|)
                        ==> entries[x].occupied && entries[x].key != Some(key)
    ensures ValidEntries(updated, hash)
    ensures entries[slot].occupied <==> Lookup(entries, key).Some?
    ensures Count(updated) == Count(entries) + (if entries[slot].occupied then 0 else 1)
    ensures forall k :: Lookup(updated, k) == if k == key then Some(value) else Lookup(entries, k)
  {
    var cap := |entries|;
    var e := Entry(Some(key), Some(value), true);
    CountUpdate(entries, slot, e);
    if !entries[slot].occupied {
      ProbeMiss(entries, hash, key, slot);
      LookupMiss(entries, key);
    } else {
      LookupHit(entries, slot, key);
    }
    forall j | 0 <= j < cap
      ensures PathOccupied(updated, hash, j)
    {
      assert PathOccupied(entries, hash, j);
    }
    LookupHit(updated, slot, key);
    forall k | k != key
      ensures Lookup(updated, k) == Lookup(entries, k)
    {
      LookupUpdateOther(entries, slot, e, k);
    }
  }

  /** Keys and values of a table's first `n` slots, copied into `into` one by one. */
  ghost predicate CopiedPrefix<K(!new), V>(into: seq<Entry<K, V>>, from: seq<Entry<K, V>>, n: nat)
    requires n <= |from|
  {
    Count(into) == Count(from[..n]) && forall k :: Lookup(into, k) == Lookup(from[..n], k)
  }

  // ---------------------------------------------------------------------
  // Closing the gap left by a deletion
  // ---------------------------------------------------------------------
  // Offsets below are probe steps from the cleared slot `idx`.

  /**
   * A path that ends at `b` and reaches `c`, further from `idx` than `b`,
   * wraps round and so also reaches every `d` between `c` and the end.
   */
  lemma PathWrapsPast(idx: nat, a: nat, b: nat, c: nat, d: nat, cap: nat)
    requires idx < cap && a < cap && b < cap && c < cap && d < cap
    requires Dist(idx, b, cap) < Dist(idx, c, cap) <= Dist(idx, d, cap)
    requires Dist(a, c, cap) < Dist(a, b, cap)
    ensures Dist(a, d, cap) < Dist(a, b, cap)
  {
  }

  /**
   * A path that ends at `b` and reaches `x`, not further from `idx` than
   * `c`, which is nearer than `b`, also reaches `c`.
   */
  lemma PathCrosses(idx: nat, a: nat, x: nat, c: nat, b: nat, cap: nat)
    requires idx < cap && a < cap && x < cap && c < cap && b < cap
    requires Dist(idx, x, cap) <= Dist(idx, c, cap) < Dist(idx, b, cap)
    requires Dist(a, x, cap) < Dist(a, b, cap)
    ensures Dist(a, c, cap) < Dist(a, b, cap)
  {
  }

  /**
   * The state of the cluster loop of `remove` before examining slot `next`:
   * `e0` is the table before the deletion, `e1` the table right after slot
   * `idx` was cleared, and `free` a slot free in `e0` that bounds the loop.
   */
  ghost predicate ClusterLoop<K(!new), V>(e0: seq<Entry<K, V>>, e1: seq<Entry<K, V>>, es: seq<Entry<K, V>>,
                                          hash: K -> nat, idx: nat, free: nat, next: nat)
  {
    var cap := |e0|;
    && idx < cap && free < cap && next < cap && |e1| == cap && |es| == cap
    && ValidEntries(e0, hash) && e1 == e0[idx := Entry(None, None, false)] && !e0[free].occupied
    && 1 <= Dist(idx, next, cap) <= Dist(idx, free, cap)
    && (forall x :: 0 <= x < cap && Dist(idx, x, cap) >= Dist(idx, next, cap) ==> es[x] == e1[x])
    && WellFormed(es) && UniqueKeys(es)
    && (forall j :: 0 <= j < cap && Dist(idx, j, cap) < Dist(idx, next, cap) ==> PathOccupied(es, hash, j))
  }

  /** The entry taken out of `next` lands in a free slot no further from `idx` than `next`. */
  lemma ReinsertLands<K(!new), V>(e0: seq<Entry<K, V>>, e1: seq<Entry<K, V>>, es: seq<Entry<K, V>>,
                                  hash: K -> nat, idx: nat, free: nat, next: nat, k: K, slot: nat)
    requires ClusterLoop(e0, e1, es, hash, idx, free, next)
    requires es[next].occupied && es[next].key == Some(k)
    requires var taken := es[next := Entry(None, None, false)];
             var h := Home(hash, k, |e0|);
             && slot < |e0|
             && (!taken[slot].occupied || taken[slot].key == Some(k))
             && forall x :: 0 <= x < |e0| && Dist(h, x, |e0|) < Dist(h, slot, |e0|) ==> taken[x].occupied
    ensures !es[next := Entry(None, None, false)][slot].occupied
    ensures Dist(idx, slot, |e0|) <= Dist(idx, next, |e0|)
  {
    var cap := |e0|;
    assert e0[next] == es[next];
    assert PathOccupied(e0, hash, next);
  }

  /** After the re-insertion every path ending no further than `next` is whole. */
  lemma ReinsertPaths<K, V>(es: seq<Entry<K, V>>, hash: K -> nat, idx: nat, free: nat, next: nat,
                            k: K, v: V, slot: nat)
    requires idx < |es| && free < |es| && next < |es| && slot < |es|
    requires !es[free].occupied && Dist(idx, next, |es|) <= Dist(idx, free, |es|)
    requires Dist(idx, slot, |es|) <= Dist(idx, next, |es|)
    requires forall j :: 0 <= j < |es| && Dist(idx, j, |es|) < Dist(idx, next, |es|) ==> PathOccupied(es, hash, j)
    requires var taken := es[next := Entry(None, None, false)];
             var h := Home(hash, k, |es|);
             forall x :: 0 <= x < |es| && Dist(h, x, |es|) < Dist(h, slot, |es|) ==> taken[x].occupied
    ensures var after := es[next := Entry(None, None, false)][slot := Entry(Some(k), Some(v), true)];
            forall j :: 0 <= j < |es| && Dist(idx, j, |es|) <= Dist(idx, next, |es|) ==> PathOccupied(after, hash, j)
  {
    var cap := |es|;
    var taken := es[next := Entry(None, None, false)];
    var after := taken[slot := Entry(Some(k), Some(v), true)];
    forall j | 0 <= j < cap && Dist(idx, j, cap) <= Dist(idx, next, cap)
      ensures PathOccupied(after, hash, j)
    {
      if j != slot && j != next && after[j].key.Some? {
        assert after[j] == es[j];
        assert PathOccupied(es, hash, j);
        var a := Home(hash, es[j].key.value, cap);
        forall x | 0 <= x < cap && Dist(a, x, cap) < Dist(a, j, cap)
          ensures after[x].occupied
        {
          if x == next && x != slot {
            PathWrapsPast(idx, a, j, next, free, cap);
          }
        }
      }
    }
  }

  /** Taking an entry out and putting it back elsewhere keeps the contents and the count. */
  lemma ReinsertContents<K, V>(es: seq<Entry<K, V>>, next: nat, k: K, v: V, slot: nat)
    requires UniqueKeys(es) && next < |es| && slot < |es|
    requires es[next].occupied && es[next].key == Some(k) && es[next].value == Some(v)
    requires !es[next := Entry(None, None, false)][slot].occupied
    ensures var taken := es[next := Entry(None, None, false)];
            var after := taken[slot := Entry(Some(k), Some(v), true)];
            && UniqueKeys(after)
            && Count(after) == Count(es)
            && forall k' :: Lookup(after, k') == Lookup(es, k')
  {
    var vacant := Entry(None, None, false);
    var taken := es[next := vacant];
    var entry := Entry(Some(k), Some(v), true);
    var after := taken[slot := entry];
    CountUpdate(es, next, vacant);
    CountUpdate(taken, slot, entry);
    LookupHit(es, next, k);
    assert UniqueKeys(after);
    LookupHit(after, slot, k);
    forall k' | k' != k
      ensures Lookup(after, k') == Lookup(es, k')
    {
      LookupUpdateOther(es, next, vacant, k');
      LookupUpdateOther(taken, slot, entry, k');
    }
  }

  /** One round of the cluster loop: the loop state moves on to the next slot. */
  lemma ReinsertStep<K(!new), V>(e0: seq<Entry<K, V>>, e1: seq<Entry<K, V>>, es: seq<Entry<K, V>>,
                                 hash: K -> nat, idx: nat, free: nat, next: nat,
                                 k: K, v: V, slot: nat)
    requires ClusterLoop(e0, e1, es, hash, idx, free, next)
    requires es[next].occupied && es[next].key == Some(k) && es[next].value == Some(v)
    requires var taken := es[next := Entry(None, None, false)];
             var h := Home(hash, k, |e0|);
             && slot < |e0| && !taken[slot].occupied
             && Dist(idx, slot, |e0|) <= Dist(idx, next, |e0|)
             && forall x :: 0 <= x < |e0| && Dist(h, x, |e0|) < Dist(h, slot, |e0|) ==> taken[x].occupied
    requires UniqueKeys(es[next := Entry(None, None, false)][slot := Entry(Some(k), Some(v), true)])
    ensures Dist(idx, (next + 1) % |e0|, |e0|) == Dist(idx, next, |e0|) + 1
    ensures ClusterLoop(e0, e1, es[next := Entry(None, None, false)][slot := Entry(Some(k), Some(v), true)],
                        hash, idx, free, (next + 1) % |e0|)
  {
    var cap := |e0|;
    var after := es[next := Entry(None, None, false)][slot := Entry(Some(k), Some(v), true)];
    assert es[free] == e1[free];
    ReinsertPaths(es, hash, idx, free, next, k, v, slot);
    assert next != free;
    StepDist(idx, next, cap);
  }

  /** Right after the deletion the loop starts at the slot after `idx`. */
  lemma ClusterLoopStart<K(!new), V>(e0: seq<Entry<K, V>>, hash: K -> nat, idx: nat, free: nat)
    requires ValidEntries(e0, hash) && idx < |e0| && free < |e0| && e0[idx].occupied && !e0[free].occupied
    ensures var e1 := e0[idx := Entry(None, None, false)];
            ClusterLoop(e0, e1, e1, hash, idx, free, (idx + 1) % |e0|)
  {
    var e1 := e0[idx := Entry(None, None, false)];
    StepDist(idx, idx, |e0|);
    assert WellFormed(e1) && UniqueKeys(e1);
  }

  /** When the loop meets a free slot, every path is whole again. */
  lemma GapClosed<K(!new), V>(e0: seq<Entry<K, V>>, e1: seq<Entry<K, V>>, es: seq<Entry<K, V>>,
                              hash: K -> nat, idx: nat, free: nat, next: nat)
    requires ClusterLoop(e0, e1, es, hash, idx, free, next) && !es[next].occupied
    ensures ValidEntries(es, hash)
  {
    var cap := |e0|;
    forall j | 0 <= j < cap
      ensures PathOccupied(es, hash, j)
    {
      if Dist(idx, j, cap) > Dist(idx, next, cap) && es[j].key.Some? {
        assert es[j] == e0[j];
        assert PathOccupied(e0, hash, j);
        var a := Home(hash, es[j].key.value, cap);
        forall x | 0 <= x < cap && Dist(a, x, cap) < Dist(a, j, cap)
          ensures es[x].occupied
        {
          if Dist(idx, x, cap) <= Dist(idx, next, cap) {
            assert e0[next] == es[next];
            PathCrosses(idx, a, x, next, j, cap);
          } else {
            assert es[x] == e0[x];
          }
        }
      }
    }
  }

  /**
   * The re-insertion loop of `remove`: from the slot after the cleared one,
   * take out each entry of the cluster and insert it again, until a free
   * slot. `self.insert` never resizes here: the table holds one entry fewer
   * than before the deletion.
   */
  method ReinsertCluster<K(==,!new), V>(entries: seq<Entry<K, V>>, size: nat, capacity: nat, hash: K -> nat,
                                        ghost e0: seq<Entry<K, V>>, idx: nat, ghost free: nat)
    returns (result: seq<Entry<K, V>>, newSize: nat)
    requires capacity == |e0| && idx < capacity
    requires ClusterLoop(e0, entries, entries, hash, idx, free, (idx + 1) % capacity)
    requires size == Count(entries) && size < capacity / 2
    ensures |result| == capacity && ValidEntries(result, hash)
    ensures newSize == Count(result) == size
    ensures forall k :: Lookup(result, k) == Lookup(entries, k)
  {
    ghost var e1 := entries;
    var vacant := Entry(None, None, false);
    result, newSize := entries, size;
    var nextIdx: nat := (idx + 1) % capacity;
    while result[nextIdx].occupied
      invariant |result| == capacity && nextIdx < capacity
      invariant newSize == Count(result) == size
      invariant ClusterLoop(e0, e1, result, hash, idx, free, nextIdx)
      invariant forall k :: Lookup(result, k) == Lookup(e1, k)
      decreases Dist(idx, free, capacity) - Dist(idx, nextIdx, capacity)
    {
      var k := result[nextIdx].key.value;
      var v := result[nextIdx].value.value;
      ghost var before := result;
      result := result[nextIdx := vacant];
      CountUpdate(before, nextIdx, vacant);
      newSize := newSize - 1;
      // `self.insert(k, v)`; its resize guard `size >= capacity / 2` is false here
      assert newSize < capacity / 2;
      var added;
      ghost var slot;
      result, added, slot := InsertInEntries(result, capacity, hash, k, v);
      ReinsertLands(e0, e1, before, hash, idx, free, nextIdx, k, slot);
      ReinsertContents(before, nextIdx, k, v, slot);
      ReinsertStep(e0, e1, before, hash, idx, free, nextIdx, k, v, slot);
      if added {
        newSize := newSize + 1;
      }
      nextIdx := (nextIdx + 1) % capacity;
    }
    GapClosed(e0, e1, result, hash, idx, free, nextIdx);
  }

  // ---------------------------------------------------------------------
  // Two departures of the source from its evident intent
  // ---------------------------------------------------------------------

  /**
   * The first slot `insert_in_entries` indexes, as written: `hash(key)` is
   * not reduced modulo the capacity, unlike in `get` and `remove`, so the
   * index is out of bounds, and the call panics, unless the hash is below
   * the capacity.
   */
  function FirstProbeAsWritten<K>(hash: K -> nat, key: K, cap: nat): Outcome<nat> {
    if hash(key) < cap then Returned(hash(key)) else Panicked
  }

  /** The written first probe panics exactly when the hash reaches the capacity; else it is `Home`. */
  lemma FirstProbeAsWrittenPanics<K>(hash: K -> nat, key: K, cap: nat)
    requires cap > 0
    ensures FirstProbeAsWritten(hash, key, cap).Panicked? <==> hash(key) >= cap
    ensures FirstProbeAsWritten(hash, key, cap).Returned? ==> FirstProbeAsWritten(hash, key, cap).value == Home(hash, key, cap)
  {
    if hash(key) < cap {
      assert hash(key) % cap == hash(key);
    }
  }

  /** A key hashing to 7 in a map of capacity 4: the written code panics, `Home` probes slot 3. */
  lemma MissingModuloExample()
    ensures FirstProbeAsWritten((k: int) => 7, 0, 4) == Panicked
    ensures Home((k: int) => 7, 0, 4) == 3
  {
  }

  /** The counters `insert` keeps: `size` and `capacity`. */
  datatype Counters = Counters(size: nat, capacity: nat)

  function CapacityAfterInsert(c: Counters): nat {
    if c.size >= c.capacity / 2 then 2 * c.capacity else c.capacity
  }

  /** `insert` as written: `size` grows by one even when the key was already there. */
  function InsertCountersAsWritten(c: Counters, isNew: bool): Counters {
    Counters(c.size + 1, CapacityAfterInsert(c))
  }

  /** `insert` counting only new keys, as `HashMap.Insert` does. */
  function InsertCounters(c: Counters, isNew: bool): (r: Counters)
    ensures r.size == if isNew then c.size + 1 else c.size
    ensures r.capacity >= c.capacity
  {
    Counters(c.size + (if isNew then 1 else 0), CapacityAfterInsert(c))
  }

  /**
   * Inserting one key three times into a map of capacity 2: as written
   * `size` reaches 3 and the table doubles twice, to 8 slots for one entry;
   * counting only new keys leaves size 1 and capacity 4.
   */
  lemma RepeatedInsertExample()
    ensures InsertCountersAsWritten(InsertCountersAsWritten(InsertCountersAsWritten(
              Counters(0, 2), true), false), false) == Counters(3, 8)
    ensures InsertCounters(InsertCounters(InsertCounters(Counters(0, 2), true), false), false) == Counters(1, 4)
  {
  }

  /** As written, `n` overwrites of a present key leave `size` `n` above the number of entries. */
  lemma {:induction false} OverwritesInflateSize(c: Counters, n: nat)
    ensures OverwriteAsWritten(c, n).size == c.size + n
  {
    if n > 0 {
      OverwritesInflateSize(c, n - 1);
    }
  }

  function OverwriteAsWritten(c: Counters, n: nat): Counters {
    if n == 0 then c else InsertCountersAsWritten(OverwriteAsWritten(c, n - 1), false)
  }

  // ---------------------------------------------------------------------
  // The map
  // ---------------------------------------------------------------------

  class HashMap<K(==,!new), V> {
    var entries: seq<Entry<K, V>>
    var size: nat
    var capacity: nat
    const hash: K -> nat

    /**
     * `size` counts the occupied slots and is at most half the capacity,
     * which keeps a free slot for every probe.
     */
    ghost predicate Valid()
      reads this
    {
      |entries| == capacity && ValidEntries(entries, hash)
      && size == Count(entries) && size <= capacity / 2
    }

    /** The value the map holds for `k`. */
    ghost function Content(k: K): Option<V>
      reads this
    {
      Lookup(entries, k)
    }

    /** `new(cap)`: `cap` unoccupied entries, size 0. */
    constructor(cap: nat, hash: K -> nat)
      ensures Valid() && capacity == cap && size == 0 && this.hash == hash
      ensures entries == Vacancies(cap)
      ensures forall k :: Content(k) == None
    {
      var es: seq<Entry<K, V>> := [];
      for i := 0 to cap
        invariant es == Vacancies(i)
      {
        es := es + [Entry(None, None, false)];
      }
      entries := es;
      size := 0;
      capacity := cap;
      this.hash := hash;
      CountVacancies<K, V>(cap);
      forall k
        ensures Lookup(es, k) == None
      {
        LookupMiss(es, k);
      }
    }

    /** `resize`: a table of twice the capacity holding the same pairs. */
    method Resize()
      requires Valid()
      modifies this
      ensures Valid() && capacity == 2 * old(capacity) && size == old(size)
      ensures forall k :: Content(k) == old(Content(k))
    {
      var newCapacity := capacity * 2;
      var newEntries: seq<Entry<K, V>> := [];
      for i := 0 to newCapacity
        invariant newEntries == Vacancies(i)
      {
        newEntries := newEntries + [Entry(None, None, false)];
      }
      CountVacancies<K, V>(newCapacity);
      forall k
        ensures Lookup(newEntries, k) == Lookup(entries[..0], k)
      {
        LookupMiss(newEntries, k);
        LookupMiss(entries[..0], k);
      }
      for j := 0 to |entries|
        invariant entries == old(entries) && capacity == old(capacity) && size == old(size)
        invariant |newEntries| == newCapacity && ValidEntries(newEntries, hash)
        invariant CopiedPrefix(newEntries, entries, j)
      {
        CountPrefix(entries, j);
        forall k
          ensures Lookup(entries[..j + 1], k)
               == if Holds(entries[j], k) then entries[j].value else Lookup(entries[..j], k)
        {
          LookupPrefix(entries, j, k);
        }
        if entries[j].occupied {
          var k := entries[j].key.value;
          var v := entries[j].value.value;
          forall i | 0 <= i < j
            ensures !Holds(entries[..j][i], k)
          {
          }
          LookupMiss(entries[..j], k);
          var added;
          ghost var slot;
          ghost var before := newEntries;
          newEntries, added, slot := InsertInEntries(newEntries, newCapacity, hash, k, v);
          InsertConsequences(before, hash, k, v, newEntries, slot);
        }
      }
      assert entries[..|entries|] == entries;
      assert Count(newEntries) == size;
      assert forall k :: Lookup(newEntries, k) == Lookup(entries, k);
      entries := newEntries;
      capacity := newCapacity;
      assert Valid();
    }

    /**
     * `insert`, with `size` counting only new keys (see the size finding):
     * resize when half full, then insert in place.
     */
    method Insert(key: K, value: V)
      requires Valid() && capacity > 0
      modifies this
      ensures Valid()
      ensures forall k :: Content(k) == if k == key then Some(value) else old(Content(k))
      ensures Counters(size, capacity) == InsertCounters(old(Counters(size, capacity)), old(Content(key)).None?)
    {
      if size >= capacity / 2 {
        Resize();
      }
      var added;
      ghost var slot;
      ghost var before := entries;
      entries, added, slot := InsertInEntries(entries, capacity, hash, key, value);
      InsertConsequences(before, hash, key, value, entries, slot);
      assert added <==> old(Content(key)).None?;
      if added {
        size := size + 1;
      }
    }

    /** `get`: probe until the key, a free slot, or back at the start. */
    method Get(key: K) returns (r: Option<V>)
      requires Valid() && capacity > 0
      ensures r == Content(key)
    {
      var idx: nat := Home(hash, key, capacity);
      var startIdx := idx;
      ghost var d: nat := 0;
      while true
        invariant idx < capacity && d < capacity && Dist(startIdx, idx, capacity) == d
        invariant forall x :: 0 <= x < capacity && Dist(startIdx, x, capacity) < d ==> !Holds(entries[x], key)
        decreases capacity - d
      {
        if !entries[idx].occupied {
          ProbeMiss(entries, hash, key, idx);
          LookupMiss(entries, key);
          return None;
        }
        if entries[idx].key.value == key {
          LookupHit(entries, idx, key);
          return entries[idx].value;
        }
        StepDist(startIdx, idx, capacity);
        idx := (idx + 1) % capacity;
        d := d + 1;
        if idx == startIdx {
          ProbeWrapped(entries, hash, key);
          return None;
        }
      }
    }

    /**
     * The deletion half of `remove`: clear the slot, then re-insert the
     * cluster after it.
     */
    method RemoveAt(idx: nat)
      requires Valid() && idx < capacity && entries[idx].occupied
      modifies this
      ensures Valid() && capacity == old(capacity)
      ensures forall k :: Content(k) == if Some(k) == old(entries[idx].key) then None else old(Content(k))
    {
      ghost var e0 := entries;
      ghost var removed := entries[idx].key.value;
      var vacant := Entry(None, None, false);
      CountUpdate(e0, idx, vacant);
      VacancyExists(e0);
      ghost var free :| 0 <= free < capacity && !e0[free].occupied;
      ClusterLoopStart(e0, hash, idx, free);
      entries := entries[idx := vacant];
      size := size - 1;
      ghost var e1 := entries;
      entries, size := ReinsertCluster(entries, size, capacity, hash, e0, idx, free);
      LookupMiss(e1, removed);
      forall k | k != removed
        ensures Lookup(e1, k) == Lookup(e0, k)
      {
        LookupUpdateOther(e0, idx, vacant, k);
      }
    }

    /** `remove`: probe as `get` does; a missing key leaves the map as it was. */
    method Remove(key: K)
      requires Valid() && capacity > 0
      modifies this
      ensures Valid() && capacity == old(capacity)
      ensures forall k :: Content(k) == if k == key then None else old(Content(k))
      ensures old(Content(key)).None? ==> entries == old(entries) && size == old(size)
    {
      var idx: nat := Home(hash, key, capacity);
      var startIdx := idx;
      ghost var d: nat := 0;
      while true
        invariant entries == old(entries) && size == old(size) && capacity == old(capacity)
        invariant idx < capacity && d < capacity && Dist(startIdx, idx, capacity) == d
        invariant forall x :: 0 <= x < capacity && Dist(startIdx, x, capacity) < d ==> !Holds(entries[x], key)
        decreases capacity - d
      {
        if !entries[idx].occupied {
          ProbeMiss(entries, hash, key, idx);
          LookupMiss(entries, key);
          return;
        }
        if entries[idx].key.value == key {
          LookupHit(entries, idx, key);
          RemoveAt(idx);
          return;
        }
        StepDist(startIdx, idx, capacity);
        idx := (idx + 1) % capacity;
        d := d + 1;
        if idx == startIdx {
          ProbeWrapped(entries, hash, key);
          return;
        }
      }
    }
  }
}
