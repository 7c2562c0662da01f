/**
 * The least-recently-used cache behind the access-token table
 * (back_end/src/auth/token_cache.rs): a doubly-linked list threaded
 * through a growing vector of nodes by indices, with a head sentinel at
 * index 0 and a tail sentinel at index 1, and a hash map from each key to
 * the index of its node.
 *
 * The cache is specified by its recency list: the entries from the most
 * to the least recently used. `Get` refreshes an entry (`Refreshed`) and
 * `Put` stores one (`Inserted`); the lemmas of the first half say what
 * those two functions do to every lookup.
 */
module TokenCache {
  import opened Wrappers

  // ---------------------------------------------------------------------
  // The recency list
  // ---------------------------------------------------------------------

  /** No key occurs twice. */
  ghost predicate DistinctKeys<K, V>(s: seq<(K, V)>) {
    forall i, j :: 0 <= i < j < |s| ==> s[i].0 != s[j].0
  }

  /** The position of the first entry with key `k`, if there is one. */
  function IndexOf<K(==), V>(s: seq<(K, V)>, k: K): (r: Option<nat>)
    ensures r.Some? ==> r.value < |s| && s[r.value].0 == k
    ensures r.Some? ==> forall j :: 0 <= j < r.value ==> s[j].0 != k
    ensures r.None? ==> forall j :: 0 <= j < |s| ==> s[j].0 != k
  {
    if |s| == 0 then None
    else if s[0].0 == k then Some(0)
    else match IndexOf(s[1..], k)
      case None => None
      case Some(i) => Some(i + 1)
  }

  /** The value stored under `k`, if any. */
  function Find<K(==), V>(s: seq<(K, V)>, k: K): Option<V> {
    match IndexOf(s, k)
    case None => None
    case Some(i) => Some(s[i].1)
  }

  /** The list without its entry at `i`. */
  function Without<T>(s: seq<T>, i: nat): (r: seq<T>)
    requires i < |s|
    ensures |r| == |s| - 1
    ensures forall j {:trigger r[j]} :: 0 <= j < |r| ==> r[j] == if j < i then s[j] else s[j + 1]
  {
    s[..i] + s[i + 1..]
  }

  /** What `get` does to the list: an entry with key `k` moves to the front. */
  function Refreshed<K(==), V>(s: seq<(K, V)>, k: K): seq<(K, V)> {
    match IndexOf(s, k)
    case None => s
    case Some(i) => [s[i]] + Without(s, i)
  }

  /** Whether storing `k` evicts: the key is new and the list is full. */
  predicate Evicts<K(==), V>(s: seq<(K, V)>, k: K, cap: nat) {
    IndexOf(s, k).None? && |s| == cap
  }

  /**
   * What `put` does to the list: `(k, v)` goes to the front, replacing the
   * entry with key `k` if there is one, and otherwise evicting the last
   * (least recently used) entry when the list is full.
   */
  function Inserted<K(==), V>(s: seq<(K, V)>, k: K, v: V, cap: nat): seq<(K, V)>
    requires cap >= 1
  {
    match IndexOf(s, k)
    case Some(i) => [(k, v)] + Without(s, i)
    case None => [(k, v)] + (if |s| == cap then Without(s, |s| - 1) else s)
  }

  /** In a list with distinct keys, the entry holding `k` is the one found. */
  lemma FindAt<K, V>(s: seq<(K, V)>, i: nat)
    requires DistinctKeys(s) && i < |s|
    ensures IndexOf(s, s[i].0) == Some(i)
    ensures Find(s, s[i].0) == Some(s[i].1)
  {
  }

  /** Looking up in a list with one more entry in front. */
  lemma FindCons<K, V>(x: (K, V), s: seq<(K, V)>, k: K)
    ensures Find([x] + s, k) == if x.0 == k then Some(x.1) else Find(s, k)
  {
    assert ([x] + s)[1..] == s;
  }

  /** Removing an entry keeps the keys distinct and hides exactly that key. */
  lemma FindWithout<K, V>(s: seq<(K, V)>, i: nat, k: K)
    requires DistinctKeys(s) && i < |s|
    ensures DistinctKeys(Without(s, i))
    ensures Find(Without(s, i), k) == if k == s[i].0 then None else Find(s, k)
  {
    var w := Without(s, i);
    match IndexOf(s, k)
    case None =>
      assert forall x :: 0 <= x < |w| ==> w[x].0 != k;
    case Some(j) =>
      if j == i {
        assert forall x :: 0 <= x < |w| ==> w[x].0 != k;
      } else if j < i {
        FindAt(w, j);
      } else {
        FindAt(w, j - 1);
      }
  }

  /** A key that no entry of `s` holds can go in front without a clash. */
  lemma ConsDistinct<K, V>(x: (K, V), s: seq<(K, V)>)
    requires DistinctKeys(s) && IndexOf(s, x.0).None?
    ensures DistinctKeys([x] + s)
  {
  }

  /**
   * `get` only reorders: the keys stay distinct, every lookup gives what it
   * gave before, and a key that was present is now the most recent.
   */
  lemma {:induction false} RefreshedFind<K, V>(s: seq<(K, V)>, k: K, k': K)
    requires DistinctKeys(s)
    ensures DistinctKeys(Refreshed(s, k))
    ensures Find(Refreshed(s, k), k') == Find(s, k')
    ensures Find(s, k).Some? ==> Refreshed(s, k)[0] == (k, Find(s, k).value)
    ensures |Refreshed(s, k)| == |s|
  {
    match IndexOf(s, k)
    case None =>
    case Some(i) =>
      FindWithout(s, i, k');
      FindWithout(s, i, s[i].0);
      ConsDistinct(s[i], Without(s, i));
      FindCons(s[i], Without(s, i), k');
      FindAt(s, i);
  }

  /**
   * After `put(k, v)` the key `k` finds `v`; the evicted key, if any, finds
   * nothing; every other key finds what it found before.
   */
  lemma {:induction false} InsertedFind<K, V>(s: seq<(K, V)>, k: K, v: V, cap: nat, k': K)
    requires DistinctKeys(s) && cap >= 1
    ensures DistinctKeys(Inserted(s, k, v, cap))
    ensures Find(Inserted(s, k, v, cap), k') ==
      if k' == k then Some(v)
      else if Evicts(s, k, cap) && k' == s[|s| - 1].0 then None
      else Find(s, k')
  {
    match IndexOf(s, k)
    case Some(i) =>
      FindWithout(s, i, k');
      FindWithout(s, i, k);
      ConsDistinct((k, v), Without(s, i));
      FindCons((k, v), Without(s, i), k');
    case None =>
      if |s| == cap {
        FindWithout(s, |s| - 1, k');
        FindWithout(s, |s| - 1, k);
        ConsDistinct((k, v), Without(s, |s| - 1));
        FindCons((k, v), Without(s, |s| - 1), k');
      } else {
        ConsDistinct((k, v), s);
        FindCons((k, v), s, k');
      }
  }

  /** `put` never takes the list past the capacity, and grows it only by a new key. */
  lemma InsertedSize<K, V>(s: seq<(K, V)>, k: K, v: V, cap: nat)
    requires cap >= 1 && |s| <= cap
    ensures |Inserted(s, k, v, cap)| <= cap
    ensures |Inserted(s, k, v, cap)| == if IndexOf(s, k).None? && |s| < cap then |s| + 1 else |s|
  {
  }

  // ---------------------------------------------------------------------
  // Nodes and links
  // ---------------------------------------------------------------------

  /** One slot of `nodes`; the two sentinels carry no key and no value. */
  datatype Node<K, V> = Node(key: Option<K>, value: Option<V>, prev: nat, next: nat)

  /** The head and tail sentinels, fixed by the constructor and never moved. */
  const Head: nat := 0
  const Tail: nat := 1

  /** Position `i` of the list running from the head sentinel through `order` to the tail sentinel. */
  function At(order: seq<nat>, i: nat): nat
    requires i <= |order| + 1
  {
    if i == 0 then Head else if i <= |order| then order[i - 1] else Tail
  }

  /** The `next` link of slot `x`. */
  ghost function Next<K, V>(nodes: seq<Node<K, V>>, x: nat): nat {
    if x < |nodes| then nodes[x].next else 0
  }

  /** The `prev` link of slot `x`. */
  ghost function Prev<K, V>(nodes: seq<Node<K, V>>, x: nat): nat {
    if x < |nodes| then nodes[x].prev else 0
  }

  /** Consecutive positions of head, `order`, tail are joined by `next` one way and `prev` the other. */
  ghost predicate Linked<K, V>(nodes: seq<Node<K, V>>, order: seq<nat>) {
    (forall i :: 0 <= i <= |order| + 1 ==> At(order, i) < |nodes|) &&
    (forall i {:trigger Next(nodes, At(order, i))} :: 0 <= i <= |order| ==> Next(nodes, At(order, i)) == At(order, i + 1)) &&
    (forall i {:trigger Prev(nodes, At(order, i))} :: 1 <= i <= |order| + 1 ==> Prev(nodes, At(order, i)) == At(order, i - 1))
  }

  /**
   * The slot listed at position `i`. Distinctness is stated on this term
   * rather than on `order[i]`, so that it is consulted only where a proof
   * names two positions (through `Apart`).
   */
  ghost function Position(order: seq<nat>, i: nat): nat
    requires i < |order|
  {
    order[i]
  }

  /** No index repeats and none is a sentinel. */
  ghost predicate Proper(order: seq<nat>) {
    (forall i, j {:trigger Position(order, i), Position(order, j)} ::
      0 <= i < j < |order| ==> Position(order, i) != Position(order, j)) &&
    (forall i :: 0 <= i < |order| ==> 2 <= order[i])
  }

  /** Two positions of a proper list hold different slots. */
  lemma Apart(order: seq<nat>, i: nat, j: nat)
    requires Proper(order) && i < |order| && j < |order| && i != j
    ensures order[i] != order[j]
  {
    if i < j {
      assert Position(order, i) != Position(order, j);
    } else {
      assert Position(order, j) != Position(order, i);
    }
  }

  /** Distinct positions of the list with its sentinels hold distinct slots. */
  lemma AtDistinct(order: seq<nat>, i: nat, j: nat)
    requires Proper(order) && i < j <= |order| + 1
    ensures At(order, i) != At(order, j)
  {
    if 0 < i && j <= |order| {
      Apart(order, i - 1, j - 1);
    }
  }

  /** A slot can go in front of a proper list exactly when it is an entry slot the list lacks. */
  lemma ProperCons(x: nat, order: seq<nat>)
    ensures Proper([x] + order) <==> Proper(order) && 2 <= x && x !in order
  {
    var o := [x] + order;
    assert forall i :: 0 <= i < |order| ==> o[i + 1] == order[i];
    if Proper(o) {
      forall i, j | 0 <= i < j < |order|
        ensures Position(order, i) != Position(order, j)
      {
        Apart(o, i + 1, j + 1);
      }
      forall i | 0 <= i < |order|
        ensures order[i] != x && 2 <= order[i]
      {
        Apart(o, 0, i + 1);
      }
      assert 2 <= o[0];
      assert Proper(order);
    }
    if Proper(order) && 2 <= x && x !in order {
      forall i, j | 0 <= i < j < |o|
        ensures Position(o, i) != Position(o, j)
      {
        if i > 0 {
          Apart(order, i - 1, j - 1);
        } else {
          assert order[j - 1] in order;
        }
      }
      forall i | 0 <= i < |o|
        ensures 2 <= o[i]
      {
        if i > 0 {
          assert o[i] == order[i - 1];
        }
      }
      assert Proper(o);
    }
  }

  /** The keys and values of two node vectors agree slot by slot. */
  ghost predicate SamePayload<K, V>(a: seq<Node<K, V>>, b: seq<Node<K, V>>) {
    |a| == |b| && forall j :: 0 <= j < |a| ==> a[j].key == b[j].key && a[j].value == b[j].value
  }

  /** An entry node holds a key and a value. */
  predicate Carries<K, V>(n: Node<K, V>) {
    n.key.Some? && n.value.Some?
  }

  /** The listed slots exist and are entry nodes. */
  ghost predicate AllCarry<K, V>(nodes: seq<Node<K, V>>, order: seq<nat>) {
    forall i :: 0 <= i < |order| ==> order[i] < |nodes| && Carries(nodes[order[i]])
  }

  /** The map sends the key of every listed node back to that node. */
  ghost predicate Keyed<K, V>(nodes: seq<Node<K, V>>, index: map<K, nat>, order: seq<nat>) {
    forall i :: 0 <= i < |order| ==>
      order[i] < |nodes| && nodes[order[i]].key.Some? &&
      nodes[order[i]].key.value in index && index[nodes[order[i]].key.value] == order[i]
  }

  /** The map holds nothing but listed nodes, each under its own key. */
  ghost predicate Indexed<K, V>(nodes: seq<Node<K, V>>, index: map<K, nat>, order: seq<nat>) {
    forall k :: k in index ==> index[k] < |nodes| && nodes[index[k]].key == Some(k) && index[k] in order
  }

  /**
   * The representation: `order` lists the entry nodes from the front of the
   * list, the links thread head, `order` and tail in that sequence, `index`
   * maps each key to the node holding it and holds nothing else, and there
   * are no more entries than the capacity.
   */
  ghost predicate Represents<K, V>(nodes: seq<Node<K, V>>, index: map<K, nat>, order: seq<nat>, cap: nat) {
    |nodes| >= 2 && Linked(nodes, order) && Proper(order) && AllCarry(nodes, order) &&
    Keyed(nodes, index, order) && Indexed(nodes, index, order) && |index| == |order| <= cap
  }

  /** The recency list the nodes represent. */
  ghost function Items<K, V>(nodes: seq<Node<K, V>>, order: seq<nat>): (s: seq<(K, V)>)
    requires AllCarry(nodes, order)
    ensures |s| == |order|
    ensures forall i :: 0 <= i < |order| ==> s[i] == (nodes[order[i]].key.value, nodes[order[i]].value.value)
  {
    seq(|order|, i requires 0 <= i < |order| => (nodes[order[i]].key.value, nodes[order[i]].value.value))
  }

  /** The recency list of a representation has distinct keys. */
  lemma ItemsDistinct<K, V>(nodes: seq<Node<K, V>>, index: map<K, nat>, order: seq<nat>)
    requires Proper(order) && AllCarry(nodes, order) && Keyed(nodes, index, order)
    ensures DistinctKeys(Items(nodes, order))
  {
    var s := Items(nodes, order);
    forall i, j | 0 <= i < j < |s|
      ensures s[i].0 != s[j].0
    {
      Apart(order, i, j);
    }
  }

  /** A key is found in the recency list exactly when the map has it, at its node's place. */
  lemma ItemsLookup<K, V>(nodes: seq<Node<K, V>>, index: map<K, nat>, order: seq<nat>, k: K)
    requires Proper(order) && AllCarry(nodes, order) && Keyed(nodes, index, order) && Indexed(nodes, index, order)
    ensures k !in index ==> IndexOf(Items(nodes, order), k).None?
    ensures k in index ==> exists p :: 0 <= p < |order| && order[p] == index[k] && IndexOf(Items(nodes, order), k) == Some(p)
  {
    var s := Items(nodes, order);
    if k in index {
      ItemsDistinct(nodes, index, order);
      var p :| 0 <= p < |order| && order[p] == index[k];
      FindAt(s, p);
    } else {
      forall j | 0 <= j < |s|
        ensures s[j].0 != k
      {
        assert s[j].0 in index;
      }
    }
  }

  /** Keys kept node by node and the same set of listed nodes keep the map consistent. */
  lemma Rekeyed<K, V>(nodes: seq<Node<K, V>>, nodes': seq<Node<K, V>>, index: map<K, nat>, order: seq<nat>, order': seq<nat>)
    requires Keyed(nodes, index, order) && Indexed(nodes, index, order)
    requires |nodes'| == |nodes|
    requires forall j :: 0 <= j < |nodes| ==> nodes'[j].key == nodes[j].key
    requires forall x :: x in order' <==> x in order
    ensures Keyed(nodes', index, order') && Indexed(nodes', index, order')
  {
    forall i | 0 <= i < |order'|
      ensures order'[i] < |nodes'| && nodes'[order'[i]].key.Some?
      ensures nodes'[order'[i]].key.value in index && index[nodes'[order'[i]].key.value] == order'[i]
    {
      assert order'[i] in order;
      var j :| 0 <= j < |order| && order[j] == order'[i];
    }
  }

  // ---------------------------------------------------------------------
  // The two link operations, on values
  // ---------------------------------------------------------------------

  /** The nodes after `remove(idx)`: the neighbours of `idx` are joined; its own links are left as they are. */
  function Spliced<K, V>(nodes: seq<Node<K, V>>, idx: nat): (r: seq<Node<K, V>>)
    requires idx < |nodes| && nodes[idx].prev < |nodes| && nodes[idx].next < |nodes|
    ensures SamePayload(nodes, r)
  {
    var prev := nodes[idx].prev;
    var next := nodes[idx].next;
    var joined := nodes[prev := nodes[prev].(next := next)];
    joined[next := joined[next].(prev := prev)]
  }

  /** The nodes after `insert_to_front(idx)`: `idx` goes between the head sentinel and its old successor. */
  function Fronted<K, V>(nodes: seq<Node<K, V>>, idx: nat): (r: seq<Node<K, V>>)
    requires Head < |nodes| && idx < |nodes| && nodes[Head].next < |nodes|
    ensures SamePayload(nodes, r)
  {
    var first := nodes[Head].next;
    var placed := nodes[idx := nodes[idx].(next := first, prev := Head)];
    var after := placed[first := placed[first].(prev := idx)];
    after[Head := after[Head].(next := idx)]
  }

  /** After splicing `idx` out, only its predecessor's `next` and its successor's `prev` differ. */
  lemma SplicedLinks<K, V>(nodes: seq<Node<K, V>>, idx: nat, x: nat)
    requires idx < |nodes| && nodes[idx].prev < |nodes| && nodes[idx].next < |nodes|
    requires nodes[idx].prev != nodes[idx].next
    ensures Next(Spliced(nodes, idx), x) == if x == nodes[idx].prev then nodes[idx].next else Next(nodes, x)
    ensures Prev(Spliced(nodes, idx), x) == if x == nodes[idx].next then nodes[idx].prev else Prev(nodes, x)
  {
  }

  /** Splicing out the entry at `p` leaves the others linked in their order. */
  lemma SplicedLinked<K, V>(nodes: seq<Node<K, V>>, order: seq<nat>, p: nat)
    requires Linked(nodes, order) && Proper(order) && p < |order|
    ensures order[p] < |nodes| && nodes[order[p]].prev < |nodes| && nodes[order[p]].next < |nodes|
    ensures Linked(Spliced(nodes, order[p]), Without(order, p))
  {
    var idx := order[p];
    assert At(order, p + 1) == idx;
    assert Prev(nodes, At(order, p + 1)) == At(order, p);
    assert Next(nodes, At(order, p + 1)) == At(order, p + 2);
    var prev := At(order, p);
    var next := At(order, p + 2);
    AtDistinct(order, p, p + 2);
    var n := Spliced(nodes, idx);
    var w := Without(order, p);
    forall i | 0 <= i <= |w| + 1
      ensures At(w, i) == if i <= p then At(order, i) else At(order, i + 1)
      ensures At(w, i) < |n|
    {
    }
    forall i | 0 <= i <= |w|
      ensures Next(n, At(w, i)) == At(w, i + 1)
    {
      SplicedLinks(nodes, idx, At(w, i));
      if i < p {
        AtDistinct(order, i, p);
        assert Next(nodes, At(order, i)) == At(order, i + 1);
      } else if i > p {
        AtDistinct(order, p, i + 1);
        assert Next(nodes, At(order, i + 1)) == At(order, i + 2);
      }
    }
    forall i | 1 <= i <= |w| + 1
      ensures Prev(n, At(w, i)) == At(w, i - 1)
    {
      SplicedLinks(nodes, idx, At(w, i));
      if i <= p {
        AtDistinct(order, i, p + 2);
        assert Prev(nodes, At(order, i)) == At(order, i - 1);
      } else if i > p + 1 {
        AtDistinct(order, p + 2, i + 1);
        assert Prev(nodes, At(order, i + 1)) == At(order, i);
      }
    }
  }

  /** Putting a slot the list lacks at its front keeps everything linked. */
  lemma FrontedLinked<K, V>(nodes: seq<Node<K, V>>, order: seq<nat>, idx: nat)
    requires Linked(nodes, order) && Proper([idx] + order) && idx < |nodes|
    ensures nodes[Head].next < |nodes|
    ensures Linked(Fronted(nodes, idx), [idx] + order)
  {
    ProperCons(idx, order);
    var o := [idx] + order;
    assert Next(nodes, At(order, 0)) == At(order, 1);
    var first := At(order, 1);
    AtDistinct(order, 0, 1);
    var n := Fronted(nodes, idx);
    forall i | 2 <= i <= |o| + 1
      ensures At(o, i) == At(order, i - 1)
    {
    }
    forall i | 1 <= i <= |order| + 1
      ensures At(order, i) != idx
    {
      if i <= |order| {
        assert order[i - 1] in order;
      }
    }
    forall i | 0 <= i <= |o|
      ensures Next(n, At(o, i)) == At(o, i + 1)
    {
      if i >= 2 {
        AtDistinct(order, 0, i - 1);
        assert Next(nodes, At(order, i - 1)) == At(order, i);
      }
    }
    forall i | 1 <= i <= |o| + 1
      ensures Prev(n, At(o, i)) == At(o, i - 1)
    {
      if i >= 3 {
        AtDistinct(order, 1, i - 1);
        AtDistinct(order, 0, i - 1);
        assert Prev(nodes, At(order, i - 1)) == At(order, i - 2);
      } else if i == 2 {
        assert At(o, 2) == first;
      }
    }
  }

  /** The head sentinel's successor is a slot of the vector. */
  lemma HeadBounds<K, V>(nodes: seq<Node<K, V>>, order: seq<nat>)
    requires Linked(nodes, order)
    ensures Head < |nodes| && nodes[Head].next < |nodes|
  {
    assert Next(nodes, At(order, 0)) == At(order, 1);
  }

  /**
   * The neighbours of entry `p` are slots of the vector, and so is the head
   * sentinel's successor once `p` is spliced out; changing values (as an
   * overwriting `put` does first) moves no link.
   */
  lemma SpliceBounds<K, V>(nodes: seq<Node<K, V>>, nodes': seq<Node<K, V>>, order: seq<nat>, p: nat)
    requires Linked(nodes, order) && p < |order|
    requires |nodes'| == |nodes|
    requires forall j :: 0 <= j < |nodes| ==> nodes'[j].prev == nodes[j].prev && nodes'[j].next == nodes[j].next
    ensures order[p] < |nodes'| && nodes'[order[p]].prev < |nodes'| && nodes'[order[p]].next < |nodes'|
    ensures Spliced(nodes', order[p])[Head].next < |nodes'|
  {
    assert At(order, p + 1) == order[p];
    assert Prev(nodes, At(order, p + 1)) == At(order, p);
    assert Next(nodes, At(order, p + 1)) == At(order, p + 2);
    assert Next(nodes, At(order, 0)) == At(order, 1);
  }

  /** The tail sentinel's predecessor is the last entry, whose links and key are in place. */
  lemma LastBounds<K, V>(nodes: seq<Node<K, V>>, order: seq<nat>)
    requires Linked(nodes, order) && AllCarry(nodes, order) && |order| >= 1 && |nodes| >= 2
    ensures nodes[Tail].prev == order[|order| - 1]
    ensures nodes[order[|order| - 1]].prev < |nodes| && nodes[order[|order| - 1]].next < |nodes|
    ensures nodes[order[|order| - 1]].key.Some?
  {
    var n := |order|;
    assert Prev(nodes, At(order, n + 1)) == At(order, n);
    assert Prev(nodes, At(order, n)) == At(order, n - 1);
    assert Next(nodes, At(order, n)) == At(order, n + 1);
  }

  // ---------------------------------------------------------------------
  // The three changes `get` and `put` make, on values
  // ---------------------------------------------------------------------

  /** The list with the entry at `p` moved to the front, the others keeping their order. */
  function MovedToFront(order: seq<nat>, p: nat): (o: seq<nat>)
    requires p < |order|
    ensures |o| == |order|
    ensures forall a :: 0 <= a < |o| ==> o[a] == order[if a == 0 then p else if a <= p then a - 1 else a]
  {
    [order[p]] + Without(order, p)
  }

  /** Moving an entry to the front keeps the same slots, each once. */
  lemma MovedToFrontProper(order: seq<nat>, p: nat)
    requires Proper(order) && p < |order|
    ensures Proper(MovedToFront(order, p))
    ensures forall x :: x in MovedToFront(order, p) <==> x in order
  {
    var o := MovedToFront(order, p);
    forall a, b | 0 <= a < b < |o|
      ensures Position(o, a) != Position(o, b)
    {
      Apart(order, if a == 0 then p else if a <= p then a - 1 else a, if b <= p then b - 1 else b);
    }
    forall x | x in order
      ensures x in o
    {
      var q :| 0 <= q < |order| && order[q] == x;
      if q < p {
        assert o[q + 1] == x;
      } else if q > p {
        assert o[q] == x;
      } else {
        assert o[0] == x;
      }
    }
  }

  /** The recency list read through the moved order is the old one with entry `p` moved to the front. */
  lemma MovedToFrontItems<K, V>(nodes: seq<Node<K, V>>, nodes': seq<Node<K, V>>, order: seq<nat>, p: nat)
    requires AllCarry(nodes, order) && SamePayload(nodes, nodes') && p < |order|
    ensures AllCarry(nodes', MovedToFront(order, p))
    ensures Items(nodes', MovedToFront(order, p)) == [Items(nodes, order)[p]] + Without(Items(nodes, order), p)
  {
    var s := Items(nodes, order);
    var o := MovedToFront(order, p);
    assert AllCarry(nodes', o);
    var t := Items(nodes', o);
    var u := [s[p]] + Without(s, p);
    forall a | 0 <= a < |t|
      ensures t[a] == u[a]
    {
    }
  }

  /**
   * What `get` and an overwriting `put` do to the links: the entry at `p`
   * is spliced out and put in front, giving the representation of the
   * recency list with that entry moved to the front.
   */
  lemma Refresh<K, V>(nodes: seq<Node<K, V>>, index: map<K, nat>, order: seq<nat>, cap: nat, p: nat)
    requires Represents(nodes, index, order, cap) && p < |order|
    ensures order[p] < |nodes| && nodes[order[p]].prev < |nodes| && nodes[order[p]].next < |nodes|
    ensures Spliced(nodes, order[p])[Head].next < |nodes|
    ensures Represents(Fronted(Spliced(nodes, order[p]), order[p]), index, MovedToFront(order, p), cap)
    ensures Items(Fronted(Spliced(nodes, order[p]), order[p]), MovedToFront(order, p)) ==
      [Items(nodes, order)[p]] + Without(Items(nodes, order), p)
  {
    var idx := order[p];
    SplicedLinked(nodes, order, p);
    var n1 := Spliced(nodes, idx);
    MovedToFrontProper(order, p);
    var o := MovedToFront(order, p);
    FrontedLinked(n1, Without(order, p), idx);
    var n2 := Fronted(n1, idx);
    MovedToFrontItems(nodes, n2, order, p);
    Rekeyed(nodes, n2, index, order, o);
  }

  /** Storing `v` in the node of entry `p`, as an overwriting `put` does first. */
  lemma Revalued<K, V>(nodes: seq<Node<K, V>>, index: map<K, nat>, order: seq<nat>, cap: nat, p: nat, v: V)
    requires Represents(nodes, index, order, cap) && p < |order|
    ensures order[p] < |nodes|
    ensures Represents(nodes[order[p] := nodes[order[p]].(value := Some(v))], index, order, cap)
    ensures Items(nodes[order[p] := nodes[order[p]].(value := Some(v))], order) ==
      Items(nodes, order)[p := (Items(nodes, order)[p].0, v)]
    ensures Without(Items(nodes[order[p] := nodes[order[p]].(value := Some(v))], order), p) ==
      Without(Items(nodes, order), p)
  {
    var n := nodes[order[p] := nodes[order[p]].(value := Some(v))];
    forall i | 0 <= i <= |order| + 1
      ensures Next(n, At(order, i)) == Next(nodes, At(order, i)) && Prev(n, At(order, i)) == Prev(nodes, At(order, i))
    {
    }
    assert Linked(n, order);
    Rekeyed(nodes, n, index, order, order);
    var s := Items(nodes, order);
    assert AllCarry(n, order);
    var t := Items(n, order);
    forall i | 0 <= i < |order|
      ensures t[i] == s[p := (s[p].0, v)][i]
    {
      if i != p {
        Apart(order, i, p);
      }
    }
  }

  /**
   * Dropping the entry at `p` from the list and its key from the map keeps
   * the map consistent, and drops exactly that entry from the recency list.
   */
  lemma Dropped<K, V>(nodes: seq<Node<K, V>>, nodes': seq<Node<K, V>>, index: map<K, nat>, order: seq<nat>, p: nat)
    requires Proper(order) && AllCarry(nodes, order) && Keyed(nodes, index, order) && Indexed(nodes, index, order)
    requires SamePayload(nodes, nodes') && p < |order|
    ensures order[p] < |nodes| && nodes[order[p]].key.Some? && nodes[order[p]].key.value in index
    ensures Proper(Without(order, p)) && AllCarry(nodes', Without(order, p))
    ensures Keyed(nodes', index - {nodes[order[p]].key.value}, Without(order, p))
    ensures Indexed(nodes', index - {nodes[order[p]].key.value}, Without(order, p))
    ensures Items(nodes', Without(order, p)) == Without(Items(nodes, order), p)
  {
    var key := nodes[order[p]].key.value;
    var o' := Without(order, p);
    var index' := index - {key};
    forall k | k in index'
      ensures index'[k] in o'
    {
      var q :| 0 <= q < |order| && order[q] == index[k];
      if q < p {
        assert o'[q] == index[k];
      } else if q > p {
        assert o'[q - 1] == index[k];
      }
    }
    forall i | 0 <= i < |o'|
      ensures nodes'[o'[i]].key.value in index'
    {
      if i < p {
        Apart(order, i, p);
      } else {
        Apart(order, i + 1, p);
      }
    }
    forall i, j | 0 <= i < j < |o'|
      ensures Position(o', i) != Position(o', j)
    {
      Apart(order, if i < p then i else i + 1, if j < p then j else j + 1);
    }
    assert AllCarry(nodes', o');
    var s := Items(nodes, order);
    var t := Items(nodes', o');
    forall i | 0 <= i < |t|
      ensures t[i] == Without(s, p)[i]
    {
    }
  }

  /**
   * What `put` does with a full cache before storing a new key: the node
   * behind the tail sentinel is spliced out and its key leaves the map.
   */
  lemma Evicted<K, V>(nodes: seq<Node<K, V>>, index: map<K, nat>, order: seq<nat>, cap: nat)
    requires Represents(nodes, index, order, cap) && |order| >= 1
    ensures nodes[Tail].prev == order[|order| - 1]
    ensures nodes[order[|order| - 1]].prev < |nodes| && nodes[order[|order| - 1]].next < |nodes|
    ensures nodes[order[|order| - 1]].key.Some? && nodes[order[|order| - 1]].key.value in index
    ensures Represents(Spliced(nodes, order[|order| - 1]), index - {nodes[order[|order| - 1]].key.value},
      Without(order, |order| - 1), cap)
    ensures Items(Spliced(nodes, order[|order| - 1]), Without(order, |order| - 1)) ==
      Without(Items(nodes, order), |order| - 1)
  {
    var n := |order|;
    assert Prev(nodes, At(order, n + 1)) == At(order, n);
    SplicedLinked(nodes, order, n - 1);
    Dropped(nodes, Spliced(nodes, order[n - 1]), index, order, n - 1);
  }

  /** A fresh slot holding `(key, value)` in front of the list puts that entry in front of the recency list. */
  lemma AddedItems<K, V>(nodes: seq<Node<K, V>>, nodes': seq<Node<K, V>>, order: seq<nat>, key: K, value: V)
    requires AllCarry(nodes, order)
    requires SamePayload(nodes + [Node(Some(key), Some(value), 0, 0)], nodes')
    ensures AllCarry(nodes', [|nodes|] + order)
    ensures Items(nodes', [|nodes|] + order) == [(key, value)] + Items(nodes, order)
  {
    var o := [|nodes|] + order;
    assert forall i :: 1 <= i < |o| ==> o[i] == order[i - 1];
    assert AllCarry(nodes', o);
    var s := Items(nodes, order);
    var t := Items(nodes', o);
    forall i | 0 <= i < |t|
      ensures t[i] == ([(key, value)] + s)[i]
    {
      if i > 0 {
        assert o[i] == order[i - 1] && t[i] == s[i - 1];
      }
    }
  }

  /**
   * Putting a fresh slot holding `(key, value)` in front of the list and
   * mapping the key to it keeps the map consistent.
   */
  lemma Added<K, V>(nodes: seq<Node<K, V>>, nodes': seq<Node<K, V>>, index: map<K, nat>, order: seq<nat>, key: K, value: V)
    requires Proper(order) && AllCarry(nodes, order) && Keyed(nodes, index, order) && Indexed(nodes, index, order)
    requires (forall i :: 0 <= i < |order| ==> 2 <= order[i] < |nodes|) && |nodes| >= 2 && key !in index
    requires SamePayload(nodes + [Node(Some(key), Some(value), 0, 0)], nodes')
    ensures Proper([|nodes|] + order)
    ensures Keyed(nodes', index[key := |nodes|], [|nodes|] + order)
    ensures Indexed(nodes', index[key := |nodes|], [|nodes|] + order)
  {
    var idx := |nodes|;
    ProperCons(idx, order);
    var o := [idx] + order;
    var index' := index[key := idx];
    assert forall i :: 1 <= i < |o| ==> o[i] == order[i - 1];
    forall i | 0 <= i < |o|
      ensures o[i] < |nodes'| && nodes'[o[i]].key.Some?
      ensures nodes'[o[i]].key.value in index' && index'[nodes'[o[i]].key.value] == o[i]
    {
    }
    forall k | k in index'
      ensures index'[k] < |nodes'| && nodes'[index'[k]].key == Some(k) && index'[k] in o
    {
      if k != key {
        assert index[k] in order;
      }
    }
  }

  /**
   * What `put` does with a new key once there is room: a node is appended
   * past the last slot, mapped from the key and put in front.
   */
  lemma Pushed<K, V>(nodes: seq<Node<K, V>>, index: map<K, nat>, order: seq<nat>, cap: nat, key: K, value: V)
    requires Represents(nodes, index, order, cap) && key !in index && |order| < cap
    ensures (nodes + [Node(Some(key), Some(value), 0, 0)])[Head].next < |nodes| + 1
    ensures Represents(Fronted(nodes + [Node(Some(key), Some(value), 0, 0)], |nodes|), index[key := |nodes|],
      [|nodes|] + order, cap)
    ensures Items(Fronted(nodes + [Node(Some(key), Some(value), 0, 0)], |nodes|), [|nodes|] + order) ==
      [(key, value)] + Items(nodes, order)
  {
    var idx := |nodes|;
    var n1 := nodes + [Node(Some(key), Some(value), 0, 0)];
    forall i | 0 <= i <= |order| + 1
      ensures Next(n1, At(order, i)) == Next(nodes, At(order, i)) && Prev(n1, At(order, i)) == Prev(nodes, At(order, i))
    {
    }
    assert Linked(n1, order);
    forall i | 0 <= i < |order|
      ensures 2 <= order[i] < |nodes|
    {
      assert At(order, i + 1) == order[i];
    }
    ProperCons(idx, order);
    FrontedLinked(n1, order, idx);
    Added(nodes, Fronted(n1, idx), index, order, key, value);
    AddedItems(nodes, Fronted(n1, idx), order, key, value);
  }

  // ---------------------------------------------------------------------
  // The cache
  // ---------------------------------------------------------------------

  class LruCache<K(==), V> {
    var capacity: nat
    /** The key map of the source, from key to node index. */
    var index: map<K, nat>
    var nodes: seq<Node<K, V>>
    /** The entry nodes from the front of the list to the back. */
    ghost var order: seq<nat>

    ghost predicate Valid()
      reads this
    {
      Represents(nodes, index, order, capacity)
    }

    /** The entries from the most to the least recently used. */
    ghost function Entries(): seq<(K, V)>
      requires Valid()
      reads this
    {
      Items(nodes, order)
    }

    /** An empty cache: the head sentinel's `next` is the tail sentinel. */
    constructor(capacity: nat)
      ensures Valid() && this.capacity == capacity && Entries() == []
      ensures index == map[] && nodes == [Node(None, None, 0, 1), Node(None, None, 0, 1)]
    {
      this.capacity := capacity;
      index := map[];
      nodes := [Node(None, None, 0, 1), Node(None, None, 0, 1)];
      order := [];
    }

    /**
     * The source's `remove`: joins the neighbours of node `idx`, which sits
     * at position `p` of the list.
     */
    method Unlink(idx: nat, ghost p: nat)
      requires idx < |nodes| && nodes[idx].prev < |nodes| && nodes[idx].next < |nodes|
      requires p < |order|
      modifies this`nodes, this`order
      ensures nodes == Spliced(old(nodes), idx) && order == Without(old(order), p)
      ensures index == old(index) && capacity == old(capacity)
    {
      order := Without(order, p);
      var prev := nodes[idx].prev;
      var next := nodes[idx].next;
      nodes := nodes[prev := nodes[prev].(next := next)];
      nodes := nodes[next := nodes[next].(prev := prev)];
    }

    /** The source's `insert_to_front`: links node `idx` in directly after the head sentinel. */
    method InsertToFront(idx: nat)
      requires Head < |nodes| && idx < |nodes| && nodes[Head].next < |nodes|
      modifies this`nodes, this`order
      ensures nodes == Fronted(old(nodes), idx) && order == [idx] + old(order)
      ensures index == old(index) && capacity == old(capacity)
    {
      order := [idx] + order;
      var first := nodes[Head].next;
      nodes := nodes[idx := nodes[idx].(next := first, prev := Head)];
      nodes := nodes[first := nodes[first].(prev := idx)];
      nodes := nodes[Head := nodes[Head].(next := idx)];
    }

    /**
     * The value stored under `key`, whose entry becomes the most recently
     * used; an absent key changes nothing.
     */
    method Get(key: K) returns (r: Option<V>)
      requires Valid()
      modifies this`nodes, this`order
      ensures Valid() && |nodes| == old(|nodes|)
      ensures r == Find(old(Entries()), key)
      ensures Entries() == Refreshed(old(Entries()), key)
      ensures key !in index ==> nodes == old(nodes) && order == old(order)
    {
      ItemsLookup(nodes, index, order, key);
      if key in index {
        ghost var s := Entries();
        var idx := index[key];
        ghost var p :| 0 <= p < |order| && order[p] == idx && IndexOf(s, key) == Some(p);
        ghost var n0, i0, o, c0 := nodes, index, order, capacity;
        SpliceBounds(nodes, nodes, order, p);
        Unlink(idx, p);
        InsertToFront(idx);
        assert nodes == Fronted(Spliced(n0, idx), idx) && index == i0 && capacity == c0;
        assert order == MovedToFront(o, p);
        Refresh(n0, i0, o, c0, p);
        assert Entries() == [s[p]] + Without(s, p);
        r := nodes[idx].value;
        assert r == Some(s[p].1);
      } else {
        r := None;
      }
    }

    /** The assignment of a new value to node `idx` in the first branch of `put`. */
    method SetValue(idx: nat, value: V)
      requires idx < |nodes|
      modifies this`nodes
      ensures nodes == old(nodes)[idx := old(nodes)[idx].(value := Some(value))]
      ensures index == old(index) && order == old(order) && capacity == old(capacity)
    {
      nodes := nodes[idx := nodes[idx].(value := Some(value))];
    }

    /** The first branch of `put`: a present key takes the new value and moves to the front. */
    method Overwrite(key: K, value: V)
      requires Valid() && capacity >= 1 && key in index
      modifies this`nodes, this`order
      ensures Valid() && index == old(index) && capacity == old(capacity) && |nodes| == old(|nodes|)
      ensures Entries() == Inserted(old(Entries()), key, value, capacity)
    {
      ItemsLookup(nodes, index, order, key);
      ghost var s := Entries();
      var idx := index[key];
      ghost var p :| 0 <= p < |order| && order[p] == idx && IndexOf(s, key) == Some(p);
      ghost var n0, i0, o, c0 := nodes, index, order, capacity;
      SpliceBounds(nodes, nodes[idx := nodes[idx].(value := Some(value))], order, p);
      SetValue(idx, value);
      ghost var n1 := nodes;
      Unlink(idx, p);
      InsertToFront(idx);
      assert nodes == Fronted(Spliced(n1, idx), idx) && index == i0 && capacity == c0;
      assert order == MovedToFront(o, p);
      Revalued(n0, i0, o, c0, p, value);
      Refresh(n1, i0, o, c0, p);
      assert Entries() == [(key, value)] + Without(s, p);
    }

    /** The eviction in `put`: the node behind the tail sentinel is unlinked and its key dropped. */
    method EvictLast()
      requires Valid() && |index| >= 1
      modifies this`nodes, this`index, this`order
      ensures Valid() && capacity == old(capacity) && |nodes| == old(|nodes|)
      ensures |old(Entries())| >= 1 && Entries() == Without(old(Entries()), |old(Entries())| - 1)
      ensures index == old(index) - {old(Entries())[|old(Entries())| - 1].0}
    {
      ghost var n0, i0, o, c0 := nodes, index, order, capacity;
      LastBounds(nodes, order);
      var lru := nodes[Tail].prev;
      var lruKey := nodes[lru].key.value;
      Unlink(lru, |order| - 1);
      index := index - {lruKey};
      assert nodes == Spliced(n0, o[|o| - 1]) && capacity == c0;
      Evicted(n0, i0, o, c0);
    }

    /** The last part of `put`: a node for a new key is appended and linked in at the front. */
    method PushFront(key: K, value: V)
      requires Valid() && key !in index && |index| < capacity
      modifies this`nodes, this`index, this`order
      ensures Valid() && capacity == old(capacity) && |nodes| == old(|nodes|) + 1
      ensures Entries() == [(key, value)] + old(Entries())
      ensures index == old(index)[key := old(|nodes|)]
    {
      var idx := |nodes|;
      ghost var n1, i1, o1, c0 := nodes, index, order, capacity;
      HeadBounds(nodes, order);
      nodes := nodes + [Node(Some(key), Some(value), 0, 0)];
      index := index[key := idx];
      InsertToFront(idx);
      assert nodes == Fronted(n1 + [Node(Some(key), Some(value), 0, 0)], idx);
      assert index == i1[key := idx] && capacity == c0;
      Pushed(n1, i1, o1, c0, key, value);
    }

    /**
     * The branch of `put` for a key the map lacks: the least recently used
     * entry goes first when the cache is full, then the new node is pushed.
     */
    method Admit(key: K, value: V)
      requires Valid() && capacity >= 1 && key !in index
      modifies this`nodes, this`index, this`order
      ensures Valid() && capacity == old(capacity) && |nodes| == old(|nodes|) + 1
      ensures Entries() == [(key, value)] + if |old(index)| == capacity then Without(old(Entries()), |old(index)| - 1) else old(Entries())
      ensures key in index && index[key] == old(|nodes|)
    {
      ghost var s := Entries();
      if |index| == capacity {
        EvictLast();
        assert Entries() == Without(s, |s| - 1);
      }
      ghost var s1 := Entries();
      PushFront(key, value);
      assert Entries() == [(key, value)] + s1;
    }

    /**
     * Stores `value` under `key` as the most recently used entry. A new key
     * arriving at a full cache first evicts the least recently used entry;
     * the new node is appended, so a slot is never reused.
     */
    method Put(key: K, value: V)
      requires Valid() && capacity >= 1
      modifies this`nodes, this`index, this`order
      ensures Valid()
      ensures Entries() == Inserted(old(Entries()), key, value, capacity)
      ensures |nodes| == if key in old(index) then old(|nodes|) else old(|nodes|) + 1
      ensures key in index && (key !in old(index) ==> index[key] == old(|nodes|))
    {
      ItemsLookup(nodes, index, order, key);
      if key in index {
        Overwrite(key, value);
      } else {
        Admit(key, value);
      }
    }
  }
}
