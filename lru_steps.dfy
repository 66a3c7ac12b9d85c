/**
 * How each operation of the LRU cache keeps the invariant of LruLinks: one lemma
 * per kind of step, stated over plain values so that the methods of the cache
 * only have to supply the state before and after.
 */
module LruSteps {
  import LruSpec
  import opened LruLinks

  /**
   * Touching a cached key keeps the invariant (Get, and Update of a present
   * key): its slot goes to the front of the list and its key to the front of the
   * order, and every slot keeps its value.
   */
  lemma TouchKeepsRepresents<K, V>(nodes: seq<Entry<V>>, after: seq<Entry<V>>,
                                   spine: seq<nat>, head: Ptr, tail: Ptr, head': Ptr, tail': Ptr,
                                   lookup: map<K, nat>, rev: map<nat, K>, size: nat, order: seq<K>,
                                   values: map<K, V>, maxSize: nat, key: K)
    requires Represents(nodes, spine, head, tail, lookup, rev, size, order, values, maxSize) && key in lookup
    requires WellLinked(after, [lookup[key]] + LruSpec.Without(spine, lookup[key]), head', tail')
    requires Retains(nodes, after, [lookup[key]] + spine)
    ensures Represents(after, [lookup[key]] + LruSpec.Without(spine, lookup[key]), head', tail',
                       lookup, rev, size, LruSpec.Promote(order, key), values, maxSize)
  {
    TouchKeepsIndexing(nodes, after, spine, lookup, rev, order, values, key);
    LruSpec.GetPreserves(LruSpec.Cache(order, values), maxSize, key);
  }

  /** The slot of `key` taking the value `v` keeps the slots storing the values, now with `v` for `key`. */
  lemma RevalueKeepsStored<K, V>(nodes: seq<Entry<V>>, after: seq<Entry<V>>, lookup: map<K, nat>,
                                 rev: map<nat, K>, values: map<K, V>, key: K, v: V)
    requires Inverse(lookup, rev) && Stored(nodes, lookup, values) && key in lookup
    requires after == nodes[lookup[key] := nodes[lookup[key]].(value := v)]
    ensures Stored(after, lookup, values[key := v])
  {
    forall k | k in lookup ensures values[key := v][k] == after[lookup[k]].value {
      if k != key {
        assert rev[lookup[k]] == k && rev[lookup[key]] == key;
      }
    }
  }

  /**
   * A cached key taking a new value keeps the invariant: its slot, and only its
   * slot, takes the value `v`, and no link, index entry or position changes.
   */
  lemma RevalueKeepsRepresents<K, V>(nodes: seq<Entry<V>>, spine: seq<nat>, head: Ptr, tail: Ptr,
                                     lookup: map<K, nat>, rev: map<nat, K>, size: nat, order: seq<K>,
                                     values: map<K, V>, maxSize: nat, key: K, v: V)
    requires Represents(nodes, spine, head, tail, lookup, rev, size, order, values, maxSize) && key in lookup
    ensures Represents(nodes[lookup[key] := nodes[lookup[key]].(value := v)], spine, head, tail,
                       lookup, rev, size, order, values[key := v], maxSize)
  {
    var after := nodes[lookup[key] := nodes[lookup[key]].(value := v)];
    SameLinks(nodes, after, spine, head, tail);
    RevalueKeepsStored(nodes, after, lookup, rev, values, key, v);
    assert Unlisted(after, spine, lookup);
    assert values[key := v].Keys == values.Keys;
  }

  /** The fresh slot `|nodes|` is past every listed slot and every indexed one. */
  lemma FreshSlot<K, V>(nodes: seq<Entry<V>>, spine: seq<nat>, head: Ptr, tail: Ptr,
                        lookup: map<K, nat>, rev: map<nat, K>, order: seq<K>, values: map<K, V>)
    requires WellLinked(nodes, spine, head, tail) && Indexing(nodes, spine, lookup, rev, order, values)
    ensures |nodes| !in rev && |nodes| !in spine
    ensures forall k :: k in lookup ==> lookup[k] < |nodes|
    ensures forall j :: j in rev ==> j < |nodes|
  {
  }

  /** Indexing a new key at a fresh slot keeps the indexes inverse. */
  lemma AddKeepsInverse<K>(lookup: map<K, nat>, rev: map<nat, K>, key: K, n: nat)
    requires Inverse(lookup, rev) && key !in lookup && n !in rev
    ensures Inverse(lookup[key := n], rev[n := key])
  {
  }

  /** Erasing a slot and its key from both indexes keeps them inverse. */
  lemma DropKeepsInverse<K>(lookup: map<K, nat>, rev: map<nat, K>, t: nat)
    requires Inverse(lookup, rev) && t in rev
    ensures Inverse(lookup - {rev[t]}, rev - {t})
  {
    forall k | k in lookup - {rev[t]} ensures lookup[k] != t {
      assert rev[lookup[k]] == k;
    }
  }

  /** A fresh slot in front of the list, with its key in front of the order. */
  lemma AddKeepsOrdered<K>(spine: seq<nat>, rev: map<nat, K>, order: seq<K>, key: K, n: nat)
    requires Ordered(spine, rev, order) && n !in rev
    ensures Ordered([n] + spine, rev[n := key], [key] + order)
  {
    forall i | 0 <= i < |spine| + 1 ensures ([n] + spine)[i] in rev[n := key]
      && ([key] + order)[i] == rev[n := key][([n] + spine)[i]]
    {
      if i > 0 {
        assert ([n] + spine)[i] == spine[i - 1] && ([key] + order)[i] == order[i - 1];
      }
    }
  }

  /** The tail slot leaves the list and `rev`, and its key the end of the order. */
  lemma DropKeepsOrdered<K>(spine: seq<nat>, rev: map<nat, K>, order: seq<K>)
    requires Ordered(spine, rev, order) && LruSpec.Distinct(spine) && spine != []
    ensures Ordered(spine[..|spine| - 1], rev - {spine[|spine| - 1]}, order[..|order| - 1])
  {
  }

  /** A new key stored at the fresh slot `|nodes|`, which holds its value. */
  lemma AddKeepsStored<K, V>(nodes: seq<Entry<V>>, nodes': seq<Entry<V>>, lookup: map<K, nat>,
                             values: map<K, V>, key: K, v: V)
    requires Stored(nodes, lookup, values) && key !in lookup
    requires |nodes'| == |nodes| + 1 && nodes'[|nodes|].value == v
    requires forall j :: 0 <= j < |nodes| ==> nodes'[j].value == nodes[j].value
    ensures Stored(nodes', lookup[key := |nodes|], values[key := v])
  {
  }

  /** Erasing a key from both `lookup` and `values`. */
  lemma DropKeepsStored<K, V>(nodes: seq<Entry<V>>, lookup: map<K, nat>, values: map<K, V>, x: K)
    requires Stored(nodes, lookup, values)
    ensures Stored(nodes, lookup - {x}, values - {x})
  {
  }

  /**
   * A new key at the fresh slot `|nodes|`: indexed slots off the list keep no
   * links when the slots change only on the list, nothing leaves the list,
   * and the fresh slot is listed or has no links.
   */
  lemma AddKeepsUnlisted<K, V>(nodes: seq<Entry<V>>, nodes': seq<Entry<V>>, spine: seq<nat>, spine': seq<nat>,
                               lookup: map<K, nat>, key: K)
    requires Unlisted(nodes, spine, lookup) && |nodes'| == |nodes| + 1
    requires forall k :: k in lookup ==> lookup[k] < |nodes|
    requires forall j :: 0 <= j < |nodes| && j !in spine ==> nodes'[j] == nodes[j]
    requires forall j :: j in spine ==> j in spine'
    requires |nodes| in spine' || (nodes'[|nodes|].next == Null && nodes'[|nodes|].prev == Null)
    ensures Unlisted(nodes', spine', lookup[key := |nodes|])
  {
  }

  /**
   * Eviction: the tail slot `t` leaves the list with no links and its key leaves
   * `lookup`; the new key's fresh slot joins the front of the list.
   */
  lemma EvictKeepsUnlisted<K, V>(nodes: seq<Entry<V>>, nodes': seq<Entry<V>>, spine: seq<nat>,
                                 lookup: map<K, nat>, rev: map<nat, K>, key: K, n: nat, t: nat)
    requires Unlisted(nodes, spine, lookup) && Inverse(lookup, rev) && spine != []
    requires t == spine[|spine| - 1] && t in rev && n == |nodes| && |nodes'| == n + 1
    requires forall k :: k in lookup ==> lookup[k] < |nodes|
    requires forall j :: 0 <= j < |nodes| && j !in spine ==> nodes'[j] == nodes[j]
    requires t < |nodes'| && nodes'[t].next == Null && nodes'[t].prev == Null
    ensures Unlisted(nodes', [n] + spine[..|spine| - 1], (lookup - {rev[t]})[key := n])
  {
    var spine' := [n] + spine[..|spine| - 1];
    forall k | k in lookup - {rev[t]} && lookup[k] !in spine'
      ensures nodes'[lookup[k]].next == Null && nodes'[lookup[k]].prev == Null
    {
      assert lookup[k] != t;
    }
  }

  /** The indexes after a new key is put at the fresh slot `n`, in front of the list. */
  lemma RoomKeepsIndexing<K, V>(nodes: seq<Entry<V>>, spine: seq<nat>, head: Ptr, tail: Ptr,
                                lookup: map<K, nat>, rev: map<nat, K>, order: seq<K>, values: map<K, V>,
                                n: nat, nodes': seq<Entry<V>>, key: K, v: V)
    requires WellLinked(nodes, spine, head, tail) && Indexing(nodes, spine, lookup, rev, order, values)
    requires key !in lookup && n == |nodes| && |nodes'| == n + 1
    requires Retains(nodes + [Entry(v, Null, Null)], nodes', [n] + spine)
    ensures Indexing(nodes', [n] + spine, lookup[key := n], rev[n := key], [key] + order, values[key := v])
  {
    FreshSlot(nodes, spine, head, tail, lookup, rev, order, values);
    AddKeepsInverse(lookup, rev, key, n);
    AddKeepsStored(nodes, nodes', lookup, values, key, v);
    AddKeepsUnlisted(nodes, nodes', spine, [n] + spine, lookup, key);
    AddKeepsOrdered(spine, rev, order, key, n);
  }

  /** Update of an absent key below capacity: the fresh slot and the key go in front, nothing is evicted. */
  lemma RoomKeepsRepresents<K, V>(nodes: seq<Entry<V>>, spine: seq<nat>, head: Ptr, tail: Ptr,
                                  lookup: map<K, nat>, rev: map<nat, K>, size: nat, order: seq<K>, values: map<K, V>,
                                  n: nat, nodes': seq<Entry<V>>, head': Ptr, tail': Ptr, maxSize: nat, key: K, v: V)
    requires Represents(nodes, spine, head, tail, lookup, rev, size, order, values, maxSize) && key !in lookup
    requires size + 1 <= maxSize && n == |nodes| && |nodes'| == n + 1
    requires WellLinked(nodes', [n] + spine, head', tail')
    requires Retains(nodes + [Entry(v, Null, Null)], nodes', [n] + spine)
    ensures Represents(nodes', [n] + spine, head', tail', lookup[key := n], rev[n := key],
                       size + 1, [key] + order, values[key := v], maxSize)
  {
    var c := LruSpec.Cache(order, values);
    RoomKeepsIndexing(nodes, spine, head, tail, lookup, rev, order, values, n, nodes', key, v);
    LruSpec.UpdatePreservesIndexed(c, maxSize, key, v);
    LruSpec.UpdatePreservesConsistent(c, maxSize, key, v);
  }

  /**
   * Update of an absent key into a full cache whose list was empty, which needs
   * capacity 0: the fresh slot was put on the list and trimmed off again, with
   * no links, but its key is indexed all the same.
   */
  lemma EmptyKeepsRepresents<K, V>(nodes: seq<Entry<V>>, head: Ptr, tail: Ptr,
                                   lookup: map<K, nat>, rev: map<nat, K>, size: nat, order: seq<K>, values: map<K, V>,
                                   n: nat, nodes': seq<Entry<V>>, head': Ptr, tail': Ptr, maxSize: nat, key: K, v: V)
    requires Represents(nodes, [], head, tail, lookup, rev, size, order, values, maxSize) && key !in lookup
    requires size + 1 > maxSize && n == |nodes| && |nodes'| == n + 1
    requires WellLinked(nodes', [], head', tail')
    requires Retains(nodes + [Entry(v, Null, Null)], nodes', [n])
    requires nodes'[n].next == Null && nodes'[n].prev == Null
    ensures maxSize == 0
    ensures Represents(nodes', [], head', tail', lookup[key := n], rev[n := key],
                       size + 1, [], values[key := v], maxSize)
  {
    FreshSlot(nodes, [], head, tail, lookup, rev, order, values);
    AddKeepsInverse(lookup, rev, key, n);
    AddKeepsStored(nodes, nodes', lookup, values, key, v);
    AddKeepsUnlisted(nodes, nodes', [], [], lookup, key);
    assert maxSize == 0 by {
      if maxSize >= 1 {
        LruSpec.ConsistentLength(LruSpec.Cache(order, values), maxSize);
      }
    }
  }

  /**
   * The indexes after eviction: the tail slot `t` and its key, the last of the
   * order, leave both indexes, and the new key comes in at the fresh slot `n`.
   */
  lemma EvictKeepsIndexing<K, V>(nodes: seq<Entry<V>>, spine: seq<nat>, head: Ptr, tail: Ptr,
                                 lookup: map<K, nat>, rev: map<nat, K>, order: seq<K>, values: map<K, V>,
                                 n: nat, nodes': seq<Entry<V>>, key: K, v: V, t: nat)
    requires WellLinked(nodes, spine, head, tail) && Indexing(nodes, spine, lookup, rev, order, values)
    requires key !in lookup && n == |nodes| && |nodes'| == n + 1 && spine != [] && t == spine[|spine| - 1]
    requires Retains(nodes + [Entry(v, Null, Null)], nodes', [n] + spine)
    requires t < |nodes'| && nodes'[t].next == Null && nodes'[t].prev == Null
    ensures t in rev && |order| == |spine| && rev[t] == order[|order| - 1] && rev[t] in lookup
    ensures Indexing(nodes', [n] + spine[..|spine| - 1], (lookup - {rev[t]})[key := n], (rev - {t})[n := key],
                     [key] + order[..|order| - 1], (values - {rev[t]})[key := v])
  {
    FreshSlot(nodes, spine, head, tail, lookup, rev, order, values);
    var x := rev[t];
    DropKeepsInverse(lookup, rev, t);
    AddKeepsInverse(lookup - {x}, rev - {t}, key, n);
    DropKeepsOrdered(spine, rev, order);
    AddKeepsOrdered(spine[..|spine| - 1], rev - {t}, order[..|order| - 1], key, n);
    DropKeepsStored(nodes, lookup, values, x);
    AddKeepsStored(nodes, nodes', lookup - {x}, values - {x}, key, v);
    EvictKeepsUnlisted(nodes, nodes', spine, lookup, rev, key, n, t);
  }

  /**
   * Update of an absent key into a full cache with a non-empty list: the tail
   * `t` and its key, the least recently used, are evicted, the size stays, and
   * the new key comes in at the front.
   */
  lemma EvictKeepsRepresents<K, V>(nodes: seq<Entry<V>>, spine: seq<nat>, head: Ptr, tail: Ptr,
                                   lookup: map<K, nat>, rev: map<nat, K>, size: nat, order: seq<K>, values: map<K, V>,
                                   n: nat, nodes': seq<Entry<V>>, head': Ptr, tail': Ptr, maxSize: nat, key: K, v: V,
                                   t: nat)
    requires Represents(nodes, spine, head, tail, lookup, rev, size, order, values, maxSize) && key !in lookup
    requires size + 1 > maxSize && n == |nodes| && |nodes'| == n + 1 && spine != [] && t == spine[|spine| - 1]
    requires WellLinked(nodes', [n] + spine[..|spine| - 1], head', tail')
    requires Retains(nodes + [Entry(v, Null, Null)], nodes', [n] + spine)
    requires t < |nodes'| && nodes'[t].next == Null && nodes'[t].prev == Null
    ensures t in rev
    ensures Represents(nodes', [n] + spine[..|spine| - 1], head', tail', (lookup - {rev[t]})[key := n],
                       (rev - {t})[n := key], size, [key] + order[..|order| - 1], (values - {rev[t]})[key := v], maxSize)
  {
    var c := LruSpec.Cache(order, values);
    EvictKeepsIndexing(nodes, spine, head, tail, lookup, rev, order, values, n, nodes', key, v, t);
    var x := rev[t];
    assert |lookup - {x}| == |lookup| - 1;
    assert |values.Keys| == |lookup.Keys|;
    LruSpec.EvictKeepsInvariants(c, maxSize, key, v);
  }

  /**
   * Update of an absent key keeps the invariant, whichever of its three cases
   * Insert took: room to spare, a full cache whose list was empty, or a full
   * cache that evicts its tail.
   */
  lemma InsertKeepsRepresents<K, V>(nodes: seq<Entry<V>>, spine: seq<nat>, head: Ptr, tail: Ptr,
                                    lookup: map<K, nat>, rev: map<nat, K>, size: nat, order: seq<K>, values: map<K, V>,
                                    n: nat, nodes': seq<Entry<V>>, spine': seq<nat>, head': Ptr, tail': Ptr,
                                    lookup': map<K, nat>, rev': map<nat, K>, size': nat, order': seq<K>,
                                    values': map<K, V>, maxSize: nat, key: K, v: V)
    requires Represents(nodes, spine, head, tail, lookup, rev, size, order, values, maxSize) && key !in lookup
    requires n == |nodes| && |nodes'| == n + 1 && WellLinked(nodes', spine', head', tail')
    requires Retains(nodes + [Entry(v, Null, Null)], nodes', [n] + spine)
    requires size + 1 <= maxSize ==>
      && spine' == [n] + spine
      && lookup' == lookup[key := n] && rev' == rev[n := key] && size' == size + 1
    requires size + 1 > maxSize && spine == [] ==>
      && spine' == [] && nodes'[n].next == Null && nodes'[n].prev == Null
      && lookup' == lookup[key := n] && rev' == rev[n := key] && size' == size + 1
    requires size + 1 > maxSize && spine != [] ==>
      var t := spine[|spine| - 1];
      && spine' == [n] + spine[..|spine| - 1] && t < |nodes'| && nodes'[t].next == Null && nodes'[t].prev == Null
      && if t in rev then
           && lookup' == (lookup - {rev[t]})[key := n] && rev' == (rev - {t})[n := key]
           && size' == size
         else
           && lookup' == lookup[key := n] && rev' == rev[n := key] && size' == size + 1
    requires LruSpec.Cache(order', values') == LruSpec.Update(LruSpec.Cache(order, values), maxSize, key, v)
    ensures Represents(nodes', spine', head', tail', lookup', rev', size', order', values', maxSize)
  {
    assert |values| == size by {
      assert values.Keys == lookup.Keys;
    }
    if size + 1 <= maxSize {
      RoomKeepsRepresents(nodes, spine, head, tail, lookup, rev, size, order, values, n, nodes', head', tail',
                          maxSize, key, v);
    } else if spine == [] {
      EmptyKeepsRepresents(nodes, head, tail, lookup, rev, size, order, values, n, nodes', head', tail',
                           maxSize, key, v);
    } else {
      EvictKeepsRepresents(nodes, spine, head, tail, lookup, rev, size, order, values, n, nodes', head', tail',
                           maxSize, key, v, spine[|spine| - 1]);
    }
  }
}
