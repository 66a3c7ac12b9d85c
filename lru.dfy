/**
 * The LRU cache: a key index (`lookup`) from key to list node, a reverse index
 * (`reverseLookup`) from node to key, and a doubly linked recency list from
 * `head` (most recently used) to `tail` (least recently used), with `size`
 * counting the indexed keys against the fixed `maxSize`.
 *
 * Nodes live in an arena, `nodes`; a node's identity is its slot index, and its
 * `next`/`prev` links are slot indices. Slots of evicted nodes are never reused.
 * Spine lists the slots of the recency list from head to tail; Order and Values
 * are the cache seen from outside, as LruSpec describes it.
 */
module Lru {
  import opened Wrappers
  import opened LruLinks
  import opened LruSteps
  import LruSpec

  class LRUCache<K(==), V> {
    var nodes: seq<Entry<V>>
    var head: Ptr
    var tail: Ptr
    var lookup: map<K, nat>
    var reverseLookup: map<nat, K>
    var size: nat
    const maxSize: nat

    ghost var Spine: seq<nat>
    ghost var Order: seq<K>
    ghost var Values: map<K, V>

    /** The recency list is well formed: Spine is linked both ways and ends at `head` and `tail`. */
    ghost predicate ListValid()
      reads this
    {
      WellLinked(nodes, Spine, head, tail)
    }

    ghost predicate Valid()
      reads this
    {
      Represents(nodes, Spine, head, tail, lookup, reverseLookup, size, Order, Values, maxSize)
    }

    /** A new cache is empty, with the given capacity. */
    constructor (maxSize: nat)
      ensures Valid() && Order == [] && Values == map[]
      ensures MaxSize() == maxSize && Size() == 0 && Empty()
    {
      this.maxSize := maxSize;
      nodes := [];
      head, tail := Null, Null;
      lookup, reverseLookup := map[], map[];
      size := 0;
      Spine, Order, Values := [], [], map[];
    }

    /**
     * The number of indexed keys. With a positive capacity it is also the length
     * of the recency list, and never more than the capacity.
     */
    function Size(): (n: nat)
      reads this
      requires Valid()
      ensures n == |Values|
      ensures maxSize >= 1 ==> n == |Order| && n <= maxSize
    {
      LruSpec.ConsistentLengthIf(LruSpec.Cache(Order, Values), maxSize);
      size
    }

    /** The capacity given at construction; no operation changes it. */
    function MaxSize(): (r: nat)
      ensures r == maxSize
    {
      maxSize
    }

    /** True exactly when no key is cached. */
    function Empty(): (r: bool)
      reads this
      requires Valid()
      ensures r <==> Values == map[]
    {
      size == 0
    }
  
    /**
     * Get: a cached key is moved to the front of the recency list and its value
     * returned; an absent key leaves the cache as it was and yields None.
     */
    method Get(key: K) returns (r: Option<V>)
      requires Valid()
      modifies this`nodes, this`head, this`tail, this`Spine, this`Order
      ensures Valid()
      ensures (LruSpec.Cache(Order, Values), r) == LruSpec.Get(old(LruSpec.Cache(Order, Values)), key)
      ensures key !in lookup ==> unchanged(this)
    {
      if key in lookup {
        var m := lookup[key];
        Touch(m, key);
        r := Some(nodes[m].value);
      } else {
        r := None;
      }
    }

    /**
     * Update: a cached key takes the new value and moves to the front; an absent
     * key gets a new node at the front, the cache is trimmed to capacity by
     * evicting the least recently used node, and the key is then indexed.
     */
    method Update(key: K, value: V)
      requires Valid()
      modifies this
      ensures Valid()
      ensures LruSpec.Cache(Order, Values) == LruSpec.Update(old(LruSpec.Cache(Order, Values)), maxSize, key, value)
    {
      if key in lookup {
        Replace(key, value);
      } else {
        Add(key, value);
      }
    }

    /**
     * The present-key branch of Update: the node of `key` takes the new value and
     * is then moved to the front, as Get moves it.
     */
    method Replace(key: K, value: V)
      requires Valid() && key in lookup
      modifies this`nodes, this`head, this`tail, this`Spine, this`Order, this`Values
      ensures Valid()
      ensures LruSpec.Cache(Order, Values) == LruSpec.Update(old(LruSpec.Cache(Order, Values)), maxSize, key, value)
    {
      var m := lookup[key];
      Revalue(m, key, value);
      Touch(m, key);
    }

    /** The absent-key branch of Update, with the invariant: Insert, and why it keeps the cache represented. */
    method Add(key: K, value: V)
      requires Valid() && key !in lookup
      modifies this
      ensures Valid()
      ensures LruSpec.Cache(Order, Values) == LruSpec.Update(old(LruSpec.Cache(Order, Values)), maxSize, key, value)
    {
      ghost var s, before, h, t, l, r, z := Spine, nodes, head, tail, lookup, reverseLookup, size;
      ghost var order, values := Order, Values;
      FreshSlot(nodes, s, h, t, l, r, order, values);
      var n := Insert(key, value);
      InsertKeepsRepresents(before, s, h, t, l, r, z, order, values, n, nodes, Spine, head, tail,
                            lookup, reverseLookup, size, Order, Values, maxSize, key, value);
    }

    /** The node of `key`, slot `m`, becomes the most recently used, keeping its value. */
    method Touch(m: nat, key: K)
      requires Valid() && key in lookup && m == lookup[key]
      modifies this`nodes, this`head, this`tail, this`Spine, this`Order
      ensures Valid() && Order == LruSpec.Promote(old(Order), key)
      ensures m < |nodes| && nodes[m].value == Values[key]
    {
      ghost var s, before, h, t, order := Spine, nodes, head, tail, Order;
      MoveToFront(m, key);
      TouchKeepsRepresents(before, nodes, s, h, t, head, tail, lookup, reverseLookup, size,
                           order, Values, maxSize, key);
    }

    /**
     * Detach followed by Prepend: node `n` becomes the most recently used, and
     * `key`, the key it is cached under, moves to the front of the order.
     */
    method MoveToFront(n: nat, ghost key: K)
      requires ListValid() && n < |nodes|
      requires n in Spine || (nodes[n].next == Null && nodes[n].prev == Null)
      modifies this`nodes, this`head, this`tail, this`Spine, this`Order
      ensures ListValid() && Spine == [n] + LruSpec.Without(old(Spine), n)
      ensures Retains(old(nodes), nodes, [n] + old(Spine))
      ensures Order == LruSpec.Promote(old(Order), key)
    {
      ghost var s := Spine;
      Detach(n);
      assert n !in Spine by {
        LruSpec.WithoutProperties(s, n);
      }
      Prepend(n);
      Order := LruSpec.Promote(Order, key);
    }

    /** `node->value = value`: the node of `key`, slot `m`, takes `value`; no link changes. */
    method Revalue(m: nat, key: K, value: V)
      requires Valid() && key in lookup && m == lookup[key]
      modifies this`nodes, this`Values
      ensures Valid()
      ensures nodes == old(nodes)[m := old(nodes)[m].(value := value)] && Values == old(Values)[key := value]
    {
      ghost var values := Values;
      nodes := nodes[m := nodes[m].(value := value)];
      Values := Values[key := value];
      RevalueKeepsRepresents(old(nodes), Spine, head, tail, lookup, reverseLookup, size, Order, values, maxSize, key, value);
    }

    /**
     * The absent-key branch of Update: a new node holding `value` is counted and
     * put at the front, the cache is trimmed, and only then is `key` indexed.
     */
    method Insert(key: K, value: V) returns (n: nat)
      requires ListValid() && forall j :: j in reverseLookup ==> j < |nodes|
      modifies this
      ensures n == old(|nodes|) && |nodes| == n + 1 && ListValid()
      ensures Retains(old(nodes) + [Entry(value, Null, Null)], nodes, [n] + old(Spine))
      ensures old(size) + 1 <= maxSize ==>
        && Spine == [n] + old(Spine)
        && lookup == old(lookup)[key := n] && reverseLookup == old(reverseLookup)[n := key]
        && size == old(size) + 1
      ensures old(size) + 1 > maxSize && old(Spine) == [] ==>
        && Spine == [] && nodes[n].next == Null && nodes[n].prev == Null
        && lookup == old(lookup)[key := n] && reverseLookup == old(reverseLookup)[n := key]
        && size == old(size) + 1
      ensures old(size) + 1 > maxSize && old(Spine) != [] ==>
        var t := old(Spine)[|old(Spine)| - 1];
        && Spine == [n] + old(Spine)[..|old(Spine)| - 1] && nodes[t].next == Null && nodes[t].prev == Null
        && if t in old(reverseLookup) then
             && lookup == (old(lookup) - {old(reverseLookup)[t]})[key := n]
             && reverseLookup == (old(reverseLookup) - {t})[n := key]
             && size == old(size)
           else
             && lookup == old(lookup)[key := n] && reverseLookup == old(reverseLookup)[n := key]
             && size == old(size) + 1
      ensures LruSpec.Cache(Order, Values) == LruSpec.Update(old(LruSpec.Cache(Order, Values)), maxSize, key, value)
    {
      ghost var s0, l0, r0, z0 := Spine, lookup, reverseLookup, size;
      n := Admit(value);
      Prepend(n);
      ghost var s2 := Spine;
      assert n !in r0;
      TrimCache();
      ghost var l3, r3, z3 := lookup, reverseLookup, size;
      if z0 + 1 <= maxSize {
        assert l3 == l0 && r3 == r0 && z3 == z0 + 1;
      } else if s0 == [] {
        assert s2[|s2| - 1] == n;
        assert l3 == l0 && r3 == r0 && z3 == z0 + 1;
      } else {
        assert s2[|s2| - 1] == s0[|s0| - 1];
        assert s2[..|s2| - 1] == [n] + s0[..|s0| - 1];
      }
      Index(key, n, value);
    }

    /** A new unlinked node holding `value` is allocated and counted. */
    method Admit(value: V) returns (n: nat)
      requires ListValid()
      modifies this`nodes, this`size
      ensures n == old(|nodes|) && nodes == old(nodes) + [Entry(value, Null, Null)]
      ensures size == old(size) + 1 && ListValid()
    {
      n := |nodes|;
      nodes := nodes + [Entry(value, Null, Null)];
      SameLinks(old(nodes), nodes, Spine, head, tail);
      size := size + 1;
    }

    /** `key` and node `n` are entered in both indexes, and `key` becomes cached with `value`. */
    method Index(key: K, n: nat, ghost value: V)
      modifies this`lookup, this`reverseLookup, this`Order, this`Values
      ensures lookup == old(lookup)[key := n] && reverseLookup == old(reverseLookup)[n := key]
      ensures LruSpec.Cache(Order, Values) == LruSpec.Update(old(LruSpec.Cache(Order, Values)), maxSize, key, value)
    {
      lookup := lookup[key := n];
      reverseLookup := reverseLookup[n := key];
      ghost var c := LruSpec.Update(LruSpec.Cache(Order, Values), maxSize, key, value);
      Order, Values := c.order, c.values;
    }

    /**
     * While more nodes are counted than the capacity allows, the tail node is
     * detached; when it is indexed, its key is dropped from both indexes and the
     * count goes down by one. An unindexed tail node is detached and nothing else.
     */
    method TrimCache()
      requires ListValid() && Spine != []
      modifies this`nodes, this`head, this`tail, this`Spine, this`lookup, this`reverseLookup, this`size
      ensures ListValid() && Retains(old(nodes), nodes, old(Spine))
      ensures old(size) <= maxSize ==>
        && nodes == old(nodes) && Spine == old(Spine) && head == old(head) && tail == old(tail)
        && lookup == old(lookup) && reverseLookup == old(reverseLookup) && size == old(size)
      ensures old(size) > maxSize ==>
        var t := old(Spine)[|old(Spine)| - 1];
        && Spine == old(Spine)[..|old(Spine)| - 1] && nodes[t].next == Null && nodes[t].prev == Null
        && if t in old(reverseLookup) then
             && lookup == old(lookup) - {old(reverseLookup)[t]}
             && reverseLookup == old(reverseLookup) - {t}
             && size == old(size) - 1
           else
             lookup == old(lookup) && reverseLookup == old(reverseLookup) && size == old(size)
    {
      if size <= maxSize {
        return;
      }
      var currentTail := tail.index;
      ghost var s := Spine;
      LruSpec.WithoutAt(s, |s| - 1);
      Detach(currentTail);
      if currentTail in reverseLookup {
        var key := reverseLookup[currentTail];
        lookup := lookup - {key};
        reverseLookup := reverseLookup - {currentTail};
        size := size - 1;
      }
    }

    /**
     * Unlinks node `n` from the recency list, joining its neighbours and moving
     * `head` or `tail` off it, and clears its links. A node already unlinked is
     * left as it is. Detaching the only node leaves `head` and `tail` both null.
     */
    method Detach(n: nat)
      requires ListValid() && n < |nodes|
      requires n in Spine || (nodes[n].next == Null && nodes[n].prev == Null)
      modifies this`nodes, this`head, this`tail, this`Spine
      ensures ListValid() && Spine == LruSpec.Without(old(Spine), n)
      ensures Retains(old(nodes), nodes, old(Spine)) && nodes[n].next == Null && nodes[n].prev == Null
    {
      ghost var s, before := Spine, nodes;
      ghost var p: int := -1;
      if n in s {
        p :| 0 <= p < |s| && s[p] == n;
        DetachSlots(nodes, s, head, tail, p);
        assert p > 0 ==> s[p - 1] != n;
        assert p + 1 < |s| ==> s[p + 1] != n;
      }
      var e := nodes[n];
      if e.prev.At? {
        nodes := nodes[e.prev.index := nodes[e.prev.index].(next := e.next)];
      }
      if e.next.At? {
        nodes := nodes[e.next.index := nodes[e.next.index].(prev := e.prev)];
      }
      assert nodes == Joined(before, e) && nodes[n] == e;
      if head == At(n) {
        head := nodes[n].next;
      }
      if tail == At(n) {
        tail := nodes[n].prev;
      }
      nodes := nodes[n := nodes[n].(next := Null, prev := Null)];
      assert nodes == Unlinked(before, n);
      if p >= 0 {
        LruSpec.WithoutAt(s, p);
        Spine := s[..p] + s[p + 1..];
      } else {
        assert nodes == before;
        LruSpec.WithoutAbsent(s, n);
      }
    }

    /** Links node `n` in at the head; on an empty list it becomes both `head` and `tail`. */
    method Prepend(n: nat)
      requires ListValid() && n < |nodes| && n !in Spine
      requires nodes[n].next == Null && nodes[n].prev == Null
      modifies this`nodes, this`head, this`tail, this`Spine
      ensures ListValid() && Spine == [n] + old(Spine)
      ensures Retains(old(nodes), nodes, Spine)
    {
      if head == Null {
        head, tail := At(n), At(n);
      } else {
        nodes := nodes[n := nodes[n].(next := head)];
        nodes := nodes[head.index := nodes[head.index].(prev := At(n))];
        head := At(n);
      }
      Spine := [n] + Spine;
    }
  }
}
