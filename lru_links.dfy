/**
 * The recency list and indexes of the LRU cache over plain values: nodes live in
 * an arena of slots, a link is a slot index, and Spine lists the slots of the
 * list from head to tail. The predicates here state when such values form a
 * well-linked list and a consistent cache; the lemmas say what unlinking and
 * relinking a slot do to them.
 */
module LruLinks {
  import LruSpec

  /** A link to an arena slot, or null. */
  datatype Ptr = Null | At(index: nat)

  /** A list node: the cached value and its two links. */
  datatype Entry<V> = Entry(value: V, next: Ptr, prev: Ptr)

  /**
   * `spine` lists distinct slots of `nodes` that are linked both ways, in order,
   * from `head` to `tail`.
   */
  ghost predicate WellLinked<V>(nodes: seq<Entry<V>>, spine: seq<nat>, head: Ptr, tail: Ptr)
  {
    && (forall i :: 0 <= i < |spine| ==> spine[i] < |nodes|)
    && LruSpec.Distinct(spine)
    && head == (if spine == [] then Null else At(spine[0]))
    && tail == (if spine == [] then Null else At(spine[|spine| - 1]))
    && (forall i {:trigger nodes[spine[i]]} :: 0 <= i < |spine| ==>
          nodes[spine[i]].next == (if i + 1 < |spine| then At(spine[i + 1]) else Null))
    && (forall i {:trigger nodes[spine[i]]} :: 0 <= i < |spine| ==>
          nodes[spine[i]].prev == (if i == 0 then Null else At(spine[i - 1])))
  }

  /** The slots once the neighbours of a node with links `e` are joined around it. */
  ghost function Joined<V>(nodes: seq<Entry<V>>, e: Entry<V>): seq<Entry<V>>
    requires e.prev.At? ==> e.prev.index < |nodes|
    requires e.next.At? ==> e.next.index < |nodes|
  {
    var n1 := if e.prev.At? then nodes[e.prev.index := nodes[e.prev.index].(next := e.next)] else nodes;
    if e.next.At? then n1[e.next.index := n1[e.next.index].(prev := e.prev)] else n1
  }

  /** The slots once the node in slot `n` is unlinked: its neighbours joined around it, its own links cleared. */
  ghost function Unlinked<V>(nodes: seq<Entry<V>>, n: nat): seq<Entry<V>>
    requires n < |nodes|
    requires nodes[n].prev.At? ==> nodes[n].prev.index < |nodes|
    requires nodes[n].next.At? ==> nodes[n].next.index < |nodes|
  {
    var joined := Joined(nodes, nodes[n]);
    joined[n := joined[n].(next := Null, prev := Null)]
  }

  /** Unlinking the node at position `p` rewrites that node and its two neighbours, and no other slot. */
  lemma UnlinkedAt<V>(nodes: seq<Entry<V>>, spine: seq<nat>, head: Ptr, tail: Ptr, p: nat)
    requires WellLinked(nodes, spine, head, tail) && p < |spine|
    ensures var n := spine[p];
      && nodes[n].prev == (if p == 0 then Null else At(spine[p - 1]))
      && nodes[n].next == (if p + 1 < |spine| then At(spine[p + 1]) else Null)
      && |Unlinked(nodes, n)| == |nodes|
      && UnlinkedFrom(nodes, Unlinked(nodes, n), spine, p)
  {
    var n := spine[p];
    assert nodes[spine[p]].prev == (if p == 0 then Null else At(spine[p - 1]));
    assert nodes[spine[p]].next == (if p + 1 < |spine| then At(spine[p + 1]) else Null);
  }

  /** `after` is `nodes` with the node at position `p` of `spine` unlinked. */
  ghost predicate UnlinkedFrom<V>(nodes: seq<Entry<V>>, after: seq<Entry<V>>, spine: seq<nat>, p: nat)
    requires p < |spine| && spine[p] < |nodes|
  {
    var n := spine[p];
    && |after| == |nodes|
    && forall j :: 0 <= j < |nodes| ==>
         (after[j] ==
            if j == n then nodes[n].(next := Null, prev := Null)
            else if p > 0 && j == spine[p - 1] then nodes[j].(next := nodes[n].next)
            else if p + 1 < |spine| && j == spine[p + 1] then nodes[j].(prev := nodes[n].prev)
            else nodes[j])
  }

  /** After unlinking position `p`, each remaining node links forward to the next remaining one. */
  lemma UnlinkKeepsNext<V>(nodes: seq<Entry<V>>, after: seq<Entry<V>>, spine: seq<nat>, head: Ptr, tail: Ptr, p: nat)
    requires WellLinked(nodes, spine, head, tail) && p < |spine|
    requires UnlinkedFrom(nodes, after, spine, p)
    ensures var rest := spine[..p] + spine[p + 1..];
      forall i :: 0 <= i < |rest| ==> after[rest[i]].next == (if i + 1 < |rest| then At(rest[i + 1]) else Null)
  {
    var n := spine[p];
    var rest := spine[..p] + spine[p + 1..];
    assert nodes[spine[p]].next == (if p + 1 < |spine| then At(spine[p + 1]) else Null);
    forall i | 0 <= i < |rest|
      ensures after[rest[i]].next == (if i + 1 < |rest| then At(rest[i + 1]) else Null)
    {
      if i < p {
        assert rest[i] == spine[i] != n;
        assert nodes[spine[i]].next == (if i + 1 < |spine| then At(spine[i + 1]) else Null);
        if i + 1 < p {
          assert rest[i + 1] == spine[i + 1];
        } else if i + 1 < |rest| {
          assert rest[i + 1] == spine[i + 2];
        }
      } else {
        assert rest[i] == spine[i + 1] != n;
        assert nodes[spine[i + 1]].next == (if i + 2 < |spine| then At(spine[i + 2]) else Null);
        if i + 1 < |rest| {
          assert rest[i + 1] == spine[i + 2];
        }
      }
    }
  }

  /** After unlinking position `p`, each remaining node links back to the previous remaining one. */
  lemma UnlinkKeepsPrev<V>(nodes: seq<Entry<V>>, after: seq<Entry<V>>, spine: seq<nat>, head: Ptr, tail: Ptr, p: nat)
    requires WellLinked(nodes, spine, head, tail) && p < |spine|
    requires UnlinkedFrom(nodes, after, spine, p)
    ensures var rest := spine[..p] + spine[p + 1..];
      forall i :: 0 <= i < |rest| ==> after[rest[i]].prev == (if i == 0 then Null else At(rest[i - 1]))
  {
    var n := spine[p];
    var rest := spine[..p] + spine[p + 1..];
    assert nodes[spine[p]].prev == (if p == 0 then Null else At(spine[p - 1]));
    forall i | 0 <= i < |rest|
      ensures after[rest[i]].prev == (if i == 0 then Null else At(rest[i - 1]))
    {
      if i < p {
        assert rest[i] == spine[i] != n;
        assert nodes[spine[i]].prev == (if i == 0 then Null else At(spine[i - 1]));
        if i > 0 {
          assert rest[i - 1] == spine[i - 1];
        }
      } else {
        assert rest[i] == spine[i + 1] != n;
        assert nodes[spine[i + 1]].prev == At(spine[i]);
        if i > 0 {
          assert rest[i - 1] == if i - 1 < p then spine[i - 1] else spine[i];
        }
      }
    }
  }

  /** Cutting one position out of a sequence without repeats leaves one without repeats. */
  lemma CutDistinct<T>(s: seq<T>, p: nat)
    requires LruSpec.Distinct(s) && p < |s|
    ensures LruSpec.Distinct(s[..p] + s[p + 1..])
  {
    var rest := s[..p] + s[p + 1..];
    forall i, j | 0 <= i < j < |rest| ensures rest[i] != rest[j] {
      var i' := if i < p then i else i + 1;
      var j' := if j < p then j else j + 1;
      assert rest[i] == s[i'] && rest[j] == s[j'];
    }
  }

  /** Unlinking the node at position `p` moves `head` or `tail` to its neighbour when it is at an end of the list. */
  lemma DetachEnds<V>(nodes: seq<Entry<V>>, spine: seq<nat>, head: Ptr, tail: Ptr, p: nat)
    requires WellLinked(nodes, spine, head, tail) && p < |spine|
    ensures var n, rest := spine[p], spine[..p] + spine[p + 1..];
      && (if head == At(n) then nodes[n].next else head) == (if rest == [] then Null else At(rest[0]))
      && (if tail == At(n) then nodes[n].prev else tail) == (if rest == [] then Null else At(rest[|rest| - 1]))
  {
    var n, rest := spine[p], spine[..p] + spine[p + 1..];
    assert nodes[spine[p]].prev == (if p == 0 then Null else At(spine[p - 1]));
    assert nodes[spine[p]].next == (if p + 1 < |spine| then At(spine[p + 1]) else Null);
    assert head == At(n) <==> p == 0;
    assert tail == At(n) <==> p == |spine| - 1;
    if rest != [] {
      assert rest[0] == if p == 0 then spine[1] else spine[0];
      assert rest[|rest| - 1] == if p == |spine| - 1 then spine[p - 1] else spine[|spine| - 1];
    }
  }

  /** Unlinking the node at position `p` leaves the rest of the list linked, and moves `head` or `tail` off it. */
  lemma DetachKeepsLinked<V>(nodes: seq<Entry<V>>, after: seq<Entry<V>>, spine: seq<nat>, head: Ptr, tail: Ptr, p: nat)
    requires WellLinked(nodes, spine, head, tail) && p < |spine|
    requires UnlinkedFrom(nodes, after, spine, p)
    ensures var n := spine[p];
      WellLinked(after, spine[..p] + spine[p + 1..],
                 if head == At(n) then nodes[n].next else head,
                 if tail == At(n) then nodes[n].prev else tail)
  {
    UnlinkKeepsNext(nodes, after, spine, head, tail, p);
    UnlinkKeepsPrev(nodes, after, spine, head, tail, p);
    var rest := spine[..p] + spine[p + 1..];
    assert forall i :: 0 <= i < |rest| ==> rest[i] == if i < p then spine[i] else spine[i + 1];
    CutDistinct(spine, p);
    DetachEnds(nodes, spine, head, tail, p);
  }

  /** `after` has the slots of `before`, with the same values, and differs only in slots listed in `touched`. */
  ghost predicate Retains<V>(before: seq<Entry<V>>, after: seq<Entry<V>>, touched: seq<nat>)
  {
    && |after| == |before|
    && (forall j :: 0 <= j < |before| ==> after[j].value == before[j].value)
    && (forall j :: 0 <= j < |before| && j !in touched ==> after[j] == before[j])
  }

  /**
   * What Detach does to the slots of a listed node: the list without it stays
   * linked, no value changes, no slot off the list changes, and its links are cleared.
   */
  lemma DetachSlots<V>(nodes: seq<Entry<V>>, spine: seq<nat>, head: Ptr, tail: Ptr, p: nat)
    requires WellLinked(nodes, spine, head, tail) && p < |spine|
    ensures var n := spine[p];
      && nodes[n].prev == (if p == 0 then Null else At(spine[p - 1]))
      && nodes[n].next == (if p + 1 < |spine| then At(spine[p + 1]) else Null)
      && var after := Unlinked(nodes, n);
      && |after| == |nodes|
      && WellLinked(after, spine[..p] + spine[p + 1..],
                    if head == At(n) then nodes[n].next else head,
                    if tail == At(n) then nodes[n].prev else tail)
      && after[n].next == Null && after[n].prev == Null
      && Retains(nodes, after, spine)
  {
    var n := spine[p];
    UnlinkedAt(nodes, spine, head, tail, p);
    DetachKeepsLinked(nodes, Unlinked(nodes, n), spine, head, tail, p);
  }

  /** The list is made of links only: slots that keep their links keep it well formed, whatever their values. */
  lemma SameLinks<V>(nodes: seq<Entry<V>>, after: seq<Entry<V>>, spine: seq<nat>, head: Ptr, tail: Ptr)
    requires WellLinked(nodes, spine, head, tail) && |after| >= |nodes|
    requires forall j :: 0 <= j < |nodes| ==> after[j].next == nodes[j].next && after[j].prev == nodes[j].prev
    ensures WellLinked(after, spine, head, tail)
  {
  }

  /**
   * When `order` names the slots of `spine` through an injective `rev`, taking
   * slot `m` out of the spine takes its key out of the order, position by position.
   */
  lemma {:induction false} KeysWithout<K>(spine: seq<nat>, order: seq<K>, rev: map<nat, K>, m: nat)
    requires |order| == |spine| && m in rev
    requires forall i :: 0 <= i < |spine| ==> spine[i] in rev && order[i] == rev[spine[i]]
    requires forall a, b :: a in rev && b in rev && rev[a] == rev[b] ==> a == b
    ensures var s, o := LruSpec.Without(spine, m), LruSpec.Without(order, rev[m]);
      && |o| == |s|
      && (forall i :: 0 <= i < |s| ==> s[i] in rev && o[i] == rev[s[i]])
      && (forall x :: x in spine && x != m ==> x in s)
      && m !in s
    decreases |spine|
  {
    if spine != [] {
      KeysWithout(spine[1..], order[1..], rev, m);
      assert forall x :: x in spine[1..] ==> x in spine;
      assert forall x :: x in spine && x != spine[0] ==> x in spine[1..] by {
        forall x | x in spine && x != spine[0] ensures x in spine[1..] {
          var i :| 0 <= i < |spine| && spine[i] == x;
          assert spine[1..][i - 1] == x;
        }
      }
    }
  }

  /** `lookup` and `reverseLookup` are inverse to each other. */
  ghost predicate Inverse<K>(lookup: map<K, nat>, rev: map<nat, K>)
  {
    && (forall k :: k in lookup ==> lookup[k] in rev && rev[lookup[k]] == k)
    && (forall n :: n in rev ==> rev[n] in lookup && lookup[rev[n]] == n)
  }

  /** `order` names the slots of `spine` by their keys. */
  ghost predicate Ordered<K>(spine: seq<nat>, rev: map<nat, K>, order: seq<K>)
  {
    && |order| == |spine|
    && (forall i :: 0 <= i < |spine| ==> spine[i] in rev && order[i] == rev[spine[i]])
  }

  /** Every indexed key has a slot, and `values` holds the value of that slot. */
  ghost predicate Stored<K, V>(nodes: seq<Entry<V>>, lookup: map<K, nat>, values: map<K, V>)
  {
    && (forall k :: k in lookup ==> lookup[k] < |nodes|)
    && values.Keys == lookup.Keys
    && (forall k :: k in lookup ==> values[k] == nodes[lookup[k]].value)
  }

  /** An indexed slot off the list has no links. */
  ghost predicate Unlisted<K, V>(nodes: seq<Entry<V>>, spine: seq<nat>, lookup: map<K, nat>)
  {
    forall k :: k in lookup && lookup[k] !in spine ==>
      lookup[k] < |nodes| && nodes[lookup[k]].next == Null && nodes[lookup[k]].prev == Null
  }

  /** The two indexes agree with each other, with the list and with the slots. */
  ghost predicate Indexing<K, V>(nodes: seq<Entry<V>>, spine: seq<nat>, lookup: map<K, nat>, rev: map<nat, K>,
                                 order: seq<K>, values: map<K, V>)
  {
    && Inverse(lookup, rev)
    && Ordered(spine, rev, order)
    && Stored(nodes, lookup, values)
    && Unlisted(nodes, spine, lookup)
  }

  /** Moving slot `m` to the front of the spine moves its key to the front of the order. */
  lemma TouchKeepsOrder<K>(spine: seq<nat>, order: seq<K>, rev: map<nat, K>, m: nat)
    requires |order| == |spine| && m in rev
    requires forall i :: 0 <= i < |spine| ==> spine[i] in rev && order[i] == rev[spine[i]]
    requires forall a, b :: a in rev && b in rev && rev[a] == rev[b] ==> a == b
    ensures var s, o := [m] + LruSpec.Without(spine, m), LruSpec.Promote(order, rev[m]);
      && |o| == |s|
      && (forall i :: 0 <= i < |s| ==> s[i] in rev && o[i] == rev[s[i]])
      && (forall x :: x in spine ==> x in s)
  {
    KeysWithout(spine, order, rev, m);
  }

  /**
   * Moving the slot of `key` to the front of the list keeps the indexes in
   * agreement once `key` is promoted in the order, when the slots are only
   * relinked there.
   */
  lemma TouchKeepsIndexing<K, V>(nodes: seq<Entry<V>>, after: seq<Entry<V>>, spine: seq<nat>,
                                 lookup: map<K, nat>, rev: map<nat, K>, order: seq<K>,
                                 values: map<K, V>, key: K)
    requires Indexing(nodes, spine, lookup, rev, order, values) && key in lookup
    requires Retains(nodes, after, [lookup[key]] + spine)
    ensures Indexing(after, [lookup[key]] + LruSpec.Without(spine, lookup[key]), lookup, rev,
                     LruSpec.Promote(order, key), values)
  {
    var m := lookup[key];
    var s := [m] + LruSpec.Without(spine, m);
    assert forall a, b :: a in rev && b in rev && rev[a] == rev[b] ==> a == b by {
      forall a, b | a in rev && b in rev && rev[a] == rev[b] ensures a == b {
        assert lookup[rev[a]] == a && lookup[rev[b]] == b;
      }
    }
    TouchKeepsOrder(spine, order, rev, m);
    forall k | k in lookup && lookup[k] !in s
      ensures after[lookup[k]].next == Null && after[lookup[k]].prev == Null
    {
      assert lookup[k] !in [m] + spine;
    }
  }

  /**
   * The whole cache invariant over plain values: the list is well formed, the
   * indexes agree, `size` counts the indexed keys, the order lists indexed keys
   * without repeats and, for a positive capacity, exactly the indexed keys.
   */
  ghost predicate Represents<K, V>(nodes: seq<Entry<V>>, spine: seq<nat>, head: Ptr, tail: Ptr,
                                   lookup: map<K, nat>, rev: map<nat, K>, size: nat,
                                   order: seq<K>, values: map<K, V>, maxSize: nat)
  {
    && WellLinked(nodes, spine, head, tail)
    && Indexing(nodes, spine, lookup, rev, order, values)
    && size == |lookup|
    && LruSpec.Indexed(LruSpec.Cache(order, values))
    && (maxSize >= 1 ==> LruSpec.Consistent(LruSpec.Cache(order, values), maxSize))
  }
}
