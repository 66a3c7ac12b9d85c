/**
 * The LRU cache seen from outside: the recency order of the listed keys (most
 * recently used first) and the value of every indexed key. Get and Update below
 * say what the cache's operations do to this view; the lemmas say why it is an
 * LRU cache.
 */
module LruSpec {
  import opened Wrappers

  datatype Cache<K, V> = Cache(order: seq<K>, values: map<K, V>)

  ghost predicate Distinct<K>(s: seq<K>)
  {
    forall i, j :: 0 <= i < j < |s| ==> s[i] != s[j]
  }

  /** `s` with `k` taken out, every other element keeping its relative order. */
  function Without<K(==)>(s: seq<K>, k: K): seq<K>
  {
    if s == [] then []
    else if s[0] == k then Without(s[1..], k)
    else [s[0]] + Without(s[1..], k)
  }

  /**
   * Taking `k` out keeps exactly the other elements, changes nothing when `k`
   * is absent, and in a sequence without repeats removes exactly one element.
   */
  lemma {:induction false} WithoutProperties<K>(s: seq<K>, k: K)
    ensures forall x :: x in Without(s, k) ==> x in s && x != k
    ensures forall x :: x in s && x != k ==> x in Without(s, k)
    ensures k !in s ==> Without(s, k) == s
    ensures Distinct(s) ==> Distinct(Without(s, k))
    ensures Distinct(s) && k in s ==> |Without(s, k)| == |s| - 1
  {
    if s != [] {
      WithoutProperties(s[1..], k);
      if s[0] != k {
        assert Distinct(s) ==> s[0] !in s[1..];
        if Distinct(s) {
          PrependDistinct(s[0], Without(s[1..], k));
        }
      }
    }
  }

  /** Taking out an absent element changes nothing. */
  lemma {:induction false} WithoutAbsent<K>(s: seq<K>, k: K)
    requires k !in s
    ensures Without(s, k) == s
  {
    if s != [] {
      WithoutAbsent(s[1..], k);
    }
  }

  /** In a sequence without repeats, taking out the element at `p` is cutting position `p`. */
  lemma {:induction false} WithoutAt<K>(s: seq<K>, p: nat)
    requires Distinct(s) && p < |s|
    ensures Without(s, s[p]) == s[..p] + s[p + 1..]
  {
    if p == 0 {
      assert s[0] !in s[1..];
      WithoutProperties(s[1..], s[0]);
    } else {
      WithoutAt(s[1..], p - 1);
      assert s[1..][..p - 1] == s[1..p];
      assert s[..p] == [s[0]] + s[1..p];
    }
  }

  /** Distinct elements are as many as the set they make up. */
  lemma {:induction false} DistinctLength<K>(s: seq<K>, keys: set<K>)
    requires Distinct(s) && forall x :: x in s <==> x in keys
    ensures |s| == |keys|
  {
    if s != [] {
      assert forall x :: x in s[1..] <==> x in keys - {s[0]};
      DistinctLength(s[1..], keys - {s[0]});
    }
  }

  /** The recency order once `k` is touched: `k` first, then the other keys as before. */
  function Promote<K(==)>(order: seq<K>, k: K): seq<K>
  {
    [k] + Without(order, k)
  }

  /** Get: a present key is touched and its value returned; an absent key changes nothing. */
  function Get<K(==), V>(c: Cache<K, V>, k: K): (r: (Cache<K, V>, Option<V>))
    ensures r.1.Some? <==> k in c.values
    ensures r.1.Some? ==> r.1.value == c.values[k] && r.0.order != [] && r.0.order[0] == k
    ensures r.0.values == c.values
  {
    if k in c.values then (Cache(Promote(c.order, k), c.values), Some(c.values[k]))
    else (c, None)
  }

  /**
   * Update as the cache performs it. A present key gets the new value and is
   * touched. An absent key is put first in the order; if that makes one key too
   * many, the last key of the list is dropped from the list and, when it is
   * indexed, from the values too. The new key is indexed last of all, so when the
   * list held nothing before (possible only with capacity 0) the key dropped from
   * the list is the new one, which stays indexed and counted.
   */
  function Update<K(==), V>(c: Cache<K, V>, maxSize: nat, k: K, v: V): (r: Cache<K, V>)
    ensures k in r.values && r.values[k] == v
    ensures forall x :: x in r.values && x != k ==> x in c.values && r.values[x] == c.values[x]
  {
    if k in c.values then Cache(Promote(c.order, k), c.values[k := v])
    else if |c.values| + 1 <= maxSize then Cache([k] + c.order, c.values[k := v])
    else if c.order == [] then Cache([], c.values[k := v])
    else Cache([k] + c.order[..|c.order| - 1], (c.values - {c.order[|c.order| - 1]})[k := v])
  }

  /** Update as intended: the new key is indexed before the list is trimmed, so a capacity-0 cache keeps nothing. */
  function UpdateIntended<K(==), V>(c: Cache<K, V>, maxSize: nat, k: K, v: V): (r: Cache<K, V>)
    ensures k in r.values ==> r.values[k] == v
    ensures forall x :: x in r.values && x != k ==> x in c.values && r.values[x] == c.values[x]
    ensures maxSize == 0 && c.order == [] && c.values == map[] ==> r == c
  {
    if k in c.values then Cache(Promote(c.order, k), c.values[k := v])
    else if |c.values| + 1 <= maxSize then Cache([k] + c.order, c.values[k := v])
    else if c.order == [] then c
    else Cache([k] + c.order[..|c.order| - 1], (c.values - {c.order[|c.order| - 1]})[k := v])
  }

  /** For any capacity: the listed keys are distinct and indexed. */
  ghost predicate Indexed<K, V>(c: Cache<K, V>)
  {
    Distinct(c.order) && forall x :: x in c.order ==> x in c.values
  }

  /** For a positive capacity: the list holds exactly the indexed keys, at most maxSize of them. */
  ghost predicate Consistent<K, V>(c: Cache<K, V>, maxSize: nat)
  {
    && Distinct(c.order)
    && (forall x :: x in c.order ==> x in c.values)
    && (forall x :: x in c.values ==> x in c.order)
    && |c.values| <= maxSize
  }

  /** A consistent cache lists as many keys as it indexes. */
  lemma ConsistentLength<K, V>(c: Cache<K, V>, maxSize: nat)
    requires Consistent(c, maxSize)
    ensures |c.order| == |c.values| <= maxSize
  {
    DistinctLength(c.order, c.values.Keys);
  }

  /** With a positive capacity, the cache's list is as long as its index. */
  lemma ConsistentLengthIf<K, V>(c: Cache<K, V>, maxSize: nat)
    ensures maxSize >= 1 && Consistent(c, maxSize) ==> |c.order| == |c.values| <= maxSize
  {
    if maxSize >= 1 && Consistent(c, maxSize) {
      ConsistentLength(c, maxSize);
    }
  }

  /**
   * Touching a key puts it first, keeps the other keys in their relative order
   * and, in a list without repeats that holds the key, neither adds nor loses a key.
   */
  lemma {:induction false} PromoteKeepsOthers<K>(order: seq<K>, k: K)
    ensures Promote(order, k)[0] == k
    ensures Without(Promote(order, k), k) == Without(order, k)
    ensures Distinct(order) ==> Distinct(Promote(order, k))
    ensures forall x :: x in Promote(order, k) <==> x in order || x == k
    ensures Distinct(order) && k in order ==> |Promote(order, k)| == |order|
  {
    var w := Without(order, k);
    WithoutProperties(order, k);
    WithoutProperties(w, k);
    assert Promote(order, k)[1..] == w;
    assert k !in w;
    if Distinct(order) {
      PrependDistinct(k, w);
    }
  }

  /** When `k` belongs to `keys`, touching it keeps the listed keys within `keys`, and all of them when all were listed. */
  lemma PromoteMembers<K>(order: seq<K>, k: K, keys: set<K>)
    requires k in keys
    ensures (forall x :: x in order ==> x in keys) ==> forall x :: x in Promote(order, k) ==> x in keys
    ensures (forall x :: x in keys ==> x in order) ==> forall x :: x in keys ==> x in Promote(order, k)
  {
    WithoutProperties(order, k);
    forall x | x in Promote(order, k) && x != k ensures x in Without(order, k) {
      assert Promote(order, k) == [k] + Without(order, k);
    }
  }

  /** Get keeps the invariants. */
  lemma GetPreserves<K, V>(c: Cache<K, V>, maxSize: nat, k: K)
    requires Indexed(c)
    ensures Indexed(Get(c, k).0)
    ensures Consistent(c, maxSize) ==> Consistent(Get(c, k).0, maxSize)
  {
    if k in c.values {
      PromoteKeepsOthers(c.order, k);
      PromoteMembers(c.order, k, c.values.Keys);
    }
  }

  /** Update keeps the listed keys distinct and indexed, whatever the capacity. */
  lemma UpdatePreservesIndexed<K, V>(c: Cache<K, V>, maxSize: nat, k: K, v: V)
    requires Indexed(c)
    ensures Indexed(Update(c, maxSize, k, v))
  {
    var r := Update(c, maxSize, k, v);
    if k in c.values {
      PromoteKeepsOthers(c.order, k);
      PromoteMembers(c.order, k, c.values.Keys);
    } else if |c.values| + 1 <= maxSize {
      PrependDistinct(k, c.order);
    } else if c.order != [] {
      var front := c.order[..|c.order| - 1];
      var last := c.order[|c.order| - 1];
      assert c.order == front + [last];
      assert last !in front;
      assert forall x :: x in front ==> x in c.order;
      PrependDistinct(k, front);
    }
  }

  /** Putting a new key in front of a list without repeats keeps it without repeats. */
  lemma {:induction false} PrependDistinct<K>(k: K, s: seq<K>)
    requires Distinct(s) && k !in s
    ensures Distinct([k] + s)
  {
    forall i, j | 0 <= i < j < |s| + 1 ensures ([k] + s)[i] != ([k] + s)[j] {
      if i > 0 {
        assert ([k] + s)[i] == s[i - 1];
      }
    }
  }

  /** Evicting the last key of a full consistent cache to admit a new one keeps it consistent. */
  lemma EvictPreservesConsistent<K, V>(c: Cache<K, V>, maxSize: nat, k: K, v: V)
    requires Consistent(c, maxSize) && c.order != []
    requires k !in c.values
    ensures var front := c.order[..|c.order| - 1];
      var last := c.order[|c.order| - 1];
      Consistent(Cache([k] + front, (c.values - {last})[k := v]), maxSize)
  {
    var front := c.order[..|c.order| - 1];
    var last := c.order[|c.order| - 1];
    assert c.order == front + [last];
    assert last !in front;
    assert forall x :: x in front ==> x in c.order;
    PrependDistinct(k, front);
    var rest := c.values - {last};
    assert |rest| == |c.values| - 1;
    assert |rest[k := v]| == |rest| + 1;
    var r := Cache([k] + front, rest[k := v]);
    assert forall x :: x in r.order ==> x in r.values by {
      forall x | x in r.order ensures x in r.values {
        if x != k {
          assert x in front;
        }
      }
    }
    assert forall x :: x in r.values ==> x in r.order by {
      forall x | x in r.values ensures x in r.order {
        if x != k {
          assert x in c.order && x != last;
        }
      }
    }
  }

  /** The evicting case of Update keeps the invariants that Update keeps. */
  lemma EvictKeepsInvariants<K, V>(c: Cache<K, V>, maxSize: nat, k: K, v: V)
    requires Indexed(c) && (maxSize >= 1 ==> Consistent(c, maxSize))
    requires k !in c.values && |c.values| + 1 > maxSize && c.order != []
    ensures var r := Cache([k] + c.order[..|c.order| - 1], (c.values - {c.order[|c.order| - 1]})[k := v]);
      Indexed(r) && (maxSize >= 1 ==> Consistent(r, maxSize))
  {
    UpdatePreservesIndexed(c, maxSize, k, v);
    if maxSize >= 1 {
      UpdatePreservesConsistent(c, maxSize, k, v);
    }
  }

  /**
   * With a positive capacity Update keeps the list and the index in step and the
   * size within capacity: a full cache evicts one key for the one it adds.
   */
  lemma UpdatePreservesConsistent<K, V>(c: Cache<K, V>, maxSize: nat, k: K, v: V)
    requires maxSize >= 1 && Consistent(c, maxSize)
    ensures Consistent(Update(c, maxSize, k, v), maxSize)
  {
    var r := Update(c, maxSize, k, v);
    if k in c.values {
      PromoteKeepsOthers(c.order, k);
      PromoteMembers(c.order, k, c.values.Keys);
    } else if |c.values| + 1 <= maxSize {
      PrependDistinct(k, c.order);
    } else {
      ConsistentLength(c, maxSize);
      EvictPreservesConsistent(c, maxSize, k, v);
    }
  }

  /**
   * Inserting an absent key into a full cache evicts exactly the key at the end
   * of the recency order, the one least recently touched, and keeps every other.
   */
  lemma UpdateEvictsLeastRecent<K, V>(c: Cache<K, V>, maxSize: nat, k: K, v: V)
    requires maxSize >= 1 && Consistent(c, maxSize)
    requires k !in c.values && |c.values| == maxSize
    ensures var r := Update(c, maxSize, k, v);
      && r.order == [k] + c.order[..|c.order| - 1]
      && r.values.Keys == c.values.Keys - {c.order[|c.order| - 1]} + {k}
      && r.values[k] == v
      && |r.values| == maxSize
      && forall x :: x in c.values && x != c.order[|c.order| - 1] ==> x in r.values && r.values[x] == c.values[x]
  {
    ConsistentLength(c, maxSize);
    UpdatePreservesConsistent(c, maxSize, k, v);
    var r := Update(c, maxSize, k, v);
    ConsistentLength(r, maxSize);
  }

  /** Updating a present key evicts nothing: the same keys stay cached, so the size is unchanged. */
  lemma UpdatePresentKeepsKeys<K, V>(c: Cache<K, V>, maxSize: nat, k: K, v: V)
    requires k in c.values
    ensures var r := Update(c, maxSize, k, v);
      r.values.Keys == c.values.Keys && |r.values| == |c.values| && r.values[k] == v && r.order == Promote(c.order, k)
  {
  }

  /** Inserting an absent key into a cache below capacity evicts nothing and grows it by one. */
  lemma UpdateBelowCapacityGrows<K, V>(c: Cache<K, V>, maxSize: nat, k: K, v: V)
    requires Consistent(c, maxSize) && k !in c.values && |c.values| < maxSize
    ensures var r := Update(c, maxSize, k, v);
      r.order == [k] + c.order && r.values == c.values[k := v] && |r.values| == |c.values| + 1
  {
  }

  /**
   * Touching a key with Get saves it from the next eviction, even when it was
   * the least recently used, as long as another key is listed.
   */
  lemma TouchProtects<K, V>(c: Cache<K, V>, maxSize: nat, k: K, j: K, v: V)
    requires maxSize >= 1 && Consistent(c, maxSize)
    requires k in c.values && |c.order| >= 2
    ensures var r := Update(Get(c, k).0, maxSize, j, v);
      k in r.values
  {
    var t := Get(c, k).0;
    assert t.values == c.values;
    var w := Without(c.order, k);
    WithoutProperties(c.order, k);
    ConsistentLength(c, maxSize);
    assert t.order == [k] + w && |w| >= 1;
    if j !in t.values && |t.values| + 1 > maxSize {
      assert t.order[|t.order| - 1] == w[|w| - 1] != k;
    }
  }

  /** A capacity-0 cache keeps the first key it is given, and so holds more than its capacity. */
  lemma ZeroCapacityExceeded<K, V>(k: K, v: V)
    ensures var r := Update(Cache([], map[]), 0, k, v);
      r.order == [] && r.values == map[k := v] && |r.values| > 0
  {
  }

  /** The intended update keeps the list and index in step and the size within capacity, capacity 0 included. */
  lemma IntendedPreservesConsistent<K, V>(c: Cache<K, V>, maxSize: nat, k: K, v: V)
    requires Consistent(c, maxSize)
    ensures Consistent(UpdateIntended(c, maxSize, k, v), maxSize)
  {
    if maxSize == 0 {
      ConsistentLength(c, maxSize);
    } else {
      UpdatePreservesConsistent(c, maxSize, k, v);
    }
  }

  /** With a positive capacity the cache's update is the intended one. */
  lemma AsWrittenMatchesIntended<K, V>(c: Cache<K, V>, maxSize: nat, k: K, v: V)
    requires maxSize >= 1 && Consistent(c, maxSize)
    ensures Update(c, maxSize, k, v) == UpdateIntended(c, maxSize, k, v)
  {
    ConsistentLength(c, maxSize);
  }

  /** With capacity 3, "foo", "bar" and "bazz" fill the cache, the last inserted first in the order. */
  lemma Fill<K, V>(foo: K, bar: K, bazz: K, v1: V, v2: V, v3: V)
    requires foo != bar && foo != bazz && bar != bazz
    ensures Update(Update(Update(Cache([], map[]), 3, foo, v1), 3, bar, v2), 3, bazz, v3)
         == Cache([bazz, bar, foo], map[foo := v1, bar := v2, bazz := v3])
  {
    assert Update(Update(Cache([], map[]), 3, foo, v1), 3, bar, v2) == Cache([bar, foo], map[foo := v1, bar := v2]);
  }

  /** Once Fill has filled the cache, "ball" evicts "foo", the least recently used, and keeps the others. */
  lemma FillThenEvict<K, V>(foo: K, bar: K, bazz: K, ball: K, v1: V, v2: V, v3: V, v4: V)
    requires foo != bar && foo != bazz && foo != ball && bar != bazz && bar != ball && bazz != ball
    ensures var c := Update(Update(Update(Update(Cache([], map[]), 3, foo, v1), 3, bar, v2), 3, bazz, v3), 3, ball, v4);
      c == Cache([ball, bazz, bar], map[bar := v2, bazz := v3, ball := v4])
  {
    Fill(foo, bar, bazz, v1, v2, v3);
    var c := Cache([bazz, bar, foo], map[foo := v1, bar := v2, bazz := v3]);
    assert |c.values| == 3;
    assert (c.values - {foo}).Keys == {bar, bazz};
  }

  /**
   * From the cache FillThenEvict leaves, Get of the absent "foo" yields None and
   * Get of "bar" moves it to the front, so inserting "foo" again evicts "bazz",
   * now the least recently used, and keeps "bar".
   */
  lemma TouchThenEvict<K, V>(foo: K, bar: K, bazz: K, ball: K, v1: V, v2: V, v3: V, v4: V)
    requires foo != bar && foo != bazz && foo != ball && bar != bazz && bar != ball && bazz != ball
    ensures var c := Cache([ball, bazz, bar], map[bar := v2, bazz := v3, ball := v4]);
      var t := Get(Get(c, foo).0, bar).0;
      var r := Update(t, 3, foo, v1);
      && Get(c, foo).1 == None && Get(Get(c, foo).0, bar).1 == Some(v2)
      && r == Cache([foo, bar, ball], map[bar := v2, ball := v4, foo := v1])
  {
    var c := Cache([ball, bazz, bar], map[bar := v2, bazz := v3, ball := v4]);
    assert Without([bar], bar) == [] by {
      assert [bar][1..] == [];
    }
    assert Without([bazz, bar], bar) == [bazz] by {
      assert [bazz, bar][1..] == [bar];
    }
    assert Without(c.order, bar) == [ball, bazz] by {
      assert c.order[1..] == [bazz, bar];
    }
    assert |c.values| == 3;
    assert c.values - {bazz} == map[bar := v2, ball := v4];
  }
}
