/**
 * The least-recently-used term cache (`LRUCache`, an `OrderedDict` with a
 * capacity). The dictionary's insertion order is kept as an explicit
 * recency list: `order[0]` is the least recently used key and the last
 * item the most recently used one.
 */
module LruCache {
  import opened Wrappers
  import opened Seqs

  datatype Cache<K, V> = Cache(order: seq<K>, entries: map<K, V>, capacity: int)

  /** Representation invariant: the recency list holds each cached key once. */
  predicate Valid<K, V>(c: Cache<K, V>) {
    NoDup(c.order) && Elems(c.order) == c.entries.Keys
  }

  /** The capacity bound the cache is meant to keep. */
  predicate Bounded<K, V>(c: Cache<K, V>) {
    |c.entries| <= c.capacity
  }

  /** The key a pop from the front (`popitem(last=False)`) would remove. */
  function Oldest<K, V>(c: Cache<K, V>): K
    requires |c.order| > 0
  {
    c.order[0]
  }

  /** A fresh cache, as built by `LRUCache(capacity)`. */
  function Empty<K, V>(capacity: int): (c: Cache<K, V>)
    ensures Valid(c) && c.entries == map[] && c.capacity == capacity
    ensures capacity >= 0 ==> Bounded(c)
  {
    Cache([], map[], capacity)
  }

  /** `s` with `k` moved to (or appended at) the most recent end. */
  function Touch<K(==)>(s: seq<K>, k: K): (r: seq<K>)
    ensures |r| > 0 && r[|r| - 1] == k
    ensures r[..|r| - 1] == Without(s, k)
    ensures Elems(r) == Elems(s) + {k}
    ensures NoDup(s) ==> NoDup(r)
  {
    var r := Without(s, k) + [k];
    assert r[..|r| - 1] == Without(s, k);
    assert Elems(r) == Elems(Without(s, k)) + {k};
    r
  }

  /**
   * `get(key)`: the cached value, or `None`; a hit also makes the key the
   * most recently used one.
   */
  function Get<K(==), V>(c: Cache<K, V>, k: K): (r: (Option<V>, Cache<K, V>))
    ensures k !in c.entries ==> r.0 == None && r.1 == c
    ensures k in c.entries ==> r.0 == Some(c.entries[k])
    ensures r.1.entries == c.entries && r.1.capacity == c.capacity
    ensures k in c.entries ==> |r.1.order| > 0 && r.1.order[|r.1.order| - 1] == k
    ensures k in c.entries ==> r.1.order[..|r.1.order| - 1] == Without(c.order, k)
    ensures Valid(c) ==> Valid(r.1)
  {
    if k in c.entries then
      (Some(c.entries[k]), c.(order := Touch(c.order, k)))
    else
      (None, c)
  }

  /** The key `put(k, _)` would evict if the dictionary overflowed. */
  function Victim<K(==), V>(c: Cache<K, V>, k: K): K {
    Touch(c.order, k)[0]
  }

  /** Storing `k` grows the dictionary past the capacity. */
  predicate Overflows<K, V>(c: Cache<K, V>, k: K) {
    |c.entries.Keys + {k}| > c.capacity
  }

  /** `popitem(last=False)`: drops the least recently used entry. */
  function Evict<K, V>(c: Cache<K, V>): (r: Cache<K, V>)
    requires Valid(c) && |c.order| > 0
    ensures Valid(r) && r.capacity == c.capacity && r.order == c.order[1..]
    ensures r.entries.Keys == c.entries.Keys - {Oldest(c)}
    ensures forall j :: j in r.entries ==> r.entries[j] == c.entries[j]
  {
    DropFirst(c.order);
    Cache(c.order[1..], c.entries - {c.order[0]}, c.capacity)
  }

  /** Evicting the oldest entry leaves the newest key, if it survives, at the newest end with its value. */
  lemma EvictKeepsNewest<K, V>(c: Cache<K, V>, k: K)
    requires Valid(c) && |c.order| > 0 && c.order[|c.order| - 1] == k && k in c.entries
    ensures var r := Evict(c);
      k in r.entries ==> r.entries[k] == c.entries[k] && |r.order| > 0 && r.order[|r.order| - 1] == k
  {
    if k in Evict(c).entries {
      assert c.order[0] != k;
    }
  }

  /**
   * `put(key, value)`: store the value, make the key the most recently used
   * one, then, if the dictionary grew past the capacity, drop its oldest
   * entry (once).
   */
  function Put<K(==), V>(c: Cache<K, V>, k: K, v: V): (r: Cache<K, V>)
    requires Valid(c)
    ensures Valid(r) && r.capacity == c.capacity
    ensures r.entries.Keys == (c.entries.Keys + {k}) - (if Overflows(c, k) then {Victim(c, k)} else {})
    ensures forall j :: j in r.entries && j != k ==> j in c.entries && r.entries[j] == c.entries[j]
    ensures k in r.entries ==> r.entries[k] == v && |r.order| > 0 && r.order[|r.order| - 1] == k
    ensures r.order == (if Overflows(c, k) then Touch(c.order, k)[1..] else Touch(c.order, k))
  {
    var t := Store(c, k, v);
    if Overflows(c, k) then
      EvictedKeys(c, k, v);
      EvictedValues(c, k, v);
      EvictKeepsNewest(t, k);
      Evict(t)
    else
      t
  }

  lemma EvictedKeys<K, V>(c: Cache<K, V>, k: K, v: V)
    requires Valid(c)
    ensures Evict(Store(c, k, v)).entries.Keys == (c.entries.Keys + {k}) - {Victim(c, k)}
  {
    assert Store(c, k, v).entries.Keys == c.entries.Keys + {k};
  }

  lemma EvictedValues<K, V>(c: Cache<K, V>, k: K, v: V)
    requires Valid(c)
    ensures var r := Evict(Store(c, k, v));
      forall j :: j in r.entries && j != k ==> j in c.entries && r.entries[j] == c.entries[j]
  {
  }

  /** `self.cache[key] = value` followed by `move_to_end(key)`. */
  function Store<K(==), V>(c: Cache<K, V>, k: K, v: V): (r: Cache<K, V>)
    requires Valid(c)
    ensures Valid(r) && r.capacity == c.capacity && r.entries == c.entries[k := v]
    ensures r.entries.Keys == c.entries.Keys + {k}
    ensures |r.order| > 0 && r.order[|r.order| - 1] == k && Oldest(r) == Victim(c, k)
  {
    Cache(Touch(c.order, k), c.entries[k := v], c.capacity)
  }

  /** The victim of an overflowing put is the least recently used key other than `k`, if any. */
  lemma VictimIsLeastRecent<K, V>(c: Cache<K, V>, k: K)
    requires Valid(c) && |c.order| > 0 && Oldest(c) != k
    ensures Victim(c, k) == Oldest(c)
  {
    assert Touch(c.order, k)[0] == Without(c.order, k)[0];
  }

  /** A put never removes more than one key, and removes one exactly when the dictionary overflowed. */
  lemma PutEvictsAtMostOne<K, V>(c: Cache<K, V>, k: K, v: V)
    requires Valid(c)
    ensures var r := Put(c, k, v);
      |c.entries.Keys + {k}| - |r.entries| == (if |c.entries.Keys + {k}| > c.capacity then 1 else 0)
  {
    var r := Put(c, k, v);
    assert |r.entries| == |r.entries.Keys|;
    if |c.entries.Keys + {k}| > c.capacity {
      assert Victim(c, k) in c.entries.Keys + {k};
    }
  }

  /** A cache within its (non-negative) capacity stays within it after a put. */
  lemma PutKeepsBound<K, V>(c: Cache<K, V>, k: K, v: V)
    requires Valid(c) && Bounded(c) && c.capacity >= 0
    ensures Bounded(Put(c, k, v))
  {
    PutEvictsAtMostOne(c, k, v);
    assert |c.entries.Keys + {k}| <= |c.entries.Keys| + 1;
  }

  /** Re-putting a cached key in a bounded cache evicts nothing. */
  lemma PutPresentKeepsKeys<K, V>(c: Cache<K, V>, k: K, v: V)
    requires Valid(c) && Bounded(c) && k in c.entries
    ensures Put(c, k, v).entries.Keys == c.entries.Keys
    ensures |Put(c, k, v).entries| == |c.entries|
  {
    assert c.entries.Keys + {k} == c.entries.Keys;
  }

  /** With room for at least one entry, a get right after a put returns the value put. */
  lemma GetAfterPut<K, V>(c: Cache<K, V>, k: K, v: V)
    requires Valid(c) && Bounded(c) && c.capacity >= 1
    ensures Get(Put(c, k, v), k).0 == Some(v)
  {
    var r := Put(c, k, v);
    if |c.entries.Keys + {k}| > c.capacity {
      // The overflow means another key was cached, so k is not the oldest.
      assert k !in c.entries;
      assert |c.entries.Keys| >= 1;
      var o := Without(c.order, k);
      assert Elems(o) == c.entries.Keys;
      assert |o| > 0;
      assert Victim(c, k) == o[0];
    }
  }
}
