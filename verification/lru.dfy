/**
  The recency-ordered store `Cache<K, V>`: a capacity, a key/value map and the
  recency list `order`, least-recently-used first and most-recently-used last.
  `Put`, `Get` and `Touch` are the store's operations as pure functions from
  the old state to the new one.
 */
module Lru {
  import opened Wrappers
  import opened Seqs

  datatype Cache<K, V> = Cache(capacity: nat, m: map<K, V>, order: seq<K>)

  /** The map and the recency list hold the same keys, each listed once. */
  ghost predicate Consistent<K, V>(c: Cache<K, V>) {
    && (forall k :: k in c.m ==> k in c.order)
    && (forall k :: k in c.order ==> k in c.m)
    && NoDups(c.order)
  }

  /** A cache of positive capacity never lists more keys than its capacity. */
  ghost predicate Bounded<K, V>(c: Cache<K, V>) {
    c.capacity >= 1 ==> |c.order| <= c.capacity
  }

  /**
    The representation invariant kept by every operation: in a valid cache the
    map has one entry per listed key, so a positive capacity bounds the map too.
   */
  ghost predicate Valid<K, V>(c: Cache<K, V>)
    ensures Valid(c) ==> |c.m| == |c.order|
    ensures Valid(c) && c.capacity >= 1 ==> |c.m| <= c.capacity
  {
    Consistent(c) && (SizeAgrees(c); Bounded(c))
  }

  /**
    The state in which inserting a new key evicts: the list length equals the
    capacity AND there is a first element to remove. A zero-capacity cache is
    never full in this sense.
   */
  predicate Full<K, V>(c: Cache<K, V>) {
    |c.order| == c.capacity && c.order != []
  }

  /** An empty cache of the given capacity. */
  function New<K, V>(capacity: nat): (r: Cache<K, V>)
    ensures Valid(r) && r.capacity == capacity
    ensures |r.order| == 0 && |r.m| == 0
  {
    Cache(capacity, map[], [])
  }

  /** Move `key`, if listed, from its position in the recency list to the back. */
  function Touch<K, V>(c: Cache<K, V>, key: K): (r: Cache<K, V>)
    ensures r.capacity == c.capacity && r.m == c.m
    ensures key !in c.order ==> r == c
    ensures key in c.order ==>
              && |r.order| == |c.order|
              && r.order[|r.order| - 1] == key
              && Without(r.order, key) == Without(c.order, key)
              && multiset(r.order) == multiset(c.order)
  {
    match Position(c.order, key)
    case None => c
    case Some(pos) =>
      MoveToBack(c.order, pos);
      c.(order := c.order[..pos] + c.order[pos + 1..] + [key])
  }

  /**
    Insert or update. An existing key gets the new value and is touched; a new
    key first evicts the front of the recency list when the cache is full, and
    is then appended.
   */
  function Put<K, V>(c: Cache<K, V>, key: K, value: V): (r: Cache<K, V>)
    ensures r.capacity == c.capacity
    ensures key in r.m && r.m[key] == value
    ensures forall x :: x in r.m && x != key ==> x in c.m && r.m[x] == c.m[x]
  {
    if key in c.m then
      Touch(c.(m := c.m[key := value]), key)
    else
      var c' :=
        if |c.order| == c.capacity then
          if c.order != [] then Cache(c.capacity, c.m - {c.order[0]}, c.order[1..])
          else c
        else c;
      Cache(c'.capacity, c'.m[key := value], c'.order + [key])
  }

  /** Look `key` up; a hit returns its value and touches it, a miss changes nothing. */
  function Get<K, V>(c: Cache<K, V>, key: K): (r: (Cache<K, V>, Option<V>))
    ensures r.1.Some? <==> key in c.m
    ensures r.1.Some? ==> r.1.value == c.m[key]
    ensures r.0.m == c.m && r.0.capacity == c.capacity
    ensures key !in c.m ==> r.0 == c
  {
    if key in c.m then (Touch(c, key), Some(c.m[key]))
    else (c, None)
  }

  // ----- Touch -----

  /** In a duplicate-free list, touching a listed key is "remove it, then append it". */
  lemma TouchMovesToBack<K, V>(c: Cache<K, V>, key: K)
    requires NoDups(c.order) && key in c.order
    ensures Touch(c, key).order == Without(c.order, key) + [key]
    ensures NoDups(Touch(c, key).order)
  {
    var pos := Position(c.order, key).value;
    var a, b := c.order[..pos], c.order[pos + 1..];
    assert key !in b by {
      forall i | 0 <= i < |b| ensures b[i] != key {
        assert b[i] == c.order[pos + 1 + i];
      }
    }
    assert c.order == a + [key] + b;
    WithoutCut(a, key, b);
    NoDupsMoveToBack(c.order, pos);
  }

  lemma TouchPreservesValid<K, V>(c: Cache<K, V>, key: K)
    requires Valid(c)
    ensures Valid(Touch(c, key))
  {
    if key in c.order {
      TouchMovesToBack(c, key);
      SameElements(Touch(c, key).order, c.order);
    }
  }

  // ----- Put -----

  /** Updating a present key: new value, moved to the back, nothing evicted, size unchanged. */
  lemma PutExisting<K, V>(c: Cache<K, V>, key: K, value: V)
    requires Consistent(c) && key in c.m
    ensures Put(c, key, value).m == c.m[key := value]
    ensures Put(c, key, value).order == Without(c.order, key) + [key]
    ensures |Put(c, key, value).m| == |c.m|
    ensures |Put(c, key, value).order| == |c.order|
  {
    TouchMovesToBack(c.(m := c.m[key := value]), key);
    assert c.m[key := value].Keys == c.m.Keys;
  }

  /** Inserting a new key into a full cache evicts exactly the least recently used key. */
  lemma PutEvicts<K, V>(c: Cache<K, V>, key: K, value: V)
    requires Consistent(c) && key !in c.m && Full(c)
    ensures Put(c, key, value).order == c.order[1..] + [key]
    ensures c.order[0] !in Put(c, key, value).m
    ensures forall x :: x in c.m && x != c.order[0] ==>
                          x in Put(c, key, value).m && Put(c, key, value).m[x] == c.m[x]
    ensures |Put(c, key, value).m| == |c.m|
  {
    var r := Put(c, key, value);
    var lru := c.order[0];
    assert lru in c.m;
    assert r.m == (c.m - {lru})[key := value];
    assert r.m.Keys == c.m.Keys - {lru} + {key};
    assert |c.m.Keys - {lru}| == |c.m.Keys| - 1;
  }

  /** Inserting a new key into a cache that is not full appends it and evicts nothing. */
  lemma PutAppends<K, V>(c: Cache<K, V>, key: K, value: V)
    requires Consistent(c) && key !in c.m && !Full(c)
    ensures Put(c, key, value).order == c.order + [key]
    ensures Put(c, key, value).m == c.m[key := value]
    ensures |Put(c, key, value).m| == |c.m| + 1
  {
  }

  /** An eviction keeps the map and the recency list in agreement. */
  lemma PutEvictsConsistent<K, V>(c: Cache<K, V>, key: K, value: V)
    requires Consistent(c) && key !in c.m && Full(c)
    ensures Consistent(Put(c, key, value))
  {
    var r := Put(c, key, value);
    var rest := c.order[1..];
    assert r.order == rest + [key];
    assert r.m == (c.m - {c.order[0]})[key := value];
    assert NoDups(rest);
    assert c.order == [c.order[0]] + rest;
    assert key !in rest;
    forall i, j | 0 <= i < j < |r.order| ensures r.order[i] != r.order[j] {
      if j < |rest| {
        assert r.order[i] == rest[i] && r.order[j] == rest[j];
      } else {
        assert r.order[i] == rest[i];
      }
    }
  }

  /** A new key appended without eviction keeps the map and the recency list in agreement. */
  lemma PutAppendsConsistent<K, V>(c: Cache<K, V>, key: K, value: V)
    requires Consistent(c) && key !in c.m && !Full(c)
    ensures Consistent(Put(c, key, value))
  {
    var r := Put(c, key, value);
    assert r.order == c.order + [key];
    assert key !in c.order;
    forall i, j | 0 <= i < j < |r.order| ensures r.order[i] != r.order[j] {
      if j < |c.order| {
        assert r.order[i] == c.order[i] && r.order[j] == c.order[j];
      } else {
        assert r.order[i] == c.order[i];
      }
    }
  }

  /** A new key keeps the map and the recency list in agreement, with or without an eviction. */
  lemma PutNewConsistent<K, V>(c: Cache<K, V>, key: K, value: V)
    requires Consistent(c) && key !in c.m
    ensures Consistent(Put(c, key, value))
  {
    if Full(c) {
      PutEvictsConsistent(c, key, value);
    } else {
      PutAppendsConsistent(c, key, value);
    }
  }

  lemma PutPreservesValid<K, V>(c: Cache<K, V>, key: K, value: V)
    requires Valid(c)
    ensures Valid(Put(c, key, value))
  {
    if key in c.m {
      TouchPreservesValid(c.(m := c.m[key := value]), key);
    } else {
      PutNewConsistent(c, key, value);
      assert Bounded(Put(c, key, value));
    }
  }

  /** With capacity at least one, no `Put` takes the cache beyond its capacity. */
  lemma PutRespectsCapacity<K, V>(c: Cache<K, V>, key: K, value: V)
    requires Valid(c) && c.capacity >= 1
    ensures |Put(c, key, value).order| <= c.capacity
    ensures |Put(c, key, value).m| <= c.capacity
  {
    PutPreservesValid(c, key, value);
  }

  /** With capacity zero nothing is ever evicted: every new key is appended and the cache grows. */
  lemma PutZeroCapacityGrows<K, V>(c: Cache<K, V>, key: K, value: V)
    requires Consistent(c) && c.capacity == 0 && key !in c.m
    ensures Put(c, key, value).order == c.order + [key]
    ensures |Put(c, key, value).m| == |c.m| + 1
  {
    PutAppends(c, key, value);
  }

  // ----- Get -----

  /** A hit moves the key to the back of the recency list. */
  lemma GetHitTouches<K, V>(c: Cache<K, V>, key: K)
    requires Consistent(c) && key in c.m
    ensures Get(c, key).0.order == Without(c.order, key) + [key]
    ensures Get(c, key).1 == Some(c.m[key])
  {
    TouchMovesToBack(c, key);
  }

  lemma GetPreservesValid<K, V>(c: Cache<K, V>, key: K)
    requires Valid(c)
    ensures Valid(Get(c, key).0)
  {
    TouchPreservesValid(c, key);
  }

  /**
    Reading a key protects it from the next eviction, even when it was the
    least recently used key before the read (needs room for two keys).
   */
  lemma GetProtectsFromEviction<K, V>(c: Cache<K, V>, key: K, other: K, value: V)
    requires Valid(c) && c.capacity >= 2 && Full(c)
    requires key in c.m && other !in c.m
    ensures key in Put(Get(c, key).0, other, value).m
  {
    var c1 := Get(c, key).0;
    GetHitTouches(c, key);
    GetPreservesValid(c, key);
    assert |Without(c.order, key)| + 1 == |c.order| by {
      SizeAgrees(c1);
      SizeAgrees(c);
    }
    PutEvicts(c1, other, value);
    assert c1.order[0] != key;
  }

  // ----- Size -----

  /** In a consistent cache the map holds exactly as many entries as the recency list. */
  lemma SizeAgrees<K, V>(c: Cache<K, V>)
    requires Consistent(c)
    ensures |c.m| == |c.order|
  {
    DistinctCard(c.order);
    assert c.m.Keys == set x | x in c.order;
  }
}
