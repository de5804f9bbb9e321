/**
  The repository's test scenarios, stated for arbitrary distinct keys and
  arbitrary values (the tests use the keys "A", "B", ... and values such as
  "value_a"): the capacity-3 eviction walk, the capacity-2 integer cache, and
  the two persistence scenarios.
 */
module Scenarios {
  import opened Wrappers
  import opened Seqs
  import opened Lru
  import opened Persist

  /** Capacity 3: the fourth distinct key evicts the first. */
  lemma FourthKeyEvictsFirst<K, V>(a: K, b: K, c: K, d: K, va: V, vb: V, vc: V, vd: V)
    requires a != b && a != c && a != d && b != c && b != d && c != d
    ensures Put(Put(Put(Put(New(3), a, va), b, vb), c, vc), d, vd)
              == Cache(3, map[b := vb, c := vc, d := vd], [b, c, d])
  {
    var s3 := Put(Put(Put(New(3), a, va), b, vb), c, vc);
    assert s3 == Cache(3, map[a := va, b := vb, c := vc], [a, b, c]);
    assert [a, b, c][1..] == [b, c];
    assert map[a := va, b := vb, c := vc] - {a} == map[b := vb, c := vc];
  }

  /** A miss on the evicted key changes nothing; a hit on the newest key keeps the order. */
  lemma ReadsOfFullCache<K, V>(a: K, b: K, c: K, d: K, m: map<K, V>)
    requires b != c && b != d && c != d && a !in m
    requires m.Keys == {b, c, d}
    ensures Get(Cache(3, m, [b, c, d]), a) == (Cache(3, m, [b, c, d]), None)
    ensures Get(Cache(3, m, [b, c, d]), d) == (Cache(3, m, [b, c, d]), Some(m[d]))
  {
    assert Position([b, c, d], d) == Some(2);
    assert [b, c, d][..2] + [b, c, d][3..] + [d] == [b, c, d];
  }

  /** Reading the front key of a three-key list moves it to the back. */
  lemma ReadFront<K, V>(b: K, c: K, d: K, m: map<K, V>)
    requires b in m
    ensures Get(Cache(3, m, [b, c, d]), b) == (Cache(3, m, [c, d, b]), Some(m[b]))
  {
    assert Position([b, c, d], b) == Some(0);
    assert [b, c, d][..0] + [b, c, d][1..] + [b] == [c, d, b];
  }

  /** Reading B and then C moves each to the back; a miss on X changes nothing. */
  lemma ReadsReorder<K, V>(b: K, c: K, d: K, x: K, m: map<K, V>)
    requires b != c && b != d && c != d && x !in m
    requires m.Keys == {b, c, d}
    ensures Get(Cache(3, m, [b, c, d]), b) == (Cache(3, m, [c, d, b]), Some(m[b]))
    ensures Get(Cache(3, m, [c, d, b]), c) == (Cache(3, m, [d, b, c]), Some(m[c]))
    ensures Get(Cache(3, m, [d, b, c]), x) == (Cache(3, m, [d, b, c]), None)
  {
    ReadFront(b, c, d, m);
    ReadFront(c, d, b, m);
  }

  /** From the order D, B, C, inserting A evicts D and then inserting X evicts B. */
  lemma TwoInsertsEvictFront<K, V>(a: K, b: K, c: K, d: K, x: K, m: map<K, V>, va: V, vx: V)
    requires a != b && a != c && a != d && b != c && b != d && c != d
    requires x != a && x != b && x != c && x != d
    requires m.Keys == {b, c, d}
    ensures Put(Put(Cache(3, m, [d, b, c]), a, va), x, vx).order == [c, a, x]
    ensures b !in Put(Put(Cache(3, m, [d, b, c]), a, va), x, vx).m
    ensures d !in Put(Put(Cache(3, m, [d, b, c]), a, va), x, vx).m
  {
    var c5 := Put(Cache(3, m, [d, b, c]), a, va);
    assert [d, b, c][1..] == [b, c];
    assert c5 == Cache(3, (m - {d})[a := va], [b, c, a]);
    assert [b, c, a][1..] == [c, a];
  }

  /**
    Capacity 3: after A, B, C, D the first key is gone; reading D, B, C and
    then inserting A and X evicts B and then D.
   */
  lemma BaseEvictionWalk<K, V>(a: K, b: K, c: K, d: K, x: K, va: V, vb: V, vc: V, vd: V, vx: V)
    requires a != b && a != c && a != d && b != c && b != d && c != d
    requires x != a && x != b && x != c && x != d
    ensures var c0 := Put(Put(Put(Put(New(3), a, va), b, vb), c, vc), d, vd);
            var (c1, ra) := Get(c0, a);
            var (c2, rd) := Get(c1, d);
            var (c3, rb) := Get(c2, b);
            var (c4, rc) := Get(c3, c);
            var (c5, rx) := Get(c4, x);
            var c6 := Put(Put(c5, a, va), x, vx);
            && ra == None && rd == Some(vd) && rb == Some(vb) && rc == Some(vc) && rx == None
            && Get(c6, b).1 == None && Get(Get(c6, b).0, d).1 == None
  {
    var m := map[b := vb, c := vc, d := vd];
    FourthKeyEvictsFirst(a, b, c, d, va, vb, vc, vd);
    ReadsOfFullCache(a, b, c, d, m);
    ReadsReorder(b, c, d, x, m);
    TwoInsertsEvictFront(a, b, c, d, x, m, va, vx);
  }

  /** Capacity 2: reading "one" makes "two" the key that "three" evicts. */
  lemma IntegerValues<K>(one: K, two: K, three: K)
    requires one != two && one != three && two != three
    ensures var c0 := Put(Put(New(2), one, 1), two, 2);
            var (c1, r) := Get(c0, one);
            var c2 := Put(c1, three, 3);
            && r == Some(1)
            && c2 == Cache(2, map[one := 1, three := 3], [one, three])
  {
    var c0 := Put(Put(New(2), one, 1), two, 2);
    assert c0 == Cache(2, map[one := 1, two := 2], [one, two]);
    assert Position([one, two], one) == Some(0);
    assert [one, two][..0] + [one, two][1..] + [one] == [two, one];
    assert [two, one][1..] == [one];
    assert map[one := 1, two := 2] - {two} == map[one := 1];
  }

  /** Saving two entries writes two `key=value` lines, least recently used first. */
  lemma SaveTwo(ka: string, kb: string, va: string, vb: string)
    requires ka != kb
    ensures Serialize(Cache(2, map[ka := va, kb := vb], [ka, kb])) == ka + "=" + va + "\n" + kb + "=" + vb + "\n"
  {
    var m := map[ka := va, kb := vb];
    assert [ka, kb][..1] == [ka];
    assert Entries([ka], m) == [(ka, va)];
    var es := Entries([ka, kb], m);
    assert es == [(ka, va), (kb, vb)];
    assert es[1..] == [(kb, vb)];
    assert Join(es[1..]) == Line((kb, vb)) + Join([]);
  }

  /** Capacity 2: two saved entries are written in order and come back on reload. */
  lemma PersistentRoundTrip(ka: string, kb: string, va: string, vb: string)
    requires ka != kb && Storable(ka, va) && Storable(kb, vb)
    ensures var c := Put(Put(Load(2, None), ka, va), kb, vb);
            var c2 := Load(2, Some(Serialize(c)));
            && Serialize(c) == ka + "=" + va + "\n" + kb + "=" + vb + "\n"
            && Get(c2, ka).1 == Some(va)
            && Get(Get(c2, ka).0, kb).1 == Some(vb)
  {
    var c := Cache(2, map[ka := va, kb := vb], [ka, kb]);
    assert Put(Put(Load(2, None), ka, va), kb, vb) == c;
    SaveTwo(ka, kb, va, vb);
    ReloadPair(ka, kb, va, vb);
    assert Get(c, ka).0.m == c.m;
  }

  /** A single storable entry survives a save and reload unchanged. */
  lemma ReloadSingle(capacity: nat, k: string, v: string)
    requires capacity >= 1 && Storable(k, v)
    ensures Load(capacity, Some(Serialize(Cache(capacity, map[k := v], [k]))))
              == Cache(capacity, map[k := v], [k])
  {
    var c := Cache(capacity, map[k := v], [k]);
    assert Valid(c);
    RoundTrip(c);
  }

  /** Two distinct storable entries survive a save and reload at capacity 2 unchanged. */
  lemma ReloadPair(ka: string, kb: string, va: string, vb: string)
    requires ka != kb && Storable(ka, va) && Storable(kb, vb)
    ensures Load(2, Some(Serialize(Cache(2, map[ka := va, kb := vb], [ka, kb]))))
              == Cache(2, map[ka := va, kb := vb], [ka, kb])
  {
    var c := Cache(2, map[ka := va, kb := vb], [ka, kb]);
    assert Consistent(c);
    assert Valid(c) by {
      SizeAgrees(c);
    }
    RoundTrip(c);
  }

  /** Capacity 1: a reloaded A is evicted by B, and the next reload holds only B. */
  lemma PersistentEviction(ka: string, kb: string, va: string, vb: string)
    requires ka != kb && Storable(ka, va) && Storable(kb, vb)
    ensures var c1 := Put(Load(1, None), ka, va);
            var c2 := Put(Load(1, Some(Serialize(c1))), kb, vb);
            var c3 := Load(1, Some(Serialize(c2)));
            && Get(c3, ka).1 == None
            && Get(Get(c3, ka).0, kb).1 == Some(vb)
  {
    var c1 := Cache(1, map[ka := va], [ka]);
    assert Put(Load(1, None), ka, va) == c1;
    ReloadSingle(1, ka, va);
    var c2 := Cache(1, map[kb := vb], [kb]);
    assert Put(c1, kb, vb) == c2 by {
      assert [ka][1..] == [];
      assert map[ka := va] - {ka} == map[];
    }
    ReloadSingle(1, kb, vb);
  }
}
