/**
  Text persistence for `Cache<string, string>`: the file is a sequence of
  `key=value` lines. Loading splits the content into lines the way Rust's
  `str::lines` does, keeps the lines holding an `=`, splits each at its first
  `=`, and replays the records through `Put` on an empty cache. Saving writes
  one `key=value` line per listed key, least recently used first.
  Files themselves are not modelled: the content is a string, and a missing
  file is `None`.
 */
module Persist {
  import opened Wrappers
  import opened Seqs
  import opened Lru

  /** A parsed `key=value` line. */
  type Record = (string, string)

  // ----- Reading -----

  /** Drop one trailing carriage return (the `\r` of a `\r\n` line ending). */
  function StripCr(line: string): (r: string)
    ensures |line| > 0 && line[|line| - 1] == '\r' ==> line == r + ['\r']
    ensures !(|line| > 0 && line[|line| - 1] == '\r') ==> r == line
  {
    if |line| > 0 && line[|line| - 1] == '\r' then line[..|line| - 1] else line
  }

  /**
    The lines of `s`: split at each `\n`; a line ended by `\n` loses one
    trailing `\r`; a last line without `\n` is kept as it is; text ending in
    `\n` yields no empty last line.
   */
  function Lines(s: string): (r: seq<string>)
    ensures forall i :: 0 <= i < |r| ==> '\n' !in r[i]
    ensures |r| <= |s|
    decreases |s|
  {
    if s == [] then []
    else
      match Position(s, '\n')
      case None => [s]
      case Some(i) => [StripCr(s[..i])] + Lines(s[i + 1..])
  }

  /** Split a line at its first `=`; a line without `=` gives no record. */
  function ParseLine(line: string): (r: Option<Record>)
    ensures r.None? <==> '=' !in line
    ensures r.Some? ==> '=' !in r.value.0 && line == r.value.0 + "=" + r.value.1
  {
    match Position(line, '=')
    case None => None
    case Some(i) =>
      assert line == line[..i] + "=" + line[i + 1..];
      Some((line[..i], line[i + 1..]))
  }

  /** The records of the lines that hold an `=`, in line order. */
  function Records(lines: seq<string>): (r: seq<Record>)
    ensures |r| <= |lines|
    ensures forall i :: 0 <= i < |r| ==> '=' !in r[i].0
    ensures (forall i :: 0 <= i < |lines| ==> '=' !in lines[i]) ==> r == []
    ensures (forall i :: 0 <= i < |lines| ==> '\n' !in lines[i]) ==>
              forall i :: 0 <= i < |r| ==> '\n' !in r[i].0 && '\n' !in r[i].1
  {
    if lines == [] then []
    else
      match ParseLine(lines[0])
      case None => Records(lines[1..])
      case Some(rec) => [rec] + Records(lines[1..])
  }

  /**
    The records of a file's content, in file order. No key holds `=` or a
    newline, and no value holds a newline.
   */
  function Parse(content: string): (r: seq<Record>)
    ensures forall i :: 0 <= i < |r| ==> '=' !in r[i].0 && '\n' !in r[i].0 && '\n' !in r[i].1
  {
    Records(Lines(content))
  }

  /** Feed the records through `Put`, first record first. */
  function Replay<K, V>(c: Cache<K, V>, rs: seq<(K, V)>): (r: Cache<K, V>)
    ensures r.capacity == c.capacity
    decreases |rs|
  {
    if rs == [] then c else Replay(Put(c, rs[0].0, rs[0].1), rs[1..])
  }

  /**
    Open a persistent cache: an absent file gives an empty cache, otherwise
    the file's records are replayed onto an empty cache of that capacity.
   */
  function Load(capacity: nat, file: Option<string>): (r: Cache<string, string>)
    ensures Valid(r) && r.capacity == capacity
    ensures file.None? ==> |r.order| == 0
  {
    match file
    case None => New(capacity)
    case Some(content) =>
      ReplayPreservesValid(New(capacity), Parse(content));
      Replay(New(capacity), Parse(content))
  }

  // ----- Writing -----

  /** One saved line: the key, `=`, the value and a newline. */
  function Line(rec: Record): string {
    rec.0 + "=" + rec.1 + "\n"
  }

  /** The lines of the records, concatenated in order. */
  function Join(rs: seq<Record>): (r: string)
    ensures |r| >= |rs|
  {
    if rs == [] then "" else Line(rs[0]) + Join(rs[1..])
  }

  /** The records a save writes: each listed key that has a value, in list order. */
  function Entries<K, V>(order: seq<K>, m: map<K, V>): (r: seq<(K, V)>)
    ensures |r| <= |order|
    ensures forall i :: 0 <= i < |r| ==> r[i].0 in m && r[i].1 == m[r[i].0] && r[i].0 in order
  {
    if order == [] then []
    else
      var last := order[|order| - 1];
      var init := Entries(order[..|order| - 1], m);
      init + (if last in m then [(last, m[last])] else [])
  }

  /**
    The text a save writes for the cache. When every entry is one the line
    format can carry, parsing the text gives back the saved records.
   */
  function Serialize(c: Cache<string, string>): (r: string)
    ensures (forall k :: k in c.m ==> Storable(k, c.m[k])) ==> Parse(r) == Entries(c.order, c.m)
  {
    SaveParses(c);
    Join(Entries(c.order, c.m))
  }

  // ----- Record sequences -----

  /** The keys of the records, in order. */
  function KeysOf<K, V>(rs: seq<(K, V)>): seq<K> {
    seq(|rs|, i requires 0 <= i < |rs| => rs[i].0)
  }

  /** The map the records describe; a later record for a key overrides an earlier one. */
  function MapOf<K, V>(rs: seq<(K, V)>): map<K, V> {
    if rs == [] then map[] else MapOf(rs[..|rs| - 1])[rs[|rs| - 1].0 := rs[|rs| - 1].1]
  }

  /** The cache whose recency list and map are exactly the given records. */
  function FromRecords<K, V>(capacity: nat, rs: seq<(K, V)>): Cache<K, V> {
    Cache(capacity, MapOf(rs), KeysOf(rs))
  }

  /**
    The records that survive replay of distinct-key records onto an empty
    cache: all of them when the capacity is zero or large enough, otherwise
    the last `capacity` ones.
   */
  function Survivors<K, V>(capacity: nat, rs: seq<(K, V)>): (r: seq<(K, V)>)
    ensures capacity >= 1 ==> |r| <= capacity
    ensures |r| <= |rs| && r == rs[|rs| - |r|..]
  {
    if capacity == 0 || |rs| <= capacity then rs else rs[|rs| - capacity..]
  }

  /** A key and value that the line format carries without loss. */
  predicate Storable(key: string, value: string) {
    && '=' !in key && '\n' !in key
    && '\n' !in value
    && !(|value| > 0 && value[|value| - 1] == '\r')
  }

  // ----- Lemmas -----

  lemma {:induction false} ReplayPreservesValid<K, V>(c: Cache<K, V>, rs: seq<(K, V)>)
    requires Valid(c)
    ensures Valid(Replay(c, rs))
    decreases |rs|
  {
    if rs != [] {
      PutPreservesValid(c, rs[0].0, rs[0].1);
      ReplayPreservesValid(Put(c, rs[0].0, rs[0].1), rs[1..]);
    }
  }

  /** Replaying one more record is one more `Put` after the replay. */
  lemma {:induction false} ReplayAppend<K, V>(c: Cache<K, V>, rs: seq<(K, V)>, rec: (K, V))
    ensures Replay(c, rs + [rec]) == Put(Replay(c, rs), rec.0, rec.1)
    decreases |rs|
  {
    if rs == [] {
      assert [rec][1..] == [];
    } else {
      assert (rs + [rec])[1..] == rs[1..] + [rec];
      ReplayAppend(Put(c, rs[0].0, rs[0].1), rs[1..], rec);
    }
  }

  /** The records' map has exactly the records' keys. */
  lemma {:induction false} MapOfKeys<K, V>(rs: seq<(K, V)>)
    ensures forall k :: k in MapOf(rs) <==> k in KeysOf(rs)
    decreases |rs|
  {
    if rs != [] {
      var init := rs[..|rs| - 1];
      MapOfKeys(init);
      assert KeysOf(rs) == KeysOf(init) + [rs[|rs| - 1].0];
    }
  }

  /** Dropping the first of several distinct-key records removes exactly its key. */
  lemma {:induction false} MapOfDropFirst<K, V>(rs: seq<(K, V)>)
    requires |rs| > 0 && NoDups(KeysOf(rs))
    ensures MapOf(rs) - {rs[0].0} == MapOf(rs[1..])
    decreases |rs|
  {
    if |rs| > 1 {
      var first, init, last := rs[0].0, rs[..|rs| - 1], rs[|rs| - 1];
      var tail := rs[1..];
      assert KeysOf(init) == KeysOf(rs)[..|rs| - 1];
      assert NoDups(KeysOf(init));
      MapOfDropFirst(init);
      assert tail[..|tail| - 1] == init[1..];
      assert tail[|tail| - 1] == last;
      assert last.0 != first by {
        assert KeysOf(rs)[0] == first && KeysOf(rs)[|rs| - 1] == last.0;
      }
      var a := MapOf(init);
      assert MapOf(rs) == a[last.0 := last.1];
      assert MapOf(tail) == (a - {first})[last.0 := last.1];
      assert a[last.0 := last.1] - {first} == (a - {first})[last.0 := last.1];
    } else {
      assert rs[1..] == [];
      assert MapOf(rs) == MapOf(rs[..0])[rs[0].0 := rs[0].1];
    }
  }

  /** A new key that fits is appended to a cache built from records. */
  lemma PutGrows<K, V>(capacity: nat, w: seq<(K, V)>, rec: (K, V))
    requires rec.0 !in KeysOf(w) && !Full(FromRecords(capacity, w))
    ensures Put(FromRecords(capacity, w), rec.0, rec.1) == FromRecords(capacity, w + [rec])
  {
    MapOfKeys(w);
    assert KeysOf(w + [rec]) == KeysOf(w) + [rec.0];
    assert (w + [rec])[..|w|] == w;
  }

  /** A new key that does not fit evicts the first record of a full cache built from records. */
  lemma PutSlides<K, V>(capacity: nat, w: seq<(K, V)>, rec: (K, V))
    requires NoDups(KeysOf(w)) && rec.0 !in KeysOf(w)
    requires |w| == capacity && capacity >= 1
    ensures Put(FromRecords(capacity, w), rec.0, rec.1) == FromRecords(capacity, w[1..] + [rec])
  {
    MapOfKeys(w);
    MapOfDropFirst(w);
    var w' := w[1..] + [rec];
    assert KeysOf(w') == KeysOf(w)[1..] + [rec.0];
    assert w'[..|w'| - 1] == w[1..];
    assert KeysOf(w)[0] == w[0].0;
  }

  /** The keys of a slice are the slice of the keys. */
  lemma KeysOfSlice<K, V>(rs: seq<(K, V)>, i: nat, j: nat)
    requires i <= j <= |rs|
    ensures KeysOf(rs[i..j]) == KeysOf(rs)[i..j]
  {
  }

  /**
    With distinct keys, the records before the last one have distinct keys,
    and so do their survivors, none of which has the last record's key.
   */
  lemma LastKeyFresh<K, V>(capacity: nat, rs: seq<(K, V)>)
    requires |rs| > 0 && NoDups(KeysOf(rs))
    ensures NoDups(KeysOf(rs[..|rs| - 1]))
    ensures NoDups(KeysOf(Survivors(capacity, rs[..|rs| - 1])))
    ensures rs[|rs| - 1].0 !in KeysOf(Survivors(capacity, rs[..|rs| - 1]))
  {
    var n := |rs| - 1;
    var w := Survivors(capacity, rs[..n]);
    var d := n - |w|;
    assert w == rs[d..n];
    var ks := KeysOf(rs);
    KeysOfSlice(rs, 0, n);
    KeysOfSlice(rs, d, n);
    NoDupsSlice(ks, 0, n);
    NoDupsSlice(ks, d, n);
    NoDupsLastFresh(ks, d);
    assert ks[n] == rs[n].0;
  }

  /** While the capacity is not reached, one more record is one more survivor. */
  lemma SurvivorsGrow<K, V>(capacity: nat, rs: seq<(K, V)>)
    requires |rs| > 0 && (capacity == 0 || |rs| - 1 < capacity)
    ensures Survivors(capacity, rs[..|rs| - 1]) == rs[..|rs| - 1]
    ensures Survivors(capacity, rs) == rs[..|rs| - 1] + [rs[|rs| - 1]]
  {
    assert rs == rs[..|rs| - 1] + [rs[|rs| - 1]];
  }

  /** Once the capacity is reached, one more record pushes out the oldest survivor. */
  lemma SurvivorsSlide<K, V>(capacity: nat, rs: seq<(K, V)>)
    requires capacity >= 1 && |rs| - 1 >= capacity
    ensures |Survivors(capacity, rs[..|rs| - 1])| == capacity
    ensures Survivors(capacity, rs) == Survivors(capacity, rs[..|rs| - 1])[1..] + [rs[|rs| - 1]]
  {
    var n := |rs| - 1;
    assert Survivors(capacity, rs[..n]) == rs[n - capacity..n];
    assert rs[n - capacity..n][1..] == rs[n + 1 - capacity..n];
    assert rs[n + 1 - capacity..] == rs[n + 1 - capacity..n] + [rs[n]];
  }

  /** One more distinct-key record moves the survivors on by that record. */
  lemma PutSurvivors<K, V>(capacity: nat, rs: seq<(K, V)>)
    requires |rs| > 0 && NoDups(KeysOf(rs))
    ensures var init, rec := rs[..|rs| - 1], rs[|rs| - 1];
            Put(FromRecords(capacity, Survivors(capacity, init)), rec.0, rec.1)
              == FromRecords(capacity, Survivors(capacity, rs))
  {
    var init, rec := rs[..|rs| - 1], rs[|rs| - 1];
    LastKeyFresh(capacity, rs);
    var w := Survivors(capacity, init);
    var w' := Survivors(capacity, rs);
    if capacity == 0 || |init| < capacity {
      SurvivorsGrow(capacity, rs);
      assert |KeysOf(w)| == |w|;
      PutGrows(capacity, w, rec);
      assert w' == w + [rec];
    } else {
      SurvivorsSlide(capacity, rs);
      PutSlides(capacity, w, rec);
      assert w' == w[1..] + [rec];
    }
  }

  /**
    Replaying records with distinct keys onto an empty cache keeps exactly the
    survivors, in file order: with capacity `C >= 1` the last `C` records, with
    capacity 0 all of them (a zero-capacity cache never evicts).
   */
  lemma {:induction false} ReplayDistinct<K, V>(capacity: nat, rs: seq<(K, V)>)
    requires NoDups(KeysOf(rs))
    ensures Replay(New(capacity), rs) == FromRecords(capacity, Survivors(capacity, rs))
    decreases |rs|
  {
    if rs != [] {
      var init, rec := rs[..|rs| - 1], rs[|rs| - 1];
      LastKeyFresh(capacity, rs);
      calc {
        Replay(New(capacity), rs);
      == { assert rs == init + [rec]; ReplayAppend(New(capacity), init, rec); }
        Put(Replay(New(capacity), init), rec.0, rec.1);
      == { ReplayDistinct(capacity, init); }
        Put(FromRecords(capacity, Survivors(capacity, init)), rec.0, rec.1);
      == { PutSurvivors(capacity, rs); }
        FromRecords(capacity, Survivors(capacity, rs));
      }
    }
  }

  /**
    Loading a file whose records have distinct keys keeps the survivors of
    those records, in file order, as the recency list and the map.
   */
  lemma LoadDistinct(capacity: nat, content: string)
    requires NoDups(KeysOf(Parse(content)))
    ensures Load(capacity, Some(content)) == FromRecords(capacity, Survivors(capacity, Parse(content)))
  {
    ReplayDistinct(capacity, Parse(content));
  }

  /** A newline-free line followed by `\n` is split off, losing one trailing `\r`. */
  lemma LinesCons(text: string, rest: string)
    requires '\n' !in text
    ensures Lines(text + "\n" + rest) == [StripCr(text)] + Lines(rest)
  {
    var s := text + "\n" + rest;
    assert s[..|text|] == text;
    PositionAt(s, '\n', |text|);
    assert s[|text| + 1..] == rest;
  }

  /** A `\r\n` ending is a line ending: the line comes back without the `\r`. */
  lemma LinesCrLf(text: string, rest: string)
    requires '\n' !in text
    ensures Lines(text + "\r\n" + rest) == [text] + Lines(rest)
  {
    assert text + "\r\n" + rest == (text + "\r") + "\n" + rest;
    assert (text + "\r")[..|text|] == text;
    LinesCons(text + "\r", rest);
  }

  /** A last line without a terminating `\n` is kept as it is, `\r` included. */
  lemma LinesLastLine(text: string)
    requires '\n' !in text && text != []
    ensures Lines(text) == [text]
  {
  }

  /** A line made of an `=`-free key, `=` and a value parses back to that key and value. */
  lemma ParseLineRecord(key: string, value: string)
    requires '=' !in key
    ensures ParseLine(key + "=" + value) == Some((key, value))
  {
    var text := key + "=" + value;
    assert text[..|key|] == key;
    PositionAt(text, '=', |key|);
    assert text[|key| + 1..] == value;
  }

  /** A line without `=` contributes no record. */
  lemma ParseSkips(line: string, rest: string)
    requires '\n' !in line && '=' !in line
    ensures Parse(line + "\n" + rest) == Parse(rest)
  {
    LinesCons(line, rest);
    var l := StripCr(line);
    assert '=' !in l by {
      if line == l + ['\r'] {
        assert forall i :: 0 <= i < |l| ==> l[i] == line[i];
      }
    }
    assert ([l] + Lines(rest))[1..] == Lines(rest);
  }

  /**
    A `key=value` line is split at its first `=`: the value keeps any later
    `=` and loses only a trailing `\r`.
   */
  lemma ParseKeeps(key: string, value: string, rest: string)
    requires '=' !in key && '\n' !in key && '\n' !in value
    ensures Parse(key + "=" + value + "\n" + rest) == [(key, StripCr(value))] + Parse(rest)
  {
    var text := key + "=" + value;
    LinesCons(text, rest);
    assert StripCr(text) == key + "=" + StripCr(value) by {
      if |value| > 0 && value[|value| - 1] == '\r' {
        assert text[..|text| - 1] == key + "=" + value[..|value| - 1];
      }
    }
    ParseLineRecord(key, StripCr(value));
    assert ([StripCr(text)] + Lines(rest))[1..] == Lines(rest);
  }

  /** Records are collected line by line: those of a concatenation are concatenated. */
  lemma {:induction false} RecordsConcat(a: seq<string>, b: seq<string>)
    ensures Records(a + b) == Records(a) + Records(b)
    decreases |a|
  {
    if a == [] {
      assert a + b == b;
    } else {
      assert (a + b)[0] == a[0];
      assert (a + b)[1..] == a[1..] + b;
      RecordsConcat(a[1..], b);
    }
  }

  /** A single line gives its record exactly when it holds an `=`. */
  lemma RecordsSingle(line: string)
    ensures '=' in line ==> Records([line]) == [ParseLine(line).value]
    ensures '=' !in line ==> Records([line]) == []
  {
    assert [line][1..] == [];
  }

  /** The lines of a concatenation of saved lines are the lines of each part. */
  lemma {:induction false} JoinConcat(a: seq<Record>, b: seq<Record>)
    ensures Join(a + b) == Join(a) + Join(b)
    decreases |a|
  {
    if a == [] {
      assert a + b == b;
    } else {
      assert (a + b)[1..] == a[1..] + b;
      JoinConcat(a[1..], b);
    }
  }

  /** Saving then parsing gives back the saved records. */
  lemma {:induction false} ParseJoin(rs: seq<Record>)
    requires forall i :: 0 <= i < |rs| ==> Storable(rs[i].0, rs[i].1)
    ensures Parse(Join(rs)) == rs
    decreases |rs|
  {
    if rs != [] {
      var k, v := rs[0].0, rs[0].1;
      assert Join(rs) == k + "=" + v + "\n" + Join(rs[1..]);
      ParseKeeps(k, v, Join(rs[1..]));
      ParseJoin(rs[1..]);
    }
  }

  /** A save lists the keys of a consistent cache exactly in recency order. */
  lemma {:induction false} EntriesKeys<K, V>(order: seq<K>, m: map<K, V>)
    requires forall k :: k in order ==> k in m
    ensures KeysOf(Entries(order, m)) == order
    decreases |order|
  {
    if order != [] {
      var init := order[..|order| - 1];
      EntriesKeys(init, m);
      assert order == init + [order[|order| - 1]];
    }
  }

  /** The saved records describe exactly the listed part of the map. */
  lemma {:induction false} EntriesMap<K, V>(order: seq<K>, m: map<K, V>)
    ensures forall k :: k in MapOf(Entries(order, m)) ==> k in order && k in m
    ensures forall k :: k in order && k in m ==> k in MapOf(Entries(order, m))
    ensures forall k :: k in MapOf(Entries(order, m)) ==> MapOf(Entries(order, m))[k] == m[k]
    decreases |order|
  {
    if order != [] {
      var init := order[..|order| - 1];
      var last := order[|order| - 1];
      EntriesMap(init, m);
      assert order == init + [last];
      var es := Entries(order, m);
      if last in m {
        assert es[..|es| - 1] == Entries(init, m);
      } else {
        assert es == Entries(init, m);
      }
    }
  }

  /** A save of storable entries parses back to the records it wrote. */
  lemma SaveParses(c: Cache<string, string>)
    ensures (forall k :: k in c.m ==> Storable(k, c.m[k])) ==>
              Parse(Join(Entries(c.order, c.m))) == Entries(c.order, c.m)
  {
    if forall k :: k in c.m ==> Storable(k, c.m[k]) {
      ParseJoin(Entries(c.order, c.m));
    }
  }

  /** The records a save writes for a consistent cache list its keys in order and describe its map. */
  lemma SavedRecords<K, V>(c: Cache<K, V>)
    requires Consistent(c)
    ensures KeysOf(Entries(c.order, c.m)) == c.order
    ensures MapOf(Entries(c.order, c.m)) == c.m
  {
    EntriesKeys(c.order, c.m);
    EntriesMap(c.order, c.m);
    var m' := MapOf(Entries(c.order, c.m));
    forall k | k in c.m ensures k in m' {
      assert k in c.order;
    }
    forall k | k in m' ensures k in c.m {
      assert k in c.order && k in c.m;
    }
    assert m'.Keys == c.m.Keys;
    assert forall k :: k in m' ==> m'[k] == c.m[k];
    assert m' == c.m;
  }

  /**
    Save/load round trip: for a valid cache whose entries the line format can
    carry, loading its saved text with the same capacity rebuilds the same
    cache, recency order included.
   */
  lemma RoundTrip(c: Cache<string, string>)
    requires Valid(c)
    requires forall k :: k in c.m ==> Storable(k, c.m[k])
    ensures Load(c.capacity, Some(Serialize(c))) == c
  {
    var es := Entries(c.order, c.m);
    SavedRecords(c);
    assert Parse(Serialize(c)) == es by {
      ParseJoin(es);
    }
    assert Survivors(c.capacity, es) == es;
    ReplayDistinct(c.capacity, es);
  }
}
