# LRU cache with text persistence — a Dafny model

This project models the core of the `lru_cache` crate, `src/cache/lru.rs`:
a generic least-recently-used cache `Cache<K, V>` plus a string-to-string
variant that loads from and saves to a plain-text `key=value` file.

The cache has a capacity, a key/value map and a recency list `order`. The
list runs from least recently used (front) to most recently used (back).
- `put` on a present key replaces the value and touches the key.
- `put` on a new key first evicts the front of the list when the list length
  equals the capacity, and then appends the key.
- `get` on a hit touches the key and returns its value. A miss returns `None`
  and changes nothing.
- `touch` moves the first occurrence of the key to the back of the list.
- `new_persistent` reads the file's content, splits it into lines like Rust's
  `str::lines`, and skips lines without `=`. It splits each other line at its
  first `=` and replays the records through `put` onto an empty cache.
- `save_to_file` writes one `key=value` line for each listed key that has a
  value, front of the list first.

Modules:
- `Wrappers` (`wrappers.dfy`): `Option`, the value a lookup returns.
- `Seqs` (`seqs.dfy`): first position of an element (`iter().position`),
  removal of an element, duplicate-freedom, and the sequence lemmas behind
  them.
- `Lru` (`lru.dfy`): the cache datatype, the invariant `Valid`, and `New`,
  `Touch`, `Put` and `Get` as pure functions from the old state to the new one.
- `Persist` (`persist.dfy`): line splitting, record parsing, `Load`
  (`new_persistent`), `Serialize` (`save_to_file`), and the save/load round
  trip.
- `Scenarios` (`scenarios.dfy`): the repository's test scenarios, stated
  for any distinct keys.

Capacity zero follows the code. The eviction guard needs a non-empty list
whose length equals the capacity. At capacity 0 the guard never fires, so the
cache evicts nothing and grows with every new key: a zero-capacity cache is
unbounded rather than empty. The model keeps this behaviour
(`Lru.PutZeroCapacityGrows`), and `Valid` bounds the list only when the
capacity is at least one.

## Model

| member | source | states |
|---|---|---|
| `Lru.Valid` | src/cache/lru.rs:12-14 | the invariant: map keys and listed keys coincide, none listed twice, and a positive capacity bounds the list; it implies the map has one entry per listed key and stays within a positive capacity |
| `Lru.New` | src/cache/lru.rs:28-34 | a new cache has the given capacity, no entries and an empty recency list, and satisfies the invariant |
| `Seqs.Position` | src/cache/lru.rs:67 | the position found is the first occurrence of the key; there is none exactly when the key is absent |
| `Lru.Touch` | src/cache/lru.rs:66-71 | an unlisted key leaves the cache unchanged; a listed key ends up last, the map is untouched, and the list keeps its length, its elements and the relative order of the other keys |
| `Lru.TouchMovesToBack` | src/cache/lru.rs:66-71 | in a duplicate-free list, touching a key is removing it and appending it, and the list stays duplicate-free |
| `Lru.TouchPreservesValid` | src/cache/lru.rs:66-71 | touching keeps the map and the list in agreement, and keeps the size bound |
| `Lru.Put` | src/cache/lru.rs:36-54 | afterwards the key maps to the new value; every other key still present has its old value; the capacity is unchanged |
| `Lru.PutExisting` | src/cache/lru.rs:37-40 | updating a present key replaces only its value, moves it to the back, and evicts nothing |
| `Lru.PutEvicts` | src/cache/lru.rs:44-53 | a new key in a full cache evicts exactly the front key, keeps every other entry, appends the new key, and keeps the size |
| `Lru.PutAppends` | src/cache/lru.rs:44-53 | a new key in a cache that is not full is appended, gets its value, evicts nothing, and grows the map by one |
| `Lru.PutEvictsConsistent` | src/cache/lru.rs:44-53 | an eviction followed by the append keeps the map and the list in agreement and duplicate-free |
| `Lru.PutAppendsConsistent` | src/cache/lru.rs:52-53 | an append without eviction keeps the map and the list in agreement and duplicate-free |
| `Lru.PutNewConsistent` | src/cache/lru.rs:43-53 | inserting a new key keeps the map and the list in agreement, whether or not it evicts |
| `Lru.PutPreservesValid` | src/cache/lru.rs:36-54 | `put` keeps the map and the list in agreement, duplicate-free, and within a positive capacity |
| `Lru.PutRespectsCapacity` | src/cache/lru.rs:44-49 | with capacity at least one, neither the list nor the map ever exceeds the capacity |
| `Lru.PutZeroCapacityGrows` | src/cache/lru.rs:44-53 | with capacity zero a new key is appended and nothing is evicted, so the cache grows by one |
| `Lru.Get` | src/cache/lru.rs:56-63 | a value comes back exactly when the key is present, and it is the stored value; a miss changes nothing; the map and the capacity never change |
| `Lru.GetHitTouches` | src/cache/lru.rs:57-59 | a hit moves the key to the back of the recency list |
| `Lru.GetPreservesValid` | src/cache/lru.rs:56-63 | `get` keeps the cache invariant |
| `Lru.GetProtectsFromEviction` | src/cache/lru.rs:44-49 | a key just read survives the next eviction in a full cache of capacity at least two, even if it was least recently used before the read |
| `Lru.SizeAgrees` | src/cache/lru.rs:12-14 | in a consistent cache the map has as many entries as the recency list |
| `Persist.StripCr` | src/cache/lru.rs:102 | a line ending in a carriage return loses exactly that one character; any other line is kept as it is |
| `Persist.Lines` | src/cache/lru.rs:102 | no line contains a newline, and there are no more lines than characters |
| `Persist.LinesCons` | src/cache/lru.rs:102 | a newline-free text followed by a newline is split off as one line, losing a trailing carriage return |
| `Persist.LinesLastLine` | src/cache/lru.rs:102 | a non-empty last line without a terminating newline is kept as it is, carriage return included |
| `Persist.LinesCrLf` | src/cache/lru.rs:102 | a `\r\n` ending is a line ending, and the line comes back without the `\r` |
| `Persist.ParseLine` | src/cache/lru.rs:103-106 | a line gives a record exactly when it contains `=`; the key is `=`-free, and key, `=` and value make up the line |
| `Persist.ParseLineRecord` | src/cache/lru.rs:103-106 | an `=`-free key, `=` and any value parse back to that key and that value, later `=` included |
| `Persist.Records` | src/cache/lru.rs:102-108 | there are no more records than lines, each key is `=`-free, lines without `=` give no records, and newline-free lines give newline-free keys and values |
| `Persist.RecordsConcat` | src/cache/lru.rs:102-108 | records are collected line by line in line order: the records of two blocks of lines are those of the first followed by those of the second |
| `Persist.RecordsSingle` | src/cache/lru.rs:103-107 | a single line gives exactly its split record when it holds `=`, and nothing otherwise |
| `Persist.Parse` | src/cache/lru.rs:102-106 | no parsed key holds `=` or a newline, and no parsed value holds a newline |
| `Persist.ParseSkips` | src/cache/lru.rs:104 | a line without `=` contributes no record |
| `Persist.ParseKeeps` | src/cache/lru.rs:103-107 | a `key=value` line contributes exactly the record `(key, value)`, minus a trailing `\r` |
| `Persist.Replay` | src/cache/lru.rs:102-108 | replaying records keeps the capacity |
| `Persist.ReplayAppend` | src/cache/lru.rs:102-108 | replaying one more record is one more `put` after the replay |
| `Persist.ReplayPreservesValid` | src/cache/lru.rs:102-108 | replaying any records keeps the cache invariant |
| `Persist.Load` | src/cache/lru.rs:97-113 | a loaded cache satisfies the invariant and has the requested capacity; an absent file gives an empty cache |
| `Persist.ReplayDistinct` | src/cache/lru.rs:98-108 | replaying distinct-key records onto an empty cache keeps exactly the last `capacity` records in file order (all of them at capacity zero) |
| `Persist.LoadDistinct` | src/cache/lru.rs:97-113 | loading a file with distinct keys gives the cache of its surviving records, in file order |
| `Persist.Join` | src/cache/lru.rs:127-131 | the saved text has at least one character per record |
| `Persist.JoinConcat` | src/cache/lru.rs:127-131 | the text saved for two blocks of records is the text of the first followed by the text of the second |
| `Persist.Serialize` | src/cache/lru.rs:125-133 | when every entry is one the line format can carry, parsing the saved text gives back the saved records |
| `Persist.SaveParses` | src/cache/lru.rs:125-133 | the records written for storable entries parse back from the saved text |
| `Persist.Entries` | src/cache/lru.rs:127-130 | each saved record is a listed key with its value in the map, and there are no more records than listed keys |
| `Persist.EntriesKeys` | src/cache/lru.rs:127-130 | when every listed key has a value, the saved keys are the recency list, in order |
| `Persist.EntriesMap` | src/cache/lru.rs:127-130 | the saved records describe exactly the listed part of the map |
| `Persist.SavedRecords` | src/cache/lru.rs:125-133 | for a consistent cache the saved records list its keys in recency order and describe its map |
| `Persist.ParseJoin` | src/cache/lru.rs:102-107 | parsing the saved lines of storable records gives back those records |
| `Persist.RoundTrip` | src/cache/lru.rs:97-133 | for a valid cache whose keys and values the format can carry, loading its saved text with the same capacity rebuilds the same cache, recency order included |
| `Scenarios.FourthKeyEvictsFirst` | src/cache/lru.rs:143-148 | at capacity 3, a fourth distinct key evicts the first |
| `Scenarios.ReadsOfFullCache` | src/cache/lru.rs:148-149 | reading the evicted key misses and changes nothing; reading the newest key keeps the order |
| `Scenarios.ReadFront` | src/cache/lru.rs:150 | reading the front key of a three-key list returns its value and moves it to the back |
| `Scenarios.ReadsReorder` | src/cache/lru.rs:150-152 | two hits move their keys to the back; a miss changes nothing |
| `Scenarios.TwoInsertsEvictFront` | src/cache/lru.rs:153-156 | two new keys evict the two front keys in turn |
| `Scenarios.BaseEvictionWalk` | tests/lru_base.rs:3-33 | the whole capacity-3 walk: the reads return what the test expects, and the last two keys read are gone |
| `Scenarios.IntegerValues` | src/cache/lru.rs:160-167 | at capacity 2 with integer values, reading `one` makes `two` the key that `three` evicts |
| `Scenarios.SaveTwo` | tests/persistents.rs:12-20 | two saved entries are written as two `key=value` lines, least recently used first |
| `Scenarios.PersistentRoundTrip` | tests/persistents.rs:4-23 | two entries saved at capacity 2 are written as lines and both read back after a reload |
| `Scenarios.ReloadSingle` | tests/persistents.rs:31-35 | a single storable entry survives a save and reload |
| `Scenarios.ReloadPair` | tests/persistents.rs:9-16 | two distinct storable entries survive a save and a reload at capacity 2 |
| `Scenarios.PersistentEviction` | tests/persistents.rs:25-44 | at capacity 1, a reloaded key is evicted by a new one, and the next reload holds only the new key |

## Left out

- File system access is not modelled: `Path::exists`, `read_to_string`, `File::create` and `writeln!`. `Load` takes the content as `Option<string>`, with `None` for an absent file. `Serialize` returns the text that would be written.
- I/O errors are not modelled: the `io::Result` failures of reading, creating or writing a file.
- Hashing is not modelled: `HashMap` is a Dafny `map`, and its iteration order plays no part in the core.
- References: `get` returns `Option<&V>`, modelled as a copy of the value.
- The `LruCache` trait (src/types/mod.rs:11-17) and its delegating impl (src/cache/lru.rs:74-85) are not modelled: they forward to `put` and `get` and add no behaviour.
- Integer widths: `usize` capacities and the `i32` values of one test are unbounded integers, since nothing in the core does arithmetic on them.
- The benchmark binary (src/bin/bench.rs) is not part of this model: it only times calls to the cache.
- Rust strings are sequences of Unicode scalar values and are modelled as `seq<char>`. The separators `=`, `\n` and `\r` are single characters, so the byte encoding plays no part.
- Persist.RoundTrip: the round trip is stated only for entries the format can carry. A key must not contain `=` or a newline. A value must not contain a newline or end in `\r`. The source does not check this, and other entries do not survive a reload.
