# corekv skip list, modelled in Dafny

This project models the skip list that serves as corekv's memtable index
(`utils/skiplist.go`). The list has a header node with 48 forward slots
(`defaultMaxLevel`). Each node holds a `codec.Entry`, the score of that
entry's key and one forward link per level it takes part in.

- `calcScore` packs the key's first eight bytes big-endian into a 64-bit
  number.
- `compare` orders a key against a node by score, and by `bytes.Compare`
  on the full keys when the scores tie.
- `Add` descends from the top level. On each level it records the last
  node whose key is below the new key. It skips the levels where that
  node's slot points at the same node as on the level above. If the key is
  already present, it replaces that node's entry. Otherwise it links a new
  node right after the recorded predecessor on each of its levels.
- `Search` runs the same descent without recording anything.
- `Size` adds up the entry sizes along level 0.

The nodes live in an arena: a sequence of `Element` values addressed by
index. Element 0 is the header, and `Nil` (-1) is the nil pointer.

- The ghost field `chains` names, for every level, the nodes that level
  links, in link order.
- The invariant `Arena.WellFormed` says:
  - following the links of level `j` visits exactly `chains[j]`;
  - the keys along every chain strictly increase;
  - every node with a slot for level `j` is on `chains[j]`.
- The abstract state is:
  - `Contents`, the map from key to entry along level 0;
  - `Keys`, the keys along level 0 in link order;
  - `WalkedSize`, the sum of the entry sizes along level 0.

Modules:

- `Bytes` (bytes.dfy): `bytes.Compare`.
- `Codec` (codec.dfy): the entry record.
- `Scores` (score.dfy): `calcScore`.
- `Arena` (arena.dfy): the element, `compare`, the invariant and the
  lemmas that show how `Add`'s two branches keep it.
- `SkipLists` (skiplist.dfy): the descent, and the class `SkipList` with
  its constructor, `Add`, `Search` and `Size`.

The level that `randLevel` draws is a parameter of `Add`, in `0..48`.

Two behaviours of the source are reproduced as written:

- A node drawn with level 0 is created and counted in `length` and
  `size`, but no level links it. `Add`'s contract states that `Contents`,
  `Keys` and `WalkedSize` then stay the same.
- Replacing an existing key's entry leaves `size` unchanged. `Add`'s
  contract states that `WalkedSize` moves by the difference of the two
  entry sizes in that case, so `Size()` and the `size` field drift apart.

## Model

| member | source | states |
|---|---|---|
| Bytes.Compare | utils/skiplist.go:194 | the result is -1, 0 or 1, and it is 0 exactly when the two byte strings are equal |
| Bytes.CompareAntisymmetric | utils/skiplist.go:194 | swapping the arguments negates the comparison |
| Bytes.LessTotal | utils/skiplist.go:194 | any two keys are equal, or one sorts strictly before the other |
| Bytes.LessTransitive | utils/skiplist.go:194 | the lexicographic order is transitive |
| Scores.CalcScore | utils/skiplist.go:174-189 | the loop that ORs `key[i] << (56 - 8i)` into `hash` for the first min(len, 8) bytes returns `Score(key)`, the first eight bytes read big-endian with missing bytes as zero |
| Scores.ShlIsUnit | utils/skiplist.go:183-184 | shifting byte `i` left by `64 - 8 - 8i` multiplies it by 256 to the power `7 - i` |
| Scores.Score | utils/skiplist.go:174-189 | every score fits in a `uint64` (below 2^64) |
| Scores.ScoreFromBound | utils/skiplist.go:182-185 | bytes `i..7` fill only the low `64 - 8i` bits, so the shifted bytes never overlap |
| Scores.ScoreEqual | utils/skiplist.go:169-189 | two keys have the same score exactly when their first eight bytes agree, counting missing bytes as zero |
| Scores.ScoreIgnoresTail | utils/skiplist.go:178-180 | bytes after the eighth never change the score |
| Scores.ScoreMonotone | utils/skiplist.go:169-189 | a lexicographically smaller key never has a larger score |
| Scores.ScoreLess | utils/skiplist.go:197-202 | a strictly smaller score implies a lexicographically smaller key |
| Arena.NewElement | utils/skiplist.go:48-54 | the new element holds the given entry and score and has `level` slots, all nil |
| Arena.Compare | utils/skiplist.go:191-203 | the result is -1, 0 or 1, and it is 0 exactly when the scores tie and the keys are equal |
| Arena.CompareMatchesBytes | utils/skiplist.go:191-203 | with the key's own score, `compare` equals `bytes.Compare` on the keys, in every case |
| Arena.CompareUnderMonotoneScore | utils/skiplist.go:187 | applying any monotone conversion to the scores (such as the `float64` conversion) leaves `compare` equal to `bytes.Compare` |
| Arena.KeysSorted | utils/skiplist.go:72-114 | in a well-formed list, the keys along level 0 strictly increase, so no key is linked twice |
| Arena.LevelIsSubsequence | utils/skiplist.go:105-121 | in a well-formed list, every level's chain is a subsequence of the chain of the level below |
| Arena.OnLevelZero | utils/skiplist.go:116-121 | a node with at least one slot is on the level-0 chain |
| Arena.SplitIsPredPos | utils/skiplist.go:79-98 | where every key before position `m` is below the key and every key after it is above, `m` is the predecessor position and the key is absent from the chain |
| Arena.PositionOf | utils/skiplist.go:79-98 | the header, or a node on level `j` whose key is below the key, has a position on the chain; every key up to it is below the key, and its link is the chain's next node |
| Arena.PredAt | utils/skiplist.go:79-98 | a walk that stops where the next node is nil or above the key has reached the split point of the chain |
| Arena.RecordedAt | utils/skiplist.go:79-113 | a node before the key whose level-`j` slot is nil or above the key is the recorded predecessor on that level |
| Arena.RecordLevel | utils/skiplist.go:74 | recording the level-`i` predecessor extends what is recorded from level `i + 1` up to level `i` |
| Arena.SpliceChain | utils/skiplist.go:118-121 | relinking `e.levels[j] = p.levels[j]` and `p.levels[j] = e` at the split point inserts `e` into chain `j`, which stays linked, sorted and complete |
| Arena.AppendAndLink | utils/skiplist.go:116-121 | appending the new node and running the splice loop keeps the list well formed and changes no entry; each level below the drawn height gains the node at its split point, and every other level is unchanged |
| Arena.InsertOutcome | utils/skiplist.go:116-124 | after the insertion the level-0 map gains the key, the walked size grows by the entry size, and the key sequence gains the key at its split point, or all three are unchanged when the height is 0 |
| Arena.UpdateOutcome | utils/skiplist.go:85-88 | replacing the entry of the node that holds the key keeps the list well formed and the keys unchanged; the map changes at that key only, and the walked size moves by the difference of the two entry sizes |
| Arena.ContentsKeysOf | utils/skiplist.go:128-163 | a key is in the level-0 map exactly when it is among the level-0 keys |
| SkipLists.WalkLevel | utils/skiplist.go:79-102 | the walk along one level returns the node holding the key, or stops at that level's predecessor: a node before the key whose slot is nil or above the key |
| SkipLists.SkipLevels | utils/skiplist.go:110-113 | the shortcut loop records the same node on every level it passes, and on each of those levels its slot equals its slot on the level where the walk stopped. It stops at the first level whose slot differs, or below level 0. It changes no other level, and every level from there up is correctly recorded |
| SkipLists.SkippedRecorded | utils/skiplist.go:105-113 | on the levels the shortcut skips, the node it records is the true predecessor of the key |
| SkipLists.Descend | utils/skiplist.go:64-114 | the descent either finds a level-0 node holding the key, or leaves on every one of the 48 levels the last node whose key is below the key |
| SkipLists.Put | utils/skiplist.go:60-126 | the list stays well formed; it inserts exactly when the key is absent. On update, exactly that node's entry is replaced. On insert, the new node is appended and spliced in at the split point of each level below its height, and the map, keys and walked size change accordingly |
| SkipLists.SkipList.constructor | utils/skiplist.go:27-40 | the new list has a header of 48 nil slots, `length` and `size` 0, and every level empty |
| SkipLists.SkipList.Add | utils/skiplist.go:60-126 | returns nil. For a present key: the entry is replaced, the keys, links, `length` and `size` stay the same, and the walked size moves by the size difference. For a new key: `length` grows by 1, `size` by the entry size, and each level below the drawn height gains the node at its split point. With height at least 1, the map and keys gain the key; with height 0 they do not change |
| SkipLists.SkipList.Search | utils/skiplist.go:128-163 | returns the entry stored under the key, or nil when the key is absent (in particular when the list is empty); it changes nothing |
| SkipLists.SkipList.Size | utils/skiplist.go:213-219 | the walk along level 0 returns the sum of the entry sizes of the nodes it visits |

## Left out

- `randLevel` (utils/skiplist.go:205-211) draws from a random source, so
  it is not modelled. The level becomes a parameter of `Add` bounded by
  48. A draw above 48 would index past `prevElemHeaders` in the source;
  the model excludes it with that bound.
- The `rand` and `time` seeding in `NewSkipList` is not modelled, for the
  same reason: it is a random source.
- The `sync.RWMutex` field is not modelled. It is never locked, and
  concurrency is out of scope.
- `Close` is not modelled. It returns nil and does nothing.
- `Element.Entry` is not modelled. It is a plain field read.
- `float64(hash)` rounding is not modelled. Scores are the exact integer
  hash. `Arena.CompareUnderMonotoneScore` shows that any monotone
  conversion, rounding included, leaves the comparator's result unchanged.
- Go's integer widths for `length`, `size` and `maxLevel` are not
  modelled. These counters are unbounded integers here, so an overflow of
  `int64` `size` is not modelled.
- Scores.CalcScore: `hash |= b << shift` is modelled as an addition. Each
  shifted byte lands on bits that are still zero (`Scores.ScoreFromBound`).
- `Add` computes the score again on every comparison
  (utils/skiplist.go:81). The model computes it once, which gives the same
  value.
- In the source, `Add` writes a level's predecessor both when the level is
  entered and after each step right. The model writes it once, with the
  final value.
- `Search` reuses the descent of `Add`. The predecessors it records are
  discarded.
- `codec.Entry` is a key, a value and the size its `Size()` reports. The
  codec package is not part of this model.
- Entries are stored as values, not as the caller's `*codec.Entry`
  pointers (utils/skiplist.go:44, 87, 117). So the model does not capture
  sharing: `Search` returns the stored pointer itself
  (utils/skiplist.go:143), and a caller who later changes the `Key` of an
  inserted entry breaks the order of the list. The model cannot express
  that.
- `Add(nil)` is not modelled. The source panics when it reads `data.Key`
  (utils/skiplist.go:70); the value type `Entry` has no nil.
- `utils/const.go` is not modelled. It holds configuration constants and a
  CRC table with no skip list logic.
- Node pointers become arena indices, and node identity is kept:
  equality of indices stands for the pointer comparison
  `prevElem.levels[i] == topLevel` (utils/skiplist.go:111, 158). Updates
  to a node's fields become a new arena sequence, which replaces the old
  one, rather than writes through a pointer.
