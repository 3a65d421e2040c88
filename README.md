# LevelDB store plugin: ordered seeks, snapshots and write batches

This project models the LevelDB-backed key-value store of the Neo node
plugins (`src/LevelDBStore`). It covers the iteration helpers in `Helper.cs`
and the two storage classes built on them, `Store` and `Snapshot`, and proves
what they promise.

The native engine is not part of this model. It is replaced by an ordered map
`map<Key, Value>` over byte strings. Keys are ordered by `ByteOrder.Compare`,
which models `SequenceCompareTo` on byte spans: the first differing byte
decides, and a proper prefix sorts first. The store opens the database
without a custom comparator (`Store.cs:25`), so the engine uses its default
bytewise order, which is this same order. An engine iterator is modelled as an
integer cursor over the view's keys in ascending order, which
`OrderedIndex.SortKeys` builds. The cursor is valid while it lies inside that
sequence. `it.Seek` becomes `OrderedIndex.SeekIndex`, `Next`/`Prev` add or
subtract one, and `SeekToLast` moves to the last index.

Modules, leaves first:

- `ByteOrder` (`byte_order.dfy`): the byte type, `Compare` (`SequenceCompareTo`),
  `Less`, and the total-order lemmas.
- `Wrappers` (`wrappers.dfy`): `Option`, for reads that return null.
- `OrderedIndex` (`ordered_index.dfy`): keys, values, lookup, `SeekDirection`,
  strictly ordered key sequences, the sorted-key cursor and the seek position.
- `Helper` (`helper.dfy`): `Seek` (forward, and backward "seek for previous")
  and `FindRange`. Both are methods with loops over the cursor, proved against
  the specification predicates `IsSeekResult` and `IsRangeResult`. The module
  also holds lemmas about those predicates.
- `WriteBatch` (`write_batch.dfy`): put and delete operations, how a batch
  is applied in order, and last-write-wins.
- `Storage` (`storage.dfy`): the classes `Store` (a live map, updated in place)
  and `Snapshot` (a frozen view, a batch, a reference to its store, and a
  disposed flag). The module ends with caller scenarios that show the
  session guarantees.

The specification of a seek or range scan is `Helper.Enumerates`. It says
the output lists exactly the selected keys, each once, strictly ordered in
the walking direction, and each paired with the value the view stores for it.
`Helper.SeekResultUnique` and `Helper.RangeResultUnique` show that this
determines the output completely. So each operation's contract fixes its
exact output sequence.

## Notes on the source

- `Store.cs` and `Snapshot.cs` expose only `Seek` (`Store.cs:38-41`,
  `Snapshot.cs:49-52`), so `FindRange` is modelled only as the helper
  (`Helper.cs:45-54`).
- Both `Seek` methods of the storage classes default their direction to
  `Forward` (`Store.cs:38`, `Snapshot.cs:49`); so do the models.
- `Snapshot.Dispose` releases only the engine snapshot (`Snapshot.cs:44-47`).
  The batch is a separate object, so a `Commit` after `Dispose` still writes
  the batch. The model keeps this: only the reads through the released view
  have `!disposed` as a precondition.
- `Commit` does not clear the batch (`Snapshot.cs:34-37`), so committing
  again applies the same operations again. A second commit that directly
  follows the first leaves the map as it was (`WriteBatch.ApplyTwice`,
  `Storage.CommitTwice`). A write made through the store between the two
  commits is overwritten on every key the batch touches
  (`Storage.RecommitOverwrites`).

## Model

| member | source | states |
|---|---|---|
| ByteOrder.Compare | src/LevelDBStore/Helper.cs:37 | `SequenceCompareTo` on byte spans; equal keys compare zero. `CompareFirstDifference`, `CompareZeroIffEqual`, `ProperPrefixFirst`, `CompareAntisymmetric` and `LessTransitive` characterise the rest |
| ByteOrder.CompareFirstDifference | src/LevelDBStore/Helper.cs:37 | when two keys agree up to byte `i` and differ there, the comparison is the difference of those two bytes |
| ByteOrder.CompareAntisymmetric | src/LevelDBStore/Helper.cs:37 | swapping the keys negates `SequenceCompareTo`, so `Compare(k, p) > 0` means exactly that `p` sorts before `k` |
| ByteOrder.CompareZeroIffEqual | src/LevelDBStore/Helper.cs:37 | the comparison is zero exactly when the two keys are equal |
| ByteOrder.LessIrreflexive | src/LevelDBStore/Helper.cs:51 | no key sorts before itself |
| ByteOrder.LessAsymmetric | src/LevelDBStore/Helper.cs:51 | two keys are never each before the other |
| ByteOrder.LessTotal | src/LevelDBStore/Helper.cs:51 | any two distinct keys are ordered one way or the other |
| ByteOrder.LessTransitive | src/LevelDBStore/Helper.cs:51 | the key order is transitive |
| ByteOrder.ProperPrefixFirst | src/LevelDBStore/Helper.cs:37 | a proper prefix sorts before every key it is a prefix of |
| OrderedIndex.SortKeys | src/LevelDBStore/Helper.cs:24 | the iterator walks strictly ascending keys that are exactly the keys of the view it was created on |
| OrderedIndex.SeekIndex | src/LevelDBStore/Helper.cs:27 | `it.Seek(target)` stops at the first key that does not sort before the target, or is invalid when there is none |
| OrderedIndex.SeekSplit | src/LevelDBStore/Helper.cs:27 | on ascending keys, the keys at or after the seek position are exactly those not before the target |
| OrderedIndex.OrderedUnique | src/LevelDBStore/Helper.cs:22-54 | two strictly ordered key sequences with the same elements are equal |
| Helper.Seek | src/LevelDBStore/Helper.cs:22-43 | forward: exactly the keys >= prefix, strictly ascending; backward: exactly the keys <= prefix, strictly descending; every pair yielded is an entry of the view |
| Helper.SeekForPrevSplit | src/LevelDBStore/Helper.cs:34-38 | after the seek-for-previous correction, the cursor is at the last key that is <= prefix: a fallback to the overall last key when the seek is invalid, a step back when the found key is greater, and no move when it is equal |
| Helper.FindRange | src/LevelDBStore/Helper.cs:45-54 | exactly the stored keys with start <= k <= end, strictly ascending, each paired with its stored value; no key after `end` is yielded |
| Helper.RangeSplit | src/LevelDBStore/Helper.cs:48-51 | the scan stops at the first key after `end` (or runs past the last key): the keys it has passed are exactly those in `[start, end]` |
| Helper.SeekResultUnique | src/LevelDBStore/Helper.cs:22-43 | the seek contract pins its output down: two results that meet it are the same sequence |
| Helper.RangeResultUnique | src/LevelDBStore/Helper.cs:45-54 | the range contract pins its output down: two results that meet it are the same sequence |
| Helper.BackwardIncludesPrefix | src/LevelDBStore/Helper.cs:37-38 | a backward seek from a stored key yields that key, with its value, first |
| Helper.BackwardFromLast | src/LevelDBStore/Helper.cs:35-36 | when every key sorts before the prefix, a backward seek starts at the overall last key and yields every key |
| Helper.BackwardEmpty | src/LevelDBStore/Helper.cs:37-41 | when every key sorts after the prefix, a backward seek yields nothing |
| Helper.FindRangeEmpty | src/LevelDBStore/Helper.cs:48-51 | a range whose end sorts before its start yields nothing |
| Helper.FindRangeInclusive | src/LevelDBStore/Helper.cs:51-52 | when `start` does not sort after `end`, both bounds are yielded if they are stored, so the range is inclusive at both ends |
| Helper.ForwardSeekExample | src/LevelDBStore/Helper.cs:25-29 | forward `Seek("aa")` over {"a", "ab", "b"} yields "ab" then "b" |
| Helper.BackwardSeekExample | src/LevelDBStore/Helper.cs:34-41 | backward `Seek("ab")` over {"a", "ab", "b"} yields "ab" then "a" |
| Helper.FindRangeExample | src/LevelDBStore/Helper.cs:45-54 | `FindRange("a", "ab")` over {"a", "aa", "ab", "b"} yields "a", "aa", "ab" |
| WriteBatch.Step | src/LevelDBStore/Plugins/Storage/Snapshot.cs:36 | the effect of one batched `Put` or `Delete`: a lookup of its key then finds the put value or nothing, and every other key is unchanged |
| WriteBatch.Apply | src/LevelDBStore/Plugins/Storage/Snapshot.cs:36 | `_db.Write(_batch)`: a key no operation of the batch touches keeps its old value; `ApplySnoc` and `LastWriteWins` characterise the touched keys |
| WriteBatch.LastOp | src/LevelDBStore/Plugins/Storage/Snapshot.cs:34-57 | the operation found is the last operation of the batch on that key: it occurs at a position after which no operation touches the key; when there is none, no operation touches the key |
| WriteBatch.ApplySnoc | src/LevelDBStore/Plugins/Storage/Snapshot.cs:34-37 | the operations are applied in call order: a batch with one more operation is the shorter batch followed by that operation |
| WriteBatch.LastWriteWins | src/LevelDBStore/Plugins/Storage/Snapshot.cs:34-37 | after a commit, each key holds what the last operation on it left, and a key the batch never touches keeps its old value |
| WriteBatch.ApplyTwice | src/LevelDBStore/Plugins/Storage/Snapshot.cs:34-37 | the batch is never cleared, and applying it a second time straight after the first leaves the map as one application did |
| WriteBatch.BatchExample | src/LevelDBStore/Plugins/Storage/Snapshot.cs:34-37 | put(A,1), delete(B), put(A,2) leaves A = 2 and B absent; all other keys are unchanged |
| Storage.Store.constructor | src/LevelDBStore/Plugins/Storage/Store.cs:23-26 | opening the database yields a store holding what is stored at the path |
| Storage.Store.Delete | src/LevelDBStore/Plugins/Storage/Store.cs:28-31 | the key is absent afterwards; all other keys are unchanged |
| Storage.Store.Seek | src/LevelDBStore/Plugins/Storage/Store.cs:38-41 | the seek reads the live map, so it reflects every write made before the call |
| Storage.Store.GetSnapshot | src/LevelDBStore/Plugins/Storage/Store.cs:43-46 | a new session on this store whose view equals the store's map now, with an empty batch |
| Storage.Store.Put | src/LevelDBStore/Plugins/Storage/Store.cs:48-51 | the key holds the value afterwards; all other keys are unchanged |
| Storage.Store.PutSync | src/LevelDBStore/Plugins/Storage/Store.cs:53-56 | the same effect on the map as `Put` |
| Storage.Store.Contains | src/LevelDBStore/Plugins/Storage/Store.cs:58-61 | true exactly when the live map stores the key |
| Storage.Store.TryGet | src/LevelDBStore/Plugins/Storage/Store.cs:63-66 | the live map's value for the key, or none when it is missing |
| Storage.Snapshot.constructor | src/LevelDBStore/Plugins/Storage/Snapshot.cs:26-32 | the view is the store's map at construction, and the batch is empty |
| Storage.Snapshot.Commit | src/LevelDBStore/Plugins/Storage/Snapshot.cs:34-37 | the live map becomes the batch applied in order to the old map; the batch is kept |
| Storage.Snapshot.Delete | src/LevelDBStore/Plugins/Storage/Snapshot.cs:39-42 | only appends a delete to the batch; the live map is unchanged |
| Storage.Snapshot.Dispose | src/LevelDBStore/Plugins/Storage/Snapshot.cs:44-47 | releases the view without committing: the live map and the batch are unchanged |
| Storage.Snapshot.Seek | src/LevelDBStore/Plugins/Storage/Snapshot.cs:49-52 | the seek reads the frozen view, not the live map or the batch |
| Storage.Snapshot.Put | src/LevelDBStore/Plugins/Storage/Snapshot.cs:54-57 | only appends a put to the batch; the live map is unchanged |
| Storage.Snapshot.Contains | src/LevelDBStore/Plugins/Storage/Snapshot.cs:59-62 | true exactly when the frozen view stores the key |
| Storage.Snapshot.TryGet | src/LevelDBStore/Plugins/Storage/Snapshot.cs:64-67 | the frozen view's value for the key, or none |
| Storage.PutThenDelete | src/LevelDBStore/Plugins/Storage/Store.cs:28-66 | after `Put(k, v)`, `TryGet(k)` is v and `Contains(k)` holds; after `Delete(k)`, neither finds it |
| Storage.SnapshotIgnoresLaterWrites | src/LevelDBStore/Plugins/Storage/Snapshot.cs:26-67 | a session's `TryGet`, `Contains` and `Seek` answer from the map as it was when the session was created, although the store has been written since |
| Storage.CommitLastWriteWins | src/LevelDBStore/Plugins/Storage/Snapshot.cs:34-67 | a session's buffered writes are seen neither by its own reads nor by the store before `Commit`; after it, A = 2, B is absent and other keys are unchanged |
| Storage.CommitTwice | src/LevelDBStore/Plugins/Storage/Snapshot.cs:34-37 | committing the same session twice in a row, with no write in between, leaves the map as one commit |
| Storage.RecommitOverwrites | src/LevelDBStore/Plugins/Storage/Snapshot.cs:34-37 | the batch survives `Commit`, so committing a session's `Put(k, v)` again after the store wrote `w` under `k` sets `k` back to `v` |
| Storage.DisposeDiscards | src/LevelDBStore/Plugins/Storage/Snapshot.cs:44-47 | disposing a session without committing leaves the store unchanged |

## Left out

- Helper.Seek: returns the whole output sequence at once. The source yields it lazily, and a caller may stop early. Every prefix of the modelled output is what the lazy sequence yields up to that point.
- Helper.FindRange: returns the whole output sequence at once, where the source yields it lazily; as for `Seek`, each prefix of the modelled output is what the lazy sequence yields up to that point.
- Storage.Store.Seek: the source's iterator is created when enumeration starts, so it sees the map as it is at the first `MoveNext`, not at the call. The model reads the map at the call.
- The result selector parameter of `Seek` and `FindRange`: `Seek`'s two callers (`Store.cs:40`, `Snapshot.cs:51`) pass `(k, v) => (k, v)`. `FindRange` has no caller in the storage classes, and the model fixes its selector to the same identity pairing. So both return the pairs.
- `Helper.ToByteArray` (`src/LevelDBStore/Helper.cs:56-62`): it copies bytes from native memory.
- `src/LevelDBStore/Comparator.cs`: callback pinning and native comparator creation and destruction. It holds no ordering logic of its own, and `Store` does not install a comparator. So custom and reverse-order comparators are not modelled.
- `src/LevelDBStore/LevelDbFreeHandle.cs`: it releases native memory.
- `src/LevelDBStore/LeastRecentlyUsedSet.cs`: the file is compiled out (`#if false`).
- `Store.Dispose` (`Store.cs:33-36`) and the release of iterators: these are native resource release. Use after release is modelled only for a snapshot's reads, through the `disposed` flag.
- Sync and buffered durability, crashes, and I/O failures on open, put, delete or commit: the engine is not shown, so every write succeeds and is applied whole. `PutSync` has the effect of `Put`.
- The engine's internals (`DB`, `Iterator`, `WriteBatch`, `ReadOptions`, `SnapShot`) are not part of this model. They appear only as the map, the sorted-key cursor, the operation list and the frozen map.
- Concurrency: calls are modelled one at a time.
- `src/ApplicationLogs`, `src/RestServer` and `src/WebSocketServer` use the store as external callers and are not part of this model.
