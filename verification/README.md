# MVCC memstore: a Dafny model

This project models the multi-version in-memory store of the `memstore`
package, together with the record format the memcached-style front end keeps
in it (`luxsrv/byteitem.go`).

The store keeps every version of every key in one ordered index. A version is
an `Item`: the key/value bytes, the sequence number it was born in (`bornSn`)
and the sequence number it died in (`deadSn`, 0 while alive).

- A writer's `Put` adds a version born in the current sequence number.
- `Get` seeks the first version of a key and walks to the last one.
- `Delete` either unlinks that version, when it was born in the current
  sequence number, or marks it dead in the current sequence number.
- `NewSnapshot` pins the current sequence number and then advances it.
- An `Iterator` over a snapshot skips every version born after the snapshot or
  dead at or before it (`skipUnwanted`).
- `Snapshot.Close` drops a reference. The last reference takes the snapshot
  out of the snapshot index and runs `GC`, which collects the versions dead
  before the oldest open snapshot.
- `Rollback` discards everything born or dead after a snapshot.

## Modules

- `Wrappers`: `Option`.
- `Order`: three-way comparators, `TotalPreorder`, `Sorted`, and `Filter` with
  its lemmas.
- `Bytes`: bytes as a `byte` newtype, `bytes.Compare`, and the store's default
  key comparator, which compares only the common-length prefixes.
- `ByteItem`: `newByteItem`, `valOffset`, `Key`, `Value` and
  `byteItemKeyCompare`.
- `SkipList`: the ordered index, seen as a sorted sequence.
  - `findPath` at level 0 is `FirstNotLess`, which gives insert and delete
    their positions.
  - The `SLIterator` cursor is a position in the sequence. `curr == |s|` is
    the tail sentinel and `prev == -1` the head sentinel.
- `MemStore`: the comparators, `Item`, `Snapshot` and `Store`.
  - Writer operations: `Put`, `Get` and `Delete`.
  - Store operations: `New`, `NewSnapshot`, `Open`, `Close`, `collectDead`,
    `GC`, `Rollback` and `GetSnapshots`.
- `SnapshotIterator`: `skipUnwanted` and the MVCC iterator built on it.
- `MemStoreProperties`: multi-operation properties.
  - the index invariant every operation keeps;
  - Put-then-Get;
  - snapshot isolation for `Put` and `Delete`;
  - `GC` leaves every open snapshot's view unchanged;
  - reference counting;
  - what `Rollback` discards;
  - the item counter: the number of versions no delete has marked.
- `Scenarios`: concrete runs over a key-ordered pair type.

## Modelling decisions

- **Comparator.** The key comparator is a parameter `keyCmp` of every
  operation, as `SetKeyComparator` makes it. Lemmas that need an order assume
  `Order.TotalPreorder(keyCmp)`.
- **The default comparator is not an order.** `defaultKeyCmp` compares only
  the common-length prefixes, so `Bytes.PrefixCompareIsNotPreorder` proves it
  is not a total preorder. `ByteItem.KeyCompare` does the same on record keys.
- **Insert and delete placement.** The skip-list internals (`Insert2`, the
  index `Delete`) are not part of this model. Insert is modelled as placing
  the new element at the position `findPath` reports, which is before every
  element not less than it. Delete is modelled as removing the element
  `findPath` lands on when it compares equal.
- **Sequence-number wrap.** `currSn` and `lastGCSn` are `uint32`, and their
  wrap-around is written out modulo 2^32. `refCount` and `count` are
  unbounded.
- **Snapshots are values.** `Open` and `Close` take a snapshot and return the
  updated one.
- **A delete can uncover an older version.** Take this run: put at
  sequence number 1, snapshot, put again at 2, then delete. The delete runs
  at sequence number 2, where the new version was born, so
  `memstore.go:94-97` unlinks that version instead of marking it dead. The
  older version then becomes the latest again, and `Get` returns the first
  value rather than nothing (`Scenarios.PutSnapshotPutDelete`).
- **`collectDead` and `Rollback` walk the index.** Both walk the index with
  an `SLIterator` using the iterator comparator (key only). They call the
  index delete, with the insert comparator, on every version they reject.
  That delete removes the first entry comparing equal, which is the first
  entry with the same key and the same birth sequence number.
  `SkipList.DeleteWalk` models the walk together with `SLIterator.Next`
  (`skiplist_iter.go:47-69`). The index delete is taken to unlink the node
  before it returns, so the `helpDelete` in `Next` fails and `Next` takes
  one of three paths:
  - The delete removed the entry under the cursor. `Next` re-seeks by key
    and stops on the first entry not less than the removed one, that is, on
    the first version of its key still in the index.
  - The delete removed an earlier entry. The cursor's node is untouched and
    `Next` moves to its successor.
  - Nothing was removed. `Next` moves on.

  `MemStore.CollectDeadWalk` and `MemStore.RollbackWalk` are the two walks
  as written.
  - When no two versions share a key and a birth sequence number ("twins"),
    the walk removes exactly the rejected versions. This is proved as
    `SkipList.DeleteWalkWithoutTies`, `MemStore.CollectDeadWalkWithoutTwins`
    and `MemStore.RollbackWalkWithoutTwins`.
  - Twins occur if `Insert2` accepts an element comparing equal to an
    existing one under the insert comparator, as the model's
    `SkipList.Insert` does. Two puts of one key in one sequence number,
    then a delete of the key, then leave a live and a dead version with the
    same birth sequence number, and the walk deletes the wrong twin (see
    Findings).
    When a later dead version of the key follows, the re-seek after deleting
    it brings the cursor back to the rejected twin. Deleting that twin a
    second time removes one more entry, and no version of the key is left
    (`MemStore.CollectDeadWalkEmptiesKey`).
  - `MemStore.CollectDead` and `MemStore.Rollback` remove exactly the
    rejected versions, and `GC` and `Close` use them.
- **Rollback as written.** `Rollback` also discards versions that were
  visible to the snapshot but deleted after it. The model keeps this
  behaviour and proves it (`MemStoreProperties.RollbackDiscardsLaterDeletes`).
- **The item counter.** `Put` raises `count` and a successful `Delete`
  lowers it. `MemStore.CountsAlive` states what it counts: the versions no
  delete has marked. `New`, `Put`, `Delete`, `NewSnapshot`, `GC` and `Close`
  keep that true. `Rollback` does not (see Findings).
  `MemStore.RollbackRecount` is `Rollback` with the counter lowered once per
  alive version it removes. It has the same index, sequence numbers and
  snapshots as `Rollback`, so every index property proved of `Rollback`
  holds for it.

## Model

| member | source | states |
|---|---|---|
| MemStore.InsertCompareIsOrder | memstore/memstore.go:33-44 | for a key comparator that is a total preorder, the insert comparator (key, then birth sequence number) is a total preorder as well |
| MemStore.InsertCompare | memstore/memstore.go:33-44 | keys that differ are ranked by the key comparator; on equal keys the older birth sequence number comes first, and the result is 0 exactly when the birth sequence numbers are equal |
| MemStore.SnapCompare | memstore/memstore.go:214-219 | snapshots are ranked by sequence number, and compare equal exactly when the sequence numbers are equal |
| MemStore.IterCompareIgnoresVersions | memstore/memstore.go:33-52 | for any two versions, changing their birth and death sequence numbers never changes how the iterator comparator ranks them; on equal keys it returns 0 and the insert comparator returns the difference of birth sequence numbers; where the iterator comparator is not 0 the insert comparator agrees with it |
| MemStore.InsertOrderSortsKeys | memstore/memstore.go:33-52 | an index sorted by the insert comparator is sorted by key, so an iterator seek by key lands on the first version of the key |
| Bytes.Compare | memstore/memstore.go:65 | `bytes.Compare` returns -1, 0 or 1, returns 0 exactly for equal byte strings, and puts the empty string before every non-empty one |
| Bytes.CompareIsTotalPreorder | memstore/memstore.go:65 | `bytes.Compare` is antisymmetric and transitive, so it is a total preorder |
| Bytes.PrefixCompareZero | memstore/memstore.go:54-66 | the default key comparator returns 0 exactly when one key is a prefix of the other |
| Bytes.PrefixCompareAntisymmetric | memstore/memstore.go:54-66 | the default key comparator is antisymmetric and reflexive |
| Bytes.PrefixCompareSameLength | memstore/memstore.go:54-66 | on keys of equal length the default key comparator agrees with `bytes.Compare` |
| Bytes.PrefixCompareIsNotPreorder | memstore/memstore.go:54-66 | "a" ties with "ab" and with "ac", yet "ab" < "ac", so the default key comparator is not a total preorder |
| ByteItem.Uint16LE | luxsrv/byteitem.go:12 | the two header bytes hold the key length truncated to 16 bits, low byte first |
| ByteItem.ReadUint16LE | luxsrv/byteitem.go:21 | two header bytes read back as a number below 65536 |
| ByteItem.ReadThenWriteUint16 | luxsrv/byteitem.go:12-21 | writing back the number read from two header bytes gives the same two bytes, so the first is the low byte and the second the high byte |
| ByteItem.NewByteItem | luxsrv/byteitem.go:10-17 | the record is 2 + len(k) + len(v) bytes, its header reads back as len(k) mod 65536, and the key and value bytes follow it |
| ByteItem.ValOffset | luxsrv/byteitem.go:19-23 | the value starts 2 + the header's length, at most 65537 |
| ByteItem.Key | luxsrv/byteitem.go:25-28 | the key is as long as the header says |
| ByteItem.Value | luxsrv/byteitem.go:30-33 | the value is everything after the value offset |
| ByteItem.KeyOfNewByteItem | luxsrv/byteitem.go:10-33 | for any key and value, the record's key is the key's first len(k) mod 65536 bytes and its value is the rest of the key followed by the value |
| ByteItem.RoundTrip | luxsrv/byteitem.go:10-33 | for keys shorter than 65536 bytes, `Key` and `Value` of `newByteItem(k, v)` give back `k` and `v` |
| ByteItem.Reencode | luxsrv/byteitem.go:10-33 | re-encoding the key and value of a well-formed record gives back the same bytes |
| ByteItem.LongKeyIsTruncated | luxsrv/byteitem.go:12 | a key of 65536 bytes or more does not survive the round trip |
| ByteItem.KeyCompare | luxsrv/byteitem.go:35-50 | comparing two records yields -1, 0 or 1 |
| ByteItem.KeyCompareIsPrefixCompareOfKeys | luxsrv/byteitem.go:35-50 | comparing two records is the default prefix comparison of their keys |
| ByteItem.KeyCompareIgnoresValues | luxsrv/byteitem.go:35-50 | replacing the values of two records never changes how they compare |
| ByteItem.KeyCompareZero | luxsrv/byteitem.go:35-50 | two records compare equal exactly when one key is a prefix of the other |
| ByteItem.KeyCompareAntisymmetric | luxsrv/byteitem.go:35-50 | record comparison is reflexive and antisymmetric |
| SkipList.FirstNotLess | memstore/skiplist_iter.go:29 | the position `findPath` reports: everything before it is less than the probe, and the element at it is not |
| SkipList.FirstNotLessSorted | memstore/skiplist_iter.go:29 | in a sorted index, every element from that position on is not less than the probe |
| SkipList.FindPath | memstore/skiplist_iter.go:29 | `found` is true exactly when the successor compares equal to the probe |
| SkipList.Insert | memstore/memstore.go:79 | inserting adds exactly one occurrence of the element and nothing else |
| SkipList.InsertSorted | memstore/memstore.go:79 | inserting at the `findPath` position keeps the index sorted |
| SkipList.Delete | memstore/memstore.go:95 | the index delete either leaves the index unchanged and reports false, or removes one position whose element compares equal and reports true |
| SkipList.DeleteFinds | memstore/memstore.go:95 | in a sorted index, deleting an element that has an equal in the index always succeeds |
| SkipList.DeleteSorted | memstore/memstore.go:95 | deleting keeps the index sorted |
| SkipList.DeleteAfterLess | memstore/memstore.go:95 | when every element before `x` is less than it, the index delete of `x` removes exactly that occurrence |
| SkipList.FirstNotLessAt | memstore/skiplist_iter.go:29 | a position whose element is not less than the probe, with every earlier element less, is the one `findPath` reports |
| SkipList.DeleteWalk | memstore/memstore.go:297-304 | the cursor walk that deletes every rejected entry by the insert comparator only removes entries: the result is a sub-multiset of the index |
| SkipList.WalkKeepUnfold | memstore/memstore.go:300-303 | a kept entry is left in place and the walk goes on from its successor |
| SkipList.WalkDropUnfold | memstore/skiplist_iter.go:50-60 | when the delete removes the entry under the cursor, the walk goes on from where a seek for that entry by the iterator comparator lands in the shrunken index |
| SkipList.WalkDropEarlierUnfold | memstore/skiplist_iter.go:67-68 | when the delete removes an earlier entry comparing equal, the cursor's entry stays and the walk goes on from its successor, at the same position in the shrunken index |
| SkipList.DeleteWalkWithoutTies | memstore/memstore.go:297-304 | in a sorted index where no two entries compare equal, and with a seek comparator that never ranks an entry before what the delete comparator does not, the walk from any point reached so far removes exactly the rejected entries and keeps the rest in order |
| SkipList.DeleteWalkIsFilter | memstore/memstore.go:297-304 | under the same conditions, the walk from the start leaves exactly the accepted entries, in order |
| SkipList.SeekFirst | memstore/skiplist_iter.go:21-25 | the cursor sits on the head's successor, valid, with the head as its predecessor, and it is on the tail exactly when the index is empty |
| SkipList.Seek | memstore/skiplist_iter.go:27-33 | the cursor sits on the successor, with the predecessor behind it; every element before it is less than the probe; the result is true exactly when the successor compares equal |
| SkipList.Valid | memstore/skiplist_iter.go:35-41 | the cursor is valid exactly when it was valid and is not on the tail; the invalid flag persists |
| SkipList.Get | memstore/skiplist_iter.go:43-45 | the element under a cursor that is not on the tail |
| SkipList.Next | memstore/skiplist_iter.go:47-69 | without a concurrent delete, the predecessor becomes the old current and the cursor moves one position on |
| SkipList.WalkVisitsAll | memstore/skiplist_iter.go:21-69 | `SeekFirst`, then `Valid`/`Get`/`Next` to the end, reads the whole index in order |
| MemStore.New | memstore/memstore.go:148-157 | a new store has empty indexes, count 0 and current sequence number 1 |
| MemStore.Put | memstore/memstore.go:77-81 | the index gains exactly one version of `x`, born in the current sequence number and alive; the count goes up by one; nothing else changes |
| MemStore.LatestIndexCorrect | memstore/memstore.go:106-126 | in a sorted index, the seek-then-walk of `Get` finds nothing exactly when no version's key compares equal; otherwise it stops on the last such version |
| MemStore.RunEnd | memstore/memstore.go:115-126 | the loop of `Get` stops at a position whose run of equal-key predecessors starts where it began, and whose successor, if any, has a different key |
| MemStore.LatestIndex | memstore/memstore.go:106-126 | the position `Get` settles on, when there is one, is inside the index |
| MemStore.Get | memstore/memstore.go:106-133 | a version `Get` returns is in the index and alive |
| MemStore.GetReturnsNewestVersion | memstore/memstore.go:106-133 | `Get` returns the version of the key with the highest birth sequence number, or nothing when that version is dead or the key is absent |
| MemStore.LatestIsNewest | memstore/memstore.go:33-44 | in insert order, the last version of a key was born no earlier than any other version of it |
| MemStore.Delete | memstore/memstore.go:84-104 | an absent or dead key leaves the store unchanged and reports false; a success decrements the count; sequence numbers and snapshots never change |
| MemStore.DeleteMarksLatest | memstore/memstore.go:91-100 | deleting a version born before the current sequence number succeeds and sets that version's `deadSn` to the current sequence number in place |
| MemStore.DeleteUnlinksNewVersion | memstore/memstore.go:91-97 | a successful delete of a version born in the current sequence number unlinks one index entry of the same key, born in the current sequence number |
| MemStore.DeleteOfNewVersionSucceeds | memstore/memstore.go:91-100 | in a sorted index, deleting a live key always succeeds; the index shrinks by one exactly when the version was born in the current sequence number |
| MemStore.DeleteThenGetAndDelete | memstore/memstore.go:84-133 | after a marking delete, `Get` of the key returns nothing and a second `Delete` fails and changes nothing |
| MemStore.NewSnapshot | memstore/memstore.go:221-228 | the snapshot pins the current sequence number and item count with one reference, joins the snapshot index, and the current sequence number advances by one, wrapping at 2^32 |
| MemStore.Open | memstore/memstore.go:191-197 | opening fails exactly when no reference is left; otherwise it adds one reference |
| MemStore.ItemsCount | memstore/memstore.go:290-292 | reads the counter; that it equals the number of alive versions is stated by `MemStoreProperties.PutKeepsCount`, `DeleteKeepsCount`, `GCKeepsCount`, `CloseKeepsCount` and `SnapshotCountsItsView` |
| MemStore.Count | memstore/memstore.go:187-189 | reads the count a snapshot pinned; `MemStoreProperties.SnapshotCountsItsView` relates it to `ItemsCount` and to the versions the snapshot reads |
| MemStore.CollectDead | memstore/memstore.go:310-321 | every version dead at or before `sn` is dropped, and every other version keeps its multiplicity |
| MemStore.CollectDeadWalk | memstore/memstore.go:310-321 | `collectDead` as written only removes versions: the result is a sub-multiset of the index |
| MemStore.IterCmpCoarser | memstore/memstore.go:33-52 | the iterator comparator never ranks a version before another unless the insert comparator does, so a seek by key lands no later than a seek by key and birth |
| MemStore.CollectDeadWalkWithoutTwins | memstore/memstore.go:310-321 | in an insert-sorted index without twins, the walk as written equals the corrected `CollectDead` |
| MemStore.CollectDeadWalkDropsLiveTwin | memstore/memstore.go:317-318 | on a live version followed by a dead twin, the walk deletes the live one and keeps the dead one, so a later snapshot that read the live version reads nothing |
| MemStore.CollectDeadWalkEmptiesKey | memstore/memstore.go:310-321 | on a live version, a dead twin and a later dead version of the key, the corrected `CollectDead` keeps the live version, which a later snapshot reads, but the walk as written removes all three |
| MemStore.WalkRevisitsTwin | memstore/skiplist_iter.go:47-69 | on a kept version, a rejected twin and a rejected later version of the key, the walk leaves nothing |
| MemStore.TwinTakesKeptPlace | memstore/memstore.go:317-318 | the delete handed the rejected twin removes the kept version ahead of it, and the walk moves on to the later version |
| MemStore.LaterVersionSeeksBack | memstore/skiplist_iter.go:52-60 | deleting the later version from under the cursor makes `Next` re-seek by key, back onto the rejected twin |
| MemStore.LoneVersionGoes | memstore/memstore.go:317-318 | visited again, the rejected twin is deleted and the key is gone |
| MemStore.GC | memstore/memstore.go:323-337 | when the oldest open snapshot's sequence number differs from `lastGCSn` and exceeds 1, `lastGCSn` becomes one less than it and the dead versions before it are collected; otherwise nothing changes |
| MemStore.Close | memstore/memstore.go:199-208 | closing drops one reference; the last reference removes the snapshot from the index and runs `GC`; otherwise the store is unchanged |
| MemStore.Rollback | memstore/memstore.go:294-308 | every version born or dead after the snapshot is dropped and the others keep their multiplicity; the current sequence number becomes the snapshot's and `lastGCSn` one less, wrapping at 0 |
| MemStore.RollbackWalk | memstore/memstore.go:294-308 | `Rollback` as written: the index becomes a sub-multiset of the old one, and everything else matches the corrected `Rollback` |
| MemStore.RollbackWalkWithoutTwins | memstore/memstore.go:294-308 | in an insert-sorted index without twins, the walk as written equals the corrected `Rollback` |
| MemStore.RollbackWalkDropsKeptTwin | memstore/memstore.go:301-302 | on a version the snapshot reads followed by a twin deleted after the snapshot, the walk keeps the deleted twin and drops the version the snapshot read |
| MemStore.RollbackWalkEmptiesKey | memstore/memstore.go:294-308 | on a never-deleted version, a twin deleted after the snapshot and a version born after it, the snapshot reads the first two and the corrected `Rollback` keeps the first, but the walk as written removes all three |
| MemStore.RollbackTraceOfThree | memstore/memstore.go:297-304 | the same three versions at the index level: the view, the corrected filter and the walk |
| MemStore.RollbackRecount | memstore/memstore.go:294-308 | `Rollback` with the counter lowered by the number of alive versions born after the snapshot; the index, sequence numbers and snapshots are those of `Rollback` |
| MemStore.GetSnapshots | memstore/memstore.go:339-349 | the cursor loop returns the snapshot index in order, every entry exactly once |
| MemStoreProperties.SnapCompareIsOrder | memstore/memstore.go:214-219 | snapshot comparison by sequence number is a total preorder |
| MemStoreProperties.PutKeepsInv | memstore/memstore.go:77-81 | `Put` keeps both indexes sorted |
| MemStoreProperties.DeleteKeepsInv | memstore/memstore.go:84-104 | `Delete` keeps both indexes sorted |
| MemStoreProperties.NewSnapshotKeepsInv | memstore/memstore.go:221-228 | `NewSnapshot` keeps both indexes sorted |
| MemStoreProperties.GCKeepsInv | memstore/memstore.go:323-337 | `GC` keeps both indexes sorted |
| MemStoreProperties.CloseKeepsInv | memstore/memstore.go:199-208 | `Close` keeps both indexes sorted |
| MemStoreProperties.RollbackKeepsInv | memstore/memstore.go:294-308 | `Rollback` keeps both indexes sorted |
| MemStoreProperties.PutThenGet | memstore/memstore.go:77-133 | `Get(x)` after `Put(x)` returns the version just written, alive and born in the current sequence number |
| MemStoreProperties.PutInvisibleToOlderSnapshots | memstore/memstore.go:77-81 | a snapshot older than the current sequence number reads the same versions after a `Put` as before |
| MemStoreProperties.RemoveInvisible | memstore/memstore.go:95 | unlinking a version a snapshot cannot see leaves that snapshot's view unchanged |
| MemStoreProperties.DeleteInvisibleToOlderSnapshots | memstore/memstore.go:84-104 | an older snapshot reads the same sequence of versions after a `Delete`, each unchanged or at most re-marked dead at the current sequence number, which it still sees as alive |
| MemStoreProperties.DeleteUnlinkInvisible | memstore/memstore.go:94-97 | unlinking a version born in the current sequence number does not change an older snapshot's view |
| MemStoreProperties.DeleteMarkInvisible | memstore/memstore.go:99 | marking a version dead changes an older snapshot's view by at most that version's `deadSn` |
| MemStoreProperties.GCPreservesSnapshotViews | memstore/memstore.go:323-337 | for every snapshot in the index, the versions it reads are the same before and after `GC` |
| MemStoreProperties.CollectDeadWalkPreservesViews | memstore/memstore.go:310-321 | without twins, the walk as written leaves unchanged the view of every snapshot newer than the collection point |
| MemStoreProperties.OpenThenClose | memstore/memstore.go:191-208 | opening and then closing an open snapshot leaves the store and the snapshot as they were; a snapshot whose last reference was closed cannot be reopened |
| MemStoreProperties.SnapshotFound | memstore/memstore.go:203 | a snapshot in a sorted snapshot index is always found by the index delete |
| MemStoreProperties.RemoveSnapshot | memstore/memstore.go:203 | removing a snapshot from the index removes exactly one entry, and only an entry with its sequence number |
| MemStoreProperties.CloseLastReference | memstore/memstore.go:199-208 | closing the last reference removes one entry with the snapshot's sequence number from the index, and every snapshot still open reads the same versions |
| MemStoreProperties.PutKeepsCount | memstore/memstore.go:77-81 | when the counter equals the number of alive versions, it still does after `Put` |
| MemStoreProperties.DeleteKeepsCount | memstore/memstore.go:84-104 | when the counter equals the number of alive versions, it still does after `Delete`, given a current sequence number other than 0 and no dead version born in it |
| MemStoreProperties.RemoveAliveAt | memstore/memstore.go:94-97 | unlinking an alive version from the index leaves one alive version fewer |
| MemStoreProperties.MarkTakesOneAlive | memstore/memstore.go:99 | marking an alive version dead with a non-zero sequence number leaves one alive version fewer |
| MemStoreProperties.GCKeepsCount | memstore/memstore.go:323-337 | `GC` removes only dead versions, so a right counter stays right |
| MemStoreProperties.CloseKeepsCount | memstore/memstore.go:199-208 | `Close` keeps a right counter right |
| MemStoreProperties.SnapshotCountsItsView | memstore/memstore.go:221-228 | a new snapshot's `Count` is the store's `ItemsCount`; when the counter is right and no version carries a later sequence number, it is the number of versions the snapshot reads |
| MemStoreProperties.RollbackCountIffNoLaterAlive | memstore/memstore.go:294-308 | after `Rollback` as written, a right counter stays right exactly when no alive version was born after the snapshot |
| MemStoreProperties.RollbackRecountKeepsCount | memstore/memstore.go:294-308 | after `RollbackRecount`, a right counter stays right in every case |
| MemStoreProperties.RollbackDiscardsLaterDeletes | memstore/memstore.go:294-304 | a version visible to the snapshot survives rollback if it was never deleted, but is discarded if it was deleted later, although the snapshot still showed it |
| SnapshotIterator.SkipUnwanted | memstore/memstore.go:236-246 | the cursor only moves forward; it stops on a version visible to the snapshot or at the tail; every version it passes is invisible to the snapshot |
| SnapshotIterator.SeekFirst | memstore/memstore.go:248-251 | the iterator sits on the first visible version, or at the tail when there is none |
| SnapshotIterator.Seek | memstore/memstore.go:253-256 | the iterator sits on a visible version or at the tail, and every earlier version is less than the probe or invisible; in a key-sorted index the version it sits on is not less than the probe |
| SnapshotIterator.Next | memstore/memstore.go:266-269 | the iterator moves to the next visible version after the current one, or to the tail |
| SnapshotIterator.Valid | memstore/memstore.go:258-260 | `Valid` is the underlying cursor's validity, and true only off the tail |
| SnapshotIterator.Get | memstore/memstore.go:262-264 | on a cursor that is not on the tail, the item under the cursor, taken from the index |
| SnapshotIterator.NewIterator | memstore/memstore.go:275-288 | creating an iterator on a closed snapshot fails; otherwise it takes one reference and leaves the cursor unpositioned |
| SnapshotIterator.Close | memstore/memstore.go:271-273 | closing an iterator drops one snapshot reference |
| SnapshotIterator.IterationReadsSnapshotView | memstore/memstore.go:236-269 | iterating a snapshot from `SeekFirst` reads exactly the versions visible to it, each once and in index order |
| Scenarios.PutSnapshotPutDelete | memstore/memstore.go:77-133 | put, snapshot, put: the writer reads the new value and the snapshot the old one; deleting the new version in its own sequence number unlinks it and uncovers the old value |
| Scenarios.PutTwiceInOneSequenceNumber | memstore/memstore.go:77-133 | two puts of one key in one sequence number leave `Get` returning the first one |
| Scenarios.TwoPutsThenSnapshot | memstore/memstore.go:77-81 | two puts of one key in sequence number 1 and a snapshot leave two twins born in 1, the newer value first, with current sequence number 2 |
| Scenarios.TwinsConfuseCollectDead | memstore/memstore.go:310-321 | deleting the key then marks the second twin dead at 2; the corrected `collectDead` up to 2 keeps the live twin, the walk as written keeps only the dead one, and a snapshot at 3 loses the key |
| Scenarios.TwinsConfuseRollback | memstore/memstore.go:294-308 | after the same delete, rolling back to snapshot 1 keeps the live twin in the corrected `Rollback` but only the dead twin in the walk as written |
| Scenarios.TwinsAndLaterVersionEmptyKey | memstore/memstore.go:310-321 | continuing from the same delete: a put at 2, a snapshot and a delete at 3 leave a live version, its twin dead at 2 and a later version dead at 3; collecting up to 3 should keep the live version, which snapshot 4 reads, but the walk as written removes all three |
| Scenarios.TwinsAndLaterVersionRollback | memstore/memstore.go:294-308 | continuing from the same delete: after a put at 2, the snapshot at 1 reads the live version and its twin; the corrected `Rollback` keeps the live version, and the walk as written removes all three |
| Scenarios.ThreeVersionsOfKey | memstore/memstore.go:77-104 | from the state after that delete, a put of the key at 2, a snapshot and a delete leave the live version, its twin dead at 2 and the new version dead at 3 |
| Scenarios.PutAfterTwins | memstore/memstore.go:77-81 | a put at 2 lands after two versions of the key born at 1 |
| Scenarios.DeleteMarksThird | memstore/memstore.go:84-104 | with three versions of a key, `Delete` marks the last one dead in the current sequence number |
| Scenarios.RollbackLeavesCountStale | memstore/memstore.go:294-308 | snapshot at 1, put at 2, roll back to 1: the index is empty but `ItemsCount` is 1; after `RollbackRecount` it is 0 |
| Scenarios.DeleteMarksOlderTwin | memstore/memstore.go:106-133 | with two twins in the index, `Delete` marks the second (the one `Get` settles on) dead in the current sequence number |

## Left out

- The skip list's levels, towers, node allocation and `Insert2`/`Delete` internals. The index is a sorted sequence, and insert/delete placement is the assumption stated above.
- `SLIterator.Next`'s `helpDelete` succeeding (`skiplist_iter.go:52`, `63-64`). The walk takes the index delete to have unlinked the node before it returns, so the `helpDelete` in `Next` fails and the cursor re-seeks by key (`SkipList.WalkDropUnfold`). If a concurrent or unfinished delete leaves the node marked but linked, `helpDelete` can succeed and the cursor moves past it instead. `helpDelete` and the node marking behind it are not part of this model.
- `SkipList.DeleteWalk`, `MemStore.CollectDeadWalk`, `MemStore.RollbackWalk`: bound the result from above only, as a sub-multiset of the index. No lower bound is stated. Only twins lose it: an entry with no twin is removed exactly when it is rejected, a per-entry fact this model does not state as a lemma. After the entry under the cursor is deleted, the re-seek can bring the cursor back to a rejected twin, and deleting it a second time removes a further entry (`MemStore.CollectDeadWalkEmptiesKey`, `MemStore.RollbackWalkEmptiesKey`). Exactly what remains is stated without twins (`SkipList.DeleteWalkWithoutTies`).
- `MemStore.GC`, `MemStore.Close`: run the corrected `CollectDead`. The source runs the walk (`MemStore.CollectDeadWalk`), which agrees with it only when the index holds no twins. With twins, the collection the source performs can remove live versions that open snapshots read (see Findings).
- Concurrency: atomics, `isGCRunning`, and `GC` running in its own goroutine. `Close` runs `GC` synchronously.
- `MemStore.CollectDead`, `MemStore.Rollback`: state the corrected behaviour, in which the visited version itself is removed. The walks as written (`MemStore.CollectDeadWalk`, `MemStore.RollbackWalk`) agree with them only when the index holds no twins (see Findings). `MemStore.Rollback` leaves the counter unchanged, as the source does; `MemStore.RollbackRecount` is the correction (see Findings).
- `MemStoreProperties.GCPreservesSnapshotViews`: proved for `GC` with the corrected `collectDead`. For the walk as written it holds only when the index holds no twins (`MemStoreProperties.CollectDeadWalkPreservesViews`); with twins a snapshot can lose a live version (`Scenarios.TwinsConfuseCollectDead`).
- `MemStoreProperties.CloseLastReference`: proved with the corrected `collectDead`, so it inherits the restriction on `MemStoreProperties.GCPreservesSnapshotViews`.
- `MemStoreProperties.RollbackDiscardsLaterDeletes`: proved for the corrected `Rollback`. The walk as written agrees with it only when the index holds no twins (`MemStore.RollbackWalkWithoutTwins`); with twins it can keep a version deleted after the snapshot and drop the one the snapshot reads (`Scenarios.TwinsConfuseRollback`).
- `SnapshotIterator.Get`: requires a cursor that is not on the tail. The source's type assertion on the tail's empty item panics there.
- `NewIterator(nil)`, which builds a throw-away snapshot at the current sequence number. Only iterators over real snapshots are modelled.
- `DumpStats`, `DiskBlockSize`, `ErrNotEnoughSpace`, `NewItem`/`Bytes`, `NewWriter`, the random level generator, and the other `luxsrv`, `replica`, `cluster*`, `perf` and `client` files. None of them is part of this model.
- The 32- and 64-bit wrap of `refCount` (`int32`) and `count` (`int64`). Both are unbounded integers here.
- The snapshot index stores snapshot pointers, so a reference count changed through one handle is seen through all of them. Snapshots are values here, and the index's copies are keyed only by sequence number.
- `SkipList.Next`: moving past the tail (the tail's successor) is not modelled; `Next` requires a cursor that is not on the tail.
- `ByteItem.Key`, `ByteItem.Value`, `ByteItem.KeyCompare`: require a well-formed record whose header does not point past its end. Go lets `buf[0:2]` and `buf[2:valOffset]` reach past the length up to the capacity, so on a short record `Key` may return bytes from beyond the record; `Value`'s `buf[valOffset:]` panics past the length. Every record `newByteItem` builds is well-formed (`ByteItem.KeyOfNewByteItem`), so the requirement holds wherever the front end creates records.
- `MemStoreProperties.PutThenGet`: requires every version of the key already in the index to be born before the current sequence number. This excludes two cases.
  - A version born in the current sequence number. Then `Get` returns the older of the two same-sequence-number versions (`Scenarios.PutTwiceInOneSequenceNumber`).
  - A version born after the current sequence number. Such versions exist once the 32-bit current sequence number has wrapped. The new version is then placed before them, and the source's `Get` returns the version from before the wrap, not the one just written.
- `Scenarios.PutTwiceInOneSequenceNumber`: the front end's `luxsrv/mem_storage.go` (lines 43-61 and 139-143) never takes a snapshot, so all its writes share sequence number 1. A SET of an existing key would then leave GET returning the first value. This is not listed as a finding. The outcome rests on how `Insert2` places a new element among elements comparing equal, and `Insert2` is not part of this model. The model places it before them; an insert that places it after them, or refuses it, gives another result.
- `MemStoreProperties.DeleteKeepsCount`: requires a current sequence number other than 0, and no dead version born in the current sequence number.
  - At 0, after the 32-bit wrap, marking a version dead leaves its `deadSn` at 0. It then still counts as alive while the counter drops.
  - The index unlink removes the first version with the same key and birth sequence number. If a dead twin comes first, that twin goes instead of the alive version.
- `MemStoreProperties.SnapshotCountsItsView`: requires that no version was born or died after the current sequence number, which holds until the 32-bit wrap.
- `MemStoreProperties.GCPreservesSnapshotViews`: covers only snapshots present in the sorted snapshot index.
- `MemStore.DeleteThenGetAndDelete`: covers the marking case only, and needs a current sequence number other than 0. After an unlink, an older version of the key may become the latest again (`Scenarios.PutSnapshotPutDelete`).

## Findings

| source | as written | input that shows it | evidently intended | confidence | as-written member | corrected member |
|---|---|---|---|---|---|---|
| memstore/memstore.go:317-318 | `collectDead` removes a dead version by calling the index delete with the insert comparator, which removes the first entry with the same key and the same birth sequence number | put `k`→`v1` and `k`→`v2` in sequence number 1, snapshot, delete `k` (marks the `v1` version dead at 2), then collect up to 2 as `GC` does for an oldest snapshot at 3: the live `v2` version is removed and the dead `v1` version stays, so snapshot 3 reads no `k`. Alternatively, after the delete, put `k`→`v3` at 2, snapshot, and delete `k` (marks `v3` dead at 3). Collecting up to 3 then removes all three versions, the live `v2` one included | remove the dead version the walk is visiting | medium, not executed; relies on the index delete removing the first entry that compares equal, which is how the model reads it, and on `Insert2` accepting an element that compares equal under the insert comparator | MemStore.CollectDeadWalk, MemStore.CollectDeadWalkDropsLiveTwin, MemStore.CollectDeadWalkEmptiesKey, Scenarios.TwinsConfuseCollectDead, Scenarios.TwinsAndLaterVersionEmptyKey | MemStore.CollectDead, MemStoreProperties.GCPreservesSnapshotViews |
| memstore/memstore.go:301-302 | `Rollback` removes a rejected version the same way, through the insert comparator | the same puts, snapshot at 1 and delete, then roll back to snapshot 1: the `v2` version, never deleted, is removed and the `v1` version, dead at 2, stays although the store is rewound to 1. With a put of `k`→`v3` at 2 before the rollback, all three versions are removed, although snapshot 1 read `v2` | remove the rejected version the walk is visiting | medium, not executed; relies on the same reading of the index delete, and on `Insert2` accepting an element that compares equal under the insert comparator | MemStore.RollbackWalk, MemStore.RollbackWalkDropsKeptTwin, MemStore.RollbackWalkEmptiesKey, Scenarios.TwinsConfuseRollback, Scenarios.TwinsAndLaterVersionRollback | MemStore.Rollback, MemStoreProperties.RollbackDiscardsLaterDeletes |
| memstore/memstore.go:294-308 | `Rollback` removes the versions born after the snapshot but never lowers `count`, which `Put` raised for each of them | on an empty store, take snapshot 1, put `k`→`v` at 2, and roll back to snapshot 1: the index is empty but `ItemsCount` is 1, and the next snapshot pins a count of 1 | lower `count` once for every alive version the rollback removes | medium, not executed | MemStore.Rollback, MemStoreProperties.RollbackCountIffNoLaterAlive, Scenarios.RollbackLeavesCountStale | MemStore.RollbackRecount, MemStoreProperties.RollbackRecountKeepsCount |
