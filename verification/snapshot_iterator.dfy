/**
 The MVCC iterator: a skip-list cursor paired with an open snapshot that
 steps over the versions the snapshot must not see (`skipUnwanted`) after
 every movement.
 */
module SnapshotIterator {
  import opened Wrappers
  import opened Order
  import SkipList
  import opened MemStore

  datatype Iterator = Iterator(snap: Snapshot, cursor: SkipList.Cursor)

  /** The test `skipUnwanted` applies: born after the snapshot, or dead at
      or before it. */
  predicate Unwanted<D>(x: Item<D>, sn: uint32) {
    x.bornSn > sn || (x.deadSn > 0 && x.deadSn <= sn)
  }

  /** `skipUnwanted`: advances while the cursor is valid and on an unwanted
      version. It stops exhausted or on a version visible to the snapshot,
      and passes over invisible versions only. */
  function SkipUnwanted<D>(items: seq<Item<D>>, it: Iterator): (r: Iterator)
    requires it.cursor.curr <= |items|
    ensures r.snap == it.snap
    ensures it.cursor.curr <= r.cursor.curr <= |items|
    ensures r.cursor.valid ==> r.cursor.curr < |items| && Visible(items[r.cursor.curr], it.snap.sn)
    ensures !r.cursor.valid ==> r.cursor.curr == |items| || !it.cursor.valid
    ensures it.cursor.valid ==> forall k :: it.cursor.curr <= k < r.cursor.curr ==>
              !Visible(items[k], it.snap.sn)
    ensures SkipList.Linked(items, it.cursor) ==> SkipList.Linked(items, r.cursor)
    decreases |items| - it.cursor.curr
  {
    var (c, ok) := SkipList.Valid(items, it.cursor);
    if !ok then it.(cursor := c)
    else if Unwanted(items[c.curr], it.snap.sn) then
      SkipUnwanted(items, it.(cursor := SkipList.Next(items, c)))
    else it.(cursor := c)
  }

  /** `Iterator.SeekFirst`: the first version visible to the snapshot. */
  function SeekFirst<D>(items: seq<Item<D>>, it: Iterator): (r: Iterator)
    ensures r.snap == it.snap && SkipList.Linked(items, r.cursor)
    ensures r.cursor.valid <==> r.cursor.curr < |items|
    ensures r.cursor.valid ==> Visible(items[r.cursor.curr], it.snap.sn)
    ensures forall k :: 0 <= k < r.cursor.curr ==> !Visible(items[k], it.snap.sn)
  {
    SkipUnwanted(items, it.(cursor := SkipList.SeekFirst(items)))
  }

  /** `Iterator.Seek(x)`: the first visible version whose key is not less
      than `x`. */
  function Seek<D(!new)>(keyCmp: (D, D) -> int, items: seq<Item<D>>, it: Iterator, x: D): (r: Iterator)
    ensures r.snap == it.snap && SkipList.Linked(items, r.cursor)
    ensures r.cursor.valid <==> r.cursor.curr < |items|
    ensures r.cursor.valid ==> Visible(items[r.cursor.curr], it.snap.sn)
    ensures TotalPreorder(keyCmp) && KeysSorted(keyCmp, items) && r.cursor.valid ==>
              keyCmp(items[r.cursor.curr].data, x) >= 0
    ensures forall k :: 0 <= k < r.cursor.curr ==>
              keyCmp(items[k].data, x) < 0 || !Visible(items[k], it.snap.sn)
  {
    var (c, _) := SkipList.Seek(items, IterCmp(keyCmp), Item(x, 0, 0));
    var r := SkipUnwanted(items, it.(cursor := c));
    assert TotalPreorder(keyCmp) && KeysSorted(keyCmp, items) && r.cursor.valid ==>
             keyCmp(items[r.cursor.curr].data, x) >= 0 by {
      if TotalPreorder(keyCmp) && KeysSorted(keyCmp, items) {
        NotLessStaysNotLess(keyCmp, items, x, c.curr, r.cursor.curr);
      }
    }
    r
  }

  /** In key order, everything at or after a key not less than `x` is not
      less than `x` either. */
  lemma NotLessStaysNotLess<D(!new)>(keyCmp: (D, D) -> int, items: seq<Item<D>>, x: D, i: nat, k: nat)
    requires TotalPreorder(keyCmp) && KeysSorted(keyCmp, items)
    requires i <= k <= |items|
    requires i < |items| ==> keyCmp(items[i].data, x) >= 0
    ensures k < |items| ==> keyCmp(items[k].data, x) >= 0
  {
    if k == |items| {
      return;
    }
    var a, b := items[i].data, items[k].data;
    assert keyCmp(x, a) <= 0;
    if i < k {
      assert keyCmp(a, b) <= 0;
    }
    assert keyCmp(x, b) <= 0;
  }

  /** `Iterator.Next`: the next visible version after the current one. */
  function Next<D>(items: seq<Item<D>>, it: Iterator): (r: Iterator)
    requires it.cursor.curr < |items|
    ensures r.snap == it.snap && SkipList.Linked(items, r.cursor)
    ensures it.cursor.curr < r.cursor.curr
    ensures r.cursor.valid <==> r.cursor.curr < |items|
    ensures r.cursor.valid ==> Visible(items[r.cursor.curr], it.snap.sn)
    ensures forall k :: it.cursor.curr < k < r.cursor.curr ==> !Visible(items[k], it.snap.sn)
  {
    SkipUnwanted(items, it.(cursor := SkipList.Next(items, it.cursor)))
  }

  function Valid<D>(items: seq<Item<D>>, it: Iterator): (r: (Iterator, bool))
    requires it.cursor.curr <= |items|
    ensures r.0.snap == it.snap && r.0.cursor.curr == it.cursor.curr
    ensures r.1 ==> it.cursor.curr < |items|
    ensures r.1 <==> r.0.cursor.valid
  {
    var (c, ok) := SkipList.Valid(items, it.cursor);
    (it.(cursor := c), ok)
  }

  /** `Iterator.Get`: the version under the cursor. The tail holds no
      version, and the source's type assertion on it fails, so the cursor
      must be on an element. */
  function Get<D>(items: seq<Item<D>>, it: Iterator): (r: Item<D>)
    requires it.cursor.curr < |items|
    ensures SkipList.Get(items, it.cursor) == Some(r)
    ensures r in items
  {
    SkipList.Get(items, it.cursor).value
  }

  /** `NewIterator(snap)`: takes a reference on the snapshot, or fails when
      the snapshot is already closed. The cursor is not positioned until a
      seek. */
  function NewIterator(snap: Snapshot): (r: Option<Iterator>)
    ensures r.None? <==> snap.refCount == 0
    ensures r.Some? ==> r.value.snap.refCount == snap.refCount + 1 && r.value.snap.sn == snap.sn
    ensures r.Some? ==> !r.value.cursor.valid
  {
    var (s, ok) := Open(snap);
    if ok then Some(Iterator(s, SkipList.Cursor(-1, 0, false))) else None
  }

  /** `Iterator.Close`: releases the iterator's snapshot reference. */
  function Close<D(!new)>(st: Store<D>, it: Iterator): (r: (Store<D>, Snapshot))
    ensures r.1.refCount == it.snap.refCount - 1
    ensures r.1.refCount != 0 ==> r.0 == st
  {
    MemStore.Close(st, it.snap)
  }

  /** What `for it.SeekFirst(); it.Valid(); it.Next() { it.Get() }` reads
      from the current position on. */
  function Walk<D>(items: seq<Item<D>>, it: Iterator): (r: seq<Item<D>>)
    requires it.cursor.curr <= |items|
    ensures |r| <= |items| - it.cursor.curr
    decreases |items| - it.cursor.curr
  {
    var (it1, ok) := Valid(items, it);
    if !ok then [] else [Get(items, it1)] + Walk(items, Next(items, it1))
  }

  lemma {:induction false} WalkFromSkip<D(!new)>(items: seq<Item<D>>, it: Iterator)
    requires it.cursor.curr <= |items| && it.cursor.valid
    ensures Walk(items, SkipUnwanted(items, it)) == View(items[it.cursor.curr..], it.snap.sn)
    decreases |items| - it.cursor.curr
  {
    var sn := it.snap.sn;
    var i := it.cursor.curr;
    if i < |items| {
      var n := SkipList.Next(items, it.cursor);
      ViewStep(items, i, sn);
      WalkStep(items, it);
      WalkFromSkip(items, it.(cursor := n));
    }
  }

  /** The view of a suffix: its first version, when visible, then the view
      of the rest. */
  lemma ViewStep<D(!new)>(items: seq<Item<D>>, i: nat, sn: uint32)
    requires i < |items|
    ensures View(items[i..], sn) ==
            (if Visible(items[i], sn) then [items[i]] else []) + View(items[i + 1..], sn)
  {
    assert items[i..][1..] == items[i + 1..];
  }

  /** One step of the walk from a valid cursor: an unwanted version is
      skipped, a visible one is read before moving on. */
  lemma WalkStep<D>(items: seq<Item<D>>, it: Iterator)
    requires it.cursor.curr < |items| && it.cursor.valid
    ensures var n := it.(cursor := SkipList.Next(items, it.cursor));
            Walk(items, SkipUnwanted(items, it)) ==
            if Unwanted(items[it.cursor.curr], it.snap.sn) then Walk(items, SkipUnwanted(items, n))
            else [items[it.cursor.curr]] + Walk(items, SkipUnwanted(items, n))
  {
    var n := it.(cursor := SkipList.Next(items, it.cursor));
    if Unwanted(items[it.cursor.curr], it.snap.sn) {
      assert SkipUnwanted(items, it) == SkipUnwanted(items, n);
    } else {
      assert SkipUnwanted(items, it) == it;
    }
  }

  /** Iterating a snapshot from the first position reads exactly the
      versions visible to it, each once, in index order: none born after
      the snapshot, none dead at or before it. */
  lemma IterationReadsSnapshotView<D(!new)>(items: seq<Item<D>>, it: Iterator)
    ensures Walk(items, SeekFirst(items, it)) == View(items, it.snap.sn)
  {
    WalkFromSkip(items, it.(cursor := SkipList.SeekFirst(items)));
    assert items[0..] == items;
  }
}
