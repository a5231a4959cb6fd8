/**
 The MVCC layer of memstore: versioned items in an index sorted by key and
 then by birth sequence number, the writer's Put/Get/Delete, reference-counted
 snapshots, garbage collection of dead versions, and rollback.

 The key comparator (`SetKeyComparator`) is a parameter of every operation
 that needs it; the lemmas assume it is a total preorder on keys. Sequence
 numbers are 32-bit and wrap; the item and reference counters are unbounded.
 */
module MemStore {
  import opened Wrappers
  import opened Order
  import SkipList

  const SnRange := 0x1_0000_0000

  type uint32 = x: int | 0 <= x < 0x1_0000_0000

  /** A version: the key-and-value blob, the sequence number it was born at,
      and the one it died at (0 while alive). */
  datatype Item<D> = Item(data: D, bornSn: uint32, deadSn: uint32)

  datatype Snapshot = Snapshot(sn: uint32, refCount: int, count: int)

  /** `MemStore`: the item index, the current sequence number, the snapshot
      index ordered by `sn`, the last collected sequence number and the
      alive-item counter. */
  datatype Store<D> = Store(items: seq<Item<D>>, currSn: uint32, snapshots: seq<Snapshot>,
                            lastGCSn: uint32, count: int)

  /** `newInsertCompare`: by key, then by ascending birth sequence number. */
  function InsertCompare<D>(keyCmp: (D, D) -> int, a: Item<D>, b: Item<D>): (r: int)
    ensures keyCmp(a.data, b.data) != 0 ==> r == keyCmp(a.data, b.data)
    ensures keyCmp(a.data, b.data) == 0 ==> (r < 0 <==> a.bornSn < b.bornSn) && (r == 0 <==> a.bornSn == b.bornSn)
  {
    var v := keyCmp(a.data, b.data);
    if v == 0 then a.bornSn - b.bornSn else v
  }

  function InsCmp<D>(keyCmp: (D, D) -> int): (r: (Item<D>, Item<D>) -> int) {
    (a: Item<D>, b: Item<D>) => InsertCompare(keyCmp, a, b)
  }

  /** `newIterCompare`: by key only. */
  function IterCmp<D>(keyCmp: (D, D) -> int): (r: (Item<D>, Item<D>) -> int) {
    (a: Item<D>, b: Item<D>) => keyCmp(a.data, b.data)
  }

  /** `CompareSnapshot`: by pinned sequence number. */
  function SnapCompare(a: Snapshot, b: Snapshot): (r: int)
    ensures r < 0 <==> a.sn < b.sn
    ensures r == 0 <==> a.sn == b.sn
  {
    a.sn - b.sn
  }

  /** The insert comparator orders versions of different keys as the key
      comparator does and versions of one key by ascending birth, and it is
      a total preorder whenever the key comparator is. */
  lemma InsertCompareIsOrder<D(!new)>(keyCmp: (D, D) -> int)
    requires TotalPreorder(keyCmp)
    ensures TotalPreorder(InsCmp(keyCmp))
    ensures forall a: Item<D>, b: Item<D> :: keyCmp(a.data, b.data) < 0 ==> InsCmp(keyCmp)(a, b) < 0
    ensures forall a: Item<D>, b: Item<D> :: keyCmp(a.data, b.data) == 0 ==>
              (InsCmp(keyCmp)(a, b) <= 0 <==> a.bornSn <= b.bornSn)
  {
    var ins := InsCmp(keyCmp);
    forall a, b ensures ins(a, b) < 0 <==> ins(b, a) > 0 {
      assert keyCmp(a.data, b.data) < 0 <==> keyCmp(b.data, a.data) > 0;
      assert keyCmp(b.data, a.data) < 0 <==> keyCmp(a.data, b.data) > 0;
    }
    forall a, b, c | ins(a, b) <= 0 && ins(b, c) <= 0 ensures ins(a, c) <= 0 {
      assert keyCmp(a.data, b.data) <= 0 && keyCmp(b.data, c.data) <= 0;
      assert keyCmp(a.data, c.data) <= 0;
      if keyCmp(a.data, c.data) == 0 {
        assert keyCmp(c.data, a.data) == 0;
        assert keyCmp(b.data, a.data) <= 0;
        assert keyCmp(c.data, b.data) <= 0;
      }
    }
  }

  /** The iteration comparator sees keys only: changing the birth and death
      sequence numbers of either version never changes the comparison, and
      versions of one key compare equal, where the insert comparator orders
      them by birth. Wherever it tells two versions apart, the insert
      comparator does so the same way. */
  lemma IterCompareIgnoresVersions<D>(keyCmp: (D, D) -> int, a: Item<D>, b: Item<D>,
                                      m: uint32, n: uint32, m': uint32, n': uint32)
    ensures IterCmp(keyCmp)(a.(bornSn := m, deadSn := n), b.(bornSn := m', deadSn := n')) ==
            IterCmp(keyCmp)(a, b)
    ensures keyCmp(a.data, b.data) == 0 ==>
              IterCmp(keyCmp)(a, b) == 0 && InsCmp(keyCmp)(a, b) == a.bornSn - b.bornSn
    ensures IterCmp(keyCmp)(a, b) != 0 ==> InsCmp(keyCmp)(a, b) == IterCmp(keyCmp)(a, b)
  {
  }

  /** Inserting a version keeps the index sorted. */
  lemma InsertKeepsSorted<D(!new)>(keyCmp: (D, D) -> int, items: seq<Item<D>>, n: Item<D>)
    requires TotalPreorder(keyCmp) && Sorted(items, InsCmp(keyCmp))
    ensures Sorted(SkipList.Insert(items, InsCmp(keyCmp), n), InsCmp(keyCmp))
  {
    InsertCompareIsOrder(keyCmp);
    SkipList.InsertSorted(items, InsCmp(keyCmp), n);
  }

  /** Everything from a version's insertion point on sorts after it. */
  lemma AfterInsertionPoint<D(!new)>(keyCmp: (D, D) -> int, items: seq<Item<D>>, n: Item<D>, j: int)
    requires TotalPreorder(keyCmp) && Sorted(items, InsCmp(keyCmp))
    requires SkipList.FirstNotLess(items, InsCmp(keyCmp), n) <= j < |items|
    ensures InsertCompare(keyCmp, items[j], n) >= 0
  {
    InsertCompareIsOrder(keyCmp);
    SkipList.FirstNotLessSorted(items, InsCmp(keyCmp), n, j);
  }

  /** A version that is in the index is found by the index's delete. */
  lemma IndexDeleteFinds<D(!new)>(keyCmp: (D, D) -> int, items: seq<Item<D>>, j: int)
    requires TotalPreorder(keyCmp) && Sorted(items, InsCmp(keyCmp)) && 0 <= j < |items|
    ensures SkipList.Delete(items, InsCmp(keyCmp), items[j]).1
  {
    InsertCompareIsOrder(keyCmp);
    Reflexive(InsCmp(keyCmp), items[j]);
    SkipList.DeleteFinds(items, InsCmp(keyCmp), items[j], j);
  }

  /** Keys are in ascending order along the index. */
  ghost predicate KeysSorted<D>(keyCmp: (D, D) -> int, items: seq<Item<D>>) {
    forall i, j :: 0 <= i < j < |items| ==> keyCmp(items[i].data, items[j].data) <= 0
  }

  /** The insert order refines the key order. */
  lemma InsertOrderSortsKeys<D>(keyCmp: (D, D) -> int, items: seq<Item<D>>)
    requires Sorted(items, InsCmp(keyCmp))
    ensures KeysSorted(keyCmp, items)
  {
    forall i, j | 0 <= i < j < |items| ensures keyCmp(items[i].data, items[j].data) <= 0 {
      assert InsCmp(keyCmp)(items[i], items[j]) <= 0;
    }
  }

  /** The store's structural invariant: both indexes sorted. */
  ghost predicate Inv<D(!new)>(keyCmp: (D, D) -> int, st: Store<D>) {
    Sorted(st.items, InsCmp(keyCmp)) && Sorted(st.snapshots, SnapCompare)
  }

  /** `New`: empty indexes, sequence numbers start at 1. */
  function New<D>(): (st: Store<D>)
    ensures st.items == [] && st.snapshots == []
    ensures st.currSn == 1 && st.count == 0
  {
    Store([], 1, [], 0, 0)
  }

  /** `ItemsCount`: the alive-item counter that `Put` raises and a
      successful `Delete` lowers. */
  function ItemsCount<D>(st: Store<D>): (n: int)
    ensures n == st.count
  {
    st.count
  }

  /** The versions no delete has marked. */
  function Alive<D>(): (p: Item<D> -> bool) {
    (x: Item<D>) => x.deadSn == 0
  }

  /** The counter agrees with the index: it is the number of versions no
      delete has marked. */
  ghost predicate CountsAlive<D>(st: Store<D>) {
    st.count == |Filter(st.items, Alive())|
  }

  /** `Writer.Put`: stamps the version with the current sequence number and
      inserts it; one more alive item. */
  function Put<D>(keyCmp: (D, D) -> int, st: Store<D>, x: D): (r: Store<D>)
    ensures multiset(r.items) == multiset(st.items) + multiset{Item(x, st.currSn, 0)}
    ensures r.count == st.count + 1
    ensures r.currSn == st.currSn && r.snapshots == st.snapshots && r.lastGCSn == st.lastGCSn
  {
    st.(items := SkipList.Insert(st.items, InsCmp(keyCmp), Item(x, st.currSn, 0)),
        count := st.count + 1)
  }

  /** The walk of `Writer.Get` after the seek: from position `i` forward
      while the next item's key compares equal to the current one's. */
  function RunEnd<D>(keyCmp: (D, D) -> int, items: seq<Item<D>>, i: nat): (j: nat)
    requires i < |items|
    ensures i <= j < |items|
    ensures forall k :: i < k <= j ==> keyCmp(items[k].data, items[k - 1].data) == 0
    ensures j + 1 < |items| ==> keyCmp(items[j + 1].data, items[j].data) != 0
    decreases |items| - i
  {
    if i + 1 < |items| && keyCmp(items[i + 1].data, items[i].data) == 0
    then RunEnd(keyCmp, items, i + 1)
    else i
  }

  /** Position of the version `Writer.Get` settles on: seek the first item
      whose key is not less than `x`; if it compares equal, the end of its run. */
  function LatestIndex<D>(keyCmp: (D, D) -> int, items: seq<Item<D>>, x: D): (r: Option<nat>)
    ensures r.Some? ==> r.value < |items|
  {
    var (c, found) := SkipList.Seek(items, IterCmp(keyCmp), Item(x, 0, 0));
    if found then Some(RunEnd(keyCmp, items, c.curr)) else None
  }

  /** `Writer.Get`: the latest version of the key, unless it is dead. */
  function Get<D>(keyCmp: (D, D) -> int, st: Store<D>, x: D): (r: Option<Item<D>>)
    ensures r.Some? ==> r.value in st.items && r.value.deadSn == 0
  {
    match LatestIndex(keyCmp, st.items, x)
    case None => None
    case Some(j) => if st.items[j].deadSn != 0 then None else Some(st.items[j])
  }

  /** `j` is the last position whose key compares equal to `x`. */
  ghost predicate IsLatest<D>(keyCmp: (D, D) -> int, items: seq<Item<D>>, x: D, j: int) {
    && 0 <= j < |items|
    && keyCmp(items[j].data, x) == 0
    && forall k :: j < k < |items| ==> keyCmp(items[k].data, x) != 0
  }

  /** Past a key greater than `x`, no key equals `x`. */
  lemma AboveStaysAbove<D(!new)>(keyCmp: (D, D) -> int, items: seq<Item<D>>, x: D, i: int, k: int)
    requires TotalPreorder(keyCmp) && KeysSorted(keyCmp, items)
    requires 0 <= i <= k < |items| && keyCmp(items[i].data, x) > 0
    ensures keyCmp(items[k].data, x) != 0
  {
    if i < k {
      assert keyCmp(items[i].data, items[k].data) <= 0;
    }
  }

  /** Once the run of keys equal to `x` has ended, no later key equals `x`. */
  lemma RunEndIsLast<D(!new)>(keyCmp: (D, D) -> int, items: seq<Item<D>>, x: D, j: int, k: int)
    requires TotalPreorder(keyCmp) && KeysSorted(keyCmp, items)
    requires 0 <= j && j + 1 <= k < |items|
    requires keyCmp(items[j].data, x) == 0
    requires keyCmp(items[j + 1].data, items[j].data) != 0
    ensures keyCmp(items[k].data, x) != 0
  {
    var a, b, e := items[j].data, items[j + 1].data, items[k].data;
    assert keyCmp(a, b) <= 0;
    assert keyCmp(b, e) <= 0 by {
      if j + 1 < k {
        assert keyCmp(items[j + 1].data, items[k].data) <= 0;
      } else {
        Reflexive(keyCmp, b);
      }
    }
    // b lies between a and e; a compares equal to x, b not to a, so e cannot.
    assert keyCmp(x, b) <= 0;
  }

  /** In a sorted index the seek-and-walk lands exactly on the last version
      of the key, and finds nothing exactly when no version compares equal. */
  lemma LatestIndexCorrect<D(!new)>(keyCmp: (D, D) -> int, items: seq<Item<D>>, x: D)
    requires TotalPreorder(keyCmp) && Sorted(items, InsCmp(keyCmp))
    ensures LatestIndex(keyCmp, items, x).None? <==>
              forall k :: 0 <= k < |items| ==> keyCmp(items[k].data, x) != 0
    ensures LatestIndex(keyCmp, items, x).Some? ==>
              IsLatest(keyCmp, items, x, LatestIndex(keyCmp, items, x).value)
  {
    InsertOrderSortsKeys(keyCmp, items);
    LatestIndexByKeys(keyCmp, items, x);
  }

  /** `LatestIndexCorrect` needing only the keys to be in order. */
  lemma LatestIndexByKeys<D(!new)>(keyCmp: (D, D) -> int, items: seq<Item<D>>, x: D)
    requires TotalPreorder(keyCmp) && KeysSorted(keyCmp, items)
    ensures LatestIndex(keyCmp, items, x).None? <==>
              forall k :: 0 <= k < |items| ==> keyCmp(items[k].data, x) != 0
    ensures LatestIndex(keyCmp, items, x).Some? ==>
              IsLatest(keyCmp, items, x, LatestIndex(keyCmp, items, x).value)
  {
    var (c, found) := SkipList.Seek(items, IterCmp(keyCmp), Item(x, 0, 0));
    var i := c.curr;
    assert forall k :: 0 <= k < i ==> keyCmp(items[k].data, x) < 0;
    if !found {
      NoneEqualFrom(keyCmp, items, x, i);
    } else {
      RunEndIsLatest(keyCmp, items, x, i);
    }
  }

  lemma NoneEqualFrom<D(!new)>(keyCmp: (D, D) -> int, items: seq<Item<D>>, x: D, i: int)
    requires TotalPreorder(keyCmp) && KeysSorted(keyCmp, items)
    requires 0 <= i <= |items| && (i < |items| ==> keyCmp(items[i].data, x) > 0)
    ensures forall k :: i <= k < |items| ==> keyCmp(items[k].data, x) != 0
  {
    forall k | i <= k < |items| ensures keyCmp(items[k].data, x) != 0 {
      AboveStaysAbove(keyCmp, items, x, i, k);
    }
  }

  /** From any version of `x`, the run walk ends on the last one. */
  lemma {:induction false} RunEndIsLatest<D(!new)>(keyCmp: (D, D) -> int, items: seq<Item<D>>, x: D, i: nat)
    requires TotalPreorder(keyCmp) && KeysSorted(keyCmp, items)
    requires i < |items| && keyCmp(items[i].data, x) == 0
    ensures IsLatest(keyCmp, items, x, RunEnd(keyCmp, items, i))
    decreases |items| - i
  {
    if i + 1 < |items| && keyCmp(items[i + 1].data, items[i].data) == 0 {
      SameKey(keyCmp, items[i + 1].data, items[i].data, x);
      RunEndIsLatest(keyCmp, items, x, i + 1);
    } else {
      NoneEqualAfter(keyCmp, items, x, i);
    }
  }

  /** Comparing equal is transitive. */
  lemma SameKey<D(!new)>(keyCmp: (D, D) -> int, a: D, b: D, x: D)
    requires TotalPreorder(keyCmp)
    requires keyCmp(a, b) == 0 && keyCmp(b, x) == 0
    ensures keyCmp(a, x) == 0
  {
    assert keyCmp(b, a) == 0;
    assert keyCmp(x, b) == 0;
    assert keyCmp(a, x) <= 0 && keyCmp(x, a) <= 0;
  }

  lemma NoneEqualAfter<D(!new)>(keyCmp: (D, D) -> int, items: seq<Item<D>>, x: D, j: nat)
    requires TotalPreorder(keyCmp) && KeysSorted(keyCmp, items)
    requires j < |items| && keyCmp(items[j].data, x) == 0
    requires j + 1 < |items| ==> keyCmp(items[j + 1].data, items[j].data) != 0
    ensures forall k :: j < k < |items| ==> keyCmp(items[k].data, x) != 0
  {
    forall k | j < k < |items| ensures keyCmp(items[k].data, x) != 0 {
      RunEndIsLast(keyCmp, items, x, j, k);
    }
  }

  lemma IsLatestUnique<D>(keyCmp: (D, D) -> int, items: seq<Item<D>>, x: D, j: int, j': int)
    requires IsLatest(keyCmp, items, x, j) && IsLatest(keyCmp, items, x, j')
    ensures j == j'
  {
  }

  /** The last version of a key has the largest birth sequence number. */
  lemma LatestIsNewest<D(!new)>(keyCmp: (D, D) -> int, items: seq<Item<D>>, x: D, j: int, k: int)
    requires TotalPreorder(keyCmp) && Sorted(items, InsCmp(keyCmp))
    requires IsLatest(keyCmp, items, x, j)
    requires 0 <= k < |items| && keyCmp(items[k].data, x) == 0
    ensures items[k].bornSn <= items[j].bornSn
  {
    if k < j {
      assert InsCmp(keyCmp)(items[k], items[j]) <= 0;
      assert keyCmp(items[k].data, items[j].data) == 0;
    }
  }

  /** `Writer.Get` returns the newest version of the key — no version of
      the key was born later — and nothing when the key has no version or
      its newest version is dead. */
  lemma GetReturnsNewestVersion<D(!new)>(keyCmp: (D, D) -> int, st: Store<D>, x: D)
    requires TotalPreorder(keyCmp) && Sorted(st.items, InsCmp(keyCmp))
    ensures Get(keyCmp, st, x).Some? <==>
              exists j :: IsLatest(keyCmp, st.items, x, j) && st.items[j].deadSn == 0
    ensures Get(keyCmp, st, x).Some? ==> keyCmp(Get(keyCmp, st, x).value.data, x) == 0
    ensures Get(keyCmp, st, x).Some? ==>
              forall k :: 0 <= k < |st.items| && keyCmp(st.items[k].data, x) == 0 ==>
                st.items[k].bornSn <= Get(keyCmp, st, x).value.bornSn
  {
    var items := st.items;
    LatestIndexCorrect(keyCmp, items, x);
    match LatestIndex(keyCmp, items, x)
    case None =>
      forall j | 0 <= j < |items| ensures !IsLatest(keyCmp, items, x, j) {
        assert keyCmp(items[j].data, x) != 0;
      }
    case Some(j) =>
      forall j' | IsLatest(keyCmp, items, x, j') ensures j' == j {
        IsLatestUnique(keyCmp, items, x, j, j');
      }
      forall k | 0 <= k < |items| && keyCmp(items[k].data, x) == 0
        ensures items[k].bornSn <= items[j].bornSn
      {
        LatestIsNewest(keyCmp, items, x, j, k);
      }
  }

  /** `Writer.Delete`: the latest alive version is removed from the index
      when it was born at the current sequence number, and otherwise marked
      dead at the current sequence number; one alive item fewer on success.
      The compare-and-swap of `deadSn` from 0 always succeeds here, since the
      version `Get` returns is alive. */
  function Delete<D>(keyCmp: (D, D) -> int, st: Store<D>, x: D): (r: (Store<D>, bool))
    ensures Get(keyCmp, st, x).None? ==> r == (st, false)
    ensures r.1 ==> Get(keyCmp, st, x).Some? && r.0.count == st.count - 1
    ensures !r.1 ==> r.0 == st
    ensures r.0.currSn == st.currSn && r.0.snapshots == st.snapshots && r.0.lastGCSn == st.lastGCSn
  {
    match LatestIndex(keyCmp, st.items, x)
    case None => (st, false)
    case Some(j) =>
      var v := st.items[j];
      if v.deadSn != 0 then (st, false)
      else if v.bornSn == st.currSn then
        var (items', ok) := SkipList.Delete(st.items, InsCmp(keyCmp), v);
        if ok then (st.(items := items', count := st.count - 1), true) else (st, false)
      else
        (st.(items := st.items[j := v.(deadSn := st.currSn)], count := st.count - 1), true)
  }

  /** A version born before the current sequence number is only marked:
      the latest version of the key gets `deadSn := currSn` in place. */
  lemma DeleteMarksLatest<D>(keyCmp: (D, D) -> int, st: Store<D>, x: D)
    requires Get(keyCmp, st, x).Some? && Get(keyCmp, st, x).value.bornSn != st.currSn
    ensures Delete(keyCmp, st, x).1 && LatestIndex(keyCmp, st.items, x).Some?
    ensures Delete(keyCmp, st, x).0.items ==
              st.items[LatestIndex(keyCmp, st.items, x).value :=
                         Get(keyCmp, st, x).value.(deadSn := st.currSn)]
  {
  }

  /** A version born in the current sequence number is unlinked: the
      index loses one entry, of the same key and birth sequence number. */
  lemma DeleteUnlinksNewVersion<D>(keyCmp: (D, D) -> int, st: Store<D>, x: D) returns (p: nat)
    requires Get(keyCmp, st, x).Some? && Get(keyCmp, st, x).value.bornSn == st.currSn
    requires Delete(keyCmp, st, x).1
    ensures p < |st.items| && st.items[p].bornSn == st.currSn
    ensures keyCmp(st.items[p].data, Get(keyCmp, st, x).value.data) == 0
    ensures Delete(keyCmp, st, x).0.items == st.items[..p] + st.items[p + 1..]
  {
    var v := Get(keyCmp, st, x).value;
    p := SkipList.FirstNotLess(st.items, InsCmp(keyCmp), v);
    assert InsertCompare(keyCmp, st.items[p], v) == 0;
  }

  /** In a sorted index the removal of a version born at the current
      sequence number always finds it. */
  lemma DeleteOfNewVersionSucceeds<D(!new)>(keyCmp: (D, D) -> int, st: Store<D>, x: D)
    requires TotalPreorder(keyCmp) && Sorted(st.items, InsCmp(keyCmp))
    requires Get(keyCmp, st, x).Some?
    ensures Delete(keyCmp, st, x).1
    ensures |Delete(keyCmp, st, x).0.items| ==
              if Get(keyCmp, st, x).value.bornSn == st.currSn then |st.items| - 1 else |st.items|
  {
    var j := LatestIndex(keyCmp, st.items, x).value;
    var v := st.items[j];
    if v.bornSn == st.currSn {
      IndexDeleteFinds(keyCmp, st.items, j);
    }
  }

  /** Marking a version dead changes neither key nor birth, so the index
      stays sorted and `Get` still settles on the same position. */
  lemma MarkDeadKeepsOrder<D(!new)>(keyCmp: (D, D) -> int, items: seq<Item<D>>, j: int, sn: uint32)
    requires Sorted(items, InsCmp(keyCmp)) && 0 <= j < |items|
    ensures Sorted(items[j := items[j].(deadSn := sn)], InsCmp(keyCmp))
  {
    var r := items[j := items[j].(deadSn := sn)];
    forall a, b | 0 <= a < b < |r| ensures InsCmp(keyCmp)(r[a], r[b]) <= 0 {
      assert InsCmp(keyCmp)(items[a], items[b]) <= 0;
    }
  }

  /** Marking the latest version dead leaves it the latest version. */
  lemma MarkDeadKeepsLatest<D(!new)>(keyCmp: (D, D) -> int, items: seq<Item<D>>, x: D, sn: uint32)
    requires TotalPreorder(keyCmp) && Sorted(items, InsCmp(keyCmp))
    requires LatestIndex(keyCmp, items, x).Some?
    ensures var j := LatestIndex(keyCmp, items, x).value;
            LatestIndex(keyCmp, items[j := items[j].(deadSn := sn)], x) == Some(j)
  {
    var j := LatestIndex(keyCmp, items, x).value;
    var items' := items[j := items[j].(deadSn := sn)];
    LatestIndexCorrect(keyCmp, items, x);
    MarkDeadKeepsIsLatest(keyCmp, items, x, j, sn);
    MarkDeadKeepsOrder(keyCmp, items, j, sn);
    LatestIndexCorrect(keyCmp, items', x);
    IsLatestUnique(keyCmp, items', x, j, LatestIndex(keyCmp, items', x).value);
  }

  /** Marking changes no key, so the last version of `x` stays the last. */
  lemma MarkDeadKeepsIsLatest<D>(keyCmp: (D, D) -> int, items: seq<Item<D>>, x: D, j: int, sn: uint32)
    requires IsLatest(keyCmp, items, x, j)
    ensures IsLatest(keyCmp, items[j := items[j].(deadSn := sn)], x, j)
  {
    var items' := items[j := items[j].(deadSn := sn)];
    assert forall k :: 0 <= k < |items| ==> items'[k].data == items[k].data;
  }

  /** Once a key's newest version has been marked dead, `Get` finds nothing
      and a second `Delete` fails and changes nothing. */
  lemma DeleteThenGetAndDelete<D(!new)>(keyCmp: (D, D) -> int, st: Store<D>, x: D)
    requires TotalPreorder(keyCmp) && Sorted(st.items, InsCmp(keyCmp))
    requires Get(keyCmp, st, x).Some? && Get(keyCmp, st, x).value.bornSn != st.currSn
    requires st.currSn != 0
    ensures Get(keyCmp, Delete(keyCmp, st, x).0, x).None?
    ensures Delete(keyCmp, Delete(keyCmp, st, x).0, x) == (Delete(keyCmp, st, x).0, false)
  {
    DeleteMarksLatest(keyCmp, st, x);
    MarkDeadKeepsLatest(keyCmp, st.items, x, st.currSn);
  }

  /** A version is visible at snapshot `sn` when born at or before it and
      not dead at or before it. */
  predicate Visible<D>(x: Item<D>, sn: uint32) {
    x.bornSn <= sn && (x.deadSn == 0 || x.deadSn > sn)
  }

  function VisibleAt<D>(sn: uint32): (p: Item<D> -> bool) {
    (x: Item<D>) => Visible(x, sn)
  }

  /** What an iterator over snapshot `sn` reads: the visible versions in index order. */
  function View<D(!new)>(items: seq<Item<D>>, sn: uint32): (r: seq<Item<D>>)
    ensures forall x :: x in r ==> x in items && Visible(x, sn)
  {
    Filter(items, VisibleAt(sn))
  }

  /** `NewSnapshot`: pins the current sequence number and item count with one
      reference, enters the snapshot index, then advances the sequence number. */
  function NewSnapshot<D>(st: Store<D>): (r: (Store<D>, Snapshot))
    ensures r.1.sn == st.currSn && r.1.refCount == 1 && r.1.count == st.count
    ensures multiset(r.0.snapshots) == multiset(st.snapshots) + multiset{r.1}
    ensures r.0.currSn == (st.currSn + 1) % SnRange
    ensures r.0.items == st.items && r.0.count == st.count && r.0.lastGCSn == st.lastGCSn
  {
    var snap := Snapshot(st.currSn, 1, st.count);
    (st.(snapshots := SkipList.Insert(st.snapshots, SnapCompare, snap),
         currSn := (st.currSn + 1) % SnRange), snap)
  }

  /** `Snapshot.Count`: the alive-item count pinned when the snapshot was
      taken. */
  function Count(s: Snapshot): (n: int)
    ensures n == s.count
  {
    s.count
  }

  /** `Snapshot.Open`: refused once the count has reached zero, otherwise
      one more reference. */
  function Open(s: Snapshot): (r: (Snapshot, bool))
    ensures r.1 <==> s.refCount != 0
    ensures !r.1 ==> r.0 == s
    ensures r.1 ==> r.0.refCount == s.refCount + 1 && r.0.sn == s.sn && r.0.count == s.count
  {
    if s.refCount == 0 then (s, false) else (s.(refCount := s.refCount + 1), true)
  }

  /** `collectDead`'s test: the version died at or before `sn`. */
  predicate DeadBy<D>(x: Item<D>, sn: uint32) {
    x.deadSn > 0 && x.deadSn <= sn
  }

  function AliveAfter<D>(sn: uint32): (p: Item<D> -> bool) {
    (x: Item<D>) => !DeadBy(x, sn)
  }

  /** `collectDead(sn)`: drops the versions dead at or before `sn`. */
  function CollectDead<D(!new)>(items: seq<Item<D>>, sn: uint32): (r: seq<Item<D>>)
    ensures forall x :: multiset(r)[x] == if 0 < x.deadSn <= sn then 0 else multiset(items)[x]
  {
    FilterCount(items, AliveAfter(sn));
    Filter(items, AliveAfter(sn))
  }

  /** `GC`: when the oldest open snapshot moved since the last pass and is
      past 1, everything dead before it is collected. */
  function GC<D(!new)>(st: Store<D>): (r: Store<D>)
    ensures r.currSn == st.currSn && r.snapshots == st.snapshots && r.count == st.count
    ensures |st.snapshots| > 0 && st.snapshots[0].sn != st.lastGCSn && st.snapshots[0].sn > 1 ==>
              r.lastGCSn == st.snapshots[0].sn - 1 && r.items == CollectDead(st.items, r.lastGCSn)
    ensures !(|st.snapshots| > 0 && st.snapshots[0].sn != st.lastGCSn && st.snapshots[0].sn > 1) ==>
              r == st
  {
    if |st.snapshots| > 0 then
      var oldest := st.snapshots[0];
      if oldest.sn != st.lastGCSn && oldest.sn > 1 then
        st.(lastGCSn := oldest.sn - 1, items := CollectDead(st.items, oldest.sn - 1))
      else st
    else st
  }

  /** `Snapshot.Close`: one reference fewer; the last one takes the snapshot
      out of the index and runs a collection. */
  function Close<D(!new)>(st: Store<D>, s: Snapshot): (r: (Store<D>, Snapshot))
    ensures r.1.refCount == s.refCount - 1 && r.1.sn == s.sn && r.1.count == s.count
    ensures r.1.refCount != 0 ==> r.0 == st
    ensures r.1.refCount == 0 ==>
              r.0 == GC(st.(snapshots := SkipList.Delete(st.snapshots, SnapCompare, s).0))
  {
    var s' := s.(refCount := s.refCount - 1);
    if s'.refCount == 0 then
      (GC(st.(snapshots := SkipList.Delete(st.snapshots, SnapCompare, s).0)), s')
    else (st, s')
  }

  /** `Rollback`'s test: the version was born or died after `sn`. */
  predicate AfterSnapshot<D>(x: Item<D>, sn: uint32) {
    x.bornSn > sn || x.deadSn > sn
  }

  function UpTo<D>(sn: uint32): (p: Item<D> -> bool) {
    (x: Item<D>) => !AfterSnapshot(x, sn)
  }

  /** `Rollback(snap)`: drops every version born or dead after the snapshot
      and rewinds the sequence number to it. */
  function Rollback<D(!new)>(st: Store<D>, snap: Snapshot): (r: Store<D>)
    ensures forall x :: multiset(r.items)[x] ==
              if x.bornSn > snap.sn || x.deadSn > snap.sn then 0 else multiset(st.items)[x]
    ensures forall x :: x in r.items ==> x.bornSn <= r.currSn
    ensures r.currSn == snap.sn
    ensures r.lastGCSn == if snap.sn == 0 then SnRange - 1 else snap.sn - 1
    ensures r.snapshots == st.snapshots && r.count == st.count
  {
    FilterCount(st.items, UpTo(snap.sn));
    var items := Filter(st.items, UpTo(snap.sn));
    st.(items := items, currSn := snap.sn, lastGCSn := (snap.sn - 1) % SnRange)
  }

  /** The alive versions born after `sn`: those a rollback to `sn` removes
      while they still count. */
  function AliveBornAfter<D>(sn: uint32): (p: Item<D> -> bool) {
    (x: Item<D>) => x.deadSn == 0 && x.bornSn > sn
  }

  /** `Rollback` with the counter kept: as `Rollback`, and one alive item
      fewer for every alive version it removes. */
  function RollbackRecount<D(!new)>(st: Store<D>, snap: Snapshot): (r: Store<D>)
    ensures r.(count := st.count) == Rollback(st, snap)
    ensures r.count <= st.count
  {
    Rollback(st, snap).(count := st.count - |Filter(st.items, AliveBornAfter(snap.sn))|)
  }

  /** No two versions share a key and a birth sequence number, so the
      insert comparator tells every pair of versions apart. Two puts of one
      key within one sequence number break this. */
  ghost predicate NoTwins<D>(keyCmp: (D, D) -> int, items: seq<Item<D>>) {
    SkipList.NoTies(items, InsCmp(keyCmp))
  }

  /** The iteration comparator never places before `b` what the insert
      comparator does not: a seek by key lands no later than a seek by key
      and birth. */
  lemma IterCmpCoarser<D(!new)>(keyCmp: (D, D) -> int)
    ensures SkipList.Coarser(InsCmp(keyCmp), IterCmp(keyCmp))
  {
    forall a: Item<D>, b: Item<D> | InsCmp(keyCmp)(a, b) >= 0 ensures IterCmp(keyCmp)(a, b) >= 0 {
      assert InsCmp(keyCmp)(a, b) == InsertCompare(keyCmp, a, b);
    }
  }

  /** `collectDead(sn)` as written: a cursor under the iteration comparator
      walks the index and hands each version dead by `sn` to the index's
      `Delete` under the insert comparator, which removes the first version
      with the same key and birth sequence number. It only removes. */
  function CollectDeadWalk<D>(keyCmp: (D, D) -> int, items: seq<Item<D>>, sn: uint32): (r: seq<Item<D>>)
    ensures multiset(r) <= multiset(items)
  {
    SkipList.DeleteWalk(items, 0, InsCmp(keyCmp), IterCmp(keyCmp), AliveAfter(sn))
  }

  /** Without twins the walk of `collectDead` removes exactly the versions
      dead by `sn`. */
  lemma CollectDeadWalkWithoutTwins<D(!new)>(keyCmp: (D, D) -> int, items: seq<Item<D>>, sn: uint32)
    requires TotalPreorder(keyCmp) && Sorted(items, InsCmp(keyCmp)) && NoTwins(keyCmp, items)
    ensures CollectDeadWalk(keyCmp, items, sn) == CollectDead(items, sn)
  {
    InsertCompareIsOrder(keyCmp);
    IterCmpCoarser(keyCmp);
    SkipList.DeleteWalkIsFilter(items, InsCmp(keyCmp), IterCmp(keyCmp), AliveAfter(sn));
  }

  /** With twins the walk of `collectDead` goes wrong: for a live version
      `b` ahead of a dead twin `a`, the delete handed `a` removes `b`. The
      dead version stays, and a later snapshot that read `b` reads nothing. */
  lemma CollectDeadWalkDropsLiveTwin<D(!new)>(keyCmp: (D, D) -> int, b: Item<D>, a: Item<D>, sn: uint32, s: uint32)
    requires keyCmp(b.data, a.data) == 0 && b.bornSn == a.bornSn
    requires b.deadSn == 0 && 0 < a.deadSn <= sn < s && b.bornSn <= s
    ensures CollectDead([b, a], sn) == [b]
    ensures CollectDeadWalk(keyCmp, [b, a], sn) == [a]
    ensures View([b, a], s) == [b]
    ensures View(CollectDeadWalk(keyCmp, [b, a], sn), s) == []
  {
    var keep, vis := AliveAfter<D>(sn), VisibleAt<D>(s);
    assert keep(b) && !keep(a) && vis(b) && !vis(a);
    WalkOverTwins(keyCmp, b, a, keep);
    assert [b, a][1..] == [a] && [a][1..] == [];
    assert Filter([a], keep) == [] && Filter([a], vis) == [];
  }

  /** With twins and a later version of the key, the seek back makes it
      worse: the walk of `collectDead` removes every version of the key,
      the live one included. */
  lemma CollectDeadWalkEmptiesKey<D(!new)>(keyCmp: (D, D) -> int, t: Item<D>, e: Item<D>, f: Item<D>, sn: uint32, s: uint32)
    requires keyCmp(t.data, e.data) == 0 && keyCmp(e.data, f.data) == 0
    requires keyCmp(e.data, e.data) == 0 && keyCmp(f.data, f.data) == 0
    requires t.bornSn == e.bornSn < f.bornSn
    requires t.deadSn == 0 && 0 < e.deadSn <= sn && 0 < f.deadSn <= sn < s && t.bornSn <= s
    ensures CollectDead([t, e, f], sn) == [t]
    ensures CollectDeadWalk(keyCmp, [t, e, f], sn) == []
    ensures View([t, e, f], s) == [t]
  {
    var keep, vis := AliveAfter<D>(sn), VisibleAt<D>(s);
    assert keep(t) && !keep(e) && !keep(f) && vis(t) && !vis(e) && !vis(f);
    WalkRevisitsTwin(keyCmp, t, e, f, keep);
    Order.FilterOfThree(t, e, f, keep);
    Order.FilterOfThree(t, e, f, vis);
  }

  /** The deleting walk over a pair of twins whose first is kept and whose
      second is rejected: the delete handed the second removes the first,
      and the cursor, still on the second, steps off the end. */
  lemma WalkOverTwins<D>(keyCmp: (D, D) -> int, b: Item<D>, a: Item<D>, keep: Item<D> -> bool)
    requires keyCmp(b.data, a.data) == 0 && b.bornSn == a.bornSn
    requires keep(b) && !keep(a)
    ensures SkipList.DeleteWalk([b, a], 0, InsCmp(keyCmp), IterCmp(keyCmp), keep) == [a]
  {
    var ins, it := InsCmp(keyCmp), IterCmp(keyCmp);
    assert ins(b, a) == 0;
    assert SkipList.FirstNotLess([b, a], ins, a) == 0;
    assert [b, a][1..] == [a];
    assert SkipList.Delete([b, a], ins, a).0 == [a];
    SkipList.WalkKeepUnfold([b, a], 0, ins, it, keep);
    SkipList.WalkDropEarlierUnfold([b, a], 1, ins, it, keep);
  }

  /** The deleting walk over a kept version `t`, its rejected twin `e` and a
      rejected later version `f` of the key. The delete handed `e` removes
      `t`; the delete handed `f` removes `f` from under the cursor, which
      seeks back by key onto `e`; `e` is visited a second time and goes. */
  lemma WalkRevisitsTwin<D>(keyCmp: (D, D) -> int, t: Item<D>, e: Item<D>, f: Item<D>, keep: Item<D> -> bool)
    requires keyCmp(t.data, e.data) == 0 && keyCmp(e.data, f.data) == 0
    requires keyCmp(e.data, e.data) == 0 && keyCmp(f.data, f.data) == 0
    requires t.bornSn == e.bornSn < f.bornSn
    requires keep(t) && !keep(e) && !keep(f)
    ensures SkipList.DeleteWalk([t, e, f], 0, InsCmp(keyCmp), IterCmp(keyCmp), keep) == []
  {
    TwinTakesKeptPlace(keyCmp, t, e, f, keep);
    LaterVersionSeeksBack(keyCmp, e, f, keep);
    LoneVersionGoes(keyCmp, e, keep);
  }

  /** First visits: `t` is kept, and the delete handed `e` removes `t`. */
  lemma TwinTakesKeptPlace<D>(keyCmp: (D, D) -> int, t: Item<D>, e: Item<D>, f: Item<D>, keep: Item<D> -> bool)
    requires keyCmp(t.data, e.data) == 0 && t.bornSn == e.bornSn
    requires keep(t) && !keep(e)
    ensures SkipList.DeleteWalk([t, e, f], 0, InsCmp(keyCmp), IterCmp(keyCmp), keep) ==
            SkipList.DeleteWalk([e, f], 1, InsCmp(keyCmp), IterCmp(keyCmp), keep)
  {
    var ins, it := InsCmp(keyCmp), IterCmp(keyCmp);
    var s := [t, e, f];
    SkipList.WalkKeepUnfold(s, 0, ins, it, keep);
    assert ins(t, e) == 0;
    assert SkipList.FirstNotLess(s, ins, e) == 0;
    assert s[1..] == [e, f];
    assert SkipList.Delete(s, ins, e).0 == [e, f];
    SkipList.WalkDropEarlierUnfold(s, 1, ins, it, keep);
  }

  /** The delete handed `f` removes `f` from under the cursor, which seeks
      back by key onto `e`. */
  lemma LaterVersionSeeksBack<D>(keyCmp: (D, D) -> int, e: Item<D>, f: Item<D>, keep: Item<D> -> bool)
    requires keyCmp(e.data, f.data) == 0 && keyCmp(f.data, f.data) == 0 && e.bornSn < f.bornSn
    requires !keep(f)
    ensures SkipList.DeleteWalk([e, f], 1, InsCmp(keyCmp), IterCmp(keyCmp), keep) ==
            SkipList.DeleteWalk([e], 0, InsCmp(keyCmp), IterCmp(keyCmp), keep)
  {
    var ins, it := InsCmp(keyCmp), IterCmp(keyCmp);
    var s := [e, f];
    assert ins(e, f) < 0 && ins(f, f) == 0;
    SkipList.FirstNotLessAt(s, ins, f, 1);
    assert s[..1] == [e] && s[2..] == [];
    assert SkipList.Delete(s, ins, f).0 == [e];
    assert it(e, f) == 0;
    assert SkipList.FirstNotLess([e], it, f) == 0;
    SkipList.WalkDropUnfold(s, 1, ins, it, keep);
  }

  /** Visited again, `e` is handed to the delete once more and goes. */
  lemma LoneVersionGoes<D>(keyCmp: (D, D) -> int, e: Item<D>, keep: Item<D> -> bool)
    requires keyCmp(e.data, e.data) == 0 && !keep(e)
    ensures SkipList.DeleteWalk([e], 0, InsCmp(keyCmp), IterCmp(keyCmp), keep) == []
  {
    var ins, it := InsCmp(keyCmp), IterCmp(keyCmp);
    assert ins(e, e) == 0;
    assert SkipList.FirstNotLess([e], ins, e) == 0;
    assert [e][1..] == [];
    assert SkipList.Delete([e], ins, e).0 == [];
    SkipList.WalkDropUnfold([e], 0, ins, it, keep);
  }

  /** `Rollback(snap)` as written: the same deleting walk, handing each
      version born or dead after the snapshot to the index's `Delete`. */
  function RollbackWalk<D(!new)>(keyCmp: (D, D) -> int, st: Store<D>, snap: Snapshot): (r: Store<D>)
    ensures multiset(r.items) <= multiset(st.items)
    ensures r.(items := []) == Rollback(st, snap).(items := [])
  {
    var items := SkipList.DeleteWalk(st.items, 0, InsCmp(keyCmp), IterCmp(keyCmp), UpTo(snap.sn));
    st.(items := items, currSn := snap.sn, lastGCSn := (snap.sn - 1) % SnRange)
  }

  /** Without twins the walk of `Rollback` drops exactly the versions born or
      dead after the snapshot. */
  lemma RollbackWalkWithoutTwins<D(!new)>(keyCmp: (D, D) -> int, st: Store<D>, snap: Snapshot)
    requires TotalPreorder(keyCmp) && Sorted(st.items, InsCmp(keyCmp)) && NoTwins(keyCmp, st.items)
    ensures RollbackWalk(keyCmp, st, snap) == Rollback(st, snap)
  {
    InsertCompareIsOrder(keyCmp);
    IterCmpCoarser(keyCmp);
    SkipList.DeleteWalkIsFilter(st.items, InsCmp(keyCmp), IterCmp(keyCmp), UpTo(snap.sn));
  }

  /** With twins the walk of `Rollback` goes wrong: for a never-deleted
      version `b` ahead of a twin `a` deleted after the snapshot, the delete
      handed `a` removes `b`. The rolled-back index keeps `a`, whose death
      lies after the rewound current sequence number. */
  lemma RollbackWalkDropsKeptTwin<D(!new)>(keyCmp: (D, D) -> int, st: Store<D>, snap: Snapshot, b: Item<D>, a: Item<D>)
    requires st.items == [b, a]
    requires keyCmp(b.data, a.data) == 0 && b.bornSn == a.bornSn
    requires b.bornSn <= snap.sn && b.deadSn == 0 && a.deadSn > snap.sn
    ensures Rollback(st, snap).items == [b]
    ensures RollbackWalk(keyCmp, st, snap).items == [a]
    ensures RollbackWalk(keyCmp, st, snap).currSn < a.deadSn
  {
    var keep := UpTo<D>(snap.sn);
    assert keep(b) && !keep(a);
    WalkOverTwins(keyCmp, b, a, keep);
    assert [b, a][1..] == [a] && [a][1..] == [];
    assert Filter([a], keep) == [];
  }

  /** What each rollback leaves of the index: the corrected one filters it,
      the walk as written runs the deleting walk over it. */
  lemma RollbackItems<D(!new)>(keyCmp: (D, D) -> int, st: Store<D>, snap: Snapshot)
    ensures Rollback(st, snap).items == Filter(st.items, UpTo(snap.sn))
    ensures RollbackWalk(keyCmp, st, snap).items ==
            SkipList.DeleteWalk(st.items, 0, InsCmp(keyCmp), IterCmp(keyCmp), UpTo(snap.sn))
  {
  }

  /** With twins and a later version of the key, the walk of `Rollback`
      removes every version of the key, although the snapshot rolled back
      to read two of them and the corrected rollback keeps one. */
  lemma RollbackWalkEmptiesKey<D(!new)>(keyCmp: (D, D) -> int, st: Store<D>, snap: Snapshot, t: Item<D>, e: Item<D>, f: Item<D>)
    requires st.items == [t, e, f]
    requires keyCmp(t.data, e.data) == 0 && keyCmp(e.data, f.data) == 0
    requires keyCmp(e.data, e.data) == 0 && keyCmp(f.data, f.data) == 0
    requires t.bornSn == e.bornSn <= snap.sn < f.bornSn
    requires t.deadSn == 0 && e.deadSn > snap.sn
    ensures View(st.items, snap.sn) == [t, e]
    ensures Rollback(st, snap).items == [t]
    ensures RollbackWalk(keyCmp, st, snap).items == []
  {
    RollbackItems(keyCmp, st, snap);
    RollbackTraceOfThree(keyCmp, t, e, f, snap.sn);
  }

  /** The index-level half of `RollbackWalkEmptiesKey`. */
  lemma RollbackTraceOfThree<D(!new)>(keyCmp: (D, D) -> int, t: Item<D>, e: Item<D>, f: Item<D>, sn: uint32)
    requires keyCmp(t.data, e.data) == 0 && keyCmp(e.data, f.data) == 0
    requires keyCmp(e.data, e.data) == 0 && keyCmp(f.data, f.data) == 0
    requires t.bornSn == e.bornSn <= sn < f.bornSn
    requires t.deadSn == 0 && e.deadSn > sn
    ensures View([t, e, f], sn) == [t, e]
    ensures Filter([t, e, f], UpTo(sn)) == [t]
    ensures SkipList.DeleteWalk([t, e, f], 0, InsCmp(keyCmp), IterCmp(keyCmp), UpTo(sn)) == []
  {
    var keep, vis := UpTo<D>(sn), VisibleAt<D>(sn);
    assert keep(t) && !keep(e) && !keep(f) && vis(t) && vis(e) && !vis(f);
    Order.FilterOfThree(t, e, f, vis);
    Order.FilterOfThree(t, e, f, keep);
    WalkRevisitsTwin(keyCmp, t, e, f, keep);
  }

  /** `GetSnapshots`: the open snapshots in order of their sequence numbers,
      read with a cursor over the snapshot index. */
  method GetSnapshots<D>(st: Store<D>) returns (snaps: seq<Snapshot>)
    ensures snaps == st.snapshots
  {
    var s := st.snapshots;
    snaps := [];
    var v := SkipList.Valid(s, SkipList.SeekFirst(s));
    var c, ok := v.0, v.1;
    while ok
      invariant SkipList.Linked(s, c)
      invariant ok <==> c.curr < |s|
      invariant ok == c.valid
      invariant snaps == s[..c.curr]
      decreases |s| - c.curr
    {
      snaps := snaps + [SkipList.Get(s, c).value];
      v := SkipList.Valid(s, SkipList.Next(s, c));
      c, ok := v.0, v.1;
    }
  }
}
