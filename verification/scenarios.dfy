/**
 Concrete runs of the store over key/value pairs ordered by key alone.
 */
module Scenarios {
  import opened Wrappers
  import opened Order
  import SkipList
  import opened MemStore

  type Pair = (int, int)

  /** Orders pairs by their first component, the key. */
  function PairKeyCmp(a: Pair, b: Pair): (r: int) {
    a.0 - b.0
  }

  lemma PutIntoEmpty(x: Pair)
    ensures Put(PairKeyCmp, New(), x).items == [Item(x, 1, 0)]
    ensures Put(PairKeyCmp, New(), x).currSn == 1
  {
    var st0: Store<Pair> := New();
    assert SkipList.FirstNotLess(st0.items, InsCmp(PairKeyCmp), Item(x, 1, 0)) == 0;
  }

  /** A put of a key already present lands after the versions born in
      earlier sequence numbers and before those born in the same one. */
  lemma PutSecondVersion(st: Store<Pair>, x: Pair, y: Pair, sn: uint32)
    requires st.items == [Item(x, sn, 0)] && x.0 == y.0
    ensures sn < st.currSn ==> Put(PairKeyCmp, st, y).items == [Item(x, sn, 0), Item(y, st.currSn, 0)]
    ensures sn == st.currSn ==> Put(PairKeyCmp, st, y).items == [Item(y, st.currSn, 0), Item(x, sn, 0)]
  {
    var v := Item(y, st.currSn, 0);
    if sn < st.currSn {
      assert InsCmp(PairKeyCmp)(st.items[0], v) < 0;
      assert st.items[1..] == [];
      assert SkipList.FirstNotLess(st.items, InsCmp(PairKeyCmp), v) == 1;
    } else if sn == st.currSn {
      assert SkipList.FirstNotLess(st.items, InsCmp(PairKeyCmp), v) == 0;
    }
  }

  /** With two versions of one key, the seek lands on the first and the
      run walk on the second, which `Get` returns when it is alive. */
  lemma GetOfTwoVersions(st: Store<Pair>, u: Item<Pair>, v: Item<Pair>, x: Pair)
    requires st.items == [u, v] && u.data.0 == x.0 && v.data.0 == x.0 && v.deadSn == 0
    ensures LatestIndex(PairKeyCmp, st.items, x) == Some(1)
    ensures Get(PairKeyCmp, st, x) == Some(v)
  {
    assert PairKeyCmp(u.data, x) == 0;
    assert IterCmp(PairKeyCmp)(u, Item(x, 0, 0)) == PairKeyCmp(u.data, x);
    assert IterCmp(PairKeyCmp)(v, u) == 0;
    assert SkipList.FirstNotLess(st.items, IterCmp(PairKeyCmp), Item(x, 0, 0)) == 0;
    assert RunEnd(PairKeyCmp, st.items, 1) == 1;
    assert RunEnd(PairKeyCmp, st.items, 0) == 1;
  }

  lemma GetOfOneVersion(st: Store<Pair>, u: Item<Pair>, x: Pair)
    requires st.items == [u] && u.data.0 == x.0 && u.deadSn == 0
    ensures Get(PairKeyCmp, st, x) == Some(u)
  {
    assert PairKeyCmp(u.data, x) == 0;
    assert IterCmp(PairKeyCmp)(u, Item(x, 0, 0)) == PairKeyCmp(u.data, x);
    assert SkipList.FirstNotLess(st.items, IterCmp(PairKeyCmp), Item(x, 0, 0)) == 0;
  }

  /** Deleting the newer of two versions in the sequence number that
      created it unlinks it. */
  lemma DeleteNewVersion(st: Store<Pair>, u: Item<Pair>, v: Item<Pair>, x: Pair)
    requires st.items == [u, v] && u.data.0 == x.0 && v.data.0 == x.0
    requires v.deadSn == 0 && v.bornSn == st.currSn && u.bornSn < v.bornSn
    ensures Delete(PairKeyCmp, st, x).1
    ensures Delete(PairKeyCmp, st, x).0.items == [u]
  {
    GetOfTwoVersions(st, u, v, x);
    assert InsCmp(PairKeyCmp)(u, v) < 0;
    assert st.items[1..] == [v];
    assert SkipList.FirstNotLess(st.items, InsCmp(PairKeyCmp), v) == 1;
    assert st.items[..1] == [u] && st.items[2..] == [];
  }

  lemma ViewOfTwoVersions(u: Item<Pair>, v: Item<Pair>, sn: uint32)
    requires Visible(u, sn) && !Visible(v, sn)
    ensures View([u, v], sn) == [u]
  {
    assert VisibleAt(sn)(u) && !VisibleAt(sn)(v);
    assert [u, v][1..] == [v];
    assert [v][1..] == [];
    assert Filter([v], VisibleAt(sn)) == [] by {
      assert Filter([v][1..], VisibleAt(sn)) == [];
    }
  }

  /** The life of one key across a snapshot: put at sequence number 1,
      snapshot, put again at 2. The writer sees the new value, the snapshot
      still reads the old one, and deleting the new version in the sequence
      number that created it removes it outright, uncovering the old value. */
  lemma PutSnapshotPutDelete(k: int, v1: int, v2: int, w: int)
    ensures var st1 := Put(PairKeyCmp, New(), (k, v1));
            var (st2, snap) := NewSnapshot(st1);
            var st3 := Put(PairKeyCmp, st2, (k, v2));
            var (st4, ok) := Delete(PairKeyCmp, st3, (k, w));
            && snap.sn == 1 && st3.currSn == 2
            && Get(PairKeyCmp, st3, (k, w)) == Some(Item((k, v2), 2, 0))
            && View(st3.items, snap.sn) == [Item((k, v1), 1, 0)]
            && ok && st4.items == [Item((k, v1), 1, 0)]
            && Get(PairKeyCmp, st4, (k, w)) == Some(Item((k, v1), 1, 0))
  {
    var a, b := Item((k, v1), 1, 0), Item((k, v2), 2, 0);
    var st1 := Put(PairKeyCmp, New(), (k, v1));
    PutIntoEmpty((k, v1));
    var r2 := NewSnapshot(st1);
    var st2 := r2.0;
    assert st2.items == [a] && st2.currSn == 2 && r2.1.sn == 1;
    PutSecondVersion(st2, (k, v1), (k, v2), 1);
    var st3 := Put(PairKeyCmp, st2, (k, v2));
    assert st3.items == [a, b] && st3.currSn == 2;
    GetOfTwoVersions(st3, a, b, (k, w));
    ViewOfTwoVersions(a, b, 1);
    DeleteNewVersion(st3, a, b, (k, w));
    var r4 := Delete(PairKeyCmp, st3, (k, w));
    GetOfOneVersion(r4.0, a, (k, w));
  }

  /** Two puts of one key within one sequence number: the earlier version is
      the one `Get` returns, because the index places a new element before
      the elements it compares equal to. */
  lemma PutTwiceInOneSequenceNumber(k: int, v1: int, v2: int, w: int)
    ensures var st := Put(PairKeyCmp, Put(PairKeyCmp, New(), (k, v1)), (k, v2));
            && st.items == [Item((k, v2), 1, 0), Item((k, v1), 1, 0)]
            && Get(PairKeyCmp, st, (k, w)) == Some(Item((k, v1), 1, 0))
  {
    var st1 := Put(PairKeyCmp, New(), (k, v1));
    PutIntoEmpty((k, v1));
    PutSecondVersion(st1, (k, v1), (k, v2), 1);
    var st := Put(PairKeyCmp, st1, (k, v2));
    GetOfTwoVersions(st, Item((k, v2), 1, 0), Item((k, v1), 1, 0), (k, w));
  }

  /** Two puts of one key in one sequence number followed by a snapshot:
      both versions are born at 1, the later put first, and the current
      sequence number is 2. */
  lemma TwoPutsThenSnapshot(k: int, v1: int, v2: int) returns (st2: Store<Pair>)
    ensures st2 == NewSnapshot(Put(PairKeyCmp, Put(PairKeyCmp, New(), (k, v1)), (k, v2))).0
    ensures st2.items == [Item((k, v2), 1, 0), Item((k, v1), 1, 0)] && st2.currSn == 2
  {
    var st1 := Put(PairKeyCmp, New(), (k, v1));
    PutIntoEmpty((k, v1));
    PutSecondVersion(st1, (k, v1), (k, v2), 1);
    var st := Put(PairKeyCmp, st1, (k, v2));
    assert st.currSn == 1;
    SecondSequenceNumber();
    st2 := NewSnapshot(st).0;
  }

  lemma SecondSequenceNumber()
    ensures (1 + 1) % SnRange == 2
  {
  }

  /** Continuing from `TwoPutsThenSnapshot`, a delete of the key marks the
      earlier put dead at 2 and leaves two versions with one key and one
      birth sequence number. Collecting up to 2, as `GC` does once the
      oldest open snapshot is 3, should keep the live version; the walk
      `collectDead` performs removes it and keeps the dead one, and
      snapshot 3 loses the key. */
  lemma TwinsConfuseCollectDead(st: Store<Pair>, k: int, v1: int, v2: int, w: int)
    requires st.items == [Item((k, v2), 1, 0), Item((k, v1), 1, 0)] && st.currSn == 2
    ensures var r := Delete(PairKeyCmp, st, (k, w));
            var live, dead := Item((k, v2), 1, 0), Item((k, v1), 1, 2);
            && r.1 && r.0.items == [live, dead]
            && View(r.0.items, 3) == [live]
            && CollectDead(r.0.items, 2) == [live]
            && CollectDeadWalk(PairKeyCmp, r.0.items, 2) == [dead]
            && View(CollectDeadWalk(PairKeyCmp, r.0.items, 2), 3) == []
  {
    var live, a := Item((k, v2), 1, 0), Item((k, v1), 1, 0);
    DeleteMarksOlderTwin(st, live, a, (k, w));
    CollectDeadWalkDropsLiveTwin(PairKeyCmp, live, a.(deadSn := 2), 2, 3);
  }

  /** Continuing from `TwoPutsThenSnapshot` and the same delete, a rollback
      to the snapshot at 1 should keep the never-deleted version; the walk
      `Rollback` performs removes it and keeps the version deleted at 2,
      although the store is rewound to 1. */
  lemma TwinsConfuseRollback(st: Store<Pair>, k: int, v1: int, v2: int, w: int, snap: Snapshot)
    requires st.items == [Item((k, v2), 1, 0), Item((k, v1), 1, 0)] && st.currSn == 2
    requires snap.sn == 1
    ensures var r := Delete(PairKeyCmp, st, (k, w));
            var live, dead := Item((k, v2), 1, 0), Item((k, v1), 1, 2);
            && r.1 && r.0.items == [live, dead]
            && Rollback(r.0, snap).items == [live]
            && RollbackWalk(PairKeyCmp, r.0, snap).items == [dead]
  {
    var live, a := Item((k, v2), 1, 0), Item((k, v1), 1, 0);
    DeleteMarksOlderTwin(st, live, a, (k, w));
    var r := Delete(PairKeyCmp, st, (k, w));
    RollbackWalkDropsKeptTwin(PairKeyCmp, r.0, snap, live, a.(deadSn := 2));
  }

  /** Deleting a key held by two alive versions from an earlier sequence
      number marks the second, the one `Get` returns. */
  lemma DeleteMarksOlderTwin(st: Store<Pair>, b: Item<Pair>, a: Item<Pair>, x: Pair)
    requires st.items == [b, a] && b.data.0 == x.0 && a.data.0 == x.0
    requires b.deadSn == 0 && a.deadSn == 0 && a.bornSn != st.currSn
    ensures Delete(PairKeyCmp, st, x).1
    ensures Delete(PairKeyCmp, st, x).0.items == [b, a.(deadSn := st.currSn)]
  {
    GetOfTwoVersions(st, b, a, x);
    DeleteMarksLatest(PairKeyCmp, st, x);
  }

  /** A snapshot of the empty store, a put at 2, and a rollback to the
      snapshot: the rollback removes the one alive version but the counter
      still says 1; the recounting rollback brings it back to 0. */
  lemma RollbackLeavesCountStale(k: int, v: int)
    ensures var (st1, snap) := NewSnapshot(New<Pair>());
            var st2 := Put(PairKeyCmp, st1, (k, v));
            var r := Rollback(st2, snap);
            && st2.items == [Item((k, v), 2, 0)] && CountsAlive(st2)
            && r.items == [] && ItemsCount(r) == 1 && !CountsAlive(r)
            && ItemsCount(RollbackRecount(st2, snap)) == 0 && CountsAlive(RollbackRecount(st2, snap))
  {
    var (st1, snap) := NewSnapshot(New<Pair>());
    SecondSequenceNumber();
    assert st1.items == [] && st1.currSn == 2 && st1.count == 0 && snap.sn == 1;
    var n := Item((k, v), 2, 0);
    assert SkipList.FirstNotLess(st1.items, InsCmp(PairKeyCmp), n) == 0;
    var st2 := Put(PairKeyCmp, st1, (k, v));
    assert st2.items == [n] && st2.count == 1;
    assert [n][1..] == [];
    assert Filter([n], Alive()) == [n];
    assert Filter([n], UpTo(1)) == [];
    assert Filter([n], AliveBornAfter(1)) == [n];
  }

  /** Continuing from the delete of `TwinsConfuseCollectDead`: a put of the
      key at 2, a snapshot, and a delete that marks the new version at 3
      leave a never-deleted version, its twin dead at 2 and a later version
      dead at 3. Collecting up to 3, as `GC` does once the oldest open
      snapshot is 4, should keep the first, which snapshot 4 reads; the walk
      `collectDead` performs removes all three. */
  lemma TwinsAndLaterVersionEmptyKey(st: Store<Pair>, k: int, v1: int, v2: int, v3: int, w: int)
    requires st.items == [Item((k, v2), 1, 0), Item((k, v1), 1, 2)] && st.currSn == 2
    ensures var st2 := NewSnapshot(Put(PairKeyCmp, st, (k, v3))).0;
            var r := Delete(PairKeyCmp, st2, (k, w));
            var t, e, f := Item((k, v2), 1, 0), Item((k, v1), 1, 2), Item((k, v3), 2, 3);
            && r.1 && r.0.items == [t, e, f]
            && View(r.0.items, 4) == [t]
            && CollectDead(r.0.items, 3) == [t]
            && CollectDeadWalk(PairKeyCmp, r.0.items, 3) == []
  {
    var r := ThreeVersionsOfKey(st, k, v1, v2, v3, w);
    CollectDeadWalkEmptiesKey(PairKeyCmp, r.0.items[0], r.0.items[1], r.0.items[2], 3, 4);
  }

  /** The put, snapshot and delete of `TwinsAndLaterVersionEmptyKey`. */
  lemma ThreeVersionsOfKey(st: Store<Pair>, k: int, v1: int, v2: int, v3: int, w: int)
    returns (r: (Store<Pair>, bool))
    requires st.items == [Item((k, v2), 1, 0), Item((k, v1), 1, 2)] && st.currSn == 2
    ensures r == Delete(PairKeyCmp, NewSnapshot(Put(PairKeyCmp, st, (k, v3))).0, (k, w))
    ensures r.1 && r.0.items == [Item((k, v2), 1, 0), Item((k, v1), 1, 2), Item((k, v3), 2, 3)]
  {
    var t, e, n := Item((k, v2), 1, 0), Item((k, v1), 1, 2), Item((k, v3), 2, 0);
    var st1 := PutAfterTwins(st, t, e, (k, v3));
    ThirdSequenceNumber();
    var st2 := NewSnapshot(st1).0;
    assert st2.items == [t, e, n] && st2.currSn == 3;
    DeleteMarksThird(st2, t, e, n, (k, w));
    r := Delete(PairKeyCmp, st2, (k, w));
  }

  /** Continuing from the delete of `TwinsConfuseRollback`: a put of the key
      at 2 and a rollback to the snapshot at 1, which read two versions of
      the key. The corrected rollback keeps the never-deleted one; the walk
      `Rollback` performs removes all three. */
  lemma TwinsAndLaterVersionRollback(st: Store<Pair>, k: int, v1: int, v2: int, v3: int, snap: Snapshot)
    requires st.items == [Item((k, v2), 1, 0), Item((k, v1), 1, 2)] && st.currSn == 2
    requires snap.sn == 1
    ensures var st1 := Put(PairKeyCmp, st, (k, v3));
            var t, e, f := Item((k, v2), 1, 0), Item((k, v1), 1, 2), Item((k, v3), 2, 0);
            && st1.items == [t, e, f]
            && View(st1.items, 1) == [t, e]
            && Rollback(st1, snap).items == [t]
            && RollbackWalk(PairKeyCmp, st1, snap).items == []
  {
    var t, e := Item((k, v2), 1, 0), Item((k, v1), 1, 2);
    var st1 := PutAfterTwins(st, t, e, (k, v3));
    RollbackWalkEmptiesKey(PairKeyCmp, st1, snap, t, e, Item((k, v3), 2, 0));
  }

  /** A put at 2 lands after two versions born at 1. */
  lemma PutAfterTwins(st: Store<Pair>, t: Item<Pair>, e: Item<Pair>, x: Pair) returns (r: Store<Pair>)
    requires st.items == [t, e] && st.currSn == 2 && t.bornSn == 1 && e.bornSn == 1
    requires t.data.0 == x.0 && e.data.0 == x.0
    ensures r == Put(PairKeyCmp, st, x)
    ensures r.items == [t, e, Item(x, 2, 0)] && r.currSn == 2
  {
    var n := Item(x, 2, 0);
    assert InsCmp(PairKeyCmp)(t, n) < 0 && InsCmp(PairKeyCmp)(e, n) < 0;
    assert st.items[1..] == [e] && st.items[1..][1..] == [];
    assert SkipList.FirstNotLess(st.items, InsCmp(PairKeyCmp), n) == 2;
    r := Put(PairKeyCmp, st, x);
    assert st.items[..2] == st.items && st.items[2..] == [];
  }

  /** With three versions of one key, the last alive and born before the
      current sequence number, a delete marks the last. */
  lemma DeleteMarksThird(st: Store<Pair>, t: Item<Pair>, e: Item<Pair>, n: Item<Pair>, x: Pair)
    requires st.items == [t, e, n] && t.data.0 == x.0 && e.data.0 == x.0 && n.data.0 == x.0
    requires n.deadSn == 0 && n.bornSn != st.currSn
    ensures Delete(PairKeyCmp, st, x).1
    ensures Delete(PairKeyCmp, st, x).0.items == [t, e, n.(deadSn := st.currSn)]
  {
    assert PairKeyCmp(t.data, x) == 0;
    assert IterCmp(PairKeyCmp)(t, Item(x, 0, 0)) == PairKeyCmp(t.data, x);
    assert SkipList.FirstNotLess(st.items, IterCmp(PairKeyCmp), Item(x, 0, 0)) == 0;
    assert RunEnd(PairKeyCmp, st.items, 2) == 2;
    assert RunEnd(PairKeyCmp, st.items, 1) == 2;
    assert RunEnd(PairKeyCmp, st.items, 0) == 2;
    assert LatestIndex(PairKeyCmp, st.items, x) == Some(2);
    DeleteMarksLatest(PairKeyCmp, st, x);
  }

  lemma ThirdSequenceNumber()
    ensures (2 + 1) % SnRange == 3
  {
  }
}
