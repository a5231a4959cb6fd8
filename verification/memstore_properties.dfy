/**
 Properties of the MVCC store that relate several operations: the index
 invariant every operation keeps, Put-then-Get, snapshot isolation, the
 safety of garbage collection, snapshot reference counting and what
 rollback discards.
 */
module MemStoreProperties {
  import opened Wrappers
  import opened Order
  import SkipList
  import opened MemStore

  lemma SnapCompareIsOrder()
    ensures TotalPreorder(SnapCompare)
  {
  }

  lemma PutKeepsInv<D(!new)>(keyCmp: (D, D) -> int, st: Store<D>, x: D)
    requires TotalPreorder(keyCmp) && Inv(keyCmp, st)
    ensures Inv(keyCmp, Put(keyCmp, st, x))
  {
    InsertKeepsSorted(keyCmp, st.items, Item(x, st.currSn, 0));
  }

  lemma DeleteKeepsInv<D(!new)>(keyCmp: (D, D) -> int, st: Store<D>, x: D)
    requires Inv(keyCmp, st)
    ensures Inv(keyCmp, Delete(keyCmp, st, x).0)
  {
    match LatestIndex(keyCmp, st.items, x)
    case None =>
    case Some(j) =>
      var v := st.items[j];
      if v.deadSn == 0 {
        if v.bornSn == st.currSn {
          SkipList.DeleteSorted(st.items, InsCmp(keyCmp), v);
        } else {
          MarkDeadKeepsOrder(keyCmp, st.items, j, st.currSn);
        }
      }
  }

  lemma NewSnapshotKeepsInv<D(!new)>(keyCmp: (D, D) -> int, st: Store<D>)
    requires Inv(keyCmp, st)
    ensures Inv(keyCmp, NewSnapshot(st).0)
  {
    SnapCompareIsOrder();
    SkipList.InsertSorted(st.snapshots, SnapCompare, Snapshot(st.currSn, 1, st.count));
  }

  lemma GCKeepsInv<D(!new)>(keyCmp: (D, D) -> int, st: Store<D>)
    requires Inv(keyCmp, st)
    ensures Inv(keyCmp, GC(st))
  {
    if |st.snapshots| > 0 && st.snapshots[0].sn > 1 {
      FilterSorted(st.items, AliveAfter(st.snapshots[0].sn - 1), InsCmp(keyCmp));
    }
  }

  lemma CloseKeepsInv<D(!new)>(keyCmp: (D, D) -> int, st: Store<D>, s: Snapshot)
    requires Inv(keyCmp, st)
    ensures Inv(keyCmp, Close(st, s).0)
  {
    SkipList.DeleteSorted(st.snapshots, SnapCompare, s);
    GCKeepsInv(keyCmp, st.(snapshots := SkipList.Delete(st.snapshots, SnapCompare, s).0));
  }

  lemma RollbackKeepsInv<D(!new)>(keyCmp: (D, D) -> int, st: Store<D>, snap: Snapshot)
    requires Inv(keyCmp, st)
    ensures Inv(keyCmp, Rollback(st, snap))
  {
    FilterSorted(st.items, UpTo(snap.sn), InsCmp(keyCmp));
  }

  /** After `Put(x)`, `Get(x)` returns the version just written, provided no
      version of the key was already born at the current sequence number. */
  lemma PutThenGet<D(!new)>(keyCmp: (D, D) -> int, st: Store<D>, x: D)
    requires TotalPreorder(keyCmp) && Sorted(st.items, InsCmp(keyCmp))
    requires forall k :: 0 <= k < |st.items| && keyCmp(st.items[k].data, x) == 0 ==>
               st.items[k].bornSn < st.currSn
    ensures Get(keyCmp, Put(keyCmp, st, x), x) == Some(Item(x, st.currSn, 0))
  {
    var n := Item(x, st.currSn, 0);
    var ins := InsCmp(keyCmp);
    var p := SkipList.FirstNotLess(st.items, ins, n);
    var r := Put(keyCmp, st, x).items;
    assert r == st.items[..p] + [n] + st.items[p..];
    InsertKeepsSorted(keyCmp, st.items, n);
    Reflexive(keyCmp, x);
    forall k | p < k < |r| ensures keyCmp(r[k].data, x) != 0 {
      assert r[k] == st.items[k - 1];
      AfterInsertionPoint(keyCmp, st.items, n, k - 1);
    }
    assert IsLatest(keyCmp, r, x, p);
    LatestIndexCorrect(keyCmp, r, x);
    IsLatestUnique(keyCmp, r, x, p, LatestIndex(keyCmp, r, x).value);
  }

  /** Snapshot isolation for writes: a version put after snapshot `sn` was
      taken is not in that snapshot's view. */
  lemma PutInvisibleToOlderSnapshots<D(!new)>(keyCmp: (D, D) -> int, st: Store<D>, x: D, sn: uint32)
    requires sn < st.currSn
    ensures View(Put(keyCmp, st, x).items, sn) == View(st.items, sn)
  {
    var n := Item(x, st.currSn, 0);
    var p := SkipList.FirstNotLess(st.items, InsCmp(keyCmp), n);
    FilterInsertRejected(st.items, VisibleAt(sn), p, n);
  }

  /** Removing a version a snapshot cannot see leaves its view unchanged. */
  lemma RemoveInvisible<D(!new)>(items: seq<Item<D>>, p: int, sn: uint32)
    requires 0 <= p < |items| && !Visible(items[p], sn)
    ensures View(items[..p] + items[p + 1..], sn) == View(items, sn)
  {
    var rest := items[..p] + items[p + 1..];
    assert rest[..p] == items[..p] && rest[p..] == items[p + 1..];
    assert rest[..p] + [items[p]] + rest[p..] == items;
    FilterInsertRejected(rest, VisibleAt(sn), p, items[p]);
  }

  /** `b` holds the versions of `a`, position by position, each unchanged
      or marked dead at `n`. */
  ghost predicate SameOrMarked<D>(a: seq<Item<D>>, b: seq<Item<D>>, n: uint32) {
    && |a| == |b|
    && forall k :: 0 <= k < |a| ==> b[k] == a[k] || b[k] == a[k].(deadSn := n)
  }

  /** Snapshot isolation for deletes: a snapshot older than the current
      sequence number reads the same versions after a `Delete`; at most one
      of them now carries the delete's `deadSn`. */
  lemma DeleteInvisibleToOlderSnapshots<D(!new)>(keyCmp: (D, D) -> int, st: Store<D>, x: D, sn: uint32)
    requires sn < st.currSn
    ensures SameOrMarked(View(st.items, sn), View(Delete(keyCmp, st, x).0.items, sn), st.currSn)
  {
    var g := Get(keyCmp, st, x);
    if g.Some? && g.value.bornSn == st.currSn {
      DeleteUnlinkInvisible(keyCmp, st, x, sn);
    } else if g.Some? {
      DeleteMarkInvisible(keyCmp, st, x, sn);
    } else {
      assert Delete(keyCmp, st, x).0 == st;
    }
  }

  lemma DeleteUnlinkInvisible<D(!new)>(keyCmp: (D, D) -> int, st: Store<D>, x: D, sn: uint32)
    requires sn < st.currSn
    requires Get(keyCmp, st, x).Some? && Get(keyCmp, st, x).value.bornSn == st.currSn
    ensures View(Delete(keyCmp, st, x).0.items, sn) == View(st.items, sn)
  {
    if Delete(keyCmp, st, x).1 {
      var p := DeleteUnlinksNewVersion(keyCmp, st, x);
      RemoveInvisible(st.items, p, sn);
    }
  }

  lemma DeleteMarkInvisible<D(!new)>(keyCmp: (D, D) -> int, st: Store<D>, x: D, sn: uint32)
    requires sn < st.currSn
    requires Get(keyCmp, st, x).Some? && Get(keyCmp, st, x).value.bornSn != st.currSn
    ensures SameOrMarked(View(st.items, sn), View(Delete(keyCmp, st, x).0.items, sn), st.currSn)
  {
    var v := Get(keyCmp, st, x).value;
    var j := LatestIndex(keyCmp, st.items, x).value;
    DeleteMarksLatest(keyCmp, st, x);
    assert st.items[j] == v;
    FilterReplace(st.items, VisibleAt(sn), j, v.(deadSn := st.currSn));
  }

  /** Garbage collection is invisible to every open snapshot: each one reads
      the same versions before and after. */
  lemma GCPreservesSnapshotViews<D(!new)>(st: Store<D>, s: Snapshot)
    requires Sorted(st.snapshots, SnapCompare)
    requires s in st.snapshots
    ensures View(GC(st).items, s.sn) == View(st.items, s.sn)
  {
    if |st.snapshots| > 0 && st.snapshots[0].sn != st.lastGCSn && st.snapshots[0].sn > 1 {
      var w := st.snapshots[0].sn - 1;
      var i :| 0 <= i < |st.snapshots| && st.snapshots[i] == s;
      if i > 0 {
        assert SnapCompare(st.snapshots[0], st.snapshots[i]) <= 0;
      }
      assert forall x :: x in st.items && VisibleAt(s.sn)(x) ==> AliveAfter(w)(x);
      FilterFilter(st.items, AliveAfter(w), VisibleAt(s.sn));
    }
  }

  /** The walk `collectDead` actually performs is just as invisible to
      every snapshot newer than the collected sequence number, as long as no
      two versions share a key and a birth sequence number. */
  lemma CollectDeadWalkPreservesViews<D(!new)>(keyCmp: (D, D) -> int, items: seq<Item<D>>, sn: uint32, s: uint32)
    requires TotalPreorder(keyCmp) && Sorted(items, InsCmp(keyCmp)) && NoTwins(keyCmp, items)
    requires sn < s
    ensures View(CollectDeadWalk(keyCmp, items, sn), s) == View(items, s)
  {
    CollectDeadWalkWithoutTwins(keyCmp, items, sn);
    assert forall x :: x in items && VisibleAt(s)(x) ==> AliveAfter(sn)(x);
    FilterFilter(items, AliveAfter(sn), VisibleAt(s));
  }

  /** Taking and then releasing a reference leaves store and snapshot as
      they were; a released snapshot cannot be reopened. */
  lemma OpenThenClose<D(!new)>(st: Store<D>, s: Snapshot)
    requires s.refCount > 0
    ensures Open(s).1
    ensures Close(st, Open(s).0) == (st, s)
    ensures Close(st, s).1.refCount == 0 ==> !Open(Close(st, s).1).1
  {
  }

  lemma SnapshotFound(snaps: seq<Snapshot>, s: Snapshot)
    requires Sorted(snaps, SnapCompare) && s in snaps
    ensures SkipList.Delete(snaps, SnapCompare, s).1
  {
    var k :| 0 <= k < |snaps| && snaps[k] == s;
    SnapCompareIsOrder();
    SkipList.DeleteFinds(snaps, SnapCompare, s, k);
  }

  /** Removing snapshot `s` from a sorted index with `s` in it removes one
      entry, and only an entry with `s`'s sequence number. */
  lemma RemoveSnapshot(snaps: seq<Snapshot>, s: Snapshot)
    requires Sorted(snaps, SnapCompare) && s in snaps
    ensures SkipList.Delete(snaps, SnapCompare, s).1
    ensures |SkipList.Delete(snaps, SnapCompare, s).0| == |snaps| - 1
    ensures multiset(SkipList.Delete(snaps, SnapCompare, s).0) <= multiset(snaps)
    ensures forall t :: t in snaps && t !in SkipList.Delete(snaps, SnapCompare, s).0 ==> t.sn == s.sn
  {
    SnapshotFound(snaps, s);
    var p := SkipList.FirstNotLess(snaps, SnapCompare, s);
    assert SkipList.Delete(snaps, SnapCompare, s).0 == snaps[..p] + snaps[p + 1..];
    assert snaps[p].sn == s.sn;
    RemoveAt(snaps, p);
  }

  /** Removing position `p` removes one occurrence of `s[p]` and nothing else. */
  lemma RemoveAt<T>(s: seq<T>, p: nat)
    requires p < |s|
    ensures multiset(s) == multiset(s[..p] + s[p + 1..]) + multiset{s[p]}
    ensures forall t :: t in s && t !in s[..p] + s[p + 1..] ==> t == s[p]
  {
    var rest := s[..p] + s[p + 1..];
    assert s == s[..p] + [s[p]] + s[p + 1..];
    assert multiset(s) == multiset(rest) + multiset{s[p]};
    forall t | t in s && t !in rest ensures t == s[p] {
      assert multiset(s)[t] > 0 && multiset(rest)[t] == 0;
    }
  }

  /** Closing the last reference removes the snapshot from the index; every
      other open snapshot still reads what it read before. */
  lemma CloseLastReference<D(!new)>(st: Store<D>, s: Snapshot, other: Snapshot)
    requires Sorted(st.snapshots, SnapCompare)
    requires s.refCount == 1 && s in st.snapshots
    ensures |Close(st, s).0.snapshots| == |st.snapshots| - 1
    ensures multiset(Close(st, s).0.snapshots) <= multiset(st.snapshots)
    ensures forall t :: t in st.snapshots && t !in Close(st, s).0.snapshots ==> t.sn == s.sn
    ensures other in Close(st, s).0.snapshots ==>
              View(Close(st, s).0.items, other.sn) == View(st.items, other.sn)
  {
    RemoveSnapshot(st.snapshots, s);
    SkipList.DeleteSorted(st.snapshots, SnapCompare, s);
    var rest := SkipList.Delete(st.snapshots, SnapCompare, s).0;
    if other in rest {
      GCPreservesSnapshotViews(st.(snapshots := rest), other);
    }
  }

  /** Rollback keeps a version that was visible to the snapshot and never
      deleted, and discards one that was visible to it but deleted later:
      the rolled-back store does not show what the snapshot showed. */
  lemma RollbackDiscardsLaterDeletes<D(!new)>(st: Store<D>, snap: Snapshot, x: Item<D>)
    requires x in st.items && Visible(x, snap.sn)
    ensures x.deadSn == 0 ==> x in Rollback(st, snap).items
    ensures x.deadSn != 0 ==> x !in Rollback(st, snap).items && x in View(st.items, snap.sn)
  {
    FilterMembership(st.items, UpTo(snap.sn), x);
    FilterMembership(st.items, VisibleAt(snap.sn), x);
  }

  /** `Put` raises the counter and adds one alive version. */
  lemma PutKeepsCount<D(!new)>(keyCmp: (D, D) -> int, st: Store<D>, x: D)
    requires CountsAlive(st)
    ensures CountsAlive(Put(keyCmp, st, x))
  {
    var r := Put(keyCmp, st, x);
    var n := Item(x, st.currSn, 0);
    assert multiset(r.items) == multiset(st.items + [n]);
    FilterLengthByMultiset(r.items, st.items + [n], Alive());
    FilterConcat(st.items, [n], Alive());
    assert Filter([n], Alive()) == [n] + Filter([], Alive());
  }

  /** A successful `Delete` lowers the counter and takes one alive version out
      of the count: the one it marks, or the one the index unlinks, which
      shares the key and the current sequence number with the version `Get`
      returned and so is alive too. Marking with a current sequence number of
      0 would leave the version alive, hence `currSn != 0`. */
  lemma DeleteKeepsCount<D(!new)>(keyCmp: (D, D) -> int, st: Store<D>, x: D)
    requires CountsAlive(st) && st.currSn != 0
    requires forall y :: y in st.items && y.bornSn == st.currSn ==> y.deadSn == 0
    ensures CountsAlive(Delete(keyCmp, st, x).0)
  {
    if Get(keyCmp, st, x).Some? {
      var v := Get(keyCmp, st, x).value;
      if v.bornSn == st.currSn {
        if Delete(keyCmp, st, x).1 {
          var p := DeleteUnlinksNewVersion(keyCmp, st, x);
          assert st.items[p] in st.items;
          RemoveAliveAt(st.items, p);
        }
      } else {
        DeleteMarksLatest(keyCmp, st, x);
        MarkTakesOneAlive(st.items, LatestIndex(keyCmp, st.items, x).value, st.currSn);
      }
    }
  }

  /** Unlinking an alive version leaves one alive version fewer. */
  lemma RemoveAliveAt<D(!new)>(s: seq<Item<D>>, p: int)
    requires 0 <= p < |s| && s[p].deadSn == 0
    ensures |Filter(s[..p] + s[p + 1..], Alive())| == |Filter(s, Alive())| - 1
  {
    assert s == s[..p] + [s[p]] + s[p + 1..];
    assert multiset(s) == multiset(s[..p] + s[p + 1..] + [s[p]]);
    UnlinkOneAlive(s, s[..p] + s[p + 1..], s[p]);
  }

  /** Marking an alive version with a non-zero sequence number takes it out
      of the alive ones. */
  lemma MarkTakesOneAlive<D(!new)>(s: seq<Item<D>>, j: int, sn: uint32)
    requires 0 <= j < |s| && s[j].deadSn == 0 && sn != 0
    ensures |Filter(s[j := s[j].(deadSn := sn)], Alive())| == |Filter(s, Alive())| - 1
  {
    var v := s[j];
    var y := v.(deadSn := sn);
    assert s == s[..j] + [v] + s[j + 1..];
    assert s[j := y] == s[..j] + [y] + s[j + 1..];
    assert multiset(s[j := y] + [v]) == multiset(s + [y]);
    MarkOneAlive(s, s[j := y], v, y);
  }

  lemma UnlinkOneAlive<D(!new)>(s: seq<Item<D>>, s': seq<Item<D>>, w: Item<D>)
    requires multiset(s) == multiset(s' + [w]) && w.deadSn == 0
    ensures |Filter(s', Alive())| == |Filter(s, Alive())| - 1
  {
    FilterLengthByMultiset(s, s' + [w], Alive());
    FilterConcat(s', [w], Alive());
    assert Filter([w], Alive()) == [w] + Filter([], Alive());
  }

  lemma MarkOneAlive<D(!new)>(s: seq<Item<D>>, s': seq<Item<D>>, v: Item<D>, y: Item<D>)
    requires multiset(s' + [v]) == multiset(s + [y]) && v.deadSn == 0 && y.deadSn != 0
    ensures |Filter(s', Alive())| == |Filter(s, Alive())| - 1
  {
    FilterLengthByMultiset(s' + [v], s + [y], Alive());
    FilterConcat(s', [v], Alive());
    FilterConcat(s, [y], Alive());
    assert Filter([v], Alive()) == [v] + Filter([], Alive());
    assert Filter([y], Alive()) == Filter([], Alive());
  }

  /** `GC` only removes marked versions, so the count stays right. */
  lemma GCKeepsCount<D(!new)>(st: Store<D>)
    requires CountsAlive(st)
    ensures CountsAlive(GC(st))
  {
    if |st.snapshots| > 0 && st.snapshots[0].sn > 1 {
      FilterFilter(st.items, AliveAfter(st.snapshots[0].sn - 1), Alive());
    }
  }

  lemma CloseKeepsCount<D(!new)>(st: Store<D>, s: Snapshot)
    requires CountsAlive(st)
    ensures CountsAlive(Close(st, s).0)
  {
    GCKeepsCount(st.(snapshots := SkipList.Delete(st.snapshots, SnapCompare, s).0));
  }

  /** A new snapshot pins the item count. When the count is right and no
      version carries a sequence number past the current one, that is the
      number of versions the snapshot reads. */
  lemma SnapshotCountsItsView<D(!new)>(st: Store<D>)
    requires CountsAlive(st)
    requires forall x :: x in st.items ==> x.bornSn <= st.currSn && x.deadSn <= st.currSn
    ensures CountsAlive(NewSnapshot(st).0)
    ensures Count(NewSnapshot(st).1) == ItemsCount(st)
    ensures Count(NewSnapshot(st).1) == |View(st.items, NewSnapshot(st).1.sn)|
  {
    FilterAgree(st.items, Alive(), VisibleAt(st.currSn));
  }

  /** `Rollback` leaves the counter as it was, so the count stays right
      exactly when no alive version was born after the snapshot. */
  lemma RollbackCountIffNoLaterAlive<D(!new)>(st: Store<D>, snap: Snapshot)
    requires CountsAlive(st)
    ensures CountsAlive(Rollback(st, snap)) <==>
              forall x :: x in st.items ==> !(x.deadSn == 0 && x.bornSn > snap.sn)
  {
    RollbackAliveSplit(st, snap);
    FilterEmpty(st.items, AliveBornAfter(snap.sn));
  }

  /** `RollbackRecount` keeps the count right in every case. */
  lemma RollbackRecountKeepsCount<D(!new)>(st: Store<D>, snap: Snapshot)
    requires CountsAlive(st)
    ensures CountsAlive(RollbackRecount(st, snap))
  {
    RollbackAliveSplit(st, snap);
  }

  /** The alive versions are those a rollback keeps alive plus those it
      removes while alive. */
  lemma RollbackAliveSplit<D(!new)>(st: Store<D>, snap: Snapshot)
    ensures |Filter(st.items, Alive())| ==
            |Filter(Rollback(st, snap).items, Alive())| + |Filter(st.items, AliveBornAfter(snap.sn))|
  {
    var kept := (x: Item<D>) => x.deadSn == 0 && x.bornSn <= snap.sn;
    FilterOfFilter(st.items, UpTo(snap.sn), Alive(), kept);
    FilterSplitLength(st.items, Alive(), kept, AliveBornAfter(snap.sn));
  }
}
