/**
 The ordered index seen sequentially: a sequence kept sorted by a three-way
 comparator, the level-0 search `findPath`, the index's insert and delete at
 the position that search reports, and the `SLIterator` cursor.

 A cursor position is an index into the sequence: `curr == |s|` is the tail
 sentinel and `prev == -1` the head sentinel.
 */
module SkipList {
  import opened Wrappers
  import opened Order

  /** `findPath` at level 0: the first position whose element is not less
      than `x` (the successor), `|s|` when there is none. */
  function FirstNotLess<T>(s: seq<T>, cmp: (T, T) -> int, x: T): (i: nat)
    ensures i <= |s|
    ensures forall j :: 0 <= j < i ==> cmp(s[j], x) < 0
    ensures i < |s| ==> cmp(s[i], x) >= 0
  {
    if |s| == 0 then 0
    else if cmp(s[0], x) < 0 then 1 + FirstNotLess(s[1..], cmp, x)
    else 0
  }

  /** In a sorted index everything from the successor on is not less than `x`. */
  lemma {:induction false} FirstNotLessSorted<T(!new)>(s: seq<T>, cmp: (T, T) -> int, x: T, j: int)
    requires TotalPreorder(cmp) && Sorted(s, cmp)
    requires FirstNotLess(s, cmp, x) <= j < |s|
    ensures cmp(s[j], x) >= 0
  {
    var i := FirstNotLess(s, cmp, x);
    if i < j {
      NotLessThenNotGreater(cmp, s[i], s[j], x);
    }
  }

  /** `findPath`: the successor position and whether it compares equal. */
  function FindPath<T>(s: seq<T>, cmp: (T, T) -> int, x: T): (r: (nat, bool))
    ensures r.0 == FirstNotLess(s, cmp, x)
    ensures r.1 <==> r.0 < |s| && cmp(s[r.0], x) == 0
  {
    var i := FirstNotLess(s, cmp, x);
    (i, i < |s| && cmp(s[i], x) == 0)
  }

  /** The index's insert: `x` is linked in between the predecessor and the
      successor `findPath` reports, i.e. before every element not less than it. */
  function Insert<T>(s: seq<T>, cmp: (T, T) -> int, x: T): (r: seq<T>)
    ensures |r| == |s| + 1
    ensures multiset(r) == multiset(s) + multiset{x}
  {
    var i := FirstNotLess(s, cmp, x);
    assert s == s[..i] + s[i..];
    s[..i] + [x] + s[i..]
  }

  lemma InsertSorted<T(!new)>(s: seq<T>, cmp: (T, T) -> int, x: T)
    requires TotalPreorder(cmp) && Sorted(s, cmp)
    ensures Sorted(Insert(s, cmp, x), cmp)
  {
    var i := FirstNotLess(s, cmp, x);
    forall j | i <= j < |s| ensures cmp(x, s[j]) <= 0 {
      FirstNotLessSorted(s, cmp, x, j);
    }
    SortedAfterSplice(s, cmp, x, i);
  }

  /** Splicing `x` in after everything less than it and before everything
      it is not greater than keeps a sequence sorted. */
  lemma SortedAfterSplice<T>(s: seq<T>, cmp: (T, T) -> int, x: T, i: nat)
    requires Sorted(s, cmp) && i <= |s|
    requires forall j :: 0 <= j < i ==> cmp(s[j], x) < 0
    requires forall j :: i <= j < |s| ==> cmp(x, s[j]) <= 0
    ensures Sorted(s[..i] + [x] + s[i..], cmp)
  {
    var r := s[..i] + [x] + s[i..];
    forall a, b | 0 <= a < b < |r| ensures cmp(r[a], r[b]) <= 0 {
      if b < i {
        assert r[a] == s[a] && r[b] == s[b];
      } else if b == i {
        assert r[a] == s[a] && r[b] == x;
      } else if a == i {
        assert r[a] == x && r[b] == s[b - 1];
      } else if a < i {
        assert r[a] == s[a] && r[b] == s[b - 1];
      } else {
        assert r[a] == s[a - 1] && r[b] == s[b - 1];
      }
    }
  }

  /** The index's delete: removes the element `findPath` lands on when it
      compares equal to `x`, and reports whether it did. */
  function Delete<T>(s: seq<T>, cmp: (T, T) -> int, x: T): (r: (seq<T>, bool))
    ensures !r.1 ==> r.0 == s
    ensures r.1 ==> |r.0| == |s| - 1
    ensures r.1 ==> exists p :: 0 <= p < |s| && cmp(s[p], x) == 0 && r.0 == s[..p] + s[p + 1..]
    ensures multiset(r.0) <= multiset(s)
  {
    var (i, found) := FindPath(s, cmp, x);
    if found then
      assert s == s[..i] + [s[i]] + s[i + 1..];
      (s[..i] + s[i + 1..], true)
    else (s, false)
  }

  /** Deleting `x` right after elements that are all less than it removes
      exactly that occurrence of `x`. */
  lemma DeleteAfterLess<T>(f: seq<T>, x: T, v: seq<T>, cmp: (T, T) -> int)
    requires cmp(x, x) == 0
    requires forall j :: 0 <= j < |f| ==> cmp(f[j], x) < 0
    ensures Delete(f + [x] + v, cmp, x) == (f + v, true)
  {
    var s := f + [x] + v;
    assert s[|f|] == x;
    assert forall j :: 0 <= j < |f| ==> s[j] == f[j];
    FirstNotLessAt(s, cmp, x, |f|);
    assert s[..|f|] == f && s[|f| + 1..] == v;
  }

  /** The successor is the first position whose element is not less than `x`. */
  lemma {:induction false} FirstNotLessAt<T>(s: seq<T>, cmp: (T, T) -> int, x: T, k: nat)
    requires k < |s| && cmp(s[k], x) >= 0
    requires forall j :: 0 <= j < k ==> cmp(s[j], x) < 0
    ensures FirstNotLess(s, cmp, x) == k
    decreases k
  {
    if k > 0 {
      assert cmp(s[0], x) < 0;
      assert forall j :: 0 <= j < k - 1 ==> s[1..][j] == s[j + 1];
      FirstNotLessAt(s[1..], cmp, x, k - 1);
    }
  }


  /** In a sorted index, an element equivalent to `x` is always found. */
  lemma {:induction false} DeleteFinds<T(!new)>(s: seq<T>, cmp: (T, T) -> int, x: T, k: int)
    requires TotalPreorder(cmp) && Sorted(s, cmp)
    requires 0 <= k < |s| && cmp(s[k], x) == 0
    ensures Delete(s, cmp, x).1
    ensures FirstNotLess(s, cmp, x) <= k
  {
    var i := FirstNotLess(s, cmp, x);
    if i < k {
      assert cmp(s[i], s[k]) <= 0;
      Reflexive(cmp, x);
      assert cmp(s[i], x) <= 0;
    }
  }

  lemma RemoveSorted<T>(s: seq<T>, cmp: (T, T) -> int, p: int)
    requires Sorted(s, cmp) && 0 <= p < |s|
    ensures Sorted(s[..p] + s[p + 1..], cmp)
  {
    var r := s[..p] + s[p + 1..];
    forall a, b | 0 <= a < b < |r| ensures cmp(r[a], r[b]) <= 0 {
      var a' := if a < p then a else a + 1;
      var b' := if b < p then b else b + 1;
      assert r[a] == s[a'] && r[b] == s[b'];
    }
  }

  lemma DeleteSorted<T>(s: seq<T>, cmp: (T, T) -> int, x: T)
    requires Sorted(s, cmp)
    ensures Sorted(Delete(s, cmp, x).0, cmp)
  {
    var (i, found) := FindPath(s, cmp, x);
    if found {
      RemoveSorted(s, cmp, i);
    }
  }

  /** No two positions of `s` compare equal: the index holds no twins that
      its own `Delete` could confuse. */
  ghost predicate NoTies<T>(s: seq<T>, cmp: (T, T) -> int) {
    forall i, j :: 0 <= i < j < |s| ==> cmp(s[i], s[j]) != 0
  }

  lemma RemoveNoTies<T>(s: seq<T>, cmp: (T, T) -> int, p: int)
    requires NoTies(s, cmp) && 0 <= p < |s|
    ensures NoTies(s[..p] + s[p + 1..], cmp)
  {
    var r := s[..p] + s[p + 1..];
    forall a, b | 0 <= a < b < |r| ensures cmp(r[a], r[b]) != 0 {
      var a' := if a < p then a else a + 1;
      var b' := if b < p then b else b + 1;
      assert r[a] == s[a'] && r[b] == s[b'];
    }
  }

  /** The loop of `collectDead` and `Rollback`, which delete while they
      walk, from cursor position `i` over the index `s` as it now stands.
      The entry under the cursor is read; one that `keep` rejects is handed
      to the index's `Delete` under `cmp`, which removes the first entry
      comparing equal to it. Then `Next` moves on:
      - when that removed the entry under the cursor, `Next` finds the node
        deleted and seeks again from its item under `seekCmp`, the cursor's
        own comparator, landing on the first remaining entry not less than
        it, which may be an entry visited before;
      - when it removed an earlier entry, the cursor's node now sits one
        position further left, and `Next` steps to its successor;
      - otherwise `Next` steps to the successor.
      The walk only ever removes entries. */
  function DeleteWalk<T>(s: seq<T>, i: nat, cmp: (T, T) -> int, seekCmp: (T, T) -> int, keep: T -> bool): (r: seq<T>)
    requires i <= |s|
    ensures multiset(r) <= multiset(s)
    decreases |s|, |s| - i
  {
    if i == |s| then s
    else if keep(s[i]) then DeleteWalk(s, i + 1, cmp, seekCmp, keep)
    else
      var (p, found) := FindPath(s, cmp, s[i]);
      var s' := Delete(s, cmp, s[i]).0;
      if !found then DeleteWalk(s, i + 1, cmp, seekCmp, keep)
      else if p == i then DeleteWalk(s', FirstNotLess(s', seekCmp, s[i]), cmp, seekCmp, keep)
      else if p < i then DeleteWalk(s', i, cmp, seekCmp, keep)
      else DeleteWalk(s', i + 1, cmp, seekCmp, keep)
  }

  /** An accepted entry: the cursor steps on. */
  lemma WalkKeepUnfold<T>(s: seq<T>, i: nat, cmp: (T, T) -> int, seekCmp: (T, T) -> int, keep: T -> bool)
    requires i < |s| && keep(s[i])
    ensures DeleteWalk(s, i, cmp, seekCmp, keep) == DeleteWalk(s, i + 1, cmp, seekCmp, keep)
  {
  }

  /** A rejected entry that is itself the first to compare equal: it goes,
      and the cursor seeks again from it. */
  lemma WalkDropUnfold<T>(s: seq<T>, i: nat, cmp: (T, T) -> int, seekCmp: (T, T) -> int, keep: T -> bool)
    requires i < |s| && !keep(s[i]) && FindPath(s, cmp, s[i]) == (i, true)
    ensures var s' := Delete(s, cmp, s[i]).0;
            DeleteWalk(s, i, cmp, seekCmp, keep) == DeleteWalk(s', FirstNotLess(s', seekCmp, s[i]), cmp, seekCmp, keep)
  {
  }

  /** A rejected entry with an earlier tie: the tie goes instead, and the
      cursor steps on from its own node. */
  lemma WalkDropEarlierUnfold<T>(s: seq<T>, i: nat, cmp: (T, T) -> int, seekCmp: (T, T) -> int, keep: T -> bool)
    requires i < |s| && !keep(s[i]) && FindPath(s, cmp, s[i]).1 && FindPath(s, cmp, s[i]).0 < i
    ensures DeleteWalk(s, i, cmp, seekCmp, keep) == DeleteWalk(Delete(s, cmp, s[i]).0, i, cmp, seekCmp, keep)
  {
  }

  /** Whatever `cmp` does not place before `b`, `seekCmp` does not place
      before `b` either: `seekCmp` is `cmp` with some distinctions dropped. */
  ghost predicate Coarser<T(!new)>(cmp: (T, T) -> int, seekCmp: (T, T) -> int) {
    forall a, b :: cmp(a, b) >= 0 ==> seekCmp(a, b) >= 0
  }

  /** Without ties the deleting walk removes exactly the entries `keep`
      rejects. After the first `j` entries of the starting index `orig` the
      index is the accepted part of that prefix followed by the rest, and
      the cursor lies within the accepted part: a seek back only lands on
      accepted entries, which are accepted again. */
  lemma {:induction false} DeleteWalkWithoutTies<T(!new)>(orig: seq<T>, j: nat, i: nat, cmp: (T, T) -> int, seekCmp: (T, T) -> int, keep: T -> bool)
    requires TotalPreorder(cmp) && Sorted(orig, cmp) && NoTies(orig, cmp) && Coarser(cmp, seekCmp)
    requires j <= |orig| && i <= |Filter(orig[..j], keep)|
    ensures DeleteWalk(Filter(orig[..j], keep) + orig[j..], i, cmp, seekCmp, keep) == Filter(orig, keep)
    decreases |orig| - j, |Filter(orig[..j], keep)| - i, 1
  {
    if i < |Filter(orig[..j], keep)| {
      WalkAcceptedEntry(orig, j, i, cmp, seekCmp, keep);
    } else if j == |orig| {
      WalkDone(orig, j, i, cmp, seekCmp, keep);
    } else {
      WalkNextEntry(orig, j, i, cmp, seekCmp, keep);
    }
  }

  /** The cursor within the accepted part steps on. */
  lemma {:induction false} WalkAcceptedEntry<T(!new)>(orig: seq<T>, j: nat, i: nat, cmp: (T, T) -> int, seekCmp: (T, T) -> int, keep: T -> bool)
    requires TotalPreorder(cmp) && Sorted(orig, cmp) && NoTies(orig, cmp) && Coarser(cmp, seekCmp)
    requires j <= |orig| && i < |Filter(orig[..j], keep)|
    ensures DeleteWalk(Filter(orig[..j], keep) + orig[j..], i, cmp, seekCmp, keep) == Filter(orig, keep)
    decreases |orig| - j, |Filter(orig[..j], keep)| - i, 0
  {
    WalkAcceptedStep(orig, j, i, cmp, seekCmp, keep);
    DeleteWalkWithoutTies(orig, j, i + 1, cmp, seekCmp, keep);
  }

  /** The cursor on the first unvisited entry: accepted, it joins the
      accepted part; rejected, it goes and the cursor seeks back into the
      accepted part. */
  lemma {:induction false} WalkNextEntry<T(!new)>(orig: seq<T>, j: nat, i: nat, cmp: (T, T) -> int, seekCmp: (T, T) -> int, keep: T -> bool)
    requires TotalPreorder(cmp) && Sorted(orig, cmp) && NoTies(orig, cmp) && Coarser(cmp, seekCmp)
    requires j < |orig| && i == |Filter(orig[..j], keep)|
    ensures DeleteWalk(Filter(orig[..j], keep) + orig[j..], i, cmp, seekCmp, keep) == Filter(orig, keep)
    decreases |orig| - j, |Filter(orig[..j], keep)| - i, 0
  {
    if keep(orig[j]) {
      WalkKeptStep(orig, j, i, cmp, seekCmp, keep);
      DeleteWalkWithoutTies(orig, j + 1, i + 1, cmp, seekCmp, keep);
    } else {
      FilteredPrefixLess(orig, j, cmp, keep);
      Reflexive(cmp, orig[j]);
      if j + 1 < |orig| {
        NextNotBefore(orig, j, cmp, seekCmp);
      }
      var q := WalkDroppedStep(orig, j, i, cmp, seekCmp, keep);
      DeleteWalkWithoutTies(orig, j + 1, q, cmp, seekCmp, keep);
    }
  }

  /** From the first entry, without ties, the deleting walk leaves exactly
      the entries `keep` accepts. */
  lemma DeleteWalkIsFilter<T(!new)>(s: seq<T>, cmp: (T, T) -> int, seekCmp: (T, T) -> int, keep: T -> bool)
    requires TotalPreorder(cmp) && Sorted(s, cmp) && NoTies(s, cmp) && Coarser(cmp, seekCmp)
    ensures DeleteWalk(s, 0, cmp, seekCmp, keep) == Filter(s, keep)
  {
    assert s[..0] == [] && s[0..] == s;
    assert Filter(s[..0], keep) + s[0..] == s;
    DeleteWalkWithoutTies(s, 0, 0, cmp, seekCmp, keep);
  }

  /** Every entry visited: the walk ends on the accepted part. */
  lemma WalkDone<T>(orig: seq<T>, j: nat, i: nat, cmp: (T, T) -> int, seekCmp: (T, T) -> int, keep: T -> bool)
    requires j == |orig| && i == |Filter(orig[..j], keep)|
    ensures DeleteWalk(Filter(orig[..j], keep) + orig[j..], i, cmp, seekCmp, keep) == Filter(orig, keep)
  {
    assert orig[..j] == orig;
    assert Filter(orig, keep) + orig[j..] == Filter(orig, keep);
  }

  /** Filtering one entry further. */
  lemma FilterPrefixStep<T(!new)>(orig: seq<T>, j: nat, keep: T -> bool)
    requires j < |orig|
    ensures Filter(orig[..j + 1], keep) ==
            Filter(orig[..j], keep) + (if keep(orig[j]) then [orig[j]] else [])
    ensures orig[j..] == [orig[j]] + orig[j + 1..]
  {
    assert orig[..j + 1] == orig[..j] + [orig[j]];
    FilterConcat(orig[..j], [orig[j]], keep);
    assert [orig[j]][1..] == [];
  }

  /** Within the accepted part the cursor just steps on. */
  lemma WalkAcceptedStep<T>(orig: seq<T>, j: nat, i: nat, cmp: (T, T) -> int, seekCmp: (T, T) -> int, keep: T -> bool)
    requires j <= |orig| && i < |Filter(orig[..j], keep)|
    ensures var s := Filter(orig[..j], keep) + orig[j..];
            DeleteWalk(s, i, cmp, seekCmp, keep) == DeleteWalk(s, i + 1, cmp, seekCmp, keep)
  {
    var f := Filter(orig[..j], keep);
    var s := f + orig[j..];
    assert s[i] == f[i] && f[i] in f;
    WalkKeepUnfold(s, i, cmp, seekCmp, keep);
  }

  /** The next unvisited entry, accepted: it joins the accepted part. */
  lemma WalkKeptStep<T(!new)>(orig: seq<T>, j: nat, i: nat, cmp: (T, T) -> int, seekCmp: (T, T) -> int, keep: T -> bool)
    requires j < |orig| && keep(orig[j]) && i == |Filter(orig[..j], keep)|
    ensures i + 1 == |Filter(orig[..j + 1], keep)|
    ensures DeleteWalk(Filter(orig[..j], keep) + orig[j..], i, cmp, seekCmp, keep) ==
            DeleteWalk(Filter(orig[..j + 1], keep) + orig[j + 1..], i + 1, cmp, seekCmp, keep)
  {
    FilterPrefixStep(orig, j, keep);
    var f, x, v := Filter(orig[..j], keep), orig[j], orig[j + 1..];
    ConcatAssoc(f, [x], v);
    assert (f + [x] + v)[|f|] == x;
    WalkKeepUnfold(f + [x] + v, |f|, cmp, seekCmp, keep);
  }

  /** The next unvisited entry, rejected, after entries all less than it:
      the index's `Delete` removes that very entry, and the seek back lands
      within the accepted part. */
  lemma WalkDroppedStep<T(!new)>(orig: seq<T>, j: nat, i: nat, cmp: (T, T) -> int, seekCmp: (T, T) -> int, keep: T -> bool)
    returns (q: nat)
    requires j < |orig| && !keep(orig[j]) && cmp(orig[j], orig[j]) == 0 && i == |Filter(orig[..j], keep)|
    requires forall k :: 0 <= k < |Filter(orig[..j], keep)| ==> cmp(Filter(orig[..j], keep)[k], orig[j]) < 0
    requires j + 1 < |orig| ==> seekCmp(orig[j + 1], orig[j]) >= 0
    ensures q <= |Filter(orig[..j + 1], keep)|
    ensures DeleteWalk(Filter(orig[..j], keep) + orig[j..], i, cmp, seekCmp, keep) ==
            DeleteWalk(Filter(orig[..j + 1], keep) + orig[j + 1..], q, cmp, seekCmp, keep)
  {
    FilterPrefixStep(orig, j, keep);
    var f, x, v := Filter(orig[..j], keep), orig[j], orig[j + 1..];
    ConcatAssoc(f, [x], v);
    var s := f + [x] + v;
    assert s[|f|] == x;
    DeleteAfterLess(f, x, v, cmp);
    FirstNotLessAt(s, cmp, x, |f|);
    WalkDropUnfold(s, |f|, cmp, seekCmp, keep);
    q := FirstNotLess(f + v, seekCmp, x);
    if |f| < |f + v| {
      assert (f + v)[|f|] == orig[j + 1];
    }
    assert f + [] == f;
    assert Filter(orig[..j + 1], keep) + orig[j + 1..] == f + v;
    assert Filter(orig[..j], keep) + orig[j..] == s;
  }

  /** In a sorted index without ties, every accepted entry before position
      `j` is less than the entry at `j`. */
  lemma FilteredPrefixLess<T>(orig: seq<T>, j: nat, cmp: (T, T) -> int, keep: T -> bool)
    requires Sorted(orig, cmp) && NoTies(orig, cmp) && j < |orig|
    ensures forall k :: 0 <= k < |Filter(orig[..j], keep)| ==> cmp(Filter(orig[..j], keep)[k], orig[j]) < 0
  {
    var f := Filter(orig[..j], keep);
    forall k | 0 <= k < |f| ensures cmp(f[k], orig[j]) < 0 {
      assert f[k] in f;
      var m :| 0 <= m < j && orig[..j][m] == f[k];
      assert orig[m] == f[k];
    }
  }

  /** In a sorted index without ties the entry after `j` is greater, so the
      seek comparator does not place it before the entry at `j`. */
  lemma NextNotBefore<T(!new)>(orig: seq<T>, j: nat, cmp: (T, T) -> int, seekCmp: (T, T) -> int)
    requires TotalPreorder(cmp) && Sorted(orig, cmp) && NoTies(orig, cmp) && Coarser(cmp, seekCmp)
    requires j + 1 < |orig|
    ensures seekCmp(orig[j + 1], orig[j]) >= 0
  {
    assert cmp(orig[j], orig[j + 1]) < 0;
    assert cmp(orig[j + 1], orig[j]) > 0;
  }

  lemma ConcatAssoc<T>(a: seq<T>, b: seq<T>, c: seq<T>)
    ensures (a + b) + c == a + (b + c)
  {
  }

  /** `SLIterator` state: predecessor, current node and the `valid` flag. */
  datatype Cursor = Cursor(prev: int, curr: nat, valid: bool)

  /** With no concurrent deletions the predecessor is the node just before
      the current one, the head sentinel before the first element. */
  predicate Linked<T>(s: seq<T>, c: Cursor) {
    c.curr <= |s| && c.prev == c.curr - 1
  }

  /** `SeekFirst`: current is the head's successor, the tail when empty. */
  function SeekFirst<T>(s: seq<T>): (c: Cursor)
    ensures Linked(s, c) && c.valid
    ensures c.prev == -1
    ensures |s| == 0 ==> c.curr == |s|
    ensures |s| > 0 ==> c.curr < |s|
  {
    Cursor(-1, 0, true)
  }

  /** `Seek(x)`: positions at the first element not less than `x` and tells
      whether that element compares equal to `x`. */
  function Seek<T>(s: seq<T>, cmp: (T, T) -> int, x: T): (r: (Cursor, bool))
    ensures Linked(s, r.0) && r.0.valid
    ensures forall j :: 0 <= j < r.0.curr ==> cmp(s[j], x) < 0
    ensures r.0.curr < |s| ==> cmp(s[r.0.curr], x) >= 0
    ensures r.1 <==> r.0.curr < |s| && cmp(s[r.0.curr], x) == 0
  {
    var (i, found) := FindPath(s, cmp, x);
    (Cursor(i - 1, i, true), found)
  }

  /** `Valid`: false once the tail is reached; the flag it clears stays
      cleared until a seek or `Next` sets it again. */
  function Valid<T>(s: seq<T>, c: Cursor): (r: (Cursor, bool))
    requires c.curr <= |s|
    ensures r.0.curr == c.curr && r.0.prev == c.prev
    ensures r.0.valid == r.1
    ensures r.1 ==> c.curr < |s|
    ensures c.valid && c.curr < |s| ==> r.1
    ensures !c.valid ==> !r.1
  {
    var v := c.valid && c.curr != |s|;
    (c.(valid := v), v)
  }

  /** `Get`: the item at the current node; the sentinel tail holds none. */
  function Get<T>(s: seq<T>, c: Cursor): (r: Option<T>)
    requires c.curr <= |s|
    ensures r.Some? <==> c.curr < |s|
    ensures r.Some? ==> r.value == s[c.curr]
  {
    if c.curr < |s| then Some(s[c.curr]) else None
  }

  /** `Next` with no deleted successor: `prev := curr; curr := curr.next`. */
  function Next<T>(s: seq<T>, c: Cursor): (r: Cursor)
    requires c.curr < |s|
    ensures Linked(s, r) && r.valid
    ensures r.prev == c.curr && r.curr == c.curr + 1
  {
    Cursor(c.curr, c.curr + 1, true)
  }

  /** The items a `for ; it.Valid(); it.Next() { it.Get() }` loop reads. */
  function Walk<T>(s: seq<T>, c: Cursor): (r: seq<T>)
    requires c.curr <= |s|
    ensures |r| <= |s| - c.curr
    decreases |s| - c.curr
  {
    var (c1, ok) := Valid(s, c);
    if !ok then [] else [s[c1.curr]] + Walk(s, Next(s, c1))
  }

  lemma {:induction false} WalkFrom<T>(s: seq<T>, c: Cursor)
    requires c.curr <= |s| && c.valid
    ensures Walk(s, c) == s[c.curr..]
    decreases |s| - c.curr
  {
    if c.curr < |s| {
      var (c1, _) := Valid(s, c);
      WalkFrom(s, Next(s, c1));
      assert s[c.curr..] == [s[c.curr]] + s[c.curr + 1..];
    }
  }

  /** `SeekFirst` followed by `Next` until `!Valid()` visits every element
      exactly once, in index order. */
  lemma WalkVisitsAll<T>(s: seq<T>)
    ensures Walk(s, SeekFirst(s)) == s
  {
    WalkFrom(s, SeekFirst(s));
  }
}
