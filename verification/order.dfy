/**
 Three-way comparators (negative, zero, positive, as Go's `CompareFn` and
 `KeyCompare` return them), the sortedness of an index under such a
 comparator, and order-preserving filtering of a sequence.
 */
module Order {

  /** A comparator is a total preorder when its sign flips with its arguments
      and "compares not greater" is transitive. Elements comparing 0 are
      equivalent without being equal (two versions of one key). */
  ghost predicate TotalPreorder<T(!new)>(cmp: (T, T) -> int) {
    && (forall a, b :: cmp(a, b) < 0 <==> cmp(b, a) > 0)
    && (forall a, b, c :: cmp(a, b) <= 0 && cmp(b, c) <= 0 ==> cmp(a, c) <= 0)
  }

  /** Every element compares not greater than every later element. */
  ghost predicate Sorted<T>(s: seq<T>, cmp: (T, T) -> int) {
    forall i, j :: 0 <= i < j < |s| ==> cmp(s[i], s[j]) <= 0
  }

  lemma Reflexive<T(!new)>(cmp: (T, T) -> int, a: T)
    requires TotalPreorder(cmp)
    ensures cmp(a, a) == 0
  {
    assert cmp(a, a) < 0 <==> cmp(a, a) > 0;
  }

  /** "Less" followed by "not greater" is "less". */
  lemma LessThenNotGreater<T(!new)>(cmp: (T, T) -> int, a: T, b: T, c: T)
    requires TotalPreorder(cmp)
    requires cmp(a, b) < 0 && cmp(b, c) <= 0
    ensures cmp(a, c) < 0
  {
  }

  /** "Not less" followed by "not greater" from the other side is "not less". */
  lemma NotLessThenNotGreater<T(!new)>(cmp: (T, T) -> int, a: T, b: T, x: T)
    requires TotalPreorder(cmp)
    requires cmp(a, x) >= 0 && cmp(a, b) <= 0
    ensures cmp(b, x) >= 0
  {
    assert cmp(x, a) <= 0;
  }

  /** The elements of `s` that `keep` accepts, in their original order. */
  function Filter<T>(s: seq<T>, keep: T -> bool): (r: seq<T>)
    ensures |r| <= |s|
    ensures forall x :: x in r ==> x in s && keep(x)
  {
    if |s| == 0 then []
    else (if keep(s[0]) then [s[0]] else []) + Filter(s[1..], keep)
  }

  /** `Filter` on a sequence of three, element by element. */
  lemma FilterOfThree<T>(a: T, b: T, c: T, keep: T -> bool)
    ensures Filter([a, b, c], keep) ==
            (if keep(a) then [a] else []) + (if keep(b) then [b] else []) + (if keep(c) then [c] else [])
  {
    assert [a, b, c][1..] == [b, c] && [b, c][1..] == [c] && [c][1..] == [];
    assert Filter([c], keep) == (if keep(c) then [c] else []) + Filter([], keep);
    assert Filter([b, c], keep) == (if keep(b) then [b] else []) + Filter([c], keep);
  }

  /** Filtering keeps every accepted element as often as it occurs, and no other. */
  lemma {:induction false} FilterCount<T(!new)>(s: seq<T>, keep: T -> bool)
    ensures forall x :: multiset(Filter(s, keep))[x] == if keep(x) then multiset(s)[x] else 0
  {
    if |s| > 0 {
      FilterCount(s[1..], keep);
      assert s == [s[0]] + s[1..];
    }
  }

  lemma FilterMembership<T(!new)>(s: seq<T>, keep: T -> bool, x: T)
    ensures x in Filter(s, keep) <==> x in s && keep(x)
  {
    FilterCount(s, keep);
    var r := Filter(s, keep);
    assert x in r <==> multiset(r)[x] > 0;
    assert x in s <==> multiset(s)[x] > 0;
  }

  lemma {:induction false} FilterConcat<T(!new)>(a: seq<T>, b: seq<T>, keep: T -> bool)
    ensures Filter(a + b, keep) == Filter(a, keep) + Filter(b, keep)
  {
    if |a| == 0 {
      assert a + b == b;
    } else {
      assert (a + b)[1..] == a[1..] + b;
      FilterConcat(a[1..], b, keep);
    }
  }

  /** Filtering with a weaker test first changes nothing. */
  lemma {:induction false} FilterFilter<T(!new)>(s: seq<T>, outer: T -> bool, inner: T -> bool)
    requires forall x :: x in s && inner(x) ==> outer(x)
    ensures Filter(Filter(s, outer), inner) == Filter(s, inner)
  {
    if |s| > 0 {
      FilterFilter(s[1..], outer, inner);
      var t := Filter(s[1..], outer);
      if outer(s[0]) {
        var u := [s[0]] + t;
        assert Filter(s, outer) == u;
        assert u[0] == s[0] && u[1..] == t;
        assert Filter(u, inner) == (if inner(s[0]) then [s[0]] else []) + Filter(t, inner);
      } else {
        assert !inner(s[0]);
        assert Filter(s, outer) == t;
      }
    }
  }

  /** Two tests that agree on the elements of `s` select the same elements. */
  lemma {:induction false} FilterAgree<T(!new)>(s: seq<T>, p: T -> bool, q: T -> bool)
    requires forall x :: x in s ==> (p(x) <==> q(x))
    ensures Filter(s, p) == Filter(s, q)
  {
    if |s| > 0 {
      FilterAgree(s[1..], p, q);
    }
  }

  lemma {:induction false} FilterSorted<T(!new)>(s: seq<T>, keep: T -> bool, cmp: (T, T) -> int)
    requires Sorted(s, cmp)
    ensures Sorted(Filter(s, keep), cmp)
  {
    if |s| > 0 {
      var t := Filter(s[1..], keep);
      FilterSorted(s[1..], keep, cmp);
      if keep(s[0]) {
        var r := [s[0]] + t;
        forall i, j | 0 <= i < j < |r| ensures cmp(r[i], r[j]) <= 0 {
          if i == 0 {
            FilterMembership(s[1..], keep, r[j]);
            var k :| 0 <= k < |s[1..]| && s[1..][k] == r[j];
            assert s[k + 1] == r[j];
          } else {
            assert r[i] == t[i - 1] && r[j] == t[j - 1];
          }
        }
      }
    }
  }

  /** Replacing one element by another the test treats alike replaces at
      most that element in the filtered sequence. */
  lemma {:induction false} FilterReplace<T(!new)>(s: seq<T>, keep: T -> bool, j: int, y: T)
    requires 0 <= j < |s| && keep(y) == keep(s[j])
    ensures |Filter(s[j := y], keep)| == |Filter(s, keep)|
    ensures forall k :: 0 <= k < |Filter(s, keep)| ==>
              Filter(s[j := y], keep)[k] == Filter(s, keep)[k] ||
              (Filter(s[j := y], keep)[k] == y && Filter(s, keep)[k] == s[j])
  {
    var t := s[j := y];
    var h := if keep(s[0]) then [s[0]] else [];
    var h' := if keep(t[0]) then [t[0]] else [];
    assert Filter(s, keep) == h + Filter(s[1..], keep);
    assert Filter(t, keep) == h' + Filter(t[1..], keep);
    if j > 0 {
      assert t[1..] == s[1..][j - 1 := y];
      FilterReplace(s[1..], keep, j - 1, y);
      assert h' == h;
    } else {
      assert t[1..] == s[1..];
    }
  }

  /** Inserting an element the test rejects leaves the filtered sequence as it was. */
  lemma {:induction false} FilterInsertRejected<T(!new)>(s: seq<T>, keep: T -> bool, p: int, y: T)
    requires 0 <= p <= |s| && !keep(y)
    ensures Filter(s[..p] + [y] + s[p..], keep) == Filter(s, keep)
  {
    var t := s[..p] + [y] + s[p..];
    if p == 0 {
      assert t[0] == y && t[1..] == s;
    } else {
      assert t[0] == s[0];
      assert t[1..] == s[1..][..p - 1] + [y] + s[1..][p - 1..];
      FilterInsertRejected(s[1..], keep, p - 1, y);
    }
  }

  /** Sequences holding the same elements as often have filtered sequences
      of the same length. */
  lemma FilterLengthByMultiset<T(!new)>(a: seq<T>, b: seq<T>, keep: T -> bool)
    requires multiset(a) == multiset(b)
    ensures |Filter(a, keep)| == |Filter(b, keep)|
  {
    FilterCount(a, keep);
    FilterCount(b, keep);
    assert multiset(Filter(a, keep)) == multiset(Filter(b, keep));
    assert |multiset(Filter(a, keep))| == |Filter(a, keep)|;
  }

  /** Filtering by one test and then by another selects what both accept. */
  lemma {:induction false} FilterOfFilter<T(!new)>(s: seq<T>, p: T -> bool, q: T -> bool, both: T -> bool)
    requires forall x :: x in s ==> (both(x) <==> p(x) && q(x))
    ensures Filter(Filter(s, p), q) == Filter(s, both)
  {
    if |s| > 0 {
      assert forall x :: x in s[1..] ==> x in s;
      FilterOfFilter(s[1..], p, q, both);
      var t := Filter(s[1..], p);
      assert Filter(s, both) == (if both(s[0]) then [s[0]] else []) + Filter(s[1..], both);
      if p(s[0]) {
        var u := [s[0]] + t;
        assert Filter(s, p) == u;
        assert u[0] == s[0] && u[1..] == t;
        assert Filter(u, q) == (if q(s[0]) then [s[0]] else []) + Filter(t, q);
      } else {
        assert Filter(s, p) == t;
      }
    }
  }

  /** A test that is the disjoint union of two others selects as many
      elements as they do together. */
  lemma {:induction false} FilterSplitLength<T(!new)>(s: seq<T>, p: T -> bool, q: T -> bool, r: T -> bool)
    requires forall x :: x in s ==> (p(x) <==> q(x) || r(x)) && !(q(x) && r(x))
    ensures |Filter(s, p)| == |Filter(s, q)| + |Filter(s, r)|
  {
    if |s| > 0 {
      assert forall x :: x in s[1..] ==> x in s;
      FilterSplitLength(s[1..], p, q, r);
    }
  }

  /** The filtered sequence is empty exactly when the test rejects every element. */
  lemma FilterEmpty<T(!new)>(s: seq<T>, keep: T -> bool)
    ensures |Filter(s, keep)| == 0 <==> forall x :: x in s ==> !keep(x)
  {
    if |Filter(s, keep)| > 0 {
      assert Filter(s, keep)[0] in Filter(s, keep);
    } else {
      forall x | x in s ensures !keep(x) {
        FilterMembership(s, keep, x);
      }
    }
  }
}
