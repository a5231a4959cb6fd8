/**
 Byte strings and the two comparisons the engine uses on them: Go's
 `bytes.Compare` (lexicographic) and the prefix-only comparison of
 `defaultKeyCmp` and `byteItemKeyCompare`, which compares only as many bytes
 as the shorter argument has.
 */
module Bytes {
  import opened Order

  newtype byte = x: int | 0 <= x < 256

  /** Go's `bytes.Compare`: -1, 0 or +1 by lexicographic order, a proper
      prefix ordering before the longer string. */
  function Compare(a: seq<byte>, b: seq<byte>): (r: int)
    ensures -1 <= r <= 1
    ensures r == 0 <==> a == b
    ensures |a| == 0 && |b| > 0 ==> r == -1
  {
    if |a| == 0 && |b| == 0 then 0
    else if |a| == 0 then -1
    else if |b| == 0 then 1
    else if a[0] < b[0] then -1
    else if a[0] > b[0] then 1
    else
      assert a == [a[0]] + a[1..] && b == [b[0]] + b[1..];
      Compare(a[1..], b[1..])
  }

  lemma {:induction false} CompareAntisymmetric(a: seq<byte>, b: seq<byte>)
    ensures Compare(a, b) == -Compare(b, a)
  {
    if |a| > 0 && |b| > 0 && a[0] == b[0] {
      CompareAntisymmetric(a[1..], b[1..]);
    }
  }

  lemma {:induction false} CompareTransitive(a: seq<byte>, b: seq<byte>, c: seq<byte>)
    requires Compare(a, b) <= 0 && Compare(b, c) <= 0
    ensures Compare(a, c) <= 0
  {
    if |a| > 0 && |b| > 0 && |c| > 0 && a[0] == b[0] == c[0] {
      CompareTransitive(a[1..], b[1..], c[1..]);
    }
  }

  /** `bytes.Compare` is a total order on byte strings. */
  lemma CompareIsTotalPreorder()
    ensures TotalPreorder(Compare)
  {
    forall a, b ensures Compare(a, b) < 0 <==> Compare(b, a) > 0 {
      CompareAntisymmetric(a, b);
    }
    forall a, b, c | Compare(a, b) <= 0 && Compare(b, c) <= 0 ensures Compare(a, c) <= 0 {
      CompareTransitive(a, b, c);
    }
  }

  /** Compares the common-length prefixes of `a` and `b` only
      (memstore's `defaultKeyCmp`, and the key step of `byteItemKeyCompare`). */
  function PrefixCompare(a: seq<byte>, b: seq<byte>): (r: int)
    ensures -1 <= r <= 1
  {
    var l := if |a| < |b| then |a| else |b|;
    Compare(a[..l], b[..l])
  }

  ghost predicate PrefixRelated(a: seq<byte>, b: seq<byte>) {
    (|a| <= |b| && a == b[..|a|]) || (|b| <= |a| && b == a[..|b|])
  }

  /** The prefix comparison reports "equal" exactly when one string is a
      prefix of the other, so it identifies strings that differ. */
  lemma PrefixCompareZero(a: seq<byte>, b: seq<byte>)
    ensures PrefixCompare(a, b) == 0 <==> PrefixRelated(a, b)
  {
    if |a| <= |b| {
      assert a[..|a|] == a;
    } else {
      assert b[..|b|] == b;
    }
  }

  /** Swapping the arguments flips the sign; a string equals itself. */
  lemma PrefixCompareAntisymmetric(a: seq<byte>, b: seq<byte>)
    ensures PrefixCompare(a, b) == -PrefixCompare(b, a)
    ensures PrefixCompare(a, a) == 0
  {
    var l := if |a| < |b| then |a| else |b|;
    CompareAntisymmetric(a[..l], b[..l]);
  }

  /** Agrees with `bytes.Compare` whenever the strings have the same length. */
  lemma PrefixCompareSameLength(a: seq<byte>, b: seq<byte>)
    requires |a| == |b|
    ensures PrefixCompare(a, b) == Compare(a, b)
  {
    assert a[..|a|] == a && b[..|b|] == b;
  }

  /** "a" equals both "ab" and "ac" under the prefix comparison, yet "ab"
      is less than "ac": "equal" is not transitive, so the comparison is not
      a total preorder. */
  lemma PrefixCompareIsNotPreorder()
    ensures PrefixCompare([97], [97, 98]) == 0
    ensures PrefixCompare([97], [97, 99]) == 0
    ensures PrefixCompare([97, 98], [97, 99]) < 0
    ensures !TotalPreorder(PrefixCompare)
  {
    var a: seq<byte>, ab: seq<byte>, ac: seq<byte> := [97], [97, 98], [97, 99];
    PrefixCompareZero(a, ab);
    PrefixCompareZero(a, ac);
    assert ab[..2] == ab && ac[..2] == ac;
    assert ab[1..] == [98] && ac[1..] == [99];
    assert Compare(ab, ac) == Compare([98], [99]);
    PrefixCompareAntisymmetric(ab, a);
    assert PrefixCompare(ac, a) <= 0 && PrefixCompare(a, ab) <= 0;
    assert PrefixCompare(ac, ab) > 0 by {
      PrefixCompareAntisymmetric(ac, ab);
    }
  }
}
