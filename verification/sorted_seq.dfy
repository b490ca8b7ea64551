/**
  The abstract view shared by both linked lists: the values stored after the
  sentinel head, in list order, as a sequence of integers. The lists keep this
  sequence non-decreasing and allow duplicates, so it behaves as a multiset.
*/
module SortedSeq {

  /** Non-decreasing order, the order both lists keep. */
  predicate Sorted(s: seq<int>)
  {
    forall i, j | 0 <= i < j < |s| :: s[i] <= s[j]
  }

  /**
    Where a traversal `while (curr && curr->value < val)` stops: the number of
    nodes it steps past, which is the index of the first value `>= val`, or
    `|s|` when there is none.
  */
  function LowerBound(s: seq<int>, val: int): (p: nat)
    ensures p <= |s|
    ensures forall k | 0 <= k < p :: s[k] < val
    ensures p < |s| ==> s[p] >= val
  {
    if s == [] || s[0] >= val then 0 else 1 + LowerBound(s[1..], val)
  }

  /** Any index with the two properties of `LowerBound` is `LowerBound`. */
  lemma LowerBoundUnique(s: seq<int>, val: int, p: nat)
    requires p <= |s|
    requires forall k | 0 <= k < p :: s[k] < val
    requires p < |s| ==> s[p] >= val
    ensures p == LowerBound(s, val)
  {
  }

  /**
    In a sorted sequence, `val` occurs exactly when the traversal stops on a
    node holding `val`; that node is then the first occurrence.
  */
  lemma LowerBoundFinds(s: seq<int>, val: int)
    ensures Sorted(s) ==> (val in s <==> LowerBound(s, val) < |s| && s[LowerBound(s, val)] == val)
  {
    var p := LowerBound(s, val);
    if Sorted(s) && val in s {
      var j :| 0 <= j < |s| && s[j] == val;
      assert p <= j;
    }
  }

  /** The first element of a sorted sequence is a least element. */
  lemma SortedHeadIsLeast(s: seq<int>, x: int)
    requires Sorted(s) && x in s
    ensures s[0] <= x
  {
  }

  /** Dropping the first element keeps a sequence sorted. */
  lemma SortedTail(s: seq<int>)
    requires Sorted(s) && s != []
    ensures Sorted(s[1..])
  {
    forall i, j | 0 <= i < j < |s| - 1
      ensures s[1..][i] <= s[1..][j]
    {
      assert s[1..][i] == s[i + 1] && s[1..][j] == s[j + 1];
    }
  }

  /** Sorted sequences holding the same multiset of values are equal. */
  lemma {:induction false} SortedUnique(a: seq<int>, b: seq<int>)
    requires Sorted(a) && Sorted(b)
    requires multiset(a) == multiset(b)
    ensures a == b
  {
    if a == [] {
      assert |b| == |multiset(b)| == 0;
    } else {
      assert |b| == |multiset(b)| == |multiset(a)| == |a| > 0;
      assert a[0] in multiset(b) && b[0] in multiset(a);
      SortedHeadIsLeast(a, b[0]);
      SortedHeadIsLeast(b, a[0]);
      var x := a[0];
      assert b[0] == x;
      assert a == [x] + a[1..];
      assert b == [x] + b[1..];
      assert multiset(a[1..]) == multiset(b[1..]) by {
        assert multiset(a) == multiset{x} + multiset(a[1..]);
        assert multiset(b) == multiset{x} + multiset(b[1..]);
        assert multiset(a[1..]) == multiset(a) - multiset{x};
        assert multiset(b[1..]) == multiset(b) - multiset{x};
      }
      SortedTail(a);
      SortedTail(b);
      SortedUnique(a[1..], b[1..]);
    }
  }

  /** Splicing `val` in at the lower-bound position keeps a sorted sequence sorted. */
  lemma SpliceSorted(s: seq<int>, val: int)
    ensures Sorted(s) ==> Sorted(s[..LowerBound(s, val)] + [val] + s[LowerBound(s, val)..])
  {
    var p := LowerBound(s, val);
    var r := s[..p] + [val] + s[p..];
    forall i, j | Sorted(s) && 0 <= i < j < |r|
      ensures r[i] <= r[j]
    {
      if j < p {
        assert r[i] == s[i] && r[j] == s[j];
      } else if j == p {
        assert r[i] == s[i] && r[j] == val;
      } else if i < p {
        assert r[i] == s[i] && r[j] == s[j - 1];
      } else if i == p {
        assert r[j] == s[j - 1] >= s[p];
      } else {
        assert r[i] == s[i - 1] && r[j] == s[j - 1];
      }
    }
  }

  /** Deleting one element keeps a sorted sequence sorted. */
  lemma DeleteSorted(s: seq<int>, i: nat)
    requires i < |s|
    ensures Sorted(s) ==> Sorted(s[..i] + s[i + 1..])
  {
    var r := s[..i] + s[i + 1..];
    forall x, y | Sorted(s) && 0 <= x < y < |r|
      ensures r[x] <= r[y]
    {
      var sx := if x < i then x else x + 1;
      var sy := if y < i then y else y + 1;
      assert r[x] == s[sx] && r[y] == s[sy];
    }
  }
}
