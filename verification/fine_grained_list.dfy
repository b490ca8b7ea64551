/**
  The sorted linked list with hand-over-hand locking, in its single-threaded
  meaning. The list is the sequence of values after the sentinel head; each
  operation is one atomic step on that sequence. Every operation walks from
  the head while the current value is `< val`, so it stops at
  `LowerBound(s, val)`: `pred` is the node before that position (the
  sentinel when the position is 0) and `curr` the node at it, or null.
*/
module FineGrainedList {
  import opened SortedSeq

  /** What `remove` reports, together with the list it leaves behind. */
  datatype Removal = Removal(found: bool, rest: seq<int>)

  /** The list a fresh `FineGrainedList` holds: nothing after the sentinel. */
  function New(): (s: seq<int>)
    ensures Sorted(s) && multiset(s) == multiset{}
  {
    []
  }

  /**
    `insert(val)`: link a new node holding `val` between `pred` and `curr`,
    that is, just before the first value `>= val`, or at the end. Equal values
    are not checked for, so a duplicate is added like any other value.
  */
  function Insert(s: seq<int>, val: int): (r: seq<int>)
    ensures |r| == |s| + 1
    ensures multiset(r) == multiset(s) + multiset{val}
    ensures Sorted(s) ==> Sorted(r)
  {
    var p := LowerBound(s, val);
    var r := s[..p] + [val] + s[p..];
    SpliceSorted(s, val);
    assert multiset(s) == multiset(s[..p]) + multiset(s[p..]) by {
      assert s == s[..p] + s[p..];
    }
    assert multiset(r) == multiset(s[..p]) + multiset{val} + multiset(s[p..]);
    r
  }

  /**
    Where `insert` links the new node: at the traversal's stopping point `p`,
    after every value `< val` and before every old value `>= val`, with the
    old values on either side left in order.
  */
  lemma InsertPosition(s: seq<int>, val: int)
    ensures var p := LowerBound(s, val); var r := Insert(s, val);
      && r[p] == val
      && (forall k | 0 <= k < p :: r[k] == s[k] && r[k] < val)
      && (forall k | p <= k < |s| :: r[k + 1] == s[k])
  {
    var p := LowerBound(s, val);
    var r := Insert(s, val);
    assert r == s[..p] + [val] + s[p..];
    forall k | p <= k < |s|
      ensures r[k + 1] == s[k]
    {
      assert r[k + 1] == s[p..][k - p];
    }
  }

  /**
    `remove(val)`: if the traversal stops on a node holding `val`, unlink it
    and report true; otherwise report false and leave the list as it was.
  */
  function Remove(s: seq<int>, val: int): (r: Removal)
    ensures !r.found ==> r.rest == s
    ensures r.found ==> multiset(r.rest) == multiset(s) - multiset{val}
    ensures r.found ==> exists i | 0 <= i < |s| :: s[i] == val && val !in s[..i] && r.rest == s[..i] + s[i + 1..]
    ensures Sorted(s) ==> (r.found <==> val in s)
    ensures Sorted(s) ==> Sorted(r.rest)
  {
    var p := LowerBound(s, val);
    LowerBoundFinds(s, val);
    if p < |s| && s[p] == val then
      assert s == s[..p] + [s[p]] + s[p + 1..];
      assert val !in s[..p];
      DeleteSorted(s, p);
      Removal(true, s[..p] + s[p + 1..])
    else
      Removal(false, s)
  }

  /** `contains(val)`: whether the traversal stops on a node holding `val`. */
  function Contains(s: seq<int>, val: int): (b: bool)
    ensures b ==> val in s
    ensures Sorted(s) ==> (b <==> val in s)
  {
    LowerBoundFinds(s, val);
    var p := LowerBound(s, val);
    p < |s| && s[p] == val
  }

  /** Of all sorted lists holding the old values plus one `val`, `insert` builds the only one. */
  lemma InsertIsCanonical(s: seq<int>, val: int, t: seq<int>)
    requires Sorted(s) && Sorted(t)
    requires multiset(t) == multiset(s) + multiset{val}
    ensures Insert(s, val) == t
  {
    SortedUnique(Insert(s, val), t);
  }

  /** Removing a value just inserted succeeds and restores the list, duplicates or not. */
  lemma InsertThenRemove(s: seq<int>, val: int)
    ensures Remove(Insert(s, val), val) == Removal(true, s)
  {
    var p := LowerBound(s, val);
    var r := Insert(s, val);
    LowerBoundUnique(r, val, p);
    var rest := r[..p] + r[p + 1..];
    assert |rest| == |s|;
    forall k | 0 <= k < |s|
      ensures rest[k] == s[k]
    {
      if k < p {
        assert rest[k] == r[k];
      } else {
        assert rest[k] == r[k + 1];
      }
    }
    assert rest == s;
  }

  /** A value inserted is then contained, and inserting changes no other membership. */
  lemma InsertThenContains(s: seq<int>, val: int, x: int)
    requires Sorted(s)
    ensures Contains(Insert(s, val), val)
    ensures x != val ==> Contains(Insert(s, val), x) == Contains(s, x)
  {
    var r := Insert(s, val);
    assert val in multiset(r);
    if x != val {
      assert (x in multiset(r)) == (x in multiset(s));
    }
  }

  /**
    The example run: insert 10, 5 and 20 into a new list; then 10 is found,
    removing it succeeds, and afterwards 10 is no longer found.
  */
  lemma ExampleRun()
    ensures var l := Insert(Insert(Insert(New(), 10), 5), 20);
      && Sorted(l) && multiset(l) == multiset{5, 10, 20}
      && Contains(l, 10)
      && Remove(l, 10).found
      && !Contains(Remove(l, 10).rest, 10)
  {
    var l := Insert(Insert(Insert(New(), 10), 5), 20);
    ExampleQueries(l);
  }

  /** The queries of the example run, on any list holding exactly 5, 10 and 20. */
  lemma ExampleQueries(l: seq<int>)
    requires Sorted(l) && multiset(l) == multiset{5, 10, 20}
    ensures Contains(l, 10) && Remove(l, 10).found
    ensures !Contains(Remove(l, 10).rest, 10)
  {
    assert 10 in multiset(l);
    var r := Remove(l, 10);
    assert multiset(r.rest) == multiset{5, 20};
    assert 10 !in multiset(r.rest);
  }
}
