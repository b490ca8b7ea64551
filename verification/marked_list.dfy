/**
  The optimistic (lazy) sorted list with a `removed` mark on every node, run
  one operation at a time.

  The heap of one list is a sequence of nodes addressed by index; node 0 is
  the sentinel head with value -1. A node that `remove` unlinks stays in the
  heap, marked, because the list never reclaims it. The nodes reachable from
  the head are described by a `chain` of node indices, head first, which the
  operations take and return as a ghost parameter: it is the path the `next`
  references trace, so it is determined by the heap.

  Each operation is proved to act on the reachable values exactly as the
  corresponding `FineGrainedList` function acts on a sequence.
*/
module MarkedList {
  import opened SortedSeq
  import FineGrainedList

  /** A `Node*`: null, or the index of a node in the heap. */
  datatype Ref = Null | Ptr(id: nat)

  datatype Node = Node(value: int, next: Ref, removed: bool)

  /** The heap of one list. `nodes[Head]` is the sentinel. */
  datatype List = List(nodes: seq<Node>)

  const Head: nat := 0

  /** The dummy value the sentinel holds. */
  const SentinelValue: int := -1

  /** `r` is null or addresses a node of the heap. */
  predicate InHeap(l: List, r: Ref)
  {
    r.Ptr? ==> r.id < |l.nodes|
  }

  /** The reference that follows position `k` of a chain: the next node's index, or null at the end. */
  function Successor(chain: seq<nat>, k: nat): (r: Ref)
  {
    if k + 1 < |chain| then Ptr(chain[k + 1]) else Null
  }

  /**
    `chain` is the path from the head along `next`: it starts at the head,
    visits distinct nodes of the heap, and each node's `next` is the
    following entry, the last one's being null.
  */
  ghost predicate IsChain(l: List, chain: seq<nat>)
  {
    && |chain| >= 1 && chain[0] == Head
    && (forall k | 0 <= k < |chain| :: chain[k] < |l.nodes|)
    && (forall j, k | 0 <= j < k < |chain| :: chain[j] != chain[k])
    && (forall k | 0 <= k < |chain| - 1 :: l.nodes[chain[k]].next == Ptr(chain[k + 1]))
    && l.nodes[chain[|chain| - 1]].next == Null
  }

  /** Along a chain, every node's `next` is the chain's successor reference. */
  lemma NextIsSuccessor(l: List, chain: seq<nat>, k: nat)
    requires IsChain(l, chain) && k < |chain|
    ensures l.nodes[chain[k]].next == Successor(chain, k)
  {
  }

  /** Two chains of one heap agree wherever both are defined. */
  lemma {:induction false} ChainsAgree(l: List, c1: seq<nat>, c2: seq<nat>, k: nat)
    requires IsChain(l, c1) && IsChain(l, c2) && k < |c1| && k < |c2|
    ensures c1[k] == c2[k]
  {
    if k > 0 {
      ChainsAgree(l, c1, c2, k - 1);
      NextIsSuccessor(l, c1, k - 1);
      NextIsSuccessor(l, c2, k - 1);
    }
  }

  /** The heap determines its chain: there is only one path from the head to null. */
  lemma ChainUnique(l: List, c1: seq<nat>, c2: seq<nat>)
    requires IsChain(l, c1) && IsChain(l, c2)
    ensures c1 == c2
  {
    var m := if |c1| < |c2| then |c1| else |c2|;
    ChainsAgree(l, c1, c2, m - 1);
    NextIsSuccessor(l, c1, m - 1);
    NextIsSuccessor(l, c2, m - 1);
    assert Successor(c1, m - 1) == Successor(c2, m - 1);
    assert |c1| == |c2|;
    forall k | 0 <= k < |c1|
      ensures c1[k] == c2[k]
    {
      ChainsAgree(l, c1, c2, k);
    }
  }

  /** The values of the reachable nodes after the sentinel, in list order. */
  ghost function Values(l: List, chain: seq<nat>): (vs: seq<int>)
    requires IsChain(l, chain)
    ensures |vs| == |chain| - 1
  {
    seq(|chain| - 1, k requires 0 <= k < |chain| - 1 => l.nodes[chain[k + 1]].value)
  }

  /** A node is marked exactly when it is not on the chain: marking and unlinking go together. */
  ghost predicate MarkedIffUnlinked(l: List, chain: seq<nat>)
  {
    forall id | 0 <= id < |l.nodes| :: l.nodes[id].removed <==> id !in chain
  }

  /**
    The list invariant: the sentinel holds -1, no reachable node is marked and
    every unreachable one is, and the reachable values are in non-decreasing
    order.
  */
  ghost predicate Valid(l: List, chain: seq<nat>)
  {
    && IsChain(l, chain)
    && l.nodes[Head].value == SentinelValue
    && MarkedIffUnlinked(l, chain)
    && Sorted(Values(l, chain))
  }

  /** A new list: the sentinel alone, unmarked, holding -1. */
  function New(): (l: List)
    ensures Valid(l, [Head])
    ensures Values(l, [Head]) == []
  {
    List([Node(SentinelValue, Null, false)])
  }

  /** The check made after locking: `pred` and `curr` are unmarked and still adjacent. */
  predicate Validate(l: List, pred: nat, curr: Ref)
    requires pred < |l.nodes| && InHeap(l, curr)
  {
    && !l.nodes[pred].removed
    && !(curr.Ptr? && l.nodes[curr.id].removed)
    && l.nodes[pred].next == curr
  }

  /**
    In a valid list, `validate(pred, curr)` holds exactly when `pred` is
    reachable and `curr` is its successor; in particular it fails for any
    node that has been unlinked.
  */
  lemma ValidateMeaning(l: List, chain: seq<nat>, pred: nat, curr: Ref)
    requires Valid(l, chain) && pred < |l.nodes| && InHeap(l, curr)
    ensures Validate(l, pred, curr) <==>
      exists k | 0 <= k < |chain| :: chain[k] == pred && curr == Successor(chain, k)
  {
    if Validate(l, pred, curr) {
      assert pred in chain;
      var k :| 0 <= k < |chain| && chain[k] == pred;
      assert curr == Successor(chain, k);
    }
  }

  /**
    The unlocked traversal shared by every operation: step from the head
    while the current value is `< val`. It stops at position `k` of the chain,
    the lower bound of `val` among the reachable values, and `validate` then
    holds, so in a sequential run the operations never retry.
  */
  method Locate(l: List, ghost chain: seq<nat>, val: int) returns (pred: nat, curr: Ref, ghost k: nat)
    requires Valid(l, chain)
    ensures k < |chain| && pred == chain[k] && curr == Successor(chain, k)
    ensures k == LowerBound(Values(l, chain), val)
    ensures pred < |l.nodes| && InHeap(l, curr)
    ensures Validate(l, pred, curr)
  {
    ghost var vs := Values(l, chain);
    pred := Head;
    curr := l.nodes[Head].next;
    k := 0;
    while curr.Ptr? && l.nodes[curr.id].value < val
      invariant k < |chain| && pred == chain[k] && curr == Successor(chain, k)
      invariant forall j | 0 <= j < k :: vs[j] < val
      decreases |chain| - k
    {
      assert vs[k] == l.nodes[curr.id].value;
      pred := curr.id;
      curr := l.nodes[pred].next;
      k := k + 1;
    }
    assert k < |vs| ==> vs[k] == l.nodes[curr.id].value;
    LowerBoundUnique(vs, val, k);
  }

  /**
    `insert(val)`: locate, validate, then link a new unmarked node holding
    `val` between `pred` and `curr`. The new node goes right after position
    `k` of the chain, so the reachable values change as `FineGrainedList.Insert`
    changes a sequence. Only `pred` changes, and only its `next`; no other
    existing node changes at all.
  */
  method Insert(l: List, ghost chain: seq<nat>, val: int) returns (l': List, ghost chain': seq<nat>)
    requires Valid(l, chain)
    ensures Valid(l', chain')
    ensures Values(l', chain') == FineGrainedList.Insert(Values(l, chain), val)
    ensures multiset(Values(l', chain')) == multiset(Values(l, chain)) + multiset{val}
    ensures |l'.nodes| == |l.nodes| + 1 && l'.nodes[|l.nodes|].value == val && !l'.nodes[|l.nodes|].removed
    ensures var k := LowerBound(Values(l, chain), val);
      k < |chain| && chain' == chain[..k + 1] + [|l.nodes|] + chain[k + 1..]
    ensures forall id | 0 <= id < |l.nodes| ::
      l'.nodes[id].value == l.nodes[id].value && l'.nodes[id].removed == l.nodes[id].removed
    ensures var k := LowerBound(Values(l, chain), val);
      k < |chain|
      && l'.nodes[chain[k]] == l.nodes[chain[k]].(next := Ptr(|l.nodes|))
      && l'.nodes[|l.nodes|] == Node(val, Successor(chain, k), false)
      && forall id | 0 <= id < |l.nodes| && id != chain[k] :: l'.nodes[id] == l.nodes[id]
  {
    var pred, curr;
    ghost var k;
    pred, curr, k := Locate(l, chain, val);
    var newId := |l.nodes|;
    l' := List(l.nodes[pred := l.nodes[pred].(next := Ptr(newId))] + [Node(val, curr, false)]);
    chain' := chain[..k + 1] + [newId] + chain[k + 1..];
    LinkCorrect(l, chain, k, val, l', chain');
  }

  /** The effect of linking a new node holding `val` after position `k`, the lower bound of `val`. */
  lemma LinkCorrect(l: List, chain: seq<nat>, k: nat, val: int, l': List, chain': seq<nat>)
    requires Valid(l, chain) && k < |chain| && k == LowerBound(Values(l, chain), val)
    requires l' == List(l.nodes[chain[k] := l.nodes[chain[k]].(next := Ptr(|l.nodes|))]
                        + [Node(val, Successor(chain, k), false)])
    requires chain' == chain[..k + 1] + [|l.nodes|] + chain[k + 1..]
    ensures Valid(l', chain')
    ensures Values(l', chain') == FineGrainedList.Insert(Values(l, chain), val)
    ensures multiset(Values(l', chain')) == multiset(Values(l, chain)) + multiset{val}
    ensures |l'.nodes| == |l.nodes| + 1 && l'.nodes[|l.nodes|].value == val && !l'.nodes[|l.nodes|].removed
    ensures forall id | 0 <= id < |l.nodes| ::
      l'.nodes[id].value == l.nodes[id].value && l'.nodes[id].removed == l.nodes[id].removed
    ensures l'.nodes[chain[k]] == l.nodes[chain[k]].(next := Ptr(|l.nodes|))
    ensures l'.nodes[|l.nodes|] == Node(val, Successor(chain, k), false)
    ensures forall id | 0 <= id < |l.nodes| && id != chain[k] :: l'.nodes[id] == l.nodes[id]
  {
    LinkKeepsChain(l, chain, k, val, l', chain');
    LinkKeepsValues(l, chain, k, val, l', chain');
    LinkKeepsMarks(l, chain, k, val, l', chain');
    assert l'.nodes[Head] == l.nodes[Head].(next := l'.nodes[Head].next);
  }

  /** Linking the new node after position `k` yields the chain `chain'`. */
  lemma LinkKeepsChain(l: List, chain: seq<nat>, k: nat, val: int, l': List, chain': seq<nat>)
    requires Valid(l, chain) && k < |chain|
    requires l' == List(l.nodes[chain[k] := l.nodes[chain[k]].(next := Ptr(|l.nodes|))]
                        + [Node(val, Successor(chain, k), false)])
    requires chain' == chain[..k + 1] + [|l.nodes|] + chain[k + 1..]
    ensures IsChain(l', chain')
  {
    var newId := |l.nodes|;
    assert newId !in chain;
    assert |l'.nodes| == newId + 1;
    assert l'.nodes[newId] == Node(val, Successor(chain, k), false);
    assert forall id | 0 <= id < newId && id != chain[k] :: l'.nodes[id] == l.nodes[id];
    assert l'.nodes[chain[k]].next == Ptr(newId);
    assert |chain'| == |chain| + 1;
    assert forall j | 0 <= j <= k :: chain'[j] == chain[j];
    assert chain'[k + 1] == newId;
    assert forall j | k + 1 < j < |chain'| :: chain'[j] == chain[j - 1];
    SpliceDistinct(chain, k, newId);
    forall j | 0 <= j < |chain'| - 1
      ensures l'.nodes[chain'[j]].next == Ptr(chain'[j + 1])
    {
      if j < k {
        assert chain[j] != chain[k];
        assert l.nodes[chain[j]].next == Ptr(chain[j + 1]);
      } else if j == k + 1 {
        assert Successor(chain, k) == Ptr(chain[k + 1]);
      } else if j > k + 1 {
        assert chain[j - 1] != chain[k];
        assert l.nodes[chain[j - 1]].next == Ptr(chain[j]);
      }
    }
    if k + 1 < |chain| {
      assert chain'[|chain'| - 1] == chain[|chain| - 1] != chain[k];
    }
  }

  /** Splicing an index absent from a chain of distinct indices keeps the indices distinct. */
  lemma SpliceDistinct(chain: seq<nat>, k: nat, x: nat)
    requires k < |chain| && x !in chain
    requires forall i, j | 0 <= i < j < |chain| :: chain[i] != chain[j]
    ensures var chain' := chain[..k + 1] + [x] + chain[k + 1..];
      forall i, j | 0 <= i < j < |chain'| :: chain'[i] != chain'[j]
  {
    var chain' := chain[..k + 1] + [x] + chain[k + 1..];
    forall i, j | 0 <= i < j < |chain'|
      ensures chain'[i] != chain'[j]
    {
      var ci := if i <= k then i else i - 1;
      var cj := if j <= k then j else j - 1;
      if i == k + 1 {
        assert chain'[j] == chain[cj];
      } else if j == k + 1 {
        assert chain'[i] == chain[ci];
      } else {
        assert chain'[i] == chain[ci] && chain'[j] == chain[cj];
      }
    }
  }

  /** Linking the new node after position `k` splices `val` into the values at index `k`. */
  lemma LinkKeepsValues(l: List, chain: seq<nat>, k: nat, val: int, l': List, chain': seq<nat>)
    requires Valid(l, chain) && k < |chain| && k == LowerBound(Values(l, chain), val)
    requires l' == List(l.nodes[chain[k] := l.nodes[chain[k]].(next := Ptr(|l.nodes|))]
                        + [Node(val, Successor(chain, k), false)])
    requires chain' == chain[..k + 1] + [|l.nodes|] + chain[k + 1..]
    requires IsChain(l', chain')
    ensures Values(l', chain') == FineGrainedList.Insert(Values(l, chain), val)
  {
    var vs := Values(l, chain);
    var vs' := Values(l', chain');
    var r := FineGrainedList.Insert(vs, val);
    FineGrainedList.InsertPosition(vs, val);
    assert |vs'| == |r|;
    forall j | 0 <= j < |r|
      ensures vs'[j] == r[j]
    {
      if j < k {
        assert chain'[j + 1] == chain[j + 1];
      } else if j == k {
        assert chain'[j + 1] == |l.nodes|;
      } else {
        assert chain'[j + 1] == chain[j];
        assert r[j] == vs[j - 1];
      }
    }
  }

  /** After linking the new node, the marks still tell exactly the unreachable nodes. */
  lemma LinkKeepsMarks(l: List, chain: seq<nat>, k: nat, val: int, l': List, chain': seq<nat>)
    requires IsChain(l, chain) && MarkedIffUnlinked(l, chain) && k < |chain|
    requires l' == List(l.nodes[chain[k] := l.nodes[chain[k]].(next := Ptr(|l.nodes|))]
                        + [Node(val, Successor(chain, k), false)])
    requires chain' == chain[..k + 1] + [|l.nodes|] + chain[k + 1..]
    ensures MarkedIffUnlinked(l', chain')
  {
    assert chain == chain[..k + 1] + chain[k + 1..];
    forall id | 0 <= id < |l'.nodes|
      ensures l'.nodes[id].removed <==> id !in chain'
    {
      if id < |l.nodes| {
        assert l'.nodes[id].removed == l.nodes[id].removed;
        assert id in chain' <==> id in chain;
      } else {
        assert chain'[k + 1] == id;
      }
    }
  }

  /**
    `remove(val)`: locate and validate; if `curr` is null or holds another
    value, report false and change nothing. Otherwise mark `curr` removed,
    point `pred` past it, and report true: the node leaves the chain but keeps
    its value and `next`, and the reachable values change as
    `FineGrainedList.Remove` changes a sequence.
  */
  method Remove(l: List, ghost chain: seq<nat>, val: int)
    returns (found: bool, l': List, ghost chain': seq<nat>)
    requires Valid(l, chain)
    ensures Valid(l', chain')
    ensures found <==> val in Values(l, chain)
    ensures FineGrainedList.Remove(Values(l, chain), val) == FineGrainedList.Removal(found, Values(l', chain'))
    ensures !found ==> l' == l && chain' == chain
    ensures |l'.nodes| == |l.nodes|
    ensures var k := LowerBound(Values(l, chain), val);
      found ==> && k + 1 < |chain|
                && chain' == chain[..k + 1] + chain[k + 2..]
                && l'.nodes[chain[k + 1]] == l.nodes[chain[k + 1]].(removed := true)
                && l'.nodes[chain[k]] == l.nodes[chain[k]].(next := l.nodes[chain[k + 1]].next)
                && forall id | 0 <= id < |l.nodes| && id != chain[k] && id != chain[k + 1] ::
                     l'.nodes[id] == l.nodes[id]
  {
    var pred, curr;
    ghost var k;
    pred, curr, k := Locate(l, chain, val);
    ghost var vs := Values(l, chain);
    LowerBoundFinds(vs, val);
    if !curr.Ptr? || l.nodes[curr.id].value != val {
      assert !(k < |vs| && vs[k] == val);
      return false, l, chain;
    }
    assert vs[k] == val;
    var victim := curr.id;
    var marked := l.nodes[victim := l.nodes[victim].(removed := true)];
    l' := List(marked[pred := marked[pred].(next := l.nodes[victim].next)]);
    chain' := chain[..k + 1] + chain[k + 2..];
    found := true;
    UnlinkCorrect(l, chain, k, val, l', chain');
  }

  /** The effect of unlinking and marking the node after position `k`, which holds `val`. */
  lemma UnlinkCorrect(l: List, chain: seq<nat>, k: nat, val: int, l': List, chain': seq<nat>)
    requires Valid(l, chain) && k + 1 < |chain| && k == LowerBound(Values(l, chain), val)
    requires Values(l, chain)[k] == val
    requires var marked := l.nodes[chain[k + 1] := l.nodes[chain[k + 1]].(removed := true)];
      l' == List(marked[chain[k] := marked[chain[k]].(next := l.nodes[chain[k + 1]].next)])
    requires chain' == chain[..k + 1] + chain[k + 2..]
    ensures Valid(l', chain')
    ensures FineGrainedList.Remove(Values(l, chain), val) == FineGrainedList.Removal(true, Values(l', chain'))
  {
    UnlinkKeepsChain(l, chain, k, l', chain');
    UnlinkKeepsValues(l, chain, k, val, l', chain');
    UnlinkKeepsMarks(l, chain, k, l', chain');
    assert chain[k] != chain[k + 1];
    assert l'.nodes[Head].value == l.nodes[Head].value;
  }

  /** Unlinking the node after position `k` yields the chain `chain'`. */
  lemma UnlinkKeepsChain(l: List, chain: seq<nat>, k: nat, l': List, chain': seq<nat>)
    requires IsChain(l, chain) && k + 1 < |chain|
    requires var marked := l.nodes[chain[k + 1] := l.nodes[chain[k + 1]].(removed := true)];
      l' == List(marked[chain[k] := marked[chain[k]].(next := l.nodes[chain[k + 1]].next)])
    requires chain' == chain[..k + 1] + chain[k + 2..]
    ensures IsChain(l', chain')
  {
    var pred, victim := chain[k], chain[k + 1];
    assert pred != victim;
    assert |l'.nodes| == |l.nodes|;
    assert forall id | 0 <= id < |l.nodes| && id != pred && id != victim :: l'.nodes[id] == l.nodes[id];
    assert l'.nodes[pred].next == l.nodes[victim].next;
    assert |chain'| == |chain| - 1;
    assert forall j | 0 <= j <= k :: chain'[j] == chain[j];
    assert forall j | k < j < |chain'| :: chain'[j] == chain[j + 1];
    forall i, j | 0 <= i < j < |chain'|
      ensures chain'[i] != chain'[j]
    {
      var ci := if i <= k then i else i + 1;
      var cj := if j <= k then j else j + 1;
      assert chain'[i] == chain[ci] && chain'[j] == chain[cj];
    }
    forall j | 0 <= j < |chain'| - 1
      ensures l'.nodes[chain'[j]].next == Ptr(chain'[j + 1])
    {
      if j < k {
        assert chain[j] != pred && chain[j] != victim;
        assert l.nodes[chain[j]].next == Ptr(chain[j + 1]);
      } else if j == k {
        assert l.nodes[victim].next == Ptr(chain[k + 2]);
      } else {
        assert chain[j + 1] != pred && chain[j + 1] != victim;
        assert l.nodes[chain[j + 1]].next == Ptr(chain[j + 2]);
      }
    }
    var last := |chain| - 1;
    if k + 2 < |chain| {
      assert chain'[|chain'| - 1] == chain[last] && chain[last] != pred && chain[last] != victim;
    } else {
      assert chain'[|chain'| - 1] == pred && l.nodes[victim].next == Null;
    }
  }

  /** Unlinking the node after position `k`, which holds `val`, is `FineGrainedList.Remove`. */
  lemma UnlinkKeepsValues(l: List, chain: seq<nat>, k: nat, val: int, l': List, chain': seq<nat>)
    requires Valid(l, chain) && k + 1 < |chain| && k == LowerBound(Values(l, chain), val)
    requires Values(l, chain)[k] == val
    requires var marked := l.nodes[chain[k + 1] := l.nodes[chain[k + 1]].(removed := true)];
      l' == List(marked[chain[k] := marked[chain[k]].(next := l.nodes[chain[k + 1]].next)])
    requires chain' == chain[..k + 1] + chain[k + 2..]
    requires IsChain(l', chain')
    ensures FineGrainedList.Remove(Values(l, chain), val) == FineGrainedList.Removal(true, Values(l', chain'))
  {
    var vs := Values(l, chain);
    var vs' := Values(l', chain');
    var rest := vs[..k] + vs[k + 1..];
    assert |vs'| == |rest|;
    forall j | 0 <= j < |rest|
      ensures vs'[j] == rest[j]
    {
      if j < k {
        assert chain'[j + 1] == chain[j + 1];
      } else {
        assert chain'[j + 1] == chain[j + 2];
        assert rest[j] == vs[j + 1];
      }
    }
    assert vs' == rest;
  }

  /** After unlinking, the marks still tell exactly the unreachable nodes. */
  lemma UnlinkKeepsMarks(l: List, chain: seq<nat>, k: nat, l': List, chain': seq<nat>)
    requires IsChain(l, chain) && MarkedIffUnlinked(l, chain) && k + 1 < |chain|
    requires var marked := l.nodes[chain[k + 1] := l.nodes[chain[k + 1]].(removed := true)];
      l' == List(marked[chain[k] := marked[chain[k]].(next := l.nodes[chain[k + 1]].next)])
    requires chain' == chain[..k + 1] + chain[k + 2..]
    ensures MarkedIffUnlinked(l', chain')
  {
    var victim := chain[k + 1];
    assert chain == chain[..k + 1] + [victim] + chain[k + 2..];
    forall id | 0 <= id < |l'.nodes|
      ensures l'.nodes[id].removed <==> id !in chain'
    {
      if id == victim {
        forall j | 0 <= j < |chain'|
          ensures chain'[j] != victim
        {
          var cj := if j <= k then j else j + 1;
          assert chain'[j] == chain[cj];
        }
      } else {
        assert l'.nodes[id].removed == l.nodes[id].removed;
        assert id in chain' <==> id in chain;
      }
    }
  }

  /** `contains(val)`: locate, validate, then report whether `curr` is an unmarked node holding `val`. */
  method Contains(l: List, ghost chain: seq<nat>, val: int) returns (b: bool)
    requires Valid(l, chain)
    ensures b <==> val in Values(l, chain)
    ensures b == FineGrainedList.Contains(Values(l, chain), val)
  {
    var pred, curr;
    ghost var k;
    pred, curr, k := Locate(l, chain, val);
    LowerBoundFinds(Values(l, chain), val);
    b := curr.Ptr? && !l.nodes[curr.id].removed && l.nodes[curr.id].value == val;
    assert curr.Ptr? ==> Values(l, chain)[k] == l.nodes[curr.id].value;
  }

  /** The values of the unmarked nodes among `ids`, in order. */
  ghost function LiveValues(l: List, ids: seq<nat>): (r: seq<int>)
    requires forall k | 0 <= k < |ids| :: ids[k] < |l.nodes|
  {
    if ids == [] then []
    else
      var last := ids[|ids| - 1];
      LiveValues(l, ids[..|ids| - 1]) + (if l.nodes[last].removed then [] else [l.nodes[last].value])
  }

  /**
    `printList`: walk from the node after the sentinel to the end and emit
    the value of every unmarked node. On a valid list that is every reachable
    value, in non-decreasing order.
  */
  method PrintList(l: List, ghost chain: seq<nat>) returns (out: seq<int>)
    requires IsChain(l, chain)
    ensures out == LiveValues(l, chain[1..])
    ensures Valid(l, chain) ==> out == Values(l, chain) && Sorted(out)
  {
    var curr := l.nodes[Head].next;
    ghost var k: nat := 1;
    out := [];
    while curr.Ptr?
      invariant 1 <= k <= |chain|
      invariant curr == Successor(chain, k - 1)
      invariant out == LiveValues(l, chain[1..k])
      decreases |chain| - k
    {
      assert chain[1..k + 1][..k - 1] == chain[1..k];
      if !l.nodes[curr.id].removed {
        out := out + [l.nodes[curr.id].value];
      }
      curr := l.nodes[curr.id].next;
      k := k + 1;
    }
    assert chain[1..k] == chain[1..];
    if Valid(l, chain) {
      LiveValuesOfValid(l, chain, |chain|);
      assert Values(l, chain)[..|chain| - 1] == Values(l, chain);
    }
  }

  /** On a valid list no reachable node is marked, so the live values of a chain prefix are its values. */
  lemma {:induction false} LiveValuesOfValid(l: List, chain: seq<nat>, k: nat)
    requires Valid(l, chain) && 1 <= k <= |chain|
    ensures LiveValues(l, chain[1..k]) == Values(l, chain)[..k - 1]
  {
    if k > 1 {
      LiveValuesOfValid(l, chain, k - 1);
      assert chain[1..k][..k - 2] == chain[1..k - 1];
      var last := chain[k - 1];
      assert !l.nodes[last].removed;
      assert Values(l, chain)[..k - 1] == Values(l, chain)[..k - 2] + [l.nodes[last].value];
    }
  }

  /** The sentinel stays reachable, unmarked and holding -1 in every valid list. */
  lemma SentinelStays(l: List, chain: seq<nat>)
    requires Valid(l, chain)
    ensures chain[0] == Head && !l.nodes[Head].removed && l.nodes[Head].value == SentinelValue
  {
  }
}
