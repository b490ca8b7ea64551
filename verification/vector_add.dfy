/**
  Element-wise addition of two buffers into a third, in two forms: a plain
  scalar loop, and a blocked loop that handles eight lanes per step (one
  256-bit AVX register of single-precision floats) followed by a scalar
  remainder loop.

  Buffers are modelled as sequences. The output buffer is passed in as `c`
  (its contents before the call) and returned as `c'` (its contents after).
  The element type is left abstract: `add` is the per-element addition, and
  the proofs never look inside it, so they hold for float addition whatever
  its rounding, because every lane applies the same `add`.
*/
module VectorAdd {

  /** Number of lanes in one vector block (8 floats in a 256-bit register). */
  const Lanes: nat := 8

  /** Largest value of the 64-bit unsigned `size_t` used for indices and `N`. */
  const SizeMax: nat := 0xFFFF_FFFF_FFFF_FFFF

  /** Unsigned addition as `size_t` performs it: modulo 2^64. */
  function SizeAdd(x: nat, y: nat): (r: nat)
    ensures r < SizeMax + 1
  {
    (x + y) % (SizeMax + 1)
  }

  /**
    The reference meaning of "add `a` and `b` into `c` over `[0, n)`": the
    first `n` entries become the sums, every later entry keeps its old value.
  */
  function Added<T>(a: seq<T>, b: seq<T>, c: seq<T>, n: nat, add: (T, T) -> T): (r: seq<T>)
    requires n <= |a| && n <= |b| && n <= |c|
    ensures |r| == |c|
  {
    seq(|c|, k requires 0 <= k < |c| => if k < n then add(a[k], b[k]) else c[k])
  }

  /** Unaligned load of one block of `Lanes` consecutive elements starting at `i`. */
  function LoadBlock<T>(a: seq<T>, i: nat): (v: seq<T>)
    requires i + Lanes <= |a|
    ensures |v| == Lanes
    ensures forall j | 0 <= j < Lanes :: v[j] == a[i + j]
  {
    a[i..i + Lanes]
  }

  /** Lane-wise addition of two blocks: lane `j` of the result is `add` of lane `j` of each. */
  function AddLanes<T>(x: seq<T>, y: seq<T>, add: (T, T) -> T): (v: seq<T>)
    requires |x| == Lanes && |y| == Lanes
    ensures |v| == Lanes
    ensures forall j | 0 <= j < Lanes :: v[j] == add(x[j], y[j])
  {
    seq(Lanes, j requires 0 <= j < Lanes => add(x[j], y[j]))
  }

  /** Unaligned store of one block at `i`: writes `c[i..i+Lanes)` and nothing else. */
  function StoreBlock<T>(c: seq<T>, i: nat, v: seq<T>): (c': seq<T>)
    requires i + Lanes <= |c| && |v| == Lanes
    ensures |c'| == |c|
    ensures forall j | 0 <= j < Lanes :: c'[i + j] == v[j]
    ensures forall k | 0 <= k < |c| && !(i <= k < i + Lanes) :: c'[k] == c[k]
  {
    c[..i] + v + c[i + Lanes..]
  }

  /**
    One step of the block loop: load the blocks of `A` and `B` at `i`, add
    them lane-wise and store the sum into `C` at `i`. The step reads and
    writes only `[i, i + Lanes)`, which must lie inside `[0, N)`.
  */
  function AddBlock<T>(a: seq<T>, b: seq<T>, c: seq<T>, i: nat, n: nat, add: (T, T) -> T): (c': seq<T>)
    requires i + Lanes <= n && n <= |a| && n <= |b| && n <= |c|
    ensures |c'| == |c|
    ensures forall k | i <= k < i + Lanes :: c'[k] == add(a[k], b[k])
    ensures forall k | 0 <= k < |c| && !(i <= k < i + Lanes) :: c'[k] == c[k]
  {
    var c' := StoreBlock(c, i, AddLanes(LoadBlock(a, i), LoadBlock(b, i), add));
    assert forall k | i <= k < i + Lanes :: c'[k] == c'[i + (k - i)];
    c'
  }

  /**
    `Added` is the only buffer of the old length that holds the sums below `n`
    and the old contents from `n` on.
  */
  lemma AddedCharacterized<T>(a: seq<T>, b: seq<T>, c: seq<T>, c': seq<T>, n: nat, add: (T, T) -> T)
    requires n <= |a| && n <= |b| && n <= |c|
    requires |c'| == |c|
    requires forall k | 0 <= k < n :: c'[k] == add(a[k], b[k])
    requires c'[n..] == c[n..]
    ensures c' == Added(a, b, c, n, add)
  {
    forall k | n <= k < |c|
      ensures c'[k] == c[k]
    {
      assert c'[k] == c'[n..][k - n];
    }
  }

  /** The scalar adder: `C[i] = A[i] + B[i]` for `i` from 0 up to `N`. */
  method ScalarAdd<T>(a: seq<T>, b: seq<T>, c: seq<T>, n: nat, add: (T, T) -> T)
    returns (c': seq<T>)
    requires n <= |a| && n <= |b| && n <= |c|
    ensures |c'| == |c|
    ensures forall k | 0 <= k < n :: c'[k] == add(a[k], b[k])
    ensures c'[n..] == c[n..]
    ensures c' == Added(a, b, c, n, add)
  {
    c' := c;
    var i: nat := 0;
    while i < n
      invariant i <= n && |c'| == |c|
      invariant forall k | 0 <= k < i :: c'[k] == add(a[k], b[k])
      invariant c'[i..] == c[i..]
    {
      c' := c'[i := add(a[i], b[i])];
      i := i + 1;
    }
    AddedCharacterized(a, b, c, c', n, add);
  }

  /**
    The vectorized adder. The block loop runs while `i + 7 < N` (computed in
    `size_t`), adding one block of `Lanes` elements per step; the remainder
    loop then adds the last `N mod Lanes` elements one at a time. `split` is
    the value of `i` when the block loop exits.
  */
  method VectorizedAdd<T>(a: seq<T>, b: seq<T>, c: seq<T>, n: nat, add: (T, T) -> T)
    returns (c': seq<T>, split: nat)
    requires n <= SizeMax
    requires n <= |a| && n <= |b| && n <= |c|
    ensures |c'| == |c|
    ensures forall k | 0 <= k < n :: c'[k] == add(a[k], b[k])
    ensures c'[n..] == c[n..]
    ensures c' == Added(a, b, c, n, add)
    ensures split % Lanes == 0 && split <= n < split + Lanes
    ensures split == Lanes * (n / Lanes)
    ensures n < Lanes ==> split == 0
    ensures n % Lanes == 0 ==> split == n
  {
    var blocked;
    blocked, split := BlockLoop(a, b, c, n, add);
    DivisionOfSplit(split, n);
    c' := RemainderLoop(a, b, blocked, split, n, add);
    assert c'[n..] == blocked[n..] == blocked[split..][n - split..] == c[split..][n - split..] == c[n..];
  }

  /**
    The first loop of the vectorized adder: while `i + 7 < N`, load a block of
    `A` and of `B` at `i`, add them lane-wise and store the block into `C` at
    `i`. It stops at the last multiple of `Lanes` not above `N`, having
    written exactly `C[0..i)`.
  */
  method BlockLoop<T>(a: seq<T>, b: seq<T>, c: seq<T>, n: nat, add: (T, T) -> T)
    returns (c': seq<T>, i: nat)
    requires n <= SizeMax
    requires n <= |a| && n <= |b| && n <= |c|
    ensures i % Lanes == 0 && i <= n < i + Lanes
    ensures |c'| == |c|
    ensures forall k | 0 <= k < i :: c'[k] == add(a[k], b[k])
    ensures c'[i..] == c[i..]
  {
    c' := c;
    i := 0;
    while SizeAdd(i, 7) < n
      invariant i <= n && i % Lanes == 0
      invariant |c'| == |c|
      invariant forall k | 0 <= k < i :: c'[k] == add(a[k], b[k])
      invariant c'[i..] == c[i..]
    {
      BlockGuardNoWrap(i, n);
      assert i + Lanes <= n;
      ghost var before := c';
      c' := AddBlock(a, b, c', i, n, add);
      forall k | i + Lanes <= k < |c|
        ensures c'[k] == c[k]
      {
        assert c'[k] == before[k] == before[i..][k - i];
      }
      assert c'[i + Lanes..] == c[i + Lanes..];
      i := i + Lanes;
    }
    BlockGuardNoWrap(i, n);
  }

  /**
    The second loop of the vectorized adder: add the elements from `i` up to
    `N` one at a time into a buffer whose first `i` entries already hold sums.
  */
  method RemainderLoop<T>(a: seq<T>, b: seq<T>, c: seq<T>, i: nat, n: nat, add: (T, T) -> T)
    returns (c': seq<T>)
    requires i <= n && n <= |a| && n <= |b| && n <= |c|
    requires forall k | 0 <= k < i :: c[k] == add(a[k], b[k])
    ensures c' == Added(a, b, c, n, add)
  {
    c' := c;
    var j := i;
    while j < n
      invariant i <= j <= n && |c'| == |c|
      invariant forall k | 0 <= k < j :: c'[k] == add(a[k], b[k])
      invariant c'[j..] == c[j..]
    {
      c' := c'[j := add(a[j], b[j])];
      j := j + 1;
    }
    AddedCharacterized(a, b, c, c', n, add);
  }

  /**
    At the head of the block loop `i` is a multiple of `Lanes` no larger than
    `N`, so `i + 7` never wraps around in `size_t` and the guard compares the
    true sum.
  */
  lemma BlockGuardNoWrap(i: nat, n: nat)
    requires n <= SizeMax && i <= n && i % Lanes == 0
    ensures i + 7 <= SizeMax
    ensures SizeAdd(i, 7) == i + 7
  {
    assert SizeMax % Lanes == 7;
  }

  /** A multiple of `Lanes` that is within one block below `n` is `Lanes * (n / Lanes)`. */
  lemma DivisionOfSplit(split: nat, n: nat)
    requires split % Lanes == 0 && split <= n < split + Lanes
    ensures split == Lanes * (n / Lanes)
  {
    var q := split / Lanes;
    assert split == Lanes * q;
    assert n == Lanes * q + (n - split) && 0 <= n - split < Lanes;
  }

  /** Both adders compute the same output buffer, for every `n`. */
  method AddersAgree<T>(a: seq<T>, b: seq<T>, c: seq<T>, n: nat, add: (T, T) -> T)
    returns (scalar: seq<T>, vectorized: seq<T>)
    requires n <= SizeMax
    requires n <= |a| && n <= |b| && n <= |c|
    ensures scalar == vectorized
    ensures vectorized == Added(a, b, c, n, add)
  {
    scalar := ScalarAdd(a, b, c, n, add);
    var split;
    vectorized, split := VectorizedAdd(a, b, c, n, add);
  }

  /**
    The output does not depend on the old contents of `C[0..N)`, nor on any
    input element at or beyond `N`: only `a[..n]`, `b[..n]` and `c[n..]` matter.
  */
  lemma {:induction false} AddedReadsOnlyPrefix<T>(a: seq<T>, b: seq<T>, c: seq<T>,
                                                   a2: seq<T>, b2: seq<T>, c2: seq<T>,
                                                   n: nat, add: (T, T) -> T)
    requires n <= |a| && n <= |b| && n <= |c|
    requires n <= |a2| && n <= |b2| && |c2| == |c|
    requires a[..n] == a2[..n] && b[..n] == b2[..n] && c[n..] == c2[n..]
    ensures Added(a, b, c, n, add) == Added(a2, b2, c2, n, add)
  {
    forall k | 0 <= k < |c|
      ensures Added(a, b, c, n, add)[k] == Added(a2, b2, c2, n, add)[k]
    {
      if k < n {
        assert a[k] == a[..n][k] && a2[k] == a2[..n][k];
        assert b[k] == b[..n][k] && b2[k] == b2[..n][k];
      } else {
        assert c[k] == c[n..][k - n] && c2[k] == c2[n..][k - n];
      }
    }
  }

  /** Running an adder a second time with the same inputs leaves `C` as the first run left it. */
  lemma {:induction false} AddedIdempotent<T>(a: seq<T>, b: seq<T>, c: seq<T>, n: nat, add: (T, T) -> T)
    requires n <= |a| && n <= |b| && n <= |c|
    ensures Added(a, b, Added(a, b, c, n, add), n, add) == Added(a, b, c, n, add)
  {
    var once := Added(a, b, c, n, add);
    assert forall k | 0 <= k < |c| :: Added(a, b, once, n, add)[k] == once[k];
  }

  /** With `N = 0` the output buffer is returned untouched. */
  lemma AddedEmpty<T>(a: seq<T>, b: seq<T>, c: seq<T>, add: (T, T) -> T)
    ensures Added(a, b, c, 0, add) == c
  {
  }

  /** A buffer of `n` copies of `x`. */
  function Fill(n: nat, x: int): (r: seq<int>)
    ensures |r| == n
  {
    seq(n, _ => x)
  }

  /** Integer addition, standing in for float addition of small whole numbers. */
  function Plus(x: int, y: int): (r: int)
  {
    x + y
  }

  /**
    The benchmark driver with its timing and printing removed: `A` all 1, `B`
    all 2, `C` all 0, then each adder run twice into the same `C`. After every
    run `C` is all 3.
  */
  method Benchmark(n: nat) returns (c: seq<int>)
    requires n <= SizeMax
    ensures c == Fill(n, 3)
  {
    var a := Fill(n, 1);
    var b := Fill(n, 2);
    c := Fill(n, 0);
    c := ScalarAdd(a, b, c, n, Plus);
    c := ScalarAdd(a, b, c, n, Plus);
    var split;
    c, split := VectorizedAdd(a, b, c, n, Plus);
    c, split := VectorizedAdd(a, b, c, n, Plus);
    assert forall k | 0 <= k < n :: c[k] == Fill(n, 3)[k];
  }

  /** One full block plus one remainder element: `[1..9] + [9..1]` is nine 10s. */
  lemma NineElementExample(c: seq<int>)
    requires |c| == 9
    ensures Added([1, 2, 3, 4, 5, 6, 7, 8, 9], [9, 8, 7, 6, 5, 4, 3, 2, 1], c, 9, Plus) == Fill(9, 10)
  {
    var r := Added([1, 2, 3, 4, 5, 6, 7, 8, 9], [9, 8, 7, 6, 5, 4, 3, 2, 1], c, 9, Plus);
    assert forall k | 0 <= k < 9 :: r[k] == 10;
  }
}
