# Element-wise vector addition and sorted linked-list sets, modelled in Dafny

This project models two small pieces of sequential behaviour from a set of
parallel-programming lecture examples, and proves their properties.

* **Scalar and vectorized array addition** (`lecture18/vectorization-add.cpp`).
  `scalar_add` computes `C[i] = A[i] + B[i]` in a plain loop. `vectorized_add`
  does the same in blocks of 8 lanes while `i + 7 < N`, then finishes with a
  scalar remainder loop. Module `VectorAdd` models both adders as loops over
  sequences. The element type is generic, with the addition passed in as a
  function `add`. The model proves that both adders leave exactly the same
  buffer for every `N`, when `C` overlaps neither `A` nor `B`, as in the
  benchmark's three separate vectors. It also proves where the block loop stops, and that
  nothing at or beyond `N` is written or affects the result.
* **Sorted singly-linked lists with a sentinel head**
  (`lecture9/concurrent-linked-list.cpp`, `lecture10/optimistic-locking.cpp`).
  Both lists offer `insert`, `remove` and `contains`. They keep values in
  non-decreasing order and allow duplicates.
  * Module `SortedSeq` holds the shared view: sortedness, and `LowerBound`,
    the point where the traversal `while (curr && curr->value < val)` stops.
  * Module `FineGrainedList` models the hand-over-hand list as pure functions
    on the sequence of values after the sentinel.
  * Module `MarkedList` models the optimistic list at the level of its heap.
    Nodes have a value, a `next` reference and a `removed` mark. The sentinel
    is node 0 with value -1, and unlinked nodes stay in the heap, marked.
    The model covers `validate`, the unlocked traversal, `insert`, `remove`,
    `contains` and `printList`. Each operation is proved to change the
    reachable values exactly as the matching `FineGrainedList` function
    changes a sequence. The operations also keep an invariant: a node is
    marked exactly when it is unreachable.

Every operation is one atomic step: locks, threads and retries are not modelled.
The array buffers are sequence values. The output buffer goes in as `c` and
comes back as `c'`, and `A` and `B` cannot change.

## Model

| member | source | states |
|---|---|---|
| `VectorAdd.ScalarAdd` | lecture18/vectorization-add.cpp:7-11 | after the loop `C[k] == add(A[k], B[k])` for every `k < N`, and every entry from `N` on is unchanged |
| `VectorAdd.VectorizedAdd` | lecture18/vectorization-add.cpp:14-25 | produces the same buffer as the scalar adder for every `N`; the block loop exits at `i == 8*(N/8)`, a multiple of 8 with `i <= N < i + 8`; it does not run when `N < 8`, and when `N % 8 == 0` the remainder loop has nothing left to do |
| `VectorAdd.BlockLoop` | lecture18/vectorization-add.cpp:16-21 | the block loop writes the sums into exactly `C[0..i)` and stops at a multiple of 8 with fewer than 8 elements left, leaving `C[i..)` untouched |
| `VectorAdd.AddBlock` | lecture18/vectorization-add.cpp:17-20 | one block step may only be taken when `[i, i+8)` lies inside `[0, N)`; it stores the lane sums into `C[i..i+8)` and leaves every other entry of `C` unchanged |
| `VectorAdd.RemainderLoop` | lecture18/vectorization-add.cpp:22-24 | finishing one element at a time from the block loop's exit point completes the scalar result |
| `VectorAdd.LoadBlock` | lecture18/vectorization-add.cpp:17-18 | an unaligned load yields the 8 consecutive elements starting at `i` |
| `VectorAdd.AddLanes` | lecture18/vectorization-add.cpp:19 | lane `j` of the vector sum is `add` of lane `j` of each operand |
| `VectorAdd.StoreBlock` | lecture18/vectorization-add.cpp:20 | an unaligned store writes lanes 0..7 to `C[i..i+8)` and leaves every other entry of `C` unchanged |
| `VectorAdd.BlockGuardNoWrap` | lecture18/vectorization-add.cpp:16 | at the head of the block loop `i + 7` cannot overflow `size_t`, so the guard compares the true sum |
| `VectorAdd.DivisionOfSplit` | lecture18/vectorization-add.cpp:16 | a multiple of 8 within one block below `N` is `8*(N/8)` |
| `VectorAdd.AddedCharacterized` | lecture18/vectorization-add.cpp:8-9 | a buffer with the sums below `N` and the old entries from `N` on is the reference result, and it is the only such buffer |
| `VectorAdd.AddersAgree` | lecture18/vectorization-add.cpp:7-25 | scalar and vectorized addition give equal outputs from the same inputs, for every `N`, with `C` a buffer separate from `A` and `B` |
| `VectorAdd.AddedReadsOnlyPrefix` | lecture18/vectorization-add.cpp:7-25 | the output depends only on `A[0..N)`, `B[0..N)` and `C[N..)`: input elements at or beyond `N` and the old `C[0..N)` do not matter |
| `VectorAdd.AddedIdempotent` | lecture18/vectorization-add.cpp:33-44 | running an adder a second time with the same `A` and `B` leaves `C` as the first run did |
| `VectorAdd.AddedEmpty` | lecture18/vectorization-add.cpp:14-25 | with `N = 0` the output buffer is returned unchanged |
| `VectorAdd.Benchmark` | lecture18/vectorization-add.cpp:27-50 | with `A` all 1 and `B` all 2, `C` is all 3 after the two scalar runs and the two vectorized runs |
| `VectorAdd.NineElementExample` | lecture18/vectorization-add.cpp:14-25 | one full block plus one remainder element: `[1..9] + [9..1]` is nine 10s |
| `SortedSeq.LowerBound` | lecture9/concurrent-linked-list.cpp:43-63 | the traversal steps past exactly the values `< val` at the front and stops at the first value `>= val`, or at the end |
| `SortedSeq.LowerBoundUnique` | lecture9/concurrent-linked-list.cpp:43 | the stopping point is determined by those two properties |
| `SortedSeq.LowerBoundFinds` | lecture9/concurrent-linked-list.cpp:139 | in a sorted list, `val` occurs iff the traversal stops on a node holding `val`, and that node is its first occurrence |
| `SortedSeq.SortedUnique` | lecture9/concurrent-linked-list.cpp:32-69 | two sorted lists with the same multiset of values are equal |
| `SortedSeq.SpliceSorted` | lecture9/concurrent-linked-list.cpp:66-67 | linking `val` at the stopping point keeps a sorted list sorted |
| `SortedSeq.DeleteSorted` | lecture9/concurrent-linked-list.cpp:97 | unlinking one node keeps a sorted list sorted |
| `FineGrainedList.New` | lecture9/concurrent-linked-list.cpp:18-20 | a new list holds no values after the sentinel |
| `FineGrainedList.Insert` | lecture9/concurrent-linked-list.cpp:32-69 | `insert` adds exactly one copy of `val` to the multiset of values, with no duplicate check, and keeps the values sorted |
| `FineGrainedList.InsertPosition` | lecture9/concurrent-linked-list.cpp:66-67 | the new node is linked at the stopping point: after every value `< val` and before the first old value `>= val`, with the old values on either side in their old order |
| `FineGrainedList.Remove` | lecture9/concurrent-linked-list.cpp:72-112 | on a sorted list `remove` reports true iff `val` occurs, and then deletes exactly its first occurrence; otherwise it reports false and leaves the list unchanged; sortedness is kept |
| `FineGrainedList.Contains` | lecture9/concurrent-linked-list.cpp:115-142 | on a sorted list `contains` is true iff `val` occurs; it returns a boolean and leaves the list as it was |
| `FineGrainedList.InsertIsCanonical` | lecture9/concurrent-linked-list.cpp:32-69 | the list `insert` builds is the only sorted list holding the old values plus one `val` |
| `FineGrainedList.InsertThenRemove` | lecture9/concurrent-linked-list.cpp:32-112 | removing a value just inserted succeeds and gives back the list from before the insert, duplicates included |
| `FineGrainedList.InsertThenContains` | lecture9/concurrent-linked-list.cpp:32-142 | after `insert(val)`, `contains(val)` holds, and membership of every other value is unchanged |
| `FineGrainedList.ExampleRun` | lecture9/concurrent-linked-list.cpp:146-162 | after inserting 10, 5, 20 into a new list: `contains(10)` is true, `remove(10)` succeeds, then `contains(10)` is false |
| `FineGrainedList.ExampleQueries` | lecture9/concurrent-linked-list.cpp:152-159 | the three queries of the example give those answers on any sorted list holding exactly 5, 10 and 20 |
| `MarkedList.New` | lecture10/optimistic-locking.cpp:31-34 | a new list is the unmarked sentinel alone, holding -1, and satisfies the list invariant |
| `MarkedList.NextIsSuccessor` | lecture10/optimistic-locking.cpp:15 | along the reachable chain each node's `next` is the following node, or null at the end |
| `MarkedList.ChainsAgree` | lecture10/optimistic-locking.cpp:13-23 | two paths from the head through one heap visit the same nodes position by position |
| `MarkedList.ChainUnique` | lecture10/optimistic-locking.cpp:13-23 | the heap determines the reachable chain, so the ghost chain the operations carry is the one the `next` links trace |
| `MarkedList.ValidateMeaning` | lecture10/optimistic-locking.cpp:26-28 | in a valid list `validate(pred, curr)` holds iff `pred` is reachable and `curr` is its successor (null at the end), so it fails for every unlinked, marked node |
| `MarkedList.Locate` | lecture10/optimistic-locking.cpp:50-71 | the unlocked traversal stops at the lower bound of `val` among the reachable values, with `curr` the successor of `pred`, and `validate` then holds, so a sequential run never retries |
| `MarkedList.Insert` | lecture10/optimistic-locking.cpp:48-79 | `insert` keeps the list invariant and changes the reachable values exactly as `FineGrainedList.Insert`, adding one `val`; the new node holds `val`, is unmarked and points at `curr`; `pred` changes only its `next`, now the new node, and every other existing node is unchanged |
| `MarkedList.LinkCorrect` | lecture10/optimistic-locking.cpp:73-75 | linking a new node between `pred` and `curr`, writing nothing but `pred`'s `next` and the new node, keeps the invariant and splices `val` into the values at the stopping point |
| `MarkedList.LinkKeepsChain` | lecture10/optimistic-locking.cpp:74-75 | after the link the path from the head runs through the new node between `pred` and `curr` |
| `MarkedList.SpliceDistinct` | lecture10/optimistic-locking.cpp:74 | a freshly allocated node does not already occur on the path |
| `MarkedList.LinkKeepsValues` | lecture10/optimistic-locking.cpp:74-75 | after the link the reachable values are those `FineGrainedList.Insert` computes |
| `MarkedList.LinkKeepsMarks` | lecture10/optimistic-locking.cpp:74-75 | after the link a node is still marked exactly when it is unreachable |
| `MarkedList.Remove` | lecture10/optimistic-locking.cpp:82-119 | `remove` reports true iff `val` is reachable; it then marks that node, points `pred` past it and leaves every other node unchanged, which changes the values as `FineGrainedList.Remove`; when absent it reports false and changes nothing; the invariant is kept |
| `MarkedList.UnlinkCorrect` | lecture10/optimistic-locking.cpp:111-117 | marking `curr` and unlinking it from `pred` keeps the invariant and deletes the first occurrence of `val` from the values |
| `MarkedList.UnlinkKeepsChain` | lecture10/optimistic-locking.cpp:115 | after unlinking, the path from the head skips exactly the removed node |
| `MarkedList.UnlinkKeepsValues` | lecture10/optimistic-locking.cpp:112-115 | after unlinking, the reachable values are those `FineGrainedList.Remove` computes |
| `MarkedList.UnlinkKeepsMarks` | lecture10/optimistic-locking.cpp:112-115 | marking and unlinking together keep "marked exactly when unreachable" |
| `MarkedList.Contains` | lecture10/optimistic-locking.cpp:122-149 | `contains` is true iff the located node exists, is unmarked and holds `val`, which is exactly when `val` is reachable; it agrees with `FineGrainedList.Contains` |
| `MarkedList.PrintList` | lecture10/optimistic-locking.cpp:152-161 | `printList` emits the values of the unmarked nodes on the path from the head, in order; on a valid list that is every reachable value, in non-decreasing order |
| `MarkedList.LiveValuesOfValid` | lecture10/optimistic-locking.cpp:155-157 | on a valid list no reachable node is marked, so skipping marked nodes skips nothing |
| `MarkedList.SentinelStays` | lecture10/optimistic-locking.cpp:23-33 | in every valid list the sentinel is reachable, unmarked and holds -1, so it is never marked or unlinked |

## Left out

- Threads, mutexes, hand-over-hand locking and lock release: concurrency cannot be expressed in this model, so each operation is one atomic step.
- The retry loops (`while (true)` with `continue` on a failed `validate`) in lecture10: `MarkedList.Locate` proves that `validate` always passes when operations run one at a time, so the retry branch cannot be taken.
- Memory reclamation: the destructors, the `delete curr` in lecture9's `remove`, and the never-freed marked nodes of lecture10. In the lecture9 model a removed value simply leaves the sequence. In the lecture10 model unlinked nodes stay in the heap, marked.
- The threaded stress test in lecture10's `main` (random values, inserter and remover threads, joins): it depends on threads and random numbers.
- Console output: `printList` returns the emitted values as a sequence instead of writing them; the adders' benchmark prints and timings are dropped.
- AVX intrinsics: `_mm256_loadu_ps`, `_mm256_add_ps` and `_mm256_storeu_ps` are modelled as an 8-element slice read, a lane-wise `add` and an 8-element slice write.
- Timing with `std::chrono` in lecture18's `main`: only the sequence of adder calls on the filled buffers is modelled.
- IEEE-754 single-precision arithmetic: `add` is an arbitrary function on an abstract element type. The equivalence needs only that every lane applies the same `add`. `Benchmark` uses integer addition, which gives the same 1 + 2 = 3.
- The C++ `int` width of list values: the lists only compare values and never do arithmetic on them, so unbounded integers behave the same.
- Buffer lengths: the C++ functions take bare `float*` arguments and a count and check nothing; the model requires `A`, `B` and `C` to hold at least `N` elements and has no error case.
- Overlapping buffers: `A`, `B` and `C` are separate sequence values, so the model assumes `C` overlaps neither input, as in `main`'s three vectors. The C++ parameters carry no `restrict`, and with overlap the adders differ. Example: memory all 1s, `C` starting one element after `A`, `N = 8`. `scalar_add` reads each value it has just written and leaves `C = [2, 3, ..., 9]`. `vectorized_add` loads all of `A[0..8)` before its store and leaves all 2s. `VectorAdd.AddersAgree` and `VectorAdd.VectorizedAdd` are claims about separate buffers only.
- homework3/pl-openmp-test.py, homework5/template.cpp and lecture15/parallel_sort*.cpp: a Python test script, an unimplemented KD-tree skeleton and benchmark drivers around a library sort, none of which is part of this model.
