# Mesh decimation core and axis-aligned boxes, in Dafny

This project models two pieces of the geode geometry library and proves properties of them.

**Greedy mesh decimation** (`geode/mesh/decimate.cpp`):

- Every vertex whose cheapest edge collapse has a quadric error within `distance²` goes into an indexed binary min-heap.
- The driver pops the cheapest candidate and skips it if it is stale or unsafe.
- Otherwise it collapses the vertex into its neighbour, then re-scores the surviving vertex and its neighbours.
- It stops when the heap is empty or the mesh is down to `min_vertices`.

**Axis-aligned boxes** (`geometry/BoxVector.h`): the value type `Box<Vector<T,d>>`, with its set-style operations and the in-place updates.

Files and modules:

- `box_vector.dfy`, module `BoxVector`.
  - A box is the pair of corners `Box(min, max)` over `seq<real>`.
  - The pure operations (`empty`, `lazy_inside`, `lazy_outside`, `contains`, `lazy_intersects`, `combine`, `intersect`, unary and binary `-`, `+`, `*`, `thickened`) are functions.
  - The in-place operations (`enlarge`, `enlarge_nonempty`, `change_size`, `+=`, `-=`) are methods of `class MutableBox`. Each one is proved equal to the pure function it updates the box by.
- `heap_order.dfy`, module `HeapOrder`: the heap shape (slot `k > 0` has parent `(k-1)/2`) and the order predicates, with the lemmas for sift-up and sift-down steps.
- `collapse_heap.dfy`, module `CollapseHeap`: `class Heap`.
  - Its fields are the entry sequence `heap` and the dense index array `invHeap`.
  - The abstract view is `Queued()`, the map from each vertex the index reaches to its entry.
  - `swap`, `pop`, `set` and `erase` are methods, along with the sifts of the heap's base class: `move_downward`, `move_up_or_down` and `make`.
- `mesh_topology.dfy`, module `MeshTopology`: the mesh as the driver sees it.
  - A `Topology` is a set of valid vertex ids plus a set of directed halfedges.
  - `class Mesh` holds them, and `unsafe_collapse` is edge contraction.
- `decimate.dfy`, module `Decimate`: the driver.
  - A reference run of the loop is defined on abstract states (mesh, queue): each pass removes a cheapest queued entry, collapses it exactly when it passes every check, and re-scores `vd` and its neighbours unless the floor is reached.
  - `decimate_inplace` returns, as ghost outputs, the entries it popped and the collapses it performed. The pops are such a reference run, it ends with an empty queue or at the floor, the final mesh is that run's mesh, and the collapses are exactly the ones the run takes.
  - Every such run replays as a log of collapses that passed all of the driver's checks.

## Model

| member | source | states |
|---|---|---|
| BoxVector.EmptyIff | geometry/BoxVector.h:85-87 | a box is empty iff some coordinate has min > max |
| BoxVector.EmptyIffNoPoint | geometry/BoxVector.h:85-87 | a box is empty iff no point of its dimension lies inside it |
| BoxVector.LazyOutsideIff | geometry/BoxVector.h:265-267 | lazy_outside holds iff some coordinate of the point lies below min or above max (the negation of the componentwise lazy_inside) |
| BoxVector.ContainsReflexive | geometry/BoxVector.h:304-306 | every box contains itself |
| BoxVector.ContainsTransitive | geometry/BoxVector.h:304-306 | containment is transitive |
| BoxVector.ContainsInside | geometry/BoxVector.h:304-306 | a point inside b is inside every box that contains b |
| BoxVector.ContainsIffPoints | geometry/BoxVector.h:304-306 | for a non-empty inner box, contains holds iff every point inside the inner box is inside the outer one |
| BoxVector.LazyIntersectsSymmetric | geometry/BoxVector.h:308-310 | lazy_intersects does not depend on the order of its boxes |
| BoxVector.LazyIntersectsIffCommonPoint | geometry/BoxVector.h:308-310 | for non-empty boxes, lazy_intersects holds iff some point lies in both |
| BoxVector.CombineEncloses | geometry/BoxVector.h:227-229 | combine(b1, b2) contains both b1 and b2 |
| BoxVector.CombineLeast | geometry/BoxVector.h:227-229 | any box containing both b1 and b2 contains combine(b1, b2) |
| BoxVector.IntersectEnclosed | geometry/BoxVector.h:231-233 | both b1 and b2 contain intersect(b1, b2) |
| BoxVector.IntersectInside | geometry/BoxVector.h:231-233 | a point is inside intersect(b1, b2) iff it is inside both |
| BoxVector.IntersectGreatest | geometry/BoxVector.h:231-233 | any box inside both b1 and b2 is inside intersect(b1, b2) |
| BoxVector.EnlargeEncloses | geometry/BoxVector.h:172-175 | after enlarge(p), p is inside and the old box is contained |
| BoxVector.NegateInvolution | geometry/BoxVector.h:97-99 | negating twice gives the original box |
| BoxVector.NegateInside | geometry/BoxVector.h:97-99 | x is inside b iff -x is inside -b |
| BoxVector.NegatePreservesEmpty | geometry/BoxVector.h:97-99 | -b is empty iff b is |
| BoxVector.SumInside | geometry/BoxVector.h:109-111 | for x in a and y in b, x + y is in a + b |
| BoxVector.DifferenceInside | geometry/BoxVector.h:113-115 | for x in a and y in b, x - y is in a - b |
| BoxVector.ScaledInside | geometry/BoxVector.h:117-119 | for x in b and any scalar a, including a negative one, x * a is in b * a |
| BoxVector.ScaledPreservesNonempty | geometry/BoxVector.h:117-119 | scaling a non-empty box by any scalar gives a non-empty box |
| BoxVector.ThickenedEncloses | geometry/BoxVector.h:219-221 | thickening by a non-negative amount gives a box that contains the original |
| BoxVector.ThickenedRoundTrip | geometry/BoxVector.h:223-225 | thickening by h and then by -h gives back the original box |
| BoxVector.MutableBox.constructor | geometry/BoxVector.h:51-52 | the box holds the given corners |
| BoxVector.MutableBox.Enlarge | geometry/BoxVector.h:172-175 | the new box is combine(old box, point) |
| BoxVector.MutableBox.EnlargeNonempty | geometry/BoxVector.h:177-183 | on a non-empty box, the per-component loop that moves at most one corner yields combine(old box, point), the same as enlarge |
| BoxVector.CombineAllEncloses | geometry/BoxVector.h:185-200 | enlarging a box by a sequence of points gives a box containing the old box and every point |
| BoxVector.CombineAllLeast | geometry/BoxVector.h:185-200 | that box is the least one: every box containing the old box and every point contains it |
| BoxVector.MutableBox.EnlargeNonemptyAll | geometry/BoxVector.h:185-200 | the new value is exactly the old box enlarged by each point in turn; it stays non-empty, contains the old value and has every point inside |
| BoxVector.MutableBox.EnlargeBox | geometry/BoxVector.h:202-205 | the new box is combine(old box, box) |
| BoxVector.MutableBox.EnlargeNonemptyBox | geometry/BoxVector.h:207-209 | the same as enlarge(box) |
| BoxVector.MutableBox.ChangeSize | geometry/BoxVector.h:211-213 | the new box is the old one thickened by delta in every coordinate |
| BoxVector.MutableBox.ChangeSizeBy | geometry/BoxVector.h:215-217 | the new box is the old one thickened by the vector delta |
| BoxVector.MutableBox.AddAssign | geometry/BoxVector.h:101-103 | the new box is old + r, the box sum |
| BoxVector.MutableBox.SubAssign | geometry/BoxVector.h:105-107 | the new box is old - r = (min - r.max, max - r.min) |
| HeapOrder.RootIsMinimum | geode/mesh/decimate.cpp:28-30 | in heap order under `first`, the root's badness is <= that of every entry |
| HeapOrder.DistinctSourcesCount | geode/mesh/decimate.cpp:24-26 | with distinct vertices, there are as many queued vertices as entries |
| CollapseHeap.QueuedIsHeap | geode/mesh/decimate.cpp:16-17 | under a full index, each slot's entry is queued under its own vertex, no vertex occurs twice, and the queued vertices are exactly the heap's sources |
| CollapseHeap.SwapIndexed | geode/mesh/decimate.cpp:32-36 | swapping two slots and re-pointing both vertices keeps the index sound, and keeps a full index full with the same queued entries |
| CollapseHeap.RemoveIndexed | geode/mesh/decimate.cpp:60-71 | moving the last entry into v's slot and clearing v's index keeps the index full and removes exactly v |
| CollapseHeap.AppendIndexed | geode/mesh/decimate.cpp:160 | appending an entry for an absent vertex and recording its slot keeps the index full and adds exactly that entry |
| CollapseHeap.OverwriteIndexed | geode/mesh/decimate.cpp:56 | overwriting v's own slot keeps the index full and replaces exactly v's entry |
| CollapseHeap.Heap.constructor | geode/mesh/decimate.cpp:19-22 | the heap starts empty with every vertex's index at -1, so nothing is queued |
| CollapseHeap.Heap.AbsentIffUnindexed | geode/mesh/decimate.cpp:17 | inv_heap[v] == -1 exactly when v has no queued entry |
| CollapseHeap.Heap.SizeIsQueuedCount | geode/mesh/decimate.cpp:24-26 | size() equals the number of queued vertices |
| CollapseHeap.Heap.Swap | geode/mesh/decimate.cpp:32-36 | exchanges the two slots, re-points both vertices' indices, and leaves the queued entries unchanged |
| CollapseHeap.Heap.MoveUp | geode/mesh/decimate.cpp:57 | the upward half of move_up_or_down restores heap order and keeps the index and queued entries |
| CollapseHeap.Heap.MoveDownward | geode/mesh/decimate.cpp:45 | restores heap order below slot i, keeps the queued entries, and changes nothing when slot i already comes before its children |
| CollapseHeap.Heap.MoveUpOrDown | geode/mesh/decimate.cpp:57 | restores heap order after slot i changed, keeps the queued entries, and changes nothing when slot i is already in place |
| CollapseHeap.Heap.Make | geode/mesh/decimate.cpp:162 | puts any arrangement into heap order, keeping every vertex's entry |
| CollapseHeap.Heap.Pop | geode/mesh/decimate.cpp:38-48 | returns (src, dst) of the root, which was src's entry and has badness <= every queued entry; afterwards exactly src is gone, size is one less, and the heap is valid |
| CollapseHeap.Heap.Set | geode/mesh/decimate.cpp:50-58 | v's queued entry becomes (v, q, dst), no other vertex's entry changes, and size grows by one iff v was absent (with the new index recorded; see Findings) |
| CollapseHeap.Heap.SetAsWritten | geode/mesh/decimate.cpp:50-58 | as written: an overwrite behaves like Set, but an appended entry that does not move up is left with index -1, so v is not queued although its entry is in the heap |
| CollapseHeap.SetAsWrittenLosesIndex | geode/mesh/decimate.cpp:53-54 | set(0, 0, 0) on an empty one-vertex heap leaves an entry with no index, which breaks the index invariant |
| CollapseHeap.Heap.Erase | geode/mesh/decimate.cpp:60-71 | exactly v's entry is removed, size drops by one iff v was present, and nothing changes when v is absent |
| MeshTopology.CollapseWellFormed | geode/mesh/decimate.cpp:216 | collapsing along an existing halfedge keeps the mesh well formed and removes exactly the source vertex |
| MeshTopology.CollapseNeighbours | geode/mesh/decimate.cpp:219-221 | after collapsing s into d, d's neighbours are the former neighbours of s and of d, minus s and d |
| MeshTopology.Mesh.UnsafeCollapse | geode/mesh/decimate.cpp:216 | the mesh becomes the contraction of halfedge s -> d, and its vertex count drops by one |
| MeshTopology.Mesh.Copy | geode/mesh/decimate.cpp:231 | a fresh mesh with the same vertices and halfedges |
| Decimate.SeedHeap | geode/mesh/decimate.cpp:155-162 | the heap is valid and holds exactly one entry for each valid vertex whose best score is <= distance² |
| Decimate.Update | geode/mesh/decimate.cpp:165-171 | v is re-queued with its current best collapse if that scores <= distance², and erased otherwise; no other entry changes |
| Decimate.RefreshKeepsWithin | geode/mesh/decimate.cpp:165-171 | update keeps every queued score <= distance² |
| Decimate.RefreshWithin | geode/mesh/decimate.cpp:219-221 | updating any set of vertices keeps every queued score <= distance² |
| Decimate.RefreshOneMore | geode/mesh/decimate.cpp:219-221 | updating one more neighbour extends the update of the others, so the order of the neighbour updates does not matter |
| Decimate.UpdateAround | geode/mesh/decimate.cpp:219-221 | after updating every neighbour of d in any order, the queue is the refresh of exactly those vertices |
| Decimate.ReplayValid | geode/mesh/decimate.cpp:216 | after a run, the valid vertices are the initial ones minus the collapsed sources |
| Decimate.ReplayShrinks | geode/mesh/decimate.cpp:216-218 | an allowed run keeps the mesh well formed, removes one vertex per step, and ends no lower than min_vertices |
| Decimate.GreedyRunFirst | geode/mesh/decimate.cpp:173-175 | the first pop happens only when the seeded queue is non-empty and the mesh is above the floor, and it takes a seeded entry of least badness |
| Decimate.NothingSeededNothingTaken | geode/mesh/decimate.cpp:155-175 | when no vertex is within distance², the loop pops nothing and collapses nothing |
| Decimate.NextIsAllowed | geode/mesh/decimate.cpp:173-222 | one pass of the loop extends an allowed log by exactly the collapse it takes (if any) and keeps every queued score <= distance² |
| Decimate.GreedyRunIsAllowed | geode/mesh/decimate.cpp:155-222 | along any greedy run from the seeded queue, the mesh is the replay of the collapses taken, each taken above the floor after passing every check with score <= distance² |
| Decimate.DecimateInPlace | geode/mesh/decimate.cpp:75-226 | the popped entries form a greedy run from the seeded queue (each pop a least-badness queued entry) that ends only with an empty heap or at min_vertices; a popped pair is collapsed exactly when it passes every check; the mesh ends as that run's mesh; the early exit leaves the mesh untouched; the count never drops below min_vertices |
| Decimate.Decimate | geode/mesh/decimate.cpp:228-235 | runs the in-place decimation on a fresh copy: the copy ends as a greedy run from the input's seeded queue, which ends only with an empty heap or at min_vertices, and never below min_vertices; the input mesh is not modified |

## Left out

- best_collapse: the quadric accumulation and the choice of the cheapest outgoing edge (geode/mesh/decimate.cpp:84-129) are floating-point vector and matrix arithmetic. The model takes them as an oracle `bestCollapse(topology, v) -> (score, dst)`.
- is_collapse_safe (line 182) is a topological test of the mesh on the halfedge alone; it is an opaque predicate of the topology because MutableTriangleTopology is not part of this model.
- The boundary-distance test (189-198) and the normal-bend test (201-213) are floating-point tests on vertex positions, so they are opaque predicates of the topology. The normal test is skipped when `sign_sqr_min_cos <= -1`, as in the source.
- The `cos`/`pi` threshold (line 80) is taken as the parameter `signSqrMinCos` and not computed.
- The unused `normal_safe` lambda is not modelled.
- Vertex positions are never written by the driver. `decimate` copies them unchanged, so the model folds them into the oracles and does not copy them.
- MutableTriangleTopology is not part of this model. The model keeps only the valid vertex set and the directed halfedges, and `unsafe_collapse` becomes edge contraction. Faces, boundary halfedges, id reuse and the mesh's own consistency checks are outside it.
- The neighbours of `vd` are visited in an unspecified order. The model proves the resulting queue is the same for every order.
- The heap's base class (geode/structure/Heap.h) is not part of this model. Its sifts are written as ordinary binary-heap sifts. Ties follow `first` (`<=`), and the right child is chosen when it does not come after the left. An unseen base with different tie-breaking would order equal scores differently.
- CollapseHeap.Heap.Erase clears `inv_heap[v]` before the sift, where the source clears it after. The sift never reaches v's index, so the outcome is the same.
- decimate_inplace's ghost outputs (the popped entries and the collapse log) and the `Step` score exist only for the proofs. The source returns nothing.
- Decimate.DecimateInPlace: the driver calls the corrected `set` (see "## Findings"), so its contract describes the evidently intended program. The code as written leaves appended entries unindexed, so a later `update` of such a vertex appends a duplicate entry or fails to erase it, and the queue then differs from the reference run.
- Decimate.DecimateInPlace: among entries of equal badness the contract allows any one to be popped first. Which one the heap of the source returns depends on the unseen base class.
- MeshTopology.Mesh: the model assumes every vertex id is below the mesh's id capacity `n_vertices_`, which sizes `inv_heap` at line 156. MutableTriangleTopology is not part of this model, so this is an assumption about it, not something shown here.
- `T` is modelled as exact `real`. Floating-point rounding, NaN and infinity (for example the `inf` score of a vertex with no outgoing halfedge) are not modelled.
- Box: the `numeric_limits` sentinels (default constructor, `empty_box`, `full_box`) are not modelled.
- Box: `corners`, `volume`, `surface_area`, `center`, `sizes`, `scale_about_center`, `sqr_distance_bound`, `project_points_onto_line`, `clamp`, `point_from_normalized_coordinates` and the thickness-taking `inside`/`outside`/`boundary`/`intersects` are not modelled. They are float arithmetic, rely on unseen helpers, or are not part of the modelled core.
- Box: `*=`, `/`, `/=`, the declared-only members and the Python conversion are not modelled.
- `wrap_decimate` and the Python binding are not modelled.

## Findings

| source | as written | input that shows it | evidently intended | confidence | as-written member | corrected member |
|---|---|---|---|---|---|---|
| geode/mesh/decimate.cpp:50-58 | `set` appends a new entry with `i = heap.append(entry)` but never stores `i` in `inv_heap[v]`. Only a later swap during the sift would record it. | A heap for one vertex, empty, then `set(0, 0.0, 0)`. The entry sits in slot 0 while `inv_heap[0]` stays -1, so a later `erase(0)` does nothing and a later `set(0, ...)` appends a duplicate. | Record the slot on append (`inv_heap[v] = heap.append(entry)`), as the seeding loop does at line 160. | high; not executed | CollapseHeap.Heap.SetAsWritten, CollapseHeap.SetAsWrittenLosesIndex | CollapseHeap.Heap.Set |
