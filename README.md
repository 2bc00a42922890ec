# A ray-tracing accelerator core, modelled in Dafny

The system is a cycle-level SystemC model of a ray-tracing accelerator. This project
models its integer control logic and proves properties about it:

- the offline builder of the bounding-volume hierarchy (BVH), with its surface-area
  (SAH) split search, work stack, three sorted index orders and stable partitions;
- the three handshake ring-buffer queues;
- the fixed-priority arbiter in front of the traversal stage;
- the pipeline stages: RD (ray-slot allocator), TRV (per-ray traversal with a bounded
  per-ray stack), LIST (leaf-to-triangle expander), IST (closest-hit update rule) and
  POST (one-slot result latch);
- the older single-ray traversal FSM that drives its own IST.

Floating-point geometry does not enter the model as arithmetic. The ray–box slab tests
enter as their results (hit, entry, exit), and the ray–triangle test as its `u`, `v`,
`t`. Single-precision values the control logic compares (`tmax`, entries, `u`, `v`,
`t`) are `Float32.Fl`: a finite real, a signed infinity or NaN, compared the IEEE way,
without rounding. Boxes and SAH costs are reals.

Each clocked SystemC module is a class whose `Tick` is one rising clock edge. Its
`sc_signal` registers are updated together from their values before the edge, so a
register file is a datatype and one edge is a pure function `…Next` of it. Plain
memories are written in place: the `ray_states` slot array, TRV's stack rows and the
queues' arrays. The `update_*` processes (combinational wires) are functions of the
registers.

| file | module | models |
|---|---|---|
| float32.dfy | `Float32` | the single-precision values the control logic compares |
| bounding_box.dfy | `BoundingBox` | `custom_structs/bounding_box.hpp` |
| bvh.dfy | `Bvh` | `Bvh::Node` and the shape of a finished tree |
| bvh_order.dfy | `BvhOrder` | `std::iota`, `std::sort`, `std::stable_partition` on index orders |
| bvh_build.dfy | `BvhBuild` | the `Bvh::Bvh` constructor |
| ring.dfy | `Ring` | the `front`/`back` ring arithmetic shared by the queues |
| fifos.dfy | `Fifos` | `RD_POST_FIFO`, `LIST_FIFO`, `TRV_FIFO` |
| trv_arbitrator.dfy | `TrvArbitrator` | `TRV_ARBITRATOR` |
| ray_state.dfy | `RayStates` | the `RayState` slot record |
| rd.dfy | `Rd` | `RD` |
| trv.dfy | `Trv` | the pipelined `TRV` (`modules/rtcore/trv.hpp`) |
| list.dfy | `List` | `LIST` |
| ist.dfy | `Ist` | the pipelined `IST` |
| post.dfy | `Post` | `POST` |
| single_trv.dfy | `SingleTrv` | the single-ray `TRV` (`modules/trv.hpp`) and its `IST` |

## Model

| member | source | states |
|---|---|---|
| BoundingBox.Empty | custom_structs/bounding_box.hpp:13 | The sentinel box is not a proper box: on every axis its min bound (FLT_MAX) lies above its max bound (-FLT_MAX). |
| BoundingBox.Reset | custom_structs/bounding_box.hpp:34-37 | Whatever the box held, `reset` leaves exactly the bounds of `Empty()`. |
| BoundingBox.EmptyBelow | custom_structs/bounding_box.hpp:13 | Every box whose bounds lie in [-FLT_MAX, FLT_MAX] contains the empty box. |
| BoundingBox.Extend | custom_structs/bounding_box.hpp:18-25 | The extended box contains both operands. |
| BoundingBox.ExtendLeast | custom_structs/bounding_box.hpp:18-25 | Any box containing both operands contains their extension: `extend` yields the least enclosing box. |
| BoundingBox.ExtendEmptyIdentity | custom_structs/bounding_box.hpp:13-25 | Extending by the empty box, on either side, gives back any box whose bounds lie in [-FLT_MAX, FLT_MAX]. |
| BoundingBox.ExtendLaws | custom_structs/bounding_box.hpp:18-25 | `extend` is idempotent, commutative and associative, so a fold of boxes does not depend on order. |
| BoundingBox.HalfArea | custom_structs/bounding_box.hpp:27-32 | The half area of a proper box (min ≤ max on every axis) is non-negative. |
| BoundingBox.UnionBounds | custom_structs/bvh.hpp:51-56 | The folded union of boxes contains each of them and lies inside every box that contains them all. |
| BoundingBox.UnionRemove | custom_structs/bvh.hpp:51-56 | The fold can take any one of its boxes last: removing box `j` and extending by it afterwards gives the same union. |
| BoundingBox.UnionConcat | custom_structs/bvh.hpp:148-157 | The union of a concatenation contains the union of each of its two parts. |
| Bvh.Interval | custom_structs/bvh.hpp:11-20 | A leaf's triangle list is `first, first+1, …, first+num_trigs-1`: the length and every entry are stated. |
| Bvh.IntervalConcat | custom_structs/bvh.hpp:174-190 | Two adjacent ranges `[b,m)` and `[m,e)` concatenate to `[b,e)`. |
| Bvh.TilesCovered | custom_structs/bvh.hpp:98-191 | In a finished tree over `[b,e)`, the leaves list every triangle index of `[b,e)` exactly once, in order, and the range is non-empty. |
| Bvh.TilesMakeLeaf | custom_structs/bvh.hpp:103-108 | Finishing a pending node as the leaf of its range keeps the tiling of every range above it. |
| Bvh.TilesSplit | custom_structs/bvh.hpp:143-172 | Turning a pending node into an internal node over a fresh sibling pair `l, l+1`, each pending over one half of the range, keeps the tiling. |
| Bvh.TilesExtend | custom_structs/bvh.hpp:199-201 | The tiling depends only on the nodes it reaches: appending nodes does not change it. |
| Bvh.PairMembers | custom_structs/bvh.hpp:11-20 | Both members of a sibling pair are in the node array, and a leaf member holds a non-empty range inside `[0,n)`. |
| Bvh.ChildPair | custom_structs/bvh.hpp:103-108 | An internal member of a pair at depth `d` has `d < 30`, and its children form a pair at depth `d+1`. |
| Bvh.RootPair | custom_structs/bvh.hpp:168-172 | When the root is internal, its children form the first pair, at depth 1. |
| BvhOrder.Iota | custom_structs/bvh.hpp:67 | `iota(n)` has length `n` and holds `i` at position `i`. |
| BvhOrder.IotaCount | custom_structs/bvh.hpp:67 | `iota(n)` holds every index below `n` exactly once and nothing else. |
| BvhOrder.PermFacts | custom_structs/bvh.hpp:66-79 | An ordering of `0..n-1` has length `n`, only in-range entries and no repeats. |
| BvhOrder.InsertCorrect | custom_structs/bvh.hpp:68-69 | Inserting into a sorted order keeps it sorted and adds exactly that entry. |
| BvhOrder.SortCorrect | custom_structs/bvh.hpp:68-79 | The sort result is sorted by the axis key and is a permutation of its input. |
| BvhOrder.FilterCount | custom_structs/bvh.hpp:161-166 | Filtering on a mark keeps every occurrence of the marked entries and drops every other one. |
| BvhOrder.PartitionPerm | custom_structs/bvh.hpp:161-166 | The stable partition is a permutation of the range it rearranges. |
| BvhOrder.FilterSorted | custom_structs/bvh.hpp:159-166 | Keeping a subsequence keeps an order: both halves of a stable partition of a sorted range are sorted. |
| BvhOrder.PartitionSplits | custom_structs/bvh.hpp:150-166 | When the marks split a range into the left and right triangles, the marked part holds exactly the left triangles and the unmarked part exactly the right ones. |
| BvhBuild.FindBestSplit | custom_structs/bvh.hpp:110-132 | The sweep returns the least SAH cost over all three axes and all split positions, capped at FLT_MAX. Axis and index are -1 together, exactly when no candidate is below FLT_MAX. Otherwise the split lies strictly inside the range and is the first candidate in sweep order to reach the minimum. |
| BvhBuild.SuffixCosts | custom_structs/bvh.hpp:116-120 | After the backward sweep, `costs[i]` is the cost of the right part `[i, end)` for every split position `i`. |
| BvhBuild.SweepAxis | custom_structs/bvh.hpp:122-131 | After the forward sweep of one axis, the best candidate is exact over every position of the axes swept so far. |
| BvhBuild.SweepCandidate | custom_structs/bvh.hpp:123-130 | One sweep step extends the prefix box by the next triangle's box and keeps the best candidate exact. |
| BvhBuild.LeafAfterSweepAgrees | custom_structs/bvh.hpp:134-141 | Whenever the sweep found a candidate, the corrected leaf test agrees with the test as written. When the corrected test splits, it has a candidate below the node's own cost bound. |
| BvhBuild.NoCandidateSplitsAsWritten | custom_structs/bvh.hpp:134-141 | Two triangles with boxes of ±10^30: every candidate costs at least FLT_MAX, yet the test as written splits at axis -1, while the corrected test makes a leaf. |
| BvhBuild.InitInv | custom_structs/bvh.hpp:46-48 | The starting state (one pending root over all triangles at depth 0, one node) satisfies the work-loop invariant. |
| BvhBuild.LeafStep | custom_structs/bvh.hpp:103-108 | Finishing the current item as a leaf while others are stacked keeps the work-loop invariant. |
| BvhBuild.LastLeafStep | custom_structs/bvh.hpp:103-108 | Finishing the last item as a leaf finishes the tree: between 1 and 2n-1 nodes, the leaves tile `[0,n)`, and a non-leaf root has its children at nodes 1 and 2. |
| BvhBuild.SplitRefsPerms | custom_structs/bvh.hpp:150-166 | Splitting keeps each of the three orders a permutation of all triangles. |
| BvhBuild.SplitRefsHalves | custom_structs/bvh.hpp:150-166 | After a split, both halves of the range hold the same triangles in all three orders, each sorted on its own axis. |
| BvhBuild.HalvesOfBest | custom_structs/bvh.hpp:150-157 | On the chosen axis, the two halves of a sorted range are sorted. |
| BvhBuild.HalvesOfOther | custom_structs/bvh.hpp:159-166 | On the other axes, the stable partition puts exactly the left triangles before the split, sorted, and the right ones after it, sorted. |
| BvhBuild.SplitStep | custom_structs/bvh.hpp:143-190 | Splitting the current item keeps the work-loop invariant. The smaller child is processed next and the larger is stacked, and the node count grows by exactly two. |
| BvhBuild.SplitBound | custom_structs/bvh.hpp:143-147 | Before a split, the fresh sibling pair fits inside the 2n scratch node array. |
| BvhBuild.Build | custom_structs/bvh.hpp:33-202 | The tree has between 1 and 2n-1 nodes, and its leaves tile `[0,n)`: each triangle index appears exactly once, in order. A non-leaf root has its children at nodes 1 and 2, and the root box is the union of all triangle boxes. Every node's box is the union of the boxes of the reordered triangles in its range, and each child's box lies inside its parent's. `triangles` is a permutation of the input, and the recorded depth lies in `[0,30]`. |
| BvhBuild.UnionOfPerm | custom_structs/bvh.hpp:150-166 | The union of the boxes of a range of triangles does not depend on the order of the range: two rearrangements of the same indices give the same box. |
| BvhBuild.InitBoxes | custom_structs/bvh.hpp:46-56 | At the start, the root's box is the union of the boxes of its range in the x order, although it was folded in input order. |
| BvhBuild.SplitBoxes | custom_structs/bvh.hpp:143-171 | After a split, every allocated node's box is still the union of the boxes of its range in the new x order, the two new children included. |
| BvhBuild.KeptBoxed | custom_structs/bvh.hpp:159-166 | A node whose range lies apart from the split range, or around it, keeps its box equal to the union of its range, although the orders were rearranged. |
| BvhBuild.HalvesSame | custom_structs/bvh.hpp:150-166 | After a split, each half of the new x order holds the same triangles as that half of the chosen axis's order. |
| BvhBuild.FinalBoxes | custom_structs/bvh.hpp:98-191 | When no item is pending, every node that tiles a range `[b,e)` has as its box the union of the boxes at positions `b` to `e` of the x order. |
| BvhBuild.TreeBoxes | custom_structs/bvh.hpp:196-201 | After the triangles are reordered by the x order, every node's box is the union of its own triangles' boxes, and each child's box lies inside its parent's. |
| BvhBuild.ChildBoxesInside | custom_structs/bvh.hpp:143-157 | In a tree whose boxes are the unions of their ranges, both children's boxes lie inside their parent's box. |
| BvhBuild.TriangleBoxes | custom_structs/bvh.hpp:50-56 | Each triangle's box is recorded, and the root box is their union. |
| BvhBuild.SortedOrders | custom_structs/bvh.hpp:66-79 | The three reference arrays are distinct. Each is a permutation of `0..n-1`, sorted on its own coordinate of the centers. |
| BvhBuild.BuildNodes | custom_structs/bvh.hpp:81-191 | The work loop ends with a tree of 1 to 2n-1 nodes that tiles `[0,n)`. The root's children sit at 1 and 2, the root box is unchanged, and every node's box is the union of the triangle boxes of its range in the x order. The x order is still a permutation, and the depth is at most 30. |
| BvhBuild.BuildStep | custom_structs/bvh.hpp:98-190 | One iteration keeps the work-loop invariant, including every allocated node's box being the union of its range, or finishes the tree; the measure of remaining work goes down. |
| BvhBuild.FinishLeaf | custom_structs/bvh.hpp:103-108 | Making the current item a leaf and popping the stack either finishes the tree (stack empty) or keeps the invariant with a shorter stack. Node boxes stay the unions of their ranges. |
| BvhBuild.SplitCurrent | custom_structs/bvh.hpp:143-190 | Splitting the current item allocates the pair `num_nodes, num_nodes+1`, makes the item internal over it, and stacks one child while continuing with the other, keeping the invariant and the node boxes. |
| BvhBuild.ChooseSplit | custom_structs/bvh.hpp:100-141 | A leaf is chosen only when the count is at most 1, or the depth is at least 30, or no candidate beats the node's cost bound or FLT_MAX. Otherwise the chosen split lies strictly inside the range, costs less than both the bound and FLT_MAX, and is minimal over all axes and positions, so a node whose sweep found no candidate becomes a leaf. (corrected; see ## Findings) |
| BvhBuild.Rearrange | custom_structs/bvh.hpp:196-197 | `triangles[i]` is the input triangle at position `i` of the x order, so the result is a permutation of the input. |
| BvhBuild.SortReferences | custom_structs/bvh.hpp:66-79 | After `iota` and `sort`, the array is a permutation of `0..n-1`, sorted on the axis key. |
| BvhBuild.SplitNode | custom_structs/bvh.hpp:143-166 | The children's boxes are the unions of their halves, the marks split the range, and the three orders are rearranged as a split. |
| BvhBuild.BoundChildren | custom_structs/bvh.hpp:143-157 | The two children's boxes are the unions of their halves, the marks tag exactly the left half, and only nodes `L` and `L+1` change. |
| BvhBuild.BoundAndMarkSplit | custom_structs/bvh.hpp:148-157 | Computes both children's boxes and marks the left half true and the right half false. |
| BvhBuild.BoundAndMark | custom_structs/bvh.hpp:150-157 | The loop's box is the union of the slice's boxes; the slice's triangles get the mark, and no other mark changes. |
| BvhBuild.PartitionOthers | custom_structs/bvh.hpp:159-166 | The two other orders are stably partitioned on the marks within `[begin,end)`, and the chosen axis's order is unchanged. |
| BvhBuild.PartitionAxis | custom_structs/bvh.hpp:161-163 | The array becomes its prefix, then the stable partition of `[begin,end)`, then its suffix. |
| Ring.Next | modules/rtcore/fifos/rd_post_fifo.hpp:52 | `(i+1) % (MaxDepth+1)` stays in `[0, MaxDepth]` and wraps from `MaxDepth` to 0. |
| Ring.Count | modules/rtcore/fifos/rd_post_fifo.hpp:60-66 | The number of held entries is in `[0, MaxDepth]`, and `back` is that many slots after `front`. |
| Ring.NotFull | modules/rtcore/fifos/rd_post_fifo.hpp:60-62 | `(back+1) % (MaxDepth+1) != front` holds exactly when fewer than `MaxDepth` entries are held. |
| Ring.NotEmpty | modules/rtcore/fifos/rd_post_fifo.hpp:64-66 | `front != back` holds exactly when at least one entry is held. |
| Ring.HeadAtFront | modules/rtcore/fifos/rd_post_fifo.hpp:68-70 | When the queue is non-empty, `ray_id[front]` is its oldest entry. |
| Ring.PushAppends | modules/rtcore/fifos/rd_post_fifo.hpp:50-53 | Writing at `back` and advancing `back` appends the entry, when there is room. |
| Ring.PopDropsHead | modules/rtcore/fifos/rd_post_fifo.hpp:54-56 | Advancing `front` drops the oldest entry. |
| Ring.PushPopWhenFull | modules/rtcore/fifos/rd_post_fifo.hpp:50-56 | A push and a pop in the same edge on a full queue drop the head and append the new entry. |
| Ring.StepRefines | modules/rtcore/fifos/rd_post_fifo.hpp:50-56 | One edge of the ring, with push and pop possibly together, refines the sequence queue. |
| Ring.PushWhenFullEmpties | modules/rtcore/fifos/trv_fifo.hpp:40-43 | An unguarded push into a full queue wraps `back` onto `front`, and the queue then reads as empty. |
| Ring.FilledContents | modules/rtcore/fifos/rd_post_fifo.hpp:41-44 | The filling reset holds `0, 1, …, MaxDepth-1`. |
| Ring.EmptyContents | modules/rtcore/fifos/rd_post_fifo.hpp:45-48 | `front == back` holds nothing. |
| Fifos.RdPostFifo.constructor | modules/rtcore/fifos/rd_post_fifo.hpp:39-48 | A fresh queue of the given depth and reset mode, empty. |
| Fifos.RdPostFifo.SReady | modules/rtcore/fifos/rd_post_fifo.hpp:60-62 | `s_ready` holds exactly when fewer than `MaxDepth` ids are held. |
| Fifos.RdPostFifo.MValid | modules/rtcore/fifos/rd_post_fifo.hpp:64-66 | `m_valid` holds exactly when the queue is non-empty. |
| Fifos.RdPostFifo.MRayId | modules/rtcore/fifos/rd_post_fifo.hpp:68-70 | `m_ray_id` is the oldest id. |
| Fifos.RdPostFifo.Tick | modules/rtcore/fifos/rd_post_fifo.hpp:39-58 | Reset with `FillWhenReset` gives `front=0`, `back=MaxDepth` and contents `0..MaxDepth-1`; without it, the queue is empty. Otherwise the contents move as a sequence queue (head out on pop, id in on push, both allowed together). Only `ray_id[back]` is written, and the indices stay in range. |
| Fifos.ListFifo.Entries | modules/rtcore/fifos/list_fifo.hpp:78-88 | The three arrays read slot by slot as one sequence of triples, one per slot. |
| Fifos.ListFifo.constructor | modules/rtcore/fifos/list_fifo.hpp:53-56 | A fresh, empty queue of the given depth. |
| Fifos.ListFifo.SReady | modules/rtcore/fifos/list_fifo.hpp:70-72 | `s_ready` holds exactly when fewer than `MaxDepth` entries are held. |
| Fifos.ListFifo.MValid | modules/rtcore/fifos/list_fifo.hpp:74-76 | `m_valid` holds exactly when the queue is non-empty. |
| Fifos.ListFifo.MEntry | modules/rtcore/fifos/list_fifo.hpp:78-88 | The three `m_*` outputs together are the oldest triple. |
| Fifos.ListFifo.WriteSlot | modules/rtcore/fifos/list_fifo.hpp:59-61 | The three fields land in the same slot together, and no other slot changes. |
| Fifos.ListFifo.Tick | modules/rtcore/fifos/list_fifo.hpp:53-68 | Reset empties the queue. Otherwise the triples move as a sequence queue, push and pop possibly in the same edge. |
| Fifos.TrvFifo.constructor | modules/rtcore/fifos/trv_fifo.hpp:35-38 | A fresh, empty queue of the given depth. |
| Fifos.TrvFifo.MValid | modules/rtcore/fifos/trv_fifo.hpp:50-52 | `m_valid` holds exactly when the queue is non-empty. |
| Fifos.TrvFifo.MRayId | modules/rtcore/fifos/trv_fifo.hpp:54-56 | `m_ray_id` is the oldest id. |
| Fifos.TrvFifo.Tick | modules/rtcore/fifos/trv_fifo.hpp:35-48 | Reset empties the queue. Every `s_valid` pushes, with no ready check. Short of an overflow, the ids move as a sequence queue. A push into a full queue that is not popped in the same edge leaves it reading as empty. |
| TrvArbitrator.Arbitrate | modules/rtcore/arbitrators/trv_arbitrator.hpp:25-41 | The resume side wins whenever it is valid, and RD is granted only when it alone is valid. Something is granted whenever something is offered. `m_valid` holds exactly when a side is granted and carries that side's id; otherwise `m_ray_id` keeps its previous value. |
| TrvArbitrator.MutualExclusion | modules/rtcore/arbitrators/trv_arbitrator.hpp:25-41 | The two readies are never raised together, and `m_valid == s_tf_valid \|\| s_rd_valid`. |
| TrvArbitrator.IgnoresMReady | modules/rtcore/arbitrators/trv_arbitrator.hpp:20-22 | The grant is the same whatever `m_ready` is. |
| Float32.NaNComparesFalse | modules/rtcore/ist.hpp:73 | Every ordered comparison with NaN, and equality with NaN, is false. |
| Float32.LeTotalOnNumbers | modules/rtcore/trv.hpp:203 | On non-NaN values `<=` is total and antisymmetric. |
| Float32.LeTransitive | modules/rtcore/ist.hpp:73 | `<=` is transitive. |
| Rd.SafeDivisor | modules/rtcore/rd.hpp:129-131 | The divisor is NaN exactly when the direction is, and a finite divisor has magnitude at least FLT_EPSILON. The sign is kept, and a component of magnitude at least FLT_EPSILON passes unchanged. |
| Rd.RecipBound | modules/rtcore/rd.hpp:129-131 | A divisor of at least FLT_EPSILON has a reciprocal in `(0, 1/FLT_EPSILON]`. |
| Rd.InvDir | modules/rtcore/rd.hpp:129-131 | The inverse direction of any non-NaN component is finite and within ±1/FLT_EPSILON: no division by zero. |
| Rd.Allocated | modules/rtcore/rd.hpp:114-139 | The allocated slot copies origin, dir and tmax. It sets `left_node_idx = 1`, `finished = false`, `hit = false`, and `octant_k` is 1 exactly when `dir_k < 0`. It keeps `hit_trig_idx`, `u`, `v`, and every non-NaN direction gets a finite inverse. |
| Rd.Rd.constructor | modules/rtcore/rd.hpp:112-142 | Two fresh queues over the slot pool: a filling free queue and an empty working queue. |
| Rd.Rd.SAllocReady | modules/rtcore/rd.hpp:144-146 | `s_alloc_ready` holds exactly when a free slot exists and no resume is offered. |
| Rd.Rd.SAllocRayId | modules/rtcore/rd.hpp:148-150 | The offered id is the free queue's head, a slot index. |
| Rd.Rd.MRayId | modules/rtcore/rd.hpp:152-158 | TRV is offered the working queue's head, valid exactly when that queue is non-empty. |
| Rd.Rd.WorkingPush | modules/rtcore/rd.hpp:172-178 | The working queue is offered a push on a resume or an allocation handshake. The resume id wins, and the two never coincide. |
| Rd.Rd.Tick | modules/rtcore/rd.hpp:112-182 | Reset fills the free queue with every slot and empties the working queue. Otherwise the free queue pops exactly on an allocation handshake and takes a release. The working queue takes the resume or allocated id and pops when TRV takes it. Only the allocated slot of `ray_states` is written, and the free queue only ever holds slot indices. After reset no slot is queued twice; from a repeat-free queue, an allocated slot is queued again only when the same edge releases it, and the queue stays repeat-free when the released id is not among the entries that stay. |
| Rd.IotaBelow | modules/rtcore/fifos/rd_post_fifo.hpp:41-44 | The filled free queue holds slot indices only. |
| Rd.StepBelow | modules/rtcore/rd.hpp:160-170 | A queue step that pushes a slot index keeps the queue holding slot indices only. |
| Rd.IotaDistinct | modules/rtcore/fifos/rd_post_fifo.hpp:41-44 | The filled free queue holds each slot index once. |
| Rd.StepDistinct | modules/rtcore/rd.hpp:160-170 | A free-queue step keeps it free of repeats when the released id is not among the entries that stay. |
| Rd.AllocLeaves | modules/rtcore/rd.hpp:168-170 | The allocated slot, the head popped on the handshake, is in the free queue after the edge exactly when the same edge releases it. |
| Ist.Intersect | modules/rtcore/ist.hpp:73-79 | An accepted candidate (`u ≥ 0`, `v ≥ 0`, `u+v ≤ 1`, `0 < t ≤ tmax`) sets `tmax := t`, `hit`, `hit_trig_idx`, `u`, `v`; a rejected one leaves the slot unchanged. The traversal fields are never touched. |
| Ist.TmaxNonIncreasing | modules/rtcore/ist.hpp:73-79 | `tmax` never grows, and `hit` never falls. |
| Ist.RejectsNaN | modules/rtcore/ist.hpp:73 | A NaN `u`, `v`, `t` or `tmax`, or a `t` not above 0, is never accepted: a degenerate test is a miss. |
| Ist.Idempotent | modules/rtcore/ist.hpp:35-79 | Re-evaluating the same ray and triangle changes nothing more. |
| Ist.ClosestHit | modules/rtcore/ist.hpp:73-79 | After a stream of tests, `tmax` is no farther than its start, nor than any valid hit in the stream. A recorded hit is one of the stream's triangles, with its own `t`, `u`, `v`. |
| Ist.Ist.constructor | modules/rtcore/ist.hpp:21-33 | The stage reads and writes the shared slot array. |
| Ist.Ist.Tick | modules/rtcore/ist.hpp:35-80 | Only slot `s_ray_id` is written, as `Intersect` of its old value. |
| List.Offered | modules/rtcore/list.hpp:167-177 | In the node-a phase the queue is offered node a, tagged last exactly when there is no node b. In the node-b phase it is offered the latched node b, always tagged last. |
| List.Split | modules/rtcore/list.hpp:107-120 | An accepted request becomes one entry, or two when `s_node_b_valid` holds: node a first, then node b. All carry the ray id, and exactly the last one is tagged. |
| List.RecvConserves | modules/rtcore/list.hpp:107-120 | The receive side loses, repeats and reorders nothing: what it pushes plus what it still owes equals what it owed plus the accepted request's entries. |
| List.Range | modules/rtcore/list.hpp:135-147 | The beats of one leaf: indices `from..last` of the ray, the final one tagged when asked. |
| List.MIsLastTrig | modules/rtcore/list.hpp:159-161 | While sending, `m_is_last_trig` holds exactly on the final index of a node tagged last. |
| List.SendConserves | modules/rtcore/list.hpp:122-149 | The send side loses, repeats and reorders nothing: the beat it emits plus what it still owes equals what it owed plus the popped node's range. |
| List.ExpandAllAppend | modules/rtcore/list.hpp:122-149 | Expanding queued entries distributes over concatenation. |
| List.RequestStream | modules/rtcore/list.hpp:107-177 | An accepted request comes out as node a's range followed by node b's range. Every beat carries the ray id, and exactly the last beat is tagged. |
| List.QueueConserves | modules/rtcore/fifos/list_fifo.hpp:53-68 | One queue step loses, repeats and reorders no beats. |
| List.EdgeConserves | modules/rtcore/list.hpp:107-181 | One edge of the whole stage keeps its well-formedness. The beat emitted plus what the stage still owes equals what it owed plus the accepted request's beats. |
| List.ChainSums | modules/rtcore/list.hpp:107-181 | The three conservation steps of an edge compose into one. |
| List.List.constructor | modules/rtcore/list.hpp:107-124 | A fresh stage with an empty queue. |
| List.List.SReadyOut | modules/rtcore/list.hpp:151-153 | `s_ready` holds only in the node-a phase and only when the queue has room. |
| List.List.Tick | modules/rtcore/list.hpp:107-149 | Reset returns both sides to their start. Otherwise the receive registers, the send registers and the queue contents move together as one edge. |
| Post.Latch | modules/rtcore/post.hpp:45-52 | The result copies `ray_id`, `hit`, `hit_trig_idx`, `tmax` (as `t`), `u` and `v` of the slot. |
| Post.Held | modules/rtcore/post.hpp:60-62 | POST holds at most one result. |
| Post.AcceptEmitExclusive | modules/rtcore/post.hpp:45-65 | Accepting and emitting never happen in the same edge, because both read the same old `valid`. |
| Post.OneSlotQueue | modules/rtcore/post.hpp:42-66 | One edge of POST is a step of a queue of capacity one. |
| Post.Post.constructor | modules/rtcore/post.hpp:41-58 | Nothing is held at elaboration. |
| Post.Post.Tick | modules/rtcore/post.hpp:41-58 | Reset clears `valid`. An accepted request latches the slot's result, and emission clears `valid`. `ray_states` is never written. |
| Trv.MIsLastTrig | modules/rtcore/trv.hpp:297-299 | `m_is_last_trig` holds exactly while a range is emitted and the current index is the last one pending. |
| Trv.StartAndResume | modules/rtcore/trv.hpp:120-141 | `IDLE` takes `s_ray_id` and goes to `LOAD` exactly on `s_valid`. `LOAD` resumes from the slot's saved `left_node_idx` and goes to `POST` exactly when the slot is finished. |
| Trv.StepChoice | modules/rtcore/trv.hpp:196-234 | With both children hit internal nodes, the farther one's pair is pushed and the nearer one's entered (left on a tie), and the stack grows by one. With one, it is entered and the stack is unchanged. With none, the top is popped, or the ray is finished when the stack is empty. Next: `POST` when nothing was hit and the old stack was empty, else `STORE` when a hit child is a leaf, else `BBOX_LOAD`. |
| Trv.ResetIgnoredAsWritten | modules/rtcore/trv.hpp:117-120 | As written, a reset in any state that always moves on leaves the FSM out of `IDLE`. |
| Trv.ResetIgnoredExample | modules/rtcore/trv.hpp:117-124 | As written, `IDLE` with a request offered moves to `LOAD` although reset is asserted. |
| Trv.StackFitsBound | modules/rtcore/trv.hpp:83-84 | A stack row that fits under depth `d` holds at most `d-1` entries, so at most `BVH_MAX_DEPTH-1`. |
| Trv.StackFitsDeeper | modules/rtcore/trv.hpp:204-213 | A row that fits under depth `d` fits under any deeper level. |
| Trv.StackFitsPush | modules/rtcore/trv.hpp:204-213 | Pushing a pair one level below the current one keeps the row fitting. |
| Trv.StackFitsPop | modules/rtcore/trv.hpp:222-225 | Popping makes the top the current pair, with the rest of the row fitting under it. |
| Trv.FitsMembers | modules/rtcore/trv.hpp:142-159 | The pair at the current position is in the node array. |
| Trv.StepPreserves | modules/rtcore/trv.hpp:196-234 | `STEP` keeps the invariant, and the stack row stays within 29 entries. |
| Trv.NextPreserves | modules/rtcore/trv.hpp:117-286 | Every edge out of `IDLE` keeps the invariant, and its tree reads are in range. |
| Trv.LoadPreserves | modules/rtcore/trv.hpp:125-141 | `LOAD` of a ready slot keeps the invariant. |
| Trv.PairPreserves | modules/rtcore/trv.hpp:142-195 | `BBOX_LOAD`, `BBOX` and `NODE_LOAD` keep the invariant. |
| Trv.StorePreserves | modules/rtcore/trv.hpp:235-240 | `STORE` leaves the slot ready to resume. |
| Trv.ListLoadPreserves | modules/rtcore/trv.hpp:241-268 | `LIST_LOAD` keeps the invariant. |
| Trv.ListPreserves | modules/rtcore/trv.hpp:269-282 | `LIST_A` and `LIST_B` keep the invariant. |
| Trv.PostPreserves | modules/rtcore/trv.hpp:283-286 | `POST` keeps the invariant. |
| Trv.AllocatedReady | modules/rtcore/rd.hpp:123-124 | A slot freshly allocated by RD (position 1, not finished, empty stack) is a valid start for any tree with an internal root. |
| Trv.EmitStep | modules/rtcore/trv.hpp:269-282 | Each emitting edge sends the first pending index and leaves the rest pending. It returns to `IDLE` exactly after the last one. |
| Trv.EmitA | modules/rtcore/trv.hpp:269-277 | `LIST_A` sends the first pending index and moves on to the next one, within the first range or to the start of the second. |
| Trv.ListANextRange | modules/rtcore/trv.hpp:269-277 | After `LIST_A` the ranges are still triangles of the tree. |
| Trv.JumpToB | modules/rtcore/trv.hpp:270-274 | The last index of the first range is followed by the first of the second. |
| Trv.WalkA | modules/rtcore/trv.hpp:275-277 | Inside the first range the next index is the following one. |
| Trv.EmitB | modules/rtcore/trv.hpp:278-282 | `LIST_B` walks to the last index and then returns to `IDLE`. |
| Trv.ListLoadEmits | modules/rtcore/trv.hpp:241-268 | `LIST_LOAD` sets up exactly the triangles of the hit leaves of the pair just left, as the builder laid them out, left leaf first. |
| Trv.InvGuards | modules/rtcore/trv.hpp:142-234 | The invariant puts every tree read in range and leaves room for every push. |
| Trv.Trv.Stack | modules/rtcore/trv.hpp:83-84 | Row `id` read bottom first, `stk_size[id]` long. |
| Trv.Trv.constructor | modules/rtcore/trv.hpp:92-115 | Every register is 0, the state is `IDLE`, and every stack row is empty. |
| Trv.Trv.StepEdge | modules/rtcore/trv.hpp:196-234 | `STEP` moves the registers and the current ray's stack row as one edge and touches no other row. |
| Trv.Trv.RegEdge | modules/rtcore/trv.hpp:120-286 | The register-only states move as one edge. |
| Trv.Trv.Tick | modules/rtcore/trv.hpp:117-286 | Under reset only `state` changes, to `IDLE`. Otherwise the registers, the current ray's stack row and its slot move as one edge, and no other row or slot changes. (corrected; see ## Findings) |
| SingleTrv.CurrNodeIdx | modules/trv.hpp:211-214 | The node under test is `left_node_idx` while `curr_left` holds, otherwise `left_node_idx + 1`. |
| SingleTrv.ResetAndStart | modules/trv.hpp:178-205 | Reset forces `IDLE` (`done`). Out of reset, `IDLE` goes to `INIT` exactly on `start`. |
| SingleTrv.InitStarts | modules/trv.hpp:98-105 | `INIT` empties the stack. It enters the root's children, testing the left one first, with `t = tmax`, no hit and both entries at FLT_MAX. |
| SingleTrv.BboxRecords | modules/trv.hpp:118-131 | `BBOX` records the entry exactly on a slab hit, into the side `curr_left` selects. It goes to `LEAF_PREP` for a leaf and to `SWITCH` otherwise. |
| SingleTrv.SwitchOrder | modules/trv.hpp:147-148 | `SWITCH` tests the right member after the left one, and steps after the right. |
| SingleTrv.StepChoice | modules/trv.hpp:149-175 | Both entries recorded: the farther pair is pushed and the nearer entered (left on a tie). One recorded: it is entered. None: the stack is popped, and the FSM returns to `IDLE` exactly when the old stack was empty. Both entries are cleared. |
| SingleTrv.LeafPrepRange | modules/trv.hpp:132-137 | `LEAF_PREP` sets up exactly the leaf's triangle range and clears the leaf's entry, so a leaf is never descended into. |
| SingleTrv.LeafWalk | modules/trv.hpp:138-146 | `LEAF` walks the range one index per edge and goes to `SWITCH` after its last index. |
| SingleTrv.LeafKeepsClosest | modules/trv.hpp:138-146 | With the current triangle's result, an accepted hit overwrites `t`, `u`, `v`, `trig_idx` and sets `isected`; anything else changes nothing. `t` never grows and stays no farther than any valid hit. |
| SingleTrv.IstNext | modules/ist.hpp:25-48 | `isected` holds exactly on an accepted hit, with its `t`, `u`, `v`. Otherwise the registered `t`, `u`, `v` are kept. |
| SingleTrv.StaleHitAsWritten | modules/trv.hpp:138-146 | As written, a leaf of triangles 5 and 6 records triangle 4's hit as triangle 5, and loses triangle 6's closer hit; the corrected rule records 6. |
| SingleTrv.IdlePreserves | modules/trv.hpp:178-183 | `IDLE` keeps the invariant. |
| SingleTrv.InitPreserves | modules/trv.hpp:98-117 | `INIT` establishes the invariant on any tree with an internal root. |
| SingleTrv.BboxPreserves | modules/trv.hpp:118-131 | `BBOX` keeps the invariant: a recorded entry belongs to an internal member. |
| SingleTrv.LeafPrepPreserves | modules/trv.hpp:132-137 | `LEAF_PREP` keeps the invariant. |
| SingleTrv.LeafPreserves | modules/trv.hpp:138-146 | `LEAF` keeps the invariant. |
| SingleTrv.SwitchPreserves | modules/trv.hpp:147-148 | `SWITCH` keeps the invariant. |
| SingleTrv.StepPreserves | modules/trv.hpp:149-175 | `STEP` keeps the invariant, and the stack stays within 29 entries. |
| SingleTrv.NextPreserves | modules/trv.hpp:97-201 | Every edge keeps the invariant, and its tree reads are in range. |
| SingleTrv.InvGuards | modules/trv.hpp:118-175 | The invariant puts every tree read in range and leaves room for every push. |
| SingleTrv.Trv.Stack | modules/trv.hpp:153-170 | The stack read bottom first, `stk_size` long. |
| SingleTrv.Trv.constructor | modules/trv.hpp:97-201 | Every register is 0, the state is `IDLE`, and the stack is empty. |
| SingleTrv.Trv.StepEdge | modules/trv.hpp:149-175 | `STEP` moves the registers and the stack as one edge, writing at most `stk_data[stk_size]`. |
| SingleTrv.Trv.Tick | modules/trv.hpp:97-201 | One edge of `main` and `update_state` together, with `LEAF` reading the current triangle's result. Only `stk_data[stk_size]` may change in the stack memory. (corrected; see ## Findings) |

## Left out

- Floating-point geometry: the slab tests, the Möller–Trumbore products, the per-triangle boxes and centers, `vec3.hpp`, `triangle.hpp`, `ray.hpp` and `ray_aabb.hpp`. Their results enter as inputs (`Slab`, `Candidate`, the box of each triangle, the axis keys of the centers).
- Rounding and signed zero of single precision. `Float32.Fl` compares like IEEE values, but `Add`, `Mul` and `Recip` are exact on reals, so `u+v` in the acceptance test is unrounded.
- The ray–box registers of both TRVs (octant, inverse direction, scaled origin, the twelve bounds) are not kept, because they only feed the slab test.
- The SAH costs are computed over reals, without rounding and without an infinity from overflow; FLT_MAX is the cap of the sweep.
- BvhOrder.SortCorrect: `std::sort` is not stable, so any order sorted on the key is admissible. The model uses one such order (insertion sort), and the builder's proofs rely only on sortedness and permutation.
- BvhBuild.Build: requires at least one triangle. With none, the source writes node 0 of a zero-length scratch node array (custom_structs/bvh.hpp:43, 51, 104-105), which is undefined behaviour; the model requires n ≥ 1.
- The `std::cout` diagnostics of the builder are I/O and are not modelled.
- A tree whose root is a leaf (one triangle, or a root the SAH test keeps whole) is not supported by either TRV. `Trv.Tree` and `SingleTrv.Tree` require an internal root.
- Trv.Trv.Tick and SingleTrv.Trv.Tick: the class invariant `Valid()` holds only the shape of the memories. The traversal invariant (`Inv`) is carried by the value-level lemmas `NextPreserves` and `InvGuards`, and `Tick` requires the in-range reads and the push room (`Guarded`) that those lemmas supply.
- Rd.Rd.Tick: a release offered to a full free queue is dropped by the queue's ready check, as in the source. No property is proved about the RD/POST protocol keeping releases below capacity.
- Rd.Rd.Tick: states only the free queue's side of "no slot is live in two rays at once". That each live id is released exactly once depends on TRV, IST and POST composed, and the stages are not composed here.
- The `ray_states` slot record is a datatype; the source's struct has no behaviour.
- Ist.Ist.Tick: the pipelined `IST` also tests on edges where `s_valid` is low. On a range's last beat LIST's `SEND` advances `m_trig_idx` to `last+1` and returns to `IDLE` (modules/rtcore/list.hpp:142-147), so while LIST is idle or loading, `IST` tests triangle `last+1`, outside the leaf, against the current `s_ray_id`, possibly the next ray's slot (modules/rtcore/ist.hpp:35-37). When `last+1` equals the triangle count, the read is past the triangle array, which is undefined behaviour. Neither effect is modelled, because the triangle test's result enters as the `Candidate` input.
- The older TRV's `IST` runs on every edge, also outside `LEAF`. After a leaf's last index, `curr_trig_idx` can equal the triangle count, and `IST` then reads past the triangle array. That read is not modelled: IST results enter `LEAF` as inputs.
- SingleTrv.Done, Trv.SReady, Trv.MIstValid, Trv.MPfValid, Ist.MValid and the `update_right_node_idx` wires are one-line definitions with no contract of their own. `IST`'s `update_m_ray_id` is the identity on `s_ray_id` and is not modelled.
- The top-level wiring in `modules/rtcore/rtcore.hpp`, the ray generator, the shader, the testbench, `main.cpp` and the reference and memory-image generators are not part of this model. The stages are modelled one by one, not composed.
- The SystemC kernel (sensitivity lists, delta cycles, `dont_initialize`, tracing) is replaced by one explicit edge per module.

## Findings

| source | as written | input that shows it | evidently intended | confidence | as-written member | corrected member |
|---|---|---|---|---|---|---|
| modules/rtcore/trv.hpp:117-120 | `if (!srstn) state = IDLE;` is followed by `if (state == IDLE) … else if …` with no `else`, so the state dispatch also runs under reset and overrides the reset's `IDLE` | reset asserted while `IDLE` with `s_valid`: the FSM moves to `LOAD` (and every state that always moves on keeps traversing) | under reset only `state := IDLE`, as in the other stages | high, not executed | Trv.ResetIgnoredExample | Trv.Trv.Tick |
| custom_structs/bvh.hpp:134-141 | the leaf test compares `best_cost` with `max_split_cost` only, so when no candidate is below FLT_MAX (`best_axis == -1`) but the node's bound exceeds FLT_MAX, the node is split at axis -1 and index -1 | two triangles whose boxes span ±10^30 on every axis: every candidate and the node bound overflow FLT_MAX | make a leaf when the sweep found no candidate | medium, not executed | BvhBuild.NoCandidateSplitsAsWritten | BvhBuild.ChooseSplit |
| modules/trv.hpp:138-146 | `LEAF` reads `ist_isected`/`ist_t`/… computed by `IST` on the edge before, that is, for the previous `curr_trig_idx`, and credits it to the current index; the result for the leaf's last triangle arrives when `SWITCH` no longer reads it | leaf of triangles 5 and 6 entered after triangle 4 was hit: triangle 4's hit is recorded as triangle 5, and triangle 6's closer hit (t = 1) is lost | each `LEAF` edge records the result for `curr_trig_idx` itself | medium, not executed | SingleTrv.StaleHitAsWritten | SingleTrv.LeafKeepsClosest |
