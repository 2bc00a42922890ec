/** `Bvh::Bvh(unsorted_triangles)`: the top-down SAH builder over three presorted
    reference arrays, one per axis, with an explicit work stack. */
module BvhBuild {
  import opened Float32
  import opened BoundingBox
  import opened Bvh
  import opened BvhOrder

  /** A triangle as the builder uses it: its `bounding_box()` and its `center()`. */
  datatype Tri = Tri(box: Box, cx: real, cy: real, cz: real)

  /** The comparison key of axis `axis` (0 = x, 1 = y, 2 = z): that coordinate of the center. */
  function Key(tris: seq<Tri>, axis: int): int -> real
  {
    i => if 0 <= i < |tris| then (if axis == 0 then tris[i].cx else if axis == 1 then tris[i].cy else tris[i].cz)
         else 0.0
  }

  function TriBoxes(tris: seq<Tri>): (r: seq<Box>)
    ensures |r| == |tris| && forall i :: 0 <= i < |tris| ==> r[i] == tris[i].box
  {
    seq(|tris|, i requires 0 <= i < |tris| => tris[i].box)
  }

  /** The boxes of the triangles `ids`, in that order. */
  function BoxesOf(boxes: seq<Box>, ids: seq<int>): (r: seq<Box>)
    requires IndicesBelow(ids, |boxes|)
    ensures |r| == |ids| && forall k :: 0 <= k < |ids| ==> r[k] == boxes[ids[k]]
  {
    seq(|ids|, k requires 0 <= k < |ids| => boxes[ids[k]])
  }

  /** Union folded from the back, as the suffix sweep `for (i = end - 1; i > begin; i--)` builds it. */
  function SuffixUnion(bs: seq<Box>): Box
  {
    if |bs| == 0 then Empty() else Extend(SuffixUnion(bs[1..]), bs[0])
  }

  /** Surface-area cost of splitting `order[begin..end]` before position `s`: the half area of
      the left part's box times its size, plus the same for the right part. */
  function SplitCost(boxes: seq<Box>, order: seq<int>, begin: int, end: int, s: int): real
    requires 0 <= begin < s < end <= |order| && IndicesBelow(order, |boxes|)
  {
    LeftCost(boxes, order, begin, s) + RightCost(boxes, order, s, end)
  }

  /** The left part `order[begin..s]`: its box (folded forwards) half area times its size. */
  function LeftCost(boxes: seq<Box>, order: seq<int>, begin: int, s: int): real
    requires 0 <= begin <= s <= |order| && IndicesBelow(order, |boxes|)
  {
    Weighted(Union(BoxesOf(boxes, order[begin..s])), s - begin)
  }

  /** The right part `order[s..end]`: its box (folded backwards) half area times its size. */
  function RightCost(boxes: seq<Box>, order: seq<int>, s: int, end: int): real
    requires 0 <= s <= end <= |order| && IndicesBelow(order, |boxes|)
  {
    Weighted(SuffixUnion(BoxesOf(boxes, order[s..end])), end - s)
  }

  /** The cost of a part: its box's half area times its number of triangles. */
  function Weighted(b: Box, count: int): real
  {
    HalfArea(b) * count as real
  }

  /** The reference orders agree with the boxes: three orders of indices into `boxes`. */
  ghost predicate SweepWf(boxes: seq<Box>, R: seq<seq<int>>, begin: int, end: int)
  {
    |R| == 3 && 0 <= begin < end <= |boxes| && forall a :: 0 <= a < 3 ==> |R[a]| == |boxes| && IndicesBelow(R[a], |boxes|)
  }

  /** The sweep's state after it has considered the candidates `(a, s)` with `a < axis`, or
      `a == axis` and `s <= upto`: the best cost is the least cost among them (FLT_MAX while
      none is below it), and the best candidate is the first in sweep order to reach it. */
  ghost predicate BestSoFar(boxes: seq<Box>, R: seq<seq<int>>, begin: int, end: int,
                            cost: real, bestAxis: int, bestSplit: int, axis: int, upto: int)
  {
    && SweepWf(boxes, R, begin, end)
    && cost <= FltMaxReal
    && (bestAxis == -1 <==> bestSplit == -1)
    && (bestAxis == -1 ==> cost == FltMaxReal)
    && (bestAxis != -1 ==> 0 <= bestAxis <= axis && bestAxis < 3 && begin < bestSplit < end && cost < FltMaxReal
                           && cost == SplitCost(boxes, R[bestAxis], begin, end, bestSplit)
                           && (bestAxis == axis ==> bestSplit <= upto))
    && (forall a, s :: 0 <= a < 3 && begin < s < end && (a < axis || (a == axis && s <= upto))
                       ==> cost <= SplitCost(boxes, R[a], begin, end, s))
    && (bestAxis != -1 ==>
          forall a, s :: 0 <= a < 3 && begin < s < end && (a < bestAxis || (a == bestAxis && s < bestSplit))
                         ==> cost < SplitCost(boxes, R[a], begin, end, s))
  }

  /** Having swept every split position of an axis is having swept none of the next. */
  lemma BestSoFarNextAxis(boxes: seq<Box>, R: seq<seq<int>>, begin: int, end: int,
                          cost: real, bestAxis: int, bestSplit: int, axis: int)
    requires BestSoFar(boxes, R, begin, end, cost, bestAxis, bestSplit, axis, end - 1)
    ensures BestSoFar(boxes, R, begin, end, cost, bestAxis, bestSplit, axis + 1, begin)
  {
  }

  /** The prefix box of `order[begin..i + 1]` extends that of `order[begin..i]` by the box of `order[i]`. */
  lemma PrefixUnionStep(boxes: seq<Box>, order: seq<int>, begin: int, i: int)
    requires 0 <= begin <= i < |order| && IndicesBelow(order, |boxes|)
    ensures Union(BoxesOf(boxes, order[begin..i + 1])) == Extend(Union(BoxesOf(boxes, order[begin..i])), boxes[order[i]])
  {
    assert BoxesOf(boxes, order[begin..i + 1])[..i - begin] == BoxesOf(boxes, order[begin..i]);
  }

  /** The suffix box of `order[i..end]` extends that of `order[i + 1..end]` by the box of `order[i]`. */
  lemma SuffixUnionStep(boxes: seq<Box>, order: seq<int>, i: int, end: int)
    requires 0 <= i < end <= |order| && IndicesBelow(order, |boxes|)
    ensures SuffixUnion(BoxesOf(boxes, order[i..end])) == Extend(SuffixUnion(BoxesOf(boxes, order[i + 1..end])), boxes[order[i]])
  {
    assert BoxesOf(boxes, order[i..end])[1..] == BoxesOf(boxes, order[i + 1..end]);
  }

  /** One candidate more: the sweep state stays exact whether or not it takes the candidate. */
  lemma BestSoFarStep(boxes: seq<Box>, R: seq<seq<int>>, begin: int, end: int,
                      cost: real, bestAxis: int, bestSplit: int, axis: int, i: int, c: real)
    requires BestSoFar(boxes, R, begin, end, cost, bestAxis, bestSplit, axis, i)
    requires 0 <= axis < 3 && begin <= i < end - 1 && c == SplitCost(boxes, R[axis], begin, end, i + 1)
    ensures c < cost ==> BestSoFar(boxes, R, begin, end, c, axis, i + 1, axis, i + 1)
    ensures !(c < cost) ==> BestSoFar(boxes, R, begin, end, cost, bestAxis, bestSplit, axis, i + 1)
  {
    if c < cost {
      BestSoFarTake(boxes, R, begin, end, cost, bestAxis, bestSplit, axis, i, c);
    } else {
      BestSoFarKeep(boxes, R, begin, end, cost, bestAxis, bestSplit, axis, i, c);
    }
  }

  /** A candidate below the best cost becomes the best. */
  lemma BestSoFarTake(boxes: seq<Box>, R: seq<seq<int>>, begin: int, end: int,
                      cost: real, bestAxis: int, bestSplit: int, axis: int, i: int, c: real)
    requires BestSoFar(boxes, R, begin, end, cost, bestAxis, bestSplit, axis, i)
    requires 0 <= axis < 3 && begin <= i < end - 1 && c == SplitCost(boxes, R[axis], begin, end, i + 1) && c < cost
    ensures BestSoFar(boxes, R, begin, end, c, axis, i + 1, axis, i + 1)
  {
    forall a, s | 0 <= a < 3 && begin < s < end && (a < axis || (a == axis && s < i + 1))
      ensures c < SplitCost(boxes, R[a], begin, end, s)
    {
      assert cost <= SplitCost(boxes, R[a], begin, end, s);
    }
    forall a, s | 0 <= a < 3 && begin < s < end && (a < axis || (a == axis && s <= i + 1))
      ensures c <= SplitCost(boxes, R[a], begin, end, s)
    {
      if a != axis || s != i + 1 {
        assert cost <= SplitCost(boxes, R[a], begin, end, s);
      }
    }
  }

  /** A candidate not below the best cost leaves the best as it is. */
  lemma BestSoFarKeep(boxes: seq<Box>, R: seq<seq<int>>, begin: int, end: int,
                      cost: real, bestAxis: int, bestSplit: int, axis: int, i: int, c: real)
    requires BestSoFar(boxes, R, begin, end, cost, bestAxis, bestSplit, axis, i)
    requires 0 <= axis < 3 && begin <= i < end - 1 && c == SplitCost(boxes, R[axis], begin, end, i + 1) && !(c < cost)
    ensures BestSoFar(boxes, R, begin, end, cost, bestAxis, bestSplit, axis, i + 1)
  {
    forall a, s | 0 <= a < 3 && begin < s < end && (a < axis || (a == axis && s <= i + 1))
      ensures cost <= SplitCost(boxes, R[a], begin, end, s)
    {
      if a != axis || s != i + 1 {
        assert cost <= SplitCost(boxes, R[a], begin, end, s);
      }
    }
  }

  /** The split sweep: over the axes in order 0, 1, 2 and the split positions in increasing
      order, the first candidate of least cost, provided its cost is below FLT_MAX; axis and
      index stay -1 when no candidate is. */
  method FindBestSplit(boxes: array<Box>, refs: seq<array<int>>, begin: int, end: int, ghost R: seq<seq<int>>)
    returns (bestCost: real, bestAxis: int, bestSplit: int)
    requires |refs| == 3 && R == [refs[0][..], refs[1][..], refs[2][..]]
    requires SweepWf(boxes[..], R, begin, end)
    ensures bestCost <= FltMaxReal
    ensures bestAxis == -1 <==> bestSplit == -1
    ensures bestAxis == -1 ==> bestCost == FltMaxReal
    ensures bestAxis != -1 ==> 0 <= bestAxis < 3 && begin < bestSplit < end && bestCost < FltMaxReal
                               && bestCost == SplitCost(boxes[..], R[bestAxis], begin, end, bestSplit)
    ensures forall a, s :: 0 <= a < 3 && begin < s < end ==> bestCost <= SplitCost(boxes[..], R[a], begin, end, s)
    ensures bestAxis != -1 ==>
              forall a, s :: 0 <= a < 3 && begin < s < end && (a < bestAxis || (a == bestAxis && s < bestSplit))
                             ==> bestCost < SplitCost(boxes[..], R[a], begin, end, s)
  {
    bestCost, bestAxis, bestSplit := FltMaxReal, -1, -1;
    var costs := new real[boxes.Length];
    for axis := 0 to 3
      invariant R == [refs[0][..], refs[1][..], refs[2][..]]
      invariant BestSoFar(boxes[..], R, begin, end, bestCost, bestAxis, bestSplit, axis, begin)
    {
      assert R[axis] == refs[axis][..] by {
        if axis == 0 { } else if axis == 1 { } else { }
      }
      SuffixCosts(boxes, refs[axis], costs, begin, end);
      bestCost, bestAxis, bestSplit := SweepAxis(boxes, refs[axis], costs, begin, end, R, axis, bestCost, bestAxis, bestSplit);
      BestSoFarNextAxis(boxes[..], R, begin, end, bestCost, bestAxis, bestSplit, axis);
    }
  }

  /** Three orderings of all triangles are fit to sweep over any non-empty range of them. */
  lemma PermsSweepWf(boxes: seq<Box>, R: seq<seq<int>>, begin: int, end: int)
    requires PermsOk(R, |boxes|) && 0 <= begin < end <= |boxes|
    ensures SweepWf(boxes, R, begin, end)
  {
    forall a | 0 <= a < 3
      ensures IndicesBelow(R[a], |boxes|)
    {
      PermFacts(R[a], |boxes|);
    }
  }

  /** The suffix sweep of one axis: `costs[i]` becomes the cost of the right part `[i, end)`. */
  method SuffixCosts(boxes: array<Box>, order: array<int>, costs: array<real>, begin: int, end: int)
    requires 0 <= begin < end <= order.Length <= costs.Length && IndicesBelow(order[..], boxes.Length)
    modifies costs
    ensures forall k :: begin < k < end ==> costs[k] == RightCost(boxes[..], order[..], k, end)
  {
    ghost var bs, os := boxes[..], order[..];
    var tmp := Empty();
    var i := end - 1;
    while i > begin
      invariant begin <= i <= end - 1
      invariant tmp == SuffixUnion(BoxesOf(bs, os[i + 1..end]))
      invariant forall k :: i < k < end ==> costs[k] == RightCost(bs, os, k, end)
    {
      SuffixUnionStep(bs, os, i, end);
      tmp := Extend(tmp, boxes[order[i]]);
      costs[i] := Weighted(tmp, end - i);
      assert costs[i] == RightCost(bs, os, i, end);
      i := i - 1;
    }
  }

  /** The prefix sweep of axis `axis`: each candidate split `i + 1` in increasing order
      replaces the best one when its cost is strictly lower. */
  method SweepAxis(boxes: array<Box>, order: array<int>, costs: array<real>, begin: int, end: int,
                   ghost R: seq<seq<int>>, axis: int, cost0: real, axis0: int, split0: int)
    returns (bestCost: real, bestAxis: int, bestSplit: int)
    requires 0 <= axis < 3 && BestSoFar(boxes[..], R, begin, end, cost0, axis0, split0, axis, begin)
    requires R[axis] == order[..] && costs.Length >= end
    requires forall k :: begin < k < end ==> costs[k] == RightCost(boxes[..], order[..], k, end)
    ensures BestSoFar(boxes[..], R, begin, end, bestCost, bestAxis, bestSplit, axis, end - 1)
  {
    bestCost, bestAxis, bestSplit := cost0, axis0, split0;
    var tmp := Reset(Empty());
    var i := begin;
    while i < end - 1
      invariant begin <= i <= end - 1
      invariant tmp == Union(BoxesOf(boxes[..], order[..][begin..i]))
      invariant BestSoFar(boxes[..], R, begin, end, bestCost, bestAxis, bestSplit, axis, i)
    {
      tmp, bestCost, bestAxis, bestSplit := SweepCandidate(boxes, order, costs, begin, end, R, axis, i, tmp,
                                                           bestCost, bestAxis, bestSplit);
      i := i + 1;
    }
  }

  /** One step of the prefix sweep: extend the prefix box by the box of `order[i]`, and take the
      split `i + 1` when its cost, left part plus the precomputed right part, is strictly lower. */
  method SweepCandidate(boxes: array<Box>, order: array<int>, costs: array<real>, begin: int, end: int,
                        ghost R: seq<seq<int>>, axis: int, i: int, tmp0: Box, cost0: real, axis0: int, split0: int)
    returns (tmp: Box, bestCost: real, bestAxis: int, bestSplit: int)
    requires 0 <= axis < 3 && begin <= i < end - 1
    requires BestSoFar(boxes[..], R, begin, end, cost0, axis0, split0, axis, i)
    requires R[axis] == order[..] && costs.Length >= end
    requires costs[i + 1] == RightCost(boxes[..], order[..], i + 1, end)
    requires tmp0 == Union(BoxesOf(boxes[..], order[..][begin..i]))
    ensures tmp == Union(BoxesOf(boxes[..], order[..][begin..i + 1]))
    ensures BestSoFar(boxes[..], R, begin, end, bestCost, bestAxis, bestSplit, axis, i + 1)
  {
    PrefixUnionStep(boxes[..], order[..], begin, i);
    tmp := Extend(tmp0, boxes[order[i]]);
    var cost := Weighted(tmp, i + 1 - begin) + costs[i + 1];
    BestSoFarStep(boxes[..], R, begin, end, cost0, axis0, split0, axis, i, cost);
    bestCost, bestAxis, bestSplit := cost0, axis0, split0;
    if cost < bestCost {
      bestCost := cost;
      bestAxis := axis;
      bestSplit := i + 1;
    }
  }

  /** The leaf test after the sweep as the source writes it: leaf iff `best_cost >= max_split_cost`. */
  predicate LeafAfterSweepAsWritten(bestCost: real, maxSplitCost: real)
  {
    bestCost >= maxSplitCost
  }

  /** The leaf test after the sweep as used here: also a leaf when the sweep found no candidate. */
  predicate LeafAfterSweep(bestAxis: int, bestCost: real, maxSplitCost: real)
  {
    bestAxis == -1 || bestCost >= maxSplitCost
  }

  /** The two tests agree whenever the sweep found a candidate. */
  lemma LeafAfterSweepAgrees(bestAxis: int, bestCost: real, maxSplitCost: real)
    ensures bestAxis != -1 ==> (LeafAfterSweep(bestAxis, bestCost, maxSplitCost) <==> LeafAfterSweepAsWritten(bestCost, maxSplitCost))
    ensures !LeafAfterSweep(bestAxis, bestCost, maxSplitCost) ==> bestAxis != -1 && bestCost < maxSplitCost
  {
  }

  /** Two triangles whose boxes span [-10^30, 10^30] on every axis: each candidate costs at
      least FLT_MAX, so the sweep keeps axis and index at -1, yet the node's own cost bound
      `half_area * (count - 1)` exceeds FLT_MAX, so the test as written goes on to split at
      axis -1, index -1. */
  lemma NoCandidateSplitsAsWritten()
    ensures var big := Box(-1.0e30, 1.0e30, -1.0e30, 1.0e30, -1.0e30, 1.0e30);
            var boxes := [big, big];
            var order := [0, 1];
            SplitCost(boxes, order, 0, 2, 1) >= FltMaxReal
            && !LeafAfterSweepAsWritten(FltMaxReal, HalfArea(Union(boxes)) * 1.0)
            && LeafAfterSweep(-1, FltMaxReal, HalfArea(Union(boxes)) * 1.0)
  {
    var big := Box(-1.0e30, 1.0e30, -1.0e30, 1.0e30, -1.0e30, 1.0e30);
    var boxes := [big, big];
    var order := [0, 1];
    assert BoxesOf(boxes, order[0..1]) == [big];
    assert Union([big]) == Extend(Empty(), big);
    assert BoxesOf(boxes, order[1..2]) == [big];
    assert SuffixUnion([big]) == Extend(Empty(), big);
    ExtendEmptyIdentity(big);
    assert Union(boxes) == Extend(big, big);
    ExtendLaws(big, big, big);
  }

  /** Sum of the range sizes of the work items. */
  function SumSizes(items: seq<Item>): int
  {
    if |items| == 0 then 0 else SumSizes(items[..|items| - 1]) + (items[|items| - 1].end - items[|items| - 1].begin)
  }

  /** Every item is a non-empty range of `[0, n)` on an allocated node no deeper than the
      limit; items name distinct nodes and hold disjoint ranges. */
  ghost predicate ItemsOk(items: seq<Item>, numNodes: int, n: int)
  {
    && (forall t {:trigger InBounds(items, t, numNodes, n)} :: 0 <= t < |items| ==> InBounds(items, t, numNodes, n))
    && (forall t1, t2 {:trigger Apart(items, t1, t2)} :: 0 <= t1 < t2 < |items| ==> Apart(items, t1, t2))
  }

  /** Item `t` is a non-empty range of `[0, n)` on an allocated node no deeper than the limit. */
  ghost predicate InBounds(items: seq<Item>, t: int, numNodes: int, n: int)
    requires 0 <= t < |items|
  {
    0 <= items[t].node < numNodes && 0 <= items[t].begin < items[t].end <= n && 0 <= items[t].depth <= MaxDepth
  }

  /** Two work items name different nodes and have disjoint ranges. */
  ghost predicate Apart(items: seq<Item>, t1: int, t2: int)
    requires 0 <= t1 < |items| && 0 <= t2 < |items|
  {
    items[t1].node != items[t2].node && (items[t1].end <= items[t2].begin || items[t2].end <= items[t1].begin)
  }

  /** The nodes the items name. */
  ghost function NodesOf(items: seq<Item>): set<int>
  {
    if |items| == 0 then {} else NodesOf(items[..|items| - 1]) + {items[|items| - 1].node}
  }

  lemma {:induction false} NodesOfIn(items: seq<Item>, x: int)
    requires x in NodesOf(items)
    ensures exists t :: 0 <= t < |items| && items[t].node == x
  {
    var k := |items| - 1;
    if x != items[k].node {
      NodesOfIn(items[..k], x);
      var t :| 0 <= t < k && items[..k][t].node == x;
      assert items[t] == items[..k][t];
    }
  }

  lemma {:induction false} NodesOfNotIn(items: seq<Item>, x: int)
    requires forall t :: 0 <= t < |items| ==> items[t].node != x
    ensures x !in NodesOf(items)
  {
    if |items| > 0 {
      NodesOfNotIn(items[..|items| - 1], x);
    }
  }

  lemma NodesOfPush(items: seq<Item>, x: Item)
    ensures NodesOf(items + [x]) == NodesOf(items) + {x.node}
  {
    assert (items + [x])[..|items|] == items;
  }

  /** `pend` maps each pending node to its work item. */
  ghost predicate PendOk(pend: map<int, Item>, items: seq<Item>)
  {
    pend.Keys == NodesOf(items) && forall t {:trigger Pending(pend, items, t)} :: 0 <= t < |items| ==> Pending(pend, items, t)
  }

  ghost predicate Pending(pend: map<int, Item>, items: seq<Item>, t: int)
    requires 0 <= t < |items|
  {
    items[t].node in pend && pend[items[t].node] == items[t]
  }

  /** The three reference arrays are orderings of all triangles. */
  ghost predicate PermsOk(R: seq<seq<int>>, n: nat)
  {
    |R| == 3 && forall a :: 0 <= a < 3 ==> |R[a]| == n && IsPerm(R[a], n)
  }

  /** On `[b, e)` the three arrays hold the same triangles, each sorted by its own axis. */
  ghost predicate RangeOk(tris: seq<Tri>, R: seq<seq<int>>, b: int, e: int)
    requires PermsOk(R, |tris|)
  {
    0 <= b <= e <= |tris|
    && forall a :: 0 <= a < 3 ==> multiset(R[a][b..e]) == multiset(R[0][b..e]) && SortedBy(R[a][b..e], Key(tris, a))
  }

  ghost predicate RefsOk(tris: seq<Tri>, R: seq<seq<int>>, items: seq<Item>)
  {
    && PermsOk(R, |tris|)
    && forall t {:trigger RangeOk(tris, R, items[t].begin, items[t].end)} :: 0 <= t < |items| ==> RangeOk(tris, R, items[t].begin, items[t].end)
  }

  /** The work loop's invariant. `items` is the stack with the current item on top; `nodes`
      is the whole temporary node array, of which the first `numNodes` are allocated. */
  ghost predicate BuildInv(tris: seq<Tri>, R: seq<seq<int>>, nodes: seq<Node>, numNodes: int,
                           items: seq<Item>, pend: map<int, Item>, leafCount: int, leafTotal: int)
  {
    ShapeInv(|tris|, nodes, numNodes, items, pend, leafCount, leafTotal) && RefsOk(tris, R, items)
  }

  /** The part of the invariant about nodes and items: counts, the pending map and the tiling. */
  ghost predicate ShapeInv(n: int, nodes: seq<Node>, numNodes: int,
                           items: seq<Item>, pend: map<int, Item>, leafCount: int, leafTotal: int)
  {
    && n >= 1 && |nodes| == 2 * n && 1 <= numNodes <= 2 * n - 1 && |items| >= 1
    && ItemsOk(items, numNodes, n) && PendOk(pend, items)
    && numNodes == 2 * (leafCount + |items|) - 1 && leafTotal + SumSizes(items) == n && 0 <= leafCount <= leafTotal
    && Tiles(nodes[..numNodes], pend, 0, 0, n, 0)
    && (numNodes == 1 ==> items == [Item(0, 0, n, 0)])
    && (numNodes > 1 ==> 0 !in pend && nodes[0].numTrigs == 0 && nodes[0].idx == 1)
  }

  lemma {:induction false} SumSizesAtLeast(items: seq<Item>)
    requires forall t :: 0 <= t < |items| ==> items[t].begin < items[t].end
    ensures SumSizes(items) >= |items|
  {
    if |items| > 0 {
      SumSizesAtLeast(items[..|items| - 1]);
    }
  }

  lemma ItemsNonEmpty(items: seq<Item>, numNodes: int, n: int)
    requires ItemsOk(items, numNodes, n)
    ensures forall t :: 0 <= t < |items| ==> items[t].begin < items[t].end
  {
    forall t | 0 <= t < |items|
      ensures items[t].begin < items[t].end
    {
      assert InBounds(items, t, numNodes, n);
    }
  }

  lemma SumSizesAppend(items: seq<Item>, x: Item)
    ensures SumSizes(items + [x]) == SumSizes(items) + (x.end - x.begin)
  {
    assert (items + [x])[..|items|] == items;
  }

  /** The initial state: one pending root over all triangles. */
  lemma InitInv(tris: seq<Tri>, R: seq<seq<int>>, nodes: seq<Node>)
    requires |tris| >= 1 && |nodes| == 2 * |tris|
    requires PermsOk(R, |tris|)
    requires forall a :: 0 <= a < 3 ==> SortedBy(R[a], Key(tris, a))
    ensures BuildInv(tris, R, nodes, 1, [Item(0, 0, |tris|, 0)], map[0 := Item(0, 0, |tris|, 0)], 0, 0)
  {
    var n := |tris|;
    var items := [Item(0, 0, n, 0)];
    assert NodesOf(items) == {0};
    assert SumSizes(items) == SumSizes([]) + n;
    forall a | 0 <= a < 3
      ensures multiset(R[a][0..n]) == multiset(R[0][0..n]) && SortedBy(R[a][0..n], Key(tris, a))
    {
      assert R[a][0..n] == R[a];
      assert R[0][0..n] == R[0];
    }
    assert RangeOk(tris, R, 0, n);
  }

  /** Node `cur.node` made the leaf of `cur`'s range. */
  ghost function LeafNodes(nodes: seq<Node>, cur: Item): seq<Node>
  {
    if 0 <= cur.node < |nodes| then nodes[cur.node := nodes[cur.node].(numTrigs := cur.end - cur.begin, idx := cur.begin)]
    else nodes
  }

  /** Finalising the current item `cur` as a leaf when the stack below it is not empty: the
      invariant holds for the rest, with one more leaf. */
  lemma LeafStep(tris: seq<Tri>, R: seq<seq<int>>, nodes: seq<Node>, numNodes: int,
                 stack: seq<Item>, cur: Item, pend: map<int, Item>, leafCount: int, leafTotal: int)
    requires BuildInv(tris, R, nodes, numNodes, stack + [cur], pend, leafCount, leafTotal) && |stack| >= 1
    ensures BuildInv(tris, R, LeafNodes(nodes, cur), numNodes, stack, pend - {cur.node},
                     leafCount + 1, leafTotal + (cur.end - cur.begin))
  {
    var n := |tris|;
    var items := stack + [cur];
    assert items[..|items| - 1] == stack && items[|items| - 1] == cur;
    var nodes' := LeafNodes(nodes, cur);
    assert InBounds(items, |stack|, numNodes, n);
    ItemsNonEmpty(items, numNodes, n);
    PendPop(pend, stack, cur, numNodes, n);
    LeafTiles(nodes, numNodes, pend, cur, n);
    SumSizesAppend(stack, cur);
    ItemsPrefix(items, numNodes, n);
    RefsPrefix(tris, R, items);
    SumSizesAtLeast(stack);
    assert numNodes > 1;
    assert nodes'[0] == nodes[0];
  }

  /** Finalising the last item as a leaf finishes the tree: nothing is pending any more. */
  lemma LastLeafStep(tris: seq<Tri>, R: seq<seq<int>>, nodes: seq<Node>, numNodes: int,
                     cur: Item, pend: map<int, Item>, leafCount: int, leafTotal: int)
    requires BuildInv(tris, R, nodes, numNodes, [cur], pend, leafCount, leafTotal)
    ensures 1 <= numNodes <= 2 * |tris| - 1
    ensures Tiles(LeafNodes(nodes, cur)[..numNodes], map[], 0, 0, |tris|, 0)
    ensures numNodes > 1 ==> LeafNodes(nodes, cur)[0].numTrigs == 0 && LeafNodes(nodes, cur)[0].idx == 1
  {
    assert [cur] == [] + [cur];
    assert InBounds([cur], 0, numNodes, |tris|);
    PendPop(pend, [], cur, numNodes, |tris|);
    LeafTiles(nodes, numNodes, pend, cur, |tris|);
  }

  /** The tiling step of `LeafStep`, on the allocated prefix of the node array. */
  lemma LeafTiles(nodes: seq<Node>, numNodes: int, pend: map<int, Item>, cur: Item, n: int)
    requires 0 <= cur.node < numNodes <= |nodes| && cur.node in pend && pend[cur.node] == cur && cur.begin < cur.end
    requires Tiles(nodes[..numNodes], pend, 0, 0, n, 0)
    ensures Tiles(LeafNodes(nodes, cur)[..numNodes], pend - {cur.node}, 0, 0, n, 0)
  {
    var pre := nodes[..numNodes];
    TilesMakeLeaf(pre, pend, cur.node, 0, 0, n, 0);
    assert LeafNodes(nodes, cur)[..numNodes] == pre[cur.node := pre[cur.node].(numTrigs := cur.end - cur.begin, idx := cur.begin)];
  }

  /** Dropping the top item keeps the item invariant. */
  lemma ItemsPrefix(items: seq<Item>, numNodes: int, n: int)
    requires ItemsOk(items, numNodes, n) && |items| >= 1
    ensures ItemsOk(items[..|items| - 1], numNodes, n)
  {
    var stack := items[..|items| - 1];
    forall t | 0 <= t < |stack|
      ensures InBounds(stack, t, numNodes, n)
    {
      assert InBounds(items, t, numNodes, n);
    }
    forall t1, t2 | 0 <= t1 < t2 < |stack|
      ensures Apart(stack, t1, t2)
    {
      assert Apart(items, t1, t2);
    }
  }

  lemma RefsPrefix(tris: seq<Tri>, R: seq<seq<int>>, items: seq<Item>)
    requires RefsOk(tris, R, items) && |items| >= 1
    ensures RefsOk(tris, R, items[..|items| - 1])
  {
    var stack := items[..|items| - 1];
    forall t | 0 <= t < |stack|
      ensures RangeOk(tris, R, stack[t].begin, stack[t].end)
    {
      assert stack[t] == items[t];
    }
  }

  /** Removing the top item's node from the pending map matches dropping the top item. */
  lemma PendPop(pend: map<int, Item>, stack: seq<Item>, cur: Item, numNodes: int, n: int)
    requires ItemsOk(stack + [cur], numNodes, n) && PendOk(pend, stack + [cur])
    ensures cur.node in pend && pend[cur.node] == cur
    ensures PendOk(pend - {cur.node}, stack)
    ensures stack == [] ==> pend - {cur.node} == map[]
  {
    var items := stack + [cur];
    assert items[|stack|] == cur;
    assert Pending(pend, items, |stack|);
    NodesOfPush(stack, cur);
    NodesOfOther(stack, cur, numNodes, n);
    forall t | 0 <= t < |stack|
      ensures Pending(pend - {cur.node}, stack, t)
    {
      assert items[t] == stack[t];
      assert Pending(pend, items, t);
      assert Apart(items, t, |stack|);
    }
    if stack == [] {
      assert (pend - {cur.node}).Keys == {};
    }
  }

  /** The top item's node is not named lower in the stack. */
  lemma NodesOfOther(stack: seq<Item>, cur: Item, numNodes: int, n: int)
    requires ItemsOk(stack + [cur], numNodes, n)
    ensures cur.node !in NodesOf(stack)
  {
    var items := stack + [cur];
    forall t | 0 <= t < |stack|
      ensures stack[t].node != cur.node
    {
      assert items[t] == stack[t] && items[|stack|] == cur;
      assert Apart(items, t, |stack|);
    }
    NodesOfNotIn(stack, cur.node);
  }

  /** `left_size < right_size`: the smaller child is processed first, the larger one is pushed. */
  function NextItems(stack: seq<Item>, L: int, b: int, m: int, e: int, d: int): seq<Item>
  {
    if m - b < e - m then stack + [Item(L + 1, m, e, d + 1), Item(L, b, m, d + 1)]
    else stack + [Item(L, b, m, d + 1), Item(L + 1, m, e, d + 1)]
  }

  /** The next stack, written as the stack with the later child pushed and the current item on top. */
  lemma NextItemsPush(stack: seq<Item>, L: int, b: int, m: int, e: int, d: int)
    ensures NextItems(stack, L, b, m, e, d)
            == if m - b < e - m then (stack + [Item(L + 1, m, e, d + 1)]) + [Item(L, b, m, d + 1)]
               else (stack + [Item(L, b, m, d + 1)]) + [Item(L + 1, m, e, d + 1)]
  {
    assert (stack + [Item(L + 1, m, e, d + 1)]) + [Item(L, b, m, d + 1)] == stack + [Item(L + 1, m, e, d + 1), Item(L, b, m, d + 1)];
    assert (stack + [Item(L, b, m, d + 1)]) + [Item(L + 1, m, e, d + 1)] == stack + [Item(L, b, m, d + 1), Item(L + 1, m, e, d + 1)];
  }

  /** The reference arrays after the split of `[b, e)` at `m` on axis `best`: the best axis is
      unchanged, the other two are stably partitioned by the marks on that range. */
  ghost predicate SplitRefs(R: seq<seq<int>>, R': seq<seq<int>>, marks: seq<bool>, best: int, b: int, e: int)
  {
    && |R| == 3 && |R'| == 3 && 0 <= best < 3
    && (forall a :: 0 <= a < 3 ==> 0 <= b <= e <= |R[a]| && IndicesBelow(R[a][b..e], |marks|))
    && R'[best] == R[best]
    && forall a :: 0 <= a < 3 && a != best ==> R'[a] == R[a][..b] + StablePartition(R[a][b..e], marks) + R[a][e..]
  }

  /** The marks select exactly the left part `[b, m)` of the best axis's order. */
  ghost predicate MarksSplit(order: seq<int>, marks: seq<bool>, b: int, m: int, e: int)
  {
    && 0 <= b <= m <= e <= |order|
    && (forall k :: b <= k < m ==> 0 <= order[k] < |marks| && marks[order[k]])
    && (forall k :: m <= k < e ==> 0 <= order[k] < |marks| && !marks[order[k]])
  }

  /** Outside the rearranged range nothing moves. */
  lemma SplitRefsOutside(R: seq<seq<int>>, R': seq<seq<int>>, marks: seq<bool>, best: int, b: int, e: int,
                         a: int, b2: int, e2: int)
    requires SplitRefs(R, R', marks, best, b, e) && 0 <= a < 3
    requires 0 <= b2 <= e2 <= |R[a]| && (e2 <= b || e <= b2)
    ensures |R'[a]| == |R[a]| && R'[a][b2..e2] == R[a][b2..e2]
  {
    if a != best {
      var P := StablePartition(R[a][b..e], marks);
      PartitionPerm(R[a][b..e], marks);
      assert |P| == |multiset(P)| == e - b;
      SpliceOutside(R[a], P, b, e, b2, e2);
    }
  }

  /** Replacing `s[b..e]` by a sequence of the same length leaves every disjoint slice alone. */
  lemma SpliceOutside(s: seq<int>, P: seq<int>, b: int, e: int, b2: int, e2: int)
    requires 0 <= b <= e <= |s| && |P| == e - b
    requires 0 <= b2 <= e2 <= |s| && (e2 <= b || e <= b2)
    ensures |s[..b] + P + s[e..]| == |s| && (s[..b] + P + s[e..])[b2..e2] == s[b2..e2]
  {
    var t := s[..b] + P + s[e..];
    assert forall k :: b2 <= k < e2 ==> t[k] == s[k];
  }

  /** Splitting keeps every array an ordering of all triangles. */
  lemma SplitRefsPerms(tris: seq<Tri>, R: seq<seq<int>>, R': seq<seq<int>>, marks: seq<bool>, best: int, b: int, e: int)
    requires PermsOk(R, |tris|) && SplitRefs(R, R', marks, best, b, e)
    ensures PermsOk(R', |tris|)
  {
    forall a | 0 <= a < 3
      ensures |R'[a]| == |tris| && IsPerm(R'[a], |tris|)
    {
      if a != best {
        PartitionPerm(R[a][b..e], marks);
        SplicePerm(R[a], StablePartition(R[a][b..e], marks), b, e, |tris|);
      }
    }
  }

  /** Replacing a range of an ordering by a rearrangement of it gives an ordering again. */
  lemma SplicePerm(s: seq<int>, P: seq<int>, b: int, e: int, n: nat)
    requires IsPerm(s, n) && 0 <= b <= e <= |s| && multiset(P) == multiset(s[b..e])
    ensures |s[..b] + P + s[e..]| == |s| && IsPerm(s[..b] + P + s[e..], n)
  {
    assert |P| == |multiset(P)| == e - b;
    assert s == s[..b] + s[b..e] + s[e..];
  }

  /** The two halves of the split range satisfy the range invariant in the new arrays. */
  lemma SplitRefsHalves(tris: seq<Tri>, R: seq<seq<int>>, R': seq<seq<int>>, marks: seq<bool>,
                        best: int, b: int, m: int, e: int)
    requires PermsOk(R, |tris|) && PermsOk(R', |tris|) && RangeOk(tris, R, b, e) && b < m < e
    requires SplitRefs(R, R', marks, best, b, e) && MarksSplit(R[best], marks, b, m, e)
    ensures RangeOk(tris, R', b, m) && RangeOk(tris, R', m, e)
  {
    var left, right := R[best][b..m], R[best][m..e];
    assert R[best][b..e] == left + right;
    forall k | 0 <= k < |left| ensures 0 <= left[k] < |marks| && marks[left[k]] { assert left[k] == R[best][b + k]; }
    forall k | 0 <= k < |right| ensures 0 <= right[k] < |marks| && !marks[right[k]] { assert right[k] == R[best][m + k]; }
    forall a | 0 <= a < 3
      ensures multiset(R'[a][b..m]) == multiset(left) && SortedBy(R'[a][b..m], Key(tris, a))
      ensures multiset(R'[a][m..e]) == multiset(right) && SortedBy(R'[a][m..e], Key(tris, a))
    {
      assert multiset(R[a][b..e]) == multiset(R[0][b..e]) == multiset(R[best][b..e]);
      assert SortedBy(R[a][b..e], Key(tris, a));
      if a == best {
        HalvesOfBest(R[a], Key(tris, a), b, m, e);
      } else {
        HalvesOfOther(R[a], R'[a], left, right, marks, Key(tris, a), b, m, e);
      }
    }
  }

  /** On the best axis the halves are the two parts of a sorted range. */
  lemma HalvesOfBest(s: seq<int>, key: int -> real, b: int, m: int, e: int)
    requires 0 <= b <= m <= e <= |s| && SortedBy(s[b..e], key)
    ensures SortedBy(s[b..m], key) && SortedBy(s[m..e], key)
  {
    SortedSlice(s[b..e], 0, m - b, key);
    SortedSlice(s[b..e], m - b, e - b, key);
    assert s[b..e][0..m - b] == s[b..m];
    assert s[b..e][m - b..e - b] == s[m..e];
  }

  /** On another axis the stable partition puts the left part's triangles first, in sorted
      order, and the right part's after them, in sorted order. */
  lemma HalvesOfOther(s: seq<int>, s': seq<int>, left: seq<int>, right: seq<int>, marks: seq<bool>,
                      key: int -> real, b: int, m: int, e: int)
    requires 0 <= b < m < e <= |s| && |s'| == |s| && |left| == m - b && |right| == e - m
    requires IndicesBelow(s[b..e], |marks|) && SortedBy(s[b..e], key)
    requires multiset(s[b..e]) == multiset(left + right)
    requires forall k :: 0 <= k < |left| ==> 0 <= left[k] < |marks| && marks[left[k]]
    requires forall k :: 0 <= k < |right| ==> 0 <= right[k] < |marks| && !marks[right[k]]
    requires s' == s[..b] + StablePartition(s[b..e], marks) + s[e..]
    ensures multiset(s'[b..m]) == multiset(left) && SortedBy(s'[b..m], key)
    ensures multiset(s'[m..e]) == multiset(right) && SortedBy(s'[m..e], key)
  {
    var r := s[b..e];
    var F, G := Filter(r, marks, true), Filter(r, marks, false);
    PartitionSplits(r, left, right, marks);
    FilterSorted(r, marks, true, key);
    FilterSorted(r, marks, false, key);
    assert StablePartition(r, marks) == F + G;
    ConcatSlices(s[..b], F, G, s[e..]);
  }

  lemma ConcatSlices(p: seq<int>, F: seq<int>, G: seq<int>, q: seq<int>)
    ensures (p + (F + G) + q)[|p|..|p| + |F|] == F
    ensures (p + (F + G) + q)[|p| + |F|..|p| + |F| + |G|] == G
  {
    var t := p + (F + G) + q;
    assert t[|p|..|p| + |F|] == F by {
      forall k | 0 <= k < |F| ensures t[|p| + k] == F[k] { }
    }
    assert t[|p| + |F|..|p| + |F| + |G|] == G by {
      forall k | 0 <= k < |G| ensures t[|p| + |F| + k] == G[k] { }
    }
  }

  lemma SortedSlice(s: seq<int>, i: int, j: int, key: int -> real)
    requires SortedBy(s, key) && 0 <= i <= j <= |s|
    ensures SortedBy(s[i..j], key)
  {
    assert forall p, q :: 0 <= p < q < j - i ==> s[i..j][p] == s[i + p] && s[i..j][q] == s[i + q];
  }

  /** The node array after splitting node `j` into the fresh pair `L`, `L + 1` with boxes
      given by `y` and `z`: `j` becomes internal with left child `L`. */
  ghost function SplitNodes(nodes: seq<Node>, L: int, j: int, y: Node, z: Node): seq<Node>
  {
    if 0 <= j < |nodes| && 0 <= L && L + 1 < |nodes| then nodes[L := y][L + 1 := z][j := nodes[j].(numTrigs := 0, idx := L)]
    else nodes
  }

  /** Splitting keeps the root's box: the fresh pair sits after the root. */
  lemma SplitNodesRoot(nodes: seq<Node>, L: int, j: int, y: Node, z: Node)
    requires 1 <= L && 0 < |nodes|
    ensures |SplitNodes(nodes, L, j, y, z)| == |nodes| && SplitNodes(nodes, L, j, y, z)[0].bbox == nodes[0].bbox
  {
  }

  /** The pending map after splitting `cur` at `m`: its node is done, both children are pending. */
  ghost function SplitPend(pend: map<int, Item>, cur: Item, L: int, m: int): map<int, Item>
  {
    (pend - {cur.node})[L := Item(L, cur.begin, m, cur.depth + 1)][L + 1 := Item(L + 1, m, cur.end, cur.depth + 1)]
  }

  /** Splitting the current item `cur` keeps the loop invariant, whichever child goes first. */
  lemma SplitStep(tris: seq<Tri>, R: seq<seq<int>>, R': seq<seq<int>>, marks: seq<bool>, best: int,
                  nodes: seq<Node>, L: int, stack: seq<Item>, cur: Item, pend: map<int, Item>,
                  leafCount: int, leafTotal: int, m: int, y: Node, z: Node, stack': seq<Item>, cur': Item)
    requires BuildInv(tris, R, nodes, L, stack + [cur], pend, leafCount, leafTotal)
    requires cur.begin < m < cur.end && cur.depth < MaxDepth
    requires SplitRefs(R, R', marks, best, cur.begin, cur.end) && MarksSplit(R[best], marks, cur.begin, m, cur.end)
    requires if m - cur.begin < cur.end - m
             then stack' == stack + [Item(L + 1, m, cur.end, cur.depth + 1)] && cur' == Item(L, cur.begin, m, cur.depth + 1)
             else stack' == stack + [Item(L, cur.begin, m, cur.depth + 1)] && cur' == Item(L + 1, m, cur.end, cur.depth + 1)
    ensures L + 1 < |nodes|
    ensures BuildInv(tris, R', SplitNodes(nodes, L, cur.node, y, z), L + 2, stack' + [cur'], SplitPend(pend, cur, L, m), leafCount, leafTotal)
  {
    NextItemsPush(stack, L, cur.begin, m, cur.end, cur.depth);
    assert stack' + [cur'] == NextItems(stack, L, cur.begin, m, cur.end, cur.depth);
    var items := stack + [cur];
    assert items[..|items| - 1] == stack && items[|items| - 1] == cur;
    SplitShape(|tris|, nodes, L, items, pend, leafCount, leafTotal, m, y, z);
    SplitRefsAll(tris, R, R', marks, best, items, L, m);
  }

  /** The node-and-item part of the split step. */
  lemma SplitShape(n: int, nodes: seq<Node>, numNodes: int, items: seq<Item>, pend: map<int, Item>,
                   leafCount: int, leafTotal: int, m: int, y: Node, z: Node)
    requires ShapeInv(n, nodes, numNodes, items, pend, leafCount, leafTotal)
    requires var cur := items[|items| - 1]; cur.begin < m < cur.end && cur.depth < MaxDepth
    ensures numNodes + 1 < |nodes|
    ensures
      var cur := items[|items| - 1];
      ShapeInv(n, SplitNodes(nodes, numNodes, cur.node, y, z), numNodes + 2,
               NextItems(items[..|items| - 1], numNodes, cur.begin, m, cur.end, cur.depth),
               SplitPend(pend, cur, numNodes, m), leafCount, leafTotal)
  {
    SplitItems(n, numNodes, items, pend, leafCount, leafTotal, m);
    SplitTiles(n, nodes, numNodes, items, pend, leafCount, leafTotal, m, y, z);
    SplitRoot(n, nodes, numNodes, items, pend, leafCount, leafTotal, m, y, z);
  }

  /** The count, item and pending-map parts of the split step. */
  lemma SplitItems(n: int, numNodes: int, items: seq<Item>, pend: map<int, Item>,
                   leafCount: int, leafTotal: int, m: int)
    requires |items| >= 1 && ItemsOk(items, numNodes, n) && PendOk(pend, items)
    requires numNodes == 2 * (leafCount + |items|) - 1 && leafTotal + SumSizes(items) == n && 0 <= leafCount <= leafTotal
    requires var cur := items[|items| - 1]; cur.begin < m < cur.end && cur.depth < MaxDepth
    ensures numNodes + 3 <= 2 * n
    ensures var cur := items[|items| - 1];
            var items' := NextItems(items[..|items| - 1], numNodes, cur.begin, m, cur.end, cur.depth);
            && ItemsOk(items', numNodes + 2, n) && PendOk(SplitPend(pend, cur, numNodes, m), items')
            && numNodes + 2 == 2 * (leafCount + |items'|) - 1 && leafTotal + SumSizes(items') == n
  {
    var cur := items[|items| - 1];
    var stack := items[..|items| - 1];
    assert items == stack + [cur];
    ItemsNonEmpty(items, numNodes, n);
    SplitCounts(stack, cur, numNodes, m, numNodes, leafCount, leafTotal, n);
    SplitItemsNext(n, numNodes, stack, cur, m);
    SplitPendNext(n, numNodes, stack, cur, pend, m);
  }

  lemma SplitItemsNext(n: int, L: int, stack: seq<Item>, cur: Item, m: int)
    requires ItemsOk(stack + [cur], L, n)
    requires cur.begin < m < cur.end && cur.depth < MaxDepth
    ensures ItemsOk(NextItems(stack, L, cur.begin, m, cur.end, cur.depth), L + 2, n)
  {
    var items' := NextItems(stack, L, cur.begin, m, cur.end, cur.depth);
    NextItemsPair(stack, L, cur.begin, m, cur.end, cur.depth);
    SplitItemsOk(stack, cur, items'[|stack|], items'[|stack| + 1], L, m, n);
  }

  lemma SplitPendNext(n: int, L: int, stack: seq<Item>, cur: Item, pend: map<int, Item>, m: int)
    requires ItemsOk(stack + [cur], L, n) && PendOk(pend, stack + [cur])
    ensures PendOk(SplitPend(pend, cur, L, m), NextItems(stack, L, cur.begin, m, cur.end, cur.depth))
  {
    var items' := NextItems(stack, L, cur.begin, m, cur.end, cur.depth);
    NextItemsPair(stack, L, cur.begin, m, cur.end, cur.depth);
    SplitPendOk(stack, cur, items'[|stack|], items'[|stack| + 1], pend, L, m, n);
  }

  /** The counting part of the split step. */
  lemma SplitCounts(stack: seq<Item>, cur: Item, L: int, m: int, numNodes: int, leafCount: int, leafTotal: int, n: int)
    requires forall t :: 0 <= t < |stack| ==> stack[t].begin < stack[t].end
    requires cur.begin < m < cur.end && L == numNodes
    requires numNodes == 2 * (leafCount + |stack| + 1) - 1 && leafTotal + SumSizes(stack + [cur]) == n
    requires 0 <= leafCount <= leafTotal
    ensures L + 3 <= 2 * n
    ensures var items' := NextItems(stack, L, cur.begin, m, cur.end, cur.depth);
            numNodes + 2 == 2 * (leafCount + |items'|) - 1 && leafTotal + SumSizes(items') == n
  {
    SumSizesAppend(stack, cur);
    SumSizesAtLeast(stack);
    var items' := NextItems(stack, L, cur.begin, m, cur.end, cur.depth);
    var first, second := items'[|items'| - 2], items'[|items'| - 1];
    assert items' == (stack + [first]) + [second];
    SumSizesAppend(stack, first);
    SumSizesAppend(stack + [first], second);
  }

  /** The two children's items, in either order. */
  ghost predicate ChildPairItems(p: Item, q: Item, L: int, b: int, m: int, e: int, d: int)
  {
    || (p == Item(L, b, m, d + 1) && q == Item(L + 1, m, e, d + 1))
    || (p == Item(L + 1, m, e, d + 1) && q == Item(L, b, m, d + 1))
  }

  lemma NextItemsPair(stack: seq<Item>, L: int, b: int, m: int, e: int, d: int)
    ensures var items' := NextItems(stack, L, b, m, e, d);
            |items'| == |stack| + 2 && items' == stack + [items'[|stack|], items'[|stack| + 1]]
            && ChildPairItems(items'[|stack|], items'[|stack| + 1], L, b, m, e, d)
  {
  }

  /** The item part of the split step. */
  lemma SplitItemsOk(stack: seq<Item>, cur: Item, p: Item, q: Item, L: int, m: int, n: int)
    requires ItemsOk(stack + [cur], L, n)
    requires cur.begin < m < cur.end && cur.depth < MaxDepth
    requires ChildPairItems(p, q, L, cur.begin, m, cur.end, cur.depth)
    ensures ItemsOk(stack + [p, q], L + 2, n)
  {
    var items := stack + [cur];
    var items' := stack + [p, q];
    assert items[|stack|] == cur;
    assert forall t :: 0 <= t < |stack| ==> items[t] == stack[t] && items'[t] == stack[t];
    assert items'[|stack|] == p && items'[|stack| + 1] == q;
    assert InBounds(items, |stack|, L, n);
    var L2 := L + 2;
    forall t | 0 <= t < |items'|
      ensures InBounds(items', t, L2, n)
    {
      if t < |stack| {
        assert InBounds(items, t, L, n);
      }
    }
    forall t1, t2 | 0 <= t1 < t2 < |items'|
      ensures Apart(items', t1, t2)
    {
      if t2 < |stack| {
        assert Apart(items, t1, t2);
      } else if t1 < |stack| {
        assert Apart(items, t1, |stack|);
        assert InBounds(items, t1, L, n);
      }
    }
  }

  /** The pending-map part of the split step. */
  lemma SplitPendOk(stack: seq<Item>, cur: Item, p: Item, q: Item, pend: map<int, Item>, L: int, m: int, n: int)
    requires ItemsOk(stack + [cur], L, n) && PendOk(pend, stack + [cur])
    requires ChildPairItems(p, q, L, cur.begin, m, cur.end, cur.depth)
    ensures PendOk(SplitPend(pend, cur, L, m), stack + [p, q])
  {
    var items' := stack + [p, q];
    NodesOfPush(stack, cur);
    NodesOfPush(stack, p);
    NodesOfPush(stack + [p], q);
    assert stack + [p] + [q] == items';
    NodesOfOther(stack, cur, L, n);
    var pend' := SplitPend(pend, cur, L, m);
    SplitPendKept(stack, cur, pend, L, m, n);
    forall t | 0 <= t < |items'|
      ensures Pending(pend', items', t)
    {
      if t < |stack| {
        assert items'[t] == stack[t];
      }
    }
  }

  /** The items below the split one keep their entries in the pending map. */
  lemma SplitPendKept(stack: seq<Item>, cur: Item, pend: map<int, Item>, L: int, m: int, n: int)
    requires ItemsOk(stack + [cur], L, n) && PendOk(pend, stack + [cur])
    ensures forall t :: 0 <= t < |stack| ==> stack[t].node in SplitPend(pend, cur, L, m)
                                             && SplitPend(pend, cur, L, m)[stack[t].node] == stack[t]
  {
    var items := stack + [cur];
    assert items[|stack|] == cur;
    forall t | 0 <= t < |stack|
      ensures stack[t].node in SplitPend(pend, cur, L, m) && SplitPend(pend, cur, L, m)[stack[t].node] == stack[t]
    {
      assert items[t] == stack[t];
      assert Pending(pend, items, t);
      assert Apart(items, t, |stack|);
      assert InBounds(items, t, L, n);
    }
  }

  /** The tiling part of the split step. */
  lemma SplitTiles(n: int, nodes: seq<Node>, numNodes: int, items: seq<Item>, pend: map<int, Item>,
                   leafCount: int, leafTotal: int, m: int, y: Node, z: Node)
    requires ShapeInv(n, nodes, numNodes, items, pend, leafCount, leafTotal) && numNodes + 1 < |nodes|
    requires var cur := items[|items| - 1]; cur.begin < m < cur.end && cur.depth < MaxDepth
    ensures var cur := items[|items| - 1];
            Tiles(SplitNodes(nodes, numNodes, cur.node, y, z)[..numNodes + 2], SplitPend(pend, cur, numNodes, m), 0, 0, n, 0)
  {
    var cur := items[|items| - 1];
    var L := numNodes;
    assert InBounds(items, |items| - 1, numNodes, n);
    var x := nodes[cur.node].(numTrigs := 0, idx := L);
    forall k | k in pend
      ensures 0 <= k < |nodes[..numNodes]|
    {
      NodesOfIn(items, k);
      var t :| 0 <= t < |items| && items[t].node == k;
      assert InBounds(items, t, numNodes, n);
    }
    assert Pending(pend, items, |items| - 1);
    TilesSplit(nodes[..numNodes], pend, cur.node, m, x, y, z, 0, 0, n, 0);
    assert SplitNodes(nodes, L, cur.node, y, z)[..L + 2] == nodes[..numNodes][cur.node := x] + [y, z];
  }

  /** The root part of the split step: once the root is split it is internal with left child 1
      and is no longer pending. */
  lemma SplitRoot(n: int, nodes: seq<Node>, numNodes: int, items: seq<Item>, pend: map<int, Item>,
                  leafCount: int, leafTotal: int, m: int, y: Node, z: Node)
    requires ShapeInv(n, nodes, numNodes, items, pend, leafCount, leafTotal) && numNodes + 1 < |nodes|
    ensures var cur := items[|items| - 1];
            var nodes' := SplitNodes(nodes, numNodes, cur.node, y, z);
            0 !in SplitPend(pend, cur, numNodes, m) && nodes'[0].numTrigs == 0 && nodes'[0].idx == 1
  {
    var cur := items[|items| - 1];
    assert Pending(pend, items, |items| - 1);
    assert InBounds(items, |items| - 1, numNodes, n);
  }

  /** The reference-array part of the split step. */
  lemma SplitRefsAll(tris: seq<Tri>, R: seq<seq<int>>, R': seq<seq<int>>, marks: seq<bool>, best: int,
                     items: seq<Item>, L: int, m: int)
    requires |items| >= 1 && RefsOk(tris, R, items)
    requires forall t1, t2 {:trigger Apart(items, t1, t2)} :: 0 <= t1 < t2 < |items| ==> Apart(items, t1, t2)
    requires var cur := items[|items| - 1];
             cur.begin < m < cur.end
             && SplitRefs(R, R', marks, best, cur.begin, cur.end) && MarksSplit(R[best], marks, cur.begin, m, cur.end)
    ensures var cur := items[|items| - 1];
            RefsOk(tris, R', NextItems(items[..|items| - 1], L, cur.begin, m, cur.end, cur.depth))
  {
    var cur := items[|items| - 1];
    var b, e := cur.begin, cur.end;
    var stack := items[..|items| - 1];
    var items' := NextItems(stack, L, b, m, e, cur.depth);
    SplitRefsPerms(tris, R, R', marks, best, b, e);
    SplitRefsHalves(tris, R, R', marks, best, b, m, e);
    forall t | 0 <= t < |items'|
      ensures RangeOk(tris, R', items'[t].begin, items'[t].end)
    {
      if t < |stack| {
        var it := stack[t];
        assert it == items[t];
        assert Apart(items, t, |items| - 1);
        assert RangeOk(tris, R, it.begin, it.end);
        forall a | 0 <= a < 3
          ensures R'[a][it.begin..it.end] == R[a][it.begin..it.end]
        {
          SplitRefsOutside(R, R', marks, best, b, e, a, it.begin, it.end);
        }
      }
    }
  }

  // ---- node boxes

  /** Two triangle ranges share no position. */
  ghost predicate Disjoint(x: Item, y: Item)
  {
    x.end <= y.begin || y.end <= x.begin
  }

  /** Range `x` lies inside range `y`. */
  ghost predicate Within(x: Item, y: Item)
  {
    y.begin <= x.begin && x.end <= y.end
  }

  /** Allocated node `k` and pending node `p`: either the same node, or `k`'s range is
      apart from `p`'s or holds it. So a rearrangement inside a pending range moves no
      triangle into or out of any other node's range. */
  ghost predicate Nested(rng: map<int, Item>, pend: map<int, Item>, k: int, p: int)
  {
    k in rng && p in pend && (k == p || Disjoint(rng[k], pend[p]) || Within(pend[p], rng[k]))
  }

  /** What a finished or split node `k` says about its range: a leaf lists it, and an
      internal node's children split it at their common end. */
  ghost predicate NodeRange(nodes: seq<Node>, numNodes: int, rng: map<int, Item>, k: int)
  {
    && 0 <= k < |nodes| && k in rng
    && if nodes[k].IsLeaf() then rng[k].begin == nodes[k].idx && rng[k].end == nodes[k].idx + nodes[k].numTrigs
       else
         var l := nodes[k].idx;
         && k < l && l + 1 < numNodes && l in rng && l + 1 in rng
         && rng[l].begin == rng[k].begin && rng[l].end == rng[l + 1].begin && rng[l + 1].end == rng[k].end
  }

  /** `rng` records the triangle range of every allocated node: the root holds `[0, n)`, a
      pending node its item's range, and the rest agree with their node records; pending
      ranges are pairwise apart and nest with every other range. */
  ghost predicate RangesOk(n: int, nodes: seq<Node>, numNodes: int, pend: map<int, Item>, rng: map<int, Item>)
  {
    && 1 <= numNodes <= |nodes|
    && (forall k {:trigger k in rng} :: 0 <= k < numNodes ==> k in rng && 0 <= rng[k].begin <= rng[k].end <= n)
    && rng[0].begin == 0 && rng[0].end == n
    && (forall p :: p in pend ==> 0 <= p < numNodes && p in rng && rng[p].begin == pend[p].begin && rng[p].end == pend[p].end)
    && (forall k {:trigger NodeRange(nodes, numNodes, rng, k)} :: 0 <= k < numNodes && k !in pend ==> NodeRange(nodes, numNodes, rng, k))
    && (forall k, p {:trigger Nested(rng, pend, k, p)} :: 0 <= k < numNodes && p in pend ==> Nested(rng, pend, k, p))
    && (forall p, q :: p in pend && q in pend && p != q ==> Disjoint(pend[p], pend[q]))
  }

  /** Node `k`'s box is the union of the boxes of the triangles in its range of `order`. */
  ghost predicate NodeBoxed(boxes: seq<Box>, order: seq<int>, nodes: seq<Node>, rng: map<int, Item>, k: int)
  {
    && IndicesBelow(order, |boxes|) && 0 <= k < |nodes| && k in rng
    && 0 <= rng[k].begin <= rng[k].end <= |order|
    && nodes[k].bbox == Union(BoxesOf(boxes, order[rng[k].begin..rng[k].end]))
  }

  /** The box part of the work loop's invariant, over the x order. */
  ghost predicate BoxInv(n: int, boxes: seq<Box>, order: seq<int>, nodes: seq<Node>, numNodes: int,
                         pend: map<int, Item>, rng: map<int, Item>)
  {
    && RangesOk(n, nodes, numNodes, pend, rng)
    && forall k {:trigger NodeBoxed(boxes, order, nodes, rng, k)} :: 0 <= k < numNodes ==> NodeBoxed(boxes, order, nodes, rng, k)
  }

  /** The union of the boxes of a range does not depend on the order of the range. */
  lemma {:induction false} UnionOfPerm(boxes: seq<Box>, s: seq<int>, t: seq<int>)
    requires IndicesBelow(s, |boxes|) && multiset(s) == multiset(t)
    ensures IndicesBelow(t, |boxes|) && Union(BoxesOf(boxes, s)) == Union(BoxesOf(boxes, t))
    decreases |s|
  {
    PermIndicesBelow(s, t, |boxes|);
    if |s| == 0 {
      assert |t| == |multiset(t)| == 0;
    } else {
      var n := |s|;
      var j := TakeLast(s, t);
      var t' := t[..j] + t[j + 1..];
      assert IndicesBelow(s[..n - 1], |boxes|);
      UnionOfPerm(boxes, s[..n - 1], t');
      BoxesOfDrop(boxes, t, j);
      UnionRemove(BoxesOf(boxes, t), j);
      assert BoxesOf(boxes, s)[..n - 1] == BoxesOf(boxes, s[..n - 1]);
    }
  }

  /** A rearrangement of slot indices holds slot indices only. */
  lemma PermIndicesBelow(s: seq<int>, t: seq<int>, n: int)
    requires IndicesBelow(s, n) && multiset(s) == multiset(t)
    ensures IndicesBelow(t, n)
  {
    forall i | 0 <= i < |t|
      ensures 0 <= t[i] < n
    {
      assert t[i] in multiset(s);
      var k :| 0 <= k < |s| && s[k] == t[i];
    }
  }

  /** The last entry of `s` sits at some position `j` of its rearrangement `t`; what is left
      of both is again a rearrangement. */
  lemma TakeLast(s: seq<int>, t: seq<int>) returns (j: int)
    requires |s| > 0 && multiset(s) == multiset(t)
    ensures 0 <= j < |t| && t[j] == s[|s| - 1] && multiset(s[..|s| - 1]) == multiset(t[..j] + t[j + 1..])
  {
    var x := s[|s| - 1];
    assert s == s[..|s| - 1] + [x];
    assert x in multiset(t);
    j :| 0 <= j < |t| && t[j] == x;
    assert t == t[..j] + [x] + t[j + 1..];
    calc {
      multiset(t[..j] + t[j + 1..]);
      multiset(t) - multiset{x};
      multiset(s) - multiset{x};
      multiset(s[..|s| - 1]);
    }
  }

  lemma BoxesOfDrop(boxes: seq<Box>, t: seq<int>, j: int)
    requires IndicesBelow(t, |boxes|) && 0 <= j < |t|
    ensures IndicesBelow(t[..j] + t[j + 1..], |boxes|)
    ensures BoxesOf(boxes, t)[..j] + BoxesOf(boxes, t)[j + 1..] == BoxesOf(boxes, t[..j] + t[j + 1..])
  {
    var t' := t[..j] + t[j + 1..];
    assert forall i :: 0 <= i < |t'| ==> t'[i] == if i < j then t[i] else t[i + 1];
  }

  /** Splitting rearranges only inside `[b, e)`: a range around it keeps its triangles. */
  lemma SplitRefsAround(R: seq<seq<int>>, R': seq<seq<int>>, marks: seq<bool>, best: int, b: int, e: int,
                        a: int, b2: int, e2: int)
    requires SplitRefs(R, R', marks, best, b, e) && 0 <= a < 3
    requires 0 <= b2 <= b && e <= e2 <= |R[a]|
    ensures |R'[a]| == |R[a]| && multiset(R'[a][b2..e2]) == multiset(R[a][b2..e2])
  {
    if a != best {
      var s := R[a];
      var P := StablePartition(s[b..e], marks);
      PartitionPerm(s[b..e], marks);
      assert |P| == |multiset(P)| == e - b;
      ReplaceMiddle(s, P, b, e, b2, e2);
    }
  }

  /** Replacing `s[b..e]` by a permutation of it keeps the triangles of any range around it. */
  lemma ReplaceMiddle(s: seq<int>, P: seq<int>, b: int, e: int, b2: int, e2: int)
    requires 0 <= b2 <= b <= e <= e2 <= |s| && |P| == e - b && multiset(P) == multiset(s[b..e])
    ensures |s[..b] + P + s[e..]| == |s|
    ensures multiset((s[..b] + P + s[e..])[b2..e2]) == multiset(s[b2..e2])
  {
    var t := s[..b] + P + s[e..];
    assert t[..b] == s[..b] && t[b..e] == P && t[e..] == s[e..];
    assert t[b2..e2] == t[b2..b] + t[b..e] + t[e..e2];
    assert t[b2..b] == s[b2..b] by { assert t[b2..b] == t[..b][b2..]; }
    assert t[e..e2] == s[e..e2] by { assert t[e..e2] == t[e..][..e2 - e]; }
    assert s[b2..e2] == s[b2..b] + s[b..e] + s[e..e2];
    calc {
      multiset(t[b2..e2]);
      multiset(s[b2..b]) + multiset(P) + multiset(s[e..e2]);
      multiset(s[b2..b]) + multiset(s[b..e]) + multiset(s[e..e2]);
      multiset(s[b2..e2]);
    }
  }

  /** The initial state: the root's box is the union of all triangle boxes, in any order. */
  lemma InitBoxes(tris: seq<Tri>, boxes: seq<Box>, order: seq<int>, nodes: seq<Node>)
    requires |tris| >= 1 && boxes == TriBoxes(tris) && IsPerm(order, |tris|) && |nodes| >= 1
    requires nodes[0].bbox == Union(boxes)
    ensures BoxInv(|tris|, boxes, order, nodes, 1, map[0 := Item(0, 0, |tris|, 0)], map[0 := Item(0, 0, |tris|, 0)])
  {
    var n := |tris|;
    var rng := map[0 := Item(0, 0, n, 0)];
    PermFacts(order, n);
    assert BoxesOf(boxes, Iota(n)) == boxes;
    assert order[0..n] == order;
    UnionOfPerm(boxes, Iota(n), order);
    assert NodeBoxed(boxes, order, nodes, rng, 0);
  }

  /** Finalising the current item as a leaf keeps every box and range. */
  lemma LeafBoxes(n: int, boxes: seq<Box>, order: seq<int>, nodes: seq<Node>, numNodes: int,
                  pend: map<int, Item>, rng: map<int, Item>, cur: Item)
    requires BoxInv(n, boxes, order, nodes, numNodes, pend, rng)
    requires cur.node in pend && pend[cur.node] == cur && 0 <= cur.node < numNodes && cur.begin < cur.end
    ensures BoxInv(n, boxes, order, LeafNodes(nodes, cur), numNodes, pend - {cur.node}, rng)
  {
    var nodes', pend' := LeafNodes(nodes, cur), pend - {cur.node};
    forall k | 0 <= k < numNodes && k !in pend'
      ensures NodeRange(nodes', numNodes, rng, k)
    {
      if k != cur.node {
        assert NodeRange(nodes, numNodes, rng, k);
      }
    }
    forall k, p | 0 <= k < numNodes && p in pend'
      ensures Nested(rng, pend', k, p)
    {
      assert Nested(rng, pend, k, p);
    }
    forall k | 0 <= k < numNodes
      ensures NodeBoxed(boxes, order, nodes', rng, k)
    {
      assert NodeBoxed(boxes, order, nodes, rng, k);
    }
  }

  /** The range map after splitting `cur` at `m`: the fresh pair gets the two halves. */
  ghost function SplitRng(rng: map<int, Item>, cur: Item, L: int, m: int): map<int, Item>
  {
    rng[L := Item(L, cur.begin, m, cur.depth + 1)][L + 1 := Item(L + 1, m, cur.end, cur.depth + 1)]
  }

  /** Splitting the current item keeps the range records: the split node's children are
      the fresh pair, and the two halves nest inside its range and apart from the rest. */
  lemma SplitRanges(n: int, nodes: seq<Node>, L: int, pend: map<int, Item>, rng: map<int, Item>,
                    cur: Item, m: int, y: Node, z: Node)
    requires RangesOk(n, nodes, L, pend, rng) && L + 1 < |nodes|
    requires cur.node in pend && pend[cur.node] == cur && cur.begin < m < cur.end
    ensures RangesOk(n, SplitNodes(nodes, L, cur.node, y, z), L + 2, SplitPend(pend, cur, L, m), SplitRng(rng, cur, L, m))
  {
    var pend', rng' := SplitPend(pend, cur, L, m), SplitRng(rng, cur, L, m);
    forall k | 0 <= k < L + 2
      ensures k in rng' && 0 <= rng'[k].begin <= rng'[k].end <= n
    {
      assert k < L ==> k in rng;
    }
    forall p | p in pend'
      ensures 0 <= p < L + 2 && p in rng' && rng'[p].begin == pend'[p].begin && rng'[p].end == pend'[p].end
    {
    }
    SplitNodeRanges(n, nodes, L, pend, rng, cur, m, y, z);
    SplitNested(n, nodes, L, pend, rng, cur, m);
    SplitApart(n, nodes, L, pend, rng, cur, m);
  }

  lemma SplitNodeRanges(n: int, nodes: seq<Node>, L: int, pend: map<int, Item>, rng: map<int, Item>,
                        cur: Item, m: int, y: Node, z: Node)
    requires RangesOk(n, nodes, L, pend, rng) && L + 1 < |nodes|
    requires cur.node in pend && pend[cur.node] == cur && cur.begin < m < cur.end
    ensures forall k {:trigger NodeRange(SplitNodes(nodes, L, cur.node, y, z), L + 2, SplitRng(rng, cur, L, m), k)}
              :: 0 <= k < L + 2 && k !in SplitPend(pend, cur, L, m)
                 ==> NodeRange(SplitNodes(nodes, L, cur.node, y, z), L + 2, SplitRng(rng, cur, L, m), k)
  {
    var j := cur.node;
    var nodes', pend', rng' := SplitNodes(nodes, L, j, y, z), SplitPend(pend, cur, L, m), SplitRng(rng, cur, L, m);
    assert 0 <= j < L;
    forall k | 0 <= k < L + 2 && k !in pend'
      ensures NodeRange(nodes', L + 2, rng', k)
    {
      if k != j {
        assert k < L && k !in pend && nodes'[k] == nodes[k];
        assert NodeRange(nodes, L, rng, k);
      }
    }
  }

  lemma SplitNested(n: int, nodes: seq<Node>, L: int, pend: map<int, Item>, rng: map<int, Item>, cur: Item, m: int)
    requires RangesOk(n, nodes, L, pend, rng)
    requires cur.node in pend && pend[cur.node] == cur && cur.begin < m < cur.end
    ensures forall k, p {:trigger Nested(SplitRng(rng, cur, L, m), SplitPend(pend, cur, L, m), k, p)}
              :: 0 <= k < L + 2 && p in SplitPend(pend, cur, L, m) ==> Nested(SplitRng(rng, cur, L, m), SplitPend(pend, cur, L, m), k, p)
  {
    var j := cur.node;
    var pend', rng' := SplitPend(pend, cur, L, m), SplitRng(rng, cur, L, m);
    forall k, p | 0 <= k < L + 2 && p in pend'
      ensures Nested(rng', pend', k, p)
    {
      if p == L || p == L + 1 {
        if k < L {
          assert Nested(rng, pend, k, j);
        }
      } else {
        assert p in pend && p != j && p < L;
        if k < L {
          assert Nested(rng, pend, k, p);
        } else {
          assert Disjoint(pend[p], pend[j]);
        }
      }
    }
  }

  lemma SplitApart(n: int, nodes: seq<Node>, L: int, pend: map<int, Item>, rng: map<int, Item>, cur: Item, m: int)
    requires RangesOk(n, nodes, L, pend, rng)
    requires cur.node in pend && pend[cur.node] == cur && cur.begin < m < cur.end
    ensures var pend' := SplitPend(pend, cur, L, m);
            forall p, q :: p in pend' && q in pend' && p != q ==> Disjoint(pend'[p], pend'[q])
  {
    var j := cur.node;
    var pend' := SplitPend(pend, cur, L, m);
    forall p, q | p in pend' && q in pend' && p != q
      ensures Disjoint(pend'[p], pend'[q])
    {
      if p != L && p != L + 1 {
        assert Disjoint(pend[p], pend[j]);
      }
      if q != L && q != L + 1 {
        assert Disjoint(pend[q], pend[j]);
      }
    }
  }

  /** Splitting the current item keeps every node's box the union of its range in the new
      x order: ranges apart from the split one are untouched, ranges around it keep their
      triangles, and the fresh pair's boxes are the unions of the two halves. */
  lemma SplitBoxed(tris: seq<Tri>, boxes: seq<Box>, R: seq<seq<int>>, R': seq<seq<int>>, marks: seq<bool>, best: int,
                   nodes: seq<Node>, L: int, pend: map<int, Item>, rng: map<int, Item>, cur: Item, m: int, y: Node, z: Node)
    requires boxes == TriBoxes(tris) && PermsOk(R, |tris|) && RangeOk(tris, R, cur.begin, cur.end)
    requires BoxInv(|tris|, boxes, R[0], nodes, L, pend, rng) && L + 1 < |nodes|
    requires cur.node in pend && pend[cur.node] == cur && cur.begin < m < cur.end
    requires SplitRefs(R, R', marks, best, cur.begin, cur.end) && MarksSplit(R[best], marks, cur.begin, m, cur.end)
    requires IndicesBelow(R[best][cur.begin..m], |boxes|) && y.bbox == Union(BoxesOf(boxes, R[best][cur.begin..m]))
    requires IndicesBelow(R[best][m..cur.end], |boxes|) && z.bbox == Union(BoxesOf(boxes, R[best][m..cur.end]))
    ensures forall k {:trigger NodeBoxed(boxes, R'[0], SplitNodes(nodes, L, cur.node, y, z), SplitRng(rng, cur, L, m), k)}
              :: 0 <= k < L + 2 ==> NodeBoxed(boxes, R'[0], SplitNodes(nodes, L, cur.node, y, z), SplitRng(rng, cur, L, m), k)
  {
    var b, e, j := cur.begin, cur.end, cur.node;
    var nodes', rng' := SplitNodes(nodes, L, j, y, z), SplitRng(rng, cur, L, m);
    assert 0 <= j < L;
    assert nodes' == nodes[L := y][L + 1 := z][j := nodes[j].(numTrigs := 0, idx := L)];
    HalvesSame(tris, R, R', marks, best, b, m, e);
    forall k | 0 <= k < L + 2
      ensures NodeBoxed(boxes, R'[0], nodes', rng', k)
    {
      if k == L {
        RangeBoxed(boxes, R'[0], nodes', rng', k, R[best][b..m]);
      } else if k == L + 1 {
        RangeBoxed(boxes, R'[0], nodes', rng', k, R[best][m..e]);
      } else {
        assert NodeBoxed(boxes, R[0], nodes, rng, k) && Nested(rng, pend, k, j);
        assert k == j ==> Within(cur, rng[k]);
        KeptBoxed(boxes, R, R', marks, best, cur, nodes, nodes', rng, rng', k);
      }
    }
  }

  /** After a split the halves of the new x order hold the triangles of the halves of the
      best order. */
  lemma HalvesSame(tris: seq<Tri>, R: seq<seq<int>>, R': seq<seq<int>>, marks: seq<bool>, best: int, b: int, m: int, e: int)
    requires PermsOk(R, |tris|) && RangeOk(tris, R, b, e) && b < m < e
    requires SplitRefs(R, R', marks, best, b, e) && MarksSplit(R[best], marks, b, m, e)
    ensures |R'[0]| == |tris| && IndicesBelow(R'[0], |tris|) && 0 <= b && e <= |tris|
    ensures multiset(R'[0][b..m]) == multiset(R[best][b..m]) && multiset(R'[0][m..e]) == multiset(R[best][m..e])
  {
    SplitRefsPerms(tris, R, R', marks, best, b, e);
    SplitRefsHalves(tris, R, R', marks, best, b, m, e);
    PermFacts(R'[0], |tris|);
    assert RangeOk(tris, R', b, m) && RangeOk(tris, R', m, e);
    assert multiset(R'[best][b..m]) == multiset(R'[0][b..m]);
    assert multiset(R'[best][m..e]) == multiset(R'[0][m..e]);
  }

  /** A node apart from the split range, or around it, keeps its box and its triangles. */
  lemma KeptBoxed(boxes: seq<Box>, R: seq<seq<int>>, R': seq<seq<int>>, marks: seq<bool>, best: int, cur: Item,
                  nodes: seq<Node>, nodes': seq<Node>, rng: map<int, Item>, rng': map<int, Item>, k: int)
    requires SplitRefs(R, R', marks, best, cur.begin, cur.end) && IndicesBelow(R'[0], |boxes|)
    requires NodeBoxed(boxes, R[0], nodes, rng, k) && (Disjoint(rng[k], cur) || Within(cur, rng[k]))
    requires 0 <= k < |nodes'| && k in rng' && rng'[k] == rng[k] && nodes'[k].bbox == nodes[k].bbox
    ensures NodeBoxed(boxes, R'[0], nodes', rng', k)
  {
    var r := rng[k];
    if Disjoint(r, cur) {
      SplitRefsOutside(R, R', marks, best, cur.begin, cur.end, 0, r.begin, r.end);
    } else {
      SplitRefsAround(R, R', marks, best, cur.begin, cur.end, 0, r.begin, r.end);
    }
    RangeBoxed(boxes, R'[0], nodes', rng', k, R[0][r.begin..r.end]);
  }

  /** Node `k`'s box is the union over any rearrangement of its range. */
  lemma RangeBoxed(boxes: seq<Box>, order: seq<int>, nodes: seq<Node>, rng: map<int, Item>, k: int, other: seq<int>)
    requires IndicesBelow(order, |boxes|) && 0 <= k < |nodes| && k in rng && 0 <= rng[k].begin <= rng[k].end <= |order|
    requires IndicesBelow(other, |boxes|) && multiset(other) == multiset(order[rng[k].begin..rng[k].end])
    requires nodes[k].bbox == Union(BoxesOf(boxes, other))
    ensures NodeBoxed(boxes, order, nodes, rng, k)
  {
    UnionOfPerm(boxes, other, order[rng[k].begin..rng[k].end]);
  }

  /** A finished tree: every node that tiles `[b, e)` has that range recorded. */
  lemma {:induction false} TilesRange(n: int, nodes: seq<Node>, numNodes: int, rng: map<int, Item>,
                                      k: int, b: int, e: int, d: int)
    requires RangesOk(n, nodes, numNodes, map[], rng)
    requires Tiles(nodes[..numNodes], map[], k, b, e, d)
    ensures k in rng && rng[k].begin == b && rng[k].end == e && b < e
    decreases numNodes - k
  {
    var ns := nodes[..numNodes];
    assert ns[k] == nodes[k];
    assert NodeRange(nodes, numNodes, rng, k);
    if !nodes[k].IsLeaf() {
      var l := nodes[k].idx;
      var m :| b < m < e && PairTiles(ns, map[], l, b, m, e, d + 1);
      TilesRange(n, nodes, numNodes, rng, l, b, m, d + 1);
      TilesRange(n, nodes, numNodes, rng, l + 1, m, e, d + 1);
    }
  }

  /** Every node of a finished tree that tiles `[b, e)` has as its box the union of the boxes
      of the triangles at positions `b` to `e` of `order`. */
  ghost predicate BoxedBy(nodes: seq<Node>, boxes: seq<Box>, order: seq<int>)
    requires IndicesBelow(order, |boxes|)
  {
    forall k, b, e, d :: Tiles(nodes, map[], k, b, e, d)
      ==> 0 <= b < e <= |order| && nodes[k].bbox == Union(BoxesOf(boxes, order[b..e]))
  }

  /** Every node that tiles `[b, e)` has as its box the union of the boxes of `triangles[b..e]`. */
  ghost predicate TrianglesBoxed(nodes: seq<Node>, triangles: seq<Tri>)
  {
    forall k, b, e, d :: Tiles(nodes, map[], k, b, e, d)
      ==> 0 <= b < e <= |triangles| && nodes[k].bbox == Union(TriBoxes(triangles[b..e]))
  }

  /** BVH validity: the boxes of both children of every internal node lie inside its box. */
  ghost predicate ChildrenInside(nodes: seq<Node>)
  {
    forall k, b, e, d :: Tiles(nodes, map[], k, b, e, d) && !nodes[k].IsLeaf()
      ==> Contains(nodes[k].bbox, nodes[nodes[k].idx].bbox) && Contains(nodes[k].bbox, nodes[nodes[k].idx + 1].bbox)
  }

  /** The builder. It returns the triangles reordered as the leaves reference them, the node
      array, and the depth statistic the source reports. An empty triangle list is excluded:
      the source then writes node 0 of a zero-length node array. */
  method Build(tris: seq<Tri>) returns (triangles: seq<Tri>, nodes: seq<Node>, maxDepth: int)
    requires |tris| >= 1
    ensures 1 <= |nodes| <= 2 * |tris| - 1
    ensures Tiles(nodes, map[], 0, 0, |tris|, 0)
    ensures Covered(nodes, 0) == Interval(0, |tris|)
    ensures |nodes| > 1 ==> !nodes[0].IsLeaf() && nodes[0].idx == 1
    ensures nodes[0].bbox == Union(TriBoxes(tris))
    ensures |triangles| == |tris|
    ensures exists p :: IsPerm(p, |tris|) && |p| == |tris| && IndicesBelow(p, |tris|)
                        && forall i :: 0 <= i < |tris| ==> triangles[i] == tris[p[i]]
    ensures TrianglesBoxed(nodes, triangles) && ChildrenInside(nodes)
    ensures 0 <= maxDepth <= MaxDepth
  {
    var n := |tris|;
    var boxes, rootBox := TriangleBoxes(tris);
    var tmpNodes := new Node[2 * n](_ => Node(Empty(), 0, 0));
    tmpNodes[0] := tmpNodes[0].(bbox := rootBox);
    var refs := SortedOrders(tris);
    var marks := new bool[n](_ => false);
    var numNodes;
    numNodes, maxDepth := BuildNodes(tris, boxes, refs, marks, tmpNodes);
    nodes := tmpNodes[..numNodes];
    TilesCovered(nodes, 0, 0, n, 0);
    triangles := Rearrange(tris, refs[0]);
    TreeBoxes(tris, boxes[..], refs[0][..], nodes, triangles);
  }

  /** Once the triangles are reordered by the x order, every node's box is the union of the
      boxes of its own triangles, and each child's box lies inside its parent's. */
  lemma TreeBoxes(tris: seq<Tri>, boxes: seq<Box>, order: seq<int>, nodes: seq<Node>, triangles: seq<Tri>)
    requires boxes == TriBoxes(tris) && |order| == |triangles| == |tris| && IndicesBelow(order, |tris|)
    requires forall i :: 0 <= i < |tris| ==> triangles[i] == tris[order[i]]
    requires BoxedBy(nodes, boxes, order)
    ensures TrianglesBoxed(nodes, triangles) && ChildrenInside(nodes)
  {
    forall k, b, e, d | Tiles(nodes, map[], k, b, e, d)
      ensures 0 <= b < e <= |triangles| && nodes[k].bbox == Union(TriBoxes(triangles[b..e]))
    {
      RearrangedBoxes(tris, boxes, order, triangles, b, e);
    }
    forall k, b, e, d | Tiles(nodes, map[], k, b, e, d) && !nodes[k].IsLeaf()
      ensures Contains(nodes[k].bbox, nodes[nodes[k].idx].bbox) && Contains(nodes[k].bbox, nodes[nodes[k].idx + 1].bbox)
    {
      ChildBoxesInside(nodes, triangles, k, b, e, d);
    }
  }

  /** The boxes of a range of the reordered triangles are the boxes of that range of the
      x order. */
  lemma RearrangedBoxes(tris: seq<Tri>, boxes: seq<Box>, order: seq<int>, triangles: seq<Tri>, b: int, e: int)
    requires boxes == TriBoxes(tris) && |order| == |triangles| == |tris| && IndicesBelow(order, |tris|)
    requires forall i :: 0 <= i < |tris| ==> triangles[i] == tris[order[i]]
    requires 0 <= b <= e <= |tris|
    ensures TriBoxes(triangles[b..e]) == BoxesOf(boxes, order[b..e])
  {
  }

  /** BVH validity: in a finished tree whose every node's box is the union of the boxes of
      its triangles, each child's box lies inside its parent's. */
  lemma ChildBoxesInside(nodes: seq<Node>, triangles: seq<Tri>, k: int, b: int, e: int, d: int)
    requires TrianglesBoxed(nodes, triangles)
    requires Tiles(nodes, map[], k, b, e, d) && !nodes[k].IsLeaf()
    ensures Contains(nodes[k].bbox, nodes[nodes[k].idx].bbox) && Contains(nodes[k].bbox, nodes[nodes[k].idx + 1].bbox)
  {
    var l := nodes[k].idx;
    var m :| b < m < e && PairTiles(nodes, map[], l, b, m, e, d + 1);
    assert Tiles(nodes, map[], l, b, m, d + 1) && Tiles(nodes, map[], l + 1, m, e, d + 1);
    TriBoxesSplit(triangles, b, m, e);
    UnionConcat(TriBoxes(triangles[b..m]), TriBoxes(triangles[m..e]));
  }

  lemma TriBoxesSplit(triangles: seq<Tri>, b: int, m: int, e: int)
    requires 0 <= b <= m <= e <= |triangles|
    ensures TriBoxes(triangles[b..e]) == TriBoxes(triangles[b..m]) + TriBoxes(triangles[m..e])
  {
    assert triangles[b..e] == triangles[b..m] + triangles[m..e];
  }

  /** The first loop: each triangle's box, and the root's box as their union. */
  method TriangleBoxes(tris: seq<Tri>) returns (boxes: array<Box>, rootBox: Box)
    ensures fresh(boxes) && boxes[..] == TriBoxes(tris)
    ensures rootBox == Union(TriBoxes(tris))
  {
    boxes := new Box[|tris|](_ => Empty());
    rootBox := Reset(Empty());
    for i := 0 to |tris|
      invariant boxes[..i] == TriBoxes(tris)[..i]
      invariant rootBox == Union(boxes[..i])
    {
      boxes[i] := tris[i].box;
      assert boxes[..i + 1][..i] == boxes[..i];
      rootBox := Extend(rootBox, boxes[i]);
    }
    assert boxes[..] == boxes[..|tris|];
  }

  /** The three reference arrays, each sorted on its own coordinate of the centers. */
  method SortedOrders(tris: seq<Tri>) returns (refs: seq<array<int>>)
    ensures |refs| == 3 && fresh(refs[0]) && fresh(refs[1]) && fresh(refs[2])
    ensures refs[0] != refs[1] && refs[1] != refs[2] && refs[0] != refs[2]
    ensures PermsOk([refs[0][..], refs[1][..], refs[2][..]], |tris|)
    ensures forall a :: 0 <= a < 3 ==> SortedBy([refs[0][..], refs[1][..], refs[2][..]][a], Key(tris, a))
  {
    var refsX := new int[|tris|](_ => 0);
    var refsY := new int[|tris|](_ => 0);
    var refsZ := new int[|tris|](_ => 0);
    SortReferences(refsX, tris, 0);
    SortReferences(refsY, tris, 1);
    SortReferences(refsZ, tris, 2);
    refs := [refsX, refsY, refsZ];
    ThreeOrders(tris, refsX[..], refsY[..], refsZ[..]);
  }

  lemma ThreeOrders(tris: seq<Tri>, r0: seq<int>, r1: seq<int>, r2: seq<int>)
    requires IsPerm(r0, |tris|) && SortedBy(r0, Key(tris, 0))
    requires IsPerm(r1, |tris|) && SortedBy(r1, Key(tris, 1))
    requires IsPerm(r2, |tris|) && SortedBy(r2, Key(tris, 2))
    ensures PermsOk([r0, r1, r2], |tris|)
    ensures forall a :: 0 <= a < 3 ==> SortedBy([r0, r1, r2][a], Key(tris, a))
  {
    PermFacts(r0, |tris|);
    PermFacts(r1, |tris|);
    PermFacts(r2, |tris|);
  }

  /** The node array holds the sequence `nodes`, entry by entry. */
  ghost predicate Mirrors(a: array<Node>, nodes: seq<Node>)
    reads a
  {
    a.Length == |nodes| && forall i :: 0 <= i < a.Length ==> a[i] == nodes[i]
  }

  lemma MirrorsPrefix(a: array<Node>, nodes: seq<Node>, k: int)
    requires Mirrors(a, nodes) && 0 <= k <= a.Length
    ensures a[..k] == nodes[..k]
  {
  }

  /** The work loop: from one pending root over all triangles until the stack is empty. */
  method BuildNodes(tris: seq<Tri>, boxes: array<Box>, refs: seq<array<int>>, marks: array<bool>, tmpNodes: array<Node>)
    returns (numNodes: int, maxDepth: int)
    requires |tris| >= 1 && boxes[..] == TriBoxes(tris) && marks.Length == |tris| && tmpNodes.Length == 2 * |tris|
    requires |refs| == 3 && refs[0] != refs[1] && refs[1] != refs[2] && refs[0] != refs[2]
    requires PermsOk([refs[0][..], refs[1][..], refs[2][..]], |tris|)
    requires forall a :: 0 <= a < 3 ==> SortedBy([refs[0][..], refs[1][..], refs[2][..]][a], Key(tris, a))
    requires tmpNodes[0].bbox == Union(TriBoxes(tris))
    modifies refs[0], refs[1], refs[2], marks, tmpNodes
    ensures 1 <= numNodes <= 2 * |tris| - 1
    ensures Tiles(tmpNodes[..numNodes], map[], 0, 0, |tris|, 0)
    ensures numNodes > 1 ==> !tmpNodes[0].IsLeaf() && tmpNodes[0].idx == 1
    ensures tmpNodes[0].bbox == old(tmpNodes[0].bbox)
    ensures refs[0].Length == |tris| && IsPerm(refs[0][..], |tris|) && IndicesBelow(refs[0][..], |tris|)
    ensures BoxedBy(tmpNodes[..numNodes], boxes[..], refs[0][..])
    ensures 0 <= maxDepth <= MaxDepth
  {
    var n := |tris|;
    numNodes, maxDepth := 1, 0;
    ghost var R := [refs[0][..], refs[1][..], refs[2][..]];
    ghost var nodes := tmpNodes[..];
    ghost var rootBox := tmpNodes[0].bbox;
    ghost var pend := map[0 := Item(0, 0, n, 0)];
    ghost var rng := pend;
    ghost var leafCount, leafTotal := 0, 0;
    var cur := Item(0, 0, n, 0);
    var stack: seq<Item> := [];
    InitInv(tris, R, nodes);
    InitBoxes(tris, boxes[..], R[0], nodes);
    assert stack + [cur] == [cur];

    while true
      invariant R == [refs[0][..], refs[1][..], refs[2][..]]
      invariant Mirrors(tmpNodes, nodes)
      invariant BuildInv(tris, R, nodes, numNodes, stack + [cur], pend, leafCount, leafTotal)
      invariant BoxInv(n, boxes[..], R[0], nodes, numNodes, pend, rng)
      invariant nodes[0].bbox == rootBox
      invariant 0 <= maxDepth <= MaxDepth
      decreases 2 * n - numNodes, |stack|
    {
      var done;
      done, numNodes, maxDepth, stack, cur, R, nodes, pend, rng, leafCount, leafTotal :=
        BuildStep(boxes, refs, marks, tmpNodes, numNodes, maxDepth, stack, cur, tris, R, nodes, pend, rng, leafCount, leafTotal);
      if done {
        break;
      }
    }
    MirrorsPrefix(tmpNodes, nodes, numNodes);
    assert refs[0][..] == R[0];
    PermFacts(refs[0][..], n);
    FinalBoxes(n, boxes[..], R[0], nodes, numNodes, rng);
  }

  /** With no item pending, every node of the finished tree has the box of its range. */
  lemma FinalBoxes(n: int, boxes: seq<Box>, order: seq<int>, nodes: seq<Node>, numNodes: int, rng: map<int, Item>)
    requires BoxInv(n, boxes, order, nodes, numNodes, map[], rng)
    requires |order| == n && IndicesBelow(order, |boxes|)
    ensures BoxedBy(nodes[..numNodes], boxes, order)
  {
    forall k, b, e, d | Tiles(nodes[..numNodes], map[], k, b, e, d)
      ensures 0 <= b < e <= |order| && nodes[..numNodes][k].bbox == Union(BoxesOf(boxes, order[b..e]))
    {
      TilesRange(n, nodes, numNodes, rng, k, b, e, d);
      assert NodeBoxed(boxes, order, nodes, rng, k);
    }
  }

  /** One iteration of the work loop: the current item becomes a leaf or is split.
      `done` when it became a leaf and the stack was empty. */
  method BuildStep(boxes: array<Box>, refs: seq<array<int>>, marks: array<bool>, tmpNodes: array<Node>,
                   numNodes: int, maxDepth: int, stack: seq<Item>, cur: Item, ghost tris: seq<Tri>,
                   ghost R: seq<seq<int>>, ghost nodes: seq<Node>, ghost pend: map<int, Item>, ghost rng: map<int, Item>,
                   ghost leafCount: int, ghost leafTotal: int)
    returns (done: bool, numNodes': int, maxDepth': int, stack': seq<Item>, cur': Item, ghost R': seq<seq<int>>,
             ghost nodes': seq<Node>, ghost pend': map<int, Item>, ghost rng': map<int, Item>,
             ghost leafCount': int, ghost leafTotal': int)
    requires boxes[..] == TriBoxes(tris) && marks.Length == |tris|
    requires |refs| == 3 && refs[0] != refs[1] && refs[1] != refs[2] && refs[0] != refs[2]
    requires R == [refs[0][..], refs[1][..], refs[2][..]] && Mirrors(tmpNodes, nodes)
    requires BuildInv(tris, R, nodes, numNodes, stack + [cur], pend, leafCount, leafTotal)
    requires BoxInv(|tris|, boxes[..], R[0], nodes, numNodes, pend, rng)
    requires 0 <= maxDepth <= MaxDepth
    modifies refs[0], refs[1], refs[2], marks, tmpNodes
    ensures R' == [refs[0][..], refs[1][..], refs[2][..]] && Mirrors(tmpNodes, nodes')
    ensures BoxInv(|tris|, boxes[..], R'[0], nodes', numNodes', if done then map[] else pend', rng')
    ensures nodes'[0].bbox == nodes[0].bbox && 0 <= maxDepth' <= MaxDepth
    ensures done ==> && 1 <= numNodes' <= 2 * |tris| - 1
                     && Tiles(nodes'[..numNodes'], map[], 0, 0, |tris|, 0)
                     && (numNodes' > 1 ==> !nodes'[0].IsLeaf() && nodes'[0].idx == 1)
                     && PermsOk(R', |tris|)
    ensures !done ==> && BuildInv(tris, R', nodes', numNodes', stack' + [cur'], pend', leafCount', leafTotal')
                      && (numNodes' == numNodes + 2 || (numNodes' == numNodes && |stack'| < |stack|))
  {
    TopFacts(tris, R, nodes, numNodes, stack, cur, pend, leafCount, leafTotal);
    PermsSweepWf(boxes[..], R, cur.begin, cur.end);
    var leaf, bestAxis, bestSplit := ChooseSplit(boxes, refs, cur.begin, cur.end, cur.depth, tmpNodes[cur.node].bbox, R);
    numNodes', maxDepth', R', rng', leafCount', leafTotal' := numNodes, maxDepth, R, rng, leafCount, leafTotal;
    if leaf {
      done, stack', cur', nodes', pend', leafCount', leafTotal' :=
        FinishLeaf(tmpNodes, numNodes, stack, cur, tris, boxes[..], R, nodes, pend, rng, leafCount, leafTotal);
    } else {
      done := false;
      stack', cur', R', nodes', pend', rng' := SplitCurrent(boxes, refs, marks, tmpNodes, numNodes, stack, cur, bestAxis, bestSplit,
                                                            tris, R, nodes, pend, rng, leafCount, leafTotal);
      numNodes' := numNodes + 2;
      maxDepth' := if maxDepth >= cur.depth + 1 then maxDepth else cur.depth + 1;
    }
  }

  /** What the invariant says about the current item: a pending node with a non-empty range. */
  lemma TopFacts(tris: seq<Tri>, R: seq<seq<int>>, nodes: seq<Node>, numNodes: int,
                 stack: seq<Item>, cur: Item, pend: map<int, Item>, leafCount: int, leafTotal: int)
    requires BuildInv(tris, R, nodes, numNodes, stack + [cur], pend, leafCount, leafTotal)
    ensures 0 <= cur.node < numNodes < |nodes| && 0 <= cur.begin < cur.end <= |tris| && 0 <= cur.depth <= MaxDepth
    ensures PermsOk(R, |tris|)
    ensures cur.end - cur.begin >= 2 ==> numNodes + 1 < |nodes|
  {
    assert (stack + [cur])[|stack|] == cur;
    assert InBounds(stack + [cur], |stack|, numNodes, |tris|);
    if cur.end - cur.begin >= 2 {
      SplitBound(|tris|, nodes, numNodes, stack + [cur], pend, leafCount, leafTotal);
    }
  }

  /** The leaf branch: the current node stores its range, then the next item is popped;
      `done` when the stack was empty, and the tree is then complete. */
  method FinishLeaf(tmpNodes: array<Node>, numNodes: int, stack: seq<Item>, cur: Item, ghost tris: seq<Tri>,
                    ghost boxes: seq<Box>, ghost R: seq<seq<int>>, ghost nodes: seq<Node>, ghost pend: map<int, Item>,
                    ghost rng: map<int, Item>, ghost leafCount: int, ghost leafTotal: int)
    returns (done: bool, stack': seq<Item>, cur': Item, ghost nodes': seq<Node>,
             ghost pend': map<int, Item>, ghost leafCount': int, ghost leafTotal': int)
    requires Mirrors(tmpNodes, nodes)
    requires BuildInv(tris, R, nodes, numNodes, stack + [cur], pend, leafCount, leafTotal)
    requires BoxInv(|tris|, boxes, R[0], nodes, numNodes, pend, rng)
    modifies tmpNodes
    ensures Mirrors(tmpNodes, nodes') && nodes'[0].bbox == nodes[0].bbox
    ensures BoxInv(|tris|, boxes, R[0], nodes', numNodes, pend', rng) && (done ==> pend' == map[])
    ensures done <==> |stack| == 0
    ensures done ==> && 1 <= numNodes <= 2 * |tris| - 1
                     && Tiles(nodes'[..numNodes], map[], 0, 0, |tris|, 0)
                     && (numNodes > 1 ==> !nodes'[0].IsLeaf() && nodes'[0].idx == 1)
    ensures !done ==> && |stack'| < |stack|
                      && BuildInv(tris, R, nodes', numNodes, stack' + [cur'], pend', leafCount', leafTotal')
  {
    TopFacts(tris, R, nodes, numNodes, stack, cur, pend, leafCount, leafTotal);
    tmpNodes[cur.node] := tmpNodes[cur.node].(numTrigs := cur.end - cur.begin, idx := cur.begin);
    nodes' := LeafNodes(nodes, cur);
    pend', leafCount', leafTotal' := pend - {cur.node}, leafCount + 1, leafTotal + (cur.end - cur.begin);
    PendPop(pend, stack, cur, numNodes, |tris|);
    LeafBoxes(|tris|, boxes, R[0], nodes, numNodes, pend, rng, cur);
    if |stack| == 0 {
      assert stack + [cur] == [cur];
      LastLeafStep(tris, R, nodes, numNodes, cur, pend, leafCount, leafTotal);
      done, stack', cur' := true, stack, cur;
    } else {
      LeafStep(tris, R, nodes, numNodes, stack, cur, pend, leafCount, leafTotal);
      done, stack', cur' := false, stack[..|stack| - 1], stack[|stack| - 1];
      assert stack == stack' + [cur'];
    }
  }

  /** Splitting the current item keeps every allocated node's box the union of its range of
      the x order. */
  lemma SplitBoxes(tris: seq<Tri>, boxes: seq<Box>, R: seq<seq<int>>, R': seq<seq<int>>, marks: seq<bool>, best: int,
                   nodes: seq<Node>, L: int, stack: seq<Item>, cur: Item, pend: map<int, Item>, rng: map<int, Item>,
                   leafCount: int, leafTotal: int, m: int, y: Node, z: Node)
    requires boxes == TriBoxes(tris)
    requires BuildInv(tris, R, nodes, L, stack + [cur], pend, leafCount, leafTotal)
    requires BoxInv(|tris|, boxes, R[0], nodes, L, pend, rng)
    requires 0 <= best < 3 && cur.begin < m < cur.end
    requires SplitRefs(R, R', marks, best, cur.begin, cur.end) && MarksSplit(R[best], marks, cur.begin, m, cur.end)
    requires IndicesBelow(R[best][cur.begin..m], |boxes|) && y.bbox == Union(BoxesOf(boxes, R[best][cur.begin..m]))
    requires IndicesBelow(R[best][m..cur.end], |boxes|) && z.bbox == Union(BoxesOf(boxes, R[best][m..cur.end]))
    ensures BoxInv(|tris|, boxes, R'[0], SplitNodes(nodes, L, cur.node, y, z), L + 2,
                   SplitPend(pend, cur, L, m), SplitRng(rng, cur, L, m))
  {
    TopFacts(tris, R, nodes, L, stack, cur, pend, leafCount, leafTotal);
    PendPop(pend, stack, cur, L, |tris|);
    assert (stack + [cur])[|stack|] == cur;
    assert RangeOk(tris, R, cur.begin, cur.end);
    SplitRanges(|tris|, nodes, L, pend, rng, cur, m, y, z);
    SplitBoxed(tris, boxes, R, R', marks, best, nodes, L, pend, rng, cur, m, y, z);
  }

  /** The split branch: split the current node at `bestSplit` on `bestAxis`, push the larger
      child and continue with the smaller one. */
  method SplitCurrent(boxes: array<Box>, refs: seq<array<int>>, marks: array<bool>, tmpNodes: array<Node>,
                      numNodes: int, stack: seq<Item>, cur: Item, bestAxis: int, bestSplit: int, ghost tris: seq<Tri>,
                      ghost R: seq<seq<int>>, ghost nodes: seq<Node>, ghost pend: map<int, Item>, ghost rng: map<int, Item>,
                      ghost leafCount: int, ghost leafTotal: int)
    returns (stack': seq<Item>, cur': Item, ghost R': seq<seq<int>>, ghost nodes': seq<Node>, ghost pend': map<int, Item>,
             ghost rng': map<int, Item>)
    requires boxes[..] == TriBoxes(tris) && marks.Length == |tris|
    requires |refs| == 3 && refs[0] != refs[1] && refs[1] != refs[2] && refs[0] != refs[2]
    requires R == [refs[0][..], refs[1][..], refs[2][..]] && Mirrors(tmpNodes, nodes)
    requires BuildInv(tris, R, nodes, numNodes, stack + [cur], pend, leafCount, leafTotal)
    requires BoxInv(|tris|, boxes[..], R[0], nodes, numNodes, pend, rng)
    requires 0 <= bestAxis < 3 && cur.begin < bestSplit < cur.end && cur.depth < MaxDepth
    modifies refs[0], refs[1], refs[2], marks, tmpNodes
    ensures R' == [refs[0][..], refs[1][..], refs[2][..]] && Mirrors(tmpNodes, nodes')
    ensures BoxInv(|tris|, boxes[..], R'[0], nodes', numNodes + 2, pend', rng')
    ensures BuildInv(tris, R', nodes', numNodes + 2, stack' + [cur'], pend', leafCount, leafTotal)
    ensures cur'.depth == cur.depth + 1
    ensures nodes'[0].bbox == nodes[0].bbox
  {
    TopFacts(tris, R, nodes, numNodes, stack, cur, pend, leafCount, leafTotal);
    var L := numNodes;
    assert tmpNodes[..] == nodes;
    var y, z;
    R', y, z := SplitNode(boxes, refs, marks, tmpNodes, cur.node, L, cur.begin, bestSplit, cur.end, bestAxis, R);
    nodes', pend', rng' := SplitNodes(nodes, L, cur.node, y, z), SplitPend(pend, cur, L, bestSplit), SplitRng(rng, cur, L, bestSplit);
    PermsOrders(R, |tris|);
    OrdersSlices(R, |tris|, cur.begin, bestSplit);
    OrdersSlices(R, |tris|, bestSplit, cur.end);
    SplitBoxes(tris, boxes[..], R, R', marks[..], bestAxis, nodes, L, stack, cur, pend, rng, leafCount, leafTotal, bestSplit, y, z);
    // process the smaller subtree first
    var leftSize, rightSize := bestSplit - cur.begin, cur.end - bestSplit;
    if leftSize < rightSize {
      stack' := stack + [Item(L + 1, bestSplit, cur.end, cur.depth + 1)];
      cur' := Item(L, cur.begin, bestSplit, cur.depth + 1);
    } else {
      stack' := stack + [Item(L, cur.begin, bestSplit, cur.depth + 1)];
      cur' := Item(L + 1, bestSplit, cur.end, cur.depth + 1);
    }
    SplitStep(tris, R, R', marks[..], bestAxis, nodes, L, stack, cur, pend, leafCount, leafTotal, bestSplit, y, z, stack', cur');
    SplitNodesRoot(nodes, L, cur.node, y, z);
  }

  /** Whether the current item becomes a leaf, and if not where it is split: a leaf when it
      holds at most one triangle or sits at the depth limit, and otherwise after the sweep
      unless the best split is cheaper than `half_area * (count - 1)`. */
  method ChooseSplit(boxes: array<Box>, refs: seq<array<int>>, begin: int, end: int, depth: int,
                     nodeBox: Box, ghost R: seq<seq<int>>)
    returns (leaf: bool, bestAxis: int, bestSplit: int)
    requires |refs| == 3 && R == [refs[0][..], refs[1][..], refs[2][..]]
    requires SweepWf(boxes[..], R, begin, end)
    ensures !leaf ==> 0 <= bestAxis < 3 && begin < bestSplit < end && depth < MaxDepth
    ensures !leaf ==> SplitCost(boxes[..], R[bestAxis], begin, end, bestSplit) < Weighted(nodeBox, end - begin - 1)
    ensures !leaf ==> SplitCost(boxes[..], R[bestAxis], begin, end, bestSplit) < FltMaxReal
    ensures !leaf ==> forall a, s :: 0 <= a < 3 && begin < s < end
                        ==> SplitCost(boxes[..], R[bestAxis], begin, end, bestSplit) <= SplitCost(boxes[..], R[a], begin, end, s)
    ensures leaf ==> end - begin <= 1 || depth >= MaxDepth
                     || forall a, s :: 0 <= a < 3 && begin < s < end
                          ==> SplitCost(boxes[..], R[a], begin, end, s) >= Weighted(nodeBox, end - begin - 1)
                              || SplitCost(boxes[..], R[a], begin, end, s) >= FltMaxReal
  {
    var count := end - begin;
    leaf := count <= 1 || depth >= MaxDepth;
    bestAxis, bestSplit := -1, -1;
    if !leaf {
      var bestCost;
      bestCost, bestAxis, bestSplit := FindBestSplit(boxes, refs, begin, end, R);
      var maxSplitCost := Weighted(nodeBox, count - 1);
      leaf := LeafAfterSweep(bestAxis, bestCost, maxSplitCost);
    }
  }

  /** The last loop: `triangles[i]` is the triangle at position `i` of the x order. */
  method Rearrange(tris: seq<Tri>, order: array<int>) returns (triangles: seq<Tri>)
    requires IsPerm(order[..], |tris|) && |tris| >= 1
    ensures |triangles| == |tris|
    ensures exists p :: IsPerm(p, |tris|) && |p| == |tris| && IndicesBelow(p, |tris|)
                        && forall i :: 0 <= i < |tris| ==> triangles[i] == tris[p[i]]
    ensures order.Length == |tris| && IndicesBelow(order[..], |tris|)
    ensures forall i :: 0 <= i < |tris| ==> triangles[i] == tris[order[..][i]]
  {
    PermFacts(order[..], |tris|);
    var out := new Tri[|tris|](_ => tris[0]);
    for i := 0 to |tris|
      invariant forall k :: 0 <= k < i ==> out[k] == tris[order[k]]
    {
      out[i] := tris[order[i]];
    }
    triangles := out[..];
    assert forall i :: 0 <= i < |tris| ==> triangles[i] == tris[order[..][i]];
  }

  /** `std::iota` then `std::sort` of one reference array on one coordinate of the centers. */
  method SortReferences(order: array<int>, tris: seq<Tri>, axis: int)
    requires order.Length == |tris|
    modifies order
    ensures IsPerm(order[..], |tris|) && SortedBy(order[..], Key(tris, axis))
  {
    var sorted := Sort(Iota(|tris|), Key(tris, axis));
    SortCorrect(Iota(|tris|), Key(tris, axis));
    assert |sorted| == |multiset(sorted)| == |tris|;
    forall k | 0 <= k < order.Length {
      order[k] := sorted[k];
    }
    assert order[..] == sorted;
  }

  /** The split of the current node at `m` on axis `bestAxis`: bound and mark both parts of
      that axis's order, stably partition the two other orders by the marks, and make the
      current node internal with the fresh pair `L`, `L + 1` as children. */
  method SplitNode(boxes: array<Box>, refs: seq<array<int>>, marks: array<bool>, nodes: array<Node>,
                   nodeIdx: int, L: int, begin: int, m: int, end: int, bestAxis: int, ghost R: seq<seq<int>>)
    returns (ghost R': seq<seq<int>>, y: Node, z: Node)
    requires |refs| == 3 && refs[0] != refs[1] && refs[1] != refs[2] && refs[0] != refs[2]
    requires R == [refs[0][..], refs[1][..], refs[2][..]] && PermsOk(R, boxes.Length) && marks.Length == boxes.Length
    requires 0 <= bestAxis < 3 && 0 <= begin < m < end <= boxes.Length
    requires 0 <= nodeIdx < L && L + 1 < nodes.Length
    modifies refs[0], refs[1], refs[2], marks, nodes
    ensures R' == [refs[0][..], refs[1][..], refs[2][..]]
    ensures SplitRefs(R, R', marks[..], bestAxis, begin, end) && MarksSplit(R[bestAxis], marks[..], begin, m, end)
    ensures y == old(nodes[L]).(bbox := Union(BoxesOf(boxes[..], R[bestAxis][begin..m])))
    ensures z == old(nodes[L + 1]).(bbox := Union(BoxesOf(boxes[..], R[bestAxis][m..end])))
    ensures nodes[..] == SplitNodes(old(nodes[..]), L, nodeIdx, y, z)
  {
    PermsOrders(R, boxes.Length);
    var order := refs[bestAxis];
    assert order[..] == R[bestAxis] by {
      if bestAxis == 0 { } else if bestAxis == 1 { } else { }
    }
    y, z := BoundChildren(boxes, order, marks, nodes, L, begin, m, end);
    OrdersSlices(R, boxes.Length, begin, end);
    PartitionOthers(refs, marks, begin, end, R, bestAxis);
    nodes[nodeIdx] := nodes[nodeIdx].(numTrigs := 0, idx := L);
    R' := [refs[0][..], refs[1][..], refs[2][..]];
  }

  /** `left_node`/`right_node` get the boxes of the two parts of the best order, and the marks
      say which part each triangle of the range went to. */
  method BoundChildren(boxes: array<Box>, order: array<int>, marks: array<bool>, nodes: array<Node>,
                       L: int, begin: int, m: int, end: int)
    returns (y: Node, z: Node)
    requires 0 <= begin <= m <= end <= order.Length && 0 <= L && L + 1 < nodes.Length
    requires IndicesBelow(order[..], boxes.Length) && marks.Length == boxes.Length && Distinct(order[..])
    modifies marks, nodes
    ensures y == old(nodes[L]).(bbox := Union(BoxesOf(boxes[..], order[begin..m])))
    ensures z == old(nodes[L + 1]).(bbox := Union(BoxesOf(boxes[..], order[m..end])))
    ensures MarksSplit(order[..], marks[..], begin, m, end)
    ensures nodes[..] == old(nodes[..])[L := y][L + 1 := z]
  {
    var leftBox, rightBox := BoundAndMarkSplit(boxes, order, marks, begin, m, end);
    y, z := nodes[L].(bbox := leftBox), nodes[L + 1].(bbox := rightBox);
    nodes[L] := y;
    nodes[L + 1] := z;
  }

  /** Three sequences of distinct triangle indices, one per axis. */
  ghost predicate OrdersOk(R: seq<seq<int>>, n: nat)
  {
    |R| == 3 && forall a :: 0 <= a < 3 ==> |R[a]| == n && IndicesBelow(R[a], n) && Distinct(R[a])
  }

  lemma PermsOrders(R: seq<seq<int>>, n: nat)
    requires PermsOk(R, n)
    ensures OrdersOk(R, n)
  {
    forall a | 0 <= a < 3
      ensures IndicesBelow(R[a], n) && Distinct(R[a])
    {
      PermFacts(R[a], n);
    }
  }

  /** Every range of such a sequence holds triangle indices only. */
  lemma OrdersSlices(R: seq<seq<int>>, n: nat, begin: int, end: int)
    requires OrdersOk(R, n) && 0 <= begin <= end <= n
    ensures forall a :: 0 <= a < 3 ==> IndicesBelow(R[a][begin..end], n)
  {
    forall a | 0 <= a < 3
      ensures IndicesBelow(R[a][begin..end], n)
    {
      assert forall k :: 0 <= k < end - begin ==> R[a][begin..end][k] == R[a][begin + k];
    }
  }

  /** `other_axis = {(best_axis + 1) % 3, (best_axis + 2) % 3}`: stably partition the range of
      both other orders by the marks; the best axis's order is left as it is. */
  method PartitionOthers(refs: seq<array<int>>, marks: array<bool>, begin: int, end: int,
                         ghost R: seq<seq<int>>, best: int)
    requires |refs| == 3 && refs[0] != refs[1] && refs[1] != refs[2] && refs[0] != refs[2]
    requires R == [refs[0][..], refs[1][..], refs[2][..]] && 0 <= best < 3
    requires forall a :: 0 <= a < 3 ==> 0 <= begin <= end <= |R[a]| && IndicesBelow(R[a][begin..end], marks.Length)
    modifies refs[0], refs[1], refs[2]
    ensures SplitRefs(R, [refs[0][..], refs[1][..], refs[2][..]], marks[..], best, begin, end)
  {
    var o1, o2 := (best + 1) % 3, (best + 2) % 3;
    assert R[o1] == refs[o1][..] && R[o2] == refs[o2][..] by {
      if best == 0 { } else if best == 1 { } else { }
    }
    PartitionAxis(refs[o1], marks, begin, end);
    PartitionAxis(refs[o2], marks, begin, end);
    ghost var R' := [refs[0][..], refs[1][..], refs[2][..]];
    forall a | 0 <= a < 3
      ensures a == best ==> R'[a] == R[a]
      ensures a != best ==> R'[a] == R[a][..begin] + StablePartition(R[a][begin..end], marks[..]) + R[a][end..]
    {
      if best == 0 { } else if best == 1 { } else { }
    }
  }

  /** Before a split the current range has at least two triangles, so the two children fit. */
  lemma SplitBound(n: int, nodes: seq<Node>, numNodes: int,
                   items: seq<Item>, pend: map<int, Item>, leafCount: int, leafTotal: int)
    requires ShapeInv(n, nodes, numNodes, items, pend, leafCount, leafTotal)
    requires items[|items| - 1].end - items[|items| - 1].begin >= 2
    ensures numNodes + 1 < |nodes|
  {
    var stack := items[..|items| - 1];
    assert items == stack + [items[|items| - 1]];
    SumSizesAppend(stack, items[|items| - 1]);
    ItemsNonEmpty(items, numNodes, n);
    SumSizesAtLeast(stack);
  }

  /** The two loops after the sweep: bound the left and right parts of the best axis's order
      and mark the left part's triangles `true`, the right part's `false`. */
  method BoundAndMarkSplit(boxes: array<Box>, order: array<int>, marks: array<bool>, begin: int, m: int, end: int)
    returns (leftBox: Box, rightBox: Box)
    requires 0 <= begin <= m <= end <= order.Length
    requires IndicesBelow(order[..], boxes.Length) && IndicesBelow(order[..], marks.Length) && Distinct(order[..])
    modifies marks
    ensures leftBox == Union(BoxesOf(boxes[..], order[begin..m]))
    ensures rightBox == Union(BoxesOf(boxes[..], order[m..end]))
    ensures MarksSplit(order[..], marks[..], begin, m, end)
  {
    leftBox := BoundAndMark(boxes, order, marks, begin, m, true);
    ghost var afterLeft := marks[..];
    rightBox := BoundAndMark(boxes, order, marks, m, end, false);
    forall k | begin <= k < m
      ensures marks[order[k]]
    {
      assert forall j :: m <= j < end ==> order[j] != order[k];
    }
  }

  /** One of those loops: the union of the boxes of `order[from..to]`, with the marks of
      those triangles set to `value` and every other mark kept. */
  method BoundAndMark(boxes: array<Box>, order: array<int>, marks: array<bool>, from: int, to: int, value: bool)
    returns (box: Box)
    requires 0 <= from <= to <= order.Length
    requires IndicesBelow(order[..], boxes.Length) && IndicesBelow(order[..], marks.Length)
    modifies marks
    ensures box == Union(BoxesOf(boxes[..], order[from..to]))
    ensures forall k :: from <= k < to ==> marks[order[k]] == value
    ensures forall x :: 0 <= x < marks.Length && (forall k :: from <= k < to ==> order[k] != x) ==> marks[x] == old(marks[x])
  {
    ghost var bs, os := boxes[..], order[..];
    box := Empty();
    for i := from to to
      invariant box == Union(BoxesOf(bs, os[from..i]))
      invariant forall k :: from <= k < i ==> marks[os[k]] == value
      invariant forall x :: 0 <= x < marks.Length && (forall k :: from <= k < i ==> os[k] != x) ==> marks[x] == old(marks[x])
    {
      assert BoxesOf(bs, os[from..i + 1])[..i - from] == BoxesOf(bs, os[from..i]);
      box := Extend(box, boxes[order[i]]);
      marks[order[i]] := value;
    }
    assert boxes[..] == bs && order[..] == os;
  }

  /** `std::stable_partition(order + begin, order + end, [&](int i) { return marks[i]; })` */
  /** Overwrites `a[begin..begin + |p|]` with `p`. */
  method WriteRange(a: array<int>, begin: int, p: seq<int>)
    requires 0 <= begin && begin + |p| <= a.Length
    modifies a
    ensures a[..] == old(a[..begin]) + p + old(a[begin + |p|..])
  {
    var want := a[..begin] + p + a[begin + |p|..];
    assert forall k :: 0 <= k < begin ==> want[k] == a[k];
    assert forall k :: begin + |p| <= k < a.Length ==> want[k] == a[k];
    forall k | begin <= k < begin + |p| {
      a[k] := want[k];
    }
    assert a[..] == want;
  }

  method PartitionAxis(order: array<int>, marks: array<bool>, begin: int, end: int)
    requires 0 <= begin <= end <= order.Length
    requires IndicesBelow(order[begin..end], marks.Length)
    modifies order
    ensures order[..] == old(order[..begin]) + StablePartition(old(order[begin..end]), marks[..]) + old(order[end..])
  {
    var p := StablePartition(order[begin..end], marks[..]);
    PartitionPerm(order[begin..end], marks[..]);
    assert |p| == |multiset(p)| == end - begin;
    WriteRange(order, begin, p);
    assert marks[..] == old(marks[..]);
  }
}
