/** The BVH as the hardware stages read it: a node array whose root is node 0, and
    the shape the builder guarantees for it. */
module Bvh {
  import opened BoundingBox

  /** `Bvh::BVH_MAX_DEPTH` */
  const MaxDepth: int := 30

  /** `Bvh::Node`. `idx` is the union field: `left_node_idx` of an internal node,
      `first_trig_idx` of a leaf. */
  datatype Node = Node(bbox: Box, numTrigs: int, idx: int)
  {
    /** `is_leaf()` */
    predicate IsLeaf() { numTrigs > 0 }
    function LeftNodeIdx(): int { idx }
    function FirstTrigIdx(): int { idx }
  }

  /** An entry of the builder's work stack: `{node_idx, begin, end, depth}`. */
  datatype Item = Item(node: int, begin: int, end: int, depth: int)

  /** The triangle indices `b, b+1, ..., e-1`. */
  function Interval(b: int, e: int): (r: seq<int>)
    requires b <= e
    ensures |r| == e - b && forall k :: 0 <= k < |r| ==> r[k] == b + k
  {
    seq(e - b, k => b + k)
  }

  /** Node `i` at depth `d` covers the triangle range `[b, e)`, except that the nodes
      in `pend` are still on the builder's work list and stand for their recorded range.
      A leaf holds its range; an internal node stores `num_trigs = 0`, sits above the
      depth limit, and has a sibling pair `l, l+1` allocated after it whose ranges
      split `[b, e)` at some point strictly inside it. */
  ghost predicate Tiles(nodes: seq<Node>, pend: map<int, Item>, i: int, b: int, e: int, d: int)
    decreases |nodes| - i, 0
  {
    && 0 <= i < |nodes|
    && if i in pend then pend[i] == Item(i, b, e, d)
       else if nodes[i].IsLeaf() then nodes[i].idx == b && nodes[i].numTrigs == e - b
       else
         var l := nodes[i].idx;
         var dc := d + 1;
         && nodes[i].numTrigs == 0 && d < MaxDepth && i < l && l + 1 < |nodes|
         && exists m :: b < m < e && PairTiles(nodes, pend, l, b, m, e, dc)
  }

  /** The sibling pair `l, l+1` at depth `d` covers `[b, m)` and `[m, e)`. */
  ghost predicate PairTiles(nodes: seq<Node>, pend: map<int, Item>, l: int, b: int, m: int, e: int, d: int)
    decreases |nodes| - l, 1
  {
    0 <= l < |nodes| && Tiles(nodes, pend, l, b, m, d) && Tiles(nodes, pend, l + 1, m, e, d)
  }

  /** The triangle indices the leaves below node `i` hold, leaves in depth-first order. */
  ghost function Covered(nodes: seq<Node>, i: int): seq<int>
    decreases |nodes| - i
  {
    if !(0 <= i < |nodes|) then []
    else if nodes[i].IsLeaf() then Interval(nodes[i].idx, nodes[i].idx + nodes[i].numTrigs)
    else
      var l := nodes[i].idx;
      if i < l && l + 1 < |nodes| then Covered(nodes, l) + Covered(nodes, l + 1) else []
  }

  lemma IntervalConcat(b: int, m: int, e: int)
    requires b <= m <= e
    ensures Interval(b, m) + Interval(m, e) == Interval(b, e)
  {
    var x, y := Interval(b, m), Interval(m, e);
    forall k | 0 <= k < e - b
      ensures (x + y)[k] == b + k
    {
      if k < m - b {
        assert (x + y)[k] == x[k];
      } else {
        assert (x + y)[k] == y[k - (m - b)];
      }
    }
  }

  /** A finished tree covering `[b, e)` lists each of its triangle indices exactly once, in order. */
  lemma {:induction false} TilesCovered(nodes: seq<Node>, i: int, b: int, e: int, d: int)
    requires Tiles(nodes, map[], i, b, e, d)
    ensures b < e && Covered(nodes, i) == Interval(b, e)
    decreases |nodes| - i
  {
    if !nodes[i].IsLeaf() {
      var l, dc := nodes[i].idx, d + 1;
      var m :| b < m < e && PairTiles(nodes, map[], l, b, m, e, dc);
      TilesCovered(nodes, l, b, m, dc);
      TilesCovered(nodes, l + 1, m, e, dc);
      IntervalConcat(b, m, e);
    }
  }

  /** Finalising a pending node as the leaf of its range keeps the tiling. */
  lemma {:induction false} TilesMakeLeaf(nodes: seq<Node>, pend: map<int, Item>, j: int,
                                         i: int, b: int, e: int, d: int)
    requires Tiles(nodes, pend, i, b, e, d)
    requires j in pend && 0 <= j < |nodes| && pend[j].begin < pend[j].end
    ensures Tiles(nodes[j := nodes[j].(numTrigs := pend[j].end - pend[j].begin, idx := pend[j].begin)],
                  pend - {j}, i, b, e, d)
    decreases |nodes| - i
  {
    var nodes' := nodes[j := nodes[j].(numTrigs := pend[j].end - pend[j].begin, idx := pend[j].begin)];
    if i !in pend && !nodes[i].IsLeaf() {
      var l, dc := nodes[i].idx, d + 1;
      var m :| b < m < e && PairTiles(nodes, pend, l, b, m, e, dc);
      TilesMakeLeaf(nodes, pend, j, l, b, m, dc);
      TilesMakeLeaf(nodes, pend, j, l + 1, m, e, dc);
      assert nodes'[i] == nodes[i];
      assert PairTiles(nodes', pend - {j}, l, b, m, e, dc);
    }
  }

  /** Splitting a pending node `j` at `m` into the fresh sibling pair `L = |nodes|`, `L + 1`,
      both pending one level deeper, keeps the tiling. */
  lemma {:induction false} TilesSplit(nodes: seq<Node>, pend: map<int, Item>, j: int, m: int,
                                      x: Node, y: Node, z: Node, i: int, b: int, e: int, d: int)
    requires Tiles(nodes, pend, i, b, e, d)
    requires j in pend && 0 <= j < |nodes| && pend[j].begin < m < pend[j].end && pend[j].depth < MaxDepth
    requires forall k :: k in pend ==> 0 <= k < |nodes|
    requires x.numTrigs == 0 && x.idx == |nodes|
    ensures
      var L := |nodes|;
      var pend' := (pend - {j})[L := Item(L, pend[j].begin, m, pend[j].depth + 1)]
                               [L + 1 := Item(L + 1, m, pend[j].end, pend[j].depth + 1)];
      Tiles(nodes[j := x] + [y, z], pend', i, b, e, d)
    decreases |nodes| - i
  {
    var L := |nodes|;
    var pend' := (pend - {j})[L := Item(L, pend[j].begin, m, pend[j].depth + 1)]
                             [L + 1 := Item(L + 1, m, pend[j].end, pend[j].depth + 1)];
    var nodes' := nodes[j := x] + [y, z];
    if i == j {
      assert pend[j] == Item(j, b, e, d);
      assert Tiles(nodes', pend', L, b, m, d + 1);
      assert Tiles(nodes', pend', L + 1, m, e, d + 1);
      assert PairTiles(nodes', pend', L, b, m, e, d + 1);
    } else if i in pend {
      assert pend'[i] == pend[i];
    } else if nodes[i].IsLeaf() {
      assert nodes'[i] == nodes[i];
    } else {
      var l, dc := nodes[i].idx, d + 1;
      var m' :| b < m' < e && PairTiles(nodes, pend, l, b, m', e, dc);
      TilesSplit(nodes, pend, j, m, x, y, z, l, b, m', dc);
      TilesSplit(nodes, pend, j, m, x, y, z, l + 1, m', e, dc);
      assert nodes'[i] == nodes[i];
      assert PairTiles(nodes', pend', l, b, m', e, dc);
    }
  }

  /** Tiling only looks at the nodes it reaches: a longer array with the same prefix tiles the same way. */
  lemma {:induction false} TilesExtend(nodes: seq<Node>, more: seq<Node>, pend: map<int, Item>,
                                       i: int, b: int, e: int, d: int)
    requires Tiles(nodes, pend, i, b, e, d)
    ensures Tiles(nodes + more, pend, i, b, e, d)
    decreases |nodes| - i
  {
    var nodes' := nodes + more;
    assert nodes'[i] == nodes[i];
    if i !in pend && !nodes[i].IsLeaf() {
      var l, dc := nodes[i].idx, d + 1;
      var m :| b < m < e && PairTiles(nodes, pend, l, b, m, e, dc);
      TilesExtend(nodes, more, pend, l, b, m, dc);
      TilesExtend(nodes, more, pend, l + 1, m, e, dc);
      assert PairTiles(nodes', pend, l, b, m, e, dc);
    }
  }

  /** `p` is the left member of a sibling pair at depth `d` of a finished tree over the
      triangles `[0, n)`. */
  ghost predicate PairAt(nodes: seq<Node>, p: int, d: int, n: int)
  {
    1 <= d <= MaxDepth && exists b, m, e :: 0 <= b && e <= n && PairTiles(nodes, map[], p, b, m, e, d)
  }

  /** Both members of a pair are nodes of the array; a leaf member holds a non-empty
      range of triangle indices inside `[0, n)`. */
  lemma PairMembers(nodes: seq<Node>, p: int, d: int, n: int)
    requires PairAt(nodes, p, d, n)
    ensures 0 <= p && p + 1 < |nodes|
    ensures forall c :: p <= c <= p + 1 && nodes[c].IsLeaf() ==>
              0 <= nodes[c].idx && 1 <= nodes[c].numTrigs && nodes[c].idx + nodes[c].numTrigs <= n
  {
    var b, m, e :| 0 <= b && e <= n && PairTiles(nodes, map[], p, b, m, e, d);
    assert Tiles(nodes, map[], p, b, m, d) && Tiles(nodes, map[], p + 1, m, e, d);
  }

  /** Every pair below the root's children is one level deeper than its parent, and only
      a pair strictly above the depth limit can have internal members. */
  lemma ChildPair(nodes: seq<Node>, p: int, d: int, n: int, right: bool)
    requires PairAt(nodes, p, d, n)
    requires 0 <= p + (if right then 1 else 0) < |nodes|
    requires !nodes[p + (if right then 1 else 0)].IsLeaf()
    ensures d < MaxDepth
    ensures PairAt(nodes, nodes[p + (if right then 1 else 0)].idx, d + 1, n)
  {
    var b, m, e :| 0 <= b && e <= n && PairTiles(nodes, map[], p, b, m, e, d);
    var c, l, dc := p + (if right then 1 else 0), nodes[p + (if right then 1 else 0)].idx, d + 1;
    if right {
      assert Tiles(nodes, map[], p, b, m, d);
      assert Tiles(nodes, map[], p + 1, m, e, d);
      var k :| m < k < e && PairTiles(nodes, map[], l, m, k, e, dc);
    } else {
      assert Tiles(nodes, map[], p, b, m, d);
      assert Tiles(nodes, map[], p + 1, m, e, d);
      var k :| b < k < m && PairTiles(nodes, map[], l, b, k, m, dc);
    }
  }

  /** The root's children form the first pair: when node 0 is internal, the pair at its
      left child index sits at depth 1. */
  lemma RootPair(nodes: seq<Node>, n: int)
    requires Tiles(nodes, map[], 0, 0, n, 0)
    requires !nodes[0].IsLeaf()
    ensures PairAt(nodes, nodes[0].idx, 1, n)
  {
    var l := nodes[0].idx;
    var m :| 0 < m < n && PairTiles(nodes, map[], l, 0, m, n, 1);
  }
}
