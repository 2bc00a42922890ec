/** `TRV<MAX_WORKING_RAYS>`: the traversal stage. One ray at a time walks the BVH two
    siblings at a time: it loads the pair `left, left+1`, tests both boxes, descends into
    the nearer internal child that was hit and stacks the other one in the ray's own
    stack row, and, when a hit child is a leaf, stores its progress into `ray_states`
    and streams the leaf triangles to IST before giving the ray up.

    Every `sc_signal` register of the module is updated together at the clock edge from
    the values before the edge, so the register file is the value `Regs` and one edge
    is `NextRegs`. The per-ray stack rows and `ray_states` are memories written in
    place. The ray-box slab test is floating-point geometry: its four results enter as
    the input `Slab`, and the ray-box registers (octant, inverse direction, scaled
    origin, the twelve bounds) are not modelled. */
module Trv {
  import opened Float32
  import opened Bvh
  import opened RayStates
  import Rd

  /** `Bvh::BVH_MAX_DEPTH - 1`: the length of each ray's stack row. */
  const StackCap: int := MaxDepth - 1

  datatype Phase = Idle | Load | BboxLoad | Bbox | NodeLoad | Step | Store | ListLoad | ListA | ListB | Post

  /** What the slab tests of the `BBOX` state produce for the two children. */
  datatype Slab = Slab(leftHit: bool, leftEntry: Fl, rightHit: bool, rightEntry: Fl)

  /** The input ports (`s_valid`, `s_ray_id`, `m_pf_ready`) and the slab results. */
  datatype Inputs = Inputs(sValid: bool, sRayId: int, slab: Slab, mPfReady: bool)

  /** The scalar registers of TRV that the model keeps. */
  datatype Regs = Regs(
    state: Phase,
    mRayId: int,
    leftNodeIdx: int,
    leftIsLeaf: bool, rightIsLeaf: bool,
    leftHit: bool, rightHit: bool, leftEntry: Fl, rightEntry: Fl,
    leftNodeLeftNodeIdx: int, rightNodeLeftNodeIdx: int,
    oldLeftNodeIdx: int,
    finished: bool,
    mIstTrigIdx: int, aLastTrigIdx: int, bFirstTrigIdx: int, bLastTrigIdx: int)

  /** Every register at 0, as elaboration leaves them: the state is `IDLE`. */
  const Initial: Regs :=
    Regs(Idle, 0, 0, false, false, false, false, Finite(0.0), Finite(0.0), 0, 0, 0, false, 0, 0, 0, 0)

  /** The tree TRV walks: a finished BVH over `n` triangles whose root is internal with
      its children at nodes 1 and 2 (a one-node tree is not supported by the stage). */
  ghost predicate Tree(nodes: seq<Node>, n: int)
  {
    Tiles(nodes, map[], 0, 0, n, 0) && !nodes[0].IsLeaf() && nodes[0].idx == 1
  }

  // ---------------------------------------------------------------- outputs

  /** `update_s_ready` */
  predicate SReady(r: Regs) { r.state == Idle }

  /** `update_m_ist_valid` */
  predicate MIstValid(r: Regs) { r.state == ListA || r.state == ListB }

  /** `update_m_post_valid` */
  predicate MPfValid(r: Regs) { r.state == Post }

  /** `update_right_node_idx` and `update_old_right_node_idx`: the right member of a
      pair is always the left member plus one. */
  function RightNodeIdx(r: Regs): int { r.leftNodeIdx + 1 }
  function OldRightNodeIdx(r: Regs): int { r.oldLeftNodeIdx + 1 }

  /** The triangle-range registers are ordered while a range is being emitted. */
  predicate ListOrdered(r: Regs)
  {
    && (r.state == ListA ==> r.mIstTrigIdx <= r.aLastTrigIdx && r.bFirstTrigIdx <= r.bLastTrigIdx)
    && (r.state == ListB ==> r.mIstTrigIdx <= r.bLastTrigIdx)
  }

  /** The triangle indices still to be sent to IST, the current one first. */
  function Pending(r: Regs): seq<int>
    requires ListOrdered(r)
  {
    match r.state
    case ListA => Interval(r.mIstTrigIdx, r.aLastTrigIdx + 1) + Interval(r.bFirstTrigIdx, r.bLastTrigIdx + 1)
    case ListB => Interval(r.mIstTrigIdx, r.bLastTrigIdx + 1)
    case _ => []
  }

  /** `update_m_is_last_trig`: raised exactly on the last index of the request. */
  function MIsLastTrig(r: Regs): (b: bool)
    requires ListOrdered(r)
    ensures b <==> MIstValid(r) && |Pending(r)| == 1
  {
    r.state == ListB && r.mIstTrigIdx == r.bLastTrigIdx
  }

  // ---------------------------------------------------------------- one edge

  /** `left_valid` and `right_valid` of the `STEP` state: a hit internal child. */
  predicate LeftValid(r: Regs) { r.leftHit && !r.leftIsLeaf }
  predicate RightValid(r: Regs) { r.rightHit && !r.rightIsLeaf }

  /** `left_entry > right_entry`: the right child is entered first, and ties go left. */
  predicate RightNearer(r: Regs) { Lt(r.rightEntry, r.leftEntry) }

  /** The tree reads of the state hold: `BBOX_LOAD` and `NODE_LOAD` read the current
      pair, `LIST_LOAD` the pair just left. */
  predicate Readable(r: Regs, nodes: seq<Node>)
  {
    && (r.state == BboxLoad || r.state == NodeLoad ==> 0 <= r.leftNodeIdx && r.leftNodeIdx + 1 < |nodes|)
    && (r.state == ListLoad ==> 0 <= r.oldLeftNodeIdx && r.oldLeftNodeIdx + 1 < |nodes|)
  }

  /** The registers after one clock edge of `TRV::main` out of reset, one function per
      branch of the state dispatch. `ray` is `ray_states[m_ray_id]` and `stack` the
      current ray's stack row, both as they were before the edge. */
  function NextRegs(r: Regs, inp: Inputs, ray: RayState, nodes: seq<Node>, stack: seq<int>): Regs
    requires Readable(r, nodes)
  {
    match r.state
    case Idle => IdleNext(r, inp)
    case Load => LoadNext(r, ray)
    case BboxLoad => BboxLoadNext(r, nodes)
    case Bbox => BboxNext(r, inp.slab)
    case NodeLoad => NodeLoadNext(r, nodes)
    case Step => StepNext(r, stack)
    case Store => r.(state := ListLoad)
    case ListLoad => ListLoadNext(r, nodes)
    case ListA => ListANext(r)
    case ListB => ListBNext(r)
    case Post => r.(state := if inp.mPfReady then Idle else Post)
  }

  /** `IDLE`: `m_ray_id` follows `s_ray_id`; a request starts a traversal. */
  function IdleNext(r: Regs, inp: Inputs): Regs
  {
    r.(mRayId := inp.sRayId, state := if inp.sValid then Load else Idle)
  }

  /** `LOAD`: resume from the slot's saved position, or go straight to `POST` when done. */
  function LoadNext(r: Regs, ray: RayState): Regs
  {
    r.(leftNodeIdx := ray.leftNodeIdx, state := if ray.finished then Post else BboxLoad)
  }

  /** `BBOX_LOAD`: read the pair's leaf flags. */
  function BboxLoadNext(r: Regs, nodes: seq<Node>): Regs
    requires 0 <= r.leftNodeIdx && r.leftNodeIdx + 1 < |nodes|
  {
    r.(leftIsLeaf := nodes[r.leftNodeIdx].IsLeaf(), rightIsLeaf := nodes[RightNodeIdx(r)].IsLeaf(), state := Bbox)
  }

  /** `BBOX`: latch the two slab tests. */
  function BboxNext(r: Regs, slab: Slab): Regs
  {
    r.(leftHit := slab.leftHit, leftEntry := slab.leftEntry,
       rightHit := slab.rightHit, rightEntry := slab.rightEntry, state := NodeLoad)
  }

  /** `NODE_LOAD`: read where each child's own pair starts. */
  function NodeLoadNext(r: Regs, nodes: seq<Node>): Regs
    requires 0 <= r.leftNodeIdx && r.leftNodeIdx + 1 < |nodes|
  {
    r.(leftNodeLeftNodeIdx := nodes[r.leftNodeIdx].LeftNodeIdx(),
       rightNodeLeftNodeIdx := nodes[RightNodeIdx(r)].LeftNodeIdx(), state := Step)
  }

  /** `STEP`: descend into the nearer hit internal child (the left on a tie), or into the
      only one, or pop the stack; with nothing left the ray is finished. Then store a
      hit leaf's progress, stop when nothing was hit and the stack was empty, or test
      the next pair. */
  function StepNext(r: Regs, stack: seq<int>): Regs
  {
    var left :=
      if LeftValid(r) && RightValid(r) then
        (if RightNearer(r) then r.rightNodeLeftNodeIdx else r.leftNodeLeftNodeIdx)
      else if LeftValid(r) then r.leftNodeLeftNodeIdx
      else if RightValid(r) then r.rightNodeLeftNodeIdx
      else if |stack| != 0 then stack[|stack| - 1]
      else r.leftNodeIdx;
    r.(oldLeftNodeIdx := r.leftNodeIdx, leftNodeIdx := left,
       finished := !LeftValid(r) && !RightValid(r) && |stack| == 0,
       state :=
         if !r.leftHit && !r.rightHit && |stack| == 0 then Post
         else if (r.leftHit && r.leftIsLeaf) || (r.rightHit && r.rightIsLeaf) then Store
         else BboxLoad)
  }

  /** `LIST_LOAD`: set up the triangle ranges of the hit leaves of the pair just left,
      two ranges when both members are hit leaves and one otherwise. */
  function ListLoadNext(r: Regs, nodes: seq<Node>): Regs
    requires 0 <= r.oldLeftNodeIdx && r.oldLeftNodeIdx + 1 < |nodes|
  {
    var a, b := nodes[r.oldLeftNodeIdx], nodes[OldRightNodeIdx(r)];
    if r.leftHit && r.leftIsLeaf then
      if r.rightHit && r.rightIsLeaf then
        r.(mIstTrigIdx := a.FirstTrigIdx(), aLastTrigIdx := a.FirstTrigIdx() + a.numTrigs - 1,
           bFirstTrigIdx := b.FirstTrigIdx(), bLastTrigIdx := b.FirstTrigIdx() + b.numTrigs - 1,
           state := ListA)
      else
        r.(mIstTrigIdx := a.FirstTrigIdx(), bLastTrigIdx := a.FirstTrigIdx() + a.numTrigs - 1, state := ListB)
    else
      r.(mIstTrigIdx := b.FirstTrigIdx(), bLastTrigIdx := b.FirstTrigIdx() + b.numTrigs - 1, state := ListB)
  }

  /** `LIST_A`: walk the first range, then jump to the second. */
  function ListANext(r: Regs): Regs
  {
    if r.mIstTrigIdx == r.aLastTrigIdx then r.(mIstTrigIdx := r.bFirstTrigIdx, state := ListB)
    else r.(mIstTrigIdx := r.mIstTrigIdx + 1)
  }

  /** `LIST_B`: walk the last range and give the ray up after its last index. */
  function ListBNext(r: Regs): Regs
  {
    r.(mIstTrigIdx := r.mIstTrigIdx + 1, state := if r.mIstTrigIdx == r.bLastTrigIdx then Idle else ListB)
  }

  /** The current ray's stack row after the edge: in `STEP`, the farther of two hit
      internal children is pushed, and with no hit internal child the top is popped. */
  function NextStack(r: Regs, stack: seq<int>): seq<int>
  {
    if r.state != Step then stack
    else if LeftValid(r) && RightValid(r) then
      stack + [if RightNearer(r) then r.leftNodeLeftNodeIdx else r.rightNodeLeftNodeIdx]
    else if !LeftValid(r) && !RightValid(r) && |stack| != 0 then stack[..|stack| - 1]
    else stack
  }

  /** The current ray's slot after the edge: `STORE` saves the traversal position. */
  function NextRay(r: Regs, ray: RayState): RayState
  {
    if r.state == Store then ray.(leftNodeIdx := r.leftNodeIdx, finished := r.finished) else ray
  }

  // ---------------------------------------------------------------- what one edge decides

  /** `IDLE` takes the offered ray id and starts on `s_valid`; `LOAD` resumes from the
      slot's saved position, or goes straight to `POST` for a finished ray. */
  lemma StartAndResume(r: Regs, inp: Inputs, ray: RayState, nodes: seq<Node>, stack: seq<int>)
    requires r.state == Idle || r.state == Load
    ensures var r' := NextRegs(r, inp, ray, nodes, stack);
      && (r.state == Idle ==> r'.mRayId == inp.sRayId && (r'.state == Load <==> inp.sValid) && (r'.state == Idle <==> !inp.sValid))
      && (r.state == Load ==>
            && r'.mRayId == r.mRayId && r'.leftNodeIdx == ray.leftNodeIdx
            && (r'.state == Post <==> ray.finished) && (r'.state == BboxLoad <==> !ray.finished))
  {
  }

  /** `STEP`: with both children hit internal nodes the farther one's pair is pushed and
      the nearer one's descended into (the left on a tie), the row one longer; with one
      it is descended into and the row is unchanged; with none the top is popped, or the
      ray is finished when the row is empty. The next state is `POST` exactly when
      neither child was hit and the row was empty, otherwise `STORE` when a hit child is
      a leaf, and `BBOX_LOAD` otherwise. */
  lemma StepChoice(r: Regs, inp: Inputs, ray: RayState, nodes: seq<Node>, stack: seq<int>)
    requires r.state == Step
    ensures var r', s' := NextRegs(r, inp, ray, nodes, stack), NextStack(r, stack);
      var lv, rv := r.leftHit && !r.leftIsLeaf, r.rightHit && !r.rightIsLeaf;
      var stop := !r.leftHit && !r.rightHit && |stack| == 0;
      && r'.oldLeftNodeIdx == r.leftNodeIdx
      && (lv && rv ==>
            |s'| == |stack| + 1 && s'[..|stack|] == stack
            && (Lt(r.rightEntry, r.leftEntry) ==> r'.leftNodeIdx == r.rightNodeLeftNodeIdx && s'[|stack|] == r.leftNodeLeftNodeIdx)
            && (!Lt(r.rightEntry, r.leftEntry) ==> r'.leftNodeIdx == r.leftNodeLeftNodeIdx && s'[|stack|] == r.rightNodeLeftNodeIdx))
      && (lv && !rv ==> r'.leftNodeIdx == r.leftNodeLeftNodeIdx && s' == stack)
      && (!lv && rv ==> r'.leftNodeIdx == r.rightNodeLeftNodeIdx && s' == stack)
      && (!lv && !rv && |stack| > 0 ==> r'.leftNodeIdx == stack[|stack| - 1] && s' == stack[..|stack| - 1])
      && (!lv && !rv && |stack| == 0 ==> s' == [])
      && (r'.finished <==> !lv && !rv && |stack| == 0)
      && (r'.state == Post <==> stop)
      && (r'.state == Store <==> !stop && ((r.leftHit && r.leftIsLeaf) || (r.rightHit && r.rightIsLeaf)))
      && (r'.state == BboxLoad <==> !stop && !(r.leftHit && r.leftIsLeaf) && !(r.rightHit && r.rightIsLeaf))
  {
  }

  // ---------------------------------------------------------------- reset

  /** Whether the branch of `main` taken for the state writes `state` this edge. */
  predicate WritesState(r: Regs, inp: Inputs)
  {
    match r.state
    case Idle => inp.sValid
    case ListA => r.mIstTrigIdx == r.aLastTrigIdx
    case ListB => r.mIstTrigIdx == r.bLastTrigIdx
    case Post => inp.mPfReady
    case _ => true
  }

  /** The registers after one edge of `main` as written: the reset assigns `IDLE` but
      the state dispatch that follows is not in an `else`, so it runs under reset too,
      and a state it writes overrides the reset's. */
  function NextRegsAsWritten(srstn: bool, r: Regs, inp: Inputs, ray: RayState, nodes: seq<Node>,
                             stack: seq<int>): Regs
    requires Readable(r, nodes)
  {
    var r' := NextRegs(r, inp, ray, nodes, stack);
    if !srstn && !WritesState(r, inp) then r'.(state := Idle) else r'
  }

  /** As written, a reset does not return the FSM to `IDLE` from any state that always
      moves on: the traversal carries on under reset. */
  lemma ResetIgnoredAsWritten(r: Regs, inp: Inputs, ray: RayState, nodes: seq<Node>, stack: seq<int>)
    requires Readable(r, nodes)
    requires r.state in {Load, BboxLoad, Bbox, NodeLoad, Step, Store, ListLoad}
    ensures NextRegsAsWritten(false, r, inp, ray, nodes, stack).state != Idle
  {
  }

  /** A concrete case: the FSM idling with a request offered moves to `LOAD` although
      reset is asserted. */
  lemma ResetIgnoredExample()
    ensures NextRegsAsWritten(false, Initial, Inputs(true, 0, Slab(false, NaN, false, NaN), false),
                              RayStates.Zero, [], []).state == Load
  {
  }

  // ---------------------------------------------------------------- depth of the stack

  /** Stack row `s` fits under a current pair at depth `d`: the stacked pairs sit at
      strictly increasing depths, each at least 2 (a child pair of the root's children)
      and the top at most `d`. */
  ghost predicate StackFits(nodes: seq<Node>, n: int, s: seq<int>, d: int)
    decreases |s|
  {
    |s| == 0 ||
    exists d' :: 2 <= d' <= d && PairAt(nodes, Top(s), d', n) && StackFits(nodes, n, Below(s), d' - 1)
  }

  /** The top of a non-empty stack row and the row under it. */
  function Top(s: seq<int>): int
    requires |s| > 0
  {
    s[|s| - 1]
  }

  function Below(s: seq<int>): seq<int>
    requires |s| > 0
  {
    s[..|s| - 1]
  }

  /** The traversal position `p` with stack row `s` is consistent with the tree. */
  ghost predicate Fits(nodes: seq<Node>, n: int, s: seq<int>, p: int)
  {
    exists d :: PairAt(nodes, p, d, n) && StackFits(nodes, n, s, d)
  }

  /** A row that fits under depth `d` holds at most `d - 1` pairs. */
  lemma {:induction false} StackFitsBound(nodes: seq<Node>, n: int, s: seq<int>, d: int)
    requires 1 <= d && StackFits(nodes, n, s, d)
    ensures |s| <= d - 1
    decreases |s|
  {
    if |s| > 0 {
      var d' :| 2 <= d' <= d && PairAt(nodes, Top(s), d', n) && StackFits(nodes, n, Below(s), d' - 1);
      StackFitsBound(nodes, n, Below(s), d' - 1);
    }
  }

  /** Going deeper keeps a row fitting. */
  lemma StackFitsDeeper(nodes: seq<Node>, n: int, s: seq<int>, d: int, d2: int)
    requires StackFits(nodes, n, s, d) && d <= d2
    ensures StackFits(nodes, n, s, d2)
  {
    if |s| > 0 {
      var d' :| 2 <= d' <= d && PairAt(nodes, Top(s), d', n) && StackFits(nodes, n, Below(s), d' - 1);
      assert 2 <= d' <= d2;
    }
  }

  /** Pushing a pair one level below the current one. */
  lemma StackFitsPush(nodes: seq<Node>, n: int, s: seq<int>, d: int, q: int)
    requires 1 <= d && StackFits(nodes, n, s, d) && PairAt(nodes, q, d + 1, n)
    ensures StackFits(nodes, n, s + [q], d + 1)
  {
    var s' := s + [q];
    assert Below(s') == s && Top(s') == q;
  }

  /** Popping makes the top the current pair, with the rest of the row fitting under it. */
  lemma StackFitsPop(nodes: seq<Node>, n: int, s: seq<int>, d: int)
    requires |s| > 0 && StackFits(nodes, n, s, d)
    ensures Fits(nodes, n, Below(s), Top(s))
  {
    var d' :| 2 <= d' <= d && PairAt(nodes, Top(s), d', n) && StackFits(nodes, n, Below(s), d' - 1);
    StackFitsDeeper(nodes, n, Below(s), d' - 1, d');
  }

  // ---------------------------------------------------------------- the invariant

  /** A ray slot waiting to be traversed: a finished ray has an empty stack row, an
      unfinished one a position that fits its row. */
  ghost predicate Ready(nodes: seq<Node>, n: int, ray: RayState, stack: seq<int>)
  {
    && (ray.finished ==> stack == [])
    && (!ray.finished ==> Fits(nodes, n, stack, ray.leftNodeIdx))
  }

  /** The leaf flags registers describe the pair at `p`. */
  ghost predicate LeafFlags(nodes: seq<Node>, p: int, r: Regs)
  {
    0 <= p && p + 1 < |nodes| && r.leftIsLeaf == nodes[p].IsLeaf() && r.rightIsLeaf == nodes[p + 1].IsLeaf()
  }

  /** Leaving `STEP` for `STORE`: the pair just left had a hit leaf. */
  ghost predicate ListOk(nodes: seq<Node>, n: int, r: Regs)
  {
    && (exists d :: PairAt(nodes, r.oldLeftNodeIdx, d, n))
    && LeafFlags(nodes, r.oldLeftNodeIdx, r)
    && ((r.leftHit && r.leftIsLeaf) || (r.rightHit && r.rightIsLeaf))
  }

  /** While a range is emitted its indices are triangles of the tree. */
  predicate ListRange(r: Regs, n: int)
  {
    && (r.state == ListA ==>
          0 <= r.mIstTrigIdx <= r.aLastTrigIdx < n && 0 <= r.bFirstTrigIdx <= r.bLastTrigIdx < n)
    && (r.state == ListB ==> 0 <= r.mIstTrigIdx <= r.bLastTrigIdx < n)
  }

  /** What holds of the registers, the current ray's slot and its stack row in each state. */
  ghost predicate Inv(nodes: seq<Node>, n: int, r: Regs, ray: RayState, stack: seq<int>)
  {
    match r.state
    case Idle => true
    case Load => Ready(nodes, n, ray, stack)
    case BboxLoad => Fits(nodes, n, stack, r.leftNodeIdx) && 0 <= r.leftNodeIdx && r.leftNodeIdx + 1 < |nodes|
    case Bbox => Fits(nodes, n, stack, r.leftNodeIdx) && LeafFlags(nodes, r.leftNodeIdx, r)
    case NodeLoad => Fits(nodes, n, stack, r.leftNodeIdx) && LeafFlags(nodes, r.leftNodeIdx, r)
    case Step =>
      && Fits(nodes, n, stack, r.leftNodeIdx) && LeafFlags(nodes, r.leftNodeIdx, r)
      && r.leftNodeLeftNodeIdx == nodes[r.leftNodeIdx].idx && r.rightNodeLeftNodeIdx == nodes[r.leftNodeIdx + 1].idx
    case Store =>
      && (r.finished ==> stack == []) && (!r.finished ==> Fits(nodes, n, stack, r.leftNodeIdx))
      && ListOk(nodes, n, r)
    case ListLoad => Ready(nodes, n, ray, stack) && ListOk(nodes, n, r)
    case ListA => Ready(nodes, n, ray, stack) && ListRange(r, n)
    case ListB => Ready(nodes, n, ray, stack) && ListRange(r, n)
    case Post => stack == []
  }

  /** The pair at the current position is in the tree. */
  lemma FitsMembers(nodes: seq<Node>, n: int, s: seq<int>, p: int)
    requires Fits(nodes, n, s, p)
    ensures 0 <= p && p + 1 < |nodes|
  {
    var d :| PairAt(nodes, p, d, n) && StackFits(nodes, n, s, d);
    PairMembers(nodes, p, d, n);
  }

  /** The `STEP` edge keeps the invariant, and the stack row stays within its
      `BVH_MAX_DEPTH - 1` entries: a push happens only below a pair whose members are
      both internal, hence above depth 30, where the row holds at most 28 pairs. */
  lemma StepPreserves(nodes: seq<Node>, n: int, r: Regs, inp: Inputs, ray: RayState, stack: seq<int>)
    requires r.state == Step && Inv(nodes, n, r, ray, stack)
    ensures EdgeOk(nodes, n, r, inp, ray, stack)
  {
    var l := r.leftNodeIdx;
    var d :| PairAt(nodes, l, d, n) && StackFits(nodes, n, stack, d);
    StackFitsBound(nodes, n, stack, d);
    var r', s' := NextRegs(r, inp, ray, nodes, stack), NextStack(r, stack);
    if LeftValid(r) {
      ChildPair(nodes, l, d, n, false);
    }
    if RightValid(r) {
      ChildPair(nodes, l, d, n, true);
    }
    if LeftValid(r) && RightValid(r) {
      var q := if RightNearer(r) then r.leftNodeLeftNodeIdx else r.rightNodeLeftNodeIdx;
      StackFitsPush(nodes, n, stack, d, q);
      assert PairAt(nodes, r'.leftNodeIdx, d + 1, n) && StackFits(nodes, n, s', d + 1);
    } else if LeftValid(r) || RightValid(r) {
      StackFitsDeeper(nodes, n, stack, d, d + 1);
      assert PairAt(nodes, r'.leftNodeIdx, d + 1, n) && StackFits(nodes, n, s', d + 1);
    } else if |stack| != 0 {
      StackFitsPop(nodes, n, stack, d);
    }
    assert !r'.finished ==> Fits(nodes, n, s', r'.leftNodeIdx);
    assert r'.finished ==> s' == [];
    if !r'.finished {
      FitsMembers(nodes, n, s', r'.leftNodeIdx);
    }
    assert r'.state == Store ==> ListOk(nodes, n, r') by {
      assert PairAt(nodes, r'.oldLeftNodeIdx, d, n);
    }
  }

  /** One edge keeps the invariant: the tree reads of the next state are in range, the
      stack row changes only in `STEP` and stays within its length, and `Inv` holds of
      the next registers, slot and row. */
  ghost predicate EdgeOk(nodes: seq<Node>, n: int, r: Regs, inp: Inputs, ray: RayState, stack: seq<int>)
    requires Readable(r, nodes)
  {
    var r', s' := NextRegs(r, inp, ray, nodes, stack), NextStack(r, stack);
    && (r.state != Step ==> s' == stack)
    && |s'| <= StackCap
    && Readable(r', nodes)
    && Inv(nodes, n, r', NextRay(r, ray), s')
  }

  /** Every edge out of `IDLE` keeps the invariant. */
  lemma NextPreserves(nodes: seq<Node>, n: int, r: Regs, inp: Inputs, ray: RayState, stack: seq<int>)
    requires r.state != Idle && Inv(nodes, n, r, ray, stack) && |stack| <= StackCap
    ensures Readable(r, nodes) && EdgeOk(nodes, n, r, inp, ray, stack)
  {
    match r.state
    case Load => LoadPreserves(nodes, n, r, inp, ray, stack);
    case BboxLoad => PairPreserves(nodes, n, r, inp, ray, stack);
    case Bbox => PairPreserves(nodes, n, r, inp, ray, stack);
    case NodeLoad => PairPreserves(nodes, n, r, inp, ray, stack);
    case Step => StepPreserves(nodes, n, r, inp, ray, stack);
    case Store => StorePreserves(nodes, n, r, inp, ray, stack);
    case ListLoad => ListLoadPreserves(nodes, n, r, inp, ray, stack);
    case ListA => EmitA(r, n); ListPreserves(nodes, n, r, inp, ray, stack);
    case ListB => EmitB(r, n); ListPreserves(nodes, n, r, inp, ray, stack);
    case Post => PostPreserves(nodes, n, r, inp, ray, stack);
  }

  lemma LoadPreserves(nodes: seq<Node>, n: int, r: Regs, inp: Inputs, ray: RayState, stack: seq<int>)
    requires r.state == Load && Ready(nodes, n, ray, stack) && |stack| <= StackCap
    ensures EdgeOk(nodes, n, r, inp, ray, stack)
  {
    if !ray.finished {
      FitsMembers(nodes, n, stack, ray.leftNodeIdx);
    }
  }

  /** `BBOX_LOAD`, `BBOX` and `NODE_LOAD` fill in the pair's registers. */
  lemma PairPreserves(nodes: seq<Node>, n: int, r: Regs, inp: Inputs, ray: RayState, stack: seq<int>)
    requires r.state in {BboxLoad, Bbox, NodeLoad} && Inv(nodes, n, r, ray, stack) && |stack| <= StackCap
    ensures Readable(r, nodes) && EdgeOk(nodes, n, r, inp, ray, stack)
  {
  }

  lemma StorePreserves(nodes: seq<Node>, n: int, r: Regs, inp: Inputs, ray: RayState, stack: seq<int>)
    requires r.state == Store && Inv(nodes, n, r, ray, stack) && |stack| <= StackCap
    ensures EdgeOk(nodes, n, r, inp, ray, stack)
  {
  }

  lemma ListLoadPreserves(nodes: seq<Node>, n: int, r: Regs, inp: Inputs, ray: RayState, stack: seq<int>)
    requires r.state == ListLoad && Inv(nodes, n, r, ray, stack) && |stack| <= StackCap
    ensures Readable(r, nodes) && EdgeOk(nodes, n, r, inp, ray, stack)
  {
    var d :| PairAt(nodes, r.oldLeftNodeIdx, d, n);
    PairMembers(nodes, r.oldLeftNodeIdx, d, n);
  }

  lemma ListPreserves(nodes: seq<Node>, n: int, r: Regs, inp: Inputs, ray: RayState, stack: seq<int>)
    requires MIstValid(r) && Inv(nodes, n, r, ray, stack) && |stack| <= StackCap
    requires var r' := NextRegs(r, inp, ray, nodes, stack); r'.state != Idle ==> MIstValid(r') && ListRange(r', n)
    ensures EdgeOk(nodes, n, r, inp, ray, stack)
  {
  }

  lemma PostPreserves(nodes: seq<Node>, n: int, r: Regs, inp: Inputs, ray: RayState, stack: seq<int>)
    requires r.state == Post && Inv(nodes, n, r, ray, stack) && |stack| <= StackCap
    ensures EdgeOk(nodes, n, r, inp, ray, stack)
  {
  }

  /** A slot RD has just allocated, with an empty stack row, is ready: node 1, where
      RD starts every ray, is the root's left child and its pair sits at depth 1. */
  lemma AllocatedReady(nodes: seq<Node>, n: int, rs: RayState, origin: V3, dir: V3, tmax: Fl)
    requires Tree(nodes, n)
    ensures Ready(nodes, n, Rd.Allocated(rs, origin, dir, tmax), [])
  {
    RootPair(nodes, n);
    assert PairAt(nodes, 1, 1, n) && StackFits(nodes, n, [], 1);
  }

  // ---------------------------------------------------------------- emission

  /** One `LIST_A`/`LIST_B` edge sends the first pending index, raises
      `m_is_last_trig` only on the last one, and returns to `IDLE` right after it. */
  lemma EmitStep(r: Regs, inp: Inputs, ray: RayState, nodes: seq<Node>, stack: seq<int>, n: int)
    requires MIstValid(r) && ListRange(r, n)
    ensures var r' := NextRegs(r, inp, ray, nodes, stack);
      && |Pending(r)| >= 1 && Pending(r)[0] == r.mIstTrigIdx
      && (r'.state == Idle <==> |Pending(r)| == 1)
      && (r'.state != Idle ==> MIstValid(r') && ListRange(r', n) && Pending(r') == Pending(r)[1..])
  {
    if r.state == ListA {
      EmitA(r, n);
    } else {
      EmitB(r, n);
    }
  }

  lemma EmitA(r: Regs, n: int)
    requires r.state == ListA && ListRange(r, n)
    ensures var r' := ListANext(r);
      && |Pending(r)| >= 2 && Pending(r)[0] == r.mIstTrigIdx
      && MIstValid(r') && ListRange(r', n) && Pending(r') == Pending(r)[1..]
  {
    ListANextRange(r, n);
    if r.mIstTrigIdx == r.aLastTrigIdx {
      JumpToB(r, n);
    } else {
      WalkA(r, n);
    }
  }

  lemma ListANextRange(r: Regs, n: int)
    requires r.state == ListA && ListRange(r, n)
    ensures MIstValid(ListANext(r)) && ListRange(ListANext(r), n)
  {
  }

  /** The last index of the first range is followed by the first of the second. */
  lemma JumpToB(r: Regs, n: int)
    requires r.state == ListA && ListRange(r, n) && r.mIstTrigIdx == r.aLastTrigIdx
    ensures |Pending(r)| >= 2 && Pending(r)[0] == r.mIstTrigIdx
    ensures ListOrdered(ListANext(r)) && Pending(ListANext(r)) == Pending(r)[1..]
  {
    var x, y := Interval(r.mIstTrigIdx, r.aLastTrigIdx + 1), Interval(r.bFirstTrigIdx, r.bLastTrigIdx + 1);
    assert Pending(r) == x + y;
    IntervalTail(r.mIstTrigIdx, r.aLastTrigIdx + 1);
    HeadTail(x, y);
    assert x[1..] + y == y;
    assert Pending(ListANext(r)) == y;
  }

  lemma WalkA(r: Regs, n: int)
    requires r.state == ListA && ListRange(r, n) && r.mIstTrigIdx < r.aLastTrigIdx
    ensures |Pending(r)| >= 2 && Pending(r)[0] == r.mIstTrigIdx
    ensures ListOrdered(ListANext(r)) && Pending(ListANext(r)) == Pending(r)[1..]
  {
    var x, y := Interval(r.mIstTrigIdx, r.aLastTrigIdx + 1), Interval(r.bFirstTrigIdx, r.bLastTrigIdx + 1);
    assert Pending(r) == x + y;
    IntervalTail(r.mIstTrigIdx, r.aLastTrigIdx + 1);
    HeadTail(x, y);
    assert Pending(ListANext(r)) == x[1..] + y;
  }

  lemma EmitB(r: Regs, n: int)
    requires r.state == ListB && ListRange(r, n)
    ensures var r' := ListBNext(r);
      && |Pending(r)| >= 1 && Pending(r)[0] == r.mIstTrigIdx
      && (r'.state == Idle <==> |Pending(r)| == 1)
      && (r'.state != Idle ==> r'.state == ListB && ListRange(r', n) && Pending(r') == Pending(r)[1..])
  {
    IntervalTail(r.mIstTrigIdx, r.bLastTrigIdx + 1);
  }

  lemma IntervalTail(b: int, e: int)
    requires b < e
    ensures Interval(b, e)[0] == b && Interval(b, e)[1..] == Interval(b + 1, e)
  {
  }

  lemma HeadTail(x: seq<int>, y: seq<int>)
    requires |x| > 0
    ensures (x + y)[0] == x[0] && (x + y)[1..] == x[1..] + y
  {
  }

  /** `LIST_LOAD` sets up exactly the triangle lists of the hit leaves of the pair just
      left, the left one first, as the builder laid them out. */
  lemma ListLoadEmits(nodes: seq<Node>, n: int, r: Regs, inp: Inputs, ray: RayState, stack: seq<int>)
    requires r.state == ListLoad && ListOk(nodes, n, r)
    ensures var r' := NextRegs(r, inp, ray, nodes, stack);
      var ol := r.oldLeftNodeIdx;
      && MIstValid(r') && ListRange(r', n)
      && Pending(r') ==
           if r.leftHit && r.leftIsLeaf && r.rightHit && r.rightIsLeaf then Covered(nodes, ol) + Covered(nodes, ol + 1)
           else if r.leftHit && r.leftIsLeaf then Covered(nodes, ol)
           else Covered(nodes, ol + 1)
  {
    var d :| PairAt(nodes, r.oldLeftNodeIdx, d, n);
    PairMembers(nodes, r.oldLeftNodeIdx, d, n);
  }

  // ---------------------------------------------------------------- the module

  /** What an edge out of reset needs of the memories it reads: the tree reads of the
      state are in range, and a push finds room in the stack row. TRV does not check
      either; `InvGuards` shows the invariant provides both. */
  predicate Guarded(r: Regs, nodes: seq<Node>, stack: seq<int>)
  {
    Readable(r, nodes) && (r.state == Step && LeftValid(r) && RightValid(r) ==> |stack| < StackCap)
  }

  lemma InvGuards(nodes: seq<Node>, n: int, r: Regs, ray: RayState, stack: seq<int>)
    requires r.state != Idle && Inv(nodes, n, r, ray, stack) && |stack| <= StackCap
    ensures Guarded(r, nodes, stack)
  {
    NextPreserves(nodes, n, r, Inputs(false, 0, Slab(false, NaN, false, NaN), false), ray, stack);
  }

  class Trv {
    const maxWorkingRays: nat
    const nodes: seq<Node>
    const rayStates: array<RayState>
    const stkSize: array<int>
    const stkData: array2<int>
    var regs: Regs

    /** One stack row of `BVH_MAX_DEPTH - 1` entries per ray slot. */
    ghost predicate Shape()
    {
      && rayStates.Length == stkSize.Length == stkData.Length0 == maxWorkingRays
      && stkData.Length1 == StackCap
    }

    /** Stack row `id`: `stk_data[id][0 .. stk_size[id])`, bottom first. */
    ghost function Stack(id: int): (s: seq<int>)
      reads stkSize, stkData
      requires Shape() && 0 <= id < maxWorkingRays && 0 <= stkSize[id] <= StackCap
      ensures |s| == stkSize[id]
    {
      var size := stkSize[id];
      seq(size, k requires 0 <= k < size reads stkData => stkData[id, k])
    }

    ghost predicate Valid()
      reads this, stkSize
    {
      && Shape()
      && (forall id :: 0 <= id < maxWorkingRays ==> 0 <= stkSize[id] <= StackCap)
      && (regs.state != Idle ==> 0 <= regs.mRayId < maxWorkingRays)
    }

    /** Elaboration: every register and every stack row at 0. */
    constructor(maxWorkingRays: nat, nodes: seq<Node>, rayStates: array<RayState>)
      requires rayStates.Length == maxWorkingRays
      ensures Valid() && regs == Initial
      ensures this.maxWorkingRays == maxWorkingRays && this.nodes == nodes && this.rayStates == rayStates
      ensures fresh(stkSize) && fresh(stkData)
      ensures forall id :: 0 <= id < maxWorkingRays ==> Stack(id) == []
    {
      this.maxWorkingRays, this.nodes, this.rayStates := maxWorkingRays, nodes, rayStates;
      stkSize := new int[maxWorkingRays](_ => 0);
      stkData := new int[maxWorkingRays, StackCap]((_, _) => 0);
      regs := Initial;
    }

    /** The `STEP` edge: the only one that writes a stack row, and only the current
        ray's row. */
    method StepEdge()
      requires Valid() && regs.state == Step && Guarded(regs, nodes, Stack(regs.mRayId))
      modifies this, stkSize, stkData
      ensures Valid()
      ensures var m := old(regs.mRayId);
        && regs == StepNext(old(regs), old(Stack(m)))
        && Stack(m) == NextStack(old(regs), old(Stack(m)))
        && (forall id :: 0 <= id < maxWorkingRays && id != m ==> stkSize[id] == old(stkSize[id]))
        && (forall id, k :: 0 <= id < maxWorkingRays && id != m && 0 <= k < StackCap ==> stkData[id, k] == old(stkData[id, k]))
    {
      var r, m := regs, regs.mRayId;
      ghost var s := Stack(m);
      var size := stkSize[m];
      var lv, rv := r.leftHit && !r.leftIsLeaf, r.rightHit && !r.rightIsLeaf;
      var left, finished := r.leftNodeIdx, r.finished;
      if lv {
        if rv {
          if Lt(r.rightEntry, r.leftEntry) {
            stkData[m, size] := r.leftNodeLeftNodeIdx;
            left := r.rightNodeLeftNodeIdx;
          } else {
            stkData[m, size] := r.rightNodeLeftNodeIdx;
            left := r.leftNodeLeftNodeIdx;
          }
          stkSize[m] := size + 1;
          finished := false;
        } else {
          left := r.leftNodeLeftNodeIdx;
          finished := false;
        }
      } else if rv {
        left := r.rightNodeLeftNodeIdx;
        finished := false;
      } else {
        if size != 0 {
          left := stkData[m, size - 1];
          stkSize[m] := size - 1;
          finished := false;
        } else {
          finished := true;
        }
      }
      var next :=
        if !r.leftHit && !r.rightHit && size == 0 then Post
        else if (r.leftHit && r.leftIsLeaf) || (r.rightHit && r.rightIsLeaf) then Store
        else BboxLoad;
      regs := r.(oldLeftNodeIdx := r.leftNodeIdx, leftNodeIdx := left, finished := finished, state := next);
      assert Stack(m) == NextStack(r, s);
    }

    /** The edges that only move registers: every state but `IDLE`, `STEP` and `STORE`,
        each by the function of its branch. */
    method RegEdge(inp: Inputs)
      requires Valid() && regs.state !in {Idle, Step, Store} && Readable(regs, nodes)
      modifies this
      ensures Valid()
      ensures regs == NextRegs(old(regs), inp, rayStates[old(regs.mRayId)], nodes, [])
    {
      var r, m := regs, regs.mRayId;
      match r.state
      case Load => regs := LoadNext(r, rayStates[m]);
      case BboxLoad => regs := BboxLoadNext(r, nodes);
      case Bbox => regs := BboxNext(r, inp.slab);
      case NodeLoad => regs := NodeLoadNext(r, nodes);
      case ListLoad => regs := ListLoadNext(r, nodes);
      case ListA => regs := ListANext(r);
      case ListB => regs := ListBNext(r);
      case Post =>
        if inp.mPfReady {
          regs := r.(state := Idle);
        }
    }

    /** One rising clock edge of `TRV::main`, with the reset in an `else`: under reset
        only `state` is written, to `IDLE`. Out of reset the registers move as
        `NextRegs`, the stack row of the current ray as `NextStack` (no other row is
        touched) and its `ray_states` slot as `NextRay` (no other slot is touched). */
    method Tick(srstn: bool, inp: Inputs)
      requires Valid()
      requires srstn && regs.state == Idle && inp.sValid ==> 0 <= inp.sRayId < maxWorkingRays
      requires srstn && regs.state != Idle ==> Guarded(regs, nodes, Stack(regs.mRayId))
      modifies this, rayStates, stkSize, stkData
      ensures Valid()
      ensures !srstn ==> regs == old(regs).(state := Idle) && unchanged(rayStates, stkSize, stkData)
      ensures srstn && old(regs.state) == Idle ==> regs == IdleNext(old(regs), inp) && unchanged(rayStates, stkSize, stkData)
      ensures srstn && old(regs.state) != Idle ==>
        var m := old(regs.mRayId);
        && regs == NextRegs(old(regs), inp, old(rayStates[m]), nodes, old(Stack(m)))
        && Stack(m) == NextStack(old(regs), old(Stack(m)))
        && rayStates[..] == old(rayStates[..])[m := NextRay(old(regs), old(rayStates[m]))]
        && (forall id :: 0 <= id < maxWorkingRays && id != m ==> stkSize[id] == old(stkSize[id]))
        && (forall id, k :: 0 <= id < maxWorkingRays && id != m && 0 <= k < StackCap ==> stkData[id, k] == old(stkData[id, k]))
    {
      if !srstn {
        regs := regs.(state := Idle);
      } else if regs.state == Idle {
        regs := regs.(mRayId := inp.sRayId, state := if inp.sValid then Load else Idle);
      } else if regs.state == Step {
        StepEdge();
      } else if regs.state == Store {
        var r, m := regs, regs.mRayId;
        rayStates[m] := rayStates[m].(leftNodeIdx := r.leftNodeIdx, finished := r.finished);
        regs := r.(state := ListLoad);
      } else {
        RegEdge(inp);
      }
    }
  }
}
