/** The older single-ray `TRV` module: one ray, given on the `origin`/`dir`/`tmax`
    ports, is traversed from `start` to `done`. The FSM tests one child box per visit
    (`curr_left` selects which of the pair `left, left+1`), walks a hit leaf's triangles
    one per edge through its IST submodule, and in `STEP` descends into the nearer
    recorded child, stacking the farther one.

    `main` and `update_state` both run at the rising edge on the register values from
    before it, so the registers are the value `Regs` and one edge is `NextRegs`; the
    stack `stk_data` is the array of the class. The slab test of `BBOX` and the
    Möller–Trumbore test of the IST submodule are floating-point geometry: their
    results enter as the inputs `Slab` and `Ist.Candidate`, and the octant, inverse
    direction and scaled origin registers are not modelled.

    A leaf is entered from `BBOX` whether or not its box was hit, so its triangles are
    intersected in either case; only entries of hit internal children steer `STEP`. */
module SingleTrv {
  import opened Float32
  import opened Bvh
  import BoundingBox
  import Ist
  import RtTrv = Trv

  /** `Bvh::BVH_MAX_DEPTH - 1`: the length of `stk_data`. */
  const StackCap: int := RtTrv.StackCap

  datatype Phase = Idle | Init | Bbox | LeafPrep | Leaf | Switch | Step

  /** The slab test of `BBOX` for the current node: its `entry` and `exit` distances. */
  datatype Slab = Slab(entry: Fl, exit: Fl)

  /** The input ports `start` and `tmax`, the slab test of the current node, and what
      the intersection arithmetic yields for triangle `curr_trig_idx` against the ray
      with the current `t` as its `tmax`. */
  datatype Inputs = Inputs(start: bool, tmax: Fl, slab: Slab, cand: Ist.Candidate)

  /** The registers of TRV that the model keeps, `stk_size` and `stk_data` aside. */
  datatype Regs = Regs(
    state: Phase,
    leftNodeIdx: int,
    entryLeft: Fl, entryRight: Fl,
    currLeft: bool,
    currTrigIdx: int, lastTrigIdx: int,
    isected: bool, t: Fl, u: Fl, v: Fl, trigIdx: int)

  /** Every register at 0, as elaboration leaves them: the state is `IDLE`. */
  const Initial: Regs :=
    Regs(Idle, 0, Finite(0.0), Finite(0.0), false, 0, 0, false, Finite(0.0), Finite(0.0), Finite(0.0), 0)

  /** The tree this TRV walks: a finished BVH over `n` triangles whose root is internal
      (a one-node tree is not supported by the module). */
  ghost predicate Tree(nodes: seq<Node>, n: int)
  {
    Tiles(nodes, map[], 0, 0, n, 0) && !nodes[0].IsLeaf()
  }

  // ---------------------------------------------------------------- wires

  /** `update_done` */
  predicate Done(r: Regs) { r.state == Idle }

  /** `update_right_node_idx` */
  function RightNodeIdx(r: Regs): int { r.leftNodeIdx + 1 }

  /** `update_curr_node_idx`: the member of the pair whose box is being intersected. */
  function CurrNodeIdx(r: Regs): (c: int)
    ensures r.currLeft ==> c == r.leftNodeIdx
    ensures !r.currLeft ==> c == RightNodeIdx(r)
  {
    if r.currLeft then r.leftNodeIdx else RightNodeIdx(r)
  }

  /** An entry register holds a recorded distance: anything but `FLT_MAX`. */
  predicate Recorded(e: Fl) { !Eq(e, FltMax) }

  // ---------------------------------------------------------------- one edge

  /** `IDLE`: wait for `start`. */
  function IdleNext(r: Regs, start: bool): Regs
  {
    r.(state := if start then Init else Idle)
  }

  /** `INIT`: start at the root's children with nothing recorded and no hit yet, `t` at
      the ray's `tmax`. */
  function InitNext(r: Regs, tmax: Fl, nodes: seq<Node>): Regs
    requires |nodes| > 0
  {
    r.(isected := false, t := tmax, leftNodeIdx := nodes[0].LeftNodeIdx(),
       entryLeft := FltMax, entryRight := FltMax, currLeft := true, state := Bbox)
  }

  /** `BBOX`: record the entry distance of a hit box on the current side, then go to the
      leaf's triangles or to the other side. */
  function BboxNext(r: Regs, slab: Slab, nodes: seq<Node>): Regs
    requires 0 <= CurrNodeIdx(r) < |nodes|
  {
    var hit := Le(slab.entry, slab.exit);
    r.(entryLeft := if hit && r.currLeft then slab.entry else r.entryLeft,
       entryRight := if hit && !r.currLeft then slab.entry else r.entryRight,
       state := if nodes[CurrNodeIdx(r)].IsLeaf() then LeafPrep else Switch)
  }

  /** `LEAF_PREP`: forget the leaf's entry and set up its triangle range. */
  function LeafPrepNext(r: Regs, nodes: seq<Node>): Regs
    requires 0 <= CurrNodeIdx(r) < |nodes|
  {
    var leaf := nodes[CurrNodeIdx(r)];
    r.(entryLeft := if r.currLeft then FltMax else r.entryLeft,
       entryRight := if r.currLeft then r.entryRight else FltMax,
       currTrigIdx := leaf.FirstTrigIdx(), lastTrigIdx := leaf.FirstTrigIdx() + leaf.numTrigs - 1,
       state := Leaf)
  }

  /** `LEAF`: keep an accepted hit of triangle `curr_trig_idx` as the closest so far and
      move to the next index, leaving after the last. */
  function LeafNext(r: Regs, c: Ist.Candidate): Regs
  {
    var r' := if Ist.Accepts(c, r.t) then r.(isected := true, t := c.t, u := c.u, v := c.v, trigIdx := r.currTrigIdx)
              else r;
    r'.(currTrigIdx := r.currTrigIdx + 1, state := if r.currTrigIdx == r.lastTrigIdx then Switch else Leaf)
  }

  /** `SWITCH`: after the left member test the right one, after the right one step. */
  function SwitchNext(r: Regs): Regs
  {
    r.(currLeft := false, state := if r.currLeft then Bbox else Step)
  }

  /** `STEP`: descend into the nearer recorded child (the left on a tie), or into the
      only one, or pop the stack; clear both entries and start at the left member. With
      nothing recorded and an empty stack the traversal is done. */
  function StepNext(r: Regs, nodes: seq<Node>, stack: seq<int>): Regs
    requires Recorded(r.entryLeft) ==> 0 <= r.leftNodeIdx < |nodes|
    requires Recorded(r.entryRight) ==> 0 <= RightNodeIdx(r) < |nodes|
  {
    var left :=
      if Recorded(r.entryLeft) && Recorded(r.entryRight) then
        (if Lt(r.entryRight, r.entryLeft) then nodes[RightNodeIdx(r)].LeftNodeIdx() else nodes[r.leftNodeIdx].LeftNodeIdx())
      else if Recorded(r.entryLeft) then nodes[r.leftNodeIdx].LeftNodeIdx()
      else if Recorded(r.entryRight) then nodes[RightNodeIdx(r)].LeftNodeIdx()
      else if |stack| != 0 then RtTrv.Top(stack)
      else r.leftNodeIdx;
    r.(leftNodeIdx := left, currLeft := true, entryLeft := FltMax, entryRight := FltMax,
       state := if !Recorded(r.entryLeft) && !Recorded(r.entryRight) && |stack| == 0 then Idle else Bbox)
  }

  /** The stack after the edge: `INIT` empties it; `STEP` pushes the farther of two
      recorded children and pops when nothing was recorded. */
  function NextStack(r: Regs, nodes: seq<Node>, stack: seq<int>): seq<int>
    requires Readable(r, nodes)
  {
    if r.state == Init then []
    else if r.state != Step then stack
    else if Recorded(r.entryLeft) && Recorded(r.entryRight) then
      stack + [if Lt(r.entryRight, r.entryLeft) then nodes[r.leftNodeIdx].LeftNodeIdx() else nodes[RightNodeIdx(r)].LeftNodeIdx()]
    else if !Recorded(r.entryLeft) && !Recorded(r.entryRight) && |stack| != 0 then RtTrv.Below(stack)
    else stack
  }

  /** The tree reads of the state are in range: `INIT` reads the root, `BBOX` and
      `LEAF_PREP` the current node, `STEP` the recorded members. */
  predicate Readable(r: Regs, nodes: seq<Node>)
  {
    match r.state
    case Init => |nodes| > 0
    case Bbox => 0 <= CurrNodeIdx(r) < |nodes|
    case LeafPrep => 0 <= CurrNodeIdx(r) < |nodes|
    case Step =>
      && (Recorded(r.entryLeft) ==> 0 <= r.leftNodeIdx < |nodes|)
      && (Recorded(r.entryRight) ==> 0 <= RightNodeIdx(r) < |nodes|)
    case _ => true
  }

  /** `main` together with `update_state` out of reset. */
  function MainNext(r: Regs, inp: Inputs, nodes: seq<Node>, stack: seq<int>): Regs
    requires Readable(r, nodes)
  {
    match r.state
    case Idle => IdleNext(r, inp.start)
    case Init => InitNext(r, inp.tmax, nodes)
    case Bbox => BboxNext(r, inp.slab, nodes)
    case LeafPrep => LeafPrepNext(r, nodes)
    case Leaf => LeafNext(r, inp.cand)
    case Switch => SwitchNext(r)
    case Step => StepNext(r, nodes, stack)
  }

  /** One edge. The reset (active low) is seen only by `update_state`: `main` still
      runs its branch, and the state goes to `IDLE`. */
  function NextRegs(reset: bool, r: Regs, inp: Inputs, nodes: seq<Node>, stack: seq<int>): Regs
    requires Readable(r, nodes)
  {
    var m := MainNext(r, inp, nodes, stack);
    if reset then m else m.(state := Idle)
  }

  /** What an edge needs of the memories it reads: tree reads in range, and room in
      `stk_data` for a push. The module does not check either; `InvGuards` shows the
      invariant provides both. */
  predicate Guarded(r: Regs, nodes: seq<Node>, stack: seq<int>)
  {
    Readable(r, nodes) && (r.state == Step && Recorded(r.entryLeft) && Recorded(r.entryRight) ==> |stack| < StackCap)
  }

  // ---------------------------------------------------------------- control properties

  /** Reset forces `IDLE`; out of reset `IDLE` moves to `INIT` exactly on `start`, and
      `done` is raised exactly in `IDLE`. */
  lemma ResetAndStart(reset: bool, r: Regs, inp: Inputs, nodes: seq<Node>, stack: seq<int>)
    requires Readable(r, nodes)
    ensures !reset ==> Done(NextRegs(reset, r, inp, nodes, stack))
    ensures reset && r.state == Idle ==> (NextRegs(reset, r, inp, nodes, stack).state == Init <==> inp.start)
    ensures reset && r.state == Idle ==> (Done(NextRegs(reset, r, inp, nodes, stack)) <==> !inp.start)
  {
  }

  /** `INIT` clears the stack and the hit, sets `t` to `tmax`, starts at the root's
      children with the left one, and nothing recorded. */
  lemma InitStarts(r: Regs, inp: Inputs, nodes: seq<Node>, stack: seq<int>)
    requires r.state == Init && |nodes| > 0
    ensures var r' := NextRegs(true, r, inp, nodes, stack);
      && NextStack(r, nodes, stack) == []
      && r'.state == Bbox && r'.leftNodeIdx == nodes[0].idx && r'.currLeft
      && !r'.isected && r'.t == inp.tmax
      && !Recorded(r'.entryLeft) && !Recorded(r'.entryRight)
  {
  }

  /** `BBOX` records an entry exactly when the slab test hits (`entry <= exit`), into the
      side `curr_left` selects; the other side is unchanged. */
  lemma BboxRecords(r: Regs, inp: Inputs, nodes: seq<Node>, stack: seq<int>)
    requires r.state == Bbox && 0 <= CurrNodeIdx(r) < |nodes|
    ensures var r' := NextRegs(true, r, inp, nodes, stack);
      var hit := Le(inp.slab.entry, inp.slab.exit);
      && (r.currLeft ==> r'.entryLeft == (if hit then inp.slab.entry else r.entryLeft) && r'.entryRight == r.entryRight)
      && (!r.currLeft ==> r'.entryRight == (if hit then inp.slab.entry else r.entryRight) && r'.entryLeft == r.entryLeft)
      && (hit ==> !inp.slab.entry.NaN?)
      && (r'.state == LeafPrep <==> nodes[CurrNodeIdx(r)].IsLeaf())
      && (r'.state == Switch <==> !nodes[CurrNodeIdx(r)].IsLeaf())
  {
  }

  /** `SWITCH` tests the right member after the left one, and steps after the right. */
  lemma SwitchOrder(r: Regs, inp: Inputs, nodes: seq<Node>, stack: seq<int>)
    requires r.state == Switch
    ensures var r' := NextRegs(true, r, inp, nodes, stack);
      && !r'.currLeft && CurrNodeIdx(r') == RightNodeIdx(r)
      && (r'.state == Bbox <==> r.currLeft) && (r'.state == Step <==> !r.currLeft)
  {
  }

  /** `STEP`: with both entries recorded the farther child's pair is pushed and the
      nearer one's is descended into (the left on a tie), the stack one longer; with one
      recorded it is descended into and the stack is unchanged; with none the top is
      popped, or the traversal is done when the stack is empty. Both entries are cleared
      and the left member is next. */
  lemma StepChoice(r: Regs, inp: Inputs, nodes: seq<Node>, stack: seq<int>)
    requires r.state == Step && 0 <= r.leftNodeIdx && r.leftNodeIdx + 1 < |nodes|
    ensures var r', s' := NextRegs(true, r, inp, nodes, stack), NextStack(r, nodes, stack);
      var lc, rc := nodes[r.leftNodeIdx].idx, nodes[r.leftNodeIdx + 1].idx;
      && r'.currLeft && !Recorded(r'.entryLeft) && !Recorded(r'.entryRight)
      && (Recorded(r.entryLeft) && Recorded(r.entryRight) ==>
            |s'| == |stack| + 1 && s'[..|stack|] == stack && r'.state == Bbox
            && (Lt(r.entryRight, r.entryLeft) ==> r'.leftNodeIdx == rc && s'[|stack|] == lc)
            && (!Lt(r.entryRight, r.entryLeft) ==> r'.leftNodeIdx == lc && s'[|stack|] == rc))
      && (Recorded(r.entryLeft) && !Recorded(r.entryRight) ==> r'.leftNodeIdx == lc && s' == stack && r'.state == Bbox)
      && (!Recorded(r.entryLeft) && Recorded(r.entryRight) ==> r'.leftNodeIdx == rc && s' == stack && r'.state == Bbox)
      && (!Recorded(r.entryLeft) && !Recorded(r.entryRight) && |stack| > 0 ==>
            r'.leftNodeIdx == stack[|stack| - 1] && s' == stack[..|stack| - 1] && r'.state == Bbox)
      && (Done(r') <==> !Recorded(r.entryLeft) && !Recorded(r.entryRight) && |stack| == 0)
  {
  }

  // ---------------------------------------------------------------- leaves

  /** The indices `LEAF` has still to test. */
  function Pending(r: Regs): seq<int>
    requires r.currTrigIdx <= r.lastTrigIdx + 1
  {
    Interval(r.currTrigIdx, r.lastTrigIdx + 1)
  }

  /** `LEAF_PREP` sets up exactly the leaf's triangle range, as the builder laid it out,
      and clears the leaf's entry so that `STEP` never descends into it. */
  lemma LeafPrepRange(nodes: seq<Node>, n: int, r: Regs, inp: Inputs, stack: seq<int>)
    requires r.state == LeafPrep && 0 <= CurrNodeIdx(r) < |nodes| && nodes[CurrNodeIdx(r)].IsLeaf()
    ensures var r' := NextRegs(true, r, inp, nodes, stack);
      && r'.state == Leaf && r'.currTrigIdx <= r'.lastTrigIdx
      && Pending(r') == Covered(nodes, CurrNodeIdx(r))
      && (r.currLeft ==> !Recorded(r'.entryLeft) && r'.entryRight == r.entryRight)
      && (!r.currLeft ==> !Recorded(r'.entryRight) && r'.entryLeft == r.entryLeft)
  {
  }

  /** One `LEAF` edge tests the first pending index and leaves for `SWITCH` right after
      the last one. */
  lemma LeafWalk(r: Regs, inp: Inputs, nodes: seq<Node>, stack: seq<int>)
    requires r.state == Leaf && r.currTrigIdx <= r.lastTrigIdx
    ensures var r' := NextRegs(true, r, inp, nodes, stack);
      && |Pending(r)| >= 1 && Pending(r)[0] == r.currTrigIdx
      && (r'.state == Switch <==> |Pending(r)| == 1)
      && (r'.state == Leaf ==> r'.currTrigIdx <= r'.lastTrigIdx && Pending(r') == Pending(r)[1..])
  {
    RtTrv.IntervalTail(r.currTrigIdx, r.lastTrigIdx + 1);
  }

  /** A `LEAF` edge keeps the closest hit: an accepted test overwrites `t`, `u`, `v`,
      `trig_idx` with the triangle's and raises `isected`, a rejected one changes none
      of them; `t` never grows and ends no farther than any valid hit just intersected. */
  lemma LeafKeepsClosest(r: Regs, c: Ist.Candidate)
    requires r.state == Leaf && !r.t.NaN?
    ensures var r' := LeafNext(r, c);
      && (Ist.Accepts(c, r.t) ==>
            r'.isected && r'.t == c.t && r'.u == c.u && r'.v == c.v && r'.trigIdx == r.currTrigIdx)
      && (!Ist.Accepts(c, r.t) ==>
            r'.isected == r.isected && r'.t == r.t && r'.u == r.u && r'.v == r.v && r'.trigIdx == r.trigIdx)
      && (r.isected ==> r'.isected)
      && !r'.t.NaN? && Le(r'.t, r.t)
      && (Ist.InFront(c) ==> Le(r'.t, c.t))
  {
    var r' := LeafNext(r, c);
    if Ist.Accepts(c, r.t) {
      assert Le(c.t, c.t);
    } else {
      assert Le(r.t, r.t);
      if Ist.InFront(c) {
        Float32.LeTotalOnNumbers(c.t, r.t);
      }
    }
  }

  // ---------------------------------------------------------------- IST latency

  /** The registered outputs `isected`, `t`, `u`, `v` of the IST submodule. */
  datatype IstOut = IstOut(isected: bool, t: Fl, u: Fl, v: Fl)

  /** One edge of the IST submodule as written: it tests triangle `trig_idx`, wired to
      `curr_trig_idx`, against `tmax`, wired to `t`, both read before the edge; its
      outputs are registers, so `LEAF` sees them one edge later. */
  function IstNext(o: IstOut, c: Ist.Candidate, tmax: Fl): (o': IstOut)
    ensures o'.isected <==> Ist.Accepts(c, tmax)
    ensures o'.isected ==> o'.t == c.t && o'.u == c.u && o'.v == c.v
    ensures !o'.isected ==> o'.t == o.t && o'.u == o.u && o'.v == o.v
  {
    if Ist.Accepts(c, tmax) then IstOut(true, c.t, c.u, c.v) else o.(isected := false)
  }

  /** `LEAF` as written: it takes the IST outputs from before the edge, which belong to
      the triangle indexed one edge earlier, and files them under `curr_trig_idx`. */
  function LeafNextAsWritten(r: Regs, ist: IstOut): Regs
  {
    var r' := if ist.isected then r.(isected := true, t := ist.t, u := ist.u, v := ist.v, trigIdx := r.currTrigIdx)
              else r;
    r'.(currTrigIdx := r.currTrigIdx + 1, state := if r.currTrigIdx == r.lastTrigIdx then Switch else Leaf)
  }

  /** A leaf of triangles 5 and 6: the first `LEAF` edge reads the IST result of the
      edge before, taken while `curr_trig_idx` was still 4 (`LEAF_PREP` was setting it
      to 5), and records it as a hit of triangle 5, which the ray misses. The result for
      triangle 6, computed on the last `LEAF` edge, arrives when `SWITCH` no longer
      reads it. */
  lemma StaleHitAsWritten()
    ensures var prep := Regs(LeafPrep, 0, FltMax, FltMax, true, 4, 4, false, Finite(10.0), Finite(0.0), Finite(0.0), 0);
      var nodes := [Node(BoundingBox.Empty(), 2, 5)];
      var hit4 := Ist.Candidate(Finite(0.25), Finite(0.25), Finite(2.0));
      var miss := Ist.Candidate(Finite(-1.0), Finite(0.25), Finite(2.0));
      var hit6 := Ist.Candidate(Finite(0.25), Finite(0.25), Finite(1.0));
      var leaf5 := LeafPrepNext(prep, nodes);
      var ist5 := IstNext(IstOut(false, Finite(0.0), Finite(0.0), Finite(0.0)), hit4, prep.t);
      var leaf6 := LeafNextAsWritten(leaf5, ist5);
      var ist6 := IstNext(ist5, miss, leaf5.t);
      var sw := LeafNextAsWritten(leaf6, ist6);
      var ist7 := IstNext(ist6, hit6, leaf6.t);
      && leaf5.state == Leaf && leaf5.currTrigIdx == 5 && leaf5.lastTrigIdx == 6
      && !Ist.Accepts(miss, leaf5.t)
      && leaf6.isected && leaf6.trigIdx == 5
      && sw.state == Switch && sw.trigIdx == 5
      && ist7.isected && SwitchNext(sw).trigIdx == 5
      && LeafNext(LeafNext(leaf5, miss), hit6).trigIdx == 6
  {
  }

  // ---------------------------------------------------------------- the invariant

  /** A recorded entry belongs to an internal member of the pair. */
  ghost predicate SideOk(nodes: seq<Node>, e: Fl, c: int)
  {
    Recorded(e) ==> 0 <= c < |nodes| && !nodes[c].IsLeaf()
  }

  ghost predicate SidesOk(nodes: seq<Node>, r: Regs)
  {
    SideOk(nodes, r.entryLeft, r.leftNodeIdx) && SideOk(nodes, r.entryRight, RightNodeIdx(r))
  }

  /** What holds of the registers and the stack in each state. */
  ghost predicate Inv(nodes: seq<Node>, n: int, r: Regs, stack: seq<int>)
  {
    match r.state
    case Idle => true
    case Init => true
    case Bbox => RtTrv.Fits(nodes, n, stack, r.leftNodeIdx) && SidesOk(nodes, r)
    case LeafPrep =>
      && RtTrv.Fits(nodes, n, stack, r.leftNodeIdx)
      && 0 <= CurrNodeIdx(r) < |nodes| && nodes[CurrNodeIdx(r)].IsLeaf()
      && (if r.currLeft then SideOk(nodes, r.entryRight, RightNodeIdx(r)) else SideOk(nodes, r.entryLeft, r.leftNodeIdx))
    case Leaf =>
      && RtTrv.Fits(nodes, n, stack, r.leftNodeIdx) && SidesOk(nodes, r)
      && 0 <= r.currTrigIdx <= r.lastTrigIdx < n
    case Switch => RtTrv.Fits(nodes, n, stack, r.leftNodeIdx) && SidesOk(nodes, r)
    case Step => RtTrv.Fits(nodes, n, stack, r.leftNodeIdx) && SidesOk(nodes, r)
  }

  /** One edge keeps the invariant: the tree reads of the next state are in range, only
      `INIT` and `STEP` change the stack, which stays within `BVH_MAX_DEPTH - 1`
      entries, and `Inv` holds after the edge. */
  ghost predicate EdgeOk(nodes: seq<Node>, n: int, reset: bool, r: Regs, inp: Inputs, stack: seq<int>)
    requires Readable(r, nodes)
  {
    var r', s' := NextRegs(reset, r, inp, nodes, stack), NextStack(r, nodes, stack);
    && (r.state != Init && r.state != Step ==> s' == stack)
    && |s'| <= StackCap
    && Readable(r', nodes)
    && Inv(nodes, n, r', s')
  }

  lemma IdlePreserves(nodes: seq<Node>, n: int, reset: bool, r: Regs, inp: Inputs, stack: seq<int>)
    requires Tree(nodes, n) && r.state == Idle && |stack| <= StackCap
    ensures EdgeOk(nodes, n, reset, r, inp, stack)
  {
  }

  lemma InitPreserves(nodes: seq<Node>, n: int, reset: bool, r: Regs, inp: Inputs, stack: seq<int>)
    requires Tree(nodes, n) && r.state == Init
    ensures Readable(r, nodes) && EdgeOk(nodes, n, reset, r, inp, stack)
  {
    RootPair(nodes, n);
    assert PairAt(nodes, nodes[0].idx, 1, n) && RtTrv.StackFits(nodes, n, [], 1);
    RtTrv.FitsMembers(nodes, n, [], nodes[0].idx);
  }

  lemma BboxPreserves(nodes: seq<Node>, n: int, reset: bool, r: Regs, inp: Inputs, stack: seq<int>)
    requires r.state == Bbox && Inv(nodes, n, r, stack) && |stack| <= StackCap
    ensures Readable(r, nodes) && EdgeOk(nodes, n, reset, r, inp, stack)
  {
    RtTrv.FitsMembers(nodes, n, stack, r.leftNodeIdx);
  }

  lemma LeafPrepPreserves(nodes: seq<Node>, n: int, reset: bool, r: Regs, inp: Inputs, stack: seq<int>)
    requires r.state == LeafPrep && Inv(nodes, n, r, stack) && |stack| <= StackCap
    ensures EdgeOk(nodes, n, reset, r, inp, stack)
  {
    var d :| PairAt(nodes, r.leftNodeIdx, d, n) && RtTrv.StackFits(nodes, n, stack, d);
    PairMembers(nodes, r.leftNodeIdx, d, n);
  }

  lemma LeafPreserves(nodes: seq<Node>, n: int, reset: bool, r: Regs, inp: Inputs, stack: seq<int>)
    requires r.state == Leaf && Inv(nodes, n, r, stack) && |stack| <= StackCap
    ensures EdgeOk(nodes, n, reset, r, inp, stack)
  {
  }

  lemma SwitchPreserves(nodes: seq<Node>, n: int, reset: bool, r: Regs, inp: Inputs, stack: seq<int>)
    requires r.state == Switch && Inv(nodes, n, r, stack) && |stack| <= StackCap
    ensures EdgeOk(nodes, n, reset, r, inp, stack)
  {
    RtTrv.FitsMembers(nodes, n, stack, r.leftNodeIdx);
  }

  /** The `STEP` edge keeps the invariant and the stack within its 29 entries: a push
      happens only below a pair whose members are both internal, hence above depth 30,
      where the stack holds at most 28 pairs. */
  lemma StepPreserves(nodes: seq<Node>, n: int, reset: bool, r: Regs, inp: Inputs, stack: seq<int>)
    requires r.state == Step && Inv(nodes, n, r, stack)
    ensures EdgeOk(nodes, n, reset, r, inp, stack)
  {
    var l := r.leftNodeIdx;
    var d :| PairAt(nodes, l, d, n) && RtTrv.StackFits(nodes, n, stack, d);
    RtTrv.StackFitsBound(nodes, n, stack, d);
    var r', s' := NextRegs(reset, r, inp, nodes, stack), NextStack(r, nodes, stack);
    var lv, rv := Recorded(r.entryLeft), Recorded(r.entryRight);
    if lv {
      ChildPair(nodes, l, d, n, false);
    }
    if rv {
      ChildPair(nodes, l, d, n, true);
    }
    if lv && rv {
      var q := if Lt(r.entryRight, r.entryLeft) then nodes[l].idx else nodes[l + 1].idx;
      RtTrv.StackFitsPush(nodes, n, stack, d, q);
      assert PairAt(nodes, r'.leftNodeIdx, d + 1, n) && RtTrv.StackFits(nodes, n, s', d + 1);
    } else if lv || rv {
      RtTrv.StackFitsDeeper(nodes, n, stack, d, d + 1);
      assert PairAt(nodes, r'.leftNodeIdx, d + 1, n) && RtTrv.StackFits(nodes, n, s', d + 1);
    } else if |stack| != 0 {
      RtTrv.StackFitsPop(nodes, n, stack, d);
    }
    if r'.state == Bbox {
      assert RtTrv.Fits(nodes, n, s', r'.leftNodeIdx);
      RtTrv.FitsMembers(nodes, n, s', r'.leftNodeIdx);
    }
  }

  /** Every edge keeps the invariant, whatever the inputs and the reset. */
  lemma NextPreserves(nodes: seq<Node>, n: int, reset: bool, r: Regs, inp: Inputs, stack: seq<int>)
    requires Tree(nodes, n) && Inv(nodes, n, r, stack) && |stack| <= StackCap
    ensures Readable(r, nodes) && EdgeOk(nodes, n, reset, r, inp, stack)
  {
    match r.state
    case Idle => IdlePreserves(nodes, n, reset, r, inp, stack);
    case Init => InitPreserves(nodes, n, reset, r, inp, stack);
    case Bbox => BboxPreserves(nodes, n, reset, r, inp, stack);
    case LeafPrep => LeafPrepPreserves(nodes, n, reset, r, inp, stack);
    case Leaf => LeafPreserves(nodes, n, reset, r, inp, stack);
    case Switch => SwitchPreserves(nodes, n, reset, r, inp, stack);
    case Step => StepPreserves(nodes, n, reset, r, inp, stack);
  }

  /** The invariant supplies what an edge needs of the tree and of `stk_data`. */
  lemma InvGuards(nodes: seq<Node>, n: int, r: Regs, stack: seq<int>)
    requires Tree(nodes, n) && Inv(nodes, n, r, stack) && |stack| <= StackCap
    ensures Guarded(r, nodes, stack)
  {
    var inp := Inputs(false, NaN, Slab(NaN, NaN), Ist.Candidate(NaN, NaN, NaN));
    NextPreserves(nodes, n, true, r, inp, stack);
    if r.state == Step && Recorded(r.entryLeft) && Recorded(r.entryRight) {
      assert |NextStack(r, nodes, stack)| == |stack| + 1;
    }
  }

  // ---------------------------------------------------------------- the module

  class Trv {
    const nodes: seq<Node>
    const stkData: array<int>
    var stkSize: int
    var regs: Regs

    ghost predicate Valid()
      reads this
    {
      stkData.Length == StackCap && 0 <= stkSize <= StackCap
    }

    /** The stack, bottom first: `stk_data[0 .. stk_size)`. */
    function Stack(): (s: seq<int>)
      reads this, stkData
      requires Valid()
      ensures |s| == stkSize
    {
      stkData[..stkSize]
    }

    /** Elaboration: every register and stack entry at 0. */
    constructor(nodes: seq<Node>)
      ensures Valid() && regs == Initial && Stack() == [] && this.nodes == nodes && fresh(stkData)
    {
      this.nodes := nodes;
      stkData := new int[StackCap](_ => 0);
      stkSize := 0;
      regs := Initial;
    }

    /** The `STEP` edge: the only one that writes `stk_data`, and only the entry at
        `stk_size`. */
    method StepEdge(reset: bool, inp: Inputs)
      requires Valid() && regs.state == Step && Guarded(regs, nodes, Stack())
      modifies this, stkData
      ensures Valid()
      ensures regs == NextRegs(reset, old(regs), inp, nodes, old(Stack()))
      ensures Stack() == NextStack(old(regs), nodes, old(Stack()))
      ensures forall k :: 0 <= k < StackCap && k != old(stkSize) ==> stkData[k] == old(stkData[k])
    {
      var r, size := regs, stkSize;
      ghost var s := Stack();
      var left := r.leftNodeIdx;
      if Recorded(r.entryLeft) {
        if Recorded(r.entryRight) {
          if Lt(r.entryRight, r.entryLeft) {
            stkData[size] := nodes[r.leftNodeIdx].LeftNodeIdx();
            left := nodes[RightNodeIdx(r)].LeftNodeIdx();
          } else {
            stkData[size] := nodes[RightNodeIdx(r)].LeftNodeIdx();
            left := nodes[r.leftNodeIdx].LeftNodeIdx();
          }
          stkSize := size + 1;
        } else {
          left := nodes[r.leftNodeIdx].LeftNodeIdx();
        }
      } else if Recorded(r.entryRight) {
        left := nodes[RightNodeIdx(r)].LeftNodeIdx();
      } else if size != 0 {
        left := stkData[size - 1];
        stkSize := size - 1;
      }
      var next := if !Recorded(r.entryLeft) && !Recorded(r.entryRight) && size == 0 then Idle else Bbox;
      regs := r.(leftNodeIdx := left, currLeft := true, entryLeft := FltMax, entryRight := FltMax,
                 state := if reset then next else Idle);
      assert Stack() == NextStack(r, nodes, s);
    }

    /** One rising clock edge of `main` and `update_state`: the registers move as
        `NextRegs`, the stack as `NextStack`, and no entry of `stk_data` but the one at
        `stk_size` is written. */
    method Tick(reset: bool, inp: Inputs)
      requires Valid() && Guarded(regs, nodes, Stack())
      modifies this, stkData
      ensures Valid()
      ensures regs == NextRegs(reset, old(regs), inp, nodes, old(Stack()))
      ensures Stack() == NextStack(old(regs), nodes, old(Stack()))
      ensures forall k :: 0 <= k < StackCap && k != old(stkSize) ==> stkData[k] == old(stkData[k])
    {
      var r := regs;
      if r.state == Step {
        StepEdge(reset, inp);
      } else {
        var m := MainNext(r, inp, nodes, Stack());
        if r.state == Init {
          stkSize := 0;
        }
        regs := if reset then m else m.(state := Idle);
      }
    }
  }
}
