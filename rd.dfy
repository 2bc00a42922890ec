/** `RD<MaxWorkingRays>`: the ray dispatcher. It owns the free-slot queue (filled with
    every slot id on reset) and the working queue feeding TRV. An allocation takes the
    head of the free queue, initialises that slot of `ray_states` in place and queues
    the id for traversal; a resumed id is queued with priority over an allocation; a
    released id goes back to the free queue. */
module Rd {
  import opened Float32
  import opened RayStates
  import Ring
  import Fifos

  /** The divisor used for one axis of `inv_dir`: `d` itself, or `FLT_EPSILON` with
      `d`'s sign when `|d| < FLT_EPSILON`. It is never within `FLT_EPSILON` of zero and
      keeps the sign of `d`. */
  function SafeDivisor(d: Fl): (r: Fl)
    ensures d.NaN? <==> r.NaN?
    ensures r.Finite? ==> r.r <= -FltEpsilon || FltEpsilon <= r.r
    ensures Lt(d, Finite(0.0)) <==> Lt(r, Finite(0.0))
    ensures !Lt(Abs(d), Finite(FltEpsilon)) ==> r == d
  {
    if Lt(Abs(d), Finite(FltEpsilon)) then CopySign(FltEpsilon, d) else d
  }

  /** `x >= FLT_EPSILON` bounds `1 / x` by `1 / FLT_EPSILON`. */
  lemma RecipBound(x: real)
    requires FltEpsilon <= x
    ensures 0.0 < 1.0 / x <= 1.0 / FltEpsilon
  {
    assert (1.0 / x) * x == 1.0;
    assert (1.0 / x) * FltEpsilon <= (1.0 / x) * x;
  }

  /** One axis of `inv_dir`: finite, of magnitude at most `1 / FLT_EPSILON = 2^23`,
      whenever the direction component is not NaN. */
  function InvDir(d: Fl): (r: Fl)
    ensures !d.NaN? ==> r.Finite? && -1.0 / FltEpsilon <= r.r <= 1.0 / FltEpsilon
  {
    var s := SafeDivisor(d);
    if s.Finite? then
      if s.r >= FltEpsilon then RecipBound(s.r); Recip(s)
      else RecipBound(-s.r); assert 1.0 / s.r == -(1.0 / -s.r); Recip(s)
    else Recip(s)
  }

  /** `octant = (d < 0)`, stored into a float field. */
  function Octant(d: Fl): Fl
  {
    if Lt(d, Finite(0.0)) then Finite(1.0) else Finite(0.0)
  }

  /** The slot after an allocation (`RD::main`): the ray's origin, direction and `tmax`
      are copied in, traversal restarts at node 1 unfinished, the ray-box constants are
      derived from the direction, and `hit` is cleared. `hit_trig_idx`, `u` and `v` are
      left as they were. */
  function Allocated(rs: RayState, origin: V3, dir: V3, tmax: Fl): (r: RayState)
    ensures r.origin == origin && r.dir == dir && r.tmax == tmax
    ensures r.leftNodeIdx == 1 && !r.finished && !r.hit
    ensures r.hitTrigIdx == rs.hitTrigIdx && r.u == rs.u && r.v == rs.v
    ensures r.octant.x == Finite(1.0) <==> Lt(dir.x, Finite(0.0))
    ensures r.octant.y == Finite(1.0) <==> Lt(dir.y, Finite(0.0))
    ensures r.octant.z == Finite(1.0) <==> Lt(dir.z, Finite(0.0))
    ensures !dir.x.NaN? ==> r.invDir.x.Finite?
    ensures !dir.y.NaN? ==> r.invDir.y.Finite?
    ensures !dir.z.NaN? ==> r.invDir.z.Finite?
  {
    var inv := V3(InvDir(dir.x), InvDir(dir.y), InvDir(dir.z));
    rs.(origin := origin, dir := dir, tmax := tmax,
        leftNodeIdx := 1, finished := false,
        octant := V3(Octant(dir.x), Octant(dir.y), Octant(dir.z)),
        invDir := inv,
        scaledOrigin := V3(Mul(Neg(origin.x), inv.x), Mul(Neg(origin.y), inv.y), Mul(Neg(origin.z), inv.z)),
        hit := false)
  }

  /** The request side of one cycle: what arrives on RD's input ports. */
  datatype Request = Request(
    allocValid: bool, origin: V3, dir: V3, tmax: Fl,
    releaseValid: bool, releaseRayId: int,
    resumeValid: bool, resumeRayId: int,
    mReady: bool)

  class Rd {
    const maxWorkingRays: nat
    const freeFifo: Fifos.RdPostFifo
    const workingFifo: Fifos.RdPostFifo
    const rayStates: array<RayState>

    ghost predicate Valid()
      reads this, freeFifo, workingFifo, freeFifo.rayId, workingFifo.rayId
    {
      freeFifo != workingFifo && freeFifo.rayId != workingFifo.rayId
      && freeFifo.Valid() && workingFifo.Valid()
      && freeFifo.maxDepth == workingFifo.maxDepth == maxWorkingRays == rayStates.Length
      && freeFifo.fillWhenReset && !workingFifo.fillWhenReset
      && SlotIds(freeFifo.Contents(), maxWorkingRays)
    }

    constructor(maxWorkingRays: nat, rayStates: array<RayState>)
      requires rayStates.Length == maxWorkingRays
      ensures Valid() && this.maxWorkingRays == maxWorkingRays && this.rayStates == rayStates
      ensures freeFifo.Contents() == [] && workingFifo.Contents() == []
      ensures fresh(freeFifo) && fresh(workingFifo) && fresh(freeFifo.rayId) && fresh(workingFifo.rayId)
    {
      this.maxWorkingRays, this.rayStates := maxWorkingRays, rayStates;
      freeFifo := new Fifos.RdPostFifo(maxWorkingRays, true);
      workingFifo := new Fifos.RdPostFifo(maxWorkingRays, false);
    }

    /** No slot index is queued twice in the free queue. */
    ghost predicate FreeDistinct()
      reads this, freeFifo, workingFifo, freeFifo.rayId, workingFifo.rayId
      requires Valid()
    {
      Distinct(freeFifo.Contents())
    }

    /** `update_s_alloc_ready`: a free slot exists and no resume competes for the
        working queue this cycle. */
    function SAllocReady(resumeValid: bool): (r: bool)
      reads this, freeFifo, workingFifo, freeFifo.rayId, workingFifo.rayId
      requires Valid()
      ensures r <==> |freeFifo.Contents()| > 0 && !resumeValid
    {
      freeFifo.MValid() && !resumeValid
    }

    /** `update_s_alloc_ray_id`: the slot offered is the head of the free queue, a
        valid slot index. */
    function SAllocRayId(): (r: int)
      reads this, freeFifo, workingFifo, freeFifo.rayId, workingFifo.rayId
      requires Valid()
      ensures |freeFifo.Contents()| > 0 ==> r == freeFifo.Contents()[0] && 0 <= r < maxWorkingRays
    {
      freeFifo.MRayId()
    }

    /** `update_m_valid` and `update_m_ray_id`: the working queue's head is offered to TRV. */
    function MRayId(): (r: (bool, int))
      reads this, freeFifo, workingFifo, freeFifo.rayId, workingFifo.rayId
      requires Valid()
      ensures r.0 <==> |workingFifo.Contents()| > 0
      ensures r.0 ==> r.1 == workingFifo.Contents()[0]
    {
      (workingFifo.MValid(), workingFifo.MRayId())
    }

    /** `update_wf_s_valid` and `update_wf_s_ray_id`: a resume, or else an allocation,
        is offered to the working queue, and the two never compete because an
        allocation is refused while a resume is offered. */
    function WorkingPush(req: Request): (r: (bool, int))
      reads this, freeFifo, workingFifo, freeFifo.rayId, workingFifo.rayId
      requires Valid()
      ensures r.0 <==> req.resumeValid || (req.allocValid && SAllocReady(req.resumeValid))
      ensures req.resumeValid ==> r.1 == req.resumeRayId
      ensures !req.resumeValid && r.0 ==> r.1 == freeFifo.Contents()[0]
      ensures !(req.resumeValid && SAllocReady(req.resumeValid))
    {
      (req.resumeValid || (req.allocValid && SAllocReady(req.resumeValid)),
       if req.resumeValid then req.resumeRayId else SAllocRayId())
    }

    /** One clock edge of RD and its two queues. Under reset the queues reset and no slot
        is written. Otherwise an allocation handshake initialises slot `id`, the head
        of the free queue, and moves `id` from the free queue to the working queue; a
        resume is queued instead when one is offered; a release joins the free queue
        when it has room and is dropped otherwise; the working queue's head leaves when
        TRV takes it. */
    method Tick(srstn: bool, req: Request)
      requires Valid()
      requires srstn && req.releaseValid ==> 0 <= req.releaseRayId < maxWorkingRays
      modifies freeFifo, workingFifo, freeFifo.rayId, workingFifo.rayId, rayStates
      ensures Valid()
      ensures !srstn ==> FreeDistinct()
      ensures srstn && old(FreeDistinct()) && old(req.allocValid && SAllocReady(req.resumeValid)) ==>
        (old(SAllocRayId()) in freeFifo.Contents()
         <==> req.releaseValid && old(freeFifo.SReady()) && req.releaseRayId == old(SAllocRayId()))
      ensures srstn && old(FreeDistinct())
        && (req.releaseValid && old(freeFifo.SReady()) ==>
              req.releaseRayId !in old(if req.allocValid && SAllocReady(req.resumeValid)
                                       then freeFifo.Contents()[1..] else freeFifo.Contents()))
        ==> FreeDistinct()
      ensures !srstn ==>
        freeFifo.Contents() == seq(maxWorkingRays, i => i) && workingFifo.Contents() == []
        && rayStates[..] == old(rayStates[..])
      ensures srstn ==>
        var alloc := old(req.allocValid && SAllocReady(req.resumeValid));
        var id := old(SAllocRayId());
        var wpush := old(WorkingPush(req));
        freeFifo.Contents()
          == Ring.Step(old(freeFifo.Contents()), req.releaseValid && old(freeFifo.SReady()), req.releaseRayId, alloc)
        && workingFifo.Contents()
          == Ring.Step(old(workingFifo.Contents()), wpush.0 && old(workingFifo.SReady()), wpush.1,
                       old(workingFifo.MValid()) && req.mReady)
        && rayStates[..] == (if alloc then old(rayStates[..])[id := Allocated(old(rayStates[id]), req.origin, req.dir, req.tmax)]
                             else old(rayStates[..]))
    {
      if srstn {
        var alloc := req.allocValid && SAllocReady(req.resumeValid);
        var id := SAllocRayId();
        StepQueues(req);
        if alloc {
          Allocate(id, req);
        }
      } else {
        Reset();
      }
    }

    /** The reset edge: the free queue holds every slot id once, the working queue is
        empty and no slot is written. */
    method Reset()
      requires Valid()
      modifies freeFifo, workingFifo, freeFifo.rayId, workingFifo.rayId
      ensures Valid() && FreeDistinct()
      ensures freeFifo.Contents() == seq(maxWorkingRays, i => i) && workingFifo.Contents() == []
    {
      freeFifo.Tick(false, false, 0, false);
      workingFifo.Tick(false, false, 0, false);
      IotaBelow(freeFifo.Contents(), maxWorkingRays);
      IotaDistinct(maxWorkingRays);
    }

    /** The allocation handshake's write: slot `id` of `ray_states` is initialised from
        the request and no other slot changes. */
    method Allocate(id: int, req: Request)
      requires 0 <= id < rayStates.Length
      modifies rayStates
      ensures rayStates[..] == old(rayStates[..])[id := Allocated(old(rayStates[id]), req.origin, req.dir, req.tmax)]
    {
      rayStates[id] := Allocated(rayStates[id], req.origin, req.dir, req.tmax);
    }

    /** The two queues on an edge out of reset: the allocated slot moves from the free
        queue to the working queue, or a resumed id joins it instead; a release joins
        the free queue when it has room; TRV takes the working queue's head. */
    method StepQueues(req: Request)
      requires Valid()
      requires req.releaseValid ==> 0 <= req.releaseRayId < maxWorkingRays
      modifies freeFifo, workingFifo, freeFifo.rayId, workingFifo.rayId
      ensures Valid()
      ensures old(FreeDistinct()) && old(req.allocValid && SAllocReady(req.resumeValid)) ==>
        (old(SAllocRayId()) in freeFifo.Contents()
         <==> req.releaseValid && old(freeFifo.SReady()) && req.releaseRayId == old(SAllocRayId()))
      ensures old(FreeDistinct())
        && (req.releaseValid && old(freeFifo.SReady()) ==>
              req.releaseRayId !in old(if req.allocValid && SAllocReady(req.resumeValid)
                                       then freeFifo.Contents()[1..] else freeFifo.Contents()))
        ==> FreeDistinct()
      ensures
        var wpush := old(WorkingPush(req));
        freeFifo.Contents()
          == Ring.Step(old(freeFifo.Contents()), req.releaseValid && old(freeFifo.SReady()), req.releaseRayId,
                       old(req.allocValid && SAllocReady(req.resumeValid)))
        && workingFifo.Contents()
          == Ring.Step(old(workingFifo.Contents()), wpush.0 && old(workingFifo.SReady()), wpush.1,
                       old(workingFifo.MValid()) && req.mReady)
    {
      var alloc := req.allocValid && SAllocReady(req.resumeValid);
      var wpush := WorkingPush(req);
      ghost var free := freeFifo.Contents();
      ghost var freePush := req.releaseValid && freeFifo.SReady();
      freeFifo.Tick(true, req.releaseValid, req.releaseRayId, alloc);
      workingFifo.Tick(true, wpush.0, wpush.1, req.mReady);
      assert freeFifo.Contents() == Ring.Step(free, freePush, req.releaseRayId, alloc);
      FreeQueueStep(free, freePush, req.releaseRayId, alloc, maxWorkingRays);
    }
  }

  /** What one edge does to the free queue `q`, gathered for `Rd.Tick`: it keeps holding
      slot indices only, an allocated head stays queued only when released again in the
      same edge, and it stays repeat-free when the released id is not among the kept
      entries. */
  lemma FreeQueueStep(q: seq<int>, push: bool, x: int, pop: bool, n: int)
    requires pop ==> |q| > 0
    requires SlotIds(q, n)
    requires push ==> 0 <= x < n
    ensures SlotIds(Ring.Step(q, push, x, pop), n)
    ensures pop && Distinct(q) ==> (q[0] in Ring.Step(q, push, x, pop) <==> push && x == q[0])
    ensures Distinct(q) && (push ==> x !in (if pop then q[1..] else q)) ==> Distinct(Ring.Step(q, push, x, pop))
  {
    StepBelow(q, push, x, pop, n);
    if pop && Distinct(q) {
      AllocLeaves(q, push, x);
    }
    if Distinct(q) && (push ==> x !in (if pop then q[1..] else q)) {
      StepDistinct(q, push, x, pop);
    }
  }

  /** Every entry of `q` is a slot index below `n`. */
  predicate SlotIds(q: seq<int>, n: int)
  {
    forall k :: 0 <= k < |q| ==> 0 <= q[k] < n
  }

  /** The free queue as a reset leaves it holds slot indices only. */
  lemma IotaBelow(q: seq<int>, n: nat)
    requires q == seq(n, i => i)
    ensures SlotIds(q, n)
  {
  }

  /** The free queue holds slot indices only: a step that pushes a slot index keeps it so. */
  lemma StepBelow(q: seq<int>, push: bool, x: int, pop: bool, n: int)
    requires pop ==> |q| > 0
    requires SlotIds(q, n)
    requires push ==> 0 <= x < n
    ensures SlotIds(Ring.Step(q, push, x, pop), n)
  {
    var q' := Ring.Step(q, push, x, pop);
    forall k | 0 <= k < |q'|
      ensures 0 <= q'[k] < n
    {
      if pop && k < |q| - 1 {
        assert q'[k] == q[k + 1];
      } else if !pop && k < |q| {
        assert q'[k] == q[k];
      }
    }
  }

  /** No entry of `q` occurs twice. */
  predicate Distinct(q: seq<int>)
  {
    forall i, j :: 0 <= i < j < |q| ==> q[i] != q[j]
  }

  /** The free queue as a reset leaves it holds each slot index once. */
  lemma IotaDistinct(n: nat)
    ensures Distinct(seq(n, i => i))
  {
  }

  /** A step keeps the free queue free of repeats when the id pushed is not among the
      entries that stay. */
  lemma StepDistinct(q: seq<int>, push: bool, x: int, pop: bool)
    requires pop ==> |q| > 0
    requires Distinct(q)
    requires push ==> x !in (if pop then q[1..] else q)
    ensures Distinct(Ring.Step(q, push, x, pop))
  {
    var kept := if pop then q[1..] else q;
    assert Distinct(kept) by {
      forall i, j | 0 <= i < j < |kept|
        ensures kept[i] != kept[j]
      {
        if pop {
          assert kept[i] == q[i + 1] && kept[j] == q[j + 1];
        }
      }
    }
    var q' := Ring.Step(q, push, x, pop);
    assert q' == kept + (if push then [x] else []);
    forall i, j | 0 <= i < j < |q'|
      ensures q'[i] != q'[j]
    {
      if j < |kept| {
        assert q'[i] == kept[i] && q'[j] == kept[j];
      } else {
        assert q'[i] == kept[i] && q'[j] == x;
      }
    }
  }

  /** The slot an allocation takes leaves the free queue: after the pop it is queued
      again exactly when the same edge releases it. */
  lemma AllocLeaves(q: seq<int>, push: bool, x: int)
    requires |q| > 0 && Distinct(q)
    ensures q[0] in Ring.Step(q, push, x, true) <==> push && x == q[0]
  {
    var q' := Ring.Step(q, push, x, true);
    assert forall k :: 0 <= k < |q| - 1 ==> q[1..][k] == q[k + 1];
    assert q' == q[1..] + (if push then [x] else []);
  }
}
