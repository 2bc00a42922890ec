/** `POST`: the single-slot output latch. It accepts a finished ray when empty,
    copies the ray's result fields out of `ray_states` into its output registers, and
    offers them downstream until they are taken. */
module Post {
  import opened Float32
  import opened RayStates
  import Ring

  /** The latched outputs `m_ray_id`, `m_hit`, `m_hit_trig_idx`, `m_t`, `m_u`, `m_v`. */
  datatype Result = Result(rayId: int, hit: bool, hitTrigIdx: int, t: Fl, u: Fl, v: Fl)

  /** The register `valid` and the latched outputs. */
  datatype Regs = Regs(valid: bool, out: Result)

  const Initial: Regs := Regs(false, Result(0, false, 0, Finite(0.0), Finite(0.0), Finite(0.0)))

  /** The result fields of slot `rayId`, `tmax` reported as `t`. */
  function Latch(rayId: int, rs: RayState): (r: Result)
    ensures r.rayId == rayId && r.hit == rs.hit && r.hitTrigIdx == rs.hitTrigIdx
    ensures r.t == rs.tmax && r.u == rs.u && r.v == rs.v
  {
    Result(rayId, rs.hit, rs.hitTrigIdx, rs.tmax, rs.u, rs.v)
  }

  /** `update_s_ready`: a ray is accepted only while nothing is held. */
  predicate SReady(p: Regs) { !p.valid }

  /** `update_m_valid`: the held result is offered only while `m_ready` is already up. */
  predicate MValid(p: Regs, mReady: bool) { mReady && p.valid }

  /** The results held, as a queue. */
  function Held(p: Regs): (q: seq<Result>)
    ensures |q| <= 1
  {
    if p.valid then [p.out] else []
  }

  /** `POST::main` out of reset; `slot` is `ray_states[s_ray_id]` before the edge. */
  function Next(p: Regs, sValid: bool, sRayId: int, slot: RayState, mReady: bool): Regs
  {
    var accepted := if sValid && SReady(p) then Regs(true, Latch(sRayId, slot)) else p;
    if MValid(p, mReady) && mReady then accepted.(valid := false) else accepted
  }

  /** Accepting and emitting exclude each other, since both read the same old `valid`. */
  lemma AcceptEmitExclusive(p: Regs, sValid: bool, mReady: bool)
    ensures !(sValid && SReady(p) && MValid(p, mReady) && mReady)
  {
  }

  /** POST is a queue of capacity one: the held result leaves on an emit and the
      accepted one joins on an accept, and the new result is the slot's result fields. */
  lemma OneSlotQueue(p: Regs, sValid: bool, sRayId: int, slot: RayState, mReady: bool)
    ensures var accept, emit := sValid && SReady(p), MValid(p, mReady) && mReady;
            Held(Next(p, sValid, sRayId, slot, mReady)) == Ring.Step(Held(p), accept, Latch(sRayId, slot), emit)
            && |Ring.Step(Held(p), accept, Latch(sRayId, slot), emit)| <= 1
  {
  }

  class Post {
    const rayStates: array<RayState>
    var regs: Regs

    /** Elaboration: every register at 0, nothing held. */
    constructor(rayStates: array<RayState>)
      ensures this.rayStates == rayStates && regs == Initial
    {
      this.rayStates := rayStates;
      regs := Initial;
    }

    /** One rising clock edge of `POST::main`. A reset clears `valid` and keeps the
        output registers; otherwise the registers move as `Next`, reading the
        accepted ray's slot. `ray_states` is only read. */
    method Tick(srstn: bool, sValid: bool, sRayId: int, mReady: bool)
      requires srstn && sValid && SReady(regs) ==> 0 <= sRayId < rayStates.Length
      modifies this
      ensures !srstn ==> regs == old(regs).(valid := false)
      ensures srstn && sValid && SReady(old(regs)) ==>
        regs == Next(old(regs), sValid, sRayId, rayStates[sRayId], mReady)
      ensures srstn && !(sValid && SReady(old(regs))) ==>
        regs == Next(old(regs), sValid, sRayId, Zero, mReady)
    {
      if !srstn {
        regs := regs.(valid := false);
      } else {
        var p := regs;
        if sValid && SReady(p) {
          regs := Regs(true, Latch(sRayId, rayStates[sRayId]));
        }
        if MValid(p, mReady) && mReady {
          regs := regs.(valid := false);
        }
      }
    }
  }
}
