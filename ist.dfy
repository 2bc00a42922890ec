/** `IST`: the ray-triangle stage. Every clock edge it tests the triangle
    `s_ist_trig_idx` against ray `s_ray_id` and, when the hit is valid and no farther
    than the ray's current `tmax`, records it in that ray's slot of `ray_states`.

    The Möller–Trumbore arithmetic (the triangle load, the edge and normal products,
    the reciprocal determinant) is floating-point geometry: its three results `u`, `v`
    and `t` enter as a `Candidate`. */
module Ist {
  import opened Float32
  import opened RayStates

  /** What the intersection arithmetic yields for one ray and one triangle. */
  datatype Candidate = Candidate(u: Fl, v: Fl, t: Fl)

  /** The barycentric test and the "in front of the origin" test: `u >= 0`, `v >= 0`,
      `u + v <= 1` and `0 < t`. */
  predicate InFront(c: Candidate)
  {
    Le(Finite(0.0), c.u) && Le(Finite(0.0), c.v) && Le(Add(c.u, c.v), Finite(1.0)) && Lt(Finite(0.0), c.t)
  }

  /** The acceptance test of `IST::main`: a valid hit no farther than `tmax`. */
  predicate Accepts(c: Candidate, tmax: Fl)
  {
    InFront(c) && Le(c.t, tmax)
  }

  /** The slot after testing triangle `trigIdx`: an accepted hit becomes the ray's
      closest hit (`tmax := t`, `hit`, `hit_trig_idx`, `u`, `v`); anything else leaves
      the slot as it was. */
  function Intersect(rs: RayState, trigIdx: int, c: Candidate): (r: RayState)
    ensures Accepts(c, rs.tmax) ==>
      r.tmax == c.t && r.hit && r.hitTrigIdx == trigIdx && r.u == c.u && r.v == c.v
    ensures !Accepts(c, rs.tmax) ==> r == rs
    ensures r.origin == rs.origin && r.dir == rs.dir && r.leftNodeIdx == rs.leftNodeIdx
    ensures r.finished == rs.finished && r.octant == rs.octant && r.invDir == rs.invDir
    ensures r.scaledOrigin == rs.scaledOrigin
  {
    if Accepts(c, rs.tmax) then rs.(tmax := c.t, hit := true, hitTrigIdx := trigIdx, u := c.u, v := c.v)
    else rs
  }

  /** `update_m_valid`: a ray is handed on after its last triangle. */
  predicate MValid(sValid: bool, sIsLastTrig: bool) { sValid && sIsLastTrig }

  /** `tmax` never grows, and `hit` never falls. */
  lemma TmaxNonIncreasing(rs: RayState, trigIdx: int, c: Candidate)
    ensures var r := Intersect(rs, trigIdx, c);
            (r.tmax == rs.tmax || Le(r.tmax, rs.tmax)) && (rs.hit ==> r.hit)
  {
  }

  /** A NaN or non-positive `t`, and a NaN `tmax`, are never accepted. */
  lemma RejectsNaN(rs: RayState, trigIdx: int, c: Candidate)
    requires c.t.NaN? || rs.tmax.NaN? || c.u.NaN? || c.v.NaN? || !Lt(Finite(0.0), c.t)
    ensures Intersect(rs, trigIdx, c) == rs
  {
  }

  /** `main` runs every cycle whether or not `s_valid` holds. A repeated test of the
      same triangle changes nothing more, because an accepted `t` equals the new `tmax`
      and passes again with the same values. This covers repeats only: on the first
      idle edge after a range, LIST's `m_trig_idx` has moved on to the index after
      the range, so a different triangle is tested (see `Ist.Ist.Tick` under Left out). */
  lemma Idempotent(rs: RayState, trigIdx: int, c: Candidate)
    ensures Intersect(Intersect(rs, trigIdx, c), trigIdx, c) == Intersect(rs, trigIdx, c)
  {
    if Accepts(c, rs.tmax) {
      var r := Intersect(rs, trigIdx, c);
      assert Le(c.t, r.tmax);
    }
  }

  /** The slot after the triangles of `cs` are intersected in order. */
  function Run(rs: RayState, cs: seq<(int, Candidate)>): RayState
    decreases |cs|
  {
    if cs == [] then rs else Run(Intersect(rs, cs[0].0, cs[0].1), cs[1..])
  }

  /** After a stream of tests, `tmax` is no farther than the starting `tmax` nor than
      any valid hit of the stream: the slot holds the closest hit. A hit recorded
      during the stream is one of the stream's triangles, with that triangle's `t`,
      `u` and `v`. */
  lemma {:induction false} ClosestHit(rs: RayState, cs: seq<(int, Candidate)>)
    requires !rs.tmax.NaN?
    ensures var r := Run(rs, cs);
            && !r.tmax.NaN?
            && Le(r.tmax, rs.tmax)
            && (forall k :: 0 <= k < |cs| && InFront(cs[k].1) ==> Le(r.tmax, cs[k].1.t))
            && (r != rs ==> exists k :: 0 <= k < |cs| && r.hit && r.hitTrigIdx == cs[k].0
                                       && r.tmax == cs[k].1.t && r.u == cs[k].1.u && r.v == cs[k].1.v)
    decreases |cs|
  {
    if cs != [] {
      var r1 := Intersect(rs, cs[0].0, cs[0].1);
      var tail := cs[1..];
      ClosestHit(r1, tail);
      var r := Run(r1, tail);
      assert r == Run(rs, cs);
      Float32.LeTransitive(r.tmax, r1.tmax, rs.tmax) by {
        if Accepts(cs[0].1, rs.tmax) { } else { assert r1 == rs; assert Le(rs.tmax, rs.tmax); }
      }
      forall k | 0 <= k < |cs| && InFront(cs[k].1)
        ensures Le(r.tmax, cs[k].1.t)
      {
        if k > 0 {
          assert tail[k - 1] == cs[k];
        } else if Accepts(cs[0].1, rs.tmax) {
          assert Le(r.tmax, r1.tmax);
        } else {
          Float32.LeTotalOnNumbers(cs[0].1.t, rs.tmax);
          Float32.LeTransitive(r.tmax, rs.tmax, cs[0].1.t);
        }
      }
      if r != rs {
        if r != r1 {
          var k :| 0 <= k < |tail| && r.hit && r.hitTrigIdx == tail[k].0
                   && r.tmax == tail[k].1.t && r.u == tail[k].1.u && r.v == tail[k].1.v;
          assert tail[k] == cs[k + 1];
        } else {
          assert Accepts(cs[0].1, rs.tmax);
        }
      }
    }
  }

  /** The stage's view of the shared slot memory. */
  class Ist {
    const rayStates: array<RayState>

    constructor(rayStates: array<RayState>)
      ensures this.rayStates == rayStates
    {
      this.rayStates := rayStates;
    }

    /** One rising clock edge of `IST::main`: slot `sRayId` moves as `Intersect` and no
        other slot is touched. There is no reset and no `s_valid` check. */
    method Tick(sRayId: int, sIstTrigIdx: int, c: Candidate)
      requires 0 <= sRayId < rayStates.Length
      modifies rayStates
      ensures rayStates[..] == old(rayStates[..])[sRayId := Intersect(old(rayStates[sRayId]), sIstTrigIdx, c)]
    {
      var rs := rayStates[sRayId];
      if Accepts(c, rs.tmax) {
        rayStates[sRayId] := rs.(tmax := c.t, hit := true, hitTrigIdx := sIstTrigIdx, u := c.u, v := c.v);
      }
    }
  }
}
