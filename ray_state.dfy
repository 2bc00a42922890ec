/** `RayState`: the per-ray slot every pipeline stage reads and writes in place. The
    three-component float groups of the C++ struct are kept together as `V3`. */
module RayStates {
  import opened Float32

  datatype V3 = V3(x: Fl, y: Fl, z: Fl)

  datatype RayState = RayState(
    // ray data
    origin: V3, dir: V3, tmax: Fl,
    // for TRV
    leftNodeIdx: int, finished: bool,
    // for the ray-box test: octant holds 1.0 on a negative axis and 0.0 otherwise
    octant: V3, invDir: V3, scaledOrigin: V3,
    // for IST
    hit: bool, hitTrigIdx: int, u: Fl, v: Fl)

  /** A slot as the zero-filled memory holds it before its first allocation. */
  const Zero: RayState := RayState(
    V3(Finite(0.0), Finite(0.0), Finite(0.0)), V3(Finite(0.0), Finite(0.0), Finite(0.0)), Finite(0.0),
    0, false,
    V3(Finite(0.0), Finite(0.0), Finite(0.0)), V3(Finite(0.0), Finite(0.0), Finite(0.0)),
    V3(Finite(0.0), Finite(0.0), Finite(0.0)),
    false, 0, Finite(0.0), Finite(0.0))
}
