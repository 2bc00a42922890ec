/** `TRV_ARBITRATOR`: the combinational fixed-priority merge in front of TRV. Rays
    resumed from the TRV queue (`s_tf_*`) win over fresh rays from RD (`s_rd_*`). */
module TrvArbitrator {

  /** The arbiter's outputs. `mRayId` is a signal: when nothing is granted the process
      does not write it and it keeps its previous value. */
  datatype Grant = Grant(tfReady: bool, rdReady: bool, mValid: bool, mRayId: int)

  /** `TRV_ARBITRATOR::main`. `mReady` is in the process's sensitivity list but is never
      read; `prevRayId` is the value `m_ray_id` held before. */
  function Arbitrate(tfValid: bool, tfRayId: int, rdValid: bool, rdRayId: int, mReady: bool,
                     prevRayId: int): (g: Grant)
    // a side is granted only when it offers, and RD only when the TRV queue does not
    ensures g.tfReady ==> tfValid
    ensures g.rdReady ==> rdValid && !tfValid
    // work-conserving: something is granted whenever something is offered
    ensures (tfValid || rdValid) ==> g.tfReady || g.rdReady
    // the output is valid exactly when a side is granted, and carries that side's id
    ensures g.mValid <==> g.tfReady || g.rdReady
    ensures g.tfReady ==> g.mRayId == tfRayId
    ensures g.rdReady ==> g.mRayId == rdRayId
    ensures !g.mValid ==> g.mRayId == prevRayId
  {
    if tfValid then Grant(true, false, true, tfRayId)
    else if rdValid then Grant(false, true, true, rdRayId)
    else Grant(false, false, false, prevRayId)
  }

  /** The two readies are never raised together, so at most one ray moves per cycle. */
  lemma MutualExclusion(tfValid: bool, tfRayId: int, rdValid: bool, rdRayId: int, mReady: bool,
                        prevRayId: int)
    ensures var g := Arbitrate(tfValid, tfRayId, rdValid, rdRayId, mReady, prevRayId);
            !(g.tfReady && g.rdReady) && g.mValid == (tfValid || rdValid)
  {
  }

  /** The grant does not depend on the downstream `m_ready`: an offered ray is taken
      from its queue whether or not TRV accepts it in that cycle. */
  lemma IgnoresMReady(tfValid: bool, tfRayId: int, rdValid: bool, rdRayId: int, prevRayId: int)
    ensures Arbitrate(tfValid, tfRayId, rdValid, rdRayId, true, prevRayId)
            == Arbitrate(tfValid, tfRayId, rdValid, rdRayId, false, prevRayId)
  {
  }
}
