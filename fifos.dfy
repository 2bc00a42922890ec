/** The three handshake queues between the pipeline stages. Each is a ring of
    `MaxDepth + 1` registers with `front`/`back` indices; `Tick` is one rising clock
    edge, computed from the registers as they were before the edge, and the `update_*`
    outputs are functions of the registers. Every register starts at 0. */
module Fifos {
  import Ring

  /** `RD_POST_FIFO<MaxDepth, FillWhenReset>`: ray ids, pushed on `s_valid && s_ready`,
      popped on `m_valid && m_ready`. With `FillWhenReset` a reset fills it with every
      id `0 .. MaxDepth - 1` (the free-slot list of RD). */
  class RdPostFifo {
    const maxDepth: nat
    const fillWhenReset: bool
    const rayId: array<int>
    var front: int
    var back: int

    ghost predicate Valid()
      reads this, rayId
    {
      rayId.Length == maxDepth + 1 && 0 <= front <= maxDepth && 0 <= back <= maxDepth
    }

    /** The ids held, oldest first. */
    ghost function Contents(): seq<int>
      reads this, rayId
      requires Valid()
    {
      Ring.Contents(rayId[..], front, back, maxDepth)
    }

    constructor(maxDepth: nat, fillWhenReset: bool)
      ensures this.maxDepth == maxDepth && this.fillWhenReset == fillWhenReset
      ensures Valid() && fresh(rayId) && Contents() == []
    {
      this.maxDepth, this.fillWhenReset := maxDepth, fillWhenReset;
      rayId := new int[maxDepth + 1](_ => 0);
      front, back := 0, 0;
    }

    /** `update_s_ready`: there is room for one more id. */
    function SReady(): (r: bool)
      reads this, rayId
      requires Valid()
      ensures r <==> |Contents()| < maxDepth
    {
      Ring.NotFull(front, back, maxDepth)
    }

    /** `update_m_valid`: at least one id is held. */
    function MValid(): (r: bool)
      reads this, rayId
      requires Valid()
      ensures r <==> |Contents()| > 0
    {
      Ring.NotEmpty(front, back, maxDepth)
    }

    /** `update_m_ray_id`: the oldest id, when there is one. */
    function MRayId(): (r: int)
      reads this, rayId
      requires Valid()
      ensures |Contents()| > 0 ==> r == Contents()[0]
    {
      if front != back then Ring.HeadAtFront(rayId[..], front, back, maxDepth); rayId[front]
      else rayId[front]
    }

    /** One clock edge. A reset empties the queue, or fills it with `0 .. MaxDepth - 1`;
        otherwise the head leaves on a pop and `sRayId` joins on a push, both possibly
        in the same edge, and only the slot written by the push changes. */
    method Tick(srstn: bool, sValid: bool, sRayId: int, mReady: bool)
      requires Valid()
      modifies this, rayId
      ensures Valid()
      ensures !srstn && fillWhenReset ==>
        front == 0 && back == maxDepth && Contents() == seq(maxDepth, i => i)
        && rayId[maxDepth] == old(rayId[maxDepth])
      ensures !srstn && !fillWhenReset ==>
        front == 0 && back == 0 && Contents() == [] && rayId[..] == old(rayId[..])
      ensures srstn ==>
        var push, pop := old(sValid && SReady()), old(MValid() && mReady);
        Contents() == Ring.Step(old(Contents()), push, sRayId, pop)
        && rayId[..] == (if push then old(rayId[..])[old(back) := sRayId] else old(rayId[..]))
        && front == (if pop then Ring.Next(old(front), maxDepth) else old(front))
        && back == (if push then Ring.Next(old(back), maxDepth) else old(back))
    {
      if !srstn {
        if fillWhenReset {
          for i := 0 to maxDepth
            invariant forall j :: 0 <= j < i ==> rayId[j] == j
            invariant forall j :: i <= j <= maxDepth ==> rayId[j] == old(rayId[j])
          {
            rayId[i] := i;
          }
          front, back := 0, maxDepth;
          Ring.FilledContents(rayId[..], maxDepth);
        } else {
          front, back := 0, 0;
        }
      } else {
        var push, pop := sValid && SReady(), MValid() && mReady;
        Ring.StepRefines(rayId[..], front, back, maxDepth, push, sRayId, pop);
        if push {
          rayId[back] := sRayId;
        }
        front, back :=
          if pop then Ring.Next(front, maxDepth) else front,
          if push then Ring.Next(back, maxDepth) else back;
      }
    }
  }

  /** What `LIST_FIFO` holds per entry; the three parallel register arrays read together. */
  datatype ListEntry = ListEntry(rayId: int, nodeIdx: int, isLastNode: bool)

  /** `LIST_FIFO<MaxDepth>`: leaf requests `(ray_id, node_idx, is_last_node)` kept in
      three parallel arrays indexed by the same `front`/`back`. */
  class ListFifo {
    const maxDepth: nat
    const rayId: array<int>
    const nodeIdx: array<int>
    const isLastNode: array<bool>
    var front: int
    var back: int

    ghost predicate Valid()
      reads this, rayId, nodeIdx, isLastNode
    {
      rayId != nodeIdx && rayId.Length == nodeIdx.Length == isLastNode.Length == maxDepth + 1
      && 0 <= front <= maxDepth && 0 <= back <= maxDepth
    }

    /** Slot `k` of each array, read together. */
    ghost function Entries(): (r: seq<ListEntry>)
      reads rayId, nodeIdx, isLastNode
      requires rayId.Length == nodeIdx.Length == isLastNode.Length == maxDepth + 1
      ensures |r| == maxDepth + 1
    {
      seq(maxDepth + 1, k requires 0 <= k <= maxDepth reads rayId, nodeIdx, isLastNode =>
            ListEntry(rayId[k], nodeIdx[k], isLastNode[k]))
    }

    /** The entries held, oldest first. */
    ghost function Contents(): seq<ListEntry>
      reads this, rayId, nodeIdx, isLastNode
      requires Valid()
    {
      Ring.Contents(Entries(), front, back, maxDepth)
    }

    constructor(maxDepth: nat)
      ensures this.maxDepth == maxDepth && Valid() && Contents() == []
      ensures fresh(rayId) && fresh(nodeIdx) && fresh(isLastNode)
    {
      this.maxDepth := maxDepth;
      rayId := new int[maxDepth + 1](_ => 0);
      nodeIdx := new int[maxDepth + 1](_ => 0);
      isLastNode := new bool[maxDepth + 1](_ => false);
      front, back := 0, 0;
    }

    /** `update_s_ready`: there is room for one more entry. */
    function SReady(): (r: bool)
      reads this, rayId, nodeIdx, isLastNode
      requires Valid()
      ensures r <==> |Contents()| < maxDepth
    {
      Ring.NotFull(front, back, maxDepth)
    }

    /** `update_m_valid`: at least one entry is held. */
    function MValid(): (r: bool)
      reads this, rayId, nodeIdx, isLastNode
      requires Valid()
      ensures r <==> |Contents()| > 0
    {
      Ring.NotEmpty(front, back, maxDepth)
    }

    /** `update_m_ray_id`, `update_m_node_idx` and `update_m_is_last_node`: all three
        read the `front` slot, so together they are the oldest entry. */
    function MEntry(): (r: ListEntry)
      reads this, rayId, nodeIdx, isLastNode
      requires Valid()
      ensures |Contents()| > 0 ==> r == Contents()[0]
    {
      var e := ListEntry(rayId[front], nodeIdx[front], isLastNode[front]);
      if front != back then Ring.HeadAtFront(Entries(), front, back, maxDepth); e
      else e
    }

    /** Writes the three fields of `e` into slot `i` of the three arrays. */
    method WriteSlot(i: int, e: ListEntry)
      requires Valid() && 0 <= i <= maxDepth
      modifies rayId, nodeIdx, isLastNode
      ensures Valid() && Entries() == old(Entries())[i := e]
    {
      rayId[i] := e.rayId;
      nodeIdx[i] := e.nodeIdx;
      isLastNode[i] := e.isLastNode;
    }

    /** One clock edge: a reset empties the queue; otherwise the head leaves on a pop
        and the triple joins on a push, its three fields written to the same slot. */
    method Tick(srstn: bool, sValid: bool, sRayId: int, sNodeIdx: int, sIsLastNode: bool, mReady: bool)
      requires Valid()
      modifies this, rayId, nodeIdx, isLastNode
      ensures Valid()
      ensures !srstn ==> front == 0 && back == 0 && Contents() == [] && Entries() == old(Entries())
      ensures srstn ==>
        var push, pop := old(sValid && SReady()), old(MValid() && mReady);
        var e := ListEntry(sRayId, sNodeIdx, sIsLastNode);
        Contents() == Ring.Step(old(Contents()), push, e, pop)
        && Entries() == (if push then old(Entries())[old(back) := e] else old(Entries()))
        && front == (if pop then Ring.Next(old(front), maxDepth) else old(front))
        && back == (if push then Ring.Next(old(back), maxDepth) else old(back))
    {
      if !srstn {
        front, back := 0, 0;
      } else {
        var push, pop := sValid && SReady(), MValid() && mReady;
        var e := ListEntry(sRayId, sNodeIdx, sIsLastNode);
        ghost var es := Entries();
        Ring.StepRefines(es, front, back, maxDepth, push, e, pop);
        var front', back' := if pop then Ring.Next(front, maxDepth) else front,
                             if push then Ring.Next(back, maxDepth) else back;
        if push {
          WriteSlot(back, e);
        }
        front, back := front', back';
        assert Entries() == if push then es[old(back) := e] else es;
      }
    }
  }

  /** `TRV_FIFO<MAX_DEPTH>`: ray ids resumed by IST. Its push has no ready check, so a
      push into a full queue that is not popped in the same edge loses every entry. */
  class TrvFifo {
    const maxDepth: nat
    const rayId: array<int>
    var front: int
    var back: int

    ghost predicate Valid()
      reads this, rayId
    {
      rayId.Length == maxDepth + 1 && 0 <= front <= maxDepth && 0 <= back <= maxDepth
    }

    /** The ids held, oldest first. */
    ghost function Contents(): seq<int>
      reads this, rayId
      requires Valid()
    {
      Ring.Contents(rayId[..], front, back, maxDepth)
    }

    constructor(maxDepth: nat)
      ensures this.maxDepth == maxDepth && Valid() && fresh(rayId) && Contents() == []
    {
      this.maxDepth := maxDepth;
      rayId := new int[maxDepth + 1](_ => 0);
      front, back := 0, 0;
    }

    /** `update_m_valid`: at least one id is held. */
    function MValid(): (r: bool)
      reads this, rayId
      requires Valid()
      ensures r <==> |Contents()| > 0
    {
      Ring.NotEmpty(front, back, maxDepth)
    }

    /** `update_m_ray_id`: the oldest id, when there is one. */
    function MRayId(): (r: int)
      reads this, rayId
      requires Valid()
      ensures |Contents()| > 0 ==> r == Contents()[0]
    {
      if front != back then Ring.HeadAtFront(rayId[..], front, back, maxDepth); rayId[front]
      else rayId[front]
    }

    /** A push this edge would wrap `back` onto `front`: the queue is full and its head
        does not leave in the same edge. */
    predicate Overflows(sValid: bool, mReady: bool)
      reads this, rayId
      requires Valid()
    {
      sValid && !Ring.NotFull(front, back, maxDepth) && !(MValid() && mReady)
    }

    /** One clock edge: a reset empties the queue; otherwise every `sValid` pushes. The
        queue then moves as a sequence queue, except on an overflow, after which it
        reads as empty. */
    method Tick(srstn: bool, sValid: bool, sRayId: int, mReady: bool)
      requires Valid()
      modifies this, rayId
      ensures Valid()
      ensures !srstn ==> front == 0 && back == 0 && Contents() == [] && rayId[..] == old(rayId[..])
      ensures srstn && old(Overflows(sValid, mReady)) ==> Contents() == []
      ensures srstn && !old(Overflows(sValid, mReady)) ==>
        Contents() == Ring.Step(old(Contents()), sValid, sRayId, old(MValid() && mReady))
      ensures srstn ==>
        rayId[..] == (if sValid then old(rayId[..])[old(back) := sRayId] else old(rayId[..]))
        && front == (if old(MValid() && mReady) then Ring.Next(old(front), maxDepth) else old(front))
        && back == (if sValid then Ring.Next(old(back), maxDepth) else old(back))
    {
      if !srstn {
        front, back := 0, 0;
      } else {
        var pop := MValid() && mReady;
        if Overflows(sValid, mReady) {
          Ring.PushWhenFullEmpties(rayId[..], front, back, maxDepth, sRayId);
        } else {
          Ring.StepRefines(rayId[..], front, back, maxDepth, sValid, sRayId, pop);
        }
        if sValid {
          rayId[back] := sRayId;
        }
        front, back :=
          if pop then Ring.Next(front, maxDepth) else front,
          if sValid then Ring.Next(back, maxDepth) else back;
      }
    }
  }
}
