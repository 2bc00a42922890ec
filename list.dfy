/** `LIST<MAX_DEPTH>`: expands leaf requests into a stream of triangle indices. The
    receive side splits a request for one or two leaves (`s_node_a_idx`, and
    `s_node_b_idx` when `s_node_b_valid`) into one or two entries of its `LIST_FIFO`,
    tagging the last of them; the send side pops one entry at a time, loads the leaf's
    triangle range and sends its indices one per cycle, raising `m_is_last_trig` on
    the final index of the request.

    The registers of `recv` and `send` are updated together at the clock edge from the
    values before the edge, so each side's registers are a value (`Recv`, `Send`) and
    one edge is a function of them. */
module List {
  import opened Bvh
  import Ring
  import Fifos

  datatype SendPhase = SIdle | SLoad | SSend

  /** `recv_node_a`, `recv_ray_id`, `recv_node_b_idx` */
  datatype Recv = Recv(nodeA: bool, rayId: int, nodeBIdx: int)

  /** `send_state`, `m_ray_id`, `send_node_idx`, `send_is_last_node`, `m_trig_idx`,
      `send_last_trig_idx` */
  datatype Send = Send(state: SendPhase, rayId: int, nodeIdx: int, isLastNode: bool,
                       trigIdx: int, lastTrigIdx: int)

  /** The input ports of the receive side. */
  datatype Request = Request(sValid: bool, sRayId: int, sNodeAIdx: int, sNodeBValid: bool, sNodeBIdx: int)

  /** One beat of the output: `m_ray_id`, `m_trig_idx`, `m_is_last_trig`. */
  datatype Trig = Trig(rayId: int, trigIdx: int, isLast: bool)

  /** Every register at 0, as elaboration leaves them. */
  const InitialRecv: Recv := Recv(false, 0, 0)
  const InitialSend: Send := Send(SIdle, 0, 0, false, 0, 0)

  /** Node `i` is a leaf of the array: it holds at least one triangle. */
  predicate Leaf(nodes: seq<Node>, i: int)
  {
    0 <= i < |nodes| && nodes[i].IsLeaf()
  }

  /** Every entry of `q` names a leaf. */
  predicate AllLeaves(nodes: seq<Node>, q: seq<Fifos.ListEntry>)
  {
    q == [] || (Leaf(nodes, q[0].nodeIdx) && AllLeaves(nodes, q[1..]))
  }

  // ---------------------------------------------------------------- receive side

  /** `update_s_ready`: only in the node-a phase, and only when the queue has room. */
  predicate SReady(rc: Recv, lfReady: bool)
  {
    rc.nodeA && lfReady
  }

  /** `update_lf_s_valid`: the queue is offered an entry whenever node b is latched,
      and otherwise when a request is offered. */
  predicate Offer(rc: Recv, req: Request)
  {
    !rc.nodeA || req.sValid
  }

  /** `update_lf_s_ray_id`, `update_lf_s_node_idx` and `update_lf_s_is_last_node`: in
      the node-a phase the request's node a, tagged last when there is no node b; in
      the node-b phase the latched node b, always tagged last. */
  function Offered(rc: Recv, req: Request): (e: Fifos.ListEntry)
    ensures rc.nodeA ==> e == Fifos.ListEntry(req.sRayId, req.sNodeAIdx, !req.sNodeBValid)
    ensures !rc.nodeA ==> e == Fifos.ListEntry(rc.rayId, rc.nodeBIdx, true)
  {
    Fifos.ListEntry(if rc.nodeA then req.sRayId else rc.rayId,
                    if rc.nodeA then req.sNodeAIdx else rc.nodeBIdx,
                    !rc.nodeA || !req.sNodeBValid)
  }

  /** `LIST::recv` out of reset; `lfReady` is the queue's `s_ready`. */
  function RecvNext(rc: Recv, req: Request, lfReady: bool): Recv
  {
    if Offer(rc, req) && lfReady then
      if !rc.nodeA then rc.(nodeA := true)
      else if req.sNodeBValid then Recv(false, req.sRayId, req.sNodeBIdx)
      else rc
    else rc
  }

  /** The queue entries one accepted request stands for: node a, then node b when
      there is one, the last of them tagged. */
  function Split(req: Request): (r: seq<Fifos.ListEntry>)
    ensures 1 <= |r| <= 2 && r[0].nodeIdx == req.sNodeAIdx
    ensures |r| == 2 <==> req.sNodeBValid
    ensures |r| == 2 ==> r[1].nodeIdx == req.sNodeBIdx
    ensures forall k :: 0 <= k < |r| ==> r[k].rayId == req.sRayId && (r[k].isLastNode <==> k == |r| - 1)
  {
    var a := Fifos.ListEntry(req.sRayId, req.sNodeAIdx, !req.sNodeBValid);
    if req.sNodeBValid then [a, Fifos.ListEntry(req.sRayId, req.sNodeBIdx, true)] else [a]
  }

  /** The entries accepted but not yet pushed: the latched node b in the node-b phase. */
  function RecvOwed(rc: Recv): seq<Fifos.ListEntry>
  {
    if rc.nodeA then [] else [Fifos.ListEntry(rc.rayId, rc.nodeBIdx, true)]
  }

  /** The receive side neither loses nor invents entries: what it owed plus what it
      accepted is what it pushed plus what it owes after the edge. It pushes leaves
      only, as long as it is given leaves. */
  lemma RecvConserves(nodes: seq<Node>, rc: Recv, req: Request, lfReady: bool)
    requires AllLeaves(nodes, RecvOwed(rc))
    requires req.sValid && rc.nodeA ==> Leaf(nodes, req.sNodeAIdx) && (req.sNodeBValid ==> Leaf(nodes, req.sNodeBIdx))
    ensures var accepted, push := req.sValid && SReady(rc, lfReady), Offer(rc, req) && lfReady;
            && AllLeaves(nodes, RecvOwed(RecvNext(rc, req, lfReady)))
            && (push ==> Leaf(nodes, Offered(rc, req).nodeIdx))
            && (accepted ==> AllLeaves(nodes, Split(req)))
            && RecvOwed(rc) + (if accepted then Split(req) else [])
                 == (if push then [Offered(rc, req)] else []) + RecvOwed(RecvNext(rc, req, lfReady))
  {
    if !rc.nodeA {
      assert RecvOwed(rc)[0] == Offered(rc, req);
    }
    if req.sValid && SReady(rc, lfReady) && req.sNodeBValid {
      assert Split(req)[1..][1..] == [];
    }
  }

  // ---------------------------------------------------------------- send side

  /** The indices `from .. last` of ray `rayId`, the final one tagged when `tag` holds. */
  function Range(rayId: int, from: int, last: int, tag: bool): (r: seq<Trig>)
    requires from <= last + 1
    ensures |r| == last + 1 - from
    ensures forall k :: 0 <= k < |r| ==> r[k] == Trig(rayId, from + k, tag && k == |r| - 1)
  {
    seq(last + 1 - from, k => Trig(rayId, from + k, tag && from + k == last))
  }

  /** The beats a queue entry expands into: its leaf's triangle range. */
  function Expand(nodes: seq<Node>, e: Fifos.ListEntry): seq<Trig>
    requires Leaf(nodes, e.nodeIdx)
  {
    var first := nodes[e.nodeIdx].FirstTrigIdx();
    Range(e.rayId, first, first + nodes[e.nodeIdx].numTrigs - 1, e.isLastNode)
  }

  /** The beats a sequence of queue entries expands into, in order. */
  function ExpandAll(nodes: seq<Node>, q: seq<Fifos.ListEntry>): seq<Trig>
    requires AllLeaves(nodes, q)
  {
    if q == [] then [] else Expand(nodes, q[0]) + ExpandAll(nodes, q[1..])
  }

  /** The send registers are consistent: `LOAD` holds a leaf, `SEND` has not run past
      the last index. */
  predicate SendOk(nodes: seq<Node>, s: Send)
  {
    && (s.state == SLoad ==> Leaf(nodes, s.nodeIdx))
    && (s.state == SSend ==> s.trigIdx <= s.lastTrigIdx)
  }

  /** The beats the send side still owes for the entry it holds, the current one first. */
  function SendOwed(nodes: seq<Node>, s: Send): seq<Trig>
    requires SendOk(nodes, s)
  {
    match s.state
    case SIdle => []
    case SLoad => Expand(nodes, Fifos.ListEntry(s.rayId, s.nodeIdx, s.isLastNode))
    case SSend => Range(s.rayId, s.trigIdx, s.lastTrigIdx, s.isLastNode)
  }

  /** `update_m_valid` */
  predicate MValid(s: Send) { s.state == SSend }

  /** `update_lf_m_ready`: the queue is popped only in `IDLE`. */
  predicate LfMReady(s: Send) { s.state == SIdle }

  /** `update_m_is_last_trig`: raised on the final index of an entry tagged last, that
      is, on the last beat of a request. */
  function MIsLastTrig(nodes: seq<Node>, s: Send): (b: bool)
    requires SendOk(nodes, s)
    ensures MValid(s) ==> (b <==> s.isLastNode && |SendOwed(nodes, s)| == 1)
  {
    s.isLastNode && s.trigIdx == s.lastTrigIdx
  }

  /** The beat on the output this cycle, when `m_valid` holds. */
  function Emitted(nodes: seq<Node>, s: Send): seq<Trig>
    requires SendOk(nodes, s)
  {
    if MValid(s) then [Trig(s.rayId, s.trigIdx, MIsLastTrig(nodes, s))] else []
  }

  /** `LIST::send` out of reset; `lfValid` and `head` are the queue's `m_valid` and the
      entry at its head. */
  function SendNext(nodes: seq<Node>, s: Send, lfValid: bool, head: Fifos.ListEntry): Send
    requires s.state == SLoad ==> 0 <= s.nodeIdx < |nodes|
  {
    match s.state
    case SIdle =>
      if lfValid && LfMReady(s) then s.(state := SLoad, rayId := head.rayId, nodeIdx := head.nodeIdx,
                                         isLastNode := head.isLastNode)
      else s
    case SLoad =>
      var first := nodes[s.nodeIdx].FirstTrigIdx();
      s.(state := SSend, trigIdx := first, lastTrigIdx := first + nodes[s.nodeIdx].numTrigs - 1)
    case SSend =>
      s.(trigIdx := s.trigIdx + 1, state := if s.trigIdx == s.lastTrigIdx then SIdle else SSend)
  }

  /** The send side neither loses, repeats nor reorders beats: the beat it emits plus
      what it owes after the edge is what it owed plus the expansion of the entry it
      popped. Each leaf's range is sent whole, and a popped entry is always a leaf. */
  lemma SendConserves(nodes: seq<Node>, s: Send, lfValid: bool, head: Fifos.ListEntry)
    requires SendOk(nodes, s)
    requires lfValid ==> Leaf(nodes, head.nodeIdx)
    ensures var s' := SendNext(nodes, s, lfValid, head);
            var pop := lfValid && LfMReady(s);
            SendOk(nodes, s')
            && Emitted(nodes, s) + SendOwed(nodes, s') == SendOwed(nodes, s) + (if pop then Expand(nodes, head) else [])
  {
    var s' := SendNext(nodes, s, lfValid, head);
    if s.state == SSend {
      var o, o' := SendOwed(nodes, s), SendOwed(nodes, s');
      assert o == [o[0]] + o[1..];
      if s.trigIdx < s.lastTrigIdx {
        assert o' == o[1..];
      }
    }
  }

  // ---------------------------------------------------------------- the whole stage

  lemma {:induction false} ExpandAllAppend(nodes: seq<Node>, x: seq<Fifos.ListEntry>, y: seq<Fifos.ListEntry>)
    requires AllLeaves(nodes, x) && AllLeaves(nodes, y)
    ensures AllLeaves(nodes, x + y) && ExpandAll(nodes, x + y) == ExpandAll(nodes, x) + ExpandAll(nodes, y)
    decreases |x|
  {
    if x == [] {
      assert x + y == y;
    } else {
      assert (x + y)[0] == x[0] && (x + y)[1..] == x[1..] + y;
      ExpandAllAppend(nodes, x[1..], y);
    }
  }

  /** An accepted request comes out as its node a's range followed by its node b's
      range, every beat for its ray, and exactly one beat tagged: the last. */
  lemma RequestStream(nodes: seq<Node>, req: Request)
    requires Leaf(nodes, req.sNodeAIdx) && (req.sNodeBValid ==> Leaf(nodes, req.sNodeBIdx))
    ensures AllLeaves(nodes, Split(req))
    ensures var t := ExpandAll(nodes, Split(req));
            var a := nodes[req.sNodeAIdx];
            && |t| >= 1
            && (forall k :: 0 <= k < |t| ==> t[k].rayId == req.sRayId && (t[k].isLast <==> k == |t| - 1))
            && (forall k :: 0 <= k < a.numTrigs ==> t[k].trigIdx == a.idx + k)
            && (req.sNodeBValid ==>
                  var b := nodes[req.sNodeBIdx];
                  |t| == a.numTrigs + b.numTrigs
                  && forall k :: a.numTrigs <= k < |t| ==> t[k].trigIdx == b.idx + (k - a.numTrigs))
            && (!req.sNodeBValid ==> |t| == a.numTrigs)
  {
    var sp := Split(req);
    var ea := Expand(nodes, sp[0]);
    if req.sNodeBValid {
      var eb := Expand(nodes, sp[1]);
      assert sp[1..][1..] == [];
      assert ExpandAll(nodes, sp[1..]) == eb + ExpandAll(nodes, sp[1..][1..]);
      assert ExpandAll(nodes, sp) == ea + eb;
    } else {
      assert sp[1..] == [];
      assert ExpandAll(nodes, sp) == ea + [];
    }
  }

  /** Everything the stage still owes, in the order it will send it: the current
      entry's remaining beats, then the queued entries, then the latched node b. */
  function Owed(nodes: seq<Node>, rc: Recv, s: Send, q: seq<Fifos.ListEntry>): seq<Trig>
    requires SendOk(nodes, s) && AllLeaves(nodes, q) && AllLeaves(nodes, RecvOwed(rc))
  {
    SendOwed(nodes, s) + ExpandAll(nodes, q) + ExpandAll(nodes, RecvOwed(rc))
  }

  /** The queue as a sequence of beats: what a pop takes off the front plus what is
      left after the edge is what was queued plus what the push adds. */
  lemma QueueConserves(nodes: seq<Node>, q: seq<Fifos.ListEntry>, push: bool, e: Fifos.ListEntry, pop: bool)
    requires AllLeaves(nodes, q) && (push ==> Leaf(nodes, e.nodeIdx)) && (pop ==> |q| > 0)
    ensures AllLeaves(nodes, if push then [e] else [])
    ensures AllLeaves(nodes, Ring.Step(q, push, e, pop))
    ensures (if pop then Expand(nodes, q[0]) else []) + ExpandAll(nodes, Ring.Step(q, push, e, pop))
            == ExpandAll(nodes, q) + ExpandAll(nodes, if push then [e] else [])
  {
    var pushed: seq<Fifos.ListEntry> := if push then [e] else [];
    var rest := if pop then q[1..] else q;
    assert Ring.Step(q, push, e, pop) == rest + pushed;
    if push {
      assert pushed[1..] == [];
    }
    ExpandAllAppend(nodes, rest, pushed);
  }

  /** One edge of the whole stage, its queue holding `q` with capacity `maxDepth`: the
      beat emitted plus what is owed after the edge is what was owed plus the
      expansion of the request accepted in the edge. So every accepted request's beats
      come out once, in acceptance order, with nothing in between that was not
      accepted. */
  lemma EdgeConserves(nodes: seq<Node>, maxDepth: nat, rc: Recv, s: Send, q: seq<Fifos.ListEntry>,
                      head: Fifos.ListEntry, req: Request, lfReady: bool, lfValid: bool)
    requires SendOk(nodes, s) && AllLeaves(nodes, q) && AllLeaves(nodes, RecvOwed(rc))
    requires (lfReady <==> |q| < maxDepth) && (lfValid <==> |q| > 0) && (lfValid ==> head == q[0])
    requires req.sValid && rc.nodeA ==> Leaf(nodes, req.sNodeAIdx) && (req.sNodeBValid ==> Leaf(nodes, req.sNodeBIdx))
    ensures SendOk(nodes, SendNext(nodes, s, lfValid, head))
    ensures AllLeaves(nodes, RecvOwed(RecvNext(rc, req, lfReady)))
    ensures AllLeaves(nodes, Ring.Step(q, Offer(rc, req) && lfReady, Offered(rc, req), lfValid && LfMReady(s)))
    ensures req.sValid && SReady(rc, lfReady) ==> AllLeaves(nodes, Split(req))
    ensures Emitted(nodes, s)
              + Owed(nodes, RecvNext(rc, req, lfReady), SendNext(nodes, s, lfValid, head),
                     Ring.Step(q, Offer(rc, req) && lfReady, Offered(rc, req), lfValid && LfMReady(s)))
            == Owed(nodes, rc, s, q) + (if req.sValid && SReady(rc, lfReady) then ExpandAll(nodes, Split(req)) else [])
  {
    var accepted := req.sValid && SReady(rc, lfReady);
    var push, pop, e := Offer(rc, req) && lfReady, lfValid && LfMReady(s), Offered(rc, req);
    var s', rc', q' := SendNext(nodes, s, lfValid, head), RecvNext(rc, req, lfReady), Ring.Step(q, push, e, pop);
    var pushed: seq<Fifos.ListEntry> := if push then [e] else [];
    var acc: seq<Fifos.ListEntry> := if accepted then Split(req) else [];
    RecvConserves(nodes, rc, req, lfReady);
    QueueConserves(nodes, q, push, e, pop);
    SendConserves(nodes, s, lfValid, head);
    ExpandAllAppend(nodes, pushed, RecvOwed(rc'));
    ExpandAllAppend(nodes, RecvOwed(rc), acc);
    var ex: seq<Trig> := if pop then Expand(nodes, head) else [];
    ChainSums(Emitted(nodes, s), SendOwed(nodes, s), SendOwed(nodes, s'), ex,
              ExpandAll(nodes, q'), ExpandAll(nodes, q), ExpandAll(nodes, pushed),
              ExpandAll(nodes, RecvOwed(rc')), ExpandAll(nodes, RecvOwed(rc)), ExpandAll(nodes, acc));
  }

  /** The sequence algebra that closes `EdgeConserves`. */
  lemma ChainSums(em: seq<Trig>, so: seq<Trig>, so': seq<Trig>, ex: seq<Trig>, eq': seq<Trig>, eq: seq<Trig>,
                  ep: seq<Trig>, eo': seq<Trig>, eo: seq<Trig>, ea: seq<Trig>)
    requires em + so' == so + ex && ex + eq' == eq + ep && ep + eo' == eo + ea
    ensures em + (so' + eq' + eo') == so + eq + eo + ea
  {
    calc {
      em + (so' + eq' + eo');
      (em + so') + eq' + eo';
      so + (ex + eq') + eo';
      so + eq + (ep + eo');
      so + eq + (eo + ea);
    }
  }

  /** The stage as the class holds it: the two register sets and the `LIST_FIFO`
      instance. Its clock edge is proved against `RecvNext`, `SendNext` and the queue
      step, whose joint behaviour `EdgeConserves` describes. */
  class List {
    const nodes: seq<Node>
    const fifo: Fifos.ListFifo
    var recv: Recv
    var send: Send

    ghost predicate Valid()
      reads this, fifo, fifo.rayId, fifo.nodeIdx, fifo.isLastNode
    {
      fifo.Valid()
    }

    /** Elaboration: every register at 0 and the queue empty. `recv_node_a` starts
        false, so only a reset puts the stage into the node-a phase. */
    constructor(maxDepth: nat, nodes: seq<Node>)
      ensures Valid() && fifo.maxDepth == maxDepth && this.nodes == nodes
      ensures recv == InitialRecv && send == InitialSend && fifo.Contents() == []
      ensures fresh(fifo) && fresh(fifo.rayId) && fresh(fifo.nodeIdx) && fresh(fifo.isLastNode)
    {
      this.nodes := nodes;
      fifo := new Fifos.ListFifo(maxDepth);
      recv, send := InitialRecv, InitialSend;
    }

    /** `update_s_ready` */
    function SReadyOut(): (b: bool)
      reads this, fifo, fifo.rayId, fifo.nodeIdx, fifo.isLastNode
      requires Valid()
      ensures b <==> recv.nodeA && |fifo.Contents()| < fifo.maxDepth
    {
      SReady(recv, fifo.SReady())
    }

    /** One rising clock edge of `recv`, `send` and the queue. A reset puts the receive
        side into the node-a phase, the send side into `IDLE` and empties the queue.
        Otherwise the registers move as `RecvNext` and `SendNext`, and the queue pushes
        what the receive side offers and pops when the send side is idle. `LOAD` reads
        the node it holds, unchecked. */
    method Tick(srstn: bool, req: Request)
      requires Valid()
      requires srstn && send.state == SLoad ==> 0 <= send.nodeIdx < |nodes|
      modifies this, fifo, fifo.rayId, fifo.nodeIdx, fifo.isLastNode
      ensures Valid()
      ensures !srstn ==>
        recv == old(recv).(nodeA := true) && send == old(send).(state := SIdle) && fifo.Contents() == []
      ensures srstn ==>
        && recv == RecvNext(old(recv), req, old(fifo.SReady()))
        && send == SendNext(nodes, old(send), old(fifo.MValid()), old(fifo.MEntry()))
        && fifo.Contents() == Ring.Step(old(fifo.Contents()), Offer(old(recv), req) && old(fifo.SReady()),
                                        Offered(old(recv), req), old(fifo.MValid()) && LfMReady(old(send)))
    {
      if srstn {
        var rc, s := recv, send;
        var lfReady, lfValid, head := fifo.SReady(), fifo.MValid(), fifo.MEntry();
        var e := Offered(rc, req);
        fifo.Tick(true, Offer(rc, req), e.rayId, e.nodeIdx, e.isLastNode, LfMReady(s));
        recv := RecvNext(rc, req, lfReady);
        send := SendNext(nodes, s, lfValid, head);
      } else {
        fifo.Tick(false, false, 0, 0, false, false);
        recv := recv.(nodeA := true);
        send := send.(state := SIdle);
      }
    }
  }
}
