/** The ring-buffer arithmetic the three handshake queues share: `MaxDepth + 1` slots,
    `front` the slot of the oldest entry, `back` the next slot to write, and one slot
    always left unused so that `front == back` means empty. A queue's contents are the
    slots from `front` up to, not including, `back`, going round. */
module Ring {

  /** `(i + 1) % (MaxDepth + 1)`: the slot after `i`, going round. */
  function Next(i: int, d: nat): (r: int)
    requires 0 <= i <= d
    ensures 0 <= r <= d
    ensures r == if i == d then 0 else i + 1
  {
    if i < d then
      assert (i + 1) % (d + 1) == i + 1;
      (i + 1) % (d + 1)
    else
      assert (i + 1) % (d + 1) == 0;
      (i + 1) % (d + 1)
  }

  /** The slot `k` places after `front`, going round. */
  function Slot(front: int, k: int, d: nat): int
    requires 0 <= front <= d && 0 <= k <= d
  {
    if front + k <= d then front + k else front + k - (d + 1)
  }

  /** The number of entries held. */
  function Count(front: int, back: int, d: nat): (r: int)
    requires 0 <= front <= d && 0 <= back <= d
    ensures 0 <= r <= d && Slot(front, r, d) == back
  {
    if front <= back then back - front else back + (d + 1) - front
  }

  /** The entries held, oldest first. */
  function Contents<T>(buf: seq<T>, front: int, back: int, d: nat): seq<T>
    requires |buf| == d + 1 && 0 <= front <= d && 0 <= back <= d
  {
    seq(Count(front, back, d), k requires 0 <= k < Count(front, back, d) => buf[Slot(front, k, d)])
  }

  /** The queue after one clock edge: the oldest entry removed on a pop, then `x`
      appended on a push. */
  function Step<T>(q: seq<T>, push: bool, x: T, pop: bool): seq<T>
    requires pop ==> |q| > 0
  {
    (if pop then q[1..] else q) + (if push then [x] else [])
  }

  /** `update_s_ready`'s test `(back + 1) % (MaxDepth + 1) != front`: fewer than
      `MaxDepth` entries are held, so the capacity is `MaxDepth`. */
  function NotFull(front: int, back: int, d: nat): (r: bool)
    requires 0 <= front <= d && 0 <= back <= d
    ensures r <==> Count(front, back, d) < d
  {
    Next(back, d) != front
  }

  /** `update_m_valid`'s test `front != back`: at least one entry is held. */
  function NotEmpty(front: int, back: int, d: nat): (r: bool)
    requires 0 <= front <= d && 0 <= back <= d
    ensures r <==> Count(front, back, d) > 0
  {
    front != back
  }

  /** The slot at `front` holds the oldest entry. */
  lemma HeadAtFront<T>(buf: seq<T>, front: int, back: int, d: nat)
    requires |buf| == d + 1 && 0 <= front <= d && 0 <= back <= d && front != back
    ensures |Contents(buf, front, back, d)| > 0 && Contents(buf, front, back, d)[0] == buf[front]
  {
  }

  /** Writing `x` at `back` and advancing `back` appends `x`, while there is room. */
  lemma PushAppends<T>(buf: seq<T>, front: int, back: int, d: nat, x: T)
    requires |buf| == d + 1 && 0 <= front <= d && 0 <= back <= d
    requires Count(front, back, d) < d
    ensures Contents(buf[back := x], front, Next(back, d), d) == Contents(buf, front, back, d) + [x]
  {
    var q, q' := Contents(buf, front, back, d), Contents(buf[back := x], front, Next(back, d), d);
    var c := Count(front, back, d);
    assert Count(front, Next(back, d), d) == c + 1;
    forall k | 0 <= k < c
      ensures q'[k] == q[k]
    {
      assert Slot(front, k, d) != back;
    }
  }

  /** Advancing `front` drops the oldest entry, when there is one. */
  lemma PopDropsHead<T>(buf: seq<T>, front: int, back: int, d: nat)
    requires |buf| == d + 1 && 0 <= front <= d && 0 <= back <= d
    requires Count(front, back, d) > 0
    ensures Contents(buf, Next(front, d), back, d) == Contents(buf, front, back, d)[1..]
  {
    var q, q' := Contents(buf, front, back, d), Contents(buf, Next(front, d), back, d);
    assert |q'| == |q| - 1;
    forall k | 0 <= k < |q'|
      ensures q'[k] == q[k + 1]
    {
      assert Slot(Next(front, d), k, d) == Slot(front, k + 1, d);
    }
  }

  /** A push and a pop in the same edge on a queue holding `MaxDepth` entries: `back`
      lands on the old `front` while `front` moves on, so the ring still holds
      `MaxDepth` entries, the new one last. */
  lemma PushPopWhenFull<T>(buf: seq<T>, front: int, back: int, d: nat, x: T)
    requires |buf| == d + 1 && 0 <= front <= d && 0 <= back <= d
    requires Count(front, back, d) == d > 0
    ensures Contents(buf[back := x], Next(front, d), Next(back, d), d)
            == Contents(buf, front, back, d)[1..] + [x]
  {
    var q, q' := Contents(buf, front, back, d), Contents(buf[back := x], Next(front, d), Next(back, d), d);
    assert Next(back, d) == front;
    assert |q'| == d;
    forall k | 0 <= k < d
      ensures q'[k] == (q[1..] + [x])[k]
    {
      assert Slot(Next(front, d), k, d) == Slot(front, k + 1, d);
      if k < d - 1 {
        assert Slot(front, k + 1, d) != back;
      }
    }
  }

  /** One clock edge of a queue whose push and pop may coincide: the ring refines `Step`
      unless a push meets a queue that is full and not popped. */
  lemma StepRefines<T>(buf: seq<T>, front: int, back: int, d: nat, push: bool, x: T, pop: bool)
    requires |buf| == d + 1 && 0 <= front <= d && 0 <= back <= d
    requires push && !pop ==> Count(front, back, d) < d
    requires pop ==> Count(front, back, d) > 0
    ensures Contents(if push then buf[back := x] else buf,
                     if pop then Next(front, d) else front,
                     if push then Next(back, d) else back, d)
            == Step(Contents(buf, front, back, d), push, x, pop)
  {
    var q := Contents(buf, front, back, d);
    if push && pop && Count(front, back, d) == d {
      PushPopWhenFull(buf, front, back, d, x);
    } else if push {
      PushAppends(buf, front, back, d, x);
      if pop {
        PopDropsHead(buf[back := x], front, Next(back, d), d);
        assert (q + [x])[1..] == q[1..] + [x];
      }
    } else if pop {
      PopDropsHead(buf, front, back, d);
    }
  }

  /** A push into a queue that already holds `MaxDepth` entries moves `back` onto
      `front`: the queue then reads as empty and every entry is lost. */
  lemma PushWhenFullEmpties<T>(buf: seq<T>, front: int, back: int, d: nat, x: T)
    requires |buf| == d + 1 && 0 <= front <= d && 0 <= back <= d
    requires Count(front, back, d) == d
    ensures Next(back, d) == front && Contents(buf[back := x], front, Next(back, d), d) == []
  {
  }

  /** The reset state of a queue that is filled on reset: `front = 0`, `back = MaxDepth`
      and slot `i` holding `i` is the queue `0, 1, ..., MaxDepth - 1`. */
  lemma FilledContents(buf: seq<int>, d: nat)
    requires |buf| == d + 1 && forall i :: 0 <= i < d ==> buf[i] == i
    ensures Contents(buf, 0, d, d) == seq(d, i => i)
  {
  }

  /** The empty reset state. */
  lemma EmptyContents<T>(buf: seq<T>, i: int, d: nat)
    requires |buf| == d + 1 && 0 <= i <= d
    ensures Contents(buf, i, i, d) == []
  {
  }
}
