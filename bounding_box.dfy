/** The axis-aligned box `[xmin, xmax, ymin, ymax, zmin, zmax]` of the BVH, over reals.
    The source struct is a value type copied by assignment; its in-place `extend` and
    `reset` are modelled as functions returning the updated value. */
module BoundingBox {
  import opened Float32

  datatype Box = Box(xmin: real, xmax: real, ymin: real, ymax: real, zmin: real, zmax: real)

  function Min(a: real, b: real): real { if a <= b then a else b }
  function Max(a: real, b: real): real { if a >= b then a else b }

  /** `o` lies inside `b`, bound by bound. This is the order on boxes (inverted boxes included). */
  predicate Contains(b: Box, o: Box)
  {
    && b.xmin <= o.xmin && o.xmax <= b.xmax
    && b.ymin <= o.ymin && o.ymax <= b.ymax
    && b.zmin <= o.zmin && o.zmax <= b.zmax
  }

  /** Every min bound is at most its max bound. */
  predicate Proper(b: Box)
  {
    b.xmin <= b.xmax && b.ymin <= b.ymax && b.zmin <= b.zmax
  }

  /** Every bound is a finite single-precision magnitude. */
  predicate InRange(b: Box)
  {
    && -FltMaxReal <= b.xmin <= FltMaxReal && -FltMaxReal <= b.xmax <= FltMaxReal
    && -FltMaxReal <= b.ymin <= FltMaxReal && -FltMaxReal <= b.ymax <= FltMaxReal
    && -FltMaxReal <= b.zmin <= FltMaxReal && -FltMaxReal <= b.zmax <= FltMaxReal
  }

  /** `BoundingBox::Empty()`: the sentinel box, min bounds at FLT_MAX, max bounds at -FLT_MAX. */
  function Empty(): (r: Box)
    ensures !Proper(r)
  {
    Box(FltMaxReal, -FltMaxReal, FltMaxReal, -FltMaxReal, FltMaxReal, -FltMaxReal)
  }

  /** `reset()` overwrites all six bounds; whatever the box held before, it becomes `Empty()`. */
  function Reset(b: Box): (r: Box)
    ensures r == Empty()
  {
    Box(FltMaxReal, -FltMaxReal, FltMaxReal, -FltMaxReal, FltMaxReal, -FltMaxReal)
  }

  /** Every box with finite bounds contains the empty box. */
  lemma EmptyBelow(b: Box)
    requires InRange(b)
    ensures Contains(b, Empty())
  {
  }

  /** `extend(other)`: a box holding both boxes (the least one: see `ExtendLeast`). */
  function Extend(b: Box, o: Box): (r: Box)
    ensures Contains(r, b) && Contains(r, o)
  {
    Box(Min(b.xmin, o.xmin), Max(b.xmax, o.xmax),
        Min(b.ymin, o.ymin), Max(b.ymax, o.ymax),
        Min(b.zmin, o.zmin), Max(b.zmax, o.zmax))
  }

  /** `half_area()`: half the surface area, i.e. the sum of the areas of three mutually adjacent faces. */
  function HalfArea(b: Box): (r: real)
    ensures Proper(b) ==> r >= 0.0
  {
    var e1 := b.xmax - b.xmin;
    var e2 := b.ymax - b.ymin;
    var e3 := b.zmax - b.zmin;
    NonNegProduct(e1 + e2, e3);
    NonNegProduct(e1, e2);
    (e1 + e2) * e3 + e1 * e2
  }

  /** Any box holding both boxes holds their extension. */
  lemma ExtendLeast(b: Box, o: Box, c: Box)
    requires Contains(c, b) && Contains(c, o)
    ensures Contains(c, Extend(b, o))
  {
  }

  lemma NonNegProduct(x: real, y: real)
    ensures x >= 0.0 && y >= 0.0 ==> x * y >= 0.0
  {
  }

  /** The empty box is the identity of `extend` for every box with finite bounds. */
  lemma ExtendEmptyIdentity(b: Box)
    requires InRange(b)
    ensures Extend(Empty(), b) == b && Extend(b, Empty()) == b
  {
  }

  /** `extend` is idempotent and order-independent. */
  lemma ExtendLaws(a: Box, b: Box, c: Box)
    ensures Extend(a, a) == a
    ensures Extend(a, b) == Extend(b, a)
    ensures Extend(Extend(a, b), c) == Extend(a, Extend(b, c))
  {
  }

  /** Union of a sequence of boxes, folded left from the empty box as the builder's loops do. */
  function Union(bs: seq<Box>): (r: Box)
  {
    if |bs| == 0 then Empty() else Extend(Union(bs[..|bs| - 1]), bs[|bs| - 1])
  }

  /** The folded union contains every box of the sequence and is below every box containing them all. */
  lemma {:induction false} UnionBounds(bs: seq<Box>)
    requires forall k :: 0 <= k < |bs| ==> InRange(bs[k])
    ensures forall k :: 0 <= k < |bs| ==> Contains(Union(bs), bs[k])
    ensures forall c :: InRange(c) && (forall k :: 0 <= k < |bs| ==> Contains(c, bs[k])) ==> Contains(c, Union(bs))
  {
    if |bs| > 0 {
      UnionBounds(bs[..|bs| - 1]);
      forall k | 0 <= k < |bs|
        ensures Contains(Union(bs), bs[k])
      {
        if k < |bs| - 1 {
          assert bs[k] == bs[..|bs| - 1][k];
        }
      }
      forall c | InRange(c) && (forall k :: 0 <= k < |bs| ==> Contains(c, bs[k]))
        ensures Contains(c, Union(bs))
      {
        assert forall k :: 0 <= k < |bs| - 1 ==> bs[..|bs| - 1][k] == bs[k];
        ExtendLeast(Union(bs[..|bs| - 1]), bs[|bs| - 1], c);
      }
    } else {
      forall c | InRange(c)
        ensures Contains(c, Union(bs))
      {
        EmptyBelow(c);
      }
    }
  }

  /** A folded union can take any one of its boxes last: dropping box `j` from the fold and
      extending by it afterwards gives the same box. */
  lemma {:induction false} UnionRemove(bs: seq<Box>, j: int)
    requires 0 <= j < |bs|
    ensures Union(bs) == Extend(Union(bs[..j] + bs[j + 1..]), bs[j])
    decreases |bs|
  {
    var n := |bs|;
    var w := bs[..j] + bs[j + 1..];
    if j < n - 1 {
      var zs := bs[..n - 1];
      UnionRemove(zs, j);
      assert w[..|w| - 1] == zs[..j] + zs[j + 1..];
      assert w[|w| - 1] == bs[n - 1];
      ExtendLaws(Union(zs[..j] + zs[j + 1..]), bs[j], bs[n - 1]);
      ExtendLaws(Union(zs[..j] + zs[j + 1..]), bs[n - 1], bs[j]);
      ExtendLaws(bs[j], bs[n - 1], bs[j]);
    } else {
      assert w == bs[..n - 1];
    }
  }

  /** The union of a concatenation contains the union of each part. */
  lemma {:induction false} UnionConcat(xs: seq<Box>, ys: seq<Box>)
    ensures Contains(Union(xs + ys), Union(xs)) && Contains(Union(xs + ys), Union(ys))
    decreases |ys|
  {
    if |ys| == 0 {
      assert xs + ys == xs;
      UnionHoldsEmpty(xs);
    } else {
      var k := |ys| - 1;
      UnionConcat(xs, ys[..k]);
      assert (xs + ys)[..|xs + ys| - 1] == xs + ys[..k];
      assert (xs + ys)[|xs + ys| - 1] == ys[k];
    }
  }

  /** Every folded union contains the empty box it starts from. */
  lemma {:induction false} UnionHoldsEmpty(bs: seq<Box>)
    ensures Contains(Union(bs), Empty())
    decreases |bs|
  {
    if |bs| > 0 {
      UnionHoldsEmpty(bs[..|bs| - 1]);
    }
  }
}
