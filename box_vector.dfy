/** An axis-aligned d-dimensional box over real vectors, as in geometry/BoxVector.h.
    A box is the pair of its corners `min` and `max`; every operation is defined
    componentwise by comparisons, so over `real` the set operations are exact.
    The pure operations are functions on the value type `Box`; the operations the
    source performs in place on a box's fields are methods of `MutableBox`. */
module BoxVector {

  type Vector = seq<real>

  datatype Box = Box(min: Vector, max: Vector)

  // ---------------------------------------------------------------------------
  // Componentwise vector helpers

  function Min(a: real, b: real): real { if b < a then b else a }
  function Max(a: real, b: real): real { if a < b then b else a }

  predicate AllLessEqual(u: Vector, v: Vector)
    requires |u| == |v|
  {
    forall i :: 0 <= i < |u| ==> u[i] <= v[i]
  }

  predicate AllGreaterEqual(u: Vector, v: Vector)
    requires |u| == |v|
  {
    forall i :: 0 <= i < |u| ==> u[i] >= v[i]
  }

  function ComponentwiseMin(u: Vector, v: Vector): (r: Vector)
    requires |u| == |v|
    ensures |r| == |u| && forall i :: 0 <= i < |u| ==> r[i] == Min(u[i], v[i])
  {
    seq(|u|, i requires 0 <= i < |u| => Min(u[i], v[i]))
  }

  function ComponentwiseMax(u: Vector, v: Vector): (r: Vector)
    requires |u| == |v|
    ensures |r| == |u| && forall i :: 0 <= i < |u| ==> r[i] == Max(u[i], v[i])
  {
    seq(|u|, i requires 0 <= i < |u| => Max(u[i], v[i]))
  }

  function Add(u: Vector, v: Vector): (r: Vector)
    requires |u| == |v|
    ensures |r| == |u| && forall i :: 0 <= i < |u| ==> r[i] == u[i] + v[i]
  {
    seq(|u|, i requires 0 <= i < |u| => u[i] + v[i])
  }

  function Sub(u: Vector, v: Vector): (r: Vector)
    requires |u| == |v|
    ensures |r| == |u| && forall i :: 0 <= i < |u| ==> r[i] == u[i] - v[i]
  {
    seq(|u|, i requires 0 <= i < |u| => u[i] - v[i])
  }

  function Neg(u: Vector): (r: Vector)
    ensures |r| == |u| && forall i :: 0 <= i < |u| ==> r[i] == -u[i]
  {
    seq(|u|, i requires 0 <= i < |u| => -u[i])
  }

  function Scale(u: Vector, a: real): (r: Vector)
    ensures |r| == |u| && forall i :: 0 <= i < |u| ==> r[i] == u[i] * a
  {
    seq(|u|, i requires 0 <= i < |u| => u[i] * a)
  }

  /** The vector with every component equal to `a`: a scalar used where a vector is expected. */
  function Fill(d: nat, a: real): (r: Vector)
    ensures |r| == d && forall i :: 0 <= i < d ==> r[i] == a
  {
    seq(d, i => a)
  }

  // ---------------------------------------------------------------------------
  // Box operations

  /** Both corners have the box's dimension. */
  predicate Dim(b: Box, d: nat) { |b.min| == d && |b.max| == d }

  /** The degenerate box holding one point (the `Box(const TV& point)` constructor). */
  function PointBox(p: Vector): Box { Box(p, p) }

  predicate Empty(b: Box)
    requires Dim(b, |b.min|)
  {
    !AllLessEqual(b.min, b.max)
  }

  predicate LazyInside(b: Box, x: Vector)
    requires Dim(b, |x|)
  {
    AllGreaterEqual(x, b.min) && AllLessEqual(x, b.max)
  }

  predicate LazyOutside(b: Box, x: Vector)
    requires Dim(b, |x|)
  {
    !LazyInside(b, x)
  }

  predicate Contains(a: Box, b: Box)
    requires Dim(a, |a.min|) && Dim(b, |a.min|)
  {
    AllLessEqual(a.min, b.min) && AllGreaterEqual(a.max, b.max)
  }

  predicate LazyIntersects(a: Box, b: Box)
    requires Dim(a, |a.min|) && Dim(b, |a.min|)
  {
    AllLessEqual(a.min, b.max) && AllGreaterEqual(a.max, b.min)
  }

  function Combine(b1: Box, b2: Box): (r: Box)
    requires Dim(b1, |b1.min|) && Dim(b2, |b1.min|)
    ensures Dim(r, |b1.min|)
  {
    Box(ComponentwiseMin(b1.min, b2.min), ComponentwiseMax(b1.max, b2.max))
  }

  function Intersect(b1: Box, b2: Box): (r: Box)
    requires Dim(b1, |b1.min|) && Dim(b2, |b1.min|)
    ensures Dim(r, |b1.min|)
  {
    Box(ComponentwiseMax(b1.min, b2.min), ComponentwiseMin(b1.max, b2.max))
  }

  /** Unary minus: the box of negated points. */
  function Negate(b: Box): (r: Box)
    requires Dim(b, |b.min|)
    ensures Dim(r, |b.min|)
  {
    Box(Neg(b.max), Neg(b.min))
  }

  /** Binary plus: the Minkowski sum. */
  function Sum(a: Box, b: Box): (r: Box)
    requires Dim(a, |a.min|) && Dim(b, |a.min|)
    ensures Dim(r, |a.min|)
  {
    Box(Add(a.min, b.min), Add(a.max, b.max))
  }

  /** Binary minus: the box of differences of points. */
  function Difference(a: Box, b: Box): (r: Box)
    requires Dim(a, |a.min|) && Dim(b, |a.min|)
    ensures Dim(r, |a.min|)
  {
    Box(Sub(a.min, b.max), Sub(a.max, b.min))
  }

  /** Scalar multiply; a negative factor swaps the corners. */
  function Scaled(b: Box, a: real): (r: Box)
    requires Dim(b, |b.min|)
    ensures Dim(r, |b.min|)
  {
    if a >= 0.0 then Box(Scale(b.min, a), Scale(b.max, a)) else Box(Scale(b.max, a), Scale(b.min, a))
  }

  /** The box grown by a per-axis half thickness on every side. */
  function ThickenedBy(b: Box, h: Vector): (r: Box)
    requires Dim(b, |h|)
    ensures Dim(r, |h|)
  {
    Box(Sub(b.min, h), Add(b.max, h))
  }

  /** The box grown by the same half thickness on every side. */
  function Thickened(b: Box, h: real): (r: Box)
    requires Dim(b, |b.min|)
    ensures Dim(r, |b.min|)
  {
    ThickenedBy(b, Fill(|b.min|, h))
  }

  // ---------------------------------------------------------------------------
  // Emptiness, inside and outside

  lemma EmptyIff(b: Box)
    requires Dim(b, |b.min|)
    ensures Empty(b) <==> exists i :: 0 <= i < |b.min| && b.min[i] > b.max[i]
  {
  }

  /** A box is empty exactly when no point is inside it. */
  lemma EmptyIffNoPoint(b: Box)
    requires Dim(b, |b.min|)
    ensures Empty(b) <==> forall x: Vector :: |x| == |b.min| ==> !LazyInside(b, x)
  {
    if !Empty(b) {
      assert LazyInside(b, b.min);
    }
  }

  lemma LazyOutsideIff(b: Box, x: Vector)
    requires Dim(b, |x|)
    ensures LazyOutside(b, x) <==> exists i :: 0 <= i < |x| && (x[i] < b.min[i] || x[i] > b.max[i])
  {
  }

  // ---------------------------------------------------------------------------
  // Containment

  lemma ContainsReflexive(b: Box)
    requires Dim(b, |b.min|)
    ensures Contains(b, b)
  {
  }

  lemma ContainsTransitive(a: Box, b: Box, c: Box)
    requires Dim(a, |a.min|) && Dim(b, |a.min|) && Dim(c, |a.min|)
    requires Contains(a, b) && Contains(b, c)
    ensures Contains(a, c)
  {
  }

  lemma ContainsInside(a: Box, b: Box, x: Vector)
    requires Dim(a, |x|) && Dim(b, |x|)
    requires Contains(a, b) && LazyInside(b, x)
    ensures LazyInside(a, x)
  {
  }

  /** A non-empty box is contained in another exactly when each of its points is. */
  lemma ContainsIffPoints(a: Box, b: Box)
    requires Dim(a, |a.min|) && Dim(b, |a.min|) && !Empty(b)
    ensures Contains(a, b) <==> forall x: Vector :: |x| == |a.min| && LazyInside(b, x) ==> LazyInside(a, x)
  {
    if forall x: Vector :: |x| == |a.min| && LazyInside(b, x) ==> LazyInside(a, x) {
      assert LazyInside(b, b.min) && LazyInside(b, b.max);
      assert LazyInside(a, b.min) && LazyInside(a, b.max);
    }
  }

  // ---------------------------------------------------------------------------
  // Intersection tests

  lemma LazyIntersectsSymmetric(a: Box, b: Box)
    requires Dim(a, |a.min|) && Dim(b, |a.min|)
    ensures LazyIntersects(a, b) <==> LazyIntersects(b, a)
  {
  }

  /** For non-empty boxes the lazy test is exact: they intersect iff some point is in both. */
  lemma LazyIntersectsIffCommonPoint(a: Box, b: Box)
    requires Dim(a, |a.min|) && Dim(b, |a.min|) && !Empty(a) && !Empty(b)
    ensures LazyIntersects(a, b) <==>
      exists x: Vector :: |x| == |a.min| && LazyInside(a, x) && LazyInside(b, x)
  {
    if LazyIntersects(a, b) {
      var x := Intersect(a, b).min;
      assert LazyInside(a, x) && LazyInside(b, x);
    }
  }

  // ---------------------------------------------------------------------------
  // Combine and intersect

  lemma CombineEncloses(b1: Box, b2: Box)
    requires Dim(b1, |b1.min|) && Dim(b2, |b1.min|)
    ensures Contains(Combine(b1, b2), b1) && Contains(Combine(b1, b2), b2)
  {
  }

  /** Combine is the least box containing both arguments. */
  lemma CombineLeast(b1: Box, b2: Box, c: Box)
    requires Dim(b1, |b1.min|) && Dim(b2, |b1.min|) && Dim(c, |b1.min|)
    requires Contains(c, b1) && Contains(c, b2)
    ensures Contains(c, Combine(b1, b2))
  {
  }

  lemma IntersectEnclosed(b1: Box, b2: Box)
    requires Dim(b1, |b1.min|) && Dim(b2, |b1.min|)
    ensures Contains(b1, Intersect(b1, b2)) && Contains(b2, Intersect(b1, b2))
  {
  }

  /** A point is inside the intersection exactly when it is inside both boxes. */
  lemma IntersectInside(b1: Box, b2: Box, x: Vector)
    requires Dim(b1, |x|) && Dim(b2, |x|)
    ensures LazyInside(Intersect(b1, b2), x) <==> LazyInside(b1, x) && LazyInside(b2, x)
  {
  }

  /** Intersect is the greatest box contained in both arguments. */
  lemma IntersectGreatest(b1: Box, b2: Box, c: Box)
    requires Dim(b1, |b1.min|) && Dim(b2, |b1.min|) && Dim(c, |b1.min|)
    requires Contains(b1, c) && Contains(b2, c)
    ensures Contains(Intersect(b1, b2), c)
  {
  }

  /** Enlarging by a point (combining with its point box) takes the point in and keeps the old box. */
  lemma EnlargeEncloses(b: Box, p: Vector)
    requires Dim(b, |p|)
    ensures LazyInside(Combine(b, PointBox(p)), p)
    ensures Contains(Combine(b, PointBox(p)), b)
  {
  }

  // ---------------------------------------------------------------------------
  // Negation, sums and scaling

  lemma NegateInvolution(b: Box)
    requires Dim(b, |b.min|)
    ensures Negate(Negate(b)) == b
  {
    assert Neg(Neg(b.min)) == b.min;
    assert Neg(Neg(b.max)) == b.max;
  }

  lemma NegateInside(b: Box, x: Vector)
    requires Dim(b, |x|)
    ensures LazyInside(b, x) <==> LazyInside(Negate(b), Neg(x))
  {
  }

  lemma NegatePreservesEmpty(b: Box)
    requires Dim(b, |b.min|)
    ensures Empty(Negate(b)) <==> Empty(b)
  {
  }

  lemma SumInside(a: Box, b: Box, x: Vector, y: Vector)
    requires Dim(a, |x|) && Dim(b, |x|) && |y| == |x|
    requires LazyInside(a, x) && LazyInside(b, y)
    ensures LazyInside(Sum(a, b), Add(x, y))
  {
  }

  lemma DifferenceInside(a: Box, b: Box, x: Vector, y: Vector)
    requires Dim(a, |x|) && Dim(b, |x|) && |y| == |x|
    requires LazyInside(a, x) && LazyInside(b, y)
    ensures LazyInside(Difference(a, b), Sub(x, y))
  {
  }

  lemma MulMonotone(u: real, v: real, a: real)
    requires u <= v
    ensures a >= 0.0 ==> u * a <= v * a
    ensures a < 0.0 ==> v * a <= u * a
  {
    assert v * a - u * a == (v - u) * a;
  }

  /** Scaling a point of the box scales it into the scaled box, for factors of either sign. */
  lemma ScaledInside(b: Box, x: Vector, a: real)
    requires Dim(b, |x|) && LazyInside(b, x)
    ensures LazyInside(Scaled(b, a), Scale(x, a))
  {
    var r := Scaled(b, a);
    var y := Scale(x, a);
    forall i | 0 <= i < |x|
      ensures r.min[i] <= y[i] <= r.max[i]
    {
      MulMonotone(b.min[i], x[i], a);
      MulMonotone(x[i], b.max[i], a);
    }
  }

  lemma ScaledPreservesNonempty(b: Box, a: real)
    requires Dim(b, |b.min|) && !Empty(b)
    ensures !Empty(Scaled(b, a))
  {
    assert LazyInside(b, b.min);
    ScaledInside(b, b.min, a);
    EmptyIffNoPoint(Scaled(b, a));
  }

  // ---------------------------------------------------------------------------
  // Thickening

  lemma ThickenedEncloses(b: Box, h: real)
    requires Dim(b, |b.min|) && h >= 0.0
    ensures Contains(Thickened(b, h), b)
  {
  }

  /** Thickening by h and then by -h gives back the box. */
  lemma ThickenedRoundTrip(b: Box, h: Vector)
    requires Dim(b, |h|)
    ensures ThickenedBy(ThickenedBy(b, h), Neg(h)) == b
  {
    assert Sub(Sub(b.min, h), Neg(h)) == b.min;
    assert Add(Add(b.max, h), Neg(h)) == b.max;
  }

  /** The box enlarged by each of the points in turn (enlarge on every point). */
  function CombineAll(b: Box, points: seq<Vector>): (r: Box)
    requires Dim(b, |b.min|)
    requires forall j :: 0 <= j < |points| ==> |points[j]| == |b.min|
    ensures Dim(r, |b.min|)
    decreases |points|
  {
    if points == [] then b
    else Combine(CombineAll(b, points[..|points| - 1]), PointBox(points[|points| - 1]))
  }

  /** Enlarging by points gives a box around the old box and around every point. */
  lemma {:induction false} CombineAllEncloses(b: Box, points: seq<Vector>)
    requires Dim(b, |b.min|)
    requires forall j :: 0 <= j < |points| ==> |points[j]| == |b.min|
    ensures Contains(CombineAll(b, points), b)
    ensures forall j :: 0 <= j < |points| ==> LazyInside(CombineAll(b, points), points[j])
    decreases |points|
  {
    if points == [] {
      ContainsReflexive(b);
    } else {
      var n := |points| - 1;
      var prev := CombineAll(b, points[..n]);
      var r := CombineAll(b, points);
      CombineAllEncloses(b, points[..n]);
      EnlargeEncloses(prev, points[n]);
      ContainsTransitive(r, prev, b);
      forall j | 0 <= j < |points|
        ensures LazyInside(r, points[j])
      {
        if j < n {
          assert points[..n][j] == points[j];
          ContainsInside(r, prev, points[j]);
        }
      }
    }
  }

  /** ... and the least such box: any box around the old box and every point contains it. */
  lemma {:induction false} CombineAllLeast(b: Box, points: seq<Vector>, c: Box)
    requires Dim(b, |b.min|) && Dim(c, |b.min|)
    requires forall j :: 0 <= j < |points| ==> |points[j]| == |b.min|
    requires Contains(c, b) && forall j :: 0 <= j < |points| ==> LazyInside(c, points[j])
    ensures Contains(c, CombineAll(b, points))
    decreases |points|
  {
    if points != [] {
      var n := |points| - 1;
      forall j | 0 <= j < n
        ensures LazyInside(c, points[..n][j])
      {
        assert points[..n][j] == points[j];
      }
      CombineAllLeast(b, points[..n], c);
      assert LazyInside(c, points[n]);
      CombineLeast(CombineAll(b, points[..n]), PointBox(points[n]), c);
    }
  }

  // ---------------------------------------------------------------------------
  // In-place updates

  /** A box variable whose corners the source updates in place. */
  class MutableBox {
    var min: Vector
    var max: Vector

    function Value(): Box
      reads this
    {
      Box(min, max)
    }

    constructor (b: Box)
      ensures Value() == b
    {
      min := b.min;
      max := b.max;
    }

    method Enlarge(p: Vector)
      requires Dim(Value(), |p|)
      modifies this
      ensures Value() == Combine(old(Value()), PointBox(p))
    {
      min := ComponentwiseMin(min, p);
      max := ComponentwiseMax(max, p);
    }

    /** Per component, lowers min or raises max, but never both: correct only on a
        non-empty box, where it agrees with Enlarge. */
    method EnlargeNonempty(p: Vector)
      requires Dim(Value(), |p|) && !Empty(Value())
      modifies this
      ensures Value() == Combine(old(Value()), PointBox(p))
    {
      for i := 0 to |p|
        invariant Dim(Value(), |p|)
        invariant forall k :: 0 <= k < i ==>
          min[k] == Min(old(min)[k], p[k]) && max[k] == Max(old(max)[k], p[k])
        invariant forall k :: i <= k < |p| ==> min[k] == old(min)[k] && max[k] == old(max)[k]
      {
        if p[i] < min[i] {
          min := min[i := p[i]];
        } else if p[i] > max[i] {
          max := max[i := p[i]];
        }
      }
    }

    /** The overloads taking two points, three points or an array of points: the box
        ends as the old box enlarged by every point in turn. */
    method EnlargeNonemptyAll(points: seq<Vector>)
      requires Dim(Value(), |min|) && !Empty(Value())
      requires forall j :: 0 <= j < |points| ==> |points[j]| == |min|
      modifies this
      ensures Value() == CombineAll(old(Value()), points) && !Empty(Value())
      ensures Contains(Value(), old(Value()))
      ensures forall j :: 0 <= j < |points| ==> LazyInside(Value(), points[j])
    {
      ghost var start := Value();
      for j := 0 to |points|
        invariant Dim(Value(), |start.min|) && !Empty(Value())
        invariant Value() == CombineAll(start, points[..j])
      {
        ghost var before := Value();
        EnlargeNonempty(points[j]);
        assert points[..j + 1][..j] == points[..j];
        EnlargeEncloses(before, points[j]);
        EmptyIffNoPoint(Value());
      }
      assert points[..|points|] == points;
      CombineAllEncloses(start, points);
    }

    method EnlargeBox(b: Box)
      requires Dim(Value(), |min|) && Dim(b, |min|)
      modifies this
      ensures Value() == Combine(old(Value()), b)
    {
      min := ComponentwiseMin(min, b.min);
      max := ComponentwiseMax(max, b.max);
    }

    method EnlargeNonemptyBox(b: Box)
      requires Dim(Value(), |min|) && Dim(b, |min|)
      modifies this
      ensures Value() == Combine(old(Value()), b)
    {
      EnlargeBox(b);
    }

    method ChangeSize(delta: real)
      requires Dim(Value(), |min|)
      modifies this
      ensures Value() == Thickened(old(Value()), delta)
    {
      min := Sub(min, Fill(|min|, delta));
      max := Add(max, Fill(|max|, delta));
    }

    method ChangeSizeBy(delta: Vector)
      requires Dim(Value(), |delta|)
      modifies this
      ensures Value() == ThickenedBy(old(Value()), delta)
    {
      min := Sub(min, delta);
      max := Add(max, delta);
    }

    /** operator+= */
    method AddAssign(r: Box)
      requires Dim(Value(), |min|) && Dim(r, |min|)
      modifies this
      ensures Value() == Sum(old(Value()), r)
    {
      min := Add(min, r.min);
      max := Add(max, r.max);
    }

    /** operator-= */
    method SubAssign(r: Box)
      requires Dim(Value(), |min|) && Dim(r, |min|)
      modifies this
      ensures Value() == Difference(old(Value()), r)
    {
      min := Sub(min, r.max);
      max := Sub(max, r.min);
    }
  }
}
