/**
 Distances between boxes (distance_1D, distance_taxicab, distance_chebyshev, cube_distance and
 g_cube_distance in contrib/cube/cube.c). The distance to an inner key is a lower bound for
 every leaf below it, so ordered searches never return a leaf too late. The Euclidean
 distance is computed up to its square root, which is a number with that square.
 */
module CubeDistance {
  import opened Wrappers
  import opened Cube

  /** distance_1D: corners in any order. */
  function Distance1D(a1: real, a2: real, b1: real, b2: real): real {
    if a1 <= b1 && a2 <= b1 && a1 <= b2 && a2 <= b2 then Min(b1, b2) - Max(a1, a2)
    else if a1 > b1 && a2 > b1 && a1 > b2 && a2 > b2 then Min(a1, a2) - Max(b1, b2)
    else 0.0
  }

  /** The gap between two boxes in one dimension; zero when their intervals meet. */
  function Gap(a: NDBox, b: NDBox, i: nat): real
    requires Valid(a) && Valid(b)
  {
    Max(0.0, Max(Lo(b, i) - Hi(a, i), Lo(a, i) - Hi(b, i)))
  }

  lemma {:induction false} DistanceIsGap(a: NDBox, b: NDBox, i: nat)
    requires Valid(a) && Valid(b) && i < a.dim
    ensures i < b.dim ==> Distance1D(LL(a, i), UR(a, i), LL(b, i), UR(b, i)) == Gap(a, b, i)
    ensures i >= b.dim ==> Distance1D(LL(a, i), UR(a, i), 0.0, 0.0) == Gap(a, b, i)
  {
  }

  lemma {:induction false} GapSymmetric(a: NDBox, b: NDBox, i: nat)
    requires Valid(a) && Valid(b)
    ensures Gap(a, b, i) == Gap(b, a, i)
  {
    hide Lo, Hi;
  }

  /** A larger box is nearer in every dimension. */
  lemma {:induction false} GapShrinks(k: NDBox, leaf: NDBox, q: NDBox, i: nat)
    requires Valid(k) && Valid(leaf) && Valid(q) && Covers(k, leaf)
    ensures Gap(k, q, i) <= Gap(leaf, q, i)
  {
    hide Lo, Hi;
    assert Encloses(k, leaf, i);
  }

  lemma {:induction false} GapBeyond(a: NDBox, b: NDBox, i: nat)
    requires Valid(a) && Valid(b) && i >= a.dim && i >= b.dim
    ensures Gap(a, b, i) == 0.0
  {
  }

  // ----- accumulating -----

  datatype Metric = Taxicab | EuclidSquared | Chebyshev

  function Step(m: Metric, sum: real, d: real): real {
    match m
    case Taxicab => sum + d
    case EuclidSquared => sum + d * d
    case Chebyshev => Max(sum, d)
  }

  /** The distance in the first n dimensions. */
  function Dist(m: Metric, a: NDBox, b: NDBox, n: nat): (r: real)
    requires Valid(a) && Valid(b)
  {
    if n == 0 then 0.0 else Step(m, Dist(m, a, b, n - 1), Gap(a, b, n - 1))
  }

  function Dims(a: NDBox, b: NDBox): nat {
    if a.dim < b.dim then b.dim else a.dim
  }

  /** The distance of two boxes. */
  function Distance(m: Metric, a: NDBox, b: NDBox): real
    requires Valid(a) && Valid(b)
  {
    Dist(m, a, b, Dims(a, b))
  }

  lemma {:induction false} SquareMonotone(c: real, d: real)
    requires 0.0 <= c <= d
    ensures c * c <= d * d
  {
    assert d * d - c * c == (d - c) * (d + c);
  }

  lemma {:induction false} StepMonotone(m: Metric, s: real, t: real, c: real, d: real)
    requires s <= t && 0.0 <= c <= d
    ensures Step(m, s, c) <= Step(m, t, d)
  {
    SquareMonotone(c, d);
  }

  lemma {:induction false} DistMonotone(m: Metric, k: NDBox, leaf: NDBox, q: NDBox, n: nat)
    requires Valid(k) && Valid(leaf) && Valid(q) && Covers(k, leaf)
    ensures Dist(m, k, q, n) <= Dist(m, leaf, q, n)
  {
    hide Covers, Step;
    if n > 0 {
      DistMonotone(m, k, leaf, q, n - 1);
      GapShrinks(k, leaf, q, n - 1);
      StepMonotone(m, Dist(m, k, q, n - 1), Dist(m, leaf, q, n - 1), Gap(k, q, n - 1), Gap(leaf, q, n - 1));
    }
  }

  lemma {:induction false} DistNonNegative(m: Metric, a: NDBox, b: NDBox, n: nat)
    requires Valid(a) && Valid(b)
    ensures Dist(m, a, b, n) >= 0.0
  {
    if n > 0 {
      DistNonNegative(m, a, b, n - 1);
      SquareMonotone(0.0, Gap(a, b, n - 1));
    }
  }

  /** Dimensions that neither box has add nothing. */
  lemma {:induction false} DistBeyond(m: Metric, a: NDBox, b: NDBox, n: nat)
    requires Valid(a) && Valid(b) && n >= Dims(a, b)
    ensures Dist(m, a, b, n) == Distance(m, a, b)
  {
    hide Gap;
    if n > Dims(a, b) {
      DistBeyond(m, a, b, n - 1);
      GapBeyond(a, b, n - 1);
      DistNonNegative(m, a, b, n - 1);
    }
  }

  /** The distance to a key is at most the distance to every leaf it was built from. */
  lemma {:induction false} KeyIsNearer(m: Metric, b: Build, k: NDBox, leaf: NDBox, q: NDBox)
    requires BuiltAs(b, k) && Has(b, leaf) && Valid(k) && Valid(leaf) && Valid(q)
    ensures Distance(m, k, q) <= Distance(m, leaf, q)
  {
    hide Dist, Distance;
    BuiltCovers(b, k, leaf);
    var n := Dims(k, q);
    DistMonotone(m, k, leaf, q, n);
    DistBeyond(m, k, q, n);
    DistBeyond(m, leaf, q, n);
  }

  /** The Euclidean distance: the square root of the sum. */
  ghost predicate IsEuclid(r: real, a: NDBox, b: NDBox)
    requires Valid(a) && Valid(b)
  {
    r >= 0.0 && r * r == Distance(EuclidSquared, a, b)
  }

  /** The same for the Euclidean distance itself. */
  lemma {:induction false} KeyIsNearerEuclid(b: Build, k: NDBox, leaf: NDBox, q: NDBox, near: real, far: real)
    requires BuiltAs(b, k) && Has(b, leaf) && Valid(k) && Valid(leaf) && Valid(q)
    requires IsEuclid(near, k, q) && IsEuclid(far, leaf, q)
    ensures near <= far
  {
    hide Distance;
    KeyIsNearer(EuclidSquared, b, k, leaf, q);
    RootsOrdered(near, far);
  }

  lemma {:induction false} RootsOrdered(a: real, b: real)
    requires a >= 0.0 && b >= 0.0 && a * a <= b * b
    ensures a <= b
  {
    if b < a {
      SquaresOrdered(b, a);
    }
  }

  lemma {:induction false} SquaresOrdered(a: real, b: real)
    requires 0.0 <= a < b
    ensures a * a < b * b
  {
    var d := b - a;
    assert b * b == a * a + (a * d + a * d) + d * d;
    assert a * d >= 0.0 && d * d > 0.0;
  }

  lemma {:induction false} DistanceSymmetric(m: Metric, a: NDBox, b: NDBox, n: nat)
    requires Valid(a) && Valid(b)
    ensures Dist(m, a, b, n) == Dist(m, b, a, n)
  {
    hide Gap, Step;
    if n > 0 {
      DistanceSymmetric(m, a, b, n - 1);
      GapSymmetric(a, b, n - 1);
    }
  }

  // ----- nearest points -----

  type Point = seq<real>

  predicate Between(v: real, x: real, y: real) {
    x <= v <= y || y <= v <= x
  }

  /** The point is in the box, of whose missing dimensions it has the coordinate zero. */
  ghost predicate InBox(p: Point, b: NDBox)
    requires Valid(b)
  {
    forall i | 0 <= i < |p| :: if i < b.dim then Between(p[i], LL(b, i), UR(b, i)) else p[i] == 0.0
  }

  function SumAbs(p: Point, q: Point): real
    requires |p| == |q|
  {
    if p == [] then 0.0
    else
      var n := |p| - 1;
      SumAbs(p[..n], q[..n]) + if p[n] < q[n] then q[n] - p[n] else p[n] - q[n]
  }

  function SumSquares(p: Point, q: Point): real
    requires |p| == |q|
  {
    if p == [] then 0.0
    else
      var n := |p| - 1;
      SumSquares(p[..n], q[..n]) + (p[n] - q[n]) * (p[n] - q[n])
  }

  function MaxAbs(p: Point, q: Point): real
    requires |p| == |q|
  {
    if p == [] then 0.0
    else
      var n := |p| - 1;
      var rest, d := MaxAbs(p[..n], q[..n]), if p[n] < q[n] then q[n] - p[n] else p[n] - q[n];
      if d > rest then d else rest
  }

  /** The distance of two points, squared in the Euclidean case. */
  function PointDistance(m: Metric, p: Point, q: Point): real
    requires |p| == |q|
  {
    match m
    case Taxicab => SumAbs(p, q)
    case EuclidSquared => SumSquares(p, q)
    case Chebyshev => MaxAbs(p, q)
  }

  /** d is the smallest distance of a point of one box from a point of the other. */
  ghost predicate IsMinimum(m: Metric, a: NDBox, b: NDBox, d: real)
    requires Valid(a) && Valid(b)
  {
    && (forall p: Point, q: Point | PointsOf(a, b, p, q) :: d <= PointDistance(m, p, q))
    && (exists p: Point, q: Point :: PointsOf(a, b, p, q) && d == PointDistance(m, p, q))
  }

  ghost predicate PointsOf(a: NDBox, b: NDBox, p: Point, q: Point)
    requires Valid(a) && Valid(b)
  {
    |p| == |q| == (if a.dim < b.dim then b.dim else a.dim) && InBox(p, a) && InBox(q, b)
  }

  lemma {:induction false} PointStep(m: Metric, p: Point, q: Point)
    requires |p| == |q| > 0
    ensures var n := |p| - 1;
            PointDistance(m, p, q) == Step(m, PointDistance(m, p[..n], q[..n]), Abs(p[n] - q[n]))
  {
    var n := |p| - 1;
    var d := p[n] - q[n];
    assert Abs(d) * Abs(d) == d * d;
  }

  lemma {:induction false} InSides(v: real, b: NDBox, i: nat)
    requires Valid(b)
    ensures (if i < b.dim then Between(v, LL(b, i), UR(b, i)) else v == 0.0) <==> Lo(b, i) <= v <= Hi(b, i)
  {
  }

  /** No two points of the boxes are nearer than the gaps add up to. */
  lemma {:induction false} NoneNearer(m: Metric, a: NDBox, b: NDBox, p: Point, q: Point)
    requires Valid(a) && Valid(b) && |p| == |q| && InBox(p, a) && InBox(q, b)
    ensures Dist(m, a, b, |p|) <= PointDistance(m, p, q)
  {
    hide LL, UR, Lo, Hi, Step, PointDistance;
    if p == [] {
      NoDistance(m);
    } else {
      var n := |p| - 1;
      NoneNearer(m, a, b, p[..n], q[..n]);
      PointStep(m, p, q);
      InSides(p[n], a, n);
      InSides(q[n], b, n);
      StepMonotone(m, Dist(m, a, b, n), PointDistance(m, p[..n], q[..n]), Gap(a, b, n), Abs(p[n] - q[n]));
    }
  }

  lemma {:induction false} NoDistance(m: Metric)
    ensures PointDistance(m, [], []) == 0.0
  {
  }

  /** Two values of the intervals at the distance of the gap. */
  lemma {:induction false} NearestValues(a: NDBox, b: NDBox, i: nat) returns (v: real, w: real)
    requires Valid(a) && Valid(b)
    ensures Lo(a, i) <= v <= Hi(a, i) && Lo(b, i) <= w <= Hi(b, i) && Abs(v - w) == Gap(a, b, i)
  {
    hide Lo, Hi;
    Sides(a, i);
    Sides(b, i);
    if Hi(a, i) < Lo(b, i) {
      v, w := Hi(a, i), Lo(b, i);
    } else if Hi(b, i) < Lo(a, i) {
      v, w := Lo(a, i), Hi(b, i);
    } else {
      v := Max(Lo(a, i), Lo(b, i));
      w := v;
    }
  }

  lemma {:induction false} NearestPoints(m: Metric, a: NDBox, b: NDBox, n: nat) returns (p: Point, q: Point)
    requires Valid(a) && Valid(b)
    ensures |p| == |q| == n && InBox(p, a) && InBox(q, b) && PointDistance(m, p, q) == Dist(m, a, b, n)
  {
    hide LL, UR, Lo, Hi, Step, PointDistance, Gap, Between;
    if n == 0 {
      p, q := [], [];
      NoDistance(m);
    } else {
      var v, w := NearestValues(a, b, n - 1);
      InSides(v, a, n - 1);
      InSides(w, b, n - 1);
      var p0, q0 := NearestPoints(m, a, b, n - 1);
      p, q := p0 + [v], q0 + [w];
      assert p[..n - 1] == p0 && q[..n - 1] == q0;
      PointStep(m, p, q);
    }
  }

  /** The distance of two boxes is the smallest distance between their points. */
  lemma {:induction false} DistanceIsMinimum(m: Metric, a: NDBox, b: NDBox)
    requires Valid(a) && Valid(b)
    ensures IsMinimum(m, a, b, Distance(m, a, b))
  {
    hide InBox, PointDistance, Dist;
    var n := Dims(a, b);
    forall p: Point, q: Point | PointsOf(a, b, p, q)
      ensures Distance(m, a, b) <= PointDistance(m, p, q)
    {
      NoneNearer(m, a, b, p, q);
    }
    var p, q := NearestPoints(m, a, b, n);
    assert PointsOf(a, b, p, q);
  }

  // ----- the loops -----

  /** distance_taxicab. */
  method DistanceTaxicab(a0: NDBox, b0: NDBox) returns (distance: real)
    requires Valid(a0) && Valid(b0)
    ensures distance == Distance(Taxicab, a0, b0)
    ensures IsMinimum(Taxicab, a0, b0, distance)
  {
    hide Gap, IsMinimum;
    DistanceIsMinimum(Taxicab, a0, b0);
    var a, b := Swapped(Taxicab, a0, b0);
    distance := 0.0;
    var i := 0;
    while i < b.dim
      invariant 0 <= i <= b.dim && distance == Dist(Taxicab, a, b, i)
    {
      DistanceIsGap(a, b, i);
      GapNonNegative(a, b, i);
      distance := distance + Abs(Distance1D(LL(a, i), UR(a, i), LL(b, i), UR(b, i)));
      i := i + 1;
    }
    while i < a.dim
      invariant b.dim <= i <= a.dim && distance == Dist(Taxicab, a, b, i)
    {
      DistanceIsGap(a, b, i);
      GapNonNegative(a, b, i);
      distance := distance + Abs(Distance1D(LL(a, i), UR(a, i), 0.0, 0.0));
      i := i + 1;
    }
  }

  /** The box with more dimensions comes first. */
  method Swapped(m: Metric, a0: NDBox, b0: NDBox) returns (a: NDBox, b: NDBox)
    requires Valid(a0) && Valid(b0)
    ensures Valid(a) && Valid(b) && b.dim <= a.dim
    ensures Dist(m, a, b, a.dim) == Distance(m, a0, b0)
  {
    a, b := a0, b0;
    if a.dim < b.dim {
      a, b := b, a;
      DistanceSymmetric(m, a, b, a.dim);
    }
  }

  lemma {:induction false} GapNonNegative(a: NDBox, b: NDBox, i: nat)
    requires Valid(a) && Valid(b)
    ensures Gap(a, b, i) >= 0.0
  {
  }

  /** distance_chebyshev. */
  method DistanceChebyshev(a0: NDBox, b0: NDBox) returns (distance: real)
    requires Valid(a0) && Valid(b0)
    ensures distance == Distance(Chebyshev, a0, b0)
    ensures IsMinimum(Chebyshev, a0, b0, distance)
  {
    hide Gap, IsMinimum;
    DistanceIsMinimum(Chebyshev, a0, b0);
    var a, b := Swapped(Chebyshev, a0, b0);
    distance := 0.0;
    var i := 0;
    while i < b.dim
      invariant 0 <= i <= b.dim && distance == Dist(Chebyshev, a, b, i)
    {
      DistanceIsGap(a, b, i);
      GapNonNegative(a, b, i);
      var d := Abs(Distance1D(LL(a, i), UR(a, i), LL(b, i), UR(b, i)));
      if d > distance {
        distance := d;
      }
      i := i + 1;
    }
    while i < a.dim
      invariant b.dim <= i <= a.dim && distance == Dist(Chebyshev, a, b, i)
    {
      DistanceIsGap(a, b, i);
      GapNonNegative(a, b, i);
      var d := Abs(Distance1D(LL(a, i), UR(a, i), 0.0, 0.0));
      if d > distance {
        distance := d;
      }
      i := i + 1;
    }
  }

  /** cube_distance, before the square root. */
  method DistanceSquared(a0: NDBox, b0: NDBox) returns (distance: real)
    requires Valid(a0) && Valid(b0)
    ensures distance == Distance(EuclidSquared, a0, b0)
    ensures IsMinimum(EuclidSquared, a0, b0, distance)
  {
    hide Gap, IsMinimum;
    DistanceIsMinimum(EuclidSquared, a0, b0);
    var a, b := Swapped(EuclidSquared, a0, b0);
    distance := 0.0;
    var i := 0;
    while i < b.dim
      invariant 0 <= i <= b.dim && distance == Dist(EuclidSquared, a, b, i)
    {
      DistanceIsGap(a, b, i);
      var d := Distance1D(LL(a, i), UR(a, i), LL(b, i), UR(b, i));
      distance := distance + d * d;
      i := i + 1;
    }
    while i < a.dim
      invariant b.dim <= i <= a.dim && distance == Dist(EuclidSquared, a, b, i)
    {
      DistanceIsGap(a, b, i);
      var d := Distance1D(LL(a, i), UR(a, i), 0.0, 0.0);
      distance := distance + d * d;
      i := i + 1;
    }
  }

  // ----- ordering by a coordinate -----

  /** g_cube_distance for the coordinate operator; zero is the one coordinate that is refused. */
  function CoordDistance(b: NDBox, coord: int, leaf: bool): Option<real>
    requires Valid(b)
  {
    if coord == 0 then None
    else
      var inverse := coord < 0;
      var c := if inverse then -coord else coord;
      var v :=
        if c > 2 * b.dim then 0.0
        else
          var index, upper := (c - 1) / 2, (c - 1) % 2 == 1;
          if b.point then b.x[index]
          else if leaf then (if upper then Hi(b, index) else Lo(b, index))
          else if !inverse then Lo(b, index) else Hi(b, index);
      Some(if inverse then -v else v)
  }

  /** What the operator returns for a leaf: the chosen side, zero for a missing dimension, with
      the sign of the coordinate. */
  ghost predicate IsCoordinate(b: NDBox, coord: int, v: real)
    requires Valid(b) && coord != 0
  {
    var c := if coord < 0 then -coord else coord;
    var side := if (c - 1) % 2 == 1 then Hi(b, (c - 1) / 2) else Lo(b, (c - 1) / 2);
    v == if coord < 0 then -side else side
  }

  lemma {:induction false} LeafCoordinate(b: NDBox, coord: int)
    requires Valid(b) && coord != 0
    ensures CoordDistance(b, coord, true).Some? && IsCoordinate(b, coord, CoordDistance(b, coord, true).value)
  {
  }

  /** Coordinates 1, 2, 3, 4 and so on of a leaf are the smaller and the larger corner value of
      each dimension in turn, and with a minus sign their opposites. */
  lemma {:induction false} CoordinatesInTurn(b: NDBox, i: nat)
    requires Valid(b) && i < b.dim
    ensures var v := CoordDistance(b, 2 * i + 1, true);
            v.Some? && v.value <= LL(b, i) && v.value <= UR(b, i) && (v.value == LL(b, i) || v.value == UR(b, i)) &&
            CoordDistance(b, -(2 * i + 1), true) == Some(-v.value)
    ensures var w := CoordDistance(b, 2 * i + 2, true);
            w.Some? && w.value >= LL(b, i) && w.value >= UR(b, i) && (w.value == LL(b, i) || w.value == UR(b, i)) &&
            CoordDistance(b, -(2 * i + 2), true) == Some(-w.value)
  {
    assert (2 * i) / 2 == i && (2 * i) % 2 == 0;
    assert (2 * i + 1) / 2 == i && (2 * i + 1) % 2 == 1;
  }

  /** The value of an inner key is its smaller bound, in the direction of the search. */
  lemma {:induction false} InnerCoordinate(k: NDBox, coord: int)
    requires Valid(k) && coord != 0
    ensures CoordDistance(k, coord, false).Some?
    ensures var c := if coord < 0 then -coord else coord; var i: nat := (c - 1) / 2;
            CoordDistance(k, coord, false).value == if coord < 0 then -Hi(k, i) else Lo(k, i)
  {
  }

  /** Signed coordinates: the key's value is at most every leaf's. */
  lemma {:induction false} CoordinateIsLower(b: Build, k: NDBox, leaf: NDBox, coord: int)
    requires BuiltAs(b, k) && Has(b, leaf) && Valid(k) && Valid(leaf) && coord != 0
    ensures CoordDistance(k, coord, false).Some? && CoordDistance(leaf, coord, true).Some?
    ensures CoordDistance(k, coord, false).value <= CoordDistance(leaf, coord, true).value
  {
    hide CoordDistance, Lo, Hi;
    BuiltCovers(b, k, leaf);
    LeafCoordinate(leaf, coord);
    InnerCoordinate(k, coord);
    var c := if coord < 0 then -coord else coord;
    var i: nat := (c - 1) / 2;
    assert Encloses(k, leaf, i);
    Sides(leaf, i);
  }
}
