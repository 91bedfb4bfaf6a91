/**
 Boxes of any dimension and their lossy index keys (contrib/cube/cube.c, cubedata.h). A box
 stores two corners in any order, or one if it is a point; dimensions it does not have count
 as zero. Coordinates are real numbers: NaN and rounding are not modelled.
 */
module Cube {

  /** NDBOX: the dimension and the point flag of the header, and the coordinates. */
  datatype NDBox = NDBox(dim: nat, point: bool, x: seq<real>)

  /** All coordinates that the header calls for are there. */
  ghost predicate Valid(b: NDBox) {
    |b.x| >= if b.point then b.dim else 2 * b.dim
  }

  function LL(b: NDBox, i: nat): real
    requires Valid(b) && i < b.dim
  {
    b.x[i]
  }

  function UR(b: NDBox, i: nat): real
    requires Valid(b) && i < b.dim
  {
    if b.point then b.x[i] else b.x[i + b.dim]
  }

  function Min(a: real, b: real): real {
    if a < b then a else b
  }

  function Max(a: real, b: real): real {
    if a > b then a else b
  }

  function Abs(a: real): real {
    if a < 0.0 then -a else a
  }

  /** The lower side in one dimension, zero where the box has no such dimension. */
  function Lo(b: NDBox, i: nat): real
    requires Valid(b)
  {
    if i < b.dim then Min(LL(b, i), UR(b, i)) else 0.0
  }

  function Hi(b: NDBox, i: nat): real
    requires Valid(b)
  {
    if i < b.dim then Max(LL(b, i), UR(b, i)) else 0.0
  }

  // ----- union -----

  /** The bounding box of two boxes, in the larger of their dimensions. */
  ghost predicate IsUnion(r: NDBox, a: NDBox, b: NDBox)
    requires Valid(a) && Valid(b)
  {
    && Valid(r) && r.dim == (if a.dim < b.dim then b.dim else a.dim)
    && (forall i | 0 <= i < r.dim :: Lo(r, i) == Min(Lo(a, i), Lo(b, i)) && Hi(r, i) == Max(Hi(a, i), Hi(b, i)))
  }

  /** cube_is_point_internal. */
  method IsPointInternal(c: NDBox) returns (res: bool)
    requires Valid(c)
    ensures res <==> forall i | 0 <= i < c.dim :: LL(c, i) == UR(c, i)
  {
    if c.point {
      return true;
    }
    var i := 0;
    while i < c.dim
      invariant 0 <= i <= c.dim
      invariant forall k | 0 <= k < i :: LL(c, k) == UR(c, k)
    {
      if LL(c, i) != UR(c, i) {
        return false;
      }
      i := i + 1;
    }
    res := true;
  }

  /** The two loops of cube_union_v0, with the larger dimension first: lower sides into the
      first half of the result, upper sides into the second. */
  method FillUnion(a: NDBox, b: NDBox) returns (x: array<real>)
    requires Valid(a) && Valid(b) && b.dim <= a.dim
    ensures x.Length == 2 * a.dim
    ensures forall k | 0 <= k < a.dim :: x[k] == Min(Lo(a, k), Lo(b, k)) && x[k + a.dim] == Max(Hi(a, k), Hi(b, k))
  {
    hide Lo, Hi;
    var dim := a.dim;
    x := new real[2 * dim](_ => 0.0);
    var i := 0;
    while i < b.dim
      invariant 0 <= i <= b.dim && fresh(x)
      invariant forall k | 0 <= k < i :: x[k] == Min(Lo(a, k), Lo(b, k)) && x[k + dim] == Max(Hi(a, k), Hi(b, k))
    {
      SidesAt(a, i);
      SidesAt(b, i);
      x[i] := Min(Min(LL(a, i), UR(a, i)), Min(LL(b, i), UR(b, i)));
      x[i + dim] := Max(Max(LL(a, i), UR(a, i)), Max(LL(b, i), UR(b, i)));
      i := i + 1;
    }
    while i < dim
      invariant b.dim <= i <= dim && fresh(x)
      invariant forall k | 0 <= k < i :: x[k] == Min(Lo(a, k), Lo(b, k)) && x[k + dim] == Max(Hi(a, k), Hi(b, k))
    {
      SidesAt(a, i);
      Beyond(b, i);
      x[i] := Min(0.0, Min(LL(a, i), UR(a, i)));
      x[i + dim] := Max(0.0, Max(LL(a, i), UR(a, i)));
      i := i + 1;
    }
  }

  lemma {:induction false} SidesAt(b: NDBox, i: nat)
    requires Valid(b) && i < b.dim
    ensures Lo(b, i) == Min(LL(b, i), UR(b, i)) && Hi(b, i) == Max(LL(b, i), UR(b, i))
  {
  }

  /** Lower sides are at most upper sides. */
  lemma {:induction false} Sides(b: NDBox, i: nat)
    requires Valid(b)
    ensures Lo(b, i) <= Hi(b, i)
  {
  }

  /** cube_union_v0. */
  method UnionV0(a0: NDBox, b0: NDBox) returns (r: NDBox)
    requires Valid(a0) && Valid(b0)
    ensures IsUnion(r, a0, b0)
  {
    var a, b := a0, b0;
    if a.dim < b.dim {
      a, b := b, a;
    }
    var x := FillUnion(a, b);
    r := NDBox(a.dim, false, x[..]);
    hide Lo, Hi;
    UnionSides(r, a, b);
    var isPoint := IsPointInternal(r);
    if isPoint {
      PointSides(r);
      r := r.(point := true);
    }
  }

  lemma {:induction false} UnionSides(r: NDBox, a: NDBox, b: NDBox)
    requires Valid(a) && Valid(b) && b.dim <= a.dim == r.dim && !r.point && |r.x| == 2 * r.dim
    requires forall k | 0 <= k < a.dim ::
               r.x[k] == Min(Lo(a, k), Lo(b, k)) && r.x[k + a.dim] == Max(Hi(a, k), Hi(b, k))
    ensures IsUnion(r, a, b) && IsUnion(r, b, a)
  {
    forall i | 0 <= i < r.dim
      ensures Lo(r, i) == Min(Lo(a, i), Lo(b, i)) && Hi(r, i) == Max(Hi(a, i), Hi(b, i))
    {
      Sides(a, i);
      Sides(b, i);
    }
  }

  /** Setting the flag of a box that is a point changes no side. */
  lemma {:induction false} PointSides(r: NDBox)
    requires Valid(r) && forall i | 0 <= i < r.dim :: LL(r, i) == UR(r, i)
    ensures var p := r.(point := true); Valid(p) && forall i: nat :: Lo(p, i) == Lo(r, i) && Hi(p, i) == Hi(r, i)
  {
    var p := r.(point := true);
    forall i: nat
      ensures Lo(p, i) == Lo(r, i) && Hi(p, i) == Hi(r, i)
    {
      if i < r.dim {
        assert LL(r, i) == UR(r, i);
      }
    }
  }

  // ----- coverage -----

  /** The key has the box's dimensions and encloses it, missing dimensions being zero. */
  ghost predicate Covers(k: NDBox, b: NDBox)
    requires Valid(k) && Valid(b)
  {
    b.dim <= k.dim && forall i: nat :: Encloses(k, b, i)
  }

  ghost predicate Encloses(k: NDBox, b: NDBox, i: nat)
    requires Valid(k) && Valid(b)
  {
    Lo(k, i) <= Lo(b, i) && Hi(b, i) <= Hi(k, i)
  }

  lemma {:induction false} CoversSelf(b: NDBox)
    requires Valid(b)
    ensures Covers(b, b)
  {
  }

  lemma {:induction false} UnionCovers(r: NDBox, a: NDBox, b: NDBox, leaf: NDBox)
    requires Valid(a) && Valid(b) && Valid(leaf) && IsUnion(r, a, b) && (Covers(a, leaf) || Covers(b, leaf))
    ensures Covers(r, leaf)
  {
    hide Lo, Hi;
    forall i: nat
      ensures Encloses(r, leaf, i)
    {
      assert Covers(a, leaf) ==> Encloses(a, leaf, i);
      assert Covers(b, leaf) ==> Encloses(b, leaf, i);
      if i >= r.dim {
        Beyond(r, i);
        Beyond(a, i);
        Beyond(b, i);
      }
    }
  }

  lemma {:induction false} Beyond(b: NDBox, i: nat)
    requires Valid(b) && i >= b.dim
    ensures Lo(b, i) == 0.0 == Hi(b, i)
  {
  }

  /** How a key came about: a leaf box, or a union of two keys. */
  datatype Build = Box(box: NDBox) | Joined(left: Build, right: Build, leftKey: NDBox, rightKey: NDBox)

  ghost predicate BuiltAs(b: Build, k: NDBox) {
    match b
    case Box(box) => Valid(box) && k == box
    case Joined(l, r, lk, rk) => BuiltAs(l, lk) && BuiltAs(r, rk) && Valid(lk) && Valid(rk) && IsUnion(k, lk, rk)
  }

  ghost predicate Has(b: Build, leaf: NDBox) {
    match b
    case Box(box) => box == leaf
    case Joined(l, r, _, _) => Has(l, leaf) || Has(r, leaf)
  }

  /** Any repetition of unions covers every member after zero-extension. */
  lemma {:induction false} BuiltCovers(b: Build, k: NDBox, leaf: NDBox)
    requires BuiltAs(b, k) && Has(b, leaf)
    ensures Valid(k) && Valid(leaf) && Covers(k, leaf)
    decreases b
  {
    hide Lo, Hi, Covers;
    match b
    case Box(box) => CoversSelf(box);
    case Joined(l, r, lk, rk) =>
      if Has(l, leaf) {
        BuiltCovers(l, lk, leaf);
      } else {
        BuiltCovers(r, rk, leaf);
      }
      UnionCovers(k, lk, rk, leaf);
  }

  // ----- the tests -----

  /** The boxes meet in every dimension, missing dimensions being zero. */
  ghost predicate Overlaps(a: NDBox, b: NDBox)
    requires Valid(a) && Valid(b)
  {
    forall i: nat :: Meets(a, b, i)
  }

  ghost predicate Meets(a: NDBox, b: NDBox, i: nat)
    requires Valid(a) && Valid(b)
  {
    Lo(a, i) <= Hi(b, i) && Lo(b, i) <= Hi(a, i)
  }

  /** Containment in the common dimensions; extra dimensions of the contained box must be zero,
      extra dimensions of the containing box do not matter. */
  ghost predicate Contains(a: NDBox, b: NDBox)
    requires Valid(a) && Valid(b)
  {
    && (forall i | 0 <= i < a.dim && i < b.dim :: Encloses(a, b, i))
    && (forall i | a.dim <= i < b.dim :: Lo(b, i) == 0.0 == Hi(b, i))
  }

  /** cube_overlap_v0. */
  method OverlapV0(a0: NDBox, b0: NDBox) returns (res: bool)
    requires Valid(a0) && Valid(b0)
    ensures res <==> Overlaps(a0, b0)
  {
    var a, b := a0, b0;
    if a.dim < b.dim {
      a, b := b, a;
    }
    assert forall i: nat :: Meets(a, b, i) <==> Meets(a0, b0, i);
    var i := 0;
    while i < b.dim
      invariant 0 <= i <= b.dim
      invariant forall k | 0 <= k < i :: Meets(a, b, k)
    {
      if Min(LL(a, i), UR(a, i)) > Max(LL(b, i), UR(b, i)) {
        assert !Meets(a, b, i);
        return false;
      }
      if Max(LL(a, i), UR(a, i)) < Min(LL(b, i), UR(b, i)) {
        assert !Meets(a, b, i);
        return false;
      }
      i := i + 1;
    }
    while i < a.dim
      invariant b.dim <= i <= a.dim
      invariant forall k | 0 <= k < i :: Meets(a, b, k)
    {
      if Min(LL(a, i), UR(a, i)) > 0.0 {
        assert !Meets(a, b, i);
        return false;
      }
      if Max(LL(a, i), UR(a, i)) < 0.0 {
        assert !Meets(a, b, i);
        return false;
      }
      i := i + 1;
    }
    forall k: nat
      ensures Meets(a, b, k)
    {
      if k >= a.dim {
        Beyond(a, k);
        Beyond(b, k);
      }
    }
    res := true;
  }

  /** cube_contains_v0. */
  method ContainsV0(a: NDBox, b: NDBox) returns (res: bool)
    requires Valid(a) && Valid(b)
    ensures res <==> Contains(a, b)
  {
    var i;
    if a.dim < b.dim {
      i := a.dim;
      while i < b.dim
        invariant a.dim <= i <= b.dim
        invariant forall k | a.dim <= k < i :: Lo(b, k) == 0.0 == Hi(b, k)
      {
        if LL(b, i) != 0.0 {
          assert !(Lo(b, i) == 0.0 == Hi(b, i));
          return false;
        }
        if UR(b, i) != 0.0 {
          assert !(Lo(b, i) == 0.0 == Hi(b, i));
          return false;
        }
        i := i + 1;
      }
    }
    i := 0;
    var m := if a.dim < b.dim then a.dim else b.dim;
    while i < m
      invariant 0 <= i <= m
      invariant forall k | 0 <= k < i :: Encloses(a, b, k)
    {
      if Min(LL(a, i), UR(a, i)) > Min(LL(b, i), UR(b, i)) {
        assert !Encloses(a, b, i);
        return false;
      }
      if Max(LL(a, i), UR(a, i)) < Max(LL(b, i), UR(b, i)) {
        assert !Encloses(a, b, i);
        return false;
      }
      i := i + 1;
    }
    res := true;
  }
}
