/**
 What the box operations of contrib/cube/cube.c mean for the points of the boxes: overlap is a
 common point, containment is inclusion, a union is the least box around two, and the search
 descends into a key exactly when some box under it could match.
 */
module CubePoints {
  import opened Cube
  import opened CubeOrder
  import opened CubeIndex
  import opened CubeDistance

  /** The point with the given coordinates is in the box if they are between its sides. */
  lemma {:induction false} InBoxIff(p: Point, b: NDBox)
    requires Valid(b)
    ensures InBox(p, b) <==> forall i | 0 <= i < |p| :: Lo(b, i) <= p[i] <= Hi(b, i)
  {
    hide LL, UR, Lo, Hi, Between;
    forall i | 0 <= i < |p|
      ensures (if i < b.dim then Between(p[i], LL(b, i), UR(b, i)) else p[i] == 0.0) <==> Lo(b, i) <= p[i] <= Hi(b, i)
    {
      InSides(p[i], b, i);
    }
  }

  /** Two boxes overlap exactly when they have a common point. */
  lemma {:induction false} OverlapMeans(a: NDBox, b: NDBox)
    requires Valid(a) && Valid(b)
    ensures Overlaps(a, b) <==> exists p: Point :: PointsOf(a, b, p, p)
  {
    hide Lo, Hi, InBox;
    var n := Dims(a, b);
    if Overlaps(a, b) {
      var p: Point := seq(n, i requires 0 <= i < n => Max(Lo(a, i), Lo(b, i)));
      forall i | 0 <= i < n
        ensures Lo(a, i) <= p[i] <= Hi(a, i) && Lo(b, i) <= p[i] <= Hi(b, i)
      {
        assert Meets(a, b, i);
        Sides(a, i);
        Sides(b, i);
      }
      InBoxIff(p, a);
      InBoxIff(p, b);
      assert PointsOf(a, b, p, p);
    }
    if p: Point :| PointsOf(a, b, p, p) {
      InBoxIff(p, a);
      InBoxIff(p, b);
      forall i: nat
        ensures Meets(a, b, i)
      {
        if i >= n {
          Beyond(a, i);
          Beyond(b, i);
        } else {
          assert Lo(a, i) <= p[i] <= Hi(a, i);
        }
      }
    }
  }

  /** A box contains another exactly when it has all its points; dimensions that only the
      containing box has do not count. */
  lemma {:induction false} ContainsMeans(a: NDBox, b: NDBox)
    requires Valid(a) && Valid(b)
    ensures Contains(a, b) <==> forall p: Point | |p| == b.dim && InBox(p, b) :: InBox(p, a)
  {
    hide LL, UR, Lo, Hi, InBox;
    if Contains(a, b) {
      forall p: Point | |p| == b.dim && InBox(p, b)
        ensures InBox(p, a)
      {
        ContainedPoint(a, b, p);
      }
    }
    if forall p: Point | |p| == b.dim && InBox(p, b) :: InBox(p, a) {
      var lows: Point := seq(b.dim, i requires 0 <= i < b.dim => Lo(b, i));
      var highs: Point := seq(b.dim, i requires 0 <= i < b.dim => Hi(b, i));
      assert forall i | 0 <= i < b.dim :: Lo(b, i) <= Hi(b, i) by {
        forall i | 0 <= i < b.dim
          ensures Lo(b, i) <= Hi(b, i)
        {
          Sides(b, i);
        }
      }
      InBoxIff(lows, b);
      InBoxIff(highs, b);
      InBoxIff(lows, a);
      InBoxIff(highs, a);
      CornersIn(a, b, lows, highs);
    }
  }

  lemma {:induction false} ContainedPoint(a: NDBox, b: NDBox, p: Point)
    requires Valid(a) && Valid(b) && Contains(a, b) && |p| == b.dim && InBox(p, b)
    ensures InBox(p, a)
  {
    hide LL, UR, Lo, Hi, InBox;
    InBoxIff(p, b);
    InBoxIff(p, a);
    forall i | 0 <= i < |p|
      ensures Lo(a, i) <= p[i] <= Hi(a, i)
    {
      if i < a.dim {
        assert Encloses(a, b, i);
      } else {
        Beyond(a, i);
      }
    }
  }

  lemma {:induction false} CornersIn(a: NDBox, b: NDBox, lows: Point, highs: Point)
    requires Valid(a) && Valid(b) && |lows| == b.dim == |highs|
    requires forall i | 0 <= i < b.dim :: lows[i] == Lo(b, i) && highs[i] == Hi(b, i) && Lo(b, i) <= Hi(b, i)
    requires forall i | 0 <= i < b.dim :: Lo(a, i) <= lows[i] <= Hi(a, i) && Lo(a, i) <= highs[i] <= Hi(a, i)
    ensures Contains(a, b)
  {
    hide Lo, Hi;
    forall i | a.dim <= i < b.dim
      ensures Lo(b, i) == 0.0 == Hi(b, i)
    {
      Beyond(a, i);
      assert lows[i] == Lo(b, i) && highs[i] == Hi(b, i);
    }
    forall i | 0 <= i < a.dim && i < b.dim
      ensures Encloses(a, b, i)
    {
      assert lows[i] == Lo(b, i) && highs[i] == Hi(b, i);
    }
  }

  /** The union of two boxes is the least key that covers both. */
  lemma {:induction false} UnionIsLeast(r: NDBox, a: NDBox, b: NDBox, k: NDBox)
    requires Valid(a) && Valid(b) && Valid(k) && IsUnion(r, a, b)
    ensures Covers(r, a) && Covers(r, b)
    ensures Covers(k, a) && Covers(k, b) ==> Covers(k, r)
  {
    hide Lo, Hi;
    CoversSelf(a);
    CoversSelf(b);
    UnionCovers(r, a, b, a);
    UnionCovers(r, a, b, b);
    if Covers(k, a) && Covers(k, b) {
      forall i: nat
        ensures Encloses(k, r, i)
      {
        assert Encloses(k, a, i) && Encloses(k, b, i);
        if i >= r.dim {
          Beyond(r, i);
          Beyond(a, i);
        }
      }
    }
  }

  // ----- pruning -----

  /** Some box that the key covers satisfies the query. */
  ghost predicate SomeSatisfies(k: NDBox, q: NDBox, s: Strategy)
    requires Valid(k) && Valid(q)
  {
    exists leaf :: Valid(leaf) && Covers(k, leaf) && Satisfies(leaf, q, s)
  }

  /** The inner test passes exactly when some covered box satisfies the query, for overlap and
      contains; for contained-by when one does that meets the query; for equality when the
      query itself is covered it passes. */
  lemma {:induction false} PruningIsTight(k: NDBox, q: NDBox)
    requires Valid(k) && Valid(q)
    ensures InnerTest(k, q, Overlap) <==> SomeSatisfies(k, q, Overlap)
    ensures InnerTest(k, q, Contain) <==> SomeSatisfies(k, q, Contain)
    ensures InnerTest(k, q, ContainedBy) <==>
              exists leaf :: Valid(leaf) && Covers(k, leaf) && Contains(q, leaf) && Overlaps(leaf, q)
    ensures SomeSatisfies(k, q, SameBox) <==> InnerTest(k, q, SameBox) && Covers(k, q)
  {
    hide Overlaps, Contains, Covers, Same;
    CoversSelf(k);
    if InnerTest(k, q, Overlap) {
      assert Satisfies(k, q, Overlap);
      var leaf := MeetingPoint(k, q);
    }
    if InnerTest(k, q, Contain) {
      assert Satisfies(k, q, Contain);
    }
    forall leaf | Valid(leaf) && Covers(k, leaf)
      ensures Overlaps(leaf, q) ==> Overlaps(k, q)
      ensures Contains(leaf, q) ==> Contains(k, q)
      ensures Same(leaf, q) ==> Contains(k, q) && Covers(k, q)
    {
      if Overlaps(leaf, q) {
        OverlapKept(k, leaf, q);
      }
      if Contains(leaf, q) {
        ContainsKept(k, leaf, q);
      }
      if Same(leaf, q) {
        SameKept(k, leaf, q);
        SameCovered(k, leaf, q);
      }
    }
    if Covers(k, q) {
      assert Same(q, q) by { SameSelf(q); }
      assert Satisfies(q, q, SameBox);
    }
  }

  lemma {:induction false} SameSelf(q: NDBox)
    requires Valid(q)
    ensures Same(q, q)
  {
  }

  lemma {:induction false} SameCovered(k: NDBox, leaf: NDBox, q: NDBox)
    requires Valid(k) && Valid(leaf) && Valid(q) && Covers(k, leaf) && Same(leaf, q)
    ensures Covers(k, q)
  {
    hide Lo, Hi;
    forall i: nat
      ensures Encloses(k, q, i)
    {
      assert Encloses(k, leaf, i);
      if i >= q.dim {
        Beyond(q, i);
        Beyond(leaf, i);
      }
    }
  }

  /** A point under a key that meets the query, of the dimension of the key. */
  lemma {:induction false} MeetingPoint(k: NDBox, q: NDBox) returns (leaf: NDBox)
    requires Valid(k) && Valid(q) && Overlaps(k, q)
    ensures Valid(leaf) && Covers(k, leaf) && Contains(q, leaf) && Overlaps(leaf, q)
  {
    hide Lo, Hi;
    leaf := NDBox(k.dim, true, seq(k.dim, i requires 0 <= i < k.dim => Max(Lo(k, i), Lo(q, i))));
    forall i: nat
      ensures Encloses(k, leaf, i) && Meets(leaf, q, i)
      ensures i < q.dim ==> Encloses(q, leaf, i)
      ensures i >= q.dim ==> Lo(leaf, i) == 0.0 == Hi(leaf, i)
    {
      assert Meets(k, q, i);
      Sides(k, i);
      Sides(q, i);
      if i < k.dim {
        SidesAt(leaf, i);
      } else {
        Beyond(k, i);
        Beyond(leaf, i);
      }
      if i >= q.dim {
        Beyond(q, i);
      }
    }
  }
}
