/**
 Searching boxes (g_cube_leaf_consistent and g_cube_internal_consistent in contrib/cube/cube.c):
 no inner key loses a leaf, with one exact exception.
 */
module CubeIndex {
  import opened Cube
  import opened CubeOrder

  // ----- consistency -----

  datatype Strategy = Overlap | SameBox | Contain | ContainedBy

  /** A leaf satisfies the query. */
  ghost predicate Satisfies(leaf: NDBox, q: NDBox, s: Strategy)
    requires Valid(leaf) && Valid(q)
  {
    match s
    case Overlap => Overlaps(leaf, q)
    case SameBox => Same(leaf, q)
    case Contain => Contains(leaf, q)
    case ContainedBy => Contains(q, leaf)
  }

  /** The test of an inner key. */
  ghost predicate InnerTest(k: NDBox, q: NDBox, s: Strategy)
    requires Valid(k) && Valid(q)
  {
    match s
    case Overlap => Overlaps(k, q)
    case SameBox => Contains(k, q)
    case Contain => Contains(k, q)
    case ContainedBy => Overlaps(k, q)
  }

  /** g_cube_leaf_consistent. */
  method LeafConsistent(key: NDBox, q: NDBox, s: Strategy) returns (res: bool)
    requires Valid(key) && Valid(q)
    ensures res <==> Satisfies(key, q, s)
  {
    hide Overlaps, Contains, Same, Order;
    match s {
      case Overlap => res := OverlapV0(key, q);
      case SameBox =>
        var c := CmpV0(key, q);
        OrderZero(key, q);
        res := c == 0;
      case Contain => res := ContainsV0(key, q);
      case ContainedBy => res := ContainsV0(q, key);
    }
  }

  /** g_cube_internal_consistent. */
  method InternalConsistent(key: NDBox, q: NDBox, s: Strategy) returns (res: bool)
    requires Valid(key) && Valid(q)
    ensures res <==> InnerTest(key, q, s)
  {
    hide Overlaps, Contains;
    match s {
      case Overlap => res := OverlapV0(key, q);
      case SameBox => res := ContainsV0(key, q);
      case Contain => res := ContainsV0(key, q);
      case ContainedBy => res := OverlapV0(key, q);
    }
  }

  lemma {:induction false} OverlapKept(k: NDBox, leaf: NDBox, q: NDBox)
    requires Valid(k) && Valid(leaf) && Valid(q) && Covers(k, leaf) && Overlaps(leaf, q)
    ensures Overlaps(k, q)
  {
    hide Lo, Hi;
    forall i: nat
      ensures Meets(k, q, i)
    {
      assert Meets(leaf, q, i) && Encloses(k, leaf, i);
    }
  }

  lemma {:induction false} ContainsKept(k: NDBox, leaf: NDBox, q: NDBox)
    requires Valid(k) && Valid(leaf) && Valid(q) && Covers(k, leaf) && Contains(leaf, q)
    ensures Contains(k, q)
  {
    hide Lo, Hi;
    forall i | 0 <= i < k.dim && i < q.dim
      ensures Encloses(k, q, i)
    {
      assert Encloses(k, leaf, i);
      if i < leaf.dim {
        assert Encloses(leaf, q, i);
      } else {
        Beyond(leaf, i);
      }
    }
  }

  lemma {:induction false} SameKept(k: NDBox, leaf: NDBox, q: NDBox)
    requires Valid(k) && Valid(leaf) && Valid(q) && Covers(k, leaf) && Same(leaf, q)
    ensures Contains(k, q)
  {
    hide Lo, Hi;
    forall i | 0 <= i < k.dim && i < q.dim
      ensures Encloses(k, q, i)
    {
      assert Encloses(k, leaf, i);
    }
  }

  /** Where the query has dimensions that the leaf lacks, its interval contains zero. */
  ghost predicate ZeroInExtra(q: NDBox, leaf: NDBox)
    requires Valid(q)
  {
    forall i | leaf.dim <= i < q.dim :: Lo(q, i) <= 0.0 <= Hi(q, i)
  }

  /** No inner key above a matching leaf is rejected; for contained-by queries, if the query's
      extra dimensions contain zero, in particular if it has none. */
  lemma {:induction false} NeverLoses(b: Build, k: NDBox, leaf: NDBox, q: NDBox, s: Strategy)
    requires BuiltAs(b, k) && Has(b, leaf) && Valid(leaf) && Valid(k) && Valid(q) && Satisfies(leaf, q, s)
    requires s.ContainedBy? ==> ZeroInExtra(q, leaf)
    ensures InnerTest(k, q, s)
  {
    hide Overlaps, Contains, Same, Covers, ZeroInExtra;
    BuiltCovers(b, k, leaf);
    match s
    case Overlap => OverlapKept(k, leaf, q);
    case SameBox => SameKept(k, leaf, q);
    case Contain => ContainsKept(k, leaf, q);
    case ContainedBy =>
      ContainedMeets(leaf, q);
      OverlapKept(k, leaf, q);
  }

  /** A contained leaf overlaps the query exactly when zero is in the query's extra dimensions. */
  lemma {:induction false} ContainedMeets(leaf: NDBox, q: NDBox)
    requires Valid(leaf) && Valid(q) && Contains(q, leaf)
    ensures Overlaps(leaf, q) <==> ZeroInExtra(q, leaf)
  {
    hide Lo, Hi;
    if ZeroInExtra(q, leaf) {
      forall i: nat
        ensures Meets(leaf, q, i)
      {
        Sides(leaf, i);
        Sides(q, i);
        if i < leaf.dim && i < q.dim {
          assert Encloses(q, leaf, i);
        } else {
          if i >= leaf.dim {
            Beyond(leaf, i);
          }
          if i >= q.dim {
            Beyond(q, i);
          }
        }
      }
    }
    if Overlaps(leaf, q) {
      forall i | leaf.dim <= i < q.dim
        ensures Lo(q, i) <= 0.0 <= Hi(q, i)
      {
        Beyond(leaf, i);
        assert Meets(leaf, q, i);
      }
    }
  }

  /** The exception is exact: a contained leaf is found under every key that covers it if and
      only if zero is in the query's extra dimensions. */
  lemma {:induction false} ContainedByIff(leaf: NDBox, q: NDBox)
    requires Valid(leaf) && Valid(q) && Contains(q, leaf)
    ensures (forall k | Valid(k) && Covers(k, leaf) :: InnerTest(k, q, ContainedBy)) <==> ZeroInExtra(q, leaf)
  {
    hide Contains, Overlaps, Covers, ZeroInExtra;
    ContainedMeets(leaf, q);
    if ZeroInExtra(q, leaf) {
      forall k | Valid(k) && Covers(k, leaf)
        ensures InnerTest(k, q, ContainedBy)
      {
        OverlapKept(k, leaf, q);
      }
    }
    if forall k | Valid(k) && Covers(k, leaf) :: InnerTest(k, q, ContainedBy) {
      CoversSelf(leaf);
      assert InnerTest(leaf, q, ContainedBy);
    }
  }

  /** The point 0 of one dimension is contained in the box from (0, 1) to (0, 2), but its own key
      is rejected. */
  lemma {:induction false} ContainedByMissed()
    ensures var leaf, q := NDBox(1, true, [0.0]), NDBox(2, false, [0.0, 1.0, 0.0, 2.0]);
            Contains(q, leaf) && BuiltAs(Box(leaf), leaf) && !InnerTest(leaf, q, ContainedBy)
  {
    var leaf, q := NDBox(1, true, [0.0]), NDBox(2, false, [0.0, 1.0, 0.0, 2.0]);
    assert !Meets(leaf, q, 1);
  }
}
