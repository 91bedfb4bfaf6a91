/**
 Comparing boxes (cube_cmp_v0 in contrib/cube/cube.c): which dimensions may be mixed before
 the comparison stops being an order.
 */
module CubeOrder {
  import opened Cube

  function SignOf(a: real, b: real): int {
    if a > b then 1 else if a < b then -1 else 0
  }

  /** The first nonzero sign among the lower sides from i to n. */
  function CmpLo(a: NDBox, b: NDBox, i: nat, n: nat): (c: int)
    requires Valid(a) && Valid(b)
    decreases n - i
  {
    if i >= n then 0
    else if SignOf(Lo(a, i), Lo(b, i)) != 0 then SignOf(Lo(a, i), Lo(b, i)) else CmpLo(a, b, i + 1, n)
  }

  function CmpHi(a: NDBox, b: NDBox, i: nat, n: nat): (c: int)
    requires Valid(a) && Valid(b)
    decreases n - i
  {
    if i >= n then 0
    else if SignOf(Hi(a, i), Hi(b, i)) != 0 then SignOf(Hi(a, i), Hi(b, i)) else CmpHi(a, b, i + 1, n)
  }

  function First(c: int, d: int): int {
    if c != 0 then c else d
  }

  /** Lower sides, then upper sides, of the common dimensions; then those of the others against
      zero; then the dimensions. */
  function Order(a: NDBox, b: NDBox): int
    requires Valid(a) && Valid(b)
  {
    var m := if a.dim < b.dim then a.dim else b.dim;
    var n := if a.dim < b.dim then b.dim else a.dim;
    First(CmpLo(a, b, 0, m), First(CmpHi(a, b, 0, m), First(CmpLo(a, b, m, n), First(CmpHi(a, b, m, n),
      if a.dim > b.dim then 1 else if a.dim < b.dim then -1 else 0))))
  }

  /** One loop of cube_cmp_v0 over lower sides. */
  method LoopLo(a: NDBox, b: NDBox, from: nat, n: nat) returns (c: int)
    requires Valid(a) && Valid(b) && from <= n
    ensures c == CmpLo(a, b, from, n)
  {
    var i := from;
    while i < n
      invariant from <= i <= n && CmpLo(a, b, from, n) == CmpLo(a, b, i, n)
    {
      if Lo(a, i) > Lo(b, i) {
        return 1;
      }
      if Lo(a, i) < Lo(b, i) {
        return -1;
      }
      i := i + 1;
    }
    c := 0;
  }

  method LoopHi(a: NDBox, b: NDBox, from: nat, n: nat) returns (c: int)
    requires Valid(a) && Valid(b) && from <= n
    ensures c == CmpHi(a, b, from, n)
  {
    var i := from;
    while i < n
      invariant from <= i <= n && CmpHi(a, b, from, n) == CmpHi(a, b, i, n)
    {
      if Hi(a, i) > Hi(b, i) {
        return 1;
      }
      if Hi(a, i) < Hi(b, i) {
        return -1;
      }
      i := i + 1;
    }
    c := 0;
  }

  /** cube_cmp_v0. */
  method CmpV0(a: NDBox, b: NDBox) returns (c: int)
    requires Valid(a) && Valid(b)
    ensures c == Order(a, b)
  {
    hide CmpLo, CmpHi;
    var dim := if a.dim < b.dim then a.dim else b.dim;
    c := LoopLo(a, b, 0, dim);
    if c != 0 {
      return;
    }
    c := LoopHi(a, b, 0, dim);
    if c != 0 {
      return;
    }
    if a.dim > b.dim {
      c := LoopLo(a, b, dim, a.dim);
      if c != 0 {
        return;
      }
      c := LoopHi(a, b, dim, a.dim);
      if c != 0 {
        return;
      }
      return 1;
    }
    if a.dim < b.dim {
      c := LoopLo(a, b, dim, b.dim);
      if c != 0 {
        return;
      }
      c := LoopHi(a, b, dim, b.dim);
      if c != 0 {
        return;
      }
      return -1;
    }
    NoneLeft(a, b, dim);
    c := 0;
  }

  lemma {:induction false} NoneLeft(a: NDBox, b: NDBox, n: nat)
    requires Valid(a) && Valid(b)
    ensures CmpLo(a, b, n, n) == 0 == CmpHi(a, b, n, n)
  {
  }

  lemma {:induction false} CmpZero(a: NDBox, b: NDBox, i: nat, n: nat)
    requires Valid(a) && Valid(b) && i <= n
    ensures CmpLo(a, b, i, n) == 0 <==> forall k | i <= k < n :: Lo(a, k) == Lo(b, k)
    ensures CmpHi(a, b, i, n) == 0 <==> forall k | i <= k < n :: Hi(a, k) == Hi(b, k)
    decreases n - i
  {
    hide Lo, Hi;
    if i < n {
      CmpZero(a, b, i + 1, n);
    }
  }

  /** Same dimension and same sides. */
  ghost predicate Same(a: NDBox, b: NDBox)
    requires Valid(a) && Valid(b)
  {
    a.dim == b.dim && forall k | 0 <= k < a.dim :: Lo(a, k) == Lo(b, k) && Hi(a, k) == Hi(b, k)
  }

  /** The comparison is zero exactly for the same box. */
  lemma {:induction false} OrderZero(a: NDBox, b: NDBox)
    requires Valid(a) && Valid(b)
    ensures Order(a, b) == 0 <==> Same(a, b)
  {
    hide Lo, Hi, CmpLo, CmpHi;
    var m := if a.dim < b.dim then a.dim else b.dim;
    CmpZero(a, b, 0, m);
    NoneLeft(a, b, m);
  }

  ghost function Lows(a: NDBox, m: nat, n: nat): (s: seq<real>)
    requires Valid(a) && m <= n
    ensures |s| == n - m && forall i | 0 <= i < n - m :: s[i] == Lo(a, m + i)
  {
    seq(n - m, i requires 0 <= i < n - m => Lo(a, m + i))
  }

  ghost function Highs(a: NDBox, m: nat, n: nat): (s: seq<real>)
    requires Valid(a) && m <= n
    ensures |s| == n - m && forall i | 0 <= i < n - m :: s[i] == Hi(a, m + i)
  {
    seq(n - m, i requires 0 <= i < n - m => Hi(a, m + i))
  }

  /** The sides in the order in which boxes of dimensions m <= n are compared: lower sides of the
      common dimensions, their upper sides, then the lower and the upper sides of the others. */
  ghost function SidesOf(a: NDBox, m: nat, n: nat): (s: seq<real>)
    requires Valid(a) && m <= n
    ensures |s| == 2 * n
  {
    Lows(a, 0, m) + Highs(a, 0, m) + Lows(a, m, n) + Highs(a, m, n)
  }

  /** At position i the first box has the smaller side, and none differs before. */
  ghost predicate SideBelow(s: seq<real>, t: seq<real>, i: nat) {
    i < |s| && i < |t| && s[i] < t[i] && forall k | 0 <= k < i :: s[k] == t[k]
  }

  ghost predicate SomeBelow(s: seq<real>, t: seq<real>) {
    exists i: nat :: SideBelow(s, t, i)
  }

  /** The box with the smaller side at the first difference comes first; without a difference the
      box of fewer dimensions. */
  ghost predicate Precedes(a: NDBox, b: NDBox)
    requires Valid(a) && Valid(b)
  {
    var m, n := if a.dim < b.dim then a.dim else b.dim, if a.dim < b.dim then b.dim else a.dim;
    var s, t := SidesOf(a, m, n), SidesOf(b, m, n);
    SomeBelow(s, t) || (s == t && a.dim < b.dim)
  }

  /** The comparison from position i on of sequences of sides. */
  function CmpSides(s: seq<real>, t: seq<real>, i: nat): int
    requires |s| == |t|
    decreases |s| - i
  {
    if i >= |s| then 0 else if s[i] > t[i] then 1 else if s[i] < t[i] then -1 else CmpSides(s, t, i + 1)
  }

  lemma {:induction false} CmpSidesMeans(s: seq<real>, t: seq<real>, i: nat)
    requires |s| == |t| && i <= |s| && forall k | 0 <= k < i :: s[k] == t[k]
    ensures CmpSides(s, t, i) < 0 <==> SomeBelow(s, t)
    ensures CmpSides(s, t, i) == 0 <==> s == t
    decreases |s| - i
  {
    if i < |s| {
      if s[i] == t[i] {
        CmpSidesMeans(s, t, i + 1);
      } else {
        assert s[i] < t[i] ==> SideBelow(s, t, i);
      }
    }
  }

  lemma {:induction false} CmpSidesJoin(s: seq<real>, t: seq<real>, u: seq<real>, v: seq<real>, i: nat)
    requires |s| == |t| && |u| == |v| && i <= |s|
    ensures CmpSides(s + u, t + v, i) == First(CmpSides(s, t, i), CmpSides(u, v, 0))
    decreases |s| - i
  {
    if i < |s| {
      CmpSidesJoin(s, t, u, v, i + 1);
    } else {
      CmpSidesTail(s, t, u, v, 0);
    }
  }

  lemma {:induction false} CmpSidesTail(s: seq<real>, t: seq<real>, u: seq<real>, v: seq<real>, k: nat)
    requires |s| == |t| && |u| == |v| && k <= |u|
    ensures CmpSides(s + u, t + v, |s| + k) == CmpSides(u, v, k)
    decreases |u| - k
  {
    if k < |u| {
      CmpSidesTail(s, t, u, v, k + 1);
    }
  }

  lemma {:induction false} CmpIsSides(a: NDBox, b: NDBox, m: nat, n: nat, k: nat)
    requires Valid(a) && Valid(b) && m <= n && k <= n - m
    ensures CmpLo(a, b, m + k, n) == CmpSides(Lows(a, m, n), Lows(b, m, n), k)
    ensures CmpHi(a, b, m + k, n) == CmpSides(Highs(a, m, n), Highs(b, m, n), k)
    decreases n - m - k
  {
    hide Lo, Hi;
    if k < n - m {
      CmpIsSides(a, b, m, n, k + 1);
    }
  }

  /** The sign of the comparison says which box comes first. */
  lemma {:induction false} OrderMeans(a: NDBox, b: NDBox)
    requires Valid(a) && Valid(b)
    ensures Order(a, b) < 0 <==> Precedes(a, b)
  {
    hide Lo, Hi, CmpLo, CmpHi, CmpSides, SomeBelow;
    var m, n := if a.dim < b.dim then a.dim else b.dim, if a.dim < b.dim then b.dim else a.dim;
    var s1, s2, s3, s4 := Lows(a, 0, m), Highs(a, 0, m), Lows(a, m, n), Highs(a, m, n);
    var t1, t2, t3, t4 := Lows(b, 0, m), Highs(b, 0, m), Lows(b, m, n), Highs(b, m, n);
    CmpIsSides(a, b, 0, m, 0);
    CmpIsSides(a, b, m, n, 0);
    CmpSidesJoin(s1 + s2 + s3, t1 + t2 + t3, s4, t4, 0);
    CmpSidesJoin(s1 + s2, t1 + t2, s3, t3, 0);
    CmpSidesJoin(s1, t1, s2, t2, 0);
    var s, t := SidesOf(a, m, n), SidesOf(b, m, n);
    assert s == s1 + s2 + s3 + s4 && t == t1 + t2 + t3 + t4;
    CmpSidesMeans(s, t, 0);
    assert Order(a, b) == First(CmpSides(s, t, 0), if a.dim > b.dim then 1 else if a.dim < b.dim then -1 else 0);
  }

  lemma {:induction false} CmpReverse(a: NDBox, b: NDBox, i: nat, n: nat)
    requires Valid(a) && Valid(b)
    ensures CmpLo(a, b, i, n) == -CmpLo(b, a, i, n) && CmpHi(a, b, i, n) == -CmpHi(b, a, i, n)
    decreases n - i
  {
    hide Lo, Hi;
    if i < n {
      CmpReverse(a, b, i + 1, n);
    }
  }

  lemma {:induction false} OrderReverse(a: NDBox, b: NDBox)
    requires Valid(a) && Valid(b)
    ensures Order(a, b) == -Order(b, a)
  {
    hide Lo, Hi, CmpLo, CmpHi;
    var m := if a.dim < b.dim then a.dim else b.dim;
    var n := if a.dim < b.dim then b.dim else a.dim;
    CmpReverse(a, b, 0, m);
    CmpReverse(a, b, m, n);
  }

  lemma {:induction false} CmpTransitive(a: NDBox, b: NDBox, c: NDBox, i: nat, n: nat)
    requires Valid(a) && Valid(b) && Valid(c)
    ensures CmpLo(a, b, i, n) <= 0 && CmpLo(b, c, i, n) <= 0 ==>
              CmpLo(a, c, i, n) <= 0 && (CmpLo(a, b, i, n) < 0 || CmpLo(b, c, i, n) < 0 ==> CmpLo(a, c, i, n) < 0)
    ensures CmpHi(a, b, i, n) <= 0 && CmpHi(b, c, i, n) <= 0 ==>
              CmpHi(a, c, i, n) <= 0 && (CmpHi(a, b, i, n) < 0 || CmpHi(b, c, i, n) < 0 ==> CmpHi(a, c, i, n) < 0)
    decreases n - i
  {
    hide Lo, Hi;
    if i < n {
      CmpTransitive(a, b, c, i + 1, n);
    }
  }

  // ----- transitivity -----

  /** The fields in the order in which boxes of the dimensions m and n are compared. */
  function KeyOrder(a: NDBox, b: NDBox, m: nat, n: nat): int
    requires Valid(a) && Valid(b)
  {
    First(CmpLo(a, b, 0, m), First(CmpHi(a, b, 0, m), First(CmpLo(a, b, m, n), First(CmpHi(a, b, m, n),
      if a.dim > b.dim then 1 else if a.dim < b.dim then -1 else 0))))
  }

  lemma {:induction false} BeyondBoth(a: NDBox, b: NDBox, i: nat, n: nat)
    requires Valid(a) && Valid(b) && a.dim <= i && b.dim <= i
    ensures CmpLo(a, b, i, n) == 0 == CmpHi(a, b, i, n)
    decreases n - i
  {
    if i < n {
      BeyondBoth(a, b, i + 1, n);
    }
  }

  lemma {:induction false} OrderIsKeyOrder(a: NDBox, b: NDBox, m: nat, n: nat)
    requires Valid(a) && Valid(b) && m <= n && (a.dim == m || a.dim == n) && (b.dim == m || b.dim == n)
    requires a.dim == m || b.dim == m || m == 0
    ensures Order(a, b) == KeyOrder(a, b, m, n)
  {
    hide Lo, Hi, CmpLo, CmpHi;
    if a.dim == b.dim {
      NoneLeft(a, b, a.dim);
      BeyondBoth(a, b, a.dim, n);
      if a.dim != m {
        NoneLeft(a, b, 0);
      }
    }
  }

  lemma {:induction false} KeyOrderTransitive(a: NDBox, b: NDBox, c: NDBox, m: nat, n: nat)
    requires Valid(a) && Valid(b) && Valid(c)
    requires KeyOrder(a, b, m, n) <= 0 && KeyOrder(b, c, m, n) <= 0
    ensures KeyOrder(a, c, m, n) <= 0
    ensures KeyOrder(a, b, m, n) < 0 || KeyOrder(b, c, m, n) < 0 ==> KeyOrder(a, c, m, n) < 0
  {
    hide Lo, Hi, CmpLo, CmpHi;
    CmpTransitive(a, b, c, 0, m);
    CmpTransitive(a, b, c, m, n);
    CmpReverse(a, b, 0, m);
    CmpReverse(b, c, 0, m);
    CmpSigns(a, b, c, m, n);
  }

  /** Boxes that agree in some fields compare alike in them with any third. */
  lemma {:induction false} CmpSigns(a: NDBox, b: NDBox, c: NDBox, m: nat, n: nat)
    requires Valid(a) && Valid(b) && Valid(c)
    ensures CmpLo(a, b, 0, m) == 0 == CmpLo(b, c, 0, m) ==> CmpLo(a, c, 0, m) == 0
    ensures CmpHi(a, b, 0, m) == 0 == CmpHi(b, c, 0, m) ==> CmpHi(a, c, 0, m) == 0
    ensures CmpLo(a, b, m, n) == 0 == CmpLo(b, c, m, n) ==> CmpLo(a, c, m, n) == 0
    ensures CmpHi(a, b, m, n) == 0 == CmpHi(b, c, m, n) ==> CmpHi(a, c, m, n) == 0
  {
    hide Lo, Hi, CmpLo, CmpHi;
    ZeroTransitive(a, b, c, 0, m);
    ZeroTransitive(a, b, c, m, n);
  }

  lemma {:induction false} ZeroTransitive(a: NDBox, b: NDBox, c: NDBox, i: nat, n: nat)
    requires Valid(a) && Valid(b) && Valid(c)
    ensures CmpLo(a, b, i, n) == 0 == CmpLo(b, c, i, n) ==> CmpLo(a, c, i, n) == 0
    ensures CmpHi(a, b, i, n) == 0 == CmpHi(b, c, i, n) ==> CmpHi(a, c, i, n) == 0
    decreases n - i
  {
    hide Lo, Hi;
    if i < n {
      ZeroTransitive(a, b, c, i + 1, n);
    }
  }

  /** Three dimensions that compare consistently: two of them are the smallest, or the
      smallest is zero and the others are equal. */
  predicate Compatible(p: nat, q: nat, r: nat) {
    || (p == q <= r) || (q == r <= p) || (p == r <= q)
    || (p == 0 && q == r) || (q == 0 && p == r) || (r == 0 && p == q)
  }

  /** The comparison is transitive among boxes of compatible dimensions. */
  lemma {:induction false} OrderTransitive(a: NDBox, b: NDBox, c: NDBox)
    requires Valid(a) && Valid(b) && Valid(c) && Compatible(a.dim, b.dim, c.dim)
    requires Order(a, b) <= 0 && Order(b, c) <= 0
    ensures Order(a, c) <= 0
    ensures Order(a, b) < 0 || Order(b, c) < 0 ==> Order(a, c) < 0
  {
    hide Order, KeyOrder;
    var m := if a.dim <= b.dim && a.dim <= c.dim then a.dim else if b.dim <= c.dim then b.dim else c.dim;
    var n := if a.dim >= b.dim && a.dim >= c.dim then a.dim else if b.dim >= c.dim then b.dim else c.dim;
    OrderIsKeyOrder(a, b, m, n);
    OrderIsKeyOrder(b, c, m, n);
    OrderIsKeyOrder(a, c, m, n);
    KeyOrderTransitive(a, b, c, m, n);
  }

  // ----- cycles -----

  /** A box that is zero but for the upper side `hi` in dimension 0 and a point in dimension k. */
  function Spike(dim: nat, hi: real, k: nat, at: real): (b: NDBox)
    requires k < dim && 0 < k && hi >= 0.0
    ensures Valid(b) && b.dim == dim
    ensures forall i :: Lo(b, i) == if i == k then at else 0.0
    ensures forall i :: Hi(b, i) == if i == 0 then hi else if i == k then at else 0.0
  {
    NDBox(dim, false, seq(2 * dim, j requires 0 <= j < 2 * dim =>
      if j == dim then hi else if j == k || j == k + dim then at else 0.0))
  }

  /** A box from zero to `hi` in dimension 0 and zero in the others. */
  function Bar(dim: nat, hi: real): (b: NDBox)
    requires 0 < dim && hi >= 0.0
    ensures Valid(b) && b.dim == dim
    ensures forall i :: Lo(b, i) == 0.0
    ensures forall i :: Hi(b, i) == if i == 0 then hi else 0.0
  {
    NDBox(dim, false, seq(2 * dim, j requires 0 <= j < 2 * dim => if j == dim then hi else 0.0))
  }

  ghost predicate Cycle(a: NDBox, b: NDBox, c: NDBox) {
    Valid(a) && Valid(b) && Valid(c) && Order(a, b) < 0 && Order(b, c) < 0 && Order(c, a) < 0
  }

  /** The comparison of two boxes that agree in the lower sides before k. */
  lemma {:induction false} CmpLoAt(a: NDBox, b: NDBox, i: nat, k: nat, n: nat)
    requires Valid(a) && Valid(b) && i <= k < n && Lo(a, k) < Lo(b, k)
    requires forall j | i <= j < k :: Lo(a, j) == Lo(b, j)
    ensures CmpLo(a, b, i, n) == -1
    decreases k - i
  {
    hide Lo;
    if i < k {
      CmpLoAt(a, b, i + 1, k, n);
    }
  }

  /** One box with the smallest dimension m, not zero, and two with larger ones: a cycle. */
  lemma {:induction false} CycleAbove(m: nat, p: nat, q: nat)
    requires 0 < m < p && m < q
    ensures Cycle(Spike(p, 0.0, m, 5.0), Bar(m, 1.0), Spike(q, 2.0, m, -5.0))
  {
    hide CmpLo, CmpHi, Lo, Hi, Spike, Bar;
    var a, b, c := Spike(p, 0.0, m, 5.0), Bar(m, 1.0), Spike(q, 2.0, m, -5.0);
    CmpZero(a, b, 0, m);
    CmpZero(b, c, 0, m);
    HiAtZero(a, b, m);
    HiAtZero(b, c, m);
    CmpLoAt(c, a, 0, m, if p < q then p else q);
  }

  lemma {:induction false} HiAtZero(a: NDBox, b: NDBox, n: nat)
    requires Valid(a) && Valid(b) && n > 0 && Hi(a, 0) < Hi(b, 0)
    ensures CmpHi(a, b, 0, n) == -1
  {
    hide Hi;
  }

  /** A box without dimensions and two with different ones: a cycle. */
  lemma {:induction false} CycleZero(p: nat, q: nat)
    requires 0 < p < q
    ensures Cycle(NDBox(0, false, []), Bar(p, 1.0), Spike(q, 2.0, p, -5.0))
  {
    hide CmpLo, CmpHi, Lo, Hi, Spike, Bar;
    var a, b, c := NDBox(0, false, []), Bar(p, 1.0), Spike(q, 2.0, p, -5.0);
    Nothing(a);
    NoneLeft(a, b, 0);
    NoneLeft(c, a, 0);
    CmpZero(a, b, 0, p);
    HiAtZero(a, b, p);
    CmpZero(b, c, 0, p);
    HiAtZero(b, c, p);
    CmpLoAt(c, a, 0, p, q);
  }

  lemma {:induction false} Nothing(a: NDBox)
    requires Valid(a) && a.dim == 0
    ensures forall i :: Lo(a, i) == 0.0 == Hi(a, i)
  {
  }

  /** The same three numbers in some order. */
  predicate Permuted(x: nat, y: nat, z: nat, p: nat, q: nat, r: nat) {
    || (x == p && ((y == q && z == r) || (y == r && z == q)))
    || (x == q && ((y == p && z == r) || (y == r && z == p)))
    || (x == r && ((y == p && z == q) || (y == q && z == p)))
  }

  /** Every other combination of three dimensions has boxes that compare in a circle. */
  lemma {:induction false} IncompatibleCycle(p: nat, q: nat, r: nat) returns (a: NDBox, b: NDBox, c: NDBox)
    requires !Compatible(p, q, r)
    ensures Cycle(a, b, c) && Permuted(a.dim, b.dim, c.dim, p, q, r)
  {
    hide Cycle;
    if p < q && p < r {
      a, b, c := CycleOf(p, q, r);
    } else if q < p && q < r {
      a, b, c := CycleOf(q, p, r);
    } else {
      a, b, c := CycleOf(r, p, q);
    }
  }

  lemma {:induction false} CycleOf(m: nat, p: nat, q: nat) returns (a: NDBox, b: NDBox, c: NDBox)
    requires m < p && m < q && (m == 0 ==> p != q)
    ensures Cycle(a, b, c) && Permuted(a.dim, b.dim, c.dim, m, p, q)
  {
    hide Cycle;
    if m > 0 {
      CycleAbove(m, p, q);
      a, b, c := Spike(p, 0.0, m, 5.0), Bar(m, 1.0), Spike(q, 2.0, m, -5.0);
    } else {
      var lo, hi := if p < q then p else q, if p < q then q else p;
      CycleZero(lo, hi);
      a, b, c := NDBox(0, false, []), Bar(lo, 1.0), Spike(hi, 2.0, lo, -5.0);
    }
  }

  /** The comparison is free of cycles among all boxes with dimensions from a set, if and only
      if the set has at most one dimension besides zero. */
  lemma {:induction false} OrderIff(dims: set<nat>)
    ensures (forall a: NDBox, b: NDBox, c: NDBox | a.dim in dims && b.dim in dims && c.dim in dims ::
               !Cycle(a, b, c)) <==>
            (forall p, q | p in dims && q in dims && p > 0 && q > 0 :: p == q)
  {
    hide Order, Compatible;
    if forall p, q | p in dims && q in dims && p > 0 && q > 0 :: p == q {
      forall a: NDBox, b: NDBox, c: NDBox | a.dim in dims && b.dim in dims && c.dim in dims
        ensures !Cycle(a, b, c)
      {
        AtMostOne(dims, a.dim, b.dim, c.dim);
        if Cycle(a, b, c) {
          OrderTransitive(a, b, c);
          OrderReverse(a, c);
        }
      }
    } else {
      var p, q :| p in dims && q in dims && p > 0 && q > 0 && p != q;
      var lo, hi := if p < q then p else q, if p < q then q else p;
      CycleAbove(lo, hi, hi);
    }
  }

  lemma {:induction false} AtMostOne(dims: set<nat>, p: nat, q: nat, r: nat)
    requires forall x, y | x in dims && y in dims && x > 0 && y > 0 :: x == y
    requires p in dims && q in dims && r in dims
    ensures Compatible(p, q, r)
  {
  }
}
