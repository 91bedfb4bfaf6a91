/**
 Splitting a page of variable-length keys (gbt_var_picksplit in
 contrib/btree_gist/btree_utils_var.c), and keys built by any nesting of unions and splits.
 Both halves are cut after the longer of their two common prefixes and two more bytes, which
 can leave the half with the shorter one a bound that no longer covers what it should.
 */
module VarKeySplit {
  import opened Wrappers
  import opened ByteOrder
  import opened VarKey

  function CutAt(k: Key, n: nat): Key {
    Key(Trunc(k.lower, n), Trunc(k.upper, n))
  }

  /** Some byte from position i on is not the largest. */
  ghost predicate RoomAbove(t: bytes, i: nat) {
    exists j :: i <= j < |t| && t[j] < 255
  }

  /** The upper bound t goes on after the cut-off bound u, and values that start with u may
      exceed it. */
  ghost predicate Overshoots(u: bytes, t: bytes) {
    u <= t && u != t && RoomAbove(t, |u|)
  }

  /** The upper bound of the key may have been cut off. */
  ghost predicate MayBeCut(k: Key) {
    |k.upper| >= Common(k.lower, k.upper) + 2
  }

  /** The part keeps its values under the cut key. */
  ghost predicate Kept(part: Key, cut: Key) {
    MayBeCut(part) ==> !Overshoots(part.upper, cut.upper)
  }

  // ----- coverage -----

  lemma {:induction false} PrefixOfTrunc(u: bytes, m: bytes, n: nat)
    requires u <= m && |u| <= n
    ensures u <= Trunc(m, n)
  {
  }

  /** Two bounds in order: the larger one starts with the smaller, or is above everything that
      starts with the smaller. */
  lemma {:induction false} AboveOrExtends(u: bytes, m: bytes, v: bytes)
    requires Le(u, m) && u <= v
    ensures u <= m || Le(v, m)
  {
    if u != [] && u[0] == m[0] {
      AboveOrExtends(u[1..], m[1..], v[1..]);
      if u[1..] <= m[1..] {
        assert u == [u[0]] + u[1..] && m == [m[0]] + m[1..];
      }
    }
  }

  /** A bound whose further bytes are all the largest covers everything it extends. */
  lemma {:induction false} FullTail(t: bytes, v: bytes)
    requires !RoomAbove(t, 0)
    ensures Le(v, t) || t <= v
  {
    if t != [] && v != [] {
      assert !(t[0] < 255);
      if v[0] == t[0] {
        forall j | 0 <= j < |t[1..]|
          ensures t[1..][j] >= 255
        {
          assert !(t[j + 1] < 255);
        }
        FullTail(t[1..], v[1..]);
        if t[1..] <= v[1..] {
          assert t == [t[0]] + t[1..] && v == [v[0]] + v[1..];
        }
      }
    }
  }

  /** The same after a common prefix. */
  lemma {:induction false} NoOvershoot(u: bytes, t: bytes, v: bytes)
    requires u <= t && u <= v && !Overshoots(u, t)
    ensures Le(v, t) || t <= v
    decreases |u|
  {
    if u == [] {
      if t == [] {
        assert t <= v;
      } else {
        FullTail(t, v);
      }
    } else {
      TailOvershoots(u, t);
      NoOvershoot(u[1..], t[1..], v[1..]);
      if t[1..] <= v[1..] {
        assert t == [t[0]] + t[1..] && v == [v[0]] + v[1..];
      }
    }
  }

  lemma {:induction false} TailOvershoots(u: bytes, t: bytes)
    requires u != [] && u <= t
    ensures Overshoots(u[1..], t[1..]) ==> Overshoots(u, t)
  {
  }

  /** A value that exceeds an overshooting bound. */
  lemma {:induction false} Exceeding(u: bytes, t: bytes) returns (v: bytes)
    requires Overshoots(u, t)
    ensures u <= v && !Le(v, t) && !(t <= v)
  {
    var j :| |u| <= j < |t| && t[j] < 255;
    v := t[..j] + [255];
    assert v[..|u|] == u;
    assert t[j] != v[j];
    SplitsAt(v, t, j);
  }

  lemma {:induction false} SplitsAt(v: bytes, t: bytes, j: nat)
    requires j < |v| && j < |t| && v[..j] == t[..j] && v[j] > t[j]
    ensures !Le(v, t)
  {
    if j > 0 {
      assert v[1..][..j - 1] == v[..j][1..] && t[1..][..j - 1] == t[..j][1..];
      assert v[0] == v[..j][0] && t[0] == t[..j][0];
      SplitsAt(v[1..], t[1..], j - 1);
    }
  }

  /** The bounds of a cut-off part and of a wider key that is cut at n. */
  lemma {:induction false} KeptUpper(part: Key, whole: Key, n: nat, v: bytes)
    requires Ordered(part) && Bounds(whole, part) && MayBeCut(part) && Kept(part, CutAt(whole, n))
    requires n >= Common(whole.lower, whole.upper) + 2 && part.upper <= v
    ensures Covers(CutAt(whole, n), v) || !Le(CutAt(whole, n).lower, v)
  {
    hide Le, Trunc, Common, Overshoots;
    var u, t := part.upper, Trunc(whole.upper, n);
    CommonTrunc(whole.lower, whole.upper, n);
    NarrowerPrefix(part, whole);
    TruncLength(whole.upper, n);
    AboveOrExtends(u, whole.upper, v);
    if Le(v, whole.upper) {
      BelowTrunc(v, whole.upper, n);
    } else if |u| <= n {
      PrefixOfTrunc(u, whole.upper, n);
      NoOvershoot(u, t, v);
      PrefixLength(u, t);
    } else {
      CutPrefix(u, whole.upper, v, n);
    }
  }

  lemma {:induction false} PrefixLength(u: bytes, t: bytes)
    requires u <= t
    ensures |u| <= |t|
  {
  }

  /** Cutting a key at n, at or after its common prefix and two bytes, keeps every value that a
      part covers, if and only if the part's cut-off bound is not overshot. */
  lemma {:induction false} CutKeepsIff(part: Key, whole: Key, n: nat)
    requires Ordered(part) && Bounds(whole, part) && n >= Common(whole.lower, whole.upper) + 2
    ensures (forall v | Covers(part, v) :: Covers(CutAt(whole, n), v)) <==> Kept(part, CutAt(whole, n))
  {
    hide Le, Trunc, Common, Kept, Covers;
    if Kept(part, CutAt(whole, n)) {
      forall v | Covers(part, v)
        ensures Covers(CutAt(whole, n), v)
      {
        KeptCovers(part, whole, n, v);
      }
    } else {
      var v := Lost(part, CutAt(whole, n));
    }
  }

  lemma {:induction false} KeptCovers(part: Key, whole: Key, n: nat, v: bytes)
    requires Ordered(part) && Bounds(whole, part) && n >= Common(whole.lower, whole.upper) + 2
    requires Kept(part, CutAt(whole, n)) && Covers(part, v)
    ensures Covers(CutAt(whole, n), v)
  {
    hide Le, Trunc, Common, Kept;
    LowerHolds(part, whole, v, n);
    CommonTrunc(whole.lower, whole.upper, n);
    TruncLength(whole.upper, n);
    if Le(v, part.upper) {
      LeTransitive(v, part.upper, whole.upper);
      BelowTrunc(v, whole.upper, n);
    } else {
      KeptUpper(part, whole, n, v);
    }
  }

  /** A value of the part that the cut key does not cover. */
  lemma {:induction false} Lost(part: Key, cut: Key) returns (v: bytes)
    requires Ordered(part) && !Kept(part, cut)
    ensures part.upper <= v && Covers(part, v) && !Le(v, cut.upper) && !(cut.upper <= v) && !Covers(cut, v)
  {
    hide Le, Common;
    v := Exceeding(part.upper, cut.upper);
    PrefixLe(part.upper, v);
    LeTransitive(part.lower, part.upper, v);
  }

  /** The cut of a union is never too long for its parts. */
  lemma {:induction false} UnionKeeps(part: Key, whole: Key)
    requires Ordered(part) && Bounds(whole, part)
    ensures Kept(part, Cut(whole))
  {
    hide Le, Common;
    NarrowerPrefix(part, whole);
  }

  /** Nor is any cut for a leaf, whose bound is the value itself. */
  lemma {:induction false} LeafKept(v: bytes, cut: Key)
    ensures Kept(Key(v, v), cut)
  {
    CommonIsLongest(v, v, v);
  }

  // ----- searches -----

  /** Every search for a value of the part finds the cut key consistent. */
  ghost predicate Findable(part: Key, cut: Key) {
    forall v, q, s | Covers(part, v) && Satisfies(v, q, s) :: Consistent(cut, q, s, false)
  }

  /** No search loses a value of the part, if and only if its bound is not overshot or starts
      with the lower bound of the key. */
  lemma {:induction false} FindableIff(part: Key, whole: Key, n: nat)
    requires Ordered(part) && Bounds(whole, part) && n >= Common(whole.lower, whole.upper) + 2
    ensures var cut := CutAt(whole, n);
            Findable(part, cut) <==> Kept(part, cut) || cut.lower <= part.upper
  {
    hide Le, Trunc, Common, Kept, Covers, Satisfies, Consistent;
    var cut := CutAt(whole, n);
    if Kept(part, cut) || cut.lower <= part.upper {
      forall v, q, s | Covers(part, v) && Satisfies(v, q, s)
        ensures Consistent(cut, q, s, false)
      {
        if Kept(part, cut) {
          KeptCovers(part, whole, n, v);
          CoverIsConsistent(cut, v, q, s);
        } else {
          PrefixFinds(part, whole, n, v, q, s);
        }
      }
    } else {
      var v := Lost(part, cut);
      MissedEqual(part, whole, n, v);
      assert Satisfies(v, v, Equal) by { EqualItself(v); }
    }
  }

  lemma {:induction false} EqualItself(v: bytes)
    ensures Satisfies(v, v, Equal)
  {
  }

  /** The lower bound is a prefix of everything in question. */
  lemma {:induction false} PrefixFinds(part: Key, whole: Key, n: nat, v: bytes, q: bytes, s: Strategy)
    requires Ordered(part) && Bounds(whole, part) && n >= Common(whole.lower, whole.upper) + 2
    requires !Kept(part, CutAt(whole, n)) && CutAt(whole, n).lower <= part.upper
    requires Covers(part, v) && Satisfies(v, q, s)
    ensures Consistent(CutAt(whole, n), q, s, false)
  {
    hide Le, Trunc, Common, Consistent, Satisfies;
    var cut := CutAt(whole, n);
    LowerHolds(part, whole, v, n);
    if Le(v, part.upper) {
      LeTransitive(v, part.upper, whole.upper);
      BelowTrunc(v, whole.upper, n);
      TruncLength(whole.upper, n);
      CommonTrunc(whole.lower, whole.upper, n);
      CoverIsConsistent(cut, v, q, s);
    } else {
      ByPrefix(cut, part.upper, v, q, s);
    }
  }

  lemma {:induction false} ByPrefix(k: Key, u: bytes, v: bytes, q: bytes, s: Strategy)
    requires k.lower <= u <= k.upper && u != k.upper && u <= v && Le(k.lower, v) && Satisfies(v, q, s)
    ensures Consistent(k, q, s, false)
  {
    hide Le, Lex;
    CmpIsLe(q, k.lower);
    CmpIsLe(q, k.upper);
    CmpIsLe(k.lower, q);
    match s
    case LessEqual => LeTransitive(k.lower, v, q);
    case Less => LeTransitive(k.lower, v, q);
    case Equal =>
    case Greater => PrefixBetween(k, u, q, v);
    case GreaterEqual => PrefixBetween(k, u, q, v);
    case NotEqual =>
  }

  lemma {:induction false} PrefixBetween(k: Key, u: bytes, q: bytes, v: bytes)
    requires k.lower <= u <= k.upper && u <= v && Le(q, v)
    ensures Le(q, k.upper) || k.lower <= q
  {
    hide Le;
    CmpIsLe(q, k.upper);
    if !Le(q, k.upper) {
      Between(u, k.upper, q, v);
    }
  }

  /** Otherwise an equality search for a lost value does not descend. */
  lemma {:induction false} MissedEqual(part: Key, whole: Key, n: nat, v: bytes)
    requires Ordered(part) && Bounds(whole, part) && part.upper <= v
    requires var cut := CutAt(whole, n); !(cut.lower <= part.upper) && !Le(v, cut.upper) && !(cut.upper <= v)
    ensures !Consistent(CutAt(whole, n), v, Equal, false)
  {
    hide Le, Lex, Trunc;
    var cut := CutAt(whole, n);
    CmpIsLe(v, cut.upper);
    LeTransitive(whole.lower, part.lower, part.upper);
    PrefixLe(cut.lower, whole.lower);
    LeTransitive(cut.lower, whole.lower, part.upper);
    PrefixStays(cut.lower, part.upper, v);
  }

  /** What is at most u and a prefix of an extension of u is a prefix of u. */
  lemma {:induction false} PrefixStays(a: bytes, u: bytes, v: bytes)
    requires Le(a, u) && u <= v
    ensures a <= v ==> a <= u
  {
    if a != [] && a <= v && a[0] == u[0] {
      PrefixStays(a[1..], u[1..], v[1..]);
      assert a == [a[0]] + a[1..] && u == [u[0]] + u[1..];
    }
  }

  // ----- the split -----

  /** gbt_var_picksplit on the entries in sorted order: the first half goes left. */
  method PickSplit(sorted: seq<Key>) returns (nleft: nat, left: Key, right: Key)
    requires |sorted| >= 2
    ensures nleft == |sorted| / 2 && SplitOf(left, right, sorted[..nleft], sorted[nleft..])
  {
    hide Le, IsHull, Trunc, Common;
    nleft := |sorted| / 2;
    left := Hull(sorted[..nleft]);
    right := Hull(sorted[nleft..]);
    ghost var l, r := left, right;
    var ll := NodeCpLen(left);
    var lr := NodeCpLen(right);
    ll := if ll < lr then lr else ll;
    left := NodeTruncate(left, ll + 1);
    right := NodeTruncate(right, ll + 1);
    assert Halves(l, r, left, right, sorted[..nleft], sorted[nleft..]);
  }

  ghost predicate Halves(l: Key, r: Key, left: Key, right: Key, ls: seq<Key>, rs: seq<Key>) {
    && IsHull(l, ls) && IsHull(r, rs)
    && var cl, cr := Common(l.lower, l.upper), Common(r.lower, r.upper);
       var n := (if cl < cr then cr else cl) + 2;
       left == CutAt(l, n) && right == CutAt(r, n)
  }

  /** The two keys that a split of these halves gives. */
  ghost predicate SplitOf(left: Key, right: Key, ls: seq<Key>, rs: seq<Key>) {
    exists l, r :: Halves(l, r, left, right, ls, rs)
  }

  /** The half with the longer common prefix is cut like a union. */
  lemma {:induction false} LongerHalfKeeps(l: Key, r: Key, left: Key, right: Key, ls: seq<Key>, rs: seq<Key>, i: nat)
    requires Halves(l, r, left, right, ls, rs) && i < |ls| && Ordered(ls[i])
    requires Common(l.lower, l.upper) >= Common(r.lower, r.upper)
    ensures Kept(ls[i], left)
  {
    hide Le, Common, Trunc, Kept;
    assert Bounds(l, ls[i]);
    UnionKeeps(ls[i], l);
  }

  const A1: bytes := [97, 49]
  const BB: bytes := [98, 98]
  const BAA: bytes := [98, 97, 97]
  const BBA: bytes := [98, 98, 97]
  const BBZ: bytes := [98, 98, 122]
  const CCA: bytes := [99, 99, 97]
  const CCB: bytes := [99, 99, 98]
  const CCC: bytes := [99, 99, 99]

  /** The left half has a key for the values "a1" and "bbz" and one for "baa" and "bba". The
      right half has a longer common prefix, so the bounds of the left stay "a1" and "bba", and
      the search for "bbz" does not descend. */
  lemma {:induction false} SplitLosesExample()
    ensures UnionOf(Key(A1, BB), [Key(A1, A1), Key(BBZ, BBZ)])
    ensures SplitOf(Key(A1, BBA), Key(CCA, CCC), [Key(A1, BB), Key(BAA, BBA)], [Key(CCA, CCB), Key(CCB, CCC)])
    ensures !Consistent(Key(A1, BBA), BBZ, Equal, false)
  {
    ExampleUnion();
    ExampleHull(Key(A1, BB), Key(BAA, BBA), Key(A1, BBA));
    ExampleHull(Key(CCA, CCB), Key(CCB, CCC), Key(CCA, CCC));
    ExampleCommon();
    hide Common, IsHull;
    assert Halves(Key(A1, BBA), Key(CCA, CCC), Key(A1, BBA), Key(CCA, CCC), [Key(A1, BB), Key(BAA, BBA)],
                  [Key(CCA, CCB), Key(CCB, CCC)]);
  }

  lemma {:induction false} ExampleUnion()
    ensures UnionOf(Key(A1, BB), [Key(A1, A1), Key(BBZ, BBZ)])
  {
    ExampleHull(Key(A1, A1), Key(BBZ, BBZ), Key(A1, BBZ));
    assert Cut(Key(A1, BBZ)) == Key(A1, BB);
  }

  lemma {:induction false} ExampleCommon()
    ensures Common(A1, BBA) == 0 && Common(CCA, CCC) == 2
  {
    assert Common(CCA[1..], CCC[1..]) == 1 + Common(CCA[1..][1..], CCC[1..][1..]);
  }

  lemma {:induction false} ExampleHull(a: Key, b: Key, hull: Key)
    requires hull.lower == a.lower && hull.upper == b.upper && Le(a.lower, b.lower) && Le(a.upper, b.upper)
    ensures IsHull(hull, [a, b])
  {
    hide Le;
    LeReflexive(a.lower);
    LeReflexive(b.upper);
    var ks := [a, b];
    assert ks[0].lower == hull.lower && ks[1].upper == hull.upper;
  }

  // ----- any nesting of unions and splits -----

  /** The hull of the list, cut at n, which keeps what every key of the list covers. */
  ghost predicate KeyAt(hull: Key, n: nat, k: Key, ks: seq<Key>) {
    && IsHull(hull, ks) && n >= Common(hull.lower, hull.upper) + 2 && k == CutAt(hull, n)
    && forall i | 0 <= i < |ks| :: Kept(ks[i], k)
  }

  ghost predicate KeyOf(k: Key, ks: seq<Key>) {
    exists hull, n :: KeyAt(hull, n, k, ks)
  }

  /** Every union is such a key. */
  lemma {:induction false} UnionIsKey(k: Key, ks: seq<Key>)
    requires UnionOf(k, ks) && forall i | 0 <= i < |ks| :: Ordered(ks[i])
    ensures KeyOf(k, ks)
  {
    hide Le, Common, Trunc, Kept;
    var hull :| IsHull(hull, ks) && k == Cut(hull);
    forall i | 0 <= i < |ks|
      ensures Kept(ks[i], k)
    {
      assert Bounds(hull, ks[i]);
      UnionKeeps(ks[i], hull);
    }
    assert KeyAt(hull, Common(hull.lower, hull.upper) + 2, k, ks);
  }

  /** So is a half of a split none of whose parts is overshot, and every half of a leaf page;
      CutKeepsIff says that any other half loses a value. */
  lemma {:induction false} SplitIsKey(left: Key, right: Key, ls: seq<Key>, rs: seq<Key>)
    requires SplitOf(left, right, ls, rs)
    ensures (forall i | 0 <= i < |ls| :: Kept(ls[i], left)) <==> KeyOf(left, ls)
    ensures (forall i | 0 <= i < |rs| :: Kept(rs[i], right)) <==> KeyOf(right, rs)
    ensures (forall i | 0 <= i < |ls| :: ls[i].lower == ls[i].upper) ==> KeyOf(left, ls)
    ensures (forall i | 0 <= i < |rs| :: rs[i].lower == rs[i].upper) ==> KeyOf(right, rs)
  {
    hide Le, Common, Trunc, Kept, IsHull;
    var l, r :| Halves(l, r, left, right, ls, rs);
    var cl, cr := Common(l.lower, l.upper), Common(r.lower, r.upper);
    var n := (if cl < cr then cr else cl) + 2;
    LeavesKept(ls, left);
    LeavesKept(rs, right);
    assert (forall i | 0 <= i < |ls| :: Kept(ls[i], left)) ==> KeyAt(l, n, left, ls);
    assert (forall i | 0 <= i < |rs| :: Kept(rs[i], right)) ==> KeyAt(r, n, right, rs);
  }

  /** Everything that the keys of the list cover is covered. */
  ghost predicate CoversAll(k: Key, ks: seq<Key>) {
    forall i | 0 <= i < |ks| :: CoversPart(k, ks[i])
  }

  ghost predicate CoversPart(k: Key, part: Key) {
    forall v | Covers(part, v) :: Covers(k, v)
  }

  /** A half of a split covers everything its parts covered, if and only if none of them is
      overshot. */
  lemma {:induction false} SplitKeepsIff(left: Key, right: Key, ls: seq<Key>, rs: seq<Key>)
    requires SplitOf(left, right, ls, rs)
    requires (forall i | 0 <= i < |ls| :: Ordered(ls[i])) && (forall i | 0 <= i < |rs| :: Ordered(rs[i]))
    ensures CoversAll(left, ls) <==> forall i | 0 <= i < |ls| :: Kept(ls[i], left)
    ensures CoversAll(right, rs) <==> forall i | 0 <= i < |rs| :: Kept(rs[i], right)
  {
    hide Le, Common, Trunc, Kept, IsHull, Covers, Ordered;
    var l, r :| Halves(l, r, left, right, ls, rs);
    var cl, cr := Common(l.lower, l.upper), Common(r.lower, r.upper);
    var n := (if cl < cr then cr else cl) + 2;
    HullKeepsIff(ls, l, n);
    HullKeepsIff(rs, r, n);
  }

  lemma {:induction false} HullKeepsIff(ks: seq<Key>, hull: Key, n: nat)
    requires IsHull(hull, ks) && n >= Common(hull.lower, hull.upper) + 2 && forall i | 0 <= i < |ks| :: Ordered(ks[i])
    ensures CoversAll(CutAt(hull, n), ks) <==> forall i | 0 <= i < |ks| :: Kept(ks[i], CutAt(hull, n))
  {
    hide Le, Common, Trunc, Kept, Covers, Ordered;
    forall i | 0 <= i < |ks|
      ensures CoversPart(CutAt(hull, n), ks[i]) <==> Kept(ks[i], CutAt(hull, n))
    {
      assert Bounds(hull, ks[i]);
      CutKeepsIff(ks[i], hull, n);
    }
  }

  lemma {:induction false} LeavesKept(ks: seq<Key>, cut: Key)
    ensures (forall i | 0 <= i < |ks| :: ks[i].lower == ks[i].upper) ==> forall i | 0 <= i < |ks| :: Kept(ks[i], cut)
  {
    hide Kept;
    if forall i | 0 <= i < |ks| :: ks[i].lower == ks[i].upper {
      forall i | 0 <= i < |ks|
        ensures Kept(ks[i], cut)
      {
        LeafKept(ks[i].lower, cut);
        assert ks[i] == Key(ks[i].lower, ks[i].lower);
      }
    }
  }

  /** How a key came about: from one value, or as a union or a half of a split of other keys. */
  datatype Build = Value(v: bytes) | Joined(parts: seq<Build>, keys: seq<Key>)

  ghost predicate BuiltAs(b: Build, k: Key) {
    match b
    case Value(v) => k == Key(v, v)
    case Joined(parts, keys) =>
      && |keys| == |parts| && KeyOf(k, keys)
      && forall i | 0 <= i < |parts| :: BuiltAs(parts[i], keys[i])
  }

  /** A key that came about by unions alone. */
  ghost predicate UnitedAs(b: Build, k: Key) {
    match b
    case Value(v) => k == Key(v, v)
    case Joined(parts, keys) =>
      && |keys| == |parts| && UnionOf(k, keys)
      && forall i | 0 <= i < |parts| :: UnitedAs(parts[i], keys[i])
  }

  /** Every nesting of unions is such a nesting, without any condition. */
  lemma {:induction false} UnitedIsBuilt(b: Build, k: Key)
    requires UnitedAs(b, k)
    ensures BuiltAs(b, k)
    decreases b
  {
    hide UnionOf, KeyOf, Ordered;
    match b
    case Value(_) =>
    case Joined(parts, keys) =>
      forall i | 0 <= i < |parts|
        ensures BuiltAs(parts[i], keys[i]) && Ordered(keys[i])
      {
        UnitedIsBuilt(parts[i], keys[i]);
        BuiltOrdered(parts[i], keys[i]);
      }
      UnionIsKey(k, keys);
  }

  ghost predicate Has(b: Build, v: bytes) {
    match b
    case Value(w) => w == v
    case Joined(parts, _) => exists i | 0 <= i < |parts| :: Has(parts[i], v)
  }

  /** However the unions and splits are nested, every key is ordered. */
  lemma {:induction false} BuiltOrdered(b: Build, k: Key)
    requires BuiltAs(b, k)
    ensures Ordered(k)
    decreases b
  {
    hide Le, Trunc, Common;
    match b
    case Value(v) => LeReflexive(v);
    case Joined(parts, keys) =>
      var hull, n :| KeyAt(hull, n, k, keys);
      var i :| 0 <= i < |keys| && keys[i].lower == hull.lower;
      BuiltOrdered(parts[i], keys[i]);
      assert Bounds(hull, keys[i]);
      LeTransitive(hull.lower, keys[i].upper, hull.upper);
      TruncLe(hull.lower, hull.upper, n);
  }

  /** However the unions and splits are nested, a key covers every value it was built from. */
  lemma {:induction false} BuiltCovers(b: Build, k: Key, v: bytes)
    requires BuiltAs(b, k) && Has(b, v)
    ensures Covers(k, v)
    decreases b
  {
    hide Le, Trunc, Common, Kept;
    match b
    case Value(w) => LeReflexive(w);
    case Joined(parts, keys) =>
      var i :| 0 <= i < |parts| && Has(parts[i], v);
      BuiltCovers(parts[i], keys[i], v);
      BuiltOrdered(parts[i], keys[i]);
      var hull, n :| KeyAt(hull, n, k, keys);
      assert Bounds(hull, keys[i]);
      KeptCovers(keys[i], hull, n, v);
  }

  /** No inner key loses a match, for any of the six strategies and any nesting of unions
      and splits. */
  lemma {:induction false} NeverLoses(b: Build, k: Key, v: bytes, q: bytes, s: Strategy)
    requires BuiltAs(b, k) && Has(b, v) && Satisfies(v, q, s)
    ensures Consistent(k, q, s, false)
  {
    hide Satisfies, Consistent, Covers;
    BuiltCovers(b, k, v);
    CoverIsConsistent(k, v, q, s);
  }
}
