/**
 Lossy keys for variable-length byte strings (contrib/btree_gist/btree_utils_var.c with the bytea
 settings of btree_bytea.c: bounds are truncated, compared by bytes, and leaves need no
 conversion). An inner key holds a lower and an upper bound, each cut after the common
 prefix and two more bytes.
 */
module VarKey {
  import opened Wrappers
  import opened ByteOrder

  /** A readable key; a leaf has equal bounds. */
  datatype Key = Key(lower: bytes, upper: bytes)

  datatype Strategy = Less | LessEqual | Equal | GreaterEqual | Greater | NotEqual

  // ----- the order, by heads -----

  /** At most, in byte order. */
  ghost predicate Le(a: bytes, b: bytes) {
    a == [] || (b != [] && (a[0] < b[0] || (a[0] == b[0] && Le(a[1..], b[1..]))))
  }

  lemma {:induction false} LexIsLe(a: bytes, b: bytes, i: nat)
    requires i <= |a| && i <= |b|
    ensures LexFrom(a, b, i) <= 0 <==> Le(a[i..], b[i..])
    decreases |a| - i
  {
    if i < |a| && i < |b| && a[i] == b[i] {
      LexIsLe(a, b, i + 1);
      assert a[i..][1..] == a[i + 1..] && b[i..][1..] == b[i + 1..];
    }
  }

  lemma {:induction false} CmpIsLe(a: bytes, b: bytes)
    ensures Lex(a, b) <= 0 <==> Le(a, b)
    ensures Lex(a, b) >= 0 <==> Le(b, a)
    ensures Lex(a, b) == 0 <==> a == b
    ensures Le(a, b) || Le(b, a)
  {
    LexIsLe(a, b, 0);
    LexIsLe(b, a, 0);
    LexFromReverse(a, b, 0);
    LexFromEqual(a, b, 0);
    assert a[0..] == a && b[0..] == b;
  }

  lemma {:induction false} LeTransitive(a: bytes, b: bytes, c: bytes)
    requires Le(a, b) && Le(b, c)
    ensures Le(a, c)
  {
    if a != [] && a[0] == b[0] == c[0] {
      LeTransitive(a[1..], b[1..], c[1..]);
    }
  }

  lemma {:induction false} LeAntisymmetric(a: bytes, b: bytes)
    requires Le(a, b) && Le(b, a)
    ensures a == b
  {
    CmpIsLe(a, b);
  }

  // ----- prefixes and truncation -----

  function Trunc(a: bytes, n: nat): (t: bytes)
    ensures t <= a
  {
    if |a| <= n then a else a[..n]
  }

  lemma {:induction false} PrefixLe(p: bytes, a: bytes)
    requires p <= a
    ensures Le(p, a)
  {
    if p != [] {
      PrefixLe(p[1..], a[1..]);
    }
  }

  lemma {:induction false} TruncStep(a: bytes, n: nat)
    requires a != [] && n > 0
    ensures Trunc(a, n) == [a[0]] + Trunc(a[1..], n - 1)
  {
  }

  /** Truncation keeps the order. */
  lemma {:induction false} TruncLe(a: bytes, b: bytes, n: nat)
    requires Le(a, b)
    ensures Le(Trunc(a, n), Trunc(b, n))
  {
    if n > 0 && a != [] {
      TruncStep(a, n);
      TruncStep(b, n);
      if a[0] == b[0] {
        TruncLe(a[1..], b[1..], n - 1);
        assert Trunc(a, n)[1..] == Trunc(a[1..], n - 1) && Trunc(b, n)[1..] == Trunc(b[1..], n - 1);
      }
    }
  }

  /** A string below another is below its truncation, or starts with it. */
  lemma {:induction false} BelowTrunc(a: bytes, b: bytes, n: nat)
    requires Le(a, b)
    ensures Le(a, Trunc(b, n)) || (Trunc(b, n) <= a && |b| > n)
  {
    if |b| > n && n > 0 && a != [] && a[0] == b[0] {
      TruncStep(b, n);
      BelowTrunc(a[1..], b[1..], n - 1);
      var t := Trunc(b, n);
      assert t[1..] == Trunc(b[1..], n - 1);
      if t[1..] <= a[1..] {
        assert a == [a[0]] + a[1..] && t == [t[0]] + t[1..];
      }
    }
  }

  /** Strings between a prefix and one of its extensions have the prefix. */
  lemma {:induction false} Between(p: bytes, lo: bytes, x: bytes, hi: bytes)
    requires p <= lo && p <= hi && Le(lo, x) && Le(x, hi)
    ensures p <= x
  {
    if p != [] {
      Between(p[1..], lo[1..], x[1..], hi[1..]);
      assert x == [x[0]] + x[1..] && p == [p[0]] + p[1..];
    }
  }

  /** Length of the common prefix. */
  function Common(a: bytes, b: bytes): (n: nat)
    ensures n <= |a| && n <= |b| && a[..n] == b[..n]
    ensures n < |a| && n < |b| ==> a[n] != b[n]
  {
    if a == [] || b == [] || a[0] != b[0] then 0
    else
      var n := Common(a[1..], b[1..]);
      assert a[..n + 1] == [a[0]] + a[1..][..n] && b[..n + 1] == [b[0]] + b[1..][..n];
      n + 1
  }

  /** A common prefix is no longer than the longest one. */
  lemma {:induction false} CommonIsLongest(p: bytes, a: bytes, b: bytes)
    requires p <= a && p <= b
    ensures |p| <= Common(a, b)
  {
    if p != [] {
      CommonIsLongest(p[1..], a[1..], b[1..]);
    }
  }

  /** Cutting after the common prefix and more keeps its length. */
  lemma {:induction false} CommonTrunc(a: bytes, b: bytes, n: nat)
    requires n > Common(a, b)
    ensures Common(Trunc(a, n), Trunc(b, n)) == Common(a, b)
  {
    var c, s, t := Common(a, b), Trunc(a, n), Trunc(b, n);
    var d := Common(s, t);
    assert a[..c] <= s && a[..c] <= t by {
      assert s[..c] == a[..c] && t[..c] == b[..c];
    }
    CommonIsLongest(a[..c], s, t);
    assert s[..d] <= a && s[..d] <= b by {
      assert a[..d] == s[..d] && b[..d] == t[..d];
    }
    CommonIsLongest(s[..d], a, b);
  }

  // ----- what a key promises -----

  ghost predicate Ordered(k: Key) {
    Le(k.lower, k.upper)
  }

  /** A value under a key: not below the lower bound; and not above the upper bound, unless
      the bound is a cut-off prefix of the value. */
  ghost predicate Covers(k: Key, v: bytes) {
    && Le(k.lower, v)
    && (Le(v, k.upper) || (k.upper <= v && |k.upper| >= Common(k.lower, k.upper) + 2))
  }

  /** gbt_var_node_truncate after gbt_var_node_cp_len, as gbt_var_union calls them. */
  function Cut(k: Key): Key {
    var n := Common(k.lower, k.upper) + 2;
    Key(Trunc(k.lower, n), Trunc(k.upper, n))
  }

  /** Cutting a key that bounds another key's bounds keeps what that key covered. */
  lemma {:induction false} CutCovers(part: Key, whole: Key, v: bytes)
    requires Ordered(part) && Covers(part, v) && Le(whole.lower, part.lower) && Le(part.upper, whole.upper)
    ensures Covers(Cut(whole), v)
  {
    hide Le, Trunc, Common;
    var n := Common(whole.lower, whole.upper) + 2;
    var cut := Cut(whole);
    LowerHolds(part, whole, v, n);
    CommonTrunc(whole.lower, whole.upper, n);
    if Le(v, part.upper) {
      LeTransitive(v, part.upper, whole.upper);
      BelowTrunc(v, whole.upper, n);
      TruncLength(whole.upper, n);
    } else {
      NarrowerPrefix(part, whole);
      CutPrefix(part.upper, whole.upper, v, n);
    }
  }

  lemma {:induction false} TruncLength(a: bytes, n: nat)
    ensures |a| > n ==> |Trunc(a, n)| == n
  {
  }

  lemma {:induction false} LowerHolds(part: Key, whole: Key, v: bytes, n: nat)
    requires Le(whole.lower, part.lower) && Le(part.lower, v)
    ensures Le(Trunc(whole.lower, n), v)
  {
    hide Le, Trunc;
    PrefixLe(Trunc(whole.lower, n), whole.lower);
    LeTransitive(Trunc(whole.lower, n), whole.lower, part.lower);
    LeTransitive(Trunc(whole.lower, n), part.lower, v);
  }

  /** Wider bounds have no longer a common prefix. */
  lemma {:induction false} NarrowerPrefix(part: Key, whole: Key)
    requires Ordered(part) && Le(whole.lower, part.lower) && Le(part.upper, whole.upper)
    ensures Common(whole.lower, whole.upper) <= Common(part.lower, part.upper)
  {
    hide Le, Common;
    var c := Common(whole.lower, whole.upper);
    var p := whole.lower[..c];
    assert p <= whole.lower && p <= whole.upper by { CommonPrefix(whole.lower, whole.upper); }
    LeTransitive(part.lower, part.upper, whole.upper);
    LeTransitive(whole.lower, part.lower, part.upper);
    Between(p, whole.lower, part.lower, whole.upper);
    Between(p, whole.lower, part.upper, whole.upper);
    CommonIsLongest(p, part.lower, part.upper);
  }

  lemma {:induction false} CommonPrefix(a: bytes, b: bytes)
    ensures Common(a, b) <= |a| && a[..Common(a, b)] <= a && a[..Common(a, b)] <= b
  {
  }

  /** A cut-off bound that is a prefix of the value stays one, or grows above the value. */
  lemma {:induction false} CutPrefix(u: bytes, m: bytes, v: bytes, n: nat)
    requires u <= v && Le(u, m) && n <= |u|
    ensures Le(v, Trunc(m, n)) || (Trunc(m, n) <= v && |Trunc(m, n)| >= n)
    decreases n
  {
    if n > 0 && m != [] && u[0] == m[0] {
      CutPrefix(u[1..], m[1..], v[1..], n - 1);
      TruncStep(m, n);
      var t := Trunc(m, n);
      assert t[1..] == Trunc(m[1..], n - 1) && v == [v[0]] + v[1..];
      if t[1..] <= v[1..] {
        assert t == [t[0]] + t[1..];
      }
    }
  }

  // ----- building keys -----

  /** gbt_var_node_cp_len for single-byte comparison. */
  method NodeCpLen(node: Key) returns (n: nat)
    ensures n == Common(node.lower, node.upper)
  {
    var a, b := node.lower, node.upper;
    var ml := if |a| < |b| then |a| else |b|;
    if ml == 0 {
      return 0;
    }
    var i := 0;
    assert a[0..] == a && b[0..] == b;
    while i < ml
      invariant 0 <= i <= ml && Common(a, b) == i + Common(a[i..], b[i..])
    {
      if a[i] != b[i] {
        return i;
      }
      assert a[i..][1..] == a[i + 1..] && b[i..][1..] == b[i + 1..];
      i := i + 1;
    }
    n := ml;
  }

  /** gbt_var_node_truncate: each bound keeps one byte more than the length given. */
  method NodeTruncate(node: Key, cpfLength: nat) returns (out: Key)
    ensures out == Key(Trunc(node.lower, cpfLength + 1), Trunc(node.upper, cpfLength + 1))
  {
    var len1, len2 := |node.lower|, |node.upper|;
    len1 := if len1 < cpfLength + 1 then len1 else cpfLength + 1;
    len2 := if len2 < cpfLength + 1 then len2 else cpfLength + 1;
    out := Key(node.lower[..len1], node.upper[..len2]);
    assert node.lower[..|node.lower|] == node.lower && node.upper[..|node.upper|] == node.upper;
  }

  /** whole bounds part from both sides. */
  ghost predicate Bounds(whole: Key, part: Key) {
    Le(whole.lower, part.lower) && Le(part.upper, whole.upper)
  }

  /** The least key that bounds all of the list. */
  ghost predicate IsHull(k: Key, ks: seq<Key>) {
    && (forall i | 0 <= i < |ks| :: Bounds(k, ks[i]))
    && (exists i :: 0 <= i < |ks| && ks[i].lower == k.lower)
    && (exists i :: 0 <= i < |ks| && ks[i].upper == k.upper)
  }

  lemma {:induction false} LeReflexive(a: bytes)
    ensures Le(a, a)
  {
    PrefixLe(a, a);
  }

  /** gbt_var_bin_union: start a key, or widen it by another one. */
  method BinUnion(u: Option<Key>, e: Key, ghost ks: seq<Key>) returns (w: Key)
    requires if u.None? then ks == [] else IsHull(u.value, ks)
    ensures IsHull(w, ks + [e])
  {
    hide Le;
    if u.None? {
      w := e;
      LeReflexive(e.lower);
      LeReflexive(e.upper);
      assert (ks + [e])[0] == e;
      return;
    }
    w := u.value;
    CmpIsLe(w.lower, e.lower);
    CmpIsLe(w.upper, e.upper);
    if Lex(w.lower, e.lower) > 0 {
      w := w.(lower := e.lower);
    }
    if Lex(w.upper, e.upper) < 0 {
      w := w.(upper := e.upper);
    }
    HullGrows(u.value, e, w, ks);
  }

  lemma {:induction false} HullGrows(u: Key, e: Key, w: Key, ks: seq<Key>)
    requires IsHull(u, ks)
    requires w.lower == (if Le(u.lower, e.lower) then u.lower else e.lower)
    requires w.upper == (if Le(e.upper, u.upper) then u.upper else e.upper)
    ensures IsHull(w, ks + [e])
  {
    hide Le;
    var all := ks + [e];
    LeReflexive(e.lower);
    LeReflexive(e.upper);
    CmpIsLe(u.lower, e.lower);
    CmpIsLe(u.upper, e.upper);
    LeReflexive(u.lower);
    LeReflexive(u.upper);
    forall i | 0 <= i < |all|
      ensures Bounds(w, all[i])
    {
      if i < |ks| {
        assert Bounds(u, ks[i]);
        LeTransitive(w.lower, u.lower, ks[i].lower);
        LeTransitive(ks[i].upper, u.upper, w.upper);
      }
    }
    var a :| 0 <= a < |ks| && ks[a].lower == u.lower;
    var b :| 0 <= b < |ks| && ks[b].upper == u.upper;
    assert all[a].lower == u.lower && all[b].upper == u.upper && all[|ks|] == e;
  }

  /** Repeated gbt_var_bin_union. */
  method Hull(ks: seq<Key>) returns (hull: Key)
    requires ks != []
    ensures IsHull(hull, ks)
  {
    hide Le, IsHull;
    hull := BinUnion(None, ks[0], []);
    assert [] + [ks[0]] == ks[..1];
    var i := 1;
    while i < |ks|
      invariant 1 <= i <= |ks| && IsHull(hull, ks[..i])
    {
      hull := BinUnion(Some(hull), ks[i], ks[..i]);
      assert ks[..i] + [ks[i]] == ks[..i + 1];
      i := i + 1;
    }
    assert ks[..i] == ks;
  }

  /** gbt_var_union: the hull of the entries, cut after the common prefix and two bytes. */
  method Union(entries: seq<Key>) returns (out: Key)
    requires |entries| > 0
    ensures UnionOf(out, entries)
  {
    hide Le, IsHull, Trunc, Common;
    var hull := Hull(entries);
    var plen := NodeCpLen(hull);
    out := NodeTruncate(hull, plen + 1);
    assert out == Cut(hull);
  }

  /** A key that a union of the list may be. */
  ghost predicate UnionOf(k: Key, ks: seq<Key>) {
    exists hull :: IsHull(hull, ks) && k == Cut(hull)
  }

  // ----- searching -----

  /** The prefix match of a node with a query. */
  predicate PrefixMatch(k: Key, q: bytes) {
    k.lower <= q || k.upper <= q
  }

  /** gbt_var_consistent. */
  predicate Consistent(k: Key, q: bytes, s: Strategy, leaf: bool) {
    match s
    case LessEqual => if leaf then Lex(q, k.lower) >= 0 else Lex(q, k.lower) >= 0 || PrefixMatch(k, q)
    case Less => if leaf then Lex(q, k.lower) > 0 else Lex(q, k.lower) >= 0 || PrefixMatch(k, q)
    case Equal =>
      if leaf then Lex(q, k.lower) == 0
      else (Lex(k.lower, q) <= 0 && Lex(q, k.upper) <= 0) || PrefixMatch(k, q)
    case Greater => if leaf then Lex(q, k.upper) < 0 else Lex(q, k.upper) <= 0 || PrefixMatch(k, q)
    case GreaterEqual => if leaf then Lex(q, k.upper) <= 0 else Lex(q, k.upper) <= 0 || PrefixMatch(k, q)
    case NotEqual => !(Lex(q, k.lower) == 0 && Lex(q, k.upper) == 0)
  }

  /** The value stands in the given relation to the query. */
  ghost predicate Satisfies(v: bytes, q: bytes, s: Strategy) {
    match s
    case LessEqual => Le(v, q)
    case Less => Le(v, q) && v != q
    case Equal => v == q
    case Greater => Le(q, v) && v != q
    case GreaterEqual => Le(q, v)
    case NotEqual => v != q
  }

  /** On a leaf the test is exact. */
  lemma {:induction false} LeafIsExact(v: bytes, q: bytes, s: Strategy)
    ensures Consistent(Key(v, v), q, s, true) <==> Satisfies(v, q, s)
  {
    hide Le, Lex;
    CmpIsLe(q, v);
  }

  /** A query between a cut-off bound and a value that starts with the bound starts with it. */
  lemma {:induction false} UpperMatches(k: Key, v: bytes, q: bytes)
    requires Covers(k, v) && Le(q, v)
    ensures Le(q, k.upper) || k.upper <= q
  {
    hide Le, Common;
    CmpIsLe(q, k.upper);
    if Le(v, k.upper) {
      LeTransitive(q, v, k.upper);
    } else if !Le(q, k.upper) {
      Between(k.upper, k.upper, q, v);
    }
  }

  /** Equal bounds cover one value only. */
  lemma {:induction false} PointKey(k: Key, v: bytes)
    requires Covers(k, v) && k.lower == k.upper
    ensures v == k.lower
  {
    hide Le;
    assert Common(k.lower, k.lower) == |k.lower| by { CommonIsLongest(k.lower, k.lower, k.lower); }
    LeAntisymmetric(v, k.lower);
  }

  /** An inner key is consistent with every query that a covered value satisfies. */
  lemma {:induction false} CoverIsConsistent(k: Key, v: bytes, q: bytes, s: Strategy)
    requires Covers(k, v) && Satisfies(v, q, s)
    ensures Consistent(k, q, s, false)
  {
    hide Le, Lex, Common;
    CmpIsLe(q, k.lower);
    CmpIsLe(k.lower, q);
    CmpIsLe(q, k.upper);
    match s
    case LessEqual => LeTransitive(k.lower, v, q);
    case Less => LeTransitive(k.lower, v, q);
    case Equal =>
      LeReflexive(v);
      UpperMatches(k, v, q);
    case Greater => UpperMatches(k, v, q);
    case GreaterEqual => UpperMatches(k, v, q);
    case NotEqual =>
      if k.lower == k.upper {
        PointKey(k, v);
      }
  }

  /** A value that the key covers satisfies the query. */
  ghost predicate SomeSatisfies(k: Key, q: bytes, s: Strategy) {
    exists v :: Covers(k, v) && Satisfies(v, q, s)
  }

  /** The inner test passes exactly when some value that the key covers satisfies the query, or the
      query starts with one of the bounds and is not an inequality. */
  lemma {:induction false} InnerTestIff(k: Key, q: bytes, s: Strategy)
    requires Ordered(k)
    ensures Consistent(k, q, s, false) <==>
              SomeSatisfies(k, q, s) || (s != NotEqual && (k.lower <= q || k.upper <= q))
  {
    hide Le, Lex, Common;
    if v :| Covers(k, v) && Satisfies(v, q, s) {
      CoverIsConsistent(k, v, q, s);
    }
    if Consistent(k, q, s, false) && !(s != NotEqual && (k.lower <= q || k.upper <= q)) {
      CmpIsLe(q, k.lower);
      CmpIsLe(k.lower, q);
      CmpIsLe(q, k.upper);
      LeReflexive(k.lower);
      LeReflexive(k.upper);
      LeReflexive(q);
      var v := match s
        case LessEqual => k.lower
        case Less => k.lower
        case Equal => q
        case Greater => k.upper
        case GreaterEqual => k.upper
        case NotEqual => if q == k.lower then k.upper else k.lower;
      assert Covers(k, v) && Satisfies(v, q, s);
    }
  }

  /** A cut key keeps the common prefix of its bounds and at most two bytes more of each. */
  lemma {:induction false} CutLengths(k: Key) returns (n: nat)
    ensures n <= |k.lower| && n <= |k.upper| && k.lower[..n] == k.upper[..n]
    ensures n < |k.lower| && n < |k.upper| ==> k.lower[n] != k.upper[n]
    ensures Cut(k).lower == if |k.lower| <= n + 2 then k.lower else k.lower[..n + 2]
    ensures Cut(k).upper == if |k.upper| <= n + 2 then k.upper else k.upper[..n + 2]
  {
    n := Common(k.lower, k.upper);
  }
}
