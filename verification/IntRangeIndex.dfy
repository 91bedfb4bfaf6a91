/**
 Searching with range keys (g_int_union, g_int_consistent and g_int_same in
 contrib/intarray/_int_gist.c, the merge loops of _int_tool.c). Inner keys are unions that
 went through the range compressor and back, leaf keys are arrays read back as they were
 stored; a search descends only into consistent entries.
 */
module IntRangeIndex {
  import opened IntQuery
  import opened IntGin
  import opened IntRange
  import opened IntRangeCompress
  import opened IntRangeLeaf

  // ----- merge loops -----

  /** Elements below the current one of the other array have been passed. */
  lemma {:induction false} NotBefore(a: seq<int>, i: nat, x: int)
    requires Increasing(a) && i <= |a| && (i > 0 ==> a[i - 1] < x) && (i < |a| ==> x < a[i])
    ensures x !in a
  {
  }

  /** inner_int_contains. */
  method InnerContains(a: seq<int>, b: seq<int>) returns (res: bool)
    requires Increasing(a) && Increasing(b)
    ensures res <==> forall v | v in b :: v in a
  {
    var i, j, n := 0, 0, 0;
    while i < |a| && j < |b|
      invariant 0 <= i <= |a| && 0 <= j <= |b| && n == j
      invariant i > 0 && j < |b| ==> a[i - 1] < b[j]
      invariant forall k | 0 <= k < j :: b[k] in a
    {
      if a[i] < b[j] {
        i := i + 1;
      } else if a[i] == b[j] {
        n, i, j := n + 1, i + 1, j + 1;
      } else {
        break;
      }
    }
    if j < |b| {
      NotBefore(a, i, b[j]);
      assert b[j] in b;
    }
    res := n == |b|;
  }

  /** inner_int_overlap. */
  method InnerOverlap(a: seq<int>, b: seq<int>) returns (res: bool)
    requires Increasing(a) && Increasing(b)
    ensures res <==> exists v | v in b :: v in a
  {
    var i, j := 0, 0;
    while i < |a| && j < |b|
      invariant 0 <= i <= |a| && 0 <= j <= |b|
      invariant forall k | 0 <= k < i :: a[k] !in b
      invariant forall k | 0 <= k < j :: b[k] !in a
      invariant i > 0 && j < |b| ==> a[i - 1] < b[j]
      invariant j > 0 && i < |a| ==> b[j - 1] < a[i]
      decreases |a| - i + |b| - j
    {
      if a[i] < b[j] {
        NotBefore(b, j, a[i]);
        i := i + 1;
      } else if a[i] == b[j] {
        assert b[j] in b && b[j] in a;
        return true;
      } else {
        NotBefore(a, i, b[j]);
        j := j + 1;
      }
    }
    res := false;
  }

  /** g_int_same. */
  method SameArray(a: seq<int>, b: seq<int>) returns (res: bool)
    ensures res <==> a == b
  {
    if |a| != |b| {
      return false;
    }
    var n := 0;
    while n < |a|
      invariant 0 <= n <= |a| && a[..n] == b[..n]
    {
      if a[n] != b[n] {
        return false;
      }
      n := n + 1;
    }
    res := true;
  }

  ghost predicate SameSet(a: seq<int>, b: seq<int>) {
    (forall v: int | v in a :: v in b) && (forall v: int | v in b :: v in a)
  }

  /** Increasing arrays with the same elements are the same. */
  lemma {:induction false} SameElements(a: seq<int>, b: seq<int>)
    requires Increasing(a) && Increasing(b) && SameSet(a, b)
    ensures a == b
    decreases |a|
  {
    hide Increasing, SameSet;
    SameEmpty(a, b);
    if a != [] {
      var m, n := |a| - 1, |b| - 1;
      SameLast(a, b);
      SameFront(a, b);
      SameElements(a[..m], b[..n]);
      assert a == a[..m] + [a[m]] && b == b[..n] + [b[n]];
    }
  }

  lemma {:induction false} Shared(a: seq<int>, b: seq<int>, v: int)
    requires SameSet(a, b)
    ensures v in a <==> v in b
  {
  }

  lemma {:induction false} SameEmpty(a: seq<int>, b: seq<int>)
    requires SameSet(a, b)
    ensures a == [] <==> b == []
  {
    hide SameSet;
    if a != [] {
      Shared(a, b, a[0]);
    }
    if b != [] {
      Shared(a, b, b[0]);
    }
  }

  lemma {:induction false} SameFront(a: seq<int>, b: seq<int>)
    requires Increasing(a) && Increasing(b) && SameSet(a, b) && a != [] && b != [] && a[|a| - 1] == b[|b| - 1]
    ensures Increasing(a[..|a| - 1]) && Increasing(b[..|b| - 1]) && SameSet(a[..|a| - 1], b[..|b| - 1])
  {
    hide Increasing;
    var s, t := a[..|a| - 1], b[..|b| - 1];
    FrontElements(a);
    FrontElements(b);
    forall v: int | v in s
      ensures v in t
    {
      Shared(a, b, v);
    }
    forall v: int | v in t
      ensures v in s
    {
      Shared(a, b, v);
    }
  }

  lemma {:induction false} SameLast(a: seq<int>, b: seq<int>)
    requires Increasing(a) && Increasing(b) && SameSet(a, b) && a != [] && b != []
    ensures a[|a| - 1] == b[|b| - 1]
  {
    hide Increasing, SameSet;
    Shared(a, b, a[|a| - 1]);
    Shared(a, b, b[|b| - 1]);
    LastLargest(a, b[|b| - 1]);
    LastLargest(b, a[|a| - 1]);
  }

  lemma {:induction false} LastLargest(a: seq<int>, v: int)
    requires Increasing(a) && v in a
    ensures v <= a[|a| - 1]
  {
  }

  lemma {:induction false} FrontElements(a: seq<int>)
    requires Increasing(a) && a != []
    ensures Increasing(a[..|a| - 1])
    ensures forall v :: v in a[..|a| - 1] <==> v in a && v != a[|a| - 1]
  {
    var m := |a| - 1;
    forall v: int
      ensures v in a[..m] <==> v in a && v != a[m]
    {
      if v in a[..m] {
        var i :| 0 <= i < m && a[..m][i] == v;
        assert a[i] < a[m];
      }
    }
  }

  // ----- consistency -----

  /** The sorted unique form of an array, as PREPAREARR leaves it. */
  ghost predicate Prepared(p: seq<int>, arr: seq<int32>) {
    Increasing(p) && forall v: int32 :: v in p <==> v in arr
  }

  /** What g_int_consistent decides for a key. */
  ghost predicate ConsistentSpec(k: seq<int>, q: Request, e: Expr, leaf: bool) {
    match q
    case BoolQuery(_) => EvalLossy(e, (v: int32) => v in k, leaf)
    case ArrayQuery(strategy, elems) =>
      match strategy
      case Overlap => exists v | v in elems :: v in k
      case Contains => forall v | v in elems :: v in k
      case Same => (forall v | v in elems :: v in k) && (leaf ==> forall v | v in k :: IsElement(v, elems))
      case ContainedBy => leaf ==> forall v | v in k :: IsElement(v, elems)
  }

  ghost predicate IsElement(v: int, elems: seq<int32>) {
    exists i :: 0 <= i < |elems| && elems[i] == v
  }

  /** execconsistent: lossy on inner keys, exact on leaves. */
  method ExecConsistent(k: seq<int>, items: seq<Item>, ghost e: Expr, calcnot: bool) returns (r: bool)
    requires items == Linked(e) && LinksFit(e)
    ensures r == EvalLossy(e, (v: int32) => v in k, calcnot)
  {
    hide Linked, LinksFit, EvalLossy, Reads;
    var test: nat -> bool := (i: nat) => i < |items| && items[i].node.NVal? && items[i].node.val in k;
    StoredReads(items, 0, e);
    r := Execute(items, |items| - 1, e, test, calcnot);
    ghost var has: int32 -> bool := (v: int32) => v in k;
    assert Answers(items, test, has);
  }

  /** The requests whose answer the executor checks again on the row. */
  predicate Rechecked(q: Request) {
    q.ArrayQuery? && q.strategy.Same?
  }

  /** g_int_consistent; `prepared` is the query array after sorting and uniquing. */
  method Consistent(k: seq<int>, q: Request, prepared: seq<int>, ghost e: Expr, leaf: bool)
    returns (r: bool, recheck: bool)
    requires Increasing(k)
    requires q.BoolQuery? ==> q.items == Linked(e) && LinksFit(e)
    requires q.ArrayQuery? ==> Prepared(prepared, q.elems) && Int32s(prepared)
    ensures r == ConsistentSpec(k, q, e, leaf) && recheck == Rechecked(q)
  {
    hide Increasing, Linked, LinksFit, EvalLossy;
    recheck := Rechecked(q);
    match q
    case BoolQuery(items) => r := ExecConsistent(k, items, e, leaf);
    case ArrayQuery(strategy, elems) =>
      PreparedFacts(prepared, elems, k);
      match strategy {
        case Overlap => r := InnerOverlap(k, prepared);
        case Contains => r := InnerContains(k, prepared);
        case Same =>
          if leaf {
            r := SameArray(k, prepared);
            SameIff(k, prepared);
          } else {
            r := InnerContains(k, prepared);
          }
        case ContainedBy =>
          if leaf {
            r := InnerContains(prepared, k);
          } else {
            r := true;
          }
      }
  }

  lemma {:induction false} SameIff(k: seq<int>, p: seq<int>)
    requires Increasing(k) && Increasing(p)
    ensures k == p <==> (forall v | v in p :: v in k) && (forall v | v in k :: v in p)
  {
    if (forall v | v in p :: v in k) && (forall v | v in k :: v in p) {
      assert SameSet(k, p);
      SameElements(k, p);
    }
  }

  /** Membership in the prepared array is membership in the query. */
  lemma {:induction false} PreparedFacts(p: seq<int>, elems: seq<int32>, k: seq<int>)
    requires Prepared(p, elems) && Int32s(p)
    ensures forall v: int :: v in p <==> IsElement(v, elems)
    ensures (exists v | v in p :: v in k) <==> (exists v | v in elems :: v in k)
    ensures (forall v | v in p :: v in k) <==> (forall v | v in elems :: v in k)
  {
    hide Increasing;
    forall v: int
      ensures v in p <==> IsElement(v, elems)
    {
      if v in p {
        var i :| 0 <= i < |p| && p[i] == v;
        var w: int32 := v;
        assert w in elems;
        var j :| 0 <= j < |elems| && elems[j] == w;
      }
      if IsElement(v, elems) {
        var j :| 0 <= j < |elems| && elems[j] == v;
        assert elems[j] in elems;
      }
    }
    forall v | v in p
      ensures exists w | w in elems :: w == v
    {
      var i :| 0 <= i < |elems| && elems[i] == v;
      assert elems[i] in elems;
    }
  }

  /** Some array with elements of the key only satisfies the request. */
  ghost predicate SomeMatches(k: seq<int>, q: Request, e: Expr) {
    exists arr: seq<int32> :: (forall v | v in arr :: v in k) && Matches(arr, q, e)
  }

  /** An inner key is descended into exactly when an array made of its elements could satisfy the
      request, negations aside: the test prunes all that the key can prune. */
  lemma {:induction false} PruningIsTight(k: seq<int>, q: Request, e: Expr)
    requires q.BoolQuery? ==> !HasNot(e)
    ensures ConsistentSpec(k, q, e, false) <==> SomeMatches(k, q, e)
  {
    hide Eval, EvalLossy;
    match q {
      case BoolQuery(_) => BoolTight(k, q, e);
      case ArrayQuery(strategy, elems) =>
        match strategy {
          case Overlap =>
            if v :| v in elems && v in k {
              assert Matches([v], q, e);
            }
          case Contains =>
            assert Matches(elems, q, e);
          case Same =>
            assert Matches(elems, q, e);
            forall arr: seq<int32> | Elems(arr) == Elems(elems) && forall v | v in arr :: v in k
              ensures forall v | v in elems :: v in k
            {
              assert forall v | v in elems :: v in Elems(elems);
            }
          case ContainedBy =>
            assert Matches([], q, e);
        }
    }
  }

  lemma {:induction false} BoolTight(k: seq<int>, q: Request, e: Expr)
    requires q.BoolQuery? && !HasNot(e)
    ensures ConsistentSpec(k, q, e, false) <==> SomeMatches(k, q, e)
  {
    hide Eval, EvalLossy;
    var has := (v: int32) => v in k;
    LossyWithoutNot(e, has);
    if Eval(e, has) {
      var arr := ElementsAmong(k, Values(e));
      LossyOnValues(e, has, v => v in arr);
      assert Matches(arr, q, e) && forall v | v in arr :: v in k;
    }
    if SomeMatches(k, q, e) {
      var arr: seq<int32> :| (forall v | v in arr :: v in k) && Matches(arr, q, e);
      EvalGrows(e, v => v in arr, has);
    }
  }

  /** The given values that are in the key. */
  lemma {:induction false} ElementsAmong(k: seq<int>, vs: set<int32>) returns (arr: seq<int32>)
    ensures forall v: int32 :: v in arr <==> v in vs && v in k
  {
    arr := [];
    if vs != {} {
      var v :| v in vs;
      arr := ElementsAmong(k, vs - {v});
      if v in k {
        arr := arr + [v];
      }
    }
  }

  // ----- trees -----

  datatype Tree = Leaf(arr: seq<int32>) | Node(children: seq<Tree>, keys: seq<seq<int>>)

  /** g_int_union: increasing, with the elements of all entries. */
  ghost predicate UnionOf(u: seq<int>, keys: seq<seq<int>>) {
    && Increasing(u)
    && (forall i, v | 0 <= i < |keys| && v in keys[i] :: v in u)
    && (forall v | v in u :: exists i :: 0 <= i < |keys| && v in keys[i])
  }

  /** A key as it is read: a union that was stored and expanded again may have gained
      elements, but has lost none. */
  ghost predicate ReadBack(u: seq<int>, ranges: nat, k: seq<int>) {
    Increasing(k) && (forall v | v in u :: v in k) && (|u| < 2 * ranges ==> k == u)
  }

  /** Reloading a key through the index satisfies that, when it succeeds. */
  method StoreAndRead(u: seq<int>, ranges: nat) returns (r: Expanded)
    requires Increasing(u) && Int32s(u) && 1 <= ranges
    ensures r.Elements? ==> ReadBack(u, ranges, r.elems)
    ensures r.CounterOverflow? <==> |u| >= 2 * ranges && INT_MAX in u && !r.TooBig?
  {
    hide Increasing, Int32s, Union, IsCover;
    r := Reload(u, ranges);
  }

  /** The sorted unique form that g_int_compress stores for a leaf. */
  ghost predicate StoredAs(arr: seq<int32>, p: seq<int>) {
    Prepared(p, arr) && Int32s(p)
  }

  /** The stored form comes back unchanged: it is short, or all its pairs are consecutive. */
  ghost predicate ReadsExactly(arr: seq<int32>, ranges: nat) {
    forall p | StoredAs(arr, p) :: |p| < 2 * ranges || Consecutive(p)
  }

  /** The requests that stay true of an array when it gains elements: overlap, contains and
      queries without a negation. */
  predicate Growing(q: Request, e: Expr) {
    match q
    case ArrayQuery(strategy, _) => strategy.Overlap? || strategy.Contains?
    case BoolQuery(_) => !HasNot(e)
  }

  ghost predicate KeyedBy(t: Tree, k: seq<int>, ranges: nat) {
    match t
    case Leaf(arr) => exists p :: StoredAs(arr, p) && LeafReads(p, ranges, k)
    case Node(children, keys) =>
      && |keys| == |children| && (exists u :: UnionOf(u, keys) && ReadBack(u, ranges, k))
      && forall i | 0 <= i < |children| :: KeyedBy(children[i], keys[i], ranges)
  }

  ghost predicate Holds(t: Tree, arr: seq<int32>) {
    match t
    case Leaf(a) => a == arr
    case Node(children, _) => exists i | 0 <= i < |children| :: Holds(children[i], arr)
  }

  /** The arrays a search reaches. */
  ghost function Found(t: Tree, k: seq<int>, q: Request, e: Expr): iset<seq<int32>>
    decreases t
  {
    if !ConsistentSpec(k, q, e, t.Leaf?) then iset{}
    else match t
      case Leaf(arr) => iset{arr}
      case Node(children, keys) =>
        if |keys| != |children| then iset{}
        else iset i, arr | 0 <= i < |children| && arr in Found(children[i], keys[i], q, e) :: arr
  }

  lemma {:induction false} KeyCovers(t: Tree, k: seq<int>, ranges: nat, arr: seq<int32>, v: int32)
    requires KeyedBy(t, k, ranges) && Holds(t, arr) && v in arr
    ensures v in k
    decreases t
  {
    match t
    case Leaf(_) =>
      var p :| StoredAs(arr, p) && LeafReads(p, ranges, k);
      LeafKept(p, ranges, k);
    case Node(children, keys) =>
      var i :| 0 <= i < |children| && Holds(children[i], arr);
      KeyCovers(children[i], keys[i], ranges, arr, v);
      var u :| UnionOf(u, keys) && ReadBack(u, ranges, k);
      assert v in keys[i];
  }

  /** On a leaf the decision is exact. */
  lemma {:induction false} LeafIsExact(k: seq<int>, q: Request, e: Expr, arr: seq<int32>)
    requires Prepared(k, arr) && Int32s(k)
    ensures ConsistentSpec(k, q, e, true) <==> Matches(arr, q, e)
  {
    hide Increasing;
    match q
    case BoolQuery(_) =>
      EvalExact(e, (v: int32) => v in k);
      SameEval(e, (v: int32) => v in k, v => v in arr);
    case ArrayQuery(strategy, elems) =>
      PreparedFacts(k, arr, elems);
      match strategy {
        case Overlap => 
        case Contains =>
        case Same => SetsAgree(k, arr, elems);
        case ContainedBy => SetsAgree(k, arr, elems);
      }
  }

  lemma {:induction false} SameEval(e: Expr, has: int32 -> bool, more: int32 -> bool)
    requires forall v :: has(v) == more(v)
    ensures Eval(e, has) == Eval(e, more)
  {
    match e
    case Val(_) =>
    case Not(x) => SameEval(x, has, more);
    case Bin(_, l, r) => SameEval(l, has, more); SameEval(r, has, more);
  }

  /** Inclusion of the leaf's elements in the query's, said with either type. */
  lemma {:induction false} SetsAgree(k: seq<int>, arr: seq<int32>, elems: seq<int32>)
    requires Prepared(k, arr) && Int32s(k)
    ensures (forall v | v in k :: IsElement(v, elems)) <==> (forall v | v in arr :: v in elems)
    ensures (forall v | v in elems :: v in k) <==> (forall v | v in elems :: v in arr)
    ensures Elems(arr) == Elems(elems) <==> (forall v | v in arr :: v in elems) && (forall v | v in elems :: v in arr)
  {
    hide Increasing;
    if forall v | v in arr :: v in elems {
      forall v | v in k
        ensures IsElement(v, elems)
      {
        var i :| 0 <= i < |k| && k[i] == v;
        var w: int32 := v;
        assert w in arr;
        var j :| 0 <= j < |elems| && elems[j] == w;
      }
    }
    if forall v | v in k :: IsElement(v, elems) {
      forall v | v in arr
        ensures v in elems
      {
        assert IsElement(v, elems);
      }
    }
    assert Elems(arr) == Elems(elems) ==> forall v | v in arr :: v in Elems(elems);
    assert Elems(arr) == Elems(elems) ==> forall v | v in elems :: v in Elems(arr);
  }

  /** A query without negations stays true of a larger set. */
  lemma {:induction false} EvalGrows(e: Expr, has: int32 -> bool, more: int32 -> bool)
    requires !HasNot(e) && Eval(e, has) && forall v :: has(v) ==> more(v)
    ensures Eval(e, more)
  {
    match e
    case Val(_) =>
    case Bin(_, l, r) =>
      if Eval(l, has) {
        EvalGrows(l, has, more);
      }
      if Eval(r, has) {
        EvalGrows(r, has, more);
      }
  }

  /** A leaf that gained elements still answers the growing requests it satisfies. */
  lemma {:induction false} GrowingKept(k: seq<int>, q: Request, e: Expr, arr: seq<int32>)
    requires (forall v | v in arr :: v in k) && Matches(arr, q, e) && Growing(q, e)
    ensures ConsistentSpec(k, q, e, true)
  {
    match q
    case ArrayQuery(_, _) =>
    case BoolQuery(_) =>
      EvalGrows(e, v => v in arr, (v: int32) => v in k);
      EvalExact(e, (v: int32) => v in k);
  }

  ghost predicate ExactAt(k: seq<int>, arr: seq<int32>, q: Request, e: Expr) {
    ConsistentSpec(k, q, e, true) <==> Matches(arr, q, e)
  }

  /** A leaf that gains an element misses a contained-by and an equality search for its own
      array, and is reported, without a recheck, by an overlap search for the element. */
  lemma {:induction false} LongLeafFails(arr: seq<int32>, p: seq<int>, ranges: nat, k: seq<int>, e: Expr)
    returns (v: int32)
    requires StoredAs(arr, p) && LeafReads(p, ranges, k) && |p| >= 2 * ranges && !Consecutive(p)
    ensures forall s: Strategy | s.ContainedBy? || s.Same? ::
              Matches(arr, ArrayQuery(s, arr), e) && !ConsistentSpec(k, ArrayQuery(s, arr), e, true)
    ensures var q := ArrayQuery(Overlap, [v]);
            !Matches(arr, q, e) && ConsistentSpec(k, q, e, true) && !Rechecked(q)
  {
    hide Increasing, Int32s, Consecutive, Expansion;
    var x := ExtraElement(p);
    v := x;
    assert v !in arr;
    assert !IsElement(x, arr);
    assert v in [v];
  }

  /** Every search decides a leaf exactly, if and only if its array has fewer than
      2 * ranges elements or is stored as pairs of consecutive integers. */
  lemma {:induction false} LeafExactIff(arr: seq<int32>, p: seq<int>, ranges: nat, k: seq<int>)
    requires StoredAs(arr, p) && LeafReads(p, ranges, k)
    ensures (forall q, e :: ExactAt(k, arr, q, e)) <==> |p| < 2 * ranges || Consecutive(p)
  {
    hide Increasing, Int32s, Consecutive, Expansion, ConsistentSpec, Matches;
    if |p| < 2 * ranges || Consecutive(p) {
      LeafKept(p, ranges, k);
      forall q, e
        ensures ExactAt(k, arr, q, e)
      {
        LeafIsExact(k, q, e, arr);
      }
    } else {
      var e := Val(0);
      var v := LongLeafFails(arr, p, ranges, k, e);
      assert !ExactAt(k, arr, ArrayQuery(Overlap, [v]), e);
    }
  }

  /** With one range, the array {1, 3} reads as 1, 2, 3. */
  lemma {:induction false} LongLeafExample()
    ensures StoredAs([1, 3], [1, 3]) && !Consecutive([1, 3])
    ensures forall k | LeafReads([1, 3], 1, k) :: k == [1, 2, 3]
  {
    var p := [1, 3];
    assert !PairAt(p, 0);
    assert p[2..] == [];
    assert Run(1, 3) == [1] + Run(2, 3) == [1, 2] + Run(3, 3);
    assert Expansion(p) == Run(1, 3) + Expansion(p[2..]);
  }

  /** No entry above a matching array is rejected, when the array is read back exactly or
      the request is one of the growing ones. */
  lemma {:induction false} NeverLoses(t: Tree, k: seq<int>, ranges: nat, q: Request, e: Expr, arr: seq<int32>)
    requires KeyedBy(t, k, ranges) && Holds(t, arr) && Matches(arr, q, e)
    requires t.Leaf? ==> Growing(q, e) || ReadsExactly(arr, ranges)
    ensures ConsistentSpec(k, q, e, t.Leaf?)
  {
    forall v: int32 | v in arr
      ensures v in k
    {
      KeyCovers(t, k, ranges, arr, v);
    }
    hide Increasing, Int32s, Prepared;
    if t.Leaf? {
      NeverLosesLeaf(t, k, ranges, q, e, arr);
    } else {
      hide KeyedBy, Holds;
      match q
      case BoolQuery(_) => EvalLossyCovers(e, v => v in arr, (v: int32) => v in k);
      case ArrayQuery(strategy, elems) =>
        match strategy {
          case Overlap =>
          case Contains =>
          case Same =>
            assert forall v | v in elems :: v in Elems(elems);
            assert forall v | v in Elems(arr) :: v in arr;
          case ContainedBy =>
        }
    }
  }

  lemma {:induction false} NeverLosesLeaf(t: Tree, k: seq<int>, ranges: nat, q: Request, e: Expr, arr: seq<int32>)
    requires t.Leaf? && KeyedBy(t, k, ranges) && Holds(t, arr) && Matches(arr, q, e)
    requires forall v: int32 | v in arr :: v in k
    requires Growing(q, e) || ReadsExactly(arr, ranges)
    ensures ConsistentSpec(k, q, e, true)
  {
    hide Increasing, ConsistentSpec, Matches, Growing, LeafReads;
    if Growing(q, e) {
      GrowingKept(k, q, e, arr);
    } else {
      var p :| StoredAs(arr, p) && LeafReads(p, ranges, k);
      LeafKept(p, ranges, k);
      LeafIsExact(k, q, e, arr);
    }
  }

  /** A search of any tree of range keys reaches every array that satisfies the request, when
      the array is read back exactly or the request is one of the growing ones. */
  lemma {:induction false} SearchIsComplete(t: Tree, k: seq<int>, ranges: nat, q: Request, e: Expr, arr: seq<int32>)
    requires KeyedBy(t, k, ranges) && Holds(t, arr) && Matches(arr, q, e)
    requires Growing(q, e) || ReadsExactly(arr, ranges)
    ensures arr in Found(t, k, q, e)
    decreases t
  {
    hide ConsistentSpec, Matches, Increasing, Growing, ReadsExactly;
    NeverLoses(t, k, ranges, q, e, arr);
    if t.Node? {
      var i :| 0 <= i < |t.children| && Holds(t.children[i], arr);
      SearchIsComplete(t.children[i], t.keys[i], ranges, q, e, arr);
    }
  }

  /** That condition is exact: in every tree, a contained-by and an equality search for an
      array that is read back with more elements miss it. */
  lemma {:induction false} LongLeafMissed(t: Tree, k: seq<int>, ranges: nat, e: Expr, arr: seq<int32>)
    requires KeyedBy(t, k, ranges) && !ReadsExactly(arr, ranges)
    ensures arr !in Found(t, k, ArrayQuery(ContainedBy, arr), e)
    ensures arr !in Found(t, k, ArrayQuery(Same, arr), e)
    decreases t
  {
    hide ConsistentSpec, Increasing, ReadsExactly;
    match t
    case Leaf(a) =>
      if a == arr {
        LongLeafMissedLeaf(k, ranges, e, arr);
      }
    case Node(children, keys) =>
      forall i | 0 <= i < |children|
        ensures arr !in Found(children[i], keys[i], ArrayQuery(ContainedBy, arr), e)
        ensures arr !in Found(children[i], keys[i], ArrayQuery(Same, arr), e)
      {
        LongLeafMissed(children[i], keys[i], ranges, e, arr);
      }
  }

  lemma {:induction false} LongLeafMissedLeaf(k: seq<int>, ranges: nat, e: Expr, arr: seq<int32>)
    requires KeyedBy(Leaf(arr), k, ranges) && !ReadsExactly(arr, ranges)
    ensures !ConsistentSpec(k, ArrayQuery(ContainedBy, arr), e, true)
    ensures !ConsistentSpec(k, ArrayQuery(Same, arr), e, true)
  {
    hide ConsistentSpec, LeafReads;
    var p :| StoredAs(arr, p) && LeafReads(p, ranges, k);
    var o :| StoredAs(arr, o) && !(|o| < 2 * ranges || Consecutive(o));
    StoredOnce(arr, p, o);
    var v := LongLeafFails(arr, p, ranges, k, e);
  }

  lemma {:induction false} StoredOnce(arr: seq<int32>, p: seq<int>, o: seq<int>)
    requires StoredAs(arr, p) && StoredAs(arr, o)
    ensures p == o
  {
    hide Increasing;
    forall v: int
      ensures v in p <==> v in o
    {
      PreparedFacts(p, arr, []);
      PreparedFacts(o, arr, []);
    }
    SameElements(p, o);
  }
}
