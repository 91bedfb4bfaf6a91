/**
 Range keys for integer arrays (contrib/intarray/_int_gist.c), as mathematics: a strictly
 increasing array is cut at some of its gaps into ranges. The module relates a set of cuts
 to the flat list of range ends, to the number of integers the ranges denote, and to every
 other way of covering the array with intervals.
 */
module IntRange {
  import opened Sets

  ghost predicate Increasing(xs: seq<int>) {
    forall i, j | 0 <= i < j < |xs| :: xs[i] < xs[j]
  }

  /** The gap after element i. */
  function Gap(xs: seq<int>, i: nat): int
    requires i + 1 < |xs|
  {
    xs[i + 1] - xs[i]
  }

  /** A set of cuts: i stands for the gap between elements i and i + 1. */
  ghost predicate IsCuts(xs: seq<int>, cuts: set<nat>) {
    forall i | i in cuts :: i + 1 < |xs|
  }

  /** The range ends, low and high alternating, of the elements from i on. */
  ghost function Ends(xs: seq<int>, cuts: set<nat>, i: nat): (f: seq<int>)
    requires i < |xs|
    ensures |f| >= 2 && |f| % 2 == 0 && f[0] == xs[i]
    decreases |xs| - i
  {
    if i + 1 == |xs| then [xs[i], xs[i]]
    else if i in cuts then [xs[i], xs[i]] + Ends(xs, cuts, i + 1)
    else Ends(xs, cuts, i + 1)[0 := xs[i]]
  }

  /** How many integers the ranges from element i on denote. */
  ghost function Weight(xs: seq<int>, cuts: set<nat>, i: nat): int
    requires i < |xs|
    decreases |xs| - i
  {
    if i + 1 == |xs| then 1
    else Weight(xs, cuts, i + 1) + (if i in cuts then 1 else Gap(xs, i))
  }

  /** Number of cuts at or after i. */
  ghost function CutsFrom(xs: seq<int>, cuts: set<nat>, i: nat): nat
    requires i < |xs|
    decreases |xs| - i
  {
    if i + 1 == |xs| then 0 else CutsFrom(xs, cuts, i + 1) + (if i in cuts then 1 else 0)
  }

  // ----- range ends -----

  /** A flat list of ranges: each is nonempty and ends before the next begins. */
  ghost predicate Ranges(f: seq<int>) {
    |f| % 2 == 0 && forall p | 0 <= p < |f| && p % 2 == 0 :: RangeOk(f, p)
  }

  ghost predicate RangeOk(f: seq<int>, p: nat)
    requires |f| % 2 == 0 && p < |f| && p % 2 == 0
  {
    f[p] <= f[p + 1] && (p > 0 ==> f[p - 1] < f[p])
  }

  /** x lies in one of the ranges. */
  ghost predicate InRanges(f: seq<int>, x: int) {
    exists p :: InRange(f, p, x)
  }

  ghost predicate InRange(f: seq<int>, p: nat, x: int) {
    p + 1 < |f| && p % 2 == 0 && f[p] <= x <= f[p + 1]
  }

  /** Sum of the range lengths. */
  ghost function RangeSize(f: seq<int>): int
    requires |f| % 2 == 0
  {
    if f == [] then 0 else (f[1] - f[0] + 1) + RangeSize(f[2..])
  }

  lemma {:induction false} EndsShape(xs: seq<int>, cuts: set<nat>, i: nat)
    requires Increasing(xs) && i < |xs|
    ensures |Ends(xs, cuts, i)| == 2 * (CutsFrom(xs, cuts, i) + 1)
    ensures Ranges(Ends(xs, cuts, i))
    ensures RangeSize(Ends(xs, cuts, i)) == Weight(xs, cuts, i)
    decreases |xs| - i
  {
    EndsUnfold(xs, cuts, i);
    if i + 1 == |xs| {
      assert Ends(xs, cuts, i)[2..] == [];
    } else {
      EndsShape(xs, cuts, i + 1);
      hide Ends;
      if i in cuts {
        RangesPrepend(xs[i], Ends(xs, cuts, i + 1));
      } else {
        RangesExtend(xs[i], Ends(xs, cuts, i + 1));
      }
    }
  }

  lemma {:induction false} RangesPrepend(x: int, g: seq<int>)
    requires Ranges(g) && |g| >= 2 && x < g[0]
    ensures Ranges([x, x] + g) && RangeSize([x, x] + g) == 1 + RangeSize(g)
  {
    var f := [x, x] + g;
    assert f[2..] == g;
    forall p | 0 <= p < |f| && p % 2 == 0
      ensures RangeOk(f, p)
    {
      if p >= 2 {
        assert RangeOk(g, p - 2);
      }
    }
  }

  lemma {:induction false} RangesExtend(x: int, g: seq<int>)
    requires Ranges(g) && |g| >= 2 && x <= g[0]
    ensures Ranges(g[0 := x]) && RangeSize(g[0 := x]) == RangeSize(g) + (g[0] - x)
  {
    var f := g[0 := x];
    assert f[2..] == g[2..];
    forall p | 0 <= p < |f| && p % 2 == 0
      ensures RangeOk(f, p)
    {
      assert RangeOk(g, p);
    }
  }

  /** Every element is inside a range, and every range end is an element. */
  lemma {:induction false} EndsCover(xs: seq<int>, cuts: set<nat>, i: nat, k: nat)
    requires Increasing(xs) && i <= k < |xs|
    ensures InRanges(Ends(xs, cuts, i), xs[k])
    decreases |xs| - i
  {
    var f := Ends(xs, cuts, i);
    EndsShape(xs, cuts, i);
    if k == i {
      assert RangeOk(f, 0);
      assert InRange(f, 0, xs[k]);
    } else {
      EndsCover(xs, cuts, i + 1, k);
      var g := Ends(xs, cuts, i + 1);
      var p: nat :| InRange(g, p, xs[k]);
      if i in cuts {
        assert InRange(f, p + 2, xs[k]);
      } else {
        assert InRange(f, p, xs[k]);
      }
    }
  }

  lemma {:induction false} EndsAreElements(xs: seq<int>, cuts: set<nat>, i: nat, p: nat)
    requires i < |xs| && p < |Ends(xs, cuts, i)|
    ensures Ends(xs, cuts, i)[p] in xs
    decreases |xs| - i
  {
    if i + 1 < |xs| {
      if i in cuts {
        if p >= 2 {
          EndsAreElements(xs, cuts, i + 1, p - 2);
        }
      } else if p > 0 {
        EndsAreElements(xs, cuts, i + 1, p);
      }
    }
  }

  /** Cuts before i do not matter from i on. */
  lemma {:induction false} EndsDepend(xs: seq<int>, cuts: set<nat>, cuts': set<nat>, i: nat)
    requires i < |xs| && forall k | i <= k :: k in cuts <==> k in cuts'
    ensures Ends(xs, cuts, i) == Ends(xs, cuts', i) && CutsFrom(xs, cuts, i) == CutsFrom(xs, cuts', i)
    decreases |xs| - i
  {
    if i + 1 < |xs| {
      EndsDepend(xs, cuts, cuts', i + 1);
    }
  }

  /** The inner boundaries of the list are the cut gaps: position p belongs to a cut, and
      dropping the two ends at that boundary drops the cut. */
  lemma {:induction false} BoundaryIsCut(xs: seq<int>, cuts: set<nat>, i: nat, p: nat) returns (b: nat)
    requires i < |xs| && 2 <= p < |Ends(xs, cuts, i)| && p % 2 == 0
    ensures i <= b && b + 1 < |xs| && b in cuts
    ensures var f := Ends(xs, cuts, i); f[p - 1] == xs[b] && f[p] == xs[b + 1]
    ensures Ends(xs, cuts - {b}, i) == Ends(xs, cuts, i)[..p - 1] + Ends(xs, cuts, i)[p + 1..]
    decreases |xs| - i
  {
    hide Ends;
    EndsUnfold(xs, cuts, i);
    var g := Ends(xs, cuts, i + 1);
    if i in cuts && p == 2 {
      b := i;
      EndsDepend(xs, cuts, cuts - {i}, i + 1);
      DropFirst(xs[i], g);
    } else if i in cuts {
      b := BoundaryIsCut(xs, cuts, i + 1, p - 2);
      DropLater(xs[i], g, p);
    } else {
      b := BoundaryIsCut(xs, cuts, i + 1, p);
      DropJoined(xs[i], g, p);
    }
    EndsUnfold(xs, cuts - {b}, i);
  }

  lemma {:induction false} EndsUnfold(xs: seq<int>, cuts: set<nat>, i: nat)
    requires i < |xs|
    ensures i + 1 == |xs| ==> |Ends(xs, cuts, i)| == 2
    ensures i + 1 < |xs| && i in cuts ==> Ends(xs, cuts, i) == [xs[i], xs[i]] + Ends(xs, cuts, i + 1)
    ensures i + 1 < |xs| && i !in cuts ==> Ends(xs, cuts, i) == Ends(xs, cuts, i + 1)[0 := xs[i]]
  {
  }

  /** Dropping two neighbours commutes with putting a range in front and with moving the
      first end. */
  lemma {:induction false} DropFirst(x: int, g: seq<int>)
    requires |g| >= 2
    ensures var f := [x, x] + g; f[1] == x && f[2] == g[0] && f[..1] + f[3..] == g[0 := x]
  {
  }

  lemma {:induction false} DropLater(x: int, g: seq<int>, p: nat)
    requires 4 <= p < |g| + 2
    ensures var f := [x, x] + g;
            && f[p - 1] == g[p - 3] && f[p] == g[p - 2]
            && f[..p - 1] + f[p + 1..] == [x, x] + (g[..p - 3] + g[p - 1..])
  {
  }

  lemma {:induction false} DropJoined(x: int, g: seq<int>, p: nat)
    requires 2 <= p < |g|
    ensures var f := g[0 := x];
            && f[p - 1] == g[p - 1] && f[p] == g[p]
            && f[..p - 1] + f[p + 1..] == (g[..p - 1] + g[p + 1..])[0 := x]
  {
  }

  /** Every cut shows as a boundary of the list. */
  lemma {:induction false} CutIsBoundary(xs: seq<int>, cuts: set<nat>, i: nat, b: nat) returns (p: nat)
    requires i <= b && b + 1 < |xs| && b in cuts
    ensures 2 <= p < |Ends(xs, cuts, i)| && p % 2 == 0
    ensures var f := Ends(xs, cuts, i); f[p - 1] == xs[b] && f[p] == xs[b + 1]
    decreases |xs| - i
  {
    hide Ends;
    EndsUnfold(xs, cuts, i);
    var g := Ends(xs, cuts, i + 1);
    if b == i {
      p := 2;
      DropFirst(xs[i], g);
    } else {
      var q := CutIsBoundary(xs, cuts, i + 1, b);
      if i in cuts {
        p := q + 2;
        DropLater(xs[i], g, p);
      } else {
        p := q;
        DropJoined(xs[i], g, p);
      }
    }
  }

  // ----- the cut count is the cardinality -----

  lemma {:induction false} CutsFromCard(xs: seq<int>, cuts: set<nat>, i: nat)
    requires i < |xs| && IsCuts(xs, cuts)
    ensures CutsFrom(xs, cuts, i) == |set k | k in cuts && k >= i|
    decreases |xs| - i
  {
    var here := set k | k in cuts && k >= i;
    if i + 1 == |xs| {
      assert here == {};
    } else {
      CutsFromCard(xs, cuts, i + 1);
      var there := set k | k in cuts && k >= i + 1;
      if i in cuts {
        assert here == there + {i};
      } else {
        assert here == there;
      }
    }
  }

  lemma {:induction false} CutsFromZero(xs: seq<int>, cuts: set<nat>)
    requires |xs| > 0 && IsCuts(xs, cuts)
    ensures CutsFrom(xs, cuts, 0) == |cuts|
  {
    CutsFromCard(xs, cuts, 0);
    assert (set k | k in cuts && k >= 0) == cuts;
  }

  // ----- optimality -----

  /** Every gap that is kept closed is at most every gap that is cut. */
  ghost predicate Separated(xs: seq<int>, cuts: set<nat>) {
    forall i: nat, k: nat | i + 1 < |xs| && k + 1 < |xs| && i !in cuts && k in cuts :: Gap(xs, i) <= Gap(xs, k)
  }

  function MinOf(a: int, b: int): int {
    if a <= b then a else b
  }

  /** One for the last element, and for each gap the smaller of the gap and t. */
  ghost function Capped(xs: seq<int>, t: int, i: nat): int
    requires i < |xs|
    decreases |xs| - i
  {
    if i + 1 == |xs| then 1 else Capped(xs, t, i + 1) + MinOf(Gap(xs, i), t)
  }

  /** Any cuts: paying t - 1 for each cut makes the weight at least the capped sum; equality
      when t separates the cut gaps from the others. */
  lemma {:induction false} WeightDuality(xs: seq<int>, cuts: set<nat>, t: int, i: nat)
    requires i < |xs| && t >= 1
    ensures Weight(xs, cuts, i) + CutsFrom(xs, cuts, i) * (t - 1) >= Capped(xs, t, i)
    ensures (forall k | i <= k < |xs| - 1 :: if k in cuts then Gap(xs, k) >= t else Gap(xs, k) <= t) ==>
              Weight(xs, cuts, i) + CutsFrom(xs, cuts, i) * (t - 1) == Capped(xs, t, i)
    decreases |xs| - i
  {
    if i + 1 < |xs| {
      WeightDuality(xs, cuts, t, i + 1);
      var c := CutsFrom(xs, cuts, i + 1);
      assert (c + 1) * (t - 1) == c * (t - 1) + (t - 1);
    }
  }

  lemma {:induction false} MulMonotone(a: int, b: int, c: int)
    requires a <= b && 0 <= c
    ensures a * c <= b * c
  {
  }

  /** A smallest cut gap. */
  lemma {:induction false} SmallestCut(xs: seq<int>, cuts: set<nat>) returns (m: nat)
    requires IsCuts(xs, cuts) && cuts != {}
    ensures m in cuts && forall k | k in cuts :: Gap(xs, m) <= Gap(xs, k)
    decreases |cuts|
  {
    var first :| first in cuts;
    var rest := cuts - {first};
    m := first;
    if rest != {} {
      var m' := SmallestCut(xs, rest);
      if Gap(xs, m') < Gap(xs, first) {
        m := m';
      }
      assert forall k | k in rest :: Gap(xs, m) <= Gap(xs, k);
    }
    forall k | k in cuts
      ensures Gap(xs, m) <= Gap(xs, k)
    {
      assert k == first || k in rest;
    }
  }

  /** Cutting the largest gaps is best: among cut sets that are no larger, none has a
      smaller weight. */
  lemma {:induction false} SeparatedIsLightest(xs: seq<int>, best: set<nat>, other: set<nat>)
    requires Increasing(xs) && |xs| > 0
    requires IsCuts(xs, best) && IsCuts(xs, other) && Separated(xs, best) && |other| <= |best|
    ensures Weight(xs, best, 0) <= Weight(xs, other, 0)
  {
    hide Weight, Capped, CutsFrom;
    CutsFromZero(xs, best);
    CutsFromZero(xs, other);
    if best == {} {
      assert other == {};
    } else {
      var m := SmallestCut(xs, best);
      var t := Gap(xs, m);
      assert xs[m] < xs[m + 1];
      forall k | 0 <= k < |xs| - 1
        ensures if k in best then Gap(xs, k) >= t else Gap(xs, k) <= t
      {
        assert xs[k] < xs[k + 1];
      }
      WeightDuality(xs, best, t, 0);
      WeightDuality(xs, other, t, 0);
      MulMonotone(|other|, |best|, t - 1);
    }
  }

  // ----- arbitrary covers -----

  /** An interval of integers; empty when lo exceeds hi. */
  datatype Interval = Interval(lo: int, hi: int)

  ghost predicate Within(iv: Interval, x: int) {
    iv.lo <= x <= iv.hi
  }

  ghost function Points(iv: Interval): set<int> {
    set x | iv.lo <= x <= iv.hi && Within(iv, x)
  }

  /** The integers in some interval of the list. */
  ghost function Union(ivs: seq<Interval>): set<int> {
    if ivs == [] then {} else Points(ivs[0]) + Union(ivs[1..])
  }

  lemma {:induction false} InUnion(ivs: seq<Interval>, x: int)
    ensures x in Union(ivs) <==> exists k | 0 <= k < |ivs| :: Within(ivs[k], x)
  {
    if ivs != [] {
      InUnion(ivs[1..], x);
      if x in Union(ivs[1..]) {
        var k :| 0 <= k < |ivs[1..]| && Within(ivs[1..][k], x);
        assert Within(ivs[k + 1], x);
      }
      if exists k | 0 <= k < |ivs| :: Within(ivs[k], x) {
        var k :| 0 <= k < |ivs| && Within(ivs[k], x);
        if k > 0 {
          assert Within(ivs[1..][k - 1], x);
        }
      }
    }
  }

  /** No interval of the list contains both ends of the gap after i. */
  ghost predicate Parted(xs: seq<int>, ivs: seq<Interval>, i: nat)
    requires i + 1 < |xs|
  {
    forall k | 0 <= k < |ivs| :: !(Within(ivs[k], xs[i]) && Within(ivs[k], xs[i + 1]))
  }

  /** The gaps a cover leaves open. */
  ghost function CutsOf(xs: seq<int>, ivs: seq<Interval>): set<nat> {
    set i: nat | 0 <= i < |xs| - 1 && Parted(xs, ivs, i)
  }

  /** Indices of the intervals that reach xs[i] or beyond. */
  ghost function Reaching(xs: seq<int>, ivs: seq<Interval>, i: nat): set<nat>
    requires i < |xs|
  {
    set k: nat | 0 <= k < |ivs| && ivs[k].hi >= xs[i]
  }

  lemma {:induction false} ProperSubsetSmaller(a: set<nat>, b: set<nat>, x: nat)
    requires a <= b && x in b && x !in a
    ensures |a| + 1 <= |b|
  {
    var b' := b - {x};
    assert a <= b';
    SubsetSize(a, b');
  }

  /** A cover by m intervals leaves at most m - 1 gaps open: each open gap ends an interval. */
  lemma {:induction false} CutsBelowReaching(xs: seq<int>, ivs: seq<Interval>, i: nat)
    requires Increasing(xs) && i < |xs|
    requires forall x | x in xs :: x in Union(ivs)
    ensures CutsFrom(xs, CutsOf(xs, ivs), i) + 1 <= |Reaching(xs, ivs, i)|
    decreases |xs| - i
  {
    assert xs[i] in xs;
    InUnion(ivs, xs[i]);
    var k :| 0 <= k < |ivs| && Within(ivs[k], xs[i]);
    if i + 1 == |xs| {
      assert k in Reaching(xs, ivs, i);
      ProperSubsetSmaller({}, Reaching(xs, ivs, i), k);
    } else {
      CutsBelowReaching(xs, ivs, i + 1);
      assert xs[i] < xs[i + 1];
      var now, next := Reaching(xs, ivs, i), Reaching(xs, ivs, i + 1);
      assert next <= now;
      SubsetSize(next, now);
      if i in CutsOf(xs, ivs) {
        assert !(Within(ivs[k], xs[i]) && Within(ivs[k], xs[i + 1]));
        ProperSubsetSmaller(next, now, k);
      }
    }
  }

  lemma {:induction false} IndexSetSize(s: set<nat>, n: nat)
    requires forall k | k in s :: k < n
    ensures |s| <= n
    decreases n
  {
    if n == 0 {
      assert s == {};
    } else {
      IndexSetSize(s - {n - 1}, n - 1);
      if n - 1 in s {
        assert s == (s - {n - 1}) + {n - 1};
      } else {
        assert s == s - {n - 1};
      }
    }
  }

  lemma {:induction false} CoverCuts(xs: seq<int>, ivs: seq<Interval>)
    requires Increasing(xs) && |xs| > 0
    requires forall x | x in xs :: x in Union(ivs)
    ensures IsCuts(xs, CutsOf(xs, ivs)) && |CutsOf(xs, ivs)| + 1 <= |ivs|
  {
    CutsBelowReaching(xs, ivs, 0);
    CutsFromZero(xs, CutsOf(xs, ivs));
    IndexSetSize(Reaching(xs, ivs, 0), |ivs|);
  }

  /** The points of a set from a bound on. */
  ghost function From(c: set<int>, lo: int): set<int> {
    set x | x in c && x >= lo
  }

  /** A set that contains the elements and fills every gap that is not cut has at least
      the weight of the cuts. */
  lemma {:induction false} WeightIsLowerBound(xs: seq<int>, cuts: set<nat>, c: set<int>, i: nat)
    requires Increasing(xs) && i < |xs|
    requires forall x | x in xs :: x in c
    requires forall k | 0 <= k < |xs| - 1 && k !in cuts :: Points(Interval(xs[k], xs[k + 1])) <= c
    ensures |From(c, xs[i])| >= Weight(xs, cuts, i)
    decreases |xs| - i
  {
    var here := From(c, xs[i]);
    assert xs[i] in xs;
    if i + 1 == |xs| {
      SubsetSize({xs[i]}, here);
    } else {
      WeightIsLowerBound(xs, cuts, c, i + 1);
      assert xs[i] < xs[i + 1];
      var there := From(c, xs[i + 1]);
      var extra := if i in cuts then {xs[i]} else Points(Interval(xs[i], xs[i + 1] - 1));
      if i !in cuts {
        PointsSize(Interval(xs[i], xs[i + 1] - 1));
        forall x | x in extra
          ensures x in c
        {
          assert x in Points(Interval(xs[i], xs[i + 1]));
        }
      }
      assert extra <= here && there <= here && extra !! there;
      SubsetSize(extra + there, here);
    }
  }

  lemma {:induction false} PointsSize(iv: Interval)
    requires iv.lo <= iv.hi + 1
    ensures |Points(iv)| == iv.hi - iv.lo + 1
    decreases iv.hi - iv.lo + 1
  {
    if iv.lo > iv.hi {
      assert Points(iv) == {};
    } else {
      PointsSize(Interval(iv.lo, iv.hi - 1));
      assert Points(iv) == Points(Interval(iv.lo, iv.hi - 1)) + {iv.hi};
    }
  }

  /** The optimality theorem: if the cuts separate small gaps from large ones, no union of
      |cuts| + 1 or fewer intervals that contains the array has fewer integers. */
  lemma {:induction false} GreedyIsOptimal(xs: seq<int>, cuts: set<nat>, ivs: seq<Interval>)
    requires Increasing(xs) && |xs| > 0 && IsCuts(xs, cuts) && Separated(xs, cuts)
    requires |ivs| <= |cuts| + 1
    requires forall x | x in xs :: x in Union(ivs)
    ensures RangeSize(Ends(xs, cuts, 0)) <= |Union(ivs)|
  {
    EndsShape(xs, cuts, 0);
    CoverCuts(xs, ivs);
    SeparatedIsLightest(xs, cuts, CutsOf(xs, ivs));
    var c := Union(ivs);
    forall k | 0 <= k < |xs| - 1 && k !in CutsOf(xs, ivs)
      ensures Points(Interval(xs[k], xs[k + 1])) <= c
    {
      var m :| 0 <= m < |ivs| && Within(ivs[m], xs[k]) && Within(ivs[m], xs[k + 1]);
      forall x | x in Points(Interval(xs[k], xs[k + 1]))
        ensures x in c
      {
        assert Within(ivs[m], x);
        InUnion(ivs, x);
      }
    }
    WeightIsLowerBound(xs, CutsOf(xs, ivs), c, 0);
    SubsetSize(From(c, xs[0]), c);
  }
}
